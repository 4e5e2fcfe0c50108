/** Redaction and restoring (internal/redact/redact.go). Whether a token looks like a secret and its
    SHA-256 digest are parameters. */
module Redact {
  import opened Wrappers
  import opened Text
  import opened Hex

  /** `matchesSecretPattern(s) || (isHighEntropy(s) && !looksLikeNonSecret(s))`, and `sha256Hex`. */
  datatype Detect = Detect(isSecret: string -> bool, sha256: string -> string)

  predicate AllHex(s: string) {
    forall i :: 0 <= i < |s| ==> IsLowerHex(s[i])
  }

  type Detector = d: Detect | forall s :: |d.sha256(s)| == 64 && AllHex(d.sha256(s))
    witness Detect((s: string) => false, (s: string) => seq(64, _ => '0'))

  // ---------- placeholders ----------

  const OPEN := "<agent-vault:"
  const UNVAULTED := "UNVAULTED:sha256:"
  const PREFIX_LEN := 12
  const MIN_LEN := 12

  predicate IsKeyChar(c: char) {
    'a' <= c <= 'z' || '0' <= c <= '9' || c == '-'
  }

  /** The key group of `placeholderRE`. */
  predicate ValidKey(name: string) {
    && name != "" && name[0] != '-' && name[|name| - 1] != '-'
    && forall i :: 0 <= i < |name| ==> IsKeyChar(name[i])
  }

  /** What `unvaultedRE` allows between the opening and `>`. */
  predicate UnvaultedName(name: string) {
    HasPrefix(name, UNVAULTED) && 8 <= |name| - |UNVAULTED| <= 16 && AllHex(name[|UNVAULTED|..])
  }

  function Tag(name: string): string {
    OPEN + name + ">"
  }

  function Until(s: string, c: char): (t: string)
    ensures c !in t && t <= s && (|t| < |s| ==> s[|t|] == c)
  {
    if s == "" || s[0] == c then "" else [s[0]] + Until(s[1..], c)
  }

  /** A placeholder pattern with the lookup behind it: vault keys and their resolved values, or digests
      and the tokens of the file on disk. */
  datatype Scheme = Vaulted(resolved: map<string, string>) | Hashed(det: Detector, tokens: seq<string>) {
    predicate Accepts(name: string) {
      match this
      case Vaulted(_) => ValidKey(name)
      case Hashed(_, _) => UnvaultedName(name)
    }

    function Get(name: string): Option<string> {
      match this
      case Vaulted(resolved) => if name in resolved then Some(resolved[name]) else None
      case Hashed(det, tokens) => FirstWith(det, tokens, HashOf(name))
    }
  }

  /** The name of the placeholder that `s` begins with. Both patterns allow no `>` in the name, so
      there is at most one. */
  function Slot(on: Scheme, s: string): (r: Option<string>)
    ensures r.Some? ==> on.Accepts(r.value) && '>' !in r.value && HasPrefix(s, Tag(r.value))
  {
    if HasPrefix(s, OPEN) then
      var name := Until(s[|OPEN|..], '>');
      if |name| < |s| - |OPEN| && on.Accepts(name) then Some(name) else None
    else None
  }

  /** `ReplaceAllStringFunc` with a lookup: a placeholder that is not found stays. */
  function Fill(on: Scheme, s: string): string
    decreases |s|
  {
    if s == "" then ""
    else
      match Slot(on, s)
      case None => [s[0]] + Fill(on, s[1..])
      case Some(name) => Lookup(on, name) + Fill(on, s[|Tag(name)|..])
  }

  function Lookup(on: Scheme, name: string): string {
    match on.Get(name)
    case None => Tag(name)
    case Some(v) => v
  }

  /** The names of the placeholders of a text, in order. */
  function NamesIn(on: Scheme, s: string): seq<string>
    decreases |s|
  {
    if s == "" then []
    else
      match Slot(on, s)
      case None => NamesIn(on, s[1..])
      case Some(name) => [name] + NamesIn(on, s[|Tag(name)|..])
  }

  /** The names whose lookup succeeds, or fails. */
  function Sifted(on: Scheme, names: seq<string>, hit: bool): seq<string> {
    if names == [] then []
    else (if on.Get(names[0]).Some? == hit then [names[0]] else []) + Sifted(on, names[1..], hit)
  }

  predicate NoAngles(s: string) {
    '<' !in s && '>' !in s
  }

  lemma AcceptedNoAngles(on: Scheme, name: string)
    requires on.Accepts(name)
    ensures NoAngles(name)
  {
    if on.Hashed? {
      assert name == UNVAULTED + name[|UNVAULTED|..];
      assert NoAngles(UNVAULTED);
    }
  }

  lemma TagBody(name: string)
    requires NoAngles(name)
    ensures Tag(name)[0] == '<' && forall i :: 1 <= i < |Tag(name)| ==> Tag(name)[i] != '<'
    ensures forall i :: 0 <= i < |Tag(name)| - 1 ==> Tag(name)[i] != '>'
    ensures Tag(name)[|Tag(name)| - 1] == '>'
  {}

  lemma {:induction false} UntilIs(s: string, c: char, t: string)
    requires c !in t && |t| < |s| && t <= s && s[|t|] == c
    ensures Until(s, c) == t
  {
    if t != "" {
      assert t[0] == s[0] && t[1..] <= s[1..];
      UntilIs(s[1..], c, t[1..]);
    }
  }

  lemma OpensWith(s: string, name: string)
    requires HasPrefix(s, Tag(name))
    ensures HasPrefix(s, OPEN)
    ensures var rest := s[|OPEN|..]; |name| < |rest| && name <= rest && rest[|name|] == '>'
  {
    var t := Tag(name);
    assert s[..|t|] == t;
    assert s[..|OPEN|] == t[..|OPEN|];
    var rest := s[|OPEN|..];
    assert rest[..|name|] == t[|OPEN|..|OPEN| + |name|] == name;
    assert rest[|name|] == t[|t| - 1] == '>';
  }

  /** A placeholder at the start of a text is the slot there. */
  lemma SlotIs(on: Scheme, s: string, name: string)
    requires HasPrefix(s, Tag(name)) && '>' !in name
    ensures Slot(on, s) == if on.Accepts(name) then Some(name) else None
  {
    OpensWith(s, name);
    UntilIs(s[|OPEN|..], '>', name);
  }

  /** One step of the scan. */
  lemma FillStep(on: Scheme, s: string)
    requires s != ""
    ensures Slot(on, s).None? ==> Fill(on, s) == [s[0]] + Fill(on, s[1..]) && NamesIn(on, s) == NamesIn(on, s[1..])
    ensures Slot(on, s).Some? ==>
              var name := Slot(on, s).value;
              && Fill(on, s) == Lookup(on, name) + Fill(on, s[|Tag(name)|..])
              && NamesIn(on, s) == [name] + NamesIn(on, s[|Tag(name)|..])
  {}

  /** What the scan has written so far, and what is left of the text. */
  predicate Scanned(on: Scheme, content: string, out: string, hits: seq<string>, misses: seq<string>, rest: string) {
    && Fill(on, content) == out + Fill(on, rest)
    && Sifted(on, NamesIn(on, content), true) == hits + Sifted(on, NamesIn(on, rest), true)
    && Sifted(on, NamesIn(on, content), false) == misses + Sifted(on, NamesIn(on, rest), false)
  }

  lemma CopiesChar(on: Scheme, content: string, out: string, hits: seq<string>, misses: seq<string>, rest: string)
    requires Scanned(on, content, out, hits, misses, rest) && rest != "" && Slot(on, rest).None?
    ensures Scanned(on, content, out + [rest[0]], hits, misses, rest[1..])
  {
    Assoc(out, [rest[0]], Fill(on, rest[1..]));
  }

  lemma FillsSlot(on: Scheme, content: string, out: string, hits: seq<string>, misses: seq<string>, rest: string)
    requires Scanned(on, content, out, hits, misses, rest) && rest != "" && Slot(on, rest).Some?
    ensures var name := Slot(on, rest).value;
            Scanned(on, content, out + Lookup(on, name),
                    if on.Get(name).Some? then hits + [name] else hits,
                    if on.Get(name).Some? then misses else misses + [name], rest[|Tag(name)|..])
  {
    var name := Slot(on, rest).value;
    var after := rest[|Tag(name)|..];
    Assoc(out, Lookup(on, name), Fill(on, after));
    SiftStep(on, name, NamesIn(on, after), hits, misses);
  }

  lemma SiftStep(on: Scheme, name: string, names: seq<string>, hits: seq<string>, misses: seq<string>)
    ensures hits + Sifted(on, [name] + names, true)
         == (if on.Get(name).Some? then hits + [name] else hits) + Sifted(on, names, true)
    ensures misses + Sifted(on, [name] + names, false)
         == (if on.Get(name).Some? then misses else misses + [name]) + Sifted(on, names, false)
  {
    assert ([name] + names)[1..] == names;
    Assoc(hits, [name], Sifted(on, names, true));
    Assoc(misses, [name], Sifted(on, names, false));
  }

  /** The scan behind `Restore` and `RestoreUnvaulted`. */
  method Scan(on: Scheme, content: string) returns (out: string, hits: seq<string>, misses: seq<string>)
    ensures out == Fill(on, content)
    ensures hits == Sifted(on, NamesIn(on, content), true)
    ensures misses == Sifted(on, NamesIn(on, content), false)
  {
    out, hits, misses := "", [], [];
    var rest := content;
    while rest != ""
      invariant Scanned(on, content, out, hits, misses, rest)
      decreases |rest|
    {
      match Slot(on, rest)
      case None =>
        CopiesChar(on, content, out, hits, misses, rest);
        out, rest := out + [rest[0]], rest[1..];
      case Some(name) =>
        FillsSlot(on, content, out, hits, misses, rest);
        match on.Get(name) {
          case Some(v) => out, hits := out + v, hits + [name];
          case None => out, misses := out + Tag(name), misses + [name];
        }
        rest := rest[|Tag(name)|..];
    }
  }

  /** `Restore`. */
  method Restore(content: string, resolved: map<string, string>)
    returns (out: string, restored: seq<string>, missing: seq<string>)
    ensures out == Fill(Vaulted(resolved), content)
    ensures restored == Sifted(Vaulted(resolved), NamesIn(Vaulted(resolved), content), true)
    ensures missing == Sifted(Vaulted(resolved), NamesIn(Vaulted(resolved), content), false)
  {
    out, restored, missing := Scan(Vaulted(resolved), content);
  }

  // ---------- candidates ----------

  /** RE2's `\s`. */
  predicate IsBlank(c: char) {
    c == '\t' || c == '\n' || c == '\U{0c}' || c == '\r' || c == ' '
  }

  function SkipBlanks(s: string): (t: string)
    ensures |t| <= |s|
  {
    if s != "" && IsBlank(s[0]) then SkipBlanks(s[1..]) else s
  }

  predicate IsWordStart(c: char) {
    'A' <= c <= 'Z' || 'a' <= c <= 'z' || c == '_'
  }

  predicate IsWordChar(c: char, dotted: bool) {
    IsWordStart(c) || '0' <= c <= '9' || (dotted && (c == '.' || c == '-'))
  }

  function SkipWord(s: string, dotted: bool): (t: string)
    ensures |t| <= |s|
  {
    if s != "" && IsWordChar(s[0], dotted) then SkipWord(s[1..], dotted) else s
  }

  function Present(s: string): seq<string> {
    if s == "" then [] else [s]
  }

  /** What follows the name and the blanks behind it. */
  function AfterName(s: string, dotted: bool): string {
    if s == "" || !IsWordStart(s[0]) then "" else SkipBlanks(SkipWord(s, dotted))
  }

  /** `reEnvLine` on a trimmed line. */
  function EnvValue(s: string): seq<string> {
    var rest := AfterName(s, false);
    if rest == "" || rest[0] != '=' then [] else Present(SkipBlanks(rest[1..]))
  }

  /** `reYamlLine` on a trimmed line. */
  function YamlValue(s: string): seq<string> {
    var rest := AfterName(s, true);
    if |rest| < 2 || rest[0] != ':' || !IsBlank(rest[1]) then [] else Present(SkipBlanks(rest[1..]))
  }

  /** A non-empty double-quoted text that `s` begins with. */
  function Quoted(s: string): Option<string> {
    if s == "" || s[0] != '"' then None
    else
      var body := Until(s[1..], '"');
      if body == "" || |body| == |s| - 1 then None else Some(body)
  }

  /** `reJSONLine` at the start of `s`. */
  function PairAt(s: string): Option<string> {
    match Quoted(s)
    case None => None
    case Some(key) =>
      var rest := SkipBlanks(s[|key| + 2..]);
      if rest == "" || rest[0] != ':' then None else Quoted(SkipBlanks(rest[1..]))
  }

  /** `reJSONLine` at its leftmost match. */
  function JsonValue(s: string): seq<string> {
    if s == "" then []
    else
      match PairAt(s)
      case Some(v) => [v]
      case None => JsonValue(s[1..])
  }

  /** `extractValueCandidates`. */
  function Candidates(line: string): seq<string> {
    var t := TrimSpace(line);
    if HasPrefix(t, "#") || HasPrefix(t, "//") then [] else EnvValue(t) + YamlValue(t) + JsonValue(t)
  }

  predicate IsQuote(c: char) {
    c == '"' || c == '\''
  }

  function DropQuote(s: string): (t: string)
    ensures |t| <= |s|
  {
    if s != "" && IsQuote(s[0]) then s[1..] else s
  }

  /** A closing quote goes, and a comma behind it. */
  function DropEnd(u: string): (t: string)
    ensures |t| <= |u| && (|t| == |u| ==> t == u)
  {
    var n := |u|;
    if n >= 2 && u[n - 1] == ',' && IsQuote(u[n - 2]) then u[..n - 2]
    else if n >= 1 && IsQuote(u[n - 1]) then u[..n - 1]
    else u
  }

  /** `stripQuotes`. */
  function StripQuotes(s: string): (t: string)
    ensures |t| <= |s|
    ensures |t| == |s| ==> t == s
  {
    DropEnd(DropQuote(TrimSpace(s)))
  }

  /** Whether a candidate counts as an unvaulted secret. */
  predicate Suspicious(det: Detector, cand: string)
    ensures Suspicious(det, cand) ==> cand != ""
  {
    Utf8Len(StripQuotes(cand)) >= MIN_LEN && det.isSecret(StripQuotes(cand))
  }

  // ---------- redacting ----------

  predicate Taken(det: Detector, known: set<string>, cand: string)
    ensures Taken(det, known, cand) ==> cand != ""
  {
    StripQuotes(cand) !in known && Suspicious(det, cand)
  }

  function TokenName(det: Detector, cand: string): string {
    UNVAULTED + det.sha256(StripQuotes(cand))[..PREFIX_LEN]
  }

  function ReplaceTokens(det: Detector, known: set<string>, result: string, cands: seq<string>): string
    decreases cands
  {
    if cands == [] then result
    else
      var next := if Taken(det, known, cands[0]) then ReplaceFirst(result, cands[0], Tag(TokenName(det, cands[0])))
                  else result;
      ReplaceTokens(det, known, next, cands[1..])
  }

  /** One line of `redactUnvaultedTokens`. */
  function RedactLine(det: Detector, known: set<string>, line: string): string {
    if Contains(line, OPEN) then line else ReplaceTokens(det, known, line, Candidates(line))
  }

  function RedactLines(det: Detector, known: set<string>, lines: seq<string>): (r: seq<string>)
    ensures |r| == |lines|
  {
    Map(LineRedactor(det, known), lines)
  }

  function LineRedactor(det: Detector, known: set<string>): string -> string {
    (line: string) => RedactLine(det, known, line)
  }

  function RedactUnvaulted(det: Detector, known: set<string>, content: string): string {
    Join(RedactLines(det, known, Split(content, '\n')), '\n')
  }

  type Values = map<string, string>

  /** The replacements of known values, in order. */
  function ReplaceEach(content: string, order: seq<string>, m: Values): string
    requires forall v <- order :: v in m && v != ""
  {
    if order == [] then content
    else
      var n := |order| - 1;
      ReplaceAll(ReplaceEach(content, order[..n], m), order[n], Tag(m[order[n]]))
  }

  /** An order that sorting by length, longest first, may choose for the non-empty values. */
  predicate LongestFirst(order: seq<string>, m: Values) {
    && (forall v <- order :: v in m && v != "")
    && (forall v <- m :: v != "" ==> v in order)
    && (forall i, j :: 0 <= i < j < |order| ==> order[i] != order[j] && Utf8Len(order[i]) >= Utf8Len(order[j]))
  }

  function Redacted(det: Detector, content: string, order: seq<string>, m: Values): string
    requires forall v <- order :: v in m && v != ""
  {
    RedactUnvaulted(det, m.Keys, ReplaceEach(content, order, m))
  }

  lemma TokensNext(det: Detector, known: set<string>, result: string, cands: seq<string>, j: nat)
    requires j < |cands|
    ensures ReplaceTokens(det, known, result, cands[j..])
         == ReplaceTokens(det, known,
                          if Taken(det, known, cands[j])
                          then ReplaceFirst(result, cands[j], Tag(TokenName(det, cands[j]))) else result,
                          cands[j + 1..])
  {
    assert cands[j..][0] == cands[j] && cands[j..][1..] == cands[j + 1..];
  }

  /** One turn of the line loop: a line with a placeholder is left alone. */
  method RewriteLine(det: Detector, known: set<string>, line: string) returns (result: string)
    ensures result == RedactLine(det, known, line)
  {
    result := line;
    if Contains(line, OPEN) {
      return;
    }
    var cands := Candidates(line);
    for j := 0 to |cands|
      invariant ReplaceTokens(det, known, line, cands) == ReplaceTokens(det, known, result, cands[j..])
    {
      TokensNext(det, known, result, cands, j);
      if Taken(det, known, cands[j]) {
        result := ReplaceFirst(result, cands[j], Tag(TokenName(det, cands[j])));
      }
    }
  }

  /** `redactUnvaultedTokens`. */
  method RedactUnvaultedTokens(det: Detector, content: string, known: set<string>) returns (out: string)
    ensures out == RedactUnvaulted(det, known, content)
  {
    var lines := Split(content, '\n');
    ghost var before := lines;
    for i := 0 to |lines|
      invariant |lines| == |before| && lines[i..] == before[i..]
      invariant lines[..i] == RedactLines(det, known, before[..i])
    {
      LineDone(det, known, before, lines, i);
      var result := RewriteLine(det, known, lines[i]);
      lines := lines[i := result];
    }
    TakeAll(lines);
    TakeAll(before);
    out := Join(lines, '\n');
  }

  lemma LineDone(det: Detector, known: set<string>, before: seq<string>, lines: seq<string>, i: nat)
    requires i < |lines| == |before| && lines[i..] == before[i..]
    requires lines[..i] == RedactLines(det, known, before[..i])
    ensures var next := lines[i := RedactLine(det, known, lines[i])];
            next[i + 1..] == before[i + 1..] && next[..i + 1] == RedactLines(det, known, before[..i + 1])
  {
    WriteNext(before, i, lines[i]);
    WriteNext(lines, i, RedactLine(det, known, lines[i]));
    TakeSnoc(before, i);
    LinesSnoc(det, known, before[..i], lines[i]);
  }

  lemma LinesSnoc(det: Detector, known: set<string>, lines: seq<string>, line: string)
    ensures RedactLines(det, known, lines + [line]) == RedactLines(det, known, lines) + [RedactLine(det, known, line)]
  {
    MapConcat(LineRedactor(det, known), lines, [line]);
  }

  /** Any of the longest values left. */
  method PickLongest(rest: set<string>) returns (v: string)
    requires rest != {}
    ensures v in rest && forall w <- rest :: Utf8Len(w) <= Utf8Len(v)
  {
    ghost var w := Longest(rest);
    v :| v in rest && forall w <- rest :: Utf8Len(w) <= Utf8Len(v);
  }

  lemma {:induction false} Longest(rest: set<string>) returns (v: string)
    requires rest != {}
    ensures v in rest && forall w <- rest :: Utf8Len(w) <= Utf8Len(v)
    decreases |rest|
  {
    v :| v in rest;
    var others := rest - {v};
    if others != {} {
      var y := Longest(others);
      if Utf8Len(v) < Utf8Len(y) {
        v := y;
      }
    }
  }

  /** The sort by length, as far as Go promises anything: among equal lengths any order may come out. */
  method SortEntries(m: Values) returns (order: seq<string>)
    ensures LongestFirst(order, m)
  {
    order := [];
    var rest := set v | v in m && v != "";
    while rest != {}
      invariant forall v <- rest :: v in m && v != "" && v !in order
      invariant forall v <- m :: v != "" ==> v in order || v in rest
      invariant forall v <- order :: v in m && v != ""
      invariant forall i, j :: 0 <= i < j < |order| ==> order[i] != order[j] && Utf8Len(order[i]) >= Utf8Len(order[j])
      invariant forall v <- order, w <- rest :: Utf8Len(v) >= Utf8Len(w)
      decreases |rest|
    {
      var v := PickLongest(rest);
      order := order + [v];
      rest := rest - {v};
    }
  }

  lemma EachSnoc(content: string, order: seq<string>, i: nat, m: Values)
    requires i < |order| && forall v <- order :: v in m && v != ""
    ensures ReplaceEach(content, order[..i + 1], m)
            == ReplaceAll(ReplaceEach(content, order[..i], m), order[i], Tag(m[order[i]]))
  {
    assert order[..i + 1][..i] == order[..i];
  }

  /** `Redact`: both phases, for some order the sort may have chosen. */
  method RedactContent(det: Detector, content: string, secretValues: Values) returns (out: string)
    ensures exists order :: LongestFirst(order, secretValues) && out == Redacted(det, content, order, secretValues)
  {
    var entries := SortEntries(secretValues);
    var result := content;
    for i := 0 to |entries|
      invariant result == ReplaceEach(content, entries[..i], secretValues)
    {
      EachSnoc(content, entries, i, secretValues);
      result := ReplaceAll(result, entries[i], Tag(secretValues[entries[i]]));
    }
    TakeAll(entries);
    out := RedactUnvaultedTokens(det, result, secretValues.Keys);
    assert LongestFirst(entries, secretValues) && out == Redacted(det, content, entries, secretValues);
  }

  // ---------- restoring unvaulted tokens ----------

  /** A suspicious candidate's token, unless it was seen. */
  function AddToken(det: Detector, before: seq<string>, c: string): seq<string> {
    if Suspicious(det, c) && StripQuotes(c) !in before then before + [StripQuotes(c)] else before
  }

  /** The distinct suspicious tokens of some candidates, after those already seen. */
  function Collected(det: Detector, cands: seq<string>, seen: seq<string>): seq<string> {
    if cands == [] then seen
    else AddToken(det, Collected(det, cands[..|cands| - 1], seen), cands[|cands| - 1])
  }

  /** The distinct suspicious tokens of some lines. */
  function TokensOf(det: Detector, lines: seq<string>): seq<string> {
    if lines == [] then []
    else Collected(det, Candidates(lines[|lines| - 1]), TokensOf(det, lines[..|lines| - 1]))
  }

  /** The first token whose digest begins with the hash. */
  function FirstWith(det: Detector, tokens: seq<string>, hash: string): Option<string> {
    if tokens == [] then None
    else if HasPrefix(det.sha256(tokens[0]), hash) then Some(tokens[0])
    else FirstWith(det, tokens[1..], hash)
  }

  function HashOf(name: string): string {
    if |UNVAULTED| <= |name| then name[|UNVAULTED|..] else ""
  }

  function Hashes(names: seq<string>): seq<string> {
    seq(|names|, i requires 0 <= i < |names| => HashOf(names[i]))
  }

  /** A suspicious token of a line. */
  predicate FoundOn(det: Detector, line: string, x: string) {
    FoundAmong(det, Candidates(line), x)
  }

  predicate FoundIn(det: Detector, lines: seq<string>, x: string) {
    exists line <- lines :: FoundOn(det, line, x)
  }

  predicate FoundAmong(det: Detector, cands: seq<string>, x: string) {
    exists c <- cands :: Suspicious(det, c) && StripQuotes(c) == x
  }

  predicate Once(tokens: seq<string>) {
    forall i, j :: 0 <= i < j < |tokens| ==> tokens[i] != tokens[j]
  }

  lemma AddTokenIs(det: Detector, before: seq<string>, c: string, x: string)
    requires Once(before)
    ensures Once(AddToken(det, before, c))
    ensures x in AddToken(det, before, c) <==> x in before || (Suspicious(det, c) && StripQuotes(c) == x)
  {}

  lemma {:induction false} CollectedExactly(det: Detector, cands: seq<string>, seen: seq<string>, x: string)
    requires Once(seen)
    ensures x in Collected(det, cands, seen) <==> x in seen || FoundAmong(det, cands, x)
    ensures Once(Collected(det, cands, seen))
  {
    if cands != [] {
      CollectedExactly(det, cands[..|cands| - 1], seen, x);
      AddTokenIs(det, Collected(det, cands[..|cands| - 1], seen), cands[|cands| - 1], x);
      AmongLast(det, cands, x);
    }
  }

  lemma AmongLast(det: Detector, cands: seq<string>, x: string)
    requires cands != []
    ensures var last := cands[|cands| - 1];
            FoundAmong(det, cands, x)
            <==> FoundAmong(det, cands[..|cands| - 1], x) || (Suspicious(det, last) && StripQuotes(last) == x)
  {
    var front, last := cands[..|cands| - 1], cands[|cands| - 1];
    assert cands == front + [last];
    assert forall c :: c in cands <==> c in front || c == last;
  }

  /** The collected tokens are exactly the suspicious ones, each once. */
  lemma {:induction false} TokensExactly(det: Detector, lines: seq<string>, x: string)
    ensures x in TokensOf(det, lines) <==> FoundIn(det, lines, x)
    ensures Once(TokensOf(det, lines))
  {
    if lines != [] {
      var front, last := lines[..|lines| - 1], lines[|lines| - 1];
      LastSnoc(lines);
      TokensExactly(det, front, x);
      TokensMore(det, front, last, x);
    }
  }

  lemma TokensMore(det: Detector, front: seq<string>, last: string, x: string)
    requires Once(TokensOf(det, front)) && (x in TokensOf(det, front) <==> FoundIn(det, front, x))
    ensures x in TokensOf(det, front + [last]) <==> FoundIn(det, front + [last], x)
    ensures Once(TokensOf(det, front + [last]))
  {
    TokensSnoc(det, front, last);
    NextTokens(det, front, last, TokensOf(det, front), Candidates(last), x);
  }

  lemma NextTokens(det: Detector, front: seq<string>, last: string, tokens: seq<string>, cands: seq<string>, x: string)
    requires Once(tokens) && (x in tokens <==> FoundIn(det, front, x)) && cands == Candidates(last)
    ensures x in Collected(det, cands, tokens) <==> FoundIn(det, front + [last], x)
    ensures Once(Collected(det, cands, tokens))
  {
    CollectedExactly(det, cands, tokens, x);
    OnSnoc(det, front, last, x);
  }

  lemma OnSnoc(det: Detector, front: seq<string>, last: string, x: string)
    ensures FoundIn(det, front + [last], x) <==> FoundIn(det, front, x) || FoundOn(det, last, x)
  {
    assert forall l :: l in front + [last] <==> l in front || l == last;
  }

  lemma TokensSnoc(det: Detector, lines: seq<string>, line: string)
    ensures TokensOf(det, lines + [line]) == Collected(det, Candidates(line), TokensOf(det, lines))
  {
    assert (lines + [line])[..|lines|] == lines;
  }

  method CollectFrom(det: Detector, cands: seq<string>, seen: seq<string>) returns (tokens: seq<string>)
    ensures tokens == Collected(det, cands, seen)
  {
    tokens := seen;
    for j := 0 to |cands|
      invariant tokens == Collected(det, cands[..j], seen)
    {
      assert cands[..j + 1][..j] == cands[..j];
      if Suspicious(det, cands[j]) && StripQuotes(cands[j]) !in tokens {
        tokens := tokens + [StripQuotes(cands[j])];
      }
    }
    assert cands[..|cands|] == cands;
  }

  /** The candidate loop of `RestoreUnvaulted`. */
  method CollectTokens(det: Detector, existing: string) returns (tokens: seq<string>)
    ensures tokens == TokensOf(det, Split(existing, '\n'))
  {
    var lines := Split(existing, '\n');
    tokens := [];
    for i := 0 to |lines|
      invariant tokens == TokensOf(det, lines[..i])
    {
      tokens := CollectFrom(det, Candidates(lines[i]), tokens);
      TokensSnoc(det, lines[..i], lines[i]);
      TakeSnoc(lines, i);
    }
    TakeAll(lines);
  }

  function Existing(det: Detector, existing: string): Scheme {
    Hashed(det, TokensOf(det, Split(existing, '\n')))
  }

  /** `RestoreUnvaulted`. */
  method RestoreUnvaulted(det: Detector, content: string, existing: string)
    returns (out: string, restoredCount: nat, unmatched: seq<string>)
    ensures out == Fill(Existing(det, existing), content)
    ensures restoredCount == |Sifted(Existing(det, existing), NamesIn(Existing(det, existing), content), true)|
    ensures unmatched == Hashes(Sifted(Existing(det, existing), NamesIn(Existing(det, existing), content), false))
  {
    var tokens := CollectTokens(det, existing);
    var hits, misses;
    out, hits, misses := Scan(Hashed(det, tokens), content);
    restoredCount, unmatched := |hits|, Hashes(misses);
  }

  lemma NotInTag(s: string, a: string, b: string, i: nat)
    requires OccursAt(s, a, 0) && OccursAt(s, b, i) && i > 0 && b != "" && b[0] == '<'
    requires forall j :: 1 <= j < |a| ==> a[j] != '<'
    ensures i >= |a|
  {
    OccursChars(s, a, 0);
    OccursChars(s, b, i);
    assert s[i + 0] == '<';
    assert forall j :: 0 <= j < |a| ==> s[0 + j] == a[j];
  }

  /** A placeholder that the scan jumps over holds no other. */
  lemma NotWithin(on: Scheme, s: string, k: string, i: nat)
    requires on.Accepts(k) && OccursAt(s, Tag(k), i) && Slot(on, s).Some? && i > 0
    ensures i >= |Tag(Slot(on, s).value)|
  {
    var name := Slot(on, s).value;
    AcceptedNoAngles(on, name);
    TagBody(name);
    AcceptedNoAngles(on, k);
    TagBody(k);
    assert OccursAt(s, Tag(name), 0);
    NotInTag(s, Tag(name), Tag(k), i);
  }

  lemma ContainsLater(s: string, p: string, i: nat, j: nat)
    requires j <= i && OccursAt(s, p, i)
    ensures j <= |s| && Contains(s[j..], p)
  {
    assert s[j..][i - j..i - j + |p|] == s[i..i + |p|];
    assert OccursAt(s[j..], p, i - j);
  }

  lemma ContainsBefore(s: string, p: string, j: nat)
    requires j <= |s| && Contains(s[j..], p)
    ensures Contains(s, p)
  {
    assert s == s[..j] + s[j..] + "";
    ContainsInside(s[..j], s[j..], "", p);
  }

  /** How far one step of the scan goes. */
  function Jump(on: Scheme, s: string): nat {
    match Slot(on, s)
    case None => 1
    case Some(name) => |Tag(name)|
  }

  /** The scan finds exactly the placeholders that occur in the text. */
  lemma {:induction false} NamesExactly(on: Scheme, s: string, k: string)
    ensures k in NamesIn(on, s) <==> on.Accepts(k) && Contains(s, Tag(k))
    decreases |s|
  {
    if s == "" {
      assert |Tag(k)| > 0;
    } else {
      NamesStep(on, s, k);
      NamesExactly(on, s[Jump(on, s)..], k);
      OccursNow(on, s, k);
      if on.Accepts(k) && Contains(s, Tag(k)) {
        var i: nat :| i <= |s| && OccursAt(s, Tag(k), i);
        FoundFrom(on, s, k, i);
      }
    }
  }

  lemma NamesStep(on: Scheme, s: string, k: string)
    requires s != ""
    ensures 0 < Jump(on, s) <= |s|
    ensures k in NamesIn(on, s) <==> Slot(on, s) == Some(k) || k in NamesIn(on, s[Jump(on, s)..])
  {
    FillStep(on, s);
  }

  /** What one step of the scan finds, and what it leaves, occurs in the text. */
  lemma OccursNow(on: Scheme, s: string, k: string)
    requires Jump(on, s) <= |s|
    ensures Slot(on, s) == Some(k) ==> on.Accepts(k) && Contains(s, Tag(k))
    ensures Contains(s[Jump(on, s)..], Tag(k)) ==> Contains(s, Tag(k))
  {
    if Slot(on, s) == Some(k) {
      assert OccursAt(s, Tag(k), 0);
    }
    if Contains(s[Jump(on, s)..], Tag(k)) {
      ContainsBefore(s, Tag(k), Jump(on, s));
    }
  }

  lemma FoundFrom(on: Scheme, s: string, k: string, i: nat)
    requires on.Accepts(k) && OccursAt(s, Tag(k), i) && 0 < Jump(on, s) <= |s|
    ensures Slot(on, s) == Some(k) || Contains(s[Jump(on, s)..], Tag(k))
  {
    if i == 0 {
      AcceptedNoAngles(on, k);
      SlotIs(on, s, k);
    } else {
      if Slot(on, s).Some? {
        NotWithin(on, s, k, i);
      }
      ContainsLater(s, Tag(k), i, Jump(on, s));
    }
  }

  /** `ExtractPlaceholders`: the distinct keys a text refers to. */
  method ExtractPlaceholders(content: string) returns (keys: seq<string>)
    ensures forall k :: k in keys <==> ValidKey(k) && Contains(content, Tag(k))
    ensures forall i, j :: 0 <= i < j < |keys| ==> keys[i] != keys[j]
  {
    forall k
      ensures k in NamesIn(Vaulted(map[]), content) <==> ValidKey(k) && Contains(content, Tag(k))
    {
      NamesExactly(Vaulted(map[]), content, k);
    }
    keys := [];
    var rest := content;
    while rest != ""
      invariant forall k :: k in NamesIn(Vaulted(map[]), content) <==> k in keys || k in NamesIn(Vaulted(map[]), rest)
      invariant forall i, j :: 0 <= i < j < |keys| ==> keys[i] != keys[j]
      decreases |rest|
    {
      match Slot(Vaulted(map[]), rest)
      case None => rest := rest[1..];
      case Some(name) =>
        if name !in keys {
          keys := keys + [name];
        }
        rest := rest[|Tag(name)|..];
    }
  }
}
