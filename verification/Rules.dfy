/** The rules file: lines, columns, loading and first-match (internal/aclrules/aclrules.go,
    cmd/alice/exec.go). */
module Rules {
  import opened Wrappers
  import opened Text
  import opened Regex
  import opened ShellQuote

  /** `regex` is the anchored text that was compiled. */
  datatype Rule = Rule(
    regex: string, envAllow: seq<string>, envAny: bool, auditLabel: string, scope: seq<string>, lineNo: nat,
    raw: string)

  datatype RuleError =
    | TooManyFields(lineNo: nat) | BadRegex(lineNo: nat) | BadEnv(lineNo: nat) | BadLabel(lineNo: nat)
    | BadScope(lineNo: nat) | LineTooLong

  datatype LoadError = RulesMissing | ParseErrors(errs: seq<RuleError>) | MatchesEverything(lineNo: nat)

  // ---------- columns ----------

  predicate IsNameStart(c: char) {
    'A' <= c <= 'Z' || 'a' <= c <= 'z' || c == '_'
  }

  /** `envNameRE`. */
  predicate IsEnvName(s: string) {
    s != "" && IsNameStart(s[0]) && forall i :: 0 <= i < |s| ==> IsNameStart(s[i]) || '0' <= s[i] <= '9'
  }

  function Trimmed(parts: seq<string>): seq<string> {
    seq(|parts|, i requires 0 <= i < |parts| => TrimSpace(parts[i]))
  }

  /** The two columns that hold comma-separated names. */
  datatype Kind = EnvNames | Surfaces

  predicate Accepts(kind: Kind, name: string) {
    match kind
    case EnvNames => IsEnvName(name)
    case Surfaces => IsKnownSurface(name)
  }

  predicate AllAccepted(kind: Kind, names: seq<string>) {
    forall name <- names :: Accepts(kind, name)
  }

  /** The names of a column, if every one is accepted. */
  function Names(col: string, kind: Kind): Option<seq<string>> {
    var names := Trimmed(Split(col, ','));
    if AllAccepted(kind, names) then Some(names) else None
  }

  function EnvColumn(col: string, lineNo: nat): Result<(seq<string>, bool), RuleError> {
    var c := TrimSpace(col);
    if c == "" then Ok(([], false))
    else if c == "*" then Ok(([], true))
    else
      match Names(c, EnvNames)
      case None => Err(BadEnv(lineNo))
      case Some(names) => Ok((names, false))
  }

  predicate IsKnownSurface(s: string) {
    s == "cli" || s == "mcp"
  }

  function ScopeColumn(col: string, lineNo: nat): Result<seq<string>, RuleError> {
    var c := TrimSpace(col);
    if c == "" then Ok(["cli"])
    else
      match Names(c, Surfaces)
      case None => Err(BadScope(lineNo))
      case Some(names) => Ok(names)
  }

  function LabelColumn(col: string, lineNo: nat): Result<string, RuleError> {
    if col == "" then Ok("")
    else if col[0] != '#' then Err(BadLabel(lineNo))
    else Ok(TrimSpace(col[1..]))
  }

  lemma AcceptedAt(kind: Kind, names: seq<string>, i: nat)
    requires i < |names| && AllAccepted(kind, names[..i])
    ensures AllAccepted(kind, names[..i + 1]) <==> Accepts(kind, names[i])
    ensures !Accepts(kind, names[i]) ==> !AllAccepted(kind, names)
    ensures names[..i + 1] == names[..i] + [names[i]]
  {
    assert names[i] in names && names[i] in names[..i + 1];
  }

  /** The loop of the column parsers. */
  method ParseNames(col: string, kind: Kind) returns (r: Option<seq<string>>)
    ensures r == Names(col, kind)
  {
    var parts := Split(col, ',');
    ghost var trimmed := Trimmed(parts);
    var names: seq<string> := [];
    for i := 0 to |parts|
      invariant names == trimmed[..i]
      invariant AllAccepted(kind, names)
    {
      var name := TrimSpace(parts[i]);
      AcceptedAt(kind, trimmed, i);
      if !Accepts(kind, name) {
        return None;
      }
      names := names + [name];
    }
    assert trimmed[..|parts|] == trimmed;
    return Some(names);
  }

  // ---------- lines ----------

  function Field(fields: seq<string>, i: nat): string {
    if i < |fields| then fields[i] else ""
  }

  function ParseLine(e: Re2, line: string, lineNo: nat): Result<Rule, RuleError> {
    var fields := Split(line, '\t');
    if |fields| > 4 then Err(TooManyFields(lineNo))
    else if !e.compiles(Anchored(fields[0])) then Err(BadRegex(lineNo))
    else
      Assemble(Anchored(fields[0]), EnvColumn(Field(fields, 1), lineNo), LabelColumn(Field(fields, 2), lineNo),
               ScopeColumn(Field(fields, 3), lineNo), lineNo, line)
  }

  /** The rule, or the error of the first bad column. */
  function Assemble(regex: string, env: Result<(seq<string>, bool), RuleError>, auditLabel: Result<string, RuleError>,
                    scope: Result<seq<string>, RuleError>, lineNo: nat, line: string): Result<Rule, RuleError>
  {
    if env.Err? then Err(env.error)
    else if auditLabel.Err? then Err(auditLabel.error)
    else if scope.Err? then Err(scope.error)
    else Ok(Rule(regex, env.value.0, env.value.1, auditLabel.value, scope.value, lineNo, line))
  }

  const MAX_TOKEN := 4 * 1024

  /** The scanner gives up on a line whose bytes do not leave room for a line break in its buffer. */
  predicate Fits(raw: string) {
    Utf8Len(raw) < MAX_TOKEN
  }

  function DropCR(s: string): string {
    if s != "" && s[|s| - 1] == '\r' then s[..|s| - 1] else s
  }

  /** The lines of a text before carriage returns are dropped; a final line break ends the last line. */
  function RawLines(text: string): seq<string> {
    var parts := Split(text, '\n');
    if parts[|parts| - 1] == "" then parts[..|parts| - 1] else parts
  }

  predicate Skipped(line: string) {
    var t := TrimSpace(line);
    t == "" || t[0] == '#'
  }

  /** Rules and errors so far; `stopped` once a line was too long to scan. */
  datatype Parsed = Parsed(rules: seq<Rule>, errs: seq<RuleError>, stopped: bool)

  /** What the n-th line adds. */
  function AddLine(e: Re2, p: Parsed, raw: string, n: nat): Parsed {
    var line := DropCR(raw);
    if p.stopped then p
    else if !Fits(raw) then Parsed(p.rules, p.errs + [LineTooLong], true)
    else if Skipped(line) then p
    else
      match ParseLine(e, line, n)
      case Ok(rule) => p.(rules := p.rules + [rule])
      case Err(err) => p.(errs := p.errs + [err])
  }

  function ParseLines(e: Re2, raws: seq<string>): Parsed {
    if raws == [] then Parsed([], [], false)
    else AddLine(e, ParseLines(e, raws[..|raws| - 1]), raws[|raws| - 1], |raws|)
  }

  /** `Parse`, with its scanner over the raw lines; it stops at a line that is too long. */
  method Parse(e: Re2, text: string) returns (rules: seq<Rule>, errs: seq<RuleError>)
    ensures rules == ParseLines(e, RawLines(text)).rules && errs == ParseLines(e, RawLines(text)).errs
  {
    var raws := RawLines(text);
    rules, errs := [], [];
    var lineNo := 0;
    while lineNo < |raws|
      invariant 0 <= lineNo <= |raws|
      invariant ParseLines(e, raws[..lineNo]) == Parsed(rules, errs, false)
    {
      var raw := raws[lineNo];
      assert raws[..lineNo + 1][..lineNo] == raws[..lineNo];
      if !Fits(raw) {
        errs := errs + [LineTooLong];
        StopsThere(e, raws, lineNo + 1);
        return;
      }
      lineNo := lineNo + 1;
      var line := DropCR(raw);
      if !Skipped(line) {
        var r := ParseLine(e, line, lineNo);
        if r.Err? {
          errs := errs + [r.error];
        } else {
          rules := rules + [r.value];
        }
      }
    }
    assert raws[..lineNo] == raws;
  }

  lemma {:induction false} StopsThere(e: Re2, raws: seq<string>, n: nat)
    requires n <= |raws| && ParseLines(e, raws[..n]).stopped
    ensures ParseLines(e, raws) == ParseLines(e, raws[..n])
    decreases |raws|
  {
    if n == |raws| {
      assert raws[..n] == raws;
    } else {
      var front := raws[..|raws| - 1];
      assert front[..n] == raws[..n];
      StopsThere(e, front, n);
    }
  }

  // ---------- loading and deciding ----------

  predicate MatchesAll(e: Re2, r: Rule) {
    e.matches(r.regex, "") && e.matches(r.regex, "/") && e.matches(r.regex, "../../etc/passwd")
  }

  /** The first rule that matches everything, by its position. */
  function FirstTrivial(e: Re2, rules: seq<Rule>): Option<Rule> {
    if rules == [] then None
    else if MatchesAll(e, rules[0]) then Some(rules[0])
    else FirstTrivial(e, rules[1..])
  }

  /** `LoadFile`: no rules at all unless every line is good and no rule is trivial. */
  function Load(e: Re2, file: Option<string>): Result<seq<Rule>, LoadError> {
    match file
    case None => Err(RulesMissing)
    case Some(text) =>
      var p := ParseLines(e, RawLines(text));
      if p.errs != [] then Err(ParseErrors(p.errs))
      else
        match FirstTrivial(e, p.rules)
        case Some(r) => Err(MatchesEverything(r.lineNo))
        case None => Ok(p.rules)
  }

  /** `envAllowed`. */
  predicate EnvAllowed(r: Rule, envKeys: seq<string>) {
    r.envAny || envKeys == [] || (r.envAllow != [] && forall k <- envKeys :: k in r.envAllow)
  }

  /** `Matches`. */
  predicate RuleMatches(e: Re2, r: Rule, matchStr: string, envKeys: seq<string>) {
    e.matches(r.regex, matchStr) && EnvAllowed(r, envKeys)
  }

  /** The rules of one surface, in order. */
  function OnSurface(rules: seq<Rule>, surface: string): seq<Rule> {
    if rules == [] then []
    else OnSurface(rules[..|rules| - 1], surface)
         + (if surface in rules[|rules| - 1].scope then [rules[|rules| - 1]] else [])
  }

  function FirstMatch(e: Re2, rules: seq<Rule>, matchStr: string, envKeys: seq<string>): Option<Rule> {
    if rules == [] then None
    else if RuleMatches(e, rules[0], matchStr, envKeys) then Some(rules[0])
    else FirstMatch(e, rules[1..], matchStr, envKeys)
  }

  method FilterBySurface(rules: seq<Rule>, surface: string) returns (out: seq<Rule>)
    ensures out == OnSurface(rules, surface)
  {
    out := [];
    for i := 0 to |rules|
      invariant out == OnSurface(rules[..i], surface)
    {
      assert rules[..i + 1][..i] == rules[..i];
      if surface in rules[i].scope {
        out := out + [rules[i]];
      }
    }
    assert rules[..|rules|] == rules;
  }

  /** The selection loop of `alice exec`. */
  method Select(e: Re2, rules: seq<Rule>, matchStr: string, envKeys: seq<string>) returns (matched: Option<Rule>)
    ensures matched == FirstMatch(e, rules, matchStr, envKeys)
  {
    for i := 0 to |rules|
      invariant FirstMatch(e, rules, matchStr, envKeys) == FirstMatch(e, rules[i..], matchStr, envKeys)
    {
      if RuleMatches(e, rules[i], matchStr, envKeys) {
        return Some(rules[i]);
      }
      assert rules[i..][1..] == rules[i + 1..];
    }
    return None;
  }

  /** The rule `alice exec` runs an invocation under, if any. */
  function Decide(e: Re2, file: Option<string>, surface: string, cmd: string, args: seq<string>, envKeys: seq<string>)
    : Result<Option<Rule>, LoadError>
  {
    match Load(e, file)
    case Err(err) => Err(err)
    case Ok(rules) => Ok(FirstMatch(e, OnSurface(rules, surface), Canonical(cmd, args), envKeys))
  }

  lemma {:induction false} OnSurfaceMembers(rules: seq<Rule>, surface: string)
    ensures forall r :: r in OnSurface(rules, surface) <==> r in rules && surface in r.scope
  {
    if rules != [] {
      var front, last := rules[..|rules| - 1], rules[|rules| - 1];
      OnSurfaceMembers(front, surface);
      assert rules == front + [last];
    }
  }

  /** The first match is a rule that matches, with none before it that does. */
  lemma {:induction false} FirstMatchIs(e: Re2, rules: seq<Rule>, matchStr: string, envKeys: seq<string>, r: Rule)
    ensures FirstMatch(e, rules, matchStr, envKeys) == Some(r) <==>
              exists i :: 0 <= i < |rules| && IsFirst(e, rules, matchStr, envKeys, i) && rules[i] == r
    ensures FirstMatch(e, rules, matchStr, envKeys).None?
            <==> forall q <- rules :: !RuleMatches(e, q, matchStr, envKeys)
  {
    if rules != [] {
      var rest := rules[1..];
      FirstMatchIs(e, rest, matchStr, envKeys, r);
      assert rules == [rules[0]] + rest;
      if RuleMatches(e, rules[0], matchStr, envKeys) {
        assert IsFirst(e, rules, matchStr, envKeys, 0);
      } else {
        forall i | 0 <= i < |rest|
          ensures IsFirst(e, rest, matchStr, envKeys, i) <==> IsFirst(e, rules, matchStr, envKeys, i + 1)
        {
          assert forall j :: 0 <= j < i ==> rest[j] == rules[j + 1];
        }
        assert forall i :: 0 < i < |rules| ==> rules[i] == rest[i - 1];
      }
    }
  }

  predicate IsFirst(e: Re2, rules: seq<Rule>, matchStr: string, envKeys: seq<string>, i: nat)
    requires i < |rules|
  {
    && RuleMatches(e, rules[i], matchStr, envKeys)
    && forall j :: 0 <= j < i ==> !RuleMatches(e, rules[j], matchStr, envKeys)
  }

  /** Default deny: an invocation is allowed exactly when the file loads and some rule tagged for the
      surface matches it. */
  lemma AllowedExactly(e: Re2, file: Option<string>, surface: string, cmd: string, args: seq<string>,
                       envKeys: seq<string>)
    ensures var d := Decide(e, file, surface, cmd, args, envKeys);
            (d.Ok? && d.value.Some?) <==>
              (&& Load(e, file).Ok?
               && exists r <- Load(e, file).value ::
                    surface in r.scope && RuleMatches(e, r, Canonical(cmd, args), envKeys))
    ensures var d := Decide(e, file, surface, cmd, args, envKeys);
            d.Ok? && d.value.Some? ==>
              var r := d.value.value;
              r in Load(e, file).value && surface in r.scope && RuleMatches(e, r, Canonical(cmd, args), envKeys)
              && !MatchesAll(e, r)
  {
    if Load(e, file).Ok? {
      var rules := Load(e, file).value;
      var here := OnSurface(rules, surface);
      var found := FirstMatch(e, here, Canonical(cmd, args), envKeys);
      OnSurfaceMembers(rules, surface);
      NoneTrivial(e, rules);
      FirstMatchIs(e, here, Canonical(cmd, args), envKeys,
                   if found.Some? then found.value else Rule("", [], false, "", [], 0, ""));
    }
  }

  lemma {:induction false} NoneTrivial(e: Re2, rules: seq<Rule>)
    requires FirstTrivial(e, rules).None?
    ensures forall r <- rules :: !MatchesAll(e, r)
  {
    if rules != [] {
      NoneTrivial(e, rules[1..]);
      assert rules == [rules[0]] + rules[1..];
    }
  }

  /** The gate of `alice exec`, as it runs. */
  method Gate(e: Re2, file: Option<string>, surface: string, cmd: string, args: seq<string>, envKeys: seq<string>)
    returns (r: Result<Option<Rule>, LoadError>)
    ensures r == Decide(e, file, surface, cmd, args, envKeys)
  {
    if file.None? {
      return Err(RulesMissing);
    }
    var rules, errs := Parse(e, file.value);
    if errs != [] {
      return Err(ParseErrors(errs));
    }
    var trivial := FirstTrivial(e, rules);
    if trivial.Some? {
      return Err(MatchesEverything(trivial.value.lineNo));
    }
    rules := FilterBySurface(rules, surface);
    var matchStr := Canonicalize(cmd, args);
    var matched := Select(e, rules, matchStr, envKeys);
    return Ok(matched);
  }
}
