/** The assignment patterns behind the redaction candidates, against the shapes their regular
    expressions describe (internal/redact/redact.go). Lines are trimmed when they are matched. */
module RedactSyntax {
  import opened Wrappers
  import opened Text
  import opened Redact

  predicate Blanks(b: string) {
    forall i :: 0 <= i < |b| ==> IsBlank(b[i])
  }

  /** `[A-Za-z_][A-Za-z0-9_]*`, or with dots and dashes from the second character on. */
  predicate Word(name: string, dotted: bool) {
    name != "" && IsWordStart(name[0]) && forall i :: 0 <= i < |name| ==> IsWordChar(name[i], dotted)
  }

  predicate StartsSolid(s: string) {
    s == "" || !IsBlank(s[0])
  }

  predicate StartsOther(s: string, dotted: bool) {
    s == "" || !IsWordChar(s[0], dotted)
  }

  lemma {:induction false} SkipsBlanks(b: string, t: string)
    requires Blanks(b) && StartsSolid(t)
    ensures SkipBlanks(b + t) == t
  {
    if b == "" {
      assert b + t == t;
    } else {
      assert (b + t)[1..] == b[1..] + t && (b + t)[0] == b[0];
      SkipsBlanks(b[1..], t);
    }
  }

  lemma {:induction false} BlanksSkipped(s: string) returns (b: string)
    ensures s == b + SkipBlanks(s) && Blanks(b) && StartsSolid(SkipBlanks(s))
  {
    b := "";
    if s != "" && IsBlank(s[0]) {
      b := BlanksSkipped(s[1..]);
      var c := b;
      b := [s[0]] + c;
      assert s == [s[0]] + s[1..];
    }
  }

  lemma {:induction false} SkipsWord(name: string, t: string, dotted: bool)
    requires (forall i :: 0 <= i < |name| ==> IsWordChar(name[i], dotted)) && StartsOther(t, dotted)
    ensures SkipWord(name + t, dotted) == t
  {
    if name == "" {
      assert name + t == t;
    } else {
      assert (name + t)[1..] == name[1..] + t && (name + t)[0] == name[0];
      SkipsWord(name[1..], t, dotted);
    }
  }

  lemma {:induction false} WordSkipped(s: string, dotted: bool) returns (name: string)
    ensures s == name + SkipWord(s, dotted) && StartsOther(SkipWord(s, dotted), dotted)
    ensures forall i :: 0 <= i < |name| ==> IsWordChar(name[i], dotted)
    ensures s != "" && IsWordChar(s[0], dotted) ==> name != ""
  {
    name := "";
    if s != "" && IsWordChar(s[0], dotted) {
      name := WordSkipped(s[1..], dotted);
      var c := name;
      name := [s[0]] + c;
      assert s == [s[0]] + s[1..];
    }
  }

  /** What follows a name and the blanks behind it. */
  lemma AfterNameIs(name: string, b: string, rest: string, dotted: bool)
    requires Word(name, dotted) && Blanks(b) && StartsSolid(rest) && StartsOther(rest, dotted)
    ensures AfterName(name + b + rest, dotted) == rest
  {
    assert name + b + rest == name + (b + rest);
    SkipsWord(name, b + rest, dotted);
    SkipsBlanks(b, rest);
  }

  lemma NameBefore(s: string, dotted: bool) returns (name: string, b: string)
    requires AfterName(s, dotted) != ""
    ensures s == name + b + AfterName(s, dotted) && Word(name, dotted) && Blanks(b)
  {
    name := WordSkipped(s, dotted);
    b := BlanksSkipped(SkipWord(s, dotted));
    Assoc(name, b, AfterName(s, dotted));
  }

  /** `^NAME\s*=\s*(.+)$` */
  predicate EnvShape(s: string, name: string, a: string, b: string, v: string) {
    s == name + a + ("=" + (b + v)) && Word(name, false) && Blanks(a) && Blanks(b) && v != "" && StartsSolid(v)
  }

  /** The value is the one the pattern captures. */
  lemma EnvExactly(s: string, v: string)
    ensures EnvValue(s) == [v] <==> exists name, a, b :: EnvShape(s, name, a, b, v)
    ensures |EnvValue(s)| <= 1
  {
    var rest := AfterName(s, false);
    if EnvValue(s) == [v] {
      var name, a := NameBefore(s, false);
      var b := BlanksSkipped(rest[1..]);
      assert rest == "=" + rest[1..];
      assert EnvShape(s, name, a, b, v);
    }
    forall name, a, b | EnvShape(s, name, a, b, v)
      ensures EnvValue(s) == [v]
    {
      AfterNameIs(name, a, "=" + (b + v), false);
      SkipsBlanks(b, v);
      assert ("=" + (b + v))[1..] == b + v;
    }
  }

  /** `^NAME\s*:\s+(.+)$` */
  predicate YamlShape(s: string, name: string, a: string, b: string, v: string) {
    && s == name + a + (":" + (b + v)) && Word(name, true) && Blanks(a) && Blanks(b) && b != ""
    && v != "" && StartsSolid(v)
  }

  lemma YamlExactly(s: string, v: string)
    ensures YamlValue(s) == [v] <==> exists name, a, b :: YamlShape(s, name, a, b, v)
    ensures |YamlValue(s)| <= 1
  {
    var rest := AfterName(s, true);
    if YamlValue(s) == [v] {
      var name, a := NameBefore(s, true);
      var b := BlanksSkipped(rest[1..]);
      assert rest == ":" + rest[1..];
      BlankFirst(rest[1..], b);
      assert YamlShape(s, name, a, b, v);
    }
    forall name, a, b | YamlShape(s, name, a, b, v)
      ensures YamlValue(s) == [v]
    {
      AfterNameIs(name, a, ":" + (b + v), true);
      SkipsBlanks(b, v);
      assert (":" + (b + v))[1..] == b + v && (b + v)[0] == b[0];
    }
  }

  lemma BlankFirst(s: string, b: string)
    requires s != "" && IsBlank(s[0]) && s == b + SkipBlanks(s) && StartsSolid(SkipBlanks(s))
    ensures b != ""
  {}

  /** `"([^"]+)"` at the start of a text. */
  predicate QuotedShape(s: string, body: string, rest: string) {
    s == "\"" + body + "\"" + rest && body != "" && '"' !in body
  }

  lemma QuotedExactly(s: string, body: string)
    ensures Quoted(s) == Some(body) <==> exists rest :: QuotedShape(s, body, rest)
    ensures Quoted(s) == Some(body) ==> |body| + 2 <= |s| && QuotedShape(s, body, s[|body| + 2..])
  {
    if Quoted(s) == Some(body) {
      assert s == [s[0]] + s[1..] && s[1..] == body + ([s[|body| + 1]] + s[|body| + 2..]);
      assert QuotedShape(s, body, s[|body| + 2..]);
    }
    forall rest | QuotedShape(s, body, rest)
      ensures Quoted(s) == Some(body)
    {
      assert s[1..] == body + ("\"" + rest);
      UntilQuote(body, "\"" + rest);
    }
  }

  lemma {:induction false} UntilQuote(body: string, rest: string)
    requires '"' !in body && rest != "" && rest[0] == '"'
    ensures Until(body + rest, '"') == body
  {
    if body == "" {
      assert body + rest == rest;
    } else {
      assert (body + rest)[1..] == body[1..] + rest && (body + rest)[0] == body[0];
      UntilQuote(body[1..], rest);
      assert [body[0]] + body[1..] == body;
    }
  }

  /** `"[^"]+"\s*:\s*"([^"]+)"` at the start of a text. */
  predicate PairShape(s: string, key: string, a: string, b: string, v: string, rest: string) {
    && s == "\"" + key + "\"" + (a + (":" + (b + ("\"" + v + "\"" + rest)))) && Blanks(a) && Blanks(b)
    && key != "" && '"' !in key && v != "" && '"' !in v
  }

  lemma PairExactly(s: string, v: string)
    ensures PairAt(s) == Some(v) <==> exists key, a, b, rest :: PairShape(s, key, a, b, v, rest)
  {
    if PairAt(s) == Some(v) {
      var key := Quoted(s).value;
      QuotedExactly(s, key);
      var tail := s[|key| + 2..];
      var a := BlanksSkipped(tail);
      var colon := SkipBlanks(tail);
      var b := BlanksSkipped(colon[1..]);
      var last := SkipBlanks(colon[1..]);
      QuotedExactly(last, v);
      assert colon == ":" + colon[1..];
      assert PairShape(s, key, a, b, v, last[|v| + 2..]);
    }
    forall key, a, b, rest | PairShape(s, key, a, b, v, rest)
      ensures PairAt(s) == Some(v)
    {
      PairReads(s, key, a, b, v, rest);
    }
  }

  lemma PairReads(s: string, key: string, a: string, b: string, v: string, rest: string)
    requires PairShape(s, key, a, b, v, rest)
    ensures PairAt(s) == Some(v)
  {
    var last := "\"" + v + "\"" + rest;
    var colon := ":" + (b + last);
    var tail := a + colon;
    assert QuotedShape(s, key, tail) && QuotedShape(last, v, rest);
    QuotedExactly(s, key);
    QuotedExactly(last, v);
    assert s[|key| + 2..] == tail;
    SkipsBlanks(a, colon);
    assert colon[1..] == b + last;
    SkipsBlanks(b, last);
  }

  /** The first pair of the text begins at `i`. */
  predicate FirstPair(s: string, i: nat, v: string)
    requires i < |s|
  {
    PairAt(s[i..]) == Some(v) && forall j: nat | j < i :: PairAt(s[j..]).None?
  }

  predicate NoPair(s: string) {
    forall j: nat | j < |s| :: PairAt(s[j..]).None?
  }

  lemma PairsBehind(s: string)
    requires s != "" && PairAt(s).None?
    ensures NoPair(s) <==> NoPair(s[1..])
    ensures forall v, i: nat | i < |s[1..]| :: FirstPair(s[1..], i, v) <==> FirstPair(s, i + 1, v)
    ensures forall v :: !FirstPair(s, 0, v)
  {
    assert s[0..] == s;
    assert forall j: nat | j < |s[1..]| :: s[1..][j..] == s[j + 1..];
    assert forall j: nat | 0 < j < |s| :: s[j..] == s[1..][j - 1..];
  }

  /** The candidate is the value of the leftmost pair, if there is a pair. */
  lemma {:induction false} JsonExactly(s: string, v: string)
    ensures JsonValue(s) == [v] <==> exists i: nat | i < |s| :: FirstPair(s, i, v)
    ensures JsonValue(s) == [] <==> NoPair(s)
    ensures |JsonValue(s)| <= 1
  {
    if s != "" {
      assert s[0..] == s;
      if PairAt(s).None? {
        JsonExactly(s[1..], v);
        PairsBehind(s);
        assert forall i: nat | i < |s| && FirstPair(s, i, v) :: i > 0 && FirstPair(s[1..], i - 1, v);
      } else {
        assert FirstPair(s, 0, PairAt(s).value);
      }
    }
  }

  predicate IsTail(tail: string) {
    tail == "" || (IsQuote(tail[0]) && (|tail| == 1 || (|tail| == 2 && tail[1] == ',')))
  }

  predicate IsLead(lead: string) {
    lead == "" || (|lead| == 1 && IsQuote(lead[0]))
  }

  lemma EndDropped(u: string) returns (tail: string)
    ensures u == DropEnd(u) + tail && IsTail(tail)
    ensures tail == "" ==> u == "" || !IsQuote(u[|u| - 1])
  {
    tail := u[|DropEnd(u)|..];
  }

  lemma StartDropped(t: string) returns (lead: string)
    ensures t == lead + DropQuote(t) && IsLead(lead)
    ensures lead == "" ==> t == "" || !IsQuote(t[0])
  {
    lead := t[..|t| - |DropQuote(t)|];
  }

  /** Stripping takes at most one quote from each side of the trimmed token, with a comma behind the
      closing one, and leaves none that it could have taken. */
  lemma StripsEdges(s: string) returns (lead: string, tail: string)
    ensures TrimSpace(s) == lead + StripQuotes(s) + tail && IsLead(lead) && IsTail(tail)
    ensures lead == "" ==> TrimSpace(s) == "" || !IsQuote(TrimSpace(s)[0])
    ensures tail == "" ==> StripQuotes(s) == "" || !IsQuote(StripQuotes(s)[|StripQuotes(s)| - 1])
  {
    lead := StartDropped(TrimSpace(s));
    tail := EndDropped(DropQuote(TrimSpace(s)));
    Assoc(lead, StripQuotes(s), tail);
  }
}
