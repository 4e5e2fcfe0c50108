/** Regular expressions as far as the allowlist needs them. Compiling and matching are a parameter,
    Go's RE2 engine; it is only asked to treat literal patterns as the RE2 syntax says. */
module Regex {
  import opened Wrappers
  import opened Text

  /** A pattern of literal characters and text anchors. */
  datatype Item = Bol | Eol | Chr(c: char)

  /** The characters `regexp.QuoteMeta` escapes. */
  predicate IsMeta(c: char) {
    c == '\\' || c == '.' || c == '+' || c == '*' || c == '?' || c == '(' || c == ')' || c == '|'
    || c == '[' || c == ']' || c == '{' || c == '}' || c == '^' || c == '$'
  }

  /** Reads a pattern of the literal fragment: plain characters, escaped metacharacters, `\t`, `\n`,
      `\r` and the anchors. Any other pattern is outside the fragment. */
  function Items(p: string): Option<seq<Item>> {
    if p == "" then Some([])
    else if p[0] == '^' then Then(Bol, Items(p[1..]))
    else if p[0] == '$' then Then(Eol, Items(p[1..]))
    else if p[0] == '\\' then
      if |p| == 1 then None
      else if IsMeta(p[1]) then Then(Chr(p[1]), Items(p[2..]))
      else if p[1] == 't' then Then(Chr('\t'), Items(p[2..]))
      else if p[1] == 'n' then Then(Chr('\n'), Items(p[2..]))
      else if p[1] == 'r' then Then(Chr('\r'), Items(p[2..]))
      else None
    else if IsMeta(p[0]) then None
    else Then(Chr(p[0]), Items(p[1..]))
  }

  function Then(i: Item, rest: Option<seq<Item>>): Option<seq<Item>> {
    match rest
    case None => None
    case Some(items) => Some([i] + items)
  }

  /** Whether the items match in `s` from position `i` on. */
  predicate MatchFrom(items: seq<Item>, s: string, i: nat)
    requires i <= |s|
  {
    if items == [] then true
    else
      match items[0]
      case Bol => i == 0 && MatchFrom(items[1..], s, i)
      case Eol => i == |s| && MatchFrom(items[1..], s, i)
      case Chr(c) => i < |s| && s[i] == c && MatchFrom(items[1..], s, i + 1)
  }

  /** The pattern as `parseLine` compiles it. */
  function Anchored(p: string): string {
    "^(?:" + p + ")$"
  }

  /** `MatchString` for an anchored pattern of the fragment: a match somewhere in the text. */
  predicate LiteralMatch(items: seq<Item>, s: string) {
    exists i: nat | i <= |s| :: MatchFrom([Bol] + items + [Eol], s, i)
  }

  datatype Engine = Engine(compiles: string -> bool, matches: (string, string) -> bool)

  ghost predicate Conforming(e: Engine) {
    forall p, s :: Items(p).Some? ==>
      e.compiles(Anchored(p)) && (e.matches(Anchored(p), s) <==> LiteralMatch(Items(p).value, s))
  }

  function Unanchored(a: string): string {
    if |a| >= 6 then a[4..|a| - 2] else ""
  }

  lemma UnanchoredIs(p: string)
    ensures Unanchored(Anchored(p)) == p
  {}

  /** An engine for the fragment alone. */
  ghost function LiteralEngine(): (e: Engine)
    ensures Conforming(e)
  {
    var e := Engine(
               (a: string) => true,
               (a: string, s: string) => Items(Unanchored(a)).Some? && LiteralMatch(Items(Unanchored(a)).value, s));
    assert Conforming(e) by {
      forall p, s | Items(p).Some?
        ensures e.compiles(Anchored(p)) && (e.matches(Anchored(p), s) <==> LiteralMatch(Items(p).value, s))
      {
        UnanchoredIs(p);
      }
    }
    e
  }

  type Re2 = e: Engine | Conforming(e)
    ghost witness LiteralEngine()

  // ---------- printing a literal ----------

  /** `regexp.QuoteMeta`. */
  function QuoteMeta(s: string): string {
    if s == "" then "" else (if IsMeta(s[0]) then ['\\', s[0]] else [s[0]]) + QuoteMeta(s[1..])
  }

  /** The regex body of `LiteralRule`: quoted, then tabs, line breaks and carriage returns spelled out. */
  function LiteralBody(s: string): string {
    ReplaceAll(ReplaceAll(ReplaceAll(QuoteMeta(s), "\t", "\\t"), "\n", "\\n"), "\r", "\\r")
  }

  /** The same, character by character. */
  function EscapeChar(c: char): string {
    if IsMeta(c) then ['\\', c]
    else if c == '\t' then "\\t"
    else if c == '\n' then "\\n"
    else if c == '\r' then "\\r"
    else [c]
  }

  function EscapeAll(s: string): string {
    if s == "" then "" else EscapeChar(s[0]) + EscapeAll(s[1..])
  }

  /** Replacing one character, character by character. */
  function Mapped(s: string, c: char, rep: string): string {
    if s == "" then "" else (if s[0] == c then rep else [s[0]]) + Mapped(s[1..], c, rep)
  }

  lemma {:induction false} ReplaceIsMapped(s: string, c: char, rep: string)
    ensures ReplaceAll(s, [c], rep) == Mapped(s, c, rep)
  {
    if s != "" {
      ReplaceIsMapped(s[1..], c, rep);
      assert s[..1] == [s[0]];
    }
  }

  lemma {:induction false} MappedConcat(a: string, b: string, c: char, rep: string)
    ensures Mapped(a + b, c, rep) == Mapped(a, c, rep) + Mapped(b, c, rep)
  {
    if a == "" {
      assert a + b == b;
    } else {
      MappedConcat(a[1..], b, c, rep);
      assert (a + b)[1..] == a[1..] + b && (a + b)[0] == a[0];
      Assoc(if a[0] == c then rep else [a[0]], Mapped(a[1..], c, rep), Mapped(b, c, rep));
    }
  }

  lemma MappedPair(x: char, y: char, c: char, rep: string)
    requires x != c && y != c
    ensures Mapped([x, y], c, rep) == [x, y]
  {
    assert [x, y][1..] == [y] && [y][1..] == "";
    assert Mapped([y], c, rep) == [y];
  }

  lemma MappedOne(x: char, c: char, rep: string)
    ensures Mapped([x], c, rep) == if x == c then rep else [x]
  {}

  /** One character through the quoting and the three replacements. */
  lemma CharThrough(x: char)
    ensures var q := if IsMeta(x) then ['\\', x] else [x];
            Mapped(Mapped(Mapped(q, '\t', "\\t"), '\n', "\\n"), '\r', "\\r") == EscapeChar(x)
  {
    if IsMeta(x) {
      MappedPair('\\', x, '\t', "\\t");
      MappedPair('\\', x, '\n', "\\n");
      MappedPair('\\', x, '\r', "\\r");
    } else {
      MappedOne(x, '\t', "\\t");
      MappedOne(x, '\n', "\\n");
      MappedOne(x, '\r', "\\r");
      MappedPair('\\', 't', '\n', "\\n");
      MappedPair('\\', 't', '\r', "\\r");
      MappedPair('\\', 'n', '\r', "\\r");
    }
  }

  lemma {:induction false} ThroughAll(s: string)
    ensures Mapped(Mapped(Mapped(QuoteMeta(s), '\t', "\\t"), '\n', "\\n"), '\r', "\\r") == EscapeAll(s)
  {
    if s != "" {
      var q := if IsMeta(s[0]) then ['\\', s[0]] else [s[0]];
      var rest := QuoteMeta(s[1..]);
      ThroughAll(s[1..]);
      CharThrough(s[0]);
      MappedConcat(q, rest, '\t', "\\t");
      var q1, r1 := Mapped(q, '\t', "\\t"), Mapped(rest, '\t', "\\t");
      MappedConcat(q1, r1, '\n', "\\n");
      MappedConcat(Mapped(q1, '\n', "\\n"), Mapped(r1, '\n', "\\n"), '\r', "\\r");
    }
  }

  lemma LiteralBodyIs(s: string)
    ensures LiteralBody(s) == EscapeAll(s)
  {
    var q := QuoteMeta(s);
    ReplaceIsMapped(q, '\t', "\\t");
    ReplaceIsMapped(Mapped(q, '\t', "\\t"), '\n', "\\n");
    ReplaceIsMapped(Mapped(Mapped(q, '\t', "\\t"), '\n', "\\n"), '\r', "\\r");
    ThroughAll(s);
  }

  /** The escaped text holds no field or line separator. */
  lemma {:induction false} EscapeAllClean(s: string)
    ensures '\t' !in EscapeAll(s) && '\n' !in EscapeAll(s) && '\r' !in EscapeAll(s)
  {
    if s != "" {
      EscapeAllClean(s[1..]);
    }
  }

  function Chrs(s: string): seq<Item> {
    seq(|s|, i requires 0 <= i < |s| => Chr(s[i]))
  }

  lemma EscapedCharReads(c: char, rest: string)
    ensures Items(EscapeChar(c) + rest) == Then(Chr(c), Items(rest))
  {
    var p := EscapeChar(c) + rest;
    assert p[|EscapeChar(c)|..] == rest;
  }

  lemma {:induction false} EscapeReads(s: string, tail: string)
    requires Items(tail).Some?
    ensures Items(EscapeAll(s) + tail) == Some(Chrs(s) + Items(tail).value)
  {
    if s == "" {
      assert EscapeAll(s) + tail == tail && Chrs(s) + Items(tail).value == Items(tail).value;
    } else {
      var rest := EscapeAll(s[1..]) + tail;
      EscapeReads(s[1..], tail);
      EscapedCharReads(s[0], rest);
      assert EscapeAll(s) + tail == EscapeChar(s[0]) + rest;
      ChrsStep(s, Items(tail).value);
    }
  }

  lemma ChrsStep(s: string, items: seq<Item>)
    requires s != ""
    ensures [Chr(s[0])] + (Chrs(s[1..]) + items) == Chrs(s) + items
  {}

  lemma LiteralItems(w: string)
    ensures Items("^" + EscapeAll(w) + "$") == Some([Bol] + Chrs(w) + [Eol])
  {
    assert "$"[1..] == "";
    assert Items("$") == Then(Eol, Items("")) && [Eol] + [] == [Eol];
    EscapeReads(w, "$");
    var rest := EscapeAll(w) + "$";
    assert "^" + EscapeAll(w) + "$" == "^" + rest;
    assert ("^" + rest)[1..] == rest;
    assert [Bol] + (Chrs(w) + [Eol]) == [Bol] + Chrs(w) + [Eol];
  }

  lemma {:induction false} MatchChrs(w: string, tail: seq<Item>, s: string, i: nat)
    requires i <= |s|
    ensures MatchFrom(Chrs(w) + tail, s, i)
       <==> i + |w| <= |s| && s[i..i + |w|] == w && MatchFrom(tail, s, i + |w|)
  {
    var items := Chrs(w) + tail;
    if w == "" {
      assert items == tail && s[i..i] == "";
    } else {
      assert items[0] == Chr(w[0]) && items[1..] == Chrs(w[1..]) + tail;
      if i < |s| {
        MatchChrs(w[1..], tail, s, i + 1);
        if i + |w| <= |s| {
          assert s[i..i + |w|] == [s[i]] + s[i + 1..i + |w|];
          assert w == [w[0]] + w[1..];
        }
      }
    }
  }

  /** The anchored literal matches its own text and nothing else. */
  lemma LiteralMatches(w: string, s: string)
    ensures LiteralMatch([Bol] + Chrs(w) + [Eol], s) <==> s == w
  {
    var items := [Bol] + ([Bol] + Chrs(w) + [Eol]) + [Eol];
    assert items[1..] == [Bol] + (Chrs(w) + [Eol, Eol]);
    assert items[1..][1..] == Chrs(w) + [Eol, Eol];
    MatchChrs(w, [Eol, Eol], s, 0);
    if |w| <= |s| {
      assert [Eol, Eol][1..] == [Eol] && [Eol][1..] == [];
      assert MatchFrom([Eol], s, |w|) <==> |w| == |s|;
      assert MatchFrom([Eol, Eol], s, |w|) <==> |w| == |s|;
    }
    assert s[0..|s|] == s;
    assert MatchFrom(items, s, 0) <==> s == w;
    assert forall i: nat | 0 < i <= |s| :: !MatchFrom(items, s, i);
  }

  /** What RE2 makes of the pattern that LiteralRule prints for `w`. */
  lemma EngineOnLiteral(e: Re2, w: string, s: string)
    ensures var a := Anchored("^" + LiteralBody(w) + "$");
            e.compiles(a) && (e.matches(a, s) <==> s == w)
  {
    LiteralBodyIs(w);
    LiteralItems(w);
    LiteralMatches(w, s);
  }
}
