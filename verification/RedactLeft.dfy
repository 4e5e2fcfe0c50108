/** What is left after redaction: no known value, and the longest value wins
    (internal/redact/redact.go). */
module RedactLeft {
  import opened Text
  import opened Redact
  import opened Documents
  import opened RedactProps

  lemma {:induction false} MarkAllText(s: string, w: string, k: Mark)
    requires w != ""
    ensures MarkAll(s, w, k).text <= s
  {
    if |s| >= |w| && s[..|w|] != w {
      MarkAllText(s[1..], w, k);
    }
  }

  lemma ContainsPrefix(s: string, t: string, v: string)
    requires t <= s && Contains(t, v)
    ensures Contains(s, v)
  {
    assert "" + t + s[|t|..] == s;
    ContainsInside("", t, s[|t|..], v);
  }

  lemma ContainsSuffix(s: string, i: nat, v: string)
    requires i <= |s| && Contains(s[i..], v)
    ensures Contains(s, v)
  {
    assert s[..i] + s[i..] + "" == s;
    ContainsInside(s[..i], s[i..], "", v);
  }

  lemma PrefixOfPrefix(s: string, t: string, v: string)
    requires t <= s
    ensures HasPrefix(t, v) ==> HasPrefix(s, v)
  {
    assert |v| <= |t| ==> t[..|v|] == s[..|v|];
  }

  /** Marking one value brings no other into a literal. */
  lemma {:induction false} MarkingAddsNothing(s: string, w: string, k: Mark, v: string)
    requires w != "" && v != "" && !Contains(s, v)
    ensures !InText(MarkAll(s, w, k), v)
  {
    if |s| >= |w| {
      if s[..|w|] == w {
        if Contains(s[|w|..], v) {
          ContainsSuffix(s, |w|, v);
        }
        MarkingAddsNothing(s[|w|..], w, k, v);
      } else {
        if Contains(s[1..], v) {
          ContainsSuffix(s, 1, v);
        }
        MarkingAddsNothing(s[1..], w, k, v);
        MarkAllText(s, w, k);
        if Contains(MarkAll(s, w, k).text, v) {
          ContainsPrefix(s, MarkAll(s, w, k).text, v);
        }
      }
    }
  }

  /** Marking a value leaves none of it in a literal. */
  lemma {:induction false} MarkingClears(s: string, v: string, k: Mark)
    requires v != ""
    ensures !InText(MarkAll(s, v, k), v)
  {
    if |s| >= |v| {
      if s[..|v|] == v {
        MarkingClears(s[|v|..], v, k);
      } else {
        MarkingClears(s[1..], v, k);
        var t := MarkAll(s[1..], v, k).text;
        MarkAllText(s, v, k);
        PrefixOfPrefix(s, [s[0]] + t, v);
        ContainsTail([s[0]] + t, v);
        assert ([s[0]] + t)[1..] == t;
      }
    }
  }

  lemma {:induction false} MarkAllLacks(s: string, w: string, k: Mark, v: string)
    requires w != "" && !Contains(Inside(k.name), v)
    ensures Lacks(MarkAll(s, w, k), v)
  {
    if |s| >= |w| {
      if s[..|w|] == w {
        MarkAllLacks(s[|w|..], w, k, v);
      } else {
        MarkAllLacks(s[1..], w, k, v);
        PrefixedIs([s[0]], MarkAll(s[1..], w, k));
      }
    }
  }

  /** Replacing a value by a placeholder never brings in another, and removes the value itself. */
  lemma ReplacingClears(s: string, w: string, name: string, v: string)
    requires w != "" && v != "" && NoAngles(v) && !Contains(Inside(name), v)
    requires v == w || !Contains(s, v)
    ensures !Contains(ReplaceAll(s, w, Tag(name)), v)
  {
    var k := Mark(name, w);
    MarkAllIs(s, w, k);
    MarkAllLacks(s, w, k, v);
    InTextIs(MarkAll(s, w, k), v);
    if v == w {
      MarkingClears(s, v, k);
    } else {
      MarkingAddsNothing(s, w, k, v);
    }
  }

  /** After the first phase no value is left. */
  lemma {:induction false} FirstPhaseClears(content: string, order: seq<string>, m: Values, v: string)
    requires forall w <- order :: w in m && w != "" && !Contains(Inside(m[w]), v)
    requires v in order && NoAngles(v)
    ensures !Contains(ReplaceEach(content, order, m), v)
  {
    var n := |order| - 1;
    var front := order[..n];
    assert order == front + [order[n]];
    if order[n] != v {
      FirstPhaseClears(content, front, m, v);
    }
    ReplacingClears(ReplaceEach(content, front, m), order[n], m[order[n]], v);
  }

  // ---------- the second phase ----------

  /** What a single replacement does: nothing, or one occurrence gives way. */
  lemma {:induction false} ReplacedOnce(s: string, pat: string, rep: string) returns (a: string, b: string)
    requires pat != "" && Contains(s, pat)
    ensures s == a + pat + b && ReplaceFirst(s, pat, rep) == a + rep + b
  {
    if HasPrefix(s, pat) {
      a, b := "", s[|pat|..];
    } else {
      ContainsTail(s, pat);
      a, b := ReplacedOnce(s[1..], pat, rep);
      var x := a;
      a := [s[0]] + x;
      FirstStep(s, pat, rep);
      assert [s[0]] + (x + pat + b) == a + pat + b;
      assert [s[0]] + (x + rep + b) == a + rep + b;
    }
  }

  lemma {:induction false} ReplacedNever(s: string, pat: string, rep: string)
    requires pat != "" && !Contains(s, pat)
    ensures ReplaceFirst(s, pat, rep) == s
  {
    if |s| >= |pat| {
      assert !OccursAt(s, pat, 0);
      ContainsTail(s, pat);
      ReplacedNever(s[1..], pat, rep);
      assert [s[0]] + s[1..] == s;
    }
  }

  lemma Regroup(pre: string, a: string, c: string, b: string, post: string)
    ensures pre + (a + c + b) + post == (pre + a) + (c + (b + post))
  {}

  /** Part of a text gives way to a placeholder. */
  lemma GivesWay(a: string, c: string, b: string, name: string, v: string)
    requires NoAngles(v) && !Contains(Inside(name), v) && !Contains(a + (c + b), v)
    ensures !Contains(a + (Tag(name) + b), v)
  {
    var whole := a + (c + b);
    assert whole[|a + c|..] == b;
    TagParts(a, name, b);
    ContainsAround(a, '<', Inside(name) + ['>'] + b, v);
    ContainsAround(Inside(name), '>', b, v);
    if Contains(a, v) {
      ContainsPrefix(whole, a, v);
    }
    if Contains(b, v) {
      ContainsSuffix(whole, |a + c|, v);
    }
  }

  /** One token replaced in the middle of a text brings in no value. */
  lemma TokenAddsNothing(pre: string, r: string, post: string, c: string, name: string, v: string)
    requires c != "" && NoAngles(v) && !Contains(Inside(name), v) && !Contains(pre + r + post, v)
    ensures !Contains(pre + ReplaceFirst(r, c, Tag(name)) + post, v)
  {
    if Contains(r, c) {
      var a, b := ReplacedOnce(r, c, Tag(name));
      Regroup(pre, a, c, b, post);
      Regroup(pre, a, Tag(name), b, post);
      GivesWay(pre + a, c, b + post, name, v);
    } else {
      ReplacedNever(r, c, Tag(name));
    }
  }

  /** The value is part of no placeholder for a token among the candidates. */
  predicate Clear(det: Detector, known: set<string>, cands: seq<string>, v: string) {
    forall c <- cands | Taken(det, known, c) :: !Contains(Inside(TokenName(det, c)), v)
  }

  lemma {:induction false} TokensAddNothing(det: Detector, known: set<string>, pre: string, r: string, post: string,
                                            cands: seq<string>, v: string)
    requires NoAngles(v) && Clear(det, known, cands, v) && !Contains(pre + r + post, v)
    ensures !Contains(pre + ReplaceTokens(det, known, r, cands) + post, v)
    decreases cands
  {
    if cands != [] {
      var c := cands[0];
      assert c in cands && forall x <- cands[1..] :: x in cands;
      if Taken(det, known, c) {
        TokenAddsNothing(pre, r, post, c, TokenName(det, c), v);
        TokensAddNothing(det, known, pre, ReplaceFirst(r, c, Tag(TokenName(det, c))), post, cands[1..], v);
      } else {
        TokensAddNothing(det, known, pre, r, post, cands[1..], v);
      }
    }
  }

  function Behind(b: seq<string>): string {
    if b == [] then "" else "\n" + Join(b, '\n')
  }

  lemma JoinBehind(line: string, b: seq<string>)
    ensures Join([line] + b, '\n') == line + Behind(b)
  {
    if b == [] {
      assert [line] + b == [line] && line + "" == line;
    } else {
      assert ([line] + b)[1..] == b;
      assert line + ['\n'] + Join(b, '\n') == line + ("\n" + Join(b, '\n'));
    }
  }

  lemma BehindFirst(pre: string, line: string, rest: seq<string>)
    ensures pre + Behind([line] + rest) == pre + "\n" + line + Behind(rest)
  {
    JoinBehind(line, rest);
    Assoc("\n", line, Behind(rest));
    Assoc(pre, "\n" + line, Behind(rest));
    Assoc(pre, "\n", line);
  }

  lemma NextLine(det: Detector, known: set<string>, pre: string, line: string, rest: seq<string>, v: string)
    requires NoAngles(v) && Clear(det, known, Candidates(line), v) && !Contains(pre + Behind([line] + rest), v)
    ensures !Contains(pre + "\n" + RedactLine(det, known, line) + Behind(rest), v)
  {
    BehindFirst(pre, line, rest);
    LineAddsNothing(det, known, pre + "\n", line, Behind(rest), v);
  }

  /** The lines from some point on, rewritten behind text that already was. */
  lemma {:induction false} LinesAddNothing(det: Detector, known: set<string>, pre: string, lines: seq<string>,
                                           v: string)
    requires NoAngles(v) && (forall line <- lines :: Clear(det, known, Candidates(line), v))
    requires !Contains(pre + Behind(lines), v)
    ensures !Contains(pre + Behind(RedactLines(det, known, lines)), v)
    decreases lines
  {
    if lines != [] {
      var line, rest := lines[0], lines[1..];
      var line' := RedactLine(det, known, line);
      assert lines == [line] + rest && line in lines && forall l <- rest :: l in lines;
      NextLine(det, known, pre, line, rest, v);
      LinesAddNothing(det, known, pre + "\n" + line', rest, v);
      BehindFirst(pre, line', RedactLines(det, known, rest));
      RedactLinesHead(det, known, line, rest);
    }
  }

  lemma RedactLinesHead(det: Detector, known: set<string>, line: string, rest: seq<string>)
    ensures RedactLines(det, known, [line] + rest) == [RedactLine(det, known, line)] + RedactLines(det, known, rest)
  {
    MapConcat(LineRedactor(det, known), [line], rest);
  }

  lemma LineAddsNothing(det: Detector, known: set<string>, pre: string, line: string, post: string, v: string)
    requires NoAngles(v) && Clear(det, known, Candidates(line), v) && !Contains(pre + line + post, v)
    ensures !Contains(pre + RedactLine(det, known, line) + post, v)
  {
    if !Contains(line, OPEN) {
      TokensAddNothing(det, known, pre, line, post, Candidates(line), v);
    }
  }

  /** The second phase brings in no value, not even one that spans several lines. */
  lemma SecondPhaseAddsNothing(det: Detector, known: set<string>, text: string, v: string)
    requires NoAngles(v) && !Contains(text, v)
    requires forall line <- Split(text, '\n') :: Clear(det, known, Candidates(line), v)
    ensures !Contains(RedactUnvaulted(det, known, text), v)
  {
    var lines := Split(text, '\n');
    assert lines == [lines[0]] + lines[1..];
    JoinSplit(text, '\n');
    JoinedAddNothing(det, known, lines[0], lines[1..], v);
  }

  lemma JoinedAddNothing(det: Detector, known: set<string>, line: string, rest: seq<string>, v: string)
    requires NoAngles(v) && !Contains(Join([line] + rest, '\n'), v)
    requires Clear(det, known, Candidates(line), v) && forall l <- rest :: Clear(det, known, Candidates(l), v)
    ensures !Contains(Join(RedactLines(det, known, [line] + rest), '\n'), v)
  {
    var line' := RedactLine(det, known, line);
    JoinBehind(line, rest);
    Empty(line, Behind(rest));
    LineAddsNothing(det, known, "", line, Behind(rest), v);
    Empty(line', Behind(rest));
    LinesAddNothing(det, known, line', rest, v);
    RedactLinesHead(det, known, line, rest);
    JoinBehind(line', RedactLines(det, known, rest));
  }

  lemma Empty(a: string, b: string)
    ensures "" + a + b == a + b
  {}

  /** No known value is left in the redacted text. The value must be free of brackets and part of no
      placeholder that redaction can write; nothing is asked of the other values, of the tokens or of
      the text. */
  lemma NothingLeft(det: Detector, content: string, order: seq<string>, m: Values, v: string)
    requires LongestFirst(order, m) && v in m && v != "" && NoAngles(v)
    requires forall w <- order :: !Contains(Inside(m[w]), v)
    requires forall line <- Split(ReplaceEach(content, order, m), '\n') :: Clear(det, m.Keys, Candidates(line), v)
    ensures !Contains(Redacted(det, content, order, m), v)
  {
    FirstPhaseClears(content, order, m, v);
    SecondPhaseAddsNothing(det, m.Keys, ReplaceEach(content, order, m), v);
  }

  // ---------- the longest value wins ----------

  lemma {:induction false} Utf8Concat(a: string, b: string)
    ensures Utf8Len(a + b) == Utf8Len(a) + Utf8Len(b)
  {
    if a == "" {
      assert a + b == b;
    } else {
      assert (a + b)[1..] == a[1..] + b && (a + b)[0] == a[0];
      Utf8Concat(a[1..], b);
    }
  }

  lemma PartIsShorter(s: string, w: string)
    requires Contains(s, w) && w != s
    ensures Utf8Len(w) < Utf8Len(s)
  {
    var i: nat :| i <= |s| && OccursAt(s, w, i);
    var a, b := s[..i], s[i + |w|..];
    assert s == a + w + b;
    Utf8Concat(a + w, b);
    Utf8Concat(a, w);
    assert a != "" || b != "" by {
      assert a == "" && b == "" ==> s == w;
    }
  }

  lemma {:induction false} EachAbsent(content: string, order: seq<string>, m: Values)
    requires forall w <- order :: w in m && w != "" && !Contains(content, w)
    ensures ReplaceEach(content, order, m) == content
  {
    if order != [] {
      var n := |order| - 1;
      assert order[n] in order && forall w <- order[..n] :: w in order;
      EachAbsent(content, order[..n], m);
      ReplaceAllAbsent(content, order[n], Tag(m[order[n]]));
    }
  }

  lemma {:induction false} EachConcat(content: string, a: seq<string>, b: seq<string>, m: Values)
    requires forall w <- a + b :: w in m && w != ""
    ensures (forall w <- a :: w in m && w != "") && forall w <- b :: w in m && w != ""
    ensures ReplaceEach(content, a + b, m) == ReplaceEach(ReplaceEach(content, a, m), b, m)
  {
    assert forall w <- a :: w in a + b;
    assert forall w <- b :: w in a + b;
    if b == [] {
      assert a + b == a;
    } else {
      var n := |b| - 1;
      assert (a + b)[..|a + b| - 1] == a + b[..n] && (a + b)[|a + b| - 1] == b[n];
      EachConcat(content, a, b[..n], m);
    }
  }

  /** The longest value that occurs in the text is replaced, everywhere, before any other value can
      take a part of it. */
  lemma LongestWins(content: string, order: seq<string>, m: Values, i: nat)
    requires LongestFirst(order, m) && i < |order|
    requires forall w <- m | w != "" && w != order[i] && Utf8Len(w) >= Utf8Len(order[i]) :: !Contains(content, w)
    ensures ReplaceEach(content, order, m)
         == ReplaceEach(ReplaceAll(content, order[i], Tag(m[order[i]])), order[i + 1..], m)
  {
    BeforeIsLonger(order, m, i);
    EachAbsent(content, order[..i], m);
    EachSnoc(content, order, i, m);
    assert order == order[..i + 1] + order[i + 1..];
    EachConcat(content, order[..i + 1], order[i + 1..], m);
  }

  lemma BeforeIsLonger(order: seq<string>, m: Values, i: nat)
    requires LongestFirst(order, m) && i < |order|
    ensures forall w <- order[..i] :: w in m && w != "" && w != order[i] && Utf8Len(w) >= Utf8Len(order[i])
  {
    forall w | w in order[..i]
      ensures w in m && w != "" && w != order[i] && Utf8Len(w) >= Utf8Len(order[i])
    {
      var j :| 0 <= j < i && order[..i][j] == w;
      assert order[j] == w;
    }
  }

  /** A text that is exactly a value becomes exactly its placeholder, even when shorter values are
      part of it. */
  lemma WholeValue(det: Detector, v: string, order: seq<string>, m: Values)
    requires LongestFirst(order, m) && v in m && v != "" && ValidKey(m[v])
    requires forall w <- order :: NoAngles(w) && !Contains(Inside(m[v]), w)
    ensures Redacted(det, v, order, m) == Tag(m[v])
  {
    WholeFirst(v, order, m);
    TagLine(det, m.Keys, m[v]);
  }

  /** The first phase on a text that is exactly a value. */
  lemma WholeFirst(v: string, order: seq<string>, m: Values)
    requires LongestFirst(order, m) && v in m && v != ""
    requires forall w <- order :: NoAngles(w) && !Contains(Inside(m[v]), w)
    ensures ReplaceEach(v, order, m) == Tag(m[v])
  {
    var i: nat :| i < |order| && order[i] == v;
    LongestInItself(v, m);
    LongestWins(v, order, m, i);
    WholeReplaced(v, Tag(m[v]));
    HiddenInTag(order, i + 1, m, m[v]);
    EachAbsent(Tag(m[v]), order[i + 1..], m);
  }

  lemma LongestInItself(v: string, m: Values)
    ensures forall w <- m | w != "" && w != v && Utf8Len(w) >= Utf8Len(v) :: !Contains(v, w)
  {
    forall w | w in m && w != "" && w != v && Utf8Len(w) >= Utf8Len(v)
      ensures !Contains(v, w)
    {
      if Contains(v, w) {
        PartIsShorter(v, w);
      }
    }
  }

  lemma HiddenInTag(order: seq<string>, i: nat, m: Values, name: string)
    requires i <= |order| && forall w <- order :: w in m && w != "" && NoAngles(w) && !Contains(Inside(name), w)
    ensures forall w <- order[i..] :: w in m && w != "" && !Contains(Tag(name), w)
  {
    forall w | w in order[i..]
      ensures w in m && w != "" && !Contains(Tag(name), w)
    {
      assert w in order;
      TagHides(name, w);
    }
  }

  lemma WholeReplaced(v: string, rep: string)
    requires v != ""
    ensures ReplaceAll(v, v, rep) == rep
  {
    assert v[..|v|] == v && v[|v|..] == "";
    assert ReplaceAll("", v, rep) == "";
    assert rep + "" == rep;
  }

  lemma TagHides(name: string, w: string)
    requires w != "" && NoAngles(w) && !Contains(Inside(name), w)
    ensures !Contains(Tag(name), w)
  {
    var inner := Inside(name);
    assert Tag(name) == "" + ['<'] + (inner + ['>'] + "");
    ContainsAround("", '<', inner + ['>'] + "", w);
    ContainsAround(inner, '>', "", w);
  }

  /** A line that is a placeholder stays. */
  lemma TagLine(det: Detector, known: set<string>, name: string)
    requires ValidKey(name)
    ensures RedactUnvaulted(det, known, Tag(name)) == Tag(name)
  {
    ValidKeyNamed(name);
    SplitWhole(Tag(name), '\n');
    assert OccursAt(Tag(name), OPEN, 0);
    assert RedactLines(det, known, [Tag(name)]) == [Tag(name)];
  }
}
