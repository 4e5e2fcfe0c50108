/** Redacted documents line by line, and the second phase of redaction on them. */
module DocLines {
  import opened Text
  import opened Redact
  import opened Documents

  function Nodes(d: Doc): nat {
    if d.End? then 0 else 1 + Nodes(d.rest)
  }

  /** The document cut at its line breaks. A mark stays on one line even if it stands for several. */
  function LineDocs(d: Doc): (ds: seq<Doc>)
    ensures ds != []
    decreases Nodes(d), |d.text|
  {
    if d.text == "" then
      if d.End? then [d]
      else
        var ds := LineDocs(d.rest);
        [Node("", d.mark, ds[0])] + ds[1..]
    else
      var ds := LineDocs(d.(text := d.text[1..]));
      if d.text[0] == '\n' then [End("")] + ds else [Prefixed([d.text[0]], ds[0])] + ds[1..]
  }

  function Glue(d: Doc, e: Doc): Doc {
    match d
    case End(t) => Prefixed(t + "\n", e)
    case Node(t, m, r) => Node(t, m, Glue(r, e))
  }

  function JoinDocs(ds: seq<Doc>): Doc
    requires ds != []
  {
    if |ds| == 1 then ds[0] else Glue(ds[0], JoinDocs(ds[1..]))
  }

  lemma PrefixedTwice(s: string, u: string, d: Doc)
    ensures Prefixed(s + u, d) == Prefixed(s, Prefixed(u, d))
  {
    Assoc(s, u, d.text);
  }

  lemma GluePrefixed(s: string, d: Doc, e: Doc)
    ensures Glue(Prefixed(s, d), e) == Prefixed(s, Glue(d, e))
  {
    if d.End? {
      Assoc(s, d.text, "\n");
      PrefixedTwice(s, d.text + "\n", e);
    }
  }

  lemma JoinFirst(x: Doc, y: Doc, rest: seq<Doc>, s: string)
    requires x == Prefixed(s, y)
    ensures JoinDocs([x] + rest) == Prefixed(s, JoinDocs([y] + rest))
  {
    if rest != [] {
      assert ([x] + rest)[1..] == rest == ([y] + rest)[1..];
      GluePrefixed(s, y, JoinDocs(rest));
    }
  }

  lemma JoinNode(m: Mark, y: Doc, rest: seq<Doc>)
    ensures JoinDocs([Node("", m, y)] + rest) == Node("", m, JoinDocs([y] + rest))
  {
    if rest != [] {
      assert ([Node("", m, y)] + rest)[1..] == rest == ([y] + rest)[1..];
    }
  }

  /** Joining the lines gives the document back. */
  lemma {:induction false} JoinLines(d: Doc)
    ensures JoinDocs(LineDocs(d)) == d
    decreases Nodes(d), |d.text|
  {
    if d.text == "" {
      if d.Node? {
        var ds := LineDocs(d.rest);
        JoinLines(d.rest);
        JoinNode(d.mark, ds[0], ds[1..]);
        assert [ds[0]] + ds[1..] == ds;
      }
    } else {
      var next := d.(text := d.text[1..]);
      var ds := LineDocs(next);
      JoinLines(next);
      assert [d.text[0]] + d.text[1..] == d.text;
      assert [ds[0]] + ds[1..] == ds;
      if d.text[0] == '\n' {
        assert ([End("")] + ds)[1..] == ds;
        assert "" + "\n" == [d.text[0]];
      } else {
        JoinFirst(Prefixed([d.text[0]], ds[0]), ds[0], ds[1..], [d.text[0]]);
      }
    }
  }

  /** What holds of all marks holds of the marks of every line. */
  lemma {:induction false} LinesKeep(d: Doc, p: Mark -> bool)
    requires Every(d, p)
    ensures forall x <- LineDocs(d) :: Every(x, p)
    decreases Nodes(d), |d.text|
  {
    if d.text == "" {
      if d.Node? {
        LinesKeep(d.rest, p);
      }
    } else {
      var next := d.(text := d.text[1..]);
      LinesKeep(next, p);
      PrefixedIs([d.text[0]], LineDocs(next)[0]);
    }
  }

  /** The lines hold no line break. */
  lemma {:induction false} LinesUnbroken(d: Doc)
    requires Every(d, Named)
    ensures forall x <- LineDocs(d) :: '\n' !in Render(x)
    decreases Nodes(d), |d.text|
  {
    if d.text == "" {
      if d.Node? {
        LinesUnbroken(d.rest);
        TagUnbroken(d.mark.name);
      }
    } else {
      var next := d.(text := d.text[1..]);
      LinesUnbroken(next);
      PrefixedIs([d.text[0]], LineDocs(next)[0]);
    }
  }

  lemma TagUnbroken(name: string)
    requires '\n' !in name
    ensures '\n' !in Tag(name)
  {}

  function Renders(ds: seq<Doc>): seq<string> {
    seq(|ds|, i requires 0 <= i < |ds| => Render(ds[i]))
  }

  function Sources(ds: seq<Doc>): seq<string> {
    seq(|ds|, i requires 0 <= i < |ds| => Source(ds[i]))
  }

  lemma {:induction false} GlueIs(d: Doc, e: Doc)
    ensures Render(Glue(d, e)) == Render(d) + ['\n'] + Render(e)
    ensures Source(Glue(d, e)) == Source(d) + ['\n'] + Source(e)
    ensures forall p: Mark -> bool :: Every(Glue(d, e), p) <==> Every(d, p) && Every(e, p)
  {
    match d
    case End(t) => PrefixedIs(t + "\n", e);
    case Node(t, m, r) =>
      GlueIs(r, e);
      AssocAround(Tag(m.name), Render(r), '\n', Render(e));
      AssocAround(t, Tag(m.name) + Render(r), '\n', Render(e));
      AssocAround(m.was, Source(r), '\n', Source(e));
      AssocAround(t, m.was + Source(r), '\n', Source(e));
  }

  lemma InSeq<T>(s: seq<T>)
    requires s != []
    ensures forall x :: x in s <==> x == s[0] || x in s[1..]
  {}

  lemma {:induction false} JoinDocsIs(ds: seq<Doc>)
    requires ds != []
    ensures Render(JoinDocs(ds)) == Join(Renders(ds), '\n')
    ensures Source(JoinDocs(ds)) == Join(Sources(ds), '\n')
  {
    if |ds| > 1 {
      JoinDocsIs(ds[1..]);
      GlueIs(ds[0], JoinDocs(ds[1..]));
      assert Renders(ds)[1..] == Renders(ds[1..]) && Sources(ds)[1..] == Sources(ds[1..]);
    }
  }

  lemma {:induction false} JoinDocsEvery(ds: seq<Doc>, p: Mark -> bool)
    requires ds != []
    ensures Every(JoinDocs(ds), p) <==> forall x <- ds :: Every(x, p)
  {
    InSeq(ds);
    assert ds[0] in ds && forall x <- ds[1..] :: x in ds;
    if |ds| > 1 {
      JoinDocsEvery(ds[1..], p);
      GlueIs(ds[0], JoinDocs(ds[1..]));
    }
  }

  /** The lines of the redacted text are the lines of the document. */
  lemma LinesRender(d: Doc)
    requires Every(d, Named)
    ensures Split(Render(d), '\n') == Renders(LineDocs(d))
  {
    var ds := LineDocs(d);
    JoinLines(d);
    JoinDocsIs(ds);
    LinesUnbroken(d);
    SplitJoin(Renders(ds), '\n');
  }

  /** A part without separators is one of the parts of the joined text. */
  lemma {:induction false} PartStays(parts: seq<string>, i: nat, sep: char)
    requires i < |parts| && sep !in parts[i]
    ensures parts[i] in Split(Join(parts, sep), sep)
  {
    SplitWhole(parts[i], sep);
    if |parts| > 1 {
      SplitAround(parts[0], Join(parts[1..], sep), sep);
      if i > 0 {
        PartStays(parts[1..], i - 1, sep);
      }
    }
  }

  /** A line without marks is a line of the text the document stands for. */
  lemma BareLine(d: Doc, i: nat)
    requires Every(d, Named) && i < |LineDocs(d)| && LineDocs(d)[i].End?
    ensures LineDocs(d)[i].text in Split(Source(d), '\n')
  {
    var ds := LineDocs(d);
    JoinLines(d);
    JoinDocsIs(ds);
    LinesUnbroken(d);
    assert Sources(ds)[i] == Render(ds[i]);
    PartStays(Sources(ds), i, '\n');
  }

  lemma MarkedOpens(d: Doc)
    requires d.Node?
    ensures Contains(Render(d), OPEN)
  {
    var t, tail := d.text, d.mark.name + ">" + Render(d.rest);
    assert Render(d) == t + OPEN + tail;
    assert OccursAt(t + OPEN + tail, OPEN, |t|);
  }

  // ---------- tokens ----------

  function TokenMark(det: Detector, c: string): Mark {
    Mark(TokenName(det, c), c)
  }

  function TokenDoc(det: Detector, known: set<string>, d: Doc, cands: seq<string>): Doc
    decreases cands
  {
    if cands == [] then d
    else
      var c := cands[0];
      TokenDoc(det, known, if Taken(det, known, c) then MarkFirst(d, c, TokenMark(det, c)) else d, cands[1..])
  }

  /** The candidates that are redacted are free of brackets and not part of a placeholder for one. */
  predicate SafeTokens(det: Detector, known: set<string>, cands: seq<string>) {
    forall a <- cands | Taken(det, known, a) ::
      NoAngles(a) && forall b <- cands | Taken(det, known, b) :: Outside(det, a, b)
  }

  /** A token is part of no placeholder for another. */
  predicate Outside(det: Detector, a: string, b: string) {
    !Contains(Inside(TokenName(det, b)), a)
  }

  /** Stripping leaves every token that is replaced as it is. */
  predicate Intact(det: Detector, known: set<string>, result: string, cands: seq<string>)
    decreases cands
  {
    cands == []
    || (var c := cands[0];
        if Taken(det, known, c)
        then (Contains(result, c) ==> StripQuotes(c) == c)
             && Intact(det, known, ReplaceFirst(result, c, Tag(TokenName(det, c))), cands[1..])
        else Intact(det, known, result, cands[1..]))
  }

  predicate Plain(m: Mark) {
    StripQuotes(m.was) == m.was
  }

  predicate IsToken(det: Detector, known: set<string>, cands: seq<string>, m: Mark) {
    m.was in cands && Taken(det, known, m.was) && m.name == TokenName(det, m.was)
  }

  function TokenTest(det: Detector, known: set<string>, cands: seq<string>): Mark -> bool {
    (m: Mark) => IsToken(det, known, cands, m)
  }

  lemma TokensLacked(det: Detector, known: set<string>, d: Doc, cands: seq<string>, c: string)
    requires SafeTokens(det, known, cands) && c in cands && Taken(det, known, c)
    requires Every(d, TokenTest(det, known, cands))
    ensures NoAngles(c) && Lacks(d, c)
  {
    EveryWeaken(d, TokenTest(det, known, cands), LackTest(c));
  }

  /** One token redacted on a line. */
  lemma TokenStep(det: Detector, known: set<string>, d: Doc, c: string, all: seq<string>)
    requires SafeTokens(det, known, all) && c in all && Taken(det, known, c)
    requires Every(d, TokenTest(det, known, all))
    ensures var e := MarkFirst(d, c, TokenMark(det, c));
            && Render(e) == ReplaceFirst(Render(d), c, Tag(TokenName(det, c)))
            && Source(e) == Source(d)
            && Every(e, TokenTest(det, known, all))
            && (Every(e, Plain) <==> Every(d, Plain) && (Contains(Render(d), c) ==> StripQuotes(c) == c))
  {
    TokensLacked(det, known, d, all, c);
    MarkFirstIs(d, c, TokenMark(det, c));
    MarkFirstEvery(d, c, TokenMark(det, c), TokenTest(det, known, all));
    MarkFirstEvery(d, c, TokenMark(det, c), Plain);
    InTextIs(d, c);
    assert Plain(TokenMark(det, c)) <==> StripQuotes(c) == c;
  }

  /** The token loop on a line, as a document. */
  lemma {:induction false} TokenDocIs(det: Detector, known: set<string>, d: Doc, cands: seq<string>, all: seq<string>)
    requires SafeTokens(det, known, all) && forall c <- cands :: c in all
    requires Every(d, TokenTest(det, known, all))
    ensures var e := TokenDoc(det, known, d, cands);
            && Render(e) == ReplaceTokens(det, known, Render(d), cands)
            && Source(e) == Source(d)
            && Every(e, TokenTest(det, known, all))
            && (Every(e, Plain) <==> Every(d, Plain) && Intact(det, known, Render(d), cands))
    decreases cands
  {
    if cands != [] {
      var c := cands[0];
      if Taken(det, known, c) {
        TokenStep(det, known, d, c, all);
        TokenDocIs(det, known, MarkFirst(d, c, TokenMark(det, c)), cands[1..], all);
      } else {
        TokenDocIs(det, known, d, cands[1..], all);
      }
    }
  }
}
