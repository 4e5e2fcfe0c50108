/** What restoring promises: it gives the redacted text back, and exactly when
    (internal/redact/redact.go, cmd/alice/safe.go). */
module RedactProps {
  import opened Wrappers
  import opened Text
  import opened Redact
  import opened Documents
  import opened DocLines

  // ---------- known values ----------

  /** The values are free of brackets and part of no placeholder they are replaced by. */
  predicate SafeValues(order: seq<string>, m: Values) {
    && (forall v <- order :: v in m && v != "" && NoAngles(v))
    && (forall v <- order, w <- order :: !Contains(Inside(m[w]), v))
  }

  predicate ValidKeys(order: seq<string>, m: Values) {
    forall v <- order :: v in m && ValidKey(m[v])
  }

  predicate IsEntry(order: seq<string>, m: Values, k: Mark) {
    k.was in order && k.was in m && k.name == m[k.was]
  }

  function EntryTest(order: seq<string>, m: Values): Mark -> bool {
    (k: Mark) => IsEntry(order, m, k)
  }

  /** The document behind the first phase. */
  function KnownDoc(content: string, order: seq<string>, m: Values): Doc
    requires forall v <- order :: v in m && v != ""
  {
    if order == [] then End(content)
    else
      var n := |order| - 1;
      MarkDoc(KnownDoc(content, order[..n], m), order[n], Mark(m[order[n]], order[n]))
  }

  lemma SafeFront(order: seq<string>, m: Values)
    requires SafeValues(order, m) && order != []
    ensures SafeValues(order[..|order| - 1], m)
  {
    var front := order[..|order| - 1];
    assert order == front + [order[|order| - 1]];
    assert forall v <- front :: v in order;
  }

  lemma EntriesLack(d: Doc, order: seq<string>, m: Values, v: string)
    requires SafeValues(order, m) && v in order && Every(d, EntryTest(order, m))
    ensures Lacks(d, v)
  {
    EveryWeaken(d, EntryTest(order, m), LackTest(v));
  }

  lemma {:induction false} KnownDocIs(content: string, order: seq<string>, m: Values)
    requires SafeValues(order, m)
    ensures var d := KnownDoc(content, order, m);
            Render(d) == ReplaceEach(content, order, m) && Source(d) == content && Every(d, EntryTest(order, m))
  {
    if order != [] {
      var n := |order| - 1;
      var front, v := order[..n], order[n];
      var d := KnownDoc(content, front, m);
      SafeFront(order, m);
      KnownDocIs(content, front, m);
      EveryWeaken(d, EntryTest(front, m), EntryTest(order, m));
      EntriesLack(d, order, m, v);
      MarkDocIs(d, v, Mark(m[v], v));
    }
  }

  lemma ValidKeyNamed(name: string)
    requires ValidKey(name)
    ensures NoAngles(name) && '\n' !in name
  {}

  lemma EntriesNamed(d: Doc, order: seq<string>, m: Values)
    requires ValidKeys(order, m) && Every(d, EntryTest(order, m))
    ensures Every(d, Named)
  {
    forall k: Mark | IsEntry(order, m, k)
      ensures Named(k)
    {
      ValidKeyNamed(k.name);
    }
    EveryWeaken(d, EntryTest(order, m), Named);
  }

  /** The keys resolve to the values they replaced. */
  predicate Resolves(resolved: map<string, string>, order: seq<string>, m: Values) {
    forall v <- order :: v in m && m[v] in resolved && resolved[m[v]] == v
  }

  lemma {:induction false} ShownEntries(d: Doc, order: seq<string>, m: Values, resolved: map<string, string>)
    requires ValidKeys(order, m) && Resolves(resolved, order, m) && Every(d, EntryTest(order, m))
    ensures Shown(Vaulted(resolved), d) == Source(d)
    ensures Sifted(Vaulted(resolved), Accepted(Vaulted(resolved), d), false) == []
  {
    if d.Node? {
      ShownEntries(d.rest, order, m, resolved);
      var names := Accepted(Vaulted(resolved), d.rest);
      assert ([d.mark.name] + names)[1..] == names;
    }
  }

  /** Restoring undoes the replacement of known values, whatever order they were replaced in, and
      misses nothing. */
  lemma KnownRoundTrip(content: string, order: seq<string>, m: Values, resolved: map<string, string>)
    requires SafeValues(order, m) && ValidKeys(order, m) && Resolves(resolved, order, m)
    requires NoSlots(Vaulted(resolved), content)
    ensures var redacted := ReplaceEach(content, order, m);
            && Fill(Vaulted(resolved), redacted) == content
            && Sifted(Vaulted(resolved), NamesIn(Vaulted(resolved), redacted), false) == []
  {
    var d := KnownDoc(content, order, m);
    KnownDocIs(content, order, m);
    EntriesNamed(d, order, m);
    ScanShows(Vaulted(resolved), d);
    ShownEntries(d, order, m, resolved);
  }

  // ---------- both phases ----------

  /** The tokens of every line are safe. */
  predicate SafeText(det: Detector, known: set<string>, content: string) {
    forall line <- Split(content, '\n') :: SafeTokens(det, known, Candidates(line))
  }

  /** A mark for one of the tokens. */
  predicate Held(det: Detector, tokens: seq<string>, k: Mark) {
    k.name == TokenName(det, k.was) && StripQuotes(k.was) in tokens
  }

  predicate Redacts(det: Detector, tokens: seq<string>, order: seq<string>, m: Values, k: Mark) {
    IsEntry(order, m, k) || Held(det, tokens, k)
  }

  function RedactsTest(det: Detector, tokens: seq<string>, order: seq<string>, m: Values): Mark -> bool {
    (k: Mark) => Redacts(det, tokens, order, m, k)
  }

  /** The tokens `RestoreUnvaulted` finds in a text. */
  function TextTokens(det: Detector, text: string): seq<string> {
    TokensOf(det, Split(text, '\n'))
  }

  /** A restored mark stands for its text: known values do, tokens when stripping leaves
      them alone. */
  predicate Exact(m: Mark) {
    ValidKey(m.name) || Plain(m)
  }

  /** The second phase on one line. */
  function LineDoc(det: Detector, known: set<string>, d: Doc): Doc {
    if Contains(Render(d), OPEN) then d else TokenDoc(det, known, d, Candidates(Render(d)))
  }

  predicate LineIntact(det: Detector, known: set<string>, line: string) {
    Contains(line, OPEN) || Intact(det, known, line, Candidates(line))
  }

  lemma DigestName(h: string)
    requires |h| == PREFIX_LEN && AllHex(h)
    ensures UnvaultedName(UNVAULTED + h) && HashOf(UNVAULTED + h) == h
  {
    assert (UNVAULTED + h)[..|UNVAULTED|] == UNVAULTED && (UNVAULTED + h)[|UNVAULTED|..] == h;
  }

  lemma DigestNotKey(h: string)
    requires AllHex(h)
    ensures !ValidKey(UNVAULTED + h)
    ensures NoAngles(UNVAULTED + h) && '\n' !in UNVAULTED + h
  {
    assert (UNVAULTED + h)[0] == 'U';
    assert NoAngles(UNVAULTED) && '\n' !in UNVAULTED && NoAngles(h) && '\n' !in h;
  }

  lemma TokenNotKey(det: Detector, c: string)
    ensures !ValidKey(TokenName(det, c))
    ensures UnvaultedName(TokenName(det, c))
    ensures HashOf(TokenName(det, c)) == det.sha256(StripQuotes(c))[..PREFIX_LEN]
    ensures Named(Mark(TokenName(det, c), c))
  {
    var h := det.sha256(StripQuotes(c))[..PREFIX_LEN];
    DigestName(h);
    DigestNotKey(h);
  }

  /** A bare line through the second phase. */
  lemma BareLineIs(det: Detector, known: set<string>, d: Doc)
    requires d.End? && SafeTokens(det, known, Candidates(d.text))
    ensures var e := LineDoc(det, known, d);
            && Render(e) == RedactLine(det, known, d.text)
            && Source(e) == d.text
            && Every(e, TokenTest(det, known, Candidates(d.text)))
            && (Every(e, Exact) <==> LineIntact(det, known, d.text))
  {
    var cands := Candidates(d.text);
    var e := LineDoc(det, known, d);
    if !Contains(d.text, OPEN) {
      TokenDocIs(det, known, d, cands, cands);
      TokensExact(det, known, e, cands);
    }
  }

  lemma {:induction false} TokensExact(det: Detector, known: set<string>, e: Doc, cands: seq<string>)
    requires Every(e, TokenTest(det, known, cands))
    ensures Every(e, Exact) <==> Every(e, Plain)
  {
    if e.Node? {
      TokenNotKey(det, e.mark.was);
      TokensExact(det, known, e.rest, cands);
    }
  }

  /** One line of a text whose known values are marked, through the second phase. */
  lemma LineDocIs(det: Detector, content: string, order: seq<string>, m: Values, d: Doc, i: nat)
    requires Source(d) == content && ValidKeys(order, m) && Every(d, EntryTest(order, m))
    requires SafeText(det, m.Keys, content) && i < |LineDocs(d)|
    ensures var x := LineDocs(d)[i];
            var e := LineDoc(det, m.Keys, x);
            && Render(e) == RedactLine(det, m.Keys, Render(x))
            && Source(e) == Source(x)
            && Every(e, RedactsTest(det, TextTokens(det, content), order, m))
            && (Every(e, Exact) <==> LineIntact(det, m.Keys, Render(x)))
  {
    var x := LineDocs(d)[i];
    LinesKeep(d, EntryTest(order, m));
    if x.Node? {
      MarkedOpens(x);
      EveryWeaken(x, EntryTest(order, m), RedactsTest(det, TextTokens(det, content), order, m));
      EveryWeaken(x, EntryTest(order, m), Exact);
    } else {
      EntriesNamed(d, order, m);
      BareLine(d, i);
      BareLineIs(det, m.Keys, x);
      TokensFromText(det, m.Keys, content, order, m, x.text, LineDoc(det, m.Keys, x));
    }
  }

  lemma TokensFromText(det: Detector, known: set<string>, content: string, order: seq<string>, m: Values, line: string,
                       e: Doc)
    requires line in Split(content, '\n') && Every(e, TokenTest(det, known, Candidates(line)))
    ensures Every(e, RedactsTest(det, TextTokens(det, content), order, m))
  {
    forall k: Mark | IsToken(det, known, Candidates(line), k)
      ensures Held(det, TextTokens(det, content), k)
    {
      TokensExactly(det, Split(content, '\n'), StripQuotes(k.was));
      assert FoundOn(det, line, StripQuotes(k.was));
    }
    EveryWeaken(e, TokenTest(det, known, Candidates(line)), RedactsTest(det, TextTokens(det, content), order, m));
  }

  function LinesThrough(det: Detector, known: set<string>, ds: seq<Doc>): seq<Doc> {
    seq(|ds|, i requires 0 <= i < |ds| => LineDoc(det, known, ds[i]))
  }

  /** The document behind the whole redaction. */
  function RedactedDoc(det: Detector, content: string, order: seq<string>, m: Values): Doc
    requires forall v <- order :: v in m && v != ""
  {
    JoinDocs(LinesThrough(det, m.Keys, LineDocs(KnownDoc(content, order, m))))
  }

  /** Stripping leaves every token that is redacted alone: no edge quotes, no white space around it. */
  predicate AllIntact(det: Detector, known: set<string>, text: string) {
    forall line <- Split(text, '\n') :: LineIntact(det, known, line)
  }

  lemma RedactedDocIs(det: Detector, content: string, order: seq<string>, m: Values)
    requires SafeValues(order, m) && ValidKeys(order, m) && SafeText(det, m.Keys, content)
    ensures var e := RedactedDoc(det, content, order, m);
            && Render(e) == Redacted(det, content, order, m)
            && Source(e) == content
            && Every(e, RedactsTest(det, TextTokens(det, content), order, m))
            && (Every(e, Exact) <==> AllIntact(det, m.Keys, ReplaceEach(content, order, m)))
  {
    var d := KnownDoc(content, order, m);
    KnownDocIs(content, order, m);
    ThroughIs(det, content, order, m, d);
  }

  lemma ThroughIs(det: Detector, content: string, order: seq<string>, m: Values, d: Doc)
    requires Source(d) == content && ValidKeys(order, m) && Every(d, EntryTest(order, m))
             && SafeText(det, m.Keys, content)
    ensures var e := JoinDocs(LinesThrough(det, m.Keys, LineDocs(d)));
            && Render(e) == RedactUnvaulted(det, m.Keys, Render(d))
            && Source(e) == content
            && Every(e, RedactsTest(det, TextTokens(det, content), order, m))
            && (Every(e, Exact) <==> AllIntact(det, m.Keys, Render(d)))
  {
    var ds := LineDocs(d);
    var es := LinesThrough(det, m.Keys, ds);
    EntriesNamed(d, order, m);
    LinesRender(d);
    EachThrough(det, content, order, m, d);
    TextsThrough(det, m.Keys, d);
    SameTests(det, m.Keys, ds, es);
    JoinDocsEvery(es, Exact);
    JoinDocsEvery(es, RedactsTest(det, TextTokens(det, content), order, m));
  }

  lemma TextsThrough(det: Detector, known: set<string>, d: Doc)
    requires Every(d, Named)
    requires forall x <- LineDocs(d) ::
               Render(LineDoc(det, known, x)) == RedactLine(det, known, Render(x))
               && Source(LineDoc(det, known, x)) == Source(x)
    ensures var e := JoinDocs(LinesThrough(det, known, LineDocs(d)));
            Render(e) == RedactUnvaulted(det, known, Render(d)) && Source(e) == Source(d)
  {
    var ds := LineDocs(d);
    var es := LinesThrough(det, known, ds);
    LinesRender(d);
    JoinLines(d);
    JoinDocsIs(ds);
    JoinDocsIs(es);
    LinesThroughAre(det, known, ds);
  }

  lemma LinesThroughAre(det: Detector, known: set<string>, ds: seq<Doc>)
    requires forall x <- ds ::
               Render(LineDoc(det, known, x)) == RedactLine(det, known, Render(x))
               && Source(LineDoc(det, known, x)) == Source(x)
    ensures Renders(LinesThrough(det, known, ds)) == RedactLines(det, known, Renders(ds))
    ensures Sources(LinesThrough(det, known, ds)) == Sources(ds)
  {
    assert forall i :: 0 <= i < |ds| ==> ds[i] in ds;
  }

  lemma EachThrough(det: Detector, content: string, order: seq<string>, m: Values, d: Doc)
    requires Source(d) == content && ValidKeys(order, m) && Every(d, EntryTest(order, m))
             && SafeText(det, m.Keys, content)
    ensures var ds := LineDocs(d);
            var es := LinesThrough(det, m.Keys, ds);
            forall i :: 0 <= i < |ds| ==>
              && Render(es[i]) == RedactLine(det, m.Keys, Renders(ds)[i])
              && Source(es[i]) == Source(ds[i])
              && Every(es[i], RedactsTest(det, TextTokens(det, content), order, m))
              && (Every(es[i], Exact) <==> LineIntact(det, m.Keys, Renders(ds)[i]))
  {
    forall i | 0 <= i < |LineDocs(d)|
      ensures var x := LineDocs(d)[i];
              var e := LineDoc(det, m.Keys, x);
              && Render(e) == RedactLine(det, m.Keys, Render(x))
              && Source(e) == Source(x)
              && Every(e, RedactsTest(det, TextTokens(det, content), order, m))
              && (Every(e, Exact) <==> LineIntact(det, m.Keys, Render(x)))
    {
      LineDocIs(det, content, order, m, d, i);
    }
  }

  lemma SameTests(det: Detector, known: set<string>, ds: seq<Doc>, es: seq<Doc>)
    requires |ds| == |es|
    requires forall i :: 0 <= i < |ds| ==> (Every(es[i], Exact) <==> LineIntact(det, known, Renders(ds)[i]))
    ensures (forall e <- es :: Every(e, Exact)) <==> forall line <- Renders(ds) :: LineIntact(det, known, line)
  {
    if forall e <- es :: Every(e, Exact) {
      forall i | 0 <= i < |ds|
        ensures LineIntact(det, known, Renders(ds)[i])
      {
        assert es[i] in es;
      }
    }
    if forall line <- Renders(ds) :: LineIntact(det, known, line) {
      forall i | 0 <= i < |es|
        ensures Every(es[i], Exact)
      {
        assert Renders(ds)[i] in Renders(ds);
      }
    }
  }

  // ---------- the round trip ----------

  /** The document with the marks of vault keys taken as text again. */
  function Reveal(d: Doc): Doc {
    match d
    case End(t) => d
    case Node(t, k, r) => if ValidKey(k.name) then Prefixed(t + k.was, Reveal(r)) else Node(t, k, Reveal(r))
  }

  /** What comes back: every token stripped. */
  function Stripped(d: Doc): string {
    match d
    case End(t) => t
    case Node(t, k, r) => t + (StripQuotes(k.was) + Stripped(r))
  }

  /** A mark that one of the two restoring passes takes back. */
  predicate Restorable(det: Detector, tokens: seq<string>, resolved: map<string, string>, k: Mark) {
    && Named(k)
    && if ValidKey(k.name) then k.name in resolved && resolved[k.name] == k.was else Held(det, tokens, k)
  }

  function RestorableTest(det: Detector, tokens: seq<string>, resolved: map<string, string>): Mark -> bool {
    (k: Mark) => Restorable(det, tokens, resolved, k)
  }

  function HeldTest(det: Detector, tokens: seq<string>): Mark -> bool {
    (k: Mark) => Named(k) && Held(det, tokens, k)
  }

  lemma RedactedRestorable(det: Detector, tokens: seq<string>, order: seq<string>, m: Values,
                           resolved: map<string, string>, d: Doc)
    requires ValidKeys(order, m) && Resolves(resolved, order, m) && Every(d, RedactsTest(det, tokens, order, m))
    ensures Every(d, RestorableTest(det, tokens, resolved)) && Every(d, Named)
  {
    forall k: Mark | Redacts(det, tokens, order, m, k)
      ensures Restorable(det, tokens, resolved, k)
    {
      if IsEntry(order, m, k) {
        ValidKeyNamed(k.name);
      } else {
        TokenNotKey(det, k.was);
      }
    }
    EveryWeaken(d, RedactsTest(det, tokens, order, m), RestorableTest(det, tokens, resolved));
    EveryWeaken(d, RestorableTest(det, tokens, resolved), Named);
  }

  lemma RevealNode(t: string, k: Mark, r: Doc)
    ensures var p := Prefixed(t + k.was, Reveal(r));
            && Render(p) == t + (k.was + Render(Reveal(r)))
            && Source(p) == t + (k.was + Source(Reveal(r)))
            && forall q: Mark -> bool :: Every(p, q) <==> Every(Reveal(r), q)
  {
    PrefixedIs(t + k.was, Reveal(r));
    Assoc(t, k.was, Render(Reveal(r)));
    Assoc(t, k.was, Source(Reveal(r)));
  }

  /** `Restore` on the redacted text takes back the known values. */
  lemma {:induction false} RevealIs(det: Detector, tokens: seq<string>, resolved: map<string, string>, d: Doc)
    requires Every(d, RestorableTest(det, tokens, resolved))
    ensures Render(Reveal(d)) == Shown(Vaulted(resolved), d)
    ensures Source(Reveal(d)) == Source(d)
  {
    match d
    case End(_) =>
    case Node(t, k, r) =>
      RevealIs(det, tokens, resolved, r);
      RevealNode(t, k, r);
  }

  lemma {:induction false} RevealMarks(det: Detector, tokens: seq<string>, resolved: map<string, string>, d: Doc)
    requires Every(d, RestorableTest(det, tokens, resolved))
    ensures Every(Reveal(d), HeldTest(det, tokens)) && Every(Reveal(d), Named)
    ensures Every(Reveal(d), Plain) <==> Every(d, Exact)
    ensures Sifted(Vaulted(resolved), Accepted(Vaulted(resolved), d), false) == []
  {
    match d
    case End(_) =>
    case Node(t, k, r) =>
      RevealMarks(det, tokens, resolved, r);
      RevealNode(t, k, r);
      SiftHit(Vaulted(resolved), k.name, Accepted(Vaulted(resolved), r));
  }

  lemma SiftHit(on: Scheme, name: string, names: seq<string>)
    ensures on.Get(name).Some? ==> Sifted(on, [name] + names, false) == Sifted(on, names, false)
    ensures [] + names == names
  {
    assert ([name] + names)[1..] == names;
  }

  predicate Alike(det: Detector, a: string, b: string) {
    det.sha256(a)[..PREFIX_LEN] == det.sha256(b)[..PREFIX_LEN]
  }

  lemma AlikeIs(det: Detector, a: string, b: string)
    ensures HasPrefix(det.sha256(a), det.sha256(b)[..PREFIX_LEN]) <==> Alike(det, a, b)
  {}

  /** No two tokens of the text have digests that begin alike. */
  predicate Distinct(det: Detector, tokens: seq<string>) {
    forall a <- tokens, b <- tokens :: Alike(det, a, b) ==> a == b
  }

  lemma DistinctTail(det: Detector, tokens: seq<string>, x: string)
    requires Distinct(det, tokens) && tokens != [] && x in tokens && tokens[0] != x
    ensures Distinct(det, tokens[1..]) && x in tokens[1..]
    ensures !HasPrefix(det.sha256(tokens[0]), det.sha256(x)[..PREFIX_LEN])
  {
    AlikeIs(det, tokens[0], x);
    assert tokens[0] in tokens;
    assert forall a <- tokens[1..] :: a in tokens;
  }

  lemma {:induction false} FirstWithIs(det: Detector, tokens: seq<string>, x: string)
    requires Distinct(det, tokens) && x in tokens
    ensures FirstWith(det, tokens, det.sha256(x)[..PREFIX_LEN]) == Some(x)
  {
    if tokens[0] != x {
      DistinctTail(det, tokens, x);
      FirstWithIs(det, tokens[1..], x);
    } else {
      AlikeIs(det, x, x);
    }
  }

  lemma TokenFound(det: Detector, tokens: seq<string>, k: Mark)
    requires Held(det, tokens, k) && Distinct(det, tokens)
    ensures Hashed(det, tokens).Accepts(k.name)
    ensures Hashed(det, tokens).Get(k.name) == Some(StripQuotes(k.was))
  {
    TokenNotKey(det, k.was);
    FirstWithIs(det, tokens, StripQuotes(k.was));
    GetIs(det, tokens, k.name, det.sha256(StripQuotes(k.was))[..PREFIX_LEN]);
  }

  lemma GetIs(det: Detector, tokens: seq<string>, name: string, h: string)
    requires HashOf(name) == h
    ensures Hashed(det, tokens).Get(name) == FirstWith(det, tokens, h)
  {}

  predicate Finds(on: Scheme, k: Mark) {
    on.Accepts(k.name) && on.Get(k.name) == Some(StripQuotes(k.was))
  }

  function FoundTest(on: Scheme): Mark -> bool {
    (k: Mark) => Finds(on, k)
  }

  lemma AllFound(det: Detector, tokens: seq<string>, d: Doc)
    requires Every(d, HeldTest(det, tokens)) && Distinct(det, tokens)
    ensures Every(d, FoundTest(Hashed(det, tokens)))
  {
    forall k: Mark | Held(det, tokens, k)
      ensures Finds(Hashed(det, tokens), k)
    {
      TokenFound(det, tokens, k);
    }
    EveryWeaken(d, HeldTest(det, tokens), FoundTest(Hashed(det, tokens)));
  }

  lemma FoundShown(on: Scheme, k: Mark)
    requires Finds(on, k)
    ensures on.Accepts(k.name) && on.Get(k.name).Some? && Lookup(on, k.name) == StripQuotes(k.was)
  {}

  /** `RestoreUnvaulted` takes back the tokens. */
  lemma {:induction false} ShownTokens(on: Scheme, d: Doc)
    requires Every(d, FoundTest(on))
    ensures Shown(on, d) == Stripped(d)
    ensures Sifted(on, Accepted(on, d), false) == []
  {
    if d.Node? {
      ShownTokens(on, d.rest);
      FoundShown(on, d.mark);
      SiftHit(on, d.mark.name, Accepted(on, d.rest));
    }
  }

  lemma {:induction false} StrippedIs(d: Doc)
    ensures |Stripped(d)| <= |Source(d)|
    ensures |Stripped(d)| == |Source(d)| <==> Every(d, Plain)
    ensures Every(d, Plain) ==> Stripped(d) == Source(d)
  {
    if d.Node? {
      StrippedIs(d.rest);
    }
  }

  /** Whether redacting and then restoring a text, with the text itself on disk, gives it back. */
  predicate ComesBack(det: Detector, content: string, order: seq<string>, m: Values, resolved: map<string, string>)
    requires forall v <- order :: v in m && v != ""
  {
    Fill(Existing(det, content), Fill(Vaulted(resolved), Redacted(det, content, order, m))) == content
  }

  /** `Redact`, then `Restore`, then `RestoreUnvaulted` against the original: the text comes back
      exactly when stripping changed no redacted token, and no placeholder is ever left over. */
  lemma RoundTrip(det: Detector, content: string, order: seq<string>, m: Values, resolved: map<string, string>)
    requires SafeValues(order, m) && ValidKeys(order, m) && Resolves(resolved, order, m)
    requires SafeText(det, m.Keys, content) && Distinct(det, TextTokens(det, content))
    requires NoSlots(Vaulted(resolved), content) && NoSlots(Existing(det, content), content)
    ensures var redacted := Redacted(det, content, order, m);
            var restored := Fill(Vaulted(resolved), redacted);
            && (ComesBack(det, content, order, m, resolved) <==> AllIntact(det, m.Keys, ReplaceEach(content, order, m)))
            && Sifted(Vaulted(resolved), NamesIn(Vaulted(resolved), redacted), false) == []
            && Sifted(Existing(det, content), NamesIn(Existing(det, content), restored), false) == []
  {
    var e := RedactedDoc(det, content, order, m);
    RedactedDocIs(det, content, order, m);
    RedactedRestorable(det, TextTokens(det, content), order, m, resolved, e);
    DocRoundTrip(det, content, TextTokens(det, content), resolved, e);
  }

  /** The two restoring passes on the rendering of a document. */
  lemma DocRoundTrip(det: Detector, content: string, tokens: seq<string>, resolved: map<string, string>, e: Doc)
    requires Source(e) == content && Every(e, RestorableTest(det, tokens, resolved)) && Every(e, Named)
    requires Distinct(det, tokens)
    requires NoSlots(Vaulted(resolved), content) && NoSlots(Hashed(det, tokens), content)
    ensures var restored := Fill(Vaulted(resolved), Render(e));
            && (Fill(Hashed(det, tokens), restored) == content <==> Every(e, Exact))
            && Sifted(Vaulted(resolved), NamesIn(Vaulted(resolved), Render(e)), false) == []
            && Sifted(Hashed(det, tokens), NamesIn(Hashed(det, tokens), restored), false) == []
  {
    RevealIs(det, tokens, resolved, e);
    RevealMarks(det, tokens, resolved, e);
    ScanShows(Vaulted(resolved), e);
    AllFound(det, tokens, Reveal(e));
    ShownTokens(Hashed(det, tokens), Reveal(e));
    ScanShows(Hashed(det, tokens), Reveal(e));
    StrippedIs(Reveal(e));
  }
}
