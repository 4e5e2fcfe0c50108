/** Redacted texts as documents: literal text with marks between, each remembering what it stands for. */
module Documents {
  import opened Text
  import opened Redact

  datatype Mark = Mark(name: string, was: string)
  datatype Doc = End(text: string) | Node(text: string, mark: Mark, rest: Doc)

  /** The document as redacted text. */
  function Render(d: Doc): string {
    match d
    case End(t) => t
    case Node(t, m, r) => t + (Tag(m.name) + Render(r))
  }

  /** The text the document stands for. */
  function Source(d: Doc): string {
    match d
    case End(t) => t
    case Node(t, m, r) => t + (m.was + Source(r))
  }

  predicate Every(d: Doc, p: Mark -> bool) {
    match d
    case End(_) => true
    case Node(_, m, r) => p(m) && Every(r, p)
  }

  lemma {:induction false} EveryWeaken(d: Doc, p: Mark -> bool, q: Mark -> bool)
    requires Every(d, p) && forall m :: p(m) ==> q(m)
    ensures Every(d, q)
  {
    if d.Node? {
      EveryWeaken(d.rest, p, q);
    }
  }

  // ---------- scanning a document ----------

  predicate NoSlots(on: Scheme, s: string) {
    forall i: nat | i <= |s| :: Slot(on, s[i..]).None?
  }

  lemma PrefixFits(lit: string, x: string, t: string)
    requires HasPrefix(lit + x, t) && lit != "" && (x == "" || x[0] == '<')
    requires forall i :: 1 <= i < |t| ==> t[i] != '<'
    ensures HasPrefix(lit, t)
  {
    var s := lit + x;
    assert x != "" ==> s[|lit|] == '<';
    assert OccursAt(s, t, 0);
    OccursChars(s, t, 0);
    assert |t| <= |lit|;
    assert lit[..|t|] == s[..|t|];
  }

  /** No placeholder starts in a literal without one, whatever follows behind a `<` or the end. */
  lemma SlotStaysInside(on: Scheme, lit: string, x: string)
    requires lit != "" && Slot(on, lit).None? && (x == "" || x[0] == '<')
    ensures Slot(on, lit + x).None?
  {
    var s := Slot(on, lit + x);
    if s.Some? {
      var t := Tag(s.value);
      AcceptedNoAngles(on, s.value);
      TagBody(s.value);
      PrefixFits(lit, x, t);
      SlotIs(on, lit, s.value);
    }
  }

  lemma NoSlotsTail(on: Scheme, s: string)
    requires NoSlots(on, s) && s != ""
    ensures Slot(on, s).None? && NoSlots(on, s[1..])
  {
    assert s[0..] == s;
    forall i: nat | i <= |s[1..]|
      ensures Slot(on, s[1..][i..]).None?
    {
      assert s[1..][i..] == s[i + 1..];
    }
  }

  lemma CharPasses(on: Scheme, a: string, x: string)
    requires a != "" && Slot(on, a + x).None? && Fill(on, a[1..] + x) == a[1..] + Fill(on, x)
    requires NamesIn(on, a[1..] + x) == NamesIn(on, x)
    ensures Fill(on, a + x) == a + Fill(on, x)
    ensures NamesIn(on, a + x) == NamesIn(on, x)
  {
    SplitHead(a, x);
    FillStep(on, a + x);
    SplitHead(a, Fill(on, x));
  }

  lemma SplitHead(a: string, x: string)
    requires a != ""
    ensures (a + x)[1..] == a[1..] + x && (a + x)[0] == a[0]
    ensures [a[0]] + (a[1..] + x) == a + x
  {}

  lemma {:induction false} LiteralPasses(on: Scheme, lit: string, x: string)
    requires NoSlots(on, lit) && (x == "" || x[0] == '<')
    ensures Fill(on, lit + x) == lit + Fill(on, x)
    ensures NamesIn(on, lit + x) == NamesIn(on, x)
  {
    if lit == "" {
      assert lit + x == x;
    } else {
      NoSlotsTail(on, lit);
      SlotStaysInside(on, lit, x);
      LiteralPasses(on, lit[1..], x);
      CharPasses(on, lit, x);
    }
  }

  /** Text without an opening bracket is copied. */
  lemma {:induction false} PlainPasses(on: Scheme, a: string, x: string)
    requires '<' !in a
    ensures Fill(on, a + x) == a + Fill(on, x)
    ensures NamesIn(on, a + x) == NamesIn(on, x)
  {
    if a == "" {
      assert a + x == x;
    } else {
      PlainPasses(on, a[1..], x);
      NotOpen(on, a + x);
      CharPasses(on, a, x);
    }
  }

  lemma NotOpen(on: Scheme, s: string)
    requires s != "" && s[0] != '<'
    ensures Slot(on, s).None?
  {
    assert |s| >= |OPEN| ==> s[..|OPEN|][0] == s[0];
  }

  lemma MarkPasses(on: Scheme, name: string, x: string)
    requires NoAngles(name)
    ensures Fill(on, Tag(name) + x) == (if on.Accepts(name) then Lookup(on, name) else Tag(name)) + Fill(on, x)
    ensures NamesIn(on, Tag(name) + x) == (if on.Accepts(name) then [name] else []) + NamesIn(on, x)
  {
    var t := Tag(name);
    var s := t + x;
    TagBody(name);
    assert s[..|t|] == t && s[|t|..] == x;
    SlotIs(on, s, name);
    FillStep(on, s);
    if !on.Accepts(name) {
      PlainPasses(on, t[1..], x);
      CharPasses(on, t, x);
    }
  }

  /** The document after the scan: the marks the scheme accepts are looked up, the others stay. */
  function Shown(on: Scheme, d: Doc): string {
    match d
    case End(t) => t
    case Node(t, m, r) => t + ((if on.Accepts(m.name) then Lookup(on, m.name) else Tag(m.name)) + Shown(on, r))
  }

  /** The names of the accepted marks, in order. */
  function Accepted(on: Scheme, d: Doc): seq<string> {
    match d
    case End(_) => []
    case Node(_, m, r) => (if on.Accepts(m.name) then [m.name] else []) + Accepted(on, r)
  }

  predicate Named(m: Mark) {
    NoAngles(m.name) && '\n' !in m.name
  }

  lemma SlotGrows(on: Scheme, a: string, b: string)
    requires Slot(on, a + b).None?
    ensures Slot(on, a).None?
  {
    var r := Slot(on, a);
    if r.Some? {
      var t := Tag(r.value);
      assert (a + b)[..|t|] == a[..|t|];
      SlotIs(on, a + b, r.value);
    }
  }

  lemma NoSlotsParts(on: Scheme, a: string, b: string)
    requires NoSlots(on, a + b)
    ensures NoSlots(on, b)
    ensures NoSlots(on, a)
  {
    var s := a + b;
    forall i: nat | i <= |b|
      ensures Slot(on, b[i..]).None?
    {
      assert s[|a| + i..] == b[i..];
    }
    forall i: nat | i <= |a|
      ensures Slot(on, a[i..]).None?
    {
      assert s[i..] == a[i..] + b;
      SlotGrows(on, a[i..], b);
    }
  }

  /** The scan finds exactly the marks of the document when the text it stands for has no placeholder. */
  lemma {:induction false} ScanShows(on: Scheme, d: Doc)
    requires NoSlots(on, Source(d)) && Every(d, Named)
    ensures Fill(on, Render(d)) == Shown(on, d)
    ensures NamesIn(on, Render(d)) == Accepted(on, d)
  {
    match d
    case End(t) =>
      LiteralPasses(on, t, "");
      assert t + "" == t;
    case Node(t, m, r) =>
      NoSlotsParts(on, t, m.was + Source(r));
      NoSlotsParts(on, m.was, Source(r));
      ScanShows(on, r);
      MarkPasses(on, m.name, Render(r));
      TagBody(m.name);
      LiteralPasses(on, t, Tag(m.name) + Render(r));
  }

  // ---------- literals with marks ----------

  function Append(d: Doc, m: Mark, e: Doc): Doc {
    match d
    case End(t) => Node(t, m, e)
    case Node(t, m', r) => Node(t, m', Append(r, m, e))
  }

  lemma {:induction false} AppendIs(d: Doc, m: Mark, e: Doc)
    ensures Render(Append(d, m, e)) == Render(d) + (Tag(m.name) + Render(e))
    ensures Source(Append(d, m, e)) == Source(d) + (m.was + Source(e))
    ensures forall p: Mark -> bool :: Every(Append(d, m, e), p) <==> Every(d, p) && p(m) && Every(e, p)
  {
    match d
    case End(_) =>
    case Node(t, m', r) =>
      AppendIs(r, m, e);
      Assoc(Tag(m'.name), Render(r), Tag(m.name) + Render(e));
      Assoc(t, Tag(m'.name) + Render(r), Tag(m.name) + Render(e));
      Assoc(m'.was, Source(r), m.was + Source(e));
      Assoc(t, m'.was + Source(r), m.was + Source(e));
  }

  function Prefixed(s: string, d: Doc): Doc {
    match d
    case End(t) => End(s + t)
    case Node(t, m, r) => Node(s + t, m, r)
  }

  lemma PrefixedIs(s: string, d: Doc)
    ensures Render(Prefixed(s, d)) == s + Render(d)
    ensures Source(Prefixed(s, d)) == s + Source(d)
    ensures forall p: Mark -> bool :: Every(Prefixed(s, d), p) <==> Every(d, p)
  {
    match d
    case End(_) =>
    case Node(t, m, r) =>
      Assoc(s, t, Tag(m.name) + Render(r));
      Assoc(s, t, m.was + Source(r));
  }

  // ---------- replacing a value ----------

  /** Every occurrence of a value in a literal, marked. */
  function MarkAll(s: string, v: string, m: Mark): Doc
    requires v != ""
  {
    if |s| < |v| then End(s)
    else if s[..|v|] == v then Node("", m, MarkAll(s[|v|..], v, m))
    else Prefixed([s[0]], MarkAll(s[1..], v, m))
  }

  lemma {:induction false} MarkAllIs(s: string, v: string, m: Mark)
    requires v != "" && m.was == v
    ensures Render(MarkAll(s, v, m)) == ReplaceAll(s, v, Tag(m.name))
    ensures Source(MarkAll(s, v, m)) == s
    ensures forall p: Mark -> bool :: p(m) ==> Every(MarkAll(s, v, m), p)
  {
    if |s| < |v| {
    } else if s[..|v|] == v {
      MarkAllIs(s[|v|..], v, m);
      var rest := MarkAll(s[|v|..], v, m);
      assert "" + (Tag(m.name) + Render(rest)) == Tag(m.name) + Render(rest);
      assert "" + (v + s[|v|..]) == s;
    } else {
      MarkAllIs(s[1..], v, m);
      PrefixedIs([s[0]], MarkAll(s[1..], v, m));
      assert [s[0]] + s[1..] == s;
    }
  }

  function MarkDoc(d: Doc, v: string, m: Mark): Doc
    requires v != ""
  {
    match d
    case End(t) => MarkAll(t, v, m)
    case Node(t, m', r) => Append(MarkAll(t, v, m), m', MarkDoc(r, v, m))
  }

  /** What stands between the brackets of a placeholder. */
  function Inside(name: string): string {
    "agent-vault:" + name
  }

  lemma TagParts(t: string, name: string, x: string)
    ensures t + ['<'] + (Inside(name) + ['>'] + x) == t + (Tag(name) + x)
  {}

  lemma ReplaceInTag(name: string, x: string, v: string, rep: string)
    requires v != "" && NoAngles(v) && !Contains(Inside(name), v)
    ensures ReplaceAll(Inside(name) + ['>'] + x, v, rep) == Inside(name) + ['>'] + ReplaceAll(x, v, rep)
  {
    ReplaceAllAround(Inside(name), '>', x, v, rep);
    ReplaceAllAbsent(Inside(name), v, rep);
  }

  lemma ReplaceInNode(t: string, name: string, x: string, v: string, rep: string)
    requires v != "" && NoAngles(v) && !Contains(Inside(name), v)
    ensures ReplaceAll(t + (Tag(name) + x), v, rep) == ReplaceAll(t, v, rep) + (Tag(name) + ReplaceAll(x, v, rep))
  {
    var tail := Inside(name) + ['>'] + x;
    TagParts(t, name, x);
    ReplaceAllAround(t, '<', tail, v, rep);
    ReplaceInTag(name, x, v, rep);
    TagParts(ReplaceAll(t, v, rep), name, ReplaceAll(x, v, rep));
  }

  function LackTest(v: string): Mark -> bool {
    (m: Mark) => !Contains(Inside(m.name), v)
  }

  /** The value is part of no mark. */
  predicate Lacks(d: Doc, v: string) {
    Every(d, LackTest(v))
  }

  /** Replacing a value in the redacted text marks it in the document. */
  lemma {:induction false} MarkDocIs(d: Doc, v: string, m: Mark)
    requires v != "" && m.was == v && NoAngles(v) && Lacks(d, v)
    ensures Render(MarkDoc(d, v, m)) == ReplaceAll(Render(d), v, Tag(m.name))
    ensures Source(MarkDoc(d, v, m)) == Source(d)
    ensures forall p: Mark -> bool :: Every(d, p) && p(m) ==> Every(MarkDoc(d, v, m), p)
  {
    match d
    case End(t) =>
      MarkAllIs(t, v, m);
    case Node(t, m', r) =>
      MarkAllIs(t, v, m);
      MarkDocIs(r, v, m);
      AppendIs(MarkAll(t, v, m), m', MarkDoc(r, v, m));
      ReplaceInNode(t, m'.name, Render(r), v, Tag(m.name));
  }

  // ---------- replacing a token once ----------

  predicate InText(d: Doc, v: string) {
    Contains(d.text, v) || (d.Node? && InText(d.rest, v))
  }

  /** The first occurrence of a token in a literal, marked. */
  function MarkOne(s: string, v: string, m: Mark): Doc
    requires v != ""
  {
    if |s| < |v| then End(s)
    else if s[..|v|] == v then Node("", m, End(s[|v|..]))
    else Prefixed([s[0]], MarkOne(s[1..], v, m))
  }

  lemma {:induction false} MarkOneIs(s: string, v: string, m: Mark)
    requires v != "" && m.was == v
    ensures Render(MarkOne(s, v, m)) == ReplaceFirst(s, v, Tag(m.name))
    ensures Source(MarkOne(s, v, m)) == s
    ensures forall p: Mark -> bool :: Every(MarkOne(s, v, m), p) <==> !Contains(s, v) || p(m)
  {
    if |s| < |v| {
      assert !Contains(s, v);
    } else if s[..|v|] == v {
      assert OccursAt(s, v, 0);
      assert "" + (Tag(m.name) + s[|v|..]) == Tag(m.name) + s[|v|..];
      assert "" + (v + s[|v|..]) == s;
    } else {
      MarkOneIs(s[1..], v, m);
      PrefixedIs([s[0]], MarkOne(s[1..], v, m));
      assert [s[0]] + s[1..] == s;
      ContainsTail(s, v);
    }
  }

  lemma ContainsTail(s: string, v: string)
    requires s != "" && !HasPrefix(s, v)
    ensures Contains(s, v) <==> Contains(s[1..], v)
  {
    if Contains(s, v) {
      var i: nat :| i <= |s| && OccursAt(s, v, i);
      assert i > 0;
      assert s[1..][i - 1..i - 1 + |v|] == s[i..i + |v|];
      assert OccursAt(s[1..], v, i - 1);
    }
    if Contains(s[1..], v) {
      assert s == [s[0]] + s[1..] + "";
      ContainsInside([s[0]], s[1..], "", v);
    }
  }

  function MarkFirst(d: Doc, v: string, m: Mark): Doc
    requires v != ""
  {
    match d
    case End(t) => MarkOne(t, v, m)
    case Node(t, m', r) =>
      if Contains(t, v) then Append(MarkOne(t, v, m), m', r) else Node(t, m', MarkFirst(r, v, m))
  }

  /** A single replacement does not see across a character the pattern lacks. */
  lemma {:induction false} ReplaceFirstAround(a: string, c: char, b: string, pat: string, rep: string)
    requires pat != "" && c !in pat
    ensures ReplaceFirst(a + [c] + b, pat, rep)
         == if Contains(a, pat) then ReplaceFirst(a, pat, rep) + [c] + b else a + [c] + ReplaceFirst(b, pat, rep)
    decreases |a|
  {
    var s := a + [c] + b;
    PrefixAround(a, c, b, pat);
    if HasPrefix(a, pat) {
      assert OccursAt(a, pat, 0);
      assert s[|pat|..] == a[|pat|..] + [c] + b;
      AssocAround(rep, a[|pat|..], c, b);
    } else {
      FirstStep(s, pat, rep);
      if a == "" {
        assert s[1..] == b && !Contains(a, pat);
      } else {
        assert s[1..] == a[1..] + [c] + b && s[0] == a[0];
        ReplaceFirstAround(a[1..], c, b, pat, rep);
        FirstStep(a, pat, rep);
        ContainsTail(a, pat);
        AssocAround([a[0]], ReplaceFirst(a[1..], pat, rep), c, b);
        AssocAround([a[0]], a[1..], c, ReplaceFirst(b, pat, rep));
        assert [a[0]] + a[1..] == a;
      }
    }
  }

  lemma FirstStep(s: string, pat: string, rep: string)
    requires pat != "" && s != "" && !HasPrefix(s, pat)
    ensures ReplaceFirst(s, pat, rep) == [s[0]] + ReplaceFirst(s[1..], pat, rep)
  {
    if |s| < |pat| {
      assert s == [s[0]] + s[1..];
    }
  }

  lemma FirstInNode(t: string, name: string, x: string, v: string, rep: string)
    requires v != "" && NoAngles(v) && !Contains(Inside(name), v)
    ensures ReplaceFirst(t + (Tag(name) + x), v, rep)
         == if Contains(t, v) then ReplaceFirst(t, v, rep) + (Tag(name) + x)
            else t + (Tag(name) + ReplaceFirst(x, v, rep))
  {
    var tail := Inside(name) + ['>'] + x;
    TagParts(t, name, x);
    ReplaceFirstAround(t, '<', tail, v, rep);
    ReplaceFirstAround(Inside(name), '>', x, v, rep);
    TagParts(t, name, ReplaceFirst(x, v, rep));
    TagParts(ReplaceFirst(t, v, rep), name, x);
  }

  /** Replacing a token once in the redacted text marks it once in the document. */
  lemma {:induction false} MarkFirstIs(d: Doc, v: string, m: Mark)
    requires v != "" && m.was == v && NoAngles(v) && Lacks(d, v)
    ensures Render(MarkFirst(d, v, m)) == ReplaceFirst(Render(d), v, Tag(m.name))
    ensures Source(MarkFirst(d, v, m)) == Source(d)
  {
    match d
    case End(t) =>
      MarkOneIs(t, v, m);
    case Node(t, m', r) =>
      FirstInNode(t, m'.name, Render(r), v, Tag(m.name));
      if Contains(t, v) {
        MarkOneIs(t, v, m);
        AppendIs(MarkOne(t, v, m), m', r);
      } else {
        MarkFirstIs(r, v, m);
      }
  }

  lemma {:induction false} MarkFirstEvery(d: Doc, v: string, m: Mark, p: Mark -> bool)
    requires v != "" && m.was == v
    ensures Every(MarkFirst(d, v, m), p) <==> Every(d, p) && (InText(d, v) ==> p(m))
  {
    match d
    case End(t) =>
      MarkOneIs(t, v, m);
    case Node(t, m', r) =>
      if Contains(t, v) {
        MarkOneIs(t, v, m);
        AppendIs(MarkOne(t, v, m), m', r);
      } else {
        MarkFirstEvery(r, v, m, p);
      }
  }

  /** A value without brackets, inside no mark, occurs in the redacted text only in its literals. */
  lemma {:induction false} InTextIs(d: Doc, v: string)
    requires NoAngles(v) && Lacks(d, v)
    ensures Contains(Render(d), v) <==> InText(d, v)
  {
    match d
    case End(_) =>
    case Node(t, m, r) =>
      var tail := Inside(m.name) + ['>'] + Render(r);
      TagParts(t, m.name, Render(r));
      ContainsAround(t, '<', tail, v);
      ContainsAround(Inside(m.name), '>', Render(r), v);
      InTextIs(r, v);
  }
}
