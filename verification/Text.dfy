/** The string operations of Go's `strings` package that the source relies on. */
module Text {

  predicate OccursAt(s: string, p: string, i: nat) {
    i + |p| <= |s| && s[i..i + |p|] == p
  }

  /** `strings.Contains`. */
  predicate Contains(s: string, p: string) {
    exists i: nat | i <= |s| :: OccursAt(s, p, i)
  }

  /** `strings.HasPrefix`. */
  predicate HasPrefix(s: string, p: string) {
    |p| <= |s| && s[..|p|] == p
  }

  /** `strings.ReplaceAll` for a non-empty pattern: leftmost, non-overlapping. */
  function ReplaceAll(s: string, pat: string, rep: string): string
    requires pat != ""
  {
    if |s| < |pat| then s
    else if s[..|pat|] == pat then rep + ReplaceAll(s[|pat|..], pat, rep)
    else [s[0]] + ReplaceAll(s[1..], pat, rep)
  }

  /** `strings.Replace(s, pat, rep, 1)` for a non-empty pattern. */
  function ReplaceFirst(s: string, pat: string, rep: string): string
    requires pat != ""
  {
    if |s| < |pat| then s
    else if s[..|pat|] == pat then rep + s[|pat|..]
    else [s[0]] + ReplaceFirst(s[1..], pat, rep)
  }

  /** `strings.Split` on a one-byte separator. */
  function Split(s: string, sep: char): (parts: seq<string>)
    ensures parts != []
  {
    if s == "" then [""]
    else
      var rest := Split(s[1..], sep);
      if s[0] == sep then [""] + rest else [[s[0]] + rest[0]] + rest[1..]
  }

  /** `strings.Join` with a one-byte separator. */
  function Join(parts: seq<string>, sep: char): string {
    if parts == [] then ""
    else if |parts| == 1 then parts[0]
    else parts[0] + [sep] + Join(parts[1..], sep)
  }

  /** `unicode.IsSpace`. */
  predicate IsSpace(c: char) {
    '\t' <= c <= '\r' || c == ' ' || c == '\U{85}' || c == '\U{A0}' || c == '\U{1680}'
    || '\U{2000}' <= c <= '\U{200a}' || c == '\U{2028}' || c == '\U{2029}' || c == '\U{202f}'
    || c == '\U{205f}' || c == '\U{3000}'
  }

  function TrimLeft(s: string): (t: string)
    ensures |t| <= |s|
    ensures t != "" ==> !IsSpace(t[0])
  {
    if s != "" && IsSpace(s[0]) then TrimLeft(s[1..]) else s
  }

  function TrimRight(s: string): (t: string)
    ensures |t| <= |s|
    ensures t != "" ==> !IsSpace(t[|t| - 1])
  {
    if s != "" && IsSpace(s[|s| - 1]) then TrimRight(s[..|s| - 1]) else s
  }

  /** `strings.TrimSpace`. */
  function TrimSpace(s: string): string {
    TrimRight(TrimLeft(s))
  }

  lemma TrimNothing(s: string)
    requires s != "" && !IsSpace(s[0]) && !IsSpace(s[|s| - 1])
    ensures TrimSpace(s) == s
  {}

  /** The length of the string's UTF-8 form, which is what Go's `len` counts. */
  function Utf8Len(s: string): nat {
    if s == "" then 0
    else (if s[0] < '\U{80}' then 1 else if s[0] < '\U{800}' then 2 else if s[0] < '\U{10000}' then 3 else 4)
         + Utf8Len(s[1..])
  }

  lemma Assoc<T>(a: seq<T>, b: seq<T>, c: seq<T>)
    ensures a + (b + c) == a + b + c
  {}

  function Map<A, B>(f: A -> B, s: seq<A>): (r: seq<B>)
    ensures |r| == |s|
    ensures forall i :: 0 <= i < |s| ==> r[i] == f(s[i])
  {
    seq(|s|, i requires 0 <= i < |s| => f(s[i]))
  }

  lemma MapConcat<A, B>(f: A -> B, s: seq<A>, t: seq<A>)
    ensures Map(f, s + t) == Map(f, s) + Map(f, t)
  {}

  lemma TakeSnoc<T>(s: seq<T>, i: nat)
    requires i < |s|
    ensures s[..i + 1] == s[..i] + [s[i]]
  {}

  lemma TakeAll<T>(s: seq<T>)
    ensures s[..|s|] == s && s[|s|..] == []
  {}

  lemma LastSnoc<T>(s: seq<T>)
    requires s != []
    ensures s == s[..|s| - 1] + [s[|s| - 1]]
  {}

  /** A write at the border between what is done and what is left. */
  lemma WriteNext<T>(s: seq<T>, i: nat, x: T)
    requires i < |s|
    ensures s[i := x][..i + 1] == s[..i] + [x]
    ensures s[i := x][i + 1..] == s[i + 1..] == s[i..][1..]
    ensures s[i..][0] == s[i]
  {}

  lemma AssocAround(x: string, a: string, c: char, b: string)
    ensures x + (a + [c] + b) == (x + a) + [c] + b
  {}

  lemma OccursChars(s: string, p: string, i: nat)
    requires OccursAt(s, p, i)
    ensures forall k :: 0 <= k < |p| ==> s[i + k] == p[k]
    ensures forall k :: i <= k < i + |p| ==> s[k] in p
  {
    forall k | 0 <= k < |p|
      ensures s[i + k] == p[k]
    {
      assert s[i..i + |p|][k] == p[k];
    }
    forall k | i <= k < i + |p|
      ensures s[k] in p
    {
      assert s[i + (k - i)] == p[k - i];
    }
  }

  /** A part of a part is a part. */
  lemma ContainsTrans(s: string, t: string, p: string)
    requires Contains(s, t) && Contains(t, p)
    ensures Contains(s, p)
  {
    var i: nat :| i <= |s| && OccursAt(s, t, i);
    var j: nat :| j <= |t| && OccursAt(t, p, j);
    OccursChars(s, t, i);
    OccursChars(t, p, j);
    assert s[i + j..i + j + |p|] == p;
    assert OccursAt(s, p, i + j);
  }

  lemma ContainsInside(a: string, t: string, b: string, p: string)
    requires Contains(t, p)
    ensures Contains(a + t + b, p)
  {
    assert OccursAt(a + t + b, t, |a|);
    ContainsTrans(a + t + b, t, p);
  }

  /** A pattern without the character `c` occurs in `a + [c] + b` only on one side of it. */
  lemma ContainsAround(a: string, c: char, b: string, p: string)
    requires c !in p
    ensures Contains(a + [c] + b, p) <==> Contains(a, p) || Contains(b, p)
  {
    var s := a + [c] + b;
    if Contains(s, p) {
      var i: nat :| i <= |s| && OccursAt(s, p, i);
      OccursChars(s, p, i);
      assert s[|a|] == c;
      if i + |p| <= |a| {
        assert a[i..i + |p|] == s[i..i + |p|];
        assert OccursAt(a, p, i);
      } else if i > |a| {
        var j := i - |a| - 1;
        assert b[j..j + |p|] == s[i..i + |p|];
        assert OccursAt(b, p, j);
      }
    }
    if Contains(a, p) {
      assert s == "" + a + ([c] + b);
      ContainsInside("", a, [c] + b, p);
    }
    if Contains(b, p) {
      assert s == (a + [c]) + b + "";
      ContainsInside(a + [c], b, "", p);
    }
  }

  /** One unfolding of `ReplaceAll`, for use where the two branches are already known. */
  lemma ReplaceAllStep(s: string, pat: string, rep: string)
    requires pat != "" && s != "" && !HasPrefix(s, pat)
    ensures ReplaceAll(s, pat, rep) == [s[0]] + ReplaceAll(s[1..], pat, rep)
  {
    if |s| < |pat| {
      assert s == [s[0]] + s[1..];
    }
  }

  lemma PrefixAround(a: string, c: char, b: string, pat: string)
    requires c !in pat
    ensures HasPrefix(a + [c] + b, pat) <==> HasPrefix(a, pat)
  {
    var s := a + [c] + b;
    if HasPrefix(s, pat) {
      assert OccursAt(s, pat, 0) && s[|a|] == c;
      OccursChars(s, pat, 0);
      assert |pat| <= |a|;
      assert a[..|pat|] == s[..|pat|];
    }
    if HasPrefix(a, pat) {
      assert a[..|pat|] == s[..|pat|];
    }
  }

  /** Replacement does not see across a character the pattern lacks. */
  lemma {:induction false} ReplaceAllAround(a: string, c: char, b: string, pat: string, rep: string)
    requires pat != "" && c !in pat
    ensures ReplaceAll(a + [c] + b, pat, rep) == ReplaceAll(a, pat, rep) + [c] + ReplaceAll(b, pat, rep)
    decreases |a|
  {
    var s := a + [c] + b;
    PrefixAround(a, c, b, pat);
    if HasPrefix(s, pat) {
      var rest := a[|pat|..];
      assert s[|pat|..] == rest + [c] + b;
      ReplaceAllAround(rest, c, b, pat, rep);
      AssocAround(rep, ReplaceAll(rest, pat, rep), c, ReplaceAll(b, pat, rep));
    } else {
      ReplaceAllStep(s, pat, rep);
      if a == "" {
        assert s[1..] == b;
      } else {
        var rest := a[1..];
        assert s[1..] == rest + [c] + b;
        ReplaceAllAround(rest, c, b, pat, rep);
        ReplaceAllStep(a, pat, rep);
        AssocAround([a[0]], ReplaceAll(rest, pat, rep), c, ReplaceAll(b, pat, rep));
      }
    }
  }

  lemma {:induction false} ReplaceAllAbsent(s: string, pat: string, rep: string)
    requires pat != "" && !Contains(s, pat)
    ensures ReplaceAll(s, pat, rep) == s
  {
    if |pat| <= |s| {
      assert !OccursAt(s, pat, 0);
      if Contains(s[1..], pat) {
        assert [s[0]] + s[1..] + [] == s;
        ContainsInside([s[0]], s[1..], [], pat);
      }
      ReplaceAllAbsent(s[1..], pat, rep);
    }
  }

  lemma SplitStep(c: char, p: seq<string>, q: seq<string>)
    requires p != []
    ensures [[c] + (p + q)[0]] + (p + q)[1..] == [[c] + p[0]] + p[1..] + q
    ensures [""] + (p + q) == [""] + p + q
  {
    assert (p + q)[1..] == p[1..] + q;
  }

  lemma {:induction false} SplitAround(a: string, b: string, sep: char)
    ensures Split(a + [sep] + b, sep) == Split(a, sep) + Split(b, sep)
  {
    var s := a + [sep] + b;
    if a == "" {
      assert s[1..] == b;
      assert Split(a, sep) == [""];
    } else {
      assert s[1..] == a[1..] + [sep] + b && s[0] == a[0];
      SplitAround(a[1..], b, sep);
      SplitStep(a[0], Split(a[1..], sep), Split(b, sep));
    }
  }

  lemma {:induction false} SplitWhole(s: string, sep: char)
    requires sep !in s
    ensures Split(s, sep) == [s]
  {
    if s != "" {
      SplitWhole(s[1..], sep);
      assert [s[0]] + s[1..] == s;
    }
  }

  lemma {:induction false} JoinSplit(s: string, sep: char)
    ensures Join(Split(s, sep), sep) == s
  {
    if s != "" {
      JoinSplit(s[1..], sep);
      var rest := Split(s[1..], sep);
      if s[0] == sep {
        assert ([""] + rest)[1..] == rest;
      } else {
        assert ([[s[0]] + rest[0]] + rest[1..])[1..] == rest[1..];
      }
    }
  }

  /** The parts of a split hold no separator. */
  lemma {:induction false} SplitParts(s: string, sep: char)
    ensures forall i :: 0 <= i < |Split(s, sep)| ==> sep !in Split(s, sep)[i]
  {
    if s != "" {
      SplitParts(s[1..], sep);
    }
  }

  lemma {:induction false} SplitJoin(parts: seq<string>, sep: char)
    requires parts != [] && forall i :: 0 <= i < |parts| ==> sep !in parts[i]
    ensures Split(Join(parts, sep), sep) == parts
  {
    SplitWhole(parts[0], sep);
    if |parts| > 1 {
      SplitJoin(parts[1..], sep);
      SplitAround(parts[0], Join(parts[1..], sep), sep);
    }
  }
}
