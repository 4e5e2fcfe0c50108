/** Small facts about sets and maps keyed by numbers. */
module Maps {

  /** One step of ranging over a Go map: any key that was not visited yet. */
  method PickKey<T>(rest: set<T>) returns (x: T)
    requires rest != {}
    ensures x in rest
  {
    x :| x in rest;
  }

  lemma AnyOf<T>(s: set<T>) returns (x: T)
    requires s != {}
    ensures x in s
  {
    x :| x in s;
  }

  lemma KeyOf<K, V>(m: map<K, V>, v: V) returns (k: K)
    requires v in m.Values
    ensures k in m && m[k] == v
  {
    k :| k in m && m[k] == v;
  }

  lemma {:induction false} Greatest(s: set<int>) returns (x: int)
    requires s != {}
    ensures x in s && forall y <- s :: y <= x
    decreases |s|
  {
    x := AnyOf(s);
    var rest := s - {x};
    if rest != {} {
      var y := Greatest(rest);
      assert s == rest + {x};
      x := if y > x then y else x;
    }
  }

  /** Every set can be listed. */
  lemma {:induction false} Listing<T>(s: set<T>) returns (l: seq<T>)
    ensures (forall x :: x in l <==> x in s) && forall i, j :: 0 <= i < j < |l| ==> l[i] != l[j]
    decreases |s|
  {
    l := [];
    if s != {} {
      var x := AnyOf(s);
      var rest := Listing(s - {x});
      l := rest + [x];
      assert forall i :: 0 <= i < |rest| ==> rest[i] in rest;
    }
  }

  lemma PutBack<K, V>(m: map<K, V>, k: K)
    requires k in m
    ensures (m - {k})[k := m[k]] == m
  {}

  /** Maps with the same keys and the same values at them are the same map. */
  lemma {:induction false} SameMap<V>(a: map<int, V>, b: map<int, V>)
    requires a.Keys == b.Keys && forall k :: k in a ==> a[k] == b[k]
    ensures a == b
    decreases |a|
  {
    if a.Keys != {} {
      var k := AnyOf(a.Keys);
      SameMap(a - {k}, b - {k});
      PutBack(a, k);
      PutBack(b, k);
    }
  }
}
