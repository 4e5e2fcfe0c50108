/** Alice's vault and the write-back of rewrapped entries
    (internal/localvault/localvault.go, cmd/alice/main.go, cmd/alice/rekey.go). */
module LocalVault {
  import opened Wrappers
  import opened Maps
  import opened Versions
  import opened KeystoreSpec

  datatype SecretEntry = SecretEntry(
    value: string, desc: string, createdAt: string, updatedAt: string,
    keyEpoch: int, lenBytes: int, entropyBits: int)

  type Secrets = map<string, SecretEntry>

  /** vault.json in memory. */
  class Vault {
    var secrets: Secrets

    constructor (s: Secrets)
      ensures secrets == s
    {
      secrets := s;
    }

    function Get(name: string): Option<SecretEntry>
      reads this
    {
      if name in secrets then Some(secrets[name]) else None
    }

    method Set(name: string, e: SecretEntry)
      modifies this
      ensures secrets == old(secrets)[name := e]
    {
      secrets := secrets[name := e];
    }

    method Remove(name: string) returns (removed: bool)
      modifies this
      ensures removed <==> name in old(secrets)
      ensures secrets == old(secrets) - {name}
    {
      removed := name in secrets;
      secrets := secrets - {name};
    }
  }

  /** vault.json on disk. Saving replaces the whole file at once. */
  class LocalStore {
    var file: Secrets

    constructor (s: Secrets)
      ensures file == s
    {
      file := s;
    }

    method Load() returns (v: Vault)
      ensures fresh(v) && v.secrets == file
    {
      v := new Vault(file);
    }

    method Save(v: Vault)
      modifies this
      ensures file == v.secrets
    {
      file := v.secrets;
    }
  }

  /** One entry after its ciphertext was rewrapped: only Value and KeyEpoch move. */
  function Rewrap(e: SecretEntry, packed: string): SecretEntry {
    match ParseVersion(packed)
    case Ok((v, _)) => e.(value := packed, keyEpoch := v)
    case Err(_) => e.(value := packed)
  }

  /** The vault after the non-empty rewraps were written back, left to right. */
  function Applied(v: Secrets, names: seq<string>, rewraps: seq<string>): Secrets
    requires |names| == |rewraps|
  {
    if names == [] then v
    else
      var i := |names| - 1;
      var front := Applied(v, names[..i], rewraps[..i]);
      if rewraps[i] == "" || names[i] !in front then front
      else front[names[i] := Rewrap(front[names[i]], rewraps[i])]
  }

  lemma {:induction false} AppliedSkips(v: Secrets, names: seq<string>, rewraps: seq<string>, p: nat, q: nat)
    requires |names| == |rewraps| && p <= q <= |names|
    requires forall i :: p <= i < q ==> rewraps[i] == ""
    ensures Applied(v, names[..p], rewraps[..p]) == Applied(v, names[..q], rewraps[..q])
    decreases q - p
  {
    if p < q {
      AppliedSkips(v, names, rewraps, p, q - 1);
      assert names[..q][..q - 1] == names[..q - 1] && rewraps[..q][..q - 1] == rewraps[..q - 1];
    }
  }

  lemma AppliedStep(v: Secrets, names: seq<string>, rewraps: seq<string>, p: nat)
    requires |names| == |rewraps| && p < |names| && rewraps[p] != ""
    ensures var front := Applied(v, names[..p], rewraps[..p]);
            Applied(v, names[..p + 1], rewraps[..p + 1])
            == if names[p] in front then front[names[p] := Rewrap(front[names[p]], rewraps[p])] else front
  {
    assert names[..p + 1][..p] == names[..p] && rewraps[..p + 1][..p] == rewraps[..p];
  }

  /** The indices of the non-empty rewraps, in order. */
  ghost predicate Chosen(toUpdate: seq<nat>, rewrapped: seq<string>) {
    && (forall k :: 0 <= k < |toUpdate| ==> toUpdate[k] < |rewrapped| && rewrapped[toUpdate[k]] != "")
    && (forall k, l :: 0 <= k < l < |toUpdate| ==> toUpdate[k] < toUpdate[l])
    && (forall j :: 0 <= j < |rewrapped| && rewrapped[j] != "" ==> j in toUpdate)
  }

  /** How many rewraps are not empty. */
  function Given(rewrapped: seq<string>): nat {
    if rewrapped == [] then 0
    else Given(rewrapped[..|rewrapped| - 1]) + (if rewrapped[|rewrapped| - 1] != "" then 1 else 0)
  }

  lemma GivenSnoc(rewrapped: seq<string>, i: nat)
    requires i < |rewrapped|
    ensures Given(rewrapped[..i + 1]) == Given(rewrapped[..i]) + (if rewrapped[i] != "" then 1 else 0)
  {
    assert rewrapped[..i + 1][..i] == rewrapped[..i];
  }

  lemma ChosenSkip(toUpdate: seq<nat>, rewrapped: seq<string>, i: nat)
    requires i < |rewrapped| && Chosen(toUpdate, rewrapped[..i]) && rewrapped[i] == ""
    ensures Chosen(toUpdate, rewrapped[..i + 1])
  {
    var front, all := rewrapped[..i], rewrapped[..i + 1];
    assert forall k :: 0 <= k < |toUpdate| ==> all[toUpdate[k]] == front[toUpdate[k]];
    forall j | 0 <= j < |all| && all[j] != ""
      ensures j in toUpdate
    {
      assert front[j] != "";
    }
  }

  lemma ChosenAdd(toUpdate: seq<nat>, rewrapped: seq<string>, i: nat)
    requires i < |rewrapped| && Chosen(toUpdate, rewrapped[..i]) && rewrapped[i] != ""
    ensures Chosen(toUpdate + [i], rewrapped[..i + 1])
  {
    var front, all, chosen := rewrapped[..i], rewrapped[..i + 1], toUpdate + [i];
    assert forall k :: 0 <= k < |toUpdate| ==> all[toUpdate[k]] == front[toUpdate[k]];
    forall j | 0 <= j < |all| && all[j] != ""
      ensures j in chosen
    {
      if j == i {
        assert chosen[|toUpdate|] == j;
      } else {
        assert front[j] != "";
      }
    }
  }

  /** The first loop of `applyRewraps`. */
  method Choose(rewrapped: seq<string>) returns (toUpdate: seq<nat>)
    ensures Chosen(toUpdate, rewrapped) && |toUpdate| == Given(rewrapped)
  {
    toUpdate := [];
    for i := 0 to |rewrapped|
      invariant Chosen(toUpdate, rewrapped[..i]) && |toUpdate| == Given(rewrapped[..i])
    {
      GivenSnoc(rewrapped, i);
      if rewrapped[i] != "" {
        ChosenAdd(toUpdate, rewrapped, i);
        toUpdate := toUpdate + [i];
      } else {
        ChosenSkip(toUpdate, rewrapped, i);
      }
    }
    assert rewrapped[..|rewrapped|] == rewrapped;
  }

  /** Where the rewraps after the k-th chosen one begin. */
  ghost function Next(toUpdate: seq<nat>, k: nat, n: nat): nat {
    if k < |toUpdate| then toUpdate[k] else n
  }

  lemma NoneBetween(toUpdate: seq<nat>, rewrapped: seq<string>, k: nat)
    requires Chosen(toUpdate, rewrapped)
    requires k <= |toUpdate|
    ensures Next(toUpdate, k, |rewrapped|) <= |rewrapped|
    ensures forall j :: (if k == 0 then 0 else toUpdate[k - 1] + 1) <= j < Next(toUpdate, k, |rewrapped|) ==>
              rewrapped[j] == ""
  {}

  /** The vault `w` is `v` with the rewraps before the k-th chosen one written back. */
  ghost predicate Reached(v: Secrets, names: seq<string>, rewrapped: seq<string>, toUpdate: seq<nat>, k: nat,
                          w: Secrets)
  {
    && |names| == |rewrapped|
    && Next(toUpdate, k, |names|) <= |names|
    && w == Applied(v, names[..Next(toUpdate, k, |names|)], rewrapped[..Next(toUpdate, k, |names|)])
  }

  lemma ReachedFirst(v: Secrets, names: seq<string>, rewrapped: seq<string>, toUpdate: seq<nat>)
    requires |names| == |rewrapped| && Chosen(toUpdate, rewrapped)
    ensures Reached(v, names, rewrapped, toUpdate, 0, v)
  {
    NoneBetween(toUpdate, rewrapped, 0);
    AppliedSkips(v, names, rewrapped, 0, Next(toUpdate, 0, |names|));
  }

  lemma ReachedNext(v: Secrets, names: seq<string>, rewrapped: seq<string>, toUpdate: seq<nat>, k: nat, w: Secrets)
    requires k < |toUpdate| && Chosen(toUpdate, rewrapped) && Reached(v, names, rewrapped, toUpdate, k, w)
    ensures var n := names[toUpdate[k]];
            Reached(v, names, rewrapped, toUpdate, k + 1,
                    if n in w then w[n := Rewrap(w[n], rewrapped[toUpdate[k]])] else w)
  {
    var p := toUpdate[k];
    AppliedStep(v, names, rewrapped, p);
    NoneBetween(toUpdate, rewrapped, k + 1);
    AppliedSkips(v, names, rewrapped, p + 1, Next(toUpdate, k + 1, |names|));
  }

  /** The second loop of `applyRewraps`. */
  method WriteBack(v: Vault, names: seq<string>, rewrapped: seq<string>, toUpdate: seq<nat>)
    requires |names| == |rewrapped| && Chosen(toUpdate, rewrapped)
    modifies v
    ensures v.secrets == Applied(old(v.secrets), names, rewrapped)
  {
    ghost var before := v.secrets;
    ReachedFirst(before, names, rewrapped, toUpdate);
    var k := 0;
    while k < |toUpdate|
      invariant 0 <= k <= |toUpdate| && Reached(before, names, rewrapped, toUpdate, k, v.secrets)
    {
      ReachedNext(before, names, rewrapped, toUpdate, k, v.secrets);
      var name, r := names[toUpdate[k]], rewrapped[toUpdate[k]];
      var e := v.Get(name);
      if e.Some? {
        v.Set(name, Rewrap(e.value, r));
      }
      k := k + 1;
    }
    assert names[..|names|] == names && rewrapped[..|names|] == rewrapped;
  }

  /** `applyRewraps`: one load, one save. */
  method ApplyRewraps(store: LocalStore, names: seq<string>, rewrapped: seq<string>)
    returns (r: Result<nat, string>)
    modifies store
    ensures r.Err? <==> rewrapped != [] && |names| != |rewrapped|
    ensures r.Ok? ==> r.value == Given(rewrapped)
    ensures store.file == if r.Err? || rewrapped == [] then old(store.file)
                          else Applied(old(store.file), names, rewrapped)
  {
    if rewrapped == [] {
      return Ok(0);
    }
    if |names| != |rewrapped| {
      return Err("applyRewraps: keys/rewrapped length mismatch");
    }
    var toUpdate := Choose(rewrapped);
    if toUpdate == [] {
      NoneBetween(toUpdate, rewrapped, 0);
      AppliedSkips(store.file, names, rewrapped, 0, |names|);
      assert names[..|names|] == names && rewrapped[..|names|] == rewrapped;
      return Ok(0);
    }
    var v := store.Load();
    WriteBack(v, names, rewrapped, toUpdate);
    store.Save(v);
    return Ok(|toUpdate|);
  }

  predicate NoRepeats(names: seq<string>) {
    forall i, j :: 0 <= i < j < |names| ==> names[i] != names[j]
  }

  /** With distinct names each named entry was rewrapped by its own text and no other entry moved. */
  predicate EachApplied(v: Secrets, names: seq<string>, rewraps: seq<string>, w: Secrets)
    requires |names| == |rewraps|
  {
    && w.Keys == v.Keys
    && (forall i :: 0 <= i < |names| ==>
          names[i] in v && w[names[i]] == if rewraps[i] == "" then v[names[i]] else Rewrap(v[names[i]], rewraps[i]))
    && forall n :: n in v && n !in names ==> w[n] == v[n]
  }

  lemma {:induction false} AppliedKeys(v: Secrets, names: seq<string>, rewraps: seq<string>)
    requires |names| == |rewraps|
    ensures Applied(v, names, rewraps).Keys == v.Keys
  {
    if names != [] {
      AppliedKeys(v, names[..|names| - 1], rewraps[..|names| - 1]);
    }
  }

  lemma {:induction false} AppliedOther(v: Secrets, names: seq<string>, rewraps: seq<string>, n: string)
    requires |names| == |rewraps| && n in v && n !in names
    ensures n in Applied(v, names, rewraps) && Applied(v, names, rewraps)[n] == v[n]
  {
    if names != [] {
      AppliedOther(v, names[..|names| - 1], rewraps[..|names| - 1], n);
    }
  }

  lemma {:induction false} AppliedName(v: Secrets, names: seq<string>, rewraps: seq<string>, i: nat)
    requires |names| == |rewraps| && NoRepeats(names) && i < |names| && names[i] in v
    ensures var w := Applied(v, names, rewraps);
            && names[i] in w
            && w[names[i]] == if rewraps[i] == "" then v[names[i]] else Rewrap(v[names[i]], rewraps[i])
    decreases |names|
  {
    var last := |names| - 1;
    if i == last {
      AppliedOther(v, names[..last], rewraps[..last], names[i]);
    } else {
      AppliedName(v, names[..last], rewraps[..last], i);
    }
  }

  lemma AppliedAt(v: Secrets, names: seq<string>, rewraps: seq<string>)
    requires |names| == |rewraps| && NoRepeats(names)
    requires forall i :: 0 <= i < |names| ==> names[i] in v
    ensures EachApplied(v, names, rewraps, Applied(v, names, rewraps))
  {
    var w := Applied(v, names, rewraps);
    AppliedKeys(v, names, rewraps);
    forall i | 0 <= i < |names|
      ensures w[names[i]] == if rewraps[i] == "" then v[names[i]] else Rewrap(v[names[i]], rewraps[i])
    {
      AppliedName(v, names, rewraps, i);
    }
    forall n | n in v && n !in names
      ensures w[n] == v[n]
    {
      AppliedOther(v, names, rewraps, n);
    }
  }

  // ---------- rekey-status and the gate ----------

  function AtVersion(v: Secrets, version: int): set<string> {
    set n | n in v && VersionOf(v[n].value) == version
  }

  /** One entry more counts for its version and no other. */
  lemma OneMore(seen: Secrets, n: string, e: SecretEntry, ver: int)
    requires n !in seen && VersionOf(e.value) == ver
    ensures AtVersion(seen[n := e], ver) == AtVersion(seen, ver) + {n} && n !in AtVersion(seen, ver)
    ensures n in AtVersion(seen[n := e], ver)
    ensures forall version :: version != ver ==> AtVersion(seen[n := e], version) == AtVersion(seen, version)
  {}

  /** The count for a version is the number of entries at it, and only versions in use are counted. */
  predicate CountedAt(v: Secrets, counts: map<int, nat>, version: int) {
    && (version in counts <==> AtVersion(v, version) != {})
    && (version in counts ==> counts[version] == |AtVersion(v, version)|)
  }

  ghost predicate Counted(v: Secrets, counts: map<int, nat>) {
    forall version :: CountedAt(v, counts, version)
  }

  lemma CountsGrow(seen: Secrets, counts: map<int, nat>, n: string, e: SecretEntry, ver: int)
    requires n !in seen && VersionOf(e.value) == ver && Counted(seen, counts)
    ensures Counted(seen[n := e], counts[ver := (if ver in counts then counts[ver] else 0) + 1])
  {
    OneMore(seen, n, e, ver);
    var all, more := seen[n := e], counts[ver := (if ver in counts then counts[ver] else 0) + 1];
    forall version
      ensures CountedAt(all, more, version)
    {
      assert CountedAt(seen, counts, version) && CountedAt(seen, counts, ver);
    }
  }

  /** `rekey-status`: how many entries are at each version, with -1 for malformed ones. */
  method RekeyStatus(v: Secrets) returns (counts: map<int, nat>)
    ensures Counted(v, counts)
  {
    counts := map[];
    var rest, seen: Secrets := v.Keys, map[];
    while rest != {}
      invariant rest <= v.Keys && seen == map n | n in v && n !in rest :: v[n]
      invariant Counted(seen, counts)
    {
      var n := PickKey(rest);
      var ver := VersionOf(v[n].value);
      CountsGrow(seen, counts, n, v[n], ver);
      counts := counts[ver := (if ver in counts then counts[ver] else 0) + 1];
      seen := seen[n := v[n]];
      rest := rest - {n};
    }
    assert seen == v;
  }

  /** The sum that scripts/anb-revoke.sh takes over the printed counts. */
  method StaleCount(counts: map<int, nat>, current: int) returns (stale: nat)
    ensures stale == 0 <==> forall version :: version in counts && version != current ==> counts[version] == 0
  {
    stale := 0;
    var rest := counts.Keys;
    while rest != {}
      invariant rest <= counts.Keys
      invariant stale == 0 <==> forall version :: version in counts && version !in rest && version != current ==>
                                                    counts[version] == 0
    {
      var version := PickKey(rest);
      if version != current {
        stale := stale + counts[version];
      }
      rest := rest - {version};
    }
  }

  /** The gate before finalization: it passes exactly when every entry is on the current version. */
  method Gate(v: Secrets, current: int) returns (pass: bool)
    ensures pass <==> forall n :: n in v ==> VersionOf(v[n].value) == current
  {
    var counts := RekeyStatus(v);
    var stale := StaleCount(counts, current);
    pass := stale == 0;
    if pass {
      forall n | n in v
        ensures VersionOf(v[n].value) == current
      {
        assert CountedAt(v, counts, VersionOf(v[n].value)) && n in AtVersion(v, VersionOf(v[n].value));
      }
    } else {
      var version :| version in counts && version != current && counts[version] != 0;
      assert CountedAt(v, counts, version);
      var n := AnyOf(AtVersion(v, version));
    }
  }
}
