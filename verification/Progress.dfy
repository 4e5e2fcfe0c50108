/** The commands of the life-cycle machine can happen: from every state in order a rotation, a
    finalization and a binding have an outcome (cmd/bob/rotate.go, cmd/bob/migrate.go). */
module Progress {
  import opened Wrappers
  import opened Maps
  import opened Hex
  import opened Gcm
  import opened Versions
  import opened Envelope
  import opened Rotate
  import opened RotateProps
  import opened LocalVault
  import opened Lifecycle
  import M = Migrate
  import S = KeystoreSpec

  function ZeroIv(): Nonce {
    seq(NONCE_LEN, _ => 0)
  }

  /** One key wrapped under a password, whatever the salt and the nonce. */
  lemma CanWrap(g: Cipher, key: Bytes, password: string, id: int, created: string) returns (k: KeyEnvelope)
    requires |key| == MASTER_KEY_LEN
    ensures k.id == id && k.created == created && Unwrap(g, k, password) == Ok(key)
  {
    UnwrapWrapped(g, key, password, [], ZeroIv(), id, created);
    k := Wrap(g, key, password, [], ZeroIv(), id, created).value;
  }

  lemma AppendIncreasing(keys: seq<KeyEnvelope>, k: KeyEnvelope)
    requires IncreasingIds(keys) && forall id <- Ids(keys) :: id < k.id
    ensures IncreasingIds(keys + [k]) && Ids(keys + [k]) == Ids(keys) + {k.id}
  {
    assert forall i :: 0 <= i < |keys| ==> keys[i].id in Ids(keys);
    IdsSnoc(keys, k);
  }

  /** `rewrapAll` has a result for every set of keys. */
  lemma {:induction false} CanRewrap(g: Cipher, before: seq<KeyEnvelope>, mks: map<int, Bytes>, password: string,
                                     now: string)
    returns (after: seq<KeyEnvelope>)
    requires forall id :: id in mks ==> |mks[id]| == MASTER_KEY_LEN
    ensures Rewrapped(g, before, mks, password, now, after)
    decreases |mks|
  {
    after := [];
    if mks.Keys != {} {
      var id := Greatest(mks.Keys);
      var rest := CanRewrap(g, before, mks - {id}, password, now);
      var k := CanWrap(g, mks[id], password, id, Stamp(before, id, now));
      RewrapMore(g, before, mks, password, now, rest, k);
      after := rest + [k];
    }
  }

  lemma RewrapMore(g: Cipher, before: seq<KeyEnvelope>, mks: map<int, Bytes>, password: string, now: string,
                   rest: seq<KeyEnvelope>, k: KeyEnvelope)
    requires k.id in mks && (forall id <- mks :: id <= k.id) && WrappedFrom(g, before, mks, password, now, k)
    requires Rewrapped(g, before, mks - {k.id}, password, now, rest)
    ensures Rewrapped(g, before, mks, password, now, rest + [k])
  {
    AppendIncreasing(rest, k);
    forall q | q in rest + [k]
      ensures WrappedFrom(g, before, mks, password, now, q)
    {
      if q in rest {
        InIds(rest, q);
      }
    }
  }

  lemma InIds(keys: seq<KeyEnvelope>, k: KeyEnvelope)
    requires k in keys
    ensures k.id in Ids(keys)
  {
    var i :| 0 <= i < |keys| && keys[i] == k;
  }

  /** A rotation with the master password happens while Go's int has room for another id. */
  lemma CanRotate(g: Cipher, s: Sys, newPass: string, freshKey: Option<Bytes>, now: string) returns (t: Sys)
    requires DiskOk(g, s) && FileOf(s.disk).current < MAX_INT
    requires freshKey.Some? ==> |freshKey.value| == MASTER_KEY_LEN
    ensures RotateStep(g, s, s.pass, newPass, freshKey, now, t) && KeysRotated(g, s, newPass, freshKey, t)
  {
    Loads(g, s, now);
    var f := LoadAndUnwrap(g, s.disk, s.pass, now).value;
    RotationLengths(g, f, s.pass, freshKey);
    var (mks, current) := Rotation(f, EnvKeys(g, s), freshKey);
    var keys := CanRewrap(g, f.keys, mks, newPass, now);
    IsRotated(g, f, s.pass, newPass, freshKey, now, EnvFile(keys, current));
    t := s.(disk := Multi(EnvFile(keys, current)), pass := newPass,
            known := if freshKey.Some? then s.known[NextId(f) := freshKey.value] else s.known);
    RotatedKeys(g, s, f, newPass, freshKey, now, t);
  }

  /** So does the confirmed finalization of any key on disk but the current one. */
  lemma CanRetire(g: Cipher, s: Sys, id: int, now: string) returns (t: Sys)
    requires DiskOk(g, s) && id in EnvKeys(g, s) && id != FileOf(s.disk).current
    ensures RetireStep(g, s, s.pass, id, true, now, t) && t != s
  {
    Loads(g, s, now);
    var f := LoadAndUnwrap(g, s.disk, s.pass, now).value;
    FindIn(f.keys, id);
    WithoutOpens(g, f.keys, id, s.pass);
    var keys := CanRewrap(g, Without(f.keys, id), EnvKeys(g, s) - {id}, s.pass, now);
    t := s.(disk := Multi(EnvFile(keys, f.current)));
    FinalizationMeaning(g, f, s.pass, id, now, t.disk);
  }

  function BoundEntry(g: Cipher, env: map<int, Bytes>, current: int, name: string, e: SecretEntry): SecretEntry
    requires M.Sized(env) && current in env
  {
    var r := M.MigrateEntry(g, env, current, ZeroIv(), name, e);
    if r.Ok? then r.value else e
  }

  function BoundVault(g: Cipher, env: map<int, Bytes>, current: int, v: Secrets): Secrets
    requires M.Sized(env) && current in env
  {
    map n | n in v :: BoundEntry(g, env, current, n, v[n])
  }

  lemma EntryBinds(g: Cipher, env: map<int, Bytes>, current: int, name: string, e: SecretEntry)
    requires M.Sized(env) && current in env && S.ValidId(current) && M.Meaning(g, env, name, e.value).Some?
    ensures M.EntryBound(g, env, current, name, e, BoundEntry(g, env, current, name, e))
  {
    M.EntryMeaning(g, env, current, ZeroIv(), name, e);
    M.SealedBinds(g, env, current, name, e, BoundEntry(g, env, current, name, e));
  }

  lemma VaultBinds(g: Cipher, env: map<int, Bytes>, current: int, v: Secrets)
    requires M.Sized(env) && current in env && S.ValidId(current) && M.AllMeaningful(g, env, v)
    ensures M.Bound(g, env, current, v, BoundVault(g, env, current, v))
  {
    forall n | n in v
      ensures M.EntryBound(g, env, current, n, v[n], BoundVault(g, env, current, v)[n])
    {
      EntryBinds(g, env, current, n, v[n]);
    }
  }

  /** A vault whose entries all mean something is bound. */
  lemma CanBind(g: Cipher, s: Sys, alice: string) returns (t: Sys)
    requires Inv(g, s, OneVault(alice, false))
    ensures BindStep(g, s, s.pass, alice, t)
  {
    Loads(g, s, "");
    AllMean(g, s, alice);
    var env, current, v := EnvKeys(g, s), FileOf(s.disk).current, VaultOf(s, alice);
    VaultBinds(g, env, current, v);
    t := s.(vaults := s.vaults[alice := BoundVault(g, env, current, v)]);
    IsBindStep(g, s, alice, BoundVault(g, env, current, v));
  }

  lemma IsBindStep(g: Cipher, s: Sys, alice: string, w: Secrets)
    requires DiskOk(g, s) && LoadAndUnwrap(g, s.disk, s.pass, "") == Ok(FileOf(s.disk))
    requires M.Bound(g, EnvKeys(g, s), FileOf(s.disk).current, VaultOf(s, alice), w)
    ensures BindStep(g, s, s.pass, alice, s.(vaults := s.vaults[alice := w]))
  {
    var t := s.(vaults := s.vaults[alice := w]);
    assert VaultOf(t, alice) == w;
    MeansSomething(g, EnvKeys(g, s), FileOf(s.disk).current, VaultOf(s, alice), w);
  }

  lemma MeansSomething(g: Cipher, env: map<int, Bytes>, current: int, v: Secrets, w: Secrets)
    requires M.Bound(g, env, current, v, w)
    ensures M.AllMeaningful(g, env, v)
  {
    assert forall n :: n in v ==> M.EntryBound(g, env, current, n, v[n], w[n]);
  }
}
