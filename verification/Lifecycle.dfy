/** The life of the master keys across Bob's disk, Bob's daemon and every alice's vault, as a state
    machine whose steps are whole commands (cmd/bob/rotate.go, cmd/bob/main.go, cmd/alice). */
module Lifecycle {
  import opened Wrappers
  import opened Hex
  import opened Gcm
  import opened Versions
  import opened Envelope
  import opened Rotate
  import opened RotateProps
  import opened LocalVault
  import M = Migrate
  import S = KeystoreSpec
  import Server

  /** `known` is every key there ever was, by id, and `intended` the plaintext last set under each
      name; both are bookkeeping that no command reads. */
  datatype Sys = Sys(
    disk: Disk, pass: string, daemon: S.Held, vaults: map<string, Secrets>,
    known: map<int, Bytes>, intended: map<string, map<string, Bytes>>)

  datatype Event =
    | RotateKey(typed: string, freshKey: Bytes, now: string)
    | ChangePassword(typed: string, newPass: string, optKey: Option<Bytes>, now: string)
    | Retire(typed: string, id: int, confirmed: bool, now: string)
    | Restart(typed: string)
    | Lock
    | Set(alice: string, name: string, pt: Bytes, iv: Nonce, entry: SecretEntry, allowed: bool)
    | Remove(alice: string, name: string)
    | Read(alice: string, names: seq<string>, ivs: seq<Nonce>, allowed: bool)
    | Bind(typed: string, alice: string)

  function VaultOf(s: Sys, alice: string): Secrets {
    if alice in s.vaults then s.vaults[alice] else map[]
  }

  function IntendedOf(s: Sys, alice: string): map<string, Bytes> {
    if alice in s.intended then s.intended[alice] else map[]
  }

  /** A wrong password does not happen to open the current key. Steps where it does, by a collision
      of 16-byte tags, are outside the model. */
  predicate NoForgery(g: Cipher, s: Sys, typed: string) {
    typed == s.pass || LoadAndUnwrap(g, s.disk, typed, "").Err?
  }

  /** rotate-master-key and rotate-master-password; any failure leaves everything as it was. */
  ghost predicate RotateStep(g: Cipher, s: Sys, typed: string, newPass: string, freshKey: Option<Bytes>, now: string,
                             t: Sys)
  {
    && NoForgery(g, s, typed)
    && (freshKey.Some? ==> |freshKey.value| == MASTER_KEY_LEN)
    && var l := LoadAndUnwrap(g, s.disk, typed, now);
       if l.Ok? && UnwrapAll(g, l.value.keys, typed).Ok? then
         && NextId(l.value) <= MAX_INT
         && Rotated(g, l.value, typed, newPass, freshKey, now, t.disk)
         && t == s.(disk := t.disk, pass := newPass,
                    known := if freshKey.Some? then s.known[NextId(l.value) := freshKey.value] else s.known)
       else t == s
  }

  ghost predicate RetireStep(g: Cipher, s: Sys, typed: string, id: int, confirmed: bool, now: string, t: Sys) {
    && NoForgery(g, s, typed)
    && var l := LoadAndUnwrap(g, s.disk, typed, now);
       if l.Ok? && confirmed && Find(l.value.keys, id).Some? && id != l.value.current
          && UnwrapAll(g, Without(l.value.keys, id), typed).Ok?
       then Finalized(g, l.value, typed, id, now, t.disk) && t == s.(disk := t.disk)
       else t == s
  }

  /** A stopped and started daemon holds what is on disk; one that does not come up holds nothing. */
  function Served(g: Cipher, d: Disk, typed: string): S.Held {
    match Load(d, "")
    case Err(_) => S.LOCKED
    case Ok(f) =>
      match UnwrapAll(g, f.keys, typed)
      case Err(_) => S.LOCKED
      case Ok(mks) => if f.current in mks then S.Held(mks, f.current) else S.LOCKED
  }

  /** The state with one vault, and what is intended for it, replaced. */
  function WithVault(s: Sys, alice: string, v: Secrets, intended: map<string, Bytes>): Sys {
    s.(vaults := s.vaults[alice := v], intended := s.intended[alice := intended])
  }

  function AfterSet(g: Cipher, s: Sys, e: Event): Sys
    requires e.Set?
  {
    match S.Encrypt(g, s.daemon, e.iv, e.name, e.pt)
    case Err(_) => s
    case Ok(packed) =>
      if !e.allowed then s
      else
        var entry := e.entry.(value := packed, keyEpoch := S.VersionOf(packed));
        WithVault(s, e.alice, VaultOf(s, e.alice)[e.name := entry], IntendedOf(s, e.alice)[e.name := e.pt])
  }

  function AfterRead(g: Cipher, s: Sys, alice: string, names: seq<string>, ivs: seq<Nonce>): Sys
    requires |ivs| == |names| && forall i :: 0 <= i < |names| ==> names[i] in VaultOf(s, alice)
  {
    match Server.Migrated(g, s.daemon, ivs, names, VaultOf(s, alice))
    case None => s
    case Some(v) => s.(vaults := s.vaults[alice := v])
  }

  /** migrate-aad on one vault: it is bound to the entries' names as a whole or left as it was. */
  ghost predicate BindStep(g: Cipher, s: Sys, typed: string, alice: string, t: Sys) {
    && NoForgery(g, s, typed)
    && var l := LoadAndUnwrap(g, s.disk, typed, "");
       if l.Ok? && UnwrapAll(g, l.value.keys, typed).Ok?
          && (forall n :: n in VaultOf(s, alice) ==>
                M.Meaning(g, UnwrapAll(g, l.value.keys, typed).value, n, VaultOf(s, alice)[n].value).Some?)
       then
         && M.Bound(g, UnwrapAll(g, l.value.keys, typed).value, l.value.current, VaultOf(s, alice), VaultOf(t, alice))
         && t == s.(vaults := s.vaults[alice := VaultOf(t, alice)])
       else t == s
  }

  /** One whole command or daemon event. A read of all names is a rekey. */
  ghost predicate Step(g: Cipher, s: Sys, e: Event, t: Sys) {
    match e
    case RotateKey(typed, key, now) => RotateStep(g, s, typed, typed, Some(key), now, t)
    case ChangePassword(typed, newPass, key, now) =>
      if newPass == typed then t == s else RotateStep(g, s, typed, newPass, key, now, t)
    case Retire(typed, id, confirmed, now) => RetireStep(g, s, typed, id, confirmed, now, t)
    case Restart(typed) => NoForgery(g, s, typed) && t == s.(daemon := Served(g, s.disk, typed))
    case Lock => t == s.(daemon := S.LOCKED)
    case Set(_, _, _, _, _, _) => t == AfterSet(g, s, e)
    case Remove(alice, name) =>
      t == WithVault(s, alice, VaultOf(s, alice) - {name}, IntendedOf(s, alice) - {name})
    case Read(alice, names, ivs, allowed) =>
      && |ivs| == |names| && NoRepeats(names)
      && (forall i :: 0 <= i < |names| ==> names[i] in VaultOf(s, alice))
      && t == if allowed then AfterRead(g, s, alice, names, ivs) else s
    case Bind(typed, alice) => BindStep(g, s, typed, alice, t)
  }

  // ---------- the invariant ----------

  /** The envelope file as it loads; a single-key file loads as one key with id 1. */
  function FileOf(d: Disk): EnvFile {
    match Load(d, "")
    case Ok(f) => f
    case Err(_) => EnvFile([], 0)
  }

  /** The keys on disk under the master password. */
  function EnvKeys(g: Cipher, s: Sys): map<int, Bytes> {
    match UnwrapAll(g, FileOf(s.disk).keys, s.pass)
    case Ok(keys) => keys
    case Err(_) => map[]
  }

  predicate Agree(a: map<int, Bytes>, b: map<int, Bytes>) {
    forall id :: id in a && id in b ==> a[id] == b[id]
  }

  predicate PartOf(a: map<int, Bytes>, b: map<int, Bytes>) {
    forall id :: id in a ==> id in b && a[id] == b[id]
  }

  /** The envelope opens under the master password, by increasing positive ids, and its current id is
      the greatest there ever was. */
  predicate DiskOk(g: Cipher, s: Sys) {
    && Load(s.disk, "").Ok?
    && IncreasingIds(FileOf(s.disk).keys)
    && UnwrapAll(g, FileOf(s.disk).keys, s.pass).Ok?
    && FileOf(s.disk).current in EnvKeys(g, s)
    && S.ValidKeys(EnvKeys(g, s))
    && PartOf(EnvKeys(g, s), s.known)
    && (forall id :: id in s.known ==> id <= FileOf(s.disk).current)
  }

  /** Every key anywhere is a known one, and an unlocked daemon seals under a key that is on disk. */
  predicate KeysOk(g: Cipher, s: Sys) {
    && DiskOk(g, s)
    && S.ValidHeld(s.daemon)
    && PartOf(s.daemon.keys, s.known)
    && (s.daemon.current != 0 ==> s.daemon.current in EnvKeys(g, s))
  }

  /** An entry means the plaintext last set: it reads under its name from the keys on disk or, unless
      it must be bound, as a legacy text without a name. An unlocked daemon holds its version too. */
  predicate EntryOk(g: Cipher, env: map<int, Bytes>, daemon: S.Held, bound: bool, name: string, packed: string,
                    pt: Bytes)
  {
    && M.Meaning(g, env, name, packed) == Some(pt)
    && (bound ==> S.Reads(g, env, name, packed).Some?)
    && (daemon.current != 0 ==> S.VersionOf(packed) in daemon.keys)
  }

  predicate VaultOk(g: Cipher, env: map<int, Bytes>, daemon: S.Held, bound: bool, v: Secrets,
                    intended: map<string, Bytes>)
  {
    && v.Keys == intended.Keys
    && forall n :: n in v ==> EntryOk(g, env, daemon, bound, n, v[n].value, intended[n])
  }

  /** Which vaults a statement is about, all or one, and whether their entries are bound to their names. */
  datatype Scope = Scope(one: Option<string>, bound: bool)

  const ALL_BOUND := Scope(None, true)

  predicate In(scope: Scope, alice: string) {
    scope.one.None? || scope.one.value == alice
  }

  /** The invariant, for the vaults in scope. */
  ghost predicate Inv(g: Cipher, s: Sys, scope: Scope) {
    && KeysOk(g, s)
    && forall a :: In(scope, a) ==> VaultOk(g, EnvKeys(g, s), s.daemon, scope.bound, VaultOf(s, a), IntendedOf(s, a))
  }

  /** Whether the daemon, if it runs unlocked, holds the current key on disk. */
  predicate UpToDate(s: Sys) {
    s.daemon.current == 0 || FileOf(s.disk).current in s.daemon.keys
  }

  predicate AllBound(g: Cipher, s: Sys, alice: string) {
    forall n :: n in VaultOf(s, alice) ==> S.Reads(g, EnvKeys(g, s), n, VaultOf(s, alice)[n].value).Some?
  }

  /** The order a finalization must respect: no entry is on the key and the daemon does not seal
      under it. Legacy entries may be bound once the daemon holds the current key, or while it is
      down, since they move to that key. Every other step is safe. */
  ghost predicate Safe(g: Cipher, s: Sys, e: Event, scope: Scope) {
    && (e.Retire? ==>
          && s.daemon.current != e.id
          && forall a, n :: In(scope, a) && n in VaultOf(s, a) ==> S.VersionOf(VaultOf(s, a)[n].value) != e.id)
    && (e.Bind? && In(scope, e.alice) ==> UpToDate(s) || AllBound(g, s, e.alice))
  }

  // ---------- each step keeps it ----------

  lemma ReadsVersion(g: Cipher, keys: map<int, Bytes>, name: string, packed: string)
    ensures S.Reads(g, keys, name, packed).Some? ==> S.VersionOf(packed) in keys
  {}

  lemma ReadsAgree(g: Cipher, a: map<int, Bytes>, b: map<int, Bytes>, name: string, packed: string)
    requires var v := S.VersionOf(packed); v in a && v in b && a[v] == b[v]
    ensures S.Reads(g, a, name, packed) == S.Reads(g, b, name, packed)
  {}

  lemma MeaningVersion(g: Cipher, keys: map<int, Bytes>, name: string, packed: string)
    ensures M.Meaning(g, keys, name, packed).Some? ==> S.VersionOf(packed) in keys
  {
    ReadsVersion(g, keys, name, packed);
    ReadsVersion(g, keys, "", packed);
  }

  lemma MeaningAgree(g: Cipher, a: map<int, Bytes>, b: map<int, Bytes>, name: string, packed: string)
    requires var v := S.VersionOf(packed); v in a && v in b && a[v] == b[v]
    ensures M.Meaning(g, a, name, packed) == M.Meaning(g, b, name, packed)
  {
    ReadsAgree(g, a, b, name, packed);
    ReadsAgree(g, a, b, "", packed);
  }

  /** More keys read what fewer keys read. */
  lemma VaultKept(g: Cipher, env: map<int, Bytes>, env': map<int, Bytes>, daemon: S.Held, bound: bool, v: Secrets,
                  intended: map<string, Bytes>)
    requires VaultOk(g, env, daemon, bound, v, intended)
    requires forall n :: n in v ==> S.VersionOf(v[n].value) in env' || S.VersionOf(v[n].value) !in env
    requires Agree(env, env')
    ensures VaultOk(g, env', daemon, bound, v, intended)
  {
    forall n | n in v
      ensures EntryOk(g, env', daemon, bound, n, v[n].value, intended[n])
    {
      assert EntryOk(g, env, daemon, bound, n, v[n].value, intended[n]);
      MeaningVersion(g, env, n, v[n].value);
      MeaningAgree(g, env, env', n, v[n].value);
      ReadsAgree(g, env, env', n, v[n].value);
    }
  }

  lemma WrongPassword(g: Cipher, s: Sys, typed: string, now: string)
    requires DiskOk(g, s) && typed != s.pass && NoForgery(g, s, typed)
    ensures LoadAndUnwrap(g, s.disk, typed, now).Err?
    ensures Served(g, s.disk, typed) == S.LOCKED
  {
    UnwrapAllShape(g, FileOf(s.disk).keys, s.pass);
    if UnwrapAll(g, FileOf(s.disk).keys, typed).Ok? {
      OpensCurrent(g, s.disk, typed);
    }
    SameLoad(g, s.disk, typed, now);
  }

  /** A password that opens every key opens the current one. */
  lemma OpensCurrent(g: Cipher, d: Disk, password: string)
    requires Load(d, "").Ok? && DistinctIds(FileOf(d).keys) && FileOf(d).current in Ids(FileOf(d).keys)
    requires UnwrapAll(g, FileOf(d).keys, password).Ok?
    ensures LoadAndUnwrap(g, d, password, "").Ok?
  {
    FindIn(FileOf(d).keys, FileOf(d).current);
    UnwrapAllEach(g, FileOf(d).keys, password);
  }

  /** The time of loading does not matter for what opens: it only stamps a single-key file. */
  lemma SameLoad(g: Cipher, d: Disk, password: string, now: string)
    requires Load(d, "").Ok?
    ensures Load(d, now).Ok? && Load(d, now).value.current == FileOf(d).current
    ensures Ids(Load(d, now).value.keys) == Ids(FileOf(d).keys)
    ensures IncreasingIds(FileOf(d).keys) ==> IncreasingIds(Load(d, now).value.keys)
    ensures UnwrapAll(g, Load(d, now).value.keys, password) == UnwrapAll(g, FileOf(d).keys, password)
    ensures LoadAndUnwrap(g, d, password, now).Ok? == LoadAndUnwrap(g, d, password, "").Ok?
    ensures LoadAndUnwrap(g, d, password, now).Ok? ==> LoadAndUnwrap(g, d, password, now).value == Load(d, now).value
  {
    if d.Legacy? {
      OneKey(g, Load(d, now).value.keys, password);
      OneKey(g, FileOf(d).keys, password);
    }
  }

  lemma OneKey(g: Cipher, keys: seq<KeyEnvelope>, password: string)
    requires |keys| == 1
    ensures Ids(keys) == {keys[0].id}
    ensures UnwrapAll(g, keys, password) == match Unwrap(g, keys[0], password)
                                            case Ok(key) => Ok(map[keys[0].id := key])
                                            case Err(e) => Err(e)
  {
    assert keys[0].id in Ids(keys);
    assert keys[..0] == [];
    assert UnwrapAll(g, keys[..0], password) == Ok(map[]);
  }

  /** The file loads under the master password, as itself but for a stamp. */
  lemma Loads(g: Cipher, s: Sys, now: string)
    requires DiskOk(g, s)
    ensures var f, l := FileOf(s.disk), LoadAndUnwrap(g, s.disk, s.pass, now);
            && l.Ok? && l.value.current == f.current && Ids(l.value.keys) == Ids(f.keys) && IncreasingIds(l.value.keys)
            && UnwrapAll(g, l.value.keys, s.pass) == UnwrapAll(g, f.keys, s.pass)
            && (s.disk.Multi? || now == "" ==> l.value == f)
            && f.keys != [] && Ids(f.keys) == EnvKeys(g, s).Keys && f.current != 0
            && NextId(l.value) == f.current + 1
  {
    var f := FileOf(s.disk);
    UnwrapAllShape(g, f.keys, s.pass);
    LoadsItself(g, f, s.pass, now);
    SameLoad(g, s.disk, s.pass, now);
    assert S.ValidId(f.current);
    MaxIs(f.keys, f.current);
    MaxIs(Load(s.disk, now).value.keys, f.current);
    OpensCurrent(g, s.disk, s.pass);
  }

  lemma MaxIs(keys: seq<KeyEnvelope>, current: int)
    requires current in Ids(keys) && current > 0 && forall id :: id in Ids(keys) ==> id <= current
    ensures MaxId(keys, 0) == current
  {}

  /** What a rotation that happened left of the keys: every one, and at most one more above all others. */
  ghost predicate KeysRotated(g: Cipher, s: Sys, newPass: string, freshKey: Option<Bytes>, t: Sys) {
    && t == s.(disk := t.disk, pass := newPass, known := t.known)
    && Load(t.disk, "").Ok? && IncreasingIds(FileOf(t.disk).keys)
    && UnwrapAll(g, FileOf(t.disk).keys, newPass).Ok?
    && (freshKey.None? ==>
          EnvKeys(g, t) == EnvKeys(g, s) && t.known == s.known && FileOf(t.disk).current == FileOf(s.disk).current)
    && (freshKey.Some? ==>
          && FileOf(t.disk).current == FileOf(s.disk).current + 1 <= MAX_INT
          && EnvKeys(g, t) == EnvKeys(g, s)[FileOf(t.disk).current := freshKey.value]
          && t.known == s.known[FileOf(t.disk).current := freshKey.value])
  }

  /** A file that was written with a current id loads as it was written. */
  lemma WrittenLoads(d: Disk)
    requires d.Multi? && d.file.keys != [] && d.file.current != 0
    ensures Load(d, "") == Ok(d.file) && FileOf(d) == d.file
  {}

  lemma RotatedKeys(g: Cipher, s: Sys, f: EnvFile, newPass: string, freshKey: Option<Bytes>, now: string, t: Sys)
    requires DiskOk(g, s) && f.current == FileOf(s.disk).current && DistinctIds(f.keys) && f.current in Ids(f.keys)
    requires f.current != 0 && NextId(f) == f.current + 1
    requires UnwrapAll(g, f.keys, s.pass) == Ok(EnvKeys(g, s)) && NextId(f) <= MAX_INT
    requires Rotated(g, f, s.pass, newPass, freshKey, now, t.disk)
    requires t == s.(disk := t.disk, pass := newPass,
                     known := if freshKey.Some? then s.known[NextId(f) := freshKey.value] else s.known)
    ensures KeysRotated(g, s, newPass, freshKey, t)
  {
    RotationMeaning(g, f, s.pass, newPass, freshKey, now, t.disk);
    WrittenLoads(t.disk);
  }

  /** A rotation that happens keeps every key and adds at most one, above all others. */
  lemma RotateKeys(g: Cipher, s: Sys, typed: string, newPass: string, freshKey: Option<Bytes>, now: string, t: Sys)
    requires DiskOk(g, s) && RotateStep(g, s, typed, newPass, freshKey, now, t)
    ensures t == s || (typed == s.pass && KeysRotated(g, s, newPass, freshKey, t))
  {
    Loads(g, s, now);
    if typed != s.pass {
      WrongPassword(g, s, typed, now);
    } else {
      RotatedKeys(g, s, LoadAndUnwrap(g, s.disk, typed, now).value, newPass, freshKey, now, t);
    }
  }

  lemma RotateKeeps(g: Cipher, s: Sys, typed: string, newPass: string, freshKey: Option<Bytes>, now: string, t: Sys,
                    scope: Scope)
    requires Inv(g, s, scope) && RotateStep(g, s, typed, newPass, freshKey, now, t)
    ensures Inv(g, t, scope)
  {
    RotateKeys(g, s, typed, newPass, freshKey, now, t);
    if t != s {
      RotatedOk(g, s, newPass, freshKey, t);
      VaultsKept(g, s, t, scope);
    }
  }

  lemma RotatedOk(g: Cipher, s: Sys, newPass: string, freshKey: Option<Bytes>, t: Sys)
    requires KeysOk(g, s) && KeysRotated(g, s, newPass, freshKey, t)
    requires freshKey.Some? ==> |freshKey.value| == MASTER_KEY_LEN
    ensures KeysOk(g, t) && PartOf(EnvKeys(g, s), EnvKeys(g, t))
    ensures t == s.(disk := t.disk, pass := t.pass, known := t.known)
  {}

  /** Only the keys on disk change, and none that an entry needs is taken away. */
  lemma VaultsKept(g: Cipher, s: Sys, t: Sys, scope: Scope)
    requires Inv(g, s, scope) && KeysOk(g, t) && t == s.(disk := t.disk, pass := t.pass, known := t.known)
    requires Agree(EnvKeys(g, s), EnvKeys(g, t))
    requires forall a, n :: In(scope, a) && n in VaultOf(s, a) ==>
               var id := S.VersionOf(VaultOf(s, a)[n].value); id in EnvKeys(g, t) || id !in EnvKeys(g, s)
    ensures Inv(g, t, scope)
  {
    forall a | In(scope, a)
      ensures VaultOk(g, EnvKeys(g, t), t.daemon, scope.bound, VaultOf(t, a), IntendedOf(t, a))
    {
      VaultKept(g, EnvKeys(g, s), EnvKeys(g, t), s.daemon, scope.bound, VaultOf(s, a), IntendedOf(s, a));
    }
  }

  /** A finalization that happens keeps every key but the one it retires. */
  lemma RetireKeys(g: Cipher, s: Sys, typed: string, id: int, confirmed: bool, now: string, t: Sys)
    requires DiskOk(g, s) && RetireStep(g, s, typed, id, confirmed, now, t)
    ensures t == s || (
      && typed == s.pass && id in EnvKeys(g, s) && id != FileOf(s.disk).current
      && t == s.(disk := t.disk)
      && Load(t.disk, "").Ok? && IncreasingIds(FileOf(t.disk).keys) && FileOf(t.disk).current == FileOf(s.disk).current
      && UnwrapAll(g, FileOf(t.disk).keys, t.pass) == Ok(EnvKeys(g, s) - {id}))
  {
    Loads(g, s, now);
    if typed != s.pass {
      WrongPassword(g, s, typed, now);
    } else if t != s {
      var f := LoadAndUnwrap(g, s.disk, typed, now).value;
      FindIn(f.keys, id);
      FinalizationMeaning(g, f, typed, id, now, t.disk);
      WrittenLoads(t.disk);
    }
  }

  /** The disk is in order after a finalization, whether or not an entry needed the key. */
  lemma RetireDisk(g: Cipher, s: Sys, typed: string, id: int, confirmed: bool, now: string, t: Sys)
    requires DiskOk(g, s) && RetireStep(g, s, typed, id, confirmed, now, t)
    ensures DiskOk(g, t)
  {
    RetireKeys(g, s, typed, id, confirmed, now, t);
  }

  lemma RetireKeeps(g: Cipher, s: Sys, typed: string, id: int, confirmed: bool, now: string, t: Sys, scope: Scope)
    requires Inv(g, s, scope) && RetireStep(g, s, typed, id, confirmed, now, t)
    requires Safe(g, s, Retire(typed, id, confirmed, now), scope)
    ensures Inv(g, t, scope)
  {
    RetireKeys(g, s, typed, id, confirmed, now, t);
    if t != s {
      RetireDisk(g, s, typed, id, confirmed, now, t);
      VaultsKept(g, s, t, scope);
    }
  }

  /** After a start with the master password the daemon holds exactly the keys on disk. */
  lemma ServedHolds(g: Cipher, s: Sys)
    requires DiskOk(g, s)
    ensures Served(g, s.disk, s.pass) == S.Held(EnvKeys(g, s), FileOf(s.disk).current)
    ensures S.ValidHeld(Served(g, s.disk, s.pass))
  {
    Loads(g, s, "");
  }

  lemma DaemonKeeps(g: Cipher, s: Sys, t: Sys, scope: Scope)
    requires Inv(g, s, scope)
    requires t == s.(daemon := S.LOCKED) || t == s.(daemon := Served(g, s.disk, s.pass))
    ensures Inv(g, t, scope)
  {
    ServedHolds(g, s);
    forall a | In(scope, a)
      ensures VaultOk(g, EnvKeys(g, t), t.daemon, scope.bound, VaultOf(t, a), IntendedOf(t, a))
    {
      var v := VaultOf(s, a);
      forall n | n in v
        ensures EntryOk(g, EnvKeys(g, t), t.daemon, scope.bound, n, v[n].value, IntendedOf(s, a)[n])
      {
        assert EntryOk(g, EnvKeys(g, s), s.daemon, scope.bound, n, v[n].value, IntendedOf(s, a)[n]);
        MeaningVersion(g, EnvKeys(g, s), n, v[n].value);
      }
    }
  }

  lemma WithVaultIs(s: Sys, alice: string, v: Secrets, intended: map<string, Bytes>, a: string)
    ensures var t := WithVault(s, alice, v, intended);
            && VaultOf(t, a) == (if a == alice then v else VaultOf(s, a))
            && IntendedOf(t, a) == (if a == alice then intended else IntendedOf(s, a))
  {}

  /** A step that changes no more than one vault and what is intended for it. */
  ghost predicate OnlyVault(s: Sys, t: Sys, alice: string) {
    && t == s.(vaults := t.vaults, intended := t.intended)
    && forall a :: a != alice ==> VaultOf(t, a) == VaultOf(s, a) && IntendedOf(t, a) == IntendedOf(s, a)
  }

  lemma WithVaultOnly(s: Sys, alice: string, v: Secrets, intended: map<string, Bytes>)
    ensures var t := WithVault(s, alice, v, intended);
            OnlyVault(s, t, alice) && VaultOf(t, alice) == v && IntendedOf(t, alice) == intended
  {
    forall a
      ensures a != alice ==>
                var t := WithVault(s, alice, v, intended);
                VaultOf(t, a) == VaultOf(s, a) && IntendedOf(t, a) == IntendedOf(s, a)
    {
      WithVaultIs(s, alice, v, intended, a);
    }
  }

  lemma EntriesOnly(s: Sys, alice: string, v: Secrets)
    ensures var t := s.(vaults := s.vaults[alice := v]);
            OnlyVault(s, t, alice) && VaultOf(t, alice) == v && IntendedOf(t, alice) == IntendedOf(s, alice)
  {}

  /** Replacing a vault by one that is in order. */
  lemma OnlyVaultKeeps(g: Cipher, s: Sys, t: Sys, alice: string, scope: Scope)
    requires Inv(g, s, scope) && OnlyVault(s, t, alice)
    requires In(scope, alice) ==>
               VaultOk(g, EnvKeys(g, s), s.daemon, scope.bound, VaultOf(t, alice), IntendedOf(t, alice))
    ensures Inv(g, t, scope)
  {
    forall a | In(scope, a)
      ensures VaultOk(g, EnvKeys(g, t), t.daemon, scope.bound, VaultOf(t, a), IntendedOf(t, a))
    {
      assert a != alice ==> VaultOk(g, EnvKeys(g, s), s.daemon, scope.bound, VaultOf(s, a), IntendedOf(s, a));
    }
  }

  lemma EntriesKeep(g: Cipher, s: Sys, alice: string, v: Secrets, scope: Scope)
    requires Inv(g, s, scope)
    requires In(scope, alice) ==> VaultOk(g, EnvKeys(g, s), s.daemon, scope.bound, v, IntendedOf(s, alice))
    ensures Inv(g, s.(vaults := s.vaults[alice := v]), scope)
  {
    EntriesOnly(s, alice, v);
    OnlyVaultKeeps(g, s, s.(vaults := s.vaults[alice := v]), alice, scope);
  }

  lemma PutOk(g: Cipher, env: map<int, Bytes>, daemon: S.Held, bound: bool, v: Secrets, intended: map<string, Bytes>,
              name: string, entry: SecretEntry, pt: Bytes)
    requires VaultOk(g, env, daemon, bound, v, intended) && EntryOk(g, env, daemon, bound, name, entry.value, pt)
    ensures VaultOk(g, env, daemon, bound, v[name := entry], intended[name := pt])
  {}

  lemma DropOk(g: Cipher, env: map<int, Bytes>, daemon: S.Held, bound: bool, v: Secrets, intended: map<string, Bytes>,
               name: string)
    requires VaultOk(g, env, daemon, bound, v, intended)
    ensures VaultOk(g, env, daemon, bound, v - {name}, intended - {name})
  {}

  /** What a set command does, when the daemon is unlocked and the checks pass. */
  lemma SetIs(g: Cipher, s: Sys, e: Event) returns (entry: SecretEntry)
    requires KeysOk(g, s) && e.Set?
    ensures AfterSet(g, s, e) == s
         || AfterSet(g, s, e) == WithVault(s, e.alice, VaultOf(s, e.alice)[e.name := entry],
                                           IntendedOf(s, e.alice)[e.name := e.pt])
    ensures AfterSet(g, s, e) != s ==>
              EntryOk(g, EnvKeys(g, s), s.daemon, true, e.name, entry.value, e.pt)
              && S.VersionOf(entry.value) == s.daemon.current
  {
    var r := S.Encrypt(g, s.daemon, e.iv, e.name, e.pt);
    entry := e.entry;
    if r.Ok? {
      entry := e.entry.(value := r.value, keyEpoch := S.VersionOf(r.value));
      S.EncryptReads(g, s.daemon, e.iv, e.name, e.pt, EnvKeys(g, s));
    }
  }

  lemma SetKeeps(g: Cipher, s: Sys, e: Event, scope: Scope)
    requires Inv(g, s, scope) && e.Set?
    ensures Inv(g, AfterSet(g, s, e), scope)
  {
    var entry := SetIs(g, s, e);
    var t := AfterSet(g, s, e);
    if t != s {
      var v, i := VaultOf(s, e.alice), IntendedOf(s, e.alice);
      if In(scope, e.alice) {
        PutOk(g, EnvKeys(g, s), s.daemon, scope.bound, v, i, e.name, entry, e.pt);
      }
      WithVaultOnly(s, e.alice, v[e.name := entry], i[e.name := e.pt]);
      OnlyVaultKeeps(g, s, t, e.alice, scope);
    }
  }

  lemma RemoveKeeps(g: Cipher, s: Sys, alice: string, name: string, scope: Scope)
    requires Inv(g, s, scope)
    ensures Inv(g, WithVault(s, alice, VaultOf(s, alice) - {name}, IntendedOf(s, alice) - {name}), scope)
  {
    if In(scope, alice) {
      DropOk(g, EnvKeys(g, s), s.daemon, scope.bound, VaultOf(s, alice), IntendedOf(s, alice), name);
    }
    WithVaultOnly(s, alice, VaultOf(s, alice) - {name}, IntendedOf(s, alice) - {name});
    OnlyVaultKeeps(g, s, WithVault(s, alice, VaultOf(s, alice) - {name}, IntendedOf(s, alice) - {name}), alice, scope);
  }

  lemma ReadKeeps(g: Cipher, s: Sys, alice: string, names: seq<string>, ivs: seq<Nonce>, scope: Scope)
    requires Inv(g, s, scope)
    requires |ivs| == |names| && NoRepeats(names) && forall i :: 0 <= i < |names| ==> names[i] in VaultOf(s, alice)
    ensures Inv(g, AfterRead(g, s, alice, names, ivs), scope)
  {
    var v := VaultOf(s, alice);
    var r := Server.Migrated(g, s.daemon, ivs, names, v);
    ReadMeaning(g, s, alice, names, ivs);
    if r.Some? {
      if In(scope, alice) {
        ReadOk(g, s, scope.bound, v, IntendedOf(s, alice), names, r.value);
      }
      EntriesKeep(g, s, alice, r.value, scope);
    }
  }

  /** A vault stays in order when its entries are rewrapped. */
  lemma ReadOk(g: Cipher, s: Sys, bound: bool, v: Secrets, intended: map<string, Bytes>, names: seq<string>, w: Secrets)
    requires KeysOk(g, s) && VaultOk(g, EnvKeys(g, s), s.daemon, bound, v, intended) && w.Keys == v.Keys
    requires forall n <- names :: n in v && Server.EntryMigrated(g, s.daemon, EnvKeys(g, s), n, v[n], w[n])
    requires forall n :: n in v && n !in names ==> w[n] == v[n]
    ensures VaultOk(g, EnvKeys(g, s), s.daemon, bound, w, intended)
  {
    var env := EnvKeys(g, s);
    forall n | n in w
      ensures EntryOk(g, env, s.daemon, bound, n, w[n].value, intended[n])
    {
      assert EntryOk(g, env, s.daemon, bound, n, v[n].value, intended[n]);
      if n in names {
        MeaningVersion(g, env, n, v[n].value);
        ReadsAgree(g, env, s.daemon.keys, n, v[n].value);
      }
    }
  }

  /** Binding takes legacy entries to the current key on disk and leaves the others; all of them read
      under their names then. */
  lemma BindOk(g: Cipher, env: map<int, Bytes>, daemon: S.Held, bound: bool, current: int, v: Secrets,
               intended: map<string, Bytes>, w: Secrets)
    requires VaultOk(g, env, daemon, bound, v, intended) && M.Bound(g, env, current, v, w)
    requires daemon.current == 0 || current in daemon.keys
             || forall n :: n in v ==> S.Reads(g, env, n, v[n].value).Some?
    ensures VaultOk(g, env, daemon, true, w, intended)
  {
    forall n | n in w
      ensures EntryOk(g, env, daemon, true, n, w[n].value, intended[n])
    {
      assert EntryOk(g, env, daemon, bound, n, v[n].value, intended[n]) && M.EntryBound(g, env, current, n, v[n], w[n]);
    }
  }

  lemma Weaker(g: Cipher, env: map<int, Bytes>, daemon: S.Held, bound: bool, v: Secrets, intended: map<string, Bytes>)
    requires VaultOk(g, env, daemon, true, v, intended)
    ensures VaultOk(g, env, daemon, bound, v, intended)
  {
    forall n | n in v
      ensures EntryOk(g, env, daemon, bound, n, v[n].value, intended[n])
    {
      assert EntryOk(g, env, daemon, true, n, v[n].value, intended[n]);
    }
  }

  lemma BindKeeps(g: Cipher, s: Sys, typed: string, alice: string, t: Sys, scope: Scope)
    requires Inv(g, s, scope) && BindStep(g, s, typed, alice, t) && Safe(g, s, Bind(typed, alice), scope)
    ensures Inv(g, t, scope)
  {
    Loads(g, s, "");
    if typed != s.pass {
      WrongPassword(g, s, typed, "");
    } else if t != s {
      var v, i, w := VaultOf(s, alice), IntendedOf(s, alice), VaultOf(t, alice);
      if In(scope, alice) {
        BindOk(g, EnvKeys(g, s), s.daemon, scope.bound, FileOf(s.disk).current, v, i, w);
        Weaker(g, EnvKeys(g, s), s.daemon, scope.bound, w, i);
      }
      EntriesKeep(g, s, alice, w, scope);
    }
  }

  function OneVault(alice: string, bound: bool): Scope {
    Scope(Some(alice), bound)
  }

  /** With the master password every entry of the vault reads under its own name afterwards. */
  lemma BindBinds(g: Cipher, s: Sys, alice: string, t: Sys)
    requires Inv(g, s, OneVault(alice, false)) && BindStep(g, s, s.pass, alice, t)
    requires Safe(g, s, Bind(s.pass, alice), OneVault(alice, false))
    ensures Inv(g, t, OneVault(alice, true))
  {
    BoundThen(g, s, alice, t);
    var env, v, i, w := EnvKeys(g, s), VaultOf(s, alice), IntendedOf(s, alice), VaultOf(t, alice);
    BindOk(g, env, s.daemon, false, FileOf(s.disk).current, v, i, w);
    OneVaultInv(g, t, alice, true);
  }

  lemma OneVaultInv(g: Cipher, s: Sys, alice: string, bound: bool)
    requires KeysOk(g, s) && VaultOk(g, EnvKeys(g, s), s.daemon, bound, VaultOf(s, alice), IntendedOf(s, alice))
    ensures Inv(g, s, OneVault(alice, bound))
  {}

  lemma AllMean(g: Cipher, s: Sys, alice: string)
    requires Inv(g, s, OneVault(alice, false))
    ensures forall n :: n in VaultOf(s, alice) ==> M.Meaning(g, EnvKeys(g, s), n, VaultOf(s, alice)[n].value).Some?
  {
    var v, i := VaultOf(s, alice), IntendedOf(s, alice);
    assert VaultOk(g, EnvKeys(g, s), s.daemon, false, v, i);
    forall n | n in v
      ensures M.Meaning(g, EnvKeys(g, s), n, v[n].value).Some?
    {
      assert EntryOk(g, EnvKeys(g, s), s.daemon, false, n, v[n].value, i[n]);
    }
  }

  /** With the master password a vault whose entries all mean something is bound. */
  lemma BoundThen(g: Cipher, s: Sys, alice: string, t: Sys)
    requires Inv(g, s, OneVault(alice, false)) && BindStep(g, s, s.pass, alice, t)
    ensures M.Bound(g, EnvKeys(g, s), FileOf(s.disk).current, VaultOf(s, alice), VaultOf(t, alice))
    ensures t == s.(vaults := s.vaults[alice := VaultOf(t, alice)])
  {
    Loads(g, s, "");
    AllMean(g, s, alice);
  }

  /** What a read does to the vault it reads, seen from the keys on disk. */
  lemma ReadMeaning(g: Cipher, s: Sys, alice: string, names: seq<string>, ivs: seq<Nonce>)
    requires KeysOk(g, s)
    requires |ivs| == |names| && NoRepeats(names) && forall i :: 0 <= i < |names| ==> names[i] in VaultOf(s, alice)
    ensures var r := Server.Migrated(g, s.daemon, ivs, names, VaultOf(s, alice));
            var v := VaultOf(s, alice);
            && (r.Some? <==>
                  forall i :: 0 <= i < |names| ==> S.Reads(g, s.daemon.keys, names[i], v[names[i]].value).Some?)
            && (r.Some? ==>
                  && r.value.Keys == v.Keys
                  && (forall n <- names ::
                        n in v && Server.EntryMigrated(g, s.daemon, EnvKeys(g, s), n, v[n], r.value[n]))
                  && (forall n :: n in v && n !in names ==> r.value[n] == v[n]))
  {
    var v, env, h := VaultOf(s, alice), EnvKeys(g, s), s.daemon;
    forall i | 0 <= i < |names| && S.VersionOf(v[names[i]].value) == h.current
      ensures S.Reads(g, env, names[i], v[names[i]].value) == S.Reads(g, h.keys, names[i], v[names[i]].value)
    {
      if h.current != 0 {
        ReadsAgree(g, env, h.keys, names[i], v[names[i]].value);
      } else {
        VersionNotZero(v[names[i]].value);
      }
    }
    Server.MigratedMeaning(g, h, env, ivs, names, v);
  }

  lemma VersionNotZero(packed: string)
    ensures S.VersionOf(packed) != 0
  {}

  lemma StepKeeps(g: Cipher, s: Sys, e: Event, t: Sys, scope: Scope)
    requires Inv(g, s, scope) && Step(g, s, e, t) && Safe(g, s, e, scope)
    ensures Inv(g, t, scope)
  {
    match e {
      case RotateKey(typed, key, now) => RotateKeeps(g, s, typed, typed, Some(key), now, t, scope);
      case ChangePassword(typed, newPass, key, now) =>
        if newPass != typed {
          RotateKeeps(g, s, typed, newPass, key, now, t, scope);
        }
      case Retire(typed, id, confirmed, now) => RetireKeeps(g, s, typed, id, confirmed, now, t, scope);
      case Restart(typed) =>
        if typed != s.pass {
          WrongPassword(g, s, typed, "");
        }
        DaemonKeeps(g, s, t, scope);
      case Lock => DaemonKeeps(g, s, t, scope);
      case Set(_, _, _, _, _, _) => SetKeeps(g, s, e, scope);
      case Remove(alice, name) => RemoveKeeps(g, s, alice, name, scope);
      case Read(alice, names, ivs, allowed) =>
        if allowed {
          ReadKeeps(g, s, alice, names, ivs, scope);
        }
      case Bind(typed, alice) => BindKeeps(g, s, typed, alice, t, scope);
    }
  }

  // ---------- whole runs ----------

  /** A run: each state follows from the one before by its event, in the safe order. */
  ghost predicate Run(g: Cipher, states: seq<Sys>, events: seq<Event>, scope: Scope) {
    && |states| == |events| + 1
    && forall i :: 0 <= i < |events| ==>
         Step(g, states[i], events[i], states[i + 1]) && Safe(g, states[i], events[i], scope)
  }

  /** One key with id 1 on disk, in a new envelope or in the single-key file of an older version, and
      no daemon. */
  ghost predicate OneKeyDisk(g: Cipher, s: Sys) {
    var f := FileOf(s.disk);
    && |f.keys| == 1 && f.keys[0].id == 1 && f.current == 1
    && Unwrap(g, f.keys[0], s.pass).Ok?
    && s.daemon == S.LOCKED
    && s.known == map[1 := Unwrap(g, f.keys[0], s.pass).value]
  }

  /** The state `bob init` leaves: no secrets yet. */
  ghost predicate Initial(g: Cipher, s: Sys) {
    OneKeyDisk(g, s) && s.vaults == map[] && s.intended == map[]
  }

  lemma OneKeyOk(g: Cipher, s: Sys)
    requires OneKeyDisk(g, s)
    ensures KeysOk(g, s) && EnvKeys(g, s) == s.known
  {
    OneKey(g, FileOf(s.disk).keys, s.pass);
  }

  lemma InitialInv(g: Cipher, s: Sys, scope: Scope)
    requires Initial(g, s)
    ensures Inv(g, s, scope)
  {
    OneKeyOk(g, s);
  }

  /** An installation from before entries were bound to names: every entry means what is intended. */
  ghost predicate Older(g: Cipher, s: Sys) {
    && OneKeyDisk(g, s)
    && forall a :: VaultOf(s, a).Keys == IntendedOf(s, a).Keys
                   && forall n :: n in VaultOf(s, a) ==>
                                    M.Meaning(g, s.known, n, VaultOf(s, a)[n].value) == Some(IntendedOf(s, a)[n])
  }

  lemma OlderInv(g: Cipher, s: Sys)
    requires Older(g, s)
    ensures Inv(g, s, Scope(None, false))
  {
    OneKeyOk(g, s);
    forall a
      ensures VaultOk(g, EnvKeys(g, s), s.daemon, false, VaultOf(s, a), IntendedOf(s, a))
    {}
  }

  lemma StepAt(g: Cipher, states: seq<Sys>, events: seq<Event>, scope: Scope, j: nat)
    requires Run(g, states, events, scope) && j < |events| && Inv(g, states[j], scope)
    ensures Inv(g, states[j + 1], scope)
  {
    StepKeeps(g, states[j], events[j], states[j + 1], scope);
  }

  lemma {:induction false} RunKeeps(g: Cipher, states: seq<Sys>, events: seq<Event>, scope: Scope, i: nat)
    requires Run(g, states, events, scope) && Inv(g, states[0], scope) && i < |states|
    ensures Inv(g, states[i], scope)
  {
    if i > 0 {
      RunKeeps(g, states, events, scope, i - 1);
      StepAt(g, states, events, scope, i - 1);
    }
  }

  lemma LaterRun(g: Cipher, states: seq<Sys>, events: seq<Event>, scope: Scope, k: nat)
    requires Run(g, states, events, scope) && k < |states|
    ensures Run(g, states[k..], events[k..], scope)
  {
    forall i | 0 <= i < |events[k..]|
      ensures Step(g, states[k..][i], events[k..][i], states[k..][i + 1])
              && Safe(g, states[k..][i], events[k..][i], scope)
    {
      assert states[k..][i] == states[k + i] && events[k..][i] == events[k + i]
             && states[k..][i + 1] == states[k + i + 1];
    }
  }

  lemma LaterKeeps(g: Cipher, states: seq<Sys>, events: seq<Event>, scope: Scope, k: nat, i: nat)
    requires Run(g, states, events, scope) && k <= i < |states| && Inv(g, states[k], scope)
    ensures Inv(g, states[i], scope)
  {
    LaterRun(g, states, events, scope, k);
    var later := states[k..];
    assert later[0] == states[k] && later[i - k] == states[i];
    RunKeeps(g, later, events[k..], scope, i - k);
  }

  /** A daemon started from the disk decrypts the entry to what is intended. */
  predicate DecryptsAfresh(g: Cipher, s: Sys, alice: string, name: string, iv: Nonce)
    requires name in VaultOf(s, alice)
  {
    var r := S.Decrypt(g, Served(g, s.disk, s.pass), iv, name, VaultOf(s, alice)[name].value);
    name in IntendedOf(s, alice) && r.Ok? && r.value.plaintext == IntendedOf(s, alice)[name]
  }

  /** So does the running daemon, unless it is locked. */
  predicate DecryptsNow(g: Cipher, s: Sys, alice: string, name: string, iv: Nonce)
    requires name in VaultOf(s, alice)
  {
    s.daemon.current != 0 ==>
      var r := S.Decrypt(g, s.daemon, iv, name, VaultOf(s, alice)[name].value);
      name in IntendedOf(s, alice) && r.Ok? && r.value.plaintext == IntendedOf(s, alice)[name]
  }

  /** Safety over every run: in every state reached from `bob init` by commands in any order and
      number, with finalizations in the safe order, every entry of every vault decrypts under its own
      name to the plaintext last set, both in an unlocked daemon and in one started afresh. */
  lemma EveryEntryDecrypts(g: Cipher, states: seq<Sys>, events: seq<Event>, i: nat, alice: string, name: string,
                           iv: Nonce)
    requires Run(g, states, events, ALL_BOUND) && Initial(g, states[0]) && i < |states|
    requires name in VaultOf(states[i], alice)
    ensures DecryptsNow(g, states[i], alice, name, iv) && DecryptsAfresh(g, states[i], alice, name, iv)
  {
    InitialInv(g, states[0], ALL_BOUND);
    RunKeeps(g, states, events, ALL_BOUND, i);
    EntryDecrypts(g, states[i], ALL_BOUND, alice, name, iv);
  }

  lemma EntryDecrypts(g: Cipher, s: Sys, scope: Scope, alice: string, name: string, iv: Nonce)
    requires Inv(g, s, scope) && scope.bound && In(scope, alice) && name in VaultOf(s, alice)
    ensures DecryptsNow(g, s, alice, name, iv) && DecryptsAfresh(g, s, alice, name, iv)
  {
    var packed, env := VaultOf(s, alice)[name].value, EnvKeys(g, s);
    assert EntryOk(g, env, s.daemon, true, name, packed, IntendedOf(s, alice)[name]);
    ServedHolds(g, s);
    S.DecryptMeaning(g, Served(g, s.disk, s.pass), iv, name, packed, env);
    if s.daemon.current != 0 {
      ReadsVersion(g, env, name, packed);
      ReadsAgree(g, env, s.daemon.keys, name, packed);
      S.DecryptMeaning(g, s.daemon, iv, name, packed, env);
    }
  }

  /** One step never changes what a known id denotes and only ever adds an id above all known ones. */
  lemma KnownGrows(g: Cipher, s: Sys, e: Event, t: Sys)
    requires KeysOk(g, s) && Step(g, s, e, t)
    ensures PartOf(s.known, t.known)
    ensures forall id :: id in t.known && id !in s.known ==>
              id == FileOf(s.disk).current + 1 && FileOf(t.disk).current == id
  {
    match e {
      case RotateKey(typed, key, now) => RotationGrows(g, s, typed, typed, Some(key), now, t);
      case ChangePassword(typed, newPass, key, now) =>
        if newPass != typed {
          RotationGrows(g, s, typed, newPass, key, now, t);
        }
      case _ => OthersLeaveKnown(g, s, e, t);
    }
  }

  lemma RotationGrows(g: Cipher, s: Sys, typed: string, newPass: string, freshKey: Option<Bytes>, now: string, t: Sys)
    requires KeysOk(g, s) && RotateStep(g, s, typed, newPass, freshKey, now, t)
    ensures PartOf(s.known, t.known)
    ensures forall id :: id in t.known && id !in s.known ==>
              id == FileOf(s.disk).current + 1 && FileOf(t.disk).current == id
  {
    RotateKeys(g, s, typed, newPass, freshKey, now, t);
  }

  lemma OthersLeaveKnown(g: Cipher, s: Sys, e: Event, t: Sys)
    requires Step(g, s, e, t) && !e.RotateKey? && !e.ChangePassword?
    ensures t.known == s.known
  {}

  lemma {:induction false} Chained(ks: seq<map<int, Bytes>>, i: nat, j: nat)
    requires i <= j < |ks| && forall k :: 0 <= k < |ks| - 1 ==> PartOf(ks[k], ks[k + 1])
    ensures PartOf(ks[i], ks[j])
    decreases j - i
  {
    if i < j {
      Chained(ks, i, j - 1);
      assert PartOf(ks[j - 1], ks[j - 1 + 1]);
    }
  }

  lemma GrewAt(g: Cipher, states: seq<Sys>, events: seq<Event>, scope: Scope, k: nat)
    requires Run(g, states, events, scope) && Inv(g, states[0], scope) && k < |events|
    ensures PartOf(states[k].known, states[k + 1].known)
  {
    RunKeeps(g, states, events, scope, k);
    KnownGrows(g, states[k], events[k], states[k + 1]);
  }

  lemma KnownKept(g: Cipher, states: seq<Sys>, events: seq<Event>, scope: Scope, i: nat, j: nat)
    requires Run(g, states, events, scope) && Inv(g, states[0], scope) && i <= j < |states|
    ensures PartOf(states[i].known, states[j].known)
  {
    var ks := seq(|states|, k requires 0 <= k < |states| => states[k].known);
    forall k | 0 <= k < |ks| - 1
      ensures PartOf(ks[k], ks[k + 1])
    {
      GrewAt(g, states, events, scope, k);
    }
    Chained(ks, i, j);
  }

  /** Key ids are never reused and never denote two keys: whatever id the disk or the daemon holds at
      two moments of a run, or the disk at one and the daemon at the other, it is the same key; and
      the current id of the envelope is the greatest in it. */
  lemma IdsNeverReused(g: Cipher, states: seq<Sys>, events: seq<Event>, scope: Scope, i: nat, j: nat)
    requires Run(g, states, events, scope) && Inv(g, states[0], scope) && i <= j < |states|
    ensures KeysOk(g, states[i]) && KeysOk(g, states[j])
    ensures PartOf(states[i].known, states[j].known)
    ensures Agree(EnvKeys(g, states[i]), EnvKeys(g, states[j])) && Agree(EnvKeys(g, states[i]), states[j].daemon.keys)
    ensures Agree(states[i].daemon.keys, EnvKeys(g, states[j])) && Agree(states[i].daemon.keys, states[j].daemon.keys)
    ensures forall id :: id in EnvKeys(g, states[j]) ==> id <= FileOf(states[j].disk).current
  {
    RunKeeps(g, states, events, scope, i);
    RunKeeps(g, states, events, scope, j);
    KnownKept(g, states, events, scope, i, j);
  }
}
