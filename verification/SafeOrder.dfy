/** The order that the life-cycle machine asks of finalizations and of binding legacy entries is
    exact: what it forbids loses entries (cmd/bob/rotate.go, cmd/bob/migrate.go, internal/keystore/keystore.go). */
module SafeOrder {
  import opened Wrappers
  import opened Gcm
  import opened LocalVault
  import opened Lifecycle
  import opened Progress
  import M = Migrate
  import S = KeystoreSpec

  // ---------- finalization ----------

  /** An entry on a retired key is lost: no daemon started from the disk decrypts it. */
  lemma EntryStranded(g: Cipher, s: Sys, alice: string, name: string, iv: Nonce)
    requires DiskOk(g, s) && name in VaultOf(s, alice)
    requires var v := S.VersionOf(VaultOf(s, alice)[name].value); v != -1 && v !in EnvKeys(g, s)
    ensures S.Decrypt(g, Served(g, s.disk, s.pass), iv, name, VaultOf(s, alice)[name].value) == Err(S.UnknownVersion)
  {
    ServedHolds(g, s);
  }

  /** After the set a daemon started from the disk does not know the entry's version. */
  predicate SetLost(g: Cipher, s: Sys, e: Event, iv: Nonce)
    requires e.Set?
  {
    var t := AfterSet(g, s, e);
    && e.name in VaultOf(t, e.alice)
    && S.Decrypt(g, Served(g, t.disk, t.pass), iv, e.name, VaultOf(t, e.alice)[e.name].value) == Err(S.UnknownVersion)
  }

  /** Setting an entry while the daemon seals under a key that is no longer on disk loses it at the
      next start. */
  lemma SetStranded(g: Cipher, s: Sys, e: Event, iv: Nonce)
    requires DiskOk(g, s) && S.ValidHeld(s.daemon) && s.daemon.current != 0 && s.daemon.current !in EnvKeys(g, s)
    requires e.Set? && e.allowed
    ensures SetLost(g, s, e, iv)
  {
    S.EncryptReads(g, s.daemon, e.iv, e.name, e.pt, s.daemon.keys);
    var t := AfterSet(g, s, e);
    var packed := S.Encrypt(g, s.daemon, e.iv, e.name, e.pt).value;
    var entry := e.entry.(value := packed, keyEpoch := S.VersionOf(packed));
    WithVaultIs(s, e.alice, VaultOf(s, e.alice)[e.name := entry], IntendedOf(s, e.alice)[e.name := e.pt], e.alice);
    assert t.disk == s.disk && t.pass == s.pass && EnvKeys(g, t) == EnvKeys(g, s) && DiskOk(g, t);
    EntryStranded(g, t, e.alice, e.name, iv);
  }

  /** Every entry in scope decrypts to what is intended, in a daemon started from the disk. */
  ghost predicate NothingLost(g: Cipher, s: Sys, scope: Scope) {
    forall a, n, iv :: In(scope, a) && n in VaultOf(s, a) ==> DecryptsAfresh(g, s, a, n, iv)
  }

  /** No run from the state, in the safe order, ever loses an entry. */
  ghost predicate NeverLoses(g: Cipher, s: Sys, scope: Scope) {
    forall states, events, i ::
      Run(g, states, events, scope) && states[0] == s && 0 <= i < |states| ==> NothingLost(g, states[i], scope)
  }

  lemma InvNeverLoses(g: Cipher, s: Sys, scope: Scope)
    requires Inv(g, s, scope) && scope.bound
    ensures NeverLoses(g, s, scope)
  {
    forall states, events, i | Run(g, states, events, scope) && states[0] == s && 0 <= i < |states|
      ensures NothingLost(g, states[i], scope)
    {
      RunKeeps(g, states, events, scope, i);
      forall a, n, iv | In(scope, a) && n in VaultOf(states[i], a)
        ensures DecryptsAfresh(g, states[i], a, n, iv)
      {
        EntryDecrypts(g, states[i], scope, a, n, iv);
      }
    }
  }

  lemma StaysSafe(g: Cipher, s: Sys, scope: Scope)
    requires NeverLoses(g, s, scope)
    ensures NothingLost(g, s, scope)
  {
    var states, events: seq<Event> := [s], [];
    assert Run(g, states, events, scope) && states[0] == s;
    assert NothingLost(g, states[0], scope);
  }

  lemma SafeAfterSet(g: Cipher, s: Sys, e: Event, scope: Scope)
    requires NeverLoses(g, s, scope) && e.Set?
    ensures NothingLost(g, AfterSet(g, s, e), scope)
  {
    var states, events := [s, AfterSet(g, s, e)], [e];
    assert Run(g, states, events, scope) && states[0] == s;
    assert NothingLost(g, states[1], scope);
  }

  function Someone(scope: Scope): string {
    if scope.one.Some? then scope.one.value else ""
  }

  function AnySet(alice: string): Event {
    Set(alice, "", [], ZeroIv(), SecretEntry("", "", "", "", 0, 0, 0), true)
  }

  /** The order is exact: after a finalization that happens, no entry is ever lost by commands that go
      on in the safe order if and only if no entry was on the retired key and the running daemon did
      not seal under it. */
  lemma RetireExactly(g: Cipher, s: Sys, typed: string, id: int, confirmed: bool, now: string, t: Sys, scope: Scope)
    requires Inv(g, s, scope) && scope.bound && RetireStep(g, s, typed, id, confirmed, now, t) && t != s
    ensures NeverLoses(g, t, scope) <==> Safe(g, s, Retire(typed, id, confirmed, now), scope)
  {
    RetireKeys(g, s, typed, id, confirmed, now, t);
    RetireDisk(g, s, typed, id, confirmed, now, t);
    if Safe(g, s, Retire(typed, id, confirmed, now), scope) {
      RetireKeeps(g, s, typed, id, confirmed, now, t, scope);
      InvNeverLoses(g, t, scope);
    }
    if NeverLoses(g, t, scope) {
      assert S.ValidId(id);
      NoEntryOn(g, s, id, t, scope);
      if s.daemon.current == id {
        var e := AnySet(Someone(scope));
        SetStranded(g, t, e, e.iv);
        SafeAfterSet(g, t, e, scope);
        OneOf(g, AfterSet(g, t, e), scope, e.alice, e.name, e.iv);
      }
    }
  }

  lemma OneOf(g: Cipher, s: Sys, scope: Scope, alice: string, name: string, iv: Nonce)
    requires NothingLost(g, s, scope) && In(scope, alice) && name in VaultOf(s, alice)
    ensures DecryptsAfresh(g, s, alice, name, iv)
  {}

  lemma NoEntryOn(g: Cipher, s: Sys, id: int, t: Sys, scope: Scope)
    requires NeverLoses(g, t, scope) && DiskOk(g, t) && t == s.(disk := t.disk) && id !in EnvKeys(g, t) && S.ValidId(id)
    ensures forall a, n :: In(scope, a) && n in VaultOf(s, a) ==> S.VersionOf(VaultOf(s, a)[n].value) != id
  {
    StaysSafe(g, t, scope);
    forall a, n | In(scope, a) && n in VaultOf(s, a)
      ensures S.VersionOf(VaultOf(s, a)[n].value) != id
    {
      var iv: Nonce := ZeroIv();
      if S.VersionOf(VaultOf(s, a)[n].value) == id {
        EntryStranded(g, t, a, n, iv);
        OneOf(g, t, scope, a, n, iv);
      }
    }
  }

  /** Such finalizations happen: whatever entry is on a key that is not current, the master password
      and the confirmation are enough to strand it. */
  lemma CanStrand(g: Cipher, s: Sys, scope: Scope, alice: string, name: string, now: string) returns (t: Sys)
    requires Inv(g, s, scope) && In(scope, alice) && name in VaultOf(s, alice)
    requires S.VersionOf(VaultOf(s, alice)[name].value) != FileOf(s.disk).current
    ensures RetireStep(g, s, s.pass, S.VersionOf(VaultOf(s, alice)[name].value), true, now, t) && t != s
    ensures VaultOf(t, alice) == VaultOf(s, alice)
    ensures forall iv :: S.Decrypt(g, Served(g, t.disk, t.pass), iv, name, VaultOf(t, alice)[name].value)
                         == Err(S.UnknownVersion)
  {
    var packed := VaultOf(s, alice)[name].value;
    var id := S.VersionOf(packed);
    assert EntryOk(g, EnvKeys(g, s), s.daemon, scope.bound, name, packed, IntendedOf(s, alice)[name]);
    MeaningVersion(g, EnvKeys(g, s), name, packed);
    assert S.ValidId(id);
    t := CanRetire(g, s, id, now);
    Gone(g, s, id, now, t);
    forall iv: Nonce
      ensures S.Decrypt(g, Served(g, t.disk, t.pass), iv, name, VaultOf(t, alice)[name].value) == Err(S.UnknownVersion)
    {
      EntryStranded(g, t, alice, name, iv);
    }
  }

  lemma Gone(g: Cipher, s: Sys, id: int, now: string, t: Sys)
    requires DiskOk(g, s) && RetireStep(g, s, s.pass, id, true, now, t) && t != s
    ensures DiskOk(g, t) && id !in EnvKeys(g, t) && t == s.(disk := t.disk)
  {
    RetireKeys(g, s, s.pass, id, true, now, t);
    RetireDisk(g, s, s.pass, id, true, now, t);
  }

  /** And whatever key but the current one the daemon seals under, it can be retired under the daemon, so
      that every later set is lost. */
  lemma CanStrandSets(g: Cipher, s: Sys, now: string) returns (t: Sys)
    requires KeysOk(g, s) && s.daemon.current != 0 && s.daemon.current != FileOf(s.disk).current
    ensures RetireStep(g, s, s.pass, s.daemon.current, true, now, t) && t != s
    ensures forall e: Event, iv :: e.Set? && e.allowed ==> SetLost(g, t, e, iv)
  {
    t := CanRetire(g, s, s.daemon.current, now);
    Gone(g, s, s.daemon.current, now, t);
    forall e: Event, iv: Nonce | e.Set? && e.allowed
      ensures SetLost(g, t, e, iv)
    {
      SetStranded(g, t, e, iv);
    }
  }

  // ---------- binding legacy entries ----------

  /** A binding that happens keeps everything readable by the running daemon if and only if the daemon
      holds the current key on disk, is locked, or nothing had to be bound. */
  lemma BindExactly(g: Cipher, s: Sys, alice: string, t: Sys)
    requires Inv(g, s, OneVault(alice, false)) && BindStep(g, s, s.pass, alice, t)
    ensures (forall n, iv :: n in VaultOf(t, alice) ==> DecryptsNow(g, t, alice, n, iv))
       <==> Safe(g, s, Bind(s.pass, alice), OneVault(alice, false))
  {
    if Safe(g, s, Bind(s.pass, alice), OneVault(alice, false)) {
      BindReaches(g, s, alice, t);
    } else {
      NotSafe(g, s, alice);
      var n :| n in VaultOf(s, alice) && S.Reads(g, EnvKeys(g, s), n, VaultOf(s, alice)[n].value).None?;
      BindLags(g, s, alice, n, t);
      assert !DecryptsNow(g, t, alice, n, ZeroIv());
    }
  }

  lemma NotSafe(g: Cipher, s: Sys, alice: string)
    ensures Safe(g, s, Bind(s.pass, alice), OneVault(alice, false)) <==> UpToDate(s) || AllBound(g, s, alice)
  {}

  lemma BindReaches(g: Cipher, s: Sys, alice: string, t: Sys)
    requires Inv(g, s, OneVault(alice, false)) && BindStep(g, s, s.pass, alice, t)
    requires Safe(g, s, Bind(s.pass, alice), OneVault(alice, false))
    ensures forall n, iv :: n in VaultOf(t, alice) ==> DecryptsNow(g, t, alice, n, iv)
  {
    BindBinds(g, s, alice, t);
    forall n, iv | n in VaultOf(t, alice)
      ensures DecryptsNow(g, t, alice, n, iv)
    {
      EntryDecrypts(g, t, OneVault(alice, true), alice, n, iv);
    }
  }

  /** A legacy entry bound while the daemon lacks the current key is out of the daemon's reach until it
      is started again. */
  lemma BindLags(g: Cipher, s: Sys, alice: string, n: string, t: Sys)
    requires Inv(g, s, OneVault(alice, false)) && BindStep(g, s, s.pass, alice, t) && !UpToDate(s)
    requires n in VaultOf(s, alice) && S.Reads(g, EnvKeys(g, s), n, VaultOf(s, alice)[n].value).None?
    ensures n in VaultOf(t, alice) && t.daemon.current != 0
    ensures forall iv :: S.Decrypt(g, t.daemon, iv, n, VaultOf(t, alice)[n].value) == Err(S.UnknownVersion)
    ensures forall iv :: DecryptsAfresh(g, t, alice, n, iv)
  {
    BoundThen(g, s, alice, t);
    var env, v, w := EnvKeys(g, s), VaultOf(s, alice), VaultOf(t, alice);
    assert M.EntryBound(g, env, FileOf(s.disk).current, n, v[n], w[n]);
    VersionNotZero(w[n].value);
    assert EntryOk(g, env, s.daemon, false, n, v[n].value, IntendedOf(s, alice)[n]);
    forall iv: Nonce
      ensures DecryptsAfresh(g, t, alice, n, iv)
    {
      ServedHolds(g, t);
      S.DecryptMeaning(g, Served(g, t.disk, t.pass), iv, n, w[n].value, env);
    }
  }

  /** Such bindings happen: with the master password, from every state in order whose daemon lacks the
      current key. */
  lemma CanLag(g: Cipher, s: Sys, alice: string, n: string) returns (t: Sys)
    requires Inv(g, s, OneVault(alice, false)) && !UpToDate(s)
    requires n in VaultOf(s, alice) && S.Reads(g, EnvKeys(g, s), n, VaultOf(s, alice)[n].value).None?
    ensures BindStep(g, s, s.pass, alice, t) && n in VaultOf(t, alice)
    ensures forall iv :: S.Decrypt(g, t.daemon, iv, n, VaultOf(t, alice)[n].value) == Err(S.UnknownVersion)
  {
    t := CanBind(g, s, alice);
    BindLags(g, s, alice, n, t);
  }

  /** The safe order is the same whether or not the entries are bound. */
  lemma SameRun(g: Cipher, states: seq<Sys>, events: seq<Event>, alice: string)
    requires Run(g, states, events, OneVault(alice, false))
    ensures Run(g, states, events, OneVault(alice, true))
  {
    forall i | 0 <= i < |events|
      ensures Safe(g, states[i], events[i], OneVault(alice, true))
    {
      SameSafe(g, states[i], events[i], alice);
    }
  }

  lemma SameSafe(g: Cipher, s: Sys, e: Event, alice: string)
    ensures Safe(g, s, e, OneVault(alice, true)) == Safe(g, s, e, OneVault(alice, false))
  {
    assert forall a :: In(OneVault(alice, true), a) == In(OneVault(alice, false), a);
  }

  /** A vault that starts out with legacy entries: once it was bound in a run in the safe order, every
      entry decrypts to the plaintext last set from then on. */
  lemma LegacyDecrypts(g: Cipher, states: seq<Sys>, events: seq<Event>, alice: string, k: nat, i: nat, name: string,
                       iv: Nonce)
    requires Run(g, states, events, OneVault(alice, false)) && Inv(g, states[0], OneVault(alice, false))
    requires k < |events| && events[k] == Bind(states[k].pass, alice) && k < i < |states|
    requires name in VaultOf(states[i], alice)
    ensures DecryptsNow(g, states[i], alice, name, iv) && DecryptsAfresh(g, states[i], alice, name, iv)
  {
    BoundAt(g, states, events, alice, k);
    SameRun(g, states, events, alice);
    LaterKeeps(g, states, events, OneVault(alice, true), k + 1, i);
    EntryDecrypts(g, states[i], OneVault(alice, true), alice, name, iv);
  }

  lemma BoundAt(g: Cipher, states: seq<Sys>, events: seq<Event>, alice: string, k: nat)
    requires Run(g, states, events, OneVault(alice, false)) && Inv(g, states[0], OneVault(alice, false))
    requires k < |events| && events[k] == Bind(states[k].pass, alice)
    ensures Inv(g, states[k + 1], OneVault(alice, true))
  {
    RunKeeps(g, states, events, OneVault(alice, false), k);
    AtStep(g, states, events, OneVault(alice, false), k);
    BindBinds(g, states[k], alice, states[k + 1]);
  }

  lemma AtStep(g: Cipher, states: seq<Sys>, events: seq<Event>, scope: Scope, k: nat)
    requires Run(g, states, events, scope) && k < |events|
    ensures Step(g, states[k], events[k], states[k + 1]) && Safe(g, states[k], events[k], scope)
  {}
}
