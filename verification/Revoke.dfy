/** The revocation script (scripts/anb-revoke.sh) as a program counter over the life-cycle machine,
    interleaved with other commands and with the daemon locking itself. */
module Revoke {
  import opened Hex
  import opened Gcm
  import opened Envelope
  import opened LocalVault
  import opened Lifecycle
  import S = KeystoreSpec
  import Maps
  import Server

  /** What the script has done so far. `Finalizing` carries the ids it has still to look at. */
  datatype Pc =
    | Start | Rotated | Loaded | Rekeyed | Finalizing(todo: seq<int>) | Finalized | Reloaded | Done | Aborted

  datatype Script = Script(sys: Sys, pc: Pc, target: int)

  /** `alice rekey` on one vault: every entry, or an error. */
  ghost predicate RekeyStep(g: Cipher, s: Sys, alice: string, t: Sys, ok: bool) {
    exists names, ivs :: RekeyWith(g, s, alice, names, ivs, t, ok)
  }

  ghost predicate RekeyWith(g: Cipher, s: Sys, alice: string, names: seq<string>, ivs: seq<Nonce>, t: Sys, ok: bool) {
    && Step(g, s, Read(alice, names, ivs, true), t)
    && (forall n :: n in VaultOf(s, alice) ==> n in names)
    && (ok <==> Server.Migrated(g, s.daemon, ivs, names, VaultOf(s, alice)).Some?)
  }

  /** The gate: no entry of the vault is off the target version (LocalVault.Gate computes it). */
  predicate GatePasses(s: Sys, alice: string, target: int) {
    forall n :: n in VaultOf(s, alice) ==> S.VersionOf(VaultOf(s, alice)[n].value) == target
  }

  function Listed(keys: seq<KeyEnvelope>): seq<int> {
    seq(|keys|, i requires 0 <= i < |keys| => keys[i].id)
  }

  function CurrentOf(s: Sys): int {
    FileOf(s.disk).current
  }

  function KeysOf(s: Sys): seq<KeyEnvelope> {
    FileOf(s.disk).keys
  }

  /** A command that fails: whatever it did, the script gives up. */
  predicate GivesUp(r: Script, t: Sys, r': Script) {
    r' == Script(t, Aborted, r.target)
  }

  /** One turn of the loop that finalizes every listed id but the target. */
  ghost predicate LoopStep(g: Cipher, r: Script, now: string, r': Script)
    requires r.pc.Finalizing?
  {
    if r.pc.todo == [] then r' == r.(pc := Finalized)
    else TurnStep(g, r.sys, r.target, r.pc.todo[0], r.pc.todo[1..], now, r')
  }

  ghost predicate TurnStep(g: Cipher, s: Sys, target: int, id: int, rest: seq<int>, now: string, r': Script) {
    var t := r'.sys;
    if id == target then r' == Script(s, Finalizing(rest), target)
    else
      || (RetireStep(g, s, s.pass, id, true, now, t) && t != s && r' == Script(t, Finalizing(rest), target))
      || ((RetireStep(g, s, s.pass, id, true, now, t) || t == s) && r' == Script(t, Aborted, target))
  }

  /** Stopping and starting the daemon: it holds what is on disk, or it does not come up. */
  ghost predicate RestartStep(g: Cipher, r: Script, next: Pc, r': Script) {
    var s, t := r.sys, r'.sys;
    || (Step(g, s, Restart(s.pass), t) && t.daemon.current != 0 && r' == r.(sys := t, pc := next))
    || ((Step(g, s, Restart(s.pass), t) || Step(g, s, Lock, t) || t == s) && GivesUp(r, t, r'))
  }

  /** One step of the script under the master password. Every command may fail, before or after it
      did its work, and then the script aborts. */
  ghost predicate ScriptStep(g: Cipher, r: Script, alice: string, freshKey: Bytes, now: string, r': Script) {
    var s, t := r.sys, r'.sys;
    match r.pc
    case Start =>
      || (Step(g, s, RotateKey(s.pass, freshKey, now), t) && CurrentOf(t) != CurrentOf(s)
          && r' == Script(t, Rotated, CurrentOf(t)))
      || ((Step(g, s, RotateKey(s.pass, freshKey, now), t) || t == s) && GivesUp(r, t, r'))
    case Rotated => RestartStep(g, r, Loaded, r')
    case Loaded =>
      || (RekeyStep(g, s, alice, t, true) && r' == r.(sys := t, pc := Rekeyed))
      || ((RekeyStep(g, s, alice, t, true) || t == s) && GivesUp(r, t, r'))
    case Rekeyed =>
      || (t == s && GatePasses(s, alice, r.target) && r' == r.(pc := Finalizing(Listed(KeysOf(s)))))
      || (t == s && GivesUp(r, t, r'))
    case Finalizing(todo) => LoopStep(g, r, now, r')
    case Finalized => RestartStep(g, r, Reloaded, r')
    case Reloaded =>
      || (t == s && Ids(KeysOf(s)) == {r.target} && s.daemon.current != 0 && r' == r.(pc := Done))
      || (t == s && GivesUp(r, t, r'))
    case Done => false
    case Aborted => false
  }

  /** What may happen between two steps of the script: any alice sets, reads or removes secrets, and
      the daemon may lock itself. */
  predicate Interleaved(e: Event) {
    e.Set? || e.Read? || e.Remove? || e.Lock?
  }

  datatype Move = ByScript(freshKey: Bytes, now: string) | ByOther(e: Event)

  ghost predicate Moves(g: Cipher, r: Script, alice: string, m: Move, r': Script) {
    match m
    case ByScript(key, now) => ScriptStep(g, r, alice, key, now, r')
    case ByOther(e) => Interleaved(e) && Step(g, r.sys, e, r'.sys) && r' == r.(sys := r'.sys)
  }

  // ---------- the invariant ----------

  predicate DaemonOn(s: Sys, target: int) {
    s.daemon.current == 0 || s.daemon.current == target
  }

  predicate NoneTwice(todo: seq<int>) {
    forall i, j :: 0 <= i < j < |todo| ==> todo[i] != todo[j]
  }

  /** The ids still on disk are the target and the ones the loop has yet to look at, each once. */
  predicate Remaining(s: Sys, target: int, todo: seq<int>) {
    && (forall id :: id in Ids(KeysOf(s)) ==> id == target || id in todo)
    && (forall id <- todo :: id in Ids(KeysOf(s)))
    && NoneTwice(todo)
  }

  predicate OnTarget(s: Sys, alice: string, target: int) {
    target == CurrentOf(s) && DaemonOn(s, target) && GatePasses(s, alice, target)
  }

  /** What holds at each point of the script besides the life-cycle invariant. */
  predicate PcInv(s: Sys, pc: Pc, alice: string, target: int) {
    match pc
    case Start => true
    case Aborted => true
    case Rotated => target == CurrentOf(s)
    case Loaded => target == CurrentOf(s) && DaemonOn(s, target)
    case Rekeyed => OnTarget(s, alice, target)
    case Finalizing(todo) => OnTarget(s, alice, target) && Remaining(s, target, todo)
    case Finalized => OnTarget(s, alice, target) && Remaining(s, target, [])
    case _ => OnTarget(s, alice, target) && Remaining(s, target, []) && s.daemon.keys.Keys <= {target}
  }

  ghost predicate ScriptInv(g: Cipher, r: Script, alice: string) {
    Inv(g, r.sys, OneVault(alice, true)) && PcInv(r.sys, r.pc, alice, r.target)
  }

  lemma Unaffected(g: Cipher, s: Sys, e: Event, t: Sys)
    requires Interleaved(e) && Step(g, s, e, t)
    ensures t.disk == s.disk && t.pass == s.pass && t.known == s.known
    ensures e.Lock? || t.daemon == s.daemon
  {}

  lemma SameStays(s: Sys, t: Sys, alice: string, target: int)
    requires VaultOf(t, alice) == VaultOf(s, alice) && GatePasses(s, alice, target)
    ensures GatePasses(t, alice, target)
  {
    forall n | n in VaultOf(t, alice)
      ensures S.VersionOf(VaultOf(t, alice)[n].value) == target
    {
      assert n in VaultOf(s, alice);
    }
  }

  lemma PutStays(s: Sys, t: Sys, a: string, name: string, entry: SecretEntry, alice: string, target: int)
    requires VaultOf(t, alice) == if a == alice then VaultOf(s, a)[name := entry] else VaultOf(s, alice)
    requires S.VersionOf(entry.value) == target && GatePasses(s, alice, target)
    ensures GatePasses(t, alice, target)
  {
    forall n | n in VaultOf(t, alice)
      ensures S.VersionOf(VaultOf(t, alice)[n].value) == target
    {
      assert n in VaultOf(s, alice) || (a == alice && n == name);
    }
  }

  lemma SetStays(g: Cipher, s: Sys, e: Event, alice: string, target: int)
    requires KeysOk(g, s) && e.Set? && GatePasses(s, alice, target) && DaemonOn(s, target)
    ensures GatePasses(AfterSet(g, s, e), alice, target)
  {
    var entry := SetIs(g, s, e);
    var t := AfterSet(g, s, e);
    if t != s {
      var v, i := VaultOf(s, e.alice)[e.name := entry], IntendedOf(s, e.alice)[e.name := e.pt];
      WithVaultIs(s, e.alice, v, i, alice);
      SealedNow(s, entry);
      PutStays(s, t, e.alice, e.name, entry, alice, target);
    }
  }

  lemma SealedNow(s: Sys, entry: SecretEntry)
    requires S.VersionOf(entry.value) == s.daemon.current
    ensures s.daemon.current != 0
  {
    VersionNotZero(entry.value);
  }

  lemma ReadStays(g: Cipher, s: Sys, a: string, names: seq<string>, ivs: seq<Nonce>, alice: string, target: int)
    requires KeysOk(g, s) && GatePasses(s, alice, target) && DaemonOn(s, target)
    requires |ivs| == |names| && NoRepeats(names) && forall i :: 0 <= i < |names| ==> names[i] in VaultOf(s, a)
    ensures GatePasses(AfterRead(g, s, a, names, ivs), alice, target)
  {
    ReadMeaning(g, s, a, names, ivs);
    var t := AfterRead(g, s, a, names, ivs);
    var r := Server.Migrated(g, s.daemon, ivs, names, VaultOf(s, a));
    if a != alice || r.None? {
      SameStays(s, t, alice, target);
    } else {
      assert VaultOf(t, alice) == r.value;
      forall n | n in VaultOf(t, alice)
        ensures S.VersionOf(VaultOf(t, alice)[n].value) == target
      {
        assert n in VaultOf(s, alice);
        if n in names {
          assert Server.EntryMigrated(g, s.daemon, EnvKeys(g, s), n, VaultOf(s, a)[n], r.value[n]);
          VersionNotZero(r.value[n].value);
        }
      }
    }
  }

  /** While the daemon seals under the target, no command takes an entry off it. */
  lemma GateStays(g: Cipher, s: Sys, e: Event, t: Sys, alice: string, target: int)
    requires KeysOk(g, s) && Interleaved(e) && Step(g, s, e, t) && GatePasses(s, alice, target) && DaemonOn(s, target)
    ensures GatePasses(t, alice, target)
  {
    match e {
      case Set(_, _, _, _, _, _) => SetStays(g, s, e, alice, target);
      case Read(a, names, ivs, allowed) =>
        if allowed {
          ReadStays(g, s, a, names, ivs, alice, target);
        }
      case Remove(a, name) =>
        assert VaultOf(t, alice) == if a == alice then VaultOf(s, alice) - {name} else VaultOf(s, alice);
        assert forall n :: n in VaultOf(t, alice) ==>
                 n in VaultOf(s, alice) && VaultOf(t, alice)[n] == VaultOf(s, alice)[n];
      case Lock => SameStays(s, t, alice, target);
    }
  }

  lemma OtherKeeps(g: Cipher, r: Script, alice: string, e: Event, r': Script)
    requires ScriptInv(g, r, alice) && Moves(g, r, alice, ByOther(e), r')
    ensures ScriptInv(g, r', alice)
  {
    StepKeeps(g, r.sys, e, r'.sys, OneVault(alice, true));
    Unaffected(g, r.sys, e, r'.sys);
    if r.pc.Rekeyed? || r.pc.Finalizing? || r.pc.Finalized? || r.pc.Reloaded? || r.pc.Done? {
      GateStays(g, r.sys, e, r'.sys, alice, r.target);
    }
  }

  /** After a rekey by a daemon on the target every entry of the vault is on the target. */
  lemma RekeyReaches(g: Cipher, s: Sys, alice: string, t: Sys, target: int)
    requires Inv(g, s, OneVault(alice, true)) && RekeyStep(g, s, alice, t, true) && DaemonOn(s, target)
    ensures Inv(g, t, OneVault(alice, true)) && GatePasses(t, alice, target)
    ensures t == s.(vaults := t.vaults)
  {
    var names, ivs :| RekeyWith(g, s, alice, names, ivs, t, true);
    ReadKeeps(g, s, alice, names, ivs, OneVault(alice, true));
    ReadMeaning(g, s, alice, names, ivs);
    AllMigrated(g, s, names, VaultOf(s, alice), VaultOf(t, alice), target);
  }

  lemma AllMigrated(g: Cipher, s: Sys, names: seq<string>, v: Secrets, w: Secrets, target: int)
    requires KeysOk(g, s) && DaemonOn(s, target) && w.Keys == v.Keys && forall n :: n in v ==> n in names
    requires forall n <- names :: n in v && Server.EntryMigrated(g, s.daemon, EnvKeys(g, s), n, v[n], w[n])
    ensures forall n :: n in w ==> S.VersionOf(w[n].value) == target
  {
    forall n | n in w
      ensures S.VersionOf(w[n].value) == target
    {
      assert n in names && Server.EntryMigrated(g, s.daemon, EnvKeys(g, s), n, v[n], w[n]);
      VersionNotZero(w[n].value);
    }
  }

  lemma ListedRemain(s: Sys, target: int)
    requires IncreasingIds(KeysOf(s))
    ensures Remaining(s, target, Listed(KeysOf(s)))
  {
    var keys := KeysOf(s);
    forall id | id in Ids(keys)
      ensures id in Listed(keys)
    {
      var i :| 0 <= i < |keys| && keys[i].id == id;
      assert Listed(keys)[i] == id;
    }
    forall id | id in Listed(keys)
      ensures id in Ids(keys)
    {
      var i :| 0 <= i < |Listed(keys)| && Listed(keys)[i] == id;
      assert keys[i].id == id;
    }
  }

  /** One turn of the finalization loop. */
  lemma TurnKeeps(g: Cipher, s: Sys, alice: string, target: int, id: int, rest: seq<int>, now: string, t: Sys)
    requires Inv(g, s, OneVault(alice, true)) && OnTarget(s, alice, target) && Remaining(s, target, [id] + rest)
    requires RetireStep(g, s, s.pass, id, true, now, t) && t != s
    ensures Inv(g, t, OneVault(alice, true)) && OnTarget(t, alice, target) && Remaining(t, target, rest)
    ensures t == s.(disk := t.disk)
  {
    TurnInv(g, s, alice, target, id, now, t);
    OneLess(s, t, target, id, rest);
    SameStays(s, t, alice, target);
  }

  lemma TurnInv(g: Cipher, s: Sys, alice: string, target: int, id: int, now: string, t: Sys)
    requires Inv(g, s, OneVault(alice, true)) && OnTarget(s, alice, target)
    requires RetireStep(g, s, s.pass, id, true, now, t) && t != s
    ensures Inv(g, t, OneVault(alice, true)) && t == s.(disk := t.disk) && CurrentOf(t) == CurrentOf(s)
    ensures Ids(KeysOf(t)) == Ids(KeysOf(s)) - {id}
  {
    RetireKeys(g, s, s.pass, id, true, now, t);
    OffTarget(g, s, id, alice);
    RetireKeeps(g, s, s.pass, id, true, now, t, OneVault(alice, true));
    RetiredIds(g, s, id, t);
  }

  /** The loop respects the safe order. */
  lemma OffTarget(g: Cipher, s: Sys, id: int, alice: string)
    requires KeysOk(g, s) && id in EnvKeys(g, s) && id != FileOf(s.disk).current
    requires DaemonOn(s, CurrentOf(s)) && GatePasses(s, alice, CurrentOf(s))
    ensures s.daemon.current != id
    ensures forall n :: n in VaultOf(s, alice) ==> S.VersionOf(VaultOf(s, alice)[n].value) != id
  {
    assert S.ValidId(id);
  }

  lemma OneLess(s: Sys, t: Sys, target: int, id: int, rest: seq<int>)
    requires Ids(KeysOf(t)) == Ids(KeysOf(s)) - {id} && Remaining(s, target, [id] + rest)
    ensures Remaining(t, target, rest)
  {
    HeadOnce(id, rest);
  }

  lemma Skipped(s: Sys, target: int, rest: seq<int>)
    requires Remaining(s, target, [target] + rest)
    ensures Remaining(s, target, rest)
  {
    HeadOnce(target, rest);
  }

  lemma HeadOnce(id: int, rest: seq<int>)
    requires NoneTwice([id] + rest)
    ensures NoneTwice(rest) && id !in rest
    ensures forall x :: x in [id] + rest <==> x == id || x in rest
  {
    var todo := [id] + rest;
    assert forall i :: 0 <= i < |rest| ==> todo[i + 1] == rest[i];
    assert todo[0] == id;
  }

  lemma RetiredIds(g: Cipher, s: Sys, id: int, t: Sys)
    requires KeysOk(g, s) && KeysOk(g, t) && EnvKeys(g, t) == EnvKeys(g, s) - {id}
    ensures Ids(KeysOf(t)) == Ids(KeysOf(s)) - {id}
  {
    Loads(g, s, "");
    Loads(g, t, "");
  }

  lemma RestartKeeps(g: Cipher, s: Sys, t: Sys, alice: string)
    requires Inv(g, s, OneVault(alice, true)) && Step(g, s, Restart(s.pass), t)
    ensures Inv(g, t, OneVault(alice, true)) && t == s.(daemon := t.daemon)
    ensures t.daemon == S.Held(EnvKeys(g, s), CurrentOf(s)) && Ids(KeysOf(s)) == EnvKeys(g, s).Keys
  {
    StepKeeps(g, s, Restart(s.pass), t, OneVault(alice, true));
    ServedHolds(g, s);
    Loads(g, s, "");
  }

  lemma RestartStepKeeps(g: Cipher, r: Script, alice: string, next: Pc, r': Script)
    requires ScriptInv(g, r, alice) && RestartStep(g, r, next, r')
    requires (r.pc.Rotated? && next.Loaded?) || (r.pc.Finalized? && next.Reloaded?)
    ensures ScriptInv(g, r', alice)
    ensures r'.sys.intended == r.sys.intended
  {
    var s, t := r.sys, r'.sys;
    if Step(g, s, Restart(s.pass), t) {
      RestartKeeps(g, s, t, alice);
    } else if t != s {
      LockKeeps(g, s, t, alice);
    }
  }

  lemma LockKeeps(g: Cipher, s: Sys, t: Sys, alice: string)
    requires Inv(g, s, OneVault(alice, true)) && Step(g, s, Lock, t)
    ensures Inv(g, t, OneVault(alice, true)) && t == s.(daemon := t.daemon)
  {
    StepKeeps(g, s, Lock, t, OneVault(alice, true));
  }

  lemma StartKeeps(g: Cipher, s: Sys, key: Bytes, now: string, t: Sys, alice: string)
    requires Inv(g, s, OneVault(alice, true)) && (Step(g, s, RotateKey(s.pass, key, now), t) || t == s)
    ensures Inv(g, t, OneVault(alice, true)) && t.intended == s.intended
  {
    if t != s {
      StepKeeps(g, s, RotateKey(s.pass, key, now), t, OneVault(alice, true));
    }
  }

  lemma ScriptKeeps(g: Cipher, r: Script, alice: string, key: Bytes, now: string, r': Script)
    requires ScriptInv(g, r, alice) && ScriptStep(g, r, alice, key, now, r')
    ensures ScriptInv(g, r', alice)
    ensures r'.sys.intended == r.sys.intended
  {
    var s, t := r.sys, r'.sys;
    match r.pc {
      case Start => StartKeeps(g, s, key, now, t, alice);
      case Rotated => RestartStepKeeps(g, r, alice, Loaded, r');
      case Loaded =>
        if t != s || r'.pc.Rekeyed? {
          RekeyReaches(g, s, alice, t, r.target);
        }
      case Rekeyed => ListedRemain(s, r.target);
      case Finalizing(todo) => LoopKeeps(g, s, r.target, todo, alice, now, r');
      case Finalized => RestartStepKeeps(g, r, alice, Reloaded, r');
      case Reloaded =>
    }
  }

  lemma LoopKeeps(g: Cipher, s: Sys, target: int, todo: seq<int>, alice: string, now: string, r': Script)
    requires Inv(g, s, OneVault(alice, true)) && OnTarget(s, alice, target) && Remaining(s, target, todo)
    requires LoopStep(g, Script(s, Finalizing(todo), target), now, r')
    ensures ScriptInv(g, r', alice)
    ensures r'.sys.intended == s.intended
  {
    if todo != [] {
      assert todo == [todo[0]] + todo[1..];
      LoopTurn(g, s, target, todo[0], todo[1..], alice, now, r');
    }
  }

  lemma LoopTurn(g: Cipher, s: Sys, target: int, id: int, rest: seq<int>, alice: string, now: string, r': Script)
    requires Inv(g, s, OneVault(alice, true)) && OnTarget(s, alice, target) && Remaining(s, target, [id] + rest)
    requires TurnStep(g, s, target, id, rest, now, r')
    ensures ScriptInv(g, r', alice)
    ensures r'.sys.intended == s.intended
  {
    if id == target {
      Skipped(s, target, rest);
    } else {
      TurnMay(g, s, alice, target, id, rest, now, r'.sys);
    }
  }

  lemma TurnMay(g: Cipher, s: Sys, alice: string, target: int, id: int, rest: seq<int>, now: string, t: Sys)
    requires Inv(g, s, OneVault(alice, true)) && OnTarget(s, alice, target) && Remaining(s, target, [id] + rest)
    requires RetireStep(g, s, s.pass, id, true, now, t) || t == s
    ensures Inv(g, t, OneVault(alice, true)) && t.intended == s.intended
    ensures t != s ==> OnTarget(t, alice, target) && Remaining(t, target, rest)
  {
    if t != s {
      TurnKeeps(g, s, alice, target, id, rest, now, t);
    }
  }

  /** Every command of the script may fail without effect, and a daemon may not come up. */
  lemma MayFail(g: Cipher, r: Script, alice: string, key: Bytes, now: string)
    requires !r.pc.Done? && !r.pc.Aborted?
    requires r.pc.Finalizing? ==> r.pc.todo != [] && r.pc.todo[0] != r.target
    ensures ScriptStep(g, r, alice, key, now, Script(r.sys, Aborted, r.target))
    ensures r.pc.Rotated? || r.pc.Finalized? ==>
              ScriptStep(g, r, alice, key, now, Script(r.sys.(daemon := S.LOCKED), Aborted, r.target))
  {
    assert Step(g, r.sys, Lock, r.sys.(daemon := S.LOCKED));
  }

  // ---------- whole runs ----------

  ghost predicate Follow(g: Cipher, states: seq<Script>, moves: seq<Move>, alice: string) {
    && |states| == |moves| + 1
    && forall i :: 0 <= i < |moves| ==> Moves(g, states[i], alice, moves[i], states[i + 1])
  }

  ghost predicate ScriptRun(g: Cipher, states: seq<Script>, moves: seq<Move>, alice: string) {
    Follow(g, states, moves, alice) && states[0].pc.Start?
  }

  lemma MoveKeeps(g: Cipher, r: Script, alice: string, m: Move, r': Script)
    requires ScriptInv(g, r, alice) && Moves(g, r, alice, m, r')
    ensures ScriptInv(g, r', alice)
  {
    match m {
      case ByScript(key, now) => ScriptKeeps(g, r, alice, key, now, r');
      case ByOther(e) => OtherKeeps(g, r, alice, e, r');
    }
  }

  lemma MoveAt(g: Cipher, states: seq<Script>, moves: seq<Move>, alice: string, i: nat)
    requires ScriptRun(g, states, moves, alice) && i < |moves| && ScriptInv(g, states[i], alice)
    ensures ScriptInv(g, states[i + 1], alice)
  {
    MoveKeeps(g, states[i], alice, moves[i], states[i + 1]);
  }

  lemma {:induction false} ScriptRunKeeps(g: Cipher, states: seq<Script>, moves: seq<Move>, alice: string, i: nat)
    requires ScriptRun(g, states, moves, alice) && Inv(g, states[0].sys, OneVault(alice, true)) && i < |states|
    ensures ScriptInv(g, states[i], alice)
  {
    if i > 0 {
      ScriptRunKeeps(g, states, moves, alice, i - 1);
      MoveAt(g, states, moves, alice, i - 1);
    }
  }

  /** At every point of the script, aborted or not, every entry of the vault it rekeys still decrypts
      to the plaintext last set: no key it needs has been removed. */
  lemma NothingLost(g: Cipher, states: seq<Script>, moves: seq<Move>, alice: string, i: nat, name: string, iv: Nonce)
    requires ScriptRun(g, states, moves, alice) && Inv(g, states[0].sys, OneVault(alice, true)) && i < |states|
    requires name in VaultOf(states[i].sys, alice)
    ensures var s := states[i].sys;
            var again := S.Decrypt(g, Served(g, s.disk, s.pass), iv, name, VaultOf(s, alice)[name].value);
            && name in IntendedOf(s, alice)
            && again.Ok? && again.value.plaintext == IntendedOf(s, alice)[name]
  {
    ScriptRunKeeps(g, states, moves, alice, i);
    EntryDecrypts(g, states[i].sys, OneVault(alice, true), alice, name, iv);
  }

  /** The script itself never changes a plaintext. */
  lemma {:induction false} OnlyOthersSet(g: Cipher, states: seq<Script>, moves: seq<Move>, alice: string, i: nat)
    requires ScriptRun(g, states, moves, alice) && Inv(g, states[0].sys, OneVault(alice, true)) && i < |states|
    requires forall j :: 0 <= j < i && moves[j].ByOther? ==> !moves[j].e.Set? && !moves[j].e.Remove?
    ensures states[i].sys.intended == states[0].sys.intended
  {
    if i > 0 {
      OnlyOthersSet(g, states, moves, alice, i - 1);
      ScriptRunKeeps(g, states, moves, alice, i - 1);
      MoveLeavesIntended(g, states[i - 1], alice, moves[i - 1], states[i]);
    }
  }

  lemma MoveLeavesIntended(g: Cipher, r: Script, alice: string, m: Move, r': Script)
    requires ScriptInv(g, r, alice) && Moves(g, r, alice, m, r')
    requires m.ByOther? ==> !m.e.Set? && !m.e.Remove?
    ensures r'.sys.intended == r.sys.intended
  {
    match m {
      case ByScript(key, now) => ScriptKeeps(g, r, alice, key, now, r');
      case ByOther(e) => OtherLeavesIntended(g, r.sys, e, r'.sys);
    }
  }

  lemma OtherLeavesIntended(g: Cipher, s: Sys, e: Event, t: Sys)
    requires Interleaved(e) && Step(g, s, e, t) && !e.Set? && !e.Remove?
    ensures t.intended == s.intended
  {}

  /** When the script ends well, the envelope and any unlocked daemon hold exactly one key, the fresh
      one; every entry of the vault it rekeyed is on it; and an entry of any vault reads from disk only
      if it is on it too, so a copy of the vault from before the rotation is dead. */
  lemma Revoked(g: Cipher, states: seq<Script>, moves: seq<Move>, alice: string, i: nat)
    requires ScriptRun(g, states, moves, alice) && Inv(g, states[0].sys, OneVault(alice, true)) && i < |states|
    requires states[i].pc.Done?
    ensures var r := states[i];
            && KeysOk(g, r.sys)
            && EnvKeys(g, r.sys).Keys == {r.target}
            && r.target == CurrentOf(r.sys)
            && (r.sys.daemon.current != 0 ==> r.sys.daemon.keys == EnvKeys(g, r.sys))
            && GatePasses(r.sys, alice, r.target)
            && forall name, packed :: S.Reads(g, EnvKeys(g, r.sys), name, packed).Some? ==>
                 S.VersionOf(packed) == r.target
  {
    ScriptRunKeeps(g, states, moves, alice, i);
    OneKeyLeft(g, states[i], alice);
    OnlyTargetReads(g, EnvKeys(g, states[i].sys), states[i].target);
  }

  lemma OneKeyLeft(g: Cipher, r: Script, alice: string)
    requires ScriptInv(g, r, alice) && r.pc.Done?
    ensures EnvKeys(g, r.sys).Keys == {r.target}
    ensures r.sys.daemon.current != 0 ==> r.sys.daemon.keys == EnvKeys(g, r.sys)
  {
    var s := r.sys;
    assert KeysOk(g, s) && PcInv(s, Done, alice, r.target);
    Loads(g, s, "");
    OnlyKey(EnvKeys(g, s), r.target);
    if s.daemon.current != 0 {
      SameSingle(s.daemon.keys, EnvKeys(g, s), s.known, r.target);
    }
  }

  lemma OnlyKey(m: map<int, Bytes>, target: int)
    requires target in m && forall id :: id in m.Keys ==> id == target
    ensures m.Keys == {target}
  {
    var others := m.Keys - {target};
    if others != {} {
      var id := Maps.AnyOf(others);
    }
    assert m.Keys == others + {target};
  }

  lemma SameSingle(a: map<int, Bytes>, b: map<int, Bytes>, known: map<int, Bytes>, target: int)
    requires target in a && a.Keys <= {target} && b.Keys == {target} && PartOf(a, known) && PartOf(b, known)
    ensures a == b
  {
    assert a.Keys == b.Keys;
    Maps.SameMap(a, b);
  }

  lemma OnlyTargetReads(g: Cipher, keys: map<int, Bytes>, target: int)
    requires keys.Keys == {target}
    ensures forall name, packed :: S.Reads(g, keys, name, packed).Some? ==> S.VersionOf(packed) == target
  {
    forall name, packed | S.Reads(g, keys, name, packed).Some?
      ensures S.VersionOf(packed) == target
    {
      ReadsVersion(g, keys, name, packed);
      assert S.VersionOf(packed) in keys.Keys;
    }
  }
}
