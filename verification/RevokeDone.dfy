/** The revocation script can always go on: as long as the daemon answers where the script asks it, the
    next command has a successful outcome, and the script ends well (scripts/anb-revoke.sh). */
module RevokeDone {
  import opened Wrappers
  import opened Maps
  import opened Hex
  import opened Gcm
  import opened Versions
  import opened Envelope
  import opened LocalVault
  import opened Lifecycle
  import opened Progress
  import opened Revoke
  import S = KeystoreSpec
  import Server

  function Phase(pc: Pc): nat {
    match pc
    case Start => 7
    case Rotated => 6
    case Loaded => 5
    case Rekeyed => 4
    case Finalizing(_) => 3
    case Finalized => 2
    case Reloaded => 1
    case Done => 0
    case Aborted => 0
  }

  function TurnsLeft(pc: Pc): nat {
    if pc.Finalizing? then |pc.todo| else 0
  }

  predicate Closer(pc: Pc, pc': Pc) {
    Phase(pc') < Phase(pc) || (Phase(pc') == Phase(pc) && TurnsLeft(pc') < TurnsLeft(pc))
  }

  /** Where the script talks to the daemon, it is unlocked: after each restart, until the rekey and
      until the last check. */
  predicate Answered(r: Script) {
    r.pc.Loaded? || r.pc.Reloaded? ==> r.sys.daemon.current != 0
  }

  /** A successful step. */
  ghost predicate Advances(g: Cipher, r: Script, alice: string, key: Bytes, now: string, r': Script) {
    ScriptStep(g, r, alice, key, now, r') && !r'.pc.Aborted? && Answered(r') && Closer(r.pc, r'.pc)
  }

  lemma FromStart(g: Cipher, r: Script, alice: string, key: Bytes, now: string) returns (r': Script)
    requires DiskOk(g, r.sys) && r.pc.Start? && |key| == MASTER_KEY_LEN && CurrentOf(r.sys) < MAX_INT
    ensures Advances(g, r, alice, key, now, r')
  {
    var t := CanRotate(g, r.sys, r.sys.pass, Some(key), now);
    r' := Script(t, Rotated, CurrentOf(t));
  }

  lemma FromStopped(g: Cipher, r: Script, alice: string, key: Bytes, now: string) returns (r': Script)
    requires DiskOk(g, r.sys) && (r.pc.Rotated? || r.pc.Finalized?)
    ensures Advances(g, r, alice, key, now, r')
  {
    var s := r.sys;
    ServedHolds(g, s);
    assert S.ValidId(CurrentOf(s));
    var t := s.(daemon := Served(g, s.disk, s.pass));
    assert Step(g, s, Restart(s.pass), t);
    r' := r.(sys := t, pc := if r.pc.Rotated? then Loaded else Reloaded);
  }

  /** An unlocked daemon reads every entry of the vault. */
  lemma DaemonReads(g: Cipher, s: Sys, alice: string, n: string)
    requires Inv(g, s, OneVault(alice, true)) && s.daemon.current != 0 && n in VaultOf(s, alice)
    ensures S.Reads(g, s.daemon.keys, n, VaultOf(s, alice)[n].value).Some?
  {
    var packed := VaultOf(s, alice)[n].value;
    assert EntryOk(g, EnvKeys(g, s), s.daemon, true, n, packed, IntendedOf(s, alice)[n]);
    ReadsVersion(g, EnvKeys(g, s), n, packed);
    ReadsAgree(g, EnvKeys(g, s), s.daemon.keys, n, packed);
  }

  lemma AllRead(g: Cipher, s: Sys, alice: string, names: seq<string>, ivs: seq<Nonce>)
    requires Inv(g, s, OneVault(alice, true)) && s.daemon.current != 0
    requires |ivs| == |names| && NoRepeats(names) && forall i :: 0 <= i < |names| ==> names[i] in VaultOf(s, alice)
    ensures Server.Migrated(g, s.daemon, ivs, names, VaultOf(s, alice)).Some?
  {
    forall i | 0 <= i < |names|
      ensures S.Reads(g, s.daemon.keys, names[i], VaultOf(s, alice)[names[i]].value).Some?
    {
      DaemonReads(g, s, alice, names[i]);
    }
    ReadMeaning(g, s, alice, names, ivs);
  }

  lemma AnyNames(v: Secrets) returns (names: seq<string>)
    ensures Server.NamesOf(v, names)
  {
    names := Listing(v.Keys);
    assert forall i :: 0 <= i < |names| ==> names[i] in names;
  }

  lemma RekeyBy(g: Cipher, s: Sys, alice: string, names: seq<string>, ivs: seq<Nonce>)
    requires Server.NamesOf(VaultOf(s, alice), names) && |ivs| == |names|
    requires Server.Migrated(g, s.daemon, ivs, names, VaultOf(s, alice)).Some?
    ensures RekeyStep(g, s, alice, AfterRead(g, s, alice, names, ivs), true)
  {
    assert RekeyWith(g, s, alice, names, ivs, AfterRead(g, s, alice, names, ivs), true);
  }

  lemma CanRekey(g: Cipher, s: Sys, alice: string) returns (t: Sys)
    requires Inv(g, s, OneVault(alice, true)) && s.daemon.current != 0
    ensures RekeyStep(g, s, alice, t, true)
  {
    var names := AnyNames(VaultOf(s, alice));
    var ivs := seq(|names|, _ => ZeroIv());
    AllRead(g, s, alice, names, ivs);
    RekeyBy(g, s, alice, names, ivs);
    t := AfterRead(g, s, alice, names, ivs);
  }

  lemma FromLoaded(g: Cipher, r: Script, alice: string, key: Bytes, now: string) returns (r': Script)
    requires Inv(g, r.sys, OneVault(alice, true)) && r.pc.Loaded? && r.sys.daemon.current != 0
    ensures Advances(g, r, alice, key, now, r')
  {
    var t := CanRekey(g, r.sys, alice);
    r' := r.(sys := t, pc := Rekeyed);
  }

  lemma FromFinalizing(g: Cipher, r: Script, alice: string, key: Bytes, now: string) returns (r': Script)
    requires DiskOk(g, r.sys) && r.pc.Finalizing? && r.target == CurrentOf(r.sys)
    requires Remaining(r.sys, r.target, r.pc.todo)
    ensures Advances(g, r, alice, key, now, r')
  {
    var s, todo := r.sys, r.pc.todo;
    if todo == [] {
      r' := r.(pc := Finalized);
    } else if todo[0] == r.target {
      r' := r.(pc := Finalizing(todo[1..]));
    } else {
      var t := CanTurn(g, s, todo[0], now);
      r' := r.(sys := t, pc := Finalizing(todo[1..]));
    }
  }

  lemma CanTurn(g: Cipher, s: Sys, id: int, now: string) returns (t: Sys)
    requires DiskOk(g, s) && id in Ids(KeysOf(s)) && id != CurrentOf(s)
    ensures RetireStep(g, s, s.pass, id, true, now, t) && t != s
  {
    Loads(g, s, "");
    t := CanRetire(g, s, id, now);
  }

  lemma FromReloaded(g: Cipher, r: Script, alice: string, key: Bytes, now: string) returns (r': Script)
    requires DiskOk(g, r.sys) && r.pc.Reloaded? && r.target == CurrentOf(r.sys) && r.sys.daemon.current != 0
    requires Remaining(r.sys, r.target, [])
    ensures Advances(g, r, alice, key, now, r')
  {
    OneIdLeft(g, r.sys);
    r' := r.(pc := Done);
  }

  lemma OneIdLeft(g: Cipher, s: Sys)
    requires DiskOk(g, s) && Remaining(s, CurrentOf(s), [])
    ensures Ids(KeysOf(s)) == {CurrentOf(s)}
  {
    Loads(g, s, "");
    assert forall id :: id in Ids(KeysOf(s)) <==> id == CurrentOf(s);
  }

  /** From every point of the script, whatever other commands came between, its next command has an
      outcome with which it goes on. */
  lemma CanAdvance(g: Cipher, r: Script, alice: string, key: Bytes, now: string) returns (r': Script)
    requires ScriptInv(g, r, alice) && !r.pc.Done? && !r.pc.Aborted? && Answered(r)
    requires r.pc.Start? ==> |key| == MASTER_KEY_LEN && CurrentOf(r.sys) < MAX_INT
    ensures Advances(g, r, alice, key, now, r')
  {
    match r.pc {
      case Start => r' := FromStart(g, r, alice, key, now);
      case Rotated => r' := FromStopped(g, r, alice, key, now);
      case Loaded => r' := FromLoaded(g, r, alice, key, now);
      case Rekeyed => r' := r.(pc := Finalizing(Listed(KeysOf(r.sys))));
      case Finalizing(_) => r' := FromFinalizing(g, r, alice, key, now);
      case Finalized => r' := FromStopped(g, r, alice, key, now);
      case Reloaded => r' := FromReloaded(g, r, alice, key, now);
    }
  }

  /** A rekey succeeds only if every entry reads. */
  lemma RekeyReads(g: Cipher, s: Sys, alice: string, t: Sys, n: string)
    requires KeysOk(g, s) && RekeyStep(g, s, alice, t, true) && n in VaultOf(s, alice)
    ensures S.Reads(g, s.daemon.keys, n, VaultOf(s, alice)[n].value).Some?
  {
    var names, ivs :| RekeyWith(g, s, alice, names, ivs, t, true);
    ReadMeaning(g, s, alice, names, ivs);
    var i :| 0 <= i < |names| && names[i] == n;
  }

  /** A locked daemon where the script asks it leaves no way but to give up, unless there is nothing to
      rekey. */
  lemma LockedStops(g: Cipher, r: Script, alice: string, key: Bytes, now: string, r': Script)
    requires KeysOk(g, r.sys) && !Answered(r) && (r.pc.Loaded? ==> VaultOf(r.sys, alice) != map[])
    requires ScriptStep(g, r, alice, key, now, r')
    ensures r'.pc.Aborted?
  {
    if r.pc.Loaded? {
      var n := AnyOf(VaultOf(r.sys, alice).Keys);
      if RekeyStep(g, r.sys, alice, r'.sys, true) {
        RekeyReads(g, r.sys, alice, r'.sys, n);
      }
    }
  }

  lemma Prepended(g: Cipher, r: Script, alice: string, m: Move, states: seq<Script>, moves: seq<Move>)
    requires Follow(g, states, moves, alice) && Moves(g, r, alice, m, states[0])
    ensures Follow(g, [r] + states, [m] + moves, alice)
  {
    var all, ms := [r] + states, [m] + moves;
    forall i | 0 <= i < |ms|
      ensures Moves(g, all[i], alice, ms[i], all[i + 1])
    {
      if i > 0 {
        assert Moves(g, states[i - 1], alice, moves[i - 1], states[i - 1 + 1]);
      }
    }
  }

  /** The script completes: from every point it can reach, undisturbed from there on, there is a run to
      its good end. */
  lemma {:induction false} Completes(g: Cipher, r: Script, alice: string, key: Bytes, now: string)
    returns (states: seq<Script>, moves: seq<Move>)
    requires ScriptInv(g, r, alice) && !r.pc.Aborted? && Answered(r)
    requires r.pc.Start? ==> |key| == MASTER_KEY_LEN && CurrentOf(r.sys) < MAX_INT
    ensures Follow(g, states, moves, alice) && states[0] == r && states[|moves|].pc.Done?
    ensures forall m <- moves :: m == ByScript(key, now)
    decreases Phase(r.pc), TurnsLeft(r.pc)
  {
    if r.pc.Done? {
      states, moves := [r], [];
    } else {
      var r' := CanAdvance(g, r, alice, key, now);
      AdvanceKeeps(g, r, alice, key, now, r');
      var later, rest := Completes(g, r', alice, key, now);
      Prepended(g, r, alice, ByScript(key, now), later, rest);
      states, moves := [r] + later, [ByScript(key, now)] + rest;
    }
  }

  lemma AdvanceKeeps(g: Cipher, r: Script, alice: string, key: Bytes, now: string, r': Script)
    requires ScriptInv(g, r, alice) && Advances(g, r, alice, key, now, r')
    ensures ScriptInv(g, r', alice) && Moves(g, r, alice, ByScript(key, now), r')
    ensures !r'.pc.Start? && !r'.pc.Aborted? && Answered(r') && Closer(r.pc, r'.pc)
  {
    ScriptKeeps(g, r, alice, key, now, r');
  }
}
