/** What Bob's in-memory key store does, as functions on values (internal/keystore/keystore.go).
    The class in Keystore.dfy is proved against this module. */
module KeystoreSpec {
  import opened Wrappers
  import opened Hex
  import opened Gcm
  import opened Versions

  datatype StoreError =
    | Locked | BadVersion(version: VersionError) | UnknownVersion | CannotFinalizeCurrent
    | Crypto(reason: CryptoError)

  /** The held key versions and the one that encrypts; current is 0 while locked. */
  datatype Held = Held(keys: map<int, Bytes>, current: int)

  const LOCKED := Held(map[], 0)

  datatype Opened = Opened(plaintext: Bytes, rewrapped: string, onCurrent: bool)

  predicate ValidId(id: int) {
    1 <= id <= MAX_INT
  }

  predicate ValidKeys(keys: map<int, Bytes>) {
    forall id <- keys :: ValidId(id) && |keys[id]| == MASTER_KEY_LEN
  }

  predicate ValidHeld(h: Held) {
    && ValidKeys(h.keys)
    && (h.current == 0 <==> h.keys == map[])
    && (h.current != 0 ==> h.current in h.keys)
  }

  /** The version a stored text names, or -1 for a malformed prefix (as rekey-status counts it). */
  function VersionOf(packed: string): int {
    match ParseVersion(packed)
    case Ok((v, _)) => v
    case Err(_) => -1
  }

  /** What a stored text says under a set of keys and its entry's name. */
  function Reads(g: Cipher, keys: map<int, Bytes>, name: string, packed: string): Option<Bytes> {
    match ParseVersion(packed)
    case Err(_) => None
    case Ok((v, raw)) =>
      if v !in keys then None
      else
        match OpenText(g, keys[v], raw, name)
        case Err(_) => None
        case Ok(pt) => Some(pt)
  }

  function Encrypt(g: Cipher, h: Held, iv: Nonce, name: string, pt: Bytes): Result<string, StoreError> {
    if h.current == 0 || h.current !in h.keys then Err(Locked)
    else
      match SealText(g, h.keys[h.current], iv, pt, name)
      case Err(e) => Err(Crypto(e))
      case Ok(raw) => Ok(PackVersion(h.current, raw))
  }

  /** A missing current key reads as Go's nil slice. */
  function CurrentKey(h: Held): Bytes {
    if h.current in h.keys then h.keys[h.current] else []
  }

  function Decrypt(g: Cipher, h: Held, iv: Nonce, name: string, packed: string): Result<Opened, StoreError> {
    if h.current == 0 then Err(Locked)
    else
      match ParseVersion(packed)
      case Err(e) => Err(BadVersion(e))
      case Ok((v, raw)) =>
        if v !in h.keys then Err(UnknownVersion)
        else
          match OpenText(g, h.keys[v], raw, name)
          case Err(e) => Err(Crypto(e))
          case Ok(pt) =>
            if v == h.current then Ok(Opened(pt, "", true))
            else
              match SealText(g, CurrentKey(h), iv, pt, name)
              case Err(e) => Err(Crypto(e))
              case Ok(sealed) => Ok(Opened(pt, PackVersion(h.current, sealed), false))
  }

  /** A text encrypted by an unlocked store is of the current version and reads back under every
      set of keys that agrees with the store on that version. */
  lemma EncryptReads(g: Cipher, h: Held, iv: Nonce, name: string, pt: Bytes, keys: map<int, Bytes>)
    requires ValidHeld(h) && h.current != 0
    requires h.current in keys && keys[h.current] == h.keys[h.current]
    ensures var r := Encrypt(g, h, iv, name, pt);
            && r.Ok? && r.value != ""
            && VersionOf(r.value) == h.current
            && Reads(g, keys, name, r.value) == Some(pt)
  {
    OpenSealed(g, h.keys[h.current], iv, pt, name, name);
    ParseSealed(g, h.keys[h.current], iv, pt, name, h.current);
  }

  /** Decryption by a valid store: it succeeds exactly when the text reads under the held keys, and
      it hands out a rewrap exactly when the text is not on the current version. The rewrap says the
      same under the same name, on the current version. */
  lemma DecryptMeaning(g: Cipher, h: Held, iv: Nonce, name: string, packed: string, keys: map<int, Bytes>)
    requires ValidHeld(h)
    requires h.current != 0 ==> h.current in keys && keys[h.current] == h.keys[h.current]
    ensures var r := Decrypt(g, h, iv, name, packed);
            && (r.Ok? <==> Reads(g, h.keys, name, packed).Some?)
            && (r.Ok? ==>
                  && h.current != 0
                  && Some(r.value.plaintext) == Reads(g, h.keys, name, packed)
                  && (r.value.rewrapped == "" <==> VersionOf(packed) == h.current)
                  && (r.value.onCurrent <==> VersionOf(packed) == h.current)
                  && (r.value.rewrapped != "" ==>
                        && VersionOf(r.value.rewrapped) == h.current
                        && Reads(g, keys, name, r.value.rewrapped) == Some(r.value.plaintext)))
  {
    var r := Decrypt(g, h, iv, name, packed);
    if h.current != 0 && r.Ok? && VersionOf(packed) != h.current {
      EncryptReads(g, h, iv, name, r.value.plaintext, keys);
      ParseSealed(g, h.keys[h.current], iv, r.value.plaintext, name, h.current);
    }
    if h.current != 0 && Reads(g, h.keys, name, packed).Some? {
      OpenSealed(g, h.keys[h.current], iv, Reads(g, h.keys, name, packed).value, name, name);
    }
  }

  // ---------- the idle timer ----------

  /** A Go timer: armed for a deadline, fired (its callback runs or waits for the mutex), stopped
      in time, or done (its callback has returned). */
  datatype Timer = Armed(deadline: int) | Fired | Stopped | Done

  /** The clock and every timer the store has made. */
  datatype Clock = Clock(now: int, timers: seq<Timer>)

  datatype StoreState = StoreState(held: Held, ttl: int, expiresAt: int, timer: Option<nat>, clock: Clock)

  /** `timer.Stop()`: a fired timer can no longer be stopped. */
  function Stop(c: Clock, timer: Option<nat>): Clock {
    match timer
    case None => c
    case Some(t) => if t < |c.timers| && c.timers[t].Armed? then c.(timers := c.timers[t := Stopped]) else c
  }

  /** `armLocked`. */
  function Arm(s: StoreState): StoreState {
    if s.ttl <= 0 then s
    else
      var c := Stop(s.clock, s.timer);
      var deadline := c.now + s.ttl;
      s.(expiresAt := deadline, timer := Some(|c.timers|), clock := c.(timers := c.timers + [Armed(deadline)]))
  }

  /** `zeroizeLocked`. */
  function Zeroize(s: StoreState): StoreState {
    s.(held := LOCKED, timer := None, clock := Stop(s.clock, s.timer))
  }

  function HoldMulti(s: StoreState, keys: map<int, Bytes>, current: int, ttl: int): StoreState {
    if current !in keys then Zeroize(s)
    else Arm(Zeroize(s).(held := Held(keys, current), ttl := ttl))
  }

  function AddKey(s: StoreState, id: int, key: Bytes): StoreState {
    Arm(s.(held := Held(s.held.keys[id := key], id)))
  }

  function RemoveKeyError(s: StoreState, id: int): Option<StoreError> {
    if id == s.held.current then Some(CannotFinalizeCurrent)
    else if id !in s.held.keys then Some(UnknownVersion)
    else None
  }

  function RemoveKey(s: StoreState, id: int): StoreState {
    if RemoveKeyError(s, id).Some? then s
    else s.(held := s.held.(keys := s.held.keys - {id}))
  }

  /** The state after an Encrypt or Decrypt with outcome `ok`. */
  function Used(s: StoreState, ok: bool): StoreState {
    if ok then Arm(s) else s
  }

  /** The body of the timer callback, once it has the mutex. */
  function RunCallback(s: StoreState, t: nat): StoreState
    requires t < |s.clock.timers|
  {
    var z := Zeroize(s);
    z.(clock := z.clock.(timers := z.clock.timers[t := Done]))
  }

  /** Everything that can happen to a store. Calls hold the mutex, so each is one event. */
  datatype Event =
    | EvHold(keys: map<int, Bytes>, current: int, ttl: int)
    | EvAdd(id: int, key: Bytes)
    | EvRemove(id: int)
    | EvEncrypt(iv: Nonce, name: string, pt: Bytes)
    | EvDecrypt(iv: Nonce, name: string, packed: string)
    | EvLock
    | EvAdvance(to: int)
    | EvFire(timer: nat)
    | EvCallback(timer: nat)

  /** Time moves on only up to the next deadline: a timer that is due fires first. */
  predicate Enabled(s: StoreState, e: Event) {
    match e
    case EvHold(keys, _, _) => ValidKeys(keys)
    case EvAdd(id, key) => ValidId(id) && |key| == MASTER_KEY_LEN
    case EvAdvance(to) =>
      && s.clock.now <= to
      && forall t :: 0 <= t < |s.clock.timers| && s.clock.timers[t].Armed? ==> to <= s.clock.timers[t].deadline
    case EvFire(t) =>
      t < |s.clock.timers| && s.clock.timers[t].Armed? && s.clock.timers[t].deadline <= s.clock.now
    case EvCallback(t) => t < |s.clock.timers| && s.clock.timers[t] == Fired
    case _ => true
  }

  /** Whether the event is a use that restarts the idle time. */
  predicate IsUse(g: Cipher, s: StoreState, e: Event) {
    match e
    case EvHold(keys, current, _) => current in keys
    case EvAdd(_, _) => true
    case EvEncrypt(iv, name, pt) => Encrypt(g, s.held, iv, name, pt).Ok?
    case EvDecrypt(iv, name, packed) => Decrypt(g, s.held, iv, name, packed).Ok?
    case _ => false
  }

  function Apply(g: Cipher, s: StoreState, e: Event): StoreState
    requires Enabled(s, e)
  {
    match e
    case EvHold(keys, current, ttl) => HoldMulti(s, keys, current, ttl)
    case EvAdd(id, key) => AddKey(s, id, key)
    case EvRemove(id) => RemoveKey(s, id)
    case EvEncrypt(_, _, _) => Used(s, IsUse(g, s, e))
    case EvDecrypt(_, _, _) => Used(s, IsUse(g, s, e))
    case EvLock => Zeroize(s)
    case EvAdvance(to) => s.(clock := s.clock.(now := to))
    case EvFire(t) => s.(clock := s.clock.(timers := s.clock.timers[t := Fired]))
    case EvCallback(t) => RunCallback(s, t)
  }

  function New(now: int): StoreState {
    StoreState(LOCKED, 0, 0, None, Clock(now, []))
  }

  /** The events of a run are enabled one after the other. */
  predicate Legal(g: Cipher, s: StoreState, events: seq<Event>)
    decreases |events|
  {
    events == [] || (Enabled(s, events[0]) && Legal(g, Apply(g, s, events[0]), events[1..]))
  }

  function Final(g: Cipher, s: StoreState, events: seq<Event>): StoreState
    requires Legal(g, s, events)
    decreases |events|
  {
    if events == [] then s else Final(g, Apply(g, s, events[0]), events[1..])
  }

  /** When the store was last used with success, or `since` if it was not used. */
  function LastUse(g: Cipher, s: StoreState, events: seq<Event>, since: int): int
    requires Legal(g, s, events)
    decreases |events|
  {
    if events == [] then since
    else
      LastUse(g, Apply(g, s, events[0]), events[1..], if IsUse(g, s, events[0]) then s.clock.now else since)
  }

  /** The guarantee: an unlocked store with an expiry has a timer armed for the end of its idle
      time, or the callback of that timer waits to lock it. */
  predicate WillLock(s: StoreState, lastUse: int) {
    s.held.current != 0 && s.ttl > 0 ==>
      && s.timer.Some?
      && s.timer.value < |s.clock.timers|
      && match s.clock.timers[s.timer.value]
         case Armed(deadline) => deadline == lastUse + s.ttl && s.clock.now <= deadline
         case Fired => true
         case _ => false
  }

  predicate TimerInv(s: StoreState, lastUse: int) {
    && ValidHeld(s.held)
    && WillLock(s, lastUse)
    && (s.held.current != 0 && s.ttl > 0 ==> s.expiresAt == lastUse + s.ttl)
    && (s.timer.Some? ==> s.timer.value < |s.clock.timers| && s.clock.timers[s.timer.value] != Done)
    && forall t :: 0 <= t < |s.clock.timers| && s.clock.timers[t].Armed? ==>
                     s.timer == Some(t) && s.clock.now <= s.clock.timers[t].deadline
  }

  lemma UsedKeepsInv(s: StoreState, ok: bool, lastUse: int)
    requires TimerInv(s, lastUse)
    ensures TimerInv(Used(s, ok), if ok then s.clock.now else lastUse)
  {}

  lemma HoldKeepsInv(s: StoreState, keys: map<int, Bytes>, current: int, ttl: int, lastUse: int)
    requires TimerInv(s, lastUse) && ValidKeys(keys)
    ensures TimerInv(HoldMulti(s, keys, current, ttl), if current in keys then s.clock.now else lastUse)
  {
    if current in keys {
      assert keys != map[];
      assert ValidId(current);
    }
  }

  lemma AddKeepsInv(s: StoreState, id: int, key: Bytes, lastUse: int)
    requires TimerInv(s, lastUse) && ValidId(id) && |key| == MASTER_KEY_LEN
    ensures TimerInv(AddKey(s, id, key), s.clock.now)
  {
    assert id in AddKey(s, id, key).held.keys;
  }

  lemma RemoveKeepsInv(s: StoreState, id: int, lastUse: int)
    requires TimerInv(s, lastUse)
    ensures TimerInv(RemoveKey(s, id), lastUse)
  {
    if RemoveKeyError(s, id).None? {
      assert s.held.current in s.held.keys - {id};
    }
  }

  lemma CallbackKeepsInv(s: StoreState, t: nat, lastUse: int)
    requires TimerInv(s, lastUse) && t < |s.clock.timers| && s.clock.timers[t] == Fired
    ensures TimerInv(RunCallback(s, t), lastUse)
  {}

  lemma ApplyKeepsInv(g: Cipher, s: StoreState, e: Event, lastUse: int)
    requires TimerInv(s, lastUse) && Enabled(s, e)
    ensures TimerInv(Apply(g, s, e), if IsUse(g, s, e) then s.clock.now else lastUse)
  {
    match e {
      case EvHold(keys, current, ttl) => HoldKeepsInv(s, keys, current, ttl, lastUse);
      case EvAdd(id, key) => AddKeepsInv(s, id, key, lastUse);
      case EvRemove(id) => RemoveKeepsInv(s, id, lastUse);
      case EvEncrypt(_, _, _) => UsedKeepsInv(s, IsUse(g, s, e), lastUse);
      case EvDecrypt(_, _, _) => UsedKeepsInv(s, IsUse(g, s, e), lastUse);
      case EvCallback(t) => CallbackKeepsInv(s, t, lastUse);
      case _ =>
    }
  }

  lemma {:induction false} RunKeepsInv(g: Cipher, s: StoreState, events: seq<Event>, since: int)
    requires TimerInv(s, since) && Legal(g, s, events)
    ensures TimerInv(Final(g, s, events), LastUse(g, s, events, since))
    decreases |events|
  {
    if events != [] {
      ApplyKeepsInv(g, s, events[0], since);
      RunKeepsInv(g, Apply(g, s, events[0]), events[1..], if IsUse(g, s, events[0]) then s.clock.now else since);
    }
  }

  /** In every interleaving of calls, clock steps and timer callbacks, an unlocked store with an
      expiry will be locked by a timer armed for exactly ttl after its last successful use, or by a
      callback that already waits; past that moment such a callback is waiting, and running it locks
      the store. */
  lemma AlwaysWillLock(g: Cipher, start: int, events: seq<Event>)
    requires Legal(g, New(start), events)
    ensures var s := Final(g, New(start), events);
            var lastUse := LastUse(g, New(start), events, start);
            && ValidHeld(s.held)
            && WillLock(s, lastUse)
            && (s.held.current != 0 && s.ttl > 0 && s.clock.now > lastUse + s.ttl ==>
                  && s.clock.timers[s.timer.value] == Fired
                  && Apply(g, s, EvCallback(s.timer.value)).held == LOCKED)
  {
    RunKeepsInv(g, New(start), events, start);
  }
}
