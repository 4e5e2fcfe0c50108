/** Bob's key store with its real byte buffers (internal/keystore/keystore.go). Every method is one
    critical section of the mutex and is proved against KeystoreSpec. */
module Keystore {
  import opened Wrappers
  import opened Maps
  import opened Hex
  import opened Gcm
  import opened Versions
  import Spec = KeystoreSpec

  type Buffer = array<Byte>

  ghost function Contents(buffers: map<int, Buffer>): (m: map<int, Bytes>)
    reads buffers.Values
    ensures m.Keys == buffers.Keys
  {
    map id | id in buffers :: buffers[id][..]
  }

  ghost predicate Distinct(buffers: map<int, Buffer>) {
    forall i, j :: i in buffers && j in buffers && i != j ==> buffers[i] != buffers[j]
  }

  ghost predicate AllZero(b: Buffer)
    reads b
  {
    forall i :: 0 <= i < b.Length ==> b[i] == 0
  }

  /** `crypto.Wipe`. */
  method Wipe(b: Buffer)
    modifies b
    ensures AllZero(b)
  {
    for i := 0 to b.Length
      invariant forall j :: 0 <= j < i ==> b[j] == 0
    {
      b[i] := 0;
    }
  }

  /** The loop `for _, k := range mks { crypto.Wipe(k) }`. */
  method WipeAll(buffers: map<int, Buffer>)
    modifies buffers.Values
    ensures forall b :: b in buffers.Values ==> AllZero(b)
  {
    var rest := buffers.Keys;
    while rest != {}
      invariant rest <= buffers.Keys
      invariant forall id :: id in buffers && id !in rest ==> AllZero(buffers[id])
    {
      var id := PickKey(rest);
      Wipe(buffers[id]);
      rest := rest - {id};
    }
    forall b | b in buffers.Values
      ensures AllZero(b)
    {
      var id := KeyOf(buffers, b);
    }
  }

  /** `make` and `copy`: a buffer of the store's own. */
  method Copy(b: Buffer) returns (c: Buffer)
    ensures fresh(c) && c[..] == b[..]
  {
    c := new Byte[b.Length];
    for i := 0 to b.Length
      invariant c[..i] == b[..i]
    {
      c[i] := b[i];
    }
    assert c[..] == c[..b.Length] && b[..] == b[..b.Length];
  }

  /** The loop of `HoldMulti` over the caller's keys. */
  method CopyAll(given: map<int, Buffer>) returns (owned: map<int, Buffer>)
    ensures fresh(owned.Values) && Distinct(owned)
    ensures Contents(owned) == Contents(given)
  {
    owned := map[];
    var rest := given.Keys;
    while rest != {}
      invariant rest <= given.Keys && owned.Keys == given.Keys - rest
      invariant forall id :: id in owned ==> fresh(owned[id]) && owned[id][..] == given[id][..]
      invariant Distinct(owned)
    {
      var id := PickKey(rest);
      var c := Copy(given[id]);
      owned := owned[id := c];
      rest := rest - {id};
    }
    forall b | b in owned.Values
      ensures fresh(b)
    {
      var id := KeyOf(owned, b);
    }
    SameMap(Contents(owned), Contents(given));
  }

  class Store {
    const g: Cipher
    var keys: map<int, Buffer>
    var current: int
    var ttl: int
    var expiresAt: int
    var timer: Option<nat>
    var clock: Spec.Clock

    ghost function Buffers(): set<Buffer>
      reads this
    {
      keys.Values
    }

    ghost predicate Valid()
      reads this
    {
      Distinct(keys)
    }

    ghost function View(): Spec.StoreState
      reads this, Buffers()
    {
      Spec.StoreState(Spec.Held(Contents(keys), current), ttl, expiresAt, timer, clock)
    }

    constructor (g: Cipher, now: int)
      ensures Valid() && fresh(Buffers()) && View() == Spec.New(now) && this.g == g
    {
      this.g := g;
      keys, current, ttl, expiresAt, timer, clock := map[], 0, 0, 0, None, Spec.Clock(now, []);
    }

    /** `armLocked`. */
    method ArmLocked()
      modifies `expiresAt, `timer, `clock
      ensures View() == Spec.Arm(old(View()))
    {
      if ttl <= 0 {
        return;
      }
      expiresAt := clock.now + ttl;
      clock := Spec.Stop(clock, timer);
      timer, clock := Some(|clock.timers|), clock.(timers := clock.timers + [Spec.Armed(expiresAt)]);
    }

    /** `zeroizeLocked`: every held buffer is overwritten before it is dropped. */
    method ZeroizeLocked()
      requires Valid()
      modifies this, Buffers()
      ensures Valid() && keys == map[] && View() == Spec.Zeroize(old(View()))
      ensures forall b :: b in old(Buffers()) ==> AllZero(b)
    {
      clock, timer := Spec.Stop(clock, timer), None;
      WipeAll(keys);
      keys, current := map[], 0;
    }

    /** The end of `HoldMulti`. */
    method Install(owned: map<int, Buffer>, current: int, ttl: int)
      requires Distinct(owned)
      modifies this
      ensures Valid() && keys == owned
      ensures View() == Spec.Arm(old(View()).(held := Spec.Held(Contents(owned), current), ttl := ttl))
    {
      keys, this.current, this.ttl := owned, current, ttl;
      ArmLocked();
    }

    /** The store copies what it is given: the buffers it holds afterwards are new. */
    method HoldMulti(given: map<int, Buffer>, current: int, ttl: int)
      requires Valid() && given.Values !! Buffers()
      modifies this, Buffers()
      ensures Valid() && fresh(Buffers())
      ensures View() == Spec.HoldMulti(old(View()), Contents(given), current, ttl)
      ensures forall b :: b in old(Buffers()) ==> AllZero(b)
    {
      ZeroizeLocked();
      if current !in given {
        return;
      }
      var owned := CopyAll(given);
      Install(owned, current, ttl);
    }

    method AddKey(id: int, key: Buffer)
      requires Valid()
      modifies this
      ensures Valid() && fresh(Buffers() - old(Buffers())) && key !in Buffers() - old(Buffers())
      ensures View() == Spec.AddKey(old(View()), id, key[..])
    {
      var c := Copy(key);
      Put(id, c);
    }

    /** The end of `AddKey`, with a buffer of the store's own. */
    method Put(id: int, own: Buffer)
      requires Valid() && own !in Buffers()
      modifies this
      ensures Valid() && Buffers() <= old(Buffers()) + {own}
      ensures View() == Spec.AddKey(old(View()), id, own[..])
    {
      ghost var before := Contents(keys);
      keys, current := keys[id := own], id;
      assert Contents(keys) == before[id := own[..]] by {
        SameMap(Contents(keys), before[id := own[..]]);
      }
      forall b | b in Buffers()
        ensures b in old(Buffers()) + {own}
      {
        var k := KeyOf(keys, b);
      }
      ArmLocked();
    }

    method RemoveKey(id: int) returns (err: Option<Spec.StoreError>)
      requires Valid()
      modifies this, Buffers()
      ensures Valid() && Buffers() <= old(Buffers())
      ensures err == Spec.RemoveKeyError(old(View()), id) && View() == Spec.RemoveKey(old(View()), id)
      ensures err.None? ==> AllZero(old(keys)[id])
    {
      if id == current {
        return Some(Spec.CannotFinalizeCurrent);
      }
      if id !in keys {
        return Some(Spec.UnknownVersion);
      }
      ghost var before := Contents(keys);
      Wipe(keys[id]);
      keys := keys - {id};
      assert Contents(keys) == before - {id} by {
        forall k | k in keys
          ensures keys[k][..] == before[k]
        {
          assert keys[k] != old(keys)[id];
        }
        SameMap(Contents(keys), before - {id});
      }
      forall b | b in Buffers()
        ensures b in old(Buffers())
      {
        var k := KeyOf(keys, b);
      }
      return None;
    }

    /** Seals under the current key. The random nonce is a parameter. */
    method Encrypt(iv: Nonce, name: string, pt: Bytes) returns (r: Result<string, Spec.StoreError>)
      requires Valid()
      modifies this
      ensures Valid() && keys == old(keys)
      ensures r == Spec.Encrypt(g, old(View()).held, iv, name, pt)
      ensures View() == Spec.Used(old(View()), r.Ok?)
    {
      if current == 0 {
        return Err(Spec.Locked);
      }
      if current !in keys {
        return Err(Spec.Locked);
      }
      var sealed := SealText(g, keys[current][..], iv, pt, name);
      if sealed.Err? {
        return Err(Spec.Crypto(sealed.error));
      }
      ArmLocked();
      return Ok(PackVersion(current, sealed.value));
    }

    /** Opens a stored text and, if it is not on the current version, seals it again. */
    method Decrypt(iv: Nonce, name: string, packed: string) returns (r: Result<Spec.Opened, Spec.StoreError>)
      requires Valid()
      modifies this
      ensures Valid() && keys == old(keys)
      ensures r == Spec.Decrypt(g, old(View()).held, iv, name, packed)
      ensures View() == Spec.Used(old(View()), r.Ok?)
    {
      if current == 0 {
        return Err(Spec.Locked);
      }
      var parsed := ParseVersion(packed);
      if parsed.Err? {
        return Err(Spec.BadVersion(parsed.error));
      }
      var (ver, raw) := parsed.value;
      if ver !in keys {
        return Err(Spec.UnknownVersion);
      }
      var plain := OpenText(g, keys[ver][..], raw, name);
      if plain.Err? {
        return Err(Spec.Crypto(plain.error));
      }
      if ver == current {
        ArmLocked();
        return Ok(Spec.Opened(plain.value, "", true));
      }
      var cur: Bytes := if current in keys then keys[current][..] else [];
      var sealed := SealText(g, cur, iv, plain.value, name);
      if sealed.Err? {
        return Err(Spec.Crypto(sealed.error));
      }
      ArmLocked();
      return Ok(Spec.Opened(plain.value, PackVersion(current, sealed.value), false));
    }

    method Zeroize()
      requires Valid()
      modifies this, Buffers()
      ensures Valid() && View() == Spec.Zeroize(old(View()))
      ensures forall b :: b in old(Buffers()) ==> AllZero(b)
    {
      ZeroizeLocked();
    }

    /** The timer callback, once it has the mutex. */
    method TimerCallback(t: nat)
      requires Valid() && t < |clock.timers|
      modifies this, Buffers()
      ensures Valid() && View() == Spec.RunCallback(old(View()), t)
      ensures forall b :: b in old(Buffers()) ==> AllZero(b)
    {
      ZeroizeLocked();
      clock := clock.(timers := clock.timers[t := Spec.Done]);
    }
  }

  /** The end of `cmdServe`: the store takes the keys, then the originals are wiped. Wiping them
      does not change what the store holds. */
  method HoldThenWipe(store: Store, mks: map<int, Buffer>, current: int, ttl: int)
    requires store.Valid() && mks.Values !! store.Buffers()
    modifies store, store.Buffers(), mks.Values
    ensures store.Valid() && fresh(store.Buffers())
    ensures store.View() == Spec.HoldMulti(old(store.View()), old(Contents(mks)), current, ttl)
    ensures forall b :: b in mks.Values ==> AllZero(b)
  {
    store.HoldMulti(mks, current, ttl);
    WipeAll(mks);
  }
}
