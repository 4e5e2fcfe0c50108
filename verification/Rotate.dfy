/** Rotating, re-wrapping and retiring master keys on disk (cmd/bob/rotate.go). */
module Rotate {
  import opened Wrappers
  import opened Maps
  import opened Hex
  import opened Gcm
  import opened Envelope
  import opened Keystore

  const SALT_LEN := 16

  // ---------- specification ----------

  /** `unwrapAll`: the key of every version, or the first failure. */
  function UnwrapAll(g: Cipher, keys: seq<KeyEnvelope>, password: string): Result<map<int, Bytes>, EnvError> {
    if keys == [] then Ok(map[])
    else AndUnwrap(g, UnwrapAll(g, keys[..|keys| - 1], password), keys[|keys| - 1], password)
  }

  function AndUnwrap(g: Cipher, front: Result<map<int, Bytes>, EnvError>, last: KeyEnvelope, password: string)
    : Result<map<int, Bytes>, EnvError>
  {
    match front
    case Err(e) => Err(e)
    case Ok(m) =>
      match Unwrap(g, last, password)
      case Err(e) => Err(e)
      case Ok(key) => Ok(m[last.id := key])
  }

  lemma UnwrapSnoc(g: Cipher, keys: seq<KeyEnvelope>, i: nat, password: string)
    requires i < |keys|
    ensures UnwrapAll(g, keys[..i + 1], password) == AndUnwrap(g, UnwrapAll(g, keys[..i], password), keys[i], password)
  {
    assert keys[..i + 1][..i] == keys[..i];
  }

  /** The Created stamps by id, as `rewrapAll` collects them. */
  function Stamps(keys: seq<KeyEnvelope>): map<int, string> {
    if keys == [] then map[]
    else
      var last := keys[|keys| - 1];
      Stamps(keys[..|keys| - 1])[last.id := last.created]
  }

  function Stamp(keys: seq<KeyEnvelope>, id: int, now: string): string {
    if id in Stamps(keys) && Stamps(keys)[id] != "" then Stamps(keys)[id] else now
  }

  /** What `rewrapAll` leaves: each key once, by increasing id, opening under the password. Salts
      and nonces are random, so this is a relation. */
  ghost predicate Rewrapped(g: Cipher, before: seq<KeyEnvelope>, mks: map<int, Bytes>, password: string, now: string,
                            after: seq<KeyEnvelope>)
  {
    && IncreasingIds(after)
    && Ids(after) == mks.Keys
    && forall k <- after :: Unwrap(g, k, password) == Ok(mks[k.id]) && k.created == Stamp(before, k.id, now)
  }

  /** `loadAndUnwrapEnvelope`: the file, if the password opens its current key. */
  function LoadAndUnwrap(g: Cipher, d: Disk, password: string, now: string): Result<EnvFile, EnvError> {
    var f :- Load(d, now);
    match Find(f.keys, f.current)
    case None => Err(NoCurrentKey)
    case Some(k) =>
      match Unwrap(g, k, password)
      case Err(e) => Err(e)
      case Ok(_) => Ok(f)
  }

  function NextId(f: EnvFile): int {
    MaxId(f.keys, 0) + 1
  }

  /** The keys a rotation wraps: those of the file and, if there is one, the fresh key. */
  function Rotation(f: EnvFile, mks: map<int, Bytes>, freshKey: Option<Bytes>): (map<int, Bytes>, int) {
    match freshKey
    case None => (mks, f.current)
    case Some(k) => (mks[NextId(f) := k], NextId(f))
  }

  ghost predicate Rotated(g: Cipher, f: EnvFile, oldPass: string, newPass: string, freshKey: Option<Bytes>, now: string,
                          after: Disk)
  {
    && UnwrapAll(g, f.keys, oldPass).Ok?
    && after.Multi?
    && var (mks, current) := Rotation(f, UnwrapAll(g, f.keys, oldPass).value, freshKey);
       after.file.current == current && Rewrapped(g, f.keys, mks, newPass, now, after.file.keys)
  }

  ghost predicate Finalized(g: Cipher, f: EnvFile, pass: string, id: int, now: string, after: Disk) {
    && id != f.current
    && Find(f.keys, id).Some?
    && UnwrapAll(g, Without(f.keys, id), pass).Ok?
    && after.Multi?
    && after.file.current == f.current
    && Rewrapped(g, Without(f.keys, id), UnwrapAll(g, Without(f.keys, id), pass).value, pass, now, after.file.keys)
  }

  // ---------- the commands ----------

  /** Bob's state directory, as far as the master keys go. */
  class BobDir {
    var envelope: Disk

    constructor (d: Disk)
      ensures envelope == d
    {
      envelope := d;
    }
  }

  /** `unwrapAll`. On failure the keys opened so far are wiped. */
  method UnwrapEach(g: Cipher, file: EnvelopeFile, password: string)
    returns (mks: map<int, Buffer>, err: Option<EnvError>)
    ensures fresh(mks.Values)
    ensures err.None? ==> UnwrapAll(g, file.keys, password) == Ok(Contents(mks))
    ensures err.Some? ==> UnwrapAll(g, file.keys, password) == Err(err.value)
  {
    mks, err := map[], None;
    var i := 0;
    while i < |file.keys|
      invariant 0 <= i <= |file.keys|
      invariant fresh(mks.Values)
      invariant UnwrapAll(g, file.keys[..i], password) == Ok(Contents(mks))
    {
      var env := file.keys[i];
      var key := Unwrap(g, env, password);
      UnwrapSnoc(g, file.keys, i, password);
      if key.Err? {
        UnwrapAllFails(g, file.keys, i, password);
        WipeAll(mks);
        return map[], Some(key.error);
      }
      var buffer := NewBuffer(key.value);
      mks := AddBuffer(mks, env.id, buffer);
      i := i + 1;
    }
    assert file.keys[..i] == file.keys;
  }

  lemma {:induction false} UnwrapAllFails(g: Cipher, keys: seq<KeyEnvelope>, i: nat, password: string)
    requires i < |keys| && UnwrapAll(g, keys[..i], password).Ok? && Unwrap(g, keys[i], password).Err?
    ensures UnwrapAll(g, keys, password) == Err(Unwrap(g, keys[i], password).error)
    decreases |keys|
  {
    var front := keys[..|keys| - 1];
    if i == |front| {
      LastFails(g, keys, password);
    } else {
      SameFront(keys, i);
      UnwrapAllFails(g, front, i, password);
    }
  }

  lemma LastFails(g: Cipher, keys: seq<KeyEnvelope>, password: string)
    requires keys != [] && UnwrapAll(g, keys[..|keys| - 1], password).Ok? && Unwrap(g, keys[|keys| - 1], password).Err?
    ensures UnwrapAll(g, keys, password) == Err(Unwrap(g, keys[|keys| - 1], password).error)
  {}

  lemma SameFront(keys: seq<KeyEnvelope>, i: nat)
    requires i < |keys| - 1
    ensures var front := keys[..|keys| - 1];
            front[..i] == keys[..i] && front[i] == keys[i]
  {}

  /** The exchange sort at the end of `rewrapAll`. */
  method SortById(a: array<KeyEnvelope>)
    requires DistinctIds(a[..])
    modifies a
    ensures IncreasingIds(a[..])
    ensures forall k :: k in a[..] <==> k in old(a[..])
  {
    var i := 0;
    while i < a.Length
      invariant 0 <= i <= a.Length
      invariant DistinctIds(a[..]) && forall k :: k in a[..] <==> k in old(a[..])
      invariant forall p, q :: 0 <= p < i && p < q < a.Length ==> a[p].id < a[q].id
    {
      var j := i + 1;
      while j < a.Length
        invariant i < j <= a.Length
        invariant DistinctIds(a[..]) && forall k :: k in a[..] <==> k in old(a[..])
        invariant forall p, q :: 0 <= p < i && p < q < a.Length ==> a[p].id < a[q].id
        invariant forall q :: i < q < j ==> a[i].id < a[q].id
      {
        if a[j].id < a[i].id {
          ghost var s := a[..];
          a[i], a[j] := a[j], a[i];
          assert a[..] == s[i := s[j]][j := s[i]];
          SwapKeeps(s, i, j);
        } else {
          assert a[..][i].id != a[..][j].id;
        }
        j := j + 1;
      }
      i := i + 1;
    }
  }

  method Sorted(keys: seq<KeyEnvelope>) returns (sorted: seq<KeyEnvelope>)
    requires DistinctIds(keys)
    ensures IncreasingIds(sorted) && forall k :: k in sorted <==> k in keys
  {
    var a := new KeyEnvelope[|keys|](i requires 0 <= i < |keys| => keys[i]);
    assert a[..] == keys;
    SortById(a);
    return a[..];
  }

  lemma SwapKeeps(s: seq<KeyEnvelope>, i: nat, j: nat)
    requires i < j < |s| && DistinctIds(s)
    ensures var t := s[i := s[j]][j := s[i]];
            DistinctIds(t) && forall k :: k in t <==> k in s
  {
    var t := s[i := s[j]][j := s[i]];
    forall k | k in s
      ensures k in t
    {
      var p :| 0 <= p < |s| && s[p] == k;
      assert t[if p == i then j else if p == j then i else p] == k;
    }
  }

  /** One turn of the loop of `rewrapAll`: wrap one key under fresh randomness. */
  method WrapOne(g: Cipher, key: Buffer, password: string, id: int, created: string) returns (k: KeyEnvelope)
    requires key.Length == MASTER_KEY_LEN
    ensures k.id == id && k.created == created && Unwrap(g, k, password) == Ok(key[..])
  {
    assert |seq(SALT_LEN, _ => 0)| == SALT_LEN && |seq(NONCE_LEN, _ => 0)| == NONCE_LEN;
    var salt: Bytes :| |salt| == SALT_LEN;
    var iv: Bytes :| |iv| == NONCE_LEN;
    UnwrapWrapped(g, key[..], password, salt, iv, id, created);
    k := Wrap(g, key[..], password, salt, iv, id, created).value;
  }

  lemma IdsSnoc(front: seq<KeyEnvelope>, last: KeyEnvelope)
    ensures Ids(front + [last]) == Ids(front) + {last.id}
  {
    var keys := front + [last];
    assert forall i :: 0 <= i < |front| ==> keys[i] == front[i];
    assert keys[|front|] == last;
  }

  ghost predicate WrappedFrom(g: Cipher, before: seq<KeyEnvelope>, mks: map<int, Bytes>, password: string, now: string,
                              k: KeyEnvelope)
  {
    k.id in mks && Unwrap(g, k, password) == Ok(mks[k.id]) && k.created == Stamp(before, k.id, now)
  }

  /** The first loop of `rewrapAll`, in whatever order Go ranges over the map. */
  method WrapEach(g: Cipher, before: seq<KeyEnvelope>, mks: map<int, Buffer>, password: string, now: string)
    returns (newKeys: seq<KeyEnvelope>)
    requires forall id :: id in mks ==> mks[id].Length == MASTER_KEY_LEN
    ensures DistinctIds(newKeys) && Ids(newKeys) == mks.Keys
    ensures forall k <- newKeys :: WrappedFrom(g, before, Contents(mks), password, now, k)
  {
    var created := Stamps(before);
    newKeys := [];
    var rest := mks.Keys;
    while rest != {}
      invariant rest <= mks.Keys && Ids(newKeys) == mks.Keys - rest
      invariant DistinctIds(newKeys)
      invariant forall k <- newKeys :: WrappedFrom(g, before, Contents(mks), password, now, k)
    {
      var id := PickKey(rest);
      var k := WrapOne(g, mks[id], password, id, if id in created && created[id] != "" then created[id] else now);
      assert WrappedFrom(g, before, Contents(mks), password, now, k);
      IdsSnoc(newKeys, k);
      forall i | 0 <= i < |newKeys|
        ensures newKeys[i].id != id
      {
        assert newKeys[i].id in Ids(newKeys);
      }
      newKeys := newKeys + [k];
      rest := rest - {id};
    }
  }

  lemma SameIds(s: seq<KeyEnvelope>, t: seq<KeyEnvelope>)
    requires forall k :: k in s <==> k in t
    ensures Ids(s) == Ids(t)
  {
    forall id | id in Ids(s)
      ensures id in Ids(t)
    {
      var p :| 0 <= p < |s| && s[p].id == id;
      assert s[p] in t;
    }
    forall id | id in Ids(t)
      ensures id in Ids(s)
    {
      var p :| 0 <= p < |t| && t[p].id == id;
      assert t[p] in s;
    }
  }

  /** `rewrapAll`. */
  method RewrapAll(g: Cipher, file: EnvelopeFile, mks: map<int, Buffer>, password: string, now: string)
    requires forall id :: id in mks ==> mks[id].Length == MASTER_KEY_LEN
    modifies file
    ensures file.current == old(file.current)
    ensures Rewrapped(g, old(file.keys), old(Contents(mks)), password, now, file.keys)
  {
    var newKeys := WrapEach(g, file.keys, mks, password, now);
    file.keys := Sorted(newKeys);
    SameIds(file.keys, newKeys);
  }

  method LoadForCommand(g: Cipher, dir: BobDir, password: string, now: string)
    returns (file: EnvelopeFile, err: Option<EnvError>)
    ensures fresh(file)
    ensures match LoadAndUnwrap(g, dir.envelope, password, now)
            case Ok(f) => err == None && file.View() == f
            case Err(e) => err == Some(e)
  {
    var loaded := Load(dir.envelope, now);
    if loaded.Err? {
      file := new EnvelopeFile(EnvFile([], 0));
      return file, Some(loaded.error);
    }
    file := new EnvelopeFile(loaded.value);
    var cur := file.FindKey(file.current);
    if cur.None? {
      return file, Some(NoCurrentKey);
    }
    var key := Unwrap(g, cur.value, password);
    err := if key.Err? then Some(key.error) else None;
  }

  lemma AndUnwrapShape(g: Cipher, front: map<int, Bytes>, last: KeyEnvelope, password: string)
    requires AndUnwrap(g, Ok(front), last, password).Ok?
    requires forall id :: id in front ==> |front[id]| == MASTER_KEY_LEN
    ensures var m := AndUnwrap(g, Ok(front), last, password).value;
            && m.Keys == front.Keys + {last.id}
            && forall id :: id in m ==> |m[id]| == MASTER_KEY_LEN
  {}

  lemma {:induction false} UnwrapAllShape(g: Cipher, keys: seq<KeyEnvelope>, password: string)
    requires UnwrapAll(g, keys, password).Ok?
    ensures var m := UnwrapAll(g, keys, password).value;
            && m.Keys == Ids(keys)
            && forall id :: id in m ==> |m[id]| == MASTER_KEY_LEN
  {
    if keys != [] {
      var front, last := keys[..|keys| - 1], keys[|keys| - 1];
      UnwrapAllShape(g, front, password);
      AndUnwrapShape(g, UnwrapAll(g, front, password).value, last, password);
      IdsSnoc(front, last);
      assert keys == front + [last];
    }
  }

  lemma RotationLengths(g: Cipher, f: EnvFile, oldPass: string, freshKey: Option<Bytes>)
    requires UnwrapAll(g, f.keys, oldPass).Ok? && (freshKey.Some? ==> |freshKey.value| == MASTER_KEY_LEN)
    ensures var mks := Rotation(f, UnwrapAll(g, f.keys, oldPass).value, freshKey).0;
            forall id :: id in mks ==> |mks[id]| == MASTER_KEY_LEN
  {
    UnwrapAllShape(g, f.keys, oldPass);
  }

  lemma Lengths(mks: map<int, Buffer>)
    requires forall id :: id in Contents(mks) ==> |Contents(mks)[id]| == MASTER_KEY_LEN
    ensures forall id :: id in mks ==> mks[id].Length == MASTER_KEY_LEN
  {
    assert forall id :: id in mks ==> Contents(mks)[id] == mks[id][..];
  }

  lemma IsRotated(g: Cipher, f: EnvFile, oldPass: string, newPass: string, freshKey: Option<Bytes>, now: string,
                  written: EnvFile)
    requires UnwrapAll(g, f.keys, oldPass).Ok?
    requires var (mks, current) := Rotation(f, UnwrapAll(g, f.keys, oldPass).value, freshKey);
             written.current == current && Rewrapped(g, f.keys, mks, newPass, now, written.keys)
    ensures Rotated(g, f, oldPass, newPass, freshKey, now, Multi(written))
  {}

  /** The shared end of the rotating commands: add the fresh key if there is one, re-wrap, write. */
  method AddAndWrite(g: Cipher, dir: BobDir, file: EnvelopeFile, oldPass: string, newPass: string,
                     freshKey: Option<Bytes>, now: string)
    returns (err: Option<EnvError>)
    requires freshKey.Some? ==> |freshKey.value| == MASTER_KEY_LEN
    modifies dir, file
    ensures err.None? <==> UnwrapAll(g, old(file.keys), oldPass).Ok?
    ensures err.None? ==> Rotated(g, old(file.View()), oldPass, newPass, freshKey, now, dir.envelope)
    ensures err.Some? ==> dir.envelope == old(dir.envelope)
  {
    var mks, failed := UnwrapEach(g, file, oldPass);
    if failed.Some? {
      return failed;
    }
    mks := AddAndRewrap(g, file, mks, oldPass, newPass, freshKey, now);
    dir.envelope := Multi(file.View());
    WipeAll(mks);
    return None;
  }

  method AddAndRewrap(g: Cipher, file: EnvelopeFile, mks: map<int, Buffer>, ghost oldPass: string, newPass: string,
                      freshKey: Option<Bytes>, now: string)
    returns (r: map<int, Buffer>)
    requires freshKey.Some? ==> |freshKey.value| == MASTER_KEY_LEN
    requires UnwrapAll(g, file.keys, oldPass) == Ok(Contents(mks))
    modifies file
    ensures Rotated(g, old(file.View()), oldPass, newPass, freshKey, now, Multi(file.View()))
    ensures fresh(r.Values - mks.Values)
  {
    ghost var f := file.View();
    r := AddFresh(file, mks, freshKey);
    RotationLengths(g, f, oldPass, freshKey);
    Lengths(r);
    RewrapAll(g, file, r, newPass, now);
    IsRotated(g, f, oldPass, newPass, freshKey, now, file.View());
  }

  method AddFresh(file: EnvelopeFile, mks: map<int, Buffer>, freshKey: Option<Bytes>) returns (r: map<int, Buffer>)
    modifies file
    ensures file.keys == old(file.keys)
    ensures (Contents(r), file.current) == Rotation(old(file.View()), old(Contents(mks)), freshKey)
    ensures fresh(r.Values - mks.Values)
  {
    r := mks;
    if freshKey.Some? {
      var buffer := NewBuffer(freshKey.value);
      var newID := file.NextID();
      r := AddBuffer(mks, newID, buffer);
      file.current := newID;
    }
  }

  method NewBuffer(key: Bytes) returns (buffer: Buffer)
    ensures fresh(buffer) && buffer[..] == key
  {
    buffer := new Byte[|key|](j requires 0 <= j < |key| => key[j]);
    assert buffer[..] == key;
  }

  method AddBuffer(mks: map<int, Buffer>, id: int, buffer: Buffer) returns (r: map<int, Buffer>)
    ensures r == mks[id := buffer] && r.Values <= mks.Values + {buffer}
    ensures Contents(r) == Contents(mks)[id := buffer[..]]
  {
    r := mks[id := buffer];
    SameMap(Contents(r), Contents(mks)[id := buffer[..]]);
    forall b | b in r.Values
      ensures b in mks.Values + {buffer}
    {
      var k := KeyOf(r, b);
    }
  }

  /** `rotate-master-key`: a fresh current key under the same password. */
  method RotateMasterKey(g: Cipher, dir: BobDir, password: string, freshKey: Bytes, now: string)
    returns (err: Option<EnvError>)
    requires |freshKey| == MASTER_KEY_LEN
    modifies dir
    ensures err.None? <==> LoadAndUnwrap(g, old(dir.envelope), password, now).Ok?
                           && UnwrapAll(g, LoadAndUnwrap(g, old(dir.envelope), password, now).value.keys, password).Ok?
    ensures err.None? ==> Rotated(g, LoadAndUnwrap(g, old(dir.envelope), password, now).value, password, password,
                                  Some(freshKey), now, dir.envelope)
    ensures err.Some? ==> dir.envelope == old(dir.envelope)
  {
    var file, failed := LoadForCommand(g, dir, password, now);
    if failed.Some? {
      return failed;
    }
    err := AddAndWrite(g, dir, file, password, password, Some(freshKey), now);
  }

  /** `rotate-master-password`: every key under a new password and, unless told otherwise, a fresh
      current key. */
  method RotateMasterPassword(g: Cipher, dir: BobDir, oldPass: string, newPass: string, freshKey: Option<Bytes>,
                              now: string)
    returns (err: Option<EnvError>)
    requires freshKey.Some? ==> |freshKey.value| == MASTER_KEY_LEN
    modifies dir
    ensures err.None? <==> LoadAndUnwrap(g, old(dir.envelope), oldPass, now).Ok? && newPass != oldPass
                           && UnwrapAll(g, LoadAndUnwrap(g, old(dir.envelope), oldPass, now).value.keys, oldPass).Ok?
    ensures err.None? ==> Rotated(g, LoadAndUnwrap(g, old(dir.envelope), oldPass, now).value, oldPass, newPass,
                                  freshKey, now, dir.envelope)
    ensures err.Some? ==> dir.envelope == old(dir.envelope)
  {
    var file, failed := LoadForCommand(g, dir, oldPass, now);
    if failed.Some? {
      return failed;
    }
    if newPass == oldPass {
      return Some(SamePassword);
    }
    err := AddAndWrite(g, dir, file, oldPass, newPass, freshKey, now);
  }

  /** `rotate-master-key --finalize <id>`: retire one key that is not the current one. */
  method Finalize(g: Cipher, dir: BobDir, password: string, id: int, confirmed: bool, now: string)
    returns (err: Option<EnvError>)
    modifies dir
    ensures err.None? <==> LoadAndUnwrap(g, old(dir.envelope), password, now).Ok? && confirmed
                           && var f := LoadAndUnwrap(g, old(dir.envelope), password, now).value;
                              && Find(f.keys, id).Some? && id != f.current
                              && UnwrapAll(g, Without(f.keys, id), password).Ok?
    ensures err.None? ==> Finalized(g, LoadAndUnwrap(g, old(dir.envelope), password, now).value, password, id, now,
                                    dir.envelope)
    ensures err.Some? ==> dir.envelope == old(dir.envelope)
  {
    var file, failed := LoadForCommand(g, dir, password, now);
    if failed.Some? {
      return failed;
    }
    var found := file.FindKey(id);
    if found.None? {
      return Some(NoSuchKey);
    }
    if id == file.current {
      return Some(KeyIsCurrent);
    }
    if !confirmed {
      return Some(NotConfirmed);
    }
    err := file.RemoveKey(id);
    if err.Some? {
      return;
    }
    err := AddAndWrite(g, dir, file, password, password, None, now);
  }
}
