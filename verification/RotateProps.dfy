/** What a rotation and a finalization mean for the keys on disk. */
module RotateProps {
  import opened Wrappers
  import opened Maps
  import opened Hex
  import opened Gcm
  import opened Envelope
  import opened Rotate

  lemma LastIsNew(keys: seq<KeyEnvelope>)
    requires DistinctIds(keys) && keys != []
    ensures var front, last := keys[..|keys| - 1], keys[|keys| - 1];
            && DistinctIds(front) && (forall k <- front :: k.id != last.id)
            && Ids(keys) == Ids(front) + {last.id}
            && forall k <- keys :: k in front || k == last
  {
    var front, last := keys[..|keys| - 1], keys[|keys| - 1];
    assert keys == front + [last];
    IdsSnoc(front, last);
    forall k | k in front
      ensures k.id != last.id
    {
      var i :| 0 <= i < |front| && front[i] == k;
      assert keys[i] == k && keys[|keys| - 1] == last;
    }
  }

  lemma LastNotAmong(keys: seq<KeyEnvelope>, id: int)
    requires forall k <- keys :: k.id != id
    ensures id !in Ids(keys)
  {
    forall i | 0 <= i < |keys|
      ensures keys[i].id != id
    {
      assert keys[i] in keys;
    }
  }

  lemma {:induction false} UnwrapAllIs(g: Cipher, keys: seq<KeyEnvelope>, password: string, m: map<int, Bytes>)
    requires DistinctIds(keys) && Ids(keys) == m.Keys
    requires forall k <- keys :: Unwrap(g, k, password) == Ok(m[k.id])
    ensures UnwrapAll(g, keys, password) == Ok(m)
  {
    if keys == [] {
      assert m == map[] by {
        SameMap(m, map[]);
      }
    } else {
      var front, last := keys[..|keys| - 1], keys[|keys| - 1];
      LastIsNew(keys);
      LastNotAmong(front, last.id);
      UnwrapAllIs(g, front, password, m - {last.id});
      PutBack(m, last.id);
    }
  }

  /** Distinct ids: every key of the file is in the unwrapped map, and nothing else is. */
  lemma {:induction false} UnwrapAllEach(g: Cipher, keys: seq<KeyEnvelope>, password: string)
    requires DistinctIds(keys) && UnwrapAll(g, keys, password).Ok?
    ensures var m := UnwrapAll(g, keys, password).value;
            m.Keys == Ids(keys) && forall k <- keys :: Unwrap(g, k, password) == Ok(m[k.id])
  {
    UnwrapAllShape(g, keys, password);
    if keys != [] {
      LastIsNew(keys);
      UnwrapAllEach(g, keys[..|keys| - 1], password);
    }
  }

  lemma {:induction false} StampsEach(keys: seq<KeyEnvelope>)
    requires DistinctIds(keys)
    ensures Stamps(keys).Keys == Ids(keys)
    ensures forall k <- keys :: k.id in Stamps(keys) && Stamps(keys)[k.id] == k.created
  {
    if keys != [] {
      LastIsNew(keys);
      StampsEach(keys[..|keys| - 1]);
    }
  }

  /** Re-wrapped keys open under the password to exactly the keys that were wrapped. */
  lemma RewrappedOpens(g: Cipher, before: seq<KeyEnvelope>, mks: map<int, Bytes>, password: string, now: string,
                       after: seq<KeyEnvelope>)
    requires Rewrapped(g, before, mks, password, now, after)
    ensures DistinctIds(after) && UnwrapAll(g, after, password) == Ok(mks)
  {
    UnwrapAllIs(g, after, password, mks);
  }

  /** A file whose current key it holds loads as itself. */
  lemma LoadsItself(g: Cipher, f: EnvFile, password: string, now: string)
    requires f.current in Ids(f.keys) && f.current != 0 && UnwrapAll(g, f.keys, password).Ok? && DistinctIds(f.keys)
    ensures LoadAndUnwrap(g, Multi(f), password, now) == Ok(f)
  {
    FindIn(f.keys, f.current);
    UnwrapAllEach(g, f.keys, password);
  }

  /** A rotation of a file with distinct ids: ids increase, the old keys keep their ids, a fresh key
      gets an id above all of them and becomes current, everything opens under the new password, and
      keys that had a Created stamp keep it. */
  lemma RotationMeaning(g: Cipher, f: EnvFile, oldPass: string, newPass: string, freshKey: Option<Bytes>, now: string,
                        after: Disk)
    requires DistinctIds(f.keys) && f.current in Ids(f.keys) && f.current != 0
    requires Rotated(g, f, oldPass, newPass, freshKey, now, after)
    ensures IncreasingIds(after.file.keys)
    ensures LoadAndUnwrap(g, after, newPass, now) == Ok(after.file)
    ensures var m := UnwrapAll(g, f.keys, oldPass).value;
            && (freshKey.None? ==> UnwrapAll(g, after.file.keys, newPass) == Ok(m) && after.file.current == f.current)
            && (freshKey.Some? ==>
                  && after.file.current == NextId(f)
                  && (forall id :: id in m ==> id < NextId(f))
                  && UnwrapAll(g, after.file.keys, newPass) == Ok(m[NextId(f) := freshKey.value]))
    ensures forall k <- f.keys, k' <- after.file.keys :: k.id == k'.id && k.created != "" ==> k'.created == k.created
  {
    var m := UnwrapAll(g, f.keys, oldPass).value;
    var (mks, current) := Rotation(f, m, freshKey);
    RewrappedOpens(g, f.keys, mks, newPass, now, after.file.keys);
    UnwrapAllShape(g, f.keys, oldPass);
    StampsEach(f.keys);
    LoadsItself(g, after.file, newPass, now);
  }

  /** A finalization of a file with distinct ids removes one key and keeps every other. */
  lemma FinalizationMeaning(g: Cipher, f: EnvFile, pass: string, id: int, now: string, after: Disk)
    requires DistinctIds(f.keys) && f.current in Ids(f.keys) && f.current != 0
    requires UnwrapAll(g, f.keys, pass).Ok?
    requires Finalized(g, f, pass, id, now, after)
    ensures IncreasingIds(after.file.keys) && after.file.current == f.current
    ensures UnwrapAll(g, after.file.keys, pass) == Ok(UnwrapAll(g, f.keys, pass).value - {id})
    ensures LoadAndUnwrap(g, after, pass, now) == Ok(after.file)
  {
    var m := UnwrapAll(g, f.keys, pass).value - {id};
    WithoutOpens(g, f.keys, id, pass);
    UnwrapAllShape(g, f.keys, pass);
    RewrappedOpens(g, Without(f.keys, id), m, pass, now, after.file.keys);
    LoadsItself(g, after.file, pass, now);
  }

  /** What is left of the file still opens, without the one key. */
  lemma WithoutOpens(g: Cipher, keys: seq<KeyEnvelope>, id: int, pass: string)
    requires DistinctIds(keys) && UnwrapAll(g, keys, pass).Ok?
    ensures UnwrapAll(g, Without(keys, id), pass) == Ok(UnwrapAll(g, keys, pass).value - {id})
  {
    WithoutMembers(keys, id);
    WithoutIs(keys, id);
    UnwrapAllEach(g, keys, pass);
    UnwrapAllIs(g, Without(keys, id), pass, UnwrapAll(g, keys, pass).value - {id});
  }
}
