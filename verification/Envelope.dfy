/** The wrapped master keys and their container (internal/crypto/envelope.go, crypto.go). */
module Envelope {
  import opened Wrappers
  import opened Hex
  import opened Gcm

  /** One wrapped key version (crypto.go's Envelope). */
  datatype KeyEnvelope = KeyEnvelope(
    id: int, created: string, salt: Bytes, params: Params, iv: string, tag: string, wrapped: string)

  /** The contents of envelope.json: the current form, or the single-key form that preceded it. */
  datatype Disk = Multi(file: EnvFile) | Legacy(single: KeyEnvelope)

  datatype EnvFile = EnvFile(keys: seq<KeyEnvelope>, current: int)

  datatype EnvError =
    | EmptyKeys | NoCurrentKey | BadPassword | WrongKeyLength | SealFailed(reason: CryptoError)
    | SamePassword | NoSuchKey | KeyIsCurrent | NotConfirmed

  const DEFAULT_PARAMS := Params(64 * 1024, 3, 1)

  /** `Wrap`; the random salt and nonce are parameters. The caller sets id and created. */
  function Wrap(g: Cipher, key: Bytes, password: string, salt: Bytes, iv: Nonce, id: int, created: string)
    : Result<KeyEnvelope, EnvError>
  {
    match SealText(g, g.kdf(password, salt, DEFAULT_PARAMS), iv, key, "")
    case Err(e) => Err(SealFailed(e))
    case Ok(packed) =>
      match SplitPacked(packed)
      case None => Ok(KeyEnvelope(id, created, salt, DEFAULT_PARAMS, "", "", ""))
      case Some((ivHex, tagHex, ctHex)) =>
        Ok(KeyEnvelope(id, created, salt, DEFAULT_PARAMS, ivHex, tagHex, ctHex))
  }

  function Unwrap(g: Cipher, env: KeyEnvelope, password: string): Result<Bytes, EnvError> {
    var p := if env.params.m == 0 || env.params.t == 0 || env.params.p == 0 then DEFAULT_PARAMS else env.params;
    match OpenText(g, g.kdf(password, env.salt, p), env.iv + ":" + env.tag + ":" + env.wrapped, "")
    case Err(_) => Err(BadPassword)
    case Ok(key) => if |key| != MASTER_KEY_LEN then Err(WrongKeyLength) else Ok(key)
  }

  lemma UnwrapWrapped(g: Cipher, key: Bytes, password: string, salt: Bytes, iv: Nonce, id: int, created: string)
    requires |key| == MASTER_KEY_LEN
    ensures var w := Wrap(g, key, password, salt, iv, id, created);
            && w.Ok? && w.value.id == id && w.value.created == created
            && Unwrap(g, w.value, password) == Ok(key)
  {
    var kek := g.kdf(password, salt, DEFAULT_PARAMS);
    OpenSealed(g, kek, iv, key, "", "");
    var packed := SealText(g, kek, iv, key, "").value;
    var ct := g.ctr(kek, iv, key);
    SealParts(g, kek, iv, key, "");
    EncodeNoColon(iv);
    EncodeNoColon(g.tag(kek, iv, ct, ""));
    SplitThree(Encode(iv), Encode(g.tag(kek, iv, ct, "")), Encode(ct));
  }

  // ---------- the container ----------

  function Ids(keys: seq<KeyEnvelope>): set<int> {
    set i | 0 <= i < |keys| :: keys[i].id
  }

  predicate DistinctIds(keys: seq<KeyEnvelope>) {
    forall i, j :: 0 <= i < j < |keys| ==> keys[i].id != keys[j].id
  }

  predicate IncreasingIds(keys: seq<KeyEnvelope>) {
    forall i, j :: 0 <= i < j < |keys| ==> keys[i].id < keys[j].id
  }

  /** The greatest id, or `floor` if no id is greater. */
  function MaxId(keys: seq<KeyEnvelope>, floor: int): (m: int)
    ensures m >= floor && (m == floor || m in Ids(keys))
    ensures forall id :: id in Ids(keys) ==> id <= m
  {
    if keys == [] then floor
    else
      var m := MaxId(keys[..|keys| - 1], floor);
      var last := keys[|keys| - 1];
      assert Ids(keys) == Ids(keys[..|keys| - 1]) + {last.id} by {
        assert forall i :: 0 <= i < |keys| ==> i == |keys| - 1 || keys[i] == keys[..|keys| - 1][i];
      }
      if last.id > m then last.id else m
  }

  function Find(keys: seq<KeyEnvelope>, id: int): Option<KeyEnvelope> {
    if keys == [] then None
    else if keys[0].id == id then Some(keys[0])
    else Find(keys[1..], id)
  }

  function Without(keys: seq<KeyEnvelope>, id: int): seq<KeyEnvelope> {
    if keys == [] then []
    else if keys[0].id == id then keys[1..]
    else [keys[0]] + Without(keys[1..], id)
  }

  /** `LoadEnvelopeFile` after JSON decoding: legacy files get id 1, a missing current is filled in. */
  function Load(d: Disk, now: string): Result<EnvFile, EnvError> {
    match d
    case Legacy(k) =>
      Ok(EnvFile([k.(id := 1, created := if k.created == "" then now else k.created)], 1))
    case Multi(f) =>
      if f.keys == [] then Err(EmptyKeys)
      else if f.current == 0 then Ok(f.(current := MaxId(f.keys, 0)))
      else Ok(f)
  }

  lemma {:induction false} FindIn(keys: seq<KeyEnvelope>, id: int)
    ensures Find(keys, id).Some? <==> id in Ids(keys)
    ensures Find(keys, id).Some? ==> Find(keys, id).value in keys && Find(keys, id).value.id == id
  {
    if keys != [] {
      FindIn(keys[1..], id);
      assert Ids(keys) == {keys[0].id} + Ids(keys[1..]) by {
        assert forall i :: 0 < i < |keys| ==> keys[i] == keys[1..][i - 1];
      }
    }
  }

  /** The first of some distinct ids is no other key's. */
  lemma HeadAlone(keys: seq<KeyEnvelope>, k: KeyEnvelope)
    requires DistinctIds(keys) && keys != [] && k in keys[1..]
    ensures k.id != keys[0].id
  {
    var i :| 0 <= i < |keys[1..]| && keys[1..][i] == k;
    assert keys[i + 1] == k;
  }

  lemma HeadOrTail(keys: seq<KeyEnvelope>, k: KeyEnvelope)
    requires keys != []
    ensures k in keys <==> k == keys[0] || k in keys[1..]
  {
    assert keys == [keys[0]] + keys[1..];
  }

  lemma TailDistinct(keys: seq<KeyEnvelope>)
    requires DistinctIds(keys) && keys != []
    ensures DistinctIds(keys[1..])
  {}

  lemma {:induction false} WithoutMember(keys: seq<KeyEnvelope>, id: int, k: KeyEnvelope)
    requires DistinctIds(keys)
    ensures k in Without(keys, id) <==> k in keys && k.id != id
  {
    if keys != [] {
      HeadOrTail(keys, k);
      TailDistinct(keys);
      WithoutMember(keys[1..], id, k);
      if k in keys[1..] {
        HeadAlone(keys, k);
      }
    }
  }

  lemma PrependDistinct(k: KeyEnvelope, keys: seq<KeyEnvelope>)
    requires DistinctIds(keys) && forall q <- keys :: q.id != k.id
    ensures DistinctIds([k] + keys)
  {
    assert forall i :: 0 <= i < |keys| ==> keys[i] in keys;
  }

  lemma {:induction false} WithoutDistinct(keys: seq<KeyEnvelope>, id: int)
    requires DistinctIds(keys)
    ensures DistinctIds(Without(keys, id))
  {
    if keys != [] {
      TailDistinct(keys);
      if keys[0].id != id {
        WithoutDistinct(keys[1..], id);
        forall q | q in Without(keys[1..], id)
          ensures q.id != keys[0].id
        {
          WithoutMember(keys[1..], id, q);
          HeadAlone(keys, q);
        }
        PrependDistinct(keys[0], Without(keys[1..], id));
      }
    }
  }

  lemma WithoutMembers(keys: seq<KeyEnvelope>, id: int)
    requires DistinctIds(keys)
    ensures forall k :: k in Without(keys, id) <==> k in keys && k.id != id
    ensures DistinctIds(Without(keys, id))
  {
    WithoutDistinct(keys, id);
    forall k
      ensures k in Without(keys, id) <==> k in keys && k.id != id
    {
      WithoutMember(keys, id, k);
    }
  }

  lemma {:induction false} WithoutIncreasing(keys: seq<KeyEnvelope>, id: int)
    requires IncreasingIds(keys)
    ensures IncreasingIds(Without(keys, id))
  {
    if keys != [] && keys[0].id != id {
      var rest := keys[1..];
      WithoutIncreasing(rest, id);
      forall k | k in Without(rest, id)
        ensures keys[0].id < k.id
      {
        WithoutMember(rest, id, k);
        HeadLeast(keys, k);
      }
      PrependIncreasing(keys[0], Without(rest, id));
    }
  }

  lemma HeadLeast(keys: seq<KeyEnvelope>, k: KeyEnvelope)
    requires IncreasingIds(keys) && keys != [] && k in keys[1..]
    ensures keys[0].id < k.id
  {
    var i :| 0 <= i < |keys[1..]| && keys[1..][i] == k;
    assert keys[i + 1] == k;
  }

  lemma PrependIncreasing(k: KeyEnvelope, keys: seq<KeyEnvelope>)
    requires IncreasingIds(keys) && forall q <- keys :: k.id < q.id
    ensures IncreasingIds([k] + keys)
  {
    assert forall i :: 0 <= i < |keys| ==> keys[i] in keys;
  }

  /** Removing an id that occurs once removes that key and nothing else. */
  lemma WithoutIs(keys: seq<KeyEnvelope>, id: int)
    requires DistinctIds(keys)
    ensures Ids(Without(keys, id)) == Ids(keys) - {id}
    ensures forall k :: k in Without(keys, id) <==> k in keys && k.id != id
  {
    WithoutMembers(keys, id);
    var w := Without(keys, id);
    forall i | i in Ids(keys) - {id}
      ensures i in Ids(w)
    {
      var j :| 0 <= j < |keys| && keys[j].id == i;
      assert keys[j] in w;
    }
    forall i | i in Ids(w)
      ensures i in Ids(keys) - {id}
    {
      var j :| 0 <= j < |w| && w[j].id == i;
      assert w[j] in keys;
    }
  }

  /** One step of searching for an id. */
  lemma SearchStep(keys: seq<KeyEnvelope>, id: int, i: nat)
    requires i < |keys|
    ensures keys[i].id == id ==> Find(keys[i..], id) == Some(keys[i]) && Without(keys[i..], id) == keys[i + 1..]
    ensures keys[i].id != id ==>
              && Find(keys[i..], id) == Find(keys[i + 1..], id)
              && keys[..i] + Without(keys[i..], id) == keys[..i + 1] + Without(keys[i + 1..], id)
  {
    assert keys[i..][0] == keys[i] && keys[i..][1..] == keys[i + 1..];
    if keys[i].id != id {
      Regrouped(keys[..i], keys[i], Without(keys[i + 1..], id));
      assert keys[..i + 1] == keys[..i] + [keys[i]];
    }
  }

  lemma Regrouped(a: seq<KeyEnvelope>, k: KeyEnvelope, b: seq<KeyEnvelope>)
    ensures a + ([k] + b) == a + [k] + b
  {}

  /** crypto.go's EnvelopeFile, as loaded by one command. */
  class EnvelopeFile {
    var keys: seq<KeyEnvelope>
    var current: int

    function View(): EnvFile
      reads this
    {
      EnvFile(keys, current)
    }

    constructor (f: EnvFile)
      ensures View() == f
    {
      keys, current := f.keys, f.current;
    }

    method FindKey(id: int) returns (found: Option<KeyEnvelope>)
      ensures found == Find(keys, id)
    {
      var i := 0;
      while i < |keys|
        invariant 0 <= i <= |keys|
        invariant Find(keys, id) == Find(keys[i..], id)
      {
        if keys[i].id == id {
          return Some(keys[i]);
        }
        SearchStep(keys, id, i);
        i := i + 1;
      }
      return None;
    }

    /** One more than the greatest id in use, so never an id in use. */
    method NextID() returns (next: int)
      ensures next == MaxId(keys, 0) + 1
    {
      var max := 0;
      var i := 0;
      while i < |keys|
        invariant 0 <= i <= |keys|
        invariant max == MaxId(keys[..i], 0)
      {
        assert keys[..i + 1][..i] == keys[..i];
        if keys[i].id > max {
          max := keys[i].id;
        }
        i := i + 1;
      }
      assert keys[..i] == keys;
      return max + 1;
    }

    method RemoveKey(id: int) returns (err: Option<EnvError>)
      modifies this
      ensures current == old(current)
      ensures err == if id == current then Some(KeyIsCurrent)
                     else if Find(old(keys), id).None? then Some(NoSuchKey) else None
      ensures keys == if err.None? then Without(old(keys), id) else old(keys)
    {
      if id == current {
        return Some(KeyIsCurrent);
      }
      var i := 0;
      while i < |keys|
        invariant 0 <= i <= |keys|
        invariant keys == old(keys) && current == old(current)
        invariant Find(keys, id) == Find(keys[i..], id)
        invariant Without(keys, id) == keys[..i] + Without(keys[i..], id)
      {
        SearchStep(keys, id, i);
        if keys[i].id == id {
          keys := keys[..i] + keys[i + 1..];
          return None;
        }
        i := i + 1;
      }
      assert keys[i..] == [];
      return Some(NoSuchKey);
    }
  }
}
