/** Bob's oracle (internal/server/server.go) and the alice commands that migrate a vault through it
    (cmd/alice/rekey.go, cmd/alice/main.go). */
module Server {
  import opened Wrappers
  import opened Maps
  import opened Hex
  import opened Gcm
  import Spec = KeystoreSpec
  import Keystore
  import RateLimit
  import opened LocalVault

  datatype ServeError =
    | RateLimited | Unauthorized(key: string) | LengthMismatch | Failed(reason: Spec.StoreError)

  // ---------- specification ----------

  /** All outcomes if every one is good, else the first failure. */
  function Collect<T, E>(rs: seq<Result<T, E>>): Result<seq<T>, E> {
    if rs == [] then Ok([])
    else
      var front :- Collect(rs[..|rs| - 1]);
      var o :- rs[|rs| - 1];
      Ok(front + [o])
  }

  lemma {:induction false} CollectEach<T, E>(rs: seq<Result<T, E>>)
    ensures Collect(rs).Ok? <==> forall i :: 0 <= i < |rs| ==> rs[i].Ok?
    ensures Collect(rs).Ok? ==> |Collect(rs).value| == |rs|
                                && forall i :: 0 <= i < |rs| ==> rs[i] == Ok(Collect(rs).value[i])
  {
    if rs != [] {
      CollectEach(rs[..|rs| - 1]);
      assert forall i :: 0 <= i < |rs| - 1 ==> rs[..|rs| - 1][i] == rs[i];
    }
  }

  lemma {:induction false} CollectFails<T, E>(rs: seq<Result<T, E>>, i: nat)
    requires i < |rs| && Collect(rs[..i]).Ok? && rs[i].Err?
    ensures Collect(rs) == Err(rs[i].error)
    decreases |rs|
  {
    var n := |rs| - 1;
    if i < n {
      assert rs[..n][..i] == rs[..i];
      CollectFails(rs[..n], i);
    }
  }

  /** The outcome of each item of a batch. */
  function Outcomes(g: Cipher, h: Spec.Held, ivs: seq<Nonce>, keys: seq<string>, packed: seq<string>)
    : seq<Result<Spec.Opened, Spec.StoreError>>
    requires |ivs| == |keys| == |packed|
  {
    seq(|packed|, i requires 0 <= i < |packed| => Spec.Decrypt(g, h, ivs[i], keys[i], packed[i]))
  }

  lemma OutcomesSnoc(g: Cipher, h: Spec.Held, ivs: seq<Nonce>, iv: Nonce, keys: seq<string>, packed: seq<string>)
    requires |ivs| < |keys| == |packed|
    ensures var i := |ivs|;
            Outcomes(g, h, ivs + [iv], keys[..i + 1], packed[..i + 1])
            == Outcomes(g, h, ivs, keys[..i], packed[..i]) + [Spec.Decrypt(g, h, iv, keys[i], packed[i])]
  {
    var i := |ivs|;
    var all, k, p := ivs + [iv], keys[..i + 1], packed[..i + 1];
    forall j | 0 <= j < i
      ensures Outcomes(g, h, all, k, p)[j] == Outcomes(g, h, ivs, keys[..i], packed[..i])[j]
    {
      assert all[j] == ivs[j] && k[j] == keys[..i][j] && p[j] == packed[..i][j];
    }
  }

  lemma CollectSnoc(g: Cipher, h: Spec.Held, ivs: seq<Nonce>, iv: Nonce, keys: seq<string>, packed: seq<string>)
    requires |ivs| < |keys| == |packed|
    requires Collect(Outcomes(g, h, ivs, keys[..|ivs|], packed[..|ivs|])).Ok?
    requires Spec.Decrypt(g, h, iv, keys[|ivs|], packed[|ivs|]).Ok?
    ensures Collect(Outcomes(g, h, ivs + [iv], keys[..|ivs| + 1], packed[..|ivs| + 1]))
         == Ok(Collect(Outcomes(g, h, ivs, keys[..|ivs|], packed[..|ivs|])).value
               + [Spec.Decrypt(g, h, iv, keys[|ivs|], packed[|ivs|]).value])
  {
    var i := |ivs|;
    OutcomesSnoc(g, h, ivs, iv, keys, packed);
    var rs := Outcomes(g, h, ivs, keys[..i], packed[..i]);
    assert (rs + [Spec.Decrypt(g, h, iv, keys[i], packed[i])])[..i] == rs;
  }

  /** A batch that fails at its i-th item fails as that item does, whatever nonces the rest would have had. */
  lemma BatchFails(g: Cipher, h: Spec.Held, ivs: seq<Nonce>, iv: Nonce, keys: seq<string>, packed: seq<string>)
    returns (all: seq<Nonce>)
    requires |ivs| < |keys| == |packed|
    requires Collect(Outcomes(g, h, ivs, keys[..|ivs|], packed[..|ivs|])).Ok?
    requires Spec.Decrypt(g, h, iv, keys[|ivs|], packed[|ivs|]).Err?
    ensures |all| == |keys|
    ensures DecryptAll(g, h, all, keys, packed) == Err(Spec.Decrypt(g, h, iv, keys[|ivs|], packed[|ivs|]).error)
  {
    all := ivs + seq(|keys| - |ivs|, _ => iv);
    OutcomesFront(g, h, ivs, all, keys, packed);
    CollectFails(Outcomes(g, h, all, keys, packed), |ivs|);
  }

  lemma OutcomesFront(g: Cipher, h: Spec.Held, ivs: seq<Nonce>, all: seq<Nonce>, keys: seq<string>, packed: seq<string>)
    requires |ivs| <= |all| == |keys| == |packed| && all[..|ivs|] == ivs
    ensures Outcomes(g, h, all, keys, packed)[..|ivs|] == Outcomes(g, h, ivs, keys[..|ivs|], packed[..|ivs|])
  {}

  /** Decrypting a batch: all or nothing. */
  function DecryptAll(g: Cipher, h: Spec.Held, ivs: seq<Nonce>, keys: seq<string>, packed: seq<string>)
    : Result<seq<Spec.Opened>, Spec.StoreError>
    requires |ivs| == |keys| == |packed|
  {
    Collect(Outcomes(g, h, ivs, keys, packed))
  }

  function Plaintexts(os: seq<Spec.Opened>): seq<Bytes> {
    seq(|os|, i requires 0 <= i < |os| => os[i].plaintext)
  }

  function Rewraps(os: seq<Spec.Opened>): seq<string> {
    seq(|os|, i requires 0 <= i < |os| => os[i].rewrapped)
  }

  lemma ReplySnoc(os: seq<Spec.Opened>, o: Spec.Opened)
    ensures Plaintexts(os + [o]) == Plaintexts(os) + [o.plaintext]
    ensures Rewraps(os + [o]) == Rewraps(os) + [o.rewrapped]
    ensures NoRewrap(os + [o]) <==> NoRewrap(os) && o.rewrapped == ""
  {
    var all := os + [o];
    assert all[|os|] == o && forall i :: 0 <= i < |os| ==> all[i] == os[i];
  }

  predicate NoRewrap(os: seq<Spec.Opened>) {
    forall i :: 0 <= i < |os| ==> os[i].rewrapped == ""
  }

  /** The rewraps of the reply; the field is left out when there are none. */
  function RewrapField(os: seq<Spec.Opened>): seq<string> {
    if NoRewrap(os) then [] else Rewraps(os)
  }

  lemma DecryptAllEach(g: Cipher, h: Spec.Held, ivs: seq<Nonce>, keys: seq<string>, packed: seq<string>)
    requires |ivs| == |keys| == |packed|
    ensures var r := DecryptAll(g, h, ivs, keys, packed);
            && (r.Ok? <==> forall i :: 0 <= i < |packed| ==> Spec.Decrypt(g, h, ivs[i], keys[i], packed[i]).Ok?)
            && (r.Ok? ==> |r.value| == |packed|
                          && forall i :: 0 <= i < |packed| ==>
                               Spec.Decrypt(g, h, ivs[i], keys[i], packed[i]) == Ok(r.value[i]))
  {
    var rs := Outcomes(g, h, ivs, keys, packed);
    CollectEach(rs);
    assert forall i :: 0 <= i < |packed| ==> rs[i] == Spec.Decrypt(g, h, ivs[i], keys[i], packed[i]);
  }

  /** The vault after the entries `names` were decrypted by Bob and the rewraps written back; None
      if Bob refused, and then nothing is written. */
  function Migrated(g: Cipher, h: Spec.Held, ivs: seq<Nonce>, names: seq<string>, v: Secrets): Option<Secrets>
    requires |ivs| == |names| && forall i :: 0 <= i < |names| ==> names[i] in v
  {
    match DecryptAll(g, h, ivs, names, Values(v, names))
    case Err(_) => None
    case Ok(os) => Some(if RewrapField(os) == [] || |os| != |names| then v else Applied(v, names, Rewraps(os)))
  }

  function Values(v: Secrets, names: seq<string>): seq<string>
    requires forall i :: 0 <= i < |names| ==> names[i] in v
  {
    seq(|names|, i requires 0 <= i < |names| => v[names[i]].value)
  }

  /** What a migration did to one entry: nothing if it was on the current version, else Value and
      KeyEpoch moved to the current version and the entry reads as before under its name. */
  predicate EntryMigrated(g: Cipher, h: Spec.Held, keys: map<int, Bytes>, name: string, before: SecretEntry,
                          after: SecretEntry)
  {
    && Spec.Reads(g, h.keys, name, before.value).Some?
    && Spec.VersionOf(after.value) == h.current
    && Spec.Reads(g, keys, name, after.value) == Spec.Reads(g, h.keys, name, before.value)
    && after == (if Spec.VersionOf(before.value) == h.current then before
                 else before.(value := after.value, keyEpoch := h.current))
  }

  /** The meaning of a write-back: it happens exactly when every named entry reads under the store's
      keys; it moves every named entry and touches no other. */
  lemma MigratedMeaning(g: Cipher, h: Spec.Held, keys: map<int, Bytes>, ivs: seq<Nonce>, names: seq<string>, v: Secrets)
    requires |ivs| == |names| && NoRepeats(names) && forall i :: 0 <= i < |names| ==> names[i] in v
    requires Spec.ValidHeld(h)
    requires h.current != 0 ==> h.current in keys && keys[h.current] == h.keys[h.current]
    requires forall i :: 0 <= i < |names| && Spec.VersionOf(v[names[i]].value) == h.current ==>
                           Spec.Reads(g, keys, names[i], v[names[i]].value)
                           == Spec.Reads(g, h.keys, names[i], v[names[i]].value)
    ensures var r := Migrated(g, h, ivs, names, v);
            && (r.Some? <==> forall i :: 0 <= i < |names| ==> Spec.Reads(g, h.keys, names[i], v[names[i]].value).Some?)
            && (r.Some? ==>
                  && r.value.Keys == v.Keys
                  && (forall i :: 0 <= i < |names| ==>
                        EntryMigrated(g, h, keys, names[i], v[names[i]], r.value[names[i]]))
                  && (forall n :: n in v && n !in names ==> r.value[n] == v[n]))
  {
    var packed := Values(v, names);
    DecryptAllEach(g, h, ivs, names, packed);
    forall i | 0 <= i < |names|
      ensures Spec.Decrypt(g, h, ivs[i], names[i], packed[i]).Ok?
              <==> Spec.Reads(g, h.keys, names[i], v[names[i]].value).Some?
    {
      Spec.DecryptMeaning(g, h, ivs[i], names[i], packed[i], keys);
    }
    var r := DecryptAll(g, h, ivs, names, packed);
    if r.Ok? {
      var os := r.value;
      AppliedAt(v, names, Rewraps(os));
      forall i | 0 <= i < |names|
        ensures EntryMigrated(g, h, keys, names[i], v[names[i]], Migrated(g, h, ivs, names, v).value[names[i]])
      {
        Spec.DecryptMeaning(g, h, ivs[i], names[i], packed[i], keys);
      }
    }
  }

  // ---------- the server ----------

  class Server {
    const store: Keystore.Store
    const allowed: (string, string) -> bool
    const limiter: RateLimit.RateLimiter

    constructor (store: Keystore.Store, allowed: (string, string) -> bool, limiter: RateLimit.RateLimiter)
      ensures this.store == store && this.allowed == allowed && this.limiter == limiter
    {
      this.store, this.allowed, this.limiter := store, allowed, limiter;
    }

    /** `guard`: authorization for every key of the request. */
    method Guard(identity: string, keys: seq<string>) returns (err: Option<ServeError>)
      ensures err.None? <==> forall k <- keys :: allowed(identity, k)
      ensures err.Some? ==> err.value.Unauthorized? && err.value.key in keys && !allowed(identity, err.value.key)
    {
      for i := 0 to |keys|
        invariant forall j :: 0 <= j < i ==> allowed(identity, keys[j])
      {
        if !allowed(identity, keys[i]) {
          return Some(Unauthorized(keys[i]));
        }
      }
      return None;
    }

    /** `dispatch` for encrypt: guarded, never rate-limited. */
    method EncryptOne(identity: string, key: string, pt: Bytes, iv: Nonce) returns (r: Result<string, ServeError>)
      requires store.Valid()
      modifies store
      ensures store.Valid() && store.keys == old(store.keys) && store.View().held == old(store.View().held)
      ensures r == if !allowed(identity, key) then Err(Unauthorized(key))
                   else match Spec.Encrypt(store.g, old(store.View().held), iv, key, pt)
                        case Ok(packed) => Ok(packed)
                        case Err(e) => Err(Failed(e))
    {
      var denied := Guard(identity, [key]);
      if denied.Some? {
        return Err(denied.value);
      }
      assert key in [key];
      var one := store.Encrypt(iv, key, pt);
      r := if one.Err? then Err(Failed(one.error)) else Ok(one.value);
    }

    /** `dispatch` for decrypt: the rate limit first, then the guard. */
    method DecryptOne(identity: string, key: string, packed: string, now: real, iv: Nonce)
      returns (r: Result<(Bytes, string), ServeError>)
      requires store.Valid()
      modifies store, limiter
      ensures store.Valid() && store.keys == old(store.keys) && store.View().held == old(store.View().held)
      ensures var (admitted, bucket) := Spent(identity, old(limiter.buckets), now);
              && limiter.buckets == old(limiter.buckets)[identity := bucket]
              && r == if !admitted then Err(RateLimited)
                      else if !allowed(identity, key) then Err(Unauthorized(key))
                      else match Spec.Decrypt(store.g, old(store.View().held), iv, key, packed)
                           case Ok(o) => Ok((o.plaintext, o.rewrapped))
                           case Err(e) => Err(Failed(e))
    {
      var ok := limiter.Allow(identity, now);
      if !ok {
        return Err(RateLimited);
      }
      var denied := Guard(identity, [key]);
      if denied.Some? {
        return Err(denied.value);
      }
      assert key in [key];
      var one := store.Decrypt(iv, key, packed);
      r := if one.Err? then Err(Failed(one.error)) else Ok((one.value.plaintext, one.value.rewrapped));
    }

    /** Whether the identity's bucket admits a call, and the bucket afterwards. */
    function Spent(identity: string, buckets: RateLimit.Buckets, now: real): (bool, RateLimit.Bucket) {
      RateLimit.AllowOne(RateLimit.BucketOf(buckets, identity), limiter.limit(identity) as real, now)
    }

    predicate AllAllowed(identity: string, keys: seq<string>) {
      forall k <- keys :: allowed(identity, k)
    }

    /** `dispatch` for decryptMany: the rate limit, the guard, the lengths, then all or nothing. */
    method DecryptMany(identity: string, keys: seq<string>, packed: seq<string>, now: real)
      returns (r: Result<(seq<Bytes>, seq<string>), ServeError>, ghost ivs: seq<Nonce>)
      requires store.Valid()
      modifies store, limiter
      ensures store.Valid() && store.keys == old(store.keys) && store.View().held == old(store.View().held)
      ensures limiter.buckets == old(limiter.buckets)[identity := Spent(identity, old(limiter.buckets), now).1]
      ensures !Spent(identity, old(limiter.buckets), now).0 ==> r == Err(RateLimited)
      ensures Spent(identity, old(limiter.buckets), now).0 && !AllAllowed(identity, keys) ==>
                r.Err? && r.error.Unauthorized? && r.error.key in keys && !allowed(identity, r.error.key)
      ensures Spent(identity, old(limiter.buckets), now).0 && AllAllowed(identity, keys) && |keys| != |packed| ==>
                r == Err(LengthMismatch)
      ensures Spent(identity, old(limiter.buckets), now).0 && AllAllowed(identity, keys) && |keys| == |packed| ==>
                && |ivs| == |keys|
                && match DecryptAll(store.g, old(store.View().held), ivs, keys, packed)
                   case Ok(os) => r == Ok((Plaintexts(os), RewrapField(os)))
                   case Err(e) => r == Err(Failed(e))
    {
      ivs := [];
      var ok := limiter.Allow(identity, now);
      if !ok {
        return Err(RateLimited), [];
      }
      var denied := Guard(identity, keys);
      if denied.Some? {
        return Err(denied.value), [];
      }
      if |keys| != |packed| {
        return Err(LengthMismatch), [];
      }
      r, ivs := DecryptEach(keys, packed);
    }

    /** The loop of decryptMany. */
    method DecryptEach(keys: seq<string>, packed: seq<string>)
      returns (r: Result<(seq<Bytes>, seq<string>), ServeError>, ghost ivs: seq<Nonce>)
      requires store.Valid() && |keys| == |packed|
      modifies store
      ensures store.Valid() && store.keys == old(store.keys) && store.View().held == old(store.View().held)
      ensures |ivs| == |keys|
      ensures match DecryptAll(store.g, old(store.View().held), ivs, keys, packed)
              case Ok(os) => r == Ok((Plaintexts(os), RewrapField(os)))
              case Err(e) => r == Err(Failed(e))
    {
      ghost var h := store.View().held;
      var pts: seq<Bytes>, rewraps: seq<string>, rewrapCount := [], [], 0;
      ghost var os: seq<Spec.Opened> := [];
      ivs := [];
      var i := 0;
      while i < |packed|
        invariant 0 <= i <= |packed| && |ivs| == |os| == i
        invariant store.Valid() && store.keys == old(store.keys) && store.View().held == h
        invariant Collect(Outcomes(store.g, h, ivs, keys[..i], packed[..i])) == Ok(os)
        invariant pts == Plaintexts(os) && rewraps == Rewraps(os)
        invariant rewrapCount >= 0 && (rewrapCount == 0 <==> NoRewrap(os))
      {
        var iv: Nonce := *;
        var one := store.Decrypt(iv, keys[i], packed[i]);
        if one.Err? {
          ghost var all := BatchFails(store.g, h, ivs, iv, keys, packed);
          return Err(Failed(one.error)), all;
        }
        CollectSnoc(store.g, h, ivs, iv, keys, packed);
        ReplySnoc(os, one.value);
        ivs := ivs + [iv];
        os := os + [one.value];
        pts := pts + [one.value.plaintext];
        rewraps := rewraps + [one.value.rewrapped];
        if one.value.rewrapped != "" {
          rewrapCount := rewrapCount + 1;
        }
        i := i + 1;
      }
      assert keys[..i] == keys && packed[..i] == packed;
      r := Ok((pts, if rewrapCount > 0 then rewraps else []));
    }
  }

  // ---------- alice rekey ----------

  /** The range over the vault that fills `keys`. */
  method Names(v: Secrets) returns (names: seq<string>)
    ensures NoRepeats(names) && forall n :: n in names <==> n in v
  {
    names := [];
    var rest := v.Keys;
    while rest != {}
      invariant rest <= v.Keys && NoRepeats(names)
      invariant forall n :: n in names <==> n in v && n !in rest
    {
      var n := PickKey(rest);
      names := names + [n];
      rest := rest - {n};
    }
  }

  /** What a successful rekey did to the vault. */
  ghost predicate Rekeyed(g: Cipher, h: Spec.Held, before: Secrets, after: Secrets) {
    && after.Keys == before.Keys
    && forall n :: n in before ==> EntryMigrated(g, h, h.keys, n, before[n], after[n])
  }

  /** When a batch over the whole vault succeeds: there is nothing to ask, or the limiter admits the
      call, every name is allowed and every entry reads under Bob's keys. */
  ghost predicate Served(server: Server, identity: string, now: real, buckets: RateLimit.Buckets, keys: map<int, Bytes>,
                         v: Secrets)
  {
    || v == map[]
    || (&& server.Spent(identity, buckets, now).0
        && (forall n :: n in v ==> server.allowed(identity, n))
        && forall n :: n in v ==> Spec.Reads(server.store.g, keys, n, v[n].value).Some?)
  }

  /** One batch over the whole vault, as `alice rekey` and `decryptAllValues` make it, with the
      rewraps written back. On failure the vault is as it was. */
  method ReadAll(local: LocalStore, server: Server, identity: string, now: real)
    returns (r: Result<(seq<string>, seq<Bytes>), ServeError>)
    requires server.store.Valid() && Spec.ValidHeld(server.store.View().held)
    modifies local, server.store, server.limiter
    ensures r.Err? ==> local.file == old(local.file)
    ensures r.Ok? ==> Rekeyed(server.store.g, old(server.store.View().held), old(local.file), local.file)
    ensures r.Ok? ==> AllRead(server.store.g, old(server.store.View().held.keys), old(local.file), r.value.0, r.value.1)
    ensures r.Ok? <==> Served(server, identity, now, old(server.limiter.buckets), old(server.store.View().held.keys),
                              old(local.file))
  {
    var v := local.Load();
    if v.secrets == map[] {
      return Ok(([], []));
    }
    ghost var h := server.store.View().held;
    var names, reply, ivs := AskAll(v.secrets, server, identity, now);
    if reply.Err? {
      return Err(reply.error);
    }
    ghost var before := local.file;
    var written := ApplyRewraps(local, names, reply.value.1);
    BatchRead(server.store.g, h, ivs, names, before, reply.value.1, local.file);
    return Ok((names, reply.value.0));
  }

  /** Every name of a vault once. */
  ghost predicate NamesOf(v: Secrets, names: seq<string>) {
    NoRepeats(names) && (forall n :: n in names <==> n in v) && forall i :: 0 <= i < |names| ==> names[i] in v
  }

  /** The request for every entry of a vault. */
  method AskAll(v: Secrets, server: Server, identity: string, now: real)
    returns (names: seq<string>, reply: Result<(seq<Bytes>, seq<string>), ServeError>, ghost ivs: seq<Nonce>)
    requires v != map[] && server.store.Valid() && Spec.ValidHeld(server.store.View().held)
    modifies server.store, server.limiter
    ensures NamesOf(v, names)
    ensures reply.Ok? <==> Served(server, identity, now, old(server.limiter.buckets),
                                  old(server.store.View().held.keys), v)
    ensures reply.Ok? ==>
              |ivs| == |names| && AllRead(server.store.g, old(server.store.View().held.keys), v, names, reply.value.0)
    ensures reply.Ok? ==>
              var os := DecryptAll(server.store.g, old(server.store.View().held), ivs, names, Values(v, names));
              os.Ok? && reply.value.1 == RewrapField(os.value)
  {
    ghost var h := server.store.View().held;
    names := Names(v);
    var packed := Values(v, names);
    AskedAllowed(server, identity, v, names);
    reply, ivs := server.DecryptMany(identity, names, packed, now);
    if |ivs| == |names| {
      BatchSucceeds(server.store.g, h, ivs, names, v);
    }
    if reply.Ok? {
      RepliesRead(server.store.g, h, ivs, names, v, reply.value.0);
    }
  }

  lemma AskedAllowed(server: Server, identity: string, v: Secrets, names: seq<string>)
    requires NamesOf(v, names)
    ensures server.AllAllowed(identity, names) <==> forall n :: n in v ==> server.allowed(identity, n)
  {}

  /** A batch over a whole vault succeeds exactly when every entry reads. */
  lemma BatchSucceeds(g: Cipher, h: Spec.Held, ivs: seq<Nonce>, names: seq<string>, v: Secrets)
    requires |ivs| == |names| && NoRepeats(names) && (forall n :: n in names <==> n in v) && Spec.ValidHeld(h)
    requires forall i :: 0 <= i < |names| ==> names[i] in v
    ensures DecryptAll(g, h, ivs, names, Values(v, names)).Ok?
            <==> forall n :: n in v ==> Spec.Reads(g, h.keys, n, v[n].value).Some?
  {
    MigratedMeaning(g, h, h.keys, ivs, names, v);
    if forall i :: 0 <= i < |names| ==> Spec.Reads(g, h.keys, names[i], v[names[i]].value).Some? {
      forall n | n in v
        ensures Spec.Reads(g, h.keys, n, v[n].value).Some?
      {
        assert n in names;
      }
    }
  }

  /** What the write-back of a successful batch leaves. */
  lemma BatchRead(g: Cipher, h: Spec.Held, ivs: seq<Nonce>, names: seq<string>, v: Secrets, field: seq<string>,
                  w: Secrets)
    requires |ivs| == |names| && NoRepeats(names) && (forall n :: n in names <==> n in v) && Spec.ValidHeld(h)
    requires forall i :: 0 <= i < |names| ==> names[i] in v
    requires DecryptAll(g, h, ivs, names, Values(v, names)).Ok?
    requires field == RewrapField(DecryptAll(g, h, ivs, names, Values(v, names)).value)
    requires w == if field == [] || |names| != |field| then v else Applied(v, names, field)
    ensures Rekeyed(g, h, v, w)
  {
    MigratedMeaning(g, h, h.keys, ivs, names, v);
    assert Some(w) == Migrated(g, h, ivs, names, v);
    forall n | n in v
      ensures EntryMigrated(g, h, h.keys, n, v[n], w[n])
    {
      assert n in names;
    }
  }

  /** Each name once, with what its entry reads as. */
  ghost predicate AllRead(g: Cipher, keys: map<int, Bytes>, v: Secrets, names: seq<string>, pts: seq<Bytes>) {
    && NoRepeats(names) && |pts| == |names| && (forall n :: n in names <==> n in v)
    && forall i :: 0 <= i < |names| ==>
         names[i] in v && Spec.Reads(g, keys, names[i], v[names[i]].value) == Some(pts[i])
  }

  lemma RepliesRead(g: Cipher, h: Spec.Held, ivs: seq<Nonce>, names: seq<string>, v: Secrets, pts: seq<Bytes>)
    requires |ivs| == |names| && NoRepeats(names) && (forall n :: n in names <==> n in v) && Spec.ValidHeld(h)
    requires forall i :: 0 <= i < |names| ==> names[i] in v
    requires DecryptAll(g, h, ivs, names, Values(v, names)).Ok?
    requires pts == Plaintexts(DecryptAll(g, h, ivs, names, Values(v, names)).value)
    ensures AllRead(g, h.keys, v, names, pts)
  {
    var packed := Values(v, names);
    DecryptAllEach(g, h, ivs, names, packed);
    forall i | 0 <= i < |names|
      ensures Spec.Reads(g, h.keys, names[i], v[names[i]].value) == Some(pts[i])
    {
      Spec.DecryptMeaning(g, h, ivs[i], names[i], packed[i], h.keys);
    }
  }

  /** `alice rekey`: on success every entry is on Bob's current version and says what it said; on
      failure the vault is as it was. */
  method Rekey(local: LocalStore, server: Server, identity: string, now: real) returns (err: Option<ServeError>)
    requires server.store.Valid() && Spec.ValidHeld(server.store.View().held)
    modifies local, server.store, server.limiter
    ensures err.Some? ==> local.file == old(local.file)
    ensures err.None? ==> Rekeyed(server.store.g, old(server.store.View().held), old(local.file), local.file)
    ensures err.None? <==> Served(server, identity, now, old(server.limiter.buckets),
                                  old(server.store.View().held.keys), old(local.file))
  {
    var r := ReadAll(local, server, identity, now);
    err := if r.Err? then Some(r.error) else None;
  }

  /** `decryptAllValues`: the plaintext of every entry, each with one of the names it is stored under. */
  method DecryptAllValues(local: LocalStore, server: Server, identity: string, now: real)
    returns (r: Result<map<Bytes, string>, ServeError>)
    requires server.store.Valid() && Spec.ValidHeld(server.store.View().held)
    modifies local, server.store, server.limiter
    ensures r.Err? ==> local.file == old(local.file)
    ensures r.Ok? ==> Rekeyed(server.store.g, old(server.store.View().held), old(local.file), local.file)
    ensures r.Ok? <==> Served(server, identity, now, old(server.limiter.buckets), old(server.store.View().held.keys),
                              old(local.file))
    ensures r.Ok? ==> NamesValues(server.store.g, old(server.store.View().held.keys), old(local.file), r.value)
  {
    ghost var keys, before := server.store.View().held.keys, local.file;
    var all := ReadAll(local, server, identity, now);
    if all.Err? {
      return Err(all.error);
    }
    var m := PairUp(all.value.0, all.value.1);
    PairsName(server.store.g, keys, before, all.value.0, all.value.1, m);
    return Ok(m);
  }

  /** Every value is found, each under a name that holds it; so no two values share a name. */
  ghost predicate NamesValues(g: Cipher, keys: map<int, Bytes>, v: Secrets, m: map<Bytes, string>) {
    && (forall pt :: pt in m ==> m[pt] in v && Spec.Reads(g, keys, m[pt], v[m[pt]].value) == Some(pt))
    && forall n :: n in v ==> Spec.Reads(g, keys, n, v[n].value).Some? && Spec.Reads(g, keys, n, v[n].value).value in m
  }

  ghost predicate Paired(names: seq<string>, pts: seq<Bytes>, m: map<Bytes, string>)
    requires |names| == |pts|
  {
    && (forall pt :: pt in m ==> exists i :: 0 <= i < |pts| && pts[i] == pt && names[i] == m[pt])
    && forall i :: 0 <= i < |pts| ==> pts[i] in m
  }

  /** The last loop of `decryptAllValues`; of equal values one name stays. */
  method PairUp(names: seq<string>, pts: seq<Bytes>) returns (m: map<Bytes, string>)
    requires |names| == |pts|
    ensures Paired(names, pts, m)
  {
    m := map[];
    for i := 0 to |names|
      invariant forall pt :: pt in m ==> exists j :: 0 <= j < i && pts[j] == pt && names[j] == m[pt]
      invariant forall j :: 0 <= j < i ==> pts[j] in m
    {
      m := m[pts[i] := names[i]];
    }
  }

  lemma PairsName(g: Cipher, keys: map<int, Bytes>, v: Secrets, names: seq<string>, pts: seq<Bytes>,
                  m: map<Bytes, string>)
    requires AllRead(g, keys, v, names, pts) && Paired(names, pts, m)
    ensures NamesValues(g, keys, v, m)
  {
    forall n | n in v
      ensures Spec.Reads(g, keys, n, v[n].value).Some? && Spec.Reads(g, keys, n, v[n].value).value in m
    {
      var j :| 0 <= j < |names| && names[j] == n;
    }
  }
}
