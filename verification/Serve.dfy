/** Starting Bob's daemon (the unlocking part of cmd/bob/main.go's cmdServe). */
module Serve {
  import opened Wrappers
  import opened Maps
  import opened Gcm
  import opened Envelope
  import opened Rotate
  import opened Keystore
  import Lifecycle
  import S = KeystoreSpec

  /** Unwraps every key on disk, hands them to the store and wipes the originals. The store ends up
      holding what the life-cycle machine says a started daemon holds; a daemon that does not come up
      leaves it locked. */
  method Unlock(g: Cipher, dir: BobDir, password: string, store: Store, ttl: int) returns (err: Option<EnvError>)
    requires store.Valid() && store.keys == map[] && store.current == 0
    modifies store, store.Buffers()
    ensures store.Valid() && fresh(store.Buffers()) && dir.envelope == old(dir.envelope)
    ensures store.View().held == Lifecycle.Served(g, dir.envelope, password)
    ensures store.View().held != S.LOCKED ==> err.None?
  {
    var loaded := Load(dir.envelope, "");
    if loaded.Err? {
      SameMap(Contents(store.keys), map[]);
      return Some(loaded.error);
    }
    var file := new EnvelopeFile(loaded.value);
    var mks, failed := UnwrapEach(g, file, password);
    if failed.Some? {
      SameMap(Contents(store.keys), map[]);
      return failed;
    }
    HoldThenWipe(store, mks, file.current, ttl);
    return None;
  }
}
