/** `bob migrate-aad`: bind every stored ciphertext to its entry's name (cmd/bob/migrate.go). */
module Migrate {
  import opened Wrappers
  import opened Maps
  import opened Hex
  import opened Gcm
  import opened Versions
  import opened KeystoreSpec
  import opened LocalVault
  import opened Envelope
  import Rotate

  datatype MigrateError =
    | BadEntry(name: string) | RetiredVersion(name: string, version: int) | NotDecryptable(name: string)
    | NotLoaded(reason: EnvError)

  predicate Sized(mks: map<int, Bytes>) {
    forall id <- mks :: |mks[id]| == MASTER_KEY_LEN
  }

  /** One turn of the loop. */
  function MigrateEntry(g: Cipher, mks: map<int, Bytes>, current: int, iv: Nonce, name: string, e: SecretEntry)
    : Result<SecretEntry, MigrateError>
    requires Sized(mks) && current in mks
  {
    match ParseVersion(e.value)
    case Err(_) => Err(BadEntry(name))
    case Ok((ver, body)) =>
      if ver !in mks then Err(RetiredVersion(name, ver))
      else if OpenText(g, mks[ver], body, name).Ok? then Ok(e)
      else
        match OpenText(g, mks[ver], body, "")
        case Err(_) => Err(NotDecryptable(name))
        case Ok(pt) => Ok(e.(value := PackVersion(current, SealText(g, mks[current], iv, pt, name).value)))
  }

  /** What an entry says to the migration: read under its name, else as a legacy text without one. */
  function Meaning(g: Cipher, mks: map<int, Bytes>, name: string, packed: string): Option<Bytes> {
    if Reads(g, mks, name, packed).Some? then Reads(g, mks, name, packed) else Reads(g, mks, "", packed)
  }

  predicate EntryBound(g: Cipher, mks: map<int, Bytes>, current: int, name: string, before: SecretEntry,
                       after: SecretEntry)
  {
    && Meaning(g, mks, name, before.value).Some?
    && Reads(g, mks, name, after.value) == Meaning(g, mks, name, before.value)
    && (if Reads(g, mks, name, before.value).Some? then after == before
        else after == before.(value := after.value) && VersionOf(after.value) == current)
  }

  /** What a completed migration did: every entry opens strictly under its name to what it said. */
  ghost predicate Bound(g: Cipher, mks: map<int, Bytes>, current: int, before: Secrets, after: Secrets) {
    && after.Keys == before.Keys
    && forall n :: n in before ==> EntryBound(g, mks, current, n, before[n], after[n])
  }

  /** What the loop leaves of an accepted entry, whatever the current id is. */
  ghost predicate EntrySealed(g: Cipher, mks: map<int, Bytes>, current: int, name: string, before: SecretEntry,
                              after: SecretEntry)
    requires Sized(mks) && current in mks
  {
    var said := Meaning(g, mks, name, before.value);
    && said.Some?
    && (if Reads(g, mks, name, before.value).Some? then after == before
        else exists iv: Nonce ::
               after == before.(value := PackVersion(current, SealText(g, mks[current], iv, said.value, name).value)))
  }

  /** What a completed migration wrote. */
  ghost predicate Resealed(g: Cipher, mks: map<int, Bytes>, current: int, before: Secrets, after: Secrets)
    requires Sized(mks) && current in mks
  {
    && after.Keys == before.Keys
    && forall n :: n in before ==> EntrySealed(g, mks, current, n, before[n], after[n])
  }

  /** An entry is accepted exactly when it reads under its name or as a legacy text. */
  lemma EntryMeaning(g: Cipher, mks: map<int, Bytes>, current: int, iv: Nonce, name: string, e: SecretEntry)
    requires Sized(mks) && current in mks
    ensures var r := MigrateEntry(g, mks, current, iv, name, e);
            && (r.Ok? <==> Meaning(g, mks, name, e.value).Some?)
            && (r.Ok? ==> EntrySealed(g, mks, current, name, e, r.value))
            && (Reads(g, mks, name, e.value).Some? ==> r == Ok(e))
  {}

  /** "v<N>" is no hex, so what follows it is never tried as a nonce. */
  lemma PrefixUnread(g: Cipher, key: Bytes, name: string, version: int, raw: string)
    ensures OpenText(g, key, PackVersion(version, raw), name).Err?
  {
    var front := "v" + Itoa(version);
    assert PackVersion(version, raw) == front + ":" + raw;
    CutColonAt(front, raw);
    assert Decode(front).None?;
  }

  lemma BadVersionParse(version: int, raw: string)
    requires !ValidId(version)
    ensures var s := PackVersion(version, raw);
            ParseVersion(s).Err? || ParseVersion(s) == Ok((1, s))
  {
    var s := PackVersion(version, raw);
    if version < 0 {
      assert s[1] == '-';
      assert DigitRun(s[1..]) == 0;
    } else {
      var digits := DigitsOf(version);
      PrefixColonAt(digits, raw);
      assert s[1..1 + |digits|] == digits;
    }
  }

  /** A text under a version the reader does not know reads as nothing. */
  lemma BadVersionUnread(g: Cipher, mks: map<int, Bytes>, name: string, version: int, raw: string)
    requires !ValidId(version)
    ensures Reads(g, mks, name, PackVersion(version, raw)).None?
  {
    BadVersionParse(version, raw);
    if 1 in mks {
      PrefixUnread(g, mks[1], name, version, raw);
    }
  }

  /** What the loop writes for a legacy entry: it reads under the name exactly when the current id can
      be written as a version. */
  lemma WrittenReads(g: Cipher, mks: map<int, Bytes>, current: int, iv: Nonce, name: string, pt: Bytes)
    requires Sized(mks) && current in mks
    ensures var packed := PackVersion(current, SealText(g, mks[current], iv, pt, name).value);
            && (ValidId(current) ==> Reads(g, mks, name, packed) == Some(pt) && VersionOf(packed) == current)
            && (!ValidId(current) ==> Reads(g, mks, name, packed).None?)
  {
    var raw := SealText(g, mks[current], iv, pt, name).value;
    if ValidId(current) {
      OpenSealed(g, mks[current], iv, pt, name, name);
      ParseSealed(g, mks[current], iv, pt, name, current);
    } else {
      BadVersionUnread(g, mks, name, current, raw);
    }
  }

  /** The entry reads under its name afterwards if and only if the current id can be written as a
      version, or nothing had to be written. */
  lemma SealedBinds(g: Cipher, mks: map<int, Bytes>, current: int, name: string, before: SecretEntry,
                    after: SecretEntry)
    requires Sized(mks) && current in mks && EntrySealed(g, mks, current, name, before, after)
    ensures EntryBound(g, mks, current, name, before, after)
       <==> ValidId(current) || Reads(g, mks, name, before.value).Some?
  {
    if Reads(g, mks, name, before.value).None? {
      var pt := Meaning(g, mks, name, before.value).value;
      var iv: Nonce :| after == before.(value := PackVersion(current, SealText(g, mks[current], iv, pt, name).value));
      WrittenReads(g, mks, current, iv, name, pt);
    }
  }

  /** A completed migration binds every entry if and only if the current id can be written as a
      version, or every entry was bound before. */
  lemma BindsExactly(g: Cipher, mks: map<int, Bytes>, current: int, before: Secrets, after: Secrets)
    requires Sized(mks) && current in mks && Resealed(g, mks, current, before, after)
    ensures Bound(g, mks, current, before, after)
       <==> ValidId(current) || forall n :: n in before ==> Reads(g, mks, n, before[n].value).Some?
  {
    forall n | n in before
      ensures EntryBound(g, mks, current, n, before[n], after[n])
         <==> ValidId(current) || Reads(g, mks, n, before[n].value).Some?
    {
      SealedBinds(g, mks, current, n, before[n], after[n]);
    }
  }

  /** A second migration changes nothing. */
  lemma MigratingTwice(g: Cipher, mks: map<int, Bytes>, current: int, before: Secrets, once: Secrets, twice: Secrets)
    requires Bound(g, mks, current, before, once) && Bound(g, mks, current, once, twice)
    ensures twice == once
  {
    assert forall n :: n in once ==> EntryBound(g, mks, current, n, before[n], once[n]) && twice[n] == once[n];
  }

  /** What the loop has done so far: the entries in `rest` are as they were. */
  ghost predicate SoFar(g: Cipher, mks: map<int, Bytes>, current: int, before: Secrets, v: Secrets, rest: set<string>)
    requires Sized(mks) && current in mks
  {
    && v.Keys == before.Keys && rest <= before.Keys
    && (forall n <- rest :: v[n] == before[n])
    && forall n :: n in before && n !in rest ==> EntrySealed(g, mks, current, n, before[n], v[n])
  }

  lemma SoFarGrows(g: Cipher, mks: map<int, Bytes>, current: int, before: Secrets, v: Secrets, rest: set<string>,
                name: string, e: SecretEntry)
    requires Sized(mks) && current in mks && SoFar(g, mks, current, before, v, rest) && name in rest
    requires EntrySealed(g, mks, current, name, before[name], e)
    ensures SoFar(g, mks, current, before, v[name := e], rest - {name})
  {}

  /** The loop over the vault, in whatever order Go ranges over the map. Entries are set in the
      vault in memory; nothing is written here. */
  method MigrateEntries(g: Cipher, mks: map<int, Bytes>, current: int, v: Vault)
    returns (migrated: nat, err: Option<MigrateError>)
    requires Sized(mks) && current in mks
    modifies v
    ensures err.None? ==> Resealed(g, mks, current, old(v.secrets), v.secrets)
    ensures err.None? && migrated == 0 ==> v.secrets == old(v.secrets)
    ensures err.None? <==> AllMeaningful(g, mks, old(v.secrets))
  {
    ghost var before := v.secrets;
    migrated, err := 0, None;
    var rest := v.secrets.Keys;
    while rest != {}
      invariant SoFar(g, mks, current, before, v.secrets, rest)
      invariant migrated == 0 ==> v.secrets == before
    {
      var name := PickKey(rest);
      var e := v.secrets[name];
      var iv: Nonce := *;
      EntryMeaning(g, mks, current, iv, name, e);
      ghost var r := MigrateEntry(g, mks, current, iv, name, e);
      var parsed := ParseVersion(e.value);
      if parsed.Err? {
        return migrated, Some(BadEntry(name));
      }
      var (ver, body) := parsed.value;
      if ver !in mks {
        return migrated, Some(RetiredVersion(name, ver));
      }
      var bound := OpenText(g, mks[ver], body, name);
      if bound.Err? {
        var legacy := OpenText(g, mks[ver], body, "");
        if legacy.Err? {
          return migrated, Some(NotDecryptable(name));
        }
        SoFarGrows(g, mks, current, before, v.secrets, rest, name, r.value);
        var sealed := SealText(g, mks[current], iv, legacy.value, name);
        v.Set(name, e.(value := PackVersion(current, sealed.value)));
        migrated := migrated + 1;
      } else {
        SoFarGrows(g, mks, current, before, v.secrets, rest, name, e);
        assert v.secrets[name := e] == v.secrets;
      }
      rest := rest - {name};
    }
    ResealedMeans(g, mks, current, before, v.secrets);
  }

  /** The envelope file and all its keys, as the command opens them. */
  function Opened(g: Cipher, disk: Disk, password: string, now: string)
    : (r: Result<(EnvFile, map<int, Bytes>), EnvError>)
  {
    var f :- Rotate.LoadAndUnwrap(g, disk, password, now);
    var mks :- Rotate.UnwrapAll(g, f.keys, password);
    Ok((f, mks))
  }

  lemma OpenedSized(g: Cipher, disk: Disk, password: string, now: string)
    requires Opened(g, disk, password, now).Ok?
    ensures var (f, mks) := Opened(g, disk, password, now).value; Sized(mks) && f.current in mks
  {
    var (f, mks) := Opened(g, disk, password, now).value;
    Rotate.UnwrapAllShape(g, f.keys, password);
    FindIn(f.keys, f.current);
  }

  predicate AllMeaningful(g: Cipher, mks: map<int, Bytes>, v: Secrets) {
    forall n :: n in v ==> Meaning(g, mks, n, v[n].value).Some?
  }

  /** A file whose current id is still 0 once it is loaded holds no id that an entry can name. */
  lemma ZeroIsEmpty(g: Cipher, disk: Disk, password: string, now: string, v: Secrets)
    requires Opened(g, disk, password, now).Ok?
    requires var (f, mks) := Opened(g, disk, password, now).value; f.current == 0 && AllMeaningful(g, mks, v)
    ensures v == map[]
  {
    var (f, mks) := Opened(g, disk, password, now).value;
    ZeroIsGreatest(g, disk, password, now);
    Rotate.UnwrapAllShape(g, f.keys, password);
    if v.Keys != {} {
      var n := AnyOf(v.Keys);
      NotPositiveUnread(g, mks, n, v[n].value);
    }
  }

  lemma ZeroIsGreatest(g: Cipher, disk: Disk, password: string, now: string)
    requires Opened(g, disk, password, now).Ok? && Opened(g, disk, password, now).value.0.current == 0
    ensures forall id :: id in Ids(Opened(g, disk, password, now).value.0.keys) ==> id <= 0
  {
    var f := Load(disk, now).value;
    assert forall id :: id in Ids(f.keys) ==> id <= MaxId(f.keys, 0);
  }

  lemma NotPositiveUnread(g: Cipher, mks: map<int, Bytes>, name: string, packed: string)
    requires forall id :: id in mks ==> id <= 0
    ensures Meaning(g, mks, name, packed).None?
  {}

  /** The command as a whole, on a file whose ids fit Go's int: the migrated vault is bound if and only
      if the current id is not negative or every entry was bound before. */
  lemma MigrationExactly(g: Cipher, disk: Disk, password: string, now: string, f: EnvFile, mks: map<int, Bytes>,
                         before: Secrets, after: Secrets)
    requires Opened(g, disk, password, now) == Ok((f, mks)) && f.current <= MAX_INT
    requires Sized(mks) && f.current in mks && Resealed(g, mks, f.current, before, after)
    ensures Bound(g, mks, f.current, before, after)
       <==> f.current >= 0 || forall n :: n in before ==> Reads(g, mks, n, before[n].value).Some?
  {
    ResealedMeans(g, mks, f.current, before, after);
    BindsExactly(g, mks, f.current, before, after);
    if f.current == 0 {
      ZeroIsEmpty(g, disk, password, now, before);
    }
  }

  /** A legacy entry that was sealed again under an id that is no version reads as nothing. */
  lemma BadVersionLoses(g: Cipher, mks: map<int, Bytes>, current: int, name: string, before: SecretEntry,
                        after: SecretEntry)
    requires Sized(mks) && current in mks && !ValidId(current)
    requires EntrySealed(g, mks, current, name, before, after) && Reads(g, mks, name, before.value).None?
    ensures Meaning(g, mks, name, after.value).None?
  {
    var pt := Meaning(g, mks, name, before.value).value;
    var iv: Nonce :| after == before.(value := PackVersion(current, SealText(g, mks[current], iv, pt, name).value));
    var raw := SealText(g, mks[current], iv, pt, name).value;
    BadVersionUnread(g, mks, name, current, raw);
    BadVersionUnread(g, mks, "", current, raw);
  }

  /** A text sealed by key 1 before there were names reads as a legacy text only. */
  lemma LegacyReads(g: Cipher, mks: map<int, Bytes>, iv: Nonce, pt: Bytes, name: string)
    requires 1 in mks && KeyOk(mks[1])
    requires var ct := g.ctr(mks[1], iv, pt); g.tag(mks[1], iv, ct, "") != g.tag(mks[1], iv, ct, name)
    ensures var packed := SealText(g, mks[1], iv, pt, "").value;
            Reads(g, mks, name, packed).None? && Meaning(g, mks, name, packed) == Some(pt)
  {
    OpenSealed(g, mks[1], iv, pt, "", name);
    ParseSealed(g, mks[1], iv, pt, "", 1);
  }

  /** An envelope with a key -1 that is current and a key 1. */
  function NegativeDisk(g: Cipher, k0: Bytes, k1: Bytes, password: string, salt: Bytes, iv: Nonce,
                        created: string): Disk
    requires |k0| == |k1| == MASTER_KEY_LEN
  {
    UnwrapWrapped(g, k0, password, salt, iv, -1, created);
    UnwrapWrapped(g, k1, password, salt, iv, 1, created);
    Multi(EnvFile([Wrap(g, k0, password, salt, iv, -1, created).value,
                   Wrap(g, k1, password, salt, iv, 1, created).value], -1))
  }

  function NegativeKeys(k0: Bytes, k1: Bytes): map<int, Bytes> {
    map[-1 := k0, 1 := k1]
  }

  lemma NegativeOpens(g: Cipher, k0: Bytes, k1: Bytes, password: string, salt: Bytes, iv: Nonce, now: string)
    requires |k0| == |k1| == MASTER_KEY_LEN
    ensures var disk := NegativeDisk(g, k0, k1, password, salt, iv, now);
            Opened(g, disk, password, now) == Ok((disk.file, NegativeKeys(k0, k1)))
  {
    var keys := NegativeDisk(g, k0, k1, password, salt, iv, now).file.keys;
    UnwrapWrapped(g, k0, password, salt, iv, -1, now);
    UnwrapWrapped(g, k1, password, salt, iv, 1, now);
    Rotate.UnwrapSnoc(g, keys, 0, password);
    Rotate.UnwrapSnoc(g, keys, 1, password);
    assert keys[..2] == keys && keys[..0] == [];
  }

  lemma LegacyLost(g: Cipher, mks: map<int, Bytes>, current: int, iv: Nonce, pt: Bytes, name: string, e: SecretEntry,
                   after: Secrets)
    requires Sized(mks) && 1 in mks && current in mks && !ValidId(current)
    requires var ct := g.ctr(mks[1], iv, pt); g.tag(mks[1], iv, ct, "") != g.tag(mks[1], iv, ct, name)
    requires e.value == SealText(g, mks[1], iv, pt, "").value
    ensures AllMeaningful(g, mks, map[name := e])
    ensures Resealed(g, mks, current, map[name := e], after) ==>
              && name in after && Meaning(g, mks, name, after[name].value).None?
              && !Bound(g, mks, current, map[name := e], after)
  {
    LegacyReads(g, mks, iv, pt, name);
    if Resealed(g, mks, current, map[name := e], after) {
      BadVersionLoses(g, mks, current, name, e, after[name]);
    }
  }

  /** A migration that succeeds and leaves an entry that nothing reads: under the envelope above, an
      entry sealed by key 1 before there were names. */
  lemma NegativeIdLoses(g: Cipher, k0: Bytes, k1: Bytes, password: string, salt: Bytes, iv: Nonce, pt: Bytes,
                        name: string, e: SecretEntry, now: string, after: Secrets)
    requires |k0| == |k1| == MASTER_KEY_LEN
    requires var ct := g.ctr(k1, iv, pt); g.tag(k1, iv, ct, "") != g.tag(k1, iv, ct, name)
    requires e.value == SealText(g, k1, iv, pt, "").value
    ensures var disk := NegativeDisk(g, k0, k1, password, salt, iv, now);
            Opened(g, disk, password, now) == Ok((disk.file, NegativeKeys(k0, k1))) && disk.file.current == -1
    ensures AllMeaningful(g, NegativeKeys(k0, k1), map[name := e])
    ensures Resealed(g, NegativeKeys(k0, k1), -1, map[name := e], after) ==>
              && name in after && Meaning(g, NegativeKeys(k0, k1), name, after[name].value).None?
              && !Bound(g, NegativeKeys(k0, k1), -1, map[name := e], after)
  {
    NegativeOpens(g, k0, k1, password, salt, iv, now);
    LegacyLost(g, NegativeKeys(k0, k1), -1, iv, pt, name, e, after);
  }

  lemma EmptyResealed(g: Cipher, mks: map<int, Bytes>, current: int, v: Secrets)
    requires Sized(mks) && current in mks && v == map[]
    ensures Resealed(g, mks, current, v, v) && AllMeaningful(g, mks, v)
  {}

  lemma ResealedMeans(g: Cipher, mks: map<int, Bytes>, current: int, before: Secrets, after: Secrets)
    requires Sized(mks) && current in mks && Resealed(g, mks, current, before, after)
    ensures AllMeaningful(g, mks, before)
  {
    assert forall n :: n in before ==> EntrySealed(g, mks, current, n, before[n], after[n]);
  }

  /** The command as a whole wrote `after` over `before`. */
  ghost predicate Wrote(g: Cipher, disk: Disk, password: string, now: string, before: Secrets, after: Secrets) {
    && Opened(g, disk, password, now).Ok?
    && var (f, mks) := Opened(g, disk, password, now).value;
       && Sized(mks) && f.current in mks
       && Resealed(g, mks, f.current, before, after)
       && (ValidId(f.current) ==> Bound(g, mks, f.current, before, after))
  }

  /** The command: all or nothing. It succeeds exactly when the envelope opens and every entry is
      bound to its own name or legacy. */
  method MigrateAad(g: Cipher, dir: Rotate.BobDir, password: string, now: string, local: LocalStore)
    returns (err: Option<MigrateError>)
    modifies local
    ensures err.Some? ==> local.file == old(local.file)
    ensures err.None? <==>
              var r := Opened(g, dir.envelope, password, now);
              r.Ok? && AllMeaningful(g, r.value.1, old(local.file))
    ensures err.None? ==> Wrote(g, dir.envelope, password, now, old(local.file), local.file)
  {
    var file, failed := Rotate.LoadForCommand(g, dir, password, now);
    if failed.Some? {
      return Some(NotLoaded(failed.value));
    }
    var mks := Rotate.UnwrapAll(g, file.keys, password);
    if mks.Err? {
      return Some(NotLoaded(mks.error));
    }
    OpenedSized(g, dir.envelope, password, now);
    var v := local.Load();
    if v.secrets == map[] {
      EmptyResealed(g, mks.value, file.current, v.secrets);
      BindsExactly(g, mks.value, file.current, v.secrets, v.secrets);
      return None;
    }
    var migrated, broken := MigrateEntries(g, mks.value, file.current, v);
    if broken.Some? {
      return broken;
    }
    ResealedMeans(g, mks.value, file.current, local.file, v.secrets);
    BindsExactly(g, mks.value, file.current, local.file, v.secrets);
    if migrated == 0 {
      return None;
    }
    local.Save(v);
    return None;
  }
}
