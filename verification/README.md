# AnB in Dafny

AnB keeps secrets in two halves. Alice's vault file holds ciphertexts; Bob holds the master keys, wrapped
under a password on disk and unwrapped in a daemon that encrypts and decrypts for alice. Text that leaves
alice is redacted, and commands run only if a rule of an allowlist matches them.

This project models four parts of that system and proves what they promise.

**Master keys.** `Gcm`, `Versions` and `Envelope` are the text form of a ciphertext, its version prefix and
the wrapped keys. `Rotate` has the rotating commands, `Keystore` the daemon's store with its byte buffers and
idle timer (specified in `KeystoreSpec`), `Serve` the start of the daemon, `Server` and `LocalVault` the
decrypting requests and the write-back of rewrapped entries, `Migrate` the binding of old entries to their
names. `Lifecycle` puts disk, daemon and every alice's vault into one state machine whose steps are whole
commands, and proves that every entry keeps decrypting to the plaintext last set, in every run, provided that
a key is retired only when no entry and no daemon is on it. `Progress` shows that the commands of the machine
can happen. `SafeOrder` shows that the order is exact: after any other finalization some continuation in the
safe order loses an entry, and such finalizations exist. It also treats vaults with legacy entries, which
`migrate-aad` binds to their names; those move to the current key on disk, so a daemon that has not loaded that
key loses sight of them until it is started again. The envelope may be the single-key file of an older version.
`Revoke` shows that the revocation script keeps to the order while other commands run in between and any of
its own commands may fail, and `RevokeDone` that from every point it can go on and end well.

**Redaction.** `Redact` is the engine. `Documents` and `DocLines` describe a redacted text as literal text
with marks; `RedactProps` proves that the two restoring passes give the text back, and exactly when;
`RedactLeft` that no known value is left; `RedactEdges` shows two families of inputs that do not come back;
`RedactSyntax` relates the scanners to the shapes of their regular expressions.

**Allowlist.** `ShellQuote` is the canonical match string with a reader for POSIX shell quoting, `Regex` the
literal fragment of the pattern syntax, `Rules` the rules file and the gate, `AutoBless` and `Append` the
printing and appending of a rule for one invocation, `Unfinished` what becomes of a file whose last line has no
line break, `Bless` the decisions afterwards.

**Rate limit.** `RateLimit` is the per-identity token bucket.

The block cipher, GHASH, Argon2id, SHA-256, the secret heuristics and the regular-expression engine are
parameters. The cipher must have the structure of NIST SP 800-38D (sections 6.5, 7.1 and 7.2): counter mode
keeps lengths, is its own inverse and ignores the additional data, and tags have 16 bytes. Nothing is assumed
about forgery; steps of the life-cycle machine in which a wrong password happens to open a wrapped key are
excluded by name (`NoForgery`). Random nonces, salts and fresh keys, the clock and the order in which Go
ranges over a map are arbitrary. `dafny verify dfyconfig.toml` checks the whole project.

Three promises that the code keeps only under a condition, each with the exact condition and an input at which
it fails:

- A redacted text comes back if and only if `stripQuotes` changes no redacted token, that is, none of them
  carries quotes at its edges or white space around it (`RedactProps.RoundTrip`; `RedactEdges.QuotesLost`,
  `RedactEdges.SpaceLost` and `RedactEdges.AccessKeyLost` for inputs that do not).
- A blessed invocation is allowed by the printed rule if and only if the rules file was empty or ended in a
  line break and the printed line fits the scanner (`Bless.BlessTakes`). Otherwise the line is glued to the
  unfinished last one. A comment swallows it (`Unfinished.GluedToComment`, `Unfinished.NoteSwallows`). If any
  other last line has a tab, as every rule that alice appended has, the file no longer loads and nothing at all
  is allowed any more (`Unfinished.PrintedThenBroken`). Without a tab it loads if and only if the glued pattern
  compiles and is not trivial and the glued line fits the scanner, and then that pattern decides
  (`Unfinished.UnfinishedLoads`, `Unfinished.UnfinishedDecides`).
- A completed `migrate-aad` binds every entry if and only if the current key id is not negative or nothing had
  to be bound (`Migrate.MigrationExactly`; `Migrate.NegativeIdLoses` for an envelope and a vault that the
  command accepts and breaks). A current id 0 is replaced by the greatest id as the file is loaded, and an id
  beyond Go's int is refused by the JSON decoder.

## Model

| member | source | states |
|---|---|---|
| Hex.DecodeExactly | internal/crypto/crypto.go:161-194 | hex decoding yields given bytes exactly when the text is their encoding up to letter case |
| Gcm.OpenSealed | internal/crypto/crypto.go:135-194 | what is sealed under a name opens under it to the same plaintext; under another name it opens exactly when the tags collide |
| Gcm.OpenExactly | internal/crypto/crypto.go:161-194 | a text opens to a plaintext if and only if it is, up to the case of its hex digits, one that sealing that plaintext under that name can print |
| Gcm.OpenLower | internal/crypto/crypto.go:161-194 | reading ignores the case of the hex digits |
| Gcm.PlaintextIgnoresName | internal/crypto/crypto.go:161-194 | a text that opens under two names opens to one plaintext |
| Gcm.SealedShape | internal/crypto/crypto.go:135-151 | a sealed text has no line break and cannot be taken for a version prefix |
| Versions.ParsePacked | internal/crypto/envelope.go:35-59 | parsing undoes packing if and only if the version is positive and fits Go's int and the body has no line break |
| Versions.ParseSealed | internal/crypto/envelope.go:27-59 | a bare sealed text always reads as version 1, a packed one as its own version |
| Envelope.UnwrapWrapped | internal/crypto/crypto.go:77-121 | a master key wrapped under a password unwraps under it to the same key, with id and Created kept |
| Envelope.WithoutIs | internal/crypto/envelope.go:149-160 | with distinct ids, removing an id removes that key and no other |
| Envelope.EnvelopeFile.FindKey | internal/crypto/envelope.go:125-132 | finds the first key with the id, or none |
| Envelope.EnvelopeFile.NextID | internal/crypto/envelope.go:136-144 | one more than the greatest id, so an id not in use |
| Envelope.EnvelopeFile.RemoveKey | internal/crypto/envelope.go:149-160 | refuses the current id and unknown ids and then changes nothing; otherwise that key goes |
| Keystore.Wipe | internal/crypto/crypto.go:213-217 | every byte of the buffer is zero |
| Keystore.CopyAll | internal/keystore/keystore.go:67-93 | the store's buffers are new and distinct and hold the bytes they were copied from |
| Keystore.Store.HoldMulti | internal/keystore/keystore.go:67-93 | the old buffers are zeroed, the new ones are the store's own, and the state is the specified one, locked if the current id is missing |
| Keystore.Store.AddKey | internal/keystore/keystore.go:95-109 | a copy of the key becomes current; the caller's buffer is not kept |
| Keystore.Store.RemoveKey | internal/keystore/keystore.go:111-125 | refuses the current id and unknown ids; otherwise the buffer is zeroed and dropped and all other keys stay |
| Keystore.Store.Encrypt | internal/keystore/keystore.go:172-189 | the specified outcome from the held keys; only success restarts the idle time |
| Keystore.Store.Decrypt | internal/keystore/keystore.go:203-242 | the specified outcome, with a rewrap for other versions; only success restarts the idle time |
| Keystore.Store.Zeroize | internal/keystore/keystore.go:245-285 | the store is locked and every buffer it held is zero |
| Keystore.Store.TimerCallback | internal/keystore/keystore.go:252-270 | a callback that gets the mutex locks the store and zeroes its buffers |
| Keystore.HoldThenWipe | cmd/bob/main.go:498-509 | wiping the caller's arrays after handing them over leaves the store's contents as they were |
| KeystoreSpec.EncryptReads | internal/keystore/keystore.go:172-189 | an unlocked store's output is on its current version and reads back under its name with every set of keys that agrees on that version |
| KeystoreSpec.DecryptMeaning | internal/keystore/keystore.go:203-242 | decryption succeeds exactly when the text reads under the held keys; a rewrap comes exactly for other versions, is on the current one and says the same under the same name |
| KeystoreSpec.ApplyKeepsInv | internal/keystore/keystore.go:252-285 | every call, clock step, firing and callback keeps: current is 0 iff no key is held, otherwise held, and the timer is set for the end of the idle time |
| KeystoreSpec.AlwaysWillLock | internal/keystore/keystore.go:203-285 | in every interleaving an unlocked store with a ttl has a timer for last successful use plus ttl or a waiting callback, and past that time running the callback locks it |
| Serve.Unlock | cmd/bob/main.go:464-509 | a started daemon holds exactly the keys on disk, or is locked, as the life-cycle machine says |
| Rotate.UnwrapEach | cmd/bob/rotate.go:271-284 | all keys by id or the first failure |
| Rotate.SortById | cmd/bob/rotate.go:311-318 | the exchange sort puts distinct ids in strictly increasing order and keeps the same keys |
| Rotate.RewrapAll | cmd/bob/rotate.go:289-321 | increasing ids, each key opening under the password, Created stamps kept where there were any |
| Rotate.RotateMasterKey | cmd/bob/rotate.go:97-144 | succeeds exactly when everything unwraps, then adds a fresh current key; on failure the disk is unchanged |
| Rotate.RotateMasterPassword | cmd/bob/rotate.go:23-95 | succeeds exactly when everything unwraps and the password differs; on failure the disk is unchanged |
| Rotate.Finalize | cmd/bob/rotate.go:146-189 | retires a confirmed, existing, non-current id; on failure the disk is unchanged |
| RotateProps.RotationMeaning | cmd/bob/rotate.go:44-78 | on distinct ids: increasing ids, the same id-to-key map plus at most one fresh id above all others, everything opens under the new password, old Created stamps stay |
| RotateProps.FinalizationMeaning | cmd/bob/rotate.go:146-189 | exactly one key goes; every other key opens as before |
| LocalVault.Vault.Set | internal/localvault/localvault.go:179-190 | the entry is set and no other moves |
| LocalVault.Vault.Remove | internal/localvault/localvault.go:183-190 | reports whether the entry was there; no other entry moves |
| LocalVault.ApplyRewraps | cmd/alice/main.go:247-285 | one load and at most one save; returns the number of non-empty rewraps; a length mismatch is an error that writes nothing |
| LocalVault.AppliedAt | cmd/alice/main.go:257-281 | with distinct names each entry takes its own rewrap, only Value and KeyEpoch move, and no other entry is touched |
| LocalVault.RekeyStatus | cmd/alice/rekey.go:16-49 | the number of entries at every version, malformed ones at -1 |
| LocalVault.Gate | scripts/anb-revoke.sh:164-169 | passes if and only if every entry is on the current version |
| Server.CollectEach | internal/server/server.go:178-187 | a batch succeeds exactly when every item does, with each item's own outcome |
| Server.Server.Guard | internal/server/server.go:220-233 | passes if and only if every key of the request is allowed; otherwise names one that is not |
| Server.Server.EncryptOne | internal/server/server.go:137-145 | guarded but not rate-limited; the outcome is the store's |
| Server.Server.DecryptOne | internal/server/server.go:147-161 | the token is spent first, then the guard decides, then the store; nothing is decrypted for a refused request |
| Server.Server.DecryptMany | internal/server/server.go:163-195 | the exact outcome of every request: rate limit, then guard, then lengths, then all or nothing, parallel to the request, with no rewrap field when every entry is current |
| Server.MigratedMeaning | cmd/alice/main.go:247-285 | a write-back happens exactly when every named entry reads; each named entry reaches the current version, reads as before and changes only Value and KeyEpoch |
| Server.Rekey | cmd/alice/rekey.go:62-103 | succeeds if and only if the vault is empty or the limiter admits the call, every name is allowed and every entry reads; then same names, every entry on the daemon's version, plaintexts and bindings kept; otherwise the vault is unchanged |
| Server.DecryptAllValues | cmd/alice/main.go:209-240 | succeeds exactly when a rekey would; every plaintext of the vault is found, each under a name that holds it |
| Migrate.EntryMeaning | cmd/bob/migrate.go:72-98 | an entry is accepted exactly when it reads under its name or as a legacy text; a bound entry stays, a legacy one is sealed again under its name |
| Migrate.SealedBinds | cmd/bob/migrate.go:91-97 | an accepted entry reads under its name afterwards as it did before if and only if the current id can be written as a version or nothing had to be written |
| Migrate.BindsExactly | cmd/bob/migrate.go:71-111 | the same for a whole vault |
| Migrate.BadVersionUnread | internal/crypto/envelope.go:35-59 | a text under a version below 1 or beyond Go's int reads as nothing, whatever follows the version |
| Migrate.ZeroIsEmpty | internal/crypto/envelope.go:92-99 | a file whose current id is 0 even after loading holds no id that an entry can name, so only an empty vault is accepted |
| Migrate.MigrationExactly | cmd/bob/migrate.go:22-111 | the command on any file whose ids fit Go's int: the vault it writes is bound if and only if the current id is not negative or every entry was bound before |
| Migrate.NegativeIdLoses | cmd/bob/migrate.go:91-97 | an accepted input that breaks the promise: keys -1 and 1 with -1 current and one legacy entry of key 1; whatever is written, the entry reads as nothing afterwards |
| Migrate.MigrateEntries | cmd/bob/migrate.go:71-99 | succeeds exactly when every entry is accepted; nothing counted as migrated means nothing changed |
| Migrate.MigrateAad | cmd/bob/migrate.go:22-111 | all or nothing, for every envelope: it succeeds if and only if the envelope opens and every entry is accepted, and otherwise writes nothing |
| Migrate.MigratingTwice | cmd/bob/migrate.go:71-111 | a second migration changes nothing |
| Lifecycle.StepKeeps | cmd/bob/rotate.go:97-189 | every command, with finalizations and bindings in the safe order, keeps the invariant of disk, daemon and vaults, with or without legacy entries |
| Lifecycle.EveryEntryDecrypts | internal/keystore/keystore.go:172-242 | over every run from `bob init`, every entry of every vault decrypts under its own name to the plaintext last set, in an unlocked daemon and in a freshly started one |
| Lifecycle.OlderInv | internal/crypto/envelope.go:101-115 | an installation from before names and key versions, its single-key file and its legacy vaults, satisfies the invariant |
| Progress.CanRotate | cmd/bob/rotate.go:97-144 | a rotation with the master password has an outcome from every disk in order, as long as Go's int has room for another id |
| Progress.CanRetire | cmd/bob/rotate.go:146-189 | so has the confirmed finalization of any key on disk but the current one, and it changes the disk |
| Progress.CanBind | cmd/bob/migrate.go:71-111 | so has the binding of a vault whose entries all mean something |
| SafeOrder.RetireExactly | cmd/bob/rotate.go:146-189 | after a finalization no run in the safe order ever leaves an entry that a fresh daemon cannot decrypt if and only if no entry was on the key and the daemon did not seal under it |
| SafeOrder.EntryStranded | internal/keystore/keystore.go:203-222 | an entry on a key that is gone from disk fails with an unknown version in every daemon started from it |
| SafeOrder.SetStranded | internal/keystore/keystore.go:172-189 | an entry set while the daemon seals under such a key is lost at the next start |
| SafeOrder.CanStrand | cmd/bob/rotate.go:146-189 | from every state in order, any entry on a key that is not current can be stranded by one confirmed finalization |
| SafeOrder.CanStrandSets | cmd/bob/rotate.go:146-189 | and the key of a daemon that lags can be retired under it, so that every later set is lost |
| SafeOrder.BindExactly | cmd/bob/migrate.go:71-111 | after a binding the running daemon reads the whole vault if and only if it holds the current key on disk, is locked, or nothing had to be bound |
| SafeOrder.BindLags | cmd/bob/migrate.go:91-97 | otherwise a bound legacy entry is an unknown version to the daemon until it is started again, and then decrypts |
| SafeOrder.CanLag | cmd/bob/migrate.go:71-111 | such a binding happens from every state in order whose daemon lacks the current key |
| SafeOrder.LegacyDecrypts | cmd/bob/migrate.go:71-111 | a vault that starts with legacy entries: after a binding in a safe run every entry decrypts to the plaintext last set in every later state |
| Lifecycle.KnownGrows | cmd/bob/rotate.go:129-131 | a step never changes what an id denotes and adds an id only above all known ones |
| Lifecycle.IdsNeverReused | internal/crypto/envelope.go:136-160 | at any two moments of a run disk and daemon agree on every id they share, and current is the greatest id of the envelope |
| Lifecycle.ReadKeeps | cmd/alice/main.go:247-285 | reading with write-back, on any subset of names, keeps the invariant |
| Lifecycle.BindKeeps | cmd/bob/migrate.go:71-111 | migrate-aad in the safe order keeps the invariant, legacy entries included |
| Lifecycle.BindBinds | cmd/bob/migrate.go:71-111 | with the master password every entry of the vault reads under its own name afterwards |
| Lifecycle.ServedHolds | cmd/bob/main.go:464-509 | a daemon started with the master password holds the keys on disk |
| Revoke.ScriptKeeps | scripts/anb-revoke.sh:150-191 | every step of the script, and every failure of a command before or after its work, keeps the invariant and changes no intended plaintext |
| Revoke.MayFail | scripts/anb-revoke.sh:150-191 | every command may fail without effect and a daemon may not come up: these are steps of the model |
| Revoke.OtherKeeps | scripts/anb-revoke.sh:150-191 | sets, reads, removals and locking between the steps keep it too |
| Revoke.RekeyReaches | scripts/anb-revoke.sh:161-162 | after the rekey by a daemon on the new key every entry of the vault is on the new key |
| Revoke.NothingLost | scripts/anb-revoke.sh:150-191 | at every point, aborted or not, every entry of the vault still decrypts from the keys on disk |
| Revoke.OnlyOthersSet | scripts/anb-revoke.sh:150-191 | without other sets or removals no plaintext changes |
| Revoke.Revoked | scripts/anb-revoke.sh:171-191 | a finished script leaves exactly one key on disk and in any unlocked daemon, every entry on it, and no text of another version readable |
| RevokeDone.CanAdvance | scripts/anb-revoke.sh:150-191 | from every point of the script, whatever came between, the next command has a successful outcome, provided the daemon is unlocked where the script asks it |
| RevokeDone.LockedStops | scripts/anb-revoke.sh:161-191 | otherwise every step gives up, unless there is nothing to rekey |
| RevokeDone.Completes | scripts/anb-revoke.sh:150-191 | from every such point there is a run of the script's own commands to its good end |
| RateLimit.RateLimiter.Allow | internal/server/ratelimit.go:38-67 | the outcome and new bucket of the specified step; no other identity's bucket moves |
| RateLimit.Isolation | internal/server/ratelimit.go:38-67 | an identity's outcomes do not depend on the calls of others |
| RateLimit.AfterWithin | internal/server/ratelimit.go:54-66 | tokens stay between zero and the capacity |
| RateLimit.AllowedBound | internal/server/ratelimit.go:54-66 | over any stretch no more calls pass than were available at its start and came in during it |
| RateLimit.WindowBound | internal/server/ratelimit.go:38-67 | at most cap + cap * T / 60 calls of an identity pass in any window of T seconds |
| RateLimit.ServedAfterWait | internal/server/ratelimit.go:54-66 | waiting the time of one token is always enough |
| ShellQuote.CanonicalReads | internal/aclrules/aclrules.go:48-54 | a reader for sections 2.2.1 and 2.2.2 of the POSIX.1-2017 Shell Command Language gets back the command and every argument |
| ShellQuote.CanonicalInjective | internal/aclrules/aclrules.go:255-263 | two invocations share a match string if and only if they are the same |
| ShellQuote.Canonicalize | internal/aclrules/aclrules.go:255-263 | the builder loop computes the canonical string |
| Regex.LiteralBodyIs | internal/aclrules/aclrules.go:330-342 | quoting and the three replacements act character by character |
| Regex.EngineOnLiteral | internal/aclrules/aclrules.go:330-342 | the printed pattern compiles and matches exactly the text it was printed for |
| Rules.ParseNames | internal/aclrules/aclrules.go:200-240 | the column loops return the trimmed names if all are accepted, else nothing |
| Rules.Parse | internal/aclrules/aclrules.go:110-134 | the rules and errors of the lines in order, up to a line that is too long to scan |
| Rules.FilterBySurface | internal/aclrules/aclrules.go:95-103 | the rules of the surface, in order |
| Rules.Select | cmd/alice/exec.go:233-239 | the first rule that matches, or none |
| Rules.Gate | cmd/alice/exec.go:226-241 | a file with any bad line or a match-everything rule decides nothing; otherwise the first matching rule of the surface does |
| Rules.AllowedExactly | cmd/alice/exec.go:226-241 | default deny: an invocation is allowed if and only if the file loads and a rule tagged for the surface matches it, and the rule found is one of those |
| Rules.FirstMatchIs | cmd/alice/exec.go:233-239 | the rule found matches and none before it does |
| AutoBless.SortOrders | internal/aclrules/aclrules.go:343-344 | the names of the printed column are in ascending order, each as often as it was given |
| AutoBless.SameLine | internal/aclrules/aclrules.go:328-360 | the order in which env names are given does not change the printed line |
| AutoBless.LiteralParses | internal/aclrules/aclrules.go:136-194 | a printed line always parses, whatever the arguments hold, to the printed names, label and the cli surface |
| AutoBless.BlessedMatches | internal/aclrules/aclrules.go:268-281 | the parsed rule matches if and only if the match string is the blessed one and the names are among the blessed names |
| Append.AppendsOneLine | cmd/alice/exec.go:397-424 | the appended text is a line of its own if and only if the file was empty or ended in a line break |
| Append.AppendLoads | internal/aclrules/aclrules.go:283-314 | the file loads with exactly the printed rule added, at the end, if and only if its last line was finished and the printed line fits the scanner |
| Unfinished.UnfinishedLoads | internal/aclrules/aclrules.go:136-194 | a labelled line after an unfinished last line: the file loads if and only if the glued line fits and the last line was a comment, or it had no tab and the glued pattern compiles and is not trivial; the rules are then those of the other lines, followed by the glued one unless the last line was a comment |
| Unfinished.UnfinishedDecides | cmd/alice/exec.go:226-262 | the decisions then: the lines before the last decide as they did, and what they leave is allowed exactly when the glued pattern matches, on the cli surface, with names among the blessed |
| Unfinished.PrintedThenBroken | internal/aclrules/aclrules.go:136-140 | after a printed rule without its line break, one more blessing makes every decision an error, for every surface and every invocation |
| Unfinished.GluedToComment | cmd/alice/exec.go:420 | a line glued to an unfinished comment changes nothing |
| Unfinished.NoteSwallows | cmd/alice/exec.go:420 | one such file: the invocation stays denied |
| Bless.BlessExactly | cmd/alice/exec.go:226-262 | for every file that loads: with a finished last line and a line that fits, earlier first matches stay and otherwise exactly the same command, arguments and a subset of the names are newly allowed, on the cli surface only; a finished last line and a line that does not fit stops the file from loading; with an unfinished last line no decision is the printed rule, earlier lines decide as before only while the glued file loads, and for a labelled line the exact decision is that of Unfinished.UnfinishedDecides |
| Bless.BlessTakes | cmd/alice/exec.go:397-424 | an invocation that was denied is decided by the printed rule if and only if the file was empty or ended in a line break and the line fits |
| Redact.Scan | internal/redact/redact.go:172-220 | the replacing scan and the names it found and missed, in order |
| Redact.Restore | internal/redact/redact.go:172-185 | placeholders of resolved keys are replaced, the others stay and are reported |
| Redact.RestoreUnvaulted | internal/redact/redact.go:189-220 | token placeholders are replaced by the first token of the existing file with that digest prefix, counted, or reported |
| Redact.ExtractPlaceholders | internal/redact/redact.go:223-233 | a key is extracted if and only if it is well-formed and its placeholder occurs in the text; each once |
| Redact.NamesExactly | internal/redact/redact.go:172-220 | the scan finds exactly the well-formed placeholders that occur in the text |
| Redact.CollectTokens | internal/redact/redact.go:189-207 | the loop collects the specified tokens |
| Redact.TokensExactly | internal/redact/redact.go:189-207 | the collected tokens are exactly the suspicious tokens of the lines, each once |
| Redact.RedactUnvaultedTokens | internal/redact/redact.go:104-127 | each line without a placeholder has its tokens replaced; the other lines stay |
| Redact.SortEntries | internal/redact/redact.go:83-91 | some longest-first order of the non-empty values; among equal lengths any |
| Redact.RedactContent | internal/redact/redact.go:80-102 | both phases, for some such order |
| Documents.ScanShows | internal/redact/redact.go:172-220 | the scan finds exactly the inserted marks when the original text has no placeholder |
| Documents.MarkDocIs | internal/redact/redact.go:92-94 | replacing a value marks its occurrences in the literal text and leaves earlier placeholders whole |
| Documents.MarkFirstIs | internal/redact/redact.go:120-121 | so does replacing a token once |
| DocLines.LinesRender | internal/redact/redact.go:105 | a placeholder stays on one line even if its value spanned several |
| RedactProps.KnownRoundTrip | internal/redact/redact.go:83-94 | for every order, restoring undoes the replacement of known values and misses nothing |
| RedactProps.RoundTrip | cmd/alice/safe.go:139-160 | redact, restore, restore-unvaulted gives the text back if and only if stripQuotes changes no redacted token; no placeholder is left over |
| RedactEdges.QuotesLost | internal/redact/redact.go:111-121 | an assignment of a quoted secret does not come back |
| RedactEdges.SpaceLost | internal/redact/redact.go:149-160 | nor one without any quote, when white space that the pattern does not skip stands before the secret |
| RedactEdges.AccessKeyLost | internal/redact/redact.go:49 | one input of each kind: an access key of the form AKIA and sixteen capital letters |
| RedactLeft.FirstPhaseClears | internal/redact/redact.go:92-94 | after the first phase no value is left, in whatever order they were replaced |
| RedactLeft.SecondPhaseAddsNothing | internal/redact/redact.go:104-127 | the second phase brings in no value, not even one that spans several lines |
| RedactLeft.NothingLeft | internal/redact/redact.go:80-127 | no known value occurs in the redacted text |
| RedactLeft.LongestWins | internal/redact/redact.go:83-94 | the longest value that occurs is replaced everywhere before another can take a part of it |
| RedactLeft.WholeValue | internal/redact/redact.go:83-94 | a text that is exactly a value becomes exactly its placeholder |
| RedactSyntax.EnvExactly | internal/redact/redact.go:58 | the scanner yields a value if and only if the line has the shape of the assignment pattern with that value |
| RedactSyntax.YamlExactly | internal/redact/redact.go:59 | likewise for the colon pattern |
| RedactSyntax.PairExactly | internal/redact/redact.go:60 | likewise for a quoted pair at a position |
| RedactSyntax.JsonExactly | internal/redact/redact.go:141-143 | the candidate is the value of the leftmost pair, if there is one |
| RedactSyntax.StripsEdges | internal/redact/redact.go:149-160 | stripping takes at most one quote from each side, and a comma behind the closing one, and leaves none it could have taken |

## Left out

- Envelope files are modelled after JSON and base64 decoding, and the `kdf` label is not kept: unwrapping never reads it.
- TTY prompts, sockets, TLS, client certificates, pairing, daemonizing, mlock, audit events and process execution are not modelled.
- Shannon entropy, the bigram list and the secret patterns are one abstract predicate; SHA-256 is an arbitrary function to 64 hex digits.
- Patterns outside the literal fragment of RE2 are whatever the engine parameter says; lint warnings are left out.
- Lifecycle.EveryEntryDecrypts: treats every command as one step, so two alice processes that race on one vault, and vault files rolled back from a copy, are outside it; key ids are assumed not to reach the end of Go's int.
- Migrate.EntryMeaning: the migration changes the version of an entry but not its KeyEpoch, as the code does, and the model keeps that.
- Revoke.NothingLost: the script's password is the master password and a restart replaces the daemon; a daemon in the foreground that the script cannot stop is not modelled.
- RevokeDone.CanAdvance: a successful outcome exists; that a command takes it is up to files, sockets and the terminal, which are not modelled.
- Revoke.ScriptKeeps: the script finds the ids by reading the envelope file; that reading is taken as correct.
- Keystore.Store.AddKey: on an id that is held already the old buffer is dropped without being wiped, as in the code; the contract promises nothing about it.
- Server.Server.DecryptMany: the daemon decrypts a batch under one lock state; a timer callback that comes between two items of a batch makes the rest fail and is not modelled inside the loop.
- RateLimit.WindowBound: tokens are real numbers, without the rounding of float64.
- Bless.BlessExactly: for an unfinished last line the exact decision is stated for lines with a label, as `alice exec` appends them (cmd/alice/exec.go:256-257); which glued patterns compile and what they match is up to the engine parameter; the comment block written into a new rules file is a parameter of skipped lines; a label may not end in a carriage return, which the scanner would drop.
- Append.AppendLoads: two processes that append at the same time are not modelled.
- RedactProps.RoundTrip: values and redacted tokens are free of `<` and `>` and part of no placeholder they can be replaced by, the text has no placeholder of its own, and no two of its tokens have digests that begin with the same 12 digits; key names have the form that `alice set` enforces.
- RedactSyntax.EnvExactly: stated for the captured value of a trimmed line, as the code calls it.
- Redact.Scan: text is a sequence of Unicode scalar values; invalid UTF-8 is not modelled.
- The printing and listing commands, the placeholder lint and the other backup scripts would only add easy members.
