# Encrypted wallet custody layer

A Dafny model of how the chat bots of this repository hold their users'
Ethereum private keys: the `CypherX` envelope cipher, the file-only
`WalletManager`, the two database-backed managers (`SamuraiWalletManager` with
its `WalletService` keyed by username, and `OnchainWikiWalletManager` with its
`WalletService` keyed by user id under two unique indexes), and the
`withRetry` backoff loop the bot start-up uses.

Layout, one module per file:

- `wrappers.dfy` — `Option`, `Result` and `Outcome` (a result without a value).
- `hex.dfy` (`Hex`) — `Buffer.from(s, 'hex')` and `toString('hex')`, including
  Node's lenient decoder that stops at the first pair that is not two hex digits.
- `cipher.dfy` (`Cipher`) — `CypherX.encrypt`, `decrypt` and `generateKey`:
  the 32-byte key check, the `iv:authTag:ciphertext` envelope, JavaScript's
  `split(':')`, the error messages.
- `wallets.dfy` (`Wallets`) — the wallet record, its key-free summary, the
  errors, and the list operations every manager applies to a snapshot
  (filter a username out, upsert by username, find, rename the first match).
- `keys.dfy` (`Keys`) — the ethers.js calls on private keys, the
  sign-and-recover proof of possession, case-insensitive address comparison.
- `snapshot.dfy` (`Snapshot`) — the encrypted file `data/wallets.enc`:
  reading (all failures read as `[]`), writing, backup file names.
- `file_wallets.dfy` (`FileWallets`) — `WalletManager` as a class whose field
  is the file.
- `samurai_store.dfy`, `samurai_wallets.dfy` (`SamuraiStore`, `SamuraiWallets`)
  — the samurai document store and manager.
- `wiki_store.dfy`, `wiki_wallets.dfy` (`WikiStore`, `WikiWallets`) — the
  on-chain-wiki document store and manager.
- `retry.dfy` (`Retry`) — `withRetry` and `RETRY_CONFIG`.

The cryptographic and library primitives are parameters, not axioms:
`Cipher.Aead` carries AES-256-GCM's `seal` and `open` with the predicate
`Correct()` (open undoes seal under the same key, the tag is 16 bytes, the
ciphertext is empty only for empty text); `Keys.Ethers` carries key-to-address
derivation, signing and recovery with `Sound()` (a signature recovers to the
signer's address); `Snapshot.Json` carries `JSON.stringify`/`JSON.parse` with
`Faithful()` (a list parses back as itself). Every property that depends on
them says so in its `requires` or under a `Valid()` premise. Randomness (the
IV, the generated key, `ethers.Wallet.createRandom()`), clocks (`createdAt`,
backup timestamps) and the answers of the chain contract are parameters too.

Each document collection is a sequence in the store's natural order, so that
`findOne` returns the first match and `deleteOne` removes the first match; the
file is `Option<string>`, `None` while it does not exist.

What the model shows about the system:

- Encryption round-trips for every non-empty text under a valid key
  (`Cipher.RoundTrip`), but an empty text encrypts to `iv:tag:` and decrypting
  that is refused as malformed (`Cipher.EmptyTextDoesNotRoundTrip`), because
  the empty third segment fails the format check.
- A key is accepted exactly when its first 64 characters are hex digits and
  the next two, if any, are not both hex digits: Node's decoder stops there, so
  a longer key with trailing junk passes (`Cipher.ValidKeyExactly`).
- The file store: whatever a save writes reads back as exactly the list saved
  (`Snapshot.ReadAfterWrite`), so after `saveWallet`, `deleteWallet` and
  `updateWalletUsername` the file holds the upserted, filtered or renamed list.
- `WalletManager.updateWalletUsername` as written never renames anything: it
  recovers the signer with `ethers.utils.verifyMessage`, which the ethers v6
  used by the rest of the repository does not have
  (`FileWallets.RenameAsWrittenNeverSucceeds`). As intended, it checks that
  the STORED key signs for the stored address; the private key the caller
  passes is never consulted, and a rename onto a username that already exists
  leaves two records with that username (`Wallets.RenameMayDuplicate`).
- The database-backed managers read the file only when the store is empty; a
  store that fails to decrypt any one document yields `[]`, not the file
  (`SamuraiWallets.FallbackOnlyWhenStoreEmpty`).
- Because of that, the samurai `updateWalletUsername` leaves the file backup
  stale: it reads the list for the backup after the store has renamed the
  document, so the old username is no longer there to rename
  (`SamuraiWallets.StaleBackupAfterRename`; the corrected order is
  `SamuraiWalletManager.UpdateWalletUsernameWithBackup`).
- In the on-chain-wiki manager the file fallback of `getWallet` looks for a
  field no record has, so it never finds anything (`WikiWallets.Resolve`).
- Saving to the on-chain-wiki store upserts by user id and is refused when
  another user already holds the username; the two unique indexes are kept
  (`WikiStore.SaveKeepsUnique`).
- Started at zero, `withRetry` calls the operation at most four times and
  sleeps 1000, 2000, 4000 ms at most; the 5000 ms cap is never reached
  (`Retry.DelaysFromZero`).

## Model

| member | source | states |
|---|---|---|
| `Hex.Encode` | src/lib/Encryption.ts:40 | the hex form has two characters per byte, all lower-case hex digits |
| `Hex.Decode` | src/lib/Encryption.ts:65-66 | Node's hex decoder: never more bytes than half the characters |
| `Hex.DecodeEncode` | src/lib/Encryption.ts:65-66 | decoding undoes encoding for every byte string, so the IV and tag hex written by encrypt read back as the bytes |
| `Hex.DecodeAtLeast` | src/lib/Encryption.ts:12 | the decoder yields at least n bytes exactly when the first 2n characters are hex digits |
| `Cipher.ValidKeyExactly` | src/lib/Encryption.ts:12-14 | the key check passes iff the first 64 characters are hex and the next pair is not both hex |
| `Cipher.Segments` | src/lib/Encryption.ts:57 | `split(':')` gives at least one part and no part contains ':' |
| `Cipher.SegmentsJoin` | src/lib/Encryption.ts:40 | splitting the colon-joined parts gives the parts back when none contains ':' |
| `Cipher.JoinSegments` | src/lib/Encryption.ts:60 | joining the parts of a split gives the text back |
| `Cipher.EnvelopeSegments` | src/lib/Encryption.ts:38-40 | an envelope splits into exactly iv hex, tag hex and ciphertext hex |
| `Cipher.Encrypt` | src/lib/Encryption.ts:10-41 | fails with the key-length message iff the key is invalid; else three segments, the first the 32-hex IV, with a 32-hex tag and a ciphertext empty only for empty text |
| `Cipher.Decrypt` | src/lib/Encryption.ts:49-90 | an invalid key gives the key-length message unprefixed; every other failure is prefixed 'Decryption failed: '; a missing or empty segment gives the format error; ciphertext hex of odd length is refused |
| `Cipher.RoundTrip` | src/lib/Encryption.ts:102-116 | under a valid key and a correct cipher, decrypting an encryption of non-empty text gives the text |
| `Cipher.OddCiphertextRejected` | src/lib/Encryption.ts:79-80 | an envelope whose ciphertext hex has odd length is refused with the 'Decryption failed: ' prefix, even under a valid key |
| `Cipher.EmptyTextDoesNotRoundTrip` | src/lib/Encryption.ts:60-62 | an encryption of the empty text is refused by decrypt as malformed |
| `Cipher.GenerateKey` | src/lib/Encryption.ts:96-98 | 64 hex characters that decode to the 32 random bytes and pass the key check |
| `Wallets.Summaries` | src/lib/WalletManager.ts:96-103 | one summary per record, in order, with address, username and creation time |
| `Wallets.IndexOf` | src/lib/WalletManager.ts:157 | the first position holding the username, or none when no record has it |
| `Wallets.Without` | src/lib/WalletManager.ts:139 | a record survives iff it is in the list and has another username |
| `Wallets.WithoutLength` | src/lib/WalletManager.ts:138-143 | the filter leaves the length unchanged iff no record has the username, and then the list is unchanged |
| `Wallets.WithoutIdempotent` | src/lib/WalletManager.ts:139 | filtering a username out twice is filtering it once |
| `Wallets.WithoutKeepsUnique` | src/lib/samuraiW3/Wallet_Manager.ts:167 | filtering keeps usernames unique |
| `Wallets.Upsert` | src/lib/WalletManager.ts:47-49 | the saved record is last, no other record has its username, and the records before it are exactly the list with that username filtered out, in order |
| `Wallets.UpsertIdempotent` | src/lib/WalletManager.ts:44-53 | saving the same record twice is saving it once |
| `Wallets.FindAfterUpsert` | src/lib/WalletManager.ts:55-58 | after saving, looking the username up gives the saved record |
| `Wallets.FindAfterUpsertOther` | src/lib/samuraiW3/Wallet_Manager.ts:68-69 | saving one username leaves the lookup of every other username unchanged |
| `Wallets.FindWithoutAppend` | src/lib/WalletManager.ts:47-49 | after filtering one username out and appending its record, every other username is found as before |
| `Wallets.UpsertKeepsUnique` | src/lib/onchainWiki/wallet/Wallet_Manager.ts:81-82 | saving keeps usernames unique |
| `Wallets.RenameFirst` | src/lib/WalletManager.ts:174 | only the first record of the username changes, and only its username |
| `Wallets.RenameMayDuplicate` | src/lib/WalletManager.ts:154-178 | renaming onto a username already in use leaves two records with it |
| `Keys.ProvePossession` | src/lib/samuraiW3/Wallet_Manager.ts:188-195 | fails with a rejected key iff ethers derives nothing; with sound signing passes iff the stored key derives the stored address |
| `Keys.AddressesFromKey` | src/lib/onchainWiki/wallet/Wallet_Manager.ts:170-178 | exactly the one derived address, or the invalid-private-key error iff ethers derives none |
| `Keys.ImportedKeyProvesPossession` | src/lib/onchainWiki/wallet/Wallet_Manager.ts:187-198 | a record built from a key and its derived address passes the later proof of possession |
| `Keys.SameAddressExactly` | src/lib/samuraiW3/Wallet_Manager.ts:239 | two addresses are equal ignoring case iff they have the same length and agree character by character after lower-casing |
| `Keys.LowerIsSameAddress` | src/lib/samuraiW3/Wallet_Manager.ts:239-241 | an address equals its lower-cased form ignoring case |
| `Snapshot.Read` | src/lib/WalletManager.ts:82-92 | no file, a decrypt failure or an invalid key reads as the empty list; a decrypted text reads as the list it parses to, or as the empty list when it does not parse |
| `Snapshot.Write` | src/lib/WalletManager.ts:51-52 | the write fails iff the key is invalid, with the key-length message |
| `Snapshot.ReadAfterWrite` | src/lib/WalletManager.ts:86-88 | under a valid key the file written for a list reads back as that list |
| `Snapshot.SafeTimestamp` | src/lib/WalletManager.ts:124 | the same length as the timestamp, with every ':' and '.' replaced by '-' |
| `FileWallets.PlanDelete` | src/lib/WalletManager.ts:137-143 | 'Wallet not found' iff no record has the username; else a shorter list without it and with every other record |
| `FileWallets.PlanRename` | src/lib/WalletManager.ts:156-174 | the intended decision (see Findings): not found iff no record; with sound signing succeeds iff the stored key derives the stored address; the first record renamed, the rest unchanged |
| `FileWallets.RenameAsWrittenNeverSucceeds` | src/lib/WalletManager.ts:163-171 | as written the rename always fails: not found iff no record has the username, and the `ethers.utils` TypeError for every found record whose key ethers accepts |
| `FileWallets.RenameAsWrittenRefusesProvenKey` | src/lib/WalletManager.ts:168 | a record whose key derives its address is renamed by the intended decision but refused with the TypeError by the code as written |
| `FileWallets.WalletManager.constructor` | src/lib/WalletManager.ts:18-22 | a manager over the given key and file |
| `FileWallets.WalletManager.GetAllWallets` | src/lib/WalletManager.ts:80-93 | no file or an invalid key gives the empty list; a decrypted file gives the list it parses to, or the empty list when it does not parse |
| `FileWallets.WalletManager.GetWallet` | src/lib/WalletManager.ts:55-58 | the first stored record with that username, or null iff none has it |
| `FileWallets.WalletManager.GetUserSummary` | src/lib/WalletManager.ts:60-73 | a summary iff the wallet exists: exactly the address, username and creation time of the first record with that username |
| `FileWallets.WalletManager.GetWalletSummary` | src/lib/WalletManager.ts:96-103 | one summary per stored record, in order |
| `FileWallets.WalletManager.BackupWallets` | src/lib/WalletManager.ts:118-133 | fails with 'No wallet file exists to backup' iff there is no file; else the backup path and the ciphertext copied unchanged |
| `FileWallets.WalletManager.SaveWallet` | src/lib/WalletManager.ts:44-53 | succeeds iff the key is valid; the file then reads back as the old list upserted with the record |
| `FileWallets.WalletManager.CreateWallet` | src/lib/WalletManager.ts:31-42 | the record of the random key, its derived address and the username; afterwards getWallet finds exactly it |
| `FileWallets.WalletManager.DeleteWallet` | src/lib/WalletManager.ts:135-152 | not found, file untouched, iff no record has the username; else the file reads back as the list without it |
| `FileWallets.WalletManager.UpdateWalletUsername` | src/lib/WalletManager.ts:154-185 | the intended rename (see Findings): fails exactly as that decision does, file untouched; else returns the renamed record and the file reads back as the renamed list |
| `FileWallets.WalletManager.UpdateWalletUsernameAsWritten` | src/lib/WalletManager.ts:154-185 | the rename as written: fails on every input, with the TypeError for a found record whose key ethers accepts, and leaves the file untouched |
| `SamuraiStore.Seal` | src/lib/samuraiW3/WalletService.ts:18-25 | fails iff the key is invalid; else a document with the same username, address and time and an envelope for a key |
| `SamuraiStore.StoredKeyIsNotPlain` | src/lib/samuraiW3/WalletService.ts:18-23 | the stored key field is never the private key itself |
| `SamuraiStore.Open` | src/lib/samuraiW3/WalletService.ts:39-44 | fails iff the envelope does not decrypt; else the document with its key decrypted |
| `SamuraiStore.OpenAll` | src/lib/samuraiW3/WalletService.ts:60-68 | succeeds iff every document decrypts; then one record per document, in order |
| `SamuraiStore.DocIndex` | src/lib/samuraiW3/WalletService.ts:35 | the first document with the username, or none iff no document has it |
| `SamuraiStore.UpsertDoc` | src/lib/samuraiW3/WalletService.ts:27-31 | replaces the first document of the username in place, or appends when there is none |
| `SamuraiStore.Lookup` | src/lib/samuraiW3/WalletService.ts:34-45 | null iff no document has the username; otherwise the first such document opened: a failure iff its key does not decrypt, with that error, else exactly that document with its key decrypted |
| `SamuraiStore.LookupAfterSave` | src/lib/samuraiW3/WalletService.ts:17-45 | after saving a record with a non-empty key, getWallet returns exactly that record |
| `SamuraiStore.PublicAll` | src/lib/samuraiW3/WalletService.ts:70-78 | one record per document, in order, each with an empty key |
| `SamuraiStore.WalletService.constructor` | src/lib/samuraiW3/WalletService.ts:9-11 | a service over the given key and collection |
| `SamuraiStore.WalletService.SaveWallet` | src/lib/samuraiW3/WalletService.ts:17-32 | succeeds iff the key is valid, and then the collection is the upsert of the sealed document |
| `SamuraiStore.WalletService.GetUser` | src/lib/samuraiW3/WalletService.ts:47-58 | the first document of the username with an empty key, or null iff none |
| `SamuraiStore.WalletService.DeleteWallet` | src/lib/samuraiW3/WalletService.ts:80-83 | true iff a document had the username, and exactly that first document is removed |
| `SamuraiStore.WalletService.UpdateWalletUsername` | src/lib/samuraiW3/WalletService.ts:85-91 | the first document of the username is renamed; true iff one matched and the name changed |
| `SamuraiWallets.AllWallets` | src/lib/samuraiW3/Wallet_Manager.ts:97-116 | a store error gives []; a non-empty store gives its records; only an empty store reads the file |
| `SamuraiWallets.FallbackOnlyWhenStoreEmpty` | src/lib/samuraiW3/Wallet_Manager.ts:100-103 | with a non-empty store a username it lacks is not found in the list either |
| `SamuraiWallets.Resolve` | src/lib/samuraiW3/Wallet_Manager.ts:75-83 | with a non-empty store the answer is the store's lookup; with an empty store it is the first record of the username in the file, or null when the file has none |
| `SamuraiWallets.FallbackFindsFileRecord` | src/lib/samuraiW3/Wallet_Manager.ts:80-82 | with the store empty a record in the file is found |
| `SamuraiWallets.SamuraiWalletManager.constructor` | src/lib/samuraiW3/Wallet_Manager.ts:15-21 | a manager over the given service and file |
| `SamuraiWallets.SamuraiWalletManager.GetUserSummary` | src/lib/samuraiW3/Wallet_Manager.ts:85-95 | errors pass through; a summary iff getWallet found a record, with its username |
| `SamuraiWallets.SamuraiWalletManager.GetWalletSummary` | src/lib/samuraiW3/Wallet_Manager.ts:118-125 | one summary per store document, in order; the file is not read |
| `SamuraiWallets.SamuraiWalletManager.BackupWallets` | src/lib/samuraiW3/Wallet_Manager.ts:139-154 | store errors pass through; with a readable list the backup succeeds iff the key is valid, and reads back as the store's list |
| `SamuraiWallets.SamuraiWalletManager.SaveWallet` | src/lib/samuraiW3/Wallet_Manager.ts:62-73 | succeeds iff the key is valid; the store is upserted and the file reads back as the post-write list upserted with the record |
| `SamuraiWallets.SamuraiWalletManager.CreateWallet` | src/lib/samuraiW3/Wallet_Manager.ts:35-60 | already created, nothing written, iff the store has an address for the username; otherwise created iff the key is valid: the store is upserted with the sealed record, the file is rewritten with the list upserted with it, and getWallet returns it |
| `SamuraiWallets.SamuraiWalletManager.DeleteWallet` | src/lib/samuraiW3/Wallet_Manager.ts:156-177 | not found, nothing changed, iff the store lacks the username; when it has it, succeeds iff the key is valid, its first document is removed and the file reads back without the username |
| `SamuraiWallets.SamuraiWalletManager.UpdateWalletUsername` | src/lib/samuraiW3/Wallet_Manager.ts:179-215 | lookup errors, not found and a failed proof change nothing; else succeeds, renames the store's first document and returns the record renamed; the file is rewritten only when the list read after the store rename still has the old username (see Findings) |
| `SamuraiWallets.StaleBackupAfterRename` | src/lib/samuraiW3/Wallet_Manager.ts:198-208 | once the store's only document of the username is renamed, the list the file backup is rewritten from no longer has the old username |
| `SamuraiWallets.StoreRecordListed` | src/lib/samuraiW3/Wallet_Manager.ts:97-103 | a document of the username in a store that opens as a whole is in the list getAllWallets reads |
| `SamuraiWallets.SamuraiWalletManager.UpdateWalletUsernameWithBackup` | src/lib/samuraiW3/Wallet_Manager.ts:179-215 | as the rename, but the list is read before the store rename: whenever the store was empty or readable, a successful rename rewrites the file with the first record renamed, and the file reads back as that list |
| `SamuraiWallets.SamuraiWalletManager.ImportExisitingWallet` | src/lib/samuraiW3/Wallet_Manager.ts:231-257 | a rejected key or an address mismatch ignoring case changes nothing; else the record with the derived address is saved, succeeding iff the key is valid, and the file is rewritten with the list upserted with it |
| `WikiStore.Seal` | src/lib/onchainWiki/wallet/WalletService.ts:44-52 | fails iff the key is invalid; else a document with the same username, user id, address and time |
| `WikiStore.Open` | src/lib/onchainWiki/wallet/WalletService.ts:73-79 | fails iff the envelope does not decrypt; else the record with its key and user id |
| `WikiStore.OpenAll` | src/lib/onchainWiki/wallet/WalletService.ts:105-119 | succeeds iff every document decrypts; then one record per document, in order |
| `WikiStore.UserIndex` | src/lib/onchainWiki/wallet/WalletService.ts:69 | the first document of the user id, or none iff no document has it |
| `WikiStore.NameIndex` | src/lib/onchainWiki/wallet/WalletService.ts:139 | the first document of the username, or none iff no document has it |
| `WikiStore.SaveDoc` | src/lib/onchainWiki/wallet/WalletService.ts:54-58 | a duplicate-key error iff another user holds the username; else replace by user id or append |
| `WikiStore.SaveKeepsUnique` | src/lib/onchainWiki/wallet/WalletModel.ts:11-21 | an accepted save keeps usernames and user ids unique |
| `WikiStore.UserIndexUnique` | src/lib/onchainWiki/wallet/WalletModel.ts:17-21 | with unique user ids, each document is the one found for its user id |
| `WikiStore.Lookup` | src/lib/onchainWiki/wallet/WalletService.ts:67-79 | null iff no document has the user id; otherwise the first such document opened: a failure iff its key does not decrypt, with that error, else exactly that document with its key decrypted and its user id |
| `WikiStore.LookupAfterSave` | src/lib/onchainWiki/wallet/WalletService.ts:67-84 | after an accepted save of a record with a non-empty key, getWallet by its user id returns exactly it |
| `WikiStore.WalletService.constructor` | src/lib/onchainWiki/wallet/WalletService.ts:9-11 | a service over a collection whose usernames and user ids are unique |
| `WikiStore.WalletService.SaveWallet` | src/lib/onchainWiki/wallet/WalletService.ts:42-65 | an invalid key or a username of another user changes nothing; else the save decision is applied, keeping both indexes unique |
| `WikiStore.WalletService.GetUser` | src/lib/onchainWiki/wallet/WalletService.ts:86-103 | null iff the user id has no document; otherwise exactly the address, username and creation time of its first document, with the user id and an empty key |
| `WikiStore.WalletService.GetAllUsers` | src/lib/onchainWiki/wallet/WalletService.ts:121-135 | one record per document, in order, each with the key 'null' |
| `WikiStore.WalletService.DeleteWallet` | src/lib/onchainWiki/wallet/WalletService.ts:137-145 | true iff a document had the username, which is removed; none is left with it |
| `WikiWallets.AllWallets` | src/lib/onchainWiki/wallet/Wallet_Manager.ts:111-130 | a store error gives []; a non-empty store gives its records; only an empty store reads the file |
| `WikiWallets.Resolve` | src/lib/onchainWiki/wallet/Wallet_Manager.ts:89-97 | exactly the store's lookup by user id (null iff no document of the user id, else its document opened); the file fallback never finds a record |
| `WikiWallets.OnchainWikiWalletManager.constructor` | src/lib/onchainWiki/wallet/Wallet_Manager.ts:16-21 | a manager over the given service and file |
| `WikiWallets.OnchainWikiWalletManager.GetUserSummary` | src/lib/onchainWiki/wallet/Wallet_Manager.ts:99-109 | errors pass through; a summary iff the store holds the user id |
| `WikiWallets.OnchainWikiWalletManager.GetWalletSummary` | src/lib/onchainWiki/wallet/Wallet_Manager.ts:132-139 | one summary per store document, in order |
| `WikiWallets.OnchainWikiWalletManager.BackupWallets` | src/lib/onchainWiki/wallet/Wallet_Manager.ts:153-168 | store errors pass through; with a readable list the backup succeeds iff the key is valid, and reads back as the store's list |
| `WikiWallets.OnchainWikiWalletManager.SaveWallet` | src/lib/onchainWiki/wallet/Wallet_Manager.ts:75-87 | a refused store write changes nothing; else the file reads back as the post-write list upserted with the record, which getWallet returns |
| `WikiWallets.OnchainWikiWalletManager.CreateWallet` | src/lib/onchainWiki/wallet/Wallet_Manager.ts:35-73 | already created iff the store has an address or the chain knows the user; a refused binding writes nothing; once bound, created iff the key is valid and no other user holds the username: the file is rewritten with the list upserted with the record, which getWallet returns |
| `WikiWallets.OnchainWikiWalletManager.ImportExisitingWallet` | src/lib/onchainWiki/wallet/Wallet_Manager.ts:180-207 | a rejected key or an address mismatch ignoring case changes nothing; else saved iff the key is valid and no other user holds the username, and the file is rewritten with the list upserted with the record of username, user id and derived address |
| `Retry.Delay` | src/testt.ts:36-39 | exactly the smaller of 1000·2^k and 5000: at least 1000, at most both, and equal to one of them |
| `Retry.WithRetry` | src/testt.ts:23-48 | at most three sleeps; the k-th is the delay of its retry count; every retried call threw a retryable error; the result is the last call's, rethrown only when out of retries or not retryable |
| `Retry.DelaysFromZero` | src/testt.ts:15-19 | started at zero the sleeps are a prefix of 1000, 2000, 4000 ms |
| `Retry.DelayMonotone` | src/testt.ts:36-39 | a later retry never waits less |
| `Retry.SuccessFirstTime` | src/testt.ts:28 | a first success is returned without retrying |
| `Retry.NonRetryableRethrown` | src/testt.ts:35-47 | an error that is not a timeout, refused connection or system error is rethrown at once |

## Left out

- `FileWallets.PlanRename` and `FileWallets.WalletManager.UpdateWalletUsername` model the intended rename with a working `verifyMessage`; the code as written calls `ethers.utils.verifyMessage`, which does not exist in the ethers v6 the rest of the repository uses, and is modelled separately (see Findings).
- AES-256-GCM itself: `Cipher.Aead` is an abstract cipher with the round-trip property; tamper detection, IV freshness and what GCM does with an IV or tag of odd length are not modelled.
- UTF-8: text is a sequence of characters; the utf8 conversions inside the cipher are part of the abstract cipher. The ciphertext hex is handed to the abstract cipher undecoded, as to `decipher.update`, and the cipher is required to refuse hex of odd length; what it does with other malformed hex is not modelled.
- ethers.js: key-to-address derivation, `signMessage` and `verifyMessage` are the abstract `Keys.Ethers`; checksummed address formats are not modelled.
- `Keys.SameAddress`: `toLowerCase` is modelled for ASCII letters only.
- JSON: `Snapshot.Json` is abstract; a file whose JSON parses to something other than a wallet list reads as `[]`.
- The filesystem: `fs.existsSync`, `readFileSync`, `writeFileSync` and `copyFileSync` are the `file` field and returned contents; `ensureDataDirectory` and `readEncryptedFile` (a plain read of that field) are not modelled, nor are read or write I/O errors.
- src/lib/utils/Encryption.ts, which the samurai and on-chain-wiki stores and managers import `CypherX` from, is not part of this model; that `CypherX` is taken to be the one in src/lib/Encryption.ts.
- `path.join` is modelled as joining with '/', without normalising the directory path.
- MongoDB: `connect`, `close`, connection options and handlers are not modelled; a collection is a sequence in natural order rather than a map, so that first-match `findOne`/`deleteOne` are exact.
- The chain contract: `userExists` and `bindUserToWallet` are boolean parameters of `WikiWallets.OnchainWikiWalletManager.CreateWallet`; exceptions they throw are not modelled.
- Clocks and randomness: timestamps, IVs, `crypto.randomBytes` and `ethers.Wallet.createRandom` are parameters.
- `ERROR_MESSAGES` tags: `WALLET_CREATED`, `WALLET_ERROR`, `WALLET_NOT_FOUND` and `INVALID_PRIVATE_KEY` are distinct constructors; their text is not modelled, and src/config/ModelConfig.ts as shipped does not define them.
- `WALLET_ERROR` followed by the thrown message: `WalletError(cause)` carries the failure, not the concatenated string.
- `getAddressesFromPrivateKey` of src/lib/samuraiW3/Wallet_Manager.ts:217-229 is the same operation as `Keys.AddressesFromKey` (its 'Invalid private key' message is the `InvalidPrivateKey` failure).
- The `if (!wallet)` branch after `ethers.Wallet.createRandom()` in the on-chain-wiki `createWallet` cannot be taken and is not modelled.
- `withRetry`'s `console.log` and the real wait of `sleep`: the delays are returned as a list instead.
- The Telegram and HTTP glue of src/testt.ts around `withRetry` is not part of this model.
- Concurrency: two requests interleaving their read-modify-write of the file or the store are not modelled; each operation runs alone.

## Findings

| source | as written | input that shows it | evidently intended | confidence | as-written member | corrected member |
|---|---|---|---|---|---|---|
| src/lib/samuraiW3/Wallet_Manager.ts:198-208 | the file backup is rewritten from `getAllWallets()` read after the store already renamed the document, so with a non-empty store the old username is not found and the file keeps the old name | a store holding one document for `alice`, `updateWalletUsername('alice', 'bob')` | the file record is renamed along with the store | not executed | `SamuraiWallets.StaleBackupAfterRename` | `SamuraiWallets.SamuraiWalletManager.UpdateWalletUsernameWithBackup` |
| src/lib/WalletManager.ts:168 | the file-only `updateWalletUsername` recovers the signer with `ethers.utils.verifyMessage`, which ethers v6 (used everywhere else: `ethers.verifyMessage`, `ethers.JsonRpcProvider`, `ethers.formatEther`) does not have, so it throws a TypeError after signing and the rename never happens | a file holding `[alice]` whose key derives alice's address, `updateWalletUsername('alice', 'bob', _)` | the stored key's signature is checked with `ethers.verifyMessage` and the record is renamed | not executed | `FileWallets.RenameAsWrittenRefusesProvenKey` | `FileWallets.PlanRename` |
