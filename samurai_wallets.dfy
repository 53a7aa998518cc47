/**
  `SamuraiWalletManager` of src/lib/samuraiW3/Wallet_Manager.ts: the
  document store first, the encrypted file as fallback snapshot. Writes go to
  the store, then the file is rewritten from `getAllWallets()`; reads ask the
  store first.
*/
module SamuraiWallets {
  import opened Wrappers
  import opened Hex
  import opened Cipher
  import opened Wallets
  import opened Keys
  import opened Snapshot
  import opened SamuraiStore

  /**
    What `createWallet` returns: the `WALLET_CREATED` tag, the `WALLET_ERROR`
    tag with the message of what was thrown, or the new record.
  */
  datatype CreateOutcome = AlreadyCreated | WalletError(cause: Failure) | Created(wallet: WalletData)

  /**
    `getAllWallets()`: the store's list when it is non-empty, else the file's
    list (`[]` when absent or unreadable); an error from the store yields `[]`.
  */
  function AllWallets(aead: Aead, json: Json, key: string, docs: seq<Document>, file: Option<string>): (r: seq<WalletData>)
    ensures OpenAll(aead, key, docs).Failure? ==> r == []
    ensures OpenAll(aead, key, docs).Success? && docs != [] ==> r == OpenAll(aead, key, docs).value
    ensures docs == [] ==> r == Read(aead, json, key, file)
  {
    match OpenAll(aead, key, docs)
    case Failure(_) => []
    case Success(primary) => if |primary| > 0 then primary else Read(aead, json, key, file)
  }

  /**
    A username the store does not hold is not found through the fallback
    either unless the store is empty: a non-empty store either answers the
    whole list or fails into `[]`, so the file is not read.
  */
  lemma FallbackOnlyWhenStoreEmpty(aead: Aead, json: Json, key: string, docs: seq<Document>, file: Option<string>, u: string)
    requires docs != [] && DocIndex(docs, u).None?
    ensures Find(AllWallets(aead, json, key, docs, file), u).None?
  {
    if OpenAll(aead, key, docs).Success? {
      OpenAllNames(aead, key, docs, u);
    }
  }

  /** `getWallet(u)`: the store's answer, else the first record of `u` in `getAllWallets()`. */
  function Resolve(aead: Aead, json: Json, key: string, docs: seq<Document>, file: Option<string>, u: string): (r: Result<Option<WalletData>, Failure>)
    ensures docs != [] ==> r == Lookup(aead, key, docs, u)
    ensures docs == [] ==> r == Success(Find(Read(aead, json, key, file), u))
    ensures r.Success? && r.value.Some? ==> r.value.value.username == u
  {
    match Lookup(aead, key, docs, u)
    case Failure(f) => Failure(f)
    case Success(Some(w)) => Success(Some(w))
    case Success(None) =>
      assert docs != [] ==> Find(AllWallets(aead, json, key, docs, file), u).None? by {
        if docs != [] {
          FallbackOnlyWhenStoreEmpty(aead, json, key, docs, file, u);
        }
      }
      Success(Find(AllWallets(aead, json, key, docs, file), u))
  }

  /**
    With the store empty, a record of `u` saved in the file is found there,
    its key as the file holds it.
  */
  lemma FallbackFindsFileRecord(aead: Aead, json: Json, key: string, file: Option<string>, u: string)
    requires Find(Read(aead, json, key, file), u).Some?
    ensures Resolve(aead, json, key, [], file, u) == Success(Find(Read(aead, json, key, file), u))
  {
  }

  /**
    The file backup goes stale on a rename: `updateWalletUsername` renames the
    store's document first and only then reads `getAllWallets()` to find the
    file record of `u`. With a non-empty store that list is the store's own,
    already renamed, so no record of `u` is found and the file is not rewritten.
  */
  lemma StaleBackupAfterRename(aead: Aead, json: Json, key: string, docs: seq<Document>, file: Option<string>, u: string, nu: string)
    requires DocIndex(docs, u).Some? && nu != u
    requires forall j :: 0 <= j < |docs| && j != DocIndex(docs, u).value ==> docs[j].username != u
    ensures var i := DocIndex(docs, u).value;
      IndexOf(AllWallets(aead, json, key, docs[i := docs[i].(username := nu)], file), u).None?
  {
    var i := DocIndex(docs, u).value;
    var renamed := docs[i := docs[i].(username := nu)];
    assert forall j :: 0 <= j < |renamed| ==> renamed[j].username != u;
    FallbackOnlyWhenStoreEmpty(aead, json, key, renamed, file, u);
  }

  /** A record the store yields is in the list `getAllWallets()` reads whenever the store opens as a whole. */
  lemma StoreRecordListed(aead: Aead, json: Json, key: string, docs: seq<Document>, file: Option<string>, u: string)
    requires DocIndex(docs, u).Some? && OpenAll(aead, key, docs).Success?
    ensures IndexOf(AllWallets(aead, json, key, docs, file), u).Some?
  {
    var i := DocIndex(docs, u).value;
    var ws := OpenAll(aead, key, docs).value;
    assert ws[i].username == u;
  }

  class SamuraiWalletManager {
    const service: WalletService
    /** The contents of `data/wallets.enc`; `None` while the file does not exist. */
    var file: Option<string>
    const json: Json
    const ethers: Ethers

    ghost predicate Valid() {
      service.aead.Correct() && json.Faithful() && ethers.Sound()
    }

    constructor(service: WalletService, json: Json, ethers: Ethers, file: Option<string>)
      ensures this.service == service && this.json == json && this.ethers == ethers && this.file == file
    {
      this.service, this.json, this.ethers, this.file := service, json, ethers, file;
    }

    function GetAllWallets(): seq<WalletData>
      reads this, service
    {
      AllWallets(service.aead, json, service.key, service.docs, file)
    }

    function GetWallet(u: string): Result<Option<WalletData>, Failure>
      reads this, service
    {
      Resolve(service.aead, json, service.key, service.docs, file, u)
    }

    /** `getUserSummary(u)`: the summary of `getWallet(u)`; its errors pass through. */
    function GetUserSummary(u: string): (r: Result<Option<Summary>, Failure>)
      reads this, service
      ensures r.Failure? <==> GetWallet(u).Failure?
      ensures r.Success? ==> (r.value.Some? <==> GetWallet(u).value.Some?)
      ensures r.Success? && r.value.Some? ==>
        r.value.value == ToSummary(GetWallet(u).value.value) && r.value.value.username == u
    {
      match GetWallet(u)
      case Failure(f) => Failure(f)
      case Success(None) => Success(None)
      case Success(Some(w)) => Success(Some(ToSummary(w)))
    }

    /** `getWalletSummary()`: one summary per document of the store, in order; the file is not read. */
    function GetWalletSummary(): (r: seq<Summary>)
      reads this, service
      ensures |r| == |service.docs|
      ensures forall i :: 0 <= i < |r| ==>
        r[i] == Summary(service.docs[i].address, service.docs[i].username, service.docs[i].createdAt)
    {
      Summaries(service.GetAllUsers())
    }

    /**
      `backupWallets(dir)`: the store's full list encrypted into a new file;
      a decrypt or encrypt error passes through. Under a valid key the backup
      reads back as the store's list.
    */
    function BackupWallets(dir: string, timestamp: string, iv: Iv): (r: Result<(string, string), Failure>)
      reads service
      ensures service.GetAllWallets().Failure? ==> r == Failure(service.GetAllWallets().error)
      ensures service.GetAllWallets().Success? ==> (r.Success? <==> ValidKey(service.key))
      ensures r.Success? ==> r.value.0 == BackupFile(dir, timestamp)
      ensures r.Success? && Valid() ==>
        Read(service.aead, json, service.key, Some(r.value.1)) == service.GetAllWallets().value
    {
      match service.GetAllWallets()
      case Failure(f) => Failure(f)
      case Success(ws) =>
        match Write(service.aead, json, service.key, iv, ws)
        case Failure(f) => Failure(f)
        case Success(contents) =>
          assert Valid() ==> Read(service.aead, json, service.key, Some(contents)) == ws by {
            if Valid() {
              ReadAfterWrite(service.aead, json, service.key, iv, ws);
            }
          }
          Success((BackupFile(dir, timestamp), contents))
    }

    /**
      `saveWallet(w)`: upsert into the store, then rewrite the file from
      `getAllWallets()` (read after the store write) with `w` as the one
      record of its username. An invalid key throws before either is written.
    */
    method SaveWallet(w: WalletData, keyIv: Iv, fileIv: Iv) returns (r: Outcome<Failure>)
      modifies this, service
      ensures r.Pass? <==> ValidKey(service.key)
      ensures r.Fail? ==> r.error == CipherError(KeyLengthMessage)
      ensures r.Fail? ==> file == old(file) && service.docs == old(service.docs)
      ensures r.Pass? ==> service.docs == UpsertDoc(old(service.docs), Seal(service.aead, service.key, keyIv, w).value)
      ensures r.Pass? ==>
        file == Some(Write(service.aead, json, service.key, fileIv,
          Upsert(AllWallets(service.aead, json, service.key, service.docs, old(file)), w)).value)
      ensures r.Pass? && Valid() ==>
        Read(service.aead, json, service.key, file)
          == Upsert(AllWallets(service.aead, json, service.key, service.docs, old(file)), w)
    {
      var stored := service.SaveWallet(w, keyIv);
      if stored.Fail? {
        return stored;
      }
      var wallets := Upsert(GetAllWallets(), w);
      var written := Write(service.aead, json, service.key, fileIv, wallets);
      file := Some(written.value);
      if Valid() {
        ReadAfterWrite(service.aead, json, service.key, fileIv, wallets);
      }
      r := Pass;
    }

    /**
      `createWallet(u)`: `WALLET_CREATED`, with nothing generated or written,
      when the store has an address for `u`; otherwise a fresh key pair saved
      through `saveWallet`. Every error becomes `WALLET_ERROR`; nothing throws.
      `randomKey` is the key `ethers.Wallet.createRandom()` drew.
    */
    method CreateWallet(u: string, randomKey: string, createdAt: string, keyIv: Iv, fileIv: Iv) returns (r: CreateOutcome)
      requires ethers.derive(randomKey).Some?
      modifies this, service
      ensures r.AlreadyCreated? <==> (old(service.GetUser(u)).Some? && old(service.GetUser(u)).value.address != "")
      ensures !r.Created? ==> file == old(file) && service.docs == old(service.docs)
      ensures r.WalletError? ==> r.cause == CipherError(KeyLengthMessage)
      ensures !r.AlreadyCreated? ==> (r.Created? <==> ValidKey(service.key))
      ensures r.Created? ==> ValidKey(service.key)
      ensures r.Created? ==>
        r.wallet == WalletData(ethers.derive(randomKey).value, randomKey, u, None, createdAt) &&
        service.docs == UpsertDoc(old(service.docs), Seal(service.aead, service.key, keyIv, r.wallet).value)
      ensures r.Created? ==>
        file == Some(Write(service.aead, json, service.key, fileIv,
          Upsert(AllWallets(service.aead, json, service.key, service.docs, old(file)), r.wallet)).value)
      ensures r.Created? && Valid() && randomKey != "" ==> GetWallet(u) == Success(Some(r.wallet))
    {
      var existing := service.GetUser(u);
      if existing.Some? && existing.value.address != "" {
        return AlreadyCreated;
      }
      var w := WalletData(ethers.derive(randomKey).value, randomKey, u, None, createdAt);
      ghost var before := service.docs;
      var saved := SaveWallet(w, keyIv, fileIv);
      if saved.Fail? {
        return WalletError(saved.error);
      }
      if Valid() && randomKey != "" {
        LookupAfterSave(service.aead, service.key, keyIv, before, w);
      }
      r := Created(w);
    }

    /**
      `deleteWallet(u)`: `WALLET_NOT_FOUND`, with the file untouched, when the
      store removed nothing; otherwise the file is rewritten from
      `getAllWallets()` (read after the delete) without `u`. With an invalid
      key the store delete has happened when the file write throws.
    */
    method DeleteWallet(u: string, iv: Iv) returns (r: Outcome<Failure>)
      modifies this, service
      ensures r == Fail(WalletNotFound) <==> DocIndex(old(service.docs), u).None?
      ensures DocIndex(old(service.docs), u).Some? ==> (r.Pass? <==> ValidKey(service.key))
      ensures r == Fail(WalletNotFound) ==> file == old(file) && service.docs == old(service.docs)
      ensures r != Fail(WalletNotFound) ==>
        var i := DocIndex(old(service.docs), u).value;
        service.docs == old(service.docs)[..i] + old(service.docs)[i + 1..]
      ensures r.Fail? && r.error != WalletNotFound ==>
        r.error == CipherError(KeyLengthMessage) && file == old(file)
      ensures r.Pass? ==> ValidKey(service.key)
      ensures r.Pass? ==>
        file == Some(Write(service.aead, json, service.key, iv,
          Without(AllWallets(service.aead, json, service.key, service.docs, old(file)), u)).value)
      ensures r.Pass? && Valid() ==>
        Read(service.aead, json, service.key, file)
          == Without(AllWallets(service.aead, json, service.key, service.docs, old(file)), u)
    {
      var deleted := service.DeleteWallet(u);
      if !deleted {
        return Fail(WalletNotFound);
      }
      var wallets := Without(GetAllWallets(), u);
      var written := Write(service.aead, json, service.key, iv, wallets);
      if written.Failure? {
        return Fail(written.error);
      }
      file := Some(written.value);
      if Valid() {
        ReadAfterWrite(service.aead, json, service.key, iv, wallets);
      }
      r := Pass;
    }

    /**
      `updateWalletUsername(u, nu)`: not found, or the proof of possession
      fails, or the store renames its document, the file record of `u` is
      renamed when there is one, and the record read is returned with only its
      username changed.
    */
    method UpdateWalletUsername(u: string, nu: string, iv: Iv) returns (r: Result<WalletData, Failure>)
      modifies this, service
      ensures old(GetWallet(u)).Failure? ==> r == Failure(old(GetWallet(u)).error)
      ensures old(GetWallet(u)) == Success(None) ==> r == Failure(WalletNotFound)
      ensures old(GetWallet(u)).Failure? || old(GetWallet(u)) == Success(None) ==>
        file == old(file) && service.docs == old(service.docs)
      ensures old(GetWallet(u)).Success? && old(GetWallet(u)).value.Some? ==>
        var w := old(GetWallet(u)).value.value;
        && (ProvePossession(ethers, w).Fail? ==>
              r == Failure(ProvePossession(ethers, w).error) &&
              file == old(file) && service.docs == old(service.docs))
        && (ProvePossession(ethers, w).Pass? ==>
              service.docs == (if DocIndex(old(service.docs), u).None? then old(service.docs)
                               else old(service.docs)[DocIndex(old(service.docs), u).value :=
                                      old(service.docs)[DocIndex(old(service.docs), u).value].(username := nu)]))
      ensures (old(GetWallet(u)).Success? && old(GetWallet(u)).value.Some? &&
               ProvePossession(ethers, old(GetWallet(u)).value.value).Pass?) ==> r.Success?
      ensures r.Success? ==> r.value == old(GetWallet(u)).value.value.(username := nu)
      ensures r.Success? ==>
        var ws := AllWallets(service.aead, json, service.key, service.docs, old(file));
        if IndexOf(ws, u).None? then file == old(file)
        else file == Some(Write(service.aead, json, service.key, iv, RenameFirst(ws, u, nu)).value)
    {
      var found := GetWallet(u);
      if found.Failure? {
        return Failure(found.error);
      }
      if found.value.None? {
        return Failure(WalletNotFound);
      }
      var w := found.value.value;
      var proof := ProvePossession(ethers, w);
      if proof.Fail? {
        return Failure(proof.error);
      }
      var _ := service.UpdateWalletUsername(u, nu);
      var wallets := GetAllWallets();
      if IndexOf(wallets, u).Some? {
        // A record was read, so the key decrypted it and is valid: the write cannot throw.
        var written := Write(service.aead, json, service.key, iv, RenameFirst(wallets, u, nu));
        file := Some(written.value);
      }
      r := Success(w.(username := nu));
    }

    /**
      `updateWalletUsername(u, nu)` as its "Update file backup" step intends:
      the snapshot is read BEFORE the store renames its document, so the file
      record of `u` is renamed whenever the list was readable. Whenever the
      store was empty or opened as a whole, a successful rename reaches the
      backup.
    */
    method UpdateWalletUsernameWithBackup(u: string, nu: string, iv: Iv) returns (r: Result<WalletData, Failure>)
      modifies this, service
      ensures old(GetWallet(u)).Failure? ==> r == Failure(old(GetWallet(u)).error)
      ensures old(GetWallet(u)) == Success(None) ==> r == Failure(WalletNotFound)
      ensures r.Failure? ==> file == old(file) && service.docs == old(service.docs)
      ensures (old(GetWallet(u)).Success? && old(GetWallet(u)).value.Some? &&
               ProvePossession(ethers, old(GetWallet(u)).value.value).Pass?) ==> r.Success?
      ensures r.Success? ==> r.value == old(GetWallet(u)).value.value.(username := nu)
      ensures r.Success? ==>
        service.docs == (if DocIndex(old(service.docs), u).None? then old(service.docs)
                         else old(service.docs)[DocIndex(old(service.docs), u).value :=
                                old(service.docs)[DocIndex(old(service.docs), u).value].(username := nu)])
      ensures r.Success? && IndexOf(old(GetAllWallets()), u).None? ==> file == old(file)
      ensures r.Success? && (old(service.docs) == [] || old(OpenAll(service.aead, service.key, service.docs)).Success?) ==>
        IndexOf(old(GetAllWallets()), u).Some?
      ensures r.Success? && IndexOf(old(GetAllWallets()), u).Some? ==>
        ValidKey(service.key) &&
        file == Some(Write(service.aead, json, service.key, iv, RenameFirst(old(GetAllWallets()), u, nu)).value)
      ensures r.Success? && IndexOf(old(GetAllWallets()), u).Some? && Valid() ==>
        Read(service.aead, json, service.key, file) == RenameFirst(old(GetAllWallets()), u, nu)
    {
      var found := GetWallet(u);
      if found.Failure? {
        return Failure(found.error);
      }
      if found.value.None? {
        return Failure(WalletNotFound);
      }
      var w := found.value.value;
      var proof := ProvePossession(ethers, w);
      if proof.Fail? {
        return Failure(proof.error);
      }
      var wallets := GetAllWallets();
      if service.docs != [] && OpenAll(service.aead, service.key, service.docs).Success? {
        StoreRecordListed(service.aead, json, service.key, service.docs, file, u);
      }
      var _ := service.UpdateWalletUsername(u, nu);
      if IndexOf(wallets, u).Some? {
        // The list holds a record, so it was decrypted with a valid key: the write cannot throw.
        var renamed := RenameFirst(wallets, u, nu);
        var written := Write(service.aead, json, service.key, iv, renamed);
        file := Some(written.value);
        if Valid() {
          ReadAfterWrite(service.aead, json, service.key, iv, renamed);
        }
      }
      r := Success(w.(username := nu));
    }

    /**
      `importExisitingWallet(u, key, address)`: throws when ethers rejects the
      key or when the address it derives differs from `address` ignoring case,
      and then nothing is written; otherwise the record with the derived
      address is saved through `saveWallet`.
    */
    method ImportExisitingWallet(u: string, privateKey: string, address: string, createdAt: string, keyIv: Iv, fileIv: Iv)
      returns (r: Result<WalletData, Failure>)
      modifies this, service
      ensures ethers.derive(privateKey).None? ==> r == Failure(KeyRejected)
      ensures ethers.derive(privateKey).Some? && !SameAddress(ethers.derive(privateKey).value, address) ==>
        r == Failure(KeyAddressMismatch)
      ensures r.Failure? ==> file == old(file) && service.docs == old(service.docs)
      ensures r.Success? <==>
        ethers.derive(privateKey).Some? && SameAddress(ethers.derive(privateKey).value, address) && ValidKey(service.key)
      ensures r.Success? ==>
        r.value == WalletData(ethers.derive(privateKey).value, privateKey, u, None, createdAt) &&
        service.docs == UpsertDoc(old(service.docs), Seal(service.aead, service.key, keyIv, r.value).value)
      ensures r.Success? ==>
        file == Some(Write(service.aead, json, service.key, fileIv,
          Upsert(AllWallets(service.aead, json, service.key, service.docs, old(file)), r.value)).value)
    {
      var derived := ethers.derive(privateKey);
      if derived.None? {
        return Failure(KeyRejected);
      }
      if !SameAddress(derived.value, address) {
        return Failure(KeyAddressMismatch);
      }
      var w := WalletData(derived.value, privateKey, u, None, createdAt);
      var saved := SaveWallet(w, keyIv, fileIv);
      if saved.Fail? {
        return Failure(saved.error);
      }
      r := Success(w);
    }
  }
}
