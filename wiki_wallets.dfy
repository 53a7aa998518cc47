/**
  `OnchainWikiWalletManager` of src/lib/onchainWiki/wallet/Wallet_Manager.ts:
  the document store keyed by user id, the encrypted file as fallback
  snapshot, and an on-chain registry that must accept the binding before a
  created wallet is saved. The registry's two answers, `userExists` and
  `bindUserToWallet`, are parameters.
*/
module WikiWallets {
  import opened Wrappers
  import opened Hex
  import opened Cipher
  import opened Wallets
  import opened Keys
  import opened Snapshot
  import opened WikiStore

  /**
    What `createWallet` returns: the `WALLET_CREATED` tag, the bare
    `WALLET_ERROR` tag when the chain refused the binding, `WALLET_ERROR` with
    the message of what was thrown, or the new record.
  */
  datatype CreateOutcome = AlreadyCreated | BindRefused | WalletError(cause: Failure) | Created(wallet: WalletData)

  /**
    `getAllWallets()`: the store's list when it is non-empty, else the file's
    list (`[]` when absent or unreadable); an error from the store yields `[]`.
  */
  function AllWallets(aead: Aead, json: Json, key: string, docs: seq<WikiDocument>, file: Option<string>): (r: seq<WalletData>)
    ensures OpenAll(aead, key, docs).Failure? ==> r == []
    ensures OpenAll(aead, key, docs).Success? && docs != [] ==> r == OpenAll(aead, key, docs).value
    ensures docs == [] ==> r == Read(aead, json, key, file)
  {
    match OpenAll(aead, key, docs)
    case Failure(_) => []
    case Success(primary) => if |primary| > 0 then primary else Read(aead, json, key, file)
  }

  /**
    `getWallet(user)`: the store's answer by user id. The file fallback looks
    for `w.user === user`, a field no record has, so it never matches: the
    result is non-null only when the store holds the user.
  */
  function Resolve(aead: Aead, key: string, docs: seq<WikiDocument>, user: string): (r: Result<Option<WalletData>, Failure>)
    ensures r.Success? && r.value.Some? ==> UserIndex(docs, user).Some? && r.value.value.userId == Some(user)
    ensures r == Success(None) <==> UserIndex(docs, user).None?
    ensures r == Lookup(aead, key, docs, user)
  {
    match Lookup(aead, key, docs, user)
    case Failure(f) => Failure(f)
    case Success(Some(w)) => Success(Some(w))
    case Success(None) => Success(None)
  }

  class OnchainWikiWalletManager {
    const service: WalletService
    /** The contents of `data/wallets.enc`; `None` while the file does not exist. */
    var file: Option<string>
    const json: Json
    const ethers: Ethers

    ghost predicate Valid() {
      service.aead.Correct() && json.Faithful() && ethers.Sound()
    }

    constructor(service: WalletService, json: Json, ethers: Ethers, file: Option<string>)
      ensures this.service == service && this.json == json && this.ethers == ethers && this.file == file
    {
      this.service, this.json, this.ethers, this.file := service, json, ethers, file;
    }

    function GetAllWallets(): seq<WalletData>
      reads this, service
    {
      AllWallets(service.aead, json, service.key, service.docs, file)
    }

    function GetWallet(user: string): Result<Option<WalletData>, Failure>
      reads service
    {
      Resolve(service.aead, service.key, service.docs, user)
    }

    /** `getUserSummary(user)`: address, username and creation time of `getWallet(user)`, or null. */
    function GetUserSummary(user: string): (r: Result<Option<Summary>, Failure>)
      reads service
      ensures r.Failure? <==> GetWallet(user).Failure?
      ensures r.Success? ==> (r.value.Some? <==> UserIndex(service.docs, user).Some?)
      ensures r.Success? && r.value.Some? ==> r.value.value == ToSummary(GetWallet(user).value.value)
    {
      match GetWallet(user)
      case Failure(f) => Failure(f)
      case Success(None) => Success(None)
      case Success(Some(w)) => Success(Some(ToSummary(w)))
    }

    /** `getWalletSummary()`: one summary per document, in order; the file is not read. */
    function GetWalletSummary(): (r: seq<Summary>)
      reads service
      ensures |r| == |service.docs|
      ensures forall i :: 0 <= i < |r| ==>
        r[i] == Summary(service.docs[i].address, service.docs[i].username, service.docs[i].createdAt)
    {
      Summaries(service.GetAllUsers())
    }

    /** `backupWallets(dir)`: the store's full list encrypted into a new file; errors pass through. */
    function BackupWallets(dir: string, timestamp: string, iv: Iv): (r: Result<(string, string), Failure>)
      reads service
      ensures service.GetAllWallets().Failure? ==> r == Failure(service.GetAllWallets().error)
      ensures service.GetAllWallets().Success? ==> (r.Success? <==> ValidKey(service.key))
      ensures r.Success? ==> r.value.0 == BackupFile(dir, timestamp)
      ensures r.Success? && Valid() ==>
        Read(service.aead, json, service.key, Some(r.value.1)) == service.GetAllWallets().value
    {
      match service.GetAllWallets()
      case Failure(f) => Failure(f)
      case Success(ws) =>
        match Write(service.aead, json, service.key, iv, ws)
        case Failure(f) => Failure(f)
        case Success(contents) =>
          assert Valid() ==> Read(service.aead, json, service.key, Some(contents)) == ws by {
            if Valid() {
              ReadAfterWrite(service.aead, json, service.key, iv, ws);
            }
          }
          Success((BackupFile(dir, timestamp), contents))
    }

    /**
      `saveWallet(w)`: upsert into the store by user id, then rewrite the file
      from `getAllWallets()` (read after the store write) with `w` as the one
      record of its username. If the store write throws, nothing is written.
    */
    method SaveWallet(w: WalletData, keyIv: Iv, fileIv: Iv) returns (r: Outcome<Failure>)
      requires service.Valid() && w.userId.Some?
      modifies this, service
      ensures service.Valid()
      ensures r.Fail? ==> file == old(file) && service.docs == old(service.docs)
      ensures r.Fail? <==> !ValidKey(service.key) || NameTaken(old(service.docs), Seal(service.aead, service.key, keyIv, w).value)
      ensures r.Pass? ==>
        service.docs == SaveDoc(old(service.docs), Seal(service.aead, service.key, keyIv, w).value).value
      ensures r.Pass? ==>
        file == Some(Write(service.aead, json, service.key, fileIv,
          Upsert(AllWallets(service.aead, json, service.key, service.docs, old(file)), w)).value)
      ensures r.Pass? && Valid() ==>
        Read(service.aead, json, service.key, file)
          == Upsert(AllWallets(service.aead, json, service.key, service.docs, old(file)), w)
      ensures r.Pass? && service.aead.Correct() && w.privateKey != "" ==> GetWallet(w.userId.value) == Success(Some(w))
    {
      ghost var before := service.docs;
      var stored := service.SaveWallet(w, keyIv);
      if stored.Fail? {
        return stored;
      }
      if service.aead.Correct() && w.privateKey != "" {
        LookupAfterSave(service.aead, service.key, keyIv, before, w);
      }
      var wallets := Upsert(GetAllWallets(), w);
      var written := Write(service.aead, json, service.key, fileIv, wallets);
      file := Some(written.value);
      if Valid() {
        ReadAfterWrite(service.aead, json, service.key, fileIv, wallets);
      }
      r := Pass;
    }

    /**
      `createWallet(userId, username)`: `WALLET_CREATED`, with nothing
      generated or written, when the store has an address for the user or the
      chain reports the user; `WALLET_ERROR`, with nothing written, when the
      chain refuses the binding; otherwise the new record is saved. Errors
      become `WALLET_ERROR` with their message; nothing throws.
    */
    method CreateWallet(userId: string, username: string, onchainUser: bool, bound: bool,
                        randomKey: string, createdAt: string, keyIv: Iv, fileIv: Iv) returns (r: CreateOutcome)
      requires service.Valid() && ethers.derive(randomKey).Some?
      modifies this, service
      ensures service.Valid()
      ensures r.AlreadyCreated? <==>
        onchainUser || (old(service.GetUser(userId)).Some? && old(service.GetUser(userId)).value.address != "")
      ensures r.BindRefused? <==> !r.AlreadyCreated? && !bound
      ensures !r.AlreadyCreated? && bound ==>
        (r.Created? <==> ValidKey(service.key) && !NameTaken(old(service.docs),
          Seal(service.aead, service.key, keyIv,
            WalletData(ethers.derive(randomKey).value, randomKey, username, Some(userId), createdAt)).value))
      ensures !r.Created? ==> file == old(file) && service.docs == old(service.docs)
      ensures r.Created? ==>
        r.wallet == WalletData(ethers.derive(randomKey).value, randomKey, username, Some(userId), createdAt) &&
        ValidKey(service.key) && SaveDoc(old(service.docs), Seal(service.aead, service.key, keyIv, r.wallet).value).Success? &&
        service.docs == SaveDoc(old(service.docs), Seal(service.aead, service.key, keyIv, r.wallet).value).value
      ensures r.Created? ==>
        file == Some(Write(service.aead, json, service.key, fileIv,
          Upsert(AllWallets(service.aead, json, service.key, service.docs, old(file)), r.wallet)).value)
      ensures r.Created? && Valid() && randomKey != "" ==> GetWallet(userId) == Success(Some(r.wallet))
    {
      var existing := service.GetUser(userId);
      if (existing.Some? && existing.value.address != "") || onchainUser {
        return AlreadyCreated;
      }
      var w := WalletData(ethers.derive(randomKey).value, randomKey, username, Some(userId), createdAt);
      if !bound {
        return BindRefused;
      }
      var saved := SaveWallet(w, keyIv, fileIv);
      if saved.Fail? {
        return WalletError(saved.error);
      }
      r := Created(w);
    }

    /**
      `importExisitingWallet(username, userId, key, address)`: ethers'
      error when it rejects the key, `INVALID_PRIVATE_KEY` when the derived
      address differs from `address` ignoring case, and nothing is written in
      either case; otherwise the record with both username and user id and
      the derived address is saved.
    */
    method ImportExisitingWallet(username: string, userId: string, privateKey: string, address: string,
                                 createdAt: string, keyIv: Iv, fileIv: Iv) returns (r: Result<WalletData, Failure>)
      requires service.Valid()
      modifies this, service
      ensures service.Valid()
      ensures ethers.derive(privateKey).None? ==> r == Failure(KeyRejected)
      ensures ethers.derive(privateKey).Some? && !SameAddress(ethers.derive(privateKey).value, address) ==>
        r == Failure(InvalidPrivateKey)
      ensures ethers.derive(privateKey).Some? && SameAddress(ethers.derive(privateKey).value, address) ==>
        (r.Success? <==> ValidKey(service.key) && !NameTaken(old(service.docs),
          Seal(service.aead, service.key, keyIv,
            WalletData(ethers.derive(privateKey).value, privateKey, username, Some(userId), createdAt)).value))
      ensures r.Failure? ==> file == old(file) && service.docs == old(service.docs)
      ensures r.Success? ==>
        ethers.derive(privateKey).Some? && SameAddress(ethers.derive(privateKey).value, address) &&
        r.value == WalletData(ethers.derive(privateKey).value, privateKey, username, Some(userId), createdAt) &&
        ValidKey(service.key) && SaveDoc(old(service.docs), Seal(service.aead, service.key, keyIv, r.value).value).Success? &&
        service.docs == SaveDoc(old(service.docs), Seal(service.aead, service.key, keyIv, r.value).value).value
      ensures r.Success? ==>
        file == Some(Write(service.aead, json, service.key, fileIv,
          Upsert(AllWallets(service.aead, json, service.key, service.docs, old(file)), r.value)).value)
    {
      var derived := ethers.derive(privateKey);
      if derived.None? {
        return Failure(KeyRejected);
      }
      if !SameAddress(derived.value, address) {
        return Failure(InvalidPrivateKey);
      }
      var w := WalletData(derived.value, privateKey, username, Some(userId), createdAt);
      var saved := SaveWallet(w, keyIv, fileIv);
      if saved.Fail? {
        return Failure(saved.error);
      }
      r := Success(w);
    }
  }
}
