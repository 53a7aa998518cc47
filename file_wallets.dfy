/**
  `WalletManager` of src/lib/WalletManager.ts: the file-only store. The whole
  wallet list lives in one encrypted file; every operation reads the list,
  changes it and rewrites the file.
*/
module FileWallets {
  import opened Wrappers
  import opened Hex
  import opened Cipher
  import opened Wallets
  import opened Keys
  import opened Snapshot

  /** A rename that went through: the record returned and the list to write back. */
  datatype Renamed = Renamed(wallet: WalletData, wallets: seq<WalletData>)

  /**
    The decision `deleteWallet` takes on the list it read: not found when
    filtering removes nothing, otherwise the filtered list.
  */
  function PlanDelete(ws: seq<WalletData>, u: string): (r: Result<seq<WalletData>, Failure>)
    ensures r.Failure? <==> IndexOf(ws, u).None?
    ensures r.Failure? ==> r.error == WalletNotFound
    ensures r.Success? ==> |r.value| < |ws| && Find(r.value, u).None?
    ensures r.Success? ==> forall w :: w in r.value <==> w in ws && w.username != u
  {
    var rest := Without(ws, u);
    WithoutLength(ws, u);
    if |rest| == |ws| then Failure(WalletNotFound) else Success(rest)
  }

  /**
    The decision `updateWalletUsername` takes on the list it read: not found,
    a stored key ethers rejects, a stored key whose signature does not recover
    the stored address, or the list with the first record of `u` renamed.
  */
  function PlanRename(e: Ethers, ws: seq<WalletData>, u: string, nu: string): (r: Result<Renamed, Failure>)
    ensures IndexOf(ws, u).None? <==> r == Failure(WalletNotFound)
    ensures r.Failure? ==> r.error in {WalletNotFound, KeyRejected, InvalidPrivateKey}
    ensures e.Sound() ==>
      (r.Success? <==> Find(ws, u).Some? && e.derive(Find(ws, u).value.privateKey) == Some(Find(ws, u).value.address))
    ensures r.Success? ==>
      var i := IndexOf(ws, u).value;
      && r.value.wallet == ws[i].(username := nu)
      && |r.value.wallets| == |ws| && r.value.wallets[i] == r.value.wallet
      && forall j :: 0 <= j < |ws| && j != i ==> r.value.wallets[j] == ws[j]
  {
    match IndexOf(ws, u)
    case None => Failure(WalletNotFound)
    case Some(i) =>
      match ProvePossession(e, ws[i])
      case Fail(f) => Failure(f)
      case Pass => Success(Renamed(ws[i].(username := nu), RenameFirst(ws, u, nu)))
  }

  /**
    `updateWalletUsername` as written: after signing, the recovered address is
    asked of `ethers.utils.verifyMessage`. The ethers the repository is written
    against (v6: top-level `ethers.verifyMessage`, `ethers.JsonRpcProvider`)
    has no `ethers.utils`, so that call throws a TypeError for every record
    whose key `new ethers.Wallet` accepted.
  */
  function PlanRenameAsWritten(e: Ethers, ws: seq<WalletData>, u: string, nu: string): (r: Result<Renamed, Failure>)
  {
    match IndexOf(ws, u)
    case None => Failure(WalletNotFound)
    case Some(i) =>
      if e.derive(ws[i].privateKey).None? then Failure(KeyRejected)
      else Failure(UtilsUndefined)
  }

  /** As written, the rename never goes through: a missing record, a rejected key, or the TypeError. */
  lemma RenameAsWrittenNeverSucceeds(e: Ethers, ws: seq<WalletData>, u: string, nu: string)
    ensures PlanRenameAsWritten(e, ws, u, nu).Failure?
    ensures IndexOf(ws, u).None? <==> PlanRenameAsWritten(e, ws, u, nu) == Failure(WalletNotFound)
    ensures Find(ws, u).Some? && e.derive(Find(ws, u).value.privateKey).Some? ==>
      PlanRenameAsWritten(e, ws, u, nu) == Failure(UtilsUndefined)
  {
    if Find(ws, u).Some? {
      assert Find(ws, u).value == ws[IndexOf(ws, u).value];
    }
  }

  /**
    The discrepancy: a stored record whose key derives its address is renamed
    by the intended decision and refused by the code as written.
  */
  lemma RenameAsWrittenRefusesProvenKey(e: Ethers, ws: seq<WalletData>, u: string, nu: string)
    requires e.Sound() && Find(ws, u).Some?
    requires e.derive(Find(ws, u).value.privateKey) == Some(Find(ws, u).value.address)
    ensures PlanRename(e, ws, u, nu).Success?
    ensures PlanRenameAsWritten(e, ws, u, nu) == Failure(UtilsUndefined)
  {
    RenameAsWrittenNeverSucceeds(e, ws, u, nu);
  }

  class WalletManager {
    /** The contents of `data/wallets.enc`; `None` while the file does not exist. */
    var file: Option<string>
    /** `process.env.WALLET_ENCRYPTION_KEY`, as hex. */
    const key: string
    const aead: Aead
    const json: Json
    const ethers: Ethers

    /** The assumptions on the collaborators: the cipher, JSON and signing work. */
    ghost predicate Valid() {
      aead.Correct() && json.Faithful() && ethers.Sound()
    }

    constructor(key: string, aead: Aead, json: Json, ethers: Ethers, file: Option<string>)
      ensures this.key == key && this.aead == aead && this.json == json && this.ethers == ethers
      ensures this.file == file
    {
      this.key, this.aead, this.json, this.ethers := key, aead, json, ethers;
      this.file := file;
    }

    /** `getAllWallets`: the list in the file; `[]` when it is absent, does not decrypt or does not parse. */
    function GetAllWallets(): (ws: seq<WalletData>)
      reads this
      ensures file.None? ==> ws == []
      ensures !ValidKey(key) ==> ws == []
      ensures file.Some? && Decrypt(aead, file.value, key).Success? ==>
        ws == (if json.parse(Decrypt(aead, file.value, key).value).Some?
               then json.parse(Decrypt(aead, file.value, key).value).value else [])
    {
      Read(aead, json, key, file)
    }

    /** `getWallet`: the first record of `u`, or null. */
    function GetWallet(u: string): (r: Option<WalletData>)
      reads this
      ensures r.Some? ==> r.value in GetAllWallets() && r.value.username == u
      ensures r.None? <==> forall w :: w in GetAllWallets() ==> w.username != u
      ensures r.Some? ==>
        IndexOf(GetAllWallets(), u).Some? && r.value == GetAllWallets()[IndexOf(GetAllWallets(), u).value]
    {
      Find(GetAllWallets(), u)
    }

    /** `getUserSummary`: the summary of `getWallet(u)`, without the key. */
    function GetUserSummary(u: string): (r: Option<Summary>)
      reads this
      ensures r.Some? <==> GetWallet(u).Some?
      ensures r.Some? ==> r.value == ToSummary(GetWallet(u).value) && r.value.username == u
    {
      match GetWallet(u)
      case None => None
      case Some(w) => Some(ToSummary(w))
    }

    /** `getWalletSummary`: one key-free summary per record, in file order. */
    function GetWalletSummary(): (r: seq<Summary>)
      reads this
      ensures |r| == |GetAllWallets()|
      ensures forall i :: 0 <= i < |r| ==> r[i] == ToSummary(GetAllWallets()[i])
    {
      Summaries(GetAllWallets())
    }

    /**
      `backupWallets(dir)`: with no file, 'No wallet file exists to backup';
      otherwise the path of the copy and the copied bytes, which are the file's
      ciphertext unchanged.
    */
    function BackupWallets(dir: string, timestamp: string): (r: Result<(string, string), Failure>)
      reads this
      ensures r.Failure? <==> file.None?
      ensures r.Failure? ==> r.error == NoWalletFile
      ensures r.Success? ==> r.value.1 == file.value && r.value.0 == BackupFile(dir, timestamp)
    {
      match file
      case None => Failure(NoWalletFile)
      case Some(contents) => Success((BackupFile(dir, timestamp), contents))
    }

    /**
      `saveWallet(w)`: drop every record of `w.username`, append `w`, rewrite
      the file. Only an invalid key makes it throw, and then nothing is written.
    */
    method SaveWallet(w: WalletData, iv: Iv) returns (r: Outcome<Failure>)
      modifies this
      ensures r.Pass? <==> ValidKey(key)
      ensures r.Fail? ==> r.error == CipherError(KeyLengthMessage) && file == old(file)
      ensures r.Pass? ==> file == Some(Write(aead, json, key, iv, Upsert(old(GetAllWallets()), w)).value)
      ensures r.Pass? && Valid() ==> GetAllWallets() == Upsert(old(GetAllWallets()), w)
    {
      var wallets := Upsert(GetAllWallets(), w);
      var written := Write(aead, json, key, iv, wallets);
      if written.Failure? {
        return Fail(written.error);
      }
      file := Some(written.value);
      if Valid() {
        ReadAfterWrite(aead, json, key, iv, wallets);
      }
      r := Pass;
    }

    /**
      `createWallet(u)`: a fresh key pair saved under `u`, replacing any record
      `u` had (the duplicate check is the caller's). `randomKey` is the key
      `ethers.Wallet.createRandom()` drew; its address is derived from it.
    */
    method CreateWallet(u: string, randomKey: string, createdAt: string, iv: Iv) returns (r: Result<WalletData, Failure>)
      requires ethers.derive(randomKey).Some?
      modifies this
      ensures r.Success? <==> ValidKey(key)
      ensures r.Failure? ==> file == old(file)
      ensures r.Success? ==>
        r.value == WalletData(ethers.derive(randomKey).value, randomKey, u, None, createdAt)
      ensures r.Success? && Valid() ==>
        GetAllWallets() == Upsert(old(GetAllWallets()), r.value) && GetWallet(u) == Some(r.value)
    {
      var w := WalletData(ethers.derive(randomKey).value, randomKey, u, None, createdAt);
      var saved := SaveWallet(w, iv);
      if saved.Fail? {
        return Failure(saved.error);
      }
      FindAfterUpsert(old(GetAllWallets()), w);
      r := Success(w);
    }

    /**
      `deleteWallet(u)`: 'Wallet not found', with the file untouched, when no
      record has username `u`; otherwise every record of `u` is removed.
    */
    method DeleteWallet(u: string, iv: Iv) returns (r: Outcome<Failure>)
      modifies this
      ensures r.Fail? ==> file == old(file)
      ensures r.Fail? <==> PlanDelete(old(GetAllWallets()), u).Failure?
      ensures r.Fail? ==> r.error == WalletNotFound
      ensures r.Pass? ==> file == Some(Write(aead, json, key, iv, Without(old(GetAllWallets()), u)).value)
      ensures r.Pass? && Valid() ==> GetAllWallets() == Without(old(GetAllWallets()), u)
    {
      var plan := PlanDelete(GetAllWallets(), u);
      if plan.Failure? {
        return Fail(plan.error);
      }
      // The list was non-empty, so it was read with a valid key.
      var written := Write(aead, json, key, iv, plan.value);
      file := Some(written.value);
      if Valid() {
        ReadAfterWrite(aead, json, key, iv, plan.value);
      }
      r := Pass;
    }

    /**
      `updateWalletUsername(u, nu, suppliedKey)`: the first record of `u` is
      renamed once the stored key proves possession of the stored address.
      The caller's `suppliedKey` is never consulted.
    */
    method UpdateWalletUsername(u: string, nu: string, suppliedKey: string, iv: Iv) returns (r: Result<WalletData, Failure>)
      modifies this
      ensures r.Failure? ==> file == old(file)
      ensures r.Failure? <==> PlanRename(ethers, old(GetAllWallets()), u, nu).Failure?
      ensures r.Failure? ==> r == Failure(PlanRename(ethers, old(GetAllWallets()), u, nu).error)
      ensures r.Success? ==>
        var plan := PlanRename(ethers, old(GetAllWallets()), u, nu).value;
        r.value == plan.wallet && file == Some(Write(aead, json, key, iv, plan.wallets).value)
      ensures r.Success? && Valid() ==>
        GetAllWallets() == PlanRename(ethers, old(GetAllWallets()), u, nu).value.wallets
    {
      var plan := PlanRename(ethers, GetAllWallets(), u, nu);
      if plan.Failure? {
        return Failure(plan.error);
      }
      var written := Write(aead, json, key, iv, plan.value.wallets);
      file := Some(written.value);
      if Valid() {
        ReadAfterWrite(aead, json, key, iv, plan.value.wallets);
      }
      r := Success(plan.value.wallet);
    }

    /**
      `updateWalletUsername` as written, with the `ethers.utils.verifyMessage`
      call that throws under ethers v6: it fails on every input and the file
      is never rewritten.
    */
    method UpdateWalletUsernameAsWritten(u: string, nu: string, suppliedKey: string, iv: Iv) returns (r: Result<WalletData, Failure>)
      modifies this
      ensures r.Failure? && file == old(file)
      ensures r == Failure(PlanRenameAsWritten(ethers, old(GetAllWallets()), u, nu).error)
      ensures Find(old(GetAllWallets()), u).Some? && ethers.derive(Find(old(GetAllWallets()), u).value.privateKey).Some? ==>
        r == Failure(UtilsUndefined)
    {
      var wallets := GetAllWallets();
      RenameAsWrittenNeverSucceeds(ethers, wallets, u, nu);
      var plan := PlanRenameAsWritten(ethers, wallets, u, nu);
      if plan.Success? {
        // The rename and the file write after `verifyMessage` are never reached.
        assert false;
      }
      r := Failure(plan.error);
    }
  }
}
