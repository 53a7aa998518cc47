/**
  `WalletService` of src/lib/onchainWiki/wallet/WalletService.ts: the primary
  document store of the on-chain-wiki bot. Documents carry both `username`
  and `user_id`, each required and unique (the indexes of
  src/lib/onchainWiki/wallet/WalletModel.ts). Saving upserts by `user_id`,
  deleting matches `username`. The key is stored as a CypherX envelope.
*/
module WikiStore {
  import opened Wrappers
  import opened Hex
  import opened Cipher
  import opened Wallets

  datatype WikiDocument = WikiDocument(
    username: string, userId: string, address: string, privateKey: string, createdAt: string)

  /** What the two unique indexes guarantee: no username and no user id occurs twice. */
  ghost predicate UniqueKeys(docs: seq<WikiDocument>) {
    forall i, j :: 0 <= i < j < |docs| ==> docs[i].username != docs[j].username && docs[i].userId != docs[j].userId
  }

  /** The document `saveWallet` writes for `w`, its key encrypted, or the encrypt error. */
  function Seal(aead: Aead, key: string, iv: Iv, w: WalletData): (r: Result<WikiDocument, Failure>)
    requires w.userId.Some?
    ensures r.Failure? <==> !ValidKey(key)
    ensures r.Success? ==>
      r.value.username == w.username && r.value.userId == w.userId.value &&
      r.value.address == w.address && r.value.createdAt == w.createdAt
  {
    match Encrypt(aead, w.privateKey, key, iv)
    case Failure(message) => Failure(CipherError(message))
    case Success(envelope) => Success(WikiDocument(w.username, w.userId.value, w.address, envelope, w.createdAt))
  }

  /** A document read back as a record with its key decrypted, or the decrypt error. */
  function Open(aead: Aead, key: string, d: WikiDocument): (r: Result<WalletData, Failure>)
    ensures r.Failure? <==> Decrypt(aead, d.privateKey, key).Failure?
    ensures r.Success? ==>
      r.value == WalletData(d.address, Decrypt(aead, d.privateKey, key).value, d.username, Some(d.userId), d.createdAt)
  {
    match Decrypt(aead, d.privateKey, key)
    case Failure(message) => Failure(CipherError(message))
    case Success(plain) => Success(WalletData(d.address, plain, d.username, Some(d.userId), d.createdAt))
  }

  /** `getAllWallets`: every document decrypted, in order; one failure fails the whole call. */
  function OpenAll(aead: Aead, key: string, docs: seq<WikiDocument>): (r: Result<seq<WalletData>, Failure>)
    ensures r.Success? <==> forall i :: 0 <= i < |docs| ==> Open(aead, key, docs[i]).Success?
    ensures r.Success? ==> |r.value| == |docs|
    ensures r.Success? ==> forall i :: 0 <= i < |docs| ==> r.value[i] == Open(aead, key, docs[i]).value
  {
    if docs == [] then Success([])
    else
      match Open(aead, key, docs[0])
      case Failure(f) => Failure(f)
      case Success(w) =>
        match OpenAll(aead, key, docs[1..])
        case Failure(f) => Failure(f)
        case Success(ws) => Success([w] + ws)
  }

  /** The position of the document of `userId` (`findOne({user_id})`). */
  function UserIndex(docs: seq<WikiDocument>, userId: string): (r: Option<nat>)
    ensures r.Some? ==> r.value < |docs| && docs[r.value].userId == userId
    ensures r.Some? ==> forall j :: 0 <= j < r.value ==> docs[j].userId != userId
    ensures r.None? ==> forall i :: 0 <= i < |docs| ==> docs[i].userId != userId
  {
    if docs == [] then None
    else if docs[0].userId == userId then Some(0)
    else match UserIndex(docs[1..], userId)
      case None => None
      case Some(k) => Some(k + 1)
  }

  /** The position of the document of `username` (`deleteOne({username})`). */
  function NameIndex(docs: seq<WikiDocument>, username: string): (r: Option<nat>)
    ensures r.Some? ==> r.value < |docs| && docs[r.value].username == username
    ensures r.Some? ==> forall j :: 0 <= j < r.value ==> docs[j].username != username
    ensures r.None? ==> forall i :: 0 <= i < |docs| ==> docs[i].username != username
  {
    if docs == [] then None
    else if docs[0].username == username then Some(0)
    else match NameIndex(docs[1..], username)
      case None => None
      case Some(k) => Some(k + 1)
  }

  /** Another user's document already holds `d.username`, so the username index refuses `d`. */
  predicate NameTaken(docs: seq<WikiDocument>, d: WikiDocument) {
    exists i :: 0 <= i < |docs| && docs[i].username == d.username && docs[i].userId != d.userId
  }

  /**
    `findOneAndUpdate({user_id}, d, {upsert: true})` under the two unique
    indexes: a duplicate-key error when another user's document has
    `d.username`; otherwise `d` replaces the document of its user id, or is
    appended when there is none.
  */
  function SaveDoc(docs: seq<WikiDocument>, d: WikiDocument): (r: Result<seq<WikiDocument>, Failure>)
    ensures r.Failure? <==> NameTaken(docs, d)
    ensures r.Failure? ==> r.error == DuplicateKey
    ensures r.Success? && UserIndex(docs, d.userId).Some? ==>
      r.value == docs[UserIndex(docs, d.userId).value := d]
    ensures r.Success? && UserIndex(docs, d.userId).None? ==> r.value == docs + [d]
  {
    if NameTaken(docs, d) then Failure(DuplicateKey)
    else match UserIndex(docs, d.userId)
      case Some(i) => Success(docs[i := d])
      case None => Success(docs + [d])
  }

  /** A save the indexes accept keeps both keys unique, and the saved document is the one of its user id. */
  lemma SaveKeepsUnique(docs: seq<WikiDocument>, d: WikiDocument)
    requires UniqueKeys(docs) && SaveDoc(docs, d).Success?
    ensures UniqueKeys(SaveDoc(docs, d).value)
    ensures var r := SaveDoc(docs, d).value; UserIndex(r, d.userId).Some? && r[UserIndex(r, d.userId).value] == d
  {
    var r := SaveDoc(docs, d).value;
    assert !NameTaken(docs, d);
    match UserIndex(docs, d.userId)
    case Some(i) =>
      assert r == docs[i := d];
      forall a, b | 0 <= a < b < |r| ensures r[a].username != r[b].username && r[a].userId != r[b].userId {
        if a == i {
          assert r[b] == docs[b];
        } else if b == i {
          assert r[a] == docs[a];
        }
      }
      assert UserIndex(r, d.userId) == Some(i) by {
        UserIndexUnique(r, i);
      }
    case None =>
      assert r == docs + [d];
      forall a, b | 0 <= a < b < |r| ensures r[a].username != r[b].username && r[a].userId != r[b].userId {
        if b == |docs| {
          assert r[a] == docs[a];
        }
      }
      assert UserIndex(r, d.userId) == Some(|docs|) by {
        UserIndexUnique(r, |docs|);
      }
  }

  lemma UserIndexUnique(docs: seq<WikiDocument>, i: nat)
    requires UniqueKeys(docs) && i < |docs|
    ensures UserIndex(docs, docs[i].userId) == Some(i)
  {
  }

  /** `getWallet(userId)`: null when absent, else the record with its key decrypted; errors are rethrown. */
  function Lookup(aead: Aead, key: string, docs: seq<WikiDocument>, userId: string): (r: Result<Option<WalletData>, Failure>)
    ensures r == Success(None) <==> UserIndex(docs, userId).None?
    ensures r.Failure? ==> UserIndex(docs, userId).Some?
    ensures r.Success? && r.value.Some? ==> r.value.value.userId == Some(userId)
    ensures UserIndex(docs, userId).Some? ==>
      (r.Failure? <==> Open(aead, key, docs[UserIndex(docs, userId).value]).Failure?)
    ensures r.Failure? ==> r.error == Open(aead, key, docs[UserIndex(docs, userId).value]).error
    ensures r.Success? && r.value.Some? ==> r.value.value == Open(aead, key, docs[UserIndex(docs, userId).value]).value
  {
    match UserIndex(docs, userId)
    case None => Success(None)
    case Some(i) =>
      match Open(aead, key, docs[i])
      case Failure(f) => Failure(f)
      case Success(w) => Success(Some(w))
  }

  /**
    Save then get: a save the indexes accept is read back by user id as the
    record saved, its key decrypted, for any non-empty key.
  */
  lemma LookupAfterSave(aead: Aead, key: string, iv: Iv, docs: seq<WikiDocument>, w: WalletData)
    requires aead.Correct() && ValidKey(key) && w.privateKey != [] && w.userId.Some?
    requires UniqueKeys(docs) && SaveDoc(docs, Seal(aead, key, iv, w).value).Success?
    ensures Lookup(aead, key, SaveDoc(docs, Seal(aead, key, iv, w).value).value, w.userId.value) == Success(Some(w))
  {
    SaveKeepsUnique(docs, Seal(aead, key, iv, w).value);
    RoundTrip(aead, w.privateKey, key, iv);
  }

  class WalletService {
    var docs: seq<WikiDocument>
    const key: string
    const aead: Aead

    ghost predicate Valid()
      reads this
    {
      UniqueKeys(docs)
    }

    /** A service over a collection that already holds `docs`. */
    constructor(key: string, aead: Aead, docs: seq<WikiDocument>)
      requires UniqueKeys(docs)
      ensures Valid() && this.key == key && this.aead == aead && this.docs == docs
    {
      this.key, this.aead, this.docs := key, aead, docs;
    }

    /**
      `saveWallet(w)`: encrypt the key, then upsert by `user_id`. An invalid
      key or a username held by another user throws, and nothing is written.
    */
    method SaveWallet(w: WalletData, iv: Iv) returns (r: Outcome<Failure>)
      requires Valid() && w.userId.Some?
      modifies this
      ensures Valid()
      ensures !ValidKey(key) ==> r == Fail(CipherError(KeyLengthMessage))
      ensures r.Fail? ==> docs == old(docs)
      ensures ValidKey(key) ==>
        var d := Seal(aead, key, iv, w).value;
        (r.Fail? <==> NameTaken(old(docs), d)) && (r.Fail? ==> r.error == DuplicateKey) &&
        (r.Pass? ==> docs == SaveDoc(old(docs), d).value)
    {
      var sealed := Seal(aead, key, iv, w);
      if sealed.Failure? {
        return Fail(sealed.error);
      }
      var saved := SaveDoc(docs, sealed.value);
      if saved.Failure? {
        return Fail(saved.error);
      }
      SaveKeepsUnique(docs, sealed.value);
      docs := saved.value;
      r := Pass;
    }

    function GetWallet(userId: string): Result<Option<WalletData>, Failure>
      reads this
    {
      Lookup(aead, key, docs, userId)
    }

    /** `getUser(userId)`: the document of `userId` with `privateKey: ''`, or null. */
    function GetUser(userId: string): (r: Option<WalletData>)
      reads this
      ensures r.Some? <==> UserIndex(docs, userId).Some?
      ensures r.Some? ==>
        r.value.privateKey == "" && r.value.userId == Some(userId) &&
        r.value.address == docs[UserIndex(docs, userId).value].address
      ensures r.Some? ==>
        var d := docs[UserIndex(docs, userId).value];
        r.value == WalletData(d.address, "", d.username, Some(userId), d.createdAt)
    {
      match UserIndex(docs, userId)
      case None => None
      case Some(i) => Some(WalletData(docs[i].address, "", docs[i].username, Some(userId), docs[i].createdAt))
    }

    function GetAllWallets(): Result<seq<WalletData>, Failure>
      reads this
    {
      OpenAll(aead, key, docs)
    }

    /** `getAllUsers()`: one record per document, in order, with `privateKey: 'null'`. */
    function GetAllUsers(): (r: seq<WalletData>)
      reads this
      ensures |r| == |docs|
      ensures forall i :: 0 <= i < |r| ==>
        r[i] == WalletData(docs[i].address, "null", docs[i].username, Some(docs[i].userId), docs[i].createdAt)
    {
      seq(|docs|, i requires 0 <= i < |docs| reads this =>
        WalletData(docs[i].address, "null", docs[i].username, Some(docs[i].userId), docs[i].createdAt))
    }

    /** `deleteWallet(username)`: matches `username`, not `user_id`; true exactly when a document was removed. */
    method DeleteWallet(username: string) returns (deleted: bool)
      requires Valid()
      modifies this
      ensures Valid()
      ensures deleted <==> NameIndex(old(docs), username).Some?
      ensures !deleted ==> docs == old(docs)
      ensures deleted ==>
        var i := NameIndex(old(docs), username).value;
        docs == old(docs)[..i] + old(docs)[i + 1..]
      ensures NameIndex(docs, username).None?
    {
      match NameIndex(docs, username)
      case None =>
        deleted := false;
      case Some(i) =>
        ghost var before := docs;
        docs := docs[..i] + docs[i + 1..];
        assert forall k :: 0 <= k < |docs| ==> docs[k] == before[if k < i then k else k + 1];
        deleted := true;
    }
  }
}
