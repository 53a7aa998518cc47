/**
  `WalletService` of src/lib/samuraiW3/WalletService.ts: the primary
  document store of the samuraiW3 bot. Documents are keyed by `username`, the
  private key is stored as a CypherX envelope and decrypted on read. The
  collection is a sequence in the store's natural order; `findOne`,
  `deleteOne`, `updateOne` and `findOneAndUpdate` act on its first match.
*/
module SamuraiStore {
  import opened Wrappers
  import opened Hex
  import opened Cipher
  import opened Wallets

  /** A stored document: the record with `privateKey` holding the envelope, never the key. */
  datatype Document = Document(username: string, address: string, privateKey: string, createdAt: string)

  /** The document `saveWallet` writes for `w`: the key encrypted, or the encrypt error. */
  function Seal(aead: Aead, key: string, iv: Iv, w: WalletData): (r: Result<Document, Failure>)
    ensures r.Failure? <==> !ValidKey(key)
    ensures r.Success? ==>
      r.value.username == w.username && r.value.address == w.address && r.value.createdAt == w.createdAt &&
      |Segments(r.value.privateKey)| == 3
  {
    match Encrypt(aead, w.privateKey, key, iv)
    case Failure(message) => Failure(CipherError(message))
    case Success(envelope) => Success(Document(w.username, w.address, envelope, w.createdAt))
  }

  /** The stored field is an envelope, so it never equals a key that has no ':' in it. */
  lemma StoredKeyIsNotPlain(aead: Aead, key: string, iv: Iv, w: WalletData)
    requires ValidKey(key) && ':' !in w.privateKey
    ensures Seal(aead, key, iv, w).value.privateKey != w.privateKey
  {
    SegmentsOfPlain(w.privateKey);
  }

  /** A document read back as a record, its key decrypted; a decrypt error is passed on. */
  function Open(aead: Aead, key: string, d: Document): (r: Result<WalletData, Failure>)
    ensures r.Failure? <==> Decrypt(aead, d.privateKey, key).Failure?
    ensures r.Success? ==>
      r.value == WalletData(d.address, Decrypt(aead, d.privateKey, key).value, d.username, None, d.createdAt)
  {
    match Decrypt(aead, d.privateKey, key)
    case Failure(message) => Failure(CipherError(message))
    case Success(plain) => Success(WalletData(d.address, plain, d.username, None, d.createdAt))
  }

  /**
    `find({})` mapped through `Open`: one record per document, in order, or
    the first document's decrypt error; one failure fails the whole list.
  */
  function OpenAll(aead: Aead, key: string, docs: seq<Document>): (r: Result<seq<WalletData>, Failure>)
    ensures r.Success? <==> forall i :: 0 <= i < |docs| ==> Open(aead, key, docs[i]).Success?
    ensures r.Success? ==> |r.value| == |docs|
    ensures r.Success? ==> forall i :: 0 <= i < |docs| ==> r.value[i] == Open(aead, key, docs[i]).value
  {
    if docs == [] then Success([])
    else
      match Open(aead, key, docs[0])
      case Failure(f) => Failure(f)
      case Success(w) =>
        match OpenAll(aead, key, docs[1..])
        case Failure(f) => Failure(f)
        case Success(ws) => Success([w] + ws)
  }

  /** Every record `OpenAll` yields carries the username of a stored document. */
  lemma OpenAllNames(aead: Aead, key: string, docs: seq<Document>, u: string)
    requires OpenAll(aead, key, docs).Success?
    requires forall i :: 0 <= i < |docs| ==> docs[i].username != u
    ensures IndexOf(OpenAll(aead, key, docs).value, u).None?
  {
  }

  /** The position of the first document of `u` (`findOne({username})`). */
  function DocIndex(docs: seq<Document>, u: string): (r: Option<nat>)
    ensures r.Some? ==> r.value < |docs| && docs[r.value].username == u
    ensures r.Some? ==> forall j :: 0 <= j < r.value ==> docs[j].username != u
    ensures r.None? ==> forall i :: 0 <= i < |docs| ==> docs[i].username != u
  {
    if docs == [] then None
    else if docs[0].username == u then Some(0)
    else match DocIndex(docs[1..], u)
      case None => None
      case Some(k) => Some(k + 1)
  }

  /**
    `findOneAndUpdate({username}, d, {upsert: true})`: the first document of
    `d.username` is replaced in place, or `d` is appended when there is none.
  */
  function UpsertDoc(docs: seq<Document>, d: Document): (r: seq<Document>)
    ensures DocIndex(r, d.username).Some? && r[DocIndex(r, d.username).value] == d
    ensures DocIndex(docs, d.username).Some? ==>
      r == docs[DocIndex(docs, d.username).value := d]
    ensures DocIndex(docs, d.username).None? ==> r == docs + [d]
  {
    match DocIndex(docs, d.username)
    case Some(i) =>
      assert DocIndex(docs[i := d], d.username) == Some(i) by {
        DocIndexUpdate(docs, i, d);
      }
      docs[i := d]
    case None =>
      assert DocIndex(docs + [d], d.username) == Some(|docs|) by {
        DocIndexAppend(docs, d);
      }
      docs + [d]
  }

  lemma {:induction false} DocIndexUpdate(docs: seq<Document>, i: nat, d: Document)
    requires DocIndex(docs, d.username) == Some(i)
    ensures DocIndex(docs[i := d], d.username) == Some(i)
  {
    if i > 0 {
      DocIndexUpdate(docs[1..], i - 1, d);
      assert docs[i := d][1..] == docs[1..][i - 1 := d];
    }
  }

  lemma {:induction false} DocIndexAppend(docs: seq<Document>, d: Document)
    requires DocIndex(docs, d.username).None?
    ensures DocIndex(docs + [d], d.username) == Some(|docs|)
  {
    if docs != [] {
      DocIndexAppend(docs[1..], d);
      assert (docs + [d])[1..] == docs[1..] + [d];
    }
  }

  /** `getWallet(u)`: null when no document matches, else the record with the key decrypted. */
  function Lookup(aead: Aead, key: string, docs: seq<Document>, u: string): (r: Result<Option<WalletData>, Failure>)
    ensures r == Success(None) <==> DocIndex(docs, u).None?
    ensures r.Failure? ==> DocIndex(docs, u).Some?
    ensures r.Success? && r.value.Some? ==> r.value.value.username == u
    ensures DocIndex(docs, u).Some? ==>
      (r.Failure? <==> Open(aead, key, docs[DocIndex(docs, u).value]).Failure?)
    ensures r.Failure? ==> r.error == Open(aead, key, docs[DocIndex(docs, u).value]).error
    ensures r.Success? && r.value.Some? ==> r.value.value == Open(aead, key, docs[DocIndex(docs, u).value]).value
  {
    match DocIndex(docs, u)
    case None => Success(None)
    case Some(i) =>
      match Open(aead, key, docs[i])
      case Failure(f) => Failure(f)
      case Success(w) => Success(Some(w))
  }

  /**
    Save then get: the store gives back the record saved, its key decrypted,
    for any non-empty key (an empty one fails to decrypt).
  */
  lemma LookupAfterSave(aead: Aead, key: string, iv: Iv, docs: seq<Document>, w: WalletData)
    requires aead.Correct() && ValidKey(key) && w.privateKey != []
    ensures Seal(aead, key, iv, w).Success?
    ensures Lookup(aead, key, UpsertDoc(docs, Seal(aead, key, iv, w).value), w.username)
      == Success(Some(w.(userId := None)))
  {
    RoundTrip(aead, w.privateKey, key, iv);
  }

  /** A record without its key, as `getUser` and `getAllUsers` return it: `privateKey: ''`. */
  function Public(d: Document): WalletData {
    WalletData(d.address, "", d.username, None, d.createdAt)
  }

  /** `getAllUsers`: one key-free record per document, in order. */
  function PublicAll(docs: seq<Document>): (r: seq<WalletData>)
    ensures |r| == |docs|
    ensures forall i :: 0 <= i < |docs| ==> r[i] == Public(docs[i])
    ensures forall w :: w in r ==> w.privateKey == ""
  {
    if docs == [] then [] else [Public(docs[0])] + PublicAll(docs[1..])
  }

  class WalletService {
    /** The wallet collection, in natural order. */
    var docs: seq<Document>
    const key: string
    const aead: Aead

    /** A service over a collection that already holds `docs`. */
    constructor(key: string, aead: Aead, docs: seq<Document>)
      ensures this.key == key && this.aead == aead && this.docs == docs
    {
      this.key, this.aead, this.docs := key, aead, docs;
    }

    /**
      `saveWallet(w)`: encrypt the key, then upsert by username. An invalid key
      throws before the store is touched.
    */
    method SaveWallet(w: WalletData, iv: Iv) returns (r: Outcome<Failure>)
      modifies this
      ensures r.Pass? <==> ValidKey(key)
      ensures r.Fail? ==> r.error == CipherError(KeyLengthMessage) && docs == old(docs)
      ensures r.Pass? ==> docs == UpsertDoc(old(docs), Seal(aead, key, iv, w).value)
    {
      var sealed := Seal(aead, key, iv, w);
      if sealed.Failure? {
        return Fail(sealed.error);
      }
      docs := UpsertDoc(docs, sealed.value);
      r := Pass;
    }

    function GetWallet(u: string): Result<Option<WalletData>, Failure>
      reads this
    {
      Lookup(aead, key, docs, u)
    }

    /** `getUser(u)`: the first document of `u` with `privateKey: ''`, or null. */
    function GetUser(u: string): (r: Option<WalletData>)
      reads this
      ensures r.Some? <==> DocIndex(docs, u).Some?
      ensures r.Some? ==> r.value == Public(docs[DocIndex(docs, u).value]) && r.value.privateKey == ""
    {
      match DocIndex(docs, u)
      case None => None
      case Some(i) => Some(Public(docs[i]))
    }

    function GetAllWallets(): Result<seq<WalletData>, Failure>
      reads this
    {
      OpenAll(aead, key, docs)
    }

    function GetAllUsers(): seq<WalletData>
      reads this
    {
      PublicAll(docs)
    }

    /** `deleteWallet(u)`: `deleteOne({username})`; true exactly when a document was removed. */
    method DeleteWallet(u: string) returns (deleted: bool)
      modifies this
      ensures deleted <==> DocIndex(old(docs), u).Some?
      ensures !deleted ==> docs == old(docs)
      ensures deleted ==>
        var i := DocIndex(old(docs), u).value;
        docs == old(docs)[..i] + old(docs)[i + 1..]
    {
      match DocIndex(docs, u)
      case None =>
        deleted := false;
      case Some(i) =>
        docs := docs[..i] + docs[i + 1..];
        deleted := true;
    }

    /**
      `updateWalletUsername(u, nu)`: `$set` the username of the first
      document of `u`. Mongo counts a document as modified only when a value
      changes, so the result is true exactly when a document matched and
      `nu` differs from `u`.
    */
    method UpdateWalletUsername(u: string, nu: string) returns (modified: bool)
      modifies this
      ensures modified <==> DocIndex(old(docs), u).Some? && u != nu
      ensures DocIndex(old(docs), u).None? ==> docs == old(docs)
      ensures DocIndex(old(docs), u).Some? ==>
        var i := DocIndex(old(docs), u).value;
        docs == old(docs)[i := old(docs)[i].(username := nu)]
    {
      match DocIndex(docs, u)
      case None =>
        modified := false;
      case Some(i) =>
        docs := docs[i := docs[i].(username := nu)];
        modified := u != nu;
    }
  }
}
