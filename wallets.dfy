/**
  The wallet record every store holds, the key-free summary, and the list
  operations the three managers apply to a snapshot of records: drop a
  username, upsert by username, find the first record of a username, rename it.
*/
module Wallets {
  import opened Wrappers

  /**
    A wallet record: `WalletData` of src/lib/utils/types.ts, plus the
    `user_id` the on-chain-wiki variant adds (absent in the other two).
  */
  datatype WalletData = WalletData(
    address: string,
    privateKey: string,
    username: string,
    userId: Option<string>,
    createdAt: string)

  /** What a summary carries: address, username and creation time, and no field for a key. */
  datatype Summary = Summary(address: string, username: string, createdAt: string)

  /**
    The errors the custody layer throws. `CipherError` carries the message of
    an error raised by the envelope code; the others stand for fixed messages
    or the manager's error tags.
  */
  datatype Failure =
    | CipherError(message: string)  // thrown by CypherX.encrypt or CypherX.decrypt
    | KeyRejected                   // `new ethers.Wallet(key)` threw: not a private key
    | WalletNotFound                // 'Wallet not found' / ERROR_MESSAGES.WALLET_NOT_FOUND
    | InvalidPrivateKey             // 'Invalid private key' / ERROR_MESSAGES.INVALID_PRIVATE_KEY
    | KeyAddressMismatch            // 'Private key does not match the selected address'
    | DuplicateKey                  // a unique index of the document store refused the write
    | NoWalletFile                  // 'No wallet file exists to backup'
    | UtilsUndefined                // TypeError: ethers v6 has no `ethers.utils` to call `verifyMessage` on

  function ToSummary(w: WalletData): Summary {
    Summary(w.address, w.username, w.createdAt)
  }

  /** `wallets.map(w => ({address, username, createdAt}))` */
  function Summaries(ws: seq<WalletData>): (r: seq<Summary>)
    ensures |r| == |ws|
    ensures forall i :: 0 <= i < |ws| ==>
      r[i].address == ws[i].address && r[i].username == ws[i].username && r[i].createdAt == ws[i].createdAt
  {
    if ws == [] then [] else [ToSummary(ws[0])] + Summaries(ws[1..])
  }

  /** No two records share a username. */
  ghost predicate UniqueNames(ws: seq<WalletData>) {
    forall i, j :: 0 <= i < j < |ws| ==> ws[i].username != ws[j].username
  }

  /** The position of the first record with username `u` (`findIndex`). */
  function IndexOf(ws: seq<WalletData>, u: string): (r: Option<nat>)
    ensures r.Some? ==> r.value < |ws| && ws[r.value].username == u
    ensures r.Some? ==> forall j :: 0 <= j < r.value ==> ws[j].username != u
    ensures r.None? ==> forall i :: 0 <= i < |ws| ==> ws[i].username != u
  {
    if ws == [] then None
    else if ws[0].username == u then Some(0)
    else match IndexOf(ws[1..], u)
      case None => None
      case Some(k) => Some(k + 1)
  }

  /** `wallets.find(w => w.username === u) || null` */
  function Find(ws: seq<WalletData>, u: string): Option<WalletData> {
    match IndexOf(ws, u)
    case None => None
    case Some(i) => Some(ws[i])
  }

  /** `wallets.filter(w => w.username !== u)` */
  function Without(ws: seq<WalletData>, u: string): (r: seq<WalletData>)
    ensures |r| <= |ws|
    ensures forall w :: w in r <==> w in ws && w.username != u
  {
    if ws == [] then []
    else if ws[0].username == u then Without(ws[1..], u)
    else [ws[0]] + Without(ws[1..], u)
  }

  /** Filtering distributes over concatenation, so it keeps the relative order of what it keeps. */
  lemma {:induction false} WithoutAppend(a: seq<WalletData>, b: seq<WalletData>, u: string)
    ensures Without(a + b, u) == Without(a, u) + Without(b, u)
  {
    if a == [] {
      assert a + b == b;
    } else {
      var t := a + b;
      assert t != [] && t[0] == a[0] && t[1..] == a[1..] + b;
      WithoutAppend(a[1..], b, u);
      if a[0].username != u {
        var x, y := Without(a[1..], u), Without(b, u);
        assert [a[0]] + (x + y) == ([a[0]] + x) + y;
      }
    }
  }

  /**
    The length test the delete operations rely on: filtering leaves the
    length unchanged exactly when no record has that username, and then it
    leaves the whole snapshot unchanged.
  */
  lemma {:induction false} WithoutLength(ws: seq<WalletData>, u: string)
    ensures |Without(ws, u)| == |ws| <==> IndexOf(ws, u).None?
    ensures IndexOf(ws, u).None? ==> Without(ws, u) == ws
  {
    if ws != [] {
      WithoutLength(ws[1..], u);
    }
  }

  /** Filtering twice is filtering once. */
  lemma WithoutIdempotent(ws: seq<WalletData>, u: string)
    ensures Without(Without(ws, u), u) == Without(ws, u)
  {
    WithoutLength(Without(ws, u), u);
  }

  /**
    The save step: drop every record of `w.username`, then append `w`.
    Afterwards `w` is the one record of that username and it is last.
  */
  function Upsert(ws: seq<WalletData>, w: WalletData): (r: seq<WalletData>)
    ensures |r| >= 1 && r[|r| - 1] == w
    ensures forall i :: 0 <= i < |r| - 1 ==> r[i].username != w.username
    ensures forall x :: x in r <==> x == w || (x in ws && x.username != w.username)
    ensures r[..|r| - 1] == Without(ws, w.username)
  {
    var rest := Without(ws, w.username);
    assert forall i :: 0 <= i < |rest| ==> rest[i] in rest;
    rest + [w]
  }

  /** Saving the same record twice is saving it once. */
  lemma UpsertIdempotent(ws: seq<WalletData>, w: WalletData)
    ensures Upsert(Upsert(ws, w), w) == Upsert(ws, w)
  {
    var rest := Without(ws, w.username);
    WithoutAppend(rest, [w], w.username);
    WithoutIdempotent(ws, w.username);
    assert Without([w], w.username) == [];
  }

  /** After an upsert, looking the username up gives the saved record. */
  lemma FindAfterUpsert(ws: seq<WalletData>, w: WalletData)
    ensures Find(Upsert(ws, w), w.username) == Some(w)
  {
  }

  /** An upsert of one username leaves the lookup of every other username as it was. */
  lemma FindAfterUpsertOther(ws: seq<WalletData>, w: WalletData, u: string)
    requires u != w.username
    ensures Find(Upsert(ws, w), u) == Find(ws, u)
  {
    FindWithoutAppend(ws, w, u);
  }

  lemma {:induction false} FindWithoutAppend(ws: seq<WalletData>, w: WalletData, u: string)
    requires u != w.username
    ensures Find(Without(ws, w.username) + [w], u) == Find(ws, u)
  {
    if ws == [] {
      assert Without(ws, w.username) + [w] == [w];
    } else {
      FindWithoutAppend(ws[1..], w, u);
      var rest := Without(ws[1..], w.username);
      if ws[0].username != w.username {
        var r := [ws[0]] + (rest + [w]);
        assert Without(ws, w.username) + [w] == r;
        assert r[0] == ws[0] && r[1..] == rest + [w];
      }
    }
  }

  /** An upsert keeps usernames unique. */
  lemma UpsertKeepsUnique(ws: seq<WalletData>, w: WalletData)
    requires UniqueNames(ws)
    ensures UniqueNames(Upsert(ws, w))
  {
    WithoutKeepsUnique(ws, w.username);
  }

  lemma {:induction false} WithoutKeepsUnique(ws: seq<WalletData>, u: string)
    requires UniqueNames(ws)
    ensures UniqueNames(Without(ws, u))
  {
    if ws != [] {
      WithoutKeepsUnique(ws[1..], u);
      var rest := Without(ws[1..], u);
      if ws[0].username != u {
        forall j | 0 <= j < |rest| ensures rest[j].username != ws[0].username {
          assert rest[j] in ws[1..];
        }
      }
    }
  }

  /**
    The in-place rename `record.username = nu` on the first record of `u`;
    a snapshot without such a record is returned as it is.
  */
  function RenameFirst(ws: seq<WalletData>, u: string, nu: string): (r: seq<WalletData>)
    ensures |r| == |ws|
    ensures IndexOf(ws, u).None? ==> r == ws
    ensures IndexOf(ws, u).Some? ==>
      var i := IndexOf(ws, u).value;
      r[i] == ws[i].(username := nu) && forall j :: 0 <= j < |ws| && j != i ==> r[j] == ws[j]
  {
    match IndexOf(ws, u)
    case None => ws
    case Some(i) => ws[i := ws[i].(username := nu)]
  }

  /**
    Renaming onto a username another record already has leaves two records
    with that username: the rename does not keep usernames unique.
  */
  lemma RenameMayDuplicate()
    ensures
      var a := WalletData("0xa", "ka", "alice", None, "t");
      var b := WalletData("0xb", "kb", "bob", None, "t");
      UniqueNames([a, b]) && !UniqueNames(RenameFirst([a, b], "alice", "bob"))
  {
    var a := WalletData("0xa", "ka", "alice", None, "t");
    var b := WalletData("0xb", "kb", "bob", None, "t");
    var r := RenameFirst([a, b], "alice", "bob");
    assert r[0].username == r[1].username;
  }
}
