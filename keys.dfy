/**
  The ethers.js calls the custody layer makes on private keys, as an `Ethers`
  value: `derive` is the address `new ethers.Wallet(key)` has (`None` when the
  constructor throws), `sign` is `wallet.signMessage`, `recover` is
  `verifyMessage`. The one assumption, `Sound()`, is that a signature made
  with a key recovers to that key's address (EIP-191 signing and recovery).
*/
module Keys {
  import opened Wrappers
  import opened Wallets

  datatype Ethers = Ethers(
    derive: string -> Option<string>,
    sign: (string, string) -> string,
    recover: (string, string) -> string)
  {
    ghost predicate Sound() {
      forall key: string, message: string {:trigger sign(key, message)} ::
        derive(key).Some? ==> recover(message, sign(key, message)) == derive(key).value
    }
  }

  /** The fixed challenge both rename operations sign. */
  const VerificationText: string := "verify_private_key"

  /**
    The proof of possession before a rename: build a wallet from the stored
    key (throws if it is not a key), sign the challenge, and compare the
    recovered signer with the stored address.

    With sound signing the check passes exactly when the stored key derives
    the stored address; the key the caller holds plays no part.
  */
  function ProvePossession(e: Ethers, stored: WalletData): (r: Outcome<Failure>)
    ensures e.derive(stored.privateKey).None? <==> r == Fail(KeyRejected)
    ensures r.Fail? ==> r.error in {KeyRejected, InvalidPrivateKey}
    ensures e.Sound() ==> (r == Pass <==> e.derive(stored.privateKey) == Some(stored.address))
  {
    if e.derive(stored.privateKey).None? then Fail(KeyRejected)
    else if e.recover(VerificationText, e.sign(stored.privateKey, VerificationText)) != stored.address
    then Fail(InvalidPrivateKey)
    else Pass
  }

  /**
    `getAddressesFromPrivateKey(key)` of both database-backed managers: the
    one address ethers derives from the key, or the invalid-private-key error
    when it derives none.
  */
  function AddressesFromKey(e: Ethers, privateKey: string): (r: Result<seq<string>, Failure>)
    ensures r.Success? <==> e.derive(privateKey).Some?
    ensures r.Success? ==> |r.value| == 1 && Some(r.value[0]) == e.derive(privateKey)
    ensures r.Failure? ==> r.error == InvalidPrivateKey
  {
    match e.derive(privateKey)
    case None => Failure(InvalidPrivateKey)
    case Some(address) => Success([address])
  }

  /**
    A record imported with the address ethers derives from its key passes
    the proof of possession a later rename runs on it.
  */
  lemma ImportedKeyProvesPossession(e: Ethers, privateKey: string, username: string, userId: Option<string>, createdAt: string)
    requires e.Sound() && AddressesFromKey(e, privateKey).Success?
    ensures ProvePossession(e, WalletData(AddressesFromKey(e, privateKey).value[0], privateKey, username, userId, createdAt)) == Pass
  {
  }

  function LowerChar(c: char): char {
    if 'A' <= c <= 'Z' then (c as int - 'A' as int + 'a' as int) as char else c
  }

  /** `s.toLowerCase()` on ASCII text. */
  function ToLower(s: string): (r: string)
    ensures |r| == |s|
    ensures forall i :: 0 <= i < |s| ==> r[i] == LowerChar(s[i])
  {
    if s == [] then [] else [LowerChar(s[0])] + ToLower(s[1..])
  }

  /** The import check: the addresses agree when upper and lower case are not told apart. */
  predicate SameAddress(a: string, b: string) {
    ToLower(a) == ToLower(b)
  }

  /**
    Case is all that the comparison ignores: two addresses match exactly when
    they have the same length and agree at every position up to ASCII case.
  */
  lemma SameAddressExactly(a: string, b: string)
    ensures SameAddress(a, b) <==>
      |a| == |b| && forall i :: 0 <= i < |a| ==> LowerChar(a[i]) == LowerChar(b[i])
  {
    if |a| == |b| && forall i :: 0 <= i < |a| ==> LowerChar(a[i]) == LowerChar(b[i]) {
      assert forall i :: 0 <= i < |a| ==> ToLower(a)[i] == ToLower(b)[i];
    }
    if SameAddress(a, b) {
      assert |ToLower(a)| == |ToLower(b)|;
    }
  }

  /** An address matches its own lower-case form. */
  lemma {:induction false} LowerIsSameAddress(a: string)
    ensures SameAddress(a, ToLower(a))
  {
    var l := ToLower(a);
    assert forall i :: 0 <= i < |a| ==> LowerChar(LowerChar(a[i])) == LowerChar(a[i]);
    assert ToLower(l) == l;
  }
}
