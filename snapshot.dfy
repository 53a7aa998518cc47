/**
  The fallback file `data/wallets.enc`: the whole list of wallet records,
  serialised as JSON and encrypted as one CypherX envelope. Reading swallows
  every failure into an empty list; writing replaces the whole file.
*/
module Snapshot {
  import opened Wrappers
  import opened Hex
  import opened Cipher
  import opened Wallets

  /**
    `JSON.stringify` and `JSON.parse` on wallet lists. `parse` gives `None` for
    text that is not JSON or not a list of records. The one assumption,
    `Faithful()`, is that a list reads back as itself from its (never empty)
    JSON text.
  */
  datatype Json = Json(
    stringify: seq<WalletData> -> string,
    parse: string -> Option<seq<WalletData>>)
  {
    ghost predicate Faithful() {
      forall ws: seq<WalletData> {:trigger stringify(ws)} ::
        stringify(ws) != [] && parse(stringify(ws)) == Some(ws)
    }
  }

  /**
    The file branch of `getAllWallets`: an absent file reads as `[]`, and so
    does a file that fails to decrypt or to parse; corruption is swallowed.
  */
  function Read(aead: Aead, json: Json, key: string, file: Option<string>): (ws: seq<WalletData>)
    ensures file.None? ==> ws == []
    ensures file.Some? && Decrypt(aead, file.value, key).Failure? ==> ws == []
    ensures file.Some? && Decrypt(aead, file.value, key).Success? ==>
      ws == (if json.parse(Decrypt(aead, file.value, key).value).Some?
             then json.parse(Decrypt(aead, file.value, key).value).value else [])
    ensures !ValidKey(key) ==> ws == []
  {
    match file
    case None => []
    case Some(envelope) =>
      match Decrypt(aead, envelope, key)
      case Failure(_) => []
      case Success(text) =>
        match json.parse(text)
        case None => []
        case Some(records) => records
  }

  /** The file contents a save writes: the envelope of the list's JSON, or the encrypt error. */
  function Write(aead: Aead, json: Json, key: string, iv: Iv, ws: seq<WalletData>): (r: Result<string, Failure>)
    ensures r.Failure? <==> !ValidKey(key)
    ensures r.Failure? ==> r.error == CipherError(KeyLengthMessage)
  {
    match Encrypt(aead, json.stringify(ws), key, iv)
    case Failure(message) => Failure(CipherError(message))
    case Success(envelope) => Success(envelope)
  }

  /** What is written reads back: under a valid key the file holds exactly the list saved. */
  lemma ReadAfterWrite(aead: Aead, json: Json, key: string, iv: Iv, ws: seq<WalletData>)
    requires aead.Correct() && json.Faithful() && ValidKey(key)
    ensures Write(aead, json, key, iv, ws).Success?
    ensures Read(aead, json, key, Some(Write(aead, json, key, iv, ws).value)) == ws
  {
    RoundTrip(aead, json.stringify(ws), key, iv);
  }

  /** `new Date().toISOString().replace(/[:.]/g, '-')` applied to a timestamp. */
  function SafeTimestamp(ts: string): (r: string)
    ensures |r| == |ts|
    ensures forall i :: 0 <= i < |ts| ==> r[i] == (if ts[i] in ":." then '-' else ts[i])
    ensures ':' !in r && '.' !in r
  {
    if ts == [] then [] else [if ts[0] in ":." then '-' else ts[0]] + SafeTimestamp(ts[1..])
  }

  /** `path.join(dir, 'wallets-backup-<timestamp>.enc')`, taking the join as a plain '/'. */
  function BackupFile(dir: string, ts: string): string {
    dir + "/wallets-backup-" + SafeTimestamp(ts) + ".enc"
  }
}
