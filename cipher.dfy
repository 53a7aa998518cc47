/**
  The CypherX envelope of src/lib/Encryption.ts: AES-256-GCM under a key given
  as hex, wrapped into the text `iv_hex:tag_hex:ciphertext_hex`.

  The block cipher itself is not modelled. It is an `Aead` value, a pair of
  functions, and every property below that needs it to work assumes only
  `Correct()`: a ciphertext sealed under a 32-byte key and a 16-byte iv opens
  back to its text from its hex form, the tag is 16 bytes, the ciphertext is
  empty exactly when the text is (GCM is a stream mode, so lengths are kept),
  and ciphertext hex of odd length is refused (`decipher.update(hex, 'hex')`
  throws on it).
*/
module Cipher {
  import opened Wrappers
  import opened Hex

  /** The 16 bytes `crypto.randomBytes(16)` draws for each call. */
  type Iv = s: Bytes | |s| == 16 witness seq(16, _ => 0 as byte)

  /** The 32 bytes `crypto.randomBytes(32)` draws for a fresh key. */
  type KeyMaterial = s: Bytes | |s| == 32 witness seq(32, _ => 0 as byte)

  /** The authentication tag and the ciphertext of one sealing. */
  datatype Sealed = Sealed(tag: Bytes, body: Bytes)

  /**
    AES-256-GCM as two functions: `seal(key, iv, text)` and
    `open(key, iv, tag, bodyHex)`, the latter taking the ciphertext as the hex
    text `decipher.update` is given and yielding the text or the message of
    the error Node throws (bad iv, bad tag length, hex of odd length, failed
    authentication).
  */
  datatype Aead = Aead(
    seal: (Bytes, Iv, string) -> Sealed,
    open: (Bytes, Bytes, Bytes, string) -> Result<string, string>)
  {
    ghost predicate Correct() {
      && (forall key: Bytes, iv: Iv, text: string {:trigger seal(key, iv, text)} ::
            |key| == 32 ==>
              var s := seal(key, iv, text);
              |s.tag| == 16 && (s.body == [] <==> text == []) && open(key, iv, s.tag, Encode(s.body)) == Success(text))
      && (forall key: Bytes, iv: Bytes, tag: Bytes, bodyHex: string {:trigger open(key, iv, tag, bodyHex)} ::
            |bodyHex| % 2 == 1 ==> open(key, iv, tag, bodyHex).Failure?)
    }
  }

  const KeyLengthMessage: string := "Encryption key must be 32 bytes (64 hex characters)"
  const FormatMessage: string := "Invalid encrypted text format"
  const DecryptPrefix: string := "Decryption failed: "

  /** The key check both calls make first: the hex key decodes to exactly 32 bytes. */
  predicate ValidKey(key: string) {
    |Decode(key)| == 32
  }

  /**
    The key check in closed form: the first 64 characters are hex digits and
    the two after them, if present, are not both hex digits (Node stops
    decoding there, so anything may follow).
  */
  lemma ValidKeyExactly(key: string)
    ensures ValidKey(key) <==>
      |key| >= 64 && AllHex(key[..64]) && !(|key| >= 66 && AllHex(key[..66]))
  {
    DecodedLength(key, 32);
  }

  /** `text.split(':')` */
  function Segments(s: string): (parts: seq<string>)
    ensures |parts| >= 1
    ensures forall i :: 0 <= i < |parts| ==> ':' !in parts[i]
  {
    if s == [] then [""]
    else
      var rest := Segments(s[1..]);
      if s[0] == ':' then [""] + rest
      else [[s[0]] + rest[0]] + rest[1..]
  }

  /** `parts.join(':')` */
  function Join(parts: seq<string>): string
    requires |parts| >= 1
  {
    if |parts| == 1 then parts[0] else parts[0] + ":" + Join(parts[1..])
  }

  lemma {:induction false} SegmentsOfPlain(a: string)
    requires ':' !in a
    ensures Segments(a) == [a]
  {
    if a != [] {
      SegmentsOfPlain(a[1..]);
      assert a[0] != ':';
      assert [a[0]] + a[1..] == a;
    }
  }

  lemma {:induction false} SegmentsCons(a: string, b: string)
    requires ':' !in a
    ensures Segments(a + ":" + b) == [a] + Segments(b)
  {
    if a == [] {
      assert a + ":" + b == [':'] + b;
      assert ([':'] + b)[1..] == b;
    } else {
      SegmentsCons(a[1..], b);
      assert (a + ":" + b)[1..] == a[1..] + ":" + b;
      assert (a + ":" + b)[0] == a[0] != ':';
      assert [a[0]] + a[1..] == a;
    }
  }

  /** Splitting undoes joining, for parts that contain no separator. */
  lemma {:induction false} SegmentsJoin(parts: seq<string>)
    requires |parts| >= 1
    requires forall i :: 0 <= i < |parts| ==> ':' !in parts[i]
    ensures Segments(Join(parts)) == parts
  {
    if |parts| == 1 {
      SegmentsOfPlain(parts[0]);
    } else {
      SegmentsJoin(parts[1..]);
      SegmentsCons(parts[0], Join(parts[1..]));
    }
  }

  /** Joining undoes splitting: no character of the text is lost. */
  lemma {:induction false} JoinSegments(s: string)
    ensures Join(Segments(s)) == s
  {
    if s != [] {
      JoinSegments(s[1..]);
      var rest := Segments(s[1..]);
      if s[0] != ':' && |rest| > 1 {
        assert Join([[s[0]] + rest[0]] + rest[1..]) == [s[0]] + Join(rest);
      }
    }
  }

  /** The envelope around one sealing: iv, then tag, then ciphertext, each as hex. */
  function Envelope(iv: Bytes, sealed: Sealed): string {
    Join([Encode(iv), Encode(sealed.tag), Encode(sealed.body)])
  }

  /** Hex text never contains the separator. */
  lemma HexHasNoColon(bs: Bytes)
    ensures ':' !in Encode(bs)
  {
  }

  /** The envelope splits back into the hex forms of its three parts. */
  lemma EnvelopeSegments(iv: Bytes, sealed: Sealed)
    ensures Segments(Envelope(iv, sealed)) == [Encode(iv), Encode(sealed.tag), Encode(sealed.body)]
  {
    HexHasNoColon(iv);
    HexHasNoColon(sealed.tag);
    HexHasNoColon(sealed.body);
    SegmentsJoin([Encode(iv), Encode(sealed.tag), Encode(sealed.body)]);
  }

  /**
    `CypherX.encrypt(text, key)` with the random iv passed in: a wrong key
    length throws before anything else; otherwise the envelope of the sealing.
  */
  function Encrypt(aead: Aead, text: string, key: string, iv: Iv): (r: Result<string, string>)
    ensures r.Failure? <==> !ValidKey(key)
    ensures r.Failure? ==> r.error == KeyLengthMessage
    ensures r.Success? ==>
      var parts := Segments(r.value);
      |parts| == 3 && |parts[0]| == 32 && Decode(parts[0]) == iv &&
      (aead.Correct() ==> |parts[1]| == 32 && (parts[2] == [] <==> text == []))
  {
    if !ValidKey(key) then Failure(KeyLengthMessage)
    else
      var sealed := aead.seal(Decode(key), iv, text);
      EnvelopeSegments(iv, sealed);
      DecodeEncode(iv);
      Success(Envelope(iv, sealed))
  }

  /** The format check inside `decrypt`: a first, second or third segment is missing or empty. */
  predicate Malformed(envelope: string) {
    var parts := Segments(envelope);
    |parts| < 3 || parts[0] == [] || parts[1] == [] || parts[2] == []
  }

  /** The body of `decrypt`'s `try` block, before its errors are wrapped. */
  function OpenEnvelope(aead: Aead, envelope: string, key: string): Result<string, string> {
    if Malformed(envelope) then Failure(FormatMessage)
    else
      var parts := Segments(envelope);
      aead.open(Decode(key), Decode(parts[0]), Decode(parts[1]), parts[2])
  }

  /**
    `CypherX.decrypt(envelope, key)`: the key check comes before the `try`, so
    its error is not prefixed; every error raised inside the `try`, the format
    error included, is re-thrown with the prefix "Decryption failed: ".
    Segments after the third are ignored.
  */
  function Decrypt(aead: Aead, envelope: string, key: string): (r: Result<string, string>)
    ensures !ValidKey(key) ==> r == Failure(KeyLengthMessage)
    ensures ValidKey(key) && r.Failure? ==> DecryptPrefix <= r.error
    ensures ValidKey(key) && Malformed(envelope) ==> r == Failure(DecryptPrefix + FormatMessage)
    ensures aead.Correct() && !Malformed(envelope) && |Segments(envelope)[2]| % 2 == 1 ==>
      r.Failure? && (ValidKey(key) ==> DecryptPrefix <= r.error)
  {
    if !ValidKey(key) then Failure(KeyLengthMessage)
    else
      match OpenEnvelope(aead, envelope, key)
      case Success(text) => Success(text)
      case Failure(message) => Failure(DecryptPrefix + message)
  }

  /**
    Round trip: under a valid key, decrypting what `encrypt` produced gives the
    text back, for every non-empty text.
  */
  lemma RoundTrip(aead: Aead, text: string, key: string, iv: Iv)
    requires aead.Correct() && ValidKey(key) && text != []
    ensures Encrypt(aead, text, key, iv).Success?
    ensures Decrypt(aead, Encrypt(aead, text, key, iv).value, key) == Success(text)
  {
    var sealed := aead.seal(Decode(key), iv, text);
    EnvelopeSegments(iv, sealed);
    DecodeEncode(iv);
    DecodeEncode(sealed.tag);
  }

  /**
    The round trip fails for the empty text: GCM gives an empty ciphertext,
    the envelope ends in ':' and `decrypt` rejects its empty third segment.
  */
  lemma EmptyTextDoesNotRoundTrip(aead: Aead, key: string, iv: Iv)
    requires aead.Correct() && ValidKey(key)
    ensures Encrypt(aead, "", key, iv).Success?
    ensures Decrypt(aead, Encrypt(aead, "", key, iv).value, key) == Failure(DecryptPrefix + FormatMessage)
  {
  }

  lemma OneMoreIsOdd(n: nat)
    ensures (2 * n + 1) % 2 == 1
  {
  }

  /**
    An envelope whose ciphertext hex has one digit too many is refused with
    the decrypt prefix: the lenient hex decoding of the iv and the tag does
    not extend to the ciphertext.
  */
  lemma OddCiphertextRejected(aead: Aead, text: string, key: string, iv: Iv)
    requires aead.Correct() && ValidKey(key)
    ensures var s := aead.seal(Decode(key), iv, text);
      var r := Decrypt(aead, Join([Encode(iv), Encode(s.tag), Encode(s.body) + "a"]), key);
      r.Failure? && DecryptPrefix <= r.error
  {
    var s := aead.seal(Decode(key), iv, text);
    var parts := [Encode(iv), Encode(s.tag), Encode(s.body) + "a"];
    HexHasNoColon(iv);
    HexHasNoColon(s.tag);
    HexHasNoColon(s.body);
    assert ':' !in Encode(s.body) + "a";
    SegmentsJoin(parts);
    var envelope := Join(parts);
    assert Segments(envelope) == parts;
    assert |s.tag| == 16;
    assert !Malformed(envelope);
    var refused := aead.open(Decode(key), Decode(parts[0]), Decode(parts[1]), parts[2]);
    var n := |s.body|;
    assert |parts[2]| == 2 * n + 1;
    OneMoreIsOdd(n);
    assert refused.Failure?;
    assert OpenEnvelope(aead, envelope, key) == refused;
  }

  /**
    `CypherX.generateKey()` with the 32 random bytes passed in: 64 hex
    characters that decode back to those bytes, so the key check accepts them.
  */
  function GenerateKey(random: KeyMaterial): (key: string)
    ensures |key| == 64 && Decode(key) == random && ValidKey(key)
  {
    DecodeEncode(random);
    Encode(random)
  }
}
