/**
  Base16 ("hex") as Node's Buffer uses it: encoding writes two lower-case digits
  per byte (section 8 of RFC 4648); decoding accepts either case, reads digit
  pairs from the left and stops silently at the first pair that is not two hex
  digits, so a trailing odd digit is dropped as well.
*/
module Hex {

  newtype byte = x: int | 0 <= x < 256

  type Bytes = seq<byte>

  const Digits: string := "0123456789abcdef"

  predicate IsHexDigit(c: char) {
    '0' <= c <= '9' || 'a' <= c <= 'f' || 'A' <= c <= 'F'
  }

  /** Every character of `s` is a hex digit. */
  predicate AllHex(s: string) {
    forall i :: 0 <= i < |s| ==> IsHexDigit(s[i])
  }

  function DigitValue(c: char): (v: nat)
    requires IsHexDigit(c)
    ensures v < 16
  {
    if c <= '9' then c as int - '0' as int
    else if 'a' <= c then c as int - 'a' as int + 10
    else c as int - 'A' as int + 10
  }

  function EncodeByte(b: byte): (s: string)
    ensures |s| == 2 && s[0] in Digits && s[1] in Digits
  {
    [Digits[b as int / 16], Digits[b as int % 16]]
  }

  /** `buffer.toString('hex')` */
  function Encode(bs: Bytes): (s: string)
    ensures |s| == 2 * |bs|
    ensures forall i :: 0 <= i < |s| ==> s[i] in Digits
  {
    if bs == [] then [] else EncodeByte(bs[0]) + Encode(bs[1..])
  }

  /** `Buffer.from(s, 'hex')`: the longest run of leading digit pairs. */
  function Decode(s: string): (bs: Bytes)
    ensures |bs| <= |s| / 2
  {
    if |s| < 2 || !IsHexDigit(s[0]) || !IsHexDigit(s[1]) then []
    else [(16 * DigitValue(s[0]) + DigitValue(s[1])) as byte] + Decode(s[2..])
  }

  lemma DigitRoundTrip(d: nat)
    requires d < 16
    ensures IsHexDigit(Digits[d]) && DigitValue(Digits[d]) == d
  {
  }

  lemma DecodeEncodeByte(b: byte)
    ensures IsHexDigit(EncodeByte(b)[0]) && IsHexDigit(EncodeByte(b)[1])
    ensures 16 * DigitValue(EncodeByte(b)[0]) + DigitValue(EncodeByte(b)[1]) == b as int
  {
    DigitRoundTrip(b as int / 16);
    DigitRoundTrip(b as int % 16);
  }

  /** Decoding undoes encoding: the hex form of any byte string reads back as it. */
  lemma {:induction false} DecodeEncode(bs: Bytes)
    ensures Decode(Encode(bs)) == bs
  {
    if bs != [] {
      var e, t := EncodeByte(bs[0]), Encode(bs[1..]);
      var s := Encode(bs);
      assert s == e + t;
      assert s[0] == e[0] && s[1] == e[1] && s[2..] == t;
      DecodeEncodeByte(bs[0]);
      DecodeEncode(bs[1..]);
      assert Decode(s) == [(16 * DigitValue(e[0]) + DigitValue(e[1])) as byte] + Decode(t);
    }
  }

  /**
    Decoding yields at least `n` bytes exactly when the first `2n` characters
    are all hex digits: the decoder never skips an invalid pair.
  */
  lemma {:induction false} DecodeAtLeast(s: string, n: nat)
    ensures |Decode(s)| >= n <==> |s| >= 2 * n && AllHex(s[..2 * n])
  {
    if n > 0 && |s| >= 2 * n {
      var p := s[..2 * n];
      if IsHexDigit(s[0]) && IsHexDigit(s[1]) {
        DecodeAtLeast(s[2..], n - 1);
        assert s[2..][..2 * (n - 1)] == p[2..];
        if AllHex(p[2..]) {
          forall i | 0 <= i < 2 * n ensures IsHexDigit(p[i]) {
            if i >= 2 { assert p[i] == p[2..][i - 2]; }
          }
        }
      } else {
        assert !IsHexDigit(p[0]) || !IsHexDigit(p[1]);
      }
    }
  }

  /**
    `Buffer.from(s, 'hex').length === n` holds exactly when the first `2n`
    characters are hex digits and the next pair, if there is one, is not.
  */
  lemma DecodedLength(s: string, n: nat)
    ensures |Decode(s)| == n <==>
      |s| >= 2 * n && AllHex(s[..2 * n]) && !(|s| >= 2 * n + 2 && AllHex(s[..2 * n + 2]))
  {
    DecodeAtLeast(s, n);
    DecodeAtLeast(s, n + 1);
  }
}
