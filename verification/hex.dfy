/**
 * Hexadecimal text as the `hex` crate reads and writes it: `hex::encode`
 * writes two lowercase digits per byte; `hex::decode` works on the UTF-8
 * bytes of its input, rejects an odd byte count first, then reports the
 * first byte that is not a digit of either case.
 */
module Hex {
  import opened Bytes
  import Utf8
  import Text

  /** The lowercase digit of a nibble. */
  function Digit(v: nat): (c: char)
    requires v < 16
    ensures (c as int) < 0x80
  {
    if v < 10 then (48 + v) as char else (87 + v) as char
  }

  /** `hex::encode`: the high then the low nibble of every byte. */
  function Encode(b: seq<byte>): (r: string)
    ensures |r| == 2 * |b|
    ensures Utf8.IsAscii(r)
  {
    seq(2 * |b|, k requires 0 <= k < 2 * |b| => if k % 2 == 0 then Digit(b[k / 2] / 16) else Digit(b[k / 2] % 16))
  }

  /** Where the two digits of each byte sit. */
  lemma EncodeAt(b: seq<byte>, m: nat)
    requires m < |b|
    ensures Encode(b)[2 * m] == Digit(b[m] / 16) && Encode(b)[2 * m + 1] == Digit(b[m] % 16)
  {
  }

  /** The digits of the first `n` bytes come first. */
  lemma EncodePrefix(b: seq<byte>, n: nat)
    requires n <= |b|
    ensures Encode(b)[..2 * n] == Encode(b[..n])
  {
    assert forall k :: 0 <= k < 2 * n ==> Encode(b)[k] == Encode(b[..n])[k];
  }

  /** `hex::encode` writes only the digits 0-9 and the lowercase letters a-f. */
  lemma EncodeLowercase(b: seq<byte>)
    ensures forall k :: 0 <= k < |Encode(b)| ==> ('0' <= Encode(b)[k] <= '9') || ('a' <= Encode(b)[k] <= 'f')
  {
  }

  datatype HexError = OddLength | InvalidCharacter(c: char, index: nat)

  /** The `Display` text of a decoding error. */
  function Message(e: HexError): string
  {
    match e
    case OddLength => "Odd number of digits"
    case InvalidCharacter(c, index) => "Invalid character '" + [c] + "' at position " + Text.NatToString(index)
  }

  datatype Decoded = Bytes(value: seq<byte>) | Invalid(error: HexError)

  predicate IsHexByte(b: byte) {
    (48 <= b <= 57) || (97 <= b <= 102) || (65 <= b <= 70)
  }

  /** The nibble a digit byte stands for, upper or lower case. */
  function Nibble(b: byte): (v: nat)
    requires IsHexByte(b)
    ensures v < 16
  {
    if b <= 57 then b - 48 else if b >= 97 then b - 87 else b - 55
  }

  /** Decodes the digit bytes of `h` from position `i` on, which leaves an
      even number of them. */
  function DecodePairs(h: seq<byte>, i: nat): (r: Decoded)
    requires i <= |h| && (|h| - i) % 2 == 0
    ensures r.Bytes? <==> forall k :: i <= k < |h| ==> IsHexByte(h[k])
    ensures r.Bytes? ==> |r.value| == (|h| - i) / 2
    ensures r.Invalid? ==> r.error.InvalidCharacter?
    ensures r.Invalid? ==> var k := r.error.index;
              && i <= k < |h| && !IsHexByte(h[k]) && r.error.c == h[k] as char
              && forall j :: i <= j < k ==> IsHexByte(h[j])
    decreases |h| - i
  {
    if i == |h| then Bytes([])
    else if !IsHexByte(h[i]) then Invalid(InvalidCharacter(h[i] as char, i))
    else if !IsHexByte(h[i + 1]) then Invalid(InvalidCharacter(h[i + 1] as char, i + 1))
    else
      match DecodePairs(h, i + 2)
      case Invalid(e) => Invalid(e)
      case Bytes(rest) => Bytes([16 * Nibble(h[i]) + Nibble(h[i + 1])] + rest)
  }

  /** `hex::decode` of a string. */
  function Decode(s: string): (r: Decoded)
    ensures |Utf8.Encode(s)| % 2 != 0 <==> r == Invalid(OddLength)
  {
    var h := Utf8.Encode(s);
    if |h| % 2 != 0 then Invalid(OddLength) else DecodePairs(h, 0)
  }

  /** Each decoded byte is the value of its pair of digits, high nibble
      first. */
  lemma {:induction false} DecodedPairs(h: seq<byte>, i: nat)
    requires i <= |h| && (|h| - i) % 2 == 0 && DecodePairs(h, i).Bytes?
    ensures forall m :: 0 <= m < |DecodePairs(h, i).value| ==>
      DecodePairs(h, i).value[m] == 16 * Nibble(h[i + 2 * m]) + Nibble(h[i + 2 * m + 1])
    decreases |h| - i
  {
    if i < |h| {
      DecodedPairs(h, i + 2);
      var rest := DecodePairs(h, i + 2).value;
      forall m | 0 <= m < |DecodePairs(h, i).value|
        ensures DecodePairs(h, i).value[m] == 16 * Nibble(h[i + 2 * m]) + Nibble(h[i + 2 * m + 1])
      {
        if m > 0 {
          assert DecodePairs(h, i).value[m] == rest[m - 1];
          assert i + 2 * m == (i + 2) + 2 * (m - 1);
        }
      }
    }
  }

  /** A lowercase digit reads back as its nibble. */
  lemma DigitNibble(v: nat)
    requires v < 16
    ensures IsHexByte(Digit(v) as int) && Nibble(Digit(v) as int) == v
  {
  }

  /** The bytes of `hex::encode(b)` hold the two digits of `b[m]` at
      positions `2m` and `2m + 1`. */
  lemma EncodedBytesAt(b: seq<byte>, m: nat)
    requires m < |b|
    ensures |Utf8.Encode(Encode(b))| == 2 * |b|
    ensures var h := Utf8.Encode(Encode(b));
      && IsHexByte(h[2 * m]) && Nibble(h[2 * m]) == b[m] / 16
      && IsHexByte(h[2 * m + 1]) && Nibble(h[2 * m + 1]) == b[m] % 16
  {
    Utf8.AsciiEncoding(Encode(b));
    EncodeAt(b, m);
    DigitNibble(b[m] / 16);
    DigitNibble(b[m] % 16);
  }

  /** Every byte of `hex::encode(b)` is a digit. */
  lemma EncodedAllHex(b: seq<byte>)
    ensures |Utf8.Encode(Encode(b))| == 2 * |b|
    ensures var h := Utf8.Encode(Encode(b)); forall k :: 0 <= k < |h| ==> IsHexByte(h[k])
  {
    var h := Utf8.Encode(Encode(b));
    Utf8.AsciiEncoding(Encode(b));
    forall k | 0 <= k < |h| ensures IsHexByte(h[k]) {
      var m := k / 2;
      EncodedBytesAt(b, m);
      assert k == 2 * m || k == 2 * m + 1;
    }
  }

  /** Decoding what `hex::encode` wrote gives the bytes back. */
  lemma RoundTrip(b: seq<byte>)
    ensures Decode(Encode(b)) == Bytes(b)
  {
    EncodedAllHex(b);
    var h := Utf8.Encode(Encode(b));
    var r := DecodePairs(h, 0);
    DecodedPairs(h, 0);
    forall m | 0 <= m < |b| ensures r.value[m] == b[m] {
      EncodedBytesAt(b, m);
    }
    assert r.value == b;
  }
}
