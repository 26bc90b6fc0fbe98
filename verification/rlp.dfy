/**
 * Recursive Length Prefix encoding (Appendix B of the Ethereum Yellow
 * Paper), as the `rlp` crate's `RlpStream` writes it: byte strings and
 * lists of items, each behind a header that gives its length; integers are
 * written as their minimal big-endian byte string.
 *
 * The decoder is the partner of the encoder: reading back an encoding gives
 * the item, so distinct items have distinct encodings.
 */
module Rlp {
  import opened Bytes
  import opened Wrappers

  datatype Item = Str(bytes: seq<byte>) | List(items: seq<Item>)

  /** An unsigned integer, as `RlpStream::append` writes `u32` and `u64`. */
  function Uint(n: nat): Item
  {
    Str(BigEndian(n))
  }

  /** Lengths are `usize` values in the crate, so at most 8 big-endian bytes. */
  const LengthLimit: nat := 0x1_0000_0000_0000_0000

  /** The header before a payload of `len` bytes: one byte `offset + len`
      for short payloads, else `offset + 55 + k` followed by the `k`
      big-endian bytes of `len`. A length of 2^64 or more cannot occur and
      has no header of its own; the header byte then saturates. */
  function Header(offset: byte, len: nat): (r: seq<byte>)
    requires offset == 0x80 || offset == 0xC0
    ensures |r| >= 1
  {
    if len < 56 then [offset + len]
    else
      var be := BigEndian(len);
      [offset + 55 + (if |be| <= 8 then |be| else 8)] + be
  }

  function Encode(x: Item): (r: seq<byte>)
    ensures |r| >= 1
    decreases x
  {
    match x
    case Str(b) =>
      if |b| == 1 && b[0] < 0x80 then b else Header(0x80, |b|) + b
    case List(xs) =>
      var payload := EncodeAll(xs);
      Header(0xC0, |payload|) + payload
  }

  /** The concatenated encodings of `xs`: the payload of a list. */
  function EncodeAll(xs: seq<Item>): seq<byte>
    decreases xs
  {
    if xs == [] then [] else Encode(xs[0]) + EncodeAll(xs[1..])
  }

  /** Every length the encoding of `x` writes is below 2^64. */
  predicate Fits(x: Item)
    decreases x
  {
    match x
    case Str(b) => |b| < LengthLimit
    case List(xs) => AllFit(xs) && |EncodeAll(xs)| < LengthLimit
  }

  predicate AllFit(xs: seq<Item>)
    decreases xs
  {
    forall i :: 0 <= i < |xs| ==> Fits(xs[i])
  }

  /** Reads the item at the start of `s`, returning it with the number of
      bytes it occupies. */
  function DecodeItem(s: seq<byte>): (r: Option<(Item, nat)>)
    ensures r.Some? ==> 1 <= r.value.1 <= |s|
    decreases |s|, 0
  {
    if |s| == 0 then None
    else if s[0] < 0x80 then Some((Str([s[0]]), 1))
    else if s[0] < 0xB8 then
      var n := s[0] - 0x80;
      if 1 + n <= |s| then Some((Str(s[1..1 + n]), 1 + n)) else None
    else if s[0] < 0xC0 then
      var k := s[0] - 0xB7;
      if 1 + k <= |s| then
        var n := FromBigEndian(s[1..1 + k]);
        if 1 + k + n <= |s| then Some((Str(s[1 + k..1 + k + n]), 1 + k + n)) else None
      else None
    else if s[0] < 0xF8 then
      var n := s[0] - 0xC0;
      if 1 + n <= |s| then
        match DecodeAll(s[1..1 + n])
        case None => None
        case Some(xs) => Some((List(xs), 1 + n))
      else None
    else
      var k := s[0] - 0xF7;
      if 1 + k <= |s| then
        var n := FromBigEndian(s[1..1 + k]);
        if 1 + k + n <= |s| then
          match DecodeAll(s[1 + k..1 + k + n])
          case None => None
          case Some(xs) => Some((List(xs), 1 + k + n))
        else None
      else None
  }

  /** Reads a whole list payload as a sequence of items. */
  function DecodeAll(s: seq<byte>): Option<seq<Item>>
    decreases |s|, 1
  {
    if s == [] then Some([])
    else match DecodeItem(s)
      case None => None
      case Some((x, n)) =>
        match DecodeAll(s[n..])
        case None => None
        case Some(rest) => Some([x] + rest)
  }

  /** Reads a byte string that holds exactly one item. */
  function Decode(s: seq<byte>): Option<Item>
  {
    match DecodeItem(s)
    case None => None
    case Some((x, n)) => if n == |s| then Some(x) else None
  }

  /** A long header is one byte in the given range followed by the length. */
  lemma LongHeader(offset: byte, len: nat)
    requires offset == 0x80 || offset == 0xC0
    requires 56 <= len < LengthLimit
    ensures var be := BigEndian(len);
      && 1 <= |be| <= 8
      && Header(offset, len) == [offset + 55 + |be|] + be
      && FromBigEndian(be) == len
  {
    LengthLimitIsPow();
    BigEndianLength(len, 8);
    BigEndianRoundTrip(len);
  }

  lemma LengthLimitIsPow()
    ensures Pow256(8) == LengthLimit
  {
    assert Pow256(2) == 0x1_0000;
    assert Pow256(4) == 0x1_0000_0000;
    assert Pow256(6) == 0x1_0000_0000_0000;
  }

  /** A byte string behind a short header is read back. */
  lemma DecodeShortString(b: seq<byte>, rest: seq<byte>)
    requires |b| < 56 && !(|b| == 1 && b[0] < 0x80)
    ensures DecodeItem(Header(0x80, |b|) + b + rest) == Some((Str(b), 1 + |b|))
  {
    var s := Header(0x80, |b|) + b + rest;
    assert s[1..1 + |b|] == b;
  }

  /** A byte string behind a long header is read back. */
  lemma DecodeLongString(b: seq<byte>, rest: seq<byte>)
    requires 56 <= |b| < LengthLimit
    ensures DecodeItem(Header(0x80, |b|) + b + rest) == Some((Str(b), |Header(0x80, |b|)| + |b|))
  {
    LongHeader(0x80, |b|);
    var be := BigEndian(|b|);
    var k := |be|;
    Layout(0xB7 + k, be, b, rest);
  }

  /** A list payload behind a short header is read back. */
  lemma DecodeShortList(p: seq<byte>, xs: seq<Item>, rest: seq<byte>)
    requires |p| < 56 && DecodeAll(p) == Some(xs)
    ensures DecodeItem(Header(0xC0, |p|) + p + rest) == Some((List(xs), 1 + |p|))
  {
    var s := Header(0xC0, |p|) + p + rest;
    assert s[1..1 + |p|] == p;
  }

  /** A list payload behind a long header is read back. */
  lemma DecodeLongList(p: seq<byte>, xs: seq<Item>, rest: seq<byte>)
    requires 56 <= |p| < LengthLimit && DecodeAll(p) == Some(xs)
    ensures DecodeItem(Header(0xC0, |p|) + p + rest) == Some((List(xs), |Header(0xC0, |p|)| + |p|))
  {
    LongHeader(0xC0, |p|);
    var be := BigEndian(|p|);
    var k := |be|;
    Layout(0xF7 + k, be, p, rest);
  }

  /** Where the parts of a long header, its payload and what follows sit. */
  lemma Layout(h: byte, be: seq<byte>, p: seq<byte>, rest: seq<byte>)
    ensures var s := [h] + be + p + rest;
      && s[0] == h && s[1..1 + |be|] == be && s[1 + |be|..1 + |be| + |p|] == p
  {
    var s := [h] + be + p + rest;
    assert s[1..1 + |be|] == be;
    assert s[1 + |be|..1 + |be| + |p|] == p;
  }

  /** The decoder reads back the item the encoder wrote, whatever follows. */
  lemma {:induction false} DecodeEncode(x: Item, rest: seq<byte>)
    requires Fits(x)
    ensures DecodeItem(Encode(x) + rest) == Some((x, |Encode(x)|))
    decreases x, 1
  {
    match x
    case Str(b) => DecodeEncodeString(b, rest);
    case List(xs) => DecodeEncodeList(xs, rest);
  }

  lemma DecodeEncodeString(b: seq<byte>, rest: seq<byte>)
    requires |b| < LengthLimit
    ensures DecodeItem(Encode(Str(b)) + rest) == Some((Str(b), |Encode(Str(b))|))
  {
    if |b| == 1 && b[0] < 0x80 {
      var s := Encode(Str(b)) + rest;
      assert [s[0]] == b;
    } else if |b| < 56 {
      DecodeShortString(b, rest);
    } else {
      DecodeLongString(b, rest);
    }
  }

  lemma {:induction false} DecodeEncodeList(xs: seq<Item>, rest: seq<byte>)
    requires Fits(List(xs))
    ensures DecodeItem(Encode(List(xs)) + rest) == Some((List(xs), |Encode(List(xs))|))
    decreases List(xs), 0
  {
    var p := EncodeAll(xs);
    DecodeEncodeAll(xs);
    if |p| < 56 {
      DecodeShortList(p, xs, rest);
    } else {
      DecodeLongList(p, xs, rest);
    }
    assert Encode(List(xs)) + rest == Header(0xC0, |p|) + p + rest;
  }

  /** The decoder reads a list payload back as the items it was made of. */
  lemma {:induction false} DecodeEncodeAll(xs: seq<Item>)
    requires AllFit(xs)
    ensures DecodeAll(EncodeAll(xs)) == Some(xs)
    decreases xs, 2
  {
    if xs != [] {
      assert Fits(xs[0]);
      DecodeEncode(xs[0], EncodeAll(xs[1..]));
      AfterPrefix(Encode(xs[0]), EncodeAll(xs[1..]));
      AllFitTail(xs);
      DecodeEncodeAll(xs[1..]);
      assert [xs[0]] + xs[1..] == xs;
    }
  }

  lemma AfterPrefix(a: seq<byte>, b: seq<byte>)
    ensures (a + b)[|a|..] == b
  {
  }

  lemma AllFitTail(xs: seq<Item>)
    requires xs != [] && AllFit(xs)
    ensures AllFit(xs[1..])
  {
    forall i | 0 <= i < |xs[1..]| ensures Fits(xs[1..][i]) {
      assert xs[1..][i] == xs[i + 1];
    }
  }

  /** Decoding the encoding of an item gives the item back. */
  lemma RoundTrip(x: Item)
    requires Fits(x)
    ensures Decode(Encode(x)) == Some(x)
  {
    DecodeEncode(x, []);
    assert Encode(x) + [] == Encode(x);
  }

  /** Distinct items have distinct encodings. */
  lemma Injective(x: Item, y: Item)
    requires Fits(x) && Fits(y)
    requires Encode(x) == Encode(y)
    ensures x == y
  {
    RoundTrip(x);
    RoundTrip(y);
  }
}
