/// Recursive Length Prefix encoding (Ethereum Yellow Paper, Appendix B) for
/// the byte strings and nested lists that trie nodes are made of, and the
/// splitting decoder the node decoder is built on: one item is read off the
/// front of a buffer, its kind and payload returned with the rest. The
/// decoder rejects non-canonical sizes the way go-ethereum's rlp package
/// does (a one-byte string that should have been a bare byte, a long-form
/// size below 56 or with a leading zero).
module Rlp {
  import opened Common

  datatype Item = Str(bytes: Bytes) | List(items: seq<Item>)

  /** What the first byte of an encoding announces. */
  datatype Kind = ByteKind | StringKind | ListKind

  datatype Error =
    | UnexpectedEOF      // io.ErrUnexpectedEOF: the buffer ends inside a header
    | CanonSize          // rlp.ErrCanonSize: a size that is not in canonical form
    | ValueTooLarge      // rlp.ErrValueTooLarge: the payload runs past the buffer
    | ExpectedString     // rlp.ErrExpectedString
    | ExpectedList       // rlp.ErrExpectedList

  const Limit64: nat := 0x1_0000_0000_0000_0000

  // ---------------------------------------------------------------------------
  // Big-endian integers without leading zeros, as Appendix B writes lengths.

  /** A header byte; the modulus only matters for lengths no Go slice can have. */
  function Tag(x: int): byte {
    (x % 256) as byte
  }

  lemma TagValue(x: int)
    requires 0 <= x < 256
    ensures Tag(x) as int == x
  {
    assert x % 256 == x;
    SmallByte(x);
  }

  lemma SmallByte(x: nat)
    requires x < 256
    ensures (x as byte) as int == x
  {
    var b: byte := x as byte;
    assert b == (x as bv16) as byte;
  }

  function BigEndian(n: nat): (r: Bytes)
    ensures n == 0 <==> r == []
    decreases n
  {
    if n == 0 then [] else BigEndian(n / 256) + [Tag(n)]
  }

  function FromBigEndian(b: Bytes): nat
    decreases |b|
  {
    if b == [] then 0 else FromBigEndian(b[..|b| - 1]) * 256 + b[|b| - 1] as int
  }

  function Pow256(k: nat): (p: nat)
    ensures p > 0
  {
    if k == 0 then 1 else 256 * Pow256(k - 1)
  }

  lemma {:induction false} BigEndianRoundTrip(n: nat)
    ensures FromBigEndian(BigEndian(n)) == n
    decreases n
  {
    if n > 0 {
      var b := BigEndian(n);
      var q, m := n / 256, n % 256;
      assert b[..|b| - 1] == BigEndian(q);
      TagValue(m);
      assert b[|b| - 1] == Tag(m);
      BigEndianRoundTrip(q);
      assert FromBigEndian(b) == FromBigEndian(BigEndian(q)) * 256 + m;
    }
  }

  lemma {:induction false} BigEndianLength(n: nat, k: nat)
    requires n < Pow256(k)
    ensures |BigEndian(n)| <= k
    decreases n
  {
    if n > 0 {
      assert k > 0;
      BigEndianLength(n / 256, k - 1);
    }
  }

  lemma {:induction false} BigEndianLeading(n: nat)
    requires n > 0
    ensures BigEndian(n)[0] != 0
    decreases n
  {
    if n / 256 > 0 {
      BigEndianLeading(n / 256);
    }
  }

  /** Lengths below 2^64 take at most eight bytes. */
  lemma BigEndianFits(n: nat)
    requires n < Limit64
    ensures |BigEndian(n)| <= 8
  {
    assert Pow256(8) == Limit64;
    BigEndianLength(n, 8);
  }

  // ---------------------------------------------------------------------------
  // Encoder

  /** The header of a payload of `len` bytes: `offset` is 0x80 for strings, 0xC0 for lists. */
  function EncodeLength(len: nat, offset: int): Bytes {
    if len < 56 then [Tag(offset + len)]
    else [Tag(offset + 55 + |BigEndian(len)|)] + BigEndian(len)
  }

  /** The encoding of an item: never empty (Rlp.SplitEncode reads it back). */
  function Encode(x: Item): (r: Bytes)
    ensures |r| >= 1
    decreases x, 1
  {
    match x
    case Str(b) =>
      if |b| == 1 && b[0] < 0x80 then b else EncodeLength(|b|, 0x80) + b
    case List(items) =>
      EncodeLength(|Concat(items)|, 0xc0) + Concat(items)
  }

  /** The encodings of a list's elements, back to back: the list's payload. */
  function Concat(items: seq<Item>): Bytes
    decreases items, 0
  {
    if items == [] then [] else Encode(items[0]) + Concat(items[1..])
  }

  /** Every string and every list payload is shorter than 2^64 bytes: true of any Go value. */
  predicate Encodable(x: Item)
    decreases x
  {
    match x
    case Str(b) => |b| < Limit64
    case List(items) => (forall i :: 0 <= i < |items| ==> Encodable(items[i])) && |Concat(items)| < Limit64
  }

  /** The kind a decoder reads back for an item. */
  function KindOf(x: Item): Kind {
    match x
    case Str(b) => if |b| == 1 && b[0] < 0x80 then ByteKind else StringKind
    case List(_) => ListKind
  }

  /** The payload a decoder reads back for an item. */
  function Payload(x: Item): Bytes {
    match x
    case Str(b) => b
    case List(items) => Concat(items)
  }

  // ---------------------------------------------------------------------------
  // Decoder

  datatype Header = Header(kind: Kind, tagSize: nat, contentSize: nat)

  datatype Parts = Parts(kind: Kind, content: Bytes, rest: Bytes)

  /** readSize: a long-form size of `slen` bytes, big-endian, canonical. */
  function ReadSize(b: Bytes, slen: nat): (r: Result<nat, Error>)
    requires 1 <= slen <= 8
    ensures r.Ok? ==> 56 <= r.value
  {
    if slen > |b| then Err(UnexpectedEOF)
    else
      var s := FromBigEndian(b[..slen]);
      if s < 56 || b[0] == 0 then Err(CanonSize) else Ok(s)
  }

  /** A long-form header: the size follows the tag in `slen` bytes. */
  function LongHeader(buf: Bytes, kind: Kind, slen: nat): (r: Result<Header, Error>)
    requires |buf| >= 1 && 1 <= slen <= 8
    ensures r.Ok? ==> r.value.tagSize == slen + 1 && r.value.kind == kind
  {
    match ReadSize(buf[1..], slen)
    case Err(e) => Err(e)
    case Ok(s) => Ok(Header(kind, slen + 1, s))
  }

  /** The header announced by the first byte, before checking it fits the buffer. */
  function HeaderOf(buf: Bytes): (r: Result<Header, Error>)
    requires |buf| >= 1
    ensures r.Ok? ==> r.value.kind != ByteKind ==> r.value.tagSize >= 1
    ensures r.Ok? ==> r.value.kind == ByteKind ==> r.value.tagSize == 0 && r.value.contentSize == 1
  {
    var b := buf[0];
    if b < 0x80 then Ok(Header(ByteKind, 0, 1))
    else if b < 0xb8 then
      (if b as int - 0x80 == 1 && |buf| > 1 && buf[1] < 128 then Err(CanonSize)
       else Ok(Header(StringKind, 1, b as int - 0x80)))
    else if b < 0xc0 then LongHeader(buf, StringKind, b as int - 0xb7)
    else if b < 0xf8 then Ok(Header(ListKind, 1, b as int - 0xc0))
    else LongHeader(buf, ListKind, b as int - 0xf7)
  }

  /** readKind: classify the first byte and check that the payload fits the buffer. */
  function ReadKind(buf: Bytes): (r: Result<Header, Error>)
    ensures r.Ok? ==> r.value.tagSize + r.value.contentSize <= |buf|
    ensures r.Ok? ==> r.value.kind != ByteKind ==> r.value.tagSize >= 1
    ensures r.Ok? ==> r.value.tagSize + r.value.contentSize >= 1
  {
    if |buf| == 0 then Err(UnexpectedEOF)
    else
      match HeaderOf(buf)
      case Err(e) => Err(e)
      case Ok(hd) =>
        if hd.contentSize > |buf| - hd.tagSize then Err(ValueTooLarge) else Ok(hd)
  }

  /** rlp.Split: the first item's kind and payload, and the bytes after it. */
  function Split(buf: Bytes): (r: Result<Parts, Error>)
    ensures r.Ok? ==> |r.value.content| + |r.value.rest| <= |buf|
    ensures r.Ok? ==> r.value.kind != ByteKind ==> |r.value.content| + |r.value.rest| < |buf|
    ensures r.Ok? ==> |r.value.rest| < |buf|
  {
    match ReadKind(buf)
    case Err(e) => Err(e)
    case Ok(h) =>
      Ok(Parts(h.kind, buf[h.tagSize..h.tagSize + h.contentSize], buf[h.tagSize + h.contentSize..]))
  }

  /** rlp.SplitString: like Split, but a list is an error. */
  function SplitString(buf: Bytes): (r: Result<(Bytes, Bytes), Error>)
    ensures r.Ok? ==> |r.value.0| + |r.value.1| <= |buf| && |r.value.1| < |buf|
  {
    match Split(buf)
    case Err(e) => Err(e)
    case Ok(p) => if p.kind == ListKind then Err(ExpectedString) else Ok((p.content, p.rest))
  }

  /** rlp.SplitList: like Split, but anything other than a list is an error. */
  function SplitList(buf: Bytes): (r: Result<(Bytes, Bytes), Error>)
    ensures r.Ok? ==> |r.value.0| < |buf| && |r.value.1| < |buf|
  {
    match Split(buf)
    case Err(e) => Err(e)
    case Ok(p) => if p.kind != ListKind then Err(ExpectedList) else Ok((p.content, p.rest))
  }

  /** rlp.CountValues: the number of items encoded back to back in `b`. */
  function CountValues(b: Bytes): Result<nat, Error>
    decreases |b|
  {
    if b == [] then Ok(0)
    else
      match Split(b)
      case Err(e) => Err(e)
      case Ok(p) =>
        match CountValues(p.rest)
        case Err(e) => Err(e)
        case Ok(c) => Ok(c + 1)
  }

  // ---------------------------------------------------------------------------
  // The decoder reads back what the encoder writes.

  lemma ShortHeaderRoundTrip(len: nat, offset: int, payload: Bytes, rest: Bytes)
    requires offset == 0x80 || offset == 0xc0
    requires |payload| == len < 56
    requires offset == 0x80 && len == 1 ==> payload[0] >= 0x80
    ensures var buf := EncodeLength(len, offset) + payload + rest;
            HeaderOf(buf) == Ok(Header(if offset == 0x80 then StringKind else ListKind, 1, len))
  {
    var buf := EncodeLength(len, offset) + payload + rest;
    TagValue(offset + len);
    assert len == 1 ==> buf[1] == payload[0];
  }

  lemma LongSizeRoundTrip(len: nat, tail: Bytes)
    requires 56 <= len < Limit64
    ensures |BigEndian(len)| <= 8
    ensures ReadSize(BigEndian(len) + tail, |BigEndian(len)|) == Ok(len)
  {
    var be := BigEndian(len);
    BigEndianFits(len);
    BigEndianLeading(len);
    BigEndianRoundTrip(len);
    assert (be + tail)[..|be|] == be;
  }

  lemma HeaderOfLong(buf: Bytes)
    requires |buf| >= 1 && (0xb8 <= buf[0] < 0xc0 || 0xf8 <= buf[0])
    ensures 0xb8 <= buf[0] < 0xc0 ==> HeaderOf(buf) == LongHeader(buf, StringKind, buf[0] as int - 0xb7)
    ensures 0xf8 <= buf[0] ==> HeaderOf(buf) == LongHeader(buf, ListKind, buf[0] as int - 0xf7)
  {
  }

  lemma LongHeaderRoundTrip(len: nat, offset: int, tail: Bytes)
    requires offset == 0x80 || offset == 0xc0
    requires 56 <= len < Limit64
    ensures HeaderOf(EncodeLength(len, offset) + tail)
         == Ok(Header(if offset == 0x80 then StringKind else ListKind, |EncodeLength(len, offset)|, len))
  {
    var be := BigEndian(len);
    var slen := |be|;
    assert 1 <= slen <= 8 by {
      BigEndianFits(len);
    }
    var tag := Tag(offset + 55 + slen);
    var buf := [tag] + (be + tail);
    assert EncodeLength(len, offset) + tail == buf;
    var kind := if offset == 0x80 then StringKind else ListKind;
    assert LongHeader(buf, kind, slen) == Ok(Header(kind, slen + 1, len)) by {
      assert buf[1..] == be + tail;
      LongSizeRoundTrip(len, tail);
    }
    LongTag(buf, offset, slen);
    assert |EncodeLength(len, offset)| == slen + 1;
  }

  /** A long-form tag byte announces the right kind and size length. */
  lemma LongTag(buf: Bytes, offset: int, slen: nat)
    requires offset == 0x80 || offset == 0xc0
    requires 1 <= slen <= 8
    requires |buf| >= 1 && buf[0] == Tag(offset + 55 + slen)
    ensures HeaderOf(buf) == LongHeader(buf, if offset == 0x80 then StringKind else ListKind, slen)
  {
    TagValue(offset + 55 + slen);
    HeaderOfLong(buf);
  }

  lemma HeaderRoundTrip(len: nat, offset: int, payload: Bytes, rest: Bytes)
    requires offset == 0x80 || offset == 0xc0
    requires |payload| == len < Limit64
    requires offset == 0x80 && len == 1 ==> payload[0] >= 0x80
    ensures var buf := EncodeLength(len, offset) + payload + rest;
            ReadKind(buf) == Ok(Header(if offset == 0x80 then StringKind else ListKind,
                                       |EncodeLength(len, offset)|, len))
  {
    if len < 56 {
      ShortHeaderRoundTrip(len, offset, payload, rest);
    } else {
      LongHeaderRoundTrip(len, offset, payload + rest);
      assert EncodeLength(len, offset) + payload + rest == EncodeLength(len, offset) + (payload + rest);
    }
  }

  lemma SplitEncode(x: Item, rest: Bytes)
    requires Encodable(x)
    ensures Split(Encode(x) + rest) == Ok(Parts(KindOf(x), Payload(x), rest))
  {
    var buf := Encode(x) + rest;
    match x
    case Str(b) =>
      if |b| == 1 && b[0] < 0x80 {
        assert buf[..1] == b;
      } else {
        HeaderRoundTrip(|b|, 0x80, b, rest);
        assert buf == EncodeLength(|b|, 0x80) + b + rest;
        var t := |EncodeLength(|b|, 0x80)|;
        assert buf[t..t + |b|] == b;
        assert buf[t + |b|..] == rest;
      }
    case List(items) =>
      var p := Concat(items);
      HeaderRoundTrip(|p|, 0xc0, p, rest);
      assert buf == EncodeLength(|p|, 0xc0) + p + rest;
      var t := |EncodeLength(|p|, 0xc0)|;
      assert buf[t..t + |p|] == p;
      assert buf[t + |p|..] == rest;
  }

  /** The payload of a list holds exactly as many items as the list. */
  lemma {:induction false} CountConcat(items: seq<Item>)
    requires forall i :: 0 <= i < |items| ==> Encodable(items[i])
    ensures CountValues(Concat(items)) == Ok(|items|)
    decreases |items|
  {
    if items != [] {
      var b := Concat(items);
      assert b == Encode(items[0]) + Concat(items[1..]) && b != [];
      SplitEncode(items[0], Concat(items[1..]));
      CountConcat(items[1..]);
      assert Split(b).value.rest == Concat(items[1..]);
    }
  }

  lemma {:induction false} ConcatAppend(a: seq<Item>, b: seq<Item>)
    ensures Concat(a + b) == Concat(a) + Concat(b)
    decreases |a|
  {
    if a != [] {
      assert (a + b)[0] == a[0];
      assert (a + b)[1..] == a[1..] + b;
      ConcatAppend(a[1..], b);
      calc {
        Concat(a + b);
        Encode(a[0]) + Concat(a[1..] + b);
        Encode(a[0]) + (Concat(a[1..]) + Concat(b));
        (Encode(a[0]) + Concat(a[1..])) + Concat(b);
      }
    } else {
      assert a + b == b;
    }
  }

  lemma Concat2(a: Item, b: Item)
    ensures Concat([a, b]) == Encode(a) + Encode(b)
  {
    assert [a, b][1..] == [b];
    assert [b][1..] == [];
    assert Concat([b]) == Encode(b) + [];
    assert Encode(b) + [] == Encode(b);
  }

  lemma SplitStringEncode(b: Bytes, rest: Bytes)
    requires |b| < Limit64
    ensures SplitString(Encode(Str(b)) + rest) == Ok((b, rest))
  {
    SplitEncode(Str(b), rest);
  }

  lemma SplitListEncode(items: seq<Item>, rest: Bytes)
    requires Encodable(List(items))
    ensures SplitList(Encode(List(items)) + rest) == Ok((Concat(items), rest))
  {
    SplitEncode(List(items), rest);
  }
}
