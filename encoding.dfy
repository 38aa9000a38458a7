/// Trie keys in their three encodings: KEYBYTES (the key itself), HEX (one
/// nibble per byte, optionally followed by the terminator 16, which marks a
/// key that ends at a value) and COMPACT, the hex-prefix encoding of the
/// Ethereum Yellow Paper, Appendix C: the high nibble of the first byte holds
/// the flags (bit 0 the odd length, bit 1 the terminator), its low nibble the
/// first nibble of an odd-length key, the other nibbles packed two per byte.
/// Also the two "hash prefix" encodings a mined node's hash must start with,
/// and the common-prefix length of two keys.
module Encoding {
  import opened Common

  /** The terminator nibble. */
  const Term: byte := 16

  // ---------------------------------------------------------------------------
  // Specification functions

  /** hasTerm */
  predicate HasTerm(s: Bytes) {
    |s| > 0 && s[|s| - 1] == Term
  }

  /** The key without its terminator, if it has one. */
  function Strip(hex: Bytes): (r: Bytes)
    ensures |r| == if HasTerm(hex) then |hex| - 1 else |hex|
    ensures r == hex[..|r|]
  {
    if HasTerm(hex) then hex[..|hex| - 1] else hex
  }

  /** A HEX key: nibbles below 16, the terminator 16 only in last position. */
  predicate ValidHex(hex: Bytes) {
    forall i :: 0 <= i < |hex| ==> hex[i] < 16 || (hex[i] == Term && i == |hex| - 1)
  }

  /** Nibble i of a key's HEX encoding. */
  function NibbleAt(key: Bytes, i: nat): byte
    requires i < 2 * |key|
  {
    if i % 2 == 0 then key[i / 2] / 16 else key[i / 2] % 16
  }

  /** What keybytesToHex computes: two nibbles per byte, high first, then the terminator. */
  function Hex(key: Bytes): (r: Bytes)
    ensures |r| == 2 * |key| + 1
    ensures r[2 * |key|] == Term
  {
    seq(2 * |key|, i requires 0 <= i < 2 * |key| => NibbleAt(key, i)) + [Term]
  }

  /** One byte of decodeNibbles' output. */
  function Join(hi: byte, lo: byte): byte {
    (hi << 4) | lo
  }

  /** What decodeNibbles writes: nibble pairs joined as high << 4 | low. */
  function Packed(nibbles: Bytes): (r: Bytes)
    requires |nibbles| % 2 == 0
    ensures |r| == |nibbles| / 2
  {
    seq(|nibbles| / 2, i requires 0 <= i < |nibbles| / 2 => Join(nibbles[2 * i], nibbles[2 * i + 1]))
  }

  /** What hexToCompact computes. */
  function Compact(hex: Bytes): (r: Bytes)
    ensures |r| == |Strip(hex)| / 2 + 1
  {
    var h := Strip(hex);
    var flag: byte := if HasTerm(hex) then 0x20 else 0;
    if |h| % 2 == 1 then [flag | 0x10 | h[0]] + Packed(h[1..]) else [flag] + Packed(h)
  }

  /** What hexToKeybytes computes; Go panics on an odd number of nibbles. */
  function Keybytes(hex: Bytes): (r: Bytes)
    requires |Strip(hex)| % 2 == 0
    ensures |r| == |Strip(hex)| / 2
  {
    Packed(Strip(hex))
  }

  /**
   * compactToHex: an empty input is returned as it is; otherwise the
   * terminator is kept exactly when the flag nibble says so (the test
   * decodeShort makes), whatever bytes follow it.
   */
  function CompactToHex(compact: Bytes): (r: Bytes)
    ensures |compact| == 0 ==> r == []
    ensures |compact| >= 1 ==> (HasTerm(r) <==> compact[0] >> 4 >= 2)
  {
    if |compact| == 0 then compact
    else
      var base := Hex(compact);
      assert base[0] == compact[0] / 16;
      assert compact[0] / 16 == compact[0] >> 4;
      ApplyFlags(base)
  }

  /** The second half of compactToHex: drop the terminator unless flagged, then the flag nibbles. */
  function ApplyFlags(base: Bytes): Bytes
    requires |base| >= 3
  {
    var base' := if base[0] < 2 then base[..|base| - 1] else base;
    var chop := 2 - (base'[0] & 1);
    base'[chop as int..]
  }

  /** The nibbles hexToHashPrefix keeps: one nibble of a leaf key, at most three otherwise. */
  function HashPrefixNibbles(hex: Bytes): (r: Bytes)
    ensures |r| <= 3 && |r| <= |hex|
    ensures r == hex[..|r|]
    ensures HasTerm(hex) ==> |r| == 1
    ensures !HasTerm(hex) ==> |r| == if |hex| > 3 then 3 else |hex|
  {
    var h := if HasTerm(hex) then hex[..1] else hex;
    if |h| > 3 then h[..3] else h
  }

  /** The capped nibble count, in bits 4-6 of the first byte. */
  function LengthBits(n: nat): byte
    requires n <= 3
  {
    (n as byte) << 4
  }

  /**
   * What hexToHashPrefix computes: bit 7 of the first byte is the terminator,
   * bits 4-6 the number of nibbles kept, the low nibble the first of them
   * when that number is odd.
   */
  function HashPrefix(hex: Bytes): (r: Bytes)
    ensures |r| == |HashPrefixNibbles(hex)| / 2 + 1
  {
    var h := HashPrefixNibbles(hex);
    var b0 := HashPrefixFlags(HasTerm(hex), |h|);
    if |h| % 2 == 1 then [b0 | h[0]] + Packed(h[1..]) else [b0] + Packed(h)
  }

  /** The first byte of a hash prefix before the odd nibble is merged in. */
  function HashPrefixFlags(term: bool, n: nat): byte
    requires n <= 3
  {
    (if term then 0x80 else 0) | LengthBits(n)
  }

  /**
   * compactToHashPrefix: two bytes; bit 7 of the first is the compact
   * terminator flag, bits 4-6 the nibble count of the first min(|compact|, 4)
   * bytes, the low nibble and the second byte copied from the input (zero
   * past its end). Go indexes compact[0], so the input may not be empty.
   */
  function CompactToHashPrefix(compact: Bytes): (r: Bytes)
    requires |compact| >= 1
    ensures |r| == 2
    ensures r[0] >> 7 == 1 <==> compact[0] >> 5 == 1
    ensures r[0] & 0x0f == compact[0] & 0x0f
    ensures r[1] == if |compact| >= 2 then compact[1] else 0
    ensures var length := if |compact| > 4 then 4 else |compact|;
            ((r[0] >> 4) & 7) as int == if compact[0] & 0x10 == 0x10 then 2 * length - 1 else 2 * length - 2
  {
    var fixedLength := 2;
    var terminator: byte := if compact[0] >> 5 == 1 then 1 else 0;
    var length := if |compact| > 4 then 4 else |compact|;
    // copy into a zeroed two-byte buffer
    var buf := if |compact| >= fixedLength then compact[..fixedLength] else compact + [0];
    if compact[0] & 0x10 == 0x10 then
      [(buf[0] & 0x0f) | (((2 * length - 1) as byte) << 4) | (terminator << 7), buf[1]]
    else if compact[0] & 0x10 == 0 then
      [(buf[0] & 0x0f) | (((2 * length - 2) as byte) << 4) | (terminator << 7), buf[1]]
    else
      assert false; buf
  }

  // ---------------------------------------------------------------------------
  // The buffer-filling operations

  /** decodeNibbles, writing from `off` on (hexToCompact passes buf[1:]). Go panics on an odd count. */
  method DecodeNibbles(nibbles: Bytes, bytes: array<byte>, off: nat)
    requires |nibbles| % 2 == 0
    requires off + |nibbles| / 2 <= bytes.Length
    modifies bytes
    ensures bytes[off..off + |nibbles| / 2] == Packed(nibbles)
    ensures forall j :: 0 <= j < bytes.Length && !(off <= j < off + |nibbles| / 2) ==> bytes[j] == old(bytes[j])
  {
    var bi, ni := 0, 0;
    while ni < |nibbles|
      invariant ni == 2 * bi && ni <= |nibbles|
      invariant forall j :: 0 <= j < bi ==> bytes[off + j] == Packed(nibbles)[j]
      invariant forall j :: 0 <= j < bytes.Length && !(off <= j < off + bi) ==> bytes[j] == old(bytes[j])
    {
      bytes[off + bi] := (nibbles[ni] << 4) | nibbles[ni + 1];
      bi, ni := bi + 1, ni + 2;
    }
  }

  /** keybytesToHex */
  method KeybytesToHex(str: Bytes) returns (nibbles: Bytes)
    ensures nibbles == Hex(str)
  {
    var l := |str| * 2 + 1;
    var buf := new byte[l];
    var i := 0;
    while i < |str|
      invariant 0 <= i <= |str|
      invariant forall j :: 0 <= j < 2 * i ==> buf[j] == Hex(str)[j]
    {
      buf[i * 2] := str[i] / 16;
      buf[i * 2 + 1] := str[i] % 16;
      i := i + 1;
    }
    buf[l - 1] := 16;
    nibbles := buf[..];
  }

  /** hexToCompact */
  method HexToCompact(hex: Bytes) returns (compact: Bytes)
    ensures compact == Compact(hex)
  {
    var terminator: byte := 0;
    var h := hex;
    if HasTerm(h) {
      terminator := 1;
      h := h[..|h| - 1];
    }
    var buf := new byte[|h| / 2 + 1];
    buf[0] := terminator << 5;
    if |h| % 2 == 1 {
      buf[0] := buf[0] | (1 << 4);
      buf[0] := buf[0] | h[0];
      h := h[1..];
    }
    DecodeNibbles(h, buf, 1);
    compact := buf[..];
    assert compact == [compact[0]] + compact[1..];
  }

  /** hexToKeybytes */
  method HexToKeybytes(hex: Bytes) returns (key: Bytes)
    requires |Strip(hex)| % 2 == 0
    ensures key == Keybytes(hex)
  {
    var h := hex;
    if HasTerm(h) {
      h := h[..|h| - 1];
    }
    var buf := new byte[|h| / 2];
    DecodeNibbles(h, buf, 0);
    key := buf[..];
  }

  /** hexToHashPrefix */
  method HexToHashPrefix(hex: Bytes) returns (prefix: Bytes)
    ensures prefix == HashPrefix(hex)
  {
    var terminator: byte := 0;
    var h := hex;
    if HasTerm(h) {
      terminator := 1;
      h := h[..1];
    }
    if |h| > 3 {
      h := h[..3];
    }
    var buf := new byte[|h| / 2 + 1];
    buf[0] := terminator << 7;
    buf[0] := buf[0] | LengthBits(|h|);
    assert buf[0] == HashPrefixFlags(HasTerm(hex), |h|);
    if |h| % 2 == 1 {
      buf[0] := buf[0] | h[0];
      h := h[1..];
    }
    DecodeNibbles(h, buf, 1);
    prefix := buf[..];
    assert prefix == [prefix[0]] + prefix[1..];
  }

  /** prefixLen: the length of the common prefix of a and b. */
  method PrefixLen(a: Bytes, b: Bytes) returns (n: nat)
    ensures n <= |a| && n <= |b|
    ensures a[..n] == b[..n]
    ensures n < |a| && n < |b| ==> a[n] != b[n]
  {
    var i, length := 0, |a|;
    if |b| < length {
      length := |b|;
    }
    while i < length
      invariant i <= length
      invariant forall j :: 0 <= j < i ==> a[j] == b[j]
    {
      if a[i] != b[i] {
        break;
      }
      i := i + 1;
    }
    n := i;
  }

  // ---------------------------------------------------------------------------
  // Round trips and layout

  /** keybytesToHex gives 2 * |key| + 1 nibbles, all below 16 except the final terminator. */
  lemma HexShape(key: Bytes)
    ensures |Hex(key)| == 2 * |key| + 1 && HasTerm(Hex(key))
    ensures forall i :: 0 <= i < 2 * |key| ==> Hex(key)[i] < 16
    ensures ValidHex(Hex(key))
  {
  }

  /** The layout of hexToHashPrefix's first byte. */
  lemma HashPrefixLayout(hex: Bytes)
    ensures var h := HashPrefixNibbles(hex);
            var r := HashPrefix(hex);
            && 1 <= |r| <= 2
            && (|h| % 2 == 0 ==> (r[0] >> 7 == 1 <==> HasTerm(hex)))
            && (|h| % 2 == 0 ==> (r[0] >> 4) & 7 == |h| as byte && r[0] & 0x0f == 0)
            && (|h| % 2 == 1 && h[0] < 16 ==> (r[0] >> 7 == 1 <==> HasTerm(hex)))
            && (|h| % 2 == 1 && h[0] < 16 ==> (r[0] >> 4) & 7 == |h| as byte && r[0] & 0x0f == h[0])
  {
    var h := HashPrefixNibbles(hex);
    var b0 := HashPrefixFlags(HasTerm(hex), |h|);
    FlagsLayout(HasTerm(hex), |h|);
    if |h| % 2 == 1 && h[0] < 16 {
      OrNibble(b0, h[0]);
    }
  }

  lemma FlagsLayout(term: bool, n: nat)
    requires n <= 3
    ensures var b := HashPrefixFlags(term, n);
            && (b >> 7 == 1 <==> term) && (b >> 4) & 7 == n as byte && b & 0x0f == 0
  {
  }

  lemma OrNibble(b: byte, lo: byte)
    requires b & 0x0f == 0 && lo < 16
    ensures (b | lo) >> 4 == b >> 4 && (b | lo) & 0x0f == lo
  {
  }

  lemma NibbleJoin(hi: byte, lo: byte)
    requires hi < 16 && lo < 16
    ensures Join(hi, lo) / 16 == hi
    ensures Join(hi, lo) % 16 == lo
  {
  }

  lemma NibbleSplit(b: byte)
    ensures Join(b / 16, b % 16) == b
  {
  }

  /** Unpacking packed nibbles gives them back, followed by the terminator. */
  lemma HexOfPacked(n: Bytes)
    requires |n| % 2 == 0
    requires forall i :: 0 <= i < |n| ==> n[i] < 16
    ensures Hex(Packed(n)) == n + [Term]
  {
    var p := Packed(n);
    forall i | 0 <= i < |n|
      ensures Hex(p)[i] == n[i]
    {
      NibbleJoin(n[2 * (i / 2)], n[2 * (i / 2) + 1]);
    }
  }

  lemma HexCons(b: byte, rest: Bytes)
    ensures Hex([b] + rest) == [b / 16, b % 16] + Hex(rest)
  {
    var k := [b] + rest;
    forall i | 2 <= i < 2 * |k|
      ensures Hex(k)[i] == Hex(rest)[i - 2]
    {
      assert k[i / 2] == rest[(i - 2) / 2];
    }
  }

  /** hexToKeybytes inverts keybytesToHex. */
  lemma KeybytesRoundTrip(key: Bytes)
    ensures |Strip(Hex(key))| % 2 == 0
    ensures Keybytes(Hex(key)) == key
  {
    var h := Hex(key);
    forall i | 0 <= i < |key|
      ensures Keybytes(h)[i] == key[i]
    {
      assert Strip(h)[2 * i] == key[i] / 16;
      assert Strip(h)[2 * i + 1] == key[i] % 16;
      NibbleSplit(key[i]);
    }
  }

  /** The flag nibble of hexToCompact: 2 * terminator + odd; then the first nibble or 0. */
  lemma CompactFlags(hex: Bytes)
    requires ValidHex(hex)
    ensures var c := Compact(hex);
            var h := Strip(hex);
            && c[0] >> 4 == (if HasTerm(hex) then 2 else 0) + (if |h| % 2 == 1 then 1 else 0)
            && c[0] & 0x0f == (if |h| % 2 == 1 then h[0] else 0)
  {
    var h := Strip(hex);
    if |h| % 2 == 1 {
      assert h[0] == hex[0] && hex[0] < 16;
    }
  }

  /** The nibbles of the flag byte, the packed tail unpacked. */
  lemma HexOfCompact(hex: Bytes)
    requires ValidHex(hex)
    ensures var c := Compact(hex);
            var h := Strip(hex);
            var odd := |h| % 2 == 1;
            && c[0] / 16 == (if HasTerm(hex) then 2 else 0) + (if odd then 1 else 0)
            && Hex(c) == [c[0] / 16, c[0] % 16] + (if odd then h[1..] else h) + [Term]
            && (odd ==> c[0] % 16 == h[0])
  {
    var c := Compact(hex);
    var h := Strip(hex);
    CompactFlags(hex);
    ShiftIsDiv(c[0]);
    AndIsMod(c[0]);
    var rest := if |h| % 2 == 1 then h[1..] else h;
    assert c == [c[0]] + Packed(rest);
    forall i | 0 <= i < |rest| ensures rest[i] < 16 {
      assert rest[i] == hex[i + |h| - |rest|];
    }
    HexOfPacked(rest);
    HexCons(c[0], Packed(rest));
  }

  /** compactToHex's flag handling on nibbles whose flag nibble is known. */
  lemma ApplyFlagsOf(hi: byte, lo: byte, rest: Bytes)
    requires hi <= 3
    ensures ApplyFlags([hi, lo] + rest + [Term])
         == (if hi & 1 == 1 then [lo] else []) + rest + (if hi >= 2 then [Term] else [])
  {
    var base := [hi, lo] + rest + [Term];
    if hi < 2 {
      assert base[..|base| - 1] == [hi, lo] + rest;
    }
    if hi == 0 || hi == 2 {
      assert 2 - (hi & 1) == 2;
    } else {
      assert 2 - (hi & 1) == 1;
    }
  }

  /** compactToHex's view of a compact key: which flags are set, then the key's nibbles. */
  lemma CompactShape(hex: Bytes)
    requires ValidHex(hex)
    ensures var c := Compact(hex);
            var h := Strip(hex);
            var odd := |h| % 2 == 1;
            CompactToHex(c) == (if odd then [h[0]] + h[1..] else h) + (if HasTerm(hex) then [Term] else [])
  {
    var c := Compact(hex);
    var h := Strip(hex);
    var odd := |h| % 2 == 1;
    var hi, lo, rest := c[0] / 16, c[0] % 16, if odd then h[1..] else h;
    HexOfCompact(hex);
    FlagBits(hi, HasTerm(hex), odd);
    ApplyFlagsOf(hi, lo, rest);
  }

  /** compactToHex inverts hexToCompact on every HEX key, terminated or not. */
  lemma CompactRoundTrip(hex: Bytes)
    requires ValidHex(hex)
    ensures CompactToHex(Compact(hex)) == hex
  {
    var h := Strip(hex);
    CompactShape(hex);
    if |h| % 2 == 1 {
      assert [h[0]] + h[1..] == h;
    }
    if HasTerm(hex) {
      assert h + [Term] == hex;
    }
  }

  lemma AndIsMod(b: byte)
    ensures b % 16 == b & 0x0f
  {
  }

  lemma ShiftIsDiv(b: byte)
    ensures b / 16 == b >> 4
  {
  }

  lemma FlagBits(hi: byte, t: bool, odd: bool)
    requires hi == (if t then 2 else 0) + (if odd then 1 else 0)
    ensures hi <= 3
    ensures hi >= 2 <==> t
    ensures hi & 1 == 1 <==> odd
  {
  }
}
