/// Byte-level vocabulary shared by the trie modules: bytes, 32-byte hashes,
/// the fixed-width integer encodings of Go's encoding/binary package, and a
/// Result type for operations that can fail.
module Common {

  /** A Go `byte`. Bit-vector arithmetic gives Go's shifts, masks and wrap-around. */
  type byte = bv8

  type Bytes = seq<byte>

  /** common.HashLength */
  const HashLength: nat := 32

  const ZeroBytes32: Bytes :=
    [0, 0, 0, 0, 0, 0, 0, 0, 0, 0, 0, 0, 0, 0, 0, 0,
     0, 0, 0, 0, 0, 0, 0, 0, 0, 0, 0, 0, 0, 0, 0, 0]

  /**
   * common.Hash, a [32]byte compared by value. The length is not part of
   * the type: BytesToHash guarantees it, and the operations that rely on it
   * say so.
   */
  datatype Hash = Hash(bytes: Bytes)

  /** The all-zero hash, which the memory database reserves for its meta-root. */
  const ZeroHash: Hash := Hash(ZeroBytes32)

  datatype Option<+T> = None | Some(value: T)

  datatype Result<+T, +E> = Ok(value: T) | Err(error: E)

  /** common.BytesToHash: keep the last 32 bytes, left-pad shorter input with zeros. */
  function BytesToHash(b: Bytes): (h: Hash)
    ensures |h.bytes| == HashLength
    ensures |b| >= HashLength ==> h.bytes == b[|b| - HashLength..]
    ensures |b| < HashLength ==> h.bytes[..HashLength - |b|] == seq(HashLength - |b|, i => 0 as byte)
    ensures |b| < HashLength ==> h.bytes[HashLength - |b|..] == b
  {
    if |b| >= HashLength then Hash(b[|b| - HashLength..])
    else Hash(seq(HashLength - |b|, i => 0 as byte) + b)
  }

  /** A 32-byte hash read back from its bytes is itself. */
  lemma BytesOfHash(h: Hash)
    requires |h.bytes| == HashLength
    ensures BytesToHash(h.bytes) == h
  {
    assert h.bytes[0..] == h.bytes;
  }

  /** The low byte of a 64-bit word. */
  function Low8(v: bv64): byte {
    (v & 0xff) as byte
  }

  /** binary.LittleEndian.PutUint64: byte i holds bits 8i..8i+7. */
  function LittleEndian64(v: bv64): (r: Bytes)
    ensures |r| == 8
  {
    [Low8(v), Low8(v >> 8), Low8(v >> 16), Low8(v >> 24),
     Low8(v >> 32), Low8(v >> 40), Low8(v >> 48), Low8(v >> 56)]
  }

  /** binary.BigEndian.PutUint64: byte 0 holds the most significant bits. */
  function BigEndian64(v: bv64): (r: Bytes)
    ensures |r| == 8
  {
    [Low8(v >> 56), Low8(v >> 48), Low8(v >> 40), Low8(v >> 32),
     Low8(v >> 24), Low8(v >> 16), Low8(v >> 8), Low8(v)]
  }

  /** binary.LittleEndian.Uint64 on the first eight bytes (Go panics on fewer). */
  function Uint64LittleEndian(b: Bytes): bv64
    requires |b| >= 8
  {
    (b[0] as bv64) | ((b[1] as bv64) << 8) | ((b[2] as bv64) << 16) | ((b[3] as bv64) << 24)
    | ((b[4] as bv64) << 32) | ((b[5] as bv64) << 40) | ((b[6] as bv64) << 48) | ((b[7] as bv64) << 56)
  }

  /** binary.BigEndian.Uint64 on the first eight bytes. */
  function Uint64BigEndian(b: Bytes): bv64
    requires |b| >= 8
  {
    (b[7] as bv64) | ((b[6] as bv64) << 8) | ((b[5] as bv64) << 16) | ((b[4] as bv64) << 24)
    | ((b[3] as bv64) << 32) | ((b[2] as bv64) << 40) | ((b[1] as bv64) << 48) | ((b[0] as bv64) << 56)
  }

  lemma LittleEndianRoundTrip(v: bv64, rest: Bytes)
    ensures Uint64LittleEndian(LittleEndian64(v) + rest) == v
  {
    var b := LittleEndian64(v) + rest;
    assert b[..8] == LittleEndian64(v);
  }

  lemma LittleEndianDecodeEncode(b: Bytes)
    requires |b| == 8
    ensures LittleEndian64(Uint64LittleEndian(b)) == b
  {
  }

  lemma BigEndianRoundTrip(v: bv64)
    ensures Uint64BigEndian(BigEndian64(v)) == v
  {
  }

  /** The ASCII bytes of a Go string literal, written out (Dafny strings are characters). */
  const AsciiH: Bytes := [0x68]            // "h"
  const AsciiN: Bytes := [0x6e]            // "n"
  const AsciiSecureKey: Bytes :=           // "secure-key-"
    [0x73, 0x65, 0x63, 0x75, 0x72, 0x65, 0x2d, 0x6b, 0x65, 0x79, 0x2d]
}
