/// The hasher of the indexed Merkle Patricia trie: it collapses a node tree
/// bottom-up into hash nodes, memoising hashes in the nodes' flags, and in
/// the indexed variant rewrites the first PrefixLength bytes of every dirty
/// full or short node's hash with the low bytes of the block number. The
/// model fixes FakeIMPT = true, the only branch the source takes. Keccak-256
/// is a parameter `keccak`; the database insertions and leaf callbacks the
/// hasher issues are recorded, in call order, in `Effects`.
module Hasher {
  import opened Common
  import opened Nodes
  import Encoding
  import RawNodes

  /** Number of leading hash bytes that carry the block number. */
  const PrefixLength: nat := 2

  /** A Keccak-256 digest. */
  type Digest = b: Bytes | |b| == HashLength witness ZeroBytes32

  // ---------------------------------------------------------------------------
  // Block-number prefixes

  /** encodeBlockNumber: a block number as 8 big-endian bytes. */
  function EncodeBlockNumber(number: bv64): (r: Bytes)
    ensures |r| == 8 && Uint64BigEndian(r) == number
  {
    BigEndianRoundTrip(number);
    BigEndian64(number)
  }

  /** validHash: the hash starts with the last PrefixLength bytes of the
      big-endian block number. Go panics on a hash shorter than the prefix. */
  function ValidHash(hash: Bytes, blockNum: bv64): (r: bool)
    requires |hash| >= PrefixLength
    ensures r <==> hash[0] == Low8(blockNum >> 8) && hash[1] == Low8(blockNum)
  {
    hash[..PrefixLength] == EncodeBlockNumber(blockNum)[8 - PrefixLength..]
  }

  /** Two block numbers that agree in their low 16 bits accept the same hashes. */
  lemma PrefixPeriod(hash: Bytes, a: bv64, b: bv64)
    requires |hash| >= PrefixLength
    ensures ValidHash(hash, a) == ValidHash(hash, b) <== a & 0xffff == b & 0xffff
  {
    if a & 0xffff == b & 0xffff {
      LowBytes(a, b);
    }
  }

  lemma LowBytes(a: bv64, b: bv64)
    requires a & 0xffff == b & 0xffff
    ensures Low8(a) == Low8(b) && Low8(a >> 8) == Low8(b >> 8)
  {
    assert a & 0xff == (a & 0xffff) & 0xff;
    assert b & 0xff == (b & 0xffff) & 0xff;
    assert (a >> 8) & 0xff == ((a & 0xffff) >> 8) & 0xff;
    assert (b >> 8) & 0xff == ((b & 0xffff) >> 8) & 0xff;
  }

  /** What modifyHash leaves in a full or short node's hash. */
  function ModifiedHash(hash: Bytes, blockNum: bv64): (r: Bytes)
    requires |hash| >= PrefixLength
    ensures |r| == |hash| && ValidHash(r, blockNum)
    ensures r[PrefixLength..] == hash[PrefixLength..]
  {
    EncodeBlockNumber(blockNum)[8 - PrefixLength..] + hash[PrefixLength..]
  }

  /** A hash that already carries the prefix is a fixed point of modifyHash. */
  lemma ModifiedHashFixes(hash: Bytes, blockNum: bv64)
    requires |hash| >= PrefixLength
    ensures ModifiedHash(hash, blockNum) == hash <==> ValidHash(hash, blockNum)
  {
    var r := ModifiedHash(hash, blockNum);
    if ValidHash(hash, blockNum) {
      assert r[..PrefixLength] == hash[..PrefixLength];
      assert r == r[..PrefixLength] + r[PrefixLength..];
      assert hash == hash[..PrefixLength] + hash[PrefixLength..];
    }
  }

  /** modifyHash: overwrites the prefix of a full or short node's hash in
      place and returns it; for other node kinds it writes nothing and
      returns nil. */
  method ModifyHash(n: Node, hash: array<byte>, blockNum: bv64) returns (r: Option<Bytes>)
    requires n.Full? || n.Short? ==> hash.Length >= PrefixLength
    modifies hash
    ensures n.Full? || n.Short? ==>
      hash[..] == ModifiedHash(old(hash[..]), blockNum) && r == Some(hash[..])
    ensures !(n.Full? || n.Short?) ==> hash[..] == old(hash[..]) && r == None
  {
    var bs := EncodeBlockNumber(blockNum);
    if !(n.Full? || n.Short?) {
      return None;
    }
    for i := 0 to PrefixLength
      invariant forall j :: 0 <= j < i ==> hash[j] == bs[8 - PrefixLength + j]
      invariant forall j :: i <= j < hash.Length ==> hash[j] == old(hash[j])
    {
      hash[i] := bs[8 - PrefixLength + i];
    }
    assert hash[..] == ModifiedHash(old(hash[..]), blockNum);
    r := Some(hash[..]);
  }

  // ---------------------------------------------------------------------------
  // Byte and word helpers

  /** Byte i of the little-endian form of v, with i a 64-bit counter as in Go. */
  lemma LittleEndianAt(v: bv64, i: bv64)
    requires i < 8
    ensures LittleEndian64(v)[i] == ((v >> (i * 8)) & 0xff) as byte
  {
    if i == 0 {} else if i == 1 {} else if i == 2 {} else if i == 3 {}
    else if i == 4 {} else if i == 5 {} else if i == 6 {} else {}
  }

  /** i64tob: the 8-byte little-endian form of val, which is how a node's
      nonce is encoded; it reads back as val. */
  method I64tob(val: bv64) returns (r: Bytes)
    ensures r == LittleEndian64(val)
    ensures Uint64LittleEndian(r) == val
  {
    var a := new byte[8];
    var i: bv64 := 0;
    while i < 8
      invariant i <= 8
      invariant forall j :: 0 <= j < i as int ==> a[j] == LittleEndian64(val)[j]
    {
      a[i] := ((val >> (i * 8)) & 0xff) as byte;
      LittleEndianAt(val, i);
      i := i + 1;
    }
    r := a[..];
    LittleEndianRoundTrip(val, []);
    assert r + [] == r;
  }

  /** Undoes fnv for a known b: 0x359c449b is the inverse of the FNV prime
      0x01000193 modulo 2^32. */
  function Unfnv(x: bv32, b: bv32): bv32 {
    (x ^ b) * 0x359c449b
  }

  /** fnv: multiply by the FNV prime modulo 2^32, then xor b. For a fixed b
      it loses nothing: Unfnv recovers a. */
  function Fnv(a: bv32, b: bv32): (r: bv32)
    ensures Unfnv(r, b) == a
  {
    FnvInverse(a, b);
    (a * 0x01000193) ^ b
  }

  lemma FnvInverse(a: bv32, b: bv32)
    ensures Unfnv((a * 0x01000193) ^ b, b) == a
  {
  }

  /** What fnvHash leaves in mix: each word mixed with the word of data at
      the same index. */
  function FnvMix(mix: seq<bv32>, data: seq<bv32>): (r: seq<bv32>)
    requires |data| >= |mix|
    ensures |r| == |mix|
  {
    seq(|mix|, i requires 0 <= i < |mix| => Fnv(mix[i], data[i]))
  }

  function FnvUnmix(mixed: seq<bv32>, data: seq<bv32>): (r: seq<bv32>)
    requires |data| >= |mixed|
  {
    seq(|mixed|, i requires 0 <= i < |mixed| => Unfnv(mixed[i], data[i]))
  }

  /** Mixing is invertible given data. */
  lemma FnvMixRoundTrip(mix: seq<bv32>, data: seq<bv32>)
    requires |data| >= |mix|
    ensures FnvUnmix(FnvMix(mix, data), data) == mix
  {
    var r := FnvUnmix(FnvMix(mix, data), data);
    forall i | 0 <= i < |mix|
      ensures r[i] == mix[i]
    {
      assert FnvMix(mix, data)[i] == Fnv(mix[i], data[i]);
    }
  }

  /** fnvHash: mixes data into mix in place; Go panics if data is shorter. */
  method FnvHash(mix: array<bv32>, data: array<bv32>)
    requires data.Length >= mix.Length
    modifies mix
    ensures mix[..] == FnvMix(old(mix[..]), old(data[..]))
  {
    ghost var data0 := data[..];
    ghost var mix0 := mix[..];
    for i := 0 to mix.Length
      invariant forall j :: 0 <= j < i ==> mix[j] == Fnv(mix0[j], data0[j])
      invariant forall j :: i <= j < mix.Length ==> mix[j] == mix0[j]
      invariant forall j :: i <= j < data.Length ==> data[j] == data0[j]
    {
      mix[i] := Fnv(mix[i], data[i]);
    }
    assert mix[..] == FnvMix(mix0, data0);
  }

  // ---------------------------------------------------------------------------
  // Header keys of the chain database

  /** headerHashKey: "h" ++ number ++ "n", the key of a canonical hash. */
  function HeaderHashKey(number: bv64): (r: Bytes)
    ensures |r| == 10 && r[..1] == AsciiH && r[9..] == AsciiN
    ensures Uint64BigEndian(r[1..9]) == number
  {
    AsciiH + EncodeBlockNumber(number) + AsciiN
  }

  /** headerKey: "h" ++ number ++ hash, the key of a header. */
  function HeaderKey(number: bv64, hash: Hash): (r: Bytes)
    ensures |r| == 9 + |hash.bytes| && r[..1] == AsciiH && r[9..] == hash.bytes
    ensures Uint64BigEndian(r[1..9]) == number
  {
    AsciiH + EncodeBlockNumber(number) + hash.bytes
  }

  /** Distinct blocks have distinct canonical-hash and header keys, and the
      two kinds of key never meet for a 32-byte hash. */
  lemma HeaderKeysDistinct(a: bv64, b: bv64, ha: Hash, hb: Hash)
    requires |ha.bytes| == HashLength
    ensures HeaderHashKey(a) == HeaderHashKey(b) ==> a == b
    ensures HeaderKey(a, ha) == HeaderKey(b, hb) ==> a == b && ha == hb
    ensures HeaderHashKey(a) != HeaderKey(b, ha)
  {
    if HeaderKey(a, ha) == HeaderKey(b, hb) {
      assert ha.bytes == HeaderKey(a, ha)[9..];
    }
  }

  // ---------------------------------------------------------------------------
  // Collapsing a node tree

  /** How hash is called: with a database (commit) or not, in mining mode
      (isMining, HashWithNonce) or replay mode (HashByNonce), for which block,
      and whether a leaf callback is installed. */
  datatype Mode = Mode(db: bool, mining: bool, blockNum: bv64, onleaf: bool)

  /** One db.insert(hash, blob, node) call. */
  datatype Insertion = Insertion(hash: Hash, blob: Bytes, node: Node)

  /** One onleaf(value, parent) call. */
  datatype Leaf = Leaf(value: Bytes, parent: Hash)

  /** What a run changes besides the nodes it returns: the trieNonces list
      (None for a nil pointer), the replay counter *count, and the calls made
      into the database and the leaf callback, in call order. */
  datatype Effects = Effects(nonces: Option<seq<bv64>>, count: bv64, inserts: seq<Insertion>, leaves: seq<Leaf>)

  /** The trees hash walks without calling a method on a nil node: no nil
      below a short node or in a full node's slots 0-15 that it descends
      into, and 17 slots in each full node. */
  predicate Hashable(n: Node)
    decreases n
  {
    match n
    case Nil => false
    case Full(ch, _, _) => |ch| == 17 && forall i :: 0 <= i < 16 ==> ch[i].Nil? || Hashable(ch[i])
    case Short(_, v, _, _) => v.ValueNode? || Hashable(v)
    case _ => true
  }

  /** The bytes of a hashNode that may be Go's nil slice. */
  function Raw(hash: Option<Bytes>): Bytes {
    if hash.Some? then hash.value else []
  }

  /** What hash computes: the collapsed node, the replacement for n with the
      hashes cached in, and the effects. */
  function HashSpec(m: Mode, keccak: Bytes -> Digest, n: Node, force: bool, e: Effects): (Node, Node, Effects)
    requires Hashable(n)
    decreases n, 2
  {
    var (hash, dirty) := Cache(n);
    if hash.Some? && !m.db && (e.nonces.None? || !dirty) then (HashNode(hash.value), n, e)
    else if hash.Some? && m.db && !dirty then
      (HashNode(hash.value), if n.Full? || n.Short? then HashNode(hash.value) else n, e)
    else
      var (collapsed, cached, e1) := ChildrenSpec(m, keccak, n, e);
      var (hashed, nonce, e2) := StoreSpec(m, keccak, collapsed, force, e1);
      (hashed, Recache(cached, hashed, nonce, m.db), e2)
  }

  /** The cached copy after store: the new hash (nil unless store returned a
      non-nil hashNode) and nonce, and the dirty flag cleared in commit mode. */
  function Recache(cached: Node, hashed: Node, nonce: bv64, db: bool): Node {
    var hash := if hashed.HashNode? && hashed.hash != [] then Some(hashed.hash) else None;
    match cached
    case Short(key, v, _, f) => Short(key, v, nonce, NodeFlag(hash, if db then false else f.dirty))
    case Full(ch, _, f) => Full(ch, nonce, NodeFlag(hash, if db then false else f.dirty))
    case _ => cached
  }

  /** What hashChildren computes. */
  function ChildrenSpec(m: Mode, keccak: Bytes -> Digest, n: Node, e: Effects): (Node, Node, Effects)
    requires Hashable(n)
    decreases n, 1
  {
    match n
    case Short(key, v, nonce, f) =>
      if v.ValueNode? then (Short(Encoding.Compact(key), v, nonce, f), n, e)
      else
        var (hv, cv, e1) := HashSpec(m, keccak, v, false, e);
        (Short(Encoding.Compact(key), hv, nonce, f), Short(key, cv, nonce, f), e1)
    case Full(ch, nonce, f) =>
      var (col, cac, e1) := SlotsUpTo(m, keccak, n, e, 16);
      (Full(col, nonce, f), Full(cac[16 := ch[16]], nonce, f), e1)
    case _ => (n, n, e)
  }

  /** The collapsed and cached slots and the effects after hashChildren has
      visited slots 0 to i-1 of the full node n. */
  function SlotsUpTo(m: Mode, keccak: Bytes -> Digest, n: Node, e: Effects, i: nat): (r: (seq<Node>, seq<Node>, Effects))
    requires Hashable(n) && n.Full? && i <= 16
    ensures |r.0| == 17 && |r.1| == 17
    decreases n, 0, i
  {
    if i == 0 then (n.children, n.children, e)
    else
      var (col, cac, e1) := SlotsUpTo(m, keccak, n, e, i - 1);
      var c := n.children[i - 1];
      if c.Nil? then (col, cac, e1)
      else
        var (h, cd, e2) := HashSpec(m, keccak, c, false, e1);
        (col[i - 1 := h], cac[i - 1 := cd], e2)
  }

  /** What store computes: its result and nonce, and the effects. */
  function StoreSpec(m: Mode, keccak: Bytes -> Digest, n: Node, force: bool, e: Effects): (Node, bv64, Effects)
  {
    if n.Nil? || n.HashNode? then (n, 0, e)
    else
      var enc := Encode(n);
      if |enc| < 32 && !force then (n, 0, e)
      else
        var (hash, e1) := Rehash(m, keccak, n, enc, e);
        var key := BytesToHash(Raw(hash));
        (HashNode(Raw(hash)), 0,
         if !m.db then e1
         else e1.(inserts := e1.inserts + [Insertion(key, enc, n)],
                  leaves := if m.onleaf then e1.leaves + LeafCalls(n, key) else e1.leaves))
  }

  /** The hash store settles on for a node it does not inline, and the nonce
      list and counter after it (FakeIMPT: the nonce stays 0). */
  function Rehash(m: Mode, keccak: Bytes -> Digest, n: Node, enc: Bytes, e: Effects): (Option<Bytes>, Effects)
    requires !n.Nil? && !n.HashNode?
  {
    var (cached, dirty) := Cache(n);
    if n.ValueNode? then (if cached.None? then Some(keccak(enc)) else cached, e)
    else if m.db then (cached, e)
    else if e.nonces.None? then (if cached.None? then Some(keccak(enc)) else cached, e)
    else IndexedHash(m, keccak, dirty, cached, enc, e)
  }

  /** The HashWithNonce / HashByNonce step: a dirty node gets a fresh hash
      with the block-number prefix, logging a zero nonce or counting it. */
  function IndexedHash(m: Mode, keccak: Bytes -> Digest, dirty: bool, cached: Option<Bytes>, enc: Bytes, e: Effects): (Option<Bytes>, Effects)
    requires e.nonces.Some?
  {
    if m.mining && dirty then
      (Some(ModifiedHash(keccak(enc), m.blockNum)), e.(nonces := Some(e.nonces.value + [0])))
    else if !m.mining && dirty then
      (Some(ModifiedHash(keccak(enc), m.blockNum)), e.(count := e.count + 1))
    else (cached, e)
  }

  /** The onleaf calls store makes for a node it inserts under parent: the
      value child of a short node, the value children in a full node's slots 0-15. */
  function LeafCalls(n: Node, parent: Hash): seq<Leaf> {
    match n
    case Short(_, v, _, _) => if v.ValueNode? then [Leaf(v.value, parent)] else []
    case Full(ch, _, _) => SlotLeaves(ch, parent, if |ch| < 16 then |ch| else 16)
    case _ => []
  }

  function SlotLeaves(ch: seq<Node>, parent: Hash, i: nat): seq<Leaf>
    requires i <= |ch|
  {
    if i == 0 then []
    else SlotLeaves(ch, parent, i - 1) + (if ch[i - 1].ValueNode? then [Leaf(ch[i - 1].value, parent)] else [])
  }

  /** hash: collapses n into a hash node or an inline node. A cached hash is
      reused when only hashing (or when the node is clean in nonce mode), and a
      clean node is replaced by its hash node in commit mode. */
  method Hash(m: Mode, keccak: Bytes -> Digest, n: Node, force: bool, e: Effects)
    returns (hashed: Node, cached: Node, e': Effects)
    requires Hashable(n)
    ensures (hashed, cached, e') == HashSpec(m, keccak, n, force, e)
    ensures Cache(n).0.Some? && !m.db && (e.nonces.None? || !Cache(n).1) ==>
      hashed == HashNode(Cache(n).0.value) && cached == n && e' == e
    ensures Cache(n).0.Some? && m.db && !Cache(n).1 ==>
      hashed == cached == HashNode(Cache(n).0.value) && e' == e
    decreases n, 2
  {
    var (hash, dirty) := Cache(n);
    if hash.Some? && !m.db && (e.nonces.None? || !dirty) {
      return HashNode(hash.value), n, e;
    }
    if hash.Some? && m.db && !dirty {
      hashed := HashNode(hash.value);
      cached := if n.Full? || n.Short? then hashed else n;
      return hashed, cached, e;
    }
    var collapsed, c, e1 := HashChildren(m, keccak, n, e);
    var nonce;
    hashed, nonce, e' := Store(m, keccak, collapsed, force, e1);
    cached := Recache(c, hashed, nonce, m.db);
  }

  /** hashChildren: hashes the children of a short or full node. */
  method HashChildren(m: Mode, keccak: Bytes -> Digest, n: Node, e: Effects)
    returns (collapsed: Node, cached: Node, e': Effects)
    requires Hashable(n)
    ensures (collapsed, cached, e') == ChildrenSpec(m, keccak, n, e)
    decreases n, 1
  {
    match n
    case Short(key, v, nonce, f) =>
      var compact := Encoding.HexToCompact(key);
      collapsed, cached, e' := Short(compact, v, nonce, f), Short(key, v, nonce, f), e;
      if !v.ValueNode? {
        var hv, cv;
        hv, cv, e' := Hash(m, keccak, v, false, e);
        collapsed, cached := Short(compact, hv, nonce, f), Short(key, cv, nonce, f);
      }
    case Full(ch, nonce, f) =>
      var col, cac := ch, ch;
      e' := e;
      for i := 0 to 16
        invariant (col, cac, e') == SlotsUpTo(m, keccak, n, e, i)
      {
        if !ch[i].Nil? {
          var h, cd;
          h, cd, e' := Hash(m, keccak, ch[i], false, e');
          col, cac := col[i := h], cac[i := cd];
        }
      }
      cac := cac[16 := ch[16]];
      collapsed, cached := Full(col, nonce, f), Full(cac, nonce, f);
    case _ =>
      collapsed, cached, e' := n, n, e;
  }

  /** store: keeps nil, hash nodes and small nodes as they are; hashes the
      rest, inserting it into the database in commit mode. */
  method Store(m: Mode, keccak: Bytes -> Digest, n: Node, force: bool, e: Effects)
    returns (hashed: Node, nonce: bv64, e': Effects)
    ensures (hashed, nonce, e') == StoreSpec(m, keccak, n, force, e)
    ensures nonce == 0
    ensures n.Nil? || n.HashNode? || (|Encode(n)| < 32 && !force) ==> hashed == n && e' == e
  {
    if n.Nil? || n.HashNode? {
      return n, 0, e;
    }
    var enc := Encode(n);
    if |enc| < 32 && !force {
      return n, 0, e;
    }
    var hash;
    hash, e' := NewHash(m, keccak, n, enc, e);
    nonce := 0;
    if m.db {
      var key := BytesToHash(Raw(hash));
      e' := e'.(inserts := e'.inserts + [Insertion(key, enc, n)]);
      if m.onleaf {
        var calls := TrackLeaves(n, key, e'.leaves);
        e' := e'.(leaves := calls);
      }
    }
    hashed := HashNode(Raw(hash));
  }

  /** The hashing step of store. */
  method NewHash(m: Mode, keccak: Bytes -> Digest, n: Node, enc: Bytes, e: Effects)
    returns (hash: Option<Bytes>, e': Effects)
    requires !n.Nil? && !n.HashNode?
    ensures (hash, e') == Rehash(m, keccak, n, enc, e)
  {
    var (cachedHash, dirty) := Cache(n);
    hash, e' := cachedHash, e;
    if n.Full? || n.Short? {
      if !m.db {
        if e.nonces.None? {
          if hash.None? {
            hash := Some(keccak(enc));
          }
        } else {
          hash, e' := NewIndexedHash(m, keccak, dirty, cachedHash, enc, e);
        }
      }
    } else if hash.None? {
      hash := Some(keccak(enc));
    }
  }

  method NewIndexedHash(m: Mode, keccak: Bytes -> Digest, dirty: bool, cached: Option<Bytes>, enc: Bytes, e: Effects)
    returns (hash: Option<Bytes>, e': Effects)
    requires e.nonces.Some?
    ensures (hash, e') == IndexedHash(m, keccak, dirty, cached, enc, e)
  {
    hash, e' := cached, e;
    if m.mining && dirty {
      hash := Some(ModifiedHash(keccak(enc), m.blockNum));
      e' := e'.(nonces := Some(e'.nonces.value + [0]));
    } else if !m.mining && dirty {
      hash := Some(ModifiedHash(keccak(enc), m.blockNum));
      e' := e'.(count := e'.count + 1);
    }
  }

  /** makeHashNode followed by modifyHash, on a fresh buffer. */
  method ModifiedHashNode(n: Node, digest: Digest, blockNum: bv64) returns (r: Option<Bytes>)
    requires n.Full? || n.Short?
    ensures r == Some(ModifiedHash(digest, blockNum))
  {
    var buf := new byte[|digest|](i requires 0 <= i < |digest| => digest[i]);
    assert buf[..] == digest;
    r := ModifyHash(n, buf, blockNum);
  }

  /** The onleaf calls of store, appended to leaves. */
  method TrackLeaves(n: Node, parent: Hash, leaves: seq<Leaf>) returns (r: seq<Leaf>)
    ensures r == leaves + LeafCalls(n, parent)
  {
    r := leaves;
    match n
    case Short(_, v, _, _) =>
      if v.ValueNode? {
        r := r + [Leaf(v.value, parent)];
      }
    case Full(ch, _, _) =>
      var last := if |ch| < 16 then |ch| else 16;
      for i := 0 to last
        invariant r == leaves + SlotLeaves(ch, parent, i)
      {
        if ch[i].ValueNode? {
          r := r + [Leaf(ch[i].value, parent)];
        }
      }
    case _ =>
  }

  // ---------------------------------------------------------------------------
  // What a run may change

  /** b is a followed by zeros. */
  ghost predicate ZerosAppended(a: seq<bv64>, b: seq<bv64>) {
    |a| <= |b| && b[..|a|] == a && forall i :: |a| <= i < |b| ==> b[i] == 0
  }

  /** e2 follows e1 as a hashing run allows: nonces are only appended, all
      zero, and only in mining mode without a database; the counter moves
      only in replay mode without a database; database and leaf calls are
      only appended, and only with a database (leaf calls only with a
      callback). */
  ghost predicate Grows(m: Mode, e1: Effects, e2: Effects) {
    && e2.nonces.Some? == e1.nonces.Some?
    && (e1.nonces.Some? ==> ZerosAppended(e1.nonces.value, e2.nonces.value))
    && (m.db || !m.mining ==> e2.nonces == e1.nonces)
    && (m.db || m.mining ==> e2.count == e1.count)
    && e1.inserts <= e2.inserts && e1.leaves <= e2.leaves
    && (!m.db ==> e2.inserts == e1.inserts && e2.leaves == e1.leaves)
    && (!m.onleaf ==> e2.leaves == e1.leaves)
  }

  lemma GrowsRefl(m: Mode, e: Effects)
    ensures Grows(m, e, e)
  {
    if e.nonces.Some? {
      assert e.nonces.value[..|e.nonces.value|] == e.nonces.value;
    }
  }

  lemma GrowsTrans(m: Mode, e1: Effects, e2: Effects, e3: Effects)
    requires Grows(m, e1, e2) && Grows(m, e2, e3)
    ensures Grows(m, e1, e3)
  {
    if e1.nonces.Some? {
      var a, b, c := e1.nonces.value, e2.nonces.value, e3.nonces.value;
      assert c[..|a|] == c[..|b|][..|a|];
      forall i | |a| <= i < |c|
        ensures c[i] == 0
      {
        if i < |b| {
          assert c[i] == c[..|b|][i];
        }
      }
    }
  }

  lemma StoreGrows(m: Mode, keccak: Bytes -> Digest, n: Node, force: bool, e: Effects)
    ensures Grows(m, e, StoreSpec(m, keccak, n, force, e).2)
  {
    GrowsRefl(m, e);
    if !(n.Nil? || n.HashNode?) {
      var e1 := Rehash(m, keccak, n, Encode(n), e).1;
      if e1 != e {
        var a := e.nonces.value;
        assert (a + [0])[..|a|] == a;
      }
    }
  }

  /** A hashing run changes the nonce list, the counter and the database
      calls only as Grows allows. */
  lemma {:induction false} HashGrows(m: Mode, keccak: Bytes -> Digest, n: Node, force: bool, e: Effects)
    requires Hashable(n)
    ensures Grows(m, e, HashSpec(m, keccak, n, force, e).2)
    decreases n, 2
  {
    var (hash, dirty) := Cache(n);
    if hash.Some? && (if m.db then !dirty else e.nonces.None? || !dirty) {
      GrowsRefl(m, e);
    } else {
      var (collapsed, cached, e1) := ChildrenSpec(m, keccak, n, e);
      ChildrenGrows(m, keccak, n, e);
      StoreGrows(m, keccak, collapsed, force, e1);
      GrowsTrans(m, e, e1, StoreSpec(m, keccak, collapsed, force, e1).2);
    }
  }

  lemma {:induction false} ChildrenGrows(m: Mode, keccak: Bytes -> Digest, n: Node, e: Effects)
    requires Hashable(n)
    ensures Grows(m, e, ChildrenSpec(m, keccak, n, e).2)
    decreases n, 1
  {
    match n
    case Short(_, v, _, _) =>
      if v.ValueNode? {
        GrowsRefl(m, e);
      } else {
        HashGrows(m, keccak, v, false, e);
      }
    case Full(_, _, _) =>
      SlotsGrows(m, keccak, n, e, 16);
    case _ =>
      GrowsRefl(m, e);
  }

  lemma {:induction false} SlotsGrows(m: Mode, keccak: Bytes -> Digest, n: Node, e: Effects, i: nat)
    requires Hashable(n) && n.Full? && i <= 16
    ensures Grows(m, e, SlotsUpTo(m, keccak, n, e, i).2)
    decreases n, 0, i
  {
    if i == 0 {
      GrowsRefl(m, e);
    } else {
      SlotsGrows(m, keccak, n, e, i - 1);
      var e1 := SlotsUpTo(m, keccak, n, e, i - 1).2;
      var c := n.children[i - 1];
      if !c.Nil? {
        HashGrows(m, keccak, c, false, e1);
        GrowsTrans(m, e, e1, HashSpec(m, keccak, c, false, e1).2);
      }
    }
  }

  // ---------------------------------------------------------------------------
  // Mining and replay visit the same nodes

  ghost function Zeros(j: nat): seq<bv64> {
    seq(j, _ => 0)
  }

  /** c incremented j times, wrapping as uint64 does. */
  function Bump(c: bv64, j: nat): bv64
    decreases j
  {
    if j == 0 then c else Bump(c, j - 1) + 1
  }

  /** A mining run took eM to fM by appending j zero nonces, and a replay run
      took eR to fR by counting the same j nodes; nothing else changed. */
  ghost predicate Logged(eM: Effects, eR: Effects, fM: Effects, fR: Effects) {
    && eM.nonces.Some? && fM.nonces.Some? && |eM.nonces.value| <= |fM.nonces.value|
    && var j := |fM.nonces.value| - |eM.nonces.value|;
       && fM == eM.(nonces := Some(eM.nonces.value + Zeros(j)))
       && fR == eR.(count := Bump(eR.count, j))
  }

  lemma LoggedNone(eM: Effects, eR: Effects)
    requires eM.nonces.Some?
    ensures Logged(eM, eR, eM, eR)
  {
    assert eM.nonces.value + Zeros(0) == eM.nonces.value;
  }

  lemma {:induction false} BumpAdd(c: bv64, a: nat, b: nat)
    ensures Bump(Bump(c, a), b) == Bump(c, a + b)
    decreases b
  {
    if b > 0 {
      BumpAdd(c, a, b - 1);
    }
  }

  lemma LoggedTrans(eM: Effects, eR: Effects, fM: Effects, fR: Effects, gM: Effects, gR: Effects)
    requires Logged(eM, eR, fM, fR) && Logged(fM, fR, gM, gR)
    ensures Logged(eM, eR, gM, gR)
  {
    var a := |fM.nonces.value| - |eM.nonces.value|;
    var b := |gM.nonces.value| - |fM.nonces.value|;
    assert Zeros(a) + Zeros(b) == Zeros(a + b);
    assert eM.nonces.value + Zeros(a) + Zeros(b) == eM.nonces.value + (Zeros(a) + Zeros(b));
    BumpAdd(eR.count, a, b);
  }

  lemma IndexedAgree(m: Mode, keccak: Bytes -> Digest, dirty: bool, cached: Option<Bytes>, enc: Bytes, eM: Effects, eR: Effects)
    requires eM.nonces.Some? && eR.nonces.Some?
    ensures var hM := IndexedHash(m.(mining := true), keccak, dirty, cached, enc, eM);
            var hR := IndexedHash(m.(mining := false), keccak, dirty, cached, enc, eR);
            hM.0 == hR.0 && Logged(eM, eR, hM.1, hR.1)
  {
    if dirty {
      assert eM.nonces.value + [0] == eM.nonces.value + Zeros(1);
    } else {
      LoggedNone(eM, eR);
    }
  }

  lemma StoreAgree(m: Mode, keccak: Bytes -> Digest, n: Node, force: bool, eM: Effects, eR: Effects)
    requires !m.db && eM.nonces.Some? && eR.nonces.Some?
    ensures var sM := StoreSpec(m.(mining := true), keccak, n, force, eM);
            var sR := StoreSpec(m.(mining := false), keccak, n, force, eR);
            sM.0 == sR.0 && sM.1 == sR.1 && Logged(eM, eR, sM.2, sR.2)
  {
    if n.Nil? || n.HashNode? || (|Encode(n)| < 32 && !force) || n.ValueNode? {
      LoggedNone(eM, eR);
    } else {
      var (cached, dirty) := Cache(n);
      IndexedAgree(m, keccak, dirty, cached, Encode(n), eM, eR);
    }
  }

  /** For the same tree, a mining run (HashWithNonce) and a replay run
      (HashByNonce) produce the same nodes, and the number of nonces the first
      appends is the number of nodes the second counts. */
  lemma {:induction false} MiningReplayAgree(m: Mode, keccak: Bytes -> Digest, n: Node, force: bool, eM: Effects, eR: Effects)
    requires Hashable(n) && !m.db && eM.nonces.Some? && eR.nonces.Some?
    ensures var rM := HashSpec(m.(mining := true), keccak, n, force, eM);
            var rR := HashSpec(m.(mining := false), keccak, n, force, eR);
            rM.0 == rR.0 && rM.1 == rR.1 && Logged(eM, eR, rM.2, rR.2)
    decreases n, 2
  {
    var (hash, dirty) := Cache(n);
    if hash.Some? && !dirty {
      LoggedNone(eM, eR);
    } else {
      var mM, mR := m.(mining := true), m.(mining := false);
      ChildrenAgree(m, keccak, n, eM, eR);
      var (collapsed, _, e1M) := ChildrenSpec(mM, keccak, n, eM);
      var e1R := ChildrenSpec(mR, keccak, n, eR).2;
      StoreAgree(m, keccak, collapsed, force, e1M, e1R);
      LoggedTrans(eM, eR, e1M, e1R, StoreSpec(mM, keccak, collapsed, force, e1M).2,
                  StoreSpec(mR, keccak, collapsed, force, e1R).2);
    }
  }

  lemma {:induction false} ChildrenAgree(m: Mode, keccak: Bytes -> Digest, n: Node, eM: Effects, eR: Effects)
    requires Hashable(n) && !m.db && eM.nonces.Some? && eR.nonces.Some?
    ensures var rM := ChildrenSpec(m.(mining := true), keccak, n, eM);
            var rR := ChildrenSpec(m.(mining := false), keccak, n, eR);
            rM.0 == rR.0 && rM.1 == rR.1 && Logged(eM, eR, rM.2, rR.2)
    decreases n, 1
  {
    match n
    case Short(_, v, _, _) =>
      if v.ValueNode? {
        LoggedNone(eM, eR);
      } else {
        MiningReplayAgree(m, keccak, v, false, eM, eR);
      }
    case Full(_, _, _) =>
      SlotsAgree(m, keccak, n, eM, eR, 16);
    case _ =>
      LoggedNone(eM, eR);
  }

  lemma {:induction false} SlotsAgree(m: Mode, keccak: Bytes -> Digest, n: Node, eM: Effects, eR: Effects, i: nat)
    requires Hashable(n) && n.Full? && i <= 16 && !m.db && eM.nonces.Some? && eR.nonces.Some?
    ensures var rM := SlotsUpTo(m.(mining := true), keccak, n, eM, i);
            var rR := SlotsUpTo(m.(mining := false), keccak, n, eR, i);
            rM.0 == rR.0 && rM.1 == rR.1 && Logged(eM, eR, rM.2, rR.2)
    decreases n, 0, i
  {
    if i == 0 {
      LoggedNone(eM, eR);
    } else {
      var mM, mR := m.(mining := true), m.(mining := false);
      SlotsAgree(m, keccak, n, eM, eR, i - 1);
      var e1M := SlotsUpTo(mM, keccak, n, eM, i - 1).2;
      var e1R := SlotsUpTo(mR, keccak, n, eR, i - 1).2;
      var c := n.children[i - 1];
      if !c.Nil? {
        MiningReplayAgree(m, keccak, c, false, e1M, e1R);
        LoggedTrans(eM, eR, e1M, e1R, HashSpec(mM, keccak, c, false, e1M).2,
                    HashSpec(mR, keccak, c, false, e1R).2);
      }
    }
  }

  // ---------------------------------------------------------------------------
  // Shape of the collapsed and cached nodes

  lemma {:induction false} SlotsShape(m: Mode, keccak: Bytes -> Digest, n: Node, e: Effects, i: nat)
    requires Hashable(n) && n.Full? && i <= 16
    ensures var (col, cac, _) := SlotsUpTo(m, keccak, n, e, i);
            && (forall j :: i <= j < 17 ==> col[j] == n.children[j] && cac[j] == n.children[j])
            && (forall j :: 0 <= j < i && n.children[j].Nil? ==> col[j].Nil? && cac[j].Nil?)
    decreases i
  {
    if i > 0 {
      SlotsShape(m, keccak, n, e, i - 1);
    }
  }

  /** hashChildren keeps a node's nonce and flags in both copies, gives the
      collapsed short node the compact form of its key and the cached one the
      key itself, leaves a value child alone, keeps unset slots unset, and
      carries slot 16 over unchanged; other nodes come back as they are. */
  lemma ChildrenShape(m: Mode, keccak: Bytes -> Digest, n: Node, e: Effects)
    requires Hashable(n)
    ensures var (collapsed, cached, _) := ChildrenSpec(m, keccak, n, e);
      && (n.Short? ==>
            && collapsed.Short? && cached.Short?
            && collapsed.key == Encoding.Compact(n.key) && cached.key == n.key
            && collapsed.nonce == n.nonce && cached.nonce == n.nonce
            && collapsed.flags == n.flags && cached.flags == n.flags
            && (n.val.ValueNode? ==> collapsed.val == n.val && cached.val == n.val))
      && (n.Full? ==>
            && collapsed.Full? && cached.Full?
            && |collapsed.children| == 17 && |cached.children| == 17
            && collapsed.children[16] == n.children[16] && cached.children[16] == n.children[16]
            && collapsed.nonce == n.nonce && cached.nonce == n.nonce
            && collapsed.flags == n.flags && cached.flags == n.flags
            && forall j :: 0 <= j < 16 && n.children[j].Nil? ==>
                 collapsed.children[j].Nil? && cached.children[j].Nil?)
      && (!n.Short? && !n.Full? ==> collapsed == n && cached == n)
  {
    if n.Full? {
      SlotsShape(m, keccak, n, e, 16);
    }
  }

  /** When hash does not short-circuit on a full or short node, the cached
      copy is the same kind of node, keeps its key or slot 16, carries the
      hash store returned (nil if the node was inlined) and nonce 0, and is
      marked clean exactly in commit mode. */
  lemma HashRecaches(m: Mode, keccak: Bytes -> Digest, n: Node, force: bool, e: Effects)
    requires Hashable(n) && (n.Full? || n.Short?)
    requires n.flags.hash.None? || (n.flags.dirty && (m.db || e.nonces.Some?))
    ensures var (hashed, cached, _) := HashSpec(m, keccak, n, force, e);
      && cached.Short? == n.Short? && cached.Full? == n.Full?
      && cached.flags.hash == (if hashed.HashNode? && hashed.hash != [] then Some(hashed.hash) else None)
      && cached.flags.dirty == (!m.db && n.flags.dirty)
      && GetNonce(cached) == 0
      && (n.Short? ==> cached.key == n.key)
      && (n.Full? ==> |cached.children| == 17 && cached.children[16] == n.children[16])
  {
    ChildrenShape(m, keccak, n, e);
  }

  /** The zero hash, the meta-root's key, is what a nil hash converts to. */
  lemma NilHashKey()
    ensures BytesToHash([]) == ZeroHash
  {
    assert BytesToHash([]).bytes == ZeroBytes32;
  }

  /** In commit mode store does not recompute a full or short node's hash: a
      node too large to inline is inserted, last, under the hash an earlier
      run cached in it, and under the zero hash if it has none. */
  lemma CommitReusesHash(m: Mode, keccak: Bytes -> Digest, n: Node, force: bool, e: Effects)
    requires Hashable(n) && (n.Full? || n.Short?) && m.db
    requires n.flags.hash.None? || n.flags.dirty
    ensures var (hashed, cached, e') := HashSpec(m, keccak, n, force, e);
      var collapsed := ChildrenSpec(m, keccak, n, e).0;
      && (!force && |Encode(collapsed)| < 32 ==> hashed == collapsed)
      && (force || |Encode(collapsed)| >= 32 ==>
            && hashed == HashNode(Raw(n.flags.hash))
            && |e'.inserts| > 0
            && e'.inserts[|e'.inserts| - 1] == Insertion(BytesToHash(Raw(n.flags.hash)), Encode(collapsed), collapsed)
            && (n.flags.hash.None? ==> e'.inserts[|e'.inserts| - 1].hash == ZeroHash))
  {
    ChildrenShape(m, keccak, n, e);
    NilHashKey();
  }

  /** In HashWithNonce and HashByNonce mode a dirty full or short node that is
      not inlined gets the Keccak hash of its collapsed encoding with the
      block-number prefix, which validHash accepts; mining logs one zero
      nonce for it and replay counts it once; the cached copy keeps the new
      hash and stays dirty. */
  lemma IndexedHashValid(m: Mode, keccak: Bytes -> Digest, n: Node, force: bool, e: Effects)
    requires Hashable(n) && (n.Full? || n.Short?) && !m.db && e.nonces.Some? && n.flags.dirty
    ensures var (hashed, cached, e') := HashSpec(m, keccak, n, force, e);
      var (collapsed, _, e1) := ChildrenSpec(m, keccak, n, e);
      force || |Encode(collapsed)| >= 32 ==>
        && hashed == HashNode(ModifiedHash(keccak(Encode(collapsed)), m.blockNum))
        && ValidHash(hashed.hash, m.blockNum)
        && cached.flags == NodeFlag(Some(hashed.hash), true) && GetNonce(cached) == 0
        && e1.nonces.Some?
        && (m.mining ==> e' == e1.(nonces := Some(e1.nonces.value + [0])))
        && (!m.mining ==> e' == e1.(count := e1.count + 1))
  {
    ChildrenShape(m, keccak, n, e);
    ChildrenGrows(m, keccak, n, e);
  }

  // ---------------------------------------------------------------------------
  // What store hands to the database

  /** An insertion the memory database accepts: a 32-byte key and a node
      that simplifyNode can store. */
  predicate Insertable(ins: Insertion) {
    |ins.hash.bytes| == HashLength && RawNodes.Simplifiable(ins.node)
  }

  ghost predicate AllInsertable(s: seq<Insertion>) {
    forall i :: 0 <= i < |s| ==> Insertable(s[i])
  }

  /** A tree simplifyNode accepts is one hash can walk. */
  lemma {:induction false} SimplifiableHashable(n: Node)
    requires RawNodes.Simplifiable(n)
    ensures Hashable(n)
    decreases n
  {
    match n
    case Full(ch, _, _) =>
      forall i | 0 <= i < 16 && !ch[i].Nil?
        ensures Hashable(ch[i])
      {
        SimplifiableHashable(ch[i]);
      }
    case Short(_, v, _, _) =>
      if !v.ValueNode? {
        SimplifiableHashable(v);
      }
    case _ =>
  }

  lemma StoreInsertable(m: Mode, keccak: Bytes -> Digest, n: Node, force: bool, e: Effects)
    requires RawNodes.Simplifiable(n) && AllInsertable(e.inserts)
    ensures var (hashed, _, e') := StoreSpec(m, keccak, n, force, e);
            RawNodes.Simplifiable(hashed) && AllInsertable(e'.inserts)
  {
  }

  /** Starting from a tree simplifyNode accepts, every node hash inserts
      into the database is one the database accepts, and so is the node hash
      returns. */
  lemma {:induction false} HashInsertable(m: Mode, keccak: Bytes -> Digest, n: Node, force: bool, e: Effects)
    requires RawNodes.Simplifiable(n) && AllInsertable(e.inserts)
    ensures Hashable(n)
    ensures var (hashed, _, e') := HashSpec(m, keccak, n, force, e);
            RawNodes.Simplifiable(hashed) && AllInsertable(e'.inserts)
    decreases n, 2
  {
    SimplifiableHashable(n);
    var (hash, dirty) := Cache(n);
    if !(hash.Some? && (if m.db then !dirty else e.nonces.None? || !dirty)) {
      var (collapsed, _, e1) := ChildrenSpec(m, keccak, n, e);
      ChildrenInsertable(m, keccak, n, e);
      StoreInsertable(m, keccak, collapsed, force, e1);
    }
  }

  lemma {:induction false} ChildrenInsertable(m: Mode, keccak: Bytes -> Digest, n: Node, e: Effects)
    requires RawNodes.Simplifiable(n) && Hashable(n) && AllInsertable(e.inserts)
    ensures var (collapsed, _, e') := ChildrenSpec(m, keccak, n, e);
            RawNodes.Simplifiable(collapsed) && AllInsertable(e'.inserts)
    decreases n, 1
  {
    match n
    case Short(_, v, _, _) =>
      if !v.ValueNode? {
        HashInsertable(m, keccak, v, false, e);
      }
    case Full(_, _, _) =>
      SlotsInsertable(m, keccak, n, e, 16);
    case _ =>
  }

  lemma {:induction false} SlotsInsertable(m: Mode, keccak: Bytes -> Digest, n: Node, e: Effects, i: nat)
    requires RawNodes.Simplifiable(n) && Hashable(n) && n.Full? && i <= 16 && AllInsertable(e.inserts)
    ensures var (col, _, e') := SlotsUpTo(m, keccak, n, e, i);
            && (forall j :: 0 <= j < 17 ==> col[j].Nil? || RawNodes.Simplifiable(col[j]))
            && AllInsertable(e'.inserts)
    decreases n, 0, i
  {
    if i > 0 {
      SlotsInsertable(m, keccak, n, e, i - 1);
      var (col, _, e1) := SlotsUpTo(m, keccak, n, e, i - 1);
      var c := n.children[i - 1];
      if !c.Nil? {
        HashInsertable(m, keccak, c, false, e1);
      }
    }
  }

  /** The keys a run of insertions writes to. */
  function InsertedKeys(s: seq<Insertion>): (r: set<Hash>)
    ensures forall i :: 0 <= i < |s| ==> s[i].hash in r
    ensures forall k :: k in r ==> exists i :: 0 <= i < |s| && s[i].hash == k
  {
    if s == [] then {} else InsertedKeys(s[..|s| - 1]) + {s[|s| - 1].hash}
  }

  lemma InsertedKeysSnoc(s: seq<Insertion>, i: nat)
    requires i < |s|
    ensures InsertedKeys(s[..i + 1]) == InsertedKeys(s[..i]) + {s[i].hash}
  {
    assert s[..i + 1][..i] == s[..i];
  }
}
