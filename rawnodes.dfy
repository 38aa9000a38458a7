/// The storage form of trie nodes in the memory database: nodes with their
/// caches and flags stripped (rawShortNode, rawFullNode and the two-slot
/// rawOptFullNode), the transforms between that form and live trie nodes
/// (simplifyNode, expandNode), and the walk that collects the hashes a
/// stored node refers to (gatherChildren).
module RawNodes {
  import opened Common
  import Rlp
  import Encoding
  import Nodes

  /** A stripped node; RawNil stands for an unset child (Go's nil). */
  datatype Raw =
    | RawNil
    | RawShort(key: Bytes, val: Raw, nonce: bv64)
    | RawFull(children: seq<Raw>, nonce: bv64)
    | RawOptFull(children: seq<Raw>, nonce: bv64)
    | RawHash(hash: Bytes)
    | RawValue(value: Bytes)

  // ---------------------------------------------------------------------------
  // Wire form (EncodeRLP of the raw node types)

  /**
   * rawShortNode encodes as [Key, Val, nonce]; rawFullNode and rawOptFullNode
   * encode their children with unset slots as empty strings, then the nonce
   * as 8 little-endian bytes. A nil node on its own encodes as the empty list.
   */
  function Item(r: Raw): Rlp.Item
    decreases r, 1
  {
    match r
    case RawNil => Rlp.List([])
    case RawShort(k, v, nonce) => Rlp.List([Rlp.Str(k), Item(v), Rlp.Str(LittleEndian64(nonce))])
    case RawFull(ch, nonce) => Rlp.List(ChildItems(ch) + [Rlp.Str(LittleEndian64(nonce))])
    case RawOptFull(ch, nonce) => Rlp.List(ChildItems(ch) + [Rlp.Str(LittleEndian64(nonce))])
    case RawHash(h) => Rlp.Str(h)
    case RawValue(v) => Rlp.Str(v)
  }

  function ChildItems(ch: seq<Raw>): (r: seq<Rlp.Item>)
    ensures |r| == |ch|
    decreases ch, 0
  {
    if ch == [] then []
    else [if ch[0].RawNil? then Rlp.Str([]) else Item(ch[0])] + ChildItems(ch[1..])
  }

  // ---------------------------------------------------------------------------
  // simplifyNode

  /** The number of set slots of a full node (the numOfChildren loop). */
  function ChildCount(ch: seq<Nodes.Node>): (k: nat)
    ensures k <= |ch|
    ensures k == 0 <==> forall i :: 0 <= i < |ch| ==> ch[i].Nil?
  {
    if ch == [] then 0 else (if ch[0].Nil? then 0 else 1) + ChildCount(ch[1..])
  }

  /** Nodes simplifyNode accepts: it panics on a nil node other than an unset full-node slot. */
  predicate Simplifiable(n: Nodes.Node)
    decreases n
  {
    match n
    case Nil => false
    case Full(ch, _, _) => |ch| == 17 && forall i :: 0 <= i < 17 ==> ch[i].Nil? || Simplifiable(ch[i])
    case Short(_, v, _, _) => Simplifiable(v)
    case _ => true
  }

  /**
   * simplifyNode: drops flags and caches, keeps keys, nonces and children.
   * A full node with no child set at all becomes the two-slot form; the
   * loop that fills that form finds nothing to copy, so both slots stay nil.
   */
  function Simplify(n: Nodes.Node): (r: Raw)
    requires Simplifiable(n)
    ensures n.Short? ==> r.RawShort? && r.key == n.key && r.nonce == n.nonce
    ensures n.Full? ==> (r.RawFull? || r.RawOptFull?) && r.nonce == n.nonce
    ensures n.Full? ==> (r.RawFull? <==> ChildCount(n.children) > 0)
    ensures n.Full? ==> (r.RawOptFull? <==> ChildCount(n.children) == 0)
    ensures r.RawNil? == false
    decreases n, 1
  {
    match n
    case Short(k, v, nonce, _) => RawShort(k, Simplify(v), nonce)
    case Full(ch, nonce, _) =>
      if ChildCount(ch) > 0 then RawFull(SimplifySlots(ch), nonce)
      else RawOptFull([RawNil, RawNil], nonce)
    case HashNode(h) => RawHash(h)
    case ValueNode(v) => RawValue(v)
  }

  /** The copied children array with every set slot simplified. */
  function SimplifySlots(ch: seq<Nodes.Node>): (r: seq<Raw>)
    requires forall i :: 0 <= i < |ch| ==> ch[i].Nil? || Simplifiable(ch[i])
    ensures |r| == |ch|
    ensures forall i :: 0 <= i < |ch| ==> (r[i].RawNil? <==> ch[i].Nil?)
    decreases ch, 0
  {
    if ch == [] then []
    else
      assert forall i :: 0 <= i < |ch[1..]| ==> ch[1..][i] == ch[i + 1];
      [if ch[0].Nil? then RawNil else Simplify(ch[0])] + SimplifySlots(ch[1..])
  }

  // ---------------------------------------------------------------------------
  // expandNode

  /**
   * expandNode: keys back to hex nibbles, flags holding the given hash and
   * clean; None where Go panics (a nil node, or an index into a nil hash).
   * The two-slot form places its slots at the nibbles of hash byte 1.
   */
  function Expand(hash: Option<Bytes>, r: Raw): (e: Option<Nodes.Node>)
    ensures e.Some? ==> !e.value.Nil?
    ensures e.Some? && (e.value.Full? || e.value.Short?) ==> e.value.flags == Nodes.NodeFlag(hash, false)
    decreases r, 1
  {
    match r
    case RawShort(k, v, nonce) =>
      (match Expand(None, v)
       case Some(ev) => Some(Nodes.Short(Encoding.CompactToHex(k), ev, nonce, Nodes.NodeFlag(hash, false)))
       case None => None)
    case RawFull(ch, nonce) =>
      (match ExpandSlots(ch)
       case Some(ech) => Some(Nodes.Full(ech, nonce, Nodes.NodeFlag(hash, false)))
       case None => None)
    case RawOptFull(ch, nonce) =>
      if hash.None? || |hash.value| < 2 || |ch| < 2 then None
      else
        var a := Expand(None, ch[0]);
        var b := Expand(None, ch[1]);
        if a.None? || b.None? then None
        else Some(Nodes.Full(OptSlots(hash.value[1], a.value, b.value), nonce, Nodes.NodeFlag(hash, false)))
    case RawHash(h) => Some(Nodes.HashNode(h))
    case RawValue(v) => Some(Nodes.ValueNode(v))
    case RawNil => None
  }

  const NilSlots: seq<Nodes.Node> := [Nodes.Nil, Nodes.Nil, Nodes.Nil, Nodes.Nil, Nodes.Nil, Nodes.Nil, Nodes.Nil, Nodes.Nil, Nodes.Nil, Nodes.Nil, Nodes.Nil, Nodes.Nil, Nodes.Nil, Nodes.Nil, Nodes.Nil, Nodes.Nil, Nodes.Nil]

  /** The children of a full node read from the two-slot form: slots b/16 and b%16, in that order. */
  function OptSlots(b1: byte, a: Nodes.Node, b: Nodes.Node): (r: seq<Nodes.Node>)
    ensures |r| == 17
  {
    NilSlots[HighNibble(b1) := a][LowNibble(b1) := b]
  }

  /** b/16 and b%16 on a byte, as slot indices. */
  function HighNibble(b: byte): (i: nat)
    ensures i < 16
  {
    (b / 16) as nat
  }

  function LowNibble(b: byte): (i: nat)
    ensures i < 16
  {
    (b % 16) as nat
  }

  /** The rawFullNode loop: unset slots stay nil, set ones are expanded. */
  function ExpandSlots(ch: seq<Raw>): (r: Option<seq<Nodes.Node>>)
    ensures r.Some? ==> |r.value| == |ch|
    decreases ch, 0
  {
    if ch == [] then Some([])
    else
      var head := if ch[0].RawNil? then Some(Nodes.Nil) else Expand(None, ch[0]);
      match (head, ExpandSlots(ch[1..]))
      case (Some(x), Some(xs)) => Some([x] + xs)
      case _ => None
  }

  // ---------------------------------------------------------------------------
  // gatherChildren

  /** The hashes of the hash nodes below a stored node, in slot order; slot 16 is not visited. */
  function Gather(r: Raw): (hs: seq<Hash>)
    ensures forall i :: 0 <= i < |hs| ==> |hs[i].bytes| == HashLength
    decreases r, 1
  {
    match r
    case RawShort(_, v, _) => Gather(v)
    case RawFull(ch, _) => GatherSlots(ch, 16)
    case RawOptFull(ch, _) => GatherSlots(ch, 2)
    case RawHash(h) => [BytesToHash(h)]
    case _ => []
  }

  /** Gather over the first k slots. */
  function GatherSlots(ch: seq<Raw>, k: nat): (hs: seq<Hash>)
    ensures forall i :: 0 <= i < |hs| ==> |hs[i].bytes| == HashLength
    decreases ch, 0
  {
    if k == 0 || ch == [] then [] else Gather(ch[0]) + GatherSlots(ch[1..], k - 1)
  }

  /** Whether a hash node inside r (outside a full node's value slot) names x. */
  predicate Refers(r: Raw, x: Hash)
    decreases r
  {
    match r
    case RawShort(_, v, _) => Refers(v, x)
    case RawFull(ch, _) => exists i :: 0 <= i < |ch| && i < 16 && Refers(ch[i], x)
    case RawOptFull(ch, _) => exists i :: 0 <= i < |ch| && i < 2 && Refers(ch[i], x)
    case RawHash(h) => BytesToHash(h) == x
    case _ => false
  }

  // ---------------------------------------------------------------------------
  // Properties

  /** Nodes whose every full node has a child set and a non-empty or unset value slot. */
  predicate Storable(n: Nodes.Node)
    decreases n
  {
    match n
    case Nil => false
    case Full(ch, _, _) =>
      && |ch| == 17
      && ChildCount(ch) > 0
      && !(ch[16].ValueNode? && ch[16].value == [])
      && forall i :: 0 <= i < 17 ==> ch[i].Nil? || Storable(ch[i])
    case Short(_, v, _, _) => Storable(v)
    case _ => true
  }

  lemma {:induction false} StorableSimplifiable(n: Nodes.Node)
    requires Storable(n)
    ensures Simplifiable(n)
    decreases n
  {
    match n
    case Full(ch, _, _) =>
      forall i | 0 <= i < 17 && !ch[i].Nil?
        ensures Simplifiable(ch[i])
      {
        StorableSimplifiable(ch[i]);
      }
    case Short(_, v, _, _) =>
      StorableSimplifiable(v);
    case _ =>
  }

  /**
   * The stored form encodes exactly as the live node does, so the blob the
   * hasher hashed is the blob cachedNode.rlp regenerates.
   */
  lemma {:induction false} EncodeSimplified(n: Nodes.Node)
    requires Storable(n)
    ensures Simplifiable(n) && Item(Simplify(n)) == Nodes.Item(n)
    decreases n, 1
  {
    StorableSimplifiable(n);
    match n
    case Short(k, v, nonce, f) =>
      EncodeSimplified(v);
    case Full(ch, nonce, f) =>
      EncodeSlots(ch);
    case _ =>
  }

  lemma {:induction false} EncodeSlots(ch: seq<Nodes.Node>)
    requires forall i :: 0 <= i < |ch| ==> ch[i].Nil? || Storable(ch[i])
    ensures forall i :: 0 <= i < |ch| ==> ch[i].Nil? || Simplifiable(ch[i])
    ensures ChildItems(SimplifySlots(ch)) == Nodes.ChildItems(ch)
    decreases ch, 0
  {
    forall i | 0 <= i < |ch| && !ch[i].Nil?
      ensures Simplifiable(ch[i])
    {
      StorableSimplifiable(ch[i]);
    }
    if ch != [] {
      assert forall i :: 0 <= i < |ch[1..]| ==> ch[1..][i] == ch[i + 1];
      EncodeSlots(ch[1..]);
      if !ch[0].Nil? {
        EncodeSimplified(ch[0]);
      }
    }
  }

  /**
   * Expanding the stored form of a collapsed node gives what decoding its
   * encoding gives: the hex key, the hash in the flags, clean, nonce kept.
   */
  lemma {:induction false} ExpandSimplified(n: Nodes.Node, hash: Option<Bytes>)
    requires Nodes.Collapsed(n) && Storable(n)
    ensures Simplifiable(n) && Expand(hash, Simplify(n)) == Some(Nodes.Expanded(n, hash))
    decreases n, 1
  {
    StorableSimplifiable(n);
    match n
    case Short(k, v, nonce, f) =>
      ExpandRefSimplified(v);
    case Full(ch, nonce, f) =>
      ExpandSlotsSimplified(ch);
      var slots := Nodes.ExpandedRefs(ch[..16]) + [if ch[16].ValueNode? && |ch[16].value| > 0 then ch[16] else Nodes.Nil];
      var ech := Nodes.ExpandedRefs(ch);
      assert ech == slots by {
        forall i | 0 <= i < 17
          ensures ech[i] == slots[i]
        {
          Nodes.ExpandedRefsAt(ch, i);
          if i < 16 {
            Nodes.ExpandedRefsAt(ch[..16], i);
          }
        }
      }
  }

  /** A child of a collapsed node: a value node, a hash node or a small collapsed node. */
  lemma {:induction false} ExpandRefSimplified(v: Nodes.Node)
    requires (v.ValueNode? || Nodes.Ref(v)) && Storable(v)
    ensures Simplifiable(v) && Expand(None, Simplify(v)) == Some(Nodes.ExpandedRef(v))
    decreases v, 2
  {
    StorableSimplifiable(v);
    if v.Short? || v.Full? {
      ExpandSimplified(v, None);
    }
  }

  /** Slot by slot: the set slots of a collapsed full node expand to their decoded form, unset ones to nil. */
  lemma {:induction false} ExpandSlotsSimplified(ch: seq<Nodes.Node>)
    requires forall j :: 0 <= j < |ch| ==> ch[j].Nil? || ((ch[j].ValueNode? || Nodes.Ref(ch[j])) && Storable(ch[j]))
    ensures forall j :: 0 <= j < |ch| ==> ch[j].Nil? || Simplifiable(ch[j])
    ensures ExpandSlots(SimplifySlots(ch)) == Some(Nodes.ExpandedRefs(ch))
    decreases ch, 0
  {
    forall j | 0 <= j < |ch| && !ch[j].Nil?
      ensures Simplifiable(ch[j])
    {
      StorableSimplifiable(ch[j]);
    }
    if ch != [] {
      var s := SimplifySlots(ch);
      assert forall j :: 0 <= j < |ch[1..]| ==> ch[1..][j] == ch[j + 1];
      ExpandSlotsSimplified(ch[1..]);
      assert s[1..] == SimplifySlots(ch[1..]);
      if !ch[0].Nil? {
        ExpandRefSimplified(ch[0]);
      }
    }
  }

  /**
   * The object the dirty cache hands out equals the one the disk copy
   * decodes to: expandNode of the stored form and decodeNode of its blob agree.
   */
  lemma DirtyAgreesWithDisk(n: Nodes.Node, hash: Bytes)
    requires Nodes.Collapsed(n) && Storable(n) && Rlp.Encodable(Nodes.Item(n))
    ensures Simplifiable(n)
    ensures Nodes.DecodeNode(Some(hash), Rlp.Encode(Item(Simplify(n)))) == Ok(Nodes.Expanded(n, Some(hash)))
    ensures Expand(Some(hash), Simplify(n)) == Some(Nodes.Expanded(n, Some(hash)))
  {
    StorableSimplifiable(n);
    EncodeSimplified(n);
    Nodes.DecodeCollapsed(n, Some(hash), []);
    assert Nodes.Encode(n) + [] == Nodes.Encode(n);
    ExpandSimplified(n, Some(hash));
  }

  /**
   * A full node with no child set is stored in the two-slot form with both
   * slots nil, which expandNode cannot read back: it panics on the nil slot.
   */
  lemma EmptyFullUnreadable(n: Nodes.Node, hash: Option<Bytes>)
    requires n.Full? && |n.children| == 17 && ChildCount(n.children) == 0
    ensures Simplifiable(n) && Simplify(n) == RawOptFull([RawNil, RawNil], n.nonce)
    ensures Expand(hash, Simplify(n)) == None
  {
  }

  /** gatherChildren never looks at a full node's value slot. */
  lemma GatherSkipsValueSlot(ch: seq<Raw>, nonce: bv64, v: Raw)
    requires |ch| == 17
    ensures Gather(RawFull(ch[16 := v], nonce)) == Gather(RawFull(ch, nonce))
  {
    GatherSlotsPrefix(ch, ch[16 := v], 16);
  }

  lemma {:induction false} GatherSlotsPrefix(a: seq<Raw>, b: seq<Raw>, k: nat)
    requires k <= |a| && k <= |b| && a[..k] == b[..k]
    ensures GatherSlots(a, k) == GatherSlots(b, k)
    decreases k
  {
    if k > 0 {
      assert a[0] == a[..k][0] && b[0] == b[..k][0];
      assert a[1..][..k - 1] == a[..k][1..] && b[1..][..k - 1] == b[..k][1..];
      GatherSlotsPrefix(a[1..], b[1..], k - 1);
    }
  }

  /** Every hash gatherChildren reports comes from a hash node inside the stored node. */
  lemma {:induction false} GatherOnlyHashes(r: Raw, x: Hash)
    requires x in Gather(r)
    ensures Refers(r, x)
    decreases r, 1
  {
    match r
    case RawShort(_, v, _) => GatherOnlyHashes(v, x);
    case RawFull(ch, _) => GatherSlotsOnlyHashes(ch, 16, x);
    case RawOptFull(ch, _) => GatherSlotsOnlyHashes(ch, 2, x);
    case _ =>
  }

  lemma {:induction false} GatherSlotsOnlyHashes(ch: seq<Raw>, k: nat, x: Hash)
    requires x in GatherSlots(ch, k)
    ensures exists i :: 0 <= i < |ch| && i < k && Refers(ch[i], x)
    decreases ch, 0
  {
    if x in Gather(ch[0]) {
      GatherOnlyHashes(ch[0], x);
    } else {
      GatherSlotsOnlyHashes(ch[1..], k - 1, x);
      var i :| 0 <= i < |ch[1..]| && i < k - 1 && Refers(ch[1..][i], x);
      assert ch[1..][i] == ch[i + 1];
    }
  }
}
