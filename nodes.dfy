/// Trie nodes, their wire form and the decoder. A full node has 17 children
/// (16 nibble branches and a value slot) and a nonce; a short node has a key,
/// one child and a nonce; hash and value nodes are byte strings. The nonce
/// is an addition to the Ethereum node format: it goes last, as 8
/// little-endian bytes, so that changing it changes the node's hash.
module Nodes {
  import opened Common
  import Rlp
  import Encoding

  /** nodeFlag: the cached hash (None for Go's nil) and whether the node is unsaved. */
  datatype NodeFlag = NodeFlag(hash: Option<Bytes>, dirty: bool)

  /** A trie node; Nil stands for Go's nil node interface (an unset child). */
  datatype Node =
    | Nil
    | Full(children: seq<Node>, nonce: bv64, flags: NodeFlag)
    | Short(key: Bytes, val: Node, nonce: bv64, flags: NodeFlag)
    | HashNode(hash: Bytes)
    | ValueNode(value: Bytes)

  /** A full node has exactly 17 children, as Go's [17]node array does. */
  predicate Shaped(n: Node)
    decreases n
  {
    match n
    case Full(ch, _, _) => |ch| == 17 && forall i :: 0 <= i < 17 ==> Shaped(ch[i])
    case Short(_, v, _, _) => Shaped(v)
    case _ => true
  }

  // ---------------------------------------------------------------------------
  // Accessors

  /** cache: a full or short node's flags; hash and value nodes report (nil, true). Go panics on nil. */
  function Cache(n: Node): (r: (Option<Bytes>, bool))
    requires !n.Nil?
    ensures n.Full? || n.Short? ==> r == (n.flags.hash, n.flags.dirty)
    ensures n.HashNode? || n.ValueNode? ==> r == (None, true)
  {
    match n
    case Full(_, _, f) => (f.hash, f.dirty)
    case Short(_, _, _, f) => (f.hash, f.dirty)
    case _ => (None, true)
  }

  /** getNonce: hash and value nodes report 0. */
  function GetNonce(n: Node): (r: bv64)
    ensures !(n.Full? || n.Short?) ==> r == 0
  {
    match n
    case Full(_, nonce, _) => nonce
    case Short(_, _, nonce, _) => nonce
    case _ => 0
  }

  /** setNonce: replaces the nonce of a full or short node and nothing else. */
  function SetNonce(n: Node, nonce: bv64): (r: Node)
    ensures n.Full? || n.Short? ==> GetNonce(r) == nonce
    ensures !(n.Full? || n.Short?) ==> r == n
    ensures r.Nil? == n.Nil?
    ensures !n.Nil? ==> Cache(r) == Cache(n)
    ensures n.Full? ==> r.Full? && r.children == n.children
    ensures n.Short? ==> r.Short? && r.key == n.key && r.val == n.val
  {
    match n
    case Full(ch, _, f) => Full(ch, nonce, f)
    case Short(k, v, _, f) => Short(k, v, nonce, f)
    case _ => n
  }

  /** Hash and value nodes carry no metadata: nothing cached, no nonce to set. */
  lemma ReferenceNodesCarryNothing(n: Node, nonce: bv64)
    requires n.HashNode? || n.ValueNode?
    ensures Cache(n) == (None, true) && GetNonce(n) == 0 && SetNonce(n, nonce) == n
  {
  }

  // ---------------------------------------------------------------------------
  // Wire form

  /**
   * The RLP item of a node (fullNode.EncodeRLP, shortNode.EncodeRLP, and the
   * byte strings of hash and value nodes). In a full node an unset child
   * is written as the empty string; a nil node anywhere else as the empty list.
   */
  function Item(n: Node): Rlp.Item
    decreases n, 1
  {
    match n
    case Nil => Rlp.List([])
    case Full(ch, nonce, _) => Rlp.List(ChildItems(ch) + [Rlp.Str(LittleEndian64(nonce))])
    case Short(k, v, nonce, _) => Rlp.List([Rlp.Str(k), Item(v), Rlp.Str(LittleEndian64(nonce))])
    case HashNode(h) => Rlp.Str(h)
    case ValueNode(v) => Rlp.Str(v)
  }

  /** The items of a full node's children: nilValueNode for each unset child. */
  function ChildItems(ch: seq<Node>): (r: seq<Rlp.Item>)
    ensures |r| == |ch|
    decreases ch, 0
  {
    if ch == [] then []
    else [if ch[0].Nil? then Rlp.Str([]) else Item(ch[0])] + ChildItems(ch[1..])
  }

  /** EncodeRLP of a node: the RLP encoding of its item, never empty (Nodes.DecodeCollapsed decodes it back). */
  function Encode(n: Node): (r: Bytes)
    ensures |r| >= 1
  {
    Rlp.Encode(Item(n))
  }

  /** The element layout of a full and a short node's encoding. */
  lemma {:induction false} ItemLayout(n: Node)
    requires n.Full? || n.Short?
    ensures Item(n).List?
    ensures n.Full? ==> var it := Item(n).items;
            && |it| == |n.children| + 1
            && it[|n.children|] == Rlp.Str(LittleEndian64(n.nonce))
            && forall i :: 0 <= i < |n.children| ==>
                 it[i] == if n.children[i].Nil? then Rlp.Str([]) else Item(n.children[i])
    ensures n.Short? ==> Item(n).items == [Rlp.Str(n.key), Item(n.val), Rlp.Str(LittleEndian64(n.nonce))]
  {
    if n.Full? {
      ChildItemsAt(n.children);
    }
  }

  lemma {:induction false} ChildItemsAt(ch: seq<Node>)
    ensures forall i :: 0 <= i < |ch| ==>
              ChildItems(ch)[i] == if ch[i].Nil? then Rlp.Str([]) else Item(ch[i])
    decreases |ch|
  {
    if ch != [] {
      ChildItemsAt(ch[1..]);
      forall i | 1 <= i < |ch|
        ensures ChildItems(ch)[i] == ChildItems(ch[1..])[i - 1]
      {
      }
    }
  }

  // ---------------------------------------------------------------------------
  // Decoding errors

  /** Where an error was raised; Go's error values carry an equivalent message. */
  datatype Cause =
    | RlpFailure(err: Rlp.Error)          // an error of the rlp package, passed on
    | ListFailure(err: Rlp.Error)         // "decode error: ..." from decodeNode's SplitList
    | InvalidListCount(count: nat)        // "invalid number of list elements"
    | InvalidValueNode(err: Rlp.Error)    // "invalid value node: ..."
    | Oversized(size: nat)                // "oversized embedded node"
    | InvalidStringSize(size: nat)        // "invalid RLP string size ... (want 0 or 32)"

  /** The breadcrumbs wrapError records: "short", "full", "val" and "[i]". */
  datatype Ctx = ShortCtx | FullCtx | ValCtx | SlotCtx(index: nat)

  /**
   * A decoding failure: a plain error, a decodeError with its path (innermost
   * first), or the panic of binary.LittleEndian.Uint64 on a nonce shorter
   * than 8 bytes, which no caller recovers from.
   */
  datatype Error = Plain(cause: Cause) | Traced(what: Cause, stack: seq<Ctx>) | NonceTooShort

  /** The decode path an error reports. */
  function Stack(e: Error): seq<Ctx> {
    if e.Traced? then e.stack else []
  }

  /** The underlying cause, if the error is not the panic. */
  function CauseOf(e: Error): Option<Cause> {
    match e
    case Plain(c) => Some(c)
    case Traced(c, _) => Some(c)
    case NonceTooShort => None
  }

  /**
   * wrapError: nil stays nil; otherwise the context is pushed onto the
   * decode path of the same underlying error (a plain error becomes a
   * decodeError with the path [ctx]). A panic passes through untouched.
   */
  function WrapError(err: Option<Error>, ctx: Ctx): (r: Option<Error>)
    ensures r.None? <==> err.None?
    ensures err.Some? && !err.value.NonceTooShort? ==>
              r.Some? && r.value.Traced? && Stack(r.value) == Stack(err.value) + [ctx]
              && CauseOf(r.value) == CauseOf(err.value)
    ensures err == Some(NonceTooShort) ==> r == err
  {
    match err
    case None => None
    case Some(Traced(what, stack)) => Some(Traced(what, stack + [ctx]))
    case Some(Plain(c)) => Some(Traced(c, [ctx]))
    case Some(NonceTooShort) => err
  }

  /** wrapError applied to the error half of a (node, error) result. */
  function Wrap<T>(r: Result<T, Error>, ctx: Ctx): Result<T, Error> {
    match r
    case Ok(_) => r
    case Err(e) => Err(WrapError(Some(e), ctx).value)
  }

  // ---------------------------------------------------------------------------
  // Decoder

  /** The nonce field: binary.LittleEndian.Uint64 panics on fewer than 8 bytes. */
  function ReadNonce(b: Bytes): Result<bv64, Error> {
    if |b| < 8 then Err(NonceTooShort) else Ok(Uint64LittleEndian(b))
  }

  /** The element count decodeNode switches on; an rlp error counts as 0. */
  function ListCount(elems: Bytes): nat {
    match Rlp.CountValues(elems)
    case Ok(c) => c
    case Err(_) => 0
  }

  /** decodeNode: the node whose RLP encoding starts `buf`, its cached hash set to `hash`. */
  function DecodeNode(hash: Option<Bytes>, buf: Bytes): (r: Result<Node, Error>)
    ensures r.Ok? ==> r.value.Short? || r.value.Full?
    decreases |buf|, 0
  {
    if |buf| == 0 then Err(Plain(RlpFailure(Rlp.UnexpectedEOF)))
    else
      match Rlp.SplitList(buf)
      case Err(e) => Err(Plain(ListFailure(e)))
      case Ok((elems, _)) =>
        var c := ListCount(elems);
        if c == 3 then Wrap(DecodeShort(hash, elems), ShortCtx)
        else if c == 18 then Wrap(DecodedFull(hash, elems), FullCtx)
        else Err(Plain(InvalidListCount(c)))
  }

  /** decodeShort: a key whose hex form has the terminator holds a value, otherwise a reference. */
  function DecodeShort(hash: Option<Bytes>, elems: Bytes): (r: Result<Node, Error>)
    ensures r.Ok? ==> r.value.Short?
    decreases |elems|, 3
  {
    match Rlp.SplitString(elems)
    case Err(e) => Err(Plain(RlpFailure(e)))
    case Ok((kbuf, rest)) =>
      var flag := NodeFlag(hash, false);
      var key := Encoding.CompactToHex(kbuf);
      if Encoding.HasTerm(key) then
        match Rlp.SplitString(rest)
        case Err(e) => Err(Plain(InvalidValueNode(e)))
        case Ok((val, rest')) =>
          match Rlp.SplitString(rest')
          case Err(e) => Err(Plain(InvalidValueNode(e)))
          case Ok((nonceVal, _)) =>
            match ReadNonce(nonceVal)
            case Err(e) => Err(e)
            case Ok(nonce) => Ok(Short(key, ValueNode(val), nonce, flag))
      else
        match DecodeRef(rest)
        case Err(e) => Wrap(Err(e), ValCtx)
        case Ok((ref, rest')) =>
          match Rlp.SplitString(rest')
          case Err(e) => Wrap(Err(Plain(RlpFailure(e))), ValCtx)
          case Ok((nonceVal, _)) =>
            match ReadNonce(nonceVal)
            case Err(e) => Err(e)
            case Ok(nonce) => Ok(Short(key, ref, nonce, flag))
  }

  /** The 16 branch references of a full node, from slot i on; `acc` holds slots 0..i-1. */
  function DecodeSlots(elems: Bytes, i: nat, acc: seq<Node>): (r: Result<(seq<Node>, Bytes), Error>)
    requires i <= 16
    ensures r.Ok? ==> |r.value.0| == |acc| + 16 - i && r.value.0[..|acc|] == acc
    decreases |elems|, 2, 16 - i
  {
    if i == 16 then Ok((acc, elems))
    else
      match DecodeRef(elems)
      case Err(e) => Wrap(Err(e), SlotCtx(i))
      case Ok((cld, rest)) =>
        var r := DecodeSlots(rest, i + 1, acc + [cld]);
        assert r.Ok? ==> r.value.0[..|acc|] == (acc + [cld])[..|acc|];
        r
  }

  /** What decodeFull returns: slot 16 is set only for a non-empty value string. */
  function DecodedFull(hash: Option<Bytes>, elems: Bytes): (r: Result<Node, Error>)
    ensures r.Ok? ==> r.value.Full? && |r.value.children| == 17
    decreases |elems|, 3
  {
    match DecodeSlots(elems, 0, [])
    case Err(e) => Err(e)
    case Ok((children, rest)) => FinishFull(hash, children, rest)
  }

  /** The value slot and the nonce that follow the 16 references of a full node. */
  function FinishFull(hash: Option<Bytes>, children: seq<Node>, rest: Bytes): (r: Result<Node, Error>)
    ensures r.Ok? ==> r.value.Full? && |r.value.children| == |children| + 1
    ensures r.Ok? ==> r.value.children[..|children|] == children
  {
    match Rlp.SplitString(rest)
    case Err(e) => Err(Plain(RlpFailure(e)))
    case Ok((val, rest')) =>
      var value := if |val| > 0 then ValueNode(val) else Nil;
      match Rlp.SplitString(rest')
      case Err(e) => Err(Plain(RlpFailure(e)))
      case Ok((nonceVal, _)) =>
        match ReadNonce(nonceVal)
        case Err(e) => Err(e)
        case Ok(nonce) => Ok(Full(children + [value], nonce, NodeFlag(hash, false)))
  }

  /**
   * decodeRef: an embedded node (a list of at most 32 encoded bytes), an
   * empty string for no child, or a 32-byte hash; anything else is an error.
   * Returns the reference and the bytes after it.
   */
  function DecodeRef(buf: Bytes): (r: Result<(Node, Bytes), Error>)
    ensures r.Ok? ==> |r.value.1| < |buf|
    ensures r.Ok? ==> !r.value.0.ValueNode?
    decreases |buf|, 1
  {
    match Rlp.Split(buf)
    case Err(e) => Err(Plain(RlpFailure(e)))
    case Ok(p) =>
      if p.kind == Rlp.ListKind then
        var size := |buf| - |p.rest|;
        if size > HashLength then Err(Plain(Oversized(size)))
        else
          match DecodeNode(None, buf)
          case Err(e) => Err(e)
          case Ok(n) => Ok((n, p.rest))
      else if p.kind == Rlp.StringKind && |p.content| == 0 then Ok((Nil, p.rest))
      else if p.kind == Rlp.StringKind && |p.content| == 32 then Ok((HashNode(p.content), p.rest))
      else Err(Plain(InvalidStringSize(|p.content|)))
  }

  /** decodeFull, slot by slot as the Go loop does. */
  method DecodeFull(hash: Option<Bytes>, elems: Bytes) returns (r: Result<Node, Error>)
    ensures r == DecodedFull(hash, elems)
  {
    var children := new Node[17](_ => Nil);
    var cur := elems;
    var i := 0;
    while i < 16
      invariant 0 <= i <= 16
      invariant DecodeSlots(elems, 0, []) == DecodeSlots(cur, i, children[..i])
      invariant children[16] == Nil
    {
      var ref := DecodeRef(cur);
      if ref.Err? {
        assert DecodeSlots(cur, i, children[..i]) == Wrap(Err(ref.error), SlotCtx(i));
        return Wrap(Err(ref.error), SlotCtx(i));
      }
      ghost var before := children[..i];
      children[i], cur := ref.value.0, ref.value.1;
      assert children[..i + 1] == before + [ref.value.0];
      i := i + 1;
    }
    ghost var slots := children[..16];
    ghost var expected := FinishFull(hash, slots, cur);
    assert DecodedFull(hash, elems) == expected;
    var split := Rlp.SplitString(cur);
    if split.Err? {
      return Err(Plain(RlpFailure(split.error)));
    }
    var (val, rest) := split.value;
    if |val| > 0 {
      children[16] := ValueNode(val);
    }
    var value := children[16];
    assert value == if |val| > 0 then ValueNode(val) else Nil;
    assert children[..] == slots + [value];
    var split' := Rlp.SplitString(rest);
    if split'.Err? {
      return Err(Plain(RlpFailure(split'.error)));
    }
    var nonce := ReadNonce(split'.value.0);
    if nonce.Err? {
      return Err(nonce.error);
    }
    r := Ok(Full(children[..], nonce.value, NodeFlag(hash, false)));
    assert r == expected;
  }

  // ---------------------------------------------------------------------------
  // What the decoder accepts

  lemma DecodeEmpty(hash: Option<Bytes>)
    ensures DecodeNode(hash, []) == Err(Plain(RlpFailure(Rlp.UnexpectedEOF)))
  {
  }

  /**
   * decodeNode yields a short node exactly for 3 list elements and a full node
   * (of 17 children) exactly for 18, carrying the given hash and clean;
   * every other count is an "invalid number of list elements" error.
   */
  lemma DecodeArity(hash: Option<Bytes>, buf: Bytes)
    requires Rlp.SplitList(buf).Ok?
    ensures var c := ListCount(Rlp.SplitList(buf).value.0);
            var r := DecodeNode(hash, buf);
            && (c != 3 && c != 18 ==> r == Err(Plain(InvalidListCount(c))))
            && (r.Ok? ==> (r.value.Short? <==> c == 3) && (r.value.Full? <==> c == 18))
            && (r.Ok? && r.value.Full? ==> |r.value.children| == 17)
            && (r.Ok? ==> (r.value.Full? || r.value.Short?) && r.value.flags == NodeFlag(hash, false))
  {
    var elems := Rlp.SplitList(buf).value.0;
    if ListCount(elems) == 3 {
      DecodeShortNode(hash, elems);
    }
  }

  lemma DecodeShortNode(hash: Option<Bytes>, elems: Bytes)
    ensures var r := DecodeShort(hash, elems);
            r.Ok? ==> r.value.Short? && r.value.flags == NodeFlag(hash, false)
  {
  }

  /**
   * A value child exactly when compactToHex(key) has the terminator: the
   * child of a decoded short node is a value node if the key is a leaf key,
   * and a reference (nil, hash or embedded node) otherwise.
   */
  lemma DecodeShortChild(hash: Option<Bytes>, elems: Bytes)
    requires DecodeShort(hash, elems).Ok?
    ensures var n := DecodeShort(hash, elems).value;
            && n.Short?
            && (n.val.ValueNode? <==> Encoding.HasTerm(n.key))
            && n.key == Encoding.CompactToHex(Rlp.SplitString(elems).value.0)
  {
  }

  /**
   * decodeRef's classification: a string reference is nil when empty, a hash
   * node when 32 bytes long, an error otherwise; a list reference is refused
   * when its encoding is longer than 32 bytes.
   */
  lemma DecodeRefKinds(buf: Bytes)
    requires Rlp.Split(buf).Ok?
    ensures var p := Rlp.Split(buf).value;
            var r := DecodeRef(buf);
            && (p.kind == Rlp.ListKind && |buf| - |p.rest| > 32 ==> r == Err(Plain(Oversized(|buf| - |p.rest|))))
            && (p.kind == Rlp.StringKind && |p.content| == 0 ==> r == Ok((Nil, p.rest)))
            && (p.kind == Rlp.StringKind && |p.content| == 32 ==> r == Ok((HashNode(p.content), p.rest)))
            && (p.kind != Rlp.ListKind && !(p.kind == Rlp.StringKind && |p.content| in {0, 32}) ==>
                  r == Err(Plain(InvalidStringSize(|p.content|))))
  {
  }

  // ---------------------------------------------------------------------------
  // Decoding a collapsed node gives back its parts

  /**
   * The nodes the hasher writes: keys in compact form, a leaf key over a
   * value node, and references that are 32-byte hashes or embedded nodes
   * whose encoding fits in 32 bytes; slot 16 is nil or a value.
   */
  predicate Collapsed(n: Node)
    decreases n, 0
  {
    match n
    case Short(k, v, _, _) =>
      if Encoding.HasTerm(Encoding.CompactToHex(k)) then v.ValueNode? else Ref(v)
    case Full(ch, _, _) =>
      && |ch| == 17
      && (forall i :: 0 <= i < 16 ==> ch[i].Nil? || Ref(ch[i]))
      && (ch[16].Nil? || ch[16].ValueNode?)
    case _ => false
  }

  /** A reference decodeRef accepts back: a 32-byte hash or a small collapsed node. */
  predicate Ref(n: Node)
    decreases n, 1
  {
    || (n.HashNode? && |n.hash| == 32)
    || ((n.Short? || n.Full?) && Collapsed(n) && |Encode(n)| <= HashLength)
  }

  /** What decoding gives back for a collapsed node: hex keys, clean flags, embedded nodes without a hash. */
  function Expanded(n: Node, hash: Option<Bytes>): Node
    decreases n, 1
  {
    match n
    case Short(k, v, nonce, _) =>
      Short(Encoding.CompactToHex(k), ExpandedRef(v), nonce, NodeFlag(hash, false))
    case Full(ch, nonce, _) =>
      if |ch| != 17 then n
      else
        var value := if ch[16].ValueNode? && |ch[16].value| > 0 then ch[16] else Nil;
        Full(ExpandedRefs(ch[..16]) + [value], nonce, NodeFlag(hash, false))
    case _ => n
  }

  function ExpandedRef(n: Node): Node
    decreases n, 2
  {
    if n.Short? || n.Full? then Expanded(n, None) else n
  }

  function ExpandedRefs(ch: seq<Node>): (r: seq<Node>)
    ensures |r| == |ch|
    decreases ch
  {
    if ch == [] then [] else [ExpandedRef(ch[0])] + ExpandedRefs(ch[1..])
  }

  lemma {:induction false} ExpandedRefsAt(ch: seq<Node>, i: nat)
    requires i < |ch|
    ensures ExpandedRefs(ch)[i] == ExpandedRef(ch[i])
    decreases i
  {
    if i > 0 {
      ExpandedRefsAt(ch[1..], i - 1);
    }
  }

  /** Every child item of an encodable node is encodable. */
  lemma EncodableChildren(items: seq<Rlp.Item>)
    requires Rlp.Encodable(Rlp.List(items))
    ensures forall i :: 0 <= i < |items| ==> Rlp.Encodable(items[i])
  {
  }

  /** The nonce field written by EncodeRLP reads back as the nonce. */
  lemma NonceRoundTrip(nonce: bv64)
    ensures Rlp.SplitString(Rlp.Encode(Rlp.Str(LittleEndian64(nonce))) + []) == Ok((LittleEndian64(nonce), []))
    ensures ReadNonce(LittleEndian64(nonce)) == Ok(nonce)
  {
    Rlp.SplitStringEncode(LittleEndian64(nonce), []);
    LittleEndianRoundTrip(nonce, []);
    assert LittleEndian64(nonce) + [] == LittleEndian64(nonce);
  }

  /**
   * Decoding the encoding of a collapsed node recovers it: the hex form of
   * its compact key, its value or references, its nonce, and the given hash.
   */
  lemma DecodeCollapsed(n: Node, hash: Option<Bytes>, rest: Bytes)
    requires Collapsed(n) && Rlp.Encodable(Item(n))
    ensures DecodeNode(hash, Encode(n) + rest) == Ok(Expanded(n, hash))
    decreases n, 1
  {
    var items := Item(n).items;
    var payload := Rlp.Concat(items);
    var buf := Encode(n) + rest;
    EncodableChildren(items);
    Rlp.SplitListEncode(items, rest);
    Rlp.CountConcat(items);
    assert Rlp.SplitList(buf) == Ok((payload, rest));
    ItemLayout(n);
    match n
    case Short(k, v, nonce, _) =>
      assert ListCount(payload) == 3;
      DecodeShortCollapsed(n, hash);
    case Full(ch, nonce, _) =>
      assert ListCount(payload) == 18;
      DecodeFullCollapsed(n, hash);
  }

  lemma DecodeShortCollapsed(n: Node, hash: Option<Bytes>)
    requires n.Short? && Collapsed(n) && Rlp.Encodable(Item(n))
    ensures DecodeShort(hash, Rlp.Concat(Item(n).items)) == Ok(Expanded(n, hash))
    decreases n, 0
  {
    var Short(k, v, nonce, _) := n;
    ShortPayload(n);
    if Encoding.HasTerm(Encoding.CompactToHex(k)) {
      ShortValueRead(hash, k, v.value, nonce);
    } else {
      ShortRefRead(hash, k, v, nonce);
    }
  }

  /** The payload of a short node: its key, its value and its nonce, one after another. */
  lemma ShortPayload(n: Node)
    requires n.Short? && Rlp.Encodable(Item(n))
    ensures |n.key| < Rlp.Limit64 && Rlp.Encodable(Item(n.val))
    ensures Rlp.Concat(Item(n).items)
         == Rlp.Encode(Rlp.Str(n.key)) + (Rlp.Encode(Item(n.val)) + Rlp.Encode(Rlp.Str(LittleEndian64(n.nonce))))
  {
    var items := Item(n).items;
    EncodableChildren(items);
    assert items[0] == Rlp.Str(n.key) && items[1] == Item(n.val);
    assert items[1..][1..] == [Rlp.Str(LittleEndian64(n.nonce))];
    assert Rlp.Concat([Rlp.Str(LittleEndian64(n.nonce))]) == Rlp.Encode(Rlp.Str(LittleEndian64(n.nonce)));
  }

  /** A short node holding a value reads back with that value. */
  lemma ShortValueRead(hash: Option<Bytes>, k: Bytes, val: Bytes, nonce: bv64)
    requires |k| < Rlp.Limit64 && |val| < Rlp.Limit64 && Encoding.HasTerm(Encoding.CompactToHex(k))
    ensures DecodeShort(hash, Rlp.Encode(Rlp.Str(k)) + (Rlp.Encode(Rlp.Str(val)) + Rlp.Encode(Rlp.Str(LittleEndian64(nonce)))))
         == Ok(Short(Encoding.CompactToHex(k), ValueNode(val), nonce, NodeFlag(hash, false)))
  {
    var enonce := Rlp.Encode(Rlp.Str(LittleEndian64(nonce)));
    Rlp.SplitStringEncode(k, Rlp.Encode(Rlp.Str(val)) + enonce);
    Rlp.SplitStringEncode(val, enonce);
    NonceRoundTrip(nonce);
    assert enonce == enonce + [];
  }

  /** A short node holding a reference reads back with the expanded reference. */
  lemma ShortRefRead(hash: Option<Bytes>, k: Bytes, v: Node, nonce: bv64)
    requires |k| < Rlp.Limit64 && Ref(v) && Rlp.Encodable(Item(v)) && !Encoding.HasTerm(Encoding.CompactToHex(k))
    ensures DecodeShort(hash, Rlp.Encode(Rlp.Str(k)) + (Encode(v) + Rlp.Encode(Rlp.Str(LittleEndian64(nonce)))))
         == Ok(Short(Encoding.CompactToHex(k), ExpandedRef(v), nonce, NodeFlag(hash, false)))
    decreases v, 3
  {
    var enonce := Rlp.Encode(Rlp.Str(LittleEndian64(nonce)));
    Rlp.SplitStringEncode(k, Encode(v) + enonce);
    DecodeRefCollapsed(v, enonce);
    NonceRoundTrip(nonce);
    assert enonce == enonce + [];
  }

  lemma DecodeFullCollapsed(n: Node, hash: Option<Bytes>)
    requires n.Full? && Collapsed(n) && Rlp.Encodable(Item(n))
    ensures DecodedFull(hash, Rlp.Concat(Item(n).items)) == Ok(Expanded(n, hash))
    decreases n, 0
  {
    var Full(ch, nonce, _) := n;
    var ci := ChildItems(ch);
    var items := Item(n).items;
    var val := if ch[16].ValueNode? then ch[16].value else [];
    var tail := Rlp.Encode(Rlp.Str(val)) + Rlp.Encode(Rlp.Str(LittleEndian64(nonce)));
    FullChildrenEncodable(n);
    assert Rlp.Concat(items) == Rlp.Concat(ci[..16]) + tail by {
      ChildItemsAt(ch);
      var nonceItem := Rlp.Str(LittleEndian64(nonce));
      assert ci[16] == Rlp.Str(val);
      assert items == ci[..16] + [ci[16], nonceItem];
      Rlp.ConcatAppend(ci[..16], [ci[16], nonceItem]);
      Rlp.Concat2(ci[16], nonceItem);
    }
    assert DecodeSlots(Rlp.Concat(items), 0, []) == Ok((ExpandedRefs(ch[..16]), tail)) by {
      assert ci[0..16] == ci[..16];
      DecodeSlotsCollapsed(ch, 0, [], tail);
    }
    assert |val| < Rlp.Limit64 by {
      ChildItemsAt(ch);
      assert Rlp.Encodable(ci[16]);
    }
    FinishFullOf(hash, ExpandedRefs(ch[..16]), val, nonce);
  }

  lemma FullChildrenEncodable(n: Node)
    requires n.Full? && Rlp.Encodable(Item(n))
    ensures forall j :: 0 <= j < |n.children| ==> Rlp.Encodable(ChildItems(n.children)[j])
  {
    var items := Item(n).items;
    EncodableChildren(items);
    forall j | 0 <= j < |n.children|
      ensures Rlp.Encodable(ChildItems(n.children)[j])
    {
      assert ChildItems(n.children)[j] == items[j];
    }
  }

  /** The value slot and nonce of a full node's encoding read back. */
  lemma FinishFullOf(hash: Option<Bytes>, children: seq<Node>, val: Bytes, nonce: bv64)
    requires |val| < Rlp.Limit64
    ensures FinishFull(hash, children, Rlp.Encode(Rlp.Str(val)) + Rlp.Encode(Rlp.Str(LittleEndian64(nonce))))
         == Ok(Full(children + [if |val| > 0 then ValueNode(val) else Nil], nonce, NodeFlag(hash, false)))
  {
    var enonce := Rlp.Encode(Rlp.Str(LittleEndian64(nonce)));
    Rlp.SplitStringEncode(val, enonce);
    NonceRoundTrip(nonce);
    assert enonce == enonce + [];
  }

  /** One slot of decodeFull's loop. */
  lemma DecodeSlotsStep(buf: Bytes, i: nat, acc: seq<Node>)
    requires i < 16 && DecodeRef(buf).Ok?
    ensures DecodeSlots(buf, i, acc)
         == DecodeSlots(DecodeRef(buf).value.1, i + 1, acc + [DecodeRef(buf).value.0])
  {
  }

  lemma DecodeSlotsCollapsed(ch: seq<Node>, i: nat, acc: seq<Node>, tail: Bytes)
    requires |ch| == 17 && i <= 16
    requires forall j :: 0 <= j < 16 ==> ch[j].Nil? || Ref(ch[j])
    requires forall j :: 0 <= j < 17 ==> Rlp.Encodable(ChildItems(ch)[j])
    ensures DecodeSlots(Rlp.Concat(ChildItems(ch)[i..16]) + tail, i, acc)
         == Ok((acc + ExpandedRefs(ch[..16])[i..], tail))
    decreases ch, 16 - i
  {
    var ci := ChildItems(ch);
    var er := ExpandedRefs(ch[..16]);
    if i == 16 {
      assert er[16..] == [] && ci[16..16] == [];
      assert Rlp.Concat(ci[16..16]) + tail == tail;
      assert acc + er[16..] == acc;
    } else {
      var next := Rlp.Concat(ci[i + 1..16]) + tail;
      var x := er[i];
      SlotsSplit(ci, i, tail);
      SlotCollapsed(ch, i, next);
      DecodeSlotsStep(Rlp.Encode(ci[i]) + next, i, acc);
      DecodeSlotsCollapsed(ch, i + 1, acc + [x], tail);
      SlotsAppend(acc, er, i);
    }
  }

  /** The slots from i on: slot i's encoding, then the rest. */
  lemma SlotsSplit(ci: seq<Rlp.Item>, i: nat, tail: Bytes)
    requires i < 16 <= |ci|
    ensures Rlp.Concat(ci[i..16]) + tail == Rlp.Encode(ci[i]) + (Rlp.Concat(ci[i + 1..16]) + tail)
  {
    assert ci[i..16][0] == ci[i] && ci[i..16][1..] == ci[i + 1..16];
  }

  lemma SlotsAppend(acc: seq<Node>, er: seq<Node>, i: nat)
    requires i < |er|
    ensures (acc + [er[i]]) + er[i + 1..] == acc + er[i..]
  {
    assert er[i..] == [er[i]] + er[i + 1..];
  }

  /** One branch slot of a collapsed full node reads back as its expanded reference. */
  lemma SlotCollapsed(ch: seq<Node>, i: nat, next: Bytes)
    requires |ch| == 17 && i < 16
    requires forall j :: 0 <= j < 16 ==> ch[j].Nil? || Ref(ch[j])
    requires forall j :: 0 <= j < 17 ==> Rlp.Encodable(ChildItems(ch)[j])
    ensures DecodeRef(Rlp.Encode(ChildItems(ch)[i]) + next) == Ok((ExpandedRefs(ch[..16])[i], next))
    decreases ch, 0
  {
    ChildItemsAt(ch);
    ExpandedRefsAt(ch[..16], i);
    if ch[i].Nil? {
      Rlp.SplitEncode(Rlp.Str([]), next);
    } else {
      DecodeRefCollapsed(ch[i], next);
    }
  }

  lemma DecodeRefCollapsed(v: Node, rest: Bytes)
    requires Ref(v) && Rlp.Encodable(Item(v))
    ensures DecodeRef(Encode(v) + rest) == Ok((ExpandedRef(v), rest))
    decreases v, 2
  {
    Rlp.SplitEncode(Item(v), rest);
    if !v.HashNode? {
      DecodeCollapsed(v, None, rest);
    }
  }
}
