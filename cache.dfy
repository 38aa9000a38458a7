/// The dirty-node cache of the memory database (trie/database.go): cached
/// nodes, the flush list threaded through them, and the shape every
/// operation keeps (a well-formed list over a tracked map with no cycles).
module Cache {
  import opened Common
  import Rlp
  import Nodes
  import RawNodes

  /** Size of a cachedNode record without its node, as reflect reports it on a 64-bit build. */
  const CachedNodeSize: nat := 96
  /** Size of an initialised but empty external-children map. */
  const CachedNodeChildrenSize: nat := 48
  /** One external-children entry: a hash and its uint16 counter. */
  const ChildEntrySize: nat := HashLength + 2

  const Uint16Range: nat := 0x1_0000
  const Uint32Range: nat := 0x1_0000_0000
  type Uint16 = x: nat | x < Uint16Range
  type Uint32 = x: nat | x < Uint32Range

  // ---------------------------------------------------------------------------
  // Cached nodes

  /** What a cache entry holds: a collapsed node in its stripped form, or an opaque blob (rawNode). */
  datatype Stored = Simplified(raw: RawNodes.Raw) | Blob(data: Bytes)

  /**
   * cachedNode: the stored node, its blob size (uint16), the number of live
   * nodes referencing it (uint32), the external children with their uint16
   * counters (None is Go's nil map), and its flush-list neighbours.
   */
  datatype CachedNode = CachedNode(
    node: Stored,
    size: Uint16,
    parents: Uint32,
    children: Option<map<Hash, Uint16>>,
    flushPrev: Hash,
    flushNext: Hash)

  /** The meta-root entry the database starts with: a nil node with an empty children map. */
  const MetaRoot: CachedNode := CachedNode(Simplified(RawNodes.RawNil), 0, 0, Some(map[]), ZeroHash, ZeroHash)

  /** cachedNode.rlp: a blob as it is, a stripped node re-encoded. */
  function CachedRlp(c: CachedNode): (r: Bytes)
    ensures c.node.Simplified? ==> |r| >= 1
  {
    match c.node
    case Blob(b) => b
    case Simplified(r) => Rlp.Encode(RawNodes.Item(r))
  }

  /** The outcome of reading a node: absent, found, or a panic of mustDecodeNode / expandNode. */
  datatype Fetched = Missing | Found(node: Nodes.Node) | Panic

  /** mustDecodeNode: decodeNode, with a decoding error turned into a panic. */
  function MustDecode(hash: Hash, blob: Bytes): (r: Fetched)
    ensures r != Missing
    ensures r.Found? <==> Nodes.DecodeNode(Some(hash.bytes), blob).Ok?
  {
    match Nodes.DecodeNode(Some(hash.bytes), blob)
    case Ok(n) => Found(n)
    case Err(_) => Panic
  }

  /** cachedNode.obj: decode a blob, expand a stripped node. */
  function CachedObj(c: CachedNode, hash: Hash): (r: Fetched)
    ensures r != Missing
  {
    match c.node
    case Blob(b) => MustDecode(hash, b)
    case Simplified(r) =>
      (match RawNodes.Expand(Some(hash.bytes), r)
       case Some(n) => Found(n)
       case None => Panic)
  }

  /** The hashes gatherChildren collects from the stored node; a blob is not looked into. */
  function Gathered(s: Stored): seq<Hash> {
    match s
    case Blob(_) => []
    case Simplified(r) => RawNodes.Gather(r)
  }

  function ChildKeys(c: CachedNode): set<Hash> {
    if c.children.Some? then c.children.value.Keys else {}
  }

  /** Everything childs() reports: the external children and the hashes inside the node. */
  function ChildSet(c: CachedNode): set<Hash> {
    ChildKeys(c) + set x | x in Gathered(c.node)
  }

  /** The uint16 counter of an external child, zero where the map has no entry (or is nil). */
  function ChildCount(c: CachedNode, child: Hash): Uint16 {
    if c.children.Some? && child in c.children.value then c.children.value[child] else 0
  }

  /** How often k occurs in s. */
  function Occ(s: seq<Hash>, k: Hash): nat {
    if s == [] then 0 else (if s[0] == k then 1 else 0) + Occ(s[1..], k)
  }

  /** How often childs() of c reports k: once as an external child, and once per hash gathered from the node. */
  function Mult(c: CachedNode, k: Hash): nat {
    (if k in ChildKeys(c) then 1 else 0) + Occ(Gathered(c.node), k)
  }

  lemma {:induction false} OccConcat(a: seq<Hash>, b: seq<Hash>, k: Hash)
    ensures Occ(a + b, k) == Occ(a, k) + Occ(b, k)
    decreases |a|
  {
    if a == [] {
      assert a + b == b;
    } else {
      assert (a + b)[1..] == a[1..] + b;
      OccConcat(a[1..], b, k);
    }
  }

  /** A list without repeats holds each hash at most once. */
  lemma {:induction false} OccDistinct(s: seq<Hash>, k: Hash)
    requires Distinct(s)
    ensures Occ(s, k) == if k in s then 1 else 0
    decreases |s|
  {
    if s != [] {
      assert Distinct(s[1..]) by {
        forall i, j | 0 <= i < j < |s| - 1
          ensures Differ(s[1..], i, j)
        {
          assert Differ(s, i + 1, j + 1);
        }
      }
      OccDistinct(s[1..], k);
      if s[0] == k {
        forall j | 0 <= j < |s| - 1
          ensures s[1..][j] != k
        {
          assert Differ(s, 0, j + 1);
        }
      }
      assert k in s <==> s[0] == k || k in s[1..];
    }
  }

  /** len(n.children). */
  function ChildrenLen(c: CachedNode): nat {
    if c.children.Some? then |c.children.value| else 0
  }

  /**
   * childs: the external children first, in map order (Go leaves it
   * unspecified, so any order of the keys is allowed here), then the hashes
   * gatherChildren finds inside a stripped node.
   */
  method Childs(c: CachedNode) returns (r: seq<Hash>)
    ensures |r| == |ChildKeys(c)| + |Gathered(c.node)|
    ensures r[|ChildKeys(c)|..] == Gathered(c.node)
    ensures forall i :: 0 <= i < |ChildKeys(c)| ==> r[i] in ChildKeys(c)
    ensures Distinct(r[..|ChildKeys(c)|])
    ensures forall x :: x in r <==> x in ChildSet(c)
    ensures forall k :: Occ(r, k) == Mult(c, k)
  {
    var keys := ChildKeys(c);
    var front := [];
    var rest := keys;
    while rest != {}
      invariant rest <= keys
      invariant |front| + |rest| == |keys|
      invariant forall i :: 0 <= i < |front| ==> front[i] in keys && front[i] !in rest
      invariant forall k :: k in keys ==> k in rest || k in front
      invariant Distinct(front)
      decreases |rest|
    {
      var k :| k in rest;
      ghost var prior := front;
      front := front + [k];
      rest := rest - {k};
      forall a, b | 0 <= a < b < |front|
        ensures Differ(front, a, b)
      {
        if b < |prior| {
          assert Differ(prior, a, b);
        }
      }
    }
    r := front + Gathered(c.node);
    assert r[..|keys|] == front && r[|keys|..] == Gathered(c.node);
    forall k
      ensures Occ(r, k) == Mult(c, k)
    {
      OccConcat(front, Gathered(c.node), k);
      OccDistinct(front, k);
    }
  }

  // ---------------------------------------------------------------------------
  // The flush list and the shape of the dirty map

  /** Whether s lists no hash twice. */
  predicate Distinct(s: seq<Hash>) {
    forall i, j :: 0 <= i < j < |s| ==> Differ(s, i, j)
  }

  /** Positions i and j of s hold different hashes. */
  predicate Differ(s: seq<Hash>, i: int, j: int) {
    0 <= i < |s| && 0 <= j < |s| && s[i] != s[j]
  }

  /**
   * The flush list threaded through the entries is exactly `order`: oldest
   * is its head (zero when empty), newest its tail, each entry's flushNext is
   * its successor (zero at the tail) and flushPrev its predecessor. The
   * head's flushPrev and, once the list empties, newest are left stale by
   * the source and constrain nothing.
   */
  ghost predicate FlushList(d: map<Hash, CachedNode>, oldest: Hash, newest: Hash, order: seq<Hash>) {
    && Distinct(order)
    && (forall i :: 0 <= i < |order| ==> order[i] != ZeroHash && order[i] in d)
    && (if order == [] then oldest == ZeroHash else oldest == order[0] && newest == order[|order| - 1])
    && (forall i :: 0 <= i < |order| - 1 ==> Linked(d, order, i))
    && (order != [] ==> d[order[|order| - 1]].flushNext == ZeroHash)
  }

  /** Entry i of the list points forward to entry i + 1, which points back to it. */
  predicate Linked(d: map<Hash, CachedNode>, order: seq<Hash>, i: int) {
    && 0 <= i < |order| - 1 && order[i] in d && order[i + 1] in d
    && d[order[i]].flushNext == order[i + 1] && d[order[i + 1]].flushPrev == order[i]
  }

  /**
   * Every dirty key is a 32-byte hash, and every dirty entry is the
   * meta-root, on the flush list, or one of the nodes `zombies` that
   * dereference has unlinked but not yet deleted.
   */
  ghost predicate Tracked(d: map<Hash, CachedNode>, order: seq<Hash>, zombies: set<Hash>) {
    && ZeroHash in d
    && (forall h :: h in d ==> |h.bytes| == HashLength)
    && ZeroHash !in zombies
    && zombies <= d.Keys
    && (forall i :: 0 <= i < |order| ==> order[i] !in zombies)
    && (forall h :: h in d ==> h == ZeroHash || h in zombies || h in order)
  }

  /** The shape the database keeps between operations: a well-formed flush list over a tracked map. */
  ghost predicate Listed(d: map<Hash, CachedNode>, oldest: Hash, newest: Hash, order: seq<Hash>) {
    FlushList(d, oldest, newest, order) && Tracked(d, order, {})
  }

  /** The list with the given hashes taken out, order kept. */
  function Without(s: seq<Hash>, x: set<Hash>): (r: seq<Hash>)
    ensures |r| <= |s|
    ensures forall h :: h in r <==> h in s && h !in x
  {
    if s == [] then []
    else (if s[0] in x then [] else [s[0]]) + Without(s[1..], x)
  }

  /** Only flush-list links differ between the two maps. */
  predicate LinksOnly(d: map<Hash, CachedNode>, d': map<Hash, CachedNode>) {
    d'.Keys == d.Keys && forall k :: k in d' ==> SameButLinks(d'[k], d[k])
  }

  /** Entries agree on everything but their flush-list links. */
  predicate SameButLinks(a: CachedNode, b: CachedNode) {
    a.node == b.node && a.size == b.size && a.parents == b.parents && a.children == b.children
  }

  /**
   * Whether no dirty node reaches itself through childs(): every child has
   * a smaller height than its parent. The meta-root is exempt, as it is no
   * one's child. Termination of dereference, commit and accumulate rests on
   * it (the source would recurse forever on a cycle).
   */
  ghost predicate Acyclic(d: map<Hash, CachedNode>, height: Hash -> nat) {
    forall h, c :: IsChild(d, h, c) ==> c != ZeroHash && (h != ZeroHash ==> height(c) < height(h))
  }

  /** Whether c is among the childs() of the dirty node h. */
  predicate IsChild(d: map<Hash, CachedNode>, h: Hash, c: Hash) {
    h in d && c in ChildSet(d[h])
  }

  /** The elements of a set, listed in some order. */
  ghost function ListOf(s: set<Hash>): (r: seq<Hash>)
    ensures forall x :: x in r <==> x in s
    decreases |s|
  {
    if s == {} then []
    else
      var x :| x in s;
      [x] + ListOf(s - {x})
  }

  /** r lists exactly the elements of s. */
  ghost predicate Lists(r: seq<Hash>, s: set<Hash>) {
    forall x :: x in r <==> x in s
  }

  /** Everything childs() reports can be listed. */
  lemma KidsExist(c: CachedNode)
    ensures exists r: seq<Hash> :: Lists(r, ChildSet(c))
  {
    var r := ListOf(ChildKeys(c)) + Gathered(c.node);
    assert Lists(r, ChildSet(c));
  }

  /** Everything childs() reports, as a list in some order. */
  ghost function Kids(c: CachedNode): (r: seq<Hash>)
    ensures forall x :: x in r <==> x in ChildSet(c)
  {
    KidsExist(c);
    var r: seq<Hash> :| Lists(r, ChildSet(c));
    r
  }

  /** Every hash listed in cs is among the childs() of the dirty node h. */
  predicate Children(d: map<Hash, CachedNode>, h: Hash, cs: seq<Hash>) {
    forall i :: 0 <= i < |cs| ==> IsChild(d, h, cs[i])
  }

  /**
   * The dirty nodes reachable from h through childs(), h included when dirty.
   * Only edges that go down in height are followed, which under Acyclic are
   * all of them.
   */
  ghost function Reach(d: map<Hash, CachedNode>, height: Hash -> nat, h: Hash): set<Hash>
    decreases height(h), 1
  {
    if h !in d then {}
    else
      var kids := Kids(d[h]);
      {h} + ReachFirst(d, height, h, kids, |kids|)
  }

  /** The dirty nodes reachable from the first n of the listed children of h. */
  ghost function ReachFirst(d: map<Hash, CachedNode>, height: Hash -> nat, h: Hash, cs: seq<Hash>, n: nat): set<Hash>
    requires n <= |cs|
    decreases height(h), 0, n
  {
    if n == 0 then {}
    else ReachFirst(d, height, h, cs, n - 1) + (if height(cs[n - 1]) < height(h) then Reach(d, height, cs[n - 1]) else {})
  }

  /** The sum of HashLength + size over the listed hashes that are dirty. */
  ghost function Footprint(d: map<Hash, CachedNode>, s: seq<Hash>): int {
    if s == [] then 0
    else (if s[0] in d then HashLength + d[s[0]].size else 0) + Footprint(d, s[1..])
  }

  lemma {:induction false} FootprintSplit(d: map<Hash, CachedNode>, a: seq<Hash>, b: seq<Hash>)
    ensures Footprint(d, a + b) == Footprint(d, a) + Footprint(d, b)
    decreases |a|
  {
    if a != [] {
      assert (a + b)[1..] == a[1..] + b;
      FootprintSplit(d, a[1..], b);
    } else {
      assert a + b == b;
    }
  }

  /** Maps that agree on which listed hashes are dirty, and on their sizes, give the same footprint. */
  lemma {:induction false} FootprintSame(d: map<Hash, CachedNode>, d': map<Hash, CachedNode>, s: seq<Hash>)
    requires forall i :: 0 <= i < |s| ==> (s[i] in d <==> s[i] in d') && (s[i] in d ==> d'[s[i]].size == d[s[i]].size)
    ensures Footprint(d', s) == Footprint(d, s)
    decreases |s|
  {
    if s != [] {
      assert forall i :: 0 <= i < |s[1..]| ==> s[1..][i] == s[i + 1];
      FootprintSame(d, d', s[1..]);
    }
  }

  /** Taking a dirty hash out of the list lowers the footprint by its HashLength + size. */
  lemma FootprintRemove(d: map<Hash, CachedNode>, s: seq<Hash>, i: nat)
    requires i < |s| && s[i] in d
    ensures Footprint(d, s) == Footprint(d, s[..i] + s[i + 1..]) + HashLength + d[s[i]].size
  {
    assert s == s[..i] + ([s[i]] + s[i + 1..]);
    FootprintSplit(d, s[..i], [s[i]] + s[i + 1..]);
    FootprintSplit(d, [s[i]], s[i + 1..]);
    FootprintSplit(d, s[..i], s[i + 1..]);
    assert [s[i]][1..] == [];
  }

  lemma {:induction false} WithoutOne(s: seq<Hash>, i: nat)
    requires Distinct(s) && i < |s|
    ensures Without(s, {s[i]}) == s[..i] + s[i + 1..]
    decreases i
  {
    var x := {s[i]};
    var t := s[1..];
    assert Without(s, x) == (if s[0] in x then [] else [s[0]]) + Without(t, x);
    if i == 0 {
      forall j | 0 <= j < |t|
        ensures t[j] !in x
      {
        assert t[j] == s[j + 1] && Differ(s, 0, j + 1);
      }
      WithoutAbsent(t, x);
      assert s[..0] + s[1..] == t;
    } else {
      assert Differ(s, 0, i);
      assert t[i - 1] == s[i];
      DistinctSub(s, 1, |s|);
      assert s[1..|s|] == t;
      WithoutOne(t, i - 1);
      assert [s[0]] + (t[..i - 1] + t[i..]) == s[..i] + s[i + 1..];
    }
  }

  lemma {:induction false} WithoutAbsent(s: seq<Hash>, x: set<Hash>)
    requires forall i :: 0 <= i < |s| ==> s[i] !in x
    ensures Without(s, x) == s
    decreases s
  {
    if s != [] {
      WithoutAbsent(s[1..], x);
    }
  }

  /** Removing the head: oldest moves to the successor, whose flushPrev is zeroed. */
  lemma UnlinkHead(d: map<Hash, CachedNode>, oldest: Hash, newest: Hash, order: seq<Hash>)
    requires FlushList(d, oldest, newest, order) && ZeroHash in d && order != [] && oldest == order[0]
    ensures var next := d[order[0]].flushNext;
            && next in d && (order[1..] == [] ==> next == ZeroHash)
            && FlushList(d[next := d[next].(flushPrev := ZeroHash)], next, newest, order[1..])
            && LinksOnly(d, d[next := d[next].(flushPrev := ZeroHash)])
  {
    var next := d[order[0]].flushNext;
    var o := order[1..];
    if |order| == 1 {
      assert o == [];
    } else {
      assert Linked(d, order, 0);
      var d' := d[next := d[next].(flushPrev := ZeroHash)];
      assert forall j :: 0 <= j < |o| ==> o[j] == order[j + 1];
      forall j | 0 <= j < |o| - 1
        ensures Linked(d', o, j)
      {
        assert Linked(d, order, j + 1);
        assert Differ(order, 1, j + 2);
      }
      DistinctSub(order, 1, |order|);
      assert order[1..|order|] == o;
      assert FlushList(d', next, newest, o);
    }
  }

  /** Removing the tail of a longer list: newest moves back, the predecessor's flushNext is zeroed. */
  lemma UnlinkTail(d: map<Hash, CachedNode>, oldest: Hash, newest: Hash, order: seq<Hash>, i: nat)
    requires FlushList(d, oldest, newest, order) && 0 < i == |order| - 1
    ensures var prev := d[order[i]].flushPrev;
            && prev == order[i - 1]
            && FlushList(d[prev := d[prev].(flushNext := ZeroHash)], oldest, prev, order[..i])
            && LinksOnly(d, d[prev := d[prev].(flushNext := ZeroHash)])
  {
    var prev := order[i - 1];
    assert Linked(d, order, i - 1);
    var d' := d[prev := d[prev].(flushNext := ZeroHash)];
    var o := order[..i];
    assert forall j :: 0 <= j < |o| ==> o[j] == order[j];
    forall j | 0 <= j < |o| - 1
      ensures Linked(d', o, j)
    {
      assert Linked(d, order, j);
      assert Differ(order, j, i - 1);
    }
    DistinctSub(order, 0, i);
    assert FlushList(d', oldest, prev, o);
  }

  /** Removing an inner node: its neighbours are joined. */
  lemma UnlinkInner(d: map<Hash, CachedNode>, oldest: Hash, newest: Hash, order: seq<Hash>, i: nat)
    requires FlushList(d, oldest, newest, order) && 0 < i < |order| - 1
    ensures var prev, next := d[order[i]].flushPrev, d[order[i]].flushNext;
            && prev == order[i - 1] && next == order[i + 1]
            && FlushList(d[prev := d[prev].(flushNext := next)][next := d[next].(flushPrev := prev)],
                         oldest, newest, order[..i] + order[i + 1..])
            && LinksOnly(d, d[prev := d[prev].(flushNext := next)][next := d[next].(flushPrev := prev)])
  {
    var prev, next := order[i - 1], order[i + 1];
    assert Linked(d, order, i - 1) && Linked(d, order, i);
    var d' := d[prev := d[prev].(flushNext := next)][next := d[next].(flushPrev := prev)];
    var o := order[..i] + order[i + 1..];
    DistinctSplice(order, i);
    InnerLinks(d, oldest, newest, order, i);
    assert o[|o| - 1] == order[|order| - 1];
    assert o[0] == order[0];
  }

  lemma InnerLinks(d: map<Hash, CachedNode>, oldest: Hash, newest: Hash, order: seq<Hash>, i: nat)
    requires FlushList(d, oldest, newest, order) && 0 < i < |order| - 1
    ensures var prev, next := order[i - 1], order[i + 1];
            var d' := d[prev := d[prev].(flushNext := next)][next := d[next].(flushPrev := prev)];
            var o := order[..i] + order[i + 1..];
            && (forall j :: 0 <= j < |o| ==> o[j] in d')
            && (forall j :: 0 <= j < |o| - 1 ==> Linked(d', o, j))
            && d'[o[|o| - 1]].flushNext == ZeroHash
  {
    var prev, next := order[i - 1], order[i + 1];
    var d' := d[prev := d[prev].(flushNext := next)][next := d[next].(flushPrev := prev)];
    var o := order[..i] + order[i + 1..];
    assert forall j :: 0 <= j < i ==> o[j] == order[j];
    assert forall j :: i <= j < |o| ==> o[j] == order[j + 1];
    forall a | 0 <= a < |o| - 1
      ensures Linked(d', o, a)
    {
      if a + 1 < i {
        assert Linked(d, order, a);
        assert Differ(order, a, i - 1) && Differ(order, a, i + 1) && Differ(order, a + 1, i + 1);
      } else if a >= i {
        assert Linked(d, order, a + 1);
        assert Differ(order, i - 1, a + 1) && Differ(order, i - 1, a + 2) && Differ(order, i + 1, a + 2);
      } else {
        assert o[a] == prev && o[a + 1] == next && Differ(order, i - 1, i + 1);
      }
    }
    assert o[|o| - 1] == order[|order| - 1];
    assert Differ(order, i - 1, |order| - 1);
  }

  lemma DistinctSplice(s: seq<Hash>, i: nat)
    requires Distinct(s) && i < |s|
    ensures Distinct(s[..i] + s[i + 1..])
  {
    var o := s[..i] + s[i + 1..];
    forall a, b | 0 <= a < b < |o|
      ensures Differ(o, a, b)
    {
      var a' := if a < i then a else a + 1;
      var b' := if b < i then b else b + 1;
      assert o[a] == s[a'] && o[b] == s[b'] && Differ(s, a', b');
    }
  }

  /** A list without repeats is as long as the set of its elements. */
  lemma {:induction false} DistinctCard(s: seq<Hash>, x: set<Hash>)
    requires Distinct(s) && forall h :: h in s <==> h in x
    ensures |s| == |x|
    decreases |s|
  {
    if s != [] {
      var t, last := s[..|s| - 1], s[|s| - 1];
      DistinctSub(s, 0, |s| - 1);
      forall h
        ensures h in t <==> h in x - {last}
      {
        if h in t {
          var k :| 0 <= k < |t| && t[k] == h;
          assert Differ(s, k, |s| - 1);
        }
        if h in x - {last} {
          var k :| 0 <= k < |s| && s[k] == h;
          assert k != |s| - 1 && t[k] == h;
        }
      }
      DistinctCard(t, x - {last});
    }
  }

  /** In a list without repeats, equal entries sit at the same position. */
  lemma SameIndex(s: seq<Hash>, i: nat, j: nat)
    requires Distinct(s) && i < |s| && j < |s|
    ensures s[i] == s[j] ==> i == j
  {
    if i < j {
      assert Differ(s, i, j);
    } else if j < i {
      assert Differ(s, j, i);
    }
  }

  lemma DistinctSub(s: seq<Hash>, lo: nat, hi: nat)
    requires Distinct(s) && lo <= hi <= |s|
    ensures Distinct(s[lo..hi])
  {
    var t := s[lo..hi];
    forall a, b | 0 <= a < b < |t|
      ensures Differ(t, a, b)
    {
      assert Differ(s, lo + a, lo + b);
    }
  }

  /**
   * The flush-list removal shared by dereference and cleaner.Put: the head
   * moves oldest on, the tail moves newest back, an inner node joins its
   * neighbours. A sole node is the head, so the meta-root entry receives the
   * zero flushPrev. Only flush links change, and the removed entry stays in
   * the map, now outside the list.
   */
  method Unlink(d: map<Hash, CachedNode>, oldest: Hash, newest: Hash, ghost order: seq<Hash>, ghost zombies: set<Hash>, h: Hash)
    returns (d': map<Hash, CachedNode>, oldest': Hash, newest': Hash, ghost order': seq<Hash>)
    requires FlushList(d, oldest, newest, order) && Tracked(d, order, zombies) && h in order
    ensures order' == Without(order, {h})
    ensures FlushList(d', oldest', newest', order') && Tracked(d', order', zombies + {h})
    ensures LinksOnly(d, d')
  {
    ghost var i :| 0 <= i < |order| && order[i] == h;
    WithoutOne(order, i);
    var node := d[h];
    if h == oldest {
      assert i == 0 by { SameIndex(order, 0, i); }
      UnlinkHead(d, oldest, newest, order);
      d', oldest', newest' := d[node.flushNext := d[node.flushNext].(flushPrev := ZeroHash)], node.flushNext, newest;
      order' := order[1..];
      assert order' == order[..i] + order[i + 1..];
    } else if h == newest {
      assert i == |order| - 1 by { SameIndex(order, i, |order| - 1); }
      UnlinkTail(d, oldest, newest, order, i);
      d', oldest', newest' := d[node.flushPrev := d[node.flushPrev].(flushNext := ZeroHash)], oldest, node.flushPrev;
      order' := order[..i];
      assert order' == order[..i] + order[i + 1..];
    } else {
      UnlinkInner(d, oldest, newest, order, i);
      var prev, next := node.flushPrev, node.flushNext;
      d', oldest', newest' := d[prev := d[prev].(flushNext := next)][next := d[next].(flushPrev := prev)], oldest, newest;
      order' := order[..i] + order[i + 1..];
    }
    UnlinkTracked(d, d', order, i, zombies);
  }

  /** Taking position i out of the list turns its hash into a zombie: present, but not listed. */
  lemma UnlinkTracked(d: map<Hash, CachedNode>, d': map<Hash, CachedNode>, order: seq<Hash>, i: nat, zombies: set<Hash>)
    requires Tracked(d, order, zombies) && Distinct(order) && i < |order| && d'.Keys == d.Keys
    requires order[i] in d && order[i] != ZeroHash
    ensures Tracked(d', order[..i] + order[i + 1..], zombies + {order[i]})
  {
    var o := order[..i] + order[i + 1..];
    forall j | 0 <= j < |o|
      ensures o[j] !in zombies + {order[i]}
    {
      if j < i {
        assert o[j] == order[j] && Differ(order, j, i);
      } else {
        assert o[j] == order[j + 1] && Differ(order, i, j + 1);
      }
    }
    forall k | k in d'
      ensures k == ZeroHash || k in zombies + {order[i]} || k in o
    {
      if k != ZeroHash && k !in zombies && k != order[i] {
        var j :| 0 <= j < |order| && order[j] == k;
        if j < i {
          assert o[j] == k;
        } else {
          assert j > i && o[j - 1] == k;
        }
      }
    }
  }
}
