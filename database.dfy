/// The memory database in front of the disk store (trie/database.go): dirty
/// trie nodes keyed by hash, a flush list threaded through them in insertion
/// order, reference counting rooted at the all-zero meta-root, size
/// accounting, and the two-phase flushes Cap and Commit, which write a batch
/// and uncache only once the write has gone through.
module Database {
  import opened Common
  import Rlp
  import Nodes
  import RawNodes
  import opened Cache

  /** ethdb.IdealBatchSize. */
  const IdealBatchSize: nat := 100 * 1024
  /** Cap pushes preimages to disk once they take more than this. */
  const PreimageFlushSize: nat := 4 * 1024 * 1024
  /** The prefix plus a 32-byte hash. */
  const SecureKeyLength: nat := 11 + 32

  // ---------------------------------------------------------------------------
  // insert

  /**
   * The entry insert creates: the stripped node (the blob itself when no
   * node is given, as for InsertBlob's rawNode), size uint16(len(blob)), no
   * parents, a nil children map, flushPrev the current newest.
   */
  function NewEntry(hash: Hash, blob: Bytes, node: Option<Nodes.Node>, newest: Hash): (r: CachedNode)
    requires node.Some? ==> RawNodes.Simplifiable(node.value)
    ensures r.size == |blob| % Uint16Range && r.parents == 0 && r.children == None
    ensures r.flushPrev == newest && r.flushNext == ZeroHash
    ensures node.None? ==> r.node == Blob(blob) && Gathered(r.node) == []
    ensures node.Some? ==> r.node == Simplified(RawNodes.Simplify(node.value))
  {
    CachedNode(if node.Some? then Simplified(RawNodes.Simplify(node.value)) else Blob(blob),
               |blob| % Uint16Range, 0, None, newest, ZeroHash)
  }

  /**
   * The dirty map once an entry joins the flush-list tail: with an empty
   * list it is only added; otherwise the old tail's flushNext points to it.
   */
  function Append(d: map<Hash, CachedNode>, empty: bool, newest: Hash, hash: Hash, entry: CachedNode): map<Hash, CachedNode>
    requires !empty ==> newest in d
  {
    if empty then d[hash := entry] else d[hash := entry][newest := d[newest].(flushNext := hash)]
  }

  // ---------------------------------------------------------------------------
  // insert's size accounting against what the removals take away again

  /**
   * What insert adds to dirtiesSize as written: HashLength + entry.size is
   * evaluated in uint16, the type of entry.size, so it wraps at 2^16.
   */
  function InsertedSizeAsWritten(size: Uint16): (r: nat)
    ensures r < Uint16Range
    ensures HashLength + size < Uint16Range ==> r == HashLength + size
    ensures HashLength + size >= Uint16Range ==> r == HashLength + size - Uint16Range
  {
    (HashLength + size) % Uint16Range
  }

  /**
   * A 65504-byte blob: insert as written adds nothing to dirtiesSize, while
   * dereference, Cap and the flush-list cleaner (which add in int) take
   * HashLength + 65504 = 65536 away for the same entry.
   */
  lemma InsertedSizeWraps()
    ensures NewEntry(ZeroHash, seq(65504, i => 0 as byte), None, ZeroHash).size == 65504
    ensures InsertedSizeAsWritten(65504) == 0 && HashLength + 65504 == 65536
  {
  }

  /**
   * The corrected insert adds HashLength + size, so the accounting gap
   * dirtiesSize - Footprint over the flush list is the same after the insert.
   */
  lemma InsertFootprint(d: map<Hash, CachedNode>, order: seq<Hash>, kids: seq<Hash>, empty: bool, newest: Hash, hash: Hash, entry: CachedNode)
    requires hash !in d && (!empty ==> newest in d)
    requires forall i :: 0 <= i < |order| ==> order[i] in d
    ensures Footprint(Append(Bumped(d, kids), empty, newest, hash, entry), order + [hash])
         == Footprint(d, order) + HashLength + entry.size
  {
    var b := Bumped(d, kids);
    var d' := Append(b, empty, newest, hash, entry);
    BumpedAddsParents(d, kids);
    forall i | 0 <= i < |order|
      ensures order[i] in d' && d'[order[i]].size == d[order[i]].size
    {
      assert order[i] in b && b[order[i]].size == d[order[i]].size;
    }
    FootprintSame(d, d', order);
    FootprintSplit(d', order, [hash]);
    assert [hash][1..] == [];
  }

  /** The flush list and the key set survive any change that keeps every entry's links. */
  lemma KeepLinks(d: map<Hash, CachedNode>, d': map<Hash, CachedNode>, oldest: Hash, newest: Hash, order: seq<Hash>, zombies: set<Hash>)
    requires FlushList(d, oldest, newest, order) && Tracked(d, order, zombies)
    requires d'.Keys == d.Keys
    requires forall k :: k in d ==> d'[k].flushPrev == d[k].flushPrev && d'[k].flushNext == d[k].flushNext
    ensures FlushList(d', oldest, newest, order) && Tracked(d', order, zombies)
  {
    forall i | 0 <= i < |order| - 1
      ensures Linked(d', order, i)
    {
      assert Linked(d, order, i);
    }
  }

  /**
   * Appending a new entry at the tail: it starts the list when oldest is
   * zero, otherwise the old tail's flushNext points to it.
   */
  lemma AppendEntry(d: map<Hash, CachedNode>, oldest: Hash, newest: Hash, order: seq<Hash>, hash: Hash, entry: CachedNode)
    requires FlushList(d, oldest, newest, order) && Tracked(d, order, {})
    requires hash !in d && |hash.bytes| == HashLength && entry.flushPrev == newest && entry.flushNext == ZeroHash
    ensures oldest == ZeroHash <==> order == []
    ensures order != [] ==> newest in d
    ensures var d' := Append(d, oldest == ZeroHash, newest, hash, entry);
            var oldest' := if oldest == ZeroHash then hash else oldest;
            FlushList(d', oldest', hash, order + [hash]) && Tracked(d', order + [hash], {})
  {
    var o := order + [hash];
    assert forall i :: 0 <= i < |order| ==> o[i] == order[i];
    assert o[|order|] == hash;
    forall a, b | 0 <= a < b < |o|
      ensures Differ(o, a, b)
    {
      if b < |order| {
        assert Differ(order, a, b);
      }
    }
    if order != [] {
      var d' := d[hash := entry][newest := d[newest].(flushNext := hash)];
      assert order[|order| - 1] == newest;
      forall i | 0 <= i < |o| - 1
        ensures Linked(d', o, i)
      {
        if i + 1 < |order| {
          assert Linked(d, order, i);
          assert Differ(order, i, |order| - 1);
        }
      }
      assert FlushList(d', oldest, hash, o);
    }
  }

  /**
   * The dirty-map half of insert for an entry not yet cached: every dirty
   * child gains its parents, the entry is added, and it joins the flush list
   * (as its only node when oldest is zero, otherwise after the old tail).
   * The flush list and the dirty-key invariant stay whole.
   */
  method InsertEntry(d: map<Hash, CachedNode>, oldest: Hash, newest: Hash, ghost order: seq<Hash>, hash: Hash, entry: CachedNode)
    returns (d': map<Hash, CachedNode>, oldest': Hash, newest': Hash)
    requires FlushList(d, oldest, newest, order) && Tracked(d, order, {})
    requires hash !in d && |hash.bytes| == HashLength
    requires entry.children == None && entry.flushPrev == newest && entry.flushNext == ZeroHash
    ensures oldest != ZeroHash ==> newest in Bumped(d, Gathered(entry.node))
    ensures d' == Append(Bumped(d, Gathered(entry.node)), oldest == ZeroHash, newest, hash, entry)
    ensures oldest' == (if oldest == ZeroHash then hash else oldest) && newest' == hash
    ensures FlushList(d', oldest', newest', order + [hash]) && Tracked(d', order + [hash], {})
  {
    var kids := Childs(entry);
    assert kids == Gathered(entry.node);
    var b := AddParents(d, kids);
    BumpedAddsParents(d, kids);
    KeepLinks(d, b, oldest, newest, order, {});
    AppendEntry(b, oldest, newest, order, hash, entry);
    if oldest == ZeroHash {
      d' := b[hash := entry];
      oldest', newest' := hash, hash;
    } else {
      d' := b[hash := entry][newest := b[newest].(flushNext := hash)];
      oldest', newest' := oldest, hash;
    }
    assert d' == Append(b, oldest == ZeroHash, newest, hash, entry);
  }

  /** The entry with `extra` more parents, under uint32 wrap-around. */
  function AddedParents(c: CachedNode, extra: nat): (r: CachedNode)
    ensures r.parents == (c.parents + extra) % Uint32Range && SameButParents(r, c)
  {
    c.(parents := (c.parents + extra) % Uint32Range)
  }

  predicate SameButParents(a: CachedNode, b: CachedNode) {
    a.node == b.node && a.size == b.size && a.children == b.children && a.flushPrev == b.flushPrev && a.flushNext == b.flushNext
  }

  /** Every dirty entry of d with one more parent per occurrence of its hash in kids. */
  predicate ParentsAdded(d: map<Hash, CachedNode>, kids: multiset<Hash>, r: map<Hash, CachedNode>) {
    r.Keys == d.Keys && forall k :: k in r ==> r[k] == AddedParents(d[k], kids[k])
  }

  lemma AddParentStep(d: map<Hash, CachedNode>, kids: multiset<Hash>, r: map<Hash, CachedNode>, c: Hash)
    requires ParentsAdded(d, kids, r)
    ensures ParentsAdded(d, kids + multiset{c},
              if c in r then r[c := AddedParents(r[c], 1)] else r)
  {
    var r' := if c in r then r[c := AddedParents(r[c], 1)] else r;
    forall k | k in r'
      ensures r'[k] == AddedParents(d[k], (kids + multiset{c})[k])
    {
      if k == c {
        ParentStep(d[c].parents, kids[c]);
      }
    }
  }

  /**
   * insert's loop over the children of a new entry, as a function: each
   * occurrence of a dirty hash, in order, gives that entry one more parent
   * (uint32 wrap-around); hashes that are not dirty are skipped.
   */
  function Bumped(d: map<Hash, CachedNode>, kids: seq<Hash>): (r: map<Hash, CachedNode>)
    ensures r.Keys == d.Keys
    decreases |kids|
  {
    if kids == [] then d
    else
      var r := Bumped(d, kids[..|kids| - 1]);
      var c := kids[|kids| - 1];
      if c in r then r[c := AddedParents(r[c], 1)] else r
  }

  /** After the loop each dirty entry has gained one parent per occurrence of its hash; nothing else changed. */
  lemma {:induction false} BumpedAddsParents(d: map<Hash, CachedNode>, kids: seq<Hash>)
    ensures ParentsAdded(d, multiset(kids), Bumped(d, kids))
    decreases |kids|
  {
    if kids != [] {
      var front := kids[..|kids| - 1];
      BumpedAddsParents(d, front);
      assert kids == front + [kids[|kids| - 1]];
      AddParentStep(d, multiset(front), Bumped(d, front), kids[|kids| - 1]);
    }
  }

  /** insert's loop: `c.parents++` for every child that is dirty. */
  method AddParents(d: map<Hash, CachedNode>, kids: seq<Hash>) returns (r: map<Hash, CachedNode>)
    ensures r == Bumped(d, kids)
  {
    r := d;
    var i := 0;
    while i < |kids|
      invariant i <= |kids| && r == Bumped(d, kids[..i])
    {
      var c := kids[i];
      assert kids[..i + 1][..i] == kids[..i];
      if c in r {
        r := r[c := AddedParents(r[c], 1)];
      }
      i := i + 1;
    }
    assert kids[..i] == kids;
  }

  /** One more increment under wrap-around is one more in the unwrapped count. */
  lemma ParentStep(p: nat, m: nat)
    ensures ((p + m) % Uint32Range + 1) % Uint32Range == (p + m + 1) % Uint32Range
  {
  }

  // ---------------------------------------------------------------------------
  // reference

  /**
   * Whether reference leaves everything alone: the child is not dirty (it
   * came from disk), or the parent already counts it and is not the
   * meta-root, the one parent whose references are duplicated.
   */
  predicate ReferenceSkips(d: map<Hash, CachedNode>, child: Hash, parent: Hash)
    requires child in d ==> parent in d
  {
    child !in d || (d[parent].children.Some? && child in d[parent].children.value && parent != ZeroHash)
  }

  /**
   * reference on the dirty map and childrenSize. When it does not skip, a
   * nil children map of the parent is created first (48 bytes); the child
   * has one more parent (uint32); the parent's counter for the child is one
   * more (uint16) and no other counter changes; a counter that reaches one
   * costs HashLength + 2 bytes; no other entry and no flush link changes.
   */
  function Referenced(d: map<Hash, CachedNode>, size: int, child: Hash, parent: Hash): (r: (map<Hash, CachedNode>, int))
    requires child in d ==> parent in d
    ensures r.0.Keys == d.Keys
    ensures forall k :: k in d ==> SameButReferences(r.0[k], d[k])
    ensures ReferenceSkips(d, child, parent) ==> r == (d, size)
    ensures !ReferenceSkips(d, child, parent) ==>
      var count := (ChildCount(d[parent], child) + 1) % Uint16Range;
      && r.0[child].parents == (d[child].parents + 1) % Uint32Range
      && r.0[parent].children.Some?
      && ChildCount(r.0[parent], child) == count
      && (forall k :: k != child ==> ChildCount(r.0[parent], k) == ChildCount(d[parent], k))
      && ChildKeys(r.0[parent]) == ChildKeys(d[parent]) + {child}
      && (forall k :: k in d && k != child && k != parent ==> r.0[k] == d[k])
      && (child != parent ==> r.0[parent].parents == d[parent].parents && r.0[child].children == d[child].children)
      && r.1 == size + (if d[parent].children.None? then CachedNodeChildrenSize else 0)
                     + (if count == 1 then ChildEntrySize else 0)
  {
    if ReferenceSkips(d, child, parent) then (d, size)
    else
      var created := d[parent].children.None?;
      var d1 := if created then d[parent := d[parent].(children := Some(map[]))] else d;
      var d2 := d1[child := d1[child].(parents := (d1[child].parents + 1) % Uint32Range)];
      var m := d2[parent].children.value;
      var count := ((if child in m then m[child] else 0) + 1) % Uint16Range;
      var size' := (if created then size + CachedNodeChildrenSize else size) + (if count == 1 then ChildEntrySize else 0);
      (d2[parent := d2[parent].(children := Some(m[child := count]))], size')
  }

  /** Two entries that differ at most in their parent count and children map. */
  predicate SameButReferences(c: CachedNode, c': CachedNode) {
    c == c'.(parents := c.parents, children := c.children)
  }

  /** The steps of reference, on the dirty map and childrenSize. */
  method ReferenceIn(d: map<Hash, CachedNode>, size: int, child: Hash, parent: Hash) returns (d': map<Hash, CachedNode>, size': int)
    requires child in d ==> parent in d
    ensures (d', size') == Referenced(d, size, child, parent)
  {
    d', size' := d, size;
    if child !in d' {
      return;
    }
    if d'[parent].children.None? {
      d' := d'[parent := d'[parent].(children := Some(map[]))];
      size' := size' + CachedNodeChildrenSize;
    } else if child in d'[parent].children.value && parent != ZeroHash {
      return;
    }
    d' := d'[child := d'[child].(parents := (d'[child].parents + 1) % Uint32Range)];
    var m := d'[parent].children.value;
    var count := ((if child in m then m[child] else 0) + 1) % Uint16Range;
    d' := d'[parent := d'[parent].(children := Some(m[child := count]))];
    if count == 1 {
      size' := size' + ChildEntrySize;
    }
  }

  /** reference keeps the flush list and the dirty-key invariant: no key and no link changes. */
  lemma ReferencedKeepsList(d: map<Hash, CachedNode>, size: int, child: Hash, parent: Hash,
                            oldest: Hash, newest: Hash, order: seq<Hash>)
    requires child in d ==> parent in d
    requires FlushList(d, oldest, newest, order) && Tracked(d, order, {})
    ensures FlushList(Referenced(d, size, child, parent).0, oldest, newest, order)
    ensures Tracked(Referenced(d, size, child, parent).0, order, {})
  {
    KeepLinks(d, Referenced(d, size, child, parent).0, oldest, newest, order, {});
  }

  // ---------------------------------------------------------------------------
  // dereference

  /**
   * The first step of dereference, on the parent's entry: a positive counter
   * for the child drops by one, and once it reaches zero the entry leaves
   * the map, giving back its HashLength + 2 bytes of childrenSize. A nil map
   * or a zero counter is left alone.
   */
  function Unreferenced(d: map<Hash, CachedNode>, size: int, child: Hash, parent: Hash): (r: (map<Hash, CachedNode>, int))
    requires parent in d
    ensures r.0.Keys == d.Keys
    ensures forall k :: k in d && k != parent ==> r.0[k] == d[k]
    ensures SameButReferences(r.0[parent], d[parent]) && r.0[parent].parents == d[parent].parents
    ensures r.0[parent].children.Some? == d[parent].children.Some?
    ensures ChildCount(r.0[parent], child) == if ChildCount(d[parent], child) > 0 then ChildCount(d[parent], child) - 1 else 0
    ensures forall k :: k != child ==> ChildCount(r.0[parent], k) == ChildCount(d[parent], k)
    ensures ChildKeys(r.0[parent]) == if ChildCount(d[parent], child) == 1 then ChildKeys(d[parent]) - {child} else ChildKeys(d[parent])
    ensures r.1 == size - (if ChildCount(d[parent], child) == 1 then ChildEntrySize else 0)
  {
    var p := d[parent];
    if p.children.Some? && ChildCount(p, child) > 0 then
      var m := p.children.value;
      if m[child] == 1 then (d[parent := p.(children := Some(m - {child}))], size - ChildEntrySize)
      else (d[parent := p.(children := Some(m[child := m[child] - 1]))], size)
    else (d, size)
  }

  /** The invariants dereference keeps: the flush list, the dirty keys and acyclicity. */
  ghost predicate Whole(d: map<Hash, CachedNode>, oldest: Hash, newest: Hash, order: seq<Hash>,
                        zombies: set<Hash>, height: Hash -> nat) {
    FlushList(d, oldest, newest, order) && Tracked(d, order, zombies) && Acyclic(d, height)
  }

  /**
   * What a dereference cascade that deletes nothing above height `bound`
   * does, from (d, order, dsize) to (d', order', dsize'): no key and no
   * childs() edge is added; the flush list loses exactly the deleted nodes
   * and keeps its order; every deleted node is no higher than `bound`; the
   * stored nodes and their sizes stay; an entry other than `parent` that is
   * the meta-root or higher than `bound` changes at most in its flush links;
   * and dirtiesSize loses exactly HashLength + size for each listed node
   * deleted.
   */
  ghost predicate Pruned(d: map<Hash, CachedNode>, order: seq<Hash>, height: Hash -> nat, bound: nat, parent: Hash, dsize: int,
                         d': map<Hash, CachedNode>, order': seq<Hash>, dsize': int) {
    && d'.Keys <= d.Keys && order' == Without(order, d.Keys - d'.Keys)
    && (forall k :: k in d' ==> ChildSet(d'[k]) <= ChildSet(d[k]))
    && (forall k :: k in d && k !in d' ==> height(k) <= bound)
    && (forall k :: k in d' ==> d'[k].node == d[k].node && d'[k].size == d[k].size)
    && (forall k :: k in d' && k != parent && (k == ZeroHash || height(k) > bound) ==> SameButLinks(d'[k], d[k]))
    && dsize' - Footprint(d', order') == dsize - Footprint(d, order)
  }

  lemma {:induction false} WithoutTwice(s: seq<Hash>, a: set<Hash>, b: set<Hash>)
    ensures Without(Without(s, a), b) == Without(s, a + b)
    decreases |s|
  {
    if s != [] {
      WithoutTwice(s[1..], a, b);
      var t := Without(s[1..], a);
      if s[0] in a {
        assert Without(s, a) == t;
      } else {
        assert Without(s, a) == [s[0]] + t;
        assert ([s[0]] + t)[1..] == t;
      }
    }
  }

  /** Dropping keys and childs() edges keeps the dirty nodes acyclic. */
  lemma FewerAcyclic(d: map<Hash, CachedNode>, d': map<Hash, CachedNode>, height: Hash -> nat)
    requires Acyclic(d, height) && d'.Keys <= d.Keys
    requires forall h :: h in d' ==> ChildSet(d'[h]) <= ChildSet(d[h])
    ensures Acyclic(d', height)
  {
    forall h, c | IsChild(d', h, c)
      ensures c != ZeroHash && (h != ZeroHash ==> height(c) < height(h))
    {
      assert IsChild(d, h, c);
    }
  }

  /** A cascade that has not yet done anything. */
  lemma PrunedNothing(d: map<Hash, CachedNode>, order: seq<Hash>, height: Hash -> nat, bound: nat, parent: Hash, dsize: int)
    ensures Pruned(d, order, height, bound, parent, dsize, d, order, dsize)
  {
    assert d.Keys - d.Keys == {};
    WithoutAbsent(order, {});
  }

  /**
   * The bookkeeping before a possible cascade, as one step: only the
   * parent's counter and the child's parent count change, and no edge is
   * added. The child sits at height `bound`, so only the parent changes
   * among the entries a cascade must leave alone.
   */
  lemma Adjusted(d: map<Hash, CachedNode>, d2: map<Hash, CachedNode>, oldest: Hash, newest: Hash, order: seq<Hash>,
                 zombies: set<Hash>, height: Hash -> nat, parent: Hash, child: Hash, dsize: int)
    requires Whole(d, oldest, newest, order, zombies, height)
    requires d2.Keys == d.Keys && child != ZeroHash
    requires forall k :: k in d ==> SameButReferences(d2[k], d[k]) && ChildSet(d2[k]) <= ChildSet(d[k])
    requires forall k :: k in d && k != parent && k != child ==> d2[k] == d[k]
    ensures Whole(d2, oldest, newest, order, zombies, height)
    ensures Pruned(d, order, height, height(child), parent, dsize, d2, order, dsize)
  {
    forall k | k in d
      ensures d2[k].flushPrev == d[k].flushPrev && d2[k].flushNext == d[k].flushNext
      ensures d2[k].node == d[k].node && d2[k].size == d[k].size
    {
      assert SameButReferences(d2[k], d[k]);
    }
    KeepLinks(d, d2, oldest, newest, order, zombies);
    FewerAcyclic(d, d2, height);
    assert d.Keys - d2.Keys == {};
    WithoutAbsent(order, {});
    FootprintSame(d, d2, order);
    forall k | k in d2 && k != parent && (k == ZeroHash || height(k) > height(child))
      ensures SameButLinks(d2[k], d[k])
    {
      assert d2[k] == d[k];
    }
  }

  /** Two cascades in a row, the second deleting nothing higher than the first allows, are one. */
  lemma PrunedTrans(d0: map<Hash, CachedNode>, order0: seq<Hash>, height: Hash -> nat, bound: nat, parent: Hash, s0: int,
                    d1: map<Hash, CachedNode>, order1: seq<Hash>, s1: int, bound2: nat, parent2: Hash,
                    d2: map<Hash, CachedNode>, order2: seq<Hash>, s2: int)
    requires Pruned(d0, order0, height, bound, parent, s0, d1, order1, s1)
    requires Pruned(d1, order1, height, bound2, parent2, s1, d2, order2, s2)
    requires bound2 <= bound && (parent2 == parent || parent2 !in d2)
    ensures Pruned(d0, order0, height, bound, parent, s0, d2, order2, s2)
  {
    WithoutMerge(order0, order1, order2, d0.Keys, d1.Keys, d2.Keys);
    forall k | k in d2 && k != parent && (k == ZeroHash || height(k) > bound)
      ensures SameButLinks(d2[k], d0[k])
    {
      assert SameButLinks(d2[k], d1[k]) && SameButLinks(d1[k], d0[k]);
    }
  }

  /** Removing what leaves k0 for k1, then what leaves k1 for k2, removes what leaves k0 for k2. */
  lemma WithoutMerge(s0: seq<Hash>, s1: seq<Hash>, s2: seq<Hash>, k0: set<Hash>, k1: set<Hash>, k2: set<Hash>)
    requires k2 <= k1 <= k0 && s1 == Without(s0, k0 - k1) && s2 == Without(s1, k1 - k2)
    ensures s2 == Without(s0, k0 - k2)
  {
    WithoutTwice(s0, k0 - k1, k1 - k2);
    assert (k0 - k1) + (k1 - k2) == k0 - k2;
  }

  /** Every node being released is higher than n. */
  ghost predicate Above(zombies: set<Hash>, height: Hash -> nat, n: nat) {
    forall z :: z in zombies ==> n < height(z)
  }

  lemma AboveMore(zombies: set<Hash>, height: Hash -> nat, n: nat, m: nat, z: Hash)
    requires Above(zombies, height, n) && m < n == height(z)
    ensures Above(zombies + {z}, height, m)
  {
  }

  /** An entry a cascade must leave alone survives it, changed at most in its links. */
  lemma Survives(d: map<Hash, CachedNode>, order: seq<Hash>, height: Hash -> nat, bound: nat, parent: Hash, dsize: int,
                 d': map<Hash, CachedNode>, order': seq<Hash>, dsize': int, k: Hash)
    requires Pruned(d, order, height, bound, parent, dsize, d', order', dsize')
    requires k in d && k != parent && (k == ZeroHash ==> k in d') && (k == ZeroHash || height(k) > bound)
    ensures k in d' && SameButLinks(d'[k], d[k])
  {
  }

  /** Deleting an entry that is outside the flush list and no longer a zombie keeps the list and the dirty keys whole. */
  lemma Drop(d: map<Hash, CachedNode>, oldest: Hash, newest: Hash, order: seq<Hash>, zombies: set<Hash>, z: Hash)
    requires FlushList(d, oldest, newest, order) && Tracked(d, order, zombies + {z}) && z !in zombies
    ensures FlushList(d - {z}, oldest, newest, order) && Tracked(d - {z}, order, zombies)
  {
    forall j | 0 <= j < |order| - 1
      ensures Linked(d - {z}, order, j)
    {
      assert Linked(d, order, j);
    }
  }

  lemma DropZombie(d: map<Hash, CachedNode>, oldest: Hash, newest: Hash, order: seq<Hash>, zombies: set<Hash>,
                   height: Hash -> nat, z: Hash)
    requires Whole(d, oldest, newest, order, zombies + {z}, height) && z !in zombies
    ensures Whole(d - {z}, oldest, newest, order, zombies, height)
  {
    Drop(d, oldest, newest, order, zombies, z);
    FewerAcyclic(d, d - {z}, height);
  }

  /**
   * The end of releasing a node: after its own unlinking (position i of the
   * list) and the cascade below it, deleting its entry and taking its
   * HashLength + size off dirtiesSize is one cascade from the state before.
   */
  lemma ReleaseDone(d: map<Hash, CachedNode>, order: seq<Hash>, height: Hash -> nat, child: Hash, dsize: int, i: nat,
                    d1: map<Hash, CachedNode>, dl: map<Hash, CachedNode>, orderl: seq<Hash>, dsizel: int)
    requires Distinct(order) && i < |order| && order[i] == child && child in d && LinksOnly(d, d1)
    requires Pruned(d1, order[..i] + order[i + 1..], height, height(child), child, dsize, dl, orderl, dsizel)
    requires child in dl && forall j :: 0 <= j < |orderl| ==> orderl[j] != child
    ensures Pruned(d, order, height, height(child), child, dsize, dl - {child}, orderl, dsizel - (HashLength + d[child].size))
  {
    var order1 := order[..i] + order[i + 1..];
    var dz := dl - {child};
    WithoutOne(order, i);
    WithoutTwice(order, {child}, d1.Keys - dl.Keys);
    assert {child} + (d1.Keys - dl.Keys) == d.Keys - dz.Keys;
    FootprintRemove(d, order, i);
    FootprintSame(d, d1, order1);
    FootprintSame(dl, dz, orderl);
    ReleaseFrame(d, order1, height, child, dsize, d1, dl, orderl, dsizel);
  }

  /** The per-node half of ReleaseDone: what the release leaves of each node. */
  lemma ReleaseFrame(d: map<Hash, CachedNode>, order1: seq<Hash>, height: Hash -> nat, child: Hash, dsize: int,
                     d1: map<Hash, CachedNode>, dl: map<Hash, CachedNode>, orderl: seq<Hash>, dsizel: int)
    requires child in d && LinksOnly(d, d1)
    requires Pruned(d1, order1, height, height(child), child, dsize, dl, orderl, dsizel)
    ensures forall k :: k in dl - {child} ==> ChildSet((dl - {child})[k]) <= ChildSet(d[k])
    ensures forall k :: k in dl - {child} ==> (dl - {child})[k].node == d[k].node && (dl - {child})[k].size == d[k].size
    ensures forall k :: k in dl - {child} && k != child && (k == ZeroHash || height(k) > height(child)) ==> SameButLinks((dl - {child})[k], d[k])
    ensures forall k :: k in d && k !in dl - {child} ==> height(k) <= height(child)
  {
    var dz := dl - {child};
    forall k | k in dz
      ensures ChildSet(dz[k]) <= ChildSet(d[k])
      ensures dz[k].node == d[k].node && dz[k].size == d[k].size
      ensures k != child && (k == ZeroHash || height(k) > height(child)) ==> SameButLinks(dz[k], d[k])
    {
      assert SameButLinks(d1[k], d[k]);
    }
    forall k | k in d && k !in dz
      ensures height(k) <= height(child)
    {
      if k != child {
        assert k !in dl;
      }
    }
  }

  // ---------------------------------------------------------------------------
  // The reference counts a dereference cascade leaves

  /**
   * The dereference calls on k that released nodes make: each listed node
   * that d holds and d' no longer does dereferences every entry of its
   * childs(), so it calls k once per time childs() names k.
   */
  ghost function Hits(d: map<Hash, CachedNode>, s: seq<Hash>, d': map<Hash, CachedNode>, k: Hash): nat {
    if s == [] then 0
    else (if s[0] in d && s[0] !in d' then Mult(d[s[0]], k) else 0) + Hits(d, s[1..], d', k)
  }

  /** All dereference calls on k in a cascade started by dereferencing `child`: that one, and the released nodes' calls. */
  ghost function Calls(d: map<Hash, CachedNode>, order: seq<Hash>, d': map<Hash, CachedNode>, child: Hash, k: Hash): nat {
    (if k == child then 1 else 0) + Hits(d, order, d', k)
  }

  /** A node that received n calls and survived: it had more parents than calls (or got none), and lost one per call. */
  predicate Spared(before: nat, after: nat, n: nat) {
    (n == 0 || n < before) && after == before - n
  }

  /** A node that received n calls and was deleted: it got at least one, and no fewer than it had parents. */
  predicate Released(before: nat, n: nat) {
    1 <= n && before <= n
  }

  /**
   * The reference counts after dereference(child, parent) from d to d':
   * every surviving node lost exactly one parent per call it received and
   * never reached zero on the way, every deleted node was called at least
   * as often as it had parents, and only the parent's children map changed
   * among the survivors. Under Acyclic this fixes which nodes are deleted
   * (Database.CountedDeletes).
   */
  ghost predicate Counted(d: map<Hash, CachedNode>, order: seq<Hash>, d': map<Hash, CachedNode>, parent: Hash, child: Hash) {
    && d'.Keys <= d.Keys
    && (forall k :: k in d' && k != parent ==> d'[k].children == d[k].children)
    && (forall k :: k in d' ==> Spared(d[k].parents, d'[k].parents, Calls(d, order, d', child, k)))
    && (forall k :: k in d && k !in d' ==> Released(d[k].parents, Calls(d, order, d', child, k)))
  }

  /**
   * Part way through the loop of a release: the calls so far are the
   * childs() entries `kids` already dereferenced from the released node,
   * plus the calls of the nodes released by them.
   */
  ghost predicate Partly(d1: map<Hash, CachedNode>, order1: seq<Hash>, d': map<Hash, CachedNode>, child: Hash, kids: seq<Hash>) {
    && d'.Keys <= d1.Keys
    && (forall k :: k in d' && k != child ==>
          && d'[k].children == d1[k].children
          && Spared(d1[k].parents, d'[k].parents, Occ(kids, k) + Hits(d1, order1, d', k)))
    && (forall k :: k in d1 && k !in d' ==> Released(d1[k].parents, Occ(kids, k) + Hits(d1, order1, d', k)))
  }

  lemma {:induction false} HitsConcat(d: map<Hash, CachedNode>, a: seq<Hash>, b: seq<Hash>, d': map<Hash, CachedNode>, k: Hash)
    ensures Hits(d, a + b, d', k) == Hits(d, a, d', k) + Hits(d, b, d', k)
    decreases |a|
  {
    if a == [] {
      assert a + b == b;
    } else {
      assert (a + b)[1..] == a[1..] + b;
      HitsConcat(d, a[1..], b, d', k);
    }
  }

  /** Two cascades that delete the same listed nodes, which report k equally often, make the same calls on k. */
  lemma {:induction false} HitsSame(d: map<Hash, CachedNode>, d': map<Hash, CachedNode>, e: map<Hash, CachedNode>, e': map<Hash, CachedNode>,
                                    s: seq<Hash>, k: Hash)
    requires forall i :: 0 <= i < |s| ==> (s[i] in d && s[i] !in d' <==> s[i] in e && s[i] !in e')
    requires forall i :: 0 <= i < |s| && s[i] in d && s[i] !in d' ==> Mult(d[s[i]], k) == Mult(e[s[i]], k)
    ensures Hits(d, s, d', k) == Hits(e, s, e', k)
    decreases |s|
  {
    if s != [] {
      assert s[0] == s[0 + 0];
      HitsSame(d, d', e, e', s[1..], k);
    }
  }

  /** A cascade that deletes nothing makes no calls. */
  lemma {:induction false} HitsNone(d: map<Hash, CachedNode>, s: seq<Hash>, d': map<Hash, CachedNode>, k: Hash)
    requires d.Keys <= d'.Keys
    ensures Hits(d, s, d', k) == 0
    decreases |s|
  {
    if s != [] {
      HitsNone(d, s[1..], d', k);
    }
  }

  /**
   * The calls of a later cascade (from dj to e, over the list dj still has)
   * add to those of the earlier one (from d1 to dj), as long as the nodes
   * the later one deletes report their children as they did in d1.
   */
  lemma {:induction false} HitsSplit(d1: map<Hash, CachedNode>, dj: map<Hash, CachedNode>, e: map<Hash, CachedNode>, s: seq<Hash>, k: Hash)
    requires e.Keys <= dj.Keys <= d1.Keys
    requires forall i :: 0 <= i < |s| && s[i] in dj ==> Mult(dj[s[i]], k) == Mult(d1[s[i]], k)
    ensures Hits(d1, s, e, k) == Hits(d1, s, dj, k) + Hits(dj, Without(s, d1.Keys - dj.Keys), e, k)
    decreases |s|
  {
    if s != [] {
      var p := s[0];
      assert p == s[0 + 0];
      HitsSplit(d1, dj, e, s[1..], k);
      var w := Without(s[1..], d1.Keys - dj.Keys);
      if p in d1.Keys - dj.Keys {
        assert Without(s, d1.Keys - dj.Keys) == w;
      } else {
        assert Without(s, d1.Keys - dj.Keys) == [p] + w;
        assert ([p] + w)[1..] == w;
      }
    }
  }

  /** Nothing is called before a release's loop starts. */
  lemma PartlyStart(d1: map<Hash, CachedNode>, order1: seq<Hash>, child: Hash)
    ensures Partly(d1, order1, d1, child, [])
  {
    forall k | k in d1
      ensures Hits(d1, order1, d1, k) == 0
    {
      HitsNone(d1, order1, d1, k);
    }
  }

  lemma SparedTrans(b1: nat, bj: nat, be: nat, n: nat, c: nat)
    requires Spared(b1, bj, n) && Spared(bj, be, c)
    ensures Spared(b1, be, n + c)
  {
  }

  lemma ReleasedAfter(b1: nat, bj: nat, n: nat, c: nat)
    requires Spared(b1, bj, n) && Released(bj, c)
    ensures Released(b1, n + c)
  {
  }

  /** The calls on k after one more child: the earlier ones plus that child's cascade. */
  lemma StepCount(d1: map<Hash, CachedNode>, order1: seq<Hash>, dj: map<Hash, CachedNode>, e: map<Hash, CachedNode>,
                  child: Hash, kids: seq<Hash>, kid: Hash, k: Hash)
    requires e.Keys <= dj.Keys <= d1.Keys
    requires forall p :: p in dj && p != child ==> dj[p].children == d1[p].children && dj[p].node == d1[p].node
    requires forall i :: 0 <= i < |order1| ==> order1[i] != child
    ensures Occ(kids + [kid], k) + Hits(d1, order1, e, k)
         == Occ(kids, k) + Hits(d1, order1, dj, k) + Calls(dj, Without(order1, d1.Keys - dj.Keys), e, kid, k)
  {
    OccConcat(kids, [kid], k);
    assert Occ([kid], k) == (if kid == k then 1 else 0) by {
      assert [kid][1..] == [];
    }
    forall i | 0 <= i < |order1| && order1[i] in dj
      ensures Mult(dj[order1[i]], k) == Mult(d1[order1[i]], k)
    {
      assert order1[i] != child;
    }
    HitsSplit(d1, dj, e, order1, k);
  }

  /** One more child dereferenced by a release: its cascade's calls join the running count. */
  lemma PartlyStep(d1: map<Hash, CachedNode>, order1: seq<Hash>, dj: map<Hash, CachedNode>, e: map<Hash, CachedNode>,
                   child: Hash, kids: seq<Hash>, kid: Hash)
    requires Partly(d1, order1, dj, child, kids) && child in e
    requires Counted(dj, Without(order1, d1.Keys - dj.Keys), e, child, kid)
    requires forall k :: k in dj ==> dj[k].node == d1[k].node
    requires forall i :: 0 <= i < |order1| ==> order1[i] != child
    ensures Partly(d1, order1, e, child, kids + [kid])
  {
    var w := Without(order1, d1.Keys - dj.Keys);
    forall k | k in e && k != child
      ensures e[k].children == d1[k].children
      ensures Spared(d1[k].parents, e[k].parents, Occ(kids + [kid], k) + Hits(d1, order1, e, k))
    {
      StepCount(d1, order1, dj, e, child, kids, kid, k);
      SparedTrans(d1[k].parents, dj[k].parents, e[k].parents, Occ(kids, k) + Hits(d1, order1, dj, k), Calls(dj, w, e, kid, k));
    }
    forall k | k in d1 && k !in e
      ensures Released(d1[k].parents, Occ(kids + [kid], k) + Hits(d1, order1, e, k))
    {
      StepCount(d1, order1, dj, e, child, kids, kid, k);
      if k in dj {
        ReleasedAfter(d1[k].parents, dj[k].parents, Occ(kids, k) + Hits(d1, order1, dj, k), Calls(dj, w, e, kid, k));
      }
    }
  }

  /**
   * The end of a release: after its childs() (`kids`, as often as childs()
   * names each) are all dereferenced, deleting the released node gives the
   * counts of one cascade from the state before its unlinking.
   */
  lemma ReleaseCounted(d: map<Hash, CachedNode>, order: seq<Hash>, i: nat, d1: map<Hash, CachedNode>, dl: map<Hash, CachedNode>,
                       child: Hash, kids: seq<Hash>)
    requires Distinct(order) && i < |order| && order[i] == child && child in d && d[child].parents == 0 && LinksOnly(d, d1)
    requires Partly(d1, order[..i] + order[i + 1..], dl, child, kids) && child in dl
    requires forall k :: Occ(kids, k) == Mult(d[child], k)
    ensures Counted(d, order, dl - {child}, child, child)
  {
    var order1 := order[..i] + order[i + 1..];
    var dz := dl - {child};
    forall j | 0 <= j < |order1|
      ensures order1[j] != child
    {
      if j < i {
        assert Differ(order, j, i);
      } else {
        assert order1[j] == order[j + 1] && Differ(order, i, j + 1);
      }
    }
    forall k
      ensures Hits(d, order, dz, k) == Mult(d[child], k) + Hits(d1, order1, dl, k)
    {
      assert order == order[..i] + ([child] + order[i + 1..]);
      HitsConcat(d, order[..i], [child] + order[i + 1..], dz, k);
      HitsConcat(d, [child], order[i + 1..], dz, k);
      HitsConcat(d, order[..i], order[i + 1..], dz, k);
      assert Hits(d, [child], dz, k) == Mult(d[child], k) by {
        assert [child][1..] == [];
      }
      forall j | 0 <= j < |order1| && order1[j] in d1 && order1[j] !in dl
        ensures Mult(d1[order1[j]], k) == Mult(d[order1[j]], k)
      {
        assert SameButLinks(d1[order1[j]], d[order1[j]]);
      }
      HitsSame(d1, dl, d, dz, order1, k);
    }
    forall k | k in dz
      ensures dz[k].children == d[k].children
      ensures Spared(d[k].parents, dz[k].parents, Calls(d, order, dz, child, k))
    {
      assert SameButLinks(d1[k], d[k]);
    }
    forall k | k in d && k !in dz
      ensures Released(d[k].parents, Calls(d, order, dz, child, k))
    {
      if k != child {
        assert SameButLinks(d1[k], d[k]);
      }
    }
  }

  /** A hash childs() reports at least once is among its children. */
  lemma {:induction false} OccIn(s: seq<Hash>, k: Hash)
    requires Occ(s, k) > 0
    ensures k in s
    decreases |s|
  {
    if s[0] != k {
      OccIn(s[1..], k);
    }
  }

  /** Cascades that delete the same nodes among those that report k make the same calls on k. */
  lemma {:induction false} HitsAgree(d: map<Hash, CachedNode>, s: seq<Hash>, d1: map<Hash, CachedNode>, d2: map<Hash, CachedNode>, k: Hash)
    requires forall i :: 0 <= i < |s| && s[i] in d && Mult(d[s[i]], k) > 0 ==> (s[i] in d1 <==> s[i] in d2)
    ensures Hits(d, s, d1, k) == Hits(d, s, d2, k)
    decreases |s|
  {
    if s != [] {
      assert s[0] == s[0 + 0];
      HitsAgree(d, s[1..], d1, d2, k);
    }
  }

  /** The dirty nodes higher than k. */
  ghost function Higher(d: map<Hash, CachedNode>, height: Hash -> nat, k: Hash): set<Hash> {
    set p | p in d && height(p) > height(k)
  }

  lemma FewerHigher(d: map<Hash, CachedNode>, height: Hash -> nat, k: Hash, p: Hash)
    requires p in d && height(k) < height(p)
    ensures |Higher(d, height, p)| < |Higher(d, height, k)|
  {
    var a, b := Higher(d, height, p), Higher(d, height, k);
    assert a <= b - {p} && p in b;
    assert |b - {p}| == |b| - 1;
    SubsetCard(a, b - {p});
  }

  lemma {:induction false} SubsetCard(a: set<Hash>, b: set<Hash>)
    requires a <= b
    ensures |a| <= |b|
    decreases |b|
  {
    if a != {} {
      var x :| x in a;
      SubsetCard(a - {x}, b - {x});
    }
  }

  /**
   * Counted leaves no freedom: on an acyclic map, two outcomes of the same
   * dereference that both keep the meta-root and satisfy it delete exactly
   * the same nodes, since the calls a node receives depend only on the fate
   * of the higher nodes, and surviving and being deleted exclude each other.
   */
  lemma CountedDeletes(d: map<Hash, CachedNode>, order: seq<Hash>, height: Hash -> nat, d1: map<Hash, CachedNode>, d2: map<Hash, CachedNode>,
                       parent: Hash, child: Hash, k: Hash)
    requires Acyclic(d, height) && Counted(d, order, d1, parent, child) && Counted(d, order, d2, parent, child)
    requires ZeroHash in d1 && ZeroHash in d2 && k in d
    ensures k in d1 <==> k in d2
    decreases |Higher(d, height, k)|
  {
    forall i | 0 <= i < |order| && order[i] in d && Mult(d[order[i]], k) > 0
      ensures order[i] in d1 <==> order[i] in d2
    {
      var p := order[i];
      if k !in ChildKeys(d[p]) {
        OccIn(Gathered(d[p].node), k);
      }
      assert IsChild(d, p, k);
      if p != ZeroHash {
        FewerHigher(d, height, k, p);
        CountedDeletes(d, order, height, d1, d2, parent, child, p);
      }
    }
    HitsAgree(d, order, d1, d2, k);
  }

  /** The counts of dereference when the child is released: the release's calls plus the first one. */
  lemma DerefCounted(d: map<Hash, CachedNode>, order: seq<Hash>, d2: map<Hash, CachedNode>, d': map<Hash, CachedNode>, parent: Hash, child: Hash)
    requires d2.Keys == d.Keys && child in d && d[child].parents <= 1
    requires forall k :: k in d && k != parent ==> d2[k].children == d[k].children && d2[k].node == d[k].node
    requires forall k :: k in d && k != child ==> d2[k].parents == d[k].parents
    requires Counted(d2, order, d', child, child) && parent in d' && child !in d'
    ensures Counted(d, order, d', parent, child)
    ensures FreedSum(d2, order, d') == FreedSum(d, order, d')
  {
    FreedSame(d2, d', d, d', order);
    forall k
      ensures Hits(d2, order, d', k) == Hits(d, order, d', k)
    {
      HitsSame(d2, d', d, d', order, k);
    }
  }

  /** The counts of dereference when the child survives (or is not dirty): one call, nothing deleted. */
  lemma NoCascade(d: map<Hash, CachedNode>, order: seq<Hash>, d': map<Hash, CachedNode>, parent: Hash, child: Hash)
    requires d'.Keys == d.Keys
    requires forall k :: k in d && k != parent ==> d'[k].children == d[k].children
    requires forall k :: k in d && k != child ==> d'[k].parents == d[k].parents
    requires child in d ==> 1 < d[child].parents && d'[child].parents == d[child].parents - 1
    ensures Counted(d, order, d', parent, child)
    ensures FreedSum(d, order, d') == 0
  {
    FreedNone(d, order, d');
    forall k
      ensures Hits(d, order, d', k) == 0
    {
      HitsNone(d, order, d', k);
    }
  }

  // ---------------------------------------------------------------------------
  // The childrenSize a dereference cascade gives back

  /**
   * An external-children map after dereference(k, ·) has run on it: a
   * positive counter drops by one, and an entry that reaches zero leaves.
   */
  function Dropped(m: map<Hash, Uint16>, k: Hash): map<Hash, Uint16> {
    if k in m && m[k] > 0 then (if m[k] == 1 then m - {k} else m[k := m[k] - 1]) else m
  }

  /** The map after dereference has run on it once for each hash of s, in turn. */
  function DroppedAll(m: map<Hash, Uint16>, s: seq<Hash>): map<Hash, Uint16>
    decreases |s|
  {
    if s == [] then m else Dropped(DroppedAll(m, s[..|s| - 1]), s[|s| - 1])
  }

  /** The entries such a run empties: a positive counter no larger than the calls on it. */
  ghost function Emptied(m: map<Hash, Uint16>, s: seq<Hash>): set<Hash> {
    set k | k in m && 1 <= m[k] <= Occ(s, k)
  }

  /** The entries of c's own map that its release empties, as childs() names each k Mult(c, k) times. */
  ghost function EmptiedBy(c: CachedNode): set<Hash> {
    if c.children.None? then {} else set k | k in c.children.value && 1 <= c.children.value[k] <= Mult(c, k)
  }

  /**
   * The childrenSize a release of c gives back: HashLength + 2 for each
   * entry its childs() empty, and the 48 bytes of the map itself.
   */
  ghost function Freed(c: CachedNode): int {
    if c.children.None? then 0 else CachedNodeChildrenSize + ChildEntrySize * |EmptiedBy(c)|
  }

  /** What the listed nodes that d holds and d' no longer does give back. */
  ghost function FreedSum(d: map<Hash, CachedNode>, s: seq<Hash>, d': map<Hash, CachedNode>): int {
    if s == [] then 0
    else (if s[0] in d && s[0] !in d' then Freed(d[s[0]]) else 0) + FreedSum(d, s[1..], d')
  }

  /** A run of dereferences leaves exactly the entries it did not empty, each less its calls. */
  lemma {:induction false} DroppedAllIs(m: map<Hash, Uint16>, s: seq<Hash>)
    ensures DroppedAll(m, s).Keys == m.Keys - Emptied(m, s)
    ensures forall k :: k in DroppedAll(m, s) ==> DroppedAll(m, s)[k] == if m[k] == 0 then 0 else m[k] - Occ(s, k)
    decreases |s|
  {
    if s != [] {
      var n := |s| - 1;
      DroppedAllIs(m, s[..n]);
      assert s == s[..n] + [s[n]];
      forall k
        ensures Occ(s, k) == Occ(s[..n], k) + (if s[n] == k then 1 else 0)
      {
        OccConcat(s[..n], [s[n]], k);
        assert [s[n]][1..] == [];
      }
    }
  }

  /** The childrenSize a release loop over c's childs() takes off c's own map, plus the map, is Freed(c). */
  lemma FreedOwn(c: CachedNode, kids: seq<Hash>)
    requires c.children.Some? && forall k :: Occ(kids, k) == Mult(c, k)
    ensures CachedNodeChildrenSize + ChildEntrySize * (|c.children.value| - |DroppedAll(c.children.value, kids)|) == Freed(c)
  {
    var m := c.children.value;
    DroppedAllIs(m, kids);
    assert Emptied(m, kids) == EmptiedBy(c);
    assert m.Keys == DroppedAll(m, kids).Keys + EmptiedBy(c);
    assert |m.Keys| == |DroppedAll(m, kids).Keys| + |EmptiedBy(c)|;
  }

  /** Entries with the same node and the same children map give back the same. */
  lemma FreedParts(a: CachedNode, b: CachedNode)
    requires a.children == b.children && a.node == b.node
    ensures Freed(a) == Freed(b)
  {
    forall k
      ensures Mult(a, k) == Mult(b, k)
    {
    }
    assert EmptiedBy(a) == EmptiedBy(b);
  }

  /** The first step of dereference on the parent's map is Dropped, and childrenSize follows its entry count. */
  lemma UnreferencedDrops(d: map<Hash, CachedNode>, size: int, child: Hash, parent: Hash)
    requires parent in d
    ensures var r := Unreferenced(d, size, child, parent);
      && r.0[parent].children == (if d[parent].children.Some? then Some(Dropped(d[parent].children.value, child)) else None)
      && size - r.1 == ChildEntrySize * (ChildrenLen(d[parent]) - ChildrenLen(r.0[parent]))
  {
    var p := d[parent];
    if p.children.Some? && ChildCount(p, child) == 1 {
      var m := p.children.value;
      assert (m - {child}).Keys == m.Keys - {child};
    }
  }

  lemma {:induction false} FreedConcat(d: map<Hash, CachedNode>, a: seq<Hash>, b: seq<Hash>, d': map<Hash, CachedNode>)
    ensures FreedSum(d, a + b, d') == FreedSum(d, a, d') + FreedSum(d, b, d')
    decreases |a|
  {
    if a == [] {
      assert a + b == b;
    } else {
      assert (a + b)[1..] == a[1..] + b;
      FreedConcat(d, a[1..], b, d');
    }
  }

  /** Two cascades that delete the same listed nodes, which give back equally, give back the same. */
  lemma {:induction false} FreedSame(d: map<Hash, CachedNode>, d': map<Hash, CachedNode>, e: map<Hash, CachedNode>, e': map<Hash, CachedNode>,
                                     s: seq<Hash>)
    requires forall i :: 0 <= i < |s| ==> (s[i] in d && s[i] !in d' <==> s[i] in e && s[i] !in e')
    requires forall i :: 0 <= i < |s| && s[i] in d && s[i] !in d' ==> d[s[i]].children == e[s[i]].children && d[s[i]].node == e[s[i]].node
    ensures FreedSum(d, s, d') == FreedSum(e, s, e')
    decreases |s|
  {
    if s != [] {
      assert s[0] == s[0 + 0];
      if s[0] in d && s[0] !in d' {
        FreedParts(d[s[0]], e[s[0]]);
      }
      FreedSame(d, d', e, e', s[1..]);
    }
  }

  /** A cascade that deletes nothing gives nothing back. */
  lemma {:induction false} FreedNone(d: map<Hash, CachedNode>, s: seq<Hash>, d': map<Hash, CachedNode>)
    requires d.Keys <= d'.Keys
    ensures FreedSum(d, s, d') == 0
    decreases |s|
  {
    if s != [] {
      FreedNone(d, s[1..], d');
    }
  }

  /** What a later cascade gives back adds to what the earlier one did. */
  lemma {:induction false} FreedSplit(d1: map<Hash, CachedNode>, dj: map<Hash, CachedNode>, e: map<Hash, CachedNode>, s: seq<Hash>)
    requires e.Keys <= dj.Keys <= d1.Keys
    requires forall i :: 0 <= i < |s| && s[i] in dj ==> dj[s[i]].children == d1[s[i]].children && dj[s[i]].node == d1[s[i]].node
    ensures FreedSum(d1, s, e) == FreedSum(d1, s, dj) + FreedSum(dj, Without(s, d1.Keys - dj.Keys), e)
    decreases |s|
  {
    if s != [] {
      var p := s[0];
      assert p == s[0 + 0];
      FreedSplit(d1, dj, e, s[1..]);
      var w := Without(s[1..], d1.Keys - dj.Keys);
      if p in d1.Keys - dj.Keys {
        assert Without(s, d1.Keys - dj.Keys) == w;
      } else {
        assert Without(s, d1.Keys - dj.Keys) == [p] + w;
        assert ([p] + w)[1..] == w;
        if p in dj && p !in e {
          FreedParts(dj[p], d1[p]);
        }
      }
    }
  }

  /**
   * Part way through the loop of a release: the released node's map has
   * had dereference run on it for each of `kids`, and childrenSize has
   * lost that map's emptied entries and what the nodes released so far
   * gave back.
   */
  ghost predicate Drained(d1: map<Hash, CachedNode>, order1: seq<Hash>, d': map<Hash, CachedNode>, child: Hash, kids: seq<Hash>,
                          csize: int, csize': int) {
    && child in d1 && child in d'
    && d'[child].children == (if d1[child].children.Some? then Some(DroppedAll(d1[child].children.value, kids)) else None)
    && csize' == csize - ChildEntrySize * (ChildrenLen(d1[child]) - ChildrenLen(d'[child])) - FreedSum(d1, order1, d')
  }

  /** Nothing is given back before a release's loop starts. */
  lemma DrainedStart(d1: map<Hash, CachedNode>, order1: seq<Hash>, child: Hash, csize: int)
    requires child in d1
    ensures Drained(d1, order1, d1, child, [], csize, csize)
  {
    FreedNone(d1, order1, d1);
  }

  /** One more child dereferenced by a release: its first step on the map and its cascade join the running account. */
  lemma DrainedStep(d1: map<Hash, CachedNode>, order1: seq<Hash>, dj: map<Hash, CachedNode>, e: map<Hash, CachedNode>,
                    child: Hash, done: seq<Hash>, kid: Hash, csize: int, cj: int, ce: int)
    requires Drained(d1, order1, dj, child, done, csize, cj)
    requires child in e && e.Keys <= dj.Keys <= d1.Keys
    requires forall p :: p in dj && p != child ==> dj[p].children == d1[p].children && dj[p].node == d1[p].node
    requires e[child].children == (if dj[child].children.Some? then Some(Dropped(dj[child].children.value, kid)) else None)
    requires ce == cj - ChildEntrySize * (ChildrenLen(dj[child]) - ChildrenLen(e[child])) - FreedSum(dj, Without(order1, d1.Keys - dj.Keys), e)
    requires forall i :: 0 <= i < |order1| ==> order1[i] != child
    ensures Drained(d1, order1, e, child, done + [kid], csize, ce)
  {
    assert (done + [kid])[..|done + [kid]| - 1] == done;
    forall i | 0 <= i < |order1| && order1[i] in dj
      ensures dj[order1[i]].children == d1[order1[i]].children && dj[order1[i]].node == d1[order1[i]].node
    {
      assert order1[i] != child;
    }
    FreedSplit(d1, dj, e, order1);
  }

  /** The first step of dereference(kid, parent) on the parent's map, in the terms of Drained. */
  lemma UnrefDrops(dj: map<Hash, CachedNode>, cj: int, kid: Hash, parent: Hash, e: map<Hash, CachedNode>, ce: int, rest: int)
    requires parent in dj && parent in e
    requires e[parent].children == Unreferenced(dj, cj, kid, parent).0[parent].children
    requires ce == Unreferenced(dj, cj, kid, parent).1 - rest
    ensures e[parent].children == (if dj[parent].children.Some? then Some(Dropped(dj[parent].children.value, kid)) else None)
    ensures ce == cj - ChildEntrySize * (ChildrenLen(dj[parent]) - ChildrenLen(e[parent])) - rest
  {
    UnreferencedDrops(dj, cj, kid, parent);
  }

  /**
   * The end of a release: its map's emptied entries, the map itself and
   * what the nodes it released gave back make one FreedSum from the state
   * before its unlinking.
   */
  lemma ReleaseFreed(d: map<Hash, CachedNode>, order: seq<Hash>, i: nat, d1: map<Hash, CachedNode>, dl: map<Hash, CachedNode>,
                     child: Hash, kids: seq<Hash>, csize: int, cl: int)
    requires Distinct(order) && i < |order| && order[i] == child && child in d && LinksOnly(d, d1)
    requires Drained(d1, order[..i] + order[i + 1..], dl, child, kids, csize, cl) && dl.Keys <= d1.Keys
    requires forall k :: Occ(kids, k) == Mult(d[child], k)
    ensures cl - (if d[child].children.Some? then CachedNodeChildrenSize else 0) == csize - FreedSum(d, order, dl - {child})
  {
    FreedRelease(d, order, i, d1, dl, child);
    assert SameButLinks(d1[child], d[child]);
    if d[child].children.Some? {
      FreedOwn(d[child], kids);
    }
  }

  /** What a release gives back over the whole flush list: its own Freed, and what its loop's cascades gave back. */
  lemma FreedRelease(d: map<Hash, CachedNode>, order: seq<Hash>, i: nat, d1: map<Hash, CachedNode>, dl: map<Hash, CachedNode>, child: Hash)
    requires Distinct(order) && i < |order| && order[i] == child && child in d && LinksOnly(d, d1) && dl.Keys <= d1.Keys
    ensures FreedSum(d, order, dl - {child}) == Freed(d[child]) + FreedSum(d1, order[..i] + order[i + 1..], dl)
  {
    var order1 := order[..i] + order[i + 1..];
    var dz := dl - {child};
    assert order == order[..i] + ([child] + order[i + 1..]);
    FreedConcat(d, order[..i], [child] + order[i + 1..], dz);
    FreedConcat(d, [child], order[i + 1..], dz);
    FreedConcat(d, order[..i], order[i + 1..], dz);
    assert FreedSum(d, [child], dz) == Freed(d[child]) by {
      assert [child][1..] == [];
    }
    forall j | 0 <= j < |order1|
      ensures order1[j] != child
      ensures order1[j] in d1 && order1[j] !in dl ==> d1[order1[j]].children == d[order1[j]].children && d1[order1[j]].node == d[order1[j]].node
    {
      if j < i {
        assert Differ(order, j, i);
      } else {
        assert order1[j] == order[j + 1] && Differ(order, i, j + 1);
      }
      if order1[j] in d1 {
        assert SameButLinks(d1[order1[j]], d[order1[j]]);
      }
    }
    FreedSame(d1, dl, d, dz, order1);
  }

  /**
   * dereference(child, parent) on the dirty map, the flush list and the two
   * sizes. The parent's counter drops (Unreferenced); a child that is not
   * dirty stops there; otherwise its parent count drops unless already
   * zero, and a count at zero releases the child. The parent is the
   * meta-root or a node being released, and `zombies` are the nodes being
   * released, all higher than the child.
   */
  method Deref(d: map<Hash, CachedNode>, oldest: Hash, newest: Hash, dsize: int, csize: int,
               ghost order: seq<Hash>, ghost zombies: set<Hash>, ghost height: Hash -> nat, child: Hash, parent: Hash)
    returns (d': map<Hash, CachedNode>, oldest': Hash, newest': Hash, dsize': int, csize': int, ghost order': seq<Hash>)
    requires Whole(d, oldest, newest, order, zombies, height)
    requires parent in d && (parent == ZeroHash || parent in zombies) && child != ZeroHash
    requires Above(zombies, height, height(child))
    ensures Whole(d', oldest', newest', order', zombies, height)
    ensures Pruned(d, order, height, height(child), parent, dsize, d', order', dsize')
    ensures parent in d' && SameButLinks(d'[parent], Unreferenced(d, csize, child, parent).0[parent])
    ensures child !in d ==>
      && (d', csize') == Unreferenced(d, csize, child, parent)
      && oldest' == oldest && newest' == newest && order' == order && dsize' == dsize
    ensures child in d && d[child].parents > 1 ==>
      && d' == Unreferenced(d, csize, child, parent).0[child := d[child].(parents := d[child].parents - 1)]
      && csize' == Unreferenced(d, csize, child, parent).1
      && oldest' == oldest && newest' == newest && order' == order && dsize' == dsize
    ensures child in d && d[child].parents <= 1 ==> child !in d'
    ensures Counted(d, order, d', parent, child)
    ensures csize' == Unreferenced(d, csize, child, parent).1 - FreedSum(d, order, d')
    decreases height(child), 2, 0
  {
    d', csize' := Unref(d, oldest, newest, dsize, csize, order, zombies, height, child, parent);
    oldest', newest', dsize', order' := oldest, newest, dsize, order;
    if child in d' && d'[child].parents == 0 {
      ghost var d2 := d';
      d', oldest', newest', dsize', csize', order' := Release(d', oldest', newest', dsize', csize', order', zombies, height, child);
      PrunedTrans(d, order, height, height(child), parent, dsize, d2, order, dsize, height(child), child, d', order', dsize');
      Survives(d2, order, height, height(child), child, dsize, d', order', dsize', parent);
      DerefCounted(d, order, d2, d', parent, child);
    } else {
      NoCascade(d, order, d', parent, child);
    }
  }

  /**
   * What Dereference(root) leaves of the dirty state: the flush list and
   * acyclicity kept; for the zero hash nothing changed; otherwise
   * dereference(root, meta-root) ran: nothing higher than the root is
   * deleted and the list and dirtiesSize lose exactly the deleted nodes
   * (Pruned), the meta-root's counter for the root drops, a root with
   * more than one parent only loses one, one with at most one is deleted,
   * the parent counts are Counted, and childrenSize loses the meta-root's
   * emptied entry and what every deleted node gives back (Freed).
   */
  ghost predicate Dereferenced(d: map<Hash, CachedNode>, oldest: Hash, newest: Hash, order: seq<Hash>, dsize: int, csize: int,
                               height: Hash -> nat, root: Hash,
                               d': map<Hash, CachedNode>, oldest': Hash, newest': Hash, order': seq<Hash>, dsize': int, csize': int)
    requires ZeroHash in d
  {
    && Listed(d', oldest', newest', order') && Acyclic(d', height)
    && (root == ZeroHash ==>
          d' == d && oldest' == oldest && newest' == newest && order' == order && dsize' == dsize && csize' == csize)
    && (root != ZeroHash ==>
          && Pruned(d, order, height, height(root), ZeroHash, dsize, d', order', dsize')
          && SameButLinks(d'[ZeroHash], Unreferenced(d, csize, root, ZeroHash).0[ZeroHash])
          && (root !in d ==>
                (d', csize') == Unreferenced(d, csize, root, ZeroHash) && oldest' == oldest && newest' == newest
                && order' == order && dsize' == dsize)
          && (root in d && d[root].parents > 1 ==>
                && d' == Unreferenced(d, csize, root, ZeroHash).0[root := d[root].(parents := d[root].parents - 1)]
                && oldest' == oldest && newest' == newest && order' == order && dsize' == dsize)
          && (root in d && d[root].parents <= 1 ==> root !in d')
          && Counted(d, order, d', ZeroHash, root)
          && csize' == Unreferenced(d, csize, root, ZeroHash).1 - FreedSum(d, order, d'))
  }

  /** Dereference(root) on the dirty state: the zero hash is ignored, any other root is dereferenced from the meta-root. */
  method DerefRoot(d: map<Hash, CachedNode>, oldest: Hash, newest: Hash, dsize: int, csize: int,
                   ghost order: seq<Hash>, ghost height: Hash -> nat, root: Hash)
    returns (d': map<Hash, CachedNode>, oldest': Hash, newest': Hash, dsize': int, csize': int, ghost order': seq<Hash>)
    requires Listed(d, oldest, newest, order) && Acyclic(d, height)
    ensures Dereferenced(d, oldest, newest, order, dsize, csize, height, root, d', oldest', newest', order', dsize', csize')
  {
    if root == ZeroHash {
      return d, oldest, newest, dsize, csize, order;
    }
    d', oldest', newest', dsize', csize', order' := Deref(d, oldest, newest, dsize, csize, order, {}, height, root, ZeroHash);
  }

  /** dereference up to the cascade: the parent's counter and the child's parent count drop. */
  method Unref(d: map<Hash, CachedNode>, oldest: Hash, newest: Hash, dsize: int, csize: int,
               ghost order: seq<Hash>, ghost zombies: set<Hash>, ghost height: Hash -> nat, child: Hash, parent: Hash)
    returns (d': map<Hash, CachedNode>, csize': int)
    requires Whole(d, oldest, newest, order, zombies, height)
    requires parent in d && (parent == ZeroHash || parent in zombies) && child != ZeroHash
    requires Above(zombies, height, height(child))
    ensures Whole(d', oldest, newest, order, zombies, height)
    ensures Pruned(d, order, height, height(child), parent, dsize, d', order, dsize)
    ensures parent in d' && d'[parent] == Unreferenced(d, csize, child, parent).0[parent]
    ensures csize' == Unreferenced(d, csize, child, parent).1
    ensures child !in d ==> d' == Unreferenced(d, csize, child, parent).0
    ensures child in d ==> child in d' && d'[child].parents == (if d[child].parents > 0 then d[child].parents - 1 else 0)
    ensures child in d && d[child].parents > 0 ==>
      d' == Unreferenced(d, csize, child, parent).0[child := d[child].(parents := d[child].parents - 1)]
    ensures d'.Keys == d.Keys
    ensures forall k :: k in d && k != parent ==> d'[k].children == d[k].children && d'[k].node == d[k].node
    ensures forall k :: k in d && k != child ==> d'[k].parents == d[k].parents
  {
    assert parent != child && (parent == ZeroHash || height(child) < height(parent));
    var u := Unreferenced(d, csize, child, parent);
    d', csize' := u.0, u.1;
    if child in d' && d'[child].parents > 0 {
      d' := d'[child := d'[child].(parents := d'[child].parents - 1)];
    }
    UnrefFrame(d, csize, child, parent, u, d');
    Adjusted(d, d', oldest, newest, order, zombies, height, parent, child, dsize);
  }

  /** What the two updates of Unref change: the parent's counter and the child's parent count. */
  lemma UnrefFrame(d: map<Hash, CachedNode>, csize: int, child: Hash, parent: Hash,
                   u: (map<Hash, CachedNode>, int), d': map<Hash, CachedNode>)
    requires parent in d && parent != child
    requires u == Unreferenced(d, csize, child, parent)
    requires d' == if child in u.0 && u.0[child].parents > 0 then u.0[child := u.0[child].(parents := u.0[child].parents - 1)] else u.0
    ensures parent in d' && d'[parent] == u.0[parent]
    ensures child !in d ==> d' == u.0
    ensures child in d ==> child in d' && d'[child].parents == (if d[child].parents > 0 then d[child].parents - 1 else 0)
    ensures child in d && d[child].parents > 0 ==> d' == u.0[child := d[child].(parents := d[child].parents - 1)]
    ensures d'.Keys == d.Keys
    ensures forall k :: k in d && k != parent ==> d'[k].children == d[k].children && d'[k].node == d[k].node
    ensures forall k :: k in d && k != child ==> d'[k].parents == d[k].parents
    ensures forall k :: k in d ==> SameButReferences(d'[k], d[k]) && ChildSet(d'[k]) <= ChildSet(d[k])
    ensures forall k :: k in d && k != parent && k != child ==> d'[k] == d[k]
  {
    forall k | k in d
      ensures SameButReferences(d'[k], d[k]) && ChildSet(d'[k]) <= ChildSet(d[k])
    {
      if k == parent {
        assert d'[k] == u.0[parent];
      }
    }
  }

  /**
   * The cascade of dereference once a dirty child has no parents left: it
   * leaves the flush list, each of its childs() is dereferenced in turn,
   * and its entry is deleted, taking HashLength + size off dirtiesSize and
   * the 48 bytes of a children map off childrenSize.
   */
  method Release(d: map<Hash, CachedNode>, oldest: Hash, newest: Hash, dsize: int, csize: int,
                 ghost order: seq<Hash>, ghost zombies: set<Hash>, ghost height: Hash -> nat, child: Hash)
    returns (d': map<Hash, CachedNode>, oldest': Hash, newest': Hash, dsize': int, csize': int, ghost order': seq<Hash>)
    requires Whole(d, oldest, newest, order, zombies, height)
    requires child in d && child != ZeroHash && child !in zombies && d[child].parents == 0
    requires Above(zombies, height, height(child))
    ensures Whole(d', oldest', newest', order', zombies, height)
    ensures Pruned(d, order, height, height(child), child, dsize, d', order', dsize')
    ensures child !in d'
    ensures Counted(d, order, d', child, child)
    ensures csize' == csize - FreedSum(d, order, d')
    decreases height(child), 1, 0
  {
    var node := d[child];
    ghost var i :| 0 <= i < |order| && order[i] == child;
    WithoutOne(order, i);
    var d1, o1, n1, order1 := Unlink(d, oldest, newest, order, zombies, child);
    FewerAcyclic(d, d1, height);
    var kids := Childs(node);
    assert Children(d1, child, kids) by {
      assert SameButLinks(d1[child], d[child]);
    }
    d', oldest', newest', dsize', csize', order' := DerefKids(d1, o1, n1, dsize, csize, order1, zombies, height, child, kids);
    ReleaseCounted(d, order, i, d1, d', child, kids);
    ReleaseFreed(d, order, i, d1, d', child, kids, csize, csize');
    ReleaseDone(d, order, height, child, dsize, i, d1, d', order', dsize');
    DropZombie(d', oldest', newest', order', zombies, height, child);
    d' := d' - {child};
    dsize' := dsize' - (HashLength + node.size);
    if node.children.Some? {
      csize' := csize' - CachedNodeChildrenSize;
    }
  }

  lemma TakeMore(s: seq<Hash>, j: nat)
    requires j < |s|
    ensures s[..j + 1] == s[..j] + [s[j]]
  {
  }

  /**
   * The loop of a release: each of the released node's childs() is
   * dereferenced in turn, with the released node as parent.
   */
  method DerefKids(d1: map<Hash, CachedNode>, oldest: Hash, newest: Hash, dsize: int, csize: int,
                   ghost order1: seq<Hash>, ghost zombies: set<Hash>, ghost height: Hash -> nat, child: Hash, kids: seq<Hash>)
    returns (d': map<Hash, CachedNode>, oldest': Hash, newest': Hash, dsize': int, csize': int, ghost order': seq<Hash>)
    requires Whole(d1, oldest, newest, order1, zombies + {child}, height)
    requires child in d1 && child != ZeroHash && child !in zombies && Children(d1, child, kids)
    requires Above(zombies, height, height(child))
    ensures child in d' && Whole(d', oldest', newest', order', zombies + {child}, height)
    ensures Pruned(d1, order1, height, height(child), child, dsize, d', order', dsize')
    ensures Partly(d1, order1, d', child, kids)
    ensures Drained(d1, order1, d', child, kids, csize, csize')
    decreases height(child), 0, 1
  {
    d', oldest', newest', dsize', csize', order' := d1, oldest, newest, dsize, csize, order1;
    PrunedNothing(d1, order1, height, height(child), child, dsize);
    PartlyStart(d1, order1, child);
    DrainedStart(d1, order1, child, csize);
    assert forall i :: 0 <= i < |order1| ==> order1[i] != child;
    ghost var done: seq<Hash> := [];
    var j := 0;
    while j < |kids|
      invariant 0 <= j <= |kids| && child in d' && done == kids[..j]
      invariant Whole(d', oldest', newest', order', zombies + {child}, height)
      invariant Pruned(d1, order1, height, height(child), child, dsize, d', order', dsize')
      invariant Partly(d1, order1, d', child, done)
      invariant Drained(d1, order1, d', child, done, csize, csize')
    {
      assert IsChild(d1, child, kids[j]);
      d', oldest', newest', dsize', csize', order' :=
        DerefKid(d', oldest', newest', dsize', csize', order', d1, order1, dsize, csize, zombies, height, child, done, kids[j]);
      TakeMore(kids, j);
      done := done + [kids[j]];
      j := j + 1;
    }
    assert kids[..j] == kids;
  }

  /** One turn of the loop of a release: dereference(kids[j], child). */
  method DerefKid(d: map<Hash, CachedNode>, oldest: Hash, newest: Hash, dsize: int, csize: int, ghost order: seq<Hash>,
                  ghost d1: map<Hash, CachedNode>, ghost order1: seq<Hash>, ghost dsize1: int, ghost csize1: int,
                  ghost zombies: set<Hash>, ghost height: Hash -> nat, child: Hash, ghost done: seq<Hash>, kid: Hash)
    returns (d': map<Hash, CachedNode>, oldest': Hash, newest': Hash, dsize': int, csize': int, ghost order': seq<Hash>)
    requires Acyclic(d1, height) && child in d1 && child != ZeroHash && child !in zombies && IsChild(d1, child, kid)
    requires Above(zombies, height, height(child)) && forall i :: 0 <= i < |order1| ==> order1[i] != child
    requires child in d && Whole(d, oldest, newest, order, zombies + {child}, height)
    requires Pruned(d1, order1, height, height(child), child, dsize1, d, order, dsize)
    requires Partly(d1, order1, d, child, done)
    requires Drained(d1, order1, d, child, done, csize1, csize)
    ensures child in d' && Whole(d', oldest', newest', order', zombies + {child}, height)
    ensures Pruned(d1, order1, height, height(child), child, dsize1, d', order', dsize')
    ensures Partly(d1, order1, d', child, done + [kid])
    ensures Drained(d1, order1, d', child, done + [kid], csize1, csize')
    decreases height(child), 0, 0
  {
    assert kid != ZeroHash && height(kid) < height(child);
    AboveMore(zombies, height, height(child), height(kid), child);
    d', oldest', newest', dsize', csize', order' := Deref(d, oldest, newest, dsize, csize, order, zombies + {child}, height, kid, child);
    PrunedTrans(d1, order1, height, height(child), child, dsize1, d, order, dsize, height(kid), child, d', order', dsize');
    PartlyStep(d1, order1, d, d', child, done, kid);
    UnrefDrops(d, csize, kid, child, d', csize', FreedSum(d, order, d'));
    DrainedStep(d1, order1, d, d', child, done, kid, csize1, csize, csize');
  }

  // ---------------------------------------------------------------------------
  // Lookups, size and integrity

  /** The errors of a lookup ("not found") and of a failed batch write. */
  datatype DbError = NotFound | WriteFailed

  /**
   * The memory use Size reports and Cap starts from: dirtiesSize and
   * childrenSize, 96 bytes of metadata per dirty node but the meta-root,
   * less the reference entries of the meta-root.
   */
  function TotalSize(d: map<Hash, CachedNode>, dsize: int, csize: int): int
    requires ZeroHash in d
  {
    dsize + csize + (|d| - 1) * CachedNodeSize - ChildrenLen(d[ZeroHash]) * ChildEntrySize
  }

  /** An element of ReachFirst comes from one of the first n children. */
  lemma {:induction false} ReachFirstHas(d: map<Hash, CachedNode>, height: Hash -> nat, h: Hash, cs: seq<Hash>, n: nat, x: Hash)
    requires Acyclic(d, height) && h != ZeroHash && Children(d, h, cs) && n <= |cs|
    ensures x in ReachFirst(d, height, h, cs, n) <==> exists i :: 0 <= i < n && x in Reach(d, height, cs[i])
  {
    if n > 0 {
      ReachFirstHas(d, height, h, cs, n - 1, x);
      if x in ReachFirst(d, height, h, cs, n) {
        if x !in Reach(d, height, cs[n - 1]) {
          var i :| 0 <= i < n - 1 && x in Reach(d, height, cs[i]);
        }
      } else {
        forall i | 0 <= i < n
          ensures x !in Reach(d, height, cs[i])
        {
          if i < n - 1 {
            assert !(exists i :: 0 <= i < n - 1 && x in Reach(d, height, cs[i]));
          }
        }
      }
    }
  }

  /** Accumulating over all of childs() reaches what Reach does below h. */
  lemma ReachFirstChilds(d: map<Hash, CachedNode>, height: Hash -> nat, h: Hash, kids: seq<Hash>)
    requires Acyclic(d, height) && h != ZeroHash && h in d
    requires forall x :: x in kids <==> x in ChildSet(d[h])
    ensures Children(d, h, kids)
    ensures {h} + ReachFirst(d, height, h, kids, |kids|) == Reach(d, height, h)
  {
    var all := Kids(d[h]);
    assert forall i :: 0 <= i < |kids| ==> kids[i] in kids;
    assert forall i :: 0 <= i < |all| ==> all[i] in all;
    forall x
      ensures x in ReachFirst(d, height, h, kids, |kids|) <==> x in ReachFirst(d, height, h, all, |all|)
    {
      ReachFirstHas(d, height, h, kids, |kids|, x);
      ReachFirstHas(d, height, h, all, |all|, x);
      if x in ReachFirst(d, height, h, kids, |kids|) {
        var i :| 0 <= i < |kids| && x in Reach(d, height, kids[i]);
        var k :| 0 <= k < |all| && all[k] == kids[i];
      }
      if x in ReachFirst(d, height, h, all, |all|) {
        var i :| 0 <= i < |all| && x in Reach(d, height, all[i]);
        var k :| 0 <= k < |kids| && kids[k] == all[i];
      }
    }
  }

  /**
   * accumulate's walk over the dirty map: add h when dirty, then recurse into
   * its childs() in order; the result is Reach added to what was reachable.
   */
  method AccumulateIn(d: map<Hash, CachedNode>, ghost height: Hash -> nat, hash: Hash, reachable: set<Hash>) returns (r: set<Hash>)
    requires Acyclic(d, height) && hash != ZeroHash
    ensures r == reachable + Reach(d, height, hash)
    decreases height(hash), 1
  {
    r := reachable;
    if hash in d {
      var kids := Childs(d[hash]);
      ReachFirstChilds(d, height, hash, kids);
      r := AccumulateKids(d, height, hash, kids, reachable + {hash});
      UnionRegroup(reachable, {hash}, ReachFirst(d, height, hash, kids, |kids|), Reach(d, height, hash));
    }
  }

  /** accumulate's loop over childs(): each child's walk joins in. */
  method AccumulateKids(d: map<Hash, CachedNode>, ghost height: Hash -> nat, ghost hash: Hash, kids: seq<Hash>, reachable: set<Hash>) returns (r: set<Hash>)
    requires Acyclic(d, height) && hash != ZeroHash && Children(d, hash, kids)
    ensures r == reachable + ReachFirst(d, height, hash, kids, |kids|)
    decreases height(hash), 0
  {
    r := reachable;
    var j := 0;
    while j < |kids|
      invariant 0 <= j <= |kids|
      invariant r == reachable + ReachFirst(d, height, hash, kids, j)
    {
      assert IsChild(d, hash, kids[j]);
      r := AccumulateIn(d, height, kids[j], r);
      UnionRegroup(reachable, ReachFirst(d, height, hash, kids, j), Reach(d, height, kids[j]), ReachFirst(d, height, hash, kids, j + 1));
      j := j + 1;
    }
  }

  /** Set union regrouped: a + b + c is a + e when b + c is e. */
  lemma UnionRegroup(a: set<Hash>, b: set<Hash>, c: set<Hash>, e: set<Hash>)
    requires b + c == e
    ensures a + b + c == a + e
  {
  }

  /** What accumulate reaches from the given external children of the meta-root. */
  ghost function RootsReach(d: map<Hash, CachedNode>, height: Hash -> nat, roots: set<Hash>): set<Hash>
    requires Acyclic(d, height) && forall c :: c in roots ==> IsChild(d, ZeroHash, c)
  {
    set c, x | c in roots && x in Reach(d, height, c) :: x
  }

  lemma RootsReachAdd(d: map<Hash, CachedNode>, height: Hash -> nat, roots: set<Hash>, c: Hash)
    requires Acyclic(d, height) && (forall r :: r in roots ==> IsChild(d, ZeroHash, r)) && IsChild(d, ZeroHash, c)
    ensures RootsReach(d, height, roots + {c}) == RootsReach(d, height, roots) + Reach(d, height, c)
  {
  }

  /** Every dirty node verifyIntegrity counts as reachable: the meta-root and all below its external children. */
  ghost function Reachable(d: map<Hash, CachedNode>, height: Hash -> nat): set<Hash>
    requires Acyclic(d, height) && ZeroHash in d
  {
    {ZeroHash} + RootsReach(d, height, ChildKeys(d[ZeroHash]))
  }

  // ---------------------------------------------------------------------------
  // Batches

  /** A write batch as the puts it holds, in order. */
  type Batch = seq<(Bytes, Bytes)>

  /** batch.ValueSize: the bytes of the values put so far. */
  function ValueSize(b: Batch): nat {
    if b == [] then 0 else ValueSize(b[..|b| - 1]) + |b[|b| - 1].1|
  }

  /** The disk after the puts of a batch, the later put of a key winning. */
  function Apply(disk: map<Bytes, Bytes>, b: Batch): map<Bytes, Bytes> {
    if b == [] then disk else Apply(disk, b[..|b| - 1])[b[|b| - 1].0 := b[|b| - 1].1]
  }

  /** secureKey: the preimage key of a hash. */
  function SecureKey(key: Bytes): (r: Bytes)
    ensures |r| == 11 + |key| && r[..11] == AsciiSecureKey && r[11..] == key
    ensures |key| == HashLength ==> |r| == SecureKeyLength
  {
    AsciiSecureKey + key
  }

  /** The puts of the listed dirty nodes under their hashes, each with cachedNode.rlp. */
  function NodePuts(d: map<Hash, CachedNode>, s: seq<Hash>): (b: Batch)
    ensures |b| <= |s|
  {
    if s == [] then []
    else NodePuts(d, s[..|s| - 1]) + (if s[|s| - 1] in d then [(s[|s| - 1].bytes, CachedRlp(d[s[|s| - 1]]))] else [])
  }

  /** The puts of the listed preimages under their secure keys. */
  function PreimagePuts(m: map<Hash, Bytes>, s: seq<Hash>): (b: Batch)
    ensures |b| <= |s|
  {
    if s == [] then []
    else PreimagePuts(m, s[..|s| - 1]) + (if s[|s| - 1] in m then [(SecureKey(s[|s| - 1].bytes), m[s[|s| - 1]])] else [])
  }

  lemma {:induction false} ApplyConcat(disk: map<Bytes, Bytes>, a: Batch, b: Batch)
    ensures Apply(disk, a + b) == Apply(Apply(disk, a), b)
    decreases |b|
  {
    if b == [] {
      assert a + b == a;
    } else {
      assert (a + b)[..|a + b| - 1] == a + b[..|b| - 1];
      ApplyConcat(disk, a, b[..|b| - 1]);
    }
  }

  // ---------------------------------------------------------------------------
  // Cap

  function Hashes(s: seq<Hash>): set<Hash> {
    set x | x in s
  }

  /** The bookkeeping of an external-children map: 48 bytes plus 34 per entry; none for a nil map. */
  function Overhead(c: CachedNode): nat {
    if c.children.Some? then CachedNodeChildrenSize + ChildrenLen(c) * ChildEntrySize else 0
  }

  /** What Cap takes off its running size for one flushed node. */
  function CapCost(c: CachedNode): nat {
    HashLength + c.size + CachedNodeSize + Overhead(c)
  }

  /** The sum of the children-map overheads of the listed dirty hashes. */
  ghost function Overheads(d: map<Hash, CachedNode>, s: seq<Hash>): int {
    if s == [] then 0
    else (if s[0] in d then Overhead(d[s[0]]) else 0) + Overheads(d, s[1..])
  }

  /** The sum of CapCost over the listed dirty hashes. */
  ghost function CapFootprint(d: map<Hash, CachedNode>, s: seq<Hash>): int {
    if s == [] then 0
    else (if s[0] in d then CapCost(d[s[0]]) else 0) + CapFootprint(d, s[1..])
  }

  /**
   * How many nodes Cap flushes: it walks the list from the oldest end while
   * the running size is above the limit and nodes remain.
   */
  ghost function Flushed(d: map<Hash, CachedNode>, order: seq<Hash>, size: int, limit: int): (n: nat)
    ensures n <= |order|
  {
    if order == [] || size <= limit then 0
    else 1 + Flushed(d, order[1..], size - (if order[0] in d then CapCost(d[order[0]]) else 0), limit)
  }

  /**
   * Cap flushes no more than it must: before each flushed node the running
   * size was still above the limit, and after the last one it is within the
   * limit unless the whole list went.
   */
  lemma {:induction false} FlushedStops(d: map<Hash, CachedNode>, order: seq<Hash>, size: int, limit: int)
    ensures var n := Flushed(d, order, size, limit);
            && (n == |order| || size - CapFootprint(d, order[..n]) <= limit)
            && (forall j :: 0 <= j < n ==> size - CapFootprint(d, order[..j]) > limit)
    decreases |order|
  {
    var n := Flushed(d, order, size, limit);
    if n > 0 {
      var cost := if order[0] in d then CapCost(d[order[0]]) else 0;
      FlushedStops(d, order[1..], size - cost, limit);
      forall j | 0 <= j <= n
        ensures j > 0 ==> CapFootprint(d, order[..j]) == cost + CapFootprint(d, order[1..][..j - 1])
      {
        if j > 0 {
          assert order[..j][1..] == order[1..][..j - 1];
        }
      }
      forall j | 0 <= j < n
        ensures size - CapFootprint(d, order[..j]) > limit
      {
        if j > 0 {
          assert j - 1 < n - 1;
        }
      }
    }
  }

  lemma {:induction false} CapFootprintSplit(d: map<Hash, CachedNode>, a: seq<Hash>, b: seq<Hash>)
    ensures CapFootprint(d, a + b) == CapFootprint(d, a) + CapFootprint(d, b)
    ensures Overheads(d, a + b) == Overheads(d, a) + Overheads(d, b)
    decreases |a|
  {
    if a != [] {
      assert (a + b)[1..] == a[1..] + b;
      CapFootprintSplit(d, a[1..], b);
    } else {
      assert a + b == b;
    }
  }

  /** Over dirty hashes, CapCost is HashLength + size, the children overhead and the 96 metadata bytes. */
  lemma {:induction false} CapFootprintParts(d: map<Hash, CachedNode>, s: seq<Hash>)
    requires forall i :: 0 <= i < |s| ==> s[i] in d
    ensures CapFootprint(d, s) == Footprint(d, s) + Overheads(d, s) + CachedNodeSize * |s|
    decreases |s|
  {
    if s != [] {
      assert forall i :: 0 <= i < |s[1..]| ==> s[1..][i] == s[i + 1];
      CapFootprintParts(d, s[1..]);
    }
  }

  /** Dropping the head entry of the flush list keeps the rest of it well formed. */
  lemma DropHead(d: map<Hash, CachedNode>, oldest: Hash, newest: Hash, order: seq<Hash>)
    requires FlushList(d, oldest, newest, order) && Tracked(d, order, {}) && order != []
    ensures FlushList(d - {order[0]}, d[order[0]].flushNext, newest, order[1..])
    ensures Tracked(d - {order[0]}, order[1..], {})
  {
    DropHeadList(d, oldest, newest, order);
    var d' := d - {order[0]};
    var o := order[1..];
    forall k | k in d'
      ensures k == ZeroHash || k in o
    {
      if k != ZeroHash {
        var j :| 0 <= j < |order| && order[j] == k;
        assert j > 0 && o[j - 1] == k;
      }
    }
  }

  /** The flush-list half of DropHead. */
  lemma DropHeadList(d: map<Hash, CachedNode>, oldest: Hash, newest: Hash, order: seq<Hash>)
    requires FlushList(d, oldest, newest, order) && order != []
    ensures FlushList(d - {order[0]}, d[order[0]].flushNext, newest, order[1..])
  {
    var h := order[0];
    var d' := d - {h};
    var o := order[1..];
    assert forall j :: 0 <= j < |o| ==> o[j] == order[j + 1] && Differ(order, 0, j + 1);
    if |order| > 1 {
      assert Linked(d, order, 0);
    }
    forall j | 0 <= j < |o| - 1
      ensures Linked(d', o, j)
    {
      assert Linked(d, order, j + 1);
    }
    DistinctSub(order, 1, |order|);
    assert order[1..|order|] == o;
  }

  /** A listed hash is not the one at a later position or, past the end, the zero hash. */
  lemma DistinctAt(order: seq<Hash>, j: nat, n: nat)
    requires Distinct(order) && j < n <= |order| && order[j] != ZeroHash
    ensures order[j] != (if n < |order| then order[n] else ZeroHash)
  {
    if n < |order| {
      assert Differ(order, j, n);
    }
  }

  /**
   * The clearing loop of Cap after a successful write: from the oldest end,
   * the n flushed entries leave the map, dirtiesSize loses their HashLength
   * + size and childrenSize their children overhead; the new oldest entry,
   * if any, gets a zero flushPrev.
   */
  method Trim(d: map<Hash, CachedNode>, oldest: Hash, newest: Hash, ghost order: seq<Hash>, dsize: int, csize: int,
              cursor: Hash, ghost n: nat)
    returns (d': map<Hash, CachedNode>, oldest': Hash, dsize': int, csize': int)
    requires FlushList(d, oldest, newest, order) && Tracked(d, order, {})
    requires n <= |order| && cursor == (if n < |order| then order[n] else ZeroHash)
    ensures oldest' == cursor
    ensures FlushList(d', oldest', newest, order[n..]) && Tracked(d', order[n..], {})
    ensures d'.Keys == d.Keys - Hashes(order[..n]) && |d'| == |d| - n
    ensures forall h :: h in d' && (h != cursor || cursor == ZeroHash) ==> d'[h] == d[h]
    ensures cursor != ZeroHash ==> d'[cursor] == d[cursor].(flushPrev := ZeroHash)
    ensures dsize' == dsize - Footprint(d, order[..n]) && csize' == csize - Overheads(d, order[..n])
  {
    d', oldest', dsize', csize' := d, oldest, dsize, csize;
    ghost var j := 0;
    TrimStart(d, oldest, newest, order, dsize, csize);
    if 0 < n {
      DistinctAt(order, 0, n);
    }
    while oldest' != cursor
      invariant j <= n && (j < n ==> oldest' != cursor)
      invariant Trimmed(d, newest, order, dsize, csize, j, d', oldest', dsize', csize')
      decreases n - j
    {
      var node := d'[oldest'];
      TrimStep(d, newest, order, dsize, csize, j, d', oldest', dsize', csize');
      d' := d' - {oldest'};
      dsize' := dsize' - (HashLength + node.size);
      csize' := csize' - Overhead(node);
      oldest' := node.flushNext;
      j := j + 1;
      if j < n {
        DistinctAt(order, j, n);
      }
    }
    TrimEnd(d, newest, order, dsize, csize, j, d', oldest', dsize', csize');
    if oldest' != ZeroHash {
      d' := d'[oldest' := d'[oldest'].(flushPrev := ZeroHash)];
    }
  }

  /** The last step of Trim: the new oldest entry, if any, gets a zero flushPrev. */
  lemma TrimEnd(d: map<Hash, CachedNode>, newest: Hash, order: seq<Hash>, dsize: int, csize: int, n: nat,
                d': map<Hash, CachedNode>, oldest': Hash, dsize': int, csize': int)
    requires Trimmed(d, newest, order, dsize, csize, n, d', oldest', dsize', csize')
    ensures var d2 := if oldest' != ZeroHash then d'[oldest' := d'[oldest'].(flushPrev := ZeroHash)] else d';
            && FlushList(d2, oldest', newest, order[n..]) && Tracked(d2, order[n..], {})
            && d2.Keys == d.Keys - Hashes(order[..n]) && |d2| == |d| - n
            && (forall h :: h in d2 && (h != oldest' || oldest' == ZeroHash) ==> d2[h] == d[h])
            && (oldest' != ZeroHash ==> d2[oldest'] == d[oldest'].(flushPrev := ZeroHash))
  {
    if oldest' != ZeroHash {
      ZeroHeadPrev(d', oldest', newest, order[n..]);
      var d2 := d'[oldest' := d'[oldest'].(flushPrev := ZeroHash)];
      assert d2.Keys == d'.Keys;
    }
  }

  /** The state of Trim after the first j flushed entries have gone. */
  ghost predicate Trimmed(d: map<Hash, CachedNode>, newest: Hash, order: seq<Hash>, dsize: int, csize: int, j: nat,
                          d': map<Hash, CachedNode>, oldest': Hash, dsize': int, csize': int) {
    && j <= |order| && Distinct(order)
    && oldest' == (if j < |order| then order[j] else ZeroHash)
    && FlushList(d', oldest', newest, order[j..]) && Tracked(d', order[j..], {})
    && d'.Keys == d.Keys - Hashes(order[..j]) && |d'| == |d| - j
    && (forall h :: h in d' ==> d'[h] == d[h])
    && dsize' == dsize - Footprint(d, order[..j]) && csize' == csize - Overheads(d, order[..j])
  }

  lemma TrimStart(d: map<Hash, CachedNode>, oldest: Hash, newest: Hash, order: seq<Hash>, dsize: int, csize: int)
    requires FlushList(d, oldest, newest, order) && Tracked(d, order, {})
    ensures Trimmed(d, newest, order, dsize, csize, 0, d, oldest, dsize, csize)
  {
    assert order[0..] == order && order[..0] == [];
  }

  lemma TrimStep(d: map<Hash, CachedNode>, newest: Hash, order: seq<Hash>, dsize: int, csize: int, j: nat,
                 d': map<Hash, CachedNode>, oldest': Hash, dsize': int, csize': int)
    requires Trimmed(d, newest, order, dsize, csize, j, d', oldest', dsize', csize') && j < |order|
    ensures oldest' in d'
    ensures var node := d'[oldest'];
            Trimmed(d, newest, order, dsize, csize, j + 1, d' - {oldest'}, node.flushNext,
                    dsize' - (HashLength + node.size), csize' - Overhead(node))
  {
    var node := d'[oldest'];
    DropHead(d', oldest', newest, order[j..]);
    assert order[j..][1..] == order[j + 1..];
    assert order[..j + 1] == order[..j] + [order[j]] && [order[j]][1..] == [];
    FootprintSplit(d, order[..j], [order[j]]);
    CapFootprintSplit(d, order[..j], [order[j]]);
    if j + 1 < |order| {
      assert Linked(d', order[j..], 0);
    }
  }

  /** The head's back link is free: zeroing it keeps the list and the map well formed. */
  lemma ZeroHeadPrev(d: map<Hash, CachedNode>, oldest: Hash, newest: Hash, order: seq<Hash>)
    requires FlushList(d, oldest, newest, order) && Tracked(d, order, {}) && order != []
    ensures FlushList(d[order[0] := d[order[0]].(flushPrev := ZeroHash)], oldest, newest, order)
    ensures Tracked(d[order[0] := d[order[0]].(flushPrev := ZeroHash)], order, {})
  {
    var d' := d[order[0] := d[order[0]].(flushPrev := ZeroHash)];
    forall j | 0 <= j < |order| - 1
      ensures Linked(d', order, j)
    {
      assert Linked(d, order, j) && Differ(order, 0, j + 1);
    }
  }

  /** The state of Cap's walk after n nodes: the running size and the cursor at position n. */
  ghost predicate Walked(d: map<Hash, CachedNode>, oldest: Hash, newest: Hash, order: seq<Hash>, size0: int, limit: int,
                         n: nat, size: int, cursor: Hash) {
    && FlushList(d, oldest, newest, order) && n <= |order|
    && cursor == (if n < |order| then order[n] else ZeroHash)
    && size == size0 - CapFootprint(d, order[..n])
    && n + Flushed(d, order[n..], size, limit) == Flushed(d, order, size0, limit)
  }

  lemma WalkStart(d: map<Hash, CachedNode>, oldest: Hash, newest: Hash, order: seq<Hash>, size0: int, limit: int)
    requires FlushList(d, oldest, newest, order)
    ensures Walked(d, oldest, newest, order, size0, limit, 0, size0, oldest)
  {
    assert order[..0] == [] && order[0..] == order;
  }

  /** One step of Cap's walk: the node under the cursor is put and paid for, and its flushNext is the next. */
  lemma WalkStep(d: map<Hash, CachedNode>, oldest: Hash, newest: Hash, order: seq<Hash>, size0: int, limit: int,
                 n: nat, size: int, cursor: Hash)
    requires Walked(d, oldest, newest, order, size0, limit, n, size, cursor) && size > limit && cursor != ZeroHash
    ensures n < |order| && cursor == order[n] && cursor in d
    ensures var node := d[cursor];
            && Walked(d, oldest, newest, order, size0, limit, n + 1, size - CapCost(node), node.flushNext)
            && NodePuts(d, order[..n + 1]) == NodePuts(d, order[..n]) + [(cursor.bytes, CachedRlp(node))]
  {
    assert order[..n + 1] == order[..n] + [order[n]] && [order[n]][1..] == [];
    assert order[..n + 1][..n] == order[..n];
    CapFootprintSplit(d, order[..n], [order[n]]);
    assert order[n..][1..] == order[n + 1..];
    if n + 1 < |order| {
      assert Linked(d, order, n);
    }
  }

  /** Where Cap's walk stops, it has gone through exactly Flushed nodes. */
  lemma WalkEnd(d: map<Hash, CachedNode>, oldest: Hash, newest: Hash, order: seq<Hash>, size0: int, limit: int,
                n: nat, size: int, cursor: Hash)
    requires Walked(d, oldest, newest, order, size0, limit, n, size, cursor) && !(size > limit && cursor != ZeroHash)
    ensures n == Flushed(d, order, size0, limit) && n <= |order|
    ensures cursor == (if n < |order| then order[n] else ZeroHash)
  {
  }

  /**
   * Cap's clearing on the dirty map and sizes, with the memory use it ends
   * at: the running size less what the flushed nodes cost.
   */
  method CapTrim(d: map<Hash, CachedNode>, oldest: Hash, newest: Hash, ghost order: seq<Hash>, dsize: int, csize: int,
                 cursor: Hash, ghost n: nat)
    returns (d': map<Hash, CachedNode>, oldest': Hash, dsize': int, csize': int)
    requires FlushList(d, oldest, newest, order) && Tracked(d, order, {})
    requires n <= |order| && cursor == (if n < |order| then order[n] else ZeroHash)
    ensures oldest' == cursor
    ensures FlushList(d', oldest', newest, order[n..]) && Tracked(d', order[n..], {})
    ensures d'.Keys == d.Keys - Hashes(order[..n])
    ensures forall h :: h in d' && (h != cursor || cursor == ZeroHash) ==> d'[h] == d[h]
    ensures cursor != ZeroHash ==> d'[cursor] == d[cursor].(flushPrev := ZeroHash)
    ensures dsize' == dsize - Footprint(d, order[..n]) && csize' == csize - Overheads(d, order[..n])
    ensures TotalSize(d', dsize', csize') == TotalSize(d, dsize, csize) - CapFootprint(d, order[..n])
  {
    d', oldest', dsize', csize' := Trim(d, oldest, newest, order, dsize, csize, cursor, n);
    CapFootprintParts(d, order[..n]);
    assert ZeroHash in d' && d'[ZeroHash] == d[ZeroHash];
  }

  /** batch.Write against the disk: all the puts land together, or (when the store fails) none does. */
  method Write(ghost base: map<Bytes, Bytes>, disk: map<Bytes, Bytes>, ghost written: Batch, b: Batch)
    returns (ok: bool, disk': map<Bytes, Bytes>, ghost written': Batch)
    requires disk == Apply(base, written)
    ensures disk' == Apply(base, written')
    ensures written' == (if ok then written + b else written)
  {
    ok := *;
    disk', written' := disk, written;
    if ok {
      ApplyConcat(base, written, b);
      disk', written' := Apply(disk, b), written + b;
    }
  }

  /**
   * batch.Put and the check after it: once the values in the batch reach
   * flushAt bytes it is written out and reset. (The node loops write at
   * IdealBatchSize, the preimage loops only above it, at IdealBatchSize + 1.)
   */
  method PutFlush(ghost base: map<Bytes, Bytes>, disk: map<Bytes, Bytes>, ghost written: Batch, batch: Batch,
                  put: (Bytes, Bytes), flushAt: nat)
    returns (ok: bool, batch': Batch, disk': map<Bytes, Bytes>, ghost written': Batch)
    requires disk == Apply(base, written)
    ensures disk' == Apply(base, written') && written <= written'
    ensures ValueSize(batch + [put]) < flushAt ==> ok && batch' == batch + [put] && written' == written
    ensures ValueSize(batch + [put]) >= flushAt && ok ==> batch' == [] && written' == written + (batch + [put])
    ensures ValueSize(batch + [put]) >= flushAt && !ok ==> written' == written
    ensures ok ==> written' + batch' == written + (batch + [put])
  {
    batch' := batch + [put];
    ok, disk', written' := true, disk, written;
    if ValueSize(batch') >= flushAt {
      ok, disk', written' := Write(base, disk, written, batch');
      if ok {
        batch' := [];
      }
    }
  }

  /** A put added to the pending batch extends what is written or pending by that put. */
  lemma PutMore(w: Batch, batch: Batch, all: Batch, put: (Bytes, Bytes))
    requires w + batch == all
    ensures w + (batch + [put]) == all + [put]
  {
  }

  lemma PreimagePutsStep(m: map<Hash, Bytes>, s: seq<Hash>, i: nat)
    requires i < |s| && s[i] in m
    ensures PreimagePuts(m, s[..i + 1]) == PreimagePuts(m, s[..i]) + [(SecureKey(s[i].bytes), m[s[i]])]
  {
    assert s[..i + 1][..i] == s[..i];
  }

  /** The members of a set listed once each, in an order left open (Go's map iteration order). */
  method ListHashes(s: set<Hash>) returns (r: seq<Hash>)
    ensures Distinct(r) && forall h :: h in r <==> h in s
  {
    r := [];
    var rest := s;
    while rest != {}
      invariant rest <= s
      invariant forall i :: 0 <= i < |r| ==> r[i] in s && r[i] !in rest
      invariant forall k :: k in s ==> k in rest || k in r
      invariant Distinct(r)
      decreases |rest|
    {
      var k :| k in rest;
      ghost var prior := r;
      r := r + [k];
      rest := rest - {k};
      forall a, b | 0 <= a < b < |r|
        ensures Differ(r, a, b)
      {
        if b < |prior| {
          assert Differ(prior, a, b);
        }
      }
    }
  }

  /**
   * The preimage loop of Cap and Commit: every preimage is put under its
   * secure key, in map order (hs), and the batch is written out whenever
   * its values pass IdealBatchSize; a failed write stops the loop.
   */
  method PutPreimages(preimages: map<Hash, Bytes>, ghost base: map<Bytes, Bytes>, disk: map<Bytes, Bytes>, ghost written: Batch)
    returns (ok: bool, batch: Batch, ghost hs: seq<Hash>, disk': map<Bytes, Bytes>, ghost written': Batch)
    requires disk == Apply(base, written)
    ensures disk' == Apply(base, written') && written <= written'
    ensures Distinct(hs) && forall i :: 0 <= i < |hs| ==> hs[i] in preimages
    ensures ok ==> (forall h :: h in preimages ==> h in hs) && written' + batch == written + PreimagePuts(preimages, hs)
  {
    batch, disk', written' := [], disk, written;
    var keys := ListHashes(preimages.Keys);
    hs := keys;
    var i := 0;
    while i < |keys|
      invariant i <= |keys|
      invariant disk' == Apply(base, written') && written <= written'
      invariant written' + batch == written + PreimagePuts(preimages, keys[..i])
    {
      var h := keys[i];
      var put := (SecureKey(h.bytes), preimages[h]);
      PreimagePutsStep(preimages, keys, i);
      PutMore(written', batch, written + PreimagePuts(preimages, keys[..i]), put);
      ok, batch, disk', written' := PutFlush(base, disk', written', batch, put, IdealBatchSize + 1);
      if !ok {
        return;
      }
      i := i + 1;
    }
    assert keys[..i] == keys;
    ok := true;
  }

  /**
   * The walk of Cap: from the oldest end, while the running size is above
   * the limit and nodes remain, each node is put under its hash, the batch
   * written whenever its values reach IdealBatchSize, and the node's
   * CapCost taken off the size. The dirty map is only read.
   */
  method FlushWalk(d: map<Hash, CachedNode>, oldest: Hash, newest: Hash, ghost order: seq<Hash>, limit: int, size0: int,
                   batch0: Batch, ghost base: map<Bytes, Bytes>, disk: map<Bytes, Bytes>, ghost written: Batch)
    returns (ok: bool, batch: Batch, cursor: Hash, ghost n: nat, disk': map<Bytes, Bytes>, ghost written': Batch)
    requires FlushList(d, oldest, newest, order) && disk == Apply(base, written)
    ensures disk' == Apply(base, written') && written <= written'
    ensures ok ==> n == Flushed(d, order, size0, limit)
    ensures ok ==> n <= |order| && cursor == (if n < |order| then order[n] else ZeroHash)
    ensures ok ==> written' + batch == written + batch0 + NodePuts(d, order[..n])
  {
    batch, cursor, n, disk', written' := batch0, oldest, 0, disk, written;
    var size := size0;
    WalkStart(d, oldest, newest, order, size0, limit);
    assert order[..0] == [];
    while size > limit && cursor != ZeroHash
      invariant disk' == Apply(base, written') && written <= written'
      invariant Walked(d, oldest, newest, order, size0, limit, n, size, cursor)
      invariant written' + batch == written + batch0 + NodePuts(d, order[..n])
      decreases |order| - n
    {
      WalkStep(d, oldest, newest, order, size0, limit, n, size, cursor);
      var node := d[cursor];
      PutMore(written', batch, written + batch0 + NodePuts(d, order[..n]), (cursor.bytes, CachedRlp(node)));
      ok, batch, disk', written' := PutFlush(base, disk', written', batch, (cursor.bytes, CachedRlp(node)), IdealBatchSize);
      if !ok {
        return;
      }
      size := size - CapCost(node);
      cursor := node.flushNext;
      n := n + 1;
    }
    WalkEnd(d, oldest, newest, order, size0, limit, n, size, cursor);
    ok := true;
  }

  /**
   * The writing half of Cap: the preimages when asked, then the walk, then
   * the final write of whatever the batch still holds. It stops at the
   * first failed write.
   */
  method CapWrite(d: map<Hash, CachedNode>, oldest: Hash, newest: Hash, ghost order: seq<Hash>, preimages: map<Hash, Bytes>,
                  flushPreimages: bool, size: int, limit: int, ghost base: map<Bytes, Bytes>, disk: map<Bytes, Bytes>,
                  ghost written: Batch)
    returns (ok: bool, ghost hs: seq<Hash>, ghost n: nat, cursor: Hash, disk': map<Bytes, Bytes>, ghost written': Batch)
    requires FlushList(d, oldest, newest, order) && disk == Apply(base, written)
    ensures disk' == Apply(base, written') && written <= written'
    ensures ok ==> n == Flushed(d, order, size, limit) && n <= |order| && cursor == (if n < |order| then order[n] else ZeroHash)
    ensures ok ==> written' == written + PreimagePuts(preimages, hs) + NodePuts(d, order[..n])
    ensures flushPreimages ==> Distinct(hs) && (ok ==> forall h :: h in hs <==> h in preimages)
    ensures !flushPreimages ==> hs == []
  {
    var batch: Batch := [];
    hs, n, cursor, disk', written' := [], 0, ZeroHash, disk, written;
    if flushPreimages {
      ok, batch, hs, disk', written' := PutPreimages(preimages, base, disk, written);
      if !ok {
        return;
      }
    }
    ghost var w1 := written';
    ok, batch, cursor, n, disk', written' := FlushWalk(d, oldest, newest, order, limit, size, batch, base, disk', written');
    if !ok {
      return;
    }
    ghost var w2 := written';
    ok, disk', written' := Write(base, disk', written', batch);
    if ok {
      assert written' == w2 + batch;
    }
  }

  /**
   * Cap on the database's fields. A failed write gives the error with the
   * dirty cache and the preimages as they were (earlier batches may have
   * reached the disk). On success the preimages were put first when they
   * took more than 4 MiB, then the first n listed nodes, n being as few as
   * bring the memory use within the limit (Flushed); those n entries and,
   * if flushed, the preimages are gone.
   */
  method CapIn(d: map<Hash, CachedNode>, oldest: Hash, newest: Hash, ghost order: seq<Hash>, dsize: int, csize: int,
               preimages: map<Hash, Bytes>, psize: int, ghost base: map<Bytes, Bytes>, disk: map<Bytes, Bytes>,
               ghost written: Batch, limit: int)
    returns (err: Option<DbError>, ghost hs: seq<Hash>, ghost n: nat,
             d': map<Hash, CachedNode>, oldest': Hash, ghost order': seq<Hash>, dsize': int, csize': int,
             preimages': map<Hash, Bytes>, psize': int, disk': map<Bytes, Bytes>, ghost written': Batch)
    requires Listed(d, oldest, newest, order) && disk == Apply(base, written)
    ensures Listed(d', oldest', newest, order')
    ensures disk' == Apply(base, written') && written <= written'
    ensures err.Some? ==>
      && err == Some(WriteFailed) && d' == d && oldest' == oldest && order' == order && dsize' == dsize && csize' == csize
      && preimages' == preimages && psize' == psize
    ensures err.None? ==>
      && n == Flushed(d, order, TotalSize(d, dsize, csize), limit)
      && order' == order[n..]
      && d'.Keys == d.Keys - Hashes(order[..n])
      && (forall h :: h in d' && (h != oldest' || oldest' == ZeroHash) ==> d'[h] == d[h])
      && (oldest' != ZeroHash ==> d'[oldest'] == d[oldest'].(flushPrev := ZeroHash))
      && dsize' == dsize - Footprint(d, order[..n]) && csize' == csize - Overheads(d, order[..n])
      && written' == written + PreimagePuts(preimages, hs) + NodePuts(d, order[..n])
      && (order' == [] || TotalSize(d', dsize', csize') <= limit)
    ensures err.None? && psize > PreimageFlushSize ==>
      preimages' == map[] && psize' == 0 && Distinct(hs) && forall h :: h in hs <==> h in preimages
    ensures err.None? && psize <= PreimageFlushSize ==> preimages' == preimages && psize' == psize && hs == []
  {
    d', oldest', order', dsize', csize', preimages', psize' := d, oldest, order, dsize, csize, preimages, psize;
    var size := TotalSize(d, dsize, csize);
    var ok, cursor;
    ok, hs, n, cursor, disk', written' := CapWrite(d, oldest, newest, order, preimages, psize > PreimageFlushSize, size, limit,
                                                    base, disk, written);
    if !ok {
      return Some(WriteFailed), hs, n, d', oldest', order', dsize', csize', preimages', psize', disk', written';
    }
    if psize > PreimageFlushSize {
      preimages', psize' := map[], 0;
    }
    FlushedStops(d, order, size, limit);
    d', oldest', dsize', csize' := CapTrim(d, oldest, newest, order, dsize, csize, cursor, n);
    order' := order[n..];
    err := None;
  }
}
