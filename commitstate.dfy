/// The state of a commit in progress (trie/database.go, Commit and commit):
/// what has been put, written and replayed so far, as predicates over the
/// dirty state as values.
module CommitState {
  import opened Common
  import opened Cache
  import opened Database

  /** The clean cache once the nodes in gone have been replayed out of d0: each holds its cachedNode.rlp. */
  function Recached(c: Option<map<Hash, Bytes>>, d0: map<Hash, CachedNode>, gone: set<Hash>): (r: Option<map<Hash, Bytes>>)
    ensures r.Some? == c.Some?
    ensures c.Some? ==> r.value.Keys == c.value.Keys + (gone * d0.Keys)
    ensures c.Some? ==> forall k :: k in gone && k in d0 ==> r.value[k] == CachedRlp(d0[k])
    ensures c.Some? ==> forall k :: k in c.value && (k !in gone || k !in d0) ==> r.value[k] == c.value[k]
  {
    if c.None? then None
    else Some(map k | k in c.value.Keys + (gone * d0.Keys) :: if k in gone && k in d0 then CachedRlp(d0[k]) else c.value[k])
  }

  /**
   * Entry i of the put list is a dirty node of d0 other than the meta-root,
   * and every dirty child of it is listed before it (post-order).
   */
  ghost predicate PutAt(d0: map<Hash, CachedNode>, s: seq<Hash>, i: int) {
    && 0 <= i < |s| && s[i] in d0 && s[i] != ZeroHash
    && forall c :: IsChild(d0, s[i], c) && c in d0 ==> c in s[..i]
  }

  /** Every entry of the put list is as PutAt says. */
  ghost predicate PostOrder(d0: map<Hash, CachedNode>, s: seq<Hash>) {
    forall i :: 0 <= i < |s| ==> PutAt(d0, s, i)
  }

  /**
   * A commit begun on the dirty state d0 (list order0, dirtiesSize dsize0,
   * clean cache cleans0) has put the nodes w, whose batches have been
   * written and replayed, and then the nodes b, still in the batch. The
   * state is still a well-formed list over a tracked map; exactly the nodes
   * of w have left the map and the list, and were recached; the rest differ
   * from d0 in their links only; and dirtiesSize has dropped by exactly what
   * left the list.
   */
  ghost predicate Committing(d0: map<Hash, CachedNode>, order0: seq<Hash>, dsize0: int, cleans0: Option<map<Hash, Bytes>>,
                             height: Hash -> nat, d: map<Hash, CachedNode>, oldest: Hash, newest: Hash, order: seq<Hash>,
                             dsize: int, cleans: Option<map<Hash, Bytes>>, w: seq<Hash>, b: seq<Hash>)
  {
    && Listed(d, oldest, newest, order)
    && Acyclic(d0, height)
    && (forall h :: h in d0 ==> |h.bytes| == HashLength)
    && d.Keys <= d0.Keys && (forall k :: k in d ==> SameButLinks(d[k], d0[k]))
    && d0.Keys - d.Keys == Hashes(w)
    && order == Without(order0, Hashes(w))
    && PostOrder(d0, w + b)
    && dsize - Footprint(d, order) - Overheads(d, order) == dsize0 - Footprint(d0, order0) - Overheads(d0, order0)
    && cleans == Recached(cleans0, d0, Hashes(w))
  }

  /** The batch holds the puts of b, the disk has had the puts of w on top of written0. */
  ghost predicate Pending(d0: map<Hash, CachedNode>, base: map<Bytes, Bytes>, written0: Batch, w: seq<Hash>, b: seq<Hash>,
                          batch: Batch, disk: map<Bytes, Bytes>, written: Batch)
  {
    batch == NodePuts(d0, b) && written == written0 + NodePuts(d0, w) && disk == Apply(base, written)
  }

  /** A commit in progress together with its batch and disk. */
  ghost predicate Progress(d0: map<Hash, CachedNode>, order0: seq<Hash>, dsize0: int, cleans0: Option<map<Hash, Bytes>>,
                           height: Hash -> nat, base: map<Bytes, Bytes>, written0: Batch,
                           d: map<Hash, CachedNode>, oldest: Hash, newest: Hash, order: seq<Hash>, dsize: int,
                           cleans: Option<map<Hash, Bytes>>, batch: Batch, disk: map<Bytes, Bytes>, written: Batch,
                           w: seq<Hash>, b: seq<Hash>)
  {
    && Committing(d0, order0, dsize0, cleans0, height, d, oldest, newest, order, dsize, cleans, w, b)
    && Pending(d0, base, written0, w, b, batch, disk, written)
  }

  /** p' holds what p holds, and besides only hashes from r. */
  ghost predicate Within(p: seq<Hash>, p': seq<Hash>, r: set<Hash>) {
    Hashes(p) <= Hashes(p') <= Hashes(p) + r
  }

  /** Child k is listed in p if it is dirty. */
  ghost predicate DoneAt(d0: map<Hash, CachedNode>, kids: seq<Hash>, k: int, p: seq<Hash>) {
    0 <= k < |kids| && (kids[k] in d0 ==> kids[k] in p)
  }

  /** The dirty ones among the first j children are listed in p. */
  ghost predicate Done(d0: map<Hash, CachedNode>, kids: seq<Hash>, j: int, p: seq<Hash>) {
    forall k :: 0 <= k < j ==> DoneAt(d0, kids, k, p)
  }

  /**
   * The dirty state d (flush list order, dirtiesSize dsize, clean cache
   * cleans) is d0's after some of its nodes were committed: those left the
   * map and the list and were recached, the rest differ in their links only,
   * and dirtiesSize dropped by exactly what left the list.
   */
  ghost predicate Uncached(d0: map<Hash, CachedNode>, order0: seq<Hash>, dsize0: int, cleans0: Option<map<Hash, Bytes>>,
                           d: map<Hash, CachedNode>, order: seq<Hash>, dsize: int, cleans: Option<map<Hash, Bytes>>)
  {
    && d.Keys <= d0.Keys && (forall k :: k in d ==> SameButLinks(d[k], d0[k]))
    && order == Without(order0, d0.Keys - d.Keys)
    && cleans == Recached(cleans0, d0, d0.Keys - d.Keys)
    && dsize - Footprint(d, order) - Overheads(d, order) == dsize0 - Footprint(d0, order0) - Overheads(d0, order0)
  }

  /** Every node of d0 that is no longer in d is on disk with its cachedNode.rlp. */
  ghost predicate Persisted(d0: map<Hash, CachedNode>, d: map<Hash, CachedNode>, disk: map<Bytes, Bytes>) {
    forall h :: h in d0 && h !in d ==> h.bytes in disk && disk[h.bytes] == CachedRlp(d0[h])
  }

  /**
   * What a commit of root that got through has done: every preimage was
   * put, then exactly the dirty nodes root reaches, children before
   * parents; those left the dirty map, and the preimages were dropped.
   */
  ghost predicate Completed(d0: map<Hash, CachedNode>, height: Hash -> nat, root: Hash, preimages0: map<Hash, Bytes>,
                            written0: Batch, hs: seq<Hash>, s: seq<Hash>, d: map<Hash, CachedNode>,
                            preimages: map<Hash, Bytes>, psize: int, written: Batch)
  {
    && (forall h :: h in preimages0 ==> h in hs)
    && PostOrder(d0, s) && Hashes(s) == Reach(d0, height, root) && d.Keys == d0.Keys - Reach(d0, height, root)
    && written == written0 + PreimagePuts(preimages0, hs) + NodePuts(d0, s)
    && preimages == map[] && psize == 0
  }
}
