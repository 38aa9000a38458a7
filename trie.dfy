/// trie.Database: the memory database as an object whose fields the
/// operations update in place. Each method hands its fields to the
/// value-level operation of the Database or Commit module and stores the
/// results back.
module Trie {
  import opened Common
  import opened Cache
  import opened Ops = Database
  import opened Commit
  import opened CommitState
  import Nodes
  import RawNodes
  import Hasher

  class Database {
    /** Dirty nodes and their reference bookkeeping; the all-zero key is the meta-root. */
    var dirties: map<Hash, CachedNode>
    /** Flush-list head and tail. */
    var oldest: Hash
    var newest: Hash
    var preimages: map<Hash, Bytes>
    var dirtiesSize: int
    var childrenSize: int
    var preimagesSize: int
    /** The clean cache (bigcache), absent when the database was built without one. */
    var cleans: Option<map<Hash, Bytes>>
    /** The persistent key-value store. */
    var disk: map<Bytes, Bytes>
    /** The flush list, oldest first. */
    ghost var order: seq<Hash>
    /** Every put that reached the disk, in the order written, and the disk before the first. */
    ghost var written: Batch
    ghost var baseDisk: map<Bytes, Bytes>

    ghost predicate Valid()
      reads this
    {
      Listed(dirties, oldest, newest, order) && disk == Apply(baseDisk, written)
    }

    /** NewDatabaseWithCache: only the meta-root is dirty; a clean cache exists iff cache > 0. */
    constructor (diskdb: map<Bytes, Bytes>, cache: int)
      ensures Valid()
      ensures dirties == map[ZeroHash := MetaRoot] && order == []
      ensures oldest == ZeroHash && newest == ZeroHash
      ensures preimages == map[] && dirtiesSize == 0 && childrenSize == 0 && preimagesSize == 0
      ensures cleans == (if cache > 0 then Some(map[]) else None)
      ensures disk == diskdb && written == []
    {
      dirties := map[ZeroHash := MetaRoot];
      oldest := ZeroHash;
      newest := ZeroHash;
      preimages := map[];
      dirtiesSize := 0;
      childrenSize := 0;
      preimagesSize := 0;
      cleans := if cache > 0 then Some(map[]) else None;
      disk := diskdb;
      order := [];
      written := [];
      baseDisk := diskdb;
    }

    /**
     * insert: a hash already cached is left alone. A new entry holds the
     * stripped node (the blob itself for InsertBlob, which passes None),
     * size uint16(len(blob)), no parents and no external children; every
     * dirty child hash inside it gains a parent (once per occurrence,
     * uint32 wrap-around); the entry joins the flush-list tail, or starts
     * the list when it is empty; dirtiesSize grows by HashLength + size,
     * added without the uint16 wrap-around of the source's sum (see
     * Database.InsertedSizeAsWritten).
     */
    method Insert(hash: Hash, blob: Bytes, node: Option<Nodes.Node>)
      requires Valid() && |hash.bytes| == HashLength
      requires node.Some? ==> RawNodes.Simplifiable(node.value)
      modifies this`dirties, this`oldest, this`newest, this`order, this`dirtiesSize
      ensures Valid() && dirties.Keys == old(dirties).Keys + {hash}
      ensures hash in old(dirties) ==>
        && dirties == old(dirties) && order == old(order) && oldest == old(oldest) && newest == old(newest)
        && dirtiesSize == old(dirtiesSize)
      ensures hash !in old(dirties) ==>
        var entry := NewEntry(hash, blob, node, old(newest));
        && dirties == Append(Bumped(old(dirties), Gathered(entry.node)), old(oldest) == ZeroHash, old(newest), hash, entry)
        && order == old(order) + [hash]
        && oldest == (if old(oldest) == ZeroHash then hash else old(oldest)) && newest == hash
        && dirtiesSize == old(dirtiesSize) + HashLength + entry.size
      ensures dirtiesSize - Footprint(dirties, order) == old(dirtiesSize) - Footprint(old(dirties), old(order))
    {
      if hash !in dirties {
        InsertNew(hash, NewEntry(hash, blob, node, newest));
      }
    }

    /**
     * The db.insert calls of hash's store, applied in the order store made
     * them: afterwards exactly the keys cached before and the inserted keys
     * are dirty, and the size accounting is kept.
     */
    method InsertAll(inserts: seq<Hasher.Insertion>)
      requires Valid() && Hasher.AllInsertable(inserts)
      modifies this`dirties, this`oldest, this`newest, this`order, this`dirtiesSize
      ensures Valid()
      ensures dirties.Keys == old(dirties).Keys + Hasher.InsertedKeys(inserts)
      ensures dirtiesSize - Footprint(dirties, order) == old(dirtiesSize) - Footprint(old(dirties), old(order))
    {
      ghost var keys0 := dirties.Keys;
      ghost var slack := dirtiesSize - Footprint(dirties, order);
      var i := 0;
      while i < |inserts|
        invariant 0 <= i <= |inserts| && Valid()
        invariant dirties.Keys == keys0 + Hasher.InsertedKeys(inserts[..i])
        invariant dirtiesSize - Footprint(dirties, order) == slack
      {
        var ins := inserts[i];
        assert Hasher.Insertable(ins);
        Insert(ins.hash, ins.blob, Some(ins.node));
        Hasher.InsertedKeysSnoc(inserts, i);
        UnionRegroup(keys0, Hasher.InsertedKeys(inserts[..i]), {ins.hash}, Hasher.InsertedKeys(inserts[..i + 1]));
        i := i + 1;
      }
      assert inserts[..i] == inserts;
    }

    /** The path of insert that links a new entry in at the newest end of the flush list. */
    method InsertNew(hash: Hash, entry: CachedNode)
      requires Valid() && |hash.bytes| == HashLength && hash !in dirties
      requires entry.children == None && entry.flushPrev == newest && entry.flushNext == ZeroHash
      modifies this`dirties, this`oldest, this`newest, this`order, this`dirtiesSize
      ensures Valid()
      ensures dirties == Append(Bumped(old(dirties), Gathered(entry.node)), old(oldest) == ZeroHash, old(newest), hash, entry)
      ensures order == old(order) + [hash]
      ensures oldest == (if old(oldest) == ZeroHash then hash else old(oldest)) && newest == hash
      ensures dirtiesSize == old(dirtiesSize) + HashLength + entry.size
      ensures dirtiesSize - Footprint(dirties, order) == old(dirtiesSize) - Footprint(old(dirties), old(order))
    {
      var d, o, n := InsertEntry(dirties, oldest, newest, order, hash, entry);
      InsertFootprint(dirties, order, Gathered(entry.node), oldest == ZeroHash, newest, hash, entry);
      dirties, oldest, newest, order, dirtiesSize := d, o, n, order + [hash], dirtiesSize + HashLength + entry.size;
    }

    /** InsertBlob: insert with the blob standing for itself. */
    method InsertBlob(hash: Hash, blob: Bytes)
      requires Valid() && |hash.bytes| == HashLength
      modifies this`dirties, this`oldest, this`newest, this`order, this`dirtiesSize
      ensures Valid()
      ensures hash in old(dirties) ==> dirties == old(dirties) && order == old(order)
      ensures hash !in old(dirties) ==>
        && dirties == Append(old(dirties), old(oldest) == ZeroHash, old(newest), hash, NewEntry(hash, blob, None, old(newest)))
        && order == old(order) + [hash]
    {
      Insert(hash, blob, None);
    }

    /** insertPreimage: first write wins; preimagesSize grows by HashLength + the preimage's length. */
    method InsertPreimage(hash: Hash, preimage: Bytes)
      modifies this`preimages, this`preimagesSize
      ensures hash in old(preimages) ==> preimages == old(preimages) && preimagesSize == old(preimagesSize)
      ensures hash !in old(preimages) ==>
        preimages == old(preimages)[hash := preimage] && preimagesSize == old(preimagesSize) + HashLength + |preimage|
    {
      if hash in preimages {
        return;
      }
      preimages := preimages[hash := preimage];
      preimagesSize := preimagesSize + HashLength + |preimage|;
    }

    /** reference, on the fields it changes: the dirty map and childrenSize become Referenced of the old ones. */
    method Reference(child: Hash, parent: Hash)
      requires Valid()
      requires child in dirties ==> parent in dirties
      modifies this`dirties, this`childrenSize
      ensures Valid()
      ensures (dirties, childrenSize) == Referenced(old(dirties), old(childrenSize), child, parent)
    {
      ReferencedKeepsList(dirties, childrenSize, child, parent, oldest, newest, order);
      var d, size := ReferenceIn(dirties, childrenSize, child, parent);
      dirties, childrenSize := d, size;
    }

    /**
     * Dereference: the meta-root is never dereferenced; otherwise
     * dereference(root, meta-root) runs on the dirty map, the flush list
     * and both sizes (Dereferenced, via Deref). Nothing else changes.
     */
    method Dereference(root: Hash, ghost height: Hash -> nat)
      requires Valid() && Acyclic(dirties, height)
      modifies this`dirties, this`oldest, this`newest, this`order, this`dirtiesSize, this`childrenSize
      ensures Valid()
      ensures Dereferenced(old(dirties), old(oldest), old(newest), old(order), old(dirtiesSize), old(childrenSize), height, root,
                           dirties, oldest, newest, order, dirtiesSize, childrenSize)
    {
      var d, o, n, ds, cs, ord := DerefRoot(dirties, oldest, newest, dirtiesSize, childrenSize, order, height, root);
      dirties, oldest, newest, dirtiesSize, childrenSize, order := d, o, n, ds, cs, ord;
    }

    /**
     * cleaner.Put, replayed for a node put that reached the disk: a hash
     * that is not dirty (any more) is left alone; a dirty one leaves the
     * flush list and the dirty map, dirtiesSize loses its HashLength + size
     * and, as written, also the 48 + 34-per-entry overhead of a children map
     * (which Cap takes off childrenSize instead), and a clean cache, when
     * present, receives the blob.
     */
    method CleanerPut(key: Bytes, blob: Bytes)
      requires Valid() && BytesToHash(key) != ZeroHash
      modifies this`dirties, this`oldest, this`newest, this`order, this`dirtiesSize, this`cleans
      ensures Valid()
      ensures BytesToHash(key) !in old(dirties) ==>
        && dirties == old(dirties) && order == old(order) && oldest == old(oldest) && newest == old(newest)
        && dirtiesSize == old(dirtiesSize) && cleans == old(cleans)
      ensures BytesToHash(key) in old(dirties) ==>
        var hash := BytesToHash(key);
        var node := old(dirties)[hash];
        && dirties.Keys == old(dirties).Keys - {hash}
        && (forall k :: k in dirties ==> SameButLinks(dirties[k], old(dirties)[k]))
        && order == Without(old(order), {hash})
        && dirtiesSize == old(dirtiesSize) - (HashLength + node.size) - Overhead(node)
        && cleans == (if old(cleans).Some? then Some(old(cleans).value[hash := blob]) else None)
    {
      dirties, oldest, newest, order, dirtiesSize, cleans :=
        Clean(dirties, oldest, newest, order, dirtiesSize, cleans, key, blob);
    }

    /**
     * Cap: preimages go first when they take more than 4 MiB, then nodes
     * from the oldest end of the flush list while the memory use (Size)
     * is above the limit; only after the last write has succeeded are the
     * preimages dropped and the flushed prefix of the list cleared (CapIn).
     */
    method Cap(limit: int) returns (err: Option<DbError>, ghost hs: seq<Hash>, ghost n: nat)
      requires Valid()
      modifies this`dirties, this`oldest, this`newest, this`order, this`dirtiesSize, this`childrenSize, this`cleans
      modifies this`preimages, this`preimagesSize, this`disk, this`written
      ensures Valid() && old(written) <= written && newest == old(newest) && cleans == old(cleans)
      ensures err.Some? ==>
        && err == Some(WriteFailed)
        && dirties == old(dirties) && order == old(order) && oldest == old(oldest)
        && dirtiesSize == old(dirtiesSize) && childrenSize == old(childrenSize)
        && preimages == old(preimages) && preimagesSize == old(preimagesSize)
      ensures err.None? ==>
        && n == Flushed(old(dirties), old(order), TotalSize(old(dirties), old(dirtiesSize), old(childrenSize)), limit)
        && order == old(order)[n..]
        && dirties.Keys == old(dirties).Keys - Hashes(old(order)[..n])
        && (forall h :: h in dirties && (h != oldest || oldest == ZeroHash) ==> dirties[h] == old(dirties)[h])
        && (oldest != ZeroHash ==> dirties[oldest] == old(dirties)[oldest].(flushPrev := ZeroHash))
        && dirtiesSize == old(dirtiesSize) - Footprint(old(dirties), old(order)[..n])
        && childrenSize == old(childrenSize) - Overheads(old(dirties), old(order)[..n])
        && written == old(written) + PreimagePuts(old(preimages), hs) + NodePuts(old(dirties), old(order)[..n])
        && (order == [] || TotalSize(dirties, dirtiesSize, childrenSize) <= limit)
      ensures err.None? && old(preimagesSize) > PreimageFlushSize ==>
        && preimages == map[] && preimagesSize == 0 && Distinct(hs) && forall h :: h in hs <==> h in old(preimages)
      ensures err.None? && old(preimagesSize) <= PreimageFlushSize ==>
        preimages == old(preimages) && preimagesSize == old(preimagesSize) && hs == []
    {
      var d, o, ds, cs, p, ps, dk;
      ghost var ord, wr;
      err, hs, n, d, o, ord, ds, cs, p, ps, dk, wr :=
        CapIn(dirties, oldest, newest, order, dirtiesSize, childrenSize, preimages, preimagesSize, baseDisk, disk, written, limit);
      Store(d, o, newest, ord, ds, cs, cleans, p, ps, dk, wr);
    }

    /**
     * Commit(node): the preimages are written, then every dirty node under
     * node, children before parents, each replayed out of the dirty cache
     * into the clean cache once its batch is on disk (CommitIn). A failed
     * write ends the commit; what was written and uncached by then stays so.
     */
    method Commit(node: Hash, ghost height: Hash -> nat) returns (err: Option<DbError>, ghost hs: seq<Hash>, ghost s: seq<Hash>)
      requires Valid() && Acyclic(dirties, height) && node != ZeroHash
      modifies this`dirties, this`oldest, this`newest, this`order, this`dirtiesSize, this`childrenSize, this`cleans
      modifies this`preimages, this`preimagesSize, this`disk, this`written
      ensures Valid() && old(written) <= written && childrenSize == old(childrenSize)
      ensures Uncached(old(dirties), old(order), old(dirtiesSize), old(cleans), dirties, order, dirtiesSize, cleans)
      ensures Persisted(old(dirties), dirties, disk)
      ensures err.Some? ==> err == Some(WriteFailed) && preimages == old(preimages) && preimagesSize == old(preimagesSize)
      ensures Distinct(hs) && forall i :: 0 <= i < |hs| ==> hs[i] in old(preimages)
      ensures err.None? ==>
        Completed(old(dirties), height, node, old(preimages), old(written), hs, s, dirties, preimages, preimagesSize, written)
    {
      var d, o, n, ds, c, p, ps, dk;
      ghost var ord, wr;
      err, hs, s, d, o, n, ord, ds, c, p, ps, dk, wr :=
        CommitIn(dirties, oldest, newest, order, dirtiesSize, cleans, preimages, preimagesSize, baseDisk, disk, written, node, height);
      Store(d, o, n, ord, ds, childrenSize, c, p, ps, dk, wr);
    }

    /** Puts the outcome of an operation on the values back into the fields. */
    method Store(d: map<Hash, CachedNode>, o: Hash, n: Hash, ghost ord: seq<Hash>, ds: int, cs: int,
                 c: Option<map<Hash, Bytes>>, p: map<Hash, Bytes>, ps: int, dk: map<Bytes, Bytes>, ghost wr: Batch)
      modifies this`dirties, this`oldest, this`newest, this`order, this`dirtiesSize, this`childrenSize, this`cleans
      modifies this`preimages, this`preimagesSize, this`disk, this`written
      ensures dirties == d && oldest == o && newest == n && order == ord && dirtiesSize == ds && childrenSize == cs
      ensures cleans == c && preimages == p && preimagesSize == ps && disk == dk && written == wr
    {
      dirties, oldest, newest, order, dirtiesSize, childrenSize := d, o, n, ord, ds, cs;
      cleans, preimages, preimagesSize, disk, written := c, p, ps, dk, wr;
    }

    /**
     * node: the clean cache first (decoded, a decoding failure panics), then
     * the dirty cache (cachedNode.obj), then the disk, whose hit is also
     * stored in the clean cache; absent everywhere, nil (Missing).
     */
    method GetNode(hash: Hash) returns (r: Fetched)
      modifies this`cleans
      ensures cleans.Some? == old(cleans).Some?
      ensures old(cleans).Some? && hash in old(cleans).value ==>
        r == MustDecode(hash, old(cleans).value[hash]) && cleans == old(cleans)
      ensures (old(cleans).None? || hash !in old(cleans).value) && hash in dirties ==>
        r == CachedObj(dirties[hash], hash) && cleans == old(cleans)
      ensures (old(cleans).None? || hash !in old(cleans).value) && hash !in dirties && hash.bytes in disk ==>
        && r == MustDecode(hash, disk[hash.bytes])
        && cleans == (if old(cleans).Some? then Some(old(cleans).value[hash := disk[hash.bytes]]) else None)
      ensures (old(cleans).None? || hash !in old(cleans).value) && hash !in dirties && hash.bytes !in disk ==>
        r == Missing && cleans == old(cleans)
    {
      if cleans.Some? && hash in cleans.value {
        return MustDecode(hash, cleans.value[hash]);
      }
      if hash in dirties {
        return CachedObj(dirties[hash], hash);
      }
      if hash.bytes !in disk {
        return Missing;
      }
      var enc := disk[hash.bytes];
      if cleans.Some? {
        cleans := Some(cleans.value[hash := enc]);
      }
      r := MustDecode(hash, enc);
    }

    /**
     * Node: the meta-root is never served; otherwise the blob from the clean
     * cache, the dirty cache (cachedNode.rlp) or the disk, a disk hit also
     * entering the clean cache.
     */
    method Node(hash: Hash) returns (r: Result<Bytes, DbError>)
      modifies this`cleans
      ensures cleans.Some? == old(cleans).Some?
      ensures hash == ZeroHash ==> r == Err(NotFound) && cleans == old(cleans)
      ensures hash != ZeroHash && old(cleans).Some? && hash in old(cleans).value ==>
        r == Ok(old(cleans).value[hash]) && cleans == old(cleans)
      ensures hash != ZeroHash && (old(cleans).None? || hash !in old(cleans).value) && hash in dirties ==>
        r == Ok(CachedRlp(dirties[hash])) && cleans == old(cleans)
      ensures hash != ZeroHash && (old(cleans).None? || hash !in old(cleans).value) && hash !in dirties ==>
        && (hash.bytes in disk ==> r == Ok(disk[hash.bytes]))
        && (hash.bytes !in disk ==> r == Err(NotFound))
        && cleans == (if old(cleans).Some? && hash.bytes in disk then Some(old(cleans).value[hash := disk[hash.bytes]]) else old(cleans))
    {
      if hash == ZeroHash {
        return Err(NotFound);
      }
      if cleans.Some? && hash in cleans.value {
        return Ok(cleans.value[hash]);
      }
      if hash in dirties {
        return Ok(CachedRlp(dirties[hash]));
      }
      if hash.bytes !in disk {
        return Err(NotFound);
      }
      var enc := disk[hash.bytes];
      if cleans.Some? {
        cleans := Some(cleans.value[hash := enc]);
      }
      r := Ok(enc);
    }

    /** preimage: the cached preimage, else the disk under the secure key. */
    function Preimage(hash: Hash): (r: Result<Bytes, DbError>)
      reads this
      ensures hash in preimages ==> r == Ok(preimages[hash])
      ensures hash !in preimages && SecureKey(hash.bytes) in disk ==> r == Ok(disk[SecureKey(hash.bytes)])
      ensures r.Err? <==> hash !in preimages && SecureKey(hash.bytes) !in disk
    {
      if hash in preimages then Ok(preimages[hash])
      else if SecureKey(hash.bytes) in disk then Ok(disk[SecureKey(hash.bytes)])
      else Err(NotFound)
    }

    /** Nodes: every dirty hash but the meta-root, once each, in map order (any order here). */
    method Nodes() returns (hashes: seq<Hash>)
      ensures forall h :: h in hashes <==> h in dirties && h != ZeroHash
      ensures Distinct(hashes)
      ensures |hashes| == |dirties.Keys - {ZeroHash}|
    {
      hashes := [];
      var rest := dirties.Keys;
      while rest != {}
        invariant rest <= dirties.Keys
        invariant forall h :: h in hashes <==> h in dirties && h !in rest && h != ZeroHash
        invariant Distinct(hashes)
        decreases |rest|
      {
        var h :| h in rest;
        if h != ZeroHash {
          ghost var prior := hashes;
          hashes := hashes + [h];
          forall a, b | 0 <= a < b < |hashes|
            ensures Differ(hashes, a, b)
          {
            if b < |prior| {
              assert Differ(prior, a, b);
            }
          }
        }
        rest := rest - {h};
      }
      DistinctCard(hashes, dirties.Keys - {ZeroHash});
    }

    /**
     * Size: dirtiesSize and childrenSize plus 96 bytes of metadata per
     * dirty node, the meta-root and its reference entries left out; and
     * preimagesSize.
     */
    function Size(): (r: (int, int))
      reads this
      requires ZeroHash in dirties
      ensures r.0 == TotalSize(dirties, dirtiesSize, childrenSize) && r.1 == preimagesSize
    {
      (dirtiesSize + childrenSize + (|dirties| - 1) * CachedNodeSize - ChildrenLen(dirties[ZeroHash]) * ChildEntrySize,
       preimagesSize)
    }

    /** accumulate: the reachable set grows by every dirty node reachable from hash through childs(). */
    method Accumulate(hash: Hash, reachable: set<Hash>, ghost height: Hash -> nat) returns (r: set<Hash>)
      requires Acyclic(dirties, height) && hash != ZeroHash
      ensures r == reachable + Reach(dirties, height, hash)
    {
      r := AccumulateIn(dirties, height, hash, reachable);
    }

    /**
     * verifyIntegrity: accumulate from every external child of the
     * meta-root, then panic (false here) iff some dirty node is left
     * unreached.
     */
    method VerifyIntegrity(ghost height: Hash -> nat) returns (ok: bool)
      requires ZeroHash in dirties && Acyclic(dirties, height)
      ensures ok <==> dirties.Keys <= Reachable(dirties, height)
    {
      var reachable := {ZeroHash};
      var roots := ChildKeys(dirties[ZeroHash]);
      var rest := roots;
      while rest != {}
        invariant rest <= roots
        invariant reachable == {ZeroHash} + RootsReach(dirties, height, roots - rest)
        decreases |rest|
      {
        var c :| c in rest;
        assert IsChild(dirties, ZeroHash, c);
        RootsReachAdd(dirties, height, roots - rest, c);
        reachable := Accumulate(c, reachable, height);
        assert roots - (rest - {c}) == (roots - rest) + {c};
        rest := rest - {c};
      }
      ok := dirties.Keys <= reachable;
    }
  }
}
