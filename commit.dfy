/// Commit and the cleaner of the memory database (trie/database.go) on the
/// dirty state as values: cleaner.Put, the replay of a written batch into
/// it, the post-order commit walk and Commit itself. Nodes leave the dirty
/// map only through the replay of a batch that has reached the disk.
module Commit {
  import opened Common
  import opened Cache
  import opened Database
  import opened CommitState

  // ---------------------------------------------------------------------------
  // cleaner.Put

  /**
   * cleaner.Put of key and blob: a hash that is not dirty is left alone; a
   * dirty one leaves the flush list and the dirty map, dirtiesSize loses its
   * HashLength + size and, as written, the overhead of its children map, and
   * a clean cache, when present, receives the blob.
   */
  method Clean(d: map<Hash, CachedNode>, oldest: Hash, newest: Hash, ghost order: seq<Hash>, dsize: int,
               cleans: Option<map<Hash, Bytes>>, key: Bytes, blob: Bytes)
    returns (d': map<Hash, CachedNode>, oldest': Hash, newest': Hash, ghost order': seq<Hash>, dsize': int,
             cleans': Option<map<Hash, Bytes>>)
    requires Listed(d, oldest, newest, order) && BytesToHash(key) != ZeroHash
    ensures Listed(d', oldest', newest', order')
    ensures BytesToHash(key) !in d ==>
      d' == d && oldest' == oldest && newest' == newest && order' == order && dsize' == dsize && cleans' == cleans
    ensures BytesToHash(key) in d ==>
      var hash := BytesToHash(key);
      && d'.Keys == d.Keys - {hash} && (forall k :: k in d' ==> SameButLinks(d'[k], d[k]))
      && order' == Without(order, {hash})
      && dsize' == dsize - (HashLength + d[hash].size) - Overhead(d[hash])
      && cleans' == (if cleans.Some? then Some(cleans.value[hash := blob]) else None)
  {
    var hash := BytesToHash(key);
    d', oldest', newest', order', dsize', cleans' := d, oldest, newest, order, dsize, cleans;
    if hash !in d {
      return;
    }
    var node := d[hash];
    var d1;
    d1, oldest', newest', order' := Unlink(d, oldest, newest, order, {}, hash);
    Drop(d1, oldest', newest', order', {}, hash);
    d' := d1 - {hash};
    dsize' := dsize - (HashLength + node.size);
    if node.children.Some? {
      dsize' := dsize' - (CachedNodeChildrenSize + |node.children.value| * ChildEntrySize);
    }
    if cleans.Some? {
      cleans' := Some(cleans.value[hash := blob]);
    }
  }

  // ---------------------------------------------------------------------------
  // Lemmas about the puts

  /** Over dirty hashes, put i is hash i with its rlp. */
  lemma {:induction false} NodePutsAt(d0: map<Hash, CachedNode>, s: seq<Hash>)
    requires forall i :: 0 <= i < |s| ==> s[i] in d0
    ensures |NodePuts(d0, s)| == |s|
    ensures forall i :: 0 <= i < |s| ==> NodePuts(d0, s)[i] == (s[i].bytes, CachedRlp(d0[s[i]]))
    decreases |s|
  {
    if s != [] {
      var t := s[..|s| - 1];
      assert forall i :: 0 <= i < |t| ==> t[i] == s[i];
      NodePutsAt(d0, t);
    }
  }

  lemma {:induction false} NodePutsConcat(d0: map<Hash, CachedNode>, a: seq<Hash>, b: seq<Hash>)
    ensures NodePuts(d0, a + b) == NodePuts(d0, a) + NodePuts(d0, b)
    decreases |b|
  {
    if b == [] {
      assert a + b == a;
    } else {
      assert (a + b)[..|a + b| - 1] == a + b[..|b| - 1];
      NodePutsConcat(d0, a, b[..|b| - 1]);
    }
  }

  /** After the puts of the listed nodes, the key of each dirty one holds its rlp. */
  lemma {:induction false} ApplyNodePuts(disk: map<Bytes, Bytes>, d0: map<Hash, CachedNode>, s: seq<Hash>, h: Hash)
    requires h in s && h in d0
    ensures h.bytes in Apply(disk, NodePuts(d0, s)) && Apply(disk, NodePuts(d0, s))[h.bytes] == CachedRlp(d0[h])
    decreases |s|
  {
    var t, x := s[..|s| - 1], s[|s| - 1];
    assert s == t + [x];
    var p := NodePuts(d0, t);
    if x in d0 {
      var b := p + [(x.bytes, CachedRlp(d0[x]))];
      assert NodePuts(d0, s) == b;
      assert b[..|b| - 1] == p && b[|b| - 1] == (x.bytes, CachedRlp(d0[x]));
      assert Apply(disk, b) == Apply(disk, p)[x.bytes := CachedRlp(d0[x])];
      if x != h {
        assert x.bytes != h.bytes;
        assert h in t;
        ApplyNodePuts(disk, d0, t, h);
      }
    } else {
      assert NodePuts(d0, s) == p;
      assert h in t;
      ApplyNodePuts(disk, d0, t, h);
    }
  }

  /** The accounting of one node taken out of the dirty map and the list. */
  lemma CleanAccount(d: map<Hash, CachedNode>, oldest: Hash, newest: Hash, order: seq<Hash>,
                     d': map<Hash, CachedNode>, order': seq<Hash>, hash: Hash)
    requires Listed(d, oldest, newest, order) && hash in d && hash != ZeroHash
    requires d'.Keys == d.Keys - {hash} && (forall k :: k in d' ==> SameButLinks(d'[k], d[k]))
    requires order' == Without(order, {hash})
    ensures Footprint(d', order') == Footprint(d, order) - (HashLength + d[hash].size)
    ensures Overheads(d', order') == Overheads(d, order) - Overhead(d[hash])
  {
    var i :| 0 <= i < |order| && order[i] == hash;
    WithoutOne(order, i);
    var rest := order[..i] + order[i + 1..];
    RestKept(d, d', order, i, rest);
    FootprintRemove(d, order, i);
    FootprintSame(d, d', rest);
    OverheadsRemove(d, order, i);
    OverheadsSame(d, d', rest);
  }

  /** Taking entry i out of a list of distinct dirty hashes leaves hashes that stay dirty, unchanged but for links. */
  lemma RestKept(d: map<Hash, CachedNode>, d': map<Hash, CachedNode>, order: seq<Hash>, i: nat, rest: seq<Hash>)
    requires Distinct(order) && i < |order| && forall j :: 0 <= j < |order| ==> order[j] in d
    requires d'.Keys == d.Keys - {order[i]} && (forall k :: k in d' ==> SameButLinks(d'[k], d[k]))
    requires rest == order[..i] + order[i + 1..]
    ensures forall j :: 0 <= j < |rest| ==>
      rest[j] in d && rest[j] in d' && SameButLinks(d'[rest[j]], d[rest[j]]) && d'[rest[j]].size == d[rest[j]].size
  {
    forall j | 0 <= j < |rest|
      ensures rest[j] in d && rest[j] in d' && SameButLinks(d'[rest[j]], d[rest[j]]) && d'[rest[j]].size == d[rest[j]].size
    {
      if j < i {
        assert rest[j] == order[j] && Differ(order, j, i);
      } else {
        assert rest[j] == order[j + 1] && Differ(order, i, j + 1);
      }
    }
  }


  lemma OverheadsRemove(d: map<Hash, CachedNode>, s: seq<Hash>, i: nat)
    requires i < |s| && s[i] in d
    ensures Overheads(d, s) == Overheads(d, s[..i] + s[i + 1..]) + Overhead(d[s[i]])
  {
    assert s == s[..i] + ([s[i]] + s[i + 1..]);
    CapFootprintSplit(d, s[..i], [s[i]] + s[i + 1..]);
    CapFootprintSplit(d, [s[i]], s[i + 1..]);
    CapFootprintSplit(d, s[..i], s[i + 1..]);
    assert [s[i]][1..] == [];
  }

  lemma {:induction false} OverheadsSame(d: map<Hash, CachedNode>, d': map<Hash, CachedNode>, s: seq<Hash>)
    requires forall i :: 0 <= i < |s| ==> s[i] in d && s[i] in d' && SameButLinks(d'[s[i]], d[s[i]])
    ensures Overheads(d', s) == Overheads(d, s)
    decreases |s|
  {
    if s != [] {
      assert forall i :: 0 <= i < |s[1..]| ==> s[1..][i] == s[i + 1];
      OverheadsSame(d, d', s[1..]);
    }
  }

  lemma RecachedMore(c: Option<map<Hash, Bytes>>, d0: map<Hash, CachedNode>, gone: set<Hash>, h: Hash)
    requires h in d0
    ensures Recached(c, d0, gone + {h}) == (if c.Some? then Some(Recached(c, d0, gone).value[h := CachedRlp(d0[h])]) else None)
  {
    if c.Some? {
      var m, m' := Recached(c, d0, gone + {h}).value, Recached(c, d0, gone).value[h := CachedRlp(d0[h])];
      assert m.Keys == m'.Keys;
      forall k | k in m
        ensures m[k] == m'[k]
      {
        if k == h {
          assert m[k] == CachedRlp(d0[h]);
        } else if k in gone && k in d0 {
          assert m[k] == CachedRlp(d0[k]) == Recached(c, d0, gone).value[k];
        } else {
          assert m[k] == c.value[k] == Recached(c, d0, gone).value[k];
        }
      }
      assert m == m';
    }
  }

  /** Appending a node whose dirty children are all listed keeps the list post-ordered. */
  lemma PutAfterMore(d0: map<Hash, CachedNode>, s: seq<Hash>, h: Hash)
    requires PostOrder(d0, s) && h in d0 && h != ZeroHash
    requires forall c :: IsChild(d0, h, c) && c in d0 ==> c in s
    ensures PostOrder(d0, s + [h])
  {
    var t := s + [h];
    forall i | 0 <= i < |t|
      ensures PutAt(d0, t, i)
    {
      if i < |s| {
        assert PutAt(d0, s, i);
        assert t[i] == s[i] && t[..i] == s[..i];
      } else {
        assert t[i] == h && t[..i] == s;
      }
    }
  }

  /** A post-ordered list that holds a node holds everything it reaches. */
  lemma {:induction false} PutClosed(d0: map<Hash, CachedNode>, height: Hash -> nat, s: seq<Hash>, h: Hash)
    requires Acyclic(d0, height) && PostOrder(d0, s) && h in s && h != ZeroHash
    ensures Reach(d0, height, h) <= Hashes(s)
    decreases height(h)
  {
    if h in d0 {
      var i :| 0 <= i < |s| && s[i] == h;
      assert PutAt(d0, s, i);
      var kids := Kids(d0[h]);
      assert Children(d0, h, kids) by {
        assert forall j :: 0 <= j < |kids| ==> kids[j] in kids;
      }
      forall x | x in ReachFirst(d0, height, h, kids, |kids|)
        ensures x in Hashes(s)
      {
        ReachFirstHas(d0, height, h, kids, |kids|, x);
        var j :| 0 <= j < |kids| && x in Reach(d0, height, kids[j]);
        var c := kids[j];
        assert IsChild(d0, h, c) && c in d0;
        assert c in s[..i];
        PutClosed(d0, height, s, c);
      }
    }
  }

  lemma {:induction false} ReachFirstMono(d: map<Hash, CachedNode>, height: Hash -> nat, h: Hash, cs: seq<Hash>, j: nat, n: nat)
    requires j <= n <= |cs|
    ensures ReachFirst(d, height, h, cs, j) <= ReachFirst(d, height, h, cs, n)
    decreases n - j
  {
    if j < n {
      ReachFirstMono(d, height, h, cs, j, n - 1);
    }
  }

  lemma InPrefix(x: Hash, s: seq<Hash>, t: seq<Hash>)
    requires x in s && s <= t
    ensures x in t
  {
    var i :| 0 <= i < |s| && s[i] == x;
    assert t[i] == x;
  }

  lemma WithinSame(p: seq<Hash>, r: set<Hash>)
    ensures Within(p, p, r)
  {
  }

  lemma WithinOne(p: seq<Hash>, p': seq<Hash>, h: Hash)
    requires p' == p + [h]
    ensures Within(p, p', {h}) && h in p'
  {
    assert Hashes(p') == Hashes(p) + {h};
  }

  /** Once every child is done, every dirty child of h is listed. */
  lemma DoneChildren(d0: map<Hash, CachedNode>, h: Hash, kids: seq<Hash>, p: seq<Hash>)
    requires h in d0 && (forall x :: x in kids <==> x in ChildSet(d0[h])) && Done(d0, kids, |kids|, p)
    ensures forall c :: IsChild(d0, h, c) && c in d0 ==> c in p
  {
    forall c | IsChild(d0, h, c) && c in d0
      ensures c in p
    {
      var k :| 0 <= k < |kids| && kids[k] == c;
      assert DoneAt(d0, kids, k, p);
    }
  }

  lemma WithinTrans(p: seq<Hash>, p': seq<Hash>, p'': seq<Hash>, r: set<Hash>, r': set<Hash>, r'': set<Hash>)
    requires Within(p, p', r) && Within(p', p'', r') && r + r' <= r''
    ensures Within(p, p'', r'')
  {
  }

  // ---------------------------------------------------------------------------
  // Starting, replaying, putting

  lemma CommitStart(d: map<Hash, CachedNode>, oldest: Hash, newest: Hash, order: seq<Hash>, dsize: int,
                    cleans: Option<map<Hash, Bytes>>, height: Hash -> nat)
    requires Listed(d, oldest, newest, order) && Acyclic(d, height)
    ensures Committing(d, order, dsize, cleans, height, d, oldest, newest, order, dsize, cleans, [], [])
  {
    assert Hashes([]) == {};
    WithoutAbsent(order, {});
    if cleans.Some? {
      assert Recached(cleans, d, {}).value == cleans.value;
    }
    forall k | k in d
      ensures SameButLinks(d[k], d[k])
    {
    }
  }

  /** The dirty map after cleaner.Put of a node h of d0: h has joined the hashes that left. */
  lemma CleanMapStep(d0: map<Hash, CachedNode>, d: map<Hash, CachedNode>, d': map<Hash, CachedNode>, w: seq<Hash>, h: Hash)
    requires h in d0
    requires d.Keys <= d0.Keys && (forall k :: k in d ==> SameButLinks(d[k], d0[k])) && d0.Keys - d.Keys == Hashes(w)
    requires h in d ==> d'.Keys == d.Keys - {h} && forall k :: k in d' ==> SameButLinks(d'[k], d[k])
    requires h !in d ==> d' == d
    ensures d'.Keys <= d0.Keys && (forall k :: k in d' ==> SameButLinks(d'[k], d0[k]))
    ensures d0.Keys - d'.Keys == Hashes(w + [h])
  {
    assert Hashes(w + [h]) == Hashes(w) + {h};
  }

  /** The flush list after cleaner.Put of h: h has joined the hashes taken out of order0. */
  lemma CleanOrderStep(order0: seq<Hash>, order: seq<Hash>, order': seq<Hash>, w: seq<Hash>, h: Hash, present: bool)
    requires order == Without(order0, Hashes(w))
    requires present ==> order' == Without(order, {h})
    requires !present ==> order' == order && h in Hashes(w)
    ensures order' == Without(order0, Hashes(w + [h]))
  {
    assert Hashes(w + [h]) == Hashes(w) + {h};
    if present {
      WithoutTwice(order0, Hashes(w), {h});
    } else {
      assert Hashes(w) + {h} == Hashes(w);
    }
  }

  /** The clean cache after cleaner.Put of h with its rlp. */
  lemma CleanCacheStep(d0: map<Hash, CachedNode>, cleans0: Option<map<Hash, Bytes>>, cleans: Option<map<Hash, Bytes>>,
                       cleans': Option<map<Hash, Bytes>>, w: seq<Hash>, h: Hash, present: bool)
    requires h in d0 && cleans == Recached(cleans0, d0, Hashes(w))
    requires present ==> cleans' == (if cleans.Some? then Some(cleans.value[h := CachedRlp(d0[h])]) else None)
    requires !present ==> cleans' == cleans && h in Hashes(w)
    ensures cleans' == Recached(cleans0, d0, Hashes(w + [h]))
  {
    assert Hashes(w + [h]) == Hashes(w) + {h};
    if present {
      RecachedMore(cleans0, d0, Hashes(w), h);
    } else {
      assert Hashes(w) + {h} == Hashes(w);
    }
  }

  /** dirtiesSize after cleaner.Put of h still differs from the bookkeeping of the list by the same amount. */
  lemma CleanSizeStep(d: map<Hash, CachedNode>, oldest: Hash, newest: Hash, order: seq<Hash>, dsize: int,
                      d': map<Hash, CachedNode>, order': seq<Hash>, dsize': int, h: Hash)
    requires Listed(d, oldest, newest, order) && h in d && h != ZeroHash
    requires d'.Keys == d.Keys - {h} && (forall k :: k in d' ==> SameButLinks(d'[k], d[k]))
    requires order' == Without(order, {h})
    requires dsize' == dsize - (HashLength + d[h].size) - Overhead(d[h])
    ensures dsize' - Footprint(d', order') - Overheads(d', order') == dsize - Footprint(d, order) - Overheads(d, order)
  {
    CleanAccount(d, oldest, newest, order, d', order', h);
  }

  /**
   * The replay of the first put of b, a node of d0 with its rlp: cleaner.Put
   * moves it from the batch part to the written part of the commit.
   */
  method CleanNext(ghost d0: map<Hash, CachedNode>, ghost order0: seq<Hash>, ghost dsize0: int,
                   ghost cleans0: Option<map<Hash, Bytes>>, ghost height: Hash -> nat,
                   d: map<Hash, CachedNode>, oldest: Hash, newest: Hash, ghost order: seq<Hash>, dsize: int,
                   cleans: Option<map<Hash, Bytes>>, put: (Bytes, Bytes), ghost w: seq<Hash>, ghost b: seq<Hash>)
    returns (d': map<Hash, CachedNode>, oldest': Hash, newest': Hash, ghost order': seq<Hash>, dsize': int,
             cleans': Option<map<Hash, Bytes>>)
    requires Committing(d0, order0, dsize0, cleans0, height, d, oldest, newest, order, dsize, cleans, w, b)
    requires b != [] && b[0] in d0 && put == (b[0].bytes, CachedRlp(d0[b[0]]))
    ensures Committing(d0, order0, dsize0, cleans0, height, d', oldest', newest', order', dsize', cleans', w + [b[0]], b[1..])
  {
    ghost var h := b[0];
    NextPut(d0, w, b);
    BytesOfHash(h);
    d', oldest', newest', order', dsize', cleans' := Clean(d, oldest, newest, order, dsize, cleans, put.0, put.1);
    ghost var present := h in d;
    CleanMapStep(d0, d, d', w, h);
    CleanOrderStep(order0, order, order', w, h, present);
    CleanCacheStep(d0, cleans0, cleans, cleans', w, h, present);
    if present {
      CleanSizeStep(d, oldest, newest, order, dsize, d', order', dsize', h);
    }
  }

  /** The first put of b is the next entry of the put list. */
  lemma NextPut(d0: map<Hash, CachedNode>, w: seq<Hash>, b: seq<Hash>)
    requires PostOrder(d0, w + b) && b != []
    ensures PutAt(d0, w + b, |w|) && (w + b)[|w|] == b[0] && (w + [b[0]]) + b[1..] == w + b
  {
    assert PutAt(d0, w + b, |w|);
  }

  /**
   * batch.Replay(uncacher) after the batch of the puts b has been written:
   * cleaner.Put on every put in order.
   */
  method Replay(ghost d0: map<Hash, CachedNode>, ghost order0: seq<Hash>, ghost dsize0: int,
                ghost cleans0: Option<map<Hash, Bytes>>, ghost height: Hash -> nat,
                d: map<Hash, CachedNode>, oldest: Hash, newest: Hash, ghost order: seq<Hash>, dsize: int,
                cleans: Option<map<Hash, Bytes>>, batch: Batch, ghost w: seq<Hash>, ghost b: seq<Hash>)
    returns (d': map<Hash, CachedNode>, oldest': Hash, newest': Hash, ghost order': seq<Hash>, dsize': int,
             cleans': Option<map<Hash, Bytes>>)
    requires Committing(d0, order0, dsize0, cleans0, height, d, oldest, newest, order, dsize, cleans, w, b)
    requires batch == NodePuts(d0, b)
    ensures Committing(d0, order0, dsize0, cleans0, height, d', oldest', newest', order', dsize', cleans', w + b, [])
  {
    ReplayPuts(d0, w, b);
    d', oldest', newest', order', dsize', cleans' := d, oldest, newest, order, dsize, cleans;
    ghost var ws, bs := w, b;
    var i := 0;
    while i < |batch|
      invariant i <= |batch| == |b|
      invariant bs == b[i..] && ws == w + b[..i]
      invariant Committing(d0, order0, dsize0, cleans0, height, d', oldest', newest', order', dsize', cleans', ws, bs)
    {
      ReplayStep(d0, w, b, i, batch);
      d', oldest', newest', order', dsize', cleans' :=
        CleanNext(d0, order0, dsize0, cleans0, height, d', oldest', newest', order', dsize', cleans', batch[i], ws, bs);
      ws, bs := ws + [bs[0]], bs[1..];
      i := i + 1;
    }
    assert b[..i] == b;
  }

  /** Replayed in order, put i of the batch of b is hash i of b with its rlp. */
  lemma ReplayPuts(d0: map<Hash, CachedNode>, w: seq<Hash>, b: seq<Hash>)
    requires PostOrder(d0, w + b)
    ensures |NodePuts(d0, b)| == |b| && forall i :: 0 <= i < |b| ==> PutOf(d0, b, NodePuts(d0, b), i)
  {
    forall i | 0 <= i < |b|
      ensures b[i] in d0
    {
      assert PutAt(d0, w + b, |w| + i) && (w + b)[|w| + i] == b[i];
    }
    NodePutsAt(d0, b);
  }

  /** Put i of the batch is hash i of b, a dirty node, with its rlp. */
  ghost predicate PutOf(d0: map<Hash, CachedNode>, b: seq<Hash>, batch: Batch, i: int) {
    0 <= i < |b| && i < |batch| && b[i] in d0 && batch[i] == (b[i].bytes, CachedRlp(d0[b[i]]))
  }

  /** The sequence bookkeeping of one step of the replay. */
  lemma ReplayStep(d0: map<Hash, CachedNode>, w: seq<Hash>, b: seq<Hash>, i: nat, batch: Batch)
    requires i < |b| && |batch| == |b|
    requires forall i :: 0 <= i < |b| ==> PutOf(d0, b, batch, i)
    ensures b[i..] != [] && b[i..][0] == b[i] && b[i..][0] in d0 && batch[i] == (b[i..][0].bytes, CachedRlp(d0[b[i..][0]]))
    ensures b[i..][1..] == b[i + 1..] && (w + b[..i]) + [b[i..][0]] == w + b[..i + 1]
  {
    assert PutOf(d0, b, batch, i);
    assert b[..i + 1] == b[..i] + [b[i]];
  }


  /** A node whose dirty children are all listed can join the batch part of a commit. */
  lemma CommittingMore(d0: map<Hash, CachedNode>, order0: seq<Hash>, dsize0: int, cleans0: Option<map<Hash, Bytes>>,
                       height: Hash -> nat, d: map<Hash, CachedNode>, oldest: Hash, newest: Hash, order: seq<Hash>,
                       dsize: int, cleans: Option<map<Hash, Bytes>>, w: seq<Hash>, b: seq<Hash>, hash: Hash)
    requires Committing(d0, order0, dsize0, cleans0, height, d, oldest, newest, order, dsize, cleans, w, b)
    requires hash in d0 && hash != ZeroHash
    requires forall c :: IsChild(d0, hash, c) && c in d0 ==> c in w + b
    ensures Committing(d0, order0, dsize0, cleans0, height, d, oldest, newest, order, dsize, cleans, w, b + [hash])
  {
    PutAfterMore(d0, w + b, hash);
    assert (w + b) + [hash] == w + (b + [hash]);
  }

  /**
   * commit's put of a node whose dirty children are all put: (hash, rlp)
   * joins the batch; once the batch values reach IdealBatchSize it is
   * written and, if the write succeeded, replayed and reset.
   */
  method CommitPut(ghost d0: map<Hash, CachedNode>, ghost order0: seq<Hash>, ghost dsize0: int,
                   ghost cleans0: Option<map<Hash, Bytes>>, ghost height: Hash -> nat,
                   d: map<Hash, CachedNode>, oldest: Hash, newest: Hash, ghost order: seq<Hash>, dsize: int,
                   cleans: Option<map<Hash, Bytes>>, batch: Batch,
                   ghost base: map<Bytes, Bytes>, disk: map<Bytes, Bytes>, ghost written0: Batch, ghost written: Batch,
                   ghost w: seq<Hash>, ghost b: seq<Hash>, hash: Hash, rlp: Bytes)
    returns (ok: bool, d': map<Hash, CachedNode>, oldest': Hash, newest': Hash, ghost order': seq<Hash>, dsize': int,
             cleans': Option<map<Hash, Bytes>>, batch': Batch, disk': map<Bytes, Bytes>, ghost written': Batch,
             ghost w': seq<Hash>, ghost b': seq<Hash>)
    requires Progress(d0, order0, dsize0, cleans0, height, base, written0, d, oldest, newest, order, dsize, cleans, batch, disk, written, w, b)
    requires hash in d0 && hash != ZeroHash && rlp == CachedRlp(d0[hash])
    requires forall c :: IsChild(d0, hash, c) && c in d0 ==> c in w + b
    ensures Progress(d0, order0, dsize0, cleans0, height, base, written0, d', oldest', newest', order', dsize', cleans', batch', disk', written', w', b')
    ensures w' + b' == w + b + [hash]
  {
    CommittingMore(d0, order0, dsize0, cleans0, height, d, oldest, newest, order, dsize, cleans, w, b, hash);
    PendingMore(d0, base, written0, w, b, batch, disk, written, hash);
    ghost var b1 := b + [hash];
    assert (w + b) + [hash] == w + b1;
    var full := batch + [(hash.bytes, rlp)];
    if ValueSize(full) >= IdealBatchSize {
      ok, d', oldest', newest', order', dsize', cleans', batch', disk', written', w', b' :=
        Flush(d0, order0, dsize0, cleans0, height, d, oldest, newest, order, dsize, cleans, full,
              base, disk, written0, written, w, b1);
    } else {
      ok := true;
      d', oldest', newest', order', dsize', cleans' := d, oldest, newest, order, dsize, cleans;
      batch', disk', written', w', b' := full, disk, written, w, b1;
    }
  }

  /**
   * batch.Write followed, if it succeeded, by batch.Replay(uncacher) and
   * batch.Reset: the puts b reach the disk, leave the dirty state and the
   * batch is emptied. A failed write changes nothing.
   */
  method Flush(ghost d0: map<Hash, CachedNode>, ghost order0: seq<Hash>, ghost dsize0: int,
               ghost cleans0: Option<map<Hash, Bytes>>, ghost height: Hash -> nat,
               d: map<Hash, CachedNode>, oldest: Hash, newest: Hash, ghost order: seq<Hash>, dsize: int,
               cleans: Option<map<Hash, Bytes>>, batch: Batch,
               ghost base: map<Bytes, Bytes>, disk: map<Bytes, Bytes>, ghost written0: Batch, ghost written: Batch,
               ghost w: seq<Hash>, ghost b: seq<Hash>)
    returns (ok: bool, d': map<Hash, CachedNode>, oldest': Hash, newest': Hash, ghost order': seq<Hash>, dsize': int,
             cleans': Option<map<Hash, Bytes>>, batch': Batch, disk': map<Bytes, Bytes>, ghost written': Batch,
             ghost w': seq<Hash>, ghost b': seq<Hash>)
    requires Progress(d0, order0, dsize0, cleans0, height, base, written0, d, oldest, newest, order, dsize, cleans, batch, disk, written, w, b)
    ensures Progress(d0, order0, dsize0, cleans0, height, base, written0, d', oldest', newest', order', dsize', cleans', batch', disk', written', w', b')
    ensures w' + b' == w + b
    ensures ok ==> w' == w + b && b' == [] && batch' == []
    ensures !ok ==> d' == d && oldest' == oldest && newest' == newest && dsize' == dsize && cleans' == cleans
                    && batch' == batch && disk' == disk && w' == w && b' == b
  {
    d', oldest', newest', order', dsize', cleans' := d, oldest, newest, order, dsize, cleans;
    batch', w', b' := batch, w, b;
    ok, disk', written' := Write(base, disk, written, batch);
    if ok {
      WrittenFlushed(d0, written0, w, b);
      d', oldest', newest', order', dsize', cleans' :=
        Replay(d0, order0, dsize0, cleans0, height, d, oldest, newest, order, dsize, cleans, batch, w, b);
      w', b', batch' := w + b, [], [];
      assert w' + b' == w';
    }
  }


  /** A dirty node's put joins the batch part. */
  lemma PendingMore(d0: map<Hash, CachedNode>, base: map<Bytes, Bytes>, written0: Batch, w: seq<Hash>, b: seq<Hash>,
                    batch: Batch, disk: map<Bytes, Bytes>, written: Batch, hash: Hash)
    requires Pending(d0, base, written0, w, b, batch, disk, written) && hash in d0
    ensures Pending(d0, base, written0, w, b + [hash], batch + [(hash.bytes, CachedRlp(d0[hash]))], disk, written)
  {
    var b1 := b + [hash];
    assert b1[..|b1| - 1] == b && b1[|b1| - 1] == hash;
  }

  /** Once the batch of the puts b has been written, they move to the written part. */
  lemma WrittenFlushed(d0: map<Hash, CachedNode>, written0: Batch, w: seq<Hash>, b: seq<Hash>)
    ensures (written0 + NodePuts(d0, w)) + NodePuts(d0, b) == written0 + NodePuts(d0, w + b)
  {
    NodePutsConcat(d0, w, b);
  }

  // ---------------------------------------------------------------------------
  // commit

  /**
   * commit(hash): a hash that is not dirty is done; otherwise all of its
   * childs() are committed first, in order, and then the node is put (with
   * the rlp of the entry read before the children). A failed write stops
   * the walk. What is put is reached from hash, and on success hash itself
   * is put when it was dirty when the commit began.
   */
  method CommitNode(ghost d0: map<Hash, CachedNode>, ghost order0: seq<Hash>, ghost dsize0: int,
                    ghost cleans0: Option<map<Hash, Bytes>>, ghost height: Hash -> nat,
                    d: map<Hash, CachedNode>, oldest: Hash, newest: Hash, ghost order: seq<Hash>, dsize: int,
                    cleans: Option<map<Hash, Bytes>>, batch: Batch,
                    ghost base: map<Bytes, Bytes>, disk: map<Bytes, Bytes>, ghost written0: Batch, ghost written: Batch,
                    ghost w: seq<Hash>, ghost b: seq<Hash>, hash: Hash)
    returns (ok: bool, d': map<Hash, CachedNode>, oldest': Hash, newest': Hash, ghost order': seq<Hash>, dsize': int,
             cleans': Option<map<Hash, Bytes>>, batch': Batch, disk': map<Bytes, Bytes>, ghost written': Batch,
             ghost w': seq<Hash>, ghost b': seq<Hash>)
    requires Progress(d0, order0, dsize0, cleans0, height, base, written0, d, oldest, newest, order, dsize, cleans, batch, disk, written, w, b)
    requires hash != ZeroHash
    ensures Progress(d0, order0, dsize0, cleans0, height, base, written0, d', oldest', newest', order', dsize', cleans', batch', disk', written', w', b')
    ensures Within(w + b, w' + b', Reach(d0, height, hash))
    ensures ok && hash in d0 ==> hash in w' + b'
    decreases height(hash), 1
  {
    ok := true;
    d', oldest', newest', order', dsize', cleans' := d, oldest, newest, order, dsize, cleans;
    batch', disk', written', w', b' := batch, disk, written, w, b;
    if hash !in d {
      WithinSame(w + b, Reach(d0, height, hash));
      if hash in d0 {
        assert hash in Hashes(w);
        InPrefix(hash, w, w + b);
      }
      return;
    }
    var node := d[hash];
    var kids := Childs(node);
    assert SameButLinks(node, d0[hash]);
    ReachFirstChilds(d0, height, hash, kids);
    ok, d', oldest', newest', order', dsize', cleans', batch', disk', written', w', b' :=
      CommitKids(d0, order0, dsize0, cleans0, height, d, oldest, newest, order, dsize, cleans, batch,
                 base, disk, written0, written, w, b, hash, kids);
    if !ok {
      WithinTrans(w + b, w' + b', w' + b', ReachFirst(d0, height, hash, kids, |kids|), {}, Reach(d0, height, hash));
      return;
    }
    ghost var p := w' + b';
    DoneChildren(d0, hash, kids, p);
    ok, d', oldest', newest', order', dsize', cleans', batch', disk', written', w', b' :=
      CommitPut(d0, order0, dsize0, cleans0, height, d', oldest', newest', order', dsize', cleans', batch',
                base, disk', written0, written', w', b', hash, CachedRlp(node));
    WithinOne(p, w' + b', hash);
    WithinTrans(w + b, p, w' + b', ReachFirst(d0, height, hash, kids, |kids|), {hash}, Reach(d0, height, hash));
  }

  /** commit's loop over childs(): each child is committed in turn; a failure stops it. */
  method CommitKids(ghost d0: map<Hash, CachedNode>, ghost order0: seq<Hash>, ghost dsize0: int,
                    ghost cleans0: Option<map<Hash, Bytes>>, ghost height: Hash -> nat,
                    d: map<Hash, CachedNode>, oldest: Hash, newest: Hash, ghost order: seq<Hash>, dsize: int,
                    cleans: Option<map<Hash, Bytes>>, batch: Batch,
                    ghost base: map<Bytes, Bytes>, disk: map<Bytes, Bytes>, ghost written0: Batch, ghost written: Batch,
                    ghost w: seq<Hash>, ghost b: seq<Hash>, ghost hash: Hash, kids: seq<Hash>)
    returns (ok: bool, d': map<Hash, CachedNode>, oldest': Hash, newest': Hash, ghost order': seq<Hash>, dsize': int,
             cleans': Option<map<Hash, Bytes>>, batch': Batch, disk': map<Bytes, Bytes>, ghost written': Batch,
             ghost w': seq<Hash>, ghost b': seq<Hash>)
    requires Progress(d0, order0, dsize0, cleans0, height, base, written0, d, oldest, newest, order, dsize, cleans, batch, disk, written, w, b)
    requires hash != ZeroHash && Children(d0, hash, kids)
    ensures Progress(d0, order0, dsize0, cleans0, height, base, written0, d', oldest', newest', order', dsize', cleans', batch', disk', written', w', b')
    ensures Within(w + b, w' + b', ReachFirst(d0, height, hash, kids, |kids|))
    ensures ok ==> Done(d0, kids, |kids|, w' + b')
    decreases height(hash), 0, |kids| + 1
  {
    ok := true;
    d', oldest', newest', order', dsize', cleans' := d, oldest, newest, order, dsize, cleans;
    batch', disk', written', w', b' := batch, disk, written, w, b;
    ghost var r := ReachFirst(d0, height, hash, kids, |kids|);
    var j := 0;
    while j < |kids|
      invariant j <= |kids|
      invariant Progress(d0, order0, dsize0, cleans0, height, base, written0, d', oldest', newest', order', dsize', cleans', batch', disk', written', w', b')
      invariant Within(w + b, w' + b', r)
      invariant Done(d0, kids, j, w' + b')
    {
      ok, d', oldest', newest', order', dsize', cleans', batch', disk', written', w', b' :=
        CommitKid(d0, order0, dsize0, cleans0, height, d', oldest', newest', order', dsize', cleans', batch',
                  base, disk', written0, written', w', b', hash, kids, j, w + b, r);
      if !ok {
        return;
      }
      j := j + 1;
    }
  }

  /** One turn of commit's loop over childs(): commit child j. */
  method CommitKid(ghost d0: map<Hash, CachedNode>, ghost order0: seq<Hash>, ghost dsize0: int,
                   ghost cleans0: Option<map<Hash, Bytes>>, ghost height: Hash -> nat,
                   d: map<Hash, CachedNode>, oldest: Hash, newest: Hash, ghost order: seq<Hash>, dsize: int,
                   cleans: Option<map<Hash, Bytes>>, batch: Batch,
                   ghost base: map<Bytes, Bytes>, disk: map<Bytes, Bytes>, ghost written0: Batch, ghost written: Batch,
                   ghost w: seq<Hash>, ghost b: seq<Hash>, ghost hash: Hash, kids: seq<Hash>, j: nat,
                   ghost q: seq<Hash>, ghost r: set<Hash>)
    returns (ok: bool, d': map<Hash, CachedNode>, oldest': Hash, newest': Hash, ghost order': seq<Hash>, dsize': int,
             cleans': Option<map<Hash, Bytes>>, batch': Batch, disk': map<Bytes, Bytes>, ghost written': Batch,
             ghost w': seq<Hash>, ghost b': seq<Hash>)
    requires Progress(d0, order0, dsize0, cleans0, height, base, written0, d, oldest, newest, order, dsize, cleans, batch, disk, written, w, b)
    requires hash != ZeroHash && Children(d0, hash, kids) && j < |kids| && r == ReachFirst(d0, height, hash, kids, |kids|)
    requires Within(q, w + b, r) && Done(d0, kids, j, w + b)
    ensures Progress(d0, order0, dsize0, cleans0, height, base, written0, d', oldest', newest', order', dsize', cleans', batch', disk', written', w', b')
    ensures Within(q, w' + b', r)
    ensures ok ==> Done(d0, kids, j + 1, w' + b')
    decreases height(hash), 0, j
  {
    assert IsChild(d0, hash, kids[j]);
    ok, d', oldest', newest', order', dsize', cleans', batch', disk', written', w', b' :=
      CommitNode(d0, order0, dsize0, cleans0, height, d, oldest, newest, order, dsize, cleans, batch,
                 base, disk, written0, written, w, b, kids[j]);
    KidsStep(d0, height, hash, kids, j, q, w + b, w' + b', ok);
  }

  /** One child committed: what was put is still reached from the parent, and the child is listed on success. */
  lemma KidsStep(d0: map<Hash, CachedNode>, height: Hash -> nat, hash: Hash, kids: seq<Hash>, j: nat,
                 q: seq<Hash>, p: seq<Hash>, p': seq<Hash>, ok: bool)
    requires Acyclic(d0, height) && hash != ZeroHash && j < |kids| && IsChild(d0, hash, kids[j])
    requires Within(q, p, ReachFirst(d0, height, hash, kids, |kids|)) && Within(p, p', Reach(d0, height, kids[j]))
    requires Done(d0, kids, j, p) && (ok && kids[j] in d0 ==> kids[j] in p')
    ensures Within(q, p', ReachFirst(d0, height, hash, kids, |kids|))
    ensures ok ==> Done(d0, kids, j + 1, p')
  {
    ReachFirstMono(d0, height, hash, kids, j + 1, |kids|);
    assert Reach(d0, height, kids[j]) <= ReachFirst(d0, height, hash, kids, j + 1);
    if ok {
      forall k | 0 <= k < j + 1
        ensures DoneAt(d0, kids, k, p')
      {
        if k < j {
          assert DoneAt(d0, kids, k, p);
          if kids[k] in d0 {
            assert kids[k] in Hashes(p);
          }
        }
      }
    }
  }

  // ---------------------------------------------------------------------------
  // Commit

  /**
   * Where a commit stands, whatever point it stopped at: the list is well
   * formed, the nodes that left the dirty map left the flush list and the
   * size, were recached, and are on disk with their cachedNode.rlp.
   */
  lemma Settled(d0: map<Hash, CachedNode>, order0: seq<Hash>, dsize0: int, cleans0: Option<map<Hash, Bytes>>,
                height: Hash -> nat, base: map<Bytes, Bytes>, written0: Batch,
                d: map<Hash, CachedNode>, oldest: Hash, newest: Hash, order: seq<Hash>, dsize: int,
                cleans: Option<map<Hash, Bytes>>, batch: Batch, disk: map<Bytes, Bytes>, written: Batch,
                w: seq<Hash>, b: seq<Hash>)
    requires Progress(d0, order0, dsize0, cleans0, height, base, written0, d, oldest, newest, order, dsize, cleans, batch, disk, written, w, b)
    ensures Listed(d, oldest, newest, order) && Uncached(d0, order0, dsize0, cleans0, d, order, dsize, cleans)
    ensures disk == Apply(base, written) && written0 <= written && Persisted(d0, d, disk)
  {
    ApplyConcat(base, written0, NodePuts(d0, w));
    forall h | h in d0 && h !in d
      ensures h.bytes in disk && disk[h.bytes] == CachedRlp(d0[h])
    {
      assert h in Hashes(w);
      ApplyNodePuts(Apply(base, written0), d0, w, h);
    }
  }

  /** A commit that wrote everything it put has put exactly what the root reaches. */
  lemma Reached(d0: map<Hash, CachedNode>, height: Hash -> nat, w: seq<Hash>, root: Hash)
    requires Acyclic(d0, height) && PostOrder(d0, w) && root != ZeroHash
    requires Within([], w, Reach(d0, height, root)) && (root in d0 ==> root in w)
    ensures Hashes(w) == Reach(d0, height, root)
  {
    if root in d0 {
      PutClosed(d0, height, w, root);
    }
  }

  /**
   * The first part of Database.Commit: every preimage is put, the batch
   * written whenever it holds more than IdealBatchSize bytes of values, and
   * what is left written after the loop.
   */
  method CommitPreimages(preimages: map<Hash, Bytes>, ghost base: map<Bytes, Bytes>, disk: map<Bytes, Bytes>, ghost written: Batch)
    returns (ok: bool, ghost hs: seq<Hash>, disk': map<Bytes, Bytes>, ghost written': Batch)
    requires disk == Apply(base, written)
    ensures disk' == Apply(base, written') && written <= written'
    ensures Distinct(hs) && forall i :: 0 <= i < |hs| ==> hs[i] in preimages
    ensures ok ==> (forall h :: h in preimages ==> h in hs) && written' == written + PreimagePuts(preimages, hs)
  {
    var batch;
    ok, batch, hs, disk', written' := PutPreimages(preimages, base, disk, written);
    if ok {
      ok, disk', written' := Write(base, disk', written', batch);
    }
  }

  /**
   * commit(node) from a fresh batch, and the last write and replay after
   * it: on success every dirty node under root has been put, in post-order,
   * and nothing is left in the batch.
   */
  method CommitNodes(d: map<Hash, CachedNode>, oldest: Hash, newest: Hash, ghost order: seq<Hash>, dsize: int,
                     cleans: Option<map<Hash, Bytes>>, ghost base: map<Bytes, Bytes>, disk: map<Bytes, Bytes>, ghost written: Batch,
                     root: Hash, ghost height: Hash -> nat)
    returns (ok: bool, d': map<Hash, CachedNode>, oldest': Hash, newest': Hash, ghost order': seq<Hash>, dsize': int,
             cleans': Option<map<Hash, Bytes>>, batch': Batch, disk': map<Bytes, Bytes>, ghost written': Batch,
             ghost w: seq<Hash>, ghost b: seq<Hash>)
    requires Listed(d, oldest, newest, order) && Acyclic(d, height) && disk == Apply(base, written) && root != ZeroHash
    ensures Progress(d, order, dsize, cleans, height, base, written, d', oldest', newest', order', dsize', cleans', batch', disk', written', w, b)
    ensures ok ==> b == [] && PostOrder(d, w) && Hashes(w) == Reach(d, height, root)
  {
    CommitStart(d, oldest, newest, order, dsize, cleans, height);
    assert written + NodePuts(d, []) == written;
    ok, d', oldest', newest', order', dsize', cleans', batch', disk', written', w, b :=
      CommitNode(d, order, dsize, cleans, height, d, oldest, newest, order, dsize, cleans, [],
                 base, disk, written, written, [], [], root);
    if ok {
      ok, d', oldest', newest', order', dsize', cleans', batch', disk', written', w, b :=
        Flush(d, order, dsize, cleans, height, d', oldest', newest', order', dsize', cleans', batch',
              base, disk', written, written', w, b);
      if ok {
        assert w + b == w;
        Reached(d, height, w, root);
      }
    }
  }

  /**
   * Database.Commit(node) on the dirty state as values: the preimages are
   * put (the batch written whenever it holds more than IdealBatchSize bytes
   * of values) and the batch written; then commit(node) puts the dirty
   * nodes under node in post-order, writing and replaying the batch into
   * the cleaner whenever it reaches IdealBatchSize; then the rest is
   * written and replayed. Each write can fail, which ends the commit with
   * the error. Only a commit that got through drops the preimages.
   */
  method CommitIn(d: map<Hash, CachedNode>, oldest: Hash, newest: Hash, ghost order: seq<Hash>, dsize: int,
                  cleans: Option<map<Hash, Bytes>>, preimages: map<Hash, Bytes>, psize: int,
                  ghost base: map<Bytes, Bytes>, disk: map<Bytes, Bytes>, ghost written: Batch,
                  root: Hash, ghost height: Hash -> nat)
    returns (err: Option<DbError>, ghost hs: seq<Hash>, ghost s: seq<Hash>,
             d': map<Hash, CachedNode>, oldest': Hash, newest': Hash, ghost order': seq<Hash>, dsize': int,
             cleans': Option<map<Hash, Bytes>>, preimages': map<Hash, Bytes>, psize': int,
             disk': map<Bytes, Bytes>, ghost written': Batch)
    requires Listed(d, oldest, newest, order) && Acyclic(d, height) && disk == Apply(base, written) && root != ZeroHash
    ensures Listed(d', oldest', newest', order') && Uncached(d, order, dsize, cleans, d', order', dsize', cleans')
    ensures disk' == Apply(base, written') && written <= written' && Persisted(d, d', disk')
    ensures Distinct(hs) && forall i :: 0 <= i < |hs| ==> hs[i] in preimages
    ensures err.Some? ==> err == Some(WriteFailed) && preimages' == preimages && psize' == psize
    ensures err.None? ==> Completed(d, height, root, preimages, written, hs, s, d', preimages', psize', written')
  {
    d', oldest', newest', order', dsize', cleans' := d, oldest, newest, order, dsize, cleans;
    preimages', psize', s := preimages, psize, [];
    var ok;
    ok, hs, disk', written' := CommitPreimages(preimages, base, disk, written);
    ghost var start := written';
    if ok {
      var batch;
      ghost var w, b;
      ok, d', oldest', newest', order', dsize', cleans', batch, disk', written', w, b :=
        CommitNodes(d, oldest, newest, order, dsize, cleans, base, disk', start, root, height);
      Settled(d, order, dsize, cleans, height, base, start, d', oldest', newest', order', dsize', cleans', batch, disk', written', w, b);
      if ok {
        s := w;
        preimages', psize' := map[], 0;
      }
    } else {
      Unchanged(d, order, dsize, cleans, disk');
    }
    err := if ok then None else Some(WriteFailed);
  }

  /** A commit that put nothing changed nothing in the dirty state. */
  lemma Unchanged(d: map<Hash, CachedNode>, order: seq<Hash>, dsize: int, cleans: Option<map<Hash, Bytes>>, disk: map<Bytes, Bytes>)
    ensures Uncached(d, order, dsize, cleans, d, order, dsize, cleans) && Persisted(d, d, disk)
  {
    assert d.Keys - d.Keys == {};
    WithoutAbsent(order, {});
    if cleans.Some? {
      assert Recached(cleans, d, {}).value == cleans.value;
    }
  }
}
