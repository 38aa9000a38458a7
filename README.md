# Trie-Hashimoto trie core in Dafny

This project models the node layer and the memory database of the indexed Merkle Patricia trie in Trie-Hashimoto, a go-ethereum fork. It also proves properties of that model.

In this variant every full and short node carries a 64-bit nonce, encoded last as 8 little-endian bytes. The first `PrefixLength` (2) bytes of a dirty node's hash are overwritten with the low bytes of the block number. This is the "fake" mining path, enabled by the constant `FakeIMPT = true` (trie/hasher.go:50).

The model has eleven modules:

- `Common` (common.dfy): bytes as `bv8`, 32-byte hashes, `common.BytesToHash`, the `encoding/binary` fixed-width integers, and `Option`/`Result`.
- `Rlp` (rlp.dfy): Recursive Length Prefix encoding (Ethereum Yellow Paper, Appendix B). It has an encoder over byte strings and nested lists, and the splitting decoder (`Split`, `SplitString`, `SplitList`, `CountValues`) that the node decoder calls. The go-ethereum `rlp` package is not part of this model's source. It is written from its documented behaviour, including the rejection of non-canonical sizes.
- `Encoding` (encoding.dfy): the KEYBYTES, HEX and COMPACT key encodings, the two hash-prefix encodings, and `prefixLen`. Buffer-filling loops are methods, each proved equal to a specification function. The round-trips are lemmas about those functions.
- `Nodes` (nodes.dfy): the four node variants, their RLP items (`EncodeRLP`), `cache`/`getNonce`/`setNonce`, `wrapError`, and the decoder.
  - `decodeNode`, `decodeShort` and `decodeRef` are functions.
  - `decodeFull` is a method with the slot loop, proved against a function.
  - The main lemma, `DecodeCollapsed`, shows that decoding the encoding of any node the hasher produces gives it back in expanded form.
- `RawNodes` (rawnodes.dfy): the stripped storage form (`rawShortNode`, `rawFullNode`, `rawOptFullNode`), `simplifyNode`, `expandNode` and `gatherChildren`, and their agreement with the wire encoding and the decoder.
- `Cache` (cache.dfy): `cachedNode`, its `rlp`/`obj`/`childs`, and the invariants of the dirty map.
  - The flush list is a ghost sequence `order` that the `flushPrev`/`flushNext` links must spell out exactly.
  - Every dirty key is listed, is the meta-root, or is being released.
  - Acyclicity is certified by a ghost height function.
- `Database` (database.dfy): `insert`, `reference`, `dereference` with its cascade, `accumulate`, and `Cap`, all on the dirty state as values. Write batches are lists of puts, and `Write` may fail. The disk and the clean cache are maps.
- `CommitState` and `Commit` (commitstate.dfy, commit.dfy): `cleaner.Put`, batch replay, the post-order `commit` walk and `Commit`.
- `Trie` (trie.dfy): the class `Trie.Database`, whose fields the methods update in place. Each method hands its fields to the value-level operation and stores the results back; `Trie.Database.Store` is that write-back, a field setter with no counterpart in the Go code.
- `Hasher` (hasher.dfy): `hash`, `hashChildren` and `store`, each a method proved equal to a specification function. The calls to `db.insert` and `onleaf`, the `trieNonces` list and the replay counter `*count` are threaded through an `Effects` value. `Trie.Database.InsertAll` applies the recorded insertions to the database. Keccak-256 is a function parameter `keccak`.

Where the code and its documentation differ, the model follows the code:

- A nonce field shorter than 8 bytes makes `binary.LittleEndian.Uint64` panic (trie/node.go:188, 199, 223); it does not produce a decode error. This is the `NonceTooShort` error, which `wrapError` passes through unchanged.
- `cleaner.Put` deducts a node's children-map overhead from `dirtiesSize` (trie/database.go:1080-1082). `Cap` deducts it from `childrenSize` instead (trie/database.go:879). Both are modelled as written.
- With a database, `store` does not compute a missing hash. It inserts the node under `BytesToHash(nil)`, the zero hash (`Hasher.CommitReusesHash`).

## Model

| member | source | states |
|---|---|---|
| Common.BytesToHash | trie/database.go:1058 | the result is 32 bytes: the last 32 of a long input, or a short input left-padded with zeros |
| Common.BytesOfHash | trie/hasher.go:344 | a 32-byte hash read back from its bytes is itself |
| Common.LittleEndian64 | trie/node.go:72-74 | PutUint64 little-endian writes exactly 8 bytes |
| Common.BigEndian64 | trie/hasher.go:630-634 | PutUint64 big-endian writes exactly 8 bytes |
| Common.LittleEndianRoundTrip | trie/node.go:186-188 | Uint64 little-endian reads back the nonce PutUint64 wrote, whatever bytes follow |
| Common.LittleEndianDecodeEncode | trie/node.go:219-223 | for 8 bytes, re-encoding the decoded nonce gives the same bytes |
| Common.BigEndianRoundTrip | trie/hasher.go:630-634 | the big-endian encoding of a block number decodes back to it |
| Rlp.BigEndian | trie/node.go:75 | the minimal big-endian form of a length is empty exactly for 0 |
| Rlp.BigEndianRoundTrip | trie/node.go:75 | the minimal big-endian form of a length reads back as the length |
| Rlp.BigEndianLeading | trie/node.go:75 | the minimal big-endian form of a positive length has no leading zero |
| Rlp.BigEndianFits | trie/node.go:75 | lengths below 2^64 take at most 8 bytes |
| Rlp.ReadSize | trie/node.go:155 | an accepted long-form size is at least 56 |
| Rlp.ReadKind | trie/node.go:155 | an accepted header and its payload fit in the buffer, and a string or list header takes at least one byte |
| Rlp.Split | trie/node.go:231 | the payload and the rest lie inside the buffer, and the rest is strictly shorter than the buffer |
| Rlp.SplitString | trie/node.go:172 | the string and the rest lie inside the buffer |
| Rlp.SplitList | trie/node.go:155 | the list payload and the rest are each strictly shorter than the buffer |
| Rlp.HeaderRoundTrip | trie/node.go:62-89 | the header the encoder writes for a payload reads back with that kind and size |
| Rlp.LongHeaderRoundTrip | trie/node.go:62-89 | long-form headers (payload of 56 bytes or more) read back with their size |
| Rlp.SplitEncode | trie/node.go:231 | splitting the encoding of any encodable item, followed by any rest, gives the item's kind, its payload and that rest |
| Rlp.SplitStringEncode | trie/node.go:172 | SplitString reads back an encoded string and the rest after it |
| Rlp.SplitListEncode | trie/node.go:155 | SplitList reads back the payload of an encoded list and the rest after it |
| Rlp.CountConcat | trie/node.go:159 | CountValues over the payload of a list counts exactly its items |
| Rlp.ConcatAppend | trie/node.go:62-76 | the payload of a concatenation of item lists is the concatenation of their payloads |
| Rlp.Encode | trie/node.go:62-89 | every item encodes to at least one byte; Rlp.SplitEncode reads the encoding back |
| Encoding.Strip | trie/encoding.go:171-173 | dropping the terminator shortens the key by one exactly when hasTerm holds, and keeps a prefix |
| Encoding.Hex | trie/encoding.go:125-134 | keybytesToHex gives 2·len+1 nibbles, the last being the terminator 16 |
| Encoding.Packed | trie/encoding.go:150-154 | decodeNibbles produces half as many bytes as nibbles |
| Encoding.Compact | trie/encoding.go:37-52 | hexToCompact gives n/2+1 bytes, n being the nibble count without the terminator |
| Encoding.Keybytes | trie/encoding.go:138-148 | hexToKeybytes gives half as many bytes as nibbles without the terminator; an odd count panics (excluded by the requires) |
| Encoding.HashPrefixNibbles | trie/encoding.go:55-75 | hexToHashPrefix keeps one nibble of a leaf key and at most three nibbles otherwise, taken from the front |
| Encoding.HashPrefix | trie/encoding.go:55-75 | the hash prefix has one byte plus one per pair of kept nibbles |
| Encoding.CompactToHashPrefix | trie/encoding.go:78-109 | always 2 bytes: bit 7 is the compact terminator flag, bits 4-6 the nibble count of the first min(len, 4) bytes, the low nibble and the second byte are copied (zero past the end); the panic branch is unreachable |
| Encoding.DecodeNibbles | trie/encoding.go:150-154 | the target bytes from off on become the packed nibble pairs, and no other byte changes |
| Encoding.KeybytesToHex | trie/encoding.go:125-134 | the loop computes Hex |
| Encoding.HexToCompact | trie/encoding.go:37-52 | the flag setting and packing compute Compact |
| Encoding.HexToKeybytes | trie/encoding.go:138-148 | computes Keybytes |
| Encoding.HexToHashPrefix | trie/encoding.go:55-75 | computes HashPrefix |
| Encoding.PrefixLen | trie/encoding.go:157-168 | the result is at most both lengths, both keys agree below it, and they differ at it when it is below both lengths |
| Encoding.HexShape | trie/encoding.go:125-134 | keybytesToHex gives 2·len+1 nibbles, all below 16 but the final terminator, so the result is a valid HEX key |
| Encoding.HashPrefixLayout | trie/encoding.go:55-75 | bit 7 of the first byte is the terminator, bits 4-6 the kept nibble count, and the low nibble the odd first nibble or zero |
| Encoding.KeybytesRoundTrip | trie/encoding.go:125-148 | hexToKeybytes(keybytesToHex(k)) == k |
| Encoding.CompactFlags | trie/encoding.go:38-51 | the high nibble of byte 0 is 2·terminator + odd; the low nibble is the first nibble when the length is odd, else 0 |
| Encoding.HexOfCompact | trie/encoding.go:37-52 | unpacking a compact key gives the flag nibbles, then the key's nibbles after the odd one |
| Encoding.CompactShape | trie/encoding.go:111-123 | compactToHex of a compact key restores the nibbles and adds the terminator exactly when it was flagged |
| Encoding.CompactRoundTrip | trie/encoding.go:37-123 | compactToHex(hexToCompact(h)) == h for every valid HEX key, terminated or not |
| Encoding.CompactToHex | trie/encoding.go:111-123 | compactToHex of the empty input is empty; otherwise the result has the terminator iff the flag nibble of c[0] is at least 2; Encoding.CompactRoundTrip makes it the inverse of hexToCompact |
| Nodes.GetNonce | trie/node.go:110-113 | hash and value nodes report the meaningless nonce 0 |
| Nodes.Cache | trie/node.go:100-103 | a full or short node reports its flags; hash and value nodes report (nil, true) |
| Nodes.SetNonce | trie/node.go:105-108 | a full or short node gets the new nonce with everything else kept; hash and value nodes are unchanged |
| Nodes.ReferenceNodesCarryNothing | trie/node.go:100-113 | hash and value nodes cache nothing, have nonce 0, and ignore setNonce |
| Nodes.ChildItems | trie/node.go:62-76 | one item per child |
| Nodes.ItemLayout | trie/node.go:62-89 | a full node encodes as its 17 children (nil as the empty string) and then its 8-byte little-endian nonce; a short node as [key, value, nonce] |
| Nodes.WrapError | trie/node.go:262-271 | nil stays nil; any other error keeps its cause and gains ctx at the end of its path; the nonce panic passes through |
| Nodes.DecodeNode | trie/node.go:151-169 | a decoded node is a short or a full node |
| Nodes.DecodeShort | trie/node.go:171-201 | decodeShort yields a short node |
| Nodes.DecodeSlots | trie/node.go:205-211 | the 16 references are appended to what was decoded before |
| Nodes.DecodedFull | trie/node.go:203-226 | decodeFull yields a full node of 17 children |
| Nodes.FinishFull | trie/node.go:212-223 | the value slot and nonce are added after the 16 references |
| Nodes.DecodeRef | trie/node.go:230-253 | a reference is never a value node, and the rest is shorter than the input |
| Nodes.DecodeFull | trie/node.go:203-226 | the slot loop that advances the elems cursor computes DecodedFull |
| Nodes.DecodeEmpty | trie/node.go:151-154 | decodeNode of an empty buffer is an unexpected-EOF error |
| Nodes.DecodeArity | trie/node.go:155-169 | 3 elements give a short node and 18 a full node of 17 children, clean and carrying the given hash; every other count is an invalid-element-count error |
| Nodes.DecodeShortNode | trie/node.go:171-201 | errors of decodeShort are wrapped in the "short" context |
| Nodes.DecodeShortChild | trie/node.go:171-201 | the child is a value node iff compactToHex(key) has the terminator, and the key is that hex form |
| Nodes.DecodeRefKinds | trie/node.go:230-253 | an embedded list over 32 bytes is rejected; an empty string is nil; a 32-byte string is a hash node; any other string is an error |
| Nodes.ExpandedRefs | trie/node.go:205-211 | one expanded reference per child |
| Nodes.Encode | trie/node.go:62-89 | the consensus encoding of a node is never empty; Nodes.DecodeCollapsed reads it back |
| Nodes.NonceRoundTrip | trie/node.go:184-188 | the nonce field written by EncodeRLP reads back as the nonce |
| Nodes.DecodeCollapsed | trie/node.go:151-253 | decoding the encoding of a collapsed node, followed by any rest, gives its expanded form: hex key, references read back, nonce kept, the given hash, clean |
| Nodes.DecodeShortCollapsed | trie/node.go:171-201 | the same for a short node's payload |
| Nodes.ShortValueRead | trie/node.go:176-189 | a leaf short node reads back with its value and nonce |
| Nodes.ShortRefRead | trie/node.go:191-200 | an extension short node reads back with its expanded reference and nonce |
| Nodes.DecodeFullCollapsed | trie/node.go:203-226 | the same for a full node's payload |
| Nodes.FinishFullOf | trie/node.go:212-223 | slot 16 is set only for a non-empty value string, and the nonce is read little-endian |
| Nodes.DecodeSlotsCollapsed | trie/node.go:205-211 | the 16 encoded slots read back as their expanded references |
| Nodes.DecodeRefCollapsed | trie/node.go:230-253 | a 32-byte hash or a small collapsed node reads back as its expanded form |
| RawNodes.ChildItems | trie/database.go:138-152 | one item per slot |
| RawNodes.ChildCount | trie/database.go:303-309 | the number of set slots is zero iff every slot is nil |
| RawNodes.Simplify | trie/database.go:296-339 | keys and nonces are kept; a full node becomes the two-slot form iff no child is set |
| RawNodes.SimplifySlots | trie/database.go:322-327 | each set slot is simplified and each unset slot stays nil |
| RawNodes.OptSlots | trie/database.go:360-375 | the two-slot form expands to 17 slots |
| RawNodes.ExpandSlots | trie/database.go:351-358 | the expanded children of a full node are as many as the stored ones |
| RawNodes.EncodeSimplified | trie/database.go:138-212 | the stored form encodes exactly as the live node does |
| RawNodes.Expand | trie/database.go:341-394 | expansion never yields a nil node, and a full or short node comes out carrying the given hash, clean; RawNodes.ExpandSimplified ties it to decoding |
| RawNodes.ExpandSimplified | trie/database.go:341-394 | expanding the stored form of a collapsed node gives what decoding its encoding gives: hex key, nonce kept, the given hash, clean |
| RawNodes.DirtyAgreesWithDisk | trie/database.go:236-254 | the object a dirty entry hands out equals the one its blob decodes to |
| RawNodes.EmptyFullUnreadable | trie/database.go:311-375 | a full node with no child set is stored with both slots nil, and expandNode panics on it |
| RawNodes.Gather | trie/database.go:271-292 | every gathered hash is HashLength (32) bytes long; RawNodes.GatherOnlyHashes says where each comes from |
| RawNodes.GatherSkipsValueSlot | trie/database.go:271-292 | gatherChildren never looks at slot 16 |
| RawNodes.GatherOnlyHashes | trie/database.go:271-292 | every hash gatherChildren reports is a hash node inside the stored node |
| Cache.CachedRlp | trie/database.go:236-245 | the blob of a collapsed entry is its non-empty encoding; RawNodes.DirtyAgreesWithDisk ties it to obj |
| Cache.CachedObj | trie/database.go:249-254 | obj always yields a node or a panic: the decoded blob, or the expanded collapsed node |
| Cache.MustDecode | trie/node.go:142-148 | the node is found iff decodeNode succeeds; otherwise it panics |
| Cache.Childs | trie/database.go:258-267 | the external children, each once, then the gathered hashes; together exactly the node's children, each hash as often as the children map holds it (once) plus the number of times the stored node names it |
| Cache.Without | trie/database.go:747-794 | the flush list with hashes removed holds exactly the entries outside the removed set, and is never longer |
| Cache.Unlink | trie/database.go:1062-1076 | the flush list loses exactly the node; head, tail and inner removals are well formed; only links change |
| Cache.FootprintSplit | trie/database.go:789 | the size footprint of a list is additive |
| Cache.DistinctCard | trie/database.go:679-691 | a list without repeats is as long as its set of elements |
| Database.NewEntry | trie/database.go:461-465 | a new entry has size uint16(len(blob)), no parents, a nil children map, and flushPrev the old newest |
| Database.InsertedSizeAsWritten | trie/database.go:479 | the source's uint16 sum HashLength + size, wrapping at 2^16 |
| Database.InsertedSizeWraps | trie/database.go:479 | a 65504-byte blob adds 0 to dirtiesSize, while the removals take 65536 away |
| Database.InsertFootprint | trie/database.go:460-479 | the corrected insert keeps dirtiesSize minus the flush list's footprint unchanged |
| Database.InsertEntry | trie/database.go:460-478 | every dirty child gains its parents, the entry joins as the list's only node or after the old tail, and the list stays well formed |
| Database.AddedParents | trie/database.go:466-470 | the parent count wraps at 2^32 and nothing else changes |
| Database.Bumped | trie/database.go:466-470 | the loop over a new entry's children keeps the dirty keys |
| Database.BumpedAddsParents | trie/database.go:466-470 | each dirty entry gains one parent per occurrence of its hash, and nothing else changes |
| Database.AddParents | trie/database.go:466-470 | the loop computes Bumped |
| Database.Referenced | trie/database.go:701-720 | reference is a no-op for a non-dirty child and for a duplicate reference from a parent other than the meta-root; otherwise it creates a nil children map (48 bytes), bumps the child's parents (uint32) and the parent's counter (uint16), charges 34 bytes when the counter reaches 1, and changes nothing else |
| Database.ReferenceIn | trie/database.go:701-720 | the steps of reference compute Referenced |
| Database.ReferencedKeepsList | trie/database.go:701-720 | reference keeps the flush list and the dirty-key invariant |
| Database.Unreferenced | trie/database.go:748-757 | a positive counter drops by one, and at zero the child's entry leaves the map with its 34 bytes; a nil map or zero counter is left alone |
| Database.FewerAcyclic | trie/database.go:747-801 | dropping keys and edges keeps the dirty nodes acyclic |
| Database.Deref | trie/database.go:747-794 | dereference keeps the invariants; the cascade deletes nothing higher than the child and adds no edge; the list loses exactly the deleted nodes; dirtiesSize loses HashLength + size for each; a child at zero parents is deleted; and the parent counts follow the cascade (Counted): a call is the dereference of the child plus one per childs() entry of each deleted node, every surviving node loses exactly one parent per call it received and keeps at least one if it received any, every deleted node received at least one call and at least as many as it had parents, and no children map but the parent's changes; childrenSize loses the parent's entry when its counter reaches zero and, for each deleted node, 34 bytes per entry its childs() empty plus the 48 bytes of its map (FreedSum) |
| Database.Unref | trie/database.go:748-770 | the parent's counter drops as Unreferenced says and the child's parent count drops by one, never below zero; no key is added or removed, no children map but the parent's and no parent count but the child's changes |
| Database.Release | trie/database.go:771-793 | a node at zero parents leaves the list, each of its childs() entries is dereferenced with it as parent, and it is deleted; the parent counts left follow Counted, as for Deref, and childrenSize loses exactly FreedSum: for the node itself and each node it released, 34 bytes per map entry whose positive counter its childs() reach, and 48 for a non-nil map |
| Database.DerefKids | trie/database.go:785-787 | the loop of a release dereferences every childs() entry: each survivor has lost one parent per call from the entries and the nodes they released, and each deleted node received at least as many calls as it had parents (Partly); the released node's own map has had one decrement per entry dereferenced, and childrenSize has lost its emptied entries and what the released nodes gave back (Drained) |
| Database.UnrefFrame | trie/database.go:748-770 | the two updates of dereference before the cascade keep every key, touch no entry but the parent and the child, change only the parent's children map and only the child's parent count, and never add a child |
| Database.DerefKid | trie/database.go:785-787 | one turn of that loop keeps the invariants and extends Partly and Drained by one childs() entry |
| Database.DrainedStep | trie/database.go:749-756 | one more dereference from the released node decrements its map's entry, giving back 34 bytes when it empties, and adds what its cascade gave back |
| Database.UnreferencedDrops | trie/database.go:749-756 | the first step of dereference on the parent's map is one decrement of the child's positive counter, and childrenSize loses 34 bytes per entry that leaves |
| Database.DroppedAllIs | trie/database.go:749-756 | after a run of dereferences a map keeps exactly the entries whose counters were zero or larger than their calls, each less its calls |
| Database.FreedOwn | trie/database.go:785-792 | a release's loop over its own childs() plus the 48-byte map gives back Freed of the node |
| Database.ReleaseFreed | trie/database.go:785-792 | the map and emptied entries of the released node and what its loop's cascades gave back add up to one FreedSum over the flush list |
| Database.PartlyStep | trie/database.go:785-787 | one more dereference in the loop of a release adds its calls (the entry and the nodes it released) to the counts so far |
| Database.HitsSplit | trie/database.go:785-787 | the calls made by nodes a later dereference releases add to those of the earlier ones |
| Database.ReleaseCounted | trie/database.go:785-788 | once every childs() entry is dereferenced and the released node dropped, the counts satisfy Counted for the release |
| Database.DerefCounted | trie/database.go:771-793 | a child released at one parent or none accounts for its own call plus the calls of its release |
| Database.NoCascade | trie/database.go:759-770 | a child that is not dirty, or survives with one parent fewer, takes exactly one call and nothing is deleted |
| Database.CountedDeletes | trie/database.go:747-794 | on an acyclic dirty map the counts decide the cascade: two outcomes that both satisfy Counted and keep the meta-root delete exactly the same nodes |
| Database.ReachFirstChilds | trie/database.go:1136-1148 | accumulating over all of childs() reaches what Reach does |
| Database.AccumulateIn | trie/database.go:1136-1148 | accumulate adds exactly the dirty nodes reachable from hash |
| Database.AccumulateKids | trie/database.go:1143-1147 | the loop adds what the children reach |
| Database.SecureKey | trie/database.go:670-677 | "secure-key-" followed by the key, 43 bytes for a 32-byte hash |
| Database.NodePuts | trie/database.go:836-881 | one put at most per listed hash |
| Database.PreimagePuts | trie/database.go:821-830 | one put at most per listed preimage |
| Database.ApplyConcat | trie/database.go:826-830 | applying two batches in turn is applying their concatenation |
| Database.Flushed | trie/database.go:836-881 | Cap flushes at most the whole list |
| Database.FlushedStops | trie/database.go:836-881 | before each flushed node the running size was above the limit, and after the last one it is within the limit unless the list is exhausted |
| Database.CapFootprintParts | trie/database.go:877-879 | a flushed node costs HashLength + size, its children overhead and 96 bytes of metadata |
| Database.DropHead | trie/database.go:862-881 | dropping the head keeps the rest of the list well formed |
| Database.Trim | trie/database.go:862-881 | the flushed prefix leaves the map; dirtiesSize and childrenSize lose its costs; the new oldest gets a zero flushPrev; nothing else changes |
| Database.CapTrim | trie/database.go:862-884 | Trim, and the memory use drops by exactly the flushed nodes' costs |
| Database.Write | trie/database.go:857 | a batch write lands all its puts or none |
| Database.PutFlush | trie/database.go:840-850 | a put joins the batch; at the flush threshold the batch is written and reset |
| Database.ListHashes | trie/database.go:821 | map iteration lists each key once |
| Database.PutPreimages | trie/database.go:819-833 | every preimage is put under its secure key, in map order, with batches written above IdealBatchSize; a failed write stops the loop |
| Database.FlushWalk | trie/database.go:835-851 | nodes are put strictly in flush-list order from the oldest, for exactly Flushed steps |
| Database.CapWrite | trie/database.go:819-858 | the preimages (when asked) and then the first Flushed nodes are what reach the disk, in that order |
| Database.CapIn | trie/database.go:803-903 | a failed write leaves dirties and preimages as they were; on success exactly the Flushed prefix is gone, the preimages are dropped when above 4 MiB, and the list stays well formed |
| CommitState.Recached | trie/database.go:1083-1086 | the clean cache gains exactly the uncached nodes, each with its rlp |
| Commit.Clean | trie/database.go:1057-1088 | cleaner.Put ignores a non-dirty hash; a dirty one leaves the list and the map, dirtiesSize loses HashLength + size and the children overhead, and the clean cache receives the blob |
| Commit.CleanAccount | trie/database.go:1077-1082 | removing one node lowers the footprint and the overheads by exactly its share |
| Commit.PutClosed | trie/database.go:977-1031 | a post-ordered put list holds everything each of its nodes reaches |
| Commit.CommitStart | trie/database.go:905-913 | a commit begins with nothing put |
| Commit.CleanNext | trie/database.go:1057-1088 | replaying the first put moves it from the batch into the written part of the commit |
| Commit.Replay | trie/database.go:1036-1038 | replaying a written batch calls cleaner.Put on every put, in order |
| Commit.CommitPut | trie/database.go:1030-1043 | a node whose dirty children are all put joins the batch, which is written and replayed once it reaches IdealBatchSize |
| Commit.Flush | trie/database.go:1033-1043 | a successful write moves the batch to the written part; a failed one changes nothing |
| Commit.CommitNode | trie/database.go:977-1046 | commit is post-order; a non-dirty hash is a no-op; what is put is reached from hash, and a dirty hash is put on success |
| Commit.CommitKids | trie/database.go:985-1029 | each child is committed in turn, and a failure stops the loop |
| Commit.Settled | trie/database.go:905-1046 | wherever a commit stops, the uncached nodes have left the list and the size, were recached, and are on disk with their rlp |
| Commit.Reached | trie/database.go:977-1031 | a complete commit puts exactly what the root reaches |
| Commit.CommitPreimages | trie/database.go:914-932 | every preimage is put before any node |
| Commit.CommitNodes | trie/database.go:934-952 | on success the nodes under root are put in post-order and nothing is left in the batch |
| Commit.CommitIn | trie/database.go:905-975 | preimages first, then exactly the dirty nodes under root, children before parents; on success the preimages are dropped; a failed write keeps them |
| Commit.Unchanged | trie/database.go:977-982 | a commit that put nothing changed nothing |
| Trie.Database.constructor | trie/database.go:413-434 | a fresh database holds only the meta-root with an empty children map, an empty flush list, zero sizes, and a clean cache iff cache > 0 |
| Trie.Database.Insert | trie/database.go:455-484 | a cached hash changes nothing; a new one is appended at the flush-list tail (starting the list when empty), its dirty children gain parents, dirtiesSize grows by HashLength + size (the corrected, unwrapped sum; see ## Findings), and nothing else changes |
| Trie.Database.InsertAll | trie/hasher.go:342-348 | applying the hasher's insertions leaves exactly the old keys plus the inserted ones dirty |
| Trie.Database.InsertNew | trie/database.go:460-479 | the new-entry path of insert |
| Trie.Database.InsertBlob | trie/database.go:444-453 | insert with the blob standing for itself |
| Trie.Database.InsertPreimage | trie/database.go:486-494 | the first write wins; preimagesSize grows by HashLength + the preimage's length |
| Trie.Database.Reference | trie/database.go:693-720 | the dirty map and childrenSize become Referenced of the old ones |
| Trie.Database.Dereference | trie/database.go:722-794 | the fields take the outcome Dereferenced states (Database.DerefRoot) |
| Database.DerefRoot | trie/database.go:722-794 | dereferencing the zero hash changes nothing; otherwise dereference(root, meta-root) keeps the flush list and acyclicity, the list and dirtiesSize lose exactly the deleted nodes, a root at one parent or none is deleted and one at more loses one parent, every parent count is as Counted states, and childrenSize loses the meta-root's emptied entry and FreedSum of the deleted nodes (Dereferenced) |
| Trie.Database.CleanerPut | trie/database.go:1057-1088 | cleaner.Put on the database's fields |
| Trie.Database.Cap | trie/database.go:803-903 | as CapIn, on the fields |
| Trie.Database.Commit | trie/database.go:905-1046 | as CommitIn, on the fields |
| Trie.Database.GetNode | trie/database.go:534-590 | lookup order is the clean cache (decoded), then dirties (cachedNode.obj), then the disk; a disk hit is stored in the clean cache |
| Trie.Database.Node | trie/database.go:592-652 | the zero hash is a not-found error; otherwise the blob comes from the clean cache, dirties or the disk, and a disk hit enters the clean cache |
| Trie.Database.Preimage | trie/database.go:654-668 | the cached preimage, else the disk under the secure key, else an error |
| Trie.Database.Nodes | trie/database.go:679-691 | every dirty hash but the meta-root, once each |
| Trie.Database.Size | trie/database.go:1096-1112 | the memory use Cap compares with its limit, and preimagesSize |
| Trie.Database.Accumulate | trie/database.go:1136-1148 | adds exactly the dirty nodes reachable from hash |
| Trie.Database.VerifyIntegrity | trie/database.go:1114-1134 | no panic iff every dirty node is reachable from the meta-root's external children |
| Hasher.EncodeBlockNumber | trie/hasher.go:630-634 | 8 bytes that read back big-endian as the number |
| Hasher.ValidHash | trie/hasher.go:537-541 | the first two hash bytes are the last two big-endian bytes of the block number |
| Hasher.PrefixPeriod | trie/hasher.go:537-541 | block numbers with the same low 16 bits accept the same hashes |
| Hasher.ModifiedHash | trie/hasher.go:545-561 | the result passes validHash, has the same length, and is unchanged from PrefixLength on |
| Hasher.ModifiedHashFixes | trie/hasher.go:545-561 | modifyHash leaves a hash unchanged iff it already passes validHash |
| Hasher.ModifyHash | trie/hasher.go:545-561 | short and full nodes get their buffer overwritten in place with ModifiedHash, which is returned; other nodes leave it untouched and get nil |
| Hasher.I64tob | trie/hasher.go:599-605 | the 8-byte little-endian form, the nonce field's encoding, reading back as the value |
| Hasher.Fnv | trie/hasher.go:612-614 | for a fixed b, fnv can be undone |
| Hasher.FnvInverse | trie/hasher.go:612-614 | (a·0x01000193 mod 2^32) xor b is invertible in a |
| Hasher.FnvMix | trie/hasher.go:618-622 | the mix keeps its length |
| Hasher.FnvMixRoundTrip | trie/hasher.go:618-622 | mixing is undone word by word given the data |
| Hasher.FnvHash | trie/hasher.go:618-622 | each mix[i] becomes fnv(mix[i], data[i]) in place |
| Hasher.HeaderHashKey | trie/hasher.go:655-659 | "h", then the big-endian number, then "n" |
| Hasher.HeaderKey | trie/hasher.go:663-666 | "h", then the big-endian number, then the hash |
| Hasher.HeaderKeysDistinct | trie/hasher.go:655-666 | distinct blocks get distinct keys, and a canonical-hash key is never a header key |
| Hasher.SlotsUpTo | trie/hasher.go:172-179 | the loop over the 16 branch slots keeps 17 slots |
| Hasher.Hash | trie/hasher.go:88-145 | computes HashSpec; a cached hash is returned without encoding when there is no database and no nonce log (or the node is clean); with a database a clean node is replaced by its hash node |
| Hasher.HashChildren | trie/hasher.go:150-187 | computes ChildrenSpec |
| Hasher.Store | trie/hasher.go:192-367 | computes StoreSpec with nonce 0; nil and hash nodes, and encodings below 32 bytes without force, pass through unchanged with no effect |
| Hasher.NewHash | trie/hasher.go:249-340 | the hash store settles on, per mode |
| Hasher.NewIndexedHash | trie/hasher.go:260-332 | the mining and replay branches with FakeIMPT |
| Hasher.ModifiedHashNode | trie/hasher.go:527-533 | makeHashNode followed by modifyHash gives ModifiedHash of the digest |
| Hasher.TrackLeaves | trie/hasher.go:350-363 | onleaf is called for a short node's value child and for each value child in slots 0-15 |
| Hasher.GrowsTrans | trie/hasher.go:88-367 | the effect ordering composes |
| Hasher.StoreGrows | trie/hasher.go:192-367 | store only appends to the nonce log, the insertions and the leaf calls; bumps count only in replay; inserts only with a database |
| Hasher.HashGrows | trie/hasher.go:88-145 | the same for a whole hashing run |
| Hasher.ChildrenGrows | trie/hasher.go:150-187 | the same for hashChildren |
| Hasher.BumpAdd | trie/hasher.go:331 | incrementing count a then b times is incrementing it a+b times (uint64) |
| Hasher.LoggedTrans | trie/hasher.go:308-331 | mining and replay stay in step across calls |
| Hasher.IndexedAgree | trie/hasher.go:260-332 | one dirty node appends one nonce in mining mode and bumps count once in replay, with the same hash |
| Hasher.StoreAgree | trie/hasher.go:192-367 | store agrees between mining and replay |
| Hasher.MiningReplayAgree | trie/hasher.go:88-332 | hashing a tree in mining and in replay mode yields the same nodes, and the number of nonces appended in mining equals the number of count increments in replay |
| Hasher.ChildrenShape | trie/hasher.go:150-187 | the collapsed short key is hexToCompact(key); value children are not recursed into; slot 16 is carried over; nils stay nil; nonce and flags are kept |
| Hasher.HashRecaches | trie/hasher.go:117-141 | the cached copy carries the new hash (or nil), nonce 0, and a dirty flag cleared only with a database |
| Hasher.CommitReusesHash | trie/hasher.go:203-348 | with a database, store inlines small nodes; otherwise it keeps the node's cached hash and inserts under it, which is the zero hash when none was cached |
| Hasher.IndexedHashValid | trie/hasher.go:260-316 | without a database, a dirty node gets ModifiedHash of its digest, which passes validHash; mining appends nonce 0 and replay counts one |
| Hasher.SimplifiableHashable | trie/hasher.go:150-187 | any node the database can store can be hashed without touching a nil node |
| Hasher.HashInsertable | trie/hasher.go:88-145 | every node the hasher inserts is one simplifyNode accepts, under a 32-byte hash |
| Hasher.ChildrenInsertable | trie/hasher.go:150-187 | the same for hashChildren |
| Hasher.InsertedKeys | trie/hasher.go:342-348 | the set of hashes inserted, and no other |

## Left out

- The mining workers `trieNodeMining` and `imptMine` (trie/hasher.go:370-525), and the non-`FakeIMPT` branches of `store` (trie/hasher.go:267-307, 317-330). They rely on goroutines, channels, random seeds and a header dataset that is not part of this model. `FakeIMPT` is fixed to true, as in the source.
- `ReadCanonicalHash` and `ReadHeaderRLP` (trie/hasher.go:670-703): reads from a global database. Only the key builders `headerHashKey` and `headerKey` are modelled.
- `_modifyHash` (trie/hasher.go:563-596): nothing calls it.
- Keccak-256 and `makeHashNode`'s hashing state: the digest is the parameter `keccak`. `makeHashNode` then `modifyHash` is `Hasher.ModifiedHashNode`.
- The `h.tmp` buffer reuse, `copy()` of nodes, and the in-place updates of the cached copy's flags and nonce (trie/hasher.go:126-141). Nodes are values here, so a copy is the value itself and the update returns a new value.
- The pointers `trieNonces` and `count`, the `db.insert` calls and the `onleaf` callbacks of the hasher are recorded in `Hasher.Effects`, in call order. `Trie.Database.InsertAll` applies the recorded insertions.
- Hasher errors: `hash`, `hashChildren` and `store` only ever return nil errors, so the error results are dropped. A panic on encoding (impossible for these values) is not modelled.
- Hasher.Hash: requires `Hashable`. This holds of every tree the trie builds, because the Go code would call a method on a nil child otherwise. `Hasher.SimplifiableHashable` connects it to what the database stores.
- Locks, metrics meters, timers, log calls, the file logging inside `node` and `Node` (trie/database.go:553-577, 615-640), bigcache configuration and eviction, the bigcache hasher `trienodeHasher`, `GetProperDBIndex` and the global `GlobalTrieNodeDB`, `DiskDB`, and `cleaner.Delete`, which only panics.
- The pretty printers `fstring` and `infostring` (trie/node.go:121-140, 278-322).
- `StorageSize` is a float64 in Go and an `int` here. This is exact below 2^53. `cachedNodeSize` is the 96 bytes reflect reports on a 64-bit build.
- The flush list, the zombie set and the acyclicity height are ghost bookkeeping. The Go code recurses forever on a cyclic dirty graph.
- Trie.Database.Dereference, Trie.Database.Commit, Trie.Database.Accumulate and Trie.Database.VerifyIntegrity require `Acyclic` (a ghost height) for termination.
- Trie.Database.Commit: requires the root to differ from the zero hash. Committing the meta-root would write it to disk and delete it through the cleaner, which no caller does.
- Trie.Database.Reference: requires the parent to be dirty when the child is (Go dereferences a nil entry otherwise).
- Trie.Database.Insert: requires a node simplifyNode accepts (it panics on a nil node outside a full node's slots).
- Trie.Database.CleanerPut: requires a key other than the meta-root's.
- Encoding.Keybytes, Encoding.HexToKeybytes and Encoding.DecodeNibbles: an odd nibble count panics in Go and is excluded by the requires.
- Encoding.CompactToHashPrefix: Go indexes `compact[0]`, so the empty input is excluded.
- Hasher.FnvHash: Go panics when data is shorter than mix, which the requires excludes.
- Hasher.ModifyHash: the hash of a short or full node has at least PrefixLength bytes.
- `Encoding.HasTerm` is the source's condition itself (non-empty and last nibble 16), so it has no separate contract. `Encoding.CompactToHex` and `Nodes.DecodeShortChild` state its role.
- `batch.Put` never fails here; only `Write` can (trie/database.go:822, 839, 915, 1029 check both). A failed put returns before the batch is written, so it leaves the same state as a failed `Write` of that batch.
- `rlp.Encode` failing (trie/hasher.go:200-202) cannot happen for these values and is not modelled.
- The `rlp` package, `common` and `ethdb` are not part of this model's sources. `IdealBatchSize` is 100 KiB, its go-ethereum value.
- Map iteration order (preimages, external children, `Nodes`) is left open: any order of the keys is allowed.

## Findings

| source | as written | input that shows it | evidently intended | confidence | as-written member | corrected member |
|---|---|---|---|---|---|---|
| trie/database.go:479 | `common.HashLength + entry.size` is computed in uint16, the type of `entry.size`, so it wraps at 2^16 | a 65504-byte blob: insert adds 0 to `dirtiesSize`, while dereference, `Cap` and `cleaner.Put` (trie/database.go:789, 877, 1079) subtract 65536 for the same entry | the sum in `int`, as the removals compute it | not executed | Database.InsertedSizeWraps | Trie.Database.Insert |
