# Kagome core, modelled in Dafny

This project models six pieces of a Polkadot node's C++ core and proves
properties of the models:

- **The cached block tree** (`tree_nodes.dfy`, `tree_meta.dfy`,
  `cached_tree.dfy`). Nodes live in an arena: a map from block hash to node.
  Each node names its parent by hash and its children by an ordered sequence
  of hashes, because `applyToChain` records child positions.
  - The `TreeNode` constructors and their epoch-digest inheritance are
    functions.
  - `findByHash` is a breadth-first queue loop.
  - `applyToChain` is two loops: the upward one records fork choices, the
    downward one replays them. Both are proved against a reference walk
    (`Walk` along `Path`).
  - The `TreeMeta` constructor is a loop along single-child chains with
    recursion at forks. It is proved to collect exactly the childless blocks
    and the first deepest one.
  - The `CachedTree` class updates `nodes`, `root` and `meta` in
    `updateMeta`, `removeFromMeta` and `updateTreeRoot`. Each keeps the tree
    and metadata invariants (`TreeValid`, `MetaValid`).
- **The overlay trie batch** (`topper_trie_batch.dfy`). A write-back cache
  over a parent key-value batch:
  - an ordered map from key to optional value, where `None` means removed;
  - a list of cleared prefixes;
  - a weak parent that may have expired.

  Reads follow this precedence: the cache, then the cleared prefixes, then
  the parent. `writeBack` replays the cleared prefixes and then the cache, in
  key order, onto the parent. When the parent applies the operations with
  their usual meaning, the parent then shows exactly what the batch showed.
- **The blocks response cache** of the sync protocol
  (`blocks_response_cache.dfy`). A fixed array of slots, a peer-to-slot
  lookup table and a free-slot set. Each record holds a bounded ring of
  request fingerprints and an expiry time. `isDuplicate`, `cache` and `purge`
  keep the slot-ownership invariant.
- **The byte buffer** (`buffer.dfy`):
  - appenders, including big-endian 32- and 64-bit numbers;
  - `BufferView` equality and lexicographic order;
  - `is_hex` and the `_buf` literal;
  - the short and long text rendering of `fmt::formatter<Buffer>` and its
    format-specification parser.
- **Pointer-size packing** of runtime call results (`ptr_size.dfy`), on
  32- and 64-bit bit-vectors.
- **Consensus digest dispatch** (`digest.dfy`). The engine identifiers,
  `DecodedConsensusMessage::create`, the digest-type tests and the
  `Consensus` constructor. SCALE encoding and decoding are the functions of a
  `Codec` value.

`wrappers.dfy` holds the `Option` and `Result` types.

The model follows the code, with one exception: the prefix test of the
overlay batch is modelled as intended, and the code as written is a
finding (see "## Findings"). Points where the code's behaviour may be
unexpected:
- After `removeFromMeta`, the deepest leaf is the first leaf, in set order,
  that is deeper than the removed block's parent. It is not necessarily a
  leaf of maximal depth. The parent becomes the deepest leaf only when the
  scan ran to the end, so every stale hash was erased and no remaining leaf
  is deeper than it.
- The leaf set may keep hashes of blocks that were cut off with a subtree.
  `MetaValid` states that every childless block is a leaf, that a listed
  hash still in the tree is childless, and that the deepest leaf is a
  childless block of the tree.
- `empty()` of the overlay ignores the cleared prefixes
  (`TopperTrieBatch.EmptyIgnoresClearedPrefixes`), as a comment in the
  source acknowledges.

## Model

| member | source | states |
|---|---|---|
| TreeNodes.NewNode | core/blockchain/impl/cached_tree.cpp:23-39 | a parentless, childless node with the given hash, depth, epoch, finality and both digests as given |
| TreeNodes.NewChildNode | core/blockchain/impl/cached_tree.cpp:41-75 | with a parent: the parent link, and the current digest is the parent's current one in the same epoch or its next one across epochs. The next digest is the supplied one, else the parent's. Without a parent a digest is required and is both digests |
| TreeNodes.SameEpochChildInheritsDigests | core/blockchain/impl/cached_tree.cpp:54-58 | a same-epoch child created without a supplied digest carries both of its parent's digests |
| TreeNodes.EpochChangePromotesNextDigest | core/blockchain/impl/cached_tree.cpp:54-74 | across an epoch change the parent's next digest becomes the child's current digest; a supplied digest becomes the child's next one |
| TreeNodes.SameNode | core/blockchain/impl/cached_tree.cpp:149-157 | every node equals itself, and equal nodes have the same hash and depth |
| TreeNodes.IndexOf | core/blockchain/impl/cached_tree.cpp:98-103 | the first position at which the child occurs (the `find_if` of the upward walk) |
| CachedTree.SameNodeIffSameBlock | core/blockchain/impl/cached_tree.cpp:149-157 | in a linked tree, `operator==` (same parent, hash and depth) holds exactly between a block and itself |
| TreeNodes.PathDepths | core/blockchain/impl/cached_tree.cpp:93-126 | the blocks from `from` to the chain end go down one level per step, so they have strictly increasing depth |
| TreeNodes.LeafOrderIsLeaves | core/blockchain/impl/cached_tree.cpp:169-190 | the leaves met by the depth-first walk of a subtree are exactly its childless blocks |
| TreeNodes.LeafOrderSingleChild | core/blockchain/impl/cached_tree.cpp:172-174 | following a single child does not change the leaves met |
| TreeNodes.PickDeepest | core/blockchain/impl/cached_tree.cpp:181-183 | the result is at least as deep as everything considered; a replaced choice was strictly shallower; a new choice is the first leaf of that depth |
| TreeNodes.PickDeepestAppend | core/blockchain/impl/cached_tree.cpp:186-188 | walking the children in turn picks the same deepest leaf as one pass over all their leaves |
| TreeMeta.CollectLeaves | core/blockchain/impl/cached_tree.cpp:169-190 | the walk of a subtree adds exactly its childless blocks to the leaves and moves the deepest leaf as the strict-`>` pick over them, in walk order |
| TreeMeta.CollectChildren | core/blockchain/impl/cached_tree.cpp:184-189 | the fork case walks every child in order and adds exactly their leaves |
| TreeMeta.BuildMeta | core/blockchain/impl/cached_tree.cpp:163-193 | the leaves are exactly the childless blocks of the subtree. The deepest leaf is a childless block of the subtree, at least as deep as every leaf, and the first such in walk order. The last finalized block is the subtree root, with the given justification |
| TreeMeta.Attach | core/blockchain/impl/cached_tree.cpp:239-241 | the arena gains exactly the new block, appended to its parent's children |
| TreeMeta.AttachValid | core/blockchain/impl/cached_tree.cpp:239-241 | linking a fresh childless block one level below a block of the tree keeps it a tree under the same root |
| TreeMeta.AttachMeta | core/blockchain/impl/cached_tree.cpp:243-248 | the new leaves are the old ones plus the new block minus its parent. The deepest leaf changes, to the new block, only when that block is strictly deeper. Finality is untouched |
| TreeMeta.AttachMetaValid | core/blockchain/impl/cached_tree.cpp:239-249 | `updateMeta` keeps the metadata faithful to the grown tree |
| TreeMeta.Unlinked | core/blockchain/impl/cached_tree.cpp:258-261 | erasing `h` from a child list removes its first occurrence and nothing else, and is a no-op when `h` is absent |
| TreeMeta.Prune | core/blockchain/impl/cached_tree.cpp:251-262 | the arena `removeFromMeta` leaves: exactly the blocks outside `h`'s subtree, unchanged except that `h` is unlinked from its parent's children |
| TreeMeta.PruneValid | core/blockchain/impl/cached_tree.cpp:251-262 | cutting off a non-root block keeps a tree under the same root. Exactly the cut subtree disappears, and the parent loses `h` from its children |
| TreeMeta.RemovedMetaValid | core/blockchain/impl/cached_tree.cpp:263-283 | the repaired leaves and deepest leaf are faithful to the pruned tree, the deepest leaf childless, provided the deepest leaf was not strictly inside the cut subtree |
| TreeMeta.Reroot | core/blockchain/impl/cached_tree.cpp:204-222 | after advancing the root, exactly the new root's subtree remains |
| TreeMeta.RerootValid | core/blockchain/impl/cached_tree.cpp:204-222 | the remaining blocks form a tree rooted at the new root, with their child lists unchanged |
| CachedTree.WalkShape | core/blockchain/impl/cached_tree.cpp:113-126 | `op` is called on a non-empty prefix of the path, and every call but the last returned `CONTINUE`. The walk ends early only on an exit or an error, and an error is the result |
| CachedTree.WalkStopsAt | core/blockchain/impl/cached_tree.cpp:114-117 | the walk stops at the first block where `op` exits (success) or fails (that error) |
| CachedTree.WalkEnd | core/blockchain/impl/cached_tree.cpp:113-128 | when `op` continues everywhere it is called on every block of the path and the result is success |
| CachedTree.ChildTaken | core/blockchain/impl/cached_tree.cpp:118-122 | the downward walk goes to a child of the current block: the only one, or at a fork the recorded branch |
| CachedTree.FindByHash | core/blockchain/impl/cached_tree.cpp:131-147 | a node is returned exactly when the hash is in the receiver's subtree, and then it is that block's node |
| CachedTree.ForkChoices | core/blockchain/impl/cached_tree.cpp:93-107 | the upward walk records, at every fork of the path, the index of the branch the path takes |
| CachedTree.WalkDown | core/blockchain/impl/cached_tree.cpp:112-126 | following single children and recorded branches, the do-while calls `op` exactly as the reference walk along the path to the chain end does |
| CachedTree.ApplyToChain | core/blockchain/impl/cached_tree.cpp:77-129 | a chain end outside the subtree gives `NO_CHAIN_BETWEEN_BLOCKS` before `op` runs. Otherwise the result and the blocks `op` saw are those of the walk along the path from the receiver to the chain end |
| CachedTree.RescanLeaves | core/blockchain/impl/cached_tree.cpp:268-283 | the rescan only drops hashes no longer in the tree. The deepest leaf becomes a leaf still in the tree that is deeper than the parent; it stays the parent only when every kept leaf is in the tree and no deeper than the parent |
| CachedTree.RepairedMeta | core/blockchain/impl/cached_tree.cpp:263-283 | the leaves and deepest leaf computed by the repair are the metadata `RemovedMeta` describes: exactly the updated leaf set when `h` was not the deepest leaf, the rescan's result otherwise; when the parent is chosen, every kept leaf is in the tree and no deeper than the parent. The metadata is faithful to the pruned tree under the deepest-leaf condition |
| CachedTree.Removal | core/blockchain/impl/cached_tree.cpp:251-284 | the arena loses exactly `h`'s subtree and stays a tree. The leaves lose `h` and gain the parent once it is childless, and nothing else changes unless `h` was the deepest leaf; then the rescan drops only vanished hashes and takes a deeper leaf, or the parent when the full scan erased every stale hash and found none deeper (`RemovedMeta`) |
| CachedTree.Rerooted | core/blockchain/impl/cached_tree.cpp:204-222 | only the new root's subtree remains, as a tree rooted there, with freshly built metadata |
| CachedTree.CachedTree.UpdateMeta | core/blockchain/impl/cached_tree.cpp:239-249 | the block is linked under its parent, the metadata becomes `AttachMeta`, and both invariants hold |
| CachedTree.CachedTree.RemoveFromMeta | core/blockchain/impl/cached_tree.cpp:251-284 | a no-op for an absent or parentless block. Otherwise the subtree is cut off and the metadata repaired exactly as `RemovedMeta` describes (leaf set, rescan and deepest-leaf choice; when the parent is chosen, every stale hash was erased); both invariants hold unless the deepest leaf was cut off |
| CachedTree.CachedTree.UpdateTreeRoot | core/blockchain/impl/cached_tree.cpp:204-222 | the new root's subtree remains, rooted there. The leaves are exactly its childless blocks, the deepest leaf is the first deepest in walk order, and the root is finalized with the justification |
| TopperTrieBatch.ClearedByPrefix | core/storage/trie/impl/topper_trie_batch_impl.cpp:139-147 | the scan of the recorded prefixes, as intended: true exactly when some recorded prefix is a prefix of the key |
| TopperTrieBatch.ClearedByPrefixAsWritten | core/storage/trie/impl/topper_trie_batch_impl.cpp:139-147 | the loop as written: some recorded prefix agrees with the key on the first min(key length, prefix length) - 1 bytes |
| TopperTrieBatch.ClearedByPrefixAsWrittenOverreports | core/storage/trie/impl/topper_trie_batch_impl.cpp:139-147 | prefix `[1,2]` is reported as covering key `[1,3]`, which it does not. So a value that `writeBack` leaves in the parent reads as absent |
| TopperTrieBatch.ClearedByPrefixImpliesAsWritten | core/storage/trie/impl/topper_trie_batch_impl.cpp:139-147 | the shortened test never misses a true prefix |
| TopperTrieBatch.Lookup | core/storage/trie/impl/topper_trie_batch_impl.cpp:38-53 | a cached entry wins; else a covering cleared prefix gives absent; else the parent's answer, or `PARENT_EXPIRED` when it is gone |
| TopperTrieBatch.Holds | core/storage/trie/impl/topper_trie_batch_impl.cpp:62-74 | `contains` is true exactly when the lookup succeeds with a value, so an expired parent reads as absent |
| TopperTrieBatch.ExpiredParentFallThrough | core/storage/trie/impl/topper_trie_batch_impl.cpp:49-53 | falling through to an expired parent, `tryGet` fails with `PARENT_EXPIRED` but `contains` is false |
| TopperTrieBatch.SortedKeys | core/storage/trie/impl/topper_trie_batch_impl.cpp:127 | as many keys as the set holds, all from the set, each strictly below the next in byte order |
| TopperTrieBatch.SortedKeysComplete | core/storage/trie/impl/topper_trie_batch_impl.cpp:127 | the ordered iteration visits every cache key and nothing else |
| TopperTrieBatch.PrefixOps | core/storage/trie/impl/topper_trie_batch_impl.cpp:124-126 | one `clearPrefix` per recorded prefix, in recording order |
| TopperTrieBatch.ReplayPrefixes | core/storage/trie/impl/topper_trie_batch_impl.cpp:124-126 | with a parent of usual meaning, replaying the prefixes removes exactly the keys under some prefix |
| TopperTrieBatch.ReplayCache | core/storage/trie/impl/topper_trie_batch_impl.cpp:127-133 | replaying the cache writes each present value and removes each absent one |
| TopperTrieBatch.WriteBackPreservesView | core/storage/trie/impl/topper_trie_batch_impl.cpp:122-137 | after `writeBack` to a parent of usual meaning, the parent shows for every key what the batch did |
| TopperTrieBatch.ClearedCache | core/storage/trie/impl/topper_trie_batch_impl.cpp:110-113 | the same cache keys; those under the prefix become removed, the others keep their entries |
| TopperTrieBatch.TopperTrieBatch.constructor | core/storage/trie/impl/topper_trie_batch_impl.cpp:25-27 | an empty cache, no cleared prefix, a live parent |
| TopperTrieBatch.TopperTrieBatch.WasClearedByPrefix | core/storage/trie/impl/topper_trie_batch_impl.cpp:139-147 | the prefix scan, corrected: true exactly when the key lies under some recorded prefix |
| TopperTrieBatch.TopperTrieBatch.TryGet | core/storage/trie/impl/topper_trie_batch_impl.cpp:38-53 | the answer of `Lookup` on the current state |
| TopperTrieBatch.TopperTrieBatch.Get | core/storage/trie/impl/topper_trie_batch_impl.cpp:29-36 | the value when the lookup finds one; `NO_VALUE` when absent; `PARENT_EXPIRED` passed through |
| TopperTrieBatch.TopperTrieBatch.Contains | core/storage/trie/impl/topper_trie_batch_impl.cpp:62-74 | the answer of `Holds` on the current state |
| TopperTrieBatch.TopperTrieBatch.Empty | core/storage/trie/impl/topper_trie_batch_impl.cpp:76-89 | false when a cached entry holds a value. Otherwise true exactly when the parent has expired or is empty |
| TopperTrieBatch.TopperTrieBatch.Put | core/storage/trie/impl/topper_trie_batch_impl.cpp:91-100 | succeeds and caches the value. The parent and prefixes are untouched, and the key then reads as that value and is contained |
| TopperTrieBatch.TopperTrieBatch.Remove | core/storage/trie/impl/topper_trie_batch_impl.cpp:102-106 | succeeds and caches the removal. The parent and prefixes are untouched, and the key then reads as absent and is not contained |
| TopperTrieBatch.TopperTrieBatch.ClearPrefix | core/storage/trie/impl/topper_trie_batch_impl.cpp:108-120 | cached keys under the prefix become removed and the prefix is recorded. Returns `(true, 0)` with a live parent, else `PARENT_EXPIRED`, keeping the local change in both cases |
| TopperTrieBatch.TopperTrieBatch.WriteBack | core/storage/trie/impl/topper_trie_batch_impl.cpp:122-137 | an expired parent gives `PARENT_EXPIRED` and no change. Otherwise the prefixes and then the cache, in key order, are replayed onto the parent, stopping at its first error |
| TopperTrieBatch.ClearPrefixView | core/storage/trie/impl/topper_trie_batch_impl.cpp:108-120 | after `clearPrefix` keys under it read as absent and other keys read as before |
| TopperTrieBatch.EmptyIgnoresClearedPrefixes | core/storage/trie/impl/topper_trie_batch_impl.cpp:76-89 | a batch whose only cleared prefix (non-empty) covers every key of a non-empty live parent reads every key as absent, yet is not `empty()` |
| BlocksResponseCache.BoundedPush | core/network/impl/protocols/sync_protocol_impl.cpp:86-91 | the fingerprint goes last; the ring grows by one until full and then keeps its capacity |
| BlocksResponseCache.BoundedPushKeepsNewest | core/network/impl/protocols/sync_protocol_impl.cpp:86-91 | the ring holds the newest fingerprints: a suffix of the old ones followed by the new one |
| BlocksResponseCache.Initial | core/network/impl/protocols/sync_protocol_impl.cpp:22-33 | `capacity` empty slots, all of them free, no peer cached |
| BlocksResponseCache.InitialValid | core/network/impl/protocols/sync_protocol_impl.cpp:22-33 | the initial table satisfies the slot-ownership invariant |
| BlocksResponseCache.Purged | core/network/impl/protocols/sync_protocol_impl.cpp:103-123 | the same number of slots; exactly the live peers stay in the lookup table, each with its old slot |
| BlocksResponseCache.PurgedValid | core/network/impl/protocols/sync_protocol_impl.cpp:103-123 | `purge` keeps the slot-ownership invariant |
| BlocksResponseCache.PurgeSeparatesLiveFromStale | core/network/impl/protocols/sync_protocol_impl.cpp:103-123 | a stale peer is dropped and its slot emptied and freed; a live peer keeps its slot and record untouched |
| BlocksResponseCache.NewRecord | core/network/impl/protocols/sync_protocol_impl.cpp:86-97 | the peer, the expiry `now + expiration`, and the previous fingerprints (if any) with the new one pushed, within the bound |
| BlocksResponseCache.Placed | core/network/impl/protocols/sync_protocol_impl.cpp:99-100 | the record is stored in the slot, the peer owns the slot, and the slot is not free |
| BlocksResponseCache.PlacedValid | core/network/impl/protocols/sync_protocol_impl.cpp:71-100 | storing into a free slot for a new peer, or into the peer's own slot, keeps the invariant |
| BlocksResponseCache.Touched | core/network/impl/protocols/sync_protocol_impl.cpp:56-64 | a live record's expiry is prolonged and it then holds the fingerprint. A known fingerprint leaves the ring as it was; nothing else changes |
| BlocksResponseCache.TouchedValid | core/network/impl/protocols/sync_protocol_impl.cpp:56-64 | prolonging a record keeps the invariant |
| BlocksResponseCache.RecordedFingerprintIsDuplicate | core/network/impl/protocols/sync_protocol_impl.cpp:35-65 | once a record is written for a request, the same request before expiry finds a live record holding its fingerprint |
| BlocksResponseCache.BlocksResponseCache.constructor | core/network/impl/protocols/sync_protocol_impl.cpp:22-33 | the table is `Initial` and the invariant holds |
| BlocksResponseCache.BlocksResponseCache.Purge | core/network/impl/protocols/sync_protocol_impl.cpp:103-123 | the erase-while-iterating loop leaves exactly the `Purged` table, and the invariant holds |
| BlocksResponseCache.BlocksResponseCache.PurgeEntry | core/network/impl/protocols/sync_protocol_impl.cpp:106-121 | one examined peer moves the table one step towards `Purged` |
| BlocksResponseCache.BlocksResponseCache.CacheNew | core/network/impl/protocols/sync_protocol_impl.cpp:71-101 | purges when no slot is free; then either nothing else happens (still full) or a free slot now holds the peer's fresh record; the invariant holds |
| BlocksResponseCache.BlocksResponseCache.CacheAt | core/network/impl/protocols/sync_protocol_impl.cpp:67-101 | the record is rebuilt in the peer's own slot from the old fingerprints and the new one; the invariant holds |
| BlocksResponseCache.BlocksResponseCache.IsDuplicate | core/network/impl/protocols/sync_protocol_impl.cpp:35-65 | true exactly when the peer has a live record that already holds the fingerprint. A new peer is cached, a stale record is rebuilt in place and a live one touched; the invariant holds |
| Buffer.ViewEquals | core/common/buffer.hpp:291-293 | true exactly when the two byte sequences are equal |
| Buffer.LexLess | core/common/buffer.hpp:295-298 | a smaller buffer differs from the other, which is not empty; a proper prefix is smaller |
| Buffer.LexLessIsStrictlyBefore | core/common/buffer.hpp:295-298 | `<` holds exactly when the view is a proper prefix of the buffer or smaller at the first difference |
| Buffer.LexLessIrreflexive | core/common/buffer.hpp:295-298 | no buffer is less than itself |
| Buffer.LexLessAsymmetric | core/common/buffer.hpp:295-298 | `a < b` excludes `b < a` |
| Buffer.LexLessTransitive | core/common/buffer.hpp:295-298 | the order is transitive |
| Buffer.LexLessTotal | core/common/buffer.hpp:295-298 | of two different byte strings one is less than the other |
| Buffer.IsHex | core/common/buffer.hpp:312-315 | true exactly for `0-9`, `A-F` and `a-f` |
| Buffer.Literal | core/common/buffer.hpp:305-310 | the literal's characters as bytes, same length, unhexed |
| Buffer.Hex | core/common/buffer.hpp:218-222 | two characters of hex text per byte |
| Buffer.HexIsHex | core/common/buffer.hpp:218-222 | every character of the hex text passes `is_hex` |
| Buffer.HexAppend | core/common/buffer.hpp:218-222 | the hex of a concatenation is the concatenation of the hex texts |
| Buffer.BigEndianRoundTrip | core/common/buffer.hpp:135-147 | reading the appended big-endian bytes back gives the number |
| Buffer.Buffer.Filled | core/common/buffer.hpp:42-45 | `size` copies of the byte |
| Buffer.Buffer.FromBytes | core/common/buffer.hpp:49-52 | the buffer holds the vector's bytes |
| Buffer.Buffer.Size | core/common/buffer.hpp:124-127 | the number of bytes the buffer holds |
| Buffer.Buffer.Empty | core/common/buffer.hpp:224-228 | true exactly when the size is 0 |
| Buffer.Buffer.PutUint8 | core/common/buffer.hpp:129-133 | the byte is appended |
| Buffer.Buffer.PutUint32 | core/common/buffer.hpp:135-140 | the four big-endian bytes of `n` are appended and read back as `n` |
| Buffer.Buffer.PutUint64 | core/common/buffer.hpp:142-147 | the eight big-endian bytes of `n` are appended and read back as `n` |
| Buffer.Buffer.PutString | core/common/buffer.hpp:149-154 | the string's characters are appended as bytes |
| Buffer.Buffer.PutBytes | core/common/buffer.hpp:156-176 | the bytes of the vector, span or pointer range are appended |
| Buffer.Buffer.PutBuffer | core/common/buffer.hpp:178-183 | the other buffer's content is appended |
| Buffer.Buffer.Clear | core/common/buffer.hpp:185-188 | the buffer becomes empty |
| Buffer.Render | core/common/buffer.hpp:365-385 | `"empty"` for no bytes. With `'s'` and more than 5 bytes, `0x`, the hex of the first two bytes, `…` and the hex of the last two. Otherwise `0x` and the full hex |
| Buffer.EndsAsHex16 | core/common/buffer.hpp:373-382 | `{:04x}` of the `htobe16` value of two bytes is the hex of those two bytes, at either end |
| Buffer.Hex16OfPair | core/common/buffer.hpp:376-381 | four hex digits of `hi*256+lo` are the two digits of `hi` then those of `lo` |
| Buffer.Formatter.constructor | core/common/buffer.hpp:342-343 | the presentation starts as short |
| Buffer.Formatter.Parse | core/common/buffer.hpp:346-360 | accepts exactly an optional `s`/`l` followed by the end or `}`. The position returned is at the end or at `}`, and the presentation is set only when a letter was read |
| Buffer.Formatter.Format | core/common/buffer.hpp:364-385 | the rendering under the current presentation |
| PtrSize.Default | core/runtime/ptr_size.hpp:19 | address 0 and length 0, packing to the span 0 |
| PtrSize.Combine | core/runtime/ptr_size.hpp:27-34 | the address is the low word of the span and the length the high word |
| PtrSize.FromSpan | core/runtime/ptr_size.hpp:14-23 | the address is the span's low word and the length its high word; packing them again gives the span back |
| PtrSize.FromSpanCombine | core/runtime/ptr_size.hpp:14-25 | splitting a packed pair gives the pair back |
| PtrSize.CombineInjective | core/runtime/ptr_size.hpp:25-34 | two pairs pack to the same span exactly when they are equal |
| PtrSize.Equal | core/runtime/ptr_size.hpp:36-38 | fieldwise comparison coincides with equality of the pairs |
| Digest.EngineIdsSpellNames | core/primitives/digest.hpp:22-32 | the four identifiers are the ASCII bytes of BABE, FRNK, POL1 and BEEF, all distinct |
| Digest.Create | core/primitives/digest.hpp:113-131 | each known identifier decodes its own digest type, a decoding error is the result, and a success is well formed (payload alternative agrees with the identifier) |
| Digest.IsBabeDigestOf | core/primitives/digest.hpp:133-142 | true exactly when the engine is BABE and the BABE payload is of the asked type |
| Digest.IsGrandpaDigestOf | core/primitives/digest.hpp:144-153 | true exactly when the engine is GRANDPA and the GRANDPA payload is of the asked type |
| Digest.TypeTestsExclusive | core/primitives/digest.hpp:138-153 | no created message passes both a BABE and a GRANDPA type test |
| Digest.Equal | core/primitives/digest.hpp:73-76 | equal identifiers and equal data, i.e. equality of the items |
| Digest.Consensus | core/primitives/digest.hpp:173-191 | epoch and configuration data go to BABE, authority-set changes, disabling, pause and resume to GRANDPA, each as the encoding in that engine's variant |
| Digest.Decode | core/primitives/digest.hpp:193-195 | a decoded message keeps the item's engine identifier |
| Digest.ConsensusDecodeRoundTrip | core/primitives/digest.hpp:173-195 | with a codec that round-trips, a constructed item decodes to its payload, and exactly the matching type test holds |

## Left out

- Shared and weak pointers: the tree is an arena keyed by block hash. A cut-off subtree is deleted from the arena, as it is freed in the source. The aliasing of shared epoch digests in the `TreeNode` constructors becomes equality of values.
- `updateTreeRoot`'s loop that clears child lists from the new root upwards only controls destructor order. The model keeps the tree that results.
- CachedTree.CachedTree.constructor: a tree of one block with the metadata the `TreeMeta` constructor would build. It is a modelling convenience for building a `CachedTree` object, not an operation of the source.
- CachedTree.CachedTree.RemoveFromMeta: promises `Valid()` only when the deepest leaf is the removed block or lies outside its subtree. Otherwise the source keeps a deepest leaf that is cut off with the subtree, and its next assertion fails.
- CachedTree.ApplyToChain: the second `NO_CHAIN_BETWEEN_BLOCKS` test (cached_tree.cpp:108-110) cannot fail once the chain end was found in the receiver's subtree, so it is not modelled. The depth assertion on the chain end is a precondition.
- The iteration order of the unordered leaf set, free-slot set and lookup table is arbitrary. The model lets any element be chosen (`:|`), so the contracts hold for every order.
- TopperTrieBatch.Lookup, TopperTrieBatch.Holds, TopperTrieBatch.TopperTrieBatch.TryGet, TopperTrieBatch.TopperTrieBatch.Get and TopperTrieBatch.TopperTrieBatch.Contains use the intended prefix test `ClearedByPrefix`, not the code as written. For example, with prefix `[1,2]` recorded, key `[1,3]` not cached and the parent holding `[1,3] -> [7]`, the source answers absent where the model answers `[7]`. The as-written test and this discrepancy are `ClearedByPrefixAsWritten` and the finding below.
- TopperTrieBatch.Lookup: the parent's own `tryGet`/`contains` are a lookup in its entries and never fail. The parent's `writeBack` operations are a function parameter that may fail.
- `trieCursor` of the overlay batch is a cursor over the parent and is not modelled.
- The weak parent's expiry is the `ExpireParent` method. The source has no such operation; it stands for the parent being destroyed elsewhere.
- The clock of the blocks response cache is the `now` parameter. The capacity, lifetime and fingerprint bound are the fields of a `Config` value, because their values are not shown.
- BlocksResponseCache.BlocksResponseCache.PurgeEntry: the two branches of the loop body, dangling slot and expired record, are one step. Both leave the slot empty and free.
- Buffer.Hex: the body of `toHex` is not shown. It is modelled as two lower-case hex digits per byte, which agrees with the short rendering's `{:04x}`.
- `fromHex`, `_hex2buf`, `subbuffer`, `view`, `resize`, `reserve`, `toString`, `asString` and byte indexing of `Buffer` are not modelled, because their bodies are not shown.
- SCALE encoding and decoding of digests are the functions of a `Codec` value. The round trip is an assumption of `ConsensusDecodeRoundTrip` (`RoundTrips`), not a fact of the model.
- Digest.Create: an unknown engine identifier trips an assertion in the source, so the identifier is required to be known.
- Digest payload fields (authorities, delays, configurations) are opaque bytes. Only the payload's type matters to the dispatch.
- Digest stream operators (`<<`/`>>`) and the `DigestItem` variant are SCALE plumbing and are not modelled.

## Findings

| source | as written | input that shows it | evidently intended | confidence | as-written member | corrected member |
|---|---|---|---|---|---|---|
| core/storage/trie/impl/topper_trie_batch_impl.cpp:139-147 | `wasClearedByPrefix` compares only the first min(key length, prefix length) - 1 bytes of key and prefix | prefix `[1,2]` recorded, key `[1,3]` not cached: `tryGet` answers absent, yet `writeBack` leaves the parent's value for `[1,3]` in place | the key lies under the prefix: its first bytes, as many as the prefix has, equal the prefix | not executed | TopperTrieBatch.ClearedByPrefixAsWrittenOverreports | TopperTrieBatch.TopperTrieBatch.WasClearedByPrefix |
