# ProofBox: a verified model of a versioned Jellyfish Merkle tree

ProofBox keeps a key-value map in a 16-ary Merkle tree of depth 64.  Every change belongs to a
version.  A version is begun over the newest committed one, changed by puts and deletes, and then
committed or aborted.  Nodes are stored under (version, nibble path); an update copies the nodes on
its way and shares all others with older versions.  A root hash commits to a whole version, and
proofs show that a key is, or is not, in a version with that root hash.

This project models that chain from the bytes in storage through the copy-on-write updater up to
whole runs of the database.  `dafny verify dfyconfig.toml` checks everything.

## How the model is built

| file | what it holds |
|---|---|
| Types, Merkle | bytes, keys, nibble paths; what is hashed for a node; abstract trees and their hashes |
| TreeMap, Contents | trees as maps: lookup, insertion, deletion with collapse, canonical form, contents of a version |
| Nodes | node objects with a cached hash |
| KeyCodec, NodeCodec, ByteStore | storage keys and nodes as bytes; the byte store and what it stands for |
| NodeStore | what stored nodes stand for; the cache of decoded nodes over the byte store |
| UpdateSteps, Updater, Validation | the copy-on-write updater, one level at a time and as a whole; batch validation |
| Reader, Proofs, Generator | reads; proof checking; proof generation |
| Versions | version numbers, lifecycle, retention |
| Ledger, Retention | the abstract machine: every version is a plain map; what collection may take from it |
| TreeState, TreeSteps, Database, Recovery | the database, its invariant, each of its operations, reopening |
| Batches | batch transactions |
| Runs | whole runs, from a new tree to a read or a proof |
| Streams, ProofCodec | node streams and proofs as bytes |
| StoreLimits | the resource counters of the in-memory store under concurrency |

Three layers meet in `Database.VersionedTree`.  Its fields are those of the program.  Its ghost field
`meaning` holds a ledger and, for every version, an abstract tree.  `Valid()` says that the fields
stand for the ledger: the bytes in storage encode nodes, values and root hashes and nothing else, the
nodes represent the trees, the trees show the ledger's maps, the cache holds decoded bytes, pending
writes are what their drafts say, and the version manager agrees on every number.  Every load decodes
bytes, every commit writes bytes, and reopening reads nothing but bytes.  Every operation keeps
`Valid()` and moves the ledger by the step of the same name.

**Hashing.**  SHA-256 is a parameter: any total function from byte strings to non-zero 32-byte
strings.  Nothing assumes that it is injective.  A result that depends on collisions has the
hypothesis `CollisionFree(H, s)` for an explicit finite set `s` that the input determines, so it reads
"the claim holds, or `s` contains two different strings with one hash".  For trees and proofs `s` is
what is hashed for them.  For operations it is `Contents.StringsOf(H, maps)`: a map has exactly one tree
with all leaves at depth 64 (`Contents.MapHasTree`, `Contents.SameContentsSameTree`), and the set holds
the strings hashed for the trees of the given maps.  A single operation names the one map it makes, a
batch the maps after each of its operations, and a run (`Ledger.Smooth`), at each commit, the maps that
the version committed has been.

**Main results.**

- Refinement (`Runs.StoryAndRead`): begin a version after any run, do anything but finish it, commit
  it, and do anything afterwards; unless it has been collected, reading a key in it gives what
  replaying the version's own successful operations over its parent's map holds for the key; and under
  the count policy, 100 being the program's default, none of the newest n versions is collected.
  `Runs.Drive` is the refinement behind it: through every interleaving of begin, put, delete, commit,
  abort and garbage collection the database does what the ledger does, and whatever was loaded or
  evicted, every cached node is what the bytes under its key decode to.
- Root hashes: after any run a version's is that of the map of its nearest ancestor with operations
  (`Runs.RunAndRoot`), and history does not matter (`Runs.SameContentsSameRoot`,
  `Runs.SameRootSameVersion`).
- Proofs: what is accepted is true (`Runs.AcceptedIsTrue`), with the exact conditions on levels and
  neighbours; what is generated is accepted if and only if the key lands (`Runs.ProveAndVerify`).
- Validation accepts every honest batch (`Validation.RegularAccepted`), orphans included.
- Reopening from the bytes alone restores exactly the stored versions (`Runs.ReopenAndRead`).
- Batches are characterised exactly (`Batches.BatchTransaction.Execute`).
- Retention, version lifecycle, encodings and resource limits, see the table.

**Where the code does less than one might expect.**  Each of these is kept as the code has it and
its exact condition is proved.

- A commit without a successful operation stores no root node, so the version reads as empty
  although its root hash is its parent's: `Database.VersionedTree.CommitVersion` keeps the draft's map
  if and only if an operation succeeded or the map was empty; example `Ledger.EmptyCommitExample`;
  over any tree `Runs.EmptyVersion`.  If the parent has been collected before the commit, the zero
  hash is recorded instead, and only then: `Ledger.RunNearest`.
- A refused delete gives its version an updater.  The version's commit then stores a root hash, so
  that a restart finds the version, and fails if the parent is an empty version other than 0:
  `Runs.RefusedVersion`.
- Deleting one of exactly two keys that agree on their first 63 nibbles ("twins") lifts a leaf of an
  older version, and validation then refuses the batch: `Database.VersionedTree.Delete` succeeds if
  and only if the key is there and has no twin; example `Ledger.TwinExample`.
- A leaf that stands above depth 64 is split at the depth where the keys part, not at the depth of
  the call.  A key lands if every leaf on its way is its own or parts from it right there.  A put
  succeeds all the same, and following the key's nibbles from the root of the version finds the new
  value if and only if the key lands: `Updater.TreeUpdater.Put` and, for any pending version of any
  valid tree, `Runs.PutAnyway`.  `Runs.LostPut` reaches such a state and loses a key.
- `IsValid` admits a sibling at depth 64, for which verification indexes out of range:
  `Proofs.Verify` panics exactly then; example `Proofs.PanicExample`.
- `IsValid` admits gaps between sibling depths.  For every increasing list of depths with a gap
  there is an accepted proof that a present key is absent: `Proofs.GapUnsound`.  Without gaps
  exclusion proofs are sound: `Proofs.ExclusionSound`.
- A neighbour proof may name any leaf of the tree, even the key itself.  It proves absence if and only
  if the neighbour is another key that agrees with the key on as many nibbles as there are levels:
  `Proofs.NeighborSound`; for all other pairs of keys there is an accepted proof against a tree that
  has the key: `Generator.NeighborUnsound`.
- A generated proof that names a neighbour, which takes a lifted leaf, is rejected unless the two keys
  part right below the leaf: `Generator.NeighborAccepted`.
- Time-based collection slices out of range exactly when fewer versions are committed than must be
  kept: `Versions.VersionManager.CollectGarbage`.
- After a restart, versions in which nothing was tried are gone and their numbers may be used again,
  version 0 is no longer indexed if anything else is, every version has the number before its own
  for its parent, and collected versions are back, because their root records stay in storage:
  `Recovery.RecoveredVersions`, `Database.VersionedTree.Reopen`.
- A proof with a child nibble above 15 can be encoded, but decoding does not give it back:
  `ProofCodec.ProofRoundTrip`.
- pkg/proof/codec.go.desc.md speaks of a 64 KB limit for proofs; the code has 10 KB and so does the
  model.

## Model

| member | source | states |
|---|---|---|
| Types.ToPathInjective | pkg/types/key.go:84-100 | A key is determined by its nibble path. |
| Types.PathBytes | pkg/types/key.go:84-100 | A byte of a key is two nibbles of its path, the high one first. |
| Types.FromPath | pkg/types/key.go:265-278 | Every full path is the path of a key. |
| Merkle.InternalPreimageInjective | pkg/tree/internal_node.go:52-66 | The string hashed for an internal node determines all its children and their hashes; empty slots cannot be mistaken for children. |
| Merkle.InternalStringIs | pkg/tree/internal_node.go:52-66 | The string hashed for an internal node, by position: a zero byte, then the sixteen positions, position n at 1 + 32n plus the number of children below n, with nibble and hash of a child or the sentinel. |
| Merkle.LeafPreimageInjective | pkg/tree/leaf_node.go:56-78 | The string hashed for a leaf determines key and value hash. |
| Merkle.LeafStringIs | pkg/tree/leaf_node.go:64-70 | The string hashed for a leaf, by position: 65 bytes, the first is 1, then the key, then the value hash. |
| Merkle.TreeHashInjective | pkg/tree/internal_node.go:44-74 | Two trees with one root hash are one tree, or two of the strings hashed for them collide. |
| TreeMap.LookupFindsAll | pkg/tree/reader.go:80-155 | Following the nibbles of a key finds its leaf exactly if the tree has one anywhere. |
| TreeMap.InsertLookup | pkg/tree/tree_updater.go:118-226 | Insertion sets one key and changes no other. |
| TreeMap.InsertIsDeep | pkg/tree/tree_updater.go:128-143 | In a tree with all leaves at depth 64 every key lands, and all leaves stay at depth 64. |
| TreeMap.DeleteLookup | pkg/tree/tree_updater.go:229-332 | Deletion, through every cascade of emptied nodes and lifted leaves, removes one key and changes no other. |
| TreeMap.LoneTwinLifts | pkg/tree/tree_updater.go:303-320 | Deleting one of two lone keys that agree on 63 nibbles leaves the other as a leaf at the root. |
| TreeMap.DeleteIsDeep | pkg/tree/tree_updater.go:290-332 | Deletion keeps all leaves at depth 64 if and only if the key has no twin. |
| TreeMap.TwinAgrees | pkg/tree/tree_updater.go:303-320 | Whether a leaf is lifted can be read off the set of keys. |
| TreeMap.DeepTreesAreCanonical | pkg/tree/tree_updater.go:118-332 | Two trees with all leaves at depth 64 and the same lookups are the same tree. |
| Contents.InsertShows | pkg/tree/tree_updater.go:54-87 | A put changes the contents by exactly one entry. |
| Contents.DeleteShows | pkg/tree/tree_updater.go:89-115 | A delete changes the contents by exactly one entry. |
| Contents.DeleteStaysDeep | pkg/tree/tree_updater.go:303-320 | The leaves stay at depth 64 exactly if no other single key of the contents agrees with the deleted one on 63 nibbles. |
| Contents.MapHasTree | pkg/tree/tree_updater.go:118-226 | Every map is shown by some tree with all leaves at depth 64. |
| Contents.SameContentsSameTree | pkg/tree/tree_updater.go:438-484 | Equal contents give equal trees and equal root hashes, whatever the history. |
| Contents.SameRootSameContents | pkg/tree/internal_node.go:44-74 | Equal root hashes mean equal contents, or two strings hashed collide. |
| Nodes.InternalNode.SetChild | pkg/tree/internal_node.go:97-108 | Sets one child, refuses nibbles above 15, and never leaves a stale cached hash. |
| Nodes.InternalNode.RemoveChild | pkg/tree/internal_node.go:111-118 | Removes one child and never leaves a stale cached hash. |
| Nodes.InternalNode.GetOnlyChild | pkg/tree/internal_node.go:140-152 | Succeeds exactly with one child, and returns it. |
| Nodes.InternalNode.Hash | pkg/tree/internal_node.go:44-74 | Cached or not, the hash is the hash of the present children. |
| NodeStore.RepFrame | pkg/tree/tree_updater.go:402-435 | A stored tree depends only on the nodes at or below its position, so copies elsewhere cannot change it. |
| NodeStore.RepHash | pkg/tree/tree_updater.go:438-484 | The hash of a stored node is the Merkle hash of the tree it stands for. |
| NodeStore.NodeSource.CacheGet | pkg/tree/cache.go:39-52 | Returns exactly the cached entry; a hit counts as a hit and a miss as a miss. |
| NodeStore.NodeSource.CachePut | pkg/tree/cache.go:55-65 | Whatever is evicted, every cached node still is the stored node. |
| NodeStore.NodeSource.Load | pkg/tree/tree.go:69-99 | From the cache or decoded from the bytes, a load gives the stored node or nothing. |
| NodeStore.NodeSource.WriteBatch | pkg/tree/tree.go:505-509 | A storage batch that overwrites nothing cached keeps the cache and the bytes in agreement. |
| NodeStore.NodeSource.CachedIsDecoded | pkg/tree/reader.go:158-186 | Every cached node is what the bytes under its key decode to. |
| NodeStore.WalkFrame | pkg/tree/reader.go:90-155 | Following nibbles depends only on the nodes at or below the start. |
| Updater.TreeUpdater.Resume | pkg/tree/tree_updater.go:41-51 | An updater continues from the writes and the root its version has. |
| Updater.TreeUpdater.GetNode | pkg/tree/tree_updater.go:422-435 | Reads see the pending writes layered over storage; version 0 names nothing. |
| UpdateSteps.WalkIsLookup | pkg/tree/reader.go:80-155 | Following nibbles through stored nodes is lookup in the tree they stand for. |
| UpdateSteps.LostLeaf | pkg/tree/tree_updater.go:392-398 | After a split below the depth of the call, the parent finds the old leaf or nothing. |
| Updater.TreeUpdater.InsertAt | pkg/tree/tree_updater.go:118-226 | If the key lands, the nodes at and below the place stand for the tree after the insertion; if not, following the key's nibbles from the place does not find it. Nothing outside changes. On a tree with all leaves at depth 64 exactly the path's prefixes at the new version are written and every other pending node keeps its contents. |
| Updater.TreeUpdater.SplitLeafNodes | pkg/tree/tree_updater.go:335-399 | The new branch stands for both leaves and sits where the keys part; that is the depth of the call if and only if the keys part there, and otherwise nothing is written at the depth of the call. |
| Updater.TreeUpdater.DeleteAt | pkg/tree/tree_updater.go:229-332 | Reports exactly whether the key was there; if not, nothing is written or marked; if so, what is left stands for the tree after the deletion, and an emptied tree leaves nothing. |
| Updater.TreeUpdater.LiftLeaf | pkg/tree/tree_updater.go:303-320 | A lone leaf takes its parent's place, with its own version. |
| Updater.TreeUpdater.CollapseOrWrite | pkg/tree/tree_updater.go:290-332 | An emptied node vanishes, a lone leaf is lifted, any other node is written once under the new version. |
| Updater.TreeUpdater.Put | pkg/tree/tree_updater.go:54-87 | Succeeds exactly for a non-zero key and a value of 1 byte to 1 MB; the value is found from the version's root if and only if the key lands, and then the new root stands for the inserted tree; with all leaves at depth 64 exactly the 65 prefixes are written and every other pending node keeps its contents. |
| Updater.TreeUpdater.Delete | pkg/tree/tree_updater.go:89-115 | Succeeds exactly for a non-zero key that is there; the new root stands for what is left; deleting a twin first of all leaves a leaf of another version among the writes. |
| Updater.TreeUpdater.BuildUpdateBatch | pkg/tree/tree_updater.go:438-484 | An emptied tree gives an empty batch; otherwise succeeds exactly if the root is there and validation accepts, with the tree's root hash and all writes. |
| Validation.ValidateBatch | pkg/tree/tree_updater.go:583-656 | Accepts exactly batches with pairwise distinct hashes, nodes of the new version, no future child, no zero key and no future stale key, in whatever order nodes are visited. |
| Validation.RegularDistinct | pkg/tree/tree_updater.go:618-631 | Two writes of a regular batch, orphaned or not, have different hashes, or two of the strings hashed for the maps that the version has been collide. |
| Validation.RegularAccepted | pkg/tree/tree_updater.go:583-615 | Validation accepts every regular batch, or two of the strings hashed for the maps that the version has been collide. |
| Reader.LoadValue | pkg/tree/reader.go:189-208 | A value is returned exactly if it has the hash asked for, a missing one being read as the empty string. |
| Reader.ReaderGet | pkg/tree/reader.go:80-155 | Reading a stored tree finds exactly the value stored for the key's leaf, and never fails. |
| Proofs.IsValid | pkg/proof/types.go:47-99 | Decides exactly the validity conditions. |
| Proofs.BuildLeaf | pkg/proof/verifier.go:68-72 | The verifier's own string for a leaf is, byte by byte, the one the leaf's hash is made of. |
| Proofs.ReconstructRoot | pkg/proof/verifier.go:130-176 | Computes the hash that the levels lead to; panics exactly if the last level is at depth 64. |
| Proofs.Verify | pkg/proof/verifier.go:30-127 | Accepts exactly valid proofs whose neighbour, if any, passes the checks and whose levels lead to the root hash; panics exactly for such proofs with a level at depth 64. |
| Proofs.PanicExample | pkg/proof/types.go:85-96 | A valid proof on which verification panics. |
| Proofs.InclusionSound | pkg/proof/verifier.go:63-77 | An accepted inclusion proof against a tree's root hash is true of its contents, or two strings hashed collide. |
| Proofs.ExclusionSound | pkg/proof/verifier.go:80-86 | An accepted exclusion proof with depths 0, 1, 2, ... is true, or two strings hashed collide. |
| Proofs.NeighborSound | pkg/proof/verifier.go:89-127 | An accepted neighbour proof with depths 0, 1, 2, ... whose neighbour is another key that agrees with the key on as many nibbles as there are levels is true, or two strings hashed collide. |
| Proofs.NeighborClaims | pkg/proof/verifier.go:103-117 | What the neighbour checks guarantee: a path that reaches the stated depth is the common path of the two keys, which part there; and if the path and the stated depth, below 64, reach as far as the levels, the neighbour is one for which acceptance means absence. |
| Proofs.GapUnsound | pkg/proof/types.go:85-96 | Every increasing list of depths with a gap admits an accepted exclusion proof for a key that is there. |
| Generator.LevelsAreConsecutive | pkg/proof/generator.go:71-150 | The recorded levels have depths 0, 1, 2, ... up to 63 and the key's nibbles, and all but perhaps the last record the child on the way. |
| Generator.HonestClimb | pkg/proof/verifier.go:130-176 | Climbing the recorded levels from the true leaf, or from nothing, gives the tree's hash. |
| Generator.HonestAccepted | pkg/proof/verifier.go:30-86 | Every honest proof is valid, has consecutive levels and leads to its root hash. |
| Generator.IsClear | pkg/proof/generator.go:71-150 | No other leaf stands in the way of a key that is there, nor of any key if all leaves are at depth 64. |
| Generator.NeighborAccepted | pkg/proof/generator.go:71-150 | A generated proof that names a neighbour is accepted if and only if the key lands, that is, if the two keys part right below the leaf; its neighbour is one for which acceptance means absence. |
| Generator.NeighborUnsound | pkg/proof/verifier.go:89-127 | For any two keys, stated path, stated depth and number of levels that pass the neighbour checks, unless the keys differ and agree at every level, there is a tree that has the key and an accepted proof that it has not. |
| Generator.Generate | pkg/proof/generator.go:33-217 | Fails exactly for the zero key or a missing root node; names a neighbour exactly if another key's leaf stands in the key's way; the proof is honest: inclusion with the stored value if the key is there, else exclusion by an empty child or by that leaf. |
| Versions.SortVersions | pkg/tree/version_manager.go:258-320 | Sorts a set of versions: increasing, same elements, same number. |
| Versions.CountVictims | pkg/tree/version_manager.go:258-320 | Gives up the oldest versions and keeps exactly the newest n, or the current one if n is 0. |
| Versions.TimeVictims | pkg/tree/version_manager.go:258-320 | Gives up only expired versions, oldest first, keeps at least n, and slices out of range exactly if there are fewer than n. |
| Versions.VersionManager.Begin | pkg/tree/version_manager.go:103-138 | Succeeds exactly over a committed parent below the largest number, and uses a number never used before. |
| Versions.VersionManager.Commit | pkg/tree/version_manager.go:141-169 | Closes exactly a pending version; the committed version stays the largest ever committed. |
| Versions.VersionManager.Abort | pkg/tree/version_manager.go:172-192 | Closes exactly a pending version as aborted and changes no other. |
| Versions.VersionManager.SetPending | pkg/tree/version_manager.go:222-233 | Changes the updater and the count of one pending version. |
| Versions.VersionManager.CollectGarbage | pkg/tree/version_manager.go:258-320 | Forgets exactly what the policy gives up; version 0, the current, aborted and pending versions stay; panics exactly under the time policy with too few versions. |
| Versions.VersionManager.RemoveVersion | pkg/tree/version_manager.go:333-356 | Forgets a version exactly if it is known, not current and nobody's parent. |
| Ledger.RunWellformed | pkg/tree/version_manager.go:103-192 | In every run numbers are in one place each and at most the largest, parents are committed and older, the top is the largest committed version, every value was put, and root hashes are of versions with operations, which are all in storage. |
| Ledger.RunContinues | pkg/tree/tree.go:280-580 | No later step changes a committed version, un-aborts a version or reuses a number. |
| Ledger.RunNearest | pkg/tree/tree.go:407-434 | In every run the root hash recorded for a version is that of its nearest ancestor with operations, itself perhaps, or the empty one; and it is never the empty one instead if, when a version in which nothing was tried was committed, its parent had not been collected. |
| Ledger.DraftIsReplay | pkg/tree/tree.go:286-371 | A pending version is the replay of its own operations, whatever happens to other versions, collection of its parent included. |
| Ledger.VersionIsReplay | pkg/tree/tree.go:280-580 | A version that can be committed is then, for ever, the replay of its own successful operations over its parent's map. |
| Ledger.EmptyCommitExample | pkg/tree/tree.go:407-434 | A run in which committing an empty version loses what its parent held. |
| Ledger.TameRunIsDeep | pkg/tree/tree_updater.go:118-332 | If deleted keys stand alone among the keys of a run, all versions have all leaves at depth 64. |
| Ledger.SpreadIsTame | pkg/tree/tree_updater.go:303-320 | That is so if no two keys of the run agree on 63 nibbles. |
| Ledger.PutsAreTame | pkg/tree/tree_updater.go:128-143 | And for every run without deletes. |
| Ledger.SmoothSame | pkg/tree/tree.go:561-580 | Whether a run meets the conditions at its commits does not depend on what is collected. |
| Retention.RunKeepsNewest | pkg/tree/version_manager.go:258-320 | In every run under the count policy with n, a version that has been collected has at least n newer ones that have not. |
| Retention.NewestIsLive | pkg/tree/version_manager.go:258-320 | So none of the newest n committed versions has been collected. |
| Ledger.SuccessIsUpdate | pkg/tree/put.go:10-49 | A single operation that succeeds adds one version: the newest map with one change. |
| Ledger.FailureChangesNothing | pkg/tree/put.go:10-49 | A single operation that fails changes no committed and no pending version; it uses up exactly one number, or none if a put's input is bad or no number is left. |
| Ledger.TwinExample | pkg/tree/tree_updater.go:303-320 | A run after which two keys are there of which neither can be deleted without lifting a leaf. |
| TreeState.VersionsKept | pkg/tree/tree.go:456-527 | A commit leaves every committed version readable as it was. |
| TreeState.DraftsKept | pkg/tree/tree.go:456-527 | A commit leaves every other pending version as it was. |
| TreeSteps.CommitOk | pkg/tree/tree.go:456-527 | Writing a version's batch, indexing it and closing it keeps the whole invariant. |
| TreeSteps.DeepIsCommittable | pkg/tree/tree_updater.go:583-615 | A pending version with operations and all leaves at depth 64 can be committed, or two of the strings hashed for the maps it has been collide. |
| TreeSteps.EmptyIsCommittable | pkg/tree/tree.go:393-434 | A pending version without operations can be committed exactly if nothing was tried in it, or its parent is version 0 or not empty. |
| TreeSteps.DeepLands | pkg/tree/tree_updater.go:392-398 | Every put has its place in a pending version with all leaves at depth 64. |
| Database.VersionedTree.constructor | pkg/tree/tree.go:102-163 | A new tree holds the empty version 0. |
| Database.VersionedTree.Reopen | pkg/tree/tree.go:102-255 | A tree opened over bytes alone is valid and its ledger is the recovered one; the index holds the stored hashes, and version 0 only if there are none; each record has the stored hash and the number before its own as parent. |
| Database.LoadRootHashes | pkg/tree/tree.go:205-255 | Finds a record for every stored root, and the newest version, in whatever order roots are read. |
| Database.VersionedTree.BeginVersion | pkg/tree/tree.go:280-283 | The ledger's begin step; refused exactly at the largest number. |
| Database.VersionedTree.PutVersioned | pkg/tree/tree.go:286-330 | The ledger's put step; succeeds exactly for a pending version, a non-zero key and a value of 1 byte to 1 MB. |
| Database.VersionedTree.DeleteVersioned | pkg/tree/tree.go:333-371 | The ledger's delete step; succeeds exactly for a key that the pending version holds; a refusal still gives the version an updater. |
| Database.VersionedTree.GetRootHash | pkg/tree/tree.go:181-192 | Found exactly for a version that has not been collected; it is the hash of the tree that the ledger names for it. |
| Database.VersionedTree.IsEmpty | pkg/tree/tree.go:195-203 | Tells whether the version whose root hash it has is empty, not whether it reads as empty itself. |
| Database.VersionedTree.CommitVersion | pkg/tree/tree.go:393-547 | Succeeds exactly if the version is pending and its batch, if any, validates; then it is the ledger's commit step, and the committed map is the draft's if and only if an operation succeeded or the map was empty; the root hash recorded is that of the tree the ledger names, for a version without updater its parent's if that is still indexed; it is stored exactly if there was an updater; otherwise nothing changes. |
| Database.VersionedTree.AbortVersion | pkg/tree/tree.go:550-552 | The ledger's abort step. |
| Database.VersionedTree.CollectVersionGarbage | pkg/tree/tree.go:561-580 | The ledger's collect step with the versions that the policy gives up. |
| Database.VersionedTree.Get | pkg/tree/reader.go:23-77 | Fails exactly for bad input or an unknown version; otherwise finds a value exactly if the version's map has the key, and it is that value, or two values collide. |
| Database.VersionedTree.Put | pkg/tree/put.go:10-49 | Adds a version with one change, and then the input was acceptable and a number left; or changes no version, and with bad input nothing at all, else it leaves one aborted number behind; over a version with all leaves at depth 64 it succeeds exactly for acceptable input with a number left, or two of the strings hashed for the new map collide. |
| Database.VersionedTree.Delete | pkg/tree/delete.go:10-38 | The same for a key that is there, and every refusal uses up a number if one is left; a key with a twin is refused, collisions or not, and any other is deleted, or two of the strings hashed for the new map collide. |
| Recovery.RecoveredVersions | pkg/tree/tree.go:205-255 | After a restart exactly the versions in which an operation was tried exist, and 0, each with the same map and root hash, every version with an operation among them; new numbers are above all of them. |
| Recovery.ReopenOk | pkg/tree/tree.go:205-255 | The state read from storage satisfies the whole invariant. |
| Batches.AppliedOverrides | pkg/tree/batch_transaction.go:118-141 | Operations in sequence leave, for every key, the effect of its last operation. |
| Batches.AnyOrder | pkg/tree/batch_transaction.go:160-206 | Operations on distinct keys give the same map in any order. |
| Batches.LatestMeansTheSame | pkg/tree/batch_transaction.go:118-141 | Keeping only the last operation per key does the same as the whole batch, on every map. |
| Batches.BatchTransaction.BatchPut | pkg/tree/batch_transaction.go:45-68 | Adds a put; refuses exactly a zero key or no value. |
| Batches.BatchTransaction.BatchDelete | pkg/tree/batch_transaction.go:71-90 | Adds a delete; refuses exactly a zero key. |
| Batches.BatchTransaction.OptimizeOperations | pkg/tree/batch_transaction.go:118-141 | Returns exactly the last operation per key in the original order. |
| Batches.ExecuteOps | pkg/tree/batch_transaction.go:167-206 | All operations succeed exactly if every value fits and every deleted key was there before the batch. |
| Batches.BatchTransaction.Execute | pkg/tree/batch_transaction.go:144-222 | Succeeds only if the batch is not empty, every last put fits and every last delete names a key of the newest version, and always then, or two of the strings hashed for the maps after each operation collide; success adds one version, that map after all operations; failure changes no version and uses up one number, an empty batch none. |
| Runs.Drive | pkg/tree/tree.go:280-580 | Every interleaving of steps does to the tree what it does to the ledger, and collects only what the policy allows, provided that at the commit of a version with operations no two of the strings hashed for the maps it has been collide; every cached node is what the bytes under its key decode to. |
| Runs.RunAndRead | pkg/tree/reader.go:23-155 | From a new tree with any policy through any such run, a read gives what the ledger's version holds; under the count policy none of the newest n versions is collected. |
| Runs.RunAndRoot | pkg/tree/tree.go:393-547 | Through any such run a version has a root hash exactly if it has not been collected, and it is the hash of the map of its nearest ancestor with operations; or the zero hash, if on the way nothing was tried in a version whose parent was gone at its commit. |
| Runs.EmptyVersion | pkg/tree/tree.go:407-434 | Over any valid tree a version in which nothing is tried is committed, reads as empty, has its parent's root hash, and leaves storage as it was. |
| Runs.RefusedVersion | pkg/tree/tree.go:333-371 | Over any valid tree a version in which a delete is refused can be committed exactly if its parent is version 0 or not empty; then it reads as empty, and its parent's root hash is recorded and stored for it. |
| Runs.StoryAndRead | pkg/tree/tree.go:280-580 | A read in a committed version gives what replaying the version's own operations over its parent's map holds, or nothing if none succeeded, whatever happened before, between and after; under the count policy a version with fewer than n newer ones is not collected. |
| Runs.PutAnyway | pkg/tree/tree.go:286-330 | In any pending version of any valid tree a put of acceptable input succeeds, and following the key's nibbles from the version's root finds the value if and only if the key lands. |
| Runs.LostPut | pkg/tree/tree_updater.go:335-399 | A reachable state, a key that does not land there, and a put of it that succeeds and is not found. |
| Runs.ReopenAndRead | pkg/tree/tree.go:205-255 | From any state, reopening over its bytes and reading gives the same answers for exactly the versions in which an operation was tried. |
| Runs.SameContentsSameRoot | pkg/tree/tree_updater.go:438-484 | Versions of any two runs with equal contents have equal root hashes. |
| Runs.SameRootSameVersion | pkg/tree/internal_node.go:44-74 | Versions of any two runs with equal root hashes have equal contents, or two strings hashed collide. |
| Runs.AcceptedIsTrue | pkg/proof/verifier.go:30-127 | A proof of any kind accepted against a committed version's root hash is true of that version, or two strings hashed collide; exclusion proofs must have depths 0, 1, 2, ..., and a neighbour's path and stated depth, below 64, must reach as far as the levels, or else the neighbour must be well aimed. |
| Runs.ProveAndVerify | pkg/proof/generator.go:33-217 | For every indexed version: a proof is refused exactly for the zero key or an empty version under a non-empty root hash; it is of inclusion exactly if the key is there, with the right value; it is accepted if and only if the key lands in the version's tree, which holds whenever the key is there or all leaves are at depth 64, and then no neighbour is named. |
| KeyCodec.NumberRoundTrip | pkg/codec/interface_encoders.go:65-69 | A number that fits is read back from its big-endian bytes. |
| KeyCodec.OrHalves | pkg/storage/keys.go:54-62 | OR-ing a nibble into a byte that holds another in its high half packs the two. |
| KeyCodec.PackUnpacked | pkg/types/nodekey.go:131-140 | Packing inverts unpacking exactly if the unused half of the last byte is zero. |
| KeyCodec.EncodeNodeKey | pkg/types/nodekey.go:80-105 | The pairwise packer produces the common encoding. |
| KeyCodec.MakeNodeKey | pkg/storage/keys.go:44-64 | The OR-in packer produces the same encoding behind its prefix. |
| KeyCodec.KeyRoundTrip | pkg/types/nodekey.go:80-147 | Decoding inverts encoding, whatever follows. |
| KeyCodec.KeysInjective | pkg/tree/storage_keys.go:52-73 | Distinct node keys have distinct bytes. |
| KeyCodec.NodeKeyLayout | pkg/storage/keys.go:44-64 | The storage key of a node byte by byte: n, version, number of nibbles, nibbles. |
| KeyCodec.RootKeysInOrder | pkg/storage/keys.go:124-130 | Root keys are in the byte order of their versions. |
| KeyCodec.PrefixesSeparate | pkg/storage/keys.go:44-130 | Node, value and root keys start with n, v and r, so that they never meet. |
| KeyCodec.DecodeNodeKey | pkg/types/nodekey.go:108-147 | Reads exactly what the bytes say, and nothing outside them. |
| KeyCodec.ParseNodeKey | pkg/storage/keys.go:67-103 | Accepts exactly well-formed keys and inverts the packer. |
| NodeCodec.SortNibbles | pkg/codec/interface_encoders.go:46-53 | The exchange sort orders the nibbles in place and loses none. |
| NodeCodec.SortedKeys | pkg/codec/interface_encoders.go:40-53 | The result is the same in whatever order the map gives its keys. |
| NodeCodec.EncodeInternalNode | pkg/codec/interface_encoders.go:25-83 | The encoding is 1 + 42n bytes, the children in nibble order. |
| NodeCodec.EncodeNode | pkg/codec/node.go:14-50 | Type byte and encoding of a node. |
| NodeCodec.DecodeInternalNode | pkg/tree/codec_factory.go:46-102 | Reads exactly what the bytes say; refuses exactly wrong sizes and nibbles above 15. |
| NodeCodec.DecodeNode | pkg/codec/factory.go:26-43 | Reads exactly what the bytes say for either type, and refuses any other. |
| NodeCodec.NodeLayout | pkg/codec/node.go:14-50 | The encoding of a node byte by byte: type, key and value hash; or type, number of children and their records in nibble order. |
| NodeCodec.ChildLayout | pkg/codec/interface_encoders.go:55-79 | A child's record byte by byte: nibble, hash, version, leaf flag. |
| NodeCodec.NodeParses | pkg/tree/codec_factory.go:28-102 | Which bytes decode to a node: 65 with a leading 1, or a 0, a number up to 16 and that many records with nibbles below 16. |
| NodeCodec.NodeRoundTrip | pkg/tree/codec_factory.go:28-102 | Every node is read back with all children and versions, under the version of its key. |
| Streams.BatchEncoder.Add | pkg/codec/batch.go:25-44 | Appends one frame. |
| Streams.BatchDecoder.Next | pkg/codec/batch.go:76-122 | Reads one entry exactly as the bytes say, and nothing outside them, whatever they hold. |
| Streams.TakeFrame | pkg/codec/batch.go:76-122 | A frame is read back as the entry it was made from, under the version of its key and without the value of a leaf. |
| Streams.FrameLayout | pkg/codec/batch.go:25-44 | A frame byte by byte: key and node, each after its length in four bytes. |
| Streams.Drain | pkg/codec/batch.go:25-122 | Reading a stream to its end gives back every entry added, in order, as decoding gives it back. |
| ByteStore.CommitBytes | pkg/tree/tree.go:456-495 | The batch in bytes encodes the old nodes, values and roots together with the new ones, and nothing else. |
| ByteStore.LoadNode | pkg/tree/tree.go:76-94 | Loading by bytes gives exactly the stored node or nothing. |
| ByteStore.ParseRootKey | pkg/storage/keys.go:133-144 | Accepts exactly root keys and inverts their encoding. |
| ByteStore.ScanRoots | pkg/tree/tree.go:205-232 | Scanning the root prefix finds every stored root hash and nothing else, without error. |
| ProofCodec.Encode | pkg/proof/codec.go:19-102 | Succeeds exactly for valid proofs whose encoding has at most 10 KB. |
| ProofCodec.SizesFit | pkg/proof/codec.go:96-99 | The size limit keeps every length within its field. |
| ProofCodec.Decode | pkg/proof/codec.go:105-236 | Reads exactly what the bytes say, and nothing outside them; gives an encoded proof back exactly if all its nibbles are below 16. |
| ProofCodec.ProofRoundTrip | pkg/proof/codec.go:19-236 | For every proof that encoding accepts, decoding gives it back, apart from the unused sibling hashes, if and only if all its child nibbles are below 16. |
| ProofCodec.ProofLayout | pkg/proof/codec.go:19-60 | The head of an encoded proof byte by byte: kind, key, version, root hash, and the value or the neighbour's key and value hash. |
| ProofCodec.DecodedIsValid | pkg/proof/codec.go:105-236 | Whatever is decoded passes the validity check and is of the kind that its first byte says. |
| ProofCodec.SameVerdict | pkg/proof/verifier.go:30-176 | Those hashes change no verdict. |
| StoreLimits.NextKeeps | pkg/storage/memory/memory.go:64-82 | Every atomic step keeps the counters equal to what they count and the live resources within the limits. |
| StoreLimits.LimitsHold | pkg/storage/memory/memory.go:147-162 | Over every interleaving, live iterators and live snapshots never exceed a positive limit. |
| StoreLimits.LiveIffRoom | pkg/storage/memory/memory.go:147-162 | Whatever else is in flight, a resource that counts itself is handed out if and only if there is room for it. |
| StoreLimits.OpenAlone | pkg/storage/memory/memory.go:64-76 | An undisturbed call hands out its resource if and only if there is room and the store is not closing, or the iterator is over a snapshot; otherwise it leaves every counter as it was. |
| StoreLimits.CloseGivesBack | pkg/storage/memory/memory.go:457-466 | Closing takes a live resource off its counter and gives its reference back, and does nothing else. |
| StoreLimits.ClosedForGood | pkg/storage/memory/memory.go:64-76 | Nothing opened after the store was closed is ever handed out, except iterators over snapshots. |
| StoreLimits.QuietIsExact | pkg/storage/memory/memory.go:216-231 | With nothing in flight, references are exactly the live batches, direct iterators and snapshots, and both counters are exact. |
| StoreLimits.CloseOnce | pkg/storage/memory/memory.go:349-359 | Closing a resource again, however much later, does nothing. |

## Left out

- Database.VersionedTree.PutVersioned: requires that the key lands, which always holds in a version with all leaves at depth 64 (TreeSteps.DeepLands).  What a put does otherwise is stated by Updater.TreeUpdater.Put and Runs.PutAnyway; operations in a version after such a put are not modelled.
- Database.VersionedTree.Put: the same requirement on the newest version.
- TreeMap.InsertLookup: insertion into an abstract tree is defined for keys that land; for others there is no tree that the nodes stand for.
- Contents.InsertShows: the same.
- Batches.BatchTransaction.Execute: requires that the newest version has all leaves at depth 64 and that no deleted key agrees on 63 nibbles with another key of that version or of the batch; a batch that lifts a leaf is not characterised.
- Batches.ExecuteOps: the same.
- Runs.Drive: requires deleted keys to stand alone, in the same sense, among the keys of the run.
- Runs.RunAndRead: the same runs.
- Runs.StoryAndRead: the same runs.
- Runs.RunAndRoot: the same runs.
- Runs.AcceptedIsTrue: nothing is claimed for exclusion proofs with gaps between their levels, nor for neighbour proofs that are not well aimed, because for those it is false (Proofs.GapUnsound, Generator.NeighborUnsound).
- Runs.LostPut: the version in which the key is lost is not committed there, since operations after a lost put are not modelled.
- Ledger.VersionIsReplay: the flag `deep` is cautious; a version in which a leaf was lifted and put back in its place still counts as not deep.
- Versions.VersionManager.CollectGarbage: the number of versions to keep is not negative; with a negative number the count policy slices beyond the length of its list, and what it then sees depends on the spare capacity that the Go runtime gave the list.  Time enters as the given set of expired versions.
- The updater of a pending version is kept as a value between operations, and finished node objects as values in its map; sharing of node objects is not modelled.  Nothing the code does to a node after writing it depends on it, because every change is made on a clone.
- Which keys are marked stale: only that none is from the future, which is all that validation asks.
- Leaf objects and their cached hash are modelled as values.
- BuildUpdateBatchParallel, which computes the same batch with hashes filled in by workers; the batch optimizer, which changes no node.
- Storage errors: every read and every batch of the store succeeds, and a batch is atomic.
- Locks, the order of sub-steps within one operation of the tree, statistics, metrics and logging.
- In the in-memory store: its data, Close waiting for resources, and 32-bit wrap-around of its counters.
- The PebbleDB store, gzip compression, pruning policies, configuration, the command line.
- Generating and verifying several proofs at once, which is the single case in a loop.
