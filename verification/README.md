# A verified model of the IAVL tree

IAVL is a persistent, versioned AVL+ tree over a key-value store: values live in leaves, every change copies the path
it touches, and every saved version can be read, proved, diffed, exported, pruned or rolled back to. This project models
the root package in Dafny and proves what the versions, the node store and the fast paths promise.

One abstract tree (`Trees.Node`) is shared by all modules:

- `Base`, `Trees`: byte strings in lexicographic order, trees, their order, measure and balance, the maps they stand for.
- `Update`, `Sharing`, `FixedWidth`, `Lookup`: Set and Remove with rotations, what they share with the tree before, the
  same in int8 and int64 arithmetic, point lookups.
- `Encoding`, `Codec`, `Merkle`, `Proofs`, `ProofSoundness`: varints, the node encoding and the key layout, hashes, ICS-23
  proofs and what a proof binds.
- `ByteLayout`, `ByteStore`: which fields are hashed and stored, in which order, read with the decoders; the whole store as
  bytes.
- `Traversal`, `ExportImport`, `ImportedStore`, `Compress`: range traversal, post-order export, the importer's stack
  machine, the store an import leaves, compression.
- `Store`, `Layout`, `Saving`, `Orphans`, `Pruning`, `Rewinding`: the records of a store, what it holds for a history of
  versions, what a save adds, what a prune removes, what a rollback cuts off.
- `Diff`, `ChangeSets`, `Replay`: the lock-step diff of two versions, what a change set means, replaying one.
- `Machine`, `Runs`, `SafeRuns`: the versioned tree as a state machine, and every run of it against a map of maps.
- `Committed`: the working hash, and what a save, a rollback or a load leaves in memory.
- `FastIndex`, `FastIterator`, `Iteration`: the fast index with its overlay, the merging iterator, and what both iterators
  list.
- `NodeDatabase`, `MutableTrees`, `Execution`, `ChangeTrips`: the node database and the mutable tree as objects whose
  methods take exactly the steps of the state machine, whole runs on them, and change sets there and back.
- `Findings`: short runs that show where a promise is not kept.

The main results are `SafeRuns.SafeRunRefines`, `Runs.RunIsExact` and `Execution.Execute`. The first says that every run
of Set, Remove, Rollback, SaveVersion, DeleteVersionsTo, LoadVersionForOverwriting and reopening, from an empty store, shows
what a simple map of maps shows, as long as no version with exactly one key is saved and no overwriting load targets version
0 or -1. The second says that a run loses nothing if and only if each of its steps is legal, where legal is the exact
condition. The third carries a safe run out on the tree object, which finds orphans by comparing hashes and writes the index
entry by entry: it ends in the state of the machine and shows the same map of maps, unless strings hashed in a pruned
version collide.

## Promises the code does not keep

Each comes with the exact condition, and those that need several steps with a short run.

- A version with one key is a leaf stored under a root key. When it is pruned while a later version uses the leaf below
  its root, that version becomes unreadable, or the root record stays behind (`Pruning.PruneExactly`,
  `SafeRuns.LeafRootIsLost`). A leaf that was moved before also spoils the next save (`Saving.SaveExtendsStore`).
- `LoadVersionForOverwriting` with target 0 or -1 loads the latest version and deletes every version
  (`Runs.IllegalOverwrite`, `SafeRuns.OverwritingFromZeroWipes`). Below -1 nothing is deleted, because a negative version
  sorts behind all others.
- `GetVersioned` never finds the empty key in the latest version while the fast index is in use
  (`FastIndex.GetVersionedAgrees`, `Findings.EmptyKeyIsMissed`).
- Loading a version does not clear the overlay of unsaved changes, so reads of the loaded tree can be wrong
  (`FastIndex.StaleOverlay`, `Findings.OverlayIsStale`).
- The guard of `SaveChangeSet` against uncommitted changes looks at the root only. A removal that leaves a saved subtree as
  the root passes it, and the extracted changes then contain a deletion the change set did not
  (`Replay.ReplayRoundTrip`, `Findings.RemovalIsUnnoticed`).
- An import as version V of a tree whose root has an older version w leaves a root record at w. The search for the first
  version may come across it, and then no version from w to V-1 can be pruned, unless w is V-1
  (`ImportedStore.ImportPrunesExactly`, `ImportedStore.OlderRootBlocksPruning`).
- An import checks neither key order nor heights beyond that they fall: exactly the exports of trees with falling heights
  are accepted, sorted or not (`ExportImport.ImportExactly`, `ExportImport.MisorderedIsAccepted`).
- A new importer looks at the cached latest version, which is 0 until the tree is loaded, so it accepts an unloaded tree
  over a store that has versions (`ExportImport.NewImporter`).
- A path with a step of height 0, which has the form of a leaf, can hash up to a root hash although its claim is not in the
  tree (`ProofSoundness.LeafStepHashesUp`, `ProofSoundness.ExistenceProofSound`). The ICS-23 verifier is not part of this
  model.
- An encoded node whose height is -58 starts with the byte of a reference record (`Codec.RecordRoundTrip`); no real node
  has a negative height.

Documentation and code disagree in three places, and the model follows the code. `docs/tree/mutable_tree.md` sends a key
equal to a routing key to the left; the code sends it to the right. The comment on `LoadVersionForOverwriting` falls back
to the latest version below the target; the code fails. The comment on `traverseStateChanges` calls its end version
exclusive; the loop includes it.

SHA-256 is a parameter. Results hold for every function to 32 bytes; where hashes must tell nodes apart, the statement
assumes that no two strings hashed in the trees at hand collide. A batch takes effect at its commit, and reads before it
see the store without it. Clocks, the network and the database itself are outside the model.

## Model

| member | source | states |
|---|---|---|
| `Update.BalanceRestores` | mutable_tree.go:933-1002 | balance never fails on a node whose AVL subtrees drifted two levels apart; it yields an AVL tree over the same leaves, at most one level lower, in all four rotation cases |
| `Update.RotateRightKeepsOrder` | mutable_tree.go:872-899 | a right rotation keeps the leaves, the key order, the routing-key rule and exact sizes and heights |
| `Update.RotateLeftKeepsOrder` | mutable_tree.go:902-929 | the same for a left rotation |
| `Update.RecursiveSetCorrect` | mutable_tree.go:263-329 | on every AVL tree recursiveSet succeeds, writes exactly one leaf, reports whether the key existed, and keeps order, balance, sizes and the least-key rule |
| `Update.RecursiveRemoveCorrect` | mutable_tree.go:359-429 | on every AVL tree recursiveRemove succeeds, removes exactly the key, returns its value, and propagates the new least key; for an absent key it returns the node, or a clone of an inner one, and nothing else |
| `Update.SetIsMapUpdate` | mutable_tree.go:246-261 | Set is finite-map update with the right updated flag, also on the empty tree |
| `Update.RemoveIsMapDelete` | mutable_tree.go:333-351 | Remove is finite-map deletion with the right value and removed flag |
| `Update.SetCopiesOnWrite` | mutable_tree.go:263-298 | whatever saved node a Set result holds comes whole from the base, and a saved inner root is never reused; that nothing else is dropped is `Sharing.SetShares` |
| `Update.RemoveCopiesOnWrite` | mutable_tree.go:359-429 | the same for Remove |
| `Sharing.SetShares` | mutable_tree.go:263-298 | every subtree off the search path of the key is a subtree of the result of Set; an inner node that grows was not rotated |
| `Sharing.RemoveShares` | mutable_tree.go:359-429 | every subtree off the search path is a subtree of the result of Remove, apart from the siblings that a rotation clones; these, and whether a level is lost, are read off the heights beside the path |
| `FixedWidth.AtLeastFibLeaves` | node.go:688-716 | an AVL tree of height h has at least Fib(h+2) leaves |
| `FixedWidth.HeightAtMost90` | node.go:688-702 | a tree whose size fits int64 is at most 90 high |
| `FixedWidth.SetDoesNotWrap` | mutable_tree.go:263-298 | Set in int8 heights and int64 sizes equals Set in integers while there is room for one more leaf |
| `FixedWidth.SetWrapsExactly` | mutable_tree.go:263-298 | on every AVL tree whose size fits int64, Set in int8 and int64 equals Set in integers if and only if the key exists or the size is below 2^63-1 |
| `FixedWidth.RemoveDoesNotWrap` | mutable_tree.go:359-429 | the same for Remove |
| `Lookup.GetCorrect` | node.go:363-396 | get returns the number of smaller keys and the value of the map |
| `Lookup.HasCorrect` | node.go:336-357 | has agrees with the map although it also stops at an equal inner key |
| `Lookup.GetByIndexCorrect` | node.go:398-422 | getByIndex is the sorted leaf sequence, and nothing outside it |
| `Lookup.IndexRoundTrip` | immutable_tree.go:169-225 | getByIndex and get are inverse to each other |
| `Encoding.WriteVarint` | internal/encoding/encoding.go:180-198 | the shifting loop writes the zigzag varint of every int64 |
| `Encoding.VarintRoundTrip` | internal/encoding/encoding.go:76-87 | every int64 reads back, whatever follows it |
| `Encoding.BytesRoundTrip` | internal/encoding/encoding.go:34-56 | every byte string reads back, whatever follows it |
| `Encoding.VarintPrefixFree` | internal/encoding/encoding.go:157-178 | no varint is a prefix of another |
| `Encoding.BytesPrefixFree` | internal/encoding/encoding.go:90-97 | no length-prefixed string is a prefix of another |
| `Encoding.UvarintDigits` | internal/encoding/encoding.go:136-147 | byte i is digit i to the base 128, and all but the last carry the top bit |
| `Encoding.UvarintLength` | internal/encoding/encoding.go:149-155 | the code has the fewest digits that hold the value |
| `Encoding.UvarintExactly` | internal/encoding/encoding.go:60-74 | a buffer decodes to the digits up to the first byte without the top bit if and only if there are at most ten and they fit 64 bits; otherwise it is too small or overflows |
| `Encoding.BytesExactly` | internal/encoding/encoding.go:34-56 | a length prefix of 2^63-1 or more, or past the end of the buffer, is refused; any other yields that many bytes |
| `Codec.KeyBytesRead` | node.go:35-48 | a node key reads back from its twelve bytes |
| `Codec.KeyOrder` | keyformat/prefix_formatter.go:18-34 | the byte order of node keys is the order of (version, nonce) |
| `Codec.RangeScanIsVersionRange` | keyformat/prefix_formatter.go:29-34 | a scan between two version bounds visits exactly the keys of those versions, and nothing for a negative lower bound |
| `Rewinding.ScanIsByteRange` | nodedb.go:461-518 | on keys that fit their widths, the versions a deletion scans are the byte range between its two bounds |
| `Codec.NodeRoundTrip` | node.go:98-208 | MakeNode inverts writeBytes for leaves and for inner nodes with 12-byte or 32-byte child keys |
| `ByteLayout.NodeIsWritten` | node.go:582-655 | decoded field by field, the bytes of a node are height, size, key and value, or height, size, key, hash, mode and the two child keys, each as version and nonce or as a hash, and nothing more |
| `ByteLayout.NodeIsRead` | node.go:98-208 | MakeNode accepts a buffer if and only if it starts with the fields of a node of int8 height, with a mode of 0 to 3 and nonces within uint32, and returns that node |
| `Codec.RecordRoundTrip` | nodedb.go:762-815 | empty roots, references and nodes read back from the store as what they are, except for a node of height -58 |
| `ByteLayout.RecordIsWritten` | nodedb.go:818-830 | the empty root is the empty string; a reference is the prefix, the version and the nonce, both big-endian |
| `ByteLayout.OlderReferenceIsRead` | nodedb.go:806-808 | a reference with a version alone stands for nonce 1 of that version |
| `ByteStore.NodeBytesDecode` | nodedb.go:207-229 | the bytes saved for a node decode to its record, children named by key or, at nonce 0, by hash, and carry its hash |
| `ByteStore.RootBytesDecode` | nodedb.go:818-830 | a reference decodes to its target, the empty string to the empty root |
| `ByteStore.ImageApplies` | nodedb.go:916-934 | a batch applied to the bytes leaves exactly the byte form of the same batch applied to the records |
| `ByteStore.ImageReads` | nodedb.go:120-168 | a byte key is present if and only if the record is, and its value decodes to that record |
| `ByteStore.SavedInBytes` | mutable_tree.go:1046-1052 | writing the encoded new nodes of a save keeps the bytes in step with the records |
| `Merkle.HashBinds` | node.go:503-548 | equal hashes of two well-formed trees mean equal shape, versions, keys, values and routing keys, unless two strings hashed for them collide; what is hashed is `ByteLayout.LeafHashes` and `ByteLayout.InnerHashes` |
| `Merkle.RootHashBinds` | node.go:426-461 | the same for possibly empty trees, the empty tree hashing as in section 2.1 of RFC 6962 |
| `Merkle.HashIgnoresNonces` | node.go:503-548 | trees that differ in nonces only have the same hash |
| `ByteLayout.LeafHashes` | node.go:503-532 | decoded field by field, a leaf hashes its height 0, its size 1, its version, its key and the digest of its value, in this order and nothing more |
| `ByteLayout.InnerHashes` | node.go:503-548 | an inner node hashes its height, its size, its version and the hashes of its left and right child, in this order and nothing more |
| `ByteLayout.RootHashes` | node.go:426-461 | the root hash is the digest of those fields of the root; for the empty tree it is the digest of the empty string |
| `ByteLayout.LeafStarts` | node.go:503-515 | a leaf of a version v below 64 hashes a string that starts with the bytes 0, 2, 2v |
| `Committed.WorkingHash` | mutable_tree.go:139-151 | in every sound state the working hash is the hash of the tree once it is saved |
| `Committed.SaveCommitsHash` | mutable_tree.go:693-775 | the version a legal save writes reads back with the working hash of the state before, and so does the tree in memory |
| `Committed.SettledHash` | mutable_tree.go:641-655 | after a rollback, a save, a reopening or a load the working tree is the last saved one, and its hash that of the latest version |
| `Committed.AbsentRemoval` | mutable_tree.go:333-351 | removing an absent key leaves the state as it is, the working tree included |
| `Proofs.PathFoldsToRoot` | proof.go:178-239 | folding the inner hashes from the leaf hash up the path gives the root hash |
| `Proofs.InnerOpIsPreimage` | proof_ics23.go:131-170 | prefix, child and suffix of a converted step are byte for byte what the inner node hashes |
| `Proofs.LeafOpIsPreimage` | proof_ics23.go:115-128 | the same for the leaf |
| `Proofs.ConvertPath` | proof_ics23.go:131-170 | the reverse loop converts the path from leaf to root |
| `Proofs.ExistenceProofCorrect` | proof_ics23.go:100-113 | a proof exists exactly for the keys in the tree and calculates to the root hash |
| `ProofSoundness.PathIsGenuine` | proof.go:63-115 | a path without leaf-height steps that hashes up to the root hash is the tree's own path to the key, and the leaf has the claimed value and version, unless hashed strings collide |
| `ProofSoundness.ExistenceProofSound` | proof_ics23.go:100-113 | given the root hash and no collision, a path proves what it claims if and only if none of its steps has the height of a leaf |
| `ProofSoundness.LeafStepHashesUp` | proof.go:63-115 | for every claim there is a tree whose root hash is reached from it by a path with one step of height 0 |
| `Proofs.PathIndex` | proof_path.go:39-55 | the loop over the path computes the index function |
| `Proofs.PathIndexIsRank` | proof_path.go:39-55 | the path to a key never has both children set, and its index is the rank get returns |
| `Proofs.RankByPath` | proof_path.go:39-55 | the loop on the path to a key of the tree returns the number of smaller keys |
| `Proofs.NonMembershipPicksNeighbours` | proof_ics23.go:42-89 | a non-membership proof of a nonempty tree exists exactly for absent keys, names the key and holds the proofs of the two adjacent keys |
| `Proofs.NonMembershipExactly` | proof_ics23.go:42-89 | the empty tree included: a present key is refused as such, and each of the two neighbours is there exactly when the map has a smaller or a greater key |
| `Traversal.Walker.Next` | iterator.go:92-182 | each call returns the first node still pending on the stack and leaves the rest; it terminates |
| `Traversal.VisitsLeavesInRange` | iterator.go:92-182 | for every range, direction and inclusiveness the leaves visited are the filter of the sorted leaves; what the filter lets through is `Iteration.TreeLists` |
| `Traversal.LeafIterator.Next` | iterator.go:225-244 | the iterator moves to the next leaf in range |
| `Traversal.ExportIsPostOrder` | node.go:726-730 | the export traversal is post-order |
| `Traversal.WholeWalkIsPreOrder` | node.go:719-724 | a traversal of the whole tree yields parents before children, left before right |
| `Iteration.TreeLists` | iterator.go:92-182 | for every range, direction and inclusiveness the leaves visited are exactly the entries of the map from the start on and before the end, or at the end if inclusive, each once, in key order |
| `Iteration.IteratorsAgree` | immutable_tree.go:249-261 | in every sound state the walk over the working tree and the merge of index and overlay list the same entries in the same order |
| `Iteration.IterateRange` | immutable_tree.go:266-292 | the loop passes on exactly those entries, for the exclusive and the inclusive form |
| `Iteration.Iterate` | iterator.go:187-244 | a tree iterator, drained, has listed exactly the entries in its range, in its direction |
| `Store.ReadsBack` | nodedb.go:120-168 | a tree whose nodes are stored under their keys reads back from its root |
| `Store.KeysUnique` | mutable_tree.go:1007-1055 | no two nodes of a history share a node key |
| `Layout.RootKeyPresent` | nodedb.go:752-754 | a version has a root record exactly when it is retained |
| `Layout.RootFound` | nodedb.go:762-815 | GetRoot finds the root of every retained version, also where pruning moved it to nonce 0 |
| `Layout.VersionReadsBack` | mutable_tree.go:617-637 | every retained version reads back as the tree that was saved |
| `Layout.MovedNodeIsLost` | nodedb.go:120-168 | a version with a moved node below its root cannot be read at all |
| `Saving.AssignKeepsTree` | mutable_tree.go:1007-1055 | giving out node keys changes neither shape nor contents |
| `Saving.AssignedKeys` | mutable_tree.go:1007-1055 | the saved tree is fully keyed, versions never grow from parent to child, the root gets nonce 1 |
| `Saving.AssignedDistinct` | mutable_tree.go:1007-1055 | the node keys of a saved tree are pairwise distinct |
| `Committed.NoncesInPreOrder` | mutable_tree.go:1007-1040 | the i-th new node in pre-order gets nonce i |
| `Saving.SaveExtendsStore` | mutable_tree.go:693-775 | a save adds exactly the new version to the store; it reads back if and only if no leaf moved by pruning is reused below the root |
| `Orphans.NodeIterator.Next` | iterator.go:307-335 | the iterator replaces the top node by its children, or drops it when skipped |
| `Orphans.OrphanedExactly` | nodedb.go:959-1005 | the nodes reported are exactly those of the older tree that are not kept |
| `Orphans.OrphanedOnce` | nodedb.go:959-1005 | none is reported twice |
| `Orphans.HashIdentifies` | nodedb.go:988-999 | within one tree, equal hashes mean the same node unless hashed strings collide |
| `Orphans.TraverseOrphans` | nodedb.go:959-1005 | on consecutive readable versions the lock-step walk reports exactly the nodes of the older one that are not in the newer one, in pre-order; without one of the roots it fails |
| `Pruning.DeleteVersionEffect` | nodedb.go:335-395 | deleteVersion deletes the dropped nodes and the root record, and moves a root still in use to nonce 0 |
| `Pruning.PruneSucceeds` | nodedb.go:521-582 | a prune below the latest version never fails on a readable store |
| `Pruning.PruneLeavesLater` | nodedb.go:521-582 | after a prune the store is exactly the records and reachable nodes of the later versions, unless a pruned leaf root lives on below the next root |
| `Pruning.PruneExactly` | nodedb.go:335-395 | later versions read back and pruned root records are gone if and only if no leaf root of a pruned version is still in use below a root |
| `Rewinding.RewindLeavesEarlier` | nodedb.go:461-518 | deleting the nodes of all versions above t leaves exactly the versions up to t, unchanged |
| `Rewinding.FindFirst` | nodedb.go:635-650 | the loop computes the binary search |
| `Rewinding.FirstIsOldest` | nodedb.go:610-651 | on a store of a history that search ends at the first retained version |
| `Rewinding.FindLatest` | nodedb.go:701-743 | the greatest version of a stored key, or 0 |
| `Rewinding.LatestIsNewest` | nodedb.go:701-743 | that is the latest retained version |
| `Machine.SaveKeepsInv` | mutable_tree.go:693-775 | a legal save succeeds and keeps the state sound |
| `Machine.PruneKeepsInv` | mutable_tree.go:863-869 | a legal prune succeeds exactly below the latest version and keeps the state sound |
| `Machine.LoadKeepsInv` | mutable_tree.go:437-510 | loading a retained version succeeds and loads its map |
| `Machine.ExistsExactly` | mutable_tree.go:76-99 | in every sound state a version exists if and only if it is retained, or it is version 0 of an empty store |
| `Machine.NotRetained` | nodedb.go:762-777 | a version that is not retained cannot be read |
| `Machine.OverwriteKeepsInv` | mutable_tree.go:514-538 | a legal overwriting load succeeds exactly for retained targets, and the state stays sound, so the next save reuses version t+1 |
| `Machine.ReopenKeepsInv` | mutable_tree.go:432-434 | reopening the store finds the same versions and loads the latest |
| `Runs.RunRefines` | mutable_tree.go:693-775 | every legal run shows what the map of maps shows: the working map, the versions present, the map of each version |
| `Runs.SavedVersionStays` | mutable_tree.go:1007-1055 | a version saved in a legal run and kept since reads back as exactly the tree that was saved, node keys included |
| `Runs.NodeKeysNeverClash` | mutable_tree.go:1007-1055 | across all retained versions of a legal run node keys are unique, and children never have a larger version than their parent |
| `Runs.IllegalOverwrite` | mutable_tree.go:514-538 | with target 0 or -1 the latest version is loaded and no version is left |
| `Runs.StepIsExact` | nodedb.go:521-582 | from a sound state, a step leaves every version readable as saved if and only if it is legal |
| `Runs.RunIsExact` | mutable_tree.go:514-538 | a run is legal exactly when after each step every version reads back as it was saved |
| `SafeRuns.SafeRunRefines` | mutable_tree.go:437-538 | every run that saves no version with exactly one key, and overwrites from no version 0 or -1, refines the map of maps |
| `SafeRuns.LeafRootIsLost` | nodedb.go:376-392 | a six-step run after which version 3 cannot be read |
| `SafeRuns.OverwritingFromZeroWipes` | mutable_tree.go:514-521 | a three-step run that leaves a tree at version 1 over an empty store |
| `FastIndex.GetAgrees` | mutable_tree.go:170-186 | in a sound state Get, through overlay, index or tree, is the plain lookup |
| `FastIndex.GetImmutableAgrees` | immutable_tree.go:180-216 | the version-stamped fast path is the plain lookup in every retained version |
| `FastIndex.GetVersionedAgrees` | mutable_tree.go:659-689 | GetVersioned is the plain lookup if and only if it is not asked for a present empty key in the latest version with the index in use |
| `FastIndex.GetVersionedNothing` | mutable_tree.go:659-664 | in a version that is not retained GetVersioned finds nothing, whatever the index holds |
| `FastIndex.LatestIsIndexed` | immutable_tree.go:190-208 | the index has exactly the entries of the latest version, with stamps that are not newer |
| `FastIndex.FastSave` | mutable_tree.go:777-852 | writing the overlay keeps the index complete and its stamps right |
| `FastIndex.FastOverwrite` | mutable_tree.go:514-538 | an overwriting load without unsaved changes ends with an index of the loaded version |
| `FastIndex.StaleOverlay` | mutable_tree.go:499-507 | after a load over unsaved changes a read is right if and only if the loaded map is empty or has the change already |
| `FastIndex.FastReadsAgree` | immutable_tree.go:180-216 | in every legal run all fast reads return what the map of maps holds, for the working map and every retained version; a version that is not retained cannot be read, and nothing is found in it |
| `FastIterator.MergeShows` | unsaved_fast_iterator.go:136-218 | the merge shows exactly the additions and the entries on disk that are neither removed nor overridden |
| `FastIterator.MergeSorted` | unsaved_fast_iterator.go:136-218 | in strict key order, so none twice, in both directions |
| `FastIterator.KeysToSort` | unsaved_fast_iterator.go:75-98 | the keys in range, sorted in the direction of the iteration |
| `FastIterator.UnsavedFastIterator.constructor` | unsaved_fast_iterator.go:42-104 | a new iterator stands on the first entry of the merge |
| `FastIterator.UnsavedFastIterator.Next` | unsaved_fast_iterator.go:136-218 | each call moves to the next entry of the merge; it terminates |
| `FastIterator.Drain` | mutable_tree.go:220-225 | the loop while valid yields the whole merge |
| `FastIterator.IteratesWorkingTree` | mutable_tree.go:231-244 | with index and overlay of a sound state, the merge lists exactly the working tree's entries in range |
| `Diff.StateChanges.ConsumeNewLeaves` | diff.go:44-56 | every collected leaf is reported as a value, in order |
| `Diff.StateChanges.AdvanceSharedNode` | diff.go:58-83 | moves to the next shared node without losing a new leaf |
| `Diff.StateChanges.AddOrphanedLeave` | diff.go:88-125 | one gone leaf is merged with the collected ones as the merge of all leaves would |
| `Diff.StateChanges.Walk` | diff.go:127-151 | the whole walk reports the merge of gone and new leaves |
| `ChangeSets.ChangesAreExact` | diff.go:24-152 | strictly ascending; a value exactly for each new leaf, a deletion exactly for each key gone |
| `ChangeSets.ChangesTransform` | diff.go:24-152 | the changes turn the older map into the newer one |
| `ChangeSets.ExtractStateChanges` | diff.go:24-152 | on two readable roots of consecutive versions the method returns those changes; without one of the root nodes it fails |
| `Replay.RetainedChanges` | nodedb.go:1159-1180 | between any two consecutive retained versions the changes transform the maps and delete only existing keys |
| `Replay.ReplaySucceeds` | mutable_tree.go:1064-1078 | sorted changes can be replayed if and only if they delete only existing keys |
| `Replay.ReplayRoundTrip` | mutable_tree.go:1059-1081 | replaying, saving and extracting returns the same change set, identical values included, if and only if no key was lost unnoticed before |
| `ExportImport.ExportedIsPostOrder` | export.go:63-80 | the stream is the post-order of the tree |
| `ExportImport.StreamBuilds` | import.go:123-186 | adding the stream of a tree pushes exactly that tree with fresh nonces and writes everything below it |
| `ExportImport.RenumberDistinct` | import.go:176-182 | no node key is given out twice |
| `ExportImport.ImportedIsSame` | import.go:191-229 | the imported tree differs in nonces only; they are distinct, 1 for the root and from 2 on for the others |
| `ExportImport.ImportRestores` | import.go:123-229 | importing an export ends with one tree on the stack, and the version reads back as it, with the same root hash |
| `ExportImport.StreamAccounted` | import.go:123-186 | after any accepted prefix, whole entries of the stack export exactly the stream so far; nothing is dropped |
| `ExportImport.ImportExactly` | import.go:123-229 | an import is committed if and only if the stream is empty or is the export of a tree with falling heights and versions in 1..V, and then the version reads back as a tree with that export |
| `ExportImport.Counted` | import.go:176-182 | each counter holds the number of nodes of its version so far, and a new node gets the nonce after it |
| `ExportImport.MisorderedIsAccepted` | import.go:123-186 | a stream with two leaves in the wrong order under a root of height 5 is imported |
| `ImportedStore.ImportLeaves` | import.go:61-229 | the imported store holds the nodes of the tree, a root record for the version, and nothing else |
| `ImportedStore.ImportIsSoundExactly` | import.go:191-229 | it is the store of a history with the one version if and only if the root has that version |
| `ImportedStore.CommitLoads` | import.go:220-228 | the load at the end of the commit fails if and only if the first version found lies before the initial one; otherwise the imported tree is loaded |
| `ImportedStore.ImportedStateSound` | import.go:191-229 | a tree imported with its root's own version is in a sound state, from which every operation goes on |
| `ImportedStore.FirstOfImport` | nodedb.go:635-650 | the first version found is the root's older version if and only if the bisection probes it |
| `ImportedStore.ImportPrunesExactly` | nodedb.go:521-582 | after an import, pruning below the imported version fails if and only if it reaches an older root that the search has come across and that has a gap behind it |
| `ImportedStore.OlderRootBlocksPruning` | import.go:206-210 | a root of version 5 imported as version 10: no prune to 5..9 succeeds |
| `ExportImport.ImportNothing` | import.go:196-200 | importing nothing gives the empty tree |
| `ExportImport.NewImporter` | import.go:40-58 | a negative version is refused, then a tree or a cached latest version that is not empty; nothing else |
| `ExportImport.Importer.Add` | import.go:123-186 | the method takes the step of the stack machine; a refused node, also one of too great a version, leaves stack and counters alone |
| `ExportImport.Importer.Commit` | import.go:191-229 | succeeds if and only if the stack is empty or holds one writable node, with the store that follows; a stack of several nodes is refused with its size |
| `ExportImport.ImportAll` | import.go:123-229 | the loop over any stream: it succeeds exactly on the empty stream and on exports of trees with falling heights and versions in 1..V, and the version reads back as a tree with the same export |
| `Compress.DiffOffset` | compress.go:123-137 | the length of the common prefix |
| `Compress.DeltaRoundTrip` | compress.go:98-120 | a key reads back from its difference to any last key |
| `Compress.DeltaIsRest` | compress.go:98-103 | the difference reads as the greatest number of leading bytes shared with the last key, and then the rest of the key |
| `Compress.DeltaExactly` | compress.go:105-120 | any difference decodes to that many bytes of the last key and the rest; one that shares more than there is is refused |
| `Compress.CompressExporter.Next` | compress.go:32-63 | the method takes the compression step; a leaf without a key counts as one with the empty key |
| `Compress.CompressImporter.Add` | compress.go:71-96 | the method takes the decompression step |
| `Compress.CompressionRestores` | compress.go:32-96 | the stacks compress the export of a well-formed tree to its compact form, a recursive definition on the tree (leaf keys as differences to the leaf before, no branch keys, versions as differences to the newer child), and restore the export from it exactly |
| `NodeDatabase.NodeDb.GetFirstVersion` | nodedb.go:610-651 | returns and caches the first version |
| `NodeDatabase.NodeDb.GetLatestVersion` | nodedb.go:701-743 | returns and caches the latest version |
| `NodeDatabase.NodeDb.DeleteVersion` | nodedb.go:335-395 | on a readable store adds to the batch exactly what dropping the version takes; fails without one of the two roots |
| `NodeDatabase.NodeDb.DeleteVersionsTo` | nodedb.go:521-582 | refuses the latest version, otherwise batches every version in turn and moves the first version on, as long as hashes tell the nodes apart |
| `NodeDatabase.NodeDb.DeleteVersionsFrom` | nodedb.go:461-518 | the batch removes exactly the scanned keys; the latest version is reset |
| `NodeDatabase.SoundIsDistinguishable` | nodedb.go:988-999 | in a sound state the walk can tell the nodes of consecutive versions apart unless hashed strings collide |
| `MutableTrees.MutableTree.Set` | mutable_tree.go:246-261 | refuses a nil value; otherwise one step of the machine, with the right flag and map |
| `MutableTrees.MutableTree.Remove` | mutable_tree.go:333-351 | one step of the machine, with the right value, flag and map; nothing changes if nothing is removed |
| `MutableTrees.MutableTree.Rollback` | mutable_tree.go:641-655 | one step of the machine: the last saved tree and an empty overlay |
| `MutableTrees.MutableTree.Get` | mutable_tree.go:170-186 | in every sound state the value of the working map |
| `MutableTrees.MutableTree.GetVersioned` | mutable_tree.go:659-689 | in every sound state the value of the version's map, for every key but the empty one, and nothing for a version that is not retained |
| `MutableTrees.MutableTree.SaveFastNodes` | mutable_tree.go:814-852 | the batch adds every addition and deletes every removal |
| `MutableTrees.MutableTree.SaveVersion` | mutable_tree.go:693-775 | one step of the machine; refuses a version that exists |
| `MutableTrees.MutableTree.DeleteVersionsTo` | mutable_tree.go:863-869 | one step of the machine, as long as hashes tell the nodes apart |
| `MutableTrees.MutableTree.EnableFastStorage` | mutable_tree.go:555-613 | an index of the latest version is left alone; any other is replaced by the map of the loaded tree, stamped with its version |
| `MutableTrees.MutableTree.LoadVersion` | mutable_tree.go:437-510 | loads the version or fails as the machine does, brings the index up to date, and returns the latest version |
| `MutableTrees.LoadReturnsLatest` | mutable_tree.go:437-510 | in every sound state the load succeeds exactly for targets that are retained or not positive and returns the latest retained version, or 0 if there is none |
| `MutableTrees.MutableTree.Reopen` | mutable_tree.go:432-434 | one step of the machine, with the result of loading the latest version |
| `MutableTrees.MutableTree.LoadVersionForOverwriting` | mutable_tree.go:514-538 | one step of the machine |
| `MutableTrees.MutableTree.SaveChangeSet` | mutable_tree.go:1059-1081 | refuses an unsaved root; otherwise every pair is one step of the machine and the save another, with the version it returns; a pair that fails is the last one carried out |
| `Execution.SoundIsPrunable` | nodedb.go:521-582 | in a sound state a legal prune is refused, or the walk by hash can tell every deleted version from the next, unless hashed strings collide |
| `Execution.Perform` | mutable_tree.go:160-869 | on a sound tree object every legal operation is one step of the machine |
| `Execution.Execute` | mutable_tree.go:437-869 | a whole safe run on a new tree object, with or without the index, ends in the state of the machine and shows the map of maps, unless strings hashed in a pruned version collide |
| `ChangeTrips.ChangesOf` | nodedb.go:1154-1175 | one turn of the loop, on readable versions, extracts the changes of the version; a version before it that does not exist counts as empty |
| `ChangeTrips.SaveAndExtract` | mutable_tree.go:1059-1081 | on a sound tree object, saving a change set and extracting the new version by hash returns the change set if and only if no key was lost unnoticed before, unless strings hashed in the version before collide |
| `Findings.EmptyKeyIsMissed` | mutable_tree.go:668-671 | a two-step run after which the saved empty key is not found |
| `Findings.OverlayIsStale` | mutable_tree.go:499-507 | a run after which a read returns a value that is not in the tree |
| `Findings.RemovalIsUnnoticed` | mutable_tree.go:1060-1063 | a run after which an empty change set is extracted as a deletion |

## Left out

- `SaveVersion`: saving a version that exists already is refused. The code accepts it when the hashes agree, which needs a
  tree loaded at a version other than the latest.
- `LoadVersion`: runs load a version other than the latest only through LoadVersionForOverwriting; a tree left at an older
  version while later ones exist is not modelled.
- `ReadTree`: a version is read whole and its heights must fall on the way down; the code loads children one at a time. On
  a store that lacks a node, loading succeeds in the code as long as the root is there.
- `NodeIterator`: it walks nodes that have been read whole, for the same reason.
- `TraverseOrphans`: nothing is promised on a store that lacks a node below the two roots. There the code leaves the loop
  when an iterator fails, and returns without an error; so a prune after the run of `LeafRootIsLost` goes through.
- `ExtractStateChanges`: nothing is promised on a store that lacks a node below the two roots. The code never loads a shared
  subtree that it skips, so it succeeds when only such a subtree lacks a node.
- `DeleteVersion`: nothing is promised where `TraverseOrphans` promises nothing, nor where hashed strings collide. The same
  holds for `DeleteVersionsTo`; there the pending batch and the first version after a failure are left open as well.
- `DeltaDecode`: a shared length beyond the last key is an error; the code panics. The same holds for a stream that takes
  more from its stacks than they have, and for a negative version given to `Importer.Add`.
- `Importer.Commit`: returns the store; the batch is written once. The load that follows is stated by
  `ImportedStore.CommitLoads`.
- `traverseStateChanges`: the loop over a range of versions, and the first version of a pruned store, whose predecessor
  is gone; the changes between two retained versions are modelled.
- The legacy node format, its roots, orphans and their deletion in the background, except for 32-byte child keys in the
  node encoding.
- Caches of nodes and fast nodes, automatic flushing of large batches, version readers, locks and goroutines.
- Widths of version numbers (int64) and nonces (uint32) outside `Codec`, `ByteLayout` and `ByteStore`; heights and sizes are
  treated in `FixedWidth`.
- Hashes kept in nodes: the model computes a hash where the code keeps it in memory.
- Nil byte slices as keys: they are the empty key here. The encoding of fast nodes and the text of the storage version.
- `SetInitialVersion` in the middle of a run, and switching the fast index on or off between two openings of one store.
- Callbacks that stop an iteration early: `IterateRange` and `Iterate` go on to the end.
- `encodedSize`, a hint for a buffer; logging, metrics, viewers, command-line tools, migrations; all of `v2`.
