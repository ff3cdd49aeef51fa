# Proofs about WinNFSd

WinNFSd is an NFS version 3 server for Windows. This project models its parts that have state worth
worrying about, and proves what they promise:

* **The file tree.** `src/tree.hh` keeps an ordered forest in cells with five links, between two
  sentinels. `Forests` is that forest as a value; `Trees` is the heap. Every operation is proved to leave
  the cells in exact agreement with one operation on the forest.
* **Paths and handles.** `src/FileTree.cpp` stores path components in the tree and caches a root;
  `src/FileTable.cpp` issues numeric handles and keeps pages of pointers into the tree. Together they are
  proved to be one small machine (`HandleMachine`): a list of the handles issued so far, each with the path
  it stands for. What section 2.5 of RFC 1813 asks of handles is proved of every run of that machine.
* **XDR, RPC and the 22 procedures.** `src/SocketStream.cpp`, `src/NFS3Prog.cpp`, `src/NFS3Prog/` and
  `src/RPCServer.cpp` read calls and build replies in place. Decoders and encoders are proved inverse
  (RFC 4506); every procedure is proved to read its arguments before it writes, so that arguments cut short
  anywhere give GARBAGE_ARGS and nothing else; a client that reads a reply by section 9 of RFC 5531 and its
  body by section 3.3 of RFC 1813 is proved to get back the values written, outside three cases that are
  named; for each procedure it is proved which status and which values those are, for every outcome
  (`NfsReplies`); and the receive loop is proved to answer the calls it should.
* **Unstable writes.** `src/NFS3Prog/WRITE.cpp` and `src/NFS3Prog/COMMIT.cpp` keep one buffered stream
  per handle. After a COMMIT the file holds the accepted writes in order (sections 3.3.7 and 3.3.21 of
  RFC 1813), exactly when its handle is the one the path is looked up to: every byte where the client said it
  was to go (`StoredBytes`). Clients are followed from the bytes of a LOOKUP, a WRITE and a COMMIT, with anything
  received in between, to the bytes on disk, and back to what a READ tells them (`ClientRuns`).
* **Directory listings.** `src/NFS3Prog/READDIR.cpp` and `src/NFS3Prog/READDIRPLUS.cpp` return ten entries
  a call; the chain of calls is proved complete (sections 3.3.16 and 3.3.17 of RFC 1813), for the names, file ids and
  cookies a client takes out of the bytes of the replies (`Listings`).
* **Symbolic links.** The separator clean-up of `src/NFS3Prog/READLINK.cpp`.

`dafny verify dfyconfig.toml` checks everything.

## How it is built

| layer | modules |
|---|---|
| values | `Nodes`, `Rows`, `Forests`, `Ancestry`, `PreOrders`, `Erasure`, `Flattening`, `Reparenting`, `Replanting`, `Copying` |
| the tree on the heap | `Trees` |
| paths | `Paths`, `Lookup`, `Caches`, `Registry`, `Renaming`, `Plainness`, `FileTrees` |
| handles | `Handles`, `PagedTables`, `HandleMachine`, `Coherence`, `RenameSteps`, `Resolutions`, `DotSteps`, `FileTables` |
| wire formats | `Wire`, `Arguments`, `Results`, `SocketStreams`, `Codecs` |
| procedures | `Statuses`, `NfsCalls`, `ClientCalls`, `NfsResults`, `NfsProcedures` |
| calls | `Rpc`, `Pipelines`, `NfsPrograms`, `RpcServers`, `NfsReplies`, `TableReplies` |
| files | `Storage`, `StoredBytes`, `WriteServices`, `NfsStorage`, `ClientRuns` |
| listings and links | `Paging`, `Listings`, `Symlinks` |

A class is proved against functions on values: `Tree.f` is the forest its cells stand for,
`FileTable.Clients()` the view of the clients, `WriteService.Now()` the state of the storage machine,
`SocketStream.Rest()` and `Output()` the bytes still to read and those written. The properties of runs are
proved about those values. The RPC layer takes programs over any type of state; the NFS program is one whose
state and whose answers from Windows and the file table are given by a function, `Host`, which can be any;
`NfsStorage.StorageHost` is one whose LOOKUP, READ, WRITE and COMMIT are steps of the storage machine, which
`WriteServices` proves the classes to make.

What the code relies on, and the model therefore asks of callers:

* `Addable`: a path is added below a registered parent, or as a new root that neither lies under a root nor
  has one under it. The code tests with a substring search whether a path belongs to a root;
  `Caches.TransparentExactly` says exactly when that is right.
* `Plain`: the path of a lookup contains no root at all, or is one root followed by proper components and
  contains no other root.
* `Removable`, and for a folder `FolderRemovable`: a path that was removed from the disk is no root, and nothing
  is registered below it but its dot entries. Nothing is asked where the disk refused.
  `Coherence.CoherentAfterRemoveExactly` says that this is needed.
* `RenameCall`: the paths of a RENAME are plain; if the move succeeded and both ends are registered, it stays below
  one root and its target is not below its source. The target may be registered or not, may be the source, and may
  be a registration that outlived its file; then it does not lie above the source, which is on the disk. If the
  move failed, the same is asked of the dot entries, which are renamed all the same.
* `Allowed`, and for a RENAME `PassesBy`: as long as a stream is open on a file, Windows keeps every other procedure
  from moving, removing or writing it, and from moving or putting anything onto it or above it; so its handle keeps
  standing for it, and its path is looked up to the same handle. Nothing is asked of other files: two handles may
  come to stand for one path, and `Storage.CommittedData` and `Storage.CommitMisses` say what a COMMIT does then.
* `Reached`: an unstable WRITE is made where the path of the handle is found by a lookup, if the file is there.
* `CanMove`, `CanReparent`, `CanFlatten`: the tree functions are called with nodes of the tree that are no sentinels,
  and nothing is moved below itself. `Replace` asks that the two subtrees share no node.
* Fewer than 2^32 - 1024 handles are issued.
* A handle sent by a client has at least the four bytes the server reads.

Where the code and its documents differ, the model follows the code: the fill bytes behind a credential are
not skipped (`Rpc.ArgumentsAreFound`), a verifier is announced in the reply but not sent
(`NfsPrograms.NfsReplyReadsExactly`), FSSTAT exchanges the free bytes and those free to the caller
(`NfsReplies.FsstatTells`), a write at an offset of 2^63 or more goes behind the one before (`StoredBytes.Place`), of several calls in one record those behind a failing one are dropped
(`Pipelines.AnswersInOrder`), a wrong version is answered like an unknown procedure (`NfsPrograms.NfsUnknown`), MKNOD reports success and leaves
its arguments to be taken for the next call (`NfsPrograms.MknodIsNeverComplete`), MKDIR and COMMIT have a branch whose
result no client can read (`NfsResults.ResultReadsExactly`), a file renamed onto itself is lost
(`RenameSteps.RenameOntoItself`), a rename onto a registration that outlived its file leaves two handles for one path
(`RenameSteps.HandlesApartExactly`) of which one loses what is written through it (`Storage.CommitMisses`), a RENAME
that failed can still move dot entries (`RenameSteps.DotMovesExactly`, `DotSteps.SecondDotReady`),
a cookie is cut to 32 bits (`Paging.ListedExactlyBelowLimit`, `Listings.CompleteExactlyBelowLimit`), and one pass over a link leaves double
separators behind runs of three or more (`Symlinks.DoublesAreGoneExactly`).

## Model

| member | source | states |
|---|---|---|
| Forests.LinksStayInside | src/tree.hh:1924-1940 | every link of a live cell is null or leads to another live cell, and a node has a first child exactly when it has a last one |
| Forests.AttachWellFormed | src/tree.hh:892-1039 | a new leaf at any legal place keeps the whole invariant: rows without repetition, parent and row agree, sentinels at the ends, no cycles |
| Forests.AppendDescribes | src/tree.hh:892-919 | the cells after append_child are exactly those of the forest with one more last child |
| Forests.InsertDescribes | src/tree.hh:1015-1039 | the cells after insert are exactly those of the forest with a new leaf right before the position |
| Forests.MoveWellFormed | src/tree.hh:1346-1372 | moving a node behind one that is not below it keeps the whole invariant, acyclicity included |
| Forests.MoveDescribes | src/tree.hh:1346-1372 | the cells after unlinking and relinking are exactly those of the forest with the subtree moved; every other node keeps its parent and its row |
| Ancestry.SiblingsDisjoint | src/tree.hh:1924-1940 | no node lies below two siblings |
| PreOrders.PreOrderIsEveryNodeOnce | src/tree.hh:624-633 | the pre-order of the forest has every node exactly once |
| PreOrders.PreOrderEnds | src/tree.hh:624-633 | the pre-order starts with head and ends with feet |
| PreOrders.IncrementFollowsPreOrder | src/tree.hh:2120-2136 | the first-child, next-sibling, climb step of the iterator goes from each node of the recursively defined pre-order to the next one |
| PreOrders.SubtreeIsASlice | src/tree.hh:596-621 | the pre-order of the forest is what precedes a node, the pre-order of its subtree, and what follows; the climb that skips the subtree ends at the first node of what follows |
| Erasure.ErasedWellFormed | src/tree.hh:596-621 | the forest without a subtree is well formed |
| Erasure.ErasedDescribes | src/tree.hh:596-621 | the cells left after erase are exactly those of the forest without the subtree |
| Erasure.ErasedInAnyOrder | src/tree.hh:573-621 | freeing the children before unlinking the node gives the same cells as unlinking it first |
| Erasure.ErasedPreOrder | src/tree.hh:596-621 | erasing a subtree takes exactly its slice out of the pre-order, and something always follows it |
| Flattening.FlattenedWellFormed | src/tree.hh:1252-1275 | flatten keeps the whole invariant |
| Flattening.FlattenDescribes | src/tree.hh:1252-1275 | the cells after flatten are exactly those of the forest with the children put behind their parent in its row |
| Flattening.FlattenKeepsPreOrder | src/tree.hh:1252-1275 | flatten leaves the sequence of nodes in pre-order unchanged |
| Reparenting.ReparentedWellFormed | src/tree.hh:1280-1325 | moving a range of siblings below a node outside of them keeps the whole invariant |
| Reparenting.ReparentedRow | src/tree.hh:1280-1325 | every row loses exactly the nodes of the range, and the row of the target gains exactly those, without repetition |
| Reparenting.BelowReparented | src/tree.hh:1280-1325 | below the target lies afterwards what did before and the range with everything below it, and nothing else |
| Reparenting.ReparentDescribes | src/tree.hh:1280-1325 | the cells after reparent are exactly those of the forest whose target row is the old one followed by the range |
| Replanting.ReplantedWellFormed | src/tree.hh:1140-1179 | a fresh leaf in the place of a node, with everything below that node gone, leaves a well-formed forest |
| Replanting.ReplantDescribes | src/tree.hh:1140-1179 | the cells after freeing the children, moving the links over and freeing the node are exactly those of that forest |
| Copying.Visited | src/tree.hh:1184-1200 | appending the data of the next node of the walk keeps all that is known: which nodes are visited, how many children of each are copied, and to where |
| Copying.ParentIsDone | src/tree.hh:1189-1193 | climbing from a last child finishes its parent |
| Copying.CopyIsComplete | src/tree.hh:1183-1202 | back at its start the walk has copied every node of the subtree with all its children |
| Copying.CopyInPreOrder | src/tree.hh:1183-1202 | in pre-order the copy is the original, node by node |
| Copying.ImagesAreNew | src/tree.hh:1183-1202 | no node of the copy but its top was in the tree before |
| Copying.ReadyToCopy | src/tree.hh:1145-1182 | freeing the old subtree leaves a disjoint source subtree as it was, and the new leaf outside of it |
| Trees.Tree.constructor | src/tree.hh:508-526 | head and feet linked to each other are the empty forest |
| Trees.Tree.AppendChild | src/tree.hh:892-919 | the heap afterwards is the forest with one fresh last child and nothing else changed |
| Trees.Tree.Insert | src/tree.hh:1015-1039 | the heap afterwards is the forest with one fresh leaf right before the position, or before feet when the position is null |
| Trees.Tree.SetHead | src/tree.hh:1007-1011 | on an empty tree, the new node stands alone between the sentinels |
| Trees.Tree.MoveAfter | src/tree.hh:1346-1372 | the heap afterwards is the forest with the source right behind the target, or unchanged in the two early returns |
| Trees.Tree.EraseChildren | src/tree.hh:573-592 | exactly the cells below the node are freed, none of them is touched after it is freed, and the node has no children left |
| Trees.Tree.Erase | src/tree.hh:596-621 | the heap afterwards is the forest without the subtree, whose slice is gone from the pre-order; the result is the node that followed it there |
| Trees.Tree.Flatten | src/tree.hh:1252-1275 | the heap afterwards is the flattened forest, with the old pre-order |
| Trees.Tree.Reparent | src/tree.hh:1280-1325 | the heap afterwards is the forest with the range at the end of the children of the target |
| Trees.Tree.Replant | src/tree.hh:1145-1179 | the heap afterwards is the forest with a fresh leaf in the place of the position |
| Trees.Tree.ClimbBack | src/tree.hh:1189-1193 | the inner loop ends at a finished node that is the start or has a next sibling |
| Trees.Tree.CopySubtree | src/tree.hh:1181-1202 | the loop ends, with a copy of the subtree below the new leaf made of nodes allocated since |
| Trees.Tree.Replace | src/tree.hh:1140-1203 | in the place of the position stands a subtree of newly allocated nodes with the shape, order and data of the one at from, which is unchanged like everything else |
| Trees.Tree.NumberOfChildren | src/tree.hh:1732-1745 | the number of children of the node |
| Trees.Tree.IsEmpty | src/tree.hh:1660-1664 | true exactly when only the sentinels are in the top row |
| Trees.Tree.Size | src/tree.hh:1634-1643 | the number of nodes without the two sentinels |
| Trees.PreOrderIterator.Increment | src/tree.hh:2120-2136 | the iterator moves as its pure counterpart and only it changes |
| Paths.SplitFront | src/FileTree.cpp:13-66 | splitting off the first component of joined components gives that component and the rest |
| Paths.SplitBack | src/FileTree.cpp:29-82 | splitting off the last component gives back the name and what stood before it |
| Paths.JoinInjective | src/FileTree.cpp:13-82 | two lists of proper components that join to the same path are equal |
| Paths.PathPrefix | src/FileTree.cpp:13-82 | a path under another one, with the same root, has the other's components as its first ones |
| Lookup.FindFromWalks | src/FileTree.cpp:227-252 | the recursive search by path splitting is the walk along the components |
| Lookup.FullPathSplits | src/FileTree.cpp:274-284 | the built path of a node is its root's path followed by the names on the way down |
| Lookup.CacheIsTransparent | src/FileTree.cpp:176-225 | when one root occurs in the path, the result does not depend on the cached root, and afterwards that root is cached |
| Caches.TransparentExactly | src/FileTree.cpp:176-225 | for any path, the cached search agrees with the search without a cache from every cached root exactly when at most one root occurs in the path or none that occurs leads to a node |
| Caches.CacheMisleads | src/FileTree.cpp:191-196 | with a root D:\a cached, the registered root D:\ab is not found |
| Caches.TwoFoldersMislead | src/FileTree.cpp:91-121 | registering those two roots gives such a forest: D:\ab is found from one cached root and not from the other |
| Lookup.LookupIsInverse | src/FileTree.cpp:176-284 | in every sound forest and from any cached root, looking a path up gives a node exactly when the node is registered and its built path is that path |
| Lookup.FoundHasThePath | src/FileTree.cpp:176-252 | where two siblings share a name, what a lookup finds still has the path that was looked up |
| Registry.ChildAdded | src/FileTree.cpp:107-110 | adding a child keeps sibling names unique and adds exactly one entry to the map from nodes to paths |
| Registry.RootAdded | src/FileTree.cpp:91-121 | adding a top-level node keeps names unique and adds exactly one entry to the map from nodes to paths |
| Registry.ParentOrRoot | src/FileTree.cpp:100-121 | the parent search finds the registered parent of a path to be added, and finds none exactly for a new root |
| Registry.AddedIsSound | src/FileTree.cpp:84-127 | wherever the code puts a path that is addable, the forest stays sound and the map from nodes to paths gains exactly that entry |
| Registry.SubtreeRemoved | src/FileTree.cpp:129-140 | removing a node removes exactly the entries of its subtree |
| Renaming.BelowIsUnder | src/FileTree.cpp:142-165 | a node below another one has a path under the other's path |
| Renaming.UnderIsBelow | src/FileTree.cpp:142-165 | a registered path under the path of a registered node belongs to a node below it |
| Renaming.RenameItemRelabels | src/FileTree.cpp:142-165 | renaming turns the map from nodes to paths into the one where from with any suffix is to with that suffix; every other entry, the set of nodes and the roots stay, placeholder child included; sibling names stay unique when the target was free |
| Renaming.HandlesKeptByRename | src/FileTree.cpp:142-165 | no node loses or changes its handle |
| RenameSteps.RenameTargets | src/FileTree.cpp:142-147 | for paths that no two nodes share, both ends are found exactly when the source and the parent of the target are registered under one root, and they are the right nodes |
| RenameSteps.SharedExactly | src/FileTree.cpp:142-165 | after a rename that was performed on a sound tree, paths are still unique exactly when the target was not registered; nodes that shared a path go on to |
| RenameSteps.TargetIsClosed | src/FileTree.cpp:142-147 | whatever is registered under the target of a performed rename makes the target itself registered |
| Plainness.PlainLookup | src/FileTree.cpp:167-225 | looking up a plain path finds nothing exactly when it is not registered, and else the node with that path |
| Plainness.PathMapInjective | src/FileTree.cpp:84-165 | no two nodes have the same path |
| FileTrees.FileTree.FindNodeWithPathFromNode | src/FileTree.cpp:227-252 | the loop over siblings is the search by components |
| FileTrees.FileTree.FindNodeFromRootWithPath | src/FileTree.cpp:176-225 | result and new cached root are those of the pure search |
| FileTrees.FileTree.FindParentNodeFromRootForPath | src/FileTree.cpp:254-272 | it throws exactly when the path is that of the cached root, and else gives the parent found below that root |
| FileTrees.FileTree.GetNodeFullPath | src/FileTree.cpp:274-284 | the loop over parents builds the path of the node |
| FileTrees.FileTree.AddItem | src/FileTree.cpp:84-127 | one fresh node with the handle, below the parent that is found under the cached root or else as a root in front of that one, for any path but the cached root's own, which throws; with an addable path the tree stays sound and exactly one path is registered |
| FileTrees.FileTree.RemoveItem | src/FileTree.cpp:129-140 | the found node is erased with its subtree, and nothing happens when none is found |
| FileTrees.FileTree.RenameItem | src/FileTree.cpp:142-165 | it throws exactly when the target is the root under which the source is looked up; the map from nodes to paths is relabelled when both ends are found, whether or not the target is free, and the tree is untouched otherwise |
| Handles.HandleRoundTrip | src/FileTable.cpp:170-171 | the number written into a handle buffer reads back |
| PagedTables.PagedTable.Append | src/FileTable.cpp:174-189 | exactly one slot is added at the end, with a new page at every multiple of 1024 |
| PagedTables.PagedTable.WalkTo | src/FileTable.cpp:205-207 | the walk reaches page id / 1024 without a null hop, and the 32-bit counter does not wrap for any id below 2^32 - 1024 |
| PagedTables.PagedTable.GetItemByID | src/FileTable.cpp:194-210 | the slot with that number, or null for a number never issued |
| PagedTables.PagedTable.ClearSlot | src/FileTable.cpp:311-317 | exactly that slot becomes null |
| HandleMachine.HandlesFollowTheirFile | src/FileTable.cpp:160-192 | over any run of issues, renames and removals a handle stands for what became of the path it was issued for, and no handle is taken back or reissued |
| HandleMachine.StaleForever | src/FileTable.cpp:87-101 | a handle whose file was removed fails for ever |
| HandleMachine.HandlesStayDistinct | src/FileTable.cpp:65-85 | over any run of enabled steps no two handles stand for the same path |
| HandleMachine.RenameKeepsDistinctExactly | src/FileTable.cpp:332-347 | one rename keeps the handles of different files apart exactly when no handle stands for its target |
| HandleMachine.IssuedHandleIsExclusive | src/FileTable.cpp:160-192 | a handle issued for an unregistered path is new and denotes that file and no other ever after |
| HandleMachine.HandleRoundTrips | src/FileTable.cpp:65-101 | resolving a handle to its path and the path back to a handle gives the same handle |
| Coherence.CoherentAfterAdd | src/FileTable.cpp:160-192 | after an addition slot i is still non-null exactly when a registered node has a handle that decodes to i |
| Coherence.CoherentAfterRename | src/FileTable.cpp:332-347 | a rename keeps the agreement of table and tree, and relabels the view of the clients |
| Coherence.CoherentAfterRemoveExactly | src/FileTable.cpp:300-325 | clearing one slot and erasing the subtree keeps table and tree in agreement exactly when no other registered node lay below the erased one |
| Coherence.ClientsAreDistinct | src/FileTable.cpp:65-101 | in every sound and coherent state no two handles stand for the same path |
| Coherence.RemoveIsAStep | src/FileTable.cpp:298-330 | a removal is one enabled removal step of the handle machine |
| RenameSteps.RenameIsAStep | src/FileTable.cpp:332-347 | a rename is one rename step of the handle machine, also onto a registered target |
| RenameSteps.PerformedIsEnabled | src/FileTable.cpp:332-347 | a rename onto a path that is not registered is an enabled step: nothing is registered at or below the target |
| RenameSteps.HandlesApartExactly | src/FileTable.cpp:332-347 | after a performed rename no two handles stand for one path exactly when the target was not registered |
| RenameSteps.DotFollowsMain | src/FileTable.cpp:407-437 | a dot entry is to be moved only where its directory is |
| RenameSteps.DotSourceIsGone | src/FileTable.cpp:407-437 | after a performed directory rename the lookup of the old dot entry finds nothing, from any cached root and also where the target was registered |
| RenameSteps.DotMovesExactly | src/FileTable.cpp:407-437 | a dot rename is performed, and changes what the clients see, exactly when the entry and the target directory are registered under one root |
| RenameSteps.DotsAreIdle | src/FileTable.cpp:407-437 | in the state after a successful move neither dot rename finds both its ends |
| DotSteps.SecondDotReady | src/FileTable.cpp:407-437 | after a failed move, with the first dot rename performed or not and two nodes sharing a path or not, the second one finds its ends exactly when they were there before the first |
| Resolutions.ResolutionIsConsistent | src/FileTable.cpp:65-85 | the handle a lookup of a path finds stands for that path, also where two nodes share it |
| Resolutions.SoundIsResolved | src/FileTable.cpp:65-85 | in a sound table exactly the registered paths are found |
| Resolutions.RenameKeepsLookup | src/FileTable.cpp:332-347 | a rename, also onto a registered target, leaves the lookup of every path alone that lies under neither end and is not shared: it is found under the same handle |
| RenameSteps.RemovalIsWithout | src/NFS3Prog/RENAME.cpp:70-80 | after remove_entry exactly the removed paths are no longer registered, and every other node keeps its path |
| RenameSteps.PerformedThere | src/NFS3Prog/RENAME.cpp:70-82 | the rename that follows is performed exactly when, without those paths, its ends were registered under one root before the call |
| RenameSteps.RenameOntoItself | src/NFS3Prog/RENAME.cpp:70-82 | a file renamed onto itself is unregistered and not renamed: its handle goes stale |
| FileTables.FileTable.constructor | src/FileTable.cpp:17-23 | a fresh table has no handles and agrees with the empty tree |
| FileTables.FileTable.AddItem | src/FileTable.cpp:160-192 | one new handle, the next number, for the path |
| FileTables.FileTable.GetHandleByPath | src/FileTable.cpp:65-85 | an issue step; the handle returned stands for the path from now on, and a path that is found keeps table and tree as they are, also where paths are shared |
| FileTables.FileTable.GetPathByHandle | src/FileTable.cpp:87-101 | the path the handle stands for, or failure for a handle never issued or whose file is gone, also in a table in which paths are shared |
| FileTables.FileTable.RemoveItem | src/FileTable.cpp:298-330 | a removal step, reported exactly when the path was registered |
| FileTables.FileTable.RenameFile | src/FileTable.cpp:332-347 | it throws exactly when the target is the root under which the source is looked up; a rename step exactly when both ends are found, else nothing; sound afterwards exactly when the target was not registered |
| FileTables.FileTable.RenameDirectory | src/FileTable.cpp:407-437 | after a successful move one rename step exactly when both ends are registered, else nothing: the two dot renames change nothing; after a failed one the dot entries are renamed exactly where they and the target directory are registered; every lookup aside stays |
| FileTables.FileTable.RemoveFolder | src/FileTable.cpp:455-483 | three removal steps when the folder was removed, else nothing |
| FileTables.FileTable.RemoveEntry | src/NFS3Prog/RENAME.cpp:9-19 | the removal steps of a file or of a directory link |
| FileTables.FileTable.ProcedureRENAME | src/NFS3Prog/RENAME.cpp:9-88 | an existing target is unregistered if it was removed; the rename is performed exactly when it was, the move succeeded and both ends are then registered, and the table is sound afterwards exactly unless the target was a registration that outlived its file; after a failed move only dot entries move, and the table is sound exactly unless one of them meets a registered entry; every lookup aside stays |
| SocketStreams.ReversedMemory | src/SocketStream.cpp:58-71 | memory filled from its last byte down holds the value of the bytes in network order |
| Wire.ReversedEncoding | src/SocketStream.cpp:119-131 | memory read from its last byte down is the big-endian encoding |
| SocketStreams.FitInPieces | src/SocketStream.cpp:104-117 | writing two pieces one after the other is writing them at once, also where the buffer cuts them off |
| SocketStreams.SocketStream.SetInputSize | src/SocketStream.cpp:25-29 | what is left to read is what was received |
| SocketStreams.SocketStream.Read | src/SocketStream.cpp:46-56 | as many bytes as asked for and available are copied and skipped, the rest of the target stays |
| SocketStreams.SocketStream.ReadReversed | src/SocketStream.cpp:58-86 | the bytes land reversed; a full read holds the big-endian value |
| SocketStreams.SocketStream.ReadWord | src/SocketStream.cpp:58-71 | a full read decodes a 32-bit word and stops behind it |
| SocketStreams.SocketStream.Read8 | src/SocketStream.cpp:73-86 | a full read decodes a 64-bit word and stops behind it |
| SocketStreams.SocketStream.Skip | src/SocketStream.cpp:88-97 | as many bytes as asked for and available are skipped |
| SocketStreams.SocketStream.Write | src/SocketStream.cpp:104-117 | the data, cut off at the buffer's end, overwrites the output from the cursor on; at the end it is appended |
| SocketStreams.SocketStream.WriteWord | src/SocketStream.cpp:119-131 | the big-endian encoding of the word is written |
| SocketStreams.SocketStream.Write8 | src/SocketStream.cpp:133-145 | the big-endian encoding of 64 bits is written |
| SocketStreams.SocketStream.Seek | src/SocketStream.cpp:147-156 | the cursor modulo 2^32, from the start, the cursor or the end |
| SocketStreams.SocketStream.Reset | src/SocketStream.cpp:163-166 | the output is empty and the next write appends |
| Wire.U32RoundTrip | src/NFS3Prog.cpp:302-307 | a 32-bit word followed by any bytes reads back and stops there (section 4.2 of RFC 4506) |
| Wire.U64RoundTrip | src/NFS3Prog.cpp:309-314 | 64 bits followed by any bytes read back and stop there (section 4.5 of RFC 4506) |
| Wire.OpaqueRoundTrip | src/NFS3Prog.cpp:370-388 | an opaque of any length with its fill bytes reads back and stops there (section 4.10 of RFC 4506) |
| Wire.OpaqueStable | src/NFS3Prog.cpp:370-388 | what was decoded does not depend on the bytes behind it |
| Wire.PrefixFails | src/NFS3Prog.cpp:370-388 | a decoder that reads an encoding back and does not depend on what follows fails on every strict prefix |
| Arguments.Sattr3RoundTrip | src/NFS3Prog.cpp:316-353 | sattr3 followed by any bytes decodes to itself and stops there |
| Arguments.GuardRoundTrip | src/NFS3Prog.cpp:355-362 | sattrguard3 followed by any bytes decodes to itself and stops there |
| Arguments.DiropRoundTrip | src/NFS3Prog.cpp:364-368 | diropargs3 followed by any bytes decodes to itself and stops there |
| Arguments.HowRoundTrip | src/NFS3Prog.cpp:396-405 | createhow3 followed by any bytes decodes to itself and stops there |
| Arguments.SymlinkRoundTrip | src/NFS3Prog.cpp:407-411 | symlinkdata3 followed by any bytes decodes to itself and stops there |
| Arguments.Sattr3Truncated | src/NFS3Prog.cpp:316-353 | every strict prefix of an encoded sattr3 makes the decoder throw |
| Arguments.GuardTruncated | src/NFS3Prog.cpp:355-362 | every strict prefix of an encoded sattrguard3 makes the decoder throw |
| Arguments.DiropTruncated | src/NFS3Prog.cpp:364-368 | every strict prefix of an encoded diropargs3 makes the decoder throw |
| Arguments.HowTruncated | src/NFS3Prog.cpp:396-405 | every strict prefix of an encoded createhow3 makes the decoder throw |
| Arguments.SymlinkTruncated | src/NFS3Prog.cpp:407-411 | every strict prefix of an encoded symlinkdata3 makes the decoder throw |
| Codecs.Codec.ReadBool | src/NFS3Prog.cpp:291-300 | only 1 is true; a short input throws and is used up |
| Codecs.Codec.ReadOpaque | src/NFS3Prog.cpp:370-388 | length, data and fill bytes, or a throw with nothing left to read |
| Codecs.Codec.ReadSattr3 | src/NFS3Prog.cpp:316-353 | the stream is read exactly as the decoder of sattr3 says, throw included |
| Codecs.Codec.ReadSattrguard3 | src/NFS3Prog.cpp:355-362 | the stream is read exactly as the decoder of sattrguard3 says, throw included |
| Codecs.Codec.ReadDiropargs3 | src/NFS3Prog.cpp:364-368 | the stream is read exactly as the decoder of diropargs3 says, throw included |
| Codecs.Codec.ReadCreatehow3 | src/NFS3Prog.cpp:396-405 | the stream is read exactly as the decoder of createhow3 says: attributes for UNCHECKED and GUARDED, a verifier for any other mode |
| Codecs.Codec.ReadSymlinkdata3 | src/NFS3Prog.cpp:407-411 | the stream is read exactly as the decoder of symlinkdata3 says, throw included |
| Results.Fattr3RoundTrip | src/NFS3Prog.cpp:428-443 | the 84 bytes of fattr3 read back |
| Results.WccRoundTrip | src/NFS3Prog.cpp:459-481 | wcc_data reads back, with or without each of its halves |
| Results.PostFhRoundTrip | src/NFS3Prog.cpp:483-490 | post_op_fh3 reads back |
| Results.DataRoundTrip | src/NFS3Prog.cpp:413-509 | any sequence of written values parses back to itself, whatever follows |
| Results.DataAligned | src/NFS3Prog.cpp:445-457 | the size of any sequence of written values is a multiple of four |
| Codecs.Codec.WriteOpaque | src/NFS3Prog.cpp:445-457 | length, data and zero fill are appended, as far as they fit |
| Codecs.Codec.WriteFattr3 | src/NFS3Prog.cpp:428-443 | the encoding of fattr3 is appended |
| Codecs.Codec.WriteWcc | src/NFS3Prog.cpp:459-481 | the encoding of wcc_data is appended |
| Codecs.Codec.WriteResult | src/NFS3Prog.cpp:413-509 | values written one by one that fit the buffer parse back to themselves behind the old output, and the write position stays aligned to four |
| NfsCalls.ArgsRoundTrip | src/NFS3Prog.cpp:139-175 | the arguments of any of the 22 procedures, followed by any bytes, decode to themselves and stop there |
| NfsCalls.ArgsStable | src/NFS3Prog.cpp:139-175 | what any procedure reads does not depend on the bytes behind it |
| NfsCalls.ArgsTruncated | src/NFS3Prog.cpp:139-187 | every strict prefix of the arguments of any procedure makes it throw |
| NfsCalls.ArgsComplete | src/NFS3Prog.cpp:139-175 | any bytes whatsoever are the beginning of arguments that decode |
| ClientCalls.ServerUnderstands | src/NFS3Prog.cpp:139-175 | a call laid out by number and arguments as sections 3.3.1 to 3.3.21 of RFC 1813 do for clients, MKNOD excepted, is read argument by argument, each from its place, and to its last byte |
| NfsProcedures.Nfs3Prog.ProcedureSETATTR | src/NFS3Prog/SETATTR.cpp:8-81 | handle, attributes and guard are read before anything is written, and the result follows from the answers; a read that throws leaves output and state alone |
| NfsProcedures.Nfs3Prog.ProcedureWRITE | src/NFS3Prog/WRITE.cpp:21-105 | handle, offset, count, stability and data are read before anything is written, and the result follows from the answers; a read that throws leaves output and state alone |
| NfsProcedures.Nfs3Prog.ProcedureMKDIR | src/NFS3Prog/MKDIR.cpp:6-58 | directory, name and attributes are read before anything is written, and the result follows from the answers; a read that throws leaves output and state alone |
| NfsProcedures.Nfs3Prog.ProcedureRENAME | src/NFS3Prog/RENAME.cpp:21-96 | both directories and names are read before anything is written, and what the server then writes is what `NfsReplies.RenameTells` is about; a read that throws leaves output and state alone |
| NfsProcedures.Nfs3Prog.ProcedureREADDIRPLUS | src/NFS3Prog/READDIRPLUS.cpp:8-97 | all arguments are read before anything is written, and the listing is written entry by entry, as `Listings.DirectoryIsListed` finds it; a read that throws leaves output and state alone |
| NfsProcedures.Nfs3Prog.Call | src/NFS3Prog.cpp:139-187 | whichever of the 22 procedures is called, it throws exactly when its arguments do not decode, and then nothing is left to read, nothing is written and nothing has changed; else exactly its arguments are read and its result written, whose meaning the lemmas of `NfsReplies` state |
| NfsProcedures.Nfs3Prog.Process | src/NFSProg.cpp:20-37 | the procedure table over the streams computes the function `Nfs`: result, bytes read, bytes written and state |
| NfsResults.DirlistReads | src/NFS3Prog/READDIR.cpp:51-85 | a client reads a directory list of any length back, with and without attributes (sections 3.3.16 and 3.3.17 of RFC 1813) |
| NfsResults.ReaddirReads | src/NFS3Prog/READDIRPLUS.cpp:44-97 | whatever a listing procedure writes, a refusal included, has the result type of RFC 1813 |
| NfsResults.ShapedExactly | src/NFS3Prog.cpp:413-509 | outside the listing of entries, a client gets written values back exactly when their kinds are those its result type lists for their status |
| NfsResults.ResultReadsExactly | src/NFS3Prog.cpp:139-187 | for every procedure and every answer of Windows, a client that decodes the result by section 3.3 of RFC 1813 gets back what was written exactly unless it is MKNOD, an MKDIR that failed for a reason of its own on a path that exists, or a COMMIT with a null stream |
| NfsResults.ResultSize | src/NFS3Prog.cpp:139-187 | whatever bytes a client takes for a result are as many as the values it takes out of them are encoded in |
| NfsResults.CutResultReadsExactly | src/SocketStream.cpp:104-116 | a result for which there is only so much room is read back exactly when it is proper and fits: a cut one is never taken for the whole |
| Rpc.CallRoundTrip | src/RPCServer.cpp:107-125 | a call encoded as in section 9 of RFC 5531 whose credential and verifier need no fill bytes reads back, and its arguments start where the server reads on |
| Rpc.ArgumentsAreFound | src/RPCServer.cpp:115-125 | with an empty AUTH_NONE verifier the arguments are found exactly when the credential length is a multiple of four: the server does not skip fill bytes |
| Rpc.CallStable | src/RPCServer.cpp:107-125 | what is read of a call does not depend on the bytes behind it |
| Rpc.PayloadParts | src/RPCServer.cpp:139-160 | the status word overwrites the last four bytes: in front of it stands whatever a failed program had written, starting with SUCCESS |
| Rpc.ClientReadsReply | src/RPCServer.cpp:132-160 | a client reads the intended status and body exactly when the verifier length it is sent, with its fill bytes, equals the size of what a failed program left behind; for success, exactly when it is zero |
| Rpc.UnservedWords | src/RPCServer.cpp:141-144 | a program number outside 100000 to 100009, or one that nothing serves, is answered with status 1 and no body, and no argument is read |
| Rpc.GarbageWords | src/RPCServer.cpp:132-140 | an incomplete header is answered with 24 bytes behind the mark, ending in status 4 |
| Rpc.MarkCounts | src/RPCServer.cpp:163-168 | the mark is 0x80000000 plus the number of bytes behind it |
| NfsPrograms.NfsTruncated | src/NFS3Prog.cpp:162-187 | for each of the 22 procedures and each strict prefix of its arguments the reply is exactly GARBAGE_ARGS without a body, the input is used up and nothing has changed |
| NfsPrograms.NfsServed | src/NFS3Prog.cpp:162-187 | complete arguments, whatever follows them, give SUCCESS and the result, are read to their last byte and no further, and take effect once |
| NfsPrograms.NfsReplyReadsExactly | src/RPCServer.cpp:98-171 | every reply of the NFS program, to any call, is mark, xid, REPLY, accepted, verifier, status and body as section 9 of RFC 5531 lays them out exactly when the verifier length of the call is zero |
| NfsPrograms.ClientGetsResult | src/RPCServer.cpp:98-171 | from the bytes of a call with an empty verifier to the values its client decodes from the reply: they are the ones the procedure wrote exactly when the result is proper and fits behind the head of the reply |
| NfsPrograms.ReplyWords | src/RPCServer.cpp:132-160 | behind the mark of any NFS reply stand xid, 1, 0, flavor and length of the verifier, and 3 for a version other than 3 or a procedure beyond 21, 4 when the arguments cannot be read, and 0 otherwise |
| NfsReplies.ReplyTells | src/RPCServer.cpp:98-171 | a proper result that fits is taken out of the reply to the call, to its last byte, with the values the lemmas below speak of |
| NfsReplies.RenameTells | src/NFS3Prog/RENAME.cpp:40-96 | a client reads NFS3_OK exactly when both paths fit, the source passed CheckFile, an existing target was removed and the move succeeded; each error stands for exactly its failure; first comes the source directory, then the target directory |
| NfsReplies.RemoveTells | src/NFS3Prog/REMOVE.cpp:32-56 | the same of REMOVE and RMDIR: NOTEMPTY exactly for a directory that was not empty, and the attributes before and after |
| NfsReplies.SetattrTells | src/NFS3Prog/SETATTR.cpp:21-81 | STALE and NOENT are what CheckFile found, INVAL is exactly a mode that could not be set, and NFS3_OK everything else |
| NfsReplies.CreateTells | src/NFS3Prog/CREATE.cpp:23-64 | NFS3_OK exactly when the file was opened, with its handle, attributes and directory; a missing directory is STALE, EACCES is ACCES, the rest IO |
| NfsReplies.MkdirTells | src/NFS3Prog/MKDIR.cpp:24-58 | NFS3_OK exactly when the directory was made, with its handle, attributes and directory, and which error stands for what, outside the branch that answers a failure with NFS3_OK |
| NfsReplies.MkdirStatus | src/NFS3Prog/MKDIR.cpp:36-45 | the status word says NFS3_OK exactly when the directory was made, or the call failed in another way than expected and something has the path |
| NfsReplies.SymlinkTells | src/NFS3Prog/SYMLINK.cpp:25-71 | NFS3_OK exactly when the link was made; else EXIST when something has the path and IO when nothing has |
| NfsReplies.LinkTells | src/NFS3Prog/LINK.cpp:22-58 | NFS3_OK exactly when the link was made and the file has attributes; EXIST and IO as the path is taken or not |
| NfsReplies.WriteTells | src/NFS3Prog/WRITE.cpp:39-104 | NFS3_OK exactly when the file was there, had a handle if the write is unstable, and could be opened, with the count of fwrite and the stability that was reached; each error exactly for its failure |
| NfsReplies.CommitTells | src/NFS3Prog/COMMIT.cpp:46-53 | without a null stream the client reads NFS3_OK, the attributes before and after, and a verifier of zero |
| NfsReplies.GetattrTells | src/NFS3Prog/GETATTR.cpp:11-32 | STALE for whatever is not there, IO without attributes, else the attributes |
| NfsReplies.AccessTells | src/NFS3Prog/ACCESS.cpp:14-32 | STALE for whatever is not there, else every right that was asked for is granted |
| NfsReplies.LookupTells | src/NFS3Prog/LOOKUP.cpp:16-42 | NAMETOOLONG and what CheckFile found, each exactly; else the handle, zeros if there is none, the attributes of the file and then those of the directory |
| NfsReplies.ReadlinkTells | src/NFS3Prog/READLINK.cpp:147-224 | STALE, NOENT and IO each exactly for its failure, else the attributes and the target |
| NfsReplies.ReadTells | src/NFS3Prog/READ.cpp:39-75 | NFS3_OK exactly when the file was there and could be opened: the count is the number of data bytes, the data are those of fread, eof is what fgetc found; ACCES exactly for EACCES and IO for any other failure |
| NfsReplies.ListingTells | src/NFS3Prog/READDIR.cpp:33-52 | the status, the attributes, and the verifier the client sent |
| NfsReplies.FsstatTells | src/NFS3Prog/FSSTAT.cpp:14-44 | total bytes at their place; free bytes and bytes free to the caller are at theirs exactly when they are equal, because the code exchanges them |
| NfsReplies.FsinfoTells | src/NFS3Prog/FSINFO.cpp:20-60 | the limits in the order of section 3.3.19 of RFC 1813, exactly when there are attributes |
| NfsReplies.PathconfTells | src/NFS3Prog/PATHCONF.cpp:12-44 | the limits in the order of section 3.3.20 of RFC 1813, exactly when there are attributes |
| TableReplies.ProcedureRENAME | src/NFS3Prog/RENAME.cpp:45-96 | a client reads NFS3_OK exactly when the table carried out the rename of a move that succeeded; any other status leaves all handles but those of a target that was removed, and of dot entries |
| TableReplies.ProcedureREMOVE | src/NFS3Prog/REMOVE.cpp:32-56 | the handles of the path are stale afterwards exactly when the client reads NFS3_OK, and else as they were |
| TableReplies.ProcedureRMDIR | src/NFS3Prog/RMDIR.cpp:19-50 | the same with the dot entries of the directory |
| NfsPrograms.SelfContainedExactly | src/RPCServer.cpp:148-160 | a call to NFS gets the same reply whatever is received behind it and, if it succeeds, is read to its end and no further, exactly when the procedure reads all the bytes behind the header or is unknown; an unknown one is refused and its arguments stay unread |
| NfsPrograms.OneReplyPerRecord | src/Socket.cpp:117-146 | a record, of which the listener is called with exactly one at a time on a stream, gets one reply exactly when nothing is left behind the arguments its first call reads, or that call fails |
| NfsPrograms.ClientCallIsComplete | src/RPCServer.cpp:98-171 | a call encoded as a client does it, for any of the procedures with the arguments the server reads, is such a call |
| NfsPrograms.MknodIsNeverComplete | src/NFS3Prog/MKNOD.cpp:3-9 | a MKNOD call with the arguments of section 3.3.11 of RFC 1813 never is: the server reports success and leaves them all unread, so its record gets more than one reply |
| Pipelines.AnswersInOrder | src/RPCServer.cpp:78-96 | complete calls in one buffer are answered in order up to the first that fails, each in the state the ones before it leave; that state is left at the end, and when none fails nothing of the input is left |
| Pipelines.AllAnswered | src/RPCServer.cpp:85-92 | every call of such a buffer is answered exactly when no call but the last fails |
| RpcServers.RpcServer.Set | src/RPCServer.cpp:62-65 | one program number is served by the program, all others as before |
| RpcServers.RpcServer.ReadHeader | src/RPCServer.cpp:107-130 | the header is complete exactly when the decoder says so, though only the verifier is checked; an incomplete one uses up the input |
| RpcServers.RpcServer.PatchStatus | src/RPCServer.cpp:152-159 | the last four bytes of the output become the status |
| RpcServers.RpcServer.UpdateMark | src/RPCServer.cpp:163-168 | the mark in front of the reply gets the size of what follows it |
| RpcServers.RpcServer.RunNfs | src/RPCServer.cpp:148-151 | running the NFS procedures over the connection's streams gives result, output, input and state of the function `Nfs` |
| RpcServers.RpcServer.Process | src/RPCServer.cpp:98-171 | one call is read, served in the present state, and its reply appended: the one the specification gives, or GARBAGE_ARGS for an incomplete header |
| RpcServers.RpcServer.SocketReceived | src/RPCServer.cpp:78-96 | the loop ends, has sent exactly the replies to the calls up to the first failing one, is in the state they leave, and leaves the rest unread |
| Storage.StepKeepsInv | src/NFS3Prog/WRITE.cpp:49-96 | every allowed call keeps the invariant: a lookup finds handles that stand for the path, and every mapped stream belongs to the file its handle stands for and whose path is looked up to that handle, also where two handles stand for one path |
| Storage.RunKeepsInv | src/NFS3Prog/WRITE.cpp:49-96 | every run of allowed calls keeps the invariant |
| Storage.OneStreamPerFile | src/NFS3Prog/WRITE.cpp:58-67 | at most one stream is open on a file |
| Storage.LockIsOwn | src/NFS3Prog/WRITE.cpp:60-67 | the file of a handle its path is looked up to is locked exactly when the stream of that handle is open |
| Storage.StepAddsAccepted | src/NFS3Prog/WRITE.cpp:49-96 | a call other than its COMMIT leaves an open stream open, on the same file, and adds exactly what it reports as written through any handle that stands for the file |
| Storage.StreamKeepsWrites | src/NFS3Prog/WRITE.cpp:49-96 | over any run of allowed calls without its COMMIT the file with its buffer written out is the old one with the accepted writes applied in order |
| Storage.FirstWriteOpens | src/NFS3Prog/WRITE.cpp:50-67 | an accepted unstable write through any handle goes to the stream of the handle its path is looked up to, and the first one opens it |
| WriteServices.Stream.Put | src/NFS3Prog/WRITE.cpp:76-77 | fwrite puts its bytes behind the others that wait, at the offset, or for an offset of 2^63 or more at the old position; the position is then behind them |
| WriteServices.StreamTable.StreamFor | src/NFS3Prog/WRITE.cpp:58-67 | the mapped stream, or a new one unless the file cannot be opened; every mapped stream stays non-null and open |
| WriteServices.StreamTable.WriteThrough | src/NFS3Prog/WRITE.cpp:58-81 | one buffered write on the stream of the handle, or a refusal without any effect |
| WriteServices.StreamTable.WriteToFile | src/NFS3Prog/WRITE.cpp:9-19 | the file changes at once, or nothing does when it is locked or cannot be opened |
| WriteServices.WriteService.ProcedureWRITE | src/NFS3Prog/WRITE.cpp:22-104 | reply and new state are those of one step of the storage machine, whose bytes `StoredBytes` speaks of, over the real file table, also one in which paths are shared |
| Storage.CommitCloses | src/NFS3Prog/COMMIT.cpp:31-44 | COMMIT closes exactly the stream its handle wrote through, writes its buffer out and leaves every other stream and file alone |
| Storage.CommittedData | src/NFS3Prog/COMMIT.cpp:31-44 | from the write that opens a stream, through any handle that stands for the file, over any run of allowed calls: a COMMIT closes the stream exactly when its handle is the one the path is looked up to, and then the disk holds the accepted writes applied in order to what the file held before (byte by byte in `StoredBytes.CommittedBytes`); else they are still waiting |
| Storage.CommitMisses | src/NFS3Prog/COMMIT.cpp:31-44 | with two handles for one path, a write and a COMMIT through the handle that is not found are both reported done, and nothing is stored |
| StoredBytes.WrittenAndCommitted | src/NFS3Prog/WRITE.cpp:76-77 | after an unstable write at an offset below 2^63 that was reported with c bytes, and the COMMIT, the file holds data[i - offset] at every i from offset to offset + c, its other old bytes, zeros in a gap, and is as long as the larger of its old length and offset + c; no other file has changed |
| StoredBytes.WrittenAtOnce | src/NFS3Prog/WRITE.cpp:9-19 | the same at once for a synchronous write, at 0 for a larger offset; a refused one changes nothing |
| StoredBytes.CommittedBytes | src/NFS3Prog/COMMIT.cpp:31-44 | over any run of allowed calls between the write that opens the stream and the COMMIT, the file holds at every byte that of the last reported write that covers it, and else the old one or zero |
| StoredBytes.LastWriteCounts | src/NFS3Prog/WRITE.cpp:76-77 | of the writes that cover a byte the last one counts |
| StoredBytes.UncoveredStays | src/NFS3Prog/WRITE.cpp:76-77 | a byte no write covers is the old one, or zero in a gap |
| StoredBytes.WriteAnswered | src/NFS3Prog/WRITE.cpp:39-96 | a WRITE is stale exactly when its handle stands for nothing, refused as missing exactly when the file is not there, and else accepted exactly when the stream is open or may be opened, a synchronous one exactly when no stream is open and the file may be opened; the count is that of fwrite |
| WriteServices.StreamTable.CloseStream | src/NFS3Prog/COMMIT.cpp:31-44 | the stream under the key is closed and forgotten; the branch for a null stream is never taken |
| WriteServices.WriteService.ProcedureCOMMIT | src/NFS3Prog/COMMIT.cpp:5-53 | the new state is that of one COMMIT step |
| WriteServices.WriteService.ProcedureRENAME | src/NFS3Prog/RENAME.cpp:70-88 | a RENAME, also one that leaves two handles for one path, is an allowed step between writes: no open stream loses its handle or the lookup of its path |
| WriteServices.WriteService.EveryHandleIsOwn | src/NFS3Prog/WRITE.cpp:50-57 | in a sound table every handle is the one its path is looked up to, so a COMMIT through the handle of the write stores the data |
| NfsStorage.LookupTells | src/NFS3Prog/LOOKUP.cpp:17-41 | the handle a client takes out of the reply to a LOOKUP stands for the path of the directory, a separator and the name, and that path is looked up to this handle; files and streams stay as they are |
| NfsStorage.LookupStatus | src/NFS3Prog.cpp:541-582 | NAMETOOLONG exactly when path, separator and name have more than 1024 characters, else exactly what CheckFile says |
| NfsStorage.LookedUpInDirectory | src/NFS3Prog.cpp:541-554 | the path of the handle in an accepted reply splits into the directory that was sent and the name that was sent |
| NfsStorage.HandlesOfTwoNames | src/NFS3Prog/LOOKUP.cpp:16-42 | two names, or names in two directories, never get one handle while it stands for its file |
| NfsStorage.ReadTells | src/NFS3Prog/READ.cpp:8-75 | the decoded reply to a READ: NFS3_OK exactly when the handle stands for a file that is there, not locked and may be opened; then as many bytes as asked for or left, each that of the file at its offset, their number, and eof exactly when the file ends there |
| NfsStorage.WriteTells | src/NFS3Prog/WRITE.cpp:49-104 | status, count and stability in the reply to a WRITE are what came of it in the storage |
| NfsStorage.ShortResult | src/NFS3Prog/COMMIT.cpp:29-53 | over the storage the results of LOOKUP, READ of up to 1,000,000 bytes, WRITE and COMMIT always fit, and a COMMIT is always one a client can read: the branch for a null stream is not reached |
| NfsStorage.TellsOutcome | src/RPCServer.cpp:98-171 | what a client takes out of the reply to one of these calls is exactly what the procedure wrote over the storage |
| ClientRuns.SentIsOneCall | src/RPCServer.cpp:78-96 | a record a client sends with one of these calls is one step of the storage and gets one reply |
| ClientRuns.RunIsSteps | src/RPCServer.cpp:78-96 | whatever bytes are received, on streams and as datagrams, files, handles and streams move along the steps of the storage machine |
| ClientRuns.CommittedByClient | src/NFS3Prog/COMMIT.cpp:31-53 | from the bytes of calls to the bytes on disk: after an unstable WRITE whose reply says NFS3_OK, any received buffers, and a COMMIT of the same handle, the file holds at every byte the last of the reported writes that covers it, the first of which is the client's data, at the client's offset, as many as its reply says |
| ClientRuns.CommitIsTold | src/NFS3Prog/COMMIT.cpp:46-53 | the reply to that COMMIT says NFS3_OK |
| ClientRuns.WrittenByClient | src/NFS3Prog/WRITE.cpp:49-104 | with nothing written in between, the file then holds the client's data from its offset on, its other old bytes and zeros in a gap |
| ClientRuns.SyncedByClient | src/NFS3Prog/WRITE.cpp:82-104 | a client that decodes NFS3_OK and FILE_SYNC from the reply to a WRITE at an offset below 2^63 knows its data on disk at that offset, as many bytes as the reply says, and every other byte and file as before |
| ClientRuns.ReadBack | src/NFS3Prog/READ.cpp:8-75 | the data in an accepted reply to a READ behind that COMMIT are, byte by byte from its offset on, those of the last reported write that covers them, and else the old ones |
| ClientRuns.FromNameToDisk | src/NFS3Prog/LOOKUP.cpp:3-42 | the same from a name: with the handle taken out of the reply to a LOOKUP, the file whose path is that of the directory, a separator and the name holds those bytes |
| Paging.SeekToCookie | src/NFS3Prog/READDIR.cpp:10-16 | the last step succeeds exactly when the cookie, cut to 32 bits, is the number of an entry, and then the handle is there |
| Paging.ReadDirectory | src/NFS3Prog/READDIR.cpp:51-83 | ten entries or all that are left, with their cookies; eof exactly when fewer than ten are returned |
| Paging.PageIsSlice | src/NFS3Prog/READDIR.cpp:51-83 | below 2^32 a cookie counts entries: a call returns the slice that starts there |
| Paging.WholeDirectoryIsListed | src/NFS3Prog/READDIR.cpp:51-83 | chaining calls from cookie 0 lists every entry once and in order, sets eof on the last call only and takes floor(N / 10) + 1 calls |
| Paging.ListedExactlyBelowLimit | src/NFS3Prog/READDIR.cpp:13 | with distinct names the chained listing is complete exactly below 4294967300 entries |
| Listings.DirectoryIsListed | src/NFS3Prog/READDIR.cpp:18-89 | a client that takes names, file ids and cookies out of the bytes of each reply by sections 3.3.16 and 3.3.17 of RFC 1813, and sends the last cookie it found, has after floor(N / 10) + 1 replies every name once and in order, each with its file id, and for READDIRPLUS its attributes and handle; only the last reply says eof |
| Listings.CompleteExactlyBelowLimit | src/NFS3Prog/READDIR.cpp:13 | for names that differ, those replies hold the whole listing exactly below 4294967300 entries |
| Listings.ReplySeen | src/NFS3Prog/READDIRPLUS.cpp:49-97 | one reply to any cookie always fits, and the client finds in it the entries of that page, its last cookie and eof |
| Paging.SameIdAgain | src/NFS3Prog/READDIR.cpp:68 | the file id of an entry is the same whenever it is asked for again after any number of other entries |
| Paging.ListEntries | src/NFS3Prog/READDIRPLUS.cpp:60-89 | the loop over the entries, for any description of an entry |
| Symlinks.CollapseDoubleBackslashes | src/NFS3Prog/READLINK.cpp:19-26 | the in-place loop ends and pairs separators from the left |
| Symlinks.EveryStringIsSpelled | src/NFS3Prog/READLINK.cpp:19-26 | every string is spelled by its maximal runs of separators and its other characters |
| Symlinks.EveryRunIsHalved | src/NFS3Prog/READLINK.cpp:19-26 | every maximal run of k separators becomes one of ceil(k / 2), every other character keeps its place |
| Symlinks.DoublesAreGoneExactly | src/NFS3Prog/READLINK.cpp:19-26 | no double separator is left exactly when no run was longer than two |

## Left out

- SocketStreams.SocketStream.Write: asks that cursor plus size stay below 2^32, because the code adds them in 32 bits before it compares, and with a sum that wraps it would copy past its buffer; no caller comes near.
- Codecs.Codec.WriteOpaque: data of more than 2^32 - 2^20 bytes is excluded, for the reason given for Write; so is READ data of that size in `NfsResults.Chunk`.
- WriteServices.WriteService.ProcedureWRITE: the state of the storage only; arguments, attributes, verifier and the bytes of the reply are in `NfsProcedures.Nfs3Prog.ProcedureWRITE` and `NfsStorage.WriteTells`. errno is a parameter. The disk of the model holds files only, so a write to a directory is refused as missing where the code reports what _fsopen says. A registration hidden behind another one with the same path (`Reached`) is left out: the lookup would find the other, or register the path once more.
- WriteServices.WriteService.ProcedureCOMMIT: the state of the storage only, as for WRITE; offset and count are read and ignored by the code.
- FileTables.FileTable.ProcedureRENAME: whether the target exists, what MoveFileW, RemoveDirectory and remove report, and whether the target is a directory link are parameters.
- FileTables.FileTable.AddItem: asks for an addable path. A path under a root but under no registered directory is added as a second root inside the first (`FileTrees.FileTree.AddItem` says where); a lookup may then miss it, as `Caches.TransparentExactly` says, and the slot of the new handle stays empty.
- FileTables.FileTable.GetHandleByPath: asks for an addable path where nothing is found, for the same reason.
- FileTrees.FileTree.RemoveItem: a node that is found is no root; erasing one would leave the cached root pointing to a freed node.
- FileTables.FileTable.RemoveItem: a registered path that is removed is no root, as above, and has no registered path below it: the slots of those would keep pointing to freed nodes, as `Coherence.CoherentAfterRemoveExactly` says.
- FileTables.FileTable.RemoveEntry: the same of what it removes.
- WriteServices.WriteService.ProcedureRENAME: asks for a sound table and `RenameCall`; one after another that left two handles for one path is not covered by it.
- FileTables.FileTable.RemoveFolder: when the folder was removed from the disk, it is no root and only its dot entries may still be registered below it; `Coherence.CoherentAfterRemoveExactly` says what happens otherwise.
- NfsProcedures.Nfs3Prog.Process: the answers of Windows and of the file table are a function of state, procedure and arguments, which can be any. `NfsStorage` fills it in for LOOKUP, READ, WRITE and COMMIT, `TableReplies` ties the table part of RENAME, REMOVE and RMDIR to the status in the reply, and `Listings` follows any unchanging directory; the remaining effects are proved in their own modules. The number a procedure returns is only logged, and is left out.
- Codecs.Codec.ReadOpaque: a file name or link target of 2^32 - 1 bytes, for which the code allocates `len + 1 == 0` bytes (src/NFS3Prog.cpp:84-89), is read like any other; so it is in `NfsPrograms.NfsTruncated`.
- ClientRuns.FromNameToDisk: the characters of a name, what CheckFile says of it and what _fsopen and fwrite decide are parameters of the run.
- NfsProcedures.Nfs3Prog.Call: a handle shorter than four bytes, of which the code reads memory behind it, and an opaque too long to allocate are answered like any other.
- NfsStorage.ReadTells: a READ of more than 1,000,000 bytes, whose result may not fit, is answered like the procedures left open; fread of an opened file is never short.
- NfsReplies.RenameTells: a source path of exactly 1024 characters, which the code copies into a buffer of 1024 with its end (src/NFS3Prog/RENAME.cpp:23-36), passes like any other.
- Listings.DirectoryIsListed: names of more than 65,536 bytes are left out; Windows gives at most 259.
- Paging.ReadDirectory: what is said about an entry is a function of its name on an unchanged directory; that the file id is one follows from `Paging.SameIdAgain`.
- Paging.WholeDirectoryIsListed: a directory has at least one entry, because _findfirst is only asked about directories that exist.
- src/tree.hh has a type parameter; the model fixes it to FILE_ITEM, its only use. Copying a whole tree, sorting, merging and the other iterators are not modelled; erase of a tree by its destructor is covered by Erase.
- Conversion between UTF-8, code page 932 and wide strings (src/conv.cpp): a path is a sequence of characters with one separator.
- The path of a placeholder child is the empty string; its handle, which the code leaves uninitialised, is modelled as absent.
- Attributes a procedure writes without having set them are whatever the answer says.
- The cache list of the file table (src/FileTable.cpp:103-158, 212-258) is never filled, so FindItemByPath always gives NULL.
- Ownership of the buffers behind paths and handles, nPathLen and bCached, and running out of memory.
- Sockets, threads and the mutex around SocketReceived; Send is modelled as a list of what was sent.
- The stack variables a short read leaves partly set are unknown values; a reply to an incomplete header is described up to those words.
- Windows file calls (_access, _fsopen, MoveFileW, _findfirst and others) are parameters or small objects with the behaviour their names promise; a file with an open stream is protected from every other procedure, and the C library may write a buffer out at any time.
- The contents of attributes and time stamps, the mount and port map programs, logging and the command line.
