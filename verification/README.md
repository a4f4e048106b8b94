# Tarbox: layers, contents, paths, mounts and handles

A Dafny model of the parts of Tarbox that decide what a tenant sees, and proofs of what they keep.
The PostgreSQL tables become values with the constraints of the migrations; each repository call is
one atomic step; code that changes state step by step is a class whose methods are proved against a
function on the tables, and the theorems are about those functions and about every run of them.

| file | models |
|---|---|
| `LayerTable.dfy`, `LayerStore.dfy` | layer, entry and current-layer rows, their statements and constraints, the parent walk |
| `History.dfy`, `Manager.dfy` | checkpoints, switching, deletion and recording by LayerManager, over whole runs |
| `Branches.dfy` | checkpoints and deletions in any layer tables, with branches and mount layers |
| `UnionView.dfy` | lookup, listing and history of a chain of layers; time travel in linear histories |
| `TimeTravel.dfy`, `Unlinks.dfy` | time travel with mount chains and CSI snapshots in the same tables, and with deleted files |
| `MountLayers.dfy`, `MountHistory.dfy` | per-mount layer chains, snapshots and batches; a chain while everything else goes on |
| `Reached.dfy` | runs from an empty tenant to the states named below |
| `Strings.dfy`, `Rows.dfy`, `Detection.dfy` | line functions, row selection, the line-ending scan |
| `TextTables.dfy`, `TextProofs.dfy`, `Cow.dfy` | content-addressed text storage, binary blocks, saving and reading files |
| `FsPath.dfy`, `InodeTree.dfy` | path normal forms; the flat inode table as a tree of paths |
| `Mounts.dfy` | mount conflicts, the stored mount set, path resolution |
| `FuseAdapter.dfy`, `WasiFds.dfy` | the inode map and directory paging; file descriptors |
| `TenantNames.dfy` | tenant names of volume claims |
| `Prelude.dfy` | option, result and sequence reversal |

`dafny verify dfyconfig.toml` checks everything.

## Where the code does not do what one would expect

The model follows the code. These are theorems here, each with the exact condition:

- A confirmed checkpoint sorts the future layers by a key that is always 0 and then reverses the
  newest-first listing, so it removes the oldest future layer first. A child still refers to it
  (`ON DELETE RESTRICT`), so the removal goes through exactly when no future layer has a child
  (`Branches.FutureRemoval`, `Branches.CheckpointSucceedsExactly`); newest first it always would
  (`Branches.NewestFirstAlwaysSucceeds`). In a history the manager alone made that is at most one
  layer (`Branches.LinearFutureLeaves`), and with two or more the checkpoint changes nothing
  (`History.CheckpointCases`, `History.TwoAheadIsReal`). Two CSI snapshots of one layer can both go
  (`Reached.TwoAheadCanGo`).
- A checkpoint is not undone when it fails. A refused removal has already taken every future layer
  older than the oldest one with a child, with its entries (`Branches.CheckpointTakes`,
  `Reached.RefusedLosesLayer`). A name that is used or longer than 255 characters is found out last:
  the whole future is gone by then and the current layer is frozen
  (`Branches.FailedCheckpointLeaves`, `History.LosesLayerOnBadName`, `History.OneAheadIsReal`).
- Deleting an inode removes its entries from read-only layers too (`ON DELETE CASCADE`), so deleting
  a file can change old views: lookups, listings and histories
  (`UnionView.InodeDeletionExactly`, `UnionView.InodeDeletionInListing`,
  `UnionView.HistoryWithoutInode`). Deleting the inode of a tombstone can bring an older file back.
  Over whole runs a frozen view is kept exactly when no deleted inode is named in its chain
  (`Unlinks.FrozenViewKeptExactly`), so only a view whose layers record
  nothing is sure to last (`Unlinks.OnlyEmptyViewsLast`). A view is lost as soon as initialise, record,
  checkpoint and a deletion (`Reached.InodeDeletionIsReal`).
- Being read-only is not enough for a view to be stable once mounts or CSI snapshots share the
  tables: all ancestors must be read-only too (`TimeTravel.ViewIsStableExactly`). A checkpoint on a
  mount's working layer makes a layer for which they are not (`Reached.ReadonlyOverWritableIsReal`).
  In histories the manager alone made they always are (`UnionView.TimeTravelIsStable`).
- A second change of a path in one layer keeps the inode of the first (`UnionView.RecordIsSeen`).
- Writes record the path as it was given, not its normal form. Listing and lookup agree on a
  recorded path exactly when its parent and name give it back, or it has no parent
  (`UnionView.AgreeExactly`, `UnionView.AgreeableSetExactly`). A path with a trailing slash, without
  a slash, or with "//" before its one name is listed but cannot be looked up
  (`UnionView.TrailingSlashDisagrees`, `UnionView.RootlessDisagrees`).
- A snapshot named `working-M` leaves mount M without a working layer, and no initialisation or
  snapshot brings it back (`MountLayers.ChainsGrow`); the mount's layers would have to be deleted
  from the top first. Deleting the working layer is the only other way to lose the chain
  (`MountHistory.StepKeepsChainExactly`, `MountHistory.ChainThroughoutExactly`).
- A batch gives all its mounts the same snapshot name, and layer names are unique in a tenant, so it
  snapshots the first eligible mount and no other (`MountLayers.BatchTakesFirstEligible`).
- No statement of the repository writes `mount_entries.current_layer_id`: the insertions leave it
  out and the update does not set it. A batch reads it as a value that must be there, so for mount
  rows as the code stores them it reports a database error for each and snapshots nothing
  (`MountLayers.StoredRowsTakeNothing`).
- Replacing the mount set deletes all mounts before it inserts, so an entry whose layer source is one
  of the tenant's own mounts can never be set (`Mounts.OwnSourceNeverSet`).
- Line endings are stored in upper case and compared in lower case, so every text is rebuilt with LF
  (`TextProofs.SeparatorIsLf`); with the names the reader compares with it would be exact
  (`TextProofs.NameComparedIsExact`). A file that reads as empty counts as new, so a save after "", LF or
  CR LF runs into its own metadata row and fails (`Cow.SecondSaveExactly`).
- `delete_text_file` lowers the counts and leaves the mappings (`TextProofs.ReleaseCountsExactly`).
- Removing "/" from an otherwise empty file system deletes the root (`InodeTree.RootLostExactly`).

## Modelling choices

- One tenant at a time; new identifiers come from a counter, as fresh ids do; rows are kept in
  creation order. BLAKE3 is taken to be injective.
- Rust's `Path` comparison is by components; the length of a mount match is the byte length of the
  path as written, so a mount with an empty path never matches.
- Descriptor numbers and positions wrap at their widths (32 and 64 bits), as in a release build.
- Answers of the file system and of the backend, how many entries fit a reply, and the mounts of
  other tenants that a source names or that name one of these, are parameters.
- Text is valid UTF-8: a `string` with the byte width of each character.

## Model

| member | source | states |
|---|---|---|
| LayerTable.ChainShape | src/storage/layer.rs:98-130 | the recursive parent walk ends, starts at the layer, follows parents, repeats no row and ends at a root |
| LayerTable.ChainIsAncestry | src/storage/layer.rs:98-130 | the walk from x meets a exactly when a run of parent references leads from x to a, or they are equal; no layer descends from itself |
| LayerTable.InsertExactly | src/storage/layer.rs:24-60 | a layer can be inserted if and only if its name has at most 255 characters and no layer has it, its mount has no other working layer if it is to be one, and its parent exists; each refusal is told apart, and the row is added writable under the next identifier |
| LayerTable.RemoveExactly | src/storage/layer.rs:132-155 | a layer can be deleted if and only if it is not there, or no layer has it as its parent and it is not current; nothing but its row and its entries goes |
| LayerTable.InsertKeeps | src/storage/layer.rs:24-60 | an insertion keeps every constraint of the tables: acyclic parents, unique names of at most 255 characters, no dangling reference |
| LayerTable.RemoveKeeps | src/storage/layer.rs:132-157 | a deletion that the foreign keys let through leaves no dangling parent, current layer or entry |
| LayerTable.SetReadonlyKeeps | src/layer/manager.rs:292-315 | freezing a layer keeps every constraint |
| LayerTable.UpsertKeeps | src/storage/layer.rs:157-196 | recording keeps one entry per layer and path, each naming an existing layer and inode |
| LayerTable.RemoveInodeKeeps | migrations/20260118000003_create_layers.sql:40-41 | deleting an inode takes exactly the entries that name it away and keeps every constraint |
| LayerTable.EntriesOfWithout | migrations/20260118000003_create_layers.sql:31-31 | removing the entries of one layer leaves the entries of every other layer, in order |
| LayerTable.UpsertElsewhere | src/storage/layer.rs:157-196 | a change recorded in one layer leaves the entries of every other layer, in order |
| LayerStore.LayerOperations.Create | src/storage/layer.rs:24-60 | inserts the row that the table function gives, or refuses (a name that is too long or used, a second working layer, a missing parent) and changes nothing |
| LayerStore.LayerOperations.Delete | src/storage/layer.rs:132-155 | deletes the row and its entries, or is refused by a child or by the current layer and changes nothing |
| LayerStore.LayerOperations.AddEntry | src/storage/layer.rs:157-196 | inserts the entry, or updates the change of the one with this layer and path |
| LayerStore.LayerOperations.InodeDeleted | migrations/20260118000003_create_layers.sql:40-41 | deletes the inode and exactly its entries |
| LayerStore.LayerOperations.SetCurrentLayer | src/storage/layer.rs:236-256 | moves the current-layer row and nothing else |
| LayerStore.LayerOperations.SetLayerReadonly | src/layer/manager.rs:292-315 | freezes the layer and nothing else |
| History.FutureIsDescendants | src/layer/manager.rs:214-240 | in any acyclic parent table, the future of a layer is exactly its proper descendants |
| History.LinearFuture | src/layer/manager.rs:214-240 | in a linear history the future is the rows after the layer, newest first |
| History.CheckpointCases | src/layer/manager.rs:125-181 | in a history the manager alone made (no CSI snapshots, no mount layers), the whole result of a checkpoint by the number of layers after the current one; with two or more the removal is refused at once and nothing changes |
| History.CheckpointExact | src/layer/manager.rs:125-181 | in such a history a checkpoint succeeds if and only if at most one layer lies ahead (and then confirmation is given) and the name fits and is free among the layers that stay; it then leaves those layers, the last one frozen, and the new one; for all tables see Branches.CheckpointSucceedsExactly |
| History.LosesLayerOnBadName | src/layer/manager.rs:150-181 | with one layer ahead, confirmation and a name that is used or too long, the checkpoint fails and the layer ahead is gone with its entries |
| History.OneAheadIsReal | src/layer/manager.rs:78-200 | that case is reached from an empty tenant by initialise, checkpoint and switch back, with the name "base" |
| History.TwoAheadIsReal | src/layer/manager.rs:78-200 | two layers ahead are reached from an empty tenant by two checkpoints and a switch back; every confirmed checkpoint is then refused and changes nothing |
| History.CheckpointOnTop | src/layer/manager.rs:125-181 | on the newest layer of such a history, with a free name that fits, a checkpoint needs no confirmation and gives exactly this state |
| History.RecordExactly | src/layer/manager.rs:317-364 | a change is recorded if and only if there is a current layer, it is not read-only, and the inode exists or the layer has an entry for the path already; the answer is the current layer, every refusal is told apart and changes nothing |
| History.RecordLeaves | src/storage/layer.rs:157-196 | after a recorded change the current layer has one entry for the path, with the change and the inode that was there first, and every other entry is as it was |
| History.SwitchAnswers | src/layer/manager.rs:187-200 | a switch answers its layer, or that it is missing, and moves nothing but the current layer |
| History.RemoveAllKeeps | src/layer/manager.rs:150-163 | whatever layers the deletion loop is given, in whatever order, no reference dangles at its end or at its first refusal |
| History.NewestFirstSucceeds | src/layer/manager.rs:150-163 | in such a history, removed newest first, any number of future layers would go and exactly the layers up to the current one stay |
| History.InitializeTwice | src/layer/manager.rs:78-111 | initialising an empty tenant makes the one base layer; a second time finds it and changes nothing |
| History.StepKeeps | src/layer/manager.rs:78-364 | each manager step keeps the history linear and, once it has a layer, never empties it; identifiers only grow |
| History.HistoryIsLinear | src/layer/manager.rs:78-364 | from an empty tenant, over any run: one parent chain from a single base, every layer with a child read-only, the current layer on it, not empty once initialised |
| History.StepSame | src/layer/manager.rs:78-364 | one step leaves a read-only layer that survives it, and all its ancestors, with the same rows and entries |
| History.GoneStaysGone | src/storage/layer.rs:24-60 | a layer gone at some point of a run is gone at its end |
| History.ReadonlyLayersAreStable | src/layer/manager.rs:317-364 | over any run, a read-only layer that survives keeps, with all its ancestors, the same rows and entries |
| Branches.FutureRemoval | src/layer/manager.rs:150-163 | in any tables, the removal of the layers after the current one goes through if and only if none of them has a child, and is otherwise refused by the foreign key; what it leaves is the tables without the layers it took |
| Branches.CheckpointSucceedsExactly | src/layer/manager.rs:125-181 | in any tables a checkpoint succeeds if and only if no layer lies ahead, or it is confirmed and none of those ahead has a child, and the name fits and is free among the layers that stay; it then leaves exactly those layers and their entries, the current one frozen, and the new one on it |
| Branches.CheckpointTakes | src/layer/manager.rs:150-163 | a checkpoint, successful or not, removes a layer if and only if it is confirmed and the layer is in the future and older than every future layer with a child |
| Branches.FailedCheckpointLeaves | src/layer/manager.rs:125-181 | every failure with its error and what it leaves; it changes nothing if and only if confirmation is missing, the oldest future layer has a child, or there is no future and the current layer was frozen already |
| Branches.NewestFirstAlwaysSucceeds | src/layer/manager.rs:150-163 | newest first, in the order of the listing, any future in any tables could be removed, and exactly it would go |
| Branches.LinearFutureLeaves | src/layer/manager.rs:150-163 | in a history the manager alone made, no future layer has a child exactly when at most one lies ahead |
| Branches.DropSucceedsExactly | src/layer/manager.rs:251-284 | in any tables a layer can be deleted if and only if it exists, has no child and is not both current and a root; it goes with its entries, the current layer steps to its parent, and the foreign keys never refuse it |
| Branches.DropByRows | src/layer/manager.rs:251-284 | the same by rows: a deletion goes through if and only if no layer has this one as its parent and it is not both current and a root; its row and its entries are gone, all others stay in place, and the parent is current if it was; a refusal changes nothing |
| Branches.DropMissing | src/layer/manager.rs:251-284 | a layer that is not there is reported missing |
| Reached.TwoAheadCanGo | src/csi/snapshot.rs:21-57 | initialise and two CSI snapshots put two layers ahead of the base, and a confirmed checkpoint goes through |
| Reached.RefusedLosesLayer | src/layer/manager.rs:150-163 | a run of snapshots, a restore, a checkpoint and a switch reaches tables in which a confirmed checkpoint is refused and a layer is gone |
| Manager.LayerManager.InitializeBaseLayer | src/layer/manager.rs:78-111 | returns the current layer, or creates the base layer and makes it current |
| Manager.LayerManager.GetFutureLayers | src/layer/manager.rs:214-240 | the collecting loop returns exactly the proper descendants, in listing order |
| Manager.LayerManager.DeleteInOrder | src/layer/manager.rs:154-163 | the deletion loop removes from the front and stops at the first refusal |
| Manager.LayerManager.CreateCheckpointWithConfirm | src/layer/manager.rs:125-181 | the step-by-step code computes the checkpoint of the specification, with every error |
| Manager.LayerManager.StackLayer | src/layer/manager.rs:165-181 | freezes the current layer and puts a new one on it; a used or over-long name leaves the layer frozen |
| Manager.LayerManager.SwitchToLayer | src/layer/manager.rs:187-200 | moves to an existing layer, or reports it missing |
| Manager.LayerManager.DeleteLayer | src/layer/manager.rs:251-284 | the step-by-step code computes the deletion of the specification, with every error |
| Manager.LayerManager.RecordChange | src/layer/manager.rs:317-364 | records in the current layer, refused without one and when it is read-only |
| UnionView.JoinSlot | src/layer/union_view.rs:221-241 | parent and name of a joined path are the directory and the name it was joined from |
| UnionView.RejoinsExactly | src/layer/union_view.rs:221-241 | which paths their parent and name give back: those with a slash, none at the end, and not "//" before a single name |
| UnionView.NormalizedRejoins | src/fs/path.rs:6-36 | every path in normal form except the root is given back |
| UnionView.ListDecides | src/layer/union_view.rs:127-161 | for any entries, a listing holds a name exactly as the newest entry for that place of the directory says |
| UnionView.LookupIsFirstVersion | src/layer/union_view.rs:95-186 | a lookup is decided by the first element of the history of the path |
| UnionView.HistoryMembers | src/layer/union_view.rs:164-186 | a history holds exactly the versions that the layers of the chain record for the path |
| UnionView.HistoryOrder | src/layer/union_view.rs:164-186 | it goes from the top of the chain down, with one version for each layer that has one |
| UnionView.ListAgreesWithLookup | src/layer/union_view.rs:95-161 | when every recorded path rejoins or has no parent, the oldest-first fold and the newest-first search agree: a name is listed with an inode and layer exactly when looking the joined path up finds that inode and layer |
| UnionView.AgreeExactly | src/layer/union_view.rs:95-161 | a single change that is not a deletion is listed as it is looked up, in every directory, if and only if its path rejoins or has no parent |
| UnionView.AgreeableSetExactly | src/layer/union_view.rs:95-161 | listing and lookup agree on every chain over all entries with paths of a set if and only if every path of the set rejoins or has no parent |
| UnionView.ListHoldsNames | src/layer/union_view.rs:127-161 | a listing holds real names only |
| UnionView.TrailingSlashDisagrees | src/layer/union_view.rs:127-161 | for every directory and name, a path recorded with a trailing slash is listed but not found |
| UnionView.RootlessDisagrees | src/layer/union_view.rs:221-241 | a path without a slash, and "//" before a name, are listed under "/" but not found there |
| UnionView.TimeTravelIsStable | src/layer/union_view.rs:95-186 | over any run of manager steps, a surviving read-only layer has the same chain and answers every lookup, listing and history query as before |
| UnionView.RecordIsSeen | src/layer/manager.rs:317-364 | after a change is recorded, a lookup from the current layer shows it (with the inode of the first entry for that path) and every other path is as before |
| UnionView.InodeDeletionExactly | migrations/20260118000003_create_layers.sql:40-41 | deleting an inode reaches into read-only layers: a lookup survives it if and only if the first version of the path names another inode |
| UnionView.HistoryWithoutInode | migrations/20260118000003_create_layers.sql:40-41 | deleting an inode takes exactly its versions out of every history, in read-only layers too |
| UnionView.InodeDeletionInListing | migrations/20260118000003_create_layers.sql:40-41 | a name in an old listing survives the deletion of an inode if and only if its first version names another inode, or it showed nothing and the versions of the other inodes show nothing either |
| TimeTravel.SwitchingLeavesNoTrace | src/layer/manager.rs:187-200 | after any run of switches and restores, to layers that exist or not, switching back gives exactly the tables from before |
| TimeTravel.FrozenViewKept | src/csi/snapshot.rs:21-75 | with mount chains and CSI snapshots in the same tables, over any run of all their steps, the view from a surviving layer is kept when the layer and all its ancestors are read-only |
| TimeTravel.WritableViewChanges | src/layer/manager.rs:187-364 | otherwise some run changes it: make a writable ancestor current and record a new path |
| TimeTravel.ViewIsStableExactly | src/layer/union_view.rs:95-186 | so a view is stable over all runs if and only if its whole chain is read-only |
| TimeTravel.StepEvolves | src/storage/layer.rs:24-390 | every step keeps the parents and mounts of surviving layers, the names of those of other mounts, and the flag and entries of read-only ones, and reuses no identifier |
| TimeTravel.CsiAnswers | src/csi/snapshot.rs:21-75 | a CSI deletion takes a layer that is there, without a child and not current, and no other; a restore moves to an existing layer |
| TimeTravel.CheckpointShowsTheSame | src/layer/manager.rs:125-181 | in any tables a successful checkpoint puts one empty layer on the chain, and the view from it answers every lookup, listing and history query as the view before |
| Reached.ReadonlyOverWritableIsReal | src/layer/manager.rs:165-181 | initialising a mount, switching to its working layer and a checkpoint leave a read-only layer whose chain is not all read-only |
| Unlinks.FrozenHistoryExactly | migrations/20260118000003_create_layers.sql:40-41 | over any run of all steps and inode deletions, a surviving layer with a read-only chain keeps the chain, and of every history exactly the versions of inodes that were not deleted, in order |
| Unlinks.FrozenViewKeptExactly | migrations/20260118000003_create_layers.sql:40-41 | such a run keeps the view from that layer if and only if no deleted inode is named by an entry of the chain |
| Unlinks.OnlyEmptyViewsLast | migrations/20260118000003_create_layers.sql:40-41 | the view from a layer is kept by every such run if and only if its chain is read-only and records nothing |
| Reached.InodeDeletionIsReal | migrations/20260118000003_create_layers.sql:40-41 | after initialise, record and checkpoint, deleting the inode turns a lookup from the read-only base from found to not found |
| UnionView.View.FromLayer | src/layer/union_view.rs:58-67 | the view of an existing layer starts at it, follows parents to a root, repeats nothing and holds exactly the layer and its ancestors; of a missing layer it is empty |
| UnionView.View.LookupFile | src/layer/union_view.rs:95-121 | the nested search with early return computes the lookup |
| UnionView.View.ListDirectory | src/layer/union_view.rs:127-161 | the nested fold into a map computes the listing |
| UnionView.View.GetFileHistory | src/layer/union_view.rs:164-186 | the collecting loops compute the history |
| MountLayers.InitExact | src/storage/layer.rs:261-302 | the two layers of a mount are created if and only if both names fit and are free and the mount has no working layer; the answer is the base and the working layer, in this order; a failure of the second leaves the first behind |
| MountLayers.SnapshotExact | src/storage/layer.rs:339-390 | a snapshot of a mount that has its chain goes through if and only if the name fits, no other layer has it and it is not the working name; the chain then grows by one; with the working name the mount loses its working layer |
| MountLayers.SnapshotElsewhere | src/storage/layer.rs:339-390 | a snapshot leaves the layers of every other mount as they were |
| MountLayers.SnapshotKeeps | src/storage/layer.rs:339-390 | a snapshot, also one that fails half way, keeps every constraint of the tables |
| MountLayers.ChainsGrow | src/storage/layer.rs:261-390 | over any interleaving of initialisations and snapshots of many mounts, with any names: a mount keeps its chain if and only if it is never snapshotted under its own working name; the chain grows by exactly its successful snapshots and nothing below its top changes; otherwise no such step brings the working layer back |
| MountLayers.FreshMountChain | src/storage/layer.rs:261-390 | after its one initialisation a mount has two layers more than it has successful snapshots |
| MountHistory.OthersLeaveBeginning | src/csi/snapshot.rs:21-75 | over any run of the manager, CSI and other mounts, what is left of a mount's chain is a beginning of it, and it is the whole chain if and only if the working layer is still there |
| MountHistory.StepKeepsChainExactly | src/storage/layer.rs:339-390 | a step of any kind takes a mount's chain apart if and only if it snapshots the mount under its working name or deletes its working layer |
| MountHistory.ChainThroughoutExactly | src/storage/layer.rs:261-390 | a mount has its chain at every point of a run of all steps if and only if no step does one of these two things |
| MountHistory.MountsAreWhole | src/storage/layer.rs:261-390 | from an empty tenant, over any run of all steps, the layers of every mount are its base with each later layer on the one before it, and a mount with a working layer has its whole chain, that layer on top |
| MountLayers.SnapshottedIsSkippedAgain | src/storage/layer.rs:392-472 | a mount just snapshotted is skipped as unchanged when asked for again with skip_unchanged, under any name |
| MountLayers.BatchTakesOnce | src/storage/layer.rs:392-472 | a batch answers every name in order, never reports two snapshots, and after one the name is taken |
| MountLayers.BatchTakesFirstEligible | src/storage/layer.rs:392-472 | for mounts that have no working layer or their whole chain (no run reaches others: MountHistory.MountsAreWhole), result i is a snapshot if and only if its mount is eligible in the starting tables (found, with a current layer, not skipped as unchanged, with a working layer, the name fitting, free and not its working name) and no earlier one is |
| MountLayers.BatchOneAnswers | src/storage/layer.rs:392-472 | one mount with its chain in a batch: skipped as unchanged if and only if that is asked for and no entry is recorded in its working layer; a snapshot answers the new working layer on top; a failure answers its cause, no working layer or a name too long or used |
| MountLayers.FindMountExactly | src/storage/layer.rs:406-415 | the mount of a name is the first row that has it |
| MountLayers.StoredRowsTakeNothing | src/storage/layer.rs:406-415 | mount rows without a current layer are all reported unreadable and the batch changes nothing |
| MountLayers.BatchSnapshotsAtMostOneMount | src/storage/layer.rs:392-472 | one result per name in order, and at most one snapshot in all, because layer names are unique in a tenant |
| MountLayers.MountLayerOperations.CreateInitialLayers | src/storage/layer.rs:261-302 | computes the creation of the specification |
| MountLayers.MountLayerOperations.CreateSnapshot | src/storage/layer.rs:339-390 | computes the snapshot of the specification |
| MountLayers.MountLayerOperations.BatchSnapshot | src/storage/layer.rs:392-472 | the loop computes the batch of the specification |
| Strings.LinesJoin | src/layer/cow.rs:158-158 | the lines of a text joined by LF, with its final LF, are the text with each CR LF replaced by LF |
| Strings.CrlfToLfFixes | src/layer/cow.rs:311-321 | replacing CR LF by LF changes nothing exactly for texts without such a pair, and otherwise shortens |
| Strings.WidthExactly | src/fs/path.rs:15-33 | the lengths that are compared count a character in the fewest UTF-8 bytes that hold its code |
| Detection.SegmentsAddUp | src/layer/detection.rs:238-291 | one segment more than line endings; segment bytes and ending bytes add up to the text |
| Detection.StoredTotal | src/layer/cow.rs:158-163 | the detected line count against the stored number of lines: they differ by the lone CRs and by one for a final newline or an empty text |
| Detection.LinesCount | src/layer/cow.rs:158-163 | the number of stored lines is the number of LFs, plus one for text after the last |
| Detection.StyleExactly | src/layer/detection.rs:278-288 | the style by characters: LF if LF occurs and CR does not, CR the other way round, CR LF if CR occurs and the two occur next to each other only, none if neither occurs, mixed otherwise |
| Detection.SegmentsAreCut | src/layer/detection.rs:238-291 | the lines measured are free of CR and LF and, with the endings cut out between them and no CR LF cut apart, make up the text |
| Detection.LongestIsMaximum | src/layer/detection.rs:238-291 | the length measured is that of some line, and no line is longer |
| Detection.StoredNames | src/layer/detection.rs:94-104 | the stored names are the three the column takes; only CR LF and lone CR keep their own |
| Detection.NonPrintableExactly | src/layer/detection.rs:228-235 | the characters counted against a text are the control codes other than tab, LF and CR, and DEL |
| Detection.NonPrintablesCount | src/layer/detection.rs:228-235 | each of them is counted once |
| Detection.WithoutBomExactly | src/layer/detection.rs:199-201 | one byte order mark in front is dropped, and nothing else |
| Detection.AnalyzeLines | src/layer/detection.rs:238-291 | the scan returns the style of the endings, counted by position and told by the characters of the text, one more than their number, and the byte length of a longest segment |
| Detection.Detect | src/layer/detection.rs:123-195 | text is accepted exactly when small enough, free of NUL, with few control characters and no over-long segment; its encoding, its ending by its characters, and its line count |
| TextTables.ShortHashNeverMatches | src/layer/cow.rs:217-222 | a hash that is not 64 digits long matches no stored block, and a writer searches by one of 16 |
| TextTables.InternKeeps | src/storage/text.rs:31-76 | interning lines keeps all blocks in place, equal contents in one block, and returns for each line a block with that content |
| TextTables.ClearedKeeps | src/layer/cow.rs:177-198 | removing the old rows of a file touches no other file |
| TextProofs.SeparatorIsLf | src/layer/detection.rs:94-104 | whatever the stored ending name, the reader joins by LF, because it compares with lower-case names |
| TextProofs.NameComparedIsExact | src/layer/cow.rs:311-321 | if the reader found the names it compares with, every text with one kind of ending would be rebuilt exactly, other than a lone line end |
| TextProofs.SeparatorShows | src/layer/cow.rs:311-321 | lines read under a name the reader knows have the ending of that name between them |
| TextProofs.MappingsInAnyOrder | src/layer/cow.rs:298-309 | a text reads the same in whatever order its mappings are stored, if no line number repeats |
| TextProofs.RebuildIsReread | src/layer/cow.rs:311-321 | reading back rebuilds the text with CR LF replaced by LF, except that a lone LF becomes nothing |
| TextProofs.RereadExactly | src/layer/cow.rs:154-321 | the round trip is exact if and only if the text has no CR LF pair and is not a lone LF |
| TextProofs.WriteTextExact | src/layer/cow.rs:142-249 | a write fails if and only if it counts as new and rows exist, changing nothing; otherwise it answers and stores the number of lines with the name of the ending and the final LF, the file reads back as the reread text, every other file and layer reads as before, and blocks keep places and contents |
| TextProofs.WriteTextKeepsCounts | migrations/20260118000004_create_text_storage.sql:80-115 | a write keeps every reference count equal to the number of mappings |
| TextProofs.ReleaseCountsExactly | src/layer/cow.rs:327-341 | releasing a file lowers each count by its mappings to the block, not below zero, and leaves all else; no count then exceeds the mappings, and exact counts stay exact only for a file without mappings |
| TextProofs.ApplyKeeps | src/layer/cow.rs:142-341 | any text or count operation keeps the tables valid and every file it does not write |
| TextProofs.FilesAreIsolated | src/layer/cow.rs:142-341 | over any run: blocks are never altered or removed, none are duplicated, every mapping has its block, and a file that is not written reads the same |
| TextProofs.CountsOverRuns | src/storage/text.rs:110-151 | from empty tables, writes alone keep counts exact; with releases no count exceeds its mappings |
| Cow.ChunkSizes | src/layer/cow.rs:120-122 | 4096-byte chunks: their number is the size rounded up, all but the last are full |
| Cow.ConcatChunks | src/layer/cow.rs:120-133 | chunks numbered from zero and concatenated in index order are the data |
| Cow.BinaryRoundTrip | src/layer/cow.rs:108-139 | written blocks read back as the data, and the blocks of other inodes read as before |
| Cow.BlocksInAnyOrder | src/fs/operations.rs:251-268 | blocks read the same in whatever order the rows are stored, if no index repeats |
| Cow.BinaryReadExactly | src/fs/operations.rs:284-303 | a reader sees a binary write if and only if no text row exists for the inode in the layer |
| Cow.RereadEmpty | src/layer/cow.rs:311-321 | the texts that read back as empty are the empty one and a single LF or CR LF |
| Cow.SecondSaveExactly | src/fs/operations.rs:194-206 | a text save goes through if and only if the file has no text rows or does not read as empty, so after saving "", LF or CR LF the next save fails, and after any other text it succeeds |
| Cow.Storage.CreateLineMappings | src/storage/text.rs:209-255 | the insertion loop adds every mapping and the trigger counts each |
| Cow.CowHandler.WriteTextFile | src/layer/cow.rs:142-249 | the step-by-step write computes the write of the specification and leaves binary blocks alone |
| Cow.CowHandler.InternLines | src/layer/cow.rs:214-238 | the loop interns the lines in order and numbers their mappings |
| Cow.CowHandler.ReadTextFile | src/layer/cow.rs:283-324 | the reader rebuilds the text from the mappings in line order |
| Cow.CowHandler.DeleteTextFile | src/layer/cow.rs:327-341 | the loop lowers the counts and leaves the rows |
| Cow.CowHandler.WriteBinaryFile | src/layer/cow.rs:108-139 | the loop stores the chunks, and they read back as the data |
| Cow.CowHandler.ReadFileInternal | src/fs/operations.rs:251-268 | text rows first, blocks in index order otherwise |
| FsPath.PartsOfJoined | src/fs/path.rs:6-36 | components survive being joined and split again |
| FsPath.NormalizeExactly | src/fs/path.rs:6-36 | a path is accepted if and only if it is absolute, without NUL and within the byte limits; its normal form renders its components |
| FsPath.NormalizeErrors | src/fs/path.rs:6-36 | why a path is refused, in the order of the code: empty or with NUL, too long, not absolute, or with a component too long, of which the first is reported; lengths in bytes |
| FsPath.NormalizeLaws | src/fs/path.rs:6-36 | normalising never lengthens, keeps the components and does nothing the second time |
| FsPath.SplitExactly | src/fs/path.rs:38-59 | splitting an accepted path gives the rendered front components and the last one, or fails for the root |
| FsPath.SplitLaws | src/fs/path.rs:38-69 | the components of the parent followed by the name are the components of the path |
| InodeTree.TreeIs | src/fs/operations.rs:56-84 | the table stands for exactly one map from component sequences to nodes |
| InodeTree.TreeIsClosed | src/fs/operations.rs:56-84 | in it every node hangs below a directory, and the empty sequence is the root |
| InodeTree.InsertExactly | src/fs/operations.rs:86-116 | a row can be inserted under a directory exactly when the tree has nothing at that path, and then adds that path only |
| InodeTree.MakeAnswers | src/fs/operations.rs:86-180 | a creation answers the identifier of the node that is then at its path; each refusal says what is in the way: no name, no parent, a parent that is no directory, or something there |
| InodeTree.RemovalAnswers | src/fs/operations.rs:131-320 | the refusals of the two removals by what is at the path |
| InodeTree.RemovedTree | src/fs/operations.rs:131-148 | deleting a row without children takes its own path out and nothing else |
| InodeTree.ChildrenAgree | src/fs/operations.rs:138-143 | a row has children exactly when its path has |
| InodeTree.ChildAgrees | src/fs/operations.rs:71-78 | a lookup by parent and name finds the node one component below |
| InodeTree.StepExactly | src/fs/operations.rs:86-180 | an operation changes the tree at its own path only, changes nothing when it fails, and keeps the tree closed |
| InodeTree.StepSucceedsExactly | src/fs/operations.rs:86-320 | an operation succeeds exactly when its outcome is still a tree: creation below an existing directory at a free path, removal of a directory that leaves nothing hanging, deletion of a non-directory |
| InodeTree.MakeThenRemove | src/fs/operations.rs:86-180 | removing what was just made gives the tree back |
| InodeTree.RootLostExactly | src/fs/operations.rs:131-148 | the root is lost if and only if an empty tree has "/" removed |
| InodeTree.TreeOwnsIds | src/fs/operations.rs:56-84 | the tree of a valid table has one row for each node, older than the next identifier, so the runs below start from every table |
| InodeTree.TreeOverRuns | src/fs/operations.rs:86-320 | over any run that never removes "/", the nodes form a tree below the root with one row each, and a path no step names keeps its node |
| InodeTree.SplitErrors | src/fs/path.rs:38-59 | splitting fails with the error resolving has, and as an invalid path for the root |
| InodeTree.FileSystem.Walk | src/fs/operations.rs:71-84 | the component loop reaches exactly the node of the tree |
| InodeTree.FileSystem.ResolvePath | src/fs/operations.rs:56-84 | succeeds exactly when the tree holds the components of the path, with its errors |
| InodeTree.FileSystem.InsertChild | src/fs/operations.rs:103-113 | inserts one row and changes the tree at one path |
| InodeTree.FileSystem.CreateDirectory | src/fs/operations.rs:86-116 | makes a directory node in the tree, with every error in the order of the code; the answer is the identifier of the node now at the path, which no node had before |
| InodeTree.FileSystem.CreateFile | src/fs/operations.rs:150-180 | makes a file node in the tree, with every error in the order of the code; the answer is the identifier of the node now at the path, which no node had before |
| InodeTree.FileSystem.ListDirectory | src/fs/operations.rs:118-129 | returns exactly the nodes one component below the directory |
| InodeTree.FileSystem.RemoveDirectory | src/fs/operations.rs:131-148 | removes an empty directory from the tree, with every error |
| InodeTree.FileSystem.DeleteFile | src/fs/operations.rs:306-320 | removes a file from the tree, with every error |
| Mounts.CompatibleAnyOrder | src/storage/mount_entry.rs:301-322 | whether the entries of a list are compatible with each other does not depend on their order |
| Mounts.ConflictExactly | src/composition/resolver.rs:67-104 | two mount paths conflict if and only if they are equal, whether files or directories, or both are directories that a common path lies in |
| Mounts.CompatibleExactly | src/storage/mount_entry.rs:301-322 | a list is compatible if and only if no two mounts have one name or one path and no path lies in two directory mounts |
| Mounts.ConflictFreeExactly | src/storage/mount_entry.rs:84-174 | the same of the stored set, which every operation keeps so |
| Mounts.SettableExactly | src/storage/mount_entry.rs:296-418 | when a set can be replaced, entry by entry and without the conflict test of the code |
| Mounts.ComponentsByLastSlash | src/composition/resolver.rs:74-91 | what paths are compared by: the word behind the last slash is one more component unless it is empty or ".", and a slash in front is the root |
| Mounts.ComponentsOfWord | src/composition/resolver.rs:74-91 | a word without a slash is its own one component |
| Mounts.SettableAnyOrder | src/storage/mount_entry.rs:296-418 | replacing the mount set goes through for one order of the entries if and only if it does for any other, when every layer source names a mount of another tenant or an identifier handed out before |
| Mounts.GuessedSourceNeedsOrder | migrations/20260129230626_create_mount_entries.sql:22-22 | with an identifier known in advance the order would count: an entry can name one inserted before it, not after it |
| Mounts.FindMountExactly | src/composition/resolver.rs:114-138 | a path resolves to a mount if and only if it is the file mounted there, or the directory mount that covers it when no file is mounted there; otherwise no mount is found |
| Mounts.FindMountAnyOrder | src/composition/resolver.rs:114-138 | resolution does not depend on the order of the mounts |
| Mounts.ResolveRecombines | src/composition/resolver.rs:46-65 | resolution loses nothing: mount path and relative path give the path back, and the path has the same place below the source as below the mount |
| Mounts.OwnSourceNeverSet | migrations/20260129230626_create_mount_entries.sql:22-22 | replacing the set with a layer source that is one of the tenant's own mounts always fails, because all of them are deleted first |
| Mounts.ValidateNoConflict | src/composition/resolver.rs:67-104 | the scan accepts a path exactly when it conflicts with no entry |
| Mounts.FindMountByScan | src/composition/resolver.rs:114-138 | the two loops compute the mount of the specification |
| Mounts.MountRepository.CheckPathConflict | src/storage/mount_entry.rs:420-441 | a conflict is reported exactly when some row other than the excluded one conflicts |
| Mounts.MountRepository.CreateMountEntry | src/storage/mount_entry.rs:84-174 | a mount is added if and only if it conflicts with none, its name and published source name have at most 255 characters, its name is new and the mount its layer source names exists; each refusal has its error; the set stays conflict free |
| Mounts.MountRepository.DeleteMountEntry | src/storage/mount_entry.rs:287-294 | takes the row out unless another mount names it as its source; the set stays conflict free |
| Mounts.MountRepository.SetMountEntries | src/storage/mount_entry.rs:296-418 | the set is replaced if and only if the new entries are compatible with each other and their names fit, no other tenant names an old mount, and every layer source names a mount of another tenant or an entry inserted before; otherwise nothing changes; the set stays conflict free |
| Mounts.MountRepository.CheckEntries | src/storage/mount_entry.rs:301-322 | the growing list accepts exactly pairwise conflict-free entries |
| Mounts.MountRepository.InsertAll | src/storage/mount_entry.rs:330-412 | the insertion loop goes through exactly when every name fits, no name repeats and every layer source exists by then |
| FuseAdapter.BindKeeps | src/fuse/adapter.rs:77-86 | binding keeps the two maps inverse to each other, keeps all bindings, and binds the path |
| FuseAdapter.UnbindKeeps | src/fuse/adapter.rs:94-98 | unbinding removes exactly the path and keeps the maps inverse |
| FuseAdapter.BindAllKeeps | src/fuse/adapter.rs:517-528 | binding the entries of a directory keeps all bindings and gives each entry the number of its path |
| FuseAdapter.StepBinds | src/fuse/adapter.rs:204-553 | a lookup or creation binds the path of the child and no other, a removal unbinds it and no other, and a reading binds every entry; an unknown number or a refusal of the backend changes nothing |
| FuseAdapter.ChildPathsDiffer | src/fuse/adapter.rs:519-523 | two entries of a directory have the same path, and so the same number, exactly when they have the same name |
| FuseAdapter.StepKeeps | src/fuse/adapter.rs:474-483 | a request keeps the maps inverse; the root is lost if and only if the empty name is removed under it |
| FuseAdapter.NumbersAreNotReused | src/fuse/adapter.rs:45-99 | over any run with real names the maps are inverse, 1 is the root, and a number once used is never bound to another path |
| FuseAdapter.BindTwice | src/fuse/adapter.rs:77-86 | binding the same entries again changes nothing and gives the same numbers |
| FuseAdapter.PagesJoin | src/fuse/adapter.rs:541-547 | pages taken one after the other are one page of their total size |
| FuseAdapter.PagesFrom | src/fuse/adapter.rs:509-550 | reading on from where the last page ended gives consecutive pages of one listing |
| FuseAdapter.PagingIsComplete | src/fuse/adapter.rs:509-550 | with buffers that take at least one entry, the pages are a beginning of the listing, and all of it after as many pages as it has entries; every page has the same numbers |
| FuseAdapter.PagingAmongOthers | src/fuse/adapter.rs:491-553 | paging stays complete, with the same number for each entry on every page, when lookups, creations, other readings and removals elsewhere come between the pages |
| FuseAdapter.InodeMap.constructor | src/fuse/adapter.rs:57-68 | starts with 1 bound to the root and 2 next |
| FuseAdapter.InodeMap.GetOrCreate | src/fuse/adapter.rs:77-86 | returns the number of the path or binds the next one |
| FuseAdapter.InodeMap.Remove | src/fuse/adapter.rs:94-98 | removes both directions of one binding |
| FuseAdapter.Adapter.BindChild | src/fuse/adapter.rs:204-250 | lookup, mkdir and create bind the child path when the backend succeeds |
| FuseAdapter.Adapter.DropChild | src/fuse/adapter.rs:449-488 | rmdir and unlink remove the binding when the backend succeeds |
| FuseAdapter.Adapter.Readdir | src/fuse/adapter.rs:491-553 | a page: all entries bound, then the listing from the offset until the buffer is full; an unknown number or a backend error changes nothing |
| WasiFds.OthersUntouched | src/wasi/adapter.rs:67-107 | a step on another descriptor leaves this one alone |
| WasiFds.OpenThenRead | src/wasi/adapter.rs:49-107 | a file just opened is read from its beginning under the number the open returned |
| WasiFds.ReadExactly | src/wasi/adapter.rs:67-107 | a read goes through if and only if the descriptor is open, may be read, is no directory and the file system has its file; it moves that descriptor past the bytes returned; a refusal has its error and changes nothing |
| WasiFds.SliceExactly | src/wasi/adapter.rs:88-98 | the bytes returned are those of the file from the position on, as many as there are and fit |
| WasiFds.SeekExactly | src/wasi/fd_table.rs:93-121 | which seeks fail and how; otherwise the answer is the new position, wrapped at 64 bits, and nothing else changes |
| WasiFds.SeekThenRead | src/wasi/fd_table.rs:93-121 | an absolute seek decides what the next read returns |
| WasiFds.CloseExactly | src/wasi/fd_table.rs:169-172 | a close goes through if and only if the descriptor is open, ends it and leaves every other |
| WasiFds.ClosedIsRefused | src/wasi/adapter.rs:67-155 | after its close a descriptor is refused by reads, seeks and closes whatever happens in between, until the numbers wrap |
| WasiFds.SlicesJoin | src/wasi/adapter.rs:93-98 | two reads in a row return what one of their joint size would |
| WasiFds.ReadsAreSequential | src/wasi/adapter.rs:67-107 | over any run that only reads from a descriptor, the bytes received are the segment of the file from its position of the total size asked for, and the position advances by exactly their number |
| WasiFds.ClosedStaysClosed | src/wasi/fd_table.rs:151-172 | a closed descriptor stays invalid while the numbers do not wrap |
| WasiFds.NumbersGrow | src/wasi/fd_table.rs:142-156 | until they wrap, open descriptors are at least 3 and below the next number, which counts the opens |
| WasiFds.NextNumber | src/wasi/fd_table.rs:151-156 | the next number is the first one plus the number of opens, modulo 2^32 |
| WasiFds.NumberComesBackExactly | src/wasi/fd_table.rs:151-156 | a number comes up again if and only if the opens in between are a multiple of 2^32 |
| WasiFds.SeekBackAndForth | src/wasi/fd_table.rs:93-121 | a relative seek back succeeds exactly within the position, and the same seek forth undoes it |
| WasiFds.FdTable.AllocateFd | src/wasi/fd_table.rs:151-156 | stores the descriptor under the next number |
| WasiFds.FdTable.CloseFd | src/wasi/fd_table.rs:169-172 | removes the descriptor or reports a bad number |
| WasiFds.AllStayClosed | src/wasi/fd_table.rs:185-187 | after closing everything, no descriptor there was is valid again until the numbers wrap |
| WasiFds.WasiAdapter.FdOpen | src/wasi/adapter.rs:49-64 | opens what the file system finds, at position 0 |
| WasiFds.WasiAdapter.FdRead | src/wasi/adapter.rs:67-107 | copies the slice to the front of the buffer and leaves its rest, advances the position, and reports every error |
| WasiFds.WasiAdapter.FdSeek | src/wasi/adapter.rs:145-149 | moves the position as the seek function says, or reports its error |
| WasiFds.WasiAdapter.FdClose | src/wasi/adapter.rs:152-155 | closes the descriptor |
| TenantNames.ParseFailsExactly | src/csi/tenant_mapping.rs:87-90 | a name is refused if and only if it holds no "--" |
| TenantNames.ParseThenFormat | src/csi/tenant_mapping.rs:81-90 | printing what was parsed gives the name back |
| TenantNames.FormatThenParse | src/csi/tenant_mapping.rs:81-90 | parsing what was printed gives the pair back if and only if the namespace holds no "--" and does not end in "-" |
| TenantNames.PlainNamesAreDistinct | src/csi/tenant_mapping.rs:81-84 | for such namespaces different claims have different names |

## Left out

- UnionView.TimeTravelIsStable: speaks of LayerManager's steps; the other writers of the layer tables are in `TimeTravel.ViewIsStableExactly`, and inode deletion in `Unlinks.FrozenViewKeptExactly`.
- TimeTravel.ViewIsStableExactly: inode deletion is not one of its steps; it is one of those of `Unlinks.OnlyEmptyViewsLast`.
- Mounts.MountRepository.DeleteMountEntry: the cascades from a deleted mount to its layers and publications are not modelled.
- Mounts.MountRepository.SetMountEntries: deleting the old mounts cascades into their layers, and is refused when one of these is the tenant's current layer or has a child outside the mount; neither is modelled, as mounts and layers are separate tables here.
- LayerTable.InsertKeeps: a name that is too long only by trailing spaces, which the database cuts off, counts as too long; text with NUL characters, which the database refuses, is not modelled.
- History.HistoryIsLinear: layers added or deleted outside LayerManager (CSI snapshots, mount layers) are not steps of its runs.
- History.StepKeeps: the inode rows an entry may name appear through an extra step and never disappear during a run.
- MountLayers.InitExact: a mount is a name; the foreign key from layers to mount rows, and the cascade from a deleted mount to its layers, are not modelled.
- MountLayers.MountLayerOperations.BatchSnapshot: a mount row without a current layer is reported as unreadable; other database failures are not modelled.
- InodeTree.FileSystem.ListDirectory: a set of rows; the order by name is not modelled.
- InodeTree.FileSystem.DeleteFile: the data blocks and layer entries that go with the row are in `Cow` and `LayerTable`, not in this class.
- Detection.Detect: valid UTF-8 only, Latin-1 and lossy decoding are not modelled; the non-printable ratio is a real number, not a rounded float.
- Cow.SecondSaveExactly: a save is given its text and line ending; that `write_file` picks text or binary by detection is not part of it.
- Cow.CowHandler.WriteTextFile: encoding columns, size deltas and the diff counts of the `similar` library are not modelled.
- WasiFds.NextNumber: a debug build stops at the overflow instead of wrapping.
- WasiFds.ReadsAreSequential: `fd_write` is not a step of the runs; the content is the same throughout.
- FuseAdapter.PagingIsComplete: entry kinds and attributes are not part of an entry; negative offsets are not modelled.
- `update_mount_entry`, enabling and access modes of mounts, published mounts and their resolution: further row updates.
- Connection handling, transactions inside one call, tracing, timestamps beyond creation order, JSON, gRPC, metrics and configuration.
- `src/layer/hooks.rs`, `src/storage/audit.rs`, `src/composition/publisher.rs`, `src/composition/layer_chain.rs`: wrappers and row access.
- `cleanup_unused_text_blocks` and the cascade of layer deletion into the text tables.
- Reads that would fall through to parent layers: the code does not implement them.
