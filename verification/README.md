# H-flat: verified model

H-flat is a file system without servers. Clients share nothing but a store of versioned keys and coordinate by
compare-and-set on single keys. This project models the protocols and algorithms that this rests on and proves what
they promise, for all inputs, all interleavings and all runs. `dafny verify dfyconfig.toml` checks everything.

| component | files |
|---|---|
| store and replication: one compare-and-set drive, a round of competing writes, atomic replicated writes, failing drives, read repair, a drive's outage and rebuild, publishing a cluster version | `KineticStore`, `Replication`, `ContentionRound`, `ContentionEnds`, `ReplicatedWrite`, `FailingWrite`, `PartitionStore`, `DriveOutage`, `ClusterVersion` |
| key ranges and directory listing, on one store and over partitions | `KeyOrder`, `DirectoryListing`, `PartitionedRange`, `PartitionedListing` |
| the replicated log of hierarchical operations, its snapshots, and the path map it is folded into | `LogReplay`, `ReplicatedLog`, `LogOperations`, `Decimal`, `PathMap`, `PathTrail`, `PathMapLog` |
| directory renames and symbolic links through the path map, where they go wrong, and the encoding of intercepted paths | `PathRename`, `PathCollisions`, `PathLinks`, `PathCodec` |
| the path-permission cache: entry lists, staleness, refreshing, and the client that works on it | `Reachability`, `PathPermissions`, `PathAnswers`, `PathStamps`, `PermissionReach`, `PermissionClient` |
| hard links, inode numbers | `HardLinks`, `HardLinkNames`, `InodeTokens` |
| block data: merging, concurrent flushes, files as blocks, the client's read, write, truncate and fsync | `Bytes`, `BlockData`, `BlockFlush`, `FileBlocks`, `FileClient` |
| crash recovery of renames | `FsckRename` |
| the cache of inodes and blocks | `LruCache` |
| definitions the components share | `Prelude` |

Concurrent protocols are state machines whose steps are single store requests; a run is any sequence of enabled
steps. Code that works on its own data is a class or a method with loops, proved against a function or predicate, and
the promises are proved of that.

## What turned out not to hold

Each item names the lemma with the exact condition, and a history in which the promise fails where there is one.

- A replicated put that every reachable drive refuses leaves drives that differ as they are (`ReplicatedWrite.PutRefinesSingleDrive`).
- A replicated delete of a key that the GREEN drives lack and a YELLOW drive has fails every GREEN drive. Without a log drive, a delete that succeeds on the one GREEN drive with the key and misses it elsewhere is reported as NOT_FOUND (`FailingWrite.DeleteExact`, `FailingWrite.DeleteRefusedInput`).
- A write is noted on the log drive before its answers are evaluated, so the write whose error fails a drive is missing from the log that is set up for that drive (`PartitionStore.Partition.Put`, `DriveOutage.FailingPut`).
- A rebuilt drive is promoted with old records where the scan did not come: keys behind the range, such as those of reused names, and keys missing from the source (`PartitionStore.Partition.SynchronizeDrive`, `DriveOutage.ReusedNamesNotScanned`). If the promotion cannot be published, the log drive is given up all the same (`PartitionStore.Partition.Promote`).
- A live hard link has no target while the first link of its inode is between two requests (`HardLinks.LiveNamesReachTarget`, `HardLinks.TargetWindow`).
- A directory that nobody may search lets strangers through (`Reachability.EntriesExact`, `PathPermissions.LookupAnswersWalk`).
- A permission change of "/" never reaches inodes that exist, because searches end at the empty path (`PathPermissions.RootChangeExact`).
- Removing a name that is kept aside for a moved directory makes two names share storage (`PathCollisions.RemovalExact`, `PathCollisions.RemovedReuseHistory`).
- So does moving onto such a name (`PathCollisions.MoveExact`, `PathCollisions.MovedOntoHistory`), and swapping two directories that way makes resolution run forever (`PathCollisions.EndlessExact`, `PathCollisions.SwapNeverEnds`).
- A queued write of no bytes is merged as a truncation (`BlockData.SingleWriteExact`, `BlockData.MergeReplaysExactly`). A queue that mixes writes and truncations makes the merge throw when a write starts behind the end that a truncation before or after it left (`BlockData.MergeThrowsExactly`, `BlockData.MixedPairThrows`).
- A permission change of a directory is not noticed below a renamed directory that was moved under it (`PermissionReach.ReachExact`, `PermissionReach.ChangeAboveMoveUnseen`), and renaming a directory once more can make older changes be forgotten (`PermissionReach.MoveStampsExact`, `PermissionReach.UndoneMoveForgets`).
- An operation that lost its slot does not always get into the log: when the version key lags behind by two entries, the client ends at its own assertion (`LogOperations.OperationExact`, `LogOperations.LaggingVersionKey`).
- An unflushed block that was not read because the file grew hides stored bytes from reads until it is flushed (`FileBlocks.ReadExact`, `FileBlocks.HiddenByteRun`).
- Unlinking a file whose size is a multiple of the block size leaves its first block behind (`FileBlocks.DeletionExact`).
- Pages after the first one of a directory spread over some but not all partitions can miss entries, because the first partition asked depends on the start key (`PartitionedListing.ListingExact`, `PartitionedListing.PartialSpreadLoses`).
- The cache's eviction loop skips every other entry, so a cache far above capacity is not brought back (`LruCache.AllCleanExact`).

The comment at src/namespace/kinetic_helper.cc:182-183 holds that the version key is serialised; the code writes it
unconditionally, and the model lets it lag and move backwards. The duplicate removal at src/metadata_info.cc:136-139
erases while iterating; the model takes it as the filter its comment describes.

## Model

| member | source | states |
|---|---|---|
| `ContentionRound.AtMostOneWinner` | src/namespace/distributed_kinetic_namespace.cc:477-582 | under every interleaving of per-drive puts and repair steps, a finished client was told OK exactly when its record won on the first GREEN drive and a version mismatch otherwise; no two clients are told OK |
| `ContentionRound.WinnerIsStable` | src/namespace/distributed_kinetic_namespace.cc:388-582 | a record that has won on the first GREEN drive is never displaced for the rest of the round |
| `ContentionRound.RepairConverges` | src/namespace/distributed_kinetic_namespace.cc:388-442 | once any repair has finished, every non-RED drive holds the winner, and still holds it after any further steps |
| `ContentionRound.RepairWriteConverges` | src/namespace/distributed_kinetic_namespace.cc:413-431 | the compare-and-set of a repair step, made with a version read earlier, leaves the drive equal to the reference although other clients act in between |
| `ContentionRound.RoundEndsConverged` | src/namespace/distributed_kinetic_namespace.cc:388-582 | when all clients have finished, exactly one was told OK and all non-RED drives hold its record |
| `ContentionRound.StepKeepsInv` | src/namespace/distributed_kinetic_namespace.cc:388-582 | every put, evaluation and repair step keeps the round invariant |
| `ContentionRound.RunKeepsInv` | src/namespace/distributed_kinetic_namespace.cc:388-582 | the round invariant holds after every run, for any number of drives and clients |
| `ContentionEnds.RoundEnds` | src/namespace/distributed_kinetic_namespace.cc:388-582 | no run of a round is longer than three requests per drive and client and three more per client, and a run that cannot go on has answered every client, exactly one with OK, with its record on every reachable drive |
| `ReplicatedWrite.PutRefinesSingleDrive` | src/namespace/distributed_kinetic_namespace.cc:388-582 | run atomically with a fresh version, a replicated put on GREEN drives that agree and YELLOW drives in any state answers and leaves the GREEN drives like one compare-and-set drive; all non-RED drives end equal exactly when they were equal before or some drive took the write, and are unchanged otherwise |
| `ReplicatedWrite.DeleteRefinesSingleDrive` | src/namespace/distributed_kinetic_namespace.cc:388-474 | a replicated delete needs no drive to be failed exactly when the key is present on all non-RED drives or on none, and then behaves like a delete on one drive |
| `FailingWrite.UnexpectedFail` | src/namespace/distributed_kinetic_namespace.cc:446-474 | if the partition passes the test for living on without the drives that answered unexpectedly, the re-evaluation fails exactly these and evaluates the rest |
| `FailingWrite.UnexpectedStays` | src/namespace/distributed_kinetic_namespace.cc:446-474 | if it does not, the caller is told one of the unexpected answers |
| `FailingWrite.GreensFail` | src/namespace/distributed_kinetic_namespace.cc:446-474 | if GREEN drives are the ones with an unexpected answer and some other drive is not, every GREEN drive is failed, log drive or not |
| `FailingWrite.PutExact` | src/namespace/distributed_kinetic_namespace.cc:556-582 | a put that any drives answer with an error is told what one drive would say exactly when no drive errs or the partition can do without those that do; then exactly these are failed, the GREEN drives left hold what one drive would hold, and the drives left agree or are unchanged |
| `FailingWrite.DeleteExact` | src/namespace/distributed_kinetic_namespace.cc:584-609 | a delete is told what one drive would say exactly when the GREEN drives lack the key, every reachable drive has it, there is a log drive, or two reachable drives have it; GREEN drives that are left are as one drive would be in any case; one is left exactly when the GREEN drives have the key or no reachable drive has it |
| `FailingWrite.DeleteRefusedInput` | src/namespace/distributed_kinetic_namespace.cc:236-243 | a GREEN drive with the key, a YELLOW one without it, no log drive: the key is deleted and the caller is told NOT_FOUND |
| `ReplicatedWrite.RepairMakesEqual` | src/namespace/distributed_kinetic_namespace.cc:388-442 | read repair brings every reachable drive to the version of the first GREEN one, and to its record exactly when versions identify records |
| `PartitionStore.Partition.FirstGreen` | src/namespace/distributed_kinetic_namespace.cc:392-394 | finds the lowest-numbered GREEN drive |
| `PartitionStore.Partition.WriteOperation` | src/namespace/distributed_kinetic_namespace.cc:477-520 | applies the operation on every drive that is neither RED nor erring and on no other, for this key only, collects one answer per drive, and notes the key on the log drive if some drive is RED |
| `PartitionStore.Partition.EvaluateWriteOperation` | src/namespace/distributed_kinetic_namespace.cc:446-474 | fails the first drive with an unexpected answer, setting up a log drive when it is the first one to fail, and evaluates again until answers agree, a partial write is found or the partition fails the test of lines 216-244 |
| `PartitionStore.Partition.ReadRepair` | src/namespace/distributed_kinetic_namespace.cc:388-442 | every reachable drive that has another version of the key than the first GREEN drive gets its record; other keys are untouched |
| `PartitionStore.Partition.Put` | src/namespace/distributed_kinetic_namespace.cc:556-582 | with drives that answer with an error: status of one compare-and-set drive exactly when these can be spared, content of one on the GREEN drives left, and the log has what each drive misses, save this key on a drive that this put failed |
| `PartitionStore.Partition.Delete` | src/namespace/distributed_kinetic_namespace.cc:584-609 | status of one drive under the exact condition, content of one on the GREEN drives left, when one is left, and a log that has what a drive misses still does |
| `PartitionStore.Partition.PutPartitionUpdate` | src/namespace/distributed_kinetic_namespace.cc:187-213 | publishes on all reachable drives before the first refusal and on no other, touching only the version's key; it succeeds exactly when no reachable drive had the key, and then all have it |
| `PartitionStore.Partition.DisableDrive` | src/namespace/distributed_kinetic_namespace.cc:247-276 | the drive turns RED under a new cluster version, with a log drive if it is the first to fail; it succeeds exactly when the partition passes the test and no drive left has that version, which is then published on all of them; GREEN drives go on agreeing, and the log has every record a drive misses |
| `PartitionStore.Partition.EnableDrive` | src/namespace/distributed_kinetic_namespace.cc:280-312 | a RED drive turns YELLOW exactly when the partition passes the test and the new version is published on all reachable drives, otherwise everything but publications is as before; the log keeps what drives miss |
| `PartitionStore.Partition.RepairOne` | src/namespace/distributed_kinetic_namespace.cc:354-368 | repairing one key removes exactly it from the differences, if its hash leads to this partition; no key that versions identified ceases to be |
| `PartitionStore.Partition.Scan` | src/namespace/distributed_kinetic_namespace.cc:346-369 | the scan terminates and removes from the differences exactly the keys of this partition that are in the source and in the range, although repaired keys leave the log meanwhile |
| `PartitionStore.Partition.Promote` | src/namespace/distributed_kinetic_namespace.cc:371-385 | the rebuilt drive turns GREEN exactly when the new cluster version is published on all reachable drives, and GREEN drives then have one version of a record exactly if the drive was not behind on it; a refused publication restores colours and version, but not the log drive |
| `PartitionStore.Partition.SynchronizeDrive` | src/namespace/distributed_kinetic_namespace.cc:317-385 | for every record, the GREEN drives have one version after a successful rebuild exactly if the drive was not behind on it or it is in the scanned source and range, and one record if versions identify records |
| `DriveOutage.WriteWhileAway` | src/namespace/distributed_kinetic_namespace.cc:477-609 | whatever is put and deleted while a drive is RED, the log has every record the drive misses |
| `DriveOutage.Outage` | src/namespace/distributed_kinetic_namespace.cc:247-385 | a drive of a healthy partition is failed, any puts and deletes follow, the drive is enabled and rebuilt from the log: all drives are GREEN again and agree on every record whose key is in the scanned range |
| `DriveOutage.ReusedNamesNotScanned` | src/namespace/distributed_kinetic_namespace.cc:323-324 | no longer key that starts with a bar, as storage names of reused paths do, is ever scanned |
| `DriveOutage.FailingPut` | src/namespace/distributed_kinetic_namespace.cc:477-520 | the put whose error fails a drive leaves a log that has everything the drive misses except exactly that put's key |
| `ClusterVersion.OnePublication` | src/namespace/distributed_kinetic_namespace.cc:187-213 | clients whose maps share a non-RED drive cannot both publish under one cluster version, for any number of clients and any interleaving of per-drive puts |
| `ClusterVersion.RunKeepsInv` | src/namespace/distributed_kinetic_namespace.cc:187-213 | a drive that took a publication keeps it through every run |
| `ClusterVersion.PublishAlone` | src/namespace/distributed_kinetic_namespace.cc:187-213 | a client nobody gets in the way of publishes on all its drives and on no other |
| `ClusterVersion.HeldBlocks` | src/namespace/distributed_kinetic_namespace.cc:187-213 | a client one of whose drives has the version already never publishes, whoever acts in between |
| `ClusterVersion.UnreachableFails` | src/namespace/distributed_kinetic_namespace.cc:187-213 | nor does one that could not reach a drive |
| `KeyOrder.PageIsPrefix` | src/namespace/distributed_kinetic_namespace.cc:626-652 | a page holds exactly the keys of a range up to its last one, and all of them if it is not full |
| `DirectoryListing.List` | src/fuseops/directory.cc:123-138 | paging with an exclusive start yields every key of the range exactly once and in order, for any number of pages |
| `DirectoryListing.ReadDir` | src/fuseops/directory.cc:114-140 | the names listed are exactly the names of the directory's entry keys, in order and without repetition |
| `DirectoryListing.RangeHasPrefix` | src/fuseops/directory.cc:123-124 | the range between the inode prefix and its end mark holds exactly the longer keys with that prefix |
| `PartitionedRange.GetKeyRange` | src/namespace/distributed_kinetic_namespace.cc:626-652 | collecting, sorting and cutting the pages of partitions with different keys gives the first keys of their union |
| `PartitionedRange.PagesMerge` | src/namespace/distributed_kinetic_namespace.cc:634-650 | no key outside a full page can belong to the first keys of the union |
| `PartitionedListing.ReachesExactly` | src/namespace/distributed_kinetic_namespace.cc:41-53 | which partitions a page asks, by the offsets of its start key and of an entry |
| `PartitionedListing.ListDirectory` | src/fuseops/directory.cc:123-138 | the paging loop over partitions, whose first partition depends on the start key of each page, returns the listing |
| `PartitionedListing.ListingExact` | src/namespace/distributed_kinetic_namespace.cc:626-652 | a listing over partitions is complete and in order exactly when every entry lies in a partition that its page asks |
| `PartitionedListing.FullSpreadComplete` | src/namespace/distributed_kinetic_namespace.cc:626-652 | with one partition, or with all of them, every listing is complete |
| `PartitionedListing.PartialSpreadLoses` | src/namespace/distributed_kinetic_namespace.cc:626-652 | for every cluster size in between and every directory of more than a page, some placement of the names loses an entry |
| `InodeTokens.InodeNumbersUnique` | src/util.cc:54-87 | over all runs of any number of clients, mounts, lost races and token refreshes, no inode number is issued twice and 0 never |
| `InodeTokens.StepKeepsInv` | src/util.cc:54-87 | drawn ranges never overlap and no number ahead of a client's counter has been issued |
| `InodeTokens.RequestsAnswered` | src/util.cc:75-87 | over all runs every request is answered with one number, or waits for a new range, or its client left while it waited |
| `InodeTokens.NumbersInOrder` | src/util.cc:75-87 | within its range a client hands out number after number |
| `InodeTokens.MountAlone` | src/util.cc:54-73 | a client that mounts draws the range that starts at the counter key and moves the key behind it |
| `InodeTokens.RefreshAlone` | src/util.cc:75-87 | the request behind the last number draws a new range and gets its first number |
| `HardLinks.LinkCountExact` | src/fuseops/link.cc:79-155 | in every run the link count is the number of live sources plus pending unlinks plus pending links |
| `HardLinks.LiveNamesReachTarget` | src/fuseops/file.cc:57-87 | a live name has its target, except exactly while the client that turned it into a source has not created the target yet |
| `HardLinks.TargetWindow` | src/fuseops/link.cc:79-99 | the exception happens after the first two requests of a link |
| `HardLinks.PendingUnlinkFindsTarget` | src/fuseops/file.cc:73-78 | an unlink that has zeroed its source still finds the target and a positive count |
| `HardLinks.MandatoryWritesSucceed` | src/fuseops/file.cc:81-86 | the writes whose failure would abort the client never fail |
| `HardLinks.StepKeepsInv` | src/fuseops/link.cc:79-155 | each of the sixteen store requests of linking and unlinking keeps the invariant |
| `HardLinks.RunKeepsInv` | src/fuseops/link.cc:79-155 | the invariant holds after every interleaving of any number of clients |
| `HardLinkNames.NamesExact` | src/fuseops/file.cc:90-118 | in every run a name is in the directory exactly when it has metadata or a client is working on it; with all clients idle the directory has exactly the names that can be looked up |
| `HardLinkNames.UnlinkFile` | src/fuseops/file.cc:90-118 | unlinking an ordinary file undisturbed removes name and metadata and nothing else |
| `HardLinkNames.UnlinkSource` | src/fuseops/file.cc:57-118 | unlinking a hard link undisturbed removes name and source, and the target counts one less or goes |
| `HardLinkNames.LinkFile` | src/fuseops/link.cc:79-155 | the first link makes both names sources of a target that counts two |
| `HardLinkNames.LinkTarget` | src/fuseops/link.cc:79-155 | a further link adds one name and one to the count |
| `HardLinkNames.OutdatedLink` | src/fuseops/link.cc:79-155 | a link made with an outdated copy of the target leaves everything as it was |
| `HardLinkNames.OutdatedFileLink` | src/fuseops/link.cc:79-155 | so does one made with an outdated copy of the file |
| `HardLinkNames.OutdatedUnlink` | src/fuseops/file.cc:57-87 | an unlink with an outdated copy leaves the name as live as it was |
| `PathCodec.IoIntercept` | src/pathmap_db.cc:84-100 | the in-place edits compute the decoding, size_t wrap-around of positions included |
| `PathCodec.Substitute` | iointercept/pathchange.cc:90-121 | the in-place edits compute the encoding |
| `PathCodec.Flatten` | iointercept/pathchange.cc:111-116 | every slash behind the mount point becomes a colon, nothing else changes |
| `PathCodec.DropTrailing` | iointercept/pathchange.cc:118-120 | exactly the trailing colons go |
| `PathCodec.RoundTrip` | iointercept/pathchange.cc:90-121 | decoding an encoded path below the mount point gives the path without trailing slashes, for every hash value |
| `PathCodec.RoundTripMountPoint` | iointercept/pathchange.cc:90-121 | the mount point itself survives the round trip |
| `PathCodec.RoundTripFromEncodedDirectory` | iointercept/pathchange.cc:90-121 | a relative path behind an already encoded directory decodes to the full path |
| `PathCodec.RoundTripFromEncodedMountPoint` | iointercept/pathchange.cc:90-121 | so does one behind the encoded mount point |
| `PathCodec.DecodeBehindVirtualDirectory` | src/pathmap_db.cc:84-100 | what stands behind the virtual directory is decoded colon by colon |
| `PathCodec.EncodedIsFlat` | iointercept/pathchange.cc:90-121 | behind the mount point and the virtual directory an encoded path has no slash |
| `PathCodec.BucketsDiffer` | iointercept/pathchange.cc:106-109 | different hash buckets are different directories |
| `PathMap.SearchFindsLongest` | src/pathmap_db.cc:43-82 | a search returns the longest directory of the path whose mapping may be followed |
| `PathMap.SearchComplete` | src/pathmap_db.cc:43-82 | a search that finds nothing had nothing to follow, unless a name is too long |
| `PathMap.RemapsOnce` | src/pathmap_db.cc:102-140 | after a rename mapping was applied no other one applies |
| `PathMap.ResolutionBounded` | src/pathmap_db.cc:102-140 | on maps that meet the side conditions the remapping loop ends after fewer than 2 * (MAXSYMLINKS + 1) remaps, whatever cycles links form |
| `PathMap.LoadInvertsSerialize` | src/pathmap_db.cc:142-182 | loading a serialized map gives the map back, in whatever order it was written |
| `PathMap.PathMapDB.ToSystemPathOf` | src/pathmap_db.cc:102-140 | on every map on which the resolution ends, the loop ends and returns its path and timestamp |
| `PathTrail.SearchExact` | src/pathmap_db.cc:43-82 | a search finds the longest directory that may be followed and returns the newest timestamp of the entries down to it, unless a name it passes is too long |
| `PathTrail.ToSystemPathExact` | src/pathmap_db.cc:102-140 | where resolution ends, it has followed the longest mapped directory again and again until nothing is mapped, and returns the newest timestamp of all entries it looked at; the errors are exactly a path or name that is too long and one link too many |
| `PathTrail.TrailDecides` | src/pathmap_db.cc:102-140 | conversely, where such a trail leads is what resolution returns |
| `PathMap.PathMapDB.AddEntry` | src/pathmap_db.cc:198-214 | one log entry takes the map to its next version |
| `PathMap.PathMapDB.MoveDirectory` | src/pathmap_db.cc:264-310 | the edits of a directory move, the circular case included |
| `PathMap.PathMapDB.UpdateSnapshot` | src/pathmap_db.cc:184-227 | the map becomes the replay of the entries, or nothing changes if they are old |
| `PathMap.PathMapDB.SerializeSnapshot` | src/pathmap_db.cc:142-162 | every mapping is written out and loading the result gives the same map |
| `PathMap.PathMapDB.LoadSnapshot` | src/pathmap_db.cc:164-182 | an older snapshot is ignored, a newer one replaces map and version |
| `PathMap.ReuseNameInjective` | src/pathmap_db.cc:264-310 | storage names of different versions differ |
| `PathRename.StorageInjective` | src/pathmap_db.cc:43-140 | no two user paths share storage |
| `PathRename.MoveTakesContent` | src/pathmap_db.cc:264-310 | after a rename of a to b, every b/x is stored where a/x was |
| `PathRename.MoveEmptiesOrigin` | src/pathmap_db.cc:264-310 | after a rename of a to b, no a/x is stored where anything was stored before |
| `PathRename.MoveKeepsOthers` | src/pathmap_db.cc:264-310 | paths below neither name stay where they were |
| `PathRename.MoveKeepsRenames` | src/pathmap_db.cc:264-310 | a rename meeting the side conditions keeps the map's invariant, the circular case included |
| `PathRename.RemovalKeepsOthers` | src/pathmap_db.cc:312-326 | removing a mapping leaves all other paths where they were |
| `PathCollisions.RemovalExact` | src/pathmap_db.cc:312-326 | removing the mapping of a user path keeps all user paths apart exactly when the path is not kept aside for a moved directory |
| `PathCollisions.RemovalCollides` | src/pathmap_db.cc:312-326 | otherwise the moved directory and the path share storage |
| `PathCollisions.MoveExact` | src/pathmap_db.cc:264-310 | given free names, a move keeps all user paths apart exactly when nobody but the origin is stored under the destination's name |
| `PathCollisions.MoveCollides` | src/pathmap_db.cc:264-310 | otherwise the directory stored there and the destination share storage, for mapped and unmapped origins |
| `PathCollisions.RemovedReuseHistory` | src/fuseops/file.cc:106-111 | mv a b, mkdir a, rmdir a: b and a share storage |
| `PathCollisions.MovedOntoHistory` | src/pathmap_db.cc:264-310 | mv d x, mv t d: x and d share storage |
| `PathCollisions.SwapNeverEnds` | src/pathmap_db.cc:102-140 | mv d x, mv t d, mv x t: resolving d or t never ends |
| `PathCollisions.EndlessExact` | src/pathmap_db.cc:102-140 | without links and with names apart, resolving a path never ends exactly when a directory of it lies on a cycle of moves |
| `PathRename.PermissionChangeKeepsStorage` | src/pathmap_db.cc:248-262 | a permission change moves nothing |
| `PermissionReach.ChangeReaches` | src/pathmap_db.cc:248-262 | on every map, a logged permission change leaves where paths lead alone and reaches exactly the lookups that look at the changed directory on their way |
| `PermissionReach.ChangeReachesItself` | src/pathmap_db.cc:248-262 | a lookup of the changed path itself sees the change, in whatever form the path is handed over |
| `PermissionReach.ReachExact` | src/pathmap_db.cc:43-140 | after renames, a permission change reaches a path below the directory exactly if no mapped directory lies between them or the directory is above what that one is mapped to |
| `PermissionReach.ChangeAboveMoveUnseen` | src/pathmap_db.cc:43-140 | mv a b, chmod of a directory above b: lookups below b do not notice |
| `PermissionReach.MoveStampsExact` | src/pathmap_db.cc:264-310 | after a rename of a to b, b/x is checked against a timestamp as new as a/x was exactly if no newer one was dropped with the old name |
| `PermissionReach.UndoneMoveForgets` | src/pathmap_db.cc:305-307 | mv a b, chmod b, mv b a: the change is forgotten |
| `PathRename.SystemPathsInjective` | src/pathmap_db.cc:43-140 | after every admissible history of renames, removals and permission changes toSystemPath is injective on user paths |
| `PathLinks.LinkKeepsWellFormed` | src/pathmap_db.cc:229-246 | adding a soft link keeps what resolution relies on |
| `PathLinks.EntryKeepsWellFormed` | src/pathmap_db.cc:184-326 | so does every log entry that meets the side conditions |
| `PathLinks.ResolutionEnds` | src/pathmap_db.cc:102-140 | after every such history, with links in any number and cycles, resolution ends within the bound |
| `PathLinks.LinkLeads` | src/pathmap_db.cc:229-246 | a path through a new link goes on with the link's destination in its place and counts as one link |
| `PathLinks.ReusedLinkLeads` | src/pathmap_db.cc:229-246 | so does one through a link at a reused name, by way of the name's storage |
| `PathLinks.LinkIsLookedUp` | src/pathmap_db.cc:229-246 | looking the link itself up ends at its own key |
| `LogReplay.ReplayConcat` | src/util.cc:96-130 | replaying two stretches of a log one after the other is replaying them together |
| `ReplicatedLog.LogIsAppendOnly` | src/util.cc:132-154 | in every multi-client run the log has no gaps, no slot changes once written, and version key, stored snapshot and clients never name a version beyond the log |
| `ReplicatedLog.ClientsAgree` | src/util.cc:96-154 | each client's map is the fold of exactly the first entries up to its version; clients at equal versions agree; the stored snapshot plus the rest of the log is a full replay |
| `ReplicatedLog.ClientsAgreeOverTime` | src/util.cc:96-154 | clients that are at the same version at different times have the same map |
| `ReplicatedLog.StepKeepsInv` | src/namespace/kinetic_helper.cc:171-254 | every store request of updating and logging keeps the invariant, lost answers and a hint that moves backwards included |
| `LogOperations.OperationsEnterOnce` | src/util.cc:132-154 | in every run the operations a client was asked for are, in order, those that entered the log or were given up with an error, and the one it works on; the log consists of those that entered, each in a slot that was free |
| `LogOperations.OperationExact` | src/util.cc:132-154 | an operation nobody else disturbs can enter the log exactly when its client is up to date, or the version key is not behind the client and at most one entry behind the log |
| `LogOperations.LaggingVersionKey` | src/namespace/kinetic_helper.cc:182-188 | two operations whose version keys could not be put: an operation of another client never enters the log |
| `LogOperations.OperateAlone` | src/util.cc:132-147 | an undisturbed operation leaves its entry, the version key, the client's map with the entry applied, and a snapshot every 42 versions |
| `LogOperations.UpdateAlone` | src/util.cc:96-130 | an undisturbed update takes a client that is behind to the version the key names, or one further than its own |
| `LogOperations.CatchUp` | src/util.cc:113-129 | by way of the stored snapshot if the client is more than 42 entries behind, fetching exactly the entries behind it |
| `PathMapLog.ClientsResolveAlike` | src/util.cc:96-154 | clients at the same version resolve every path to the same key and timestamp |
| `Reachability.CheckPathPermissions` | src/lookup.cc:42-79 | the scan accepts exactly the callers that satisfy all entries |
| `Reachability.AdmitsExactly` | src/metadata_info.cc:91-126 | a directory's entries admit a caller exactly when its bits grant search, or nobody may search it and the caller is neither owner nor in the group |
| `Reachability.EntriesExact` | src/metadata_info.cc:91-126 | entries and bits agree for all callers exactly when somebody may search the directory |
| `Reachability.DiffersExactly` | src/metadata_info.cc:141-152 | a list that the size and membership test calls unchanged holds the same entries, in whatever order |
| `PathPermissions.ChildAccepts` | src/metadata_info.cc:134-139 | entries dropped because an ancestor enforces them are still enforced on children |
| `PathPermissions.LookupKeepsInv` | src/lookup.cc:82-153 | lookup refreshes the inode, changes no permissions and answers as the walk along the path |
| `PathPermissions.UnloggedPasses` | src/fuseops/permission.cc:103-145 | a permission change that logs nothing lets the same callers through to everything below |
| `PathPermissions.LoggedKeepsCache` | src/fuseops/permission.cc:132-143 | after a logged change, every list that is not stale is right |
| `PathPermissions.LoggedMakesStale` | src/fuseops/permission.cc:132-143 | a logged change makes stale exactly what lies below the directory |
| `PathPermissions.StepKeepsInv` | src/lookup.cc:82-174 | every lookup, creation, permission change and removal keeps the cache invariant |
| `PathPermissions.LookupExact` | src/lookup.cc:82-174 | in every reachable state lookup admits exactly the callers passing the restrictions recorded with the first component and the current permissions of all deeper ancestors |
| `PathPermissions.LookupAnswersWalk` | src/lookup.cc:82-174 | unless the root's permissions changed, lookup equals the component-wise walk with the owner, group and other rule, and the exact deviation for directories nobody may search |
| `PathPermissions.RootChangeExact` | src/fuseops/permission.cc:103-145 | a permission change of the root leaves all lookups right exactly when there is no other inode or it admits the same callers |
| `PathPermissions.RootChangeCounterexample` | src/fuseops/permission.cc:103-145 | mkdir /a, chmod 700 /: other users still reach /a |
| `PathPermissions.RootIsFresh` | src/lookup.cc:139-151 | root and first-level inodes are never stale, so refreshing ends |
| `PathAnswers.ChangeExact` | src/fuseops/permission.cc:81-145 | chmod and chown in every reachable state: EPERM exactly for callers who are neither root nor the owner, or who are not root and name a group other than their own; otherwise owner, group and every mode bit as requested, with the set-id rule; nobody else's permissions change |
| `PathAnswers.ChangeLogged` | src/fuseops/permission.cc:132-143 | a change is logged exactly if it changes what a directory adds to the search restrictions of its children |
| `PathAnswers.LookupParentExact` | src/lookup.cc:157-174 | ENOENT, EACCES, ENOTDIR and OK of a parent lookup by its existence, the walk, its kind and its mode bits |
| `PathAnswers.CreateExact` | src/fuseops/file.cc:231-257 | who may create, by the parent's write bits; the new inode has the caller's ids and the given mode, and nothing else changes |
| `PathAnswers.RemoveExact` | src/fuseops/file.cc:39-55 | who may remove, by the parent's write and search bits and its sticky bit; the inode is gone, and nothing else changes |
| `PathStamps.SearchFindsRequired` | src/pathmap_db.cc:43-82 | the path map's search returns the newest timestamp on a path, the root's excepted |
| `PathStamps.SystemPathStamp` | src/pathmap_db.cc:102-140 | the timestamp toSystemPath returns for a path, root included, is the one its permissions have to be as new as |
| `PathStamps.ChangesAreRecorded` | src/pathmap_db.cc:248-262 | logged permission changes and removals keep timestamps and map in step |
| `PermissionClient.OwnRestrictions` | src/metadata_info.cc:91-126 | the entries pushed admit exactly the callers the bits grant search, if anybody |
| `PermissionClient.RemoveDuplicates` | src/metadata_info.cc:134-139 | exactly the entries not enforced by ancestors remain, in order |
| `PermissionClient.ComputePathPermissionChildren` | src/metadata_info.cc:91-162 | the new list for children and whether it changed; the list keeps its meaning |
| `PermissionClient.InheritPathPermissions` | src/fuseops/file.cc:206-218 | the inherited list accepts exactly whom the parent's list and the parent's bits accept |
| `PermissionClient.Client.LookupInode` | src/lookup.cc:82-153 | the recursion carries out the specified lookup |
| `PermissionClient.Client.LookupParentInode` | src/lookup.cc:157-174 | the recursion carries out the specified lookup of the parent |
| `PermissionClient.Client.CreateInode` | src/fuseops/file.cc:220-257 | creation with all its error cases is the specified one |
| `PermissionClient.Client.DoPermissionChange` | src/fuseops/permission.cc:81-145 | chmod and chown with all their error cases are the specified ones |
| `PermissionClient.Client.RemoveInode` | src/fuseops/file.cc:39-111 | removal with all its error cases is the specified one |
| `BlockData.DataInfo.UpdateData` | src/data_info.cc:46-59 | a write reaches exactly its extent, zeros filling a gap, and is queued |
| `BlockData.DataInfo.TruncateTo` | src/data_info.cc:61-67 | a truncation cuts or zero-extends the block and is queued |
| `BlockData.DataInfo.MergeDataChanges` | src/data_info.cc:33-44 | the loop on any queue, with the exception std::string::replace may throw; on a batch it copies the queued extents onto the latest content |
| `BlockData.MergeThrowsExactly` | src/data_info.cc:33-44 | for every local copy and every queue, the merge throws exactly when some write starts behind the end of the local copy or behind the end that the block has at its turn |
| `BlockData.MergeExact` | src/data_info.cc:33-44 | what the merge of every queue computes: if it does not throw, the replay of the queue on the latest content, with each write of no bytes taken for a truncation |
| `BlockData.MergeReplaysExactly` | src/data_info.cc:33-44 | any queue is merged as if replayed on the latest content exactly when the merge does not throw and the replay has nothing but zeros where a write of no bytes cuts it |
| `BlockData.MixedPairThrows` | src/data_info.cc:33-44 | for a write of some bytes and a truncation, in either order and on any contents, the merge throws exactly when the write starts behind the truncated size |
| `BlockData.MergeReplays` | src/data_info.cc:33-44 | copying extents out of the final buffer equals replaying the writes in order on the latest content, however they overlap |
| `BlockData.SingleWriteExact` | src/data_info.cc:33-59 | a queued write is merged correctly exactly when it has bytes or the latest content is zero from its offset on |
| `BlockFlush.NoLostUpdate` | src/namespace/kinetic_helper.cc:131-158 | with any number of clients flushing, loading and deleting, the stored block, zero-extended, is the initial content with all committed updates replayed in commit order; and what was committed of each client is, in order, all it ever queued except what is still in its queue |
| `BlockFlush.PutExact` | src/namespace/kinetic_helper.cc:131-158 | a put with the stored version, or of a block that is absent and was not read, stores the block with exactly the queued updates applied under the new version; any other put changes nothing |
| `BlockFlush.FlushAlone` | src/namespace/kinetic_helper.cc:131-158 | load, write, flush and put without interference take effect, whether the block existed, was read or not |
| `BlockFlush.StepKeepsInv` | src/namespace/kinetic_helper.cc:131-158 | every request of a flush keeps the invariant |
| `BlockFlush.RefetchIsEnabled` | src/data_info.cc:33-44 | the queue a retry merges is always one the merge can handle |
| `BlockFlush.RetryCommits` | src/namespace/kinetic_helper.cc:131-158 | a client that is not overtaken between refetch and put commits its whole batch |
| `FileBlocks.WriteShown` | src/fuseops/data.cc:24-54 | a write to a block is the write to the flat file at the block's position |
| `FileBlocks.FlushStateKeeps` | src/fuseops/sync.cc:28-56 | flushing the dirty block, merged if it was never read, leaves nothing unflushed and the same file |
| `FileBlocks.WriteStateKeeps` | src/fuseops/data.cc:87-117 | a write keeps the file invariant: at most one unflushed block, no block beyond block size or file |
| `FileBlocks.ShrinkKeeps` | src/fuseops/data.cc:120-168 | cutting the last block and deleting those behind it truncates the flat file |
| `FileBlocks.ExtendKeeps` | src/fuseops/data.cc:120-168 | growing a file exposes only zeros |
| `FileBlocks.ReadExact` | src/fuseops/data.cc:24-54 | a read returns the file's byte exactly when no unflushed block hides it: one that was not read when the file grew into it and whose pending writes do not cover the byte |
| `FileBlocks.GrowingWriteHides` | src/fuseops/data.cc:32-34 | every write behind stored bytes of an uncached block hides them until it is flushed |
| `FileBlocks.HiddenByteRun` | src/fuseops/data.cc:24-117 | append a byte, drop its block from the cache, write behind it: the first byte reads as 0 |
| `FileBlocks.DeleteData` | src/fuseops/file.cc:120-126 | the deletion loop of unlink leaves exactly the blocks behind the end and, for a size that is a multiple of the block size, block 0 |
| `FileBlocks.DeletionExact` | src/fuseops/file.cc:120-126 | all blocks of a file are deleted exactly when its size is not a multiple of the block size or it has no block 0 |
| `FileClient.File.Write` | src/fuseops/data.cc:87-117 | a write stays in its block, returns its length and is applied to the flat file; appends and writes that fill a block are flushed |
| `FileClient.File.Read` | src/fuseops/data.cc:24-77 | in every state a read returns the flat file's bytes, zeros behind its end, and exactly the hidden bytes wrong |
| `FileClient.File.Truncate` | src/fuseops/data.cc:120-168 | the flat file is truncated or extended with zeros and flushed, or the error leaves it alone |
| `FileClient.File.Fsync` | src/fuseops/sync.cc:28-56 | afterwards the stored blocks alone are the flat file and the stored size is its size |
| `FileClient.File.PutData` | src/namespace/kinetic_helper.cc:131-158 | a block that was never read is merged with the stored one |
| `FsckRename.Store.RenameRegular` | src/fuseops/rename.cc:176-206 | the store requests of a rename in their order, cut off after any number of them |
| `FsckRename.CrashInterrupts` | src/fuseops/rename.cc:176-206 | wherever a rename is cut off before its recovery entry is removed, file and other content are recoverable |
| `FsckRename.RenameCompletes` | src/fuseops/rename.cc:176-206 | a rename that ran to its end has moved entry and key, removed its recovery entry and changed nothing else |
| `FsckRename.RecoveryParses` | src/fsck/fsck.cc:47-53 | a recovery entry parses back into new name and old path |
| `FsckRename.Store.ScanDirentries` | src/fsck/fsck.cc:20-41 | the paging scan stops at an entry without a file, or all entries have one |
| `FsckRename.Store.RecoverRename` | src/fsck/fsck.cc:47-120 | key and entry go back to the old place |
| `FsckRename.RecoverKeeps` | src/fsck/fsck.cc:47-120 | recovery keeps everything else and removes the recovery entry |
| `FsckRename.DropKeeps` | src/fsck/fsck.cc:138-150 | deleting an entry without a file keeps the rename recoverable |
| `FsckRename.Store.FsckDirectory` | src/fsck/fsck.cc:122-152 | the check terminates and restores entries and keys from before the rename, up to ctime and short of entries that had no file, for arbitrary other content |
| `LruCache.EvictionKeepsDirty` | src/lru_cache.h:89-92 | eviction never drops a dirty entry and drops nothing while there is room |
| `LruCache.AddWithinCapacity` | src/lru_cache.h:81-100 | adding at or below capacity with some clean entry stays within capacity and evicts at most the least recently used clean entry |
| `LruCache.AllCleanExact` | src/lru_cache.h:89-92 | above capacity the loop skips an entry after each erasure: of clean entries, an add ends within capacity exactly when half of them fit |
| `LruCache.Cache.Get` | src/lru_cache.h:63-79 | dirty entries, young ones and all of a cache without expiration are hits, which move to the front; others go; list and table stay in bijection |
| `LruCache.Cache.Evict` | src/lru_cache.h:89-92 | the loop evicts as specified and keeps the bijection |
| `LruCache.Cache.Add` | src/lru_cache.h:81-100 | a present entry is refused unless it is clean and expired; otherwise the new entry is first, behind it what eviction leaves, and the key is unblocked |
| `LruCache.Cache.Block` | src/lru_cache.h:102-105 | only the first blocker of a key succeeds |
| `LruCache.Cache.Invalidate` | src/lru_cache.h:113-119 | exactly the key's entry goes from list and table |

## Left out

- Membership changes by several clients: adopting a remote partition map and the retries after it (src/namespace/distributed_kinetic_namespace.cc:159-185, 270-271, 306-307), and probing the cluster version of an enabled drive (lines 285-297).
- ContentionRound: one round on one key with fixed membership; a write of the next round does not overlap an unfinished repair, and new versions are never used twice.
- PartitionStore.Partition.WriteOperation: a drive that answers with an error has not stored the write; the retry after a cluster version mismatch and a failing log drive are not modelled.
- PartitionStore.Partition.EvaluateWriteOperation: publishing a failed drive succeeds, and the connection tests of the partition hold; publications in the middle of a write are left to DisableDrive.
- PartitionStore.Partition.Delete: drives that answer a delete with an I/O error are not modelled.
- PartitionStore.Partition.RepairOne: what read repair of a publication key does in the partition its hash leads to is not modelled.
- PartitionStore.Partition.SynchronizeDrive: concurrent writers and the key prefix of the write log are not modelled; reading an absent key yields no record.
- DriveOutage.Outage: one drive of a healthy partition with a log drive at hand, and one writer, whose new versions are never used twice.
- KineticStore: a put that expects a version on an absent key is a version mismatch, as the drives answer.
- HardLinks.LinkCountExact: counts are unbounded, 32-bit wrap-around of the stored count is not modelled; neither are renames and crashes between steps.
- InodeTokens.InodeNumbersUnique: numbers are unbounded, the 64-bit sum is not modelled; store I/O errors end the client.
- ReplicatedLog: the asserts at src/util.cc:104 and src/pathmap_db.cc:187-188 are step guards, since they end the client; invalid entry types are not logged.
- PartitionedListing: a directory does not change while it is listed.
- PartitionedRange.GetKeyRange: the partitions asked are different ones, that is, the cluster size is at most the number of partitions.
- PathMap: readers and the lock of the map; a client's operations are sequential.
- PathRename: mapped names do not lie in each other, and move origins carry no permission stamp or link.
- PathPermissions: one client, no renames or links, one group per caller; times and the colon form of paths are not modelled, and chmod keeps the file type.
- PermissionClient.Client.LookupInode: the inode cache, hard-link and force-update inodes and conflicts with other clients are not modelled.
- PermissionClient.Client.DoPermissionChange: conflicts with other clients are not modelled.
- PermissionClient.Client.RemoveInode: hard links and the cleanup of reuse mappings are not part of it; the deletion of data blocks is FileBlocks.DeleteData.
- PermissionClient.RemoveDuplicates: a filter instead of erasing while iterating.
- BlockFlush: queues of non-empty writes or of one truncation, as the client builds them; other queues are covered by BlockData.MergeReplaysExactly. A flush that ends with an I/O error keeps its queue; it is not reported further.
- FileClient.File.Write: offsets below 2^31 and at least one byte; beyond that the 32-bit product at src/fuseops/data.cc:42 overflows. One client, so metadata writes do not conflict, and store I/O succeeds.
- FileBlocks.DeleteData: sizes are unbounded, the 32-bit size of the loop is not modelled, and deletion is not concurrent.
- FsckRename: regular files, names without a bar, directory paths with a trailing slash, no other interrupted rename in the directory, no path mapping of the names; directory, symbolic-link and hard-link recovery are not modelled. The superuser passes all path permissions.
- LruCache: `revalidate`, waiting for blocked keys, and the behaviour of an iterator decremented at the list's begin, where the model ends the loop.
- FUSE wiring, mounting and options (src/main.cc, src/fuseops.h), tools, the libc wrappers and path normalisation (iointercept/), connections and capacity estimates: I/O without an invariant of its own.
- Extended attributes and stat calls (src/fuseops/xattr.cc, src/fuseops/attr.cc): field copies.
- Protobuf encoding, logging, clocks and UUIDs: datatypes, parameters and fresh versions take their place.
