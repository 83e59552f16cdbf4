# A verified model of the ocfs2-tools repair engine

This project models, in Dafny, the parts of ocfs2-tools in which a fast or stateful structure has to agree
with a simple meaning, and proves that it does. Most of them belong to `fsck.ocfs2`.

| file | what it models |
|---|---|
| `RefcountRecords.dfy`, `RefcountClear.dfy`, `RefcountTree.dfy` | editing refcount records in place, clearing ranges of them, and the sweep that makes a refcount tree agree with the files that share its clusters |
| `RefcountCheck.dfy` | the check of refcount blocks and of the extent lists that lead to them |
| `RefcountRepair.dfy` | both passes over a refcount tree, one after the other |
| `Journal.dfy`, `JournalSlots.dfy`, `JournalRoundTrip.dfy` | replay of the circular journals of all slots, and of a journal that was written entry by entry |
| `ClusterBitmap.dfy` | merging the clusters found in use into the global bitmap |
| `DiscontigGroup.dfy`, `ChainAlloc.dfy` | repair of discontiguous groups and of chain allocators |
| `DupClusters.dfy` | passes 1B and 1D: clusters that several inodes claim |
| `DirCompact.dfy` | in-place compaction of a directory block |
| `DirConnect.dfy` | pass 3: connecting directories |
| `LinkCount.dfy` | the link-count store and pass 4b |
| `BlockCheck.dfy`, `Crc32.dfy`, `Checksum.dfy` | Hamming code and CRC-32 of metadata blocks, and the defragmenter's ones' complement checksum |
| `ExtentLookup.dfy` | the two block lookups of `debugfs.ocfs2` in an extent tree |
| `Common.dfy` | definitions that several of them share |

Code that changes state step by step is modelled by classes and methods with loops; what a method computes is
stated against a definition that does not follow the loop: the number of files that hold a cluster, the writes of
the committed part of a log, the bytes of a block as a list of directory entries, the graph of parent links, a CRC
by single-bit steps. Every prompt is answered "yes" unless a model takes the answers as a parameter
(`ClusterBitmap`, `DupClusters`), and reading and writing blocks succeeds unless a model says otherwise
(`BadRef`, `BadList`, unreadable inodes in `LinkCount`, group blocks without a descriptor in `ChainAlloc`).

Some intended properties are false of the code. In each case the code is kept, a concrete case is given, and the
exact condition is proved.

- The check of refcount blocks carries the end of the last good record in 64 bits. A record whose end does not fit
  makes it small again, and later records may lie before earlier ones. The records left are in order if and only if no
  record that survives has such an end (`RefcountCheck.FilteredInOrder`, `RefcountCheck.OverflowBreaksOrder`).
- That check lets records with a count of zero through. The sweep ends with a list in order that counts the sharing
  files on every cluster that they alone hold, if and only if no such record covers one of those clusters. It goes
  right under that condition (`RefcountTree.Tree.CheckRefcount`, `RefcountTree.RightIf`), and no sequence of edits goes
  right without it, because no edit takes such a record away (`RefcountTree.RightOnlyIf`). A concrete run that leaves
  a count on a cluster which nobody holds is `RefcountTree.ZeroRecordDoubled`.
- Joining two refcount records cuts the length to 32 bits. All counts are kept if and only if the sum fits, or the
  records count nothing (`RefcountRecords.RotateLeftKeepsCount`, `RefcountRepair.LongRecordLosesCounts`).
- The refcount sweep can leave a count on a cluster that no file holds. Which ones stay is stated exactly, also where a
  length wraps on a record with a count of zero and a clearing goes on behind its range
  (`RefcountTree.ExactIffNothingStays`). Without such records on held clusters it happens exactly when all held
  clusters behind it are claimed by somebody else too (`RefcountTree.StaysIffStranded`).
- Pass 3 does not connect everything: a walk that starts on a cycle never cuts it. A directory reaches the root
  exactly when it does not hang on a cycle on which a directory has the smallest number of all that lead there
  (`DirConnect.DirTable.Pass3`).
- The range test on refcount records lets through a record whose last cluster lies one behind the volume, or does
  not fit in 32 bits; otherwise it is exact (`RefcountCheck.InsideUnlessAtEnd`).
- The search for a logical block adds up the end of an extent in 32 bits, so it prints 0 for a block that is mapped
  by an extent which ends at 2^32 clusters, or lies below one. Otherwise it is right (`ExtentLookup.PrintedIsRight`).
- A corrected metadata block is accepted after any single flipped bit of its data, but a flipped bit in the stored
  CRC makes a good block fail (`BlockCheck.DamagedCrcIsReported`).

Where code and comment disagree the code is followed. The comment on `check_rb` says that a bad signature makes a
block invalid; the code also drops blocks of another generation and empty leaves.

## Model

| member | source | states |
|---|---|---|
| `RefcountRecords.FindRec` | libocfs2/refcount.c:241-277 | on a list in any state, a record that covers the position or a made-up answer; in a list in order, the answer is right: the gap reaches the next record, and the count over the returned stretch is the one returned |
| `RefcountRecords.RotateLeftKeepsCount` | libocfs2/refcount.c:413-431 | joining two records that touch and have one count keeps every cluster's count if and only if the length fits in 32 bits or the count is zero |
| `RefcountRecords.MergeMeaning` | libocfs2/refcount.c:436-454 | merging a record with its neighbours keeps the list sorted and disjoint, keeps every count, and leaves records that count nothing alone |
| `RefcountRecords.ChangeRecMeaning` | libocfs2/refcount.c:460-485 | changing a record's count changes exactly its clusters; a count of zero takes the record out; no record with a count of zero comes or goes |
| `RefcountRecords.InsertRecMeaning` | libocfs2/refcount.c:842-893 | an inserted record adds its count on its clusters and nowhere else |
| `RefcountRecords.SplitRecMeaning` | libocfs2/refcount.c:904-1020 | splitting gives the split range its new count, all else keeps its own, in every position of the range in the record |
| `RefcountRecords.RaisingZeroRecord` | libocfs2/refcount.c:1063-1070 | where a record with a count of zero is found, raising the count leaves the list out of order; where the answer was made up, in order |
| `RefcountRecords.EditKeepsZeros` | libocfs2/refcount.c:460-1020 | no edit, of a list in any state, takes away a record with a count of zero or adds one |
| `RefcountRecords.ZeroRecordStays` | libocfs2/refcount.c:460-1020 | over every run of edits, of a list in any state: a cluster that a record with a count of zero covers gets no count in a list that is in order |
| `RefcountClear.PlainClearing` | libocfs2/refcount.c:1926-1944 | a clearing clears its range and nothing else unless an end of the range lies inside a record with a count of zero |
| `RefcountClear.ClearedSame` | libocfs2/refcount.c:1926-1944 | what a clearing clears depends on the records with a count of zero only |
| `RefcountTree.GetRefcountedExtent` | fsck.ocfs2/refcount.c:499-552 | the next segment: from the first held cluster to the next place where an extent of a file starts or ends, and the number of files that hold it; every cluster of it is held by the same files |
| `RefcountTree.ClusterMarks.MarkClusters` | fsck.ocfs2/util.c:62-97 | clusters become used; those used already become duplicates |
| `RefcountTree.Tree.PunchHole` | libocfs2/refcount.c:1904-1951 | the effect on every cluster, with the 32-bit length of the code: the clearing begins where steps over records with a count of zero come out of them, and goes on behind the range if it steps over the end |
| `RefcountTree.Tree.IncreaseRefcount` | libocfs2/refcount.c:1022-1095 | every cluster of the range gains the value, across records and gaps, in a list that stays in order, if and only if no record with a count of zero has a cluster there; the 32-bit length and the doubled record are followed |
| `RefcountTree.Tree.ChangeRefcount` | libocfs2/refcount.c:1953-1990 | a range inside one record or gap gets the given count and nothing else changes, if and only if no record with a count of zero has a cluster there; the assertion of the source holds |
| `RefcountTree.Tree.RemoveRefcountRange` | fsck.ocfs2/refcount.c:715-770 | the effect on every cluster, with the 64-bit position and length of the code; a length that has wrapped runs out before the position comes round to the records again |
| `RefcountTree.GridEnds` | fsck.ocfs2/refcount.c:726-766 | stepping on by the greatest 32-bit length, a wrapped 64-bit length ends before the position wraps |
| `RefcountTree.Tree.CheckClusters` | fsck.ocfs2/refcount.c:778-888 | the gap since the last checked cluster is cleared and the stretch gets one count, with the 32-bit running length of the code |
| `RefcountTree.Tree.CheckSegment` | fsck.ocfs2/refcount.c:890-981 | the effect on every cluster: duplicates in the segment end at zero, the others at the segment's count, counts behind the segment are wiped exactly where clearing a duplicate goes on, and the position moves behind the last cluster that is not a duplicate |
| `RefcountTree.Tree.RemoveRefcountedExtent` | fsck.ocfs2/refcount.c:558-594 | the segment is taken off the front of exactly the files that hold it; both assertions hold |
| `RefcountTree.Tree.SweepOne` | fsck.ocfs2/refcount.c:1034-1045 | one round keeps the relation between files, counts and marks at every cluster, and takes the next segment off exactly the files that hold it |
| `RefcountTree.Tree.Sweep` | fsck.ocfs2/refcount.c:1034-1045 | the rounds end; the segments found make up exactly the held clusters, each goes from one place where an extent of the original files starts or ends to the next, and has the number of files that hold its clusters |
| `RefcountTree.Tree.CheckRefcount` | fsck.ocfs2/refcount.c:986-1064 | for every cluster: its count afterwards in terms of the files that held it, the claims of others, the records with a count of zero, and its count before; the segments are cut exactly at the starts and ends of extents; for trees with no record with a count of zero on a cluster that the sharing files alone hold |
| `RefcountTree.RightIf` | fsck.ocfs2/refcount.c:986-1064 | the checked tree is in order and right on all those clusters |
| `RefcountTree.RightOnlyIf` | fsck.ocfs2/refcount.c:986-1064 | over every run of edits: a list that ends in order and right on the clusters that the sharing files alone hold had no record with a count of zero on one of them |
| `RefcountTree.NoDuplicatesExact` | fsck.ocfs2/refcount.c:986-1064 | with no held cluster claimed before the check, each count afterwards is the number of sharing files |
| `RefcountTree.ExactIffNothingStays` | fsck.ocfs2/refcount.c:789-806 | the counts after the check are exact if and only if no count lay on an unheld cluster that no clearing comes to |
| `RefcountTree.StaysIffStranded` | fsck.ocfs2/refcount.c:789-806 | without records with a count of zero on held clusters, a count stays exactly on an unheld cluster below held ones that were all claimed before |
| `RefcountTree.StrayRecordSurvives` | fsck.ocfs2/refcount.c:789-806 | a tree and a file for which a stray record stays |
| `RefcountTree.ZeroRecordDoubled` | libocfs2/refcount.c:1042-1085 | the run for one file on cluster 12 and a record (10, 10) with a count of zero: the record is doubled, the length wraps, and cluster 11 is left with a count that nobody accounts for |
| `RefcountCheck.CheckRl` | fsck.ocfs2/refcount.c:70-165 | removal in place is the filter of the original records by range and by the 64-bit end of the last one kept; the list is reported changed if and only if its header was wrong or a record was dropped |
| `RefcountCheck.SurvivingRuns` | fsck.ocfs2/refcount.c:113-164 | without a surviving record whose end overflows, the survivors follow one another and end where the returned end says |
| `RefcountCheck.FilteredInOrder` | fsck.ocfs2/refcount.c:113-164 | what the filter keeps is in range, sorted, disjoint and ends at the returned end if and only if no survivor has an end that overflows 64 bits |
| `RefcountCheck.FilteredSorted` | fsck.ocfs2/refcount.c:113-164 | the survivors are sorted and disjoint if and only if none but the last has an end that overflows 64 bits |
| `RefcountCheck.OverflowBreaksOrder` | fsck.ocfs2/refcount.c:149-149 | three records that all survive, out of order |
| `RefcountCheck.GoodListSurvives` | fsck.ocfs2/refcount.c:113-164 | a list in order loses nothing |
| `RefcountCheck.FilterConcat` | fsck.ocfs2/refcount.c:195-329 | filtering block by block with the end passed on is filtering all records at once |
| `RefcountCheck.KeepsParts` | fsck.ocfs2/refcount.c:195-329 | a list loses nothing if and only if its parts lose nothing, one after the other |
| `RefcountCheck.CheckRb` | fsck.ocfs2/refcount.c:195-329 | over a tree of any shape: the records below the block afterwards, from left to right, are those before it, filtered by range and by the end of the last one kept, as if the tree were one list; they are in order and end at the returned end if and only if no survivor has an end that overflows 64 bits; a block is invalid exactly if it has a wrong signature or generation or is an empty leaf below the root, and then the end does not move; a tree of sound structure that loses no record is left exactly as it is |
| `RefcountCheck.CheckEr` | fsck.ocfs2/extent.c:139-208 | the records below an extent are filtered in the same way; an extent that leads to no valid block loses its block number; its length never changes; it is placed where the one before it ends, or stays where it is if it starts later and holes are allowed; a sound extent is left as it is |
| `RefcountCheck.CheckEl` | fsck.ocfs2/extent.c:210-340 | the records below the list are filtered in the same way, across all its blocks; the extents that stay are those that lead to a valid block and a leading empty one, in order, each placed behind all extents before it; a good list is left as it is |
| `RefcountCheck.GoodTreeKeepsAll` | fsck.ocfs2/refcount.c:195-329 | a tree whose records are in order loses none |
| `RefcountCheck.RunsSorted` | fsck.ocfs2/refcount.c:113-164 | records in order do not overlap and lie between the two ends |
| `RefcountCheck.InsideUnlessAtEnd` | fsck.ocfs2/refcount.c:116-127 | a record that passes ends inside the volume if and only if its end fits in 32 bits and is not one behind the volume |
| `RefcountCheck.InsidePasses` | fsck.ocfs2/refcount.c:116-127 | a record inside the volume, behind its first blocks, passes, whatever its count |
| `RefcountCheck.OnePastTheEndPasses` | include/ocfs2/ocfs2.h:1231-1234 | a record outside the volume that passes |
| `RefcountRepair.CheckedIsReady` | fsck.ocfs2/refcount.c:393-403 | records in order are what the sweep may start from, and none ends behind the end that was returned |
| `RefcountRepair.RepairTree` | fsck.ocfs2/refcount.c:373-429 | checking the blocks of a damaged tree and then its counts: the counts afterwards in terms of the files and of the filtered records of the damaged tree |
| `RefcountRepair.LongRecordLosesCounts` | libocfs2/refcount.c:413-431 | two records that pass the range test and survive the check; correcting the count of the first one joins them, cuts the length, and a held cluster loses its count |
| `Journal.SeqReached` | fsck.ocfs2/journal.c:73-82 | counting up at most 2^31 numbers with wrap-around, "at or past the last" holds exactly at the last |
| `Journal.ComputeJwrap` | fsck.ocfs2/journal.c:187-198 | the loop computes the wrapped offset |
| `Journal.JwrapInRing` | fsck.ocfs2/journal.c:187-198 | the wrapped offset lies in the ring and is whole turns away |
| `Journal.JwrapAdd` | fsck.ocfs2/journal.c:187-198 | wrapping early changes nothing |
| `Journal.CountTags` | fsck.ocfs2/journal.c:200-229 | the number of tags up to the last one, or an error for a block too small or a target out of range |
| `Journal.TagLayout` | fsck.ocfs2/journal.c:200-229 | tag k of a descriptor stands behind the header of twelve bytes, k tags, and the 16-byte UUIDs of those tags before it that bring one; the tags read are all up to the last one or the end of the block |
| `Journal.TagsReadBack` | fsck.ocfs2/journal.c:200-229 | any list of tags that is laid out in a descriptor is read back |
| `Journal.ReplayBound` | fsck.ocfs2/journal.c:293-299 | the bound on replayed tags is never reached before the last tag |
| `Journal.Replayer.LookupJournalBlock` | fsck.ocfs2/journal.c:231-262 | a block is claimed once; a second claim fails |
| `Journal.Replayer.ScanWalk` | fsck.ocfs2/journal.c:349-453 | the first walk stops on every content, reads the blocks of `Scan`, claims exactly those, and succeeds exactly when it met a block that does not continue the log |
| `Journal.Replayer.NextBlock` | fsck.ocfs2/journal.c:383-434 | how a block is continued, and which blocks are errors |
| `Journal.Replayer.ReplayBlocks` | fsck.ocfs2/journal.c:285-347 | it meets the tags that were counted, writes each image in order, and step-by-step wrapping lands where one wrap lands |
| `Journal.Replayer.RecoverWalk` | fsck.ocfs2/journal.c:349-453 | on a log without revoke blocks the second walk writes exactly the tagged blocks of committed transactions, in log order, and ends at the first walk's number |
| `Journal.ApplyLastWrite` | fsck.ocfs2/journal.c:326-333 | a written block ends with the image of the last write to it |
| `Journal.ApplyElsewhere` | fsck.ocfs2/journal.c:326-333 | every other block keeps its content |
| `Journal.CommitsAhead` | fsck.ocfs2/journal.c:373-374 | the final number is recognised exactly after the last commit |
| `Journal.WalkPos` | fsck.ocfs2/journal.c:383-420 | each header stands where the lengths of all entries before it put it in the ring |
| `Journal.ScanIsLinked` | fsck.ocfs2/journal.c:368-436 | the blocks read are those of the log, each leading to the next |
| `Journal.ScanSame` | fsck.ocfs2/journal.c:249-257 | blocks claimed by other journals do not change a journal's walk |
| `Journal.ScanLeavesData` | fsck.ocfs2/journal.c:376-377 | after the first walk every data block of the committed log can still be claimed |
| `JournalSlots.SlotReplayer.ScanSlot` | fsck.ocfs2/journal.c:455-508 | the super block and the headers of a slot are claimed and its final number found |
| `JournalSlots.SlotReplayer.ScanSlots` | fsck.ocfs2/journal.c:639-668 | all final numbers and claims, and trouble exactly when some scan failed |
| `JournalSlots.SlotReplayer.RecoverSlot` | fsck.ocfs2/journal.c:670-705 | one slot's writes are applied, its super block reset, and no other journal touched |
| `JournalSlots.SlotReplayer.ReplayJournals` | fsck.ocfs2/journal.c:604-705 | the volume changes by the committed writes of all dirty slots in order, and by nothing else; every replayed log is marked empty with a fresh number |
| `JournalSlots.SecondReplayWritesNothing` | fsck.ocfs2/journal.c:682-687 | replaying again writes nothing and leaves the super blocks alone |
| `JournalSlots.ResetIsFresh` | fsck.ocfs2/journal.c:682-687 | the number that a replayed log is given is carried by no block of the log, not even by those of an unfinished transaction |
| `JournalRoundTrip.LogReadBack` | fsck.ocfs2/journal.c:285-453 | replaying a journal that holds any sequence of updates and commit marks, around the ring and with magic numbers blanked out, writes the images of the updates before the last commit mark, in order, and ends at the number behind all commit marks |
| `JournalRoundTrip.ResetReadBack` | fsck.ocfs2/journal.c:682-687 | the log that such a replay leaves is empty and starts with the second number behind all commit marks |
| `JournalRoundTrip.HoldsIsReady` | fsck.ocfs2/journal.c:349-453 | such a journal, whose updates lie outside of it, meets everything that replay requires of a slot |
| `ClusterBitmap.FindNextSet` | fsck.ocfs2/pass1.c:1374-1389 | the first set bit at or after a start |
| `ClusterBitmap.BitInBackupSuper` | fsck.ocfs2/pass1.c:1285-1295 | membership among the backup clusters |
| `ClusterBitmap.GlobalBitmap.ForceClusterBit` | fsck.ocfs2/pass1.c:1258-1283 | the bit changes exactly if the operator agrees |
| `ClusterBitmap.GlobalBitmap.ClearTo` | fsck.ocfs2/pass1.c:1391-1405 | every bit up to the next used cluster is merged, and the cursor says whether that cluster's bit is set |
| `ClusterBitmap.GlobalBitmap.WriteClusterAlloc` | fsck.ocfs2/pass1.c:1370-1411 | for all bitmaps and answers: each bit below the volume's end is the wanted one unless the operator refused, and no other bit changes |
| `ClusterBitmap.AcceptedMerge` | fsck.ocfs2/pass1.c:1337-1369 | with all changes accepted: the clusters in use plus the backups that were marked |
| `ClusterBitmap.MergeSettles` | fsck.ocfs2/pass1.c:1370-1411 | merging an accepted bitmap again changes nothing, whatever is answered |
| `ClusterBitmap.OperatorHeeded` | fsck.ocfs2/pass1.c:1258-1411 | a bit changes only with consent, and stays wrong only if consent was refused |
| `DiscontigGroup.CheckDiscontigBg` | fsck.ocfs2/pass0.c:159-348 | what becomes of any list: records in range that make up exactly a group, before the end or before a record that would be too much, are kept and the list is cut there; if one record alone claims more than a group and the others leave something, it gets what they leave; every other group is dropped |
| `DiscontigGroup.CheckedDecided` | fsck.ocfs2/pass0.c:159-348 | the recursive form of the repair meets the same description |
| `DiscontigGroup.OneDecision` | fsck.ocfs2/pass0.c:159-348 | that description leaves one outcome only |
| `DiscontigGroup.CheckedIsSound` | fsck.ocfs2/pass0.c:159-348 | a group that is not dropped has records in range that cover exactly the clusters of a group |
| `DiscontigGroup.KeptIffSound` | fsck.ocfs2/pass0.c:159-348 | a list is left unchanged if and only if it is sound |
| `DiscontigGroup.InRangeMeans` | fsck.ocfs2/pass0.c:207-210 | testing both ends of a record is testing every block of it |
| `ChainAlloc.FindMaxFreeBits` | fsck.ocfs2/pass0.c:74-93 | the runs of clear bits add up to the number of clear bits |
| `ChainAlloc.KeptIffHealthy` | fsck.ocfs2/pass0.c:350-470 | a group stays unchanged if and only if it belongs to this inode and chain, claims no more free bits than its bitmap has clear ones, and its extents are sound; a group that stays is so once repaired |
| `ChainAlloc.DroppedIff` | fsck.ocfs2/pass0.c:350-470 | exactly which groups go |
| `ChainAlloc.KeptGroupMarks` | fsck.ocfs2/pass0.c:579-606 | a kept group, discontiguous or not, is marked with exactly the clusters of a group |
| `ChainAlloc.RunsHold` | fsck.ocfs2/pass0.c:579-606 | a run of clusters marked for a group holds exactly the blocks of that piece of the group, for a piece that starts where a cluster starts |
| `ChainAlloc.ChainMarks` | fsck.ocfs2/pass0.c:718-896 | a chain is marked with as many clusters as its groups have |
| `ChainAlloc.KeptDistinct` | fsck.ocfs2/pass0.c:841-852 | a chain within the length bound visits no group twice |
| `ChainAlloc.LengthBoundSuffices` | fsck.ocfs2/pass0.c:944-945 | chains of the greatest length, one for each record, have room for more groups than the clusters make up |
| `ChainAlloc.FinishedTwice` | fsck.ocfs2/pass0.c:350-470 | repairing a group that has been repaired changes nothing but its chain |
| `ChainAlloc.Allocator.CheckGroup` | fsck.ocfs2/pass0.c:350-470 | which groups stay, and the repaired descriptor of one that does |
| `ChainAlloc.Allocator.MarkGroupUsed` | fsck.ocfs2/pass0.c:579-606 | the cluster runs of the group are marked in order |
| `ChainAlloc.Allocator.CheckChain` | fsck.ocfs2/pass0.c:718-896 | groups up to the first that does not stay are repaired and linked, the chain is cut there, nothing else changes; totals are sums in 32 bits; exactly the cluster runs of the kept groups are marked, in order |
| `ChainAlloc.Allocator.VerifyRec` | fsck.ocfs2/pass0.c:1003-1054 | checking one record, or replacing an empty one by the last, keeps the chains and the marks made for them, and brings the end closer |
| `ChainAlloc.Allocator.VerifyChainAlloc` | fsck.ocfs2/pass0.c:900-1086 | records in use are exactly the chains that are not empty, each as often as before; each group is repaired and knows the last chain that it is in, also if chains share groups; record and inode counts are the sums; exactly the clusters of the kept groups are marked; unused records are wiped |
| `DupClusters.DupContext.DupInsert` | fsck.ocfs2/pass1b.c:252-326 | exactly one claim is added, owners stay listed once, and every owner has an entry |
| `DupClusters.CountUnhandled` | fsck.ocfs2/pass1b.c:1036-1066 | the owners not handled yet, with every lookup succeeding |
| `DupClusters.CountMeansSole` | fsck.ocfs2/pass1b.c:1285-1304 | for an owner not handled the count is positive, and one exactly when it is the only one |
| `DupClusters.Reconciler.CanFree` | fsck.ocfs2/pass1b.c:1285-1304 | true exactly when the inode being truncated is the sole owner left; both assertions hold |
| `DupClusters.Reconciler.FreeClusters` | fsck.ocfs2/pass1b.c:1306-1349 | the freed clusters are those not shared and those whose sole owner left is this inode |
| `DupClusters.Reconciler.DeleteOneInode` | fsck.ocfs2/pass1b.c:1351-1375 | the inode maps nothing any more, what it alone was left to own is freed, and the balance of claims, mappings and frees is kept |
| `DupClusters.Reconciler.CloneOneInode` | fsck.ocfs2/pass1b.c:1377-1413 | the inode maps the fresh clusters, what it alone was left to own is freed, and the balance is kept |
| `DupClusters.Reconciler.FixDup` | fsck.ocfs2/pass1b.c:1415-1461 | the new state for each answer and the offer made; allocators are never offered or touched, system files never deleted, and the balance is kept |
| `DupClusters.Reconciler.FixOwners` | fsck.ocfs2/pass1b.c:1585-1589 | all owners but allocators are offered, in order, each with the next answer, and the state is the one that these offers lead to, for every operator |
| `DupClusters.Reconciler.Pass1D` | fsck.ocfs2/pass1b.c:1543-1593 | over every run and for every operator: the offers made and the state they lead to; a shared cluster is mapped once by each owner not handled and freed once, exactly when all owners are handled; with an operator who leaves nothing alone, every cluster that is not turned into a shared one ends with one owner left, or all its owners are handled, allocators, or system files that were not deleted; with every clone agreed to, no cluster is left with two owners unless all that are left are allocators |
| `DupClusters.HandledIff` | fsck.ocfs2/pass1b.c:1415-1461 | after any sequence of offers an inode is cloned or removed if and only if it was so before or was offered and agreed to, by its kind |
| `DupClusters.PassAnswered` | fsck.ocfs2/pass1b.c:1543-1593 | offer k of the pass carries answer k |
| `DupClusters.PassOffered` | fsck.ocfs2/pass1b.c:1543-1593 | every owner of a cluster with two owners left that is not turned into a shared one is offered, allocators excepted |
| `DupClusters.OnlyNeeded` | fsck.ocfs2/pass1b.c:1543-1593 | nobody is offered without need: the offer belongs to the turn of a cluster that the inode owns, is not turned into a shared one, and has two owners left |
| `DupClusters.PassSettles` | fsck.ocfs2/pass1b.c:1543-1593 | with an operator who leaves nothing alone every turn is settled |
| `DupClusters.FreedExactly` | fsck.ocfs2/pass1b.c:1306-1349 | truncating frees a cluster as often as the inode maps it, unless another owner still claims it |
| `DupClusters.BalancedAtFirst` | fsck.ocfs2/pass1b.c:252-326 | the listing of pass 1B is a state of that balance |
| `DirCompact.DirBlock.Compress` | fsck.ocfs2/pass2.c:790-900 | on bytes: the entries that pass the checks stay, in order; records tile the block; all but the last are live and minimal; the block is reported changed if and only if a byte of it is, that is, if it was not compact or an entry was dropped |
| `DirCompact.DirBlock.CompressOne` | fsck.ocfs2/pass2.c:793-900 | one record of the walk keeps what is known of the block |
| `DirCompact.DirBlock.CheckRecord` | fsck.ocfs2/pass2.c:366-373 | an entry with an empty name, or one that another check refuses, stops being live |
| `DirCompact.DirBlock.ShrinkPrevious` | fsck.ocfs2/pass2.c:878-883 | a live previous record gives back its spare bytes and the records before the write offset are tight |
| `DirCompact.DirBlock.MoveRecord` | fsck.ocfs2/pass2.c:884-896 | the record moves down, also onto itself, with the same entry, and reaches as far as before |
| `DirCompact.TightTiled` | fsck.ocfs2/pass2.c:695-708 | tight records before a good last one pass the length checks up to the end of the block |
| `DirCompact.AlignedIsMultiple` | include/ocfs2-kernel/ocfs2_fs.h:424-429 | alignment is being a multiple of four |
| `DirConnect.DirTable.ConnectDirectory` | fsck.ocfs2/pass3.c:315-363 | the walk ends; it joined a connected directory, came back to its start, or moved its last directory, which had no parent or ran into the walk |
| `DirConnect.DirTable.ConnectNext` | fsck.ocfs2/pass3.c:315-394 | a walk keeps the invariants and the directory's ".." agrees with its parent |
| `DirConnect.DirTable.Pass3` | fsck.ocfs2/pass3.c:396-448 | only parentless directories and directories on cycles are moved, at most one of each cycle; ".." agrees everywhere; each directory reaches the root if and only if it does not hang on a cycle that is entered at itself first |
| `DirConnect.AllReachIff` | fsck.ocfs2/pass3.c:396-448 | all directories reach the root if and only if every directory on a cycle is led to from below |
| `DirConnect.CycleIsCutOnce` | fsck.ocfs2/pass3.c:344-360 | of a cycle that reaches the root afterwards exactly one link has been given up |
| `DirConnect.LoopedIsBad` | fsck.ocfs2/pass3.c:325-348 | a walk that comes back to its start is the first of all that lead to its cycle |
| `DirConnect.BadLoops` | fsck.ocfs2/pass3.c:325-348 | the walk from such a directory goes around once and changes nothing |
| `DirConnect.StuckNeverReaches` | fsck.ocfs2/pass3.c:325-348 | that cycle never reaches the root |
| `DirConnect.OneCutStep` | fsck.ocfs2/pass3.c:344-360 | of the links of a cycle at most one is given up |
| `DirConnect.SelfParentSurvives` | fsck.ocfs2/pass3.c:325-348 | a directory that is its own parent and comes first stays unconnected |
| `LinkCount.Search` | fsck.ocfs2/icount.c:68-88 | the count of a block, or the next block in the tree |
| `LinkCount.InsertWorks` | fsck.ocfs2/icount.c:47-66 | insertion changes one key and keeps the order |
| `LinkCount.EraseWorks` | fsck.ocfs2/icount.c:102-107 | removal changes one key and keeps the order |
| `LinkCount.Icount.Set` | fsck.ocfs2/icount.c:91-124 | one entry of the map from block to count is replaced; bitmap and tree stay disjoint |
| `LinkCount.Icount.GetCount` | fsck.ocfs2/icount.c:126-144 | the stored count |
| `LinkCount.Icount.Delta` | fsck.ocfs2/icount.c:149-176 | one count changes by the given amount, modulo 2^16 |
| `LinkCount.Icount.NextBlkno` | fsck.ocfs2/icount.c:201-228 | the least block at or above the start with a count, over bitmap and tree together |
| `LinkCount.Pass4.NextInodeAnyRef` | fsck.ocfs2/pass4.c:297-318 | the next inode with a reference or a link count |
| `LinkCount.Pass4.ReconnectFile` | fsck.ocfs2/pass3.c:250-311 | a readable inode gets one entry in lost+found and one reference for it, an unreadable one nothing |
| `LinkCount.Pass4.CheckLinkCounts` | fsck.ocfs2/pass4.c:48-101 | references grow by the entries made in lost+found, one exactly for a readable inode without references; recorded count and disk then follow the references; an inode that cannot be read is neither reconnected nor updated |
| `LinkCount.Pass4.Pass4b` | fsck.ocfs2/pass4.c:354-360 | every inode with any reference is visited once, in ascending order; each inode ends with the references it had plus its entries in lost+found, exactly one if it was readable, linked and unreferenced and none otherwise; afterwards references, recorded counts and disk agree and no visited inode is unreferenced, wherever the inode can be read |
| `BlockCheck.Hweight32IsOne` | libocfs2/blockcheck.c:40-47 | for every 32-bit number, the bit trick counts one exactly if one bit of it is set |
| `BlockCheck.CalcCodeBit` | libocfs2/blockcheck.c:67-97 | the position of a data bit among parity bits, from any cached start |
| `BlockCheck.CodeBitAscends` | libocfs2/blockcheck.c:67-97 | positions ascend and none is a power of two |
| `BlockCheck.HammingEncode` | libocfs2/blockcheck.c:110-157 | the parity is the exclusive or of the positions of set bits |
| `BlockCheck.ParityOfHunks` | libocfs2/blockcheck.c:110-157 | encoding hunk by hunk equals encoding the whole |
| `BlockCheck.ParityOfFlip` | libocfs2/blockcheck.c:110-157 | a flipped bit changes the parity by its position |
| `BlockCheck.HammingFix` | libocfs2/blockcheck.c:171-226 | exactly the bit at the given position is flipped, or none; parity positions are told by the bit trick |
| `BlockCheck.BlockCheckCompute` | libocfs2/blockcheck.c:313-327 | the stored check values of a block |
| `BlockCheck.BlockCheckValidate` | libocfs2/blockcheck.c:337-370 | accept, correct and accept, or refuse |
| `BlockCheck.FlippedBitIsCorrected` | libocfs2/blockcheck.c:337-370 | any single flipped bit of any block is found, corrected and accepted |
| `BlockCheck.OneDamage` | libocfs2/blockcheck.c:337-370 | with damage in one place, a bit of the block, the stored parity or the stored CRC, the check leaves the good block, and accepts it unless the CRC was hit |
| `BlockCheck.DamagedCrcIsReported` | libocfs2/blockcheck.c:337-370 | damage to the stored CRC alone makes the block fail |
| `Crc32.TableIsShift` | libo2cb/o2cb_crc32.c:37-91 | every table entry is eight single-bit steps |
| `Crc32.PartialCrc32` | libo2cb/o2cb_crc32.c:93-105 | the table loop over a string is the bitwise CRC of its bytes |
| `Crc32.O2cbCrc32` | libo2cb/o2cb_crc32.c:108-116 | seed and complement as in section 8 of RFC 1952 |
| `Crc32.Crc32Le` | libocfs2/blockcheck.c:251-297 | for every alignment, the word-at-a-time form over the table is the bitwise CRC |
| `Crc32.ShiftInjective` | libo2cb/o2cb_crc32.c:93-105 | no two register values ever merge |
| `Crc32.OneByteDetected` | libocfs2/blockcheck.c:251-297 | changing one byte changes the CRC |
| `Checksum.FoldedSame` | defragfs.ocfs2/libdefrag.c:63-70 | two folds bring any 32-bit sum to its 16-bit ones' complement value |
| `Checksum.AddWord` | defragfs.ocfs2/libdefrag.c:99-106 | a deferred carry is never lost |
| `Checksum.AddWords` | defragfs.ocfs2/libdefrag.c:95-109 | the 32-bit loop adds the 16-bit words |
| `Checksum.SumShifted` | defragfs.ocfs2/libdefrag.c:79-88 | an odd start gives the byte-swapped sum |
| `Checksum.DoCsum` | defragfs.ocfs2/libdefrag.c:72-126 | for every buffer at every address, the ones' complement sum of section 1 of RFC 1071 |
| `Checksum.SumConcat` | defragfs.ocfs2/libdefrag.c:72-126 | sums of whole-word parts add up |
| `ExtentLookup.FindBlockOffset` | debugfs.ocfs2/commands.c:604-669 | on every well-formed tree: what the covering record says if neither it nor an extent above it ends at 2^32 clusters or beyond, and 0 otherwise |
| `ExtentLookup.PrintedIsRight` | debugfs.ocfs2/commands.c:604-669 | the answer is what any covering record says, or 0 for a hole, if and only if no covering record, nor an extent above it, ends at 2^32 clusters or beyond |
| `ExtentLookup.LastClusterMissed` | debugfs.ocfs2/commands.c:629-632 | a record for the last cluster of a file that is not found |
| `ExtentLookup.AnswerIsLookup` | debugfs.ocfs2/commands.c:604-669 | a right answer is the linear search of the flattened leaf records |
| `ExtentLookup.PlaceIsPlain` | debugfs.ocfs2/commands.c:615-640 | below 2^32 clusters, and in records of less than 2^32 blocks, neither cluster nor distance is cut off |
| `ExtentLookup.OffsetWraps` | debugfs.ocfs2/commands.c:615-640 | beyond, the answer is that of the offset less 2^32 clusters |
| `ExtentLookup.BlockFinder.Meet` | debugfs.ocfs2/find_block_inode.c:84-115 | one extent settles exactly the open queries it holds, and the counter counts them |
| `ExtentLookup.BlockFinder.LookupRegular` | debugfs.ocfs2/find_block_inode.c:41-124 | every query ends as the whole tree, walked in order, would settle it; stopping early loses nothing |
| `ExtentLookup.LookupInverts` | debugfs.ocfs2/find_block_inode.c:100-115 | the disk block printed for a mapped logical block reports that logical block, if its record is seen; otherwise 0 is printed |
| `ExtentLookup.TreeBlockReported` | debugfs.ocfs2/find_block_inode.c:74-94 | a block that holds part of the tree is reported as such, where no block belongs to two things |
| `ExtentLookup.OthersStayUnknown` | debugfs.ocfs2/find_block_inode.c:41-124 | a block that belongs to nothing that was met stays unknown |

## Left out

- RefcountTree.Tree.CheckRefcount: requires that records and held clusters lie below 2^32 clusters, where joining records cuts no length, and that the clearing behind the last held cluster comes out of records with a count of zero below 2^32, because beyond that the position comes round to the first clusters; with a record with a count of zero on a cluster that the files alone hold, only that no run ends right is proved.
- RefcountTree.Tree.RemoveRefcountRange: requires the same of the place where the clearing comes out.
- RefcountRepair.RepairTree: requires that no record that survives the check ends beyond 32 bits, and the same of records with a count of zero.
- RefcountRecords.FindRec: the list of a tree is one list; in a tree of several leaves the source cuts a made-up answer at the start of the next leaf (libocfs2/refcount.c:339-344).
- RefcountCheck.CheckEl: does not model the number of clusters and the greatest size that the walk adds up for its caller (fsck.ocfs2/extent.c:331-336).
- Capacity and shape of refcount trees: `RefcountTree` keeps all records of a tree in one list; splitting blocks and growing and shrinking the tree are not modelled.
- Pairing of files with refcount trees, and removing the refcount flag of files whose tree is gone.
- JournalSlots.SlotReplayer.ReplayJournals: requires logs without revoke records, because a lookup that meets an older revoke does not return (fsck.ocfs2/journal.c:133-141).
- Journal.Replayer.RecoverWalk: does not model a log that laps its ring, whose descriptors lack a last tag, or whose tags point into a journal; the first walk is proved to stop on all of these.
- JournalRoundTrip.LogReadBack: requires entries that do not fill the whole ring, because the walk stops at the first block that does not continue the log.
- The journal super blocks are kept beside the disk blocks rather than in them.
- DirCompact.DirBlock.Compress: starts from well-formed lengths and takes the verdict of the other checks on a name as a parameter; the repair of bad lengths, duplicate names and directory indexes is not modelled.
- ChainAlloc.Allocator.VerifyChainAlloc: requires chains within the length bound, because breaking a loop writes to the descriptor that the loop leads to (fsck.ocfs2/pass0.c:699-705).
- Group descriptors whose bit count exceeds their bitmap.
- The global bitmap's own chain allocator, which keeps empty chains.
- DupClusters.Reconciler.Pass1D: requires that clones get no multiply-claimed cluster, so a cluster freed earlier in the same run and handed to a clone is not modelled.
- Turning a shared cluster into a refcounted one is an answer that leaves its owners alone; the new tree is not modelled.
- Reference counts of lost+found and of ".." entries in pass 3, and orphan directories.
- Rebalancing of red-black trees: insertion and removal in `LinkCount` are those of plain search trees.
- The big-endian branch of the ones' complement checksum.
- Reading, writing and byte-swapping of blocks, prompts and messages, caches, cluster locking, the other tools of the package.
