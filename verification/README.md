# Verified model of jfsrec

jfsrec recovers files from a damaged JFS volume. It scans the raw device for on-disk inodes, filters what it found in
stages that survive restarts through progress files, searches roots in the graph of parents, walks directory B+-trees for names,
and rebuilds files from their extent trees. This project models these parts in Dafny and proves what they guarantee,
and where they do not, exactly when they do.

Code that updates state is modelled in that form: the classes `Inode`, `InodeVector`, `InodeScanner`, `OutFile`,
the page buffer and the output lists are Dafny classes, and the loops are loops over arrays, sequences and
maps. Each method is proved against a function or relation on values (`Stages`, `Inostamps`, `Pipeline`, ...),
and the main results are lemmas about those values over every list, every tree, every device and every run.

| file | models |
|---|---|
| `Bytes`, `BlockDevice` | little-endian fields, `Device::read_bytes`, block arithmetic |
| `DiskLayout` | every structure that is parsed, by the bytes it is read from |
| `InodeFactory`, `Inode`, `ParentGraph` | classification of a sector, the inode object and its dinode cache, the search for a root |
| `Selection`, `Stages`, `Inostamps` | the filters as functions of the list of inodes, with their exact verdicts |
| `ProgressDir`, `SavedLists`, `SectorScan` | progress files, the reading loop that delivers the last position twice, the sectors of a scan |
| `InodeVector`, `InodeScanner` | the two stateful classes, proved against the functions above |
| `Pipeline`, `Restart` | the transition system of processes that start, save, die and start again |
| `ResumedScan`, `StampRuns`, `ResumedStage` | what the inode that a resumed scan repeats does to the next stage |
| `Conservation` | what checkpoint and `invalidated.txt` hold together in every reachable state |
| `ReloadedStage`, `Interrupted` | what a reload of post-scan.txt does to it, and what any interruption does to the final list |
| `Utf8`, `Direntry`, `DirInode`, `DirTree`, `DirCycles` | name conversion, entries scattered over slots, the walk over a directory tree, and when it ends |
| `FileTree`, `OutputFile`, `FileInode`, `FileContents`, `FileSize` | extent trees, the chunked copy, the recovered contents and their size |

## What the proofs found

* **Extent detector.** The inode itself is counted twice, so runs of 31 pass where 32 are meant, and the backward loop
  never visits position 0, so of a run of exactly 31 at the head of the list only the first inode passes
  (`ExtentVerdict`, `GroupsOf32`).
* **Resumed scan.** Every nonempty `inoscan.txt` is resumed correctly, but the inode behind which the scan resumes is
  in the vector twice. This cuts its run in two, and an extent of exactly 32 inodes in the filtered list is then lost,
  wholly or in part, unless the scan had stopped at its first or last inode (`InterruptedExtentIsLost`). It can also turn
  the guard of the stamp filter: 32 inodes of one stamp before 99 of another are all lost (`ResumeLosesAGeneration`).
  Resuming is harmless to the stage as a whole exactly under the condition of `ResumeIsHarmlessIff`.
* **Resuming behind the last sector** leaves 0 bytes to read, and the program exits (`InodeScanner.DoScan`).
* **Restart from post-scan.txt.** The repeated last inode can turn the guard too: 1 + 99 inodes are kept by a scan and
  filtered after a reload of the same scan (`ReloadFlipsTheGuard`; exact conditions on the saved list: `FilterAfterReload`
  for the filter, `ReloadIsHarmlessIff` for the stage, on the list of any scan, resumed or not).
  From `post-extentscan.txt` on restarts are safe (`RestartSafety`).
* **The final list.** After any interruptions it has the inodes of an uninterrupted process exactly when no inode that
  the filters lost would have survived the last two stages, and none that they kept in excess does (`EndToEnd`).
* **Nothing is forgotten.** In every reachable state behind a scan the latest checkpoint and `invalidated.txt` together hold
  exactly the sane sectors, and a process that enters there has exactly their inodes (`PositionsAreConserved`, `InodesAreConserved`).
* **32-bit product.** Of an extent of 4 GiB or more only the length modulo 2^32 is copied (`WrapLosesTheRest`);
  the recovered bytes are whole exactly when each such extent is still copied as far as the file goes (`WholeIffWrapsBehind`).
* **Truncation.** The file is truncated through its descriptor before the stream flushes its buffer. The file is sure to
  have `di_size` bytes exactly when the last write does not reach beyond that size or fills whole buffers
  (`SavedSizeIff`). A buffer that divides the block size is harmless (`BlocksKeepTheSize`); behind one of 4096 bytes a file
  of 100 bytes in one block of 512 can come out with 512 bytes (`SmallFileGrows`).
* **Cycles of pages.** The walk along leaves and the descent end exactly when no page offset comes twice (`WalkEndsIff`,
  `DescentEndsIff`); the program does not test for it.
* **Empty root.** A file whose root has `nextindex` <= 2 stays empty, whatever its `di_size` (`SaveFile`).
* **String decoder.** Its output pointer advances by bytes, so it inverts the encoder exactly on 7-bit names (`StringRoundTripIff`).
* **Roots on cycles.** On a cyclic parent chain, neighbours can be given different roots (`ParentAgreesIff`).
* **Uninitialised flag.** `di_number_index_ok_` is never initialised; over the empty map either value is right (`InodeVector.constructor`).

## Model

| member | source | states |
|---|---|---|
| `Bytes.ReadBytes` | src/device.cpp:114-143 | throws exactly on a negative or too large offset or a count of 0; a short read leaves the rest of the buffer as it was, byte by byte |
| `InodeFactory.ScanAgreesWithReload` | src/inodefactory.cpp:27-84 | a sector that the scan accepts is classified the same, with the same fields, when its saved position is reloaded |
| `DiskLayout.SaneByBytes` | src/inodefactory.cpp:27-56 | the scan accepts a sector exactly if bytes 16 to 18 hold 4, bytes 4 to 7 hold 16 and its class exists: unallocated if bytes 40 to 43 are 0, else by the upper half of byte 53: 8 a file, 4 a directory, 10 a link, 1, 2, 6 or 12 special |
| `DiskLayout.ReloadByBytes` | src/inodefactory.cpp:59-84 | a reload gives the same classes by the same bytes, without the test of extent and fileset |
| `DiskLayout.DinodeByBytes` | src/jfs_dinode.h:46-98 | the place, width and sign of every field of the inode that is read, the parent number in a directory's root included |
| `DiskLayout.XadByBytes` | src/jfs_xtree.h:30-38 | offset and address of an extent are 40 bits wide with their upper 8 apart, the length 24 bits |
| `DiskLayout.XtPageByBytes` | src/jfs_xtree.h:81-98 | leaf flag, signed 16-bit nextindex and the array of a page of extents |
| `DiskLayout.SlotByBytes` | src/jfs_dtree.h:46-91 | a directory slot as continuation and as head of a leaf entry |
| `DiskLayout.PxdByBytes` | src/jfs_types.h:73-91 | length and address of a child's descriptor |
| `DiskLayout.PageByBytes` | src/jfs_dtree.h:180-199 | sibling, leaf flag, signed nextindex, the table from the slot on that stblindex names, and the slots of a directory page |
| `DiskLayout.RootByBytes` | src/jfs_dtree.h:139-154 | the root in the inode: nine slots, the table in bytes 24 to 31, no sibling |
| `DiskLayout.SaneByFields` | src/dirinode.cpp:91-92 | a descriptor is taken if its address is not 0 and neither address nor length exceeds the device's blocks |
| `DiskLayout.OffsetByFields` | src/dirinode.cpp:94-94 | a block number becomes its product with the block size in signed 64 bits |
| `DiskLayout.FollowsByFields` | src/dirinode.cpp:133-138 | the page behind a leaf is the one at the block in its next field |
| `DiskLayout.ChildByFields` | src/dirinode.cpp:106-108 | the child the descent takes is the page at the address in the slot of the first table byte |
| `InodeObject.Inode.constructor` | src/inode.cpp:43-51 | a new object stands for the dinode at its position: no parent, no mark, nothing cached |
| `InodeObject.Inode.GetDinode` | src/inode.cpp:116-120 | whatever is cached or was freed before, the caller gets the dinode stored at the object's own offset |
| `InodeObject.Inode.FreeDinode` | src/inode.cpp:122-128 | empties the cache and keeps the object valid, so its place in a program changes no result |
| `InodeObject.Inode.ReadDinode` | src/inode.cpp:130-135 | fills the cache from the device and keeps the object valid |
| `InodeObject.Inode.GetRoot` | src/inode.cpp:60-72 | on every finite object graph, cycles included, it terminates at the end of the climb: no parent, or a parent already passed |
| `ParentGraph.ClimbIsUnique` | src/inode.cpp:60-72 | a node has exactly one climb, hence one answer |
| `ParentGraph.TreeHasOneRoot` | src/inode.cpp:60-72 | if some ancestor has no parent, the answer is that ancestor, so all nodes of a tree agree |
| `ParentGraph.OnCycleIff` | src/inode.cpp:60-72 | a node lies on a cycle exactly when the last node of its climb has it as parent |
| `ParentGraph.ParentAgreesIff` | src/inode.cpp:60-72 | a node and its parent get the same root exactly when the node is not on a cycle or is its own parent |
| `Selection.PickSplits` | src/inodevector.cpp:125-161 | a partition by marks conserves the multiset of the list |
| `Selection.PickKeepsOrder` | src/inodevector.cpp:125-161 | what is kept keeps its order: it sits at increasing positions of the old list |
| `Selection.PickMembers` | src/inodevector.cpp:125-161 | an inode is kept exactly when one of its occurrences is marked to stay |
| `Stages.IndexIsBest` | src/inodevector.cpp:240-266 | the one-pass index holds exactly the numbers present, each at the inode of most seconds, then nanoseconds, then the earliest in the list |
| `Stages.DedupeMembers` | src/inodevector.cpp:163-174 | in the fields alone: an inode is left exactly if it occurs at a place such that all others of its number have fewer seconds, or as many and fewer nanoseconds, or the same time and stand later |
| `Stages.WithNumberPicks` | src/inodevector.cpp:52-58 | the rejected inodes of a number are picked from the list in order |
| `Stages.DedupeDistinct` | src/inodevector.cpp:163-174 | after the removal of duplicates the numbers are pairwise distinct |
| `Stages.DedupeKeepsBest` | src/inodevector.cpp:163-174 | the best inode of every number survives |
| `Stages.DedupeAbsorbs` | src/inodevector.cpp:163-174 | repeating an inode of the list changes nothing that the removal of duplicates keeps |
| `Stages.IndexAbsorbs` | src/inodevector.cpp:240-266 | nor any answer of the index |
| `Stages.AllocatedAppend` | src/inodescanner.cpp:368-381 | the stage for unallocated inodes judges each inode by its own link count |
| `Stages.ForwardInRun` | src/inodescanner.cpp:253-261 | the forward loop counts the rest of the maximal run, the inode included |
| `Stages.BackwardInRun` | src/inodescanner.cpp:263-273 | the backward loop counts the run up to the inode, without position 0 unless it starts there |
| `Stages.ExtentVerdict` | src/inodescanner.cpp:247-281 | the exact verdict on every position of every maximal run: kept whole from 31 on, at the head of the list from 32 on, and of 31 there only position 0 |
| `Stages.ForwardByFields` | src/inodescanner.cpp:253-261 | in the fields alone: the forward loop counts the inode and its followers as long as numbers go up by 1 and offsets by 512, and stops at the first that does not |
| `Stages.BackwardByFields` | src/inodescanner.cpp:263-273 | the backward loop likewise, never reaching position 0 |
| `Stages.ExtentByFields` | src/inodescanner.cpp:247-281 | in the fields alone: an inode is kept if and only if it is one of 31 in a row with numbers going up by 1 and offsets by 512, the row not beginning at position 0 unless the inode itself does |
| `Stages.ExtentMembers` | src/inodescanner.cpp:235-303 | and the stage's list holds exactly these inodes |
| `Stages.RunAround` | src/inodescanner.cpp:247-281 | every position lies in a maximal run, so the verdict decides every inode |
| `Stages.GroupsOf32` | src/inodescanner.cpp:247-281 | the verdict is "part of a run of at least 32" exactly except on runs of 31 |
| `Stages.ExtentsIgnoreRepeatedLast` | src/inodescanner.cpp:235-303 | a repeated last inode is itself dropped and changes no other verdict, so the same list is kept |
| `Inostamps.WinnerAndLargestBelow` | src/inodescanner.cpp:318-331 | the winner is the smallest stamp of maximal count, the runner-up the largest count among numerically smaller stamps |
| `Inostamps.WinnerIsUnique` | src/inodescanner.cpp:318-331 | these descriptions determine both |
| `Inostamps.FilterVerdict` | src/inodescanner.cpp:332-346 | the survivors are all inodes, or exactly those of the winner when it is more than 100 times as common |
| `Inostamps.FilterByCounts` | src/inodescanner.cpp:318-346 | by numbers of inodes alone: with w the smallest of the most common stamps, others survive if and only if w has fewer than 100 inodes or fewer than 100 times one more than some smaller stamp |
| `Inostamps.TableAfter` | src/inodescanner.cpp:318-331 | winner, its count, the runner-up and the guard when one inode of a stamp is counted once more, from the counts without it |
| `Inostamps.DecisionAfter` | src/inodescanner.cpp:332-332 | the filter decides the same exactly under a condition on these counts; otherwise the guard turns on for the repeated stamp, or off although another stamp is repeated |
| `Inostamps.FilterAfterReload` | src/inodescanner.cpp:175-197 | after a reload of post-scan.txt the same inodes survive if and only if there is one stamp only or the counts of the saved list meet that condition |
| `Inostamps.ReloadFlipsTheGuard` | src/inodescanner.cpp:175-197 | on every list of one inode of stamp 2 and 99 of stamp 1 in increasing sectors they do not |
| `ProgressFiles.PositionStream.Extract` | src/inodevector.cpp:216-218 | extraction from the stream: at the end it fails and the variable keeps its value, so the last position is delivered twice |
| `SavedLists.SaveThenLoad` | src/inodevector.cpp:176-236 | the saved positions of genuine inodes load as the same inodes |
| `SavedLists.LoadedIsGenuine` | src/inodevector.cpp:206-236 | what is loaded is what the device holds there, at the positions of the file |
| `SectorScan.SaneOffsetsExactly` | src/inodescanner.cpp:77-125 | the complete list holds a position exactly when it is a multiple of 512 in the range with a sane sector |
| `SectorScan.SaneOffsetsIncrease` | src/inodescanner.cpp:77-125 | the list increases by at least a sector from entry to entry, hence is free of duplicates |
| `SectorScan.RecordedJoins` | src/inodescanner.cpp:77-125 | chunks neither overlap nor leave gaps: two adjacent stretches are one |
| `SectorScan.PrefixResumes` | src/inodescanner.cpp:46-56 | for every nonempty prefix of the complete list, the scan behind its last entry yields exactly the rest |
| `InodeVectorObject.InodeVector.constructor` | src/inodevector.cpp:35-45 | either value of the uninitialised flag is correct over the empty map |
| `InodeVectorObject.InodeVector.AddInode` | src/inodevector.cpp:60-75 | appends, and keeps the flag exactly while the number is new, so that flag and map stay consistent |
| `InodeVectorObject.InodeVector.GenerateIndex` | src/inodevector.cpp:240-266 | the loop builds the specified index, so the vector stays valid with its flag set |
| `InodeVectorObject.IndexLeads` | src/inodevector.cpp:240-266 | and an index so built leads every number present, and no other, to its object created last |
| `InodeVectorObject.InodeVector.GetByDiNumber` | src/inodevector.cpp:35-45 | null exactly when no inode has the number; otherwise the object at a place such that all others of the number have fewer seconds, or as many and fewer nanoseconds, or the same time and stand later |
| `InodeVectorObject.InodeVector.GetInvalidatedByDiNumber` | src/inodevector.cpp:52-58 | every rejected inode of the number and no other, in order |
| `InodeVectorObject.InodeVector.RemoveMarked` | src/inodevector.cpp:125-135 | stable partition by the marks, the marked ones appended to the rejected inodes |
| `InodeVectorObject.InodeVector.RemoveUnmarked` | src/inodevector.cpp:151-161 | stable partition by the marks, the unmarked ones appended to the rejected inodes |
| `InodeVectorObject.InodeVector.RemoveDupes` | src/inodevector.cpp:163-174 | of every number exactly the object created last, by seconds, nanoseconds, then place, stays, the others are appended to the rejected list, both in order |
| `InodeVectorObject.BestAreCreatedLast` | src/inodevector.cpp:163-174 | the objects left are exactly those created last of their number, by seconds, nanoseconds, then place |
| `InodeVectorObject.InodeVector.SavePositions` | src/inodevector.cpp:176-204 | line k of the file is the position of kept object k, and line k of invalidated.txt that of rejected object k if there are any; no other file changes |
| `InodeVectorObject.SavedByFields` | src/inodevector.cpp:176-204 | line k of the checkpoint is the position of kept object k, line k of invalidated.txt that of rejected object k; without rejected ones invalidated.txt stays as it was |
| `InodeVectorObject.InodeVector.LoadFromPositions` | src/inodevector.cpp:206-236 | loads both lists with their last positions repeated, in fresh objects |
| `InodeVectorObject.IndexedIffBest` | src/inodevector.cpp:168-171 | an inode is in the index exactly when it is the best of its number |
| `InodeScannerObject.InodeScanner.Restore` | src/inodescanner.cpp:35-57 | starts at 0 with an empty file, or behind the last recorded position with all recorded inodes loaded, the last one twice |
| `InodeScannerObject.InodeScanner.ScanSectors` | src/inodescanner.cpp:80-99 | one chunk adds and records exactly its sane sectors |
| `InodeScannerObject.InodeScanner.DoScan` | src/inodescanner.cpp:61-137 | records exactly the sane sectors from its start to the end of the device, and exits exactly when nothing is left to read |
| `InodeScannerObject.InodeScanner.Scan` | src/inodescanner.cpp:139-232 | one process enters at the latest checkpoint and leaves memory and files as all remaining stages of the pipeline specify |
| `InodeScannerObject.InodeScanner.FilterInostamps` | src/inodescanner.cpp:306-346 | keeps exactly the inodes of the stamp filter, in order |
| `InodeScannerObject.MostCommon` | src/inodescanner.cpp:318-331 | the loop finds the smallest most common key, its count and the largest count of a smaller key |
| `InodeScannerObject.TableDecides` | src/inodescanner.cpp:332-346 | the guard on the counted table is the guard on the list |
| `InodeScannerObject.InodeScanner.RemoveUnallocated` | src/inodescanner.cpp:368-381 | keeps exactly the inodes with links, in order |
| `InodeScannerObject.InodeScanner.CountConsecutive` | src/inodescanner.cpp:251-273 | the two loops with their shared cut-off count to 32 exactly when the unbounded counts do, which `ForwardByFields` and `BackwardByFields` describe |
| `InodeScannerObject.InodeScanner.DetectInoExtents` | src/inodescanner.cpp:235-303 | keeps exactly the inodes of `ExtentMembers`, in order, wherever dinodes are freed |
| `Pipeline.NarrowConserves` | src/inodevector.cpp:125-161 | a removal stage conserves the multiset of kept and rejected inodes |
| `Pipeline.RunConserves` | src/inodescanner.cpp:196-218 | so does every run of the remaining stages from any entry point |
| `Pipeline.RepeatsDedupe` | src/inodescanner.cpp:155-162 | any number of repetitions of the last inode changes nothing that the last stage keeps |
| `Pipeline.RepeatsAllocated` | src/inodescanner.cpp:165-172 | the stage before it keeps a list with a repeated end such a list |
| `Restart.TraceKeeps` | src/inodescanner.cpp:139-232 | the invariant of every state reachable by starting, running and killing processes |
| `Restart.ResumableScan` | src/inodescanner.cpp:35-137 | in every reachable state inoscan.txt is a prefix of the full list of sane sectors, and complete once post-scan.txt exists |
| `Restart.RestartSafety` | src/inodescanner.cpp:139-232 | in every reachable state post-remove_dupes.txt holds what the last two stages make of post-extentscan.txt without interruption |
| `Restart.ExtentListIsFixed` | src/inodescanner.cpp:139-232 | post-extentscan.txt is never rewritten |
| `Restart.FinalListIsClean` | src/inodescanner.cpp:207-218 | every inode of the final list has a nonzero link count and comes from the extent stage |
| `Restart.FinalListIsDistinct` | src/inodescanner.cpp:207-218 | the numbers of the final list are pairwise distinct |
| `Restart.FinalListKeepsNumbers` | src/inodescanner.cpp:207-218 | its numbers are exactly those of the allocated inodes of the extent stage |
| `Restart.ProcessExtends` | src/inodescanner.cpp:143-232 | what a whole process leaves that enters behind a checkpoint is reachable in the transition system |
| `Restart.ScanningProcessExtends` | src/inodescanner.cpp:187-232 | so is what a whole process leaves that begins with the scan |
| `Restart.UninterruptedRun` | src/inodescanner.cpp:207-218 | the reference of the comparison: one process that runs both stages |
| `Restart.ReloadedLookup` | src/inodescanner.cpp:143-152 | after a reload of the final list every lookup by number finds the same position |
| `Restart.ResumedVector` | src/inodescanner.cpp:46-56 | a resumed scan leaves the full list with the inode it resumed behind repeated |
| `Restart.UninterruptedStage` | src/inodescanner.cpp:187-204 | without an interruption the stage works on the list of all sane sectors |
| `Restart.ResumedStageIff` | src/inodescanner.cpp:187-204 | in every run of the system the stage after the resumed scan keeps what it would have kept without the interruption if and only if resuming there is harmless |
| `ResumedScan.RunIsCut` | src/inodescanner.cpp:247-281 | that repetition cuts the run around it in two |
| `ResumedScan.OtherVerdictsStay` | src/inodescanner.cpp:247-281 | all other runs are judged as without the interruption |
| `ResumedScan.HarmlessCutIff` | src/inodescanner.cpp:247-281 | where a run can be cut, and moved to the head of its list, without changing a verdict of the detector |
| `ResumedScan.CutIsHarmlessIff` | src/inodescanner.cpp:247-281 | the detector alone judges the cut run as without the repetition if and only if the cut lies there |
| `StampRuns.LinkedOfStamp` | src/inodescanner.cpp:258-260 | among the inodes of one stamp, in scan order, exactly those are consecutive that were consecutive in the whole list |
| `StampRuns.StampRunIsMaximal` | src/inodescanner.cpp:247-281 | the runs the detector sees behind the stamp filter are the one-stamp stretches of the runs before it |
| `StampRuns.OfStampRepeat` | src/inodescanner.cpp:336-344 | the stamp filter hands a repeated inode on in its place, or not at all |
| `ResumedStage.SparedOnIff` | src/inodescanner.cpp:196-204 | when the repetition turns the guard on: which runs come out the same, exactly |
| `ResumedStage.SparedOffIff` | src/inodescanner.cpp:196-204 | when it turns the guard off: which runs come out the same, exactly |
| `ResumedStage.ResumeIsHarmlessIff` | src/inodescanner.cpp:187-204 | stamp filter and detector together keep the same inodes of the list with one inode repeated if and only if the counts keep the guard and the cut in the filtered list is spared, or the guard turns and every run is spared |
| `ReloadedStage.UnseenIff` | src/inodescanner.cpp:196-204 | on any list in order, inodes repeated or not, the detector keeps the same inodes with and without the stamp filter before it if and only if the filter is unseen in every run |
| `ReloadedStage.ReloadIsHarmlessIff` | src/inodescanner.cpp:175-204 | on any such list the stage keeps the same inodes with the last one repeated if and only if the counts keep the guard or the filter is unseen |
| `Interrupted.PostScanIsScanned` | src/inodescanner.cpp:175-191 | in every reachable state post-scan.txt is the list of all sane sectors, possibly with the one repeated behind which a scan resumed |
| `Interrupted.ReloadedStageIff` | src/inodescanner.cpp:175-204 | in every run of the system a process that starts from post-scan.txt keeps in its first stage what the stage keeps of the saved list if and only if the reload is harmless |
| `Interrupted.SurvivorIff` | src/inodescanner.cpp:207-218 | the last two stages leave exactly the allocated inodes that beat all others of their number by seconds, then nanoseconds, then the smaller position |
| `Interrupted.FinalListsAgreeIff` | src/inodescanner.cpp:207-218 | the final lists made of two lists have the same inodes if and only if whatever only one of the two has does not survive in it |
| `Interrupted.EndToEnd` | src/inodescanner.cpp:139-218 | in every reachable state post-remove_dupes.txt has the inodes that an uninterrupted process would leave if and only if the inodes that the filters lost or kept in excess do not survive |
| `Interrupted.HarmlessToTheEnd` | src/inodescanner.cpp:139-218 | so it does when scan and filters were not interrupted, or harmlessly by the conditions above |
| `Conservation.PositionsAreConserved` | src/inodescanner.cpp:139-218 | in every reachable state behind a scan, the positions in the latest checkpoint and in invalidated.txt together are exactly those of the sane sectors of the device |
| `Conservation.InodesAreConserved` | src/inodescanner.cpp:139-218 | and a process behind the scan, from its entry on, has kept and rejected together exactly the inodes of these sectors |
| `ResumedStage.ResumeLosesAGeneration` | src/inodescanner.cpp:187-204 | 32 inodes of one stamp before 99 of another: all are kept without the interruption, the 32 are lost when the scan is resumed behind the first of the 99 |
| `ResumedStage.InterruptedExtentIsLost` | src/inodescanner.cpp:187-204 | an extent of 32 in the filtered list, kept without the interruption, loses inodes exactly unless the scan stopped at its first or last inode |
| `Utf8.PrefixCode` | src/unicode_to_utf8.cpp:26-61 | no unit's encoding is a prefix of another's |
| `Utf8.EncByBits` | src/unicode_to_utf8.cpp:26-61 | the encoding: one, two or three bytes by range, marked as RFC 2279 has it, with the bits of the unit behind the marks |
| `Utf8.EncAllInjective` | src/unicode_to_utf8.cpp:63-88 | the encoding of strings is injective |
| `Utf8.EncodeCharacter` | src/unicode_to_utf8.cpp:36-61 | writes exactly the encoding of the unit and nothing else, or nothing and -1 when it does not fit |
| `Utf8.ToStdString` | src/unicode_to_utf8.cpp:89-123 | the result is the encoding of the units before the terminator that fit, units that do not fit being left out |
| `Utf8.NamesConvertWhole` | src/unicode_to_utf8.cpp:89-123 | names of at most 255 units are converted whole into NUL-free bytes, whatever follows the terminator |
| `Utf8.NameConversionInjective` | src/unicode_to_utf8.cpp:89-123 | distinct such names have distinct conversions |
| `Utf8.DecodeCharacter` | src/unicode_to_utf8.cpp:124-151 | a result of one to three bytes is the one unit whose encoding stands there, any other result means that none does: overlong forms are rejected |
| `Utf8.DecodeString` | src/unicode_to_utf8.cpp:153-178 | on an encoded string, unit k lands at the byte offset of its lead byte, and the result is the byte length |
| `Utf8.SpreadAt` | src/unicode_to_utf8.cpp:153-178 | unit k stands at the length of the encodings before it |
| `Utf8.SpreadElsewhere` | src/unicode_to_utf8.cpp:153-178 | every other place of the buffer keeps what it held |
| `Utf8.StringRoundTripIff` | src/unicode_to_utf8.cpp:153-178 | decoding inverts encoding exactly on 7-bit strings |
| `Direntry.UniStrncpy` | src/jfs_unicode.h:81-93 | writes exactly the text up to its terminator padded with zeros to len units, with the counter wrapping through zero |
| `Direntry.ChainDistinct` | src/dirinode.cpp:293-306 | whatever the slots hold, no slot is visited twice |
| `Direntry.ChainGoesOn` | src/dirinode.cpp:293-306 | on any slots the walk follows the next links and stops only where one ends, leaves the slots or leads to a visited slot |
| `Direntry.ChainTerminates` | src/dirinode.cpp:293-306 | so the walk visits at most as many slots as the page has |
| `Direntry.GetDirentry` | src/dirinode.cpp:268-323 | the entry is the one the chain determines, for some initial content of the uninitialised buffer; no write beyond the name, the terminator stays |
| `Direntry.ChainFollowsLinks` | src/dirinode.cpp:293-306 | on a well-formed chain the walk visits exactly its slots in order |
| `Direntry.StoredNameIsRead` | src/dirinode.cpp:268-323 | a name stored by the file system's layout is read back whole over NDTLEAF - 1 continuation slots, whatever the buffer held |
| `DirInodeNames.DtPage.Read` | src/dirinode.cpp:100-100 | the buffer holds the page at the offset, with its old end when the read is short, or stays as it was when the read throws |
| `DirInodeNames.NextLeaf` | src/dirinode.cpp:122-148 | delivers exactly the entries of the pages of the chain before its end, page by page, and throws exactly when the chain does not end properly |
| `DirInodeNames.Descend` | src/dirinode.cpp:82-120 | reads down to the leftmost leaf and delivers the chain from there, or nothing when an extent descriptor is insane |
| `DirInodeNames.ExtractInodeNames` | src/dirinode.cpp:196-266 | nothing for other formats, the root's entries for a leaf root, else what the descent delivers, exceptions included |
| `DirCycles.WalkEndsIff` | src/dirinode.cpp:122-148 | over pages read in full, a finite walk from a leaf exists if and only if no page offset comes twice along the sibling links |
| `DirCycles.DescentEndsIff` | src/dirinode.cpp:82-120 | over pages read in full, the descent ends if and only if no page offset comes twice along the leftmost children |
| `ParentGraph.StopsIff` | src/dirinode.cpp:82-148 | in a finite graph a chain of links ends if and only if it never comes to a node again |
| `DirTrees.LeftmostDescends` | src/dirinode.cpp:82-120 | in a tree of any height the descent reaches the first leaf in key order |
| `DirTrees.TreeRuns` | src/dirinode.cpp:82-148 | on every well-formed tree the extraction has a finite run |
| `DirTrees.OneRun` | src/dirinode.cpp:82-148 | the device determines the run |
| `DirTrees.TreeIsExtracted` | src/dirinode.cpp:196-253 | on every well-formed tree of any height and width the result is the in-order sequence of the leaves' entries |
| `DirTrees.RootIsListed` | src/dirinode.cpp:228-240 | from a leaf root come nextindex names, none if it is negative, and name i is the entry of the slot in table byte i |
| `DirTrees.TreeIsListed` | src/dirinode.cpp:122-148 | from a tree come as many names as the nextindex of its leaves add up to, and entry i of a leaf stands i behind the sum of those before it |
| `DirTrees.NamesListed` | src/dirinode.cpp:122-148 | so it is on any run of pages, damaged ones included |
| `DirTrees.DirectoryIsRead` | src/dirinode.cpp:196-253 | if the leaves store given names, exactly these come back, converted, in order and with their numbers |
| `DirTrees.CutRun` | src/dirinode.cpp:122-148 | with an unreadable leaf or one of index -1 behind the first k, exactly the first k leaves are delivered |
| `DirTrees.DamagedDirectoryRuns` | src/dirinode.cpp:82-148 | then the extraction terminates |
| `DirTrees.DamagedDirectoryIsCut` | src/dirinode.cpp:196-265 | and the directory's extraction returns exactly the entries of these leaves, a prefix of the full directory, never part of a page |
| `DirTrees.DamagedFirstLeaf` | src/dirinode.cpp:125-128 | when the first leaf is the one of index -1, the extraction returns nothing |
| `FileXtree.GetLeafXads` | src/fileinode.cpp:160-166 | appends the used entries of a leaf in order |
| `FileXtree.GetInternalXads` | src/fileinode.cpp:169-174 | appends the extents of all subtrees in order |
| `FileXtree.GetInternalXtpage` | src/fileinode.cpp:108-125 | appends the extents of the subtree of any height in order, none when its nextindex is at most 2 |
| `FileXtree.RootLists` | src/fileinode.cpp:108-174 | what is collected: entry e of a leaf stands e - 2 behind the sum of nextindex - 2 of the leaves before it, and nothing else is in the list |
| `FileXtree.ChildByFields` | src/fileinode.cpp:108-125 | the children of an internal page are the pages at the addresses of its entries from index 2 up to nextindex |
| `FileXtree.OneTree` | src/fileinode.cpp:108-125 | the device determines the tree |
| `OutputFile.OutFile.Write` | src/fileinode.cpp:88-98 | byte by byte, what a seek and a write leave of the file; an end of the data of at most the stream's buffer may stay there, none when the write begins and ends at whole buffers |
| `OutputFile.TailSurvives` | src/fileinode.cpp:230-234 | truncating the descriptor and then flushing that end leaves the bytes below the size and the end itself |
| `OutputFile.WholeBuffers` | src/fileinode.cpp:88-98 | what filling whole buffers means: a multiple of the buffer's size |
| `FileRecovery.WriteExtentToFile` | src/fileinode.cpp:79-106 | the chunked copy terminates, puts every byte of the extent (length modulo 2^32) that the device has in its place, changes no byte outside the extent, advances the progress by its blocks, and throws exactly when a chunk begins past the end of the device |
| `FileRecovery.CopiedByte` | src/fileinode.cpp:79-106 | in the fields alone: the copy puts device byte addr * blocksize + k at off * blocksize + k, for k below the length in bytes modulo 2^32 |
| `FileRecovery.ThrowsByFields` | src/fileinode.cpp:79-106 | copying throws if and only if the last 64 KiB chunk of some extent begins behind the end of the device |
| `FileRecovery.ThrownByte` | src/fileinode.cpp:226-228 | what is in the file then: the bytes of the extents before, and of the throwing one the chunks that begin on the device |
| `FileRecovery.FilesizeFromXadVector` | src/fileinode.cpp:285-291 | the sum of the copied lengths, without wrapping |
| `FileRecovery.TotalByFields` | src/fileinode.cpp:285-291 | each extent adds its length in bytes modulo 2^32 |
| `FileRecovery.WriteExtents` | src/fileinode.cpp:226-228 | the file before truncation: every byte from the last extent covering it, up to the first extent that throws; without a throw all progress steps add up to the announced total |
| `FileRecovery.SaveFile` | src/fileinode.cpp:177-259 | byte by byte in the fields of the extents: below di_size the device byte that the last extent holding p leads to, or zero; beyond di_size at most the end of the last write that was not flushed; without used entries the file is empty; the progress ends at its announced total |
| `FileRecovery.SavedByte` | src/fileinode.cpp:177-259 | in the fields alone: byte p below di_size is device byte addr * blocksize + p - off * blocksize of the last extent whose first length modulo 2^32 bytes hold p |
| `FileRecovery.SavedHole` | src/fileinode.cpp:177-259 | and 0 where no extent does |
| `FileSizes.SavedSizeIff` | src/fileinode.cpp:226-234 | every file that can be left has di_size bytes if and only if the last write ends at or before that size, or begins and ends at whole buffers of the stream |
| `FileSizes.LastWriteByFields` | src/fileinode.cpp:84-98 | the last write is the last 64 KiB chunk of the last extent of which anything is copied |
| `FileSizes.FileEndByFields` | src/fileinode.cpp:226-228 | before the truncation the file ends where the furthest copied extent does |
| `FileSizes.BlocksKeepTheSize` | src/fileinode.cpp:226-234 | if the stream's buffer divides the block size every saved file has di_size bytes |
| `FileSizes.SmallFileGrows` | src/fileinode.cpp:226-234 | a file of 100 bytes in one block of 512 can come out with 512 bytes behind a buffer of 4096 |
| `FileContents.LastExtentWins` | src/fileinode.cpp:226-228 | that mapping takes the last covering extent, and zero where none covers the byte |
| `FileContents.InDeviceNeverThrows` | src/fileinode.cpp:79-106 | extents inside the device are all copied |
| `FileContents.WrapLosesTheRest` | src/fileinode.cpp:84-95 | of disjoint extents exactly the first length modulo 2^32 bytes survive, the rest reads as zero |
| `FileContents.WholeIffWrapsBehind` | src/fileinode.cpp:84-95 | when zeros would show, the bytes of the file are what the extents describe if and only if every extent whose product wraps is copied as far as the file goes |
| `FileContents.WrapAtTheEnd` | src/fileinode.cpp:84-95 | an extent of 2^20 + 1 blocks of 4096 bytes wraps, and a file of it comes out right exactly up to 4096 bytes |
| `FileContents.XadsSane` | src/fileinode.cpp:294-325 | true exactly when addresses never decrease, the total fits the size plus one block in unsigned 64 bits, and no extent reaches into a later one |
| `FileContents.NeighboursSuffice` | src/fileinode.cpp:316-323 | the quadratic test decides no more than comparing neighbours |
| `FileContents.AnyOrderMaps` | src/fileinode.cpp:226-228 | sane extents map the same bytes in any order |
| `FileContents.AnyOrder` | src/fileinode.cpp:226-230 | so files written in any order are the same up to their size |

## Left out

- `InodeScannerObject.InodeScanner.DoScan`: a device smaller than one chunk is excluded, because the unsigned difference in the loop wraps and the rest of the chunk buffer is uninitialised.
- `InodeScannerObject.InodeScanner.Restore`: recorded positions must hold an inode that is classified, because the program adds a null pointer for any other and dereferences it; a scan records no other.
- `InodeVectorObject.InodeVector.LoadFromPositions`: the same, and nonempty lists, because the program reads an unset position from an empty one.
- `InodeScannerObject.InodeScanner.Scan`: a process starts on such lists only.
- `Restart.RestartSafety`: a process that dies leaves whole checkpoint files and whole lines of `inoscan.txt`; two processes at once are not modelled.
- `Restart.ResumableScan`: a process that dies before its first flush leaves an empty `inoscan.txt`, from which the program reads an unset position; such a death is excluded.
- `InodeVectorObject.InodeVector.SavePositions`: a checkpoint and the `invalidated.txt` beside it are written in one step; a death between the two is not modelled.
- `OutputFile.OutFile.Write`: which end of the data a library keeps in its buffer is left open, except that whole buffers at whole buffers are taken to be written through.
- `SavedLists.SaveThenLoad`: positions are numbers in a list; their decimal text in the file is not modelled.
- `DirInodeNames.Descend`: pages on the way down are required to be read whole, because a short read leaves uninitialised bytes in the page.
- `DirInodeNames.NextLeaf`: a finite chain is required, because the program has no cycle check and does not terminate on an endless one; `WalkEndsIff` says when it is finite.
- `DirInodeNames.ExtractInodeNames`: both requirements, for the same reasons.
- `FileXtree.GetInternalXtpage`: a finite tree of pages read whole is required, because a cycle does not terminate, a short read leaves uninitialised bytes, and a throw leaves a function whose exception specification forbids it and ends the program.
- `FileXtree.GetInternalXads`: the same.
- `FileRecovery.WriteExtentToFile`: bytes past the end of the device are written with what the static buffer held; which bytes these are is not stated.
- `src/device.cpp` beyond `read_bytes`: opening, the size of the device and formatting of sizes.
- Memory outside a node or slot array: table indices, `stblindex` and `nextindex` are required to stay inside. A full page needs no such requirement for its slots.
- Vectors of 2^32 or more inodes or extents, where the loop counters wrap.
- `Recoverer`: assignment of parents and names, the priority queue, creation of directories, timestamps. `recoverer.cpp` is not part of this model.
- The other subclasses of `Inode`, and `get_full_path`, which recurses without end on a cycle of parents longer than one.
- Options, printing, progress bars as shown, `display_hex`, `UniToupper`, the shell script and the build files.
