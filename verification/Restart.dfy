/** What holds in every reachable state of the checkpointed pipeline, however often it is killed and restarted. */
module Restart {
  import opened Bytes
  import opened Wrappers
  import opened InodeFactory
  import opened Selection
  import opened Stages
  import opened Inostamps
  import opened ProgressFiles
  import opened SavedLists
  import opened SectorScan
  import opened ResumedScan
  import opened ResumedStage
  import opened Pipeline

  // ---------------------------------------------------------------- the scan file

  /** The list of an uninterrupted scan. */
  function AllSane(dev: seq<Byte>): seq<nat> {
    SaneOffsets(dev, 0, |dev| / INODE_SIZE)
  }

  ghost predicate ScanInv(dev: seq<Byte>, files: Files) {
    && (InoScan in files ==> files[InoScan] <= AllSane(dev))
    && (PostScan in files ==> InoScan in files && files[InoScan] == AllSane(dev))
  }

  lemma ResumedList(dev: seq<Byte>, files: Files)
    requires ScanInv(dev, files) && (InoScan in files ==> files[InoScan] != [])
    ensures var lines := if InoScan in files then files[InoScan] else [];
      && StartSector(files) <= |dev| / INODE_SIZE
      && lines + SaneOffsets(dev, StartSector(files), |dev| / INODE_SIZE) == AllSane(dev)
  {
    if InoScan in files {
      PrefixResumes(dev, files[InoScan]);
    }
  }

  lemma CompletedList(dev: seq<Byte>, s: System, t: System)
    requires ScanInv(dev, s.files) && ScanCompletes(dev, s, t)
    ensures InoScan in t.files && t.files[InoScan] == AllSane(dev)
  {
    ResumedList(dev, s.files);
    var kept, dropped := t.run.value.mem.kept, t.run.value.mem.dropped;
    var files :| ScanDone(dev, s.files, s.run.value.mem.kept, files, kept)
      && t.files == Saved(files, PostScan, kept, dropped);
    assert files[InoScan] == AllSane(dev);
  }

  lemma CutList(dev: seq<Byte>, s: System, t: System)
    requires ScanInv(dev, s.files) && ScanIsCut(dev, s, t)
    ensures InoScan in t.files && t.files[InoScan] <= AllSane(dev)
    ensures InoScan in s.files && s.files[InoScan] == AllSane(dev) ==> t.files[InoScan] == AllSane(dev)
  {
    ResumedList(dev, s.files);
    var lines := if InoScan in s.files then s.files[InoScan] else [];
    var rest := SaneOffsets(dev, StartSector(s.files), |dev| / INODE_SIZE);
    var n :| 0 <= n <= |rest| && lines + rest[..n] != [] && t.files == s.files[InoScan := lines + rest[..n]];
    assert lines + rest[..n] == (lines + rest)[..|lines| + n];
  }

  lemma ScanInvStep(dev: seq<Byte>, chunkBytes: nat, s: System, t: System)
    requires ScanInv(dev, s.files) && Next(dev, chunkBytes, s, t)
    ensures ScanInv(dev, t.files)
  {
    if ScanCompletes(dev, s, t) {
      CompletedList(dev, s, t);
    } else if ScanIsCut(dev, s, t) {
      CutList(dev, s, t);
    }
  }

  // ---------------------------------------------------------------- inodes in memory and in files

  ghost predicate GenuineInv(dev: seq<Byte>, s: System) {
    && (forall f :: f in s.files ==> Loadable(dev, s.files[f]))
    && (s.run.Some? ==> Genuine(dev, s.run.value.mem.kept) && Genuine(dev, s.run.value.mem.dropped))
  }

  lemma NarrowGenuine(dev: seq<Byte>, m: Memory, mask: seq<bool>)
    requires |mask| == |m.kept| && Genuine(dev, m.kept) && Genuine(dev, m.dropped)
    ensures Genuine(dev, Narrow(m, mask).kept) && Genuine(dev, Narrow(m, mask).dropped)
  {
    PickKeepsOrder(m.kept, mask);
    PickKeepsOrder(m.kept, Complement(mask));
  }

  lemma SavedLoadable(dev: seq<Byte>, files: Files, f: File, kept: seq<Ino>, dropped: seq<Ino>)
    requires forall g :: g in files ==> Loadable(dev, files[g])
    requires Genuine(dev, kept) && Genuine(dev, dropped)
    ensures forall g :: g in Saved(files, f, kept, dropped) ==> Loadable(dev, Saved(files, f, kept, dropped)[g])
  {
    SaveThenLoad(dev, kept);
    SaveThenLoad(dev, dropped);
  }

  lemma AdvanceGenuine(dev: seq<Byte>, files: Files, p: Process)
    requires GenuineInv(dev, System(files, Some(p))) && p.stage != ScanStage && p.stage != DoneStage
    ensures GenuineInv(dev, Advance(files, p))
  {
    var m := p.mem;
    match p.stage {
      case FilterStage =>
        NarrowGenuine(dev, m, StampMask(m.kept));
        NarrowGenuine(dev, AfterFilter(m), ExtentMask(AfterFilter(m).kept));
      case UnallocatedStage => NarrowGenuine(dev, m, AllocatedMask(m.kept));
      case DupesStage => NarrowGenuine(dev, m, BestMask(m.kept));
    }
    var r := RunStage(p.stage, m);
    SavedLoadable(dev, files, EntryFile(NextStage(p.stage)), r.kept, r.dropped);
  }

  lemma ScanGenuine(dev: seq<Byte>, files: Files, xs: seq<Ino>, files': Files, xs': seq<Ino>)
    requires forall f :: f in files ==> Loadable(dev, files[f])
    requires Genuine(dev, xs) && StartSector(files) <= |dev| / INODE_SIZE
    requires InoScan in files ==> files[InoScan] != []
    requires ScanDone(dev, files, xs, files', xs')
    ensures Genuine(dev, xs') && forall f :: f in files' ==> Loadable(dev, files'[f])
  {
    var found := SaneOffsets(dev, StartSector(files), |dev| / INODE_SIZE);
    var lines := if InoScan in files then files[InoScan] else [];
    InosAtConcat(dev, lines, found);
    LoadedIsGenuine(dev, found);
    if InoScan in files {
      LoadedIsGenuine(dev, Reread(lines));
    }
    forall f | f in files' ensures Loadable(dev, files'[f]) {
      if f != InoScan {
        assert f in files' - {InoScan} && f in files;
        assert files'[f] == (files' - {InoScan})[f] == files[f];
      }
    }
  }

  lemma GenuineInvStep(dev: seq<Byte>, chunkBytes: nat, s: System, t: System)
    requires ScanInv(dev, s.files) && GenuineInv(dev, s) && Next(dev, chunkBytes, s, t)
    ensures GenuineInv(dev, t)
  {
    if Starts(dev, chunkBytes, s, t) {
      var stage := EntryStage(s.files);
      if stage != ScanStage {
        LoadedIsGenuine(dev, Reread(s.files[EntryFile(stage)]));
        if Invalidated in s.files {
          LoadedIsGenuine(dev, Reread(s.files[Invalidated]));
        }
      }
    } else if ScanCompletes(dev, s, t) {
      var kept, dropped := t.run.value.mem.kept, t.run.value.mem.dropped;
      var files :| ScanDone(dev, s.files, s.run.value.mem.kept, files, kept)
        && t.files == Saved(files, PostScan, kept, dropped);
      ScanGenuine(dev, s.files, s.run.value.mem.kept, files, kept);
      SavedLoadable(dev, files, PostScan, kept, dropped);
    } else if ScanIsCut(dev, s, t) {
      var lines := if InoScan in s.files then s.files[InoScan] else [];
      var rest := SaneOffsets(dev, StartSector(s.files), |dev| / INODE_SIZE);
      var n :| 0 <= n <= |rest| && lines + rest[..n] != [] && t.files == s.files[InoScan := lines + rest[..n]];
      assert Loadable(dev, rest[..n]);
      InosAtConcat(dev, lines, rest[..n]);
    } else if s.run.Some? && s.run.value.stage !in {ScanStage, DoneStage} && t == Advance(s.files, s.run.value) {
      AdvanceGenuine(dev, s.files, s.run.value);
    }
  }

  // ---------------------------------------------------------------- the checkpoints

  /** The inodes that the extent stage left, as post-extentscan.txt records them. */
  function ExtentList(dev: seq<Byte>, files: Files): seq<Ino>
    requires PostExtentScan in files && Loadable(dev, files[PostExtentScan])
  {
    InosAt(dev, files[PostExtentScan])
  }

  /** What the remaining two stages make of that list when nothing interrupts them. */
  ghost function FinalList(dev: seq<Byte>, files: Files): seq<Ino>
    requires PostExtentScan in files && Loadable(dev, files[PostExtentScan])
  {
    Dedupe(Allocated(ExtentList(dev, files)))
  }

  ghost predicate CheckpointInv(dev: seq<Byte>, s: System)
    requires GenuineInv(dev, s)
  {
    && (PostRemoveUnallocated in s.files ==> PostExtentScan in s.files)
    && (PostRemoveUnallocated in s.files ==>
        Repeats(Allocated(ExtentList(dev, s.files)), InosAt(dev, s.files[PostRemoveUnallocated])))
    && (PostRemoveDupes in s.files ==> PostExtentScan in s.files)
    && (PostRemoveDupes in s.files ==> s.files[PostRemoveDupes] == Offsets(FinalList(dev, s.files)))
    && (s.run.Some? ==> match s.run.value.stage
        case ScanStage => EarlyOnly(s.files) && PostScan !in s.files
        case FilterStage => EarlyOnly(s.files)
        case UnallocatedStage => PostExtentScan in s.files && Repeats(ExtentList(dev, s.files), s.run.value.mem.kept)
        case DupesStage => PostExtentScan in s.files
          && Repeats(Allocated(ExtentList(dev, s.files)), s.run.value.mem.kept)
        case DoneStage => true)
  }

  predicate EarlyOnly(files: Files) {
    PostExtentScan !in files && PostRemoveUnallocated !in files && PostRemoveDupes !in files
  }

  lemma InosAtReread(dev: seq<Byte>, lines: seq<nat>)
    requires lines != [] && Loadable(dev, lines)
    ensures var xs := InosAt(dev, lines); InosAt(dev, Reread(lines)) == xs + [xs[|xs| - 1]]
  {
    InosAtConcat(dev, lines, [lines[|lines| - 1]]);
  }

  lemma BootRepeats(dev: seq<Byte>, files: Files)
    requires GenuineInv(dev, System(files, None)) && CheckpointInv(dev, System(files, None))
    requires EntryStage(files) == UnallocatedStage || EntryStage(files) == DupesStage
    requires ListLoadable(dev, files, EntryFile(EntryStage(files))) && ListLoadable(dev, files, Invalidated)
    ensures EntryStage(files) == UnallocatedStage ==> Repeats(ExtentList(dev, files), Boot(dev, files).kept)
    ensures EntryStage(files) == DupesStage ==> Repeats(Allocated(ExtentList(dev, files)), Boot(dev, files).kept)
  {
    if EntryStage(files) == DupesStage {
      RereadRepeats(dev, Allocated(ExtentList(dev, files)), files[PostRemoveUnallocated]);
    } else {
      RereadRepeats(dev, ExtentList(dev, files), files[PostExtentScan]);
    }
  }

  /** Reading a list that stands for xs, its end repeated or not, repeats the end once more. */
  lemma RereadRepeats(dev: seq<Byte>, xs: seq<Ino>, lines: seq<nat>)
    requires lines != [] && Loadable(dev, lines) && Repeats(xs, InosAt(dev, lines))
    ensures Loadable(dev, Reread(lines)) && Repeats(xs, InosAt(dev, Reread(lines)))
  {
    InosAtReread(dev, lines);
    RepeatsReread(xs, InosAt(dev, lines));
  }

  lemma StartsCheckpoint(dev: seq<Byte>, chunkBytes: nat, s: System, t: System)
    requires GenuineInv(dev, s) && GenuineInv(dev, t) && CheckpointInv(dev, s) && Starts(dev, chunkBytes, s, t)
    ensures CheckpointInv(dev, t)
  {
    assert s == System(s.files, None);
    if EntryStage(s.files) == UnallocatedStage || EntryStage(s.files) == DupesStage {
      BootRepeats(dev, s.files);
    }
  }

  lemma AdvanceCheckpoint(dev: seq<Byte>, files: Files, p: Process)
    requires p.stage != ScanStage && p.stage != DoneStage
    requires GenuineInv(dev, System(files, Some(p))) && CheckpointInv(dev, System(files, Some(p)))
    requires GenuineInv(dev, Advance(files, p))
    ensures CheckpointInv(dev, Advance(files, p))
  {
    var t := Advance(files, p);
    SaveThenLoad(dev, t.run.value.mem.kept);
    match p.stage {
      case FilterStage =>
      case UnallocatedStage =>
        RepeatsAllocated(ExtentList(dev, files), p.mem.kept);
      case DupesStage =>
        RepeatsDedupe(Allocated(ExtentList(dev, files)), p.mem.kept);
    }
  }

  lemma ScanCheckpoint(dev: seq<Byte>, s: System, t: System)
    requires GenuineInv(dev, s) && GenuineInv(dev, t) && CheckpointInv(dev, s)
    requires ScanCompletes(dev, s, t) || ScanIsCut(dev, s, t)
    ensures CheckpointInv(dev, t)
  {
    if ScanCompletes(dev, s, t) {
      var kept, dropped := t.run.value.mem.kept, t.run.value.mem.dropped;
      var files :| ScanDone(dev, s.files, s.run.value.mem.kept, files, kept)
        && t.files == Saved(files, PostScan, kept, dropped);
      forall f | f != InoScan && f != PostScan && f != Invalidated ensures f in t.files <==> f in s.files {
        assert f in files - {InoScan} <==> f in s.files - {InoScan};
      }
    }
  }

  lemma CheckpointInvStep(dev: seq<Byte>, chunkBytes: nat, s: System, t: System)
    requires GenuineInv(dev, s) && GenuineInv(dev, t) && CheckpointInv(dev, s) && Next(dev, chunkBytes, s, t)
    ensures CheckpointInv(dev, t)
  {
    if Starts(dev, chunkBytes, s, t) {
      StartsCheckpoint(dev, chunkBytes, s, t);
    } else if ScanCompletes(dev, s, t) || ScanIsCut(dev, s, t) {
      ScanCheckpoint(dev, s, t);
    } else if s.run.Some? && s.run.value.stage !in {ScanStage, DoneStage} && t == Advance(s.files, s.run.value) {
      AdvanceCheckpoint(dev, s.files, s.run.value);
    }
  }

  lemma {:induction false} TraceKeeps(dev: seq<Byte>, chunkBytes: nat, trace: seq<System>, i: nat)
    requires IsTrace(dev, chunkBytes, trace) && i < |trace|
    ensures ScanInv(dev, trace[i].files) && GenuineInv(dev, trace[i]) && CheckpointInv(dev, trace[i])
  {
    if i > 0 {
      TraceKeeps(dev, chunkBytes, trace, i - 1);
      assert Next(dev, chunkBytes, trace[i - 1], trace[i - 1 + 1]);
      ScanInvStep(dev, chunkBytes, trace[i - 1], trace[i]);
      GenuineInvStep(dev, chunkBytes, trace[i - 1], trace[i]);
      CheckpointInvStep(dev, chunkBytes, trace[i - 1], trace[i]);
    }
  }

  // ---------------------------------------------------------------- the main results

  /**
   * Resumable scan: in every reachable state inoscan.txt is a prefix of the list of all sane sectors of the device,
   * and it is that whole list as soon as post-scan.txt exists.
   */
  lemma ResumableScan(dev: seq<Byte>, chunkBytes: nat, trace: seq<System>, i: nat)
    requires IsTrace(dev, chunkBytes, trace) && i < |trace|
    ensures InoScan in trace[i].files ==> trace[i].files[InoScan] <= AllSane(dev)
    ensures PostScan in trace[i].files ==> InoScan in trace[i].files && trace[i].files[InoScan] == AllSane(dev)
  {
    TraceKeeps(dev, chunkBytes, trace, i);
  }

  /**
   * Restart safety: whatever processes were killed and started since post-extentscan.txt was written, the list in
   * post-remove_dupes.txt is the one that the last two stages make of it without any interruption.
   */
  lemma RestartSafety(dev: seq<Byte>, chunkBytes: nat, trace: seq<System>, i: nat)
    requires IsTrace(dev, chunkBytes, trace) && i < |trace| && PostRemoveDupes in trace[i].files
    ensures PostExtentScan in trace[i].files && Loadable(dev, trace[i].files[PostExtentScan])
    ensures trace[i].files[PostRemoveDupes] == Offsets(FinalList(dev, trace[i].files))
  {
    TraceKeeps(dev, chunkBytes, trace, i);
  }

  lemma ExtentListStep(dev: seq<Byte>, chunkBytes: nat, trace: seq<System>, k: nat)
    requires IsTrace(dev, chunkBytes, trace) && k + 1 < |trace| && PostExtentScan in trace[k].files
    ensures PostExtentScan in trace[k + 1].files && trace[k + 1].files[PostExtentScan] == trace[k].files[PostExtentScan]
  {
    TraceKeeps(dev, chunkBytes, trace, k);
    ExtentListStays(dev, chunkBytes, trace[k], trace[k + 1]);
  }

  /** Once written, post-extentscan.txt is never rewritten. */
  lemma {:induction false} ExtentListIsFixed(dev: seq<Byte>, chunkBytes: nat, trace: seq<System>, i: nat, j: nat)
    requires IsTrace(dev, chunkBytes, trace) && i <= j < |trace| && PostExtentScan in trace[i].files
    ensures PostExtentScan in trace[j].files && trace[j].files[PostExtentScan] == trace[i].files[PostExtentScan]
  {
    if i < j {
      ExtentListIsFixed(dev, chunkBytes, trace, i, j - 1);
      ExtentListStep(dev, chunkBytes, trace, j - 1);
    }
  }

  lemma ExtentListStays(dev: seq<Byte>, chunkBytes: nat, s: System, t: System)
    requires GenuineInv(dev, s) && CheckpointInv(dev, s) && PostExtentScan in s.files && Next(dev, chunkBytes, s, t)
    ensures PostExtentScan in t.files && t.files[PostExtentScan] == s.files[PostExtentScan]
  {
    assert s.run.Some? ==> s.run.value.stage != ScanStage && s.run.value.stage != FilterStage;
  }

  /** Every survivor has at least one link and was kept by the extent stage. */
  lemma FinalListIsClean(dev: seq<Byte>, files: Files, i: nat)
    requires PostExtentScan in files && Loadable(dev, files[PostExtentScan]) && i < |FinalList(dev, files)|
    ensures FinalList(dev, files)[i].din.nlink != 0 && FinalList(dev, files)[i] in ExtentList(dev, files)
  {
    var xs := ExtentList(dev, files);
    var us, x := Allocated(xs), FinalList(dev, files)[i];
    PickMembers(us, BestMask(us), x);
    PickMembers(xs, AllocatedMask(xs), x);
  }

  /** Survivors have pairwise distinct numbers. */
  lemma FinalListIsDistinct(dev: seq<Byte>, files: Files, i: nat, j: nat)
    requires PostExtentScan in files && Loadable(dev, files[PostExtentScan]) && i < j < |FinalList(dev, files)|
    ensures FinalList(dev, files)[i].din.number != FinalList(dev, files)[j].din.number
  {
    DedupeDistinct(Allocated(ExtentList(dev, files)), i, j);
  }

  /** No number of an allocated inode of the extent stage is lost. */
  lemma FinalListKeepsNumbers(dev: seq<Byte>, files: Files, d: nat)
    requires PostExtentScan in files && Loadable(dev, files[PostExtentScan])
    ensures HasNumber(FinalList(dev, files), d) <==> HasNumber(Allocated(ExtentList(dev, files)), d)
  {
    var us := Allocated(ExtentList(dev, files));
    var final := Dedupe(us);
    IndexIsBest(us, d);
    if HasNumber(us, d) {
      var i := IndexOf(us)[d];
      DedupeKeepsBest(us, i);
      var j :| 0 <= j < |final| && final[j] == us[i];
    }
    if HasNumber(final, d) {
      var j :| 0 <= j < |final| && final[j].din.number == d;
      PickMembers(us, BestMask(us), final[j]);
    }
  }

  // ---------------------------------------------------------------- whole processes in the transition system

  lemma StepExtends(dev: seq<Byte>, chunkBytes: nat, trace: seq<System>, t: System)
    requires IsTrace(dev, chunkBytes, trace) && Next(dev, chunkBytes, trace[|trace| - 1], t)
    ensures IsTrace(dev, chunkBytes, trace + [t])
  {
    var longer := trace + [t];
    forall i | 0 <= i < |longer| - 1 ensures Next(dev, chunkBytes, longer[i], longer[i + 1]) {
      if i < |trace| - 1 {
        assert longer[i] == trace[i] && longer[i + 1] == trace[i + 1];
      }
    }
  }

  /** A process that has left the scan behind can run to its end: all its stages are steps of the system. */
  lemma {:induction false} CompleteExtends(dev: seq<Byte>, chunkBytes: nat, trace: seq<System>)
    returns (longer: seq<System>)
    requires IsTrace(dev, chunkBytes, trace)
    requires var s := trace[|trace| - 1]; s.run.Some? && s.run.value.stage != ScanStage
    ensures trace <= longer && IsTrace(dev, chunkBytes, longer)
    ensures var s := trace[|trace| - 1]; longer[|longer| - 1] == Complete(s.files, s.run.value)
    decreases match trace[|trace| - 1].run.value.stage
      case FilterStage => 3 case UnallocatedStage => 2 case DupesStage => 1 case _ => 0
  {
    var s := trace[|trace| - 1];
    longer := trace;
    if s.run.value.stage != DoneStage {
      var next := trace + [Advance(s.files, s.run.value)];
      AdvanceExtends(dev, chunkBytes, trace);
      longer := CompleteExtends(dev, chunkBytes, next);
    }
  }

  lemma AdvanceExtends(dev: seq<Byte>, chunkBytes: nat, trace: seq<System>)
    requires IsTrace(dev, chunkBytes, trace)
    requires var s := trace[|trace| - 1]; s.run.Some? && s.run.value.stage !in {ScanStage, DoneStage}
    ensures var s := trace[|trace| - 1];
      var t := Advance(s.files, s.run.value);
      && IsTrace(dev, chunkBytes, trace + [t]) && t.run.Some? && t.run.value.stage == NextStage(s.run.value.stage)
      && Complete(s.files, s.run.value) == Complete(t.files, t.run.value)
  {
    var s := trace[|trace| - 1];
    StepExtends(dev, chunkBytes, trace, Advance(s.files, s.run.value));
  }

  /** What one whole process leaves that enters behind a checkpoint is reachable. */
  lemma ProcessExtends(dev: seq<Byte>, chunkBytes: nat, trace: seq<System>) returns (longer: seq<System>)
    requires IsTrace(dev, chunkBytes, trace)
    requires var s := trace[|trace| - 1];
      s.run.None? && Bootable(dev, chunkBytes, s.files) && EntryStage(s.files) != ScanStage
    ensures trace <= longer && IsTrace(dev, chunkBytes, longer)
    ensures var files := trace[|trace| - 1].files;
      longer[|longer| - 1] == Complete(files, Process(EntryStage(files), Boot(dev, files)))
  {
    var s := trace[|trace| - 1];
    var t := s.(run := Some(Process(EntryStage(s.files), Boot(dev, s.files))));
    StepExtends(dev, chunkBytes, trace, t);
    longer := CompleteExtends(dev, chunkBytes, trace + [t]);
  }

  /** And so is what a whole process leaves that begins with the scan. */
  lemma ScanningProcessExtends(dev: seq<Byte>, chunkBytes: nat, trace: seq<System>, files: Files, kept: seq<Ino>)
    returns (longer: seq<System>)
    requires IsTrace(dev, chunkBytes, trace)
    requires var s := trace[|trace| - 1];
      && s.run.None? && Bootable(dev, chunkBytes, s.files) && EntryStage(s.files) == ScanStage
      && StartSector(s.files) * INODE_SIZE < |dev| && ScanDone(dev, s.files, [], files, kept)
    ensures trace <= longer && IsTrace(dev, chunkBytes, longer)
    ensures longer[|longer| - 1] == Complete(Saved(files, PostScan, kept, []), Process(FilterStage, Memory(kept, [])))
  {
    var s := trace[|trace| - 1];
    var t := s.(run := Some(Process(ScanStage, Memory([], []))));
    var u := System(Saved(files, PostScan, kept, []), Some(Process(FilterStage, Memory(kept, []))));
    StepExtends(dev, chunkBytes, trace, t);
    assert ScanCompletes(dev, t, u);
    StepExtends(dev, chunkBytes, trace + [t], u);
    longer := CompleteExtends(dev, chunkBytes, trace + [t] + [u]);
  }

  /** The same two stages run to their end by one process: the result that RestartSafety compares with. */
  lemma UninterruptedRun(files: Files, m: Memory)
    ensures var s := Complete(files, Process(UnallocatedStage, m));
      && s.run.value.mem.kept == Dedupe(Allocated(m.kept))
      && PostRemoveDupes in s.files && s.files[PostRemoveDupes] == Offsets(Dedupe(Allocated(m.kept)))
  {
    var s := Advance(files, Process(UnallocatedStage, m));
    var t := Advance(s.files, s.run.value);
    assert Complete(t.files, t.run.value) == t;
    assert Complete(s.files, s.run.value) == t;
  }

  /**
   * A process that finds post-remove_dupes.txt loads its last inode twice; every lookup by number still finds the
   * same position as in the final list.
   */
  lemma ReloadedLookup(dev: seq<Byte>, chunkBytes: nat, trace: seq<System>, i: nat)
    requires IsTrace(dev, chunkBytes, trace) && i < |trace| && PostRemoveDupes in trace[i].files
    requires Bootable(dev, chunkBytes, trace[i].files) && PostExtentScan in trace[i].files
    requires Loadable(dev, trace[i].files[PostExtentScan])
    ensures IndexOf(Boot(dev, trace[i].files).kept) == IndexOf(FinalList(dev, trace[i].files))
  {
    TraceKeeps(dev, chunkBytes, trace, i);
    var lines, final := trace[i].files[PostRemoveDupes], FinalList(dev, trace[i].files);
    FinalGenuine(dev, trace[i].files);
    SaveThenLoad(dev, final);
    InosAtReread(dev, lines);
    IndexAbsorbs(final, final[|final| - 1]);
  }

  lemma FinalGenuine(dev: seq<Byte>, files: Files)
    requires PostExtentScan in files && Loadable(dev, files[PostExtentScan])
    ensures Genuine(dev, FinalList(dev, files))
  {
    var xs := ExtentList(dev, files);
    LoadedIsGenuine(dev, files[PostExtentScan]);
    NarrowGenuine(dev, Memory(xs, []), AllocatedMask(xs));
    NarrowGenuine(dev, Memory(Allocated(xs), []), BestMask(Allocated(xs)));
  }

  /** A resumed scan fills the vector with the full list in which the inode it resumed behind is repeated. */
  lemma ResumedVector(dev: seq<Byte>, s: System, t: System)
    requires ScanInv(dev, s.files) && ScanCompletes(dev, s, t) && InoScan in s.files && s.run.value.mem.kept == []
    ensures s.files[InoScan] != [] && |s.files[InoScan]| <= |AllSane(dev)|
    ensures t.run.value.mem.kept == RepeatAt(InosAt(dev, AllSane(dev)), |s.files[InoScan]| - 1)
  {
    ResumedList(dev, s.files);
    var lines, rest := s.files[InoScan], SaneOffsets(dev, StartSector(s.files), |dev| / INODE_SIZE);
    var kept := t.run.value.mem.kept;
    var files :| ScanDone(dev, s.files, [], files, kept)
      && t.files == Saved(files, PostScan, kept, t.run.value.mem.dropped);
    assert kept == [] + InosAt(dev, Reread(lines)) + InosAt(dev, rest);
    RepeatOfConcat(dev, lines, rest);
  }

  /** The inodes of the full list are in scan order. */
  lemma ScannedInOrder(dev: seq<Byte>)
    ensures InScanOrder(InosAt(dev, AllSane(dev)))
  {
    var lines := AllSane(dev);
    var xs := InosAt(dev, lines);
    LoadedIsGenuine(dev, lines);
    forall i, j | 0 <= i < j < |xs| ensures xs[i].offset + 512 <= xs[j].offset {
      SaneOffsetsIncrease(dev, 0, |dev| / INODE_SIZE, i, j);
      assert xs[i].offset == Offsets(xs)[i] && xs[j].offset == Offsets(xs)[j];
    }
  }

  /** A process begins its scan with nothing in memory. */
  lemma {:induction false} ScanBeginsEmpty(dev: seq<Byte>, chunkBytes: nat, trace: seq<System>, i: nat)
    requires IsTrace(dev, chunkBytes, trace) && i < |trace|
    ensures var run := trace[i].run; run.Some? && run.value.stage == ScanStage ==> run.value.mem == Memory([], [])
  {
    if i > 0 {
      ScanBeginsEmpty(dev, chunkBytes, trace, i - 1);
      assert Next(dev, chunkBytes, trace[i - 1], trace[i - 1 + 1]);
    }
  }

  /**
   * When in any run of the system a scan was interrupted and has been resumed, the next stage keeps the inodes it would
   * have kept without the interruption if and only if resuming there is harmless.
   */
  lemma ResumedStageIff(dev: seq<Byte>, chunkBytes: nat, trace: seq<System>, i: nat)
    requires IsTrace(dev, chunkBytes, trace) && i + 1 < |trace|
    requires ScanCompletes(dev, trace[i], trace[i + 1]) && InoScan in trace[i].files
    ensures var xs, k := InosAt(dev, AllSane(dev)), |trace[i].files[InoScan]| - 1;
      && 0 <= k < |xs| && trace[i + 1].run.value.stage == FilterStage
      && (SameMembers(RunStage(FilterStage, trace[i + 1].run.value.mem).kept, StageKeeps(xs))
          <==> HarmlessResume(xs, k))
  {
    TraceKeeps(dev, chunkBytes, trace, i);
    ScanBeginsEmpty(dev, chunkBytes, trace, i);
    ResumedVector(dev, trace[i], trace[i + 1]);
    ScannedInOrder(dev);
    ResumeIsHarmlessIff(InosAt(dev, AllSane(dev)), |trace[i].files[InoScan]| - 1);
  }

  /** Without an interruption the stage works on the full list itself. */
  lemma UninterruptedStage(dev: seq<Byte>, chunkBytes: nat, trace: seq<System>, i: nat)
    requires IsTrace(dev, chunkBytes, trace) && i + 1 < |trace|
    requires ScanCompletes(dev, trace[i], trace[i + 1]) && InoScan !in trace[i].files
    ensures RunStage(FilterStage, trace[i + 1].run.value.mem).kept == StageKeeps(InosAt(dev, AllSane(dev)))
  {
    ScanBeginsEmpty(dev, chunkBytes, trace, i);
    FreshScan(dev, trace[i], trace[i + 1]);
  }

  lemma FreshScan(dev: seq<Byte>, s: System, t: System)
    requires ScanCompletes(dev, s, t) && s.run.value.mem == Memory([], []) && InoScan !in s.files
    ensures t.run.value.mem.kept == InosAt(dev, AllSane(dev))
  {
    var kept := t.run.value.mem.kept;
    var files :| ScanDone(dev, s.files, [], files, kept)
      && t.files == Saved(files, PostScan, kept, t.run.value.mem.dropped);
    assert kept == [] + InosAt(dev, AllSane(dev)) == InosAt(dev, AllSane(dev));
  }

  lemma RepeatOfConcat(dev: seq<Byte>, lines: seq<nat>, rest: seq<nat>)
    requires lines != [] && Loadable(dev, lines) && Loadable(dev, rest)
    ensures Loadable(dev, lines + rest)
    ensures [] + InosAt(dev, Reread(lines)) + InosAt(dev, rest) == RepeatAt(InosAt(dev, lines + rest), |lines| - 1)
  {
    InosAtReread(dev, lines);
    InosAtConcat(dev, lines, rest);
    RepeatAtSeam(InosAt(dev, lines), InosAt(dev, rest));
  }

  lemma RepeatAtSeam(xs: seq<Ino>, ys: seq<Ino>)
    requires xs != []
    ensures [] + (xs + [xs[|xs| - 1]]) + ys == RepeatAt(xs + ys, |xs| - 1)
  {
    assert (xs + ys)[..|xs|] == xs && (xs + ys)[|xs| - 1..] == [xs[|xs| - 1]] + ys;
  }
}
