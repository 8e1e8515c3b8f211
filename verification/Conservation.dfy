/** No sane sector is ever forgotten: what the checkpoint and invalidated.txt hold together in every reachable state. */
module Conservation {
  import opened Bytes
  import opened Wrappers
  import opened InodeFactory
  import opened Stages
  import opened Inostamps
  import opened ProgressFiles
  import opened SavedLists
  import opened SectorScan
  import opened ResumedScan
  import opened Pipeline
  import opened Restart
  import opened Interrupted

  // ---------------------------------------------------------------- positions in memory and in files

  /** An inode at o is kept or rejected. */
  ghost predicate Holds(m: Memory, o: nat) {
    exists x :: (x in m.kept || x in m.dropped) && x.offset == o
  }

  predicate IsRejected(files: Files, o: nat) {
    Invalidated in files && o in files[Invalidated]
  }

  lemma OffsetMembers(xs: seq<Ino>, o: nat)
    ensures o in Offsets(xs) <==> exists x :: x in xs && x.offset == o
  {
    if o in Offsets(xs) {
      var i :| 0 <= i < |xs| && Offsets(xs)[i] == o;
      assert xs[i] in xs;
    }
    if x :| x in xs && x.offset == o {
      var i :| 0 <= i < |xs| && xs[i] == x;
      assert Offsets(xs)[i] == o;
    }
  }

  lemma HeldPositions(m: Memory, o: nat)
    ensures Holds(m, o) <==> o in Offsets(m.kept) || o in Offsets(m.dropped)
  {
    OffsetMembers(m.kept, o);
    OffsetMembers(m.dropped, o);
  }

  lemma SameInodes(m: Memory, n: Memory, x: Ino)
    requires Inodes(m) == Inodes(n)
    ensures x in m.kept || x in m.dropped <==> x in n.kept || x in n.dropped
  {
    assert x in Inodes(m) <==> x in m.kept || x in m.dropped;
    assert x in Inodes(n) <==> x in n.kept || x in n.dropped;
  }

  lemma StageConserves(stage: Stage, m: Memory)
    requires stage != ScanStage && stage != DoneStage
    ensures Inodes(RunStage(stage, m)) == Inodes(m)
  {
    match stage {
      case FilterStage =>
        NarrowConserves(m, StampMask(m.kept));
        NarrowConserves(AfterFilter(m), ExtentMask(AfterFilter(m).kept));
      case UnallocatedStage => NarrowConserves(m, AllocatedMask(m.kept));
      case DupesStage => NarrowConserves(m, BestMask(m.kept));
    }
  }

  lemma StageHolds(stage: Stage, m: Memory, o: nat)
    requires stage != ScanStage && stage != DoneStage
    ensures Holds(RunStage(stage, m), o) <==> Holds(m, o)
  {
    var n := RunStage(stage, m);
    StageConserves(stage, m);
    if Holds(m, o) {
      var x :| (x in m.kept || x in m.dropped) && x.offset == o;
      SameInodes(m, n, x);
    }
    if Holds(n, o) {
      var x :| (x in n.kept || x in n.dropped) && x.offset == o;
      SameInodes(m, n, x);
    }
  }

  // ---------------------------------------------------------------- the invariant

  /** A process works at the stage that the files let it enter. */
  predicate AtEntry(s: System) {
    s.run.Some? ==> s.run.value.stage == EntryStage(s.files)
  }

  /** The latest checkpoint and invalidated.txt together hold exactly the sane sectors. */
  ghost predicate FilesHoldAll(dev: seq<Byte>, files: Files) {
    && (forall o :: IsRejected(files, o) ==> o in AllSane(dev))
    && (EntryStage(files) != ScanStage ==>
        forall o :: o in files[EntryFile(EntryStage(files))] || IsRejected(files, o) <==> o in AllSane(dev))
  }

  ghost predicate MemoryHoldsAll(dev: seq<Byte>, run: Option<Process>) {
    run.Some? && run.value.stage != ScanStage ==> forall o :: Holds(run.value.mem, o) <==> o in AllSane(dev)
  }

  ghost predicate HoldsAllInv(dev: seq<Byte>, s: System) {
    AtEntry(s) && FilesHoldAll(dev, s.files) && MemoryHoldsAll(dev, s.run)
  }

  lemma RereadMembers(lines: seq<nat>, o: nat)
    requires lines != []
    ensures o in Reread(lines) <==> o in lines
  {
  }

  lemma StartHoldsAll(dev: seq<Byte>, chunkBytes: nat, s: System, t: System)
    requires HoldsAllInv(dev, s) && Starts(dev, chunkBytes, s, t)
    ensures HoldsAllInv(dev, t)
  {
    var stage := EntryStage(s.files);
    if stage != ScanStage {
      var m, lines := t.run.value.mem, s.files[EntryFile(stage)];
      LoadedIsGenuine(dev, Reread(lines));
      if Invalidated in s.files {
        LoadedIsGenuine(dev, Reread(s.files[Invalidated]));
      }
      forall o ensures Holds(m, o) <==> o in AllSane(dev) {
        HeldPositions(m, o);
        RereadMembers(lines, o);
        if Invalidated in s.files {
          RereadMembers(s.files[Invalidated], o);
        }
      }
    }
  }

  /** What is saved of a memory that holds all sane sectors holds them all. */
  lemma SavedHoldsAll(dev: seq<Byte>, files: Files, f: File, m: Memory, o: nat)
    requires f != Invalidated && (forall o :: IsRejected(files, o) ==> o in AllSane(dev))
    requires forall o :: Holds(m, o) <==> o in AllSane(dev)
    ensures var files' := Saved(files, f, m.kept, m.dropped);
      && (o in files'[f] || IsRejected(files', o) <==> o in AllSane(dev))
      && (IsRejected(files', o) ==> o in AllSane(dev))
  {
    HeldPositions(m, o);
  }

  lemma AdvanceHoldsAll(dev: seq<Byte>, files: Files, p: Process)
    requires p.stage != ScanStage && p.stage != DoneStage && HoldsAllInv(dev, System(files, Some(p)))
    ensures HoldsAllInv(dev, Advance(files, p))
  {
    var m, f := RunStage(p.stage, p.mem), EntryFile(NextStage(p.stage));
    forall o ensures Holds(m, o) <==> o in AllSane(dev) {
      StageHolds(p.stage, p.mem, o);
    }
    var files' := Saved(files, f, m.kept, m.dropped);
    forall o
      ensures (o in files'[f] || IsRejected(files', o) <==> o in AllSane(dev))
        && (IsRejected(files', o) ==> o in AllSane(dev))
    {
      SavedHoldsAll(dev, files, f, m, o);
    }
    assert EntryStage(files') == NextStage(p.stage);
  }

  lemma ScannedMembers(dev: seq<Byte>, lines: seq<nat>, o: nat)
    requires IsScanned(dev, lines)
    ensures o in lines <==> o in AllSane(dev)
  {
    if lines != AllSane(dev) {
      var k :| 0 <= k < |AllSane(dev)| && lines == RepeatAt(AllSane(dev), k);
      PositionsRepeat(AllSane(dev), k, o);
    }
  }

  lemma PositionsRepeat(lines: seq<nat>, k: nat, o: nat)
    requires k < |lines|
    ensures o in RepeatAt(lines, k) <==> o in lines
  {
    if o in lines {
      var i :| 0 <= i < |lines| && lines[i] == o;
      assert RepeatAt(lines, k)[if i <= k then i else i + 1] == o;
    }
  }

  /** A scan that completes changes neither the later checkpoints nor invalidated.txt. */
  lemma ScanLeavesOthers(dev: seq<Byte>, s: System, t: System, f: File)
    requires ScanCompletes(dev, s, t) && s.run.value.mem == Memory([], []) && f != InoScan && f != PostScan
    ensures f in t.files <==> f in s.files
    ensures f in s.files ==> t.files[f] == s.files[f]
  {
    var kept, dropped := t.run.value.mem.kept, t.run.value.mem.dropped;
    var files :| ScanDone(dev, s.files, s.run.value.mem.kept, files, kept)
      && t.files == Saved(files, PostScan, kept, dropped);
    assert f in files - {InoScan} <==> f in s.files - {InoScan};
    assert f in s.files ==> (files - {InoScan})[f] == (s.files - {InoScan})[f];
  }

  lemma ScanHoldsAll(dev: seq<Byte>, s: System, t: System)
    requires HoldsAllInv(dev, s) && ScanInv(dev, s.files)
    requires ScanCompletes(dev, s, t) && s.run.value.mem == Memory([], [])
    ensures HoldsAllInv(dev, t)
  {
    ScanIsScanned(dev, s, t);
    ScanLeavesOthers(dev, s, t, PostExtentScan);
    ScanLeavesOthers(dev, s, t, PostRemoveUnallocated);
    ScanLeavesOthers(dev, s, t, PostRemoveDupes);
    ScanLeavesOthers(dev, s, t, Invalidated);
    var lines := t.files[PostScan];
    LoadedIsGenuine(dev, lines);
    forall o ensures (Holds(t.run.value.mem, o) <==> o in AllSane(dev)) && (o in lines <==> o in AllSane(dev)) {
      HeldPositions(t.run.value.mem, o);
      ScannedMembers(dev, lines, o);
    }
    forall o ensures IsRejected(t.files, o) <==> IsRejected(s.files, o) {
    }
  }

  lemma CutHoldsAll(dev: seq<Byte>, s: System, t: System)
    requires HoldsAllInv(dev, s) && ScanIsCut(dev, s, t)
    ensures HoldsAllInv(dev, t)
  {
    forall f | f != InoScan ensures (f in t.files <==> f in s.files) && (f in s.files ==> t.files[f] == s.files[f]) {
    }
    forall o ensures IsRejected(t.files, o) <==> IsRejected(s.files, o) {
    }
  }

  lemma {:induction false} HoldsAllKept(dev: seq<Byte>, chunkBytes: nat, trace: seq<System>, i: nat)
    requires IsTrace(dev, chunkBytes, trace) && i < |trace|
    ensures HoldsAllInv(dev, trace[i])
  {
    if i == 0 {
      NothingIsHeld(dev);
    } else {
      HoldsAllKept(dev, chunkBytes, trace, i - 1);
      HoldsAllNext(dev, chunkBytes, trace, i - 1);
    }
  }

  lemma NothingIsHeld(dev: seq<Byte>)
    ensures HoldsAllInv(dev, System(map[], None))
  {
  }

  lemma HoldsAllNext(dev: seq<Byte>, chunkBytes: nat, trace: seq<System>, i: nat)
    requires IsTrace(dev, chunkBytes, trace) && i + 1 < |trace| && HoldsAllInv(dev, trace[i])
    ensures HoldsAllInv(dev, trace[i + 1])
  {
    ResumableScan(dev, chunkBytes, trace, i);
    ScanBeginsEmpty(dev, chunkBytes, trace, i);
    NextInTrace(dev, chunkBytes, trace, i);
    HoldsAllStep(dev, chunkBytes, trace[i], trace[i + 1]);
  }

  lemma NextInTrace(dev: seq<Byte>, chunkBytes: nat, trace: seq<System>, i: nat)
    requires IsTrace(dev, chunkBytes, trace) && i + 1 < |trace|
    ensures Next(dev, chunkBytes, trace[i], trace[i + 1])
  {
  }

  lemma HoldsAllStep(dev: seq<Byte>, chunkBytes: nat, s: System, t: System)
    requires HoldsAllInv(dev, s) && ScanInv(dev, s.files) && Next(dev, chunkBytes, s, t)
    requires s.run.Some? && s.run.value.stage == ScanStage ==> s.run.value.mem == Memory([], [])
    ensures HoldsAllInv(dev, t)
  {
    if Starts(dev, chunkBytes, s, t) {
      StartHoldsAll(dev, chunkBytes, s, t);
    } else if ScanCompletes(dev, s, t) {
      ScanHoldsAll(dev, s, t);
    } else if ScanIsCut(dev, s, t) {
      CutHoldsAll(dev, s, t);
    } else if s.run.Some? && s.run.value.stage !in {ScanStage, DoneStage} && t == Advance(s.files, s.run.value) {
      assert s == System(s.files, Some(s.run.value));
      AdvanceHoldsAll(dev, s.files, s.run.value);
    }
  }

  // ---------------------------------------------------------------- the main results

  /**
   * In every reachable state behind a scan, whatever was killed and started before: the positions in the latest
   * checkpoint together with those in invalidated.txt are exactly those of the sane sectors of the device.
   */
  lemma PositionsAreConserved(dev: seq<Byte>, chunkBytes: nat, trace: seq<System>, i: nat, o: nat)
    requires IsTrace(dev, chunkBytes, trace) && i < |trace|
    requires PostScan in trace[i].files || PostExtentScan in trace[i].files
      || PostRemoveUnallocated in trace[i].files || PostRemoveDupes in trace[i].files
    ensures var files := trace[i].files;
      var lines := if PostRemoveDupes in files then files[PostRemoveDupes]
                   else if PostRemoveUnallocated in files then files[PostRemoveUnallocated]
                   else if PostExtentScan in files then files[PostExtentScan]
                   else files[PostScan];
      (o in lines || (Invalidated in files && o in files[Invalidated])) <==>
        (o % 512 == 0 && o + 512 <= |dev| && SaneAt(dev, o))
  {
    HoldsAllKept(dev, chunkBytes, trace, i);
    SanePositions(dev, o);
  }

  lemma SanePositions(dev: seq<Byte>, o: nat)
    ensures o in AllSane(dev) <==> o % 512 == 0 && o + 512 <= |dev| && SaneAt(dev, o)
  {
    SaneOffsetsExactly(dev, 0, |dev| / INODE_SIZE, o);
  }

  /**
   * And every process behind the scan has in memory, kept and rejected together, exactly the inodes of these sectors,
   * from the checkpoint at which it entered to its end.
   */
  lemma InodesAreConserved(dev: seq<Byte>, chunkBytes: nat, trace: seq<System>, i: nat, x: Ino)
    requires IsTrace(dev, chunkBytes, trace) && i < |trace|
    requires trace[i].run.Some? && trace[i].run.value.stage != ScanStage
    ensures var m := trace[i].run.value.mem;
      (x in m.kept || x in m.dropped) <==>
        (x.offset % 512 == 0 && x.offset + 512 <= |dev| && CreateIfSane(dev, x.offset, x.offset) == Some(x))
  {
    var m := trace[i].run.value.mem;
    HoldsAllKept(dev, chunkBytes, trace, i);
    TraceKeeps(dev, chunkBytes, trace, i);
    SanePositions(dev, x.offset);
    if x in m.kept || x in m.dropped {
      assert IsGenuine(dev, x) && Holds(m, x.offset);
      ScanAgreesWithReload(dev, dev, x.offset, x.offset);
    }
    if x.offset % 512 == 0 && x.offset + 512 <= |dev| && CreateIfSane(dev, x.offset, x.offset) == Some(x) {
      ScanAgreesWithReload(dev, dev, x.offset, x.offset);
      var y :| (y in m.kept || y in m.dropped) && y.offset == x.offset;
      assert IsGenuine(dev, y);
    }
  }
}
