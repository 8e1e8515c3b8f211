/** From any interruption to the final list: what earlier stages hand on in every run of the system, what survives. */
module Interrupted {
  import opened Bytes
  import opened Wrappers
  import opened InodeFactory
  import opened Selection
  import opened Stages
  import opened Inostamps
  import opened ProgressFiles
  import opened SavedLists
  import opened SectorScan
  import opened ResumedScan
  import opened ResumedStage
  import opened ReloadedStage
  import opened Pipeline
  import opened Restart

  // ---------------------------------------------------------------- where the lists come from

  /** The list of a scan: all sane sectors, where a resumption repeats the one it resumed behind. */
  ghost predicate IsScanned(dev: seq<Byte>, lines: seq<nat>) {
    lines == AllSane(dev) || exists k :: 0 <= k < |AllSane(dev)| && lines == RepeatAt(AllSane(dev), k)
  }

  /** xs, or what a reload makes of it. */
  predicate IsReading(xs: seq<Ino>, ys: seq<Ino>) {
    ys == xs || (xs != [] && ys == xs + [xs[|xs| - 1]])
  }

  /** What the files and a process at the filters go back to. */
  ghost predicate OriginInv(dev: seq<Byte>, s: System)
    requires GenuineInv(dev, s)
  {
    && (PostScan in s.files ==> IsScanned(dev, s.files[PostScan]))
    && (s.run.Some? && s.run.value.stage == FilterStage ==>
        PostScan in s.files && IsReading(InosAt(dev, s.files[PostScan]), s.run.value.mem.kept))
    && (PostExtentScan in s.files ==>
        PostScan in s.files && IsFiltered(InosAt(dev, s.files[PostScan]), InosAt(dev, s.files[PostExtentScan])))
  }

  /** es is what the filters keep of xs, or of what a reload makes of it. */
  ghost predicate IsFiltered(xs: seq<Ino>, es: seq<Ino>) {
    es == StageKeeps(xs) || (xs != [] && es == StageKeeps(xs + [xs[|xs| - 1]]))
  }

  lemma OffsetsRepeat(xs: seq<Ino>, k: nat)
    requires k < |xs|
    ensures Offsets(RepeatAt(xs, k)) == RepeatAt(Offsets(xs), k)
  {
  }

  /** A scan that completes in a reachable state leaves such a list, and the process works on it. */
  lemma ScanIsScanned(dev: seq<Byte>, s: System, t: System)
    requires ScanInv(dev, s.files) && ScanCompletes(dev, s, t) && s.run.value.mem == Memory([], [])
    ensures PostScan in t.files && IsScanned(dev, t.files[PostScan])
    ensures Loadable(dev, t.files[PostScan]) && t.run.value.mem.kept == InosAt(dev, t.files[PostScan])
  {
    var lines := AllSane(dev);
    var xs, kept := InosAt(dev, lines), t.run.value.mem.kept;
    LoadedIsGenuine(dev, lines);
    if InoScan in s.files {
      ResumedVector(dev, s, t);
      var k := |s.files[InoScan]| - 1;
      OffsetsRepeat(xs, k);
      RepeatIsGenuine(dev, xs, k);
      assert Offsets(kept) == RepeatAt(lines, k);
    } else {
      FreshScan(dev, s, t);
    }
    SaveThenLoad(dev, kept);
    assert t.files[PostScan] == Offsets(kept);
  }

  lemma RepeatIsGenuine(dev: seq<Byte>, xs: seq<Ino>, k: nat)
    requires k < |xs| && Genuine(dev, xs)
    ensures Genuine(dev, RepeatAt(xs, k))
  {
    forall x | x in RepeatAt(xs, k) ensures IsGenuine(dev, x) {
      RepeatMembers(xs, k, x);
    }
  }

  /** The filters save what they keep of what the process had in memory. */
  lemma FilterOrigin(dev: seq<Byte>, files: Files, p: Process)
    requires p.stage == FilterStage && GenuineInv(dev, System(files, Some(p))) && OriginInv(dev, System(files, Some(p)))
    requires GenuineInv(dev, Advance(files, p))
    ensures OriginInv(dev, Advance(files, p))
  {
    var t := Advance(files, p);
    SaveThenLoad(dev, t.run.value.mem.kept);
    assert t.run.value.mem.kept == StageKeeps(p.mem.kept);
    assert t.files[PostExtentScan] == Offsets(t.run.value.mem.kept) && t.files[PostScan] == files[PostScan];
  }

  lemma LaterOrigin(dev: seq<Byte>, files: Files, p: Process)
    requires p.stage == UnallocatedStage || p.stage == DupesStage
    requires GenuineInv(dev, System(files, Some(p))) && OriginInv(dev, System(files, Some(p)))
    requires GenuineInv(dev, Advance(files, p))
    ensures OriginInv(dev, Advance(files, p))
  {
    var t := Advance(files, p);
    assert forall f :: f == PostScan || f == PostExtentScan ==>
      (f in t.files <==> f in files) && (f in files ==> t.files[f] == files[f]);
  }

  lemma StartOrigin(dev: seq<Byte>, chunkBytes: nat, s: System, t: System)
    requires GenuineInv(dev, s) && GenuineInv(dev, t) && OriginInv(dev, s) && Starts(dev, chunkBytes, s, t)
    ensures OriginInv(dev, t)
  {
    if EntryStage(s.files) == FilterStage {
      InosAtReread(dev, s.files[PostScan]);
    }
  }

  lemma ScanOrigin(dev: seq<Byte>, s: System, t: System)
    requires GenuineInv(dev, s) && GenuineInv(dev, t) && OriginInv(dev, s)
    requires ScanInv(dev, s.files) && CheckpointInv(dev, s)
    requires ScanCompletes(dev, s, t) && s.run.value.mem == Memory([], [])
    ensures OriginInv(dev, t)
  {
    ScanIsScanned(dev, s, t);
    ScanKeepsLater(dev, s, t);
  }

  lemma ScanKeepsLater(dev: seq<Byte>, s: System, t: System)
    requires ScanCompletes(dev, s, t)
    ensures PostExtentScan in t.files <==> PostExtentScan in s.files
  {
    var kept, dropped := t.run.value.mem.kept, t.run.value.mem.dropped;
    var files :| ScanDone(dev, s.files, s.run.value.mem.kept, files, kept)
      && t.files == Saved(files, PostScan, kept, dropped);
    assert PostExtentScan in files - {InoScan} <==> PostExtentScan in s.files - {InoScan};
  }

  lemma OriginStep(dev: seq<Byte>, chunkBytes: nat, s: System, t: System)
    requires GenuineInv(dev, s) && GenuineInv(dev, t) && OriginInv(dev, s)
    requires ScanInv(dev, s.files) && CheckpointInv(dev, s)
    requires s.run.Some? && s.run.value.stage == ScanStage ==> s.run.value.mem == Memory([], [])
    requires Next(dev, chunkBytes, s, t)
    ensures OriginInv(dev, t)
  {
    if Starts(dev, chunkBytes, s, t) {
      StartOrigin(dev, chunkBytes, s, t);
    } else if ScanCompletes(dev, s, t) {
      ScanOrigin(dev, s, t);
    } else if s.run.Some? && s.run.value.stage !in {ScanStage, DoneStage} && t == Advance(s.files, s.run.value) {
      assert s == System(s.files, Some(s.run.value));
      if s.run.value.stage == FilterStage {
        FilterOrigin(dev, s.files, s.run.value);
      } else {
        LaterOrigin(dev, s.files, s.run.value);
      }
    }
  }

  lemma {:induction false} OriginKept(dev: seq<Byte>, chunkBytes: nat, trace: seq<System>, i: nat)
    requires IsTrace(dev, chunkBytes, trace) && i < |trace|
    ensures GenuineInv(dev, trace[i]) && OriginInv(dev, trace[i])
  {
    TraceKeeps(dev, chunkBytes, trace, i);
    if i > 0 {
      OriginKept(dev, chunkBytes, trace, i - 1);
      TraceKeeps(dev, chunkBytes, trace, i - 1);
      ScanBeginsEmpty(dev, chunkBytes, trace, i - 1);
      assert Next(dev, chunkBytes, trace[i - 1], trace[i - 1 + 1]);
      OriginStep(dev, chunkBytes, trace[i - 1], trace[i]);
    }
  }

  lemma InosAtRepeat(dev: seq<Byte>, lines: seq<nat>, k: nat)
    requires Loadable(dev, lines) && k < |lines|
    ensures Loadable(dev, RepeatAt(lines, k)) && InosAt(dev, RepeatAt(lines, k)) == RepeatAt(InosAt(dev, lines), k)
  {
    assert forall bo :: bo in RepeatAt(lines, k) ==> bo in lines;
  }

  /** The inodes of such a list are in order. */
  lemma ScannedIsInOrder(dev: seq<Byte>, lines: seq<nat>)
    requires IsScanned(dev, lines) && Loadable(dev, lines)
    ensures InOrder(InosAt(dev, lines))
  {
    var xs := InosAt(dev, AllSane(dev));
    ScannedInOrder(dev);
    if lines != AllSane(dev) {
      var k :| 0 <= k < |AllSane(dev)| && lines == RepeatAt(AllSane(dev), k);
      InosAtRepeat(dev, AllSane(dev), k);
      RepeatInOrder(xs, k);
    }
  }

  lemma RepeatInOrder(xs: seq<Ino>, k: nat)
    requires k < |xs| && InScanOrder(xs)
    ensures InOrder(RepeatAt(xs, k))
  {
    var ys := RepeatAt(xs, k);
    forall i, j | 0 <= i < j < |ys| ensures ys[i].offset + 512 <= ys[j].offset || ys[i] == ys[j] {
      assert ys[i] == xs[if i <= k then i else i - 1] && ys[j] == xs[if j <= k then j else j - 1];
    }
  }

  // ---------------------------------------------------------------- restart from post-scan.txt

  /** In every reachable state post-scan.txt is the list of a scan, resumed or not. */
  lemma PostScanIsScanned(dev: seq<Byte>, chunkBytes: nat, trace: seq<System>, i: nat)
    requires IsTrace(dev, chunkBytes, trace) && i < |trace| && PostScan in trace[i].files
    ensures IsScanned(dev, trace[i].files[PostScan]) && Loadable(dev, trace[i].files[PostScan])
  {
    OriginKept(dev, chunkBytes, trace, i);
  }

  /**
   * When in any run of the system a process starts from post-scan.txt, its first stage keeps the inodes that the stage
   * keeps of the saved list if and only if the reload is harmless.
   */
  lemma ReloadedStageIff(dev: seq<Byte>, chunkBytes: nat, trace: seq<System>, i: nat)
    requires IsTrace(dev, chunkBytes, trace) && i + 1 < |trace| && Starts(dev, chunkBytes, trace[i], trace[i + 1])
    requires trace[i + 1].run.value.stage == FilterStage
    ensures PostScan in trace[i].files && Loadable(dev, trace[i].files[PostScan]) && trace[i].files[PostScan] != []
    ensures var xs := InosAt(dev, trace[i].files[PostScan]);
      SameMembers(RunStage(FilterStage, trace[i + 1].run.value.mem).kept, StageKeeps(xs)) <==> HarmlessReload(xs)
  {
    PostScanIsScanned(dev, chunkBytes, trace, i);
    var lines := trace[i].files[PostScan];
    ScannedIsInOrder(dev, lines);
    InosAtReread(dev, lines);
    ReloadIsHarmlessIff(InosAt(dev, lines));
  }

  // ---------------------------------------------------------------- the final list

  /** Of two inodes of one number y is left and x is dropped. */
  predicate Beats(y: Ino, x: Ino) {
    || x.din.otime.sec < y.din.otime.sec
    || (x.din.otime.sec == y.din.otime.sec && x.din.otime.nsec < y.din.otime.nsec)
    || (x.din.otime == y.din.otime && y.offset < x.offset)
  }

  /** x is allocated and beats every other allocated inode of its number in es. */
  ghost predicate Survives(es: seq<Ino>, x: Ino) {
    && x in es && x.din.nlink != 0
    && forall y :: y in es && y != x && y.din.nlink != 0 && y.din.number == x.din.number ==> Beats(x, y)
  }

  lemma PickInOrder(xs: seq<Ino>, mask: seq<bool>)
    requires |xs| == |mask| && InOrder(xs)
    ensures InOrder(Pick(xs, mask))
  {
    PickKeepsOrder(xs, mask);
  }

  lemma AllocatedMember(es: seq<Ino>, x: Ino)
    ensures x in Allocated(es) <==> x in es && x.din.nlink != 0
  {
    PickMembers(es, AllocatedMask(es), x);
    if x in es && x.din.nlink != 0 {
      var i :| 0 <= i < |es| && es[i] == x;
      assert AllocatedMask(es)[i];
    }
  }

  lemma {:induction false} FirstOccurrence(us: seq<Ino>, x: Ino) returns (i: nat)
    requires x in us
    ensures i < |us| && us[i] == x && forall j :: 0 <= j < i ==> us[j] != x
  {
    if us[0] == x {
      i := 0;
    } else {
      assert us == [us[0]] + us[1..];
      i := FirstOccurrence(us[1..], x);
      i := i + 1;
    }
  }

  lemma BestBeats(us: seq<Ino>, i: nat, y: Ino)
    requires InOrder(us) && IsBest(us, i) && y in us && y != us[i] && y.din.number == us[i].din.number
    ensures Beats(us[i], y)
  {
    var j :| 0 <= j < |us| && us[j] == y;
  }

  lemma FirstIsBest(us: seq<Ino>, i: nat)
    requires InOrder(us) && i < |us| && forall j :: 0 <= j < i ==> us[j] != us[i]
    requires forall y :: y in us && y != us[i] && y.din.number == us[i].din.number ==> Beats(us[i], y)
    ensures IsBest(us, i)
  {
    forall j | 0 <= j < |us| && j != i && us[j].din.number == us[i].din.number
      ensures
        || us[j].din.otime.sec < us[i].din.otime.sec
        || (us[j].din.otime.sec == us[i].din.otime.sec && us[j].din.otime.nsec < us[i].din.otime.nsec)
        || (us[j].din.otime == us[i].din.otime && i < j)
    {
      assert us[j] in us;
    }
  }

  /** What the last two stages leave of a list in order, inode by inode. */
  lemma SurvivorIff(es: seq<Ino>, x: Ino)
    requires InOrder(es)
    ensures x in Dedupe(Allocated(es)) <==> Survives(es, x)
  {
    var us := Allocated(es);
    PickInOrder(es, AllocatedMask(es));
    forall y ensures y in us <==> y in es && y.din.nlink != 0 {
      AllocatedMember(es, y);
    }
    PickMembers(us, BestMask(us), x);
    if x in Dedupe(us) {
      var i :| 0 <= i < |us| && BestMask(us)[i] && us[i] == x;
      forall y | y in es && y != x && y.din.nlink != 0 && y.din.number == x.din.number ensures Beats(x, y) {
        BestBeats(us, i, y);
      }
    }
    if Survives(es, x) {
      var i := FirstOccurrence(us, x);
      FirstIsBest(us, i);
      assert BestMask(us)[i];
    }
  }

  /** Every number that an allocated inode has has a survivor. */
  lemma SomeSurvivor(es: seq<Ino>, x: Ino) returns (b: Ino)
    requires InOrder(es) && x in es && x.din.nlink != 0
    ensures Survives(es, b) && b.din.number == x.din.number
  {
    var us, d := Allocated(es), x.din.number;
    AllocatedMember(es, x);
    var j :| 0 <= j < |us| && us[j] == x;
    IndexIsBest(us, d);
    b := us[IndexOf(us)[d]];
    DedupeKeepsBest(us, IndexOf(us)[d]);
    SurvivorIff(es, b);
  }

  /** Whatever only one of two lists has does not survive in it. */
  ghost predicate DifferencesFall(es: seq<Ino>, fs: seq<Ino>) {
    && (forall x :: x in es && x !in fs ==> !Survives(es, x))
    && forall x :: x in fs && x !in es ==> !Survives(fs, x)
  }

  lemma SurvivesBoth(es: seq<Ino>, fs: seq<Ino>, x: Ino)
    requires InOrder(fs) && DifferencesFall(es, fs) && Survives(es, x)
    ensures Survives(fs, x)
  {
    var b := SomeSurvivor(fs, x);
    assert b in es;
  }

  /** The final lists agree if and only if the differences of what the filters kept fall. */
  lemma FinalListsAgreeIff(es: seq<Ino>, fs: seq<Ino>)
    requires InOrder(es) && InOrder(fs)
    ensures SameMembers(Dedupe(Allocated(es)), Dedupe(Allocated(fs))) <==> DifferencesFall(es, fs)
  {
    forall x
      ensures (x in Dedupe(Allocated(es)) <==> Survives(es, x)) && (x in Dedupe(Allocated(fs)) <==> Survives(fs, x))
    {
      SurvivorIff(es, x);
      SurvivorIff(fs, x);
    }
    if DifferencesFall(es, fs) {
      forall x ensures Survives(es, x) <==> Survives(fs, x) {
        if Survives(es, x) {
          SurvivesBoth(es, fs, x);
        }
        if Survives(fs, x) {
          SurvivesBoth(fs, es, x);
        }
      }
    }
  }

  lemma StageKeepsOrder(xs: seq<Ino>)
    requires InOrder(xs)
    ensures InOrder(StageKeeps(xs))
  {
    StageIs(xs);
    PickInOrder(xs, StampMask(xs));
    PickInOrder(FilterStamps(xs), ExtentMask(FilterStamps(xs)));
  }

  lemma FilteredInOrder(xs: seq<Ino>, es: seq<Ino>)
    requires InOrder(xs) && IsFiltered(xs, es)
    ensures InOrder(es)
  {
    StageKeepsOrder(xs);
    if xs != [] {
      StageKeepsOrder(xs + [xs[|xs| - 1]]);
    }
  }

  /** What an uninterrupted process would make of the device. */
  ghost function Uninterrupted(dev: seq<Byte>): seq<Ino> {
    StageKeeps(InosAt(dev, AllSane(dev)))
  }

  /**
   * Whatever was killed and started before, post-remove_dupes.txt has the inodes of an uninterrupted process if and
   * only if no inode that the filters lost would have survived, and none that they kept in excess does.
   */
  lemma EndToEnd(dev: seq<Byte>, chunkBytes: nat, trace: seq<System>, i: nat)
    requires IsTrace(dev, chunkBytes, trace) && i < |trace| && PostRemoveDupes in trace[i].files
    ensures PostExtentScan in trace[i].files && Loadable(dev, trace[i].files[PostExtentScan])
    ensures Loadable(dev, trace[i].files[PostRemoveDupes])
    ensures SameMembers(InosAt(dev, trace[i].files[PostRemoveDupes]), Dedupe(Allocated(Uninterrupted(dev))))
       <==> DifferencesFall(Uninterrupted(dev), ExtentList(dev, trace[i].files))
  {
    var files := trace[i].files;
    OriginKept(dev, chunkBytes, trace, i);
    RestartSafety(dev, chunkBytes, trace, i);
    FinalGenuine(dev, files);
    SaveThenLoad(dev, FinalList(dev, files));
    ScannedIsInOrder(dev, files[PostScan]);
    FilteredInOrder(InosAt(dev, files[PostScan]), ExtentList(dev, files));
    UninterruptedInOrder(dev);
    FinalListsAgreeIff(Uninterrupted(dev), ExtentList(dev, files));
  }

  lemma UninterruptedInOrder(dev: seq<Byte>)
    ensures InOrder(Uninterrupted(dev))
  {
    ScannedInOrder(dev);
    StageKeepsOrder(InosAt(dev, AllSane(dev)));
  }

  /** The scan was not resumed, or harmlessly, and the filters did not reload their list, or harmlessly. */
  ghost predicate HarmlessSoFar(dev: seq<Byte>, lines: seq<nat>, es: seq<Ino>)
    requires Loadable(dev, lines)
  {
    var full, xs := InosAt(dev, AllSane(dev)), InosAt(dev, lines);
    && (lines == AllSane(dev)
        || exists k :: 0 <= k < |full| && lines == RepeatAt(AllSane(dev), k) && HarmlessResume(full, k))
    && (es == StageKeeps(xs) || (xs != [] && es == StageKeeps(xs + [xs[|xs| - 1]]) && HarmlessReload(xs)))
  }

  /** Then the final list has the inodes of an uninterrupted process. */
  lemma HarmlessToTheEnd(dev: seq<Byte>, chunkBytes: nat, trace: seq<System>, i: nat)
    requires IsTrace(dev, chunkBytes, trace) && i < |trace| && PostRemoveDupes in trace[i].files
    requires PostScan in trace[i].files && PostExtentScan in trace[i].files
    requires Loadable(dev, trace[i].files[PostScan]) && Loadable(dev, trace[i].files[PostExtentScan])
    requires HarmlessSoFar(dev, trace[i].files[PostScan], ExtentList(dev, trace[i].files))
    ensures Loadable(dev, trace[i].files[PostRemoveDupes])
    ensures SameMembers(InosAt(dev, trace[i].files[PostRemoveDupes]), Dedupe(Allocated(Uninterrupted(dev))))
  {
    var lines, es := trace[i].files[PostScan], ExtentList(dev, trace[i].files);
    EndToEnd(dev, chunkBytes, trace, i);
    PostScanIsScanned(dev, chunkBytes, trace, i);
    ScannedIsInOrder(dev, lines);
    HarmlessKeepsAll(dev, lines, es);
  }

  lemma HarmlessKeepsAll(dev: seq<Byte>, lines: seq<nat>, es: seq<Ino>)
    requires Loadable(dev, lines) && InOrder(InosAt(dev, lines)) && HarmlessSoFar(dev, lines, es)
    ensures SameMembers(es, Uninterrupted(dev))
  {
    if lines != AllSane(dev) {
      var k :| 0 <= k < |AllSane(dev)| && lines == RepeatAt(AllSane(dev), k)
        && HarmlessResume(InosAt(dev, AllSane(dev)), k);
      HarmlessScan(dev, lines, k);
    }
    HarmlessFilters(InosAt(dev, lines), es);
  }

  lemma HarmlessScan(dev: seq<Byte>, lines: seq<nat>, k: nat)
    requires Loadable(dev, lines) && k < |AllSane(dev)| && lines == RepeatAt(AllSane(dev), k)
    requires HarmlessResume(InosAt(dev, AllSane(dev)), k)
    ensures SameMembers(StageKeeps(InosAt(dev, lines)), Uninterrupted(dev))
  {
    InosAtRepeat(dev, AllSane(dev), k);
    ScannedInOrder(dev);
    HarmlessRepetition(InosAt(dev, AllSane(dev)), k);
  }

  lemma HarmlessRepetition(full: seq<Ino>, k: nat)
    requires InScanOrder(full) && k < |full| && HarmlessResume(full, k)
    ensures SameMembers(StageKeeps(RepeatAt(full, k)), StageKeeps(full))
  {
    ResumeIsHarmlessIff(full, k);
  }

  lemma HarmlessFilters(xs: seq<Ino>, es: seq<Ino>)
    requires InOrder(xs)
    requires es == StageKeeps(xs) || (xs != [] && es == StageKeeps(xs + [xs[|xs| - 1]]) && HarmlessReload(xs))
    ensures SameMembers(es, StageKeeps(xs))
  {
    if es != StageKeeps(xs) {
      ReloadIsHarmlessIff(xs);
    }
  }
}
