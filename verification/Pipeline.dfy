/**
 * The checkpointed stage machine: a process that enters at the latest checkpoint file, runs the remaining stages
 * and saves after each, and that may be killed and started again at any point.
 */
module Pipeline {
  import opened Bytes
  import opened Wrappers
  import opened InodeFactory
  import opened Selection
  import opened Stages
  import opened Inostamps
  import opened ProgressFiles
  import opened SavedLists
  import opened SectorScan

  datatype Stage = ScanStage | FilterStage | UnallocatedStage | DupesStage | DoneStage

  datatype Memory = Memory(kept: seq<Ino>, dropped: seq<Ino>)

  datatype Process = Process(stage: Stage, mem: Memory)

  datatype System = System(files: map<File, seq<nat>>, run: Option<Process>)

  type Files = map<File, seq<nat>>

  // ---------------------------------------------------------------- one process

  /** The goto targets of scan(). */
  function EntryStage(files: Files): Stage {
    if PostRemoveDupes in files then DoneStage
    else if PostRemoveUnallocated in files then DupesStage
    else if PostExtentScan in files then UnallocatedStage
    else if PostScan in files then FilterStage
    else ScanStage
  }

  /** The checkpoint that lets a process enter at a stage. */
  function EntryFile(stage: Stage): File
    requires stage != ScanStage
  {
    match stage
    case FilterStage => PostScan
    case UnallocatedStage => PostExtentScan
    case DupesStage => PostRemoveUnallocated
    case DoneStage => PostRemoveDupes
  }

  predicate ListLoadable(dev: seq<Byte>, files: Files, f: File) {
    f in files ==> files[f] != [] && Loadable(dev, files[f])
  }

  /** An empty list cannot be reloaded (the program would read an unset position). */
  predicate Bootable(dev: seq<Byte>, chunkBytes: nat, files: Files) {
    var stage := EntryStage(files);
    if stage == ScanStage then ScanPossible(dev, chunkBytes, files)
    else ListLoadable(dev, files, EntryFile(stage)) && ListLoadable(dev, files, Invalidated)
  }

  function Boot(dev: seq<Byte>, files: Files): Memory
    requires EntryStage(files) != ScanStage
    requires ListLoadable(dev, files, EntryFile(EntryStage(files))) && ListLoadable(dev, files, Invalidated)
  {
    Memory(InosAt(dev, Reread(files[EntryFile(EntryStage(files))])),
           if Invalidated in files then InosAt(dev, Reread(files[Invalidated])) else [])
  }

  /** A removal: the mask stays, the rest joins the invalidated inodes. */
  function Narrow(m: Memory, mask: seq<bool>): Memory
    requires |mask| == |m.kept|
  {
    Memory(Pick(m.kept, mask), m.dropped + Pick(m.kept, Complement(mask)))
  }

  function AfterFilter(m: Memory): Memory {
    Narrow(m, StampMask(m.kept))
  }

  ghost function RunStage(stage: Stage, m: Memory): Memory
    requires stage != ScanStage && stage != DoneStage
  {
    match stage
    case FilterStage => Narrow(AfterFilter(m), ExtentMask(AfterFilter(m).kept))
    case UnallocatedStage => Narrow(m, AllocatedMask(m.kept))
    case DupesStage => Narrow(m, BestMask(m.kept))
  }

  function NextStage(stage: Stage): Stage
    requires stage != ScanStage && stage != DoneStage
  {
    match stage
    case FilterStage => UnallocatedStage
    case UnallocatedStage => DupesStage
    case DupesStage => DoneStage
  }

  /** A stage ends by saving the list that the next stage can be entered with. */
  ghost function Advance(files: Files, p: Process): System
    requires p.stage != ScanStage && p.stage != DoneStage
  {
    var m, next := RunStage(p.stage, p.mem), NextStage(p.stage);
    System(Saved(files, EntryFile(next), m.kept, m.dropped), Some(Process(next, m)))
  }

  /** All remaining stages without an interruption. */
  ghost function Complete(files: Files, p: Process): (s: System)
    requires p.stage != ScanStage
    ensures s.run.Some? && s.run.value.stage == DoneStage
    decreases match p.stage case FilterStage => 3 case UnallocatedStage => 2 case DupesStage => 1 case _ => 0
  {
    if p.stage == DoneStage then System(files, Some(p))
    else
      var s := Advance(files, p);
      Complete(s.files, s.run.value)
  }

  /** The run from the first filter on continues behind its checkpoint. */
  lemma CompleteFilter(files: Files, m: Memory)
    ensures var r := RunStage(FilterStage, m);
      Complete(files, Process(FilterStage, m))
        == Complete(Saved(files, PostExtentScan, r.kept, r.dropped), Process(UnallocatedStage, r))
  {
  }

  function Inodes(m: Memory): multiset<Ino> {
    multiset(m.kept) + multiset(m.dropped)
  }

  /** No removal stage loses or invents an inode. */
  lemma NarrowConserves(m: Memory, mask: seq<bool>)
    requires |mask| == |m.kept|
    ensures Inodes(Narrow(m, mask)) == Inodes(m)
  {
    PickSplits(m.kept, mask);
  }

  /** Conservation over a whole run of the post-processing stages. */
  lemma {:induction false} RunConserves(files: Files, p: Process)
    requires p.stage != ScanStage
    ensures Inodes(Complete(files, p).run.value.mem) == Inodes(p.mem)
    decreases match p.stage case FilterStage => 3 case UnallocatedStage => 2 case DupesStage => 1 case _ => 0
  {
    if p.stage != DoneStage {
      var m := p.mem;
      match p.stage {
        case FilterStage =>
          NarrowConserves(m, StampMask(m.kept));
          NarrowConserves(AfterFilter(m), ExtentMask(AfterFilter(m).kept));
        case UnallocatedStage => NarrowConserves(m, AllocatedMask(m.kept));
        case DupesStage => NarrowConserves(m, BestMask(m.kept));
      }
      var s := Advance(files, p);
      RunConserves(s.files, s.run.value);
    }
  }

  // ---------------------------------------------------------------- many processes

  /** The steps of the system of progress files and at most one running process. */
  ghost predicate Next(dev: seq<Byte>, chunkBytes: nat, s: System, t: System) {
    || Starts(dev, chunkBytes, s, t)
    || ScanCompletes(dev, s, t)
    || ScanIsCut(dev, s, t)
    || (s.run.Some? && s.run.value.stage !in {ScanStage, DoneStage} && t == Advance(s.files, s.run.value))
    || t == s.(run := None)
  }

  ghost predicate Starts(dev: seq<Byte>, chunkBytes: nat, s: System, t: System) {
    && s.run.None? && Bootable(dev, chunkBytes, s.files)
    && t == s.(run := Some(
        if EntryStage(s.files) == ScanStage then Process(ScanStage, Memory([], []))
        else Process(EntryStage(s.files), Boot(dev, s.files))))
  }

  ghost predicate Scanning(dev: seq<Byte>, s: System) {
    && s.run.Some? && s.run.value.stage == ScanStage
    && StartSector(s.files) <= |dev| / INODE_SIZE && StartSector(s.files) * INODE_SIZE < |dev|
    && (InoScan in s.files ==> s.files[InoScan] != [] && Loadable(dev, s.files[InoScan]))
  }

  /** do_scan runs to its end and post-scan.txt is saved. */
  ghost predicate ScanCompletes(dev: seq<Byte>, s: System, t: System) {
    && Scanning(dev, s)
    && t.run.Some? && t.run.value.stage == FilterStage && t.run.value.mem.dropped == s.run.value.mem.dropped
    && var kept := t.run.value.mem.kept;
       exists files :: ScanDone(dev, s.files, s.run.value.mem.kept, files, kept)
         && t.files == Saved(files, PostScan, kept, t.run.value.mem.dropped)
  }

  /** The process dies during do_scan, leaving n more whole lines, and at least one in all. */
  ghost predicate ScanIsCut(dev: seq<Byte>, s: System, t: System) {
    && Scanning(dev, s)
    && t.run.None?
    && var lines := if InoScan in s.files then s.files[InoScan] else [];
       var rest := SaneOffsets(dev, StartSector(s.files), |dev| / INODE_SIZE);
       exists n :: 0 <= n <= |rest| && lines + rest[..n] != [] && t.files == s.files[InoScan := lines + rest[..n]]
  }

  ghost predicate IsTrace(dev: seq<Byte>, chunkBytes: nat, trace: seq<System>) {
    && trace != [] && trace[0] == System(map[], None)
    && forall i :: 0 <= i < |trace| - 1 ==> Next(dev, chunkBytes, trace[i], trace[i + 1])
  }

  // ---------------------------------------------------------------- what every run keeps

  /** ys is xs, possibly with its last inode repeated at the end: what reloads make of a list. */
  ghost predicate Repeats(xs: seq<Ino>, ys: seq<Ino>) {
    && xs <= ys && (xs == [] ==> ys == [])
    && forall i :: |xs| <= i < |ys| ==> ys[i] == xs[|xs| - 1]
  }

  lemma {:induction false} RepeatsDedupe(xs: seq<Ino>, ys: seq<Ino>)
    requires Repeats(xs, ys)
    ensures Dedupe(ys) == Dedupe(xs)
  {
    if |ys| > |xs| {
      var front, y := ys[..|ys| - 1], ys[|ys| - 1];
      RepeatsDedupe(xs, front);
      assert front[|xs| - 1] == xs[|xs| - 1] == y;
      DedupeAbsorbs(front, y);
      assert ys == front + [y];
    } else {
      assert xs == ys;
    }
  }

  lemma {:induction false} RepeatsAllocated(xs: seq<Ino>, ys: seq<Ino>)
    requires Repeats(xs, ys)
    ensures Repeats(Allocated(xs), Allocated(ys))
  {
    if |ys| > |xs| {
      var front, y := ys[..|ys| - 1], ys[|ys| - 1];
      RepeatsAllocated(xs, front);
      assert ys == front + [y];
      AllocatedAppend(front, y);
      assert xs == xs[..|xs| - 1] + [y];
      AllocatedAppend(xs[..|xs| - 1], y);
    } else {
      assert xs == ys;
    }
  }

  lemma RepeatsReread(xs: seq<Ino>, ys: seq<Ino>)
    requires Repeats(xs, ys) && ys != []
    ensures Repeats(xs, ys + [ys[|ys| - 1]])
  {
  }
}
