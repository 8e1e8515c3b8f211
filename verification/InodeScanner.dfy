/** The sector scan and the filtering stages, as the program runs them over the shared InodeVector. */
module InodeScannerObject {
  import opened Bytes
  import opened InodeFactory
  import opened InodeObject
  import opened Selection
  import opened Stages
  import opened Inostamps
  import opened ProgressFiles
  import opened SavedLists
  import opened SectorScan
  import opened Pipeline
  import opened InodeVectorObject

  /** counts is the stamp table built from xs. */
  ghost predicate CountsAre(counts: map<nat, nat>, xs: seq<Ino>) {
    && (forall s :: s in counts <==> Occurs(xs, s))
    && (forall s :: s in counts ==> counts[s] == Count(xs, s) > 0)
  }

  lemma CountsNext(counts: map<nat, nat>, xs: seq<Ino>, x: Ino)
    requires CountsAre(counts, xs)
    ensures var s := x.din.inostamp;
      CountsAre(counts[s := (if s in counts then counts[s] else 0) + 1], xs + [x])
  {
    var ys, t := xs + [x], x.din.inostamp;
    assert ys[..|xs|] == xs && ys[|xs|] == x;
    CountPositive(xs, t);
    forall s ensures Occurs(ys, s) <==> Occurs(xs, s) || s == t {
      if i :| 0 <= i < |xs| && xs[i].din.inostamp == s {
        assert ys[i].din.inostamp == s;
      }
      if i :| 0 <= i < |ys| && ys[i].din.inostamp == s && s != t {
        assert xs[i].din.inostamp == s;
      }
    }
  }

  /** The key an ordered map's iterator visits next. */
  method Smallest(s: set<nat>) returns (m: nat)
    requires s != {}
    ensures m in s && forall j :: j in s ==> m <= j
  {
    m :| m in s;
    var left := s - {m};
    while left != {}
      invariant left <= s && m in s
      invariant forall j :: j in s && j !in left ==> m <= j
      decreases left
    {
      var k :| k in left;
      if k < m {
        m := k;
      }
      left := left - {k};
    }
  }

  /**
   * The pass over the stamp table in key order.  issmn is the maximum of before the last change of the maximum,
   * so it is the largest count below the winner, not the second largest of all.
   */
  method MostCommon(counts: map<nat, nat>) returns (ismi: nat, ismn: nat, issmn: nat)
    requires forall s :: s in counts ==> counts[s] > 0
    ensures counts == map[] ==> ismn == 0
    ensures counts != map[] ==> ismi in counts && counts[ismi] == ismn
    ensures forall s :: s in counts ==> counts[s] < ismn || (counts[s] == ismn && ismi <= s)
    ensures forall s :: s in counts && s < ismi ==> counts[s] <= issmn
    ensures issmn == 0 || exists s :: s in counts && s < ismi && counts[s] == issmn
  {
    ismi, ismn, issmn := 0, 0, 0;
    ghost var below := 0;
    ghost var last: int := -1;
    var left := counts.Keys;
    while left != {}
      invariant left <= counts.Keys
      invariant forall s :: s in counts && s !in left ==> s <= last
      invariant forall s :: s in left ==> last < s
      invariant left == counts.Keys ==> ismn == issmn == 0
      invariant left != counts.Keys ==> ismi in counts && ismi !in left && counts[ismi] == ismn
      invariant forall s :: s in counts && s !in left ==> counts[s] < ismn || (counts[s] == ismn && ismi <= s)
      invariant forall s :: s in counts && s !in left && s < ismi ==> counts[s] <= issmn
      invariant issmn == 0 || (below in counts && below < ismi && counts[below] == issmn)
      decreases left
    {
      var k := Smallest(left);
      if counts[k] > ismn {
        issmn := ismn;
        below := ismi;
        ismn := counts[k];
        ismi := k;
      }
      last := k;
      left := left - {k};
    }
  }

  class InodeScanner {
    const dev: seq<Byte>
    const chunkBytes: nat
    const inovec: InodeVector
    const dir: ProgressDir

    constructor (inovec: InodeVector, dir: ProgressDir, chunkBytes: nat)
      ensures this.inovec == inovec && this.dir == dir && this.chunkBytes == chunkBytes && dev == inovec.dev
    {
      this.dev, this.inovec, this.dir, this.chunkBytes := inovec.dev, inovec, dir, chunkBytes;
    }

    ghost predicate Valid()
      reads inovec, inovec.inodes, inovec.invalidated
    {
      inovec.Valid() && inovec.dev == dev
    }

    // ---------------------------------------------------------------- the sector scan

    /** Reloads the positions of an interrupted scan and returns where to go on. */
    method Restore() returns (start: nat)
      requires Valid()
      requires InoScan in dir.files ==> dir.files[InoScan] != [] && Loadable(dev, dir.files[InoScan])
      modifies dir, inovec
      ensures Valid() && NewOnly(old(inovec.inodes)) && inovec.invalidated == old(inovec.invalidated)
      ensures InoScan !in old(dir.files) ==>
        start == 0 && dir.files == old(dir.files)[InoScan := []] && inovec.inodes == old(inovec.inodes)
      ensures InoScan in old(dir.files) ==> var lines := old(dir.files)[InoScan];
        && start == lines[|lines| - 1] + INODE_SIZE && dir.files == old(dir.files)
        && Views(inovec.inodes) == Views(old(inovec.inodes)) + InosAt(dev, Reread(lines))
    {
      if InoScan !in dir.files {
        dir.files := dir.files[InoScan := []];
        return 0;
      }
      var bo := AddListed(dir.files[InoScan]);
      return bo + INODE_SIZE;
    }

    /** The inodes added since are all new objects, behind the old ones. */
    twostate predicate NewOnly(was: seq<Inode>)
      reads inovec
    {
      was <= inovec.inodes && forall k :: |was| <= k < |inovec.inodes| ==> fresh(inovec.inodes[k])
    }

    method AddListed(lines: seq<nat>) returns (bo: nat)
      requires Valid() && lines != [] && Loadable(dev, lines)
      modifies inovec
      ensures Valid() && NewOnly(old(inovec.inodes)) && inovec.invalidated == old(inovec.invalidated)
      ensures Views(inovec.inodes) == Views(old(inovec.inodes)) + InosAt(dev, Reread(lines))
      ensures bo == lines[|lines| - 1]
    {
      ghost var all := Reread(lines);
      ghost var was, found := Views(inovec.inodes), InosAt(dev, all);
      var f := new PositionStream(lines);
      bo := *;
      ghost var n := 0;
      while !f.eof
        invariant fresh(f) && f.At(all, n) && (n > 0 ==> bo == all[n - 1])
        invariant Valid() && NewOnly(old(inovec.inodes)) && inovec.invalidated == old(inovec.invalidated)
        invariant Views(inovec.inodes) == was + found[..n]
        decreases |all| - n
        modifies f, inovec
      {
        bo := AddNext(f, bo, all, n);
        n := n + 1;
      }
    }

    method AddNext(f: PositionStream, bo: nat, ghost all: seq<nat>, ghost n: nat) returns (r: nat)
      requires Valid() && Loadable(dev, all)
      requires f.At(all, n) && !f.eof && (n > 0 ==> bo == all[n - 1])
      modifies f, inovec
      ensures Valid() && NewOnly(old(inovec.inodes)) && inovec.invalidated == old(inovec.invalidated)
      ensures f.At(all, n + 1) && r == all[n]
      ensures Views(inovec.inodes) == Views(old(inovec.inodes)) + [InosAt(dev, all)[n]]
    {
      r := f.Extract(bo, all, n);
      var x := LoadInode(dev, r);
      assert Views(inovec.inodes + [x]) == Views(inovec.inodes) + [x.ino];
      inovec.AddInode(x);
    }

    /** The sectors of one filled chunk buffer. */
    method ScanSectors(chunk: array<Byte>, first: nat, count: nat, ghost last: nat)
      requires Valid() && InoScan in dir.files && ChunkHolds(dev, chunk[..], first, count) && last == first + count
      modifies dir, inovec
      ensures Valid() && NewOnly(old(inovec.inodes)) && inovec.invalidated == old(inovec.invalidated)
      ensures Recorded(dev, old(dir.files), old(Views(inovec.inodes)), dir.files, Views(inovec.inodes),
                       SaneOffsets(dev, first, last))
    {
      ghost var files, was := dir.files, Views(inovec.inodes);
      RecordedNothing(dev, first, files, was);
      var curr := 0;
      ghost var sector := first;
      while curr < count
        invariant curr <= count && sector == first + curr
        invariant Valid() && NewOnly(old(inovec.inodes)) && inovec.invalidated == old(inovec.invalidated)
        invariant Recorded(dev, files, was, dir.files, Views(inovec.inodes), SaneOffsets(dev, first, sector))
        modifies dir, inovec
      {
        ScanNext(chunk, first, count, curr, sector, files, was);
        curr, sector := curr + 1, sector + 1;
      }
    }

    method ScanNext(chunk: array<Byte>, first: nat, ghost count: nat, curr: nat, ghost sector: nat,
                    ghost files: map<File, seq<nat>>, ghost was: seq<Ino>)
      requires Valid() && InoScan in dir.files && InoScan in files
      requires ChunkHolds(dev, chunk[..], first, count) && curr < count && sector == first + curr
      requires Recorded(dev, files, was, dir.files, Views(inovec.inodes), SaneOffsets(dev, first, sector))
      modifies dir, inovec
      ensures Valid() && NewOnly(old(inovec.inodes)) && inovec.invalidated == old(inovec.invalidated)
      ensures Recorded(dev, files, was, dir.files, Views(inovec.inodes), SaneOffsets(dev, first, sector + 1))
    {
      SectorOfChunk(dev, chunk[..], first, count, curr);
      ScanSector(chunk[..], curr * INODE_SIZE, first + curr, first, files, was);
    }

    method ScanSector(chunk: seq<Byte>, at: nat, sector: nat, ghost first: nat,
                      ghost files: map<File, seq<nat>>, ghost was: seq<Ino>)
      requires Valid() && InoScan in dir.files && InoScan in files
      requires first <= sector && SectorAt(dev, chunk, at, sector)
      requires Recorded(dev, files, was, dir.files, Views(inovec.inodes), SaneOffsets(dev, first, sector))
      modifies dir, inovec
      ensures Valid() && NewOnly(old(inovec.inodes)) && inovec.invalidated == old(inovec.invalidated)
      ensures Recorded(dev, files, was, dir.files, Views(inovec.inodes), SaneOffsets(dev, first, sector + 1))
    {
      ghost var f, x := dir.files, Views(inovec.inodes);
      TrySector(chunk, at, sector);
      RecordedJoins(dev, first, sector, sector + 1, files, was, f, x, dir.files, Views(inovec.inodes));
    }

    /** A sane sector is added and recorded, any other is passed over. */
    method TrySector(chunk: seq<Byte>, at: nat, sector: nat)
      requires Valid() && InoScan in dir.files && SectorAt(dev, chunk, at, sector)
      modifies dir, inovec
      ensures Valid() && NewOnly(old(inovec.inodes)) && inovec.invalidated == old(inovec.invalidated)
      ensures Recorded(dev, old(dir.files), old(Views(inovec.inodes)), dir.files, Views(inovec.inodes),
                       SaneOffsets(dev, sector, sector + 1))
    {
      OneSector(dev, sector);
      SameSector(dev, chunk, at, sector);
      var found := CreateIfSane(chunk, at, sector * INODE_SIZE);
      if found.Some? {
        AddFound(found.value);
        dir.files := dir.files[InoScan := dir.files[InoScan] + [sector * INODE_SIZE]];
      }
    }

    method AddFound(found: Ino)
      requires Valid() && found.offset + INODE_SIZE <= |dev| && found.din == DinodeAt(dev, found.offset)
      modifies inovec
      ensures Valid() && NewOnly(old(inovec.inodes)) && inovec.invalidated == old(inovec.invalidated)
      ensures Views(inovec.inodes) == Views(old(inovec.inodes)) + [found]
    {
      var x := new Inode(dev, found);
      assert Views(inovec.inodes + [x]) == Views(inovec.inodes) + [x.ino];
      inovec.AddInode(x);
    }

    /**
     * The whole scan, from the beginning or from where inoscan.txt ends.  It exits (ok is false) exactly when the
     * last recorded inode is the last sector of the device, because reading the 0 bytes that are left throws.
     */
    method DoScan() returns (ok: bool)
      requires Valid() && ScanPossible(dev, chunkBytes, dir.files)
      modifies dir, inovec
      ensures Valid() && NewOnly(old(inovec.inodes)) && inovec.invalidated == old(inovec.invalidated)
      ensures ok <==> StartSector(old(dir.files)) * INODE_SIZE < |dev|
      ensures ok ==> ScanDone(dev, old(dir.files), old(Views(inovec.inodes)), dir.files, Views(inovec.inodes))
    {
      var i := Restore();
      ok := ScanFrom(i, StartSector(old(dir.files)));
    }

    /** The chunk loop and the last, shorter read. */
    method ScanFrom(start: nat, ghost first: nat) returns (ok: bool)
      requires Valid() && InoScan in dir.files
      requires chunkBytes % INODE_SIZE == 0 && 0 < chunkBytes <= |dev|
      requires start == first * INODE_SIZE && first <= |dev| / INODE_SIZE
      modifies dir, inovec
      ensures Valid() && NewOnly(old(inovec.inodes)) && inovec.invalidated == old(inovec.invalidated)
      ensures ok <==> start < |dev|
      ensures ok ==> Recorded(dev, old(dir.files), old(Views(inovec.inodes)), dir.files, Views(inovec.inodes),
                              SaneOffsets(dev, first, |dev| / INODE_SIZE))
    {
      var chunk := new Byte[chunkBytes];
      ghost var files, was := dir.files, Views(inovec.inodes);
      var i := start;
      ghost var s, n, c := first, |dev| / INODE_SIZE, chunkBytes / INODE_SIZE;
      RecordedNothing(dev, first, files, was);
      while i < |dev| - chunkBytes
        invariant i == s * INODE_SIZE && first <= s <= n && (s == first || i < |dev|)
        invariant Valid() && NewOnly(old(inovec.inodes)) && inovec.invalidated == old(inovec.invalidated)
        invariant Recorded(dev, files, was, dir.files, Views(inovec.inodes), SaneOffsets(dev, first, s))
        decreases |dev| - i
        modifies chunk, dir, inovec
      {
        assert s + c <= n;
        ExtendScan(chunk, i, chunkBytes, first, s, c, files, was);
        i, s := i + chunkBytes, s + c;
      }
      ok := LastRead(chunk, i, first, s, n, files, was);
    }

    /** The read behind the last whole chunk. */
    method LastRead(chunk: array<Byte>, i: nat, ghost first: nat, ghost s: nat, ghost n: nat,
                    ghost files: map<File, seq<nat>>, ghost was: seq<Ino>) returns (ok: bool)
      requires Valid() && InoScan in files && i == s * INODE_SIZE && first <= s <= n == |dev| / INODE_SIZE
      requires |dev| - i <= chunk.Length
      requires Recorded(dev, files, was, dir.files, Views(inovec.inodes), SaneOffsets(dev, first, s))
      modifies chunk, dir, inovec
      ensures Valid() && NewOnly(old(inovec.inodes)) && inovec.invalidated == old(inovec.invalidated)
      ensures ok <==> i < |dev|
      ensures ok ==> Recorded(dev, files, was, dir.files, Views(inovec.inodes), SaneOffsets(dev, first, n))
    {
      var bytesLeft := |dev| - i;
      if ReadThrows(dev, i, bytesLeft) {
        return false;
      }
      ExtendScan(chunk, i, bytesLeft, first, s, n - s, files, was);
      return true;
    }

    method ExtendScan(chunk: array<Byte>, i: nat, bytes: nat, ghost first: nat, ghost s: nat, ghost count: nat,
                      ghost files: map<File, seq<nat>>, ghost was: seq<Ino>)
      requires Valid() && InoScan in files && i == s * INODE_SIZE && count == bytes / INODE_SIZE
      requires 0 < bytes <= chunk.Length && first <= s && i + bytes <= |dev|
      requires Recorded(dev, files, was, dir.files, Views(inovec.inodes), SaneOffsets(dev, first, s))
      modifies chunk, dir, inovec
      ensures Valid() && NewOnly(old(inovec.inodes)) && inovec.invalidated == old(inovec.invalidated)
      ensures Recorded(dev, files, was, dir.files, Views(inovec.inodes), SaneOffsets(dev, first, s + count))
    {
      ghost var f, x := dir.files, Views(inovec.inodes);
      var sector, sectors := i / INODE_SIZE, bytes / INODE_SIZE;
      assert sector == s && sectors == count;
      ScanChunk(chunk, sector, sectors, bytes);
      RecordedJoins(dev, first, s, s + count, files, was, f, x, dir.files, Views(inovec.inodes));
    }

    /** Fills the buffer from the device and scans it; what an earlier chunk left behind the new bytes is not seen. */
    method ScanChunk(chunk: array<Byte>, first: nat, count: nat, bytes: nat)
      requires Valid() && InoScan in dir.files
      requires 0 < bytes <= chunk.Length && count == bytes / INODE_SIZE && first * INODE_SIZE + bytes <= |dev|
      modifies chunk, dir, inovec
      ensures Valid() && NewOnly(old(inovec.inodes)) && inovec.invalidated == old(inovec.invalidated)
      ensures Recorded(dev, old(dir.files), old(Views(inovec.inodes)), dir.files, Views(inovec.inodes),
                       SaneOffsets(dev, first, first + count))
    {
      var thrown := ReadBytes(dev, first * INODE_SIZE, bytes, chunk);
      assert chunk[..][..count * INODE_SIZE] == dev[first * INODE_SIZE..(first + count) * INODE_SIZE];
      ScanSectors(chunk, first, count, first + count);
    }

    // ---------------------------------------------------------------- the stage machine

    /** The vector and the invalidated list as the pipeline's memory. */
    ghost function Mem(): Memory
      reads inovec
    {
      Memory(Views(inovec.inodes), Views(inovec.invalidated))
    }

    /**
     * One process: enter at the latest checkpoint, run and save the remaining stages.  It exits early (ok is false)
     * only when do_scan does.
     */
    method Scan() returns (ok: bool)
      requires Valid() && inovec.inodes == [] && inovec.invalidated == []
      requires Bootable(dev, chunkBytes, dir.files)
      modifies dir, inovec
      ensures Valid()
      ensures !ok <==> EntryStage(old(dir.files)) == ScanStage && StartSector(old(dir.files)) * INODE_SIZE == |dev|
      ensures ok && EntryStage(old(dir.files)) != ScanStage ==>
        Finished(old(dir.files), Process(EntryStage(old(dir.files)), Boot(dev, old(dir.files))))
      ensures ok && EntryStage(old(dir.files)) == ScanStage ==> exists files, kept ::
        ScanDone(dev, old(dir.files), [], files, kept)
        && Finished(Saved(files, PostScan, kept, []), Process(FilterStage, Memory(kept, [])))
    {
      if PostRemoveDupes in dir.files {
        Load(PostRemoveDupes);
        return true;
      }
      if PostRemoveUnallocated in dir.files {
        Load(PostRemoveUnallocated);
        FromRemoveDupes();
        return true;
      }
      if PostExtentScan in dir.files {
        Load(PostExtentScan);
        FromRemoveUnallocated();
        return true;
      }
      if PostScan in dir.files {
        Load(PostScan);
        FromFilter();
        return true;
      }
      ok := ScanAndSave();
      if ok {
        FromFilter();
      }
    }

    /** Entering behind a checkpoint. */
    method Load(f: File)
      requires Valid() && inovec.inodes == [] && inovec.invalidated == []
      requires EntryStage(dir.files) != ScanStage && f == EntryFile(EntryStage(dir.files))
      requires f in dir.files && Bootable(dev, chunkBytes, dir.files)
      modifies inovec
      ensures Valid() && Mem() == Boot(dev, dir.files)
      ensures forall k :: 0 <= k < |inovec.inodes| ==> fresh(inovec.inodes[k])
    {
      assert Views([]) == [];
      inovec.LoadFromPositions(dir, f);
    }

    /** The checkpoint behind a stage. */
    method Save(f: File)
      requires Valid()
      modifies dir
      ensures Valid() && Mem() == old(Mem())
      ensures dir.files == Saved(old(dir.files), f, Mem().kept, Mem().dropped)
    {
      inovec.SavePositions(dir, f);
    }

    /** Entering at the beginning. */
    method ScanAndSave() returns (ok: bool)
      requires Valid() && inovec.inodes == [] && inovec.invalidated == []
      requires ScanPossible(dev, chunkBytes, dir.files)
      modifies dir, inovec
      ensures Valid()
      ensures ok <==> StartSector(old(dir.files)) * INODE_SIZE < |dev|
      ensures ok ==> Mem().dropped == []
      ensures ok ==> exists files ::
        ScanDone(dev, old(dir.files), [], files, Mem().kept) && dir.files == Saved(files, PostScan, Mem().kept, [])
      ensures forall k :: 0 <= k < |inovec.inodes| ==> fresh(inovec.inodes[k])
    {
      assert Views([]) == [];
      ok := DoScan();
      if ok {
        Save(PostScan);
      }
    }

    /** This process has run everything that remained after the given point. */
    ghost predicate Finished(files: Files, p: Process)
      requires p.stage != ScanStage
      reads dir, inovec
    {
      dir.files == Complete(files, p).files && Mem() == Complete(files, p).run.value.mem
    }

    method FromFilter()
      requires Valid()
      modifies dir, inovec, inovec.inodes
      ensures Valid() && Finished(old(dir.files), Process(FilterStage, old(Mem())))
    {
      CompleteFilter(dir.files, Mem());
      FilterAndDetect();
      Save(PostExtentScan);
      FromRemoveUnallocated();
    }

    method FilterAndDetect()
      requires Valid()
      modifies inovec, inovec.inodes
      ensures Valid() && Mem() == RunStage(FilterStage, old(Mem()))
      ensures forall k :: 0 <= k < |inovec.inodes| ==> inovec.inodes[k] in old(inovec.inodes)
    {
      ghost var m := Mem();
      FilterInostamps();
      assert Mem() == AfterFilter(m);
      DetectInoExtents();
    }

    method FromRemoveUnallocated()
      requires Valid()
      modifies dir, inovec, inovec.inodes
      ensures Valid() && Finished(old(dir.files), Process(UnallocatedStage, old(Mem())))
    {
      RemoveUnallocated();
      Save(PostRemoveUnallocated);
      FromRemoveDupes();
    }

    method FromRemoveDupes()
      requires Valid()
      modifies dir, inovec, inovec.inodes
      ensures Valid() && Finished(old(dir.files), Process(DupesStage, old(Mem())))
    {
      RemoveDupesView();
      Save(PostRemoveDupes);
      inovec.FreeDinodes();
    }

    method RemoveDupesView()
      requires Valid()
      modifies inovec, inovec.inodes
      ensures Valid() && Mem() == RunStage(DupesStage, old(Mem()))
      ensures forall k :: 0 <= k < |inovec.inodes| ==> inovec.inodes[k] in old(inovec.inodes)
    {
      ghost var m := Mem();
      ViewsOfPick(inovec.inodes, Complement(BestMask(m.kept)));
      PickDistinct(inovec.inodes, BestMask(m.kept));
      inovec.RemoveDupes();
      assert Mem() == Narrow(m, BestMask(m.kept));
    }

    // ---------------------------------------------------------------- the filtering stages

    method CountStamps() returns (counts: map<nat, nat>)
      requires Valid()
      modifies inovec.inodes
      ensures Valid() && CountsAre(counts, Views(inovec.inodes))
    {
      ghost var xs := Views(inovec.inodes);
      counts := map[];
      for i := 0 to |inovec.inodes|
        invariant Valid()
        invariant CountsAre(counts, xs[..i])
        modifies inovec.inodes
      {
        CountsNext(counts, xs[..i], xs[i]);
        assert xs[..i + 1] == xs[..i] + [xs[i]];
        var d := inovec.DinodeOf(i);
        counts := counts[d.inostamp := (if d.inostamp in counts then counts[d.inostamp] else 0) + 1];
        inovec.FreeDinodeOf(i);
      }
      assert xs[..|xs|] == xs;
    }

    method FilterInostamps()
      requires Valid()
      modifies inovec, inovec.inodes
      ensures Valid()
      ensures Kept(old(inovec.inodes), old(inovec.invalidated), StampMask(Views(old(inovec.inodes))))
    {
      var remove, stamp := DecideStamp();
      ApplyStamp(remove, stamp, StampMask(Views(inovec.inodes)));
    }

    method ApplyStamp(remove: bool, stamp: nat, ghost mask: seq<bool>)
      requires Valid() && |mask| == |inovec.inodes| && MaskDecides(Views(inovec.inodes), mask, remove, stamp)
      modifies inovec, inovec.inodes
      ensures Valid() && Kept(old(inovec.inodes), old(inovec.invalidated), mask)
    {
      if remove {
        MarkOthers(stamp, Complement(mask));
        RemoveMarkedViews(mask);
      }
    }

    /** Counting, the table pass and the guard. */
    method DecideStamp() returns (remove: bool, stamp: nat)
      requires Valid()
      modifies inovec.inodes
      ensures Valid() && MaskDecides(Views(inovec.inodes), StampMask(Views(inovec.inodes)), remove, stamp)
    {
      var counts := CountStamps();
      var ismi, ismn, issmn := MostCommon(counts);
      TableVerdict(counts, Views(inovec.inodes), ismi, ismn, issmn);
      remove, stamp := ismn / 100 > issmn, ismi;
    }

    method MarkOthers(stamp: nat, ghost goes: seq<bool>)
      requires Valid() && |goes| == |inovec.inodes|
      requires forall k :: 0 <= k < |goes| ==> goes[k] == (Views(inovec.inodes)[k].din.inostamp != stamp)
      modifies inovec.inodes
      ensures Valid() && Marks(inovec.inodes) == goes
    {
      inovec.UnmarkAll();
      for i := 0 to |inovec.inodes|
        invariant Valid()
        invariant forall k :: 0 <= k < |inovec.inodes| ==> Marks(inovec.inodes)[k] == (k < i && goes[k])
        modifies inovec.inodes
      {
        var d := inovec.DinodeOf(i);
        if d.inostamp != stamp {
          inovec.SetMark(i, true);
        }
        inovec.FreeDinodeOf(i);
      }
    }

    /** remove_marked when the marks are exactly the inodes outside the mask. */
    method RemoveMarkedViews(ghost mask: seq<bool>)
      requires Valid() && |mask| == |inovec.inodes| && Marks(inovec.inodes) == Complement(mask)
      modifies inovec
      ensures Valid() && Kept(old(inovec.inodes), old(inovec.invalidated), mask)
    {
      ViewsOfPick(inovec.inodes, mask);
      ViewsOfPick(inovec.inodes, Complement(mask));
      PickDistinct(inovec.inodes, mask);
      assert Complement(Complement(mask)) == mask;
      inovec.RemoveMarked();
    }

    /** remove_unmarked when the marks are the mask. */
    method RemoveUnmarkedViews(ghost mask: seq<bool>)
      requires Valid() && |mask| == |inovec.inodes| && Marks(inovec.inodes) == mask
      modifies inovec
      ensures Valid() && Kept(old(inovec.inodes), old(inovec.invalidated), mask)
    {
      ViewsOfPick(inovec.inodes, mask);
      ViewsOfPick(inovec.inodes, Complement(mask));
      PickDistinct(inovec.inodes, mask);
      inovec.RemoveUnmarked();
    }

    /** The vector now holds the inodes that the mask selects; the others were appended to the invalidated list. */
    ghost predicate Kept(was: seq<Inode>, wasInvalidated: seq<Inode>, mask: seq<bool>)
      requires |mask| == |was|
      reads inovec
    {
      && (forall k :: 0 <= k < |inovec.inodes| ==> inovec.inodes[k] in was)
      && Views(inovec.inodes) == Pick(Views(was), mask)
      && Views(inovec.invalidated) == Views(wasInvalidated) + Pick(Views(was), Complement(mask))
    }

    method RemoveUnallocated()
      requires Valid()
      modifies inovec, inovec.inodes
      ensures Valid()
      ensures Kept(old(inovec.inodes), old(inovec.invalidated), AllocatedMask(Views(old(inovec.inodes))))
    {
      MarkUnallocated();
      RemoveMarkedViews(AllocatedMask(Views(inovec.inodes)));
    }

    method MarkUnallocated()
      requires Valid()
      modifies inovec.inodes
      ensures Valid() && Marks(inovec.inodes) == Complement(AllocatedMask(Views(inovec.inodes)))
    {
      ghost var goes := Complement(AllocatedMask(Views(inovec.inodes)));
      for i := 0 to |inovec.inodes|
        invariant Valid()
        invariant forall k :: 0 <= k < i ==> Marks(inovec.inodes)[k] == goes[k]
        modifies inovec.inodes
      {
        var d := inovec.DinodeOf(i);
        inovec.SetMark(i, d.nlink == 0);
        inovec.FreeDinodeOf(i);
      }
    }

    /** The forward do-while of detect_ino_extents. */
    method CountForward(i: nat) returns (n: nat)
      requires Valid() && i < |inovec.inodes|
      modifies inovec.inodes
      ensures Valid() && Marks(inovec.inodes) == old(Marks(inovec.inodes))
      ensures var f := Forward(Views(inovec.inodes), i); 1 <= n <= f && (n == f || n == 32)
    {
      ghost var xs := Views(inovec.inodes);
      var j := i;
      n := 0;
      var again := true;
      while again
        invariant Valid() && Marks(inovec.inodes) == old(Marks(inovec.inodes))
        invariant i <= j <= |xs| && n == j - i
        invariant again ==> j < |xs| && n < 32 && Forward(xs, i) == n + Forward(xs, j)
        invariant !again ==> 1 <= n <= Forward(xs, i) && (n == Forward(xs, i) || n == 32)
        decreases |xs| - j, again
        modifies inovec.inodes
      {
        var d := inovec.DinodeOf(j);
        var lastDin: int, lastBo: int := d.number, inovec.OffsetOf(j);
        n := n + 1;
        j := j + 1;
        again := false;
        if j < |inovec.inodes| {
          var e := inovec.DinodeOf(j);
          again := e.number == lastDin + 1 && inovec.OffsetOf(j) == lastBo + 512 && n < 32;
        }
      }
    }

    /** The backward do-while, which starts from the forward count and counts the inode itself again. */
    method CountBackward(i: nat, forward: nat) returns (n: nat)
      requires Valid() && i < |inovec.inodes|
      modifies inovec.inodes
      ensures Valid() && Marks(inovec.inodes) == old(Marks(inovec.inodes))
      ensures var b := Backward(Views(inovec.inodes), i);
        forward + 1 <= n <= forward + b && (n == forward + b || n >= 32)
    {
      ghost var xs := Views(inovec.inodes);
      var j: int := i;
      n := forward;
      var again := true;
      while again
        invariant Valid() && Marks(inovec.inodes) == old(Marks(inovec.inodes))
        invariant -1 <= j <= i
        invariant again ==> 0 <= j && n == forward + i - j && forward + Backward(xs, i) == n + Backward(xs, j)
        invariant !again ==> forward + 1 <= n <= forward + Backward(xs, i)
        invariant !again ==> n == forward + Backward(xs, i) || n >= 32
        decreases j + 1, again
        modifies inovec.inodes
      {
        var d := inovec.DinodeOf(j);
        var lastDin: int, lastBo: int := d.number, inovec.OffsetOf(j);
        n := n + 1;
        j := j - 1;
        again := false;
        if j > 0 {
          var e := inovec.DinodeOf(j);
          again := e.number == lastDin - 1 && inovec.OffsetOf(j) == lastBo - 512 && n < 32;
        }
      }
    }

    method CountConsecutive(i: nat) returns (n: nat)
      requires Valid() && i < |inovec.inodes|
      modifies inovec.inodes
      ensures Valid() && Marks(inovec.inodes) == old(Marks(inovec.inodes))
      ensures n >= 32 <==> InExtent(Views(inovec.inodes), i)
    {
      var forward := CountForward(i);
      n := CountBackward(i, forward);
    }

    method DetectInoExtents()
      requires Valid()
      modifies inovec, inovec.inodes
      ensures Valid()
      ensures Kept(old(inovec.inodes), old(inovec.invalidated), ExtentMask(Views(old(inovec.inodes))))
    {
      MarkExtents();
      inovec.FreeDinodes();
      RemoveUnmarkedViews(ExtentMask(Views(inovec.inodes)));
    }

    method MarkExtents()
      requires Valid()
      modifies inovec.inodes
      ensures Valid() && Marks(inovec.inodes) == ExtentMask(Views(inovec.inodes))
    {
      ghost var stays := ExtentMask(Views(inovec.inodes));
      inovec.UnmarkAll();
      for i := 0 to |inovec.inodes|
        invariant Valid()
        invariant forall k :: 0 <= k < |inovec.inodes| ==> Marks(inovec.inodes)[k] == (k < i && stays[k])
        modifies inovec.inodes
      {
        if i > 33 {
          inovec.FreeDinodeOf(i - 33);
        }
        var numConsec := CountConsecutive(i);
        if numConsec >= 32 {
          inovec.SetMark(i, true);
        }
        inovec.FreeDinodeOf(i);
      }
    }
  }

  /** The chunk buffer begins with count sectors of the device, from sector first on. */
  predicate ChunkHolds(dev: seq<Byte>, chunk: seq<Byte>, first: nat, count: nat) {
    && count * INODE_SIZE <= |chunk| && first + count <= |dev| / INODE_SIZE
    && chunk[..count * INODE_SIZE] == dev[first * INODE_SIZE..(first + count) * INODE_SIZE]
  }

  lemma SectorOfChunk(dev: seq<Byte>, chunk: seq<Byte>, first: nat, count: nat, curr: nat)
    requires curr < count && ChunkHolds(dev, chunk, first, count)
    ensures SectorAt(dev, chunk, curr * INODE_SIZE, first + curr)
  {
    var at, o, all := curr * INODE_SIZE, (first + curr) * INODE_SIZE, chunk[..count * INODE_SIZE];
    assert chunk[at..at + INODE_SIZE] == all[at..at + INODE_SIZE];
    var part := dev[first * INODE_SIZE..(first + count) * INODE_SIZE];
    assert o == first * INODE_SIZE + at;
    assert part[at..at + INODE_SIZE] == dev[o..o + INODE_SIZE];
  }

  /** The chunk buffer holds the given sector of the device at the given position. */
  predicate SectorAt(dev: seq<Byte>, chunk: seq<Byte>, at: nat, sector: nat) {
    && sector < |dev| / INODE_SIZE && at + INODE_SIZE <= |chunk|
    && chunk[at..at + INODE_SIZE] == dev[sector * INODE_SIZE..sector * INODE_SIZE + INODE_SIZE]
  }

  lemma SameSector(dev: seq<Byte>, chunk: seq<Byte>, at: nat, sector: nat)
    requires SectorAt(dev, chunk, at, sector)
    ensures var o := sector * INODE_SIZE; var found := CreateIfSane(chunk, at, o);
      && (found.Some? <==> SaneAt(dev, o))
      && (found.Some? ==> found == ReadFromDisk(dev, o))
      && (found.Some? ==> found.value.offset == o && found.value.din == DinodeAt(dev, o))
  {
    ScanAgreesWithReload(dev, chunk, at, sector * INODE_SIZE);
  }

  /** What the mask does: remove the other stamps, or nothing. */
  ghost predicate MaskDecides(xs: seq<Ino>, mask: seq<bool>, remove: bool, stamp: nat)
    requires |mask| == |xs|
  {
    if remove then forall k :: 0 <= k < |xs| ==> mask[k] == (xs[k].din.inostamp == stamp)
    else Pick(xs, mask) == xs && Pick(xs, Complement(mask)) == []
  }

  /** The table pass decides whether and by which stamp the specification's mask removes. */
  lemma TableVerdict(counts: map<nat, nat>, xs: seq<Ino>, ismi: nat, ismn: nat, issmn: nat)
    requires CountsAre(counts, xs)
    requires counts == map[] ==> ismn == 0
    requires counts != map[] ==> ismi in counts && counts[ismi] == ismn
    requires forall s :: s in counts ==> counts[s] < ismn || (counts[s] == ismn && ismi <= s)
    requires forall s :: s in counts && s < ismi ==> counts[s] <= issmn
    requires issmn == 0 || exists s :: s in counts && s < ismi && counts[s] == issmn
    ensures MaskDecides(xs, StampMask(xs), ismn / 100 > issmn, ismi)
  {
    TableDecides(counts, xs, ismi, ismn, issmn);
    if !(ismn / 100 > issmn) {
      PickAll(xs, StampMask(xs));
      PickNone(xs, Complement(StampMask(xs)));
    }
  }

  lemma TableDecides(counts: map<nat, nat>, xs: seq<Ino>, ismi: nat, ismn: nat, issmn: nat)
    requires CountsAre(counts, xs)
    requires counts == map[] ==> ismn == 0
    requires counts != map[] ==> ismi in counts && counts[ismi] == ismn
    requires forall s :: s in counts ==> counts[s] < ismn || (counts[s] == ismn && ismi <= s)
    requires forall s :: s in counts && s < ismi ==> counts[s] <= issmn
    requires issmn == 0 || exists s :: s in counts && s < ismi && counts[s] == issmn
    ensures ismn / 100 > issmn <==> Dominates(xs)
    ensures Dominates(xs) ==> ismi == Winner(xs)
  {
    if xs == [] {
      assert forall s :: !Occurs(xs, s);
    } else {
      forall i | 0 <= i < |xs| ensures Occurs(xs, xs[i].din.inostamp) {
      }
      WinnerIsUnique(xs, ismi, issmn);
    }
  }
}
