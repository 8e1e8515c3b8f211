/** The list a complete scan records, and why every recorded prefix of it can be completed. */
module SectorScan {
  import opened Bytes
  import opened InodeFactory
  import opened SavedLists
  import opened ProgressFiles

  /** The numbers in [lo, hi) whose flag is set, in increasing order. */
  function Listed(flags: seq<bool>, lo: nat, hi: nat): seq<nat>
    requires lo <= hi <= |flags|
  {
    if lo == hi then []
    else if flags[hi - 1] then Listed(flags, lo, hi - 1) + [hi - 1]
    else Listed(flags, lo, hi - 1)
  }

  /** The list is without gaps... */
  lemma {:induction false} ListedExactly(flags: seq<bool>, lo: nat, hi: nat, k: nat)
    requires lo <= hi <= |flags|
    ensures k in Listed(flags, lo, hi) <==> lo <= k < hi && flags[k]
  {
    if lo < hi {
      ListedExactly(flags, lo, hi - 1, k);
    }
  }

  /** ...and in order without duplicates. */
  lemma {:induction false} ListedIncreases(flags: seq<bool>, lo: nat, hi: nat, i: nat, j: nat)
    requires lo <= hi <= |flags| && i < j < |Listed(flags, lo, hi)|
    ensures Listed(flags, lo, hi)[i] < Listed(flags, lo, hi)[j]
  {
    var front := Listed(flags, lo, hi - 1);
    if j < |front| {
      ListedIncreases(flags, lo, hi - 1, i, j);
    } else {
      ListedExactly(flags, lo, hi - 1, front[i]);
    }
  }

  lemma {:induction false} ListedJoins(flags: seq<bool>, lo: nat, mid: nat, hi: nat)
    requires lo <= mid <= hi <= |flags|
    ensures Listed(flags, lo, hi) == Listed(flags, lo, mid) + Listed(flags, mid, hi)
  {
    if mid < hi {
      ListedJoins(flags, lo, mid, hi - 1);
    }
  }

  /** Behind its k-th entry a list goes on with exactly the rest of the range. */
  lemma {:induction false} ListedPrefix(flags: seq<bool>, hi: nat, k: nat) returns (next: nat)
    requires hi <= |flags| && 0 < k <= |Listed(flags, 0, hi)|
    ensures next <= hi && Listed(flags, 0, hi)[k - 1] + 1 == next
    ensures Listed(flags, 0, hi)[..k] == Listed(flags, 0, next)
    ensures Listed(flags, 0, hi)[k..] == Listed(flags, next, hi)
  {
    var full, shorter := Listed(flags, 0, hi), Listed(flags, 0, hi - 1);
    if k <= |shorter| {
      next := ListedPrefix(flags, hi - 1, k);
      if flags[hi - 1] {
        assert full[..k] == shorter[..k] && full[k..] == shorter[k..] + [hi - 1];
      }
    } else {
      next := hi;
      assert full[..k] == full && full[k..] == [];
    }
  }

  /** Where a scan starts: at the first sector, or behind the last recorded one. */
  function StartSector(files: map<File, seq<nat>>): nat {
    if InoScan in files && files[InoScan] != [] then files[InoScan][|files[InoScan]| - 1] / INODE_SIZE + 1 else 0
  }

  /**
   * What do_scan relies on: chunks of whole sectors, a device no smaller than a chunk (the unsigned difference of
   * the two wraps otherwise), and a progress file, if any, that some scan has begun to fill.
   */
  predicate ScanPossible(dev: seq<Byte>, chunkBytes: nat, files: map<File, seq<nat>>) {
    && chunkBytes % INODE_SIZE == 0 && 0 < chunkBytes <= |dev|
    && (InoScan in files ==> var lines := files[InoScan];
        lines != [] && Loadable(dev, lines) && lines[|lines| - 1] % INODE_SIZE == 0)
    && StartSector(files) <= |dev| / INODE_SIZE
  }

  /** A finished scan: the file is complete, and the vector holds what was restored and what was found. */
  ghost predicate ScanDone(dev: seq<Byte>, files: map<File, seq<nat>>, xs: seq<Ino>,
                           files': map<File, seq<nat>>, xs': seq<Ino>)
    requires StartSector(files) <= |dev| / INODE_SIZE
    requires InoScan in files ==> files[InoScan] != [] && Loadable(dev, files[InoScan])
  {
    var found := SaneOffsets(dev, StartSector(files), |dev| / INODE_SIZE);
    if InoScan in files then
      Recorded(dev, files, xs + InosAt(dev, Reread(files[InoScan])), files', xs', found)
    else
      Recorded(dev, files[InoScan := []], xs, files', xs', found)
  }

  /** Which sectors of the device hold a sane inode. */
  function SaneSectors(dev: seq<Byte>): seq<bool> {
    seq(|dev| / INODE_SIZE, k requires 0 <= k < |dev| / INODE_SIZE => SaneAt(dev, k * INODE_SIZE))
  }

  function SectorOffsets(sectors: seq<nat>): seq<nat> {
    seq(|sectors|, i requires 0 <= i < |sectors| => sectors[i] * INODE_SIZE)
  }

  /** The byte positions of the sane sectors in [lo, hi). */
  function SaneOffsets(dev: seq<Byte>, lo: nat, hi: nat): (r: seq<nat>)
    requires lo <= hi <= |dev| / INODE_SIZE
    ensures Loadable(dev, r)
  {
    var sectors := Listed(SaneSectors(dev), lo, hi);
    SaneLoadable(dev, lo, hi);
    SectorOffsets(sectors)
  }

  lemma SaneLoadable(dev: seq<Byte>, lo: nat, hi: nat)
    requires lo <= hi <= |dev| / INODE_SIZE
    ensures Loadable(dev, SectorOffsets(Listed(SaneSectors(dev), lo, hi)))
  {
    var sectors := Listed(SaneSectors(dev), lo, hi);
    forall i | 0 <= i < |sectors|
      ensures SectorOffsets(sectors)[i] + INODE_SIZE <= |dev| && ReadFromDisk(dev, SectorOffsets(sectors)[i]).Some?
    {
      ListedExactly(SaneSectors(dev), lo, hi, sectors[i]);
      assert SaneAt(dev, sectors[i] * INODE_SIZE);
    }
  }

  /** The recorded list holds exactly the positions of the sane sectors in the range... */
  lemma SaneOffsetsExactly(dev: seq<Byte>, lo: nat, hi: nat, bo: nat)
    requires lo <= hi <= |dev| / INODE_SIZE
    ensures bo in SaneOffsets(dev, lo, hi) <==>
      bo % INODE_SIZE == 0 && lo <= bo / INODE_SIZE < hi && SaneSectors(dev)[bo / INODE_SIZE]
  {
    ListedExactly(SaneSectors(dev), lo, hi, bo / INODE_SIZE);
    OffsetListed(Listed(SaneSectors(dev), lo, hi), bo);
  }

  lemma OffsetListed(sectors: seq<nat>, bo: nat)
    ensures bo in SectorOffsets(sectors) <==> bo % INODE_SIZE == 0 && bo / INODE_SIZE in sectors
  {
    if bo % INODE_SIZE == 0 && bo / INODE_SIZE in sectors {
      var i :| 0 <= i < |sectors| && sectors[i] == bo / INODE_SIZE;
      assert SectorOffsets(sectors)[i] == bo;
    }
    if bo in SectorOffsets(sectors) {
      var i :| 0 <= i < |sectors| && SectorOffsets(sectors)[i] == bo;
      assert sectors[i] == bo / INODE_SIZE;
    }
  }

  /** ...in increasing order, a sector or more apart. */
  lemma SaneOffsetsIncrease(dev: seq<Byte>, lo: nat, hi: nat, i: nat, j: nat)
    requires lo <= hi <= |dev| / INODE_SIZE && i < j < |SaneOffsets(dev, lo, hi)|
    ensures SaneOffsets(dev, lo, hi)[i] + INODE_SIZE <= SaneOffsets(dev, lo, hi)[j]
  {
    ListedIncreases(SaneSectors(dev), lo, hi, i, j);
    OffsetsApart(Listed(SaneSectors(dev), lo, hi), i, j);
  }

  lemma OffsetsApart(sectors: seq<nat>, i: nat, j: nat)
    requires i < |sectors| && j < |sectors| && sectors[i] < sectors[j]
    ensures SectorOffsets(sectors)[i] + INODE_SIZE <= SectorOffsets(sectors)[j]
  {
  }

  lemma SaneOffsetsJoin(dev: seq<Byte>, lo: nat, mid: nat, hi: nat)
    requires lo <= mid <= hi <= |dev| / INODE_SIZE
    ensures SaneOffsets(dev, lo, hi) == SaneOffsets(dev, lo, mid) + SaneOffsets(dev, mid, hi)
  {
    ListedJoins(SaneSectors(dev), lo, mid, hi);
    SectorOffsetsConcat(Listed(SaneSectors(dev), lo, mid), Listed(SaneSectors(dev), mid, hi));
  }

  lemma RecordedNothing(dev: seq<Byte>, at: nat, files: map<File, seq<nat>>, xs: seq<Ino>)
    requires InoScan in files && at <= |dev| / INODE_SIZE
    ensures Recorded(dev, files, xs, files, xs, SaneOffsets(dev, at, at))
  {
    assert Listed(SaneSectors(dev), at, at) == [];
  }

  /** Two adjacent stretches of a scan are one stretch. */
  lemma RecordedJoins(dev: seq<Byte>, lo: nat, mid: nat, hi: nat,
                      f0: map<File, seq<nat>>, x0: seq<Ino>, f1: map<File, seq<nat>>, x1: seq<Ino>,
                      f2: map<File, seq<nat>>, x2: seq<Ino>)
    requires lo <= mid <= hi <= |dev| / INODE_SIZE && InoScan in f0 && InoScan in f1
    requires Recorded(dev, f0, x0, f1, x1, SaneOffsets(dev, lo, mid))
    requires Recorded(dev, f1, x1, f2, x2, SaneOffsets(dev, mid, hi))
    ensures Recorded(dev, f0, x0, f2, x2, SaneOffsets(dev, lo, hi))
  {
    SaneOffsetsJoin(dev, lo, mid, hi);
    RecordedConcat(dev, f0, x0, f1, x1, f2, x2, SaneOffsets(dev, lo, mid), SaneOffsets(dev, mid, hi));
  }

  lemma SectorOffsetsConcat(xs: seq<nat>, ys: seq<nat>)
    ensures SectorOffsets(xs + ys) == SectorOffsets(xs) + SectorOffsets(ys)
  {
  }

  lemma SectorOffsetsSplit(xs: seq<nat>, k: nat)
    requires k <= |xs|
    ensures SectorOffsets(xs)[..k] + SectorOffsets(xs[k..]) == SectorOffsets(xs)
  {
  }

  /** One more sector: its offset joins the list exactly when it is sane. */
  lemma OneSector(dev: seq<Byte>, k: nat)
    requires k < |dev| / INODE_SIZE
    ensures SaneOffsets(dev, k, k + 1) == if SaneAt(dev, k * INODE_SIZE) then [k * INODE_SIZE] else []
  {
    assert Listed(SaneSectors(dev), k, k) == [];
  }

  lemma OffsetsResume(flags: seq<bool>, n: nat, k: nat) returns (next: nat)
    requires n <= |flags| && 0 < k <= |Listed(flags, 0, n)|
    ensures var full := SectorOffsets(Listed(flags, 0, n));
      && next <= n && full[k - 1] + INODE_SIZE == next * INODE_SIZE
      && full[..k] + SectorOffsets(Listed(flags, next, n)) == full
  {
    next := ListedPrefix(flags, n, k);
    SectorOffsetsSplit(Listed(flags, 0, n), k);
  }

  /**
   * Whatever nonempty prefix of the complete list an interruption leaves, the sector behind its last entry starts
   * exactly the rest of the list.
   */
  lemma PrefixResumes(dev: seq<Byte>, lines: seq<nat>)
    requires lines != [] && lines <= SaneOffsets(dev, 0, |dev| / INODE_SIZE)
    ensures var n, next := |dev| / INODE_SIZE, lines[|lines| - 1] / INODE_SIZE + 1;
      next <= n && lines + SaneOffsets(dev, next, n) == SaneOffsets(dev, 0, n)
  {
    var n, k := |dev| / INODE_SIZE, |lines|;
    var next := OffsetsResume(SaneSectors(dev), n, k);
    assert lines == SaneOffsets(dev, 0, n)[..k];
    assert lines[k - 1] / INODE_SIZE + 1 == next;
  }
}
