/**
 * The post-processing stages as functions of the list of found inodes.  Each stage is a mask over the list;
 * the scanner's methods are proved against these masks.
 */
module Stages {
  import opened InodeFactory
  import opened Selection

  // ---------------------------------------------------------------- number index and duplicates

  /** The inode a lookup of its number must find: newest creation time, earliest in the list on ties. */
  ghost predicate IsBest(xs: seq<Ino>, i: nat) {
    i < |xs| &&
    forall j :: 0 <= j < |xs| && j != i && xs[j].din.number == xs[i].din.number ==>
      || xs[j].din.otime.sec < xs[i].din.otime.sec
      || (xs[j].din.otime.sec == xs[i].din.otime.sec && xs[j].din.otime.nsec < xs[i].din.otime.nsec)
      || (xs[j].din.otime == xs[i].din.otime && i < j)
  }

  /** Inodes as a scan finds them: in increasing, separate sectors. */
  ghost predicate InScanOrder(xs: seq<Ino>) {
    forall i, j :: 0 <= i < j < |xs| ==> xs[i].offset + 512 <= xs[j].offset
  }

  /** Inodes as a process has them in memory: in order, where an inode can be repeated. */
  ghost predicate InOrder(xs: seq<Ino>) {
    forall i, j :: 0 <= i < j < |xs| ==> xs[i].offset + 512 <= xs[j].offset || xs[i] == xs[j]
  }

  predicate HasNumber(xs: seq<Ino>, d: nat) {
    exists i :: 0 <= i < |xs| && xs[i].din.number == d
  }

  /** The inodes of one number, in order. */
  function WithNumber(xs: seq<Ino>, d: nat): seq<Ino> {
    if xs == [] then []
    else
      var n := |xs| - 1;
      if xs[n].din.number == d then WithNumber(xs[..n], d) + [xs[n]] else WithNumber(xs[..n], d)
  }

  lemma WithNumberNext(xs: seq<Ino>, d: nat, i: nat)
    requires i < |xs|
    ensures WithNumber(xs[..i + 1], d) == WithNumber(xs[..i], d) + if xs[i].din.number == d then [xs[i]] else []
  {
    assert xs[..i + 1][..i] == xs[..i];
  }

  lemma {:induction false} WithNumberMembers(xs: seq<Ino>, d: nat, x: Ino)
    ensures x in WithNumber(xs, d) <==> x in xs && x.din.number == d
  {
    if xs != [] {
      var n := |xs| - 1;
      WithNumberMembers(xs[..n], d, x);
      assert xs == xs[..n] + [xs[n]];
    }
  }

  function NumberMask(xs: seq<Ino>, d: nat): seq<bool> {
    seq(|xs|, i requires 0 <= i < |xs| => xs[i].din.number == d)
  }

  /** They are picked from the list, which keeps their order. */
  lemma {:induction false} WithNumberPicks(xs: seq<Ino>, d: nat)
    ensures WithNumber(xs, d) == Pick(xs, NumberMask(xs, d))
  {
    if xs != [] {
      var n := |xs| - 1;
      WithNumberPicks(xs[..n], d);
      assert NumberMask(xs, d)[..n] == NumberMask(xs[..n], d);
    }
  }

  /** generate_di_number_index: one pass, replacing an entry only by a strictly newer inode. */
  function IndexOf(xs: seq<Ino>): (m: map<nat, nat>)
    ensures forall d :: d in m ==> m[d] < |xs|
  {
    if xs == [] then map[]
    else
      var n := |xs| - 1;
      var m := IndexOf(xs[..n]);
      var d := xs[n].din.number;
      if d !in m || Before(xs[m[d]].din.otime, xs[n].din.otime) then m[d := n] else m
  }

  lemma {:induction false} IndexKeys(xs: seq<Ino>, d: nat)
    ensures d in IndexOf(xs) <==> HasNumber(xs, d)
  {
    if xs != [] {
      var n := |xs| - 1;
      IndexKeys(xs[..n], d);
      assert forall i :: 0 <= i < n ==> xs[..n][i] == xs[i];
      if HasNumber(xs, d) && d != xs[n].din.number {
        var i :| 0 <= i < |xs| && xs[i].din.number == d;
        assert xs[..n][i].din.number == d;
      }
    }
  }

  /** The one-pass index holds exactly the numbers present, each at its best inode. */
  lemma {:induction false} IndexIsBest(xs: seq<Ino>, d: nat)
    ensures d in IndexOf(xs) <==> HasNumber(xs, d)
    ensures d in IndexOf(xs) ==> IsBest(xs, IndexOf(xs)[d]) && xs[IndexOf(xs)[d]].din.number == d
  {
    IndexKeys(xs, d);
    if d in IndexOf(xs) {
      var n := |xs| - 1;
      var front := xs[..n];
      IndexIsBest(front, d);
      if IndexOf(xs)[d] == n && d !in IndexOf(front) {
        forall j | 0 <= j < n ensures xs[j].din.number != d {
          assert front[j] == xs[j];
        }
      }
      assert forall j :: 0 <= j < n ==> front[j] == xs[j];
    }
  }

  lemma BestIsUnique(xs: seq<Ino>, i: nat, j: nat)
    requires IsBest(xs, i) && IsBest(xs, j) && xs[i].din.number == xs[j].din.number
    ensures i == j
  {
  }

  ghost function BestMask(xs: seq<Ino>): seq<bool> {
    seq(|xs|, i requires 0 <= i < |xs| => IsBest(xs, i))
  }

  /** remove_dupes: of every number only the best inode is left. */
  ghost function Dedupe(xs: seq<Ino>): seq<Ino> {
    Pick(xs, BestMask(xs))
  }

  /** Removing duplicates leaves pairwise distinct numbers. */
  lemma DedupeDistinct(xs: seq<Ino>, i: nat, j: nat)
    requires i < j < |Dedupe(xs)|
    ensures Dedupe(xs)[i].din.number != Dedupe(xs)[j].din.number
  {
    var at := Positions(BestMask(xs));
    PickKeepsOrder(xs, BestMask(xs));
    if Dedupe(xs)[i].din.number == Dedupe(xs)[j].din.number {
      BestIsUnique(xs, at[i], at[j]);
    }
  }

  /** Removing duplicates loses no number: the best inode of each one stays. */
  lemma DedupeKeepsBest(xs: seq<Ino>, i: nat)
    requires IsBest(xs, i)
    ensures xs[i] in Dedupe(xs)
  {
    PickMembers(xs, BestMask(xs), xs[i]);
    assert BestMask(xs)[i];
  }

  /**
   * In the fields alone: what is left are the inodes created last of their number, by seconds, then by nanoseconds,
   * then by being listed first.
   */
  lemma DedupeMembers(xs: seq<Ino>, x: Ino)
    ensures x in Dedupe(xs) <==>
      exists i ::
        && 0 <= i < |xs| && xs[i] == x
        && forall j :: 0 <= j < |xs| && xs[j].din.number == x.din.number ==>
          || xs[j].din.otime.sec < x.din.otime.sec
          || (xs[j].din.otime.sec == x.din.otime.sec && xs[j].din.otime.nsec < x.din.otime.nsec)
          || (xs[j].din.otime.sec == x.din.otime.sec && xs[j].din.otime.nsec == x.din.otime.nsec && i <= j)
  {
    PickMembers(xs, BestMask(xs), x);
    if x in Dedupe(xs) {
      var i :| 0 <= i < |xs| && BestMask(xs)[i] && xs[i] == x;
      assert IsBest(xs, i);
    }
    if i :|
      && 0 <= i < |xs| && xs[i] == x
      && forall j :: 0 <= j < |xs| && xs[j].din.number == x.din.number ==>
        || xs[j].din.otime.sec < x.din.otime.sec
        || (xs[j].din.otime.sec == x.din.otime.sec && xs[j].din.otime.nsec < x.din.otime.nsec)
        || (xs[j].din.otime.sec == x.din.otime.sec && xs[j].din.otime.nsec == x.din.otime.nsec && i <= j)
    {
      assert IsBest(xs, i);
      assert BestMask(xs)[i];
    }
  }

  /** Appending an inode that the list already holds changes no verdict and is itself dropped. */
  lemma DedupeAbsorbs(xs: seq<Ino>, y: Ino)
    requires y in xs
    ensures Dedupe(xs + [y]) == Dedupe(xs)
  {
    var zs := xs + [y];
    var k :| 0 <= k < |xs| && xs[k] == y;
    forall i | 0 <= i < |xs| ensures IsBest(zs, i) <==> IsBest(xs, i) {
      assert forall j :: 0 <= j < |xs| ==> zs[j] == xs[j];
      if IsBest(zs, i) {
        assert forall j :: 0 <= j < |xs| ==> zs[j] == xs[j] && j < |zs|;
      }
    }
    assert zs[k] == zs[|xs|] && !IsBest(zs, |xs|);
    assert BestMask(zs) == BestMask(xs) + [false];
    PickAppend(xs, BestMask(xs), y, false);
  }

  /** Nor does it change what any lookup finds: the index of a reloaded list is the index of the list. */
  lemma IndexAbsorbs(xs: seq<Ino>, y: Ino)
    requires y in xs
    ensures IndexOf(xs + [y]) == IndexOf(xs)
  {
    var k :| 0 <= k < |xs| && xs[k] == y;
    assert HasNumber(xs, y.din.number);
    IndexIsBest(xs, y.din.number);
    assert (xs + [y])[..|xs|] == xs;
  }

  // ---------------------------------------------------------------- unallocated inodes

  function AllocatedMask(xs: seq<Ino>): seq<bool> {
    seq(|xs|, i requires 0 <= i < |xs| => xs[i].din.nlink != 0)
  }

  function Allocated(xs: seq<Ino>): seq<Ino> {
    Pick(xs, AllocatedMask(xs))
  }

  lemma AllocatedAppend(xs: seq<Ino>, y: Ino)
    ensures Allocated(xs + [y]) == if y.din.nlink != 0 then Allocated(xs) + [y] else Allocated(xs)
  {
    assert AllocatedMask(xs + [y]) == AllocatedMask(xs) + [y.din.nlink != 0];
    PickAppend(xs, AllocatedMask(xs), y, y.din.nlink != 0);
  }

  // ---------------------------------------------------------------- inode extents

  /** Positions k and k+1 hold consecutive inode numbers in consecutive sectors. */
  predicate Linked(xs: seq<Ino>, k: nat) {
    k + 1 < |xs| && xs[k + 1].din.number == xs[k].din.number + 1 && xs[k + 1].offset == xs[k].offset + 512
  }

  /** What the forward loop counts, i itself included. */
  function Forward(xs: seq<Ino>, i: nat): (n: nat)
    requires i < |xs|
    ensures n >= 1
    decreases |xs| - i
  {
    1 + if Linked(xs, i) then Forward(xs, i + 1) else 0
  }

  /** What the backward loop counts, i itself included once more; it never visits position 0. */
  function Backward(xs: seq<Ino>, i: nat): (n: nat)
    requires i < |xs|
    ensures n >= 1
  {
    1 + if i > 1 && Linked(xs, i - 1) then Backward(xs, i - 1) else 0
  }

  predicate InExtent(xs: seq<Ino>, i: nat)
    requires i < |xs|
  {
    Forward(xs, i) + Backward(xs, i) >= 32
  }

  function ExtentMask(xs: seq<Ino>): seq<bool> {
    seq(|xs|, i requires 0 <= i < |xs| => InExtent(xs, i))
  }

  function Extents(xs: seq<Ino>): seq<Ino> {
    Pick(xs, ExtentMask(xs))
  }

  /** In the fields alone: the forward loop counts i and what follows it as long as numbers and sectors go up. */
  lemma {:induction false} ForwardByFields(xs: seq<Ino>, i: nat)
    requires i < |xs|
    ensures var n := Forward(xs, i);
      && i + n <= |xs|
      && (forall k :: i <= k < i + n ==>
        xs[k].din.number == xs[i].din.number + (k - i) && xs[k].offset == xs[i].offset + 512 * (k - i))
      && (i + n < |xs| ==>
        xs[i + n].din.number != xs[i].din.number + n || xs[i + n].offset != xs[i].offset + 512 * n)
    decreases |xs| - i
  {
    if Linked(xs, i) {
      ForwardByFields(xs, i + 1);
    }
  }

  /** The backward loop counts i once more and what precedes it likewise, and stops in front of position 0. */
  lemma {:induction false} BackwardByFields(xs: seq<Ino>, i: nat)
    requires i < |xs|
    ensures var m := Backward(xs, i) - 1;
      && (m == 0 || 1 <= i - m)
      && (forall k :: i - m <= k <= i ==>
        xs[k].din.number == xs[i].din.number - (i - k) && xs[k].offset == xs[i].offset - 512 * (i - k))
      && (1 < i - m ==>
        || xs[i - m - 1].din.number != xs[i].din.number - (m + 1)
        || xs[i - m - 1].offset != xs[i].offset - 512 * (m + 1))
  {
    if i > 1 && Linked(xs, i - 1) {
      BackwardByFields(xs, i - 1);
    }
  }

  /** [a..b] is a longest stretch of consecutive inodes. */
  predicate MaximalRun(xs: seq<Ino>, a: nat, b: nat) {
    a <= b < |xs| && (forall k :: a <= k < b ==> Linked(xs, k)) && (a == 0 || !Linked(xs, a - 1)) && !Linked(xs, b)
  }

  lemma {:induction false} ForwardInRun(xs: seq<Ino>, a: nat, b: nat, i: nat)
    requires MaximalRun(xs, a, b) && a <= i <= b
    ensures Forward(xs, i) == b - i + 1
    decreases b - i
  {
    if i < b {
      ForwardInRun(xs, a, b, i + 1);
    }
  }

  lemma {:induction false} BackwardInRun(xs: seq<Ino>, a: nat, b: nat, i: nat)
    requires MaximalRun(xs, a, b) && a <= i <= b
    ensures Backward(xs, i) == if i == 0 then 1 else i - (if a == 0 then 1 else a) + 1
    decreases i
  {
    if i > a && i > 1 {
      BackwardInRun(xs, a, b, i - 1);
    }
  }

  /** The verdict on position i of a maximal run [a..b]. */
  predicate RunVerdict(a: nat, b: int, i: int) {
    if a > 0 then b - a + 1 >= 31 else b + 1 >= 32 || (b + 1 == 31 && i == 0)
  }

  /**
   * The exact verdict of the extent detector: away from the head of the list a run is kept whole from length 31
   * on and dropped whole below; a run at the head needs 32, and of one of exactly 31 only position 0 stays.
   */
  lemma ExtentVerdict(xs: seq<Ino>, a: nat, b: nat, i: nat)
    requires MaximalRun(xs, a, b) && a <= i <= b
    ensures InExtent(xs, i) <==> RunVerdict(a, b, i)
  {
    ForwardInRun(xs, a, b, i);
    BackwardInRun(xs, a, b, i);
  }

  /** The first and last position of the longest stretch around i. */
  function RunStart(xs: seq<Ino>, i: nat): (a: nat)
    requires i < |xs|
    ensures a <= i
  {
    if i > 0 && Linked(xs, i - 1) then RunStart(xs, i - 1) else i
  }

  function RunEnd(xs: seq<Ino>, i: nat): (b: nat)
    requires i < |xs|
    ensures i <= b < |xs|
    decreases |xs| - i
  {
    if Linked(xs, i) then RunEnd(xs, i + 1) else i
  }

  lemma {:induction false} RunEndIs(xs: seq<Ino>, i: nat)
    requires i < |xs|
    ensures !Linked(xs, RunEnd(xs, i)) && forall k :: i <= k < RunEnd(xs, i) ==> Linked(xs, k)
    decreases |xs| - i
  {
    if Linked(xs, i) {
      RunEndIs(xs, i + 1);
    }
  }

  lemma {:induction false} RunStartIs(xs: seq<Ino>, i: nat)
    requires i < |xs|
    ensures RunStart(xs, i) == 0 || !Linked(xs, RunStart(xs, i) - 1)
    ensures forall k :: RunStart(xs, i) <= k < i ==> Linked(xs, k)
  {
    if i > 0 && Linked(xs, i - 1) {
      RunStartIs(xs, i - 1);
    }
  }

  /** Every position lies in a maximal run, so the verdict above decides every position. */
  lemma RunAround(xs: seq<Ino>, i: nat)
    requires i < |xs|
    ensures MaximalRun(xs, RunStart(xs, i), RunEnd(xs, i)) && RunStart(xs, i) <= i <= RunEnd(xs, i)
  {
    RunStartIs(xs, i);
    RunEndIs(xs, i);
  }

  /**
   * The documentation keeps an inode when it belongs to a group of 32.  The code agrees except on runs of
   * exactly 31: it keeps those too, but at the head of the list only their first inode.
   */
  lemma GroupsOf32(xs: seq<Ino>, a: nat, b: nat, i: nat)
    requires MaximalRun(xs, a, b) && a <= i <= b
    ensures (InExtent(xs, i) <==> b - a + 1 >= 32) <==> !(b - a + 1 == 31 && (a > 0 || i == 0))
  {
    ExtentVerdict(xs, a, b, i);
  }

  /** Along links the numbers grow by one and the offsets by a sector. */
  lemma {:induction false} LinksAddUp(xs: seq<Ino>, a: nat, b: nat)
    requires a <= b < |xs| && forall k :: a <= k < b ==> Linked(xs, k)
    ensures xs[b].din.number == xs[a].din.number + (b - a) && xs[b].offset == xs[a].offset + 512 * (b - a)
    decreases b - a
  {
    if a < b {
      LinksAddUp(xs, a, b - 1);
      assert Linked(xs, b - 1);
    }
  }

  /** 31 inodes listed from a on, whose numbers grow by one while their offsets grow by a sector. */
  ghost predicate Group(xs: seq<Ino>, a: nat) {
    && a + 30 < |xs|
    && forall k :: a <= k <= a + 30 ==>
      xs[k].din.number == xs[a].din.number + (k - a) && xs[k].offset == xs[a].offset + 512 * (k - a)
  }

  lemma GroupIsLinked(xs: seq<Ino>, a: nat)
    ensures Group(xs, a) <==> a + 30 < |xs| && forall k :: a <= k < a + 30 ==> Linked(xs, k)
  {
    if a + 30 < |xs| && forall k :: a <= k < a + 30 ==> Linked(xs, k) {
      forall k | a <= k <= a + 30
        ensures xs[k].din.number == xs[a].din.number + (k - a) && xs[k].offset == xs[a].offset + 512 * (k - a)
      {
        LinksAddUp(xs, a, k);
      }
    }
  }

  /** A linked stretch lies in the maximal run around any of its positions. */
  lemma StretchInRun(xs: seq<Ino>, a: nat, b: nat, c: nat, d: nat)
    requires MaximalRun(xs, a, b) && c <= d < |xs| && (forall k :: c <= k < d ==> Linked(xs, k)) && c <= b && a <= d
    ensures a <= c && d <= b
  {
  }

  lemma GroupsDecide(xs: seq<Ino>, i: nat)
    requires i < |xs|
    ensures InExtent(xs, i) <==> exists a: nat :: a <= i <= a + 30 && (a >= 1 || i == 0) && Group(xs, a)
  {
    RunAround(xs, i);
    var start, end := RunStart(xs, i), RunEnd(xs, i);
    ExtentVerdict(xs, start, end, i);
    if InExtent(xs, i) {
      var a: nat := if i + 30 <= end then i else end - 30;
      GroupIsLinked(xs, a);
    }
    if a: nat :| a <= i <= a + 30 && (a >= 1 || i == 0) && Group(xs, a) {
      GroupIsLinked(xs, a);
      StretchInRun(xs, start, end, a, a + 30);
    }
  }

  /**
   * In the fields alone: an inode is kept if and only if it is one of 31 listed one behind another, none of them the
   * first of the list unless it is that one, whose numbers grow by one while their offsets grow by a sector.
   */
  lemma ExtentByFields(xs: seq<Ino>, i: nat)
    requires i < |xs|
    ensures InExtent(xs, i) <==>
      exists a: nat ::
        && a <= i <= a + 30 < |xs| && (a >= 1 || i == 0)
        && forall k :: a <= k <= a + 30 ==>
          xs[k].din.number == xs[a].din.number + (k - a) && xs[k].offset == xs[a].offset + 512 * (k - a)
  {
    GroupsDecide(xs, i);
    if InExtent(xs, i) {
      var a: nat :| a <= i <= a + 30 && (a >= 1 || i == 0) && Group(xs, a);
    }
    if a: nat :|
      && a <= i <= a + 30 < |xs| && (a >= 1 || i == 0)
      && forall k :: a <= k <= a + 30 ==>
        xs[k].din.number == xs[a].din.number + (k - a) && xs[k].offset == xs[a].offset + 512 * (k - a)
    {
      assert Group(xs, a);
    }
  }

  /** So the stage keeps exactly these. */
  lemma ExtentMembers(xs: seq<Ino>, x: Ino)
    ensures x in Extents(xs) <==>
      exists i: nat ::
        && i < |xs| && xs[i] == x
        && exists a: nat ::
          && a <= i <= a + 30 < |xs| && (a >= 1 || i == 0)
          && forall k :: a <= k <= a + 30 ==>
            xs[k].din.number == xs[a].din.number + (k - a) && xs[k].offset == xs[a].offset + 512 * (k - a)
  {
    KeptPositions(xs, x);
    forall i: nat | i < |xs|
      ensures InExtent(xs, i) <==>
        exists a: nat ::
          && a <= i <= a + 30 < |xs| && (a >= 1 || i == 0)
          && forall k :: a <= k <= a + 30 ==>
            xs[k].din.number == xs[a].din.number + (k - a) && xs[k].offset == xs[a].offset + 512 * (k - a)
    {
      ExtentByFields(xs, i);
    }
  }

  lemma KeptPositions(xs: seq<Ino>, x: Ino)
    ensures x in Extents(xs) <==> exists i: nat :: i < |xs| && xs[i] == x && InExtent(xs, i)
  {
    PickMembers(xs, ExtentMask(xs), x);
    if i: nat :| i < |xs| && xs[i] == x && InExtent(xs, i) {
      assert ExtentMask(xs)[i];
    }
  }

  lemma {:induction false} ForwardAppend(xs: seq<Ino>, y: Ino, i: nat)
    requires i < |xs| && !Linked(xs + [y], |xs| - 1)
    ensures Forward(xs + [y], i) == Forward(xs, i)
    decreases |xs| - i
  {
    if i + 1 < |xs| {
      ForwardAppend(xs, y, i + 1);
    }
  }

  lemma {:induction false} BackwardAppend(xs: seq<Ino>, y: Ino, i: nat)
    requires i < |xs|
    ensures Backward(xs + [y], i) == Backward(xs, i)
  {
    if i > 1 {
      BackwardAppend(xs, y, i - 1);
    }
  }

  /** The duplicated last entry of a reload is never kept and never changes another verdict. */
  lemma ExtentsIgnoreRepeatedLast(xs: seq<Ino>)
    requires xs != []
    ensures Extents(xs + [xs[|xs| - 1]]) == Extents(xs)
  {
    var y := xs[|xs| - 1];
    forall i | 0 <= i < |xs| ensures InExtent(xs + [y], i) == InExtent(xs, i) {
      ForwardAppend(xs, y, i);
      BackwardAppend(xs, y, i);
    }
    assert !InExtent(xs + [y], |xs|);
    assert ExtentMask(xs + [y]) == ExtentMask(xs) + [false];
    PickAppend(xs, ExtentMask(xs), y, false);
  }
}
