/** filter_inostamps: keep one file system generation when it outnumbers the others a hundred to one. */
module Inostamps {
  import opened InodeFactory
  import opened Selection
  import opened Stages

  function Count(xs: seq<Ino>, s: nat): nat {
    if xs == [] then 0
    else Count(xs[..|xs| - 1], s) + if xs[|xs| - 1].din.inostamp == s then 1 else 0
  }

  predicate Occurs(xs: seq<Ino>, s: nat) {
    exists i :: 0 <= i < |xs| && xs[i].din.inostamp == s
  }

  lemma {:induction false} CountPositive(xs: seq<Ino>, s: nat)
    ensures Count(xs, s) > 0 <==> Occurs(xs, s)
  {
    if xs != [] {
      var front := xs[..|xs| - 1];
      CountPositive(front, s);
      assert forall i :: 0 <= i < |front| ==> front[i] == xs[i];
    }
  }

  /** w is the smallest of the most common stamps. */
  ghost predicate IsWinner(xs: seq<Ino>, w: nat) {
    && Occurs(xs, w)
    && forall i :: 0 <= i < |xs| ==>
      var s := xs[i].din.inostamp;
      Count(xs, s) < Count(xs, w) || (Count(xs, s) == Count(xs, w) && w <= s)
  }

  /** m is the largest count among the stamps numerically below w, or 0 when there are none. */
  ghost predicate IsLargestBelow(xs: seq<Ino>, w: nat, m: nat) {
    && (forall i :: 0 <= i < |xs| && xs[i].din.inostamp < w ==> Count(xs, xs[i].din.inostamp) <= m)
    && (m == 0 || exists i :: 0 <= i < |xs| && xs[i].din.inostamp < w && Count(xs, xs[i].din.inostamp) == m)
  }

  /** The winner of the counts of xs among the first n inodes. */
  function WinnerOfFirst(xs: seq<Ino>, n: nat): nat
    requires 0 < n <= |xs|
  {
    var s := xs[n - 1].din.inostamp;
    if n == 1 then s
    else
      var w := WinnerOfFirst(xs, n - 1);
      if Count(xs, s) > Count(xs, w) || (Count(xs, s) == Count(xs, w) && s < w) then s else w
  }

  function LargestBelowInFirst(xs: seq<Ino>, w: nat, n: nat): nat
    requires n <= |xs|
  {
    if n == 0 then 0
    else
      var m := LargestBelowInFirst(xs, w, n - 1);
      var s := xs[n - 1].din.inostamp;
      if s < w && Count(xs, s) > m then Count(xs, s) else m
  }

  function Winner(xs: seq<Ino>): nat
    requires xs != []
  {
    WinnerOfFirst(xs, |xs|)
  }

  function LargestBelow(xs: seq<Ino>, w: nat): nat {
    LargestBelowInFirst(xs, w, |xs|)
  }

  lemma {:induction false} WinnerOfFirstWins(xs: seq<Ino>, n: nat)
    requires 0 < n <= |xs|
    ensures Occurs(xs, WinnerOfFirst(xs, n))
    ensures forall i :: 0 <= i < n ==>
      var s, w := xs[i].din.inostamp, WinnerOfFirst(xs, n);
      Count(xs, s) < Count(xs, w) || (Count(xs, s) == Count(xs, w) && w <= s)
  {
    if n > 1 {
      WinnerOfFirstWins(xs, n - 1);
    }
  }

  lemma {:induction false} LargestBelowIsLargest(xs: seq<Ino>, w: nat, n: nat)
    requires n <= |xs|
    ensures var m := LargestBelowInFirst(xs, w, n);
      && (forall i :: 0 <= i < n && xs[i].din.inostamp < w ==> Count(xs, xs[i].din.inostamp) <= m)
      && (m == 0 || exists i :: 0 <= i < n && xs[i].din.inostamp < w && Count(xs, xs[i].din.inostamp) == m)
  {
    if n > 0 {
      LargestBelowIsLargest(xs, w, n - 1);
    }
  }

  /** The pass computes what it is described to compute. */
  lemma WinnerAndLargestBelow(xs: seq<Ino>)
    requires xs != []
    ensures IsWinner(xs, Winner(xs)) && IsLargestBelow(xs, Winner(xs), LargestBelow(xs, Winner(xs)))
  {
    WinnerOfFirstWins(xs, |xs|);
    LargestBelowIsLargest(xs, Winner(xs), |xs|);
  }

  /** The winner and its runner-up are determined by their descriptions. */
  lemma WinnerIsUnique(xs: seq<Ino>, w: nat, m: nat)
    requires IsWinner(xs, w) && IsLargestBelow(xs, w, m)
    ensures xs != [] && w == Winner(xs) && m == LargestBelow(xs, w)
  {
    WinnerAndLargestBelow(xs);
    LargestBelowIsLargest(xs, w, |xs|);
  }

  /** The removal guard: more than a hundred times the largest count below the winner (integer division). */
  predicate Dominates(xs: seq<Ino>) {
    xs != [] && Count(xs, Winner(xs)) / 100 > LargestBelow(xs, Winner(xs))
  }

  function StampMask(xs: seq<Ino>): seq<bool> {
    seq(|xs|, i requires 0 <= i < |xs| => Dominates(xs) ==> xs[i].din.inostamp == Winner(xs))
  }

  function FilterStamps(xs: seq<Ino>): seq<Ino> {
    Pick(xs, StampMask(xs))
  }

  /** After the pass the survivors are all inodes, or exactly the winner's. */
  lemma FilterVerdict(xs: seq<Ino>, x: Ino)
    ensures !Dominates(xs) ==> FilterStamps(xs) == xs
    ensures Dominates(xs) ==> (x in FilterStamps(xs) <==> x in xs && x.din.inostamp == Winner(xs))
    ensures x in FilterStamps(xs) <==> x in xs && (Dominates(xs) ==> x.din.inostamp == Winner(xs))
  {
    if !Dominates(xs) {
      PickAll(xs, StampMask(xs));
    }
    PickMembers(xs, StampMask(xs), x);
    if x in xs && (Dominates(xs) ==> x.din.inostamp == Winner(xs)) {
      var i :| 0 <= i < |xs| && xs[i] == x;
      assert StampMask(xs)[i];
    }
  }

  /** Where a stamp stands in the list. */
  function PlacesOf(xs: seq<Ino>, s: nat): set<nat> {
    set i: nat | i < |xs| && xs[i].din.inostamp == s
  }

  lemma {:induction false} CountsPlaces(xs: seq<Ino>, s: nat)
    ensures Count(xs, s) == |PlacesOf(xs, s)|
  {
    if xs != [] {
      var n := |xs| - 1;
      CountsPlaces(xs[..n], s);
      if xs[n].din.inostamp == s {
        assert PlacesOf(xs, s) == PlacesOf(xs[..n], s) + {n};
      } else {
        assert PlacesOf(xs, s) == PlacesOf(xs[..n], s);
      }
    }
  }

  /**
   * By the numbers of inodes alone: let w be the smallest of the most common stamps.  Inodes of other stamps survive
   * if and only if w has fewer than 100 inodes, or fewer than 100 times one more than some smaller stamp.
   */
  lemma FilterByCounts(xs: seq<Ino>, w: nat, x: Ino)
    requires |PlacesOf(xs, w)| > 0
    requires forall t: nat ::
      |PlacesOf(xs, t)| < |PlacesOf(xs, w)| || (|PlacesOf(xs, t)| == |PlacesOf(xs, w)| && w <= t)
    ensures x in FilterStamps(xs) <==>
      && x in xs
      && (|| x.din.inostamp == w
          || |PlacesOf(xs, w)| < 100
          || exists t: nat :: t < w && |PlacesOf(xs, w)| < 100 * (|PlacesOf(xs, t)| + 1))
  {
    forall t: nat ensures Count(xs, t) == |PlacesOf(xs, t)| {
      CountsPlaces(xs, t);
    }
    WinnerByCounts(xs, w);
    FilterVerdict(xs, x);
    if !Dominates(xs) {
      var t := BelowOccurs(xs, w);
      assert LargestBelow(xs, w) == 0 || |PlacesOf(xs, w)| < 100 * (|PlacesOf(xs, t)| + 1);
    }
    if t: nat :| t < w && |PlacesOf(xs, w)| < 100 * (|PlacesOf(xs, t)| + 1) {
      BelowCounts(xs, w, t);
    }
  }

  predicate OneStamp(xs: seq<Ino>) {
    forall i :: 0 <= i < |xs| ==> xs[i].din.inostamp == xs[0].din.inostamp
  }

  // ---------------------------------------------------------------- one inode more

  /** ys has the inodes of xs, and one of them, of stamp s, once more. */
  ghost predicate RepeatsStamp(xs: seq<Ino>, ys: seq<Ino>, s: nat) {
    && Occurs(xs, s) && ys != [] && (forall x :: x in ys <==> x in xs)
    && forall t: nat :: Count(ys, t) == Count(xs, t) + if t == s then 1 else 0
  }

  /** The winner by counts alone. */
  lemma WinnerByCounts(xs: seq<Ino>, w: nat)
    requires Count(xs, w) > 0
    requires forall t: nat :: Count(xs, t) < Count(xs, w) || (Count(xs, t) == Count(xs, w) && w <= t)
    ensures xs != [] && Winner(xs) == w
  {
    CountPositive(xs, w);
    LargestBelowIsLargest(xs, w, |xs|);
    assert IsWinner(xs, w) && IsLargestBelow(xs, w, LargestBelow(xs, w));
    WinnerIsUnique(xs, w, LargestBelow(xs, w));
  }

  lemma WinnerCounts(xs: seq<Ino>, t: nat)
    requires xs != []
    ensures var w := Winner(xs);
      Count(xs, w) > 0 && (Count(xs, t) < Count(xs, w) || (Count(xs, t) == Count(xs, w) && w <= t))
  {
    WinnerAndLargestBelow(xs);
    CountPositive(xs, Winner(xs));
    CountPositive(xs, t);
  }

  /** The largest count below w by counts alone, with a stamp t that has it. */
  lemma BelowByCounts(xs: seq<Ino>, w: nat, m: nat, t: nat)
    requires forall u: nat :: u < w ==> Count(xs, u) <= m
    requires m == 0 || (t < w && Count(xs, t) == m)
    ensures LargestBelow(xs, w) == m
  {
    LargestBelowIsLargest(xs, w, |xs|);
    CountPositive(xs, t);
  }

  lemma BelowCounts(xs: seq<Ino>, w: nat, t: nat)
    ensures t < w ==> Count(xs, t) <= LargestBelow(xs, w)
  {
    LargestBelowIsLargest(xs, w, |xs|);
    CountPositive(xs, t);
  }

  lemma BelowOccurs(xs: seq<Ino>, w: nat) returns (t: nat)
    ensures LargestBelow(xs, w) == 0 || (t < w && Count(xs, t) == LargestBelow(xs, w))
  {
    LargestBelowIsLargest(xs, w, |xs|);
    t := 0;
    if LargestBelow(xs, w) > 0 {
      var i :| 0 <= i < |xs| && xs[i].din.inostamp < w && Count(xs, xs[i].din.inostamp) == LargestBelow(xs, w);
      t := xs[i].din.inostamp;
    }
  }

  function Larger(a: nat, b: nat): nat {
    if a < b then b else a
  }

  /** Winner, its count and the largest count below it when an inode of stamp s is counted once more. */
  function WinnerAfter(xs: seq<Ino>, s: nat): nat
    requires xs != []
  {
    var w, n := Winner(xs), Count(xs, s);
    if n == Count(xs, w) || (s < w && n + 1 == Count(xs, w)) then s else w
  }

  function CountAfter(xs: seq<Ino>, s: nat): nat
    requires xs != []
  {
    var c := Count(xs, Winner(xs));
    if Count(xs, s) == c then c + 1 else c
  }

  function BelowAfter(xs: seq<Ino>, s: nat): nat
    requires xs != []
  {
    var w := WinnerAfter(xs, s);
    if s < w then Larger(LargestBelow(xs, w), Count(xs, s) + 1) else LargestBelow(xs, w)
  }

  predicate DominatesAfter(xs: seq<Ino>, s: nat)
    requires xs != []
  {
    CountAfter(xs, s) / 100 > BelowAfter(xs, s)
  }

  /** The stamp table of the longer list, from the counts of the shorter one. */
  lemma TableAfter(xs: seq<Ino>, ys: seq<Ino>, s: nat)
    requires RepeatsStamp(xs, ys, s)
    ensures xs != [] && Winner(ys) == WinnerAfter(xs, s) && Count(ys, Winner(ys)) == CountAfter(xs, s)
    ensures LargestBelow(ys, Winner(ys)) == BelowAfter(xs, s)
    ensures Dominates(ys) <==> DominatesAfter(xs, s)
  {
    var w := WinnerAfter(xs, s);
    WinnerCounts(xs, s);
    assert Count(ys, w) == Count(xs, w) + if w == s then 1 else 0;
    forall t: nat ensures Count(ys, t) < Count(ys, w) || (Count(ys, t) == Count(ys, w) && w <= t) {
      WinnerCounts(xs, t);
    }
    WinnerByCounts(ys, w);
    forall t: nat | t < w ensures Count(ys, t) <= BelowAfter(xs, s) {
      BelowCounts(xs, w, t);
    }
    var t := BelowAfterOccurs(xs, ys, s, w);
    BelowByCounts(ys, w, BelowAfter(xs, s), t);
  }

  lemma BelowAfterOccurs(xs: seq<Ino>, ys: seq<Ino>, s: nat, w: nat) returns (t: nat)
    requires RepeatsStamp(xs, ys, s) && w == WinnerAfter(xs, s)
    ensures BelowAfter(xs, s) == 0 || (t < w && Count(ys, t) == BelowAfter(xs, s))
  {
    BelowCounts(xs, w, s);
    t := BelowOccurs(xs, w);
    if s < w && LargestBelow(xs, w) < Count(xs, s) + 1 {
      t := s;
    }
  }

  /** The filter decides the same when an inode of stamp s is counted once more: a condition on the counts of xs. */
  predicate SameDecision(xs: seq<Ino>, s: nat)
    requires xs != []
  {
    var w := Winner(xs);
    var c, m, n := Count(xs, w), LargestBelow(xs, w), Count(xs, s);
    if s == w then c / 100 > m <==> (c + 1) / 100 > m
    else if n == c then c / 100 <= m
    else if s < w && n + 1 == c then c / 100 <= LargestBelow(xs, s)
    else s < w ==> (c / 100 > m <==> c / 100 > Larger(m, n + 1))
  }

  /** Guard and, if it holds, winner come out the same; otherwise the guard turns, on for s or off for another stamp. */
  lemma DecisionAfter(xs: seq<Ino>, s: nat)
    requires Occurs(xs, s)
    ensures SameDecision(xs, s) <==>
      (Dominates(xs) <==> DominatesAfter(xs, s)) && (Dominates(xs) ==> Winner(xs) == WinnerAfter(xs, s))
    ensures SameDecision(xs, s) <==> (Dominates(xs) <==> DominatesAfter(xs, s))
    ensures !SameDecision(xs, s) && !Dominates(xs) ==> WinnerAfter(xs, s) == s
    ensures !SameDecision(xs, s) && Dominates(xs) ==> Winner(xs) != s
  {
    var w := Winner(xs);
    CountPositive(xs, s);
    WinnerCounts(xs, s);
    BelowCounts(xs, w, s);
    BelowCounts(xs, s, w);
  }

  lemma FilterAfterRepeat(xs: seq<Ino>, ys: seq<Ino>, s: nat)
    requires RepeatsStamp(xs, ys, s)
    ensures (forall x :: x in FilterStamps(ys) <==> x in FilterStamps(xs)) <==> OneStamp(xs) || SameDecision(xs, s)
  {
    TableAfter(xs, ys, s);
    DecisionAfter(xs, s);
    forall x ensures (x in FilterStamps(xs) <==> x in xs && (Dominates(xs) ==> x.din.inostamp == Winner(xs)))
      && (x in FilterStamps(ys) <==> x in xs && (Dominates(ys) ==> x.din.inostamp == Winner(ys))) {
      FilterVerdict(xs, x);
      FilterVerdict(ys, x);
    }
    WinnerOccurs(xs);
    if OneStamp(xs) {
      WinnerOccurs(ys);
      assert forall x :: x in xs ==> x.din.inostamp == xs[0].din.inostamp;
    } else {
      var i :| 0 <= i < |xs| && xs[i].din.inostamp != xs[0].din.inostamp;
      assert xs[i] in xs && xs[0] in xs;
    }
  }

  lemma RepeatedLast(xs: seq<Ino>)
    requires xs != []
    ensures RepeatsStamp(xs, xs + [xs[|xs| - 1]], xs[|xs| - 1].din.inostamp)
  {
    var x := xs[|xs| - 1];
    assert (xs + [x])[..|xs|] == xs;
  }

  /**
   * A restart from post-scan.txt repeats the last inode before this stage.  The stage then keeps the same inodes
   * if and only if there is only one stamp, or the counts of the saved list pass the test above.
   */
  lemma FilterAfterReload(xs: seq<Ino>)
    requires xs != []
    ensures var x := xs[|xs| - 1];
      (forall y :: y in FilterStamps(xs + [x]) <==> y in FilterStamps(xs))
      <==> OneStamp(xs) || SameDecision(xs, x.din.inostamp)
  {
    RepeatedLast(xs);
    FilterAfterRepeat(xs, xs + [xs[|xs| - 1]], xs[|xs| - 1].din.inostamp);
  }

  lemma WinnerOccurs(xs: seq<Ino>)
    requires xs != []
    ensures exists x :: x in xs && x.din.inostamp == Winner(xs)
  {
    WinnerAndLargestBelow(xs);
    var i :| 0 <= i < |xs| && xs[i].din.inostamp == Winner(xs);
    assert xs[i] in xs;
  }

  /** All inodes have the stamp s. */
  predicate AllOf(xs: seq<Ino>, s: nat) {
    forall i :: 0 <= i < |xs| ==> xs[i].din.inostamp == s
  }

  lemma {:induction false} CountUniform(xs: seq<Ino>, s: nat, t: nat)
    requires AllOf(xs, s)
    ensures Count(xs, t) == if t == s then |xs| else 0
  {
    if xs != [] {
      CountUniform(xs[..|xs| - 1], s, t);
    }
  }

  lemma {:induction false} CountConcat(xs: seq<Ino>, ys: seq<Ino>, s: nat)
    ensures Count(xs + ys, s) == Count(xs, s) + Count(ys, s)
  {
    if ys == [] {
      assert xs + ys == xs;
    } else {
      var n := |ys| - 1;
      assert (xs + ys)[..|xs + ys| - 1] == xs + ys[..n];
      CountConcat(xs, ys[..n], s);
    }
  }

  /** Two generations, stamp 2 before stamp 1: the table of their list. */
  lemma TwoStamps(xs: seq<Ino>, ys: seq<Ino>)
    requires AllOf(xs, 2) && AllOf(ys, 1) && 0 < |xs| < |ys|
    ensures var zs := xs + ys;
      Winner(zs) == 1 && Count(zs, 1) == |ys| && LargestBelow(zs, 1) == 0 && (Dominates(zs) <==> |ys| >= 100)
  {
    var zs := xs + ys;
    forall t: nat ensures Count(zs, t) == if t == 1 then |ys| else if t == 2 then |xs| else 0 {
      CountConcat(xs, ys, t);
      CountUniform(xs, 2, t);
      CountUniform(ys, 1, t);
    }
    WinnerByCounts(zs, 1);
    BelowByCounts(zs, 1, 0, 0);
  }

  /**
   * The test can fail on a list that a scan leaves: one inode of stamp 2 and then any 99 of stamp 1, in
   * increasing sectors, survive the scan, but not a reload of its list.
   */
  lemma ReloadFlipsTheGuard(a: Ino, bs: seq<Ino>)
    requires a.din.inostamp == 2 && AllOf(bs, 1) && |bs| == 99
    requires InScanOrder([a] + bs)
    ensures var xs := [a] + bs;
      && FilterStamps(xs) == xs && !SameDecision(xs, 1)
      && a !in FilterStamps(xs + [xs[99]])
  {
    var xs, b := [a] + bs, bs[98];
    TwoStamps([a], bs);
    TwoStamps([a], bs + [b]);
    assert xs + [b] == [a] + (bs + [b]);
    FilterVerdict(xs, a);
    FilterVerdict(xs + [b], a);
  }
}
