/**
 * The stage behind post-scan.txt when its list is reloaded, which repeats the last inode: of the list of any scan,
 * resumed or not.
 */
module ReloadedStage {
  import opened InodeFactory
  import opened Stages
  import opened Inostamps
  import opened ResumedScan
  import opened StampRuns
  import opened ResumedStage

  // ---------------------------------------------------------------- the stamp filter seen through the detector

  /** For the run [a..b] it makes no difference whether the inodes of other stamps than w are filtered out before. */
  predicate Unseen(xs: seq<Ino>, w: nat, a: nat, b: nat)
    requires a <= b < |xs|
  {
    b - a + 1 < 31 || (Stamped(xs, w, a, b + 1) && (a == 0 || Rank(xs, w, a) > 0 || b - a + 1 >= 32))
  }

  predicate UnseenAround(xs: seq<Ino>, w: nat, i: nat)
    requires i < |xs|
  {
    Unseen(xs, w, RunStart(xs, i), RunEnd(xs, i))
  }

  predicate FilterIsUnseen(xs: seq<Ino>, w: nat) {
    forall i :: 0 <= i < |xs| ==> UnseenAround(xs, w, i)
  }

  /** In a run that the filter leaves unseen every position is judged the same. */
  lemma UnseenVerdict(xs: seq<Ino>, w: nat, a: nat, b: nat, i: nat)
    requires InOrder(xs) && MaximalRun(xs, a, b) && a <= i <= b && Unseen(xs, w, a, b)
    ensures StampedPasses(xs, w, i) <==> InExtent(xs, i)
  {
    ExtentVerdict(xs, a, b, i);
    RankAtHead(xs, w);
    if xs[i].din.inostamp == w {
      var p, q := StampRunAround(xs, w, i);
      StampRunInRun(xs, w, p, q, a, b, i);
      StampedVerdict(xs, w, p, q, i);
    }
  }

  lemma StampedMember(xs: seq<Ino>, w: nat, x: Ino)
    ensures x in Extents(OfStamp(xs, w)) <==> exists i :: 0 <= i < |xs| && StampedPasses(xs, w, i) && xs[i] == x
  {
    var ws := OfStamp(xs, w);
    ExtentMember(ws, x);
    if x in Extents(ws) {
      var j :| 0 <= j < |ws| && InExtent(ws, j) && ws[j] == x;
      var i := OfStampOrigin(xs, w, j);
      OfStampAt(xs, w, i);
      assert StampedPasses(xs, w, i);
    }
    if i :| 0 <= i < |xs| && StampedPasses(xs, w, i) && xs[i] == x {
      OfStampAt(xs, w, i);
      assert InExtent(ws, Rank(xs, w, i));
    }
  }

  /** An inode linked on both sides, or linked at the head of the list, is in the list once. */
  lemma LinkedIsUnique(xs: seq<Ino>, i: nat, j: nat)
    requires InOrder(xs) && j < |xs| && Linked(xs, i) && (i == 0 || Linked(xs, i - 1)) && xs[i] == xs[j]
    ensures i == j
  {
  }

  /** In any other run some inode is kept without the filter and not behind it. */
  lemma SeenInRun(xs: seq<Ino>, w: nat, a: nat, b: nat) returns (x: Ino)
    requires InOrder(xs) && MaximalRun(xs, a, b) && !Unseen(xs, w, a, b)
    ensures x in Extents(xs) && x !in Extents(OfStamp(xs, w))
  {
    if Stamped(xs, w, a, b + 1) {
      x := xs[a + 1];
      ExtentVerdict(xs, a, b, a + 1);
      StampedVerdict(xs, w, a, b, a + 1);
      LinkedOnce(xs, w, a + 1);
    } else if a == 0 && b == 30 {
      x := xs[0];
      ExtentVerdict(xs, a, b, 0);
      HeadStretchIsDropped(xs, w, b);
      LinkedOnce(xs, w, 0);
    } else {
      var i :| a <= i < b + 1 && xs[i].din.inostamp != w;
      x := xs[i];
      ExtentVerdict(xs, a, b, i);
      StampedMember(xs, w, x);
    }
    ExtentMember(xs, x);
  }

  lemma LinkedOnce(xs: seq<Ino>, w: nat, i: nat)
    requires InOrder(xs) && Linked(xs, i) && (i == 0 || Linked(xs, i - 1)) && !StampedPasses(xs, w, i)
    ensures xs[i] !in Extents(OfStamp(xs, w))
  {
    StampedMember(xs, w, xs[i]);
    if j :| 0 <= j < |xs| && StampedPasses(xs, w, j) && xs[j] == xs[i] {
      LinkedIsUnique(xs, i, j);
    }
  }

  /** The filter is unseen if and only if it is in every run. */
  lemma UnseenIff(xs: seq<Ino>, w: nat)
    requires InOrder(xs)
    ensures SameMembers(Extents(OfStamp(xs, w)), Extents(xs)) <==> FilterIsUnseen(xs, w)
  {
    if FilterIsUnseen(xs, w) {
      forall i | 0 <= i < |xs| ensures StampedPasses(xs, w, i) <==> InExtent(xs, i) {
        RunAround(xs, i);
        assert UnseenAround(xs, w, i);
        UnseenVerdict(xs, w, RunStart(xs, i), RunEnd(xs, i), i);
      }
      forall x ensures x in Extents(OfStamp(xs, w)) <==> x in Extents(xs) {
        StampedMember(xs, w, x);
        ExtentMember(xs, x);
      }
    } else {
      var i :| 0 <= i < |xs| && !UnseenAround(xs, w, i);
      RunAround(xs, i);
      var x := SeenInRun(xs, w, RunStart(xs, i), RunEnd(xs, i));
    }
  }

  // ---------------------------------------------------------------- the stage

  /** The stamp that the guard keeps when it holds, with the last inode repeated or without. */
  function GuardedStamp(xs: seq<Ino>): nat
    requires xs != []
  {
    if Dominates(xs) then Winner(xs) else xs[|xs| - 1].din.inostamp
  }

  /**
   * A reload is harmless: the stamp filter decides as before, a condition on the counts of the saved list, or what it
   * decides makes no difference to the detector.
   */
  predicate HarmlessReload(xs: seq<Ino>)
    requires xs != []
  {
    SameDecision(xs, xs[|xs| - 1].din.inostamp) || FilterIsUnseen(xs, GuardedStamp(xs))
  }

  /** Exactly then the stage keeps the same inodes of the reloaded list as of the saved one. */
  lemma ReloadIsHarmlessIff(xs: seq<Ino>)
    requires InOrder(xs) && xs != []
    ensures SameMembers(StageKeeps(xs + [xs[|xs| - 1]]), StageKeeps(xs)) <==> HarmlessReload(xs)
  {
    var k := |xs| - 1;
    assert RepeatAt(xs, k) == xs + [xs[k]];
    if SameDecision(xs, xs[k].din.inostamp) {
      ReloadIsIgnored(xs);
    } else {
      UnseenIff(xs, GuardedStamp(xs));
      TurnedByReload(xs);
    }
  }

  /** If the guard turns, one of the two lists is filtered and the other is not. */
  lemma TurnedByReload(xs: seq<Ino>)
    requires xs != [] && !SameDecision(xs, xs[|xs| - 1].din.inostamp)
    ensures var k := |xs| - 1;
      var filtered := Extents(OfStamp(xs, GuardedStamp(xs)));
      if Dominates(xs) then StageKeeps(xs) == filtered && StageKeeps(RepeatAt(xs, k)) == Extents(xs)
      else StageKeeps(xs) == Extents(xs) && StageKeeps(RepeatAt(xs, k)) == filtered
  {
    StageIs(xs);
    StageIs(RepeatAt(xs, |xs| - 1));
    if Dominates(xs) {
      TurnedOff(xs);
      LastRepetitionIsIgnored(xs);
    } else {
      TurnedOn(xs);
      LastRepetitionIsIgnored(OfStamp(xs, GuardedStamp(xs)));
    }
  }

  lemma TurnedOff(xs: seq<Ino>)
    requires xs != [] && !SameDecision(xs, xs[|xs| - 1].din.inostamp) && Dominates(xs)
    ensures FilterStamps(xs) == OfStamp(xs, GuardedStamp(xs))
    ensures FilterStamps(RepeatAt(xs, |xs| - 1)) == RepeatAt(xs, |xs| - 1)
  {
    DecisionAfter(xs, xs[|xs| - 1].din.inostamp);
    FilteredAfter(xs, |xs| - 1);
    FilterIs(xs);
  }

  lemma TurnedOn(xs: seq<Ino>)
    requires xs != [] && !SameDecision(xs, xs[|xs| - 1].din.inostamp) && !Dominates(xs)
    ensures FilterStamps(xs) == xs
    ensures var ys := OfStamp(xs, GuardedStamp(xs));
      ys != [] && FilterStamps(RepeatAt(xs, |xs| - 1)) == RepeatAt(ys, |ys| - 1)
  {
    DecisionAfter(xs, xs[|xs| - 1].din.inostamp);
    FilteredAfter(xs, |xs| - 1);
    FilterIs(xs);
    RankOfLast(xs);
  }

  lemma RankOfLast(xs: seq<Ino>)
    requires xs != []
    ensures var k, s := |xs| - 1, xs[|xs| - 1].din.inostamp; Rank(xs, s, k) == |OfStamp(xs, s)| - 1
  {
    OfStampLength(xs, xs[|xs| - 1].din.inostamp);
  }
}
