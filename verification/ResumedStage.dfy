/**
 * The first stage after a resumed scan: the stamp filter and then the extent detector, on the list in which the inode
 * at position k is repeated.  Both can decide otherwise than on the list without the repetition.
 */
module ResumedStage {
  import opened InodeFactory
  import opened Selection
  import opened Stages
  import opened Inostamps
  import opened ResumedScan
  import opened StampRuns
  import opened Pipeline

  /** What the stage keeps of a scanned list. */
  ghost function StageKeeps(xs: seq<Ino>): seq<Ino> {
    RunStage(FilterStage, Memory(xs, [])).kept
  }

  ghost predicate SameMembers(xs: seq<Ino>, ys: seq<Ino>) {
    forall x :: x in xs <==> x in ys
  }

  // ---------------------------------------------------------------- when the guard turns on

  /**
   * The guard turns on for the stamp of xs[k]: the run [a..b] comes out the same when it is too short to be kept, or
   * has that stamp only and is not harmed by the cut or by moving to the head of the filtered list.
   */
  predicate SparedOn(xs: seq<Ino>, k: nat, a: nat, b: nat)
    requires k < |xs| && a <= b < |xs|
  {
    var s, len := xs[k].din.inostamp, b - a + 1;
    var head := Rank(xs, s, a) == 0;
    len < 31 ||
    (Stamped(xs, s, a, b + 1) &&
     if a <= k <= b then HarmlessCut(a == 0, head, len, k - a) else a == 0 || !head || len >= 32)
  }

  lemma RankAtHead(xs: seq<Ino>, s: nat)
    ensures Rank(xs, s, 0) == 0
  {
  }

  lemma ShortRunIsDropped(xs: seq<Ino>, k: nat, a: nat, b: nat, i: nat)
    requires InScanOrder(xs) && k < |xs| && MaximalRun(xs, a, b) && a <= i <= b
    requires b - a + 1 < 31 || (a == 0 && b == 30 && i == 0 && !Stamped(xs, xs[k].din.inostamp, a, b + 1))
    ensures !StampedPassesCut(xs, k, i)
  {
    var s := xs[k].din.inostamp;
    if xs[i].din.inostamp == s {
      var p, q := StampRunAround(xs, s, i);
      StampRunInRun(xs, s, p, q, a, b, i);
      StampedVerdictCut(xs, k, p, q, i);
      assert q - p + 1 >= 31 ==> p == a && q == b;
    }
  }

  lemma SparedOnIff(xs: seq<Ino>, k: nat, a: nat, b: nat)
    requires InScanOrder(xs) && k < |xs| && MaximalRun(xs, a, b)
    ensures (forall i :: a <= i <= b ==> (StampedPassesCut(xs, k, i) <==> InExtent(xs, i))) <==> SparedOn(xs, k, a, b)
  {
    var s, len := xs[k].din.inostamp, b - a + 1;
    forall i | a <= i <= b ensures InExtent(xs, i) <==> Passes(a == 0, len, i - a) {
      ExtentVerdict(xs, a, b, i);
    }
    if len < 31 {
      forall i | a <= i <= b ensures !StampedPassesCut(xs, k, i) {
        ShortRunIsDropped(xs, k, a, b, i);
      }
    } else if Stamped(xs, s, a, b + 1) {
      OneStampSparedOnIff(xs, k, a, b);
    } else if a == 0 && len == 31 {
      ShortRunIsDropped(xs, k, a, b, 0);
      assert InExtent(xs, 0);
    } else {
      var i :| a <= i < b + 1 && xs[i].din.inostamp != s;
      assert InExtent(xs, i) && !StampedPassesCut(xs, k, i);
    }
  }

  lemma OneStampSparedOnIff(xs: seq<Ino>, k: nat, a: nat, b: nat)
    requires InScanOrder(xs) && k < |xs| && MaximalRun(xs, a, b) && Stamped(xs, xs[k].din.inostamp, a, b + 1)
    ensures (forall i :: a <= i <= b ==> (StampedPassesCut(xs, k, i) <==> InExtent(xs, i))) <==> SparedOn(xs, k, a, b)
  {
    var s, len := xs[k].din.inostamp, b - a + 1;
    var head := Rank(xs, s, a) == 0;
    RankAtHead(xs, s);
    forall i | a <= i <= b
      ensures InExtent(xs, i) <==> Passes(a == 0, len, i - a)
      ensures StampedPassesCut(xs, k, i) <==>
        if a <= k <= b then PassesCut(head, len, k - a, i - a) else Passes(head, len, i - a)
    {
      ExtentVerdict(xs, a, b, i);
      StampedVerdictCut(xs, k, a, b, i);
    }
    if a <= k <= b {
      HarmlessCutIff(a == 0, head, len, k - a);
      if SparedOn(xs, k, a, b) {
        forall i | a <= i <= b ensures StampedPassesCut(xs, k, i) <==> InExtent(xs, i) {
          assert PassesCut(head, len, k - a, i - a) <==> Passes(a == 0, len, i - a);
        }
      } else {
        var j :| 0 <= j < len && !(PassesCut(head, len, k - a, j) <==> Passes(a == 0, len, j));
        assert !(StampedPassesCut(xs, k, a + j) <==> InExtent(xs, a + j));
      }
    } else if !SparedOn(xs, k, a, b) {
      assert !(StampedPassesCut(xs, k, a + 1) <==> InExtent(xs, a + 1));
    }
  }

  // ---------------------------------------------------------------- when the guard turns off

  /**
   * The guard turns off, and the stamp w no longer wins: the run [a..b] comes out the same when it is too short to be
   * kept, or is cut into parts that are, or has the stamp w only and was not at the head of the filtered list.
   */
  predicate SparedOff(xs: seq<Ino>, k: nat, w: nat, a: nat, b: nat)
    requires k < |xs| && a <= b < |xs|
  {
    b - a + 1 < 31 ||
    if a <= k <= b then k - a < 30 && b - k < 30
    else Stamped(xs, w, a, b + 1) && (a == 0 || Rank(xs, w, a) > 0 || b - a + 1 >= 32)
  }

  /** An inode in a stretch of at most 30 inodes of its stamp is not kept. */
  lemma ShortStretchIsDropped(xs: seq<Ino>, w: nat, a: nat, b: nat, i: nat, k: nat)
    requires InScanOrder(xs) && MaximalRun(xs, a, b) && a <= i <= b && a <= k <= b
    requires b - a + 1 < 31 || (xs[k].din.inostamp != w && k - a <= 30 && b - k <= 30)
    ensures !StampedPasses(xs, w, i)
  {
    if xs[i].din.inostamp == w {
      var p, q := StampRunAround(xs, w, i);
      StampRunInRun(xs, w, p, q, a, b, i);
      StampedVerdict(xs, w, p, q, i);
      assert xs[k].din.inostamp != w ==> q < k || k < p;
    }
  }

  lemma SparedOffIff(xs: seq<Ino>, k: nat, w: nat, a: nat, b: nat)
    requires InScanOrder(xs) && k < |xs| && MaximalRun(xs, a, b) && xs[k].din.inostamp != w
    ensures (forall i :: a <= i <= b ==> (SurvivesResume(xs, k, i) <==> StampedPasses(xs, w, i)))
       <==> SparedOff(xs, k, w, a, b)
  {
    if b - a + 1 < 31 {
      forall i | a <= i <= b ensures !StampedPasses(xs, w, i) && !SurvivesResume(xs, k, i) {
        ShortStretchIsDropped(xs, w, a, b, i, i);
        if a <= k <= b {
          VerdictAfterResume(xs, k, a, b, i);
        } else {
          OtherVerdictsStay(xs, k, a, b, i);
          ExtentVerdict(xs, a, b, i);
        }
      }
    } else if a <= k <= b {
      CutSparedOffIff(xs, k, w, a, b);
    } else {
      UncutSparedOffIff(xs, k, w, a, b);
    }
  }

  lemma CutSparedOffIff(xs: seq<Ino>, k: nat, w: nat, a: nat, b: nat)
    requires InScanOrder(xs) && MaximalRun(xs, a, b) && a <= k <= b && xs[k].din.inostamp != w
    ensures (forall i :: a <= i <= b ==> (SurvivesResume(xs, k, i) <==> StampedPasses(xs, w, i)))
       <==> k - a < 30 && b - k < 30
  {
    forall i | a <= i <= b ensures SurvivesResume(xs, k, i) <==> PassesCut(a == 0, b - a + 1, k - a, i - a) {
      VerdictAfterResume(xs, k, a, b, i);
    }
    if k - a < 30 && b - k < 30 {
      forall i | a <= i <= b ensures !StampedPasses(xs, w, i) {
        ShortStretchIsDropped(xs, w, a, b, i, k);
      }
    } else if a == 0 && k == 30 && b - k < 30 {
      ShortStretchIsDropped(xs, w, a, b, 0, k);
      assert SurvivesResume(xs, k, 0);
    } else {
      assert SurvivesResume(xs, k, k) && !StampedPasses(xs, w, k);
    }
  }

  lemma UncutSparedOffIff(xs: seq<Ino>, k: nat, w: nat, a: nat, b: nat)
    requires InScanOrder(xs) && k < |xs| && MaximalRun(xs, a, b) && !(a <= k <= b) && b - a + 1 >= 31
    ensures (forall i :: a <= i <= b ==> (SurvivesResume(xs, k, i) <==> StampedPasses(xs, w, i)))
       <==> Stamped(xs, w, a, b + 1) && (a == 0 || Rank(xs, w, a) > 0 || b - a + 1 >= 32)
  {
    var len, head := b - a + 1, Rank(xs, w, a) == 0;
    RankAtHead(xs, w);
    forall i | a <= i <= b ensures SurvivesResume(xs, k, i) <==> Passes(a == 0, len, i - a) {
      OtherVerdictsStay(xs, k, a, b, i);
      ExtentVerdict(xs, a, b, i);
    }
    if Stamped(xs, w, a, b + 1) {
      forall i | a <= i <= b ensures StampedPasses(xs, w, i) <==> Passes(head, len, i - a) {
        StampedVerdict(xs, w, a, b, i);
      }
      assert StampedPasses(xs, w, a + 1) <==> Passes(head, len, 1);
    } else {
      var i :| a <= i < b + 1 && xs[i].din.inostamp != w;
      if a == 0 && len == 31 {
        HeadStretchIsDropped(xs, w, b);
        assert SurvivesResume(xs, k, 0);
      } else {
        assert SurvivesResume(xs, k, i) && !StampedPasses(xs, w, i);
      }
    }
  }

  lemma HeadStretchIsDropped(xs: seq<Ino>, w: nat, b: nat)
    requires InOrder(xs) && MaximalRun(xs, 0, b) && b == 30 && !Stamped(xs, w, 0, b + 1)
    ensures !StampedPasses(xs, w, 0)
  {
    if xs[0].din.inostamp == w {
      var p, q := StampRunAround(xs, w, 0);
      StampRunInRun(xs, w, p, q, 0, b, 0);
      StampedVerdict(xs, w, p, q, 0);
    }
  }

  // ---------------------------------------------------------------- from positions to lists

  lemma ExtentMember(zs: seq<Ino>, x: Ino)
    ensures x in Extents(zs) <==> exists j :: 0 <= j < |zs| && InExtent(zs, j) && zs[j] == x
  {
    PickMembers(zs, ExtentMask(zs), x);
    if j :| 0 <= j < |zs| && InExtent(zs, j) && zs[j] == x {
      assert ExtentMask(zs)[j];
    }
  }

  /** In scan order no inode is listed twice. */
  lemma KeptAt(zs: seq<Ino>, j: nat)
    requires InScanOrder(zs) && j < |zs|
    ensures zs[j] in Extents(zs) <==> InExtent(zs, j)
  {
    ExtentMember(zs, zs[j]);
  }

  lemma KeptAfterCutAt(zs: seq<Ino>, r: nat, j: nat)
    requires InScanOrder(zs) && j < |zs| && r < |zs|
    ensures zs[j] in Extents(RepeatAt(zs, r)) <==> SurvivesResume(zs, r, j)
  {
    PickedAfterCut(zs, r, j, ExtentMask(RepeatAt(zs, r)));
  }

  lemma PickedAfterCut(zs: seq<Ino>, r: nat, j: nat, mask: seq<bool>)
    requires InScanOrder(zs) && j < |zs| && r < |zs| && |mask| == |zs| + 1
    ensures zs[j] in Pick(RepeatAt(zs, r), mask) <==>
      if j < r then mask[j] else if j > r then mask[j + 1] else mask[r] || mask[r + 1]
  {
    var ys := RepeatAt(zs, r);
    PickMembers(ys, mask, zs[j]);
    if zs[j] in Pick(ys, mask) {
      var i :| 0 <= i < |ys| && mask[i] && ys[i] == zs[j];
      RepeatedFrom(zs, r, i, j);
    }
    assert j <= r ==> ys[j] == zs[j];
    assert j >= r ==> ys[j + 1] == zs[j];
  }

  lemma RepeatedFrom(zs: seq<Ino>, r: nat, i: nat, j: nat)
    requires InScanOrder(zs) && r < |zs| && j < |zs| && i < |RepeatAt(zs, r)| && RepeatAt(zs, r)[i] == zs[j]
    ensures j == if i <= r then i else i - 1
  {
    assert RepeatAt(zs, r)[i] == zs[if i <= r then i else i - 1];
  }

  lemma StampedAt(xs: seq<Ino>, w: nat, i: nat)
    requires InScanOrder(xs) && i < |xs|
    ensures xs[i] in Extents(OfStamp(xs, w)) <==> StampedPasses(xs, w, i)
  {
    var ws := OfStamp(xs, w);
    if xs[i].din.inostamp == w {
      OfStampAt(xs, w, i);
      OfStampInScanOrder(xs, w);
      KeptAt(ws, Rank(xs, w, i));
    } else {
      NotStamped(xs, w, xs[i]);
      ExtentMember(ws, xs[i]);
    }
  }

  lemma StampedCutAt(xs: seq<Ino>, k: nat, i: nat)
    requires InScanOrder(xs) && i < |xs| && k < |xs|
    requires Rank(xs, xs[k].din.inostamp, k) < |OfStamp(xs, xs[k].din.inostamp)|
    ensures var w := xs[k].din.inostamp;
      xs[i] in Extents(RepeatAt(OfStamp(xs, w), Rank(xs, w, k))) <==> StampedPassesCut(xs, k, i)
  {
    var w := xs[k].din.inostamp;
    var ws, r := OfStamp(xs, w), Rank(xs, w, k);
    if xs[i].din.inostamp == w {
      OfStampAt(xs, w, i);
      OfStampInScanOrder(xs, w);
      KeptAfterCutAt(ws, r, Rank(xs, w, i));
    } else {
      NotStamped(xs, w, xs[i]);
      ExtentMember(RepeatAt(ws, r), xs[i]);
      RepeatMembers(ws, r, xs[i]);
    }
  }

  lemma NotStamped(xs: seq<Ino>, w: nat, x: Ino)
    ensures x in OfStamp(xs, w) ==> x in xs && x.din.inostamp == w
  {
    PickMembers(xs, StampedMask(xs, w), x);
  }

  lemma RepeatMembers(xs: seq<Ino>, k: nat, x: Ino)
    requires k < |xs|
    ensures x in RepeatAt(xs, k) <==> x in xs
  {
    var ys := RepeatAt(xs, k);
    assert xs == xs[..k + 1] + xs[k + 1..] && xs[k..] == [xs[k]] + xs[k + 1..];
  }

  lemma KeptIsMember(zs: seq<Ino>, x: Ino)
    ensures x in Extents(zs) ==> x in zs
  {
    ExtentMember(zs, x);
  }

  /** Of the inodes of xs, ls holds exactly those whose bit is set. */
  ghost predicate Decides(mask: seq<bool>, xs: seq<Ino>, ls: seq<Ino>) {
    && |mask| == |xs| && (forall x :: x in ls ==> x in xs)
    && forall i :: 0 <= i < |xs| ==> (mask[i] <==> xs[i] in ls)
  }

  lemma SameIffSameMask(xs: seq<Ino>, ps: seq<bool>, ls: seq<Ino>, qs: seq<bool>, ms: seq<Ino>)
    requires Decides(ps, xs, ls) && Decides(qs, xs, ms)
    ensures SameMembers(ls, ms) <==> ps == qs
  {
    if ps == qs {
      forall x ensures x in ls <==> x in ms {
        if x in xs {
          var i :| 0 <= i < |xs| && xs[i] == x;
        }
      }
    } else {
      var i :| 0 <= i < |xs| && ps[i] != qs[i];
    }
  }

  function ResumeMask(xs: seq<Ino>, k: nat): seq<bool>
    requires k < |xs|
  {
    seq(|xs|, i requires 0 <= i < |xs| => SurvivesResume(xs, k, i))
  }

  function StampedPassMask(xs: seq<Ino>, w: nat): seq<bool> {
    seq(|xs|, i requires 0 <= i < |xs| => StampedPasses(xs, w, i))
  }

  function StampedCutMask(xs: seq<Ino>, k: nat): seq<bool>
    requires k < |xs|
  {
    seq(|xs|, i requires 0 <= i < |xs| => StampedPassesCut(xs, k, i))
  }

  lemma ExtentMaskDecides(xs: seq<Ino>)
    requires InScanOrder(xs)
    ensures Decides(ExtentMask(xs), xs, Extents(xs))
  {
    forall x | x in Extents(xs) ensures x in xs {
      KeptIsMember(xs, x);
    }
    forall i | 0 <= i < |xs| ensures ExtentMask(xs)[i] <==> xs[i] in Extents(xs) {
      KeptAt(xs, i);
    }
  }

  lemma ResumeMaskDecides(xs: seq<Ino>, k: nat)
    requires InScanOrder(xs) && k < |xs|
    ensures Decides(ResumeMask(xs, k), xs, Extents(RepeatAt(xs, k)))
  {
    var ls := Extents(RepeatAt(xs, k));
    forall x | x in ls ensures x in xs {
      KeptIsMember(RepeatAt(xs, k), x);
      RepeatMembers(xs, k, x);
    }
    forall i | 0 <= i < |xs| ensures ResumeMask(xs, k)[i] <==> xs[i] in ls {
      KeptAfterCutAt(xs, k, i);
    }
  }

  lemma StampedPassMaskDecides(xs: seq<Ino>, w: nat)
    requires InScanOrder(xs)
    ensures Decides(StampedPassMask(xs, w), xs, Extents(OfStamp(xs, w)))
  {
    var ls := Extents(OfStamp(xs, w));
    forall x | x in ls ensures x in xs {
      KeptIsMember(OfStamp(xs, w), x);
      NotStamped(xs, w, x);
    }
    forall i | 0 <= i < |xs| ensures StampedPassMask(xs, w)[i] <==> xs[i] in ls {
      StampedAt(xs, w, i);
    }
  }

  lemma StampedCutMaskDecides(xs: seq<Ino>, k: nat, ws: seq<Ino>, r: nat)
    requires InScanOrder(xs) && k < |xs| && ws == OfStamp(xs, xs[k].din.inostamp)
    requires r == Rank(xs, xs[k].din.inostamp, k) < |ws|
    ensures Decides(StampedCutMask(xs, k), xs, Extents(RepeatAt(ws, r)))
  {
    var ls := Extents(RepeatAt(ws, r));
    forall x | x in ls ensures x in xs {
      KeptIsMember(RepeatAt(ws, r), x);
      RepeatMembers(ws, r, x);
      NotStamped(xs, xs[k].din.inostamp, x);
    }
    forall i | 0 <= i < |xs| ensures StampedCutMask(xs, k)[i] <==> xs[i] in ls {
      StampedCutAt(xs, k, i);
    }
  }

  /** Two masks agree on the positions of [a..b]. */
  predicate AgreeIn(ps: seq<bool>, qs: seq<bool>, a: nat, b: nat)
    requires b < |ps| == |qs|
  {
    forall i :: a <= i <= b ==> ps[i] == qs[i]
  }

  /** They agree on the run around i. */
  predicate AgreeAround(xs: seq<Ino>, ps: seq<bool>, qs: seq<bool>, i: nat)
    requires i < |ps| == |qs| == |xs|
  {
    AgreeIn(ps, qs, RunStart(xs, i), RunEnd(xs, i))
  }

  /** They agree everywhere when they agree on every run. */
  lemma AgreeOnRuns(xs: seq<Ino>, ps: seq<bool>, qs: seq<bool>)
    requires |ps| == |qs| == |xs|
    ensures ps == qs <==> forall i :: 0 <= i < |xs| ==> AgreeAround(xs, ps, qs, i)
  {
    if forall i :: 0 <= i < |xs| ==> AgreeAround(xs, ps, qs, i) {
      forall i | 0 <= i < |xs| ensures ps[i] == qs[i] {
        assert AgreeAround(xs, ps, qs, i);
      }
      assert ps == qs;
    }
  }

  // ---------------------------------------------------------------- the stage

  /** The cut behind position r of zs does no harm to the run around it. */
  predicate CutIsSpared(zs: seq<Ino>, r: nat)
    requires r < |zs|
  {
    var a, b := RunStart(zs, r), RunEnd(zs, r);
    HarmlessCut(a == 0, a == 0, b - a + 1, r - a)
  }

  predicate FilteredOut(xs: seq<Ino>, k: nat)
    requires k < |xs|
  {
    Dominates(xs) && xs[k].din.inostamp != Winner(xs)
  }

  /** Where the inode at position k is in the filtered list. */
  function Place(xs: seq<Ino>, k: nat): nat
    requires k < |xs|
  {
    if Dominates(xs) then Rank(xs, xs[k].din.inostamp, k) else k
  }

  /**
   * Resuming behind the inode at position k is harmless.  Either the stamp filter decides as before, and the inode is
   * filtered out or the cut of its run in the filtered list is spared; or the guard turns, and every run is spared.
   */
  predicate HarmlessResume(xs: seq<Ino>, k: nat)
    requires k < |xs|
  {
    var s := xs[k].din.inostamp;
    if SameDecision(xs, s) then
      FilteredOut(xs, k) || (Place(xs, k) < |FilterStamps(xs)| && CutIsSpared(FilterStamps(xs), Place(xs, k)))
    else
      forall i :: 0 <= i < |xs| ==> RunIsSpared(xs, k, i)
  }

  /** The run around position i comes out the same although the guard turns. */
  predicate RunIsSpared(xs: seq<Ino>, k: nat, i: nat)
    requires k < |xs| && i < |xs|
  {
    var a, b := RunStart(xs, i), RunEnd(xs, i);
    if Dominates(xs) then SparedOff(xs, k, Winner(xs), a, b) else SparedOn(xs, k, a, b)
  }

  lemma RepeatIsCounted(xs: seq<Ino>, k: nat)
    requires k < |xs|
    ensures RepeatsStamp(xs, RepeatAt(xs, k), xs[k].din.inostamp)
  {
    var front, x, rest, s := xs[..k], xs[k], xs[k + 1..], xs[k].din.inostamp;
    forall y ensures y in RepeatAt(xs, k) <==> y in xs {
      RepeatMembers(xs, k, y);
    }
    assert xs == (front + [x]) + rest && RepeatAt(xs, k) == ((front + [x]) + [x]) + rest;
    forall t: nat ensures Count(RepeatAt(xs, k), t) == Count(xs, t) + if t == s then 1 else 0 {
      CountConcat(front + [x], rest, t);
      CountConcat((front + [x]) + [x], rest, t);
      CountConcat(front + [x], [x], t);
      CountUniform([x], s, t);
    }
  }

  /** The filtered list after the resumption, by cases on the guard. */
  lemma FilteredAfter(xs: seq<Ino>, k: nat)
    requires k < |xs|
    ensures var s, ys := xs[k].din.inostamp, RepeatAt(xs, k);
      var w, r := WinnerAfter(xs, s), Rank(xs, s, k);
      && r < |OfStamp(xs, s)|
      && FilterStamps(ys) ==
         if !DominatesAfter(xs, s) then ys
         else if w == s then RepeatAt(OfStamp(xs, s), r)
         else OfStamp(xs, w)
  {
    var s := xs[k].din.inostamp;
    RepeatIsCounted(xs, k);
    TableAfter(xs, RepeatAt(xs, k), s);
    FilterIs(RepeatAt(xs, k));
    OfStampAt(xs, s, k);
    OfStampRepeat(xs, k, WinnerAfter(xs, s));
  }

  lemma CutIsSparedIff(zs: seq<Ino>, r: nat)
    requires InScanOrder(zs) && r < |zs|
    ensures SameMembers(Extents(RepeatAt(zs, r)), Extents(zs)) <==> CutIsSpared(zs, r)
  {
    ResumeMaskDecides(zs, r);
    ExtentMaskDecides(zs);
    SameIffSameMask(zs, ResumeMask(zs, r), Extents(RepeatAt(zs, r)), ExtentMask(zs), Extents(zs));
    var spared := CutIsSpared(zs, r);
    forall i | 0 <= i < |zs|
      ensures AgreeAround(zs, ResumeMask(zs, r), ExtentMask(zs), i) <==> InRunOf(zs, r, i) ==> spared
    {
      CutAround(zs, r, i);
    }
    RunDecides(zs, ResumeMask(zs, r), ExtentMask(zs), r, spared);
  }

  /** Positions r and i lie in one run. */
  predicate InRunOf(zs: seq<Ino>, r: nat, i: nat)
    requires r < |zs|
  {
    RunStart(zs, r) <= i <= RunEnd(zs, r)
  }

  /** Masks that agree outside the run of r agree when they agree in it. */
  lemma RunDecides(zs: seq<Ino>, ps: seq<bool>, qs: seq<bool>, r: nat, spared: bool)
    requires |ps| == |qs| == |zs| && r < |zs|
    requires forall i :: 0 <= i < |zs| ==> (AgreeAround(zs, ps, qs, i) <==> InRunOf(zs, r, i) ==> spared)
    ensures ps == qs <==> spared
  {
    AgreeOnRuns(zs, ps, qs);
    RunAround(zs, r);
    assert InRunOf(zs, r, r);
  }

  /** The run of r is spared or not as the cut is, and every other run is. */
  lemma CutAround(zs: seq<Ino>, r: nat, i: nat)
    requires r < |zs| && i < |zs|
    ensures AgreeAround(zs, ResumeMask(zs, r), ExtentMask(zs), i) <==> InRunOf(zs, r, i) ==> CutIsSpared(zs, r)
  {
    var a, b, ps, qs := RunStart(zs, i), RunEnd(zs, i), ResumeMask(zs, r), ExtentMask(zs);
    RunAround(zs, r);
    RunAround(zs, i);
    assert forall j :: a <= j <= b ==> (ps[j] <==> SurvivesResume(zs, r, j)) && (qs[j] <==> InExtent(zs, j));
    if RunStart(zs, r) <= i <= RunEnd(zs, r) {
      SameRun(zs, RunStart(zs, r), RunEnd(zs, r), a, b, i);
      CutIsHarmlessIff(zs, r, a, b);
    } else {
      OneRunEach(zs, RunStart(zs, r), RunEnd(zs, r), r, a, b, i);
      forall j | a <= j <= b ensures SurvivesResume(zs, r, j) <==> InExtent(zs, j) {
        OtherVerdictsStay(zs, r, a, b, j);
      }
    }
  }

  lemma SameRun(zs: seq<Ino>, a: nat, b: nat, p: nat, q: nat, i: nat)
    requires MaximalRun(zs, a, b) && MaximalRun(zs, p, q) && a <= i <= b && p <= i <= q
    ensures a == p && b == q
  {
  }

  lemma OneRunEach(zs: seq<Ino>, a: nat, b: nat, r: nat, p: nat, q: nat, i: nat)
    requires MaximalRun(zs, a, b) && MaximalRun(zs, p, q) && a <= r <= b && p <= i <= q && (i < a || b < i)
    ensures q < r || r < p
  {
  }

  lemma SparedOnInRun(xs: seq<Ino>, k: nat, i: nat)
    requires InScanOrder(xs) && k < |xs| && i < |xs| && !Dominates(xs)
    ensures AgreeAround(xs, StampedCutMask(xs, k), ExtentMask(xs), i) <==> RunIsSpared(xs, k, i)
  {
    var a, b, ps, qs := RunStart(xs, i), RunEnd(xs, i), StampedCutMask(xs, k), ExtentMask(xs);
    RunAround(xs, i);
    SparedOnIff(xs, k, a, b);
    assert forall j :: a <= j <= b ==> (ps[j] <==> StampedPassesCut(xs, k, j)) && (qs[j] <==> InExtent(xs, j));
  }

  lemma SparedOffInRun(xs: seq<Ino>, k: nat, w: nat, i: nat)
    requires InScanOrder(xs) && k < |xs| && xs[k].din.inostamp != w && i < |xs| && Dominates(xs) && w == Winner(xs)
    ensures AgreeAround(xs, ResumeMask(xs, k), StampedPassMask(xs, w), i) <==> RunIsSpared(xs, k, i)
  {
    var a, b, ps, qs := RunStart(xs, i), RunEnd(xs, i), ResumeMask(xs, k), StampedPassMask(xs, w);
    RunAround(xs, i);
    SparedOffIff(xs, k, w, a, b);
    assert forall j :: a <= j <= b ==> (ps[j] <==> SurvivesResume(xs, k, j)) && (qs[j] <==> StampedPasses(xs, w, j));
  }

  /** If the filter decides as before, it repeats the inode in its place, or not at all when it filters it out. */
  lemma FilteredAsBefore(xs: seq<Ino>, k: nat)
    requires k < |xs| && SameDecision(xs, xs[k].din.inostamp)
    ensures FilteredOut(xs, k) ==> FilterStamps(RepeatAt(xs, k)) == FilterStamps(xs)
    ensures !FilteredOut(xs, k) ==>
      Place(xs, k) < |FilterStamps(xs)| && FilterStamps(RepeatAt(xs, k)) == RepeatAt(FilterStamps(xs), Place(xs, k))
  {
    DecisionAfter(xs, xs[k].din.inostamp);
    FilteredAfter(xs, k);
    FilterIs(xs);
  }

  lemma FilteredInScanOrder(xs: seq<Ino>)
    requires InScanOrder(xs)
    ensures InScanOrder(FilterStamps(xs))
  {
    FilterIs(xs);
    if Dominates(xs) {
      OfStampInScanOrder(xs, Winner(xs));
    }
  }

  lemma GuardStays(xs: seq<Ino>, k: nat)
    requires InScanOrder(xs) && k < |xs| && SameDecision(xs, xs[k].din.inostamp)
    ensures SameMembers(StageKeeps(RepeatAt(xs, k)), StageKeeps(xs)) <==> HarmlessResume(xs, k)
  {
    FilteredAsBefore(xs, k);
    FilteredInScanOrder(xs);
    if !FilteredOut(xs, k) {
      CutIsSparedIff(FilterStamps(xs), Place(xs, k));
    }
  }

  lemma TurnedOnIff(xs: seq<Ino>, k: nat, ws: seq<Ino>, r: nat)
    requires InScanOrder(xs) && k < |xs| && !Dominates(xs)
    requires ws == OfStamp(xs, xs[k].din.inostamp) && r == Rank(xs, xs[k].din.inostamp, k) < |ws|
    ensures SameMembers(Extents(RepeatAt(ws, r)), Extents(xs)) <==> forall i :: 0 <= i < |xs| ==> RunIsSpared(xs, k, i)
  {
    var ps, qs := StampedCutMask(xs, k), ExtentMask(xs);
    StampedCutMaskDecides(xs, k, ws, r);
    ExtentMaskDecides(xs);
    SameIffSameMask(xs, ps, Extents(RepeatAt(ws, r)), qs, Extents(xs));
    AgreeOnRuns(xs, ps, qs);
    forall i | 0 <= i < |xs| ensures AgreeAround(xs, ps, qs, i) <==> RunIsSpared(xs, k, i) {
      SparedOnInRun(xs, k, i);
    }
  }

  lemma GuardTurnsOn(xs: seq<Ino>, k: nat)
    requires InScanOrder(xs) && k < |xs| && !SameDecision(xs, xs[k].din.inostamp) && !Dominates(xs)
    ensures SameMembers(StageKeeps(RepeatAt(xs, k)), StageKeeps(xs)) <==> HarmlessResume(xs, k)
  {
    var s := xs[k].din.inostamp;
    DecisionAfter(xs, s);
    FilteredAfter(xs, k);
    FilterIs(xs);
    TurnedOnIff(xs, k, OfStamp(xs, s), Rank(xs, s, k));
  }

  lemma TurnedOffIff(xs: seq<Ino>, k: nat, w: nat)
    requires InScanOrder(xs) && k < |xs| && Dominates(xs) && w == Winner(xs) != xs[k].din.inostamp
    ensures SameMembers(Extents(RepeatAt(xs, k)), Extents(OfStamp(xs, w)))
       <==> forall i :: 0 <= i < |xs| ==> RunIsSpared(xs, k, i)
  {
    var ps, qs := ResumeMask(xs, k), StampedPassMask(xs, w);
    ResumeMaskDecides(xs, k);
    StampedPassMaskDecides(xs, w);
    SameIffSameMask(xs, ps, Extents(RepeatAt(xs, k)), qs, Extents(OfStamp(xs, w)));
    AgreeOnRuns(xs, ps, qs);
    forall i | 0 <= i < |xs| ensures AgreeAround(xs, ps, qs, i) <==> RunIsSpared(xs, k, i) {
      SparedOffInRun(xs, k, w, i);
    }
  }

  lemma GuardTurnsOff(xs: seq<Ino>, k: nat)
    requires InScanOrder(xs) && k < |xs| && !SameDecision(xs, xs[k].din.inostamp) && Dominates(xs)
    ensures SameMembers(StageKeeps(RepeatAt(xs, k)), StageKeeps(xs)) <==> HarmlessResume(xs, k)
  {
    DecisionAfter(xs, xs[k].din.inostamp);
    FilteredAfter(xs, k);
    FilterIs(xs);
    TurnedOffIff(xs, k, Winner(xs));
  }

  /**
   * Exactly when resuming a scan is harmless: the stage keeps the same inodes of the list with one inode repeated as
   * of the list without the repetition.
   */
  lemma ResumeIsHarmlessIff(xs: seq<Ino>, k: nat)
    requires InScanOrder(xs) && k < |xs|
    ensures SameMembers(StageKeeps(RepeatAt(xs, k)), StageKeeps(xs)) <==> HarmlessResume(xs, k)
  {
    if SameDecision(xs, xs[k].din.inostamp) {
      GuardStays(xs, k);
    } else if Dominates(xs) {
      GuardTurnsOff(xs, k);
    } else {
      GuardTurnsOn(xs, k);
    }
  }

  lemma ReloadIsIgnored(xs: seq<Ino>)
    requires xs != [] && SameDecision(xs, xs[|xs| - 1].din.inostamp)
    ensures StageKeeps(RepeatAt(xs, |xs| - 1)) == StageKeeps(xs)
  {
    FilteredAsBefore(xs, |xs| - 1);
    StageIs(xs);
    StageIs(RepeatAt(xs, |xs| - 1));
    if !FilteredOut(xs, |xs| - 1) {
      LastPlace(xs);
      LastRepetitionIsIgnored(FilterStamps(xs));
    }
  }

  lemma StageIs(xs: seq<Ino>)
    ensures StageKeeps(xs) == Extents(FilterStamps(xs))
  {
  }

  lemma LastRepetitionIsIgnored(zs: seq<Ino>)
    requires zs != []
    ensures Extents(RepeatAt(zs, |zs| - 1)) == Extents(zs)
  {
    assert RepeatAt(zs, |zs| - 1) == zs + [zs[|zs| - 1]];
    ExtentsIgnoreRepeatedLast(zs);
  }

  lemma LastPlace(xs: seq<Ino>)
    requires xs != [] && !FilteredOut(xs, |xs| - 1)
    ensures Place(xs, |xs| - 1) == |FilterStamps(xs)| - 1
  {
    FilterIs(xs);
    if Dominates(xs) {
      OfStampLength(xs, Winner(xs));
    }
  }

  // ---------------------------------------------------------------- what can be lost

  /**
   * An extent of exactly 32 inodes in the filtered list is kept by an uninterrupted scan.  Resumed within it, the stage
   * loses some of it unless the scan had stopped at its first or last inode.
   */
  lemma InterruptedExtentIsLost(xs: seq<Ino>, k: nat, a: nat)
    requires InScanOrder(xs) && k < |xs| && SameDecision(xs, xs[k].din.inostamp) && !FilteredOut(xs, k)
    requires 0 < a <= Place(xs, k) <= a + 31 && MaximalRun(FilterStamps(xs), a, a + 31)
    ensures forall i :: a <= i <= a + 31 ==> FilterStamps(xs)[i] in StageKeeps(xs)
    ensures (exists i :: a <= i <= a + 31 && FilterStamps(xs)[i] !in StageKeeps(RepeatAt(xs, k)))
       <==> a < Place(xs, k) < a + 31
  {
    var zs, r := FilterStamps(xs), Place(xs, k);
    FilteredAsBefore(xs, k);
    FilteredInScanOrder(xs);
    forall i | a <= i <= a + 31
      ensures zs[i] in StageKeeps(xs)
      ensures zs[i] in StageKeeps(RepeatAt(xs, k)) <==> PassesCut(false, 32, r - a, i - a)
    {
      KeptAt(zs, i);
      KeptAfterCutAt(zs, r, i);
      VerdictAfterResume(zs, r, a, a + 31, i);
    }
    assert r < a + 31 ==> (PassesCut(false, 32, r - a, 31) <==> r == a || r == a + 1);
    assert PassesCut(false, 32, r - a, 0) <==> r == a || r >= a + 30;
    assert zs[a] in StageKeeps(RepeatAt(xs, k)) <==> PassesCut(false, 32, r - a, 0);
    assert zs[a + 31] in StageKeeps(RepeatAt(xs, k)) <==> PassesCut(false, 32, r - a, 31);
  }

  /**
   * A whole extent can be lost although the cut is harmless: 32 inodes of stamp 2, then 99 of stamp 1, each in one
   * run, and the scan resumed behind the first of the 99.  The repetition makes 100 of them, and the guard turns.
   */
  lemma ResumeLosesAGeneration(xs: seq<Ino>)
    requires InScanOrder(xs) && |xs| == 131 && MaximalRun(xs, 0, 31) && MaximalRun(xs, 32, 130)
    requires Stamped(xs, 2, 0, 32) && Stamped(xs, 1, 32, 131)
    ensures FilterStamps(xs) == xs && CutIsSpared(xs, 32) && !HarmlessResume(xs, 32)
    ensures forall i :: 0 <= i < 131 ==> xs[i] in StageKeeps(xs)
    ensures forall i :: 0 <= i < 32 ==> xs[i] !in StageKeeps(RepeatAt(xs, 32))
  {
    assert xs == xs[..32] + xs[32..];
    TwoStamps(xs[..32], xs[32..]);
    FilterIs(xs);
    FilteredAfter(xs, 32);
    RunAround(xs, 32);
    forall i | 0 <= i < 131 ensures xs[i] in StageKeeps(xs) {
      KeptAt(xs, i);
      ExtentVerdict(xs, if i < 32 then 0 else 32, if i < 32 then 31 else 130, i);
    }
    forall i | 0 <= i < 32 ensures xs[i] !in StageKeeps(RepeatAt(xs, 32)) {
      KeptIsMember(FilterStamps(RepeatAt(xs, 32)), xs[i]);
      RepeatMembers(OfStamp(xs, 1), Rank(xs, 1, 32), xs[i]);
      NotStamped(xs, 1, xs[i]);
    }
    ResumeIsHarmlessIff(xs, 32);
    assert xs[0] in StageKeeps(xs) && xs[0] !in StageKeeps(RepeatAt(xs, 32));
  }
}
