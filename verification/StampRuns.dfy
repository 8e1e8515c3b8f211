/** The inodes of one stamp: their places and their runs of consecutive inodes, in terms of the whole list. */
module StampRuns {
  import opened InodeFactory
  import opened Selection
  import opened Stages
  import opened Inostamps
  import opened ResumedScan

  // ---------------------------------------------------------------- the inodes of one stamp

  function StampedMask(xs: seq<Ino>, w: nat): seq<bool> {
    seq(|xs|, i requires 0 <= i < |xs| => xs[i].din.inostamp == w)
  }

  function OfStamp(xs: seq<Ino>, w: nat): seq<Ino> {
    Pick(xs, StampedMask(xs, w))
  }

  lemma FilterIs(xs: seq<Ino>)
    ensures FilterStamps(xs) == if Dominates(xs) then OfStamp(xs, Winner(xs)) else xs
  {
    if Dominates(xs) {
      assert StampMask(xs) == StampedMask(xs, Winner(xs));
    } else {
      PickAll(xs, StampMask(xs));
    }
  }

  lemma OfStampConcat(xs: seq<Ino>, ys: seq<Ino>, w: nat)
    ensures OfStamp(xs + ys, w) == OfStamp(xs, w) + OfStamp(ys, w)
  {
    assert StampedMask(xs + ys, w) == StampedMask(xs, w) + StampedMask(ys, w);
    PickConcat(xs, StampedMask(xs, w), ys, StampedMask(ys, w));
  }

  lemma OfStampOne(x: Ino, w: nat)
    ensures OfStamp([x], w) == if x.din.inostamp == w then [x] else []
  {
    assert [x][..0] == [];
  }

  lemma {:induction false} OfStampLength(xs: seq<Ino>, w: nat)
    ensures |OfStamp(xs, w)| == Count(xs, w)
  {
    if xs != [] {
      var n := |xs| - 1;
      OfStampLength(xs[..n], w);
      assert xs == xs[..n] + [xs[n]];
      OfStampConcat(xs[..n], [xs[n]], w);
      OfStampOne(xs[n], w);
    }
  }

  /** How many inodes of stamp w lie before position i. */
  function Rank(xs: seq<Ino>, w: nat, i: nat): nat
    requires i <= |xs|
  {
    Count(xs[..i], w)
  }

  lemma RankStep(xs: seq<Ino>, w: nat, i: nat)
    requires i < |xs|
    ensures Rank(xs, w, i + 1) == Rank(xs, w, i) + if xs[i].din.inostamp == w then 1 else 0
  {
    assert xs[..i + 1][..i] == xs[..i];
  }

  lemma {:induction false} RankGrows(xs: seq<Ino>, w: nat, i: nat, j: nat)
    requires i <= j <= |xs|
    ensures Rank(xs, w, i) <= Rank(xs, w, j)
    decreases j - i
  {
    if i < j {
      RankGrows(xs, w, i, j - 1);
      RankStep(xs, w, j - 1);
    }
  }

  /** Positions p up to j hold the stamp w only. */
  predicate Stamped(xs: seq<Ino>, w: nat, p: nat, j: int) {
    j <= |xs| && forall i :: p <= i < j ==> xs[i].din.inostamp == w
  }

  lemma {:induction false} RankInStretch(xs: seq<Ino>, w: nat, p: nat, i: nat)
    requires p <= i <= |xs| && Stamped(xs, w, p, i)
    ensures Rank(xs, w, i) == Rank(xs, w, p) + i - p
    decreases i - p
  {
    if p < i {
      RankInStretch(xs, w, p, i - 1);
      RankStep(xs, w, i - 1);
    }
  }

  /** An inode of the stamp sits at its rank. */
  lemma OfStampAt(xs: seq<Ino>, w: nat, i: nat)
    requires i < |xs| && xs[i].din.inostamp == w
    ensures Rank(xs, w, i) < |OfStamp(xs, w)| && OfStamp(xs, w)[Rank(xs, w, i)] == xs[i]
  {
    assert xs == xs[..i] + ([xs[i]] + xs[i + 1..]);
    OfStampConcat(xs[..i], [xs[i]] + xs[i + 1..], w);
    OfStampConcat([xs[i]], xs[i + 1..], w);
    OfStampOne(xs[i], w);
    OfStampLength(xs[..i], w);
  }

  /** And every rank is taken. */
  lemma {:induction false} OfStampOrigin(xs: seq<Ino>, w: nat, j: nat) returns (i: nat)
    requires j < |OfStamp(xs, w)|
    ensures i < |xs| && xs[i].din.inostamp == w && Rank(xs, w, i) == j
  {
    var n := |xs| - 1;
    assert xs == xs[..n] + [xs[n]];
    OfStampConcat(xs[..n], [xs[n]], w);
    OfStampOne(xs[n], w);
    OfStampLength(xs[..n], w);
    if j < |OfStamp(xs[..n], w)| {
      i := OfStampOrigin(xs[..n], w, j);
      assert xs[..n][..i] == xs[..i];
    } else {
      i := n;
    }
  }

  lemma OfStampInScanOrder(xs: seq<Ino>, w: nat)
    requires InScanOrder(xs)
    ensures InScanOrder(OfStamp(xs, w))
  {
    PickKeepsOrder(xs, StampedMask(xs, w));
  }

  lemma OfStampMiddle(front: seq<Ino>, mid: seq<Ino>, rest: seq<Ino>, w: nat)
    ensures OfStamp(front + (mid + rest), w) == OfStamp(front, w) + (OfStamp(mid, w) + OfStamp(rest, w))
  {
    OfStampConcat(front, mid + rest, w);
    OfStampConcat(mid, rest, w);
  }

  lemma OfStampTwice(x: Ino, w: nat)
    ensures OfStamp([x, x], w) == if x.din.inostamp == w then [x, x] else []
  {
    assert [x, x] == [x] + [x];
    OfStampConcat([x], [x], w);
    OfStampOne(x, w);
  }

  lemma RepeatInMiddle(fs: seq<Ino>, x: Ino, rs: seq<Ino>)
    ensures RepeatAt(fs + ([x] + rs), |fs|) == fs + ([x, x] + rs)
  {
    var ws := fs + ([x] + rs);
    assert ws[..|fs| + 1] == fs + [x] && ws[|fs|..] == [x] + rs;
  }

  /** The repetition of one inode is repeated in the list of its stamp and unseen in any other. */
  lemma OfStampRepeat(xs: seq<Ino>, k: nat, w: nat)
    requires k < |xs|
    ensures var ws := OfStamp(xs, w);
      if xs[k].din.inostamp == w then
        Rank(xs, w, k) < |ws| && OfStamp(RepeatAt(xs, k), w) == RepeatAt(ws, Rank(xs, w, k))
      else OfStamp(RepeatAt(xs, k), w) == ws
  {
    var front, x, rest := xs[..k], xs[k], xs[k + 1..];
    var fs, rs := OfStamp(front, w), OfStamp(rest, w);
    assert xs == front + ([x] + rest);
    RepeatInMiddle(front, x, rest);
    OfStampMiddle(front, [x], rest, w);
    OfStampMiddle(front, [x, x], rest, w);
    OfStampOne(x, w);
    OfStampTwice(x, w);
    OfStampLength(front, w);
    if x.din.inostamp == w {
      RepeatInMiddle(fs, x, rs);
    }
  }

  // ---------------------------------------------------------------- runs in the list of one stamp

  lemma NothingBetween(xs: seq<Ino>, w: nat, i: nat, j: nat)
    requires InOrder(xs) && i + 1 < j < |xs| && xs[i].din.inostamp == xs[j].din.inostamp == w
    requires Rank(xs, w, j) == Rank(xs, w, i) + 1
    ensures xs[j].offset != xs[i].offset + 512
  {
    RankStep(xs, w, i);
    if xs[i + 1].din.inostamp == w {
      RankStep(xs, w, i + 1);
      RankGrows(xs, w, i + 2, j);
    }
  }

  /** In order the filter links nothing that was not linked before. */
  lemma LinkedOfStamp(xs: seq<Ino>, w: nat, i: nat)
    requires InOrder(xs) && i < |xs| && xs[i].din.inostamp == w
    ensures Linked(OfStamp(xs, w), Rank(xs, w, i)) <==> Linked(xs, i) && xs[i + 1].din.inostamp == w
  {
    var ws, r := OfStamp(xs, w), Rank(xs, w, i);
    OfStampAt(xs, w, i);
    RankStep(xs, w, i);
    if Linked(xs, i) && xs[i + 1].din.inostamp == w {
      OfStampAt(xs, w, i + 1);
    }
    if Linked(ws, r) {
      var j := OfStampOrigin(xs, w, r + 1);
      OfStampAt(xs, w, j);
      if j <= i {
        RankGrows(xs, w, j, i);
      }
      if i + 1 < j {
        NothingBetween(xs, w, i, j);
      }
    }
  }

  /** [p..q] is a longest linked stretch of inodes of stamp w. */
  predicate StampRun(xs: seq<Ino>, w: nat, p: nat, q: nat) {
    && p <= q < |xs| && Stamped(xs, w, p, q + 1)
    && (forall j :: p <= j < q ==> Linked(xs, j))
    && (p == 0 || !Linked(xs, p - 1) || xs[p - 1].din.inostamp != w)
    && (!Linked(xs, q) || xs[q + 1].din.inostamp != w)
  }

  /** It is a maximal run of the list of that stamp. */
  lemma StampRunIsMaximal(xs: seq<Ino>, w: nat, p: nat, q: nat)
    requires InOrder(xs) && StampRun(xs, w, p, q)
    ensures MaximalRun(OfStamp(xs, w), Rank(xs, w, p), Rank(xs, w, p) + q - p)
  {
    var ws, r := OfStamp(xs, w), Rank(xs, w, p);
    RankInStretch(xs, w, p, q);
    OfStampAt(xs, w, q);
    LinkedOfStamp(xs, w, q);
    forall k | r <= k < r + q - p ensures Linked(ws, k) {
      var j := p + (k - r);
      RankInStretch(xs, w, p, j);
      LinkedOfStamp(xs, w, j);
    }
    if r > 0 {
      NothingBefore(xs, w, p);
    }
  }

  lemma NothingBefore(xs: seq<Ino>, w: nat, p: nat)
    requires InOrder(xs) && p < |xs| && xs[p].din.inostamp == w && Rank(xs, w, p) > 0
    requires p == 0 || !Linked(xs, p - 1) || xs[p - 1].din.inostamp != w
    ensures !Linked(OfStamp(xs, w), Rank(xs, w, p) - 1)
  {
    OfStampAt(xs, w, p);
    var i := OfStampOrigin(xs, w, Rank(xs, w, p) - 1);
    LinkedOfStamp(xs, w, i);
    RankStep(xs, w, i);
    if p <= i {
      RankGrows(xs, w, p, i);
    } else if i + 1 < p && xs[i + 1].din.inostamp == w {
      RankStep(xs, w, i + 1);
      RankGrows(xs, w, i + 2, p);
    }
  }

  lemma {:induction false} StampRunStart(xs: seq<Ino>, w: nat, i: nat) returns (p: nat)
    requires i < |xs| && xs[i].din.inostamp == w
    ensures p <= i && Stamped(xs, w, p, i + 1) && (forall j :: p <= j < i ==> Linked(xs, j))
    ensures p == 0 || !Linked(xs, p - 1) || xs[p - 1].din.inostamp != w
  {
    p := i;
    if i > 0 && Linked(xs, i - 1) && xs[i - 1].din.inostamp == w {
      p := StampRunStart(xs, w, i - 1);
    }
  }

  lemma {:induction false} StampRunEnd(xs: seq<Ino>, w: nat, i: nat) returns (q: nat)
    requires i < |xs| && xs[i].din.inostamp == w
    ensures i <= q < |xs| && Stamped(xs, w, i, q + 1) && (forall j :: i <= j < q ==> Linked(xs, j))
    ensures !Linked(xs, q) || xs[q + 1].din.inostamp != w
    decreases |xs| - i
  {
    q := i;
    if Linked(xs, i) && xs[i + 1].din.inostamp == w {
      q := StampRunEnd(xs, w, i + 1);
    }
  }

  lemma StampRunAround(xs: seq<Ino>, w: nat, i: nat) returns (p: nat, q: nat)
    requires i < |xs| && xs[i].din.inostamp == w
    ensures StampRun(xs, w, p, q) && p <= i <= q
  {
    p := StampRunStart(xs, w, i);
    q := StampRunEnd(xs, w, i);
  }

  /** It lies within the run of the whole list, and is that run when the run has one stamp only. */
  lemma StampRunInRun(xs: seq<Ino>, w: nat, p: nat, q: nat, a: nat, b: nat, i: nat)
    requires StampRun(xs, w, p, q) && MaximalRun(xs, a, b) && p <= i <= q && a <= i <= b
    ensures a <= p && q <= b
    ensures Stamped(xs, w, a, b + 1) ==> p == a && q == b
  {
  }

  /** The inode at i passes the stamp filter for w and then the detector. */
  predicate StampedPasses(xs: seq<Ino>, w: nat, i: nat)
    requires i < |xs|
  {
    && xs[i].din.inostamp == w && Rank(xs, w, i) < |OfStamp(xs, w)|
    && InExtent(OfStamp(xs, w), Rank(xs, w, i))
  }

  /** The same on the list with xs[k] repeated, which has the stamp w too. */
  predicate StampedPassesCut(xs: seq<Ino>, k: nat, i: nat)
    requires i < |xs| && k < |xs|
  {
    var w := xs[k].din.inostamp;
    && xs[i].din.inostamp == w && Rank(xs, w, i) < |OfStamp(xs, w)| && Rank(xs, w, k) < |OfStamp(xs, w)|
    && SurvivesResume(OfStamp(xs, w), Rank(xs, w, k), Rank(xs, w, i))
  }

  lemma StampedVerdict(xs: seq<Ino>, w: nat, p: nat, q: nat, i: nat)
    requires InOrder(xs) && StampRun(xs, w, p, q) && p <= i <= q
    ensures StampedPasses(xs, w, i) <==> Passes(Rank(xs, w, p) == 0, q - p + 1, i - p)
  {
    var r := Rank(xs, w, p);
    StampRunIsMaximal(xs, w, p, q);
    RankInStretch(xs, w, p, i);
    OfStampAt(xs, w, i);
    ExtentVerdict(OfStamp(xs, w), r, r + q - p, r + i - p);
  }

  lemma StampedVerdictCut(xs: seq<Ino>, k: nat, p: nat, q: nat, i: nat)
    requires InOrder(xs) && k < |xs| && StampRun(xs, xs[k].din.inostamp, p, q) && p <= i <= q
    ensures var head := Rank(xs, xs[k].din.inostamp, p) == 0;
      StampedPassesCut(xs, k, i) <==>
        if p <= k <= q then PassesCut(head, q - p + 1, k - p, i - p) else Passes(head, q - p + 1, i - p)
  {
    OfStampAt(xs, xs[k].din.inostamp, i);
    OfStampAt(xs, xs[k].din.inostamp, k);
    if p <= k <= q {
      VerdictInCutStretch(xs, k, p, q, i);
    } else {
      VerdictInOtherStretch(xs, k, p, q, i);
    }
  }

  lemma VerdictInCutStretch(xs: seq<Ino>, k: nat, p: nat, q: nat, i: nat)
    requires InOrder(xs) && k < |xs| && StampRun(xs, xs[k].din.inostamp, p, q) && p <= i <= q && p <= k <= q
    ensures var w := xs[k].din.inostamp;
      var ws, r := OfStamp(xs, w), Rank(xs, w, p);
      && Rank(xs, w, k) < |ws| && Rank(xs, w, i) < |ws|
      && (SurvivesResume(ws, Rank(xs, w, k), Rank(xs, w, i)) <==> PassesCut(r == 0, q - p + 1, k - p, i - p))
  {
    var w := xs[k].din.inostamp;
    var r := Rank(xs, w, p);
    StampRunIsMaximal(xs, w, p, q);
    RankInStretch(xs, w, p, i);
    RankInStretch(xs, w, p, k);
    VerdictAfterResume(OfStamp(xs, w), r + k - p, r, r + q - p, r + i - p);
  }

  lemma VerdictInOtherStretch(xs: seq<Ino>, k: nat, p: nat, q: nat, i: nat)
    requires InOrder(xs) && k < |xs| && StampRun(xs, xs[k].din.inostamp, p, q) && p <= i <= q && !(p <= k <= q)
    requires Rank(xs, xs[k].din.inostamp, k) < |OfStamp(xs, xs[k].din.inostamp)|
    ensures var w := xs[k].din.inostamp;
      var ws, r := OfStamp(xs, w), Rank(xs, w, p);
      && Rank(xs, w, i) < |ws|
      && (SurvivesResume(ws, Rank(xs, w, k), Rank(xs, w, i)) <==> Passes(r == 0, q - p + 1, i - p))
  {
    var w := xs[k].din.inostamp;
    var r := Rank(xs, w, p);
    StampRunIsMaximal(xs, w, p, q);
    RankInStretch(xs, w, p, i);
    RankOutside(xs, w, p, q, k);
    OtherVerdictsStay(OfStamp(xs, w), Rank(xs, w, k), r, r + q - p, r + i - p);
    ExtentVerdict(OfStamp(xs, w), r, r + q - p, r + i - p);
  }

  lemma RankOutside(xs: seq<Ino>, w: nat, p: nat, q: nat, k: nat)
    requires StampRun(xs, w, p, q) && k < |xs| && xs[k].din.inostamp == w && !(p <= k <= q)
    ensures var r := Rank(xs, w, p); Rank(xs, w, k) < r || r + q - p < Rank(xs, w, k)
  {
    if k < p {
      RankStep(xs, w, k);
      RankGrows(xs, w, k + 1, p);
    } else {
      RankInStretch(xs, w, p, q + 1);
      RankGrows(xs, w, q + 1, k);
    }
  }
}
