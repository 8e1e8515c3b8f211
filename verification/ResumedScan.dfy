/**
 * A scan resumed after inoscan.txt ended at position k leaves that inode in the vector twice, in the middle of
 * the list.  The repetition cuts the run of consecutive inodes around k in two.
 */
module ResumedScan {
  import opened InodeFactory
  import opened Stages

  function RepeatAt<T>(xs: seq<T>, k: nat): seq<T>
    requires k < |xs|
  {
    xs[..k + 1] + xs[k..]
  }

  /** Whether the inode at position i of the uninterrupted list passes the extent detector after the resumption. */
  predicate SurvivesResume(xs: seq<Ino>, k: nat, i: nat)
    requires k < |xs| && i < |xs|
  {
    var ys := RepeatAt(xs, k);
    if i < k then InExtent(ys, i) else if i > k then InExtent(ys, i + 1) else InExtent(ys, k) || InExtent(ys, k + 1)
  }

  lemma LinksOfRepeated(xs: seq<Ino>, k: nat, i: nat)
    requires k < |xs|
    ensures var ys := RepeatAt(xs, k);
      Linked(ys, i) <==> if i < k then Linked(xs, i) else i > k && Linked(xs, i - 1)
  {
    var ys := RepeatAt(xs, k);
    assert ys[k] == xs[k] && ys[k + 1] == xs[k];
    assert forall j :: 0 <= j <= k ==> ys[j] == xs[j];
    assert forall j :: k < j < |ys| ==> ys[j] == xs[j - 1];
  }

  /** The run [a..b] around k becomes the two runs [a..k] and [k+1..b+1]. */
  lemma RunIsCut(xs: seq<Ino>, k: nat, a: nat, b: nat)
    requires MaximalRun(xs, a, b) && a <= k <= b
    ensures MaximalRun(RepeatAt(xs, k), a, k)
    ensures MaximalRun(RepeatAt(xs, k), k + 1, b + 1)
  {
    var ys := RepeatAt(xs, k);
    forall i | a <= i < k || k < i <= b ensures Linked(ys, i) {
      LinksOfRepeated(xs, k, i);
      assert i > k ==> Linked(xs, i - 1);
    }
    LinksOfRepeated(xs, k, k);
    LinksOfRepeated(xs, k, b + 1);
    if a > 0 {
      LinksOfRepeated(xs, k, a - 1);
    }
  }

  /** Every run that does not contain k stays a run, moved up by one behind k. */
  lemma OtherRunsStay(xs: seq<Ino>, k: nat, a: nat, b: nat)
    requires k < |xs| && MaximalRun(xs, a, b) && (b < k || k < a)
    ensures var d := if b < k then 0 else 1; MaximalRun(RepeatAt(xs, k), a + d, b + d)
  {
    var d, ys := if b < k then 0 else 1, RepeatAt(xs, k);
    forall i | a + d <= i < b + d ensures Linked(ys, i) {
      LinksOfRepeated(xs, k, i);
      assert Linked(xs, i - d);
    }
    LinksOfRepeated(xs, k, b + d);
    if a + d > 0 {
      LinksOfRepeated(xs, k, a + d - 1);
    }
  }

  /** The verdict on position j of a run of the given length, at the head of its list or not. */
  predicate Passes(head: bool, len: nat, j: int) {
    if head then len >= 32 || (len == 31 && j == 0) else len >= 31
  }

  /** The same when the run is cut behind position c, which is in both parts. */
  predicate PassesCut(head: bool, len: nat, c: nat, j: int)
    requires c < len
  {
    (j <= c && Passes(head, c + 1, j)) || (j >= c && len - c >= 31)
  }

  /** Where the cut may fall without harm; the flags say whether the run is at the head of its list, uncut and cut. */
  predicate HarmlessCut(before: bool, after: bool, len: nat, c: nat) {
    len < 31 ||
    if before && len == 31 then c == 30
    else (c == 0 || c >= if after then 31 else 30) && (c == len - 1 || len - 1 - c >= 30)
  }

  /** The condition is exact. */
  lemma HarmlessCutIff(before: bool, after: bool, len: nat, c: nat)
    requires c < len && (before ==> after)
    ensures (forall j :: 0 <= j < len ==> (PassesCut(after, len, c, j) <==> Passes(before, len, j)))
       <==> HarmlessCut(before, after, len, c)
  {
    if !HarmlessCut(before, after, len, c) {
      // a witness whose verdict flips
      var j := if before && len == 31 then (if c == 0 then 1 else 0)
               else if c != len - 1 && len - 1 - c < 30 then len - 1
               else if after && c == 30 then 1 else 0;
      assert 0 <= j < len && !(PassesCut(after, len, c, j) <==> Passes(before, len, j));
    }
  }

  /** Inodes outside the interrupted run are never affected. */
  lemma OtherVerdictsStay(xs: seq<Ino>, k: nat, a: nat, b: nat, i: nat)
    requires k < |xs| && MaximalRun(xs, a, b) && a <= i <= b && (b < k || k < a)
    ensures SurvivesResume(xs, k, i) <==> InExtent(xs, i)
  {
    var d := if b < k then 0 else 1;
    OtherRunsStay(xs, k, a, b);
    ExtentVerdict(xs, a, b, i);
    ExtentVerdict(RepeatAt(xs, k), a + d, b + d, i + d);
  }

  lemma VerdictAfterResume(xs: seq<Ino>, k: nat, a: nat, b: nat, i: nat)
    requires MaximalRun(xs, a, b) && a <= k <= b && a <= i <= b
    ensures InExtent(xs, i) <==> Passes(a == 0, b - a + 1, i - a)
    ensures SurvivesResume(xs, k, i) <==> PassesCut(a == 0, b - a + 1, k - a, i - a)
  {
    ExtentVerdict(xs, a, b, i);
    RunIsCut(xs, k, a, b);
    var ys := RepeatAt(xs, k);
    if i <= k {
      ExtentVerdict(ys, a, k, i);
    }
    if i >= k {
      ExtentVerdict(ys, k + 1, b + 1, i + 1);
    }
  }

  /**
   * The detector judges every inode of the run around the repeated position as it would without the repetition
   * if and only if the cut is harmless.
   */
  lemma CutIsHarmlessIff(xs: seq<Ino>, k: nat, a: nat, b: nat)
    requires MaximalRun(xs, a, b) && a <= k <= b
    ensures (forall i :: a <= i <= b ==> (SurvivesResume(xs, k, i) <==> InExtent(xs, i)))
       <==> HarmlessCut(a == 0, a == 0, b - a + 1, k - a)
  {
    var head, len, c := a == 0, b - a + 1, k - a;
    HarmlessCutIff(head, head, len, c);
    forall i | a <= i <= b
      ensures InExtent(xs, i) <==> Passes(head, len, i - a)
      ensures SurvivesResume(xs, k, i) <==> PassesCut(head, len, c, i - a)
    {
      VerdictAfterResume(xs, k, a, b, i);
    }
    if forall i :: a <= i <= b ==> (SurvivesResume(xs, k, i) <==> InExtent(xs, i)) {
      forall j | 0 <= j < len ensures PassesCut(head, len, c, j) <==> Passes(head, len, j) {
        assert SurvivesResume(xs, k, a + j) <==> InExtent(xs, a + j);
      }
    }
  }
}
