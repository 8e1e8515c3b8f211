/** Stable selection of a sequence's elements by a mask: what remove_marked and remove_unmarked do to the vector. */
module Selection {

  function Pick<T>(xs: seq<T>, mask: seq<bool>): (ys: seq<T>)
    requires |xs| == |mask|
    ensures |ys| <= |xs|
  {
    if xs == [] then []
    else
      var n := |xs| - 1;
      if mask[n] then Pick(xs[..n], mask[..n]) + [xs[n]] else Pick(xs[..n], mask[..n])
  }

  function Complement(mask: seq<bool>): seq<bool> {
    seq(|mask|, i requires 0 <= i < |mask| => !mask[i])
  }

  /** ys is xs with elements left out and the order of the others kept; at names their old positions. */
  ghost predicate KeepsOrder<T>(xs: seq<T>, ys: seq<T>, at: seq<nat>) {
    && |at| == |ys|
    && (forall k :: 0 <= k < |at| ==> at[k] < |xs| && xs[at[k]] == ys[k])
    && (forall k, l :: 0 <= k < l < |at| ==> at[k] < at[l])
  }

  lemma PickAppend<T>(xs: seq<T>, mask: seq<bool>, x: T, b: bool)
    requires |xs| == |mask|
    ensures Pick(xs + [x], mask + [b]) == if b then Pick(xs, mask) + [x] else Pick(xs, mask)
  {
    assert (xs + [x])[..|xs|] == xs && (mask + [b])[..|xs|] == mask;
  }

  /** The step of a loop that picks from a growing prefix. */
  lemma PickNext<T>(xs: seq<T>, mask: seq<bool>, i: nat)
    requires |xs| == |mask| && i < |xs|
    ensures Pick(xs[..i + 1], mask[..i + 1]) ==
      if mask[i] then Pick(xs[..i], mask[..i]) + [xs[i]] else Pick(xs[..i], mask[..i])
  {
    assert xs[..i + 1] == xs[..i] + [xs[i]] && mask[..i + 1] == mask[..i] + [mask[i]];
    PickAppend(xs[..i], mask[..i], xs[i], mask[i]);
  }

  lemma PickWhole<T>(xs: seq<T>, mask: seq<bool>)
    requires |xs| == |mask|
    ensures Pick(xs[..|xs|], mask[..|mask|]) == Pick(xs, mask)
  {
    assert xs[..|xs|] == xs && mask[..|mask|] == mask;
  }

  lemma {:induction false} PickConcat<T>(xs: seq<T>, ms: seq<bool>, ys: seq<T>, ns: seq<bool>)
    requires |xs| == |ms| && |ys| == |ns|
    ensures Pick(xs + ys, ms + ns) == Pick(xs, ms) + Pick(ys, ns)
  {
    if ys == [] {
      assert xs + ys == xs && ms + ns == ms;
    } else {
      var n := |ys| - 1;
      PickConcat(xs, ms, ys[..n], ns[..n]);
      assert xs + ys == (xs + ys[..n]) + [ys[n]] && ms + ns == (ms + ns[..n]) + [ns[n]];
      PickAppend(xs + ys[..n], ms + ns[..n], ys[n], ns[n]);
    }
  }

  lemma {:induction false} PickAll<T>(xs: seq<T>, mask: seq<bool>)
    requires |xs| == |mask| && forall i :: 0 <= i < |mask| ==> mask[i]
    ensures Pick(xs, mask) == xs
  {
    if xs != [] {
      PickAll(xs[..|xs| - 1], mask[..|xs| - 1]);
    }
  }

  lemma {:induction false} PickNone<T>(xs: seq<T>, mask: seq<bool>)
    requires |xs| == |mask| && forall i :: 0 <= i < |mask| ==> !mask[i]
    ensures Pick(xs, mask) == []
  {
    if xs != [] {
      PickNone(xs[..|xs| - 1], mask[..|xs| - 1]);
    }
  }

  /** The positions a mask selects, in increasing order. */
  function Positions(mask: seq<bool>): (at: seq<nat>)
    ensures forall k :: 0 <= k < |at| ==> at[k] < |mask| && mask[at[k]]
    ensures forall k, l :: 0 <= k < l < |at| ==> at[k] < at[l]
    ensures forall i :: 0 <= i < |mask| && mask[i] ==> i in at
  {
    if mask == [] then []
    else
      var n := |mask| - 1;
      var front := Positions(mask[..n]);
      assert forall i :: 0 <= i < n && mask[i] ==> mask[..n][i] && i in front;
      if mask[n] then front + [n] else front
  }

  /** The picked elements are those whose mask bit is set, in the order they had. */
  lemma {:induction false} PickKeepsOrder<T>(xs: seq<T>, mask: seq<bool>)
    requires |xs| == |mask|
    ensures KeepsOrder(xs, Pick(xs, mask), Positions(mask))
  {
    if xs != [] {
      var n := |xs| - 1;
      PickKeepsOrder(xs[..n], mask[..n]);
    }
  }

  function Occurrences<T(==)>(xs: seq<T>, x: T): nat {
    if xs == [] then 0 else Occurrences(xs[..|xs| - 1], x) + if xs[|xs| - 1] == x then 1 else 0
  }

  lemma OccurrencesAppend<T>(xs: seq<T>, y: T, x: T)
    ensures Occurrences(xs + [y], x) == Occurrences(xs, x) + if y == x then 1 else 0
  {
    assert (xs + [y])[..|xs|] == xs;
  }

  lemma {:induction false} OccurrencesCount<T>(xs: seq<T>, x: T)
    ensures Occurrences(xs, x) == multiset(xs)[x]
  {
    if xs != [] {
      OccurrencesCount(xs[..|xs| - 1], x);
      assert xs == xs[..|xs| - 1] + [xs[|xs| - 1]];
    }
  }

  lemma {:induction false} PickOccurrences<T>(xs: seq<T>, mask: seq<bool>, rest: seq<bool>, x: T)
    requires |xs| == |mask| && rest == Complement(mask)
    ensures Occurrences(Pick(xs, mask), x) + Occurrences(Pick(xs, rest), x) == Occurrences(xs, x)
  {
    if xs != [] {
      var n := |xs| - 1;
      PickOccurrences(xs[..n], mask[..n], rest[..n], x);
      OccurrencesAppend(Pick(xs[..n], mask[..n]), xs[n], x);
      OccurrencesAppend(Pick(xs[..n], rest[..n]), xs[n], x);
    }
  }

  lemma SplitFromOccurrences<T>(xs: seq<T>, ps: seq<T>, qs: seq<T>)
    requires forall x :: Occurrences(ps, x) + Occurrences(qs, x) == Occurrences(xs, x)
    ensures multiset(ps) + multiset(qs) == multiset(xs)
  {
    forall x ensures multiset(ps)[x] + multiset(qs)[x] == multiset(xs)[x] {
      OccurrencesCount(ps, x);
      OccurrencesCount(qs, x);
      OccurrencesCount(xs, x);
    }
  }

  /** Picking by a mask and by its complement splits xs: nothing is lost and nothing duplicated. */
  lemma PickSplits<T>(xs: seq<T>, mask: seq<bool>)
    requires |xs| == |mask|
    ensures multiset(Pick(xs, mask)) + multiset(Pick(xs, Complement(mask))) == multiset(xs)
  {
    forall x ensures Occurrences(Pick(xs, mask), x) + Occurrences(Pick(xs, Complement(mask)), x) == Occurrences(xs, x) {
      PickOccurrences(xs, mask, Complement(mask), x);
    }
    SplitFromOccurrences(xs, Pick(xs, mask), Pick(xs, Complement(mask)));
  }

  lemma {:induction false} PickMembers<T>(xs: seq<T>, mask: seq<bool>, x: T)
    requires |xs| == |mask|
    ensures x in Pick(xs, mask) <==> exists i :: 0 <= i < |xs| && mask[i] && xs[i] == x
  {
    PickKeepsOrder(xs, mask);
    var at := Positions(mask);
    var ys := Pick(xs, mask);
    if x in ys {
      var k :| 0 <= k < |ys| && ys[k] == x;
      assert mask[at[k]] && xs[at[k]] == x;
    }
    if i :| 0 <= i < |xs| && mask[i] && xs[i] == x {
      assert i in at;
      var k :| 0 <= k < |at| && at[k] == i;
      assert ys[k] == x;
    }
  }
}
