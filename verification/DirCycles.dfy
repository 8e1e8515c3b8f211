/** When the walk over a directory ends: the program tests for cycles among slots, but not among pages. */
module DirCycles {
  import opened Bytes
  import opened Wrappers
  import opened BlockDevice
  import opened ParentGraph
  import opened DirInodeNames

  // ---------------------------------------------------------------- the sibling chain

  /** The offset of the page behind the one at o, when the walk goes on to a page that can be read in full. */
  function NextOffset(dev: Device, o: nat): Option<nat>
    requires Whole(dev, o)
  {
    var p := PageAt(dev, o);
    if p.nextIndex == -1 || p.next == 0 || !Whole(dev, ByteOffset(dev, p.next)) then None
    else Some(ByteOffset(dev, p.next))
  }

  function Siblings(dev: Device): (g: Graph<nat>)
    ensures Closed(g) && forall o: nat :: o in g <==> Whole(dev, o)
  {
    map o: nat | 0 <= o < |dev.bytes| && Whole(dev, o) :: NextOffset(dev, o)
  }

  predicate ReadsWell(dev: Device, offset: int) {
    Whole(dev, offset) || ReadThrows(dev.bytes, offset, PAGE)
  }

  /** The page at o does not send the walk outside its memory, and the read behind it is in full or throws. */
  predicate IsSound(dev: Device, o: nat)
    requires Whole(dev, o)
  {
    var p := PageAt(dev, o);
    p.nextIndex == -1 ||
    (Readable(p) && (p.next == 0 || ReadsWell(dev, ByteOffset(dev, p.next))))
  }

  /** So do all pages that are reached from o. */
  ghost predicate ChainIsSound(dev: Device, o: nat)
    requires Whole(dev, o)
  {
    forall n :: Up(Siblings(dev), o, n).Some? ==>
      Whole(dev, Up(Siblings(dev), o, n).value) && IsSound(dev, Up(Siblings(dev), o, n).value)
  }

  lemma ChainBehind(dev: Device, o: nat)
    requires Whole(dev, o) && ChainIsSound(dev, o) && NextOffset(dev, o).Some?
    ensures ChainIsSound(dev, NextOffset(dev, o).value)
  {
    var g, next := Siblings(dev), NextOffset(dev, o).value;
    forall n: nat ensures Up(g, next, n) == Up(g, o, n + 1) {
    }
  }

  lemma FirstIsSound(dev: Device, o: nat)
    requires Whole(dev, o) && ChainIsSound(dev, o)
    ensures IsSound(dev, o)
  {
    assert Up(Siblings(dev), o, 0) == Some(o);
  }

  lemma StepIs(dev: Device, o: nat)
    requires Whole(dev, o)
    ensures o in Siblings(dev) && Siblings(dev)[o] == NextOffset(dev, o)
    ensures NextOffset(dev, o).Some? ==> Whole(dev, NextOffset(dev, o).value)
  {
  }

  /** The pages along a trail are a run of the walk. */
  lemma {:induction false} TrailRuns(dev: Device, p: seq<nat>) returns (pages: seq<Node>, end: End)
    requires IsTrail(Siblings(dev), p) && Whole(dev, p[0]) && ChainIsSound(dev, p[0])
    ensures LeafRun(dev, pages, end) && pages[0] == PageAt(dev, p[0])
    decreases |p|
  {
    FirstIsSound(dev, p[0]);
    StepIs(dev, p[0]);
    if |p| == 1 {
      pages, end := LastRun(dev, p[0]);
    } else {
      ChainBehind(dev, p[0]);
      var rest;
      rest, end := TrailRuns(dev, p[1..]);
      RunGoesOn(dev, p[0], rest, end);
      pages := [PageAt(dev, p[0])] + rest;
    }
  }

  lemma LastRun(dev: Device, o: nat) returns (pages: seq<Node>, end: End)
    requires Whole(dev, o) && IsSound(dev, o) && NextOffset(dev, o).None?
    ensures LeafRun(dev, pages, end) && pages[0] == PageAt(dev, o)
  {
    var p := PageAt(dev, o);
    pages, end := [p], if p.nextIndex == -1 then BadIndex else if p.next == 0 then Finished else Unreadable;
  }

  lemma RunGoesOn(dev: Device, o: nat, rest: seq<Node>, end: End)
    requires Whole(dev, o) && IsSound(dev, o) && NextOffset(dev, o).Some?
    requires LeafRun(dev, rest, end) && rest[0] == PageAt(dev, NextOffset(dev, o).value)
    ensures LeafRun(dev, [PageAt(dev, o)] + rest, end)
  {
    var p := PageAt(dev, o);
    WholeOver(dev, NextOffset(dev, o).value, p.raw);
    assert ([p] + rest)[1..] == rest && Follows(dev, p, rest[0]);
  }

  lemma RunEndsHere(dev: Device, o: nat, pages: seq<Node>, end: End)
    requires Whole(dev, o) && LeafRun(dev, pages, end) && pages[0] == PageAt(dev, o) && |pages| == 1
    ensures NextOffset(dev, o).None?
  {
  }

  /** And a run of the walk is a trail. */
  lemma {:induction false} RunTrail(dev: Device, o: nat, pages: seq<Node>, end: End) returns (p: seq<nat>)
    requires Whole(dev, o) && ChainIsSound(dev, o) && LeafRun(dev, pages, end) && pages[0] == PageAt(dev, o)
    ensures IsTrail(Siblings(dev), p) && p[0] == o
    decreases |pages|
  {
    FirstIsSound(dev, o);
    StepIs(dev, o);
    if |pages| == 1 {
      RunEndsHere(dev, o, pages, end);
      p := [o];
    } else {
      NextInRun(dev, o, pages, end);
      ChainBehind(dev, o);
      var rest := RunTrail(dev, NextOffset(dev, o).value, pages[1..], end);
      p := [o] + rest;
      assert p[1..] == rest;
    }
  }

  lemma NextInRun(dev: Device, o: nat, pages: seq<Node>, end: End)
    requires Whole(dev, o) && IsSound(dev, o) && LeafRun(dev, pages, end) && pages[0] == PageAt(dev, o) && |pages| > 1
    ensures NextOffset(dev, o).Some? && pages[1] == PageAt(dev, NextOffset(dev, o).value)
    ensures LeafRun(dev, pages[1..], end)
  {
    WholeOver(dev, ByteOffset(dev, pages[0].next), pages[0].raw);
  }

  /** The walk from the page at o ends. */
  ghost predicate WalkEnds(dev: Device, o: nat)
    requires Whole(dev, o)
  {
    exists pages, end :: LeafRun(dev, pages, end) && pages[0] == PageAt(dev, o)
  }

  lemma WalkStops(dev: Device, o: nat)
    requires Whole(dev, o) && ChainIsSound(dev, o) && WalkEnds(dev, o)
    ensures Stops(Siblings(dev), o)
  {
    var pages, end :| LeafRun(dev, pages, end) && pages[0] == PageAt(dev, o);
    var p := RunTrail(dev, o, pages, end);
    TrailStops(Siblings(dev), p);
  }

  lemma StoppingEnds(dev: Device, o: nat)
    requires Whole(dev, o) && ChainIsSound(dev, o) && Stops(Siblings(dev), o)
    ensures WalkEnds(dev, o)
  {
    var n :| Up(Siblings(dev), o, n).None?;
    var p := TrailOf(Siblings(dev), o, n);
    var pages, end := TrailRuns(dev, p);
  }

  /** The walk along a chain of sound pages ends if and only if no page offset comes twice along the sibling links. */
  lemma WalkEndsIff(dev: Device, o: nat)
    requires Whole(dev, o) && ChainIsSound(dev, o)
    ensures WalkEnds(dev, o) <==> NeverRepeats(Siblings(dev), o)
  {
    StopsIff(Siblings(dev), o);
    if WalkEnds(dev, o) {
      WalkStops(dev, o);
    }
    if Stops(Siblings(dev), o) {
      StoppingEnds(dev, o);
    }
  }

  // ---------------------------------------------------------------- the descent

  /** The offset of the leftmost child of the page at o, when the descent goes on to it. */
  function ChildOffset(dev: Device, o: nat): Option<nat>
    requires Whole(dev, o)
  {
    var p := PageAt(dev, o);
    if IsLeaf(p) || !TableInside(p, 1) || !SanePxd(dev, FirstChild(p)) then None
    else if Whole(dev, ByteOffset(dev, FirstChild(p).addr)) then Some(ByteOffset(dev, FirstChild(p).addr))
    else None
  }

  function FirstChildren(dev: Device): (g: Graph<nat>)
    ensures Closed(g) && forall o: nat :: o in g <==> Whole(dev, o)
  {
    map o: nat | 0 <= o < |dev.bytes| && Whole(dev, o) :: ChildOffset(dev, o)
  }

  /** The page at o does not send the descent outside its memory, and its child is read in full if at all. */
  predicate IsSoundInner(dev: Device, o: nat)
    requires Whole(dev, o)
  {
    var p := PageAt(dev, o);
    IsLeaf(p) ||
    (TableInside(p, 1) && (SanePxd(dev, FirstChild(p)) ==> Whole(dev, ByteOffset(dev, FirstChild(p).addr))))
  }

  ghost predicate DescentIsSound(dev: Device, o: nat)
    requires Whole(dev, o)
  {
    forall n :: Up(FirstChildren(dev), o, n).Some? ==>
      Whole(dev, Up(FirstChildren(dev), o, n).value) && IsSoundInner(dev, Up(FirstChildren(dev), o, n).value)
  }

  lemma DescentBehind(dev: Device, o: nat)
    requires Whole(dev, o) && DescentIsSound(dev, o)
    ensures IsSoundInner(dev, o)
    ensures ChildOffset(dev, o).Some? ==> DescentIsSound(dev, ChildOffset(dev, o).value)
  {
    var g := FirstChildren(dev);
    assert Up(g, o, 0) == Some(o);
    if ChildOffset(dev, o).Some? {
      forall n: nat ensures Up(g, ChildOffset(dev, o).value, n) == Up(g, o, n + 1) {
      }
    }
  }

  lemma ChildIs(dev: Device, o: nat)
    requires Whole(dev, o)
    ensures o in FirstChildren(dev) && FirstChildren(dev)[o] == ChildOffset(dev, o)
    ensures ChildOffset(dev, o).Some? ==> Whole(dev, ChildOffset(dev, o).value)
  {
  }

  /** The descent to the page at o is sound. */
  ghost predicate LeadsTo(dev: Device, pxd: Pxd, o: nat) {
    SanePxd(dev, pxd) && ByteOffset(dev, pxd.addr) == o && Whole(dev, o) && DescentIsSound(dev, o)
  }

  lemma ChildOfSound(dev: Device, pxd: Pxd, o: nat)
    requires LeadsTo(dev, pxd, o) && ChildOffset(dev, o).Some?
    ensures !IsLeaf(PageAt(dev, o)) && TableInside(PageAt(dev, o), 1)
    ensures LeadsTo(dev, FirstChild(PageAt(dev, o)), ChildOffset(dev, o).value)
  {
    DescentBehind(dev, o);
  }

  lemma LastOfSound(dev: Device, pxd: Pxd, o: nat)
    requires LeadsTo(dev, pxd, o) && ChildOffset(dev, o).None?
    ensures Descent(dev, pxd, [PageAt(dev, o)], IsLeaf(PageAt(dev, o)))
  {
    DescentBehind(dev, o);
    assert [PageAt(dev, o)][1..] == [];
  }

  lemma DescentGoesOn(dev: Device, pxd: Pxd, o: nat, rest: seq<Node>, reached: bool)
    requires LeadsTo(dev, pxd, o) && !IsLeaf(PageAt(dev, o)) && TableInside(PageAt(dev, o), 1)
    requires Descent(dev, FirstChild(PageAt(dev, o)), rest, reached)
    ensures Descent(dev, pxd, [PageAt(dev, o)] + rest, reached)
  {
    assert ([PageAt(dev, o)] + rest)[1..] == rest;
  }

  /** The pages along a trail are a descent. */
  lemma {:induction false} TrailDescends(dev: Device, pxd: Pxd, p: seq<nat>) returns (path: seq<Node>, reached: bool)
    requires IsTrail(FirstChildren(dev), p) && LeadsTo(dev, pxd, p[0])
    ensures Descent(dev, pxd, path, reached)
    decreases |p|
  {
    var page := PageAt(dev, p[0]);
    ChildIs(dev, p[0]);
    if |p| == 1 {
      path, reached := [page], IsLeaf(page);
      LastOfSound(dev, pxd, p[0]);
    } else {
      ChildOfSound(dev, pxd, p[0]);
      var rest;
      rest, reached := TrailDescends(dev, FirstChild(page), p[1..]);
      DescentGoesOn(dev, pxd, p[0], rest, reached);
      path := [page] + rest;
    }
  }

  lemma DescentBegins(dev: Device, pxd: Pxd, o: nat, path: seq<Node>, reached: bool)
    requires LeadsTo(dev, pxd, o) && Descent(dev, pxd, path, reached)
    ensures path != [] && path[0] == PageAt(dev, o)
  {
  }

  /** And a descent is a trail. */
  lemma {:induction false} DescentTrail(dev: Device, pxd: Pxd, o: nat, path: seq<Node>, reached: bool)
    returns (p: seq<nat>)
    requires LeadsTo(dev, pxd, o) && Descent(dev, pxd, path, reached)
    ensures IsTrail(FirstChildren(dev), p) && p[0] == o
    decreases |path|
  {
    DescentBegins(dev, pxd, o, path, reached);
    ChildIs(dev, o);
    p := [o];
    if ChildOffset(dev, o).Some? {
      ChildOfSound(dev, pxd, o);
      DescentBelow(dev, pxd, path, reached);
      var rest := DescentTrail(dev, FirstChild(path[0]), ChildOffset(dev, o).value, path[1..], reached);
      p := [o] + rest;
      assert p[1..] == rest;
    }
  }

  /** The descent from pxd ends, at a leaf or at an insane extent descriptor. */
  ghost predicate DescentEnds(dev: Device, pxd: Pxd) {
    exists path, reached :: Descent(dev, pxd, path, reached)
  }

  /** The descent over sound pages ends if and only if no page offset comes twice along the leftmost children. */
  lemma DescentEndsIff(dev: Device, pxd: Pxd, o: nat)
    requires LeadsTo(dev, pxd, o)
    ensures DescentEnds(dev, pxd) <==> NeverRepeats(FirstChildren(dev), o)
  {
    StopsIff(FirstChildren(dev), o);
    if DescentEnds(dev, pxd) {
      var path, reached :| Descent(dev, pxd, path, reached);
      var p := DescentTrail(dev, pxd, o, path, reached);
      TrailStops(FirstChildren(dev), p);
    }
    if Stops(FirstChildren(dev), o) {
      var n :| Up(FirstChildren(dev), o, n).None?;
      var p := TrailOf(FirstChildren(dev), o, n);
      var path, reached := TrailDescends(dev, pxd, p);
    }
  }
}
