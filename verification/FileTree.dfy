/** The extent B+-tree of a file and its flattening into a list of extents. */
module FileXtree {
  import opened Bytes
  import opened BlockDevice

  const XAD := 16
  const PAGE_XADS := 256

  /** An extent: its place in the file, its length and its place on the device, in blocks. */
  datatype Xad = Xad(off: nat, len: nat, addr: nat)

  /** xtpage_t: the header fields used, and the xad array that overlays the header. */
  datatype XtPage = XtPage(flag: nat, nextIndex: int, xads: seq<Xad>)

  function XadAt(m: seq<Byte>, at: nat): (x: Xad)
    requires at + XAD <= |m|
    ensures x.len < 0x100_0000
  {
    Xad(U8(m, at + 3) * 0x1_0000_0000 + Le32(m, at + 4), Le24(m, at + 8),
        U8(m, at + 11) * 0x1_0000_0000 + Le32(m, at + 12))
  }

  function ParseXtPage(m: seq<Byte>): (p: XtPage)
    requires |m| >= 32
    ensures |p.xads| == |m| / XAD && forall x :: x in p.xads ==> x.len < 0x100_0000
  {
    XtPage(U8(m, 16), I16(m, 18), seq(|m| / XAD, k requires 0 <= k < |m| / XAD => XadAt(m, k * XAD)))
  }

  predicate IsLeaf(p: XtPage) {
    p.flag / 2 % 2 == 1
  }

  /** The array entries from XTENTRYSTART up to nextindex (an index behind the array has none in the page). */
  function Used(p: XtPage): seq<Xad> {
    if 2 < p.nextIndex <= |p.xads| then p.xads[2..p.nextIndex] else []
  }

  function XtPageAt(dev: Device, offset: int): (p: XtPage)
    requires Whole(dev, offset)
    ensures |p.xads| == PAGE_XADS
  {
    ParseXtPage(dev.bytes[offset..offset + PAGE])
  }

  // ---------------------------------------------------------------- trees

  /** An extent tree of any height and width: a page and what its entries lead to when it is internal. */
  datatype XTree = XTree(page: XtPage, children: seq<XTree>)

  /** The children are what the entries of the array lead to. */
  predicate ChildrenRead(dev: Device, xads: seq<Xad>, ts: seq<XTree>)
    decreases ts, 1
  {
    |ts| == |xads| && forall i :: 0 <= i < |ts| ==> TreeRead(dev, xads[i], ts[i])
  }

  predicate TreeRead(dev: Device, x: Xad, t: XTree)
    decreases t, 0
  {
    && Whole(dev, Scaled(dev, x.addr)) && t.page == XtPageAt(dev, Scaled(dev, x.addr))
    && t.page.nextIndex <= |t.page.xads|
    && if IsLeaf(t.page) then t.children == [] else ChildrenRead(dev, Used(t.page), t.children)
  }

  /** The extents of the leaves in key order. */
  function XadsOf(t: XTree): seq<Xad>
    decreases t
  {
    if IsLeaf(t.page) then Used(t.page) else AllXads(t.children)
  }

  function AllXads(ts: seq<XTree>): seq<Xad>
    decreases ts
  {
    if ts == [] then [] else XadsOf(ts[0]) + AllXads(ts[1..])
  }

  // ---------------------------------------------------------------- the recursive collection

  class XadList {
    var xads: seq<Xad>

    constructor ()
      ensures xads == []
    {
      xads := [];
    }

    method Push(x: Xad)
      modifies this
      ensures xads == old(xads) + [x]
    {
      xads := xads + [x];
    }
  }

  method GetLeafXads(p: XtPage, v: XadList)
    requires p.nextIndex <= |p.xads|
    modifies v
    ensures v.xads == old(v.xads) + Used(p)
  {
    var i := 2;
    while i < p.nextIndex
      invariant 2 <= i && (i == 2 || i <= p.nextIndex)
      invariant v.xads == old(v.xads) + if i <= p.nextIndex then p.xads[2..i] else []
    {
      v.Push(p.xads[i]);
      i := i + 1;
    }
    assert i <= p.nextIndex ==> p.xads[2..i] == Used(p);
  }

  method GetInternalXads(dev: Device, p: XtPage, v: XadList, ghost ts: seq<XTree>)
    requires p.nextIndex <= |p.xads| && ChildrenRead(dev, Used(p), ts)
    modifies v
    ensures v.xads == old(v.xads) + AllXads(ts)
    decreases ts, 1
  {
    var i := 2;
    while i < p.nextIndex
      invariant 2 <= i <= |ts| + 2
      invariant v.xads == old(v.xads) + AllXads(ts[..i - 2])
    {
      assert p.xads[i] == Used(p)[i - 2];
      GetInternalXtpage(dev, p.xads[i], v, ts[i - 2]);
      JoinNext(old(v.xads), ts, i - 2);
      i := i + 1;
    }
    assert ts[..|ts|] == ts;
  }

  method GetInternalXtpage(dev: Device, x: Xad, v: XadList, ghost t: XTree)
    requires TreeRead(dev, x, t)
    modifies v
    ensures v.xads == old(v.xads) + XadsOf(t)
    decreases t, 0
  {
    var buffer := new Byte[PAGE](_ => 0);
    var thrown := ReadBytes(dev.bytes, Scaled(dev, x.addr), PAGE, buffer);
    assert buffer[..] == dev.bytes[Scaled(dev, x.addr)..Scaled(dev, x.addr) + PAGE];
    var xtree := ParseXtPage(buffer[..]);
    if xtree.nextIndex <= 2 {
      return;
    }
    if IsLeaf(xtree) {
      GetLeafXads(xtree, v);
    } else {
      GetInternalXads(dev, xtree, v, t.children);
    }
  }

  lemma {:induction false} AllXadsNext(ts: seq<XTree>, k: nat)
    requires k < |ts|
    ensures AllXads(ts[..k + 1]) == AllXads(ts[..k]) + XadsOf(ts[k])
  {
    if k == 0 {
      assert ts[..1] == [ts[0]] && ts[..0] == [];
    } else {
      AllXadsNext(ts[1..], k - 1);
      assert ts[..k + 1][1..] == ts[1..][..k] && ts[..k][1..] == ts[1..][..k - 1];
    }
  }

  lemma JoinNext(was: seq<Xad>, ts: seq<XTree>, k: nat)
    requires k < |ts|
    ensures (was + AllXads(ts[..k])) + XadsOf(ts[k]) == was + AllXads(ts[..k + 1])
  {
    AllXadsNext(ts, k);
  }

  /** The extents that save_file collects from the root in the inode. */
  predicate RootRead(dev: Device, root: XtPage, ts: seq<XTree>) {
    root.nextIndex <= |root.xads| && if IsLeaf(root) then ts == [] else ChildrenRead(dev, Used(root), ts)
  }

  function RootXads(root: XtPage, ts: seq<XTree>): seq<Xad>
  {
    if IsLeaf(root) then Used(root) else AllXads(ts)
  }

  method CollectXads(dev: Device, root: XtPage, v: XadList, ghost ts: seq<XTree>)
    requires RootRead(dev, root, ts)
    modifies v
    ensures v.xads == old(v.xads) + RootXads(root, ts)
  {
    if IsLeaf(root) {
      GetLeafXads(root, v);
    } else {
      GetInternalXads(dev, root, v, ts);
    }
  }

  /** The device determines the tree, so any collection over it yields the same extents. */
  lemma {:induction false} OneTree(dev: Device, x: Xad, t: XTree, t': XTree)
    requires TreeRead(dev, x, t) && TreeRead(dev, x, t')
    ensures t == t'
    decreases t
  {
    if !IsLeaf(t.page) {
      forall i | 0 <= i < |t.children| ensures t.children[i] == t'.children[i] {
        OneTree(dev, Used(t.page)[i], t.children[i], t'.children[i]);
      }
      assert t.children == t'.children;
    }
  }

  // ---------------------------------------------------------------- the list by its leaves

  /** The leaves in key order. */
  function Leaves(t: XTree): seq<XtPage>
    decreases t
  {
    if t.page.flag / 2 % 2 == 1 then [t.page] else AllLeaves(t.children)
  }

  function AllLeaves(ts: seq<XTree>): seq<XtPage>
    decreases ts
  {
    if ts == [] then [] else Leaves(ts[0]) + AllLeaves(ts[1..])
  }

  /** The leaf's entries from index 2 up to nextindex stand in the list from the given position on. */
  ghost predicate ListedAt(p: XtPage, at: nat, xads: seq<Xad>) {
    && p.nextIndex <= |p.xads| && at + p.nextIndex - 2 <= |xads|
    && forall e :: 2 <= e < p.nextIndex ==> xads[at + e - 2] == p.xads[e]
  }

  /** The list is made up of the leaves' entries: those of leaf j stand behind the nextindex - 2 of each before it. */
  ghost predicate ListsLeaves(leaves: seq<XtPage>, starts: seq<nat>, xads: seq<Xad>) {
    && |starts| == |leaves| + 1 && starts[0] == 0 && starts[|leaves|] == |xads|
    && forall j {:trigger leaves[j]} :: 0 <= j < |leaves| ==>
      && starts[j + 1] == starts[j] + (if leaves[j].nextIndex < 2 then 0 else leaves[j].nextIndex - 2)
      && ListedAt(leaves[j], starts[j], xads)
  }

  lemma LeafLists(p: XtPage) returns (starts: seq<nat>)
    requires p.nextIndex <= |p.xads|
    ensures ListsLeaves([p], starts, Used(p))
  {
    starts := [0, |Used(p)|];
  }

  /** The starts of two lists put together. */
  function StartsJoined(starts: seq<nat>, n: nat, starts': seq<nat>): (r: seq<nat>)
    requires starts != []
    ensures |r| == |starts| - 1 + |starts'|
    ensures forall j :: 0 <= j < |starts| - 1 ==> r[j] == starts[j]
    ensures forall j :: |starts| - 1 <= j < |r| ==> r[j] == n + starts'[j - (|starts| - 1)]
  {
    starts[..|starts| - 1] + seq(|starts'|, j requires 0 <= j < |starts'| => n + starts'[j])
  }

  lemma ListsJoin(leaves: seq<XtPage>, starts: seq<nat>, xads: seq<Xad>,
                  leaves': seq<XtPage>, starts': seq<nat>, xads': seq<Xad>)
    requires ListsLeaves(leaves, starts, xads) && ListsLeaves(leaves', starts', xads')
    ensures ListsLeaves(leaves + leaves', StartsJoined(starts, |xads|, starts'), xads + xads')
  {
    var both, all := leaves + leaves', StartsJoined(starts, |xads|, starts');
    forall j {:trigger both[j]} | 0 <= j < |both|
      ensures all[j + 1] == all[j] + if both[j].nextIndex < 2 then 0 else both[j].nextIndex - 2
      ensures ListedAt(both[j], all[j], xads + xads')
    {
      if j < |leaves| {
        assert both[j] == leaves[j];
        assert j + 1 == |leaves| ==> all[j + 1] == |xads| + starts'[0];
      } else {
        assert both[j] == leaves'[j - |leaves|];
        ListedBehind(both[j], starts'[j - |leaves|], xads, xads');
      }
    }
  }

  lemma ListedBehind(p: XtPage, at: nat, xads: seq<Xad>, xads': seq<Xad>)
    requires ListedAt(p, at, xads')
    ensures ListedAt(p, |xads| + at, xads + xads')
  {
    assert forall k :: 0 <= k < |xads'| ==> (xads + xads')[|xads| + k] == xads'[k];
  }

  lemma {:induction false} TreeLists(dev: Device, x: Xad, t: XTree) returns (starts: seq<nat>)
    requires TreeRead(dev, x, t)
    ensures ListsLeaves(Leaves(t), starts, XadsOf(t))
    decreases t, 0
  {
    if IsLeaf(t.page) {
      starts := LeafLists(t.page);
    } else {
      starts := TreesList(dev, Used(t.page), t.children);
    }
  }

  lemma {:induction false} TreesList(dev: Device, xads: seq<Xad>, ts: seq<XTree>) returns (starts: seq<nat>)
    requires ChildrenRead(dev, xads, ts)
    ensures ListsLeaves(AllLeaves(ts), starts, AllXads(ts))
    decreases ts, 1
  {
    if ts == [] {
      starts := [0];
    } else {
      var first := TreeLists(dev, xads[0], ts[0]);
      var rest := TreesList(dev, xads[1..], ts[1..]);
      ListsJoin(Leaves(ts[0]), first, XadsOf(ts[0]), AllLeaves(ts[1..]), rest, AllXads(ts[1..]));
      starts := StartsJoined(first, |XadsOf(ts[0])|, rest);
    }
  }

  /** What is collected from the root: its own entries if it is a leaf, otherwise those of the leaves in key order. */
  lemma RootLists(dev: Device, root: XtPage, ts: seq<XTree>) returns (starts: seq<nat>)
    requires RootRead(dev, root, ts)
    ensures root.flag / 2 % 2 == 1 ==> ListsLeaves([root], starts, RootXads(root, ts))
    ensures root.flag / 2 % 2 == 0 ==> ListsLeaves(AllLeaves(ts), starts, RootXads(root, ts))
  {
    if IsLeaf(root) {
      starts := LeafLists(root);
    } else {
      starts := TreesList(dev, Used(root), ts);
    }
  }

  /**
   * The children of an internal page are the pages at the block addresses of its entries from index 2 up to nextindex.
   */
  lemma ChildByFields(dev: Device, p: XtPage, ts: seq<XTree>, e: nat)
    requires p.nextIndex <= |p.xads| && ChildrenRead(dev, Used(p), ts)
    ensures |ts| == if p.nextIndex < 2 then 0 else p.nextIndex - 2
    ensures 2 <= e < p.nextIndex ==>
      var at := p.xads[e].addr * dev.blockSize;
      at + 4096 <= |dev.bytes| && ts[e - 2].page == ParseXtPage(dev.bytes[at..at + 4096])
  {
    if 2 <= e < p.nextIndex {
      assert Used(p)[e - 2] == p.xads[e] && TreeRead(dev, Used(p)[e - 2], ts[e - 2]);
      InBytes(dev, p.xads[e].addr);
    }
  }
}
