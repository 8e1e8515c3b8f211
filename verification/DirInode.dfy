/** Extraction of a directory's entries: down to the leftmost leaf of its B+-tree, then along the sibling chain. */
module DirInodeNames {
  import opened Bytes
  import opened BlockDevice
  import opened InodeFactory
  import opened Direntry

  const PAGE_SLOTS := 128

  /** An extent descriptor. */
  datatype Pxd = Pxd(len: nat, addr: nat)

  /**
   * A directory node, the root in the inode or a page: its header fields, the sorted entry table, and the slots,
   * each read as a leaf slot and as the extent descriptor of an internal entry.  A page keeps its bytes as well: a
   * short read of the next page leaves some of them in place.
   */
  datatype Node = Node(raw: seq<Byte>, next: int, flag: nat, nextIndex: int, table: seq<nat>, slots: seq<Slot>,
                       pxds: seq<Pxd>)

  function PxdAt(m: seq<Byte>, at: nat): Pxd
    requires at + 8 <= |m|
  {
    Pxd(Le24(m, at), U8(m, at + 3) * 0x1_0000_0000 + Le32(m, at + 4))
  }

  function PxdsOf(m: seq<Byte>): (r: seq<Pxd>)
    ensures |r| == |m| / SLOT
  {
    seq(|m| / SLOT, k requires 0 <= k < |m| / SLOT => PxdAt(m, k * SLOT))
  }

  function Numbers(m: seq<Byte>): seq<nat> {
    seq(|m|, i requires 0 <= i < |m| => U8(m, i))
  }

  /** dtpage_t: the table starts in slot stblindex (a negative index has no table in the page). */
  function ParsePage(m: seq<Byte>): (p: Node)
    requires |m| == PAGE
    ensures |p.slots| == |p.pxds| == PAGE_SLOTS && p.raw == m
  {
    var stbl := I8(m, 21) * SLOT;
    var table := if 0 <= stbl <= PAGE then Numbers(m[stbl..]) else [];
    Node(m, I64(m, 0), U8(m, 16), I8(m, 17), table, SlotsOf(m), PxdsOf(m))
  }

  /** dtroot_t: eight table bytes, nine slots, no sibling. */
  function ParseRoot(m: seq<Byte>): Node
    requires |m| == BTROOT_SIZE
  {
    Node([], 0, U8(m, 16), I8(m, 17), Numbers(m[24..32]), SlotsOf(m), PxdsOf(m))
  }

  predicate IsLeaf(p: Node) {
    p.flag / 2 % 2 == 1
  }

  /** How many entries of the table are in use: none when nextindex is negative. */
  function Count(p: Node): nat {
    if p.nextIndex < 0 then 0 else p.nextIndex
  }

  /** The first n table entries are in the node and name slots of it. */
  predicate TableInside(p: Node, n: nat) {
    n <= |p.table| && forall i :: 0 <= i < n ==> p.table[i] < |p.slots| && p.table[i] < |p.pxds|
  }

  /** The leftmost child of an internal node. */
  function FirstChild(p: Node): Pxd
    requires TableInside(p, 1)
  {
    p.pxds[p.table[0]]
  }

  // ---------------------------------------------------------------- reading pages

  /** block << log2blocksize in 64-bit two's complement. */
  function ByteOffset(dev: Device, block: int): int {
    Signed(Scaled(dev, block) % 0x1_0000_0000_0000_0000, 0x1_0000_0000_0000_0000)
  }

  function PageAt(dev: Device, offset: int): (p: Node)
    requires Whole(dev, offset)
    ensures |p.slots| == |p.pxds| == PAGE_SLOTS
  {
    ParsePage(dev.bytes[offset..offset + PAGE])
  }

  /** The page after a read into a buffer that held raw: a short read leaves the end of raw in place. */
  function PageOver(dev: Device, offset: int, raw: seq<Byte>): (p: Node)
    requires |raw| == PAGE && 0 <= offset <= |dev.bytes|
    ensures |p.slots| == |p.pxds| == PAGE_SLOTS && |p.raw| == PAGE
  {
    var n := Min(PAGE, |dev.bytes| - offset);
    ParsePage(dev.bytes[offset..offset + n] + raw[n..])
  }

  /** Of a page read in full the buffer's old bytes do not matter. */
  lemma WholeOver(dev: Device, offset: int, raw: seq<Byte>)
    requires |raw| == PAGE && Whole(dev, offset)
    ensures PageOver(dev, offset, raw) == PageAt(dev, offset)
  {
    assert dev.bytes[offset..offset + PAGE] + raw[PAGE..] == dev.bytes[offset..offset + PAGE];
  }

  lemma ReadOver(dev: Device, offset: nat, raw: seq<Byte>, b: seq<Byte>)
    requires |raw| == |b| == PAGE && offset <= |dev.bytes|
    requires forall k :: 0 <= k < PAGE ==> b[k] == if offset + k < |dev.bytes| then dev.bytes[offset + k] else raw[k]
    ensures ParsePage(b) == PageOver(dev, offset, raw)
  {
    var n := Min(PAGE, |dev.bytes| - offset);
    assert b == dev.bytes[offset..offset + n] + raw[n..];
  }

  /** The page buffer that the walk reuses. */
  class DtPage {
    var page: Node

    /** Uninitialised: whatever was in that memory. */
    constructor (junk: seq<Byte>)
      requires |junk| == PAGE
      ensures |page.raw| == PAGE
    {
      page := ParsePage(junk);
    }

    /** device.read_bytes into the buffer, which stays as it was when the read throws. */
    method Read(dev: Device, offset: int) returns (thrown: bool)
      requires |page.raw| == PAGE
      modifies this
      ensures thrown == ReadThrows(dev.bytes, offset, PAGE) && |page.raw| == PAGE
      ensures page == if thrown then old(page) else PageOver(dev, offset, old(page.raw))
    {
      var raw := page.raw;
      var buffer := new Byte[PAGE](i requires 0 <= i < PAGE => raw[i]);
      thrown := ReadBytes(dev.bytes, offset, PAGE, buffer);
      if !thrown {
        ReadOver(dev, offset, raw, buffer[..]);
        page := ParsePage(buffer[..]);
      }
    }
  }

  // ---------------------------------------------------------------- the entries of nodes

  /** names are the entries in the slots that the node's table lists. */
  ghost predicate EntriesOf(p: Node, names: seq<InodeName>) {
    |names| == Count(p) && FirstEntriesOf(p, names)
  }

  ghost predicate FirstEntriesOf(p: Node, names: seq<InodeName>) {
    TableInside(p, |names|) && forall i :: 0 <= i < |names| ==> EntryIs(p, i, names[i])
  }

  /** e is the entry that the i-th byte of the table points to. */
  ghost predicate EntryIs(p: Node, i: nat, e: InodeName) {
    i < |p.table| && p.table[i] < |p.slots| && IsEntry(p.slots, p.table[i], e)
  }

  lemma EntryAdded(p: Node, names: seq<InodeName>, e: InodeName)
    requires FirstEntriesOf(p, names) && TableInside(p, |names| + 1) && EntryIs(p, |names|, e)
    ensures FirstEntriesOf(p, names + [e])
  {
    var all := names + [e];
    forall i | 0 <= i < |all| ensures EntryIs(p, i, all[i]) {
      assert i < |names| ==> all[i] == names[i];
    }
  }

  /** names are the entries of the pages, page after page. */
  ghost predicate NamesOf(pages: seq<Node>, names: seq<InodeName>) {
    if pages == [] then names == []
    else
      var n := Count(pages[0]);
      n <= |names| && EntriesOf(pages[0], names[..n]) && NamesOf(pages[1..], names[n..])
  }

  class NameList {
    var names: seq<InodeName>

    constructor ()
      ensures names == []
    {
      names := [];
    }

    method Push(e: InodeName)
      modifies this
      ensures names == old(names) + [e]
    {
      names := names + [e];
    }
  }

  /** The loop over the table: every entry is read and appended. */
  method PushEntries(vin: NameList, p: Node) returns (ghost added: seq<InodeName>)
    requires TableInside(p, Count(p)) && forall i :: 0 <= i < Count(p) ==> Inside(p.slots, p.table[i])
    modifies vin
    ensures vin.names == old(vin.names) + added && EntriesOf(p, added)
  {
    added := [];
    for i := 0 to Count(p)
      invariant |added| == i && vin.names == old(vin.names) + added && FirstEntriesOf(p, added)
    {
      var e := GetDirentry(p.slots, p.table[i]);
      vin.Push(e);
      EntryAdded(p, added, e);
      added := added + [e];
    }
  }

  // ---------------------------------------------------------------- the sibling chain

  /** How the walk along the leaves ends. */
  datatype End = Finished | Unreadable | BadIndex

  /** The page's entries can be read. */
  predicate Readable(p: Node) {
    p.nextIndex != -1 && TableInside(p, Count(p)) && |p.slots| == PAGE_SLOTS && |p.raw| == PAGE
  }

  /** q is the page behind p, read over it. */
  predicate Follows(dev: Device, p: Node, q: Node) {
    && Readable(p) && p.next != 0 && !ReadThrows(dev.bytes, ByteOffset(dev, p.next), PAGE)
    && q == PageOver(dev, ByteOffset(dev, p.next), p.raw)
  }

  /** The walk stops behind p, and why. */
  predicate Ends(dev: Device, p: Node, end: End) {
    match end
    case Finished => Readable(p) && p.next == 0
    case Unreadable => Readable(p) && p.next != 0 && ReadThrows(dev.bytes, ByteOffset(dev, p.next), PAGE)
    case BadIndex => p.nextIndex == -1
  }

  /** The pages that next_leaf gets to see, in order. */
  predicate LeafRun(dev: Device, pages: seq<Node>, end: End) {
    && pages != []
    && if |pages| == 1 then Ends(dev, pages[0], end)
       else Follows(dev, pages[0], pages[1]) && LeafRun(dev, pages[1..], end)
  }

  /** The pages whose entries are delivered: all but one with a bad index. */
  function Delivered(pages: seq<Node>, end: End): seq<Node>
    requires pages != []
  {
    if end == BadIndex then pages[..|pages| - 1] else pages
  }

  /**
   * Recursive walk along the chain, overwriting the page buffer.  The pushes made before an exception stay in vin,
   * and a page is delivered completely or not at all.
   */
  method NextLeaf(dev: Device, vin: NameList, dtree: DtPage, ghost pages: seq<Node>, ghost end: End)
    returns (threw: bool, ghost added: seq<InodeName>)
    requires LeafRun(dev, pages, end) && dtree.page == pages[0]
    modifies vin, dtree
    ensures threw <==> end != Finished
    ensures vin.names == old(vin.names) + added && NamesOf(Delivered(pages, end), added)
    decreases |pages|
  {
    StepOf(dev, pages, end);
    if dtree.page.nextIndex == -1 {
      assert vin.names == vin.names + [];
      return true, [];
    }
    ghost var first := PushPage(vin, dtree.page);
    if dtree.page.next == 0 {
      LastPage(dev, pages, end, first);
      return false, first;
    }
    var thrown := NextPage(dev, dtree, pages, end);
    if thrown {
      LastPage(dev, pages, end, first);
      return true, first;
    }
    ghost var rest;
    threw, rest := NextLeaf(dev, vin, dtree, pages[1..], end);
    MorePages(dev, pages, end, first, rest);
    Regroup(old(vin.names), first, rest);
    return threw, first + rest;
  }

  lemma Regroup<T>(a: seq<T>, b: seq<T>, c: seq<T>)
    ensures (a + b) + c == a + (b + c)
  {
  }

  lemma StepOf(dev: Device, pages: seq<Node>, end: End)
    requires LeafRun(dev, pages, end)
    ensures pages[0].nextIndex == -1 ==> |pages| == 1 && end == BadIndex && NamesOf(Delivered(pages, end), [])
    ensures pages[0].nextIndex != -1 ==> Readable(pages[0]) && (|pages| == 1 ==> end != BadIndex)
    ensures pages[0].nextIndex != -1 && pages[0].next == 0 ==> |pages| == 1 && end == Finished
  {
  }

  method PushPage(vin: NameList, p: Node) returns (ghost added: seq<InodeName>)
    requires Readable(p)
    modifies vin
    ensures vin.names == old(vin.names) + added && EntriesOf(p, added)
  {
    forall i | 0 <= i < Count(p) ensures Inside(p.slots, p.table[i]) {
      PageIsInside(p.slots, p.table[i]);
    }
    added := PushEntries(vin, p);
  }

  /** Overwrites the page with its successor, if that can be read. */
  method NextPage(dev: Device, dtree: DtPage, ghost pages: seq<Node>, ghost end: End) returns (thrown: bool)
    requires LeafRun(dev, pages, end) && dtree.page == pages[0] && dtree.page.nextIndex != -1 && dtree.page.next != 0
    modifies dtree
    ensures if thrown then |pages| == 1 && end == Unreadable
            else |pages| > 1 && LeafRun(dev, pages[1..], end) && dtree.page == pages[1]
  {
    thrown := dtree.Read(dev, ByteOffset(dev, dtree.page.next));
  }

  lemma LastPage(dev: Device, pages: seq<Node>, end: End, first: seq<InodeName>)
    requires LeafRun(dev, pages, end) && |pages| == 1 && end != BadIndex && EntriesOf(pages[0], first)
    ensures NamesOf(Delivered(pages, end), first)
  {
    assert first[..|first|] == first && first[|first|..] == [];
    assert NamesOf(pages[1..], []);
  }

  lemma MorePages(dev: Device, pages: seq<Node>, end: End, first: seq<InodeName>, rest: seq<InodeName>)
    requires LeafRun(dev, pages, end) && |pages| > 1 && EntriesOf(pages[0], first)
    requires NamesOf(Delivered(pages[1..], end), rest)
    ensures NamesOf(Delivered(pages, end), first + rest)
  {
    var all := first + rest;
    assert all[..|first|] == first && all[|first|..] == rest;
    assert Delivered(pages, end)[1..] == Delivered(pages[1..], end);
  }

  // ---------------------------------------------------------------- the descent

  /** The sanity test of descend. */
  predicate SanePxd(dev: Device, pxd: Pxd)
  {
    pxd.addr != 0 && pxd.addr <= SizeBlocks(dev) && pxd.len <= SizeBlocks(dev)
  }

  /** p is the page that pxd leads to. */
  predicate Leads(dev: Device, pxd: Pxd, p: Node)
  {
    SanePxd(dev, pxd) && Whole(dev, ByteOffset(dev, pxd.addr)) && p == PageAt(dev, ByteOffset(dev, pxd.addr))
  }

  /** The pages that descend reads below a node: down to a leaf, or to an insane extent descriptor. */
  predicate Descent(dev: Device, pxd: Pxd, path: seq<Node>, reached: bool)
    decreases |path|
  {
    if path == [] then !reached && !SanePxd(dev, pxd)
    else
      && Leads(dev, pxd, path[0])
      && if IsLeaf(path[0]) then |path| == 1 && reached
         else TableInside(path[0], 1) && Descent(dev, FirstChild(path[0]), path[1..], reached)
  }

  /** Everything one extraction reads: a descent and, if it reaches a leaf, the walk from there. */
  datatype Run = Run(path: seq<Node>, reached: bool, pages: seq<Node>, end: End)

  predicate RunFrom(dev: Device, pxd: Pxd, run: Run)
  {
    Descent(dev, pxd, run.path, run.reached) && WalksFrom(dev, run.path, run)
  }

  /** If the descent along path reaches a leaf, the walk starts there. */
  predicate WalksFrom(dev: Device, path: seq<Node>, run: Run) {
    && run.pages != []
    && (run.reached ==> path != [] && run.pages[0] == path[|path| - 1] && LeafRun(dev, run.pages, run.end))
  }

  method Descend(dev: Device, vin: NameList, pxd: Pxd, ghost path: seq<Node>, ghost run: Run)
    returns (threw: bool, ghost added: seq<InodeName>)
    requires Descent(dev, pxd, path, run.reached) && WalksFrom(dev, path, run)
    modifies vin
    ensures threw <==> !run.reached || run.end != Finished
    ensures vin.names == old(vin.names) + added && Result(run, added)
    decreases |path|
  {
    if pxd.addr == 0 || pxd.addr > SizeBlocks(dev) || pxd.len > SizeBlocks(dev) {
      assert vin.names == vin.names + [];
      return true, [];
    }
    var dtree := ReadNode(dev, pxd, path, run.reached);
    if !IsLeaf(dtree.page) {
      ghost var below := path[1..];
      DescentBelow(dev, pxd, path, run.reached);
      WalksFromBelow(dev, path, run, below);
      threw, added := Descend(dev, vin, FirstChild(dtree.page), below, run);
      return;
    }
    threw, added := NextLeaf(dev, vin, dtree, run.pages, run.end);
  }

  /** The address is sane, so it is not past the end and the read does not throw. */
  method ReadNode(dev: Device, pxd: Pxd, ghost path: seq<Node>, ghost reached: bool) returns (dtree: DtPage)
    requires Descent(dev, pxd, path, reached) && SanePxd(dev, pxd)
    ensures fresh(dtree) && path != [] && dtree.page == path[0]
    ensures IsLeaf(path[0]) ==> |path| == 1 && reached
  {
    dtree := new DtPage(seq(PAGE, _ => 0));
    ghost var junk := dtree.page.raw;
    var thrown := dtree.Read(dev, ByteOffset(dev, pxd.addr));
    WholeOver(dev, ByteOffset(dev, pxd.addr), junk);
  }

  lemma WalksFromBelow(dev: Device, path: seq<Node>, run: Run, below: seq<Node>)
    requires WalksFrom(dev, path, run) && path != [] && below == path[1..] && (run.reached ==> below != [])
    ensures WalksFrom(dev, below, run)
  {
    assert run.reached ==> below[|below| - 1] == path[|path| - 1];
  }

  lemma DescentBelow(dev: Device, pxd: Pxd, path: seq<Node>, reached: bool)
    requires Descent(dev, pxd, path, reached) && path != [] && !IsLeaf(path[0])
    ensures TableInside(path[0], 1) && Descent(dev, FirstChild(path[0]), path[1..], reached)
    ensures reached ==> path[1..] != []
  {
  }

  /** What a run delivers. */
  ghost predicate Result(run: Run, names: seq<InodeName>)
    requires run.pages != []
  {
    if run.reached then NamesOf(Delivered(run.pages, run.end), names) else names == []
  }

  // ---------------------------------------------------------------- extract_inode_names

  /** Root and run stay inside the memory that the code may read. */
  ghost predicate RootRun(dev: Device, r: Node, run: Run)
  {
    && run.pages != []
    && if IsLeaf(r) then TableInside(r, Count(r)) && forall i :: 0 <= i < Count(r) ==> Inside(r.slots, r.table[i])
       else TableInside(r, 1) && RunFrom(dev, FirstChild(r), run)
  }

  /** What the extraction must return. */
  ghost predicate Extracted(d: Dinode, run: Run, names: seq<InodeName>)
    requires |d.btroot| == BTROOT_SIZE && run.pages != []
  {
    if Format(d.mode) != IFDIR then names == []
    else if IsLeaf(ParseRoot(d.btroot)) then EntriesOf(ParseRoot(d.btroot), names)
    else Result(run, names)
  }

  method ExtractInodeNames(dev: Device, byteOffset: nat, ghost run: Run) returns (names: seq<InodeName>)
    requires byteOffset + INODE_SIZE <= |dev.bytes| && run.pages != []
    requires var d := DinodeAt(dev.bytes, byteOffset);
      Format(d.mode) == IFDIR ==> RootRun(dev, ParseRoot(d.btroot), run)
    ensures Extracted(DinodeAt(dev.bytes, byteOffset), run, names)
  {
    var inode := DinodeAt(dev.bytes, byteOffset);
    if Format(inode.mode) != IFDIR {
      return [];
    }
    names := RootNames(dev, ParseRoot(inode.btroot), run);
  }

  method RootNames(dev: Device, root: Node, ghost run: Run) returns (names: seq<InodeName>)
    requires RootRun(dev, root, run)
    ensures if IsLeaf(root) then EntriesOf(root, names) else Result(run, names)
  {
    var vin := new NameList();
    ghost var added;
    if IsLeaf(root) {
      if root.nextIndex == 0 {
        return vin.names;
      }
      added := PushEntries(vin, root);
      assert vin.names == added;
      return vin.names;
    }
    var threw;
    threw, added := Descend(dev, vin, FirstChild(root), run.path, run);
    assert vin.names == added;
    return vin.names;
  }
}
