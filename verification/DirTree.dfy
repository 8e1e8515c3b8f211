/** What the extraction returns on a whole directory B+-tree, and on one with a damaged leaf. */
module DirTrees {
  import opened Bytes
  import opened BlockDevice
  import opened InodeFactory
  import opened Direntry
  import opened DirInodeNames
  import Utf8

  // ---------------------------------------------------------------- trees

  /** A B+-tree below the root, of any height and width. */
  datatype Tree = Leaf(page: Node) | Inner(page: Node, children: seq<Tree>)

  /** The leaves in key order. */
  function Leaves(t: Tree): seq<Node>
    decreases t
  {
    match t
    case Leaf(p) => [p]
    case Inner(_, ts) => LeavesOf(ts)
  }

  function LeavesOf(ts: seq<Tree>): seq<Node>
    decreases ts
  {
    if ts == [] then [] else Leaves(ts[0]) + LeavesOf(ts[1..])
  }

  /** Every entry of the internal node p leads to one of the trees, in the order of its table. */
  predicate ChildrenOnDisk(dev: Device, p: Node, ts: seq<Tree>)
    decreases ts, 1
  {
    && |ts| == p.nextIndex >= 1 && TableInside(p, |ts|)
    && forall i :: 0 <= i < |ts| ==> OnDisk(dev, p.pxds[p.table[i]], ts[i])
  }

  predicate OnDisk(dev: Device, pxd: Pxd, t: Tree)
    decreases t, 0
  {
    Leads(dev, pxd, t.page) && IsLeaf(t.page) == t.Leaf? && (t.Inner? ==> ChildrenOnDisk(dev, t.page, t.children))
  }

  /** The leaves form the sibling chain. */
  predicate Chained(dev: Device, ls: seq<Node>) {
    && ls != [] && (forall i :: 0 <= i < |ls| - 1 ==> Follows(dev, ls[i], ls[i + 1]))
    && Readable(ls[|ls| - 1]) && ls[|ls| - 1].next == 0
  }

  /** A well-formed directory whose root is not a leaf. */
  predicate WellFormed(dev: Device, root: Node, ts: seq<Tree>) {
    !IsLeaf(root) && ChildrenOnDisk(dev, root, ts) && Chained(dev, LeavesOf(ts))
  }

  /** The pages on the way down to the leftmost leaf. */
  function Leftmost(t: Tree): (r: seq<Node>)
    ensures r != []
  {
    if t.Leaf? || t.children == [] then [t.page] else [t.page] + Leftmost(t.children[0])
  }

  lemma FirstChildOnDisk(dev: Device, pxd: Pxd, t: Tree)
    requires OnDisk(dev, pxd, t) && t.Inner?
    ensures Leads(dev, pxd, t.page) && !IsLeaf(t.page) && TableInside(t.page, 1)
    ensures t.children != [] && OnDisk(dev, FirstChild(t.page), t.children[0])
  {
    assert OnDisk(dev, t.page.pxds[t.page.table[0]], t.children[0]);
  }

  lemma DescendsFurther(dev: Device, pxd: Pxd, p: Node, below: seq<Node>)
    requires Leads(dev, pxd, p) && !IsLeaf(p) && TableInside(p, 1) && Descent(dev, FirstChild(p), below, true)
    ensures Descent(dev, pxd, [p] + below, true) && below != []
  {
    assert ([p] + below)[1..] == below;
  }

  lemma {:induction false} LeftmostDescends(dev: Device, pxd: Pxd, t: Tree)
    requires OnDisk(dev, pxd, t)
    ensures var path := Leftmost(t);
      Descent(dev, pxd, path, true) && Leaves(t) != [] && path[|path| - 1] == Leaves(t)[0]
    decreases t
  {
    if t.Inner? {
      FirstChildOnDisk(dev, pxd, t);
      LeftmostDescends(dev, FirstChild(t.page), t.children[0]);
      DescendsFurther(dev, pxd, t.page, Leftmost(t.children[0]));
    }
  }

  lemma {:induction false} ChainedRun(dev: Device, ls: seq<Node>)
    requires Chained(dev, ls)
    ensures LeafRun(dev, ls, Finished)
  {
    if |ls| > 1 {
      ChainedRun(dev, ls[1..]);
    }
  }

  /** The run of the extraction over a well-formed tree: it exists, so the extraction terminates. */
  function TreeRun(ts: seq<Tree>): Run
    requires ts != []
  {
    Run(Leftmost(ts[0]), true, LeavesOf(ts), Finished)
  }

  lemma TreeRuns(dev: Device, root: Node, ts: seq<Tree>)
    requires WellFormed(dev, root, ts)
    ensures RootRun(dev, root, TreeRun(ts))
  {
    LeftmostDescends(dev, FirstChild(root), ts[0]);
    ChainedRun(dev, LeavesOf(ts));
  }

  // ---------------------------------------------------------------- runs are determined by the device

  lemma {:induction false} OneDescent(dev: Device, pxd: Pxd, path: seq<Node>, reached: bool,
                                      path': seq<Node>, reached': bool)
    requires Descent(dev, pxd, path, reached) && Descent(dev, pxd, path', reached')
    ensures path == path' && reached == reached'
    decreases |path|
  {
    if path != [] && !IsLeaf(path[0]) {
      OneDescent(dev, FirstChild(path[0]), path[1..], reached, path'[1..], reached');
      assert path == [path[0]] + path[1..] && path' == [path'[0]] + path'[1..];
    }
  }

  lemma {:induction false} OneLeafRun(dev: Device, pages: seq<Node>, end: End, pages': seq<Node>, end': End)
    requires LeafRun(dev, pages, end) && LeafRun(dev, pages', end') && pages[0] == pages'[0]
    ensures pages == pages' && end == end'
    decreases |pages|
  {
    if |pages| > 1 && |pages'| > 1 {
      OneLeafRun(dev, pages[1..], end, pages'[1..], end');
      assert pages == [pages[0]] + pages[1..] && pages' == [pages'[0]] + pages'[1..];
    }
  }

  lemma OneRun(dev: Device, root: Node, run: Run, run': Run)
    requires !IsLeaf(root) && RootRun(dev, root, run) && RootRun(dev, root, run')
    ensures run.reached == run'.reached
    ensures run.reached ==> run == run'
  {
    OneDescent(dev, FirstChild(root), run.path, run.reached, run'.path, run'.reached);
    if run.reached {
      OneWalk(dev, run.path, run, run');
    }
  }

  lemma OneWalk(dev: Device, path: seq<Node>, run: Run, run': Run)
    requires WalksFrom(dev, path, run) && WalksFrom(dev, path, run') && run.reached && run'.reached
    ensures run.pages == run'.pages && run.end == run'.end
  {
    OneLeafRun(dev, run.pages, run.end, run'.pages, run'.end);
  }

  /** Leftmost descent and sibling walk deliver the in-order sequence of the leaves' entries. */
  lemma TreeIsExtracted(dev: Device, d: Dinode, ts: seq<Tree>, run: Run, names: seq<InodeName>)
    requires |d.btroot| == BTROOT_SIZE && Format(d.mode) == IFDIR && WellFormed(dev, ParseRoot(d.btroot), ts)
    requires RootRun(dev, ParseRoot(d.btroot), run) && Extracted(d, run, names)
    ensures NamesOf(LeavesOf(ts), names)
  {
    var root := ParseRoot(d.btroot);
    TreeRuns(dev, root, ts);
    OneRun(dev, root, run, TreeRun(ts));
  }

  // ---------------------------------------------------------------- the names by their pages

  /** From the given position on stand the entries of the page's slots, one for each table byte below nextindex. */
  ghost predicate ListedAt(p: Node, at: nat, names: seq<InodeName>) {
    && p.nextIndex <= |p.table| && at + p.nextIndex <= |names|
    && forall i :: 0 <= i < p.nextIndex ==> p.table[i] < |p.slots| && IsEntry(p.slots, p.table[i], names[at + i])
  }

  /** The entries of each page stand behind the nextindex of all pages before it. */
  ghost predicate ListsPages(pages: seq<Node>, starts: seq<nat>, names: seq<InodeName>) {
    && |starts| == |pages| + 1 && starts[0] == 0 && starts[|pages|] == |names|
    && forall j {:trigger pages[j]} :: 0 <= j < |pages| ==>
      && starts[j + 1] == starts[j] + (if pages[j].nextIndex < 0 then 0 else pages[j].nextIndex)
      && ListedAt(pages[j], starts[j], names)
  }

  lemma ListedBehind(p: Node, at: nat, first: seq<InodeName>, names: seq<InodeName>, further: nat)
    requires ListedAt(p, at, names) && further == |first| + at
    ensures ListedAt(p, further, first + names)
  {
    forall i | 0 <= i < p.nextIndex
      ensures p.table[i] < |p.slots| && IsEntry(p.slots, p.table[i], (first + names)[further + i])
    {
      assert (first + names)[further + i] == names[at + i];
    }
  }

  lemma ListedFirst(p: Node, names: seq<InodeName>)
    requires EntriesOf(p, names)
    ensures |names| == (if p.nextIndex < 0 then 0 else p.nextIndex) && ListedAt(p, 0, names)
  {
    forall i | 0 <= i < p.nextIndex ensures p.table[i] < |p.slots| && IsEntry(p.slots, p.table[i], names[i]) {
      assert EntryIs(p, i, names[i]);
    }
  }

  lemma ListedBefore(p: Node, first: seq<InodeName>, names: seq<InodeName>)
    requires ListedAt(p, 0, first)
    ensures ListedAt(p, 0, first + names)
  {
  }

  lemma {:induction false} NamesListed(pages: seq<Node>, names: seq<InodeName>) returns (starts: seq<nat>)
    requires NamesOf(pages, names)
    ensures ListsPages(pages, starts, names)
  {
    if pages == [] {
      return [0];
    }
    var n := Count(pages[0]);
    var rest := NamesListed(pages[1..], names[n..]);
    ListedFirst(pages[0], names[..n]);
    ListsMore(pages, rest, names[..n], names[n..]);
    Rejoined(names, n);
    starts := StartsBehind(n, rest);
  }

  lemma Rejoined<T>(s: seq<T>, n: nat)
    requires n <= |s|
    ensures s[..n] + s[n..] == s
  {
  }

  /** The starts when n names more stand in front. */
  function StartsBehind(n: nat, rest: seq<nat>): (r: seq<nat>)
    ensures |r| == |rest| + 1 && r[0] == 0 && forall j :: 0 < j < |r| ==> r[j] == n + rest[j - 1]
  {
    [0] + seq(|rest|, j requires 0 <= j < |rest| => n + rest[j])
  }

  lemma ListsMore(pages: seq<Node>, rest: seq<nat>, first: seq<InodeName>, behind: seq<InodeName>)
    requires pages != [] && ListsPages(pages[1..], rest, behind) && ListedAt(pages[0], 0, first)
    requires |first| == if pages[0].nextIndex < 0 then 0 else pages[0].nextIndex
    ensures ListsPages(pages, StartsBehind(|first|, rest), first + behind)
  {
    var starts := StartsBehind(|first|, rest);
    forall j {:trigger pages[j]} | 0 <= j < |pages|
      ensures starts[j + 1] == starts[j] + (if pages[j].nextIndex < 0 then 0 else pages[j].nextIndex)
        && ListedAt(pages[j], starts[j], first + behind)
    {
      if j == 0 {
        ListedBefore(pages[0], first, behind);
        StartOfFirst(pages, rest, first, behind);
      } else {
        ListsOneMore(pages, rest, first, behind, j);
      }
    }
  }

  lemma StartOfFirst(pages: seq<Node>, rest: seq<nat>, first: seq<InodeName>, behind: seq<InodeName>)
    requires pages != [] && ListsPages(pages[1..], rest, behind)
    ensures StartsBehind(|first|, rest)[0] == 0 && StartsBehind(|first|, rest)[1] == |first|
  {
  }

  lemma ListsOneMore(pages: seq<Node>, rest: seq<nat>, first: seq<InodeName>, behind: seq<InodeName>, j: nat)
    requires 0 < j < |pages| && ListsPages(pages[1..], rest, behind)
    ensures var starts := StartsBehind(|first|, rest);
      && starts[j + 1] == starts[j] + (if pages[j].nextIndex < 0 then 0 else pages[j].nextIndex)
      && ListedAt(pages[j], starts[j], first + behind)
  {
    var starts := StartsBehind(|first|, rest);
    ListsTail(pages[1..], rest, behind, j - 1);
    ListedBehind(pages[j], rest[j - 1], first, behind, starts[j]);
  }

  lemma ListsTail(pages: seq<Node>, starts: seq<nat>, names: seq<InodeName>, j: nat)
    requires j < |pages| && ListsPages(pages, starts, names)
    ensures starts[j + 1] == starts[j] + (if pages[j].nextIndex < 0 then 0 else pages[j].nextIndex)
    ensures ListedAt(pages[j], starts[j], names)
  {
  }

  /** A directory with a leaf root has nextindex names: name i is the entry of the slot in table byte i. */
  lemma RootIsListed(d: Dinode, run: Run, names: seq<InodeName>)
    requires |d.btroot| == BTROOT_SIZE && run.pages != [] && Extracted(d, run, names)
    requires d.mode / 0x1000 % 0x10 == 4 && ParseRoot(d.btroot).flag / 2 % 2 == 1
    ensures var root := ParseRoot(d.btroot);
      && |names| == (if root.nextIndex < 0 then 0 else root.nextIndex)
      && forall i :: 0 <= i < root.nextIndex ==>
        i < |root.table| && root.table[i] < |root.slots| && IsEntry(root.slots, root.table[i], names[i])
  {
    ListedFirst(ParseRoot(d.btroot), names);
  }

  /** A whole tree has the sum of the leaves' nextindex, the entries of leaf j behind those of the leaves before it. */
  lemma TreeIsListed(dev: Device, d: Dinode, ts: seq<Tree>, run: Run, names: seq<InodeName>)
    returns (starts: seq<nat>)
    requires |d.btroot| == BTROOT_SIZE && d.mode / 0x1000 % 0x10 == 4 && WellFormed(dev, ParseRoot(d.btroot), ts)
    requires RootRun(dev, ParseRoot(d.btroot), run) && Extracted(d, run, names)
    ensures ListsPages(LeavesOf(ts), starts, names)
  {
    TreeIsExtracted(dev, d, ts, run, names);
    starts := NamesListed(LeavesOf(ts), names);
  }

  // ---------------------------------------------------------------- stored names

  /** A directory entry as the file system means it. */
  datatype Entry = Entry(name: seq<Unit>, number: nat)

  function Converted(e: Entry): InodeName {
    InodeName(Utf8.EncAll(e.name), e.number)
  }

  function ConvertedAll(es: seq<Entry>): (r: seq<InodeName>)
    ensures |r| == |es|
  {
    seq(|es|, i requires 0 <= i < |es| => Converted(es[i]))
  }

  ghost predicate SlotStores(m: seq<Slot>, head: nat, e: Entry) {
    head < |m| && m[head].number == e.number && exists chain :: Stores(m, head, chain, e.name)
  }

  /** The page's table lists exactly the entries es, each stored whole. */
  ghost predicate PageStores(p: Node, es: seq<Entry>) {
    && |es| == (if p.nextIndex < 0 then 0 else p.nextIndex) && TableInside(p, |es|)
    && forall i :: 0 <= i < |es| ==> SlotStores(p.slots, p.table[i], es[i])
  }

  ghost predicate PagesStore(pages: seq<Node>, es: seq<Entry>) {
    if pages == [] then es == []
    else
      var n := if pages[0].nextIndex < 0 then 0 else pages[0].nextIndex;
      n <= |es| && PageStores(pages[0], es[..n]) && PagesStore(pages[1..], es[n..])
  }

  lemma SlotIsRead(m: seq<Slot>, head: nat, e: Entry, r: InodeName)
    requires SlotStores(m, head, e) && IsEntry(m, head, r)
    ensures r == Converted(e)
  {
    var chain :| Stores(m, head, chain, e.name);
    StoredNameIsRead(m, head, chain, e.name, r);
  }

  lemma PageIsRead(p: Node, es: seq<Entry>, names: seq<InodeName>)
    requires PageStores(p, es) && EntriesOf(p, names)
    ensures names == ConvertedAll(es)
  {
    forall i | 0 <= i < |es| ensures names[i] == Converted(es[i]) {
      SlotIsRead(p.slots, p.table[i], es[i], names[i]);
    }
  }

  lemma ConvertedSplit(es: seq<Entry>, n: nat)
    requires n <= |es|
    ensures ConvertedAll(es) == ConvertedAll(es[..n]) + ConvertedAll(es[n..])
  {
  }

  lemma {:induction false} PagesAreRead(pages: seq<Node>, es: seq<Entry>, names: seq<InodeName>)
    requires PagesStore(pages, es) && NamesOf(pages, names)
    ensures names == ConvertedAll(es)
  {
    if pages != [] {
      var n := if pages[0].nextIndex < 0 then 0 else pages[0].nextIndex;
      PageIsRead(pages[0], es[..n], names[..n]);
      PagesAreRead(pages[1..], es[n..], names[n..]);
      assert names == names[..n] + names[n..];
      ConvertedSplit(es, n);
    }
  }

  /** A whole directory is extracted exactly: every name, in order, with its inode number. */
  lemma DirectoryIsRead(dev: Device, d: Dinode, ts: seq<Tree>, es: seq<Entry>, run: Run, names: seq<InodeName>)
    requires |d.btroot| == BTROOT_SIZE && Format(d.mode) == IFDIR && WellFormed(dev, ParseRoot(d.btroot), ts)
    requires PagesStore(LeavesOf(ts), es)
    requires RootRun(dev, ParseRoot(d.btroot), run) && Extracted(d, run, names)
    ensures names == ConvertedAll(es)
  {
    TreeIsExtracted(dev, d, ts, run, names);
    PagesAreRead(LeavesOf(ts), es, names);
  }

  // ---------------------------------------------------------------- a damaged leaf

  function Entries(pages: seq<Node>): nat {
    if pages == [] then 0
    else (if pages[0].nextIndex < 0 then 0 else pages[0].nextIndex) + Entries(pages[1..])
  }

  /** On dev only the first k of the leaves ls can be read: the next one is past the end, or its index is -1. */
  predicate CutAt(dev: Device, ls: seq<Node>, k: nat) {
    && 0 < k < |ls|
    && (forall i :: 0 <= i < k - 1 ==> Follows(dev, ls[i], ls[i + 1]))
    && Readable(ls[k - 1]) && ls[k - 1].next != 0
    && var offset := ByteOffset(dev, ls[k - 1].next);
       ReadThrows(dev.bytes, offset, PAGE) || PageOver(dev, offset, ls[k - 1].raw).nextIndex == -1
  }

  lemma CutTail(dev: Device, ls: seq<Node>, k: nat)
    requires CutAt(dev, ls, k) && k > 1
    ensures CutAt(dev, ls[1..], k - 1) && Follows(dev, ls[0], ls[1])
  {
    var tail := ls[1..];
    assert Follows(dev, ls[0], ls[0 + 1]);
    forall i | 0 <= i < k - 2 ensures Follows(dev, tail[i], tail[i + 1]) {
      assert Follows(dev, ls[i + 1], ls[i + 1 + 1]);
    }
  }

  lemma {:induction false} CutRun(dev: Device, ls: seq<Node>, k: nat, pages: seq<Node>, end: End)
    requires CutAt(dev, ls, k) && LeafRun(dev, pages, end) && pages[0] == ls[0]
    ensures end != Finished && Delivered(pages, end) == ls[..k]
    decreases k
  {
    if k > 1 {
      CutTail(dev, ls, k);
      CutRun(dev, ls[1..], k - 1, pages[1..], end);
      assert ls[..k] == [ls[0]] + ls[1..][..k - 1];
      assert Delivered(pages, end) == [pages[0]] + Delivered(pages[1..], end);
    } else if |pages| > 1 {
      assert pages[1].nextIndex == -1;
      assert |pages| == 2;
    }
  }

  lemma {:induction false} FirstPages(pages: seq<Node>, es: seq<Entry>, k: nat)
    requires PagesStore(pages, es) && k <= |pages|
    ensures Entries(pages[..k]) <= |es| && PagesStore(pages[..k], es[..Entries(pages[..k])])
  {
    if k > 0 {
      var n := if pages[0].nextIndex < 0 then 0 else pages[0].nextIndex;
      FirstPages(pages[1..], es[n..], k - 1);
      assert pages[..k][1..] == pages[1..][..k - 1];
      var m := Entries(pages[..k]);
      assert es[..m][..n] == es[..n] && es[..m][n..] == es[n..][..m - n];
    }
  }

  /** The walk over a cut chain is finite: it ends behind the first k leaves, or at the page of index -1. */
  lemma {:induction false} CutRuns(dev: Device, ls: seq<Node>, k: nat) returns (pages: seq<Node>, end: End)
    requires CutAt(dev, ls, k)
    ensures LeafRun(dev, pages, end) && pages[0] == ls[0]
    decreases k
  {
    if k > 1 {
      CutTail(dev, ls, k);
      var rest;
      rest, end := CutRuns(dev, ls[1..], k - 1);
      pages := [ls[0]] + rest;
      assert pages[1..] == rest;
    } else {
      var offset := ByteOffset(dev, ls[0].next);
      if ReadThrows(dev.bytes, offset, PAGE) {
        pages, end := [ls[0]], Unreadable;
      } else {
        var bad := PageOver(dev, offset, ls[0].raw);
        assert LeafRun(dev, [bad], BadIndex);
        pages, end := [ls[0], bad], BadIndex;
        assert pages[1..] == [bad];
      }
    }
  }

  /** The descent from the root reads path and reaches its last page, a leaf. */
  predicate Reaches(dev: Device, root: Node, path: seq<Node>) {
    !IsLeaf(root) && TableInside(root, 1) && path != [] && Descent(dev, FirstChild(root), path, true)
  }

  /** So the extraction from a directory with a damaged leaf terminates. */
  lemma DamagedDirectoryRuns(dev: Device, root: Node, path: seq<Node>, ls: seq<Node>, k: nat) returns (run: Run)
    requires Reaches(dev, root, path) && CutAt(dev, ls, k) && path[|path| - 1] == ls[0]
    ensures RootRun(dev, root, run)
  {
    var pages, end := CutRuns(dev, ls, k);
    run := Run(path, true, pages, end);
  }

  /** With a damaged leaf, exactly the entries of the leaves before it are returned: never part of a page. */
  lemma DamagedDirectoryIsCut(dev: Device, d: Dinode, path: seq<Node>, ls: seq<Node>, es: seq<Entry>, k: nat,
                              run: Run, names: seq<InodeName>)
    requires |d.btroot| == BTROOT_SIZE && Format(d.mode) == IFDIR && Reaches(dev, ParseRoot(d.btroot), path)
    requires PagesStore(ls, es) && CutAt(dev, ls, k) && path[|path| - 1] == ls[0]
    requires RootRun(dev, ParseRoot(d.btroot), run) && Extracted(d, run, names)
    ensures Entries(ls[..k]) <= |es| && names == ConvertedAll(es[..Entries(ls[..k])])
    ensures names <= ConvertedAll(es)
  {
    OneDescent(dev, FirstChild(ParseRoot(d.btroot)), path, true, run.path, run.reached);
    CutRun(dev, ls, k, run.pages, run.end);
    FirstPages(ls, es, k);
    PagesAreRead(ls[..k], es[..Entries(ls[..k])], names);
  }

  /** If the first leaf is the damaged one, its index being -1, nothing is returned. */
  lemma DamagedFirstLeaf(dev: Device, d: Dinode, path: seq<Node>, run: Run, names: seq<InodeName>)
    requires |d.btroot| == BTROOT_SIZE && Format(d.mode) == IFDIR && Reaches(dev, ParseRoot(d.btroot), path)
    requires path[|path| - 1].nextIndex == -1
    requires RootRun(dev, ParseRoot(d.btroot), run) && Extracted(d, run, names)
    ensures names == []
  {
    OneDescent(dev, FirstChild(ParseRoot(d.btroot)), path, true, run.path, run.reached);
  }
}
