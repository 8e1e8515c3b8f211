/** The list of found inodes, the list of invalidated ones, and a lazily rebuilt index by inode number. */
module InodeVectorObject {
  import opened Bytes
  import opened InodeFactory
  import opened InodeObject
  import opened Selection
  import opened Stages
  import opened ProgressFiles
  import opened SavedLists

  /** The inodes that the objects stand for. */
  ghost function Views(xs: seq<Inode>): seq<Ino> {
    seq(|xs|, i requires 0 <= i < |xs| => xs[i].ino)
  }

  ghost function Marks(xs: seq<Inode>): seq<bool>
    reads xs
  {
    seq(|xs|, i requires 0 <= i < |xs| reads xs => xs[i].marked)
  }

  ghost predicate Distinct(xs: seq<Inode>) {
    forall i, j :: 0 <= i < j < |xs| ==> xs[i] != xs[j]
  }

  ghost predicate AllValid(dev: seq<Byte>, xs: seq<Inode>)
    reads xs
  {
    forall x :: x in xs ==> x.Valid() && x.dev == dev
  }

  /** The lines are the positions of the objects, in order. */
  ghost predicate ListsOffsets(xs: seq<Inode>, lines: seq<nat>) {
    |lines| == |xs| && forall k :: 0 <= k < |xs| ==> lines[k] == xs[k].byteOffset
  }

  /** File f lists the kept objects and invalidated.txt the rejected ones, if there are any; no other file changes. */
  ghost predicate SavesOffsets(files: map<File, seq<nat>>, f: File, kept: seq<Inode>, dropped: seq<Inode>,
                               files': map<File, seq<nat>>) {
    && (f != Invalidated ==> f in files' && ListsOffsets(kept, files'[f]))
    && (dropped != [] ==> Invalidated in files' && ListsOffsets(dropped, files'[Invalidated]))
    && forall g :: g != f && (g != Invalidated || dropped == []) ==>
      (g in files' <==> g in files) && (g in files ==> files'[g] == files[g])
  }

  lemma SavedByFields(dev: seq<Byte>, files: map<File, seq<nat>>, f: File, kept: seq<Inode>, dropped: seq<Inode>)
    requires AllValid(dev, kept) && AllValid(dev, dropped)
    ensures SavesOffsets(files, f, kept, dropped, Saved(files, f, Views(kept), Views(dropped)))
  {
    OffsetsOfValid(dev, kept);
    OffsetsOfValid(dev, dropped);
  }

  lemma OffsetsOfValid(dev: seq<Byte>, xs: seq<Inode>)
    requires AllValid(dev, xs)
    ensures ListsOffsets(xs, Offsets(Views(xs)))
  {
    forall k | 0 <= k < |xs| ensures Offsets(Views(xs))[k] == xs[k].byteOffset {
      assert xs[k].Valid();
    }
  }

  /** index maps every number to the object at the position the specification chooses. */
  ghost predicate IndexMatches(index: map<nat, Inode>, xs: seq<Inode>) {
    var spec := IndexOf(Views(xs));
    index.Keys == spec.Keys && forall d :: d in index ==> index[d] == xs[spec[d]]
  }

  /** One step of generate_di_number_index keeps the index in step with a longer vector. */
  lemma IndexExtends(index: map<nat, Inode>, xs: seq<Inode>, x: Inode)
    requires IndexMatches(index, xs)
    ensures var d := x.ino.din.number;
      IndexMatches(
        if d !in index || Before(index[d].ino.din.otime, x.ino.din.otime) then index[d := x] else index,
        xs + [x])
  {
    assert Views(xs + [x]) == Views(xs) + [x.ino];
    assert (Views(xs) + [x.ino])[..|xs|] == Views(xs);
  }

  /** The best inode of its number is the one created last, and of those created last the one listed first. */
  lemma BestByFields(xs: seq<Inode>, i: nat)
    requires i < |xs| && IsBest(Views(xs), i)
    ensures forall j :: 0 <= j < |xs| && xs[j].ino.din.number == xs[i].ino.din.number ==>
      || xs[j].ino.din.otime.sec < xs[i].ino.din.otime.sec
      || (xs[j].ino.din.otime.sec == xs[i].ino.din.otime.sec && xs[j].ino.din.otime.nsec < xs[i].ino.din.otime.nsec)
      || (xs[j].ino.din.otime == xs[i].ino.din.otime && i <= j)
  {
    forall j | 0 <= j < |xs| && xs[j].ino.din.number == xs[i].ino.din.number
      ensures
        || xs[j].ino.din.otime.sec < xs[i].ino.din.otime.sec
        || (xs[j].ino.din.otime.sec == xs[i].ino.din.otime.sec && xs[j].ino.din.otime.nsec < xs[i].ino.din.otime.nsec)
        || (xs[j].ino.din.otime == xs[i].ino.din.otime && i <= j)
    {
      assert Views(xs)[j] == xs[j].ino && Views(xs)[i] == xs[i].ino;
    }
  }

  /** No object of the same number was created later, nor at the same time and listed earlier. */
  ghost predicate CreatedLast(xs: seq<Inode>, x: Inode) {
    exists i ::
      && 0 <= i < |xs| && xs[i] == x
      && forall j :: 0 <= j < |xs| && xs[j].ino.din.number == x.ino.din.number ==>
        || xs[j].ino.din.otime.sec < x.ino.din.otime.sec
        || (xs[j].ino.din.otime.sec == x.ino.din.otime.sec && xs[j].ino.din.otime.nsec < x.ino.din.otime.nsec)
        || (xs[j].ino.din.otime == x.ino.din.otime && i <= j)
  }

  /** An index in step leads every number that an object has, and no other, to the object created last. */
  lemma IndexLeads(index: map<nat, Inode>, xs: seq<Inode>)
    requires IndexMatches(index, xs)
    ensures forall x :: x in xs ==> x.ino.din.number in index
    ensures forall d :: d in index ==> index[d].ino.din.number == d && CreatedLast(xs, index[d])
  {
    var views := Views(xs);
    forall x | x in xs ensures x.ino.din.number in index {
      var i :| 0 <= i < |xs| && xs[i] == x;
      IndexKeys(views, x.ino.din.number);
      assert views[i].din.number == x.ino.din.number;
    }
    forall d | d in index ensures index[d].ino.din.number == d && CreatedLast(xs, index[d]) {
      IndexIsBest(views, d);
      BestByFields(xs, IndexOf(views)[d]);
    }
  }

  lemma BestAreCreatedLast(xs: seq<Inode>, x: Inode)
    ensures x in Pick(xs, BestMask(Views(xs))) <==> CreatedLast(xs, x)
  {
    PickMembers(xs, BestMask(Views(xs)), x);
    if x in Pick(xs, BestMask(Views(xs))) {
      var i :| 0 <= i < |xs| && BestMask(Views(xs))[i] && xs[i] == x;
      BestByFields(xs, i);
    }
    if i :|
      && 0 <= i < |xs| && xs[i] == x
      && forall j :: 0 <= j < |xs| && xs[j].ino.din.number == x.ino.din.number ==>
        || xs[j].ino.din.otime.sec < x.ino.din.otime.sec
        || (xs[j].ino.din.otime.sec == x.ino.din.otime.sec && xs[j].ino.din.otime.nsec < x.ino.din.otime.nsec)
        || (xs[j].ino.din.otime == x.ino.din.otime && i <= j)
    {
      assert IsBest(Views(xs), i);
      assert BestMask(Views(xs))[i];
    }
  }

  lemma ViewsOfPick(xs: seq<Inode>, mask: seq<bool>)
    requires |xs| == |mask|
    ensures Views(Pick(xs, mask)) == Pick(Views(xs), mask)
  {
    if xs != [] {
      var n := |xs| - 1;
      ViewsOfPick(xs[..n], mask[..n]);
      assert Views(xs[..n]) == Views(xs)[..n];
    }
  }

  lemma PickDistinct(xs: seq<Inode>, mask: seq<bool>)
    requires |xs| == |mask| && Distinct(xs)
    ensures Distinct(Pick(xs, mask))
    ensures forall x :: x in Pick(xs, mask) ==> x in xs
  {
    PickKeepsOrder(xs, mask);
  }

  class InodeVector {
    const dev: seq<Byte>
    var inodes: seq<Inode>
    var invalidated: seq<Inode>
    var index: map<nat, Inode>
    var indexOk: bool

    ghost predicate Valid()
      reads this, inodes, invalidated
    {
      && AllValid(dev, inodes) && AllValid(dev, invalidated) && Distinct(inodes)
      && (indexOk ==> IndexMatches(index, inodes))
    }

    /** The source leaves the flag uninitialised; over the empty map either value is correct. */
    constructor (dev: seq<Byte>, flag: bool)
      ensures Valid() && this.dev == dev && inodes == invalidated == [] && index == map[]
    {
      this.dev := dev;
      inodes, invalidated, index, indexOk := [], [], map[], flag;
    }

    /** add_inode; the callers add an object at most once. */
    method AddInode(x: Inode)
      requires Valid() && x.Valid() && x.dev == dev && x !in inodes
      modifies this`inodes, this`index, this`indexOk
      ensures Valid() && inodes == old(inodes) + [x]
      ensures indexOk == (old(indexOk) && !HasNumber(Views(old(inodes)), x.diNumber))
    {
      IndexKeys(Views(inodes), x.diNumber);
      if indexOk {
        IndexExtends(index, inodes, x);
      }
      if !indexOk {
        inodes := inodes + [x];
      } else {
        if x.diNumber !in index {
          index := index[x.diNumber := x];
          inodes := inodes + [x];
          indexOk := true;
        } else {
          inodes := inodes + [x];
          indexOk := false;
        }
      }
    }

    method GenerateIndex()
      requires Valid()
      modifies this`index, this`indexOk, inodes`dinode, inodes`dinodeAvailable
      ensures Valid() && indexOk
    {
      index := map[];
      assert Views(inodes[..0]) == [];
      for i := 0 to |inodes|
        invariant unchanged(this`inodes) && unchanged(this`invalidated)
        invariant AllValid(dev, inodes) && AllValid(dev, invalidated)
        invariant IndexMatches(index, inodes[..i])
      {
        assert inodes[..i + 1] == inodes[..i] + [inodes[i]];
        IndexOne(inodes[i], inodes[..i]);
      }
      assert inodes[..|inodes|] == inodes;
      indexOk := true;
    }

    /** The loop body: the first inode of a number enters the index, a later one only if it is strictly newer. */
    method IndexOne(x: Inode, ghost done: seq<Inode>)
      requires AllValid(dev, inodes) && AllValid(dev, invalidated) && x in inodes
      requires IndexMatches(index, done) && forall y :: y in done ==> y in inodes
      modifies this`index, inodes`dinode, inodes`dinodeAvailable
      ensures AllValid(dev, inodes) && AllValid(dev, invalidated)
      ensures IndexMatches(index, done + [x])
    {
      IndexExtends(index, done, x);
      assert x.Valid();
      if x.diNumber !in index {
        index := index[x.diNumber := x];
      } else {
        var y := index[x.diNumber];
        assert y == done[IndexOf(Views(done))[x.diNumber]] && y in done;
        var held := y.GetDinode();
        var mine := x.GetDinode();
        if Before(held.otime, mine.otime) {
          index := index[x.diNumber := x];
        }
      }
    }

    /** The newest inode of that number, the earliest in the vector on ties; null when there is none. */
    method GetByDiNumber(d: nat) returns (r: Inode?)
      requires Valid()
      modifies this`index, this`indexOk, inodes`dinode, inodes`dinodeAvailable
      ensures Valid() && indexOk
      ensures r == null <==> !HasNumber(Views(inodes), d)
      ensures r != null ==>
        r.diNumber == d && exists i :: 0 <= i < |inodes| && r == inodes[i] && IsBest(Views(inodes), i)
      ensures r != null ==>
        exists i ::
          && 0 <= i < |inodes| && inodes[i] == r
          && forall j :: 0 <= j < |inodes| && inodes[j].ino.din.number == d ==>
            || inodes[j].ino.din.otime.sec < r.ino.din.otime.sec
            || (inodes[j].ino.din.otime.sec == r.ino.din.otime.sec
                && inodes[j].ino.din.otime.nsec < r.ino.din.otime.nsec)
            || (inodes[j].ino.din.otime == r.ino.din.otime && i <= j)
    {
      if !indexOk {
        GenerateIndex();
      }
      IndexIsBest(Views(inodes), d);
      if d in index {
        ghost var i := IndexOf(Views(inodes))[d];
        assert index[d] == inodes[i] && inodes[i].Valid() && IsBest(Views(inodes), i);
        BestByFields(inodes, i);
        return index[d];
      }
      return null;
    }

    /** The rejected inodes of that number, in order. */
    method GetInvalidatedByDiNumber(d: nat) returns (v: seq<Inode>)
      requires Valid()
      ensures Views(v) == WithNumber(Views(invalidated), d)
      ensures forall x :: x in Views(v) <==> x in Views(invalidated) && x.din.number == d
      ensures forall i :: 0 <= i < |v| ==> v[i] in invalidated && v[i].diNumber == d
    {
      v := [];
      ghost var views := Views(invalidated);
      for i := 0 to |invalidated|
        invariant forall k :: 0 <= k < |v| ==> v[k] in invalidated && v[k].diNumber == d
        invariant Views(v) == WithNumber(views[..i], d)
      {
        var x := invalidated[i];
        assert x.Valid() && views[i] == x.ino;
        WithNumberNext(views, d, i);
        assert Views(v + [x]) == Views(v) + [x.ino];
        if x.diNumber == d {
          v := v + [x];
        }
      }
      assert views[..|views|] == views;
      forall x ensures x in Views(v) <==> x in views && x.din.number == d {
        WithNumberMembers(views, d, x);
      }
    }

    /** Access to one inode of the vector by its position. */
    method DinodeOf(i: nat) returns (d: Dinode)
      requires Valid() && i < |inodes|
      modifies inodes[i]
      ensures Valid() && Marks(inodes) == old(Marks(inodes))
      ensures d == Views(inodes)[i].din
    {
      d := inodes[i].GetDinode();
    }

    method FreeDinodeOf(i: nat)
      requires Valid() && i < |inodes|
      modifies inodes[i]
      ensures Valid() && Marks(inodes) == old(Marks(inodes))
    {
      inodes[i].FreeDinode();
    }

    method SetMark(i: nat, mark: bool)
      requires Valid() && i < |inodes|
      modifies inodes[i]
      ensures Valid() && Marks(inodes) == old(Marks(inodes))[i := mark]
    {
      if mark {
        inodes[i].Mark();
      } else {
        inodes[i].Unmark();
      }
    }

    function OffsetOf(i: nat): (o: nat)
      requires Valid() && i < |inodes|
      reads this, inodes, invalidated
      ensures o == Views(inodes)[i].offset
    {
      assert inodes[i].Valid();
      inodes[i].byteOffset
    }

    method UnmarkAll()
      requires Valid()
      modifies inodes
      ensures Valid() && forall x :: x in inodes ==> !x.marked
    {
      for i := 0 to |inodes|
        invariant AllValid(dev, inodes) && AllValid(dev, invalidated)
        invariant forall k :: 0 <= k < i ==> !inodes[k].marked
      {
        inodes[i].Unmark();
      }
    }

    method FreeDinodes()
      requires Valid()
      modifies inodes
      ensures Valid()
      ensures forall x :: x in inodes ==> x.marked == old(x.marked) && !x.dinodeAvailable
    {
      for i := 0 to |inodes|
        invariant AllValid(dev, inodes) && AllValid(dev, invalidated)
        invariant forall x :: x in inodes ==> x.marked == old(x.marked)
        invariant forall k :: 0 <= k < i ==> !inodes[k].dinodeAvailable
      {
        inodes[i].FreeDinode();
      }
    }

    /** Moves the inodes whose mark equals which to the invalidated list; the others stay, in order. */
    method RemoveByMark(which: bool, ghost goes: seq<bool>)
      requires Valid()
      requires |goes| == |inodes| && forall k :: 0 <= k < |inodes| ==> goes[k] == (inodes[k].marked == which)
      modifies this`inodes, this`invalidated, this`indexOk
      ensures Valid() && !indexOk
      ensures inodes == Pick(old(inodes), Complement(goes)) && invalidated == old(invalidated) + Pick(old(inodes), goes)
    {
      ghost var was := inodes;
      var slots := NullOut(which, goes);
      inodes := EraseNulls(slots, was, Complement(goes));
      indexOk := false;
      PickDistinct(was, Complement(goes));
      PickDistinct(was, goes);
    }

    /** The first loop: push the chosen inodes on the invalidated list and leave NULL in their slots. */
    method NullOut(which: bool, ghost goes: seq<bool>) returns (slots: seq<Inode?>)
      requires |goes| == |inodes| && forall k :: 0 <= k < |inodes| ==> goes[k] == (inodes[k].marked == which)
      modifies this`invalidated
      ensures invalidated == old(invalidated) + Pick(inodes, goes)
      ensures |slots| == |inodes|
      ensures forall k :: 0 <= k < |slots| ==> slots[k] == if Complement(goes)[k] then inodes[k] else null
    {
      slots := inodes;
      for i := 0 to |inodes|
        invariant |slots| == |inodes|
        invariant forall k :: 0 <= k < |slots| ==> slots[k] == if k < i && goes[k] then null else inodes[k]
        invariant invalidated == old(invalidated) + Pick(inodes[..i], goes[..i])
      {
        PickNext(inodes, goes, i);
        if inodes[i].marked == which {
          invalidated := invalidated + [inodes[i]];
          slots := slots[i := null];
        }
      }
      PickWhole(inodes, goes);
    }

    method RemoveMarked()
      requires Valid()
      modifies this`inodes, this`invalidated, this`indexOk
      ensures Valid() && !indexOk
      ensures inodes == Pick(old(inodes), Complement(Marks(old(inodes))))
      ensures invalidated == old(invalidated) + Pick(old(inodes), Marks(old(inodes)))
    {
      RemoveByMark(true, Marks(inodes));
    }

    method RemoveUnmarked()
      requires Valid()
      modifies this`inodes, this`invalidated, this`indexOk
      ensures Valid() && !indexOk
      ensures inodes == Pick(old(inodes), Marks(old(inodes)))
      ensures invalidated == old(invalidated) + Pick(old(inodes), Complement(Marks(old(inodes))))
    {
      ghost var marks := Marks(inodes);
      RemoveByMark(false, Complement(marks));
      assert Complement(Complement(marks)) == marks;
    }

    method RemoveDupes()
      requires Valid()
      modifies this, inodes
      ensures Valid() && !indexOk
      ensures inodes == Pick(old(inodes), BestMask(Views(old(inodes))))
      ensures invalidated == old(invalidated) + Pick(old(inodes), Complement(BestMask(Views(old(inodes)))))
      ensures Views(inodes) == Dedupe(Views(old(inodes)))
      ensures forall x :: x in inodes <==> CreatedLast(old(inodes), x)
    {
      UnmarkAll();
      GenerateIndex();
      MarkIndexed();
      ghost var was := inodes;
      ViewsOfPick(was, BestMask(Views(was)));
      RemoveUnmarked();
      forall x ensures x in inodes <==> CreatedLast(was, x) {
        BestAreCreatedLast(was, x);
      }
    }

    method MarkIndexed()
      requires Valid() && indexOk && forall x :: x in inodes ==> !x.marked
      modifies inodes
      ensures Valid() && Marks(inodes) == BestMask(Views(inodes))
    {
      var left := index.Keys;
      while left != {}
        invariant left <= index.Keys
        invariant AllValid(dev, inodes) && AllValid(dev, invalidated)
        invariant forall i :: 0 <= i < |inodes| ==> inodes[i].marked == IndexedOutside(index, left, inodes[i])
        decreases left
      {
        var d :| d in left;
        assert index[d] in inodes;
        index[d].Mark();
        left := left - {d};
      }
      forall i | 0 <= i < |inodes| ensures inodes[i].marked <==> IsBest(Views(inodes), i) {
        IndexedIffBest(index, inodes, i);
      }
    }

    /** Writes the kept positions to file f and, if there are any, the invalidated ones beside it. */
    method SavePositions(dir: ProgressDir, f: File)
      requires Valid()
      modifies dir
      ensures dir.files == Saved(old(dir.files), f, Views(inodes), Views(invalidated))
      ensures SavesOffsets(old(dir.files), f, inodes, invalidated, dir.files)
    {
      var positions: seq<nat> := [];
      for i := 0 to |inodes|
        invariant positions == Offsets(Views(inodes[..i]))
      {
        assert inodes[i].Valid();
        positions := positions + [inodes[i].byteOffset];
      }
      assert inodes[..|inodes|] == inodes;
      dir.files := dir.files[f := positions];
      if |invalidated| > 0 {
        positions := [];
        for i := 0 to |invalidated|
          invariant positions == Offsets(Views(invalidated[..i]))
          invariant dir.files == old(dir.files)[f := Offsets(Views(inodes))]
        {
          assert invalidated[i].Valid();
          positions := positions + [invalidated[i].byteOffset];
        }
        assert invalidated[..|invalidated|] == invalidated;
        dir.files := dir.files[Invalidated := positions];
      }
      SavedByFields(dev, old(dir.files), f, inodes, invalidated);
    }

    /** Reloads a saved list, and the invalidated list when there is one. */
    method LoadFromPositions(dir: ProgressDir, f: File)
      requires Valid()
      requires f in dir.files && dir.files[f] != [] && Loadable(dev, dir.files[f])
      requires Invalidated in dir.files ==> dir.files[Invalidated] != [] && Loadable(dev, dir.files[Invalidated])
      modifies this
      ensures Valid() && !indexOk
      ensures Views(inodes) == Views(old(inodes)) + InosAt(dev, Reread(dir.files[f]))
      ensures Views(invalidated) == Views(old(invalidated)) +
        if Invalidated in dir.files then InosAt(dev, Reread(dir.files[Invalidated])) else []
      ensures old(inodes) <= inodes && forall k :: |old(inodes)| <= k < |inodes| ==> fresh(inodes[k])
    {
      PushLoaded(dir.files[f]);
      if Invalidated in dir.files {
        PushInvalidated(dir.files[Invalidated]);
      }
    }

    /** The end-of-file loop over the saved list: the last position is processed twice. */
    method PushLoaded(lines: seq<nat>)
      requires Valid() && lines != [] && Loadable(dev, lines)
      modifies this`inodes, this`indexOk
      ensures Valid() && !indexOk
      ensures Views(inodes) == Views(old(inodes)) + InosAt(dev, Reread(lines))
      ensures old(inodes) <= inodes && forall k :: |old(inodes)| <= k < |inodes| ==> fresh(inodes[k])
    {
      ghost var all := Reread(lines);
      ghost var was, found := Views(inodes), InosAt(dev, all);
      var f := new PositionStream(lines);
      var bo: nat := *;
      ghost var n := 0;
      indexOk := false;
      while !f.eof
        invariant fresh(f) && f.At(all, n) && (n > 0 ==> bo == all[n - 1])
        invariant Valid() && !indexOk
        invariant Views(inodes) == was + found[..n]
        invariant old(inodes) <= inodes && forall k :: |old(inodes)| <= k < |inodes| ==> fresh(inodes[k])
        decreases |all| - n
        modifies f, this`inodes
      {
        bo := PushNext(f, bo, all, n);
        n := n + 1;
      }
    }

    /** One round: extract a position, read the inode there, append it. */
    method PushNext(f: PositionStream, bo: nat, ghost all: seq<nat>, ghost n: nat) returns (r: nat)
      requires Valid() && !indexOk && Loadable(dev, all)
      requires f.At(all, n) && !f.eof && (n > 0 ==> bo == all[n - 1])
      modifies f, this`inodes
      ensures Valid() && f.At(all, n + 1) && r == all[n]
      ensures Views(inodes) == Views(old(inodes)) + [InosAt(dev, all)[n]]
      ensures old(inodes) <= inodes && forall k :: |old(inodes)| <= k < |inodes| ==> fresh(inodes[k])
    {
      r := f.Extract(bo, all, n);
      var x := LoadInode(dev, r);
      assert Views(inodes + [x]) == Views(inodes) + [x.ino];
      inodes := inodes + [x];
    }

    /** The second loop, over invalidated.txt. */
    method PushInvalidated(lines: seq<nat>)
      requires Valid() && lines != [] && Loadable(dev, lines)
      modifies this`invalidated
      ensures Valid()
      ensures Views(invalidated) == Views(old(invalidated)) + InosAt(dev, Reread(lines))
    {
      ghost var all := Reread(lines);
      ghost var was, found := Views(invalidated), InosAt(dev, all);
      var f := new PositionStream(lines);
      var bo: nat := *;
      ghost var n := 0;
      while !f.eof
        invariant fresh(f) && f.At(all, n) && (n > 0 ==> bo == all[n - 1])
        invariant Valid()
        invariant Views(invalidated) == was + found[..n]
        decreases |all| - n
        modifies f, this`invalidated
      {
        bo := PushNextInvalidated(f, bo, all, n);
        n := n + 1;
      }
    }

    method PushNextInvalidated(f: PositionStream, bo: nat, ghost all: seq<nat>, ghost n: nat) returns (r: nat)
      requires Valid() && Loadable(dev, all)
      requires f.At(all, n) && !f.eof && (n > 0 ==> bo == all[n - 1])
      modifies f, this`invalidated
      ensures Valid() && f.At(all, n + 1) && r == all[n]
      ensures Views(invalidated) == Views(old(invalidated)) + [InosAt(dev, all)[n]]
    {
      r := f.Extract(bo, all, n);
      var x := LoadInode(dev, r);
      assert Views(invalidated + [x]) == Views(invalidated) + [x.ino];
      invalidated := invalidated + [x];
    }
  }

  /** read_from_disk where it does not yield NULL. */
  method LoadInode(dev: seq<Byte>, bo: nat) returns (x: Inode)
    requires LoadableAt(dev, bo)
    ensures fresh(x) && x.Valid() && x.dev == dev && !x.marked
    ensures x.ino == InoAt(dev, bo)
  {
    x := new Inode(dev, ReadFromDisk(dev, bo).value);
  }

  ghost predicate IndexedOutside(index: map<nat, Inode>, left: set<nat>, x: Inode) {
    exists d :: d in index && d !in left && index[d] == x
  }

  /** The index refers to an object exactly when it is the best one of its number. */
  lemma IndexedIffBest(index: map<nat, Inode>, xs: seq<Inode>, i: nat)
    requires IndexMatches(index, xs) && Distinct(xs) && i < |xs|
    ensures IndexedOutside(index, {}, xs[i]) <==> IsBest(Views(xs), i)
  {
    var views := Views(xs);
    var d := views[i].din.number;
    IndexIsBest(views, d);
    if IsBest(views, i) {
      assert HasNumber(views, d);
      BestIsUnique(views, i, IndexOf(views)[d]);
      assert d in index && index[d] == xs[i];
    }
    if e :| e in index && index[e] == xs[i] {
      IndexIsBest(views, e);
      assert IndexOf(views)[e] == i;
    }
  }

  /** Squeezes the empty slots out: a slot holds was[k] where keep[k], and nothing elsewhere. */
  method EraseNulls(slots: seq<Inode?>, ghost was: seq<Inode>, ghost keep: seq<bool>) returns (rest: seq<Inode>)
    requires |slots| == |was| == |keep|
    requires forall k :: 0 <= k < |slots| ==> slots[k] == if keep[k] then was[k] else null
    ensures rest == Pick(was, keep)
  {
    rest := [];
    for i := 0 to |slots|
      invariant rest == Pick(was[..i], keep[..i])
    {
      PickNext(was, keep, i);
      if slots[i] != null {
        rest := rest + [slots[i]];
      }
    }
    PickWhole(was, keep);
  }
}
