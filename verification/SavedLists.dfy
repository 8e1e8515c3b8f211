/** Lists of inodes as saved positions, and back. */
module SavedLists {
  import opened Bytes
  import opened Wrappers
  import opened InodeFactory
  import opened ProgressFiles

  function Offsets(xs: seq<Ino>): seq<nat> {
    seq(|xs|, i requires 0 <= i < |xs| => xs[i].offset)
  }

  /** The sector at bo can be read and is classified. */
  predicate LoadableAt(dev: seq<Byte>, bo: nat) {
    bo + INODE_SIZE <= |dev| && ReadFromDisk(dev, bo).Some?
  }

  function InoAt(dev: seq<Byte>, bo: nat): Ino
    requires LoadableAt(dev, bo)
  {
    ReadFromDisk(dev, bo).value
  }

  /** What a reload demands of a saved list. */
  predicate Loadable(dev: seq<Byte>, lines: seq<nat>) {
    forall bo :: bo in lines ==> LoadableAt(dev, bo)
  }

  function InosAt(dev: seq<Byte>, lines: seq<nat>): (r: seq<Ino>)
    requires Loadable(dev, lines)
    ensures |r| == |lines|
  {
    seq(|lines|, i requires 0 <= i < |lines| => InoAt(dev, lines[i]))
  }

  function Saved(files: map<File, seq<nat>>, f: File, kept: seq<Ino>, dropped: seq<Ino>): map<File, seq<nat>> {
    var files' := files[f := Offsets(kept)];
    if |dropped| > 0 then files'[Invalidated := Offsets(dropped)] else files'
  }

  /** The inodes a list of positions stands for are those inodes: saving and reloading loses nothing. */
  ghost predicate Genuine(dev: seq<Byte>, xs: seq<Ino>) {
    forall x :: x in xs ==> IsGenuine(dev, x)
  }

  ghost predicate IsGenuine(dev: seq<Byte>, x: Ino) {
    x.offset + INODE_SIZE <= |dev| && ReadFromDisk(dev, x.offset) == Some(x)
  }

  lemma SaveThenLoad(dev: seq<Byte>, xs: seq<Ino>)
    requires Genuine(dev, xs)
    ensures Loadable(dev, Offsets(xs)) && InosAt(dev, Offsets(xs)) == xs
  {
    forall i | 0 <= i < |xs| ensures LoadableAt(dev, xs[i].offset) && InoAt(dev, xs[i].offset) == xs[i] {
      assert IsGenuine(dev, xs[i]);
    }
  }

  lemma LoadedIsGenuine(dev: seq<Byte>, lines: seq<nat>)
    requires Loadable(dev, lines)
    ensures Genuine(dev, InosAt(dev, lines)) && Offsets(InosAt(dev, lines)) == lines
  {
    forall i | 0 <= i < |lines|
      ensures IsGenuine(dev, InosAt(dev, lines)[i]) && InosAt(dev, lines)[i].offset == lines[i]
    {
      assert LoadableAt(dev, lines[i]);
    }
  }

  lemma InosAtConcat(dev: seq<Byte>, xs: seq<nat>, ys: seq<nat>)
    requires Loadable(dev, xs) && Loadable(dev, ys)
    ensures Loadable(dev, xs + ys) && InosAt(dev, xs + ys) == InosAt(dev, xs) + InosAt(dev, ys)
  {
    assert forall bo :: bo in xs + ys ==> bo in xs || bo in ys;
  }

  /** Between the two states a scan has recorded exactly these positions, in its file and in the list of inodes. */
  ghost predicate Recorded(dev: seq<Byte>, files: map<File, seq<nat>>, xs: seq<Ino>,
                           files': map<File, seq<nat>>, xs': seq<Ino>, found: seq<nat>)
    requires InoScan in files && Loadable(dev, found)
  {
    && InoScan in files' && files'[InoScan] == files[InoScan] + found
    && files' - {InoScan} == files - {InoScan}
    && xs' == xs + InosAt(dev, found)
  }

  lemma RecordedConcat(dev: seq<Byte>, f0: map<File, seq<nat>>, x0: seq<Ino>, f1: map<File, seq<nat>>, x1: seq<Ino>,
                       f2: map<File, seq<nat>>, x2: seq<Ino>, found: seq<nat>, more: seq<nat>)
    requires InoScan in f0 && InoScan in f1 && Loadable(dev, found) && Loadable(dev, more)
    requires Recorded(dev, f0, x0, f1, x1, found) && Recorded(dev, f1, x1, f2, x2, more)
    ensures Loadable(dev, found + more) && Recorded(dev, f0, x0, f2, x2, found + more)
  {
    InosAtConcat(dev, found, more);
    assert f2[InoScan] == f0[InoScan] + (found + more);
  }
}
