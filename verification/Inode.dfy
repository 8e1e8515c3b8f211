/** The Inode object: immutable identity, a mark, a parent link and a discardable copy of the on-disk inode. */
module InodeObject {
  import opened Bytes
  import opened Wrappers
  import opened InodeFactory
  import opened ParentGraph

  class Inode {
    const dev: seq<Byte>
    const byteOffset: nat
    const kind: Kind
    const diNumber: nat
    const parentDiNumber: nat
    var marked: bool
    var parent: Inode?
    var dinode: Option<Dinode>
    var dinodeAvailable: bool
    /** What the object stands for: its position and what the device holds there. */
    ghost const ino: Ino

    /** The cached fields and the cached dinode agree with the device. */
    ghost predicate Valid()
      reads this
    {
      && byteOffset == ino.offset && kind == ino.kind && diNumber == ino.din.number
      && byteOffset + INODE_SIZE <= |dev|
      && ino.din == DinodeAt(dev, byteOffset) && parentDiNumber == ParentNumber(ino.din)
      && (dinodeAvailable ==> dinode == Some(ino.din))
    }

    constructor (dev: seq<Byte>, found: Ino)
      requires found.offset + INODE_SIZE <= |dev| && found.din == DinodeAt(dev, found.offset)
      ensures Valid() && ino == found && this.dev == dev
      ensures !marked && parent == null && !dinodeAvailable
    {
      this.dev := dev;
      byteOffset := found.offset;
      kind := found.kind;
      diNumber := found.din.number;
      parentDiNumber := ParentNumber(found.din);
      marked, parent, dinode, dinodeAvailable := false, null, None, false;
      ino := found;
    }

    method Mark()
      modifies this`marked
      ensures marked
    {
      marked := true;
    }

    method Unmark()
      modifies this`marked
      ensures !marked
    {
      marked := false;
    }

    /** Whatever is cached, the caller gets the dinode at this inode's own offset. */
    method GetDinode() returns (d: Dinode)
      requires Valid()
      modifies this`dinode, this`dinodeAvailable
      ensures Valid() && dinodeAvailable
      ensures d == ino.din == DinodeAt(dev, byteOffset)
    {
      if !dinodeAvailable {
        ReadDinode();
      }
      d := dinode.value;
    }

    method FreeDinode()
      requires Valid()
      modifies this`dinode, this`dinodeAvailable
      ensures Valid() && !dinodeAvailable
    {
      if dinodeAvailable {
        dinodeAvailable := false;
        dinode := None;
      }
    }

    method ReadDinode()
      requires Valid()
      modifies this`dinode, this`dinodeAvailable
      ensures Valid() && dinodeAvailable
    {
      var buffer := new Byte[INODE_SIZE];
      var thrown := ReadBytes(dev, byteOffset, INODE_SIZE, buffer);
      assert buffer[0..INODE_SIZE] == dev[byteOffset..byteOffset + INODE_SIZE];
      DinodeInSlice(dev, buffer[..], 0, byteOffset);
      dinode := Some(DinodeAt(buffer[..], 0));
      dinodeAvailable := true;
    }

    /**
     * Climbs parent links until one is missing or leads back to a node already passed.  The finite object graph
     * is the termination argument; its links may form cycles.
     */
    method GetRoot(ghost graph: set<Inode>) returns (r: Inode, ghost climb: seq<Inode>)
      requires this in graph && ClosedUnderParents(graph)
      ensures IsClimb(Parents(graph), this, climb) && r == Last(climb)
      ensures r.parent == null || r.parent in climb
    {
      var p: seq<Inode> := [this];
      r := this;
      while r.parent != null && r.parent !in p
        invariant p != [] && p[0] == this && r == p[|p| - 1]
        invariant forall i :: 0 <= i < |p| ==> p[i] in graph
        invariant forall i :: 0 <= i < |p| - 1 ==> p[i].parent == p[i + 1]
        invariant forall i, j :: 0 <= i < j < |p| ==> p[i] != p[j]
        decreases graph - (set x | x in p)
      {
        ghost var before := p;
        r := r.parent;
        p := p + [r];
        assert forall x :: x in before ==> x in p;
        assert r in graph - (set x | x in before);
      }
      climb := p;
    }
  }

  ghost predicate ClosedUnderParents(graph: set<Inode>)
    reads graph
  {
    forall x :: x in graph && x.parent != null ==> x.parent in graph
  }

  ghost function Parents(graph: set<Inode>): (g: Graph<Inode>)
    reads graph
    requires ClosedUnderParents(graph)
    ensures Closed(g) && g.Keys == graph
  {
    map x | x in graph :: if x.parent == null then None else Some(x.parent)
  }
}
