/** The on-disk inode and the classification of a 512-byte sector as an inode. */
module InodeFactory {
  import opened Bytes
  import opened Wrappers

  datatype Timestamp = Timestamp(sec: nat, nsec: nat)

  /** The fields of struct dinode that the program reads. */
  datatype Dinode = Dinode(inostamp: nat, fileset: int, number: nat, ixpxdLen: nat, size: int, nlink: nat,
                           mode: nat, otime: Timestamp, btroot: seq<Byte>)

  datatype Kind = UnallocatedInode | FileInode | DirInode | SymlinkInode | SpecialInode

  /** The immutable part of an Inode object: where it was found, its class, and the dinode stored there. */
  datatype Ino = Ino(offset: nat, kind: Kind, din: Dinode)

  const INODE_SIZE := 512
  const BTROOT := 224
  const BTROOT_SIZE := 288
  const IDOTDOT := 20

  const IFDIR := 0x4000
  const IFREG := 0x8000
  const IFLNK := 0xA000
  const IFBLK := 0x6000
  const IFCHR := 0x2000
  const IFFIFO := 0x1000
  const IFSOCK := 0xC000

  function DinodeAt(s: seq<Byte>, at: nat): Dinode
    requires at + INODE_SIZE <= |s|
  {
    Dinode(Le32(s, at), Signed(Le32(s, at + 4), 0x1_0000_0000), Le32(s, at + 8), Le24(s, at + 16), I64(s, at + 24),
           Le32(s, at + 40), Le32(s, at + 52), Timestamp(Le32(s, at + 80), Le32(s, at + 84)),
           s[at + BTROOT..at + BTROOT + BTROOT_SIZE])
  }

  /** The number a directory records for its parent (idotdot of the root that the inode holds). */
  function ParentNumber(d: Dinode): nat {
    if IDOTDOT + 4 <= |d.btroot| then Le32(d.btroot, IDOTDOT) else 0
  }

  /** mode & IFMT */
  function Format(mode: nat): nat {
    mode / 0x1000 % 0x10 * 0x1000
  }

  /** The class an allocated or unallocated dinode is given; None is the NULL of an unhandled type. */
  function Classify(d: Dinode): Option<Kind> {
    if d.nlink == 0 then Some(UnallocatedInode)
    else if Format(d.mode) == IFREG then Some(FileInode)
    else if Format(d.mode) == IFDIR then Some(DirInode)
    else if Format(d.mode) == IFLNK then Some(SymlinkInode)
    else if Format(d.mode) in {IFBLK, IFCHR, IFFIFO, IFSOCK} then Some(SpecialInode)
    else None
  }

  /** The test that do_scan applies to a sector of its chunk buffer. */
  function CreateIfSane(chunk: seq<Byte>, at: nat, offset: nat): Option<Ino>
    requires at + INODE_SIZE <= |chunk|
  {
    var d := DinodeAt(chunk, at);
    if d.ixpxdLen != 4 || d.fileset != 16 then None
    else match Classify(d)
      case None => None
      case Some(k) => Some(Ino(offset, k, d))
  }

  /** What a reload makes of a saved position: it trusts the position and applies no sanity test. */
  function ReadFromDisk(dev: seq<Byte>, offset: nat): Option<Ino>
    requires offset + INODE_SIZE <= |dev|
  {
    var d := DinodeAt(dev, offset);
    match Classify(d)
    case None => None
    case Some(k) => Some(Ino(offset, k, d))
  }

  /** The sector-level meaning of "sane", independent of the chunk it was read in. */
  predicate SaneAt(dev: seq<Byte>, offset: nat)
    requires offset + INODE_SIZE <= |dev|
  {
    var d := DinodeAt(dev, offset);
    d.ixpxdLen == 4 && d.fileset == 16 && Classify(d).Some?
  }

  /** Every fixed-width field of a dinode lies within its own 512 bytes. */
  lemma FieldsInSlice(s: seq<Byte>, at: nat)
    requires at + INODE_SIZE <= |s|
    ensures var c := s[at..at + INODE_SIZE];
      DinodeAt(s, at).(btroot := []) == DinodeAt(c, 0).(btroot := [])
  {
  }

  lemma DinodeInSlice(dev: seq<Byte>, chunk: seq<Byte>, at: nat, offset: nat)
    requires at + INODE_SIZE <= |chunk| && offset + INODE_SIZE <= |dev|
    requires chunk[at..at + INODE_SIZE] == dev[offset..offset + INODE_SIZE]
    ensures DinodeAt(chunk, at) == DinodeAt(dev, offset)
  {
    var c, d := chunk[at..at + INODE_SIZE], dev[offset..offset + INODE_SIZE];
    FieldsInSlice(chunk, at);
    FieldsInSlice(dev, offset);
    assert chunk[at + BTROOT..at + BTROOT + BTROOT_SIZE] == c[BTROOT..BTROOT + BTROOT_SIZE];
    assert dev[offset + BTROOT..offset + BTROOT + BTROOT_SIZE] == d[BTROOT..BTROOT + BTROOT_SIZE];
  }

  /**
   * Scan and reload agree: the scan accepts a sector of its chunk exactly when the device sector is sane, and a
   * reload of the recorded position then builds the very same inode.
   */
  lemma ScanAgreesWithReload(dev: seq<Byte>, chunk: seq<Byte>, at: nat, offset: nat)
    requires at + INODE_SIZE <= |chunk| && offset + INODE_SIZE <= |dev|
    requires chunk[at..at + INODE_SIZE] == dev[offset..offset + INODE_SIZE]
    ensures CreateIfSane(chunk, at, offset).Some? <==> SaneAt(dev, offset)
    ensures SaneAt(dev, offset) ==> CreateIfSane(chunk, at, offset) == ReadFromDisk(dev, offset)
  {
    DinodeInSlice(dev, chunk, at, offset);
  }

  /** operator<(const timestruc_t&, const timestruc_t&) */
  predicate Before(a: Timestamp, b: Timestamp) {
    if a.sec == b.sec then a.nsec < b.nsec else a.sec < b.sec
  }
}
