/** Where the fields are: every structure that is parsed, by the bytes of the sector or page it is read from. */
module DiskLayout {
  import opened Bytes
  import opened Wrappers
  import opened BlockDevice
  import opened InodeFactory
  import opened Direntry
  import DirInodeNames
  import FileXtree

  // ---------------------------------------------------------------- numbers

  /** The number that bytes stand for, the lowest byte first. */
  function Value(b: seq<Byte>): nat {
    if b == [] then 0 else b[0] as int + 0x100 * Value(b[1..])
  }

  /** In two's complement the highest byte is a signed one. */
  function SignedValue(b: seq<Byte>): int
    requires b != []
  {
    if |b| > 1 then b[0] as int + 0x100 * SignedValue(b[1..])
    else if b[0] < 0x80 then b[0]
    else b[0] as int - 0x100
  }

  lemma Tail(s: seq<Byte>, i: nat, n: nat)
    requires 0 < n && i + n <= |s|
    ensures Value(s[i..i + n]) == s[i] as int + 0x100 * Value(s[i + 1..i + n])
    ensures SignedValue(s[i..i + n])
         == if n > 1 then s[i] as int + 0x100 * SignedValue(s[i + 1..i + n])
            else if s[i] < 0x80 then s[i] else s[i] as int - 0x100
  {
    assert s[i..i + n][1..] == s[i + 1..i + n];
  }

  lemma ValueOf16(s: seq<Byte>, i: nat)
    requires i + 2 <= |s|
    ensures Le16(s, i) == Value(s[i..i + 2]) && I16(s, i) == SignedValue(s[i..i + 2])
  {
    Tail(s, i, 2);
    Tail(s, i + 1, 1);
  }

  lemma ValueOf24(s: seq<Byte>, i: nat)
    requires i + 3 <= |s|
    ensures Le24(s, i) == Value(s[i..i + 3])
  {
    Tail(s, i, 3);
    ValueOf16(s, i + 1);
  }

  lemma ValueOf32(s: seq<Byte>, i: nat)
    requires i + 4 <= |s|
    ensures Le32(s, i) == Value(s[i..i + 4])
    ensures Signed(Le32(s, i), 0x1_0000_0000) == SignedValue(s[i..i + 4])
  {
    Tail(s, i, 4);
    Tail(s, i + 1, 3);
    ValueOf16(s, i + 2);
  }

  lemma ValueOf64(s: seq<Byte>, i: nat)
    requires i + 8 <= |s|
    ensures I64(s, i) == SignedValue(s[i..i + 8])
  {
    Tail(s, i, 8);
    Tail(s, i + 1, 7);
    Tail(s, i + 2, 6);
    Tail(s, i + 3, 5);
    ValueOf32(s, i + 4);
  }

  // ---------------------------------------------------------------- the inode

  /** The class of a sector by its link count, bytes 40 to 43, and the format nibble of its mode in byte 53. */
  ghost predicate KindByBytes(s: seq<Byte>, at: nat, kind: Option<Kind>)
    requires at + 512 <= |s|
  {
    var unlinked := s[at + 40] == s[at + 41] == s[at + 42] == s[at + 43] == 0;
    var format := s[at + 53] / 16;
    && (unlinked ==> kind == Some(UnallocatedInode))
    && (!unlinked && format == 0x8 ==> kind == Some(FileInode))
    && (!unlinked && format == 0x4 ==> kind == Some(DirInode))
    && (!unlinked && format == 0xA ==> kind == Some(SymlinkInode))
    && (!unlinked && format in {0x1, 0x2, 0x6, 0xC} ==> kind == Some(SpecialInode))
    && (!unlinked && format !in {0x1, 0x2, 0x4, 0x6, 0x8, 0xA, 0xC} ==> kind == None)
  }

  /** A saved position is reloaded as the class that its bytes say, ... */
  lemma ReloadByBytes(dev: seq<Byte>, offset: nat)
    requires offset + 512 <= |dev|
    ensures var r := ReadFromDisk(dev, offset);
      && KindByBytes(dev, offset, if r.Some? then Some(r.value.kind) else None)
      && (r.Some? ==> r.value.offset == offset && r.value.din == DinodeAt(dev, offset))
  {
    FormatIsNibble(DinodeAt(dev, offset).mode, dev[offset + 52], dev[offset + 53], Le16(dev, offset + 54));
  }

  /** ...and the scan accepts a sector if moreover the extent of its inode has 4 blocks and its fileset is 16. */
  lemma SaneByBytes(chunk: seq<Byte>, at: nat, offset: nat)
    requires at + 512 <= |chunk|
    ensures var r := CreateIfSane(chunk, at, offset);
      && (if chunk[at + 16] == 4 && chunk[at + 17] == chunk[at + 18] == 0
             && chunk[at + 4] == 16 && chunk[at + 5] == chunk[at + 6] == chunk[at + 7] == 0
          then KindByBytes(chunk, at, if r.Some? then Some(r.value.kind) else None)
          else r == None)
      && (r.Some? ==> r.value.offset == offset && r.value.din == DinodeAt(chunk, at))
  {
    FormatIsNibble(DinodeAt(chunk, at).mode, chunk[at + 52], chunk[at + 53], Le16(chunk, at + 54));
  }

  lemma FormatIsNibble(mode: nat, low: Byte, second: Byte, high: nat)
    requires mode == low as int + 0x100 * second + 0x1_0000 * high
    ensures Format(mode) == second / 16 * 0x1000
  {
    assert mode == (low + second % 16 * 0x100) + 0x1000 * (second / 16 + 0x10 * high);
    assert mode / 0x1000 == second / 16 + 0x10 * high;
  }

  /** The fields of struct dinode that the program reads. */
  lemma DinodeByBytes(s: seq<Byte>, at: nat)
    requires at + 512 <= |s|
    ensures var d := DinodeAt(s, at);
      && d.inostamp == Value(s[at..at + 4]) && d.fileset == SignedValue(s[at + 4..at + 8])
      && d.number == Value(s[at + 8..at + 12]) && d.ixpxdLen == Value(s[at + 16..at + 19])
      && d.size == SignedValue(s[at + 24..at + 32])
      && d.nlink == Value(s[at + 40..at + 44]) && d.mode == Value(s[at + 52..at + 56])
      && d.otime.sec == Value(s[at + 80..at + 84]) && d.otime.nsec == Value(s[at + 84..at + 88])
      && d.btroot == s[at + 224..at + 512] && ParentNumber(d) == Value(s[at + 244..at + 248])
  {
    ValueOf32(s, at);
    ValueOf32(s, at + 4);
    ValueOf32(s, at + 8);
    ValueOf24(s, at + 16);
    ValueOf64(s, at + 24);
    ValueOf32(s, at + 40);
    ValueOf32(s, at + 52);
    ValueOf32(s, at + 80);
    ValueOf32(s, at + 84);
    ValueOf32(s[at + 224..at + 512], 20);
    assert s[at + 224..at + 512][20..24] == s[at + 244..at + 248];
  }

  // ---------------------------------------------------------------- extents of a file

  lemma XadByBytes(m: seq<Byte>, at: nat)
    requires at + 16 <= |m|
    ensures var x := FileXtree.XadAt(m, at);
      && x.off == m[at + 3] * 0x1_0000_0000 + Value(m[at + 4..at + 8])
      && x.len == Value(m[at + 8..at + 11])
      && x.addr == m[at + 11] * 0x1_0000_0000 + Value(m[at + 12..at + 16])
  {
    ValueOf32(m, at + 4);
    ValueOf24(m, at + 8);
    ValueOf32(m, at + 12);
  }

  /** The leaf flag is bit 1 of byte 16, nextindex a signed number of 16 bits, and xad k begins at byte 16 k. */
  lemma XtPageByBytes(m: seq<Byte>, k: nat)
    requires |m| >= 32
    ensures var p := FileXtree.ParseXtPage(m);
      && FileXtree.IsLeaf(p) == (m[16] % 4 >= 2) && p.nextIndex == SignedValue(m[18..20])
      && |p.xads| == |m| / 16
      && (16 * k + 16 <= |m| ==> p.xads[k] == FileXtree.XadAt(m, 16 * k))
  {
    ValueOf16(m, 18);
  }

  // ---------------------------------------------------------------- nodes of a directory

  lemma SlotByBytes(m: seq<Byte>, at: nat, k: nat)
    requires at + 32 <= |m|
    ensures var s := SlotAt(m, at);
      && |s.text| == 15 && |s.headText| == 11 && s.next == SignedValue(m[at..at + 1])
      && (k < 15 ==> s.text[k] == Value(m[at + 2 + 2 * k..at + 4 + 2 * k]))
      && s.number == Value(m[at..at + 4]) && s.headNext == SignedValue(m[at + 4..at + 5]) && s.namlen == m[at + 5]
      && (k < 11 ==> s.headText[k] == Value(m[at + 6 + 2 * k..at + 8 + 2 * k]))
  {
    ValueOf32(m, at);
    if k < 15 {
      ValueOf16(m, at + 2 + 2 * k);
    }
    if k < 11 {
      ValueOf16(m, at + 6 + 2 * k);
    }
  }

  lemma PxdByBytes(m: seq<Byte>, at: nat)
    requires at + 8 <= |m|
    ensures var x := DirInodeNames.PxdAt(m, at);
      x.len == Value(m[at..at + 3]) && x.addr == m[at + 3] * 0x1_0000_0000 + Value(m[at + 4..at + 8])
  {
    ValueOf24(m, at);
    ValueOf32(m, at + 4);
  }

  /** A page: the sibling in bytes 0 to 7, and the table from the slot on that byte 21 names. */
  lemma PageByBytes(m: seq<Byte>, k: nat)
    requires |m| == 4096
    ensures var p, first := DirInodeNames.ParsePage(m), 32 * (m[21] as int);
      && p.next == SignedValue(m[0..8])
      && DirInodeNames.IsLeaf(p) == (m[16] % 4 >= 2) && p.nextIndex == SignedValue(m[17..18])
      && |p.table| == (if m[21] < 0x80 then 4096 - first else 0)
      && (m[21] < 0x80 && first + k < 4096 ==> p.table[k] == m[first + k])
      && (k < 128 ==> p.slots[k] == SlotAt(m, 32 * k) && p.pxds[k] == DirInodeNames.PxdAt(m, 32 * k))
  {
    ValueOf64(m, 0);
  }

  /** The root in the inode: no sibling, nine slots, the table in bytes 24 to 31. */
  lemma RootByBytes(m: seq<Byte>, k: nat)
    requires |m| == 288
    ensures var p := DirInodeNames.ParseRoot(m);
      && p.next == 0
      && DirInodeNames.IsLeaf(p) == (m[16] % 4 >= 2) && p.nextIndex == SignedValue(m[17..18])
      && |p.table| == 8 && |p.slots| == |p.pxds| == 9
      && (k < 8 ==> p.table[k] == m[24 + k])
      && (k < 9 ==> p.slots[k] == SlotAt(m, 32 * k) && p.pxds[k] == DirInodeNames.PxdAt(m, 32 * k))
  {
  }

  // ---------------------------------------------------------------- addresses

  /** A sane descriptor leads to a place of the device, not to its first block. */
  lemma SaneByFields(dev: Device, x: DirInodeNames.Pxd)
    ensures DirInodeNames.SanePxd(dev, x) <==>
      1 <= x.addr <= |dev.bytes| / dev.blockSize && x.len <= |dev.bytes| / dev.blockSize
  {
    InBytes(dev, |dev.bytes|);
  }

  /** Block numbers become byte offsets by multiplication modulo 2^64, read as a signed number. */
  lemma OffsetByFields(dev: Device, block: int)
    ensures var offset := DirInodeNames.ByteOffset(dev, block);
      && -0x8000_0000_0000_0000 <= offset < 0x8000_0000_0000_0000
      && (offset - block * dev.blockSize) % 0x1_0000_0000_0000_0000 == 0
    ensures 0 <= block * dev.blockSize < 0x8000_0000_0000_0000 ==>
      DirInodeNames.ByteOffset(dev, block) == block * dev.blockSize
  {
    if dev.blockSize == 512 {
    } else if dev.blockSize == 1024 {
    } else if dev.blockSize == 2048 {
    }
  }

  /** A leaf's successor is the page at the block that its next field names. */
  lemma FollowsByFields(dev: Device, p: DirInodeNames.Node, q: DirInodeNames.Node)
    requires DirInodeNames.Follows(dev, p, q) && 0 < p.next && p.next * dev.blockSize + 4096 <= |dev.bytes|
    requires |dev.bytes| < 0x8000_0000_0000_0000
    ensures q == DirInodeNames.ParsePage(dev.bytes[p.next * dev.blockSize..p.next * dev.blockSize + 4096])
  {
    OffsetByFields(dev, p.next);
    DirInodeNames.WholeOver(dev, p.next * dev.blockSize, p.raw);
  }

  /** The child that the leftmost table byte leads to. */
  lemma ChildByFields(dev: Device, p: DirInodeNames.Node, q: DirInodeNames.Node)
    requires DirInodeNames.TableInside(p, 1) && DirInodeNames.Leads(dev, DirInodeNames.FirstChild(p), q)
    requires |dev.bytes| < 0x8000_0000_0000_0000
    ensures var at := p.pxds[p.table[0]].addr * dev.blockSize;
      0 < at && at + 4096 <= |dev.bytes| && q == DirInodeNames.ParsePage(dev.bytes[at..at + 4096])
  {
    var x := p.pxds[p.table[0]];
    AddressFits(dev, x.addr);
    OffsetByFields(dev, x.addr);
  }

  lemma AddressFits(dev: Device, addr: nat)
    requires 0 < addr <= SizeBlocks(dev)
    ensures 0 < addr * dev.blockSize <= |dev.bytes|
  {
    InBytes(dev, addr);
    assert Scaled(dev, addr) <= |dev.bytes|;
  }
}
