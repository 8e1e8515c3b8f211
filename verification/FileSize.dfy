/** When a saved file has the size its inode records: the truncation comes before the last flush. */
module FileSizes {
  import opened Bytes
  import opened Wrappers
  import opened BlockDevice
  import opened OutputFile
  import opened FileXtree
  import opened FileRecovery

  /** The last write begins and ends at whole buffers of the stream, which then holds nothing back. */
  predicate LastWriteAligned(buffer: nat, ps: seq<Piece>)
    requires buffer > 0
  {
    var (start, end) := LastWrite(ps);
    Fills(buffer, start) && Fills(buffer, end - start)
  }

  /** One file that can be left behind. */
  function SomeFile(dev: Device, ps: seq<Piece>, size: nat, at: nat, n: nat): seq<Byte> {
    seq(if n == 0 then size else Max(size, at + n), p requires 0 <= p =>
      if p < size || at <= p < at + n then SomeByte(Mapped(dev, ps, p)) else 0)
  }

  function SomeByte(b: Option<Byte>): Byte {
    if b.Some? then b.value else 0
  }

  lemma SomeFileIsSaved(dev: Device, ps: seq<Piece>, size: nat, at: nat, n: nat)
    ensures IsSaved(dev, ps, size, at, n, SomeFile(dev, ps, size, at, n))
  {
  }

  /**
   * The file is sure to have di_size bytes if and only if the last write does not reach beyond that size, or leaves
   * nothing in the stream's buffer.
   */
  lemma SavedSizeIff(dev: Device, buffer: nat, ps: seq<Piece>, size: nat)
    requires buffer > 0
    ensures (forall at, n, f :: IsTail(buffer, ps, at, n) && IsSaved(dev, ps, size, at, n, f) ==> |f| == size)
       <==> LastWrite(ps).1 <= size || LastWriteAligned(buffer, ps)
  {
    var (start, end) := LastWrite(ps);
    if end > size && !LastWriteAligned(buffer, ps) {
      LastWriteIsNonempty(ps);
      var f := SomeFile(dev, ps, size, end - 1, 1);
      SomeFileIsSaved(dev, ps, size, end - 1, 1);
      assert IsTail(buffer, ps, end - 1, 1) && |f| == end;
    }
  }

  lemma {:induction false} LastWriteIsNonempty(ps: seq<Piece>)
    ensures LastWrite(ps).1 > 0 ==> LastWrite(ps).0 < LastWrite(ps).1
  {
    if ps != [] && ps[|ps| - 1].len == 0 {
      LastWriteIsNonempty(ps[..|ps| - 1]);
    }
  }

  /**
   * The last write is the last chunk of the last extent of which anything is copied, and it begins on a multiple of
   * 64 KiB into the extent.
   */
  lemma {:induction false} LastWriteByFields(dev: Device, xads: seq<Xad>, i: nat)
    requires i < |xads| && xads[i].len * dev.blockSize % 0x1_0000_0000 > 0
    requires forall j :: i < j < |xads| ==> xads[j].len * dev.blockSize % 0x1_0000_0000 == 0
    ensures
      var n := xads[i].len * dev.blockSize % 0x1_0000_0000;
      LastWrite(Pieces(dev, xads))
        == (xads[i].off * dev.blockSize + (n - 1) / 0x1_0000 * 0x1_0000, xads[i].off * dev.blockSize + n)
  {
    var n := |xads| - 1;
    CopiedFields(dev, xads[n]);
    assert Pieces(dev, xads)[..n] == Pieces(dev, xads[..n]);
    if i < n {
      LastWriteByFields(dev, xads[..n], i);
    }
  }

  lemma {:induction false} NoWriteByFields(dev: Device, xads: seq<Xad>)
    requires forall j :: 0 <= j < |xads| ==> xads[j].len * dev.blockSize % 0x1_0000_0000 == 0
    ensures LastWrite(Pieces(dev, xads)) == (0, 0)
  {
    if xads != [] {
      var n := |xads| - 1;
      CopiedFields(dev, xads[n]);
      assert Pieces(dev, xads)[..n] == Pieces(dev, xads[..n]);
      NoWriteByFields(dev, xads[..n]);
    }
  }

  /** The file ends, before it is truncated, behind the last position that some extent is copied to. */
  lemma {:induction false} FileEndByFields(dev: Device, xads: seq<Xad>) returns (k: nat)
    ensures forall i :: 0 <= i < |xads| && xads[i].len * dev.blockSize % 0x1_0000_0000 > 0 ==>
      xads[i].off * dev.blockSize + xads[i].len * dev.blockSize % 0x1_0000_0000 <= FileEnd(Pieces(dev, xads))
    ensures FileEnd(Pieces(dev, xads)) > 0 ==>
      k < |xads| && FileEnd(Pieces(dev, xads))
        == xads[k].off * dev.blockSize + xads[k].len * dev.blockSize % 0x1_0000_0000
  {
    k := 0;
    if xads != [] {
      var n := |xads| - 1;
      CopiedFields(dev, xads[n]);
      assert Pieces(dev, xads)[..n] == Pieces(dev, xads[..n]);
      k := FileEndByFields(dev, xads[..n]);
      assert forall i :: 0 <= i < n ==> xads[i] == xads[..n][i];
      if FileEnd(Pieces(dev, xads)) > FileEnd(Pieces(dev, xads[..n])) {
        k := n;
      }
    }
  }

  /** A buffer that divides the block size divides every number of whole blocks. */
  lemma {:induction false} BlocksFill(dev: Device, buffer: nat, m: nat)
    requires buffer > 0 && Fills(buffer, dev.blockSize)
    ensures Fills(buffer, Scaled(dev, m))
  {
    if m > 0 {
      BlocksFill(dev, buffer, m - 1);
      FillsSum(buffer, Scaled(dev, m - 1), dev.blockSize);
      assert Scaled(dev, m) == Scaled(dev, m - 1) + dev.blockSize;
    }
  }

  lemma WholeBlocksOf(dev: Device, m: nat)
    ensures InWholeBlocks(dev, Scaled(dev, m))
  {
  }

  lemma WholeBlocksSubtract(dev: Device, n: nat, m: nat)
    requires m <= n && InWholeBlocks(dev, n) && InWholeBlocks(dev, m)
    ensures InWholeBlocks(dev, n - m)
  {
    assert InBlocks(dev, m) <= InBlocks(dev, n);
    assert n - m == Scaled(dev, InBlocks(dev, n) - InBlocks(dev, m));
    WholeBlocksOf(dev, InBlocks(dev, n) - InBlocks(dev, m));
  }

  /** Chunks begin at whole blocks. */
  lemma ChunkInBlocks(dev: Device, len: nat)
    requires len > 0
    ensures InWholeBlocks(dev, LastChunk(len))
  {
    var t := (len - 1) / BUFFSIZE;
    var blocks := if dev.blockSize == 512 then 128
                  else if dev.blockSize == 1024 then 64
                  else if dev.blockSize == 2048 then 32
                  else 16;
    assert LastChunk(len) == t * 0x1_0000 == Scaled(dev, t * blocks);
    WholeBlocksOf(dev, t * blocks);
  }

  lemma PieceInBlocks(dev: Device, x: Xad)
    requires CopiedPiece(dev, x).len > 0
    ensures var p := CopiedPiece(dev, x);
      InWholeBlocks(dev, p.at + LastChunk(p.len)) && InWholeBlocks(dev, p.len - LastChunk(p.len))
  {
    var p := CopiedPiece(dev, x);
    CopiedInWholeBlocks(dev, x);
    ChunkInBlocks(dev, p.len);
    WholeBlocksOf(dev, x.off);
    WholeBlocksAdd(dev, p.at, LastChunk(p.len));
    WholeBlocksSubtract(dev, p.len, LastChunk(p.len));
  }

  /** The last write of extents in whole blocks begins and ends at whole blocks. */
  lemma {:induction false} LastWriteInBlocks(dev: Device, xads: seq<Xad>)
    ensures var (start, end) := LastWrite(Pieces(dev, xads));
      InWholeBlocks(dev, start) && InWholeBlocks(dev, end - start)
  {
    if xads != [] {
      var n := |xads| - 1;
      assert Pieces(dev, xads)[..n] == Pieces(dev, xads[..n]);
      LastWriteInBlocks(dev, xads[..n]);
      if CopiedPiece(dev, xads[n]).len > 0 {
        PieceInBlocks(dev, xads[n]);
      }
    }
  }

  /** If the stream's buffer divides the block size, every saved file has di_size bytes. */
  lemma BlocksKeepTheSize(dev: Device, buffer: nat, xads: seq<Xad>, size: nat, at: nat, n: nat, f: seq<Byte>)
    requires buffer > 0 && Fills(buffer, dev.blockSize)
    requires IsTail(buffer, Pieces(dev, xads), at, n) && IsSaved(dev, Pieces(dev, xads), size, at, n, f)
    ensures |f| == size
  {
    var (start, end) := LastWrite(Pieces(dev, xads));
    LastWriteInBlocks(dev, xads);
    BlocksFill(dev, buffer, InBlocks(dev, start));
    BlocksFill(dev, buffer, InBlocks(dev, end - start));
    SavedSizeIff(dev, buffer, Pieces(dev, xads), size);
  }

  /** Otherwise not: a file of 100 bytes in one block of 512 can come out with 512 bytes behind a buffer of 4096. */
  lemma SmallFileGrows(dev: Device, addr: nat) returns (at: nat, n: nat, f: seq<Byte>)
    requires dev.blockSize == 512
    ensures var ps := Pieces(dev, [Xad(0, 1, addr)]);
      IsTail(4096, ps, at, n) && IsSaved(dev, ps, 100, at, n, f) && |f| == 512
  {
    var ps := Pieces(dev, [Xad(0, 1, addr)]);
    at, n := 0, 512;
    f := SomeFile(dev, ps, 100, at, n);
    SomeFileIsSaved(dev, ps, 100, at, n);
    assert LastWrite(ps) == (0, 512);
  }
}
