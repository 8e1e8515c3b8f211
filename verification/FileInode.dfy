/** Recovery of a file's contents from its extents. */
module FileRecovery {
  import opened Bytes
  import opened Wrappers
  import opened BlockDevice
  import opened InodeObject
  import opened OutputFile
  import opened FileXtree

  const BUFFSIZE := 0x1_0000
  const UINT32 := 0x1_0000_0000
  const UINT64 := 0x1_0000_0000_0000_0000

  // ---------------------------------------------------------------- extents in bytes

  /** len bytes of the device, from the given offset, that go to the file at the given position. */
  datatype Piece = Piece(at: nat, from: nat, len: nat)

  /** What an extent describes. */
  function WholePiece(dev: Device, x: Xad): Piece {
    Piece(Scaled(dev, x.off), Scaled(dev, x.addr), Scaled(dev, x.len))
  }

  /** What is copied of it: lengthXAD * get_blocksize is a 32-bit product. */
  function CopiedPiece(dev: Device, x: Xad): Piece {
    WholePiece(dev, x).(len := Scaled(dev, x.len) % UINT32)
  }

  function Pieces(dev: Device, xads: seq<Xad>): (r: seq<Piece>)
    ensures |r| == |xads|
  {
    seq(|xads|, i requires 0 <= i < |xads| => CopiedPiece(dev, xads[i]))
  }

  function WholePieces(dev: Device, xads: seq<Xad>): (r: seq<Piece>)
    ensures |r| == |xads|
  {
    seq(|xads|, i requires 0 <= i < |xads| => WholePiece(dev, xads[i]))
  }

  predicate InDevice(dev: Device, x: Piece) {
    x.from + x.len <= |dev.bytes|
  }

  predicate AllInDevice(dev: Device, ps: seq<Piece>) {
    forall i :: 0 <= i < |ps| ==> InDevice(dev, ps[i])
  }

  predicate Covers(x: Piece, p: nat) {
    x.at <= p < x.at + x.len
  }

  /** The device byte that the piece maps to p; a place past the end of the device has none. */
  function Source(dev: Device, x: Piece, p: nat): Option<Byte>
    requires Covers(x, p)
  {
    var i := x.from + (p - x.at);
    if i < |dev.bytes| then Some(dev.bytes[i]) else None
  }

  // ---------------------------------------------------------------- one extent

  class Progress {
    var count: nat
    const expected: nat

    constructor (expected: nat)
      ensures count == 0 && this.expected == expected
    {
      count, this.expected := 0, expected;
    }

    method Add(n: nat)
      modifies this
      ensures count == old(count) + n
    {
      count := count + n;
    }
  }

  /**
   * f is the file before with the first n bytes of the piece written over it, and nothing else changed.  A byte that
   * lies past the end of the device is written with whatever the buffer held.
   */
  ghost predicate Copied(dev: Device, x: Piece, before: seq<Byte>, n: nat, f: seq<Byte>) {
    && n <= x.len && |f| == (if n == 0 then |before| else Max(|before|, x.at + n))
    && (forall p: nat :: !(x.at <= p < x.at + n) ==> ByteAt(f, p) == ByteAt(before, p))
    && forall p: nat :: x.at <= p < x.at + n && Source(dev, x, p).Some? ==> Some(ByteAt(f, p)) == Source(dev, x, p)
  }

  lemma CopiedMore(dev: Device, x: Piece, before: seq<Byte>, n: nat, f: seq<Byte>, d: seq<Byte>, g: seq<Byte>)
    requires Copied(dev, x, before, n, f) && n + |d| <= x.len && d != [] && IsWritten(f, x.at + n, d, g)
    requires forall k :: 0 <= k < |d| && x.from + n + k < |dev.bytes| ==> d[k] == dev.bytes[x.from + n + k]
    ensures Copied(dev, x, before, n + |d|, g)
  {
    forall p: nat | x.at <= p < x.at + n + |d| && Source(dev, x, p).Some?
      ensures Some(ByteAt(g, p)) == Source(dev, x, p)
    {
      if p < x.at + n {
        assert ByteAt(g, p) == ByteAt(f, p);
      } else {
        assert ByteAt(g, p) == d[p - (x.at + n)];
      }
    }
  }

  /** One turn of the loop: read, seek, write, report. */
  method CopyChunk(dev: Device, x: Piece, bytesRead: nat, n: nat, f: OutFile, prog: Progress, buffer: array<Byte>,
                   ghost before: seq<Byte>)
    returns (threw: bool)
    requires 0 < n <= buffer.Length && bytesRead + n <= x.len && f.buffer > 0
    requires Copied(dev, x, before, bytesRead, f.Contents())
    modifies f, prog, buffer
    ensures threw <==> x.from + bytesRead > |dev.bytes|
    ensures threw ==> unchanged(f) && unchanged(prog)
    ensures !threw ==> Copied(dev, x, before, bytesRead + n, f.Contents())
    ensures !threw ==> f.tailAt + |f.tail| == x.at + bytesRead + n
    ensures !threw ==> MayPend(f.buffer, x.at + bytesRead, n, |f.tail|)
    ensures !threw ==> prog.count == old(prog.count) + InBlocks(dev, n)
  {
    threw := ReadBytes(dev.bytes, x.from + bytesRead, n, buffer);
    if threw {
      return;
    }
    ghost var was := f.Contents();
    f.Seek(x.at + bytesRead);
    f.Write(buffer[..n]);
    CopiedMore(dev, x, before, bytesRead, was, buffer[..n], f.Contents());
    prog.Add(InBlocks(dev, n));
  }

  /** How many bytes are copied before a chunk begins behind the end of the device, which throws. */
  function Copyable(dev: Device, x: Piece): (n: nat)
    ensures n <= x.len
  {
    if x.from > |dev.bytes| then 0 else Min(x.len, ((|dev.bytes| - x.from) / BUFFSIZE + 1) * BUFFSIZE)
  }

  /** A chunk can be read exactly when it is among the copyable ones. */
  lemma ChunkIsCopyable(dev: Device, x: Piece, bytesRead: nat, n: nat)
    requires bytesRead % BUFFSIZE == 0 && bytesRead < x.len && n == Min(x.len - bytesRead, BUFFSIZE)
    ensures x.from + bytesRead > |dev.bytes| ==> Copyable(dev, x) <= bytesRead
    ensures x.from + bytesRead <= |dev.bytes| ==> bytesRead + n <= Copyable(dev, x)
  {
    var t := bytesRead / BUFFSIZE;
    assert bytesRead == t * BUFFSIZE;
  }

  lemma InBlocksAdd(dev: Device, a: nat, b: nat)
    requires a % BUFFSIZE == 0
    ensures InBlocks(dev, a + b) == InBlocks(dev, a) + InBlocks(dev, b)
  {
  }

  /** The copy in chunks through the static buffer writes every byte of the extent to its place, until a read throws. */
  method WriteExtentToFile(dev: Device, x: Xad, f: OutFile, prog: Progress, buffer: array<Byte>) returns (threw: bool)
    requires buffer.Length == BUFFSIZE && f.buffer > 0
    modifies f, prog, buffer
    ensures threw <==> Copyable(dev, CopiedPiece(dev, x)) < CopiedPiece(dev, x).len
    ensures Copied(dev, CopiedPiece(dev, x), old(f.Contents()), Copyable(dev, CopiedPiece(dev, x)), f.Contents())
    ensures prog.count == old(prog.count) + InBlocks(dev, Copyable(dev, CopiedPiece(dev, x)))
    ensures TailAfter(f.buffer, CopiedPiece(dev, x), Copyable(dev, CopiedPiece(dev, x)), old(f.tailAt), old(f.tail),
                      f.tailAt, f.tail)
  {
    var piece := CopiedPiece(dev, x);
    var bytesRead: nat := 0;
    while piece.len > bytesRead
      invariant bytesRead < piece.len ==> bytesRead % BUFFSIZE == 0
      invariant bytesRead <= Copyable(dev, piece)
      invariant Copied(dev, piece, old(f.Contents()), bytesRead, f.Contents())
      invariant prog.count == old(prog.count) + InBlocks(dev, bytesRead)
      invariant TailAfter(f.buffer, piece, bytesRead, old(f.tailAt), old(f.tail), f.tailAt, f.tail)
      decreases piece.len - bytesRead
    {
      threw, bytesRead := CopyNext(dev, piece, bytesRead, f, prog, buffer,
                                   old(f.Contents()), old(f.tailAt), old(f.tail));
      if threw {
        return;
      }
    }
    return false;
  }

  /** The loop body: the next chunk, of the buffer's size or what is left. */
  method CopyNext(dev: Device, x: Piece, bytesRead: nat, f: OutFile, prog: Progress, buffer: array<Byte>,
                  ghost before: seq<Byte>, ghost wasAt: nat, ghost was: seq<Byte>)
    returns (threw: bool, next: nat)
    requires buffer.Length == BUFFSIZE && f.buffer > 0 && bytesRead < x.len && bytesRead % BUFFSIZE == 0
    requires bytesRead <= Copyable(dev, x) && Copied(dev, x, before, bytesRead, f.Contents())
    modifies f, prog, buffer
    ensures threw ==> unchanged(f) && unchanged(prog) && next == bytesRead == Copyable(dev, x)
    ensures !threw ==> bytesRead < next <= Copyable(dev, x) && (next < x.len ==> next % BUFFSIZE == 0)
    ensures !threw ==> Copied(dev, x, before, next, f.Contents())
    ensures !threw ==> prog.count == old(prog.count) + InBlocks(dev, next) - InBlocks(dev, bytesRead)
    ensures !threw ==> TailAfter(f.buffer, x, next, wasAt, was, f.tailAt, f.tail)
  {
    var n := Min(x.len - bytesRead, BUFFSIZE);
    ChunkIsCopyable(dev, x, bytesRead, n);
    threw := CopyChunk(dev, x, bytesRead, n, f, prog, buffer, before);
    if threw {
      return threw, bytesRead;
    }
    InBlocksAdd(dev, bytesRead, n);
    TailOfChunk(f.buffer, x, bytesRead, n, wasAt, was, f.tailAt, f.tail);
    next := bytesRead + n;
  }

  lemma TailOfChunk(buffer: nat, x: Piece, done: nat, n: nat, wasAt: nat, was: seq<Byte>, at: nat, tail: seq<Byte>)
    requires buffer > 0 && done % BUFFSIZE == 0 && 0 < n <= BUFFSIZE
    requires at + |tail| == x.at + done + n && MayPend(buffer, x.at + done, n, |tail|)
    ensures TailAfter(buffer, x, done + n, wasAt, was, at, tail)
  {
    assert done == done / BUFFSIZE * BUFFSIZE == LastChunk(done + n);
  }

  /** What may be in the stream's buffer after n bytes of the piece. */
  predicate TailAfter(buffer: nat, x: Piece, n: nat, wasAt: nat, was: seq<Byte>, at: nat, tail: seq<Byte>)
    requires buffer > 0
  {
    if n == 0 then at == wasAt && tail == was
    else at + |tail| == x.at + n && MayPend(buffer, x.at + LastChunk(n), n - LastChunk(n), |tail|)
  }

  /** Where the last chunk of n bytes begins. */
  function LastChunk(n: nat): (c: nat)
    requires n > 0
    ensures c < n
  {
    (n - 1) / BUFFSIZE * BUFFSIZE
  }

  // ---------------------------------------------------------------- all extents

  /**
   * The byte that the last listed piece covering p maps to p, or 0 in a hole.  None means that the device has no such
   * byte: the file gets what the static buffer held.
   */
  function Mapped(dev: Device, ps: seq<Piece>, p: nat): Option<Byte> {
    if ps == [] then Some(0)
    else
      var n := |ps| - 1;
      if Covers(ps[n], p) then Source(dev, ps[n], p) else Mapped(dev, ps[..n], p)
  }

  lemma {:induction false} LastCoverWins(dev: Device, ps: seq<Piece>, p: nat, i: nat)
    requires i < |ps| && Covers(ps[i], p) && forall j :: i < j < |ps| ==> !Covers(ps[j], p)
    ensures Mapped(dev, ps, p) == Source(dev, ps[i], p)
  {
    var n := |ps| - 1;
    if i < n {
      LastCoverWins(dev, ps[..n], p, i);
    }
  }

  lemma {:induction false} NoCover(dev: Device, ps: seq<Piece>, p: nat)
    requires forall i :: 0 <= i < |ps| ==> !Covers(ps[i], p)
    ensures Mapped(dev, ps, p) == Some(0)
  {
    if ps != [] {
      NoCover(dev, ps[..|ps| - 1], p);
    }
  }

  /** Where the file ends before it is truncated. */
  function FileEnd(ps: seq<Piece>): nat {
    if ps == [] then 0
    else
      var n := |ps| - 1;
      if ps[n].len == 0 then FileEnd(ps[..n]) else Max(FileEnd(ps[..n]), ps[n].at + ps[n].len)
  }

  /** Where the last write began and ended. */
  function LastWrite(ps: seq<Piece>): (w: (nat, nat))
    ensures w.0 <= w.1
  {
    if ps == [] then (0, 0)
    else
      var n := |ps| - 1;
      if ps[n].len == 0 then LastWrite(ps[..n]) else (ps[n].at + LastChunk(ps[n].len), ps[n].at + ps[n].len)
  }

  /** The n bytes at the given position can be in the stream's buffer when all pieces have been written. */
  predicate IsTail(buffer: nat, ps: seq<Piece>, at: nat, n: nat)
    requires buffer > 0
  {
    var (start, end) := LastWrite(ps);
    n == 0 || (at + n == end && MayPend(buffer, start, end - start, n))
  }

  /** Copying the pieces in turn throws. */
  predicate Throws(dev: Device, ps: seq<Piece>) {
    exists i :: 0 <= i < |ps| && Copyable(dev, ps[i]) < ps[i].len
  }

  /** The pieces that are written: all, or those up to the first throw. */
  function Written(dev: Device, ps: seq<Piece>): seq<Piece> {
    if ps == [] then []
    else
      var n := |ps| - 1;
      if Throws(dev, ps[..n]) then Written(dev, ps[..n]) else ps[..n] + [ps[n].(len := Copyable(dev, ps[n]))]
  }

  function TotalLength(ps: seq<Piece>): nat {
    if ps == [] then 0 else TotalLength(ps[..|ps| - 1]) + ps[|ps| - 1].len
  }

  /** The bytes written, before the file is truncated. */
  ghost predicate HoldsPieces(dev: Device, ps: seq<Piece>, f: seq<Byte>) {
    |f| == FileEnd(ps) && forall p: nat :: Mapped(dev, ps, p).Some? ==> Some(ByteAt(f, p)) == Mapped(dev, ps, p)
  }

  lemma HoldsNext(dev: Device, ps: seq<Piece>, x: Piece, n: nat, f: seq<Byte>, g: seq<Byte>)
    requires HoldsPieces(dev, ps, f) && Copied(dev, x, f, n, g)
    ensures HoldsPieces(dev, ps + [x.(len := n)], g)
  {
    var y := x.(len := n);
    var next := ps + [y];
    assert next[..|ps|] == ps;
    forall p: nat | Mapped(dev, next, p).Some? ensures Some(ByteAt(g, p)) == Mapped(dev, next, p) {
      if Covers(y, p) {
        assert Source(dev, x, p) == Source(dev, y, p);
      } else {
        assert Some(ByteAt(f, p)) == Mapped(dev, ps, p);
      }
    }
  }

  /** The bytes below size are the ones the pieces map there. */
  ghost predicate HasBytes(dev: Device, ps: seq<Piece>, size: nat, f: seq<Byte>) {
    |f| >= size && forall p: nat :: p < size && Mapped(dev, ps, p).Some? ==> Some(f[p]) == Mapped(dev, ps, p)
  }

  /**
   * What save_file leaves behind for a file of the given di_size, when n bytes from the given position were still in
   * the stream's buffer at the truncation.
   */
  ghost predicate IsSaved(dev: Device, ps: seq<Piece>, size: int, at: nat, n: nat, f: seq<Byte>) {
    if size < 0 then HoldsPieces(dev, ps, f)
    else
      && HasBytes(dev, ps, size, f) && |f| == (if n == 0 then size else Max(size, at + n))
      && forall p: nat :: size <= p < |f| ==>
        if at <= p < at + n then Mapped(dev, ps, p).Some? ==> Some(f[p]) == Mapped(dev, ps, p) else f[p] == 0
  }

  lemma CutIsSaved(dev: Device, ps: seq<Piece>, size: nat, at: nat, n: nat, f: seq<Byte>, g: seq<Byte>)
    requires HoldsPieces(dev, ps, f) && IsCut(f, size, at, n, g)
    ensures IsSaved(dev, ps, size, at, n, g)
  {
    assert forall p: nat :: p < |g| ==> g[p] == ByteAt(g, p);
  }

  // ---------------------------------------------------------------- the same in the fields of the extents

  lemma CopiedFields(dev: Device, x: Xad)
    ensures CopiedPiece(dev, x)
         == Piece(x.off * dev.blockSize, x.addr * dev.blockSize, x.len * dev.blockSize % 0x1_0000_0000)
    ensures WholePiece(dev, x) == Piece(x.off * dev.blockSize, x.addr * dev.blockSize, x.len * dev.blockSize)
  {
    InBytes(dev, x.off);
    InBytes(dev, x.addr);
    InBytes(dev, x.len);
  }

  /** n bytes into an extent the copy has put the device's bytes behind its address in their place in the file. */
  lemma CopiedByte(dev: Device, x: Xad, before: seq<Byte>, n: nat, f: seq<Byte>, k: nat)
    requires Copied(dev, CopiedPiece(dev, x), before, n, f)
    ensures n <= x.len * dev.blockSize % 0x1_0000_0000
    ensures k < n ==> x.off * dev.blockSize + k < |f|
    ensures k < n && x.addr * dev.blockSize + k < |dev.bytes| ==>
      f[x.off * dev.blockSize + k] == dev.bytes[x.addr * dev.blockSize + k]
  {
    CopiedFields(dev, x);
    var piece := CopiedPiece(dev, x);
    var p: nat := piece.at + k;
    if k < n && piece.from + k < |dev.bytes| {
      assert Source(dev, piece, p) == Some(dev.bytes[piece.from + k]);
      assert Some(ByteAt(f, p)) == Source(dev, piece, p);
    }
  }

  /** The byte at p comes from the last extent whose first length mod 2^32 bytes hold p, as far into it as p is. */
  lemma MappedByte(dev: Device, xads: seq<Xad>, i: nat, p: nat)
    requires i < |xads|
    requires xads[i].off * dev.blockSize <= p
      < xads[i].off * dev.blockSize + xads[i].len * dev.blockSize % 0x1_0000_0000
    requires forall j :: i < j < |xads| ==>
      !(xads[j].off * dev.blockSize <= p
        < xads[j].off * dev.blockSize + xads[j].len * dev.blockSize % 0x1_0000_0000)
    ensures var at := xads[i].addr * dev.blockSize + p - xads[i].off * dev.blockSize;
      Mapped(dev, Pieces(dev, xads), p) == if at < |dev.bytes| then Some(dev.bytes[at]) else None
  {
    var ps := Pieces(dev, xads);
    CopiedFields(dev, xads[i]);
    forall j | i < j < |ps| ensures !Covers(ps[j], p) {
      CopiedFields(dev, xads[j]);
    }
    LastCoverWins(dev, ps, p, i);
  }

  lemma MappedHole(dev: Device, xads: seq<Xad>, p: nat)
    requires forall i :: 0 <= i < |xads| ==>
      !(xads[i].off * dev.blockSize <= p
        < xads[i].off * dev.blockSize + xads[i].len * dev.blockSize % 0x1_0000_0000)
    ensures Mapped(dev, Pieces(dev, xads), p) == Some(0)
  {
    var ps := Pieces(dev, xads);
    forall i | 0 <= i < |ps| ensures !Covers(ps[i], p) {
      CopiedFields(dev, xads[i]);
    }
    NoCover(dev, ps, p);
  }

  /** A copy throws if and only if the last of some extent's chunks begins behind the end of the device. */
  lemma ThrowsByFields(dev: Device, xads: seq<Xad>)
    ensures Throws(dev, Pieces(dev, xads)) <==>
      exists i ::
        && 0 <= i < |xads| && xads[i].len * dev.blockSize % 0x1_0000_0000 > 0
        && xads[i].addr * dev.blockSize + (xads[i].len * dev.blockSize % 0x1_0000_0000 - 1) / 0x1_0000 * 0x1_0000
           > |dev.bytes|
  {
    var ps := Pieces(dev, xads);
    forall i | 0 <= i < |xads|
      ensures var n := xads[i].len * dev.blockSize % 0x1_0000_0000; Copyable(dev, ps[i]) < ps[i].len <==>
        n > 0 && xads[i].addr * dev.blockSize + (n - 1) / 0x1_0000 * 0x1_0000 > |dev.bytes|
    {
      CopiedFields(dev, xads[i]);
      LastChunkThrows(dev, ps[i]);
    }
  }

  lemma LastChunkThrows(dev: Device, x: Piece)
    ensures Copyable(dev, x) < x.len <==>
      x.len > 0 && x.from + (x.len - 1) / BUFFSIZE * BUFFSIZE > |dev.bytes|
  {
  }

  /** What is added up: the first length mod 2^32 bytes of every extent. */
  lemma TotalByFields(dev: Device, xads: seq<Xad>, x: Xad)
    ensures TotalLength(Pieces(dev, [])) == 0
    ensures TotalLength(Pieces(dev, xads + [x]))
         == TotalLength(Pieces(dev, xads)) + x.len * dev.blockSize % 0x1_0000_0000
  {
    CopiedFields(dev, x);
    var n := |xads|;
    assert Pieces(dev, xads + [x])[..n] == Pieces(dev, xads);
  }

  /**
   * A copy that throws in extent k, of which c bytes were copied: the chunk behind them begins behind the end of the
   * device, and the one before did not.  The file then holds the extents before k and those c bytes.
   */
  lemma ThrownByte(dev: Device, xads: seq<Xad>, k: nat, c: nat, i: nat, p: nat)
    requires k < |xads| && !Throws(dev, Pieces(dev, xads[..k]))
    requires c < xads[k].len * dev.blockSize % 0x1_0000_0000 && c % 0x1_0000 == 0
    requires |dev.bytes| < xads[k].addr * dev.blockSize + c
    requires c == 0 || xads[k].addr * dev.blockSize + c <= |dev.bytes| + 0x1_0000
    requires i <= k && xads[i].off * dev.blockSize <= p
      < xads[i].off * dev.blockSize + (if i == k then c else xads[i].len * dev.blockSize % 0x1_0000_0000)
    requires forall j :: i < j < k ==>
      !(xads[j].off * dev.blockSize <= p
        < xads[j].off * dev.blockSize + xads[j].len * dev.blockSize % 0x1_0000_0000)
    requires i < k ==> !(xads[k].off * dev.blockSize <= p < xads[k].off * dev.blockSize + c)
    ensures var at := xads[i].addr * dev.blockSize + p - xads[i].off * dev.blockSize;
      Mapped(dev, Written(dev, Pieces(dev, xads)), p) == if at < |dev.bytes| then Some(dev.bytes[at]) else None
  {
    var ps := Pieces(dev, xads);
    var ws := ps[..k] + [ps[k].(len := c)];
    CopiedFields(dev, xads[k]);
    WrittenBeforeThrow(dev, xads, k, c);
    CopiedFields(dev, xads[i]);
    forall j | i < j < |ws| ensures !Covers(ws[j], p) {
      CopiedFields(dev, xads[j]);
    }
    LastCoverWins(dev, ws, p, i);
  }

  lemma WrittenBeforeThrow(dev: Device, xads: seq<Xad>, k: nat, c: nat)
    requires k < |xads| && !Throws(dev, Pieces(dev, xads[..k]))
    requires var x := CopiedPiece(dev, xads[k]);
      && c < x.len && c % BUFFSIZE == 0 && |dev.bytes| < x.from + c
      && (c == 0 || x.from + c <= |dev.bytes| + BUFFSIZE)
    ensures var ps := Pieces(dev, xads); Written(dev, ps) == ps[..k] + [ps[k].(len := c)]
  {
    var ps := Pieces(dev, xads);
    assert ps[..k] == Pieces(dev, xads[..k]);
    CopyableIs(dev, ps[k], c);
    NextPiece(dev, ps, k);
    WrittenStays(dev, ps, k + 1);
  }

  lemma CopyableIs(dev: Device, x: Piece, c: nat)
    requires c < x.len && c % BUFFSIZE == 0 && |dev.bytes| < x.from + c
    requires c == 0 || x.from + c <= |dev.bytes| + BUFFSIZE
    ensures Copyable(dev, x) == c
  {
  }

  method FilesizeFromXadVector(dev: Device, xads: seq<Xad>) returns (filesize: nat)
    requires |xads| < UINT32
    ensures filesize == TotalLength(Pieces(dev, xads)) < UINT64
  {
    filesize := 0;
    ghost var ps := Pieces(dev, xads);
    for i := 0 to |xads|
      invariant filesize == TotalLength(ps[..i]) <= i * UINT32
    {
      assert ps[..i + 1][..i] == ps[..i];
      filesize := (filesize + CopiedPiece(dev, xads[i]).len) % UINT64;
    }
    assert ps[..|ps|] == ps;
  }

  /** Lengths are whole blocks. */
  predicate InWholeBlocks(dev: Device, n: nat) {
    n == Scaled(dev, InBlocks(dev, n))
  }

  lemma CopiedInWholeBlocks(dev: Device, x: Xad)
    ensures InWholeBlocks(dev, CopiedPiece(dev, x).len)
  {
    var wraps: nat := Scaled(dev, x.len) / UINT32;
    assert CopiedPiece(dev, x).len == Scaled(dev, x.len) - wraps * UINT32;
    if dev.blockSize == 512 {
      assert CopiedPiece(dev, x).len == (x.len - wraps * 0x80_0000) * 512;
    } else if dev.blockSize == 1024 {
      assert CopiedPiece(dev, x).len == (x.len - wraps * 0x40_0000) * 1024;
    } else if dev.blockSize == 2048 {
      assert CopiedPiece(dev, x).len == (x.len - wraps * 0x20_0000) * 2048;
    } else {
      assert CopiedPiece(dev, x).len == (x.len - wraps * 0x10_0000) * 4096;
    }
  }

  lemma WholeBlocksAdd(dev: Device, a: nat, b: nat)
    requires InWholeBlocks(dev, a) && InWholeBlocks(dev, b)
    ensures InWholeBlocks(dev, a + b) && InBlocks(dev, a + b) == InBlocks(dev, a) + InBlocks(dev, b)
  {
  }

  /** The loop over the extents: together they advance the progress by the blocks of the total, unless one throws. */
  method WriteExtents(dev: Device, xads: seq<Xad>, f: OutFile, prog: Progress, buffer: array<Byte>)
    returns (threw: bool)
    requires |xads| < UINT32 && buffer.Length == BUFFSIZE && f.buffer > 0
    requires f.disk == [] && f.tail == [] && prog.count == 0
    modifies f, prog, buffer
    ensures threw <==> Throws(dev, Pieces(dev, xads))
    ensures HoldsPieces(dev, Written(dev, Pieces(dev, xads)), f.Contents())
    ensures !threw ==> IsTail(f.buffer, Pieces(dev, xads), f.tailAt, |f.tail|)
    ensures !threw ==> prog.count == InBlocks(dev, TotalLength(Pieces(dev, xads)))
  {
    ghost var ps := Pieces(dev, xads);
    for i := 0 to |xads|
      invariant AllCopied(dev, f.buffer, ps[..i], f.Contents(), f.tailAt, |f.tail|, prog.count)
    {
      ghost var before, wasAt, was, count := f.Contents(), f.tailAt, f.tail, prog.count;
      threw := WriteExtentToFile(dev, xads[i], f, prog, buffer);
      if threw {
        ExtentThrows(dev, ps, i, before, f.Contents());
        return;
      }
      NextExtentCopied(dev, f.buffer, xads, i, before, wasAt, was, count, f.Contents(), f.tailAt, f.tail);
    }
    assert ps[..|ps|] == ps;
    WrittenWhole(dev, ps);
    return false;
  }

  /** All pieces are in the file, the last of them perhaps not flushed, and in the progress. */
  ghost predicate AllCopied(dev: Device, buffer: nat, ps: seq<Piece>, f: seq<Byte>, at: nat, n: nat, count: nat)
    requires buffer > 0
  {
    && !Throws(dev, ps) && HoldsPieces(dev, ps, f) && IsTail(buffer, ps, at, n)
    && count == InBlocks(dev, TotalLength(ps)) && InWholeBlocks(dev, TotalLength(ps))
  }

  lemma NextExtentCopied(dev: Device, buffer: nat, xads: seq<Xad>, i: nat,
                         before: seq<Byte>, wasAt: nat, was: seq<Byte>, count: nat,
                         f: seq<Byte>, at: nat, tail: seq<Byte>)
    requires buffer > 0 && i < |xads|
    requires AllCopied(dev, buffer, Pieces(dev, xads)[..i], before, wasAt, |was|, count)
    requires var x := CopiedPiece(dev, xads[i]);
      && Copyable(dev, x) == x.len && Copied(dev, x, before, x.len, f)
      && TailAfter(buffer, x, x.len, wasAt, was, at, tail)
    ensures AllCopied(dev, buffer, Pieces(dev, xads)[..i + 1], f, at, |tail|,
                      count + InBlocks(dev, CopiedPiece(dev, xads[i]).len))
  {
    var ps := Pieces(dev, xads);
    HoldsNext(dev, ps[..i], ps[i], ps[i].len, before, f);
    NextPiece(dev, ps, i);
    TailNext(buffer, ps, i, wasAt, was, at, tail);
    CopiedInWholeBlocks(dev, xads[i]);
    WholeBlocksAdd(dev, TotalLength(ps[..i]), ps[i].len);
  }

  lemma ExtentThrows(dev: Device, ps: seq<Piece>, i: nat, before: seq<Byte>, f: seq<Byte>)
    requires i < |ps| && !Throws(dev, ps[..i]) && HoldsPieces(dev, ps[..i], before)
    requires Copyable(dev, ps[i]) < ps[i].len && Copied(dev, ps[i], before, Copyable(dev, ps[i]), f)
    ensures Throws(dev, ps) && HoldsPieces(dev, Written(dev, ps), f)
  {
    HoldsNext(dev, ps[..i], ps[i], Copyable(dev, ps[i]), before, f);
    NextPiece(dev, ps, i);
    WrittenStays(dev, ps, i + 1);
  }

  lemma TailNext(buffer: nat, ps: seq<Piece>, i: nat, wasAt: nat, was: seq<Byte>, at: nat, tail: seq<Byte>)
    requires buffer > 0 && i < |ps| && IsTail(buffer, ps[..i], wasAt, |was|)
    requires TailAfter(buffer, ps[i], ps[i].len, wasAt, was, at, tail)
    ensures IsTail(buffer, ps[..i + 1], at, |tail|)
  {
    assert ps[..i + 1][..i] == ps[..i] && ps[..i + 1][i] == ps[i];
  }

  lemma NextPiece(dev: Device, ps: seq<Piece>, i: nat)
    requires i < |ps| && !Throws(dev, ps[..i])
    ensures var n := Copyable(dev, ps[i]);
      && (Throws(dev, ps[..i + 1]) <==> n < ps[i].len)
      && Written(dev, ps[..i + 1]) == ps[..i] + [ps[i].(len := n)]
      && (n == ps[i].len ==> ps[..i] + [ps[i].(len := n)] == ps[..i + 1])
      && TotalLength(ps[..i + 1]) == TotalLength(ps[..i]) + ps[i].len
  {
    var next := ps[..i + 1];
    assert next[..i] == ps[..i] && next[i] == ps[i];
    if Copyable(dev, ps[i]) < ps[i].len {
      assert Throws(dev, next);
    }
  }

  /** Behind a throw nothing more is written. */
  lemma {:induction false} WrittenStays(dev: Device, ps: seq<Piece>, i: nat)
    requires i <= |ps| && Throws(dev, ps[..i])
    ensures Throws(dev, ps) && Written(dev, ps) == Written(dev, ps[..i])
  {
    if i == |ps| {
      assert ps[..i] == ps;
    } else {
      var n := |ps| - 1;
      assert ps[..n][..i] == ps[..i];
      WrittenStays(dev, ps[..n], i);
      var k :| 0 <= k < n && Copyable(dev, ps[..n][k]) < ps[..n][k].len;
      assert ps[k] == ps[..n][k];
    }
  }

  lemma WrittenWhole(dev: Device, ps: seq<Piece>)
    requires !Throws(dev, ps)
    ensures Written(dev, ps) == ps
  {
    if ps != [] {
      var n := |ps| - 1;
      assert forall k :: 0 <= k < n ==> ps[..n][k] == ps[k];
      assert Copyable(dev, ps[n]) == ps[n].len && ps == ps[..n] + [ps[n]];
    }
  }

  /** How saving a file ends: its contents, and the part of them that was in the stream's buffer at the truncation. */
  ghost predicate Outcome(dev: Device, buffer: nat, root: XtPage, xads: seq<Xad>, size: int, threw: bool,
                          f: seq<Byte>, at: nat, n: nat)
    requires buffer > 0
  {
    var ps := Pieces(dev, xads);
    if root.nextIndex <= 2 then !threw && f == []
    else if Throws(dev, ps) then threw && HoldsPieces(dev, Written(dev, ps), f)
    else !threw && IsTail(buffer, ps, at, n) && IsSaved(dev, ps, size, at, n, f)
  }

  /**
   * A byte of a saved file below its size (any byte when the size is negative) is the device byte that the last extent
   * holding p leads to, ...
   */
  lemma SavedByte(dev: Device, buffer: nat, root: XtPage, xads: seq<Xad>, size: int, f: seq<Byte>, at: nat, n: nat,
                  i: nat, p: nat)
    requires buffer > 0 && Outcome(dev, buffer, root, xads, size, false, f, at, n) && root.nextIndex > 2
    requires i < |xads| && p < |f| && (size < 0 || p < size)
    requires xads[i].off * dev.blockSize <= p
      < xads[i].off * dev.blockSize + xads[i].len * dev.blockSize % 0x1_0000_0000
    requires forall j :: i < j < |xads| ==>
      !(xads[j].off * dev.blockSize <= p
        < xads[j].off * dev.blockSize + xads[j].len * dev.blockSize % 0x1_0000_0000)
    requires xads[i].addr * dev.blockSize + p - xads[i].off * dev.blockSize < |dev.bytes|
    ensures f[p] == dev.bytes[xads[i].addr * dev.blockSize + p - xads[i].off * dev.blockSize]
  {
    MappedByte(dev, xads, i, p);
    assert f[p] == ByteAt(f, p);
  }

  /** ...and 0 where no extent holds p. */
  lemma SavedHole(dev: Device, buffer: nat, root: XtPage, xads: seq<Xad>, size: int, f: seq<Byte>, at: nat, n: nat,
                  p: nat)
    requires buffer > 0 && Outcome(dev, buffer, root, xads, size, false, f, at, n) && root.nextIndex > 2
    requires p < |f| && (size < 0 || p < size)
    requires forall i :: 0 <= i < |xads| ==>
      !(xads[i].off * dev.blockSize <= p
        < xads[i].off * dev.blockSize + xads[i].len * dev.blockSize % 0x1_0000_0000)
    ensures f[p] == 0
  {
    MappedHole(dev, xads, p);
    assert f[p] == ByteAt(f, p);
  }

  /** The contents in the fields of the extents alone: each byte is the one its last extent leads to, or 0. */
  ghost predicate ExtentsAreRead(dev: Device, xads: seq<Xad>, size: int, f: seq<Byte>) {
    && |f| >= size
    && (forall i: nat, p: nat ::
      && i < |xads| && p < |f| && (size < 0 || p < size)
      && xads[i].off * dev.blockSize <= p
         < xads[i].off * dev.blockSize + xads[i].len * dev.blockSize % 0x1_0000_0000
      && (forall j :: i < j < |xads| ==>
        !(xads[j].off * dev.blockSize <= p
          < xads[j].off * dev.blockSize + xads[j].len * dev.blockSize % 0x1_0000_0000))
      && xads[i].addr * dev.blockSize + p - xads[i].off * dev.blockSize < |dev.bytes|
      ==> f[p] == dev.bytes[xads[i].addr * dev.blockSize + p - xads[i].off * dev.blockSize])
    && (forall p: nat ::
      && p < |f| && (size < 0 || p < size)
      && (forall i :: 0 <= i < |xads| ==>
        !(xads[i].off * dev.blockSize <= p
          < xads[i].off * dev.blockSize + xads[i].len * dev.blockSize % 0x1_0000_0000))
      ==> f[p] == 0)
  }

  lemma SavedBytes(dev: Device, buffer: nat, root: XtPage, xads: seq<Xad>, size: int, f: seq<Byte>, at: nat, n: nat)
    requires buffer > 0 && Outcome(dev, buffer, root, xads, size, false, f, at, n) && root.nextIndex > 2
    ensures ExtentsAreRead(dev, xads, size, f)
  {
    forall i: nat, p: nat |
      && i < |xads| && p < |f| && (size < 0 || p < size)
      && xads[i].off * dev.blockSize <= p
         < xads[i].off * dev.blockSize + xads[i].len * dev.blockSize % 0x1_0000_0000
      && (forall j :: i < j < |xads| ==>
        !(xads[j].off * dev.blockSize <= p
          < xads[j].off * dev.blockSize + xads[j].len * dev.blockSize % 0x1_0000_0000))
      && xads[i].addr * dev.blockSize + p - xads[i].off * dev.blockSize < |dev.bytes|
      ensures f[p] == dev.bytes[xads[i].addr * dev.blockSize + p - xads[i].off * dev.blockSize]
    {
      SavedByte(dev, buffer, root, xads, size, f, at, n, i, p);
    }
    forall p: nat |
      && p < |f| && (size < 0 || p < size)
      && (forall i :: 0 <= i < |xads| ==>
        !(xads[i].off * dev.blockSize <= p
          < xads[i].off * dev.blockSize + xads[i].len * dev.blockSize % 0x1_0000_0000))
      ensures f[p] == 0
    {
      SavedHole(dev, buffer, root, xads, size, f, at, n, p);
    }
  }

  /**
   * Saves one file.  A root without used entries leaves it empty, whatever its size, and a read that throws leaves
   * what has been written until then.
   */
  method SaveFile(dev: Device, node: Inode, streamBuffer: nat, ghost ts: seq<XTree>)
    returns (threw: bool, f: OutFile, prog: Progress?, ghost at: nat, ghost n: nat)
    requires node.Valid() && node.dev == dev.bytes && streamBuffer > 0
    requires var root := ParseXtPage(node.ino.din.btroot); RootRead(dev, root, ts) && |RootXads(root, ts)| < UINT32
    modifies node`dinode, node`dinodeAvailable
    ensures node.Valid() && !node.dinodeAvailable
    ensures var root := ParseXtPage(node.ino.din.btroot);
      Outcome(dev, streamBuffer, root, RootXads(root, ts), node.ino.din.size, threw, f.disk, at, n)
    ensures
      var root := ParseXtPage(node.ino.din.btroot);
      !threw && root.nextIndex > 2 ==> ExtentsAreRead(dev, RootXads(root, ts), node.ino.din.size, f.disk)
    ensures prog != null && !threw ==>
      prog.count == prog.expected
      == InBlocks(dev, TotalLength(Pieces(dev, RootXads(ParseXtPage(node.ino.din.btroot), ts))))
  {
    f := new OutFile(streamBuffer);
    var dinode := node.GetDinode();
    var xtree := ParseXtPage(dinode.btroot);
    at, n := 0, 0;
    if xtree.nextIndex <= 2 {
      node.FreeDinode();
      return false, f, null, at, n;
    }
    threw, prog := WriteContents(dev, xtree, f, ts);
    if !threw {
      dinode := node.GetDinode();
      at, n := TruncateTo(dev, Pieces(dev, RootXads(xtree, ts)), dinode.size, f);
    }
    node.FreeDinode();
    f.Close();
    if !threw {
      SavedBytes(dev, streamBuffer, xtree, RootXads(xtree, ts), dinode.size, f.disk, at, n);
    }
  }

  /** ftruncate on the descriptor; what is still in the stream's buffer follows at the close. */
  method TruncateTo(dev: Device, ghost ps: seq<Piece>, size: int, f: OutFile) returns (ghost at: nat, ghost n: nat)
    requires HoldsPieces(dev, ps, f.Contents()) && f.buffer > 0 && IsTail(f.buffer, ps, f.tailAt, |f.tail|)
    modifies f`disk
    ensures IsTail(f.buffer, ps, at, n) && IsSaved(dev, ps, size, at, n, f.Contents())
  {
    at, n := f.tailAt, |f.tail|;
    if size >= 0 {
      TailSurvives(f.disk, f.tailAt, f.tail, size);
      CutIsSaved(dev, ps, size, at, n, f.Contents(), Overwrite(Truncated(f.disk, size), f.tailAt, f.tail));
    }
    f.Truncate(size);
  }

  /** Collects the extents, announces their total, and writes them. */
  method WriteContents(dev: Device, root: XtPage, f: OutFile, ghost ts: seq<XTree>)
    returns (threw: bool, prog: Progress)
    requires RootRead(dev, root, ts) && |RootXads(root, ts)| < UINT32 && f.buffer > 0 && f.disk == [] && f.tail == []
    modifies f
    ensures var ps := Pieces(dev, RootXads(root, ts));
      && (threw <==> Throws(dev, ps)) && HoldsPieces(dev, Written(dev, ps), f.Contents())
      && (!threw ==> Written(dev, ps) == ps && IsTail(f.buffer, ps, f.tailAt, |f.tail|))
      && (!threw ==> prog.count == prog.expected == InBlocks(dev, TotalLength(ps)))
    ensures fresh(prog)
  {
    var v := new XadList();
    CollectXads(dev, root, v, ts);
    assert v.xads == RootXads(root, ts);
    var filesize := FilesizeFromXadVector(dev, v.xads);
    prog := new Progress(InBlocks(dev, filesize));
    var buffer := new Byte[BUFFSIZE](_ => 0);
    threw := WriteExtents(dev, v.xads, f, prog, buffer);
    if !threw {
      WrittenWhole(dev, Pieces(dev, v.xads));
    }
  }
}
