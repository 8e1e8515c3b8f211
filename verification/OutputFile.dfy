/** The recovered file as it is written through a buffered stream: seeks past the end leave holes that read as zeros. */
module OutputFile {
  import opened Bytes

  function ByteAt(f: seq<Byte>, p: nat): Byte {
    if p < |f| then f[p] else 0
  }

  function Max(a: nat, b: nat): nat {
    if a < b then b else a
  }

  /** The file after d has been written at the given position. */
  function Overwrite(f: seq<Byte>, at: nat, d: seq<Byte>): (r: seq<Byte>)
    ensures |r| == if d == [] then |f| else Max(|f|, at + |d|)
  {
    if d == [] then f
    else seq(Max(|f|, at + |d|), p requires 0 <= p => OverwrittenByte(f, at, d, p))
  }

  function OverwrittenByte(f: seq<Byte>, at: nat, d: seq<Byte>, p: nat): Byte {
    if at <= p < at + |d| then d[p - at] else ByteAt(f, p)
  }

  lemma OverwriteByte(f: seq<Byte>, at: nat, d: seq<Byte>, p: nat)
    ensures ByteAt(Overwrite(f, at, d), p) == if at <= p < at + |d| then d[p - at] else ByteAt(f, p)
  {
    if d != [] && p < |Overwrite(f, at, d)| {
      assert Overwrite(f, at, d)[p] == OverwrittenByte(f, at, d, p);
    }
  }

  /** g is f with d written at the given position, byte by byte. */
  ghost predicate IsWritten(f: seq<Byte>, at: nat, d: seq<Byte>, g: seq<Byte>) {
    && |g| == (if d == [] then |f| else Max(|f|, at + |d|))
    && forall p: nat :: ByteAt(g, p) == if at <= p < at + |d| then d[p - at] else ByteAt(f, p)
  }

  /** Writing d in two parts is writing d. */
  lemma WrittenInParts(f: seq<Byte>, at: nat, d: seq<Byte>, k: nat)
    requires k <= |d|
    ensures IsWritten(f, at, d, Overwrite(Overwrite(f, at, d[..k]), at + k, d[k..]))
  {
    var g := Overwrite(f, at, d[..k]);
    forall p: nat
      ensures ByteAt(Overwrite(g, at + k, d[k..]), p) == if at <= p < at + |d| then d[p - at] else ByteAt(f, p)
    {
      OverwriteByte(g, at + k, d[k..], p);
      OverwriteByte(f, at, d[..k], p);
    }
  }

  function Truncated(f: seq<Byte>, size: int): seq<Byte> {
    if size < 0 then f
    else if size <= |f| then f[..size]
    else f + seq(size - |f|, _ => 0)
  }

  /** g holds the bytes of f below size and, beyond it, only the n bytes at the given position. */
  ghost predicate IsCut(f: seq<Byte>, size: nat, at: nat, n: nat, g: seq<Byte>) {
    && |g| == (if n == 0 then size else Max(size, at + n))
    && forall p: nat :: ByteAt(g, p) == if p < size || at <= p < at + n then ByteAt(f, p) else 0
  }

  /** A tail flushed after the truncation grows the file again. */
  lemma TailSurvives(disk: seq<Byte>, at: nat, tail: seq<Byte>, size: nat)
    ensures IsCut(Overwrite(disk, at, tail), size, at, |tail|, Overwrite(Truncated(disk, size), at, tail))
  {
    var cut := Truncated(disk, size);
    forall p: nat
      ensures ByteAt(Overwrite(cut, at, tail), p)
           == if p < size || at <= p < at + |tail| then ByteAt(Overwrite(disk, at, tail), p) else 0
    {
      OverwriteByte(cut, at, tail, p);
      OverwriteByte(disk, at, tail, p);
      assert ByteAt(cut, p) == if p < size then ByteAt(disk, p) else 0;
    }
  }

  /**
   * A write of len bytes may leave the last n of them in the stream's buffer of the given size.  Which n a library
   * chooses is open, except that whole buffers are written through.
   */
  predicate MayPend(buffer: nat, at: nat, len: nat, n: nat)
    requires buffer > 0
  {
    n <= len && n <= buffer && (Fills(buffer, at) && Fills(buffer, len) ==> n == 0)
  }

  /** n bytes are a number of whole buffers. */
  predicate Fills(buffer: nat, n: nat)
    requires buffer > 0
    decreases n
  {
    n == 0 || (n >= buffer && Fills(buffer, n - buffer))
  }

  /** q is the number of whole buffers in n bytes, and they are all of them. */
  lemma {:induction false} WholeBuffers(buffer: nat, n: nat) returns (q: nat)
    requires buffer > 0
    ensures q * buffer <= n < q * buffer + buffer
    ensures Fills(buffer, n) <==> n == q * buffer
    decreases n
  {
    if n < buffer {
      q := 0;
    } else {
      var rest := WholeBuffers(buffer, n - buffer);
      q := rest + 1;
      assert q * buffer == rest * buffer + buffer;
    }
  }

  lemma {:induction false} FillsSum(buffer: nat, n: nat, m: nat)
    requires buffer > 0 && Fills(buffer, n) && Fills(buffer, m)
    ensures Fills(buffer, n + m)
    decreases n
  {
    if n > 0 {
      FillsSum(buffer, n - buffer, m);
    }
  }

  /** A stdio stream: what the descriptor sees, and a tail of the last write that may still be in its buffer. */
  class OutFile {
    const buffer: nat
    var disk: seq<Byte>
    var tailAt: nat
    var tail: seq<Byte>
    var pos: nat

    /** Opened for writing from scratch. */
    constructor (buffer: nat)
      requires buffer > 0
      ensures disk == [] && tail == [] && this.buffer == buffer
    {
      this.buffer := buffer;
      disk, tailAt, tail, pos := [], 0, [], 0;
    }

    /** What has been written. */
    ghost function Contents(): seq<Byte>
      reads this
    {
      Overwrite(disk, tailAt, tail)
    }

    method Flush()
      modifies this`disk, this`tail
      ensures disk == old(Contents()) && tail == []
    {
      disk, tail := Overwrite(disk, tailAt, tail), [];
    }

    method Seek(p: nat)
      modifies this`disk, this`tail, this`pos
      ensures Contents() == old(Contents()) && tail == [] && pos == p
    {
      Flush();
      pos := p;
    }

    /** The stream decides how much of the data stays in its buffer. */
    method Write(d: seq<Byte>)
      requires buffer > 0
      modifies this
      ensures IsWritten(old(Contents()), old(pos), d, Contents()) && pos == old(pos) + |d|
      ensures tailAt + |tail| == old(pos) + |d| && MayPend(buffer, old(pos), |d|, |tail|)
    {
      Flush();
      var k := WrittenThrough(pos, |d|);
      WrittenInParts(disk, pos, d, k);
      disk := Overwrite(disk, pos, d[..k]);
      tailAt, tail := pos + k, d[k..];
      pos := pos + |d|;
    }

    /** How much of a write does not stay in the buffer. */
    method WrittenThrough(at: nat, len: nat) returns (k: nat)
      requires buffer > 0
      ensures k <= len && MayPend(buffer, at, len, len - k)
    {
      assert MayPend(buffer, at, len, 0);
      var n: nat :| n <= len && MayPend(buffer, at, len, n);
      k := len - n;
    }

    /** ftruncate acts on the descriptor; a negative size is refused and changes nothing. */
    method Truncate(size: int)
      modifies this`disk
      ensures disk == Truncated(old(disk), size)
    {
      disk := Truncated(disk, size);
    }

    method Close()
      modifies this`disk, this`tail
      ensures disk == old(Contents()) && tail == []
    {
      Flush();
    }
  }
}
