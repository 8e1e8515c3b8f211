/** What the recovered contents mean: the last extent wins, a 32-bit wrap loses bytes, sane extents have no order. */
module FileContents {
  import opened Bytes
  import opened Wrappers
  import opened BlockDevice
  import opened FileXtree
  import opened FileRecovery

  // ---------------------------------------------------------------- the last extent wins

  /** b is the byte of the last piece that covers p, or 0 when none does. */
  predicate IsLastByte(dev: Device, ps: seq<Piece>, p: nat, b: Option<Byte>) {
    && ((forall i :: 0 <= i < |ps| ==> !Covers(ps[i], p)) ==> b == Some(0))
    && forall i :: 0 <= i < |ps| && Covers(ps[i], p) && (forall j :: i < j < |ps| ==> !Covers(ps[j], p)) ==>
      b == Source(dev, ps[i], p)
  }

  lemma {:induction false} LastExtentWins(dev: Device, ps: seq<Piece>, p: nat)
    ensures IsLastByte(dev, ps, p, Mapped(dev, ps, p))
  {
    if forall i :: 0 <= i < |ps| ==> !Covers(ps[i], p) {
      NoCover(dev, ps, p);
    }
    forall i | 0 <= i < |ps| && Covers(ps[i], p) && forall j :: i < j < |ps| ==> !Covers(ps[j], p)
      ensures Mapped(dev, ps, p) == Source(dev, ps[i], p)
    {
      LastCoverWins(dev, ps, p, i);
    }
  }

  /** In the device every byte is determined. */
  lemma {:induction false} InDeviceMapped(dev: Device, ps: seq<Piece>, p: nat)
    requires AllInDevice(dev, ps)
    ensures Mapped(dev, ps, p).Some?
  {
    if ps != [] {
      InDeviceMapped(dev, ps[..|ps| - 1], p);
    }
  }

  /** And no copy throws. */
  lemma InDeviceNeverThrows(dev: Device, ps: seq<Piece>)
    requires AllInDevice(dev, ps)
    ensures !Throws(dev, ps) && Written(dev, ps) == ps
  {
    forall i | 0 <= i < |ps| ensures Copyable(dev, ps[i]) == ps[i].len {
      assert InDevice(dev, ps[i]);
    }
    WrittenWhole(dev, ps);
  }

  // ---------------------------------------------------------------- extents that cover p agree

  /** All pieces that cover p read it from the same place. */
  ghost predicate AgreeOn(ps: seq<Piece>, p: nat) {
    forall x, y :: x in ps && y in ps && Covers(x, p) && Covers(y, p) ==> x.from - x.at == y.from - y.at
  }

  predicate Disjoint(ps: seq<Piece>) {
    forall i, j :: 0 <= i < j < |ps| ==> ps[i].at + ps[i].len <= ps[j].at || ps[j].at + ps[j].len <= ps[i].at
  }

  lemma DisjointAgree(ps: seq<Piece>, p: nat)
    requires Disjoint(ps)
    ensures AgreeOn(ps, p)
  {
    forall x, y | x in ps && y in ps && Covers(x, p) && Covers(y, p) ensures x == y {
      var i :| 0 <= i < |ps| && ps[i] == x;
      var j :| 0 <= j < |ps| && ps[j] == y;
      assert i == j;
    }
  }

  /** Then any of them gives the byte. */
  lemma {:induction false} AnyCoverWins(dev: Device, ps: seq<Piece>, p: nat, x: Piece)
    requires AgreeOn(ps, p) && x in ps && Covers(x, p)
    ensures Mapped(dev, ps, p) == Source(dev, x, p)
  {
    var n := |ps| - 1;
    if !Covers(ps[n], p) {
      assert x in ps[..n];
      AnyCoverWins(dev, ps[..n], p, x);
    }
  }

  // ---------------------------------------------------------------- the 32-bit product

  /** The product wraps for extents of 4 GiB or more. */
  predicate Wraps(dev: Device, x: Xad) {
    Scaled(dev, x.len) >= UINT32
  }

  lemma CopiedWithin(dev: Device, x: Xad, p: nat)
    ensures Covers(CopiedPiece(dev, x), p) ==> Covers(WholePiece(dev, x), p)
  {
  }

  lemma OnlyCover(ps: seq<Piece>, i: nat, k: nat, p: nat)
    requires Disjoint(ps) && i < |ps| && k < |ps| && Covers(ps[i], p)
    ensures Covers(ps[k], p) ==> i == k
  {
  }

  lemma CopiedDisjoint(dev: Device, xads: seq<Xad>)
    requires Disjoint(WholePieces(dev, xads))
    ensures Disjoint(Pieces(dev, xads))
  {
    var ws, ps := WholePieces(dev, xads), Pieces(dev, xads);
    forall i, j | 0 <= i < j < |ps| ensures ps[i].at + ps[i].len <= ps[j].at || ps[j].at + ps[j].len <= ps[i].at {
      assert ps[i].at == ws[i].at && ps[j].at == ws[j].at;
      CopiedShorter(dev, xads[i]);
      CopiedShorter(dev, xads[j]);
    }
  }

  lemma CopiedShorter(dev: Device, x: Xad)
    ensures CopiedPiece(dev, x).len <= WholePiece(dev, x).len
  {
  }

  lemma DisjointByte(dev: Device, ps: seq<Piece>, i: nat, p: nat)
    requires Disjoint(ps) && i < |ps| && Covers(ps[i], p)
    ensures Mapped(dev, ps, p) == Source(dev, ps[i], p)
  {
    DisjointAgree(ps, p);
    AnyCoverWins(dev, ps, p, ps[i]);
  }

  /** Exactly this of the bytes that a file's extents describe survives: the first length mod 2^32 of each extent. */
  lemma WrapLosesTheRest(dev: Device, xads: seq<Xad>, i: nat, p: nat)
    requires Disjoint(WholePieces(dev, xads)) && i < |xads| && Covers(WholePieces(dev, xads)[i], p)
    ensures Mapped(dev, WholePieces(dev, xads), p) == Source(dev, WholePieces(dev, xads)[i], p)
    ensures Mapped(dev, Pieces(dev, xads), p)
         == if Covers(Pieces(dev, xads)[i], p) then Source(dev, WholePieces(dev, xads)[i], p) else Some(0)
  {
    var ws, ps := WholePieces(dev, xads), Pieces(dev, xads);
    DisjointByte(dev, ws, i, p);
    CopiedDisjoint(dev, xads);
    if Covers(ps[i], p) {
      DisjointByte(dev, ps, i, p);
    } else {
      forall k | 0 <= k < |ps| ensures !Covers(ps[k], p) {
        CopiedWithin(dev, xads[k], p);
        OnlyCover(ws, i, k, p);
      }
      NoCover(dev, ps, p);
    }
  }

  /** The extents hold no zero byte, so that a lost byte shows. */
  ghost predicate NoZeros(dev: Device, xads: seq<Xad>) {
    forall i: nat, p: nat :: i < |xads| && Covers(WholePieces(dev, xads)[i], p) ==>
      Source(dev, WholePieces(dev, xads)[i], p) != Some(0)
  }

  /** Every extent whose product wraps is still copied as far as the file goes. */
  predicate WrapsBehind(dev: Device, xads: seq<Xad>, size: nat) {
    forall i :: 0 <= i < |xads| && Wraps(dev, xads[i]) ==>
      size <= CopiedPiece(dev, xads[i]).at + CopiedPiece(dev, xads[i]).len
  }

  /** A byte of the file is lost to a wrap only where an extent's copy ends before the file does. */
  lemma WholeWhereCopied(dev: Device, xads: seq<Xad>, size: nat, p: nat)
    requires Disjoint(WholePieces(dev, xads)) && WrapsBehind(dev, xads, size) && p < size
    ensures Mapped(dev, Pieces(dev, xads), p) == Mapped(dev, WholePieces(dev, xads), p)
  {
    var ws, ps := WholePieces(dev, xads), Pieces(dev, xads);
    if i :| 0 <= i < |xads| && Covers(ws[i], p) {
      WrapLosesTheRest(dev, xads, i, p);
      assert Wraps(dev, xads[i]) || ps[i] == ws[i];
    } else {
      forall k | 0 <= k < |ps| ensures !Covers(ps[k], p) {
        CopiedWithin(dev, xads[k], p);
        assert !Covers(ws[k], p);
      }
      NoCover(dev, ps, p);
      NoCover(dev, ws, p);
    }
  }

  /**
   * The bytes of the recovered file are the ones the extents describe if and only if no product wraps, except in
   * extents that are copied as far as the file goes.
   */
  lemma WholeIffWrapsBehind(dev: Device, xads: seq<Xad>, size: nat, f: seq<Byte>)
    requires AllInDevice(dev, WholePieces(dev, xads)) && Disjoint(WholePieces(dev, xads)) && NoZeros(dev, xads)
    requires HasBytes(dev, Pieces(dev, xads), size, f)
    ensures HasBytes(dev, WholePieces(dev, xads), size, f) <==> WrapsBehind(dev, xads, size)
  {
    var ws, ps := WholePieces(dev, xads), Pieces(dev, xads);
    if WrapsBehind(dev, xads, size) {
      forall p: nat | p < size ensures Mapped(dev, ws, p) == Mapped(dev, ps, p) {
        WholeWhereCopied(dev, xads, size, p);
      }
    } else {
      var i :| 0 <= i < |xads| && Wraps(dev, xads[i])
        && CopiedPiece(dev, xads[i]).at + CopiedPiece(dev, xads[i]).len < size;
      var p := CopiedPiece(dev, xads[i]).at + CopiedPiece(dev, xads[i]).len;
      assert ws[i] == WholePiece(dev, xads[i]) && ps[i] == CopiedPiece(dev, xads[i]);
      WrapLosesTheRest(dev, xads, i, p);
      InDeviceMapped(dev, ws, p);
      assert f[p] == 0;
    }
  }

  /** An extent of 2^20 + 1 blocks of 4096 bytes is copied for one block: a file of up to 4096 bytes comes out right. */
  lemma WrapAtTheEnd(dev: Device, addr: nat, size: nat, f: seq<Byte>)
    requires dev.blockSize == 4096
    requires var xads := [Xad(0, 0x10_0001, addr)];
      && AllInDevice(dev, WholePieces(dev, xads)) && NoZeros(dev, xads)
      && HasBytes(dev, Pieces(dev, xads), size, f)
    ensures Wraps(dev, Xad(0, 0x10_0001, addr))
    ensures HasBytes(dev, WholePieces(dev, [Xad(0, 0x10_0001, addr)]), size, f) <==> size <= 4096
  {
    WholeIffWrapsBehind(dev, [Xad(0, 0x10_0001, addr)], size, f);
  }

  // ---------------------------------------------------------------- xads_sane

  predicate AddressesOrdered(xads: seq<Xad>) {
    forall i, j :: 0 <= i < j < |xads| ==> xads[i].addr <= xads[j].addr
  }

  predicate NoOverlap(xads: seq<Xad>) {
    forall i, j :: 0 <= i < j < |xads| ==> xads[i].off + xads[i].len <= xads[j].off
  }

  /** The size test compares unsigned 64-bit numbers. */
  predicate SizeFits(dev: Device, xads: seq<Xad>, size: int) {
    TotalLength(Pieces(dev, xads)) <= (size + dev.blockSize) % 0x1_0000_0000_0000_0000
  }

  predicate IsSane(dev: Device, xads: seq<Xad>, size: int) {
    AddressesOrdered(xads) && SizeFits(dev, xads, size) && NoOverlap(xads)
  }

  /** The loop counters are 16 bits wide, and the first extent is read unconditionally. */
  method XadsSane(dev: Device, xads: seq<Xad>, size: int) returns (sane: bool)
    requires 1 <= |xads| <= 0xFFFF
    ensures sane <==> IsSane(dev, xads, size)
  {
    var ordered, filesize := CheckAddresses(dev, xads);
    if !ordered || filesize > (size + dev.blockSize) % UINT64 {
      return false;
    }
    sane := CheckOverlaps(xads);
  }

  method CheckAddresses(dev: Device, xads: seq<Xad>) returns (ordered: bool, filesize: nat)
    requires 1 <= |xads| <= 0xFFFF
    ensures ordered <==> AddressesOrdered(xads)
    ensures ordered ==> filesize == TotalLength(Pieces(dev, xads))
  {
    var prev := xads[0].addr;
    filesize := CopiedPiece(dev, xads[0]).len;
    ghost var ps := Pieces(dev, xads);
    assert ps[..1][..0] == [];
    var i := 1;
    while i < |xads|
      invariant 1 <= i <= |xads| && prev == xads[i - 1].addr
      invariant AddressesOrdered(xads[..i])
      invariant filesize == TotalLength(ps[..i]) <= i * UINT32
    {
      if prev > xads[i].addr {
        assert xads[i - 1].addr > xads[i].addr;
        return false, filesize;
      }
      prev := xads[i].addr;
      assert ps[..i + 1][..i] == ps[..i];
      filesize := (filesize + CopiedPiece(dev, xads[i]).len) % UINT64;
      i := (i + 1) % 0x1_0000;
    }
    assert ps[..|ps|] == ps && xads[..i] == xads;
    return true, filesize;
  }

  method CheckOverlaps(xads: seq<Xad>) returns (sane: bool)
    requires |xads| <= 0xFFFF
    ensures sane <==> NoOverlap(xads)
  {
    var i := 0;
    while i < |xads|
      invariant 0 <= i <= |xads|
      invariant forall k, j :: 0 <= k < i && k < j < |xads| ==> xads[k].off + xads[k].len <= xads[j].off
    {
      var j := i + 1;
      while j < |xads|
        invariant i < j <= |xads|
        invariant forall k :: i < k < j ==> xads[i].off + xads[i].len <= xads[k].off
      {
        if xads[i].off + xads[i].len > xads[j].off {
          return false;
        }
        j := (j + 1) % 0x1_0000;
      }
      i := (i + 1) % 0x1_0000;
    }
    return true;
  }

  /** The quadratic overlap test decides no more than comparing neighbours would. */
  lemma NeighboursSuffice(xads: seq<Xad>)
    ensures NoOverlap(xads) <==>
      forall i {:trigger xads[i]} :: 0 <= i < |xads| - 1 ==> xads[i].off + xads[i].len <= xads[i + 1].off
  {
    if forall i {:trigger xads[i]} :: 0 <= i < |xads| - 1 ==> xads[i].off + xads[i].len <= xads[i + 1].off {
      forall i, j | 0 <= i < j < |xads| ensures xads[i].off + xads[i].len <= xads[j].off {
        OffsetsGrow(xads, i + 1, j);
      }
    }
  }

  lemma {:induction false} OffsetsGrow(xads: seq<Xad>, i: nat, j: nat)
    requires i <= j < |xads|
    requires forall i {:trigger xads[i]} :: 0 <= i < |xads| - 1 ==> xads[i].off + xads[i].len <= xads[i + 1].off
    ensures xads[i].off <= xads[j].off
    decreases j - i
  {
    if i < j {
      OffsetsGrow(xads, i + 1, j);
    }
  }

  lemma EndsBefore(dev: Device, x: Xad, y: Xad)
    requires x.off + x.len <= y.off
    ensures CopiedPiece(dev, x).at + CopiedPiece(dev, x).len <= CopiedPiece(dev, y).at
  {
    assert Scaled(dev, x.len) % UINT32 <= Scaled(dev, x.len);
  }

  lemma SaneIsDisjoint(dev: Device, xads: seq<Xad>)
    requires NoOverlap(xads)
    ensures Disjoint(Pieces(dev, xads))
  {
    var ps := Pieces(dev, xads);
    forall i, j | 0 <= i < j < |ps| ensures ps[i].at + ps[i].len <= ps[j].at {
      EndsBefore(dev, xads[i], xads[j]);
    }
  }

  // ---------------------------------------------------------------- the order of writing

  lemma SameElements<T>(s: seq<T>, t: seq<T>)
    requires multiset(s) == multiset(t)
    ensures forall x :: x in s <==> x in t
  {
    assert forall x :: x in s <==> x in multiset(s);
    assert forall x :: x in t <==> x in multiset(t);
  }

  lemma PiecesMembers(dev: Device, xads: seq<Xad>, x: Piece)
    ensures x in Pieces(dev, xads) <==> exists a :: a in xads && CopiedPiece(dev, a) == x
  {
    if x in Pieces(dev, xads) {
      var i :| 0 <= i < |Pieces(dev, xads)| && Pieces(dev, xads)[i] == x;
      assert xads[i] in xads;
    }
    if a :| a in xads && CopiedPiece(dev, a) == x {
      var i :| 0 <= i < |xads| && xads[i] == a;
      assert Pieces(dev, xads)[i] == x;
    }
  }

  lemma SameCovers(dev: Device, ps: seq<Piece>, qs: seq<Piece>, p: nat)
    requires AgreeOn(ps, p) && forall x :: x in ps <==> x in qs
    ensures Mapped(dev, ps, p) == Mapped(dev, qs, p)
  {
    if x :| x in ps && Covers(x, p) {
      AnyCoverWins(dev, ps, p, x);
      AnyCoverWins(dev, qs, p, x);
    } else {
      NoCover(dev, ps, p);
      NoCover(dev, qs, p);
    }
  }

  /** Sane extents map the same bytes in any order, ... */
  lemma AnyOrderMaps(dev: Device, xads: seq<Xad>, others: seq<Xad>, size: int, p: nat)
    requires multiset(xads) == multiset(others) && IsSane(dev, xads, size)
    ensures Mapped(dev, Pieces(dev, xads), p) == Mapped(dev, Pieces(dev, others), p)
  {
    SaneIsDisjoint(dev, xads);
    SameElements(xads, others);
    forall x ensures x in Pieces(dev, xads) <==> x in Pieces(dev, others) {
      PiecesMembers(dev, xads, x);
      PiecesMembers(dev, others, x);
    }
    DisjointAgree(Pieces(dev, xads), p);
    SameCovers(dev, Pieces(dev, xads), Pieces(dev, others), p);
  }

  /** ...so they may be written in any order: the file is the same up to its size. */
  lemma AnyOrder(dev: Device, xads: seq<Xad>, others: seq<Xad>, size: nat, f: seq<Byte>, g: seq<Byte>)
    requires multiset(xads) == multiset(others) && IsSane(dev, xads, size) && AllInDevice(dev, Pieces(dev, xads))
    requires HasBytes(dev, Pieces(dev, xads), size, f) && HasBytes(dev, Pieces(dev, others), size, g)
    ensures f[..size] == g[..size]
  {
    forall p: nat | p < size ensures f[p] == g[p] {
      AnyOrderMaps(dev, xads, others, size, p);
      InDeviceMapped(dev, Pieces(dev, xads), p);
    }
  }
}
