/** UCS-2 to UTF-8 (section 2 of RFC 2279) and back, driven by the table of masks. */
module Utf8 {
  import opened Bytes

  // ---------------------------------------------------------------- the reference encoding

  /** The encoding of one unit: one to three bytes. */
  function Enc(w: Unit): (r: seq<Byte>)
    ensures 1 <= |r| <= 3
  {
    var l: int := w;
    if l < 0x80 then [l]
    else if l < 0x800 then [0xC0 + l / 0x40, 0x80 + l % 0x40]
    else [0xE0 + l / 0x1000, 0x80 + l / 0x40 % 0x40, 0x80 + l % 0x40]
  }

  function EncAll(w: seq<Unit>): (r: seq<Byte>)
    ensures |w| <= |r| <= 3 * |w|
  {
    if w == [] then [] else Enc(w[0]) + EncAll(w[1..])
  }

  predicate NulFree(w: seq<int>) {
    forall i :: 0 <= i < |w| ==> w[i] != 0
  }

  /** No encoding is a proper prefix of another, and the bytes determine the unit. */
  lemma PrefixCode(a: Unit, b: Unit)
    requires Enc(a) <= Enc(b)
    ensures a == b
  {
    var ea, eb := Enc(a), Enc(b);
    assert ea[0] == eb[0];
    assert |ea| == |eb|;
    assert eb == ea;
    UnitOfBytes(a);
    UnitOfBytes(b);
  }

  lemma UnitOfBytes(w: Unit)
    ensures var e := Enc(w);
      w == if |e| == 1 then U8(e, 0)
           else if |e| == 2 then (U8(e, 0) - 0xC0) * 0x40 + U8(e, 1) - 0x80
           else (U8(e, 0) - 0xE0) * 0x1000 + (U8(e, 1) - 0x80) * 0x40 + U8(e, 2) - 0x80
  {
    var l: int := w;
    assert l / 0x1000 == l / 0x40 / 0x40;
  }

  /** Section 2 of RFC 2279: the range decides the length, and the bits of the unit follow the marks of the bytes. */
  lemma EncByBits(w: Unit)
    ensures var l: int, e := w, Enc(w);
      && (l < 0x80 ==> |e| == 1 && e[0] == l)
      && (0x80 <= l < 0x800 ==>
        && |e| == 2 && 0xC0 <= e[0] < 0xE0 && 0x80 <= e[1] < 0xC0
        && l == 0x40 * (U8(e, 0) - 0xC0) + U8(e, 1) - 0x80)
      && (0x800 <= l ==>
        && |e| == 3 && 0xE0 <= e[0] < 0xF0 && 0x80 <= e[1] < 0xC0 && 0x80 <= e[2] < 0xC0
        && l == 0x1000 * (U8(e, 0) - 0xE0) + 0x40 * (U8(e, 1) - 0x80) + U8(e, 2) - 0x80)
  {
    UnitOfBytes(w);
  }

  lemma {:induction false} EncAllConcat(v: seq<Unit>, w: seq<Unit>)
    ensures EncAll(v + w) == EncAll(v) + EncAll(w)
  {
    if v == [] {
      assert v + w == w;
    } else {
      assert (v + w)[1..] == v[1..] + w;
      EncAllConcat(v[1..], w);
      assert Enc(v[0]) + (EncAll(v[1..]) + EncAll(w)) == (Enc(v[0]) + EncAll(v[1..])) + EncAll(w);
    }
  }

  /** Where two encoded names agree, so do their first units. */
  lemma HeadsAgree(a: Unit, v: seq<Byte>, b: Unit, w: seq<Byte>)
    requires Enc(a) + v == Enc(b) + w
    ensures a == b && v == w
  {
    var e, f, all := Enc(a), Enc(b), Enc(a) + v;
    assert all[..|e|] == e && all[..|f|] == f;
    if |e| <= |f| {
      assert f[..|e|] == all[..|e|];
      PrefixCode(a, b);
    } else {
      assert e[..|f|] == all[..|f|];
      PrefixCode(b, a);
    }
    assert all[|e|..] == v && all[|f|..] == w;
  }

  /** Two names with the same encoding are the same name. */
  lemma {:induction false} EncAllInjective(v: seq<Unit>, w: seq<Unit>)
    requires EncAll(v) == EncAll(w)
    ensures v == w
  {
    if v != [] && w != [] {
      HeadsAgree(v[0], EncAll(v[1..]), w[0], EncAll(w[1..]));
      EncAllInjective(v[1..], w[1..]);
    }
  }

  lemma {:induction false} EncAllNulFree(w: seq<Unit>)
    requires NulFree(w)
    ensures NulFree(EncAll(w))
  {
    if w != [] {
      EncAllNulFree(w[1..]);
    }
  }

  /** The encoding is as long as the name exactly for 7-bit names. */
  lemma {:induction false} EncAllLength(w: seq<Unit>)
    ensures |EncAll(w)| == |w| <==> forall i :: 0 <= i < |w| ==> w[i] < 0x80
  {
    if w != [] {
      EncAllLength(w[1..]);
      assert forall i :: 1 <= i < |w| ==> w[i] == w[1..][i - 1];
    }
  }

  // ---------------------------------------------------------------- the table

  datatype Row = Row(cmask: nat, cval: nat, shift: nat, lmask: nat, lval: nat)

  const TABLE: seq<Row> := [
    Row(0x80, 0x00, 0, 0x7F, 0),
    Row(0xE0, 0xC0, 6, 0x7FF, 0x80),
    Row(0xF0, 0xE0, 12, 0xFFFF, 0x800),
    Row(0xF8, 0xF0, 18, 0x1FFFFF, 0x10000),
    Row(0xFC, 0xF8, 24, 0x3FFFFFF, 0x200000),
    Row(0xFE, 0xFC, 30, 0x7FFFFFFF, 0x4000000)
  ]

  /** l >> c for the table's shifts, which are multiples of six. */
  function Shr(l: nat, c: nat): nat {
    if c < 6 then l else Shr(l / 0x40, c - 6)
  }

  lemma ShrValues(l: nat)
    ensures Shr(l, 0) == l && Shr(l, 6) == l / 0x40 && Shr(l, 12) == l / 0x1000
  {
    assert Shr(l / 0x40, 6) == Shr(l / 0x40 / 0x40, 0);
    assert l / 0x1000 == l / 0x40 / 0x40;
  }

  /** byte & cmask, for the table's masks of leading ones. */
  function Leading(byte: nat, cmask: nat): nat {
    if cmask == 0x80 then byte / 0x80 * 0x80
    else if cmask == 0xE0 then byte / 0x20 * 0x20
    else if cmask == 0xF0 then byte / 0x10 * 0x10
    else if cmask == 0xF8 then byte / 0x08 * 0x08
    else if cmask == 0xFC then byte / 0x04 * 0x04
    else byte / 0x02 * 0x02
  }

  /** l & lmask, for the table's masks of trailing ones. */
  function Trailing(l: nat, lmask: nat): nat {
    if lmask == 0x7F then l % 0x80
    else if lmask == 0x7FF then l % 0x800
    else if lmask == 0xFFFF then l % 0x1_0000
    else if lmask == 0x1FFFFF then l % 0x20_0000
    else if lmask == 0x3FFFFFF then l % 0x400_0000
    else l % 0x8000_0000
  }

  // ---------------------------------------------------------------- encoding

  /**
   * Unicode_Character_to_UTF8_Character: the bytes go to s from at on; -1 when fewer than maxlen bytes would do.
   * The or of cval with a value below its lowest bit is a sum.
   */
  method EncodeCharacter(s: array<Byte>, at: nat, wc: Unit, maxlen: nat) returns (size: int)
    requires at + maxlen <= s.Length
    modifies s
    ensures size == if maxlen >= |Enc(wc)| then |Enc(wc)| else -1
    ensures size != -1 ==> s[..] == old(s[..at]) + Enc(wc) + old(s[at + |Enc(wc)|..])
    ensures size == -1 ==> s[..] == old(s[..])
  {
    var l: int := wc;
    var nc, left, t := 0, maxlen, 0;
    while t < |TABLE| && left != 0
      invariant t == nc <= 3 && left == maxlen - t && s[..] == old(s[..])
      invariant t >= 1 ==> l >= 0x80
      invariant t >= 2 ==> l >= 0x800
      invariant t < 3
      decreases |TABLE| - t
    {
      nc := nc + 1;
      if l <= TABLE[t].lmask {
        WriteBytes(s, at, l, t);
        return nc;
      }
      t, left := t + 1, left - 1;
    }
    return -1;
  }

  /** The lead byte, then six bits a byte. */
  method WriteBytes(s: array<Byte>, at: nat, l: nat, t: nat)
    requires t < 3 && l <= TABLE[t].lmask && (t > 0 ==> l > TABLE[t - 1].lmask) && at + t < s.Length
    modifies s
    ensures s[..] == old(s[..at]) + Enc(l) + old(s[at + t + 1..])
    ensures |Enc(l)| == t + 1
  {
    var c, p := TABLE[t].shift, at;
    ShrValues(l);
    assert t == 0 || t == 1 || t == 2;
    assert Shr(l, c) < 0x100 - TABLE[t].cmask;
    s[p] := TABLE[t].cval + Shr(l, c);
    while c > 0
      invariant c <= 12 && c % 6 == 0 && p == at + t - c / 6 && at <= p <= at + t
      invariant forall i :: 0 <= i < s.Length && !(at <= i <= p) ==> s[i] == old(s[i])
      invariant forall i :: at <= i <= p ==> s[i] == Enc(l)[i - at]
      decreases c
    {
      c := c - 6;
      p := p + 1;
      s[p] := 0x80 + Shr(l, c) % 0x40;
    }
  }

  // ---------------------------------------------------------------- encoding a whole name

  const JFS_PATH_MAX := 4096

  /** The part of a terminated string before its first zero. */
  function UntilZero<T(==)>(w: seq<T>, zero: T): (r: seq<T>)
    ensures |r| <= |w|
  {
    if w == [] || w[0] == zero then [] else [w[0]] + UntilZero(w[1..], zero)
  }

  lemma {:induction false} UntilZeroIs<T>(w: seq<T>, zero: T)
    ensures var r := UntilZero(w, zero);
      && r == w[..|r|] && (forall i :: 0 <= i < |r| ==> r[i] != zero)
      && (|r| < |w| ==> w[|r|] == zero)
  {
    if w != [] && w[0] != zero {
      UntilZeroIs(w[1..], zero);
    }
  }

  lemma {:induction false} UntilZeroOf<T>(v: seq<T>, zero: T, w: seq<T>)
    requires zero !in v
    ensures UntilZero(v + [zero] + w, zero) == v
  {
    if v != [] {
      assert (v + [zero] + w)[1..] == v[1..] + [zero] + w;
      UntilZeroOf(v[1..], zero, w);
    }
  }

  /** What fits into room bytes; a unit that does not fit costs one byte of room and is left out. */
  function Fit(w: seq<Unit>, room: nat): seq<Byte> {
    if w == [] || room == 0 then []
    else if |Enc(w[0])| <= room then Enc(w[0]) + Fit(w[1..], room - |Enc(w[0])|)
    else Fit(w[1..], room - 1)
  }

  lemma {:induction false} FitAll(w: seq<Unit>, room: nat)
    requires |EncAll(w)| <= room
    ensures Fit(w, room) == EncAll(w)
  {
    if w != [] {
      FitAll(w[1..], room - |Enc(w[0])|);
    }
  }

  /** Unicode_String_to_UTF8_std_string: the name up to its terminator, through a zeroed static buffer. */
  method ToStdString(pwcs: seq<Unit>) returns (ret: seq<Byte>)
    requires 0 in pwcs
    ensures ret == Fit(UntilZero(pwcs, 0), 8 * JFS_PATH_MAX - 1)
  {
    var s := new Byte[8 * JFS_PATH_MAX](_ => 0);
    var maxlen: nat, op: nat, ip := 8 * JFS_PATH_MAX - 1, 0, 0;
    ghost var name := UntilZero(pwcs, 0);
    ghost var all := Fit(name, maxlen);
    assert name[0..] == name;
    UntilZeroIs(pwcs, 0);
    while pwcs[ip] != 0 && maxlen > 0
      invariant 0 <= ip <= |name| && op + maxlen <= 8 * JFS_PATH_MAX - 1
      invariant s[..op] + Fit(name[ip..], maxlen) == all
      invariant NulFree(s[..op]) && forall i :: op <= i < s.Length ==> s[i] == 0
      decreases |name| - ip
    {
      assert name[ip..][1..] == name[ip + 1..];
      op, maxlen := EncodeNext(s, op, name[ip..], maxlen, pwcs[ip]);
      ip := ip + 1;
    }
    ret := CString(s, op);
  }

  /** The loop body: append the unit if it fits, else give up one byte of room. */
  method EncodeNext(s: array<Byte>, op: nat, ghost rest: seq<Unit>, maxlen: nat, x: Unit) returns (op': nat, left: nat)
    requires rest != [] && rest[0] == x != 0 && 0 < maxlen && op + maxlen < s.Length
    requires NulFree(s[..op]) && forall i :: op <= i < s.Length ==> s[i] == 0
    modifies s
    ensures op' + left <= op + maxlen
    ensures s[..op'] + Fit(rest[1..], left) == old(s[..op]) + Fit(rest, maxlen)
    ensures NulFree(s[..op']) && forall i :: op' <= i < s.Length ==> s[i] == 0
  {
    ghost var before, e := s[..], Enc(x);
    if x > 0x7f {
      var size := EncodeCharacter(s, op, x, maxlen);
      if size == -1 {
        return op, maxlen - 1;
      }
      op', left := op + size, maxlen - size;
    } else {
      s[op] := x;
      op', left := op + 1, maxlen - 1;
    }
    assert s[..] == before[..op] + e + before[op + |e|..];
    AppendedAt(s[..], before, op, e);
    assert s[..op'] == before[..op] + e;
    assert before[..op] + (e + Fit(rest[1..], left)) == (before[..op] + e) + Fit(rest[1..], left);
  }

  lemma AppendedAt(now: seq<Byte>, before: seq<Byte>, op: nat, e: seq<Byte>)
    requires op + |e| <= |before| && now == before[..op] + e + before[op + |e|..]
    requires NulFree(before[..op]) && NulFree(e) && forall i :: op <= i < |before| ==> before[i] == 0
    ensures now[..op + |e|] == before[..op] + e && NulFree(now[..op + |e|])
    ensures forall i :: op + |e| <= i < |now| ==> now[i] == 0
  {
    assert forall i :: op + |e| <= i < |now| ==> now[i] == before[op + |e|..][i - (op + |e|)];
  }

  /** std::string(s): the bytes before the first zero. */
  method CString(s: array<Byte>, ghost op: nat) returns (ret: seq<Byte>)
    requires op < s.Length && NulFree(s[..op]) && s[op] == 0
    ensures ret == s[..op]
  {
    assert s[..] == s[..op] + [0] + s[op + 1..];
    UntilZeroOf(s[..op], 0, s[op + 1..]);
    ret := UntilZero(s[..], 0);
  }

  /** Directory names have at most 255 units: none is truncated, and the result is the plain encoding. */
  lemma NamesConvertWhole(w: seq<Unit>, junk: seq<Unit>)
    requires NulFree(w) && |w| <= 255
    ensures Fit(UntilZero(w + [0] + junk, 0), 8 * JFS_PATH_MAX - 1) == EncAll(w) && NulFree(EncAll(w))
  {
    UntilZeroOf(w, 0, junk);
    FitAll(w, 8 * JFS_PATH_MAX - 1);
    EncAllNulFree(w);
  }

  /** Distinct names have distinct conversions. */
  lemma NameConversionInjective(v: seq<Unit>, w: seq<Unit>, junk: seq<Unit>, junk': seq<Unit>)
    requires NulFree(v) && NulFree(w) && |v| <= 255 && |w| <= 255
    requires var room := 8 * JFS_PATH_MAX - 1;
      Fit(UntilZero(v + [0] + junk, 0), room) == Fit(UntilZero(w + [0] + junk', 0), room)
    ensures v == w
  {
    NamesConvertWhole(v, junk);
    NamesConvertWhole(w, junk');
    EncAllInjective(v, w);
  }

  // ---------------------------------------------------------------- decoding

  predicate Continues(b: int) {
    0x80 <= b < 0xC0
  }

  /** The lead byte tells the length, the others are continuation bytes. */
  lemma EncShape(w: Unit)
    ensures var e := Enc(w);
      && (|e| == 1 <==> U8(e, 0) < 0x80)
      && (|e| == 2 <==> 0xC0 <= U8(e, 0) < 0xE0)
      && (|e| == 3 <==> 0xE0 <= U8(e, 0) < 0xF0)
      && (forall i :: 1 <= i < |e| ==> Continues(e[i]))
  {
  }

  /** s holds at position at an encoded unit of at most maxLen bytes. */
  predicate EncodedAt(s: seq<Byte>, at: nat, maxLen: nat, w: Unit) {
    |Enc(w)| <= maxLen && at + |Enc(w)| <= |s| && s[at..at + |Enc(w)|] == Enc(w)
  }

  /** The first n bytes look like an encoding of n bytes, which may still be overlong. */
  predicate Shaped(s: seq<Byte>, at: nat, n: nat) {
    && at + n <= |s| && 1 <= n <= 3
    && (n == 1 ==> U8(s, at) < 0x80)
    && (n == 2 ==> 0xC0 <= U8(s, at) < 0xE0 && Continues(U8(s, at + 1)))
    && (n == 3 ==> 0xE0 <= U8(s, at) < 0xF0 && Continues(U8(s, at + 1)) && Continues(U8(s, at + 2)))
  }

  function Value(s: seq<Byte>, at: nat, n: nat): nat
    requires Shaped(s, at, n)
  {
    if n == 1 then U8(s, at)
    else if n == 2 then (U8(s, at) - 0xC0) * 0x40 + U8(s, at + 1) - 0x80
    else (U8(s, at) - 0xE0) * 0x1000 + (U8(s, at + 1) - 0x80) * 0x40 + U8(s, at + 2) - 0x80
  }

  lemma EncodedIsShaped(s: seq<Byte>, at: nat, maxLen: nat, w: Unit)
    requires EncodedAt(s, at, maxLen, w)
    ensures var n := |Enc(w)|; n <= maxLen && Shaped(s, at, n) && Value(s, at, n) == w >= TABLE[n - 1].lval
  {
    var e := Enc(w);
    assert forall i :: 0 <= i < |e| ==> s[at..at + |e|][i] == e[i];
    EncShape(w);
    UnitOfBytes(w);
  }

  lemma ShapedIsEncoded(s: seq<Byte>, at: nat, maxLen: nat, n: nat)
    requires n <= maxLen && Shaped(s, at, n) && Value(s, at, n) >= TABLE[n - 1].lval
    ensures Value(s, at, n) < 0x1_0000 && EncodedAt(s, at, maxLen, Value(s, at, n)) && |Enc(Value(s, at, n))| == n
  {
    var v := Value(s, at, n);
    if n == 2 {
      assert v / 0x40 == U8(s, at) - 0xC0 && v % 0x40 == U8(s, at + 1) - 0x80;
    } else if n == 3 {
      assert v / 0x1000 == U8(s, at) - 0xE0 && v / 0x40 == (U8(s, at) - 0xE0) * 0x40 + U8(s, at + 1) - 0x80;
    }
    assert s[at..at + n] == Enc(v);
  }

  /** What the loop has established when it tests row t. */
  predicate AtRow(s: seq<Byte>, at: nat, maxLen: nat, t: nat, l: nat) {
    && t < maxLen && at + t < |s|
    && (t > 0 ==> 0x80 <= U8(s, at) && Continues(U8(s, at + 1)))
    && (t > 1 ==> !(0xC0 <= U8(s, at) < 0xE0) && Continues(U8(s, at + 2)))
    && (t > 2 ==> !(0xE0 <= U8(s, at) < 0xF0))
    && (t == 0 ==> l == U8(s, at))
    && (t == 1 ==> l == U8(s, at) * 0x40 + U8(s, at + 1) - 0x80)
    && (t == 2 ==> l == (U8(s, at) * 0x40 + U8(s, at + 1) - 0x80) * 0x40 + U8(s, at + 2) - 0x80)
  }

  ghost predicate Undecodable(s: seq<Byte>, at: nat, maxLen: nat) {
    forall w :: !EncodedAt(s, at, maxLen, w)
  }

  /** A match in one of the first three rows gives the value of the bytes. */
  lemma RowValue(s: seq<Byte>, at: nat, maxLen: nat, t: nat, l: nat)
    requires t < 3 && AtRow(s, at, maxLen, t, l) && Leading(U8(s, at), TABLE[t].cmask) == TABLE[t].cval
    ensures Shaped(s, at, t + 1) && Trailing(l, TABLE[t].lmask) == Value(s, at, t + 1)
  {
    assert t == 0 || t == 1 || t == 2;
  }

  /** A lead byte of four or more bytes starts no encoding of a unit. */
  lemma LongRow(s: seq<Byte>, at: nat, maxLen: nat, t: nat, l: nat)
    requires 3 <= t < |TABLE| && AtRow(s, at, maxLen, t, l) && Leading(U8(s, at), TABLE[t].cmask) == TABLE[t].cval
    ensures Undecodable(s, at, maxLen)
  {
    assert t == 3 || t == 4 || t == 5;
    forall w ensures !EncodedAt(s, at, maxLen, w) {
      if EncodedAt(s, at, maxLen, w) {
        EncodedIsShaped(s, at, maxLen, w);
      }
    }
  }

  /** Bytes of one shape have one value. */
  lemma ShapeDecides(s: seq<Byte>, at: nat, maxLen: nat, n: nat, w: Unit)
    requires Shaped(s, at, n) && EncodedAt(s, at, maxLen, w)
    ensures w == Value(s, at, n) >= TABLE[n - 1].lval
  {
    EncodedIsShaped(s, at, maxLen, w);
  }

  ghost predicate DecodesTo(s: seq<Byte>, at: nat, maxLen: nat, v: Unit) {
    EncodedAt(s, at, maxLen, v) && forall w :: EncodedAt(s, at, maxLen, w) ==> w == v
  }

  /** A result of one to three bytes is the one unit encoded here; any other result says that none is. */
  ghost predicate DecodeResult(s: seq<Byte>, at: nat, maxLen: nat, p: Unit, size: int) {
    if 1 <= size <= 3 then DecodesTo(s, at, maxLen, p) && |Enc(p)| == size else Undecodable(s, at, maxLen)
  }

  /** A match decides: the value is accepted as the one encoded unit, or nothing is encoded here. */
  lemma MatchDecides(s: seq<Byte>, at: nat, maxLen: nat, t: nat, l: nat)
    requires t < |TABLE| && AtRow(s, at, maxLen, t, l) && Leading(U8(s, at), TABLE[t].cmask) == TABLE[t].cval
    ensures var v := Trailing(l, TABLE[t].lmask);
      if v < TABLE[t].lval then DecodeResult(s, at, maxLen, 0, -1)
      else DecodeResult(s, at, maxLen, v % 0x1_0000, t + 1)
  {
    if t < 3 {
      RowValue(s, at, maxLen, t, l);
      var v := Value(s, at, t + 1);
      if v >= TABLE[t].lval {
        ShapedIsEncoded(s, at, maxLen, t + 1);
      }
      forall w | EncodedAt(s, at, maxLen, w) ensures w == v >= TABLE[t].lval {
        ShapeDecides(s, at, maxLen, t + 1, w);
      }
    } else {
      LongRow(s, at, maxLen, t, l);
    }
  }

  /** No match, and no further byte to take: nothing is encoded here. */
  lemma RowFails(s: seq<Byte>, at: nat, maxLen: nat, t: nat, l: nat)
    requires t < |TABLE| && AtRow(s, at, maxLen, t, l) && Leading(U8(s, at), TABLE[t].cmask) != TABLE[t].cval
    requires maxLen <= t + 1 || (at + t + 1 < |s| && !Continues(U8(s, at + t + 1)))
    ensures DecodeResult(s, at, maxLen, 0, -1)
  {
    assert t == 0 || t == 1 || t == 2 || t == 3 || t == 4 || t == 5;
    forall w ensures !EncodedAt(s, at, maxLen, w) {
      if EncodedAt(s, at, maxLen, w) {
        EncodedIsShaped(s, at, maxLen, w);
      }
    }
  }

  lemma RowPasses(s: seq<Byte>, at: nat, maxLen: nat, t: nat, l: nat)
    requires t < |TABLE| && AtRow(s, at, maxLen, t, l) && Leading(U8(s, at), TABLE[t].cmask) != TABLE[t].cval
    requires t + 1 < maxLen && at + t + 1 < |s| && Continues(U8(s, at + t + 1))
    ensures AtRow(s, at, maxLen, t + 1, l * 0x40 + U8(s, at + t + 1) - 0x80)
  {
    assert t == 0 || t == 1 || t == 2 || t == 3 || t == 4 || t == 5;
  }

  /**
   * UTF8_Character_To_Unicode_Character.  What the encoder wrote is read back, and a result of at most three bytes
   * was read from exactly the encoding of the unit returned: overlong forms are rejected.
   */
  method DecodeCharacter(s: seq<Byte>, at: nat, maxLen: nat) returns (p: Unit, size: int)
    requires at < |s| && 0 in s[at..] && 1 <= maxLen
    ensures size == -1 || (1 <= size <= maxLen && at + size <= |s|)
    ensures DecodeResult(s, at, maxLen, p, size)
    ensures forall i :: at < i < at + size ==> s[i] != 0
  {
    ghost var zero :| at <= zero < |s| && s[zero] == 0;
    var l: nat, nc, t, pos := U8(s, at), 0, 0, at;
    while t < |TABLE|
      invariant t == nc <= |TABLE| && pos == at + t <= zero
      invariant AtRow(s, at, maxLen, t, l)
      invariant forall i :: at < i <= pos ==> s[i] != 0
    {
      nc := nc + 1;
      if Leading(U8(s, at), TABLE[t].cmask) == TABLE[t].cval {
        MatchDecides(s, at, maxLen, t, l);
        l := Trailing(l, TABLE[t].lmask);
        if l < TABLE[t].lval {
          return 0, -1;
        }
        return l % 0x1_0000, nc;
      }
      if maxLen <= nc {
        RowFails(s, at, maxLen, t, l);
        return 0, -1;
      }
      pos := pos + 1;
      if !Continues(U8(s, pos)) {
        RowFails(s, at, maxLen, t, l);
        return 0, -1;
      }
      RowPasses(s, at, maxLen, t, l);
      l := l * 0x40 + U8(s, pos) - 0x80;
      t := t + 1;
    }
    NoRow(s, at, maxLen, l);
    return 0, -1;
  }

  lemma NoRow(s: seq<Byte>, at: nat, maxLen: nat, l: nat)
    requires AtRow(s, at, maxLen, |TABLE|, l)
    ensures DecodeResult(s, at, maxLen, 0, -1)
  {
    forall w ensures !EncodedAt(s, at, maxLen, w) {
      if EncodedAt(s, at, maxLen, w) {
        EncodedIsShaped(s, at, maxLen, w);
      }
    }
  }

  // ---------------------------------------------------------------- decoding a string

  /** The units of w written into a buffer, each at the byte offset of its encoding. */
  function Spread(buffer: seq<Unit>, w: seq<Unit>): (r: seq<Unit>)
    requires |EncAll(w)| <= |buffer|
    ensures |r| == |buffer|
  {
    if w == [] then buffer
    else
      var front, x := w[..|w| - 1], w[|w| - 1];
      PrefixLength(w, |w| - 1);
      Spread(buffer, front)[|EncAll(front)| := x]
  }

  lemma EncAllOne(x: Unit)
    ensures EncAll([x]) == Enc(x)
  {
    assert EncAll([x]) == Enc(x) + EncAll([]);
  }

  lemma EncAllSplit(w: seq<Unit>, j: nat)
    requires j <= |w|
    ensures EncAll(w) == EncAll(w[..j]) + EncAll(w[j..])
  {
    assert w == w[..j] + w[j..];
    EncAllConcat(w[..j], w[j..]);
  }

  lemma PrefixLength(w: seq<Unit>, j: nat)
    requires j < |w|
    ensures EncAll(w[..j + 1]) == EncAll(w[..j]) + Enc(w[j])
    ensures EncAll(w) == EncAll(w[..j + 1]) + EncAll(w[j + 1..])
  {
    var front := w[..j + 1];
    assert front[..j] == w[..j] && front[j..] == [w[j]];
    EncAllSplit(front, j);
    EncAllOne(w[j]);
    EncAllSplit(w, j + 1);
  }

  /** s is the terminated encoding of w, within maxLen bytes. */
  ghost predicate IsEncodingOf(s: seq<Byte>, maxLen: nat, w: seq<Unit>) {
    NulFree(w) && UntilZero(s, 0) == EncAll(w) && |EncAll(w)| <= maxLen
  }

  /** How far the loop of the string decoder is: j units read and spread. */
  ghost predicate DecodedTo(s: seq<Byte>, w: seq<Unit>, j: nat, op: nat, ip: nat, left: nat,
                            before: seq<Unit>, now: seq<Unit>)
  {
    && j <= |w| && op == ip == |EncAll(w[..j])| <= |EncAll(w)| <= |before|
    && |EncAll(w)| - ip <= left
    && now == Spread(before, w[..j])
  }

  lemma DecodedStart(s: seq<Byte>, w: seq<Unit>, left: nat, before: seq<Unit>)
    requires |EncAll(w)| <= |before| && |EncAll(w)| <= left
    ensures DecodedTo(s, w, 0, 0, 0, left, before, before)
  {
    assert w[..0] == [];
  }

  lemma UnitInEncoding(s: seq<Byte>, w: seq<Unit>, j: nat)
    requires j < |w| && EncAll(w) <= s
    ensures var ip, e := |EncAll(w[..j])|, Enc(w[j]);
      ip + |e| <= |EncAll(w)| && s[ip..ip + |e|] == e
  {
    var all, ip, e := EncAll(w), |EncAll(w[..j])|, Enc(w[j]);
    PrefixLength(w, j);
    assert all[..ip + |e|] == EncAll(w[..j]) + e;
    assert s[..ip + |e|] == all[..ip + |e|];
    assert s[ip..ip + |e|] == s[..ip + |e|][ip..];
  }

  /** At an encoded position the next byte is zero exactly at the end, and otherwise starts the next unit. */
  lemma NextUnit(s: seq<Byte>, maxLen: nat, w: seq<Unit>, j: nat, ip: nat, left: nat, before: seq<Unit>, now: seq<Unit>)
    requires 0 in s && IsEncodingOf(s, maxLen, w) && DecodedTo(s, w, j, ip, ip, left, before, now)
    ensures ip < |s| && (s[ip] == 0 <==> j == |w|)
    ensures j < |w| ==> EncodedAt(s, ip, left, w[j]) && left > 0 && (s[ip] < 0x80 ==> Enc(w[j]) == [s[ip]])
  {
    UntilZeroIs(s, 0);
    if j < |w| {
      UnitInEncoding(s, w, j);
      UnitBegins(s, ip, w[j]);
    } else {
      assert w[..j] == w;
    }
  }

  lemma UnitBegins(s: seq<Byte>, ip: nat, w: Unit)
    requires ip + |Enc(w)| <= |s| && s[ip..ip + |Enc(w)|] == Enc(w) && w != 0
    ensures s[ip] != 0 && (s[ip] < 0x80 ==> Enc(w) == [s[ip]])
  {
    assert s[ip] == s[ip..ip + |Enc(w)|][0];
    EncShape(w);
  }

  /** What the loop keeps, when s is an encoding at all. */
  ghost predicate Follows(s: seq<Byte>, maxLen: nat, w: seq<Unit>, j: nat, op: nat, ip: nat, left: nat,
                          before: seq<Unit>, now: seq<Unit>)
  {
    IsEncodingOf(s, maxLen, w) ==> DecodedTo(s, w, j, op, ip, left, before, now)
  }

  /**
   * UTF8_String_To_Unicode_String.  The output pointer advances by the number of bytes read, so on an encoded string
   * unit k lands at the offset of its lead byte and the result is the byte length.
   */
  method DecodeString(pwcs: array<Unit>, s: seq<Byte>, maxLen: nat, ghost w: seq<Unit>) returns (n: nat)
    requires 0 in s && |s| <= pwcs.Length
    modifies pwcs
    ensures IsEncodingOf(s, maxLen, w) ==> |EncAll(w)| <= pwcs.Length
    ensures IsEncodingOf(s, maxLen, w) ==> n == |EncAll(w)| && pwcs[..] == Spread(old(pwcs[..]), w)
  {
    var op: nat, ip: nat, left: nat := 0, 0, maxLen;
    ghost var before, j := pwcs[..], 0;
    if IsEncodingOf(s, maxLen, w) {
      DecodedStart(s, w, left, before);
    }
    while s[ip] != 0 && left > 0
      invariant ip < |s| && 0 in s[ip..] && op <= ip
      invariant Follows(s, maxLen, w, j, op, ip, left, before, pwcs[..])
      decreases |s| - ip
    {
      op, ip, left := DecodeNext(pwcs, s, op, ip, left, maxLen, w, j, before);
      j := j + 1;
    }
    FollowedToTheEnd(s, maxLen, w, j, op, ip, left, before, pwcs[..]);
    return op;
  }

  lemma FollowedToTheEnd(s: seq<Byte>, maxLen: nat, w: seq<Unit>, j: nat, op: nat, ip: nat, left: nat,
                         before: seq<Unit>, now: seq<Unit>)
    requires 0 in s && ip < |s| && (s[ip] == 0 || left == 0)
    requires Follows(s, maxLen, w, j, op, ip, left, before, now)
    ensures IsEncodingOf(s, maxLen, w) ==> |EncAll(w)| <= |before| && op == |EncAll(w)| && now == Spread(before, w)
  {
    if IsEncodingOf(s, maxLen, w) {
      NextUnit(s, maxLen, w, j, ip, left, before, now);
      assert w[..j] == w;
    }
  }

  /** The loop body. */
  method DecodeNext(pwcs: array<Unit>, s: seq<Byte>, op: nat, ip: nat, left: nat,
                    ghost maxLen: nat, ghost w: seq<Unit>, ghost j: nat, ghost before: seq<Unit>)
    returns (op': nat, ip': nat, left': nat)
    requires ip < |s| <= pwcs.Length && 0 in s[ip..] && op <= ip && s[ip] != 0 && left > 0
    requires Follows(s, maxLen, w, j, op, ip, left, before, pwcs[..])
    modifies pwcs
    ensures ip < ip' < |s| && 0 in s[ip'..] && op' <= ip'
    ensures Follows(s, maxLen, w, j + 1, op', ip', left', before, pwcs[..])
  {
    ghost var now := pwcs[..];
    ghost var zero :| ip <= zero < |s| && s[zero] == 0;
    if IsEncodingOf(s, maxLen, w) {
      assert 0 in s;
      NextUnit(s, maxLen, w, j, ip, left, before, now);
    }
    if s[ip] >= 0x80 {
      var p, size := DecodeCharacter(s, ip, left);
      if size == -1 {
        return op, ip + 1, left - 1;
      }
      pwcs[op] := p;
      op', ip', left' := op + size, ip + size, left - size;
    } else {
      pwcs[op] := s[ip];
      op', ip', left' := op + 1, ip + 1, left;
    }
    if IsEncodingOf(s, maxLen, w) {
      DecodedNext(s, w, j, ip, left, left', before, now, pwcs[..]);
    }
  }

  lemma DecodedNext(s: seq<Byte>, w: seq<Unit>, j: nat, ip: nat, left: nat, left': nat,
                    before: seq<Unit>, now: seq<Unit>, then': seq<Unit>)
    requires j < |w| && DecodedTo(s, w, j, ip, ip, left, before, now)
    requires ip < |now| && then' == now[ip := w[j]] && left' + |Enc(w[j])| >= left
    ensures DecodedTo(s, w, j + 1, ip + |Enc(w[j])|, ip + |Enc(w[j])|, left', before, then')
  {
    PrefixLength(w, j);
    assert w[..j + 1][..j] == w[..j];
  }

  /** Unit k stands where its encoding begins, ... */
  lemma {:induction false} SpreadAt(buffer: seq<Unit>, w: seq<Unit>, k: nat)
    requires k < |w| && |EncAll(w)| <= |buffer|
    ensures |EncAll(w[..k])| < |buffer| && Spread(buffer, w)[|EncAll(w[..k])|] == w[k]
  {
    var n := |w| - 1;
    var front := w[..n];
    PrefixLength(w, n);
    assert w[..n + 1] == w;
    if k < n {
      assert front[..k] == w[..k];
      SpreadAt(buffer, front, k);
      PrefixLength(front, k);
    }
  }

  /** ...and every other place of the buffer keeps what it held. */
  lemma {:induction false} SpreadElsewhere(buffer: seq<Unit>, w: seq<Unit>, p: nat)
    requires |EncAll(w)| <= |buffer| && p < |buffer|
    requires forall k {:trigger w[..k]} :: 0 <= k < |w| ==> p != |EncAll(w[..k])|
    ensures Spread(buffer, w)[p] == buffer[p]
  {
    if w != [] {
      var n := |w| - 1;
      PrefixLength(w, n);
      forall k {:trigger w[..n][..k]} | 0 <= k < n ensures p != |EncAll(w[..n][..k])| {
        assert w[..n][..k] == w[..k];
      }
      SpreadElsewhere(buffer, w[..n], p);
      assert p != |EncAll(w[..n])|;
    }
  }

  /** The two directions are inverse to each other exactly on 7-bit names. */
  lemma StringRoundTripIff(buffer: seq<Unit>, w: seq<Unit>)
    requires |EncAll(w)| <= |buffer|
    ensures Spread(buffer, w)[..|EncAll(w)|] == w <==> forall i :: 0 <= i < |w| ==> w[i] < 0x80
  {
    EncAllLength(w);
    if |EncAll(w)| == |w| {
      AsciiSpread(buffer, w);
    }
  }

  lemma {:induction false} AsciiSpread(buffer: seq<Unit>, w: seq<Unit>)
    requires |EncAll(w)| == |w| <= |buffer|
    ensures Spread(buffer, w)[..|w|] == w
  {
    if w != [] {
      var n := |w| - 1;
      PrefixLength(w, n);
      assert w[n + 1..] == [] && |EncAll(w[..n])| == n;
      AsciiSpread(buffer, w[..n]);
      assert Spread(buffer, w)[..n] == Spread(buffer, w[..n])[..n];
    }
  }
}
