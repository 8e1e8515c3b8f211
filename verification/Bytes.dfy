/** Little-endian fields of on-disk structures, and the device they are read from. */
module Bytes {
  type Byte = x: int | 0 <= x < 0x100

  /** A UCS-2 code unit (UniChar). */
  type Unit = x: int | 0 <= x < 0x1_0000

  function U8(s: seq<Byte>, i: nat): int
    requires i < |s|
  {
    s[i]
  }

  function Le16(s: seq<Byte>, i: nat): Unit
    requires i + 2 <= |s|
  {
    U8(s, i) + 0x100 * U8(s, i + 1)
  }

  function Le24(s: seq<Byte>, i: nat): nat
    requires i + 3 <= |s|
  {
    Le16(s, i) as int + 0x1_0000 * U8(s, i + 2)
  }

  function Le32(s: seq<Byte>, i: nat): nat
    requires i + 4 <= |s|
  {
    Le16(s, i) as int + 0x1_0000 * Le16(s, i + 2) as int
  }

  function Le64(s: seq<Byte>, i: nat): nat
    requires i + 8 <= |s|
  {
    Le32(s, i) + 0x1_0000_0000 * Le32(s, i + 4)
  }

  /** The two's complement reading of an unsigned field of the given modulus. */
  function Signed(x: nat, modulus: nat): int {
    if 2 * x < modulus then x else x - modulus
  }

  function I8(s: seq<Byte>, i: nat): int
    requires i < |s|
  {
    Signed(U8(s, i), 0x100)
  }

  function I16(s: seq<Byte>, i: nat): int
    requires i + 2 <= |s|
  {
    Signed(Le16(s, i), 0x1_0000)
  }

  function I64(s: seq<Byte>, i: nat): int
    requires i + 8 <= |s|
  {
    Signed(Le64(s, i), 0x1_0000_0000_0000_0000)
  }

  function Min(a: int, b: int): int {
    if a < b then a else b
  }

  /** Device::read_bytes throws: past the end, a failed seek, or nothing to read. */
  predicate ReadThrows(dev: seq<Byte>, offset: int, count: nat) {
    offset < 0 || offset > |dev| || count == 0
  }

  /** Device::read_bytes.  A short read only logs: the rest of the buffer keeps what it held. */
  method ReadBytes(dev: seq<Byte>, offset: int, count: nat, buffer: array<Byte>) returns (thrown: bool)
    requires count <= buffer.Length
    modifies buffer
    ensures thrown == ReadThrows(dev, offset, count)
    ensures thrown <==> offset < 0 || offset > |dev| || count == 0
    ensures thrown ==> buffer[..] == old(buffer[..])
    ensures !thrown ==> forall k :: 0 <= k < buffer.Length ==>
      buffer[k] == if k < count && offset + k < |dev| then dev[offset + k] else old(buffer[k])
  {
    if ReadThrows(dev, offset, count) {
      return true;
    }
    var transferred := Min(count, |dev| - offset);
    for k := 0 to transferred
      invariant forall i :: 0 <= i < k ==> buffer[i] == dev[offset + i]
      invariant forall i :: k <= i < buffer.Length ==> buffer[i] == old(buffer[i])
    {
      buffer[k] := dev[offset + k];
    }
    return false;
  }
}
