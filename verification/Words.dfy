/** Fixed-width integers as the emulator uses them: JavaScript numbers brought
    back to 32 bits with `>>> 0`, bytes in the range of a Uint8Array. */
module Words {
  const TWO32: int := 0x1_0000_0000

  type U8 = x: int | 0 <= x < 0x100
  type U32 = x: int | 0 <= x < 0x1_0000_0000

  datatype Option<+T> = None | Some(value: T)

  /** `x >>> 0`: the number in the range of a word that differs from x by a multiple
      of 2^32. */
  function Wrap(x: int): U32
    decreases if x < 0 then TWO32 - x else x
  {
    if x < 0 then Wrap(x + TWO32) else if x >= TWO32 then Wrap(x - TWO32) else x
  }

  lemma {:induction false} WrapIsMod(x: int)
    ensures Wrap(x) == x % TWO32
    decreases if x < 0 then TWO32 - x else x
  {
    if x < 0 { WrapIsMod(x + TWO32); } else if x >= TWO32 { WrapIsMod(x - TWO32); }
  }

  /** Where at most one turn is needed. */
  lemma WrapOnce(x: int)
    requires -TWO32 <= x < 2 * TWO32
    ensures Wrap(x) == if x < 0 then x + TWO32 else if x >= TWO32 then x - TWO32 else x
  {
  }

  /** The address i bytes after a, in the wrapping 32-bit address space. */
  function At(a: U32, i: int): U32 { Wrap(a + i) }

  lemma AtAt(a: U32, i: int, j: int)
    ensures At(At(a, i), j) == At(a, i + j)
  {
    WrapIsMod(a + i);
    WrapIsMod(At(a, i) + j);
    WrapIsMod(a + i + j);
  }

  lemma AtZero(a: U32)
    ensures At(a, 0) == a
  {
  }

  lemma AtInjective(a: U32, i: int, j: int)
    requires 0 <= i < TWO32 && 0 <= j < TWO32 && At(a, i) == At(a, j)
    ensures i == j
  {
    WrapOnce(a + i);
    WrapOnce(a + j);
  }

  /** Byte k (0 is the least significant) of a 32-bit word. */
  function ByteOf(v: U32, k: nat): U8
    requires k < 4
  {
    if k == 0 then v % 0x100
    else if k == 1 then v / 0x100 % 0x100
    else if k == 2 then v / 0x1_0000 % 0x100
    else v / 0x100_0000
  }

  function FromBytes(b0: U8, b1: U8, b2: U8, b3: U8): U32 {
    b0 + 0x100 * b1 + 0x1_0000 * b2 + 0x100_0000 * b3
  }

  lemma BytesRoundTrip(v: U32)
    ensures FromBytes(ByteOf(v, 0), ByteOf(v, 1), ByteOf(v, 2), ByteOf(v, 3)) == v
    ensures v == ByteOf(v, 0) as int + 0x100 * (ByteOf(v, 1) as int) + 0x1_0000 * (ByteOf(v, 2) as int)
              + 0x100_0000 * (ByteOf(v, 3) as int)
  {
    var q1, q2 := v / 0x100, v / 0x1_0000;
    assert v == 0x100 * q1 + v % 0x100;
    assert q1 == 0x100 * q2 + q1 % 0x100;
    assert q2 == 0x100 * (v / 0x100_0000) + q2 % 0x100;
  }

  /** `s8(x)`: a byte read as a signed number. */
  function Signed8(x: U8): int { if x >= 0x80 then x - 0x100 else x }

  /** `x >> 0`: a word read as a signed number. */
  function Signed32(x: U32): int { if x >= 0x8000_0000 then x - TWO32 else x }
}
