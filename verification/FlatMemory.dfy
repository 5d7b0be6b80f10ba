/** Guest memory as the processor sees it: every mapped address has a byte and
    a permission, and every store that goes through `write8` reports its
    address to the `onWrite` hook. The hook's calls are kept in `log`, oldest
    first, so that the order of stores is part of the memory's value.
    FlatView.dfy shows that every address space built from shared,
    copy-on-write pages presents such a memory. */
module FlatMemory {
  import opened Words

  const PAGE: nat := 4096

  /** `alignDown` and `alignUp` to a page boundary. */
  function AlignDown(v: U32): U32 { v - v % PAGE }
  function AlignUp(v: U32): U32 { Wrap((v + PAGE - 1) / PAGE * PAGE) }

  datatype Perm = Perm(r: bool, w: bool, x: bool)
  datatype Cell = Cell(value: U8, perm: Perm)
  datatype Memory = Memory(cells: map<U32, Cell>, log: seq<U32>)

  function Read8(m: Memory, a: U32): Option<U8> {
    if a in m.cells && m.cells[a].perm.r then Some(m.cells[a].value) else None
  }

  /** Instruction fetch needs X or R. */
  function Read8Exec(m: Memory, a: U32): Option<U8> {
    if a in m.cells && (m.cells[a].perm.x || m.cells[a].perm.r) then Some(m.cells[a].value) else None
  }

  predicate Writable(m: Memory, a: U32) { a in m.cells && m.cells[a].perm.w }

  /** The effect of a store on a mapped byte; an unmapped one is left alone. */
  function Poke(m: Memory, a: U32, v: U8): Memory {
    if a in m.cells then Memory(m.cells[a := m.cells[a].(value := v)], m.log + [a]) else m
  }

  /** `write8`: faults (None) unless the byte is mapped writable. */
  function Write8(m: Memory, a: U32, v: U8): Option<Memory> {
    if Writable(m, a) then Some(Poke(m, a, v)) else None
  }

  function Read32(m: Memory, a: U32): Option<U32> {
    match (Read8(m, a), Read8(m, At(a, 1)), Read8(m, At(a, 2)), Read8(m, At(a, 3)))
    case (Some(b0), Some(b1), Some(b2), Some(b3)) => Some(FromBytes(b0, b1, b2, b3))
    case _ => None
  }

  /** A multi-byte store that stops at the first byte that faults: the bytes
      before it stay written. */
  datatype Stored = Stored(ok: bool, mem: Memory)

  function WriteFrom(m: Memory, a: U32, v: U32, k: nat): Stored
    requires k <= 4
    decreases 4 - k
  {
    if k == 4 then Stored(true, m)
    else match Write8(m, At(a, k), ByteOf(v, k))
      case None => Stored(false, m)
      case Some(m1) => WriteFrom(m1, a, v, k + 1)
  }

  /** `write32`. */
  function Write32(m: Memory, a: U32, v: U32): Stored { WriteFrom(m, a, v, 0) }

  function Read16(m: Memory, a: U32): Option<U32> {
    match (Read8(m, a), Read8(m, At(a, 1)))
    case (Some(b0), Some(b1)) => Some(FromBytes(b0, b1, 0, 0))
    case _ => None
  }

  /** `write16`: the low half of the word. */
  function Write16(m: Memory, a: U32, v: U32): Stored {
    match Write8(m, a, ByteOf(v, 0))
    case None => Stored(false, m)
    case Some(m1) =>
      match Write8(m1, At(a, 1), ByteOf(v, 1))
      case None => Stored(false, m1)
      case Some(m2) => Stored(true, m2)
  }

  ghost predicate SameCell(m: Memory, m': Memory, a: U32) {
    (a in m.cells <==> a in m'.cells) && (a in m.cells ==> m.cells[a] == m'.cells[a])
  }

  /** `m'` came from `m` by stores: nothing was mapped, unmapped or protected,
      and every byte that changed was reported to `onWrite`. */
  ghost predicate StoresOnly(m: Memory, m': Memory) {
    && m.log <= m'.log
    && m'.cells.Keys == m.cells.Keys
    && (forall a :: a in m.cells ==> m'.cells[a].perm == m.cells[a].perm)
    && (forall a :: a in m.cells && m'.cells[a] != m.cells[a] ==> a in m'.log[|m.log|..])
  }

  lemma StoresOnlyTrans(m0: Memory, m1: Memory, m2: Memory)
    requires StoresOnly(m0, m1) && StoresOnly(m1, m2)
    ensures StoresOnly(m0, m2)
  {
    assert m2.log[|m0.log|..] == m1.log[|m0.log|..] + m2.log[|m1.log|..];
  }

  lemma SameStoresOnly(m: Memory)
    ensures StoresOnly(m, m)
  {
    assert m.log[|m.log|..] == [];
  }

  lemma PokeStoresOnly(m: Memory, a: U32, v: U8)
    ensures StoresOnly(m, Poke(m, a, v))
  {
    if a in m.cells {
      assert (m.log + [a])[|m.log|..] == [a];
    }
  }

  lemma {:induction false} WriteFromStoresOnly(m: Memory, a: U32, v: U32, k: nat)
    requires k <= 4
    ensures StoresOnly(m, WriteFrom(m, a, v, k).mem)
    decreases 4 - k
  {
    if k < 4 && Writable(m, At(a, k)) {
      var m1 := Poke(m, At(a, k), ByteOf(v, k));
      PokeStoresOnly(m, At(a, k), ByteOf(v, k));
      WriteFromStoresOnly(m1, a, v, k + 1);
      StoresOnlyTrans(m, m1, WriteFrom(m, a, v, k).mem);
    }
  }

  /** A word store touches no byte but its own four. */
  lemma {:induction false} WriteFromFrame(m: Memory, a: U32, v: U32, k: nat, x: U32)
    requires k <= 4
    requires forall i :: k <= i < 4 ==> At(a, i) != x
    ensures SameCell(m, WriteFrom(m, a, v, k).mem, x)
    decreases 4 - k
  {
    if k < 4 && Writable(m, At(a, k)) {
      WriteFromFrame(Poke(m, At(a, k), ByteOf(v, k)), a, v, k + 1, x);
    }
  }

  lemma {:induction false} WriteFromReads(m: Memory, a: U32, v: U32, k: nat)
    requires k <= 4 && WriteFrom(m, a, v, k).ok
    ensures var m' := WriteFrom(m, a, v, k).mem;
            forall i :: k <= i < 4 ==> At(a, i) in m'.cells && m'.cells[At(a, i)].value == ByteOf(v, i)
    decreases 4 - k
  {
    hide ByteOf;
    if k < 4 {
      var m1 := Poke(m, At(a, k), ByteOf(v, k));
      WriteFromReads(m1, a, v, k + 1);
      forall i | k < i < 4 ensures At(a, i) != At(a, k) { if At(a, i) == At(a, k) { AtInjective(a, i, k); } }
      WriteFromFrame(m1, a, v, k + 1, At(a, k));
    }
  }

  /** A word stored where it can be read reads back, at every address: its four
      bytes may straddle pages and the top of the address space. */
  lemma WordRoundTrip(m: Memory, a: U32, v: U32)
    requires Write32(m, a, v).ok && forall i :: 0 <= i < 4 ==> At(a, i) in m.cells && m.cells[At(a, i)].perm.r
    ensures Read32(Write32(m, a, v).mem, a) == Some(v)
  {
    hide ByteOf, FromBytes, At;
    var m' := Write32(m, a, v).mem;
    WriteFromReads(m, a, v, 0);
    WriteFromStoresOnly(m, a, v, 0);
    assert At(a, 0) == a by { AtZero(a); }
    forall i | 0 <= i < 4 ensures Read8(m', At(a, i)) == Some(ByteOf(v, i)) {
      assert At(a, i) in m.cells;
    }
    assert Read8(m', At(a, 0)) == Some(ByteOf(v, 0)) && Read8(m', At(a, 1)) == Some(ByteOf(v, 1));
    assert Read8(m', At(a, 2)) == Some(ByteOf(v, 2)) && Read8(m', At(a, 3)) == Some(ByteOf(v, 3));
    BytesRoundTrip(v);
  }

  lemma HalfRoundTrip(m: Memory, a: U32, v: U32)
    requires Write16(m, a, v).ok && Read16(m, a).Some?
    ensures Read16(Write16(m, a, v).mem, a) == Some(v % 0x1_0000)
  {
    hide At, ByteOf;
    AtZero(a);
    if At(a, 1) == a { AtInjective(a, 1, 0); }
    LowHalf(v);
  }

  lemma LowHalf(v: U32)
    ensures ByteOf(v, 0) + 0x100 * ByteOf(v, 1) == v % 0x1_0000
  {
    var q1, q2 := v / 0x100, v / 0x1_0000;
    assert v == 0x100 * q1 + v % 0x100;
    assert q1 == 0x100 * q2 + q1 % 0x100;
  }
}
