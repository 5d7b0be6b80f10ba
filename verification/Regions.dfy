/** Runs of bytes in flat memory: what storing a run writes, and what it leaves
    alone. */
module Regions {
  import opened Words
  import opened Buffers
  import opened FlatMemory

  /** The rest of `writeBytes`, from byte i on; it stops at the first fault. */
  function WriteBytesFrom(m: Memory, a: U32, bytes: Bytes, i: nat): Stored
    requires i <= |bytes|
    decreases |bytes| - i
  {
    if i == |bytes| then Stored(true, m)
    else match Write8(m, At(a, i), bytes[i])
      case None => Stored(false, m)
      case Some(m1) => WriteBytesFrom(m1, a, bytes, i + 1)
  }

  /** `writeBytes`. */
  function WriteBytes(m: Memory, a: U32, bytes: Bytes): Stored { WriteBytesFrom(m, a, bytes, 0) }

  predicate ReadWrite(m: Memory, x: U32) { x in m.cells && m.cells[x].perm.r && m.cells[x].perm.w }

  /** Every byte from lo to just below hi is mapped readable and writable. */
  ghost predicate Owned(m: Memory, lo: int, hi: int) {
    0 <= lo && hi <= TWO32 && forall x: U32 :: lo <= x < hi ==> ReadWrite(m, x)
  }

  ghost predicate SameMap(m: Memory, m': Memory) {
    m'.cells.Keys == m.cells.Keys && forall x :: x in m.cells ==> m'.cells[x].perm == m.cells[x].perm
  }

  /** No page came, went or changed its permission, and no byte outside lo..hi
      changed. */
  ghost predicate Rewrites(m: Memory, m': Memory, lo: int, hi: int) {
    SameMap(m, m') && forall x :: x in m.cells && !(lo <= x < hi) ==> m'.cells[x] == m.cells[x]
  }

  lemma RewritesTrans(m0: Memory, m1: Memory, m2: Memory, lo: int, hi: int)
    requires Rewrites(m0, m1, lo, hi) && Rewrites(m1, m2, lo, hi)
    ensures Rewrites(m0, m2, lo, hi)
  {
  }

  lemma RewritesWider(m: Memory, m': Memory, lo: int, hi: int, lo': int, hi': int)
    requires Rewrites(m, m', lo, hi) && lo' <= lo && hi <= hi'
    ensures Rewrites(m, m', lo', hi')
  {
  }

  lemma OwnedKept(m: Memory, m': Memory, lo: int, hi: int)
    requires SameMap(m, m') && Owned(m, lo, hi)
    ensures Owned(m', lo, hi)
  {
    forall x: U32 | lo <= x < hi ensures ReadWrite(m', x) { assert ReadWrite(m, x); }
  }

  lemma OwnedPart(m: Memory, lo: int, hi: int, lo': int, hi': int)
    requires Owned(m, lo, hi) && lo <= lo' && hi' <= hi
    ensures Owned(m, lo', hi')
  {
  }

  /** The run of bytes is there to be read, without wrapping. */
  ghost predicate Holds(m: Memory, a: int, bytes: Bytes) {
    0 <= a && a + |bytes| <= TWO32 && forall i :: 0 <= i < |bytes| ==> Read8(m, a + i) == Some(bytes[i])
  }

  lemma HoldsKept(m: Memory, m': Memory, lo: int, hi: int, a: int, bytes: Bytes)
    requires Holds(m, a, bytes) && Rewrites(m, m', lo, hi) && (hi <= a || a + |bytes| <= lo)
    ensures Holds(m', a, bytes)
  {
    forall i | 0 <= i < |bytes| ensures Read8(m', a + i) == Some(bytes[i]) {
      assert Read8(m, a + i) == Some(bytes[i]);
    }
  }

  lemma NoWrap(a: U32, i: int)
    requires 0 <= a + i < TWO32
    ensures At(a, i) == a + i
  {
  }

  lemma PokeRewrites(m: Memory, x: U32, v: U8)
    requires ReadWrite(m, x)
    ensures Write8(m, x, v) == Some(Poke(m, x, v))
    ensures Rewrites(m, Poke(m, x, v), x, x + 1) && Read8(Poke(m, x, v), x) == Some(v)
  {
  }

  /** Storing a run in memory that is mapped for it succeeds, puts the run there and
      changes nothing else. */
  lemma {:induction false} WriteBytesFromDone(m: Memory, a: U32, bytes: Bytes, i: nat)
    requires i <= |bytes| && a + |bytes| <= TWO32 && Owned(m, a, a + |bytes|)
    ensures var st := WriteBytesFrom(m, a, bytes, i);
            st.ok && Rewrites(m, st.mem, a + i, a + |bytes|) && Holds(st.mem, a + i, bytes[i..])
    decreases |bytes| - i
  {
    hide Rewrites, Owned, Holds, Read8, Write8, Poke;
    if i == |bytes| {
      NothingDone(m, a + i);
    } else {
      NoWrap(a, i);
      OwnedAt(m, a, a + |bytes|, a + i);
      PokeRewrites(m, a + i, bytes[i]);
      var m1 := Poke(m, a + i, bytes[i]);
      OwnedPoked(m, m1, a + i, a, a + |bytes|);
      WriteBytesFromDone(m1, a, bytes, i + 1);
      OneMore(m, m1, WriteBytesFrom(m1, a, bytes, i + 1).mem, a + i, bytes[i], bytes[i + 1..]);
      assert bytes[i..] == [bytes[i]] + bytes[i + 1..];
    }
  }

  lemma NothingDone(m: Memory, a: nat)
    requires a <= TWO32
    ensures Rewrites(m, m, a, a) && Holds(m, a, [])
  {
  }

  lemma OwnedAt(m: Memory, lo: int, hi: int, x: U32)
    requires Owned(m, lo, hi) && lo <= x < hi
    ensures ReadWrite(m, x)
  {
  }

  lemma OwnedPoked(m: Memory, m1: Memory, x: int, lo: int, hi: int)
    requires Rewrites(m, m1, x, x + 1) && Owned(m, lo, hi)
    ensures Owned(m1, lo, hi)
  {
    OwnedKept(m, m1, lo, hi);
  }

  lemma OneMore(m: Memory, m1: Memory, m2: Memory, a: U32, b: U8, rest: Bytes)
    requires Rewrites(m, m1, a, a + 1) && Read8(m1, a) == Some(b)
    requires Rewrites(m1, m2, a + 1, a + 1 + |rest|) && Holds(m2, a + 1, rest)
    ensures Rewrites(m, m2, a, a + 1 + |rest|) && Holds(m2, a, [b] + rest)
  {
    RewritesWider(m, m1, a, a + 1, a, a + 1 + |rest|);
    RewritesWider(m1, m2, a + 1, a + 1 + |rest|, a, a + 1 + |rest|);
    RewritesTrans(m, m1, m2, a, a + 1 + |rest|);
    forall i | 0 <= i < |rest| + 1 ensures Read8(m2, a + i) == Some(([b] + rest)[i]) {
      if i > 0 { assert Read8(m2, a + 1 + (i - 1)) == Some(rest[i - 1]); }
    }
  }

  lemma WriteBytesDone(m: Memory, a: U32, bytes: Bytes)
    requires a + |bytes| <= TWO32 && Owned(m, a, a + |bytes|)
    ensures var st := WriteBytes(m, a, bytes);
            st.ok && Rewrites(m, st.mem, a, a + |bytes|) && Holds(st.mem, a, bytes)
  {
    hide Rewrites, Owned, Holds, WriteBytesFrom;
    WriteBytesFromDone(m, a, bytes, 0);
    assert bytes[0..] == bytes;
  }

  // ---- words ----------------------------------------------------------------------------

  function WordBytes(v: U32): (b: Bytes)
    ensures |b| == 4
  {
    [ByteOf(v, 0), ByteOf(v, 1), ByteOf(v, 2), ByteOf(v, 3)]
  }

  /** A word store is the store of its four bytes. */
  lemma Write32IsBytes(m: Memory, a: U32, v: U32)
    ensures Write32(m, a, v) == WriteBytes(m, a, WordBytes(v))
  {
    WriteFromIsBytes(m, a, v, 0);
  }

  lemma {:induction false} WriteFromIsBytes(m: Memory, a: U32, v: U32, k: nat)
    requires k <= 4
    ensures WriteFrom(m, a, v, k) == WriteBytesFrom(m, a, WordBytes(v), k)
    decreases 4 - k
  {
    hide Write8, ByteOf;
    if k < 4 && Write8(m, At(a, k), ByteOf(v, k)).Some? {
      WriteFromIsBytes(Write8(m, At(a, k), ByteOf(v, k)).value, a, v, k + 1);
    }
  }

  lemma HoldsWord(m: Memory, a: U32, v: U32)
    requires Holds(m, a, WordBytes(v))
    ensures Read32(m, a) == Some(v)
  {
    hide ByteOf, FromBytes, Read8, At;
    NoWrap(a, 1);
    NoWrap(a, 2);
    NoWrap(a, 3);
    var b := WordBytes(v);
    assert b[0] == ByteOf(v, 0) && b[1] == ByteOf(v, 1) && b[2] == ByteOf(v, 2) && b[3] == ByteOf(v, 3);
    BytesRoundTrip(v);
  }

  /** The loop of `writeBytes`. */
  method StoreBytes(m: Memory, a: U32, bytes: Bytes) returns (st: Stored)
    ensures st == WriteBytes(m, a, bytes)
  {
    hide Write8;
    var mem := m;
    var i := 0;
    while i < |bytes|
      invariant 0 <= i <= |bytes| && WriteBytes(m, a, bytes) == WriteBytesFrom(mem, a, bytes, i)
    {
      var w := Write8(mem, At(a, i), bytes[i]);
      if w.None? { return Stored(false, mem); }
      mem := w.value;
      i := i + 1;
    }
    st := Stored(true, mem);
  }
}
