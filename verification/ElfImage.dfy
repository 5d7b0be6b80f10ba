/** Loading an ELF image: the segment loop of `loadELF32Image` and the relocation
    loop of `applyELF32Relocations` in src/elf.js. */
module ElfImage {
  import opened Words
  import opened Buffers
  import opened FlatMemory
  import opened Regions

  const PT_LOAD: U32 := 1

  /** A program header. */
  datatype Segment = Segment(kind: U32, offset: U32, vaddr: U32, filesz: U32, memsz: U32, flags: U32)

  /** What the loader is given: the file, its program headers and the bias. */
  datatype Elf = Elf(bytes: Bytes, ph: seq<Segment>, bias: U32)

  const RWX := Perm(true, true, true)

  /** `flagsToPerm`: X, W and R are bits 0, 1 and 2; no bit at all means R. */
  function FlagsToPerm(flags: U32): Perm {
    var (x, w, r) := (flags % 2 == 1, flags / 2 % 2 == 1, flags / 4 % 2 == 1);
    Perm(r || !(w || x), w, x)
  }

  // ---- mapping --------------------------------------------------------------------------

  /** `map` on whole pages: new pages are zero, mapped ones keep their bytes. */
  function MapRange(m: Memory, lo: U32, hi: U32, perm: Perm): Memory {
    m.(cells := map x: U32 | x in m.cells || lo <= x < hi ::
         if x !in m.cells then Cell(0, perm) else if lo <= x < hi then m.cells[x].(perm := perm) else m.cells[x])
  }

  /** `mprotect` on pages that are all mapped. */
  function Protect(m: Memory, lo: U32, hi: U32, perm: Perm): Memory {
    m.(cells := map x | x in m.cells :: if lo <= x < hi then m.cells[x].(perm := perm) else m.cells[x])
  }

  function Start(e: Elf, p: Segment): U32 { Wrap(e.bias + p.vaddr) }
  function PageStart(e: Elf, p: Segment): U32 { AlignDown(Start(e, p)) }
  function PageEnd(e: Elf, p: Segment): U32 { AlignUp(Wrap(e.bias + p.vaddr + p.memsz)) }

  /** `elf.bytes.subarray(p.offset, p.offset + p.filesz)`. */
  function FileBytes(e: Elf, p: Segment): Bytes {
    e.bytes[Min(p.offset, |e.bytes|)..Min(p.offset + p.filesz, |e.bytes|)]
  }

  /** The loop that stores zeros from a to just below end. */
  function ZeroFill(m: Memory, a: U32, end: U32): Stored {
    if a < end then WriteBytes(m, a, Zeros(end - a)) else Stored(true, m)
  }

  /** What `loadELF32Image` does for a PT_LOAD header. */
  function LoadSegment(m: Memory, e: Elf, p: Segment): Stored {
    var (lo, hi) := (PageStart(e, p), PageEnd(e, p));
    var st := WriteBytes(MapRange(m, lo, hi, RWX), Start(e, p), FileBytes(e, p));
    if !st.ok then st
    else
      var z := if p.memsz > p.filesz
               then ZeroFill(st.mem, Wrap(e.bias + p.vaddr + p.filesz), Wrap(e.bias + p.vaddr + p.memsz)) else st;
      if !z.ok then z else Stored(true, Protect(z.mem, lo, hi, FlagsToPerm(p.flags)))
  }

  function LoadFrom(m: Memory, e: Elf, i: nat): Stored
    requires i <= |e.ph|
    decreases |e.ph| - i
  {
    if i == |e.ph| then Stored(true, m)
    else if e.ph[i].kind != PT_LOAD then LoadFrom(m, e, i + 1)
    else
      var st := LoadSegment(m, e, e.ph[i]);
      if st.ok then LoadFrom(st.mem, e, i + 1) else st
  }

  function Load(m: Memory, e: Elf): Stored { LoadFrom(m, e, 0) }

  // ---- one segment ----------------------------------------------------------------------

  /** The segment lies below the last page and is not larger in the file than in
      memory. */
  predicate Proper(e: Elf, p: Segment) { e.bias + p.vaddr + p.memsz <= TWO32 - PAGE && p.filesz <= p.memsz }

  predicate Within(e: Elf, p: Segment, x: int) { e.bias + p.vaddr <= x < e.bias + p.vaddr + p.memsz }

  ghost predicate ByteIs(m: Memory, x: int, v: U8) { 0 <= x < TWO32 && x in m.cells && m.cells[x].value == v }

  ghost predicate HasBytes(m: Memory, a: int, bytes: Bytes) {
    forall i :: 0 <= i < |bytes| ==> ByteIs(m, a + i, bytes[i])
  }

  /** The segment's bytes are those of the file, and zeros up to its memory size. */
  ghost predicate Loaded(m: Memory, e: Elf, p: Segment)
    requires p.filesz <= p.memsz
  {
    && HasBytes(m, e.bias + p.vaddr, FileBytes(e, p))
    && HasBytes(m, e.bias + p.vaddr + p.filesz, Zeros(p.memsz - p.filesz))
  }

  /** Outside lo..hi mapped bytes are still mapped, with the same value, and newly mapped
      ones are zero. */
  ghost predicate Keeps(m: Memory, m': Memory, lo: int, hi: int) {
    && (forall x :: x in m.cells && !(lo <= x < hi) ==> x in m'.cells && m'.cells[x].value == m.cells[x].value)
    && (forall x :: x in m'.cells && x !in m.cells && !(lo <= x < hi) ==> m'.cells[x].value == 0)
  }

  /** The pages lo..hi have this permission; nothing else was mapped or protected. */
  ghost predicate Permits(m: Memory, m': Memory, lo: int, hi: int, perm: Perm) {
    forall x :: x in m'.cells ==>
      if lo <= x < hi then m'.cells[x].perm == perm else x in m.cells && m'.cells[x].perm == m.cells[x].perm
  }

  /** What was mapped stays mapped, and so does the range. */
  ghost predicate Covers(m: Memory, m': Memory, lo: int, hi: int) {
    forall x: U32 :: x in m.cells || lo <= x < hi ==> x in m'.cells
  }

  lemma PagesCover(e: Elf, p: Segment)
    requires Proper(e, p)
    ensures Start(e, p) == e.bias + p.vaddr && PageStart(e, p) <= e.bias + p.vaddr
    ensures e.bias + p.vaddr + p.memsz <= PageEnd(e, p) <= TWO32
    ensures Wrap(e.bias + p.vaddr + p.filesz) == e.bias + p.vaddr + p.filesz
    ensures Wrap(e.bias + p.vaddr + p.memsz) == e.bias + p.vaddr + p.memsz
    ensures PageStart(e, p) % PAGE == 0 && e.bias + p.vaddr < PageStart(e, p) + PAGE
    ensures PageEnd(e, p) % PAGE == 0 && PageEnd(e, p) < e.bias + p.vaddr + p.memsz + PAGE
  {
  }

  lemma MapRangeDone(m: Memory, lo: U32, hi: U32)
    ensures var m1 := MapRange(m, lo, hi, RWX); Owned(m1, lo, hi) && Keeps(m, m1, 0, 0)
    ensures Covers(m, MapRange(m, lo, hi, RWX), lo, hi)
    ensures var m1 := MapRange(m, lo, hi, RWX); Permits(m, m1, lo, hi, RWX)
  {
  }

  lemma ProtectDone(m: Memory, lo: U32, hi: U32, perm: Perm)
    ensures var m1 := Protect(m, lo, hi, perm);
            Keeps(m, m1, 0, 0) && m1.cells.Keys == m.cells.Keys && Permits(m, m1, lo, hi, perm)
  {
  }

  lemma RewritesKeeps(m: Memory, m': Memory, lo: int, hi: int)
    requires Rewrites(m, m', lo, hi)
    ensures Keeps(m, m', lo, hi)
  {
  }

  lemma KeepsWider(m: Memory, m': Memory, lo: int, hi: int, lo': int, hi': int)
    requires Keeps(m, m', lo, hi) && (lo >= hi || (lo' <= lo && hi <= hi'))
    ensures Keeps(m, m', lo', hi')
  {
  }

  lemma KeepsTrans(m0: Memory, m1: Memory, m2: Memory, lo: int, hi: int)
    requires Keeps(m0, m1, lo, hi) && Keeps(m1, m2, lo, hi)
    ensures Keeps(m0, m2, lo, hi)
  {
  }

  lemma HeldBytes(m: Memory, a: int, bytes: Bytes)
    requires Holds(m, a, bytes)
    ensures HasBytes(m, a, bytes)
  {
    forall i | 0 <= i < |bytes| ensures ByteIs(m, a + i, bytes[i]) {
      assert Read8(m, a + i) == Some(bytes[i]);
    }
  }

  lemma BytesKept(m: Memory, m': Memory, lo: int, hi: int, a: int, bytes: Bytes)
    requires HasBytes(m, a, bytes) && Keeps(m, m', lo, hi) && (hi <= lo || a + |bytes| <= lo || hi <= a)
    ensures HasBytes(m', a, bytes)
  {
    forall i | 0 <= i < |bytes| ensures ByteIs(m', a + i, bytes[i]) {
      assert ByteIs(m, a + i, bytes[i]);
    }
  }

  /** The two stores of a segment, on pages that are mapped for them. */
  lemma SegmentStored(m: Memory, e: Elf, p: Segment)
    requires Proper(e, p) && Owned(m, PageStart(e, p), PageEnd(e, p))
    ensures var s := e.bias + p.vaddr;
            var st := WriteBytes(m, Start(e, p), FileBytes(e, p));
            var z := if p.memsz > p.filesz then ZeroFill(st.mem, Wrap(s + p.filesz), Wrap(s + p.memsz)) else st;
            && st.ok && z.ok && Loaded(z.mem, e, p) && Rewrites(m, z.mem, s, s + p.memsz)
  {
    hide Owned, Rewrites, Holds, HasBytes, Keeps, WriteBytes, PageStart, PageEnd, Start, Wrap;
    var s, file := e.bias + p.vaddr, FileBytes(e, p);
    PagesCover(e, p);
    OwnedPart(m, PageStart(e, p), PageEnd(e, p), s, s + |file|);
    WriteBytesDone(m, s, file);
    var m1 := WriteBytes(m, s, file).mem;
    HeldBytes(m1, s, file);
    RewritesWider(m, m1, s, s + |file|, s, s + p.memsz);
    if p.memsz > p.filesz {
      var a, zeros := s + p.filesz, Zeros(p.memsz - p.filesz);
      StillOwned(m, m1, s, s + p.memsz, PageStart(e, p), PageEnd(e, p));
      OwnedPart(m1, PageStart(e, p), PageEnd(e, p), a, a + |zeros|);
      WriteBytesDone(m1, a, zeros);
      var m2 := WriteBytes(m1, a, zeros).mem;
      HeldBytes(m2, a, zeros);
      RewritesKeeps(m1, m2, a, a + |zeros|);
      BytesKept(m1, m2, a, a + |zeros|, s, file);
      RewritesWider(m1, m2, a, a + |zeros|, s, s + p.memsz);
      RewritesTrans(m, m1, m2, s, s + p.memsz);
    } else {
      NoBytes(m1, s + p.filesz);
    }
  }

  lemma StillOwned(m: Memory, m': Memory, a: int, b: int, lo: int, hi: int)
    requires Rewrites(m, m', a, b) && Owned(m, lo, hi)
    ensures Owned(m', lo, hi)
  {
    OwnedKept(m, m', lo, hi);
  }

  lemma NoBytes(m: Memory, a: int)
    ensures HasBytes(m, a, Zeros(0))
  {
  }

  /** Loading a proper segment never faults, puts its bytes in place, changes no
      mapped byte outside it, and leaves its pages with its permission. */
  lemma LoadSegmentDone(m: Memory, e: Elf, p: Segment)
    requires Proper(e, p)
    ensures var st := LoadSegment(m, e, p);
            && st.ok && Loaded(st.mem, e, p) && Keeps(m, st.mem, e.bias + p.vaddr, e.bias + p.vaddr + p.memsz)
            && Permits(m, st.mem, PageStart(e, p), PageEnd(e, p), FlagsToPerm(p.flags))
            && Covers(m, st.mem, PageStart(e, p), PageEnd(e, p))
  {
    hide Owned, Rewrites, HasBytes, Keeps, WriteBytes, ZeroFill, PageStart, PageEnd, Start, Wrap, MapRange, Protect,
         FlagsToPerm, FileBytes, Permits, Covers;
    var (lo, hi, s, end) := (PageStart(e, p), PageEnd(e, p), e.bias + p.vaddr, e.bias + p.vaddr + p.memsz);
    var m1 := MapRange(m, lo, hi, RWX);
    MapRangeDone(m, lo, hi);
    SegmentStored(m1, e, p);
    var st := WriteBytes(m1, Start(e, p), FileBytes(e, p));
    var z := if p.memsz > p.filesz then ZeroFill(st.mem, Wrap(s + p.filesz), Wrap(end)) else st;
    var m2 := Protect(z.mem, lo, hi, FlagsToPerm(p.flags));
    ProtectDone(z.mem, lo, hi, FlagsToPerm(p.flags));
    RewritesKeeps(m1, z.mem, s, end);
    KeepsWider(m, m1, 0, 0, s, end);
    KeepsWider(z.mem, m2, 0, 0, s, end);
    KeepsTrans(m, m1, z.mem, s, end);
    KeepsTrans(m, z.mem, m2, s, end);
    BytesKept(z.mem, m2, 0, 0, s, FileBytes(e, p));
    BytesKept(z.mem, m2, 0, 0, s + p.filesz, Zeros(p.memsz - p.filesz));
    PermitsChain(m, m1, z.mem, m2, lo, hi, s, end, FlagsToPerm(p.flags));
    CoversChain(m, m1, z.mem, m2, lo, hi, s, end);
  }

  /** What the guest may do with a byte: read it, write it, run it. What can be read is
      fetched too. */
  ghost predicate Allows(m: Memory, x: U32, read: bool, write: bool, run: bool) {
    && (Read8(m, x).Some? <==> read)
    && (forall v: U8 :: Write8(m, x, v).Some? <==> write)
    && x in m.cells && (m.cells[x].perm.x <==> run) && (Read8Exec(m, x).Some? <==> read || run)
  }

  /** Only the three low flag bits count. */
  lemma LowFlags(flags: U32)
    ensures FlagsToPerm(flags) == FlagsToPerm(flags % 8)
  {
    var q, f := flags / 8, flags % 8;
    assert flags == 8 * q + f;
    assert flags / 2 == 4 * q + f / 2 && flags / 4 == 2 * q + f / 4;
  }

  /** The access that header flags ask for: PF_X is 1, PF_W 2 and PF_R 4, and a
      segment with no flag can be read. */
  lemma FlagsMean(flags: U32)
    ensures FlagsToPerm(flags).r <==> flags % 8 in {0, 4, 5, 6, 7}
    ensures FlagsToPerm(flags).w <==> flags % 8 in {2, 3, 6, 7}
    ensures FlagsToPerm(flags).x <==> flags % 8 in {1, 3, 5, 7}
  {
    LowFlags(flags);
    FewFlags(flags % 8);
  }

  lemma FewFlags(f: U32)
    requires f < 8
    ensures FlagsToPerm(f).r <==> f in {0, 4, 5, 6, 7}
    ensures FlagsToPerm(f).w <==> f in {2, 3, 6, 7}
    ensures FlagsToPerm(f).x <==> f in {1, 3, 5, 7}
  {
  }

  lemma FlagsAllow(m: Memory, x: U32, flags: U32)
    requires x in m.cells && m.cells[x].perm == FlagsToPerm(flags)
    ensures Allows(m, x, flags % 8 in {0, 4, 5, 6, 7}, flags % 8 in {2, 3, 6, 7}, flags % 8 in {1, 3, 5, 7})
  {
    hide FlagsToPerm;
    FlagsMean(flags);
  }

  /** After loading a segment the guest can read, write and run the bytes of its pages
      as the flags of the segment say. */
  lemma SegmentAccess(m: Memory, e: Elf, p: Segment, x: U32)
    requires Proper(e, p) && PageStart(e, p) <= x < PageEnd(e, p)
    ensures Allows(LoadSegment(m, e, p).mem, x, p.flags % 8 in {0, 4, 5, 6, 7}, p.flags % 8 in {2, 3, 6, 7},
                   p.flags % 8 in {1, 3, 5, 7})
  {
    hide LoadSegment, FlagsToPerm, PageStart, PageEnd, Allows;
    LoadSegmentDone(m, e, p);
    FlagsAllow(LoadSegment(m, e, p).mem, x, p.flags);
  }

  lemma CoversChain(m: Memory, m1: Memory, z: Memory, m2: Memory, lo: int, hi: int, s: int, end: int)
    requires Covers(m, m1, lo, hi) && Rewrites(m1, z, s, end) && m2.cells.Keys == z.cells.Keys
    ensures Covers(m, m2, lo, hi)
  {
  }

  lemma PermitsChain(m: Memory, m1: Memory, z: Memory, m2: Memory, lo: int, hi: int, s: int, end: int, perm: Perm)
    requires Permits(m, m1, lo, hi, RWX) && Rewrites(m1, z, s, end) && Permits(z, m2, lo, hi, perm)
    requires m2.cells.Keys == z.cells.Keys
    ensures Permits(m, m2, lo, hi, perm)
  {
  }

  // ---- the whole image ------------------------------------------------------------------

  predicate IsLoad(e: Elf, i: int) { 0 <= i < |e.ph| && e.ph[i].kind == 1 }

  predicate Apart(p: Segment, q: Segment) { p.vaddr + p.memsz <= q.vaddr || q.vaddr + q.memsz <= p.vaddr }

  /** Every PT_LOAD segment is proper, and no two share a byte. */
  ghost predicate WellFormed(e: Elf) {
    && (forall i :: IsLoad(e, i) ==> Proper(e, e.ph[i]))
    && (forall i, j :: IsLoad(e, i) && IsLoad(e, j) && i != j ==> Apart(e.ph[i], e.ph[j]))
  }

  /** x is in a segment from header k on. */
  ghost predicate InSegment(e: Elf, k: nat, x: int) { exists i :: k <= i && IsLoad(e, i) && Within(e, e.ph[i], x) }

  ghost predicate LoadedFrom(m: Memory, e: Elf, k: nat)
    requires WellFormed(e)
  {
    forall i :: k <= i && IsLoad(e, i) ==> Proper(e, e.ph[i]) && Loaded(m, e, e.ph[i])
  }

  /** A segment's bytes are not touched by the segments after it. */
  lemma LoadedKept(m: Memory, m': Memory, e: Elf, p: Segment)
    requires Proper(e, p) && Loaded(m, e, p)
    requires forall x :: x in m.cells && Within(e, p, x) ==> x in m'.cells && m'.cells[x].value == m.cells[x].value
    ensures Loaded(m', e, p)
  {
    var s, file, zeros := e.bias + p.vaddr, FileBytes(e, p), Zeros(p.memsz - p.filesz);
    forall i | 0 <= i < |file| ensures ByteIs(m', s + i, file[i]) {
      assert ByteIs(m, s + i, file[i]);
    }
    forall i | 0 <= i < |zeros| ensures ByteIs(m', s + p.filesz + i, zeros[i]) {
      assert ByteIs(m, s + p.filesz + i, zeros[i]);
    }
  }

  lemma {:induction false} LoadFromDone(m: Memory, e: Elf, k: nat)
    requires WellFormed(e) && k <= |e.ph|
    ensures var st := LoadFrom(m, e, k);
            && st.ok && LoadedFrom(st.mem, e, k)
            && (forall x :: x in m.cells && !InSegment(e, k, x) ==> ByteIs(st.mem, x, m.cells[x].value))
            && (forall x :: x in st.mem.cells && x !in m.cells && !InSegment(e, k, x) ==> ByteIs(st.mem, x, 0))
    decreases |e.ph| - k
  {
    hide Loaded, Keeps, LoadSegment, Proper, Within, Apart, Permits, Covers;
    if k < |e.ph| {
      if IsLoad(e, k) {
        var m1 := LoadSegment(m, e, e.ph[k]).mem;
        LoadSegmentDone(m, e, e.ph[k]);
        LoadFromDone(m1, e, k + 1);
        LoadOne(m, m1, LoadFrom(m1, e, k + 1).mem, e, k);
      } else {
        LoadFromDone(m, e, k + 1);
      }
    }
  }

  lemma LoadOne(m: Memory, m1: Memory, m2: Memory, e: Elf, k: nat)
    requires WellFormed(e) && IsLoad(e, k) && Proper(e, e.ph[k])
    requires Loaded(m1, e, e.ph[k]) && Keeps(m, m1, e.bias + e.ph[k].vaddr, e.bias + e.ph[k].vaddr + e.ph[k].memsz)
    requires LoadedFrom(m2, e, k + 1)
    requires forall x :: x in m1.cells && !InSegment(e, k + 1, x) ==> ByteIs(m2, x, m1.cells[x].value)
    requires forall x :: x in m2.cells && x !in m1.cells && !InSegment(e, k + 1, x) ==> ByteIs(m2, x, 0)
    ensures LoadedFrom(m2, e, k)
    ensures forall x :: x in m.cells && !InSegment(e, k, x) ==> ByteIs(m2, x, m.cells[x].value)
    ensures forall x :: x in m2.cells && x !in m.cells && !InSegment(e, k, x) ==> ByteIs(m2, x, 0)
  {
    hide Loaded;
    forall x | x in m1.cells && Within(e, e.ph[k], x)
      ensures x in m2.cells && m2.cells[x].value == m1.cells[x].value
    {
      assert !InSegment(e, k + 1, x);
      assert ByteIs(m2, x, m1.cells[x].value);
    }
    LoadedKept(m1, m2, e, e.ph[k]);
    forall x | x in m.cells && !InSegment(e, k, x) ensures ByteIs(m2, x, m.cells[x].value) {
      assert !Within(e, e.ph[k], x);
      assert !InSegment(e, k + 1, x);
    }
    forall x | x in m2.cells && x !in m.cells && !InSegment(e, k, x) ensures ByteIs(m2, x, 0) {
      assert !Within(e, e.ph[k], x);
      assert !InSegment(e, k + 1, x);
    }
  }

  /** `vaddrToOffset`: the first PT_LOAD header from k on whose file part covers the
      address. */
  function VaddrToOffsetFrom(e: Elf, v: int, k: nat): Option<nat>
    requires k <= |e.ph|
    decreases |e.ph| - k
  {
    if k == |e.ph| then None
    else
      var p := e.ph[k];
      if p.kind == PT_LOAD && p.vaddr <= v < p.vaddr + p.filesz then Some(p.offset + (v - p.vaddr))
      else VaddrToOffsetFrom(e, v, k + 1)
  }

  function VaddrToOffset(e: Elf, v: int): Option<nat> { VaddrToOffsetFrom(e, v, 0) }

  lemma {:induction false} CoveringSegment(e: Elf, v: int, k: nat) returns (i: int)
    requires k <= |e.ph| && VaddrToOffsetFrom(e, v, k).Some?
    ensures IsLoad(e, i) && e.ph[i].vaddr <= v < e.ph[i].vaddr + e.ph[i].filesz
    ensures VaddrToOffsetFrom(e, v, k).value == e.ph[i].offset + (v - e.ph[i].vaddr)
    decreases |e.ph| - k
  {
    var p := e.ph[k];
    if p.kind == PT_LOAD && p.vaddr <= v < p.vaddr + p.filesz { i := k; } else { i := CoveringSegment(e, v, k + 1); }
  }

  /** The loader and the address translation agree: a loaded address holds the
      file's byte at its offset. */
  lemma LoadedByte(m: Memory, e: Elf, v: int)
    requires WellFormed(e) && LoadedFrom(m, e, 0)
    requires VaddrToOffset(e, v).Some? && VaddrToOffset(e, v).value < |e.bytes|
    ensures ByteIs(m, e.bias + v, e.bytes[VaddrToOffset(e, v).value])
  {
    hide VaddrToOffsetFrom, HasBytes, WellFormed;
    var i := CoveringSegment(e, v, 0);
    var p := e.ph[i];
    var j := v - p.vaddr;
    assert Loaded(m, e, p);
    assert FileBytes(e, p)[j] == e.bytes[p.offset + j];
    ByteOfRun(m, e.bias + p.vaddr, FileBytes(e, p), j);
  }

  lemma ByteOfRun(m: Memory, a: int, bytes: Bytes, i: nat)
    requires HasBytes(m, a, bytes) && i < |bytes|
    ensures ByteIs(m, a + i, bytes[i])
  {
  }

  /** v lies past the file part of segment i. */
  predicate InBss(e: Elf, i: int, v: int) {
    IsLoad(e, i) && e.ph[i].vaddr + e.ph[i].filesz <= v < e.ph[i].vaddr + e.ph[i].memsz
  }

  lemma ZeroByte(m: Memory, e: Elf, i: int, v: int)
    requires WellFormed(e) && LoadedFrom(m, e, 0) && InBss(e, i, v)
    ensures ByteIs(m, e.bias + v, 0)
  {
    hide HasBytes, WellFormed;
    var p := e.ph[i];
    assert Loaded(m, e, p);
    ByteOfRun(m, e.bias + p.vaddr + p.filesz, Zeros(p.memsz - p.filesz), v - p.vaddr - p.filesz);
  }

  /** The loaded image, byte by byte: the file where the segment has file bytes,
      zero from there to its memory size, and everywhere else whatever was mapped
      before, or zero where a page is new; and loading never faults. */
  lemma ImageBytes(m: Memory, e: Elf)
    requires WellFormed(e)
    ensures var st := Load(m, e);
            && st.ok
            && (forall v :: VaddrToOffset(e, v).Some? && VaddrToOffset(e, v).value < |e.bytes| ==>
                  ByteIs(st.mem, e.bias + v, e.bytes[VaddrToOffset(e, v).value]))
            && (forall i, v :: InBss(e, i, v) ==> ByteIs(st.mem, e.bias + v, 0))
            && (forall x :: x in m.cells && !InSegment(e, 0, x) ==> ByteIs(st.mem, x, m.cells[x].value))
            && (forall x :: x in st.mem.cells && x !in m.cells && !InSegment(e, 0, x) ==> ByteIs(st.mem, x, 0))
  {
    hide VaddrToOffset, LoadedFrom, LoadFrom, WellFormed, InSegment, ByteIs, InBss;
    LoadFromDone(m, e, 0);
    var m' := LoadFrom(m, e, 0).mem;
    forall v | VaddrToOffset(e, v).Some? && VaddrToOffset(e, v).value < |e.bytes|
      ensures ByteIs(m', e.bias + v, e.bytes[VaddrToOffset(e, v).value])
    {
      LoadedByte(m', e, v);
    }
    forall i, v | InBss(e, i, v) ensures ByteIs(m', e.bias + v, 0) {
      ZeroByte(m', e, i, v);
    }
  }

  // ---- who can read it ------------------------------------------------------------------

  predicate CanRead(m: Memory, x: U32) { x in m.cells && m.cells[x].perm.r }

  /** No segment is write-only or execute-only. */
  ghost predicate AllReadable(e: Elf) { forall i :: IsLoad(e, i) ==> e.ph[i].flags % 8 in {0, 4, 5, 6, 7} }

  lemma ReadableStep(m: Memory, e: Elf, k: nat, x: U32)
    requires WellFormed(e) && AllReadable(e) && IsLoad(e, k)
    ensures CanRead(m, x) || Within(e, e.ph[k], x) ==> CanRead(LoadSegment(m, e, e.ph[k]).mem, x)
  {
    hide LoadSegment, Loaded, Keeps, FlagsToPerm, PageStart, PageEnd;
    LoadSegmentDone(m, e, e.ph[k]);
    FlagsMean(e.ph[k].flags);
    PagesCover(e, e.ph[k]);
  }

  /** Pages of two segments may overlap, and then the later permission wins; but as
      long as all segments are readable every byte of them is. */
  lemma {:induction false} LoadFromReadable(m: Memory, e: Elf, k: nat, x: U32)
    requires WellFormed(e) && AllReadable(e) && k <= |e.ph|
    requires CanRead(m, x) || InSegment(e, k, x)
    ensures CanRead(LoadFrom(m, e, k).mem, x)
    decreases |e.ph| - k
  {
    hide LoadSegment, Within, CanRead, WellFormed, AllReadable, Loaded, Keeps, Permits, Covers, FlagsToPerm;
    if k < |e.ph| {
      if IsLoad(e, k) {
        LoadSegmentDone(m, e, e.ph[k]) by { assert Proper(e, e.ph[k]) by { OneProper(e, k); } }
        ReadableStep(m, e, k, x);
        LoadFromReadable(LoadSegment(m, e, e.ph[k]).mem, e, k + 1, x);
      } else {
        LoadFromReadable(m, e, k + 1, x);
      }
    }
  }

  /** No segment after header i has a page with x in it. */
  ghost predicate LastOn(e: Elf, i: nat, x: int) {
    forall j :: i < j && IsLoad(e, j) ==> !(PageStart(e, e.ph[j]) <= x < PageEnd(e, e.ph[j]))
  }

  lemma {:induction false} LaterLeave(m: Memory, e: Elf, k: nat, x: U32, perm: Perm)
    requires WellFormed(e) && k <= |e.ph| && x in m.cells && m.cells[x].perm == perm
    requires forall j :: k <= j && IsLoad(e, j) ==> !(PageStart(e, e.ph[j]) <= x < PageEnd(e, e.ph[j]))
    ensures var m' := LoadFrom(m, e, k).mem; x in m'.cells && m'.cells[x].perm == perm
    decreases |e.ph| - k
  {
    hide LoadSegment, FlagsToPerm, PageStart, PageEnd, Loaded, Keeps;
    if k < |e.ph| {
      if IsLoad(e, k) {
        assert Proper(e, e.ph[k]);
        LoadSegmentDone(m, e, e.ph[k]);
        LaterLeave(LoadSegment(m, e, e.ph[k]).mem, e, k + 1, x, perm);
      } else {
        LaterLeave(m, e, k + 1, x, perm);
      }
    }
  }

  lemma {:induction false} PageAccess(m: Memory, e: Elf, k: nat, i: nat, x: U32)
    requires WellFormed(e) && k <= i && IsLoad(e, i) && PageStart(e, e.ph[i]) <= x < PageEnd(e, e.ph[i])
    requires LastOn(e, i, x)
    ensures var m' := LoadFrom(m, e, k).mem; x in m'.cells && m'.cells[x].perm == FlagsToPerm(e.ph[i].flags)
    decreases i - k
  {
    hide LoadSegment, FlagsToPerm, PageStart, PageEnd, Loaded, Keeps;
    if IsLoad(e, k) {
      assert Proper(e, e.ph[k]);
      LoadSegmentDone(m, e, e.ph[k]);
    }
    var m1 := if IsLoad(e, k) then LoadSegment(m, e, e.ph[k]).mem else m;
    if k < i { PageAccess(m1, e, k + 1, i, x); } else { LaterLeave(m1, e, k + 1, x, FlagsToPerm(e.ph[i].flags)); }
  }

  /** In the loaded image the guest can read, write and run each byte as the last
      segment with a page there says. */
  lemma ImageAccess(m: Memory, e: Elf, i: nat, x: U32)
    requires WellFormed(e) && IsLoad(e, i) && PageStart(e, e.ph[i]) <= x < PageEnd(e, e.ph[i]) && LastOn(e, i, x)
    ensures var flags := e.ph[i].flags % 8;
            Allows(Load(m, e).mem, x, flags in {0, 4, 5, 6, 7}, flags in {2, 3, 6, 7}, flags in {1, 3, 5, 7})
  {
    hide LoadFrom, FlagsToPerm, PageStart, PageEnd, Allows, WellFormed;
    PageAccess(m, e, 0, i, x);
    FlagsAllow(Load(m, e).mem, x, e.ph[i].flags);
  }

  lemma OneProper(e: Elf, k: nat)
    requires WellFormed(e) && IsLoad(e, k)
    ensures Proper(e, e.ph[k])
  {
  }

  // ---- relocation -----------------------------------------------------------------------

  /** An entry of DT_REL or DT_JMPREL. */
  datatype Reloc = Reloc(offset: U32, kind: U8, sym: U32)

  const R_NONE: U8 := 0
  const R_32: U8 := 1
  const R_PC32: U8 := 2
  const R_GLOB_DAT: U8 := 6
  const R_JMP_SLOT: U8 := 7
  const R_RELATIVE: U8 := 8

  /** The relocations to apply, how symbols resolve (0 for not found), and whether an
      unknown type is an error. */
  datatype Relocations = Relocations(list: seq<Reloc>, resolve: U32 -> U32, strict: bool)

  predicate Supported(kind: U8) {
    kind == R_NONE || kind == R_32 || kind == R_PC32 || kind == R_GLOB_DAT || kind == R_JMP_SLOT || kind == R_RELATIVE
  }

  function Site(e: Elf, r: Reloc): U32 { Wrap(e.bias + r.offset) }

  /** The word a relocation writes over `word`; None if it writes nothing. */
  function NewWord(e: Elf, rs: Relocations, r: Reloc, word: U32): Option<U32> {
    var sym := rs.resolve(r.sym);
    if r.kind == R_RELATIVE then Some(Wrap(e.bias + word))
    else if r.kind == R_GLOB_DAT || r.kind == R_JMP_SLOT then (if sym == 0 then None else Some(sym))
    else if r.kind == R_32 then (if r.sym != 0 && sym == 0 then None else Some(Wrap(sym + word)))
    else if r.kind == R_PC32 then (if r.sym != 0 && sym == 0 then None else Some(Wrap(sym + word - Site(e, r))))
    else None
  }

  /** The word at the site afterwards. */
  function Patched(e: Elf, rs: Relocations, r: Reloc, word: U32): U32 {
    match NewWord(e, rs, r, word) case None => word case Some(v) => v
  }

  /** `forceWrite32`, which does not ask for write permission. */
  function ForceFrom(m: Memory, a: U32, v: U32, k: nat): Stored
    requires k <= 4
    decreases 4 - k
  {
    if k == 4 then Stored(true, m)
    else if At(a, k) !in m.cells then Stored(false, m)
    else ForceFrom(Poke(m, At(a, k), ByteOf(v, k)), a, v, k + 1)
  }

  /** `applyOne`; not ok where it throws. */
  function ApplyOne(m: Memory, e: Elf, rs: Relocations, r: Reloc): Stored {
    match Read32(m, Site(e, r))
    case None => Stored(false, m)
    case Some(word) =>
      match NewWord(e, rs, r, word)
      case Some(v) => ForceFrom(m, Site(e, r), v, 0)
      case None => Stored(Supported(r.kind) || !rs.strict, m)
  }

  function ApplyFrom(m: Memory, e: Elf, rs: Relocations, i: nat): Stored
    requires i <= |rs.list|
    decreases |rs.list| - i
  {
    if i == |rs.list| then Stored(true, m)
    else
      var st := ApplyOne(m, e, rs, rs.list[i]);
      if st.ok then ApplyFrom(st.mem, e, rs, i + 1) else st
  }

  /** `applyELF32Relocations` for the given list. */
  function Relocate(m: Memory, e: Elf, rs: Relocations): Stored { ApplyFrom(m, e, rs, 0) }

  ghost predicate ReadableWord(m: Memory, a: U32) { a + 4 <= TWO32 && forall i :: 0 <= i < 4 ==> CanRead(m, At(a, i)) }

  lemma WordReadable(m: Memory, a: U32)
    requires ReadableWord(m, a)
    ensures Read32(m, a).Some? && forall i :: 0 <= i < 4 ==> At(a, i) == a + i && a + i in m.cells
  {
    assert CanRead(m, At(a, 0)) && CanRead(m, At(a, 1)) && CanRead(m, At(a, 2)) && CanRead(m, At(a, 3));
  }

  lemma PokeAny(m: Memory, x: U32, v: U8)
    requires x in m.cells
    ensures Rewrites(m, Poke(m, x, v), x, x + 1) && Poke(m, x, v).cells[x] == m.cells[x].(value := v)
  {
  }

  lemma {:induction false} ForceFromDone(m: Memory, a: U32, v: U32, k: nat)
    requires ReadableWord(m, a) && k <= 4
    ensures var st := ForceFrom(m, a, v, k);
            && st.ok && Rewrites(m, st.mem, a + k, a + 4)
            && forall i :: k <= i < 4 ==> Read8(st.mem, At(a, i)) == Some(ByteOf(v, i))
    decreases 4 - k
  {
    hide ByteOf, Poke;
    if k < 4 {
      WordReadable(m, a);
      var x := At(a, k);
      assert x == a + k;
      var m1 := Poke(m, x, ByteOf(v, k));
      PokeAny(m, x, ByteOf(v, k));
      StillReadable(m, m1, a);
      ForceFromDone(m1, a, v, k + 1);
      ForceStep(m, m1, ForceFrom(m1, a, v, k + 1).mem, a, v, k);
    }
  }

  lemma StillReadable(m: Memory, m': Memory, a: U32)
    requires SameMap(m, m') && ReadableWord(m, a)
    ensures ReadableWord(m', a)
  {
    forall i | 0 <= i < 4 ensures CanRead(m', At(a, i)) { assert CanRead(m, At(a, i)); }
  }

  lemma ForceStep(m: Memory, m1: Memory, m2: Memory, a: U32, v: U32, k: nat)
    requires k < 4 && a + 4 <= TWO32 && CanRead(m, At(a, k))
    requires Rewrites(m, m1, a + k, a + k + 1) && m1.cells[At(a, k)].value == ByteOf(v, k)
    requires Rewrites(m1, m2, a + k + 1, a + 4)
    ensures Rewrites(m, m2, a + k, a + 4) && Read8(m2, At(a, k)) == Some(ByteOf(v, k))
  {
    hide ByteOf;
    NoWrap(a, k);
  }

  lemma ForceDone(m: Memory, a: U32, v: U32)
    requires ReadableWord(m, a)
    ensures var st := ForceFrom(m, a, v, 0);
            st.ok && Rewrites(m, st.mem, a, a + 4) && Read32(st.mem, a) == Some(v)
  {
    hide ByteOf, Read8, Rewrites, FromBytes, At;
    ForceFromDone(m, a, v, 0);
    var m' := ForceFrom(m, a, v, 0).mem;
    assert At(a, 0) == a by { NoWrap(a, 0); }
    assert Read8(m', At(a, 0)) == Some(ByteOf(v, 0)) && Read8(m', At(a, 1)) == Some(ByteOf(v, 1));
    assert Read8(m', At(a, 2)) == Some(ByteOf(v, 2)) && Read8(m', At(a, 3)) == Some(ByteOf(v, 3));
    BytesRoundTrip(v);
  }

  lemma WordKept(m: Memory, m': Memory, a: U32)
    requires ReadableWord(m, a) && forall x: U32 :: a <= x < a + 4 ==> SameCell(m, m', x)
    ensures Read32(m', a) == Read32(m, a) && ReadableWord(m', a)
  {
    hide FromBytes;
    WordReadable(m, a);
    forall i | 0 <= i < 4 ensures CanRead(m', At(a, i)) && Read8(m', At(a, i)) == Read8(m, At(a, i)) {
      assert CanRead(m, At(a, i)) && SameCell(m, m', At(a, i));
    }
    assert Read8(m', At(a, 0)) == Read8(m, At(a, 0)) by { NoWrap(a, 0); }
    assert At(a, 0) == a by { NoWrap(a, 0); }
    assert Read8(m', At(a, 1)) == Read8(m, At(a, 1)) && Read8(m', At(a, 2)) == Read8(m, At(a, 2));
    assert Read8(m', At(a, 3)) == Read8(m, At(a, 3));
  }

  function WordOf(m: Memory, a: U32): U32 { match Read32(m, a) case None => 0 case Some(v) => v }

  lemma SameRewrites(m: Memory, a: int)
    ensures Rewrites(m, m, a, a + 4)
  {
  }

  /** One site has its new word and nothing else changed. */
  ghost predicate Retouched(m: Memory, m': Memory, e: Elf, rs: Relocations, r: Reloc) {
    var a := Site(e, r);
    Rewrites(m, m', a, a + 4) && Read32(m', a) == Some(Patched(e, rs, r, WordOf(m, a)))
  }

  lemma ApplyOneDone(m: Memory, e: Elf, rs: Relocations, r: Reloc)
    requires ReadableWord(m, Site(e, r)) && (rs.strict ==> Supported(r.kind))
    ensures ApplyOne(m, e, rs, r).ok && Retouched(m, ApplyOne(m, e, rs, r).mem, e, rs, r)
  {
    hide Read32, ForceFrom, Site, ReadableWord, Rewrites;
    WordReadable(m, Site(e, r));
    var word := WordOf(m, Site(e, r));
    var n := NewWord(e, rs, r, word);
    if n.Some? { ForceDone(m, Site(e, r), n.value); } else { SameRewrites(m, Site(e, r)); }
  }

  predicate SitesApart(e: Elf, rs: Relocations, i: int, j: int) {
    && 0 <= i < |rs.list| && 0 <= j < |rs.list|
    && (Site(e, rs.list[i]) + 4 <= Site(e, rs.list[j]) || Site(e, rs.list[j]) + 4 <= Site(e, rs.list[i]))
  }

  ghost predicate Sites(m: Memory, e: Elf, rs: Relocations, k: nat) {
    && (forall i :: k <= i < |rs.list| ==> ReadableWord(m, Site(e, rs.list[i])) && (rs.strict ==> Supported(rs.list[i].kind)))
    && (forall i, j :: k <= i < j < |rs.list| ==> SitesApart(e, rs, i, j))
  }

  ghost predicate InSite(e: Elf, rs: Relocations, k: nat, x: int) {
    exists i :: k <= i < |rs.list| && Site(e, rs.list[i]) <= x < Site(e, rs.list[i]) + 4
  }

  ghost predicate Applied(m: Memory, m': Memory, e: Elf, rs: Relocations, k: nat) {
    && SameMap(m, m')
    && (forall x :: !InSite(e, rs, k, x) && x in m.cells ==> m'.cells[x] == m.cells[x])
    && (forall i :: k <= i < |rs.list| ==>
          var a := Site(e, rs.list[i]);
          Read32(m', a) == Some(Patched(e, rs, rs.list[i], WordOf(m, a))))
  }

  lemma OtherSites(m: Memory, m1: Memory, e: Elf, rs: Relocations, k: nat)
    requires Sites(m, e, rs, k) && k < |rs.list|
    requires Rewrites(m, m1, Site(e, rs.list[k]), Site(e, rs.list[k]) + 4)
    ensures Sites(m1, e, rs, k + 1)
    ensures forall i :: k < i < |rs.list| ==> WordOf(m1, Site(e, rs.list[i])) == WordOf(m, Site(e, rs.list[i]))
  {
    hide Read32, ReadableWord, Site;
    forall i | k < i < |rs.list|
      ensures ReadableWord(m1, Site(e, rs.list[i])) && WordOf(m1, Site(e, rs.list[i])) == WordOf(m, Site(e, rs.list[i]))
    {
      assert SitesApart(e, rs, k, i);
      WordApart(m, m1, Site(e, rs.list[k]), Site(e, rs.list[i]));
    }
  }

  lemma WordApart(m: Memory, m1: Memory, a: U32, b: U32)
    requires ReadableWord(m, b) && Rewrites(m, m1, a, a + 4) && (a + 4 <= b || b + 4 <= a)
    ensures ReadableWord(m1, b) && Read32(m1, b) == Read32(m, b)
  {
    hide Read32, ReadableWord;
    forall x: U32 | b <= x < b + 4 ensures SameCell(m, m1, x) {
    }
    WordKept(m, m1, b);
  }

  lemma ThisSite(m1: Memory, m2: Memory, e: Elf, rs: Relocations, k: nat)
    requires k < |rs.list| && ReadableWord(m1, Site(e, rs.list[k])) && Applied(m1, m2, e, rs, k + 1)
    requires forall j :: k < j < |rs.list| ==> SitesApart(e, rs, k, j)
    ensures Read32(m2, Site(e, rs.list[k])) == Read32(m1, Site(e, rs.list[k]))
  {
    hide Read32, ReadableWord, Site, Patched;
    var a := Site(e, rs.list[k]);
    forall x: U32 | a <= x < a + 4 ensures SameCell(m1, m2, x) {
      if InSite(e, rs, k + 1, x) {
        var j :| k + 1 <= j < |rs.list| && Site(e, rs.list[j]) <= x < Site(e, rs.list[j]) + 4;
        assert SitesApart(e, rs, k, j);
      }
    }
    WordKept(m1, m2, a);
  }

  lemma {:induction false} ApplyFromDone(m: Memory, e: Elf, rs: Relocations, k: nat)
    requires k <= |rs.list| && Sites(m, e, rs, k)
    ensures var st := ApplyFrom(m, e, rs, k); st.ok && Applied(m, st.mem, e, rs, k)
    decreases |rs.list| - k
  {
    hide Read32, ReadableWord, Site, Patched, ApplyOne, Applied, Sites, Rewrites;
    if k == |rs.list| {
      AppliedNothing(m, e, rs);
    } else {
      SiteHere(m, e, rs, k);
      ApplyOneDone(m, e, rs, rs.list[k]);
      var m1 := ApplyOne(m, e, rs, rs.list[k]).mem;
      OtherSites(m, m1, e, rs, k);
      ApplyFromDone(m1, e, rs, k + 1);
      AppliedStep(m, m1, ApplyFrom(m1, e, rs, k + 1).mem, e, rs, k);
    }
  }

  lemma AppliedNothing(m: Memory, e: Elf, rs: Relocations)
    ensures Applied(m, m, e, rs, |rs.list|)
  {
  }

  lemma SiteHere(m: Memory, e: Elf, rs: Relocations, k: nat)
    requires Sites(m, e, rs, k) && k < |rs.list|
    ensures ReadableWord(m, Site(e, rs.list[k])) && (rs.strict ==> Supported(rs.list[k].kind))
    ensures forall j :: k < j < |rs.list| ==> SitesApart(e, rs, k, j)
  {
  }

  lemma AppliedStep(m: Memory, m1: Memory, m2: Memory, e: Elf, rs: Relocations, k: nat)
    requires k < |rs.list| && Sites(m, e, rs, k)
    requires Retouched(m, m1, e, rs, rs.list[k])
    requires forall i :: k < i < |rs.list| ==> WordOf(m1, Site(e, rs.list[i])) == WordOf(m, Site(e, rs.list[i]))
    requires Applied(m1, m2, e, rs, k + 1)
    ensures Applied(m, m2, e, rs, k)
  {
    hide Read32, ReadableWord, Site, Patched, Sites;
    SiteHere(m, e, rs, k);
    StillReadable(m, m1, Site(e, rs.list[k]));
    ThisSite(m1, m2, e, rs, k);
    forall x | !InSite(e, rs, k, x) && x in m.cells ensures m2.cells[x] == m.cells[x] {
      assert !InSite(e, rs, k + 1, x);
    }
  }

  /** Relocating disjoint, readable sites: each site ends with the word its type
      gives from the word that was there before any relocation, and every byte
      outside the sites is unchanged. */
  lemma RelocateDone(m: Memory, e: Elf, rs: Relocations)
    requires Sites(m, e, rs, 0)
    ensures var st := Relocate(m, e, rs); st.ok && Applied(m, st.mem, e, rs, 0)
  {
    hide Applied, Sites;
    ApplyFromDone(m, e, rs, 0);
  }

  // ---- when relocating fails --------------------------------------------------------------

  /** The four bytes from a on can be read, also across the top of memory. */
  ghost predicate Reads(m: Memory, a: U32) { forall i :: 0 <= i < 4 ==> CanRead(m, At(a, i)) }

  lemma ReadsIff(m: Memory, a: U32)
    ensures Read32(m, a).Some? <==> Reads(m, a)
  {
    hide FromBytes, At;
    AtZero(a);
    if Reads(m, a) {
      assert CanRead(m, At(a, 0)) && CanRead(m, At(a, 1)) && CanRead(m, At(a, 2)) && CanRead(m, At(a, 3));
    }
  }

  lemma {:induction false} ForceMaps(m: Memory, a: U32, v: U32, k: nat)
    requires k <= 4 && Reads(m, a)
    ensures ForceFrom(m, a, v, k).ok && SameMap(m, ForceFrom(m, a, v, k).mem)
    decreases 4 - k
  {
    hide At, ByteOf;
    if k < 4 {
      assert CanRead(m, At(a, k));
      var m1 := Poke(m, At(a, k), ByteOf(v, k));
      forall i | 0 <= i < 4 ensures CanRead(m1, At(a, i)) { assert CanRead(m, At(a, i)); }
      ForceMaps(m1, a, v, k + 1);
    }
  }

  /** One entry is refused exactly when its site cannot be read or its type is unknown
      and the caller is strict; mappings and permissions stay. */
  lemma ApplyOneIff(m: Memory, e: Elf, rs: Relocations, r: Reloc)
    ensures ApplyOne(m, e, rs, r).ok <==> Reads(m, Site(e, r)) && (rs.strict ==> r.kind in {0, 1, 2, 6, 7, 8})
    ensures SameMap(m, ApplyOne(m, e, rs, r).mem)
  {
    hide Reads, Read32, ForceFrom, Wrap;
    ReadsIff(m, Site(e, r));
    if Reads(m, Site(e, r)) {
      var n := NewWord(e, rs, r, WordOf(m, Site(e, r)));
      if n.Some? { ForceMaps(m, Site(e, r), n.value, 0); }
    }
  }

  ghost predicate Applies(m: Memory, e: Elf, rs: Relocations, i: int) {
    0 <= i < |rs.list| && Reads(m, Site(e, rs.list[i])) && (rs.strict ==> rs.list[i].kind in {0, 1, 2, 6, 7, 8})
  }

  lemma AppliesStill(m: Memory, m': Memory, e: Elf, rs: Relocations, i: int)
    requires SameMap(m, m')
    ensures Applies(m', e, rs, i) <==> Applies(m, e, rs, i)
  {
    if 0 <= i < |rs.list| {
      var a := Site(e, rs.list[i]);
      assert forall j :: 0 <= j < 4 ==> (CanRead(m', At(a, j)) <==> CanRead(m, At(a, j)));
    }
  }

  /** Relocating goes through if and only if every site can be read and, where the caller
      is strict, every type is known; the sites may overlap. */
  lemma RelocatesIff(m: Memory, e: Elf, rs: Relocations)
    ensures Relocate(m, e, rs).ok <==> forall i :: 0 <= i < |rs.list| ==> Applies(m, e, rs, i)
  {
    hide Applies;
    AppliesFrom(m, e, rs, 0);
  }

  lemma {:induction false} AppliesFrom(m: Memory, e: Elf, rs: Relocations, k: nat)
    requires k <= |rs.list|
    ensures ApplyFrom(m, e, rs, k).ok <==> forall i :: k <= i < |rs.list| ==> Applies(m, e, rs, i)
    decreases |rs.list| - k
  {
    hide Reads, ApplyOne, Site;
    if k < |rs.list| {
      ApplyOneIff(m, e, rs, rs.list[k]);
      var m1 := ApplyOne(m, e, rs, rs.list[k]).mem;
      forall i | k < i < |rs.list| ensures Applies(m1, e, rs, i) <==> Applies(m, e, rs, i) {
        AppliesStill(m, m1, e, rs, i);
      }
      if ApplyOne(m, e, rs, rs.list[k]).ok {
        AppliesFrom(m1, e, rs, k + 1);
      } else {
        assert !Applies(m, e, rs, k);
      }
    }
  }

  /** A symbol that is not found leaves its site alone. */
  lemma UnresolvedUnchanged(m: Memory, e: Elf, rs: Relocations, i: nat)
    requires Sites(m, e, rs, 0) && i < |rs.list|
    requires var r := rs.list[i];
             rs.resolve(r.sym) == 0 && (r.kind == R_GLOB_DAT || r.kind == R_JMP_SLOT || (r.sym != 0 && (r.kind == R_32 || r.kind == R_PC32)))
    ensures Read32(Relocate(m, e, rs).mem, Site(e, rs.list[i])) == Read32(m, Site(e, rs.list[i]))
  {
    hide Read32, Site, ReadableWord;
    RelocateDone(m, e, rs);
    WordReadable(m, Site(e, rs.list[i]));
  }

  // ---- load, then relocate --------------------------------------------------------------

  /** The word to relocate lies within one segment. */
  ghost predicate InImage(e: Elf, r: Reloc) {
    exists i :: IsLoad(e, i) && e.ph[i].vaddr <= r.offset && r.offset + 4 <= e.ph[i].vaddr + e.ph[i].memsz
  }

  /** The relocations patch words of the image that do not overlap, and have no type
      that would be refused. */
  ghost predicate GoodSites(e: Elf, rs: Relocations) {
    && (forall i :: 0 <= i < |rs.list| ==> InImage(e, rs.list[i]) && (rs.strict ==> Supported(rs.list[i].kind)))
    && (forall i, j :: 0 <= i < j < |rs.list| ==> SitesApart(e, rs, i, j))
  }

  lemma SiteInImage(m: Memory, e: Elf, r: Reloc)
    requires WellFormed(e) && AllReadable(e) && InImage(e, r)
    ensures ReadableWord(Load(m, e).mem, Site(e, r)) && Site(e, r) == e.bias + r.offset
  {
    hide LoadFrom, AllReadable, CanRead;
    var i :| IsLoad(e, i) && e.ph[i].vaddr <= r.offset && r.offset + 4 <= e.ph[i].vaddr + e.ph[i].memsz;
    OneProper(e, i);
    assert Site(e, r) == e.bias + r.offset;
    forall k | 0 <= k < 4 ensures CanRead(Load(m, e).mem, At(Site(e, r), k)) {
      NoWrap(Site(e, r), k);
      assert Within(e, e.ph[i], e.bias + r.offset + k);
      LoadFromReadable(m, e, 0, At(Site(e, r), k));
    }
  }

  lemma SitesReady(m: Memory, e: Elf, rs: Relocations)
    requires WellFormed(e) && AllReadable(e) && GoodSites(e, rs)
    ensures Sites(Load(m, e).mem, e, rs, 0)
  {
    hide Load, AllReadable, WellFormed, ReadableWord, Site, InImage;
    forall i | 0 <= i < |rs.list| ensures ReadableWord(Load(m, e).mem, Site(e, rs.list[i])) {
      SiteInImage(m, e, rs.list[i]);
    }
  }

  /** The byte of the file behind an address. */
  function FileByte(e: Elf, v: int): Option<U8> {
    match VaddrToOffset(e, v)
    case None => None
    case Some(off) => if off < |e.bytes| then Some(e.bytes[off]) else None
  }

  function FileWord(e: Elf, v: int): Option<U32> {
    match (FileByte(e, v), FileByte(e, v + 1), FileByte(e, v + 2), FileByte(e, v + 3))
    case (Some(b0), Some(b1), Some(b2), Some(b3)) => Some(FromBytes(b0, b1, b2, b3))
    case _ => None
  }

  lemma LoadedFileByte(m: Memory, e: Elf, v: int)
    requires WellFormed(e) && LoadedFrom(m, e, 0) && FileByte(e, v).Some?
    ensures ByteIs(m, e.bias + v, FileByte(e, v).value)
  {
    hide WellFormed, LoadedFrom, VaddrToOffset;
    LoadedByte(m, e, v);
  }

  lemma ReadFileByte(m: Memory, e: Elf, a: U32, v: int, i: nat)
    requires WellFormed(e) && LoadedFrom(m, e, 0) && FileByte(e, v + i).Some? && a == e.bias + v
    requires ReadableWord(m, a) && i < 4
    ensures Read8(m, At(a, i)) == Some(FileByte(e, v + i).value)
  {
    hide WellFormed, LoadedFrom, FileByte;
    LoadedFileByte(m, e, v + i);
    NoWrap(a, i);
    assert CanRead(m, At(a, i));
  }

  lemma LoadedWord(m: Memory, e: Elf, a: U32, v: int)
    requires WellFormed(e) && LoadedFrom(m, e, 0) && FileWord(e, v).Some? && ReadableWord(m, a) && a == e.bias + v
    ensures Read32(m, a) == FileWord(e, v)
  {
    hide WellFormed, LoadedFrom, FileByte, ReadableWord, Read8, FromBytes, At;
    ReadFileByte(m, e, a, v, 0);
    NoWrap(a, 0);
    ReadFileByte(m, e, a, v, 1);
    ReadFileByte(m, e, a, v, 2);
    ReadFileByte(m, e, a, v, 3);
  }

  /** An R_386_RELATIVE site ends with the file's word plus the bias. */
  lemma RelativeWord(m: Memory, e: Elf, rs: Relocations, i: nat)
    requires WellFormed(e) && AllReadable(e) && GoodSites(e, rs) && i < |rs.list|
    requires rs.list[i].kind == R_RELATIVE && FileWord(e, rs.list[i].offset).Some?
    ensures Read32(Relocate(Load(m, e).mem, e, rs).mem, Site(e, rs.list[i]))
         == Some(Wrap(e.bias + FileWord(e, rs.list[i].offset).value))
  {
    hide WellFormed, AllReadable, LoadedFrom, FileWord, ReadableWord, Read32, LoadFrom, ApplyFrom, Site, InImage, Wrap, Sites;
    var r, m1 := rs.list[i], Load(m, e).mem;
    LoadFromDone(m, e, 0);
    SiteInImage(m, e, r);
    LoadedWord(m1, e, Site(e, r), r.offset);
    SitesReady(m, e, rs);
    RelocateDone(m1, e, rs);
  }

  /** What each type of relocation makes of the file's word at its site: 8 adds the
      bias; 6 and 7 put the symbol's value there; 1 adds it and 2 adds it less the
      address of the site, all modulo 2^32. A symbol that is not found leaves the
      word, and so does any other type. */
  lemma RelocatedWord(m: Memory, e: Elf, rs: Relocations, i: nat)
    requires WellFormed(e) && AllReadable(e) && GoodSites(e, rs) && i < |rs.list|
    requires FileWord(e, rs.list[i].offset).Some?
    ensures var (r, word) := (rs.list[i], FileWord(e, rs.list[i].offset).value);
            var (site, value) := (e.bias + r.offset, rs.resolve(r.sym));
            0 <= site < TWO32 &&
            Read32(Relocate(Load(m, e).mem, e, rs).mem, site) == Some(
              if r.kind == 8 then (e.bias + word) % 0x1_0000_0000
              else if r.kind == 6 || r.kind == 7 then (if value == 0 then word else value)
              else if r.kind != 1 && r.kind != 2 then word
              else if r.sym != 0 && value == 0 then word
              else (if r.kind == 1 then value + word else value + word - site) % 0x1_0000_0000)
  {
    hide WellFormed, AllReadable, LoadedFrom, FileWord, ReadableWord, Read32, LoadFrom, ApplyFrom, InImage, Wrap, Sites;
    var r, m1 := rs.list[i], Load(m, e).mem;
    LoadFromDone(m, e, 0);
    SiteInImage(m, e, r);
    LoadedWord(m1, e, Site(e, r), r.offset);
    SitesReady(m, e, rs);
    RelocateDone(m1, e, rs);
    var (word, value) := (FileWord(e, r.offset).value, rs.resolve(r.sym));
    WrapIsMod(e.bias + word);
    WrapIsMod(value + word);
    WrapIsMod(value + word - Site(e, r));
  }

  /** The relocated image: no fault; away from the sites every address with a file
      byte holds it and every address past the file part holds zero; bytes
      outside the image are as they were. */
  lemma RelocatedImage(m: Memory, e: Elf, rs: Relocations)
    requires WellFormed(e) && AllReadable(e) && GoodSites(e, rs)
    ensures var st := Relocate(Load(m, e).mem, e, rs);
            && Load(m, e).ok && st.ok
            && (forall v :: FileByte(e, v).Some? && !InSite(e, rs, 0, e.bias + v) ==>
                  ByteIs(st.mem, e.bias + v, FileByte(e, v).value))
            && (forall i, v :: InBss(e, i, v) && !InSite(e, rs, 0, e.bias + v) ==> ByteIs(st.mem, e.bias + v, 0))
            && (forall x :: x in m.cells && !InSegment(e, 0, x) && !InSite(e, rs, 0, x) ==>
                  ByteIs(st.mem, x, m.cells[x].value))
  {
    hide WellFormed, AllReadable, LoadedFrom, FileByte, LoadFrom, ApplyFrom, GoodSites, InSegment, InSite, InBss, Sites;
    var m1 := Load(m, e).mem;
    LoadFromDone(m, e, 0);
    SitesReady(m, e, rs);
    RelocateDone(m1, e, rs);
    var m2 := Relocate(m1, e, rs).mem;
    forall v | FileByte(e, v).Some? && !InSite(e, rs, 0, e.bias + v)
      ensures ByteIs(m2, e.bias + v, FileByte(e, v).value)
    {
      LoadedFileByte(m1, e, v);
    }
    forall i, v | InBss(e, i, v) && !InSite(e, rs, 0, e.bias + v) ensures ByteIs(m2, e.bias + v, 0) {
      ZeroByte(m1, e, i, v);
    }
  }

  // ---- the code -------------------------------------------------------------------------

  lemma {:induction false} ZerosFrom(m: Memory, a: U32, n: nat, i: nat)
    requires i < n
    ensures WriteBytesFrom(m, a, Zeros(n), i)
         == match Write8(m, At(a, i), 0) case None => Stored(false, m) case Some(m1) => WriteBytesFrom(m1, a, Zeros(n), i + 1)
  {
  }

  /** The zero-fill loop. */
  method StoreZeros(m: Memory, start: U32, end: U32) returns (st: Stored)
    ensures st == ZeroFill(m, start, end)
  {
    hide Write8, WriteBytesFrom, At;
    var mem, a := m, start as int;
    if start >= end { return Stored(true, m); }
    ghost var n := end - start;
    while a < end
      invariant start <= a <= end
      invariant WriteBytes(m, start, Zeros(n)) == WriteBytesFrom(mem, start, Zeros(n), a - start)
    {
      ZerosFrom(mem, start, n, a - start);
      NoWrap(start, a - start);
      var w := Write8(mem, a, 0);
      if w.None? { return Stored(false, mem); }
      mem := w.value;
      a := a + 1;
    }
    AllWritten(mem, start, Zeros(n));
    st := Stored(true, mem);
  }

  lemma AllWritten(m: Memory, a: U32, bytes: Bytes)
    ensures WriteBytesFrom(m, a, bytes, |bytes|) == Stored(true, m)
  {
  }

  method LoadOneSegment(m: Memory, e: Elf, p: Segment) returns (st: Stored)
    ensures st == LoadSegment(m, e, p)
  {
    hide MapRange, Protect, WriteBytesFrom, ZeroFill, FlagsToPerm;
    var segStart, segEnd := PageStart(e, p), PageEnd(e, p);
    var mem := MapRange(m, segStart, segEnd, RWX);
    if p.filesz > 0 {
      var w := StoreBytes(mem, Start(e, p), FileBytes(e, p));
      if !w.ok { return w; }
      mem := w.mem;
    } else {
      AllWritten(mem, Start(e, p), FileBytes(e, p));
    }
    if p.memsz > p.filesz {
      var z := StoreZeros(mem, Wrap(e.bias + p.vaddr + p.filesz), Wrap(e.bias + p.vaddr + p.memsz));
      if !z.ok { return z; }
      mem := z.mem;
    }
    st := Stored(true, Protect(mem, segStart, segEnd, FlagsToPerm(p.flags)));
  }

  /** The loop of `applyELF32Relocations` over one table. */
  method ApplyRelocations(m: Memory, e: Elf, rs: Relocations) returns (st: Stored)
    ensures st == Relocate(m, e, rs)
  {
    hide ApplyOne;
    var mem := m;
    for i := 0 to |rs.list|
      invariant Relocate(m, e, rs) == ApplyFrom(mem, e, rs, i)
    {
      var s := ApplyOne(mem, e, rs, rs.list[i]);
      if !s.ok { return s; }
      mem := s.mem;
    }
    st := Stored(true, mem);
  }
}
