/** The mmap system call for a caller that leaves the address to the kernel. */
module Mmap {
  import opened Words
  import opened FlatMemory
  import opened CopyOnWrite
  import opened Paging

  /** `data.subarray(from, to)`: clipped to the file. */
  function Subarray(data: Bytes, from: nat, to: nat): Bytes {
    var lo := if from <= |data| then from else |data|;
    var hi := if to <= |data| then to else |data|;
    if lo <= hi then data[lo..hi] else []
  }

  datatype File = Anonymous | Backed(data: Bytes, offset: nat)

  datatype Result = MappedAt(addr: U32) | Einval | NoSpace | Faulted(addr: U32)

  /** The bytes a mapping of `length` bytes starts with. */
  function Initial(file: File, length: nat): Bytes {
    match file
    case Anonymous => []
    case Backed(data, offset) => Subarray(data, offset, offset + length)
  }

  /** The byte of a flat memory at an address. */
  function ByteAt(f: Flat, x: U32): U8
    requires PageNo(x) in f && |f[PageNo(x)]| == PAGE
  {
    f[PageNo(x)][Offset(x)]
  }

  ghost predicate WholePages(f: Flat) { forall no :: no in f ==> |f[no]| == PAGE }

  lemma FlatWriteAt(f: Flat, a: U32, v: U8, x: U32)
    requires WholePages(f) && PageNo(a) in f && PageNo(x) in f
    ensures WholePages(FlatWrite(f, a, v)) && FlatWrite(f, a, v).Keys == f.Keys
    ensures ByteAt(FlatWrite(f, a, v), x) == if x == a then v else ByteAt(f, x)
  {
    if PageNo(x) == PageNo(a) && Offset(x) == Offset(a) { PageOffset(x, a); }
  }

  lemma {:induction false} FlatWritesAt(f: Flat, a: U32, bytes: Bytes, x: U32)
    requires WholePages(f) && PageNo(x) in f && a + |bytes| <= TWO32
    requires forall i :: 0 <= i < |bytes| ==> PageNo(At(a, i)) in f
    ensures var g := FlatWrites(f, a, bytes);
            && WholePages(g) && g.Keys == f.Keys
            && ByteAt(g, x) == if a <= x < a + |bytes| then bytes[x - a] else ByteAt(f, x)
    decreases |bytes|
  {
    if bytes != [] {
      var n := |bytes| - 1;
      FlatWritesAt(f, a, bytes[..n], x);
      assert PageNo(At(a, n)) in f;
      FlatWriteAt(FlatWrites(f, a, bytes[..n]), At(a, n), bytes[n], x);
    }
  }

  /** What the new mapping holds: the file's bytes, then zeros to the end of the
      last page; and everything else what it held. */
  lemma MappingHolds(f: Flat, a: U32, length: nat, bytes: Bytes, x: U32)
    requires WholePages(f) && a % PAGE == 0 && a + length <= TWO32 - PAGE && |bytes| <= length
    requires forall no :: FirstPage(a) <= no < EndPage(a, length) ==> no !in f
    ensures var g := FlatWrites(FlatMap(f, FirstPage(a), EndPage(a, length)), a, bytes);
            && (FirstPage(a) <= PageNo(x) < EndPage(a, length) ==>
                 && PageNo(x) in g && |g[PageNo(x)]| == PAGE
                 && ByteAt(g, x) == if x - a < |bytes| then bytes[x - a] else 0)
            && (PageNo(x) in f ==>
                 PageNo(x) in g && |g[PageNo(x)]| == PAGE && ByteAt(g, x) == ByteAt(f, x))
  {
    hide FlatWrites, FlatMap, FlatWrite;
    var lo, hi := FirstPage(a), EndPage(a, length);
    var z := FlatMap(f, lo, hi);
    forall no ensures (no in z <==> no in f || lo <= no < hi) && (no in z ==> z[no] == if no in f then f[no] else Zeros()) {
      FlatMapAt(f, lo, hi, no);
    }
    forall i | 0 <= i < |bytes| ensures PageNo(At(a, i)) in z { PageInRun(a, length, i); }
    if PageNo(x) in z {
      FlatWritesAt(z, a, bytes, x);
      InRun(a, length, |bytes|, x);
    }
  }

  lemma EndPageExact(a: U32, length: nat)
    requires a % PAGE == 0 && a + length <= TWO32 - PAGE
    ensures EndPage(a, length) == FirstPage(a) + PagesNeeded(length)
  {
    var v := a + length;
    assert Wrap(v) == v;
    assert (v + PAGE - 1) / PAGE == a / PAGE + (length + PAGE - 1) / PAGE;
  }

  /** Where the range reaches the last page, the end that `map` computes has wrapped. */
  lemma EndPageWraps(a: U32, length: U32)
    requires a % PAGE == 0 && length > 0 && a + length > TWO32 - PAGE
    ensures EndPage(a, length) <= FirstPage(a)
  {
    var v := a + length;
    if v < TWO32 {
      assert Wrap(v) == v;
      WrapOnce((v + PAGE - 1) / PAGE * PAGE);
    } else {
      WrapOnce(v);
      assert (v - TWO32 + PAGE - 1) / PAGE * PAGE <= a;
    }
  }

  lemma PageInRun(a: U32, length: nat, i: nat)
    requires a % PAGE == 0 && a + length <= TWO32 - PAGE && i < length
    ensures FirstPage(a) <= PageNo(At(a, i)) < EndPage(a, length)
  {
    EndPageExact(a, length);
    assert At(a, i) == a + i;
  }

  lemma InRun(a: U32, length: nat, n: nat, x: U32)
    requires a % PAGE == 0 && a + length <= TWO32 - PAGE && n <= length
    ensures FirstPage(a) <= PageNo(x) < EndPage(a, length) ==> x >= a
    ensures a <= x < a + n ==> FirstPage(a) <= PageNo(x) < EndPage(a, length)
  {
    EndPageExact(a, length);
    if a <= x < a + n { PageInRun(a, length, x - a); assert At(a, x - a) == x; }
  }

  /** The pages of [a, a + length) do not reach the top of the address space. */
  predicate Fits(a: U32, length: nat) { a % PAGE == 0 && a + length <= TWO32 - PAGE }

  /** What a new mapping has done to the family: no object that existed before is
      changed, bytes and permission included; the table gains exactly the pages of
      the range, with the permission asked for; and the space's contents gain the
      file's bytes followed by zeros. */
  twostate predicate NewMapping(mem: PagedMemory, S: set<PagedMemory>, P: set<Page>, new P': set<Page>,
                                a: U32, length: nat, perm: Perm, bytes: Bytes)
    requires mem in S && old(Inv(Snap(S, P))) && Inv(Snap(S, P'))
    reads S, P, P', mem, mem.pages.Values
  {
    var lo, hi := FirstPage(a), EndPage(a, length);
    && (forall p :: p in P ==> unchanged(p))
    && (forall no :: no in old(mem.pages) ==> no in mem.pages && mem.pages[no] == old(mem.pages[no]))
    && mem.InRange(lo, hi, perm)
    && Contents(S, P') == old(Contents(S, P))[mem := FlatWrites(FlatMap(old(Contents(S, P))[mem], lo, hi), a, bytes)]
  }

  /** The pages of the range are this space's own: unshared and not in Q. */
  ghost predicate OwnPages(mem: PagedMemory, lo: int, hi: int, Q: set<Page>)
    reads mem, mem.pages.Values
  {
    forall no :: lo <= no < hi ==> no in mem.pages && mem.pages[no] !in Q && !mem.pages[no].shared
  }

  /** Copies the file's bytes in, with the pages opened for writing meanwhile. */
  method Fill(mem: PagedMemory, ghost S: set<PagedMemory>, ghost P: set<Page>, ghost Q: set<Page>,
              a: U32, length: nat, perm: Perm, bytes: Bytes) returns (ok: bool, ghost P': set<Page>)
    requires mem in S && Inv(Snap(S, P)) && |bytes| <= length
    modifies mem, P
    ensures P <= P' && fresh(P' - P) && Inv(Snap(S, P'))
    ensures Fits(a, length) && old(OwnPages(mem, FirstPage(a), EndPage(a, length), Q)) ==>
              && ok && P' == P && mem.pages == old(mem.pages)
              && (forall p :: p in Q && p in P ==> unchanged(p))
              && mem.InRange(FirstPage(a), EndPage(a, length), perm)
              && Contents(S, P) == old(Contents(S, P))[mem := FlatWrites(old(Contents(S, P))[mem], a, bytes)]
    ensures EndPage(a, length) <= FirstPage(a) && PageNo(a) !in old(mem.pages) ==>
              P' == P && Snap(S, P') == old(Snap(S, P)) && (ok <==> bytes == [])
  {
    hide Inv, Snap, Contents, FlatWrites, SamePerms, FirstPage, EndPage;
    ghost var own := Fits(a, length) && OwnPages(mem, FirstPage(a), EndPage(a, length), Q);
    P' := P;
    ok := mem.Mprotect(S, P, a, length, Perm(true, true, true));
    if !ok { return; }
    ghost var n;
    if own { OwnRange(mem, a, length, |bytes|, Q); }
    ok, P', n := mem.WriteBytes(S, P, a, bytes, Q);
    if !ok { return; }
    assert bytes[..n] == bytes;
    ok := mem.Mprotect(S, P', a, length, perm);
  }

  lemma OwnRange(mem: PagedMemory, a: U32, length: nat, n: nat, Q: set<Page>)
    requires Fits(a, length) && n <= length
    requires OwnPages(mem, FirstPage(a), EndPage(a, length), Q)
    requires mem.InRange(FirstPage(a), EndPage(a, length), Perm(true, true, true))
    ensures mem.OwnsRun(a, 0, n, Q)
  {
    forall i | 0 <= i < n ensures mem.Owns(At(a, i), Q) { PageInRun(a, length, i); }
  }

  /** `map` over a free run: an anonymous mapping, all of whose pages are the
      space's own. */
  method MapZeros(mem: PagedMemory, ghost S: set<PagedMemory>, ghost P: set<Page>, a: U32, length: nat, perm: Perm)
    returns (ghost P': set<Page>)
    requires mem in S && Inv(Snap(S, P)) && length > 0
    modifies mem, P
    ensures P <= P' && fresh(P' - P) && Inv(Snap(S, P'))
    ensures Fits(a, length) && FreeRun(old(mem.pages), PageNo(a), PagesNeeded(length)) ==>
              NewMapping(mem, S, P, P', a, length, perm, []) && OwnPages(mem, FirstPage(a), EndPage(a, length), P)
    ensures EndPage(a, length) <= FirstPage(a) ==> P' == P && mem.pages == old(mem.pages) && Snap(S, P') == old(Snap(S, P))
  {
    hide Inv, Snap, Contents, FlatMap, FlatWrites, SamePerms, FirstPage, EndPage, FreeRun, PagesNeeded, Fits, InfoOf, FlatAdd;
    ContentsKeys(S, P);
    Refill(Contents(S, P), mem, FlatMap(Contents(S, P)[mem], FirstPage(a), EndPage(a, length)), a, []);
    FreePages(mem, a, length);
    P' := mem.Map(S, P, a, length, perm);
  }

  /** A mapping with the file's bytes copied in. */
  method MapBacked(mem: PagedMemory, ghost S: set<PagedMemory>, ghost P: set<Page>,
                   a: U32, length: nat, perm: Perm, bytes: Bytes) returns (ok: bool, ghost P': set<Page>)
    requires mem in S && Inv(Snap(S, P)) && length > 0 && |bytes| <= length
    modifies mem, P
    ensures P <= P' && fresh(P' - P) && Inv(Snap(S, P'))
    ensures Fits(a, length) && FreeRun(old(mem.pages), PageNo(a), PagesNeeded(length)) ==>
              ok && NewMapping(mem, S, P, P', a, length, perm, bytes)
    ensures EndPage(a, length) <= FirstPage(a) && PageNo(a) !in old(mem.pages) ==>
              P' == P && Snap(S, P') == old(Snap(S, P)) && (ok <==> bytes == [])
  {
    hide Inv, Snap, Contents, FlatMap, FlatWrites, SamePerms, FirstPage, EndPage, FreeRun, PageNo, PagesNeeded, Fits, InfoOf;
    ContentsKeys(S, P);
    Refill(Contents(S, P), mem, FlatMap(Contents(S, P)[mem], FirstPage(a), EndPage(a, length)), a, bytes);
    P' := MapZeros(mem, S, P, a, length, perm);
    ok, P' := Fill(mem, S, P', P, a, length, perm, bytes);
  }

  /** The part of `_mmap` after the address is known. */
  method MapAt(mem: PagedMemory, ghost S: set<PagedMemory>, ghost P: set<Page>,
               a: U32, length: nat, perm: Perm, file: File) returns (ok: bool, ghost P': set<Page>)
    requires mem in S && Inv(Snap(S, P)) && length > 0
    modifies mem, P
    ensures P <= P' && fresh(P' - P) && Inv(Snap(S, P'))
    ensures Fits(a, length) && FreeRun(old(mem.pages), PageNo(a), PagesNeeded(length)) ==>
              ok && NewMapping(mem, S, P, P', a, length, perm, Initial(file, length))
    ensures EndPage(a, length) <= FirstPage(a) && PageNo(a) !in old(mem.pages) ==>
              P' == P && Snap(S, P') == old(Snap(S, P)) && (ok <==> Initial(file, length) == [])
  {
    hide Inv, Snap, Contents, FlatMap, FlatWrites, SamePerms, FirstPage, EndPage, FreeRun, PageNo, PagesNeeded, Fits;
    if file.Anonymous? {
      P' := MapZeros(mem, S, P, a, length, perm);
      return true, P';
    }
    ok, P' := MapBacked(mem, S, P, a, length, perm, Initial(file, length));
  }

  lemma Refill(f: map<PagedMemory, Flat>, m: PagedMemory, g: Flat, a: U32, bytes: Bytes)
    ensures FlatWrites(g, a, []) == g
    ensures f[m := g][m] == g && f[m := g][m := FlatWrites(g, a, bytes)] == f[m := FlatWrites(g, a, bytes)]
  {
  }

  lemma FreePages(mem: PagedMemory, a: U32, length: nat)
    ensures Fits(a, length) && FreeRun(mem.pages, PageNo(a), PagesNeeded(length)) ==>
              forall no :: FirstPage(a) <= no < EndPage(a, length) ==> no !in mem.pages
  {
    if Fits(a, length) { EndPageExact(a, length); }
  }

  lemma FirstFree(pages: map<int, Page>, a: U32, length: nat)
    requires FreeRun(pages, PageNo(a), PagesNeeded(length)) && length > 0
    ensures PageNo(a) !in pages
  {
  }

  /** `_mmap` without MAP_FIXED. It takes the lowest page-aligned start in the
      window whose whole run of pages is unmapped. If the run ends below the last
      page of the address space it then succeeds, and is exactly a new mapping;
      otherwise it maps and changes nothing, and yet reports success unless there
      are file bytes to copy. */
  method MmapAnywhere(mem: PagedMemory, ghost S: set<PagedMemory>, ghost P: set<Page>,
                      length: U32, perm: Perm, min: U32, max: U32, file: File) returns (r: Result, ghost P': set<Page>)
    requires mem in S && Inv(Snap(S, P))
    modifies mem, P
    ensures P <= P' && fresh(P' - P) && Inv(Snap(S, P'))
    ensures length == 0 <==> r.Einval?
    ensures r.Einval? || r.NoSpace? ==> P' == P && unchanged(mem, P)
    ensures r.NoSpace? ==>
              forall b: U32 :: b % PAGE == 0 && AlignUp(min) <= b < AlignDown(max) ==>
                !FreeRun(old(mem.pages), PageNo(b), PagesNeeded(length))
    ensures r.MappedAt? || r.Faulted? ==>
              && r.addr % PAGE == 0 && AlignUp(min) <= r.addr < AlignDown(max)
              && FreeRun(old(mem.pages), PageNo(r.addr), PagesNeeded(length))
              && (forall b: U32 :: b % PAGE == 0 && AlignUp(min) <= b < r.addr ==>
                    !FreeRun(old(mem.pages), PageNo(b), PagesNeeded(length)))
              && (Fits(r.addr, length) ==>
                    r.MappedAt? && NewMapping(mem, S, P, P', r.addr, length, perm, Initial(file, length)))
              && (!Fits(r.addr, length) ==>
                    P' == P && Snap(S, P') == old(Snap(S, P)) && (r.MappedAt? <==> Initial(file, length) == []))
  {
    hide Inv, Snap, Contents, FlatMap, FlatWrites, EndPage;
    P' := P;
    if length == 0 { return Einval, P'; }
    var found := mem.FindFreeRegion(length, min, max);
    match found {
      case None => return NoSpace, P';
      case Some(a) =>
        if !Fits(a, length) { EndPageWraps(a, length); FirstFree(mem.pages, a, length); }
        var ok;
        ok, P' := MapAt(mem, S, P, a, length, perm, file);
        return if ok then MappedAt(a) else Faulted(a), P';
    }
  }
}