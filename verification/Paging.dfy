/** `PagedMemory` and `Page` as objects: page tables that several address spaces
    fill with the same Page objects, updated in place. Every method is proved
    against the copy-on-write model, with the objects themselves as identities. */
module Paging {
  import opened Words
  import opened FlatMemory
  import opened C = CopyOnWrite

  class Page {
    var data: Bytes
    var perm: Perm
    var dirty: bool
    var shared: bool
    var refCount: nat

    constructor (perm: Perm)
      ensures data == Zeros() && this.perm == perm && !dirty && !shared && refCount == 1
    {
      data, this.perm, dirty, shared, refCount := Zeros(), perm, false, false, 1;
    }

    method AddSharer()
      modifies this`shared, this`refCount
      ensures InfoOf(this) == Share(old(InfoOf(this)))
    {
      shared := true;
      refCount := refCount + 1;
    }
  }

  function PageNo(a: U32): int { a / PAGE }
  function Offset(a: U32): nat { a % PAGE }

  lemma PageOffset(x: U32, y: U32)
    requires PageNo(x) == PageNo(y) && Offset(x) == Offset(y)
    ensures x == y
  {
  }

  /** The page numbers an operation on (addr, length) loops over; the end is
      computed modulo 2^32, so a range that reaches the top is empty. */
  function FirstPage(addr: U32): int { addr / PAGE }
  function EndPage(addr: U32, length: int): int { AlignUp(Wrap(addr + length)) / PAGE }

  /** A family of address spaces S over a stock of pages P, as a value. */
  ghost function Snap(S: set<PagedMemory>, P: set<Page>): Forks<PagedMemory, Page>
    reads S, P
  {
    Forks(map m | m in S :: m.pages, map p | p in P :: InfoOf(p))
  }

  /** The contents of every space of the family. */
  ghost function Contents(S: set<PagedMemory>, P: set<Page>): map<PagedMemory, Flat>
    requires Inv(Snap(S, P))
    reads S, P
  {
    Views(Snap(S, P))
  }

  ghost function InfoOf(p: Page): Info
    reads p
  {
    Info(p.data, p.perm, p.shared, p.refCount)
  }

  /** To know a family's value it is enough to look at each object. */
  lemma Snapped(S: set<PagedMemory>, P: set<Page>, w: Forks<PagedMemory, Page>)
    requires w.tables.Keys == S && w.pages.Keys == P
    requires forall m :: m in S ==> m.pages == w.tables[m]
    requires forall p :: p in P ==> InfoOf(p) == w.pages[p]
    ensures Snap(S, P) == w
  {
  }

  function FlatWrite(f: Flat, a: U32, v: U8): Flat {
    if PageNo(a) in f then f[PageNo(a) := Patch(f[PageNo(a)], Offset(a), v)] else f
  }

  class PagedMemory {
    var pages: map<int, Page>

    constructor ()
      ensures pages == map[]
    {
      pages := map[];
    }

    /** A private copy of a shared page, which then counts one mapper less. */
    method CopyPage(no: int) returns (cp: Page)
      requires no in pages && pages[no].shared && pages[no].refCount > 1
      modifies this, pages[no]
      ensures fresh(cp) && pages == old(pages)[no := cp]
      ensures InfoOf(cp) == Info(old(pages[no].data), old(pages[no].perm), false, 1)
      ensures var i := old(InfoOf(pages[no]));
              InfoOf(old(pages[no])) == i.(refCount := i.refCount - 1, shared := i.refCount - 1 > 1)
    {
      var p := pages[no];
      cp := new Page(p.perm);
      cp.data := p.data;
      cp.dirty := p.dirty;
      p.refCount := p.refCount - 1;
      if p.refCount <= 1 { p.shared := false; }
      pages := pages[no := cp];
    }

    /** The copy-on-write branch of `write8`. */
    method Unshare(ghost S: set<PagedMemory>, ghost P: set<Page>, no: int) returns (ghost P': set<Page>)
      requires this in S && Inv(Snap(S, P)) && no in pages && pages[no] in P
      modifies this, pages[no]
      ensures P <= P' && fresh(P' - P) && no in pages && pages[no] in P'
      ensures MustCopy(old(Snap(S, P)), this, no) ==> pages[no] !in P
      ensures Snap(S, P') == C.Unshare(old(Snap(S, P)), this, no, pages[no])
      ensures !old(pages[no].shared) ==> P' == P && unchanged(this, pages[no])
    {
      hide Inv;
      P' := P;
      ghost var before := Snap(S, P);
      assert Maps(before, this, no);
      if pages[no].shared && pages[no].refCount > 1 {
        var cp := CopyPage(no);
        P' := P + {cp};
        Snapped(S, P', C.Unshare(before, this, no, cp));
      }
    }

    /** The store of `write8`, in place. */
    method Store(ghost S: set<PagedMemory>, ghost P: set<Page>, no: int, off: nat, value: U8)
      requires this in S && Inv(Snap(S, P)) && no in pages && pages[no] in P
      modifies pages[no]
      ensures Snap(S, P) == C.Poke(old(Snap(S, P)), this, no, off, value)
      ensures pages[no].shared == old(pages[no].shared) && pages[no].perm == old(pages[no].perm) && |pages[no].data| == |old(pages[no].data)|
    {
      hide Inv;
      var p := pages[no];
      ghost var before := Snap(S, P);
      assert Maps(before, this, no);
      p.data := Patch(p.data, off, value);
      p.dirty := true;
      Snapped(S, P, C.Poke(before, this, no, off, value));
    }

    /** `write8`: faults (false) unless the page is mapped writable. A store is the
        step WriteByte of the copy-on-write model. */
    method Write8(ghost S: set<PagedMemory>, ghost P: set<Page>, addr: U32, value: U8)
      returns (ok: bool, ghost P': set<Page>)
      requires this in S && Inv(Snap(S, P))
      modifies this, P
      ensures P <= P' && fresh(P' - P) && Inv(Snap(S, P'))
      ensures ok <==> PageNo(addr) in old(pages) && old(pages[PageNo(addr)].perm.w)
      ensures !ok ==> P' == P && Snap(S, P') == old(Snap(S, P)) && Contents(S, P') == old(Contents(S, P))
      ensures ok ==> Contents(S, P') == old(Contents(S, P))[this := FlatWrite(old(Contents(S, P))[this], addr, value)]
      ensures SamePerms(old(Snap(S, P)), Snap(S, P'))
      ensures ok && !old(pages[PageNo(addr)].shared) ==>
                && P' == P && pages == old(pages) && !pages[PageNo(addr)].shared
                && pages[PageNo(addr)].perm == old(pages[PageNo(addr)].perm)
                && forall p :: p in P && p != pages[PageNo(addr)] ==> unchanged(p)
    {
      P' := P;
      var no := PageNo(addr);
      if no !in pages || !pages[no].perm.w { return false, P'; }
      ghost var before := Snap(S, P);
      Known(S, P, no);
      hide Inv, SamePerms;
      P' := Unshare(S, P, no);
      ghost var page := pages[no];
      UnshareInv(before, this, no, page);
      Store(S, P', no, Offset(addr), value);
      ghost var step := WriteByte(this, no, Offset(addr), value, page);
      assert Snap(S, P') == Apply(before, step);
      hide Snap, Apply, FlatApply, Enabled, FlatWrite;
      StepIsolates(before, step);
      WriteKeepsPerms(before, this, no, Offset(addr), value, page);
      FlatStep(before, this, addr, value, page);
      return true, P';
    }

    lemma Known(S: set<PagedMemory>, P: set<Page>, no: int)
      requires this in S && Inv(Snap(S, P)) && no in pages
      ensures Maps(Snap(S, P), this, no) && pages[no] in P
    {
      assert Maps(Snap(S, P), this, no);
      assert PageOk(Snap(S, P), no, pages[no]);
    }

    /** The store of a permission, as `map` and `mprotect` make it: on the page
        object, so in every space that shares it. */
    method SetPerm(ghost S: set<PagedMemory>, ghost P: set<Page>, no: int, perm: Perm)
      requires this in S && Inv(Snap(S, P)) && no in pages
      modifies {pages[no]}`perm
      ensures pages[no].perm == perm && Inv(Snap(S, P)) && Contents(S, P) == old(Contents(S, P))
    {
      ghost var before := Snap(S, P);
      Known(S, P, no);
      hide Inv;
      var page := pages[no];
      page.perm := perm;
      Snapped(S, P, C.Protect(before, this, no, perm));
      ProtectKeeps(before, this, no, perm);
    }

    /** A page that was not there: new and zero. */
    method AddPage(ghost S: set<PagedMemory>, ghost P: set<Page>, no: int, perm: Perm) returns (ghost P': set<Page>)
      requires this in S && Inv(Snap(S, P)) && no !in pages
      modifies this
      ensures no in pages && fresh(pages[no]) && P' == P + {pages[no]} && pages[no].perm == perm && !pages[no].shared
      ensures pages == old(pages)[no := pages[no]]
      ensures Inv(Snap(S, P'))
      ensures Contents(S, P') == old(Contents(S, P))[this := FlatAdd(old(Contents(S, P))[this], no)]
    {
      hide Inv;
      ghost var before := Snap(S, P);
      var page := new Page(perm);
      pages := pages[no := page];
      P' := P + {page};
      ghost var step := MapPage(this, no, perm, page);
      Snapped(S, P', Apply(before, step));
      hide Apply;
      StepIsolates(before, step);
    }

    /** `map`. A range of free pages is filled with new zero pages, and then no
        page that existed before is touched in any way. */
    method Map(ghost S: set<PagedMemory>, ghost P: set<Page>, addr: U32, length: int, perm: Perm) returns (ghost P': set<Page>)
      requires this in S && Inv(Snap(S, P))
      modifies this, P`perm
      ensures P <= P' && fresh(P' - P) && Inv(Snap(S, P'))
      ensures length <= 0 ==> P' == P && unchanged(this, P)
      ensures length > 0 ==> Mapped(S, P, P', FirstPage(addr), EndPage(addr, length), perm)
      ensures EndPage(addr, length) <= FirstPage(addr) ==> P' == P && unchanged(this, P)
    {
      if length <= 0 { return P; }
      P' := MapPages(S, P, FirstPage(addr), EndPage(addr, length), perm);
    }

    /** What `map` over the pages lo..hi has done. */
    twostate predicate Mapped(S: set<PagedMemory>, P: set<Page>, new P': set<Page>, lo: int, hi: int, perm: Perm)
      requires this in S && old(Inv(Snap(S, P))) && Inv(Snap(S, P'))
      reads S, P, P', this, pages.Values
    {
      && Contents(S, P') == old(Contents(S, P))[this := FlatMap(old(Contents(S, P))[this], lo, hi)]
      && Laid(P, old(pages), old(PermsOf(P)), pages, PermsOf(P'), lo, hi, perm)
      && OthersOwn(old(pages))
    }

    /** Pages that were not in the table t0 are this space's own. */
    ghost predicate OthersOwn(t0: map<int, Page>)
      reads this, pages.Values
    {
      forall no :: no in pages && no !in t0 ==> !pages[no].shared
    }

    /** `map` over lo..hi, which finds and makes pages one by one. */
    method MapPages(ghost S: set<PagedMemory>, ghost P: set<Page>, lo: int, hi: int, perm: Perm) returns (ghost P': set<Page>)
      requires this in S && Inv(Snap(S, P))
      modifies this, P`perm
      ensures P <= P' && fresh(P' - P) && Inv(Snap(S, P'))
      ensures Mapped(S, P, P', lo, hi, perm)
      ensures hi <= lo ==> P' == P && unchanged(this, P)
    {
      hide Inv, Snap, FlatAdd, FlatMap, Contents, Laid, PermsOf;
      P' := P;
      ghost var f, t0, perms0 := Contents(S, P), pages, PermsOf(P);
      ContentsKeys(S, P);
      MapNothing(f, this, lo, hi);
      LaidNothing(S, P, lo, hi, perm);
      var k := lo;
      while k < hi
        invariant lo <= k && (if lo <= hi then k <= hi else k == lo)
        invariant P <= P' && fresh(P' - P) && Inv(Snap(S, P'))
        invariant Contents(S, P') == f[this := FlatMap(f[this], lo, k)]
        invariant Laid(P, t0, perms0, pages, PermsOf(P'), lo, k, perm) && OthersOwn(t0)
        invariant hi <= lo ==> Laid(P, t0, perms0, pages, PermsOf(P'), lo, hi, perm) && P' == P && unchanged(this, P)
      {
        MapNext(f, this, lo, k);
        P' := MapTurn(S, P', P, t0, perms0, lo, k, perm);
        k := k + 1;
      }
    }

    lemma LaidNothing(S: set<PagedMemory>, P: set<Page>, lo: int, hi: int, perm: Perm)
      requires this in S && Inv(Snap(S, P))
      ensures Laid(P, pages, PermsOf(P), pages, PermsOf(P), lo, lo, perm)
      ensures hi <= lo ==> Laid(P, pages, PermsOf(P), pages, PermsOf(P), lo, hi, perm)
    {
    }

    /** One turn of the loop, told by what has been done since its start. */
    method MapTurn(ghost S: set<PagedMemory>, ghost P: set<Page>, ghost P0: set<Page>, ghost t0: map<int, Page>,
                   ghost perms0: map<Page, Perm>, ghost lo: int, no: int, perm: Perm) returns (ghost P': set<Page>)
      requires this in S && Inv(Snap(S, P)) && P0 <= P && lo <= no
      requires Laid(P0, t0, perms0, pages, PermsOf(P), lo, no, perm) && OthersOwn(t0)
      modifies this, P`perm
      ensures P <= P' && fresh(P' - P) && Inv(Snap(S, P'))
      ensures Laid(P0, t0, perms0, pages, PermsOf(P'), lo, no + 1, perm) && OthersOwn(t0)
      ensures Contents(S, P') == old(Contents(S, P))[this := FlatAdd(old(Contents(S, P))[this], no)]
    {
      hide Inv, Snap, FlatAdd, Contents, Laid;
      ghost var t, perms := pages, PermsOf(P);
      AllKnown(S, P);
      P' := MapOne(S, P, no, perm);
      assert OneLaid(P, t, perms, pages, PermsOf(P'), no, perm);
      LaidNext(P, P0, t0, perms0, t, perms, pages, PermsOf(P'), lo, no, perm);
    }

    /** One page of the range. */
    method MapOne(ghost S: set<PagedMemory>, ghost P: set<Page>, no: int, perm: Perm) returns (ghost P': set<Page>)
      requires this in S && Inv(Snap(S, P))
      modifies this, P`perm
      ensures P <= P' && fresh(P' - P) && Inv(Snap(S, P'))
      ensures no in pages && pages == old(pages)[no := pages[no]] && pages[no].perm == perm
      ensures if no in old(pages) then pages[no] == old(pages[no]) else pages[no] !in P && !pages[no].shared
      ensures forall p :: p in P && p != pages[no] ==> p.perm == old(p.perm)
      ensures forall i :: i in old(pages) && i != no ==> pages[i].shared == old(pages[i].shared)
      ensures pages[no] in P' && P' <= P + {pages[no]}
      ensures Contents(S, P') == old(Contents(S, P))[this := FlatAdd(old(Contents(S, P))[this], no)]
    {
      hide Inv, Snap, FlatAdd, Contents;
      P' := P;
      if no !in pages {
        P' := AddPage(S, P, no, perm);
      } else {
        Known(S, P, no);
        MapAgain(S, P, no);
        SetPerm(S, P, no, perm);
      }
    }

    lemma MapAgain(S: set<PagedMemory>, P: set<Page>, k: int)
      requires this in S && Inv(Snap(S, P)) && k in pages
      ensures Contents(S, P)[this := FlatAdd(Contents(S, P)[this], k)] == Contents(S, P)
    {
      assert k in Contents(S, P)[this];
    }

    /** One turn of the loop in `unmap`. No count is decremented: the pages of P
        are left as they are. */
    method RemovePage(ghost S: set<PagedMemory>, ghost P: set<Page>, no: int)
      requires this in S && Inv(Snap(S, P))
      modifies this
      ensures pages == old(pages) - {no} && Inv(Snap(S, P))
      ensures Contents(S, P) == old(Contents(S, P))[this := old(Contents(S, P))[this] - {no}]
    {
      hide Inv;
      ghost var before := Snap(S, P);
      pages := pages - {no};
      ghost var step := UnmapPage(this, no);
      Snapped(S, P, Apply(before, step));
      hide Apply;
      StepIsolates(before, step);
    }

    /** `unmap`: false when it meets a missing page that it may not ignore. */
    method Unmap(ghost S: set<PagedMemory>, ghost P: set<Page>, addr: U32, length: int, ignoreMissing: bool) returns (ok: bool)
      requires this in S && Inv(Snap(S, P))
      modifies this
      ensures Inv(Snap(S, P))
      ensures var f := old(Contents(S, P)); var lo, hi := FirstPage(addr), EndPage(addr, length);
              if length <= 0 then ok && Contents(S, P) == f
              else && Contents(S, P) == f[this := FlatUnmap(f[this], lo, hi, ignoreMissing)]
                   && (ok <==> ignoreMissing || AllMapped(f[this], lo, hi))
    {
      if length <= 0 { return true; }
      ok := UnmapPages(S, P, FirstPage(addr), EndPage(addr, length), ignoreMissing);
    }

    method UnmapPages(ghost S: set<PagedMemory>, ghost P: set<Page>, lo: int, hi: int, ignoreMissing: bool) returns (ok: bool)
      requires this in S && Inv(Snap(S, P))
      modifies this
      ensures Inv(Snap(S, P))
      ensures var f := old(Contents(S, P));
              && Contents(S, P) == f[this := FlatUnmap(f[this], lo, hi, ignoreMissing)]
              && (ok <==> ignoreMissing || AllMapped(f[this], lo, hi))
    {
      hide Inv, Snap, Contents, FlatUnmap, AllMapped;
      ghost var f := Contents(S, P);
      ContentsKeys(S, P);
      ghost var g := f[this];
      assert f[this := g] == f;
      UnmapStart(g, lo);
      var k := lo;
      while k < hi
        invariant lo <= k && (if lo <= hi then k <= hi else k == lo)
        invariant Inv(Snap(S, P)) && Contents(S, P) == f[this := g]
        invariant Unmapped(f[this], g, lo, k, hi, ignoreMissing)
      {
        ContentsKeys(S, P);
        UnmapTurn(f[this], g, lo, k, hi, ignoreMissing);
        if k !in pages && !ignoreMissing { return false; }
        RemovePage(S, P, k);
        g := g - {k};
        k := k + 1;
      }
      UnmapEnd(f[this], g, lo, k, hi, ignoreMissing);
      return true;
    }

    /** `mprotect`: false at the first page that is missing. It changes no byte. */
    method Mprotect(ghost S: set<PagedMemory>, ghost P: set<Page>, addr: U32, length: int, perm: Perm) returns (ok: bool)
      requires this in S && Inv(Snap(S, P))
      modifies P`perm
      ensures Inv(Snap(S, P)) && Contents(S, P) == old(Contents(S, P))
      ensures var lo, hi := FirstPage(addr), EndPage(addr, length);
              && (ok <==> forall no :: lo <= no < hi ==> no in pages)
              && (ok ==> InRange(lo, hi, perm))
              && (forall p :: p in P && (forall no :: lo <= no < hi && no in pages ==> pages[no] != p) ==> p.perm == old(p.perm))
              && (hi <= lo ==> unchanged(P) && Snap(S, P) == old(Snap(S, P)))
    {
      hide Inv, Snap, Contents, FirstPage, EndPage;
      var lo, hi := FirstPage(addr), EndPage(addr, length);
      var k := lo;
      while k < hi
        invariant hi <= lo ==> unchanged(P) && Snap(S, P) == old(Snap(S, P))
        invariant lo <= k && (if lo <= hi then k <= hi else k == lo)
        invariant Inv(Snap(S, P)) && Contents(S, P) == old(Contents(S, P))
        invariant InRange(lo, k, perm)
        invariant forall p :: p in P && (forall no :: lo <= no < hi && no in pages ==> pages[no] != p) ==> p.perm == old(p.perm)
      {
        if k !in pages { return false; }
        Known(S, P, k);
        SetPerm(S, P, k, perm);
        k := k + 1;
      }
      return true;
    }

    /** `clone` with copyOnWrite: the child gets the same Page objects, each marked
        shared and counted once more. */
    method Clone(ghost S: set<PagedMemory>, ghost P: set<Page>) returns (child: PagedMemory)
      requires this in S && Inv(Snap(S, P))
      modifies P`shared, P`refCount
      ensures fresh(child) && Inv(Snap(S + {child}, P))
      ensures Contents(S + {child}, P) == old(Contents(S, P))[child := old(Contents(S, P))[this]]
    {
      ghost var before := Snap(S, P);
      AllKnown(S, P);
      hide Inv;
      child := new PagedMemory();
      ShareWith(child, P);
      ghost var step := Fork(this, child);
      Snapped(S + {child}, P, Apply(before, step));
      hide Apply;
      StepIsolates(before, step);
    }

    /** The loop of `clone`. */
    method ShareWith(child: PagedMemory, ghost P: set<Page>)
      requires child != this && child.pages == map[]
      requires forall no :: no in pages ==> pages[no] in P
      requires forall i, j :: i in pages && j in pages && pages[i] == pages[j] ==> i == j
      modifies child, P`shared, P`refCount
      ensures child.pages == pages
      ensures forall p :: p in P ==> InfoOf(p) == if Holds(pages, p) then Share(old(InfoOf(p))) else old(InfoOf(p))
    {
      hide Share, InfoOf, Holds;
      NoneHeld();
      var todo := pages.Keys;
      while todo != {}
        invariant todo <= pages.Keys && child.pages.Keys == pages.Keys - todo
        invariant forall no :: no in child.pages ==> child.pages[no] == pages[no]
        invariant forall p :: p in P ==>
                    InfoOf(p) == if Holds(child.pages, p) then Share(old(InfoOf(p))) else old(InfoOf(p))
        decreases todo
      {
        EmptyOrNot(todo);
        var no :| no in todo;
        var page := pages[no];
        NotHeld(pages, child.pages, no);
        page.AddSharer();
        forall p | p in P { HoldsMore(child.pages, no, page, p); }
        child.pages := child.pages[no := page];
        todo := todo - {no};
      }
      SameTable(child.pages, pages);
    }

    lemma AllKnown(S: set<PagedMemory>, P: set<Page>)
      requires this in S && Inv(Snap(S, P))
      ensures forall no :: no in pages ==> pages[no] in P
      ensures forall i, j :: i in pages && j in pages && pages[i] == pages[j] ==> i == j
    {
      forall no | no in pages ensures Maps(Snap(S, P), this, no) && pages[no] in P { Known(S, P, no); }
    }

    /** `findFreeRegion` with the page size as alignment: the lowest aligned start
        in [min, max) whose whole run of pages is unmapped, or nothing. */
    method FindFreeRegion(length: nat, min: U32, max: U32) returns (r: Option<U32>)
      ensures var lo, hi, n := AlignUp(min), AlignDown(max), PagesNeeded(length);
              match r
              case Some(a) =>
                && a % PAGE == 0 && lo <= a < hi && FreeRun(pages, PageNo(a), n)
                && forall b: U32 :: b % PAGE == 0 && lo <= b < a ==> !FreeRun(pages, PageNo(b), n)
              case None => forall b: U32 :: b % PAGE == 0 && lo <= b < hi ==> !FreeRun(pages, PageNo(b), n)
    {
      var lo, hi, n := AlignUp(min), AlignDown(max), PagesNeeded(length);
      AlignUpAligned(min);
      var a: int := lo;
      while a < hi
        invariant lo <= a && a % PAGE == 0 && (lo <= hi ==> a <= hi)
        invariant forall b: U32 :: b % PAGE == 0 && lo <= b < a ==> !FreeRun(pages, PageNo(b), n)
      {
        var pn, ok, i := PageNo(a), true, 0;
        while i < n && ok
          invariant 0 <= i <= n && (ok ==> FreeRun(pages, pn, i)) && (!ok ==> !FreeRun(pages, pn, n))
          decreases n - i, ok
        {
          if pn + i in pages { ok := false; } else { i := i + 1; }
        }
        if ok { return Some(a); }
        AlignedBetween(a, hi);
        a := a + PAGE;
      }
      return None;
    }

    /** The page of this address is mapped writable by this space alone and is
        not one of Q. */
    ghost predicate Owns(addr: U32, Q: set<Page>)
      reads this, pages.Values
    {
      && PageNo(addr) in pages && pages[PageNo(addr)] !in Q
      && !pages[PageNo(addr)].shared && pages[PageNo(addr)].perm.w
    }

    ghost predicate OwnsRun(addr: U32, lo: nat, hi: nat, Q: set<Page>)
      reads this, pages.Values
    {
      forall i :: lo <= i < hi ==> Owns(At(addr, i), Q)
    }

    /** `writeBytes`: stops at the first byte that faults, after n bytes. If every
        page it writes is this space's own, it does not fault and touches no page
        of Q. */
    method WriteBytes(ghost S: set<PagedMemory>, ghost P: set<Page>, addr: U32, bytes: Bytes, ghost Q: set<Page>)
      returns (ok: bool, ghost P': set<Page>, ghost n: nat)
      requires this in S && Inv(Snap(S, P))
      modifies this, P
      ensures P <= P' && fresh(P' - P) && Inv(Snap(S, P'))
      ensures n <= |bytes| && (ok <==> n == |bytes|)
      ensures Contents(S, P') == old(Contents(S, P))[this := FlatWrites(old(Contents(S, P))[this], addr, bytes[..n])]
      ensures old(OwnsRun(addr, 0, |bytes|, Q)) ==>
                ok && P' == P && pages == old(pages) && forall p :: p in Q && p in P ==> unchanged(p)
      ensures bytes == [] || PageNo(addr) !in old(pages) ==> n == 0 && P' == P && Snap(S, P') == old(Snap(S, P))
    {
      hide Inv, Snap, Contents, SamePerms, FlatWrite;
      ghost var f := Contents(S, P);
      ContentsKeys(S, P);
      ghost var own := OwnsRun(addr, 0, |bytes|, Q);
      assert bytes[..0] == [] && f[this := f[this]] == f;
      P', n := P, 0;
      var k := 0;
      while k < |bytes|
        invariant 0 <= k <= |bytes| && n == k
        invariant P <= P' && fresh(P' - P) && Inv(Snap(S, P'))
        invariant Contents(S, P') == f[this := FlatWrites(f[this], addr, bytes[..k])]
        invariant own ==> P' == P && pages == old(pages) && OwnsRun(addr, k, |bytes|, Q)
        invariant own ==> forall p :: p in Q && p in P ==> unchanged(p)
        invariant k == 0 ==> P' == P && pages == old(pages) && Snap(S, P') == old(Snap(S, P))
        invariant k > 0 ==> PageNo(addr) in old(pages)
      {
        AtZero(addr);
        assert own ==> Owns(At(addr, k), Q);
        assert bytes[..k + 1][..k] == bytes[..k];
        ok, P' := Write8(S, P', At(addr, k), bytes[k]);
        if !ok { return false, P', n; }
        k, n := k + 1, n + 1;
      }
      assert bytes[..k] == bytes;
      return true, P', n;
    }

    ghost predicate InRange(lo: int, hi: int, perm: Perm)
      reads this, pages.Values
    {
      forall no :: lo <= no < hi ==> no in pages && pages[no].perm == perm
    }
  }

  function FlatWrites(f: Flat, a: U32, bytes: Bytes): Flat
    decreases |bytes|
  {
    if bytes == [] then f
    else
      var n := |bytes| - 1;
      FlatWrite(FlatWrites(f, a, bytes[..n]), At(a, n), bytes[n])
  }

  function PagesNeeded(length: nat): nat { (length + PAGE - 1) / PAGE }

  predicate FreeRun(pages: map<int, Page>, pn: int, n: nat) { forall no :: pn <= no < pn + n ==> no !in pages }

  lemma AlignUpAligned(v: U32)
    ensures AlignUp(v) % PAGE == 0
  {
  }

  /** Between one multiple of the page size and the next there is no other. */
  lemma AlignedBetween(a: int, hi: int)
    requires a % PAGE == 0 && hi % PAGE == 0 && a < hi
    ensures a + PAGE <= hi && (a + PAGE) % PAGE == 0
    ensures forall b :: b % PAGE == 0 && a <= b < a + PAGE ==> b == a
  {
  }

  lemma EmptyOrNot(s: set<int>)
    ensures s == {} || exists no :: no in s
  {
    if forall no :: no !in s { assert s == {}; }
  }

  lemma SameTable(a: map<int, Page>, b: map<int, Page>)
    requires a.Keys == b.Keys && forall no :: no in a ==> a[no] == b[no]
    ensures a == b
  {
    assert forall no :: no in a.Keys ==> a[no] == b[no];
    var c := map no | no in a.Keys :: a[no];
    assert c == a;
  }

  lemma NoneHeld()
    ensures forall p: Page :: !Holds(map[], p)
  {
  }

  lemma NotHeld(table: map<int, Page>, part: map<int, Page>, no: int)
    requires forall i, j :: i in table && j in table && table[i] == table[j] ==> i == j
    requires no in table && no !in part && forall i :: i in part ==> i in table && part[i] == table[i]
    ensures !Holds(part, table[no])
  {
  }

  lemma HoldsMore(part: map<int, Page>, no: int, page: Page, p: Page)
    requires no !in part
    ensures Holds(part[no := page], p) <==> p == page || Holds(part, p)
  {
    assert part[no := page][no] == page;
    if Holds(part, p) {
      var i :| i in part && part[i] == p;
      assert part[no := page][i] == p;
    }
  }

  ghost function PermsOf(P: set<Page>): map<Page, Perm>
    reads P
  {
    map p | p in P :: p.perm
  }

  /** The page is in the table under a number of lo..hi. */
  ghost predicate Under(table: map<int, Page>, lo: int, hi: int, p: Page) {
    exists no :: lo <= no < hi && no in table && table[no] == p
  }

  /** What a table t and the permissions of the pages look like when the pages lo..hi
      have been mapped over a table t0 of pages of P that had the permissions
      perms0: t still holds the pages t0 held, what it holds besides is new and
      in the range, and of all pages exactly those in the range have got the
      permission asked for. */
  ghost predicate Laid(P: set<Page>, t0: map<int, Page>, perms0: map<Page, Perm>,
                       t: map<int, Page>, perms: map<Page, Perm>, lo: int, hi: int, perm: Perm)
  {
    && (forall no :: no in t0 ==> no in t && t[no] == t0[no])
    && (forall no :: no in t && no !in t0 ==> t[no] !in P && lo <= no < hi)
    && (forall no :: lo <= no < hi ==> no in t && t[no] in perms && perms[t[no]] == perm)
    && (forall p :: p in P ==> p in perms0 && p in perms && perms[p] == if Under(t0, lo, hi, p) then perm else perms0[p])
  }

  /** The same for one page, mapped over a table t. */
  ghost predicate OneLaid(P: set<Page>, t: map<int, Page>, perms: map<Page, Perm>,
                          t': map<int, Page>, perms': map<Page, Perm>, no: int, perm: Perm)
  {
    && no in t' && t' == t[no := t'[no]] && t'[no] in perms' && perms'[t'[no]] == perm
    && (if no in t then t'[no] == t[no] else t'[no] !in P)
    && (forall i :: i in t ==> t[i] in P)
    && (forall p :: p in P ==> p in perms && p in perms' && (p != t'[no] ==> perms'[p] == perms[p]))
  }

  lemma LaidNext(P: set<Page>, P0: set<Page>, t0: map<int, Page>, perms0: map<Page, Perm>, t: map<int, Page>,
                 perms: map<Page, Perm>, t': map<int, Page>, perms': map<Page, Perm>, lo: int, no: int, perm: Perm)
    requires P0 <= P && lo <= no && Laid(P0, t0, perms0, t, perms, lo, no, perm)
    requires OneLaid(P, t, perms, t', perms', no, perm)
    ensures Laid(P0, t0, perms0, t', perms', lo, no + 1, perm)
  {
    hide Under;
    forall p | p in P0 ensures perms'[p] == if Under(t0, lo, no + 1, p) then perm else perms0[p] {
      UnderNext(t0, lo, no, p);
    }
  }

  lemma UnderNext(table: map<int, Page>, lo: int, no: int, p: Page)
    requires lo <= no
    ensures Under(table, lo, no + 1, p) <==> Under(table, lo, no, p) || (no in table && table[no] == p)
  {
  }

  /** The pages lo..k of f are gone, leaving g. */
  ghost predicate Unmapped(f: Flat, g: Flat, lo: int, k: int, hi: int, ignoreMissing: bool) {
    && FlatUnmap(g, k, hi, ignoreMissing) == FlatUnmap(f, lo, hi, ignoreMissing)
    && (forall no :: no >= k ==> (no in g <==> no in f))
    && (ignoreMissing || AllMapped(f, lo, k))
  }

  lemma UnmapStart(f: Flat, lo: int)
    ensures forall hi, ignoreMissing :: Unmapped(f, f, lo, lo, hi, ignoreMissing)
  {
  }

  lemma UnmapTurn(f: Flat, g: Flat, lo: int, k: int, hi: int, ignoreMissing: bool)
    requires Unmapped(f, g, lo, k, hi, ignoreMissing) && lo <= k < hi
    ensures if k !in g && !ignoreMissing then g == FlatUnmap(f, lo, hi, ignoreMissing) && !AllMapped(f, lo, hi)
            else Unmapped(f, g - {k}, lo, k + 1, hi, ignoreMissing)
  {
  }

  lemma UnmapEnd(f: Flat, g: Flat, lo: int, k: int, hi: int, ignoreMissing: bool)
    requires Unmapped(f, g, lo, k, hi, ignoreMissing) && hi <= k && (if lo <= hi then k == hi else k == lo)
    ensures g == FlatUnmap(f, lo, hi, ignoreMissing) && (ignoreMissing || AllMapped(f, lo, hi))
  {
  }

  lemma MapNothing(f: map<PagedMemory, Flat>, m: PagedMemory, lo: int, hi: int)
    requires m in f
    ensures f[m := FlatMap(f[m], lo, lo)] == f && (hi <= lo ==> f[m := FlatMap(f[m], lo, hi)] == f)
  {
    assert f[m := f[m]] == f;
  }

  lemma MapNext(f: map<PagedMemory, Flat>, m: PagedMemory, lo: int, k: int)
    requires m in f && lo <= k
    ensures var g := f[m := FlatMap(f[m], lo, k)]; g[m := FlatAdd(g[m], k)] == f[m := FlatMap(f[m], lo, k + 1)]
  {
  }

  lemma ContentsKeys(S: set<PagedMemory>, P: set<Page>)
    requires Inv(Snap(S, P))
    ensures Contents(S, P).Keys == S
    ensures forall m :: m in S ==> Contents(S, P)[m].Keys == m.pages.Keys
  {
  }

  lemma FlatStep(w: Forks<PagedMemory, Page>, m: PagedMemory, addr: U32, v: U8, page: Page)
    requires Inv(w) && m in w.tables
    requires PageNo(addr) in w.tables[m]
    ensures FlatApply(Views(w), WriteByte(m, PageNo(addr), Offset(addr), v, page))
         == Views(w)[m := FlatWrite(Views(w)[m], addr, v)]
  {
    hide Inv;
  }
}
