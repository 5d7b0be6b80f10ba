/** The dynamic section: `parseELF32DynamicInfo` of src/elf.js reads its tables from
    the file, and the loaded image shows the guest the same tables. */
module ElfDynamic {
  import opened Words
  import opened Buffers
  import opened FlatMemory
  import opened Regions
  import opened ElfImage

  const PT_DYNAMIC: U32 := 2
  const DT_PLTRELSZ := 2
  const DT_REL := 17
  const DT_RELSZ := 18
  const DT_RELENT := 19
  const DT_JMPREL := 23

  /** Where words come from; None where a read throws. */
  type Source = int -> Option<U32>

  /** `dv.getUint32(off, true)`. */
  function FileWords(e: Elf): Source {
    off => if 0 <= off && off + 4 <= |e.bytes|
           then Some(FromBytes(e.bytes[off], e.bytes[off + 1], e.bytes[off + 2], e.bytes[off + 3])) else None
  }

  /** What a program in the guest reads. */
  function MemoryWords(m: Memory): Source { a => if 0 <= a < TWO32 then Read32(m, a) else None }

  datatype Tag = Tag(tag: int, val: U32)

  /** The entries of the dynamic section, up to and with the first of tag 0. */
  function Entries(src: Source, off: int, end: int): Option<seq<Tag>>
    decreases end - off
  {
    if off + 8 > end then Some([])
    else
      match (src(off), src(off + 4))
      case (Some(t), Some(v)) =>
        if t == 0 then Some([Tag(0, v)]) else Cons(Tag(Signed32(t), v), Entries(src, off + 8, end))
      case _ => None
  }

  function Cons<T>(x: T, more: Option<seq<T>>): Option<seq<T>> {
    match more case None => None case Some(s) => Some([x] + s)
  }

  /** `get`: the value of the first entry of a tag, or 0. */
  function Get(entries: seq<Tag>, tag: int): U32 {
    if entries == [] then 0 else if entries[0].tag == tag then entries[0].val else Get(entries[1..], tag)
  }

  /** The entries of a relocation table. */
  function Table(src: Source, off: int, end: int, step: nat): Option<seq<Reloc>>
    requires step > 0
    decreases end - off
  {
    if off + step > end then Some([])
    else
      match (src(off), src(off + 4))
      case (Some(offset), Some(info)) =>
        Cons(Reloc(offset, info % 0x100, info / 0x100), Table(src, off + step, end, step))
      case _ => None
  }

  function OrEight(n: U32): U32 { if n == 0 then 8 else n }

  /** The tables that `applyELF32Relocations` uses. */
  datatype Dynamic = Dynamic(entries: seq<Tag>, rel: seq<Reloc>, jmprel: seq<Reloc>)

  /** The first PT_DYNAMIC header from k on. */
  function FindDynamic(e: Elf, k: nat): Option<Segment>
    requires k <= |e.ph|
    decreases |e.ph| - k
  {
    if k == |e.ph| then None else if e.ph[k].kind == PT_DYNAMIC then Some(e.ph[k]) else FindDynamic(e, k + 1)
  }

  /** A table of the file, found through `vaddrToOffset`; empty when there is no
      address or no segment covers it. */
  function FileTable(e: Elf, addr: U32, size: U32, step: nat): Option<seq<Reloc>>
    requires step > 0
  {
    if addr == 0 || VaddrToOffset(e, addr) == None then Some([])
    else
      var off := VaddrToOffset(e, addr).value;
      Table(FileWords(e), off, off + size, step)
  }

  /** `parseELF32DynamicInfo`. */
  function Parse(e: Elf): Option<Dynamic> {
    match FindDynamic(e, 0)
    case None => Some(Dynamic([], [], []))
    case Some(p) =>
      match Entries(FileWords(e), p.offset, p.offset + p.filesz)
      case None => None
      case Some(es) =>
        match (FileTable(e, Get(es, DT_REL), Get(es, DT_RELSZ), OrEight(Get(es, DT_RELENT))),
               FileTable(e, Get(es, DT_JMPREL), Get(es, DT_PLTRELSZ), 8))
        case (Some(rel), Some(jmprel)) => Some(Dynamic(es, rel, jmprel))
        case _ => None
  }

  // ---- what is parsed -------------------------------------------------------------------

  /** The eight bytes at a hold this entry. */
  ghost predicate TagThere(src: Source, a: int, t: Tag) {
    src(a).Some? && Signed32(src(a).value) == t.tag && src(a + 4) == Some(t.val)
  }

  /** The section's entries in order, to the first of tag 0 or as many as have room. */
  ghost predicate AreEntries(src: Source, off: int, end: int, es: seq<Tag>) {
    && (forall i :: 0 <= i < |es| ==> TagThere(src, off + 8 * i, es[i]) && off + 8 * i + 8 <= end)
    && (forall i :: 0 <= i < |es| - 1 ==> es[i].tag != 0)
    && ((es != [] && es[|es| - 1].tag == 0) || off + 8 * |es| + 8 > end)
  }

  lemma {:induction false} EntriesAre(src: Source, off: int, end: int)
    requires Entries(src, off, end).Some?
    ensures AreEntries(src, off, end, Entries(src, off, end).value)
    decreases end - off
  {
    hide Signed32;
    if off + 8 <= end {
      SignedZero(src(off).value);
      if src(off).value != 0 {
        EntriesAre(src, off + 8, end);
        var t := Tag(Signed32(src(off).value), src(off + 4).value);
        EntriesBefore(src, off, end, t, Entries(src, off + 8, end).value);
      }
    }
  }

  lemma SignedZero(w: U32)
    ensures Signed32(w) == 0 <==> w == 0
  {
  }

  lemma EntriesAfter(src: Source, off: int, end: int, t: Tag, es: seq<Tag>)
    requires AreEntries(src, off, end, [t] + es) && t.tag != 0
    ensures AreEntries(src, off + 8, end, es)
  {
    hide TagThere;
    var all := [t] + es;
    forall i | 0 <= i < |es| ensures TagThere(src, off + 8 + 8 * i, es[i]) && off + 8 + 8 * i + 8 <= end {
      assert TagThere(src, off + 8 * (i + 1), all[i + 1]);
    }
    forall i | 0 <= i < |es| - 1 ensures es[i].tag != 0 { assert all[i + 1].tag != 0; }
  }

  lemma EntriesBefore(src: Source, off: int, end: int, t: Tag, es: seq<Tag>)
    requires TagThere(src, off, t) && t.tag != 0 && off + 8 <= end && AreEntries(src, off + 8, end, es)
    ensures AreEntries(src, off, end, [t] + es)
  {
    hide TagThere;
    var all := [t] + es;
    forall i | 0 <= i < |all| ensures TagThere(src, off + 8 * i, all[i]) && off + 8 * i + 8 <= end {
      if i > 0 { assert TagThere(src, off + 8 + 8 * (i - 1), es[i - 1]); }
    }
    forall i | 0 <= i < |all| - 1 ensures all[i].tag != 0 { if i > 0 { assert es[i - 1].tag != 0; } }
  }

  lemma FirstEntry(src: Source, off: int, end: int, es: seq<Tag>)
    requires AreEntries(src, off, end, es)
    ensures if es == [] then off + 8 > end else TagThere(src, off, es[0]) && off + 8 <= end
    ensures es != [] && es[0].tag == 0 ==> es == [Tag(0, es[0].val)]
  {
    hide TagThere;
    if es != [] { assert TagThere(src, off + 8 * 0, es[0]); }
  }

  lemma {:induction false} EntriesFound(src: Source, off: int, end: int, es: seq<Tag>)
    requires AreEntries(src, off, end, es)
    ensures Entries(src, off, end) == Some(es)
    decreases |es|
  {
    hide Signed32, AreEntries;
    FirstEntry(src, off, end, es);
    if es != [] {
      SignedZero(src(off).value);
      if es[0].tag != 0 {
        assert es == [es[0]] + es[1..];
        EntriesAfter(src, off, end, es[0], es[1..]);
        EntriesFound(src, off + 8, end, es[1..]);
      }
    }
  }

  /** The value of the first entry of the tag; 0 if there is none. */
  ghost predicate FirstValue(es: seq<Tag>, tag: int, v: U32) {
    if tag in Tags(es) then exists i :: 0 <= i < |es| && es[i] == Tag(tag, v) && tag !in Tags(es[..i]) else v == 0
  }

  ghost function Tags(es: seq<Tag>): set<int> { set t | t in es :: t.tag }

  lemma {:induction false} GetFirst(es: seq<Tag>, tag: int)
    ensures FirstValue(es, tag, Get(es, tag))
    decreases |es|
  {
    if es != [] {
      if es[0].tag == tag {
        assert es[0] == Tag(tag, Get(es, tag)) && tag !in Tags(es[..0]);
        assert es[0] in es;
      } else {
        GetFirst(es[1..], tag);
        assert es == [es[0]] + es[1..];
        assert tag in Tags(es) <==> tag in Tags(es[1..]);
        if tag in Tags(es) {
          var i :| 0 <= i < |es[1..]| && es[1..][i] == Tag(tag, Get(es, tag)) && tag !in Tags(es[1..][..i]);
          assert es[..i + 1] == [es[0]] + es[1..][..i];
          assert es[i + 1] == Tag(tag, Get(es, tag)) && tag !in Tags(es[..i + 1]);
        }
      }
    }
  }

  /** The first eight bytes at a are this relocation: its site, then its type in the low
      byte of a word and its symbol in the rest. */
  ghost predicate RelocThere(src: Source, a: int, r: Reloc) {
    src(a) == Some(r.offset) && src(a + 4).Some? && src(a + 4).value == r.kind as int + 0x100 * (r.sym as int)
  }

  /** The table's entries in order, as many as have room. */
  ghost predicate AreRelocs(src: Source, off: int, end: int, step: nat, list: seq<Reloc>) {
    && (forall i :: 0 <= i < |list| ==> RelocThere(src, off + step * i, list[i]) && off + step * i + step <= end)
    && off + step * |list| + step > end
  }

  lemma RelocsAfter(src: Source, off: int, end: int, step: nat, r: Reloc, list: seq<Reloc>)
    requires AreRelocs(src, off, end, step, [r] + list)
    ensures AreRelocs(src, off + step, end, step, list)
  {
    hide RelocThere;
    var all := [r] + list;
    forall i | 0 <= i < |list|
      ensures RelocThere(src, off + step + step * i, list[i]) && off + step + step * i + step <= end
    {
      assert RelocThere(src, off + step * (i + 1), all[i + 1]) && off + step * (i + 1) + step <= end;
      StepOn(step, i);
    }
    StepOn(step, |list|);
  }

  lemma StepOn(step: nat, i: nat)
    ensures step * (i + 1) == step + step * i
  {
  }

  lemma RelocsBefore(src: Source, off: int, end: int, step: nat, r: Reloc, list: seq<Reloc>)
    requires RelocThere(src, off, r) && off + step <= end && AreRelocs(src, off + step, end, step, list)
    ensures AreRelocs(src, off, end, step, [r] + list)
  {
    hide RelocThere;
    var all := [r] + list;
    forall i | 0 <= i < |all| ensures RelocThere(src, off + step * i, all[i]) && off + step * i + step <= end {
      if i > 0 {
        assert RelocThere(src, off + step + step * (i - 1), list[i - 1]) && off + step + step * (i - 1) + step <= end;
        StepOn(step, i - 1);
      }
    }
    StepOn(step, |list|);
  }

  lemma FirstReloc(src: Source, off: int, end: int, step: nat, list: seq<Reloc>)
    requires AreRelocs(src, off, end, step, list)
    ensures if list == [] then off + step > end else RelocThere(src, off, list[0]) && off + step <= end
  {
    hide RelocThere;
    if list != [] { assert RelocThere(src, off + step * 0, list[0]) && off + step * 0 + step <= end; }
  }

  lemma RelocRead(src: Source, a: int, r: Reloc)
    requires src(a).Some? && src(a + 4).Some?
    ensures var info := src(a + 4).value;
            RelocThere(src, a, r) <==> r == Reloc(src(a).value, info % 0x100, info / 0x100)
  {
  }

  lemma {:induction false} TableAre(src: Source, off: int, end: int, step: nat)
    requires step > 0 && Table(src, off, end, step).Some?
    ensures AreRelocs(src, off, end, step, Table(src, off, end, step).value)
    decreases end - off
  {
    hide RelocThere;
    if off + step <= end {
      hide AreRelocs;
      var info := src(off + 4).value;
      var r := Reloc(src(off).value, info % 0x100, info / 0x100);
      RelocRead(src, off, r);
      TableAre(src, off + step, end, step);
      RelocsBefore(src, off, end, step, r, Table(src, off + step, end, step).value);
    }
  }

  lemma {:induction false} TableFound(src: Source, off: int, end: int, step: nat, list: seq<Reloc>)
    requires step > 0 && AreRelocs(src, off, end, step, list)
    ensures Table(src, off, end, step) == Some(list)
    decreases |list|
  {
    hide AreRelocs;
    FirstReloc(src, off, end, step, list);
    if list != [] {
      assert src(off).Some? && src(off + 4).Some?;
      RelocRead(src, off, list[0]);
      assert list == [list[0]] + list[1..];
      RelocsAfter(src, off, end, step, list[0], list[1..]);
      TableFound(src, off + step, end, step, list[1..]);
    }
  }

  /** The relocations of a table of the file. */
  ghost predicate IsFileTable(e: Elf, addr: U32, size: U32, step: nat, list: seq<Reloc>) {
    match if addr == 0 then None else VaddrToOffset(e, addr)
    case None => list == []
    case Some(off) => AreRelocs(FileWords(e), off, off + size, step, list)
  }

  lemma FileTableIff(e: Elf, addr: U32, size: U32, step: nat, list: seq<Reloc>)
    requires step > 0
    ensures FileTable(e, addr, size, step) == Some(list) <==> IsFileTable(e, addr, size, step, list)
  {
    hide VaddrToOffset, AreRelocs, FileWords;
    if addr != 0 && VaddrToOffset(e, addr).Some? {
      var off := VaddrToOffset(e, addr).value;
      if Table(FileWords(e), off, off + size, step).Some? { TableAre(FileWords(e), off, off + size, step); }
      if AreRelocs(FileWords(e), off, off + size, step, list) { TableFound(FileWords(e), off, off + size, step, list); }
    }
  }

  lemma {:induction false} FindFirst(e: Elf, k: nat, i: nat)
    requires i <= k < |e.ph| && e.ph[k].kind == 2 && forall j :: i <= j < k ==> e.ph[j].kind != 2
    ensures FindDynamic(e, i) == Some(e.ph[k])
    decreases k - i
  {
    if i < k { FindFirst(e, k, i + 1); }
  }

  lemma {:induction false} FindNone(e: Elf, i: nat)
    requires i <= |e.ph| && forall j :: i <= j < |e.ph| ==> e.ph[j].kind != 2
    ensures FindDynamic(e, i) == None
    decreases |e.ph| - i
  {
    if i < |e.ph| { FindNone(e, i + 1); }
  }

  /** What parsing gives, and when: the entries of the first header of type 2, and the
      tables that the first entries of the tags 17, 18 and 19, and 23 and 2, lead to;
      nothing where there is no such header. */
  lemma ParseIff(e: Elf, k: nat, d: Dynamic)
    requires k <= |e.ph| && (k < |e.ph| ==> e.ph[k].kind == 2) && forall j :: 0 <= j < k ==> e.ph[j].kind != 2
    ensures k == |e.ph| ==> Parse(e) == Some(Dynamic([], [], []))
    ensures k < |e.ph| ==>
              var (p, es, relEnt) := (e.ph[k], d.entries, Get(d.entries, 19));
              (Parse(e) == Some(d) <==>
                && AreEntries(FileWords(e), p.offset, p.offset + p.filesz, es)
                && IsFileTable(e, Get(es, 17), Get(es, 18), if relEnt == 0 then 8 else relEnt, d.rel)
                && IsFileTable(e, Get(es, 23), Get(es, 2), 8, d.jmprel))
  {
    hide FileWords, Entries, Get, FileTable, IsFileTable, AreEntries, FindDynamic;
    if k == |e.ph| {
      FindNone(e, 0);
    } else {
      FindFirst(e, k, 0);
      var (src, off, end, es) := (FileWords(e), e.ph[k].offset, e.ph[k].offset + e.ph[k].filesz, d.entries);
      if Entries(src, off, end).Some? { EntriesAre(src, off, end); }
      if AreEntries(src, off, end, es) { EntriesFound(src, off, end, es); }
      FileTableIff(e, Get(es, 17), Get(es, 18), OrEight(Get(es, 19)), d.rel);
      FileTableIff(e, Get(es, 23), Get(es, 2), 8, d.jmprel);
    }
  }

  // ---- the same tables in memory --------------------------------------------------------

  /** The n bytes from virtual address v on are file bytes of one segment, the first
      of them at off. */
  ghost predicate InFile(e: Elf, i: int, v: int, off: int, n: int) {
    && IsLoad(e, i) && e.ph[i].vaddr <= v && v + n <= e.ph[i].vaddr + e.ph[i].filesz
    && off == e.ph[i].offset + (v - e.ph[i].vaddr) && off + n <= |e.bytes|
  }

  lemma {:induction false} Covered(e: Elf, v: int, k: nat, i: int)
    requires k <= i && IsLoad(e, i) && e.ph[i].vaddr <= v < e.ph[i].vaddr + e.ph[i].filesz
    ensures VaddrToOffsetFrom(e, v, k).Some?
    decreases |e.ph| - k
  {
    if k < i { Covered(e, v, k + 1, i); }
  }

  /** Where the segments are apart, `vaddrToOffset` finds the segment that holds the
      address. */
  lemma OffsetIn(e: Elf, v: int, i: int)
    requires WellFormed(e) && IsLoad(e, i) && e.ph[i].vaddr <= v < e.ph[i].vaddr + e.ph[i].filesz
    ensures VaddrToOffset(e, v) == Some(e.ph[i].offset + (v - e.ph[i].vaddr))
  {
    hide VaddrToOffsetFrom;
    Covered(e, v, 0, i);
    var j := CoveringSegment(e, v, 0);
    assert Proper(e, e.ph[i]) && Proper(e, e.ph[j]);
    assert i != j ==> Apart(e.ph[i], e.ph[j]);
  }

  lemma FileByteIn(e: Elf, i: int, v: int, off: int, n: int, j: int)
    requires WellFormed(e) && InFile(e, i, v, off, n) && 0 <= j < n
    ensures FileByte(e, v + j) == Some(e.bytes[off + j])
  {
    hide WellFormed, VaddrToOffset;
    OffsetIn(e, v + j, i);
  }

  /** A word of the file is the word the guest finds at its address. */
  lemma SameWord(m: Memory, e: Elf, i: int, v: int, off: int, n: int, j: int)
    requires WellFormed(e) && AllReadable(e) && InFile(e, i, v, off, n) && 0 <= j && j + 4 <= n
    ensures MemoryWords(Load(m, e).mem)(e.bias + v + j) == FileWords(e)(off + j) && FileWords(e)(off + j).Some?
  {
    hide WellFormed, AllReadable, LoadFrom, FileByte, ReadableWord, Read32, FromBytes, LoadedFrom;
    FileByteIn(e, i, v, off, n, j);
    FileByteIn(e, i, v, off, n, j + 1);
    FileByteIn(e, i, v, off, n, j + 2);
    FileByteIn(e, i, v, off, n, j + 3);
    OneProper(e, i);
    var r := Reloc(v + j, 0, 0);
    assert InImage(e, r);
    SiteInImage(m, e, r);
    LoadFromDone(m, e, 0);
    LoadedWord(Load(m, e).mem, e, Site(e, r), v + j);
  }

  ghost predicate SameAt(s: Source, t: Source, a: int, b: int, j: int) { s(a + j) == t(b + j) && s(a + j).Some? }

  /** Two sources have the same words, n bytes from a in one and from b in the other. */
  ghost predicate SameWords(s: Source, t: Source, a: int, b: int, n: int) {
    forall j :: 0 <= j <= n - 4 ==> SameAt(s, t, a, b, j)
  }

  lemma SameWordsAt(s: Source, t: Source, a: int, b: int, n: int, j: int)
    requires SameWords(s, t, a, b, n) && 0 <= j && j + 8 <= n
    ensures s(a + j) == t(b + j) && s(a + j + 4) == t(b + j + 4) && s(a + j).Some? && s(a + j + 4).Some?
  {
    assert SameAt(s, t, a, b, j) && SameAt(s, t, a, b, j + 4);
    assert a + (j + 4) == a + j + 4 && b + (j + 4) == b + j + 4;
  }

  lemma {:induction false} SameEntries(s: Source, t: Source, a: int, b: int, n: int, j: nat)
    requires SameWords(s, t, a, b, n)
    ensures Entries(s, a + j, a + n) == Entries(t, b + j, b + n) && Entries(s, a + j, a + n).Some?
    decreases n - j
  {
    hide SameWords;
    if j + 8 <= n {
      SameWordsAt(s, t, a, b, n, j);
      SameEntries(s, t, a, b, n, j + 8);
    }
  }

  lemma {:induction false} SameTable(s: Source, t: Source, a: int, b: int, n: int, j: nat, step: nat)
    requires SameWords(s, t, a, b, n) && step >= 8
    ensures Table(s, a + j, a + n, step) == Table(t, b + j, b + n, step) && Table(s, a + j, a + n, step).Some?
    decreases n - j
  {
    hide SameWords;
    if j + step <= n {
      SameWordsAt(s, t, a, b, n, j);
      SameTable(s, t, a, b, n, j + step, step);
    }
  }

  lemma LoadedWords(m: Memory, e: Elf, i: int, v: int, off: int, n: int)
    requires WellFormed(e) && AllReadable(e) && InFile(e, i, v, off, n)
    ensures SameWords(MemoryWords(Load(m, e).mem), FileWords(e), e.bias + v, off, n)
  {
    hide WellFormed, AllReadable, Load, MemoryWords, FileWords, InFile;
    var (s, t, a) := (MemoryWords(Load(m, e).mem), FileWords(e), e.bias + v);
    forall j | 0 <= j <= n - 4 ensures SameAt(s, t, a, off, j) {
      SameWord(m, e, i, v, off, n, j);
    }
  }

  /** A table as a program in the guest reads it. */
  function GuestTable(m: Memory, e: Elf, addr: U32, size: U32, step: nat): Option<seq<Reloc>>
    requires step > 0
  {
    if addr == 0 then Some([]) else Table(MemoryWords(m), e.bias + addr, e.bias + addr + size, step)
  }

  /** The dynamic section as a program in the guest reads it, following its pointers
      in memory. */
  function Guest(m: Memory, e: Elf): Option<Dynamic> {
    match FindDynamic(e, 0)
    case None => Some(Dynamic([], [], []))
    case Some(p) =>
      match Entries(MemoryWords(m), e.bias + p.vaddr, e.bias + p.vaddr + p.filesz)
      case None => None
      case Some(es) =>
        match (GuestTable(m, e, Get(es, DT_REL), Get(es, DT_RELSZ), OrEight(Get(es, DT_RELENT))),
               GuestTable(m, e, Get(es, DT_JMPREL), Get(es, DT_PLTRELSZ), 8))
        case (Some(rel), Some(jmprel)) => Some(Dynamic(es, rel, jmprel))
        case _ => None
  }

  /** A table that is there lies in the file part of one segment. */
  ghost predicate TableInFile(e: Elf, addr: U32, size: U32) {
    addr == 0 || exists i, off :: InFile(e, i, addr, off, size)
  }

  /** The dynamic section and its tables lie in the file parts of segments, and an
      entry of DT_REL has room for its two words. */
  ghost predicate DynamicInFile(e: Elf) {
    var dyn := FindDynamic(e, 0);
    dyn.Some? ==>
      var p := dyn.value;
      && (exists i :: InFile(e, i, p.vaddr, p.offset, p.filesz))
      && var es := Entries(FileWords(e), p.offset, p.offset + p.filesz);
         es.Some? ==>
           && TableInFile(e, Get(es.value, DT_REL), Get(es.value, DT_RELSZ)) && OrEight(Get(es.value, DT_RELENT)) >= 8
           && TableInFile(e, Get(es.value, DT_JMPREL), Get(es.value, DT_PLTRELSZ))
  }

  lemma TableSeen(m: Memory, e: Elf, addr: U32, size: U32, step: nat)
    requires WellFormed(e) && AllReadable(e) && TableInFile(e, addr, size) && step >= 8
    ensures FileTable(e, addr, size, step) == GuestTable(Load(m, e).mem, e, addr, size, step)
    ensures FileTable(e, addr, size, step).Some?
  {
    hide WellFormed, AllReadable, Load, MemoryWords, FileWords, VaddrToOffset, SameWords;
    if addr != 0 {
      var i, off :| InFile(e, i, addr, off, size);
      if size > 0 { OffsetIn(e, addr, i); }
      LoadedWords(m, e, i, addr, off, size);
      SameTable(MemoryWords(Load(m, e).mem), FileWords(e), e.bias + addr, off, size, 0, step);
    }
  }

  /** What `parseELF32DynamicInfo` finds in the file is what the loaded program finds
      in its memory. */
  lemma DynamicSeen(m: Memory, e: Elf)
    requires WellFormed(e) && AllReadable(e) && DynamicInFile(e)
    ensures Parse(e).Some? && Guest(Load(m, e).mem, e) == Parse(e)
  {
    hide WellFormed, AllReadable, Load, MemoryWords, FileWords, InFile, SameWords, FileTable, GuestTable, TableInFile,
         Entries, Get, FindDynamic;
    var dyn := FindDynamic(e, 0);
    if dyn.Some? {
      var p := dyn.value;
      var i :| InFile(e, i, p.vaddr, p.offset, p.filesz);
      LoadedWords(m, e, i, p.vaddr, p.offset, p.filesz);
      SameEntries(MemoryWords(Load(m, e).mem), FileWords(e), e.bias + p.vaddr, p.offset, p.filesz, 0);
      var es := Entries(FileWords(e), p.offset, p.offset + p.filesz).value;
      TableSeen(m, e, Get(es, DT_REL), Get(es, DT_RELSZ), OrEight(Get(es, DT_RELENT)));
      TableSeen(m, e, Get(es, DT_JMPREL), Get(es, DT_PLTRELSZ), 8);
    }
  }

  // ---- loading with the file's own relocations ------------------------------------------

  /** The address of the last PT_DYNAMIC header before k, or 0. */
  function DynamicAddr(e: Elf, k: nat): U32
    requires k <= |e.ph|
  {
    if k == 0 then 0
    else if e.ph[k - 1].kind == PT_DYNAMIC then Wrap(e.bias + e.ph[k - 1].vaddr)
    else DynamicAddr(e, k - 1)
  }

  function ListOf(d: Dynamic, resolve: U32 -> U32, strict: bool): Relocations {
    Relocations(d.rel + d.jmprel, resolve, strict)
  }

  /** `applyELF32Relocations`. */
  function ApplyDynamic(m: Memory, e: Elf, resolve: U32 -> U32, strict: bool): Stored {
    match Parse(e)
    case None => Stored(false, m)
    case Some(d) => Relocate(m, e, ListOf(d, resolve, strict))
  }

  /** The loader resolves no symbol. */
  const NO_SYMBOLS: U32 -> U32 := _ => 0

  /** `loadELF32Image`: the segments, and then the relocations unless the caller asks
      for none. */
  function LoadImage(m: Memory, e: Elf, relocate: bool): Stored {
    var st := Load(m, e);
    if st.ok && relocate && DynamicAddr(e, |e.ph|) != 0 then ApplyDynamic(st.mem, e, NO_SYMBOLS, false) else st
  }

  /** The address is that of the last header of type 2; 0 where there is none. */
  lemma {:induction false} DynamicLast(e: Elf, k: nat, n: nat)
    requires k <= n <= |e.ph| && forall j :: k <= j < n ==> e.ph[j].kind != 2
    ensures k == 0 ==> DynamicAddr(e, n) == 0
    ensures k > 0 && e.ph[k - 1].kind == 2 ==> DynamicAddr(e, n) == (e.bias + e.ph[k - 1].vaddr) % 0x1_0000_0000
    decreases n - k
  {
    if k < n { DynamicLast(e, k, n - 1); } else if k > 0 { WrapIsMod(e.bias + e.ph[k - 1].vaddr); }
  }

  /** Loading goes through if and only if every segment loads and, unless the caller wants no
      relocations or there is no dynamic section, the section can be parsed and every
      site of its tables can be read. */
  lemma LoadsIff(m: Memory, e: Elf, relocate: bool)
    ensures var mem := Load(m, e).mem;
            LoadImage(m, e, relocate).ok <==>
              && Load(m, e).ok
              && (relocate && DynamicAddr(e, |e.ph|) != 0 ==>
                    && Parse(e).Some?
                    && forall r :: r in Parse(e).value.rel + Parse(e).value.jmprel ==> Reads(mem, Site(e, r)))
    ensures !relocate || DynamicAddr(e, |e.ph|) == 0 ==> LoadImage(m, e, relocate) == Load(m, e)
  {
    hide Load, Parse, DynamicAddr, ApplyFrom, Reads, Site;
    if Parse(e).Some? {
      var rs := ListOf(Parse(e).value, NO_SYMBOLS, false);
      RelocatesIff(Load(m, e).mem, e, rs);
      var mem := Load(m, e).mem;
      forall i | 0 <= i < |rs.list| ensures Applies(mem, e, rs, i) <==> Reads(mem, Site(e, rs.list[i])) {
      }
    }
  }

  /** What becomes of a word of the file under the loader, which knows no symbol: type 8
      moves it by the bias, type 2 without a symbol back by its own address. */
  function Relocated(e: Elf, r: Reloc, word: U32): U32 {
    if r.kind == 8 then (e.bias + word) % 0x1_0000_0000
    else if r.kind == 2 && r.sym == 0 then (word - (e.bias + r.offset)) % 0x1_0000_0000
    else word
  }

  lemma LoaderWord(m: Memory, e: Elf, rs: Relocations, i: nat)
    requires WellFormed(e) && AllReadable(e) && GoodSites(e, rs) && i < |rs.list| && rs.resolve == NO_SYMBOLS
    requires FileWord(e, rs.list[i].offset).Some?
    ensures Read32(Relocate(Load(m, e).mem, e, rs).mem, Site(e, rs.list[i]))
         == Some(Relocated(e, rs.list[i], FileWord(e, rs.list[i].offset).value))
  {
    hide WellFormed, AllReadable, GoodSites, Relocate, Load, FileWord, Read32;
    RelocatedWord(m, e, rs, i);
    SiteIs(m, e, rs, i);
  }

  lemma SiteIs(m: Memory, e: Elf, rs: Relocations, i: nat)
    requires WellFormed(e) && AllReadable(e) && GoodSites(e, rs) && i < |rs.list|
    ensures Site(e, rs.list[i]) == e.bias + rs.list[i].offset
  {
    hide WellFormed, AllReadable, Load, Site;
    SiteInImage(m, e, rs.list[i]);
  }

  /** The loader relocates by the tables that the image itself shows: at the site of each
      entry that a program finds in the loaded image stands what its type makes of
      the file's word, and the rest of the image is the file. */
  lemma SelfRelocated(m: Memory, e: Elf)
    requires WellFormed(e) && AllReadable(e) && DynamicInFile(e) && DynamicAddr(e, |e.ph|) != 0
    requires Guest(Load(m, e).mem, e).Some? ==> GoodSites(e, ListOf(Guest(Load(m, e).mem, e).value, NO_SYMBOLS, false))
    ensures Guest(Load(m, e).mem, e).Some? && LoadImage(m, e, true).ok
    ensures var list := ListOf(Guest(Load(m, e).mem, e).value, NO_SYMBOLS, false).list;
            forall i :: 0 <= i < |list| && FileWord(e, list[i].offset).Some? ==>
              Read32(LoadImage(m, e, true).mem, Site(e, list[i]))
              == Some(Relocated(e, list[i], FileWord(e, list[i].offset).value))
    ensures var rs := ListOf(Guest(Load(m, e).mem, e).value, NO_SYMBOLS, false);
            forall v :: FileByte(e, v).Some? && !InSite(e, rs, 0, e.bias + v) ==>
              ByteIs(LoadImage(m, e, true).mem, e.bias + v, FileByte(e, v).value)
  {
    hide WellFormed, AllReadable, Load, Relocate, Parse, Guest, GoodSites, FileWord, FileByte, InSite, DynamicInFile,
         DynamicAddr, Site, Wrap, Read32;
    DynamicSeen(m, e);
    var rs := ListOf(Guest(Load(m, e).mem, e).value, NO_SYMBOLS, false);
    RelocatedImage(m, e, rs);
    forall i | 0 <= i < |rs.list| && FileWord(e, rs.list[i].offset).Some?
      ensures Read32(LoadImage(m, e, true).mem, Site(e, rs.list[i]))
           == Some(Relocated(e, rs.list[i], FileWord(e, rs.list[i].offset).value))
    {
      LoaderWord(m, e, rs, i);
    }
  }

  // ---- the code -------------------------------------------------------------------------

  function Join<T>(done: seq<T>, more: Option<seq<T>>): Option<seq<T>> {
    match more case None => None case Some(s) => Some(done + s)
  }

  lemma JoinCons<T>(done: seq<T>, x: T, more: Option<seq<T>>)
    ensures Join(done, Cons(x, more)) == Join(done + [x], more)
    ensures Join(done, Some([])) == Some(done) && Join(done, Some([x])) == Some(done + [x])
    ensures Join([], more) == more
  {
    assert done + [] == done;
    if more.Some? {
      assert [] + more.value == more.value;
      assert done + ([x] + more.value) == (done + [x]) + more.value;
    }
  }

  /** The loop over the dynamic section. */
  method ReadEntries(e: Elf, p: Segment) returns (r: Option<seq<Tag>>)
    ensures r == Entries(FileWords(e), p.offset, p.offset + p.filesz)
  {
    hide FileWords, Join, Cons;
    var src, end := FileWords(e), p.offset + p.filesz;
    var entries: seq<Tag> := [];
    var off: int := p.offset;
    JoinCons([], Tag(0, 0), Entries(src, off, end));
    while off + 8 <= end
      invariant Entries(src, p.offset, end) == Join(entries, Entries(src, off, end))
      decreases end - off
    {
      var tag, val := src(off), src(off + 4);
      JoinNone(entries);
      if tag.None? || val.None? { return None; }
      JoinCons(entries, Tag(Signed32(tag.value), val.value), Entries(src, off + 8, end));
      entries := entries + [Tag(Signed32(tag.value), val.value)];
      off := off + 8;
      if tag.value == 0 { return Some(entries); }
    }
    JoinCons(entries, Tag(0, 0), Entries(src, off, end));
    r := Some(entries);
  }

  lemma JoinNone<T>(done: seq<T>)
    ensures Join(done, None) == None
  {
  }

  /** The loop over a relocation table. */
  method ReadTable(e: Elf, addr: U32, size: U32, step: nat) returns (r: Option<seq<Reloc>>)
    requires step > 0
    ensures r == FileTable(e, addr, size, step)
  {
    hide FileWords, Join, Cons, VaddrToOffset;
    if addr == 0 || VaddrToOffset(e, addr).None? { return Some([]); }
    var src, start := FileWords(e), VaddrToOffset(e, addr).value;
    var end := start + size;
    var list: seq<Reloc> := [];
    var off: int := start;
    JoinCons([], Reloc(0, 0, 0), Table(src, off, end, step));
    while off + step <= end
      invariant Table(src, start, end, step) == Join(list, Table(src, off, end, step))
      decreases end - off
    {
      var offset, info := src(off), src(off + 4);
      JoinNone(list);
      if offset.None? || info.None? { return None; }
      JoinCons(list, Reloc(offset.value, info.value % 0x100, info.value / 0x100), Table(src, off + step, end, step));
      list := list + [Reloc(offset.value, info.value % 0x100, info.value / 0x100)];
      off := off + step;
    }
    JoinCons(list, Reloc(0, 0, 0), Table(src, off, end, step));
    r := Some(list);
  }

  /** `parseELF32DynamicInfo`. */
  method ParseElf32DynamicInfo(e: Elf) returns (d: Option<Dynamic>)
    ensures d == Parse(e)
  {
    hide FileWords, FileTable, Entries, Get;
    var dyn := FindDynamic(e, 0);
    if dyn.None? { return Some(Dynamic([], [], [])); }
    var es := ReadEntries(e, dyn.value);
    if es.None? { return None; }
    var rel := ReadTable(e, Get(es.value, DT_REL), Get(es.value, DT_RELSZ), OrEight(Get(es.value, DT_RELENT)));
    if rel.None? { return None; }
    var jmprel := ReadTable(e, Get(es.value, DT_JMPREL), Get(es.value, DT_PLTRELSZ), 8);
    if jmprel.None? { return None; }
    d := Some(Dynamic(es.value, rel.value, jmprel.value));
  }

  /** Two lists one after the other are their concatenation. */
  lemma {:induction false} ApplyAppend(m: Memory, e: Elf, rs: Relocations, more: seq<Reloc>, i: nat)
    requires i <= |rs.list|
    ensures var st := ApplyFrom(m, e, rs, i);
            ApplyFrom(m, e, rs.(list := rs.list + more), i)
            == if st.ok then ApplyFrom(st.mem, e, rs.(list := rs.list + more), |rs.list|) else st
    decreases |rs.list| - i
  {
    hide ApplyOne;
    var all := rs.(list := rs.list + more);
    if i < |rs.list| {
      assert all.list[i] == rs.list[i];
      SameOne(m, e, rs, all, rs.list[i]);
      var st := ApplyOne(m, e, rs, rs.list[i]);
      if st.ok { ApplyAppend(st.mem, e, rs, more, i + 1); }
    }
  }

  lemma SameOne(m: Memory, e: Elf, rs: Relocations, all: Relocations, r: Reloc)
    requires all.resolve == rs.resolve && all.strict == rs.strict
    ensures ApplyOne(m, e, all, r) == ApplyOne(m, e, rs, r)
  {
    hide Read32, ForceFrom, Supported, Site;
  }

  lemma {:induction false} ApplyTail(m: Memory, e: Elf, rs: Relocations, all: Relocations, pre: seq<Reloc>, i: nat)
    requires all == rs.(list := pre + rs.list) && i <= |rs.list|
    ensures ApplyFrom(m, e, all, |pre| + i) == ApplyFrom(m, e, rs, i)
    decreases |rs.list| - i
  {
    hide ApplyOne;
    if i < |rs.list| {
      assert all.list[|pre| + i] == rs.list[i];
      SameOne(m, e, rs, all, rs.list[i]);
      var st := ApplyOne(m, e, rs, rs.list[i]);
      if st.ok { ApplyTail(st.mem, e, rs, all, pre, i + 1); }
    }
  }

  /** `applyELF32Relocations`: one loop a table. */
  method ApplyElf32Relocations(m: Memory, e: Elf, resolve: U32 -> U32, strict: bool) returns (st: Stored)
    ensures st == ApplyDynamic(m, e, resolve, strict)
  {
    hide ApplyFrom, Parse;
    var d := ParseElf32DynamicInfo(e);
    if d.None? { return Stored(false, m); }
    var rel := Relocations(d.value.rel, resolve, strict);
    var jmprel := Relocations(d.value.jmprel, resolve, strict);
    ApplyAppend(m, e, rel, d.value.jmprel, 0);
    st := ApplyRelocations(m, e, rel);
    if st.ok {
      ApplyTail(st.mem, e, jmprel, ListOf(d.value, resolve, strict), d.value.rel, 0);
      st := ApplyRelocations(st.mem, e, jmprel);
    }
  }

  /** `loadELF32Image`. */
  method LoadElf32Image(m: Memory, e: Elf, relocate: bool) returns (st: Stored)
    ensures st == LoadImage(m, e, relocate)
  {
    hide LoadSegment, ApplyDynamic;
    var mem, dynamicAddr: U32 := m, 0;
    for i := 0 to |e.ph|
      invariant Load(m, e) == LoadFrom(mem, e, i) && dynamicAddr == DynamicAddr(e, i)
    {
      if e.ph[i].kind == PT_LOAD {
        var s := LoadOneSegment(mem, e, e.ph[i]);
        if !s.ok { return s; }
        mem := s.mem;
      }
      if e.ph[i].kind == PT_DYNAMIC { dynamicAddr := Wrap(e.bias + e.ph[i].vaddr); }
    }
    st := Stored(true, mem);
    if dynamicAddr != 0 && relocate { st := ApplyElf32Relocations(mem, e, NO_SYMBOLS, false); }
  }
}
