/** `handleStringOp` of src/cpu.js: MOVS, CMPS, STOS, LODS and SCAS with their REP
    prefixes. All addresses wrap at 2^32. */
module StringOps {
  import opened Words
  import opened Buffers
  import opened FlatMemory
  import opened Regions
  import opened Alu
  import opened SubRegisters

  datatype Kind = Movs | Cmps | Stos | Lods | Scas

  datatype Rep = NoRep | Rep | Repne

  /** An instruction with the bases of its two segments: `prefix.seg ?? "ds"` for
      the source, `es` for the destination. */
  datatype Op = Op(kind: Kind, width: Width, rep: Rep, srcBase: U32, esBase: U32)

  /** The part of the processor that string instructions touch. */
  datatype State = State(eax: U32, ecx: U32, esi: U32, edi: U32, flags: Flags, mem: Memory)

  function SizeOf(w: Width): nat { match w case W8 => 1 case W16 => 2 case W32 => 4 }

  /** i elements of width w, in bytes. */
  function Span(i: nat, w: Width): nat { match w case W8 => i case W16 => 2 * i case W32 => 4 * i }

  function LowBytes(v: U32, w: Width): (b: Bytes)
    ensures |b| == SizeOf(w)
  {
    match w
    case W8 => [ByteOf(v, 0)]
    case W16 => [ByteOf(v, 0), ByteOf(v, 1)]
    case W32 => [ByteOf(v, 0), ByteOf(v, 1), ByteOf(v, 2), ByteOf(v, 3)]
  }

  function ReadW(m: Memory, a: U32, w: Width): Option<U32> {
    match w
    case W8 => (match Read8(m, a) case None => None case Some(b) => Some(b))
    case W16 =>
      (match (Read8(m, a), Read8(m, At(a, 1)))
       case (Some(b0), Some(b1)) => Some(FromBytes(b0, b1, 0, 0))
       case _ => None)
    case W32 => Read32(m, a)
  }

  /** `write8`, `write16` and `write32`: the bytes from the lowest up. */
  function WriteW(m: Memory, a: U32, v: U32, w: Width): Stored { WriteBytes(m, a, LowBytes(v, w)) }

  function Step(r: U32, f: Flags, w: Width): U32 { if f.df then At(r, 0 - SizeOf(w)) else At(r, SizeOf(w)) }

  function Advance(s: State, w: Width, src: bool, dst: bool): State {
    s.(esi := if src then Step(s.esi, s.flags, w) else s.esi, edi := if dst then Step(s.edi, s.flags, w) else s.edi)
  }

  function Source(op: Op, s: State): U32 { At(s.esi, op.srcBase) }
  function Dest(op: Op, s: State): U32 { At(s.edi, op.esBase) }

  datatype Turn = Fault(s: State) | Went(s: State)

  function Compare(s: State, a: U32, b: U32, w: Width): State { s.(flags := Sub(s.flags, a, b, w, false).flags) }

  /** One element. */
  function Element(op: Op, s: State): Turn {
    var w := op.width;
    match op.kind
    case Movs =>
      (match ReadW(s.mem, Source(op, s), w)
       case None => Fault(s)
       case Some(v) =>
         var st := WriteW(s.mem, Dest(op, s), v, w);
         if st.ok then Went(Advance(s.(mem := st.mem), w, true, true)) else Fault(s.(mem := st.mem)))
    case Cmps =>
      (match (ReadW(s.mem, Source(op, s), w), ReadW(s.mem, Dest(op, s), w))
       case (Some(a), Some(b)) => Went(Advance(Compare(s, a, b, w), w, true, true))
       case _ => Fault(s))
    case Stos =>
      var st := WriteW(s.mem, Dest(op, s), s.eax, w);
      if st.ok then Went(Advance(s.(mem := st.mem), w, false, true)) else Fault(s.(mem := st.mem))
    case Lods =>
      (match ReadW(s.mem, Source(op, s), w)
       case None => Fault(s)
       case Some(v) => Went(Advance(s.(eax := SetLow(s.eax, w, v)), w, true, false)))
    case Scas =>
      (match ReadW(s.mem, Dest(op, s), w)
       case None => Fault(s)
       case Some(b) => Went(Advance(Compare(s, Truncate(s.eax, w), b, w), w, false, true)))
  }

  /** Whether a comparison ends the loop before ECX does. */
  predicate Ends(op: Op, f: Flags) {
    (op.kind == Cmps || op.kind == Scas) && ((op.rep == Rep && !f.zf) || (op.rep == Repne && f.zf))
  }

  /** The end of the instruction; not ok where it faulted. ECX is written only at the
      end, so a fault leaves it as it was. */
  datatype Ended = Ended(ok: bool, s: State)

  function Loop(op: Op, s: State, i: nat, repeat: U32): Ended
    decreases repeat - i
  {
    if i >= repeat then Ended(true, if op.rep == NoRep then s else s.(ecx := 0))
    else match Element(op, s)
      case Fault(s1) => Ended(false, s1)
      case Went(s1) =>
        if Ends(op, s1.flags) then Ended(true, s1.(ecx := repeat - (i + 1))) else Loop(op, s1, i + 1, repeat)
  }

  /** `handleStringOp`. */
  function StringOp(op: Op, s: State): Ended { Loop(op, s, 0, if op.rep == NoRep then 1 else s.ecx) }

  method HandleStringOp(op: Op, s: State) returns (r: Ended)
    ensures r == StringOp(op, s)
  {
    hide Element, Ends;
    var repeat: U32 := if op.rep == NoRep then 1 else s.ecx;
    var iterations := 0;
    var now := s;
    while iterations < repeat
      invariant 0 <= iterations <= repeat && StringOp(op, s) == Loop(op, now, iterations, repeat)
    {
      var t := Element(op, now);
      if t.Fault? { return Ended(false, t.s); }
      iterations := iterations + 1;
      now := t.s;
      if Ends(op, now.flags) { return Ended(true, now.(ecx := repeat - iterations)); }
    }
    if op.rep != NoRep { now := now.(ecx := 0); }
    r := Ended(true, now);
  }

  lemma {:induction false} FaultKeepsCount(op: Op, s: State, i: nat, repeat: U32)
    ensures !Loop(op, s, i, repeat).ok ==> Loop(op, s, i, repeat).s.ecx == s.ecx
    decreases repeat - i
  {
    hide ReadW, WriteW, SetLow, Step, Source, Dest, Ends;
    if i < repeat && Element(op, s).Went? { FaultKeepsCount(op, Element(op, s).s, i + 1, repeat); }
  }

  /** How many elements a loop that faults leaves undone, the faulting one included. */
  function Undone(op: Op, s: State, i: nat, repeat: U32): nat
    decreases repeat - i
  {
    if i >= repeat then 0
    else match Element(op, s)
      case Fault(_) => repeat - i
      case Went(s1) => if Ends(op, s1.flags) then repeat - (i + 1) else Undone(op, s1, i + 1, repeat)
  }

  lemma {:induction false} UndoneLess(op: Op, s: State, i: nat, repeat: U32)
    requires i <= repeat
    ensures Undone(op, s, i, repeat) <= repeat - i
    decreases repeat - i
  {
    hide Element, Ends;
    if i < repeat && Element(op, s).Went? { UndoneLess(op, Element(op, s).s, i + 1, repeat); }
  }

  /** A fault loses the count: ECX is still what it was before the instruction. That
      is the number of elements still to do if and only if the very first element
      faulted. */
  lemma FaultCountIff(op: Op, s: State)
    requires op.rep != NoRep && !StringOp(op, s).ok
    ensures StringOp(op, s).s.ecx == s.ecx
    ensures StringOp(op, s).s.ecx == Undone(op, s, 0, s.ecx) <==> Element(op, s).Fault?
  {
    hide Element, Ends;
    FaultKeepsCount(op, s, 0, s.ecx);
    if s.ecx > 0 && Element(op, s).Went? { UndoneLess(op, Element(op, s).s, 1, s.ecx); }
  }

  /** REP STOSB with ECX 2 at address 0, where only that byte is mapped. */
  const TwoBytes := Op(Stos, W8, Rep, 0, 0)

  function OneByteMapped(): State {
    State(0, 2, 0, 0, Flags(false, false, false, false, false, false, false),
          Memory(map[0 := Cell(1, Perm(true, true, false))], []))
  }

  /** A concrete case: the first byte is stored, the second faults, and ECX still
      says 2 where 1 is left. */
  lemma FaultLosesCount()
    ensures var (s, r) := (OneByteMapped(), StringOp(TwoBytes, OneByteMapped()));
            && !r.ok && r.s.edi == 1 && r.s.ecx == 2 && Undone(TwoBytes, s, 0, 2) == 1
            && Read8(r.s.mem, 0) == Some(0)
  {
    hide Loop, Undone;
    var s := OneByteMapped();
    FirstStored(s);
    var s1 := Element(TwoBytes, s).s;
    SecondFaults(s1);
    assert Loop(TwoBytes, s1, 1, 2) == Ended(false, s1) && Undone(TwoBytes, s1, 1, 2) == 1 by { LoopOnce(s1, 1); }
    LoopOnce(s, 0);
  }

  lemma LoopOnce(s: State, i: nat)
    requires i < 2
    ensures match Element(TwoBytes, s)
            case Fault(s1) => Loop(TwoBytes, s, i, 2) == Ended(false, s1) && Undone(TwoBytes, s, i, 2) == 2 - i
            case Went(s1) =>
              && Loop(TwoBytes, s, i, 2) == Loop(TwoBytes, s1, i + 1, 2)
              && Undone(TwoBytes, s, i, 2) == Undone(TwoBytes, s1, i + 1, 2)
  {
    hide Element;
  }

  lemma FirstStored(s: State)
    requires s == OneByteMapped()
    ensures var t := Element(TwoBytes, s);
            && t.Went? && t.s == s.(edi := 1, mem := Poke(s.mem, 0, 0))
  {
    AtZero(0);
    var b := LowBytes(0, W8);
    assert b == [0];
    assert WriteBytesFrom(Poke(s.mem, 0, 0), 0, b, 1) == FlatMemory.Stored(true, Poke(s.mem, 0, 0));
  }

  lemma SecondFaults(s: State)
    requires s.edi == 1 && 1 !in s.mem.cells
    ensures Element(TwoBytes, s) == Fault(s)
  {
    AtZero(1);
  }

  // ---- addresses ------------------------------------------------------------------------

  /** How far x lies after y, going up and round. */
  function Gap(x: U32, y: U32): U32 { if x >= y then x - y else x - y + TWO32 }

  lemma GapAt(x: U32, a: U32)
    ensures At(a, Gap(x, a)) == x
  {
    WrapOnce(a + Gap(x, a));
  }

  lemma AtGap(a: U32, i: nat)
    requires i < TWO32
    ensures Gap(At(a, i), a) == i
  {
    WrapOnce(a + i);
  }

  lemma GapShift(x: U32, a: U32, k: nat)
    requires k < TWO32
    ensures Gap(x, At(a, k)) == if Gap(x, a) >= k then Gap(x, a) - k else Gap(x, a) - k + TWO32
  {
    WrapOnce(a + k);
  }

  lemma GapOther(j: nat, src: U32, dst: U32)
    requires j < TWO32
    ensures var g := Gap(dst, src);
            Gap(At(src, j), dst) == if j >= g then j - g else j - g + TWO32
  {
    WrapOnce(src + j);
  }

  function Val(m: Memory, x: U32): U8 { if x in m.cells then m.cells[x].value else 0 }

  /** m' is m with the bytes from number i on stored from a on, going up and round. */
  ghost predicate PutFrom(m: Memory, m': Memory, a: U32, bytes: Bytes, i: nat) {
    && SameMap(m, m')
    && forall x :: Val(m', x) == if i <= Gap(x, a) < |bytes| && x in m.cells then bytes[Gap(x, a)] else Val(m, x)
  }

  lemma {:induction false} WritePuts(m: Memory, a: U32, bytes: Bytes, i: nat)
    requires i <= |bytes| <= 4 && WriteBytesFrom(m, a, bytes, i).ok
    ensures PutFrom(m, WriteBytesFrom(m, a, bytes, i).mem, a, bytes, i)
    decreases |bytes| - i
  {
    hide Gap;
    if i < |bytes| {
      var m1 := Poke(m, At(a, i), bytes[i]);
      WritePuts(m1, a, bytes, i + 1);
      PutStep(m, m1, WriteBytesFrom(m1, a, bytes, i + 1).mem, a, bytes, i);
    }
  }

  lemma PutStep(m: Memory, m1: Memory, m2: Memory, a: U32, bytes: Bytes, i: nat)
    requires i < |bytes| <= 4 && At(a, i) in m.cells && m1 == Poke(m, At(a, i), bytes[i])
    requires PutFrom(m1, m2, a, bytes, i + 1)
    ensures PutFrom(m, m2, a, bytes, i)
  {
    hide Gap, At;
    AtGap(a, i);
    forall x ensures Val(m2, x) == if i <= Gap(x, a) < |bytes| && x in m.cells then bytes[Gap(x, a)] else Val(m, x) {
      GapAt(x, a);
    }
  }

  lemma BytesBack(b0: U8, b1: U8, b2: U8, b3: U8)
    ensures var v := FromBytes(b0, b1, b2, b3);
            ByteOf(v, 0) == b0 && ByteOf(v, 1) == b1 && ByteOf(v, 2) == b2 && ByteOf(v, 3) == b3
  {
    var v := FromBytes(b0, b1, b2, b3);
    assert v == b0 + 0x100 * (b1 + 0x100 * (b2 + 0x100 * b3));
    assert v / 0x100 == b1 + 0x100 * (b2 + 0x100 * b3);
    assert v / 0x1_0000 == b2 + 0x100 * b3;
    assert v / 0x100_0000 == b3;
  }

  /** What is read is the bytes that are there. */
  lemma ReadVal(m: Memory, a: U32, w: Width)
    requires ReadW(m, a, w).Some?
    ensures forall i :: 0 <= i < SizeOf(w) ==> LowBytes(ReadW(m, a, w).value, w)[i] == Val(m, At(a, i)) && At(a, i) in m.cells
  {
    hide FromBytes, ByteOf, At;
    assert At(a, 0) == a by { AtZero(a); }
    match w
    case W8 => BytesBack(Val(m, a), 0, 0, 0); OneByte(Val(m, a));
    case W16 => BytesBack(Val(m, a), Val(m, At(a, 1)), 0, 0);
    case W32 => BytesBack(Val(m, a), Val(m, At(a, 1)), Val(m, At(a, 2)), Val(m, At(a, 3)));
  }

  lemma OneByte(b: U8)
    ensures FromBytes(b, 0, 0, 0) == b
  {
  }

  // ---- REP MOVS -------------------------------------------------------------------------

  /** Where the k-th byte of the destination came from. */
  ghost predicate Copied(m0: Memory, m: Memory, src: U32, dst: U32, k: nat) {
    && SameMap(m0, m)
    && forall x :: Val(m, x) == if Gap(x, dst) < k && x in m0.cells then Val(m0, At(src, Gap(x, dst))) else Val(m0, x)
  }

  /** The destination does not start strictly inside the n bytes of the source. */
  predicate Clear(src: U32, dst: U32, n: nat) { Gap(dst, src) == 0 || Gap(dst, src) >= n }

  /** A source byte not yet copied still has its first value. */
  lemma SourceIntact(m0: Memory, m: Memory, src: U32, dst: U32, n: nat, k: nat, j: nat)
    requires Copied(m0, m, src, dst, k) && Clear(src, dst, n) && k <= j < n <= TWO32
    ensures Val(m, At(src, j)) == Val(m0, At(src, j))
  {
    hide Gap, At;
    GapOther(j, src, dst);
  }

  lemma CopyByte(m0: Memory, m: Memory, m': Memory, src: U32, dst: U32, n: nat, k: nat, bytes: Bytes, x: U32)
    requires Copied(m0, m, src, dst, k) && Clear(src, dst, n) && k + |bytes| <= n <= TWO32 && |bytes| > 0
    requires forall i :: 0 <= i < |bytes| ==> bytes[i] == Val(m, At(src, k + i))
    requires Val(m', x) == if Gap(x, At(dst, k)) < |bytes| && x in m.cells then bytes[Gap(x, At(dst, k))] else Val(m, x)
    ensures Val(m', x) == if Gap(x, dst) < k + |bytes| && x in m0.cells then Val(m0, At(src, Gap(x, dst))) else Val(m0, x)
  {
    hide Gap, At, Clear;
    GapShift(x, dst, k);
    var g := Gap(x, dst);
    if k <= g < k + |bytes| {
      assert bytes[g - k] == Val(m, At(src, k + (g - k)));
      SourceIntact(m0, m, src, dst, n, k, g);
    }
  }

  lemma CopyStep(m0: Memory, m: Memory, m': Memory, src: U32, dst: U32, n: nat, k: nat, bytes: Bytes)
    requires Copied(m0, m, src, dst, k) && Clear(src, dst, n) && k + |bytes| <= n <= TWO32 && |bytes| > 0
    requires forall i :: 0 <= i < |bytes| ==> bytes[i] == Val(m, At(src, k + i))
    requires PutFrom(m, m', At(dst, k), bytes, 0)
    ensures Copied(m0, m', src, dst, k + |bytes|)
  {
    hide Gap, At, Clear, Val;
    forall x ensures Val(m', x) == if Gap(x, dst) < k + |bytes| && x in m0.cells then Val(m0, At(src, Gap(x, dst))) else Val(m0, x) {
      CopyByte(m0, m, m', src, dst, n, k, bytes, x);
    }
  }

  /** The processor after i elements forward from s. */
  predicate Forward(op: Op, s: State, now: State, i: nat, src: bool) {
    && (src ==> now.esi == At(s.esi, Span(i, op.width))) && now.edi == At(s.edi, Span(i, op.width))
    && now.eax == s.eax && now.ecx == s.ecx && now.flags == s.flags && !s.flags.df
  }

  lemma NextAddress(r: U32, base: U32, i: nat, w: Width, f: Flags)
    requires !f.df
    ensures Step(At(r, Span(i, w)), f, w) == At(r, Span(i + 1, w))
    ensures At(At(r, Span(i, w)), base) == At(At(r, base), Span(i, w))
    ensures Span(i + 1, w) == Span(i, w) + SizeOf(w)
  {
    hide At;
    AtAt(r, Span(i, w), SizeOf(w));
    AtAt(r, Span(i, w), base);
    AtAt(r, base, Span(i, w));
  }

  lemma MovsElement(op: Op, s: State, now: State, i: nat, n: nat)
    requires op.kind == Movs && Forward(op, s, now, i, true) && Element(op, now).Went?
    requires Copied(s.mem, now.mem, Source(op, s), Dest(op, s), Span(i, op.width))
    requires Clear(Source(op, s), Dest(op, s), n) && Span(i + 1, op.width) <= n <= TWO32
    ensures var t := Element(op, now).s;
            && Forward(op, s, t, i + 1, true)
            && Copied(s.mem, t.mem, Source(op, s), Dest(op, s), Span(i + 1, op.width))
  {
    hide Copied, ReadW, LowBytes, Clear, At, Gap, Step, WriteBytesFrom, PutFrom;
    var (src, dst, k, w) := (Source(op, s), Dest(op, s), Span(i, op.width), op.width);
    NextAddress(s.esi, op.srcBase, i, w, s.flags);
    NextAddress(s.edi, op.esBase, i, w, s.flags);
    var v := ReadW(now.mem, At(src, k), w).value;
    ReadVal(now.mem, At(src, k), w);
    var bytes := LowBytes(v, w);
    forall j | 0 <= j < |bytes| ensures bytes[j] == Val(now.mem, At(src, k + j)) { AtAt(src, k, j); }
    WritePuts(now.mem, At(dst, k), bytes, 0);
    CopyStep(s.mem, now.mem, WriteBytes(now.mem, At(dst, k), bytes).mem, src, dst, n, k, bytes);
  }

  lemma {:induction false} MovsLoop(op: Op, s: State, now: State, i: nat, repeat: U32)
    requires op.kind == Movs && op.rep != NoRep && i <= repeat && Forward(op, s, now, i, true)
    requires Copied(s.mem, now.mem, Source(op, s), Dest(op, s), Span(i, op.width))
    requires Clear(Source(op, s), Dest(op, s), Span(repeat, op.width)) && Span(repeat, op.width) <= TWO32
    requires Loop(op, now, i, repeat).ok
    ensures var t := Loop(op, now, i, repeat).s;
            && t.ecx == 0 && Forward(op, s, t.(ecx := s.ecx), repeat, true)
            && Copied(s.mem, t.mem, Source(op, s), Dest(op, s), Span(repeat, op.width))
    decreases repeat - i
  {
    hide Copied, Clear, Element, Source, Dest;
    if i < repeat {
      SpanGrows(i + 1, repeat, op.width);
      MovsElement(op, s, now, i, Span(repeat, op.width));
      MovsLoop(op, s, Element(op, now).s, i + 1, repeat);
    }
  }

  lemma SpanGrows(i: nat, n: nat, w: Width)
    requires i <= n
    ensures Span(i, w) <= Span(n, w)
  {
  }

  lemma CopiedNothing(m: Memory, src: U32, dst: U32)
    ensures Copied(m, m, src, dst, 0)
  {
  }

  /** Forward REP MOVS is a block copy, at every width and wherever the two blocks
      wrap, when the destination does not start strictly inside the source:
      the destination holds what the source held, every other byte is
      unchanged, and the registers have moved past the blocks. */
  lemma BlockCopy(op: Op, s: State)
    requires op.kind == Movs && op.rep != NoRep && !s.flags.df && StringOp(op, s).ok
    requires Span(s.ecx, op.width) <= TWO32 && Clear(Source(op, s), Dest(op, s), Span(s.ecx, op.width))
    ensures var (t, n) := (StringOp(op, s).s, Span(s.ecx, op.width));
            && Copied(s.mem, t.mem, Source(op, s), Dest(op, s), n)
            && t == State(s.eax, 0, At(s.esi, n), At(s.edi, n), s.flags, t.mem)
  {
    hide Copied, Clear, Loop, Source, Dest;
    CopiedNothing(s.mem, Source(op, s), Dest(op, s));
    AtZero(s.esi);
    AtZero(s.edi);
    MovsLoop(op, s, s, 0, s.ecx);
  }

  // ---- overlapping REP MOVSB ------------------------------------------------------------

  /** i mod k. */
  function Residue(i: nat, k: nat): (r: nat)
    requires k > 0
    ensures r < k
    decreases i
  {
    if i < k then i else Residue(i - k, k)
  }

  lemma {:induction false} ResidueMeaning(i: nat, k: nat) returns (q: nat)
    requires k > 0
    ensures i == q * k + Residue(i, k)
    decreases i
  {
    if i < k {
      q := 0;
    } else {
      var p := ResidueMeaning(i - k, k);
      q := p + 1;
      assert q * k == p * k + k;
    }
  }

  lemma TimesAtLeast(d: int, k: nat)
    ensures d >= 1 ==> d * k >= k
    ensures d <= -1 ==> d * k <= 0 - k
  {
    assert d * k == (d - 1) * k + k == (d + 1) * k - k;
  }

  lemma ResidueIsMod(i: nat, k: nat)
    requires k > 0
    ensures Residue(i, k) == i % k
  {
    var q := ResidueMeaning(i, k);
    var (p, r) := (i / k, i % k);
    assert i == p * k + r;
    TimesAtLeast(p - q, k);
    assert (p - q) * k == p * k - q * k == Residue(i, k) - r;
    assert p - q == 0;
  }

  /** The first i bytes from dst on repeat the k bytes below it, over and over. */
  ghost predicate Filled(m0: Memory, m: Memory, src: U32, dst: U32, k: nat, i: nat)
    requires k > 0
  {
    && SameMap(m0, m)
    && forall x :: Val(m, x) == if Gap(x, dst) < i && x in m0.cells then Val(m0, At(src, Residue(Gap(x, dst), k))) else Val(m0, x)
  }

  lemma FilledAt(m0: Memory, m: Memory, src: U32, dst: U32, k: nat, i: nat, x: U32)
    requires k > 0 && Filled(m0, m, src, dst, k, i)
    ensures x in m0.cells <==> x in m.cells
    ensures Val(m, x) == if Gap(x, dst) < i && x in m0.cells then Val(m0, At(src, Residue(Gap(x, dst), k))) else Val(m0, x)
  {
  }

  lemma NextByte(m0: Memory, m: Memory, src: U32, dst: U32, k: nat, i: nat)
    requires k > 0 && Gap(dst, src) == k && i < TWO32 && At(src, i) in m0.cells
    requires var x := At(src, i);
             Val(m, x) == if Gap(x, dst) < i && x in m0.cells then Val(m0, At(src, Residue(Gap(x, dst), k))) else Val(m0, x)
    ensures Val(m, At(src, i)) == Val(m0, At(src, Residue(i, k)))
  {
    hide Gap, At, Val;
    GapOther(i, src, dst);
  }

  lemma FillByte(m0: Memory, m: Memory, m': Memory, src: U32, dst: U32, k: nat, i: nat, b: U8, x: U32)
    requires k > 0 && i < TWO32 && b == Val(m0, At(src, Residue(i, k))) && (x in m.cells <==> x in m0.cells)
    requires Val(m, x) == if Gap(x, dst) < i && x in m0.cells then Val(m0, At(src, Residue(Gap(x, dst), k))) else Val(m0, x)
    requires Val(m', x) == if Gap(x, At(dst, i)) < 1 && x in m.cells then b else Val(m, x)
    ensures Val(m', x)
         == if Gap(x, dst) < i + 1 && x in m0.cells then Val(m0, At(src, Residue(Gap(x, dst), k))) else Val(m0, x)
  {
    hide Gap, At, Residue, Val;
    GapShift(x, dst, i);
  }

  lemma FillStep(m0: Memory, m: Memory, m': Memory, src: U32, dst: U32, k: nat, i: nat, b: U8)
    requires k > 0 && Filled(m0, m, src, dst, k, i) && i < TWO32 && b == Val(m0, At(src, Residue(i, k)))
    requires PutFrom(m, m', At(dst, i), [b], 0)
    ensures Filled(m0, m', src, dst, k, i + 1)
  {
    hide Gap, At, Residue, Val;
    forall x ensures Val(m', x)
         == if Gap(x, dst) < i + 1 && x in m0.cells then Val(m0, At(src, Residue(Gap(x, dst), k))) else Val(m0, x)
    {
      FillByte(m0, m, m', src, dst, k, i, b, x);
    }
  }

  lemma MovsbElement(op: Op, s: State, now: State, i: nat, k: nat)
    requires op.kind == Movs && op.width == W8 && Forward(op, s, now, i, true) && Element(op, now).Went?
    requires k > 0 && Gap(Dest(op, s), Source(op, s)) == k && i < TWO32
    requires Filled(s.mem, now.mem, Source(op, s), Dest(op, s), k, i)
    ensures var t := Element(op, now).s;
            Forward(op, s, t, i + 1, true) && Filled(s.mem, t.mem, Source(op, s), Dest(op, s), k, i + 1)
  {
    hide Filled, ReadW, LowBytes, At, Gap, Step, WriteBytesFrom, PutFrom, Residue;
    var (src, dst) := (Source(op, s), Dest(op, s));
    NextAddress(s.esi, op.srcBase, i, W8, s.flags);
    NextAddress(s.edi, op.esBase, i, W8, s.flags);
    var v := ReadW(now.mem, At(src, i), W8).value;
    ReadVal(now.mem, At(src, i), W8);
    var bytes := LowBytes(v, W8);
    AtZero(At(src, i));
    assert bytes[0] == Val(now.mem, At(src, i)) && bytes == [bytes[0]];
    FilledAt(s.mem, now.mem, src, dst, k, i, At(src, i));
    NextByte(s.mem, now.mem, src, dst, k, i);
    WritePuts(now.mem, At(dst, i), bytes, 0);
    FillStep(s.mem, now.mem, WriteBytes(now.mem, At(dst, i), bytes).mem, src, dst, k, i, bytes[0]);
  }

  lemma {:induction false} MovsbLoop(op: Op, s: State, now: State, i: nat, repeat: U32, k: nat)
    requires op.kind == Movs && op.width == W8 && op.rep != NoRep && i <= repeat && Forward(op, s, now, i, true)
    requires k > 0 && Gap(Dest(op, s), Source(op, s)) == k
    requires Filled(s.mem, now.mem, Source(op, s), Dest(op, s), k, i) && Loop(op, now, i, repeat).ok
    ensures var t := Loop(op, now, i, repeat).s;
            t.ecx == 0 && Forward(op, s, t.(ecx := s.ecx), repeat, true) && Filled(s.mem, t.mem, Source(op, s), Dest(op, s), k, repeat)
    decreases repeat - i
  {
    hide Filled, Element, Source, Dest, Gap;
    if i < repeat {
      MovsbElement(op, s, now, i, k);
      MovsbLoop(op, s, Element(op, now).s, i + 1, repeat, k);
    }
  }

  lemma FilledNothing(m: Memory, src: U32, dst: U32, k: nat)
    requires k > 0
    ensures Filled(m, m, src, dst, k, 0)
  {
  }

  /** Forward REP MOVSB to a destination k > 0 bytes after the source: the k bytes in
      front of the destination repeat through it, byte i being the source's
      byte i mod k (for k >= ECX that is the block copy again). */
  lemma PeriodicFill(op: Op, s: State)
    requires op.kind == Movs && op.width == W8 && op.rep != NoRep && !s.flags.df && StringOp(op, s).ok
    requires Gap(Dest(op, s), Source(op, s)) > 0
    ensures var (t, k) := (StringOp(op, s).s, Gap(Dest(op, s), Source(op, s)));
            && SameMap(s.mem, t.mem)
            && (forall x :: Val(t.mem, x) == if Gap(x, Dest(op, s)) < s.ecx && x in s.mem.cells
                                             then Val(s.mem, At(Source(op, s), Gap(x, Dest(op, s)) % k)) else Val(s.mem, x))
            && t == State(s.eax, 0, At(s.esi, s.ecx), At(s.edi, s.ecx), s.flags, t.mem)
  {
    hide Loop, Source, Dest, Gap, At, Val;
    var k := Gap(Dest(op, s), Source(op, s));
    FilledNothing(s.mem, Source(op, s), Dest(op, s), k);
    AtZero(s.esi);
    AtZero(s.edi);
    MovsbLoop(op, s, s, 0, s.ecx, k);
    var t := StringOp(op, s).s;
    forall x ensures Val(t.mem, x) == if Gap(x, Dest(op, s)) < s.ecx && x in s.mem.cells
                                      then Val(s.mem, At(Source(op, s), Gap(x, Dest(op, s)) % k)) else Val(s.mem, x)
    {
      ResidueIsMod(Gap(x, Dest(op, s)), k);
    }
  }

  // ---- REP STOS -------------------------------------------------------------------------

  /** Byte number g of a run of elements that all have these bytes. */
  function Cyclic(bytes: Bytes, g: nat): U8
    requires |bytes| == 1 || |bytes| == 2 || |bytes| == 4
  {
    if |bytes| == 1 then bytes[0] else if |bytes| == 2 then bytes[g % 2] else bytes[g % 4]
  }

  ghost predicate FilledWith(m0: Memory, m: Memory, dst: U32, v: U32, w: Width, i: nat) {
    && SameMap(m0, m)
    && forall x :: Val(m, x) == if Gap(x, dst) < Span(i, w) && x in m0.cells then Cyclic(LowBytes(v, w), Gap(x, dst)) else Val(m0, x)
  }

  lemma CyclicAt(bytes: Bytes, w: Width, i: nat, g: nat)
    requires |bytes| == SizeOf(w) && Span(i, w) <= g < Span(i + 1, w)
    ensures g - Span(i, w) < |bytes| && Cyclic(bytes, g) == bytes[g - Span(i, w)]
  {
  }

  lemma StoreByte(m0: Memory, m: Memory, m': Memory, dst: U32, bytes: Bytes, w: Width, i: nat, x: U32)
    requires |bytes| == SizeOf(w) && Span(i, w) < TWO32 && (x in m.cells <==> x in m0.cells)
    requires Val(m, x) == if Gap(x, dst) < Span(i, w) && x in m0.cells then Cyclic(bytes, Gap(x, dst)) else Val(m0, x)
    requires var a := At(dst, Span(i, w));
             Val(m', x) == if Gap(x, a) < |bytes| && x in m.cells then bytes[Gap(x, a)] else Val(m, x)
    requires Span(i + 1, w) == Span(i, w) + |bytes| <= TWO32
    ensures Val(m', x) == if Gap(x, dst) < Span(i + 1, w) && x in m0.cells then Cyclic(bytes, Gap(x, dst)) else Val(m0, x)
  {
    hide Gap, At, Val, Cyclic, Span, SizeOf;
    GapShift(x, dst, Span(i, w));
    if Span(i, w) <= Gap(x, dst) < Span(i + 1, w) { CyclicAt(bytes, w, i, Gap(x, dst)); }
  }

  lemma StosElement(op: Op, s: State, now: State, i: nat)
    requires op.kind == Stos && Forward(op, s, now, i, false) && now.esi == s.esi && Element(op, now).Went?
    requires FilledWith(s.mem, now.mem, Dest(op, s), s.eax, op.width, i) && Span(i + 1, op.width) <= TWO32
    ensures var t := Element(op, now).s;
            && Forward(op, s, t, i + 1, false) && t.esi == s.esi
            && FilledWith(s.mem, t.mem, Dest(op, s), s.eax, op.width, i + 1)
  {
    hide LowBytes, At, Gap, Step, WriteBytesFrom, Val, Cyclic;
    var (dst, k, w) := (Dest(op, s), Span(i, op.width), op.width);
    NextAddress(s.edi, op.esBase, i, w, s.flags);
    WritePuts(now.mem, At(dst, k), LowBytes(s.eax, w), 0);
    var m' := WriteBytes(now.mem, At(dst, k), LowBytes(s.eax, w)).mem;
    forall x ensures Val(m', x) == if Gap(x, dst) < Span(i + 1, w) && x in s.mem.cells
                                   then Cyclic(LowBytes(s.eax, w), Gap(x, dst)) else Val(s.mem, x)
    {
      StoreByte(s.mem, now.mem, m', dst, LowBytes(s.eax, w), w, i, x);
    }
  }

  lemma {:induction false} StosLoop(op: Op, s: State, now: State, i: nat, repeat: U32)
    requires op.kind == Stos && op.rep != NoRep && i <= repeat && Forward(op, s, now, i, false) && now.esi == s.esi
    requires FilledWith(s.mem, now.mem, Dest(op, s), s.eax, op.width, i) && Span(repeat, op.width) <= TWO32
    requires Loop(op, now, i, repeat).ok
    ensures var t := Loop(op, now, i, repeat).s;
            && t.ecx == 0 && Forward(op, s, t.(ecx := s.ecx), repeat, false) && t.esi == s.esi
            && FilledWith(s.mem, t.mem, Dest(op, s), s.eax, op.width, repeat)
    decreases repeat - i
  {
    hide FilledWith, Element, Dest;
    if i < repeat {
      SpanGrows(i + 1, repeat, op.width);
      StosElement(op, s, now, i);
      StosLoop(op, s, Element(op, now).s, i + 1, repeat);
    }
  }

  lemma FilledWithNothing(m: Memory, dst: U32, v: U32, w: Width)
    ensures FilledWith(m, m, dst, v, w, 0)
  {
  }

  /** Forward REP STOS fills the block with the bytes of AL, AX or EAX in turn and
      changes nothing else. */
  lemma BlockFill(op: Op, s: State)
    requires op.kind == Stos && op.rep != NoRep && !s.flags.df && StringOp(op, s).ok && Span(s.ecx, op.width) <= TWO32
    ensures var t := StringOp(op, s).s;
            && FilledWith(s.mem, t.mem, Dest(op, s), s.eax, op.width, s.ecx)
            && t == State(s.eax, 0, s.esi, At(s.edi, Span(s.ecx, op.width)), s.flags, t.mem)
  {
    hide FilledWith, Loop, Dest;
    FilledWithNothing(s.mem, Dest(op, s), s.eax, op.width);
    AtZero(s.edi);
    StosLoop(op, s, s, 0, s.ecx);
  }

  // ---- REP CMPS and SCAS ----------------------------------------------------------------

  /** The two operands of comparison number i, for either direction. */
  function Left(op: Op, s: State, i: nat): Option<U32> {
    if op.kind == Scas then Some(Truncate(s.eax, op.width))
    else ReadW(s.mem, At(Source(op, s), Moved(s, op, i)), op.width)
  }

  function Right(op: Op, s: State, i: nat): Option<U32> { ReadW(s.mem, At(Dest(op, s), Moved(s, op, i)), op.width) }

  function Moved(s: State, op: Op, i: nat): int {
    if s.flags.df then 0 - Span(i, op.width) else Span(i, op.width)
  }

  /** Elements i of the two strings (of the accumulator and the string) are equal. */
  predicate EqualAt(op: Op, s: State, i: nat) { Left(op, s, i) == Right(op, s, i) }

  /** The processor after i comparisons from s, none of which ended the loop. */
  predicate Compared(op: Op, s: State, now: State, i: nat) {
    && now.edi == At(s.edi, Moved(s, op, i)) && now.esi == (if op.kind == Cmps then At(s.esi, Moved(s, op, i)) else s.esi)
    && now.eax == s.eax && now.ecx == s.ecx && now.mem == s.mem && now.flags.df == s.flags.df
  }

  lemma MovedNext(r: U32, base: U32, s: State, op: Op, i: nat, f: Flags)
    requires f.df == s.flags.df
    ensures Step(At(r, Moved(s, op, i)), f, op.width) == At(r, Moved(s, op, i + 1))
    ensures At(At(r, Moved(s, op, i)), base) == At(At(r, base), Moved(s, op, i))
  {
    hide At;
    AtAt(r, Moved(s, op, i), if f.df then 0 - SizeOf(op.width) else SizeOf(op.width));
    AtAt(r, Moved(s, op, i), base);
    AtAt(r, base, Moved(s, op, i));
  }

  predicate Compares(op: Op) { op.kind == Cmps || op.kind == Scas }

  lemma ReadNarrow(m: Memory, a: U32, w: Width)
    requires ReadW(m, a, w).Some?
    ensures Truncate(ReadW(m, a, w).value, w) == ReadW(m, a, w).value
  {
    hide Read8, Read32, At;
    var v := ReadW(m, a, w).value;
    match w
    case W8 => assert v < 0x100;
    case W16 => assert v < 0x1_0000;
    case W32 =>
  }

  lemma TruncateTwice(v: U32, w: Width)
    ensures Truncate(Truncate(v, w), w) == Truncate(v, w)
  {
  }

  /** ZF after a comparison says whether the operands are equal. */
  lemma ZeroMeansEqual(f: Flags, a: U32, b: U32, w: Width)
    requires Truncate(a, w) == a && Truncate(b, w) == b
    ensures Sub(f, a, b, w, false).flags.zf <==> a == b
    ensures Sub(f, a, b, w, false).flags.df == f.df
  {
    SubExact(f, a, b, w, false);
  }

  lemma CompareElement(op: Op, s: State, now: State, i: nat)
    requires Compares(op) && Compared(op, s, now, i) && Element(op, now).Went?
    ensures var t := Element(op, now).s;
            && Compared(op, s, t, i + 1) && (t.flags.zf <==> EqualAt(op, s, i))
            && Left(op, s, i).Some? && Right(op, s, i).Some?
            && t.flags == Sub(now.flags, Left(op, s, i).value, Right(op, s, i).value, op.width, false).flags
  {
    hide ReadW, Sub, Step, Moved, At, Truncate;
    MovedNext(s.edi, op.esBase, s, op, i, now.flags);
    MovedNext(s.esi, op.srcBase, s, op, i, now.flags);
    var (l, r) := (Left(op, s, i), Right(op, s, i));
    assert l.Some? && r.Some?;
    ReadNarrow(s.mem, At(Dest(op, s), Moved(s, op, i)), op.width);
    if op.kind == Cmps { ReadNarrow(s.mem, At(Source(op, s), Moved(s, op, i)), op.width); }
    else { TruncateTwice(s.eax, op.width); }
    ZeroMeansEqual(now.flags, l.value, r.value, op.width);
    var f := Sub(now.flags, l.value, r.value, op.width, false).flags;
    MovedNext(s.edi, op.esBase, s, op, i, f);
    MovedNext(s.esi, op.srcBase, s, op, i, f);
  }

  /** The comparison that ends the loop: inequality under REP, equality under REPNE. */
  predicate EndsAt(op: Op, s: State, i: nat) { EqualAt(op, s, i) <==> op.rep == Repne }

  /** The loop of n comparisons stopped just after number j, the first to end it. */
  ghost predicate StopsAfter(op: Op, s: State, from: nat, n: nat, j: nat, t: State) {
    && from <= j < n && EndsAt(op, s, j) && (forall i :: from <= i < j ==> !EndsAt(op, s, i))
    && t.ecx == n - (j + 1) && Compared(op, s, t.(ecx := s.ecx), j + 1) && (t.flags.zf <==> EqualAt(op, s, j))
  }

  /** The result of a loop of n comparisons: where it stopped and in what state. */
  ghost predicate Searched(op: Op, s: State, from: nat, n: nat, t: State) {
    if exists j :: from <= j < n && EndsAt(op, s, j) then exists j :: StopsAfter(op, s, from, n, j, t)
    else t.ecx == 0 && Compared(op, s, t.(ecx := s.ecx), n)
  }

  lemma {:induction false} CompareLoop(op: Op, s: State, now: State, i: nat, repeat: U32)
    requires Compares(op) && op.rep != NoRep && i <= repeat && Compared(op, s, now, i) && Loop(op, now, i, repeat).ok
    ensures Searched(op, s, i, repeat, Loop(op, now, i, repeat).s)
    decreases repeat - i
  {
    hide Compared, Element, EqualAt, Searched;
    if i < repeat {
      CompareElement(op, s, now, i);
      var t := Element(op, now).s;
      if Ends(op, t.flags) {
        SearchedHere(op, s, i, repeat, t);
      } else {
        CompareLoop(op, s, t, i + 1, repeat);
        SearchedLater(op, s, i, repeat, Loop(op, t, i + 1, repeat).s);
      }
    } else {
      SearchedNone(op, s, now, i, repeat);
    }
  }

  lemma SearchedHere(op: Op, s: State, i: nat, n: U32, t: State)
    requires i < n && EndsAt(op, s, i) && Compared(op, s, t, i + 1) && (t.flags.zf <==> EqualAt(op, s, i))
    ensures Searched(op, s, i, n, t.(ecx := n - (i + 1)))
  {
    hide EndsAt, Compared;
    var t1 := t.(ecx := n - (i + 1));
    assert Compared(op, s, t1.(ecx := s.ecx), i + 1) by { SameCompared(op, s, t, i + 1); }
    assert StopsAfter(op, s, i, n, i, t1);
  }

  lemma SameCompared(op: Op, s: State, t: State, i: nat)
    requires Compared(op, s, t, i)
    ensures t.ecx == s.ecx
  {
  }

  lemma SearchedLater(op: Op, s: State, i: nat, n: nat, t: State)
    requires i < n && !EndsAt(op, s, i) && Searched(op, s, i + 1, n, t)
    ensures Searched(op, s, i, n, t)
  {
    hide EndsAt, Compared, EqualAt;
    if exists j :: i + 1 <= j < n && EndsAt(op, s, j) {
      var k :| StopsAfter(op, s, i + 1, n, k, t);
      assert forall x :: i <= x < k ==> !EndsAt(op, s, x);
      assert StopsAfter(op, s, i, n, k, t);
    }
  }

  lemma SearchedNone(op: Op, s: State, now: State, i: nat, n: U32)
    requires i == n && Compared(op, s, now, i)
    ensures Searched(op, s, i, n, now.(ecx := 0))
  {
    SameCompared(op, s, now, i);
  }

  /** REP and REPNE CMPS and SCAS, in either direction: the loop stops just after the
      first element that ends it, with ECX counting the elements left and ZF
      telling how that element compared; if there is none it goes through all
      of them and ECX is 0. Memory is not touched. */
  lemma FirstMatch(op: Op, s: State)
    requires Compares(op) && op.rep != NoRep && StringOp(op, s).ok
    ensures Searched(op, s, 0, s.ecx, StringOp(op, s).s) && StringOp(op, s).s.mem == s.mem
  {
    hide EndsAt, Element, EqualAt;
    AtZero(s.edi);
    AtZero(s.esi);
    CompareLoop(op, s, s, 0, s.ecx);
  }

  // ---- LODS, and instructions without a prefix --------------------------------------------

  /** The part of EAX above the low w bits. */
  function Above(r: U32, w: Width): nat { match w case W8 => r / 0x100 case W16 => r / 0x1_0000 case W32 => 0 }

  lemma SetLowReads(r: U32, w: Width, v: U32)
    ensures Truncate(SetLow(r, w, v), w) == Truncate(v, w) && Above(SetLow(r, w, v), w) == Above(r, w)
  {
    match w
    case W8 => JoinedParts(r / 0x100, v % 0x100);
    case W16 => JoinedParts(r / 0x1_0000, v % 0x1_0000);
    case W32 => WrapOnce(v);
  }

  lemma JoinedParts(q: nat, l: nat)
    ensures l < 0x100 ==> (0x100 * q + l) % 0x100 == l && (0x100 * q + l) / 0x100 == q
    ensures l < 0x1_0000 ==> (0x1_0000 * q + l) % 0x1_0000 == l && (0x1_0000 * q + l) / 0x1_0000 == q
  {
  }

  /** The processor after i loads from s, the last of them in the accumulator. */
  predicate LoadedUpTo(op: Op, s: State, now: State, i: nat) {
    && now == s.(eax := now.eax, esi := At(s.esi, Moved(s, op, i)))
    && Above(now.eax, op.width) == Above(s.eax, op.width)
    && (i > 0 ==>
          ReadW(s.mem, At(Source(op, s), Moved(s, op, i - 1)), op.width) == Some(Truncate(now.eax, op.width)))
  }

  lemma LodsElement(op: Op, s: State, now: State, i: nat)
    requires op.kind == Lods && LoadedUpTo(op, s, now, i) && Element(op, now).Went?
    ensures LoadedUpTo(op, s, Element(op, now).s, i + 1)
  {
    hide ReadW, Step, Moved, At, Truncate, SetLow, Above;
    MovedNext(s.esi, op.srcBase, s, op, i, now.flags);
    var v := ReadW(s.mem, At(Source(op, s), Moved(s, op, i)), op.width);
    ReadNarrow(s.mem, At(Source(op, s), Moved(s, op, i)), op.width);
    SetLowReads(now.eax, op.width, v.value);
  }

  lemma {:induction false} LodsLoop(op: Op, s: State, now: State, i: nat, repeat: U32)
    requires op.kind == Lods && op.rep != NoRep && i <= repeat && LoadedUpTo(op, s, now, i)
    requires Loop(op, now, i, repeat).ok
    ensures LoadedUpTo(op, s.(ecx := 0), Loop(op, now, i, repeat).s, repeat)
    decreases repeat - i
  {
    hide Element;
    if i < repeat {
      LodsElement(op, s, now, i);
      LodsLoop(op, s, Element(op, now).s, i + 1, repeat);
    }
  }

  /** REP LODS in either direction: the last element is in the low part of EAX, the rest
      of EAX, memory, EDI and the flags are as before, ESI has moved past all
      elements and ECX is 0. */
  lemma RepLods(op: Op, s: State)
    requires op.kind == Lods && op.rep != NoRep && StringOp(op, s).ok
    ensures LoadedUpTo(op, s.(ecx := 0), StringOp(op, s).s, s.ecx)
  {
    hide Element, Loop;
    AtZero(s.esi);
    LodsLoop(op, s, s, 0, s.ecx);
  }

  lemma ElementAnyCount(op: Op, s: State, rep: Rep, c: U32)
    ensures var (t, u) := (Element(op.(rep := rep), s.(ecx := c)), Element(op, s));
            (t.Went? <==> u.Went?) && t.s == u.s.(ecx := c) && u.s.ecx == s.ecx
  {
    hide ReadW, WriteW, SetLow, Step, Truncate, Sub;
  }

  /** Without a prefix the instruction does what it does under REP for one element, but
      leaves ECX alone. */
  lemma Unprefixed(op: Op, s: State)
    requires op.rep == NoRep
    ensures var r := StringOp(op.(rep := Rep), s.(ecx := 1));
            StringOp(op, s) == Ended(r.ok, r.s.(ecx := s.ecx))
  {
    hide Element;
    ElementAnyCount(op, s, Rep, 1);
    var u := Element(op, s);
    if u.Went? {
      assert Loop(op, u.s, 1, 1) == Ended(true, u.s);
      assert Loop(op.(rep := Rep), u.s.(ecx := 1), 1, 1) == Ended(true, u.s.(ecx := 0));
    }
  }
}
