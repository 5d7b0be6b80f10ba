/** The instructions the block compiler takes, told without their implementation:
    how each is written in memory (Intel's encoding) and what it does, in plain
    arithmetic and bit by bit. Whenever the assembled bytes lie at eip, `CPU.step`
    does that, and `compile` accepts them, so that the closure does it too. */
module Instructions {
  import opened Words
  import opened Buffers
  import opened FlatMemory
  import opened Regions
  import opened Alu
  import opened Interpreter
  import opened Translation

  datatype Insn =
    | INop
    | IMov(r: nat, v: U32)
    | IPush(r: nat)
    | IPop(r: nat)
    | IInc(r: nat)
    | IDec(r: nat)
    | IXor(rm: nat, reg: nat)
    | IArith(kind: nat, rm: nat, d: int)
    | IJump(d: int)
    | IShortJump(d: int)
    | IRet
    | ISyscall

  /** Registers and operations are numbered up to 7; a displacement fits its field. */
  predicate Encodable(i: Insn) {
    match i
    case IMov(r, _) => r < 8
    case IPush(r) => r < 8
    case IPop(r) => r < 8
    case IInc(r) => r < 8
    case IDec(r) => r < 8
    case IXor(rm, reg) => rm < 8 && reg < 8
    case IArith(kind, rm, d) => kind < 8 && rm < 8 && -0x80 <= d < 0x80
    case IJump(d) => -0x8000_0000 <= d < 0x8000_0000
    case IShortJump(d) => -0x80 <= d < 0x80
    case _ => true
  }

  /** Two's complement. */
  function Byte(d: int): U8
    requires -0x80 <= d < 0x80
  {
    if d < 0 then d + 0x100 else d
  }

  function Word(d: int): U32
    requires -0x8000_0000 <= d < 0x8000_0000
  {
    if d < 0 then d + TWO32 else d
  }

  function Assemble(i: Insn): Bytes
    requires Encodable(i)
  {
    match i
    case INop => [0x90]
    case IMov(r, v) => [0xb8 + r] + WordBytes(v)
    case IPush(r) => [0x50 + r]
    case IPop(r) => [0x58 + r]
    case IInc(r) => [0x40 + r]
    case IDec(r) => [0x48 + r]
    case IXor(rm, reg) => [0x31, 0xc0 + 8 * reg + rm]
    case IArith(kind, rm, d) => [0x83, 0xc0 + 8 * kind + rm, Byte(d)]
    case IJump(d) => [0xe9] + WordBytes(Word(d))
    case IShortJump(d) => [0xeb, Byte(d)]
    case IRet => [0xc3]
    case ISyscall => [0xcd, 0x80]
  }

  /** The bytes can be fetched from an address on. */
  ghost predicate CodeAt(m: Memory, a: U32, code: Bytes) {
    forall i :: 0 <= i < |code| ==> Read8Exec(m, At(a, i)) == Some(code[i])
  }

  // ---- what they do ---------------------------------------------------------------------

  /** The machine goes on after n bytes of code, one step later. */
  function Onward(m: Machine, n: int): Machine { m.(eip := At(m.eip, n), steps := m.steps + 1) }

  /** ZF, SF and DF, and PF by the bits of the low byte. */
  ghost predicate ResultFlagsAre(g: Flags, f: Flags, v: U32) {
    && (g.zf <==> v == 0) && (g.sf <==> v >= 0x8000_0000) && g.df == f.df
    && (g.pf <==> (((BitAt(v, 0) != BitAt(v, 1)) != (BitAt(v, 2) != BitAt(v, 3)))
                   == ((BitAt(v, 4) != BitAt(v, 5)) != (BitAt(v, 6) != BitAt(v, 7)))))
  }

  predicate InRange(s: int) { -0x8000_0000 <= s < 0x8000_0000 }

  /** The number modulo 2^32. */
  predicate Congruent(v: U32, n: int) { v == n || v == n - TWO32 || v == n + TWO32 }

  /** The eight operations on a register and a signed byte d, c being CF. */
  ghost predicate ArithIs(kind: nat, f: Flags, a: U32, d: int, v: U32, g: Flags)
    requires -0x80 <= d < 0x80
  {
    var (c, b) := (Bit(f.cf), Word(d));
    && ResultFlagsAre(g, f, v)
    && (kind == 0 || kind == 2 ==> (g.af <==> a % 0x10 + (if kind == 2 then b + c else b) % 0x10 >= 0x10))
    && (kind == 3 || kind == 5 || kind == 7 ==> (g.af <==> a % 0x10 < (if kind == 3 then b + c else b) % 0x10))
    && (kind == 0 ==> Congruent(v, a + d) && (g.cf <==> a + b >= TWO32) && (g.of <==> !InRange(Signed32(a) + d)))
    && (kind == 2 ==> Congruent(v, a + d + c) && (g.cf <==> a + b + c >= TWO32)
                      && (g.of <==> !InRange(Signed32(a) + d + c)))
    && (kind == 3 ==> Congruent(v, a - d - c) && (g.cf <==> a < b + c) && (g.of <==> !InRange(Signed32(a) - d - c)))
    && (kind == 5 || kind == 7 ==> Congruent(v, a - d) && (g.cf <==> a < b) && (g.of <==> !InRange(Signed32(a) - d)))
    && (kind == 1 ==> forall k :: 0 <= k < 32 ==> (BitAt(v, k) <==> BitAt(a, k) || BitAt(b, k)))
    && (kind == 4 ==> forall k :: 0 <= k < 32 ==> (BitAt(v, k) <==> BitAt(a, k) && BitAt(b, k)))
    && (kind == 6 ==> forall k :: 0 <= k < 32 ==> (BitAt(v, k) <==> BitAt(a, k) != BitAt(b, k)))
    && (kind == 1 || kind == 4 || kind == 6 ==> !g.cf && !g.of && !g.af)
  }

  ghost predicate Pushes(m: Machine, v: U32, out: Outcome) {
    var a := At(m.regs[ESP], -4);
    && (out.Next? <==> forall k :: 0 <= k < 4 ==> Writable(m.mem, At(a, k)))
    && out.m == Onward(m, 1).(regs := m.regs[ESP := a], mem := out.m.mem)
    && (out.Next? ==> forall k :: 0 <= k < 4 ==> ByteThere(out.m.mem, At(a, k), ByteOf(v, k)))
    && (forall x: U32 :: (forall k :: 0 <= k < 4 ==> At(a, k) != x) ==> SameCell(m.mem, out.m.mem, x))
  }

  ghost predicate ByteThere(m: Memory, a: U32, v: U8) { a in m.cells && m.cells[a].value == v }

  /** What an instruction makes of the machine. */
  ghost predicate Does(w: World, i: Insn, m: Machine, out: Outcome)
    requires Encodable(i)
  {
    match i
    case INop => out == Next(Onward(m, 1))
    case IMov(r, v) => out == Next(Onward(m, 5).(regs := m.regs[r := v]))
    case IPush(r) => Pushes(m, m.regs[r], out)
    case IPop(r) =>
      (match Read32(m.mem, m.regs[ESP])
       case None => out == Stop(Onward(m, 1))
       case Some(v) => out == Next(Onward(m, 1).(regs := m.regs[ESP := At(m.regs[ESP], 4)][r := v])))
    case IInc(r) =>
      var a := m.regs[r];
      var v: U32 := if a == 0xffff_ffff then 0 else a + 1;
      Counts(m, r, v, a == 0x7fff_ffff, a % 0x10 == 0xf, out)
    case IDec(r) =>
      var a := m.regs[r];
      var v: U32 := if a == 0 then 0xffff_ffff else a - 1;
      Counts(m, r, v, a == 0x8000_0000, a % 0x10 == 0, out)
    case IXor(rm, reg) => Xors(m, rm, reg, out)
    case IArith(kind, rm, d) => Calculates(m, kind, rm, d, out)
    case IJump(d) => out == Next(Onward(m, 5 + d))
    case IShortJump(d) => out == Next(Onward(m, 2 + d))
    case IRet =>
      (match Read32(m.mem, m.regs[ESP])
       case None => out == Stop(Onward(m, 1))
       case Some(v) => out == Next(Onward(m, 1).(regs := m.regs[ESP := At(m.regs[ESP], 4)], eip := v)))
    case ISyscall => out == Commit(Onward(m, 2), w.handle(Onward(m, 2)))
  }

  /** INC and DEC: CF stays. */
  ghost predicate Counts(m: Machine, r: nat, v: U32, overflow: bool, aux: bool, out: Outcome)
    requires r < 8
  {
    && out == Next(Onward(m, 1).(regs := m.regs[r := v], flags := out.m.flags))
    && ResultFlagsAre(out.m.flags, m.flags, v) && out.m.flags.cf == m.flags.cf
    && out.m.flags.of == overflow && out.m.flags.af == aux
  }

  ghost predicate Xors(m: Machine, rm: nat, reg: nat, out: Outcome)
    requires rm < 8 && reg < 8
  {
    var v := out.m.regs[rm];
    && out == Next(Onward(m, 2).(regs := m.regs[rm := v], flags := out.m.flags))
    && (forall k :: 0 <= k < 32 ==> (BitAt(v, k) <==> BitAt(m.regs[rm], k) != BitAt(m.regs[reg], k)))
    && ResultFlagsAre(out.m.flags, m.flags, v) && !out.m.flags.cf && !out.m.flags.of && !out.m.flags.af
  }

  /** The operations on a register and a signed byte; 7 (CMP) only sets the flags. */
  ghost predicate Calculates(m: Machine, kind: nat, rm: nat, d: int, out: Outcome)
    requires kind < 8 && rm < 8 && -0x80 <= d < 0x80
  {
    exists v: U32 ::
      && ArithIs(kind, m.flags, m.regs[rm], d, v, out.m.flags)
      && out == Next(Onward(m, 3).(regs := if kind == 7 then m.regs else m.regs[rm := v], flags := out.m.flags))
  }

  // ---- the arithmetic -------------------------------------------------------------------

  lemma WordIs(d: int)
    requires InRange(d)
    ensures Truncate(d, W32) == Word(d) == Wrap(d) && Signed(d, W32) == d
  {
    WrapOnce(d);
    assert d < 0 ==> d % TWO32 == d + TWO32;
  }

  lemma RegisterIs(a: U32)
    ensures Truncate(a, W32) == a && Signed(a, W32) == Signed32(a)
  {
  }

  lemma ResultFlagsHold(f: Flags, v: U32)
    ensures var g := SetZS(f, W32, v); ResultFlagsAre(g, f, v)
  {
    ParityBits(v);
  }

  lemma AddResult(f: Flags, a: U32, d: int, carry: bool)
    requires -0x80 <= d < 0x80
    ensures var r := Add(f, a, d, W32, carry);
            && ResultFlagsAre(r.flags, f, r.value) && Congruent(r.value, a + d + Bit(carry))
            && (r.flags.cf <==> a + Word(d) + Bit(carry) >= TWO32)
            && (r.flags.of <==> !InRange(Signed32(a) + d + Bit(carry)))
            && (r.flags.af <==> a % 0x10 + (Word(d) + Bit(carry)) % 0x10 >= 0x10)
  {
    hide ResultFlagsAre, Signed, Signed32, Parity8, AuxBit, Xor3;
    WordIs(d);
    RegisterIs(a);
    AddExact(f, a, d, W32, carry);
    AddFlags(f, a, d, W32, carry);
    AddAux(f, a, d, W32, carry);
    ResultFlagsHold(f, Add(f, a, d, W32, carry).value);
    OnlyZSP(f, Add(f, a, d, W32, carry));
  }

  /** The flags that `_setZS` sets are not touched afterwards. */
  lemma OnlyZSP(f: Flags, r: Result)
    requires exists cf, of, af :: r.flags == SetZS(f, W32, r.value).(cf := cf, of := of, af := af)
    ensures ResultFlagsAre(r.flags, f, r.value)
  {
    ResultFlagsHold(f, r.value);
  }

  lemma SubResult(f: Flags, a: U32, d: int, borrow: bool)
    requires -0x80 <= d < 0x80
    ensures var r := Sub(f, a, d, W32, borrow);
            && ResultFlagsAre(r.flags, f, r.value) && Congruent(r.value, a - d - Bit(borrow))
            && (r.flags.cf <==> a < Word(d) + Bit(borrow))
            && (r.flags.of <==> !InRange(Signed32(a) - d - Bit(borrow)))
            && (r.flags.af <==> a % 0x10 < (Word(d) + Bit(borrow)) % 0x10)
  {
    hide ResultFlagsAre, Signed, Signed32, Parity8, AuxBit, Xor3;
    WordIs(d);
    RegisterIs(a);
    SubExact(f, a, d, W32, borrow);
    if borrow { SbbOverflowIff(f, a, d, W32); } else { SubFlags(f, a, d, W32); }
    SubAux(f, a, d, W32, borrow);
    OnlyZSP(f, Sub(f, a, d, W32, borrow));
  }

  lemma LogicResult(kind: nat, f: Flags, a: U32, b: int)
    requires (kind == 1 || kind == 4 || kind == 6) && InRange(b)
    ensures var r := Operate(kind, f, a, b, W32);
            && ResultFlagsAre(r.flags, f, r.value) && !r.flags.cf && !r.flags.of && !r.flags.af
            && (kind == 1 ==> forall k :: 0 <= k < 32 ==> (BitAt(r.value, k) <==> BitAt(a, k) || BitAt(Word(b), k)))
            && (kind == 4 ==> forall k :: 0 <= k < 32 ==> (BitAt(r.value, k) <==> BitAt(a, k) && BitAt(Word(b), k)))
            && (kind == 6 ==> forall k :: 0 <= k < 32 ==> (BitAt(r.value, k) <==> BitAt(a, k) != BitAt(Word(b), k)))
  {
    hide ResultFlagsAre, BitAt, Bitwise, Parity8;
    WordIs(b);
    SameLogic(kind, f, a, b);
    var r := Operate(kind, f, a, b, W32);
    forall k | 0 <= k < 32
      ensures kind == 1 ==> (BitAt(r.value, k) <==> BitAt(a, k) || BitAt(Word(b), k))
      ensures kind == 4 ==> (BitAt(r.value, k) <==> BitAt(a, k) && BitAt(Word(b), k))
      ensures kind == 6 ==> (BitAt(r.value, k) <==> BitAt(a, k) != BitAt(Word(b), k))
    {
      LogicBits(kind, f, a, Word(b), W32, k);
    }
    OnlyZSP(f, r);
  }

  lemma SameLogic(kind: nat, f: Flags, a: U32, b: int)
    requires (kind == 1 || kind == 4 || kind == 6) && InRange(b)
    ensures Operate(kind, f, a, b, W32) == Operate(kind, f, a, Word(b), W32)
  {
    hide Bitwise, Logic;
    WordIs(b);
    assert Wrap(Word(b)) == Word(b);
  }

  lemma ArithHolds(kind: nat, f: Flags, a: U32, d: int)
    requires kind < 8 && -0x80 <= d < 0x80
    ensures var r := Operate(kind, f, a, d, W32); ArithIs(kind, f, a, d, r.value, r.flags)
  {
    hide Add, Sub, Logic, Bitwise, BitAt, ResultFlagsAre, Congruent, Signed32;
    if kind == 0 || kind == 2 { AddResult(f, a, d, kind == 2 && f.cf); }
    else if kind == 3 || kind == 5 || kind == 7 { SubResult(f, a, d, kind == 3 && f.cf); }
    else { LogicResult(kind, f, a, d); }
  }

  // ---- one instruction ------------------------------------------------------------------

  lemma CodeByte(m: Memory, a: U32, code: Bytes, i: nat)
    requires CodeAt(m, a, code) && i < |code|
    ensures Read8Exec(m, At(a, i)) == Some(code[i]) && (i == 0 ==> Read8Exec(m, a) == Some(code[0]))
  {
    AtZero(a);
  }

  /** An immediate word after one byte of code. */
  lemma CodeWord(m: Memory, a: U32, first: U8, v: U32)
    requires CodeAt(m, a, [first] + WordBytes(v))
    ensures Fetch32(m, At(a, 1)) == Some(v)
  {
    hide ByteOf, FromBytes, Read8Exec, At;
    var code := [first] + WordBytes(v);
    CodeByte(m, a, code, 1);
    CodeByte(m, a, code, 2);
    CodeByte(m, a, code, 3);
    CodeByte(m, a, code, 4);
    AtAt(a, 1, 1);
    AtAt(a, 1, 2);
    AtAt(a, 1, 3);
    BytesRoundTrip(v);
  }

  lemma ModRm(reg: nat, rm: nat)
    requires reg < 8 && rm < 8
    ensures var b := 0xc0 + 8 * reg + rm; b / 0x40 == 3 && b / 8 % 8 == reg && b % 8 == rm
  {
  }

  lemma SignedByte(d: int)
    requires -0x80 <= d < 0x80
    ensures Signed8(Byte(d)) == d
  {
  }

  lemma MoveDoes(w: World, i: Insn, m: Machine)
    requires Encodable(i) && (i.INop? || i.IMov? || i.ISyscall?) && CodeAt(m.mem, m.eip, Assemble(i))
    ensures Does(w, i, m, Step(w, m))
  {
    hide WordBytes, Fetch32;
    CodeByte(m.mem, m.eip, Assemble(i), 0);
    StepDispatch(w, m);
    if i.IMov? {
      CodeWord(m.mem, m.eip, 0xb8 + i.r, i.v);
      AtAt(m.eip, 1, 4);
    } else if i.ISyscall? {
      CodeByte(m.mem, m.eip, Assemble(i), 1);
      AtAt(m.eip, 1, 1);
    }
  }

  lemma JumpDoes(w: World, i: Insn, m: Machine)
    requires Encodable(i) && (i.IJump? || i.IShortJump?) && CodeAt(m.mem, m.eip, Assemble(i))
    ensures Does(w, i, m, Step(w, m))
  {
    hide WordBytes, Fetch32, Wrap;
    CodeByte(m.mem, m.eip, Assemble(i), 0);
    StepDispatch(w, m);
    if i.IJump? {
      CodeWord(m.mem, m.eip, 0xe9, Word(i.d));
      AtAt(m.eip, 1, 4);
      AtAt(m.eip, 5, i.d);
      assert Signed32(Word(i.d)) == i.d;
    } else {
      CodeByte(m.mem, m.eip, Assemble(i), 1);
      SignedByte(i.d);
      AtAt(m.eip, 1, 1);
      AtAt(m.eip, 2, i.d);
    }
  }

  lemma PopDoes(w: World, i: Insn, m: Machine)
    requires Encodable(i) && (i.IPop? || i.IRet?) && CodeAt(m.mem, m.eip, Assemble(i))
    ensures Does(w, i, m, Step(w, m))
  {
    hide Read32, At;
    CodeByte(m.mem, m.eip, Assemble(i), 0);
    StepDispatch(w, m);
  }

  lemma {:induction false} WordWritable(m: Memory, a: U32, v: U32, k: nat)
    requires k <= 4
    ensures WriteFrom(m, a, v, k).ok <==> forall j :: k <= j < 4 ==> Writable(m, At(a, j))
    decreases 4 - k
  {
    hide ByteOf, At;
    if k < 4 && Writable(m, At(a, k)) {
      var m1 := Poke(m, At(a, k), ByteOf(v, k));
      WordWritable(m1, a, v, k + 1);
      assert forall j :: k <= j < 4 ==> (Writable(m1, At(a, j)) <==> Writable(m, At(a, j)));
    }
  }

  lemma PushDoes(w: World, r: nat, m: Machine)
    requires r < 8 && CodeAt(m.mem, m.eip, Assemble(IPush(r)))
    ensures Does(w, IPush(r), m, Step(w, m))
  {
    hide WriteFrom, ByteOf, SameCell;
    CodeByte(m.mem, m.eip, Assemble(IPush(r)), 0);
    StepDispatch(w, m);
    var (a, v) := (At(m.regs[ESP], -4), m.regs[r]);
    WordWritable(m.mem, a, v, 0);
    PushedBytes(m.mem, a, v);
  }

  lemma PushedBytes(m: Memory, a: U32, v: U32)
    ensures var st := Write32(m, a, v);
            st.ok ==> (forall k :: 0 <= k < 4 ==> ByteThere(st.mem, At(a, k), ByteOf(v, k)))
    ensures forall x: U32 :: (forall k :: 0 <= k < 4 ==> At(a, k) != x) ==> SameCell(m, Write32(m, a, v).mem, x)
  {
    hide WriteFrom, ByteOf, SameCell, At;
    if Write32(m, a, v).ok { WriteFromReads(m, a, v, 0); }
    forall x: U32 | forall k :: 0 <= k < 4 ==> At(a, k) != x ensures SameCell(m, Write32(m, a, v).mem, x) {
      WriteFromFrame(m, a, v, 0, x);
    }
  }

  lemma CountDoes(w: World, i: Insn, m: Machine)
    requires Encodable(i) && (i.IInc? || i.IDec?) && CodeAt(m.mem, m.eip, Assemble(i))
    ensures Does(w, i, m, Step(w, m))
  {
    hide Add, Sub, ResultFlagsAre, At;
    CodeByte(m.mem, m.eip, Assemble(i), 0);
    StepDispatch(w, m);
    if i.IInc? { AddResult(m.flags, m.regs[i.r], 1, false); } else { SubResult(m.flags, m.regs[i.r], 1, false); }
    var (f, a) := (m.flags, m.regs[i.r]);
    KeepCf(f, if i.IInc? then Add(f, a, 1, W32, false) else Sub(f, a, 1, W32, false));
  }

  lemma KeepCf(f: Flags, r: Result)
    requires ResultFlagsAre(r.flags, f, r.value)
    ensures ResultFlagsAre(r.flags.(cf := f.cf), f, r.value)
  {
  }

  lemma XorDoes(w: World, rm: nat, reg: nat, m: Machine)
    requires rm < 8 && reg < 8 && CodeAt(m.mem, m.eip, Assemble(IXor(rm, reg)))
    ensures Does(w, IXor(rm, reg), m, Step(w, m))
  {
    hide Operate, ResultFlagsAre, BitAt, At;
    CodeByte(m.mem, m.eip, Assemble(IXor(rm, reg)), 0);
    CodeByte(m.mem, m.eip, Assemble(IXor(rm, reg)), 1);
    StepDispatch(w, m);
    ModRm(reg, rm);
    AtAt(m.eip, 1, 1);
    XorResult(m.flags, m.regs[rm], m.regs[reg]);
  }

  lemma XorResult(f: Flags, a: U32, b: U32)
    ensures var r := Operate(6, f, a, b, W32);
            && (forall k :: 0 <= k < 32 ==> (BitAt(r.value, k) <==> BitAt(a, k) != BitAt(b, k)))
            && ResultFlagsAre(r.flags, f, r.value) && !r.flags.cf && !r.flags.of && !r.flags.af
  {
    hide ResultFlagsAre, BitAt, Bitwise, Parity8;
    var r := Operate(6, f, a, b, W32);
    forall k | 0 <= k < 32 ensures BitAt(r.value, k) <==> BitAt(a, k) != BitAt(b, k) { LogicBits(6, f, a, b, W32, k); }
    LogicBits(6, f, a, b, W32, 0);
    OnlyZSP(f, r);
  }

  lemma ArithDoes(w: World, kind: nat, rm: nat, d: int, m: Machine)
    requires kind < 8 && rm < 8 && -0x80 <= d < 0x80 && CodeAt(m.mem, m.eip, Assemble(IArith(kind, rm, d)))
    ensures Does(w, IArith(kind, rm, d), m, Step(w, m))
  {
    hide Operate, ArithIs, At, Signed8, Byte;
    var code := Assemble(IArith(kind, rm, d));
    CodeByte(m.mem, m.eip, code, 0);
    CodeByte(m.mem, m.eip, code, 1);
    CodeByte(m.mem, m.eip, code, 2);
    StepDispatch(w, m);
    ModRm(kind, rm);
    SignedByte(d);
    AtAt(m.eip, 1, 1);
    AtAt(m.eip, 1, 2);
    ArithHolds(kind, m.flags, m.regs[rm], d);
    assert ArithIs(kind, m.flags, m.regs[rm], d, Operate(kind, m.flags, m.regs[rm], d, W32).value, Step(w, m).m.flags);
  }

  /** The interpreter executes assembled instructions: where the bytes of one lie at
      eip, a step does what the instruction does. */
  lemma StepDoes(w: World, i: Insn, m: Machine)
    requires Encodable(i) && CodeAt(m.mem, m.eip, Assemble(i))
    ensures Does(w, i, m, Step(w, m))
  {
    hide Does, Step, CodeAt;
    match i
    case IPush(r) => PushDoes(w, r, m);
    case IPop(r) => PopDoes(w, i, m);
    case IRet => PopDoes(w, i, m);
    case IInc(r) => CountDoes(w, i, m);
    case IDec(r) => CountDoes(w, i, m);
    case IXor(rm, reg) => XorDoes(w, rm, reg, m);
    case IArith(kind, rm, d) => ArithDoes(w, kind, rm, d, m);
    case IJump(d) => JumpDoes(w, i, m);
    case IShortJump(d) => JumpDoes(w, i, m);
    case _ => MoveDoes(w, i, m);
  }

  /** The block compiler takes each of them, and ends the block at a jump, a return and
      a system call. */
  lemma Compiles(i: Insn, m: Memory, pc: U32)
    requires Encodable(i) && CodeAt(m, pc, Assemble(i))
    ensures var d := Decode(m, pc);
            && d.Some? && d.value.size == |Assemble(i)|
            && (d.value.terminal <==> i.IJump? || i.IShortJump? || i.IRet? || i.ISyscall?)
  {
    hide WordBytes, Fetch32, At, Signed8, Byte;
    var code := Assemble(i);
    CodeByte(m, pc, code, 0);
    match i
    case IMov(r, v) => CodeWord(m, pc, 0xb8 + r, v);
    case IJump(d) => CodeWord(m, pc, 0xe9, Word(d));
    case IXor(rm, reg) => CodeByte(m, pc, code, 1); ModRm(reg, rm);
    case IArith(kind, rm, d) => CodeByte(m, pc, code, 1); CodeByte(m, pc, code, 2); ModRm(kind, rm);
    case IShortJump(d) => CodeByte(m, pc, code, 1);
    case ISyscall => CodeByte(m, pc, code, 1);
    case _ =>
  }

  /** So a closure does what the instruction it was compiled from does: run at eip, it
      leaves the machine that `Does` describes, eip moved on by `block.run`, or an
      exception where the instruction has one. */
  lemma ClosureDoes(w: World, i: Insn, m: Machine)
    requires Encodable(i) && CodeAt(m.mem, m.eip, Assemble(i))
    ensures Decode(m.mem, m.eip).Some?
    ensures var d := Decode(m.mem, m.eip).value;
            match RunOp(w, d.op, m)
            case Next(t) => Does(w, i, m, Next(if d.terminal then t else t.(eip := At(m.eip, |Assemble(i)|))))
            case Stop(t) => Does(w, i, m, Step(w, m)) && Step(w, m).Stop? && SameStop(t, Step(w, m).m, m.eip)
  {
    hide Does, Step, CodeAt, RunOp, Assemble, Decode;
    Compiles(i, m.mem, m.eip);
    StepDoes(w, i, m);
    DecodeMatches(w, Decode(m.mem, m.eip).value, m, m.eip);
  }

  // ---- and no others ----------------------------------------------------------------------

  lemma BytesSigned(b: U8, v: U32)
    ensures -0x80 <= Signed8(b) < 0x80 && Byte(Signed8(b)) == b
    ensures -0x8000_0000 <= Signed32(v) < 0x8000_0000 && Word(Signed32(v)) == v
  {
  }

  lemma Quotients(b0: U8, b1: U8, b2: U8, b3: U8)
    ensures var v := FromBytes(b0, b1, b2, b3);
            && v % 0x100 == b0 && v / 0x100 == b1 + 0x100 * b2 + 0x1_0000 * b3
            && v / 0x1_0000 == b2 + 0x100 * b3 && v / 0x100_0000 == b3
  {
    var v := FromBytes(b0, b1, b2, b3);
    assert v == b0 + 0x100 * (b1 + 0x100 * b2 + 0x1_0000 * b3);
    assert v == (b0 + 0x100 * b1) + 0x1_0000 * (b2 + 0x100 * b3);
    assert v == (b0 + 0x100 * b1 + 0x1_0000 * b2) + 0x100_0000 * b3;
  }

  lemma LowByte(b: U8, h: nat)
    ensures (b + 0x100 * h) % 0x100 == b
  {
  }

  lemma BytesOfWord(b0: U8, b1: U8, b2: U8, b3: U8)
    ensures WordBytes(FromBytes(b0, b1, b2, b3)) == [b0, b1, b2, b3]
  {
    hide FromBytes;
    Quotients(b0, b1, b2, b3);
    LowByte(b1, b2 + 0x100 * b3);
    LowByte(b2, b3);
  }

  lemma WordFetched(m: Memory, a: U32, first: U8)
    requires Read8Exec(m, a) == Some(first) && Fetch32(m, At(a, 1)).Some?
    ensures CodeAt(m, a, [first] + WordBytes(Fetch32(m, At(a, 1)).value))
  {
    hide Read8Exec, At, WordBytes, FromBytes;
    AtZero(a);
    AtAt(a, 1, 1);
    AtAt(a, 1, 2);
    AtAt(a, 1, 3);
    match (Read8Exec(m, At(a, 1)), Read8Exec(m, At(a, 2)), Read8Exec(m, At(a, 3)), Read8Exec(m, At(a, 4)))
    case (Some(b0), Some(b1), Some(b2), Some(b3)) => BytesOfWord(b0, b1, b2, b3);
  }

  /** What one byte, or two and a register operand, assemble to. */
  lemma ShortAssembled(m: Memory, pc: U32) returns (i: Insn)
    requires Decode(m, pc).Some? && Read8Exec(m, pc).Some?
    requires Read8Exec(m, pc).value !in {0xe9, 0xeb, 0x31, 0x83} && !Decode(m, pc).value.op.OpMovImm?
    ensures Encodable(i) && CodeAt(m, pc, Assemble(i))
  {
    hide Read8Exec, At, Fetch32;
    AtZero(pc);
    match Decode(m, pc).value.op {
      case OpPush(reg) => i := IPush(reg);
      case OpPop(reg) => i := IPop(reg);
      case OpInc(reg) => i := IInc(reg);
      case OpDec(reg) => i := IDec(reg);
      case OpSyscall(_) => i := ISyscall;
      case OpRet => i := IRet;
      case _ => i := INop;
    }
  }

  lemma RegistersOf(b: U8)
    requires b / 0x40 == 3
    ensures 0xc0 + 8 * (b / 8 % 8) + b % 8 == b
  {
  }

  lemma RegisterAssembled(m: Memory, pc: U32) returns (i: Insn)
    requires Decode(m, pc).Some? && Read8Exec(m, pc).Some? && Read8Exec(m, pc).value in {0x31, 0x83}
    ensures Encodable(i) && CodeAt(m, pc, Assemble(i))
  {
    hide Read8Exec, At, Fetch32, Signed8, Byte;
    AtZero(pc);
    var b := Read8Exec(m, At(pc, 1)).value;
    RegistersOf(b);
    if Read8Exec(m, pc) == Some(0x31) {
      i := IXor(b % 8, b / 8 % 8);
    } else {
      var d := Read8Exec(m, At(pc, 2)).value;
      BytesSigned(d, 0);
      i := IArith(b / 8 % 8, b % 8, Signed8(d));
    }
  }

  lemma LongAssembled(m: Memory, pc: U32) returns (i: Insn)
    requires Decode(m, pc).Some? && Read8Exec(m, pc).Some?
    requires (Read8Exec(m, pc).value in {0xe9, 0xeb} || Decode(m, pc).value.op.OpMovImm?)
    ensures Encodable(i) && CodeAt(m, pc, Assemble(i))
  {
    hide Read8Exec, At, Fetch32, Signed8, Signed32, Byte, Word, WordBytes;
    AtZero(pc);
    var op := Read8Exec(m, pc).value;
    if op == 0xeb {
      var d := Read8Exec(m, At(pc, 1)).value;
      BytesSigned(d, 0);
      i := IShortJump(Signed8(d));
    } else {
      var v := Fetch32(m, At(pc, 1)).value;
      BytesSigned(0, v);
      WordFetched(m, pc, op);
      i := if op == 0xe9 then IJump(Signed32(v)) else IMov(op - 0xb8, v);
    }
  }

  /** The compiler takes the bytes at an address if and only if they are one of these
      instructions. */
  lemma CompilesIff(m: Memory, pc: U32)
    ensures Decode(m, pc).Some? <==> exists i :: Encodable(i) && CodeAt(m, pc, Assemble(i))
  {
    hide Decode, CodeAt, Assemble, Encodable;
    if Decode(m, pc).Some? {
      var i := Assembled(m, pc);
    }
    if i :| Encodable(i) && CodeAt(m, pc, Assemble(i)) {
      Compiles(i, m, pc);
    }
  }

  lemma Assembled(m: Memory, pc: U32) returns (i: Insn)
    requires Decode(m, pc).Some?
    ensures Encodable(i) && CodeAt(m, pc, Assemble(i))
  {
    hide CodeAt, Assemble, Encodable, Fetch32;
    assert Read8Exec(m, pc).Some?;
    if Read8Exec(m, pc).value in {0x31, 0x83} {
      i := RegisterAssembled(m, pc);
    } else if Read8Exec(m, pc).value in {0xe9, 0xeb} || Decode(m, pc).value.op.OpMovImm? {
      i := LongAssembled(m, pc);
    } else {
      i := ShortAssembled(m, pc);
    }
  }
}
