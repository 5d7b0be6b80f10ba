/** Block translation: what `BlockCacheJIT.compile` decodes, what the compiled
    closures do, and the proof that running a block means the same as stepping
    the interpreter through its instructions. */
module Translation {
  import opened Words
  import opened FlatMemory
  import opened Alu
  import opened Interpreter

  /** One compiled closure, with the operands it captured. */
  datatype Op =
    | OpNop
    | OpMovImm(reg: nat, imm: U32)
    | OpPush(reg: nat)
    | OpPop(reg: nat)
    | OpInc(reg: nat)
    | OpDec(reg: nat)
    | OpXor(rm: nat, reg: nat)
    | OpGroup1(group: nat, rm: nat, simm: int)
    | OpSyscall(after: U32)
    | OpJump(target: U32)
    | OpRet

  predicate ValidOp(op: Op) {
    match op
    case OpMovImm(reg, _) => reg < 8
    case OpPush(reg) => reg < 8
    case OpPop(reg) => reg < 8
    case OpInc(reg) => reg < 8
    case OpDec(reg) => reg < 8
    case OpXor(rm, reg) => rm < 8 && reg < 8
    case OpGroup1(group, rm, _) => group < 8 && rm < 8
    case _ => true
  }

  type Closure = op: Op | ValidOp(op) witness OpNop

  datatype Decoded = Decoded(op: Closure, size: nat, terminal: bool)

  /** One turn of the loop in `compile`: the closure for the instruction at pc,
      or None when the whole block is given up. */
  function Decode(mem: Memory, pc: U32): Option<Decoded> {
    match Read8Exec(mem, pc)
    case None => None
    case Some(op) =>
      if op == 0x90 then Some(Decoded(OpNop, 1, false))
      else if 0xb8 <= op <= 0xbf then DecodeMov(mem, pc, op - 0xb8)
      else if 0x50 <= op <= 0x57 then Some(Decoded(OpPush(op - 0x50), 1, false))
      else if 0x58 <= op <= 0x5f then Some(Decoded(OpPop(op - 0x58), 1, false))
      else if 0x40 <= op <= 0x47 then Some(Decoded(OpInc(op - 0x40), 1, false))
      else if 0x48 <= op <= 0x4f then Some(Decoded(OpDec(op - 0x48), 1, false))
      else if op == 0x31 then DecodeXor(mem, pc)
      else if op == 0x83 then DecodeGroup1(mem, pc)
      else if op == 0xcd then DecodeInt(mem, pc)
      else if op == 0xe9 then DecodeJmp32(mem, pc)
      else if op == 0xeb then DecodeJmp8(mem, pc)
      else if op == 0xc3 then Some(Decoded(OpRet, 1, true))
      else None
  }

  function DecodeMov(mem: Memory, pc: U32, reg: nat): Option<Decoded>
    requires reg < 8
  {
    match Fetch32(mem, At(pc, 1))
    case None => None
    case Some(imm) => Some(Decoded(OpMovImm(reg, imm), 5, false))
  }

  function DecodeXor(mem: Memory, pc: U32): Option<Decoded> {
    match Read8Exec(mem, At(pc, 1))
    case None => None
    case Some(m) => if m / 0x40 != 3 then None else Some(Decoded(OpXor(m % 8, m / 8 % 8), 2, false))
  }

  function DecodeGroup1(mem: Memory, pc: U32): Option<Decoded> {
    match Read8Exec(mem, At(pc, 1))
    case None => None
    case Some(m) =>
      if m / 0x40 != 3 then None
      else match Read8Exec(mem, At(pc, 2))
        case None => None
        case Some(imm) => Some(Decoded(OpGroup1(m / 8 % 8, m % 8, Signed8(imm)), 3, false))
  }

  function DecodeInt(mem: Memory, pc: U32): Option<Decoded> {
    if Read8Exec(mem, At(pc, 1)) == Some(0x80) then Some(Decoded(OpSyscall(At(pc, 2)), 2, true)) else None
  }

  function DecodeJmp32(mem: Memory, pc: U32): Option<Decoded> {
    match Fetch32(mem, At(pc, 1))
    case None => None
    case Some(rel) => Some(Decoded(OpJump(At(At(pc, 5), Signed32(rel))), 5, true))
  }

  function DecodeJmp8(mem: Memory, pc: U32): Option<Decoded> {
    match Read8Exec(mem, At(pc, 1))
    case None => None
    case Some(rel) => Some(Decoded(OpJump(At(At(pc, 2), Signed8(rel))), 2, true))
  }

  // ---- running closures -----------------------------------------------------------------

  function Tick(m: Machine): Machine { m.(steps := m.steps + 1) }

  /** The body of a closure. None of the straight-line ones touches eip. */
  function RunOp(w: World, op: Closure, m: Machine): Outcome {
    match op
    case OpNop => Next(Tick(m))
    case OpMovImm(reg, imm) => Next(Tick(SetReg(m, reg, imm)))
    case OpPush(reg) => var p := Push32(m, m.regs[reg]); if p.ok then Next(Tick(p.m)) else Stop(p.m)
    case OpPop(reg) =>
      (match Pop32(m)
       case None => Stop(m)
       case Some(p) => Next(Tick(SetReg(p.m, reg, p.value))))
    case OpInc(reg) =>
      var x := Add(m.flags, m.regs[reg], 1, W32, false);
      Next(Tick(SetReg(m, reg, x.value).(flags := x.flags.(cf := m.flags.cf))))
    case OpDec(reg) =>
      var x := Sub(m.flags, m.regs[reg], 1, W32, false);
      Next(Tick(SetReg(m, reg, x.value).(flags := x.flags.(cf := m.flags.cf))))
    case OpXor(rm, reg) =>
      var x := Logic(m.flags, Bitwise(Xor, m.regs[rm], m.regs[reg], 32), W32);
      Next(Tick(SetReg(m, rm, x.value).(flags := x.flags)))
    case OpGroup1(group, rm, imm) =>
      var x := Operate(group, m.flags, m.regs[rm], imm, W32);
      Next(Tick((if group != 7 then SetReg(m, rm, x.value) else m).(flags := x.flags)))
    case OpSyscall(after) => var m1 := Tick(m.(eip := after)); Commit(m1, w.handle(m1))
    case OpJump(target) => Next(Tick(m.(eip := target)))
    case OpRet =>
      (match Pop32(m)
       case None => Stop(m)
       case Some(p) => Next(Tick(p.m.(eip := p.value))))
  }

  /** A mid-block exception and the interpreter's exception at the same
      instruction leave the same registers, flags and memory. A system call's
      leaves everything the same; a faulting push, pop or return has not
      counted its step and has not moved eip off the block's start. */
  ghost predicate SameStop(t: Machine, u: Machine, start: U32) {
    t == u || (t.eip == start && t == u.(eip := start, steps := t.steps) && u.steps == t.steps + 1)
  }

  /** What one closure, run with eip parked at `start`, has to do with the
      interpreter's step at the instruction it was compiled from. */
  ghost predicate OpMatches(w: World, d: Decoded, m: Machine, start: U32) {
    match (RunOp(w, d.op, m.(eip := start)), Step(w, m))
    case (Next(t), Next(u)) => u == (if d.terminal then t else t.(eip := At(m.eip, d.size))) && (!d.terminal ==> t.eip == start)
    case (Stop(t), Stop(u)) => SameStop(t, u, start)
    case _ => false
  }

  lemma PushEip(m: Machine, v: U32, e: U32, n: nat)
    ensures Push32(m.(eip := e, steps := n), v) == Pushed(Push32(m, v).ok, Push32(m, v).m.(eip := e, steps := n))
  {
  }

  /** The interpreter's view of a decoded instruction: its dispatch entry and
      the operand bytes it is going to fetch. */
  ghost predicate Dispatches(mem: Memory, pc: U32, d: Decoded) {
    && Read8Exec(mem, pc).Some?
    && d.terminal == (d.op.OpSyscall? || d.op.OpJump? || d.op.OpRet?)
    && var form := Classify(Read8Exec(mem, pc).value);
    match d.op
    case OpNop => form == Nop && d.size == 1
    case OpMovImm(reg, imm) => form == MovImm(reg) && Fetch32(mem, At(pc, 1)) == Some(imm) && d.size == 5
    case OpPush(reg) => form == PushReg(reg) && d.size == 1
    case OpPop(reg) => form == PopReg(reg) && d.size == 1
    case OpInc(reg) => form == IncDecReg(reg, false) && d.size == 1
    case OpDec(reg) => form == IncDecReg(reg, true) && d.size == 1
    case OpXor(rm, reg) => form == XorRm && d.size == 2 && RegOperand(mem, At(pc, 1), reg, rm)
    case OpGroup1(group, rm, imm) =>
      && form == Group1Imm8 && d.size == 3 && RegOperand(mem, At(pc, 1), group, rm)
      && Read8Exec(mem, At(pc, 2)).Some? && imm == Signed8(Read8Exec(mem, At(pc, 2)).value)
    case OpSyscall(after) => form == Int && Read8Exec(mem, At(pc, 1)) == Some(0x80) && after == At(pc, 2)
    case OpJump(target) => JumpsTo(mem, pc, form, target)
    case OpRet => form == Ret
  }

  ghost predicate RegOperand(mem: Memory, a: U32, reg: nat, rm: nat) {
    && Read8Exec(mem, a).Some?
    && var b := Read8Exec(mem, a).value; b / 0x40 == 3 && b / 8 % 8 == reg && b % 8 == rm
  }

  ghost predicate JumpsTo(mem: Memory, pc: U32, form: Form, target: U32) {
    || (form == Jmp8 && Read8Exec(mem, At(pc, 1)).Some?
        && target == At(At(pc, 2), Signed8(Read8Exec(mem, At(pc, 1)).value)))
    || (form == Jmp32 && Fetch32(mem, At(pc, 1)).Some?
        && target == At(At(pc, 5), Signed32(Fetch32(mem, At(pc, 1)).value)))
  }

  lemma DecodeDispatches(mem: Memory, pc: U32, d: Decoded)
    requires Decode(mem, pc) == Some(d)
    ensures Dispatches(mem, pc, d)
  {
  }

  lemma StepDispatch(w: World, m: Machine)
    requires Read8Exec(m.mem, m.eip).Some?
    ensures Step(w, m) == Execute(w, Classify(Read8Exec(m.mem, m.eip).value), m, Tick(m.(eip := At(m.eip, 1))))
  {
  }

  lemma PushMatches(w: World, d: Decoded, m: Machine, start: U32)
    requires d.op.OpPush? && Dispatches(m.mem, m.eip, d)
    ensures OpMatches(w, d, m, start)
  {
    StepDispatch(w, m);
    PushEip(m, m.regs[d.op.reg], start, m.steps);
    PushEip(m, m.regs[d.op.reg], At(m.eip, 1), m.steps + 1);
  }

  lemma IncDecMatches(w: World, d: Decoded, m: Machine, start: U32)
    requires (d.op.OpInc? || d.op.OpDec?) && Dispatches(m.mem, m.eip, d)
    ensures OpMatches(w, d, m, start)
  {
    StepDispatch(w, m);
  }

  lemma XorMatches(w: World, d: Decoded, m: Machine, start: U32)
    requires d.op.OpXor? && Dispatches(m.mem, m.eip, d)
    ensures OpMatches(w, d, m, start)
  {
    var m1 := Tick(m.(eip := At(m.eip, 1)));
    StepDispatch(w, m);
    AtAt(m.eip, 1, 1);
    assert Step(w, m) == Next(Group1(m1, 6, d.op.rm, m.regs[d.op.reg]).(eip := At(m.eip, 2)));
    XorIsRow6(m.flags, m.regs[d.op.rm], m.regs[d.op.reg]);
  }

  /** The closure calls `_logic` itself, the interpreter goes through `alu`. */
  lemma XorIsRow6(f: Flags, a: U32, b: U32)
    ensures Operate(6, f, a, b, W32) == Logic(f, Bitwise(Xor, a, b, 32), W32)
  {
    assert Wrap(a) == a && Wrap(b) == b;
  }

  lemma Group1Matches(w: World, d: Decoded, m: Machine, start: U32)
    requires d.op.OpGroup1? && Dispatches(m.mem, m.eip, d)
    ensures OpMatches(w, d, m, start)
  {
    var m1 := Tick(m.(eip := At(m.eip, 1)));
    StepDispatch(w, m);
    AtAt(m.eip, 1, 1);
    AtAt(m.eip, 1, 2);
    assert Step(w, m) == Next(Group1(m1, d.op.group, d.op.rm, d.op.simm).(eip := At(m.eip, 3)));
  }

  lemma TerminalMatches(w: World, d: Decoded, m: Machine, start: U32)
    requires d.terminal && Dispatches(m.mem, m.eip, d)
    ensures OpMatches(w, d, m, start)
  {
    StepDispatch(w, m);
    AtAt(m.eip, 1, 1);
    AtAt(m.eip, 1, 4);
  }

  lemma MoveMatches(w: World, d: Decoded, m: Machine, start: U32)
    requires d.op.OpNop? || d.op.OpMovImm? || d.op.OpPop?
    requires Dispatches(m.mem, m.eip, d)
    ensures OpMatches(w, d, m, start)
  {
    StepDispatch(w, m);
    AtAt(m.eip, 1, 4);
  }

  /** Instruction by instruction, the translation is right: whenever `compile`
      accepts the bytes at eip, the closure and the interpreter's step agree,
      also about exceptions. */
  lemma DecodeMatches(w: World, d: Decoded, m: Machine, start: U32)
    requires Decode(m.mem, m.eip) == Some(d)
    ensures OpMatches(w, d, m, start)
  {
    DecodeDispatches(m.mem, m.eip, d);
    if d.terminal { TerminalMatches(w, d, m, start); }
    else if d.op.OpPush? { PushMatches(w, d, m, start); }
    else if d.op.OpNop? || d.op.OpMovImm? || d.op.OpPop? { MoveMatches(w, d, m, start); }
    else if d.op.OpXor? { XorMatches(w, d, m, start); }
    else if d.op.OpGroup1? { Group1Matches(w, d, m, start); }
    else { IncDecMatches(w, d, m, start); }
  }

  // ---- blocks ------------------------------------------------------------------------

  datatype Config = Config(hotThreshold: nat, maxBlockBytes: nat, maxBlockInsns: nat)

  datatype Code = Code(ops: seq<Closure>, len: nat, terminal: bool)

  /** `len` is the number of code bytes; `end` is where they stop, wrapped. */
  datatype Block = Block(start: U32, end: U32, len: nat, ops: seq<Closure>, terminal: bool)

  /** The loop of `compile` from its i-th turn on, `len` bytes into the block. */
  function CompileFrom(cfg: Config, mem: Memory, start: U32, len: nat, i: nat): Option<Code>
    decreases cfg.maxBlockInsns - i
  {
    if i >= cfg.maxBlockInsns || Wrap(len) >= cfg.maxBlockBytes then Some(Code([], len, false))
    else match Decode(mem, At(start, len))
      case None => None
      case Some(d) =>
        if d.terminal then Some(Code([d.op], len + d.size, true))
        else match CompileFrom(cfg, mem, start, len + d.size, i + 1)
          case None => None
          case Some(c) => Some(Code([d.op] + c.ops, c.len, c.terminal))
  }

  function Compile(cfg: Config, mem: Memory, start: U32): Option<Block> {
    match CompileFrom(cfg, mem, start, 0, 0)
    case None => None
    case Some(c) => if c.ops == [] then None else Some(Block(start, At(start, c.len), c.len, c.ops, c.terminal))
  }

  function RunOps(w: World, ops: seq<Closure>, m: Machine): Outcome
    decreases |ops|
  {
    if ops == [] then Next(m)
    else match RunOp(w, ops[0], m)
      case Stop(t) => Stop(t)
      case Next(t) => RunOps(w, ops[1..], t)
  }

  /** `block.run`. */
  function RunBlock(w: World, b: Block, m: Machine): Outcome {
    match RunOps(w, b.ops, m)
    case Stop(t) => Stop(t)
    case Next(t) => Next(if b.terminal then t else t.(eip := b.end))
  }

  /** The memories agree on the block's bytes from offset lo up to hi. */
  ghost predicate AgreeBetween(m: Memory, m': Memory, start: U32, lo: nat, hi: nat) {
    forall i :: lo <= i < hi ==> SameCell(m, m', At(start, i))
  }

  /** Decoding looks only at the instruction's own bytes. */
  lemma DecodeLocal(m: Memory, m': Memory, start: U32, lo: nat)
    requires Decode(m, At(start, lo)).Some?
    requires AgreeBetween(m, m', start, lo, lo + Decode(m, At(start, lo)).value.size)
    ensures Decode(m', At(start, lo)) == Decode(m, At(start, lo))
  {
    var d := Decode(m, At(start, lo)).value;
    AtAt(start, lo, 1);
    AtAt(start, lo, 2);
    AtAt(start, lo + 1, 1);
    AtAt(start, lo + 1, 2);
    AtAt(start, lo + 1, 3);
    assert SameCell(m, m', At(start, lo));
    if d.size >= 2 { assert SameCell(m, m', At(start, lo + 1)); }
    if d.size >= 3 { assert SameCell(m, m', At(start, lo + 2)); }
    if d.size >= 5 {
      assert SameCell(m, m', At(start, lo + 3));
      assert SameCell(m, m', At(start, lo + 4));
    }
  }

  lemma {:induction false} CompileGrows(cfg: Config, mem: Memory, start: U32, len: nat, i: nat)
    requires CompileFrom(cfg, mem, start, len, i).Some?
    ensures var c := CompileFrom(cfg, mem, start, len, i).value;
            c.len >= len && |c.ops| <= (if i < cfg.maxBlockInsns then cfg.maxBlockInsns - i else 0)
    decreases cfg.maxBlockInsns - i
  {
    if !(i >= cfg.maxBlockInsns || Wrap(len) >= cfg.maxBlockBytes) {
      var d := Decode(mem, At(start, len)).value;
      if !d.terminal { CompileGrows(cfg, mem, start, len + d.size, i + 1); }
    }
  }

  /** The outcome of `compile` depends only on the block's own bytes. */
  lemma {:induction false} CompileFromLocal(cfg: Config, m: Memory, m': Memory, start: U32, len: nat, i: nat)
    requires CompileFrom(cfg, m, start, len, i).Some?
    requires AgreeBetween(m, m', start, len, CompileFrom(cfg, m, start, len, i).value.len)
    ensures CompileFrom(cfg, m', start, len, i) == CompileFrom(cfg, m, start, len, i)
    decreases cfg.maxBlockInsns - i
  {
    hide Decode;
    if !(i >= cfg.maxBlockInsns || Wrap(len) >= cfg.maxBlockBytes) {
      var d := Decode(m, At(start, len)).value;
      if d.terminal {
        DecodeLocal(m, m', start, len);
      } else {
        CompileGrows(cfg, m, start, len + d.size, i + 1);
        DecodeLocal(m, m', start, len);
        CompileFromLocal(cfg, m, m', start, len + d.size, i + 1);
      }
    }
  }

  lemma CompileLocal(cfg: Config, m: Memory, m': Memory, start: U32)
    requires Compile(cfg, m, start).Some?
    requires AgreeBetween(m, m', start, 0, Compile(cfg, m, start).value.len)
    ensures Compile(cfg, m', start) == Compile(cfg, m, start)
  {
    CompileFromLocal(cfg, m, m', start, 0, 0);
  }

  // ---- which block is compiled ----------------------------------------------------------

  /** Where the k-th instruction lies, counted from offset `len`. */
  ghost function InsnAt(mem: Memory, start: U32, len: nat, k: nat): nat
    decreases k
  {
    if k == 0 || Decode(mem, At(start, len)).None? then len
    else InsnAt(mem, start, len + Decode(mem, At(start, len)).value.size, k - 1)
  }

  /** The k-th closure is that of the instruction lying there, and only a last one
      ends the block. */
  ghost predicate OpAt(cfg: Config, mem: Memory, start: U32, len: nat, c: Code, k: nat)
    requires k < |c.ops|
  {
    var (at, d) := (InsnAt(mem, start, len, k), Decode(mem, At(start, InsnAt(mem, start, len, k))));
    && Wrap(at) < cfg.maxBlockBytes && d.Some? && d.value.op == c.ops[k]
    && (d.value.terminal <==> c.terminal && k == |c.ops| - 1)
  }

  /** The instructions from offset `len` on, one after the other, as far as the room for
      n of them or for bytes goes, or to the first that ends a block. */
  ghost predicate IsCode(cfg: Config, mem: Memory, start: U32, len: nat, n: nat, c: Code) {
    && |c.ops| <= n && c.len == InsnAt(mem, start, len, |c.ops|)
    && (c.terminal ==> c.ops != [])
    && (forall k :: 0 <= k < |c.ops| ==> OpAt(cfg, mem, start, len, c, k))
    && (c.terminal || |c.ops| == n || Wrap(c.len) >= cfg.maxBlockBytes)
  }

  lemma OpAtShift(cfg: Config, mem: Memory, start: U32, len: nat, d: Decoded, c: Code, k: nat)
    requires Decode(mem, At(start, len)) == Some(d) && k < |c.ops|
    ensures OpAt(cfg, mem, start, len, Code([d.op] + c.ops, c.len, c.terminal), k + 1)
       <==> OpAt(cfg, mem, start, len + d.size, c, k)
  {
    hide Decode;
    assert ([d.op] + c.ops)[k + 1] == c.ops[k];
  }

  lemma FirstAt(cfg: Config, mem: Memory, start: U32, len: nat, c: Code)
    requires Decode(mem, At(start, len)).Some? && Wrap(len) < cfg.maxBlockBytes && c.ops != []
    ensures var d := Decode(mem, At(start, len)).value;
            OpAt(cfg, mem, start, len, c, 0) <==> c.ops[0] == d.op && (d.terminal <==> c.terminal && |c.ops| == 1)
  {
    hide Decode;
  }

  lemma {:induction false} CompiledIs(cfg: Config, mem: Memory, start: U32, len: nat, i: nat)
    requires i <= cfg.maxBlockInsns && CompileFrom(cfg, mem, start, len, i).Some?
    ensures IsCode(cfg, mem, start, len, cfg.maxBlockInsns - i, CompileFrom(cfg, mem, start, len, i).value)
    decreases cfg.maxBlockInsns - i
  {
    hide Decode, OpAt;
    if i < cfg.maxBlockInsns && Wrap(len) < cfg.maxBlockBytes {
      var c, d := CompileFrom(cfg, mem, start, len, i).value, Decode(mem, At(start, len)).value;
      FirstAt(cfg, mem, start, len, c);
      if !d.terminal {
        CompiledIs(cfg, mem, start, len + d.size, i + 1);
        LaterOps(cfg, mem, start, len, d, len + d.size, CompileFrom(cfg, mem, start, len + d.size, i + 1).value);
      }
    }
  }

  lemma LaterOps(cfg: Config, mem: Memory, start: U32, len: nat, d: Decoded, next: nat, c: Code)
    requires Decode(mem, At(start, len)) == Some(d) && next == len + d.size
    requires forall k :: 0 <= k < |c.ops| ==> OpAt(cfg, mem, start, next, c, k)
    ensures var c1 := Code([d.op] + c.ops, c.len, c.terminal);
            forall k :: 0 < k < |c1.ops| ==> OpAt(cfg, mem, start, len, c1, k)
  {
    hide Decode, OpAt;
    var c1 := Code([d.op] + c.ops, c.len, c.terminal);
    forall k | 0 < k < |c1.ops| ensures OpAt(cfg, mem, start, len, c1, k) {
      OpAtShift(cfg, mem, start, len, d, c, k - 1);
    }
  }

  lemma {:induction false} IsCompiled(cfg: Config, mem: Memory, start: U32, len: nat, i: nat, c: Code)
    requires i <= cfg.maxBlockInsns && IsCode(cfg, mem, start, len, cfg.maxBlockInsns - i, c)
    ensures CompileFrom(cfg, mem, start, len, i) == Some(c)
    decreases cfg.maxBlockInsns - i
  {
    hide Decode, OpAt;
    if c.ops == [] {
    } else {
      assert OpAt(cfg, mem, start, len, c, 0);
      OpDecodes(cfg, mem, start, len, c);
      FirstAt(cfg, mem, start, len, c);
      var d, c1 := Decode(mem, At(start, len)).value, Code(c.ops[1..], c.len, c.terminal);
      assert c.ops == [d.op] + c1.ops;
      if !d.terminal {
        var next := len + d.size;
        forall k | 0 <= k < |c1.ops| ensures OpAt(cfg, mem, start, next, c1, k) {
          assert OpAt(cfg, mem, start, len, c, k + 1);
          OpAtShift(cfg, mem, start, len, d, c1, k);
        }
        assert InsnAt(mem, start, len, |c.ops|) == InsnAt(mem, start, next, |c1.ops|);
        IsCompiled(cfg, mem, start, next, i + 1, c1);
      } else {
        assert InsnAt(mem, start, len, 1) == InsnAt(mem, start, len + d.size, 0);
        assert c == Code([d.op], len + d.size, true);
      }
    }
  }

  lemma OpDecodes(cfg: Config, mem: Memory, start: U32, len: nat, c: Code)
    requires c.ops != [] && OpAt(cfg, mem, start, len, c, 0)
    ensures Decode(mem, At(start, len)).Some? && Wrap(len) < cfg.maxBlockBytes
  {
    hide Decode;
  }

  /** `compile` makes the block of the instructions from its start on, one after the
      other, and no shorter block: it ends at the first that must end a block, or
      where the room for instructions or for bytes is used up. */
  lemma CompileIff(cfg: Config, mem: Memory, b: Block)
    ensures Compile(cfg, mem, b.start) == Some(b)
       <==> b.ops != [] && b.end == At(b.start, b.len)
            && IsCode(cfg, mem, b.start, 0, cfg.maxBlockInsns, Code(b.ops, b.len, b.terminal))
  {
    hide CompileFrom, IsCode;
    if Compile(cfg, mem, b.start).Some? { CompiledIs(cfg, mem, b.start, 0, 0); }
    var c := Code(b.ops, b.len, b.terminal);
    if IsCode(cfg, mem, b.start, 0, cfg.maxBlockInsns, c) { IsCompiled(cfg, mem, b.start, 0, 0, c); }
  }

  /** While the block runs, the bytes of the instructions still to come stay as
      they were when it was compiled. (Nothing is asked of the bytes already
      executed, nor of what a closing system call stores.) */
  ghost predicate Undisturbed(w: World, cfg: Config, mem0: Memory, start: U32, len: nat, i: nat, end: nat, m: Machine)
    decreases cfg.maxBlockInsns - i
  {
    && AgreeBetween(mem0, m.mem, start, len, end)
    && (i < cfg.maxBlockInsns && Wrap(len) < cfg.maxBlockBytes && Decode(mem0, At(start, len)).Some? ==>
          var d := Decode(mem0, At(start, len)).value;
          !d.terminal && RunOp(w, d.op, m).Next? ==>
            Undisturbed(w, cfg, mem0, start, len + d.size, i + 1, end, RunOp(w, d.op, m).m))
  }

  ghost predicate BlockUndisturbed(w: World, cfg: Config, b: Block, m: Machine) {
    Undisturbed(w, cfg, m.mem, b.start, 0, 0, b.len, m)
  }

  /** Where the interpreter stands when the closures from offset `len` on have
      run to the end of the block. */
  function AtEnd(c: Code, start: U32, t: Machine): Machine {
    if c.terminal then t else t.(eip := At(start, c.len))
  }

  ghost predicate OpsMatch(w: World, c: Code, start: U32, m: Machine, u: Machine) {
    match (RunOps(w, c.ops, m), Interp(w, u, |c.ops|))
    case (Next(t), Next(t')) => t' == AtEnd(c, start, t)
    case (Stop(t), Stop(t')) => SameStop(t, t', start)
    case _ => false
  }

  lemma {:induction false} OpsSimulate(w: World, cfg: Config, mem0: Memory, start: U32, len: nat, i: nat, m: Machine)
    requires CompileFrom(cfg, mem0, start, len, i).Some? && m.eip == start
    requires Undisturbed(w, cfg, mem0, start, len, i, CompileFrom(cfg, mem0, start, len, i).value.len, m)
    ensures OpsMatch(w, CompileFrom(cfg, mem0, start, len, i).value, start, m, m.(eip := At(start, len)))
    decreases cfg.maxBlockInsns - i
  {
    hide RunOp, Step, Decode;
    var c := CompileFrom(cfg, mem0, start, len, i).value;
    if !(i >= cfg.maxBlockInsns || Wrap(len) >= cfg.maxBlockBytes) {
      var u := m.(eip := At(start, len));
      var d := Decode(mem0, At(start, len)).value;
      FirstOp(w, cfg, mem0, start, len, i, m);
      if d.terminal {
        OneOp(w, d, c, m, u, start);
      } else {
        var c1 := CompileFrom(cfg, mem0, start, len + d.size, i + 1).value;
        match RunOp(w, d.op, m) {
          case Next(t) => OpsSimulate(w, cfg, mem0, start, len + d.size, i + 1, t);
          case Stop(_) =>
        }
        AtAt(start, len, d.size);
        MoreOps(w, d, c1, m, u, start);
      }
    }
  }

  lemma FirstOp(w: World, cfg: Config, mem0: Memory, start: U32, len: nat, i: nat, m: Machine)
    requires CompileFrom(cfg, mem0, start, len, i).Some? && i < cfg.maxBlockInsns && Wrap(len) < cfg.maxBlockBytes
    requires AgreeBetween(mem0, m.mem, start, len, CompileFrom(cfg, mem0, start, len, i).value.len)
    ensures Decode(mem0, At(start, len)).Some?
    ensures OpMatches(w, Decode(mem0, At(start, len)).value, m.(eip := At(start, len)), start)
  {
    CompileGrowsPast(cfg, mem0, start, len, i);
    DecodeLocal(mem0, m.mem, start, len);
    DecodeMatches(w, Decode(mem0, At(start, len)).value, m.(eip := At(start, len)), start);
  }

  lemma MoreOps(w: World, d: Decoded, c1: Code, m: Machine, u: Machine, start: U32)
    requires !d.terminal && m == u.(eip := start) && OpMatches(w, d, u, start)
    requires RunOp(w, d.op, m).Next? ==> OpsMatch(w, c1, start, RunOp(w, d.op, m).m, Step(w, u).m)
    ensures OpsMatch(w, Code([d.op] + c1.ops, c1.len, c1.terminal), start, m, u)
  {
    var ops := [d.op] + c1.ops;
    assert ops[0] == d.op && ops[1..] == c1.ops;
  }

  lemma OneOp(w: World, d: Decoded, c: Code, m: Machine, u: Machine, start: U32)
    requires d.terminal && m == u.(eip := start) && OpMatches(w, d, u, start)
    requires c.ops == [d.op] && c.terminal
    ensures OpsMatch(w, c, start, m, u)
  {
    assert c.ops[1..] == [];
    assert RunOps(w, c.ops, m) == RunOp(w, d.op, m);
    assert Interp(w, u, 1) == Step(w, u);
  }

  lemma CompileGrowsPast(cfg: Config, mem: Memory, start: U32, len: nat, i: nat)
    requires CompileFrom(cfg, mem, start, len, i).Some?
    requires i < cfg.maxBlockInsns && Wrap(len) < cfg.maxBlockBytes
    ensures Decode(mem, At(start, len)).Some?
    ensures len + Decode(mem, At(start, len)).value.size <= CompileFrom(cfg, mem, start, len, i).value.len
  {
    var d := Decode(mem, At(start, len)).value;
    if !d.terminal { CompileGrows(cfg, mem, start, len + d.size, i + 1); }
  }

  /** A block means what its instructions mean: entered at its start with memory
      as it was compiled from, and left undisturbed while it runs, `block.run`
      ends in exactly the machine that as many calls of `step` as it has closures
      end in: registers, flags, eip, memory, the order of stores and the step
      count. If it stops on an exception, so does the interpreter, at the same
      instruction. */
  lemma BlockSimulates(w: World, cfg: Config, b: Block, m: Machine)
    requires Compile(cfg, m.mem, m.eip) == Some(b)
    requires BlockUndisturbed(w, cfg, b, m)
    ensures 1 <= |b.ops| <= cfg.maxBlockInsns
    ensures match RunBlock(w, b, m)
            case Next(t) => Interp(w, m, |b.ops|) == Next(t)
            case Stop(t) => Interp(w, m, |b.ops|).Stop? && SameStop(t, Interp(w, m, |b.ops|).m, b.start)
  {
    hide RunOp, Step, Decode;
    CompileGrows(cfg, m.mem, m.eip, 0, 0);
    OpsSimulate(w, cfg, m.mem, m.eip, 0, 0, m);
    assert m.(eip := At(m.eip, 0)) == m;
  }

  /** No push of the block stores into the block's own bytes. */
  ghost predicate PushesOutside(w: World, ops: seq<Closure>, m: Machine, start: U32, len: nat)
    decreases |ops|
  {
    ops != [] ==>
      && (ops[0].OpPush? ==> forall i, k :: 0 <= i < len && 0 <= k < 4 ==> At(start, i) != At(At(m.regs[ESP], -4), k))
      && (RunOp(w, ops[0], m).Next? ==> PushesOutside(w, ops[1..], RunOp(w, ops[0], m).m, start, len))
  }

  lemma RunOpFrame(w: World, op: Closure, m: Machine, x: U32)
    requires !op.OpSyscall?
    requires op.OpPush? ==> forall k :: 0 <= k < 4 ==> x != At(At(m.regs[ESP], -4), k)
    ensures SameCell(m.mem, RunOp(w, op, m).m.mem, x)
  {
    if op.OpPush? { WriteFromFrame(m.mem, At(m.regs[ESP], -4), m.regs[op.reg], 0, x); }
  }

  lemma {:induction false} OutsideIsUndisturbed(w: World, cfg: Config, mem0: Memory, start: U32, len: nat, i: nat, end: nat, m: Machine)
    requires CompileFrom(cfg, mem0, start, len, i).Some? && CompileFrom(cfg, mem0, start, len, i).value.len == end
    requires AgreeBetween(mem0, m.mem, start, 0, end)
    requires PushesOutside(w, CompileFrom(cfg, mem0, start, len, i).value.ops, m, start, end)
    ensures Undisturbed(w, cfg, mem0, start, len, i, end, m)
    decreases cfg.maxBlockInsns - i
  {
    hide RunOp, Decode;
    if i < cfg.maxBlockInsns && Wrap(len) < cfg.maxBlockBytes {
      var d := Decode(mem0, At(start, len)).value;
      var c := CompileFrom(cfg, mem0, start, len, i).value;
      assert c.ops[0] == d.op;
      if !d.terminal && RunOp(w, d.op, m).Next? {
        var t := RunOp(w, d.op, m).m;
        assert c.ops[1..] == CompileFrom(cfg, mem0, start, len + d.size, i + 1).value.ops;
        assert !d.op.OpSyscall? by { DecodeDispatches(mem0, At(start, len), d); }
        forall j | 0 <= j < end ensures SameCell(mem0, t.mem, At(start, j)) {
          RunOpFrame(w, d.op, m, At(start, j));
        }
        OutsideIsUndisturbed(w, cfg, mem0, start, len + d.size, i + 1, end, t);
      }
    }
  }

  /** The simple way to be undisturbed: no push lands in [start, end). */
  lemma NoPushInside(w: World, cfg: Config, b: Block, m: Machine)
    requires Compile(cfg, m.mem, m.eip) == Some(b) && PushesOutside(w, b.ops, m, b.start, b.len)
    ensures BlockUndisturbed(w, cfg, b, m)
  {
    OutsideIsUndisturbed(w, cfg, m.mem, b.start, 0, 0, b.len, m);
  }

  // ---- a check before the block runs ------------------------------------------------------

  /** The four bytes from a on miss the len bytes from start on, going round. */
  predicate Misses(a: U32, start: U32, len: nat) { len <= Wrap(a - start) <= TWO32 - 4 }

  lemma MissesIff(a: U32, start: U32, len: nat)
    requires 0 < len <= TWO32 - 4
    ensures Misses(a, start, len) <==> forall i, k :: 0 <= i < len && 0 <= k < 4 ==> At(start, i) != At(a, k)
  {
    var g := Wrap(a - start);
    WrapOnce(a - start);
    forall i, k | 0 <= i < len && 0 <= k < 4 ensures Misses(a, start, len) ==> At(start, i) != At(a, k) {
      WrapOnce(start + i);
      WrapOnce(a + k);
    }
    if !Misses(a, start, len) {
      var (i, k) := if g < len then (g, 0) else (0, TWO32 - g);
      WrapOnce(start + i);
      WrapOnce(a + k);
      assert 0 <= i < len && 0 <= k < 4 && At(start, i) == At(a, k);
    }
  }

  /** ESP after a closure, where that can be told from ESP before it. */
  function EspAfter(op: Closure, esp: U32): Option<U32> {
    match op
    case OpMovImm(reg, imm) => Some(if reg == ESP then imm else esp)
    case OpPush(_) => Some(At(esp, -4))
    case OpPop(reg) => if reg == ESP then None else Some(At(esp, 4))
    case OpInc(reg) => Some(if reg == ESP then At(esp, 1) else esp)
    case OpDec(reg) => Some(if reg == ESP then At(esp, -1) else esp)
    case OpXor(rm, _) => if rm == ESP then None else Some(esp)
    case OpGroup1(group, rm, simm) =>
      if rm != ESP || group == 7 then Some(esp)
      else if group == 0 then Some(At(esp, simm))
      else if group == 5 then Some(At(esp, 0 - simm))
      else None
    case _ => Some(esp)
  }

  /** Decides, from the closures and the stack pointer alone, that no push can land in
      the block; where ESP cannot be told any more it allows no further push. */
  predicate PushesMiss(ops: seq<Closure>, esp: Option<U32>, start: U32, len: nat)
    decreases |ops|
  {
    ops != [] ==>
      match esp
      case None => !ops[0].OpPush? && PushesMiss(ops[1..], None, start, len)
      case Some(e) =>
        (ops[0].OpPush? ==> Misses(At(e, -4), start, len)) && PushesMiss(ops[1..], EspAfter(ops[0], e), start, len)
  }

  lemma AddValue(f: Flags, a: U32, i: int)
    ensures Add(f, a, i, W32, false).value == (a + i % TWO32) % TWO32
    ensures Sub(f, a, i, W32, false).value == (a - i % TWO32 + TWO32) % TWO32
  {
    hide SetZS, SignBit, AuxBit, Xor3;
    assert Truncate(a, W32) == a;
  }

  lemma AddIsAt(f: Flags, a: U32, i: int)
    ensures Add(f, a, i, W32, false).value == At(a, i)
    ensures Sub(f, a, i, W32, false).value == At(a, 0 - i)
  {
    hide Add, Sub, Wrap;
    AddValue(f, a, i);
    WrapIsMod(a + i);
    WrapIsMod(a - i);
    AddMod(a, i);
    SubMod(a, i);
  }

  lemma AddMod(a: U32, i: int)
    ensures (a + i % TWO32) % TWO32 == (a + i) % TWO32
  {
  }

  lemma SubMod(a: U32, i: int)
    ensures (a - i % TWO32 + TWO32) % TWO32 == (a - i) % TWO32
  {
  }

  lemma EspFollows(w: World, op: Closure, m: Machine)
    requires RunOp(w, op, m).Next? && !op.OpSyscall? && EspAfter(op, m.regs[ESP]).Some?
    ensures RunOp(w, op, m).m.regs[ESP] == EspAfter(op, m.regs[ESP]).value || op.OpRet?
  {
    hide Add, Sub, Logic, Bitwise;
    match op
    case OpInc(reg) => AddIsAt(m.flags, m.regs[reg], 1);
    case OpDec(reg) => AddIsAt(m.flags, m.regs[reg], 1);
    case OpGroup1(group, rm, simm) => AddIsAt(m.flags, m.regs[rm], simm);
    case _ =>
  }

  /** The check is sound: it holds of every run of the closures. */
  lemma {:induction false} MissIsOutside(w: World, ops: seq<Closure>, m: Machine, esp: Option<U32>, start: U32, len: nat)
    requires 0 < len <= TWO32 - 4 && PushesMiss(ops, esp, start, len) && (esp.Some? ==> esp.value == m.regs[ESP])
    requires forall i :: 0 <= i < |ops| - 1 ==> !ops[i].OpSyscall? && !ops[i].OpRet?
    ensures PushesOutside(w, ops, m, start, len)
    decreases |ops|
  {
    hide RunOp, EspAfter, Misses;
    if ops != [] {
      if ops[0].OpPush? { MissesIff(At(m.regs[ESP], -4), start, len); }
      if RunOp(w, ops[0], m).Next? {
        var t := RunOp(w, ops[0], m).m;
        if |ops| > 1 {
          if esp.Some? && EspAfter(ops[0], esp.value).Some? { EspFollows(w, ops[0], m); }
          MissIsOutside(w, ops[1..], t, if esp.Some? then EspAfter(ops[0], esp.value) else None, start, len);
        }
      }
    }
  }

  /** Only the last closure of a block is a system call or a return. */
  lemma {:induction false} TerminalLast(cfg: Config, mem: Memory, start: U32, len: nat, i: nat)
    requires CompileFrom(cfg, mem, start, len, i).Some?
    ensures var ops := CompileFrom(cfg, mem, start, len, i).value.ops;
            forall j :: 0 <= j < |ops| - 1 ==> !ops[j].OpSyscall? && !ops[j].OpRet?
    decreases cfg.maxBlockInsns - i
  {
    hide Decode;
    if !(i >= cfg.maxBlockInsns || Wrap(len) >= cfg.maxBlockBytes) {
      var d := Decode(mem, At(start, len)).value;
      if !d.terminal {
        TerminalLast(cfg, mem, start, len + d.size, i + 1);
        assert !d.op.OpSyscall? && !d.op.OpRet? by { DecodeDispatches(mem, At(start, len), d); }
      }
    }
  }

  /** A condition to be checked before the call: if the closures and ESP show that no
      push lands in the block, the block is undisturbed, and `block.run` means
      what the interpreter means. */
  lemma CheckedBlockSimulates(w: World, cfg: Config, b: Block, m: Machine)
    requires Compile(cfg, m.mem, m.eip) == Some(b) && b.len <= TWO32 - 4
    requires PushesMiss(b.ops, Some(m.regs[ESP]), b.start, b.len)
    ensures BlockUndisturbed(w, cfg, b, m)
    ensures match RunBlock(w, b, m)
            case Next(t) => Interp(w, m, |b.ops|) == Next(t)
            case Stop(t) => Interp(w, m, |b.ops|).Stop? && SameStop(t, Interp(w, m, |b.ops|).m, b.start)
  {
    hide RunOps, Interp, CompileFrom, PushesOutside, PushesMiss, BlockUndisturbed;
    NotEmpty(cfg, m.mem, m.eip);
    TerminalLast(cfg, m.mem, m.eip, 0, 0);
    MissIsOutside(w, b.ops, m, Some(m.regs[ESP]), b.start, b.len);
    NoPushInside(w, cfg, b, m);
    BlockSimulates(w, cfg, b, m);
  }

  lemma NotEmpty(cfg: Config, mem: Memory, start: U32)
    requires CompileFrom(cfg, mem, start, 0, 0).Some? && CompileFrom(cfg, mem, start, 0, 0).value.ops != []
    ensures CompileFrom(cfg, mem, start, 0, 0).value.len > 0
  {
    var d := Decode(mem, At(start, 0)).value;
    if !d.terminal { CompileGrows(cfg, mem, start, d.size, 1); }
  }

  // ---- why blocks must be left undisturbed ------------------------------------------------

  /** push eax; nop at address 0, with the stack pointer just above: the push
      overwrites the nop with inc eax (0x40). */
  function SelfModifying(): Machine {
    var rwx := Perm(true, true, true);
    var cells := map[0 := Cell(0x50, rwx), 1 := Cell(0x90, rwx), 2 := Cell(0, rwx), 3 := Cell(0, rwx), 4 := Cell(0, rwx)];
    Machine([0x40, 0, 0, 0, 5, 0, 0, 0], 0, Flags(false, false, false, false, false, false, false), 0, Memory(cells, []))
  }

  const TwoInsns := Config(1, 64, 2)

  const PushNop: seq<Closure> := [OpPush(0), OpNop]

  lemma SelfModifyingCompiles()
    ensures Compile(TwoInsns, SelfModifying().mem, 0) == Some(Block(0, 2, 2, PushNop, false))
  {
    hide Decode;
    SelfModifyingDecodes(SelfModifying().mem);
    var mem := SelfModifying().mem;
    assert [OpNop] + [] == [OpNop] && PushNop == [OpPush(0)] + [OpNop];
    assert CompileFrom(TwoInsns, mem, 0, 2, 2) == Some(Code([], 2, false));
    assert CompileFrom(TwoInsns, mem, 0, 1, 1) == Some(Code([OpNop], 2, false));
  }

  lemma SelfModifyingDecodes(mem: Memory)
    requires Read8Exec(mem, 0) == Some(0x50) && Read8Exec(mem, 1) == Some(0x90)
    ensures Decode(mem, 0) == Some(Decoded(OpPush(0), 1, false))
    ensures Decode(mem, 1) == Some(Decoded(OpNop, 1, false))
  {
  }

  /** The machine after the push, with eip still parked at the block's start. */
  function AfterPush(): Machine { Push32(SelfModifying(), 0x40).m }

  lemma PushOverwrites()
    ensures Push32(SelfModifying(), 0x40).ok && AfterPush().regs == SelfModifying().regs[ESP := 1]
    ensures Read8Exec(AfterPush().mem, 1) == Some(0x40)
  {
    var m := SelfModifying();
    assert ByteOf(0x40, 0) == 0x40;
    WriteFromFrame(Poke(m.mem, 1, 0x40), 1, 0x40, 1, 1);
  }

  lemma SelfModifyingRuns(w: World)
    ensures var o := RunOps(w, PushNop, SelfModifying()); o.Next? && o.m.regs[0] == 0x40
  {
    hide Push32;
    PushOverwrites();
    assert PushNop[1..] == [OpNop] && [OpNop][1..] == [];
    assert RunOp(w, PushNop[0], SelfModifying()) == Next(Tick(AfterPush()));
    assert RunOps(w, [OpNop], Tick(AfterPush())) == Next(Tick(Tick(AfterPush())));
  }

  lemma SelfModifyingSteps(w: World)
    ensures var o := Interp(w, SelfModifying(), 2); o.Next? && o.m.regs[0] == 0x41
  {
    hide Step, Push32, IncDec;
    var m, u := SelfModifying(), AfterPush().(eip := 1, steps := 1);
    PushOverwrites();
    PushSteps(w, m);
    IncSteps(w, u);
    assert Interp(w, m, 2) == Interp(w, u, 1) == Step(w, u);
    assert IncDec(Tick(u.(eip := 2)), 0, false).regs[0] == 0x41 by { IncOne(Tick(u.(eip := 2))); }
  }

  lemma PushSteps(w: World, m: Machine)
    requires Read8Exec(m.mem, m.eip) == Some(0x50) && Push32(m, m.regs[0]).ok
    ensures Step(w, m) == Next(Push32(m, m.regs[0]).m.(eip := At(m.eip, 1), steps := m.steps + 1))
  {
    hide Push32;
    StepDispatch(w, m);
    PushEip(m, m.regs[0], At(m.eip, 1), m.steps + 1);
  }

  lemma IncSteps(w: World, u: Machine)
    requires Read8Exec(u.mem, u.eip) == Some(0x40)
    ensures Step(w, u) == Next(IncDec(Tick(u.(eip := At(u.eip, 1))), 0, false))
  {
    hide IncDec;
    StepDispatch(w, u);
  }

  lemma IncOne(m: Machine)
    requires m.regs[0] == 0x40
    ensures IncDec(m, 0, false).regs[0] == 0x41
  {
    hide Add;
    AddIsAt(m.flags, 0x40, 1);
  }

  /** Without that condition the property fails: the running block is not stopped
      when it overwrites itself, so it executes the nop it was compiled from
      where the interpreter executes the new instruction. */
  lemma SelfModificationDiverges(w: World)
    ensures var m := SelfModifying();
            var b := Block(0, 2, 2, PushNop, false);
            && Compile(TwoInsns, m.mem, m.eip) == Some(b)
            && !BlockUndisturbed(w, TwoInsns, b, m)
            && RunBlock(w, b, m).Next? && RunBlock(w, b, m).m.regs[0] == 0x40
            && Interp(w, m, 2).Next? && Interp(w, m, 2).m.regs[0] == 0x41
  {
    hide Compile, BlockUndisturbed, RunOps, Interp;
    var m, b := SelfModifying(), Block(0, 2, 2, PushNop, false);
    SelfModifyingCompiles();
    SelfModifyingRuns(w);
    SelfModifyingSteps(w);
    if BlockUndisturbed(w, TwoInsns, b, m) { BlockSimulates(w, TwoInsns, b, m); }
  }
}
