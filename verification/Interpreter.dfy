/** The reference semantics: one call of `CPU.step`.

    The instructions that the translation tier also knows are spelled out as
    the interpreter executes them. Everything else (prefixed instructions,
    memory operands, the rest of the opcode map) and the system call layer are
    parameters of the model: arbitrary functions from the machine to an
    `Effect`. An effect may change registers, flags and eip at will, but it
    reaches memory only through stores, so it never maps, unmaps or protects
    pages. */
module Interpreter {
  import opened Words
  import opened FlatMemory
  import opened Alu

  type Regs = r: seq<U32> | |r| == 8 witness [0, 0, 0, 0, 0, 0, 0, 0]

  const ESP := 4

  datatype Machine = Machine(regs: Regs, eip: U32, flags: Flags, steps: nat, mem: Memory)

  /** Either the machine after the instruction, or the machine as an exception
      (fault, exit, pending system call) left it. */
  datatype Outcome = Next(m: Machine) | Stop(m: Machine)

  /** `counted`: whether `steps` had been incremented when the effect stopped. */
  datatype Effect = Effect(regs: Regs, eip: U32, flags: Flags, stores: seq<(U32, U8)>, stops: bool, counted: bool)

  datatype World = World(handle: Machine -> Effect, other: Machine -> Effect)

  function ApplyStores(m: Memory, stores: seq<(U32, U8)>): Memory
    decreases |stores|
  {
    if stores == [] then m
    else ApplyStores(Poke(m, stores[0].0, stores[0].1), stores[1..])
  }

  function Commit(m: Machine, e: Effect): Outcome {
    var m1 := Machine(e.regs, e.eip, e.flags, m.steps, ApplyStores(m.mem, e.stores));
    if e.stops then Stop(m1) else Next(m1)
  }

  /** Instructions outside the modelled subset. */
  function StepOther(w: World, m: Machine): Outcome {
    var e := w.other(m);
    Commit(if e.stops && !e.counted then m else m.(steps := m.steps + 1), e)
  }

  datatype Pushed = Pushed(ok: bool, m: Machine)
  datatype Popped = Popped(value: U32, m: Machine)

  /** `push32`: ESP moves before the store, so it has moved even on a fault. */
  function Push32(m: Machine, v: U32): Pushed {
    var esp := At(m.regs[ESP], -4);
    var st := Write32(m.mem, esp, v);
    Pushed(st.ok, m.(regs := m.regs[ESP := esp], mem := st.mem))
  }

  /** `pop32`: the read comes first. */
  function Pop32(m: Machine): Option<Popped> {
    match Read32(m.mem, m.regs[ESP])
    case None => None
    case Some(v) => Some(Popped(v, m.(regs := m.regs[ESP := At(m.regs[ESP], 4)])))
  }

  /** A pop takes back what a push left and restores ESP, wherever the stack is,
      as long as it can be read. */
  lemma PushThenPop(m: Machine, v: U32)
    requires Push32(m, v).ok
    requires forall i :: 0 <= i < 4 ==> var a := At(At(m.regs[ESP], -4), i); a in m.mem.cells && m.mem.cells[a].perm.r
    ensures Pop32(Push32(m, v).m) == Some(Popped(v, m.(mem := Push32(m, v).m.mem)))
  {
    hide Read32, Write32;
    WordRoundTrip(m.mem, At(m.regs[ESP], -4), v);
    AtAt(m.regs[ESP], -4, 4);
    AtZero(m.regs[ESP]);
    var m1 := Push32(m, v).m;
    assert m1.regs[ESP := m.regs[ESP]] == m.regs;
  }

  /** `push` and `pop` of width 16. */
  function Push16(m: Machine, v: U32): Pushed {
    var esp := At(m.regs[ESP], -2);
    var st := Write16(m.mem, esp, v);
    Pushed(st.ok, m.(regs := m.regs[ESP := esp], mem := st.mem))
  }

  function Pop16(m: Machine): Option<Popped> {
    match Read16(m.mem, m.regs[ESP])
    case None => None
    case Some(v) => Some(Popped(v, m.(regs := m.regs[ESP := At(m.regs[ESP], 2)])))
  }

  lemma PushThenPop16(m: Machine, v: U32)
    requires Push16(m, v).ok && Read16(m.mem, At(m.regs[ESP], -2)).Some?
    ensures Pop16(Push16(m, v).m) == Some(Popped(v % 0x1_0000, m.(mem := Push16(m, v).m.mem)))
  {
    hide Read16, Write16, At;
    HalfRoundTrip(m.mem, At(m.regs[ESP], -2), v);
    AtAt(m.regs[ESP], -2, 2);
    AtZero(m.regs[ESP]);
    var m1 := Push16(m, v).m;
    assert m1.regs[ESP := m.regs[ESP]] == m.regs;
  }

  /** `fetch32` of the word at `a`; None if any of its bytes cannot be fetched. */
  function Fetch32(m: Memory, a: U32): Option<U32> {
    match (Read8Exec(m, a), Read8Exec(m, At(a, 1)), Read8Exec(m, At(a, 2)), Read8Exec(m, At(a, 3)))
    case (Some(b0), Some(b1), Some(b2), Some(b3)) => Some(FromBytes(b0, b1, b2, b3))
    case _ => None
  }

  /** Where eip stands after a fetch of up to n bytes ran into a fault. */
  function FaultAddress(m: Memory, a: U32, n: nat): U32
    decreases n
  {
    if n == 0 || Read8Exec(m, a).None? then a else FaultAddress(m, At(a, 1), n - 1)
  }

  function SetReg(m: Machine, r: nat, v: U32): Machine
    requires r < 8
  {
    m.(regs := m.regs[r := v])
  }

  /** INC and DEC keep CF. */
  function IncDec(m: Machine, r: nat, dec: bool): Machine
    requires r < 8
  {
    var x := if dec then Sub(m.flags, m.regs[r], 1, W32, false) else Add(m.flags, m.regs[r], 1, W32, false);
    SetReg(m, r, x.value).(flags := x.flags.(cf := m.flags.cf))
  }

  /** A group-1 operation on a register; CMP does not store. */
  function Group1(m: Machine, kind: nat, rm: nat, b: int): Machine
    requires kind < 8 && rm < 8
  {
    var x := Operate(kind, m.flags, m.regs[rm], b, W32);
    (if kind == 7 then m else SetReg(m, rm, x.value)).(flags := x.flags)
  }

  /** The interpreter's dispatch on the opcode byte. */
  datatype Form =
    | Nop | IncDecReg(r: nat, dec: bool) | PushReg(r: nat) | PopReg(r: nat) | MovImm(r: nat)
    | XorRm | Group1Imm8 | Int | Jmp32 | Jmp8 | Ret | Other

  function Classify(op: U8): (f: Form)
    ensures f.IncDecReg? || f.PushReg? || f.PopReg? || f.MovImm? ==> f.r < 8
  {
    if op == 0x31 then XorRm
    else if 0x40 <= op <= 0x47 then IncDecReg(op - 0x40, false)
    else if 0x48 <= op <= 0x4f then IncDecReg(op - 0x48, true)
    else if 0x50 <= op <= 0x57 then PushReg(op - 0x50)
    else if 0x58 <= op <= 0x5f then PopReg(op - 0x58)
    else if op == 0x90 then Nop
    else if 0xb8 <= op <= 0xbf then MovImm(op - 0xb8)
    else if op == 0x83 then Group1Imm8
    else if op == 0xc3 then Ret
    else if op == 0xcd then Int
    else if op == 0xe9 then Jmp32
    else if op == 0xeb then Jmp8
    else Other
  }

  /** `CPU.step`. */
  function Step(w: World, m: Machine): Outcome {
    match Read8Exec(m.mem, m.eip)
    case None => Stop(m)
    case Some(op) =>
      // no prefix; fetch8 has taken the opcode and steps has been incremented
      Execute(w, Classify(op), m, m.(eip := At(m.eip, 1), steps := m.steps + 1))
  }

  function Execute(w: World, form: Form, m: Machine, m1: Machine): Outcome
    requires form.IncDecReg? || form.PushReg? || form.PopReg? || form.MovImm? ==> form.r < 8
  {
    match form
    case Nop => Next(m1)
    case IncDecReg(r, dec) => Next(IncDec(m1, r, dec))
    case PushReg(r) => StepPush(m1, r)
    case PopReg(r) => StepPop(m1, r)
    case MovImm(r) => StepMov(m1, r)
    case XorRm => StepXor(w, m, m1)
    case Group1Imm8 => StepGroup1(w, m, m1)
    case Int => StepInt(w, m1)
    case Jmp32 => StepJmp32(m1)
    case Jmp8 => StepJmp8(m1)
    case Ret => StepRet(m1)
    case Other => StepOther(w, m)
  }

  function StepPush(m1: Machine, r: nat): Outcome
    requires r < 8
  {
    var p := Push32(m1, m1.regs[r]);
    if p.ok then Next(p.m) else Stop(p.m)
  }

  function StepPop(m1: Machine, r: nat): Outcome
    requires r < 8
  {
    match Pop32(m1)
    case None => Stop(m1)
    case Some(p) => Next(SetReg(p.m, r, p.value))
  }

  function StepMov(m1: Machine, r: nat): Outcome
    requires r < 8
  {
    match Fetch32(m1.mem, m1.eip)
    case None => Stop(m1.(eip := FaultAddress(m1.mem, m1.eip, 4)))
    case Some(imm) => Next(SetReg(m1, r, imm).(eip := At(m1.eip, 4)))
  }

  /** 31 /r with a register operand: ALU row 6 (XOR). */
  function StepXor(w: World, m: Machine, m1: Machine): Outcome {
    match Read8Exec(m1.mem, m1.eip)
    case None => Stop(m1)
    case Some(b) =>
      if b / 0x40 != 3 then StepOther(w, m)
      else Next(Group1(m1, 6, b % 8, m1.regs[b / 8 % 8]).(eip := At(m1.eip, 1)))
  }

  /** 83 /n ib with a register operand. */
  function StepGroup1(w: World, m: Machine, m1: Machine): Outcome {
    match Read8Exec(m1.mem, m1.eip)
    case None => Stop(m1)
    case Some(b) =>
      if b / 0x40 != 3 then StepOther(w, m)
      else match Read8Exec(m1.mem, At(m1.eip, 1))
        case None => Stop(m1.(eip := At(m1.eip, 1)))
        case Some(imm) => Next(Group1(m1, b / 8 % 8, b % 8, Signed8(imm)).(eip := At(m1.eip, 2)))
  }

  /** CD ib: the system call gate is vector 0x80, any other is an error. */
  function StepInt(w: World, m1: Machine): Outcome {
    match Read8Exec(m1.mem, m1.eip)
    case None => Stop(m1)
    case Some(n) =>
      var m2 := m1.(eip := At(m1.eip, 1));
      if n == 0x80 then Commit(m2, w.handle(m2)) else Stop(m2)
  }

  function StepJmp32(m1: Machine): Outcome {
    match Fetch32(m1.mem, m1.eip)
    case None => Stop(m1.(eip := FaultAddress(m1.mem, m1.eip, 4)))
    case Some(rel) => Next(m1.(eip := At(At(m1.eip, 4), Signed32(rel))))
  }

  function StepJmp8(m1: Machine): Outcome {
    match Read8Exec(m1.mem, m1.eip)
    case None => Stop(m1)
    case Some(rel) => Next(m1.(eip := At(At(m1.eip, 1), Signed8(rel))))
  }

  function StepRet(m1: Machine): Outcome {
    match Pop32(m1)
    case None => Stop(m1)
    case Some(p) => Next(p.m.(eip := p.value))
  }

  /** How many bytes of the instruction at eip are fetched, for the opcodes that
      are followed by an operand. */
  predicate Fetches(op: U8, second: Option<U8>, n: nat) {
    if op == 0xe9 || 0xb8 <= op <= 0xbf then n == 5
    else if op == 0x83 then n == if second.Some? && second.value < 0xc0 then 2 else 3
    else (op == 0x31 || op == 0xcd || op == 0xeb) && n == 2
  }

  /** A fetch that faults leaves registers, flags and memory alone, with eip at
      the byte that could not be fetched. */
  lemma FetchFaults(w: World, m: Machine, op: U8, k: nat, n: nat)
    requires forall i :: 0 <= i < k ==> Read8Exec(m.mem, At(m.eip, i)).Some?
    requires Read8Exec(m.mem, At(m.eip, k)).None?
    requires k > 0 ==> k < n
    requires k > 0 ==> Read8Exec(m.mem, m.eip) == Some(op) && Fetches(op, Read8Exec(m.mem, At(m.eip, 1)), n)
    ensures Step(w, m) == Stop(m.(eip := At(m.eip, k), steps := if k == 0 then m.steps else m.steps + 1))
  {
    hide Read8Exec, FromBytes, Signed8, Signed32, Group1, At;
    AtZero(m.eip);
    if k > 0 {
      var a := At(m.eip, 1);
      assert Read8Exec(m.mem, At(m.eip, 0)).Some?;
      AtAt(m.eip, 1, 1);
      AtAt(m.eip, 1, 2);
      AtAt(m.eip, 1, 3);
      if n == 5 {
        AtZero(a);
        assert forall i :: 0 <= i < k - 1 ==> At(a, i) == At(m.eip, i + 1);
        FaultFound(m.mem, a, k - 1, 4);
      }
    }
  }

  lemma {:induction false} FaultFound(m: Memory, a: U32, k: nat, n: nat)
    requires k < n
    requires forall i :: 0 <= i < k ==> Read8Exec(m, At(a, i)).Some?
    requires Read8Exec(m, At(a, k)).None?
    ensures FaultAddress(m, a, n) == At(a, k)
    decreases k
  {
    hide Read8Exec, At;
    AtZero(a);
    if k > 0 {
      forall i | 0 <= i < k - 1 ensures Read8Exec(m, At(At(a, 1), i)).Some? {
        AtAt(a, 1, i);
        assert Read8Exec(m, At(a, i + 1)).Some?;
      }
      assert Read8Exec(m, At(a, 0)).Some?;
      AtAt(a, 1, k - 1);
      FaultFound(m, At(a, 1), k - 1, n - 1);
    }
  }

  /** `CPU.run` cut off after n calls of `step`, or at the first that stops. */
  function Interp(w: World, m: Machine, n: nat): Outcome
    decreases n
  {
    if n == 0 then Next(m)
    else match Step(w, m)
      case Stop(m1) => Stop(m1)
      case Next(m1) => Interp(w, m1, n - 1)
  }

  lemma {:induction false} InterpCompose(w: World, m: Machine, a: nat, b: nat)
    requires Interp(w, m, a).Next?
    ensures Interp(w, m, a + b) == Interp(w, Interp(w, m, a).m, b)
    decreases a
  {
    hide Step;
    if a > 0 {
      InterpCompose(w, Step(w, m).m, a - 1, b);
    }
  }

  lemma {:induction false} InterpSteps(w: World, m: Machine, n: nat)
    requires Interp(w, m, n).Next?
    ensures Interp(w, m, n).m.steps == m.steps + n
    decreases n
  {
    hide Step;
    if n > 0 {
      StepStoresOnly(w, m);
      InterpSteps(w, Step(w, m).m, n - 1);
    }
  }

  lemma {:induction false} ApplyStoresOnly(m: Memory, stores: seq<(U32, U8)>)
    ensures StoresOnly(m, ApplyStores(m, stores))
    decreases |stores|
  {
    if stores != [] {
      PokeStoresOnly(m, stores[0].0, stores[0].1);
      ApplyStoresOnly(Poke(m, stores[0].0, stores[0].1), stores[1..]);
      StoresOnlyTrans(m, Poke(m, stores[0].0, stores[0].1), ApplyStores(m, stores));
    } else {
      assert m.log[|m.log|..] == [];
    }
  }

  lemma CommitStoresOnly(m: Machine, e: Effect)
    ensures StoresOnly(m.mem, Commit(m, e).m.mem)
  {
    ApplyStoresOnly(m.mem, e.stores);
  }

  /** Every instruction, modelled or not, changes memory only by reported
      stores, and one that completes counts as one step. */
  lemma StepStoresOnly(w: World, m: Machine)
    ensures StoresOnly(m.mem, Step(w, m).m.mem)
    ensures Step(w, m).Next? ==> Step(w, m).m.steps == m.steps + 1
  {
    hide Execute, Classify;
    match Read8Exec(m.mem, m.eip)
    case None =>
    case Some(op) =>
      var m1 := m.(eip := At(m.eip, 1), steps := m.steps + 1);
      ExecuteStoresOnly(w, Classify(op), m, m1);
  }

  lemma ExecuteStoresOnly(w: World, form: Form, m: Machine, m1: Machine)
    requires form.IncDecReg? || form.PushReg? || form.PopReg? || form.MovImm? ==> form.r < 8
    requires m1.mem == m.mem && m1.steps == m.steps + 1
    ensures StoresOnly(m.mem, Execute(w, form, m, m1).m.mem)
    ensures Execute(w, form, m, m1).Next? ==> Execute(w, form, m, m1).m.steps == m.steps + 1
  {
    hide WriteFrom, StepOther, Read32, Fetch32, ApplyStores, StoresOnly, Operate, Add, Sub;
    SameStoresOnly(m.mem);
    match form
    case PushReg(r) => WriteFromStoresOnly(m.mem, At(m1.regs[ESP], -4), m1.regs[r], 0);
    case Int =>
      var m2 := m1.(eip := At(m1.eip, 1));
      CommitStoresOnly(m2, w.handle(m2));
    case _ => OtherStoresOnly(w, m);
  }

  lemma OtherStoresOnly(w: World, m: Machine)
    ensures StoresOnly(m.mem, StepOther(w, m).m.mem)
    ensures StepOther(w, m).Next? ==> StepOther(w, m).m.steps == m.steps + 1
  {
    CommitStoresOnly(m, w.other(m));
    CommitStoresOnly(m.(steps := m.steps + 1), w.other(m));
  }
}
