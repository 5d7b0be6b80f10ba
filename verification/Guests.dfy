/** Guests that share pages: any number of processors in the address spaces of one
    family of forks, turn by turn in any order. One of them, `runner`, runs
    through the family's block cache (`run` of src/runtime.js); the others are
    stepped by the interpreter (`runAsync`, which is how forked children run).
    The stores of all of them go to the shared pages and invalidate the cache.
    Each guest runs as if the memory were its own. */
module Guests {
  import opened Words
  import opened FlatMemory
  import opened Alu
  import opened Interpreter
  import opened Translation
  import opened BlockCache
  import opened FlatView
  import C = CopyOnWrite
  import opened Paging

  type Store = (U32, U8)

  // ---- the stores of a turn -------------------------------------------------------------

  lemma {:induction false} ApplyBoth(m: Memory, a: seq<Store>, b: seq<Store>)
    ensures ApplyStores(m, a + b) == ApplyStores(ApplyStores(m, a), b)
    decreases |a|
  {
    if a == [] {
      assert a + b == b;
    } else {
      assert (a + b)[1..] == a[1..] + b;
      ApplyBoth(Poke(m, a[0].0, a[0].1), a[1..], b);
    }
  }

  lemma {:induction false} WriteFromStores(m: Memory, a: U32, v: U32, k: nat) returns (st: seq<Store>)
    requires k <= 4
    ensures ApplyStores(m, st) == WriteFrom(m, a, v, k).mem
    decreases 4 - k
  {
    hide ByteOf;
    if k < 4 && Writable(m, At(a, k)) {
      var one: Store := (At(a, k), ByteOf(v, k));
      var more := WriteFromStores(Poke(m, one.0, one.1), a, v, k + 1);
      st := [one] + more;
      assert st[1..] == more;
    } else {
      st := [];
    }
  }

  lemma RunOpStores(w: World, op: Closure, m: Machine) returns (st: seq<Store>)
    ensures ApplyStores(m.mem, st) == RunOp(w, op, m).m.mem
  {
    hide WriteFrom;
    match op
    case OpPush(reg) => st := WriteFromStores(m.mem, At(m.regs[ESP], -4), m.regs[reg], 0);
    case OpSyscall(after) => st := w.handle(Tick(m.(eip := after))).stores;
    case _ => st := [];
  }

  lemma {:induction false} RunOpsStores(w: World, ops: seq<Closure>, m: Machine) returns (st: seq<Store>)
    ensures ApplyStores(m.mem, st) == RunOps(w, ops, m).m.mem
    decreases |ops|
  {
    hide RunOp;
    if ops == [] { return []; }
    st := RunOpStores(w, ops[0], m);
    var t := RunOp(w, ops[0], m);
    if t.Next? {
      var more := RunOpsStores(w, ops[1..], t.m);
      ApplyBoth(m.mem, st, more);
      st := st + more;
    }
  }

  lemma OtherStores(w: World, m: Machine) returns (st: seq<Store>)
    ensures ApplyStores(m.mem, st) == StepOther(w, m).m.mem
  {
    st := w.other(m).stores;
  }

  lemma StepStores(w: World, m: Machine) returns (st: seq<Store>)
    ensures ApplyStores(m.mem, st) == Step(w, m).m.mem
  {
    hide Execute, Classify;
    match Read8Exec(m.mem, m.eip)
    case None => st := [];
    case Some(op) => st := ExecuteStores(w, Classify(op), m, m.(eip := At(m.eip, 1), steps := m.steps + 1));
  }

  lemma ExecuteStores(w: World, form: Form, m: Machine, m1: Machine) returns (st: seq<Store>)
    requires form.IncDecReg? || form.PushReg? || form.PopReg? || form.MovImm? ==> form.r < 8
    requires m1.mem == m.mem
    ensures ApplyStores(m.mem, st) == Execute(w, form, m, m1).m.mem
  {
    hide WriteFrom, StepOther;
    var other := OtherStores(w, m);
    match form
    case PushReg(r) => st := WriteFromStores(m.mem, At(m1.regs[ESP], -4), m1.regs[r], 0);
    case Int =>
      var m2 := m1.(eip := At(m1.eip, 1));
      st := w.handle(m2).stores;
      if Execute(w, form, m, m1).m.mem == m.mem { st := []; }
    case _ =>
      st := other;
      if Execute(w, form, m, m1).m.mem == m.mem { st := []; }
  }

  /** One turn: through the cache for the runner, one step for the others. */
  function OneTurn(w: World, cfg: Config, cache: Cache, cached: bool, m: Machine): Tier {
    if cached then Turned(w, cfg, cache, m)
    else
      var out := Step(w, m);
      Tier(cache.(blocks := EvictAll(cache.blocks, NewWrites(m.mem, out.m.mem))), out)
  }

  /** A turn changes memory by a list of byte stores, in order. */
  lemma TurnStores(w: World, cfg: Config, cache: Cache, cached: bool, m: Machine)
    ensures exists st :: ApplyStores(m.mem, st) == OneTurn(w, cfg, cache, cached, m).out.m.mem
  {
    hide Step, RunOps, ApplyStores, Select, EvictAll;
    var st: seq<Store>;
    var block := Select(cfg, cache, m.mem, m.eip).block;
    if cached && block.Some? { st := RunOpsStores(w, block.value.ops, m); } else { st := StepStores(w, m); }
    assert ApplyStores(m.mem, st) == OneTurn(w, cfg, cache, cached, m).out.m.mem;
  }

  ghost function StoresOf(w: World, cfg: Config, cache: Cache, cached: bool, m: Machine): (st: seq<Store>)
    ensures ApplyStores(m.mem, st) == OneTurn(w, cfg, cache, cached, m).out.m.mem
  {
    TurnStores(w, cfg, cache, cached, m);
    var st :| ApplyStores(m.mem, st) == OneTurn(w, cfg, cache, cached, m).out.m.mem;
    st
  }

  // ---- the same stores on shared pages --------------------------------------------------

  /** Where new pages come from: one not in use. */
  ghost predicate Allocator<S(!new), P(!new)>(alloc: C.Forks<S, P> -> P) {
    forall w: C.Forks<S, P> :: alloc(w) !in w.pages
  }

  ghost function StoreIn<S(!new), P(!new)>(w: C.Forks<S, P>, s: S, st: Store, alloc: C.Forks<S, P> -> P)
    : C.Forks<S, P>
    requires C.Inv(w) && s in w.tables && Allocator(alloc)
  {
    if C.Maps(w, s, PageNo(st.0)) then C.Apply(w, C.WriteByte(s, PageNo(st.0), Offset(st.0), st.1, alloc(w))) else w
  }

  ghost predicate OthersSame<S, P>(w: C.Forks<S, P>, w': C.Forks<S, P>, s: S)
    requires C.Inv(w) && C.Inv(w')
  {
    && w'.tables.Keys == w.tables.Keys
    && forall t :: t in w.tables && t != s ==> CellsOf(w', t) == CellsOf(w, t)
  }

  /** The step that a store takes on the shared pages. */
  lemma StepTaken<S(!new), P(!new)>(w: C.Forks<S, P>, s: S, st: Store, page: P)
    requires C.Inv(w) && C.Maps(w, s, PageNo(st.0)) && page !in w.pages
    ensures var step := C.WriteByte(s, PageNo(st.0), Offset(st.0), st.1, page);
            && C.Enabled(w, step) && C.Inv(C.Apply(w, step)) && C.SamePerms(w, C.Apply(w, step))
            && C.Views(C.Apply(w, step)) == C.Views(w)[s := FlatWrite(C.View(w, s), st.0, st.1)]
  {
    hide C.Inv, C.Apply, C.SamePerms, C.MustCopy, C.View, C.Views, C.FlatApply, C.Patch, FlatWrite;
    var step := C.WriteByte(s, PageNo(st.0), Offset(st.0), st.1, page);
    C.StepIsolates(w, step);
    C.WriteKeepsPerms(w, s, PageNo(st.0), Offset(st.0), st.1, page);
    FlatStep(w, s, st, page);
  }

  lemma FlatStep<S(!new), P(!new)>(w: C.Forks<S, P>, s: S, st: Store, page: P)
    requires C.Inv(w) && C.Maps(w, s, PageNo(st.0))
    ensures C.FlatApply(C.Views(w), C.WriteByte(s, PageNo(st.0), Offset(st.0), st.1, page))
         == C.Views(w)[s := FlatWrite(C.View(w, s), st.0, st.1)]
  {
    hide C.Inv, C.Patch, C.Data;
    assert C.View(w, s).Keys == w.tables[s].Keys;
  }

  lemma StoreLift<S(!new), P(!new)>(w: C.Forks<S, P>, s: S, st: Store, alloc: C.Forks<S, P> -> P, log: seq<U32>)
    requires C.Inv(w) && s in w.tables && Allocator(alloc)
    ensures var w' := StoreIn(w, s, st, alloc); C.Inv(w') && OthersSame(w, w', s)
    ensures Poke(Memory(CellsOf(w, s), log), st.0, st.1).cells == CellsOf(StoreIn(w, s, st, alloc), s)
  {
    hide C.Inv, C.Apply, C.View, C.Views, C.MustCopy, CellsOf, FlatWrite, Poke;
    var no := PageNo(st.0);
    if C.Maps(w, s, no) {
      StepTaken(w, s, st, alloc(w));
      PokeIsFlat(w, StoreIn(w, s, st, alloc), s, st.0, st.1, log);
    } else {
      NotMapped(w, s, st, log);
    }
  }

  lemma NotMapped<S, P>(w: C.Forks<S, P>, s: S, st: Store, log: seq<U32>)
    requires C.Inv(w) && s in w.tables && !C.Maps(w, s, PageNo(st.0))
    ensures Poke(Memory(CellsOf(w, s), log), st.0, st.1) == Memory(CellsOf(w, s), log)
  {
    hide C.Inv;
    assert st.0 !in CellsOf(w, s);
  }

  ghost function StoresIn<S(!new), P(!new)>(w: C.Forks<S, P>, s: S, st: seq<Store>, alloc: C.Forks<S, P> -> P)
    : C.Forks<S, P>
    requires C.Inv(w) && s in w.tables && Allocator(alloc)
    decreases |st|
  {
    if st == [] then w
    else
      StoreLift(w, s, st[0], alloc, []);
      StoresIn(StoreIn(w, s, st[0], alloc), s, st[1..], alloc)
  }

  lemma {:induction false} StoresLift<S(!new), P(!new)>(w: C.Forks<S, P>, s: S, st: seq<Store>,
                                                        alloc: C.Forks<S, P> -> P, log: seq<U32>)
    requires C.Inv(w) && s in w.tables && Allocator(alloc)
    ensures var w' := StoresIn(w, s, st, alloc); C.Inv(w') && OthersSame(w, w', s)
    ensures ApplyStores(Memory(CellsOf(w, s), log), st).cells == CellsOf(StoresIn(w, s, st, alloc), s)
    decreases |st|
  {
    hide C.Inv, StoreIn, CellsOf, Poke, Allocator;
    if st != [] {
      StoreLift(w, s, st[0], alloc, log);
      var w1 := StoreIn(w, s, st[0], alloc);
      var m1 := Poke(Memory(CellsOf(w, s), log), st[0].0, st[0].1);
      StoresLift(w1, s, st[1..], alloc, m1.log);
      assert m1 == Memory(CellsOf(w1, s), m1.log);
    }
  }

  // ---- a family of guests ---------------------------------------------------------------

  /** One processor; its memory is its space's. */
  datatype Guest = Guest(stopped: bool, regs: Regs, eip: U32, flags: Flags, steps: nat, log: seq<U32>)

  datatype Family<S(==), P(==)> = Family(spaces: C.Forks<S, P>, cache: Cache, guests: map<S, Guest>)

  /** How a family runs: the system calls of each guest, the thresholds, the space
      that runs through the cache, and where new pages come from. */
  datatype Setting<!S(==), !P(==)> =
    Setting(worlds: S -> World, cfg: Config, runner: S, alloc: C.Forks<S, P> -> P)

  ghost predicate Good<S, P>(f: Family<S, P>) { C.Inv(f.spaces) && f.guests.Keys <= f.spaces.tables.Keys }

  ghost function MachineOf<S, P>(f: Family<S, P>, s: S): Machine
    requires Good(f) && s in f.guests
  {
    var g := f.guests[s];
    Machine(g.regs, g.eip, g.flags, g.steps, Memory(CellsOf(f.spaces, s), g.log))
  }

  ghost function OutcomeOf<S, P>(f: Family<S, P>, s: S): Outcome
    requires Good(f) && s in f.guests
  {
    if f.guests[s].stopped then Stop(MachineOf(f, s)) else Next(MachineOf(f, s))
  }

  function GuestOf(out: Outcome): Guest {
    Guest(out.Stop?, out.m.regs, out.m.eip, out.m.flags, out.m.steps, out.m.mem.log)
  }

  /** One turn of the guest in space s: its stores go to the shared pages. */
  ghost function TurnOf<S(!new), P(!new)>(e: Setting<S, P>, f: Family<S, P>, s: S): Family<S, P>
    requires Good(f) && s in f.guests && Allocator(e.alloc)
  {
    if f.guests[s].stopped then f
    else
      var m := MachineOf(f, s);
      var t := OneTurn(e.worlds(s), e.cfg, f.cache, s == e.runner, m);
      var st := StoresOf(e.worlds(s), e.cfg, f.cache, s == e.runner, m);
      Family(StoresIn(f.spaces, s, st, e.alloc), t.cache, f.guests[s := GuestOf(t.out)])
  }

  /** A turn does to its own guest what it does in a private memory, and nothing to
      any other guest or space. */
  lemma TurnAlone<S(!new), P(!new)>(e: Setting<S, P>, f: Family<S, P>, s: S)
    requires Good(f) && s in f.guests && Allocator(e.alloc)
    ensures var f' := TurnOf(e, f, s);
            && Good(f') && f'.guests.Keys == f.guests.Keys && OthersSame(f.spaces, f'.spaces, s)
            && (forall t :: t in f.guests && t != s ==> OutcomeOf(f', t) == OutcomeOf(f, t))
    ensures var (f', t) := (TurnOf(e, f, s), OneTurn(e.worlds(s), e.cfg, f.cache, s == e.runner, MachineOf(f, s)));
            if f.guests[s].stopped then f' == f else OutcomeOf(f', s) == t.out && f'.cache == t.cache
  {
    hide C.Inv, StoresIn, CellsOf, Allocator, OneTurn;
    if !f.guests[s].stopped {
      var m := MachineOf(f, s);
      var st := StoresOf(e.worlds(s), e.cfg, f.cache, s == e.runner, m);
      var out := OneTurn(e.worlds(s), e.cfg, f.cache, s == e.runner, m).out;
      StoresLift(f.spaces, s, st, e.alloc, f.guests[s].log);
      assert out.m.mem == Memory(CellsOf(StoresIn(f.spaces, s, st, e.alloc), s), out.m.mem.log);
    }
  }

  /** Turns in the order of a schedule. */
  ghost function Turns<S(!new), P(!new)>(e: Setting<S, P>, f: Family<S, P>, schedule: seq<S>): (f': Family<S, P>)
    requires Good(f) && Allocator(e.alloc) && forall s :: s in schedule ==> s in f.guests
    ensures Good(f') && f'.guests.Keys == f.guests.Keys && f'.spaces.tables.Keys == f.spaces.tables.Keys
    decreases |schedule|
  {
    hide Good, Allocator, OutcomeOf, TurnOf;
    if schedule == [] then f
    else
      var f1 := Turns(e, f, schedule[..|schedule| - 1]);
      TurnAlone(e, f1, schedule[|schedule| - 1]);
      TurnOf(e, f1, schedule[|schedule| - 1])
  }

  function Count<S(==)>(schedule: seq<S>, s: S): nat
    decreases |schedule|
  {
    if schedule == [] then 0
    else Count(schedule[..|schedule| - 1], s) + if schedule[|schedule| - 1] == s then 1 else 0
  }

  lemma OneStepMore(w: World, m: Machine, n: nat)
    ensures Interp(w, m, n + 1) == match Interp(w, m, n) case Stop(t) => Stop(t) case Next(t) => Step(w, t)
    decreases n
  {
    hide Step;
    if n > 0 && Step(w, m).Next? { OneStepMore(w, Step(w, m).m, n - 1); }
  }

  /** Each stepped guest runs as if alone: whatever the schedule and however the
      pages are shared, it is where the interpreter on a memory of its own is
      after as many steps. A space without a turn keeps its bytes. */
  lemma {:induction false} RunsAlone<S(!new), P(!new)>(e: Setting<S, P>, f: Family<S, P>, schedule: seq<S>, s: S)
    requires Good(f) && Allocator(e.alloc) && forall t :: t in schedule ==> t in f.guests
    ensures var f' := Turns(e, f, schedule);
            && (s in f.guests && s != e.runner && !f.guests[s].stopped ==>
                  OutcomeOf(f', s) == Interp(e.worlds(s), MachineOf(f, s), Count(schedule, s)))
            && (s in f.spaces.tables && s !in schedule ==> CellsOf(f'.spaces, s) == CellsOf(f.spaces, s))
    decreases |schedule|
  {
    hide Allocator, Step, EvictAll, TurnOf, C.Inv, CellsOf, MachineOf, Good, OthersSame, OneTurn;
    if schedule != [] {
      var before, last := schedule[..|schedule| - 1], schedule[|schedule| - 1];
      RunsAlone(e, f, before, s);
      AloneStep(e, Turns(e, f, before), last, s);
      if s in f.guests { OneStepMore(e.worlds(s), MachineOf(f, s), Count(before, s)); }
    }
  }

  lemma AloneStep<S(!new), P(!new)>(e: Setting<S, P>, f: Family<S, P>, last: S, s: S)
    requires Good(f) && Allocator(e.alloc) && last in f.guests
    ensures var f' := TurnOf(e, f, last);
            && Good(f') && f'.guests.Keys == f.guests.Keys && f'.spaces.tables.Keys == f.spaces.tables.Keys
            && (s in f.guests && s != e.runner ==>
                  OutcomeOf(f', s) == if last != s then OutcomeOf(f, s)
                                      else match OutcomeOf(f, s) case Stop(t) => Stop(t)
                                                                 case Next(t) => Step(e.worlds(s), t))
            && (s in f.spaces.tables && s != last ==> CellsOf(f'.spaces, s) == CellsOf(f.spaces, s))
  {
    hide Allocator, Step, Turned, EvictAll, TurnOf, MachineOf, CellsOf, C.Inv;
    TurnAlone(e, f, last);
  }

  // ---- the guest that runs through the cache ----------------------------------------------

  /** Every turn of the runner is clean. */
  ghost predicate CleanTurns<S(!new), P(!new)>(e: Setting<S, P>, f: Family<S, P>, schedule: seq<S>)
    requires Good(f) && Allocator(e.alloc) && forall t :: t in schedule ==> t in f.guests
  {
    forall i :: 0 <= i < |schedule| && schedule[i] == e.runner ==> CleanAt(e, Turns(e, f, schedule[..i]))
  }

  ghost predicate CleanAt<S(!new), P(!new)>(e: Setting<S, P>, f: Family<S, P>)
    requires Good(f)
  {
    e.runner in f.guests && !f.guests[e.runner].stopped ==>
      CleanTurn(e.worlds(e.runner), e.cfg, f.cache, MachineOf(f, e.runner))
  }

  /** The outcome of n turns is the interpreter's after the same number of steps, or
      its exception. */
  ghost predicate Follows(w: World, m: Machine, n: nat, out: Outcome) {
    match out
    case Next(t) => t.steps >= m.steps + n && Interp(w, m, t.steps - m.steps) == Next(t)
    case Stop(t) => StopMatches(w, m, t)
  }

  lemma FollowsNothing(w: World, m: Machine)
    ensures Follows(w, m, 0, Next(m))
  {
  }

  lemma RunnerTurn(w: World, cfg: Config, cache: Cache, start: Machine, n: nat, m: Machine)
    requires Coherent(cfg, cache.blocks, m.mem) && CleanTurn(w, cfg, cache, m) && Follows(w, start, n, Next(m))
    ensures var t := Turned(w, cfg, cache, m);
            Follows(w, start, n + 1, t.out) && Coherent(cfg, t.cache.blocks, t.out.m.mem)
  {
    hide Step, Turned, Coherent, CleanTurn;
    TurnSimulates(w, cfg, cache, m);
    TurnCoherent(w, cfg, cache, m);
    match Turned(w, cfg, cache, m).out {
      case Next(t) => InterpCompose(w, start, m.steps - start.steps, t.steps - m.steps);
      case Stop(t) => StopMatchesLater(w, start, m, m.steps - start.steps, t);
    }
  }

  /** Another guest's stores may drop blocks, never spoil one. */
  lemma EvictedCoherent(cfg: Config, blocks: Blocks, log: seq<U32>, mem: Memory)
    requires Coherent(cfg, blocks, mem)
    ensures Coherent(cfg, EvictAll(blocks, log), mem)
  {
    hide Compile;
    forall k | k in EvictAll(blocks, log) ensures k in blocks && EvictAll(blocks, log)[k] == blocks[k] {
      EvictAllKeeps(blocks, log, k);
    }
  }

  lemma {:induction false} CleanBefore<S(!new), P(!new)>(e: Setting<S, P>, f: Family<S, P>, schedule: seq<S>)
    requires Good(f) && Allocator(e.alloc) && forall t :: t in schedule ==> t in f.guests
    requires schedule != [] && CleanTurns(e, f, schedule)
    ensures CleanTurns(e, f, schedule[..|schedule| - 1])
    ensures schedule[|schedule| - 1] == e.runner ==> CleanAt(e, Turns(e, f, schedule[..|schedule| - 1]))
  {
    hide Good, Allocator, CleanAt;
    var before := schedule[..|schedule| - 1];
    forall i | 0 <= i < |before| && before[i] == e.runner ensures CleanAt(e, Turns(e, f, before[..i])) {
      assert before[..i] == schedule[..i];
    }
  }

  /** The guest that runs through the cache is the interpreter on a memory of its own
      too, when its turns are clean: the stores of the others, which share its pages
      and invalidate its cache, change nothing for it. */
  lemma {:induction false} RunnerSimulates<S(!new), P(!new)>(e: Setting<S, P>, f: Family<S, P>, schedule: seq<S>)
    requires Good(f) && Allocator(e.alloc) && forall t :: t in schedule ==> t in f.guests
    requires e.runner in f.guests && !f.guests[e.runner].stopped && CleanTurns(e, f, schedule)
    requires Coherent(e.cfg, f.cache.blocks, MachineOf(f, e.runner).mem)
    ensures var f' := Turns(e, f, schedule);
            && Follows(e.worlds(e.runner), MachineOf(f, e.runner), Count(schedule, e.runner), OutcomeOf(f', e.runner))
            && Coherent(e.cfg, f'.cache.blocks, OutcomeOf(f', e.runner).m.mem)
    decreases |schedule|
  {
    hide Allocator, Step, Turned, EvictAll, TurnOf, C.Inv, CellsOf, MachineOf, Coherent, CleanTurns, CleanTurn, Follows,
         Good;
    var w, start := e.worlds(e.runner), MachineOf(f, e.runner);
    if schedule == [] {
      FollowsNothing(w, start);
      assert OutcomeOf(f, e.runner) == Next(start);
    } else {
      var before, last := schedule[..|schedule| - 1], schedule[|schedule| - 1];
      var f1 := Turns(e, f, before);
      CleanBefore(e, f, schedule);
      RunnerSimulates(e, f, before);
      TurnAlone(e, f1, last);
      RunnerStep(e, f1, last, start, Count(before, e.runner));
    }
  }

  lemma RunnerStep<S(!new), P(!new)>(e: Setting<S, P>, f: Family<S, P>, last: S, start: Machine, n: nat)
    requires Good(f) && Allocator(e.alloc) && last in f.guests && e.runner in f.guests
    requires last == e.runner ==> CleanAt(e, f)
    requires Follows(e.worlds(e.runner), start, n, OutcomeOf(f, e.runner))
    requires Coherent(e.cfg, f.cache.blocks, OutcomeOf(f, e.runner).m.mem)
    ensures var f' := TurnOf(e, f, last);
            && Good(f') && e.runner in f'.guests
            && Follows(e.worlds(e.runner), start, n + if last == e.runner then 1 else 0, OutcomeOf(f', e.runner))
            && Coherent(e.cfg, f'.cache.blocks, OutcomeOf(f', e.runner).m.mem)
  {
    hide Allocator, Step, Turned, EvictAll, TurnOf, MachineOf, Coherent, CleanTurn, Good;
    TurnAlone(e, f, last);
    var m := MachineOf(f, last);
    if !f.guests[last].stopped {
      if last == e.runner {
        RunnerTurn(e.worlds(last), e.cfg, f.cache, start, n, m);
      } else {
        EvictedCoherent(e.cfg, f.cache.blocks, NewWrites(m.mem, Step(e.worlds(last), m).m.mem),
                        OutcomeOf(f, e.runner).m.mem);
      }
    }
  }
}
