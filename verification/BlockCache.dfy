/** The execution tier of src/jit.js: the cache of translated blocks, its
    invalidation by guest stores, and the run loop, with the proof that the
    tier is indistinguishable from the plain interpreter. */
module BlockCache {
  import opened Words
  import opened FlatMemory
  import opened Interpreter
  import opened Translation

  type Blocks = map<U32, Block>

  datatype Cache = Cache(hits: map<U32, nat>, blocks: Blocks)

  // ---- invalidation ---------------------------------------------------------------------

  /** The test of `invalidate`, on the wrapped end points. */
  predicate Overlaps(b: Block, start: U32, end: U32) { b.start < end && b.end > start }

  /** `invalidate(a, n)`. */
  function Evict(blocks: Blocks, a: U32, n: nat): Blocks {
    map k | k in blocks && !Overlaps(blocks[k], a, At(a, n)) :: blocks[k]
  }

  /** One `invalidate(a, 1)` for each store reported to `onWrite`. */
  function EvictAll(blocks: Blocks, log: seq<U32>): Blocks {
    if log == [] then blocks else EvictAll(Evict(blocks, log[0], 1), log[1..])
  }

  /** The block's bytes end before the top of the address space. */
  predicate NonWrapping(b: Block) { b.start + b.len < TWO32 }

  ghost predicate InBlock(b: Block, a: U32) { exists i :: 0 <= i < b.len && At(b.start, i) == a }

  /** A store drops a block that does not wrap exactly when it hits one of the
      block's bytes. */
  lemma InvalidateExact(b: Block, a: U32)
    requires NonWrapping(b) && b.end == At(b.start, b.len)
    ensures Overlaps(b, a, At(a, 1)) <==> InBlock(b, a)
  {
    assert b.end == b.start + b.len;
    if b.start <= a < b.end { assert At(b.start, a - b.start) == a; }
  }

  /** A block that wraps is dropped by no store to any of its bytes: invalidation
      is complete for a block if and only if it does not wrap. */
  lemma InvalidateCompleteIff(b: Block)
    requires 0 < b.len < TWO32 && b.end == At(b.start, b.len)
    ensures (forall a: U32 :: InBlock(b, a) ==> Overlaps(b, a, At(a, 1))) <==> NonWrapping(b)
    ensures !NonWrapping(b) ==> forall a: U32 :: InBlock(b, a) ==> !Overlaps(b, a, At(a, 1))
  {
    if NonWrapping(b) {
      forall a: U32 ensures InBlock(b, a) ==> Overlaps(b, a, At(a, 1)) { InvalidateExact(b, a); }
    } else {
      forall a: U32 | InBlock(b, a) ensures !Overlaps(b, a, At(a, 1)) { WrappingMissed(b, a); }
      assert InBlock(b, b.start) by { assert At(b.start, 0) == b.start; }
    }
  }

  lemma WrappingMissed(b: Block, a: U32)
    requires b.len < TWO32 && b.end == At(b.start, b.len) && !NonWrapping(b) && InBlock(b, a)
    ensures !Overlaps(b, a, At(a, 1))
  {
    var i :| 0 <= i < b.len && At(b.start, i) == a;
    WrapOnce(b.start + b.len);
    WrapOnce(b.start + i);
    assert b.end == b.start + b.len - TWO32;
    assert a == if b.start + i < TWO32 then b.start + i else b.start + i - TWO32;
  }

  lemma {:induction false} EvictAllKeeps(blocks: Blocks, log: seq<U32>, k: U32)
    ensures k in EvictAll(blocks, log) <==>
              k in blocks && forall a :: a in log ==> !Overlaps(blocks[k], a, At(a, 1))
    ensures k in EvictAll(blocks, log) ==> EvictAll(blocks, log)[k] == blocks[k]
    decreases |log|
  {
    if log != [] {
      EvictAllKeeps(Evict(blocks, log[0], 1), log[1..], k);
      assert log == [log[0]] + log[1..];
    }
  }

  // ---- coherence ------------------------------------------------------------------------

  /** Every cached block is filed under its start and is not empty. */
  ghost predicate WellFormed(blocks: Blocks) {
    forall k :: k in blocks ==> blocks[k].start == k && blocks[k].ops != []
  }

  /** Moreover, a block that does not wrap is what `compile` would produce from
      memory as it is now. */
  ghost predicate Coherent(cfg: Config, blocks: Blocks, mem: Memory) {
    && WellFormed(blocks)
    && forall k :: k in blocks && NonWrapping(blocks[k]) ==> Compile(cfg, mem, k) == Some(blocks[k])
  }

  function NewWrites(m: Memory, m': Memory): seq<U32> {
    if |m.log| <= |m'.log| then m'.log[|m.log|..] else []
  }

  /** Any stores at all, in any order: what is left in the cache still matches
      memory. */
  lemma CoherentAfterStores(cfg: Config, blocks: Blocks, m: Memory, m': Memory)
    requires Coherent(cfg, blocks, m) && StoresOnly(m, m')
    ensures Coherent(cfg, EvictAll(blocks, NewWrites(m, m')), m')
  {
    hide Compile;
    var log := NewWrites(m, m');
    var kept := EvictAll(blocks, log);
    forall k | k in kept
      ensures kept[k].start == k && kept[k].ops != [] && (NonWrapping(kept[k]) ==> Compile(cfg, m', k) == Some(kept[k]))
    {
      EvictAllKeeps(blocks, log, k);
      var b := blocks[k];
      if NonWrapping(b) {
        SurvivorUntouched(cfg, b, m, m');
        CompileLocal(cfg, m, m', k);
      }
    }
  }

  lemma CompileShape(cfg: Config, mem: Memory, k: U32)
    requires Compile(cfg, mem, k).Some?
    ensures var b := Compile(cfg, mem, k).value; b.start == k && b.end == At(k, b.len) && |b.ops| >= 1
  {
  }

  lemma SurvivorUntouched(cfg: Config, b: Block, m: Memory, m': Memory)
    requires Compile(cfg, m, b.start) == Some(b) && NonWrapping(b) && StoresOnly(m, m')
    requires forall a :: a in NewWrites(m, m') ==> !Overlaps(b, a, At(a, 1))
    ensures AgreeBetween(m, m', b.start, 0, b.len)
  {
    hide Compile;
    CompileShape(cfg, m, b.start);
    forall i | 0 <= i < b.len ensures SameCell(m, m', At(b.start, i)) {
      var a := At(b.start, i);
      assert InBlock(b, a);
      InvalidateExact(b, a);
    }
  }

  // ---- a stale block --------------------------------------------------------------------

  const TOP: U32 := 0xffff_ffff

  const NopNop: seq<Closure> := [OpNop, OpNop]

  /** Two nops, one in the last byte of memory and one in the first. */
  function AcrossTop(): Memory {
    var rwx := Perm(true, true, true);
    Memory(map[TOP := Cell(0x90, rwx), 0 := Cell(0x90, rwx)], [])
  }

  lemma AcrossTopDecodes(mem: Memory, pc: U32)
    ensures Read8Exec(mem, pc) == Some(0x90) ==> Decode(mem, pc) == Some(Decoded(OpNop, 1, false))
    ensures Read8Exec(mem, pc) == Some(0xf4) ==> Decode(mem, pc) == None
  {
  }

  lemma AroundTop()
    ensures At(TOP, 0) == TOP && At(TOP, 1) == 0 && At(TOP, 2) == 1 && Wrap(0) == 0 && Wrap(1) == 1 && Wrap(2) == 2
  {
    WrapOnce(TOP + 1);
    WrapOnce(TOP + 2);
  }

  lemma TwoNops(mem: Memory)
    requires Decode(mem, TOP) == Decode(mem, 0) == Some(Decoded(OpNop, 1, false))
    ensures Compile(TwoInsns, mem, TOP) == Some(Block(TOP, 1, 2, NopNop, false))
  {
    hide Decode, At, Wrap;
    AroundTop();
    assert CompileFrom(TwoInsns, mem, TOP, 2, 2) == Some(Code([], 2, false));
    assert [OpNop] + [] == [OpNop];
    assert CompileFrom(TwoInsns, mem, TOP, 1, 1) == Some(Code([OpNop], 2, false));
    assert [OpNop] + [OpNop] == NopNop;
  }

  lemma AcrossTopCompiles()
    ensures Compile(TwoInsns, AcrossTop(), TOP) == Some(Block(TOP, 1, 2, NopNop, false))
  {
    hide Decode, Compile;
    var mem := AcrossTop();
    AcrossTopDecodes(mem, TOP);
    AcrossTopDecodes(mem, 0);
    TwoNops(mem);
  }

  lemma HltDoesNotCompile(mem: Memory)
    requires Read8Exec(mem, TOP) == Some(0x90) && Read8Exec(mem, 0) == Some(0xf4)
    ensures Compile(TwoInsns, mem, TOP) == None
  {
    hide Decode, At, Wrap;
    AroundTop();
    AcrossTopDecodes(mem, TOP);
    AcrossTopDecodes(mem, 0);
    assert CompileFrom(TwoInsns, mem, TOP, 1, 1) == None;
  }

  /** A block that wraps does go stale: `compile` makes one of two nops across the
      top of memory; the guest then stores HLT over the second; the invalidation
      of that store leaves the block in the cache, though `compile` would now
      refuse the address. */
  lemma WrappingBlockGoesStale()
    ensures var (m, b) := (AcrossTop(), Block(TOP, 1, 2, NopNop, false));
            var m' := Poke(m, 0, 0xf4);
            && Compile(TwoInsns, m, TOP) == Some(b) && !NonWrapping(b)
            && Write8(m, 0, 0xf4) == Some(m') && InBlock(b, 0)
            && EvictAll(map[TOP := b], NewWrites(m, m')) == map[TOP := b]
            && Compile(TwoInsns, m', TOP) == None
  {
    hide Compile;
    var (m, b) := (AcrossTop(), Block(TOP, 1, 2, NopNop, false));
    var m' := Poke(m, 0, 0xf4);
    AcrossTopCompiles();
    HltDoesNotCompile(m');
    WrapOnce(TOP + 1);
    assert At(b.start, 1) == 0;
    StaleStays(b);
    assert m'.log == [0] && NewWrites(m, m') == [0];
  }

  lemma StaleStays(b: Block)
    requires b.start == TOP && b.end == 1
    ensures EvictAll(map[TOP := b], [0]) == map[TOP := b]
  {
    assert At(0, 1) == 1;
    assert !Overlaps(b, 0, 1);
    assert Evict(map[TOP := b], 0, 1) == map[TOP := b];
    assert [0][1..] == [];
  }

  // ---- the run loop ------------------------------------------------------------------------

  datatype Turn = Turn(cache: Cache, block: Option<Block>)

  /** The head of the loop in `run`: the cached block, or a fresh translation once
      the address is hot, or nothing. */
  function Select(cfg: Config, cache: Cache, mem: Memory, eip: U32): Turn {
    if eip in cache.blocks then Turn(cache, Some(cache.blocks[eip]))
    else
      var n := (if eip in cache.hits then cache.hits[eip] else 0) + 1;
      var counted := cache.(hits := cache.hits[eip := n]);
      if n < cfg.hotThreshold then Turn(counted, None)
      else match Compile(cfg, mem, eip)
        case None => Turn(counted, None)
        case Some(b) => Turn(counted.(blocks := counted.blocks[eip := b]), Some(b))
  }

  datatype Tier = Tier(cache: Cache, out: Outcome)

  /** One turn of the loop: a block if there is one, else one step of the
      interpreter; the stores made on the way invalidate blocks. */
  function Turned(w: World, cfg: Config, cache: Cache, m: Machine): Tier {
    var t := Select(cfg, cache, m.mem, m.eip);
    var out := match t.block case Some(b) => RunBlock(w, b, m) case None => Step(w, m);
    Tier(t.cache.(blocks := EvictAll(t.cache.blocks, NewWrites(m.mem, out.m.mem))), out)
  }

  /** n turns of the loop, or fewer if one ends in an exception. */
  function Run(w: World, cfg: Config, cache: Cache, m: Machine, n: nat): Tier
    decreases n
  {
    if n == 0 then Tier(cache, Next(m))
    else
      var t := Run(w, cfg, cache, m, n - 1);
      match t.out
      case Stop(_) => t
      case Next(m1) => Turned(w, cfg, t.cache, m1)
  }

  /** The block a turn executes, if any, does not wrap around the address space
      and does not overwrite its own instructions before they run. */
  ghost predicate CleanTurn(w: World, cfg: Config, cache: Cache, m: Machine) {
    match Select(cfg, cache, m.mem, m.eip).block
    case None => true
    case Some(b) => NonWrapping(b) && BlockUndisturbed(w, cfg, b, m)
  }

  ghost predicate CleanRun(w: World, cfg: Config, cache: Cache, m: Machine, n: nat) {
    forall i :: 0 <= i < n && Run(w, cfg, cache, m, i).out.Next? ==>
      CleanTurn(w, cfg, Run(w, cfg, cache, m, i).cache, Run(w, cfg, cache, m, i).out.m)
  }

  lemma RunOpStoresOnly(w: World, op: Closure, m: Machine)
    ensures StoresOnly(m.mem, RunOp(w, op, m).m.mem)
    ensures RunOp(w, op, m).Next? ==> RunOp(w, op, m).m.steps == m.steps + 1
  {
    match op
    case OpPush(reg) => WriteFromStoresOnly(m.mem, At(m.regs[ESP], -4), m.regs[reg], 0);
    case OpSyscall(after) =>
      var m1 := Tick(m.(eip := after));
      CommitStoresOnly(m1, w.handle(m1));
    case _ =>
  }

  lemma {:induction false} RunOpsStoresOnly(w: World, ops: seq<Closure>, m: Machine)
    ensures StoresOnly(m.mem, RunOps(w, ops, m).m.mem)
    ensures RunOps(w, ops, m).Next? ==> RunOps(w, ops, m).m.steps == m.steps + |ops|
    decreases |ops|
  {
    hide RunOp;
    if ops != [] {
      RunOpStoresOnly(w, ops[0], m);
      var t := RunOp(w, ops[0], m).m;
      if RunOp(w, ops[0], m).Next? {
        RunOpsStoresOnly(w, ops[1..], t);
        StoresOnlyTrans(m.mem, t.mem, RunOps(w, ops, m).m.mem);
      }
    }
  }

  lemma TurnStoresOnly(w: World, cfg: Config, cache: Cache, m: Machine)
    ensures StoresOnly(m.mem, Turned(w, cfg, cache, m).out.m.mem)
  {
    hide Step, RunOps;
    match Select(cfg, cache, m.mem, m.eip).block
    case Some(b) => RunOpsStoresOnly(w, b.ops, m);
    case None => StepStoresOnly(w, m);
  }

  lemma SelectCoherent(cfg: Config, cache: Cache, m: Machine)
    requires Coherent(cfg, cache.blocks, m.mem)
    ensures var t := Select(cfg, cache, m.mem, m.eip);
            && Coherent(cfg, t.cache.blocks, m.mem)
            && (t.block.Some? ==> m.eip in t.cache.blocks && t.cache.blocks[m.eip] == t.block.value)
  {
    hide CompileFrom;
  }

  /** Coherence holds at every loop head of every run, clean or not. */
  lemma TurnCoherent(w: World, cfg: Config, cache: Cache, m: Machine)
    requires Coherent(cfg, cache.blocks, m.mem)
    ensures Coherent(cfg, Turned(w, cfg, cache, m).cache.blocks, Turned(w, cfg, cache, m).out.m.mem)
  {
    hide Select, Step, RunBlock, Compile;
    var t := Turned(w, cfg, cache, m);
    SelectCoherent(cfg, cache, m);
    TurnStoresOnly(w, cfg, cache, m);
    CoherentAfterStores(cfg, Select(cfg, cache, m.mem, m.eip).cache.blocks, m.mem, t.out.m.mem);
  }

  lemma {:induction false} RunCoherent(w: World, cfg: Config, cache: Cache, m: Machine, n: nat)
    requires Coherent(cfg, cache.blocks, m.mem)
    ensures Coherent(cfg, Run(w, cfg, cache, m, n).cache.blocks, Run(w, cfg, cache, m, n).out.m.mem)
  {
    hide Turned, Coherent;
    if n > 0 {
      RunCoherent(w, cfg, cache, m, n - 1);
      var t := Run(w, cfg, cache, m, n - 1);
      if t.out.Next? { TurnCoherent(w, cfg, t.cache, t.out.m); }
    }
  }

  /** What a turn has to do with the interpreter: it amounts to between one and
      `maxBlockInsns` steps, or to the exception one of them ends in. */
  ghost predicate TurnMatches(w: World, cfg: Config, m: Machine, out: Outcome) {
    match out
    case Next(t) =>
      && m.steps < t.steps && (t.steps <= m.steps + cfg.maxBlockInsns || t.steps == m.steps + 1)
      && Interp(w, m, t.steps - m.steps) == Next(t)
    case Stop(t) => StopMatches(w, m, t)
  }

  ghost predicate StopMatches(w: World, m: Machine, t: Machine) {
    exists k: nat, start: U32 :: Interp(w, m, k).Stop? && SameStop(t, Interp(w, m, k).m, start)
  }

  lemma TurnSimulates(w: World, cfg: Config, cache: Cache, m: Machine)
    requires Coherent(cfg, cache.blocks, m.mem) && CleanTurn(w, cfg, cache, m)
    ensures TurnMatches(w, cfg, m, Turned(w, cfg, cache, m).out)
  {
    hide Step, RunBlock, Compile, BlockUndisturbed;
    SelectCoherent(cfg, cache, m);
    match Select(cfg, cache, m.mem, m.eip).block
    case Some(b) =>
      BlockSimulates(w, cfg, b, m);
      match RunBlock(w, b, m) {
        case Next(t) => InterpSteps(w, m, |b.ops|);
        case Stop(t) => assert Interp(w, m, |b.ops|).Stop? && SameStop(t, Interp(w, m, |b.ops|).m, b.start);
      }
    case None =>
      StepStoresOnly(w, m);
      assert Interp(w, m, 1) == Step(w, m);
      if Step(w, m).Stop? { assert Interp(w, m, 1).Stop? && SameStop(Step(w, m).m, Interp(w, m, 1).m, 0); }
  }

  /** Every turn that completes makes progress, whatever the cache holds. */
  lemma TurnProgress(w: World, cfg: Config, cache: Cache, m: Machine)
    requires WellFormed(cache.blocks)
    ensures WellFormed(Turned(w, cfg, cache, m).cache.blocks)
    ensures Turned(w, cfg, cache, m).out.Next? ==> Turned(w, cfg, cache, m).out.m.steps > m.steps
  {
    hide Step, RunOps, Compile;
    var t := Select(cfg, cache, m.mem, m.eip);
    assert WellFormed(t.cache.blocks) && (t.block.Some? ==> t.block.value.ops != []) by {
      if Compile(cfg, m.mem, m.eip).Some? { CompileShape(cfg, m.mem, m.eip); }
    }
    forall k | k in Turned(w, cfg, cache, m).cache.blocks {
      EvictAllKeeps(t.cache.blocks, NewWrites(m.mem, Turned(w, cfg, cache, m).out.m.mem), k);
    }
    match Select(cfg, cache, m.mem, m.eip).block
    case Some(b) =>
      assert b.ops != [];
      RunOpsStoresOnly(w, b.ops, m);
    case None => StepStoresOnly(w, m);
  }

  lemma StopMatchesLater(w: World, m: Machine, m1: Machine, n: nat, t: Machine)
    requires Interp(w, m, n) == Next(m1) && StopMatches(w, m1, t)
    ensures StopMatches(w, m, t)
  {
    hide Step;
    var k: nat, start: U32 :| Interp(w, m1, k).Stop? && SameStop(t, Interp(w, m1, k).m, start);
    InterpCompose(w, m, n, k);
    assert Interp(w, m, n + k).Stop? && SameStop(t, Interp(w, m, n + k).m, start);
  }

  /** The tier is transparent. Start with any coherent cache (the empty one, say)
      and any machine, under any thresholds, system call layer and behaviour of
      the untranslated instructions: after any number n of clean turns, the
      machine is exactly the interpreter's after the same number of steps, at
      least n steps have been made, and the cache is coherent. If the run ended
      in an exception, the interpreter ends in the same one. */
  lemma {:induction false} TierSimulates(w: World, cfg: Config, cache: Cache, m: Machine, n: nat)
    requires Coherent(cfg, cache.blocks, m.mem) && CleanRun(w, cfg, cache, m, n)
    ensures match Run(w, cfg, cache, m, n).out
            case Next(t) => t.steps >= m.steps + n && Interp(w, m, t.steps - m.steps) == Next(t)
            case Stop(t) => StopMatches(w, m, t)
    ensures Coherent(cfg, Run(w, cfg, cache, m, n).cache.blocks, Run(w, cfg, cache, m, n).out.m.mem)
  {
    hide Step, Turned, Coherent, CleanTurn;
    RunCoherent(w, cfg, cache, m, n);
    if n == 0 {
    } else {
      assert CleanRun(w, cfg, cache, m, n - 1);
      TierSimulates(w, cfg, cache, m, n - 1);
      var t := Run(w, cfg, cache, m, n - 1);
      if t.out.Next? {
        var m1 := t.out.m;
        TurnSimulates(w, cfg, t.cache, m1);
        match Turned(w, cfg, t.cache, m1).out {
          case Next(m2) => InterpCompose(w, m, m1.steps - m.steps, m2.steps - m1.steps);
          case Stop(m2) => StopMatchesLater(w, m, m1, m1.steps - m.steps, m2);
        }
      }
    }
  }

  // ---- what is compiled, and for how long it is kept ----------------------------------------

  function Hits(cache: Cache, a: U32): nat { if a in cache.hits then cache.hits[a] else 0 }

  /** How often the first n turns came to an address without a block for it. */
  ghost function Uncached(w: World, cfg: Config, cache: Cache, m: Machine, n: nat, a: U32): nat
    decreases n
  {
    if n == 0 then 0
    else
      var t := Run(w, cfg, cache, m, n - 1);
      Uncached(w, cfg, cache, m, n - 1, a) + if t.out.Next? && t.out.m.eip == a && a !in t.cache.blocks then 1 else 0
  }

  lemma TurnHits(w: World, cfg: Config, cache: Cache, m: Machine, a: U32)
    ensures Hits(Turned(w, cfg, cache, m).cache, a)
         == Hits(cache, a) + if m.eip == a && a !in cache.blocks then 1 else 0
  {
    hide Compile, RunBlock, Step, EvictAll;
  }

  lemma {:induction false} HitsCount(w: World, cfg: Config, cache: Cache, m: Machine, n: nat, a: U32)
    ensures Hits(Run(w, cfg, cache, m, n).cache, a) == Hits(cache, a) + Uncached(w, cfg, cache, m, n, a)
    decreases n
  {
    hide Turned, Hits;
    if n > 0 {
      HitsCount(w, cfg, cache, m, n - 1, a);
      var t := Run(w, cfg, cache, m, n - 1);
      if t.out.Next? { TurnHits(w, cfg, t.cache, t.out.m, a); }
    }
  }

  /** In every run, an address without a block is compiled when the loop has come to it
      hotThreshold times, and not before; the block that `compile` makes of memory as
      it then is runs at once. A cached block runs; otherwise the interpreter makes
      one step. */
  lemma HotIff(w: World, cfg: Config, cache: Cache, m: Machine, n: nat)
    ensures var t := Run(w, cfg, cache, m, n);
            t.out.Next? ==>
              var (m1, a) := (t.out.m, t.out.m.eip);
              var hot := Hits(cache, a) + Uncached(w, cfg, cache, m, n, a) + 1 >= cfg.hotThreshold;
              var block := if a in t.cache.blocks then Some(t.cache.blocks[a])
                           else if hot then Compile(cfg, m1.mem, a) else None;
              Turned(w, cfg, t.cache, m1).out == if block.Some? then RunBlock(w, block.value, m1) else Step(w, m1)
  {
    hide Compile, RunBlock, Step, EvictAll, Run, Uncached;
    var t := Run(w, cfg, cache, m, n);
    if t.out.Next? { HitsCount(w, cfg, cache, m, n, t.out.m.eip); }
  }

  /** The block for an address after the head of the loop. */
  function Held(cfg: Config, cache: Cache, m: Machine, k: U32): Option<Block> {
    if k in cache.blocks then Some(cache.blocks[k])
    else if k == m.eip then Select(cfg, cache, m.mem, k).block
    else None
  }

  lemma HeldThere(cfg: Config, cache: Cache, m: Machine, k: U32)
    ensures var blocks := Select(cfg, cache, m.mem, m.eip).cache.blocks;
            Held(cfg, cache, m, k) == if k in blocks then Some(blocks[k]) else None
  {
    hide Compile;
  }

  /** A block that does not wrap stays through a turn, old or new, as long as the turn
      stores into none of its bytes; no other comes in. */
  lemma TurnKeeps(w: World, cfg: Config, cache: Cache, m: Machine, k: U32)
    requires Coherent(cfg, cache.blocks, m.mem)
    ensures var (t, held) := (Turned(w, cfg, cache, m), Held(cfg, cache, m, k));
            && (k in t.cache.blocks ==> held == Some(t.cache.blocks[k]))
            && (held.Some? && NonWrapping(held.value) ==>
                  (k in t.cache.blocks <==> forall a :: a in NewWrites(m.mem, t.out.m.mem) ==> !InBlock(held.value, a)))
  {
    hide Compile, RunBlock, Step, InBlock, Overlaps, NewWrites, Select, Held;
    var (t, s) := (Turned(w, cfg, cache, m), Select(cfg, cache, m.mem, m.eip).cache);
    HeldThere(cfg, cache, m, k);
    EvictAllKeeps(s.blocks, NewWrites(m.mem, t.out.m.mem), k);
    SelectCoherent(cfg, cache, m);
    if k in s.blocks && NonWrapping(s.blocks[k]) {
      CompileShape(cfg, m.mem, k);
      var b := s.blocks[k];
      forall a | a in NewWrites(m.mem, t.out.m.mem) ensures Overlaps(b, a, At(a, 1)) <==> InBlock(b, a) {
        InvalidateExact(b, a);
      }
    }
  }
}
