/** `BlockCacheJIT` itself: the object with its maps and counters, and the loops
    of `invalidate`, `compile`, `block.run` and `run`, proved against the
    functions of Translation and BlockCache. */
module JitTier {
  import opened Words
  import opened FlatMemory
  import opened Interpreter
  import opened Translation
  import BlockCache

  /** The processor object; its registers, eip, EFLAGS, step counter and memory
      are one record. */
  class Cpu {
    var state: Machine

    constructor (m: Machine)
      ensures state == m
    {
      state := m;
    }
  }

  /** How `run` ends: by its own "Step limit reached" error, or by an exception
      from below. */
  datatype Exit = StepLimit | Raised

  class BlockCacheJIT {
    const world: World
    const cfg: Config
    var hits: map<U32, nat>
    var blocks: BlockCache.Blocks
    var compiled: nat
    var executed: nat
    var bailed: nat
    var invalidated: nat

    constructor (world: World, cfg: Config)
      ensures this.world == world && this.cfg == cfg
      ensures hits == map[] && blocks == map[]
      ensures compiled == executed == bailed == invalidated == 0
    {
      this.world, this.cfg := world, cfg;
      hits, blocks := map[], map[];
      compiled, executed, bailed, invalidated := 0, 0, 0, 0;
    }

    ghost function Cache(): BlockCache.Cache
      reads this
    {
      BlockCache.Cache(hits, blocks)
    }

    method Invalidate(addr: U32, len: nat)
      modifies this`blocks, this`invalidated
      ensures blocks == BlockCache.Evict(old(blocks), addr, len)
      ensures invalidated == old(invalidated) + |old(blocks)| - |blocks|
    {
      var start, end := addr, At(addr, len);
      ghost var was := blocks;
      var keys := blocks.Keys;
      while keys != {}
        invariant keys <= blocks.Keys <= was.Keys
        invariant forall k :: k in blocks ==> blocks[k] == was[k]
        invariant forall k :: k in was && k !in keys ==>
                    (k in blocks <==> !BlockCache.Overlaps(was[k], start, end))
        invariant invalidated == old(invalidated) + |was| - |blocks|
        decreases keys
      {
        var key :| key in keys;
        if BlockCache.Overlaps(blocks[key], start, end) {
          RemoveShrinks(blocks, key);
          blocks := blocks - {key};
          invalidated := invalidated + 1;
        }
        keys := keys - {key};
      }
      assert blocks == BlockCache.Evict(was, addr, len);
    }

    /** The `onWrite` hook, called for each store of a turn. */
    method Deliver(log: seq<U32>)
      modifies this`blocks, this`invalidated
      ensures blocks == BlockCache.EvictAll(old(blocks), log)
    {
      for i := 0 to |log|
        invariant BlockCache.EvictAll(old(blocks), log) == BlockCache.EvictAll(blocks, log[i..])
      {
        assert log[i..][1..] == log[i + 1..];
        Invalidate(log[i], 1);
      }
    }

    /** `compile`: the loop over pc, up to a terminal instruction or a limit. */
    method CompileBlock(mem: Memory, start: U32) returns (r: Option<Block>)
      ensures r == Compile(cfg, mem, start)
    {
      hide Decode, At, Wrap;
      var ops: seq<Closure>, len: nat, terminal, i: nat := [], 0, false, 0;
      PrependNothing(CompileFrom(cfg, mem, start, 0, 0));
      while i < cfg.maxBlockInsns && Wrap(len) < cfg.maxBlockBytes && !terminal
        invariant terminal ==> CompileFrom(cfg, mem, start, 0, 0) == Some(Code(ops, len, true))
        invariant !terminal ==> CompileFrom(cfg, mem, start, 0, 0) ==
                                Prepend(ops, CompileFrom(cfg, mem, start, len, i))
        decreases !terminal, cfg.maxBlockInsns - i
      {
        match Decode(mem, At(start, len)) {
          case None => return None;
          case Some(d) =>
            PrependMore(ops, d.op, CompileFrom(cfg, mem, start, len + d.size, i + 1));
            ops, len, terminal, i := ops + [d.op], len + d.size, d.terminal, i + 1;
        }
      }
      assert CompileFrom(cfg, mem, start, 0, 0) == Some(Code(ops, len, terminal)) by {
        if !terminal { assert ops + [] == ops; }
      }
      if ops == [] { return None; }
      return Some(Block(start, At(start, len), len, ops, terminal));
    }

    /** `block.run`: every closure in turn, however memory changes meanwhile. */
    method Execute(b: Block, cpu: Cpu) returns (raised: bool)
      modifies cpu
      ensures RunBlock(world, b, old(cpu.state)) == if raised then Stop(cpu.state) else Next(cpu.state)
    {
      hide RunOp;
      for i := 0 to |b.ops|
        invariant RunOps(world, b.ops, old(cpu.state)) == RunOps(world, b.ops[i..], cpu.state)
      {
        assert b.ops[i..][1..] == b.ops[i + 1..];
        match RunOp(world, b.ops[i], cpu.state) {
          case Stop(t) => cpu.state := t; return true;
          case Next(t) => cpu.state := t;
        }
      }
      if !b.terminal { cpu.state := cpu.state.(eip := b.end); }
      return false;
    }

    /** `run`. The ghost result counts the turns of the loop. The loop terminates
        and leaves a well-formed cache whatever the cache held; with a coherent
        cache and clean turns it is the interpreter's run, overshooting the limit
        by less than a block. */
    method Run(cpu: Cpu, maxSteps: nat) returns (exit: Exit, ghost n: nat)
      requires BlockCache.WellFormed(blocks)
      modifies this, cpu
      ensures BlockCache.Run(world, cfg, old(Cache()), old(cpu.state), n) ==
              BlockCache.Tier(Cache(), if exit.Raised? then Stop(cpu.state) else Next(cpu.state))
      ensures BlockCache.WellFormed(blocks)
      ensures exit.StepLimit? ==> cpu.state.steps >= maxSteps
      ensures BlockCache.Coherent(cfg, old(blocks), old(cpu.state.mem)) ==>
                BlockCache.Coherent(cfg, blocks, cpu.state.mem)
      ensures (&& BlockCache.Coherent(cfg, old(blocks), old(cpu.state.mem))
               && BlockCache.CleanRun(world, cfg, old(Cache()), old(cpu.state), n)) ==>
                match exit
                case Raised => BlockCache.StopMatches(world, old(cpu.state), cpu.state)
                case StepLimit =>
                  && cpu.state.steps >= old(cpu.state.steps) + n
                  && Interp(world, old(cpu.state), cpu.state.steps - old(cpu.state.steps)) == Next(cpu.state)
                  && (old(cpu.state.steps) < maxSteps && cfg.maxBlockInsns > 0 ==>
                        cpu.state.steps <= maxSteps + cfg.maxBlockInsns - 1)
    {
      hide BlockCache.Coherent, BlockCache.WellFormed, BlockCache.Turned, BlockCache.StopMatches, Interp;
      ghost var cache0, m0 := Cache(), cpu.state;
      n := 0;
      while cpu.state.steps < maxSteps
        invariant BlockCache.Run(world, cfg, cache0, m0, n) == BlockCache.Tier(Cache(), Next(cpu.state))
        invariant BlockCache.WellFormed(blocks)
        invariant n > 0 ==> InLimit(cache0, m0, n, cpu.state.steps, maxSteps)
        decreases maxSteps - cpu.state.steps
      {
        ghost var cache1, m1 := Cache(), cpu.state;
        var raised := TurnOnce(cpu);
        n := n + 1;
        BlockCache.TurnProgress(world, cfg, cache1, m1);
        if raised {
          Conclude(cache0, m0, n);
          return Raised, n;
        }
        TurnInLimit(cache0, m0, n - 1, maxSteps);
      }
      Conclude(cache0, m0, n);
      return StepLimit, n;
    }

    /** In a clean run from a coherent cache, `steps` overshoots by less than a
        block. */
    ghost predicate InLimit(cache0: BlockCache.Cache, m0: Machine, n: nat, steps: nat, maxSteps: nat) {
      (&& BlockCache.Coherent(cfg, cache0.blocks, m0.mem)
       && BlockCache.CleanRun(world, cfg, cache0, m0, n)
       && cfg.maxBlockInsns > 0) ==> steps <= maxSteps + cfg.maxBlockInsns - 1
    }

    lemma TurnInLimit(cache0: BlockCache.Cache, m0: Machine, n: nat, maxSteps: nat)
      requires BlockCache.Run(world, cfg, cache0, m0, n).out.Next?
      requires BlockCache.Run(world, cfg, cache0, m0, n).out.m.steps < maxSteps
      ensures var t := BlockCache.Run(world, cfg, cache0, m0, n + 1).out;
              t.Next? ==> InLimit(cache0, m0, n + 1, t.m.steps, maxSteps)
    {
      hide BlockCache.Coherent, BlockCache.CleanTurn, BlockCache.Turned, Interp;
      if BlockCache.Coherent(cfg, cache0.blocks, m0.mem) && BlockCache.CleanRun(world, cfg, cache0, m0, n + 1) {
        var t := BlockCache.Run(world, cfg, cache0, m0, n);
        BlockCache.RunCoherent(world, cfg, cache0, m0, n);
        assert BlockCache.CleanTurn(world, cfg, t.cache, t.out.m);
        BlockCache.TurnSimulates(world, cfg, t.cache, t.out.m);
      }
    }

    lemma Conclude(cache0: BlockCache.Cache, m0: Machine, n: nat)
      ensures var t := BlockCache.Run(world, cfg, cache0, m0, n);
              BlockCache.Coherent(cfg, cache0.blocks, m0.mem) ==>
                && BlockCache.Coherent(cfg, t.cache.blocks, t.out.m.mem)
                && (BlockCache.CleanRun(world, cfg, cache0, m0, n) ==>
                     match t.out
                     case Next(m) => m.steps >= m0.steps + n && Interp(world, m0, m.steps - m0.steps) == Next(m)
                     case Stop(m) => BlockCache.StopMatches(world, m0, m))
    {
      hide *;
      if BlockCache.Coherent(cfg, cache0.blocks, m0.mem) {
        BlockCache.RunCoherent(world, cfg, cache0, m0, n);
        if BlockCache.CleanRun(world, cfg, cache0, m0, n) {
          BlockCache.TierSimulates(world, cfg, cache0, m0, n);
        }
      }
    }

    /** The body of the loop in `run`. */
    method TurnOnce(cpu: Cpu) returns (raised: bool)
      modifies this, cpu
      ensures BlockCache.Turned(world, cfg, old(Cache()), old(cpu.state)) ==
              BlockCache.Tier(Cache(), if raised then Stop(cpu.state) else Next(cpu.state))
      ensures executed + bailed == old(executed + bailed) + 1
    {
      hide Step, RunOps, CompileFrom;
      ghost var m0 := cpu.state;
      var before, eip := cpu.state.mem, cpu.state.eip;
      var block: Option<Block> := None;
      if eip in blocks {
        block := Some(blocks[eip]);
      } else {
        var n := (if eip in hits then hits[eip] else 0) + 1;
        hits := hits[eip := n];
        if n >= cfg.hotThreshold {
          block := CompileBlock(cpu.state.mem, eip);
          if block.Some? {
            blocks := blocks[eip := block.value];
            compiled := compiled + 1;
          }
        }
      }
      assert BlockCache.Select(cfg, old(Cache()), m0.mem, m0.eip) == BlockCache.Turn(Cache(), block);
      match block {
        case Some(b) =>
          executed := executed + 1;
          raised := Execute(b, cpu);
        case None =>
          bailed := bailed + 1;
          var o := Step(world, cpu.state);
          cpu.state, raised := o.m, o.Stop?;
      }
      Deliver(BlockCache.NewWrites(before, cpu.state.mem));
    }
  }

  lemma RemoveShrinks(m: BlockCache.Blocks, key: U32)
    requires key in m
    ensures |m - {key}| == |m| - 1
  {
    assert (m - {key}).Keys == m.Keys - {key};
    assert |m| == |m.Keys| && |m - {key}| == |(m - {key}).Keys|;
  }

  /** Code compiled later, behind closures already emitted. */
  function Prepend(ops: seq<Closure>, c: Option<Code>): Option<Code> {
    match c case None => None case Some(c) => Some(Code(ops + c.ops, c.len, c.terminal))
  }

  lemma PrependNothing(c: Option<Code>)
    ensures Prepend([], c) == c
  {
    if c.Some? { assert [] + c.value.ops == c.value.ops; }
  }

  lemma PrependMore(ops: seq<Closure>, op: Closure, c: Option<Code>)
    ensures Prepend(ops + [op], c) == Prepend(ops, Prepend([op], c))
  {
    if c.Some? { assert ops + [op] + c.value.ops == ops + ([op] + c.value.ops); }
  }
}
