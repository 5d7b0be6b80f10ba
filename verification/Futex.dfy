/** `FutexTable` (src/sync.js) and the futex case of the system call dispatcher:
    waiters, wakes and timeouts, under every interleaving. */
module Futex {
  import opened Words
  import opened Buffers

  /** A waiter's number; waiters are numbered in the order they were enqueued. */
  type Id = nat

  /** The table: per address, the waiters in arrival order, and the ids whose
      timer is running. */
  datatype Table = Table(waiters: map<U32, seq<Id>>, armed: set<Id>)

  datatype Result = Woken | TimedOut

  // ---- the table's operations ----------------------------------------------------------

  function ListAt(t: Table, a: U32): seq<Id> { if a in t.waiters then t.waiters[a] else [] }

  /** Stores a list, dropping the key when the list is empty. */
  function PutList(t: Table, a: U32, list: seq<Id>): Table {
    if list == [] then t.(waiters := t.waiters - {a}) else t.(waiters := t.waiters[a := list])
  }

  function Enqueue(t: Table, a: U32, id: Id, timeout: bool): Table {
    Table(t.waiters[a := ListAt(t, a) + [id]], if timeout then t.armed + {id} else t.armed)
  }

  /** `_remove`: the first occurrence only, and nothing if there is none. */
  function Without(list: seq<Id>, id: Id): seq<Id> {
    if list == [] then [] else if list[0] == id then list[1..] else [list[0]] + Without(list[1..], id)
  }

  function Remove(t: Table, a: U32, id: Id): Table {
    if a in t.waiters then PutList(t, a, Without(t.waiters[a], id)) else t
  }

  /** The waiters a wake of `count` resolves, in order. */
  function WokenBy(t: Table, a: U32, count: nat): seq<Id> {
    ListAt(t, a)[..Min(count, |ListAt(t, a)|)]
  }

  function Ids(list: seq<Id>): set<Id> { set i | i in list }

  function Wake(t: Table, a: U32, count: nat): Table {
    var n := |WokenBy(t, a, count)|;
    if a in t.waiters then PutList(t.(armed := t.armed - Ids(WokenBy(t, a, count))), a, t.waiters[a][n..]) else t
  }

  // ---- runs -------------------------------------------------------------------------------

  /** A forked process has a memory of its own but shares its parent's table, where
      waiters are kept by address alone (src/runtime.js:54). */
  type Space = nat
  type Memories = map<(Space, U32), U32>

  /** What can happen next: a thread's futex system call in some address space, a
      timer, or a store. */
  datatype Event =
    | SysWait(space: Space, addr: U32, expected: U32, timeout: bool)
    | SysWake(addr: U32, count: nat)
    | Timer(id: Id)
    | Store(space: Space, addr: U32, value: U32)

  /** A waiter's word, the value it saw there, and whether it set a timeout. */
  datatype Call = Call(space: Space, addr: U32, expected: U32, timeout: bool)

  /** `calls` lists every enqueued wait; `settled` every `resolve` call made. */
  datatype State = State(mem: Memories, table: Table, calls: seq<Call>, settled: seq<(Id, Result)>)

  function Start(mem: Memories): State { State(mem, Table(map[], {}), [], []) }

  function Resolve(ids: seq<Id>, r: Result): seq<(Id, Result)> {
    seq(|ids|, i requires 0 <= i < |ids| => (ids[i], r))
  }

  /** The dispatcher: a wait compares and enqueues in one step (a mismatch is
      EAGAIN, an unmapped word faults); a wake of 0 counts as 1. A timer that is
      not running does nothing. */
  function Step(s: State, e: Event): State {
    match e
    case SysWait(p, a, expected, timeout) =>
      if (p, a) in s.mem && s.mem[(p, a)] == expected then
        s.(table := Enqueue(s.table, a, |s.calls|, timeout), calls := s.calls + [Call(p, a, expected, timeout)])
      else s
    case SysWake(a, count) =>
      var n := if count == 0 then 1 else count;
      s.(table := Wake(s.table, a, n), settled := s.settled + Resolve(WokenBy(s.table, a, n), Woken))
    case Timer(id) =>
      if id in s.table.armed && id < |s.calls| then
        s.(table := Remove(s.table, s.calls[id].addr, id).(armed := s.table.armed - {id}),
           settled := s.settled + [(id, TimedOut)])
      else s
    case Store(p, a, v) => s.(mem := s.mem[(p, a) := v])
  }

  function Run(s: State, es: seq<Event>): State
    decreases |es|
  {
    if es == [] then s else Run(Step(s, es[0]), es[1..])
  }

  // ---- the invariant ------------------------------------------------------------------------

  ghost predicate Settled(s: State, id: Id) { exists i :: 0 <= i < |s.settled| && s.settled[i].0 == id }

  ghost predicate Pending(s: State, id: Id) { id < |s.calls| && !Settled(s, id) }

  ghost predicate Ascending(list: seq<Id>) { forall i, j :: 0 <= i < j < |list| ==> list[i] < list[j] }

  /** No empty list is kept, lists are in arrival order, and they hold only
      pending waiters, each under its own address. */
  ghost predicate ListsOk(s: State) {
    forall a :: a in s.table.waiters ==> ListOk(s, a, s.table.waiters[a])
  }

  ghost predicate ListOk(s: State, a: U32, list: seq<Id>) {
    list != [] && Ascending(list) && forall i :: 0 <= i < |list| ==> Pending(s, list[i]) && s.calls[list[i]].addr == a
  }

  /** Every pending waiter is in the table. */
  ghost predicate AllListed(s: State) {
    forall id: Id :: Pending(s, id) ==> id in ListAt(s.table, s.calls[id].addr)
  }

  /** A timer runs exactly for each pending waiter that asked for one. */
  ghost predicate TimersOk(s: State) {
    forall id: Id :: id in s.table.armed <==> Pending(s, id) && s.calls[id].timeout
  }

  /** Every waiter is resolved at most once, and only waiters are. */
  ghost predicate Once(s: State) {
    && (forall i, j :: 0 <= i < j < |s.settled| ==> s.settled[i].0 != s.settled[j].0)
    && (forall i :: 0 <= i < |s.settled| ==> s.settled[i].0 < |s.calls|)
  }

  ghost predicate Good(s: State) { ListsOk(s) && AllListed(s) && TimersOk(s) && Once(s) }

  lemma StartGood(mem: Memories)
    ensures Good(Start(mem))
  {
  }

  /** One call more, asleep at the end of its address's list. */
  ghost predicate Sleeps(s: State, t: State, call: Call) {
    && t.calls == s.calls + [call] && t.settled == s.settled
    && t.table == Enqueue(s.table, call.addr, |s.calls|, call.timeout)
  }

  lemma AddedPending(s: State, t: State, call: Call)
    requires Once(s) && Sleeps(s, t, call)
    ensures forall id: Id :: Pending(t, id) <==> Pending(s, id) || id == |s.calls|
  {
    assert !Settled(s, |s.calls|);
    forall id: Id ensures Settled(t, id) <==> Settled(s, id) {}
  }

  lemma AddedLists(s: State, t: State, call: Call)
    requires ListsOk(s) && Sleeps(s, t, call)
    requires forall id: Id :: Pending(t, id) <==> Pending(s, id) || id == |s.calls|
    ensures ListsOk(t)
  {
    hide Settled;
    forall b | b in t.table.waiters ensures ListOk(t, b, t.table.waiters[b]) {
      if b in s.table.waiters { assert ListOk(s, b, s.table.waiters[b]); }
      ListedCalls(s, b);
    }
  }

  lemma ListedCalls(s: State, b: U32)
    requires ListsOk(s)
    ensures forall i :: 0 <= i < |ListAt(s.table, b)| ==> ListAt(s.table, b)[i] < |s.calls|
  {
    if b in s.table.waiters { assert ListOk(s, b, s.table.waiters[b]); }
  }

  lemma AddedListed(s: State, t: State, call: Call)
    requires AllListed(s) && Sleeps(s, t, call)
    requires forall id: Id :: Pending(t, id) <==> Pending(s, id) || id == |s.calls|
    ensures AllListed(t)
  {
    forall id: Id | Pending(t, id) ensures id in ListAt(t.table, t.calls[id].addr) {
      if id == |s.calls| { assert t.table.waiters[call.addr][|ListAt(s.table, call.addr)|] == id; }
      else { assert Pending(s, id); }
    }
  }

  lemma AddedTimers(s: State, t: State, call: Call)
    requires TimersOk(s) && Sleeps(s, t, call)
    requires forall id: Id :: Pending(t, id) <==> Pending(s, id) || id == |s.calls|
    ensures TimersOk(t)
  {
    forall id: Id ensures id in t.table.armed <==> Pending(t, id) && t.calls[id].timeout {
      assert id in s.table.armed <==> Pending(s, id) && s.calls[id].timeout;
    }
  }

  lemma WaitGood(s: State, p: Space, a: U32, expected: U32, timeout: bool)
    requires Good(s)
    ensures Good(Step(s, SysWait(p, a, expected, timeout)))
  {
    hide ListsOk, AllListed, TimersOk, Enqueue;
    var t, call := Step(s, SysWait(p, a, expected, timeout)), Call(p, a, expected, timeout);
    if (p, a) in s.mem && s.mem[(p, a)] == expected {
      AddedPending(s, t, call);
      AddedLists(s, t, call);
      AddedListed(s, t, call);
      AddedTimers(s, t, call);
    }
  }

  /** Resolving the front of one list, or one entry of it: `gone` leaves the list
      of address a, `list` stays. */
  lemma SettleGood(s: State, t: State, a: U32, gone: seq<Id>, list: seq<Id>, r: Result)
    requires Good(s) && a in s.table.waiters
    requires t.calls == s.calls && t.settled == s.settled + Resolve(gone, r)
    requires t.table.waiters == PutList(s.table, a, list).waiters
    requires t.table.armed == s.table.armed - Ids(gone)
    requires Ascending(gone) && Ascending(list)
    requires forall id: Id :: id in s.table.waiters[a] <==> id in gone || id in list
    requires forall id: Id :: id in gone ==> id !in list
    ensures Good(t)
  {
    assert ListOk(s, a, s.table.waiters[a]);
    forall id: Id ensures Settled(t, id) <==> Settled(s, id) || id in gone { SettledMore(s, t, gone, r, id); }
    forall i | 0 <= i < |gone| ensures Pending(s, gone[i]) && s.calls[gone[i]].addr == a { assert gone[i] in s.table.waiters[a]; }
    forall b | b in t.table.waiters ensures ListOk(t, b, t.table.waiters[b]) {
      SettleList(s, t, a, gone, list, b);
    }
    forall id: Id | Pending(t, id) ensures id in ListAt(t.table, t.calls[id].addr) { assert Pending(s, id); }
    forall i, j | 0 <= i < j < |t.settled| ensures t.settled[i].0 != t.settled[j].0 {
      if i < |s.settled| <= j { assert !Settled(s, gone[j - |s.settled|]); }
    }
  }

  lemma SettledMore(s: State, t: State, gone: seq<Id>, r: Result, id: Id)
    requires t.settled == s.settled + Resolve(gone, r)
    ensures Settled(t, id) <==> Settled(s, id) || id in gone
  {
    if Settled(s, id) {
      var i :| 0 <= i < |s.settled| && s.settled[i].0 == id;
      assert t.settled[i].0 == id;
    }
    if id in gone {
      var i :| 0 <= i < |gone| && gone[i] == id;
      assert t.settled[|s.settled| + i].0 == id;
    }
  }

  lemma SettleList(s: State, t: State, a: U32, gone: seq<Id>, list: seq<Id>, b: U32)
    requires ListsOk(s) && a in s.table.waiters && t.calls == s.calls
    requires t.table.waiters == PutList(s.table, a, list).waiters && b in t.table.waiters
    requires Ascending(list)
    requires forall id: Id :: Settled(t, id) <==> Settled(s, id) || id in gone
    requires forall id: Id :: id in s.table.waiters[a] <==> id in gone || id in list
    requires forall id: Id :: id in gone ==> id !in list
    ensures ListOk(t, b, t.table.waiters[b])
  {
    assert ListOk(s, a, s.table.waiters[a]);
    var l := t.table.waiters[b];
    if b == a {
      forall i | 0 <= i < |l| ensures Pending(t, l[i]) && t.calls[l[i]].addr == a { assert l[i] in s.table.waiters[a]; }
    } else {
      assert ListOk(s, b, s.table.waiters[b]);
      forall id: Id | id in gone ensures id < |s.calls| && s.calls[id].addr == a { assert id in s.table.waiters[a]; }
      forall i | 0 <= i < |l| ensures Pending(t, l[i]) { assert l[i] !in gone; }
    }
  }

  lemma WakeGood(s: State, a: U32, count: nat)
    requires Good(s)
    ensures Good(Step(s, SysWake(a, count)))
  {
    var t := Step(s, SysWake(a, count));
    var c := if count == 0 then 1 else count;
    var gone := WokenBy(s.table, a, c);
    if a in s.table.waiters {
      var l := s.table.waiters[a];
      assert ListOk(s, a, l) && gone == l[..|gone|];
      SplitList(l, |gone|);
      hide Good, Pending, Resolve;
      SettleGood(s, t, a, gone, l[|gone|..], Woken);
    } else {
      assert Resolve(gone, Woken) == [];
      assert t.settled == s.settled;
    }
  }

  lemma {:induction false} WithoutOne(list: seq<Id>, id: Id)
    requires Ascending(list) && id in list
    ensures Ascending(Without(list, id)) && id !in Without(list, id)
    ensures forall j: Id :: j in list <==> j == id || j in Without(list, id)
  {
    assert list == [list[0]] + list[1..];
    if list[0] != id {
      var w := Without(list[1..], id);
      WithoutOne(list[1..], id);
      forall k | 0 <= k < |w| ensures list[0] < w[k] { assert w[k] in list[1..]; }
    }
  }

  lemma SplitList(l: seq<Id>, n: nat)
    requires Ascending(l) && n <= |l|
    ensures Ascending(l[..n]) && Ascending(l[n..])
    ensures forall id: Id :: id in l <==> id in l[..n] || id in l[n..]
    ensures forall id: Id :: id in l[..n] ==> id !in l[n..]
  {
    assert l == l[..n] + l[n..];
  }

  lemma TimerGood(s: State, id: Id)
    requires Good(s)
    ensures Good(Step(s, Timer(id)))
  {
    var t := Step(s, Timer(id));
    if id in s.table.armed && id < |s.calls| {
      var a := s.calls[id].addr;
      assert Pending(s, id) && id in ListAt(s.table, a);
      assert ListOk(s, a, s.table.waiters[a]);
      WithoutOne(s.table.waiters[a], id);
      assert t.settled == s.settled + Resolve([id], TimedOut);
      SettleGood(s, t, a, [id], Without(s.table.waiters[a], id), TimedOut);
    }
  }

  lemma StepGood(s: State, e: Event)
    requires Good(s)
    ensures Good(Step(s, e))
  {
    hide Step, Good;
    match e
    case SysWait(p, a, expected, timeout) => WaitGood(s, p, a, expected, timeout);
    case SysWake(a, count) => WakeGood(s, a, count);
    case Timer(id) => TimerGood(s, id);
    case Store(p, a, v) => StoreGood(s, p, a, v);
  }

  lemma StoreGood(s: State, p: Space, a: U32, v: U32)
    requires Good(s)
    ensures Good(Step(s, Store(p, a, v)))
  {
    var t := Step(s, Store(p, a, v));
    forall id: Id ensures Pending(t, id) <==> Pending(s, id) {}
    forall b | b in t.table.waiters ensures ListOk(t, b, t.table.waiters[b]) { assert ListOk(s, b, s.table.waiters[b]); }
  }

  /** Over every interleaving of waits, wakes, timeouts and stores, the table is in
      order: see Good. */
  lemma {:induction false} RunGood(s: State, es: seq<Event>)
    requires Good(s)
    ensures Good(Run(s, es))
    decreases |es|
  {
    hide Good, Step;
    if es != [] {
      StepGood(s, es[0]);
      RunGood(Step(s, es[0]), es[1..]);
    }
  }

  // ---- who settles whom ------------------------------------------------------------------

  /** A wait goes to sleep exactly when the word still has the value expected; the
      sleeper is last in its address's line, its timer running if it asked. */
  lemma WaitSleepsIff(s: State, p: Space, a: U32, expected: U32, timeout: bool)
    requires Good(s)
    ensures var (t, id) := (Step(s, SysWait(p, a, expected, timeout)), |s.calls|);
            if (p, a) in s.mem && s.mem[(p, a)] == expected then
              && Pending(t, id) && t.calls == s.calls + [Call(p, a, expected, timeout)]
              && ListAt(t.table, a) == ListAt(s.table, a) + [id] && (id in t.table.armed <==> timeout)
              && t.settled == s.settled && t.mem == s.mem
            else t == s
  {
    if (p, a) in s.mem && s.mem[(p, a)] == expected {
      assert !Settled(s, |s.calls|);
      assert |s.calls| !in s.table.armed;
    }
  }

  /** The timer of a waiter settles that waiter and no other, as timed out, as long as
      the waiter is pending and asked for it; otherwise it does nothing. */
  lemma TimerSettles(s: State, id: Id)
    requires Good(s)
    ensures var t := Step(s, Timer(id));
            if Pending(s, id) && s.calls[id].timeout then
              && t.settled == s.settled + [(id, TimedOut)] && t.calls == s.calls && t.mem == s.mem
              && id !in ListAt(t.table, s.calls[id].addr)
              && forall other: Id :: Pending(t, other) <==> Pending(s, other) && other != id
            else t == s
  {
    hide Good;
    var t := Step(s, Timer(id));
    TimersExact(s, id);
    TimerGood(s, id);
    if Pending(s, id) && s.calls[id].timeout {
      assert t.settled == s.settled + Resolve([id], TimedOut);
      forall other: Id ensures Settled(t, other) <==> Settled(s, other) || other in [id] {
        SettledMore(s, t, [id], TimedOut, other);
      }
      NotListed(t, id);
    }
  }

  lemma TimersExact(s: State, id: Id)
    requires Good(s)
    ensures id in s.table.armed <==> Pending(s, id) && s.calls[id].timeout
  {
  }

  lemma NotListed(s: State, id: Id)
    requires Good(s) && id < |s.calls| && !Pending(s, id)
    ensures id !in ListAt(s.table, s.calls[id].addr)
  {
    var a := s.calls[id].addr;
    if a in s.table.waiters { assert ListOk(s, a, s.table.waiters[a]); }
  }

  /** The event that a result comes from: a wake at the waiter's address, or the
      timer that it asked for. */
  predicate Cause(e: Event, call: Call, id: Id, r: Result) {
    match r
    case Woken => e.SysWake? && e.addr == call.addr
    case TimedOut => e == Timer(id) && call.timeout
  }

  /** Every result a step adds has its cause in the event. */
  lemma StepCauses(s: State, e: Event, i: nat)
    requires Good(s) && |s.settled| <= i < |Step(s, e).settled|
    ensures Step(s, e).settled[..|s.settled|] == s.settled
    ensures var (id, r) := Step(s, e).settled[i]; id < |s.calls| && Cause(e, s.calls[id], id, r)
  {
    var t := Step(s, e);
    if e.SysWake? {
      var woken := WokenBy(s.table, e.addr, if e.count == 0 then 1 else e.count);
      assert t.settled[i] == (woken[i - |s.settled|], Woken);
      assert woken[i - |s.settled|] == ListAt(s.table, e.addr)[i - |s.settled|];
      assert ListOk(s, e.addr, s.table.waiters[e.addr]);
    } else {
      assert e.Timer?;
      TimersExact(s, e.id);
    }
  }

  /** Over every run: a result that was not there before was caused by one of the
      run's events. */
  lemma {:induction false} RunCauses(s: State, es: seq<Event>, i: nat) returns (j: nat)
    requires Good(s) && |s.settled| <= i < |Run(s, es).settled|
    ensures j < |es|
    ensures var (t, (id, r)) := (Run(s, es), Run(s, es).settled[i]);
            id < |t.calls| && Cause(es[j], t.calls[id], id, r)
    decreases |es|
  {
    hide Step, Good, Cause;
    var s1 := Step(s, es[0]);
    StepGood(s, es[0]);
    RunKeeps(s1, es[1..]);
    if i < |s1.settled| {
      StepCauses(s, es[0], i);
      SettledStays(s, es[0], 0);
      var (t, id) := (Run(s, es), s1.settled[i].0);
      assert t.settled[i] == s1.settled[i] && t.calls[id] == s1.calls[id] == s.calls[id];
      j := 0;
    } else {
      var k := RunCauses(s1, es[1..], i);
      assert es[1..][k] == es[k + 1];
      j := k + 1;
    }
  }

  /** A run forgets no wait and no result. */
  lemma {:induction false} RunKeeps(s: State, es: seq<Event>)
    ensures s.calls <= Run(s, es).calls && s.settled <= Run(s, es).settled
    decreases |es|
  {
    if es != [] { RunKeeps(Step(s, es[0]), es[1..]); }
  }

  // ---- wakes ---------------------------------------------------------------------------------

  ghost function PendingAt(s: State, a: U32): set<Id> {
    set id: Id | 0 <= id < |s.calls| && Pending(s, id) && s.calls[id].addr == a
  }

  lemma {:induction false} ElementCount(list: seq<Id>)
    requires Ascending(list)
    ensures |set id: Id | id in list| == |list|
  {
    if list != [] {
      var n := |list| - 1;
      ElementCount(list[..n]);
      assert (set id: Id | id in list) == (set id: Id | id in list[..n]) + {list[n]} by {
        assert list == list[..n] + [list[n]];
      }
    }
  }

  /** The list of an address is the pending waiters there, oldest first. */
  lemma ListIsPending(s: State, a: U32)
    requires Good(s)
    ensures Ascending(ListAt(s.table, a)) && (set id: Id | id in ListAt(s.table, a)) == PendingAt(s, a)
    ensures |ListAt(s.table, a)| == |PendingAt(s, a)|
  {
    var l := ListAt(s.table, a);
    if a in s.table.waiters { assert ListOk(s, a, l); }
    forall id: Id ensures id in l <==> id in PendingAt(s, a) {}
    ElementCount(l);
  }

  /** A wake resolves min(count, pending) of the waiters of its address, and
      always the ones that have waited longest. */
  lemma WakeFifo(s: State, a: U32, count: nat)
    requires Good(s)
    ensures var woken := WokenBy(s.table, a, count);
            && |woken| == Min(count, |PendingAt(s, a)|)
            && (forall i :: 0 <= i < |woken| ==> woken[i] in PendingAt(s, a))
            && (forall i, id: Id :: 0 <= i < |woken| && id in PendingAt(s, a) && id !in woken ==> woken[i] < id)
  {
    ListIsPending(s, a);
    var l, woken := ListAt(s.table, a), WokenBy(s.table, a, count);
    forall i | 0 <= i < |woken| ensures woken[i] in PendingAt(s, a) { assert woken[i] == l[i] && l[i] in l; }
    forall i, id: Id | 0 <= i < |woken| && id in PendingAt(s, a) && id !in woken ensures woken[i] < id {
      assert id in l;
      var j :| 0 <= j < |l| && l[j] == id;
      assert forall x :: 0 <= x < |woken| ==> woken[x] == l[x] && l[x] in woken;
    }
  }

  /** The waiters of the address, of any space, that came before this one. */
  ghost function Ahead(s: State, a: U32, id: Id): set<Id> { set x | x in PendingAt(s, a) && x < id }

  lemma AheadSize(s: State, a: U32, l: seq<Id>, k: nat)
    requires Ascending(l) && (set x: Id | x in l) == PendingAt(s, a) && k < |l|
    ensures |Ahead(s, a, l[k])| == k
  {
    hide PendingAt;
    SplitList(l, k);
    ElementCount(l[..k]);
    forall x: Id ensures x in Ahead(s, a, l[k]) <==> x in l[..k] { BeforeAt(l, k, x); }
    assert Ahead(s, a, l[k]) == (set x: Id | x in l[..k]);
  }

  /** A wake reaches a waiter exactly when fewer than count wait there ahead of it. */
  lemma WokenIff(s: State, a: U32, count: nat, id: Id)
    requires Good(s) && id in PendingAt(s, a)
    ensures id in WokenBy(s.table, a, count) <==> |Ahead(s, a, id)| < count
  {
    hide Good, PendingAt, Ahead, Ascending;
    ListIsPending(s, a);
    var l := ListAt(s.table, a);
    assert id in (set x: Id | x in l);
    var k :| 0 <= k < |l| && l[k] == id;
    AheadSize(s, a, l, k);
    TakenAt(l, k, Min(count, |l|));
  }

  lemma BeforeAt(l: seq<Id>, k: nat, x: Id)
    requires Ascending(l) && k < |l|
    ensures x in l && x < l[k] <==> x in l[..k]
  {
    if x in l {
      var j :| 0 <= j < |l| && l[j] == x;
      if j < k { assert l[..k][j] == x; }
    }
  }

  lemma TakenAt(l: seq<Id>, k: nat, n: nat)
    requires Ascending(l) && k < |l| && n <= |l|
    ensures l[k] in l[..n] <==> k < n
  {
    if k < n { assert l[..n][k] == l[k]; }
  }

  // ---- no wake is lost --------------------------------------------------------------------------

  ghost predicate SleepsAt(s: State, p: Space, a: U32, id: Id) {
    Pending(s, id) && s.calls[id].space == p && s.calls[id].addr == a
  }

  /** The word is v, and nobody sleeps there who saw another value. */
  ghost predicate Current(s: State, p: Space, a: U32, v: U32) {
    && (p, a) in s.mem && s.mem[(p, a)] == v
    && forall id: Id :: SleepsAt(s, p, a, id) ==> s.calls[id].expected == v
  }

  /** The events leave the word at v. */
  predicate Keeps(es: seq<Event>, p: Space, a: U32, v: U32) {
    forall i :: 0 <= i < |es| && es[i].Store? && es[i].space == p && es[i].addr == a ==> es[i].value == v
  }

  lemma {:induction false} SettledStays(s: State, e: Event, id: Id)
    ensures |s.calls| <= |Step(s, e).calls| && Step(s, e).calls[..|s.calls|] == s.calls
    ensures Settled(s, id) ==> Settled(Step(s, e), id)
  {
    if Settled(s, id) {
      var i :| 0 <= i < |s.settled| && s.settled[i].0 == id;
      assert Step(s, e).settled[i].0 == id;
    }
  }

  lemma CurrentStep(s: State, e: Event, p: Space, a: U32, v: U32)
    requires Current(s, p, a, v) && (e.Store? && e.space == p && e.addr == a ==> e.value == v)
    ensures Current(Step(s, e), p, a, v)
  {
    var t := Step(s, e);
    forall id: Id | SleepsAt(t, p, a, id) ensures t.calls[id].expected == v {
      SettledStays(s, e, id);
      if id < |s.calls| {
        assert t.calls[id] == s.calls[id];
        assert SleepsAt(s, p, a, id);
      }
    }
  }

  lemma {:induction false} CurrentRun(s: State, es: seq<Event>, p: Space, a: U32, v: U32)
    requires Current(s, p, a, v) && Keeps(es, p, a, v)
    ensures Current(Run(s, es), p, a, v)
    decreases |es|
  {
    hide Current, Step;
    if es != [] {
      CurrentStep(s, es[0], p, a, v);
      CurrentRun(Step(s, es[0]), es[1..], p, a, v);
    }
  }

  lemma {:induction false} WordKept(s: State, es: seq<Event>, p: Space, a: U32, v: U32)
    requires (p, a) in s.mem && s.mem[(p, a)] == v && Keeps(es, p, a, v)
    ensures (p, a) in Run(s, es).mem && Run(s, es).mem[(p, a)] == v
    decreases |es|
  {
    if es != [] { WordKept(Step(s, es[0]), es[1..], p, a, v); }
  }

  /** Everyone who sleeps on the word and saw another value has fewer than count
      waiters ahead, those of other spaces counted. */
  ghost predicate Enough(s: State, p: Space, a: U32, v: U32, count: nat) {
    forall id: Id :: SleepsAt(s, p, a, id) && s.calls[id].expected != v ==> |Ahead(s, a, id)| < count
  }

  lemma SleeperPending(s: State, p: Space, a: U32, id: Id)
    requires SleepsAt(s, p, a, id)
    ensures id in PendingAt(s, a)
  {
  }

  lemma PendingAfterWake(s: State, a: U32, count: nat, id: Id)
    requires Good(s) && count > 0
    ensures var t := Step(s, SysWake(a, count));
            Pending(t, id) <==> Pending(s, id) && id !in WokenBy(s.table, a, count)
  {
    hide Resolve, WokenBy;
    SettledMore(s, Step(s, SysWake(a, count)), WokenBy(s.table, a, count), Woken, id);
  }

  /** A wake leaves nobody asleep on an old value if and only if it is for enough. */
  lemma WakeSufficesIff(s: State, p: Space, a: U32, v: U32, count: nat)
    requires Good(s) && count > 0 && (p, a) in s.mem && s.mem[(p, a)] == v
    ensures Current(Step(s, SysWake(a, count)), p, a, v) <==> Enough(s, p, a, v, count)
  {
    hide Good, Ahead, WokenBy, Wake, Pending;
    var t := Step(s, SysWake(a, count));
    assert t.calls == s.calls && t.mem == s.mem;
    forall id: Id | SleepsAt(s, p, a, id) ensures SleepsAt(t, p, a, id) <==> |Ahead(s, a, id)| >= count {
      PendingAfterWake(s, a, count, id);
      assert id in PendingAt(s, a) by { SleeperPending(s, p, a, id); }
      WokenIff(s, a, count, id);
    }
    forall id: Id | SleepsAt(t, p, a, id) ensures SleepsAt(s, p, a, id) { PendingAfterWake(s, a, count, id); }
  }

  /** A thread stores v, anything happens that leaves the word at v, the thread
      wakes enough waiters, and again anything happens that leaves the word at v:
      then nobody sleeps on that word who went to sleep on another value, whenever
      their waits fell. The check and the enqueue are one step, so no wake falls
      between them. */
  lemma NoLostWakeup(s: State, p: Space, a: U32, v: U32, mid: seq<Event>, count: nat, after: seq<Event>)
    requires Good(s) && Keeps(mid, p, a, v) && Keeps(after, p, a, v)
    requires count > 0 && Enough(Run(Step(s, Store(p, a, v)), mid), p, a, v, count)
    ensures Current(Run(Step(Run(Step(s, Store(p, a, v)), mid), SysWake(a, count)), after), p, a, v)
  {
    hide Step, Run, Enough, Current, Good, Keeps;
    var s1 := Step(s, Store(p, a, v));
    var s2 := Run(s1, mid);
    StepGood(s, Store(p, a, v));
    RunGood(s1, mid);
    StoreEffect(s, p, a, v);
    WordKept(s1, mid, p, a, v);
    WakeSufficesIff(s2, p, a, v, count);
    CurrentRun(Step(s2, SysWake(a, count)), after, p, a, v);
  }

  /** A wake for everyone who waits at the address, in any space, is enough. */
  lemma AllAreEnough(s: State, p: Space, a: U32, v: U32, count: nat)
    requires count >= |PendingAt(s, a)|
    ensures Enough(s, p, a, v, count)
  {
    hide Pending;
    forall id: Id | SleepsAt(s, p, a, id) ensures |Ahead(s, a, id)| < count {
      assert id in PendingAt(s, a) by { SleeperPending(s, p, a, id); }
      assert Ahead(s, a, id) <= PendingAt(s, a) - {id};
      Smaller(Ahead(s, a, id), PendingAt(s, a) - {id});
    }
  }

  lemma Smaller(a: set<Id>, b: set<Id>)
    requires a <= b
    ensures |a| <= |b|
  {
    assert b == a + (b - a);
  }

  /** A wake that is lost: a waiter of another space, which waits at the same
      address of its own memory, takes it, and the waiter it was for sleeps on
      although its word has changed. */
  lemma StolenWake(a: U32)
    ensures var s := Start(map[(0, a) := 0, (1, a) := 0]);
            var t := Run(s, [SysWait(1, a, 0, false), SysWait(0, a, 0, false), Store(0, a, 1), SysWake(a, 1)]);
            && t.settled == [(0, Woken)] && t.calls == [Call(1, a, 0, false), Call(0, a, 0, false)]
            && t.mem == map[(0, a) := 1, (1, a) := 0] && SleepsAt(t, 0, a, 1)
  {
    hide Step;
    var s := Start(map[(0, a) := 0, (1, a) := 0]);
    TwoWait(a);
    OneWakes(a);
    RunFour(s, SysWait(1, a, 0, false), SysWait(0, a, 0, false), Store(0, a, 1), SysWake(a, 1));
  }

  function BothWait(a: U32, mem: Memories): State {
    State(mem, Table(map[a := [0, 1]], {}), [Call(1, a, 0, false), Call(0, a, 0, false)], [])
  }

  lemma TwoWait(a: U32)
    ensures var mem := map[(0, a) := 0, (1, a) := 0];
            Step(Step(Start(mem), SysWait(1, a, 0, false)), SysWait(0, a, 0, false)) == BothWait(a, mem)
  {
    var s1 := Step(Start(map[(0, a) := 0, (1, a) := 0]), SysWait(1, a, 0, false));
    assert [] + [0] == [0] && [0] + [1] == [0, 1];
    assert s1.table == Table(map[a := [0]], {}) && s1.calls == [Call(1, a, 0, false)];
  }

  lemma OneWakes(a: U32)
    ensures var t := Step(Step(BothWait(a, map[(0, a) := 0, (1, a) := 0]), Store(0, a, 1)), SysWake(a, 1));
            && t.settled == [(0, Woken)] && t.calls == [Call(1, a, 0, false), Call(0, a, 0, false)]
            && t.mem == map[(0, a) := 1, (1, a) := 0] && SleepsAt(t, 0, a, 1)
  {
    var s := Step(BothWait(a, map[(0, a) := 0, (1, a) := 0]), Store(0, a, 1));
    assert WokenBy(s.table, a, 1) == [0];
    assert Resolve([0], Woken) == [(0, Woken)];
  }

  lemma RunFour(s: State, e: Event, f: Event, g: Event, h: Event)
    ensures Run(s, [e, f, g, h]) == Step(Step(Step(Step(s, e), f), g), h)
  {
    hide Step;
    var s3 := Step(Step(Step(s, e), f), g);
    assert [e, f, g, h][1..] == [f, g, h] && [f, g, h][1..] == [g, h] && [g, h][1..] == [h] && [h][1..] == [];
    assert Run(s3, [h]) == Run(Step(s3, h), []);
    assert Run(Step(Step(s, e), f), [g, h]) == Run(s3, [h]);
    assert Run(Step(s, e), [f, g, h]) == Run(Step(Step(s, e), f), [g, h]);
  }

  lemma StoreEffect(s: State, p: Space, a: U32, v: U32)
    ensures Step(s, Store(p, a, v)).mem == s.mem[(p, a) := v]
  {
  }

  // ---- the object ----------------------------------------------------------------------------

  /** Waiters are numbers here; a promise's `resolve` is a reply that the method
      returns, and a timer is running while its waiter is in `armed`. */
  class FutexTable {
    var waiters: map<U32, seq<Id>>
    var armed: set<Id>

    constructor ()
      ensures State() == Table(map[], {})
    {
      waiters, armed := map[], {};
    }

    ghost function State(): Table
      reads this
    {
      Table(waiters, armed)
    }

    method Wait(addr: U32, id: Id, timeout: bool)
      modifies this
      ensures State() == Enqueue(old(State()), addr, id, timeout)
    {
      if timeout { armed := armed + {id}; }
      if addr !in waiters { waiters := waiters[addr := []]; }
      waiters := waiters[addr := waiters[addr] + [id]];
    }

    /** `_remove`: indexOf, splice, and the key goes with its last waiter. */
    method RemoveWaiter(addr: U32, id: Id)
      modifies this`waiters
      ensures State() == Remove(old(State()), addr, id)
    {
      if addr !in waiters { return; }
      var list := waiters[addr];
      var i := 0;
      while i < |list| && list[i] != id
        invariant 0 <= i <= |list| && Without(list, id) == list[..i] + Without(list[i..], id)
      {
        assert list[i..][1..] == list[i + 1..];
        assert list[..i + 1] == list[..i] + [list[i]];
        i := i + 1;
      }
      ghost var was := list;
      if i < |list| {
        assert list[i..][1..] == list[i + 1..];
        list := list[..i] + list[i + 1..];
      } else {
        assert list[i..] == [] && list[..i] + [] == list;
      }
      assert list == Without(was, id);
      if list == [] { waiters := waiters - {addr}; } else { waiters := waiters[addr := list]; }
    }

    /** The timer's callback; it settles the promise with a timeout. */
    method Expire(addr: U32, id: Id)
      modifies this
      ensures State() == Remove(old(State()), addr, id).(armed := old(armed) - {id})
    {
      armed := armed - {id};
      RemoveWaiter(addr, id);
    }

    /** `wake`: shifts waiters off the list, stopping their timers. */
    method WakeUp(addr: U32, count: nat) returns (n: nat, ghost resolved: seq<Id>)
      modifies this
      ensures resolved == WokenBy(old(State()), addr, count) && n == |resolved|
      ensures State() == Wake(old(State()), addr, count)
    {
      resolved, n := [], 0;
      if addr !in waiters { return; }
      var list := waiters[addr];
      while n < count && list != []
        invariant waiters == old(waiters) && n == |resolved| <= count && resolved + list == old(waiters)[addr]
        invariant armed == old(armed) - Ids(resolved)
        decreases |list|
      {
        armed := armed - {list[0]};
        assert resolved + list == (resolved + [list[0]]) + list[1..];
        resolved, n, list := resolved + [list[0]], n + 1, list[1..];
      }
      ghost var was := old(waiters)[addr];
      assert was[|resolved|..] == list && was[..|resolved|] == resolved;
      assert resolved == WokenBy(old(State()), addr, count);
      if list == [] { waiters := waiters - {addr}; } else { waiters := waiters[addr := list]; }
    }
  }
}