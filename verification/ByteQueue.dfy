/** `ByteQueue` (src/io.js): a byte stream with readers that wait for data. */
module ByteQueue {
  import opened Words
  import opened Buffers

  /** A blocked read: how much it wants and which read it is, counting reads in
      the order they were issued. */
  datatype Waiter = Waiter(count: nat, id: nat)

  /** A promise settled by `resolve`. */
  datatype Reply = Reply(id: nat, data: Bytes)

  // ---- the queue as a value --------------------------------------------------------------

  datatype Queue = Queue(content: Bytes, waiters: seq<Waiter>, closed: bool)

  datatype Served = Served(queue: Queue, replies: seq<Reply>)

  /** What a read of up to `count` bytes gets, and what is left. */
  function Front(content: Bytes, count: nat): Bytes { content[..Min(count, |content|)] }
  function Rest(content: Bytes, count: nat): Bytes { content[Min(count, |content|)..] }

  /** Serves waiting readers in turn while there is data, or once closed. */
  function Flush(q: Queue): Served
    decreases |q.waiters|
  {
    if q.waiters == [] || (q.content == [] && !q.closed) then Served(q, [])
    else
      var w := q.waiters[0];
      var s := Flush(Queue(Rest(q.content, w.count), q.waiters[1..], q.closed));
      Served(s.queue, [Reply(w.id, Front(q.content, w.count))] + s.replies)
  }

  function AfterPush(q: Queue, data: Bytes): Served {
    if q.closed || data == [] then Served(q, []) else Flush(q.(content := q.content + data))
  }

  function AfterClose(q: Queue): Served { Flush(q.(closed := true)) }

  function AfterRead(q: Queue, id: nat, count: nat): Served {
    if count == 0 then Served(q, [Reply(id, [])])
    else if q.content != [] then Served(q.(content := Rest(q.content, count)), [Reply(id, Front(q.content, count))])
    else if q.closed then Served(q, [Reply(id, [])])
    else Served(q.(waiters := q.waiters + [Waiter(count, id)]), [])
  }

  // ---- runs --------------------------------------------------------------------------------

  datatype Command = DoPush(data: Bytes) | DoRead(count: nat) | DoClose

  /** A run so far: the queue, one entry per read in issue order (None while it
      waits), the sizes asked for, and everything that was accepted for writing. */
  datatype Run = Run(queue: Queue, results: seq<Option<Bytes>>, counts: seq<nat>, accepted: Bytes)

  const START := Run(Queue([], [], false), [], [], [])

  function Settle(results: seq<Option<Bytes>>, replies: seq<Reply>): (r: seq<Option<Bytes>>)
    ensures |r| == |results|
    decreases |replies|
  {
    if replies == [] then results
    else
      var p := replies[0];
      Settle(if p.id < |results| then results[p.id := Some(p.data)] else results, replies[1..])
  }

  function Step(r: Run, c: Command): Run {
    match c
    case DoPush(data) =>
      var s := AfterPush(r.queue, data);
      Run(s.queue, Settle(r.results, s.replies), r.counts, if r.queue.closed then r.accepted else r.accepted + data)
    case DoRead(count) =>
      var s := AfterRead(r.queue, |r.results|, count);
      Run(s.queue, Settle(r.results + [None], s.replies), r.counts + [count], r.accepted)
    case DoClose =>
      var s := AfterClose(r.queue);
      Run(s.queue, Settle(r.results, s.replies), r.counts, r.accepted)
  }

  function Execute(r: Run, cs: seq<Command>): Run
    decreases |cs|
  {
    if cs == [] then r else Execute(Step(r, cs[0]), cs[1..])
  }

  /** The bytes handed out, read by read in the order the reads were issued. */
  function Delivered(results: seq<Option<Bytes>>): Bytes {
    if results == [] then []
    else Delivered(results[..|results| - 1]) + Contribution(results[|results| - 1])
  }

  function Contribution(r: Option<Bytes>): Bytes { match r case None => [] case Some(b) => b }

  /** The reads that wait are exactly the ones queued, in issue order. */
  ghost predicate WaitersMatch(r: Run) {
    && (forall i, j :: 0 <= i < j < |r.queue.waiters| ==> r.queue.waiters[i].id < r.queue.waiters[j].id)
    && (forall i :: 0 <= i < |r.queue.waiters| ==> WaiterOk(r, r.queue.waiters[i]))
    && (forall k :: 0 <= k < |r.results| && r.results[k] == None ==>
          exists i :: 0 <= i < |r.queue.waiters| && r.queue.waiters[i].id == k)
  }

  ghost predicate WaiterOk(r: Run, w: Waiter) {
    w.id < |r.results| == |r.counts| && r.results[w.id] == None && w.count == r.counts[w.id] && w.count > 0
  }

  /** No byte is lost, duplicated or reordered; the reads that wait are the ones
      queued, and those issued after a waiting one have got nothing; a read gets no
      more than it asked for, and nothing only at the end of the stream. */
  ghost predicate Sound(r: Run) {
    && |r.counts| == |r.results|
    && Delivered(r.results) + r.queue.content == r.accepted
    && WaitersMatch(r)
    && (r.queue.waiters != [] ==> NothingFrom(r.results, r.queue.waiters[0].id))
    && (forall k :: 0 <= k < |r.results| && r.results[k].Some? ==> ResultOk(r, k))
  }

  ghost predicate NothingFrom(results: seq<Option<Bytes>>, from: nat) {
    forall k :: from <= k < |results| ==> Contribution(results[k]) == []
  }

  /** Moreover, readers block only on an empty, open queue. */
  ghost predicate Good(r: Run) {
    Sound(r) && (r.queue.waiters != [] ==> r.queue.content == [] && !r.queue.closed)
  }

  ghost predicate ResultOk(r: Run, k: nat)
    requires k < |r.results| == |r.counts| && r.results[k].Some?
  {
    && |r.results[k].value| <= r.counts[k]
    && (r.results[k].value == [] && r.counts[k] > 0 ==> r.queue.closed && r.queue.content == [])
  }

  lemma {:induction false} DeliveredNothing(results: seq<Option<Bytes>>, from: nat)
    requires from <= |results| && NothingFrom(results, from)
    ensures Delivered(results) == Delivered(results[..from])
  {
    if from < |results| {
      var n := |results| - 1;
      DeliveredNothing(results[..n], from);
      assert results[..n][..from] == results[..from];
      assert Contribution(results[n]) == [];
    } else {
      assert results[..from] == results;
    }
  }

  /** Settling the oldest open read appends to what has been delivered. */
  lemma DeliveredMore(results: seq<Option<Bytes>>, id: nat, data: Bytes)
    requires id < |results| && NothingFrom(results, id)
    ensures Delivered(results[id := Some(data)]) == Delivered(results) + data
  {
    var after := results[id := Some(data)];
    DeliveredNothing(results, id);
    DeliveredNothing(after, id + 1);
    assert after[..id + 1][..id] == results[..id];
    assert after[..id + 1][id] == Some(data);
  }

  lemma DeliveredNew(results: seq<Option<Bytes>>, r: Option<Bytes>)
    ensures Delivered(results + [r]) == Delivered(results) + Contribution(r)
  {
    assert (results + [r])[..|results|] == results;
  }

  /** One turn of the loop in `_flush`. */
  function ServeOne(r: Run): Run
    requires r.queue.waiters != [] && r.queue.waiters[0].id < |r.results|
  {
    var q, w := r.queue, r.queue.waiters[0];
    Run(Queue(Rest(q.content, w.count), q.waiters[1..], q.closed),
        r.results[w.id := Some(Front(q.content, w.count))], r.counts, r.accepted)
  }

  lemma ServeOneSound(r: Run)
    requires Sound(r) && r.queue.waiters != [] && (r.queue.content != [] || r.queue.closed)
    ensures r.queue.waiters[0].id < |r.results| && Sound(ServeOne(r))
  {
    hide Delivered;
    var q, w := r.queue, r.queue.waiters[0];
    assert WaiterOk(r, w);
    var s := ServeOne(r);
    DeliveredMore(r.results, w.id, Front(q.content, w.count));
    assert Front(q.content, w.count) + Rest(q.content, w.count) == q.content;
    ServeOneWaiters(r);
    forall k | 0 <= k < |s.results| && s.results[k].Some? ensures ResultOk(s, k) {
      if k != w.id { assert ResultOk(r, k); }
    }
    if s.queue.waiters != [] {
      var v := s.queue.waiters[0];
      assert v == q.waiters[1];
    }
  }

  lemma ServeOneWaiters(r: Run)
    requires WaitersMatch(r) && r.queue.waiters != []
    requires WaiterOk(r, r.queue.waiters[0])
    ensures WaitersMatch(ServeOne(r))
  {
    var s, w := ServeOne(r), r.queue.waiters[0];
    forall i | 0 <= i < |s.queue.waiters| ensures WaiterOk(s, s.queue.waiters[i]) {
      assert s.queue.waiters[i] == r.queue.waiters[i + 1] && WaiterOk(r, r.queue.waiters[i + 1]);
    }
    forall k | 0 <= k < |s.results| && s.results[k] == None
      ensures exists i :: 0 <= i < |s.queue.waiters| && s.queue.waiters[i].id == k
    {
      var j :| 0 <= j < |r.queue.waiters| && r.queue.waiters[j].id == k;
      assert s.queue.waiters[j - 1].id == k;
    }
  }

  function FlushRun(r: Run): Run {
    var s := Flush(r.queue);
    r.(queue := s.queue, results := Settle(r.results, s.replies))
  }

  lemma {:induction false} FlushGood(r: Run)
    requires Sound(r)
    ensures Good(FlushRun(r))
    decreases |r.queue.waiters|
  {
    hide Sound;
    var q := r.queue;
    if q.waiters == [] || (q.content == [] && !q.closed) {
      assert FlushRun(r) == r;
    } else {
      ServeOneSound(r);
      FlushGood(ServeOne(r));
      FlushTurn(r);
    }
  }

  lemma FlushTurn(r: Run)
    requires r.queue.waiters != [] && (r.queue.content != [] || r.queue.closed)
    requires r.queue.waiters[0].id < |r.results|
    ensures FlushRun(r) == FlushRun(ServeOne(r))
  {
    var q, w := r.queue, r.queue.waiters[0];
    var s := Flush(Queue(Rest(q.content, w.count), q.waiters[1..], q.closed));
    var first := Reply(w.id, Front(q.content, w.count));
    assert ([first] + s.replies)[1..] == s.replies;
  }

  function Pushed(r: Run, data: Bytes): Run {
    r.(queue := r.queue.(content := r.queue.content + data), accepted := r.accepted + data)
  }

  lemma PushSound(r: Run, data: Bytes)
    requires Good(r) && !r.queue.closed
    ensures Sound(Pushed(r, data))
  {
    var m := Pushed(r, data);
    assert Delivered(r.results) + (r.queue.content + data) == r.accepted + data;
    forall i | 0 <= i < |m.queue.waiters| ensures WaiterOk(m, m.queue.waiters[i]) {
      assert WaiterOk(r, r.queue.waiters[i]);
    }
    forall k | 0 <= k < |m.results| && m.results[k].Some? ensures ResultOk(m, k) { assert ResultOk(r, k); }
  }

  lemma PushGood(r: Run, data: Bytes)
    requires Good(r)
    ensures Good(Step(r, DoPush(data)))
  {
    if r.queue.closed || data == [] {
      assert r.accepted + [] == r.accepted;
    } else {
      PushSound(r, data);
      FlushGood(Pushed(r, data));
    }
  }

  lemma CloseSound(r: Run)
    requires Good(r)
    ensures Sound(r.(queue := r.queue.(closed := true)))
  {
    var m := r.(queue := r.queue.(closed := true));
    forall i | 0 <= i < |m.queue.waiters| ensures WaiterOk(m, m.queue.waiters[i]) {
      assert WaiterOk(r, r.queue.waiters[i]);
    }
    forall k | 0 <= k < |m.results| && m.results[k].Some? ensures ResultOk(m, k) { assert ResultOk(r, k); }
  }

  lemma CloseGood(r: Run)
    requires Good(r)
    ensures Good(Step(r, DoClose))
  {
    CloseSound(r);
    FlushGood(r.(queue := r.queue.(closed := true)));
  }

  /** The answer a read gets at once, or None if it has to wait. */
  function Answer(q: Queue, count: nat): Option<Bytes> {
    if count == 0 then Some([]) else if q.content != [] then Some(Front(q.content, count))
    else if q.closed then Some([]) else None
  }

  lemma ReadStep(r: Run, count: nat)
    ensures var s := Step(r, DoRead(count));
            && s.results == r.results + [Answer(r.queue, count)]
            && s.counts == r.counts + [count] && s.accepted == r.accepted && s.queue.closed == r.queue.closed
            && s.queue.waiters == r.queue.waiters + (if Answer(r.queue, count) == None then [Waiter(count, |r.results|)] else [])
            && Contribution(Answer(r.queue, count)) + s.queue.content == r.queue.content
  {
    var replies := AfterRead(r.queue, |r.results|, count).replies;
    if replies != [] {
      assert replies == [Reply(|r.results|, Answer(r.queue, count).value)];
      SettleOne(r.results + [None], replies[0]);
      assert (r.results + [None])[|r.results| := Some(replies[0].data)] == r.results + [Some(replies[0].data)];
    }
  }

  lemma SettleOne(results: seq<Option<Bytes>>, p: Reply)
    requires p.id < |results|
    ensures Settle(results, [p]) == results[p.id := Some(p.data)]
  {
    assert [p][1..] == [];
  }

  lemma ReadGood(r: Run, count: nat)
    requires Good(r)
    ensures Good(Step(r, DoRead(count)))
  {
    hide Step, Delivered, WaitersMatch, Contribution;
    var s, a := Step(r, DoRead(count)), Answer(r.queue, count);
    ReadStep(r, count);
    DeliveredNew(r.results, a);
    assert Delivered(r.results) + Contribution(a) + s.queue.content
        == Delivered(r.results) + (Contribution(a) + s.queue.content);
    ReadWaiters(r, count);
    forall k | 0 <= k < |s.results| && s.results[k].Some? ensures ResultOk(s, k) {
      if k < |r.results| { assert ResultOk(r, k); }
    }
    ReadNothing(r, count);
  }

  lemma ReadNothing(r: Run, count: nat)
    requires Good(r)
    ensures var s := Step(r, DoRead(count));
            s.queue.waiters != [] ==> NothingFrom(s.results, s.queue.waiters[0].id)
  {
    hide Step, Delivered;
    ReadStep(r, count);
    if r.queue.waiters != [] { assert WaiterOk(r, r.queue.waiters[0]); }
  }

  lemma ReadWaiters(r: Run, count: nat)
    requires Good(r)
    ensures WaitersMatch(Step(r, DoRead(count)))
  {
    hide Step, Delivered, Contribution, Answer, ResultOk, NothingFrom;
    var s, a := Step(r, DoRead(count)), Answer(r.queue, count);
    ReadStep(r, count);
    assert a == None ==> count > 0 by { WaitingReads(r.queue, count); }
    WaitersAppended(r, s, a, count);
  }

  lemma WaitingReads(q: Queue, count: nat)
    ensures Answer(q, count) == None ==> count > 0
  {
  }

  lemma WaitersAppended(r: Run, s: Run, a: Option<Bytes>, count: nat)
    requires WaitersMatch(r) && |r.counts| == |r.results| && (a == None ==> count > 0)
    requires s.results == r.results + [a] && s.counts == r.counts + [count]
    requires s.queue.waiters == r.queue.waiters + if a == None then [Waiter(count, |r.results|)] else []
    ensures WaitersMatch(s)
  {
    forall i | 0 <= i < |s.queue.waiters| ensures WaiterOk(s, s.queue.waiters[i]) {
      if i < |r.queue.waiters| { assert WaiterOk(r, r.queue.waiters[i]); }
    }
    forall i, j | 0 <= i < j < |s.queue.waiters| ensures s.queue.waiters[i].id < s.queue.waiters[j].id {
      assert WaiterOk(r, r.queue.waiters[i]);
    }
    forall k | 0 <= k < |s.results| && s.results[k] == None
      ensures exists i :: 0 <= i < |s.queue.waiters| && s.queue.waiters[i].id == k
    {
      if k == |r.results| {
        assert s.queue.waiters[|r.queue.waiters|].id == k;
      } else {
        assert r.results[k] == None;
        var i :| 0 <= i < |r.queue.waiters| && r.queue.waiters[i].id == k;
        assert s.queue.waiters[i].id == k;
      }
    }
  }

  /** Over every run of pushes, reads and closes: what reads were given, in the
      order they were issued, followed by what is still queued, is what was
      accepted; readers wait only on an empty open queue; and a read of a nonzero
      count yields nothing only once the queue is closed and drained. */
  lemma {:induction false} RunGood(r: Run, cs: seq<Command>)
    requires Good(r)
    ensures Good(Execute(r, cs))
    decreases |cs|
  {
    hide Good, Step;
    if cs != [] {
      match cs[0]
      case DoPush(data) => PushGood(r, data); RunGood(Step(r, cs[0]), cs[1..]);
      case DoRead(count) => ReadGood(r, count); RunGood(Step(r, cs[0]), cs[1..]);
      case DoClose => CloseGood(r); RunGood(Step(r, cs[0]), cs[1..]);
    }
  }

  lemma StreamFifo(cs: seq<Command>)
    ensures Good(Execute(START, cs))
  {
    RunGood(START, cs);
  }

  // ---- how much a read gets -----------------------------------------------------------------

  /** Read k has been given all it asked for, or all that had been accepted and not
      given to an earlier read. */
  ghost predicate Filled(r: Run, k: nat)
    requires k < |r.results| == |r.counts|
  {
    r.results[k].Some? ==> |r.results[k].value| == Min(r.counts[k], |r.accepted| - |Delivered(r.results[..k])|)
  }

  lemma DeliveredBefore(r: Run, k: nat)
    requires Sound(r) && k <= |r.results| && NothingFrom(r.results, k)
    ensures |r.accepted| - |Delivered(r.results[..k])| == |r.queue.content|
  {
    DeliveredNothing(r.results, k);
    assert |Delivered(r.results) + r.queue.content| == |r.accepted|;
  }

  lemma ServeOneFills(r: Run)
    requires Sound(r) && r.queue.waiters != [] && (r.queue.content != [] || r.queue.closed)
    ensures var k := r.queue.waiters[0].id;
            && k < |r.results| == |r.counts| && Filled(ServeOne(r), k) && ServeOne(r).results[k].Some?
            && ServeOne(r).counts == r.counts && ServeOne(r).accepted == r.accepted
            && ServeOne(r).results[..k] == r.results[..k] && ServeOne(r).results[k + 1..] == r.results[k + 1..]
  {
    hide Delivered, WaitersMatch;
    var w := r.queue.waiters[0];
    assert WaiterOk(r, w) by { FirstWaiter(r); }
    DeliveredBefore(r, w.id);
    assert ServeOne(r).results[..w.id] == r.results[..w.id];
  }

  lemma FirstWaiter(r: Run)
    requires Sound(r) && r.queue.waiters != []
    ensures WaiterOk(r, r.queue.waiters[0])
    ensures |r.queue.waiters| > 1 ==> r.queue.waiters[0].id < r.queue.waiters[1].id
  {
  }

  /** The reads before the first waiter are not touched by a flush. */
  lemma {:induction false} FlushLeaves(r: Run)
    requires Sound(r)
    ensures var s := FlushRun(r);
            && |s.results| == |r.results| && s.counts == r.counts && s.accepted == r.accepted
            && (forall k :: 0 <= k < |r.results| && r.results[k].Some? ==> s.results[k] == r.results[k])
            && (r.queue.waiters == [] ==> s.results == r.results)
            && (r.queue.waiters != [] ==>
                  var n := r.queue.waiters[0].id; n < |r.results| && s.results[..n] == r.results[..n])
    decreases |r.queue.waiters|
  {
    hide Sound, Delivered;
    if r.queue.waiters != [] { FirstWaiter(r); }
    if r.queue.waiters == [] || (r.queue.content == [] && !r.queue.closed) {
      assert FlushRun(r) == r;
    } else {
      var r1 := ServeOne(r);
      ServeOneSound(r);
      ServeOneFills(r);
      FlushLeaves(r1);
      FlushTurn(r);
      if r1.queue.waiters != [] {
        var n := r.queue.waiters[0].id;
        assert FlushRun(r).results[..n] == r1.results[..n] by {
          assert FlushRun(r1).results[..r1.queue.waiters[0].id][..n] == r1.results[..r1.queue.waiters[0].id][..n];
        }
      }
    }
  }

  lemma {:induction false} FlushFills(r: Run, k: nat)
    requires Sound(r) && k < |r.results| && r.results[k] == None
    ensures |FlushRun(r).results| == |FlushRun(r).counts| == |r.results| && Filled(FlushRun(r), k)
    decreases |r.queue.waiters|
  {
    hide Sound, Delivered, Filled;
    FlushLeaves(r);
    SameLengths(r);
    if r.queue.waiters == [] || (r.queue.content == [] && !r.queue.closed) {
      assert FlushRun(r) == r;
      NoneFilled(r, k);
    } else {
      var (r1, n) := (ServeOne(r), r.queue.waiters[0].id);
      FirstWaiter(r);
      ServeOneSound(r);
      ServeOneFills(r);
      FlushTurn(r);
      if k != n {
        FlushFills(r1, k);
      } else {
        FlushLeaves(r1);
        SameBefore(r1, k);
        SameFilled(r1, FlushRun(r1), k);
      }
    }
  }

  lemma SameLengths(r: Run)
    requires Sound(r)
    ensures |r.counts| == |r.results|
  {
  }

  lemma NoneFilled(r: Run, k: nat)
    requires k < |r.results| == |r.counts| && r.results[k] == None
    ensures Filled(r, k)
  {
  }

  lemma SameFilled(r: Run, s: Run, k: nat)
    requires k < |r.results| == |r.counts| && |s.results| == |r.results| && Filled(r, k)
    requires s.results[..k + 1] == r.results[..k + 1] && s.counts == r.counts && s.accepted == r.accepted
    ensures Filled(s, k)
  {
    assert s.results[..k + 1][k] == s.results[k] && r.results[..k + 1][k] == r.results[k];
    assert s.results[..k + 1][..k] == s.results[..k] && r.results[..k + 1][..k] == r.results[..k];
  }

  /** A flush changes nothing up to a read that has its answer before all that wait. */
  lemma SameBefore(r: Run, k: nat)
    requires Sound(r) && k < |r.results| && (r.queue.waiters != [] ==> k < r.queue.waiters[0].id)
    ensures |FlushRun(r).results| == |r.results| && FlushRun(r).results[..k + 1] == r.results[..k + 1]
  {
    hide Sound;
    FlushLeaves(r);
    if r.queue.waiters != [] {
      var n := r.queue.waiters[0].id;
      assert FlushRun(r).results[..n][..k + 1] == r.results[..n][..k + 1];
    }
  }

  /** A read that a command answers gets exactly min(count, bytes there): what had been
      accepted and no read before it was given. */
  lemma StepFills(r: Run, c: Command, k: nat)
    requires Good(r) && k < |Step(r, c).results| && (k < |r.results| ==> r.results[k] == None)
    ensures |Step(r, c).results| == |Step(r, c).counts| && Filled(Step(r, c), k)
  {
    hide Sound, Delivered, Filled;
    SameLengths(r);
    match c
    case DoPush(data) =>
      if r.queue.closed || data == [] {
        assert Step(r, c).results == r.results;
        NoneFilled(Step(r, c), k);
      } else {
        PushSound(r, data);
        FlushFills(Pushed(r, data), k);
      }
    case DoClose =>
      CloseSound(r);
      FlushFills(r.(queue := r.queue.(closed := true)), k);
    case DoRead(count) =>
      ReadStep(r, count);
      if k < |r.results| { NoneFilled(Step(r, c), k); } else { ReadFills(r, count); }
  }

  lemma ReadFills(r: Run, count: nat)
    requires Good(r)
    ensures var s := Step(r, DoRead(count));
            |s.results| == |s.counts| == |r.results| + 1 && Filled(s, |r.results|)
  {
    hide Step, Delivered;
    ReadStep(r, count);
    DeliveredBefore(r, |r.results|);
    assert Step(r, DoRead(count)).results[..|r.results|] == r.results == r.results[..|r.results|];
  }

  /** The same over every run: whatever the history, a read gets all it asked for or
      all there is. */
  lemma ReadsFilled(cs: seq<Command>, c: Command, k: nat)
    ensures var (r, s) := (Execute(START, cs), Step(Execute(START, cs), c));
            |s.results| == |s.counts| && (k < |s.results| && (k < |r.results| ==> r.results[k] == None) ==> Filled(s, k))
  {
    hide Good, Step, Filled;
    var r := Execute(START, cs);
    StreamFifo(cs);
    RunGood(r, [c]);
    assert Execute(r, [c]) == Step(r, c);
    GoodLengths(Step(r, c));
    if k < |Step(r, c).results| && (k < |r.results| ==> r.results[k] == None) { StepFills(r, c, k); }
  }

  lemma GoodLengths(r: Run)
    requires Good(r)
    ensures |r.results| == |r.counts|
  {
  }

  // ---- the object ----------------------------------------------------------------------------

  function After(replies: seq<Reply>, s: Served): Served { s.(replies := replies + s.replies) }

  lemma FlushOnce(q: Queue, replies: seq<Reply>)
    requires q.waiters != [] && (q.content != [] || q.closed)
    ensures var w := q.waiters[0];
            After(replies, Flush(q)) ==
            After(replies + [Reply(w.id, Front(q.content, w.count))],
                  Flush(Queue(Rest(q.content, w.count), q.waiters[1..], q.closed)))
  {
    var w := q.waiters[0];
    var (r, rest) := (Reply(w.id, Front(q.content, w.count)),
                      Flush(Queue(Rest(q.content, w.count), q.waiters[1..], q.closed)));
    assert replies + ([r] + rest.replies) == (replies + [r]) + rest.replies;
  }

  lemma FlushDone(q: Queue, replies: seq<Reply>)
    requires q.waiters == [] || (q.content == [] && !q.closed)
    ensures After(replies, Flush(q)) == Served(q, replies)
  {
    assert replies + [] == replies;
  }

  class ByteQueue {
    var chunks: seq<Bytes>
    var length: nat
    var waiters: seq<Waiter>
    var closed: bool

    ghost predicate Valid()
      reads this
    {
      length == |Concat(chunks)| && forall i :: 0 <= i < |chunks| ==> chunks[i] != []
    }

    ghost function State(): Queue
      reads this
    {
      Queue(Concat(chunks), waiters, closed)
    }

    constructor ()
      ensures Valid() && State() == Queue([], [], false)
    {
      chunks, length, waiters, closed := [], 0, [], false;
    }

    /** `_take`: copies from the front chunk by chunk, splitting the last. */
    method Take(count: nat) returns (out: Bytes)
      requires Valid()
      modifies this`chunks, this`length
      ensures Valid()
      ensures out == Front(old(Concat(chunks)), count) && Concat(chunks) == Rest(old(Concat(chunks)), count)
      ensures |out| == Min(count, |old(Concat(chunks))|) && out + Concat(chunks) == old(Concat(chunks))
    {
      ghost var all := Concat(chunks);
      var n := Min(count, length);
      out := [];
      while |out| < n && chunks != []
        invariant length == |all| && |out| <= n && out + Concat(chunks) == all
        invariant forall i :: 0 <= i < |chunks| ==> chunks[i] != []
        decreases n - |out|
      {
        var first := chunks[0];
        var take := Min(|first|, n - |out|);
        ghost var rest := Concat(chunks[1..]);
        assert out + (first + rest) == (out + first[..take]) + (first[take..] + rest);
        out := out + first[..take];
        if take == |first| {
          chunks := chunks[1..];
          assert first[take..] + rest == rest;
        } else {
          chunks := [first[take..]] + chunks[1..];
        }
      }
      length := length - n;
      assert out == all[..n] && Concat(chunks) == all[n..];
    }

    /** `_flush`. The replies are the promises it resolves, in order. */
    method FlushWaiters() returns (replies: seq<Reply>)
      requires Valid()
      modifies this
      ensures Valid() && Served(State(), replies) == Flush(old(State()))
    {
      hide Flush, Concat;
      replies := [];
      ghost var whole := Flush(State());
      assert [] + whole.replies == whole.replies;
      while waiters != [] && (length > 0 || closed)
        invariant Valid() && closed == old(closed)
        invariant whole == After(replies, Flush(State()))
        decreases |waiters|
      {
        FlushOnce(State(), replies);
        var w := waiters[0];
        waiters := waiters[1..];
        var data := [];
        if length > 0 { data := Take(w.count); }
        replies := replies + [Reply(w.id, data)];
      }
      FlushDone(State(), replies);
    }

    method Push(data: Bytes) returns (replies: seq<Reply>)
      requires Valid()
      modifies this
      ensures Valid() && Served(State(), replies) == AfterPush(old(State()), data)
    {
      if closed || data == [] { return []; }
      ConcatSnoc(chunks, data);
      chunks := chunks + [data];
      length := length + |data|;
      replies := FlushWaiters();
    }

    method Close() returns (replies: seq<Reply>)
      requires Valid()
      modifies this
      ensures Valid() && Served(State(), replies) == AfterClose(old(State()))
    {
      closed := true;
      replies := FlushWaiters();
    }

    /** `read`: the reply, when there is one at once, else a promise that waits. */
    method Read(id: nat, count: nat) returns (reply: Option<Reply>)
      requires Valid()
      modifies this
      ensures Valid() && Served(State(), if reply.Some? then [reply.value] else []) == AfterRead(old(State()), id, count)
    {
      if count == 0 { return Some(Reply(id, [])); }
      if length > 0 {
        var data := Take(count);
        return Some(Reply(id, data));
      }
      if closed { return Some(Reply(id, [])); }
      waiters := waiters + [Waiter(count, id)];
      return None;
    }
  }
}
