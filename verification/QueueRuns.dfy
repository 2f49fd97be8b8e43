/** Whole runs of the persistent queue, with any primitive failing and the power failing anywhere. */
module QueueRuns {
  import opened Pmem
  import opened RingArithmetic
  import opened PersistentQueue

  datatype Op = OpEnqueue(data: Word) | OpDequeue

  /** A call; with `crash >= 0` the power fails at that step of it, if it gets so far. */
  datatype Call = Call(op: Op, crash: int)

  /** What the caller of a call learns, unless the power failed during it: the result, and whether a
      primitive of the library failed. */
  datatype Answer = Answer(ret: int, refused: bool, crashed: bool)

  // ----- Steps

  /** A new entry with the value joins the queue. */
  ghost predicate Grown(s: Queue, data: Word, s': Queue) {
    && |s.values| < s.capacity
    && |s'.live| == |s.live| + 1
    && (var e := s'.live[|s.live|];
        && e !in s.live && e !in s.rest.objs
        && s' == s.(values := s.values + [data], live := s.live + [e]))
  }

  /** The oldest value and its entry leave the queue. */
  ghost predicate Shrunk(s: Queue, s': Queue) {
    && s.values != [] && s.live != []
    && s' == s.(front := Wrap(s.front + 1), values := s.values[1..], live := s.live[1..])
  }

  /** What a bounded FIFO does. A call fails only when the queue is full or empty or when a primitive does, and
      then changes nothing; a call cut short by a power failure happened entirely or not at all. */
  ghost predicate FifoStep(s: Queue, op: Op, a: Answer, s': Queue) {
    match op
    case OpEnqueue(d) =>
      || (s' == s && (a.crashed || (a.ret == -1 && (a.refused || |s.values| == s.capacity))))
      || (Grown(s, d, s') && (a.crashed || a.ret == 0))
    case OpDequeue =>
      || (s' == s && (a.crashed || (a.ret == -1 && (a.refused || s.values == []))))
      || (Shrunk(s, s') && (a.crashed || a.ret == 0))
  }

  /** The call is an enqueue that, if it succeeds, takes the slot of a live entry. */
  predicate Breaks(capacity: nat, front: nat, size: nat, op: Op) {
    op.OpEnqueue? && size < capacity && !Safe(capacity, front, size)
  }

  ghost predicate BreaksAt(s: Queue, op: Op) {
    Breaks(s.capacity, s.front, |s.values|, op)
  }

  lemma EnqueuedGrown(h0: Heap, h: Heap, q: Oid, data: Word, e: Oid)
    requires Wf(h0, q) && Size(h0, q) < Capacity(h0, q) && Enqueued(h0, h, q, data, e) && Wf(h, q)
    ensures Grown(QueueOf(h0, q), data, QueueOf(h, q))
  {
    WindowOfWf(h0, q);
    assert forall o | o in Window(h0, q) :: Owned(h0, o);
  }

  // ----- Calls

  predicate Hit(past: nat, now: nat, crash: int) {
    0 <= crash < now - past
  }

  /** Whether the next call may break the queue, as a caller can find out from its fields. */
  method Foresee(pool: Pool, q: Oid, op: Op) returns (breaks: bool)
    requires pool.Idle() && Wf(pool.heap, q)
    ensures breaks <==> BreaksAt(QueueOf(pool.heap, q), op)
  {
    HeaderInHeap(pool.heap, q);
    var size := QueueSize(pool, q);
    breaks := Breaks(pool.Read(CapacityLoc(q)), pool.Read(FrontLoc(q)), size, op);
  }

  /** An enqueue that would break the queue does so exactly when it takes effect. */
  method DoBreaking(pool: Pool, q: Oid, data: Word, crash: int) returns (a: Answer)
    requires pool.Idle() && q != OID_NULL && Wf(pool.heap, q) && BreaksAt(QueueOf(pool.heap, q), OpEnqueue(data))
    modifies pool
    ensures pool.Idle() && (pool.heap == old(pool.heap) || !Wf(pool.heap, q))
    ensures !a.crashed ==> (pool.heap == old(pool.heap) <==> a.ret == -1) && (a.ret == 0 <==> !Wf(pool.heap, q))
  {
    var start := |pool.images|;
    ghost var e;
    var ret;
    ret, e := Enqueue(pool, q, data);
    a := Answer(ret, pool.refused, Hit(start, |pool.images|, crash));
    if a.crashed { pool.Reopen(start + crash); }
  }

  method DoEnqueue(pool: Pool, q: Oid, data: Word, crash: int) returns (a: Answer)
    requires pool.Idle() && q != OID_NULL && Wf(pool.heap, q) && !BreaksAt(QueueOf(pool.heap, q), OpEnqueue(data))
    modifies pool
    ensures pool.Idle() && Wf(pool.heap, q)
    ensures FifoStep(QueueOf(old(pool.heap), q), OpEnqueue(data), a, QueueOf(pool.heap, q))
  {
    ghost var h0 := pool.heap;
    var start := |pool.images|;
    ghost var e;
    var ret;
    ret, e := Enqueue(pool, q, data);
    if ret == 0 { EnqueuedGrown(h0, pool.heap, q, data, e); }
    a := Answer(ret, pool.refused, Hit(start, |pool.images|, crash));
    if a.crashed { pool.Reopen(start + crash); }
  }

  method DoDequeue(pool: Pool, q: Oid, crash: int) returns (a: Answer)
    requires pool.Idle() && q != OID_NULL && Wf(pool.heap, q)
    modifies pool
    ensures pool.Idle() && Wf(pool.heap, q)
    ensures FifoStep(QueueOf(old(pool.heap), q), OpDequeue, a, QueueOf(pool.heap, q))
  {
    var start := |pool.images|;
    var ret := Dequeue(pool, q);
    a := Answer(ret, pool.refused, Hit(start, |pool.images|, crash));
    if a.crashed { pool.Reopen(start + crash); }
  }

  method Do(pool: Pool, q: Oid, call: Call) returns (a: Answer)
    requires pool.Idle() && q != OID_NULL && Wf(pool.heap, q) && !BreaksAt(QueueOf(pool.heap, q), call.op)
    modifies pool
    ensures pool.Idle() && Wf(pool.heap, q)
    ensures FifoStep(QueueOf(old(pool.heap), q), call.op, a, QueueOf(pool.heap, q))
  {
    pool.refused := false;
    match call.op
    case OpEnqueue(d) => a := DoEnqueue(pool, q, d, call.crash);
    case OpDequeue => a := DoDequeue(pool, q, call.crash);
  }

  // ----- Runs

  ghost predicate StepAt(qs: seq<Queue>, calls: seq<Call>, answers: seq<Answer>, i: nat)
    requires |qs| == |calls| + 1 && |answers| == |calls| && i < |calls|
  {
    FifoStep(qs[i], calls[i].op, answers[i], qs[i + 1]) && !BreaksAt(qs[i], calls[i].op)
  }

  /** The queues `qs` between the calls of a run in which no enqueue takes the slot of a live entry. */
  ghost predicate IsRun(qs: seq<Queue>, calls: seq<Call>, answers: seq<Answer>) {
    && |qs| == |calls| + 1 && |answers| == |calls|
    && forall i | 0 <= i < |calls| :: StepAt(qs, calls, answers, i)
  }

  lemma RunSnoc(qs: seq<Queue>, calls: seq<Call>, answers: seq<Answer>, call: Call, a: Answer, s: Queue)
    requires IsRun(qs, calls, answers)
    requires FifoStep(qs[|calls|], call.op, a, s) && !BreaksAt(qs[|calls|], call.op)
    ensures IsRun(qs + [s], calls + [call], answers + [a])
  {
    var qs', calls', answers' := qs + [s], calls + [call], answers + [a];
    forall i | 0 <= i < |calls'|
      ensures StepAt(qs', calls', answers', i)
    {
      assert qs'[i] == qs[i] && qs'[i + 1] == if i < |calls| then qs[i + 1] else s;
      assert calls'[i] == if i < |calls| then calls[i] else call;
      assert answers'[i] == if i < |calls| then answers[i] else a;
      assert i < |calls| ==> StepAt(qs, calls, answers, i);
    }
  }

  /** One more call at the end of a run. */
  method Continue(pool: Pool, q: Oid, calls: seq<Call>, i: nat, answers: seq<Answer>, ghost qs: seq<Queue>)
    returns (answers': seq<Answer>, ghost qs': seq<Queue>)
    requires pool.Idle() && q != OID_NULL && Wf(pool.heap, q) && i < |calls|
    requires IsRun(qs, calls[..i], answers) && qs[i] == QueueOf(pool.heap, q) && !BreaksAt(qs[i], calls[i].op)
    modifies pool
    ensures pool.Idle() && Wf(pool.heap, q)
    ensures IsRun(qs', calls[..i + 1], answers') && qs'[i + 1] == QueueOf(pool.heap, q) && qs'[0] == qs[0]
  {
    var a := Do(pool, q, calls[i]);
    ghost var s := QueueOf(pool.heap, q);
    RunSnoc(qs, calls[..i], answers, calls[i], a, s);
    assert calls[..i + 1] == calls[..i] + [calls[i]];
    answers', qs' := answers + [a], qs + [s];
  }

  /** Any run of calls, whatever fails and wherever the power fails, is a run of a bounded FIFO for exactly as
      long as no enqueue takes the slot of a live entry: up to the end, or to the call `n` that would. */
  method Run(pool: Pool, q: Oid, calls: seq<Call>) returns (n: nat, answers: seq<Answer>, ghost qs: seq<Queue>)
    requires pool.Idle() && q != OID_NULL && Wf(pool.heap, q)
    modifies pool
    ensures pool.Idle() && Wf(pool.heap, q) && n <= |calls|
    ensures IsRun(qs, calls[..n], answers)
    ensures qs[0] == QueueOf(old(pool.heap), q) && qs[n] == QueueOf(pool.heap, q)
    ensures n < |calls| ==> BreaksAt(qs[n], calls[n].op)
    ensures Ready(qs[0], Enqueues(calls)) ==> n == |calls|
    ensures Conserved(old(pool.heap), pool.heap, q)
  {
    ghost var h0 := pool.heap;
    n, answers, qs := 0, [], [QueueOf(pool.heap, q)];
    while n < |calls|
      invariant n <= |calls| && pool.Idle() && Wf(pool.heap, q)
      invariant IsRun(qs, calls[..n], answers) && qs[n] == QueueOf(pool.heap, q)
      invariant qs[0] == QueueOf(h0, q) && h0 == old(pool.heap)
    {
      SizeOfQueue(pool.heap, q);
      var breaks := Foresee(pool, q, calls[n].op);
      if breaks {
        if Ready(qs[0], Enqueues(calls)) { ReadyLasts(qs, calls, n, answers); }
        break;
      }
      answers, qs := Continue(pool, q, calls, n, answers, qs);
      n := n + 1;
    }
    RunConserves(h0, pool.heap, q, qs, calls[..n], answers);
  }

  // ----- When no enqueue can break the queue

  function Enqueues(calls: seq<Call>): nat {
    if calls == [] then 0 else Enqueues(calls[..|calls| - 1]) + if calls[|calls| - 1].op.OpEnqueue? then 1 else 0
  }

  /** The next `n` enqueues cannot reach a live slot: the capacity divides 2^64, or the counters do not get
      so far as to wrap. */
  ghost predicate Ready(s: Queue, n: nat) {
    s.capacity == 0 || WORD_RANGE % s.capacity == 0 || s.front + |s.values| + n < WORD_RANGE
  }

  /** A new queue is ready for any number of enqueues when its capacity divides 2^64, and for fewer than 2^64
      of them otherwise. */
  lemma NewIsReady(s: Queue, n: nat)
    requires s.front == 0 && s.values == []
    ensures n < WORD_RANGE || (s.capacity > 0 && WORD_RANGE % s.capacity == 0) ==> Ready(s, n)
  {
  }

  lemma SizeOfQueue(h: Heap, q: Oid)
    requires Wf(h, q)
    ensures |Contents(h, q)| == |Window(h, q)| == Size(h, q) <= Capacity(h, q)
  {
  }

  lemma {:induction false} EnqueuesPrefix(calls: seq<Call>, n: nat)
    requires n <= |calls|
    ensures Enqueues(calls[..n]) <= Enqueues(calls)
    ensures n < |calls| && calls[n].op.OpEnqueue? ==> Enqueues(calls[..n]) < Enqueues(calls)
  {
    if n < |calls| {
      assert calls[..|calls| - 1][..n] == calls[..n];
      EnqueuesPrefix(calls[..|calls| - 1], n);
      if n == |calls| - 1 {
        assert calls[..n] == calls[..|calls| - 1];
      }
    } else {
      assert calls[..n] == calls;
    }
  }

  /** The counters move on by one enqueue at a time. */
  lemma {:induction false} CountersMove(qs: seq<Queue>, calls: seq<Call>, answers: seq<Answer>, i: nat)
    requires IsRun(qs, calls, answers) && i <= |calls|
    requires qs[0].front + |qs[0].values| + Enqueues(calls[..i]) < WORD_RANGE
    ensures qs[i].front + |qs[i].values| <= qs[0].front + |qs[0].values| + Enqueues(calls[..i])
    ensures qs[i].capacity == qs[0].capacity
  {
    if i > 0 {
      assert calls[..i][..i - 1] == calls[..i - 1];
      CountersMove(qs, calls, answers, i - 1);
      assert StepAt(qs, calls, answers, i - 1);
    }
  }

  lemma {:induction false} CapacityKept(qs: seq<Queue>, calls: seq<Call>, answers: seq<Answer>, i: nat)
    requires IsRun(qs, calls, answers) && i <= |calls|
    ensures qs[i].capacity == qs[0].capacity
  {
    if i > 0 {
      CapacityKept(qs, calls, answers, i - 1);
      assert StepAt(qs, calls, answers, i - 1);
    }
  }

  /** From a queue that is ready for them, no enqueue of the run breaks the queue. */
  lemma ReadyLasts(qs: seq<Queue>, calls: seq<Call>, n: nat, answers: seq<Answer>)
    requires n < |calls| && IsRun(qs, calls[..n], answers) && Ready(qs[0], Enqueues(calls))
    ensures !BreaksAt(qs[n], calls[n].op)
  {
    var s := qs[n];
    CapacityKept(qs, calls[..n], answers, n);
    if calls[n].op.OpEnqueue? && |s.values| < s.capacity {
      if WORD_RANGE % s.capacity == 0 {
        DivisorIsSafe(s.capacity, s.front, |s.values|);
      } else {
        EnqueuesPrefix(calls, n);
        assert calls[..n][..n] == calls[..n];
        CountersMove(qs, calls[..n], answers, n);
        UnwrappedIsSafe(s.capacity, s.front, |s.values|);
      }
    }
  }

  // ----- Over whole runs

  /** Whether call `i` took effect. */
  ghost predicate Effective(qs: seq<Queue>, i: nat)
    requires i + 1 < |qs|
  {
    |qs[i + 1].values| != |qs[i].values|
  }

  /** The values that the first `n` calls added, in the order of the calls. */
  ghost function Added(qs: seq<Queue>, calls: seq<Call>, n: nat): seq<Word>
    requires n <= |calls| < |qs|
  {
    if n == 0 then []
    else
      Added(qs, calls, n - 1) +
        if calls[n - 1].op.OpEnqueue? && Effective(qs, n - 1) then [calls[n - 1].op.data] else []
  }

  /** How many values the first `n` calls dropped. */
  ghost function Dropped(qs: seq<Queue>, calls: seq<Call>, n: nat): nat
    requires n <= |calls| < |qs|
  {
    if n == 0 then 0
    else Dropped(qs, calls, n - 1) + if calls[n - 1].op.OpDequeue? && Effective(qs, n - 1) then 1 else 0
  }

  /** First in, first out over a whole run: the queue holds all that was ever added, in order, less as many
      of the oldest values as were dropped; and it never holds more than its capacity. */
  lemma {:induction false} FirstInFirstOut(qs: seq<Queue>, calls: seq<Call>, answers: seq<Answer>, n: nat)
    requires IsRun(qs, calls, answers) && n <= |calls| && |qs[0].values| <= qs[0].capacity
    ensures
      var all, k := qs[0].values + Added(qs, calls, n), Dropped(qs, calls, n);
      k <= |all| && qs[n].values == all[k..] && |qs[n].values| <= qs[n].capacity
  {
    if n > 0 {
      FirstInFirstOut(qs, calls, answers, n - 1);
      assert StepAt(qs, calls, answers, n - 1);
      var before, k := qs[0].values + Added(qs, calls, n - 1), Dropped(qs, calls, n - 1);
      var all := qs[0].values + Added(qs, calls, n);
      if calls[n - 1].op.OpEnqueue? && Effective(qs, n - 1) {
        assert all == before + [calls[n - 1].op.data];
      } else {
        assert all == before;
      }
    }
  }

  /** A call that was not cut short by a power failure took effect exactly if it returned 0, and an enqueue
      does unless the queue is full, a dequeue unless it is empty, or a primitive failed. */
  lemma Acknowledged(qs: seq<Queue>, calls: seq<Call>, answers: seq<Answer>, i: nat)
    requires IsRun(qs, calls, answers) && i < |calls| && !answers[i].crashed
    ensures Effective(qs, i) <==> answers[i].ret == 0
    ensures
      var blocked := if calls[i].op.OpEnqueue? then |qs[i].values| == qs[i].capacity else qs[i].values == [];
      !answers[i].refused && !blocked ==> Effective(qs, i)
  {
    assert StepAt(qs, calls, answers, i);
  }

  // ----- Ownership

  ghost predicate Distinct(live: seq<Oid>) {
    forall i, j | 0 <= i < j < |live| :: live[i] != live[j]
  }

  /** The live entries are as many as the values, all distinct, and no objects of the rest. */
  ghost predicate Owning(s: Queue) {
    |s.live| == |s.values| && Distinct(s.live) && forall o | o in s.live :: o !in s.rest.objs
  }

  lemma OwningAtStart(h: Heap, q: Oid)
    requires Wf(h, q)
    ensures Owning(QueueOf(h, q))
  {
    WindowOfWf(h, q);
    SizeOfQueue(h, q);
  }

  /** Conservation over a whole run: each call takes one new entry, frees the oldest one or none, the entries
      in use are always distinct and as many as the values, and nothing else in the pool changes, is leaked or
      is lost. */
  lemma {:induction false} Ownership(qs: seq<Queue>, calls: seq<Call>, answers: seq<Answer>, n: nat)
    requires IsRun(qs, calls, answers) && n <= |calls| && Owning(qs[0])
    ensures Owning(qs[n]) && qs[n].rest == qs[0].rest
    ensures n > 0 ==>
      || qs[n].live == qs[n - 1].live
      || (exists e :: e !in qs[n - 1].live && e !in qs[0].rest.objs && qs[n].live == qs[n - 1].live + [e])
      || (qs[n - 1].live != [] && qs[n].live == qs[n - 1].live[1..])
  {
    if n > 0 {
      Ownership(qs, calls, answers, n - 1);
      assert StepAt(qs, calls, answers, n - 1);
    }
  }

  /** The entry objects in a pool, whoever owns them. */
  ghost function EntryObjects(h: Heap): set<Oid> {
    set o | o in h.objs && h.objs[o] == ENTRY
  }

  lemma {:induction false} LiveCard(live: seq<Oid>)
    requires Distinct(live)
    ensures |set o | o in live| == |live|
  {
    var all := set o | o in live;
    if live == [] {
      assert all == {};
    } else {
      var n := |live| - 1;
      var rest := set o | o in live[..n];
      LiveCard(live[..n]);
      assert all == rest + {live[n]} && live[n] !in rest;
    }
  }

  lemma WithoutObjects(h: Heap, dead: set<Oid>)
    requires dead <= h.objs.Keys
    ensures h.objs.Keys == h.Without(dead).objs.Keys + dead
    ensures EntryObjects(h.Without(dead)) == EntryObjects(h) - dead
  {
  }

  lemma LiveObjects(h: Heap, q: Oid)
    requires Wf(h, q)
    ensures {q} + Live(h, q) <= h.objs.Keys && Live(h, q) <= EntryObjects(h) && q !in EntryObjects(h)
    ensures |Live(h, q)| == |Contents(h, q)|
  {
    WindowOfWf(h, q);
    forall o | o in Live(h, q)
      ensures o in EntryObjects(h)
    {
      assert Owned(h, o);
    }
    LiveCard(Window(h, q));
  }

  /** The objects of a pool are those of the rest, the queue and its live entries. */
  lemma PoolObjects(h: Heap, q: Oid)
    requires Wf(h, q)
    ensures h.objs.Keys == Rest(h, q).objs.Keys + {q} + Live(h, q)
    ensures EntryObjects(h) == EntryObjects(Rest(h, q)) + Live(h, q) && EntryObjects(Rest(h, q)) !! Live(h, q)
    ensures |Live(h, q)| == |Contents(h, q)|
  {
    LiveObjects(h, q);
    WithoutObjects(h, {q} + Live(h, q));
  }

  /** While the rest of the pool stays the same, the entry objects in the pool and the values in the queue go
      up and down together. So a pool that held no entries but the live ones of the queue holds no others. */
  lemma EntriesConserved(h0: Heap, h: Heap, q: Oid)
    requires Wf(h0, q) && Wf(h, q) && Rest(h, q) == Rest(h0, q)
    ensures |EntryObjects(h)| - |Contents(h, q)| == |EntryObjects(h0)| - |Contents(h0, q)|
    ensures EntryObjects(h0) == Live(h0, q) ==> EntryObjects(h) == Live(h, q)
  {
    PoolObjects(h0, q);
    PoolObjects(h, q);
  }

  /** What is in the pool besides the queue is the same, and entry objects and values have become more or fewer
      by the same number. */
  ghost predicate Conserved(h0: Heap, h: Heap, q: Oid) {
    && Rest(h, q) == Rest(h0, q)
    && |EntryObjects(h)| - |Contents(h, q)| == |EntryObjects(h0)| - |Contents(h0, q)|
    && (EntryObjects(h0) == Live(h0, q) ==> EntryObjects(h) == Live(h, q))
  }

  /** The heaps at the ends of a run. */
  lemma RunConserves(h0: Heap, h: Heap, q: Oid, qs: seq<Queue>, calls: seq<Call>, answers: seq<Answer>)
    requires Wf(h0, q) && Wf(h, q) && IsRun(qs, calls, answers)
    requires qs[0] == QueueOf(h0, q) && qs[|calls|] == QueueOf(h, q)
    ensures Conserved(h0, h, q)
  {
    OwningAtStart(h0, q);
    Ownership(qs, calls, answers, |calls|);
    EntriesConserved(h0, h, q);
  }

  // ----- A run that ends

  /** A run that leaves an empty queue with its counters at `n`: as many times, an enqueue and a dequeue. */
  lemma {:induction false} ReachesCounter(s: Queue, n: nat, e: Oid)
    returns (qs: seq<Queue>, calls: seq<Call>, answers: seq<Answer>)
    requires s.front == 0 && s.values == [] && s.live == [] && s.capacity > 0
    requires n < WORD_RANGE && e !in s.rest.objs
    ensures IsRun(qs, calls, answers) && qs[0] == s && qs[|calls|] == s.(front := n)
  {
    if n == 0 {
      qs, calls, answers := [s], [], [];
    } else {
      qs, calls, answers := ReachesCounter(s, n - 1, e);
      var s1 := s.(front := n - 1, values := [0], live := [e]);
      RunSnoc(qs, calls, answers, Call(OpEnqueue(0), -1), Answer(0, false, false), s1);
      qs, calls, answers := qs + [s1], calls + [Call(OpEnqueue(0), -1)], answers + [Answer(0, false, false)];
      var s2 := s.(front := n);
      RunSnoc(qs, calls, answers, Call(OpDequeue, -1), Answer(0, false, false), s2);
      qs, calls, answers := qs + [s2], calls + [Call(OpDequeue, -1)], answers + [Answer(0, false, false)];
    }
  }

  /** From a new queue of three slots a run leads to an enqueue that breaks it. */
  lemma BrinkReached(rest: Heap, e: Oid) returns (qs: seq<Queue>, calls: seq<Call>, answers: seq<Answer>)
    requires e !in rest.objs
    ensures IsRun(qs, calls, answers) && qs[0] == Queue(3, 0, [], [], rest)
    ensures forall data :: BreaksAt(qs[|calls|], OpEnqueue(data))
  {
    var s := Queue(3, 0, [], [], rest);
    qs, calls, answers := ReachesCounter(s, WORD_RANGE - 1, e);
    var s1 := s.(front := WORD_RANGE - 1, values := [0], live := [e]);
    RunSnoc(qs, calls, answers, Call(OpEnqueue(0), -1), Answer(0, false, false), s1);
    qs, calls, answers := qs + [s1], calls + [Call(OpEnqueue(0), -1)], answers + [Answer(0, false, false)];
    UnsafeExample();
  }
}
