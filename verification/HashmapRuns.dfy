/** Whole runs: any calls in any order, with any primitive failing and the power failing anywhere. */
module HashmapRuns {
  import opened Bits
  import opened Pmem
  import opened HashmapLayout
  import opened HashmapSteps
  import opened HashmapTx
  import opened HashmapCreate

  datatype Op =
    | OpInsert(key: Word, value: Word)
    | OpRemove(key: Word)
    | OpGet(key: Word)
    | OpLookup(key: Word)
    | OpCount
    | OpRebuild(len: Length)

  /** A size_t. */
  type Length = n: int | 0 <= n < 0x1_0000_0000_0000_0000

  /** A call; with `crash >= 0` the power fails at that step of it, if it gets so far. */
  datatype Call = Call(op: Op, crash: int)

  /** What the caller of a call learns, unless the power failed during it: the result, and whether a
      primitive of the library failed. */
  datatype Answer = Answer(ret: int, refused: bool, crashed: bool)

  /** What a finite map does. A call fails only when a primitive does, and then changes nothing; a call cut
      short by a power failure happened entirely or not at all. */
  ghost predicate MapStep(m: map<Word, Word>, op: Op, a: Answer, m': map<Word, Word>) {
    match op
    case OpInsert(k, v) =>
      if k in m then m' == m && (a.crashed || a.ret == 1)
      else
        || (m' == m && (a.crashed || (a.ret == -1 && a.refused)))
        || (m' == m[k := v] && (a.crashed || a.ret == 0))
    case OpRemove(k) =>
      if k !in m then m' == m && (a.crashed || a.ret == OID_NULL)
      else
        || (m' == m && (a.crashed || (a.ret == OID_NULL && a.refused)))
        || (m' == m - {k} && (a.crashed || a.ret == m[k]))
    case OpGet(k) => m' == m && a.ret == if k in m then m[k] else OID_NULL
    case OpLookup(k) => m' == m && a.ret == if k in m then 1 else 0
    case OpCount => m' == m && a.ret == |m|
    case OpRebuild(_) => m' == m
  }

  // ----- Table sizes

  /** The bucket counts 10 leads to by doubling and halving: 2^k and 5*2^k. */
  ghost predicate RegularSize(n: Word) {
    exists k: nat :: n == Pow2(k) || n == 5 * Pow2(k)
  }

  /** Halving a single bucket would give none, but a length of 0 keeps the table as it is. */
  lemma RegularHalf(n: Word)
    requires RegularSize(n)
    ensures n > 0 && RegularSize(Resized(n, n / 2))
  {
    var k: nat :| n == Pow2(k) || n == 5 * Pow2(k);
    if k > 0 {
      assert n / 2 == Pow2(k - 1) || n / 2 == 5 * Pow2(k - 1);
    } else if n == 5 {
      assert n / 2 == Pow2(1);
    }
  }

  lemma RegularDouble(n: Word)
    requires RegularSize(n)
    ensures RegularSize(2 * n)
  {
    var k: nat :| n == Pow2(k) || n == 5 * Pow2(k);
    assert 2 * n == Pow2(k + 1) || 2 * n == 5 * Pow2(k + 1);
  }

  lemma RegularStart()
    ensures RegularSize(INIT_BUCKETS_NUM)
  {
    assert INIT_BUCKETS_NUM == 5 * Pow2(1);
  }

  /** A rebuild to a length of the caller's choice. */
  predicate Explicit(op: Op) {
    op.OpRebuild? && op.len > 0
  }

  /** Anything but a rebuild to a length that is not safe. */
  predicate Admissible(op: Op) {
    op.OpRebuild? ==> Fits(op.len)
  }

  // ----- Tables

  /** What a heap says about one table and about everything else in the pool. */
  datatype Table = Table(pairs: map<Word, Word>, nbuckets: Word, co: Coeffs, rest: Heap)

  ghost function TableOf(h: Heap, hm: Oid): Table
    requires Wf(h, hm)
  {
    Table(Contents(h, hm), NBuckets(h, hm), CoeffsOf(h, hm), Rest(h, hm))
  }

  /** The bucket count after a call: a rebuild that neither failed nor was cut short gives what was asked for,
      and without explicit lengths a regular count stays one. */
  ghost predicate SizeStep(nb: Word, op: Op, a: Answer, nb': Word) {
    && (op.OpRebuild? && !a.refused && !a.crashed ==> nb' == Resized(nb, op.len))
    && (RegularSize(nb) && !Explicit(op) ==> RegularSize(nb'))
  }

  /** One call: a step of the map that neither leaks objects nor touches the rest of the pool. */
  ghost predicate Step(t: Table, op: Op, a: Answer, t': Table) {
    && MapStep(t.pairs, op, a, t'.pairs)
    && t'.co == t.co && t'.rest == t.rest
    && SizeStep(t.nbuckets, op, a, t'.nbuckets)
  }

  lemma YieldsTable(h0: Heap, h: Heap, hm: Oid, m: map<Word, Word>, sizes: set<Word>)
    requires Wf(h0, hm) && Yields(h0, h, hm, m, sizes)
    ensures Wf(h, hm) && TableOf(h, hm).nbuckets in sizes
    ensures TableOf(h, hm) == TableOf(h0, hm).(pairs := m, nbuckets := TableOf(h, hm).nbuckets)
  {
  }

  /** The sizes that a call may leave are regular when the size before it was. */
  lemma SizesRegular(h: Heap, hm: Oid, key: Word)
    requires Wf(h, hm) && RegularSize(NBuckets(h, hm))
    ensures RegularSize(SizeAfterInsert(h, hm, key)) && RegularSize(SizeAfterRemove(h, hm))
  {
    RegularDouble(NBuckets(h, hm));
    RegularHalf(NBuckets(h, hm));
  }

  lemma StepByYields(h0: Heap, h: Heap, hm: Oid, op: Op, a: Answer, m: map<Word, Word>, size: Word, sizes: set<Word>)
    requires Wf(h0, hm) && Yields(h0, h, hm, m, sizes) && sizes <= {NBuckets(h0, hm), size}
    requires MapStep(Contents(h0, hm), op, a, m) && !op.OpRebuild?
    requires RegularSize(NBuckets(h0, hm)) ==> RegularSize(size)
    ensures Wf(h, hm) && Step(TableOf(h0, hm), op, a, TableOf(h, hm))
  {
    YieldsTable(h0, h, hm, m, sizes);
    TableStep(TableOf(h0, hm), TableOf(h, hm), op, a, m, size);
  }

  lemma TableStep(t: Table, t': Table, op: Op, a: Answer, m: map<Word, Word>, size: Word)
    requires t' == t.(pairs := m, nbuckets := t'.nbuckets) && (t'.nbuckets == t.nbuckets || t'.nbuckets == size)
    requires MapStep(t.pairs, op, a, m) && !op.OpRebuild?
    requires RegularSize(t.nbuckets) ==> RegularSize(size)
    ensures Step(t, op, a, t')
  {
  }

  // ----- Calls

  /** Whether the power fails at one of the steps since `past`. */
  predicate Hit(past: nat, now: nat, crash: int) {
    0 <= crash < now - past
  }

  lemma AtomicAt(past: seq<Image>, images: seq<Image>, h0: Heap, hm: Oid, m: map<Word, Word>, sizes: set<Word>,
                 k: nat)
    requires Wf(h0, hm) && Atomic(past, images, h0, hm, m, sizes) && |past| <= k < |images|
    ensures Recover(images[k]).Ok()
    ensures Recover(images[k]) == h0 || Yields(h0, Recover(images[k]), hm, m, sizes)
  {
  }

  /** The power fails during an operation that changes the table atomically if `done`, and not at all
      otherwise; and the pool is opened again. */
  method CrashDuring(pool: Pool, hm: Oid, k: nat, ghost past: seq<Image>, ghost h0: Heap, ghost m: map<Word, Word>,
                     ghost sizes: set<Word>, ghost done: bool)
    requires Wf(h0, hm) && |past| <= k < |pool.images|
    requires if done then Atomic(past, pool.images, h0, hm, m, sizes) else Recovers(past, pool.images, h0, h0)
    modifies pool
    ensures pool.Idle() && (pool.heap == h0 || (done && Yields(h0, pool.heap, hm, m, sizes)))
  {
    if done { AtomicAt(past, pool.images, h0, hm, m, sizes, k); }
    pool.Reopen(k);
  }

  method DoInsert(pool: Pool, hm: Oid, key: Word, value: Word, crash: int) returns (a: Answer)
    requires pool.Idle() && Wf(pool.heap, hm)
    modifies pool
    ensures pool.Idle() && Wf(pool.heap, hm)
    ensures Step(TableOf(old(pool.heap), hm), OpInsert(key, value), a, TableOf(pool.heap, hm))
  {
    ghost var h0, past, m := pool.heap, pool.images, Contents(pool.heap, hm)[key := value];
    ghost var nb, size := NBuckets(h0, hm), SizeAfterInsert(h0, hm, key);
    if RegularSize(nb) { SizesRegular(h0, hm, key); }
    var start := |pool.images|;
    var ret := Insert(pool, hm, key, value);
    a := Answer(ret, pool.refused, Hit(start, |pool.images|, crash));
    if a.crashed {
      CrashDuring(pool, hm, start + crash, past, h0, m, {nb, size}, ret == 0);
      if pool.heap != h0 { StepByYields(h0, pool.heap, hm, OpInsert(key, value), a, m, size, {nb, size}); }
    } else if ret == 0 {
      StepByYields(h0, pool.heap, hm, OpInsert(key, value), a, m, size, {if pool.refused then nb else size});
    }
  }

  method DoRemove(pool: Pool, hm: Oid, key: Word, crash: int) returns (a: Answer)
    requires pool.Idle() && Wf(pool.heap, hm)
    modifies pool
    ensures pool.Idle() && Wf(pool.heap, hm)
    ensures Step(TableOf(old(pool.heap), hm), OpRemove(key), a, TableOf(pool.heap, hm))
  {
    ghost var h0, past, m := pool.heap, pool.images, Contents(pool.heap, hm) - {key};
    ghost var nb, size := NBuckets(h0, hm), SizeAfterRemove(h0, hm);
    if RegularSize(nb) { SizesRegular(h0, hm, key); }
    var start := |pool.images|;
    var ret;
    ghost var removed;
    ret, removed := Remove(pool, hm, key);
    a := Answer(ret, pool.refused, Hit(start, |pool.images|, crash));
    if a.crashed {
      CrashDuring(pool, hm, start + crash, past, h0, m, {nb, size}, removed);
      if pool.heap != h0 { StepByYields(h0, pool.heap, hm, OpRemove(key), a, m, size, {nb, size}); }
    } else if removed {
      StepByYields(h0, pool.heap, hm, OpRemove(key), a, m, size, {if pool.refused then nb else size});
    }
  }

  lemma RebuildStep(h0: Heap, h: Heap, hm: Oid, len: Length, a: Answer)
    requires Wf(h0, hm) && Wf(h, hm)
    requires
      || (h == h0 && (a.refused || a.crashed))
      || Yields(h0, h, hm, Contents(h0, hm), {Resized(NBuckets(h0, hm), len)})
    ensures Step(TableOf(h0, hm), OpRebuild(len), a, TableOf(h, hm))
  {
    if h != h0 {
      YieldsTable(h0, h, hm, Contents(h0, hm), {Resized(NBuckets(h0, hm), len)});
    }
  }

  method DoRebuild(pool: Pool, hm: Oid, len: Length, crash: int) returns (a: Answer)
    requires pool.Idle() && Wf(pool.heap, hm) && Fits(len)
    modifies pool
    ensures pool.Idle() && Wf(pool.heap, hm)
    ensures Step(TableOf(old(pool.heap), hm), OpRebuild(len), a, TableOf(pool.heap, hm))
  {
    ghost var h0 := pool.heap;
    SizeBound(h0, hm);
    var start := |pool.images|;
    var wild := Rebuild(pool, hm, len);
    a := Answer(0, pool.refused, Hit(start, |pool.images|, crash));
    if a.crashed {
      pool.Reopen(start + crash);
    }
    RebuildStep(h0, pool.heap, hm, len, a);
  }

  /** A rebuild to a length that is not safe: unless it fails, it leaves no table or, exactly when some key
      belongs in a bucket there is no room for, goes out of bounds. */
  method DoUnfit(pool: Pool, hm: Oid, len: Length, crash: int) returns (a: Answer, wild: bool)
    requires pool.Idle() && Wf(pool.heap, hm) && !Fits(len)
    modifies pool
    ensures len > 0
    ensures wild ==> Strays(old(pool.heap), hm, len)
    ensures !wild ==> pool.Idle() && (pool.heap == old(pool.heap) || !Wf(pool.heap, hm))
    ensures !wild && !a.crashed ==> (a.refused <==> pool.heap == old(pool.heap))
    ensures !wild && !a.refused ==> !Strays(old(pool.heap), hm, len)
  {
    var start := |pool.images|;
    wild := Rebuild(pool, hm, len);
    a := Answer(0, pool.refused, !wild && Hit(start, |pool.images|, crash));
    if a.crashed {
      pool.Reopen(start + crash);
    }
  }

  method Do(pool: Pool, hm: Oid, call: Call) returns (a: Answer)
    requires pool.Idle() && Wf(pool.heap, hm)
    requires Admissible(call.op)
    modifies pool
    ensures pool.Idle() && Wf(pool.heap, hm)
    ensures Step(TableOf(old(pool.heap), hm), call.op, a, TableOf(pool.heap, hm))
  {
    var ret := 0;
    pool.refused := false;
    match call.op
    case OpInsert(k, v) => a := DoInsert(pool, hm, k, v, call.crash);
    case OpRemove(k) => a := DoRemove(pool, hm, k, call.crash);
    case OpGet(k) => ret := Get(pool, hm, k); a := Answer(ret, false, false);
    case OpLookup(k) => ret := Lookup(pool, hm, k); a := Answer(ret, false, false);
    case OpCount => ret := Count(pool, hm); a := Answer(ret, false, false);
    case OpRebuild(len) => a := DoRebuild(pool, hm, len, call.crash);
  }

  // ----- Runs

  ghost predicate StepAt(ts: seq<Table>, calls: seq<Call>, answers: seq<Answer>, i: nat)
    requires |ts| == |calls| + 1 && |answers| == |calls| && i < |calls|
  {
    Step(ts[i], calls[i].op, answers[i], ts[i + 1]) && Admissible(calls[i].op)
  }

  /** The tables `ts` between the calls of a run without rebuilds to lengths that are not safe. */
  ghost predicate IsRun(ts: seq<Table>, calls: seq<Call>, answers: seq<Answer>) {
    && |ts| == |calls| + 1 && |answers| == |calls|
    && forall i | 0 <= i < |calls| :: StepAt(ts, calls, answers, i)
  }

  lemma RunSnoc(ts: seq<Table>, calls: seq<Call>, answers: seq<Answer>, call: Call, a: Answer, t: Table)
    requires IsRun(ts, calls, answers) && Step(ts[|calls|], call.op, a, t) && Admissible(call.op)
    ensures IsRun(ts + [t], calls + [call], answers + [a])
  {
    var ts', calls', answers' := ts + [t], calls + [call], answers + [a];
    forall i | 0 <= i < |calls'|
      ensures StepAt(ts', calls', answers', i)
    {
      assert ts'[i] == ts[i] && ts'[i + 1] == if i < |calls| then ts[i + 1] else t;
      assert calls'[i] == if i < |calls| then calls[i] else call;
      assert answers'[i] == if i < |calls| then answers[i] else a;
      assert i < |calls| ==> StepAt(ts, calls, answers, i);
    }
  }

  /** One more call at the end of a run. */
  method Continue(pool: Pool, hm: Oid, calls: seq<Call>, i: nat, answers: seq<Answer>, ghost ts: seq<Table>)
    returns (answers': seq<Answer>, ghost ts': seq<Table>)
    requires pool.Idle() && Wf(pool.heap, hm) && i < |calls| && Admissible(calls[i].op)
    requires IsRun(ts, calls[..i], answers) && ts[i] == TableOf(pool.heap, hm)
    modifies pool
    ensures pool.Idle() && Wf(pool.heap, hm)
    ensures IsRun(ts', calls[..i + 1], answers') && ts'[i + 1] == TableOf(pool.heap, hm) && ts'[0] == ts[0]
  {
    var a := Do(pool, hm, calls[i]);
    ghost var t := TableOf(pool.heap, hm);
    RunSnoc(ts, calls[..i], answers, calls[i], a, t);
    PrefixSnoc(calls, i);
    answers', ts' := answers + [a], ts + [t];
  }

  lemma PrefixSnoc<T>(s: seq<T>, i: nat)
    requires i < |s|
    ensures s[..i + 1] == s[..i] + [s[i]]
  {
  }

  /** Any run of calls, whatever fails and wherever the power fails, is a run of a finite map: up to the end,
      or to the first rebuild `n` to a length that is not safe. */
  method Run(pool: Pool, hm: Oid, calls: seq<Call>) returns (n: nat, answers: seq<Answer>, ghost ts: seq<Table>)
    requires pool.Idle() && Wf(pool.heap, hm)
    modifies pool
    ensures pool.Idle() && Wf(pool.heap, hm) && n <= |calls| && IsRun(ts, calls[..n], answers)
    ensures ts[0] == TableOf(old(pool.heap), hm) && ts[n] == TableOf(pool.heap, hm)
    ensures n < |calls| ==> !Admissible(calls[n].op)
  {
    n, answers, ts := 0, [], [TableOf(pool.heap, hm)];
    while n < |calls| && Admissible(calls[n].op)
      invariant n <= |calls| && pool.Idle() && Wf(pool.heap, hm)
      invariant IsRun(ts, calls[..n], answers) && ts[n] == TableOf(pool.heap, hm)
      invariant ts[0] == TableOf(old(pool.heap), hm)
    {
      answers, ts := Continue(pool, hm, calls, n, answers, ts);
      n := n + 1;
    }
  }

  // ----- Over whole runs

  /** A run neither leaks objects nor touches the rest of the pool. */
  lemma {:induction false} RunKeeps(ts: seq<Table>, calls: seq<Call>, answers: seq<Answer>, i: nat)
    requires IsRun(ts, calls, answers) && i <= |calls|
    ensures ts[i].rest == ts[0].rest && ts[i].co == ts[0].co
  {
    if i > 0 {
      RunKeeps(ts, calls, answers, i - 1);
      assert StepAt(ts, calls, answers, i - 1);
    }
  }

  /** A run without explicit lengths keeps the number of buckets of the form 2^k or 5*2^k. */
  lemma {:induction false} RunSizes(ts: seq<Table>, calls: seq<Call>, answers: seq<Answer>, i: nat)
    requires IsRun(ts, calls, answers) && i <= |calls| && RegularSize(ts[0].nbuckets)
    requires forall c | c in calls :: !Explicit(c.op)
    ensures RegularSize(ts[i].nbuckets) && ts[i].nbuckets > 0
  {
    if i > 0 {
      RunSizes(ts, calls, answers, i - 1);
      assert StepAt(ts, calls, answers, i - 1);
      assert calls[i - 1] in calls;
    }
    RegularHalf(ts[i].nbuckets);
  }

  /** A call that can change what the map says about a key. */
  predicate Touches(op: Op, key: Word) {
    (op.OpInsert? || op.OpRemove?) && op.key == key
  }

  /** An insertion that was acknowledged lasts: through all later calls, failures, rebuilds and crashes the
      key keeps its value, until a call removes it. */
  lemma {:induction false} InsertLasts(ts: seq<Table>, calls: seq<Call>, answers: seq<Answer>, i: nat,
                                       j: nat, key: Word, value: Word)
    requires IsRun(ts, calls, answers) && i < j <= |calls|
    requires calls[i].op == OpInsert(key, value) && answers[i].ret == 0 && !answers[i].crashed
    requires forall k | i < k < j :: calls[k].op != OpRemove(key)
    ensures key in ts[j].pairs && ts[j].pairs[key] == value
    decreases j
  {
    assert StepAt(ts, calls, answers, j - 1);
    if i < j - 1 {
      InsertLasts(ts, calls, answers, i, j - 1, key, value);
    }
  }

  /** A removal that was acknowledged lasts, until a call inserts the key again. */
  lemma {:induction false} RemoveLasts(ts: seq<Table>, calls: seq<Call>, answers: seq<Answer>, i: nat,
                                       j: nat, key: Word)
    requires IsRun(ts, calls, answers) && i < j <= |calls|
    requires calls[i].op == OpRemove(key) && answers[i].ret != OID_NULL && !answers[i].crashed
    requires forall k | i < k < j :: !(calls[k].op.OpInsert? && calls[k].op.key == key)
    ensures key !in ts[j].pairs
    decreases j
  {
    assert StepAt(ts, calls, answers, j - 1);
    if i < j - 1 {
      RemoveLasts(ts, calls, answers, i, j - 1, key);
    }
  }

  /** What the map says about a key changes by calls for that key only. */
  lemma {:induction false} OthersLast(ts: seq<Table>, calls: seq<Call>, answers: seq<Answer>, i: nat, j: nat,
                                      key: Word)
    requires IsRun(ts, calls, answers) && i <= j <= |calls|
    requires forall k | i <= k < j :: !Touches(calls[k].op, key)
    ensures key in ts[j].pairs <==> key in ts[i].pairs
    ensures key in ts[j].pairs ==> ts[j].pairs[key] == ts[i].pairs[key]
    decreases j
  {
    if i < j {
      OthersLast(ts, calls, answers, i, j - 1, key);
      assert StepAt(ts, calls, answers, j - 1);
    }
  }

  /** A table created and used: its run starts from the empty map in 10 buckets and, but for the handle in
      `slot`, from the rest of the pool as it was. */
  method CreateAndRun(pool: Pool, slot: Loc, seed: Word, a: Word, b: Word, calls: seq<Call>)
    returns (r: CreateResult, hm: Oid, n: nat, answers: seq<Answer>, ghost ts: seq<Table>)
    requires pool.Idle() && slot in pool.heap.mem
    requires 0 < a < 0x1_0000_0000 && 0 <= b < 0x1_0000_0000
    modifies pool
    ensures pool.Idle()
    ensures !r.Created? ==> pool.heap == old(pool.heap) && pool.refused
    ensures r.Created? ==> n <= |calls| && (n < |calls| ==> !Admissible(calls[n].op))
    ensures r.Created? ==> IsRun(ts, calls[..n], answers) && Wf(pool.heap, hm) && ts[n] == TableOf(pool.heap, hm)
    ensures r.Created? ==>
        ts[0] == Table(map[], INIT_BUCKETS_NUM, Coeffs(a, b, HASH_FUNC_COEFF_P), old(pool.heap).Write(slot, hm))
    ensures r.Created? && (forall c | c in calls :: !Explicit(c.op)) ==>
        n == |calls| && forall i | 0 <= i <= n :: RegularSize(ts[i].nbuckets)
  {
    n, answers, ts := 0, [], [];
    r, hm := Create(pool, slot, seed, a, b);
    if !r.Created? { return; }
    n, answers, ts := Run(pool, hm, calls);
    RegularStart();
    if forall c | c in calls :: !Explicit(c.op) {
      assert n < |calls| ==> !Explicit(calls[n].op);
      forall i | 0 <= i <= n
        ensures RegularSize(ts[i].nbuckets)
      {
        RunSizes(ts, calls[..n], answers, i);
      }
    }
  }
}
