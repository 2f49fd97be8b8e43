/** Iteration over the table. */
module HashmapForeach {
  import opened Pmem
  import opened HashmapLayout
  import opened HashmapSteps

  type Calls = seq<(Word, Word)>

  function PairAt(h: Heap, e: Oid): (Word, Word) {
    (h.At(KeyLoc(e)), h.At(ValueLoc(e)))
  }

  /** The calls of the callback so far are the pairs of the entries `vs`, which are distinct entries of
      buckets before `i`. */
  ghost predicate Visited(h: Heap, hm: Oid, chains: seq<seq<Oid>>, i: nat, vs: seq<Oid>, calls: Calls)
    requires Shape(h, hm, chains)
  {
    && |calls| == |vs|
    && (forall j | 0 <= j < |vs| :: calls[j] == PairAt(h, vs[j]))
    && (forall j | 0 <= j < |vs| ::
          vs[j] in Entries(chains) && Hash(CoeffsOf(h, hm), |chains|, h.At(KeyLoc(vs[j]))) < i)
    && (forall j, k | 0 <= j < k < |vs| :: vs[j] != vs[k])
  }

  /** The walk along bucket `i` adds a prefix of its chain. */
  lemma VisitedMore(h: Heap, hm: Oid, chains: seq<seq<Oid>>, i: nat, vs: seq<Oid>, num: nat,
                    calls: Calls, more: Calls)
    requires Shape(h, hm, chains) && i < |chains| && num <= |chains[i]|
    requires Visited(h, hm, chains, i, vs, calls)
    requires |more| == num && forall j | 0 <= j < num :: more[j] == PairAt(h, chains[i][j])
    ensures Visited(h, hm, chains, i + 1, vs + chains[i][..num], calls + more)
  {
    var co := CoeffsOf(h, hm);
    ChainDistinct(h, hm, chains, i);
    forall j | 0 <= j < |chains[i]|
      ensures chains[i][j] in Entries(chains) && Hash(co, |chains|, h.At(KeyLoc(chains[i][j]))) == i
    {
      assert chains[i][j] in chains[i];
      EntryBucket(h, co, h.At(TableLoc(hm)), chains, chains[i][j]);
    }
  }

  /** What the callback returns may depend on its argument and on what it kept of all calls before. */
  type Callback = (Calls, Word, Word) -> int

  /** What call number `j` returned. */
  function ReturnOf(cb: Callback, calls: Calls, j: nat): int
    requires j < |calls|
  {
    cb(calls[..j], calls[j].0, calls[j].1)
  }

  /** What the last call of the callback returned. */
  function LastReturn(cb: Callback, calls: Calls): int {
    if calls == [] then 0 else ReturnOf(cb, calls, |calls| - 1)
  }

  /** Later calls do not change what earlier ones returned. */
  lemma ReturnKept(cb: Callback, calls: Calls, more: Calls, j: nat)
    requires j < |calls|
    ensures ReturnOf(cb, calls + more, j) == ReturnOf(cb, calls, j)
  {
    assert (calls + more)[..j] == calls[..j];
  }

  lemma ReturnNew(cb: Callback, calls: Calls, p: (Word, Word))
    ensures ReturnOf(cb, calls + [p], |calls|) == LastReturn(cb, calls + [p]) == cb(calls, p.0, p.1)
  {
    assert (calls + [p])[..|calls|] == calls;
  }

  /** The calls for one bucket after the calls `before`: a prefix of its chain that ends with the first
      nonzero return. */
  ghost predicate Walked(h: Heap, c: seq<Oid>, cb: Callback, before: Calls, more: Calls) {
    && |more| <= |c| && (forall j | 0 <= j < |more| :: more[j] == PairAt(h, c[j]))
    && (more == [] ==> c == [])
    && (forall j | |before| <= j < |before| + |more| - 1 :: ReturnOf(cb, before + more, j) == 0)
    && (more != [] && LastReturn(cb, before + more) == 0 ==> |more| == |c|)
  }

  /** The same calls, by recursion over the chain. */
  function CallsFor(h: Heap, c: seq<Oid>, cb: Callback, before: Calls): Calls {
    if c == [] then []
    else
      var p := PairAt(h, c[0]);
      [p] + if cb(before, p.0, p.1) == 0 then CallsFor(h, c[1..], cb, before + [p]) else []
  }

  /** The calls for all buckets, one bucket after the other. */
  function AllCalls(h: Heap, chains: seq<seq<Oid>>, cb: Callback): Calls {
    if chains == [] then []
    else
      var before := AllCalls(h, chains[..|chains| - 1], cb);
      before + CallsFor(h, chains[|chains| - 1], cb, before)
  }

  /** The first nonzero return determines the calls. */
  lemma {:induction false} WalkedCalls(h: Heap, c: seq<Oid>, cb: Callback, before: Calls, more: Calls)
    requires Walked(h, c, cb, before, more)
    ensures more == CallsFor(h, c, cb, before)
    decreases |c|
  {
    if c != [] {
      var p, rest := more[0], more[1..];
      assert more == [p] + rest && p == PairAt(h, c[0]);
      assert before + more == (before + [p]) + rest;
      ReturnNew(cb, before, p);
      ReturnKept(cb, before + [p], rest, |before|);
      if rest != [] {
        assert ReturnOf(cb, before + more, |before|) == 0;
        WalkedRest(h, c, cb, before, more);
        WalkedCalls(h, c[1..], cb, before + [p], rest);
      } else if cb(before, p.0, p.1) == 0 {
        assert before + more == before + [p];
        assert c[1..] == [];
      }
    }
  }

  lemma WalkedRest(h: Heap, c: seq<Oid>, cb: Callback, before: Calls, more: Calls)
    requires Walked(h, c, cb, before, more) && |more| > 1
    ensures Walked(h, c[1..], cb, before + [more[0]], more[1..])
  {
    var rest := more[1..];
    assert before + more == (before + [more[0]]) + rest;
    forall j | 0 <= j < |rest|
      ensures rest[j] == PairAt(h, c[1..][j])
    {
      assert rest[j] == more[j + 1];
    }
  }

  /** The inner loop of hm_tx_foreach: along a bucket until the callback returns nonzero. */
  method VisitBucket(pool: Pool, hm: Oid, i: nat, cb: Callback, before: Calls, ghost chains: seq<seq<Oid>>)
    returns (ret: int, more: Calls)
    requires Shape(pool.heap, hm, chains) && i < |chains| && chains[i] != []
    ensures Walked(pool.heap, chains[i], cb, before, more) && more != [] && ret == LastReturn(cb, before + more)
  {
    HeaderInHeap(pool.heap, hm, chains);
    WalkStep(pool.heap, hm, chains, i, 0);
    var t := pool.Read(TableLoc(hm));
    assert Chain(pool.heap, CoeffsOf(pool.heap, hm), t, |chains|, i, chains[i]);
    var v := pool.Read(BucketLoc(t, i));
    ret, more := 0, [];
    while v != OID_NULL
      invariant |more| <= |chains[i]| && v == Nth(chains[i], |more|)
      invariant v == OID_NULL <==> |more| == |chains[i]|
      invariant ret == 0 && Walking(pool.heap, chains[i], cb, before, more)
      decreases |chains[i]| - |more|
    {
      WalkStep(pool.heap, hm, chains, i, |more|);
      WalkStep(pool.heap, hm, chains, i, |more| + 1);
      var p := (pool.Read(KeyLoc(v)), pool.Read(ValueLoc(v)));
      WalkingOn(pool.heap, chains[i], cb, before, more, p);
      ret := cb(before + more, p.0, p.1);
      more := more + [p];
      if ret != 0 { break; }
      v := pool.Read(NextLoc(v));
    }
  }

  /** The walk along a bucket while the callback returns 0. */
  ghost predicate Walking(h: Heap, c: seq<Oid>, cb: Callback, before: Calls, more: Calls) {
    && |more| <= |c| && (forall j | 0 <= j < |more| :: more[j] == PairAt(h, c[j]))
    && (forall j | |before| <= j < |before| + |more| :: ReturnOf(cb, before + more, j) == 0)
    && (more != [] ==> LastReturn(cb, before + more) == 0)
  }

  lemma WalkingOn(h: Heap, c: seq<Oid>, cb: Callback, before: Calls, more: Calls, p: (Word, Word))
    requires Walking(h, c, cb, before, more) && |more| < |c| && p == PairAt(h, c[|more|])
    ensures LastReturn(cb, before + (more + [p])) == cb(before + more, p.0, p.1)
    ensures cb(before + more, p.0, p.1) == 0 ==> Walking(h, c, cb, before, more + [p])
    ensures cb(before + more, p.0, p.1) != 0 || |more| + 1 == |c| ==> Walked(h, c, cb, before, more + [p])
  {
    OneMoreCall(cb, before, more, p);
  }

  lemma OneMoreCall(cb: Callback, before: Calls, more: Calls, p: (Word, Word))
    ensures LastReturn(cb, before + (more + [p])) == cb(before + more, p.0, p.1)
    ensures forall j | |before| <= j < |before| + |more| ::
        ReturnOf(cb, before + (more + [p]), j) == ReturnOf(cb, before + more, j)
    ensures ReturnOf(cb, before + (more + [p]), |before| + |more|) == cb(before + more, p.0, p.1)
  {
    assert before + (more + [p]) == (before + more) + [p];
    ReturnNew(cb, before + more, p);
    forall j | |before| <= j < |before| + |more|
      ensures ReturnOf(cb, before + (more + [p]), j) == ReturnOf(cb, before + more, j)
    {
      ReturnKept(cb, before + more, [p], j);
    }
  }

  ghost predicate AllZero(cb: Callback, calls: Calls) {
    forall j | 0 <= j < |calls| :: ReturnOf(cb, calls, j) == 0
  }

  /** The first entry of every nonempty bucket before `i` is among `vs`. */
  ghost predicate Firsts(chains: seq<seq<Oid>>, i: nat, vs: seq<Oid>) {
    forall b | 0 <= b < i && b < |chains| && chains[b] != [] :: chains[b][0] in vs
  }

  /** All entries of the buckets before `i` are among `vs`. */
  ghost predicate Covers(chains: seq<seq<Oid>>, i: nat, vs: seq<Oid>) {
    forall b, e | 0 <= b < i && b < |chains| && e in chains[b] :: e in vs
  }

  /** What hm_tx_foreach did with the buckets before `i`. */
  ghost predicate Progress(h: Heap, hm: Oid, chains: seq<seq<Oid>>, i: nat, cb: Callback, vs: seq<Oid>,
                           calls: Calls)
    requires Shape(h, hm, chains)
  {
    && Visited(h, hm, chains, i, vs, calls)
    && Firsts(chains, i, vs)
    && (AllZero(cb, calls) ==> Covers(chains, i, vs))
  }

  lemma CoversMore(chains: seq<seq<Oid>>, i: nat, vs: seq<Oid>, num: nat)
    requires i < |chains| && num <= |chains[i]|
    ensures Firsts(chains, i, vs) && (num == 0 ==> chains[i] == []) ==> Firsts(chains, i + 1, vs + chains[i][..num])
    ensures Covers(chains, i, vs) && num == |chains[i]| ==> Covers(chains, i + 1, vs + chains[i][..num])
  {
    if 0 < num {
      assert chains[i][0] == chains[i][..num][0];
    }
    if num == |chains[i]| {
      assert chains[i][..num] == chains[i];
    }
  }

  lemma AllZeroSplit(cb: Callback, calls: Calls, more: Calls)
    ensures AllZero(cb, calls + more) ==> AllZero(cb, calls) && LastReturn(cb, calls + more) == 0
  {
    if AllZero(cb, calls + more) {
      forall j | 0 <= j < |calls|
        ensures ReturnOf(cb, calls, j) == 0
      {
        ReturnKept(cb, calls, more, j);
        assert ReturnOf(cb, calls + more, j) == 0;
      }
      if calls + more != [] {
        assert ReturnOf(cb, calls + more, |calls + more| - 1) == 0;
      }
    }
  }

  lemma ProgressStep(h: Heap, hm: Oid, chains: seq<seq<Oid>>, i: nat, cb: Callback,
                     vs: seq<Oid>, calls: Calls, more: Calls)
    requires Shape(h, hm, chains) && i < |chains| && Progress(h, hm, chains, i, cb, vs, calls)
    requires Walked(h, chains[i], cb, calls, more)
    ensures Progress(h, hm, chains, i + 1, cb, vs + chains[i][..|more|], calls + more)
  {
    VisitedMore(h, hm, chains, i, vs, |more|, calls, more);
    CoversMore(chains, i, vs, |more|);
    AllZeroSplit(cb, calls, more);
  }

  /** The calls, as pairs of the map. */
  ghost predicate Once(m: map<Word, Word>, calls: Calls) {
    && (forall j | 0 <= j < |calls| :: calls[j].0 in m && m[calls[j].0] == calls[j].1)
    && (forall j, k | 0 <= j < k < |calls| :: calls[j].0 != calls[k].0)
  }

  lemma ProgressOnce(h: Heap, hm: Oid, chains: seq<seq<Oid>>, vs: seq<Oid>, calls: Calls)
    requires Shape(h, hm, chains) && Visited(h, hm, chains, |chains|, vs, calls)
    ensures Once(Pairs(h, Entries(chains)), calls)
  {
    forall j | 0 <= j < |calls|
      ensures calls[j].0 in Pairs(h, Entries(chains)) && Pairs(h, Entries(chains))[calls[j].0] == calls[j].1
    {
      KeyPresent(h, Entries(chains), vs[j]);
    }
    forall j, k | 0 <= j < k < |calls|
      ensures calls[j].0 != calls[k].0
    {
      assert vs[j] != vs[k];
    }
  }

  lemma VisitedCalls(h: Heap, hm: Oid, chains: seq<seq<Oid>>, i: nat, vs: seq<Oid>, calls: Calls, e: Oid)
    requires Shape(h, hm, chains) && Visited(h, hm, chains, i, vs, calls) && e in vs
    ensures PairAt(h, e) in calls
  {
    var j :| 0 <= j < |vs| && vs[j] == e;
    assert calls[j] == PairAt(h, e);
  }

  lemma ProgressAll(h: Heap, hm: Oid, chains: seq<seq<Oid>>, vs: seq<Oid>, calls: Calls)
    requires Shape(h, hm, chains) && Visited(h, hm, chains, |chains|, vs, calls) && Covers(chains, |chains|, vs)
    ensures forall k | k in Pairs(h, Entries(chains)) :: (k, Pairs(h, Entries(chains))[k]) in calls
  {
    var m := Pairs(h, Entries(chains));
    forall k | k in m
      ensures (k, m[k]) in calls
    {
      var e :| e in Entries(chains) && h.At(KeyLoc(e)) == k;
      KeyPresent(h, Entries(chains), e);
      VisitedCalls(h, hm, chains, |chains|, vs, calls, e);
    }
  }

  /** The outer loop of hm_tx_foreach. */
  method VisitAll(pool: Pool, hm: Oid, cb: Callback, ghost chains: seq<seq<Oid>>)
    returns (ret: int, calls: Calls, ghost vs: seq<Oid>)
    requires Shape(pool.heap, hm, chains)
    ensures Progress(pool.heap, hm, chains, |chains|, cb, vs, calls)
    ensures ret == LastReturn(cb, calls) && calls == AllCalls(pool.heap, chains, cb)
  {
    ghost var h := pool.heap;
    ret, calls, vs := 0, [], [];
    var i := 0;
    var n := SlotCount(pool, hm, chains);
    while i < n
      invariant 0 <= i <= n == |chains|
      invariant Progress(h, hm, chains, i, cb, vs, calls)
      invariant ret == LastReturn(cb, calls) && calls == AllCalls(h, chains[..i], cb)
    {
      ret, calls, vs := VisitNext(pool, hm, i, cb, ret, calls, vs, chains);
      i := i + 1;
      n := SlotCount(pool, hm, chains);
    }
    assert chains[..|chains|] == chains;
  }

  lemma AllCallsNext(h: Heap, chains: seq<seq<Oid>>, i: nat, cb: Callback)
    requires i < |chains|
    ensures
      var before := AllCalls(h, chains[..i], cb);
      AllCalls(h, chains[..i + 1], cb) == before + CallsFor(h, chains[i], cb, before)
  {
    assert chains[..i + 1][..i] == chains[..i];
  }

  method SlotCount(pool: Pool, hm: Oid, ghost chains: seq<seq<Oid>>) returns (n: nat)
    requires Shape(pool.heap, hm, chains)
    ensures n == |chains|
  {
    HeaderInHeap(pool.heap, hm, chains);
    n := pool.Read(NBucketsLoc(pool.Read(TableLoc(hm))));
  }

  /** One round of the outer loop of hm_tx_foreach. */
  method VisitNext(pool: Pool, hm: Oid, i: nat, cb: Callback, was: int, calls: Calls, ghost vs: seq<Oid>,
                   ghost chains: seq<seq<Oid>>)
    returns (ret: int, calls': Calls, ghost vs': seq<Oid>)
    requires Shape(pool.heap, hm, chains) && i < |chains| && was == LastReturn(cb, calls)
    requires Progress(pool.heap, hm, chains, i, cb, vs, calls) && calls == AllCalls(pool.heap, chains[..i], cb)
    ensures Progress(pool.heap, hm, chains, i + 1, cb, vs', calls')
    ensures ret == LastReturn(cb, calls') && calls' == AllCalls(pool.heap, chains[..i + 1], cb)
  {
    AllCallsNext(pool.heap, chains, i, cb);
    var more;
    ret, more := VisitSlot(pool, hm, i, cb, was, calls, chains);
    ProgressStep(pool.heap, hm, chains, i, cb, vs, calls, more);
    WalkedCalls(pool.heap, chains[i], cb, calls, more);
    calls', vs' := calls + more, vs + chains[i][..|more|];
  }

  /** The calls for one bucket; an empty bucket leaves what was returned before. */
  method VisitSlot(pool: Pool, hm: Oid, i: nat, cb: Callback, was: int, calls: Calls, ghost chains: seq<seq<Oid>>)
    returns (ret: int, more: Calls)
    requires Shape(pool.heap, hm, chains) && i < |chains| && was == LastReturn(cb, calls)
    ensures Walked(pool.heap, chains[i], cb, calls, more)
    ensures ret == LastReturn(cb, calls + more)
  {
    HeaderInHeap(pool.heap, hm, chains);
    BucketHead(pool.heap, hm, chains, i);
    var t := pool.Read(TableLoc(hm));
    if pool.Read(BucketLoc(t, i)) == OID_NULL {
      ret, more := was, [];
      assert calls + more == calls;
    } else {
      ret, more := VisitBucket(pool, hm, i, cb, calls, chains);
    }
  }

  lemma BucketHead(h: Heap, hm: Oid, chains: seq<seq<Oid>>, i: nat)
    requires Shape(h, hm, chains) && i < |chains|
    ensures h.At(BucketLoc(h.At(TableLoc(hm)), i)) == OID_NULL <==> chains[i] == []
  {
    WalkStep(h, hm, chains, i, 0);
    assert Chain(h, CoeffsOf(h, hm), h.At(TableLoc(hm)), |chains|, i, chains[i]);
  }

  /** hm_tx_foreach. The calls are those for one bucket after the other, along each until the first nonzero
      return. So no pair is passed to the callback twice, with a callback that returns 0 throughout every pair
      is, and whatever it does the first pair of every bucket is. What the last call returned is returned. */
  method ForEach(pool: Pool, hm: Oid, cb: Callback) returns (ret: int, calls: Calls)
    requires pool.Idle() && Wf(pool.heap, hm)
    ensures Once(Contents(pool.heap, hm), calls)
    ensures ret == LastReturn(cb, calls) && calls == AllCalls(pool.heap, Chains(pool.heap, hm), cb)
    ensures AllZero(cb, calls) ==> forall k | k in Contents(pool.heap, hm) :: (k, Contents(pool.heap, hm)[k]) in calls
    ensures
      var chains := Chains(pool.heap, hm);
      forall b | 0 <= b < |chains| && chains[b] != [] :: PairAt(pool.heap, chains[b][0]) in calls
  {
    ghost var h, chains, vs := pool.heap, Chains(pool.heap, hm), [];
    ret, calls, vs := VisitAll(pool, hm, cb, chains);
    ProgressOnce(h, hm, chains, vs, calls);
    if AllZero(cb, calls) {
      ProgressAll(h, hm, chains, vs, calls);
    }
    forall b | 0 <= b < |chains| && chains[b] != []
      ensures PairAt(h, chains[b][0]) in calls
    {
      VisitedCalls(h, hm, chains, |chains|, vs, calls, chains[b][0]);
    }
  }
}
