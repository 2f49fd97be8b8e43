/** The operations of the transactional hash map, as the program runs them on a pool. */
module HashmapTx {
  import opened Pmem
  import opened HashmapLayout
  import opened HashmapSteps
  import opened HashmapRelink

  // ----- Rebuild

  /** The open transaction of a rebuild, with the entries `es` divided between `oc` and `nc`; in the new array
      there is room for `room` buckets. */
  ghost predicate Rebuilding(pool: Pool, hm: Oid, was: Oid, now: Oid, room: nat, es: set<Oid>,
                             oc: seq<seq<Oid>>, nc: seq<seq<Oid>>)
    reads pool
  {
    && pool.Working() && pool.freed == {}
    && Relinking(pool.base, pool.heap, CoeffsOf(pool.base, hm), was, now, room, es, oc, nc)
    && now in pool.born
    && TableLoc(hm) in Logged(pool.log)
    && forall j | 0 <= j < |oc| :: BucketLoc(was, j) in Logged(pool.log)
  }

  ghost predicate Header(h0: Heap, hm: Oid, was: Oid, es: set<Oid>) {
    hm in h0.objs && h0.objs[hm] == HASHMAP && hm !in es && hm != was
  }

  /** The writes of the inner loop of hm_tx_rebuild: the entry leaves the old bucket, its link is
      snapshotted and then joins it to the front of the new bucket. With `wild` there is no such bucket; the
      code goes on to read and write outside of the array, and nothing is known any more. */
  method MoveLinks(pool: Pool, was: Oid, i: nat, now: Oid, g: nat) returns (ok: bool, wild: bool)
    requires pool.Working()
    requires BucketLoc(was, i) in Logged(pool.log) && BucketLoc(was, i) in pool.heap.mem
    requires NextLoc(pool.heap.At(BucketLoc(was, i))) in pool.heap.mem
    requires now in pool.born && was != now && pool.heap.At(BucketLoc(was, i)) != now
    modifies pool
    ensures pool.TxAfter(ok) && pool.base == old(pool.base) && pool.past == old(pool.past)
    ensures pool.freed == old(pool.freed) && pool.born == old(pool.born) && Logged(old(pool.log)) <= Logged(pool.log)
    ensures wild ==> BucketLoc(now, g) !in old(pool.heap).mem
    ensures ok && !wild ==> BucketLoc(now, g) in old(pool.heap).mem
    ensures ok && !wild ==> pool.heap == MoveFirst(old(pool.heap), was, i, now, g)
  {
    wild := false;
    var en := pool.Read(BucketLoc(was, i));
    pool.Store(BucketLoc(was, i), pool.Read(NextLoc(en)));
    ok := pool.AddField(NextLoc(en));
    if !ok { return; }
    wild := BucketLoc(now, g) !in pool.heap.mem;
    if wild { return; }
    pool.Store(NextLoc(en), pool.Read(BucketLoc(now, g)));
    pool.Store(BucketLoc(now, g), en);
  }

  /** One round of the inner loop of hm_tx_rebuild. */
  method MoveEntry(pool: Pool, hm: Oid, was: Oid, now: Oid, i: nat, ghost room: nat, ghost es: set<Oid>,
                   ghost oc: seq<seq<Oid>>, ghost nc: seq<seq<Oid>>)
    returns (ok: bool, wild: bool, ghost oc': seq<seq<Oid>>, ghost nc': seq<seq<Oid>>)
    requires Header(pool.base, hm, was, es)
    requires Rebuilding(pool, hm, was, now, room, es, oc, nc) && i < |oc| && oc[i] != []
    modifies pool
    ensures pool.TxAfter(ok) && pool.base == old(pool.base) && pool.past == old(pool.past)
    ensures wild ==> Stray(pool.base, CoeffsOf(pool.base, hm), |nc|, room, es)
    ensures ok && !wild ==> Rebuilding(pool, hm, was, now, room, es, oc', nc')
    ensures oc' == oc[i := oc[i][1..]] && |nc'| == |nc|
    ensures ok && !wild ==> BucketLoc(was, i) in pool.heap.mem
    ensures ok && !wild ==> (pool.heap.At(BucketLoc(was, i)) == OID_NULL <==> oc'[i] == [])
  {
    ghost var h0 := pool.base;
    MoveFirstCells(h0, pool.heap, CoeffsOf(h0, hm), was, now, room, es, oc, nc, i);
    HeaderKept(h0, pool.heap, hm, was, now, room, es);
    NewTable(pool.heap, CoeffsOf(h0, hm), now, room, nc);
    var en := pool.Read(BucketLoc(was, i));
    var co := Coeffs(pool.Read(HashALoc(hm)), pool.Read(HashBLoc(hm)), pool.Read(HashPLoc(hm)));
    var g := Hash(co, pool.Read(NBucketsLoc(now)), pool.Read(KeyLoc(en)));
    assert KeyLoc(en) in h0.mem && en in es;
    oc', nc' := oc[i := oc[i][1..]], nc[g := [en] + nc[g]];
    if g < room {
      MoveFirstStep(h0, pool.heap, CoeffsOf(h0, hm), was, now, room, es, oc, nc, i, g);
    }
    ok, wild := MoveLinks(pool, was, i, now, g);
    if ok && !wild {
      OldBucket(pool.heap, CoeffsOf(h0, hm), was, oc', i);
    }
  }

  /** The transaction of hm_tx_rebuild up to the point where the new array is in place and empty, and the
      old array is snapshotted. */
  method RebuildBegin(pool: Pool, hm: Oid, was: Oid, oldLen: nat, newLen: nat)
    returns (ok: bool, now: Oid)
    requires pool.Idle() && TableLoc(hm) in pool.heap.mem
    requires was in pool.heap.objs && pool.heap.objs[was] == Buckets(oldLen)
    modifies pool
    ensures pool.TxAfter(ok) && pool.base == old(pool.heap) && pool.past == old(pool.images) && pool.freed == {}
    ensures ok ==> now in pool.born && TableLoc(hm) in Logged(pool.log)
    ensures ok ==> forall j | 0 <= j < oldLen :: BucketLoc(was, j) in Logged(pool.log)
    ensures ok ==> now !in old(pool.heap).objs && pool.heap.objs == old(pool.heap).objs[now := Buckets(Room(newLen))]
    ensures ok ==> forall l | l in old(pool.heap).mem :: pool.heap.At(l) == old(pool.heap).At(l)
    ensures ok ==> pool.heap.At(NBucketsLoc(now)) == newLen
    ensures ok ==> forall i | 0 <= i < newLen :: pool.heap.At(BucketLoc(now, i)) == 0
    ensures ok ==> BucketsBytes(newLen) <= MAX_ALLOC_SIZE
  {
    now := OID_NULL;
    RoomOfBytes(newLen);
    ok := pool.Begin();
    if !ok { return; }
    ok := pool.AddField(TableLoc(hm));
    if !ok { return; }
    ok, now := pool.Alloc(BUCKETS_TYPE, BucketsBytes(newLen), true);
    if !ok { return; }
    pool.Store(NBucketsLoc(now), newLen);
    ok := pool.AddRange(was, 0, oldLen + 1);
  }

  lemma UpdateTwice<T>(s: seq<T>, i: nat, x: T, y: T)
    requires i < |s|
    ensures s[i := x][i := y] == s[i := y]
  {
  }

  /** The inner loop of hm_tx_rebuild: one old bucket is emptied. */
  method MoveBucket(pool: Pool, hm: Oid, was: Oid, now: Oid, i: nat, ghost room: nat, ghost es: set<Oid>,
                    ghost oc0: seq<seq<Oid>>, ghost nc0: seq<seq<Oid>>)
    returns (ok: bool, wild: bool, ghost oc: seq<seq<Oid>>, ghost nc: seq<seq<Oid>>)
    requires Header(pool.base, hm, was, es)
    requires Rebuilding(pool, hm, was, now, room, es, oc0, nc0) && i < |oc0|
    modifies pool
    ensures pool.TxAfter(ok) && pool.base == old(pool.base) && pool.past == old(pool.past)
    ensures wild ==> Stray(pool.base, CoeffsOf(pool.base, hm), |nc0|, room, es)
    ensures ok && !wild ==> Rebuilding(pool, hm, was, now, room, es, oc, nc) && oc == oc0[i := []]
    ensures |nc| == |nc0|
  {
    oc, nc, wild := oc0, nc0, false;
    OldBucket(pool.heap, CoeffsOf(pool.base, hm), was, oc, i);
    while pool.Read(BucketLoc(was, i)) != OID_NULL
      invariant |oc| == |oc0| && |nc| == |nc0| && oc == oc0[i := oc[i]] && !wild
      invariant pool.base == old(pool.base) && pool.past == old(pool.past)
      invariant Rebuilding(pool, hm, was, now, room, es, oc, nc)
      invariant BucketLoc(was, i) in pool.heap.mem
      invariant pool.heap.At(BucketLoc(was, i)) == OID_NULL <==> oc[i] == []
      decreases |oc[i]|
    {
      UpdateTwice(oc0, i, oc[i], oc[i][1..]);
      ok, wild, oc, nc := MoveEntry(pool, hm, was, now, i, room, es, oc, nc);
      if !ok || wild { return; }
    }
    ok := true;
  }

  /** The nested loops of hm_tx_rebuild: all old buckets are emptied. */
  method MoveAll(pool: Pool, hm: Oid, was: Oid, now: Oid, ghost room: nat, ghost es: set<Oid>,
                 ghost oc0: seq<seq<Oid>>, ghost nc0: seq<seq<Oid>>)
    returns (ok: bool, wild: bool, ghost oc: seq<seq<Oid>>, ghost nc: seq<seq<Oid>>)
    requires Header(pool.base, hm, was, es)
    requires Rebuilding(pool, hm, was, now, room, es, oc0, nc0)
    modifies pool
    ensures pool.TxAfter(ok) && pool.base == old(pool.base) && pool.past == old(pool.past)
    ensures wild ==> Stray(pool.base, CoeffsOf(pool.base, hm), |nc0|, room, es)
    ensures ok && !wild ==> Rebuilding(pool, hm, was, now, room, es, oc, nc)
    ensures ok && !wild ==> |nc| == |nc0| && forall i | 0 <= i < |oc| :: oc[i] == []
  {
    oc, nc, wild := oc0, nc0, false;
    OldTable(pool.heap, CoeffsOf(pool.base, hm), was, oc);
    var i := 0;
    while i < pool.Read(NBucketsLoc(was))
      invariant 0 <= i <= |oc| == |oc0| && |nc| == |nc0| && !wild
      invariant pool.base == old(pool.base) && pool.past == old(pool.past)
      invariant Rebuilding(pool, hm, was, now, room, es, oc, nc)
      invariant NBucketsLoc(was) in pool.heap.mem && pool.heap.At(NBucketsLoc(was)) == |oc|
      invariant forall j | 0 <= j < i :: oc[j] == []
      decreases |oc0| - i
    {
      ok, wild, oc, nc := MoveBucket(pool, hm, was, now, i, room, es, oc, nc);
      if !ok || wild { return; }
      OldTable(pool.heap, CoeffsOf(pool.base, hm), was, oc);
      i := i + 1;
    }
    ok := true;
  }

  method RebuildOpen(pool: Pool, hm: Oid, was: Oid, oldLen: nat, len: nat, ghost chains: seq<seq<Oid>>)
    returns (ok: bool, now: Oid)
    requires pool.Idle() && Shape(pool.heap, hm, chains)
    requires was == pool.heap.At(TableLoc(hm)) && oldLen == |chains| && len > 0
    modifies pool
    ensures pool.TxAfter(ok) && pool.base == old(pool.heap) && pool.past == old(pool.images)
    ensures ok ==> Rebuilding(pool, hm, was, now, Room(len), Entries(chains), chains, Empty(len))
    ensures ok ==> BucketsBytes(len) <= MAX_ALLOC_SIZE
  {
    assert TableLoc(hm) in pool.heap.mem;
    ok, now := RebuildBegin(pool, hm, was, oldLen, len);
    if ok {
      RelinkStart(pool.base, pool.heap, hm, chains, now, Room(len), len);
    }
  }

  /** The end of the transaction of hm_tx_rebuild: the header is led to the new array. */
  method RebuildClose(pool: Pool, hm: Oid, was: Oid, now: Oid, ghost room: nat, ghost chains: seq<seq<Oid>>,
                      ghost oc: seq<seq<Oid>>, ghost nc: seq<seq<Oid>>)
    returns (ok: bool)
    requires Header(pool.base, hm, was, Entries(chains))
    requires Rebuilding(pool, hm, was, now, room, Entries(chains), oc, nc)
    modifies pool
    ensures pool.TxAfter(ok) && pool.base == old(pool.base) && pool.past == old(pool.past)
    ensures ok ==> pool.heap.Without(pool.freed) == Swing(old(pool.heap), hm, was, now)
  {
    HeaderKept(pool.base, pool.heap, hm, was, now, room, Entries(chains));
    pool.Store(TableLoc(hm), now);
    ok := pool.Free(was);
  }

  /** A length that can be allocated is safe exactly when there is room for all its buckets. */
  lemma RoomIffFits(len: nat)
    requires BucketsBytes(len) <= MAX_ALLOC_SIZE
    ensures Fits(len) <==> Room(len) == len
    ensures Fits(len) ==> 8 + len * 16 <= MAX_ALLOC_SIZE
  {
    RoomOfBytes(len);
  }

  /** Some key belongs in a bucket that an array asked to have `len` buckets has no room for. */
  ghost predicate Strays(h: Heap, hm: Oid, len: nat)
    requires Wf(h, hm) && len > 0
  {
    exists k :: k in Contents(h, hm) && Hash(CoeffsOf(h, hm), len, k) >= Room(len)
  }

  lemma StrayKey(h: Heap, hm: Oid, len: nat)
    requires Wf(h, hm) && len > 0
    ensures Strays(h, hm, len) <==> Stray(h, CoeffsOf(h, hm), len, Room(len), Entries(Chains(h, hm)))
  {
    var es := Entries(Chains(h, hm));
    forall e | e in es
      ensures h.At(KeyLoc(e)) in Contents(h, hm)
    {
      KeyPresent(h, es, e);
    }
  }

  /** In an array asked to have 2^60 buckets there is no room for any key. */
  lemma UnfitStrays(h: Heap, hm: Oid, k: Word)
    requires Wf(h, hm) && k in Contents(h, hm)
    ensures Strays(h, hm, 0x1000_0000_0000_0000) && !Fits(0x1000_0000_0000_0000)
  {
    UnfitExample();
    assert Hash(CoeffsOf(h, hm), 0x1000_0000_0000_0000, k) >= 0;
  }

  /** What a rebuild to `len` buckets that got to its end leaves, and that it stored nothing out of bounds. */
  ghost predicate Rebuilt(h0: Heap, h: Heap, hm: Oid, len: nat)
    requires Wf(h0, hm) && len > 0
  {
    && !Strays(h0, hm, len)
    && (Wf(h, hm) <==> Fits(len))
    && (Fits(len) ==> Yields(h0, h, hm, Contents(h0, hm), {len}))
  }

  lemma SwingRebuilt(h0: Heap, h: Heap, hm: Oid, chains: seq<seq<Oid>>, now: Oid, len: nat,
                     oc: seq<seq<Oid>>, nc: seq<seq<Oid>>)
    requires Shape(h0, hm, chains) && BucketsBytes(len) <= MAX_ALLOC_SIZE && len == |nc| > 0
    requires Relinking(h0, h, CoeffsOf(h0, hm), h0.At(TableLoc(hm)), now, Room(len), Entries(chains), oc, nc)
    requires forall i | 0 <= i < |oc| :: oc[i] == []
    ensures Wf(h0, hm) && Rebuilt(h0, Swing(h, hm, h0.At(TableLoc(hm)), now), hm, len)
  {
    SwingNoStray(h0, h, hm, chains, now, len, oc, nc);
    ShapeUnique(h0, hm, chains);
    RoomIffFits(len);
    if Fits(len) {
      SwingYields(h0, h, hm, chains, now, oc, nc);
    } else {
      HeaderInHeap(h0, hm, chains);
      SwingUnfit(h0, h, hm, h0.At(TableLoc(hm)), now, Room(len), Entries(chains), CoeffsOf(h0, hm), nc);
    }
  }

  lemma SwingNoStray(h0: Heap, h: Heap, hm: Oid, chains: seq<seq<Oid>>, now: Oid, len: nat,
                     oc: seq<seq<Oid>>, nc: seq<seq<Oid>>)
    requires Shape(h0, hm, chains) && len == |nc| > 0
    requires Relinking(h0, h, CoeffsOf(h0, hm), h0.At(TableLoc(hm)), now, Room(len), Entries(chains), oc, nc)
    requires forall i | 0 <= i < |oc| :: oc[i] == []
    ensures Wf(h0, hm) && !Strays(h0, hm, len)
  {
    ShapeUnique(h0, hm, chains);
    StrayKey(h0, hm, len);
    EmptyEntries(oc);
    assert Entries(nc) == Entries(chains);
    HeaderInHeap(h0, hm, chains);
    forall e | e in Entries(chains)
      ensures e in h0.objs && h0.objs[e] == ENTRY && e != h0.At(TableLoc(hm))
    {
      EntryInHeap(h0, hm, chains, e);
    }
    NoStray(h0, h, h0.At(TableLoc(hm)), now, Room(len), Entries(chains), CoeffsOf(h0, hm), nc);
  }

  /** The work of hm_tx_rebuild inside its transaction, before it commits or aborts. */
  method RebuildWork(pool: Pool, hm: Oid, was: Oid, oldLen: nat, len: nat, ghost chains: seq<seq<Oid>>)
    returns (ok: bool, wild: bool)
    requires pool.Idle() && Shape(pool.heap, hm, chains)
    requires was == pool.heap.At(TableLoc(hm)) && oldLen == |chains| && len > 0
    modifies pool
    ensures pool.TxAfter(ok) && pool.base == old(pool.heap) && pool.past == old(pool.images)
    ensures wild ==> Wf(pool.base, hm) && !Fits(len) && Strays(pool.base, hm, len)
    ensures ok && !wild ==> Wf(pool.base, hm) && Rebuilt(pool.base, pool.heap.Without(pool.freed), hm, len)
  {
    HeaderInHeap(pool.heap, hm, chains);
    ShapeUnique(pool.heap, hm, chains);
    StrayKey(pool.heap, hm, len);
    wild := false;
    var now;
    ok, now := RebuildOpen(pool, hm, was, oldLen, len, chains);
    if !ok { return; }
    RoomIffFits(len);
    ghost var oc, nc;
    ok, wild, oc, nc := MoveAll(pool, hm, was, now, Room(len), Entries(chains), chains, Empty(len));
    if !ok || wild { return; }
    SwingRebuilt(pool.base, pool.heap, hm, chains, now, len, oc, nc);
    ok := RebuildClose(pool, hm, was, now, Room(len), chains, oc, nc);
  }

  /** hm_tx_rebuild. A length of 0 asks for as many buckets as there are. Failure is not reported: the
      table is then as before. A rebuild that commits leaves a table exactly when the length is safe. The code
      goes outside of the new array exactly when some key belongs in a bucket there is no room for, which
      takes a length that is not safe. */
  method Rebuild(pool: Pool, hm: Oid, newLen: nat) returns (wild: bool)
    requires pool.Idle() && Wf(pool.heap, hm) && newLen < WORD_RANGE
    modifies pool
    ensures Resized(NBuckets(old(pool.heap), hm), newLen) > 0
    ensures
      var len := Resized(NBuckets(old(pool.heap), hm), newLen);
      wild ==> !Fits(len) && Strays(old(pool.heap), hm, len)
    ensures !wild ==> pool.Idle() && Recovers(old(pool.images), pool.images, old(pool.heap), pool.heap)
    ensures !wild && pool.refused ==> pool.heap == old(pool.heap)
    ensures !wild && !pool.refused ==>
        Rebuilt(old(pool.heap), pool.heap, hm, Resized(NBuckets(old(pool.heap), hm), newLen))
  {
    ghost var chains := Chains(pool.heap, hm);
    HeaderInHeap(pool.heap, hm, chains);
    var was := pool.Read(TableLoc(hm));
    var oldLen := pool.Read(NBucketsLoc(was));
    var ok;
    ok, wild := RebuildWork(pool, hm, was, oldLen, if newLen == 0 then oldLen else newLen, chains);
    if wild { return; }
    if ok {
      pool.Commit();
    } else {
      pool.Abort();
    }
  }

  // ----- Insert

  /** The new entry of hm_tx_insert, filled in and put in front of its bucket. */
  method FillEntry(pool: Pool, e: Oid, t: Oid, i: nat, key: Word, value: Word)
    requires pool.Working() && e in pool.born && e in pool.heap.objs && pool.heap.objs[e] == ENTRY && e != t
    requires BucketLoc(t, i) in pool.heap.mem && BucketLoc(t, i) in Logged(pool.log)
    modifies pool
    ensures pool.Working() && pool.base == old(pool.base) && pool.past == old(pool.past)
    ensures pool.log == old(pool.log) && pool.born == old(pool.born) && pool.freed == old(pool.freed)
    ensures pool.heap == FilledHeap(old(pool.heap), t, i, e, key, value)
  {
    pool.Store(KeyLoc(e), key);
    pool.Store(ValueLoc(e), value);
    pool.Store(NextLoc(e), pool.Read(BucketLoc(t, i)));
    pool.Store(BucketLoc(t, i), e);
  }

  /** The `count` field of the header goes up or down. */
  method CountBy(pool: Pool, hm: Oid, change: int)
    requires pool.Working() && CountLoc(hm) in pool.heap.mem && CountLoc(hm) in Logged(pool.log)
    modifies pool
    ensures pool.Working() && pool.base == old(pool.base) && pool.past == old(pool.past)
    ensures pool.log == old(pool.log) && pool.born == old(pool.born) && pool.freed == old(pool.freed)
    ensures pool.heap == Counted(old(pool.heap), hm, change)
  {
    pool.Store(CountLoc(hm), Wrap(pool.Read(CountLoc(hm)) + change));
  }

  /** The work of hm_tx_insert inside its transaction; `a` is the heap right after the allocation. */
  method LinkWork(pool: Pool, hm: Oid, t: Oid, i: nat, key: Word, value: Word)
    returns (ok: bool, e: Oid, ghost a: Heap)
    requires pool.Idle() && BucketLoc(t, i) in pool.heap.mem && CountLoc(hm) in pool.heap.mem
    modifies pool
    ensures pool.TxAfter(ok) && pool.base == old(pool.heap) && pool.past == old(pool.images) && pool.freed == {}
    ensures ok ==> Extends(pool.base, a, e, ENTRY) && pool.heap == LinkedHeap(a, hm, t, i, e, key, value)
  {
    e, a := OID_NULL, pool.heap;
    ok := pool.Begin();
    if !ok { return; }
    ok := pool.AddField(BucketLoc(t, i));
    if !ok { return; }
    ok := pool.AddField(CountLoc(hm));
    if !ok { return; }
    ok, e := pool.Alloc(ENTRY_TYPE, 40, false);
    if !ok { return; }
    a := pool.heap;
    FillEntry(pool, e, t, i, key, value);
    CountBy(pool, hm, 1);
  }

  /** The transaction of hm_tx_insert. */
  method LinkEntry(pool: Pool, hm: Oid, t: Oid, i: nat, key: Word, value: Word) returns (ok: bool, ghost e: Oid)
    requires pool.Idle() && BucketLoc(t, i) in pool.heap.mem && CountLoc(hm) in pool.heap.mem
    requires t != hm && pool.heap.At(TableLoc(hm)) == t
    modifies pool
    ensures pool.Idle() && (ok <==> !pool.refused) && Recovers(old(pool.images), pool.images, old(pool.heap), pool.heap)
    ensures !ok ==> pool.heap == old(pool.heap)
    ensures ok ==> LinkedIn(old(pool.heap), pool.heap, hm, i, e, key, value)
  {
    ghost var a;
    ok, e, a := LinkWork(pool, hm, t, i, key, value);
    if ok {
      LinkedInIntro(pool.base, a, hm, t, i, e, key, value);
      WithoutNone(pool.heap);
      pool.Commit();
    } else {
      pool.Abort();
    }
  }

  // ----- Remove

  /** The work of hm_tx_remove inside its transaction. */
  method UnlinkWork(pool: Pool, hm: Oid, t: Oid, i: nat, prev: Oid, v: Oid) returns (ok: bool)
    requires pool.Idle() && v in pool.heap.objs && NextLoc(v) in pool.heap.mem && CountLoc(hm) in pool.heap.mem
    requires LinkLoc(t, i, prev) in pool.heap.mem && LinkLoc(t, i, prev) != CountLoc(hm)
    modifies pool
    ensures pool.TxAfter(ok) && pool.base == old(pool.heap) && pool.past == old(pool.images)
    ensures ok ==> pool.freed == {v} && pool.heap == UnlinkedHeap(pool.base, hm, LinkLoc(t, i, prev), v)
  {
    ok := pool.Begin();
    if !ok { return; }
    if prev == OID_NULL {
      ok := pool.AddField(BucketLoc(t, i));
    } else {
      ok := pool.AddField(NextLoc(prev));
    }
    if !ok { return; }
    ok := pool.AddField(CountLoc(hm));
    if !ok { return; }
    if prev == OID_NULL {
      pool.Store(BucketLoc(t, i), pool.Read(NextLoc(v)));
    } else {
      pool.Store(NextLoc(prev), pool.Read(NextLoc(v)));
    }
    CountBy(pool, hm, -1);
    ok := pool.Free(v);
  }

  /** The transaction of hm_tx_remove. */
  method UnlinkEntry(pool: Pool, hm: Oid, t: Oid, i: nat, prev: Oid, v: Oid, ghost c: seq<Oid>, ghost k: nat)
    returns (ok: bool)
    requires pool.Idle() && v in pool.heap.objs && NextLoc(v) in pool.heap.mem && CountLoc(hm) in pool.heap.mem
    requires k < |c| && v == c[k] && prev == (if k == 0 then OID_NULL else c[k - 1]) && (k > 0 ==> prev != OID_NULL)
    requires LinkLoc(t, i, prev) in pool.heap.mem && t == pool.heap.At(TableLoc(hm))
    requires t != hm && v != t && v != hm && prev != hm && prev != v
    modifies pool
    ensures pool.Idle() && (ok <==> !pool.refused) && Recovers(old(pool.images), pool.images, old(pool.heap), pool.heap)
    ensures !ok ==> pool.heap == old(pool.heap)
    ensures ok ==> TakenOut(old(pool.heap), pool.heap, hm, i, c, k)
  {
    ok := UnlinkWork(pool, hm, t, i, prev, v);
    if ok {
      TakenOutIntro(pool.base, hm, i, c, k);
      pool.Commit();
    } else {
      pool.Abort();
    }
  }

  // ----- The operations

  /** Whenever the power fails during the operation, the table is as before or has the contents `m`. */
  ghost predicate Atomic(past: seq<Image>, images: seq<Image>, h0: Heap, hm: Oid, m: map<Word, Word>,
                         sizes: set<Word>)
    requires Wf(h0, hm)
  {
    && past <= images
    && forall k | |past| <= k < |images| :: Recover(images[k]) == h0 || Yields(h0, Recover(images[k]), hm, m, sizes)
  }

  /** The search loop that the operations share: the entry of bucket `i` that holds the key, with its
      predecessor, or null. */
  method Find(pool: Pool, hm: Oid, i: nat, key: Word, ghost chains: seq<seq<Oid>>)
    returns (v: Oid, prev: Oid, num: nat)
    requires Shape(pool.heap, hm, chains) && i < |chains|
    ensures num <= |chains[i]| && v == Nth(chains[i], num)
    ensures prev == if num == 0 then OID_NULL else chains[i][num - 1]
    ensures num < |chains[i]| ==> v != OID_NULL && pool.heap.At(KeyLoc(v)) == key
    ensures num == |chains[i]| ==> v == OID_NULL && forall e | e in chains[i] :: pool.heap.At(KeyLoc(e)) != key
  {
    HeaderInHeap(pool.heap, hm, chains);
    WalkStep(pool.heap, hm, chains, i, 0);
    var t := pool.Read(TableLoc(hm));
    assert Chain(pool.heap, CoeffsOf(pool.heap, hm), t, |chains|, i, chains[i]);
    prev, v, num := OID_NULL, pool.Read(BucketLoc(t, i)), 0;
    while v != OID_NULL
      invariant num <= |chains[i]| && v == Nth(chains[i], num)
      invariant v == OID_NULL <==> num == |chains[i]|
      invariant prev == if num == 0 then OID_NULL else chains[i][num - 1]
      invariant forall j | 0 <= j < num :: pool.heap.At(KeyLoc(chains[i][j])) != key
      decreases |chains[i]| - num
    {
      WalkStep(pool.heap, hm, chains, i, num);
      if pool.Read(KeyLoc(v)) == key { return; }
      WalkStep(pool.heap, hm, chains, i, num + 1);
      prev, v, num := v, pool.Read(NextLoc(v)), num + 1;
    }
  }

  /** The bucket of a key. */
  method BucketOf(pool: Pool, hm: Oid, key: Word, ghost chains: seq<seq<Oid>>) returns (i: nat)
    requires Shape(pool.heap, hm, chains)
    ensures i == Hash(CoeffsOf(pool.heap, hm), |chains|, key)
  {
    HeaderInHeap(pool.heap, hm, chains);
    var t := pool.Read(TableLoc(hm));
    var co := Coeffs(pool.Read(HashALoc(hm)), pool.Read(HashBLoc(hm)), pool.Read(HashPLoc(hm)));
    i := Hash(co, pool.Read(NBucketsLoc(t)), key);
  }

  /** The search for a key in its bucket, in terms of the map. */
  method Search(pool: Pool, hm: Oid, key: Word, ghost chains: seq<seq<Oid>>)
    returns (i: nat, v: Oid, prev: Oid, num: nat)
    requires Shape(pool.heap, hm, chains)
    ensures i == Hash(CoeffsOf(pool.heap, hm), |chains|, key)
    ensures v != OID_NULL <==> key in Pairs(pool.heap, Entries(chains))
    ensures v == OID_NULL ==> num == |chains[i]|
    ensures v != OID_NULL ==> num < |chains[i]| && v == chains[i][num] && pool.heap.At(KeyLoc(v)) == key
    ensures v != OID_NULL ==> prev == if num == 0 then OID_NULL else chains[i][num - 1]
    ensures v != OID_NULL ==>
        ValueLoc(v) in pool.heap.mem && pool.heap.At(ValueLoc(v)) == Pairs(pool.heap, Entries(chains))[key]
  {
    i := BucketOf(pool, hm, key, chains);
    v, prev, num := Find(pool, hm, i, key, chains);
    if v != OID_NULL {
      WalkStep(pool.heap, hm, chains, i, num);
      KeyPresent(pool.heap, Entries(chains), v);
    } else {
      KeyAbsent(pool.heap, hm, chains, key);
    }
  }

  /** hm_tx_get */
  method Get(pool: Pool, hm: Oid, key: Word) returns (value: Word)
    requires pool.Idle() && Wf(pool.heap, hm)
    ensures value == if key in Contents(pool.heap, hm) then Contents(pool.heap, hm)[key] else OID_NULL
  {
    var i, v, prev, num := Search(pool, hm, key, Chains(pool.heap, hm));
    value := if v != OID_NULL then pool.Read(ValueLoc(v)) else OID_NULL;
  }

  /** hm_tx_lookup */
  method Lookup(pool: Pool, hm: Oid, key: Word) returns (found: int)
    requires pool.Idle() && Wf(pool.heap, hm)
    ensures found == if key in Contents(pool.heap, hm) then 1 else 0
  {
    var i, v, prev, num := Search(pool, hm, key, Chains(pool.heap, hm));
    found := if v != OID_NULL then 1 else 0;
  }

  /** The number of buckets. */
  method BucketCount(pool: Pool, hm: Oid) returns (n: nat)
    requires pool.Idle() && Wf(pool.heap, hm)
    ensures n == NBuckets(pool.heap, hm) && n == |Chains(pool.heap, hm)|
  {
    HeaderInHeap(pool.heap, hm, Chains(pool.heap, hm));
    n := pool.Read(NBucketsLoc(pool.Read(TableLoc(hm))));
  }

  /** hm_tx_count */
  method Count(pool: Pool, hm: Oid) returns (n: Word)
    requires pool.Idle() && Wf(pool.heap, hm)
    ensures n == |Contents(pool.heap, hm)|
  {
    ghost var chains := Chains(pool.heap, hm);
    HeaderInHeap(pool.heap, hm, chains);
    PairsSize(pool.heap, Entries(chains));
    n := pool.Read(CountLoc(hm));
  }

  /** The first transaction of hm_tx_insert, for a key that is not there. */
  method InsertNew(pool: Pool, hm: Oid, i: nat, key: Word, value: Word, ghost chains: seq<seq<Oid>>) returns (ok: bool)
    requires pool.Idle() && Shape(pool.heap, hm, chains)
    requires i == Hash(CoeffsOf(pool.heap, hm), |chains|, key) && key !in Pairs(pool.heap, Entries(chains))
    modifies pool
    ensures pool.Idle() && (ok <==> !pool.refused) && Recovers(old(pool.images), pool.images, old(pool.heap), pool.heap)
    ensures !ok ==> pool.heap == old(pool.heap)
    ensures ok ==> Wf(old(pool.heap), hm)
    ensures ok ==>
        Yields(old(pool.heap), pool.heap, hm, Pairs(old(pool.heap), Entries(chains))[key := value], {|chains|})
  {
    ghost var h0 := pool.heap;
    HeaderInHeap(pool.heap, hm, chains);
    var t := pool.Read(TableLoc(hm));
    ghost var e;
    ok, e := LinkEntry(pool, hm, t, i, key, value);
    if ok {
      LinkedInYields(h0, pool.heap, hm, chains, i, e, key, value);
    }
  }

  /** Two transactions, one after the other. */
  lemma AtomicTwice(past: seq<Image>, mid: seq<Image>, images: seq<Image>, h0: Heap, h1: Heap, h2: Heap,
                    hm: Oid, m: map<Word, Word>, sizes: set<Word>)
    requires Wf(h0, hm) && Yields(h0, h1, hm, m, sizes) && Yields(h0, h2, hm, m, sizes)
    requires Recovers(past, mid, h0, h1) && Recovers(mid, images, h1, h2)
    ensures Atomic(past, images, h0, hm, m, sizes)
  {
    forall k | |past| <= k < |images|
      ensures Recover(images[k]) == h0 || Recover(images[k]) == h1 || Recover(images[k]) == h2
    {
      if k < |mid| {
        assert images[k] == mid[k];
      }
    }
  }

  lemma AtomicOnce(past: seq<Image>, images: seq<Image>, h0: Heap, h1: Heap, hm: Oid, m: map<Word, Word>,
                   sizes: set<Word>)
    requires Wf(h0, hm) && Yields(h0, h1, hm, m, sizes) && Recovers(past, images, h0, h1)
    ensures Atomic(past, images, h0, hm, m, sizes)
  {
  }

  lemma YieldsMore(h0: Heap, h: Heap, hm: Oid, m: map<Word, Word>, sizes: set<Word>, more: set<Word>)
    requires Wf(h0, hm) && Yields(h0, h, hm, m, sizes) && sizes <= more
    ensures Yields(h0, h, hm, m, more)
  {
  }

  lemma SizeBound(h: Heap, hm: Oid)
    requires Wf(h, hm)
    ensures NBuckets(h, hm) == |Chains(h, hm)| && 0 < NBuckets(h, hm) && 8 + NBuckets(h, hm) * 16 <= MAX_ALLOC_SIZE
  {
  }

  /** The second half of hm_tx_insert and hm_tx_remove: a rebuild whose outcome nobody looks at. */
  method RebuildAfter(pool: Pool, hm: Oid, len: nat, ghost h0: Heap, ghost past: seq<Image>, ghost m: map<Word, Word>)
    requires pool.Idle() && Wf(h0, hm) && len < WORD_RANGE && Fits(Resized(NBuckets(h0, hm), len))
    requires Yields(h0, pool.heap, hm, m, {NBuckets(h0, hm)}) && Recovers(past, pool.images, h0, pool.heap)
    modifies pool
    ensures pool.Idle()
    ensures
      var nb, size := NBuckets(h0, hm), Resized(NBuckets(h0, hm), len);
      && Yields(h0, pool.heap, hm, m, {if pool.refused then nb else size})
      && Atomic(past, pool.images, h0, hm, m, {nb, size})
  {
    ghost var h1, mid, nb := pool.heap, pool.images, NBuckets(h0, hm);
    ghost var size := Resized(nb, len);
    YieldsMore(h0, h1, hm, m, {nb}, {nb, size});
    var wild := Rebuild(pool, hm, len);
    if !pool.refused {
      YieldsTrans(h0, h1, pool.heap, hm, m, {nb}, {size});
    }
    YieldsMore(h0, pool.heap, hm, m, {if pool.refused then nb else size}, {nb, size});
    AtomicTwice(past, mid, pool.images, h0, h1, pool.heap, hm, m, {nb, size});
  }

  /** The second half of hm_tx_insert: a long chain leads to a rebuild. */
  method GrowAfter(pool: Pool, hm: Oid, num: nat, nbuckets: nat, ghost h0: Heap, ghost past: seq<Image>,
                   ghost m: map<Word, Word>)
    requires pool.Idle() && Wf(h0, hm) && nbuckets == NBuckets(h0, hm)
    requires Yields(h0, pool.heap, hm, m, {nbuckets}) && Recovers(past, pool.images, h0, pool.heap)
    modifies pool
    ensures pool.Idle()
    ensures
      var size := GrownSize(nbuckets, num, |m|);
      && Yields(h0, pool.heap, hm, m, {if pool.refused then nbuckets else size})
      && Atomic(past, pool.images, h0, hm, m, {nbuckets, size})
  {
    SizeBound(h0, hm);
    GrowFits(nbuckets);
    var count := Count(pool, hm);
    if Grows(num, count, nbuckets) {
      RebuildAfter(pool, hm, Wrap(nbuckets * 2), h0, past, m);
    } else {
      AtomicOnce(past, pool.images, h0, pool.heap, hm, m, {nbuckets});
    }
  }

  /** hm_tx_insert after an unsuccessful search. */
  method InsertAbsent(pool: Pool, hm: Oid, i: nat, num: nat, nbuckets: nat, key: Word, value: Word,
                      ghost chains: seq<seq<Oid>>, ghost m: map<Word, Word>)
    returns (ret: int)
    requires pool.Idle() && Shape(pool.heap, hm, chains) && nbuckets == NBuckets(pool.heap, hm)
    requires m == Pairs(pool.heap, Entries(chains)) && key !in m
    requires i == Hash(CoeffsOf(pool.heap, hm), |chains|, key)
    modifies pool
    ensures pool.Idle() && (ret == 0 || (ret == -1 && pool.refused))
    ensures ret != 0 ==> pool.heap == old(pool.heap) && Recovers(old(pool.images), pool.images, pool.heap, pool.heap)
    ensures
      var size := GrownSize(nbuckets, num + 1, |m| + 1);
      ret == 0 ==>
        && Wf(old(pool.heap), hm)
        && Yields(old(pool.heap), pool.heap, hm, m[key := value], {if pool.refused then nbuckets else size})
        && Atomic(old(pool.images), pool.images, old(pool.heap), hm, m[key := value], {nbuckets, size})
  {
    ghost var h0, past := pool.heap, pool.images;
    MapPlusOne(m, key, value);
    var ok := InsertNew(pool, hm, i, key, value, chains);
    if !ok { return -1; }
    GrowAfter(pool, hm, num + 1, nbuckets, h0, past, m[key := value]);
    ret := 0;
  }

  /** hm_tx_insert: 1 when the key exists, -1 when the transaction aborted, and 0 when the pair was added,
      whatever becomes of the rebuild that may follow. A transaction only aborts when a primitive fails. */
  method Insert(pool: Pool, hm: Oid, key: Word, value: Word) returns (ret: int)
    requires pool.Idle() && Wf(pool.heap, hm)
    modifies pool
    ensures pool.Idle() && (ret == 0 || ret == 1 || (ret == -1 && pool.refused))
    ensures ret == 1 <==> key in Contents(old(pool.heap), hm)
    ensures ret != 0 ==> pool.heap == old(pool.heap) && Recovers(old(pool.images), pool.images, pool.heap, pool.heap)
    ensures
      var h0 := old(pool.heap);
      var m := Contents(h0, hm)[key := value];
      var nb, size := NBuckets(h0, hm), SizeAfterInsert(h0, hm, key);
      ret == 0 ==>
        && Yields(h0, pool.heap, hm, m, {if pool.refused then nb else size})
        && Atomic(old(pool.images), pool.images, h0, hm, m, {nb, size})
    ensures ret == 0 && !pool.refused ==> GrowthRule(old(pool.heap), pool.heap, hm, key)
  {
    ghost var h0, chains := pool.heap, Chains(pool.heap, hm);
    var nbuckets := BucketCount(pool, hm);
    var i, v, prev, num := Search(pool, hm, key, chains);
    if v != OID_NULL { return 1; }
    assert SizeAfterInsert(pool.heap, hm, key) == GrownSize(nbuckets, num + 1, |Contents(pool.heap, hm)| + 1);
    ret := InsertAbsent(pool, hm, i, num, nbuckets, key, value, chains, Contents(pool.heap, hm));
    if ret == 0 && !pool.refused {
      GrowthFollows(h0, pool.heap, hm, key, Contents(h0, hm)[key := value]);
    }
  }

  // ----- Remove

  /** The first transaction of hm_tx_remove, for entry number `k` of bucket `i`. */
  method RemoveEntry(pool: Pool, hm: Oid, i: nat, prev: Oid, v: Oid, ghost k: nat, ghost chains: seq<seq<Oid>>)
    returns (ok: bool)
    requires pool.Idle() && Shape(pool.heap, hm, chains) && i < |chains| && k < |chains[i]|
    requires v == chains[i][k] && prev == if k == 0 then OID_NULL else chains[i][k - 1]
    modifies pool
    ensures pool.Idle() && (ok <==> !pool.refused) && Recovers(old(pool.images), pool.images, old(pool.heap), pool.heap)
    ensures !ok ==> pool.heap == old(pool.heap)
    ensures ok ==> Wf(old(pool.heap), hm)
    ensures
      var h0 := old(pool.heap);
      ok ==> Yields(h0, pool.heap, hm, Pairs(h0, Entries(chains)) - {h0.At(KeyLoc(v))}, {|chains|})
  {
    ghost var h0 := pool.heap;
    HeaderInHeap(h0, hm, chains);
    WalkStep(h0, hm, chains, i, k);
    if k > 0 { WalkStep(h0, hm, chains, i, k - 1); }
    ChainDistinct(h0, hm, chains, i);
    EntryInHeap(h0, hm, chains, v);
    ok := UnlinkEntry(pool, hm, pool.Read(TableLoc(hm)), i, prev, v, chains[i], k);
    if ok {
      TakenOutYields(h0, pool.heap, hm, chains, i, k);
    }
  }

  /** The second half of hm_tx_remove: a sparse table leads to a rebuild. */
  method ShrinkAfter(pool: Pool, hm: Oid, nbuckets: nat, ghost h0: Heap, ghost past: seq<Image>,
                     ghost m: map<Word, Word>)
    requires pool.Idle() && Wf(h0, hm) && nbuckets == NBuckets(h0, hm)
    requires Yields(h0, pool.heap, hm, m, {nbuckets}) && Recovers(past, pool.images, h0, pool.heap)
    modifies pool
    ensures pool.Idle()
    ensures
      var size := ShrunkSize(nbuckets, |m|);
      && Yields(h0, pool.heap, hm, m, {if pool.refused then nbuckets else size})
      && Atomic(past, pool.images, h0, hm, m, {nbuckets, size})
  {
    SizeBound(h0, hm);
    var count := Count(pool, hm);
    if count < nbuckets {
      RebuildAfter(pool, hm, nbuckets / 2, h0, past, m);
    } else {
      AtomicOnce(past, pool.images, h0, pool.heap, hm, m, {nbuckets});
    }
  }

  /** hm_tx_remove: the value of the key, with its pair gone, whatever becomes of the rebuild that may
      follow; or null when the key is not there or the transaction aborted. */
  method Remove(pool: Pool, hm: Oid, key: Word) returns (value: Word, ghost removed: bool)
    requires pool.Idle() && Wf(pool.heap, hm)
    modifies pool
    ensures pool.Idle()
    ensures removed ==> key in Contents(old(pool.heap), hm) && value == Contents(old(pool.heap), hm)[key]
    ensures !removed ==> value == OID_NULL && (key !in Contents(old(pool.heap), hm) || pool.refused)
    ensures !removed ==> pool.heap == old(pool.heap) && Recovers(old(pool.images), pool.images, pool.heap, pool.heap)
    ensures
      var h0 := old(pool.heap);
      var m := Contents(h0, hm) - {key};
      var nb, size := NBuckets(h0, hm), SizeAfterRemove(h0, hm);
      removed ==>
        && Yields(h0, pool.heap, hm, m, {if pool.refused then nb else size})
        && Atomic(old(pool.images), pool.images, h0, hm, m, {nb, size})
    ensures removed && !pool.refused ==> ShrinkRule(old(pool.heap), pool.heap, hm)
  {
    ghost var h0, past, chains := pool.heap, pool.images, Chains(pool.heap, hm);
    removed := false;
    var nbuckets := BucketCount(pool, hm);
    var i, v, prev, num := Search(pool, hm, key, chains);
    if v == OID_NULL { return OID_NULL, false; }
    var retoid := pool.Read(ValueLoc(v));
    var ok := RemoveEntry(pool, hm, i, prev, v, num, chains);
    if !ok { return OID_NULL, false; }
    MapMinusOne(Contents(h0, hm), key);
    ShrinkAfter(pool, hm, nbuckets, h0, past, Contents(h0, hm) - {key});
    value, removed := retoid, true;
    if !pool.refused {
      ShrinkFollows(h0, pool.heap, hm, Contents(h0, hm) - {key});
    }
  }
}
