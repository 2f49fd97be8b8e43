/** Creation of a table. */
module HashmapCreate {
  import opened Pmem
  import opened HashmapLayout
  import opened HashmapSteps
  import opened HashmapRelink

  /** hm_tx_create returns 0 or -1, or create_hashmap kills the process. */
  datatype CreateResult = Created | Failed | Died

  /** The heap `h` is `h0` with a new, empty table and its handle in `slot`. */
  ghost predicate NewTableIn(h0: Heap, h: Heap, slot: Loc, hm: Oid) {
    && Wf(h, hm)
    && Contents(h, hm) == map[]
    && NBuckets(h, hm) == 10
    && hm !in h0.objs && slot in h0.mem
    && Rest(h, hm) == h0.Write(slot, hm)
  }

  /** The stores of hm_tx_create and create_hashmap, on top of two zeroed allocations. */
  ghost predicate FreshTable(h0: Heap, h: Heap, slot: Loc, hm: Oid, t: Oid) {
    && h0.Ok() && h.Ok() && slot in h0.mem
    && hm !in h0.objs && t !in h0.objs && t != hm
    && h.objs == h0.objs[hm := HASHMAP][t := Buckets(INIT_BUCKETS_NUM)]
    && (forall l | l in h0.mem :: h.At(l) == h0.Write(slot, hm).At(l))
    && h.At(HashPLoc(hm)) == HASH_FUNC_COEFF_P && h.At(CountLoc(hm)) == 0 && h.At(TableLoc(hm)) == t
    && h.At(NBucketsLoc(t)) == INIT_BUCKETS_NUM
    && forall i | 0 <= i < INIT_BUCKETS_NUM :: h.At(BucketLoc(t, i)) == 0
  }

  lemma FreshTableShape(h0: Heap, h: Heap, slot: Loc, hm: Oid, t: Oid)
    requires FreshTable(h0, h, slot, hm, t)
    ensures Shape(h, hm, Empty(INIT_BUCKETS_NUM)) && Entries(Empty(INIT_BUCKETS_NUM)) == {}
  {
    EmptyEntries(Empty(INIT_BUCKETS_NUM));
  }

  lemma FreshTableNew(h0: Heap, h: Heap, slot: Loc, hm: Oid, t: Oid)
    requires FreshTable(h0, h, slot, hm, t)
    ensures NewTableIn(h0, h, slot, hm)
  {
    FreshTableShape(h0, h, slot, hm, t);
    EmptyTable(h, hm, INIT_BUCKETS_NUM);
    FreshTableRest(h0, h, slot, hm, t);
  }

  /** A table without entries. */
  lemma EmptyTable(h: Heap, hm: Oid, n: nat)
    requires Shape(h, hm, Empty(n))
    ensures Wf(h, hm) && Contents(h, hm) == map[] && NBuckets(h, hm) == n
    ensures Footprint(h, hm) == {hm, h.At(TableLoc(hm))}
  {
    EmptyEntries(Empty(n));
    ShapeUnique(h, hm, Empty(n));
    assert Contents(h, hm).Keys == {};
  }

  lemma FreshTableRest(h0: Heap, h: Heap, slot: Loc, hm: Oid, t: Oid)
    requires FreshTable(h0, h, slot, hm, t)
    ensures h.Without({hm, t}) == h0.Write(slot, hm)
  {
    var g := h0.Write(slot, hm);
    assert g.Ok();
    assert h.objs - {hm, t} == g.objs - {};
    WithoutNone(g);
    RestSame(g, h, {}, {hm, t});
  }

  /** The stores of create_hashmap before it allocates. */
  function HeaderHeap(h: Heap, hm: Oid, seed: Word, a: Word, b: Word): Heap {
    h.Write(SeedLoc(hm), seed).Write(HashALoc(hm), a).Write(HashBLoc(hm), b).Write(HashPLoc(hm), HASH_FUNC_COEFF_P)
  }

  /** The stores of create_hashmap after it allocated. */
  function TableHeap(h: Heap, hm: Oid, t: Oid): Heap {
    h.Write(TableLoc(hm), t).Write(NBucketsLoc(t), INIT_BUCKETS_NUM)
  }

  lemma HeaderHeapCells(h: Heap, hm: Oid, seed: Word, a: Word, b: Word)
    requires h.Ok() && hm in h.objs && h.objs[hm] == HASHMAP
    ensures
      var g := HeaderHeap(h, hm, seed, a, b);
      && g.Ok() && g.mem.Keys == h.mem.Keys && g.objs == h.objs
      && CoeffsOf(g, hm) == Coeffs(a, b, HASH_FUNC_COEFF_P) && g.At(SeedLoc(hm)) == seed && SeedLoc(hm) in g.mem
      && g.At(CountLoc(hm)) == h.At(CountLoc(hm))
      && (forall l | l in h.mem && l.oid != hm :: g.At(l) == h.At(l))
      && HashALoc(hm) in g.mem && HashBLoc(hm) in g.mem && HashPLoc(hm) in g.mem
      && CountLoc(hm) in g.mem && TableLoc(hm) in g.mem
  {
    assert SeedLoc(hm) in h.mem && HashALoc(hm) in h.mem && HashBLoc(hm) in h.mem && HashPLoc(hm) in h.mem;
  }

  lemma TableHeapCells(g: Heap, h2: Heap, hm: Oid, t: Oid)
    requires g.Ok() && TableLoc(hm) in g.mem
    requires Extends(g, h2, t, Buckets(INIT_BUCKETS_NUM)) && Zeroed(h2, t)
    ensures
      var h := TableHeap(h2, hm, t);
      && h.Ok() && h.objs == h2.objs && t != hm
      && h.At(TableLoc(hm)) == t && h.At(NBucketsLoc(t)) == INIT_BUCKETS_NUM
      && (forall i | 0 <= i < INIT_BUCKETS_NUM :: h.At(BucketLoc(t, i)) == 0)
      && forall l | l in g.mem && l != TableLoc(hm) :: h.At(l) == g.At(l)
  {
    assert TableLoc(hm) in h2.mem && NBucketsLoc(t) in h2.mem;
  }

  lemma FreshTableOld(h0: Heap, h1: Heap, g: Heap, h: Heap, slot: Loc, hm: Oid)
    requires h0.Ok() && slot in h0.mem && Extends(h0, h1, hm, HASHMAP)
    requires g.mem.Keys == h1.Write(slot, hm).mem.Keys
    requires forall l | l in h1.Write(slot, hm).mem && l.oid != hm :: g.At(l) == h1.Write(slot, hm).At(l)
    requires forall l | l in g.mem && l != TableLoc(hm) :: h.At(l) == g.At(l)
    ensures forall l | l in h0.mem :: h.At(l) == h0.Write(slot, hm).At(l)
  {
    forall l | l in h0.mem
      ensures h.At(l) == h0.Write(slot, hm).At(l)
    {
      assert l.oid in h0.objs && l in h1.mem;
    }
  }

  /** The heap that create_hashmap starts from. */
  lemma HeaderStored(h0: Heap, h1: Heap, slot: Loc, hm: Oid)
    requires h0.Ok() && slot in h0.mem && Extends(h0, h1, hm, HASHMAP) && Zeroed(h1, hm)
    ensures
      var s := h1.Write(slot, hm);
      s.Ok() && hm in s.objs && s.objs[hm] == HASHMAP && s.objs == h1.objs && s.At(CountLoc(hm)) == 0
  {
    assert slot in h1.mem && slot.oid in h0.objs;
  }

  lemma FreshTableIntro(h0: Heap, h1: Heap, h2: Heap, slot: Loc, hm: Oid, t: Oid, seed: Word, a: Word, b: Word)
    requires h0.Ok() && slot in h0.mem
    requires Extends(h0, h1, hm, HASHMAP) && Zeroed(h1, hm)
    requires Extends(HeaderHeap(h1.Write(slot, hm), hm, seed, a, b), h2, t, Buckets(INIT_BUCKETS_NUM))
    requires Zeroed(h2, t)
    ensures FreshTable(h0, TableHeap(h2, hm, t), slot, hm, t)
    ensures CoeffsOf(TableHeap(h2, hm, t), hm) == Coeffs(a, b, HASH_FUNC_COEFF_P)
    ensures TableHeap(h2, hm, t).At(slot) == hm && TableHeap(h2, hm, t).At(SeedLoc(hm)) == seed
  {
    var s := h1.Write(slot, hm);
    var g, h := HeaderHeap(s, hm, seed, a, b), TableHeap(h2, hm, t);
    HeaderStored(h0, h1, slot, hm);
    HeaderHeapCells(s, hm, seed, a, b);
    TableHeapCells(g, h2, hm, t);
    FreshTableOld(h0, h1, g, h, slot, hm);
  }

  method FillCoeffs(pool: Pool, hm: Oid, seed: Word, a: Word, b: Word)
    requires pool.Working() && hm in pool.heap.objs && pool.heap.objs[hm] == HASHMAP
    requires forall i | 0 <= i < 6 :: Loc(hm, i) in Logged(pool.log)
    modifies pool
    ensures pool.Working() && pool.base == old(pool.base) && pool.past == old(pool.past)
    ensures pool.log == old(pool.log) && pool.born == old(pool.born) && pool.freed == old(pool.freed)
    ensures pool.heap == HeaderHeap(old(pool.heap), hm, seed, a, b)
  {
    pool.Store(SeedLoc(hm), seed);
    pool.Store(HashALoc(hm), a);
    pool.Store(HashBLoc(hm), b);
    pool.Store(HashPLoc(hm), HASH_FUNC_COEFF_P);
  }

  /** The work of create_hashmap: the header gets its hash function and an empty bucket array; `h2` is the
      heap right after the allocation. */
  method FillHeader(pool: Pool, hm: Oid, seed: Word, a: Word, b: Word) returns (ok: bool, t: Oid, ghost h2: Heap)
    requires pool.Working() && hm in pool.heap.objs && pool.heap.objs[hm] == HASHMAP
    modifies pool
    ensures pool.TxAfter(ok) && pool.base == old(pool.base) && pool.past == old(pool.past)
    ensures pool.freed == old(pool.freed)
    ensures ok ==> Extends(HeaderHeap(old(pool.heap), hm, seed, a, b), h2, t, Buckets(INIT_BUCKETS_NUM))
    ensures ok ==> Zeroed(h2, t)
    ensures ok ==> pool.heap == TableHeap(h2, hm, t)
  {
    t, h2 := OID_NULL, pool.heap;
    ok := pool.AddRange(hm, 0, HASHMAP.words);
    if !ok { return; }
    FillCoeffs(pool, hm, seed, a, b);
    RoomOfBytes(INIT_BUCKETS_NUM);
    ok, t := pool.Alloc(BUCKETS_TYPE, BucketsBytes(INIT_BUCKETS_NUM), true);
    if !ok { return; }
    h2 := pool.heap;
    pool.Store(TableLoc(hm), t);
    pool.Store(NBucketsLoc(t), INIT_BUCKETS_NUM);
  }

  /** The outer transaction of hm_tx_create up to the nested one; `h1` is the heap right after the
      allocation. */
  method NewHeader(pool: Pool, slot: Loc) returns (ok: bool, hm: Oid, ghost h1: Heap)
    requires pool.Idle() && slot in pool.heap.mem
    modifies pool
    ensures pool.TxAfter(ok) && pool.base == old(pool.heap) && pool.past == old(pool.images) && pool.freed == {}
    ensures ok ==> Extends(pool.base, h1, hm, HASHMAP) && Zeroed(h1, hm) && pool.heap == h1.Write(slot, hm)
  {
    hm, h1 := OID_NULL, pool.heap;
    ok := pool.Begin();
    if !ok { return; }
    ok := pool.AddField(slot);
    if !ok { return; }
    ok, hm := pool.Alloc(HASHMAP_TYPE, 48, true);
    if !ok { return; }
    h1 := pool.heap;
    pool.Store(slot, hm);
  }

  /** hm_tx_create, with the values that `rand` gave: the first nonzero one and the one after it. When the
      nested transaction fails the process is aborted, and the pool is as its next opening finds it. */
  method Create(pool: Pool, slot: Loc, seed: Word, a: Word, b: Word) returns (r: CreateResult, hm: Oid)
    requires pool.Idle() && slot in pool.heap.mem
    requires 0 < a < 0x1_0000_0000 && 0 <= b < 0x1_0000_0000
    modifies pool
    ensures pool.Idle() && (r.Created? <==> !pool.refused)
    ensures Recovers(old(pool.images), pool.images, old(pool.heap), pool.heap)
    ensures r.Created? ==> NewTableIn(old(pool.heap), pool.heap, slot, hm) && pool.heap.At(slot) == hm
    ensures r.Created? ==> CoeffsOf(pool.heap, hm) == Coeffs(a, b, HASH_FUNC_COEFF_P)
    ensures r.Created? ==> pool.heap.At(SeedLoc(hm)) == seed
    ensures !r.Created? ==> pool.heap == old(pool.heap)
  {
    var ok;
    ghost var h1, h2;
    ok, hm, h1 := NewHeader(pool, slot);
    if !ok {
      pool.Abort();
      return Failed, OID_NULL;
    }
    var t;
    ok, t, h2 := FillHeader(pool, hm, seed, a, b);
    if !ok {
      pool.Die();
      return Died, OID_NULL;
    }
    FreshTableIntro(pool.base, h1, h2, slot, hm, t, seed, a, b);
    FreshTableNew(pool.base, pool.heap, slot, hm, t);
    WithoutNone(pool.heap);
    pool.Commit();
    r := Created;
  }
}
