/** What linking, unlinking and relinking one entry does to a table, stated on heaps. */
module HashmapSteps {
  import Bits
  import opened Pmem
  import opened HashmapLayout

  /** What an operation may leave in the pool: a table for `m` with one of the given bucket counts, the
      same hash function, and nothing leaked into or changed in the rest of the pool. */
  ghost predicate Yields(h0: Heap, h: Heap, hm: Oid, m: map<Word, Word>, sizes: set<Word>)
    requires Wf(h0, hm)
  {
    && Wf(h, hm)
    && Contents(h, hm) == m
    && NBuckets(h, hm) in sizes
    && CoeffsOf(h, hm) == CoeffsOf(h0, hm)
    && Rest(h, hm) == Rest(h0, hm)
  }

  // ----- One table

  lemma TablePush(h: Heap, h': Heap, co: Coeffs, t: Oid, chains: seq<seq<Oid>>, i: nat, e: Oid)
    requires Heads(h, co, t, chains) && i < |chains| && e !in Entries(chains)
    requires h'.At(NBucketsLoc(t)) == h.At(NBucketsLoc(t))
    requires forall j | 0 <= j < |chains| && j != i :: h'.At(BucketLoc(t, j)) == h.At(BucketLoc(t, j))
    requires h'.At(BucketLoc(t, i)) == e && HashedTo(h', co, |chains|, i, e)
    requires h'.At(NextLoc(e)) == h.At(BucketLoc(t, i))
    requires forall f | f in Entries(chains) :: SameEntry(h, h', f)
    ensures Heads(h', co, t, chains[i := [e] + chains[i]])
  {
    var n := |chains|;
    var after := chains[i := [e] + chains[i]];
    forall j | 0 <= j < n
      ensures Chain(h', co, t, n, j, after[j])
    {
      assert Chain(h, co, t, n, j, chains[j]);
      assert forall f :: f in chains[j] ==> f in Entries(chains);
      if j == i {
        ChainPush(h, h', co, t, n, i, chains[i], e);
      } else {
        ChainFrame(h, h', co, t, n, j, chains[j]);
      }
    }
  }

  lemma TableUnlink(h: Heap, h': Heap, co: Coeffs, t: Oid, chains: seq<seq<Oid>>, i: nat, k: nat)
    requires TableShape(h, co, t, chains) && i < |chains| && k < |chains[i]|
    requires t in h'.objs && h'.objs[t] == h.objs[t] && h'.At(NBucketsLoc(t)) == h.At(NBucketsLoc(t))
    requires forall j | 0 <= j < |chains| && j != i :: h'.At(BucketLoc(t, j)) == h.At(BucketLoc(t, j))
    requires h'.At(BucketLoc(t, i)) == if k == 0 then h.At(NextLoc(chains[i][0])) else h.At(BucketLoc(t, i))
    requires k > 0 ==> HashedTo(h', co, |chains|, i, chains[i][k - 1])
    requires k > 0 ==> h'.At(NextLoc(chains[i][k - 1])) == h.At(NextLoc(chains[i][k]))
    requires forall f | f in Entries(chains) && f != chains[i][k] && (k > 0 ==> f != chains[i][k - 1]) ::
        SameEntry(h, h', f)
    ensures TableShape(h', co, t, chains[i := chains[i][..k] + chains[i][k + 1..]])
    ensures Entries(chains[i := chains[i][..k] + chains[i][k + 1..]]) == Entries(chains) - {chains[i][k]}
  {
    var n := |chains|;
    var c := chains[i];
    var after := chains[i := c[..k] + c[k + 1..]];
    assert Chain(h, co, t, n, i, c);
    assert c[k] in chains[i] && (k > 0 ==> c[k - 1] in chains[i]);
    EntryBucket(h, co, t, chains, c[k]);
    if k > 0 { EntryBucket(h, co, t, chains, c[k - 1]); }
    EntriesUnlink(chains, i, k);
    forall j | 0 <= j < n
      ensures Chain(h', co, t, n, j, after[j])
    {
      assert Chain(h, co, t, n, j, chains[j]);
      assert forall f :: f in chains[j] ==> f in Entries(chains);
      if j == i {
        ChainUnlink(h, h', co, t, n, i, c, k);
      } else {
        ChainFrame(h, h', co, t, n, j, chains[j]);
      }
    }
  }

  // ----- Pairs

  ghost predicate SamePair(h: Heap, h': Heap, e: Oid) {
    h'.At(KeyLoc(e)) == h.At(KeyLoc(e)) && h'.At(ValueLoc(e)) == h.At(ValueLoc(e))
  }

  lemma PairsSame(h: Heap, h': Heap, es: set<Oid>)
    requires KeysUnique(h, es) && forall e | e in es :: SamePair(h, h', e)
    ensures KeysUnique(h', es) && Pairs(h', es) == Pairs(h, es)
  {
    forall e, f | e in es && f in es && h'.At(KeyLoc(e)) == h'.At(KeyLoc(f))
      ensures e == f
    {
      assert SamePair(h, h', e) && SamePair(h, h', f);
    }
    forall e | e in es
      ensures Pairs(h', es)[h.At(KeyLoc(e))] == h.At(ValueLoc(e))
    {
      assert SamePair(h, h', e);
    }
    assert Pairs(h', es).Keys == Pairs(h, es).Keys;
  }

  lemma PairsAdd(h: Heap, es: set<Oid>, e: Oid)
    requires KeysUnique(h, es) && e !in es && h.At(KeyLoc(e)) !in Pairs(h, es)
    ensures KeysUnique(h, es + {e})
    ensures Pairs(h, es + {e}) == Pairs(h, es)[h.At(KeyLoc(e)) := h.At(ValueLoc(e))]
  {
    assert forall f | f in es :: h.At(KeyLoc(f)) in Pairs(h, es);
  }

  lemma PairsSameAdd(h: Heap, h': Heap, es: set<Oid>, e: Oid)
    requires KeysUnique(h, es) && forall f | f in es :: SamePair(h, h', f)
    requires e !in es && h'.At(KeyLoc(e)) !in Pairs(h, es)
    ensures KeysUnique(h', es + {e})
    ensures Pairs(h', es + {e}) == Pairs(h, es)[h'.At(KeyLoc(e)) := h'.At(ValueLoc(e))]
  {
    PairsSame(h, h', es);
    PairsAdd(h', es, e);
  }

  lemma CountBelow(h: Heap, es: set<Oid>)
    requires h.Ok() && es <= h.objs.Keys
    ensures |es| < WORD_RANGE
  {
    Bits.CardBelow(es, WORD_RANGE);
  }

  lemma PairsRemove(h: Heap, es: set<Oid>, e: Oid)
    requires KeysUnique(h, es) && e in es
    ensures KeysUnique(h, es - {e})
    ensures Pairs(h, es - {e}) == Pairs(h, es) - {h.At(KeyLoc(e))}
    ensures h.At(KeyLoc(e)) in Pairs(h, es) && Pairs(h, es)[h.At(KeyLoc(e))] == h.At(ValueLoc(e))
  {
  }

  // ----- Results

  /** How a heap with known chains comes to be a result. */
  lemma YieldsIntro(h0: Heap, h: Heap, hm: Oid, before: seq<seq<Oid>>, after: seq<seq<Oid>>)
    requires Shape(h0, hm, before) && Shape(h, hm, after)
    requires CoeffsOf(h, hm) == CoeffsOf(h0, hm)
    requires
      h.Without({hm, h.At(TableLoc(hm))} + Entries(after)) == h0.Without({hm, h0.At(TableLoc(hm))} + Entries(before))
    ensures Wf(h0, hm) && Yields(h0, h, hm, Pairs(h, Entries(after)), {|after|})
  {
    ShapeUnique(h0, hm, before);
    ShapeUnique(h, hm, after);
  }

  lemma HeaderInHeap(h: Heap, hm: Oid, chains: seq<seq<Oid>>)
    requires Shape(h, hm, chains)
    ensures HashALoc(hm) in h.mem && HashBLoc(hm) in h.mem && HashPLoc(hm) in h.mem
    ensures CountLoc(hm) in h.mem && TableLoc(hm) in h.mem
    ensures NBucketsLoc(h.At(TableLoc(hm))) in h.mem
    ensures forall i | 0 <= i < |chains| :: BucketLoc(h.At(TableLoc(hm)), i) in h.mem
    ensures h.At(TableLoc(hm)) != hm && hm !in Entries(chains) && h.At(TableLoc(hm)) !in Entries(chains)
  {
    forall e | e in Entries(chains)
      ensures e != hm && e != h.At(TableLoc(hm))
    {
      EntryBucket(h, CoeffsOf(h, hm), h.At(TableLoc(hm)), chains, e);
    }
  }

  lemma EntryInHeap(h: Heap, hm: Oid, chains: seq<seq<Oid>>, e: Oid)
    requires Shape(h, hm, chains) && e in Entries(chains)
    ensures e in h.objs && h.objs[e] == ENTRY
    ensures KeyLoc(e) in h.mem && ValueLoc(e) in h.mem && NextLoc(e) in h.mem
  {
    EntryBucket(h, CoeffsOf(h, hm), h.At(TableLoc(hm)), chains, e);
  }

  lemma EntriesCount(h: Heap, hm: Oid, chains: seq<seq<Oid>>)
    requires Shape(h, hm, chains)
    ensures Entries(chains) <= h.objs.Keys && |Entries(chains)| < WORD_RANGE
  {
    forall e | e in Entries(chains)
      ensures e in h.objs
    {
      EntryInHeap(h, hm, chains, e);
    }
    CountBelow(h, Entries(chains));
  }

  // ----- Looking for a key

  /** One step along bucket `i`: `v` is the `j`-th entry or null at the end. */
  lemma WalkStep(h: Heap, hm: Oid, chains: seq<seq<Oid>>, i: nat, j: nat)
    requires Shape(h, hm, chains) && i < |chains|
    ensures Nth(chains[i], j) == OID_NULL <==> |chains[i]| <= j
    ensures
      var v := Nth(chains[i], j);
      j < |chains[i]| ==>
        && v in Entries(chains) && KeyLoc(v) in h.mem && ValueLoc(v) in h.mem && NextLoc(v) in h.mem
        && h.At(NextLoc(v)) == Nth(chains[i], j + 1)
  {
    var co, t := CoeffsOf(h, hm), h.At(TableLoc(hm));
    assert Chain(h, co, t, |chains|, i, chains[i]);
    ChainEnd(h, co, t, |chains|, i, chains[i], j);
    if j < |chains[i]| {
      assert EntryAt(h, co, |chains|, i, chains[i], j);
      assert chains[i][j] in chains[i];
      EntryInHeap(h, hm, chains, chains[i][j]);
    }
  }

  lemma ChainDistinct(h: Heap, hm: Oid, chains: seq<seq<Oid>>, i: nat)
    requires Shape(h, hm, chains) && i < |chains|
    ensures forall j, k | 0 <= j < k < |chains[i]| :: chains[i][j] != chains[i][k]
  {
    assert Chain(h, CoeffsOf(h, hm), h.At(TableLoc(hm)), |chains|, i, chains[i]);
  }

  /** A key that is not in its own bucket is nowhere. */
  lemma KeyAbsent(h: Heap, hm: Oid, chains: seq<seq<Oid>>, key: Word)
    requires Shape(h, hm, chains)
    requires forall e | e in chains[Hash(CoeffsOf(h, hm), |chains|, key)] :: h.At(KeyLoc(e)) != key
    ensures key !in Pairs(h, Entries(chains))
  {
    forall e | e in Entries(chains)
      ensures h.At(KeyLoc(e)) != key
    {
      EntryBucket(h, CoeffsOf(h, hm), h.At(TableLoc(hm)), chains, e);
    }
  }

  lemma KeyPresent(h: Heap, es: set<Oid>, e: Oid)
    requires KeysUnique(h, es) && e in es
    ensures h.At(KeyLoc(e)) in Pairs(h, es) && Pairs(h, es)[h.At(KeyLoc(e))] == h.At(ValueLoc(e))
  {
  }

  // ----- Sizes

  /** The test of hm_tx_insert for a chain that has become `num` long. */
  predicate Grows(num: nat, count: Word, nbuckets: Word) {
    num > MAX_HASHSET_THRESHOLD || (num > MIN_HASHSET_THRESHOLD && count > 2 * nbuckets)
  }

  /** What hm_tx_rebuild makes of a requested length. */
  function Resized(nbuckets: Word, len: Word): Word {
    if len == 0 then nbuckets else len
  }

  /** How many entries the bucket of a key has. */
  ghost function ChainLength(h: Heap, hm: Oid, key: Word): nat
    requires Wf(h, hm)
  {
    var chains := Chains(h, hm);
    |chains[Hash(CoeffsOf(h, hm), |chains|, key)]|
  }

  /** The bucket count that hm_tx_insert is after. */
  function GrownSize(nb: Word, num: nat, count: Word): Word {
    if Grows(num, count, nb) then 2 * nb else nb
  }

  ghost function SizeAfterInsert(h: Heap, hm: Oid, key: Word): Word
    requires Wf(h, hm)
  {
    GrownSize(NBuckets(h, hm), ChainLength(h, hm, key) + 1, |Contents(h, hm)| + 1)
  }

  lemma GrowFits(nb: nat)
    requires 0 < nb && 8 + nb * 16 <= MAX_ALLOC_SIZE
    ensures Resized(nb, Wrap(nb * 2)) == 2 * nb && Fits(2 * nb)
    ensures 0 < Resized(nb, nb / 2) <= nb && Fits(nb) && Fits(Resized(nb, nb / 2))
  {
  }

  /** The bucket count that hm_tx_remove is after. */
  function ShrunkSize(nb: Word, count: Word): Word {
    if count < nb then Resized(nb, nb / 2) else nb
  }

  ghost function SizeAfterRemove(h: Heap, hm: Oid): Word
    requires Wf(h, hm)
  {
    ShrunkSize(NBuckets(h, hm), |Contents(h, hm)| - 1)
  }

  /** How many buckets are to be left when the new entry made its chain `num` long and the map has `count` pairs
      now: up to 5 entries change nothing, from 11 on the buckets double, and in between they do when there
      are more than two pairs for each of them. */
  function Grown(nb: Word, num: nat, count: Word): Word {
    if num <= 5 then nb
    else if num >= 11 then nb + nb
    else if count > nb + nb then nb + nb
    else nb
  }

  /** The growth rule on heaps, before and after an insertion. */
  ghost predicate GrowthRule(h0: Heap, h: Heap, hm: Oid, key: Word) {
    && Wf(h0, hm) && Wf(h, hm)
    && NBuckets(h, hm) == Grown(NBuckets(h0, hm), ChainLength(h0, hm, key) + 1, |Contents(h, hm)|)
  }

  lemma GrowthFollows(h0: Heap, h: Heap, hm: Oid, key: Word, m: map<Word, Word>)
    requires Wf(h0, hm) && |m| == |Contents(h0, hm)| + 1
    requires Yields(h0, h, hm, m, {SizeAfterInsert(h0, hm, key)})
    ensures GrowthRule(h0, h, hm, key)
  {
    YieldsSize(h0, h, hm, m, SizeAfterInsert(h0, hm, key));
    GrownIs(NBuckets(h0, hm), ChainLength(h0, hm, key) + 1, |m|);
  }

  lemma GrownIs(nb: Word, num: nat, count: Word)
    ensures GrownSize(nb, num, count) == Grown(nb, num, count)
  {
  }

  lemma YieldsSize(h0: Heap, h: Heap, hm: Oid, m: map<Word, Word>, size: Word)
    requires Wf(h0, hm) && Yields(h0, h, hm, m, {size})
    ensures Wf(h, hm) && Contents(h, hm) == m && NBuckets(h, hm) == size
    ensures NBuckets(h0, hm) > 0
  {
  }

  /** How many buckets are to be left when the map has `count` pairs left: with fewer pairs than buckets these
      are halved, rounding down, but for a single one. */
  function Shrunk(nb: Word, count: Word): Word {
    if count >= nb then nb
    else if nb == 1 then 1
    else if nb % 2 == 0 then nb / 2
    else (nb - 1) / 2
  }

  /** The shrinking rule on heaps, before and after a removal. */
  ghost predicate ShrinkRule(h0: Heap, h: Heap, hm: Oid) {
    && Wf(h0, hm) && Wf(h, hm)
    && NBuckets(h, hm) == Shrunk(NBuckets(h0, hm), |Contents(h, hm)|)
  }

  lemma ShrinkFollows(h0: Heap, h: Heap, hm: Oid, m: map<Word, Word>)
    requires Wf(h0, hm) && |m| == |Contents(h0, hm)| - 1
    requires Yields(h0, h, hm, m, {SizeAfterRemove(h0, hm)})
    ensures ShrinkRule(h0, h, hm)
  {
    YieldsSize(h0, h, hm, m, SizeAfterRemove(h0, hm));
    ShrunkIs(NBuckets(h0, hm), |m|);
  }

  lemma ShrunkIs(nb: Word, count: Word)
    requires nb > 0
    ensures ShrunkSize(nb, count) == Shrunk(nb, count)
  {
  }

  lemma PairsSizeStep(h: Heap, es: set<Oid>, e: Oid)
    requires KeysUnique(h, es) && e in es
    ensures KeysUnique(h, es - {e}) && |Pairs(h, es)| == |Pairs(h, es - {e})| + 1
  {
    PairsRemove(h, es, e);
    MapMinusOne(Pairs(h, es), h.At(KeyLoc(e)));
  }

  lemma MapMinusOne(m: map<Word, Word>, k: Word)
    requires k in m
    ensures |m - {k}| == |m| - 1
  {
    assert (m - {k}).Keys == m.Keys - {k};
  }

  lemma MapPlusOne(m: map<Word, Word>, k: Word, v: Word)
    requires k !in m
    ensures |m[k := v]| == |m| + 1
  {
    assert m[k := v].Keys == m.Keys + {k};
  }

  /** `count` is the size of the map. */
  lemma {:induction false} PairsSize(h: Heap, es: set<Oid>)
    requires KeysUnique(h, es)
    ensures |Pairs(h, es)| == |es|
  {
    if es == {} {
      assert Pairs(h, es) == map[];
    } else {
      SomeElement(es);
      var e :| e in es;
      PairsSizeStep(h, es, e);
      PairsSize(h, es - {e});
    }
  }

  lemma SomeElement(es: set<Oid>)
    ensures es != {} ==> exists e :: e in es
  {
    if forall e :: e !in es {
      assert es <= {};
    }
  }

  // ----- From heap to heap

  /** A later step that keeps the contents. */
  lemma YieldsTrans(h0: Heap, h1: Heap, h2: Heap, hm: Oid, m: map<Word, Word>, sizes: set<Word>, more: set<Word>)
    requires Wf(h0, hm) && Yields(h0, h1, hm, m, sizes) && Yields(h1, h2, hm, m, more)
    ensures Yields(h0, h2, hm, m, more)
  {
  }

  // ----- One entry more

  /** The heap after a new entry was linked first into bucket `i`. */
  ghost predicate LinkedIn(h0: Heap, h: Heap, hm: Oid, i: nat, e: Oid, key: Word, value: Word) {
    var t := h0.At(TableLoc(hm));
    && e !in h0.objs && h.Ok() && h.objs == h0.objs[e := ENTRY]
    && (forall l | l in h0.mem && l != BucketLoc(t, i) && l != CountLoc(hm) :: h.At(l) == h0.At(l))
    && h.At(KeyLoc(e)) == key && h.At(ValueLoc(e)) == value && h.At(NextLoc(e)) == h0.At(BucketLoc(t, i))
    && h.At(BucketLoc(t, i)) == e
    && h.At(CountLoc(hm)) == Wrap(h0.At(CountLoc(hm)) + 1)
  }

  /** The new entry of hm_tx_insert is filled in and put in front of its bucket. */
  function FilledHeap(a: Heap, t: Oid, i: nat, e: Oid, key: Word, value: Word): Heap {
    a.Write(KeyLoc(e), key).Write(ValueLoc(e), value).Write(NextLoc(e), a.At(BucketLoc(t, i))).Write(BucketLoc(t, i), e)
  }

  function Counted(h: Heap, hm: Oid, change: int): Heap {
    h.Write(CountLoc(hm), Wrap(h.At(CountLoc(hm)) + change))
  }

  /** The stores of hm_tx_insert. */
  function LinkedHeap(a: Heap, hm: Oid, t: Oid, i: nat, e: Oid, key: Word, value: Word): Heap {
    Counted(FilledHeap(a, t, i, e, key, value), hm, 1)
  }

  lemma LinkedInIntro(h0: Heap, a: Heap, hm: Oid, t: Oid, i: nat, e: Oid, key: Word, value: Word)
    requires h0.Ok() && Extends(h0, a, e, ENTRY)
    requires BucketLoc(t, i) in h0.mem && CountLoc(hm) in h0.mem && t != hm && t == h0.At(TableLoc(hm))
    ensures LinkedIn(h0, LinkedHeap(a, hm, t, i, e, key, value), hm, i, e, key, value)
  {
    assert KeyLoc(e) in a.mem && ValueLoc(e) in a.mem && NextLoc(e) in a.mem;
    assert e != t && e != hm;
  }

  lemma LinkedInKeeps(h0: Heap, h: Heap, hm: Oid, chains: seq<seq<Oid>>, i: nat, e: Oid, key: Word, value: Word)
    requires Shape(h0, hm, chains) && i < |chains| && LinkedIn(h0, h, hm, i, e, key, value)
    ensures CoeffsOf(h, hm) == CoeffsOf(h0, hm) && h.At(HashPLoc(hm)) == h0.At(HashPLoc(hm))
    ensures h.At(TableLoc(hm)) == h0.At(TableLoc(hm))
    ensures e !in Entries(chains) && Entries(chains) <= h.objs.Keys
    ensures forall f | f in Entries(chains) :: SameEntry(h0, h, f) && SamePair(h0, h, f)
  {
    HeaderInHeap(h0, hm, chains);
    forall f | f in Entries(chains)
      ensures f != e && SameEntry(h0, h, f) && SamePair(h0, h, f)
    {
      EntryInHeap(h0, hm, chains, f);
    }
  }

  lemma LinkedInTable(h0: Heap, h: Heap, hm: Oid, chains: seq<seq<Oid>>, i: nat, e: Oid, key: Word, value: Word)
    requires Shape(h0, hm, chains) && i == Hash(CoeffsOf(h0, hm), |chains|, key)
    requires LinkedIn(h0, h, hm, i, e, key, value)
    ensures TableShape(h, CoeffsOf(h0, hm), h0.At(TableLoc(hm)), chains[i := [e] + chains[i]])
  {
    LinkedInKeeps(h0, h, hm, chains, i, e, key, value);
    HeaderInHeap(h0, hm, chains);
    TablePush(h0, h, CoeffsOf(h0, hm), h0.At(TableLoc(hm)), chains, i, e);
  }

  lemma LinkedInPairs(h0: Heap, h: Heap, hm: Oid, chains: seq<seq<Oid>>, i: nat, e: Oid, key: Word, value: Word)
    requires Shape(h0, hm, chains) && i < |chains| && LinkedIn(h0, h, hm, i, e, key, value)
    requires key !in Pairs(h0, Entries(chains))
    ensures KeysUnique(h, Entries(chains) + {e})
    ensures Pairs(h, Entries(chains) + {e}) == Pairs(h0, Entries(chains))[key := value]
    ensures h.At(CountLoc(hm)) == |Entries(chains) + {e}|
  {
    LinkedInKeeps(h0, h, hm, chains, i, e, key, value);
    PairsSameAdd(h0, h, Entries(chains), e);
    CountBelow(h, Entries(chains) + {e});
  }

  lemma LinkedInShape(h0: Heap, h: Heap, hm: Oid, chains: seq<seq<Oid>>, i: nat, e: Oid, key: Word, value: Word)
    requires Shape(h0, hm, chains) && i == Hash(CoeffsOf(h0, hm), |chains|, key)
    requires LinkedIn(h0, h, hm, i, e, key, value)
    requires key !in Pairs(h0, Entries(chains))
    ensures Shape(h, hm, chains[i := [e] + chains[i]])
    ensures Pairs(h, Entries(chains[i := [e] + chains[i]])) == Pairs(h0, Entries(chains))[key := value]
    ensures Entries(chains[i := [e] + chains[i]]) == Entries(chains) + {e}
    ensures CoeffsOf(h, hm) == CoeffsOf(h0, hm) && h.At(TableLoc(hm)) == h0.At(TableLoc(hm))
  {
    LinkedInKeeps(h0, h, hm, chains, i, e, key, value);
    LinkedInTable(h0, h, hm, chains, i, e, key, value);
    LinkedInPairs(h0, h, hm, chains, i, e, key, value);
    EntriesPush(chains, i, e);
  }

  lemma LinkedInRest(h0: Heap, h: Heap, hm: Oid, i: nat, e: Oid, key: Word, value: Word, es: set<Oid>)
    requires h0.Ok() && LinkedIn(h0, h, hm, i, e, key, value)
    ensures
      var own := {hm, h0.At(TableLoc(hm))};
      h.Without(own + (es + {e})) == h0.Without(own + es)
  {
    var own := {hm, h0.At(TableLoc(hm))};
    assert h.objs - (own + (es + {e})) == h0.objs - (own + es);
    RestSame(h0, h, own + es, own + (es + {e}));
  }

  lemma LinkedInYields(h0: Heap, h: Heap, hm: Oid, chains: seq<seq<Oid>>, i: nat, e: Oid, key: Word, value: Word)
    requires Shape(h0, hm, chains) && i == Hash(CoeffsOf(h0, hm), |chains|, key)
    requires LinkedIn(h0, h, hm, i, e, key, value)
    requires key !in Pairs(h0, Entries(chains))
    ensures Wf(h0, hm) && Yields(h0, h, hm, Pairs(h0, Entries(chains))[key := value], {|chains|})
  {
    LinkedInShape(h0, h, hm, chains, i, e, key, value);
    LinkedInRest(h0, h, hm, i, e, key, value, Entries(chains));
    YieldsIntro(h0, h, hm, chains, chains[i := [e] + chains[i]]);
  }

  // ----- One entry less

  function LinkTo(t: Oid, i: nat, c: seq<Oid>, k: nat): Loc
    requires k < |c|
  {
    if k == 0 then BucketLoc(t, i) else NextLoc(c[k - 1])
  }

  /** The heap after entry number `k` of the chain `c` of bucket `i` was unlinked and freed. */
  ghost predicate TakenOut(h0: Heap, h: Heap, hm: Oid, i: nat, c: seq<Oid>, k: nat)
    requires k < |c|
  {
    var link := LinkTo(h0.At(TableLoc(hm)), i, c, k);
    && h.Ok() && h.objs == h0.objs - {c[k]}
    && (forall l | l in h0.mem && l.oid != c[k] && l != link && l != CountLoc(hm) :: h.At(l) == h0.At(l))
    && h.At(link) == h0.At(NextLoc(c[k]))
    && h.At(CountLoc(hm)) == Wrap(h0.At(CountLoc(hm)) - 1)
  }

  /** The link that leads to an entry of bucket `i`; `prev` is null when the entry is the first. */
  function LinkLoc(t: Oid, i: nat, prev: Oid): Loc {
    if prev == OID_NULL then BucketLoc(t, i) else NextLoc(prev)
  }

  /** The stores of hm_tx_remove. */
  function UnlinkedHeap(h0: Heap, hm: Oid, link: Loc, v: Oid): Heap {
    Counted(h0.Write(link, h0.At(NextLoc(v))), hm, -1)
  }

  lemma TakenOutIntro(h0: Heap, hm: Oid, i: nat, c: seq<Oid>, k: nat)
    requires h0.Ok() && k < |c| && c[k] in h0.objs && LinkTo(h0.At(TableLoc(hm)), i, c, k) in h0.mem
    requires CountLoc(hm) in h0.mem
    requires hm != h0.At(TableLoc(hm)) && c[k] != hm && c[k] != h0.At(TableLoc(hm))
    requires k > 0 ==> c[k - 1] != hm && c[k - 1] != c[k]
    ensures
      var link := LinkTo(h0.At(TableLoc(hm)), i, c, k);
      TakenOut(h0, UnlinkedHeap(h0, hm, link, c[k]).Without({c[k]}), hm, i, c, k)
  {
  }

  lemma TakenOutKeeps(h0: Heap, h: Heap, hm: Oid, chains: seq<seq<Oid>>, i: nat, k: nat)
    requires Shape(h0, hm, chains) && i < |chains| && k < |chains[i]| && TakenOut(h0, h, hm, i, chains[i], k)
    ensures CoeffsOf(h, hm) == CoeffsOf(h0, hm) && h.At(HashPLoc(hm)) == h0.At(HashPLoc(hm))
    ensures h.At(TableLoc(hm)) == h0.At(TableLoc(hm))
    ensures chains[i][k] in Entries(chains)
    ensures forall f | f in Entries(chains) && f != chains[i][k] ::
        SamePair(h0, h, f) && ((k > 0 ==> f != chains[i][k - 1]) ==> SameEntry(h0, h, f))
  {
    assert chains[i][k] in chains[i];
    HeaderInHeap(h0, hm, chains);
    if k > 0 {
      assert chains[i][k - 1] in chains[i];
      EntryInHeap(h0, hm, chains, chains[i][k - 1]);
    }
    forall f | f in Entries(chains) && f != chains[i][k]
      ensures SamePair(h0, h, f) && ((k > 0 ==> f != chains[i][k - 1]) ==> SameEntry(h0, h, f))
    {
      EntryInHeap(h0, hm, chains, f);
    }
  }

  lemma TakenOutTable(h0: Heap, h: Heap, hm: Oid, chains: seq<seq<Oid>>, i: nat, k: nat)
    requires Shape(h0, hm, chains) && i < |chains| && k < |chains[i]| && TakenOut(h0, h, hm, i, chains[i], k)
    ensures
      var after := chains[i := chains[i][..k] + chains[i][k + 1..]];
      && TableShape(h, CoeffsOf(h0, hm), h0.At(TableLoc(hm)), after)
      && Entries(after) == Entries(chains) - {chains[i][k]}
  {
    var co, t, c := CoeffsOf(h0, hm), h0.At(TableLoc(hm)), chains[i];
    TakenOutKeeps(h0, h, hm, chains, i, k);
    HeaderInHeap(h0, hm, chains);
    assert Chain(h0, co, t, |chains|, i, c);
    if k > 0 {
      assert EntryAt(h0, co, |chains|, i, c, k - 1);
      assert c[k - 1] in chains[i];
      EntryInHeap(h0, hm, chains, c[k - 1]);
      assert SamePair(h0, h, c[k - 1]);
    }
    TableUnlink(h0, h, co, t, chains, i, k);
  }

  lemma TakenOutPairs(h0: Heap, h: Heap, hm: Oid, chains: seq<seq<Oid>>, i: nat, k: nat)
    requires Shape(h0, hm, chains) && i < |chains| && k < |chains[i]| && TakenOut(h0, h, hm, i, chains[i], k)
    ensures
      var e := chains[i][k];
      var es := Entries(chains) - {e};
      && KeysUnique(h, es)
      && Pairs(h, es) == Pairs(h0, Entries(chains)) - {h0.At(KeyLoc(e))}
      && h.At(CountLoc(hm)) == |es|
  {
    var es, e := Entries(chains), chains[i][k];
    TakenOutKeeps(h0, h, hm, chains, i, k);
    PairsRemove(h0, es, e);
    PairsSame(h0, h, es - {e});
    EntriesCount(h0, hm, chains);
    CountLess(es, e, h0.At(CountLoc(hm)));
  }

  lemma CountLess(es: set<Oid>, e: Oid, count: Word)
    requires e in es && count == |es| < WORD_RANGE
    ensures Wrap(count - 1) == |es - {e}|
  {
  }

  lemma TakenOutShape(h0: Heap, h: Heap, hm: Oid, chains: seq<seq<Oid>>, i: nat, k: nat)
    requires Shape(h0, hm, chains) && i < |chains| && k < |chains[i]| && TakenOut(h0, h, hm, i, chains[i], k)
    ensures
      var e := chains[i][k];
      var after := chains[i := chains[i][..k] + chains[i][k + 1..]];
      && Shape(h, hm, after)
      && Pairs(h, Entries(after)) == Pairs(h0, Entries(chains)) - {h0.At(KeyLoc(e))}
      && Entries(after) == Entries(chains) - {e}
      && CoeffsOf(h, hm) == CoeffsOf(h0, hm) && h.At(TableLoc(hm)) == h0.At(TableLoc(hm))
      && e in Entries(chains) && hm != e && h0.At(TableLoc(hm)) != e
  {
    HeaderInHeap(h0, hm, chains);
    TakenOutKeeps(h0, h, hm, chains, i, k);
    TakenOutTable(h0, h, hm, chains, i, k);
    TakenOutPairs(h0, h, hm, chains, i, k);
  }

  lemma TakenOutRest(h0: Heap, h: Heap, hm: Oid, i: nat, c: seq<Oid>, k: nat, es: set<Oid>)
    requires h0.Ok() && k < |c| && TakenOut(h0, h, hm, i, c, k)
    requires c[k] in es && (k > 0 ==> c[k - 1] in es)
    requires c[k] != hm && c[k] != h0.At(TableLoc(hm))
    ensures
      var own := {hm, h0.At(TableLoc(hm))};
      h.Without(own + (es - {c[k]})) == h0.Without(own + es)
  {
    var own := {hm, h0.At(TableLoc(hm))};
    assert h.objs - (own + (es - {c[k]})) == h0.objs - (own + es);
    RestSame(h0, h, own + es, own + (es - {c[k]}));
  }

  lemma TakenOutYields(h0: Heap, h: Heap, hm: Oid, chains: seq<seq<Oid>>, i: nat, k: nat)
    requires Shape(h0, hm, chains) && i < |chains| && k < |chains[i]| && TakenOut(h0, h, hm, i, chains[i], k)
    ensures Wf(h0, hm)
    ensures Yields(h0, h, hm, Pairs(h0, Entries(chains)) - {h0.At(KeyLoc(chains[i][k]))}, {|chains|})
  {
    var c := chains[i];
    TakenOutShape(h0, h, hm, chains, i, k);
    assert k > 0 ==> c[k - 1] in c;
    TakenOutRest(h0, h, hm, i, c, k, Entries(chains));
    YieldsIntro(h0, h, hm, chains, chains[i := c[..k] + c[k + 1..]]);
  }
}
