/** The in-place move of all entries from one bucket array to another, stated on heaps. */
module HashmapRelink {
  import opened Pmem
  import opened HashmapLayout
  import opened HashmapSteps

  /** Cells that relinking may change: the old buckets and the links of the entries. */
  predicate Scratch(l: Loc, was: Oid, es: set<Oid>) {
    (l.oid == was && l.off > 0) || (l.oid in es && l == NextLoc(l.oid))
  }

  /** Besides a new array with room for `room` buckets, nothing but scratch cells differs from the heap `h0`. */
  ghost predicate Framed(h0: Heap, h: Heap, was: Oid, now: Oid, room: nat, es: set<Oid>) {
    && h0.Ok() && h.Ok()
    && was in h0.objs && now !in h0.objs && h.objs == h0.objs[now := Buckets(room)]
    && (forall l | l in h0.mem && !Scratch(l, was, es) :: h.At(l) == h0.At(l))
  }

  /** Half way through relinking: the entries `es` are divided between chains `oc` of the old table and
      chains `nc` of the new one, which may say that it has more buckets than there is room for. */
  ghost predicate Relinking(h0: Heap, h: Heap, co: Coeffs, was: Oid, now: Oid, room: nat, es: set<Oid>,
                            oc: seq<seq<Oid>>, nc: seq<seq<Oid>>)
  {
    && Framed(h0, h, was, now, room, es)
    && TableShape(h, co, was, oc) && Heads(h, co, now, nc)
    && Entries(oc) !! Entries(nc) && Entries(oc) + Entries(nc) == es
  }

  function Empty(n: nat): (s: seq<seq<Oid>>)
    ensures |s| == n && forall i | 0 <= i < n :: s[i] == []
  {
    seq(n, _ => [])
  }

  lemma EmptyEntries(s: seq<seq<Oid>>)
    requires forall i | 0 <= i < |s| :: s[i] == []
    ensures Entries(s) == {}
  {
  }

  /** A zeroed bucket array is a table without entries, and the old table is still complete. */
  lemma RelinkStart(h0: Heap, h: Heap, hm: Oid, chains: seq<seq<Oid>>, now: Oid, room: nat, n: nat)
    requires Shape(h0, hm, chains) && n > 0
    requires now !in h0.objs && h.Ok() && h.objs == h0.objs[now := Buckets(room)]
    requires forall l | l in h0.mem :: h.At(l) == h0.At(l)
    requires h.At(NBucketsLoc(now)) == n && forall i | 0 <= i < n :: h.At(BucketLoc(now, i)) == 0
    ensures Relinking(h0, h, CoeffsOf(h0, hm), h0.At(TableLoc(hm)), now, room, Entries(chains), chains, Empty(n))
  {
    var co, was := CoeffsOf(h0, hm), h0.At(TableLoc(hm));
    HeaderInHeap(h0, hm, chains);
    EmptyEntries(Empty(n));
    forall i | 0 <= i < |chains|
      ensures Chain(h, co, was, |chains|, i, chains[i])
    {
      assert Chain(h0, co, was, |chains|, i, chains[i]);
      forall e | e in chains[i]
        ensures SameEntry(h0, h, e)
      {
        EntryInHeap(h0, hm, chains, e);
      }
      ChainFrame(h0, h, co, was, |chains|, i, chains[i]);
    }
  }

  /** The three stores that move the first entry of an old bucket to the front of a new one. */
  function MoveFirst(h: Heap, was: Oid, i: nat, now: Oid, g: nat): Heap {
    var e := h.At(BucketLoc(was, i));
    h.Write(BucketLoc(was, i), h.At(NextLoc(e))).Write(NextLoc(e), h.At(BucketLoc(now, g))).Write(BucketLoc(now, g), e)
  }

  lemma MoveFirstCells(h0: Heap, h: Heap, co: Coeffs, was: Oid, now: Oid, room: nat, es: set<Oid>,
                       oc: seq<seq<Oid>>, nc: seq<seq<Oid>>, i: nat)
    requires Relinking(h0, h, co, was, now, room, es, oc, nc) && i < |oc| && oc[i] != []
    ensures
      var e := oc[i][0];
      && e == h.At(BucketLoc(was, i)) && e in oc[i] && e in Entries(oc) && e !in Entries(nc)
      && e in h0.objs && h0.objs[e] == ENTRY && h.objs[e] == ENTRY && e != was && e != now && was != now
      && BucketLoc(was, i) in h.mem && NextLoc(e) in h.mem && KeyLoc(e) in h.mem
  {
    assert Chain(h, co, was, |oc|, i, oc[i]);
    assert oc[i][0] in oc[i];
    EntryBucket(h, co, was, oc, oc[i][0]);
  }

  lemma MoveFirstOld(h0: Heap, h: Heap, co: Coeffs, was: Oid, now: Oid, room: nat, es: set<Oid>,
                     oc: seq<seq<Oid>>, nc: seq<seq<Oid>>, i: nat, g: nat)
    requires Relinking(h0, h, co, was, now, room, es, oc, nc) && i < |oc| && oc[i] != [] && g < |nc|
    ensures TableShape(MoveFirst(h, was, i, now, g), co, was, oc[i := oc[i][1..]])
    ensures Entries(oc[i := oc[i][1..]]) == Entries(oc) - {oc[i][0]}
  {
    var h', e := MoveFirst(h, was, i, now, g), oc[i][0];
    MoveFirstCells(h0, h, co, was, now, room, es, oc, nc, i);
    forall f | f in Entries(oc) && f != e
      ensures SameEntry(h, h', f)
    {
      EntryBucket(h, co, was, oc, f);
    }
    TableUnlink(h, h', co, was, oc, i, 0);
    assert oc[i][..0] + oc[i][1..] == oc[i][1..];
  }

  lemma MoveFirstNew(h0: Heap, h: Heap, co: Coeffs, was: Oid, now: Oid, room: nat, es: set<Oid>,
                     oc: seq<seq<Oid>>, nc: seq<seq<Oid>>, i: nat, g: nat)
    requires Relinking(h0, h, co, was, now, room, es, oc, nc) && i < |oc| && oc[i] != []
    requires g == Hash(co, |nc|, h.At(KeyLoc(oc[i][0])))
    ensures Heads(MoveFirst(h, was, i, now, g), co, now, nc[g := [oc[i][0]] + nc[g]])
    ensures Entries(nc[g := [oc[i][0]] + nc[g]]) == Entries(nc) + {oc[i][0]}
  {
    var h', e := MoveFirst(h, was, i, now, g), oc[i][0];
    MoveFirstCells(h0, h, co, was, now, room, es, oc, nc, i);
    forall f | f in Entries(nc)
      ensures SameEntry(h, h', f)
    {
      EntryBucket(h, co, now, nc, f);
    }
    TablePush(h, h', co, now, nc, g, e);
    EntriesPush(nc, g, e);
  }

  lemma MoveElement(a: set<Oid>, b: set<Oid>, e: Oid)
    requires a !! b && e in a
    ensures a - {e} !! b + {e} && (a - {e}) + (b + {e}) == a + b
  {
  }

  lemma MoveFirstFrame(h0: Heap, h: Heap, was: Oid, now: Oid, room: nat, es: set<Oid>, i: nat, g: nat)
    requires Framed(h0, h, was, now, room, es) && BucketLoc(was, i) in h.mem && g < room
    requires h.At(BucketLoc(was, i)) in es && NextLoc(h.At(BucketLoc(was, i))) in h.mem
    ensures Framed(h0, MoveFirst(h, was, i, now, g), was, now, room, es)
    ensures MoveFirst(h, was, i, now, g).mem.Keys == h.mem.Keys && MoveFirst(h, was, i, now, g).objs == h.objs
  {
    assert BucketLoc(now, g) in h.mem;
  }

  lemma MoveFirstStep(h0: Heap, h: Heap, co: Coeffs, was: Oid, now: Oid, room: nat, es: set<Oid>,
                      oc: seq<seq<Oid>>, nc: seq<seq<Oid>>, i: nat, g: nat)
    requires Relinking(h0, h, co, was, now, room, es, oc, nc) && i < |oc| && oc[i] != []
    requires g == Hash(co, |nc|, h.At(KeyLoc(oc[i][0]))) && g < room
    ensures
      var (oc', nc') := (oc[i := oc[i][1..]], nc[g := [oc[i][0]] + nc[g]]);
      Relinking(h0, MoveFirst(h, was, i, now, g), co, was, now, room, es, oc', nc')
  {
    MoveFirstCells(h0, h, co, was, now, room, es, oc, nc, i);
    MoveFirstFrame(h0, h, was, now, room, es, i, g);
    MoveFirstOld(h0, h, co, was, now, room, es, oc, nc, i, g);
    MoveFirstNew(h0, h, co, was, now, room, es, oc, nc, i, g);
    assert oc[i][0] in oc[i];
    MoveElement(Entries(oc), Entries(nc), oc[i][0]);
  }

  lemma HeaderKept(h0: Heap, h: Heap, hm: Oid, was: Oid, now: Oid, room: nat, es: set<Oid>)
    requires Framed(h0, h, was, now, room, es)
    requires hm in h0.objs && h0.objs[hm] == HASHMAP && hm !in es && hm != was
    ensures CoeffsOf(h, hm) == CoeffsOf(h0, hm) && h.At(CountLoc(hm)) == h0.At(CountLoc(hm))
    ensures HashALoc(hm) in h.mem && HashBLoc(hm) in h.mem && HashPLoc(hm) in h.mem && TableLoc(hm) in h.mem
    ensures h.At(TableLoc(hm)) == h0.At(TableLoc(hm))
  {
    assert HashALoc(hm) in h0.mem && HashBLoc(hm) in h0.mem && HashPLoc(hm) in h0.mem;
    assert CountLoc(hm) in h0.mem && TableLoc(hm) in h0.mem;
  }

  lemma OldTable(h: Heap, co: Coeffs, was: Oid, oc: seq<seq<Oid>>)
    requires h.Ok() && TableShape(h, co, was, oc)
    ensures NBucketsLoc(was) in h.mem && h.At(NBucketsLoc(was)) == |oc|
  {
  }

  lemma OldBucket(h: Heap, co: Coeffs, was: Oid, oc: seq<seq<Oid>>, i: nat)
    requires h.Ok() && TableShape(h, co, was, oc) && i < |oc|
    ensures BucketLoc(was, i) in h.mem
    ensures h.At(BucketLoc(was, i)) == OID_NULL <==> oc[i] == []
  {
    ChainEnd(h, co, was, |oc|, i, oc[i], 0);
  }

  /** The new array says how many buckets it has; as many as there is room for are really there. */
  lemma NewTable(h: Heap, co: Coeffs, now: Oid, room: nat, nc: seq<seq<Oid>>)
    requires h.Ok() && Heads(h, co, now, nc) && now in h.objs && h.objs[now] == Buckets(room)
    ensures co.p > 0 && |nc| > 0 && NBucketsLoc(now) in h.mem && h.At(NBucketsLoc(now)) == |nc|
    ensures forall g: nat :: BucketLoc(now, g) in h.mem <==> g < room
  {
  }

  /** Some entry belongs in a new bucket that there is no room for. */
  ghost predicate Stray(h0: Heap, co: Coeffs, n: nat, room: nat, es: set<Oid>) {
    co.p > 0 && n > 0 && exists e :: e in es && Hash(co, n, h0.At(KeyLoc(e))) >= room
  }

  /** No entry on a new chain does. */
  lemma NoStray(h0: Heap, h: Heap, was: Oid, now: Oid, room: nat, es: set<Oid>, co: Coeffs, nc: seq<seq<Oid>>)
    requires Framed(h0, h, was, now, room, es) && Heads(h, co, now, nc) && Entries(nc) == es
    requires forall e | e in es :: e in h0.objs && h0.objs[e] == ENTRY && e != was
    ensures !Stray(h0, co, |nc|, room, es)
  {
    forall e | e in es
      ensures Hash(co, |nc|, h0.At(KeyLoc(e))) < room
    {
      EntryBucket(h, co, now, nc, e);
      var i := Hash(co, |nc|, h.At(KeyLoc(e)));
      ChainEnd(h, co, now, |nc|, i, nc[i], 0);
      assert BucketLoc(now, i) in h.mem;
      assert KeyLoc(e) in h0.mem;
    }
  }

  /** The heap once the header leads to the new table and the old one is freed. */
  function Swing(h: Heap, hm: Oid, was: Oid, now: Oid): Heap {
    h.Write(TableLoc(hm), now).Without({was})
  }

  /** A cell that neither relinking nor the swing touches. */
  lemma SwingCell(h0: Heap, h: Heap, hm: Oid, was: Oid, now: Oid, room: nat, es: set<Oid>, l: Loc)
    requires Framed(h0, h, was, now, room, es) && l in h0.mem && !Scratch(l, was, es)
    requires l.oid != was && l != TableLoc(hm)
    ensures Swing(h, hm, was, now).At(l) == h0.At(l)
  {
    assert l in h.mem;
  }

  lemma SwingHeader(h0: Heap, h: Heap, hm: Oid, was: Oid, now: Oid, room: nat, es: set<Oid>)
    requires Framed(h0, h, was, now, room, es)
    requires hm in h0.objs && h0.objs[hm] == HASHMAP && hm !in es && hm != was
    ensures
      var h' := Swing(h, hm, was, now);
      && h'.Ok() && hm in h'.objs && h'.objs[hm] == HASHMAP
      && CoeffsOf(h', hm) == CoeffsOf(h0, hm) && h'.At(TableLoc(hm)) == now
      && h'.At(CountLoc(hm)) == h0.At(CountLoc(hm))
  {
    SwingCell(h0, h, hm, was, now, room, es, HashALoc(hm));
    SwingCell(h0, h, hm, was, now, room, es, HashBLoc(hm));
    SwingCell(h0, h, hm, was, now, room, es, HashPLoc(hm));
    SwingCell(h0, h, hm, was, now, room, es, CountLoc(hm));
    assert TableLoc(hm) in h.mem;
  }

  lemma SwingNew(h0: Heap, h: Heap, hm: Oid, was: Oid, now: Oid, room: nat, es: set<Oid>)
    requires Framed(h0, h, was, now, room, es) && hm in h0.objs
    ensures
      var h' := Swing(h, hm, was, now);
      now in h'.objs && h'.objs[now] == h.objs[now] && forall l: Loc | l.oid == now :: h'.At(l) == h.At(l)
  {
  }

  lemma SwingEntry(h0: Heap, h: Heap, hm: Oid, was: Oid, now: Oid, room: nat, es: set<Oid>, e: Oid)
    requires Framed(h0, h, was, now, room, es)
    requires e in h0.objs && h0.objs[e] == ENTRY && e != hm && e != was
    ensures
      var h' := Swing(h, hm, was, now);
      SameEntry(h, h', e) && SamePair(h0, h', e)
  {
    assert KeyLoc(e) in h0.mem && NextLoc(e) in h0.mem;
    SwingCell(h0, h, hm, was, now, room, es, KeyLoc(e));
    SwingCell(h0, h, hm, was, now, room, es, ValueLoc(e));
  }

  lemma SwingEntries(h0: Heap, h: Heap, hm: Oid, chains: seq<seq<Oid>>, now: Oid, room: nat)
    requires Shape(h0, hm, chains) && Framed(h0, h, h0.At(TableLoc(hm)), now, room, Entries(chains))
    ensures
      var h' := Swing(h, hm, h0.At(TableLoc(hm)), now);
      forall e | e in Entries(chains) :: SameEntry(h, h', e) && SamePair(h0, h', e)
  {
    HeaderInHeap(h0, hm, chains);
    forall e | e in Entries(chains)
      ensures
        var h' := Swing(h, hm, h0.At(TableLoc(hm)), now);
        SameEntry(h, h', e) && SamePair(h0, h', e)
    {
      EntryInHeap(h0, hm, chains, e);
      SwingEntry(h0, h, hm, h0.At(TableLoc(hm)), now, room, Entries(chains), e);
    }
  }

  lemma SwingShape(h0: Heap, h: Heap, hm: Oid, chains: seq<seq<Oid>>, now: Oid, oc: seq<seq<Oid>>, nc: seq<seq<Oid>>)
    requires Shape(h0, hm, chains) && 8 + |nc| * 16 <= MAX_ALLOC_SIZE
    requires Relinking(h0, h, CoeffsOf(h0, hm), h0.At(TableLoc(hm)), now, |nc|, Entries(chains), oc, nc)
    requires forall i | 0 <= i < |oc| :: oc[i] == []
    ensures
      var h' := Swing(h, hm, h0.At(TableLoc(hm)), now);
      && Shape(h', hm, nc) && Entries(nc) == Entries(chains)
      && Pairs(h', Entries(nc)) == Pairs(h0, Entries(chains))
      && CoeffsOf(h', hm) == CoeffsOf(h0, hm) && h'.At(TableLoc(hm)) == now
  {
    var h' := Swing(h, hm, h0.At(TableLoc(hm)), now);
    HeaderInHeap(h0, hm, chains);
    SwingHeader(h0, h, hm, h0.At(TableLoc(hm)), now, |nc|, Entries(chains));
    EmptyEntries(oc);
    assert Entries(nc) == Entries(chains);
    SwingPairs(h0, h, hm, chains, now, |nc|, nc);
  }

  lemma SwingPairs(h0: Heap, h: Heap, hm: Oid, chains: seq<seq<Oid>>, now: Oid, room: nat, nc: seq<seq<Oid>>)
    requires Shape(h0, hm, chains) && Framed(h0, h, h0.At(TableLoc(hm)), now, room, Entries(chains))
    requires TableShape(h, CoeffsOf(h0, hm), now, nc) && Entries(nc) == Entries(chains)
    ensures
      var h' := Swing(h, hm, h0.At(TableLoc(hm)), now);
      && KeysUnique(h', Entries(chains)) && Pairs(h', Entries(chains)) == Pairs(h0, Entries(chains))
      && TableShape(h', CoeffsOf(h0, hm), now, nc)
  {
    var h' := Swing(h, hm, h0.At(TableLoc(hm)), now);
    SwingEntries(h0, h, hm, chains, now, room);
    SwingNew(h0, h, hm, h0.At(TableLoc(hm)), now, room, Entries(chains));
    SwingTable(h, h', CoeffsOf(h0, hm), now, nc);
    PairsSame(h0, h', Entries(chains));
  }

  lemma SwingTable(h: Heap, h': Heap, co: Coeffs, now: Oid, nc: seq<seq<Oid>>)
    requires TableShape(h, co, now, nc)
    requires now in h'.objs && h'.objs[now] == h.objs[now]
    requires forall l: Loc | l.oid == now :: h'.At(l) == h.At(l)
    requires forall e | e in Entries(nc) :: SameEntry(h, h', e)
    ensures TableShape(h', co, now, nc)
  {
    forall i | 0 <= i < |nc|
      ensures Chain(h', co, now, |nc|, i, nc[i])
    {
      assert Chain(h, co, now, |nc|, i, nc[i]);
      assert forall e :: e in nc[i] ==> e in Entries(nc);
      ChainFrame(h, h', co, now, |nc|, i, nc[i]);
    }
  }

  lemma SwingRest(h0: Heap, h: Heap, hm: Oid, now: Oid, room: nat, es: set<Oid>)
    requires hm in h0.objs && Framed(h0, h, h0.At(TableLoc(hm)), now, room, es)
    ensures
      var was := h0.At(TableLoc(hm));
      Swing(h, hm, was, now).Without({hm, now} + es) == h0.Without({hm, was} + es)
  {
    var was := h0.At(TableLoc(hm));
    var h' := Swing(h, hm, was, now);
    assert h'.Ok();
    assert h'.objs - ({hm, now} + es) == h0.objs - ({hm, was} + es);
    RestSame(h0, h', {hm, was} + es, {hm, now} + es);
  }

  /** A finished rebuild: the same map in a table of another size. */
  lemma SwingYields(h0: Heap, h: Heap, hm: Oid, chains: seq<seq<Oid>>, now: Oid, oc: seq<seq<Oid>>, nc: seq<seq<Oid>>)
    requires Shape(h0, hm, chains) && 8 + |nc| * 16 <= MAX_ALLOC_SIZE
    requires Relinking(h0, h, CoeffsOf(h0, hm), h0.At(TableLoc(hm)), now, |nc|, Entries(chains), oc, nc)
    requires forall i | 0 <= i < |oc| :: oc[i] == []
    ensures Wf(h0, hm)
    ensures Yields(h0, Swing(h, hm, h0.At(TableLoc(hm)), now), hm, Pairs(h0, Entries(chains)), {|nc|})
  {
    SwingShape(h0, h, hm, chains, now, oc, nc);
    SwingRest(h0, h, hm, now, |nc|, Entries(chains));
    YieldsIntro(h0, Swing(h, hm, h0.At(TableLoc(hm)), now), hm, chains, nc);
  }

  /** A rebuild that got away with too little room leaves a table that says it has more buckets than it has. */
  lemma SwingUnfit(h0: Heap, h: Heap, hm: Oid, was: Oid, now: Oid, room: nat, es: set<Oid>, co: Coeffs,
                   nc: seq<seq<Oid>>)
    requires Framed(h0, h, was, now, room, es) && Heads(h, co, now, nc) && room != |nc|
    requires hm in h0.objs && h0.objs[hm] == HASHMAP && hm !in es && hm != was
    ensures !Wf(Swing(h, hm, was, now), hm)
  {
    SwingHeader(h0, h, hm, was, now, room, es);
    SwingNew(h0, h, hm, was, now, room, es);
  }
}
