/** What becomes of a key in a cuckoo filter: exactly when its insertion is lost and when a later insertion
    overwrites it, with runs of the code in which both happen. */
module CuckooOutcomes {
  import opened Bits
  import opened CuckooTable
  import opened CuckooPlacement

  // ----- The pointer test

  /** The test `cf->buckets[b] != NULL` reads eight bytes of the block that the buckets are in. The block is
      twice as long as the buckets, and its upper half stays zero. */
  predicate Guard(s: seq<u8>, b: nat) {
    exists p | 8 * b <= p < 8 * b + 8 && p < |s| :: s[p] != 0
  }

  /** The pointer tests of the kick-out loop from round `k` come out as the bytes have it. */
  predicate GenuineKick(g: Geometry, s: seq<u8>, f: u8, i: nat, slots: seq<nat>, guards: seq<bool>, k: nat)
    requires k <= |slots| == |guards|
    requires |s| == 4 * g.Size() && g.Lawful() && i < g.Size()
    decreases |slots| - k
  {
    k == |slots| ||
    (assert g.Paired(f, i);
     var s', j := s[4 * i + slots[k] % BUCKET_SIZE := f], g.other(f, i);
     && guards[k] == Guard(s', j)
     && (Claimed(s', j, guards[k]) ||
         GenuineKick(g, Attempt(s', f, j, guards[k]), f, j, slots, guards, k + 1)))
  }

  /** All pointer tests of an insertion come out as the bytes have it, so that only `rand` is left to chance. */
  predicate Genuine(g: Geometry, s: seq<u8>, f: u8, i: nat, r: Chance)
    requires Possible(r) && |s| == 4 * g.Size() && g.Lawful() && i < g.Size()
  {
    assert g.Paired(f, i);
    var j := g.other(f, i);
    var s1 := Attempt(s, f, i, r.first);
    && r.first == Guard(s, i)
    && r.second == Guard(s1, j)
    && GenuineKick(g, Attempt(s1, f, j, r.second), f, if r.coin then i else j, r.slots, r.guards, 0)
  }

  /** Round `k` of the loop and the rounds after it look at the tests from `k` on only. */
  lemma {:induction false} GuardsFrom(g: Geometry, s: seq<u8>, f: u8, i: nat, slots: seq<nat>,
                                      guards: seq<bool>, others: seq<bool>, k: nat)
    requires k <= |slots| == |guards| == |others|
    requires |s| == 4 * g.Size() && g.Lawful() && i < g.Size()
    requires forall l | k <= l < |slots| :: guards[l] == others[l]
    ensures GenuineKick(g, s, f, i, slots, guards, k) <==> GenuineKick(g, s, f, i, slots, others, k)
    decreases |slots| - k
  {
    if k < |slots| {
      assert g.Paired(f, i);
      var s', j := s[4 * i + slots[k] % BUCKET_SIZE := f], g.other(f, i);
      GuardsFrom(g, Attempt(s', f, j, guards[k]), f, j, slots, guards, others, k + 1);
    }
  }

  /** Whatever slots are drawn, the bytes give outcomes for the tests of the loop. */
  lemma {:induction false} SomeGuards(g: Geometry, s: seq<u8>, f: u8, i: nat, slots: seq<nat>, k: nat)
    returns (guards: seq<bool>)
    requires k <= |slots|
    requires |s| == 4 * g.Size() && g.Lawful() && i < g.Size()
    ensures |guards| == |slots| && GenuineKick(g, s, f, i, slots, guards, k)
    decreases |slots| - k
  {
    if k == |slots| {
      guards := seq(|slots|, _ => false);
    } else {
      assert g.Paired(f, i);
      var s', j := s[4 * i + slots[k] % BUCKET_SIZE := f], g.other(f, i);
      var rest := SomeGuards(g, Attempt(s', f, j, Guard(s', j)), f, j, slots, k + 1);
      guards := rest[k := Guard(s', j)];
      GuardsFrom(g, Attempt(s', f, j, Guard(s', j)), f, j, slots, rest, guards, k + 1);
    }
  }

  /** Every draw of `rand` and `rand_bool` is that of an insertion whose tests come out as the bytes have it. */
  lemma SomeGenuine(g: Geometry, s: seq<u8>, f: u8, i: nat, coin: bool, slots: seq<nat>) returns (r: Chance)
    requires |slots| == KICK_OUTS && |s| == 4 * g.Size() && g.Lawful() && i < g.Size()
    ensures Possible(r) && r.coin == coin && r.slots == slots && Genuine(g, s, f, i, r)
  {
    assert g.Paired(f, i);
    var j := g.other(f, i);
    var s1 := Attempt(s, f, i, Guard(s, i));
    var s2 := Attempt(s1, f, j, Guard(s1, j));
    var guards := SomeGuards(g, s2, f, if coin then i else j, slots, 0);
    r := Chance(Guard(s, i), Guard(s1, j), coin, slots, guards);
  }

  // ----- The inserted key

  /** What a caller can see before the call: the first bucket that passes the pointer test is full. */
  predicate Blocked(s: seq<u8>, i: nat, j: nat)
    requires InTable(s, i) && InTable(s, j)
  {
    if Guard(s, i) then Full(s, i) else Guard(s, j) && Full(s, j)
  }

  /** Whatever `rand` gives, a key is found right after its insertion exactly when its fingerprint was there
      before or the insertion was not blocked. */
  lemma InsertThenFound(g: Geometry, s: seq<u8>, f: u8, i: nat, r: Chance)
    requires Possible(r) && |s| == 4 * g.Size() && g.Lawful() && i < g.Size() && f > 0
    requires Genuine(g, s, f, i, r)
    ensures
      var j := g.other(f, i);
      && InTable(s, j)
      && (Present(Insert(g, s, f, i, r).table, f, i, j) <==> Present(s, f, i, j) || !Blocked(s, i, j))
  {
    InsertThenLookup(g, s, f, i, r);
  }

  // ----- The keys that were there before

  /** The slots that the kick-out loop overwrites from round `k`. */
  function KickHits(g: Geometry, s: seq<u8>, f: u8, i: nat, slots: seq<nat>, guards: seq<bool>, k: nat): set<nat>
    requires k <= |slots| == |guards|
    requires |s| == 4 * g.Size() && g.Lawful() && i < g.Size()
    decreases |slots| - k
  {
    if k == |slots| then {}
    else
      assert g.Paired(f, i);
      var q := 4 * i + slots[k] % BUCKET_SIZE;
      var s', j := s[q := f], g.other(f, i);
      {q} +
      if Claimed(s', j, guards[k]) then {}
      else KickHits(g, Attempt(s', f, j, guards[k]), f, j, slots, guards, k + 1)
  }

  /** The slots that an insertion overwrites: none when one of its attempts is taken for success. */
  function Hits(g: Geometry, s: seq<u8>, f: u8, i: nat, r: Chance): set<nat>
    requires Possible(r) && |s| == 4 * g.Size() && g.Lawful() && i < g.Size()
  {
    assert g.Paired(f, i);
    var j := g.other(f, i);
    var s1 := Attempt(s, f, i, r.first);
    if Claimed(s, i, r.first) || Claimed(s1, j, r.second) then {}
    else KickHits(g, Attempt(s1, f, j, r.second), f, if r.coin then i else j, r.slots, r.guards, 0)
  }

  /** An attempt fills an empty slot, so it leaves other fingerprints where they are. */
  lemma AttemptSpares(s: seq<u8>, f: u8, b: nat, guard: bool, e: u8, p: nat)
    requires InTable(s, b) && p < |s| && e != f && e != 0
    ensures Attempt(s, f, b, guard)[p] == e <==> s[p] == e
  {
  }

  lemma {:induction false} KickSpares(g: Geometry, s: seq<u8>, f: u8, i: nat, slots: seq<nat>,
                                      guards: seq<bool>, k: nat, e: u8, p: nat)
    requires k <= |slots| == |guards|
    requires |s| == 4 * g.Size() && g.Lawful() && i < g.Size()
    requires p < |s| && e != f && e != 0
    ensures Kick(g, s, f, i, slots, guards, k).0[p] == e <==> s[p] == e && p !in KickHits(g, s, f, i, slots, guards, k)
    decreases |slots| - k
  {
    if k < |slots| {
      KickStep(g, s, f, i, slots, guards, k);
      var s', j := s[4 * i + slots[k] % BUCKET_SIZE := f], g.other(f, i);
      if !Claimed(s', j, guards[k]) {
        AttemptSpares(s', f, j, guards[k], e, p);
        KickSpares(g, Attempt(s', f, j, guards[k]), f, j, slots, guards, k + 1, e, p);
      }
    }
  }

  /** Another fingerprint stays in its slot exactly when no kick-out round hits that slot. */
  lemma InsertSpares(g: Geometry, s: seq<u8>, f: u8, i: nat, r: Chance, e: u8, p: nat)
    requires Possible(r) && |s| == 4 * g.Size() && g.Lawful() && i < g.Size()
    requires p < |s| && e != f && e != 0
    ensures Insert(g, s, f, i, r).table[p] == e <==> s[p] == e && p !in Hits(g, s, f, i, r)
  {
    assert g.Paired(f, i);
    var j := g.other(f, i);
    var s1 := Attempt(s, f, i, r.first);
    var s2 := Attempt(s1, f, j, r.second);
    AttemptSpares(s, f, i, r.first, e, p);
    AttemptSpares(s1, f, j, r.second, e, p);
    KickSpares(g, s2, f, if r.coin then i else j, r.slots, r.guards, 0, e, p);
  }

  /** A copy of `e` in bucket `a` or `b` that is not in one of the slots. */
  ghost predicate Elsewhere(s: seq<u8>, e: u8, a: nat, b: nat, slots: set<nat>) {
    exists p: nat :: p < |s| && s[p] == e && (p / 4 == a || p / 4 == b) && p !in slots
  }

  lemma HasAt(s: seq<u8>, b: nat, e: u8, p: nat)
    requires InTable(s, b) && p / 4 == b && p < |s| && s[p] == e
    ensures Has(s, b, e)
  {
    assert p == 4 * b || p == 4 * b + 1 || p == 4 * b + 2 || p == 4 * b + 3;
  }

  lemma PresentElsewhere(s: seq<u8>, e: u8, a: nat, b: nat)
    requires InTable(s, a) && InTable(s, b)
    ensures Present(s, e, a, b) <==> Elsewhere(s, e, a, b, {})
  {
    if Present(s, e, a, b) {
      var p := if Has(s, a, e) then 4 * a + Find(s, a, e) else 4 * b + Find(s, b, e);
      assert s[p] == e && (p / 4 == a || p / 4 == b);
    }
    if Elsewhere(s, e, a, b, {}) {
      var p: nat :| p < |s| && s[p] == e && (p / 4 == a || p / 4 == b);
      HasAt(s, p / 4, e, p);
    }
  }

  /** A key that was found before an insertion is found after it exactly when it has the same fingerprint as
      the inserted key, or a copy of its own is in a slot that no kick-out round hits. */
  lemma EarlierKeyFound(g: Geometry, s: seq<u8>, f: u8, i: nat, r: Chance, e: u8, a: nat, b: nat)
    requires Possible(r) && |s| == 4 * g.Size() && g.Lawful() && i < g.Size() && e != 0
    requires InTable(s, a) && InTable(s, b) && Present(s, e, a, b)
    ensures Present(Insert(g, s, f, i, r).table, e, a, b) <==> e == f || Elsewhere(s, e, a, b, Hits(g, s, f, i, r))
  {
    var s', hits := Insert(g, s, f, i, r).table, Hits(g, s, f, i, r);
    PresentElsewhere(s', e, a, b);
    if e == f {
      InsertWrites(g, s, f, i, r);
      PresentElsewhere(s, e, a, b);
      var p: nat :| p < |s| && s[p] == e && (p / 4 == a || p / 4 == b);
      assert s'[p] == e;
    } else {
      forall p: nat | p < |s|
        ensures s'[p] == e <==> s[p] == e && p !in hits
      {
        InsertSpares(g, s, f, i, r, e, p);
      }
      assert Elsewhere(s', e, a, b, {}) <==> Elsewhere(s, e, a, b, hits);
    }
  }

  lemma {:induction false} KickHitsInBuckets(g: Geometry, s: seq<u8>, f: u8, i: nat, j: nat, slots: seq<nat>,
                                             guards: seq<bool>, k: nat)
    requires k <= |slots| == |guards|
    requires |s| == 4 * g.Size() && g.Lawful() && i < g.Size() && j == g.other(f, i)
    ensures forall p | p in KickHits(g, s, f, i, slots, guards, k) :: p / 4 == i || p / 4 == j
    decreases |slots| - k
  {
    if k < |slots| {
      assert g.Paired(f, i);
      var q := slots[k] % BUCKET_SIZE;
      var s' := s[4 * i + q := f];
      assert (4 * i + q) / 4 == i;
      if !Claimed(s', j, guards[k]) {
        KickHitsInBuckets(g, Attempt(s', f, j, guards[k]), f, j, i, slots, guards, k + 1);
      }
    }
  }

  /** What a caller can see before the call: a key with a copy outside the two buckets of the inserted key is
      found after the insertion, whatever chance decides. */
  lemma EarlierKeySafe(g: Geometry, s: seq<u8>, f: u8, i: nat, r: Chance, e: u8, a: nat, b: nat)
    requires Possible(r) && |s| == 4 * g.Size() && g.Lawful() && i < g.Size() && e != 0
    requires InTable(s, a) && InTable(s, b)
    requires (Has(s, a, e) && a != i && a != g.other(f, i)) || (Has(s, b, e) && b != i && b != g.other(f, i))
    ensures Present(Insert(g, s, f, i, r).table, e, a, b)
  {
    assert g.Paired(f, i);
    var c, j := if a != i && a != g.other(f, i) && Has(s, a, e) then a else b, g.other(f, i);
    var p, start := 4 * c + Find(s, c, e), if r.coin then i else j;
    var s2 := Attempt(Attempt(s, f, i, r.first), f, j, r.second);
    KickHitsInBuckets(g, s2, f, start, if r.coin then j else i, r.slots, r.guards, 0);
    assert p / 4 == c && s[p] == e && p !in Hits(g, s, f, i, r);
    EarlierKeyFound(g, s, f, i, r, e, a, b);
  }

  /** What a caller can see before the call: one of the two attempts is taken for success, so that nothing is
      kicked out. */
  predicate Halted(s: seq<u8>, f: u8, i: nat, j: nat)
    requires InTable(s, i) && InTable(s, j)
  {
    var s1 := Attempt(s, f, i, Guard(s, i));
    Claimed(s, i, Guard(s, i)) || Claimed(s1, j, Guard(s1, j))
  }

  /** A draw whose first kick-out round hits slot `p`. */
  lemma SomeHit(g: Geometry, s: seq<u8>, f: u8, i: nat, p: nat) returns (r: Chance)
    requires |s| == 4 * g.Size() && g.Lawful() && i < g.Size() && p < |s|
    requires p / 4 == i || p / 4 == g.other(f, i)
    requires InTable(s, g.other(f, i)) && !Halted(s, f, i, g.other(f, i))
    ensures Possible(r) && Genuine(g, s, f, i, r) && p in Hits(g, s, f, i, r)
  {
    assert g.Paired(f, i);
    r := SomeGenuine(g, s, f, i, p / 4 == i, seq(KICK_OUTS, _ => p % 4));
    assert r.slots[0] == p % 4 && 4 * (p / 4) + p % 4 % BUCKET_SIZE == p;
  }

  /** Without kick-out rounds there are no hits, and those there are hit the two buckets. */
  lemma HitsInBuckets(g: Geometry, s: seq<u8>, f: u8, i: nat, r: Chance, p: nat)
    requires Possible(r) && |s| == 4 * g.Size() && g.Lawful() && i < g.Size()
    requires Genuine(g, s, f, i, r) && p in Hits(g, s, f, i, r)
    ensures InTable(s, g.other(f, i)) && !Halted(s, f, i, g.other(f, i))
    ensures p / 4 == i || p / 4 == g.other(f, i)
  {
    assert g.Paired(f, i);
    var j := g.other(f, i);
    var s2 := Attempt(Attempt(s, f, i, r.first), f, j, r.second);
    KickHitsInBuckets(g, s2, f, if r.coin then i else j, if r.coin then j else i, r.slots, r.guards, 0);
  }

  /** Another fingerprint stays in its slot whatever `rand` gives exactly when the slot is in neither bucket of
      the inserted key or nothing is kicked out. */
  lemma SlotSurvives(g: Geometry, s: seq<u8>, f: u8, i: nat, e: u8, p: nat)
    requires |s| == 4 * g.Size() && g.Lawful() && i < g.Size()
    requires p < |s| && s[p] == e && e != f && e != 0
    ensures
      var j := g.other(f, i);
      && InTable(s, j)
      && ((forall r | Possible(r) && Genuine(g, s, f, i, r) :: Insert(g, s, f, i, r).table[p] == e) <==>
            (p / 4 != i && p / 4 != j) || Halted(s, f, i, j))
  {
    assert g.Paired(f, i);
    var j := g.other(f, i);
    if (p / 4 == i || p / 4 == j) && !Halted(s, f, i, j) {
      var r := SomeHit(g, s, f, i, p);
      InsertSpares(g, s, f, i, r, e, p);
    } else {
      forall r | Possible(r) && Genuine(g, s, f, i, r)
        ensures Insert(g, s, f, i, r).table[p] == e
      {
        if p in Hits(g, s, f, i, r) { HitsInBuckets(g, s, f, i, r, p); }
        InsertSpares(g, s, f, i, r, e, p);
      }
    }
  }

  /** The only copy of `e` in the buckets `a` and `b`. */
  ghost predicate OnlyCopy(s: seq<u8>, e: u8, a: nat, b: nat, p: nat) {
    && p < |s| && s[p] == e && (p / 4 == a || p / 4 == b)
    && forall q: nat | q < |s| && s[q] == e && (q / 4 == a || q / 4 == b) :: q == p
  }

  /** An earlier key with a single copy is found after an insertion whatever `rand` gives exactly when it has
      the fingerprint of the inserted key, its copy is in neither bucket of that key, or nothing is kicked
      out. */
  lemma EarlierKeySurvives(g: Geometry, s: seq<u8>, f: u8, i: nat, e: u8, a: nat, b: nat, p: nat)
    requires |s| == 4 * g.Size() && g.Lawful() && i < g.Size() && e != 0
    requires InTable(s, a) && InTable(s, b) && OnlyCopy(s, e, a, b, p)
    ensures
      var j := g.other(f, i);
      && InTable(s, j)
      && ((forall r | Possible(r) && Genuine(g, s, f, i, r) :: Present(Insert(g, s, f, i, r).table, e, a, b)) <==>
            e == f || (p / 4 != i && p / 4 != j) || Halted(s, f, i, j))
  {
    assert g.Paired(f, i);
    var j := g.other(f, i);
    assert Elsewhere(s, e, a, b, {});
    PresentElsewhere(s, e, a, b);
    if e != f && (p / 4 == i || p / 4 == j) && !Halted(s, f, i, j) {
      var r := SomeHit(g, s, f, i, p);
      EarlierKeyFound(g, s, f, i, r, e, a, b);
    } else {
      forall r | Possible(r) && Genuine(g, s, f, i, r)
        ensures Present(Insert(g, s, f, i, r).table, e, a, b)
      {
        if p in Hits(g, s, f, i, r) { HitsInBuckets(g, s, f, i, r, p); }
        EarlierKeyFound(g, s, f, i, r, e, a, b);
      }
    }
  }

  // ----- Runs in which keys get lost

  /** The pointer tests of a call come out as the bytes have it. */
  ghost predicate GenuineOp(g: Geometry, s: seq<u8>, op: Op)
    requires |s| == 4 * g.Size() && g.Lawful() && Feasible(op)
  {
    KeyLaws(g, op.key);
    op.Put? ==> Genuine(g, s, g.hash(op.key).fp, g.First(op.key), op.chance)
  }

  /** A run in which every pointer test does. */
  ghost predicate GenuineRun(g: Geometry, ops: seq<Op>)
    requires g.Lawful() && forall o | o in ops :: Feasible(o)
  {
    if ops == [] then true
    else
      var before, op := ops[..|ops| - 1], ops[|ops| - 1];
      GenuineRun(g, before) && GenuineOp(g, After(g, before), op)
  }

  /** Draws of the slot `q` throughout. */
  function Draws(first: bool, second: bool, q: nat): Chance {
    Chance(first, second, true, seq(KICK_OUTS, _ => q), seq(KICK_OUTS, _ => true))
  }

  /** One more call at the end of a run. */
  lemma AfterSnoc(g: Geometry, ops: seq<Op>, op: Op)
    requires g.Lawful() && Feasible(op) && forall o | o in ops :: Feasible(o)
    ensures After(g, ops + [op]) == Apply(After(g, ops), g, op)
    ensures
      GenuineRun(g, ops + [op]) <==> GenuineRun(g, ops) && GenuineOp(g, After(g, ops), op)
  {
    assert (ops + [op])[..|ops + [op]| - 1] == ops;
  }

  /** A round of kicking out in a single bucket that has an empty slot goes on with that slot filled. */
  lemma RoundGoesOn(g: Geometry, s: seq<u8>, f: u8, r: Chance, k: nat, s1: seq<u8>, s2: seq<u8>)
    requires g.Lawful() && g.power == 0 && f != 0 && Possible(r) && k < KICK_OUTS && |s| == 4
    requires s1 == s[r.slots[k] % BUCKET_SIZE := f] && Has(s1, 0, 0) && s2 == Replace(s1, 0, 0, f)
    requires r.guards[k]
    ensures Kick(g, s, f, 0, r.slots, r.guards, k) == Kick(g, s2, f, 0, r.slots, r.guards, k + 1)
    ensures GenuineKick(g, s, f, 0, r.slots, r.guards, k) <==> GenuineKick(g, s2, f, 0, r.slots, r.guards, k + 1)
  {
    assert g.Paired(f, 0);
    KickStep(g, s, f, 0, r.slots, r.guards, k);
    assert s1[r.slots[k] % BUCKET_SIZE] == f;
  }

  /** A round in a single bucket that is full afterwards is the last one. */
  lemma RoundEnds(g: Geometry, s: seq<u8>, f: u8, r: Chance, k: nat, s1: seq<u8>)
    requires g.Lawful() && g.power == 0 && f != 0 && Possible(r) && k < KICK_OUTS && |s| == 4
    requires s1 == s[r.slots[k] % BUCKET_SIZE := f] && Full(s1, 0)
    requires r.guards[k]
    ensures Kick(g, s, f, 0, r.slots, r.guards, k) == (s1, true)
    ensures GenuineKick(g, s, f, 0, r.slots, r.guards, k)
  {
    assert g.Paired(f, 0);
    KickStep(g, s, f, 0, r.slots, r.guards, k);
    assert s1[r.slots[k] % BUCKET_SIZE] == f;
  }

  /** With a single bucket, the first insertion fills it with copies of one fingerprint. */
  lemma FillsBucket(g: Geometry, f: u8)
    requires g.Lawful() && g.power == 0 && f != 0
    ensures
      var s, r := [0, 0, 0, 0], Draws(false, false, 3);
      Genuine(g, s, f, 0, r) && Insert(g, s, f, 0, r) == Inserted([f, f, f, f], 1, true)
  {
    var r := Draws(false, false, 3);
    assert g.Paired(f, 0);
    RoundGoesOn(g, [0, 0, 0, 0], f, r, 0, [0, 0, 0, f], [f, 0, 0, f]);
    RoundGoesOn(g, [f, 0, 0, f], f, r, 1, [f, 0, 0, f], [f, f, 0, f]);
    RoundGoesOn(g, [f, f, 0, f], f, r, 2, [f, f, 0, f], [f, f, f, f]);
    RoundEnds(g, [f, f, f, f], f, r, 3, [f, f, f, f]);
  }

  /** With a single bucket that has two empty slots, an insertion fills both and then hits slot `q`. */
  lemma FillsAndHits(g: Geometry, s: seq<u8>, f: u8, q: nat, s': seq<u8>)
    requires g.Lawful() && g.power == 0 && f != 0 && q < 4 && |s| == 4
    requires Copies(s, 0, 0) == 2
    requires s' == Replace(Replace(s, 0, 0, f), 0, 0, f)[q := f]
    ensures
      var r := Draws(true, true, q);
      Genuine(g, s, f, 0, r) && Insert(g, s, f, 0, r) == Inserted(s', 1, true)
  {
    var r := Draws(true, true, q);
    assert g.Paired(f, 0);
    var s1 := Replace(s, 0, 0, f);
    var s2 := Replace(s1, 0, 0, f);
    assert Has(s, 0, 0) && Has(s1, 0, 0) && !Has(s2, 0, 0);
    assert Guard(s, 0);
    assert s1[Find(s, 0, 0)] == f;
    RoundEnds(g, s2, f, r, 0, s');
  }

  /** In a single bucket every index is 0. */
  lemma SingleBucket(g: Geometry, key: Key)
    requires g.Lawful() && g.power == 0
    ensures g.First(key) == 0 && g.Second(key) == 0 && g.Size() == 1 && g.hash(key).fp != 0
  {
    KeyLaws(g, key);
  }

  /** A genuine run that leaves the bytes `s`. */
  ghost predicate Reaches(g: Geometry, ops: seq<Op>, s: seq<u8>)
    requires g.Lawful()
  {
    && (forall o | o in ops :: Feasible(o))
    && GenuineRun(g, ops) && After(g, ops) == s
  }

  lemma ReachesFilled(g: Geometry, key: Key)
    requires g.Lawful() && g.power == 0
    ensures
      var f := g.hash(key).fp;
      Reaches(g, [Put(key, Draws(false, false, 3))], [f, f, f, f])
  {
    var op := Put(key, Draws(false, false, 3));
    SingleBucket(g, key);
    FillsBucket(g, g.hash(key).fp);
    AfterSnoc(g, [], op);
    assert [] + [op] == [op];
    assert After(g, []) == [0, 0, 0, 0];
  }

  lemma ReachesPut(g: Geometry, ops: seq<Op>, key: Key, q: nat, s: seq<u8>, s': seq<u8>)
    requires g.Lawful() && g.power == 0 && q < 4 && |s| == 4 && Copies(s, 0, 0) == 2
    requires s' == Replace(Replace(s, 0, 0, g.hash(key).fp), 0, 0, g.hash(key).fp)[q := g.hash(key).fp]
    requires Reaches(g, ops, s)
    ensures Reaches(g, ops + [Put(key, Draws(true, true, q))], s')
  {
    var op := Put(key, Draws(true, true, q));
    SingleBucket(g, key);
    FillsAndHits(g, s, g.hash(key).fp, q, s');
    AfterSnoc(g, ops, op);
  }

  lemma ReachesTake(g: Geometry, ops: seq<Op>, key: Key, s: seq<u8>, s': seq<u8>)
    requires g.Lawful() && g.power == 0 && |s| == 4
    requires s' == Delete(s, g.hash(key).fp, 0, 0).table
    requires Reaches(g, ops, s)
    ensures Reaches(g, ops + [Take(key)], s')
  {
    SingleBucket(g, key);
    AfterSnoc(g, ops, Take(key));
  }

  /** An insertion that is acknowledged but lost: after `a` was inserted into a filter with a single bucket,
      the insertion of `b` returns 0 whatever `rand` gives, and `b` is not found. */
  lemma InsertionLost(g: Geometry, a: Key, b: Key)
    requires g.Lawful() && g.power == 0 && g.hash(a).fp != g.hash(b).fp
    ensures
      var s, f := seq(4, _ => g.hash(a).fp), g.hash(b).fp;
      && Reaches(g, [Put(a, Draws(false, false, 3))], s) && !Present(s, f, 0, 0)
      && (exists r :: Possible(r) && Genuine(g, s, f, 0, r))
      && (forall r | Possible(r) && Genuine(g, s, f, 0, r) :: Insert(g, s, f, 0, r) == Inserted(s, 0, true))
  {
    var x, f := g.hash(a).fp, g.hash(b).fp;
    var s := seq(4, _ => x);
    assert s == [x, x, x, x];
    SingleBucket(g, a);
    SingleBucket(g, b);
    ReachesFilled(g, a);
    assert s[0] == x && Guard(s, 0);
    var r := SomeGenuine(g, s, f, 0, true, seq(KICK_OUTS, _ => 0));
  }

  /** A deletion that returns 0 although the key is still found, right after its only insertion. */
  lemma DeletionLeaves(g: Geometry, a: Key)
    requires g.Lawful() && g.power == 0
    ensures
      var ops := [Put(a, Draws(false, false, 3))];
      var s, f := After(g, ops), g.hash(a).fp;
      && GenuineRun(g, ops)
      && Delete(s, f, 0, 0).ret == 0 && Present(Delete(s, f, 0, 0).table, f, 0, 0)
  {
    SingleBucket(g, a);
    ReachesFilled(g, a);
  }

  /** Six calls after which one copy of `b` is left; `b` is inserted once and never deleted. */
  function Prelude(a: Key, b: Key): seq<Op> {
    [Put(a, Draws(false, false, 3))] + [Take(a)] + [Put(b, Draws(true, true, 0))] + [Take(a)]
      + [Put(a, Draws(true, true, 0))] + [Take(a)]
  }

  /** Of the calls, one inserts `b` and none deletes it. */
  lemma PreludeCalls(a: Key, b: Key)
    requires a != b
    ensures b in CuckooPlacement.Inserted(Prelude(a, b)) && Take(b) !in Prelude(a, b)
  {
    assert Prelude(a, b)[2] == Put(b, Draws(true, true, 0));
    assert Put(b, Draws(true, true, 0)) in Prelude(a, b);
  }

  lemma PreludeReaches(g: Geometry, a: Key, b: Key)
    requires g.Lawful() && g.power == 0 && g.hash(a).fp != g.hash(b).fp
    ensures Reaches(g, Prelude(a, b), [0, g.hash(b).fp, 0, g.hash(a).fp])
  {
    var x, y := g.hash(a).fp, g.hash(b).fp;
    SingleBucket(g, a);
    SingleBucket(g, b);
    ReachesFilled(g, a);
    var ops := [Put(a, Draws(false, false, 3))];
    ReachesTake(g, ops, a, [x, x, x, x], [0, 0, x, x]);
    ops := ops + [Take(a)];
    ReachesPut(g, ops, b, 0, [0, 0, x, x], [y, y, x, x]);
    ops := ops + [Put(b, Draws(true, true, 0))];
    ReachesTake(g, ops, a, [y, y, x, x], [y, y, 0, 0]);
    ops := ops + [Take(a)];
    ReachesPut(g, ops, a, 0, [y, y, 0, 0], [x, y, x, x]);
    ops := ops + [Put(a, Draws(true, true, 0))];
    ReachesTake(g, ops, a, [x, y, x, x], [0, y, 0, x]);
  }

  /** A key that was inserted and never deleted is found no more after the insertion of another key. */
  lemma EarlierKeyLost(g: Geometry, a: Key, b: Key)
    requires g.Lawful() && g.power == 0 && g.hash(a).fp != g.hash(b).fp
    ensures
      var ops, op := Prelude(a, b), Put(a, Draws(true, true, 1));
      var s, s' := [0, g.hash(b).fp, 0, g.hash(a).fp], seq(4, _ => g.hash(a).fp);
      && b in CuckooPlacement.Inserted(ops) && Take(b) !in ops
      && Reaches(g, ops, s) && Present(s, g.hash(b).fp, 0, 0)
      && Reaches(g, ops + [op], s') && !Present(s', g.hash(b).fp, 0, 0)
  {
    var x, y := g.hash(a).fp, g.hash(b).fp;
    SingleBucket(g, b);
    PreludeCalls(a, b);
    PreludeReaches(g, a, b);
    SingleBucket(g, a);
    assert seq(4, _ => x) == [x, x, x, x];
    ReachesPut(g, Prelude(a, b), a, 1, [0, y, 0, x], [x, x, x, x]);
  }
}
