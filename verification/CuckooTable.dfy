/** The bytes of a cuckoo filter and what the operations do to them, as functions. */
module CuckooTable {
  import opened Bits

  type Key = seq<u8>

  const BUCKET_SIZE: nat := 4
  const KICK_OUTS: nat := 10

  // ----- Geometry

  /** struct IndexFP */
  datatype IndexFP = IndexFP(index: nat, fp: u8)

  /** A table of 2^`power` buckets: the hash of a key gives its first bucket and its fingerprint, and `other`
      leads from either bucket of a fingerprint to the other one. */
  datatype Geometry = Geometry(power: nat, hash: Key -> IndexFP, other: (u8, nat) -> nat) {
    function Size(): nat {
      Pow2(power)
    }

    ghost predicate Paired(f: u8, i: nat) {
      other(f, i) < Size() && other(f, other(f, i)) == i
    }

    ghost predicate Hashed(key: Key) {
      hash(key).index < Size() && hash(key).fp != 0
    }

    /** Indices are in bounds, no fingerprint looks like an empty slot, and `other` is an involution. */
    ghost predicate Lawful() {
      && (forall f: u8, i: nat :: i < Size() ==> Paired(f, i))
      && (forall key: Key :: Hashed(key))
    }

    function First(key: Key): nat {
      hash(key).index
    }

    function Second(key: Key): nat {
      other(hash(key).fp, hash(key).index)
    }
  }

  /** Laws for one key. */
  lemma KeyLaws(g: Geometry, key: Key)
    requires g.Lawful()
    ensures g.First(key) < g.Size() && g.Second(key) < g.Size() && g.hash(key).fp != 0
    ensures g.other(g.hash(key).fp, g.Second(key)) == g.First(key)
  {
    assert g.Hashed(key);
    assert g.Paired(g.hash(key).fp, g.First(key));
  }

  // ----- Buckets

  predicate InTable(s: seq<u8>, b: nat) {
    4 * b + 4 <= |s|
  }

  /** The first slot of a bucket that holds a byte, or -1. */
  function Find(s: seq<u8>, b: nat, f: u8): (k: int)
    requires InTable(s, b)
    ensures -1 <= k < 4
    ensures k >= 0 ==> s[4 * b + k] == f
  {
    if s[4 * b] == f then 0
    else if s[4 * b + 1] == f then 1
    else if s[4 * b + 2] == f then 2
    else if s[4 * b + 3] == f then 3
    else -1
  }

  predicate Has(s: seq<u8>, b: nat, f: u8)
    requires InTable(s, b)
  {
    Find(s, b, f) >= 0
  }

  predicate Full(s: seq<u8>, b: nat)
    requires InTable(s, b)
  {
    !Has(s, b, 0)
  }

  /** The table with the first `from` of a bucket replaced. */
  function Replace(s: seq<u8>, b: nat, from: u8, to: u8): (s': seq<u8>)
    requires InTable(s, b)
    ensures |s'| == |s|
  {
    var k := Find(s, b, from);
    if k < 0 then s else s[4 * b + k := to]
  }

  // ----- Insertion

  /** What chance decides in cf_insert: whether the pointer test of an insertion attempt passes, which of
      the two buckets is chosen for kicking out, and which slot of it each time. */
  datatype Chance = Chance(first: bool, second: bool, coin: bool, slots: seq<nat>, guards: seq<bool>)

  predicate Possible(r: Chance) {
    |r.slots| == KICK_OUTS && |r.guards| == KICK_OUTS
  }

  /** What an attempt leaves: bucket_insert uses the first empty slot. */
  function Attempt(s: seq<u8>, f: u8, b: nat, guard: bool): (s': seq<u8>)
    requires InTable(s, b)
    ensures |s'| == |s|
  {
    if guard then Replace(s, b, 0, f) else s
  }

  /** An attempt is reported as successful when the bucket was full: bucket_insert answers 0 when it stores. */
  predicate Claimed(s: seq<u8>, b: nat, guard: bool)
    requires InTable(s, b)
  {
    guard && Full(s, b)
  }

  lemma ClaimedKeeps(s: seq<u8>, f: u8, b: nat, guard: bool)
    requires InTable(s, b) && Claimed(s, b, guard)
    ensures Attempt(s, f, b, guard) == s
  {
  }

  /** The loop of cf_reinsert from round `k`. */
  function Kick(g: Geometry, s: seq<u8>, f: u8, i: nat, slots: seq<nat>, guards: seq<bool>, k: nat)
    : (r: (seq<u8>, bool))
    requires k <= |slots| == |guards|
    requires |s| == 4 * g.Size() && g.Lawful() && i < g.Size()
    ensures |r.0| == |s|
    decreases |slots| - k
  {
    if k == |slots| then (s, false)
    else
      assert g.Paired(f, i);
      var s' := s[4 * i + slots[k] % BUCKET_SIZE := f];
      var j := g.other(f, i);
      if Claimed(s', j, guards[k]) then (s', true)
      else Kick(g, Attempt(s', f, j, guards[k]), f, j, slots, guards, k + 1)
  }

  lemma KickStep(g: Geometry, s: seq<u8>, f: u8, i: nat, slots: seq<nat>, guards: seq<bool>, k: nat)
    requires k < |slots| == |guards|
    requires |s| == 4 * g.Size() && g.Lawful() && i < g.Size()
    ensures
      var s', j := s[4 * i + slots[k] % BUCKET_SIZE := f], g.other(f, i);
      && j < g.Size()
      && Kick(g, s, f, i, slots, guards, k) ==
           if Claimed(s', j, guards[k]) then (s', true)
           else Kick(g, Attempt(s', f, j, guards[k]), f, j, slots, guards, k + 1)
  {
    assert g.Paired(f, i);
  }

  datatype Inserted = Inserted(table: seq<u8>, ret: int, counted: bool)

  /** cf_insert for a fingerprint and its first bucket: the table, the result and whether `count` went up. */
  function Insert(g: Geometry, s: seq<u8>, f: u8, i: nat, r: Chance): (o: Inserted)
    requires Possible(r) && |s| == 4 * g.Size() && g.Lawful() && i < g.Size()
    ensures |o.table| == |s|
  {
    assert g.Paired(f, i);
    var j := g.other(f, i);
    if Claimed(s, i, r.first) then Inserted(s, 0, true)
    else
      var s1 := Attempt(s, f, i, r.first);
      if Claimed(s1, j, r.second) then Inserted(s1, 0, true)
      else
        var (s2, ok) := Kick(g, Attempt(s1, f, j, r.second), f, if r.coin then i else j, r.slots, r.guards, 0);
        Inserted(s2, if ok then 1 else 0, ok)
  }

  /** The bytes and the bucket that round `k` of the loop starts from, if none before it ended the loop. */
  function Round(g: Geometry, s: seq<u8>, f: u8, i: nat, slots: seq<nat>, guards: seq<bool>, k: nat)
    : (r: (seq<u8>, nat))
    requires k <= |slots| == |guards|
    requires |s| == 4 * g.Size() && g.Lawful() && i < g.Size()
    ensures |r.0| == |s| && r.1 < g.Size()
  {
    if k == 0 then (s, i)
    else
      var (t, b) := Round(g, s, f, i, slots, guards, k - 1);
      assert g.Paired(f, b);
      (Attempt(t[4 * b + slots[k - 1] % BUCKET_SIZE := f], f, g.other(f, b), guards[k - 1]), g.other(f, b))
  }

  /** Round `k` met a full bucket that passed the pointer test. */
  predicate Met(g: Geometry, s: seq<u8>, f: u8, i: nat, slots: seq<nat>, guards: seq<bool>, k: nat)
    requires k < |slots| == |guards|
    requires |s| == 4 * g.Size() && g.Lawful() && i < g.Size()
  {
    var (t, b) := Round(g, s, f, i, slots, guards, k);
    assert g.Paired(f, b);
    guards[k] && Full(t[4 * b + slots[k] % BUCKET_SIZE := f], g.other(f, b))
  }

  /** The loop ends early from round `k` on. */
  predicate Ends(g: Geometry, s: seq<u8>, f: u8, i: nat, slots: seq<nat>, guards: seq<bool>, k: nat)
    requires k <= |slots| == |guards|
    requires |s| == 4 * g.Size() && g.Lawful() && i < g.Size()
  {
    var (t, b) := Round(g, s, f, i, slots, guards, k);
    Kick(g, t, f, b, slots, guards, k).1
  }

  lemma RoundStep(g: Geometry, s: seq<u8>, f: u8, i: nat, slots: seq<nat>, guards: seq<bool>, k: nat)
    requires k < |slots| == |guards|
    requires |s| == 4 * g.Size() && g.Lawful() && i < g.Size()
    ensures
      Ends(g, s, f, i, slots, guards, k) <==>
        Met(g, s, f, i, slots, guards, k) || Ends(g, s, f, i, slots, guards, k + 1)
  {
    var (t, b) := Round(g, s, f, i, slots, guards, k);
    KickStep(g, t, f, b, slots, guards, k);
  }

  /** Some round from `k` on did. */
  predicate AnyMet(g: Geometry, s: seq<u8>, f: u8, i: nat, slots: seq<nat>, guards: seq<bool>, k: nat)
    requires |slots| == |guards|
    requires |s| == 4 * g.Size() && g.Lawful() && i < g.Size()
  {
    exists l :: k <= l < |slots| && Met(g, s, f, i, slots, guards, l)
  }

  lemma AnyMetStep(g: Geometry, s: seq<u8>, f: u8, i: nat, slots: seq<nat>, guards: seq<bool>, k: nat)
    requires k < |slots| == |guards|
    requires |s| == 4 * g.Size() && g.Lawful() && i < g.Size()
    ensures
      AnyMet(g, s, f, i, slots, guards, k) <==>
        Met(g, s, f, i, slots, guards, k) || AnyMet(g, s, f, i, slots, guards, k + 1)
  {
    if AnyMet(g, s, f, i, slots, guards, k) && !Met(g, s, f, i, slots, guards, k) {
      var l :| k <= l < |slots| && Met(g, s, f, i, slots, guards, l);
      assert k + 1 <= l;
    }
  }

  lemma {:induction false} KickMet(g: Geometry, s: seq<u8>, f: u8, i: nat, slots: seq<nat>, guards: seq<bool>, k: nat)
    requires k <= |slots| == |guards|
    requires |s| == 4 * g.Size() && g.Lawful() && i < g.Size()
    ensures Ends(g, s, f, i, slots, guards, k) <==> AnyMet(g, s, f, i, slots, guards, k)
    decreases |slots| - k
  {
    if k < |slots| {
      RoundStep(g, s, f, i, slots, guards, k);
      AnyMetStep(g, s, f, i, slots, guards, k);
      KickMet(g, s, f, i, slots, guards, k + 1);
    }
  }

  /** cf_insert gives 1 exactly when neither attempt was taken for success and one of the ten rounds met a full
      bucket that passed the pointer test; and `count` goes up exactly then and when an attempt was. */
  lemma InsertResult(g: Geometry, s: seq<u8>, f: u8, i: nat, r: Chance)
    requires Possible(r) && |s| == 4 * g.Size() && g.Lawful() && i < g.Size()
    ensures
      var j, s1 := g.other(f, i), Attempt(s, f, i, r.first);
      && InTable(s, j)
      && var early := (r.first && Full(s, i)) || (r.second && Full(s1, j));
        var o, s2, b := Insert(g, s, f, i, r), Attempt(s1, f, j, r.second), if r.coin then i else j;
        var met := exists l :: 0 <= l < 10 && Met(g, s2, f, b, r.slots, r.guards, l);
        && o.ret == (if !early && met then 1 else 0)
        && (o.counted <==> early || met)
  {
    assert g.Paired(f, i);
    var j := g.other(f, i);
    var s2 := Attempt(Attempt(s, f, i, r.first), f, j, r.second);
    KickMet(g, s2, f, if r.coin then i else j, r.slots, r.guards, 0);
  }

  // ----- Lookup and deletion

  /** cf_lookup for a fingerprint and its two buckets. */
  predicate Present(s: seq<u8>, f: u8, i: nat, j: nat)
    requires InTable(s, i) && InTable(s, j)
  {
    Has(s, i, f) || Has(s, j, f)
  }

  datatype Deleted = Deleted(table: seq<u8>, ret: int)

  /** cf_delete. An attempt answers 1 when it found nothing, and then the second bucket is not tried. */
  function Delete(s: seq<u8>, f: u8, i: nat, j: nat): (o: Deleted)
    requires InTable(s, i) && InTable(s, j)
    ensures |o.table| == |s|
  {
    if !Has(s, i, f) then Deleted(s, 1)
    else
      var s1 := Replace(s, i, f, 0);
      if !Has(s1, j, f) then Deleted(s1, 1) else Deleted(Replace(s1, j, f, 0), 0)
  }

  // ----- What an insertion can do to a table

  /** From `s` to `s'` nothing but copies of `f` were written, and only to the buckets `i` and `j`. */
  ghost predicate Writes(s: seq<u8>, s': seq<u8>, f: u8, i: nat, j: nat) {
    && |s'| == |s|
    && forall p | 0 <= p < |s| && s'[p] != s[p] :: s'[p] == f && (p / 4 == i || p / 4 == j)
  }

  lemma WritesTrans(s: seq<u8>, s1: seq<u8>, s2: seq<u8>, f: u8, i: nat, j: nat)
    requires Writes(s, s1, f, i, j) && Writes(s1, s2, f, i, j)
    ensures Writes(s, s2, f, i, j)
  {
  }

  lemma WritesPresent(s: seq<u8>, s': seq<u8>, f: u8, i: nat, j: nat)
    requires InTable(s, i) && InTable(s, j) && Writes(s, s', f, i, j)
    ensures Present(s, f, i, j) ==> Present(s', f, i, j)
  {
    if Has(s, i, f) {
      assert s'[4 * i + Find(s, i, f)] == f;
    } else if Has(s, j, f) {
      assert s'[4 * j + Find(s, j, f)] == f;
    }
  }

  lemma AttemptWrites(s: seq<u8>, f: u8, i: nat, j: nat, b: nat, guard: bool)
    requires InTable(s, b) && (b == i || b == j)
    ensures Writes(s, Attempt(s, f, b, guard), f, i, j)
    ensures guard && !Full(s, b) ==> Has(Attempt(s, f, b, guard), b, f)
  {
    var k := Find(s, b, 0);
    if k >= 0 {
      assert (4 * b + k) / 4 == b;
      assert guard ==> Attempt(s, f, b, guard)[4 * b + k] == f;
    }
  }

  /** Overwriting a slot of the bucket. */
  lemma OverwriteWrites(s: seq<u8>, f: u8, i: nat, j: nat, q: nat)
    requires InTable(s, i) && InTable(s, j) && q < BUCKET_SIZE
    ensures Writes(s, s[4 * i + q := f], f, i, j) && Present(s[4 * i + q := f], f, i, j)
  {
    assert (4 * i + q) / 4 == i;
    assert s[4 * i + q := f][4 * i + q] == f;
  }

  /** The two buckets of a fingerprint trade places in every round. */
  lemma {:induction false} KickWrites(g: Geometry, s: seq<u8>, f: u8, i: nat, j: nat, slots: seq<nat>,
                                      guards: seq<bool>, k: nat)
    requires k <= |slots| == |guards|
    requires |s| == 4 * g.Size() && g.Lawful() && i < g.Size() && j == g.other(f, i) && InTable(s, j)
    ensures Writes(s, Kick(g, s, f, i, slots, guards, k).0, f, i, j)
    ensures k < |slots| ==> Present(Kick(g, s, f, i, slots, guards, k).0, f, i, j)
    decreases |slots| - k
  {
    if k < |slots| {
      KickStep(g, s, f, i, slots, guards, k);
      assert g.Paired(f, i);
      var s1 := s[4 * i + slots[k] % BUCKET_SIZE := f];
      OverwriteWrites(s, f, i, j, slots[k] % BUCKET_SIZE);
      if !Claimed(s1, j, guards[k]) {
        KickRest(g, s, s1, f, i, j, slots, guards, k);
      }
    }
  }

  lemma {:induction false} KickRest(g: Geometry, s: seq<u8>, s1: seq<u8>, f: u8, i: nat, j: nat,
                                    slots: seq<nat>, guards: seq<bool>, k: nat)
    requires k < |slots| == |guards|
    requires |s| == 4 * g.Size() && g.Lawful() && i < g.Size() && j < g.Size()
    requires i == g.other(f, j) && InTable(s, i) && InTable(s, j)
    requires Writes(s, s1, f, i, j) && Present(s1, f, i, j)
    ensures
      var s3 := Kick(g, Attempt(s1, f, j, guards[k]), f, j, slots, guards, k + 1).0;
      Writes(s, s3, f, i, j) && Present(s3, f, i, j)
    decreases |slots| - k, 0
  {
    var s2 := Attempt(s1, f, j, guards[k]);
    AttemptWrites(s1, f, i, j, j, guards[k]);
    KickWrites(g, s2, f, j, i, slots, guards, k + 1);
    var s3 := Kick(g, s2, f, j, slots, guards, k + 1).0;
    WritesTrans(s1, s2, s3, f, i, j);
    WritesTrans(s, s1, s3, f, i, j);
    WritesPresent(s1, s3, f, i, j);
  }

  /** Whatever chance decides, an insertion writes copies of the new fingerprint into the two buckets of its
      key and changes nothing else. */
  lemma InsertWrites(g: Geometry, s: seq<u8>, f: u8, i: nat, r: Chance)
    requires Possible(r) && |s| == 4 * g.Size() && g.Lawful() && i < g.Size()
    ensures Writes(s, Insert(g, s, f, i, r).table, f, i, g.other(f, i))
  {
    assert g.Paired(f, i);
    var j := g.other(f, i);
    var s1 := Attempt(s, f, i, r.first);
    var s2 := Attempt(s1, f, j, r.second);
    AttemptWrites(s, f, i, j, i, r.first);
    AttemptWrites(s1, f, i, j, j, r.second);
    WritesTrans(s, s1, s2, f, i, j);
    var b := if r.coin then i else j;
    KickWrites(g, s2, f, b, if r.coin then j else i, r.slots, r.guards, 0);
    WritesTrans(s, s2, Kick(g, s2, f, b, r.slots, r.guards, 0).0, f, i, j);
  }

  /** The insertion that stores nothing: the first attempt that the pointer test lets through meets a full
      bucket, which is taken for success. */
  predicate Lost(s: seq<u8>, i: nat, j: nat, r: Chance)
    requires InTable(s, i) && InTable(s, j)
  {
    (r.first && Full(s, i)) || (!r.first && r.second && Full(s, j))
  }

  /** A key is found right after its insertion exactly when its fingerprint was there before or the insertion
      was not lost. */
  lemma InsertThenLookup(g: Geometry, s: seq<u8>, f: u8, i: nat, r: Chance)
    requires Possible(r) && |s| == 4 * g.Size() && g.Lawful() && i < g.Size() && f > 0
    ensures
      var j := g.other(f, i);
      && InTable(s, j)
      && (Present(Insert(g, s, f, i, r).table, f, i, j) <==> Present(s, f, i, j) || !Lost(s, i, j, r))
  {
    assert g.Paired(f, i);
    var j := g.other(f, i);
    var s' := Insert(g, s, f, i, r).table;
    InsertWrites(g, s, f, i, r);
    WritesPresent(s, s', f, i, j);
    var s1 := Attempt(s, f, i, r.first);
    var s2 := Attempt(s1, f, j, r.second);
    AttemptWrites(s, f, i, j, i, r.first);
    AttemptWrites(s1, f, i, j, j, r.second);
    KickWrites(g, s2, f, if r.coin then i else j, if r.coin then j else i, r.slots, r.guards, 0);
  }

  // ----- What a deletion does

  function Count(b: bool): nat {
    if b then 1 else 0
  }

  /** How often a fingerprint is stored in a bucket. */
  function Copies(s: seq<u8>, f: u8, b: nat): nat
    requires InTable(s, b)
  {
    Count(s[4 * b] == f) + Count(s[4 * b + 1] == f) + Count(s[4 * b + 2] == f) + Count(s[4 * b + 3] == f)
  }

  /** Removing a copy changes its bucket only. */
  lemma RemoveCopy(s: seq<u8>, f: u8, b: nat, c: nat)
    requires InTable(s, b) && InTable(s, c) && Has(s, b, f) && f != 0
    ensures Copies(Replace(s, b, f, 0), f, c) == if c == b then Copies(s, f, c) - 1 else Copies(s, f, c)
  {
  }

  /** A key is gone after its deletion exactly when the first bucket held at most one copy, and the second
      at most one more, and none unless the first held one; for a key with a single bucket, at most two. */
  lemma DeleteThenLookup(s: seq<u8>, f: u8, i: nat, j: nat)
    requires InTable(s, i) && InTable(s, j) && f != 0
    ensures
      var a, b := Copies(s, f, i), Copies(s, f, j);
      Present(Delete(s, f, i, j).table, f, i, j) <==>
        if i == j then a > 2 else a > 1 || b > (if a == 1 then 1 else 0)
  {
    if Has(s, i, f) {
      var s1 := Replace(s, i, f, 0);
      RemoveCopy(s, f, i, i);
      RemoveCopy(s, f, i, j);
      if Has(s1, j, f) {
        RemoveCopy(s1, f, j, i);
        RemoveCopy(s1, f, j, j);
      }
    }
  }

  /** A deletion only empties slots. */
  lemma DeleteEmpties(s: seq<u8>, f: u8, i: nat, j: nat)
    requires InTable(s, i) && InTable(s, j)
    ensures Writes(s, Delete(s, f, i, j).table, 0, i, j)
  {
  }
}
