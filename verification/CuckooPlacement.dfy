/** Where the fingerprints of a cuckoo filter can be, and what a successful lookup means. */
module CuckooPlacement {
  import opened Bits
  import opened CuckooTable

  // ----- Placement

  /** The byte `f` in bucket `b` can stand for the key. */
  ghost predicate At(g: Geometry, key: Key, f: u8, b: nat) {
    f == g.hash(key).fp && (b == g.First(key) || b == g.Second(key))
  }

  /** Every nonempty byte is the fingerprint of an inserted key, in one of the two buckets of that key. */
  ghost predicate Placed(s: seq<u8>, g: Geometry, inserted: set<Key>) {
    forall p | 0 <= p < |s| && s[p] != 0 :: exists key :: key in inserted && At(g, key, s[p], p / 4)
  }

  /** Two keys that the filter cannot tell apart: the same fingerprint and the same pair of buckets. */
  ghost predicate Alike(g: Geometry, k: Key, l: Key) {
    g.hash(l).fp == g.hash(k).fp && {g.First(k), g.Second(k)} == {g.First(l), g.Second(l)}
  }

  lemma PlacedInsert(s: seq<u8>, s': seq<u8>, g: Geometry, inserted: set<Key>, key: Key)
    requires Placed(s, g, inserted) && Writes(s, s', g.hash(key).fp, g.First(key), g.Second(key))
    ensures Placed(s', g, inserted + {key})
  {
    forall p | 0 <= p < |s'| && s'[p] != 0
      ensures exists k :: k in inserted + {key} && At(g, k, s'[p], p / 4)
    {
      if s'[p] == s[p] {
        var k :| k in inserted && At(g, k, s[p], p / 4);
      } else {
        assert At(g, key, s'[p], p / 4);
      }
    }
  }

  lemma PlacedDelete(s: seq<u8>, s': seq<u8>, g: Geometry, inserted: set<Key>, i: nat, j: nat)
    requires Placed(s, g, inserted) && Writes(s, s', 0, i, j)
    ensures Placed(s', g, inserted)
  {
  }

  /** Where a fingerprint of a bucket is. */
  lemma SlotOf(s: seq<u8>, b: nat, f: u8) returns (p: nat)
    requires InTable(s, b) && Has(s, b, f)
    ensures p < |s| && s[p] == f && p / 4 == b
  {
    p := 4 * b + Find(s, b, f);
  }

  /** One common bucket makes the pairs of buckets the same. */
  lemma AtAlike(g: Geometry, k: Key, l: Key, f: u8, b: nat)
    requires g.Lawful() && At(g, k, f, b) && At(g, l, f, b)
    ensures Alike(g, k, l)
  {
    KeyLaws(g, k);
    KeyLaws(g, l);
  }

  /** A fingerprint found in a bucket of a key was put there for a key that cannot be told from it. */
  lemma FoundAlike(s: seq<u8>, g: Geometry, inserted: set<Key>, key: Key, b: nat)
    requires g.Lawful() && InTable(s, b) && Placed(s, g, inserted)
    requires Has(s, b, g.hash(key).fp) && (b == g.First(key) || b == g.Second(key))
    ensures exists k :: k in inserted && Alike(g, k, key)
  {
    var f := g.hash(key).fp;
    KeyLaws(g, key);
    var p := SlotOf(s, b, f);
    var k :| k in inserted && At(g, k, s[p], p / 4);
    AtAlike(g, k, key, f, b);
  }

  // ----- Whole runs

  datatype Op = Put(key: Key, chance: Chance) | Take(key: Key)

  predicate Feasible(op: Op) {
    op.Put? ==> Possible(op.chance)
  }

  /** What a call of cf_insert or cf_delete does to the bytes. */
  ghost function Apply(s: seq<u8>, g: Geometry, op: Op): (s': seq<u8>)
    requires |s| == 4 * g.Size() && g.Lawful() && Feasible(op)
    ensures |s'| == |s|
  {
    KeyLaws(g, op.key);
    match op
    case Put(key, r) => Insert(g, s, g.hash(key).fp, g.First(key), r).table
    case Take(key) => Delete(s, g.hash(key).fp, g.First(key), g.Second(key)).table
  }

  /** The bytes after a run on a new filter. */
  ghost function After(g: Geometry, ops: seq<Op>): (s: seq<u8>)
    requires g.Lawful() && forall o | o in ops :: Feasible(o)
    ensures |s| == 4 * g.Size()
  {
    if ops == [] then seq(4 * g.Size(), _ => 0)
    else Apply(After(g, ops[..|ops| - 1]), g, ops[|ops| - 1])
  }

  function Inserted(ops: seq<Op>): set<Key> {
    set o | o in ops && o.Put? :: o.key
  }

  lemma ApplyPlaced(s: seq<u8>, g: Geometry, inserted: set<Key>, op: Op)
    requires |s| == 4 * g.Size() && g.Lawful() && Feasible(op) && Placed(s, g, inserted)
    ensures Placed(Apply(s, g, op), g, if op.Put? then inserted + {op.key} else inserted)
  {
    KeyLaws(g, op.key);
    match op
    case Put(key, r) =>
      InsertWrites(g, s, g.hash(key).fp, g.First(key), r);
      PlacedInsert(s, Apply(s, g, op), g, inserted, key);
    case Take(key) =>
      DeleteEmpties(s, g.hash(key).fp, g.First(key), g.Second(key));
      PlacedDelete(s, Apply(s, g, op), g, inserted, g.First(key), g.Second(key));
  }

  /** After any run, whatever chance decided, every byte belongs to an inserted key. */
  lemma {:induction false} RunPlaced(g: Geometry, ops: seq<Op>)
    requires g.Lawful() && forall o | o in ops :: Feasible(o)
    ensures Placed(After(g, ops), g, Inserted(ops))
    decreases |ops|
  {
    if ops != [] {
      var before, op := ops[..|ops| - 1], ops[|ops| - 1];
      RunPlaced(g, before);
      ApplyPlaced(After(g, before), g, Inserted(before), op);
      assert ops == before + [op];
      assert Inserted(ops) == if op.Put? then Inserted(before) + {op.key} else Inserted(before);
    }
  }

  /** A key that is found after a run cannot be told from a key that was inserted. */
  lemma RunSound(g: Geometry, ops: seq<Op>, key: Key)
    requires g.Lawful() && forall o | o in ops :: Feasible(o)
    ensures
      && g.First(key) < g.Size() && g.Second(key) < g.Size()
      && (Present(After(g, ops), g.hash(key).fp, g.First(key), g.Second(key)) ==>
            exists k :: k in Inserted(ops) && Alike(g, k, key))
  {
    var f, s := g.hash(key).fp, After(g, ops);
    KeyLaws(g, key);
    RunPlaced(g, ops);
    if Has(s, g.First(key), f) {
      FoundAlike(s, g, Inserted(ops), key, g.First(key));
    } else if Has(s, g.Second(key), f) {
      FoundAlike(s, g, Inserted(ops), key, g.Second(key));
    }
  }
}
