/** The persistent layout of the transactional hash map, its representation invariant and the finite map
    it stands for. */
module HashmapLayout {
  import opened Pmem

  const HASH_FUNC_COEFF_P: int := 32212254719
  const INIT_BUCKETS_NUM: nat := 10
  const MIN_HASHSET_THRESHOLD: nat := 5
  const MAX_HASHSET_THRESHOLD: nat := 10

  // ----- Objects: struct hashmap_tx, struct buckets, struct entry

  const HASHMAP_TYPE: Layout := Layout(1004, 6, 48, 0)
  const HASHMAP: Obj := HASHMAP_TYPE.Object(48)
  const BUCKETS_TYPE: Layout := Layout(1005, 1, 8, 16)
  const ENTRY_TYPE: Layout := Layout(1006, 3, 40, 0)
  const ENTRY: Obj := ENTRY_TYPE.Object(40)

  function Buckets(n: nat): Obj {
    Obj(1005, n + 1)
  }

  /** `sizeof(struct buckets) + n * sizeof(TOID(struct entry))` in 64-bit arithmetic. */
  function BucketsBytes(n: nat): nat {
    Wrap(8 + n * 16)
  }

  /** How many buckets there is room for in an array that was asked to have `n`. */
  function Room(n: nat): nat {
    n % 0x1000_0000_0000_0000
  }

  lemma RoomOfBytes(n: nat)
    ensures BucketsBytes(n) == 8 + Room(n) * 16
    ensures BUCKETS_TYPE.Object(BucketsBytes(n)) == Buckets(Room(n))
  {
    var q := n / 0x1000_0000_0000_0000;
    assert 8 + n * 16 == 8 + Room(n) * 16 + q * WORD_RANGE;
    assert Wrap(8 + Room(n) * 16 + q * WORD_RANGE) == Wrap(8 + Room(n) * 16);
  }

  /** A length that is safe to ask for: its byte size does not wrap around, or wraps to a size that cannot
      be allocated either. */
  predicate Fits(n: nat) {
    n < 0x1000_0000_0000_0000 || BucketsBytes(n) > MAX_ALLOC_SIZE
  }

  /** The least unsafe length: its array is allocated with 8 bytes, which is no bucket at all. */
  lemma UnfitExample()
    ensures !Fits(0x1000_0000_0000_0000) && BucketsBytes(0x1000_0000_0000_0000) == 8 && Room(0x1000_0000_0000_0000) == 0
  {
  }

  function SeedLoc(m: Oid): Loc { Loc(m, 0) }
  function HashALoc(m: Oid): Loc { Loc(m, 1) }
  function HashBLoc(m: Oid): Loc { Loc(m, 2) }
  function HashPLoc(m: Oid): Loc { Loc(m, 3) }
  function CountLoc(m: Oid): Loc { Loc(m, 4) }
  function TableLoc(m: Oid): Loc { Loc(m, 5) }

  function NBucketsLoc(t: Oid): Loc { Loc(t, 0) }
  function BucketLoc(t: Oid, i: nat): Loc { Loc(t, i + 1) }

  function KeyLoc(e: Oid): Loc { Loc(e, 0) }
  function ValueLoc(e: Oid): Loc { Loc(e, 1) }
  function NextLoc(e: Oid): Loc { Loc(e, 2) }

  // ----- Hashing

  datatype Coeffs = Coeffs(a: Word, b: Word, p: Word)

  function CoeffsOf(h: Heap, hm: Oid): Coeffs {
    Coeffs(h.At(HashALoc(hm)), h.At(HashBLoc(hm)), h.At(HashPLoc(hm)))
  }

  /** The sum is taken in 64-bit arithmetic, so it wraps. */
  function Hash(co: Coeffs, len: nat, key: Word): (i: nat)
    requires co.p > 0 && len > 0
    ensures i < len
  {
    Wrap(co.a * key + co.b) % co.p % len
  }

  // ----- Shape

  function Nth(c: seq<Oid>, j: nat): Oid {
    if j < |c| then c[j] else OID_NULL
  }

  /** An entry whose key belongs in bucket `i` of `n`. */
  ghost predicate HashedTo(h: Heap, co: Coeffs, n: nat, i: nat, e: Oid)
    requires co.p > 0 && n > 0
  {
    e in h.objs && h.objs[e] == ENTRY && Hash(co, n, h.At(KeyLoc(e))) == i
  }

  /** Element `j` of the list is such an entry, and its link leads to the element after it. */
  ghost predicate EntryAt(h: Heap, co: Coeffs, n: nat, i: nat, c: seq<Oid>, j: nat)
    requires co.p > 0 && n > 0 && j < |c|
  {
    HashedTo(h, co, n, i, c[j]) && h.At(NextLoc(c[j])) == Nth(c, j + 1)
  }

  ghost predicate Distinct(c: seq<Oid>) {
    forall j, k | 0 <= j < k < |c| :: c[j] != c[k]
  }

  /** Bucket `i` of the table heads the null-terminated list `c`, without repetitions. */
  ghost predicate Chain(h: Heap, co: Coeffs, t: Oid, n: nat, i: nat, c: seq<Oid>)
    requires co.p > 0 && n > 0
  {
    && h.At(BucketLoc(t, i)) == Nth(c, 0)
    && (forall j | 0 <= j < |c| :: EntryAt(h, co, n, i, c, j))
    && Distinct(c)
  }

  /** The array `t` says that it has as many buckets as there are chains, and they head these chains. */
  ghost predicate Heads(h: Heap, co: Coeffs, t: Oid, chains: seq<seq<Oid>>) {
    && co.p > 0 && |chains| > 0
    && h.At(NBucketsLoc(t)) == |chains|
    && forall i | 0 <= i < |chains| :: Chain(h, co, t, |chains|, i, chains[i])
  }

  /** It also has the room for them. */
  ghost predicate TableShape(h: Heap, co: Coeffs, t: Oid, chains: seq<seq<Oid>>) {
    && Heads(h, co, t, chains)
    && t in h.objs && h.objs[t] == Buckets(|chains|)
  }

  /** All entries on the chains. */
  ghost function Entries(chains: seq<seq<Oid>>): set<Oid> {
    set i, e | 0 <= i < |chains| && e in chains[i] :: e
  }

  ghost predicate KeysUnique(h: Heap, es: set<Oid>) {
    forall e, f | e in es && f in es && h.At(KeyLoc(e)) == h.At(KeyLoc(f)) :: e == f
  }

  ghost predicate Shape(h: Heap, hm: Oid, chains: seq<seq<Oid>>) {
    && h.Ok()
    && hm in h.objs && h.objs[hm] == HASHMAP
    && h.At(HashPLoc(hm)) == HASH_FUNC_COEFF_P
    && TableShape(h, CoeffsOf(h, hm), h.At(TableLoc(hm)), chains)
    && 8 + |chains| * 16 <= MAX_ALLOC_SIZE
    && KeysUnique(h, Entries(chains))
    && h.At(CountLoc(hm)) == |Entries(chains)|
  }

  /** The chains of the table, whenever it has any; `ShapeUnique` shows that there is no choice in this. */
  ghost function Chains(h: Heap, hm: Oid): seq<seq<Oid>> {
    if chains :| Shape(h, hm, chains) then chains else []
  }

  /** The table invariant. */
  ghost predicate Wf(h: Heap, hm: Oid) {
    Shape(h, hm, Chains(h, hm))
  }

  // ----- Meaning

  ghost function Pairs(h: Heap, es: set<Oid>): map<Word, Word>
    requires KeysUnique(h, es)
  {
    map e | e in es :: h.At(KeyLoc(e)) := h.At(ValueLoc(e))
  }

  /** The finite map a table stands for. */
  ghost function Contents(h: Heap, hm: Oid): map<Word, Word>
    requires Wf(h, hm)
  {
    Pairs(h, Entries(Chains(h, hm)))
  }

  /** The objects a table owns. */
  ghost function Footprint(h: Heap, hm: Oid): set<Oid>
    requires Wf(h, hm)
  {
    {hm, h.At(TableLoc(hm))} + Entries(Chains(h, hm))
  }

  /** Everything in the pool that is not the table's: allocated objects and what they hold. */
  ghost function Rest(h: Heap, hm: Oid): Heap
    requires Wf(h, hm)
  {
    h.Without(Footprint(h, hm))
  }

  function NBuckets(h: Heap, hm: Oid): Word {
    h.At(NBucketsLoc(h.At(TableLoc(hm))))
  }

  // ----- The heap determines the chains

  lemma ChainEnd(h: Heap, co: Coeffs, t: Oid, n: nat, i: nat, c: seq<Oid>, j: nat)
    requires h.Ok() && co.p > 0 && n > 0 && Chain(h, co, t, n, i, c)
    ensures Nth(c, j) == OID_NULL <==> |c| <= j
  {
    if j < |c| {
      assert EntryAt(h, co, n, i, c, j);
    }
  }

  lemma {:induction false} ChainTail(h: Heap, co: Coeffs, t: Oid, n: nat, i: nat, c: seq<Oid>, d: seq<Oid>, j: nat)
    requires h.Ok() && co.p > 0 && n > 0
    requires Chain(h, co, t, n, i, c) && Chain(h, co, t, n, i, d)
    requires j <= |c| && j <= |d| && c[..j] == d[..j] && Nth(c, j) == Nth(d, j)
    ensures c == d
    decreases |c| - j
  {
    ChainEnd(h, co, t, n, i, c, j);
    ChainEnd(h, co, t, n, i, d, j);
    if j < |c| {
      assert EntryAt(h, co, n, i, c, j);
      assert EntryAt(h, co, n, i, d, j);
      assert c[..j + 1] == c[..j] + [c[j]] && d[..j + 1] == d[..j] + [d[j]];
      ChainTail(h, co, t, n, i, c, d, j + 1);
    }
  }

  /** The chains, and with them the contents, are a function of the heap. */
  lemma {:induction false} ShapeUnique(h: Heap, hm: Oid, chains: seq<seq<Oid>>)
    requires Shape(h, hm, chains)
    ensures Wf(h, hm) && Chains(h, hm) == chains
  {
    var others := Chains(h, hm);
    var co, t := CoeffsOf(h, hm), h.At(TableLoc(hm));
    forall i | 0 <= i < |chains|
      ensures others[i] == chains[i]
    {
      ChainTail(h, co, t, |chains|, i, others[i], chains[i], 0);
    }
  }

  // ----- Frames

  ghost predicate SameEntry(h: Heap, h': Heap, e: Oid) {
    && e in h'.objs && h'.objs[e] == ENTRY
    && h'.At(KeyLoc(e)) == h.At(KeyLoc(e))
    && h'.At(NextLoc(e)) == h.At(NextLoc(e))
  }

  lemma ChainFrame(h: Heap, h': Heap, co: Coeffs, t: Oid, n: nat, i: nat, c: seq<Oid>)
    requires co.p > 0 && n > 0
    requires Chain(h, co, t, n, i, c)
    requires h'.At(BucketLoc(t, i)) == h.At(BucketLoc(t, i))
    requires forall e :: e in c ==> SameEntry(h, h', e)
    ensures Chain(h', co, t, n, i, c)
  {
    forall j | 0 <= j < |c|
      ensures EntryAt(h', co, n, i, c, j)
    {
      assert EntryAt(h, co, n, i, c, j);
      assert SameEntry(h, h', c[j]);
    }
  }

  /** A bucket that gets a new first entry. */
  lemma ChainPush(h: Heap, h': Heap, co: Coeffs, t: Oid, n: nat, i: nat, c: seq<Oid>, e: Oid)
    requires co.p > 0 && n > 0
    requires Chain(h, co, t, n, i, c)
    requires e !in c && HashedTo(h', co, n, i, e) && h'.At(NextLoc(e)) == h.At(BucketLoc(t, i))
    requires h'.At(BucketLoc(t, i)) == e
    requires forall f :: f in c ==> SameEntry(h, h', f)
    ensures Chain(h', co, t, n, i, [e] + c)
  {
    var d := [e] + c;
    forall j | 0 <= j < |d|
      ensures EntryAt(h', co, n, i, d, j)
    {
      if j > 0 {
        assert EntryAt(h, co, n, i, c, j - 1);
        assert SameEntry(h, h', c[j - 1]);
      }
    }
  }

  /** A bucket that loses its entry number `k`: the link before it now skips it. */
  lemma ChainUnlink(h: Heap, h': Heap, co: Coeffs, t: Oid, n: nat, i: nat, c: seq<Oid>, k: nat)
    requires co.p > 0 && n > 0
    requires Chain(h, co, t, n, i, c) && k < |c|
    requires h'.At(BucketLoc(t, i)) == if k == 0 then h.At(NextLoc(c[0])) else h.At(BucketLoc(t, i))
    requires forall j | 0 <= j < |c| && j != k && j + 1 != k :: SameEntry(h, h', c[j])
    requires k > 0 ==> HashedTo(h', co, n, i, c[k - 1]) && h'.At(NextLoc(c[k - 1])) == h.At(NextLoc(c[k]))
    ensures Chain(h', co, t, n, i, c[..k] + c[k + 1..])
  {
    var d := c[..k] + c[k + 1..];
    assert EntryAt(h, co, n, i, c, k);
    forall j | 0 <= j < |d|
      ensures EntryAt(h', co, n, i, d, j)
    {
      var was := if j < k then j else j + 1;
      assert d[j] == c[was];
      assert EntryAt(h, co, n, i, c, was);
      if j + 1 != k {
        assert SameEntry(h, h', c[was]);
        assert Nth(d, j + 1) == Nth(c, was + 1);
      } else {
        assert Nth(d, j + 1) == Nth(c, k + 1);
      }
    }
  }

  // ----- Sets of entries

  lemma EntriesPush(chains: seq<seq<Oid>>, i: nat, e: Oid)
    requires i < |chains|
    ensures Entries(chains[i := [e] + chains[i]]) == Entries(chains) + {e}
  {
    var after := chains[i := [e] + chains[i]];
    assert e in after[i];
    forall f | f in Entries(chains)
      ensures f in Entries(after)
    {
      var k :| 0 <= k < |chains| && f in chains[k];
      assert f in after[k];
    }
  }

  lemma EntriesUnlink(chains: seq<seq<Oid>>, i: nat, k: nat)
    requires i < |chains| && k < |chains[i]|
    requires Distinct(chains[i])
    requires forall j | 0 <= j < |chains| && j != i :: chains[i][k] !in chains[j]
    ensures Entries(chains[i := chains[i][..k] + chains[i][k + 1..]]) == Entries(chains) - {chains[i][k]}
  {
    var c := chains[i];
    var d := c[..k] + c[k + 1..];
    var after := chains[i := d];
    assert forall f :: f in d ==> f in c && f != c[k];
    forall f | f in Entries(chains) && f != c[k]
      ensures f in Entries(after)
    {
      var j :| 0 <= j < |chains| && f in chains[j];
      if j == i {
        var l :| 0 <= l < |c| && c[l] == f;
        assert f == d[if l < k then l else l - 1];
      }
      assert f in after[j];
    }
  }

  /** On one table, the bucket of an entry is the hash of its key. */
  lemma EntryBucket(h: Heap, co: Coeffs, t: Oid, chains: seq<seq<Oid>>, e: Oid)
    requires Heads(h, co, t, chains) && e in Entries(chains)
    ensures e in h.objs && h.objs[e] == ENTRY
    ensures e in chains[Hash(co, |chains|, h.At(KeyLoc(e)))]
    ensures forall i | 0 <= i < |chains| && e in chains[i] :: i == Hash(co, |chains|, h.At(KeyLoc(e)))
  {
    forall i | 0 <= i < |chains| && e in chains[i]
      ensures i == Hash(co, |chains|, h.At(KeyLoc(e))) && e in h.objs && h.objs[e] == ENTRY
    {
      var j :| 0 <= j < |chains[i]| && chains[i][j] == e;
      assert Chain(h, co, t, |chains|, i, chains[i]);
      assert EntryAt(h, co, |chains|, i, chains[i], j);
    }
  }
}
