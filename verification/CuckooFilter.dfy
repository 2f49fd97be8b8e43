/** The cuckoo filter: its tables, its bytes in place, and its operations. */
module CuckooFilter {
  import opened Bits
  import opened CuckooTable
  import opened CuckooPlacement
  import opened FilterSizing
  import Hash = CuckooHash
  import Fnv
  import HashFp

  // ----- bucket.c

  /** bucket_insert on the four bytes from `base`: 0 when the byte was stored, -1 when the bucket is full. */
  method BucketInsert(a: array<u8>, b: nat, f: u8) returns (ret: int)
    requires 4 * b + 4 <= a.Length
    modifies a
    ensures a[..] == Replace(old(a[..]), b, 0, f)
    ensures ret == if Full(old(a[..]), b) then -1 else 0
  {
    ret := BucketReplace(a, b, 0, f);
  }

  /** bucket_delete: 0 when a copy was removed, -1 when there is none. */
  method BucketDelete(a: array<u8>, b: nat, f: u8) returns (ret: int)
    requires 4 * b + 4 <= a.Length
    modifies a
    ensures a[..] == Replace(old(a[..]), b, f, 0)
    ensures ret == if Has(old(a[..]), b, f) then 0 else -1
  {
    ret := BucketReplace(a, b, f, 0);
  }

  /** The loop that both share: the first byte `from` becomes `to`. */
  method BucketReplace(a: array<u8>, b: nat, from: u8, to: u8) returns (ret: int)
    requires 4 * b + 4 <= a.Length
    modifies a
    ensures a[..] == Replace(old(a[..]), b, from, to)
    ensures ret == if Has(old(a[..]), b, from) then 0 else -1
  {
    var i := 0;
    while i < BUCKET_SIZE
      invariant 0 <= i <= BUCKET_SIZE && a[..] == old(a[..])
      invariant Find(a[..], b, from) < 0 || i <= Find(a[..], b, from)
    {
      if a[4 * b + i] == from {
        a[4 * b + i] := to;
        return 0;
      }
      i := i + 1;
    }
    ret := -1;
  }

  /** bucket_fp_index */
  method BucketFpIndex(a: array<u8>, b: nat, f: u8) returns (ret: int)
    requires 4 * b + 4 <= a.Length
    ensures ret == Find(a[..], b, f)
  {
    var i := 0;
    while i < BUCKET_SIZE
      invariant 0 <= i <= BUCKET_SIZE
      invariant Find(a[..], b, f) < 0 || i <= Find(a[..], b, f)
    {
      if a[4 * b + i] == f {
        return i;
      }
      i := i + 1;
    }
    ret := -1;
  }

  // ----- util.h

  lemma SmallPow2(k: nat)
    requires k <= 30
    ensures Pow2(k) <= 0x4000_0000
  {
    var n := 31;
    assert Pow2(n) == 0x8000_0000 by { Pow2Constants(); }
    Pow2Less(k, n);
  }

  /** The global arrays of util.h. */
  class Tables {
    const altHashes: array<u32>
    const masks: array<u32>

    /** Masks of 31 bits and more are shifts that the language does not define; nothing is known of them. */
    ghost predicate Valid()
      reads masks
    {
      && altHashes.Length == 256 && masks.Length == 65 && altHashes != masks
      && forall k: nat :: k <= 30 ==> masks[k] == Pow2(k) - 1
    }

    ghost function Alts(): (t: Hash.AltTable)
      requires Valid()
      reads masks, altHashes
    {
      altHashes[..]
    }

    /** init */
    constructor ()
      ensures Valid() && fresh(altHashes) && fresh(masks)
      ensures forall f: u8 :: Alts()[f] == Fnv.Fnv32a([f], Fnv.FNV1_32_INIT)
    {
      altHashes := new u32[256];
      masks := new u32[65];
      new;
      FillAltHashes();
      FillMasks();
    }

    method FillAltHashes()
      requires altHashes.Length == 256
      modifies altHashes
      ensures forall f: u8 :: altHashes[f] == Fnv.Fnv32a([f], Fnv.FNV1_32_INIT)
    {
      var i := 0;
      while i < 256
        invariant 0 <= i <= 256
        invariant forall f: u8 :: f < i ==> altHashes[f] == Fnv.Fnv32a([f], Fnv.FNV1_32_INIT)
      {
        var arr := new u8[1](_ => i);
        var h := Fnv.Fnv32aBuf(arr, 1, Fnv.FNV1_32_INIT);
        assert arr[..1] == [i];
        altHashes[i] := h;
        i := i + 1;
      }
    }

    method FillMasks()
      requires masks.Length == 65
      modifies masks
      ensures forall k: nat :: k <= 30 ==> masks[k] == Pow2(k) - 1
    {
      var i := 0;
      while i < 64
        invariant 0 <= i <= 64
        invariant forall k: nat :: k < i && k <= 30 ==> masks[k] == Pow2(k) - 1
      {
        if i < 31 {
          SmallPow2(i);
          masks[i] := Pow2(i) - 1;
        } else {
          masks[i] := *;
        }
        i := i + 1;
      }
    }

    /** index_and_fingerprint */
    method IndexAndFingerprint(raw: Key -> u32, key: Key, power: nat) returns (r: IndexFP)
      requires Valid() && power <= 30
      ensures r == Hash.IndexAndFingerprint(raw, key, power)
    {
      var buf := new u8[|key|](i requires 0 <= i < |key| => key[i]);
      assert buf[..|key|] == key;
      var hash := Fnv.Fnv32aBuf(buf, |key|, Fnv.FNV1_32_INIT);
      r := IndexFP(And(raw(key), masks[power]), HashFp.Mix(hash) % 255 + 1);
    }

    /** alt_index */
    method AltIndex(f: u8, i: nat, power: nat) returns (j: nat)
      requires Valid() && power <= 30
      ensures j == Hash.AltIndex(Alts(), f, i, power)
    {
      j := Xor(And(i, masks[power]), And(altHashes[f], masks[power]));
    }
  }

  // ----- cuckoo_filter.c

  class Filter {
    var count: u64
    const power: nat
    /** Null when the allocation failed. */
    const buckets: array?<u8>
    const tables: Tables
    /** The index of a key before it is masked. */
    const raw: Key -> u32

    ghost const geo: Geometry
    ghost var inserted: set<Key>

    /** The hash functions that the code computes are those of the geometry. */
    ghost predicate SameHash(key: Key) {
      geo.hash(key) == Hash.IndexAndFingerprint(raw, key, power)
    }

    ghost predicate SameOther(f: u8, i: nat)
      requires tables.Valid()
      reads tables.masks, tables.altHashes
    {
      geo.other(f, i) == Hash.AltIndex(tables.Alts(), f, i, power)
    }

    ghost predicate Shaped()
      reads tables.masks, tables.altHashes
    {
      && tables.Valid() && power <= 29
      && geo.power == power && geo.Lawful()
      && (forall key: Key :: SameHash(key))
      && (forall f: u8, i: nat :: SameOther(f, i))
      && (buckets != null ==> buckets.Length == 4 * geo.Size())
    }

    ghost predicate Valid()
      reads this, buckets, tables.altHashes, tables.masks
    {
      Shaped() && (buckets != null ==> Placed(buckets[..], geo, inserted))
    }

    /** cf_new, with the size that it computes. The allocation of the buckets may fail. */
    constructor (capacity: u32, tables: Tables, raw: Key -> u32)
      requires tables.Valid()
      ensures Valid() && inserted == {} && count == 0 && this.tables == tables && this.raw == raw
      ensures Sized(capacity, geo.Size(), power)
      ensures buckets != null ==> fresh(buckets) && forall p | 0 <= p < buckets.Length :: buckets[p] == 0
    {
      var size, pow := TableSize(capacity);
      var a: array?<u8> := null;
      var willing: bool := *;
      if willing {
        a := new u8[4 * size](_ => 0);
      }
      this.count, this.power, this.buckets, this.tables, this.raw := 0, pow, a, tables, raw;
      this.geo, this.inserted := Hash.CodeGeometry(pow, tables.Alts(), raw), {};
      new;
      Hash.CodeLawful(pow, tables.Alts(), raw);
    }

    /** cf_is_init */
    predicate IsInit() {
      buckets != null
    }

    method HashOf(key: Key) returns (r: IndexFP)
      requires Shaped()
      ensures r == geo.hash(key) && r.index < geo.Size()
    {
      assert SameHash(key) && geo.Hashed(key);
      r := tables.IndexAndFingerprint(raw, key, power);
    }

    method Other(f: u8, i: nat) returns (j: nat)
      requires Shaped() && i < geo.Size()
      ensures j == geo.other(f, i) && j < geo.Size()
    {
      assert SameOther(f, i) && geo.Paired(f, i);
      j := tables.AltIndex(f, i, power);
    }

    /** cf_lookup: found exactly when one of the two buckets holds the fingerprint, and only for a key that
        cannot be told from an inserted one. */
    method Lookup(key: Key) returns (ret: int)
      requires Valid()
      ensures !IsInit() ==> ret == -1
      ensures IsInit() ==>
        && geo.First(key) < geo.Size() && geo.Second(key) < geo.Size()
        && ret == if Present(buckets[..], geo.hash(key).fp, geo.First(key), geo.Second(key)) then 1 else 0
      ensures ret == 1 ==> exists k :: k in inserted && Alike(geo, k, key)
    {
      if !IsInit() { return -1; }
      KeyLaws(geo, key);
      var ifp := HashOf(key);
      var k := BucketFpIndex(buckets, ifp.index, ifp.fp);
      if k > -1 {
        FoundAlike(buckets[..], geo, inserted, key, ifp.index);
        return 1;
      }
      var index2 := Other(ifp.fp, ifp.index);
      k := BucketFpIndex(buckets, index2, ifp.fp);
      if k > -1 {
        FoundAlike(buckets[..], geo, inserted, key, index2);
        return 1;
      }
      ret := 0;
    }

    /** cf_insert_internal */
    method InsertInternal(f: u8, idx: nat, guard: bool) returns (ret: int)
      requires buckets != null && 4 * idx + 4 <= buckets.Length
      modifies this`count, buckets
      ensures buckets[..] == Attempt(old(buckets[..]), f, idx, guard)
      ensures ret == if Claimed(old(buckets[..]), idx, guard) then 1 else 0
      ensures count == U64(old(count) + ret)
    {
      if guard {
        var full := BucketInsert(buckets, idx, f);
        if full != 0 {
          count := U64(count + 1);
          return 1;
        }
      }
      ret := 0;
    }

    /** One round of the loop of cf_reinsert on the bytes. The displaced fingerprint is not kept: `fp` stays
        what it was. */
    method KickOnce(fp: u8, i: nat, slot: nat, guard: bool) returns (fp': u8, j: nat, done: int)
      requires Shaped() && buckets != null && i < geo.Size()
      modifies this`count, buckets
      ensures fp' == fp && j == geo.other(fp, i) && j < geo.Size()
      ensures
        var s := old(buckets[..])[4 * i + slot % BUCKET_SIZE := fp];
        && buckets[..] == Attempt(s, fp, j, guard)
        && done == (if Claimed(s, j, guard) then 1 else 0)
        && count == U64(old(count) + done)
    {
      var k := slot % BUCKET_SIZE;
      var oldFp := fp;
      buckets[4 * i + k] := oldFp;
      fp' := oldFp;
      j := Other(fp', i);
      assert buckets[..] == old(buckets[..])[4 * i + slot % BUCKET_SIZE := fp];
      done := InsertInternal(fp', j, guard);
    }

    /** The same round as a step of the function that describes the loop, which is to give `kicked`. */
    method KickRound(fp: u8, i: nat, r: Chance, k: nat, ghost kicked: (seq<u8>, bool))
      returns (fp': u8, j: nat, done: int)
      requires Shaped() && buckets != null && Possible(r) && i < geo.Size() && k < KICK_OUTS
      requires Kick(geo, buckets[..], fp, i, r.slots, r.guards, k) == kicked
      modifies this`count, buckets
      ensures fp' == fp && j < geo.Size()
      ensures done == 0 || (done == 1 && kicked == (buckets[..], true))
      ensures done == 0 ==> Kick(geo, buckets[..], fp, j, r.slots, r.guards, k + 1) == kicked
      ensures count == U64(old(count) + done)
    {
      KickStep(geo, buckets[..], fp, i, r.slots, r.guards, k);
      ghost var s, g, b := buckets[..], r.guards[k], geo.other(fp, i);
      if Claimed(s[4 * i + r.slots[k] % BUCKET_SIZE := fp], b, g) {
        ClaimedKeeps(s[4 * i + r.slots[k] % BUCKET_SIZE := fp], fp, b, g);
      }
      fp', j, done := KickOnce(fp, i, r.slots[k], r.guards[k]);
    }

    /** cf_reinsert */
    method Reinsert(f: u8, idx: nat, r: Chance) returns (ret: int)
      requires Shaped() && buckets != null && Possible(r) && idx < geo.Size()
      modifies this`count, buckets
      ensures
        var kicked := Kick(geo, old(buckets[..]), f, idx, r.slots, r.guards, 0);
        buckets[..] == kicked.0 && ret == if kicked.1 then 1 else 0
      ensures count == U64(old(count) + ret)
    {
      ghost var kicked := Kick(geo, buckets[..], f, idx, r.slots, r.guards, 0);
      var k: nat, i: nat, fp: u8 := 0, idx, f;
      while k < KICK_OUTS
        invariant 0 <= k <= KICK_OUTS && i < geo.Size() && fp == f
        invariant Kick(geo, buckets[..], f, i, r.slots, r.guards, k) == kicked
        invariant count == old(count)
      {
        var done;
        fp, i, done := KickRound(fp, i, r, k, kicked);
        if done != 0 { return 1; }
        k := k + 1;
      }
      ret := 0;
    }

    /** cf_insert on the bytes. */
    method InsertFp(f: u8, i: nat, r: Chance) returns (ret: int)
      requires Shaped() && buckets != null && Possible(r) && i < geo.Size()
      modifies this`count, buckets
      ensures
        var o := CuckooTable.Insert(geo, old(buckets[..]), f, i, r);
        buckets[..] == o.table && ret == o.ret && count == U64(old(count) + if o.counted then 1 else 0)
    {
      var done := InsertInternal(f, i, r.first);
      if done != 0 { return 0; }
      var index2 := Other(f, i);
      done := InsertInternal(f, index2, r.second);
      if done != 0 { return 0; }
      ret := Reinsert(f, if r.coin then i else index2, r);
    }

    /** cf_insert */
    method Insert(key: Key, r: Chance) returns (ret: int)
      requires Valid() && Possible(r)
      modifies this, buckets
      ensures Valid()
      ensures !IsInit() ==> ret == -1 && inserted == old(inserted) && count == old(count)
      ensures IsInit() ==> inserted == old(inserted) + {key} && geo.First(key) < geo.Size()
      ensures IsInit() ==>
        var o := CuckooTable.Insert(geo, old(buckets[..]), geo.hash(key).fp, geo.First(key), r);
        buckets[..] == o.table && ret == o.ret && count == U64(old(count) + if o.counted then 1 else 0)
    {
      if !IsInit() { return -1; }
      ghost var s := buckets[..];
      var ifp := HashOf(key);
      InsertWrites(geo, s, ifp.fp, ifp.index, r);
      PlacedInsert(s, CuckooTable.Insert(geo, s, ifp.fp, ifp.index, r).table, geo, inserted, key);
      ret := InsertFp(ifp.fp, ifp.index, r);
      inserted := inserted + {key};
    }

    /** cf_delete_internal: 1 when there was nothing to delete. */
    method DeleteInternal(f: u8, idx: nat) returns (ret: int)
      requires buckets != null && 4 * idx + 4 <= buckets.Length
      modifies this`count, buckets
      ensures buckets[..] == Replace(old(buckets[..]), idx, f, 0)
      ensures ret == if Has(old(buckets[..]), idx, f) then 0 else 1
      ensures count == if ret == 1 && old(count) > 0 then old(count) - 1 else old(count)
    {
      var missing := BucketDelete(buckets, idx, f);
      if missing != 0 {
        if count > 0 {
          count := count - 1;
        }
        return 1;
      }
      ret := 0;
    }

    /** cf_delete on the bytes. */
    method DeleteFp(f: u8, i: nat) returns (ret: int)
      requires Shaped() && buckets != null && i < geo.Size()
      modifies this`count, buckets
      ensures geo.other(f, i) < geo.Size()
      ensures
        var o := CuckooTable.Delete(old(buckets[..]), f, i, geo.other(f, i));
        buckets[..] == o.table && ret == o.ret
        && count == if ret == 1 && old(count) > 0 then old(count) - 1 else old(count)
    {
      assert geo.Paired(f, i);
      ret := DeleteInternal(f, i);
      if ret != 0 { return 1; }
      var index2 := Other(f, i);
      ret := DeleteInternal(f, index2);
    }

    /** cf_delete */
    method Delete(key: Key) returns (ret: int)
      requires Valid()
      modifies this`count, buckets
      ensures Valid()
      ensures !IsInit() ==> ret == -1 && count == old(count)
      ensures IsInit() ==>
        && geo.First(key) < geo.Size() && geo.Second(key) < geo.Size()
        && var o := CuckooTable.Delete(old(buckets[..]), geo.hash(key).fp, geo.First(key), geo.Second(key));
          buckets[..] == o.table && ret == o.ret
          && count == if ret == 1 && old(count) > 0 then old(count) - 1 else old(count)
    {
      if !IsInit() { return -1; }
      ghost var s := buckets[..];
      KeyLaws(geo, key);
      var ifp := HashOf(key);
      DeleteEmpties(s, ifp.fp, ifp.index, geo.Second(key));
      ghost var after := CuckooTable.Delete(s, ifp.fp, ifp.index, geo.Second(key)).table;
      PlacedDelete(s, after, geo, inserted, ifp.index, geo.Second(key));
      ret := DeleteFp(ifp.fp, ifp.index);
    }
  }
}
