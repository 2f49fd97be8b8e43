/** What the hash function of the table does to keys. */
module HashLaws {
  import opened Bits
  import opened Pmem
  import opened HashmapLayout
  import PrimeModulus

  /** The index before the final reduction to the length of the table. */
  function Early(co: Coeffs, key: Word): nat
    requires co.p > 0
  {
    Hash(co, co.p, key)
  }

  lemma ModTwice(x: nat, n: nat)
    requires n > 0
    ensures x % n % n == x % n
  {
    DivUnique(x % n, n, 0, x % n);
  }

  /** The remainder of the early index. */
  lemma HashReduces(co: Coeffs, len: nat, key: Word)
    requires co.p > 0 && len > 0
    ensures Hash(co, len, key) == Early(co, key) % len
  {
    ModTwice(Wrap(co.a * key + co.b), co.p);
  }

  /** Key 0 goes to the second coefficient. */
  lemma HashOfZero(co: Coeffs)
    requires co.p > 0 && 0 <= co.b < WORD_RANGE
    ensures Early(co, 0) == co.b % co.p
  {
    ModTwice(co.b, co.p);
  }

  lemma ModPlus(x: nat, y: nat, n: nat)
    requires n > 0
    ensures (x % n + y) % n == (x + y) % n
  {
    var k := x / n;
    var q, r := (x % n + y) / n, (x % n + y) % n;
    assert x == k * n + x % n && x % n + y == q * n + r;
    assert (k + q) * n == k * n + q * n;
    DivUnique(x + y, n, k + q, r);
  }

  /** The next key goes on by the first coefficient, unless the sum wraps. */
  lemma HashNext(co: Coeffs, key: nat)
    requires co.p > 0 && co.a >= 0 && co.b >= 0 && co.a * (key + 1) + co.b < WORD_RANGE
    ensures Early(co, key + 1) == (Early(co, key) + co.a) % co.p
  {
    var x := co.a * key + co.b;
    assert co.a * (key + 1) + co.b == x + co.a && x >= 0;
    ModTwice(x, co.p);
    ModTwice(x + co.a, co.p);
    ModPlus(x, co.a, co.p);
  }

  lemma WrapSame(x: int, y: int)
    requires (x - y) % WORD_RANGE == 0
    ensures Wrap(x) == Wrap(y)
  {
    var k := (x - y) / WORD_RANGE;
    assert x == y + k * WORD_RANGE;
    DivUnique(x, WORD_RANGE, y / WORD_RANGE + k, y % WORD_RANGE);
  }

  /** Where the sum wraps, only its value modulo 2^64 matters. */
  lemma HashWraps(co: Coeffs, key: Word, co': Coeffs, key': Word, len: nat)
    requires co.p == co'.p > 0 && len > 0
    requires ((co.a * key + co.b) - (co'.a * key' + co'.b)) % WORD_RANGE == 0
    ensures Hash(co, len, key) == Hash(co', len, key')
  {
    WrapSame(co.a * key + co.b, co'.a * key' + co'.b);
  }

  // ----- Collisions

  /** How often the sum wraps. */
  function Wraps(co: Coeffs, key: nat): int {
    (co.a * key + co.b) / WORD_RANGE
  }

  lemma WrapOf(co: Coeffs, key: nat)
    ensures Wrap(co.a * key + co.b) == co.a * key + co.b - Wraps(co, key) * WORD_RANGE
  {
  }

  /** Numbers have the same remainder exactly when it divides their difference. */
  lemma SameRemainder(x: nat, y: nat, n: nat)
    requires n > 0
    ensures x % n == y % n <==> (y - x) % n == 0
  {
    var i, j := x / n, y / n;
    assert x == i * n + x % n && y == j * n + y % n;
    assert (j - i) * n == j * n - i * n;
    if x % n == y % n {
      DivUnique(y - x, n, j - i, 0);
    }
    if (y - x) % n == 0 {
      var k := (y - x) / n;
      assert y == x + k * n;
      assert (i + k) * n == i * n + k * n;
      DivUnique(y, n, i + k, x % n);
    }
  }

  /** Exactly when two keys collide before the final reduction. */
  lemma EarlyCollision(co: Coeffs, k: nat, l: nat)
    requires co.p > 0
    ensures
      Early(co, k) == Early(co, l) <==>
        (co.a * (l - k) - (Wraps(co, l) - Wraps(co, k)) * WORD_RANGE) % co.p == 0
  {
    var x, y := Wrap(co.a * k + co.b), Wrap(co.a * l + co.b);
    WrapOf(co, k);
    WrapOf(co, l);
    ModTwice(x, co.p);
    ModTwice(y, co.p);
    SameRemainder(x, y, co.p);
    assert co.a * (l - k) == co.a * l - co.a * k;
    assert (Wraps(co, l) - Wraps(co, k)) * WORD_RANGE == Wraps(co, l) * WORD_RANGE - Wraps(co, k) * WORD_RANGE;
  }

  /** The modulus is prime, so distinct keys below it never collide before the final reduction when their sums
      wrap equally often, in particular when neither does. */
  lemma NoEarlyCollision(co: Coeffs, k: nat, l: nat)
    requires co.p == HASH_FUNC_COEFF_P && 0 < co.a < co.p && k < l < co.p
    requires Wraps(co, k) == Wraps(co, l)
    ensures Early(co, k) != Early(co, l)
  {
    var d := l - k;
    EarlyCollision(co, k, l);
    if co.a * d % co.p == 0 {
      PrimeModulus.ModulusPrime();
      PrimeModulus.PrimeDivides(PrimeModulus.P, co.a, d);
      DivUnique(co.a, co.p, 0, co.a);
      DivUnique(d, co.p, 0, d);
    }
  }

  /** When one sum wraps more often than the other they can. */
  lemma CollisionAcrossWrap()
    ensures
      var co := Coeffs(890933978, 0, HASH_FUNC_COEFF_P);
      Early(co, 10352475340) == Early(co, 30261757125)
  {
    var co := Coeffs(890933978, 0, HASH_FUNC_COEFF_P);
    EarlyCollision(co, 10352475340, 30261757125);
  }
}
