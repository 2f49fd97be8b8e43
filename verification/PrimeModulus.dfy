/** HASH_FUNC_COEFF_P is a prime number. The proof follows Pocklington: the order of 2 modulo a divisor divides
    P - 1 = 14 * 41057 * 56041, but is a multiple of both large factors, and so is too large for a divisor up
    to the square root of P. */
module PrimeModulus {
  import opened Bits

  const P: nat := 32212254719
  const Q: nat := 41057
  const R: nat := 56041

  // ----- Congruences

  lemma ModOf(x: int, n: int, k: int, r: int)
    requires n > 0 && 0 <= r < n && x == k * n + r
    ensures x % n == r
  {
    DivUnique(x, n, k, r);
  }

  /** A factor can be replaced by its remainder. */
  lemma ModMulLeft(x: nat, y: nat, n: nat)
    requires n > 0
    ensures x * y % n == (x % n) * y % n
  {
    var i, c := x / n, (x % n) * y;
    assert x == i * n + x % n;
    assert x * y == (i * n) * y + c;
    assert (i * n) * y == (i * y) * n;
    assert (i * y + c / n) * n == (i * y) * n + c / n * n;
    ModOf(x * y, n, i * y + c / n, c % n);
  }

  lemma ModMulSame(x: nat, y: nat, z: nat, n: nat)
    requires n > 0 && x % n == y % n
    ensures x * z % n == y * z % n
  {
    ModMulLeft(x, z, n);
    ModMulLeft(y, z, n);
  }

  lemma ModMul(x: nat, y: nat, n: nat)
    requires n > 0
    ensures x * y % n == (x % n) * (y % n) % n
  {
    var a, b := x % n, y % n;
    ModMulLeft(x, y, n);
    ModMulLeft(y, a, n);
    assert y * a == a * y && b * a == a * b;
  }

  /** A divisor of a divisor. */
  lemma ModDivisor(x: nat, n: nat, d: nat)
    requires d > 0 && n > 0 && n % d == 0
    ensures x % n % d == x % d
  {
    var k, j, r := x / n, n / d, x % n;
    assert x == k * (j * d) + r;
    assert k * (j * d) == (k * j) * d;
    assert r == r / d * d + r % d;
    assert (k * j + r / d) * d == (k * j) * d + r / d * d;
    ModOf(x, d, k * j + r / d, r % d);
  }

  /** The remainder once more, by subtraction. */
  function Rem(x: nat, n: nat): (r: nat)
    requires n > 0
    ensures r < n
  {
    if x < n then x else Rem(x - n, n)
  }

  lemma {:induction false} RemIsMod(x: nat, n: nat)
    requires n > 0
    ensures Rem(x, n) == x % n
  {
    if x >= n {
      RemIsMod(x - n, n);
      ModOf(x, n, (x - n) / n + 1, (x - n) % n);
    } else {
      ModOf(x, n, 0, x);
    }
  }

  lemma RemMulSame(x: nat, y: nat, z: nat, n: nat)
    requires n > 0 && Rem(x, n) == Rem(y, n)
    ensures Rem(x * z, n) == Rem(y * z, n)
  {
    RemIsMod(x, n);
    RemIsMod(y, n);
    ModMulSame(x, y, z, n);
    RemIsMod(x * z, n);
    RemIsMod(y * z, n);
  }

  lemma OneOfDivisor(x: nat, n: nat, d: nat)
    requires 1 < d <= n && n % d == 0 && x % n == 1
    ensures x % d == 1
  {
    ModDivisor(x, n, d);
    ModOf(1, d, 0, 1);
  }

  // ----- Powers

  function Pow(g: nat, e: nat): nat {
    if e == 0 then 1 else g * Pow(g, e - 1)
  }

  lemma {:induction false} PowAdd(g: nat, i: nat, j: nat)
    ensures Pow(g, i + j) == Pow(g, i) * Pow(g, j)
  {
    if i > 0 {
      PowAdd(g, i - 1, j);
      MulAssoc(g, Pow(g, i - 1), Pow(g, j));
    }
  }

  /** The exponents at which the powers of a base come back to one. */
  ghost predicate One(g: nat, n: nat, e: nat)
    requires n > 0
  {
    Residue(g, n, e) == 1
  }

  function Residue(g: nat, n: nat, i: nat): nat
    requires n > 0
  {
    Rem(Pow(g, i), n)
  }

  lemma PowAddSame(g: nat, n: nat, i: nat, j: nat, k: nat)
    requires n > 0 && Residue(g, n, i) == Residue(g, n, j)
    ensures Residue(g, n, i + k) == Residue(g, n, j + k)
  {
    PowAdd(g, i, k);
    PowAdd(g, j, k);
    RemMulSame(Pow(g, i), Pow(g, j), Pow(g, k), n);
  }

  lemma OneAdd(g: nat, n: nat, i: nat, j: nat)
    requires n > 1 && One(g, n, i)
    ensures Residue(g, n, i + j) == Residue(g, n, j)
  {
    assert Residue(g, n, 0) == 1;
    PowAddSame(g, n, i, 0, j);
  }

  /** The order: the least positive exponent. */
  ghost predicate Order(g: nat, n: nat, d: nat)
    requires n > 0
  {
    d > 0 && One(g, n, d) && forall i: nat | 0 < i < d :: !One(g, n, i)
  }

  lemma {:induction false} OrderExists(g: nat, n: nat, e: nat) returns (d: nat)
    requires n > 0 && e > 0 && One(g, n, e)
    ensures Order(g, n, d)
    decreases e
  {
    if i: nat :| 0 < i < e && One(g, n, i) {
      d := OrderExists(g, n, i);
    } else {
      d := e;
    }
  }

  /** The order divides every such exponent. */
  lemma {:induction false} OrderDivides(g: nat, n: nat, d: nat, e: nat)
    requires n > 1 && Order(g, n, d) && One(g, n, e)
    ensures e % d == 0
    decreases e
  {
    if e >= d {
      OneAdd(g, n, d, e - d);
      OrderDivides(g, n, d, e - d);
      ModOf(e, d, (e - d) / d + 1, 0);
    }
  }

  lemma {:induction false} OneMultiple(g: nat, n: nat, d: nat, k: nat)
    requires n > 1 && One(g, n, d)
    ensures d * k >= 0 && One(g, n, d * k)
    decreases k
  {
    if k > 0 {
      OneMultiple(g, n, d, k - 1);
      OneAdd(g, n, d, d * (k - 1));
      assert d + d * (k - 1) == d * k;
    }
  }

  lemma OneBetween(g: nat, n: nat, d: nat, i: nat, j: nat)
    requires n > 1 && One(g, n, d) && i < j < d && Residue(g, n, i) == Residue(g, n, j)
    ensures One(g, n, j - i)
  {
    PowAddSame(g, n, i, j, d - i);
    assert j + (d - i) == d + (j - i);
    OneAdd(g, n, d, j - i);
  }

  /** Below the order no power is zero and no two are the same. */
  lemma PowersDiffer(g: nat, n: nat, d: nat, i: nat, j: nat)
    requires n > 1 && Order(g, n, d) && i < j < d
    ensures Residue(g, n, i) != Residue(g, n, j)
  {
    if Residue(g, n, i) == Residue(g, n, j) {
      OneBetween(g, n, d, i, j);
    }
  }

  lemma PowerNotZero(g: nat, n: nat, d: nat, i: nat)
    requires n > 1 && Order(g, n, d) && i < d
    ensures Residue(g, n, i) != 0
  {
    if Residue(g, n, i) == 0 {
      PowAdd(g, i, d - i);
      RemMulSame(Pow(g, i), 0, Pow(g, d - i), n);
    }
  }

  ghost function Residues(g: nat, n: nat, k: nat): set<nat>
    requires n > 0
  {
    set i: nat | i < k :: Residue(g, n, i)
  }

  lemma {:induction false} ResiduesCard(g: nat, n: nat, d: nat, k: nat)
    requires n > 1 && Order(g, n, d) && k <= d
    ensures |Residues(g, n, k)| == k
  {
    if k == 0 {
      assert Residues(g, n, 0) == {};
    } else {
      ResiduesCard(g, n, d, k - 1);
      assert Residues(g, n, k) == Residues(g, n, k - 1) + {Residue(g, n, k - 1)};
      forall i: nat | i < k - 1
        ensures Residue(g, n, i) != Residue(g, n, k - 1)
      {
        PowersDiffer(g, n, d, i, k - 1);
      }
    }
  }

  /** There are no more powers than residues other than zero. */
  lemma OrderBelow(g: nat, n: nat, d: nat)
    requires n > 1 && Order(g, n, d)
    ensures d < n
  {
    ResiduesCard(g, n, d, d);
    forall x | x in Residues(g, n, d)
      ensures 0 < x < n
    {
      var i: nat :| i < d && x == Residue(g, n, i);
      PowerNotZero(g, n, d, i);
    }
    CardBelow(Residues(g, n, d), n);
  }

  // ----- Primes

  ghost predicate Prime(n: nat) {
    n > 1 && forall d: nat | 1 < d < n :: n % d != 0
  }

  ghost predicate Divides(n: nat, x: nat)
    requires n > 0
  {
    x % n == 0
  }

  lemma DividesMore(n: nat, x: nat, k: int)
    requires n > 0 && Divides(n, x) && x + k * n >= 0
    ensures Divides(n, x + k * n)
  {
    assert x == x / n * n;
    assert (x / n + k) * n == x / n * n + k * n;
    ModOf(x + k * n, n, x / n + k, 0);
  }

  lemma DividesProduct(n: nat, x: nat, y: nat)
    requires n > 0 && Divides(n, x)
    ensures Divides(n, x * y)
  {
    ModMulSame(x, 0, y, n);
  }

  /** The least multiplier that makes `y` divisible by a prime is 1 or the prime. */
  lemma {:induction false} Euclid(n: nat, x: nat, y: nat)
    requires Prime(n) && Divides(n, x * y) && 0 < x < n
    ensures Divides(n, y)
    decreases x
  {
    if x > 1 {
      var q, r := n / x, n % x;
      assert n == q * x + r;
      assert r * y == n * y - q * (x * y) by {
        assert (q * x + r) * y == q * x * y + r * y;
        MulAssoc(q, x, y);
      }
      DividesProduct(n, x * y, q);
      var a, b := n * y, (x * y) * q;
      assert r * y >= 0 && b == q * (x * y);
      assert a == r * y + b;
      assert b == b / n * n;
      assert r * y == 0 + (y - b / n) * n by {
        assert (y - b / n) * n == y * n - b / n * n;
      }
      DividesMore(n, 0, y - b / n);
      Euclid(n, r, y);
    }
  }

  /** A prime divides a product only if it divides a factor. */
  lemma PrimeDivides(n: nat, x: nat, y: nat)
    requires Prime(n) && Divides(n, x * y)
    ensures Divides(n, x) || Divides(n, y)
  {
    var r := x % n;
    ModMulSame(x, r, y, n);
    if r > 0 {
      Euclid(n, r, y);
    }
  }

  predicate Undivided(n: nat, lo: nat, hi: nat)
    requires 1 < lo
    decreases hi - lo
  {
    lo >= hi || (n % lo != 0 && Undivided(n, lo + 1, hi))
  }

  lemma {:induction false} UndividedAt(n: nat, lo: nat, hi: nat, d: nat)
    requires 1 < lo <= d < hi && Undivided(n, lo, hi)
    ensures n % d != 0
    decreases hi - lo
  {
    if lo < d {
      UndividedAt(n, lo + 1, hi, d);
    }
  }

  /** It is enough to look for divisors up to the square root. */
  lemma PrimeByRoot(n: nat, s: nat)
    requires 1 < s < n < s * s && forall d: nat | 1 < d < s :: n % d != 0
    ensures Prime(n)
  {
    forall d: nat | 1 < d < n
      ensures n % d != 0
    {
      if n % d == 0 {
        var e := n / d;
        assert n == e * d;
        if d >= s && e >= s {
          MulMonotone(e, d, s);
        } else if e < s {
          Cofactor(n, d, e);
        }
      }
    }
  }

  lemma MulMonotone(e: nat, d: nat, s: nat)
    requires d >= s && e >= s
    ensures e * d >= s * s
  {
    assert e * d >= e * s >= s * s;
  }

  lemma Cofactor(n: nat, d: nat, e: nat)
    requires n == e * d && 1 < d < n
    ensures 1 < e && n % e == 0
  {
    assert e != 0 && e != 1;
    ModOf(n, e, d, 0);
  }

  lemma UndividedQ0(d: nat)
    requires 2 <= d < 110
    ensures Q % d != 0
  {
    assert Undivided(41057, 2, 14);
    assert Undivided(41057, 14, 26);
    assert Undivided(41057, 26, 38);
    assert Undivided(41057, 38, 50);
    assert Undivided(41057, 50, 62);
    assert Undivided(41057, 62, 74);
    assert Undivided(41057, 74, 86);
    assert Undivided(41057, 86, 98);
    assert Undivided(41057, 98, 110);
    if d < 14 {
      UndividedAt(41057, 2, 14, d);
    } else if d < 26 {
      UndividedAt(41057, 14, 26, d);
    } else if d < 38 {
      UndividedAt(41057, 26, 38, d);
    } else if d < 50 {
      UndividedAt(41057, 38, 50, d);
    } else if d < 62 {
      UndividedAt(41057, 50, 62, d);
    } else if d < 74 {
      UndividedAt(41057, 62, 74, d);
    } else if d < 86 {
      UndividedAt(41057, 74, 86, d);
    } else if d < 98 {
      UndividedAt(41057, 86, 98, d);
    } else {
      UndividedAt(41057, 98, 110, d);
    }
  }

  lemma UndividedQ1(d: nat)
    requires 110 <= d < 204
    ensures Q % d != 0
  {
    assert Undivided(41057, 110, 122);
    assert Undivided(41057, 122, 134);
    assert Undivided(41057, 134, 146);
    assert Undivided(41057, 146, 158);
    assert Undivided(41057, 158, 170);
    assert Undivided(41057, 170, 182);
    assert Undivided(41057, 182, 194);
    assert Undivided(41057, 194, 204);
    if d < 122 {
      UndividedAt(41057, 110, 122, d);
    } else if d < 134 {
      UndividedAt(41057, 122, 134, d);
    } else if d < 146 {
      UndividedAt(41057, 134, 146, d);
    } else if d < 158 {
      UndividedAt(41057, 146, 158, d);
    } else if d < 170 {
      UndividedAt(41057, 158, 170, d);
    } else if d < 182 {
      UndividedAt(41057, 170, 182, d);
    } else if d < 194 {
      UndividedAt(41057, 182, 194, d);
    } else {
      UndividedAt(41057, 194, 204, d);
    }
  }

  lemma PrimeQ()
    ensures Prime(Q)
  {
    forall d: nat | 1 < d < 204
      ensures Q % d != 0
    {
      if d < 110 { UndividedQ0(d); } else { UndividedQ1(d); }
    }
    PrimeByRoot(Q, 204);
  }

  lemma UndividedR0(d: nat)
    requires 2 <= d < 122
    ensures R % d != 0
  {
    assert Undivided(56041, 2, 14);
    assert Undivided(56041, 14, 26);
    assert Undivided(56041, 26, 38);
    assert Undivided(56041, 38, 50);
    assert Undivided(56041, 50, 62);
    assert Undivided(56041, 62, 74);
    assert Undivided(56041, 74, 86);
    assert Undivided(56041, 86, 98);
    assert Undivided(56041, 98, 110);
    assert Undivided(56041, 110, 122);
    if d < 14 {
      UndividedAt(56041, 2, 14, d);
    } else if d < 26 {
      UndividedAt(56041, 14, 26, d);
    } else if d < 38 {
      UndividedAt(56041, 26, 38, d);
    } else if d < 50 {
      UndividedAt(56041, 38, 50, d);
    } else if d < 62 {
      UndividedAt(56041, 50, 62, d);
    } else if d < 74 {
      UndividedAt(56041, 62, 74, d);
    } else if d < 86 {
      UndividedAt(56041, 74, 86, d);
    } else if d < 98 {
      UndividedAt(56041, 86, 98, d);
    } else if d < 110 {
      UndividedAt(56041, 98, 110, d);
    } else {
      UndividedAt(56041, 110, 122, d);
    }
  }

  lemma UndividedR1(d: nat)
    requires 122 <= d < 240
    ensures R % d != 0
  {
    assert Undivided(56041, 122, 134);
    assert Undivided(56041, 134, 146);
    assert Undivided(56041, 146, 158);
    assert Undivided(56041, 158, 170);
    assert Undivided(56041, 170, 182);
    assert Undivided(56041, 182, 194);
    assert Undivided(56041, 194, 206);
    assert Undivided(56041, 206, 218);
    assert Undivided(56041, 218, 230);
    assert Undivided(56041, 230, 240);
    if d < 134 {
      UndividedAt(56041, 122, 134, d);
    } else if d < 146 {
      UndividedAt(56041, 134, 146, d);
    } else if d < 158 {
      UndividedAt(56041, 146, 158, d);
    } else if d < 170 {
      UndividedAt(56041, 158, 170, d);
    } else if d < 182 {
      UndividedAt(56041, 170, 182, d);
    } else if d < 194 {
      UndividedAt(56041, 182, 194, d);
    } else if d < 206 {
      UndividedAt(56041, 194, 206, d);
    } else if d < 218 {
      UndividedAt(56041, 206, 218, d);
    } else if d < 230 {
      UndividedAt(56041, 218, 230, d);
    } else {
      UndividedAt(56041, 230, 240, d);
    }
  }

  lemma PrimeR()
    ensures Prime(R)
  {
    forall d: nat | 1 < d < 240
      ensures R % d != 0
    {
      if d < 122 { UndividedR0(d); } else { UndividedR1(d); }
    }
    PrimeByRoot(R, 240);
  }

  // ----- Powers of two modulo P

  lemma Start(e: nat, v: nat) returns (e': nat)
    requires v == Pow2(e) < P
    ensures e' == e && Pow(2, e') % P == v
  {
    e' := e;
    PowIsPow2(e);
  }

  lemma {:induction false} PowIsPow2(e: nat)
    ensures Pow(2, e) == Pow2(e)
  {
    if e > 0 {
      PowIsPow2(e - 1);
    }
  }

  /** The exponent doubles. */
  lemma Even(e: nat, v: nat, q: nat, w: nat) returns (e': nat)
    requires Pow(2, e) % P == v && v * v == q * P + w && w < P
    ensures e' == 2 * e && Pow(2, e') % P == w
  {
    e' := 2 * e;
    PowAdd(2, e, e);
    ModMul(Pow(2, e), Pow(2, e), P);
    ModOf(v * v, P, q, w);
  }

  /** It doubles and goes up by one. */
  lemma Odd(e: nat, v: nat, q: nat, w: nat) returns (e': nat)
    requires Pow(2, e) % P == v && 2 * (v * v) == q * P + w && w < P
    ensures e' == 2 * e + 1 && Pow(2, e') % P == w
  {
    e' := Even(e, v, v * v / P, v * v % P);
    ModMulSame(Pow(2, e'), v * v, 2, P);
    ModOf(2 * (v * v), P, q, w);
    e' := e' + 1;
  }

  lemma PowerA(n: nat)
    requires n == 574798
    ensures Pow(2, n) % P == 29470289679
  {
    var e := Start(8, 256);
    e := Odd(e, 256, 0, 131072);
    e := Odd(e, 131072, 1, 2147483649);
    e := Even(e, 2147483649, 143165576, 21618002057);
    e := Even(e, 21618002057, 14508081381, 7702944310);
    e := Even(e, 7702944310, 1842011730, 815522230);
    e := Odd(e, 815522230, 41293384, 11630866704);
    e := Even(e, 11630866704, 4199552669, 6531528605);
    e := Odd(e, 6531528605, 2648735165, 17713998415);
    e := Even(e, 17713998415, 9741191437, 11436871022);
    e := Odd(e, 11436871022, 8121258192, 28257240920);
    e := Even(e, 28257240920, 24787822875, 31967549275);
    e := Even(e, 31967549275, 31724702774, 8899135119);
    e := Odd(e, 8899135119, 4917048282, 7032945564);
    e := Odd(e, 7032945564, 3071025219, 9473797731);
    e := Odd(e, 9473797731, 5572589949, 14074277391);
    e := Even(e, 14074277391, 6149376558, 29470289679);
  }

  lemma PowerBHalf(n: nat)
    requires n == 1532
    ensures Pow(2, n) % P == 21503217457
  {
    var e := Start(5, 32);
    e := Odd(e, 32, 0, 2048);
    e := Odd(e, 2048, 0, 8388608);
    e := Odd(e, 8388608, 4369, 2147488017);
    e := Odd(e, 2147488017, 286332318, 4619475936);
    e := Odd(e, 4619475936, 1324934135, 4048219127);
    e := Odd(e, 4048219127, 1017505805, 31696140463);
    e := Even(e, 31696140463, 31188295541, 32081946390);
    e := Even(e, 32081946390, 31952165197, 21503217457);
  }

  lemma PowerB(n: nat)
    requires n == 784574
    ensures Pow(2, n) % P == 2169833754
  {
    var e := 1532;
    PowerBHalf(e);
    e := Even(e, 21503217457, 14354423961, 26780624890);
    e := Odd(e, 26780624890, 44529752776, 3165674256);
    e := Even(e, 3165674256, 311108104, 3908010760);
    e := Odd(e, 3908010760, 948244587, 28194599147);
    e := Odd(e, 28194599147, 49356086867, 27131579845);
    e := Odd(e, 27131579845, 45704507884, 5268743454);
    e := Odd(e, 5268743454, 1723546384, 26716314136);
    e := Odd(e, 26716314136, 44316142861, 24741441933);
    e := Even(e, 24741441933, 19003294065, 2169833754);
  }

  lemma PowerMHalf(n: nat)
    requires n == 491519
    ensures Pow(2, n) % P == 5569292841
  {
    var e := Start(7, 128);
    e := Even(e, 128, 0, 16384);
    e := Odd(e, 16384, 0, 536870912);
    e := Odd(e, 536870912, 17895697, 2165379345);
    e := Odd(e, 2165379345, 291123223, 1613018713);
    e := Odd(e, 1613018713, 161542828, 13412747406);
    e := Odd(e, 13412747406, 11169773401, 7796528353);
    e := Odd(e, 7796528353, 3774082558, 29434694016);
    e := Odd(e, 29434694016, 53793267150, 28077235662);
    e := Odd(e, 28077235662, 48946040523, 25597178451);
    e := Odd(e, 25597178451, 40681135199, 16412764721);
    e := Odd(e, 16412764721, 16725240014, 6425289616);
    e := Odd(e, 6425289616, 2563269600, 30285612512);
    e := Odd(e, 30285612512, 56948408810, 24558225898);
    e := Odd(e, 24558225898, 37445777361, 10900196249);
    e := Odd(e, 10900196249, 7376961302, 21197455864);
    e := Odd(e, 21197455864, 27898210729, 5569292841);
  }

  lemma PowerM(n: nat)
    requires n == 32212254718
    ensures Pow(2, n) % P == 1
  {
    var e := 491519;
    PowerMHalf(e);
    e := Odd(e, 5569292841, 1925790232, 9081597754);
    e := Odd(e, 9081597754, 5120747894, 17604877246);
    e := Odd(e, 17604877246, 19243092763, 30355590435);
    e := Odd(e, 30355590435, 57211882787, 26511356597);
    e := Odd(e, 26511356597, 43638797392, 4653947970);
    e := Odd(e, 4653947970, 1344782095, 29243785495);
    e := Odd(e, 29243785495, 53097741684, 26472783254);
    e := Odd(e, 26472783254, 43511903114, 9908362066);
    e := Odd(e, 9908362066, 6095545914, 28767908546);
    e := Odd(e, 28767908546, 51383709046, 25303180158);
    e := Odd(e, 25303180158, 39752009394, 24800979642);
    e := Odd(e, 24800979642, 38189726026, 7461279634);
    e := Odd(e, 7461279634, 3456491590, 22325034702);
    e := Odd(e, 22325034702, 30945190195, 1767177403);
    e := Odd(e, 1767177403, 193896143, 1);
    e := Even(e, 1, 0, 1);
  }

  // ----- The divisors of P

  lemma NotOneModDivisor(d: nat, n: nat, v: nat, u: nat, k: nat)
    requires 1 < d && n > 0 && n % d == 0 && v > 0 && (v - 1) * u == k * n + 1
    ensures v % d != 1
  {
    if v % d == 1 {
      var j, i := v / d, n / d;
      assert v - 1 == j * d && n == i * d;
      assert (j * d) * u == (j * u) * d && k * (i * d) == (k * i) * d;
      ModOf((v - 1) * u, d, j * u, 0);
      ModOf((v - 1) * u, d, k * i, 1);
    }
  }

  /** A power that differs from one modulo `P` by an invertible number is not one modulo a divisor either. */
  lemma NotOne(d: nat, e: nat, v: nat, u: nat, k: nat)
    requires 1 < d <= P && P % d == 0 && v > 0 && Pow(2, e) % P == v && (v - 1) * u == k * P + 1
    ensures !One(2, d, e)
  {
    ModDivisor(Pow(2, e), P, d);
    RemIsMod(Pow(2, e), d);
    NotOneModDivisor(d, P, v, u, k);
  }

  lemma OneAtEnd(d: nat, e: nat)
    requires 1 < d <= P && P % d == 0 && e == P - 1
    ensures One(2, d, e)
  {
    PowerM(e);
    OneOfDivisor(Pow(2, e), P, d);
    RemIsMod(Pow(2, e), d);
  }

  /** If the order divides `q * k` but not `k`, and `q` is prime, then `q` divides the order. */
  lemma FactorOfOrder(d: nat, q: nat, k: nat)
    requires d > 0 && Prime(q) && Divides(d, q * k) && !Divides(d, k)
    ensures Divides(q, d)
  {
    var e := q * k / d;
    assert q * k == e * d;
    ModOf(e * d, q, k, 0);
    PrimeDivides(q, e, d);
    if Divides(q, e) {
      var f := e / q;
      assert e == f * q;
      assert (f * q) * d == q * (f * d);
      MulCancel(q, k, f * d);
      ModOf(k, d, f, 0);
    }
  }

  lemma MulCancel(q: nat, x: int, y: int)
    requires q > 0 && q * x == q * y
    ensures x == y
  {
    assert (x - y) * q == 0;
    MulBetween(x - y, q);
  }

  /** The order of 2 modulo a divisor of `P` is a multiple of both large factors of `P - 1`. */
  lemma LargeOrder(d: nat, o: nat)
    requires 1 < d <= P && P % d == 0 && Order(2, d, o)
    ensures Divides(Q, o) && Divides(R, o)
  {
    var e := P - 1;
    OneAtEnd(d, e);
    OrderDivides(2, d, o, e);
    var a, b := 574798, 784574;
    PowerA(a);
    PowerB(b);
    NotOne(d, a, 29470289679, 21961971349, 20092528859);
    NotOne(d, b, 2169833754, 12229242046, 823767923);
    NotDividing(d, o, a);
    NotDividing(d, o, b);
    PrimeQ();
    PrimeR();
    FactorOfOrder(o, Q, b);
    FactorOfOrder(o, R, a);
  }

  lemma NotDividing(d: nat, o: nat, e: nat)
    requires d > 1 && Order(2, d, o) && !One(2, d, e)
    ensures !Divides(o, e)
  {
    if Divides(o, e) {
      assert o * (e / o) == e;
      OneMultiple(2, d, o, e / o);
    }
  }

  lemma BothFactors(o: nat)
    requires o > 0 && Divides(Q, o) && Divides(R, o)
    ensures o >= Q * R
  {
    var f := o / Q;
    assert o == Q * f;
    PrimeR();
    PrimeDivides(R, Q, f);
    assert f >= R;
    MulMonotone2(Q, f, R);
  }

  lemma MulMonotone2(q: nat, f: nat, r: nat)
    requires f >= r
    ensures q * f >= q * r
  {
  }

  /** The modulus of the hash function is prime. */
  lemma ModulusPrime()
    ensures Prime(P)
  {
    forall d: nat | 1 < d < 200000
      ensures P % d != 0
    {
      if P % d == 0 {
        var e := P - 1;
        OneAtEnd(d, e);
        var o := OrderExists(2, d, e);
        OrderBelow(2, d, o);
        LargeOrder(d, o);
        BothFactors(o);
      }
    }
    PrimeByRoot(P, 200000);
  }
}
