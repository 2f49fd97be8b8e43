/** Unsigned words as natural numbers: powers of two, bitwise operators and arithmetic modulo 2^32 and 2^64. */
module Bits {

  function Pow2(k: nat): (p: nat)
    ensures p > 0
  {
    if k == 0 then 1 else 2 * Pow2(k - 1)
  }

  type u8 = x: int | 0 <= x < 0x100
  type u32 = x: int | 0 <= x < 0x1_0000_0000
  type u64 = x: int | 0 <= x < 0x1_0000_0000_0000_0000

  function U32(x: int): (w: u32)
    ensures (x - w) % 0x1_0000_0000 == 0
    ensures 0 <= x < 0x1_0000_0000 ==> w == x
  {
    x % 0x1_0000_0000
  }

  function U64(x: int): (w: u64)
    ensures (x - w) % 0x1_0000_0000_0000_0000 == 0
    ensures 0 <= x < 0x1_0000_0000_0000_0000 ==> w == x
  {
    x % 0x1_0000_0000_0000_0000
  }

  // ----- Bitwise operators, by their binary digits

  function And(a: nat, b: nat): nat {
    if a == 0 || b == 0 then 0 else (if a % 2 == 1 && b % 2 == 1 then 1 else 0) + 2 * And(a / 2, b / 2)
  }

  function Or(a: nat, b: nat): nat {
    if a == 0 then b else (if a % 2 == 1 || b % 2 == 1 then 1 else 0) + 2 * Or(a / 2, b / 2)
  }

  function Xor(a: nat, b: nat): nat {
    if a == 0 then b else (if a % 2 != b % 2 then 1 else 0) + 2 * Xor(a / 2, b / 2)
  }

  /** `a >> k` */
  function Shr(a: nat, k: nat): (s: nat)
    ensures s <= a
  {
    if k == 0 then a else Shr(a / 2, k - 1)
  }

  // ----- Products and quotients

  lemma MulAssoc(a: int, b: int, c: int)
    ensures a * (b * c) == (a * b) * c
  {
  }

  lemma MulAtLeast(k: int, c: int)
    requires k >= 1 && c >= 0
    ensures k * c >= c
  {
    assert (k - 1) * c >= 0;
  }

  /** The only multiple of `c` between -c and c. */
  lemma MulBetween(k: int, c: int)
    requires c > 0 && -c < k * c < c
    ensures k == 0
  {
    if k >= 1 {
      MulAtLeast(k, c);
    } else if k <= -1 {
      assert (-k) * c == -(k * c);
      MulAtLeast(-k, c);
    }
  }

  /** Quotient and remainder are unique. */
  lemma DivUnique(a: int, n: int, q: int, r: int)
    requires 0 <= r < n && a == q * n + r
    ensures a / n == q && a % n == r
  {
    var q', r' := a / n, a % n;
    assert a == q' * n + r';
    assert (q' - q) * n == r - r';
    MulBetween(q' - q, n);
  }

  lemma DivDiv(a: nat, p: nat, q: nat)
    requires p > 0 && q > 0
    ensures p * q > 0 && a / p / q == a / (p * q)
  {
    var d, r := a / p, a % p;
    var e, s := d / q, d % q;
    assert a == (e * q + s) * p + r;
    assert (e * q + s) * p == e * (p * q) + s * p;
    assert s * p + r < p * q by {
      MulAtLeast(q - s, p);
      assert (q - s) * p == p * q - s * p;
    }
    DivUnique(a, p * q, e, s * p + r);
  }

  lemma U32Plus(x: int, j: int)
    ensures U32(x + j * 0x1_0000_0000) == U32(x)
  {
    DivUnique(x + j * 0x1_0000_0000, 0x1_0000_0000, x / 0x1_0000_0000 + j, x % 0x1_0000_0000);
  }

  lemma U64Plus(x: int, j: int)
    ensures U64(x + j * 0x1_0000_0000_0000_0000) == U64(x)
  {
    var n := 0x1_0000_0000_0000_0000;
    DivUnique(x + j * n, n, x / n + j, x % n);
  }

  // ----- Powers of two

  lemma {:induction false} Pow2Add(j: nat, k: nat)
    ensures Pow2(j + k) == Pow2(j) * Pow2(k)
  {
    if j > 0 {
      var a, b, c := Pow2(j), Pow2(j - 1), Pow2(k);
      calc {
        Pow2(j + k);
        2 * Pow2(j - 1 + k);
        { Pow2Add(j - 1, k); }
        2 * (b * c);
        { MulAssoc(2, b, c); }
        (2 * b) * c;
        a * c;
      }
    }
  }

  lemma {:induction false} Pow2Less(j: nat, k: nat)
    requires j < k
    ensures 2 * Pow2(j) <= Pow2(k)
    decreases k - j
  {
    if j + 1 < k {
      Pow2Less(j + 1, k);
    }
  }

  lemma Pow2Constants()
    ensures Pow2(8) == 0x100 && Pow2(16) == 0x1_0000 && Pow2(31) == 0x8000_0000 && Pow2(32) == 0x1_0000_0000
    ensures Pow2(64) == 0x1_0000_0000_0000_0000
  {
    assert Pow2(8) == 0x100;
    Pow2Add(8, 8);
    Pow2Add(16, 16);
    Pow2Add(32, 32);
  }

  // ----- Shifts

  /** Shifting by one more place. */
  lemma {:induction false} ShrStep(a: nat, k: nat)
    ensures Shr(a, k + 1) == Shr(a / 2, k) == Shr(a, k) / 2
  {
    if k > 0 {
      ShrStep(a / 2, k - 1);
    }
  }

  lemma {:induction false} ShrShr(a: nat, j: nat, k: nat)
    ensures Shr(Shr(a, j), k) == Shr(a, j + k)
  {
    if j > 0 {
      ShrShr(a / 2, j - 1, k);
    }
  }

  lemma {:induction false} ShrSmall(a: nat, k: nat)
    requires a < Pow2(k)
    ensures Shr(a, k) == 0
  {
    if k > 0 {
      ShrSmall(a / 2, k - 1);
    }
  }

  /** Shifting divides by a power of two. */
  lemma {:induction false} ShrDiv(a: nat, k: nat)
    ensures Shr(a, k) == a / Pow2(k)
  {
    if k > 0 {
      ShrDiv(a / 2, k - 1);
      DivDiv(a, 2, Pow2(k - 1));
    }
  }

  // ----- Exclusive or

  lemma {:induction false} XorZero(a: nat)
    ensures Xor(a, 0) == a && Xor(0, a) == a
  {
    if a > 0 {
      XorZero(a / 2);
    }
  }

  lemma {:induction false} XorSelf(a: nat)
    ensures Xor(a, a) == 0
  {
    if a > 0 {
      XorSelf(a / 2);
    }
  }

  lemma {:induction false} XorHalf(a: nat, b: nat)
    ensures Xor(a, b) / 2 == Xor(a / 2, b / 2)
    ensures Xor(a, b) % 2 == if a % 2 != b % 2 then 1 else 0
  {
  }

  lemma {:induction false} XorAssoc(a: nat, b: nat, c: nat)
    ensures Xor(Xor(a, b), c) == Xor(a, Xor(b, c))
    decreases a + b + c
  {
    XorHalf(a, b);
    XorHalf(b, c);
    XorHalf(Xor(a, b), c);
    XorHalf(a, Xor(b, c));
    if a + b + c > 0 {
      XorAssoc(a / 2, b / 2, c / 2);
    }
    SameDigits(Xor(Xor(a, b), c), Xor(a, Xor(b, c)));
  }

  lemma SameDigits(x: nat, y: nat)
    requires x / 2 == y / 2 && x % 2 == y % 2
    ensures x == y
  {
  }

  /** Two exclusive ors with the same word cancel. */
  lemma XorTwice(a: nat, b: nat)
    ensures Xor(Xor(a, b), b) == a
  {
    XorAssoc(a, b, b);
    XorSelf(b);
    XorZero(a);
  }

  lemma {:induction false} XorBound(a: nat, b: nat, k: nat)
    requires a < Pow2(k) && b < Pow2(k)
    ensures Xor(a, b) < Pow2(k)
  {
    if k > 0 {
      XorHalf(a, b);
      XorBound(a / 2, b / 2, k - 1);
    }
  }

  lemma {:induction false} XorShr(a: nat, b: nat, k: nat)
    ensures Shr(Xor(a, b), k) == Xor(Shr(a, k), Shr(b, k))
  {
    if k > 0 {
      ShrStep(Xor(a, b), k - 1);
      ShrStep(a, k - 1);
      ShrStep(b, k - 1);
      XorHalf(a, b);
      XorShr(a / 2, b / 2, k - 1);
    }
  }

  // ----- Masks

  lemma AndHalf(a: nat, b: nat)
    ensures And(a, b) / 2 == And(a / 2, b / 2)
    ensures And(a, b) % 2 == if a % 2 == 1 && b % 2 == 1 then 1 else 0
  {
  }

  lemma OrHalf(a: nat, b: nat)
    ensures Or(a, b) / 2 == Or(a / 2, b / 2)
    ensures Or(a, b) % 2 == if a % 2 == 1 || b % 2 == 1 then 1 else 0
  {
  }

  lemma ModHalf(a: nat, p: nat)
    requires p > 0
    ensures a % (2 * p) / 2 == a / 2 % p && a % (2 * p) % 2 == a % 2
  {
    var q, r := a / 2 / p, a / 2 % p;
    assert a / 2 == q * p + r;
    assert q * (2 * p) == 2 * (q * p);
    DivUnique(a, 2 * p, q, 2 * r + a % 2);
  }

  /** A mask of `k` ones takes the remainder. */
  lemma {:induction false} AndMask(a: nat, k: nat)
    ensures And(a, Pow2(k) - 1) == a % Pow2(k)
  {
    if k > 0 {
      AndMask(a / 2, k - 1);
      AndMaskStep(a, Pow2(k) - 1, Pow2(k - 1));
    }
  }

  lemma AndMaskStep(a: nat, m: nat, p: nat)
    requires p > 0 && m == 2 * p - 1 && And(a / 2, p - 1) == a / 2 % p
    ensures And(a, m) == a % (2 * p)
  {
    AndHalf(a, m);
    ModHalf(a, p);
    SameDigits(And(a, m), a % (2 * p));
  }

  /** Or with `k` ones fills the low digits. */
  lemma {:induction false} OrMask(a: nat, k: nat)
    ensures Or(a, Pow2(k) - 1) == a - a % Pow2(k) + Pow2(k) - 1
  {
    if k == 0 {
      OrZero(a);
    } else {
      OrMask(a / 2, k - 1);
      OrMaskStep(a, Pow2(k) - 1, Pow2(k - 1));
    }
  }

  lemma OrMaskStep(a: nat, m: nat, p: nat)
    requires p > 0 && m == 2 * p - 1 && Or(a / 2, p - 1) == a / 2 - a / 2 % p + p - 1
    ensures Or(a, m) == a - a % (2 * p) + 2 * p - 1
  {
    assert m / 2 == p - 1;
    OrHalf(a, m);
    ModHalf(a, p);
    FromHalves(Or(a, m), a, a % (2 * p), p);
  }

  lemma FromHalves(x: nat, a: nat, r: nat, p: nat)
    requires x % 2 == 1 && r % 2 == a % 2
    requires x / 2 == a / 2 - r / 2 + p - 1
    ensures x == a - r + 2 * p - 1
  {
  }

  lemma {:induction false} OrZero(a: nat)
    ensures Or(a, 0) == a
  {
    if a > 0 {
      OrZero(a / 2);
    }
  }

  lemma {:induction false} OrShr(a: nat, b: nat, k: nat)
    ensures Shr(Or(a, b), k) == Or(Shr(a, k), Shr(b, k))
  {
    if k > 0 {
      ShrStep(Or(a, b), k - 1);
      ShrStep(a, k - 1);
      ShrStep(b, k - 1);
      OrHalf(a, b);
      OrShr(a / 2, b / 2, k - 1);
    }
  }

  // ----- Digits

  /** Binary digit number `i`, the lowest being number 0. */
  function Digit(a: nat, i: nat): (d: nat)
    ensures d < 2
  {
    Shr(a, i) % 2
  }

  lemma XorDigit(a: nat, b: nat, i: nat)
    ensures Digit(Xor(a, b), i) != Digit(a, i) <==> Digit(b, i) == 1
  {
    XorShr(a, b, i);
    XorHalf(Shr(a, i), Shr(b, i));
  }

  /** The remainder by a power of two has the low digits. */
  lemma {:induction false} ModDigit(a: nat, k: nat, i: nat)
    requires i < k
    ensures Digit(a % Pow2(k), i) == Digit(a, i)
  {
    ModHalf(a, Pow2(k - 1));
    assert Pow2(k) == 2 * Pow2(k - 1);
    if i > 0 {
      ModDigit(a / 2, k - 1, i - 1);
    }
  }

  /** Only a word without ones leaves another one as it is. */
  lemma XorIsZero(a: nat, b: nat)
    ensures Xor(a, b) == a <==> b == 0
  {
    XorZero(a);
    if Xor(a, b) == a {
      XorInjective(a, b, 0);
    }
  }

  lemma XorInjective(a: nat, b: nat, c: nat)
    ensures Xor(a, b) == Xor(a, c) <==> b == c
  {
    XorTwiceLeft(a, b);
    XorTwiceLeft(a, c);
  }

  lemma XorTwiceLeft(a: nat, b: nat)
    ensures Xor(a, Xor(a, b)) == b
  {
    XorAssoc(a, a, b);
    XorSelf(a);
    XorZero(b);
  }

  /** The word with the low `k` digits of `c` below those of `a`. */
  function Join(a: nat, c: nat, k: nat): nat {
    if k == 0 then a else 2 * Join(a, c / 2, k - 1) + c % 2
  }

  lemma {:induction false} JoinValue(a: nat, c: nat, k: nat)
    requires c < Pow2(k)
    ensures Join(a, c, k) == Pow2(k) * a + c
  {
    if k > 0 {
      JoinValue(a, c / 2, k - 1);
      MulAssoc(2, Pow2(k - 1), a);
    }
  }

  lemma XorDouble(x: nat, y: nat, c: nat, d: nat)
    requires c < 2 && d < 2
    ensures Xor(2 * x + c, 2 * y + d) == 2 * Xor(x, y) + if c != d then 1 else 0
  {
    XorHalf(2 * x + c, 2 * y + d);
  }

  lemma {:induction false} XorJoin(a: nat, b: nat, c: nat, d: nat, k: nat)
    ensures Xor(Join(a, c, k), Join(b, d, k)) == Join(Xor(a, b), Xor(c, d), k)
  {
    if k > 0 {
      var x, y, z := Join(a, c / 2, k - 1), Join(b, d / 2, k - 1), Join(Xor(a, b), Xor(c / 2, d / 2), k - 1);
      assert Xor(x, y) == z by { XorJoin(a, b, c / 2, d / 2, k - 1); }
      XorDouble(x, y, c % 2, d % 2);
      XorHalf(c, d);
    }
  }

  /** High and low parts of words can be taken apart. */
  lemma XorParts(x: nat, y: nat, a: nat, b: nat, c: nat, d: nat, k: nat)
    requires c < Pow2(k) && d < Pow2(k)
    requires x == Pow2(k) * a + c && y == Pow2(k) * b + d
    ensures Xor(x, y) == Pow2(k) * Xor(a, b) + Xor(c, d)
  {
    JoinValue(a, c, k);
    JoinValue(b, d, k);
    XorBound(c, d, k);
    JoinValue(Xor(a, b), Xor(c, d), k);
    XorJoin(a, b, c, d, k);
  }

  /** An octet changes the lowest octet only. */
  lemma XorLow(u: nat, a: u8, b: u8)
    ensures Xor(0x100 * u + a, b) == 0x100 * u + Xor(a, b)
  {
    var k, h: nat := 8, 0x100 * u + a;
    assert Pow2(k) == 0x100 by { Pow2Constants(); }
    XorParts(h, b, u, 0, a, b, k);
    XorZero(u);
  }

  // ----- Counting

  lemma {:induction false} CardBelow(s: set<int>, n: nat)
    requires n > 0 && forall x :: x in s ==> 0 < x < n
    ensures |s| < n
  {
    if n == 1 {
      assert forall x :: x !in s;
    } else {
      CardBelow(s - {n - 1}, n - 1);
      assert s <= (s - {n - 1}) + {n - 1};
    }
  }
}
