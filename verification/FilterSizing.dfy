/** How many buckets a cuckoo filter gets. */
module FilterSizing {
  import opened Bits

  // ----- Lengths

  /** The number of binary digits. */
  function Digits(n: nat): nat {
    if n == 0 then 0 else 1 + Digits(n / 2)
  }

  lemma {:induction false} DigitsBound(n: nat)
    ensures n < Pow2(Digits(n))
    ensures n > 0 ==> Shr(n, Digits(n) - 1) == 1 && Pow2(Digits(n) - 1) <= n
  {
    if n > 0 {
      DigitsBound(n / 2);
      if n / 2 == 0 {
        assert n == 1;
      }
    }
  }

  lemma {:induction false} DigitsLeast(n: nat, k: nat)
    requires n < Pow2(k)
    ensures Digits(n) <= k
  {
    if n > 0 {
      DigitsLeast(n / 2, k - 1);
    }
  }

  // ----- Smearing

  /** The number is below 2^l and its top `t` of `l` digits are ones. */
  predicate Filled(s: nat, l: nat, t: nat) {
    s < Pow2(l) && if l <= t then s == Pow2(l) - 1 else Shr(s, l - t) == Pow2(t) - 1
  }

  lemma {:induction false} ShrOnes(t: nat, k: nat)
    ensures Shr(Pow2(t + k) - 1, k) == Pow2(t) - 1
  {
    if k > 0 {
      assert (Pow2(t + k) - 1) / 2 == Pow2(t + k - 1) - 1;
      ShrOnes(t, k - 1);
    }
  }

  lemma FillArith(u: nat, p: nat, q: nat)
    requires p > 0 && u / p == q - 1
    ensures u - u % p + p - 1 == q * p - 1
  {
    assert u == (q - 1) * p + u % p;
    assert (q - 1) * p == q * p - p;
  }

  /** Ones above the digit `k` and ones filled in below it. */
  lemma FillLow(u: nat, k: nat, t: nat)
    requires Shr(u, k) == Pow2(t) - 1
    ensures Or(u, Pow2(k) - 1) == Pow2(k + t) - 1
  {
    OrMask(u, k);
    ShrDiv(u, k);
    FillArith(u, Pow2(k), Pow2(t));
    Pow2Add(t, k);
  }

  /** The ones reach the lowest digit. */
  lemma SmearToEnd(s: nat, k: nat, t: nat)
    requires Shr(s, k) == Pow2(t) - 1 && k <= t
    ensures Or(s, Shr(s, t)) == Pow2(k + t) - 1
  {
    ShrShr(s, k, t - k);
    ShrOnes(k, t - k);
    FillLow(s, k, t);
  }

  lemma SmearOn(s: nat, l: nat, t: nat)
    requires Filled(s, l, t) && t + t < l
    ensures Filled(Or(s, Shr(s, t)), l, t + t)
  {
    var k := l - (t + t);
    ShrShr(s, t, k);
    ShrShr(s, k, t);
    OrShr(s, Shr(s, t), k);
    FillLow(Shr(s, k), t, t);
    OrBound(s, Shr(s, t), l);
  }

  /** Or with the number shifted by the ones it has doubles them. */
  lemma Smear(s: nat, l: nat, t: nat)
    requires Filled(s, l, t) && t > 0
    ensures Filled(Or(s, Shr(s, t)), l, t + t)
  {
    if l <= t {
      if l < t { Pow2Less(l, t); }
      ShrSmall(s, t);
      OrZero(s);
    } else if l <= t + t {
      SmearToEnd(s, l - t, t);
    } else {
      SmearOn(s, l, t);
    }
  }

  lemma {:induction false} OrBound(a: nat, b: nat, k: nat)
    requires a < Pow2(k) && b < Pow2(k)
    ensures Or(a, b) < Pow2(k)
  {
    if k > 0 {
      OrHalf(a, b);
      OrBound(a / 2, b / 2, k - 1);
    }
  }

  function SmearStep(n: nat, t: nat): nat {
    Or(n, Shr(n, t))
  }

  /** Three steps make eight times as many ones. */
  lemma SmearThrice(s: nat, l: nat, t: nat)
    requires Filled(s, l, t) && t > 0
    ensures Filled(SmearStep(SmearStep(SmearStep(s, t), 2 * t), 4 * t), l, 8 * t)
  {
    var s1 := SmearStep(s, t);
    Smear(s, l, t);
    var s2 := SmearStep(s1, 2 * t);
    Smear(s1, l, 2 * t);
    Smear(s2, l, 4 * t);
  }

  lemma DigitsOfWord(n: u64)
    ensures Digits(n) <= 64
  {
    Pow2Constants();
    DigitsLeast(n, 64);
  }

  /** Six steps smear the top digit over a 64-bit word. */
  lemma SmearedOnes(n: u64)
    ensures SmearStep(SmearStep(SmearStep(SmearStep(SmearStep(SmearStep(n, 1), 2), 4), 8), 16), 32)
         == Pow2(Digits(n)) - 1
  {
    DigitsBound(n);
    DigitsOfWord(n);
    SmearThrice(n, Digits(n), 1);
    SmearThrice(SmearStep(SmearStep(SmearStep(n, 1), 2), 4), Digits(n), 8);
  }

  /** next_pow_2, whose result is cut off to 32 bits. */
  method NextPow2(num: u64) returns (r: u32)
    ensures r == RoundUp(num)
  {
    var n: nat := U64(num - 1);
    SmearedOnes(n);
    n := SmearStep(n, 1);
    n := SmearStep(n, 2);
    n := SmearStep(n, 4);
    n := SmearStep(n, 8);
    n := SmearStep(n, 16);
    n := SmearStep(n, 32);
    n := U64(n + 1);
    r := U32(n);
  }

  // ----- Counting zeros

  /** trailing_zeros */
  method TrailingZeros(num: u32) returns (count: nat)
    ensures count <= 32
    ensures forall i: nat :: i < count ==> Shr(num, i) % 2 == 0
    ensures count < 32 ==> Shr(num, count) % 2 == 1
  {
    count := 0;
    var i := 0;
    while i < 32
      invariant 0 <= i <= 32 && count == i
      invariant forall j: nat :: j < i ==> Shr(num, j) % 2 == 0
    {
      AndMask(Shr(num, i), 1);
      if And(Shr(num, i), 1) != 0 { break; }
      count := count + 1;
      i := i + 1;
    }
  }

  lemma {:induction false} ShrPow2(k: nat, i: nat)
    ensures i < k ==> Shr(Pow2(k), i) % 2 == 0
    ensures i == k ==> Shr(Pow2(k), i) == 1
  {
    if 0 < i <= k {
      ShrPow2(k - 1, i - 1);
    }
  }

  // ----- The table

  /** What the size of a table for `c` entries is meant to be. */
  ghost predicate Sized(c: u32, buckets: nat, power: nat) {
    && buckets == Pow2(power) && power <= 29
    && (1 <= c <= 0x8000_0000 ==> c <= 4 * buckets && (buckets > 1 ==> 2 * buckets < c))
    && (c == 0 || c > 0x8000_0000 ==> buckets == 1)
  }

  /** What next_pow_2 computes. */
  function RoundUp(num: u64): u32 {
    U32(U64(Pow2(Digits(U64(num - 1)))))
  }

  lemma DigitsExact(n: nat, k: nat)
    requires Pow2(k) <= n < 2 * Pow2(k)
    ensures Digits(n) == k + 1
  {
    DigitsLeast(n, k + 1);
    DigitsBound(n);
    if Digits(n) < k {
      Pow2Less(Digits(n), k);
    }
  }

  lemma {:induction false} Pow2Monotone(j: nat, k: nat)
    requires j <= k
    ensures Pow2(j) <= Pow2(k)
  {
    if j < k {
      Pow2Less(j, k);
    }
  }

  lemma DigitsOfHalfRange(n: nat)
    requires n < 0x8000_0000
    ensures Digits(n) <= 31 && Pow2(Digits(n)) <= 0x8000_0000
  {
    var k := 31;
    assert Pow2(k) == 0x8000_0000 by { Pow2Constants(); }
    DigitsLeast(n, k);
    Pow2Monotone(Digits(n), k);
  }

  lemma RoundUpValue(c: u32)
    requires 1 <= c <= 0x8000_0000
    ensures RoundUp(c) == Pow2(Digits(c - 1)) && Digits(c - 1) <= 31
  {
    var n := U64(c - 1);
    DigitsOfHalfRange(n);
    var p := Pow2(Digits(n));
    assert U32(U64(p)) == p;
  }

  lemma DigitsCover(n: nat, k: nat)
    requires n < Pow2(k)
    ensures Pow2(Digits(n)) <= Pow2(k)
  {
    DigitsLeast(n, k);
    Pow2Monotone(Digits(n), k);
  }

  /** For inputs up to 2^31 the result is the least power of two that is no smaller. */
  lemma RoundUpLeast(c: u32)
    requires 1 <= c <= 0x8000_0000
    ensures RoundUp(c) == Pow2(Digits(c - 1)) && Digits(c - 1) <= 31 && c <= RoundUp(c)
    ensures forall k: nat :: c <= Pow2(k) ==> RoundUp(c) <= Pow2(k)
  {
    RoundUpValue(c);
    DigitsBound(c - 1);
    forall k: nat | c <= Pow2(k)
      ensures RoundUp(c) <= Pow2(k)
    {
      DigitsCover(c - 1, k);
    }
  }

  lemma WrapAround(n: u64)
    requires n >= 0x8000_0000_0000_0000
    ensures U64(Pow2(Digits(n))) == 0
  {
    var k := 63;
    assert Pow2(k + 1) == 0x1_0000_0000_0000_0000 by { Pow2Constants(); }
    DigitsExact(n, k);
  }

  lemma CutOff(n: u32)
    requires n >= 0x8000_0000
    ensures U32(U64(Pow2(Digits(n)))) == 0
  {
    var k := 31;
    assert Pow2(k + 1) == 0x1_0000_0000 by { Pow2Constants(); }
    DigitsExact(n, k);
  }

  /** For 0 the word wraps around, and beyond 2^31 the result does not fit in 32 bits. */
  lemma RoundUpZero(c: u32)
    requires c == 0 || c > 0x8000_0000
    ensures RoundUp(c) == 0
  {
    var n := U64(c - 1);
    assert n >= 0x8000_0000_0000_0000 || (n == c - 1 && n >= 0x8000_0000);
    if n >= 0x8000_0000_0000_0000 {
      WrapAround(n);
    } else {
      CutOff(n);
    }
  }

  lemma Quarter(d: nat)
    ensures Pow2(d) / 4 == if d < 2 then 0 else Pow2(d - 2)
    ensures d >= 2 ==> Pow2(d) == 4 * Pow2(d - 2)
  {
    if d >= 2 {
      assert Pow2(d) == 2 * Pow2(d - 1) == 4 * Pow2(d - 2);
    }
  }

  /** The sizing of cf_new. */
  method TableSize(c: u32) returns (buckets: nat, power: nat)
    ensures Sized(c, buckets, power)
  {
    var p := NextPow2(c);
    buckets := p / 4;
    if buckets == 0 {
      buckets := 1;
    }
    power := TrailingZeros(buckets);

    if 1 <= c <= 0x8000_0000 {
      RoundUpLeast(c);
      var d := Digits(c - 1);
      Quarter(d);
      DigitsBound(c - 1);
      ZerosOfPow2(buckets, if d < 2 then 0 else d - 2, power);
    } else {
      RoundUpZero(c);
      ZerosOfPow2(1, 0, power);
    }
  }

  /** Counting the zeros of a power of two gives its exponent. */
  lemma ZerosOfPow2(num: nat, k: nat, count: nat)
    requires num == Pow2(k) && k < 32 && count <= 32
    requires forall i: nat :: i < count ==> Shr(num, i) % 2 == 0
    requires count < 32 ==> Shr(num, count) % 2 == 1
    ensures count == k
  {
    ShrPow2(k, k);
    if count < k {
      ShrPow2(k, count);
    }
  }
}
