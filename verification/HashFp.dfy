/** The 64-bit finalizer behind the fingerprints. */
module HashFp {
  import opened Bits

  /** `x ^ (x >> k)` */
  function XorShift(x: u64, k: nat): u64 {
    WordXor(x, Shr(x, k))
  }

  /** What undoes it, for shifts of a third of the word or more. */
  function UnShift(x: u64, k: nat): u64 {
    WordXor(WordXor(x, Shr(x, k)), Shr(x, k + k))
  }

  function WordXor(a: u64, b: nat): u64
    requires b < 0x1_0000_0000_0000_0000
  {
    Pow2Constants();
    XorBound(a, b, 64);
    Xor(a, b)
  }

  function TimesA(x: u64): u64 { U64(x * 0xbf58476d1ce4e5b9) }
  function TimesB(x: u64): u64 { U64(x * 0x94d049bb133111eb) }
  function OverA(x: u64): u64 { U64(x * 0x96de1b173f119089) }
  function OverB(x: u64): u64 { U64(x * 0x319642b2d24d8ec3) }

  /** hash_fp */
  function Mix(x: u64): u64 {
    XorShift(TimesB(XorShift(TimesA(XorShift(x, 30)), 27)), 31)
  }

  /** The steps undone: the two factors are odd, so they have inverses modulo 2^64. */
  function Unmix(x: u64): u64 {
    UnShift(OverA(UnShift(OverB(UnShift(x, 31)), 27)), 30)
  }

  lemma XorSwap(a: nat, b: nat, c: nat)
    ensures Xor(Xor(Xor(a, b), Xor(b, c)), c) == a
  {
    XorAssoc(Xor(a, b), b, c);
    XorTwice(a, b);
    XorTwice(a, c);
  }

  /** The high words that an exclusive or with a shifted word brings in cancel again. */
  lemma ShiftUndone(x: u64, k: nat)
    requires 64 <= 3 * k
    ensures UnShift(XorShift(x, k), k) == x
  {
    var s, t := Shr(x, k), Shr(x, k + k);
    ShiftedOut(x, k);
    XorZero(t);
    XorShr(x, s, k);
    XorShr(x, s, k + k);
    XorSwap(x, s, t);
  }

  lemma ShiftRedone(x: u64, k: nat)
    requires 64 <= 3 * k
    ensures XorShift(UnShift(x, k), k) == x
  {
    var s, t := Shr(x, k), Shr(x, k + k);
    ShiftedOut(x, k);
    XorShr(x, s, k);
    XorShr(Xor(x, s), t, k);
    XorZero(Xor(s, t));
    XorAssoc(x, s, t);
    XorTwice(x, Xor(s, t));
  }

  /** Nothing is left of a word after three shifts. */
  lemma ShiftedOut(x: u64, k: nat)
    requires 64 <= 3 * k
    ensures Shr(Shr(x, k), k) == Shr(x, k + k)
    ensures Shr(Shr(x, k + k), k) == 0 && Shr(Shr(x, k), k + k) == 0
  {
    ShrShr(x, k, k);
    ShrShr(x, k + k, k);
    ShrShr(x, k, k + k);
    Pow2Constants();
    if 64 < k + k + k { Pow2Less(64, k + k + k); }
    ShrSmall(x, k + k + k);
  }

  lemma ShiftInverse(x: u64, k: nat)
    requires 64 <= 3 * k
    ensures UnShift(XorShift(x, k), k) == x && XorShift(UnShift(x, k), k) == x
  {
    ShiftUndone(x, k);
    ShiftRedone(x, k);
  }

  // ----- What a shift does

  /** A digit changes exactly where the digit `k` places above it is a one. */
  lemma XorShiftDigits(x: u64, k: nat, i: nat)
    ensures Digit(XorShift(x, k), i) != Digit(x, i) <==> Digit(x, k + i) == 1
  {
    XorDigit(x, Shr(x, k), i);
    ShrShr(x, k, i);
  }

  /** The top `k` digits are kept. */
  lemma XorShiftTop(x: u64, k: nat)
    requires k <= 64
    ensures Shr(XorShift(x, k), 64 - k) == Shr(x, 64 - k)
  {
    XorShr(x, Shr(x, k), 64 - k);
    ShrShr(x, k, 64 - k);
    Pow2Constants();
    ShrSmall(x, 64);
    XorZero(Shr(x, 64 - k));
  }

  /** Only words of at most `k` digits stay as they are. */
  lemma XorShiftFixed(x: u64, k: nat)
    ensures XorShift(x, k) == x <==> x < Pow2(k)
  {
    XorIsZero(x, Shr(x, k));
    if x < Pow2(k) {
      ShrSmall(x, k);
    } else if Shr(x, k) == 0 {
      ShrDiv(x, k);
    }
  }

  lemma FactorsInverse(x: u64)
    ensures OverA(TimesA(x)) == x && TimesA(OverA(x)) == x
    ensures OverB(TimesB(x)) == x && TimesB(OverB(x)) == x
  {
    FactorInverse(x, 0xbf58476d1ce4e5b9, 0x96de1b173f119089, 0x70c3bca78f27f46c);
    FactorInverse(x, 0x96de1b173f119089, 0xbf58476d1ce4e5b9, 0x70c3bca78f27f46c);
    FactorInverse(x, 0x94d049bb133111eb, 0x319642b2d24d8ec3, 0x1cd336eda85f1453);
    FactorInverse(x, 0x319642b2d24d8ec3, 0x94d049bb133111eb, 0x1cd336eda85f1453);
  }

  /** Factors whose product is one more than a multiple of 2^64 are inverses. */
  lemma FactorInverse(x: u64, c: int, d: int, k: int)
    requires c * d == 1 + k * 0x1_0000_0000_0000_0000
    ensures U64(U64(x * c) * d) == x
  {
    var q := x * c / 0x1_0000_0000_0000_0000;
    assert U64(x * c) == x * c - q * 0x1_0000_0000_0000_0000;
    assert (x * c - q * 0x1_0000_0000_0000_0000) * d == x * (c * d) - (q * d) * 0x1_0000_0000_0000_0000;
    assert x * (c * d) == x + (x * k) * 0x1_0000_0000_0000_0000;
    U64Plus(x, x * k - q * d);
  }

  lemma StepsInverse(x: u64)
    ensures UnShift(XorShift(x, 30), 30) == x && XorShift(UnShift(x, 30), 30) == x
    ensures UnShift(XorShift(x, 27), 27) == x && XorShift(UnShift(x, 27), 27) == x
    ensures UnShift(XorShift(x, 31), 31) == x && XorShift(UnShift(x, 31), 31) == x
    ensures OverA(TimesA(x)) == x && TimesA(OverA(x)) == x
    ensures OverB(TimesB(x)) == x && TimesB(OverB(x)) == x
  {
    ShiftInverse(x, 30);
    ShiftInverse(x, 27);
    ShiftInverse(x, 31);
    FactorsInverse(x);
  }

  lemma UnmixMix(x: u64)
    ensures Unmix(Mix(x)) == x
  {
    var a := TimesA(XorShift(x, 30));
    var b := TimesB(XorShift(a, 27));
    StepsInverse(b);
    StepsInverse(XorShift(a, 27));
    StepsInverse(a);
    StepsInverse(XorShift(x, 30));
    StepsInverse(x);
  }

  lemma MixUnmix(x: u64)
    ensures Mix(Unmix(x)) == x
  {
    var b := OverB(UnShift(x, 31));
    var a := OverA(UnShift(b, 27));
    StepsInverse(a);
    StepsInverse(UnShift(b, 27));
    StepsInverse(b);
    StepsInverse(UnShift(x, 31));
    StepsInverse(x);
  }

  /** hash_fp is a bijection of 64-bit words. */
  lemma MixBijective(x: u64, y: u64)
    ensures Unmix(Mix(x)) == x && Mix(Unmix(x)) == x
    ensures Mix(x) == Mix(y) <==> x == y
  {
    UnmixMix(x);
    UnmixMix(y);
    MixUnmix(x);
  }
}
