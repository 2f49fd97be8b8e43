/** The FNV-1 and FNV-1a hashes, as the shift-and-add loops compute them. */
module Fnv {
  import opened Bits

  // ----- Folding a buffer

  /** The state after all octets, the first one first. */
  function Fold<W>(step: (W, u8) -> W, buf: seq<u8>, h: W): W {
    if buf == [] then h else Fold(step, buf[1..], step(h, buf[0]))
  }

  lemma {:induction false} FoldConcat<W>(step: (W, u8) -> W, a: seq<u8>, b: seq<u8>, h: W)
    ensures Fold(step, a + b, h) == Fold(step, b, Fold(step, a, h))
    decreases |a|
  {
    if a == [] {
      assert a + b == b;
    } else {
      assert (a + b)[1..] == a[1..] + b && (a + b)[0] == a[0];
      FoldConcat(step, a[1..], b, step(h, a[0]));
    }
  }

  /** The octets undone, the last one first. */
  function Unfold<W>(back: (W, u8) -> W, buf: seq<u8>, h: W): W {
    if buf == [] then h else back(Unfold(back, buf[1..], h), buf[0])
  }

  /** A step that can be undone gives a fold that can be undone, in both directions. */
  lemma {:induction false} FoldBijective<W(!new)>(step: (W, u8) -> W, back: (W, u8) -> W, buf: seq<u8>, h: W)
    requires forall x: W, b: u8 :: back(step(x, b), b) == x
    requires forall x: W, b: u8 :: step(back(x, b), b) == x
    ensures Unfold(back, buf, Fold(step, buf, h)) == h
    ensures Fold(step, buf, Unfold(back, buf, h)) == h
    decreases |buf|
  {
    if buf != [] {
      FoldBijective(step, back, buf[1..], step(h, buf[0]));
      FoldBijective(step, back, buf[1..], h);
      assert step(back(Unfold(back, buf[1..], h), buf[0]), buf[0]) == Unfold(back, buf[1..], h);
    }
  }

  /** Steps that `m` carries over into each other give folds that it carries over. */
  lemma {:induction false} FoldConjugate<W(!new)>(s: (W, u8) -> W, t: (W, u8) -> W, m: W -> W, buf: seq<u8>, h: W)
    requires forall x: W, b: u8 :: m(s(x, b)) == t(m(x), b)
    ensures m(Fold(s, buf, h)) == Fold(t, buf, m(h))
    decreases |buf|
  {
    if buf != [] {
      FoldConjugate(s, t, m, buf[1..], s(h, buf[0]));
      assert m(s(h, buf[0])) == t(m(h), buf[0]);
    }
  }

  /** The string in a buffer: what comes before the first NUL. */
  function Text(s: seq<u8>): (t: seq<u8>)
    ensures |t| <= |s| && t == s[..|t|]
    ensures 0 !in t && (|t| < |s| ==> s[|t|] == 0)
  {
    if s == [] || s[0] == 0 then [] else [s[0]] + Text(s[1..])
  }

  lemma OctetDigits(o: u8, i: nat)
    ensures i >= 8 ==> Digit(o, i) == 0
  {
    if i >= 8 {
      var k := 8;
      assert Pow2(k) == 0x100 by { Pow2Constants(); }
      if k < i { Pow2Less(k, i); }
      ShrSmall(o, i);
    }
  }

  // ----- 32 bits

  const FNV1_32_INIT: u32 := 0x811c9dc5

  /** Multiplication by the 32-bit FNV prime modulo 2^32. */
  function Mul32(h: u32): u32 {
    U32(h * 0x01000193)
  }

  /** Multiplication by the inverse of the prime modulo 2^32. */
  function Div32(h: u32): u32 {
    U32(h * 0x359c449b)
  }

  /** The multiplication as the loops do it: shifts by the bits of the prime, added up. */
  function ShiftAdd32(h: u32): u32 {
    U32(h + (U32(h * 0x2) + U32(h * 0x10) + U32(h * 0x80) + U32(h * 0x100) + U32(h * 0x1000000)))
  }

  /** The fast form is the simple one. */
  lemma ShiftAddIsMul32(h: u32)
    ensures ShiftAdd32(h) == Mul32(h)
  {
    var n := 0x1_0000_0000;
    var carries := h * 0x2 / n + h * 0x10 / n + h * 0x80 / n + h * 0x100 / n + h * 0x1000000 / n;
    assert h + (U32(h * 0x2) + U32(h * 0x10) + U32(h * 0x80) + U32(h * 0x100) + U32(h * 0x1000000))
        == h * 0x01000193 + (-carries) * n;
    U32Plus(h * 0x01000193, -carries);
  }

  lemma PrimeInverse32(h: u32)
    ensures Div32(Mul32(h)) == h && Mul32(Div32(h)) == h
  {
    // prime * inverse == 1 + 0x359c99 * 2^32
    var m := h * 0x359c99 - h * 0x01000193 / 0x1_0000_0000 * 0x359c449b;
    assert Mul32(h) * 0x359c449b == h + m * 0x1_0000_0000;
    U32Plus(h, m);
    var d := h * 0x359c99 - h * 0x359c449b / 0x1_0000_0000 * 0x01000193;
    assert Div32(h) * 0x01000193 == h + d * 0x1_0000_0000;
    U32Plus(h, d);
  }

  function Xor32(h: u32, octet: u8): u32 {
    Pow2Constants();
    XorBound(h, octet, 32);
    Xor(h, octet)
  }

  function Step32(h: u32, octet: u8): u32 {
    Xor32(Mul32(h), octet)
  }

  function Step32a(h: u32, octet: u8): u32 {
    Mul32(Xor32(h, octet))
  }

  function Back32(h: u32, octet: u8): u32 {
    Div32(Xor32(h, octet))
  }

  function Back32a(h: u32, octet: u8): u32 {
    Xor32(Div32(h), octet)
  }

  /** FNV-1: multiply, then xor. */
  function Fnv32(buf: seq<u8>, h: u32): u32 {
    Fold(Step32, buf, h)
  }

  /** FNV-1a: xor, then multiply. */
  function Fnv32a(buf: seq<u8>, h: u32): u32 {
    Fold(Step32a, buf, h)
  }

  lemma StepsBack32(h: u32, b: u8)
    ensures Back32(Step32(h, b), b) == h && Step32(Back32(h, b), b) == h
    ensures Back32a(Step32a(h, b), b) == h && Step32a(Back32a(h, b), b) == h
  {
    PrimeInverse32(h);
    PrimeInverse32(Xor32(h, b));
    XorTwice(h, b);
    XorTwice(Mul32(h), b);
    XorTwice(Div32(h), b);
  }

  /** One octet more at the end of a buffer. */
  lemma Fnv32Snoc(buf: seq<u8>, o: u8, h: u32)
    ensures Fnv32(buf + [o], h) == Step32(Fnv32(buf, h), o)
    ensures Fnv32a(buf + [o], h) == Step32a(Fnv32a(buf, h), o)
  {
    FoldConcat(Step32, buf, [o], h);
    FoldConcat(Step32a, buf, [o], h);
  }

  lemma Fnv32One(o: u8, h: u32)
    ensures Fnv32a([o], h) == Step32a(h, o)
  {
    Fnv32Snoc([], o, h);
    assert [] + [o] == [o];
  }

  /** A buffer that differs in its last octet only has another hash: no octet is overlooked. */
  lemma Fnv32LastOctet(buf: seq<u8>, a: u8, b: u8, h: u32)
    ensures Fnv32(buf + [a], h) == Fnv32(buf + [b], h) <==> a == b
    ensures Fnv32a(buf + [a], h) == Fnv32a(buf + [b], h) <==> a == b
  {
    Fnv32Snoc(buf, a, h);
    Fnv32Snoc(buf, b, h);
    XorInjective(Mul32(Fnv32(buf, h)), a, b);
    XorInjective(Fnv32a(buf, h), a, b);
    PrimeInverse32(Xor32(Fnv32a(buf, h), a));
    PrimeInverse32(Xor32(Fnv32a(buf, h), b));
  }

  /** The last octet of FNV-1 changes a digit, of the eight lowest, exactly where it has a one. */
  lemma Fnv32LastDigits(buf: seq<u8>, o: u8, h: u32, i: nat)
    ensures Digit(Fnv32(buf + [o], h), i) != Digit(Fnv32(buf + [0], h), i) <==> Digit(o, i) == 1
    ensures i >= 8 ==> Digit(o, i) == 0
  {
    Fnv32Snoc(buf, o, h);
    Fnv32Snoc(buf, 0, h);
    XorZero(Mul32(Fnv32(buf, h)));
    XorDigit(Mul32(Fnv32(buf, h)), o, i);
    OctetDigits(o, i);
  }

  /** For every buffer, the hash is a bijection of the incoming state. */
  lemma Fnv32Bijective(buf: seq<u8>, h: u32)
    ensures Unfold(Back32, buf, Fnv32(buf, h)) == h && Fnv32(buf, Unfold(Back32, buf, h)) == h
    ensures Unfold(Back32a, buf, Fnv32a(buf, h)) == h && Fnv32a(buf, Unfold(Back32a, buf, h)) == h
  {
    forall x: u32, b: u8
      ensures Back32(Step32(x, b), b) == x && Step32(Back32(x, b), b) == x
      ensures Back32a(Step32a(x, b), b) == x && Step32a(Back32a(x, b), b) == x
    {
      StepsBack32(x, b);
    }
    FoldBijective(Step32, Back32, buf, h);
    FoldBijective(Step32a, Back32a, buf, h);
  }

  /** Distinct states never merge, whatever follows. */
  lemma Fnv32Injective(buf: seq<u8>, g: u32, h: u32)
    ensures Fnv32(buf, g) == Fnv32(buf, h) <==> g == h
    ensures Fnv32a(buf, g) == Fnv32a(buf, h) <==> g == h
  {
    Fnv32Bijective(buf, g);
    Fnv32Bijective(buf, h);
  }

  /** Multiplication by the prime turns FNV-1 into FNV-1a. */
  lemma Fnv32Conjugate(buf: seq<u8>, h: u32)
    ensures Mul32(Fnv32(buf, h)) == Fnv32a(buf, Mul32(h))
  {
    FoldConjugate(Step32, Step32a, Mul32, buf, h);
  }

  /** A hash can be continued from where an earlier buffer left it. */
  lemma Fnv32Concat(a: seq<u8>, b: seq<u8>, h: u32)
    ensures Fnv32(a + b, h) == Fnv32(b, Fnv32(a, h)) && Fnv32a(a + b, h) == Fnv32a(b, Fnv32a(a, h))
  {
    FoldConcat(Step32, a, b, h);
    FoldConcat(Step32a, a, b, h);
  }

  /** fnv_32_buf */
  method Fnv32Buf(buf: array<u8>, len: nat, h: u32) returns (hval: u32)
    requires len <= buf.Length
    ensures hval == Fnv32(buf[..len], h)
  {
    hval := h;
    var i := 0;
    while i < len
      invariant 0 <= i <= len
      invariant Fnv32(buf[..len][i..], hval) == Fnv32(buf[..len], h)
    {
      ShiftAddIsMul32(hval);
      hval := ShiftAdd32(hval);
      hval := Xor32(hval, buf[i]);
      assert buf[..len][i..][1..] == buf[..len][i + 1..];
      i := i + 1;
    }
  }

  /** fnv_32_str: the buffer of a string ends with a NUL. */
  method Fnv32Str(str: array<u8>, h: u32) returns (hval: u32)
    requires exists i :: 0 <= i < str.Length && str[i] == 0
    ensures hval == Fnv32(Text(str[..]), h)
  {
    ghost var text := Text(str[..]);
    assert |text| < str.Length;
    hval := h;
    var i := 0;
    while str[i] != 0
      invariant 0 <= i <= |text|
      invariant Fnv32(text[i..], hval) == Fnv32(text, h)
      decreases |text| - i
    {
      assert i < |text|;
      ShiftAddIsMul32(hval);
      hval := ShiftAdd32(hval);
      hval := Xor32(hval, str[i]);
      assert text[i..][1..] == text[i + 1..];
      i := i + 1;
    }
    assert i == |text|;
  }

  /** fnv_32a_buf */
  method Fnv32aBuf(buf: array<u8>, len: nat, h: u32) returns (hval: u32)
    requires len <= buf.Length
    ensures hval == Fnv32a(buf[..len], h)
  {
    hval := h;
    var i := 0;
    while i < len
      invariant 0 <= i <= len
      invariant Fnv32a(buf[..len][i..], hval) == Fnv32a(buf[..len], h)
    {
      hval := Xor32(hval, buf[i]);
      ShiftAddIsMul32(hval);
      hval := ShiftAdd32(hval);
      assert buf[..len][i..][1..] == buf[..len][i + 1..];
      i := i + 1;
    }
  }

  /** fnv_32a_str: the buffer of a string ends with a NUL. */
  method Fnv32aStr(str: array<u8>, h: u32) returns (hval: u32)
    requires exists i :: 0 <= i < str.Length && str[i] == 0
    ensures hval == Fnv32a(Text(str[..]), h)
  {
    ghost var text := Text(str[..]);
    assert |text| < str.Length;
    hval := h;
    var i := 0;
    while str[i] != 0
      invariant 0 <= i <= |text|
      invariant Fnv32a(text[i..], hval) == Fnv32a(text, h)
      decreases |text| - i
    {
      assert i < |text|;
      hval := Xor32(hval, str[i]);
      ShiftAddIsMul32(hval);
      hval := ShiftAdd32(hval);
      assert text[i..][1..] == text[i + 1..];
      i := i + 1;
    }
    assert i == |text|;
  }

  // ----- 64 bits

  /** Multiplication by the 64-bit FNV prime modulo 2^64. */
  function Mul64(h: u64): u64 {
    U64(h * 0x100000001b3)
  }

  /** Multiplication by the inverse of the prime modulo 2^64. */
  function Div64(h: u64): u64 {
    U64(h * 0xce965057aff6957b)
  }

  /** The multiplication as the loops do it: shifts by the bits of the prime, added up. */
  function ShiftAdd64(h: u64): u64 {
    U64(h + (U64(h * 0x2) + U64(h * 0x10) + U64(h * 0x20) + U64(h * 0x80) + U64(h * 0x100) + U64(h * 0x10000000000)))
  }

  /** The fast form is the simple one. */
  lemma ShiftAddIsMul64(h: u64)
    ensures ShiftAdd64(h) == Mul64(h)
  {
    var n := 0x1_0000_0000_0000_0000;
    var carries := h * 0x2 / n + h * 0x10 / n + h * 0x20 / n + h * 0x80 / n + h * 0x100 / n + h * 0x10000000000 / n;
    assert h + (U64(h * 0x2) + U64(h * 0x10) + U64(h * 0x20) + U64(h * 0x80) + U64(h * 0x100) + U64(h * 0x10000000000))
        == h * 0x100000001b3 + (-carries) * n;
    U64Plus(h * 0x100000001b3, -carries);
  }

  lemma PrimeInverse64(h: u64)
    ensures Div64(Mul64(h)) == h && Mul64(Div64(h)) == h
  {
    // prime * inverse == 1 + 0xce9650590f * 2^64
    var m := h * 0xce9650590f - h * 0x100000001b3 / 0x1_0000_0000_0000_0000 * 0xce965057aff6957b;
    assert Mul64(h) * 0xce965057aff6957b == h + m * 0x1_0000_0000_0000_0000;
    U64Plus(h, m);
    var d := h * 0xce9650590f - h * 0xce965057aff6957b / 0x1_0000_0000_0000_0000 * 0x100000001b3;
    assert Div64(h) * 0x100000001b3 == h + d * 0x1_0000_0000_0000_0000;
    U64Plus(h, d);
  }

  function Xor64(h: u64, octet: u8): u64 {
    Pow2Constants();
    XorBound(h, octet, 64);
    Xor(h, octet)
  }

  function Step64(h: u64, octet: u8): u64 {
    Xor64(Mul64(h), octet)
  }

  function Step64a(h: u64, octet: u8): u64 {
    Mul64(Xor64(h, octet))
  }

  function Back64(h: u64, octet: u8): u64 {
    Div64(Xor64(h, octet))
  }

  function Back64a(h: u64, octet: u8): u64 {
    Xor64(Div64(h), octet)
  }

  /** FNV-1: multiply, then xor. */
  function Fnv64(buf: seq<u8>, h: u64): u64 {
    Fold(Step64, buf, h)
  }

  /** FNV-1a: xor, then multiply. */
  function Fnv64a(buf: seq<u8>, h: u64): u64 {
    Fold(Step64a, buf, h)
  }

  lemma StepsBack64(h: u64, b: u8)
    ensures Back64(Step64(h, b), b) == h && Step64(Back64(h, b), b) == h
    ensures Back64a(Step64a(h, b), b) == h && Step64a(Back64a(h, b), b) == h
  {
    PrimeInverse64(h);
    PrimeInverse64(Xor64(h, b));
    XorTwice(h, b);
    XorTwice(Mul64(h), b);
    XorTwice(Div64(h), b);
  }

  /** One octet more at the end of a buffer. */
  lemma Fnv64Snoc(buf: seq<u8>, o: u8, h: u64)
    ensures Fnv64(buf + [o], h) == Step64(Fnv64(buf, h), o)
    ensures Fnv64a(buf + [o], h) == Step64a(Fnv64a(buf, h), o)
  {
    FoldConcat(Step64, buf, [o], h);
    FoldConcat(Step64a, buf, [o], h);
  }

  /** A buffer that differs in its last octet only has another hash: no octet is overlooked. */
  lemma Fnv64LastOctet(buf: seq<u8>, a: u8, b: u8, h: u64)
    ensures Fnv64(buf + [a], h) == Fnv64(buf + [b], h) <==> a == b
    ensures Fnv64a(buf + [a], h) == Fnv64a(buf + [b], h) <==> a == b
  {
    Fnv64Snoc(buf, a, h);
    Fnv64Snoc(buf, b, h);
    XorInjective(Mul64(Fnv64(buf, h)), a, b);
    XorInjective(Fnv64a(buf, h), a, b);
    PrimeInverse64(Xor64(Fnv64a(buf, h), a));
    PrimeInverse64(Xor64(Fnv64a(buf, h), b));
  }

  /** The last octet of FNV-1 changes a digit, of the eight lowest, exactly where it has a one. */
  lemma Fnv64LastDigits(buf: seq<u8>, o: u8, h: u64, i: nat)
    ensures Digit(Fnv64(buf + [o], h), i) != Digit(Fnv64(buf + [0], h), i) <==> Digit(o, i) == 1
    ensures i >= 8 ==> Digit(o, i) == 0
  {
    Fnv64Snoc(buf, o, h);
    Fnv64Snoc(buf, 0, h);
    XorZero(Mul64(Fnv64(buf, h)));
    XorDigit(Mul64(Fnv64(buf, h)), o, i);
    OctetDigits(o, i);
  }

  /** For every buffer, the hash is a bijection of the incoming state. */
  lemma Fnv64Bijective(buf: seq<u8>, h: u64)
    ensures Unfold(Back64, buf, Fnv64(buf, h)) == h && Fnv64(buf, Unfold(Back64, buf, h)) == h
    ensures Unfold(Back64a, buf, Fnv64a(buf, h)) == h && Fnv64a(buf, Unfold(Back64a, buf, h)) == h
  {
    forall x: u64, b: u8
      ensures Back64(Step64(x, b), b) == x && Step64(Back64(x, b), b) == x
      ensures Back64a(Step64a(x, b), b) == x && Step64a(Back64a(x, b), b) == x
    {
      StepsBack64(x, b);
    }
    FoldBijective(Step64, Back64, buf, h);
    FoldBijective(Step64a, Back64a, buf, h);
  }

  /** Distinct states never merge, whatever follows. */
  lemma Fnv64Injective(buf: seq<u8>, g: u64, h: u64)
    ensures Fnv64(buf, g) == Fnv64(buf, h) <==> g == h
    ensures Fnv64a(buf, g) == Fnv64a(buf, h) <==> g == h
  {
    Fnv64Bijective(buf, g);
    Fnv64Bijective(buf, h);
  }

  /** Multiplication by the prime turns FNV-1 into FNV-1a. */
  lemma Fnv64Conjugate(buf: seq<u8>, h: u64)
    ensures Mul64(Fnv64(buf, h)) == Fnv64a(buf, Mul64(h))
  {
    FoldConjugate(Step64, Step64a, Mul64, buf, h);
  }

  /** A hash can be continued from where an earlier buffer left it. */
  lemma Fnv64Concat(a: seq<u8>, b: seq<u8>, h: u64)
    ensures Fnv64(a + b, h) == Fnv64(b, Fnv64(a, h)) && Fnv64a(a + b, h) == Fnv64a(b, Fnv64a(a, h))
  {
    FoldConcat(Step64, a, b, h);
    FoldConcat(Step64a, a, b, h);
  }

  /** fnv_64_buf */
  method Fnv64Buf(buf: array<u8>, len: nat, h: u64) returns (hval: u64)
    requires len <= buf.Length
    ensures hval == Fnv64(buf[..len], h)
  {
    hval := h;
    var i := 0;
    while i < len
      invariant 0 <= i <= len
      invariant Fnv64(buf[..len][i..], hval) == Fnv64(buf[..len], h)
    {
      ShiftAddIsMul64(hval);
      hval := ShiftAdd64(hval);
      hval := Xor64(hval, buf[i]);
      assert buf[..len][i..][1..] == buf[..len][i + 1..];
      i := i + 1;
    }
  }

  /** fnv_64_str: the buffer of a string ends with a NUL. */
  method Fnv64Str(str: array<u8>, h: u64) returns (hval: u64)
    requires exists i :: 0 <= i < str.Length && str[i] == 0
    ensures hval == Fnv64(Text(str[..]), h)
  {
    ghost var text := Text(str[..]);
    assert |text| < str.Length;
    hval := h;
    var i := 0;
    while str[i] != 0
      invariant 0 <= i <= |text|
      invariant Fnv64(text[i..], hval) == Fnv64(text, h)
      decreases |text| - i
    {
      assert i < |text|;
      ShiftAddIsMul64(hval);
      hval := ShiftAdd64(hval);
      hval := Xor64(hval, str[i]);
      assert text[i..][1..] == text[i + 1..];
      i := i + 1;
    }
    assert i == |text|;
  }

  /** fnv_64a_buf */
  method Fnv64aBuf(buf: array<u8>, len: nat, h: u64) returns (hval: u64)
    requires len <= buf.Length
    ensures hval == Fnv64a(buf[..len], h)
  {
    hval := h;
    var i := 0;
    while i < len
      invariant 0 <= i <= len
      invariant Fnv64a(buf[..len][i..], hval) == Fnv64a(buf[..len], h)
    {
      hval := Xor64(hval, buf[i]);
      ShiftAddIsMul64(hval);
      hval := ShiftAdd64(hval);
      assert buf[..len][i..][1..] == buf[..len][i + 1..];
      i := i + 1;
    }
  }

  /** fnv_64a_str: the buffer of a string ends with a NUL. */
  method Fnv64aStr(str: array<u8>, h: u64) returns (hval: u64)
    requires exists i :: 0 <= i < str.Length && str[i] == 0
    ensures hval == Fnv64a(Text(str[..]), h)
  {
    ghost var text := Text(str[..]);
    assert |text| < str.Length;
    hval := h;
    var i := 0;
    while str[i] != 0
      invariant 0 <= i <= |text|
      invariant Fnv64a(text[i..], hval) == Fnv64a(text, h)
      decreases |text| - i
    {
      assert i < |text|;
      hval := Xor64(hval, str[i]);
      ShiftAddIsMul64(hval);
      hval := ShiftAdd64(hval);
      assert text[i..][1..] == text[i + 1..];
      i := i + 1;
    }
    assert i == |text|;
  }
}
