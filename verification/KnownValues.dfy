/** Values of the hash functions that their definitions fix: they pin constants, orders and initial values. */
module KnownValues {
  import opened Bits
  import Fnv
  import HashFp

  // ----- Exclusive or of given words, octet by octet

  lemma Halves(a: bv8)
    ensures (a as nat) / 2 == (a >> 1) as nat && (a as nat) % 2 == (a & 1) as nat
  {
  }

  lemma HalvesOfXor(a: bv8, b: bv8)
    ensures (a ^ b) >> 1 == (a >> 1) ^ (b >> 1) && (a ^ b) & 1 == (a & 1) ^ (b & 1)
    ensures ((a & 1) ^ (b & 1)) as nat == if (a & 1) as nat != (b & 1) as nat then 1 else 0
  {
  }

  lemma OctetHalves(a: bv8, b: bv8)
    ensures (a as nat) / 2 == (a >> 1) as nat && (b as nat) / 2 == (b >> 1) as nat
    ensures ((a ^ b) as nat) / 2 == ((a >> 1) ^ (b >> 1)) as nat
    ensures ((a ^ b) as nat) % 2 == if (a as nat) % 2 != (b as nat) % 2 then 1 else 0
  {
    Halves(a);
    Halves(b);
    Halves(a ^ b);
    HalvesOfXor(a, b);
  }

  lemma XorFromHalves(x: nat, y: nat, z: nat)
    requires z / 2 == Xor(x / 2, y / 2) && z % 2 == if x % 2 != y % 2 then 1 else 0
    ensures Xor(x, y) == z
  {
    XorHalf(x, y);
  }

  /** On octets, `Xor` is the operator of the machine. */
  lemma {:induction false} XorOctets(a: bv8, b: bv8)
    ensures Xor(a as nat, b as nat) == (a ^ b) as nat
    decreases a as nat
  {
    if a == 0 {
      assert a ^ b == b;
    } else {
      Halves(a);
      XorOctets(a >> 1, b >> 1);
      OctetHalves(a, b);
      XorFromHalves(a as nat, b as nat, (a ^ b) as nat);
    }
  }

  /** One octet more. */
  lemma Append8(x: nat, y: nat, z: nat, c: bv8, d: bv8) returns (x': nat, y': nat, z': nat)
    requires Xor(x, y) == z
    ensures x' == 0x100 * x + c as nat && y' == 0x100 * y + d as nat && z' == 0x100 * z + (c ^ d) as nat
    ensures Xor(x', y') == z'
  {
    var k := 8;
    assert Pow2(k) == 0x100 by { Pow2Constants(); }
    x', y', z' := 0x100 * x + c as nat, 0x100 * y + d as nat, 0x100 * z + (c ^ d) as nat;
    XorOctets(c, d);
    XorParts(x', y', x, y, c as nat, d as nat, k);
  }

  /** The operator of the machine in terms of numbers. */
  lemma OctetXor(c: bv8, d: bv8) returns (a: u8, b: u8, x: u8)
    ensures a == c as nat && b == d as nat && x == (c ^ d) as nat
    ensures Xor(a, b) == x
  {
    a, b, x := c as nat, d as nat, (c ^ d) as nat;
    XorOctets(c, d);
  }

  // ----- FNV

  /** chongo <Landon Curt Noll> /\../\ */
  function Signature(): seq<u8> {
    [ 0x63, 0x68, 0x6f, 0x6e, 0x67, 0x6f, 0x20, 0x3c,
      0x4c, 0x61, 0x6e, 0x64, 0x6f, 0x6e, 0x20, 0x43,
      0x75, 0x72, 0x74, 0x20, 0x4e, 0x6f, 0x6c, 0x6c,
      0x3e, 0x20, 0x2f, 0x5c, 0x2e, 0x2e, 0x2f, 0x5c ]
  }

  /** One octet more: the state `h` times the prime is 0x100 * u + c, less a multiple of 2^32. */
  lemma Next32(b: seq<u8>, h: u32, q: nat, u: nat, c: bv8, o: bv8) returns (b': seq<u8>)
    requires Fnv.Fnv32(b, 0) == h
    requires h * 0x1000193 == q * 0x1_0000_0000 + 0x100 * u + c as nat && 0x100 * u + c as nat < 0x1_0000_0000
    ensures b' == b + [o as nat] && Fnv.Fnv32(b', 0) == 0x100 * u + (c ^ o) as nat
  {
    b' := b + [o as nat];
    Fnv.Fnv32Snoc(b, o as nat, 0);
    var v, a, x := OctetXor(c, o);
    Product32(h, q, 0x100 * u + v);
    XorLow(u, v, a);
    StepOf32(h, 0x100 * u + v, a, 0x100 * u + x);
  }

  lemma StepOf32(h: u32, m: u32, o: u8, y: nat)
    requires Fnv.Mul32(h) == m && Xor(m, o) == y
    ensures Fnv.Step32(h, o) == y
  {
  }

  lemma Product32(h: u32, q: nat, m: u32)
    requires h * 0x1000193 == q * 0x1_0000_0000 + m
    ensures Fnv.Mul32(h) == m
  {
    DivUnique(h * 0x1000193, 0x1_0000_0000, q, m);
  }

  lemma Signature32Part0(b: seq<u8>) returns (b': seq<u8>)
    requires Fnv.Fnv32(b, 0) == 0x0
    ensures b' == b + [0x63, 0x68, 0x6f, 0x6e, 0x67, 0x6f, 0x20, 0x3c] && Fnv.Fnv32(b', 0) == 0x8b8ae088
  {
    b' := b;
    b' := Next32(b', 0x0, 0x0, 0x0, 0x00, 0x63);
    b' := Next32(b', 0x63, 0x0, 0x63009b, 0xd9, 0x68);
    b' := Next32(b', 0x63009bb1, 0x630137, 0x8af517, 0xa3, 0x6f);
    b' := Next32(b', 0x8af517cc, 0x8af5f2, 0x8bd476, 0x24, 0x6e);
    b' := Next32(b', 0x8bd4764a, 0x8bd552, 0x697636, 0x7e, 0x67);
    b' := Next32(b', 0x69763619, 0x6976dc, 0x1e1729, 0x5b, 0x6f);
    b' := Next32(b', 0x1e172934, 0x1e1758, 0x9275dc, 0xdc, 0x20);
    b' := Next32(b', 0x9275dcfc, 0x9276c3, 0x8b8ae0, 0xb4, 0x3c);
  }

  lemma Signature32Part1(b: seq<u8>) returns (b': seq<u8>)
    requires Fnv.Fnv32(b, 0) == 0x8b8ae088
    ensures b' == b + [0x4c, 0x61, 0x6e, 0x64, 0x6f, 0x6e, 0x20, 0x43] && Fnv.Fnv32(b', 0) == 0xbd3906bb
  {
    b' := b;
    b' := Next32(b', 0x8b8ae088, 0x8b8bbc, 0x339f76, 0x18, 0x4c);
    b' := Next32(b', 0x339f7654, 0x339fc7, 0x980746, 0x3c, 0x61);
    b' := Next32(b', 0x9807465d, 0x980835, 0xb073c4, 0x67, 0x6e);
    b' := Next32(b', 0xb073c409, 0xb074d9, 0xcf3d9a, 0x2b, 0x64);
    b' := Next32(b', 0xcf3d9a4f, 0xcf3ee0, 0x8cf9ea, 0x5d, 0x6f);
    b' := Next32(b', 0x8cf9ea32, 0x8cfac8, 0x1f6bac, 0xb6, 0x6e);
    b' := Next32(b', 0x1f6bacd8, 0x1f6bde, 0x4e8118, 0x08, 0x20);
    b' := Next32(b', 0x4e811828, 0x4e8193, 0xbd3906, 0xf8, 0x43);
  }

  lemma Signature32Part2(b: seq<u8>) returns (b': seq<u8>)
    requires Fnv.Fnv32(b, 0) == 0xbd3906bb
    ensures b' == b + [0x75, 0x72, 0x74, 0x20, 0x4e, 0x6f, 0x6c, 0x6c] && Fnv.Fnv32(b', 0) == 0x3f4f5eaf
  {
    b' := b;
    b' := Next32(b', 0xbd3906bb, 0xbd3a30, 0x9bc598, 0x61, 0x75);
    b' := Next32(b', 0x9bc59814, 0x9bc68d, 0x4c0e67, 0x7c, 0x72);
    b' := Next32(b', 0x4c0e670e, 0x4c0ede, 0xc8ac3b, 0x0a, 0x74);
    b' := Next32(b', 0xc8ac3b7e, 0xc8ad77, 0x6521a7, 0x5a, 0x20);
    b' := Next32(b', 0x6521a77a, 0x652246, 0xadfaa5, 0x0e, 0x4e);
    b' := Next32(b', 0xadfaa540, 0xadfbb7, 0x219223, 0xc0, 0x6f);
    b' := Next32(b', 0x219223af, 0x219258, 0x880e2c, 0x7d, 0x6c);
    b' := Next32(b', 0x880e2c11, 0x880f02, 0x3f4f5e, 0xc3, 0x6c);
  }

  lemma Signature32Part3(b: seq<u8>) returns (b': seq<u8>)
    requires Fnv.Fnv32(b, 0) == 0x3f4f5eaf
    ensures b' == b + [0x3e, 0x20, 0x2f, 0x5c, 0x2e, 0x2e, 0x2f, 0x5c] && Fnv.Fnv32(b', 0) == 0x811c9dc5
  {
    b' := b;
    b' := Next32(b', 0x3f4f5eaf, 0x3f4fc2, 0x58f20d, 0x7d, 0x3e);
    b' := Next32(b', 0x58f20d43, 0x58f299, 0x480ae0, 0x79, 0x20);
    b' := Next32(b', 0x480ae059, 0x480b51, 0xc21f2c, 0x1b, 0x2f);
    b' := Next32(b', 0xc21f2c34, 0xc2205d, 0xcb1295, 0xdc, 0x5c);
    b' := Next32(b', 0xcb129580, 0xcb13d5, 0x2e4158, 0x80, 0x2e);
    b' := Next32(b', 0x2e4158ae, 0x2e41a1, 0x7ede99, 0xea, 0x2e);
    b' := Next32(b', 0x7ede99c4, 0x7edf61, 0x7c6c0f, 0x8c, 0x2f);
    b' := Next32(b', 0x7c6c0fa3, 0x7c6cd3, 0x811c9d, 0x99, 0x5c);
  }

  /** The 32-bit FNV-1 hash of the signature from state 0 is the initial value of the other hashes. */
  lemma Signature32()
    ensures Fnv.Fnv32(Signature(), 0) == 0x811c9dc5 == Fnv.FNV1_32_INIT
  {
    var b := Signature32Part0([]);
    b := Signature32Part1(b);
    b := Signature32Part2(b);
    b := Signature32Part3(b);
    assert b == Signature();
  }

  /** One octet more: the state `h` times the prime is 0x100 * u + c, less a multiple of 2^64. */
  lemma Next64(b: seq<u8>, h: u64, q: nat, u: nat, c: bv8, o: bv8) returns (b': seq<u8>)
    requires Fnv.Fnv64(b, 0) == h
    requires h * 0x100000001b3 == q * 0x1_0000_0000_0000_0000 + 0x100 * u + c as nat
    requires 0x100 * u + c as nat < 0x1_0000_0000_0000_0000
    ensures b' == b + [o as nat] && Fnv.Fnv64(b', 0) == 0x100 * u + (c ^ o) as nat
  {
    b' := b + [o as nat];
    Fnv.Fnv64Snoc(b, o as nat, 0);
    var v, a, x := OctetXor(c, o);
    Product64(h, q, 0x100 * u + v);
    XorLow(u, v, a);
    StepOf64(h, 0x100 * u + v, a, 0x100 * u + x);
  }

  lemma StepOf64(h: u64, m: u64, o: u8, y: nat)
    requires Fnv.Mul64(h) == m && Xor(m, o) == y
    ensures Fnv.Step64(h, o) == y
  {
  }

  lemma Product64(h: u64, q: nat, m: u64)
    requires h * 0x100000001b3 == q * 0x1_0000_0000_0000_0000 + m
    ensures Fnv.Mul64(h) == m
  {
    DivUnique(h * 0x100000001b3, 0x1_0000_0000_0000_0000, q, m);
  }

  lemma Signature64Part0(b: seq<u8>) returns (b': seq<u8>)
    requires Fnv.Fnv64(b, 0) == 0x0
    ensures b' == b + [0x63, 0x68, 0x6f, 0x6e, 0x67, 0x6f, 0x20, 0x3c] && Fnv.Fnv64(b', 0) == 0xae6be54f5606fc28
  {
    b' := b;
    b' := Next64(b', 0x0, 0x0, 0x0, 0x00, 0x63);
    b' := Next64(b', 0x63, 0x0, 0x63000000a8, 0x39, 0x68);
    b' := Next64(b', 0x63000000a851, 0x630000, 0x1508a00011e01, 0xa3, 0x6f);
    b' := Next64(b', 0x1508a00011e01cc, 0x1508a0003, 0x59dc4a01e5fd0d, 0xa4, 0x6e);
    b' := Next64(b', 0x59dc4a01e5fd0dca, 0x59dc4a027e, 0xae5f8b39ccfe6e, 0x3e, 0x67);
    b' := Next64(b', 0xae5f8b39ccfe6e59, 0xae5f8b3af5, 0x4ac7ec37545581, 0x3b, 0x6f);
    b' := Next64(b', 0x4ac7ec3754558154, 0x4ac7ec37d3, 0x6737b6044d4ac1, 0xbc, 0x20);
    b' := Next64(b', 0x6737b6044d4ac19c, 0x6737b604fc, 0xae6be54f5606fc, 0x14, 0x3c);
  }

  lemma Signature64Part1(b: seq<u8>) returns (b': seq<u8>)
    requires Fnv.Fnv64(b, 0) == 0xae6be54f5606fc28
    ensures b' == b + [0x4c, 0x61, 0x6e, 0x64, 0x6f, 0x6e, 0x20, 0x43] && Fnv.Fnv64(b', 0) == 0x2bb0f8de7b8ac83b
  {
    b' := b;
    b' := Next64(b', 0xae6be54f5606fc28, 0xae6be5507e, 0x6852cdcf2dde77, 0xf8, 0x4c);
    b' := Next64(b', 0x6852cdcf2dde77b4, 0x6852cdcfdf, 0x232b6b0af10566, 0xdc, 0x61);
    b' := Next64(b', 0x232b6b0af10566bd, 0x232b6b0b2c, 0xc82da0978c2d93, 0x27, 0x6e);
    b' := Next64(b', 0xc82da0978c2d9349, 0xc82da098e0, 0x531b2a83317145, 0x0b, 0x64);
    b' := Next64(b', 0x531b2a833171456f, 0x531b2a83be, 0xa86eabed0378fb, 0x9d, 0x6f);
    b' := Next64(b', 0xa86eabed0378fbf2, 0xa86eabee21, 0xad0a15bce6941c, 0x36, 0x6e);
    b' := Next64(b', 0xad0a15bce6941c58, 0xad0a15be0c, 0x9c3f47fbcdac29, 0x88, 0x20);
    b' := Next64(b', 0x9c3f47fbcdac29a8, 0x9c3f47fcd7, 0x2bb0f8de7b8ac8, 0x78, 0x43);
  }

  lemma Signature64Part2(b: seq<u8>) returns (b': seq<u8>)
    requires Fnv.Fnv64(b, 0) == 0x2bb0f8de7b8ac83b
    ensures b' == b + [0x75, 0x72, 0x74, 0x20, 0x4e, 0x6f, 0x6c, 0x6c] && Fnv.Fnv64(b', 0) == 0x1d223e4501e8284f
  {
    b' := b;
    b' := Next64(b', 0x2bb0f8de7b8ac83b, 0x2bb0f8dec5, 0xc87f1d0becd23c, 0x41, 0x75);
    b' := Next64(b', 0xc87f1d0becd23c34, 0xc87f1d0d41, 0x823a8f43693c4c, 0x5c, 0x72);
    b' := Next64(b', 0x823a8f43693c4c2e, 0x823a8f4446, 0x85cd9d8bd17572, 0x2a, 0x74);
    b' := Next64(b', 0x85cd9d8bd175725e, 0x85cd9d8cb4, 0xd1d51294ea9155, 0xba, 0x20);
    b' := Next64(b', 0xd1d51294ea91559a, 0xd1d512964f, 0x1e642d0a94f474, 0xae, 0x4e);
    b' := Next64(b', 0x1e642d0a94f474e0, 0x1e642d0ac8, 0x98ad68fb1b6298, 0xa0, 0x6f);
    b' := Next64(b', 0x98ad68fb1b6298cf, 0x98ad68fc1e, 0xd14231af8889a7, 0xbd, 0x6c);
    b' := Next64(b', 0xd14231af8889a7d1, 0xd14231b0ec, 0x1d223e4501e828, 0x23, 0x6c);
  }

  lemma Signature64Part3(b: seq<u8>) returns (b': seq<u8>)
    requires Fnv.Fnv64(b, 0) == 0x1d223e4501e8284f
    ensures b' == b + [0x3e, 0x20, 0x2f, 0x5c, 0x2e, 0x2e, 0x2f, 0x5c] && Fnv.Fnv64(b', 0) == 0xcbf29ce484222325
  {
    b' := b;
    b' := Next64(b', 0x1d223e4501e8284f, 0x1d223e4533, 0x69581e423d7c7e, 0x3d, 0x3e);
    b' := Next64(b', 0x69581e423d7c7e03, 0x69581e42f0, 0x7d396d8e7a8a1f, 0x19, 0x20);
    b' := Next64(b', 0x7d396d8e7a8a1f39, 0x7d396d8f4f, 0x52b4621a38b30d, 0xdb, 0x2f);
    b' := Next64(b', 0x52b4621a38b30df4, 0x52b4621ac5, 0x3b90a68e5840b5, 0x9c, 0x5c);
    b' := Next64(b', 0x3b90a68e5840b5c0, 0x3b90a68ebd, 0x7780c3dff5f4d5, 0x40, 0x2e);
    b' := Next64(b', 0x7780c3dff5f4d56e, 0x7780c3e0c1, 0x4a2438eef06a9, 0xea, 0x2e);
    b' := Next64(b', 0x4a2438eef06a9c4, 0x4a2438ef6, 0xe6628fe0285278, 0x0c, 0x2f);
    b' := Next64(b', 0xe6628fe028527823, 0xe6628fe1af, 0xcbf29ce4842223, 0x79, 0x5c);
  }

  /** The 64-bit FNV-1 hash of the signature from state 0 is the initial value of the other hashes. */
  lemma Signature64()
    ensures Fnv.Fnv64(Signature(), 0) == 0xcbf29ce484222325
  {
    var b := Signature64Part0([]);
    b := Signature64Part1(b);
    b := Signature64Part2(b);
    b := Signature64Part3(b);
    assert b == Signature();
  }

  // ----- hash_fp

  lemma Shifted(x: nat, k: nat, q: nat, r: nat)
    requires x == Pow2(k) * q + r && r < Pow2(k)
    ensures Shr(x, k) == q
  {
    ShrDiv(x, k);
    DivUnique(x, Pow2(k), q, r);
  }

  lemma FinalizerXor27(x: u64, s: nat, y: u64)
    requires x == 0xbf58476d1ce4e5b9 && s == 0x17eb08eda3 && y == 0xbf58477af7ec081a
    ensures Xor(x, s) == y
  {
    var p: nat, q: nat, r: nat := 0, 0, 0;
    p, q, r := Append8(p, q, r, 0xbf, 0x00);
    p, q, r := Append8(p, q, r, 0x58, 0x00);
    p, q, r := Append8(p, q, r, 0x47, 0x00);
    p, q, r := Append8(p, q, r, 0x6d, 0x17);
    p, q, r := Append8(p, q, r, 0x1c, 0xeb);
    p, q, r := Append8(p, q, r, 0xe4, 0x08);
    p, q, r := Append8(p, q, r, 0xe5, 0xed);
    p, q, r := Append8(p, q, r, 0xb9, 0xa3);
  }

  lemma FinalizerXor31(x: u64, s: nat, y: u64)
    requires x == 0x5692161dbd2f29de && s == 0xad242c3b && y == 0x5692161d100b05e5
    ensures Xor(x, s) == y
  {
    var p: nat, q: nat, r: nat := 0, 0, 0;
    p, q, r := Append8(p, q, r, 0x56, 0x00);
    p, q, r := Append8(p, q, r, 0x92, 0x00);
    p, q, r := Append8(p, q, r, 0x16, 0x00);
    p, q, r := Append8(p, q, r, 0x1d, 0x00);
    p, q, r := Append8(p, q, r, 0xbd, 0xad);
    p, q, r := Append8(p, q, r, 0x2f, 0x24);
    p, q, r := Append8(p, q, r, 0x29, 0x2c);
    p, q, r := Append8(p, q, r, 0xde, 0x3b);
  }

  lemma FinalizerShifts()
    ensures Shr(1, 30) == 0 && Shr(0xbf58476d1ce4e5b9, 27) == 0x17eb08eda3 && Shr(0x5692161dbd2f29de, 31) == 0xad242c3b
  {
    var j, k, l := 30, 27, 31;
    assert Pow2(k) == 0x800_0000 && Pow2(j) == 0x4000_0000 && Pow2(l) == 0x8000_0000 by { FinalizerPowers(); }
    Shifted(1, j, 0, 1);
    Shifted(0xbf58476d1ce4e5b9, k, 0x17eb08eda3, 0x4e4e5b9);
    Shifted(0x5692161dbd2f29de, l, 0xad242c3b, 0x3d2f29de);
  }

  lemma FinalizerPowers()
    ensures Pow2(27) == 0x800_0000 && Pow2(30) == 0x4000_0000 && Pow2(31) == 0x8000_0000
  {
    Pow2Constants();
    Pow2Add(16, 11);
    Pow2Add(16, 14);
  }

  lemma FinalizerProducts(x: u64, y: u64)
    requires x == 1 && y == 0xbf58477af7ec081a
    ensures HashFp.TimesA(x) == 0xbf58476d1ce4e5b9 && HashFp.TimesB(y) == 0x5692161dbd2f29de
  {
    var n := 0x1_0000_0000_0000_0000;
    DivUnique(0xbf58476d1ce4e5b9, n, 0, 0xbf58476d1ce4e5b9);
    DivUnique(0xbf58477af7ec081a * 0x94d049bb133111eb, n, 0x6f3ab8292b746693, 0x5692161dbd2f29de);
  }

  lemma XorShiftIs(x: u64, k: nat, s: nat, y: u64)
    requires Shr(x, k) == s && Xor(x, s) == y
    ensures HashFp.XorShift(x, k) == y
  {
  }

  lemma MixIs(x: u64, a: u64, b: u64, c: u64, d: u64, y: u64)
    requires HashFp.XorShift(x, 30) == a && HashFp.TimesA(a) == b
    requires HashFp.XorShift(b, 27) == c && HashFp.TimesB(c) == d && HashFp.XorShift(d, 31) == y
    ensures HashFp.Mix(x) == y
  {
  }

  /** The finalizer with its shifts, its factors and their order. */
  lemma FinalizerOfOne()
    ensures HashFp.Mix(1) == 0x5692161d100b05e5
  {
    var one: u64, a: u64, b: u64 := 1, 0xbf58476d1ce4e5b9, 0xbf58477af7ec081a;
    var c: u64, d: u64 := 0x5692161dbd2f29de, 0x5692161d100b05e5;
    FinalizerShifts();
    FinalizerProducts(one, b);
    FinalizerXor27(a, 0x17eb08eda3, b);
    FinalizerXor31(c, 0xad242c3b, d);
    XorZero(one);
    XorShiftIs(one, 30, 0, one);
    XorShiftIs(a, 27, 0x17eb08eda3, b);
    XorShiftIs(c, 31, 0xad242c3b, d);
    MixIs(one, one, a, b, c, d);
  }
}
