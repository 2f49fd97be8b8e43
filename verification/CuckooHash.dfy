/** The hash functions of a cuckoo filter, and why they are lawful. */
module CuckooHash {
  import opened Bits
  import opened CuckooTable
  import Fnv
  import HashFp

  /** The array alt_hashes. */
  type AltTable = t: seq<u32> | |t| == 256 witness seq(256, _ => 0)

  /** `x & masks[power]`: the low digits of a word. An index that is in bounds is kept. */
  function Masked(x: nat, power: nat): (i: nat)
    ensures i == x % Pow2(power) && i < Pow2(power)
    ensures x < Pow2(power) ==> i == x
  {
    AndMask(x, power);
    if x < Pow2(power) then DivUnique(x, Pow2(power), 0, x); And(x, Pow2(power) - 1) else And(x, Pow2(power) - 1)
  }

  /** The finalized hash in the range 1 to 255. */
  function Fingerprint(key: Key): (f: u8)
    ensures 1 <= f <= 255
  {
    HashFp.Mix(Fnv.Fnv32a(key, Fnv.FNV1_32_INIT)) % 255 + 1
  }

  /** index_and_fingerprint: every first index is in bounds, and every fingerprint is between 1 and 255. The
      index before the mask is a shift that the language does not define, so it is some function `raw` of
      the key. */
  function IndexAndFingerprint(raw: Key -> u32, key: Key, power: nat): (r: IndexFP)
    ensures r.index == raw(key) % Pow2(power) && r.index < Pow2(power) && 1 <= r.fp <= 255
  {
    IndexFP(Masked(raw(key), power), Fingerprint(key))
  }

  /** alt_index */
  function AltIndex(alts: AltTable, f: u8, i: nat, power: nat): nat {
    Xor(Masked(i, power), Masked(alts[f], power))
  }

  /** Every alternate index is in bounds, and the alternate of the alternate is the index itself. */
  lemma AltInvolution(alts: AltTable, f: u8, i: nat, power: nat)
    requires i < Pow2(power)
    ensures AltIndex(alts, f, i, power) < Pow2(power)
    ensures AltIndex(alts, f, AltIndex(alts, f, i, power), power) == i
  {
    var g := Masked(alts[f], power);
    XorBound(i, g, power);
    XorTwice(i, g);
  }

  /** A digit of the alternate index differs exactly where the word of the fingerprint has a one. */
  lemma AltDigits(alts: AltTable, f: u8, i: nat, power: nat, d: nat)
    requires i < Pow2(power) && d < power
    ensures Digit(AltIndex(alts, f, i, power), d) != Digit(i, d) <==> Digit(alts[f], d) == 1
  {
    XorDigit(i, Masked(alts[f], power), d);
    ModDigit(alts[f], power, d);
  }

  /** The two buckets of a fingerprint are one exactly when its word has no ones among the digits of an index. */
  lemma AltFixed(alts: AltTable, f: u8, i: nat, power: nat)
    requires i < Pow2(power)
    ensures AltIndex(alts, f, i, power) == i <==> alts[f] % Pow2(power) == 0
  {
    XorIsZero(i, Masked(alts[f], power));
  }

  /** Two fingerprints share alternates exactly when their words agree in the digits of an index. */
  lemma AltShared(alts: AltTable, f: u8, e: u8, i: nat, power: nat)
    requires i < Pow2(power)
    ensures
      AltIndex(alts, f, i, power) == AltIndex(alts, e, i, power) <==>
        alts[f] % Pow2(power) == alts[e] % Pow2(power)
  {
    XorInjective(i, Masked(alts[f], power), Masked(alts[e], power));
  }

  lemma SameParity(x: int, y: int, z: int)
    requires x == y + 2 * z
    ensures x % 2 == y % 2
  {
  }

  lemma MulParity(h: u32)
    ensures Fnv.Mul32(h) % 2 == h % 2
  {
    var q := h * 0x01000193 / 0x1_0000_0000;
    SameParity(Fnv.Mul32(h), h, h * 0x0080_00c9 - q * 0x8000_0000);
  }

  lemma StepParity(h: u32, f: u8)
    ensures Fnv.Step32a(h, f) % 2 == (h + f) % 2
  {
    XorHalf(h, f);
    MulParity(Fnv.Xor32(h, f));
  }

  /** The FNV-1a hash of one octet, from an odd state such as the initial one, is odd for the even octets. */
  lemma OctetParity(h: u32, f: u8)
    requires h % 2 == 1
    ensures Fnv.Fnv32a([f], h) % 2 == (f + 1) % 2 && Fnv.FNV1_32_INIT % 2 == 1
  {
    var x := Fnv.Fnv32a([f], h);
    assert x == Fnv.Step32a(h, f) by { Fnv.Fnv32One(f, h); }
    StepParity(h, f);
  }

  /** A fingerprint whose word is odd, as `init` makes it for the even ones, has two buckets in a filter of
      more than one. */
  lemma OddHasTwo(alts: AltTable, f: u8, i: nat, power: nat)
    requires alts[f] % 2 == 1 && power > 0 && i < Pow2(power)
    ensures AltIndex(alts, f, i, power) != i
  {
    AltDigits(alts, f, i, power, 0);
  }

  /** The fingerprint is what is left modulo 255 of the word that the finalizer makes of the FNV-1a hash. */
  lemma FingerprintFrom(key: Key) returns (x: u64)
    ensures HashFp.Unmix(x) == Fnv.Fnv32a(key, Fnv.FNV1_32_INIT)
    ensures x % 255 == Fingerprint(key) - 1
  {
    x := HashFp.Mix(Fnv.Fnv32a(key, Fnv.FNV1_32_INIT));
    HashFp.MixBijective(Fnv.Fnv32a(key, Fnv.FNV1_32_INIT), 0);
  }

  function CodeGeometry(power: nat, alts: AltTable, raw: Key -> u32): Geometry {
    Geometry(power, key => IndexAndFingerprint(raw, key, power), (f, i) => AltIndex(alts, f, i, power))
  }

  /** The functions of util.h keep the laws, whatever alt_hashes holds and whatever the index is taken from. */
  lemma CodeLawful(power: nat, alts: AltTable, raw: Key -> u32)
    ensures CodeGeometry(power, alts, raw).Lawful()
  {
    var g := CodeGeometry(power, alts, raw);
    forall f: u8, i: nat | i < g.Size()
      ensures g.Paired(f, i)
    {
      AltInvolution(alts, f, i, power);
    }
    forall key: Key
      ensures g.Hashed(key)
    {
      assert g.hash(key) == IndexAndFingerprint(raw, key, power);
    }
  }
}
