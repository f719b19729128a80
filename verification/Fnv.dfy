/**
 * FNV-1a on 128 bits, native and portable.  The portable form multiplies two
 * pairs of 64-bit words by 32-bit limbs; every word operation wraps.
 */
module Fnv {
  import opened Basics
  import opened Endian

  const TWO32: nat := 0x1_0000_0000
  const TWO128: nat := 0x1_0000_0000_0000_0000_0000_0000_0000_0000

  datatype Pair = Pair(hi: uint64, lo: uint64)

  function ValueOf(p: Pair): (n: nat)
    ensures n < TWO128
  {
    p.hi * TWO64 + p.lo
  }

  const PRIME := Pair(16777216, 315)
  const INIT := Pair(7809847782465536322, 7113472399480571277)

  /** The partial products of the limbs, by the power of 2^32 they stand for. */
  function C96(v: Pair, f: Pair): (c: nat) {
    Mul(v.hi / TWO32, f.lo % TWO32) + Mul(v.hi % TWO32, f.lo / TWO32)
      + Mul(v.lo / TWO32, f.hi % TWO32) + Mul(v.lo % TWO32, f.hi / TWO32)
  }

  function C64(v: Pair, f: Pair): (c: nat) {
    Mul(v.hi % TWO32, f.lo % TWO32) + Mul(v.lo / TWO32, f.lo / TWO32) + Mul(v.lo % TWO32, f.hi % TWO32)
  }

  function Mid1(a: uint64, b: uint64): (t: nat)
    ensures t < TWO64
  {
    LimbProduct(a / TWO32, b % TWO32);
    Mul(a / TWO32, b % TWO32)
  }

  function Mid2(a: uint64, b: uint64): (t: nat)
    ensures t < TWO64
  {
    LimbProduct(a % TWO32, b / TWO32);
    Mul(a % TWO32, b / TWO32)
  }

  function Low(a: uint64, b: uint64): (t: nat)
    ensures t < TWO64
  {
    LimbProduct(a % TWO32, b % TWO32);
    Mul(a % TWO32, b % TWO32)
  }

  /** The two shifted middle products overflow the low word when added. */
  predicate LosesCarry(a: uint64, b: uint64) {
    Mid1(a, b) % TWO32 + Mid2(a, b) % TWO32 >= TWO32
  }

  // ---------------------------------------------------------------- limbs

  lemma Expand(x1: nat, x0: nat, y1: nat, y0: nat)
    ensures (x1 * TWO32 + x0) * (y1 * TWO32 + y0)
         == x1 * y1 * TWO64 + (x1 * y0 + x0 * y1) * TWO32 + x0 * y0
  {
    var y := y1 * TWO32 + y0;
    assert (x1 * TWO32 + x0) * y == x1 * y * TWO32 + x0 * y;
    assert x1 * y == x1 * y1 * TWO32 + x1 * y0;
    assert x0 * y == x0 * y1 * TWO32 + x0 * y0;
  }

  lemma ExpandWords(ah: nat, al: nat, bh: nat, bl: nat)
    ensures (ah * TWO64 + al) * (bh * TWO64 + bl)
         == ah * bh * TWO128 + (ah * bl + al * bh) * TWO64 + al * bl
  {
    var b := bh * TWO64 + bl;
    assert (ah * TWO64 + al) * b == ah * b * TWO64 + al * b;
    assert ah * b == ah * bh * TWO64 + ah * bl;
    assert al * b == al * bh * TWO64 + al * bl;
  }

  /** A product of limbs; it fits a word. */
  function Mul(a: nat, b: nat): (p: nat) {
    a * b
  }

  lemma MulLe(a: nat, b: nat, c: nat)
    requires b <= c
    ensures a * b <= a * c
  {
  }

  lemma LimbProduct(a: nat, b: nat)
    requires a < TWO32 && b < TWO32
    ensures Mul(a, b) < TWO64
  {
    MulLe(a, b, TWO32);
  }

  /** Collecting the expanded products by powers of 2^32. */
  lemma Collect(p: nat, hh: nat, hl: nat, lh: nat, ll: nat,
                x: nat, x1: nat, x0: nat, y: nat, y1: nat, y0: nat, z: nat, z1: nat, z0: nat)
    requires p == hh * TWO128 + (hl + lh) * TWO64 + ll
    requires hl == x * TWO64 + x1 * TWO32 + x0
    requires lh == y * TWO64 + y1 * TWO32 + y0
    requires ll == z * TWO64 + z1 * TWO32 + z0
    ensures p == (hh + x + y) * TWO128 + ((x1 + y1) * TWO32 + (x0 + z + y0)) * TWO64 + z1 * TWO32 + z0
  {
  }

  /** The full product, up to multiples of 2^128, from the limbs the code multiplies. */
  lemma ProductByLimbs(v: Pair, f: Pair) returns (over: nat)
    ensures ValueOf(v) * ValueOf(f)
         == over * TWO128 + (C96(v, f) * TWO32 + C64(v, f)) * TWO64
            + (Mid1(v.lo, f.lo) + Mid2(v.lo, f.lo)) * TWO32 + Low(v.lo, f.lo)
  {
    var a96, a64, a32, a00 := v.hi / TWO32, v.hi % TWO32, v.lo / TWO32, v.lo % TWO32;
    var b96, b64, b32, b00 := f.hi / TWO32, f.hi % TWO32, f.lo / TWO32, f.lo % TWO32;
    var p := ValueOf(v) * ValueOf(f);
    var hh, hl, lh, ll := Mul(v.hi, f.hi), Mul(v.hi, f.lo), Mul(v.lo, f.hi), Mul(v.lo, f.lo);
    assert p == hh * TWO128 + (hl + lh) * TWO64 + ll by {
      ExpandWords(v.hi, v.lo, f.hi, f.lo);
    }
    ExpandMul(v.hi, f.lo);
    ExpandMul(v.lo, f.hi);
    ExpandMul(v.lo, f.lo);
    hide Mul, ValueOf;
    over := hh + Mul(a96, b32) + Mul(a32, b96);
    Collect(p, hh, hl, lh, ll,
            Mul(a96, b32), Mul(a96, b00) + Mul(a64, b32), Mul(a64, b00),
            Mul(a32, b96), Mul(a32, b64) + Mul(a00, b96), Mul(a00, b64),
            Mul(a32, b32), Mul(a32, b00) + Mul(a00, b32), Mul(a00, b00));
  }

  lemma ExpandMul(x: nat, y: nat)
    ensures Mul(x, y) == Mul(x / TWO32, y / TWO32) * TWO64
                       + (Mul(x / TWO32, y % TWO32) + Mul(x % TWO32, y / TWO32)) * TWO32
                       + Mul(x % TWO32, y % TWO32)
  {
    var x1, x0, y1, y0 := x / TWO32, x % TWO32, y / TWO32, y % TWO32;
    Expand(x1, x0, y1, y0);
    assert x == x1 * TWO32 + x0 && y == y1 * TWO32 + y0;
  }

  /** The low word, and the carry that the code sees. */
  lemma LowWord(t1: nat, t2: nat, t3: nat)
    requires t1 < TWO64 && t2 < TWO64 && t3 < TWO64
    ensures var lo1 := t1 * TWO32 % TWO64;
            var lo2 := (lo1 + t2 * TWO32 % TWO64) % TWO64;
            var lo3 := (lo2 + t3) % TWO64;
            var lost := if t1 % TWO32 + t2 % TWO32 >= TWO32 then 1 else 0;
            var carry := if lo3 < lo2 then 1 else 0;
            (t1 + t2) * TWO32 + t3 == (t1 / TWO32 + t2 / TWO32 + lost + carry) * TWO64 + lo3
  {
    assert t1 * TWO32 % TWO64 == (t1 % TWO32) * TWO32;
    assert t2 * TWO32 % TWO64 == (t2 % TWO32) * TWO32;
  }

  lemma SameResidue(p: nat, over: nat, s: nat, lo: nat, lost: nat)
    requires p == over * TWO128 + (s + lost) * TWO64 + lo && lo < TWO64 && lost <= 1
    ensures var v := (s % TWO64) * TWO64 + lo;
            && (v + lost * TWO64) % TWO128 == p % TWO128
            && (v == p % TWO128 <==> lost == 0)
  {
    assert s == (s / TWO64) * TWO64 + s % TWO64;
    var v := (s % TWO64) * TWO64 + lo;
    assert p == (over + s / TWO64) * TWO128 + v + lost * TWO64;
    assert v < TWO128;
    ResidueOf(p, over + s / TWO64, v + lost * TWO64);
  }

  lemma ResidueOf(p: nat, q: nat, r: nat)
    requires p == q * TWO128 + r
    ensures p % TWO128 == r % TWO128
  {
  }

  // ---------------------------------------------------------------- FNV-1a

  function Xor8(a: byte, b: byte): (r: byte) {
    (a as bv8 ^ b as bv8) as byte
  }

  /** `h ^ b`: only the low eight bits can change. */
  function XorByte(h: nat, b: byte): (r: nat)
    ensures r / 256 == h / 256 && r % 256 == Xor8((h % 256) as byte, b) as nat
  {
    h / 256 * 256 + Xor8((h % 256) as byte, b) as nat
  }

  /** The FNV-1a step on 128 bits. */
  function Fnv1a(h: nat, data: seq<byte>): (r: nat)
    requires h < TWO128
    ensures r < TWO128
  {
    if data == [] then h
    else XorByte(Fnv1a(h, data[..|data| - 1]), data[|data| - 1]) * ValueOf(PRIME) % TWO128
  }

  /** The published parameters of 128-bit FNV: the prime is 2^88 + 2^8 + 0x3b. */
  lemma Parameters()
    ensures ValueOf(PRIME) == 0x100_0000_0000_0000_0000_0000 + 0x13b
    ensures ValueOf(INIT) == 0x6c62_272e_07bb_0142_62b8_2175_6295_c58d
  {
  }

  /** Its published value for the one-byte input "a". */
  lemma HashOfA()
    ensures Fnv1a(ValueOf(INIT), [0x61]) == 0xd228_cb69_6f1a_8caf_7891_2b70_4e4a_8964
  {
    hide XorByte;
    var h := ValueOf(INIT);
    assert [0x61 as byte][..0] == [];
    assert Fnv1a(h, []) == h;
    XorOfA();
    Parameters();
    hide ValueOf;
    assert 0x6c62_272e_07bb_0142_62b8_2175_6295_c5ec * (0x100_0000_0000_0000_0000_0000 + 0x13b)
      == 0x6c_6227_2e07_bb01_4262_b8a6 * TWO128 + 0xd228_cb69_6f1a_8caf_7891_2b70_4e4a_8964;
  }

  /** The letter "a" in the low byte of each offset basis. */
  lemma XorOfA()
    ensures XorByte(0xcbf2_9ce4_8422_2325, 0x61) == 0xcbf2_9ce4_8422_2344
    ensures XorByte(0x6c62_272e_07bb_0142_62b8_2175_6295_c58d, 0x61) == 0x6c62_272e_07bb_0142_62b8_2175_6295_c5ec
  {
    LowBytes();
    hide Xor8;
  }

  lemma LowBytes()
    ensures Xor8(0x25, 0x61) == 0x44 && Xor8(0x8d, 0x61) == 0xec
  {
  }

  lemma {:induction false} Fnv1aConcat(h: nat, d: seq<byte>, e: seq<byte>)
    requires h < TWO128
    ensures Fnv1a(h, d + e) == Fnv1a(Fnv1a(h, d), e)
  {
    if e == [] {
      assert d + e == d;
    } else {
      Fnv1aConcat(h, d, e[..|e| - 1]);
      assert (d + e)[..|d + e| - 1] == d + e[..|e| - 1];
    }
  }

  lemma XorInLowWord(p: Pair, b: byte)
    ensures XorByte(p.lo, b) < TWO64
    ensures XorByte(ValueOf(p), b) == p.hi * TWO64 + XorByte(p.lo, b)
  {
    assert ValueOf(p) % 256 == p.lo % 256;
    assert ValueOf(p) / 256 == p.hi * (TWO64 / 256) + p.lo / 256;
  }

  /** The 128-bit accumulator of the portable form. */
  class Accumulator {
    var hi: uint64
    var lo: uint64

    constructor (p: Pair)
      ensures Words() == p
    {
      hi, lo := p.hi, p.lo;
    }

    ghost function Words(): (p: Pair)
      reads this
    {
      Pair(hi, lo)
    }

    /**
     * uint128_times: the product modulo 2^128 less 2^64 where a carry is lost,
     * so the product exactly when none is.
     */
    method Times(f: Pair)
      modifies this
      ensures var p := ValueOf(old(Words())) * ValueOf(f);
              var lost := if LosesCarry(old(lo), f.lo) then TWO64 else 0;
              && (ValueOf(Words()) + lost) % TWO128 == p % TWO128
              && (ValueOf(Words()) == p % TWO128 <==> !LosesCarry(old(lo), f.lo))
    {
      hide Mul, ValueOf, C96, C64, Mid1, Mid2, Low;
      ghost var v := Words();
      var c96, c64, tmp1, tmp2, tmp3 := PartialProducts(f);
      AddPartials(c96, c64, tmp1, tmp2, tmp3);
      hide HiOf, LoOf;
      FromWords(v, f, Words());
    }

    /** The wrapping additions of uint128_times. */
    method AddPartials(c96: uint64, c64: uint64, t1: uint64, t2: uint64, t3: uint64)
      modifies this
      ensures hi == HiOf(c96, c64, t1, t2, t3) && lo == LoOf(t1, t2, t3)
    {
      hide Add64, Shl32;
      hi := Add64(Shl32(c96), c64);
      lo := 0;
      hi := Add64(hi, t1 / TWO32);
      lo := Add64(lo, Shl32(t1));
      hi := Add64(hi, t2 / TWO32);
      lo := Add64(lo, Shl32(t2));
      var lolo := Add64(lo, t3);
      if lolo < lo {
        hi := Add64(hi, 1);
      }
      lo := lolo;
    }

    /** The word-wide sums of limb products that uint128_times works with. */
    method PartialProducts(f: Pair) returns (c96: uint64, c64: uint64, t1: uint64, t2: uint64, t3: uint64)
      ensures c96 == C96(Words(), f) % TWO64 && c64 == C64(Words(), f) % TWO64
      ensures t1 == Mid1(lo, f.lo) && t2 == Mid2(lo, f.lo) && t3 == Low(lo, f.lo)
    {
      hide Mul;
      var a96, a64, a32, a00 := hi / TWO32, hi % TWO32, lo / TWO32, lo % TWO32;
      var b96, b64, b32, b00 := f.hi / TWO32, f.hi % TWO32, f.lo / TWO32, f.lo % TWO32;
      c96 := (Mul(a96, b00) + Mul(a64, b32) + Mul(a32, b64) + Mul(a00, b96)) % TWO64;
      c64 := (Mul(a64, b00) + Mul(a32, b32) + Mul(a00, b64)) % TWO64;
      LimbProduct(a32, b00);
      LimbProduct(a00, b32);
      LimbProduct(a00, b00);
      t1, t2, t3 := Mul(a32, b00), Mul(a00, b32), Mul(a00, b00);
    }
  }

  /** Word operations, which wrap. */
  function Add64(a: nat, b: nat): (w: uint64) {
    (a + b) % TWO64
  }

  function Shl32(a: nat): (w: uint64) {
    a * TWO32 % TWO64
  }

  /** The low word before the last addition, the low word, and the high word of the result. */
  function Lo2(t1: nat, t2: nat): (w: uint64) {
    Add64(Add64(0, Shl32(t1)), Shl32(t2))
  }

  function LoOf(t1: nat, t2: nat, t3: nat): (w: uint64) {
    Add64(Lo2(t1, t2), t3)
  }

  /** The carry the code sees: the last addition wrapped. */
  function Carry(t1: nat, t2: nat, t3: nat): (c: nat) {
    if LoOf(t1, t2, t3) < Lo2(t1, t2) then 1 else 0
  }

  function HiOf(c96: nat, c64: nat, t1: nat, t2: nat, t3: nat): (w: uint64) {
    var h := Add64(Add64(Add64(Shl32(c96), c64), t1 / TWO32), t2 / TWO32);
    if LoOf(t1, t2, t3) < Lo2(t1, t2) then Add64(h, 1) else h
  }

  /** What the wrapped words amount to. */
  lemma WordsAmountTo(p: nat, over: nat, c96: nat, c64: nat, t1: nat, t2: nat, t3: nat)
    requires t1 < TWO64 && t2 < TWO64 && t3 < TWO64
    requires p == over * TWO128 + (c96 * TWO32 + c64) * TWO64 + (t1 + t2) * TWO32 + t3
    ensures var v := HiOf(c96 % TWO64, c64 % TWO64, t1, t2, t3) * TWO64 + LoOf(t1, t2, t3);
            var lost := t1 % TWO32 + t2 % TWO32 >= TWO32;
            && (v + if lost then TWO64 else 0) % TWO128 == p % TWO128
            && (v == p % TWO128 <==> !lost)
  {
    hide HiOf, LoOf;
    var carry := Carry(t1, t2, t3);
    HighWordIs(c96, c64, t1, t2, t3);
    LowWordIs(t1, t2, t3);
    hide Carry;
    var s := c96 * TWO32 + c64 + t1 / TWO32 + t2 / TWO32 + carry;
    var lost := if t1 % TWO32 + t2 % TWO32 >= TWO32 then 1 else 0;
    SameResidue(p, over, s, LoOf(t1, t2, t3), lost);
  }

  lemma Wrapped(x: nat, y: nat)
    ensures (x % TWO64 + y) % TWO64 == (x + y) % TWO64
  {
  }

  lemma AddWraps(a: nat, x: nat, b: nat)
    requires a == x % TWO64
    ensures Add64(a, b) == (x + b) % TWO64
  {
  }

  lemma HighWordIs(c96: nat, c64: nat, t1: nat, t2: nat, t3: nat)
    ensures HiOf(c96 % TWO64, c64 % TWO64, t1, t2, t3)
         == (c96 * TWO32 + c64 + t1 / TWO32 + t2 / TWO32 + Carry(t1, t2, t3)) % TWO64
  {
    hide Add64, Carry, Shl32, LoOf, Lo2;
    var h1, h2 := t1 / TWO32, t2 / TWO32;
    var x := c96 * TWO32 + c64;
    var w1 := Add64(Shl32(c96 % TWO64), c64 % TWO64);
    FirstSum(c96, c64);
    AddWraps(w1, x, h1);
    AddWraps(Add64(w1, h1), x + h1, h2);
    AddWraps(Add64(Add64(w1, h1), h2), x + h1 + h2, 1);
    CarryIs(t1, t2, t3);
  }

  lemma ShlWraps(c: nat)
    ensures Shl32(c % TWO64) == c * TWO32 % TWO64
  {
    var q, r := c / TWO64, c % TWO64;
    assert c == q * TWO64 + r;
    MultipleOf(q * TWO32, r * TWO32);
  }

  lemma MultipleOf(k: nat, r: nat)
    ensures (k * TWO64 + r) % TWO64 == r % TWO64
  {
  }

  lemma FirstSum(c96: nat, c64: nat)
    ensures Add64(Shl32(c96 % TWO64), c64 % TWO64) == (c96 * TWO32 + c64) % TWO64
  {
    hide Shl32;
    ShlWraps(c96);
    var x := c96 * TWO32;
    AddWraps(Shl32(c96 % TWO64), x, c64 % TWO64);
    Wrapped(c64, x);
  }

  lemma CarryIs(t1: nat, t2: nat, t3: nat)
    ensures Carry(t1, t2, t3) == if LoOf(t1, t2, t3) < Lo2(t1, t2) then 1 else 0
  {
    hide LoOf, Lo2;
  }

  lemma LowWordIs(t1: nat, t2: nat, t3: nat)
    requires t1 < TWO64 && t2 < TWO64 && t3 < TWO64
    ensures var lost := if t1 % TWO32 + t2 % TWO32 >= TWO32 then 1 else 0;
            (t1 + t2) * TWO32 + t3
              == (t1 / TWO32 + t2 / TWO32 + lost + Carry(t1, t2, t3)) * TWO64 + LoOf(t1, t2, t3)
  {
    LoIs(t1, t2, t3);
    hide LoOf, Lo2;
    LowWord(t1, t2, t3);
  }

  lemma LoIs(t1: nat, t2: nat, t3: nat)
    ensures Lo2(t1, t2) == (t1 * TWO32 % TWO64 + t2 * TWO32 % TWO64) % TWO64
    ensures LoOf(t1, t2, t3) == (Lo2(t1, t2) + t3) % TWO64
  {
  }

  lemma FromWords(v: Pair, f: Pair, r: Pair)
    requires r.lo == LoOf(Mid1(v.lo, f.lo), Mid2(v.lo, f.lo), Low(v.lo, f.lo))
    requires r.hi == HiOf(C96(v, f) % TWO64, C64(v, f) % TWO64, Mid1(v.lo, f.lo), Mid2(v.lo, f.lo), Low(v.lo, f.lo))
    ensures var p := ValueOf(v) * ValueOf(f);
            && (ValueOf(r) + if LosesCarry(v.lo, f.lo) then TWO64 else 0) % TWO128 == p % TWO128
            && (ValueOf(r) == p % TWO128 <==> !LosesCarry(v.lo, f.lo))
  {
    hide C96, C64, Mid1, Mid2, Low, HiOf, LoOf;
    var over := ProductByLimbs(v, f);
    WordsAmountTo(ValueOf(v) * ValueOf(f), over, C96(v, f), C64(v, f),
                  Mid1(v.lo, f.lo), Mid2(v.lo, f.lo), Low(v.lo, f.lo));
  }

  /** The product is exact whenever the factor's low word is below 2^32, as the FNV prime's is. */
  lemma SmallFactorLosesNothing(a: uint64, b: uint64)
    requires b < TWO32
    ensures !LosesCarry(a, b)
  {
  }

  /** For other factors it need not be. */
  lemma SomeFactorLosesCarry()
    ensures LosesCarry(0xffff_ffff_0000_0001, 0x1_0000_0001)
  {
  }

  // ---------------------------------------------------------------- hashing

  /** lsquic_fnv1a_inc, with native 128-bit arithmetic. */
  method NativeInc(hash: nat, data: seq<byte>) returns (r: nat)
    requires hash < TWO128
    ensures r == Fnv1a(hash, data)
  {
    r := hash;
    var i := 0;
    while i < |data|
      invariant 0 <= i <= |data| && r == Fnv1a(hash, data[..i])
    {
      assert data[..i + 1][..i] == data[..i];
      r := XorByte(r, data[i]) * ValueOf(PRIME) % TWO128;
      i := i + 1;
    }
    assert data[..i] == data;
  }

  /** One byte of the portable form. */
  method FoldByte(acc: Accumulator, b: byte)
    modifies acc
    ensures ValueOf(acc.Words()) == XorByte(ValueOf(old(acc.Words())), b) * ValueOf(PRIME) % TWO128
  {
    hide XorByte, LosesCarry;
    XorInLowWord(acc.Words(), b);
    acc.lo := XorByte(acc.lo, b);
    SmallFactorLosesNothing(acc.lo, PRIME.lo);
    acc.Times(PRIME);
  }

  /** lsquic_fnv1a_inc, portable: the same hash on every input. */
  method PortableInc(acc: Accumulator, data: seq<byte>)
    modifies acc
    ensures ValueOf(acc.Words()) == Fnv1a(ValueOf(old(acc.Words())), data)
  {
    ghost var h := ValueOf(acc.Words());
    var i := 0;
    while i < |data|
      invariant 0 <= i <= |data| && ValueOf(acc.Words()) == Fnv1a(h, data[..i])
    {
      assert data[..i + 1][..i] == data[..i];
      FoldByte(acc, data[i]);
      i := i + 1;
    }
    assert data[..i] == data;
  }

  lemma HashOfThree(h: nat, d1: seq<byte>, d2: seq<byte>, d3: seq<byte>)
    requires h < TWO128
    ensures Fnv1a(Fnv1a(Fnv1a(h, d1), d2), d3) == Fnv1a(h, d1 + d2 + d3)
  {
    Fnv1aConcat(h, d1, d2);
    Fnv1aConcat(h, d1 + d2, d3);
  }

  /** lsquic_fnv1a_128_3, native: the hash of the three parts as one. */
  method NativeHash3(d1: seq<byte>, d2: seq<byte>, d3: seq<byte>) returns (r: nat)
    ensures r == Fnv1a(ValueOf(INIT), d1 + d2 + d3)
  {
    HashOfThree(ValueOf(INIT), d1, d2, d3);
    r := NativeInc(ValueOf(INIT), d1);
    r := NativeInc(r, d2);
    r := NativeInc(r, d3);
  }

  /** lsquic_fnv1a_128_3, portable. */
  method PortableHash3(d1: seq<byte>, d2: seq<byte>, d3: seq<byte>) returns (r: Pair)
    ensures ValueOf(r) == Fnv1a(ValueOf(INIT), d1 + d2 + d3)
  {
    HashOfThree(ValueOf(INIT), d1, d2, d3);
    var acc := new Accumulator(INIT);
    PortableInc(acc, d1);
    PortableInc(acc, d2);
    PortableInc(acc, d3);
    r := Pair(acc.hi, acc.lo);
  }

  // ---------------------------------------------------------------- the 12-byte form

  /** lsquic_serialize_fnv128_short, native. */
  function NativeShort(v: nat): (b: seq<byte>) {
    LittleEndian(v, 16)[..12]
  }

  /** lsquic_serialize_fnv128_short, portable. */
  function PortableShort(p: Pair): (b: seq<byte>) {
    LittleEndian(p.lo, 8) + LittleEndian(p.hi, 8)[..4]
  }

  /** Both forms serialize a hash to the same 12 bytes. */
  lemma ShortFormsAgree(p: Pair)
    ensures NativeShort(ValueOf(p)) == PortableShort(p)
  {
    hide LittleEndian, Pow256;
    PrefixOfBytes(ValueOf(p), 16, 12);
    PrefixOfBytes(p.hi, 8, 4);
    EightBytes();
    BytesOfSum(p.hi, p.lo, 8, 4);
  }

  /** They are its low twelve bytes, lowest first. */
  lemma ShortBytes(v: nat)
    ensures |NativeShort(v)| == 12 && forall k :: 0 <= k < 12 ==> NativeShort(v)[k] as nat == v / Pow256(k) % 256
  {
    hide LittleEndian, Pow256;
    forall k | 0 <= k < 12 ensures NativeShort(v)[k] as nat == v / Pow256(k) % 256 {
      ByteOf(v, 16, k);
    }
  }
}
