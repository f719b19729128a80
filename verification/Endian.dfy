/** Numbers as a little-endian machine stores them. */
module Endian {
  import opened Basics

  /** The low `n` bytes of a number. */
  function LittleEndian(v: nat, n: nat): (b: seq<byte>)
    ensures |b| == n
  {
    if n == 0 then [] else [(v % 256) as byte] + LittleEndian(v / 256, n - 1)
  }

  function FromLittleEndian(b: seq<byte>): (v: nat) {
    if b == [] then 0 else b[0] as nat + 256 * FromLittleEndian(b[1..])
  }

  function Pow256(n: nat): (p: nat)
    ensures p > 0
  {
    if n == 0 then 1 else 256 * Pow256(n - 1)
  }

  lemma FourBytes()
    ensures Pow256(4) == 0x1_0000_0000
  {
  }

  lemma EightBytes()
    ensures Pow256(8) == 0x1_0000_0000_0000_0000
  {
    FourBytes();
  }

  /** Byte `k` of a number, counted from its low end. */
  lemma {:induction false} ByteOf(v: nat, n: nat, k: nat)
    requires k < n
    ensures LittleEndian(v, n)[k] as nat == v / Pow256(k) % 256
  {
    if k > 0 {
      ByteOf(v / 256, n - 1, k - 1);
      DivTwice(v, Pow256(k - 1));
    }
  }

  lemma DivTwice(v: nat, p: nat)
    requires p > 0
    ensures v / 256 / p == v / (256 * p)
  {
    var q, r := v / 256 / p, v / 256 % p;
    assert v / 256 == q * p + r;
    assert v == q * (256 * p) + (256 * r + v % 256);
    QuotientIs(v, 256 * p, q, 256 * r + v % 256);
  }

  lemma QuotientIs(v: nat, d: nat, q: nat, r: nat)
    requires d > 0 && v == q * d + r && r < d
    ensures v / d == q
  {
    var k := v / d - q;
    assert v == (v / d) * d + v % d;
    assert k * d == r - v % d;
    Multiples(k, d);
  }

  lemma Multiples(k: int, d: nat)
    ensures k >= 1 ==> k * d >= d
    ensures k <= -1 ==> k * d <= -(d as int)
  {
  }

  lemma {:induction false} PrefixOfBytes(v: nat, n: nat, m: nat)
    requires m <= n
    ensures LittleEndian(v, n)[..m] == LittleEndian(v, m)
  {
    if m > 0 {
      PrefixOfBytes(v / 256, n - 1, m - 1);
    }
  }

  lemma {:induction false} BytesOfSum(hi: nat, lo: nat, m: nat, n: nat)
    requires lo < Pow256(m)
    ensures LittleEndian(hi * Pow256(m) + lo, m + n) == LittleEndian(lo, m) + LittleEndian(hi, n)
  {
    if m > 0 {
      var p := Pow256(m - 1);
      assert Pow256(m) == 256 * p;
      hide Pow256;
      SumInBytes(hi, lo, p);
      BytesOfSum(hi, lo / 256, m - 1, n);
    }
  }

  lemma SumInBytes(hi: nat, lo: nat, p: nat)
    requires lo < 256 * p
    ensures lo / 256 < p
    ensures (hi * (256 * p) + lo) / 256 == hi * p + lo / 256 && (hi * (256 * p) + lo) % 256 == lo % 256
  {
    assert hi * (256 * p) == 256 * (hi * p);
  }

  lemma {:induction false} ReadBackUpTo(v: nat, n: nat) returns (q: nat)
    ensures FromLittleEndian(LittleEndian(v, n)) < Pow256(n)
    ensures v == q * Pow256(n) + FromLittleEndian(LittleEndian(v, n))
  {
    if n == 0 {
      q := v;
    } else {
      q := ReadBackUpTo(v / 256, n - 1);
      var p, r := Pow256(n - 1), FromLittleEndian(LittleEndian(v / 256, n - 1));
      assert LittleEndian(v, n)[1..] == LittleEndian(v / 256, n - 1);
      assert q * Pow256(n) == 256 * (q * p);
      hide Pow256, LittleEndian;
    }
  }

  /** Reading back gives the number if it fits. */
  lemma ReadBack(v: nat, n: nat)
    ensures FromLittleEndian(LittleEndian(v, n)) < Pow256(n)
    ensures v < Pow256(n) ==> FromLittleEndian(LittleEndian(v, n)) == v
  {
    var q := ReadBackUpTo(v, n);
    hide Pow256, LittleEndian, FromLittleEndian;
    AtLeastOnce(q, Pow256(n));
  }

  lemma AtLeastOnce(q: nat, p: nat)
    ensures if q == 0 then q * p == 0 else q * p >= p
  {
  }
}
