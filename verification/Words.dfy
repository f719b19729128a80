/** 64-bit machine words as natural numbers.

    The block bitmap of the hash handler is manipulated with shifts and masks of
    `uint64_t`.  Here a word is a natural number below 2^64, and every C operator is an
    arithmetic function of it.  `Bit` gives the word its meaning as a set of positions,
    and the lemmas say what each operator does to that set.
*/
module Words {

  const WORD_BITS: nat := 64
  const ALL_ONES: nat := 0xFFFF_FFFF_FFFF_FFFF

  type Word = w: nat | w <= ALL_ONES

  function Pow2(n: nat): (p: nat)
    ensures p >= 1
  {
    if n == 0 then 1 else 2 * Pow2(n - 1)
  }

  /** Bit `k` of `w`. */
  predicate Bit(w: nat, k: nat)
    decreases k
  {
    if k == 0 then w % 2 == 1 else Bit(w / 2, k - 1)
  }

  function Or(a: nat, b: nat): (c: nat)
    decreases a + b
  {
    if a == 0 && b == 0 then 0
    else (if a % 2 == 1 || b % 2 == 1 then 1 else 0) + 2 * Or(a / 2, b / 2)
  }

  function And(a: nat, b: nat): (c: nat)
    decreases a + b
  {
    if a == 0 || b == 0 then 0
    else (if a % 2 == 1 && b % 2 == 1 then 1 else 0) + 2 * And(a / 2, b / 2)
  }

  /** The C expression `~w`. */
  function Not(w: Word): (c: Word) {
    ALL_ONES - w
  }

  /** The C expression `w >> n`. */
  function Shr(w: nat, n: nat): (c: nat)
    ensures c <= w
    decreases n
  {
    if n == 0 then w else Shr(w / 2, n - 1)
  }

  /** The C expression `1ULL << n`. */
  function OneShl(n: nat): (c: Word)
    requires n < WORD_BITS
  {
    Pow2Of64();
    Pow2Monotone(n, 63);
    Pow2(n)
  }

  lemma {:induction false} Pow2Monotone(m: nat, n: nat)
    requires m <= n
    ensures Pow2(m) <= Pow2(n)
    decreases n
  {
    if m < n {
      Pow2Monotone(m, n - 1);
    }
  }

  lemma {:induction false} Pow2Sum(m: nat, n: nat)
    ensures Pow2(m + n) == Pow2(m) * Pow2(n)
    decreases m
  {
    if m > 0 {
      Pow2Sum(m - 1, n);
    }
  }

  lemma {:induction false} Pow2Of64()
    ensures Pow2(64) == ALL_ONES + 1
    ensures 2 * Pow2(63) == ALL_ONES + 1
  {
    Pow2Sum(1, 63);
    Pow2Of32();
    Pow2Sum(32, 32);
  }

  lemma Pow2Of32()
    ensures Pow2(32) == 0x1_0000_0000 && Pow2(1) == 2
  {
    assert Pow2(8) == 0x100;
    Pow2Sum(8, 8);
    Pow2Sum(16, 16);
  }

  lemma {:induction false} BitOfOr(a: nat, b: nat, k: nat)
    ensures Bit(Or(a, b), k) <==> Bit(a, k) || Bit(b, k)
    decreases k
  {
    hide *;
    HalfOfOr(a, b);
    BitStep(a, k);
    BitStep(b, k);
    BitStep(Or(a, b), k);
    if k > 0 {
      BitOfOr(a / 2, b / 2, k - 1);
    }
  }

  lemma BitStep(w: nat, k: nat)
    ensures Bit(w, k) == if k == 0 then w % 2 == 1 else Bit(w / 2, k - 1)
  {
  }

  lemma HalfOfOr(a: nat, b: nat)
    ensures Or(a, b) / 2 == Or(a / 2, b / 2)
    ensures Or(a, b) % 2 == 1 <==> a % 2 == 1 || b % 2 == 1
  {
  }

  lemma {:induction false} BitOfAnd(a: nat, b: nat, k: nat)
    ensures Bit(And(a, b), k) <==> Bit(a, k) && Bit(b, k)
    decreases k
  {
    if k > 0 {
      BitOfAnd(a / 2, b / 2, k - 1);
      assert And(a, b) / 2 == And(a / 2, b / 2);
    }
  }

  lemma {:induction false} BitOfShr(w: nat, n: nat, k: nat)
    ensures Bit(Shr(w, n), k) <==> Bit(w, n + k)
    decreases n
  {
    if n > 0 {
      BitOfShr(w / 2, n - 1, k);
    }
  }

  lemma {:induction false} BitOfPow2(n: nat, k: nat)
    ensures Bit(Pow2(n), k) <==> k == n
    decreases k
  {
    if n == 0 {
      BitOfZero(k);
      if k > 0 {
        BitOfZero(k - 1);
      }
    } else if k > 0 {
      BitOfPow2(n - 1, k - 1);
    }
  }

  lemma {:induction false} BitOfZero(k: nat)
    ensures !Bit(0, k)
    decreases k
  {
    if k > 0 {
      BitOfZero(k - 1);
    }
  }

  /** `(1ULL << n) - 1` is the mask of the `n` lowest bits. */
  lemma {:induction false} BitOfLowMask(n: nat, k: nat)
    ensures Bit(Pow2(n) - 1, k) <==> k < n
    decreases k
  {
    if n == 0 {
      BitOfZero(k);
    } else if k > 0 {
      BitOfLowMask(n - 1, k - 1);
      assert (Pow2(n) - 1) / 2 == Pow2(n - 1) - 1;
    }
  }

  /** Complement within `n` bits. */
  lemma {:induction false} BitOfComplement(w: nat, n: nat, k: nat)
    requires w < Pow2(n)
    ensures Bit(Pow2(n) - 1 - w, k) <==> k < n && !Bit(w, k)
    decreases n
  {
    if n == 0 {
      BitOfZero(k);
    } else if k > 0 {
      BitOfComplement(w / 2, n - 1, k - 1);
      assert (Pow2(n) - 1 - w) / 2 == Pow2(n - 1) - 1 - w / 2;
    }
  }

  lemma BitOfNot(w: Word, k: nat)
    ensures Bit(Not(w), k) <==> k < WORD_BITS && !Bit(w, k)
  {
    Pow2Of64();
    BitOfComplement(w, WORD_BITS, k);
  }

  lemma BitOfAllOnes(k: nat)
    ensures Bit(ALL_ONES, k) <==> k < WORD_BITS
  {
    Pow2Of64();
    BitOfLowMask(WORD_BITS, k);
  }

  lemma {:induction false} OrBound(a: nat, b: nat, n: nat)
    requires a < Pow2(n) && b < Pow2(n)
    ensures Or(a, b) < Pow2(n)
    decreases n
  {
    if n > 0 {
      OrBound(a / 2, b / 2, n - 1);
    }
  }

  lemma {:induction false} AndBound(a: nat, b: nat)
    ensures And(a, b) <= a && And(a, b) <= b
    decreases a + b
  {
    if a != 0 && b != 0 {
      AndBound(a / 2, b / 2);
    }
  }

  /** The C expression `a | b`. */
  function OrWord(a: Word, b: Word): (c: Word) {
    Pow2Of64();
    OrBound(a, b, WORD_BITS);
    Or(a, b)
  }

  /** The C expression `a & b`. */
  function AndWord(a: Word, b: Word): (c: Word) {
    AndBound(a, b);
    And(a, b)
  }

  /** A number is zero exactly when it has no bits: the test `0 != (w >> n)` asks for a set
      bit at position `n` or above. */
  lemma {:induction false} ZeroHasNoBits(w: nat)
    ensures w == 0 <==> forall k: nat :: !Bit(w, k)
    decreases w
  {
    if w == 0 {
      forall k: nat ensures !Bit(w, k) { BitOfZero(k); }
    } else if w % 2 == 1 {
      assert Bit(w, 0);
      assert exists k: nat :: Bit(w, k);
    } else {
      ZeroHasNoBits(w / 2);
      var k: nat :| Bit(w / 2, k);
      assert Bit(w, k + 1);
      assert exists i: nat :: Bit(w, i);
    }
  }

  /** No word has a bit past position 63. */
  lemma {:induction false} BitsBounded(w: nat, n: nat, k: nat)
    requires w < Pow2(n) && k >= n
    ensures !Bit(w, k)
    decreases n
  {
    if n == 0 {
      BitOfZero(k);
    } else {
      BitsBounded(w / 2, n - 1, k - 1);
    }
  }

  lemma WordBitsBounded(w: Word, k: nat)
    requires k >= WORD_BITS
    ensures !Bit(w, k)
  {
    Pow2Of64();
    BitsBounded(w, WORD_BITS, k);
  }

  ghost predicate AllSet(w: Word) {
    forall k: nat :: k < WORD_BITS ==> Bit(w, k)
  }

  /** A word whose 64 bits are all set is the word of all ones. */
  lemma {:induction false} FullIsAllOnes(w: Word)
    ensures w == ALL_ONES <==> AllSet(w)
  {
    ZeroHasNoBits(Not(w));
    forall k: nat ensures Bit(Not(w), k) <==> k < WORD_BITS && !Bit(w, k) {
      BitOfNot(w, k);
    }
    if AllSet(w) {
      assert forall k: nat :: !Bit(Not(w), k);
    } else {
      var k: nat :| k < WORD_BITS && !Bit(w, k);
      assert Bit(Not(w), k);
      assert exists i: nat :: Bit(Not(w), i);
    }
  }

  ghost predicate HasBitBelow(x: nat, n: nat) {
    exists k: nat :: k < n && Bit(x, k)
  }

  /** One halving round of the portable `ctz`: skip `n` positions when they are all clear. */
  function CtzRound(x: Word, n: nat): (r: (nat, Word))
    requires n < WORD_BITS
  {
    if AndWord(x, OneShl(n) - 1) == 0 then (n, Shr(x, n)) else (0, x)
  }

  lemma CtzRoundSkipsZeros(x: Word, n: nat)
    requires 0 < n < WORD_BITS
    requires HasBitBelow(x, 2 * n)
    ensures var (skip, y) := CtzRound(x, n);
            && (forall k: nat :: k < skip ==> !Bit(x, k))
            && (forall k: nat :: Bit(y, k) <==> Bit(x, skip + k))
            && skip <= n
            && HasBitBelow(y, n)
  {
    var low := AndWord(x, OneShl(n) - 1);
    ZeroHasNoBits(low);
    forall k: nat
      ensures Bit(low, k) <==> Bit(x, k) && k < n
      ensures Bit(Shr(x, n), k) <==> Bit(x, n + k)
    {
      BitOfAnd(x, Pow2(n) - 1, k);
      BitOfLowMask(n, k);
      BitOfShr(x, n, k);
    }
    if low == 0 {
      forall k: nat | k < n ensures !Bit(x, k) {
        assert !Bit(low, k);
      }
      var k: nat :| k < 2 * n && Bit(x, k);
      assert Bit(Shr(x, n), k - n);
    } else {
      var k: nat :| Bit(low, k);
      assert k < n && Bit(x, k);
    }
  }

  /** The halving rounds of the portable `ctz` from width `n` down to 1. */
  function CtzRounds(x: Word, n: nat): (c: nat)
    requires 0 < n < WORD_BITS
  {
    var (skip, y) := CtzRound(x, n);
    if n == 1 then skip else skip + CtzRounds(y, n / 2)
  }

  /** Number of trailing zero bits. */
  function Ctz(x: Word): (c: nat) {
    CtzRounds(x, 32)
  }

  ghost predicate LowestBit(x: nat, n: nat) {
    Bit(x, n) && forall k: nat :: k < n ==> !Bit(x, k)
  }

  lemma {:induction false} CtzRoundsFindLowestBit(x: Word, n: nat)
    requires n in {1, 2, 4, 8, 16, 32}
    requires HasBitBelow(x, 2 * n)
    ensures CtzRounds(x, n) < 2 * n
    ensures LowestBit(x, CtzRounds(x, n))
    decreases n
  {
    hide Bit, CtzRound;
    var (skip, y) := CtzRound(x, n);
    CtzRoundSkipsZeros(x, n);
    if n == 1 {
      assert LowestBit(y, 0);
      LowestAfterSkip(x, skip, y, 0);
    } else {
      CtzRoundsFindLowestBit(y, n / 2);
      LowestAfterSkip(x, skip, y, CtzRounds(y, n / 2));
    }
  }

  lemma LowestAfterSkip(x: nat, skip: nat, y: nat, rest: nat)
    requires (forall k: nat :: k < skip ==> !Bit(x, k)) && (forall k: nat :: Bit(y, k) <==> Bit(x, skip + k))
    requires LowestBit(y, rest)
    ensures LowestBit(x, skip + rest)
  {
    hide Bit;
    forall k: nat | k < skip + rest ensures !Bit(x, k) {
      if k >= skip {
        assert Bit(y, k - skip) <==> Bit(x, skip + (k - skip));
      }
    }
  }

  /** `Ctz` of a non-zero word is the position of its lowest set bit. */
  lemma CtzIsLowestBit(x: Word)
    requires x != 0
    ensures Ctz(x) < WORD_BITS
    ensures LowestBit(x, Ctz(x))
  {
    ZeroHasNoBits(x);
    var k: nat :| Bit(x, k);
    if k >= WORD_BITS {
      WordBitsBounded(x, k);
    }
    CtzRoundsFindLowestBit(x, 32);
  }

  /** Masking with one more low bit adds that bit's weight. */
  lemma {:induction false} AndOneMoreBit(x: nat, n: nat)
    ensures And(x, Pow2(n + 1) - 1) == And(x, Pow2(n) - 1) + (if Bit(x, n) then Pow2(n) else 0)
    decreases n
  {
    if n == 0 {
      assert Pow2(1) == 2;
      assert x != 0 ==> And(x, 1) == x % 2 + 2 * And(x / 2, 0);
    } else {
      AndOneMoreBit(x / 2, n - 1);
      assert (Pow2(n + 1) - 1) / 2 == Pow2(n) - 1;
      assert (Pow2(n) - 1) / 2 == Pow2(n - 1) - 1;
    }
  }

  /** The test `w & (1ULL << k)`. */
  lemma SingleBit(w: Word, k: nat)
    requires k < WORD_BITS
    ensures AndWord(w, OneShl(k)) != 0 <==> Bit(w, k)
  {
    var x := AndWord(w, OneShl(k));
    ZeroHasNoBits(x);
    forall i: nat ensures Bit(x, i) <==> Bit(w, i) && i == k {
      BitOfAnd(w, Pow2(k), i);
      BitOfPow2(k, i);
    }
  }
}
