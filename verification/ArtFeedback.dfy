/**
 * ART's redundancy controller: how many copies of a lost packet to send, moved
 * by at most one per call according to the share of losses among the last
 * feedbacks.  Rates are exact rationals.
 */
module ArtFeedback {
  import opened Basics

  const MAX_ROUND_BOUND: nat := 20
  const MAX_FEEDBACK_WINDOW_SIZE: nat := 10

  /** The losses, feedbacks of value one, in a window. */
  function Losses(w: seq<int>): (k: nat)
    ensures k <= |w|
  {
    if w == [] then 0 else Losses(w[..|w| - 1]) + if w[|w| - 1] == 1 then 1 else 0
  }

  lemma {:induction false} LossesAreOnes(w: seq<int>)
    ensures Losses(w) == multiset(w)[1]
  {
    if w != [] {
      LossesAreOnes(w[..|w| - 1]);
      assert w == w[..|w| - 1] + [w[|w| - 1]];
    }
  }

  /** The loss rate of `k` losses among `n` feedbacks; zero if there are none. */
  function Rate(n: nat, k: nat): (q: real) {
    if n == 0 then 0.0 else k as real / n as real
  }

  /** art_duplicate_number: the redundancy after one call. */
  function Next(r: nat, rate: real): (s: nat)
    requires r >= 1 && rate >= 0.0
    ensures s >= 1 && r - 1 <= s <= r + 1
  {
    if rate > 1.0 - 1.0 / r as real then r + 1
    else if rate <= 1.0 - 2.0 / r as real then
      TwoWhenDown(r, rate);
      r - 1
    else r
  }

  lemma TwoWhenDown(r: nat, rate: real)
    requires r >= 1 && rate >= 0.0 && rate <= 1.0 - 2.0 / r as real
    ensures r >= 2
  {
  }

  /** The smallest and the largest redundancy that `n` feedbacks with `k` losses leave alone. */
  function Lo(n: nat, k: nat): (r: nat)
    requires k < n || n == 0
    ensures r >= 1
  {
    if n == 0 then 1 else
      CeilAtLeastOne(n, n - k);
      (n + (n - k) - 1) / (n - k)
  }

  function Hi(n: nat, k: nat): (r: nat)
    requires k < n || n == 0
  {
    if n == 0 then 1 else (2 * n - 1) / (n - k)
  }

  lemma CeilAtLeastOne(n: nat, d: nat)
    requires 0 < d <= n
    ensures (n + d - 1) / d >= 1
  {
    DivAtLeast(n + d - 1, d, 1);
  }

  lemma DivAtLeast(a: nat, d: nat, q: nat)
    requires d > 0
    ensures a / d >= q <==> a >= q * d
  {
    assert a == (a / d) * d + a % d;
    if a / d >= q {
      assert (a / d) * d >= q * d;
    } else {
      assert (a / d + 1) * d <= q * d;
    }
  }

  /** In integers: up below `Lo`, down above `Hi`, else unchanged. */
  lemma NextIsTowardBand(r: nat, n: nat, k: nat)
    requires r >= 1 && (k < n || n == 0) && k <= n
    ensures Rate(n, k) >= 0.0
    ensures Next(r, Rate(n, k)) == if r < Lo(n, k) then r + 1 else if r > Hi(n, k) then r - 1 else r
    ensures n > 0 ==> (r < Lo(n, k) <==> r * (n - k) < n) && (r > Hi(n, k) <==> r * (n - k) >= 2 * n)
  {
    if n > 0 {
      var d := n - k;
      RateAgainst(r, n, k, 1);
      RateAgainst(r, n, k, 2);
      // r < Lo iff r * d < n; r > Hi iff r * d >= 2 n
      DivAtLeast(n + d - 1, d, r + 1);
      assert (r + 1) * d == r * d + d;
      DivAtLeast(2 * n - 1, d, r);
    }
  }

  /** The same for any number of losses: without feedback it goes down to one, otherwise up exactly
      below n and down exactly from 2n on, both compared with r (n - k). */
  lemma NextByCount(r: nat, n: nat, k: nat)
    requires r >= 1 && k <= n
    ensures Rate(n, k) >= 0.0
    ensures n == 0 ==> Next(r, Rate(n, k)) == Max(1, r - 1)
    ensures n > 0 ==>
      && (Next(r, Rate(n, k)) == r + 1 <==> r * (n - k) < n)
      && (Next(r, Rate(n, k)) == r - 1 <==> r * (n - k) >= 2 * n)
  {
    if n > 0 {
      RateAgainst(r, n, k, 1);
      RateAgainst(r, n, k, 2);
    } else {
      NextIsTowardBand(r, 0, 0);
    }
  }

  /** k/n compared with 1 - c/r, cleared of fractions. */
  lemma RateAgainst(r: nat, n: nat, k: nat, c: nat)
    requires r >= 1 && n >= 1 && k <= n
    ensures k as real / n as real > 1.0 - c as real / r as real <==> r * (n - k) < c * n
  {
    RatesCompared(k as real, n as real, r as real, c as real);
    ProductOfReals(r, n);
    ProductOfReals(k, r);
    ProductOfReals(c, n);
    CompareProducts(k as real / n as real > 1.0 - c as real / r as real, r, n, k, c);
  }

  lemma RatesCompared(k: real, n: real, r: real, c: real)
    requires n > 0.0 && r > 0.0
    ensures k / n > 1.0 - c / r <==> k * r > r * n - c * n
  {
    Cleared(k, n, r, c);
    assert r * n > 0.0;
    ScaleCompare(k / n, 1.0 - c / r, r * n);
  }

  lemma ProductOfReals(a: int, b: int)
    ensures a as real * b as real == (a * b) as real
  {
  }

  lemma CompareProducts(p: bool, r: nat, n: nat, k: nat, c: nat)
    requires k <= n && (p <==> (k * r) as real > (r * n) as real - (c * n) as real)
    ensures p <==> r * (n - k) < c * n
  {
    assert r * (n - k) == r * n - k * r;
  }

  lemma Cleared(k: real, n: real, r: real, c: real)
    requires n > 0.0 && r > 0.0
    ensures (k / n) * (r * n) == k * r
    ensures (1.0 - c / r) * (r * n) == r * n - c * n
  {
    assert (k / n) * n == k;
    assert (c / r) * r == c;
    assert (k / n) * (r * n) == ((k / n) * n) * r;
    assert (1.0 - c / r) * (r * n) == r * n - (c / r) * r * n;
  }

  lemma ScaleCompare(x: real, y: real, z: real)
    requires z > 0.0
    ensures x > y <==> x * z > y * z
  {
    if x > y {
      assert (x - y) * z > 0.0;
    } else {
      assert (y - x) * z >= 0.0;
    }
  }

  /** `t` calls with a fixed window. */
  function Iterate(r: nat, n: nat, k: nat, t: nat): (s: nat)
    requires r >= 1 && k <= n
    ensures s >= 1
  {
    if t == 0 then r else
      RateNonNegative(n, k);
      Next(Iterate(r, n, k, t - 1), Rate(n, k))
  }

  lemma RateNonNegative(n: nat, k: nat)
    ensures Rate(n, k) >= 0.0
  {
  }

  lemma BandIsNotEmpty(n: nat, k: nat)
    requires k < n || n == 0
    ensures 1 <= Lo(n, k) <= Hi(n, k)
  {
    if n > 0 {
      var d := n - k;
      var lo := Lo(n, k);
      assert n + d - 1 == lo * d + (n + d - 1) % d;
      DivAtLeast(2 * n - 1, d, lo);
    }
  }

  /**
   * The whole course of the controller under a fixed window with some feedback
   * that is not a loss: it walks straight to the band, one per call, never past
   * its near edge, and stays there.
   */
  lemma {:induction false} WalksToTheBand(r: nat, n: nat, k: nat, t: nat)
    requires r >= 1 && k <= n && (k < n || n == 0)
    ensures Iterate(r, n, k, t) ==
      if r < Lo(n, k) then Min(Lo(n, k), r + t)
      else if r > Hi(n, k) then Max(Hi(n, k), r - t)
      else r
  {
    BandIsNotEmpty(n, k);
    if t > 0 {
      WalksToTheBand(r, n, k, t - 1);
      NextIsTowardBand(Iterate(r, n, k, t - 1), n, k);
    }
  }

  /** So it settles in the band n <= r (n - k) < 2n. */
  lemma Settles(r: nat, n: nat, k: nat, t: nat)
    requires r >= 1 && k < n && t >= Max(Lo(n, k) - r, r - Hi(n, k))
    ensures n <= Iterate(r, n, k, t) * (n - k) < 2 * n
    ensures Iterate(r, n, k, t + 1) == Iterate(r, n, k, t)
  {
    BandIsNotEmpty(n, k);
    WalksToTheBand(r, n, k, t);
    WalksToTheBand(r, n, k, t + 1);
    NextIsTowardBand(Iterate(r, n, k, t), n, k);
  }

  lemma AllLost(r: nat, n: nat)
    requires r >= 1 && n >= 1
    ensures Rate(n, n) == 1.0 && Next(r, Rate(n, n)) == r + 1
  {
    var x := n as real;
    assert x / x == 1.0;
    assert 1.0 / r as real > 0.0;
  }

  /** With nothing but losses it grows at every call. */
  lemma {:induction false} GrowsForever(r: nat, n: nat, t: nat)
    requires r >= 1 && n >= 1
    ensures Iterate(r, n, n, t) == r + t
  {
    if t > 0 {
      GrowsForever(r, n, t - 1);
      AllLost(r + t - 1, n);
    }
  }

  // ---------------------------------------------------------------- the controller

  /** The last ten feedbacks, or all if there are fewer. */
  function LastTen(h: seq<int>): (w: seq<int>)
    ensures |w| == Min(|h|, MAX_FEEDBACK_WINDOW_SIZE)
  {
    h[|h| - Min(|h|, MAX_FEEDBACK_WINDOW_SIZE)..]
  }

  lemma LastTenNext(h: seq<int>, v: int)
    ensures LastTen(h + [v]) == (if |h| >= MAX_FEEDBACK_WINDOW_SIZE then LastTen(h)[1..] else LastTen(h)) + [v]
  {
  }

  /** The unsigned value of `2 * i - 1`. */
  function FirstRedundancy(i: nat): (r: nat)
    ensures 1 <= i < MAX_ROUND_BOUND ==> r == 2 * i - 1
  {
    (2 * i - 1) % 0x1_0000_0000
  }

  class Controller {
    var roundsMap: seq<nat>
    var window: seq<int>
    var windowSize: nat
    ghost var history: seq<int>    // every feedback ever recorded

    ghost predicate Valid()
      reads this
    {
      && |roundsMap| == MAX_ROUND_BOUND
      && (forall i :: 1 <= i < MAX_ROUND_BOUND ==> roundsMap[i] >= 1)
      && windowSize == |window| && window == LastTen(history)
    }

    /** Round zero, which no lost packet is in, wraps around. */
    constructor ()
      ensures Valid() && history == []
      ensures forall i :: 1 <= i < MAX_ROUND_BOUND ==> roundsMap[i] == 2 * i - 1
    {
      hide FirstRedundancy, LastTen;
      window, windowSize, history := [], 0, [];
      roundsMap := seq(MAX_ROUND_BOUND, i requires 0 <= i < MAX_ROUND_BOUND => FirstRedundancy(i));
    }

    /** send_ctl_record_feedback_loss, and its twin for a received copy: the last ten feedbacks are kept. */
    method RecordFeedback(value: int)
      requires Valid()
      modifies this`window, this`windowSize, this`history
      ensures Valid() && history == old(history) + [value]
    {
      LastTenNext(history, value);
      history := history + [value];
      if windowSize >= MAX_FEEDBACK_WINDOW_SIZE {
        window := window[1..];
      } else {
        windowSize := windowSize + 1;
      }
      window := window + [value];
    }

    /** art_replica_loss_rate. */
    method ReplicaLossRate() returns (rate: real)
      requires Valid()
      ensures rate == Rate(|window|, multiset(LastTen(history))[1])
    {
      hide LastTen;
      if windowSize == 0 {
        return 0.0;
      }
      var sum := 0.0;
      var i := 0;
      while i < |window|
        invariant 0 <= i <= |window| && sum == Losses(window[..i]) as real
      {
        assert window[..i + 1][..i] == window[..i];
        if window[i] == 1 {
          sum := sum + 1.0;
        }
        i := i + 1;
      }
      assert window[..i] == window;
      LossesAreOnes(window);
      return sum / windowSize as real;
    }

    /** art_duplicate_number, for a packet lost in `round`. */
    method DuplicateNumber(round: nat) returns (n: nat)
      requires Valid() && 1 <= round < MAX_ROUND_BOUND
      modifies this`roundsMap
      ensures Valid()
      ensures n == roundsMap[round] == Iterate(old(roundsMap[round]), |window|, Losses(window), 1)
      ensures roundsMap == old(roundsMap)[round := n]
      ensures var r, fs := old(roundsMap[round]), LastTen(history);
              var k := multiset(fs)[1];
              && (fs == [] ==> n == Max(1, r - 1))
              && (fs != [] ==>
                    && (n == r + 1 <==> r * (|fs| - k) < |fs|)
                    && (n == r - 1 <==> r * (|fs| - k) >= 2 * |fs|))
              && n in {r - 1, r, r + 1}
    {
      LossesAreOnes(window);
      NextByCount(roundsMap[round], |window|, Losses(window));
      var redundancy := roundsMap[round];
      var rlr := ReplicaLossRate();
      RateNonNegative(|window|, Losses(window));
      assert Iterate(redundancy, |window|, Losses(window), 0) == redundancy;
      if rlr > 1.0 - 1.0 / redundancy as real {
        roundsMap := roundsMap[round := redundancy + 1];
      } else if rlr <= 1.0 - 2.0 / redundancy as real {
        TwoWhenDown(redundancy, rlr);
        roundsMap := roundsMap[round := redundancy - 1];
      }
      return roundsMap[round];
    }
  }
}
