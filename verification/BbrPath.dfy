/** What BBR knows of the path, over every run: its bandwidth estimate, its minimum RTT, its recovery. */
module BbrPath {
  import opened Basics
  import opened SamplerSpec
  import opened Minmax
  import opened BbrSpec
  import opened BbrRuns

  // ---------------------------------------------------------------- the stages and the path

  lemma ModelPath<P>(b: Bbr<P>)
    requires b.ack.totalBefore <= b.sampler.totalAcked && b.ack.ackedBytes != 0
    ensures var m, r := Measured(Counted(b)), ModelUpdated(b);
            && r.path == NextEpoch(m.path, b.ack.ackTime, BytesAcked(b))
            && r.loss == Recovered(m, RoundStart(b)).loss
            && r.ack == b.ack && r.lastSent == b.lastSent
  {
    hide Folded, MinRttRenewed, NextRecovery, NextEpoch;
  }

  /** What the mode stages and the windows leave of the path; a PROBE_RTT exit restarts the RTT's clock. */
  ghost predicate SamePath<P>(b: Bbr<P>, r: Bbr<P>) {
    && r.path == b.path.(minRttTimestamp := r.path.minRttTimestamp)
    && (r.path.minRttTimestamp == b.path.minRttTimestamp || r.path.minRttTimestamp == b.ack.ackTime)
    && r.loss.recovery == b.loss.recovery && r.loss.endRecoveryAt == b.loss.endRecoveryAt
  }

  lemma ModePath<P>(b: Bbr<P>, roundStart: bool, expired: bool, inFlight: nat, rttStat: nat, rand: byte)
    ensures SamePath(b, ModeUpdated(b, roundStart, expired, inFlight, rttStat, rand))
  {
    var c := if b.mode == ProbeBw then Cycled(b, inFlight, rttStat) else b;
    CycledPath(b, inFlight, rttStat);
    var f := if roundStart && !c.full.atFullBw then FullBwChecked(c) else c;
    assert f.path == c.path && f.loss == c.loss && f.ack == c.ack;
    var l := LeftStartupOrDrain(f, inFlight, rttStat, rand);
    LeftStartupPath(f, inFlight, rttStat, rand);
    var e := EnteredProbeRtt(l, expired);
    assert e.path == l.path && e.loss == l.loss && e.ack == l.ack;
    LeftProbeRttPath(e, roundStart, inFlight, rand);
    hide Cycled, FullBwChecked, LeftStartupOrDrain, EnteredProbeRtt, LeftProbeRtt;
  }

  lemma CycledPath<P>(b: Bbr<P>, inFlight: nat, rttStat: nat)
    ensures var r := Cycled(b, inFlight, rttStat); r.path == b.path && r.loss == b.loss && r.ack == b.ack
  {
  }

  lemma LeftStartupPath<P>(b: Bbr<P>, inFlight: nat, rttStat: nat, rand: byte)
    ensures var r := LeftStartupOrDrain(b, inFlight, rttStat, rand);
            r.path == b.path && r.loss == b.loss && r.ack == b.ack
  {
    hide TargetCwnd;
  }

  lemma LeftProbeRttPath<P>(b: Bbr<P>, roundStart: bool, inFlight: nat, rand: byte)
    ensures SamePath(b, LeftProbeRtt(b, roundStart, inFlight, rand))
  {
    hide AppLimited;
  }

  /** The end of an ACK, seen from the path. */
  lemma EndAckPath<P>(b: Bbr<P>, inFlight: nat, rttStat: nat, rand: byte)
    requires CountsOk(b) && b.inAck
    ensures SamePath(ModelUpdated(b.(inAck := false)), EndAck(b, inFlight, rttStat, rand))
  {
    var m := ModelUpdated(b.(inAck := false));
    hide ModelUpdated, ModeUpdated, NextPacingRate, NextCwnd, NextRecoveryWindow, Expired, RoundStart, CountsOk;
    ModePath(m, RoundStart(b), Expired(b), inFlight, rttStat, rand);
  }

  // ---------------------------------------------------------------- one step, seen from the path

  /** Step `k` ends an ACK that acked something. */
  ghost predicate AckAt<P>(bs: seq<Bbr<P>>, es: seq<BbrEvent<P>>, k: nat) {
    k < |es| && k < |bs| && es[k].OnEndAck? && bs[k].ack.ackedBytes != 0
  }

  function BytesOf<P>(b: Bbr<P>): (n: nat) {
    if b.ack.totalBefore <= b.sampler.totalAcked then BytesAcked(b) else 0
  }

  lemma OtherKeepsPath<P>(b: Bbr<P>, e: BbrEvent<P>)
    requires CountsOk(b) && Legal(b, e) && !e.OnEndAck? && !e.OnReinit?
    ensures var r := StepBbr(b, e);
            && r.path.(appLimitedSinceProbeRtt := b.path.appLimitedSinceProbeRtt) == b.path && r.loss == b.loss
  {
  }

  lemma EndAckPathIs<P>(b: Bbr<P>, inFlight: nat, rttStat: nat, rand: byte)
    requires CountsOk(b) && b.inAck
    ensures var r := EndAck(b, inFlight, rttStat, rand);
            var p := if b.ack.ackedBytes == 0 then b.path
                     else NextEpoch(Measured(Counted(b)).path, b.ack.ackTime, BytesOf(b));
            && r.path == p.(minRttTimestamp := r.path.minRttTimestamp)
            && (r.path.minRttTimestamp == p.minRttTimestamp || r.path.minRttTimestamp == b.ack.ackTime)
  {
    EndAckPath(b, inFlight, rttStat, rand);
    var c := b.(inAck := false);
    if b.ack.ackedBytes != 0 {
      ModelPath(c);
      MeasuredPathOnly(b);
    }
    hide EndAck, NextEpoch, Measured, CountsOk;
  }

  lemma MeasuredPathOnly<P>(b: Bbr<P>)
    ensures Measured(Counted(b.(inAck := false))).path == Measured(Counted(b)).path
    ensures BytesOf(b.(inAck := false)) == BytesOf(b)
  {
    hide FoldAll;
  }

  /** What a step of a run does to the path. */
  ghost predicate PathStep<P>(b: Bbr<P>, e: BbrEvent<P>, r: Bbr<P>) {
    if e.OnReinit? then r.path == InitBbr(b).path
    else if !e.OnEndAck? then r.path.(appLimitedSinceProbeRtt := b.path.appLimitedSinceProbeRtt) == b.path
    else
      var p := if b.ack.ackedBytes == 0 then b.path
               else NextEpoch(Measured(Counted(b)).path, b.ack.ackTime, BytesOf(b));
      && r.path == p.(minRttTimestamp := r.path.minRttTimestamp)
      && (r.path.minRttTimestamp == p.minRttTimestamp || r.path.minRttTimestamp == b.ack.ackTime)
  }

  lemma StepPath<P>(bs: seq<Bbr<P>>, es: seq<BbrEvent<P>>, n: nat)
    requires IsRun(bs, es) && n < |es|
    ensures PathStep(bs[n], es[n], bs[n + 1])
  {
    hide Inv, EndAck, Start, CountsOk, NextEpoch, Measured;
    var b, e := bs[n], es[n];
    RunKeepsInv(bs, es, n);
    InvMeansCounts(b);
    assert Next(b, e, bs[n + 1]);
    if e.OnEndAck? {
      EndAckPathIs(b, e.inFlight, e.rttStat, e.rand);
    } else if !e.OnReinit? {
      OtherKeepsPath(b, e);
    }
  }

  /** The first step after the last re-initialization before state `n`. */
  function SinceInit<P>(es: seq<BbrEvent<P>>, n: nat): (k: nat)
    requires n <= |es|
    ensures k <= n
  {
    if n == 0 || es[n - 1].OnReinit? then n else SinceInit(es, n - 1)
  }

  // ---------------------------------------------------------------- rounds

  /** The rounds started since the last re-initialization. */
  ghost function Rounds<P>(bs: seq<Bbr<P>>, es: seq<BbrEvent<P>>, n: nat): (c: nat)
    requires |bs| == |es| + 1 && n < |bs|
  {
    if n == 0 || es[n - 1].OnReinit? then 0
    else Rounds(bs, es, n - 1) + if RoundAt(bs, es, n - 1) then 1 else 0
  }

  lemma {:induction false} RoundsAreCounted<P>(bs: seq<Bbr<P>>, es: seq<BbrEvent<P>>, n: nat)
    requires IsRun(bs, es) && n < |bs|
    ensures bs[n].path.roundCount == Rounds(bs, es, n)
  {
    if n > 0 {
      RoundsAreCounted(bs, es, n - 1);
      StepRounds(bs, es, n - 1);
      hide IsRun, RoundAt;
    }
  }

  lemma StepRounds<P>(bs: seq<Bbr<P>>, es: seq<BbrEvent<P>>, n: nat)
    requires IsRun(bs, es) && n < |es|
    ensures bs[n + 1].path.roundCount ==
      if es[n].OnReinit? then 0 else bs[n].path.roundCount + if RoundAt(bs, es, n) then 1 else 0
  {
    StepPath(bs, es, n);
    hide IsRun, Folded, MinRttRenewed, UpMax, ExpectedAcked;
  }

  // ---------------------------------------------------------------- the bandwidth estimate

  /** The samples that are recorded, in order: those not app-limited, and those above the estimate. */
  ghost function AddSamples(h: seq<Measure>, samples: seq<Sample>, round: nat): (g: seq<Measure>) {
    if samples == [] then h
    else
      var g := AddSamples(h, samples[..|samples| - 1], round);
      var s := samples[|samples| - 1];
      if !s.isAppLimited || s.bandwidth > Minmax.Run(10, g).best.value then g + [Measure(round, s.bandwidth)] else g
  }

  /** What has been recorded since the last re-initialization, each with its round. */
  ghost function Recorded<P>(bs: seq<Bbr<P>>, es: seq<BbrEvent<P>>, n: nat): (h: seq<Measure>)
    requires |bs| == |es| + 1 && n < |bs|
  {
    if n == 0 || es[n - 1].OnReinit? then []
    else
      var h := Recorded(bs, es, n - 1);
      if AckAt(bs, es, n - 1) then AddSamples(h, bs[n - 1].ack.samples, Rounds(bs, es, n)) else h
  }

  lemma RunOneMore(h: seq<Measure>, x: Measure)
    ensures Minmax.Run(10, h + [x]) == UpMax(Minmax.Run(10, h), x.time, x.value)
  {
    assert (h + [x])[..|h|] == h;
  }

  lemma {:induction false} FoldRecords(f: Fold, samples: seq<Sample>, round: nat, h: seq<Measure>)
    requires f.maxBw == Minmax.Run(10, h)
    ensures FoldAll(f, samples, round).maxBw == Minmax.Run(10, AddSamples(h, samples, round))
  {
    if samples != [] {
      var pre, s := samples[..|samples| - 1], samples[|samples| - 1];
      FoldRecords(f, pre, round, h);
      RunOneMore(AddSamples(h, pre, round), Measure(round, s.bandwidth));
      hide UpMax, Minmax.Run;
    }
  }

  /** One step of a run, seen from the bandwidth filter. */
  lemma StepFilter<P>(bs: seq<Bbr<P>>, es: seq<BbrEvent<P>>, n: nat)
    requires IsRun(bs, es) && n < |es|
    ensures var b, r := bs[n].path, bs[n + 1].path;
            if es[n].OnReinit? then r.maxBw == Fresh(10)
            else if !AckAt(bs, es, n) then r.maxBw == b.maxBw
            else exists f: Fold :: f.maxBw == b.maxBw
                                && r.maxBw == FoldAll(f, bs[n].ack.samples, r.roundCount).maxBw
  {
    StepPath(bs, es, n);
    hide IsRun, FoldAll, MinRttRenewed, UpMax, ExpectedAcked;
    if AckAt(bs, es, n) {
      var f := FoldStart(Counted(bs[n]).path);
      assert f.maxBw == bs[n].path.maxBw;
      assert bs[n + 1].path.maxBw == FoldAll(f, bs[n].ack.samples, bs[n + 1].path.roundCount).maxBw;
    }
  }

  /** In every state of every run the bandwidth filter is that of the samples recorded. */
  lemma {:induction false} FilterOfSamples<P>(bs: seq<Bbr<P>>, es: seq<BbrEvent<P>>, n: nat)
    requires IsRun(bs, es) && n < |bs|
    ensures bs[n].path.maxBw == Minmax.Run(10, Recorded(bs, es, n))
  {
    if n > 0 {
      FilterOfSamples(bs, es, n - 1);
      StepFilter(bs, es, n - 1);
      RoundsAreCounted(bs, es, n);
      EmptyRun(10);
      hide IsRun, FoldAll, AddSamples, UpMax, Rounds, Minmax.Run;
      if AckAt(bs, es, n - 1) {
        var f: Fold :| f.maxBw == bs[n - 1].path.maxBw
                       && bs[n].path.maxBw == FoldAll(f, bs[n - 1].ack.samples, bs[n].path.roundCount).maxBw;
        FoldRecords(f, bs[n - 1].ack.samples, bs[n].path.roundCount, Recorded(bs, es, n - 1));
      }
    }
  }

  /** The filter has been updated in round `round`: its estimate and its last choice are within the window. */
  ghost predicate UpToDate(m: MinMax, round: nat) {
    TimesOrdered(m, round) && m.window == 10 && round - m.best.time <= 10
  }

  lemma UpMaxStays(m: MinMax, round: nat, v: nat)
    requires TimesOrdered(m, round) && m.window == 10
    ensures UpToDate(UpMax(m, round, v), round) && UpMax(m, round, v).best.value >= v
    ensures UpToDate(m, round) ==> UpMax(m, round, v).best.value >= m.best.value
  {
  }

  /** Every sample of an ACK that is not app-limited, and every one above the estimate, is covered. */
  lemma {:induction false} FoldCovers(f: Fold, samples: seq<Sample>, round: nat)
    requires TimesOrdered(f.maxBw, round) && f.maxBw.window == 10
    ensures var r := FoldAll(f, samples, round).maxBw;
            && TimesOrdered(r, round) && r.window == 10
            && (UpToDate(r, round) || r == f.maxBw)
            && (forall s :: s in samples && !s.isAppLimited ==> s.bandwidth <= r.best.value)
            && (f.maxBw.best.value < r.best.value ==> UpToDate(r, round))
            && ((exists s :: s in samples && !s.isAppLimited) ==> UpToDate(r, round))
  {
    if samples != [] {
      var pre, s := samples[..|samples| - 1], samples[|samples| - 1];
      FoldCovers(f, pre, round);
      assert samples == pre + [s];
      var p := FoldAll(f, pre, round).maxBw;
      UpMaxStays(p, round, s.bandwidth);
      hide UpMax;
      assert FoldAll(f, samples, round).maxBw ==
        if !s.isAppLimited || s.bandwidth > p.best.value then UpMax(p, round, s.bandwidth) else p;
      hide FoldAll;
    }
  }

  /** Recorded in rounds that do not decrease, up to `round`. */
  ghost predicate InRounds(h: seq<Measure>, round: nat) {
    && (forall i :: 0 <= i < |h| ==> h[i].time <= round)
    && (forall i, j :: 0 <= i < j < |h| ==> h[i].time <= h[j].time)
  }

  lemma {:induction false} AddSamplesInRounds(h: seq<Measure>, samples: seq<Sample>, round: nat, was: nat)
    requires InRounds(h, was) && was <= round
    ensures InRounds(AddSamples(h, samples, round), round)
  {
    if samples != [] {
      AddSamplesInRounds(h, samples[..|samples| - 1], round, was);
    }
  }

  lemma {:induction false} RecordedInRounds<P>(bs: seq<Bbr<P>>, es: seq<BbrEvent<P>>, n: nat)
    requires |bs| == |es| + 1 && n < |bs|
    ensures InRounds(Recorded(bs, es, n), Rounds(bs, es, n))
  {
    if n > 0 && !es[n - 1].OnReinit? {
      RecordedInRounds(bs, es, n - 1);
      AddSamplesInRounds(Recorded(bs, es, n - 1), bs[n - 1].ack.samples, Rounds(bs, es, n), Rounds(bs, es, n - 1));
    }
  }

  /**
   * In every state of every run the bandwidth estimate is zero if nothing was
   * recorded; otherwise it is a recorded sample at most ten rounds older than the
   * latest one, not below any recorded since it, and not below any that was a peak
   * when it was recorded in those ten rounds.
   */
  lemma EstimateIsRecentSample<P>(bs: seq<Bbr<P>>, es: seq<BbrEvent<P>>, n: nat)
    requires IsRun(bs, es) && n < |bs| && Rounds(bs, es, n) < TWO64
    ensures var h, best := Recorded(bs, es, n), bs[n].path.maxBw.best;
            && (h == [] ==> best.value == 0)
            && (h != [] ==> exists i: nat :: MaxSince(h, i, best) && h[|h| - 1].time - h[i].time <= 10)
            && (forall i: nat :: Peak(10, h, i) && h[|h| - 1].time - h[i].time <= 10 ==> best.value >= h[i].value)
  {
    FilterOfSamples(bs, es, n);
    RecordedInRounds(bs, es, n);
    hide IsRun, Recorded, Rounds, MaxSince, Peak, Minmax.Run;
    EstimateIsRecentMax(10, Recorded(bs, es, n));
  }

  /** The estimate after an ACK of any run is not below any of its samples that is not app-limited, nor
      below a single sample of either kind. */
  lemma EstimateCoversAck<P>(bs: seq<Bbr<P>>, es: seq<BbrEvent<P>>, n: nat)
    requires IsRun(bs, es) && AckAt(bs, es, n) && Rounds(bs, es, n + 1) < TWO64
    ensures var samples, bw := bs[n].ack.samples, bs[n + 1].path.maxBw.best.value;
            && (forall s :: s in samples && !s.isAppLimited ==> s.bandwidth <= bw)
            && (|samples| == 1 ==> samples[0].bandwidth <= bw)
  {
    RunHasStates(bs, es);
    StepFilter(bs, es, n);
    RoundsAreCounted(bs, es, n + 1);
    FilterInRounds(bs, es, n);
    hide IsRun, Rounds, Recorded;
    var round := bs[n + 1].path.roundCount;
    var f: Fold :| f.maxBw == bs[n].path.maxBw && bs[n + 1].path.maxBw == FoldAll(f, bs[n].ack.samples, round).maxBw;
    FoldCovers(f, bs[n].ack.samples, round);
    if |bs[n].ack.samples| == 1 {
      OneIsCovered(f, bs[n].ack.samples, round);
    }
    hide FoldAll, UpToDate;
  }

  lemma OneIsCovered(f: Fold, samples: seq<Sample>, round: nat)
    requires |samples| == 1
    ensures samples[0].bandwidth <= FoldAll(f, samples, round).maxBw.best.value
  {
    assert FoldAll(f, samples[..0], round) == f;
    UpMaxAtLeast(f.maxBw, round, samples[0].bandwidth);
    hide UpMax;
  }

  /** The choices of the filter are from rounds up to the next. */
  lemma FilterInRounds<P>(bs: seq<Bbr<P>>, es: seq<BbrEvent<P>>, n: nat)
    requires IsRun(bs, es) && n < |es| && !es[n].OnReinit? && Rounds(bs, es, n + 1) < TWO64
    ensures TimesOrdered(bs[n].path.maxBw, Rounds(bs, es, n + 1)) && bs[n].path.maxBw.window == 10
  {
    FilterOfSamples(bs, es, n);
    RecordedInRounds(bs, es, n);
    EmptyRun(10);
    var h := Recorded(bs, es, n);
    assert Rounds(bs, es, n) <= Rounds(bs, es, n + 1);
    hide IsRun, Recorded, Rounds, Minmax.Run;
    if h != [] {
      RunTimesOrdered(10, h);
    }
  }

  // ---------------------------------------------------------------- ack aggregation

  /** The bytes that the estimate says were due by the ACK of step `k`, since its epoch began. */
  ghost function DueBy<P>(bs: seq<Bbr<P>>, k: nat): (n: nat)
    requires k + 1 < |bs|
  {
    bs[k + 1].path.maxBw.best.value * Sub64(bs[k].ack.ackTime, bs[k].path.epochStart)
  }

  /** Step `k` ends an ACK that begins a new aggregation epoch: its predecessor's bytes came no faster
      than the bandwidth estimate. */
  ghost predicate EpochAt<P>(bs: seq<Bbr<P>>, es: seq<BbrEvent<P>>, k: nat) {
    AckAt(bs, es, k) && k + 1 < |bs| && bs[k].path.epochBytes <= DueBy(bs, k)
  }

  /** The bytes acked by the ACKs that end in steps `a` to `n - 1`. */
  ghost function AckedIn<P>(bs: seq<Bbr<P>>, es: seq<BbrEvent<P>>, a: nat, n: nat): (c: nat)
    requires a <= n < |bs|
    decreases n
  {
    if n == a then 0
    else AckedIn(bs, es, a, n - 1) + if AckAt(bs, es, n - 1) then BytesOf(bs[n - 1]) else 0
  }

  /** No epoch has begun since the last re-initialization. */
  ghost predicate NoEpoch<P>(bs: seq<Bbr<P>>, es: seq<BbrEvent<P>>, n: nat) {
    n <= |es| && forall k :: SinceInit(es, n) <= k < n ==> !EpochAt(bs, es, k)
  }

  /** Steps `a` to `n - 1` are one epoch. */
  ghost predicate OneEpoch<P>(bs: seq<Bbr<P>>, es: seq<BbrEvent<P>>, a: nat, n: nat) {
    && n <= |es| && a < n && EpochAt(bs, es, a)
    && forall k :: a < k < n ==> !EpochAt(bs, es, k) && !es[k].OnReinit?
  }

  lemma MeasuredKeepsEpoch<P>(b: Bbr<P>)
    ensures var m := Measured(Counted(b)).path;
            m.epochBytes == b.path.epochBytes && m.epochStart == b.path.epochStart
            && m.maxAckHeight == b.path.maxAckHeight
  {
    hide Folded, MinRttRenewed;
  }

  /** What the ACK of step `n` leaves of the epoch `b`: a new one, or a longer one with its excess recorded. */
  ghost predicate EpochMoves(b: Path, r: Path, now: nat, bytes: nat, due: nat) {
    if b.epochBytes <= due then
      r.epochBytes == bytes && r.epochStart == now && r.maxAckHeight == b.maxAckHeight
    else
      && r.epochBytes == b.epochBytes + bytes && r.epochStart == b.epochStart
      && r.maxAckHeight == UpMax(b.maxAckHeight, r.roundCount, b.epochBytes + bytes - due)
  }

  lemma NextEpochMoves(m: Path, now: nat, bytes: nat)
    ensures var r := NextEpoch(m, now, bytes);
            EpochMoves(m, r, now, bytes, ExpectedAcked(m, now)) && r.maxBw == m.maxBw && r.roundCount == m.roundCount
  {
    hide UpMax, ExpectedAcked;
  }

  ghost predicate SameEpoch(b: Path, r: Path) {
    r.epochBytes == b.epochBytes && r.epochStart == b.epochStart && r.maxAckHeight == b.maxAckHeight
  }

  lemma AckMovesEpoch<P>(bs: seq<Bbr<P>>, es: seq<BbrEvent<P>>, n: nat)
    requires IsRun(bs, es) && AckAt(bs, es, n)
    ensures EpochMoves(bs[n].path, bs[n + 1].path, bs[n].ack.ackTime, BytesOf(bs[n]), DueBy(bs, n))
  {
    StepPath(bs, es, n);
    MeasuredKeepsEpoch(bs[n]);
    var m := Measured(Counted(bs[n])).path;
    NextEpochMoves(m, bs[n].ack.ackTime, BytesOf(bs[n]));
    hide IsRun, Measured, NextEpoch, UpMax, BytesOf, Sub64;
    assert ExpectedAcked(m, bs[n].ack.ackTime) == DueBy(bs, n);
    hide ExpectedAcked, DueBy;
  }

  /** One step of a run, seen from aggregation. */
  lemma StepEpoch<P>(bs: seq<Bbr<P>>, es: seq<BbrEvent<P>>, n: nat)
    requires IsRun(bs, es) && n < |es|
    ensures var b, r := bs[n].path, bs[n + 1].path;
            if es[n].OnReinit? then r.epochBytes == 0 && r.epochStart == 0 && r.maxAckHeight == Fresh(10)
            else if AckAt(bs, es, n) then EpochMoves(b, r, bs[n].ack.ackTime, BytesOf(bs[n]), DueBy(bs, n))
            else SameEpoch(b, r)
  {
    hide EpochMoves, DueBy;
    if AckAt(bs, es, n) {
      AckMovesEpoch(bs, es, n);
    } else {
      StepPath(bs, es, n);
      hide IsRun, Measured, NextEpoch;
    }
  }

  /** The aggregation counters of every state of every run: since when, and how many bytes were acked. */
  lemma {:induction false} EpochCountsBytes<P>(bs: seq<Bbr<P>>, es: seq<BbrEvent<P>>, n: nat) returns (a: Option<nat>)
    requires IsRun(bs, es) && n < |bs|
    ensures match a
            case None => NoEpoch(bs, es, n) && bs[n].path.epochBytes == 0
            case Some(a) =>
              && OneEpoch(bs, es, a, n) && bs[n].path.epochStart == bs[a].ack.ackTime
              && bs[n].path.epochBytes == AckedIn(bs, es, a, n)
  {
    if n == 0 {
      a := None;
    } else {
      StepEpoch(bs, es, n - 1);
      hide Next, Start, UpMax, DueBy;
      a := EpochCountsBytes(bs, es, n - 1);
      if es[n - 1].OnReinit? {
        a := None;
      } else if EpochAt(bs, es, n - 1) {
        a := Some(n - 1);
        assert AckedIn(bs, es, n - 1, n - 1) == 0;
      }
    }
  }

  /** How many bytes more than were due the epoch of step `k` has acked. */
  ghost function ExcessAt<P>(bs: seq<Bbr<P>>, k: nat): (n: nat)
    requires k + 1 < |bs|
  {
    var bytes := bs[k].path.epochBytes + BytesOf(bs[k]);
    if bytes >= DueBy(bs, k) then bytes - DueBy(bs, k) else 0
  }

  /** The excesses recorded: one at every ACK that continues an epoch. */
  ghost function Excesses<P>(bs: seq<Bbr<P>>, es: seq<BbrEvent<P>>, n: nat): (h: seq<Measure>)
    requires |bs| == |es| + 1 && n < |bs|
  {
    if n == 0 || es[n - 1].OnReinit? then []
    else
      var h := Excesses(bs, es, n - 1);
      if AckAt(bs, es, n - 1) && !EpochAt(bs, es, n - 1) then
        h + [Measure(Rounds(bs, es, n), ExcessAt(bs, n - 1))]
      else h
  }

  /** In every state of every run the ack-height filter is that of those excesses. */
  lemma {:induction false} AckHeightIsExcess<P>(bs: seq<Bbr<P>>, es: seq<BbrEvent<P>>, n: nat)
    requires IsRun(bs, es) && n < |bs|
    ensures bs[n].path.maxAckHeight == Minmax.Run(10, Excesses(bs, es, n))
  {
    hide IsRun, Minmax.Run, Excesses;
    if n == 0 {
      HeightAtStart(bs, es);
    } else {
      RunHasStates(bs, es);
      AckHeightIsExcess(bs, es, n - 1);
      HeightStep(bs, es, n);
    }
  }

  lemma RunHasStates<P>(bs: seq<Bbr<P>>, es: seq<BbrEvent<P>>)
    requires IsRun(bs, es)
    ensures |bs| == |es| + 1 && bs[0] == Start()
  {
  }

  lemma HeightAtStart<P>(bs: seq<Bbr<P>>, es: seq<BbrEvent<P>>)
    requires IsRun(bs, es)
    ensures bs[0].path.maxAckHeight == Minmax.Run(10, Excesses(bs, es, 0))
  {
    hide Next;
  }

  lemma HeightStep<P>(bs: seq<Bbr<P>>, es: seq<BbrEvent<P>>, n: nat)
    requires IsRun(bs, es) && 0 < n < |bs|
    requires bs[n - 1].path.maxAckHeight == Minmax.Run(10, Excesses(bs, es, n - 1))
    ensures bs[n].path.maxAckHeight == Minmax.Run(10, Excesses(bs, es, n))
  {
    hide *;
    RunHasStates(bs, es);
    StepHeight(bs, es, n - 1);
    ExcessesNext(bs, es, n);
    EmptyRun(10);
    RunOneMore(Excesses(bs, es, n - 1), Measure(Rounds(bs, es, n), ExcessAt(bs, n - 1)));
  }

  /** One step of a run, seen from the ack-height filter. */
  lemma StepHeight<P>(bs: seq<Bbr<P>>, es: seq<BbrEvent<P>>, n: nat)
    requires IsRun(bs, es) && n < |es|
    ensures bs[n + 1].path.maxAckHeight ==
      if es[n].OnReinit? then Fresh(10)
      else if AckAt(bs, es, n) && !EpochAt(bs, es, n) then
        UpMax(bs[n].path.maxAckHeight, Rounds(bs, es, n + 1), ExcessAt(bs, n))
      else bs[n].path.maxAckHeight
  {
    hide *;
    RunHasStates(bs, es);
    StepEpoch(bs, es, n);
    RoundsAreCounted(bs, es, n + 1);
    if !es[n].OnReinit? {
      if AckAt(bs, es, n) {
        HeightMoves(bs[n].path, bs[n + 1].path, bs[n].ack.ackTime, BytesOf(bs[n]), DueBy(bs, n));
        ExcessIs(bs, es, n);
      } else {
        SameHeight(bs[n].path, bs[n + 1].path);
      }
    }
  }

  lemma HeightMoves(b: Path, r: Path, now: nat, bytes: nat, due: nat)
    requires EpochMoves(b, r, now, bytes, due)
    ensures r.maxAckHeight ==
      if b.epochBytes <= due then b.maxAckHeight
      else UpMax(b.maxAckHeight, r.roundCount, b.epochBytes + bytes - due)
  {
    hide UpMax;
  }

  lemma SameHeight(b: Path, r: Path)
    requires SameEpoch(b, r)
    ensures r.maxAckHeight == b.maxAckHeight
  {
  }

  lemma ExcessIs<P>(bs: seq<Bbr<P>>, es: seq<BbrEvent<P>>, n: nat)
    requires AckAt(bs, es, n) && n + 1 < |bs|
    ensures EpochAt(bs, es, n) <==> bs[n].path.epochBytes <= DueBy(bs, n)
    ensures !EpochAt(bs, es, n) ==> ExcessAt(bs, n) == bs[n].path.epochBytes + BytesOf(bs[n]) - DueBy(bs, n)
  {
    hide DueBy, BytesOf;
  }

  lemma ExcessesNext<P>(bs: seq<Bbr<P>>, es: seq<BbrEvent<P>>, n: nat)
    requires |bs| == |es| + 1 && 0 < n < |bs|
    ensures Excesses(bs, es, n) ==
      if es[n - 1].OnReinit? then []
      else if AckAt(bs, es, n - 1) && !EpochAt(bs, es, n - 1) then
        Excesses(bs, es, n - 1) + [Measure(Rounds(bs, es, n), ExcessAt(bs, n - 1))]
      else Excesses(bs, es, n - 1)
  {
    hide Rounds, ExcessAt, EpochAt;
  }

  // ---------------------------------------------------------------- the minimum RTT

  /** The loop over the samples finds their smallest RTT. */
  lemma {:induction false} FoldFindsMinRtt(f: Fold, samples: seq<Sample>, round: nat)
    requires f.minRtt == UINT64_MAX && forall s :: s in samples ==> s.rtt <= UINT64_MAX
    ensures var m := FoldAll(f, samples, round).minRtt;
            && m <= UINT64_MAX
            && (forall s :: s in samples ==> m <= s.rtt)
            && (m != UINT64_MAX ==> exists s :: s in samples && s.rtt == m)
  {
    if samples != [] {
      var pre, s := samples[..|samples| - 1], samples[|samples| - 1];
      FoldFindsMinRtt(f, pre, round);
      assert samples == pre + [s];
      var p := FoldAll(f, pre, round).minRtt;
      var m := FoldAll(f, samples, round).minRtt;
      assert m == if p == UINT64_MAX || s.rtt < p then s.rtt else p;
      hide FoldAll;
      assert s in samples;
      if m != UINT64_MAX && m != s.rtt {
        var t :| t in pre && t.rtt == p;
        assert t in samples;
      }
    }
  }

  /** The minimum RTT, and its age, after the samples of an ACK. */
  lemma MeasuredMinRtt<P>(b: Bbr<P>)
    requires RttsFit(b)
    ensures var r := Measured(Counted(b)).path;
            && (MinRttRenewed(Counted(b)) ==>
                  && r.minRttTimestamp == b.ack.ackTime
                  && (exists s :: s in b.ack.samples && s.rtt == r.minRtt)
                  && (forall s :: s in b.ack.samples ==> r.minRtt <= s.rtt))
            && (!MinRttRenewed(Counted(b)) ==>
                  && r.minRtt == b.path.minRtt && r.minRttTimestamp == b.path.minRttTimestamp
                  && forall s :: s in b.ack.samples && s.rtt < UINT64_MAX ==>
                       && r.minRtt <= s.rtt && b.ack.ackTime <= r.minRttTimestamp + MIN_RTT_EXPIRY)
  {
    var d := Counted(b);
    FoldFindsMinRtt(FoldStart(d.path), d.ack.samples, d.path.roundCount);
    hide FoldAll;
  }

  /** The RTT of every sample of a run fits 64 bits. */
  ghost predicate RttsFit<P>(b: Bbr<P>) {
    forall s :: s in b.ack.samples ==> s.rtt <= UINT64_MAX
  }

  lemma StepRtts<P>(b: Bbr<P>, e: BbrEvent<P>)
    requires CountsOk(b) && Legal(b, e) && RttsFit(b)
    ensures RttsFit(StepBbr(b, e))
  {
    match e
    case OnEndAck(inFlight, rttStat, rand) =>
      EndAckKeepsAck(b, inFlight, rttStat, rand);
    case OnAck(p, i, size) =>
      assert forall s :: s in StepBbr(b, e).ack.samples ==>
        s in b.ack.samples || s.rtt == (b.ack.ackTime - i.sent) % (UINT64_MAX + 1);
    case _ =>
  }

  lemma EndAckKeepsAck<P>(b: Bbr<P>, inFlight: nat, rttStat: nat, rand: byte)
    requires CountsOk(b) && b.inAck
    ensures EndAck(b, inFlight, rttStat, rand).ack == b.ack
  {
    var c := b.(inAck := false);
    if b.ack.ackedBytes != 0 {
      ModelPath(c);
    }
    var m := ModelUpdated(c);
    assert m.ack == b.ack;
    hide ModelUpdated, NextPacingRate, NextCwnd, NextRecoveryWindow, Expired, RoundStart, CountsOk;
    ModeKeepsAck(m, RoundStart(b), Expired(b), inFlight, rttStat, rand);
    hide ModeUpdated;
  }

  lemma ModeKeepsAck<P>(b: Bbr<P>, roundStart: bool, expired: bool, inFlight: nat, rttStat: nat, rand: byte)
    ensures ModeUpdated(b, roundStart, expired, inFlight, rttStat, rand).ack == b.ack
  {
    var c := if b.mode == ProbeBw then Cycled(b, inFlight, rttStat) else b;
    CycledPath(b, inFlight, rttStat);
    var f := if roundStart && !c.full.atFullBw then FullBwChecked(c) else c;
    assert f.ack == c.ack;
    var l := LeftStartupOrDrain(f, inFlight, rttStat, rand);
    LeftStartupPath(f, inFlight, rttStat, rand);
    var e := EnteredProbeRtt(l, expired);
    assert e.ack == l.ack;
    LeftProbeRttAck(e, roundStart, inFlight, rand);
    hide Cycled, FullBwChecked, LeftStartupOrDrain, EnteredProbeRtt, LeftProbeRtt;
  }

  lemma LeftProbeRttAck<P>(b: Bbr<P>, roundStart: bool, inFlight: nat, rand: byte)
    ensures LeftProbeRtt(b, roundStart, inFlight, rand).ack == b.ack
  {
    hide AppLimited;
  }

  lemma {:induction false} RunRttsFit<P>(bs: seq<Bbr<P>>, es: seq<BbrEvent<P>>, n: nat)
    requires IsRun(bs, es) && n < |bs|
    ensures RttsFit(bs[n])
  {
    if n > 0 {
      RunRttsFit(bs, es, n - 1);
      RunKeepsInv(bs, es, n - 1);
      hide Inv, CountsOk, RttsFit, Start, StepBbr;
      InvMeansCounts(bs[n - 1]);
      assert Next(bs[n - 1], es[n - 1], bs[n]);
      StepRtts(bs[n - 1], es[n - 1]);
    }
  }

  /** What a step of a run does to the minimum RTT. */
  lemma StepMinRtt<P>(bs: seq<Bbr<P>>, es: seq<BbrEvent<P>>, n: nat)
    requires IsRun(bs, es) && n < |es|
    ensures var b, r := bs[n].path, bs[n + 1].path;
            if es[n].OnReinit? then r.minRtt == 0
            else if !AckAt(bs, es, n) then r.minRtt == b.minRtt
            else
              var m := Measured(Counted(bs[n])).path;
              r.minRtt == m.minRtt
              && (r.minRttTimestamp == m.minRttTimestamp || r.minRttTimestamp == bs[n].ack.ackTime)
  {
    StepPath(bs, es, n);
    hide IsRun, Measured;
    if AckAt(bs, es, n) {
      NextEpochKeepsRtt(Measured(Counted(bs[n])).path, bs[n].ack.ackTime, BytesOf(bs[n]));
      hide NextEpoch;
    }
  }

  lemma NextEpochKeepsRtt(p: Path, now: nat, bytes: nat)
    ensures NextEpoch(p, now, bytes).minRtt == p.minRtt
    ensures NextEpoch(p, now, bytes).minRttTimestamp == p.minRttTimestamp
  {
    hide UpMax, ExpectedAcked;
  }

  /** At every ACK of every run that brings samples, the minimum RTT afterwards is at most that of
      each, and was taken or confirmed at most ten seconds before. */
  lemma RunMinRttIsRecentMin<P>(bs: seq<Bbr<P>>, es: seq<BbrEvent<P>>, n: nat)
    requires IsRun(bs, es) && AckAt(bs, es, n)
    ensures forall s :: s in bs[n].ack.samples && s.rtt < UINT64_MAX ==>
      && bs[n + 1].path.minRtt <= s.rtt
      && bs[n].ack.ackTime <= bs[n + 1].path.minRttTimestamp + MIN_RTT_EXPIRY
  {
    RunRttsFit(bs, es, n);
    StepMinRtt(bs, es, n);
    MeasuredMinRtt(bs[n]);
    hide IsRun, Measured, MinRttRenewed;
  }

  /** A sample of the ACK renews the minimum RTT: there was none, that of the sample is smaller, or the
      minimum is older than ten seconds. */
  ghost predicate Renews<P>(b: Bbr<P>) {
    exists s :: s in b.ack.samples && s.rtt < UINT64_MAX
                && (|| b.path.minRtt == 0 || s.rtt < b.path.minRtt
                    || b.ack.ackTime > b.path.minRttTimestamp + MIN_RTT_EXPIRY)
  }

  /** Step `k` ends an ACK that does so. */
  ghost predicate RenewedAt<P>(bs: seq<Bbr<P>>, es: seq<BbrEvent<P>>, k: nat) {
    AckAt(bs, es, k) && Renews(bs[k])
  }

  /** The code's tests on the smallest RTT of the samples come to that. */
  lemma RenewsIff<P>(b: Bbr<P>)
    requires RttsFit(b)
    ensures MinRttRenewed(Counted(b)) <==> Renews(b)
    ensures MinRttExpired(Counted(b)) <==>
      && (exists s :: s in b.ack.samples && s.rtt < UINT64_MAX)
      && b.path.minRtt != 0 && b.ack.ackTime > b.path.minRttTimestamp + MIN_RTT_EXPIRY
  {
    var d := Counted(b);
    FoldFindsMinRtt(FoldStart(d.path), d.ack.samples, d.path.roundCount);
    hide FoldAll;
  }

  /** `a` is the latest renewal before state `n`, with no re-initialization since. */
  ghost predicate LastRenewal<P>(bs: seq<Bbr<P>>, es: seq<BbrEvent<P>>, a: nat, n: nat) {
    && a < n <= |es| && RenewedAt(bs, es, a)
    && forall k :: a < k < n ==> !RenewedAt(bs, es, k) && !es[k].OnReinit?
  }

  /** There was no renewal since the last re-initialization. */
  ghost predicate NoRenewal<P>(bs: seq<Bbr<P>>, es: seq<BbrEvent<P>>, n: nat) {
    n <= |es| && forall k :: SinceInit(es, n) <= k < n ==> !RenewedAt(bs, es, k)
  }

  /** `rtt` is that of a sample of step `a` and not above that of any sample since. */
  ghost predicate LeastSince<P>(bs: seq<Bbr<P>>, es: seq<BbrEvent<P>>, a: nat, n: nat, rtt: nat) {
    && a < |bs| && (exists s :: s in bs[a].ack.samples && s.rtt == rtt)
    && forall k, s :: a <= k < n && AckAt(bs, es, k) && s in bs[k].ack.samples && s.rtt < UINT64_MAX ==> rtt <= s.rtt
  }

  /**
   * In every state of every run the minimum RTT is the RTT of a sample of the ACK
   * that renewed it last, and not above that of any sample since; it is zero while
   * no ACK has.
   */
  lemma {:induction false} MinRttIsLeastSample<P>(bs: seq<Bbr<P>>, es: seq<BbrEvent<P>>, n: nat)
    returns (a: Option<nat>)
    requires IsRun(bs, es) && n < |bs|
    ensures match a
            case None => NoRenewal(bs, es, n) && bs[n].path.minRtt == 0
            case Some(a) => LastRenewal(bs, es, a, n) && LeastSince(bs, es, a, n, bs[n].path.minRtt)
  {
    hide IsRun, RenewedAt, LeastSince, AckAt;
    RunHasStates(bs, es);
    if n == 0 {
      a := None;
    } else {
      a := MinRttIsLeastSample(bs, es, n - 1);
      MinRttMoves(bs, es, n - 1);
      if es[n - 1].OnReinit? {
        a := None;
      } else if RenewedAt(bs, es, n - 1) {
        a := Some(n - 1);
      } else if a.Some? {
        LeastStill(bs, es, a.value, n - 1, bs[n].path.minRtt);
      }
    }
  }

  lemma LeastStill<P>(bs: seq<Bbr<P>>, es: seq<BbrEvent<P>>, a: nat, n: nat, rtt: nat)
    requires LeastSince(bs, es, a, n, rtt) && n < |bs|
    requires AckAt(bs, es, n) ==> forall s :: s in bs[n].ack.samples && s.rtt < UINT64_MAX ==> rtt <= s.rtt
    ensures LeastSince(bs, es, a, n + 1, rtt)
  {
  }

  /** A step renews the minimum RTT, or leaves it not above its samples. */
  lemma MinRttMoves<P>(bs: seq<Bbr<P>>, es: seq<BbrEvent<P>>, n: nat)
    requires IsRun(bs, es) && n < |es|
    ensures var rtt := bs[n + 1].path.minRtt;
            if es[n].OnReinit? then rtt == 0
            else if RenewedAt(bs, es, n) then LeastSince(bs, es, n, n + 1, rtt)
            else
              && rtt == bs[n].path.minRtt
              && (AckAt(bs, es, n) ==> forall s :: s in bs[n].ack.samples && s.rtt < UINT64_MAX ==> rtt <= s.rtt)
  {
    RunRttsFit(bs, es, n);
    StepMinRtt(bs, es, n);
    MeasuredMinRtt(bs[n]);
    RenewsIff(bs[n]);
    hide IsRun, Measured, MinRttRenewed, Counted, RttsFit, Renews;
  }

  // ---------------------------------------------------------------- recovery

  /** Step `k` ends an ACK that acked something and reported a loss. */
  ghost predicate LossAt<P>(bs: seq<Bbr<P>>, es: seq<BbrEvent<P>>, k: nat) {
    AckAt(bs, es, k) && bs[k].ack.hasLosses
  }

  /** `a` is the latest loss before state `n`. */
  ghost predicate LastLoss<P>(bs: seq<Bbr<P>>, es: seq<BbrEvent<P>>, a: nat, n: nat) {
    a < n && LossAt(bs, es, a) && forall k :: a < k < n ==> !LossAt(bs, es, k)
  }

  lemma EndAckRecovery<P>(b: Bbr<P>, inFlight: nat, rttStat: nat, rand: byte)
    requires CountsOk(b) && b.inAck
    ensures var r := EndAck(b, inFlight, rttStat, rand);
            if b.ack.ackedBytes == 0 then
              r.loss.recovery == b.loss.recovery && r.loss.endRecoveryAt == b.loss.endRecoveryAt
            else
              && r.loss.recovery == NextRecovery(b, RoundStart(b))
              && r.loss.endRecoveryAt == if b.ack.hasLosses then b.lastSent else b.loss.endRecoveryAt
  {
    EndAckPath(b, inFlight, rttStat, rand);
    if b.ack.ackedBytes != 0 {
      var c := b.(inAck := false);
      ModelPath(c);
      var m := Measured(Counted(c));
      assert m.ack == b.ack && m.loss == b.loss && m.lastSent == b.lastSent;
      assert RoundStart(c) == RoundStart(b);
      hide ModelUpdated, EndAck, Measured, CountsOk, RoundStart;
    }
  }

  /** One step of a run, seen from recovery. */
  lemma StepRecovery<P>(bs: seq<Bbr<P>>, es: seq<BbrEvent<P>>, n: nat)
    requires IsRun(bs, es) && n < |es|
    ensures var b, r := bs[n], bs[n + 1];
            if !es[n].OnEndAck? || b.ack.ackedBytes == 0 then
              r.loss.recovery == b.loss.recovery && r.loss.endRecoveryAt == b.loss.endRecoveryAt
            else
              && r.loss.recovery == NextRecovery(b, RoundStart(b))
              && r.loss.endRecoveryAt == if b.ack.hasLosses then b.lastSent else b.loss.endRecoveryAt
  {
    hide Inv, EndAck, Start, CountsOk, RoundStart, NextRecovery;
    var b, e := bs[n], es[n];
    RunKeepsInv(bs, es, n);
    InvMeansCounts(b);
    assert Next(b, e, bs[n + 1]);
    if e.OnEndAck? {
      EndAckRecovery(b, e.inFlight, e.rttStat, e.rand);
    } else if !e.OnReinit? {
      OtherKeepsPath(b, e);
    }
  }

  /** A state in recovery has a latest loss, and remembers the last packet sent by then. */
  lemma {:induction false} RecoverySinceLoss<P>(bs: seq<Bbr<P>>, es: seq<BbrEvent<P>>, n: nat) returns (a: nat)
    requires IsRun(bs, es) && n < |bs| && bs[n].loss.recovery != NotInRecovery
    ensures LastLoss(bs, es, a, n) && bs[n].loss.endRecoveryAt == bs[a].lastSent
  {
    assert n > 0;
    StepRecovery(bs, es, n - 1);
    hide Next, Start;
    if LossAt(bs, es, n - 1) {
      a := n - 1;
    } else {
      a := RecoverySinceLoss(bs, es, n - 1);
    }
  }

  /**
   * Recovery ends exactly when an ACK without a loss acks a packet sent after the latest loss
   * was reported; until then it goes over to growth exactly when a round starts.
   */
  lemma RecoveryEndsExactly<P>(bs: seq<Bbr<P>>, es: seq<BbrEvent<P>>, n: nat) returns (a: nat)
    requires IsRun(bs, es) && n < |es| && bs[n].loss.recovery != NotInRecovery
    ensures LastLoss(bs, es, a, n)
    ensures bs[n + 1].loss.recovery == NotInRecovery <==>
      es[n].OnEndAck? && bs[n].ack.ackedBytes != 0 && !bs[n].ack.hasLosses && bs[n].ack.maxPackno > bs[a].lastSent
    ensures bs[n + 1].loss.recovery == Growth <==>
      bs[n + 1].loss.recovery != NotInRecovery && (bs[n].loss.recovery == Growth || RoundAt(bs, es, n))
  {
    a := RecoverySinceLoss(bs, es, n);
    StepRecovery(bs, es, n);
    NoRoundWithoutAck(bs[n]);
    hide IsRun, RoundStart;
  }

  lemma NoRoundWithoutAck<P>(b: Bbr<P>)
    ensures RoundStart(b) ==> b.ack.ackedBytes != 0
  {
  }

  /** Recovery starts exactly with a loss, and conserves at first. */
  lemma RecoveryStartsWithLoss<P>(bs: seq<Bbr<P>>, es: seq<BbrEvent<P>>, n: nat)
    requires IsRun(bs, es) && n < |es| && bs[n].loss.recovery == NotInRecovery
    ensures bs[n + 1].loss.recovery == if LossAt(bs, es, n) then Conservation else NotInRecovery
  {
    StepRecovery(bs, es, n);
    hide IsRun, RoundStart;
  }
}
