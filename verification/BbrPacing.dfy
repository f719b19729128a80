/** BBR's gains and pacing rate over every run. */
module BbrPacing {
  import opened Basics
  import opened SamplerSpec
  import opened BbrSpec
  import opened BbrRuns

  /** Every mode has its gains; in PROBE_BW the pacing gain is the one of the cycle's place. */
  ghost predicate GainsOk<P>(b: Bbr<P>) {
    match b.mode
    case Startup => b.pace.pacingGain == HIGH_GAIN && b.pace.cwndGain == HIGH_GAIN
    case Drain => b.pace.pacingGain == DRAIN_GAIN && b.pace.cwndGain == HIGH_GAIN
    case ProbeBw => b.pace.pacingGain == PacingGain(b.pace.cycleOffset) && b.pace.cwndGain == CWND_GAIN
    case ProbeRtt => b.pace.pacingGain == 1.0
  }

  lemma CycledGains<P>(b: Bbr<P>, inFlight: nat, rttStat: nat)
    requires GainsOk(b) && b.mode == ProbeBw
    ensures var r := Cycled(b, inFlight, rttStat);
            GainsOk(r) && r.mode == b.mode && r.pace.pacingRate == b.pace.pacingRate && r.full == b.full
  {
    hide TargetCwnd;
  }

  lemma LeftStartupGains<P>(b: Bbr<P>, inFlight: nat, rttStat: nat, rand: byte)
    requires GainsOk(b)
    ensures var r := LeftStartupOrDrain(b, inFlight, rttStat, rand);
            GainsOk(r) && r.pace.pacingRate == b.pace.pacingRate && r.full == b.full
  {
    hide TargetCwnd;
  }

  lemma ProbeRttGains<P>(b: Bbr<P>, expired: bool, roundStart: bool, inFlight: nat, rand: byte)
    requires GainsOk(b)
    ensures var r := LeftProbeRtt(EnteredProbeRtt(b, expired), roundStart, inFlight, rand);
            GainsOk(r) && r.pace.pacingRate == b.pace.pacingRate && r.full == b.full
  {
    hide LeftProbeRtt;
    LeftProbeRttGains(EnteredProbeRtt(b, expired), roundStart, inFlight, rand);
  }

  lemma LeftProbeRttGains<P>(b: Bbr<P>, roundStart: bool, inFlight: nat, rand: byte)
    requires GainsOk(b)
    ensures var r := LeftProbeRtt(b, roundStart, inFlight, rand);
            GainsOk(r) && r.pace.pacingRate == b.pace.pacingRate && r.full == b.full
  {
    hide AppLimited;
  }

  lemma ModeGains<P>(b: Bbr<P>, roundStart: bool, expired: bool, inFlight: nat, rttStat: nat, rand: byte)
    requires GainsOk(b)
    ensures var r := ModeUpdated(b, roundStart, expired, inFlight, rttStat, rand);
            GainsOk(r) && r.pace.pacingRate == b.pace.pacingRate
  {
    var c := if b.mode == ProbeBw then Cycled(b, inFlight, rttStat) else b;
    if b.mode == ProbeBw {
      CycledGains(b, inFlight, rttStat);
    }
    var f := if roundStart && !c.full.atFullBw then FullBwChecked(c) else c;
    assert f.mode == c.mode && f.pace == c.pace;
    hide GainsOk, Cycled, FullBwChecked, LeftStartupOrDrain, EnteredProbeRtt, LeftProbeRtt;
    SameGains(c, f);
    LeftStartupGains(f, inFlight, rttStat, rand);
    ProbeRttGains(LeftStartupOrDrain(f, inFlight, rttStat, rand), expired, roundStart, inFlight, rand);
  }

  lemma SameGains<P>(b: Bbr<P>, r: Bbr<P>)
    requires GainsOk(b) && r.mode == b.mode && r.pace == b.pace
    ensures GainsOk(r)
  {
  }

  /** Before full bandwidth: no rate without an estimate, then the initial window per round trip, then the
      estimate times the gain when that is more. */
  ghost predicate RateBeforeFull<P>(was: nat, r: Bbr<P>, rttStat: nat) {
    var bw := r.path.maxBw.best.value;
    && (bw == 0 ==> r.pace.pacingRate == was)
    && (!r.full.atFullBw && bw != 0 && was == 0 && rttStat != 0 ==>
          r.pace.pacingRate == BwFromBytes(INIT_CWND, rttStat))
    && (!r.full.atFullBw && bw != 0 && (was != 0 || rttStat == 0) ==>
          r.pace.pacingRate == Max(was, Scale(bw, r.pace.pacingGain)))
  }

  /** The pacing rate does not fall before full bandwidth, and at full bandwidth is the estimate times the gain. */
  lemma PacedFollows<P>(b: Bbr<P>, rttStat: nat)
    ensures var r := Paced(b, rttStat);
            && (!b.full.atFullBw ==> r.pace.pacingRate >= b.pace.pacingRate)
            && (b.full.atFullBw && b.path.maxBw.best.value != 0 ==>
                  r.pace.pacingRate == Scale(b.path.maxBw.best.value, b.pace.pacingGain))
            && RateBeforeFull(b.pace.pacingRate, r, rttStat)
            && (GainsOk(b) ==> GainsOk(r))
  {
    hide Scale, BwFromBytes;
  }

  lemma EndAckGains<P>(b: Bbr<P>, inFlight: nat, rttStat: nat, rand: byte)
    requires Inv(b) && b.inAck && GainsOk(b)
    ensures var r := EndAck(b, inFlight, rttStat, rand);
            && GainsOk(r) && (!r.full.atFullBw ==> r.pace.pacingRate >= b.pace.pacingRate)
            && (r.full.atFullBw && r.path.maxBw.best.value != 0 ==>
                  r.pace.pacingRate == Scale(r.path.maxBw.best.value, r.pace.pacingGain))
            && RateBeforeFull(b.pace.pacingRate, r, rttStat)
  {
    hide Inv, ModelUpdated, ModeUpdated, NextPacingRate, NextCwnd, NextRecoveryWindow, Expired, RoundStart,
      GainsOk, Scale, CountsOk;
    InvMeansCounts(b);
    CountedEarlier(b);
    var m := ModelUpdated(b.(inAck := false));
    ModelKeepsPace(b.(inAck := false));
    SameGains(b, m);
    var d := ModeUpdated(m, RoundStart(b), Expired(b), inFlight, rttStat, rand);
    ModeGains(m, RoundStart(b), Expired(b), inFlight, rttStat, rand);
    PacedFollows(d, rttStat);
    SameGains(Paced(d, rttStat), EndAck(b, inFlight, rttStat, rand));
  }

  lemma CountedEarlier<P>(b: Bbr<P>)
    requires CountsOk(b) && b.inAck
    ensures b.ack.totalBefore <= b.sampler.totalAcked
  {
  }

  lemma ModelKeepsPace<P>(b: Bbr<P>)
    requires b.ack.totalBefore <= b.sampler.totalAcked
    ensures ModelUpdated(b).pace == b.pace && ModelUpdated(b).mode == b.mode
  {
    hide Folded, MinRttRenewed, NextRecovery, Minmax.UpMax;
    if b.ack.ackedBytes != 0 {
      AggregatedKeepsPace(Recovered(Measured(Counted(b)), RoundStart(b)), BytesAcked(b));
      hide Aggregated;
    }
  }

  lemma AggregatedKeepsPace<P>(b: Bbr<P>, n: nat)
    ensures Aggregated(b, n).pace == b.pace && Aggregated(b, n).mode == b.mode
  {
  }

  lemma {:induction false} GainsFollowMode<P>(bs: seq<Bbr<P>>, es: seq<BbrEvent<P>>, n: nat)
    requires IsRun(bs, es) && n < |bs|
    ensures GainsOk(bs[n])
  {
    if n > 0 {
      GainsFollowMode(bs, es, n - 1);
      StepGains(bs, es, n - 1);
    }
  }

  /** One step of a run keeps the gains right and, before full bandwidth, the pacing rate from falling. */
  lemma StepGains<P>(bs: seq<Bbr<P>>, es: seq<BbrEvent<P>>, n: nat)
    requires IsRun(bs, es) && n < |es| && GainsOk(bs[n])
    ensures GainsOk(bs[n + 1])
    ensures !es[n].OnReinit? && !bs[n + 1].full.atFullBw ==> bs[n + 1].pace.pacingRate >= bs[n].pace.pacingRate
    ensures es[n].OnEndAck? && bs[n + 1].full.atFullBw && bs[n + 1].path.maxBw.best.value != 0 ==>
      bs[n + 1].pace.pacingRate == Scale(bs[n + 1].path.maxBw.best.value, bs[n + 1].pace.pacingGain)
    ensures es[n].OnEndAck? ==> RateBeforeFull(bs[n].pace.pacingRate, bs[n + 1], es[n].rttStat)
  {
    hide Inv, EndAck, Start, Scale, RateBeforeFull;
    var b, e := bs[n], es[n];
    RunKeepsInv(bs, es, n);
    InvMeansCounts(b);
    assert Next(b, e, bs[n + 1]);
    if e.OnEndAck? {
      EndAckGains(b, e.inFlight, e.rttStat, e.rand);
    }
  }

  /** Before full bandwidth, and without re-initialization, the pacing rate never falls. */
  lemma {:induction false} PacingRateNeverFalls<P>(bs: seq<Bbr<P>>, es: seq<BbrEvent<P>>, m: nat, n: nat)
    requires IsRun(bs, es) && m <= n < |bs| && !bs[n].full.atFullBw && forall i :: m <= i < n ==> !es[i].OnReinit?
    ensures bs[n].pace.pacingRate >= bs[m].pace.pacingRate
  {
    hide Next, Start;
    if m < n {
      NotFullEarlier(bs, es, n);
      PacingRateNeverFalls(bs, es, m, n - 1);
      GainsFollowMode(bs, es, n - 1);
      StepGains(bs, es, n - 1);
    }
  }

  lemma NotFullEarlier<P>(bs: seq<Bbr<P>>, es: seq<BbrEvent<P>>, n: nat)
    requires IsRun(bs, es) && 0 < n < |bs| && !es[n - 1].OnReinit?
    ensures bs[n - 1].full.atFullBw ==> bs[n].full.atFullBw
  {
    BetweenReinits(bs, es, n - 1, n);
  }
}
