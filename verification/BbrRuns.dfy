/** What BBR keeps over every run. */
module BbrRuns {
  import opened Basics
  import opened SamplerSpec
  import opened Minmax
  import opened BbrSpec

  datatype BbrEvent<!P> =
    | OnSent(p: P, i: PacketInfo, inFlight: nat, mini: bool, appLimited: bool)
    | OnLost(p: P, size: nat)
    | OnBeginAck(ackTime: nat, inFlight: nat)
    | OnAck(p: P, i: PacketInfo, size: nat)
    | OnEndAck(inFlight: nat, rttStat: nat, rand: byte)
    | OnReinit

  /** The window lies within its bounds, in recovery too. */
  ghost predicate WindowsOk<P>(b: Bbr<P>) {
    MIN_CWND <= b.cwnd <= MAX_CWND && (b.loss.recovery != NotInRecovery ==> b.loss.recoveryWindow >= MIN_CWND)
  }

  /** Full bandwidth is known exactly outside STARTUP, but for PROBE_RTT, which may be either way. */
  ghost predicate ModesOk<P>(b: Bbr<P>) {
    && (b.mode == Drain || b.mode == ProbeBw ==> b.full.atFullBw)
    && (b.mode == Startup ==> !b.full.atFullBw)
  }

  /** Until a sample that was not app-limited came, nothing counts toward full bandwidth. */
  ghost predicate SamplesOk<P>(b: Bbr<P>) {
    !b.path.hasNonAppLimited ==>
      && b.full.bwAtLastRound == 0 && b.full.roundWoGain == 0 && !b.full.atFullBw
      && (b.path.lastSampleAppLimited || b.path.maxBw.best.value == 0)
  }

  ghost predicate CountsOk<P>(b: Bbr<P>) {
    && Ordered(b.sampler) && (b.inAck ==> b.ack.totalBefore <= b.sampler.totalAcked)
    && b.pace.cycleOffset < CYCLE && (b.full.roundWoGain < STARTUP_RTTS || b.full.atFullBw)
  }

  ghost predicate Inv<P>(b: Bbr<P>) {
    WindowsOk(b) && ModesOk(b) && SamplesOk(b) && CountsOk(b)
  }

  /** The source's own assertions on the order of calls. */
  predicate Legal<P>(b: Bbr<P>, e: BbrEvent<P>) {
    && (e.OnBeginAck? ==> !b.inAck)
    && (e.OnAck? || e.OnEndAck? ==> b.inAck)
  }

  ghost function StepBbr<P>(b: Bbr<P>, e: BbrEvent<P>): (r: Bbr<P>)
    requires CountsOk(b) && Legal(b, e)
  {
    match e
    case OnSent(p, i, inFlight, mini, appLimited) => BbrSent(b, p, i, inFlight, mini, appLimited)
    case OnLost(p, size) => BbrLost(b, p, size)
    case OnBeginAck(t, inFlight) => BeginAck(b, t, inFlight)
    case OnAck(p, i, size) => BbrAck(b, p, i, size)
    case OnEndAck(inFlight, rttStat, rand) => EndAck(b, inFlight, rttStat, rand)
    case OnReinit => InitBbr(b)
  }

  // ---------------------------------------------------------------- stages of the end of an ACK

  ghost predicate FoldOk(f: Fold) {
    !f.hasNonAppLimited ==> f.lastAppLimited || f.maxBw.best.value == 0
  }

  lemma {:induction false} FoldKeeps(f: Fold, samples: seq<Sample>, round: nat)
    requires FoldOk(f)
    ensures FoldOk(FoldAll(f, samples, round))
    ensures f.hasNonAppLimited ==> FoldAll(f, samples, round).hasNonAppLimited
  {
    if samples != [] {
      FoldKeeps(f, samples[..|samples| - 1], round);
    }
  }

  /** The model stages leave the mode, the window and the full-bandwidth state alone. */
  ghost predicate SameMode<P>(b: Bbr<P>, r: Bbr<P>) {
    && r.mode == b.mode && r.full.atFullBw == b.full.atFullBw && r.exitProbeRttAt == b.exitProbeRttAt
    && r.roundPassed == b.roundPassed && r.cwnd == b.cwnd && r.ack == b.ack && r.inAck == b.inAck
    && r.sampler == b.sampler && r.pace.cycleOffset == b.pace.cycleOffset
    && r.full.bwAtLastRound == b.full.bwAtLastRound && r.full.roundWoGain == b.full.roundWoGain
  }

  /** In recovery the window is set, or about to be by `RecoveryWindowed`. */
  ghost predicate RecoveryPending<P>(b: Bbr<P>) {
    b.loss.recovery != NotInRecovery ==> b.loss.recoveryWindow == 0 || b.loss.recoveryWindow >= MIN_CWND
  }

  lemma MeasuredKeeps<P>(b: Bbr<P>)
    requires SamplesOk(b)
    ensures SamplesOk(Measured(b)) && SameMode(b, Measured(b))
    ensures Measured(b).loss.recovery == b.loss.recovery && Measured(b).loss.recoveryWindow == b.loss.recoveryWindow
  {
    hide FoldAll, UpMax, Ordered, MinRttRenewed;
    FoldKeeps(FoldStart(b.path), b.ack.samples, b.path.roundCount);
  }

  lemma ModelKeeps<P>(b: Bbr<P>)
    requires SamplesOk(b) && RecoveryPending(b) && b.ack.totalBefore <= b.sampler.totalAcked
    ensures SamplesOk(ModelUpdated(b)) && SameMode(b, ModelUpdated(b)) && RecoveryPending(ModelUpdated(b))
  {
    hide Measured, Aggregated, Recovered;
    if b.ack.ackedBytes != 0 {
      MeasuredKeeps(Counted(b));
      RecoveredKeeps(b, Measured(Counted(b)), RoundStart(b));
      AggregatedKeeps(b, Recovered(Measured(Counted(b)), RoundStart(b)));
    }
  }

  lemma RecoveredKeeps<P>(b: Bbr<P>, m: Bbr<P>, roundStart: bool)
    requires SamplesOk(m) && SameMode(b, m) && RecoveryPending(m)
    ensures var r := Recovered(m, roundStart); SamplesOk(r) && SameMode(b, r) && RecoveryPending(r)
  {
  }

  lemma AggregatedKeeps<P>(b: Bbr<P>, m: Bbr<P>)
    requires SamplesOk(m) && SameMode(b, m) && RecoveryPending(m)
    requires b.ack.totalBefore <= b.sampler.totalAcked
    ensures var r := Aggregated(m, BytesAcked(b)); SamplesOk(r) && SameMode(b, r) && RecoveryPending(r)
  {
  }

  /** The mode stages leave the windows and the ACK alone. */
  ghost predicate SameWindows<P>(b: Bbr<P>, r: Bbr<P>) {
    && r.cwnd == b.cwnd && r.loss.recovery == b.loss.recovery && r.loss.recoveryWindow == b.loss.recoveryWindow
    && r.ack == b.ack && r.inAck == b.inAck
  }

  /** check_if_full_bw_reached: its assertion, that a sample that was not app-limited was seen, holds. */
  lemma FullBwAssertionHolds<P>(b: Bbr<P>)
    requires SamplesOk(b) && FullBwChecked(b).full.atFullBw
    ensures b.path.hasNonAppLimited
  {
  }

  lemma CycledKeeps<P>(b: Bbr<P>, inFlight: nat, rttStat: nat)
    ensures var r := Cycled(b, inFlight, rttStat);
            && SameWindows(b, r) && r.mode == b.mode && r.full.atFullBw == b.full.atFullBw && r.sampler == b.sampler
            && r.exitProbeRttAt == b.exitProbeRttAt && r.roundPassed == b.roundPassed
            && (b.pace.cycleOffset < CYCLE ==> r.pace.cycleOffset < CYCLE) && r.full.roundWoGain == b.full.roundWoGain
            && (SamplesOk(b) ==> SamplesOk(r))
  {
  }

  lemma FullBwKeeps<P>(b: Bbr<P>)
    requires SamplesOk(b) && (b.full.roundWoGain < STARTUP_RTTS || b.full.atFullBw)
    ensures var r := FullBwChecked(b);
            && SameWindows(b, r) && r.mode == b.mode && r.sampler == b.sampler
            && r.exitProbeRttAt == b.exitProbeRttAt && r.roundPassed == b.roundPassed
            && r.pace.cycleOffset == b.pace.cycleOffset && (b.full.atFullBw ==> r.full.atFullBw)
            && SamplesOk(r) && (r.full.roundWoGain < STARTUP_RTTS || r.full.atFullBw)
  {
  }

  lemma LeftStartupKeeps<P>(b: Bbr<P>, inFlight: nat, rttStat: nat, rand: byte)
    requires SamplesOk(b) && (b.mode == Drain || b.mode == ProbeBw ==> b.full.atFullBw)
    ensures var r := LeftStartupOrDrain(b, inFlight, rttStat, rand);
            && SameWindows(b, r) && ModesOk(r) && SamplesOk(r) && r.sampler == b.sampler
            && r.exitProbeRttAt == b.exitProbeRttAt && r.roundPassed == b.roundPassed
            && r.full.atFullBw == b.full.atFullBw && r.full.roundWoGain == b.full.roundWoGain
            && (b.pace.cycleOffset < CYCLE ==> r.pace.cycleOffset < CYCLE)
            && (r.mode == ProbeRtt <==> b.mode == ProbeRtt)
  {
  }

  lemma EnteredProbeRttKeeps<P>(b: Bbr<P>, expired: bool)
    requires SamplesOk(b) && ModesOk(b)
    ensures var r := EnteredProbeRtt(b, expired);
            && SameWindows(b, r) && ModesOk(r) && SamplesOk(r) && r.sampler == b.sampler
            && r.full.atFullBw == b.full.atFullBw && r.full.roundWoGain == b.full.roundWoGain
            && r.pace.cycleOffset == b.pace.cycleOffset
  {
  }

  lemma LeftProbeRttKeeps<P>(b: Bbr<P>, roundStart: bool, inFlight: nat, rand: byte)
    requires SamplesOk(b) && ModesOk(b)
    ensures var r := LeftProbeRtt(b, roundStart, inFlight, rand);
            && SameWindows(b, r) && ModesOk(r) && SamplesOk(r)
            && r.full.atFullBw == b.full.atFullBw && r.full.roundWoGain == b.full.roundWoGain
            && (b.pace.cycleOffset < CYCLE ==> r.pace.cycleOffset < CYCLE)
            && (r.sampler == b.sampler || r.sampler == AppLimited(b.sampler))
  {
    hide AppLimited;
  }

  lemma ModeKeeps<P>(b: Bbr<P>, roundStart: bool, expired: bool, inFlight: nat, rttStat: nat, rand: byte)
    requires ModesOk(b) && SamplesOk(b) && CountsOk(b)
    ensures var r := ModeUpdated(b, roundStart, expired, inFlight, rttStat, rand);
            && SameWindows(b, r) && ModesOk(r) && SamplesOk(r) && CountsOk(r)
            && (b.full.atFullBw ==> r.full.atFullBw) && r.sampler.totalAcked == b.sampler.totalAcked
  {
    hide Cycled, FullBwChecked, LeftStartupOrDrain, EnteredProbeRtt, LeftProbeRtt, SamplesOk;
    var c := if b.mode == ProbeBw then Cycled(b, inFlight, rttStat) else b;
    CycledKeeps(b, inFlight, rttStat);
    var f := if roundStart && !c.full.atFullBw then FullBwChecked(c) else c;
    FullBwKeeps(c);
    LeftStartupKeeps(f, inFlight, rttStat, rand);
    var l := LeftStartupOrDrain(f, inFlight, rttStat, rand);
    EnteredProbeRttKeeps(l, expired);
    LeftProbeRttKeeps(EnteredProbeRtt(l, expired), roundStart, inFlight, rand);
    StepKeepsOrdered(l.sampler, EvAppLimited);
    hide Ordered, ModesOk;
  }

  lemma WindowedKeeps<P>(b: Bbr<P>, bytesAcked: nat, rttStat: nat)
    requires MIN_CWND <= b.cwnd <= MAX_CWND
    ensures var r := Windowed(b, bytesAcked, rttStat);
            && MIN_CWND <= r.cwnd <= MAX_CWND
            && (!b.full.atFullBw ==> r.cwnd >= b.cwnd) && r.cwnd <= b.cwnd + bytesAcked
            && (b.mode == ProbeRtt ==> r.cwnd == b.cwnd)
  {
    hide TargetCwnd;
  }

  lemma RecoveryWindowedKeeps<P>(b: Bbr<P>, bytesAcked: nat, bytesLost: nat, inFlight: nat)
    requires RecoveryPending(b)
    ensures var r := RecoveryWindowed(b, bytesAcked, bytesLost, inFlight);
            (r.loss.recovery != NotInRecovery ==> r.loss.recoveryWindow >= MIN_CWND)
  {
  }

  lemma WindowsKeep<P>(b: Bbr<P>, bytesAcked: nat, bytesLost: nat, inFlight: nat, rttStat: nat)
    requires MIN_CWND <= b.cwnd <= MAX_CWND && RecoveryPending(b)
    ensures var w := Windowed(Paced(b, rttStat), bytesAcked, rttStat);
            var r := RecoveryWindowed(w, bytesAcked, bytesLost, inFlight);
            && WindowsOk(r)
            && (!b.full.atFullBw ==> r.cwnd >= b.cwnd) && r.cwnd <= b.cwnd + bytesAcked
            && (b.mode == ProbeRtt ==> r.cwnd == b.cwnd)
            && r == b.(cwnd := r.cwnd, loss := r.loss, pace := r.pace) && r.pace.cycleOffset == b.pace.cycleOffset
  {
    hide NextPacingRate, NextCwnd, NextRecoveryWindow;
    var p := Paced(b, rttStat);
    WindowedKeeps(p, bytesAcked, rttStat);
    RecoveryWindowedKeeps(Windowed(p, bytesAcked, rttStat), bytesAcked, bytesLost, inFlight);
  }

  /** The whole of lsquic_bbr_end_ack. */
  lemma EndAckKeeps<P>(b: Bbr<P>, inFlight: nat, rttStat: nat, rand: byte)
    requires Inv(b) && b.inAck
    ensures var r := EndAck(b, inFlight, rttStat, rand);
            && Inv(r) && !r.inAck && (b.full.atFullBw ==> r.full.atFullBw)
            && (!r.full.atFullBw ==> r.cwnd >= b.cwnd) && r.cwnd <= b.cwnd + BytesAcked(b)
            && (r.mode == ProbeRtt ==> r.cwnd == b.cwnd) && r.sampler.totalAcked == b.sampler.totalAcked
  {
    hide ModelUpdated, ModeUpdated, RecoveryWindowed, Windowed, Paced, Expired, RoundStart;
    var b0 := b.(inAck := false);
    ModelKeeps(b0);
    var m := ModelUpdated(b0);
    ModeKeeps(m, RoundStart(b), Expired(b), inFlight, rttStat, rand);
    var d := ModeUpdated(m, RoundStart(b), Expired(b), inFlight, rttStat, rand);
    WindowsKeep(d, BytesAcked(b), b.ack.lostBytes, inFlight, rttStat);
  }

  // ---------------------------------------------------------------- runs

  /** One step of a run; nothing is presumed of the state but the order of calls. */
  ghost predicate Next<P>(b: Bbr<P>, e: BbrEvent<P>, r: Bbr<P>) {
    Legal(b, e) && (CountsOk(b) ==> r == StepBbr(b, e))
  }

  ghost predicate IsRun<P>(bs: seq<Bbr<P>>, es: seq<BbrEvent<P>>) {
    && |bs| == |es| + 1 && bs[0] == Start()
    && forall i :: 0 <= i < |es| ==> Next(bs[i], es[i], bs[i + 1])
  }

  lemma StartIsOk<P>()
    ensures Inv<P>(Start())
  {
  }

  /** The bytes whose acks the window has already been grown for. */
  function Credited<P>(b: Bbr<P>): (n: nat) {
    if b.inAck then b.ack.totalBefore else b.sampler.totalAcked
  }

  lemma OtherStepKeeps<P>(b: Bbr<P>, e: BbrEvent<P>)
    requires Inv(b) && Legal(b, e) && !e.OnEndAck? && !e.OnReinit?
    ensures var r := StepBbr(b, e);
            && Inv(r) && r.cwnd == b.cwnd && Credited(r) == Credited(b) && r.full.atFullBw == b.full.atFullBw
            && r.mode == b.mode && r.exitProbeRttAt == b.exitProbeRttAt && r.roundPassed == b.roundPassed
  {
    hide Ordered, Acked, Sent, Lost, AppLimited, SampleOf, MakesSample, GetCwnd;
    var s := b.sampler;
    match e
    case OnSent(p, i, inFlight, mini, appLimited) =>
      SentKeepsAcked(s, p, i, inFlight);
      SentKeepsAcked(Sent(s, p, i, inFlight), p, i, inFlight);
    case OnLost(p, size) =>
      LostKeepsAcked(s, p);
    case OnAck(p, i, size) =>
      StepKeepsOrdered(s, EvAcked(p, i, b.ack.ackTime));
    case OnBeginAck(_, _) =>
  }

  lemma SentKeepsAcked<P>(s: SState<P>, p: P, i: PacketInfo, inFlight: nat)
    requires Ordered(s)
    ensures Ordered(Sent(s, p, i, inFlight)) && Sent(s, p, i, inFlight).totalAcked == s.totalAcked
    ensures Ordered(AppLimited(s)) && AppLimited(s).totalAcked == s.totalAcked
  {
    StepKeepsOrdered(s, EvSent(p, i, inFlight));
  }

  lemma LostKeepsAcked<P>(s: SState<P>, p: P)
    requires Ordered(s)
    ensures Ordered(Lost(s, p)) && Lost(s, p).totalAcked == s.totalAcked
  {
    StepKeepsOrdered(s, EvLost(p));
  }

  /** What one step keeps, and how it may move the window. */
  lemma StepKeeps<P>(b: Bbr<P>, e: BbrEvent<P>)
    requires Inv(b) && Legal(b, e)
    ensures Inv(StepBbr(b, e))
    ensures !e.OnReinit? ==>
      var r := StepBbr(b, e);
      && (b.full.atFullBw ==> r.full.atFullBw)
      && (!r.full.atFullBw ==> r.cwnd >= b.cwnd)
      && r.cwnd + Credited(b) <= b.cwnd + Credited(r)
  {
    match e
    case OnReinit =>
    case OnEndAck(inFlight, rttStat, rand) =>
      hide EndAck, Inv;
      EndAckIsKept(b, inFlight, rttStat, rand);
    case _ =>
      hide Inv, StepBbr;
      OtherStepKeeps(b, e);
  }

  lemma EndAckIsKept<P>(b: Bbr<P>, inFlight: nat, rttStat: nat, rand: byte)
    requires Inv(b) && b.inAck
    ensures var r := EndAck(b, inFlight, rttStat, rand);
            && Inv(r) && (b.full.atFullBw ==> r.full.atFullBw) && (!r.full.atFullBw ==> r.cwnd >= b.cwnd)
            && r.cwnd + Credited(b) <= b.cwnd + Credited(r)
  {
    hide EndAck;
    EndAckKeeps(b, inFlight, rttStat, rand);
  }

  lemma {:induction false} RunKeepsInv<P>(bs: seq<Bbr<P>>, es: seq<BbrEvent<P>>, n: nat)
    requires IsRun(bs, es) && n < |bs|
    ensures Inv(bs[n])
  {
    hide Inv, StepBbr;
    if n == 0 {
      StartIsOk<P>();
    } else {
      RunKeepsInv(bs, es, n - 1);
      InvMeansCounts(bs[n - 1]);
      assert Next(bs[n - 1], es[n - 1], bs[n]);
      StepKeeps(bs[n - 1], es[n - 1]);
    }
  }

  lemma InvMeansCounts<P>(b: Bbr<P>)
    requires Inv(b)
    ensures CountsOk(b)
  {
  }

  /** In every state of every run the reported window is within its bounds, in every mode and recovery phase. */
  lemma WindowAlwaysInBounds<P>(bs: seq<Bbr<P>>, es: seq<BbrEvent<P>>, n: nat)
    requires IsRun(bs, es) && n < |bs|
    ensures MIN_CWND <= GetCwnd(bs[n]) <= MAX_CWND
  {
    RunKeepsInv(bs, es, n);
  }

  /** DRAIN and PROBE_BW need full bandwidth, STARTUP excludes it, and it rests on a sample that was not app-limited. */
  lemma ModesFollowFullBandwidth<P>(bs: seq<Bbr<P>>, es: seq<BbrEvent<P>>, n: nat)
    requires IsRun(bs, es) && n < |bs|
    ensures bs[n].mode == Drain || bs[n].mode == ProbeBw ==> bs[n].full.atFullBw
    ensures bs[n].mode == Startup ==> !bs[n].full.atFullBw
    ensures bs[n].full.atFullBw ==> bs[n].path.hasNonAppLimited
  {
    RunKeepsInv(bs, es, n);
  }

  /** Between re-initializations: STARTUP is over for good, and the window moves as the acks allow. */
  lemma {:induction false} BetweenReinits<P>(bs: seq<Bbr<P>>, es: seq<BbrEvent<P>>, m: nat, n: nat)
    requires IsRun(bs, es) && m <= n < |bs| && forall i :: m <= i < n ==> !es[i].OnReinit?
    ensures bs[m].full.atFullBw ==> bs[n].full.atFullBw && bs[n].mode != Startup
    ensures !bs[n].full.atFullBw ==> bs[n].cwnd >= bs[m].cwnd
    ensures bs[n].cwnd + Credited(bs[m]) <= bs[m].cwnd + Credited(bs[n])
  {
    hide StepBbr, Inv, Start;
    ModesFollowFullBandwidth(bs, es, n);
    if m < n {
      BetweenReinits(bs, es, m, n - 1);
      RunKeepsInv(bs, es, n - 1);
      InvMeansCounts(bs[n - 1]);
      assert Next(bs[n - 1], es[n - 1], bs[n]);
      StepKeeps(bs[n - 1], es[n - 1]);
    }
  }

  /** So without re-initialization the window is at most the initial one and all bytes acked. */
  lemma WindowEarnedByAcks<P>(bs: seq<Bbr<P>>, es: seq<BbrEvent<P>>, n: nat)
    requires IsRun(bs, es) && n < |bs| && forall i :: 0 <= i < n ==> !es[i].OnReinit?
    ensures bs[n].cwnd <= INIT_CWND + bs[n].sampler.totalAcked
  {
    hide Inv, StepBbr;
    BetweenReinits(bs, es, 0, n);
    RunKeepsInv(bs, es, n);
    InvMeansCounts(bs[n]);
  }

  // ---------------------------------------------------------------- PROBE_RTT

  /** In flight is down to the probe window and one packet. */
  predicate Below(inFlight: nat) {
    inFlight < MIN_CWND + MAX_OUTGOING_PACKET
  }

  /** What an ACK that starts a round, or not, does to the PROBE_RTT clock. */
  ghost predicate Clock<P>(b: Bbr<P>, r: Bbr<P>, start: bool, inFlight: nat) {
    var now := b.ack.ackTime;
    var passed := b.roundPassed || start;
    if b.mode != ProbeRtt then
      r.mode == ProbeRtt ==>
        if Below(inFlight) then r.exitProbeRttAt == now + PROBE_RTT_TIME && !r.roundPassed
        else r.exitProbeRttAt == 0
    else if b.exitProbeRttAt == 0 then
      && r.mode == ProbeRtt
      && if Below(inFlight) then r.exitProbeRttAt == now + PROBE_RTT_TIME && !r.roundPassed
         else r.exitProbeRttAt == 0
    else if now >= b.exitProbeRttAt && passed then
      r.mode == if r.full.atFullBw then ProbeBw else Startup
    else
      r.mode == ProbeRtt && r.exitProbeRttAt == b.exitProbeRttAt && r.roundPassed == passed
  }

  /** The end of an ACK moves the clock so. */
  lemma ProbeRttTransition<P>(b: Bbr<P>, inFlight: nat, rttStat: nat, rand: byte)
    requires Inv(b) && b.inAck
    ensures Clock(b, EndAck(b, inFlight, rttStat, rand), RoundStart(b), inFlight)
  {
    hide ModelUpdated, RecoveryWindowed, Windowed, Paced, Expired, RoundStart, SamplesOk,
      Cycled, FullBwChecked, LeftStartupOrDrain, EnteredProbeRtt, LeftProbeRtt;
    var b0 := b.(inAck := false);
    NotInAckSamplesOk(b);
    ModelKeeps(b0);
    var m := ModelUpdated(b0);
    var start, expired := RoundStart(b), Expired(b);
    ModeKeeps(m, start, expired, inFlight, rttStat, rand);
    ModeClock(m, start, expired, inFlight, rttStat, rand);
    var d := ModeUpdated(m, start, expired, inFlight, rttStat, rand);
    WindowsKeep(d, BytesAcked(b), b.ack.lostBytes, inFlight, rttStat);
  }

  lemma NotInAckSamplesOk<P>(b: Bbr<P>)
    requires SamplesOk(b)
    ensures SamplesOk(b.(inAck := false))
  {
  }

  lemma ModeClock<P>(b: Bbr<P>, start: bool, expired: bool, inFlight: nat, rttStat: nat, rand: byte)
    requires ModesOk(b) && SamplesOk(b) && CountsOk(b)
    ensures var r := ModeUpdated(b, start, expired, inFlight, rttStat, rand);
            Clock(b, r, start, inFlight)
  {
    hide Cycled, FullBwChecked, LeftStartupOrDrain, EnteredProbeRtt, LeftProbeRtt, SamplesOk, Ordered;
    var c := if b.mode == ProbeBw then Cycled(b, inFlight, rttStat) else b;
    CycledKeeps(b, inFlight, rttStat);
    var f := if start && !c.full.atFullBw then FullBwChecked(c) else c;
    FullBwKeeps(c);
    LeftStartupKeeps(f, inFlight, rttStat, rand);
    var l := LeftStartupOrDrain(f, inFlight, rttStat, rand);
    ProbeRttClock(l, expired, start, inFlight, rand);
  }

  lemma ProbeRttClock<P>(b: Bbr<P>, expired: bool, start: bool, inFlight: nat, rand: byte)
    ensures Clock(b, LeftProbeRtt(EnteredProbeRtt(b, expired), start, inFlight, rand), start, inFlight)
  {
    hide LeftProbeRtt;
    LeftClock(EnteredProbeRtt(b, expired), start, inFlight, rand);
  }

  lemma LeftClock<P>(b: Bbr<P>, start: bool, inFlight: nat, rand: byte)
    ensures var r := LeftProbeRtt(b, start, inFlight, rand);
            if b.mode == ProbeRtt then Clock(b, r, start, inFlight) else r == b
  {
    hide AppLimited;
  }

  // A stay is a stretch of a run: state `a` is not in PROBE_RTT, states `a + 1` to `n` are.

  ghost predicate Stay<P>(bs: seq<Bbr<P>>, es: seq<BbrEvent<P>>, a: nat, n: nat) {
    && IsRun(bs, es) && a < n < |bs| && bs[a].mode != ProbeRtt
    && forall k :: a < k <= n ==> bs[k].mode == ProbeRtt
  }

  /** The ACK that ends at step `k` finds few enough bytes in flight. */
  ghost predicate BelowAt<P>(es: seq<BbrEvent<P>>, k: nat) {
    k < |es| && es[k].OnEndAck? && Below(es[k].inFlight)
  }

  /** Step `k` ends an ACK that starts a round. */
  ghost predicate RoundAt<P>(bs: seq<Bbr<P>>, es: seq<BbrEvent<P>>, k: nat) {
    k < |es| && k < |bs| && es[k].OnEndAck? && RoundStart(bs[k])
  }

  /** `f` is the first step of the stay that is below. */
  ghost predicate FirstBelow<P>(es: seq<BbrEvent<P>>, a: nat, n: nat, f: nat) {
    a <= f < n && BelowAt(es, f) && forall k :: a <= k < f ==> !BelowAt(es, k)
  }

  /** A round started after step `f` and before state `n`. */
  ghost predicate RoundBetween<P>(bs: seq<Bbr<P>>, es: seq<BbrEvent<P>>, f: nat, n: nat) {
    exists g :: f < g < n && RoundAt(bs, es, g)
  }

  /** What the clock says during a stay. */
  ghost predicate ClockRight<P>(bs: seq<Bbr<P>>, es: seq<BbrEvent<P>>, a: nat, n: nat, f: Option<nat>)
    requires n < |bs|
  {
    match f
    case None => bs[n].exitProbeRttAt == 0 && forall k :: a <= k < n ==> !BelowAt(es, k)
    case Some(f) =>
      && FirstBelow(es, a, n, f) && f < |bs|
      && bs[n].exitProbeRttAt == bs[f].ack.ackTime + PROBE_RTT_TIME
      && (bs[n].roundPassed <==> RoundBetween(bs, es, f, n))
  }

  /** One step of a run, seen from the clock. */
  lemma StepClock<P>(bs: seq<Bbr<P>>, es: seq<BbrEvent<P>>, n: nat)
    requires IsRun(bs, es) && n < |es|
    ensures es[n].OnEndAck? ==> Clock(bs[n], bs[n + 1], RoundStart(bs[n]), es[n].inFlight)
    ensures !es[n].OnEndAck? && !es[n].OnReinit? ==>
      && bs[n + 1].mode == bs[n].mode && bs[n + 1].exitProbeRttAt == bs[n].exitProbeRttAt
      && bs[n + 1].roundPassed == bs[n].roundPassed
    ensures es[n].OnReinit? ==> bs[n + 1].mode == Startup
  {
    var b, e := bs[n], es[n];
    RunKeepsInv(bs, es, n);
    hide Inv, EndAck, Clock, Start;
    InvMeansCounts(b);
    assert Next(b, e, bs[n + 1]);
    if e.OnEndAck? {
      ProbeRttTransition(b, e.inFlight, e.rttStat, e.rand);
    } else if !e.OnReinit? {
      OtherStepKeeps(b, e);
    }
  }

  lemma RoundBetweenNext<P>(bs: seq<Bbr<P>>, es: seq<BbrEvent<P>>, f: nat, n: nat)
    requires f < n
    ensures RoundBetween(bs, es, f, n + 1) <==> RoundBetween(bs, es, f, n) || RoundAt(bs, es, n)
  {
    if RoundBetween(bs, es, f, n) {
      var g :| f < g < n && RoundAt(bs, es, g);
      assert f < g < n + 1;
    }
    if RoundBetween(bs, es, f, n + 1) && !RoundAt(bs, es, n) {
      var g :| f < g < n + 1 && RoundAt(bs, es, g);
      assert g != n;
    }
  }

  /** At every point of a stay the clock says when it first fell below, and whether a round started since. */
  lemma {:induction false} StayClock<P>(bs: seq<Bbr<P>>, es: seq<BbrEvent<P>>, a: nat, n: nat)
    returns (f: Option<nat>)
    requires Stay(bs, es, a, n)
    ensures ClockRight(bs, es, a, n, f)
  {
    hide RoundStart, Next, Start, RoundBetween;
    StepClock(bs, es, n - 1);
    if n == a + 1 {
      f := if BelowAt(es, a) then Some(a) else None;
      NoRoundYet(bs, es, a);
    } else {
      f := StayClock(bs, es, a, n - 1);
      if f.Some? {
        RoundBetweenNext(bs, es, f.value, n - 1);
      } else if BelowAt(es, n - 1) {
        f := Some(n - 1);
        NoRoundYet(bs, es, n - 1);
      }
    }
  }

  lemma NoRoundYet<P>(bs: seq<Bbr<P>>, es: seq<BbrEvent<P>>, f: nat)
    ensures !RoundBetween(bs, es, f, f + 1)
  {
  }

  /**
   * When a stay ends: at the end of an ACK at least 200 ms after in flight first
   * fell below, and with a round start after that; then, and then only.  The exit
   * goes to PROBE_BW exactly when full bandwidth was reached.
   */
  lemma StayEndsExactly<P>(bs: seq<Bbr<P>>, es: seq<BbrEvent<P>>, a: nat, n: nat)
    requires Stay(bs, es, a, n) && n < |es| && !es[n].OnReinit?
    ensures bs[n + 1].mode != ProbeRtt <==>
      && es[n].OnEndAck?
      && exists f: nat :: FirstBelow(es, a, n, f)
                          && bs[n].ack.ackTime >= bs[f].ack.ackTime + PROBE_RTT_TIME
                          && RoundBetween(bs, es, f, n + 1)
    ensures bs[n + 1].mode != ProbeRtt ==> bs[n + 1].mode == if bs[n + 1].full.atFullBw then ProbeBw else Startup
  {
    hide RoundStart, Next, Start, RoundBetween;
    StepClock(bs, es, n);
    var f := StayClock(bs, es, a, n);
    if f.Some? {
      RoundBetweenNext(bs, es, f.value, n);
      assert FirstBelow(es, a, n, f.value);
    }
  }

  /** A stay leaves the window alone. */
  lemma {:induction false} StayKeepsWindow<P>(bs: seq<Bbr<P>>, es: seq<BbrEvent<P>>, a: nat, n: nat)
    requires Stay(bs, es, a, n)
    ensures bs[n].cwnd == bs[a].cwnd
  {
    hide Inv, EndAck, Start;
    if n > a + 1 {
      StayKeepsWindow(bs, es, a, n - 1);
    }
    StepClock(bs, es, n - 1);
    RunKeepsInv(bs, es, n - 1);
    InvMeansCounts(bs[n - 1]);
    var b, e := bs[n - 1], es[n - 1];
    assert Next(b, e, bs[n]);
    if e.OnEndAck? {
      EndAckKeeps(b, e.inFlight, e.rttStat, e.rand);
    } else {
      OtherStepKeeps(b, e);
    }
  }
}
