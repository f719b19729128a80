/**
 * BBR congestion control on values: the connection's model of the path, and
 * what each event does to it.  The bandwidth sampler is the one of SamplerSpec;
 * gains are real numbers, and a product with one is truncated.
 */
module BbrSpec {
  import opened Basics
  import opened SamplerSpec
  import opened Minmax

  const MSS: nat := 1460
  const INIT_CWND: nat := 32 * MSS
  const MIN_CWND: nat := 4 * MSS
  const MAX_CWND: nat := 2000 * MSS
  const MAX_OUTGOING_PACKET: nat := 1452
  const MIN_RTT_EXPIRY: nat := 10_000_000
  const PROBE_RTT_TIME: nat := 200_000
  const STARTUP_RTTS: nat := 3
  const MAX_PACKNO: nat := 0x3fff_ffff_ffff_ffff

  type Gain = g: real | g >= 0.0 witness 1.0

  const HIGH_GAIN: Gain := 2.885
  const DRAIN_GAIN: Gain := 1.0 / 2.885
  const CWND_GAIN: Gain := 2.0
  const GROWTH_TARGET: Gain := 1.25
  const CYCLE: nat := 8

  function PacingGain(i: nat): (g: Gain) {
    if i == 0 then 1.25 else if i == 1 then 0.75 else 1.0
  }

  /** `x * gain`, truncated. */
  function Scale(x: nat, g: Gain): (r: nat) {
    assert x as real * g >= 0.0;
    (x as real * g).Floor
  }

  datatype Mode = Startup | Drain | ProbeBw | ProbeRtt
  datatype Recovery = NotInRecovery | Conservation | Growth

  /** bbr_ack_state: what one ACK brings. */
  datatype AckState = AckState(
    samples: seq<Sample>, ackTime: nat, maxPackno: nat, ackedBytes: nat, lostBytes: nat,
    totalBefore: nat, inFlight: nat, hasLosses: bool)

  /** What is known of the path: the bandwidth and ack-height filters, the round trips, the minimum RTT. */
  datatype Path = Path(
    maxBw: MinMax, maxAckHeight: MinMax, roundCount: nat, epochStart: nat, epochBytes: nat,
    minRtt: nat, minRttTimestamp: nat, minRttSinceProbe: nat,
    lastSampleAppLimited: bool, hasNonAppLimited: bool, appLimitedSinceProbeRtt: bool)

  /** Whether, and by what count, the bandwidth has stopped growing. */
  datatype FullBw = FullBw(atFullBw: bool, roundWoGain: nat, bwAtLastRound: nat)

  datatype Pace = Pace(pacingRate: nat, pacingGain: Gain, cwndGain: Gain, cycleOffset: nat, lastCycleStart: nat)

  datatype LossState = LossState(recovery: Recovery, recoveryWindow: nat, endRecoveryAt: nat)

  /** struct lsquic_bbr, its scalar fields grouped. */
  datatype Bbr<!P> = Bbr(
    sampler: SState<P>, ack: AckState, inAck: bool, mode: Mode,
    exitProbeRttAt: nat, roundPassed: bool, cwnd: nat, lastSent: nat, roundTripEnd: nat,
    path: Path, full: FullBw, pace: Pace, loss: LossState)

  const NO_ACK := AckState([], 0, 0, 0, 0, 0, 0, false)

  // ---------------------------------------------------------------- starting

  /** init_bbr: what it does not mention stays. */
  function InitBbr<P>(b: Bbr<P>): (r: Bbr<P>) {
    b.(mode := Startup, exitProbeRttAt := 0, roundPassed := false, cwnd := INIT_CWND,
       path := Path(Fresh(10), Fresh(10), 0, 0, 0, 0, 0, b.path.minRttSinceProbe, false, false,
                    b.path.appLimitedSinceProbeRtt),
       full := FullBw(false, 0, 0),
       pace := Pace(0, HIGH_GAIN, HIGH_GAIN, 0, 0))
  }

  const ZERO_PATH := Path(Fresh(10), Fresh(10), 0, 0, 0, 0, 0, 0, false, false, false)

  /** lsquic_bbr_init on zeroed memory. */
  function Start<P>(): (b: Bbr<P>) {
    InitBbr(Bbr(SamplerSpec.Init(), NO_ACK, false, Startup, 0, false, 0, 0, 0,
                ZERO_PATH, FullBw(false, 0, 0), Pace(0, 1.0, 1.0, 0, 0), LossState(NotInRecovery, 0, 0)))
  }

  // ---------------------------------------------------------------- reading

  function MinRttOf(minRtt: nat, rttStat: nat): (r: nat)
    ensures r > 0
  {
    if minRtt != 0 then minRtt else if rttStat == 0 then 25000 else rttStat
  }

  /** get_target_cwnd. */
  function TargetCwnd<P>(b: Bbr<P>, gain: Gain, rttStat: nat): (r: nat)
    ensures r >= MIN_CWND
  {
    var bdp := MinRttOf(b.path.minRtt, rttStat) * (b.path.maxBw.best.value / 8) / 1000000;
    var c := Scale(bdp, gain);
    Max(if c == 0 then Scale(INIT_CWND, gain) else c, MIN_CWND)
  }

  /** lsquic_bbr_get_cwnd. */
  function GetCwnd<P>(b: Bbr<P>): (r: nat) {
    if b.mode == ProbeRtt then MIN_CWND
    else if b.loss.recovery != NotInRecovery then Min(b.cwnd, b.loss.recoveryWindow)
    else b.cwnd
  }

  // ---------------------------------------------------------------- events outside an ACK

  function BbrSent<P>(b: Bbr<P>, p: P, i: PacketInfo, inFlight: nat, mini: bool, appLimited: bool): (r: Bbr<P>) {
    var r := b.(sampler := if mini then b.sampler else Sent(b.sampler, p, i, inFlight), lastSent := i.packno);
    if appLimited && inFlight < GetCwnd(b)
    then r.(path := r.path.(appLimitedSinceProbeRtt := true), sampler := AppLimited(r.sampler))
    else r
  }

  function BbrLost<P>(b: Bbr<P>, p: P, size: nat): (r: Bbr<P>) {
    b.(sampler := Lost(b.sampler, p), ack := b.ack.(hasLosses := true, lostBytes := b.ack.lostBytes + size))
  }

  function BeginAck<P>(b: Bbr<P>, ackTime: nat, inFlight: nat): (r: Bbr<P>) {
    b.(inAck := true,
       ack := AckState([], ackTime, UINT64_MAX, 0, 0, b.sampler.totalAcked, inFlight, false))
  }

  ghost function BbrAck<P>(b: Bbr<P>, p: P, i: PacketInfo, size: nat): (r: Bbr<P>)
    requires Ordered(b.sampler)
  {
    var a := b.ack;
    b.(sampler := Acked(b.sampler, p, i, a.ackTime),
       ack := a.(samples := if MakesSample(b.sampler, p, a.ackTime)
                            then a.samples + [SampleOf(b.sampler, p, i, a.ackTime)] else a.samples,
                 maxPackno := if a.maxPackno > MAX_PACKNO || i.packno > a.maxPackno
                              then i.packno else a.maxPackno,
                 ackedBytes := a.ackedBytes + size))
  }

  // ---------------------------------------------------------------- the end of an ACK

  /** The acked packet is past the end of the current round trip. */
  predicate RoundStart<P>(b: Bbr<P>) {
    && b.ack.ackedBytes != 0
    && (b.ack.maxPackno > b.roundTripEnd || b.roundTripEnd > MAX_PACKNO)
  }

  function Counted<P>(b: Bbr<P>): (r: Bbr<P>) {
    if RoundStart(b) then b.(path := b.path.(roundCount := b.path.roundCount + 1), roundTripEnd := b.lastSent)
    else b
  }

  /** What the loop over the samples changes. */
  datatype Fold = Fold(lastAppLimited: bool, hasNonAppLimited: bool, maxBw: MinMax, minRtt: nat)

  function FoldOne(f: Fold, s: Sample, round: nat): (r: Fold) {
    Fold(s.isAppLimited,
         f.hasNonAppLimited || !s.isAppLimited,
         if !s.isAppLimited || s.bandwidth > f.maxBw.best.value then UpMax(f.maxBw, round, s.bandwidth) else f.maxBw,
         if f.minRtt == UINT64_MAX || s.rtt < f.minRtt then s.rtt else f.minRtt)
  }

  function FoldAll(f: Fold, samples: seq<Sample>, round: nat): (r: Fold) {
    if samples == [] then f
    else FoldOne(FoldAll(f, samples[..|samples| - 1], round), samples[|samples| - 1], round)
  }

  function FoldStart(p: Path): (f: Fold) {
    Fold(p.lastSampleAppLimited, p.hasNonAppLimited, p.maxBw, UINT64_MAX)
  }

  function Folded<P>(b: Bbr<P>): (f: Fold) {
    FoldAll(FoldStart(b.path), b.ack.samples, b.path.roundCount)
  }

  /** What update_bandwidth_and_min_rtt returns. */
  predicate MinRttExpired<P>(b: Bbr<P>) {
    Folded(b).minRtt != UINT64_MAX && b.path.minRtt != 0 && b.ack.ackTime > b.path.minRttTimestamp + MIN_RTT_EXPIRY
  }

  /** The minimum RTT is taken over from the samples. */
  predicate MinRttRenewed<P>(b: Bbr<P>) {
    var m := Folded(b).minRtt;
    m != UINT64_MAX && (MinRttExpired(b) || m < b.path.minRtt || b.path.minRtt == 0)
  }

  /** update_bandwidth_and_min_rtt, with the options that extend the expiry off. */
  function Measured<P>(b: Bbr<P>): (r: Bbr<P>) {
    var f := Folded(b);
    var renewed := MinRttRenewed(b);
    b.(path := b.path.(
         lastSampleAppLimited := f.lastAppLimited, hasNonAppLimited := f.hasNonAppLimited, maxBw := f.maxBw,
         minRtt := if renewed then f.minRtt else b.path.minRtt,
         minRttTimestamp := if renewed then b.ack.ackTime else b.path.minRttTimestamp,
         minRttSinceProbe := if renewed then UINT64_MAX
                             else if f.minRtt == UINT64_MAX then b.path.minRttSinceProbe
                             else Min(b.path.minRttSinceProbe, f.minRtt),
         appLimitedSinceProbeRtt := b.path.appLimitedSinceProbeRtt && !renewed))
  }

  function NextRecovery<P>(b: Bbr<P>, roundStart: bool): (r: Recovery) {
    if b.loss.recovery == NotInRecovery then if b.ack.hasLosses then Conservation else NotInRecovery
    else if !b.ack.hasLosses && b.ack.maxPackno > b.loss.endRecoveryAt then NotInRecovery
    else if b.loss.recovery == Conservation && roundStart then Growth
    else b.loss.recovery
  }

  /** update_recovery_state. */
  function Recovered<P>(b: Bbr<P>, roundStart: bool): (r: Bbr<P>) {
    var entering := b.loss.recovery == NotInRecovery && b.ack.hasLosses;
    b.(roundTripEnd := if entering then b.lastSent else b.roundTripEnd,
       loss := LossState(NextRecovery(b, roundStart),
                            if entering then 0 else b.loss.recoveryWindow,
                            if b.ack.hasLosses then b.lastSent else b.loss.endRecoveryAt))
  }

  /** The bytes expected to be acked since the epoch began, in the code's units. */
  function ExpectedAcked(p: Path, now: nat): (n: nat) {
    p.maxBw.best.value * Sub64(now, p.epochStart)
  }

  /** The aggregation epoch after an ACK of `bytes`: a new one, or a longer one that records its excess. */
  function NextEpoch(p: Path, now: nat, bytes: nat): (r: Path) {
    if p.epochBytes <= ExpectedAcked(p, now) then p.(epochBytes := bytes, epochStart := now)
    else
      p.(epochBytes := p.epochBytes + bytes,
         maxAckHeight := UpMax(p.maxAckHeight, p.roundCount, p.epochBytes + bytes - ExpectedAcked(p, now)))
  }

  /** update_ack_aggregation_bytes. */
  function Aggregated<P>(b: Bbr<P>, bytesAcked: nat): (r: Bbr<P>) {
    b.(path := NextEpoch(b.path, b.ack.ackTime, bytesAcked))
  }

  /** update_gain_cycle_phase. */
  function Cycled<P>(b: Bbr<P>, inFlight: nat, rttStat: nat): (r: Bbr<P>) {
    var waited := Sub64(b.ack.ackTime, b.pace.lastCycleStart) > MinRttOf(b.path.minRtt, rttStat);
    var probing := b.pace.pacingGain > 1.0 && !b.ack.hasLosses
                   && b.ack.inFlight < TargetCwnd(b, b.pace.pacingGain, rttStat);
    var drained := b.pace.pacingGain < 1.0 && inFlight <= TargetCwnd(b, 1.0, rttStat);
    if drained || (waited && !probing) then
      var o := (b.pace.cycleOffset + 1) % CYCLE;
      b.(pace := b.pace.(cycleOffset := o, lastCycleStart := b.ack.ackTime, pacingGain := PacingGain(o)))
    else b
  }

  /** check_if_full_bw_reached. */
  function FullBwChecked<P>(b: Bbr<P>): (r: Bbr<P>) {
    if b.path.lastSampleAppLimited then b
    else if b.path.maxBw.best.value >= Scale(b.full.bwAtLastRound, GROWTH_TARGET) then
      b.(full := b.full.(bwAtLastRound := b.path.maxBw.best.value, roundWoGain := 0))
    else
      var n := b.full.roundWoGain + 1;
      b.(full := b.full.(roundWoGain := n, atFullBw := b.full.atFullBw || n >= STARTUP_RTTS))
  }

  /** enter_probe_bw_mode. */
  function EnterProbeBw<P>(b: Bbr<P>, now: nat, rand: byte): (r: Bbr<P>) {
    var o := rand as nat % (CYCLE - 1);
    var o := if o >= 1 then o + 1 else o;
    b.(mode := ProbeBw, pace := Pace(b.pace.pacingRate, PacingGain(o), CWND_GAIN, o, now))
  }

  /** maybe_exit_startup_or_drain. */
  function LeftStartupOrDrain<P>(b: Bbr<P>, inFlight: nat, rttStat: nat, rand: byte): (r: Bbr<P>) {
    var r := if b.mode == Startup && b.full.atFullBw
             then b.(mode := Drain, pace := b.pace.(pacingGain := DRAIN_GAIN, cwndGain := HIGH_GAIN)) else b;
    if r.mode == Drain && inFlight <= TargetCwnd(r, 1.0, rttStat) then EnterProbeBw(r, b.ack.ackTime, rand) else r
  }

  /** The half of maybe_enter_or_exit_probe_rtt that enters. */
  function EnteredProbeRtt<P>(b: Bbr<P>, expired: bool): (r: Bbr<P>) {
    if expired && b.mode != ProbeRtt
    then b.(mode := ProbeRtt, pace := b.pace.(pacingGain := 1.0), exitProbeRttAt := 0) else b
  }

  /** The half that waits and exits. */
  function LeftProbeRtt<P>(b: Bbr<P>, roundStart: bool, inFlight: nat, rand: byte): (r: Bbr<P>) {
    var now := b.ack.ackTime;
    if b.mode != ProbeRtt then b
    else
      var r := b.(sampler := AppLimited(b.sampler));
      if b.exitProbeRttAt == 0 then
        if inFlight < MIN_CWND + MAX_OUTGOING_PACKET
        then r.(exitProbeRttAt := now + PROBE_RTT_TIME, roundPassed := false) else r
      else
        var r := r.(roundPassed := b.roundPassed || roundStart);
        if now >= b.exitProbeRttAt && r.roundPassed then
          var r := r.(path := b.path.(minRttTimestamp := now));
          if b.full.atFullBw then EnterProbeBw(r, now, rand)
          else r.(mode := Startup, pace := b.pace.(pacingGain := HIGH_GAIN, cwndGain := HIGH_GAIN))
        else r
  }

  function NextPacingRate<P>(b: Bbr<P>, rttStat: nat): (r: nat) {
    var bw := b.path.maxBw.best.value;
    var target := Scale(bw, b.pace.pacingGain);
    if bw == 0 then b.pace.pacingRate
    else if b.full.atFullBw then target
    else if b.pace.pacingRate == 0 && rttStat != 0 then BwFromBytes(INIT_CWND, rttStat)
    else Max(b.pace.pacingRate, target)
  }

  /** calculate_pacing_rate. */
  function Paced<P>(b: Bbr<P>, rttStat: nat): (r: Bbr<P>) {
    b.(pace := b.pace.(pacingRate := NextPacingRate(b, rttStat)))
  }

  function NextCwnd<P>(b: Bbr<P>, bytesAcked: nat, rttStat: nat): (r: nat) {
    if b.mode == ProbeRtt then b.cwnd
    else
      var target := TargetCwnd(b, b.pace.cwndGain, rttStat);
      var c := if b.full.atFullBw then Min(target + b.path.maxAckHeight.best.value, b.cwnd + bytesAcked)
               else if b.cwnd < target || b.sampler.totalAcked < INIT_CWND then b.cwnd + bytesAcked
               else b.cwnd;
      if c < MIN_CWND then MIN_CWND else if c > MAX_CWND then MAX_CWND else c
  }

  /** calculate_cwnd. */
  function Windowed<P>(b: Bbr<P>, bytesAcked: nat, rttStat: nat): (r: Bbr<P>) {
    b.(cwnd := NextCwnd(b, bytesAcked, rttStat))
  }

  function NextRecoveryWindow<P>(b: Bbr<P>, bytesAcked: nat, bytesLost: nat, inFlight: nat): (r: nat) {
    if b.loss.recovery == NotInRecovery then b.loss.recoveryWindow
    else if b.loss.recoveryWindow == 0 then Max(MIN_CWND, inFlight + bytesAcked)
    else
      var w := if b.loss.recoveryWindow >= bytesLost then b.loss.recoveryWindow - bytesLost else MSS;
      var w := if b.loss.recovery == Growth then w + bytesAcked else w;
      Max(Max(w, inFlight + bytesAcked), MIN_CWND)
  }

  /** calculate_recovery_window. */
  function RecoveryWindowed<P>(b: Bbr<P>, bytesAcked: nat, bytesLost: nat, inFlight: nat): (r: Bbr<P>) {
    b.(loss := b.loss.(recoveryWindow := NextRecoveryWindow(b, bytesAcked, bytesLost, inFlight)))
  }

  function BytesAcked<P>(b: Bbr<P>): (n: nat)
    requires b.ack.totalBefore <= b.sampler.totalAcked
  {
    b.sampler.totalAcked - b.ack.totalBefore
  }

  /** The first half of lsquic_bbr_end_ack: the path model. */
  function ModelUpdated<P>(b: Bbr<P>): (r: Bbr<P>)
    requires b.ack.totalBefore <= b.sampler.totalAcked
  {
    if b.ack.ackedBytes == 0 then b
    else Aggregated(Recovered(Measured(Counted(b)), RoundStart(b)), BytesAcked(b))
  }

  predicate Expired<P>(b: Bbr<P>) {
    b.ack.ackedBytes != 0 && MinRttExpired(Counted(b))
  }

  /** The second half: the mode. */
  function ModeUpdated<P>(b: Bbr<P>, roundStart: bool, expired: bool, inFlight: nat, rttStat: nat, rand: byte)
    : (r: Bbr<P>)
  {
    var r := if b.mode == ProbeBw then Cycled(b, inFlight, rttStat) else b;
    var r := if roundStart && !r.full.atFullBw then FullBwChecked(r) else r;
    var r := LeftStartupOrDrain(r, inFlight, rttStat, rand);
    LeftProbeRtt(EnteredProbeRtt(r, expired), roundStart, inFlight, rand)
  }

  /** lsquic_bbr_end_ack. */
  function EndAck<P>(b: Bbr<P>, inFlight: nat, rttStat: nat, rand: byte): (r: Bbr<P>)
    requires b.ack.totalBefore <= b.sampler.totalAcked
  {
    var acked := BytesAcked(b);
    var r := ModelUpdated(b.(inAck := false));
    var r := ModeUpdated(r, RoundStart(b), Expired(b), inFlight, rttStat, rand);
    RecoveryWindowed(Windowed(Paced(r, rttStat), acked, rttStat), acked, b.ack.lostBytes, inFlight)
  }
}
