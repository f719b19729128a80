/** Which mode BBR is in after an ACK, over every run: when it probes for the RTT, when full bandwidth is
    reached, and how it cycles.
*/
module BbrModes {
  import opened Basics
  import opened SamplerSpec
  import opened Minmax
  import opened BbrSpec
  import opened BbrRuns
  import opened BbrPath
  import opened BbrPacing

  // ---------------------------------------------------------------- the stages

  /** What the stages after the mode leave alone. */
  ghost predicate SameButWindows<P>(d: Bbr<P>, r: Bbr<P>) {
    && r.mode == d.mode && r.full == d.full && r.path == d.path && r.ack == d.ack && r.sampler == d.sampler
    && r.pace == d.pace.(pacingRate := r.pace.pacingRate)
  }

  lemma TailKeeps<P>(d: Bbr<P>, acked: nat, lost: nat, inFlight: nat, rttStat: nat)
    ensures var w := Windowed(Paced(d, rttStat), acked, rttStat);
            SameButWindows(d, RecoveryWindowed(w, acked, lost, inFlight))
  {
    hide NextPacingRate, NextCwnd, NextRecoveryWindow;
  }

  lemma SameTarget<P>(b: Bbr<P>, c: Bbr<P>, gain: Gain, rttStat: nat)
    requires c.path.minRtt == b.path.minRtt && c.path.maxBw == b.path.maxBw
    ensures TargetCwnd(c, gain, rttStat) == TargetCwnd(b, gain, rttStat)
  {
  }

  /** The mode after the mode stages, for a sender that is not probing for the RTT. */
  lemma ModeOf<P>(b: Bbr<P>, start: bool, expired: bool, inFlight: nat, rttStat: nat, rand: byte)
    requires b.mode != ProbeRtt && ModesOk(b)
    ensures var r := ModeUpdated(b, start, expired, inFlight, rttStat, rand);
            r.mode == if expired then ProbeRtt
                      else if b.mode == ProbeBw then ProbeBw
                      else if b.mode == Startup && !r.full.atFullBw then Startup
                      else if inFlight <= TargetCwnd(b, 1.0, rttStat) then ProbeBw else Drain
  {
    hide TargetCwnd, AppLimited;
    var c := if b.mode == ProbeBw then Cycled(b, inFlight, rttStat) else b;
    CycledSame(b, inFlight, rttStat);
    hide Cycled;
    var f := if start && !c.full.atFullBw then FullBwChecked(c) else c;
    assert f.mode == c.mode && f.path == c.path;
    hide FullBwChecked;
    var l := LeftStartupOrDrain(f, inFlight, rttStat, rand);
    LeftStartupMode(f, inFlight, rttStat, rand);
    SameTarget(b, f, 1.0, rttStat);
    hide LeftStartupOrDrain;
    ProbeRttMode(l, expired, start, inFlight, rand);
  }

  lemma CycledSame<P>(b: Bbr<P>, inFlight: nat, rttStat: nat)
    ensures var r := Cycled(b, inFlight, rttStat); r.mode == b.mode && r.path == b.path && r.full == b.full
  {
    hide TargetCwnd;
  }

  lemma LeftStartupMode<P>(b: Bbr<P>, inFlight: nat, rttStat: nat, rand: byte)
    ensures var r := LeftStartupOrDrain(b, inFlight, rttStat, rand);
            && r.full == b.full && r.path == b.path && r.ack == b.ack
            && r.mode == if b.mode in {ProbeBw, ProbeRtt} || (b.mode == Startup && !b.full.atFullBw) then b.mode
                         else if inFlight <= TargetCwnd(b, 1.0, rttStat) then ProbeBw else Drain
  {
    if b.mode == Startup && b.full.atFullBw {
      var d := b.(mode := Drain, pace := b.pace.(pacingGain := DRAIN_GAIN, cwndGain := HIGH_GAIN));
      SameTarget(b, d, 1.0, rttStat);
    }
    hide TargetCwnd;
  }

  /** PROBE_RTT is entered exactly when the minimum RTT has expired, and not left by the same ACK. */
  lemma ProbeRttMode<P>(b: Bbr<P>, expired: bool, start: bool, inFlight: nat, rand: byte)
    ensures var r := LeftProbeRtt(EnteredProbeRtt(b, expired), start, inFlight, rand);
            && r.full == b.full
            && (b.mode != ProbeRtt ==> r.mode == if expired then ProbeRtt else b.mode)
            && r.path == b.path.(minRttTimestamp := if b.mode == ProbeRtt && r.mode != ProbeRtt then b.ack.ackTime
                                                    else b.path.minRttTimestamp)
  {
    hide AppLimited;
  }

  lemma EndAckMode<P>(b: Bbr<P>, inFlight: nat, rttStat: nat, rand: byte)
    requires Inv(b) && b.inAck && b.mode != ProbeRtt
    ensures var r := EndAck(b, inFlight, rttStat, rand);
            r.mode == if Expired(b) then ProbeRtt
                      else if b.mode == ProbeBw then ProbeBw
                      else if b.mode == Startup && !r.full.atFullBw then Startup
                      else if inFlight <= TargetCwnd(r, 1.0, rttStat) then ProbeBw else Drain
  {
    hide ModelUpdated, ModeUpdated, Paced, Windowed, RecoveryWindowed, Expired, RoundStart, TargetCwnd, SamplesOk;
    var c := b.(inAck := false);
    NotInAckSamplesOk(b);
    ModelKeeps(c);
    var m := ModelUpdated(c);
    ModeOf(m, RoundStart(b), Expired(b), inFlight, rttStat, rand);
    ModePath(m, RoundStart(b), Expired(b), inFlight, rttStat, rand);
    var d := ModeUpdated(m, RoundStart(b), Expired(b), inFlight, rttStat, rand);
    TailKeeps(d, BytesAcked(b), b.ack.lostBytes, inFlight, rttStat);
    SameTarget(m, EndAck(b, inFlight, rttStat, rand), 1.0, rttStat);
  }

  // ---------------------------------------------------------------- the age of the minimum RTT

  /** Step `k` ends an ACK that leaves PROBE_RTT. */
  ghost predicate LeavesAt<P>(bs: seq<Bbr<P>>, es: seq<BbrEvent<P>>, k: nat) {
    k < |es| && k + 1 < |bs| && es[k].OnEndAck? && bs[k].mode == ProbeRtt && bs[k + 1].mode != ProbeRtt
  }

  /** Step `k` renews the minimum RTT, or confirms it by leaving PROBE_RTT. */
  ghost predicate StampedAt<P>(bs: seq<Bbr<P>>, es: seq<BbrEvent<P>>, k: nat) {
    RenewedAt(bs, es, k) || LeavesAt(bs, es, k)
  }

  /** `a` is the latest such step before state `n`, with no re-initialization since. */
  ghost predicate LastStamp<P>(bs: seq<Bbr<P>>, es: seq<BbrEvent<P>>, a: nat, n: nat) {
    && a < n <= |es| && StampedAt(bs, es, a)
    && forall k :: a < k < n ==> !StampedAt(bs, es, k) && !es[k].OnReinit?
  }

  ghost predicate NoStamp<P>(bs: seq<Bbr<P>>, es: seq<BbrEvent<P>>, n: nat) {
    n <= |es| && forall k :: SinceInit(es, n) <= k < n ==> !StampedAt(bs, es, k)
  }

  /** The time stamp after the end of an ACK. */
  lemma EndAckStamp<P>(b: Bbr<P>, inFlight: nat, rttStat: nat, rand: byte)
    requires Inv(b) && b.inAck && RttsFit(b)
    ensures var r := EndAck(b, inFlight, rttStat, rand);
            r.path.minRttTimestamp ==
              if (b.ack.ackedBytes != 0 && Renews(b)) || (b.mode == ProbeRtt && r.mode != ProbeRtt)
              then b.ack.ackTime else b.path.minRttTimestamp
  {
    hide ModelUpdated, ModeUpdated, Paced, Windowed, RecoveryWindowed, Expired, RoundStart, SamplesOk, Renews;
    var c := b.(inAck := false);
    NotInAckSamplesOk(b);
    ModelKeeps(c);
    var m := ModelUpdated(c);
    ModelStamp(b);
    ModeStamp(m, RoundStart(b), Expired(b), inFlight, rttStat, rand);
    TailKeeps(ModeUpdated(m, RoundStart(b), Expired(b), inFlight, rttStat, rand),
              BytesAcked(b), b.ack.lostBytes, inFlight, rttStat);
  }

  lemma ModelStamp<P>(b: Bbr<P>)
    requires b.ack.totalBefore <= b.sampler.totalAcked && RttsFit(b)
    ensures ModelUpdated(b.(inAck := false)).path.minRttTimestamp ==
      if b.ack.ackedBytes != 0 && Renews(b) then b.ack.ackTime else b.path.minRttTimestamp
  {
    hide Renews, RttsFit, MinRttRenewed, FoldAll;
    var c := b.(inAck := false);
    if b.ack.ackedBytes != 0 {
      ModelPath(c);
      NextEpochKeepsRtt(Measured(Counted(c)).path, b.ack.ackTime, BytesAcked(c));
      MeasuredPathOnly(b);
      RenewsIff(b);
      hide ModelUpdated, NextEpoch;
    }
  }

  lemma ModeStamp<P>(b: Bbr<P>, start: bool, expired: bool, inFlight: nat, rttStat: nat, rand: byte)
    ensures var r := ModeUpdated(b, start, expired, inFlight, rttStat, rand);
            r.path.minRttTimestamp ==
              if b.mode == ProbeRtt && r.mode != ProbeRtt then b.ack.ackTime else b.path.minRttTimestamp
  {
    var c := if b.mode == ProbeBw then Cycled(b, inFlight, rttStat) else b;
    CycledSame(b, inFlight, rttStat);
    CycledPath(b, inFlight, rttStat);
    var f := if start && !c.full.atFullBw then FullBwChecked(c) else c;
    assert f.mode == c.mode && f.path == c.path && f.ack == c.ack;
    var l := LeftStartupOrDrain(f, inFlight, rttStat, rand);
    LeftStartupMode(f, inFlight, rttStat, rand);
    ProbeRttMode(l, expired, start, inFlight, rand);
    hide Cycled, FullBwChecked, LeftStartupOrDrain, EnteredProbeRtt, LeftProbeRtt, TargetCwnd;
  }

  /** One step of a run, seen from the time stamp. */
  lemma StepStamp<P>(bs: seq<Bbr<P>>, es: seq<BbrEvent<P>>, n: nat)
    requires IsRun(bs, es) && n < |es|
    ensures bs[n + 1].path.minRttTimestamp ==
      if es[n].OnReinit? then 0
      else if StampedAt(bs, es, n) then bs[n].ack.ackTime
      else bs[n].path.minRttTimestamp
  {
    hide Inv, EndAck, Start, CountsOk, Renews, RttsFit;
    var b, e := bs[n], es[n];
    RunKeepsInv(bs, es, n);
    RunRttsFit(bs, es, n);
    InvMeansCounts(b);
    assert Next(b, e, bs[n + 1]);
    if e.OnEndAck? {
      EndAckStamp(b, e.inFlight, e.rttStat, e.rand);
    } else if !e.OnReinit? {
      OtherKeepsPath(b, e);
    }
  }

  /** In every state of every run the time stamp is that of the latest renewal or confirmation; and if there
      was none, no minimum RTT is known. */
  lemma {:induction false} StampIsLatest<P>(bs: seq<Bbr<P>>, es: seq<BbrEvent<P>>, n: nat) returns (a: Option<nat>)
    requires IsRun(bs, es) && n < |bs|
    ensures match a
            case None => NoStamp(bs, es, n) && bs[n].path.minRttTimestamp == 0 && bs[n].path.minRtt == 0
            case Some(a) => LastStamp(bs, es, a, n) && bs[n].path.minRttTimestamp == bs[a].ack.ackTime
  {
    hide IsRun, StampedAt, LeastSince, AckAt;
    RunHasStates(bs, es);
    if n == 0 {
      a := None;
    } else {
      a := StampIsLatest(bs, es, n - 1);
      StepStamp(bs, es, n - 1);
      MinRttMoves(bs, es, n - 1);
      RenewalStamps(bs, es, n - 1);
      if es[n - 1].OnReinit? {
        a := None;
      } else if StampedAt(bs, es, n - 1) {
        a := Some(n - 1);
      }
    }
  }

  lemma RenewalStamps<P>(bs: seq<Bbr<P>>, es: seq<BbrEvent<P>>, n: nat)
    ensures RenewedAt(bs, es, n) ==> StampedAt(bs, es, n)
  {
  }

  /** Step `n` ends an ACK with a usable sample more than ten seconds after the known minimum RTT was last
      renewed or confirmed. */
  ghost predicate MinRttIsStale<P>(bs: seq<Bbr<P>>, es: seq<BbrEvent<P>>, n: nat) {
    && AckAt(bs, es, n) && bs[n].path.minRtt != 0
    && (exists s :: s in bs[n].ack.samples && s.rtt < UINT64_MAX)
    && (exists a: nat :: LastStamp(bs, es, a, n) && bs[n].ack.ackTime > bs[a].ack.ackTime + MIN_RTT_EXPIRY)
  }

  lemma ExpiredIff<P>(bs: seq<Bbr<P>>, es: seq<BbrEvent<P>>, n: nat)
    requires IsRun(bs, es) && n < |es| && es[n].OnEndAck?
    ensures Expired(bs[n]) <==> MinRttIsStale(bs, es, n)
  {
    hide IsRun, StampedAt, RttsFit, MinRttExpired, Counted;
    RunHasStates(bs, es);
    RunRttsFit(bs, es, n);
    RenewsIff(bs[n]);
    var a := StampIsLatest(bs, es, n);
    if a.Some? {
      forall x: nat | LastStamp(bs, es, x, n) ensures x == a.value {
        assert a.value < x ==> !StampedAt(bs, es, x);
      }
    }
  }

  /**
   * In every run PROBE_RTT is entered if and only if the minimum RTT is stale: at the end of
   * an ACK that acked bytes and brought a sample, more than ten seconds after the minimum was
   * last renewed by a sample or confirmed by the end of another PROBE_RTT.
   */
  lemma ProbeRttEnteredIff<P>(bs: seq<Bbr<P>>, es: seq<BbrEvent<P>>, n: nat)
    requires IsRun(bs, es) && n < |es| && bs[n].mode != ProbeRtt
    ensures bs[n + 1].mode == ProbeRtt <==> MinRttIsStale(bs, es, n)
  {
    hide Inv, EndAck, Start, CountsOk, LastStamp, Expired, TargetCwnd;
    var b, e := bs[n], es[n];
    RunKeepsInv(bs, es, n);
    InvMeansCounts(b);
    assert Next(b, e, bs[n + 1]);
    if e.OnEndAck? {
      ExpiredIff(bs, es, n);
      EndAckMode(b, e.inFlight, e.rttStat, e.rand);
    } else if !e.OnReinit? {
      OtherStepKeeps(b, e);
    }
  }

  /**
   * The other modes: STARTUP lasts until full bandwidth is reached, DRAIN until in flight is down
   * to one bandwidth-delay product, PROBE_BW until PROBE_RTT; and an ACK may pass through DRAIN.
   */
  lemma ModeAfterAck<P>(bs: seq<Bbr<P>>, es: seq<BbrEvent<P>>, n: nat)
    requires IsRun(bs, es) && n < |es| && es[n].OnEndAck? && bs[n].mode != ProbeRtt && !MinRttIsStale(bs, es, n)
    ensures bs[n + 1].mode ==
      if bs[n].mode == ProbeBw then ProbeBw
      else if bs[n].mode == Startup && !bs[n + 1].full.atFullBw then Startup
      else if es[n].inFlight <= TargetCwnd(bs[n + 1], 1.0, es[n].rttStat) then ProbeBw else Drain
  {
    hide Inv, EndAck, Start, CountsOk, LastStamp, Expired, TargetCwnd, MinRttIsStale;
    var b, e := bs[n], es[n];
    RunKeepsInv(bs, es, n);
    InvMeansCounts(b);
    assert Next(b, e, bs[n + 1]);
    ExpiredIff(bs, es, n);
    EndAckMode(b, e.inFlight, e.rttStat, e.rand);
  }

  // ---------------------------------------------------------------- full bandwidth

  /** Step `k` checks for growth: it starts a round before full bandwidth, and its last sample was not
      app-limited. */
  ghost predicate CheckAt<P>(bs: seq<Bbr<P>>, es: seq<BbrEvent<P>>, k: nat) {
    && RoundAt(bs, es, k) && k + 1 < |bs| && !bs[k].full.atFullBw && !bs[k + 1].path.lastSampleAppLimited
  }

  /** The bandwidth estimate after step `k`. */
  ghost function BwAfter<P>(bs: seq<Bbr<P>>, k: nat): (bw: nat)
    requires k + 1 < |bs|
  {
    bs[k + 1].path.maxBw.best.value
  }

  /** `bw` is at least a quarter more than `was`, rounded down. */
  predicate Grown(bw: nat, was: nat) {
    4 * (bw + 1) > 5 * was
  }

  lemma GrownIff(bw: nat, was: nat)
    ensures Grown(bw, was) <==> bw >= Scale(was, GROWTH_TARGET)
  {
    assert was as real * GROWTH_TARGET == (5 * was) as real / 4.0;
  }

  /** What a check does to the plateau count. */
  ghost predicate Checked(f: FullBw, g: FullBw, bw: nat) {
    if Grown(bw, f.bwAtLastRound) then g == f.(bwAtLastRound := bw, roundWoGain := 0)
    else g == f.(roundWoGain := f.roundWoGain + 1, atFullBw := f.atFullBw || f.roundWoGain + 1 >= STARTUP_RTTS)
  }

  lemma ModeFull<P>(b: Bbr<P>, start: bool, expired: bool, inFlight: nat, rttStat: nat, rand: byte)
    ensures var r := ModeUpdated(b, start, expired, inFlight, rttStat, rand);
            if start && !b.full.atFullBw && !b.path.lastSampleAppLimited
            then Checked(b.full, r.full, b.path.maxBw.best.value) else r.full == b.full
  {
    var c := if b.mode == ProbeBw then Cycled(b, inFlight, rttStat) else b;
    CycledSame(b, inFlight, rttStat);
    hide Cycled;
    var f := if start && !c.full.atFullBw then FullBwChecked(c) else c;
    GrownIff(b.path.maxBw.best.value, b.full.bwAtLastRound);
    hide Grown, Scale;
    assert if start && !b.full.atFullBw && !b.path.lastSampleAppLimited
           then Checked(b.full, f.full, b.path.maxBw.best.value) else f.full == b.full;
    hide FullBwChecked, Checked;
    var l := LeftStartupOrDrain(f, inFlight, rttStat, rand);
    LeftStartupMode(f, inFlight, rttStat, rand);
    hide LeftStartupOrDrain;
    ProbeRttMode(l, expired, start, inFlight, rand);
    hide EnteredProbeRtt, LeftProbeRtt;
  }

  lemma EndAckFull<P>(b: Bbr<P>, inFlight: nat, rttStat: nat, rand: byte)
    requires Inv(b) && b.inAck
    ensures var r := EndAck(b, inFlight, rttStat, rand);
            if RoundStart(b) && !b.full.atFullBw && !r.path.lastSampleAppLimited
            then Checked(b.full, r.full, r.path.maxBw.best.value) else r.full == b.full
  {
    hide ModelUpdated, ModeUpdated, Paced, Windowed, RecoveryWindowed, Expired, RoundStart, SamplesOk, Checked;
    var c := b.(inAck := false);
    NotInAckSamplesOk(b);
    ModelKeeps(c);
    var m := ModelUpdated(c);
    SameFull(b, m);
    ModeFull(m, RoundStart(b), Expired(b), inFlight, rttStat, rand);
    ModePath(m, RoundStart(b), Expired(b), inFlight, rttStat, rand);
    TailKeeps(ModeUpdated(m, RoundStart(b), Expired(b), inFlight, rttStat, rand),
              BytesAcked(b), b.ack.lostBytes, inFlight, rttStat);
  }

  lemma SameFull<P>(b: Bbr<P>, m: Bbr<P>)
    requires SameMode(b.(inAck := false), m)
    ensures m.full == b.full
  {
  }

  /** One step of a run, seen from full bandwidth. */
  lemma StepFull<P>(bs: seq<Bbr<P>>, es: seq<BbrEvent<P>>, n: nat)
    requires IsRun(bs, es) && n < |es|
    ensures if es[n].OnReinit? then bs[n + 1].full == FullBw(false, 0, 0)
            else if CheckAt(bs, es, n) then Checked(bs[n].full, bs[n + 1].full, BwAfter(bs, n))
            else bs[n + 1].full == bs[n].full
  {
    hide Inv, EndAck, Start, CountsOk, RoundStart, Checked;
    var b, e := bs[n], es[n];
    RunKeepsInv(bs, es, n);
    InvMeansCounts(b);
    assert Next(b, e, bs[n + 1]);
    if e.OnEndAck? {
      EndAckFull(b, e.inFlight, e.rttStat, e.rand);
    }
  }

  /** The bandwidth to grow from: that after the latest check that found growth, or zero if none did. */
  ghost function GrowthBase<P>(bs: seq<Bbr<P>>, es: seq<BbrEvent<P>>, n: nat): (bw: nat)
    requires |bs| == |es| + 1 && n < |bs|
  {
    if n == 0 || es[n - 1].OnReinit? then 0
    else
      var was := GrowthBase(bs, es, n - 1);
      if CheckAt(bs, es, n - 1) && Grown(BwAfter(bs, n - 1), was) then BwAfter(bs, n - 1) else was
  }

  /** How many checks in a row, up to state `n`, found no growth over that. */
  ghost function Plateau<P>(bs: seq<Bbr<P>>, es: seq<BbrEvent<P>>, n: nat): (c: nat)
    requires |bs| == |es| + 1 && n < |bs|
  {
    if n == 0 || es[n - 1].OnReinit? then 0
    else if !CheckAt(bs, es, n - 1) then Plateau(bs, es, n - 1)
    else if Grown(BwAfter(bs, n - 1), GrowthBase(bs, es, n - 1)) then 0
    else Plateau(bs, es, n - 1) + 1
  }

  lemma {:induction false} PlateauIsCounted<P>(bs: seq<Bbr<P>>, es: seq<BbrEvent<P>>, n: nat)
    requires IsRun(bs, es) && n < |bs|
    ensures bs[n].full.bwAtLastRound == GrowthBase(bs, es, n)
    ensures bs[n].full.roundWoGain == Plateau(bs, es, n)
    ensures bs[n].full.atFullBw <==> Plateau(bs, es, n) >= STARTUP_RTTS
  {
    hide CheckAt, Grown, IsRun;
    RunHasStates(bs, es);
    if n > 0 {
      PlateauIsCounted(bs, es, n - 1);
      StepFull(bs, es, n - 1);
      NoCheckWhenFull(bs, es, n - 1);
    }
  }

  lemma NoCheckWhenFull<P>(bs: seq<Bbr<P>>, es: seq<BbrEvent<P>>, n: nat)
    ensures CheckAt(bs, es, n) ==> n < |bs| && !bs[n].full.atFullBw
  {
  }

  /**
   * In every run full bandwidth is known if and only if, since the last re-initialization, three
   * checks in a row found the estimate grown by less than a quarter over the last one that did grow.
   */
  lemma FullBandwidthIff<P>(bs: seq<Bbr<P>>, es: seq<BbrEvent<P>>, n: nat)
    requires IsRun(bs, es) && n < |es| && !es[n].OnReinit? && !bs[n].full.atFullBw
    ensures bs[n + 1].full.atFullBw <==>
      CheckAt(bs, es, n) && Plateau(bs, es, n) == 2 && !Grown(BwAfter(bs, n), GrowthBase(bs, es, n))
  {
    hide CheckAt, Grown, IsRun;
    RunHasStates(bs, es);
    PlateauIsCounted(bs, es, n);
    PlateauIsCounted(bs, es, n + 1);
  }

  /** Whether the last sample was app-limited is what the last sample of the latest ACK that had one says. */
  lemma LastSampleIs<P>(bs: seq<Bbr<P>>, es: seq<BbrEvent<P>>, n: nat)
    requires IsRun(bs, es) && n < |es|
    ensures var samples := bs[n].ack.samples;
            bs[n + 1].path.lastSampleAppLimited ==
              if es[n].OnReinit? then false
              else if AckAt(bs, es, n) && samples != [] then samples[|samples| - 1].isAppLimited
              else bs[n].path.lastSampleAppLimited
  {
    StepPath(bs, es, n);
    hide IsRun, MinRttRenewed, UpMax, ExpectedAcked, MinRttExpired;
    if AckAt(bs, es, n) {
      LastOfFold(FoldStart(Counted(bs[n]).path), bs[n].ack.samples, Counted(bs[n]).path.roundCount);
      hide FoldAll;
    }
  }

  lemma LastOfFold(f: Fold, samples: seq<Sample>, round: nat)
    ensures FoldAll(f, samples, round).lastAppLimited ==
      if samples == [] then f.lastAppLimited else samples[|samples| - 1].isAppLimited
  {
    hide UpMax;
  }

  // ---------------------------------------------------------------- the gain cycle

  /** An ACK that finds the sender in PROBE_BW with `pace`, and leaves it with the path of `r`, moves the cycle
      on: it was draining and in flight is down to one bandwidth-delay product; or the phase has lasted a
      minimum RTT, and, if it is probing, there was a loss or in flight reached its target. */
  ghost predicate MovesOn<P>(pace: Pace, ack: AckState, since: nat, r: Bbr<P>, inFlight: nat, rttStat: nat) {
    || (pace.pacingGain < 1.0 && inFlight <= TargetCwnd(r, 1.0, rttStat))
    || (&& Sub64(ack.ackTime, since) > MinRttOf(r.path.minRtt, rttStat)
        && (pace.pacingGain > 1.0 ==> ack.hasLosses || ack.inFlight >= TargetCwnd(r, pace.pacingGain, rttStat)))
  }

  lemma CycledIff<P>(b: Bbr<P>, inFlight: nat, rttStat: nat)
    ensures var r := Cycled(b, inFlight, rttStat);
            if MovesOn(b.pace, b.ack, b.pace.lastCycleStart, b, inFlight, rttStat) then
              r.pace.cycleOffset == (b.pace.cycleOffset + 1) % CYCLE && r.pace.lastCycleStart == b.ack.ackTime
            else r.pace == b.pace
  {
    hide TargetCwnd;
  }

  lemma ModeCycle<P>(b: Bbr<P>, start: bool, expired: bool, inFlight: nat, rttStat: nat, rand: byte)
    ensures var r := ModeUpdated(b, start, expired, inFlight, rttStat, rand);
            && (b.mode == ProbeBw && !expired ==> r.mode == ProbeBw && r.pace == Cycled(b, inFlight, rttStat).pace)
            && (b.mode != ProbeBw && r.mode == ProbeBw ==>
                  r.pace.lastCycleStart == b.ack.ackTime && IsFirstPhase(r.pace.cycleOffset, rand))
  {
    hide TargetCwnd, AppLimited;
    var c := if b.mode == ProbeBw then Cycled(b, inFlight, rttStat) else b;
    CycledSame(b, inFlight, rttStat);
    CycledPath(b, inFlight, rttStat);
    hide Cycled;
    var f := if start && !c.full.atFullBw then FullBwChecked(c) else c;
    assert f.mode == c.mode && f.pace == c.pace && f.ack == c.ack;
    hide FullBwChecked;
    var l := LeftStartupOrDrain(f, inFlight, rttStat, rand);
    LeftStartupCycle(f, inFlight, rttStat, rand);
    hide LeftStartupOrDrain;
    ProbeRttCycle(l, expired, start, inFlight, rand);
  }

  lemma LeftStartupCycle<P>(b: Bbr<P>, inFlight: nat, rttStat: nat, rand: byte)
    ensures var r := LeftStartupOrDrain(b, inFlight, rttStat, rand);
            && r.ack == b.ack && (b.mode == ProbeBw ==> r == b)
            && (b.mode != ProbeBw && r.mode == ProbeBw ==>
                  r.pace.lastCycleStart == b.ack.ackTime && IsFirstPhase(r.pace.cycleOffset, rand))
  {
    hide TargetCwnd;
  }

  lemma ProbeRttCycle<P>(b: Bbr<P>, expired: bool, start: bool, inFlight: nat, rand: byte)
    ensures var r := LeftProbeRtt(EnteredProbeRtt(b, expired), start, inFlight, rand);
            && (b.mode == ProbeBw && r.mode == ProbeBw ==> r.pace == b.pace)
            && (b.mode == ProbeBw && !expired ==> r.mode == ProbeBw)
            && (b.mode != ProbeBw && r.mode == ProbeBw ==>
                  r.pace.lastCycleStart == b.ack.ackTime && IsFirstPhase(r.pace.cycleOffset, rand))
  {
    hide AppLimited;
  }

  /** Step `k` begins a phase of the gain cycle: it enters PROBE_BW, or moves the cycle on. */
  ghost predicate PhaseAt<P>(bs: seq<Bbr<P>>, es: seq<BbrEvent<P>>, k: nat) {
    && k < |es| && k + 1 < |bs| && es[k].OnEndAck? && bs[k + 1].mode == ProbeBw
    && (|| bs[k].mode != ProbeBw
        || MovesOn(bs[k].pace, bs[k].ack, bs[k].pace.lastCycleStart, bs[k + 1], es[k].inFlight, es[k].rttStat))
  }

  lemma EndAckCycle<P>(b: Bbr<P>, inFlight: nat, rttStat: nat, rand: byte)
    requires Inv(b) && b.inAck
    ensures var r := EndAck(b, inFlight, rttStat, rand);
            r.mode == ProbeBw ==>
              if b.mode != ProbeBw then
                r.pace.lastCycleStart == b.ack.ackTime && IsFirstPhase(r.pace.cycleOffset, rand)
              else if MovesOn(b.pace, b.ack, b.pace.lastCycleStart, r, inFlight, rttStat) then
                r.pace.cycleOffset == (b.pace.cycleOffset + 1) % CYCLE && r.pace.lastCycleStart == b.ack.ackTime
              else r.pace == b.pace.(pacingRate := r.pace.pacingRate)
  {
    hide ModelUpdated, ModeUpdated, Paced, Windowed, RecoveryWindowed, Expired, RoundStart, SamplesOk, TargetCwnd,
      MinRttOf, Sub64;
    var c := b.(inAck := false);
    NotInAckSamplesOk(b);
    ModelKeeps(c);
    ModelKeepsPace(c);
    var m := ModelUpdated(c);
    var r := EndAck(b, inFlight, rttStat, rand);
    var d := ModeUpdated(m, RoundStart(b), Expired(b), inFlight, rttStat, rand);
    ModeCycle(m, RoundStart(b), Expired(b), inFlight, rttStat, rand);
    ModePath(m, RoundStart(b), Expired(b), inFlight, rttStat, rand);
    TailKeeps(d, BytesAcked(b), b.ack.lostBytes, inFlight, rttStat);
    CycledIff(m, inFlight, rttStat);
    SameTarget(m, r, 1.0, rttStat);
    SameTarget(m, r, b.pace.pacingGain, rttStat);
    if b.mode == ProbeBw && r.mode == ProbeBw {
      EndAckMode(b, inFlight, rttStat, rand);
    }
    hide Cycled;
  }

  /** One step of a run, seen from the cycle. */
  lemma StepCycle<P>(bs: seq<Bbr<P>>, es: seq<BbrEvent<P>>, n: nat)
    requires IsRun(bs, es) && n < |es| && bs[n + 1].mode == ProbeBw
    ensures if PhaseAt(bs, es, n) then
              && bs[n + 1].pace.lastCycleStart == bs[n].ack.ackTime
              && if bs[n].mode != ProbeBw then IsFirstPhase(bs[n + 1].pace.cycleOffset, es[n].rand)
                 else bs[n + 1].pace.cycleOffset == (bs[n].pace.cycleOffset + 1) % CYCLE
            else
              && bs[n].mode == ProbeBw && bs[n + 1].pace.lastCycleStart == bs[n].pace.lastCycleStart
              && bs[n + 1].pace.cycleOffset == bs[n].pace.cycleOffset
  {
    hide Inv, EndAck, Start, CountsOk, MovesOn;
    var b, e := bs[n], es[n];
    RunKeepsInv(bs, es, n);
    InvMeansCounts(b);
    assert Next(b, e, bs[n + 1]);
    if e.OnEndAck? {
      EndAckCycle(b, e.inFlight, e.rttStat, e.rand);
    }
  }

  /** States `a + 1` to `n` are one phase of the cycle. */
  ghost predicate OnePhase<P>(bs: seq<Bbr<P>>, es: seq<BbrEvent<P>>, a: nat, n: nat) {
    && a < n < |bs| && PhaseAt(bs, es, a) && (forall k :: a < k < n ==> !PhaseAt(bs, es, k))
    && (forall k :: a < k <= n ==> bs[k].mode == ProbeBw && bs[k].pace.cycleOffset == bs[n].pace.cycleOffset)
  }

  lemma {:induction false} PhaseIsOne<P>(bs: seq<Bbr<P>>, es: seq<BbrEvent<P>>, n: nat) returns (a: nat)
    requires IsRun(bs, es) && n < |bs| && bs[n].mode == ProbeBw
    ensures OnePhase(bs, es, a, n) && bs[n].pace.lastCycleStart == bs[a].ack.ackTime
  {
    RunHasStates(bs, es);
    hide IsRun, PhaseAt;
    StepCycle(bs, es, n - 1);
    if PhaseAt(bs, es, n - 1) {
      a := n - 1;
    } else {
      a := PhaseIsOne(bs, es, n - 1);
    }
  }

  /**
   * In every run a phase of the gain cycle gives way to the next, and to no other, at the first ACK that
   * moves the cycle on, counted from the ACK that began the phase; PROBE_BW begins with any phase but
   * the draining one.
   */
  lemma CycleMovesOnIff<P>(bs: seq<Bbr<P>>, es: seq<BbrEvent<P>>, n: nat) returns (a: nat)
    requires IsRun(bs, es) && n < |es| && bs[n].mode == bs[n + 1].mode == ProbeBw
    ensures OnePhase(bs, es, a, n)
    ensures bs[n + 1].pace.cycleOffset ==
      if es[n].OnEndAck? && MovesOn(bs[n].pace, bs[n].ack, bs[a].ack.ackTime, bs[n + 1], es[n].inFlight, es[n].rttStat)
      then (bs[n].pace.cycleOffset + 1) % CYCLE else bs[n].pace.cycleOffset
  {
    RunHasStates(bs, es);
    hide IsRun, MovesOn;
    a := PhaseIsOne(bs, es, n);
    StepCycle(bs, es, n);
  }

  /** A random byte picks one of the seven phases that do not drain. */
  predicate IsFirstPhase(o: nat, rand: byte) {
    o < CYCLE && o != 1 && rand as nat % 7 == if o == 0 then 0 else o - 1
  }

  lemma CycleBeginsAnywhereButDraining<P>(bs: seq<Bbr<P>>, es: seq<BbrEvent<P>>, n: nat)
    requires IsRun(bs, es) && n < |es| && bs[n].mode != ProbeBw && bs[n + 1].mode == ProbeBw
    ensures es[n].OnEndAck? && IsFirstPhase(bs[n + 1].pace.cycleOffset, es[n].rand)
    ensures PacingGain(bs[n + 1].pace.cycleOffset) != 0.75
  {
    StepCycle(bs, es, n);
    hide IsRun, PhaseAt;
  }

  // ---------------------------------------------------------------- the window

  lemma RateDoesNotMatter<P>(d: Bbr<P>, acked: nat, rttStat: nat)
    ensures NextCwnd(Paced(d, rttStat), acked, rttStat) == NextCwnd(d, acked, rttStat)
  {
    hide NextPacingRate;
    SameTarget(d, Paced(d, rttStat), d.pace.cwndGain, rttStat);
    hide TargetCwnd;
  }

  lemma EndAckWindow<P>(b: Bbr<P>, inFlight: nat, rttStat: nat, rand: byte)
    requires Inv(b) && b.inAck
    ensures var r := EndAck(b, inFlight, rttStat, rand);
            r.cwnd == NextCwnd(r.(cwnd := b.cwnd), BytesAcked(b), rttStat)
  {
    hide ModelUpdated, ModeUpdated, NextPacingRate, NextCwnd, NextRecoveryWindow, Expired, RoundStart, SamplesOk;
    var c := b.(inAck := false);
    NotInAckSamplesOk(b);
    ModelKeeps(c);
    var m := ModelUpdated(c);
    ModeKeeps(m, RoundStart(b), Expired(b), inFlight, rttStat, rand);
    var d := ModeUpdated(m, RoundStart(b), Expired(b), inFlight, rttStat, rand);
    RateDoesNotMatter(d, BytesAcked(b), rttStat);
    TailKeeps(d, BytesAcked(b), b.ack.lostBytes, inFlight, rttStat);
    SameWindow(d, EndAck(b, inFlight, rttStat, rand).(cwnd := b.cwnd), BytesAcked(b), rttStat);
  }

  lemma SameWindow<P>(d: Bbr<P>, r: Bbr<P>, acked: nat, rttStat: nat)
    requires SameButWindows(d, r) && r.cwnd == d.cwnd
    ensures NextCwnd(r, acked, rttStat) == NextCwnd(d, acked, rttStat)
  {
    SameTarget(d, r, d.pace.cwndGain, rttStat);
    hide TargetCwnd;
  }

  /**
   * How the window moves at the end of an ACK in any run.  Before full bandwidth it grows by all the
   * bytes acked while it is below its target or fewer bytes than the initial window were ever acked,
   * and otherwise stays; at full bandwidth it grows by them up to the target and the ack height,
   * and falls to those at once; always within its bounds.
   */
  lemma WindowMoves<P>(bs: seq<Bbr<P>>, es: seq<BbrEvent<P>>, n: nat)
    requires IsRun(bs, es) && n < |es| && es[n].OnEndAck? && bs[n + 1].mode != ProbeRtt
    ensures var b, r, acked := bs[n], bs[n + 1], BytesOf(bs[n]);
            var target := TargetCwnd(r, r.pace.cwndGain, es[n].rttStat);
            var most := target + r.path.maxAckHeight.best.value;
            && (!r.full.atFullBw && (b.cwnd < target || r.sampler.totalAcked < INIT_CWND) ==>
                  r.cwnd == Min(b.cwnd + acked, MAX_CWND))
            && (!r.full.atFullBw && b.cwnd >= target && r.sampler.totalAcked >= INIT_CWND ==> r.cwnd == b.cwnd)
            && (r.full.atFullBw && b.cwnd + acked <= most ==> r.cwnd == Min(b.cwnd + acked, MAX_CWND))
            && (r.full.atFullBw && b.cwnd + acked > most ==> r.cwnd == Min(most, MAX_CWND))
  {
    hide Inv, EndAck, Start, TargetCwnd;
    var b, e := bs[n], es[n];
    RunKeepsInv(bs, es, n);
    InvMeansCounts(b);
    WindowInBounds(b);
    assert Next(b, e, bs[n + 1]);
    EndAckWindow(b, e.inFlight, e.rttStat, e.rand);
    SameTarget(bs[n + 1], bs[n + 1].(cwnd := b.cwnd), bs[n + 1].pace.cwndGain, e.rttStat);
  }

  lemma WindowInBounds<P>(b: Bbr<P>)
    requires Inv(b)
    ensures MIN_CWND <= b.cwnd <= MAX_CWND
  {
  }

  /** The window reported in any state of any run: the least one in PROBE_RTT, in recovery the smaller of the
      two windows, and otherwise the congestion window. */
  lemma ReportedWindow<P>(bs: seq<Bbr<P>>, es: seq<BbrEvent<P>>, n: nat)
    requires IsRun(bs, es) && n < |bs|
    ensures var b, w := bs[n], GetCwnd(bs[n]);
            && (b.mode == ProbeRtt ==> w == MIN_CWND)
            && w <= b.cwnd
            && (b.mode != ProbeRtt && b.loss.recovery == NotInRecovery ==> w == b.cwnd)
            && (b.mode != ProbeRtt && b.loss.recovery != NotInRecovery ==>
                  w <= b.loss.recoveryWindow && w in {b.cwnd, b.loss.recoveryWindow})
  {
    RunKeepsInv(bs, es, n);
  }

  lemma EndAckRecoveryWindow<P>(b: Bbr<P>, inFlight: nat, rttStat: nat, rand: byte)
    requires Inv(b) && b.inAck
    ensures var r := EndAck(b, inFlight, rttStat, rand);
            var was := if b.loss.recovery == NotInRecovery && b.ack.ackedBytes != 0 && b.ack.hasLosses then 0
                       else b.loss.recoveryWindow;
            var before := r.(loss := r.loss.(recoveryWindow := was));
            r.loss.recoveryWindow == NextRecoveryWindow(before, BytesAcked(b), b.ack.lostBytes, inFlight)
  {
    hide ModelUpdated, ModeUpdated, NextPacingRate, NextCwnd, Expired, RoundStart, SamplesOk, NextRecoveryWindow;
    var c := b.(inAck := false);
    NotInAckSamplesOk(b);
    ModelKeeps(c);
    var m := ModelUpdated(c);
    ModelWindow(c);
    ModeKeeps(m, RoundStart(b), Expired(b), inFlight, rttStat, rand);
    var d := ModeUpdated(m, RoundStart(b), Expired(b), inFlight, rttStat, rand);
    var w := Windowed(Paced(d, rttStat), BytesAcked(b), rttStat);
    var r := EndAck(b, inFlight, rttStat, rand);
    SameRecoveryWindow(w, r.(loss := r.loss.(recoveryWindow := w.loss.recoveryWindow)),
                       BytesAcked(b), b.ack.lostBytes, inFlight);
  }

  lemma SameRecoveryWindow<P>(w: Bbr<P>, r: Bbr<P>, acked: nat, lost: nat, inFlight: nat)
    requires r.loss.recovery == w.loss.recovery && r.loss.recoveryWindow == w.loss.recoveryWindow
    ensures NextRecoveryWindow(r, acked, lost, inFlight) == NextRecoveryWindow(w, acked, lost, inFlight)
  {
  }

  lemma ModelWindow<P>(b: Bbr<P>)
    requires b.ack.totalBefore <= b.sampler.totalAcked
    ensures ModelUpdated(b).loss.recoveryWindow ==
      if b.loss.recovery == NotInRecovery && b.ack.ackedBytes != 0 && b.ack.hasLosses then 0 else b.loss.recoveryWindow
  {
    if b.ack.ackedBytes != 0 {
      ModelPath(b);
      MeasuredLoss(Counted(b));
      hide ModelUpdated, Measured;
    }
  }

  lemma MeasuredLoss<P>(b: Bbr<P>)
    ensures Measured(b).loss == b.loss && Measured(b).ack == b.ack
  {
    hide Folded, MinRttRenewed;
  }

  /**
   * How the recovery window moves in any run: on entering it is what is in flight and was just acked; after
   * that it shrinks by what was lost, grows by what was acked once a round has passed, and never falls
   * below what is in flight and was acked, nor the least window.
   */
  lemma RecoveryWindowMoves<P>(bs: seq<Bbr<P>>, es: seq<BbrEvent<P>>, n: nat)
    requires IsRun(bs, es) && n < |es| && es[n].OnEndAck? && bs[n + 1].loss.recovery != NotInRecovery
    ensures var b, r, acked, lost := bs[n], bs[n + 1], BytesOf(bs[n]), bs[n].ack.lostBytes;
            var floor := Max(MIN_CWND, es[n].inFlight + acked);
            var gain := if r.loss.recovery == Growth then acked else 0;
            && (b.loss.recovery == NotInRecovery ==> r.loss.recoveryWindow == floor)
            && (b.loss.recovery != NotInRecovery && lost <= b.loss.recoveryWindow ==>
                  r.loss.recoveryWindow == Max(b.loss.recoveryWindow - lost + gain, floor))
            && (b.loss.recovery != NotInRecovery && lost > b.loss.recoveryWindow ==>
                  r.loss.recoveryWindow == Max(MSS + gain, floor))
  {
    hide Inv, EndAck, Start;
    var b, e := bs[n], es[n];
    RunKeepsInv(bs, es, n);
    InvMeansCounts(b);
    RecoveryInBounds(b);
    assert Next(b, e, bs[n + 1]);
    EndAckRecoveryWindow(b, e.inFlight, e.rttStat, e.rand);
    if b.loss.recovery == NotInRecovery {
      RecoveryStartsWithLoss(bs, es, n);
    }
  }

  lemma RecoveryInBounds<P>(b: Bbr<P>)
    requires Inv(b)
    ensures b.loss.recovery != NotInRecovery ==> b.loss.recoveryWindow >= MIN_CWND
  {
  }

  /** The target window: the gain times the product of bandwidth and round-trip time, rounded down, and at
      least the least window; the gain times the initial window while that product comes to nothing. */
  lemma TargetIsGainTimesBdp<P>(b: Bbr<P>, gain: Gain, rttStat: nat) returns (bdp: nat)
    ensures var rtt := if b.path.minRtt != 0 then b.path.minRtt else if rttStat != 0 then rttStat else 25000;
            bdp * 1000000 <= rtt * (b.path.maxBw.best.value / 8) < (bdp + 1) * 1000000
    ensures var x := if bdp as real * gain < 1.0 then INIT_CWND as real * gain else bdp as real * gain;
            var w := TargetCwnd(b, gain, rttStat);
            w >= MIN_CWND && x < w as real + 1.0 && (w as real <= x || w == MIN_CWND)
  {
    bdp := MinRttOf(b.path.minRtt, rttStat) * (b.path.maxBw.best.value / 8) / 1000000;
    ScaleIsFloor(bdp, gain);
    ScaleIsFloor(INIT_CWND, gain);
    hide Scale;
  }

  lemma ScaleIsFloor(x: nat, g: Gain)
    ensures Scale(x, g) as real <= x as real * g < Scale(x, g) as real + 1.0
  {
  }
}
