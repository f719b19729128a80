/** BBR as an object: its fields are changed in place by each call. */
module BbrSender {
  import opened Basics
  import opened SamplerSpec
  import opened Minmax
  import opened BbrSpec
  import opened BbrRuns
  import opened BbrPacing
  import opened BbrModes
  import opened BwSampler

  class Sender {
    const sampler: Sampler
    var ack: AckState
    var inAck: bool
    var mode: Mode
    var exitProbeRttAt: nat
    var roundPassed: bool
    var cwnd: nat
    var lastSent: nat
    var roundTripEnd: nat
    var path: Path
    var full: FullBw
    var pace: Pace
    var loss: LossState

    ghost function Snap(): Bbr<Packet>
      reads this, sampler
    {
      Bbr(sampler.Snap(), ack, inAck, mode, exitProbeRttAt, roundPassed, cwnd, lastSent, roundTripEnd,
          path, full, pace, loss)
    }

    ghost predicate Valid()
      reads this, sampler, sampler.states.Keys
    {
      sampler.Valid() && Inv(Snap())
    }

    /** init_bbr. */
    method Init()
      modifies this
      ensures Snap() == InitBbr(old(Snap()))
    {
      mode := Startup;
      exitProbeRttAt, roundPassed := 0, false;
      cwnd := INIT_CWND;
      path := Path(Fresh(10), Fresh(10), 0, 0, 0, 0, 0, path.minRttSinceProbe, false, false,
                   path.appLimitedSinceProbeRtt);
      full := FullBw(false, 0, 0);
      pace := Pace(0, HIGH_GAIN, HIGH_GAIN, 0, 0);
    }

    /** lsquic_bbr_init, on zeroed memory. */
    constructor ()
      ensures Valid() && Snap() == Start() && fresh(sampler)
    {
      sampler := new Sampler();
      ack, inAck, mode := NO_ACK, false, Startup;
      exitProbeRttAt, roundPassed, cwnd, lastSent, roundTripEnd := 0, false, 0, 0, 0;
      path, full, pace := ZERO_PATH, FullBw(false, 0, 0), Pace(0, 1.0, 1.0, 0, 0);
      loss := LossState(NotInRecovery, 0, 0);
      new;
      Init();
      StartIsOk<Packet>();
    }

    /** lsquic_bbr_reinit. */
    method Reinit()
      requires Valid()
      modifies this
      ensures Valid() && Snap() == StepBbr(old(Snap()), OnReinit)
    {
      StepKeeps(Snap(), OnReinit);
      Init();
    }

    /** lsquic_bbr_get_cwnd. */
    method GetWindow() returns (c: nat)
      requires Valid()
      ensures c == GetCwnd(Snap()) && MIN_CWND <= c <= MAX_CWND && c <= cwnd
      ensures mode == ProbeRtt ==> c == MIN_CWND
      ensures mode != ProbeRtt && loss.recovery == NotInRecovery ==> c == cwnd
      ensures mode != ProbeRtt && loss.recovery != NotInRecovery ==>
        c <= loss.recoveryWindow && c in {cwnd, loss.recoveryWindow}
    {
      if mode == ProbeRtt {
        c := MIN_CWND;
      } else if loss.recovery != NotInRecovery {
        c := if cwnd < loss.recoveryWindow then cwnd else loss.recoveryWindow;
      } else {
        c := cwnd;
      }
    }

    /** lsquic_bbr_sent. */
    method PacketSent(p: Packet, inFlight: nat, mini: bool, appLimited: bool)
      requires Valid() && sampler.Known(p)
      modifies this, sampler, p`state
      ensures Valid() && sampler.Known(p)
      ensures Snap() == StepBbr(old(Snap()), OnSent(p, p.info, inFlight, mini, appLimited))
    {
      hide Inv, StepBbr, Ordered, Sent, GetCwnd;
      SentUnfolded(Snap(), p, p.info, inFlight, mini, appLimited);
      var c := GetWindow();
      if !mini {
        sampler.PacketSent(p, inFlight);
      }
      lastSent := p.info.packno;
      if appLimited && inFlight < c {
        path := path.(appLimitedSinceProbeRtt := true);
        sampler.AppLimitedNow();
      }
    }

    /** lsquic_bbr_lost. */
    method PacketLost(p: Packet, size: nat)
      requires Valid() && sampler.Known(p)
      modifies this, sampler, p`state
      ensures Valid() && sampler.Known(p) && Snap() == StepBbr(old(Snap()), OnLost(p, size))
    {
      StepKeeps(Snap(), OnLost(p, size));
      hide Inv, Ordered, Lost;
      sampler.PacketLost(p);
      ack := ack.(hasLosses := true, lostBytes := ack.lostBytes + size);
    }

    /** lsquic_bbr_begin_ack. */
    method StartAck(ackTime: nat, inFlight: nat)
      requires Valid() && !inAck
      modifies this
      ensures Valid() && Snap() == StepBbr(old(Snap()), OnBeginAck(ackTime, inFlight))
    {
      StepKeeps(Snap(), OnBeginAck(ackTime, inFlight));
      inAck := true;
      ack := AckState([], ackTime, UINT64_MAX, 0, 0, sampler.totalAcked, inFlight, false);
    }

    /** The sample, if the ack makes one, joins the list. */
    method TakeSample(p: Packet)
      requires sampler.Valid() && sampler.Known(p)
      modifies this`ack, sampler, p`state
      ensures sampler.Valid() && sampler.Known(p)
      ensures var s, a := old(sampler.Snap()), old(ack);
              && sampler.Snap() == Acked(s, p, p.info, a.ackTime)
              && ack == a.(samples := if MakesSample(s, p, a.ackTime)
                                      then a.samples + [SampleOf(s, p, p.info, a.ackTime)] else a.samples)
    {
      hide Ordered, Acked, SampleOf, MakesSample;
      var sample := sampler.PacketAcked(p, ack.ackTime);
      if sample.Some? {
        ack := ack.(samples := ack.samples + [sample.value]);
      }
    }

    /** lsquic_bbr_ack. */
    method PacketAcked(p: Packet, size: nat)
      requires Valid() && inAck && sampler.Known(p)
      modifies this, sampler, p`state
      ensures Valid() && sampler.Known(p) && Snap() == StepBbr(old(Snap()), OnAck(p, p.info, size))
    {
      hide Inv, StepBbr, Ordered, Acked, SampleOf, MakesSample;
      AckUnfolded(Snap(), p, p.info, size);
      TakeSample(p);
      if ack.maxPackno > MAX_PACKNO || p.info.packno > ack.maxPackno {
        ack := ack.(maxPackno := p.info.packno);
      }
      ack := ack.(ackedBytes := ack.ackedBytes + size);
    }

    // -------------------------------------------------------------- the end of an ACK

    /** get_min_rtt. */
    method GetMinRtt(rttStat: nat) returns (r: nat)
      ensures r == MinRttOf(path.minRtt, rttStat)
    {
      if path.minRtt != 0 {
        return path.minRtt;
      }
      return if rttStat == 0 then 25000 else rttStat;
    }

    /** get_target_cwnd. */
    method GetTargetCwnd(gain: Gain, rttStat: nat) returns (r: nat)
      ensures r == TargetCwnd(Snap(), gain, rttStat)
    {
      var rtt := GetMinRtt(rttStat);
      var bdp := rtt * (path.maxBw.best.value / 8) / 1000000;
      var c := Scale(bdp, gain);
      if c == 0 {
        c := Scale(INIT_CWND, gain);
      }
      return Max(c, MIN_CWND);
    }

    /** The loop of update_bandwidth_and_min_rtt over the samples of the ACK. */
    method TakeSamples() returns (sampleMinRtt: nat)
      modifies this`path
      ensures sampleMinRtt == Folded(old(Snap())).minRtt
      ensures Fold(path.lastSampleAppLimited, path.hasNonAppLimited, path.maxBw, sampleMinRtt) == Folded(old(Snap()))
      ensures path == old(path).(lastSampleAppLimited := path.lastSampleAppLimited,
                                 hasNonAppLimited := path.hasNonAppLimited, maxBw := path.maxBw)
    {
      sampleMinRtt := UINT64_MAX;
      var i := 0;
      while i < |ack.samples|
        invariant 0 <= i <= |ack.samples|
        invariant path == old(path).(lastSampleAppLimited := path.lastSampleAppLimited,
                                     hasNonAppLimited := path.hasNonAppLimited, maxBw := path.maxBw)
        invariant Fold(path.lastSampleAppLimited, path.hasNonAppLimited, path.maxBw, sampleMinRtt)
          == FoldAll(FoldStart(old(path)), ack.samples[..i], path.roundCount)
      {
        var s := ack.samples[i];
        assert ack.samples[..i + 1][..i] == ack.samples[..i];
        if s.isAppLimited {
          path := path.(lastSampleAppLimited := true);
        } else {
          path := path.(lastSampleAppLimited := false, hasNonAppLimited := true);
        }
        if sampleMinRtt == UINT64_MAX || s.rtt < sampleMinRtt {
          sampleMinRtt := s.rtt;
        }
        if !s.isAppLimited || s.bandwidth > path.maxBw.best.value {
          path := path.(maxBw := UpMax(path.maxBw, path.roundCount, s.bandwidth));
        }
        i := i + 1;
      }
      assert ack.samples[..i] == ack.samples;
    }

    /** update_bandwidth_and_min_rtt. */
    method UpdateBandwidthAndMinRtt() returns (expired: bool)
      modifies this`path
      ensures Snap() == Measured(old(Snap())) && expired == MinRttExpired(old(Snap()))
      ensures old(path).hasNonAppLimited ==> path.hasNonAppLimited
      ensures expired ==> path.minRttTimestamp == ack.ackTime > old(path).minRttTimestamp + MIN_RTT_EXPIRY
    {
      FoldKeepsNonAppLimited(FoldStart(path), ack.samples, path.roundCount);
      assert path.hasNonAppLimited ==> Folded(Snap()).hasNonAppLimited;
      hide Folded;
      var m := TakeSamples();
      if m == UINT64_MAX {
        return false;
      }
      path := path.(minRttSinceProbe := Min(path.minRttSinceProbe, m));
      expired := path.minRtt != 0 && ack.ackTime > path.minRttTimestamp + MIN_RTT_EXPIRY;
      if expired || m < path.minRtt || path.minRtt == 0 {
        path := path.(minRtt := m, minRttTimestamp := ack.ackTime, minRttSinceProbe := UINT64_MAX,
                      appLimitedSinceProbeRtt := false);
      }
    }

    /** update_recovery_state. */
    method UpdateRecoveryState(roundStart: bool)
      modifies this`loss, this`roundTripEnd
      ensures Snap() == Recovered(old(Snap()), roundStart)
      ensures ack.hasLosses ==> loss.recovery != NotInRecovery && loss.endRecoveryAt == lastSent
      ensures !ack.hasLosses ==> loss.endRecoveryAt == old(loss).endRecoveryAt
      ensures !ack.hasLosses && old(loss).recovery != NotInRecovery ==>
        (loss.recovery == NotInRecovery <==> ack.maxPackno > loss.endRecoveryAt)
    {
      if ack.hasLosses {
        loss := loss.(endRecoveryAt := lastSent);
      }
      if loss.recovery == NotInRecovery {
        if ack.hasLosses {
          loss := loss.(recovery := Conservation, recoveryWindow := 0);
          roundTripEnd := lastSent;
        }
      } else {
        if loss.recovery == Conservation && roundStart {
          loss := loss.(recovery := Growth);
        }
        if !ack.hasLosses && ack.maxPackno > loss.endRecoveryAt {
          loss := loss.(recovery := NotInRecovery);
        }
      }
    }

    /** update_ack_aggregation_bytes: how many bytes more than the bandwidth estimate allows were
        acked since the epoch began.  None starts a new epoch with this ACK; otherwise the filter
        is at least that high. */
    method UpdateAckAggregation(newlyAcked: nat) returns (excess: nat)
      modifies this`path
      ensures Snap() == Aggregated(old(Snap()), newlyAcked)
      ensures excess == 0 <==> old(path).epochBytes <= ExpectedAcked(old(path), ack.ackTime)
      ensures excess == 0 ==> path.epochBytes == newlyAcked && path.epochStart == ack.ackTime
      ensures excess > 0 ==>
        && path.epochBytes == old(path).epochBytes + newlyAcked == ExpectedAcked(old(path), ack.ackTime) + excess
        && path.epochStart == old(path).epochStart && path.maxAckHeight.best.value >= excess
    {
      hide ExpectedAcked, UpMax;
      var expected := ExpectedAcked(path, ack.ackTime);
      if path.epochBytes <= expected {
        path := path.(epochBytes := newlyAcked, epochStart := ack.ackTime);
        return 0;
      }
      excess := path.epochBytes + newlyAcked - expected;
      UpMaxAtLeast(path.maxAckHeight, path.roundCount, excess);
      path := path.(epochBytes := path.epochBytes + newlyAcked);
      path := path.(maxAckHeight := UpMax(path.maxAckHeight, path.roundCount, excess));
    }

    /** update_gain_cycle_phase. */
    method UpdateGainCyclePhase(inFlight: nat, rttStat: nat)
      modifies this`pace
      ensures Snap() == Cycled(old(Snap()), inFlight, rttStat)
      ensures mode == ProbeBw && GainsOk(old(Snap())) ==> GainsOk(Snap())
      ensures ack.inFlight < TargetCwnd(old(Snap()), old(pace).pacingGain, rttStat) ==>
        old(pace).pacingGain > 1.0 && !ack.hasLosses ==> pace == old(pace)
      ensures if MovesOn(old(pace), ack, old(pace).lastCycleStart, old(Snap()), inFlight, rttStat)
              then pace.cycleOffset == (old(pace).cycleOffset + 1) % CYCLE && pace.lastCycleStart == ack.ackTime
              else pace == old(pace)
    {
      hide TargetCwnd;
      var rtt := GetMinRtt(rttStat);
      var advance := Sub64(ack.ackTime, pace.lastCycleStart) > rtt;
      var target := GetTargetCwnd(pace.pacingGain, rttStat);
      if pace.pacingGain > 1.0 && !ack.hasLosses && ack.inFlight < target {
        advance := false;
      }
      target := GetTargetCwnd(1.0, rttStat);
      if pace.pacingGain < 1.0 && inFlight <= target {
        advance := true;
      }
      if advance {
        pace := pace.(cycleOffset := (pace.cycleOffset + 1) % CYCLE, lastCycleStart := ack.ackTime);
        pace := pace.(pacingGain := PacingGain(pace.cycleOffset));
      }
    }

    /** check_if_full_bw_reached, with its assertion. */
    method CheckIfFullBwReached()
      requires SamplesOk(Snap())
      modifies this`full
      ensures Snap() == FullBwChecked(old(Snap()))
      ensures path.lastSampleAppLimited ==> full == old(full)
      ensures full.atFullBw && !old(full).atFullBw ==>
        path.hasNonAppLimited && old(full).roundWoGain + 1 >= STARTUP_RTTS
    {
      if path.lastSampleAppLimited {
        return;
      }
      var target := Scale(full.bwAtLastRound, GROWTH_TARGET);
      if path.maxBw.best.value >= target {
        full := full.(bwAtLastRound := path.maxBw.best.value, roundWoGain := 0);
        return;
      }
      full := full.(roundWoGain := full.roundWoGain + 1);
      if full.roundWoGain >= STARTUP_RTTS {
        assert path.hasNonAppLimited;
        full := full.(atFullBw := true);
      }
    }

    /** enter_probe_bw_mode. */
    method EnterProbeBwMode(now: nat, rand: byte)
      modifies this`mode, this`pace
      ensures Snap() == EnterProbeBw(old(Snap()), now, rand)
      ensures mode == ProbeBw && pace.cycleOffset < CYCLE && pace.cycleOffset != 1 && GainsOk(Snap())
    {
      mode := ProbeBw;
      pace := pace.(cwndGain := CWND_GAIN);
      pace := pace.(cycleOffset := rand as nat % (CYCLE - 1));
      if pace.cycleOffset >= 1 {
        pace := pace.(cycleOffset := pace.cycleOffset + 1);
      }
      pace := pace.(lastCycleStart := now, pacingGain := PacingGain(pace.cycleOffset));
    }

    /** maybe_exit_startup_or_drain. */
    method MaybeExitStartupOrDrain(inFlight: nat, rttStat: nat, rand: byte)
      modifies this`mode, this`pace
      ensures Snap() == LeftStartupOrDrain(old(Snap()), inFlight, rttStat, rand)
      ensures !(mode == Startup && full.atFullBw)
      ensures old(mode) in {ProbeBw, ProbeRtt} ==> mode == old(mode) && pace == old(pace)
      ensures mode == Drain ==> inFlight > TargetCwnd(Snap(), 1.0, rttStat)
    {
      hide TargetCwnd;
      if mode == Startup && full.atFullBw {
        mode := Drain;
        pace := pace.(pacingGain := DRAIN_GAIN, cwndGain := HIGH_GAIN);
      }
      if mode == Drain {
        var target := GetTargetCwnd(1.0, rttStat);
        if inFlight <= target {
          EnterProbeBwMode(ack.ackTime, rand);
        }
      }
    }

    /** maybe_enter_or_exit_probe_rtt. */
    method MaybeEnterOrExitProbeRtt(roundStart: bool, expired: bool, inFlight: nat, rand: byte)
      requires sampler.Valid()
      modifies this`mode, this`pace, this`exitProbeRttAt, this`roundPassed, this`path, sampler
      ensures sampler.Valid() && sampler.states == old(sampler.states)
      ensures Snap() == LeftProbeRtt(EnteredProbeRtt(old(Snap()), expired), roundStart, inFlight, rand)
      ensures Clock(old(Snap()), Snap(), roundStart, inFlight)
      ensures old(mode) != ProbeRtt ==> mode == (if expired then ProbeRtt else old(mode))
      ensures old(mode) != ProbeRtt && expired ==> pace.pacingGain == 1.0
    {
      ProbeRttClock(Snap(), expired, roundStart, inFlight, rand);
      hide Ordered, EnterProbeBw, Clock;
      if expired && mode != ProbeRtt {
        mode := ProbeRtt;
        pace := pace.(pacingGain := 1.0);
        exitProbeRttAt := 0;
      }
      if mode == ProbeRtt {
        sampler.AppLimitedNow();
        if exitProbeRttAt == 0 {
          if inFlight < MIN_CWND + MAX_OUTGOING_PACKET {
            exitProbeRttAt, roundPassed := ack.ackTime + PROBE_RTT_TIME, false;
          }
        } else {
          if roundStart {
            roundPassed := true;
          }
          if ack.ackTime >= exitProbeRttAt && roundPassed {
            path := path.(minRttTimestamp := ack.ackTime);
            if !full.atFullBw {
              mode := Startup;
              pace := pace.(pacingGain := HIGH_GAIN, cwndGain := HIGH_GAIN);
            } else {
              EnterProbeBwMode(ack.ackTime, rand);
            }
          }
        }
      }
    }

    /** calculate_pacing_rate. */
    method CalculatePacingRate(rttStat: nat)
      modifies this`pace
      ensures Snap() == Paced(old(Snap()), rttStat)
      ensures !full.atFullBw ==> pace.pacingRate >= old(pace).pacingRate
      ensures full.atFullBw && path.maxBw.best.value != 0 ==>
        pace.pacingRate == Scale(path.maxBw.best.value, pace.pacingGain)
      ensures RateBeforeFull(old(pace).pacingRate, Snap(), rttStat)
    {
      hide Scale, BwFromBytes;
      var bw := path.maxBw.best.value;
      if bw == 0 {
        return;
      }
      var target := Scale(bw, pace.pacingGain);
      if full.atFullBw {
        pace := pace.(pacingRate := target);
        return;
      }
      if pace.pacingRate == 0 && rttStat != 0 {
        pace := pace.(pacingRate := BwFromBytes(INIT_CWND, rttStat));
        return;
      }
      if pace.pacingRate < target {
        pace := pace.(pacingRate := target);
      }
    }

    /** calculate_cwnd. */
    method CalculateCwnd(bytesAcked: nat, rttStat: nat)
      modifies this`cwnd
      ensures Snap() == Windowed(old(Snap()), bytesAcked, rttStat)
      ensures MIN_CWND <= old(cwnd) <= MAX_CWND ==>
        && MIN_CWND <= cwnd <= MAX_CWND && cwnd <= old(cwnd) + bytesAcked
        && (!full.atFullBw ==> cwnd >= old(cwnd))
      ensures mode == ProbeRtt ==> cwnd == old(cwnd)
      ensures mode != ProbeRtt && MIN_CWND <= old(cwnd) <= MAX_CWND ==>
        var target := TargetCwnd(old(Snap()), pace.cwndGain, rttStat);
        var most := target + path.maxAckHeight.best.value;
        && (!full.atFullBw && (old(cwnd) < target || sampler.totalAcked < INIT_CWND) ==>
              cwnd == Min(old(cwnd) + bytesAcked, MAX_CWND))
        && (full.atFullBw ==> cwnd == Min(Min(most, old(cwnd) + bytesAcked), MAX_CWND))
    {
      hide TargetCwnd;
      if mode == ProbeRtt {
        return;
      }
      var target := GetTargetCwnd(pace.cwndGain, rttStat);
      if full.atFullBw {
        target := target + path.maxAckHeight.best.value;
        cwnd := if target < cwnd + bytesAcked then target else cwnd + bytesAcked;
      } else if cwnd < target || sampler.totalAcked < INIT_CWND {
        cwnd := cwnd + bytesAcked;
      }
      if cwnd < MIN_CWND {
        cwnd := MIN_CWND;
      } else if cwnd > MAX_CWND {
        cwnd := MAX_CWND;
      }
    }

    /** calculate_recovery_window. */
    method CalculateRecoveryWindow(bytesAcked: nat, bytesLost: nat, inFlight: nat)
      modifies this`loss
      ensures Snap() == RecoveryWindowed(old(Snap()), bytesAcked, bytesLost, inFlight)
      ensures loss.recovery != NotInRecovery ==> loss.recoveryWindow >= Max(MIN_CWND, inFlight + bytesAcked)
      ensures loss.recovery == Conservation && old(loss).recoveryWindow != 0 ==>
        loss.recoveryWindow <= Max(old(loss).recoveryWindow, Max(MIN_CWND, inFlight + bytesAcked))
      ensures loss.recovery != NotInRecovery && old(loss).recoveryWindow >= Max(1, bytesLost) ==>
        loss.recoveryWindow >= old(loss).recoveryWindow - bytesLost + if loss.recovery == Growth then bytesAcked else 0
    {
      if loss.recovery == NotInRecovery {
        return;
      }
      if loss.recoveryWindow == 0 {
        loss := loss.(recoveryWindow := Max(MIN_CWND, inFlight + bytesAcked));
        return;
      }
      var w := loss.recoveryWindow;
      if w >= bytesLost {
        w := w - bytesLost;
      } else {
        w := MSS;
      }
      if loss.recovery == Growth {
        w := w + bytesAcked;
      }
      w := Max(w, inFlight + bytesAcked);
      loss := loss.(recoveryWindow := Max(w, MIN_CWND));
    }

    /** The part of lsquic_bbr_end_ack up to the mode: rounds, bandwidth, recovery, aggregation. */
    method UpdateModel(bytesAcked: nat) returns (roundStart: bool, expired: bool)
      requires ack.totalBefore <= sampler.totalAcked && bytesAcked == BytesAcked(Snap())
      modifies this`path, this`loss, this`roundTripEnd
      ensures Snap() == ModelUpdated(old(Snap()))
      ensures roundStart == RoundStart(old(Snap())) && expired == Expired(old(Snap()))
    {
      hide Measured, Recovered, Aggregated, MinRttExpired;
      if ack.ackedBytes == 0 {
        return false, false;
      }
      roundStart := ack.maxPackno > roundTripEnd || roundTripEnd > MAX_PACKNO;
      if roundStart {
        path := path.(roundCount := path.roundCount + 1);
        roundTripEnd := lastSent;
      }
      assert Snap() == Counted(old(Snap()));
      expired := UpdateBandwidthAndMinRtt();
      UpdateRecoveryState(roundStart);
      var _ := UpdateAckAggregation(bytesAcked);
    }

    /** The part that settles the mode. */
    method UpdateMode(roundStart: bool, expired: bool, inFlight: nat, rttStat: nat, rand: byte)
      requires sampler.Valid() && SamplesOk(Snap())
      modifies this`mode, this`pace, this`exitProbeRttAt, this`roundPassed, this`path, this`full, sampler
      ensures sampler.Valid() && sampler.states == old(sampler.states)
      ensures Snap() == ModeUpdated(old(Snap()), roundStart, expired, inFlight, rttStat, rand)
    {
      hide Cycled, FullBwChecked, LeftStartupOrDrain, EnteredProbeRtt, LeftProbeRtt, Ordered, SamplesOk;
      CycledKeeps(Snap(), inFlight, rttStat);
      if mode == ProbeBw {
        UpdateGainCyclePhase(inFlight, rttStat);
      }
      if roundStart && !full.atFullBw {
        CheckIfFullBwReached();
      }
      MaybeExitStartupOrDrain(inFlight, rttStat, rand);
      MaybeEnterOrExitProbeRtt(roundStart, expired, inFlight, rand);
    }

    /** lsquic_bbr_end_ack. */
    method FinishAck(inFlight: nat, rttStat: nat, rand: byte)
      requires Valid() && inAck
      modifies this, sampler
      ensures Valid() && sampler.states == old(sampler.states)
      ensures Snap() == StepBbr(old(Snap()), OnEndAck(inFlight, rttStat, rand))
    {
      ghost var b := Snap();
      EndAckFacts(b, inFlight, rttStat, rand);
      hide Inv, StepBbr, Ordered, ModelUpdated, ModeUpdated, Paced, Windowed, RecoveryWindowed, SamplesOk,
        RoundStart, Expired;
      inAck := false;
      var bytesAcked := sampler.totalAcked - ack.totalBefore;
      var bytesLost := ack.lostBytes;
      var roundStart, expired := UpdateModel(bytesAcked);
      UpdateMode(roundStart, expired, inFlight, rttStat, rand);
      CalculatePacingRate(rttStat);
      CalculateCwnd(bytesAcked, rttStat);
      CalculateRecoveryWindow(bytesAcked, bytesLost, inFlight);
    }
  }

  lemma {:induction false} FoldKeepsNonAppLimited(f: Fold, samples: seq<Sample>, round: nat)
    ensures f.hasNonAppLimited ==> FoldAll(f, samples, round).hasNonAppLimited
  {
    if samples != [] {
      FoldKeepsNonAppLimited(f, samples[..|samples| - 1], round);
    }
  }

  /** What the end of an ACK relies on, stage by stage. */
  lemma EndAckFacts<P>(b: Bbr<P>, inFlight: nat, rttStat: nat, rand: byte)
    requires Inv(b) && b.inAck
    ensures b.ack.totalBefore <= b.sampler.totalAcked
    ensures var c := b.(inAck := false);
            var acked := BytesAcked(c);
            var m := ModelUpdated(c);
            var r := ModeUpdated(m, RoundStart(c), Expired(c), inFlight, rttStat, rand);
            var r := RecoveryWindowed(Windowed(Paced(r, rttStat), acked, rttStat), acked, b.ack.lostBytes, inFlight);
            && SamplesOk(m) && Inv(r) && r == StepBbr(b, OnEndAck(inFlight, rttStat, rand))
  {
    hide Inv, ModelUpdated, ModeUpdated, Paced, Windowed, RecoveryWindowed, SamplesOk, StepBbr;
    EndAckModelOk(b);
    InvMeansCounts(b);
    StepKeeps(b, OnEndAck(inFlight, rttStat, rand));
    EndAckUnfolded(b, inFlight, rttStat, rand);
  }

  lemma EndAckModelOk<P>(b: Bbr<P>)
    requires Inv(b) && b.inAck
    ensures b.ack.totalBefore <= b.sampler.totalAcked && SamplesOk(ModelUpdated(b.(inAck := false)))
  {
    hide ModelUpdated;
    NotInAckSamplesOk(b);
    ModelKeeps(b.(inAck := false));
  }

  lemma EndAckUnfolded<P>(b: Bbr<P>, inFlight: nat, rttStat: nat, rand: byte)
    requires CountsOk(b) && b.inAck
    ensures var c := b.(inAck := false);
            var acked := BytesAcked(c);
            var r := ModeUpdated(ModelUpdated(c), RoundStart(c), Expired(c), inFlight, rttStat, rand);
            StepBbr(b, OnEndAck(inFlight, rttStat, rand))
              == RecoveryWindowed(Windowed(Paced(r, rttStat), acked, rttStat), acked, b.ack.lostBytes, inFlight)
  {
    hide ModelUpdated, ModeUpdated, Paced, Windowed, RecoveryWindowed, FoldAll;
  }

  lemma SentUnfolded<P>(b: Bbr<P>, p: P, i: PacketInfo, inFlight: nat, mini: bool, appLimited: bool)
    requires Inv(b)
    ensures CountsOk(b)
    ensures StepBbr(b, OnSent(p, i, inFlight, mini, appLimited)) == BbrSent(b, p, i, inFlight, mini, appLimited)
    ensures Inv(BbrSent(b, p, i, inFlight, mini, appLimited))
  {
    hide Inv, BbrSent;
    InvMeansCounts(b);
    StepKeeps(b, OnSent(p, i, inFlight, mini, appLimited));
  }

  lemma AckUnfolded<P>(b: Bbr<P>, p: P, i: PacketInfo, size: nat)
    requires Inv(b) && b.inAck
    ensures Ordered(b.sampler)
    ensures StepBbr(b, OnAck(p, i, size)) == BbrAck(b, p, i, size) && Inv(BbrAck(b, p, i, size))
  {
    hide Inv, BbrAck;
    InvMeansCounts(b);
    StepKeeps(b, OnAck(p, i, size));
  }
}
