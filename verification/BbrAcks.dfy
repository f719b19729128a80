/** What BBR takes from the events of a run: what an ACK reports, which samples it makes, and when a round
    begins.
*/
module BbrAcks {
  import opened Basics
  import opened SamplerSpec
  import opened BbrSpec
  import opened BbrRuns
  import opened BbrPath
  import opened BbrModes

  // ---------------------------------------------------------------- one ACK

  /** Step `a` opens the latest ACK before state `n`. */
  ghost predicate LastBegin<P>(es: seq<BbrEvent<P>>, a: nat, n: nat) {
    a < n <= |es| && es[a].OnBeginAck? && forall k :: a < k < n ==> !es[k].OnBeginAck?
  }

  /** The sizes of the packets acked, and of those lost, in steps `a` to `n - 1`. */
  ghost function SizesAcked<P>(es: seq<BbrEvent<P>>, a: nat, n: nat): (c: nat)
    requires a <= n <= |es|
  {
    if n == a then 0 else SizesAcked(es, a, n - 1) + if es[n - 1].OnAck? then es[n - 1].size else 0
  }

  ghost function SizesLost<P>(es: seq<BbrEvent<P>>, a: nat, n: nat): (c: nat)
    requires a <= n <= |es|
  {
    if n == a then 0 else SizesLost(es, a, n - 1) + if es[n - 1].OnLost? then es[n - 1].size else 0
  }

  ghost predicate LossIn<P>(es: seq<BbrEvent<P>>, a: nat, n: nat) {
    n <= |es| && exists k :: a <= k < n && es[k].OnLost?
  }

  /** The packet numbers acked in steps `a` to `n - 1`. */
  ghost function Numbers<P>(es: seq<BbrEvent<P>>, a: nat, n: nat): (s: set<nat>)
    requires a <= n <= |es|
  {
    if n == a then {}
    else if es[n - 1].OnAck? then Numbers(es, a, n - 1) + {es[n - 1].i.packno}
    else Numbers(es, a, n - 1)
  }

  /** The sample that a step makes, if any. */
  ghost function SampleAt<P>(b: Bbr<P>, e: BbrEvent<P>): (s: seq<Sample>) {
    if e.OnAck? && Ordered(b.sampler) && MakesSample(b.sampler, e.p, b.ack.ackTime)
    then [SampleOf(b.sampler, e.p, e.i, b.ack.ackTime)] else []
  }

  ghost function SamplesIn<P>(bs: seq<Bbr<P>>, es: seq<BbrEvent<P>>, a: nat, n: nat): (s: seq<Sample>)
    requires a <= n <= |es| && n < |bs|
  {
    if n == a then [] else SamplesIn(bs, es, a, n - 1) + SampleAt(bs[n - 1], es[n - 1])
  }

  /** `m` is the largest of the numbers, or no number if there are none. */
  ghost predicate IsLargest(m: nat, s: set<nat>) {
    if s == {} then m == UINT64_MAX else m in s && forall x :: x in s ==> x <= m
  }

  /** The ACK that step `a` opened, as state `n` has it. */
  ghost predicate AckIs<P>(bs: seq<Bbr<P>>, es: seq<BbrEvent<P>>, a: nat, n: nat)
    requires a < n <= |es| && n < |bs| && es[a].OnBeginAck?
  {
    var ack := bs[n].ack;
    && ack.ackTime == es[a].ackTime && ack.inFlight == es[a].inFlight
    && ack.totalBefore == bs[a].sampler.totalAcked
    && ack.ackedBytes == SizesAcked(es, a, n) && ack.lostBytes == SizesLost(es, a, n)
    && (ack.hasLosses <==> LossIn(es, a, n)) && ack.samples == SamplesIn(bs, es, a, n)
    && ((forall x :: x in Numbers(es, a, n) ==> x <= MAX_PACKNO) ==> IsLargest(ack.maxPackno, Numbers(es, a, n)))
  }

  /** What a step that does not open an ACK does to the one at hand. */
  ghost predicate AckStep<P>(b: Bbr<P>, e: BbrEvent<P>, r: Bbr<P>) {
    && r.ack.ackTime == b.ack.ackTime && r.ack.inFlight == b.ack.inFlight && r.ack.totalBefore == b.ack.totalBefore
    && r.ack.ackedBytes == b.ack.ackedBytes + (if e.OnAck? then e.size else 0)
    && r.ack.lostBytes == b.ack.lostBytes + (if e.OnLost? then e.size else 0)
    && r.ack.hasLosses == (b.ack.hasLosses || e.OnLost?) && r.ack.samples == b.ack.samples + SampleAt(b, e)
    && r.ack.maxPackno == if e.OnAck? && (b.ack.maxPackno > MAX_PACKNO || e.i.packno > b.ack.maxPackno)
                          then e.i.packno else b.ack.maxPackno
  }

  lemma StepAck<P>(bs: seq<Bbr<P>>, es: seq<BbrEvent<P>>, n: nat)
    requires IsRun(bs, es) && n < |es|
    ensures if es[n].OnBeginAck?
            then bs[n + 1].ack == AckState([], es[n].ackTime, UINT64_MAX, 0, 0, bs[n].sampler.totalAcked,
                                           es[n].inFlight, false)
            else AckStep(bs[n], es[n], bs[n + 1])
  {
    hide Inv, EndAck, Start, SampleOf, MakesSample, Acked, Sent, Lost;
    var b, e := bs[n], es[n];
    RunKeepsInv(bs, es, n);
    InvMeansCounts(b);
    assert Next(b, e, bs[n + 1]);
    if e.OnEndAck? {
      EndAckKeepsAck(b, e.inFlight, e.rttStat, e.rand);
    }
  }

  lemma LargestNext(m: nat, s: set<nat>, x: nat)
    requires IsLargest(m, s) && forall y :: y in s + {x} ==> y <= MAX_PACKNO
    ensures IsLargest(if m > MAX_PACKNO || x > m then x else m, s + {x})
  {
    assert s == {} <==> m > MAX_PACKNO;
  }

  /** In every state of every run what is known of the latest ACK is what its events said. */
  lemma {:induction false} AckIsOfItsEvents<P>(bs: seq<Bbr<P>>, es: seq<BbrEvent<P>>, a: nat, n: nat)
    requires IsRun(bs, es) && LastBegin(es, a, n) && n < |bs|
    ensures AckIs(bs, es, a, n)
  {
    hide IsRun;
    RunHasStates(bs, es);
    StepAck(bs, es, n - 1);
    if n == a + 1 {
      assert SizesAcked(es, a, a) == 0 && SizesLost(es, a, a) == 0 && Numbers(es, a, a) == {};
      assert SamplesIn(bs, es, a, a) == [];
    } else {
      AckIsOfItsEvents(bs, es, a, n - 1);
      assert LossIn(es, a, n) <==> LossIn(es, a, n - 1) || es[n - 1].OnLost?;
      hide LossIn, IsLargest, SampleAt;
      if es[n - 1].OnAck? && forall x :: x in Numbers(es, a, n) ==> x <= MAX_PACKNO {
        LargestNext(bs[n - 1].ack.maxPackno, Numbers(es, a, n - 1), es[n - 1].i.packno);
      }
    }
  }

  // ---------------------------------------------------------------- rounds

  /** The number of the last packet sent before state `n`; zero if none was. */
  ghost function LastSentBy<P>(es: seq<BbrEvent<P>>, n: nat): (x: nat)
    requires n <= |es|
  {
    if n == 0 then 0 else if es[n - 1].OnSent? then es[n - 1].i.packno else LastSentBy(es, n - 1)
  }

  /** Step `k` ends an ACK that starts a round or begins recovery. */
  ghost predicate MarksRound<P>(bs: seq<Bbr<P>>, es: seq<BbrEvent<P>>, k: nat) {
    RoundAt(bs, es, k) || (LossAt(bs, es, k) && bs[k].loss.recovery == NotInRecovery)
  }

  /** The number of the last packet sent when the current round began, at its start or with recovery. */
  ghost function RoundEnd<P>(bs: seq<Bbr<P>>, es: seq<BbrEvent<P>>, n: nat): (x: nat)
    requires |bs| == |es| + 1 && n < |bs|
  {
    if n == 0 then 0
    else if MarksRound(bs, es, n - 1) then LastSentBy(es, n - 1)
    else RoundEnd(bs, es, n - 1)
  }

  lemma ModelRound<P>(b: Bbr<P>)
    requires b.ack.totalBefore <= b.sampler.totalAcked
    ensures var r := ModelUpdated(b);
            && r.lastSent == b.lastSent
            && r.roundTripEnd ==
                 if RoundStart(b) || (b.ack.ackedBytes != 0 && b.ack.hasLosses && b.loss.recovery == NotInRecovery)
                 then b.lastSent else b.roundTripEnd
  {
    if b.ack.ackedBytes != 0 {
      MeasuredRound(Counted(b));
      var m := Measured(Counted(b));
      hide Measured;
      var r := Recovered(m, RoundStart(b));
      AggregatedRound(r, BytesAcked(b));
      hide Aggregated;
    }
  }

  lemma MeasuredRound<P>(b: Bbr<P>)
    ensures var r := Measured(b);
            && r.lastSent == b.lastSent && r.roundTripEnd == b.roundTripEnd && r.ack == b.ack && r.loss == b.loss
  {
    hide Folded, MinRttRenewed;
  }

  lemma AggregatedRound<P>(b: Bbr<P>, n: nat)
    ensures Aggregated(b, n).lastSent == b.lastSent && Aggregated(b, n).roundTripEnd == b.roundTripEnd
  {
  }

  lemma ModeRound<P>(b: Bbr<P>, start: bool, expired: bool, inFlight: nat, rttStat: nat, rand: byte)
    ensures var r := ModeUpdated(b, start, expired, inFlight, rttStat, rand);
            SameRound(b, r)
  {
    hide Cycled, FullBwChecked, LeftStartupOrDrain, EnteredProbeRtt, LeftProbeRtt;
    var c := if b.mode == ProbeBw then Cycled(b, inFlight, rttStat) else b;
    CycledRound(b, inFlight, rttStat);
    var f := if start && !c.full.atFullBw then FullBwChecked(c) else c;
    FullBwRound(c);
    LeftStartupRound(f, inFlight, rttStat, rand);
    ProbeRttRound(LeftStartupOrDrain(f, inFlight, rttStat, rand), expired, start, inFlight, rand);
  }

  ghost predicate SameRound<P>(b: Bbr<P>, r: Bbr<P>) {
    r.lastSent == b.lastSent && r.roundTripEnd == b.roundTripEnd
  }

  lemma CycledRound<P>(b: Bbr<P>, inFlight: nat, rttStat: nat)
    ensures SameRound(b, Cycled(b, inFlight, rttStat))
  {
    hide TargetCwnd;
  }

  lemma FullBwRound<P>(b: Bbr<P>)
    ensures SameRound(b, FullBwChecked(b))
  {
  }

  lemma LeftStartupRound<P>(b: Bbr<P>, inFlight: nat, rttStat: nat, rand: byte)
    ensures SameRound(b, LeftStartupOrDrain(b, inFlight, rttStat, rand))
  {
    hide TargetCwnd;
  }

  lemma ProbeRttRound<P>(b: Bbr<P>, expired: bool, start: bool, inFlight: nat, rand: byte)
    ensures SameRound(b, LeftProbeRtt(EnteredProbeRtt(b, expired), start, inFlight, rand))
  {
    hide LeftProbeRtt;
    LeftProbeRttRound(EnteredProbeRtt(b, expired), start, inFlight, rand);
  }

  lemma LeftProbeRttRound<P>(b: Bbr<P>, start: bool, inFlight: nat, rand: byte)
    ensures SameRound(b, LeftProbeRtt(b, start, inFlight, rand))
  {
    hide AppLimited;
  }

  lemma TailRound<P>(d: Bbr<P>, acked: nat, lost: nat, inFlight: nat, rttStat: nat)
    ensures var r := RecoveryWindowed(Windowed(Paced(d, rttStat), acked, rttStat), acked, lost, inFlight);
            r.lastSent == d.lastSent && r.roundTripEnd == d.roundTripEnd
  {
    hide NextPacingRate, NextCwnd, NextRecoveryWindow;
  }

  lemma EndAckRound<P>(b: Bbr<P>, inFlight: nat, rttStat: nat, rand: byte)
    requires CountsOk(b) && b.inAck
    ensures var r := EndAck(b, inFlight, rttStat, rand);
            && r.lastSent == b.lastSent
            && r.roundTripEnd ==
                 if RoundStart(b) || (b.ack.ackedBytes != 0 && b.ack.hasLosses && b.loss.recovery == NotInRecovery)
                 then b.lastSent else b.roundTripEnd
  {
    hide ModelUpdated, ModeUpdated, Paced, Windowed, RecoveryWindowed, Expired;
    var c := b.(inAck := false);
    ModelRound(c);
    var m := ModelUpdated(c);
    ModeRound(m, RoundStart(b), Expired(b), inFlight, rttStat, rand);
    TailRound(ModeUpdated(m, RoundStart(b), Expired(b), inFlight, rttStat, rand),
              BytesAcked(b), b.ack.lostBytes, inFlight, rttStat);
  }

  lemma StepRound<P>(bs: seq<Bbr<P>>, es: seq<BbrEvent<P>>, n: nat)
    requires IsRun(bs, es) && n < |es|
    ensures bs[n + 1].lastSent == if es[n].OnSent? then es[n].i.packno else bs[n].lastSent
    ensures bs[n + 1].roundTripEnd == if MarksRound(bs, es, n) then bs[n].lastSent else bs[n].roundTripEnd
  {
    hide Inv, EndAck, Start, CountsOk, SampleOf, MakesSample, Acked, Sent, Lost, RoundStart;
    var b, e := bs[n], es[n];
    RunKeepsInv(bs, es, n);
    InvMeansCounts(b);
    assert Next(b, e, bs[n + 1]);
    if e.OnEndAck? {
      EndAckRound(b, e.inFlight, e.rttStat, e.rand);
    }
  }

  lemma {:induction false} RoundIsOfItsEvents<P>(bs: seq<Bbr<P>>, es: seq<BbrEvent<P>>, n: nat)
    requires IsRun(bs, es) && n < |bs|
    ensures bs[n].lastSent == LastSentBy(es, n) && bs[n].roundTripEnd == RoundEnd(bs, es, n)
  {
    hide IsRun, MarksRound;
    RunHasStates(bs, es);
    if n > 0 {
      RoundIsOfItsEvents(bs, es, n - 1);
      StepRound(bs, es, n - 1);
    }
  }

  /**
   * In every run an ACK starts a round if and only if it acks bytes, and a packet with a larger number than
   * the last one sent when the current round began; or that one had no valid number.
   */
  lemma RoundStartsIff<P>(bs: seq<Bbr<P>>, es: seq<BbrEvent<P>>, a: nat, n: nat)
    requires IsRun(bs, es) && n < |es| && es[n].OnEndAck? && LastBegin(es, a, n)
    requires forall x :: x in Numbers(es, a, n) ==> x <= MAX_PACKNO
    ensures RoundAt(bs, es, n) <==>
      && SizesAcked(es, a, n) > 0
      && (RoundEnd(bs, es, n) > MAX_PACKNO || exists x :: x in Numbers(es, a, n) && x > RoundEnd(bs, es, n))
  {
    RunHasStates(bs, es);
    RoundIsOfItsEvents(bs, es, n);
    AckIsOfItsEvents(bs, es, a, n);
    hide IsRun, RoundEnd;
    NoBytesWithoutNumbers(es, a, n);
    hide SizesAcked, Numbers;
  }

  lemma {:induction false} NoBytesWithoutNumbers<P>(es: seq<BbrEvent<P>>, a: nat, n: nat)
    requires a <= n <= |es|
    ensures SizesAcked(es, a, n) > 0 ==> Numbers(es, a, n) != {}
  {
    if a < n {
      NoBytesWithoutNumbers(es, a, n - 1);
    }
  }

  // ---------------------------------------------------------------- the sampler

  /** The events of the sampler up to state `n`: sends, acks and losses, and an app-limited phase begun by a
      send that leaves the window open or by an ACK in PROBE_RTT. */
  ghost function SamplerTrace<P>(bs: seq<Bbr<P>>, es: seq<BbrEvent<P>>, n: nat): (tr: seq<Event<P>>)
    requires |bs| == |es| + 1 && n < |bs|
  {
    if n == 0 then []
    else SamplerTrace(bs, es, n - 1) + SamplerEvents(bs[n - 1], es[n - 1], bs[n])
  }

  ghost function SamplerEvents<P>(b: Bbr<P>, e: BbrEvent<P>, r: Bbr<P>): (tr: seq<Event<P>>) {
    match e
    case OnSent(p, i, inFlight, mini, appLimited) =>
      (if mini then [] else [EvSent(p, i, inFlight)])
      + (if appLimited && inFlight < GetCwnd(b) then [EvAppLimited] else [])
    case OnLost(p, _) => [EvLost(p)]
    case OnAck(p, i, _) => [EvAcked(p, i, b.ack.ackTime)]
    case OnEndAck(_, _, _) => if b.mode == ProbeRtt || r.mode == ProbeRtt then [EvAppLimited] else []
    case OnBeginAck(_, _) => []
    case OnReinit => []
  }

  lemma RunMore<P>(tr: seq<Event<P>>, e: Event<P>)
    ensures SamplerSpec.Run(tr + [e]) == SamplerSpec.Step(SamplerSpec.Run(tr), e)
  {
    assert (tr + [e])[..|tr|] == tr;
  }

  lemma EndAckSampler<P>(b: Bbr<P>, inFlight: nat, rttStat: nat, rand: byte)
    requires Inv(b) && b.inAck
    ensures var r := EndAck(b, inFlight, rttStat, rand);
            r.sampler == if b.mode == ProbeRtt || r.mode == ProbeRtt then AppLimited(b.sampler) else b.sampler
  {
    hide ModelUpdated, ModeUpdated, Paced, Windowed, RecoveryWindowed, Expired, RoundStart, SamplesOk, AppLimited;
    var c := b.(inAck := false);
    NotInAckSamplesOk(b);
    ModelKeeps(c);
    var m := ModelUpdated(c);
    ModeSampler(m, RoundStart(b), Expired(b), inFlight, rttStat, rand);
    TailKeeps(ModeUpdated(m, RoundStart(b), Expired(b), inFlight, rttStat, rand),
              BytesAcked(b), b.ack.lostBytes, inFlight, rttStat);
  }

  lemma ModeSampler<P>(b: Bbr<P>, start: bool, expired: bool, inFlight: nat, rttStat: nat, rand: byte)
    ensures var r := ModeUpdated(b, start, expired, inFlight, rttStat, rand);
            r.sampler == if b.mode == ProbeRtt || r.mode == ProbeRtt then AppLimited(b.sampler) else b.sampler
  {
    hide Cycled, FullBwChecked, LeftStartupOrDrain, EnteredProbeRtt, LeftProbeRtt, AppLimited, SamplesOk;
    var c := if b.mode == ProbeBw then Cycled(b, inFlight, rttStat) else b;
    CycledKeeps(b, inFlight, rttStat);
    var f := if start && !c.full.atFullBw then FullBwChecked(c) else c;
    FullBwSampler(c);
    LeftStartupSampler(f, inFlight, rttStat, rand);
    ProbeRttSampler(LeftStartupOrDrain(f, inFlight, rttStat, rand), expired, start, inFlight, rand);
  }

  lemma FullBwSampler<P>(b: Bbr<P>)
    ensures FullBwChecked(b).sampler == b.sampler && FullBwChecked(b).mode == b.mode
  {
  }

  lemma LeftStartupSampler<P>(b: Bbr<P>, inFlight: nat, rttStat: nat, rand: byte)
    ensures var r := LeftStartupOrDrain(b, inFlight, rttStat, rand);
            r.sampler == b.sampler && (r.mode == ProbeRtt <==> b.mode == ProbeRtt)
  {
    hide TargetCwnd;
  }

  lemma ProbeRttSampler<P>(b: Bbr<P>, expired: bool, start: bool, inFlight: nat, rand: byte)
    ensures var r := LeftProbeRtt(EnteredProbeRtt(b, expired), start, inFlight, rand);
            r.sampler == if b.mode == ProbeRtt || r.mode == ProbeRtt then AppLimited(b.sampler) else b.sampler
  {
    hide LeftProbeRtt, AppLimited;
    var e := EnteredProbeRtt(b, expired);
    LeftProbeRttSampler(e, start, inFlight, rand);
  }

  lemma LeftProbeRttSampler<P>(b: Bbr<P>, start: bool, inFlight: nat, rand: byte)
    ensures var r := LeftProbeRtt(b, start, inFlight, rand);
            && r.sampler == (if b.mode == ProbeRtt then AppLimited(b.sampler) else b.sampler)
            && (b.mode == ProbeRtt && b.exitProbeRttAt == 0 ==> r.mode == ProbeRtt)
            && (b.mode != ProbeRtt ==> r.mode == b.mode)
  {
    hide AppLimited;
  }

  /** One step of a run, seen from the sampler. */
  lemma StepSampler<P>(bs: seq<Bbr<P>>, es: seq<BbrEvent<P>>, n: nat)
    requires IsRun(bs, es) && n < |es|
    requires bs[n].sampler == SamplerSpec.Run(SamplerTrace(bs, es, n))
    ensures bs[n + 1].sampler == SamplerSpec.Run(SamplerTrace(bs, es, n + 1))
  {
    hide Inv, EndAck, Start, CountsOk, SampleOf, MakesSample, Acked, Sent, Lost, AppLimited, GetCwnd, SamplerSpec.Run;
    var b, e, tr := bs[n], es[n], SamplerTrace(bs, es, n);
    RunKeepsInv(bs, es, n);
    InvMeansCounts(b);
    assert Next(b, e, bs[n + 1]);
    match e
    case OnSent(p, i, inFlight, mini, appLimited) =>
      var sends: seq<Event<P>> := if mini then [] else [EvSent(p, i, inFlight)];
      RunMore(tr, EvSent(p, i, inFlight));
      RunMore(tr + sends, EvAppLimited);
      assert tr + (sends + [EvAppLimited]) == tr + sends + [EvAppLimited] && tr + (sends + []) == tr + sends;
      assert tr + [] == tr;
    case OnLost(p, _) => RunMore(tr, EvLost(p));
    case OnAck(p, i, _) => RunMore(tr, EvAcked(p, i, b.ack.ackTime));
    case OnEndAck(inFlight, rttStat, rand) =>
      EndAckSampler(b, inFlight, rttStat, rand);
      RunMore(tr, EvAppLimited);
      assert tr + [] == tr;
    case OnBeginAck(_, _) => assert tr + [] == tr;
    case OnReinit => assert tr + [] == tr;
  }

  /** In every state of every run the sampler has run over exactly those events, so that all that holds of the
      sampler's runs holds here. */
  lemma {:induction false} SamplerFollowsRun<P>(bs: seq<Bbr<P>>, es: seq<BbrEvent<P>>, n: nat)
    requires IsRun(bs, es) && n < |bs|
    ensures bs[n].sampler == SamplerSpec.Run(SamplerTrace(bs, es, n))
  {
    if n > 0 {
      hide IsRun, SamplerTrace;
      RunHasStates(bs, es);
      SamplerFollowsRun(bs, es, n - 1);
      StepSampler(bs, es, n - 1);
    }
  }

  /** So the sample that an ack makes in any run is the slower of the two rates, as counted over those events. */
  lemma AckSampleIsSlowerRate<P>(bs: seq<Bbr<P>>, es: seq<BbrEvent<P>>, n: nat, m: Mark)
    requires IsRun(bs, es) && n < |es| && es[n].OnAck?
    requires MarkOf(SamplerTrace(bs, es, n), es[n].p, m) && m.sent != 0 && m.time < bs[n].ack.ackTime
    ensures |SampleAt(bs[n], es[n])| == 1
    ensures var tr, p, i, now := SamplerTrace(bs, es, n), es[n].p, es[n].i, bs[n].ack.ackTime;
            var o, r := Opened(tr, p).value, SampleAt(bs[n], es[n])[0];
            var acked := LedgerOf(tr + [EvAcked(p, i, now)]).acked - LedgerOf(tr[..o]).acked;
            var sent := LedgerOf(tr[..o]).sent + tr[o].i.size - m.bytes;
            acked >= 0 && sent >= 0 && LargestRate(r.bandwidth, acked, now - m.time, sent, i.sent - m.sent)
  {
    hide *;
    RunHasStates(bs, es);
    SamplerFollowsRun(bs, es, n);
    SampleIsSlowerRate(SamplerTrace(bs, es, n), es[n].p, es[n].i, bs[n].ack.ackTime, m);
    OneSample(bs[n], es[n]);
  }

  lemma OneSample<P>(b: Bbr<P>, e: BbrEvent<P>)
    requires e.OnAck? && Ordered(b.sampler) && MakesSample(b.sampler, e.p, b.ack.ackTime)
    ensures SampleAt(b, e) == [SampleOf(b.sampler, e.p, e.i, b.ack.ackTime)]
  {
  }
}
