/**
 * The bandwidth sampler on values: running totals, and the state that every
 * retransmittable packet carries from its sending until it is acked or lost.
 */
module SamplerSpec {
  import opened Basics

  const UINT64_MAX: nat := 0xffff_ffff_ffff_ffff

  /** struct bwp_state. */
  datatype BwpState = BwpState(
    totalSent: nat, totalAcked: nat, totalLost: nat, isAppLimited: bool,
    sentAtLastAck: nat, lastAckSentTime: nat, lastAckAckTime: nat, size: nat)

  datatype Sample = Sample(bandwidth: nat, rtt: nat, isAppLimited: bool)

  /** What the sampler looks at in a packet. */
  datatype PacketInfo = PacketInfo(packno: nat, size: nat, sent: nat, retx: bool)

  /** The sampler, and the states of the packets that carry one, by packet. */
  datatype SState<!P> = SState(
    totalSent: nat, totalAcked: nat, totalLost: nat,
    lastAckedTotalSent: nat, lastAckedSentTime: nat, lastAckedPacketTime: nat,
    lastSentPackno: nat, endOfAppLimited: nat, appLimited: bool,
    states: map<P, BwpState>)

  function Init<P>(): (s: SState<P>) {
    SState(0, 0, 0, 0, 0, 0, 0, 0, true, map[])
  }

  function BwFromBytes(bytes: nat, usecs: nat): (bw: nat)
    requires usecs > 0
  {
    bytes * 8 * 1000000 / usecs
  }

  function AppLimited<P>(s: SState<P>): (r: SState<P>) {
    s.(appLimited := true, endOfAppLimited := s.lastSentPackno)
  }

  function Sent<P>(s: SState<P>, p: P, i: PacketInfo, inFlight: nat): (r: SState<P>) {
    if p in s.states then s
    else if !i.retx then s.(lastSentPackno := i.packno)
    else
      var t := s.totalSent + i.size;
      var r := s.(lastSentPackno := i.packno, totalSent := t);
      var r := if inFlight == 0
               then r.(lastAckedPacketTime := i.sent, lastAckedTotalSent := t, lastAckedSentTime := i.sent)
               else r;
      r.(states := s.states[p := BwpState(t, s.totalAcked, s.totalLost, s.appLimited, r.lastAckedTotalSent,
                                          r.lastAckedSentTime, r.lastAckedPacketTime, i.size)])
  }

  function Lost<P>(s: SState<P>, p: P): (r: SState<P>) {
    if p !in s.states then s
    else s.(totalLost := s.totalLost + s.states[p].size, states := s.states - {p})
  }

  /** The sampler after an ack; `i` is the packet as it is now. */
  function Acked<P>(s: SState<P>, p: P, i: PacketInfo, ackTime: nat): (r: SState<P>) {
    if p !in s.states then s
    else
      s.(totalAcked := s.totalAcked + i.size,
         lastAckedTotalSent := s.states[p].totalSent,
         lastAckedSentTime := i.sent,
         lastAckedPacketTime := ackTime,
         appLimited := s.appLimited && i.packno <= s.endOfAppLimited,
         states := s.states - {p})
  }

  /** The bytes sent and acked over which the two rates of an ack are taken. */
  function SendDelta(st: BwpState): int { st.totalSent - st.sentAtLastAck }
  function AckDelta(totalAcked: nat, st: BwpState): int { totalAcked - st.totalAcked }

  /** An ack makes a sample exactly when the packet has state, and the ack intervals exist. */
  predicate MakesSample<P>(s: SState<P>, p: P, ackTime: nat) {
    p in s.states && s.states[p].lastAckSentTime != 0 && ackTime > s.states[p].lastAckAckTime
  }

  // ---------------------------------------------------------------- conservation

  ghost function SumSizes<P>(m: map<P, BwpState>): (n: nat)
    decreases |m|
  {
    if m == map[] then 0
    else
      var k :| k in m;
      m[k].size + SumSizes(m - {k})
  }

  lemma {:induction false} SumSizesOf<P>(m: map<P, BwpState>, k: P)
    requires k in m
    ensures SumSizes(m) == m[k].size + SumSizes(m - {k})
    decreases |m|
  {
    var c :| c in m && SumSizes(m) == m[c].size + SumSizes(m - {c});
    if c != k {
      SumSizesOf(m - {c}, k);
      SumSizesOf(m - {k}, c);
      assert m - {c} - {k} == m - {k} - {c};
    }
  }

  /** What every step keeps: the byte differences taken at an ack are never negative. */
  ghost predicate Ordered<P>(s: SState<P>) {
    && s.lastAckedTotalSent <= s.totalSent
    && forall p :: p in s.states ==>
         && s.states[p].sentAtLastAck <= s.states[p].totalSent <= s.totalSent
         && s.states[p].totalAcked <= s.totalAcked && s.states[p].totalLost <= s.totalLost
  }

  /** The sample from a packet's state: the smaller of the two rates. */
  function SampleFrom(st: BwpState, totalAcked: nat, i: PacketInfo, ackTime: nat): (r: Sample)
    requires st.sentAtLastAck <= st.totalSent && st.totalAcked <= totalAcked && ackTime > st.lastAckAckTime
  {
    var sendRate := if i.sent > st.lastAckSentTime
                    then BwFromBytes(SendDelta(st), i.sent - st.lastAckSentTime) else UINT64_MAX;
    var ackRate := BwFromBytes(AckDelta(totalAcked, st), ackTime - st.lastAckAckTime);
    Sample(Min(sendRate, ackRate), (ackTime - i.sent) % (UINT64_MAX + 1), st.isAppLimited)
  }

  /** The sample an ack makes. */
  ghost function SampleOf<P>(s: SState<P>, p: P, i: PacketInfo, ackTime: nat): (r: Sample)
    requires Ordered(s) && MakesSample(s, p, ackTime)
  {
    SampleFrom(s.states[p], s.totalAcked + i.size, i, ackTime)
  }

  // ---------------------------------------------------------------- runs

  datatype Event<!P> =
    | EvSent(p: P, i: PacketInfo, inFlight: nat)
    | EvAcked(p: P, i: PacketInfo, ackTime: nat)
    | EvLost(p: P)
    | EvAppLimited

  function Step<P>(s: SState<P>, e: Event<P>): (r: SState<P>) {
    match e
    case EvSent(p, i, inFlight) => Sent(s, p, i, inFlight)
    case EvAcked(p, i, t) => Acked(s, p, i, t)
    case EvLost(p) => Lost(s, p)
    case EvAppLimited => AppLimited(s)
  }

  function Run<P>(tr: seq<Event<P>>): (s: SState<P>) {
    if tr == [] then Init() else Step(Run(tr[..|tr| - 1]), tr[|tr| - 1])
  }

  /** Where in the trace the packet now out was sent, if it still awaits its fate. */
  ghost function Opened<P>(tr: seq<Event<P>>, p: P): (o: Option<nat>)
    ensures o.Some? ==> o.value < |tr| && tr[o.value].EvSent? && tr[o.value].p == p && tr[o.value].i.retx
  {
    if tr == [] then None
    else
      var o := Opened(tr[..|tr| - 1], p);
      match tr[|tr| - 1]
      case EvSent(q, i, _) => if q == p && o.None? && i.retx then Some(|tr| - 1) else o
      case EvAcked(q, _, _) => if q == p then None else o
      case EvLost(q) => if q == p then None else o
      case EvAppLimited => o
  }

  /** The bytes of the sends, acks and losses that count, summed over the trace. */
  datatype Ledger = Ledger(sent: nat, acked: nat, lost: nat, drift: int)

  ghost function LedgerOf<P>(tr: seq<Event<P>>): (l: Ledger) {
    if tr == [] then Ledger(0, 0, 0, 0)
    else
      var pre := tr[..|tr| - 1];
      var l := LedgerOf(pre);
      match tr[|tr| - 1]
      case EvSent(p, i, _) =>
        if Opened(pre, p).None? && i.retx then l.(sent := l.sent + i.size) else l
      case EvAcked(p, i, _) =>
        var o := Opened(pre, p);
        if o.None? then l else l.(acked := l.acked + i.size, drift := l.drift + tr[o.value].i.size - i.size)
      case EvLost(p) =>
        var o := Opened(pre, p);
        if o.None? then l else l.(lost := l.lost + tr[o.value].i.size)
      case EvAppLimited => l
  }

  lemma {:induction false} RunIsOrdered<P>(tr: seq<Event<P>>)
    ensures Ordered(Run(tr))
  {
    if tr != [] {
      RunIsOrdered(tr[..|tr| - 1]);
      StepKeepsOrdered(Run(tr[..|tr| - 1]), tr[|tr| - 1]);
    }
  }

  lemma StepKeepsOrdered<P>(s: SState<P>, e: Event<P>)
    requires Ordered(s)
    ensures Ordered(Step(s, e))
    ensures Step(s, e).totalSent >= s.totalSent && Step(s, e).totalAcked >= s.totalAcked
    ensures Step(s, e).totalLost >= s.totalLost
  {
  }

  /** The totals and the flag are those before the sending at `o`, the last ack that right after it. */
  ghost predicate IsOfSending<P>(st: BwpState, tr: seq<Event<P>>, o: nat) {
    && o < |tr| && tr[o].EvSent?
    && st.size == tr[o].i.size
    && st.totalSent == Run(tr[..o]).totalSent + tr[o].i.size
    && st.totalAcked == Run(tr[..o]).totalAcked
    && st.totalLost == Run(tr[..o]).totalLost
    && st.isAppLimited == Run(tr[..o]).appLimited
    && st.sentAtLastAck == Run(tr[..o + 1]).lastAckedTotalSent
    && st.lastAckSentTime == Run(tr[..o + 1]).lastAckedSentTime
    && st.lastAckAckTime == Run(tr[..o + 1]).lastAckedPacketTime
  }

  lemma SendingInPrefix<P>(st: BwpState, tr: seq<Event<P>>, o: nat)
    requires tr != [] && IsOfSending(st, tr[..|tr| - 1], o)
    ensures IsOfSending(st, tr, o)
  {
    hide Run;
    var pre := tr[..|tr| - 1];
    assert tr[..o] == pre[..o] && tr[..o + 1] == pre[..o + 1];
  }

  /** A sending that counts gives the packet its state. */
  lemma OpensState<P>(tr: seq<Event<P>>)
    requires tr != [] && tr[|tr| - 1].EvSent? && tr[|tr| - 1].i.retx
    requires tr[|tr| - 1].p !in Run(tr[..|tr| - 1]).states
    ensures tr[|tr| - 1].p in Run(tr).states && IsOfSending(Run(tr).states[tr[|tr| - 1].p], tr, |tr| - 1)
  {
    assert tr[..|tr|] == tr;
  }

  /** A packet carries state exactly while it awaits its fate, and the state is that of its sending. */
  lemma {:induction false} StateIsOfItsSending<P>(tr: seq<Event<P>>, p: P)
    ensures p in Run(tr).states <==> Opened(tr, p).Some?
    ensures p in Run(tr).states ==> IsOfSending(Run(tr).states[p], tr, Opened(tr, p).value)
  {
    hide IsOfSending;
    if tr != [] {
      var pre, e := tr[..|tr| - 1], tr[|tr| - 1];
      StateIsOfItsSending(pre, p);
      if Opened(pre, p).Some? {
        SendingInPrefix(Run(pre).states[p], tr, Opened(pre, p).value);
      } else if e.EvSent? && e.p == p && e.i.retx {
        OpensState(tr);
      }
    }
  }

  /** The running totals are the ledger's. */
  lemma {:induction false} TotalsAreLedger<P>(tr: seq<Event<P>>)
    ensures Run(tr).totalSent == LedgerOf(tr).sent
    ensures Run(tr).totalAcked == LedgerOf(tr).acked
    ensures Run(tr).totalLost == LedgerOf(tr).lost
  {
    if tr != [] {
      var pre, e := tr[..|tr| - 1], tr[|tr| - 1];
      TotalsAreLedger(pre);
      if !e.EvAppLimited? {
        StateIsOfItsSending(pre, e.p);
      }
    }
  }

  /** Conservation over every run; `drift` is what acks at another size than the sent one leave over. */
  lemma {:induction false} BytesConserved<P>(tr: seq<Event<P>>)
    ensures var s := Run(tr);
            s.totalSent == s.totalAcked + s.totalLost + SumSizes(s.states) + LedgerOf(tr).drift
  {
    if tr != [] {
      var pre, e := tr[..|tr| - 1], tr[|tr| - 1];
      var s, r := Run(pre), Run(tr);
      BytesConserved(pre);
      if !e.EvAppLimited? {
        StateIsOfItsSending(pre, e.p);
        if e.p in s.states && !e.EvSent? {
          SumSizesOf(s.states, e.p);
        } else if e.p in r.states && e.p !in s.states {
          SumSizesOf(r.states, e.p);
          assert r.states - {e.p} == s.states;
        }
      }
    }
  }

  /** Every ack finds the packet as large as it was sent. */
  ghost predicate StableSizes<P>(tr: seq<Event<P>>) {
    forall j :: 0 <= j < |tr| && tr[j].EvAcked? && Opened(tr[..j], tr[j].p).Some? ==>
      tr[j].i.size == tr[Opened(tr[..j], tr[j].p).value].i.size
  }

  lemma {:induction false} StableSizesDoNotDrift<P>(tr: seq<Event<P>>)
    requires StableSizes(tr)
    ensures LedgerOf(tr).drift == 0
  {
    if tr != [] {
      var pre := tr[..|tr| - 1];
      forall j | 0 <= j < |pre| ensures pre[..j] == tr[..j] {
      }
      StableSizesDoNotDrift(pre);
    }
  }

  /** So with stable sizes nothing is created, lost or counted twice. */
  lemma StableRunConserves<P>(tr: seq<Event<P>>)
    requires StableSizes(tr)
    ensures var s := Run(tr); s.totalSent == s.totalAcked + s.totalLost + SumSizes(s.states)
  {
    StableSizesDoNotDrift(tr);
    BytesConserved(tr);
  }

  // ---------------------------------------------------------------- every packet once

  /** Sends of the packet that find it not out, and acks and losses that find it out, by the trace alone. */
  ghost function Sends<P>(tr: seq<Event<P>>, p: P): (n: nat) {
    if tr == [] then 0
    else
      var pre, e := tr[..|tr| - 1], tr[|tr| - 1];
      Sends(pre, p) + if e.EvSent? && e.p == p && e.i.retx && Opened(pre, p).None? then 1 else 0
  }

  ghost function Fates<P>(tr: seq<Event<P>>, p: P): (n: nat) {
    if tr == [] then 0
    else
      var pre, e := tr[..|tr| - 1], tr[|tr| - 1];
      Fates(pre, p) + if (e.EvAcked? || e.EvLost?) && e.p == p && Opened(pre, p).Some? then 1 else 0
  }

  /** Every counted send has one counted fate, ack or loss, or is the one still out. */
  lemma {:induction false} EachSendCountedOnce<P>(tr: seq<Event<P>>, p: P)
    ensures Sends(tr, p) == Fates(tr, p) + if p in Run(tr).states then 1 else 0
  {
    hide IsOfSending, Run;
    StateIsOfItsSending(tr, p);
    if tr != [] {
      EachSendCountedOnce(tr[..|tr| - 1], p);
      StateIsOfItsSending(tr[..|tr| - 1], p);
    }
  }

  // ---------------------------------------------------------------- since when rates are taken

  /** An ack of a packet that is out, or its sending into an empty pipe. */
  ghost predicate IsMark<P>(tr: seq<Event<P>>, j: nat) {
    j < |tr| && match tr[j]
                case EvAcked(p, _, _) => Opened(tr[..j], p).Some?
                case EvSent(p, i, inFlight) => i.retx && inFlight == 0 && Opened(tr[..j], p).None?
                case _ => false
  }

  /** When it was, when its packet was sent, and the bytes sent up to and with that packet. */
  datatype Mark = Mark(time: nat, sent: nat, bytes: nat)

  ghost function MarkAt<P>(tr: seq<Event<P>>, j: nat): (m: Mark)
    requires IsMark(tr, j)
  {
    match tr[j]
    case EvAcked(p, i, ackTime) =>
      var o := Opened(tr[..j], p).value;
      Mark(ackTime, i.sent, LedgerOf(tr[..o]).sent + tr[o].i.size)
    case EvSent(p, i, _) => Mark(i.sent, i.sent, LedgerOf(tr[..j]).sent + i.size)
  }

  ghost predicate IsLatestMark<P>(tr: seq<Event<P>>, j: nat) {
    IsMark(tr, j) && forall k :: j < k < |tr| ==> !IsMark(tr, k)
  }

  lemma MarkInPrefix<P>(tr: seq<Event<P>>, j: nat)
    requires 0 < |tr| && j < |tr| - 1
    ensures var pre := tr[..|tr| - 1];
            (IsMark(pre, j) <==> IsMark(tr, j)) && (IsMark(tr, j) ==> MarkAt(pre, j) == MarkAt(tr, j))
  {
    var pre := tr[..|tr| - 1];
    assert pre[..j] == tr[..j];
    if IsMark(tr, j) && tr[j].EvAcked? {
      var o := Opened(tr[..j], tr[j].p).value;
      assert pre[..o] == tr[..o];
    }
  }

  /** The sampler's last ack is the latest mark of the trace, and all zero before the first. */
  lemma {:induction false} LastAckIsLatestMark<P>(tr: seq<Event<P>>)
    ensures forall j: nat :: IsLatestMark(tr, j) ==> LastAck(Run(tr)) == MarkAt(tr, j)
    ensures (forall j :: 0 <= j < |tr| ==> !IsMark(tr, j)) ==> LastAck(Run(tr)) == Mark(0, 0, 0)
  {
    if tr != [] {
      var last := |tr| - 1;
      var pre := tr[..last];
      LastAckIsLatestMark(pre);
      LastStepMarks(tr);
      hide Run, Opened, LedgerOf, IsMark, MarkAt;
      forall j | 0 <= j < last ensures IsMark(pre, j) <==> IsMark(tr, j) {
        MarkInPrefix(tr, j);
      }
      forall j: nat | IsLatestMark(tr, j) ensures LastAck(Run(tr)) == MarkAt(tr, j) {
        assert IsMark(tr, last) ==> j == last;
        if j < last {
          MarkInPrefix(tr, j);
          assert IsLatestMark(pre, j);
        }
      }
    }
  }

  function LastAck<P>(s: SState<P>): (m: Mark) {
    Mark(s.lastAckedPacketTime, s.lastAckedSentTime, s.lastAckedTotalSent)
  }

  lemma LastStepMarks<P>(tr: seq<Event<P>>)
    requires tr != []
    ensures var j := |tr| - 1;
            LastAck(Run(tr)) == if IsMark(tr, j) then MarkAt(tr, j) else LastAck(Run(tr[..j]))
  {
    var pre, e := tr[..|tr| - 1], tr[|tr| - 1];
    if !e.EvAppLimited? {
      StateIsOfItsSending(pre, e.p);
      TotalsAreLedger(pre);
      if Opened(pre, e.p).Some? {
        var o := Opened(pre, e.p).value;
        assert pre[..o] == tr[..o];
        TotalsAreLedger(tr[..o]);
      }
    }
    hide Opened, LedgerOf;
  }

  // ---------------------------------------------------------------- samples

  lemma BwIsFloor(bytes: nat, usecs: nat)
    requires usecs > 0
    ensures BwFromBytes(bytes, usecs) * usecs <= bytes * 8 * 1000000 < (BwFromBytes(bytes, usecs) + 1) * usecs
  {
    var n := bytes * 8 * 1000000;
    assert n == (n / usecs) * usecs + n % usecs;
  }

  lemma RateBound(b: nat, bytes: nat, usecs: nat)
    requires usecs > 0 && b <= BwFromBytes(bytes, usecs)
    ensures b * usecs <= bytes * 8 * 1000000
  {
    BwIsFloor(bytes, usecs);
    assert b * usecs <= BwFromBytes(bytes, usecs) * usecs;
  }

  /** `b` is the largest rate at which both byte counts fit their intervals; no send interval
      leaves the largest number there is. */
  ghost predicate LargestRate(b: nat, acked: nat, ackUsecs: nat, sent: nat, sendUsecs: int) {
    && b * ackUsecs <= acked * 8 * 1000000
    && (sendUsecs > 0 ==> b * sendUsecs <= sent * 8 * 1000000)
    && (sendUsecs <= 0 ==> b <= UINT64_MAX)
    && (|| (b + 1) * ackUsecs > acked * 8 * 1000000
        || (sendUsecs > 0 && (b + 1) * sendUsecs > sent * 8 * 1000000)
        || (sendUsecs <= 0 && b == UINT64_MAX))
  }

  lemma RateIsLargest(acked: nat, ackUsecs: nat, sent: nat, sendUsecs: int)
    requires ackUsecs > 0
    ensures var sendRate := if sendUsecs > 0 then BwFromBytes(sent, sendUsecs) else UINT64_MAX;
            LargestRate(Min(sendRate, BwFromBytes(acked, ackUsecs)), acked, ackUsecs, sent, sendUsecs)
  {
    hide BwFromBytes;
    var sendRate := if sendUsecs > 0 then BwFromBytes(sent, sendUsecs) else UINT64_MAX;
    var b := Min(sendRate, BwFromBytes(acked, ackUsecs));
    RateBound(b, acked, ackUsecs);
    BwIsFloor(acked, ackUsecs);
    if sendUsecs > 0 {
      RateBound(b, sent, sendUsecs);
      BwIsFloor(sent, sendUsecs);
    }
  }

  lemma SampleIsLargestRate<P>(s: SState<P>, p: P, i: PacketInfo, ackTime: nat)
    requires Ordered(s) && MakesSample(s, p, ackTime)
    ensures var st, r := s.states[p], SampleOf(s, p, i, ackTime);
            && r.isAppLimited == st.isAppLimited
            && (0 <= ackTime - i.sent <= UINT64_MAX ==> r.rtt == ackTime - i.sent)
            && LargestRate(r.bandwidth, s.totalAcked + i.size - st.totalAcked, ackTime - st.lastAckAckTime,
                           st.totalSent - st.sentAtLastAck, i.sent - st.lastAckSentTime)
  {
    hide BwFromBytes, LargestRate;
    var st := s.states[p];
    RateIsLargest(AckDelta(s.totalAcked + i.size, st), ackTime - st.lastAckAckTime,
                  SendDelta(st), i.sent - st.lastAckSentTime);
  }

  ghost predicate HasLatestMark<P>(tr: seq<Event<P>>, m: Mark) {
    exists j: nat :: IsLatestMark(tr, j) && m == MarkAt(tr, j)
  }

  /** `m` is the latest mark when the packet that is out was sent, its own sending included. */
  ghost predicate MarkOf<P>(tr: seq<Event<P>>, p: P, m: Mark) {
    && Opened(tr, p).Some?
    && HasLatestMark(tr[..Opened(tr, p).value + 1], m)
  }

  /** An ack makes a sample exactly when the packet is out, a packet was sent at a time other than 0
      for the latest mark of its sending, and the ack is later than that mark. */
  lemma MakesSampleIff<P>(tr: seq<Event<P>>, p: P, ackTime: nat)
    ensures MakesSample(Run(tr), p, ackTime) <==> exists m :: MarkOf(tr, p, m) && m.sent != 0 && m.time < ackTime
    ensures forall m :: MarkOf(tr, p, m) ==>
      && p in Run(tr).states && m.time == Run(tr).states[p].lastAckAckTime
      && m.sent == Run(tr).states[p].lastAckSentTime && m.bytes == Run(tr).states[p].sentAtLastAck
  {
    StateIsOfItsSending(tr, p);
    if Opened(tr, p).Some? {
      var t := tr[..Opened(tr, p).value + 1];
      LastAckIsLatestMark(t);
      hide IsMark, MarkAt, Opened, Run;
      if MakesSample(Run(tr), p, ackTime) {
        var j := SomeLatestMark(t, |t|);
        assert MarkOf(tr, p, MarkAt(t, j));
      }
    }
  }

  lemma {:induction false} SomeLatestMark<P>(tr: seq<Event<P>>, n: nat) returns (j: nat)
    requires n <= |tr| && (forall k :: n <= k < |tr| ==> !IsMark(tr, k))
    requires exists k :: 0 <= k < |tr| && IsMark(tr, k)
    ensures IsLatestMark(tr, j)
    decreases n
  {
    hide IsMark;
    if IsMark(tr, n - 1) {
      j := n - 1;
    } else {
      j := SomeLatestMark(tr, n - 1);
    }
  }

  /**
   * The bandwidth of a sample is the largest rate that the bytes acked since its packet
   * was sent allow over the time since the latest mark of that sending, and the bytes sent
   * from the mark's packet to its own over the time between their sendings.  Its RTT is the
   * time from sending to ack.
   */
  lemma SampleIsSlowerRate<P>(tr: seq<Event<P>>, p: P, i: PacketInfo, ackTime: nat, m: Mark)
    requires MarkOf(tr, p, m) && m.sent != 0 && m.time < ackTime
    ensures Ordered(Run(tr)) && MakesSample(Run(tr), p, ackTime)
    ensures var o := Opened(tr, p).value;
            var r := SampleOf(Run(tr), p, i, ackTime);
            var acked := LedgerOf(tr + [EvAcked(p, i, ackTime)]).acked - LedgerOf(tr[..o]).acked;
            var sent := LedgerOf(tr[..o]).sent + tr[o].i.size - m.bytes;
            && acked >= 0 && sent >= 0
            && LargestRate(r.bandwidth, acked, ackTime - m.time, sent, i.sent - m.sent)
            && (0 <= ackTime - i.sent <= UINT64_MAX ==> r.rtt == ackTime - i.sent)
            && r.isAppLimited == Run(tr[..o]).appLimited
  {
    hide *;
    RunIsOrdered(tr);
    StateIsOfItsSending(tr, p);
    MakesSampleIff(tr, p, ackTime);
    assert MakesSample(Run(tr), p, ackTime);
    SampleIsLargestRate(Run(tr), p, i, ackTime);
    OrderedHere(Run(tr), p);
    SendingTotals(Run(tr).states[p], tr, Opened(tr, p).value);
    AckAdds(tr, p, i, ackTime);
    TotalsAreLedger(tr + [EvAcked(p, i, ackTime)]);
    TotalsAreLedger(tr[..Opened(tr, p).value]);
  }

  lemma OrderedHere<P>(s: SState<P>, p: P)
    requires Ordered(s) && p in s.states
    ensures s.states[p].sentAtLastAck <= s.states[p].totalSent && s.states[p].totalAcked <= s.totalAcked
  {
  }

  lemma SendingTotals<P>(st: BwpState, tr: seq<Event<P>>, o: nat)
    requires IsOfSending(st, tr, o)
    ensures st.totalSent == Run(tr[..o]).totalSent + tr[o].i.size
    ensures st.totalAcked == Run(tr[..o]).totalAcked && st.isAppLimited == Run(tr[..o]).appLimited
  {
  }

  lemma AckAdds<P>(tr: seq<Event<P>>, p: P, i: PacketInfo, ackTime: nat)
    requires p in Run(tr).states
    ensures Run(tr + [EvAcked(p, i, ackTime)]).totalAcked == Run(tr).totalAcked + i.size
  {
    var after := tr + [EvAcked(p, i, ackTime)];
    assert after[..|after| - 1] == tr;
  }

  // ---------------------------------------------------------------- app-limited phases

  lemma {:induction false} PhaseLasts<P>(tr: seq<Event<P>>, from: nat)
    requires from <= |tr| && Run(tr[..from]).appLimited
    requires forall j :: from <= j < |tr| ==> !tr[j].EvAppLimited?
    ensures Run(tr).endOfAppLimited == Run(tr[..from]).endOfAppLimited
    ensures Run(tr).appLimited <==>
      forall j :: from <= j < |tr| && tr[j].EvAcked? && tr[j].p in Run(tr[..j]).states ==>
        tr[j].i.packno <= Run(tr[..from]).endOfAppLimited
  {
    if from == |tr| {
      assert tr[..from] == tr;
    } else {
      var pre := tr[..|tr| - 1];
      forall j | 0 <= j < |tr| ensures tr[..j] == if j < |pre| then pre[..j] else pre {
      }
      assert pre[..from] == tr[..from];
      PhaseLasts(pre, from);
    }
  }

  /** The latest app-limited phase began at `from`: with the sampler, or when the sender said so. */
  ghost predicate PhaseBegan<P>(tr: seq<Event<P>>, from: nat) {
    && from <= |tr| && (from == 0 || tr[from - 1].EvAppLimited?)
    && forall j :: from <= j < |tr| ==> !tr[j].EvAppLimited?
  }

  /**
   * In every run the sampler is app-limited if and only if, since the latest phase began, no
   * ack of a packet that was out had a number above that of the last packet sent before it.
   */
  lemma AppLimitedUntil<P>(tr: seq<Event<P>>, from: nat)
    requires PhaseBegan(tr, from)
    ensures Run(tr).appLimited <==>
      forall j :: from <= j < |tr| && tr[j].EvAcked? && Opened(tr[..j], tr[j].p).Some? ==>
        tr[j].i.packno <= LastNumber(tr[..from])
  {
    PhaseStart(tr[..from]);
    PhaseLasts(tr, from);
    hide Run, Opened, LastNumber;
    forall j | from <= j < |tr| && tr[j].EvAcked?
      ensures tr[j].p in Run(tr[..j]).states <==> Opened(tr[..j], tr[j].p).Some?
    {
      StateIsOfItsSending(tr[..j], tr[j].p);
    }
  }

  lemma PhaseStart<P>(tr: seq<Event<P>>)
    requires tr == [] || tr[|tr| - 1].EvAppLimited?
    ensures Run(tr).appLimited && Run(tr).endOfAppLimited == LastNumber(tr)
  {
    NumberIsLast(tr);
  }

  /** The number of the last packet sent that was not out; zero if none was. */
  ghost function LastNumber<P>(tr: seq<Event<P>>): (n: nat)
    ensures (forall j :: 0 <= j < |tr| ==> !Numbers(tr, j)) ==> n == 0
    ensures forall j :: Numbers(tr, j) && (forall k :: j < k < |tr| ==> !Numbers(tr, k)) ==> n == tr[j].i.packno
  {
    if tr == [] then 0
    else
      var last := |tr| - 1;
      assert forall j :: 0 <= j < last ==> tr[..last][..j] == tr[..j];
      assert forall j :: 0 <= j < last ==> (Numbers(tr[..last], j) <==> Numbers(tr, j));
      if Numbers(tr, last) then tr[last].i.packno else LastNumber(tr[..last])
  }

  ghost predicate Numbers<P>(tr: seq<Event<P>>, j: int) {
    0 <= j < |tr| && tr[j].EvSent? && Opened(tr[..j], tr[j].p).None?
  }

  lemma {:induction false} NumberIsLast<P>(tr: seq<Event<P>>)
    ensures Run(tr).lastSentPackno == LastNumber(tr)
  {
    if tr != [] {
      var pre, e := tr[..|tr| - 1], tr[|tr| - 1];
      NumberIsLast(pre);
      if !e.EvAppLimited? {
        StateIsOfItsSending(pre, e.p);
      }
      hide IsOfSending;
    }
  }
}
