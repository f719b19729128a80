/** The bandwidth sampler as an object that updates packets in place. */
module BwSampler {
  import opened Basics
  import opened SamplerSpec

  class Packet {
    var info: PacketInfo
    var state: Option<BwpState>    // po_bwp_state
    constructor (i: PacketInfo)
      ensures info == i && state == None
    {
      info, state := i, None;
    }
  }

  class Sampler {
    var totalSent: nat
    var totalAcked: nat
    var totalLost: nat
    var lastAckedTotalSent: nat
    var lastAckedSentTime: nat
    var lastAckedPacketTime: nat
    var lastSentPackno: nat
    var endOfAppLimited: nat
    var appLimited: bool
    ghost var states: map<Packet, BwpState>

    ghost function Snap(): SState<Packet>
      reads this
    {
      SState(totalSent, totalAcked, totalLost, lastAckedTotalSent, lastAckedSentTime, lastAckedPacketTime,
             lastSentPackno, endOfAppLimited, appLimited, states)
    }

    /** The packets hold the states they were given. */
    ghost predicate Valid()
      reads this, states.Keys
    {
      Ordered(Snap()) && forall p :: p in states ==> p.state == Some(states[p])
    }

    /** The packet's state, if any, is from this sampler. */
    ghost predicate Known(p: Packet)
      reads this, p
    {
      p.state == if p in states then Some(states[p]) else None
    }

    constructor ()
      ensures Valid() && Snap() == Init()
    {
      totalSent, totalAcked, totalLost := 0, 0, 0;
      lastAckedTotalSent, lastAckedSentTime, lastAckedPacketTime := 0, 0, 0;
      lastSentPackno, endOfAppLimited, appLimited := 0, 0, true;
      states := map[];
    }

    /** lsquic_bw_sampler_app_limited. */
    method AppLimitedNow()
      requires Valid()
      modifies this
      ensures Valid() && Snap() == AppLimited(old(Snap()))
    {
      appLimited := true;
      endOfAppLimited := lastSentPackno;
    }

    /** lsquic_bw_sampler_packet_sent. */
    method PacketSent(p: Packet, inFlight: nat)
      requires Valid() && Known(p)
      modifies this, p`state
      ensures Valid() && Known(p) && Snap() == Sent(old(Snap()), p, p.info, inFlight)
    {
      hide Ordered;
      StepKeepsOrdered(Snap(), EvSent(p, p.info, inFlight));
      if p.state.Some? {
        return;
      }
      lastSentPackno := p.info.packno;
      if !p.info.retx {
        return;
      }
      var sentSz := p.info.size;
      totalSent := totalSent + sentSz;
      if inFlight == 0 {
        lastAckedPacketTime := p.info.sent;
        lastAckedTotalSent := totalSent;
        lastAckedSentTime := p.info.sent;
      }
      var st := BwpState(totalSent, totalAcked, totalLost, appLimited,
                         lastAckedTotalSent, lastAckedSentTime, lastAckedPacketTime, sentSz);
      p.state := Some(st);
      states := states[p := st];
    }

    /** lsquic_bw_sampler_packet_lost. */
    method PacketLost(p: Packet)
      requires Valid() && Known(p)
      modifies this, p`state
      ensures Valid() && Known(p) && Snap() == Lost(old(Snap()), p)
    {
      if p.state.None? {
        return;
      }
      totalLost := totalLost + p.state.value.size;
      p.state := None;
      states := states - {p};
    }

    /** lsquic_bw_sampler_packet_acked. */
    method PacketAcked(p: Packet, ackTime: nat) returns (sample: Option<Sample>)
      requires Valid() && Known(p)
      modifies this, p`state
      ensures Valid() && Known(p) && Snap() == Acked(old(Snap()), p, p.info, ackTime)
      ensures sample == if MakesSample(old(Snap()), p, ackTime)
                        then Some(SampleOf(old(Snap()), p, p.info, ackTime)) else None
      ensures sample.Some? ==>
        var st := old(p.state).value;
        && LargestRate(sample.value.bandwidth, totalAcked - st.totalAcked, ackTime - st.lastAckAckTime,
                       st.totalSent - st.sentAtLastAck, p.info.sent - st.lastAckSentTime)
        && (0 <= ackTime - p.info.sent <= UINT64_MAX ==> sample.value.rtt == ackTime - p.info.sent)
    {
      hide Ordered, LargestRate;
      StepKeepsOrdered(Snap(), EvAcked(p, p.info, ackTime));
      if p.state.None? {
        return None;
      }
      OrderedHere(Snap(), p);
      var st := p.state.value;
      sample := SampleFor(st, totalAcked + p.info.size, p.info, ackTime);
      hide SampleFrom;
      totalAcked := totalAcked + p.info.size;
      lastAckedTotalSent := st.totalSent;
      lastAckedSentTime := p.info.sent;
      lastAckedPacketTime := ackTime;
      if appLimited && p.info.packno > endOfAppLimited {
        appLimited := false;
      }
      p.state := None;
      states := states - {p};
    }
  }

  /** The sample of an ack, from the packet's state and the total acked with it. */
  method SampleFor(st: BwpState, totalAcked: nat, i: PacketInfo, ackTime: nat) returns (sample: Option<Sample>)
    requires st.sentAtLastAck <= st.totalSent && st.totalAcked <= totalAcked
    ensures sample == if st.lastAckSentTime != 0 && ackTime > st.lastAckAckTime
                      then Some(SampleFrom(st, totalAcked, i, ackTime)) else None
    ensures sample.Some? ==>
      && LargestRate(sample.value.bandwidth, totalAcked - st.totalAcked, ackTime - st.lastAckAckTime,
                     st.totalSent - st.sentAtLastAck, i.sent - st.lastAckSentTime)
      && (0 <= ackTime - i.sent <= UINT64_MAX ==> sample.value.rtt == ackTime - i.sent)
  {
    hide BwFromBytes, LargestRate;
    if st.lastAckSentTime != 0 && ackTime > st.lastAckAckTime {
      RateIsLargest(totalAcked - st.totalAcked, ackTime - st.lastAckAckTime,
                    st.totalSent - st.sentAtLastAck, i.sent - st.lastAckSentTime);
    }
    if st.lastAckSentTime == 0 {
      return None;
    }
    var sendRate := UINT64_MAX;
    if i.sent > st.lastAckSentTime {
      sendRate := BwFromBytes(st.totalSent - st.sentAtLastAck, i.sent - st.lastAckSentTime);
    }
    if ackTime <= st.lastAckAckTime {
      return None;
    }
    var ackRate := BwFromBytes(totalAcked - st.totalAcked, ackTime - st.lastAckAckTime);
    return Some(Sample(if sendRate < ackRate then sendRate else ackRate,
                       (ackTime - i.sent) % (UINT64_MAX + 1), st.isAppLimited));
  }
}
