/** A sender that keeps to one final size: what a stream does with its frames, in any run.

    Such a sender never breaks the stream, and the stream has every byte that arrived and every
    FIN that was accepted.  Its frames are refused in one case only, which is stated exactly.
*/
module StreamAccept {
  import opened Basics
  import opened StreamData
  import N = NocopySpec
  import H = HashSpec
  import opened Switching
  import opened StreamRun

  /** Every frame that arrives keeps to the final size `n`. */
  ghost predicate Conforms(es: seq<Event>, n: nat) {
    forall i :: 0 <= i < |es| && es[i].Arrive? ==> H.KeepsTo(es[i].f, n)
  }

  /** Nothing in the stream lies past `n`, and FIN, if known, is there. */
  ghost predicate Sized(s: Stream, n: nat) {
    s.r <= n && match s.handler
                case List(l) => FramesWithin(l.frames, n) && (l.finSet ==> l.finOff == n)
                case Hash(h) => H.Within(h, n)
                case Broken => false
  }

  ghost predicate FramesWithin(fs: seq<N.Queued>, n: nat) {
    forall i :: 0 <= i < |fs| ==> fs[i].f.End() <= n
  }

  ghost predicate FramesKeepTo(fs: seq<N.Queued>, n: nat) {
    forall i :: 0 <= i < |fs| ==> H.KeepsTo(fs[i].f, n)
  }

  // ---------------------------------------------------------------- the switch

  /** A queued frame has no bytes and is at `n`. */
  ghost predicate EmptyAt(fs: seq<N.Queued>, n: nat) {
    exists i :: 0 <= i < |fs| && fs[i].f.off == n
  }

  /** The table has a block at `n` after the frame, exactly when it had one or the frame is there. */
  lemma KeyAtEnd(h: H.HState, f: Frame, r: nat, n: nat)
    requires H.Inv(h) && H.Within(h, n) && r < n && H.KeepsTo(f, n)
    ensures n in H.Insert(h, f, r).0.keys <==> n in h.keys || (f.off == n && H.Aligned(n))
  {
    if r <= f.End() {
      var t := H.Trim(f, r);
      if n in H.Touched(t) {
        assert t.End() == n;
        H.BoundaryKey(t);
      }
      if f.off == n && H.Aligned(n) {
        H.BoundaryKey(t);
        H.KeyUnique(n, n);
        assert n in H.Touched(t);
      }
      hide H.Touched, H.LastKey, H.Key;
    }
  }

  lemma {:induction false} InsertAllWithin(h: H.HState, fs: seq<N.Queued>, r: nat, n: nat)
    requires H.Inv(h) && H.Within(h, n) && r <= n && FramesKeepTo(fs, n) && InsertAll(h, fs, r).Some?
    ensures H.Inv(InsertAll(h, fs, r).value) && H.Within(InsertAll(h, fs, r).value, n)
    ensures r < n ==> (n in InsertAll(h, fs, r).value.keys <==> n in h.keys || (EmptyAt(fs, n) && H.Aligned(n)))
    decreases |fs|
  {
    if fs != [] {
      var f := fs[0].f;
      H.InsertKeepsInv(h, f, r);
      H.RefusedIff(h, f, r, n);
      if r < n {
        KeyAtEnd(h, f, r, n);
      }
      EmptyAtSplits(fs, n);
      hide H.Insert, H.Within, H.Inv, H.Aligned, EmptyAt;
      InsertAllWithin(H.Insert(h, f, r).0, fs[1..], r, n);
    }
  }

  lemma EmptyAtSplits(fs: seq<N.Queued>, n: nat)
    requires fs != []
    ensures EmptyAt(fs, n) <==> fs[0].f.off == n || EmptyAt(fs[1..], n)
    ensures FramesKeepTo(fs, n) ==> FramesKeepTo(fs[1..], n)
  {
    if EmptyAt(fs[1..], n) {
      var i :| 0 <= i < |fs[1..]| && fs[1..][i].f.off == n;
      assert fs[i + 1].f.off == n;
    }
    if i :| 0 <= i < |fs| && fs[i].f.off == n {
      assert i > 0 ==> fs[1..][i - 1].f.off == n;
    }
  }

  /** The list of such a sender always switches. */
  lemma SwitchWithin(l: N.LState, r: nat, n: nat)
    requires N.Inv(l, r) && r <= n && FramesWithin(l.frames, n) && (l.finSet ==> l.finOff == n)
    ensures var h := InsertAll(H.EMPTY, l.frames, r);
            && h.Some? && H.Inv(h.value) && H.Within(h.value, n)
            && (r < n ==> (n in h.value.keys <==> EmptyAt(l.frames, n) && H.Aligned(n)))
  {
    SwitchKeepsUnread(l, r);
    if HasFin(l.frames) {
      assert l.finSet && NonePast(l.frames, l.finOff);
    }
    assert FramesKeepTo(l.frames, n);
    hide N.Inv;
    InsertAllWithin(H.EMPTY, l.frames, r, n);
  }

  // ---------------------------------------------------------------- every step

  lemma ListInsertWithin(l: N.LState, f: Frame, r: nat, n: nat)
    requires N.Inv(l, r) && r <= n && FramesWithin(l.frames, n) && (l.finSet ==> l.finOff == n)
    requires H.KeepsTo(f, n)
    ensures var (l', res) := N.Insert(l, f, r);
            && res != Err && FramesWithin(l'.frames, n) && (l'.finSet ==> l'.finOff == n)
  {
    hide N.Insert, N.Inv;
    N.InsertVerdict(l, f, r);
    N.InsertStoresExactly(l, f, r);
    if N.Insert(l, f, r).1 == Ok {
      N.OkFits(l, f, r);
      AddWithin(l, N.Pos(l.frames, f.off), f, n);
    }
  }

  lemma AddWithin(l: N.LState, p: nat, f: Frame, n: nat)
    requires p <= |l.frames| && FramesWithin(l.frames, n) && (l.finSet ==> l.finOff == n) && H.KeepsTo(f, n)
    ensures var l' := N.Add(l, p, f); FramesWithin(l'.frames, n) && (l'.finSet ==> l'.finOff == n)
  {
  }

  lemma ArriveSized(s: Stream, f: Frame, n: nat)
    requires HandlerOk(s) && Sized(s, n) && H.KeepsTo(f, n)
    ensures Sized(ArriveAt(s, f), n)
  {
    hide N.Inv, H.Inv, N.Insert, H.Insert, H.Within, H.KeepsTo, FramesWithin, EmptyAt, H.Aligned;
    match s.handler
    case List(l) =>
      ListInsertWithin(l, f, s.r, n);
      SwitchWithin(l, s.r, n);
      H.RefusedIff(InsertAll(H.EMPTY, l.frames, s.r).value, f, s.r, n);
    case Hash(h) => H.RefusedIff(h, f, s.r, n);
  }

  lemma StepSized(s: Stream, e: Event, n: nat)
    requires HandlerOk(s) && Sized(s, n) && Enabled(s, e)
    requires e.Arrive? ==> H.KeepsTo(e.f, n)
    ensures Sized(Step(s, e), n)
  {
    match e {
      case Arrive(f) => ArriveSized(s, f, n);
      case Get =>
      case Take(k) =>
        if s.handler.Hash? && k > 0 {
          assert s.r + k - 1 in s.handler.h.bytes;
        }
      case Release =>
      case Switch =>
        if s.handler.List? {
          SwitchWithin(s.handler.l, s.r, n);
        }
    }
  }

  /** No run of such a sender breaks the stream or takes it past its final size. */
  lemma {:induction false} RunSized(s: Stream, es: seq<Event>, n: nat)
    requires HandlerOk(s) && Sized(s, n) && Legal(s, es) && Conforms(es, n)
    ensures HandlerOk(Run(s, es)) && Sized(Run(s, es), n)
    decreases |es|
  {
    if es != [] {
      StepSized(s, es[0], n);
      StepKeepsHandler(s, es[0]);
      hide HandlerOk, Sized, Step;
      RunSized(Step(s, es[0]), es[1..], n);
    }
  }

  // ---------------------------------------------------------------- refusals

  /** There is a block of the table at the final size, or a frame queued that will make one. */
  ghost predicate BlockAtEnd(s: Stream, n: nat) {
    match s.handler
    case List(l) => EmptyAt(l.frames, n) && H.Aligned(n)
    case Hash(h) => n in h.keys
    case Broken => false
  }

  /** When a frame that keeps to the final size is refused: it has FIN and bytes, the stream is
      not read to its end, and a block is at the end already, or will be because the frame is not
      known to the list and conflicts with it. */
  lemma ArrivalRefusedIff(s: Stream, f: Frame, n: nat)
    requires HandlerOk(s) && Sized(s, n) && H.KeepsTo(f, n)
    ensures Outcome(s, f) == Err <==>
      && f.fin && f.data != [] && s.r < n && BlockAtEnd(s, n)
      && (s.handler.List? ==> !N.Known(s.handler.l, f, s.r) && N.Conflicts(s.handler.l, f, s.r))
  {
    hide N.Inv, H.Inv, N.Insert, H.Insert, H.Within, H.KeepsTo, FramesWithin, EmptyAt, H.Aligned;
    match s.handler
    case List(l) =>
      ListInsertWithin(l, f, s.r, n);
      N.InsertVerdict(l, f, s.r);
      SwitchWithin(l, s.r, n);
      H.RefusedIff(InsertAll(H.EMPTY, l.frames, s.r).value, f, s.r, n);
    case Hash(h) => H.RefusedIff(h, f, s.r, n);
  }

  /** No empty frame arrives at a final size that is a block boundary. */
  ghost predicate NoEmptyAtEnd(es: seq<Event>, n: nat) {
    H.Aligned(n) ==> forall i :: 0 <= i < |es| && es[i].Arrive? ==> es[i].f.off != n
  }

  lemma StepNoBlock(s: Stream, e: Event, n: nat)
    requires HandlerOk(s) && Sized(s, n) && Enabled(s, e)
    requires e.Arrive? ==> H.KeepsTo(e.f, n) && (H.Aligned(n) ==> e.f.off != n)
    requires s.r < n ==> !BlockAtEnd(s, n)
    ensures Step(s, e).r < n ==> !BlockAtEnd(Step(s, e), n)
  {
    if s.r < n {
      match e {
        case Arrive(f) => ArriveNoBlock(s, f, n);
        case Take(k) =>
          if s.handler.List? && s.got.FromList? {
            SameOffsets(s.handler.l, k, n);
          }
        case Switch =>
          if s.handler.List? {
            SwitchWithin(s.handler.l, s.r, n);
          }
        case _ =>
      }
    }
  }

  lemma SameOffsets(l: N.LState, k: nat, n: nat)
    requires l.frames != []
    ensures EmptyAt(N.Read(l, k).frames, n) ==> EmptyAt(l.frames, n)
  {
    if i :| 0 <= i < |N.Read(l, k).frames| && N.Read(l, k).frames[i].f.off == n {
      assert l.frames[i].f.off == n;
    }
  }

  lemma ArriveNoBlock(s: Stream, f: Frame, n: nat)
    requires HandlerOk(s) && Sized(s, n) && H.KeepsTo(f, n) && (H.Aligned(n) ==> f.off != n)
    requires s.r < n && !BlockAtEnd(s, n)
    ensures !BlockAtEnd(ArriveAt(s, f), n)
  {
    hide N.Inv, H.Inv, N.Insert, H.Insert, H.Within, FramesWithin, EmptyAt, H.Aligned;
    match s.handler
    case List(l) =>
      if f.off != n {
        ListOffsets(l, f, s.r, n);
      }
      SwitchWithin(l, s.r, n);
      KeyAtEnd(InsertAll(H.EMPTY, l.frames, s.r).value, f, s.r, n);
    case Hash(h) => KeyAtEnd(h, f, s.r, n);
  }

  lemma ListOffsets(l: N.LState, f: Frame, r: nat, n: nat)
    requires f.off != n
    ensures EmptyAt(N.Insert(l, f, r).0.frames, n) ==> EmptyAt(l.frames, n)
  {
    hide N.Insert, N.Pos;
    var fs, gs, p := l.frames, N.Insert(l, f, r).0.frames, N.Pos(l.frames, f.off);
    SameOrOneMore(l, f, r);
    if i :| 0 <= i < |gs| && gs[i].f.off == n {
      if gs != fs {
        assert fs[if i < p then i else i - 1].f.off == n;
      }
    }
  }

  lemma SameOrOneMore(l: N.LState, f: Frame, r: nat)
    ensures N.Insert(l, f, r).0.frames in {l.frames, N.InsertAt(l.frames, N.Pos(l.frames, f.off), f)}
  {
    hide N.InsertAt, N.Pos;
  }

  lemma {:induction false} RunNoBlock(s: Stream, es: seq<Event>, n: nat)
    requires HandlerOk(s) && Sized(s, n) && Legal(s, es) && Conforms(es, n) && NoEmptyAtEnd(es, n)
    requires s.r < n ==> !BlockAtEnd(s, n)
    ensures Run(s, es).r < n ==> !BlockAtEnd(Run(s, es), n)
    decreases |es|
  {
    if es != [] {
      StepSized(s, es[0], n);
      StepKeepsHandler(s, es[0]);
      StepNoBlock(s, es[0], n);
      hide HandlerOk, Sized, Step, BlockAtEnd, H.Aligned;
      RunNoBlock(Step(s, es[0]), es[1..], n);
    }
  }

  /**
   * After any run of a sender that keeps to a final size the stream is not broken,
   * and its next frame is refused in exactly one case; in none, if no empty frame
   * was sent at a final size that is a block boundary.
   */
  lemma ConformingSenderIsAccepted(start: Stream, es: seq<Event>, f: Frame, n: nat)
    requires start in {START_LIST, START_HASH} && Legal(start, es) && Conforms(es, n) && H.KeepsTo(f, n)
    ensures var s := Run(start, es);
            && !s.handler.Broken? && s.r <= n && !ArriveAt(s, f).handler.Broken?
            && (Outcome(s, f) == Err <==>
                  && f.fin && f.data != [] && s.r < n && BlockAtEnd(s, n)
                  && (s.handler.List? ==> !N.Known(s.handler.l, f, s.r) && N.Conflicts(s.handler.l, f, s.r)))
            && (NoEmptyAtEnd(es, n) ==> Outcome(s, f) != Err)
  {
    StartsAreOk(start);
    RunSized(start, es, n);
    var s := Run(start, es);
    ArriveSized(s, f, n);
    ArrivalRefusedIff(s, f, n);
    if NoEmptyAtEnd(es, n) {
      assert !BlockAtEnd(start, n);
      RunNoBlock(start, es, n);
    }
  }

  // ---------------------------------------------------------------- what was sent comes out

  /** Some frame of the run carried the byte at `o`. */
  ghost predicate Arrived(es: seq<Event>, o: nat) {
    exists i :: 0 <= i < |es| && es[i].Arrive? && es[i].f.Covers(o)
  }

  /** The byte was delivered, or can be. */
  predicate Has(s: Stream, o: nat) {
    o < s.r || o in s.kept
  }

  lemma StepHas(s: Stream, e: Event, o: nat)
    requires Has(s, o)
    ensures Has(Step(s, e), o)
  {
    hide N.Insert, H.Insert, H.Stores, InsertAll;
  }

  /** Even a refused frame of such a sender leaves its bytes behind. */
  lemma ArrivalHas(s: Stream, f: Frame, n: nat, stream: nat -> byte)
    requires Inv(s, stream) && Sized(s, n) && H.KeepsTo(f, n)
    ensures forall o: nat :: f.Covers(o) ==> Has(Step(s, Arrive(f)), o)
  {
    hide N.Inv, H.Inv, N.Insert, H.Insert, FramesWithin, EmptyAt, H.Aligned;
    match s.handler
    case List(l) =>
      ListInsertWithin(l, f, s.r, n);
      SwitchWithin(l, s.r, n);
      if N.Insert(l, f, s.r).1 == Dup {
        N.DupBringsNothing(l, f, s.r);
        assert forall o: nat :: f.Covers(o) && s.r <= o ==> o in Unread(s);
      }
    case Hash(h) =>
  }

  lemma {:induction false} RunHas(s: Stream, es: seq<Event>, n: nat, stream: nat -> byte, o: nat)
    requires Inv(s, stream) && Sized(s, n) && Legal(s, es) && Conforms(es, n) && SlicesOf(es, stream)
    requires Has(s, o) || Arrived(es, o)
    ensures Has(Run(s, es), o)
    decreases |es|
  {
    hide Inv, Sized, Step, Has;
    if es != [] {
      FirstStepHas(s, es, n, stream, o);
      RunHas(Step(s, es[0]), es[1..], n, stream, o);
    }
  }

  lemma FirstStepHas(s: Stream, es: seq<Event>, n: nat, stream: nat -> byte, o: nat)
    requires Inv(s, stream) && Sized(s, n) && Legal(s, es) && Conforms(es, n) && SlicesOf(es, stream)
    requires es != [] && (Has(s, o) || Arrived(es, o))
    ensures Inv(Step(s, es[0]), stream) && Sized(Step(s, es[0]), n)
    ensures Has(Step(s, es[0]), o) || Arrived(es[1..], o)
  {
    hide Inv, Sized, Has, Step, Enabled;
    OneStep(s, es);
    RunDeliversStream(s, es[..1], stream);
    InvIsOfHandler(s, stream);
    StepSized(s, es[0], n);
    if Has(s, o) {
      StepHas(s, es[0], o);
    } else if es[0].Arrive? && es[0].f.Covers(o) {
      ArrivalHas(s, es[0].f, n, stream);
    } else {
      var i :| 0 <= i < |es| && es[i].Arrive? && es[i].f.Covers(o);
      assert es[1..][i - 1] == es[i];
    }
  }

  lemma InvIsOfHandler(s: Stream, stream: nat -> byte)
    requires Inv(s, stream)
    ensures HandlerOk(s)
  {
  }

  lemma OneStep(s: Stream, es: seq<Event>)
    requires es != [] && Legal(s, es)
    ensures Legal(s, es[..1]) && Run(s, es[..1]) == Step(s, es[0])
  {
    assert es[..1][1..] == [];
  }

  // ---------------------------------------------------------------- FIN that was accepted

  /** The handler knows that the stream ends at `fin`. */
  ghost predicate KnowsFin(s: Stream, fin: nat) {
    match s.handler
    case List(l) => l.finSet && l.finOff == fin
    case Hash(h) => h.fin == Some(fin)
    case Broken => false
  }

  /** The stream has ended for the reader, with all of it read. */
  predicate ToldFin(s: Stream, fin: nat) {
    s.ended && s.r == fin
  }

  /** A list whose FIN frame is gone has told the reader. */
  ghost predicate ReachedIsTold(s: Stream, n: nat) {
    s.handler.List? && s.handler.l.finReached ==> ToldFin(s, n)
  }

  /** A FIN that is not refused is known. */
  lemma AcceptedFin(s: Stream, f: Frame)
    requires HandlerOk(s) && f.fin && Outcome(s, f) != Err
    ensures KnowsFin(ArriveAt(s, f), f.End())
  {
    hide N.Inv, H.Inv;
    match s.handler
    case List(l) =>
      if N.Insert(l, f, s.r).1 == Dup {
        N.DupBringsNothing(l, f, s.r);
      } else if N.Insert(l, f, s.r).1 == Ok {
        N.InsertStoresExactly(l, f, s.r);
      }
    case _ =>
  }

  /** A switch takes FIN along unless the reader was told. */
  lemma SwitchKeepsFin(s: Stream, n: nat)
    requires HandlerOk(s) && Sized(s, n) && ReachedIsTold(s, n) && s.handler.List? && KnowsFin(s, n)
    ensures InsertAll(H.EMPTY, s.handler.l.frames, s.r).Some?
    ensures InsertAll(H.EMPTY, s.handler.l.frames, s.r).value.fin == Some(n) || ToldFin(s, n)
  {
    var l := s.handler.l;
    SwitchWithin(l, s.r, n);
    SwitchKeepsUnread(l, s.r);
    if !l.finReached {
      var i :| 0 <= i < |l.frames| && l.frames[i].f.fin && l.frames[i].f.End() == l.finOff;
      assert HasFin(l.frames);
    }
  }

  lemma ArriveKeepsFin(s: Stream, f: Frame, n: nat)
    requires HandlerOk(s) && Sized(s, n) && ReachedIsTold(s, n) && H.KeepsTo(f, n)
    ensures ReachedIsTold(ArriveAt(s, f), n)
    ensures KnowsFin(s, n) || ToldFin(s, n) ==> KnowsFin(ArriveAt(s, f), n) || ToldFin(ArriveAt(s, f), n)
  {
    hide HandlerOk, Sized, InsertAll, N.Pos, H.Copy, H.SeesPastFin, H.Trim;
    if s.handler.List? && KnowsFin(s, n) {
      SwitchKeepsFin(s, n);
    }
  }

  lemma StepKeepsFin(s: Stream, e: Event, n: nat)
    requires HandlerOk(s) && Sized(s, n) && ReachedIsTold(s, n) && Enabled(s, e)
    requires e.Arrive? ==> H.KeepsTo(e.f, n)
    ensures ReachedIsTold(Step(s, e), n)
    ensures KnowsFin(s, n) || ToldFin(s, n) ==> KnowsFin(Step(s, e), n) || ToldFin(Step(s, e), n)
  {
    match e {
      case Arrive(f) => ArriveKeepsFin(s, f, n);
      case Release =>
        if s.handler.List? {
          ListFinIsAtEnd(s, n);
        }
      case Switch =>
        if s.handler.List? && KnowsFin(s, n) {
          SwitchKeepsFin(s, n);
        }
      case _ =>
    }
  }

  /** A list frame with FIN that was read to its end was read to the end of the stream. */
  lemma ListFinIsAtEnd(s: Stream, n: nat)
    requires HandlerOk(s) && Sized(s, n) && s.handler.List? && Enabled(s, Release)
    ensures GotFin(s) ==> s.r == n
  {
  }

  lemma {:induction false} RunKeepsFin(s: Stream, es: seq<Event>, n: nat)
    requires HandlerOk(s) && Sized(s, n) && ReachedIsTold(s, n) && Legal(s, es) && Conforms(es, n)
    ensures ReachedIsTold(Run(s, es), n)
    ensures KnowsFin(s, n) || ToldFin(s, n) ==> KnowsFin(Run(s, es), n) || ToldFin(Run(s, es), n)
    decreases |es|
  {
    if es != [] {
      StepSized(s, es[0], n);
      StepKeepsHandler(s, es[0]);
      StepKeepsFin(s, es[0], n);
      hide HandlerOk, Sized, Step, ReachedIsTold, KnowsFin;
      RunKeepsFin(Step(s, es[0]), es[1..], n);
    }
  }

  /** Some FIN of the run was not refused. */
  ghost predicate FinAccepted(s: Stream, es: seq<Event>) {
    exists i :: 0 <= i < |es| && FinAcceptedAt(s, es, i)
  }

  ghost predicate FinAcceptedAt(s: Stream, es: seq<Event>, i: nat) {
    i < |es| && es[i].Arrive? && es[i].f.fin && Outcome(Run(s, es[..i]), es[i].f) != Err
  }

  /**
   * In every run of a sender that keeps to the final size `n`: once a FIN was not
   * refused, every later state knows FIN at `n`, or the reader was told it there.
   */
  lemma AcceptedFinIsKnown(start: Stream, es: seq<Event>, n: nat)
    requires start in {START_LIST, START_HASH} && Legal(start, es) && Conforms(es, n) && FinAccepted(start, es)
    ensures KnowsFin(Run(start, es), n) || ToldFin(Run(start, es), n)
  {
    StartsAreOk(start);
    FinStaysKnown(start, es, n);
  }

  lemma {:induction false} FinStaysKnown(s: Stream, es: seq<Event>, n: nat)
    requires HandlerOk(s) && Sized(s, n) && ReachedIsTold(s, n) && Legal(s, es) && Conforms(es, n)
    requires FinAccepted(s, es)
    ensures KnowsFin(Run(s, es), n) || ToldFin(Run(s, es), n)
    decreases |es|
  {
    var i :| 0 <= i < |es| && FinAcceptedAt(s, es, i);
    var s' := Step(s, es[0]);
    StepSized(s, es[0], n);
    StepKeepsHandler(s, es[0]);
    StepKeepsFin(s, es[0], n);
    if i == 0 {
      AcceptedFin(s, es[0].f);
      RunKeepsFin(s', es[1..], n);
    } else {
      assert es[..i][1..] == es[1..][..i - 1] && es[..i][0] == es[0];
      assert FinAcceptedAt(s', es[1..], i - 1);
      FinStaysKnown(s', es[1..], n);
    }
  }
}
