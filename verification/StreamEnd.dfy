/** When the stream ends for the reader, and when it ends too early.

    The FIN flag of a frame of the hash handler may be set although bytes follow.  A reader that
    reads such a frame to its end is told that the stream is over.
*/
module StreamEnd {
  import opened Basics
  import opened StreamData
  import N = NocopySpec
  import H = HashSpec
  import opened StreamRun
  import opened StreamAccept

  /** The stream has ended for the reader before its final size. */
  predicate EndedEarly(s: Stream, n: nat) {
    s.ended && s.r < n
  }

  /** The frame the reader holds was got where the handler's FIN flag comes too early. */
  predicate Misled(s: Stream) {
    s.handler.Hash? && s.got.FromHash? && H.Misleads(s.handler.h, s.at)
  }

  /** A frame of the table that was read to its end, with FIN: all is read, or it came too early. */
  lemma HashRelease(s: Stream, n: nat)
    requires HandlerOk(s) && Sized(s, n) && s.handler.Hash? && Enabled(s, Release)
    ensures GotFin(s) && s.r < n <==> Misled(s)
  {
    var h, v, at := s.handler.h, s.got.v, s.at;
    H.GetHandsOutRun(h, at);
    if at in h.bytes {
      H.MisleadsIff(h, at);
      if H.Misleads(h, at) {
        H.MisleadsInFirstBlock(h, at, n);
      }
    }
    hide H.RunBelow, H.Key, H.Aligned;
  }

  /** One step of a reader whose stream goes on ends it early exactly by releasing such a frame. */
  lemma StepEndsEarly(s: Stream, e: Event, n: nat)
    requires HandlerOk(s) && Sized(s, n) && Enabled(s, e)
    requires e.Arrive? ==> H.KeepsTo(e.f, n)
    ensures EndedEarly(Step(s, e), n) <==> EndedEarly(s, n) || (e.Release? && Misled(s))
    ensures Step(s, e).ended && !s.ended ==> e.Release? && GotFin(s)
  {
    if e.Release? {
      if s.handler.Hash? {
        HashRelease(s, n);
      } else if s.handler.List? {
        ListFinIsAtEnd(s, n);
      }
      hide H.Misleads, N.Inv, H.Inv, H.Within;
    } else {
      hide H.Misleads, N.Inv, H.Inv, H.Within, N.Insert, H.Insert;
    }
  }

  /** Step `i` of the run releases a frame with a FIN flag that comes too early. */
  ghost predicate MisledAt(s: Stream, es: seq<Event>, i: nat) {
    i < |es| && es[i].Release? && Misled(Run(s, es[..i]))
  }

  lemma {:induction false} RunEndsEarly(s: Stream, es: seq<Event>, n: nat)
    requires HandlerOk(s) && Sized(s, n) && Legal(s, es) && Conforms(es, n)
    ensures EndedEarly(Run(s, es), n) <==> EndedEarly(s, n) || exists i :: 0 <= i < |es| && MisledAt(s, es, i)
    decreases |es|
  {
    if es != [] {
      var s', rest := Step(s, es[0]), es[1..];
      StepSized(s, es[0], n);
      StepKeepsHandler(s, es[0]);
      StepEndsEarly(s, es[0], n);
      hide HandlerOk, Sized, Step, EndedEarly, Misled;
      RunEndsEarly(s', rest, n);
      assert MisledAt(s, es, 0) <==> es[0].Release? && Misled(s);
      forall i | 0 < i < |es| ensures MisledAt(s, es, i) <==> MisledAt(s', rest, i - 1) {
        assert es[..i][1..] == rest[..i - 1] && es[..i][0] == es[0];
      }
      if i :| 0 <= i < |rest| && MisledAt(s', rest, i) {
        assert MisledAt(s, es, i + 1);
      }
    }
  }

  /**
   * In every run of a sender that keeps to the final size `n`, the stream ends for
   * the reader before `n` if and only if a frame was released that was got where the
   * FIN flag comes too early; and never for a stream of two blocks or more.
   */
  lemma EndsEarlyIff(start: Stream, es: seq<Event>, n: nat)
    requires start in {START_LIST, START_HASH} && Legal(start, es) && Conforms(es, n)
    ensures EndedEarly(Run(start, es), n) <==> exists i :: 0 <= i < |es| && MisledAt(start, es, i)
    ensures n >= 2 * H.BLOCK ==> !EndedEarly(Run(start, es), n)
  {
    StartsAreOk(start);
    RunEndsEarly(start, es, n);
    if n >= 2 * H.BLOCK && EndedEarly(Run(start, es), n) {
      var i :| 0 <= i < |es| && MisledAt(start, es, i);
      PrefixRuns(start, es, i);
      RunSized(start, es[..i], n);
      var s := Run(start, es[..i]);
      H.MisleadsInFirstBlock(s.handler.h, s.at, n);
    }
  }

  lemma {:induction false} PrefixRuns(s: Stream, es: seq<Event>, i: nat)
    requires Legal(s, es) && i <= |es|
    ensures Legal(s, es[..i])
    decreases i
  {
    hide Step, Enabled;
    if i > 0 {
      PrefixRuns(Step(s, es[0]), es[1..], i - 1);
      assert es[..i][1..] == es[1..][..i - 1] && es[..i][0] == es[0];
    }
  }

  /**
   * It happens: a stream of one block and 20 bytes that arrived whole, in one frame
   * with FIN, to a reader that takes 20 bytes, and then all it is given.
   */
  lemma StreamEndsEarly(data: seq<byte>)
    requires |data| == H.BLOCK + 20
    ensures var es := [Arrive(Frame(0, data, true)), Get, Take(20), Get, Take(H.BLOCK - 20), Release];
            var s := Run(START_HASH, es);
            && Legal(START_HASH, es) && Conforms(es, |data|)
            && EndedEarly(s, |data|) && s.r == H.BLOCK && GetAt(s).got == Nothing
  {
    hide H.Insert, H.Get, H.Stores, H.Done, N.Insert, Slice;
    var f := Frame(0, data, true);
    var s0 := START_HASH;
    var s1 := ArriveAt(s0, f);
    WholeArrives(f);
    var h := s1.handler.h;
    WholeIsHeld(h, f, 0, H.BLOCK);
    WholeIsHeld(h, f, 20, H.BLOCK - 20);
    var s2 := GetAt(s1);
    var s3 := TakeFrom(s2, 20);
    var s4 := GetAt(s3);
    var s5 := TakeFrom(s4, H.BLOCK - 20);
    var es := [Arrive(f), Get, Take(20), Get, Take(H.BLOCK - 20), Release];
    SixSteps(s0, Arrive(f), Get, Take(20), Get, Take(H.BLOCK - 20), Release);
  }

  lemma SixSteps(s: Stream, a: Event, b: Event, c: Event, d: Event, e: Event, f: Event)
    ensures Run(s, [a, b, c, d, e, f]) == Step(Step(Step(Step(Step(Step(s, a), b), c), d), e), f)
    ensures Legal(s, [a, b, c, d, e, f]) <==>
      && Enabled(s, a) && Enabled(Step(s, a), b) && Enabled(Step(Step(s, a), b), c)
      && Enabled(Step(Step(Step(s, a), b), c), d) && Enabled(Step(Step(Step(Step(s, a), b), c), d), e)
      && Enabled(Step(Step(Step(Step(Step(s, a), b), c), d), e), f)
  {
    hide Step, Enabled;
    RunCons(s, a, [b, c, d, e, f]);
    var s1 := Step(s, a);
    RunCons(s1, b, [c, d, e, f]);
    var s2 := Step(s1, b);
    RunCons(s2, c, [d, e, f]);
    var s3 := Step(s2, c);
    RunCons(s3, d, [e, f]);
    var s4 := Step(s3, d);
    RunCons(s4, e, [f]);
    RunCons(Step(s4, e), f, []);
    assert [a] + [b, c, d, e, f] == [a, b, c, d, e, f];
    assert [b] + [c, d, e, f] == [b, c, d, e, f] && [c] + [d, e, f] == [c, d, e, f];
    assert [d] + [e, f] == [d, e, f] && [e] + [f] == [e, f] && [f] + [] == [f];
  }

  lemma RunCons(s: Stream, e: Event, rest: seq<Event>)
    ensures Run(s, [e] + rest) == Run(Step(s, e), rest)
    ensures Legal(s, [e] + rest) <==> Enabled(s, e) && Legal(Step(s, e), rest)
  {
    assert ([e] + rest)[1..] == rest;
  }

  /** The whole stream in one frame is accepted by an empty table. */
  lemma WholeArrives(f: Frame)
    requires f.off == 0 && f.fin && |f.data| == H.BLOCK + 20
    ensures var (h, res) := H.Insert(H.EMPTY, f, 0);
            && res == Ok && h.fin == Some(f.End()) && 0 in h.keys
            && forall o: nat :: o in h.bytes <==> o < f.End()
  {
    H.RefusedIff(H.EMPTY, f, 0, f.End());
    H.FinAcceptedIff(H.EMPTY, f, 0);
    H.KeyUnique(0, 0);
    assert 0 in H.Touched(f) by {
      assert 0 <= H.LastKey(f);
    }
    assert forall o: nat :: o in Content(f) <==> f.Covers(o);
  }

  lemma WholeIsHeld(h: H.HState, f: Frame, r: nat, n: nat)
    requires h.fin == Some(f.End()) && f.off == 0 && f.End() == H.BLOCK + 20 && 0 in h.keys
    requires forall o: nat :: o in h.bytes <==> o < f.End()
    requires r + n == H.BLOCK && n > 0
    ensures H.Get(h, r) == Some(H.View(Some(0), 0, r, H.BLOCK, r == 20))
  {
    H.KeyUnique(0, r);
    H.RunBelowUnique(h.bytes, r, H.BLOCK, n);
  }
}
