/** What the reader can still get, by reads alone.

    A sender keeps to a final size, and the bytes up to some offset are there.  The reader can
    have them all, and then FIN, unless the stream has ended for it too early, or is about to:
    both cases are stated exactly.
*/
module StreamProgress {
  import opened Basics
  import opened StreamData
  import N = NocopySpec
  import H = HashSpec
  import opened StreamRun
  import opened StreamAccept
  import opened StreamEnd

  /** The reader's own events. */
  predicate Reads(es: seq<Event>) {
    forall i :: 0 <= i < |es| ==> es[i].Get? || es[i].Take? || es[i].Release?
  }

  lemma {:induction false} RunsInTurn(s: Stream, a: seq<Event>, b: seq<Event>)
    requires Legal(s, a)
    ensures Run(s, a + b) == Run(Run(s, a), b)
    ensures Legal(s, a + b) <==> Legal(Run(s, a), b)
    decreases |a|
  {
    hide Step, Enabled;
    if a == [] {
      assert a + b == b;
    } else {
      RunsInTurn(Step(s, a[0]), a[1..], b);
      assert (a + b)[1..] == a[1..] + b && (a + b)[0] == a[0];
    }
  }

  // ---------------------------------------------------------------- frame by frame

  /** Get a frame, take all of it, release it. */
  function Round(s: Stream): (es: seq<Event>)
    requires Left(GetAt(s)) >= 0
  {
    [Get, Take(Left(GetAt(s))), Release]
  }

  function AfterRound(s: Stream): (s': Stream)
    requires Left(GetAt(s)) >= 0
  {
    ReleaseFrame(TakeFrom(GetAt(s), Left(GetAt(s))))
  }

  lemma RoundRuns(s: Stream)
    requires !Due(s) && Left(GetAt(s)) >= 0 && GetAt(s).got != Nothing
    requires var t := TakeFrom(GetAt(s), Left(GetAt(s))); t.got != Nothing && Left(t) == 0
    ensures Legal(s, Round(s)) && Run(s, Round(s)) == AfterRound(s) && Reads(Round(s))
  {
    var g := GetAt(s);
    var n := Left(g);
    RunCons(s, Get, [Take(n), Release]);
    RunCons(g, Take(n), [Release]);
    RunCons(TakeFrom(g, n), Release, []);
    assert [Get] + [Take(n), Release] == Round(s) && [Take(n)] + [Release] == [Take(n), Release];
    assert [Release] + [] == [Release];
  }

  /** The reader takes all of every frame it gets. */
  ghost predicate WholeFrames(s: Stream, es: seq<Event>)
    decreases |es|
  {
    || es == []
    || (Left(GetAt(s)) >= 0 && |es| >= 3 && es[..3] == Round(s) && WholeFrames(AfterRound(s), es[3..]))
  }

  lemma {:induction false} WholeFramesAreReads(s: Stream, es: seq<Event>)
    requires WholeFrames(s, es)
    ensures Reads(es)
    decreases |es|
  {
    hide AfterRound;
    if es != [] {
      WholeFramesAreReads(AfterRound(s), es[3..]);
      assert es == es[..3] + es[3..];
    }
  }

  lemma OneMoreFrame(s: Stream, rest: seq<Event>)
    requires Left(GetAt(s)) >= 0 && Legal(s, Round(s)) && Run(s, Round(s)) == AfterRound(s)
    requires WholeFrames(AfterRound(s), rest) && Legal(AfterRound(s), rest)
    ensures var es := Round(s) + rest;
            WholeFrames(s, es) && Legal(s, es) && Run(s, es) == Run(AfterRound(s), rest)
  {
    var es := Round(s) + rest;
    assert es[..3] == Round(s) && es[3..] == rest;
    RunsInTurn(s, Round(s), rest);
  }

  /** A round at a list with a frame at the read offset takes that frame off the list. */
  lemma ListRound(s: Stream)
    requires HandlerOk(s) && !s.ended && !Due(s) && s.handler.List? && N.CanGet(s.handler.l, s.r)
    ensures Left(GetAt(s)) >= 0
    ensures Legal(s, Round(s)) && Run(s, Round(s)) == AfterRound(s) && Reads(Round(s))
    ensures var l, s' := s.handler.l, AfterRound(s);
            && HandlerOk(s') && s'.handler.List? && s'.r == l.frames[0].f.End() >= s.r
            && s'.got == Nothing && s'.ended == l.frames[0].f.fin
            && s'.handler.l.frames == l.frames[1..]
            && From(N.Queue(s'.handler.l.frames), s'.r) == From(N.Queue(l.frames), s'.r)
            && s'.handler.l.finSet == l.finSet && s'.handler.l.finOff == l.finOff
            && s'.handler.l.finReached == (l.finReached || l.frames[0].f.fin)
  {
    hide N.Inv;
    var l, g := s.handler.l, GetAt(s);
    FirstFrameBounds(l, s.r);
    var n := Left(g);
    var t := TakeFrom(g, n);
    N.ReadKeepsInv(l, s.r, n);
    N.DoneKeepsInv(t.handler.l, t.r);
    assert t.handler.l.frames[1..] == l.frames[1..];
    RoundRuns(s);
  }

  /** A round at a table with a byte or FIN at the read offset reads the run in the block. */
  lemma HashRound(s: Stream)
    requires HandlerOk(s) && !s.ended && !Due(s) && s.handler.Hash? && H.Get(s.handler.h, s.r).Some?
    ensures Left(GetAt(s)) >= 0
    ensures Legal(s, Round(s)) && Run(s, Round(s)) == AfterRound(s) && Reads(Round(s))
    ensures var h, s' := s.handler.h, AfterRound(s);
            var v := H.Get(h, s.r).value;
            && HandlerOk(s') && s'.handler.Hash? && s'.handler.h.fin == h.fin
            && s'.r == s.r + (v.size - v.readOff) && s'.got == Nothing && s'.ended == v.fin
            && From(s'.handler.h.bytes, s'.r) == From(h.bytes, s'.r)
  {
    hide H.Inv, H.Get, H.Aligned;
    var h := s.handler.h;
    StepKeepsHandler(s, Get);
    var g := GetAt(s);
    var n := Left(g);
    StepKeepsHandler(g, Take(n));
    var t := TakeFrom(g, n);
    StepKeepsHandler(t, Release);
    H.DoneLosesNothingUnread(h, t.got.v, t.r);
    RoundRuns(s);
  }

  /** How much there is to do before the reader is at `e`. */
  function Frames(s: Stream): nat {
    if s.handler.List? then |s.handler.l.frames| else 0
  }

  /** The bytes from the read offset up to `e` can be delivered. */
  ghost predicate Held(s: Stream, e: nat) {
    HandlerOk(s) && !s.handler.Broken? && forall o: nat :: s.r <= o < e ==> o in Unread(s)
  }

  /** They can, and the stream keeps to the final size `n`. */
  ghost predicate Ready(s: Stream, n: nat, e: nat) {
    Held(s, e) && Sized(s, n)
  }

  lemma StillThere(a: Bytes, b: Bytes, r: nat, r': nat, e: nat)
    requires r <= r' && From(b, r') == From(a, r')
    requires forall o: nat :: r <= o < e ==> o in From(a, r)
    ensures forall o: nat :: r' <= o < e ==> o in From(b, r')
  {
    forall o: nat | r' <= o < e ensures o in From(b, r') {
      assert o in From(a, r);
      assert o in From(a, r');
    }
  }

  /** Whenever there is something to read, a round reads it. */
  lemma ReadsOne(s: Stream, e: nat)
    requires Held(s, e) && !s.ended && !Due(s) && s.r < e
    ensures Left(GetAt(s)) >= 0 && Legal(s, Round(s)) && Run(s, Round(s)) == AfterRound(s) && Reads(Round(s))
    ensures var s' := AfterRound(s);
            && Held(s', e) && s'.handler.List? == s.handler.List? && !Due(s')
            && (Frames(s') < Frames(s) || (Frames(s') == Frames(s) && s'.r > s.r))
    ensures s.handler.List? ==>
      var fs := s.handler.l.frames;
      fs != [] && AfterRound(s).r == fs[0].f.End() && AfterRound(s).ended == fs[0].f.fin
    ensures s.handler.Hash? ==>
      var g := H.Get(s.handler.h, s.r);
      g.Some? && AfterRound(s).r == s.r + (g.value.size - g.value.readOff) && AfterRound(s).ended == g.value.fin
  {
    assert s.r in Unread(s);
    if s.handler.List? {
      var l := s.handler.l;
      N.CanGetIff(l, s.r);
      ListRound(s);
      var s' := AfterRound(s);
      StillThere(N.Queue(l.frames), N.Queue(s'.handler.l.frames), s.r, s'.r, e);
    } else {
      var h := s.handler.h;
      H.GetHandsOutRun(h, s.r);
      HashRound(s);
      var s' := AfterRound(s);
      StillThere(h.bytes, s'.handler.h.bytes, s.r, s'.r, e);
    }
    hide HandlerOk, AfterRound, Round, H.Get, N.CanGet;
  }

  /** In every run whose frames are slices of one stream, whatever they say about its end: every
      byte that was taken in and has no gap before it comes out, or the stream ends before it. */
  lemma EveryByteComesOut(start: Stream, es: seq<Event>, stream: nat -> byte, e: nat) returns (more: seq<Event>)
    requires start in {START_LIST, START_HASH} && Legal(start, es) && SlicesOf(es, stream)
    requires var s := Run(start, es);
             !s.handler.Broken? && forall o: nat :: s.r <= o < e ==> o in s.kept
    ensures Reads(more) && Legal(start, es + more)
    ensures var s := Run(start, es + more); Delivered(s, stream) && (e <= |s.out| || s.ended)
  {
    var s := Run(start, es);
    StartsAreOk(start);
    EveryRunFromStart(start, es, stream);
    RunKeepsHandler(start, es);
    hide HandlerOk, Due, Unread, Legal;
    more := ReadToEnd(s, e);
    RunsInTurn(start, es, more);
    assert SlicesOf(es + more, stream);
    EveryRunFromStart(start, es + more, stream);
  }

  lemma {:induction false} ReadToEnd(s: Stream, e: nat) returns (es: seq<Event>)
    requires Held(s, e)
    ensures Legal(s, es) && Reads(es) && (Run(s, es).r >= e || Run(s, es).ended)
    decreases Due(s), Frames(s), e - s.r
  {
    if s.r >= e || s.ended {
      es := [];
    } else {
      var first := [Release];
      if Due(s) {
        Settles(s, e);
      } else {
        ReadsOne(s, e);
        first := Round(s);
      }
      hide Held, Due, Round, Frames;
      var rest := ReadToEnd(Run(s, first), e);
      RunsInTurn(s, first, rest);
      es := first + rest;
    }
  }

  /** Releasing a frame that is due. */
  lemma Settles(s: Stream, e: nat)
    requires Held(s, e) && Due(s)
    ensures Legal(s, [Release]) && Run(s, [Release]) == ReleaseFrame(s)
    ensures var s' := ReleaseFrame(s);
            && Held(s', e) && !Due(s') && s'.r == s.r && s'.got == Nothing && s'.ended == GotFin(s)
            && s'.handler.List? == s.handler.List? && Frames(s') <= Frames(s)
  {
    RunCons(s, Release, []);
    assert [Release] + [] == [Release];
    StepKeepsReady(s, Release, e);
  }

  /** No step of the reader loses what is there. */
  lemma StepKeepsReady(s: Stream, ev: Event, e: nat)
    requires Held(s, e) && Enabled(s, ev) && (ev.Get? || ev.Take? || ev.Release?)
    ensures Held(Step(s, ev), e)
  {
    StepKeepsHandler(s, ev);
    var s' := Step(s, ev);
    if s.handler.List? {
      if ev.Take? {
        N.ReadKeepsInv(s.handler.l, s.r, ev.n);
      } else if ev.Release? {
        N.DoneKeepsInv(s.handler.l, s.r);
      }
      hide HandlerOk;
      assert Unread(s) == From(N.Queue(s.handler.l.frames), s.r);
      StillThere(N.Queue(s.handler.l.frames), N.Queue(s'.handler.l.frames), s.r, s'.r, e);
    } else {
      if ev.Release? {
        H.DoneLosesNothingUnread(s.handler.h, s.got.v, s.r);
      }
      hide HandlerOk;
      assert Unread(s) == From(s.handler.h.bytes, s.r);
      StillThere(s.handler.h.bytes, s'.handler.h.bytes, s.r, s'.r, e);
    }
  }

  // ---------------------------------------------------------------- within a final size

  /** Whoever reads frame by frame is told FIN before the end: the reader is in the first block,
      `e` is not, and the stream ends one block on. */
  predicate AtTrap(s: Stream, n: nat, e: nat) {
    s.handler.Hash? && s.handler.h.fin == Some(n) && 0 < s.r < H.BLOCK < e && n == s.r + H.BLOCK
  }

  lemma ListReadsOne(s: Stream, n: nat, e: nat)
    requires Ready(s, n, e) && !s.ended && !Due(s) && s.r < e && s.handler.List?
    requires Left(GetAt(s)) >= 0 && Legal(s, Round(s)) && Run(s, Round(s)) == AfterRound(s)
    ensures Sized(AfterRound(s), n) && (AfterRound(s).r < e ==> !AfterRound(s).ended)
  {
    hide AfterRound, Round, N.Inv;
    var l := s.handler.l;
    ReadsOne(s, e);
    EndIsWithin(s, n, e);
    ReadsConform(Round(s), n);
    RunSized(s, Round(s), n);
    FinFrameEndsAt(l, s.r, n);
  }

  lemma FinFrameEndsAt(l: N.LState, r: nat, n: nat)
    requires N.Inv(l, r) && (l.finSet ==> l.finOff == n) && l.frames != []
    ensures l.frames[0].f.fin ==> l.frames[0].f.End() == n
  {
  }

  lemma HashReadsOne(s: Stream, n: nat, e: nat)
    requires Ready(s, n, e) && !s.ended && !Due(s) && s.r < e && s.handler.Hash?
    requires Left(GetAt(s)) >= 0 && Legal(s, Round(s)) && Run(s, Round(s)) == AfterRound(s)
    ensures var s' := AfterRound(s);
            && Sized(s', n)
            && (AtTrap(s, n, e) ==> s'.ended && s'.r < e)
            && (!AtTrap(s, n, e) && s'.r < e ==> !s'.ended && !AtTrap(s', n, e))
  {
    hide AfterRound, Round, HandlerOk, Sized, Unread, Due, H.Misleads, H.Inv, H.Within, H.Get, H.RunBelow, H.Key;
    var h := s.handler.h;
    ReadsOne(s, e);
    ReadsConform(Round(s), n);
    RunSized(s, Round(s), n);
    BytesThere(s, e);
    EndIsWithin(s, n, e);
    TableIsWithin(s, n);
    H.MisleadsShortOf(h, s.r, n, e);
    H.MisleadsIff(h, s.r);
    H.GetIsRun(h, s.r);
    if AfterRound(s).r < e {
      H.EndsAtBoundary(h, s.r);
    }
  }

  lemma ReadsConform(es: seq<Event>, n: nat)
    requires Reads(es)
    ensures Conforms(es, n)
  {
  }

  lemma TableIsWithin(s: Stream, n: nat)
    requires HandlerOk(s) && Sized(s, n) && s.handler.Hash?
    ensures H.Inv(s.handler.h) && H.Within(s.handler.h, n)
    ensures s.handler.h.fin.Some? ==> s.handler.h.fin == Some(n)
  {
  }

  lemma BytesThere(s: Stream, e: nat)
    requires s.handler.Hash? && forall o: nat :: s.r <= o < e ==> o in Unread(s)
    ensures forall o: nat :: s.r <= o < e ==> o in s.handler.h.bytes
  {
    forall o: nat | s.r <= o < e ensures o in s.handler.h.bytes {
      assert o in Unread(s);
    }
  }

  /**
   * When the bytes up to `e` are there, reading frame by frame comes to `e` if and
   * only if the reader is not in that place; and there, it is told FIN before `e`.
   */
  lemma {:induction false} ReadOn(s: Stream, n: nat, e: nat) returns (es: seq<Event>)
    requires Ready(s, n, e) && !s.ended && !Due(s)
    ensures Legal(s, es) && WholeFrames(s, es)
    ensures Run(s, es).r >= e <==> !AtTrap(s, n, e)
    ensures AtTrap(s, n, e) ==> EndedEarly(Run(s, es), n)
    ensures es == [] || !Due(Run(s, es))
    decreases Frames(s), e - s.r
  {
    if s.r >= e {
      es := [];
    } else {
      ReadsOne(s, e);
      if s.handler.List? {
        ListReadsOne(s, n, e);
      } else {
        HashReadsOne(s, n, e);
      }
      var s' := AfterRound(s);
      hide Ready, Due, Round, AfterRound;
      var rest := [];
      if s'.r < e && !s'.ended {
        rest := ReadOn(s', n, e);
      }
      OneMoreFrame(s, rest);
      es := Round(s) + rest;
    }
  }

  // ---------------------------------------------------------------- however the reader reads

  /** The reader cannot come to `e` any more.  The stream has ended; or a frame with a FIN flag that
      comes too early is read and is to be released; or the next byte is the last of the first
      block, the stream ends one block on, and the frame with that byte will have such a flag. */
  predicate Trapped(s: Stream, n: nat, e: nat) {
    && s.r < e
    && (|| s.ended
        || (Due(s) && Misled(s))
        || (AtTrap(s, n, e) && s.r == H.BLOCK - 1 && (s.got == Nothing || s.at == s.r)))
  }

  /** By reads alone the reader can come to `e`. */
  ghost predicate CanReach(s: Stream, e: nat) {
    exists es :: Reads(es) && Legal(s, es) && Run(s, es).r >= e
  }

  /** The frame got at the last byte of the first block has that byte alone, and FIN. */
  lemma TrapSprings(s: Stream, n: nat, e: nat)
    requires Ready(s, n, e) && AtTrap(s, n, e) && s.r == H.BLOCK - 1
    ensures H.Misleads(s.handler.h, s.r) && H.Get(s.handler.h, s.r).Some?
    ensures var v := H.Get(s.handler.h, s.r).value; v.size - v.readOff == 1
  {
    hide H.RunBelow, H.Key;
    BytesThere(s, e);
    var h := s.handler.h;
    assert e <= n by {
      assert e - 1 in h.bytes;
    }
    H.KeyUnique(0, s.r);
    H.RunBelowUnique(h.bytes, s.r, H.BLOCK, 1);
    H.MisleadsShortOf(h, s.r, n, e);
  }

  lemma TrappedStays(s: Stream, ev: Event, n: nat, e: nat)
    requires Ready(s, n, e) && Trapped(s, n, e) && Enabled(s, ev) && (ev.Get? || ev.Take? || ev.Release?)
    ensures Trapped(Step(s, ev), n, e)
  {
    hide H.Misleads, H.Get, H.Inv, N.Inv, H.Within;
    if !s.ended && Due(s) && Misled(s) {
      HashRelease(s, n);
    } else if !s.ended {
      TrapSprings(s, n, e);
    }
  }

  lemma {:induction false} TrappedForGood(s: Stream, es: seq<Event>, n: nat, e: nat)
    requires Ready(s, n, e) && Trapped(s, n, e) && Reads(es) && Legal(s, es)
    ensures Run(s, es).r < e
    decreases |es|
  {
    if es != [] {
      TrappedStays(s, es[0], n, e);
      StepKeepsReady(s, es[0], e);
      StepSized(s, es[0], n);
      hide Trapped, Held, Sized, Step, Enabled;
      TrappedForGood(Step(s, es[0]), es[1..], n, e);
    }
  }

  lemma EndIsWithin(s: Stream, n: nat, e: nat)
    requires Ready(s, n, e) && s.r < e
    ensures e <= n
  {
    assert e - 1 in Unread(s);
    if s.handler.List? {
      N.QueueCovers(s.handler.l.frames, e - 1);
    }
  }

  /** After a frame that is due, with a flag that does not mislead, the reader goes on. */
  lemma DueIsPastTrap(s: Stream, n: nat, e: nat)
    requires Ready(s, n, e) && s.r < e && Due(s) && !Misled(s)
    ensures var s' := ReleaseFrame(s); Sized(s', n) && !s'.ended && !AtTrap(s', n, e)
  {
    hide H.Misleads, N.Inv, H.RunBelow, H.Key, H.Within;
    EndIsWithin(s, n, e);
    StepSized(s, Release, n);
    if s.handler.List? {
      ListFinIsAtEnd(s, n);
    } else {
      var h := s.handler.h;
      HashRelease(s, n);
      H.GetHandsOutRun(h, s.at);
      assert s.r in Unread(s);
      H.EndsAtBoundary(h, s.at);
    }
  }

  /** One byte less than the frame has takes the reader out of the place where it is misled. */
  lemma ShortRead(s: Stream, n: nat, e: nat) returns (es: seq<Event>)
    requires Ready(s, n, e) && !s.ended && !Due(s) && AtTrap(s, n, e) && s.r < H.BLOCK - 1
    ensures Legal(s, es) && Reads(es)
    ensures var s' := Run(s, es); Ready(s', n, e) && !s'.ended && !Due(s') && !AtTrap(s', n, e)
  {
    hide H.RunBelow, H.Key, H.Within;
    var h := s.handler.h;
    BytesThere(s, e);
    EndIsWithin(s, n, e);
    H.KeyUnique(0, s.r);
    H.RunBelowUnique(h.bytes, s.r, H.BLOCK, H.BLOCK - s.r);
    H.GetHandsOutRun(h, s.r);
    var g := GetAt(s);
    es := [Get, Take(1)];
    RunCons(s, Get, [Take(1)]);
    RunCons(g, Take(1), []);
    assert [Get] + [Take(1)] == es && [Take(1)] + [] == [Take(1)];
    StepKeepsReady(s, Get, e);
    StepKeepsReady(g, Take(1), e);
    RunSized(s, es, n);
  }

  /** A reader that still holds a frame it got earlier can read on in it. */
  lemma FinishFrame(s: Stream, n: nat, e: nat) returns (es: seq<Event>)
    requires Ready(s, n, e) && !Due(s) && AtTrap(s, n, e) && s.r == H.BLOCK - 1 && s.got != Nothing && s.at != s.r
    ensures Legal(s, es) && Reads(es)
    ensures var s' := Run(s, es); Ready(s', n, e) && !s'.ended && !Due(s') && !AtTrap(s', n, e)
  {
    LastByteLeft(s, n, e);
    var t := TakeFrom(s, 1);
    es := [Take(1), Release];
    RunCons(s, Take(1), [Release]);
    assert [Take(1)] + [Release] == es;
    StepKeepsReady(s, Take(1), e);
    StepSized(s, Take(1), n);
    Settles(t, e);
    DueIsPastTrap(t, n, e);
  }

  lemma LastByteLeft(s: Stream, n: nat, e: nat)
    requires Ready(s, n, e) && !Due(s) && AtTrap(s, n, e) && s.r == H.BLOCK - 1 && s.got != Nothing && s.at != s.r
    ensures Left(s) == 1 && s.at < s.r && !H.Misleads(s.handler.h, s.at)
  {
    var h, v := s.handler.h, s.got.v;
    H.GetHandsOutRun(h, s.at);
    H.FirstKey(v.block.value);
    if H.Misleads(h, s.at) {
      H.MisleadsInFirstBlock(h, s.at, n);
    }
    hide H.Misleads, H.Inv, H.Within, H.RunBelow;
  }

  /** A reader that is not trapped finds a place from where it can read frame by frame. */
  lemma WayOut(s: Stream, n: nat, e: nat) returns (es: seq<Event>)
    requires Ready(s, n, e) && s.r < e && !Trapped(s, n, e)
    ensures Legal(s, es) && Reads(es)
    ensures var s' := Run(s, es); Ready(s', n, e) && !s'.ended && !Due(s') && !AtTrap(s', n, e)
  {
    if Due(s) {
      es := [Release];
      Settles(s, e);
      DueIsPastTrap(s, n, e);
    } else if !AtTrap(s, n, e) {
      es := [];
    } else if s.r < H.BLOCK - 1 {
      es := ShortRead(s, n, e);
    } else {
      es := FinishFrame(s, n, e);
    }
  }

  /**
   * When the bytes up to `e` are there, a reader that may take as much or as little
   * as it likes can come to `e` if and only if it is not trapped.
   */
  lemma CanReachIff(s: Stream, n: nat, e: nat)
    requires Ready(s, n, e)
    ensures CanReach(s, e) <==> !Trapped(s, n, e)
  {
    if Trapped(s, n, e) {
      forall es | Reads(es) && Legal(s, es) ensures Run(s, es).r < e {
        TrappedForGood(s, es, n, e);
      }
    } else {
      var es := ReadBest(s, n, e);
    }
  }

  lemma ReadBest(s: Stream, n: nat, e: nat) returns (es: seq<Event>)
    requires Ready(s, n, e) && !Trapped(s, n, e)
    ensures Legal(s, es) && Reads(es) && Run(s, es).r >= e
  {
    if s.r >= e {
      es := [];
    } else {
      var out := WayOut(s, n, e);
      hide Ready, Due, AtTrap, Trapped;
      var rest := ReadOn(Run(s, out), n, e);
      WholeFramesAreReads(Run(s, out), rest);
      RunsInTurn(s, out, rest);
      es := out + rest;
    }
  }

  // ---------------------------------------------------------------- FIN comes out

  /** At a FIN offset that the handler knows, reading on ends the stream for the reader. */
  lemma {:induction false} FinComesOut(s: Stream, n: nat) returns (es: seq<Event>)
    requires HandlerOk(s) && ReachedIsTold(s, n) && KnowsFin(s, n) && s.r == n && !s.ended && !Due(s)
    ensures Legal(s, es) && WholeFrames(s, es) && ToldFin(Run(s, es), n)
    decreases Frames(s)
  {
    if s.handler.Hash? {
      H.GetAtFinIsEmptyFin(s.handler.h, n);
      HashRound(s);
    } else {
      N.CanGetIff(s.handler.l, n);
      FirstEndsAtFin(s.handler.l, n);
      ListRound(s);
    }
    var s' := AfterRound(s);
    hide HandlerOk, AfterRound, Round;
    var rest := [];
    if !s'.ended {
      rest := FinComesOut(s', n);
    }
    OneMoreFrame(s, rest);
    es := Round(s) + rest;
  }

  /** Frames at the FIN offset in front of the FIN frame have no unread bytes. */
  lemma FirstEndsAtFin(l: N.LState, fin: nat)
    requires N.Inv(l, fin) && l.finSet && !l.finReached && l.finOff == fin && N.CanGet(l, fin)
    ensures l.frames[0].f.End() == fin
  {
    var i :| 0 <= i < |l.frames| && l.frames[i].f.fin && l.frames[i].f.End() == fin;
    assert i > 0 ==> l.frames[0].f.End() <= l.frames[i].f.off;
  }

  /** The same wherever the reader is with the frame it holds. */
  lemma EndComesOut(s: Stream, n: nat) returns (es: seq<Event>)
    requires HandlerOk(s) && Sized(s, n) && ReachedIsTold(s, n) && s.r == n
    requires KnowsFin(s, n) || ToldFin(s, n)
    ensures Legal(s, es) && Reads(es) && ToldFin(Run(s, es), n)
  {
    if s.ended {
      es := [];
    } else if Due(s) {
      Settles(s, n);
      RunKeepsFin(s, [Release], n);
      var t := ReleaseFrame(s);
      es := [Release];
      hide HandlerOk, Sized, ReachedIsTold, KnowsFin, Due;
      if !t.ended {
        var rest := FinComesOut(t, n);
        WholeFramesAreReads(t, rest);
        RunsInTurn(s, [Release], rest);
        es := [Release] + rest;
      }
    } else {
      es := FinComesOut(s, n);
      WholeFramesAreReads(s, es);
    }
  }

  // ---------------------------------------------------------------- what was sent comes out

  /** The bytes from the read offset up to `e` have arrived. */
  ghost predicate ArrivedTo(start: Stream, es: seq<Event>, e: nat) {
    forall o: nat :: Run(start, es).r <= o < e ==> Arrived(es, o)
  }

  /** What has arrived is there. */
  lemma ArrivedIsReady(start: Stream, es: seq<Event>, stream: nat -> byte, n: nat, e: nat)
    requires start in {START_LIST, START_HASH} && Legal(start, es) && Conforms(es, n) && SlicesOf(es, stream)
    requires ArrivedTo(start, es, e)
    ensures Ready(Run(start, es), n, e)
  {
    StartsAreOk(start);
    RunSized(start, es, n);
    EveryRunFromStart(start, es, stream);
    var s := Run(start, es);
    forall o: nat | s.r <= o < e ensures o in Unread(s) {
      RunHas(start, es, n, stream, o);
    }
  }

  /** The run can go on, by reads alone, so that the reader has the stream up to `e`. */
  ghost predicate CanHave(start: Stream, es: seq<Event>, stream: nat -> byte, e: nat) {
    exists more :: Reads(more) && Legal(start, es + more) && HasUpTo(Run(start, es + more), stream, e)
  }

  ghost predicate HasUpTo(s: Stream, stream: nat -> byte, e: nat) {
    Delivered(s, stream) && e <= |s.out|
  }

  lemma GoingOn(start: Stream, es: seq<Event>, more: seq<Event>, stream: nat -> byte)
    requires start in {START_LIST, START_HASH} && Legal(start, es) && SlicesOf(es, stream)
    requires Reads(more) && Legal(Run(start, es), more)
    ensures Legal(start, es + more) && Run(start, es + more) == Run(Run(start, es), more)
    ensures Delivered(Run(start, es + more), stream)
  {
    RunsInTurn(start, es, more);
    hide Legal, Run;
    assert SlicesOf(es + more, stream);
    EveryRunFromStart(start, es + more, stream);
  }

  /**
   * In every run of a sender that keeps to a final size and whose bytes up to `e` have
   * arrived, in whatever frames, order and number of times: the reader can go on to
   * have the stream up to `e` if and only if it is not trapped.
   */
  lemma AllThatArrivedComesOut(start: Stream, es: seq<Event>, stream: nat -> byte, n: nat, e: nat)
    requires start in {START_LIST, START_HASH} && Legal(start, es) && Conforms(es, n) && SlicesOf(es, stream)
    requires ArrivedTo(start, es, e)
    ensures CanHave(start, es, stream, e) <==> !Trapped(Run(start, es), n, e)
  {
    ArrivedIsReady(start, es, stream, n, e);
    hide Trapped, Ready, Conforms, ArrivedTo, SlicesOf;
    var s := Run(start, es);
    if Trapped(s, n, e) {
      forall more | Reads(more) && Legal(start, es + more) ensures !HasUpTo(Run(start, es + more), stream, e) {
        RunsInTurn(start, es, more);
        TrappedForGood(s, more, n, e);
      }
    } else {
      var more := ReadBest(s, n, e);
      GoingOn(start, es, more, stream);
    }
  }

  /**
   * The same for a reader that takes all of every frame, and has not been told that the
   * stream is over: it comes to have the stream up to `e` if and only if it is not in the
   * one place of the first block where the flag misleads it.
   */
  lemma WholeFramesComeOut(start: Stream, es: seq<Event>, stream: nat -> byte, n: nat, e: nat)
      returns (more: seq<Event>)
    requires start in {START_LIST, START_HASH} && Legal(start, es) && Conforms(es, n) && SlicesOf(es, stream)
    requires ArrivedTo(start, es, e) && !Run(start, es).ended && !Due(Run(start, es))
    ensures WholeFrames(Run(start, es), more) && Legal(start, es + more)
    ensures HasUpTo(Run(start, es + more), stream, e) <==> !AtTrap(Run(start, es), n, e)
    ensures AtTrap(Run(start, es), n, e) ==> EndedEarly(Run(start, es + more), n)
  {
    ArrivedIsReady(start, es, stream, n, e);
    hide AtTrap, Ready, Conforms, ArrivedTo, SlicesOf, Due;
    var s := Run(start, es);
    more := ReadOn(s, n, e);
    WholeFramesAreReads(s, more);
    GoingOn(start, es, more, stream);
  }

  /** The run can go on, by reads alone, so that the reader has all of the stream and its end. */
  ghost predicate CanHaveAll(start: Stream, es: seq<Event>, stream: nat -> byte, n: nat) {
    exists more :: Reads(more) && Legal(start, es + more) && HasAll(Run(start, es + more), stream, n)
  }

  ghost predicate HasAll(s: Stream, stream: nat -> byte, n: nat) {
    Delivered(s, stream) && ToldFin(s, n)
  }

  /**
   * In every run of a sender that keeps to the final size `n`, all of whose bytes have
   * arrived and one of whose FINs was not refused, the reader can go on to have exactly
   * the stream and then its end, if and only if it is not trapped.
   */
  lemma WholeStreamComesOut(start: Stream, es: seq<Event>, stream: nat -> byte, n: nat)
    requires start in {START_LIST, START_HASH} && Legal(start, es) && Conforms(es, n) && SlicesOf(es, stream)
    requires ArrivedTo(start, es, n) && FinAccepted(start, es)
    ensures CanHaveAll(start, es, stream, n) <==> !Trapped(Run(start, es), n, n)
  {
    ArrivedIsReady(start, es, stream, n, n);
    var s := Run(start, es);
    if Trapped(s, n, n) {
      hide Trapped, Ready, Conforms, ArrivedTo, SlicesOf, FinAccepted;
      forall more | Reads(more) && Legal(start, es + more) ensures !HasAll(Run(start, es + more), stream, n) {
        RunsInTurn(start, es, more);
        TrappedForGood(s, more, n, n);
      }
    } else {
      AcceptedFinIsKnown(start, es, n);
      StartsAreOk(start);
      RunKeepsFin(start, es, n);
      hide Trapped, HandlerOk, Conforms, ArrivedTo, SlicesOf, FinAccepted, ReachedIsTold, KnowsFin, Unread;
      var more := ReadWhole(s, n);
      GoingOn(start, es, more, stream);
    }
  }

  lemma ReadWhole(s: Stream, n: nat) returns (es: seq<Event>)
    requires Ready(s, n, n) && !Trapped(s, n, n) && ReachedIsTold(s, n) && (KnowsFin(s, n) || ToldFin(s, n))
    ensures Legal(s, es) && Reads(es) && ToldFin(Run(s, es), n)
  {
    hide Trapped, HandlerOk, ReachedIsTold, KnowsFin, Unread;
    var first := ReadBest(s, n, n);
    RunSized(s, first, n);
    RunKeepsFin(s, first, n);
    hide Sized;
    var rest := EndComesOut(Run(s, first), n);
    RunsInTurn(s, first, rest);
    es := first + rest;
  }
}
