/** The list handler of incoming stream data, as the object the stream uses. */
module DiNocopy {
  import opened Basics
  import opened StreamData
  import opened NocopySpec

  /** After `n` frames the run of readable bytes from `r` has got to `at`. */
  ghost predicate Drained(fs: seq<Queued>, n: nat, r: nat, at: nat)
    requires n <= |fs|
  {
    && r <= at
    && (at == r || exists i :: 0 <= i < n && fs[i].f.End() == at)
    && (forall o: nat :: r <= o < at ==> o in Queue(fs))
    && (forall i :: 0 <= i < n ==> fs[i].f.End() <= at || (at == r && r < fs[i].Roff()))
  }

  /** A frame that starts where the run has got to extends it. */
  lemma RunExtends(fs: seq<Queued>, i: nat, r: nat, at: nat)
    requires i < |fs| && Sorted(fs) && ReadUpTo(fs, r) && Drained(fs, i, r, at) && fs[i].Roff() == at
    ensures Drained(fs, i + 1, r, fs[i].f.End())
  {
    forall o: nat | r <= o < fs[i].f.End() ensures o in Queue(fs) {
      if at <= o {
        assert fs[i].f.Covers(o);
        QueueCovers(fs, o);
      }
    }
    forall j | 0 <= j < i + 1 ensures fs[j].f.End() <= fs[i].f.End() {
      assert j < i ==> fs[j].f.End() <= fs[i].f.off;
    }
  }

  /** The run is never past the frame that comes next. */
  lemma NextIsAhead(fs: seq<Queued>, i: nat, r: nat, at: nat)
    requires i < |fs| && Sorted(fs) && ReadUpTo(fs, r) && Drained(fs, i, r, at)
    ensures at <= fs[i].Roff()
  {
    if at != r {
      var j :| 0 <= j < i && fs[j].f.End() == at;
      assert fs[j].f.End() <= fs[i].f.off;
    }
  }

  lemma AheadOf(fs: seq<Queued>, i: nat, r: nat, at: nat)
    requires i <= |fs| && Drained(fs, i, r, at)
    ensures r <= at
  {
  }

  /** A frame beyond the read offset leaves the run where it is. */
  lemma SkipsAhead(fs: seq<Queued>, i: nat, r: nat, at: nat)
    requires i < |fs| && Drained(fs, i, r, at) && at <= r < fs[i].Roff()
    ensures at == r && Drained(fs, i + 1, r, at)
  {
    hide Queue;
  }

  /** When the loop stops, at the end of the list or at a frame further on, the run is over. */
  lemma RunEnds(fs: seq<Queued>, n: nat, r: nat, at: nat)
    requires n <= |fs| && Sorted(fs) && ReadUpTo(fs, r) && Drained(fs, n, r, at)
    requires n < |fs| ==> at < fs[n].Roff()
    ensures IsRun(From(Queue(fs), r), r, at - r)
  {
    QueueCovers(fs, at);
    forall i | 0 <= i < |fs| ensures !fs[i].f.Covers(at) {
      if n <= i {
        StopsBefore(fs, n, i, r, at);
      } else {
        assert fs[i].readOff > 0 ==> fs[i].Roff() == r;
      }
    }
  }

  lemma StopsBefore(fs: seq<Queued>, n: nat, i: nat, r: nat, at: nat)
    requires n <= i < |fs| && Sorted(fs) && ReadUpTo(fs, r) && r <= at < fs[n].Roff()
    ensures at < fs[i].f.off
  {
    assert fs[n].readOff == 0;
    assert n < i ==> fs[n].f.End() <= fs[i].f.off;
  }

  class NocopyDataIn {
    var frames: seq<Queued>
    var byteage: nat
    var nFrames: nat
    var nHoles: nat
    var finSet: bool
    var finReached: bool
    var finOff: nat

    function State(): LState
      reads this
    {
      LState(frames, byteage, nFrames, nHoles, finSet, finReached, finOff)
    }

    ghost predicate Valid(r: nat)
      reads this
    {
      Inv(State(), r)
    }

    /** lsquic_data_in_nocopy_new. */
    constructor ()
      ensures State() == EMPTY && forall r: nat :: Valid(r)
    {
      frames := [];
      byteage, nFrames, nHoles := 0, 0, 0;
      finSet, finReached, finOff := false, false, 0;
    }

    /** The search of insert_frame, from the back of the list.  A missing neighbour is -1. */
    method FindNeighbors(off: nat) returns (prev: int, next: int, count: nat)
      requires Sorted(frames)
      ensures prev == Pos(frames, off) - 1
      ensures next == (if Pos(frames, off) < |frames| then Pos(frames, off) else -1)
      ensures count == |frames| - Pos(frames, off)
    {
      var n := |frames|;
      next := n - 1;
      if next >= 0 && off < frames[next].f.off {
        count := 1;
        prev := next - 1;
        while prev >= 0 && off < frames[next].f.off
          invariant 0 <= next < n && prev == next - 1
          invariant off < frames[next].f.off
          invariant count == n - next
          decreases next
        {
          if off >= frames[prev].f.off {
            break;
          }
          count := count + 1;
          next, prev := prev, prev - 1;
        }
        PosUnique(frames, off, next);
      } else {
        count := 0;
        prev := -1;
        PosUnique(frames, off, n);
      }
      if prev < 0 && next >= 0 && off >= frames[next].f.off {
        prev := next;
        next := if next + 1 < n then next + 1 else -1;
      }
    }

    /** The verdicts of insert_frame that need no search. */
    method Screen(f: Frame, r: nat) returns (res: Option<InsFrame>)
      ensures res.Some? ==> res.value != Ok && res.value == Insert(State(), f, r).1
      ensures res.None? ==>
        && r <= f.End()
        && !(finSet && ((f.fin && f.End() != finOff) || f.End() > finOff))
        && !(r == f.End() && (finSet || !f.fin))
    {
      hide Pos, Add;
      if r > f.End() {
        return Some(if f.fin then Err else Dup);
      }
      if finSet {
        if f.fin && f.End() != finOff {
          return Some(Err);
        }
        if f.End() > finOff {
          return Some(Err);
        }
        if r == f.End() {
          return Some(Dup);
        }
      } else {
        if r == f.End() && !f.fin {
          return Some(Dup);
        }
      }
      return None;
    }

    /** The case analysis of insert_frame, and the neighbours to link between when it says OK. */
    method Classify(f: Frame, r: nat) returns (res: InsFrame, prev: int, next: int, count: nat)
      requires Sorted(frames)
      ensures res == Insert(State(), f, r).1
      ensures res == Ok ==> prev == Pos(frames, f.off) - 1
      ensures res == Ok ==> next == (if Pos(frames, f.off) < |frames| then Pos(frames, f.off) else -1)
      ensures res == Ok ==> count == |frames| - Pos(frames, f.off)
    {
      hide Sorted, Pos, Add;
      prev, next, count := -1, -1, 0;
      var early := Screen(f, r);
      if early.Some? {
        res := early.value;
        return;
      }
      prev, next, count := FindNeighbors(f.off);
      if prev < 0 && next < 0 {
        if r == f.End() {
          if |f.data| > 0 {
            res := if f.fin && !(finReached && r == finOff) then Overlap else Dup;
            return;
          } else if !f.fin || (finReached && r == finOff) {
            res := Dup;
            return;
          }
        } else if r > f.off {
          res := Overlap;
          return;
        }
      }
      if prev >= 0 {
        if frames[prev].f.off == f.off && |frames[prev].f.data| == |f.data| {
          res := if !frames[prev].f.fin && f.fin then Overlap else Dup;
          return;
        }
        if frames[prev].f.End() > f.off {
          res := Overlap;
          return;
        }
      }
      if next >= 0 {
        if f.End() > frames[next].f.off || r > f.off {
          res := Overlap;
          return;
        }
      }
      res := Ok;
    }

    /** insert_frame. */
    method InsertFrame(f: Frame, r: nat) returns (res: InsFrame, count: nat)
      requires Valid(r)
      modifies this
      ensures Valid(r)
      ensures (State(), res) == Insert(old(State()), f, r)
      ensures res == Ok ==> count == |old(frames)| - Pos(old(frames), f.off)
    {
      hide Insert, Sorted, ReadUpTo, FinKnown, Holes, Fits, Pos, Add;
      InsertKeepsInv(State(), f, r);
      InsertStoresExactly(State(), f, r);
      var prev, next;
      res, prev, next, count := Classify(f, r);
      if res == Ok {
        OkFits(State(), f, r);
        Link(prev, next, f);
      }
    }

    /** Links the frame in between its neighbours and updates the counters. */
    method Link(prev: int, next: int, f: Frame)
      requires prev == Pos(frames, f.off) - 1
      requires next == (if Pos(frames, f.off) < |frames| then Pos(frames, f.off) else -1)
      requires Fits(frames, Pos(frames, f.off), f)
      requires nHoles == Holes(frames)
      modifies this
      ensures State() == Add(old(State()), Pos(old(frames), f.off), f)
    {
      HoleToSplit(frames, prev + 1, f);
      hide Pos, Holes, Queued.Roff, Fits;
      if prev >= 0 {
        var holes := nHoles + (if frames[prev].f.End() != f.off then 1 else 0);
        if next >= 0 {
          holes := holes + (if f.End() != frames[next].f.off then 1 else 0);
          holes := holes - 1;
        }
        nHoles := holes;
        frames := frames[..prev + 1] + [Queued(f, 0)] + frames[prev + 1..];
      } else {
        nHoles := nHoles + (if next >= 0 && f.End() != frames[next].f.off then 1 else 0);
        frames := [Queued(f, 0)] + frames;
      }
      if f.fin {
        finSet, finOff := true, f.End();
      }
      nFrames := nFrames + 1;
      byteage := byteage + |f.data|;
    }

    lemma DrainedNone(r: nat)
      requires Valid(r)
      ensures Drained(frames, 0, r, r)
    {
    }

    /** nocopy_di_get_frame: there is a frame whenever the byte at the read offset is queued, or
        FIN is queued there; and what is handed out has that byte or ends there. */
    method GetFrame(r: nat) returns (found: bool)
      requires Valid(r)
      ensures found == CanGet(State(), r)
      ensures r in Queue(frames) ==> found
      ensures finSet && !finReached && finOff == r ==> found
      ensures found ==> r in Queue(frames) || frames[0].f.End() == r
    {
      CanGetIff(State(), r);
      found := frames != [] && frames[0].Roff() == r;
    }

    /** What the stream does with a frame it got. */
    method Read(r: nat, n: nat) returns (out: seq<byte>)
      requires Valid(r) && CanGet(State(), r) && frames[0].readOff + n <= |frames[0].f.data|
      modifies this
      ensures Valid(r + n) && State() == NocopySpec.Read(old(State()), n)
      ensures out == old(frames)[0].f.data[r - old(frames)[0].f.off..][..n]
    {
      hide Inv;
      ReadKeepsInv(State(), r, n);
      var q := frames[0];
      out := q.f.data[q.readOff..q.readOff + n];
      frames := [q.(readOff := q.readOff + n)] + frames[1..];
    }

    /** nocopy_di_frame_done. */
    method FrameDone(r: nat)
      requires Valid(r) && CanGet(State(), r) && frames[0].readOff == |frames[0].f.data|
      modifies this
      ensures Valid(r)
      ensures State() == Done(old(State()))
    {
      DoneKeepsInv(State(), r);
      var q := frames[0];
      frames := frames[1..];
      if frames != [] && q.f.End() != frames[0].f.off {
        nHoles := nHoles - 1;
      }
      nFrames := nFrames - 1;
      byteage := byteage - |q.f.data|;
      if q.f.fin {
        finReached := true;
      }
    }

    /** nocopy_di_readable_bytes. */
    method ReadableBytes(r: nat) returns (n: nat)
      requires Valid(r)
      ensures IsRun(From(Queue(frames), r), r, n)
    {
      hide Sorted, ReadUpTo, Queue, IsRun, Drained, FinKnown, Holes, ByteSum;
      DrainedNone(r);
      var at: nat := r;
      for i := 0 to |frames|
        invariant Drained(frames, i, r, at)
      {
        NextIsAhead(frames, i, r, at);
        AheadOf(frames, i, r, at);
        if frames[i].Roff() == at {
          RunExtends(frames, i, r, at);
          at := at + (frames[i].f.End() - frames[i].Roff());
        } else if at > r {
          RunEnds(frames, i, r, at);
          n := at - r;
          return;
        } else {
          SkipsAhead(frames, i, r, at);
        }
      }
      AheadOf(frames, |frames|, r, at);
      RunEnds(frames, |frames|, r, at);
      n := at - r;
    }
  }
}
