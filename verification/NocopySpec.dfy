/** What the list handler means: a sorted list of disjoint frames with running counters. */
module NocopySpec {
  import opened StreamData

  /** A queued frame and how much of it has been read. */
  datatype Queued = Queued(f: Frame, readOff: nat) {
    function Roff(): nat {
      f.off + readOff
    }
  }

  datatype LState = LState(frames: seq<Queued>, byteage: int, nFrames: int, nHoles: int,
                           finSet: bool, finReached: bool, finOff: nat)

  const EMPTY: LState := LState([], 0, 0, 0, false, false, 0)

  // ---------------------------------------------------------------- what the counters count

  function ByteSum(fs: seq<Queued>): nat {
    if fs == [] then 0 else |fs[0].f.data| + ByteSum(fs[1..])
  }

  function Gap(a: Queued, b: Queued): nat {
    if a.f.End() != b.f.off then 1 else 0
  }

  /** Number of adjacent frames that do not touch. */
  function Holes(fs: seq<Queued>): nat {
    if |fs| < 2 then 0 else Gap(fs[0], fs[1]) + Holes(fs[1..])
  }

  ghost predicate Sorted(fs: seq<Queued>) {
    forall i, j :: 0 <= i < j < |fs| ==> fs[i].f.End() <= fs[j].f.off
  }

  /** Only the first frame may be partly read, and then it is read up to `r`. */
  ghost predicate ReadUpTo(fs: seq<Queued>, r: nat) {
    && (forall i :: 0 <= i < |fs| ==> fs[i].readOff <= |fs[i].f.data| && r <= fs[i].Roff())
    && (forall i :: 0 <= i < |fs| && fs[i].readOff > 0 ==> i == 0 && fs[i].Roff() == r)
  }

  ghost predicate FinQueued(fs: seq<Queued>, fin: nat) {
    exists i :: 0 <= i < |fs| && fs[i].f.fin && fs[i].f.End() == fin
  }

  ghost predicate FinKnown(s: LState) {
    && (forall i :: 0 <= i < |s.frames| && s.frames[i].f.fin ==> s.finSet && s.frames[i].f.End() == s.finOff)
    && (s.finSet ==> s.finReached || FinQueued(s.frames, s.finOff))
    && (s.finReached ==> s.finSet)
  }

  ghost predicate Inv(s: LState, r: nat) {
    && Sorted(s.frames)
    && ReadUpTo(s.frames, r)
    && FinKnown(s)
    && s.nFrames == |s.frames|
    && s.byteage == ByteSum(s.frames)
    && s.nHoles == Holes(s.frames)
  }

  // ---------------------------------------------------------------- inserting

  /** How many queued frames start at or before `off`. */
  function Pos(fs: seq<Queued>, off: nat): (p: nat)
    ensures p <= |fs|
  {
    if fs == [] || fs[0].f.off > off then 0 else 1 + Pos(fs[1..], off)
  }

  function InsertAt(fs: seq<Queued>, p: nat, f: Frame): (r: seq<Queued>)
    requires p <= |fs|
  {
    fs[..p] + [Queued(f, 0)] + fs[p..]
  }

  /** The list and the counters with `f` linked in at position `p`. */
  function Add(s: LState, p: nat, f: Frame): (s': LState)
    requires p <= |s.frames|
  {
    var q := Queued(f, 0);
    var before := if p > 0 then Gap(s.frames[p - 1], q) else 0;
    var after := if p < |s.frames| then Gap(q, s.frames[p]) else 0;
    var split := if 0 < p < |s.frames| then 1 else 0;
    s.(frames := InsertAt(s.frames, p, f),
       byteage := s.byteage + |f.data|,
       nFrames := s.nFrames + 1,
       nHoles := s.nHoles + before + after - split,
       finSet := s.finSet || f.fin,
       finOff := if f.fin then f.End() else s.finOff)
  }

  /** insert_frame, with the position given by `Pos` instead of by searching. */
  function Insert(s: LState, f: Frame, r: nat): (res: (LState, InsFrame)) {
    if r > f.End() then
      (s, if f.fin then Err else Dup)                                     // A, B
    else if s.finSet && ((f.fin && f.End() != s.finOff) || f.End() > s.finOff) then
      (s, Err)                                                            // C, D
    else if r == f.End() && (s.finSet || !f.fin) then
      (s, Dup)                                                            // M, L
    else
      var p := Pos(s.frames, f.off);
      if s.frames == [] then
        if r == f.End() then
          if f.data != [] then
            (s, if f.fin && !(s.finReached && r == s.finOff) then Overlap else Dup)   // E, F
          else if !f.fin || (s.finReached && r == s.finOff) then (s, Dup) // G
          else (Add(s, p, f), Ok)
        else if r > f.off then (s, Overlap)                               // N
        else (Add(s, p, f), Ok)
      else if p > 0 && s.frames[p - 1].f.off == f.off && |s.frames[p - 1].f.data| == |f.data| then
        (s, if !s.frames[p - 1].f.fin && f.fin then Overlap else Dup)     // H, I
      else if p > 0 && s.frames[p - 1].f.End() > f.off then
        (s, Overlap)                                                      // J
      else if p < |s.frames| && (f.End() > s.frames[p].f.off || r > f.off) then
        (s, Overlap)                                                      // K, O
      else
        (Add(s, p, f), Ok)
  }

  // ---------------------------------------------------------------- reading

  /** nocopy_di_get_frame: only the first frame is ever handed out. */
  predicate CanGet(s: LState, r: nat) {
    s.frames != [] && s.frames[0].Roff() == r
  }

  function Read(s: LState, n: nat): (s': LState)
    requires s.frames != []
  {
    s.(frames := [s.frames[0].(readOff := s.frames[0].readOff + n)] + s.frames[1..])
  }

  /** nocopy_di_frame_done on the first frame. */
  function Done(s: LState): (s': LState)
    requires s.frames != []
  {
    s.(frames := s.frames[1..],
       byteage := s.byteage - |s.frames[0].f.data|,
       nFrames := s.nFrames - 1,
       nHoles := s.nHoles - (if |s.frames| > 1 then Gap(s.frames[0], s.frames[1]) else 0),
       finReached := s.finReached || s.frames[0].f.fin)
  }

  /** The bytes of the queued frames. */
  function Queue(fs: seq<Queued>): (m: Bytes) {
    if fs == [] then map[] else Content(fs[0].f) + Queue(fs[1..])
  }

  // ---------------------------------------------------------------- lemmas

  lemma {:induction false} PosSplits(fs: seq<Queued>, off: nat)
    requires Sorted(fs)
    ensures forall i :: 0 <= i < Pos(fs, off) ==> fs[i].f.off <= off
    ensures forall i :: Pos(fs, off) <= i < |fs| ==> off < fs[i].f.off
  {
    if fs != [] && fs[0].f.off <= off {
      PosSplits(fs[1..], off);
    }
  }

  lemma {:induction false} PosUnique(fs: seq<Queued>, off: nat, p: nat)
    requires Sorted(fs) && p <= |fs|
    requires p > 0 ==> fs[p - 1].f.off <= off
    requires p < |fs| ==> off < fs[p].f.off
    ensures Pos(fs, off) == p
  {
    PosSplits(fs, off);
  }

  /** One more frame in the middle: the hole there is split in two, and it was a hole. */
  lemma {:induction false} HolesAfterInsert(fs: seq<Queued>, p: nat, f: Frame)
    requires p <= |fs|
    ensures Holes(InsertAt(fs, p, f)) ==
            Holes(fs) + (if p > 0 then Gap(fs[p - 1], Queued(f, 0)) else 0)
                      + (if p < |fs| then Gap(Queued(f, 0), fs[p]) else 0)
                      - (if 0 < p < |fs| then Gap(fs[p - 1], fs[p]) else 0)
    decreases p
  {
    var g := InsertAt(fs, p, f);
    if p == 0 {
      assert g[1..] == fs;
    } else {
      HolesAfterInsert(fs[1..], p - 1, f);
      assert g[1..] == InsertAt(fs[1..], p - 1, f);
    }
  }

  lemma {:induction false} ByteSumAfterInsert(fs: seq<Queued>, p: nat, f: Frame)
    requires p <= |fs|
    ensures ByteSum(InsertAt(fs, p, f)) == ByteSum(fs) + |f.data|
    decreases p
  {
    var g := InsertAt(fs, p, f);
    if p == 0 {
      assert g[1..] == fs;
    } else {
      ByteSumAfterInsert(fs[1..], p - 1, f);
      assert g[1..] == InsertAt(fs[1..], p - 1, f);
    }
  }

  ghost predicate Fits(fs: seq<Queued>, p: nat, f: Frame)
    requires p <= |fs|
  {
    && (p > 0 ==> fs[p - 1].f.End() <= f.off)
    && (p < |fs| ==> f.End() <= fs[p].f.off && f.off < fs[p].f.off)
  }

  /** Between the neighbours of a frame that fits there is a hole. */
  lemma HoleToSplit(fs: seq<Queued>, p: nat, f: Frame)
    requires p <= |fs| && Fits(fs, p, f)
    ensures 0 < p < |fs| ==> Holes(fs) >= 1
  {
    HolesAfterInsert(fs, p, f);
    if 0 < p < |fs| {
      GapCounts(fs, p);
    }
  }

  lemma {:induction false} GapCounts(fs: seq<Queued>, p: nat)
    requires 0 < p < |fs|
    ensures Holes(fs) >= Gap(fs[p - 1], fs[p])
  {
    if p > 1 {
      GapCounts(fs[1..], p - 1);
    }
  }

  /** Every insert that reports OK links in exactly the new frame, where it fits. */
  lemma OkFits(s: LState, f: Frame, r: nat)
    requires Inv(s, r) && Insert(s, f, r).1 == Ok
    ensures var p := Pos(s.frames, f.off);
            && Insert(s, f, r).0 == Add(s, p, f)
            && Fits(s.frames, p, f)
            && r <= f.off
            && (s.finSet ==> f.End() <= s.finOff)
            && (s.finSet && f.fin ==> f.End() == s.finOff)
  {
    PosSplits(s.frames, f.off);
  }

  /** The frames stay sorted and disjoint, and the counters stay exact: in particular the
      unconditional decrement of the hole count takes away a hole that was there. */
  lemma InsertKeepsInv(s: LState, f: Frame, r: nat)
    requires Inv(s, r)
    ensures Inv(Insert(s, f, r).0, r)
  {
    hide Insert, Pos, Holes, ByteSum, Sorted, ReadUpTo, FinKnown;
    OnlyOkChanges(s, f, r);
    if Insert(s, f, r).1 == Ok {
      var p := Pos(s.frames, f.off);
      OkFits(s, f, r);
      HoleIsThere(s.frames, p, f);
      HolesAfterInsert(s.frames, p, f);
      ByteSumAfterInsert(s.frames, p, f);
      AddKeepsSorted(s.frames, p, f);
      AddKeepsFin(s, p, f);
      AddKeepsRead(s.frames, p, f, r);
    }
  }

  lemma OnlyOkChanges(s: LState, f: Frame, r: nat)
    ensures Insert(s, f, r).1 != Ok ==> Insert(s, f, r).0 == s
  {
  }

  lemma HoleIsThere(fs: seq<Queued>, p: nat, f: Frame)
    requires p <= |fs| && Fits(fs, p, f)
    ensures 0 < p < |fs| ==> Gap(fs[p - 1], fs[p]) == 1
  {
  }

  lemma AddKeepsSorted(fs: seq<Queued>, p: nat, f: Frame)
    requires Sorted(fs) && p <= |fs| && Fits(fs, p, f)
    ensures Sorted(InsertAt(fs, p, f))
  {
    var g := InsertAt(fs, p, f);
    forall i, j | 0 <= i < j < |g| ensures g[i].f.End() <= g[j].f.off {
      if i < p {
        assert i < p - 1 ==> fs[i].f.End() <= fs[p - 1].f.off;
      }
      if p < j {
        assert p < j - 1 ==> fs[p].f.End() <= fs[j - 1].f.off;
      }
    }
  }

  lemma AddKeepsRead(fs: seq<Queued>, p: nat, f: Frame, r: nat)
    requires Sorted(fs) && ReadUpTo(fs, r) && p <= |fs| && Fits(fs, p, f) && r <= f.off
    ensures ReadUpTo(InsertAt(fs, p, f), r)
  {
    var g := InsertAt(fs, p, f);
    forall i | 0 <= i < |g| ensures g[i].readOff > 0 ==> i == 0 && g[i].Roff() == r {
      assert p < i ==> f.off < fs[i - 1].f.off || p < i - 1;
    }
  }

  lemma AddKeepsFin(s: LState, p: nat, f: Frame)
    requires FinKnown(s) && p <= |s.frames|
    requires s.finSet && f.fin ==> f.End() == s.finOff
    ensures FinKnown(Add(s, p, f))
  {
    var s' := Add(s, p, f);
    assert s'.frames[p].f == f;
    forall i | 0 <= i < |s.frames| && s.frames[i].f.fin
      ensures s'.frames[if i < p then i else i + 1].f == s.frames[i].f
    {
    }
    if s'.finSet && !s'.finReached && !f.fin {
      var i :| 0 <= i < |s.frames| && s.frames[i].f.fin && s.frames[i].f.End() == s.finOff;
      var j := if i < p then i else i + 1;
      assert s'.frames[j].f == s.frames[i].f;
    }
  }

  /** The queue holds a byte exactly where some frame covers it. */
  lemma {:induction false} QueueCovers(fs: seq<Queued>, o: nat)
    ensures o in Queue(fs) <==> exists i :: 0 <= i < |fs| && fs[i].f.Covers(o)
  {
    if fs != [] {
      QueueCovers(fs[1..], o);
      if o in Queue(fs[1..]) {
        var i :| 0 <= i < |fs[1..]| && fs[1..][i].f.Covers(o);
        assert fs[i + 1].f.Covers(o);
      }
      if i :| 0 <= i < |fs| && fs[i].f.Covers(o) {
        assert i > 0 ==> fs[1..][i - 1].f.Covers(o);
      }
    }
  }

  lemma QueueIsCovered(fs: seq<Queued>, f: Frame)
    requires forall i :: 0 <= i < |fs| ==> f.End() <= fs[i].f.off || fs[i].f.End() <= f.off
    ensures forall o: nat :: f.Covers(o) ==> o !in Queue(fs)
  {
    forall o: nat | f.Covers(o) ensures o !in Queue(fs) {
      QueueCovers(fs, o);
    }
  }

  lemma MapsCommute(a: Bytes, b: Bytes)
    requires a.Keys !! b.Keys
    ensures a + b == b + a
  {
  }

  lemma MapsAssociate(a: Bytes, b: Bytes, c: Bytes)
    ensures a + (b + c) == (a + b) + c
  {
  }

  lemma QueueAfterInsertHead(fs: seq<Queued>, f: Frame)
    requires Sorted(fs) && Fits(fs, 0, f)
    ensures Queue(InsertAt(fs, 0, f)) == Queue(fs) + Content(f)
  {
    FitsIsDisjoint(fs, 0, f);
    QueueIsCovered(fs, f);
    assert InsertAt(fs, 0, f)[1..] == fs;
    MapsCommute(Content(f), Queue(fs));
  }

  lemma {:induction false} QueueAfterInsertAt(fs: seq<Queued>, p: nat, f: Frame)
    requires Sorted(fs) && p <= |fs| && Fits(fs, p, f)
    ensures Queue(InsertAt(fs, p, f)) == Queue(fs) + Content(f)
    decreases p
  {
    if p == 0 {
      QueueAfterInsertHead(fs, f);
    } else {
      hide Sorted, Fits, Content, InsertAt;
      FitsTail(fs, p, f);
      InsertAtTail(fs, p, f);
      QueueAfterInsertAt(fs[1..], p - 1, f);
      MapsAssociate(Content(fs[0].f), Queue(fs[1..]), Content(f));
    }
  }

  lemma InsertAtTail(fs: seq<Queued>, p: nat, f: Frame)
    requires 0 < p <= |fs|
    ensures var g := InsertAt(fs, p, f); g != [] && g[0] == fs[0] && g[1..] == InsertAt(fs[1..], p - 1, f)
  {
  }

  lemma FitsTail(fs: seq<Queued>, p: nat, f: Frame)
    requires Sorted(fs) && 0 < p <= |fs| && Fits(fs, p, f)
    ensures Sorted(fs[1..]) && Fits(fs[1..], p - 1, f)
  {
  }

  lemma FitsIsDisjoint(fs: seq<Queued>, p: nat, f: Frame)
    requires Sorted(fs) && p <= |fs| && Fits(fs, p, f)
    ensures forall i :: 0 <= i < |fs| ==> f.End() <= fs[i].f.off || fs[i].f.End() <= f.off
  {
    forall i | 0 <= i < |fs| ensures f.End() <= fs[i].f.off || fs[i].f.End() <= f.off {
      if i < p {
        assert i < p - 1 ==> fs[i].f.End() <= fs[p - 1].f.off;
      } else {
        assert p < i ==> fs[p].f.End() <= fs[i].f.off;
      }
    }
  }

  /** An insert reported OK adds exactly the bytes of the new frame, none of which was queued,
      and nothing that was read already; any other insert changes nothing at all. */
  lemma InsertStoresExactly(s: LState, f: Frame, r: nat)
    requires Inv(s, r)
    ensures var (s', res) := Insert(s, f, r);
            && (res == Ok ==>
                  && Queue(s'.frames) == Queue(s.frames) + Content(f)
                  && (forall o: nat :: f.Covers(o) ==> o !in Queue(s.frames) && r <= o)
                  && (f.fin ==> s'.finSet && s'.finOff == f.End()))
            && (res != Ok ==> s' == s)
  {
    if Insert(s, f, r).1 == Ok {
      OkFits(s, f, r);
      var p := Pos(s.frames, f.off);
      QueueAfterInsertAt(s.frames, p, f);
      FitsIsDisjoint(s.frames, p, f);
      QueueIsCovered(s.frames, f);
    }
  }

  /** The frame contradicts the final size, or FIN lies before what was read. */
  predicate BreaksFinalSize(s: LState, f: Frame, r: nat) {
    || (f.fin && f.End() < r)
    || (s.finSet && r <= f.End() && (f.End() > s.finOff || (f.fin && f.End() != s.finOff)))
  }

  /** The last queued frame that starts at or before `f` has its offset and its size. */
  predicate Twin(fs: seq<Queued>, i: nat, f: Frame) {
    && i < |fs| && (i + 1 < |fs| ==> f.off < fs[i + 1].f.off)
    && fs[i].f.off == f.off && |fs[i].f.data| == |f.data|
  }

  /** The frame is behind the read offset, or there with no FIN that is news, or queued already. */
  predicate Known(s: LState, f: Frame, r: nat) {
    || f.End() < r
    || (f.End() == r && (s.finSet || !f.fin))
    || exists i :: 0 <= i < |s.frames| && Twin(s.frames, i, f) && (f.fin ==> s.frames[i].f.fin)
  }

  /** One frame starts inside the other. */
  predicate Meets(a: Frame, f: Frame) {
    a.off <= f.off < a.End() || f.off < a.off < f.End()
  }

  /** The frame is partly read, or meets a queued frame, or has its offset and size. */
  predicate Conflicts(s: LState, f: Frame, r: nat) {
    || f.off < r
    || exists i :: 0 <= i < |s.frames| && (Meets(s.frames[i].f, f) || Twin(s.frames, i, f))
  }

  /** Which of the four verdicts a frame gets, by what is queued. */
  lemma InsertVerdict(s: LState, f: Frame, r: nat)
    requires Inv(s, r)
    ensures Insert(s, f, r).1 == Err <==> BreaksFinalSize(s, f, r)
    ensures Insert(s, f, r).1 == Dup <==> !BreaksFinalSize(s, f, r) && Known(s, f, r)
    ensures Insert(s, f, r).1 == Overlap <==>
      !BreaksFinalSize(s, f, r) && !Known(s, f, r) && Conflicts(s, f, r)
    ensures Insert(s, f, r).1 == Ok <==>
      !BreaksFinalSize(s, f, r) && !Known(s, f, r) && !Conflicts(s, f, r)
  {
    hide Sorted, Pos, Twin, Meets;
    TwinIsLast(s.frames, f);
    MeetsNeighbour(s.frames, f);
    PartlyRead(s.frames, f.off, r);
  }

  lemma TwinIsLast(fs: seq<Queued>, f: Frame)
    requires Sorted(fs)
    ensures var p := Pos(fs, f.off);
            forall i: nat :: Twin(fs, i, f) <==>
              i == p - 1 && fs[i].f.off == f.off && |fs[i].f.data| == |f.data|
  {
    PosSplits(fs, f.off);
  }

  /** A frame that meets another meets a neighbour. */
  lemma MeetsNeighbour(fs: seq<Queued>, f: Frame)
    requires Sorted(fs)
    ensures var p := Pos(fs, f.off);
            (exists i :: 0 <= i < |fs| && Meets(fs[i].f, f)) <==>
              (p > 0 && f.off < fs[p - 1].f.End()) || (p < |fs| && fs[p].f.off < f.End())
  {
    var p := Pos(fs, f.off);
    PosSplits(fs, f.off);
    if i :| 0 <= i < |fs| && Meets(fs[i].f, f) {
      assert p < i ==> fs[p].f.End() <= fs[i].f.off;
    }
    if p > 0 && f.off < fs[p - 1].f.End() {
      assert Meets(fs[p - 1].f, f);
    }
    if p < |fs| && fs[p].f.off < f.End() {
      assert Meets(fs[p].f, f);
    }
  }

  /** Where the list has read past an offset, the frame before it does too. */
  lemma PartlyRead(fs: seq<Queued>, off: nat, r: nat)
    requires Sorted(fs) && ReadUpTo(fs, r)
    ensures var p := Pos(fs, off); p > 0 && off < r ==> off < fs[p - 1].f.End()
  {
  }

  /** In particular a frame with bytes is linked in exactly when it is neither refused, nor partly
      read, nor overlaps a queued frame. */
  lemma InsertAccepts(s: LState, f: Frame, r: nat)
    requires Inv(s, r)
    ensures f.data != [] ==>
      (Insert(s, f, r).1 == Ok <==>
         && !BreaksFinalSize(s, f, r) && r <= f.off
         && forall i :: 0 <= i < |s.frames| ==> s.frames[i].f.End() <= f.off || f.End() <= s.frames[i].f.off)
  {
    var fs, p := s.frames, Pos(s.frames, f.off);
    PosSplits(fs, f.off);
    if Insert(s, f, r).1 == Ok {
      OkFits(s, f, r);
      FitsIsDisjoint(fs, p, f);
    }
  }

  /** So a frame that keeps to the final size and brings an unread byte that is not queued, or a
      FIN that is not known, is linked in or makes the list give way. */
  lemma NewsIsNotRefused(s: LState, f: Frame, r: nat)
    requires Inv(s, r) && !BreaksFinalSize(s, f, r)
    requires (exists o: nat :: f.Covers(o) && r <= o && o !in Queue(s.frames)) || (f.fin && !s.finSet)
    ensures Insert(s, f, r).1 in {Ok, Overlap}
  {
    InsertVerdict(s, f, r);
    if Insert(s, f, r).1 == Dup {
      DupBringsNothing(s, f, r);
    }
  }

  /** An insert reported DUP brings no unread byte that is not queued and no FIN that is not known. */
  lemma DupBringsNothing(s: LState, f: Frame, r: nat)
    requires Inv(s, r) && Insert(s, f, r).1 == Dup
    ensures forall o: nat :: f.Covers(o) && r <= o ==> o in Queue(s.frames)
    ensures f.fin ==> s.finSet && s.finOff == f.End()
  {
    forall o: nat | f.Covers(o) && r <= o ensures o in Queue(s.frames) {
      var p := Pos(s.frames, f.off);
      assert s.frames[p - 1].f.Covers(o);
      QueueCovers(s.frames, o);
    }
  }

  // ---------------------------------------------------------------- reading

  /** There is a frame to hand out exactly when some queued frame is read up to the read offset;
      so there is one whenever the byte at the read offset is queued, or FIN is queued there. */
  lemma CanGetIff(s: LState, r: nat)
    requires Inv(s, r)
    ensures CanGet(s, r) <==> exists i :: 0 <= i < |s.frames| && s.frames[i].Roff() == r
    ensures r in Queue(s.frames) ==> CanGet(s, r)
    ensures s.finSet && !s.finReached && s.finOff == r ==> CanGet(s, r)
    ensures CanGet(s, r) ==> r in Queue(s.frames) || s.frames[0].f.End() == r
  {
    var fs := s.frames;
    forall i | 0 <= i < |fs| && fs[i].Roff() == r ensures fs[0].Roff() == r {
      assert i > 0 ==> fs[0].f.End() <= fs[i].f.off;
    }
    QueueCovers(fs, r);
    if r in Queue(fs) {
      var i :| 0 <= i < |fs| && fs[i].f.Covers(r);
      assert fs[i].Roff() == r;
    }
    if s.finSet && !s.finReached && s.finOff == r {
      var i :| 0 <= i < |fs| && fs[i].f.fin && fs[i].f.End() == r;
      assert fs[i].Roff() == r;
    }
    if CanGet(s, r) && fs[0].f.End() != r {
      assert fs[0].f.Covers(r);
    }
  }

  /** Handing out the first frame hands out the unread bytes at the read offset. */
  lemma GetHandsOut(s: LState, r: nat)
    requires Inv(s, r) && CanGet(s, r)
    ensures forall o: nat :: r <= o < s.frames[0].f.End() ==>
              o in Queue(s.frames) && Queue(s.frames)[o] == s.frames[0].f.ByteAt(o)
  {
    var f := s.frames[0].f;
    forall o: nat | r <= o < f.End()
      ensures o in Queue(s.frames) && Queue(s.frames)[o] == f.ByteAt(o)
    {
      assert f.Covers(o);
      QueueCovers(s.frames[1..], o);
    }
  }

  lemma ReadKeepsInv(s: LState, r: nat, n: nat)
    requires Inv(s, r) && CanGet(s, r) && s.frames[0].readOff + n <= |s.frames[0].f.data|
    ensures Inv(Read(s, n), r + n)
    ensures Queue(Read(s, n).frames) == Queue(s.frames)
  {
    var fs, gs := s.frames, Read(s, n).frames;
    assert fs[1..] == gs[1..];
    SameFramesSameFacts(fs, gs);
    ReadKeepsOrder(fs, gs, r, n);
    ReadKeepsFin(s, n);
    hide Sorted, ReadUpTo, FinKnown, Holes, ByteSum, Queue;
  }

  lemma ReadKeepsOrder(fs: seq<Queued>, gs: seq<Queued>, r: nat, n: nat)
    requires Sorted(fs) && ReadUpTo(fs, r) && fs != [] && fs[0].Roff() == r
    requires fs[0].readOff + n <= |fs[0].f.data|
    requires gs == [fs[0].(readOff := fs[0].readOff + n)] + fs[1..]
    ensures Sorted(gs) && ReadUpTo(gs, r + n)
  {
    forall i | 0 <= i < |fs| ensures gs[i].f == fs[i].f {
    }
    forall i | 0 < i < |fs| ensures r + n <= gs[i].Roff() && gs[i].readOff == 0 {
      assert fs[0].f.End() <= fs[i].f.off;
    }
  }

  lemma ReadKeepsFin(s: LState, n: nat)
    requires FinKnown(s) && s.frames != []
    ensures FinKnown(Read(s, n))
  {
    var fs, gs := s.frames, Read(s, n).frames;
    forall i | 0 <= i < |fs| ensures gs[i].f == fs[i].f {
    }
    if s.finSet && !s.finReached {
      var i :| 0 <= i < |fs| && fs[i].f.fin && fs[i].f.End() == s.finOff;
      assert gs[i].f == fs[i].f;
    }
  }

  /** Read positions do not enter the counters or the bytes queued. */
  lemma SameFramesSameFacts(fs: seq<Queued>, gs: seq<Queued>)
    requires fs != [] && |gs| == |fs| && gs[0].f == fs[0].f && gs[1..] == fs[1..]
    ensures Queue(gs) == Queue(fs) && ByteSum(gs) == ByteSum(fs) && Holes(gs) == Holes(fs)
  {
    if |fs| > 1 {
      assert gs[1] == gs[1..][0] && fs[1] == fs[1..][0];
    }
  }

  /** Releasing a frame that was read to its end loses no unread byte and remembers its FIN. */
  lemma DoneKeepsInv(s: LState, r: nat)
    requires Inv(s, r) && CanGet(s, r) && s.frames[0].readOff == |s.frames[0].f.data|
    ensures s.byteage >= |s.frames[0].f.data| && s.nFrames > 0
    ensures Inv(Done(s), r)
    ensures From(Queue(Done(s).frames), r) == From(Queue(s.frames), r)
  {
    var fs, s' := s.frames, Done(s);
    assert |fs| == 1 ==> Holes(fs[1..]) == 0;
    forall i | 0 <= i < |fs[1..]| ensures fs[1..][i] == fs[i + 1] && fs[i + 1].readOff == 0 {
    }
    if s'.finSet && !s'.finReached {
      var i :| 0 <= i < |fs| && fs[i].f.fin && fs[i].f.End() == s.finOff;
      assert fs[1..][i - 1].f.fin;
    }
  }
}
