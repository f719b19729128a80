/** Whole runs of a stream over either handler: frames arrive, the reader gets, reads and
    releases, and the handler may be switched in between.

    The reader's protocol is the one of read_data_frames: get, read, done.  A frame that was got
    is not used again after another frame arrived or the handler was switched.  When a frame whose
    FIN flag is set is done, the stream has ended for the reader, and it gets nothing more.
*/
module StreamRun {
  import opened Basics
  import opened StreamData
  import N = NocopySpec
  import H = HashSpec
  import opened Switching

  datatype Handler = List(l: N.LState) | Hash(h: H.HState) | Broken

  /** What the reader holds between get and done. */
  datatype Got = Nothing | FromList | FromHash(v: H.View)

  /** `at` is the read offset at which the last frame was got, `ended` is STREAM_FIN_REACHED, `out`
      is everything handed to the reader, `kept` every byte a handler took in. */
  datatype Stream = Stream(handler: Handler, r: nat, got: Got, at: nat, ended: bool, out: seq<byte>, kept: Bytes)

  datatype Event = Arrive(f: Frame) | Get | Take(n: nat) | Release | Switch

  const START_LIST: Stream := Stream(List(N.EMPTY), 0, Nothing, 0, false, [], map[])
  const START_HASH: Stream := Stream(Hash(H.EMPTY), 0, Nothing, 0, false, [], map[])

  /** Bytes the reader may still take from the frame it holds. */
  function Left(s: Stream): int {
    match (s.handler, s.got)
    case (List(l), FromList) => if l.frames == [] then 0 else |l.frames[0].f.data| - l.frames[0].readOff
    case (Hash(h), FromHash(v)) => v.size - v.readOff
    case _ => 0
  }

  /** The reader has just read the frame it holds to its end, so that done is next. */
  predicate Due(s: Stream) {
    s.got != Nothing && Left(s) == 0 && s.at < s.r
  }

  /** The caller's side of the protocol. */
  predicate Enabled(s: Stream, e: Event) {
    match e
    case Arrive(f) => !Due(s)
    case Get => !Due(s)
    case Take(n) => s.got != Nothing && n <= Left(s)
    case Release => s.got != Nothing && Left(s) == 0
    case Switch =>
      && !Due(s) && !s.handler.Broken?
      && (s.handler.Hash? ==> s.handler.h.keys == {} && s.handler.h.fin == None)
  }

  /** A frame goes to the hash handler. */
  function ArriveHash(s: Stream, h: H.HState, f: Frame): (s': Stream) {
    s.(handler := Hash(H.Insert(h, f, s.r).0), got := Nothing,
       kept := if H.Stores(h, f, s.r) then s.kept + From(Content(f), s.r) else s.kept)
  }

  /** lsquic_stream_frame_in: an overlap makes the list give way to a hash handler. */
  function ArriveAt(s: Stream, f: Frame): (s': Stream) {
    match s.handler
    case List(l) =>
      var (l', res) := N.Insert(l, f, s.r);
      if res == Overlap then
        match InsertAll(H.EMPTY, l.frames, s.r)
        case None => s.(handler := Broken, got := Nothing)
        case Some(h) => ArriveHash(s, h, f)
      else
        s.(handler := List(l'), got := Nothing,
           kept := if res == Ok then s.kept + From(Content(f), s.r) else s.kept)
    case Hash(h) => ArriveHash(s, h, f)
    case Broken => s
  }

  /** di_get_frame, which lsquic_stream_readf does not come to once the stream has ended. */
  function GetAt(s: Stream): (s': Stream) {
    if s.ended then s.(got := Nothing)
    else
      match s.handler
      case List(l) => s.(got := if N.CanGet(l, s.r) then FromList else Nothing, at := s.r)
      case Hash(h) => s.(got := match H.Get(h, s.r) case Some(v) => FromHash(v) case None => Nothing, at := s.r)
      case Broken => s.(got := Nothing)
  }

  /** The FIN flag of the frame the reader holds. */
  predicate GotFin(s: Stream) {
    match (s.handler, s.got)
    case (List(l), FromList) => l.frames != [] && l.frames[0].f.fin
    case (Hash(h), FromHash(v)) => v.fin
    case _ => false
  }

  /** The bytes `m` holds at `r`, `n` of them, as a read copies them out. */
  function Slice(m: Bytes, r: nat, n: nat): (out: seq<byte>)
    ensures |out| == n
  {
    seq(n, i requires 0 <= i => if r + i in m then m[r + i] else 0)
  }

  function TakeFrom(s: Stream, n: nat): (s': Stream) {
    match (s.handler, s.got)
    case (List(l), FromList) =>
      if l.frames == [] then s
      else s.(handler := List(N.Read(l, n)), r := s.r + n, out := s.out + Slice(Content(l.frames[0].f), s.r, n))
    case (Hash(h), FromHash(v)) =>
      s.(r := s.r + n, out := s.out + Slice(h.bytes, s.r, n), got := FromHash(v.(readOff := v.readOff + n)))
    case _ => s
  }

  function ReleaseFrame(s: Stream): (s': Stream) {
    match (s.handler, s.got)
    case (List(l), FromList) =>
      if l.frames == [] then s
      else s.(handler := List(N.Done(l)), got := Nothing, ended := s.ended || GotFin(s))
    case (Hash(h), FromHash(v)) => s.(handler := Hash(H.Done(h, v)), got := Nothing, ended := s.ended || GotFin(s))
    case _ => s
  }

  function SwitchHandler(s: Stream): (s': Stream) {
    match s.handler
    case List(l) =>
      (match InsertAll(H.EMPTY, l.frames, s.r)
       case None => s.(handler := Broken, got := Nothing)
       case Some(h) => s.(handler := Hash(h), got := Nothing))
    case Hash(h) => s.(handler := List(N.EMPTY), got := Nothing)
    case Broken => s
  }

  function Step(s: Stream, e: Event): (s': Stream) {
    match e
    case Arrive(f) => ArriveAt(s, f)
    case Get => GetAt(s)
    case Take(n) => TakeFrom(s, n)
    case Release => ReleaseFrame(s)
    case Switch => SwitchHandler(s)
  }

  function Run(s: Stream, es: seq<Event>): (s': Stream)
    decreases |es|
  {
    if es == [] then s else Run(Step(s, es[0]), es[1..])
  }

  predicate Legal(s: Stream, es: seq<Event>)
    decreases |es|
  {
    es == [] || (Enabled(s, es[0]) && Legal(Step(s, es[0]), es[1..]))
  }

  // ---------------------------------------------------------------- what every state keeps

  /** The unread bytes the handler can still deliver. */
  function Unread(s: Stream): Bytes {
    match s.handler
    case List(l) => From(N.Queue(l.frames), s.r)
    case Hash(h) => From(h.bytes, s.r)
    case Broken => map[]
  }

  /** The frame the reader holds covers stored bytes at the read offset, in a block that is there. */
  ghost predicate ViewOk(h: H.HState, v: H.View, r: nat) {
    && v.readOff <= v.size <= H.BLOCK
    && (forall o: nat :: r <= o < r + (v.size - v.readOff) ==> o in h.bytes)
    && (v.block.Some? ==> H.Aligned(v.block.value) && r == v.block.value + v.readOff)
    && (v.block.None? ==> v.size == 0)
  }

  /** The frame the reader holds is the one the handler gave at `at`, read up to `r`. */
  ghost predicate ViewIsOf(h: H.HState, v: H.View, at: nat, r: nat) {
    && at <= r && r - at <= v.readOff
    && H.Get(h, at) == Some(v.(readOff := v.readOff - (r - at)))
  }

  ghost predicate HandlerOk(s: Stream) {
    && (s.ended ==> s.got.Nothing?)
    && match s.handler
       case List(l) => N.Inv(l, s.r) && !s.got.FromHash? && (s.got.FromList? ==> N.CanGet(l, s.r))
       case Hash(h) =>
         && H.Inv(h) && !s.got.FromList?
         && (s.got.FromHash? ==> ViewOk(h, s.got.v, s.r) && ViewIsOf(h, s.got.v, s.at, s.r))
       case Broken => s.got.Nothing?
  }

  /** `out` is the stream from its beginning up to the read offset. */
  ghost predicate Delivered(s: Stream, stream: nat -> byte) {
    |s.out| == s.r && forall i: nat :: i < |s.out| ==> s.out[i] == stream(i)
  }

  /** What the handler can still deliver is exactly what it took in and the reader has not had;
      all of it, and all that was delivered, is the stream. */
  ghost predicate Inv(s: Stream, stream: nat -> byte) {
    && HandlerOk(s)
    && (!s.handler.Broken? ==> Unread(s) == From(s.kept, s.r))
    && Agrees(s.kept, stream)
    && Delivered(s, stream)
  }

  lemma KeptGrows(kept: Bytes, f: Frame, r: nat, stream: nat -> byte)
    requires Agrees(kept, stream) && SliceOf(f, stream)
    ensures Agrees(kept + From(Content(f), r), stream)
    ensures From(kept + From(Content(f), r), r) == From(kept, r) + From(Content(f), r)
  {
    SliceAgrees(f, stream);
  }

  lemma ArriveHashKeepsInv(s: Stream, h: H.HState, f: Frame, stream: nat -> byte)
    requires Inv(s, stream) && SliceOf(f, stream)
    requires H.Inv(h) && From(h.bytes, s.r) == From(s.kept, s.r)
    ensures Inv(ArriveHash(s, h, f), stream)
  {
    hide H.Insert, H.Inv, N.Inv, Agrees, SliceOf, H.Stores;
    H.InsertKeepsInv(h, f, s.r);
    H.InsertStoresExactly(h, f, s.r);
    KeptGrows(s.kept, f, s.r, stream);
  }

  lemma ArriveKeepsInv(s: Stream, f: Frame, stream: nat -> byte)
    requires Inv(s, stream) && SliceOf(f, stream)
    ensures Inv(ArriveAt(s, f), stream)
  {
    hide H.Insert, H.Inv, N.Inv, N.Insert, Agrees, SliceOf, ArriveHash, HasFin, NonePast;
    match s.handler
    case List(l) =>
      N.InsertKeepsInv(l, f, s.r);
      N.InsertStoresExactly(l, f, s.r);
      KeptGrows(s.kept, f, s.r, stream);
      SwitchKeepsUnread(l, s.r);
      var (l', res) := N.Insert(l, f, s.r);
      FromOfUnion(N.Queue(l.frames), Content(f), s.r);
      if res == Overlap && InsertAll(H.EMPTY, l.frames, s.r).Some? {
        ArriveHashKeepsInv(s, InsertAll(H.EMPTY, l.frames, s.r).value, f, stream);
      }
    case Hash(h) => ArriveHashKeepsInv(s, h, f, stream);
    case Broken =>
  }

  lemma GetKeepsInv(s: Stream, stream: nat -> byte)
    requires Inv(s, stream)
    ensures Inv(GetAt(s), stream)
  {
    if s.handler.Hash? {
      H.GetHandsOutRun(s.handler.h, s.r);
    }
  }

  /** Taking bytes that are stored delivers the next bytes of the stream. */
  lemma SliceDelivers(s: Stream, m: Bytes, n: nat, stream: nat -> byte)
    requires Delivered(s, stream) && Agrees(s.kept, stream)
    requires forall o: nat :: s.r <= o < s.r + n ==> o in m && o in s.kept && m[o] == s.kept[o]
    ensures var out := s.out + Slice(m, s.r, n);
            |out| == s.r + n && forall i: nat :: i < |out| ==> out[i] == stream(i)
  {
  }

  lemma FromLater(a: Bytes, b: Bytes, r: nat, n: nat)
    requires From(a, r) == From(b, r)
    ensures From(a, r + n) == From(b, r + n)
    ensures forall o: nat :: r <= o && o in a ==> o in b && a[o] == b[o]
  {
    forall o: nat | r <= o && o in a ensures o in b && a[o] == b[o] {
      assert o in From(a, r);
    }
    forall o: nat | r <= o && o in b ensures o in a {
      assert o in From(b, r);
    }
  }

  lemma TakeFromListKeepsInv(s: Stream, n: nat, stream: nat -> byte)
    requires Inv(s, stream) && Enabled(s, Take(n)) && s.handler.List?
    ensures Inv(TakeFrom(s, n), stream)
  {
    hide N.Inv, Agrees;
    var l := s.handler.l;
    N.GetHandsOut(l, s.r);
    FirstFrameBounds(l, s.r);
    N.ReadKeepsInv(l, s.r, n);
    FromLater(N.Queue(l.frames), s.kept, s.r, n);
    SliceDelivers(s, Content(l.frames[0].f), n, stream);
  }

  lemma FirstFrameBounds(l: N.LState, r: nat)
    requires N.Inv(l, r) && N.CanGet(l, r)
    ensures l.frames[0].readOff <= |l.frames[0].f.data|
  {
  }

  lemma TakeFromHashKeepsInv(s: Stream, n: nat, stream: nat -> byte)
    requires Inv(s, stream) && Enabled(s, Take(n)) && s.handler.Hash?
    ensures Inv(TakeFrom(s, n), stream)
  {
    hide H.Inv, H.Aligned, Agrees;
    var h := s.handler.h;
    FromLater(h.bytes, s.kept, s.r, n);
    SliceDelivers(s, h.bytes, n, stream);
  }

  lemma ReleaseKeepsInv(s: Stream, stream: nat -> byte)
    requires Inv(s, stream) && Enabled(s, Release)
    ensures Inv(ReleaseFrame(s), stream)
  {
    match s.handler
    case List(l) => N.DoneKeepsInv(l, s.r);
    case Hash(h) => H.DoneLosesNothingUnread(h, s.got.v, s.r);
    case Broken =>
  }

  lemma SwitchKeepsInv(s: Stream, stream: nat -> byte)
    requires Inv(s, stream) && Enabled(s, Switch)
    ensures Inv(SwitchHandler(s), stream)
  {
    match s.handler
    case List(l) => SwitchKeepsUnread(l, s.r);
    case Hash(h) => assert forall o :: o !in h.bytes;
    case Broken =>
  }

  ghost predicate SlicesOf(es: seq<Event>, stream: nat -> byte) {
    forall i :: 0 <= i < |es| && es[i].Arrive? ==> SliceOf(es[i].f, stream)
  }

  /** Every run of arrivals, reads and switches whose frames are slices of one stream delivers
      exactly that stream, in order and without a gap, and keeps every unread byte it took in. */
  lemma {:induction false} RunDeliversStream(s: Stream, es: seq<Event>, stream: nat -> byte)
    requires Inv(s, stream) && Legal(s, es) && SlicesOf(es, stream)
    ensures Inv(Run(s, es), stream)
    decreases |es|
  {
    if es != [] {
      var s' := Step(s, es[0]);
      match es[0] {
        case Arrive(f) => ArriveKeepsInv(s, f, stream);
        case Get => GetKeepsInv(s, stream);
        case Take(n) =>
          if s.handler.List? {
            TakeFromListKeepsInv(s, n, stream);
          } else if s.handler.Hash? {
            TakeFromHashKeepsInv(s, n, stream);
          }
        case Release => ReleaseKeepsInv(s, stream);
        case Switch => SwitchKeepsInv(s, stream);
      }
      RunDeliversStream(s', es[1..], stream);
    }
  }

  /** The same from the beginning, with either handler: the handler still holds a byte at or past
      the read offset exactly when some insert took it in, and until the stream has ended a get
      hands out a frame whenever it holds the byte at the read offset. */
  lemma EveryRunFromStart(start: Stream, es: seq<Event>, stream: nat -> byte)
    requires start in {START_LIST, START_HASH} && Legal(start, es) && SlicesOf(es, stream)
    ensures var s := Run(start, es);
            && Delivered(s, stream)
            && (!s.handler.Broken? ==>
                  && (forall o: nat :: s.r <= o ==> (o in Unread(s) <==> o in s.kept))
                  && (s.r in s.kept && !s.ended ==> GetAt(s).got != Nothing))
  {
    assert N.Holes([]) == 0;
    RunDeliversStream(start, es, stream);
    var s := Run(start, es);
    if !s.handler.Broken? {
      assert forall o: nat :: s.r <= o ==> (o in s.kept <==> o in From(s.kept, s.r));
      if s.r in s.kept && !s.ended {
        GetHandsOutNext(s);
      }
    }
  }

  lemma GetHandsOutNext(s: Stream)
    requires HandlerOk(s) && s.r in Unread(s) && !s.ended
    ensures GetAt(s).got != Nothing
  {
    if s.handler.List? {
      N.CanGetIff(s.handler.l, s.r);
    } else {
      H.GetHandsOutRun(s.handler.h, s.r);
    }
  }

  // ---------------------------------------------------------------- nothing accepted is lost

  /** What the arrival is reported as, after a switch if there was one. */
  function Outcome(s: Stream, f: Frame): (res: InsFrame) {
    match s.handler
    case List(l) =>
      var res := N.Insert(l, f, s.r).1;
      if res != Overlap then res
      else (match InsertAll(H.EMPTY, l.frames, s.r)
            case None => Err
            case Some(h) => H.Insert(h, f, s.r).1)
    case Hash(h) => H.Insert(h, f, s.r).1
    case Broken => Err
  }

  lemma HashTakesAll(h: H.HState, f: Frame, r: nat)
    requires H.Insert(h, f, r).1 != Err
    ensures forall o: nat :: f.Covers(o) && r <= o ==> o in From(H.Insert(h, f, r).0.bytes, r)
  {
    H.InsertStoresExactly(h, f, r);
  }

  /** A frame that is not refused leaves all its unread bytes deliverable, whichever handler it
      met and whether it was new, a duplicate or an overlap. */
  lemma ArrivalIsNotLost(s: Stream, f: Frame)
    requires HandlerOk(s) && Outcome(s, f) != Err
    ensures forall o: nat :: f.Covers(o) && s.r <= o ==> o in Unread(ArriveAt(s, f))
  {
    hide H.Insert, N.Insert, N.Inv, H.Inv, HasFin, NonePast;
    match s.handler
    case List(l) =>
      var res := N.Insert(l, f, s.r).1;
      if res == Overlap {
        SwitchKeepsUnread(l, s.r);
        HashTakesAll(InsertAll(H.EMPTY, l.frames, s.r).value, f, s.r);
      } else {
        N.InsertStoresExactly(l, f, s.r);
        if res == Dup {
          N.DupBringsNothing(l, f, s.r);
        }
      }
    case Hash(h) => HashTakesAll(h, f, s.r);
    case Broken =>
  }

  // ---------------------------------------------------------------- frames of any kind

  /** Every step keeps the handler's own invariant, whatever the frames say. */
  lemma StepKeepsHandler(s: Stream, e: Event)
    requires HandlerOk(s) && Enabled(s, e)
    ensures HandlerOk(Step(s, e))
  {
    match e {
      case Arrive(f) => ArriveKeepsHandler(s, f);
      case Get =>
        if s.handler.Hash? {
          H.GetHandsOutRun(s.handler.h, s.r);
        }
      case Take(n) => TakeKeepsHandler(s, n);
      case Release => ReleaseKeepsHandler(s);
      case Switch =>
        if s.handler.List? {
          SwitchKeepsUnread(s.handler.l, s.r);
        } else {
          assert N.Holes([]) == 0;
        }
    }
  }

  lemma ArriveKeepsHandler(s: Stream, f: Frame)
    requires HandlerOk(s)
    ensures HandlerOk(ArriveAt(s, f))
  {
    hide H.Insert, N.Insert, H.Inv, N.Inv, HasFin, NonePast;
    match s.handler
    case List(l) =>
      N.InsertKeepsInv(l, f, s.r);
      SwitchKeepsUnread(l, s.r);
      if InsertAll(H.EMPTY, l.frames, s.r).Some? {
        H.InsertKeepsInv(InsertAll(H.EMPTY, l.frames, s.r).value, f, s.r);
      }
    case Hash(h) => H.InsertKeepsInv(h, f, s.r);
    case Broken =>
  }

  lemma TakeKeepsHandler(s: Stream, n: nat)
    requires HandlerOk(s) && Enabled(s, Take(n))
    ensures HandlerOk(TakeFrom(s, n))
  {
    hide H.Inv, N.Inv;
    if s.handler.List? {
      N.ReadKeepsInv(s.handler.l, s.r, n);
    }
  }

  lemma ReleaseKeepsHandler(s: Stream)
    requires HandlerOk(s) && Enabled(s, Release)
    ensures HandlerOk(ReleaseFrame(s))
  {
    hide H.Inv, N.Inv;
    match s.handler
    case List(l) => N.DoneKeepsInv(l, s.r);
    case Hash(h) => H.DoneLosesNothingUnread(h, s.got.v, s.r);
    case Broken =>
  }

  /** So does every run: the list stays sorted and its counters exact, the table stays in order. */
  lemma {:induction false} RunKeepsHandler(s: Stream, es: seq<Event>)
    requires HandlerOk(s) && Legal(s, es)
    ensures HandlerOk(Run(s, es))
    decreases |es|
  {
    if es != [] {
      StepKeepsHandler(s, es[0]);
      RunKeepsHandler(Step(s, es[0]), es[1..]);
    }
  }

  lemma StartsAreOk(start: Stream)
    requires start in {START_LIST, START_HASH}
    ensures HandlerOk(start)
  {
    assert N.Holes([]) == 0;
  }

  // ---------------------------------------------------------------- FIN is final

  ghost predicate FinAt(s: Stream, fin: nat) {
    s.handler.Hash? && s.handler.h.fin == Some(fin) && H.Inv(s.handler.h)
  }

  /** No byte at or past FIN is added; and none is lost that the reader has not passed. */
  lemma FinStays(s: Stream, e: Event, fin: nat)
    requires FinAt(s, fin) && HandlerOk(s) && Enabled(s, e)
    ensures FinAt(Step(s, e), fin)
    ensures forall o :: o in Step(s, e).handler.h.bytes && fin <= o ==> o in s.handler.h.bytes
    ensures s.r <= fin ==>
      && Step(s, e).r <= fin
      && forall o :: o in s.handler.h.bytes && fin <= o ==> o in Step(s, e).handler.h.bytes
  {
    var h := s.handler.h;
    match e {
      case Arrive(f) =>
        H.FinIsFinal(h, f, s.r);
        H.InsertKeepsInv(h, f, s.r);
      case Take(n) =>
        assert s.r <= fin < s.r + n ==> fin in h.bytes;
      case Release =>
        H.DoneLosesNothingUnread(h, s.got.v, s.r);
        assert forall o :: o in h.bytes && s.r <= o ==> o in From(h.bytes, s.r);
      case _ =>
    }
  }

  /** From the moment the hash handler has recorded FIN, every later state of every run, whatever
      its frames say, still has it, has no byte at or past it that was not there, and hands out an
      empty frame with FIN at that offset. */
  lemma {:induction false} FinIsForever(s: Stream, es: seq<Event>, fin: nat)
    requires FinAt(s, fin) && HandlerOk(s) && Legal(s, es)
    ensures FinAt(Run(s, es), fin)
    ensures forall o :: o in Run(s, es).handler.h.bytes && fin <= o ==> o in s.handler.h.bytes
    ensures s.r <= fin ==>
      && Run(s, es).r <= fin
      && forall o :: o in s.handler.h.bytes && fin <= o ==> o in Run(s, es).handler.h.bytes
    ensures H.Get(Run(s, es).handler.h, fin).Some?
    ensures var v := H.Get(Run(s, es).handler.h, fin).value; v.fin && v.size == v.readOff
    decreases |es|
  {
    if es == [] {
      H.GetAtFinIsEmptyFin(s.handler.h, fin);
    } else {
      FinStays(s, es[0], fin);
      StepKeepsHandler(s, es[0]);
      hide Step, HandlerOk;
      FinIsForever(Step(s, es[0]), es[1..], fin);
    }
  }

  /** Once a FIN was accepted, no later state of any run has a byte at or past it if and only if,
      at that moment, no byte was stored beyond the block after the frame's last one. */
  lemma NoBytePastFinOverRuns(s: Stream, f: Frame, es: seq<Event>)
    requires HandlerOk(s) && s.handler.Hash? && f.fin && Outcome(s, f) == Ok
    requires Legal(ArriveAt(s, f), es)
    ensures var later := Run(ArriveAt(s, f), es);
            && FinAt(later, f.End())
            && ((forall o :: o in later.handler.h.bytes ==> o < f.End()) <==>
                (forall o :: o in s.handler.h.bytes ==> o < H.LastKey(H.Trim(f, s.r)) + 2 * H.BLOCK))
  {
    var h := s.handler.h;
    H.NoBytePastFinIff(h, f, s.r);
    H.FinAcceptedIff(h, f, s.r);
    H.InsertKeepsInv(h, f, s.r);
    ArriveKeepsHandler(s, f);
    FinIsForever(ArriveAt(s, f), es, f.End());
    hide H.Insert, H.LastKey, HandlerOk, Run;
  }
}
