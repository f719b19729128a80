/** The memory of a stream over the hash handler: blocks that are read are given back. */
module StreamBlocks {
  import opened Basics
  import opened StreamData
  import N = NocopySpec
  import H = HashSpec
  import opened Switching
  import opened StreamRun

  /** No block lies wholly before the read offset, but for the one the reader has just read to its
      end and must release next. */
  ghost predicate NoStale(s: Stream) {
    s.handler.Hash? ==>
      forall k :: k in s.handler.h.keys ==>
        s.r < k + H.BLOCK || (s.got.FromHash? && s.got.v.block == Some(k) && s.r == k + H.BLOCK && Due(s))
  }

  /** All blocks of the table reach past `r`. */
  ghost predicate Ahead(h: H.HState, r: nat) {
    forall k :: k in h.keys ==> r < k + H.BLOCK
  }

  lemma InsertAhead(h: H.HState, f: Frame, r: nat)
    requires Ahead(h, r)
    ensures Ahead(H.Insert(h, f, r).0, r)
  {
    if r <= f.End() {
      var t := H.Trim(f, r);
      forall k | k in H.Touched(t) ensures r < k + H.BLOCK {
        assert H.Key(t.off) <= k;
      }
    }
  }

  lemma {:induction false} InsertAllAhead(h: H.HState, fs: seq<N.Queued>, r: nat)
    requires Ahead(h, r) && InsertAll(h, fs, r).Some?
    ensures Ahead(InsertAll(h, fs, r).value, r)
    decreases |fs|
  {
    hide Ahead, H.Insert;
    if fs != [] {
      InsertAhead(h, fs[0].f, r);
      InsertAllAhead(H.Insert(h, fs[0].f, r).0, fs[1..], r);
    }
  }

  lemma ArriveStale(s: Stream, f: Frame)
    requires NoStale(s) && !Due(s)
    ensures NoStale(ArriveAt(s, f))
  {
    hide H.Insert, N.Insert;
    match s.handler
    case List(l) =>
      var h := InsertAll(H.EMPTY, l.frames, s.r);
      if N.Insert(l, f, s.r).1 == Overlap && h.Some? {
        InsertAllAhead(H.EMPTY, l.frames, s.r);
        InsertAhead(h.value, f, s.r);
      }
    case Hash(h) => InsertAhead(h, f, s.r);
    case Broken =>
  }

  lemma AlignedApart(j: nat, k: nat)
    requires H.Aligned(j) && H.Aligned(k) && j < k + H.BLOCK && k < j + H.BLOCK
    ensures j == k
  {
  }

  /** Where the reader is in the block of the frame it holds. */
  lemma InBlock(s: Stream)
    requires HandlerOk(s) && s.handler.Hash? && s.got.FromHash? && s.got.v.block.Some?
    ensures var k := s.got.v.block.value;
            && k in s.handler.h.keys && k == H.Key(s.at) && s.r == k + s.got.v.readOff <= k + H.BLOCK
            && (s.r == k + H.BLOCK ==> s.at < s.r && Left(s) == 0)
  {
    H.GetHandsOutRun(s.handler.h, s.at);
    hide H.RunBelow;
  }

  lemma TakeStale(s: Stream, n: nat)
    requires HandlerOk(s) && NoStale(s) && Enabled(s, Take(n)) && s.handler.Hash?
    ensures NoStale(TakeFrom(s, n))
  {
    hide H.Get;
    var h, v, s' := s.handler.h, s.got.v, TakeFrom(s, n);
    TakeKeepsHandler(s, n);
    if v.block.Some? {
      InBlock(s);
      InBlock(s');
      forall k | k in h.keys && k != v.block.value ensures s'.r < k + H.BLOCK {
        if k <= v.block.value {
          assert s.r < k + H.BLOCK;
          AlignedApart(k, v.block.value);
        }
      }
    }
  }

  lemma ReleaseStale(s: Stream)
    requires HandlerOk(s) && NoStale(s) && Enabled(s, Release) && s.handler.Hash?
    ensures NoStale(ReleaseFrame(s))
  {
    hide H.Get, H.Done;
    var h, v := s.handler.h, s.got.v;
    if v.block.Some? {
      InBlock(s);
      H.DoneFreesIff(h, v);
      var k := v.block.value;
      var h' := H.Done(h, v);
      assert forall j :: j in h'.keys && j != k ==> j in h'.keys - {k};
      assert forall j :: j in h.keys - {k} ==> j in h.keys;
      if s.r == k + H.BLOCK {
        assert !H.HasUnread(h, v);
      }
    } else {
      NothingToFree(h, v);
    }
  }

  lemma NothingToFree(h: H.HState, v: H.View)
    requires v.block.None?
    ensures H.Done(h, v) == h
  {
  }

  lemma StepStale(s: Stream, e: Event)
    requires HandlerOk(s) && NoStale(s) && Enabled(s, e)
    ensures NoStale(Step(s, e))
  {
    match e {
      case Arrive(f) => ArriveStale(s, f);
      case Get =>
      case Take(n) =>
        if s.handler.Hash? {
          TakeStale(s, n);
        }
      case Release =>
        if s.handler.Hash? {
          ReleaseStale(s);
        }
      case Switch =>
        if s.handler.List? && InsertAll(H.EMPTY, s.handler.l.frames, s.r).Some? {
          InsertAllAhead(H.EMPTY, s.handler.l.frames, s.r);
        }
    }
  }

  /** In every state of every run, whatever its frames say, no block is kept that lies wholly before
      the read offset. */
  lemma {:induction false} RunKeepsNoStale(s: Stream, es: seq<Event>)
    requires HandlerOk(s) && NoStale(s) && Legal(s, es)
    ensures NoStale(Run(s, es))
    decreases |es|
  {
    if es != [] {
      StepStale(s, es[0]);
      StepKeepsHandler(s, es[0]);
      hide NoStale, HandlerOk, Step, Enabled;
      RunKeepsNoStale(Step(s, es[0]), es[1..]);
    }
  }

  lemma ReadBlocksAreFreed(start: Stream, es: seq<Event>)
    requires start in {START_LIST, START_HASH} && Legal(start, es)
    ensures NoStale(Run(start, es))
  {
    StartsAreOk(start);
    RunKeepsNoStale(start, es);
  }

  /** A block of the table has an unread byte. */
  ghost predicate HoldsUnread(s: Stream, k: nat) {
    s.handler.Hash? && exists o :: o in s.handler.h.bytes && s.r <= o && k <= o < k + H.BLOCK
  }

  /**
   * After a release in any run the block that was read from is in the table if and
   * only if it holds an unread byte, and the other blocks stay.  So the stream may go
   * back to a list right after it if and only if there is no FIN, no other block, and
   * no unread byte in this one.
   */
  lemma ReleaseFreesIff(start: Stream, es: seq<Event>, k: nat)
    requires start in {START_LIST, START_HASH} && Legal(start, es) && Enabled(Run(start, es), Release)
    requires var s := Run(start, es); s.handler.Hash? && s.got.FromHash? && s.got.v.block == Some(k)
    ensures var s := Run(start, es);
            var s' := Step(s, Release);
            && s'.handler.Hash? && k in s.handler.h.keys
            && (k in s'.handler.h.keys <==> HoldsUnread(s, k))
            && s'.handler.h.keys - {k} == s.handler.h.keys - {k}
            && (Enabled(s', Switch) <==>
                  s.handler.h.fin == None && s.handler.h.keys == {k} && !HoldsUnread(s, k))
  {
    StartsAreOk(start);
    RunKeepsHandler(start, es);
    hide Run, Legal, HandlerOk, Enabled, Step, HoldsUnread;
    ReleaseFrees(Run(start, es), k);
  }

  lemma ReleaseFrees(s: Stream, k: nat)
    requires HandlerOk(s) && Enabled(s, Release) && s.handler.Hash? && s.got.FromHash? && s.got.v.block == Some(k)
    ensures var s' := Step(s, Release);
            && s'.handler.Hash? && k in s.handler.h.keys
            && (k in s'.handler.h.keys <==> HoldsUnread(s, k))
            && s'.handler.h.keys - {k} == s.handler.h.keys - {k}
            && (Enabled(s', Switch) <==>
                  s.handler.h.fin == None && s.handler.h.keys == {k} && !HoldsUnread(s, k))
  {
    hide H.Get, H.Done, H.Inv;
    InBlock(s);
    H.DoneFreesIff(s.handler.h, s.got.v);
    assert HoldsUnread(s, k) <==> H.HasUnread(s.handler.h, s.got.v);
    OnlyBlock(s.handler.h.keys, H.Done(s.handler.h, s.got.v).keys, k);
  }

  lemma OnlyBlock(ks: set<nat>, ks': set<nat>, k: nat)
    requires k in ks && ks' - {k} == ks - {k}
    ensures ks' == {} <==> k !in ks' && ks == {k}
  {
    if ks' == {} {
      assert forall j :: j in ks && j != k ==> j in ks - {k};
    }
    if k !in ks' && ks == {k} {
      assert forall j :: j in ks' ==> j in ks' - {k};
    }
  }
}
