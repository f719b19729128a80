/** Changing from the list handler to the hash handler in the middle of a stream. */
module Switching {
  import opened Basics
  import opened StreamData
  import N = NocopySpec
  import H = HashSpec

  /** Feeding queued frames to a hash handler, first to last; None when one is refused. */
  function InsertAll(h: H.HState, fs: seq<N.Queued>, r: nat): (res: Option<H.HState>)
    decreases |fs|
  {
    if fs == [] then Some(h)
    else
      var (h', ins) := H.Insert(h, fs[0].f, r);
      if ins == Err then None else InsertAll(h', fs[1..], r)
  }

  ghost predicate HasFin(fs: seq<N.Queued>) {
    exists i :: 0 <= i < |fs| && fs[i].f.fin
  }

  ghost predicate NonePast(fs: seq<N.Queued>, fin: nat) {
    forall i :: 0 <= i < |fs| ==> fs[i].f.End() <= fin
  }

  /** What the hash handler holds so far lies before the frames still to come, which are sorted,
      unread, and agree on where FIN is. */
  ghost predicate Ahead(h: H.HState, fs: seq<N.Queued>, r: nat, fin: nat) {
    && H.Inv(h) && N.Sorted(fs)
    && (forall i :: 0 <= i < |fs| ==> r <= fs[i].f.End() && (fs[i].f.fin ==> fs[i].f.End() == fin))
    && (h.fin.Some? ==> h.fin.value == fin)
    && (fs != [] ==>
          && (forall o :: o in h.bytes ==> o < fs[0].f.off)
          && (forall k :: k in h.keys ==> k <= fs[0].f.off)
          && (h.fin.Some? ==> fin <= fs[0].f.off))
  }

  /** The first frame is refused only for lying past a FIN that was recorded already. */
  lemma FirstInsert(h: H.HState, fs: seq<N.Queued>, r: nat, fin: nat)
    requires Ahead(h, fs, r, fin) && fs != []
    ensures var f := fs[0].f;
            var (h', ins) := H.Insert(h, f, r);
            if h.fin.Some? && fin < f.End() then ins == Err
            else && ins == Ok
                 && From(h'.bytes, r) == From(h.bytes, r) + From(Content(f), r)
                 && h'.fin == (if f.fin then Some(fin) else h.fin)
                 && Ahead(h', fs[1..], r, fin)
  {
    var f := fs[0].f;
    var (h', ins) := H.Insert(h, f, r);
    H.InsertKeepsInv(h, f, r);
    H.InsertStoresExactly(h, f, r);
    if H.Stores(h, f, r) {
      var t := H.Trim(f, r);
      CopyIsBehind(h, f, r);
      if |fs| > 1 {
        assert f.End() <= fs[1].f.off;
      }
      assert N.Sorted(fs[1..]);
    }
  }

  /** Copying a frame behind which nothing is stored leaves nothing behind its end. */
  lemma CopyIsBehind(h: H.HState, f: Frame, r: nat)
    requires H.Inv(h) && r <= f.End()
    requires forall o :: o in h.bytes ==> o < f.off
    requires forall k :: k in h.keys ==> k <= f.off
    ensures var t := H.Trim(f, r);
            var h' := H.Copy(h, t);
            && (forall o :: o in h'.bytes ==> o < f.End())
            && (forall k :: k in h'.keys ==> k <= f.End())
            && !H.SeesPastFin(h', t)
  {
    var t := H.Trim(f, r);
    var h' := H.Copy(h, t);
    forall k | k in h'.keys ensures k <= f.End() && k != H.LastKey(t) + H.BLOCK {
      if k in H.Touched(t) {
        assert k <= H.LastKey(t) <= t.End();
      } else {
        LastKeyIsFar(t);
      }
    }
    forall o | o in h'.bytes ensures o < f.End() {
      assert t.Covers(o) ==> o < t.End();
    }
  }

  lemma LastKeyIsFar(t: Frame)
    ensures t.off < H.LastKey(t) + H.BLOCK
  {
    if t.data != [] {
      H.KeyMonotone(t.off, t.End() - 1);
    }
  }

  /** All frames go in, with exactly their unread bytes and with FIN where they say it is, unless
      one of them lies past FIN. */
  lemma {:induction false} InsertAllKeeps(h: H.HState, fs: seq<N.Queued>, r: nat, fin: nat)
    requires Ahead(h, fs, r, fin)
    ensures var known := h.fin.Some? || HasFin(fs);
            var res := InsertAll(h, fs, r);
            && (res.None? <==> known && !NonePast(fs, fin))
            && (res.Some? ==>
                  && H.Inv(res.value)
                  && From(res.value.bytes, r) == From(h.bytes, r) + From(N.Queue(fs), r)
                  && res.value.fin == (if known then Some(fin) else None))
    decreases |fs|
  {
    if fs == [] {
    } else {
      FirstInsert(h, fs, r, fin);
      var f := fs[0].f;
      var (h', ins) := H.Insert(h, f, r);
      SplitFin(fs, fin);
      if ins == Ok {
        InsertAllKeeps(h', fs[1..], r, fin);
        FirstIsNotPast(h, fs, r, fin);
        FromOfUnion(Content(f), N.Queue(fs[1..]), r);
        N.MapsAssociate(From(h.bytes, r), From(Content(f), r), From(N.Queue(fs[1..]), r));
      }
    }
  }

  lemma SplitFin(fs: seq<N.Queued>, fin: nat)
    requires fs != []
    ensures HasFin(fs) <==> fs[0].f.fin || HasFin(fs[1..])
    ensures NonePast(fs, fin) <==> fs[0].f.End() <= fin && NonePast(fs[1..], fin)
  {
    if HasFin(fs[1..]) {
      var i :| 0 <= i < |fs[1..]| && fs[1..][i].f.fin;
      assert fs[i + 1].f.fin;
    }
    if i :| 0 <= i < |fs| && fs[i].f.fin {
      assert i > 0 ==> fs[1..][i - 1].f.fin;
    }
    forall i | 0 <= i < |fs[1..]| ensures fs[1..][i] == fs[i + 1] {
    }
    if fs[0].f.End() <= fin && NonePast(fs[1..], fin) {
      forall i | 0 <= i < |fs| ensures fs[i].f.End() <= fin {
        assert i > 0 ==> fs[i] == fs[1..][i - 1];
      }
    }
  }

  /** A frame before the FIN frame ends before FIN. */
  lemma FirstIsNotPast(h: H.HState, fs: seq<N.Queued>, r: nat, fin: nat)
    requires Ahead(h, fs, r, fin) && fs != []
    requires h.fin.None? || fs[0].f.End() <= fin
    ensures h.fin.Some? || HasFin(fs) ==> fs[0].f.End() <= fin
  {
    if HasFin(fs) {
      var i :| 0 <= i < |fs| && fs[i].f.fin;
      assert i > 0 ==> fs[0].f.End() <= fs[i].f.off;
    }
  }

  lemma FromOfUnion(a: Bytes, b: Bytes, r: nat)
    ensures From(a + b, r) == From(a, r) + From(b, r)
  {
  }

  /** nocopy_di_switch_impl succeeds exactly when no queued frame lies past a queued FIN; then the
      hash handler has every unread byte of the list and no other, and FIN exactly when the FIN
      frame was still queued. */
  lemma SwitchKeepsUnread(s: N.LState, r: nat)
    requires N.Inv(s, r)
    ensures var res := InsertAll(H.EMPTY, s.frames, r);
            && (res.None? <==> HasFin(s.frames) && !NonePast(s.frames, s.finOff))
            && (res.Some? ==>
                  && H.Inv(res.value)
                  && From(res.value.bytes, r) == From(N.Queue(s.frames), r)
                  && res.value.fin == (if HasFin(s.frames) then Some(s.finOff) else None))
  {
    StartsAhead(s, r);
    hide Ahead, N.Inv, H.Inv, HasFin, NonePast, InsertAll, N.Queue;
    InsertAllKeeps(H.EMPTY, s.frames, r, s.finOff);
    FromNothing(N.Queue(s.frames), r);
  }

  lemma StartsAhead(s: N.LState, r: nat)
    requires N.Inv(s, r)
    ensures Ahead(H.EMPTY, s.frames, r, s.finOff)
  {
  }

  lemma FromNothing(m: Bytes, r: nat)
    ensures From(H.EMPTY.bytes, r) + From(m, r) == From(m, r)
  {
    assert From(H.EMPTY.bytes, r) == map[];
  }
}
