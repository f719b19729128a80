/** What the hash handler means: the blocks present, the valid bytes they hold, and FIN. */
module HashSpec {
  import opened Basics
  import opened StreamData
  import DataBlocks

  const BLOCK: nat := DataBlocks.BLOCK

  datatype HState = HState(keys: set<nat>, bytes: Bytes, fin: Option<nat>)

  const EMPTY: HState := HState({}, map[], None)

  /** Blocks start at multiples of the block size. */
  predicate Aligned(k: nat) {
    k % BLOCK == 0
  }

  /** Offset of the block that holds stream offset `off`. */
  function Key(off: nat): (k: nat)
    ensures k <= off < k + BLOCK && Aligned(k)
  {
    off - off % BLOCK
  }

  /** An offset belongs to the block whose range it is in, and to no other. */
  lemma KeyUnique(k: nat, o: nat)
    requires Aligned(k) && k <= o < k + BLOCK
    ensures Key(o) == k
  {
  }

  /** A FIN that was recorded is at an offset where no byte is stored. */
  ghost predicate Inv(s: HState) {
    && (forall k :: k in s.keys ==> Aligned(k))
    && (forall o :: o in s.bytes ==> Key(o) in s.keys)
    && (s.fin.Some? ==> s.fin.value !in s.bytes)
  }

  /** The part of the frame that has not been read yet. */
  function Trim(f: Frame, r: nat): (t: Frame)
    requires r <= f.End()
    ensures t.End() == f.End() && t.off == Max(f.off, r)
    ensures Content(t) == From(Content(f), r)
  {
    if f.off < r then
      var t := f.(off := r, data := f.data[r - f.off..]);
      t
    else
      f
  }

  /** Offset of the last block the copying loop visits. */
  function LastKey(t: Frame): (k: nat)
    ensures k <= t.End() <= k + BLOCK && Aligned(k)
  {
    if t.data == [] then Key(t.off) else Key(t.End() - 1)
  }

  /** Offsets of the blocks the copying loop visits: at least one, even for no bytes. */
  function Touched(t: Frame): (ks: set<nat>) {
    set k: nat | Key(t.off) <= k <= LastKey(t) && Aligned(k)
  }

  /** The frame gets past the checks that reject it before any byte is copied. */
  predicate Stores(s: HState, f: Frame, r: nat) {
    && r <= f.End()
    && (s.fin.Some? ==> f.End() <= s.fin.value && (f.fin ==> f.End() == s.fin.value))
  }

  function Copy(s: HState, t: Frame): (s': HState)
    ensures s'.fin == s.fin
  {
    s.(keys := s.keys + Touched(t), bytes := s.bytes + Content(t))
  }

  /** One round of the copying loop: bytes that fall into the block of `off`. */
  function CopyPart(s: HState, off: nat, data: seq<byte>): (s': HState)
    ensures s'.fin == s.fin
  {
    s.(keys := s.keys + {Key(off)}, bytes := s.bytes + Content(Frame(off, data, false)))
  }

  function Take(t: Frame, n: nat): (p: Frame)
    requires n <= |t.data|
  {
    t.(data := t.data[..n])
  }

  /** The check made before FIN is recorded: a byte in the rest of the block that holds the
      end of the frame, or the next block being present at all. */
  predicate SeesPastFin(s: HState, t: Frame) {
    || (exists o :: o in s.bytes && t.End() <= o < LastKey(t) + BLOCK)
    || LastKey(t) + BLOCK in s.keys
  }

  /** lsquic_data_in_hash_insert_data_frame. */
  function Insert(s: HState, f: Frame, r: nat): (res: (HState, InsFrame)) {
    if f.End() < r then
      (s, if f.fin then Err else Dup)
    else if !Stores(s, f, r) then
      (s, Err)
    else
      var t := Trim(f, r);
      var s' := Copy(s, t);
      if !f.fin then (s', Ok)
      else if SeesPastFin(s', t) then (s', Err)
      else (s'.(fin := Some(f.End())), Ok)
  }

  /** `hdi_data_frame` and the block it was taken from (`hdi_last_block`). */
  datatype View = View(block: Option<nat>, off: nat, readOff: nat, size: nat, fin: bool)

  /** Length of the run of valid bytes from `lo` that stays below `hi`. */
  function RunBelow(m: Bytes, lo: nat, hi: nat): (n: nat)
    ensures lo <= hi ==> lo + n <= hi
    ensures forall o: nat :: lo <= o < lo + n ==> o in m
    ensures lo + n < hi ==> lo + n !in m
    decreases hi - lo
  {
    if lo < hi && lo in m then 1 + RunBelow(m, lo + 1, hi) else 0
  }

  /** hash_di_get_frame. */
  function Get(s: HState, r: nat): (v: Option<View>) {
    var key := Key(r);
    if key !in s.keys then
      if s.fin == Some(r) then Some(View(None, key, 0, 0, true)) else None
    else if r in s.bytes then
      var size := r - key + RunBelow(s.bytes, r, key + BLOCK);
      Some(View(Some(key), key, r - key, size, s.fin.Some? && (r - key) + size == s.fin.value))
    else if s.fin == Some(r) then
      Some(View(Some(key), key, r - key, r - key, true))
    else
      None
  }

  /** The block at `key` leaves the table. */
  function Drop(s: HState, key: nat): (s': HState) {
    s.(keys := s.keys - {key}, bytes := map o | o in s.bytes && Key(o) != key :: s.bytes[o])
  }

  /** hash_di_frame_done: a block with nothing valid at the read position or after it goes. */
  function Done(s: HState, v: View): (s': HState) {
    if v.block.None? then s
    else
      var key := v.block.value;
      if v.readOff == BLOCK || !(exists o :: o in s.bytes && key + v.readOff <= o < key + BLOCK)
      then Drop(s, key)
      else s
  }

  // ---------------------------------------------------------------- inserting

  lemma NewKeyKeepsInv(s: HState, key: nat)
    requires Inv(s) && Aligned(key)
    ensures Inv(s.(keys := s.keys + {key}))
  {
  }

  /** The part of a frame that falls into one present block can be added to it. */
  lemma CopyIntoBlockKeepsInv(s: HState, f: Frame, key: nat)
    requires Inv(s) && key in s.keys
    requires key <= f.off && f.End() <= key + BLOCK
    requires s.fin.Some? ==> !f.Covers(s.fin.value)
    ensures Inv(s.(bytes := s.bytes + Content(f)))
  {
    var m := s.bytes + Content(f);
    forall o | o in m ensures Key(o) in s.keys {
      if f.Covers(o) {
        KeyUnique(key, o);
      }
    }
  }

  /** An insert that gets past the early checks adds exactly the unread part of its frame to
      the unread bytes, and any other insert changes nothing. */
  lemma InsertStoresExactly(s: HState, f: Frame, r: nat)
    ensures var (s', res) := Insert(s, f, r);
            && (Stores(s, f, r) ==> From(s'.bytes, r) == From(s.bytes, r) + From(Content(f), r))
            && (!Stores(s, f, r) ==> s' == s && res in {Err, Dup})
            && res != Overlap
            && (res == Ok ==> Stores(s, f, r))
            && (res == Dup ==> f.End() < r && !f.fin)
  {
  }

  /** Every insert keeps the invariant, whatever it returns. */
  lemma InsertKeepsInv(s: HState, f: Frame, r: nat)
    requires Inv(s)
    ensures Inv(Insert(s, f, r).0)
  {
    if Stores(s, f, r) {
      var t := Trim(f, r);
      CopyKeepsKeys(s, t);
      var s' := Copy(s, t);
      if f.fin && !SeesPastFin(s', t) {
        FinByteAbsent(s', t);
      }
    }
  }

  lemma KeyMonotone(a: nat, b: nat)
    requires a <= b
    ensures Key(a) <= Key(b)
  {
    assert a / BLOCK <= b / BLOCK;
  }

  lemma CopyKeepsKeys(s: HState, t: Frame)
    requires Inv(s)
    ensures var s' := Copy(s, t);
            && (forall k :: k in s'.keys ==> Aligned(k))
            && (forall o :: o in s'.bytes ==> Key(o) in s'.keys)
  {
    var s' := Copy(s, t);
    forall o | o in s'.bytes ensures Key(o) in s'.keys {
      if t.Covers(o) {
        KeyMonotone(t.off, o);
        KeyMonotone(o, t.End() - 1);
      }
    }
  }

  /** Looking at the rest of one block and at the next key is enough to know that no byte is
      stored at the FIN offset itself. */
  lemma FinByteAbsent(s: HState, t: Frame)
    requires forall o :: o in s.bytes ==> Key(o) in s.keys
    requires !SeesPastFin(s, t)
    ensures t.End() !in s.bytes
  {
    assert t.End() < LastKey(t) + BLOCK || Key(t.End()) == LastKey(t) + BLOCK;
  }

  /** FIN, once recorded, never moves, and no later insert stores a byte at or past it. */
  lemma FinIsFinal(s: HState, f: Frame, r: nat)
    requires s.fin.Some?
    ensures var s' := Insert(s, f, r).0;
            && s'.fin == s.fin
            && forall o :: o in s'.bytes && o !in s.bytes ==> o < s.fin.value
  {
  }

  /** Which verdict a frame gets: a duplicate exactly if it is behind the reader and has no FIN; refused
      for its final size, or for a FIN behind the reader or with something after it; otherwise stored. */
  lemma InsertVerdict(s: HState, f: Frame, r: nat)
    ensures Insert(s, f, r).1 in {Ok, Dup, Err}
    ensures Insert(s, f, r).1 == Dup <==> f.End() < r && !f.fin
    ensures Insert(s, f, r).1 == Err <==>
      || (f.fin && f.End() < r)
      || (&& r <= f.End() && s.fin.Some?
          && (f.End() > s.fin.value || (f.fin && f.End() != s.fin.value)))
      || (&& Stores(s, f, r) && f.fin
          && (|| (exists o :: o in s.bytes && f.End() <= o < LastKey(Trim(f, r)) + BLOCK)
              || LastKey(Trim(f, r)) + BLOCK in s.keys))
    ensures Insert(s, f, r).1 == Dup || !Stores(s, f, r) ==> Insert(s, f, r).0 == s
  {
    if f.fin {
      FinAcceptedIff(s, f, r);
    }
  }

  /** An insert with FIN that keeps to the final size is accepted exactly when, before it, no byte
      was stored between its end and the end of its last block, and the next block was not in the
      table, not even empty. */
  lemma FinAcceptedIff(s: HState, f: Frame, r: nat)
    requires f.fin
    ensures Insert(s, f, r).1 == Ok <==>
            && Stores(s, f, r)
            && (forall o :: o in s.bytes ==> !(f.End() <= o < LastKey(Trim(f, r)) + BLOCK))
            && LastKey(Trim(f, r)) + BLOCK !in s.keys
    ensures Insert(s, f, r).1 == Ok ==> Insert(s, f, r).0.fin == Some(f.End())
  {
    if Stores(s, f, r) {
      var t := Trim(f, r);
      var s' := Copy(s, t);
      assert forall o :: o in s'.bytes && f.End() <= o ==> o in s.bytes;
    }
  }

  /** No byte at or past FIN is stored once it is accepted, if and only if all stored bytes were
      below the end of the block after the frame's last one. */
  lemma NoBytePastFinIff(s: HState, f: Frame, r: nat)
    requires Inv(s) && f.fin && Insert(s, f, r).1 == Ok
    ensures (forall o :: o in Insert(s, f, r).0.bytes ==> o < f.End()) <==>
            (forall o :: o in s.bytes ==> o < LastKey(Trim(f, r)) + 2 * BLOCK)
  {
    FinAcceptedIff(s, f, r);
    var t, k := Trim(f, r), LastKey(Trim(f, r));
    var s' := Insert(s, f, r).0;
    assert forall o :: o in s'.bytes <==> o in s.bytes || t.Covers(o);
    hide Insert, Trim, Stores, LastKey, Key, Aligned;
    forall o | o in s.bytes && f.End() <= o ensures k + 2 * BLOCK <= o {
      KeyOfNext(k, o);
    }
  }

  lemma KeyOfNext(k: nat, o: nat)
    requires Aligned(k)
    ensures k + BLOCK <= o < k + 2 * BLOCK ==> Key(o) == k + BLOCK
  {
  }

  /** The look-ahead is not the whole stream: a byte two blocks on survives a FIN before it. */
  lemma ByteBeyondFinPossible(b: byte)
    ensures var far := Frame(2 * BLOCK, [b], false);
            var fin := Frame(0, [b], true);
            var (s1, r1) := Insert(EMPTY, far, 0);
            var (s2, r2) := Insert(s1, fin, 0);
            r1 == Ok && r2 == Ok && s2.fin == Some(1) && 2 * BLOCK in s2.bytes
  {
    var far := Frame(2 * BLOCK, [b], false);
    var fin := Frame(0, [b], true);
    var s1 := Insert(EMPTY, far, 0).0;
    assert 2 * BLOCK in Content(far);
    assert forall k :: k in Touched(far) ==> k == 2 * BLOCK;
    var s2 := Copy(s1, fin);
    assert BLOCK !in s2.keys;
  }

  /** All that is stored lies within a stream of final size `n`. */
  ghost predicate Within(s: HState, n: nat) {
    && (forall o :: o in s.bytes ==> o < n)
    && (forall k :: k in s.keys ==> k <= n)
    && (s.fin.Some? ==> s.fin.value == n)
  }

  /** The frame keeps to the final size `n`. */
  predicate KeepsTo(f: Frame, n: nat) {
    f.End() <= n && (f.fin ==> f.End() == n)
  }

  /** For a stream of final size `n`, a frame that keeps to it is refused exactly when it carries
      FIN and an unread byte, `n` is at a block boundary, and a block is in the table there. */
  lemma RefusedIff(s: HState, f: Frame, r: nat, n: nat)
    requires Inv(s) && Within(s, n) && r <= n && KeepsTo(f, n)
    ensures Insert(s, f, r).1 == Err <==> f.fin && r <= f.End() && LastKey(Trim(f, r)) + BLOCK in s.keys
    ensures Insert(s, f, r).1 == Err <==> f.fin && n in s.keys && r < n && f.data != []
    ensures Within(Insert(s, f, r).0, n)
  {
    if r <= f.End() {
      var t := Trim(f, r);
      TouchedWithin(t);
      assert forall o :: o in Copy(s, t).bytes <==> o in s.bytes || t.Covers(o);
      if f.fin {
        FinAcceptedIff(s, f, r);
        if n in s.keys {
          BoundaryKey(t);
        }
      }
    }
  }

  lemma TouchedWithin(t: Frame)
    ensures forall k :: k in Touched(t) ==> k <= t.End()
  {
  }

  /** The block at the end of the frame is the one after its last one, unless it has no bytes. */
  lemma BoundaryKey(t: Frame)
    requires Aligned(t.End())
    ensures LastKey(t) + BLOCK == t.End() <==> t.data != []
    ensures t.data == [] ==> LastKey(t) == t.End()
  {
    if t.data == [] {
      KeyUnique(t.End(), t.off);
    } else {
      NextBlock(LastKey(t), t.End());
    }
  }

  /** A stream of exactly one block, FIN announced by an empty frame, and then sent again with
      its bytes: the second FIN is refused although no byte lies past it. */
  lemma EmptyBlockRefusesFin(data: seq<byte>)
    requires |data| == BLOCK
    ensures var (s1, r1) := Insert(EMPTY, Frame(BLOCK, [], true), 0);
            var (s2, r2) := Insert(s1, Frame(0, data, true), 0);
            && r1 == Ok && s1.fin == Some(BLOCK) && r2 == Err
            && forall o :: o in s2.bytes ==> o < BLOCK
  {
    var f, g := Frame(BLOCK, [], true), Frame(0, data, true);
    RefusedIff(EMPTY, f, 0, BLOCK);
    InsertKeepsInv(EMPTY, f, 0);
    var s1 := Insert(EMPTY, f, 0).0;
    KeyUnique(BLOCK, BLOCK);
    assert BLOCK in Touched(f);
    RefusedIff(s1, g, 0, BLOCK);
  }

  // ---------------------------------------------------------------- the copying loop

  /** The first round copies a prefix of the frame. */
  lemma CopyFirst(s: HState, t: Frame, n: nat)
    requires n == Min(|t.data|, Key(t.off) + BLOCK - t.off)
    ensures CopyPart(s, t.off, t.data[..n]) == Copy(s, Take(t, n))
    ensures LastKey(Take(t, n)) == Key(t.off)
    ensures n < |t.data| ==> t.off + n == Key(t.off) + BLOCK
  {
    var p := Take(t, n);
    if n > 0 {
      KeyUnique(Key(t.off), p.End() - 1);
    }
    assert Touched(p) == {Key(t.off)};
    ContentIgnoresFin(p);
  }

  lemma ContentInTurn(t: Frame, n: nat, m: nat)
    requires n + m <= |t.data|
    ensures Content(Take(t, n + m)) == Content(Take(t, n)) + Content(Frame(t.off + n, t.data[n..][..m], false))
  {
    var p, q, f := Take(t, n), Take(t, n + m), Frame(t.off + n, t.data[n..][..m], false);
    assert forall o: nat :: q.Covers(o) <==> p.Covers(o) || f.Covers(o);
    assert forall o: nat :: f.Covers(o) ==> f.ByteAt(o) == q.ByteAt(o);
    assert forall o: nat :: p.Covers(o) ==> p.ByteAt(o) == q.ByteAt(o);
  }

  lemma NextBlock(k: nat, j: nat)
    requires Aligned(k) && Aligned(j) && k < j <= k + BLOCK
    ensures j == k + BLOCK
  {
  }

  lemma TouchedInTurn(t: Frame, n: nat, m: nat)
    requires n < |t.data| && t.off + n == LastKey(Take(t, n)) + BLOCK
    requires m == Min(|t.data| - n, BLOCK)
    ensures Key(t.off + n) == t.off + n == LastKey(Take(t, n + m))
    ensures Touched(Take(t, n + m)) == Touched(Take(t, n)) + {t.off + n}
  {
    var p, q, k := Take(t, n), Take(t, n + m), t.off + n;
    KeyUnique(k, k);
    KeyUnique(k, q.End() - 1);
    KeyMonotone(t.off, k);
    forall j: nat | LastKey(p) < j <= k && Aligned(j)
      ensures j == k
    {
      NextBlock(LastKey(p), j);
    }
  }

  /** Every later round starts at a block boundary and copies the next part of the frame. */
  lemma CopyNext(s: HState, t: Frame, n: nat, m: nat)
    requires n < |t.data| && t.off + n == LastKey(Take(t, n)) + BLOCK
    requires m == Min(|t.data| - n, BLOCK)
    ensures CopyPart(Copy(s, Take(t, n)), t.off + n, t.data[n..][..m]) == Copy(s, Take(t, n + m))
    ensures Key(t.off + n) == t.off + n == LastKey(Take(t, n + m))
    ensures n + m < |t.data| ==> t.off + n + m == LastKey(Take(t, n + m)) + BLOCK
  {
    hide Key, LastKey, Touched;
    TouchedInTurn(t, n, m);
    ContentInTurn(t, n, m);
    var p, f := Take(t, n), Frame(t.off + n, t.data[n..][..m], false);
    assert s.bytes + Content(p) + Content(f) == s.bytes + (Content(p) + Content(f));
  }

  lemma ContentIgnoresFin(f: Frame)
    ensures Content(f) == Content(f.(fin := false))
  {
    assert forall o: nat :: f.Covers(o) ==> f.ByteAt(o) == f.(fin := false).ByteAt(o);
  }

  /** An insert past the early checks adds exactly the blocks that the unread part of the frame has bytes
      in; for no bytes, the one block its end is in. */
  lemma InsertAddsBlocks(s: HState, f: Frame, r: nat, k: nat)
    requires Stores(s, f, r)
    ensures k in Insert(s, f, r).0.keys <==>
      || k in s.keys
      || (Aligned(k) && exists o: nat :: r <= o && f.Covers(o) && k <= o < k + BLOCK)
      || (Max(f.off, r) == f.End() && k == Key(f.End()))
  {
    var t := Trim(f, r);
    if k in Touched(t) && t.data != [] {
      var o := Max(k, t.off);
      assert t.off <= o < t.End();
      if k < t.off {
        NextBlockStart(k, t.off);
      }
      assert f.Covers(o) && r <= o && k <= o < k + BLOCK;
    }
    if Aligned(k) && exists o: nat :: r <= o && f.Covers(o) && k <= o < k + BLOCK {
      var o: nat :| r <= o && f.Covers(o) && k <= o < k + BLOCK;
      KeyUnique(k, o);
      KeyMonotone(t.off, o);
      KeyMonotone(o, t.End() - 1);
    }
    hide Key;
  }

  /** A block that starts before `o`, at or after that of `o`, holds it. */
  lemma NextBlockStart(k: nat, o: nat)
    requires Key(o) <= k < o
    ensures o < k + BLOCK
  {
  }

  // ---------------------------------------------------------------- reading

  /** A frame is handed out exactly when there is a byte, or FIN, at the read offset; and what
      is handed out is valid bytes from that offset on, all of the run that is in its block. */
  lemma GetHandsOutRun(s: HState, r: nat)
    requires Inv(s)
    ensures Get(s, r).Some? <==> r in s.bytes || s.fin == Some(r)
    ensures Get(s, r).Some? ==>
            var v := Get(s, r).value;
            && v.readOff <= v.size <= BLOCK
            && (forall o: nat :: r <= o < r + (v.size - v.readOff) ==> o in s.bytes)
            && (r in s.bytes ==> v.size > v.readOff)
            && (v.size > v.readOff && r + (v.size - v.readOff) in s.bytes ==> v.size == BLOCK)
            && (v.block.Some? ==> v.block.value == Key(r) == v.off && v.off + v.readOff == r)
            && (v.block.None? ==> v.fin && v.size == 0)
  {
    hide RunBelow, Key, Aligned;
  }

  /** In every state, a read at the recorded FIN offset gets an empty frame with FIN set. */
  lemma GetAtFinIsEmptyFin(s: HState, r: nat)
    requires Inv(s) && s.fin == Some(r)
    ensures Get(s, r).Some? && Get(s, r).value.fin
    ensures Get(s, r).value.size == Get(s, r).value.readOff
  {
  }

  /** Whether the FIN flag of a frame that carries bytes is right: set exactly when the bytes
      handed out end at the FIN offset. */
  predicate FinFlagRight(s: HState, r: nat)
    requires r in s.bytes && Key(r) in s.keys
  {
    var v := Get(s, r).value;
    v.fin <==> s.fin == Some(r + (v.size - v.readOff))
  }

  /** The flag compares the read position plus the end of the run, both relative to the block,
      with the absolute FIN offset.  It is right at read offset 0, and otherwise exactly when
      neither the run nor that sum ends at FIN. */
  lemma FinFlagRightIff(s: HState, r: nat)
    requires r in s.bytes && Key(r) in s.keys && s.fin.Some?
    ensures var run := RunBelow(s.bytes, r, Key(r) + BLOCK);
            FinFlagRight(s, r) <==>
            r == 0 || (s.fin.value != r + run && s.fin.value != 2 * (r - Key(r)) + run)
  {
    assert r - Key(r) == Key(r) ==> r == 0;
  }

  /** The frame got at `r` has bytes and a FIN flag that comes too early: the sum that is compared
      with the FIN offset is that of the place in the block, twice, and the run. */
  predicate Misleads(s: HState, r: nat) {
    && r in s.bytes && s.fin.Some? && r > 0
    && s.fin.value == 2 * (r - Key(r)) + RunBelow(s.bytes, r, Key(r) + BLOCK)
  }

  /** A frame with bytes claims FIN although its bytes do not end there, exactly then. */
  lemma MisleadsIff(s: HState, r: nat)
    requires Inv(s) && r in s.bytes
    ensures Get(s, r).Some?
    ensures var v := Get(s, r).value;
            v.fin && s.fin != Some(r + (v.size - v.readOff)) <==> Misleads(s, r)
  {
    assert r - Key(r) == Key(r) ==> r == 0;
    hide RunBelow;
  }

  /** Within a final size it happens in the first block only, and only below two blocks. */
  lemma MisleadsInFirstBlock(s: HState, r: nat, n: nat)
    requires Inv(s) && Within(s, n) && Misleads(s, r)
    ensures n == s.fin.value && 0 < r < BLOCK && Key(r) == 0 && n < 2 * BLOCK
    ensures r + RunBelow(s.bytes, r, BLOCK) < n == 2 * r + RunBelow(s.bytes, r, BLOCK)
  {
    var run := RunBelow(s.bytes, r, Key(r) + BLOCK);
    assert run > 0 && r + run - 1 in s.bytes;
    FirstKey(r);
    hide RunBelow;
  }

  lemma FirstKey(r: nat)
    ensures 2 * Key(r) <= r ==> Key(r) == 0
  {
  }

  /** With all bytes up to `e` there, the frame got at `r` is such a one and falls short of `e`
      exactly when the reader is in the first block, `e` is not, and FIN is one block on. */
  lemma MisleadsShortOf(s: HState, r: nat, n: nat, e: nat)
    requires Inv(s) && Within(s, n) && r < e <= n
    requires forall o: nat :: r <= o < e ==> o in s.bytes
    ensures var run := RunBelow(s.bytes, r, Key(r) + BLOCK);
            Misleads(s, r) && r + run < e <==>
              s.fin == Some(n) && 0 < r < BLOCK < e && n == r + BLOCK
  {
    var run := RunBelow(s.bytes, r, Key(r) + BLOCK);
    assert r + run < e ==> r + run == Key(r) + BLOCK;
    if Misleads(s, r) {
      MisleadsInFirstBlock(s, r, n);
    }
    if 0 < r < BLOCK {
      KeyUnique(0, r);
    }
    hide RunBelow;
  }

  /** The frame handed out for a stored byte is the run within its block. */
  lemma GetIsRun(s: HState, r: nat)
    requires Inv(s) && r in s.bytes
    ensures Get(s, r).Some?
    ensures var v := Get(s, r).value; v.size - v.readOff == RunBelow(s.bytes, r, Key(r) + BLOCK)
  {
    hide RunBelow;
  }

  /** A frame that ends before a stored byte ends with its block. */
  lemma EndsAtBoundary(s: HState, r: nat)
    requires Inv(s) && r in s.bytes
    requires r + RunBelow(s.bytes, r, Key(r) + BLOCK) in s.bytes
    ensures r + RunBelow(s.bytes, r, Key(r) + BLOCK) == Key(r) + BLOCK >= BLOCK
  {
    hide Key;
  }

  /** With 80 bytes stored, 20 of them read, and FIN then announced at offset 100, the frame for
      the bytes 20 to 80 claims FIN although bytes 80 to 100 have not arrived. */
  lemma PrematureFin(data: seq<byte>)
    requires |data| == 80
    ensures var s1 := Insert(EMPTY, Frame(0, data, false), 0).0;
            var (s2, res) := Insert(s1, Frame(100, [], true), 20);
            && res == Ok && s2.fin == Some(100)
            && Get(s2, 20).Some? && Get(s2, 20).value.fin
            && Get(s2, 20).value.readOff == 20 && Get(s2, 20).value.size == 80
            && 80 !in s2.bytes && !FinFlagRight(s2, 20)
  {
    var f, g := Frame(0, data, false), Frame(100, [], true);
    FirstBlockOnly(EMPTY, f);
    var s1 := HState({0}, Content(f), None);
    assert Insert(EMPTY, f, 0).0 == s1;
    FirstBlockOnly(s1, g);
    assert Content(g) == map[];
    assert forall o: nat :: o in s1.bytes <==> f.Covers(o);
    assert Copy(s1, g) == s1;
    assert !SeesPastFin(s1, g);
    assert Insert(s1, g, 20) == (s1.(fin := Some(100)), Ok);
    GetFromFirstBlock(s1.(fin := Some(100)), 80, 20);
  }

  lemma FirstBlockOnly(s: HState, f: Frame)
    requires f.End() <= BLOCK && f.off < BLOCK
    ensures Copy(s, f) == HState(s.keys + {0}, s.bytes + Content(f), s.fin) && LastKey(f) == 0
  {
    KeyUnique(0, f.off);
    if f.data != [] {
      KeyUnique(0, f.End() - 1);
    }
    assert Touched(f) == {0};
  }

  lemma GetFromFirstBlock(s: HState, end: nat, r: nat)
    requires s.keys == {0} && r < end < BLOCK && s.fin.Some?
    requires forall o: nat :: o in s.bytes <==> o < end
    ensures Get(s, r) == Some(View(Some(0), 0, r, end, r + end == s.fin.value))
  {
    KeyUnique(0, r);
    RunBelowUnique(s.bytes, r, BLOCK, end - r);
  }

  /** The run of a block is determined by what it says. */
  lemma RunBelowUnique(m: Bytes, lo: nat, hi: nat, n: nat)
    requires lo + n <= hi && (forall o: nat :: lo <= o < lo + n ==> o in m) && (lo + n < hi ==> lo + n !in m)
    ensures RunBelow(m, lo, hi) == n
  {
    var k := RunBelow(m, lo, hi);
    assert k < n ==> lo + k in m;
    assert n < k ==> lo + n in m;
  }

  /** An offset past every stored byte. */
  ghost function Top(m: Bytes): (top: nat)
    ensures forall o :: o in m ==> o < top
    decreases |m|
  {
    if m == map[] then 0
    else
      var o :| o in m;
      assert forall p :: p in m ==> p == o || p in m - {o};
      Max(o + 1, Top(m - {o}))
  }

  /** Dropping a block leaves the bytes of all others. */
  lemma DropKeepsInv(s: HState, key: nat)
    requires Inv(s)
    ensures Inv(Drop(s, key))
  {
  }

  /** The block a frame was taken from has a valid byte at the read position or after it. */
  ghost predicate HasUnread(s: HState, v: View) {
    v.block.Some? && exists o :: o in s.bytes && v.block.value + v.readOff <= o < v.block.value + BLOCK
  }

  /** Done frees the block the frame was taken from exactly when it has no such byte: then its bytes
      go with it.  Every other block, its bytes and FIN stay. */
  lemma DoneFreesIff(s: HState, v: View)
    requires Inv(s) && v.block.Some? && v.block.value in s.keys
    ensures var k, s' := v.block.value, Done(s, v);
            && (k in s'.keys <==> HasUnread(s, v))
            && s'.keys - {k} == s.keys - {k} && s'.fin == s.fin
            && (forall o :: o in s'.bytes <==> o in s.bytes && (Key(o) == k ==> HasUnread(s, v)))
            && (forall o :: o in s'.bytes ==> s'.bytes[o] == s.bytes[o])
  {
    assert v.readOff == BLOCK ==> !HasUnread(s, v);
  }

  /** Removing a block that is done with loses no byte at the read offset or after it, and
      never loses FIN. */
  lemma DoneLosesNothingUnread(s: HState, v: View, r: nat)
    requires Inv(s)
    requires v.block.Some? ==> Aligned(v.block.value) && v.readOff <= BLOCK && r == v.block.value + v.readOff
    ensures From(Done(s, v).bytes, r) == From(s.bytes, r)
    ensures Done(s, v).fin == s.fin
    ensures Inv(Done(s, v))
  {
    var s' := Done(s, v);
    if s' != s {
      var key := v.block.value;
      forall o | o in s.bytes && r <= o ensures o in s'.bytes {
        assert Key(o) == key ==> key + v.readOff <= o < key + BLOCK;
      }
    }
  }
}
