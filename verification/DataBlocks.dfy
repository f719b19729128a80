/** The 3616-byte blocks of the hash handler: storage plus a bitmap of valid bytes. */
module DataBlocks {
  import opened Basics
  import opened StreamData
  import opened Words

  const N_DB_SETS: nat := 57
  // 0x1000 less two list pointers, the block offset and the bitmap.
  const BLOCK: nat := 3616

  /** Byte `i` of the block is marked valid by the bitmap `ws`. */
  ghost predicate Has(ws: seq<Word>, i: nat)
    requires |ws| == N_DB_SETS
    requires i < N_DB_SETS * 64
  {
    Bit(ws[i / 64], i % 64)
  }

  /** The bits past the last data byte are never set. */
  ghost predicate TailClear(ws: seq<Word>)
    requires |ws| == N_DB_SETS
  {
    forall i: nat :: BLOCK <= i < N_DB_SETS * 64 ==> !Has(ws, i)
  }

  /** `after` marks what `before` marks, plus exactly the positions `lo..hi`. */
  ghost predicate Marked(before: seq<Word>, after: seq<Word>, lo: nat, hi: nat)
    requires |before| == N_DB_SETS && |after| == N_DB_SETS
  {
    forall i: nat :: i < N_DB_SETS * 64 ==> (Has(after, i) <==> Has(before, i) || lo <= i < hi)
  }

  /** Setting the bits of `mask` in one word marks a range inside that word. */
  lemma MarkedByMask(ws: seq<Word>, w: nat, mask: Word, lo: nat, hi: nat)
    requires |ws| == N_DB_SETS && w < N_DB_SETS
    requires w * 64 <= lo && hi <= w * 64 + 64
    requires forall k: nat :: k < 64 ==> (Bit(mask, k) <==> lo <= w * 64 + k < hi)
    ensures Marked(ws, ws[w := OrWord(ws[w], mask)], lo, hi)
  {
    var after := ws[w := OrWord(ws[w], mask)];
    forall i: nat | i < N_DB_SETS * 64
      ensures Has(after, i) <==> Has(ws, i) || lo <= i < hi
    {
      if i / 64 == w {
        BitOfOr(ws[w], mask, i % 64);
        assert i == w * 64 + i % 64;
      }
    }
  }

  lemma MarkedByFull(before: seq<Word>, after: seq<Word>, w: nat, n: nat)
    requires |before| == N_DB_SETS && |after| == N_DB_SETS && w + n <= N_DB_SETS
    requires after == before[..w] + seq(n, _ => ALL_ONES) + before[w + n..]
    ensures Marked(before, after, w * 64, (w + n) * 64)
  {
    forall i: nat | i < N_DB_SETS * 64
      ensures Has(after, i) <==> Has(before, i) || w * 64 <= i < (w + n) * 64
    {
      BitOfAllOnes(i % 64);
    }
  }

  /** The mask of `block_write` for a first word entered at `bit`. */
  lemma HeadMask(bit: nat, n: nat, k: nat)
    requires 1 <= bit < 64 && bit + n <= 64 && k < 64
    ensures var top := OneShl(bit + n - 1);
            var mask := AndWord(Not(OneShl(bit) - 1), OrWord(top, top - 1));
            Bit(mask, k) <==> bit <= k < bit + n
  {
    hide And, Or, Bit;
    var top := OneShl(bit + n - 1);
    BitOfAnd(Not(OneShl(bit) - 1), OrWord(top, top - 1), k);
    BitOfNot(OneShl(bit) - 1, k);
    BitOfLowMask(bit, k);
    BitOfOr(top, top - 1, k);
    BitOfPow2(bit + n - 1, k);
    BitOfLowMask(bit + n - 1, k);
  }

  /** Going from bitmap `ws0` and bytes `ds0` to `ws1` and `ds1` stores exactly `src` at `at`. */
  ghost predicate Stored(ws0: seq<Word>, ds0: seq<byte>, ws1: seq<Word>, ds1: seq<byte>, at: nat, src: seq<byte>)
  {
    && |ws0| == N_DB_SETS && |ws1| == N_DB_SETS
    && at + |src| <= |ds0|
    && Marked(ws0, ws1, at, at + |src|)
    && ds1 == Overwrite(ds0, at, src)
  }

  lemma StoredInTurn(ws0: seq<Word>, ds0: seq<byte>, ws1: seq<Word>, ds1: seq<byte>, ws2: seq<Word>, ds2: seq<byte>,
                     at: nat, a: seq<byte>, b: seq<byte>)
    requires Stored(ws0, ds0, ws1, ds1, at, a) && Stored(ws1, ds1, ws2, ds2, at + |a|, b)
    ensures Stored(ws0, ds0, ws2, ds2, at, a + b)
  {
    OverwriteAdjacent(ds0, at, a, b);
    forall i: nat | i < N_DB_SETS * 64
      ensures Has(ws2, i) <==> Has(ws0, i) || at <= i < at + |a + b|
    {
      assert Has(ws1, i) <==> Has(ws0, i) || at <= i < at + |a|;
    }
  }

  /** Shifting word `w` right by `bit` leaves something exactly when a byte from there to the
      end of the word is valid. */
  lemma WordNonZeroFrom(ws: seq<Word>, w: nat, bit: nat)
    requires |ws| == N_DB_SETS && w < N_DB_SETS && bit < 64
    ensures Shr(ws[w], bit) != 0 <==> exists i: nat :: w * 64 + bit <= i < w * 64 + 64 && Has(ws, i)
  {
    var x := Shr(ws[w], bit);
    ZeroHasNoBits(x);
    forall k: nat ensures Bit(x, k) <==> Bit(ws[w], bit + k) {
      BitOfShr(ws[w], bit, k);
    }
    hide Bit, Shr;
    if x != 0 {
      var k: nat :| Bit(x, k);
      if bit + k >= 64 {
        WordBitsBounded(ws[w], bit + k);
      }
      assert Has(ws, w * 64 + (bit + k));
    } else {
      forall i: nat | w * 64 + bit <= i < w * 64 + 64 ensures !Has(ws, i) {
        assert !Bit(x, i % 64 - bit);
      }
    }
  }

  /** Head, whole words and tail together store all of `src`. */
  lemma StoredInParts(ws0: seq<Word>, ds0: seq<byte>, ws1: seq<Word>, ds1: seq<byte>, ws2: seq<Word>, ds2: seq<byte>,
                      ws3: seq<Word>, ds3: seq<byte>, at: nat, src: seq<byte>, n: nat, m: nat)
    requires n + m <= |src|
    requires Stored(ws0, ds0, ws1, ds1, at, src[..n])
    requires Stored(ws1, ds1, ws2, ds2, at + n, src[n..][..m])
    requires Stored(ws2, ds2, ws3, ds3, at + n + m, src[n + m..])
    ensures Stored(ws0, ds0, ws3, ds3, at, src)
  {
    StoredInTurn(ws0, ds0, ws1, ds1, ws2, ds2, at, src[..n], src[n..][..m]);
    assert src[..n] + src[n..][..m] == src[..n + m];
    StoredInTurn(ws0, ds0, ws2, ds2, ws3, ds3, at, src[..n + m], src[n + m..]);
    assert src[..n + m] + src[n + m..] == src;
  }

  lemma StoredKeepsTailClear(ws0: seq<Word>, ds0: seq<byte>, ws1: seq<Word>, ds1: seq<byte>, at: nat, src: seq<byte>)
    requires Stored(ws0, ds0, ws1, ds1, at, src) && |ds0| == BLOCK && TailClear(ws0)
    ensures TailClear(ws1)
  {
  }

  ghost predicate AllValid(ws: seq<Word>, lo: nat, hi: nat)
    requires |ws| == N_DB_SETS
  {
    forall i: nat :: lo <= i < hi && i < N_DB_SETS * 64 ==> Has(ws, i)
  }

  /** `count` is the length of the longest run of valid bytes from `from`, inside the block. */
  ghost predicate MaximalRun(ws: seq<Word>, from: nat, count: nat)
    requires |ws| == N_DB_SETS
  {
    && from + count <= BLOCK
    && AllValid(ws, from, from + count)
    && (from + count < BLOCK ==> !Has(ws, from + count))
  }

  /** The same in terms of the bytes held: `count` is the run of bytes from stream offset `r`
      on, up to the end of the block at `off`. */
  ghost predicate RunInBlock(m: Bytes, off: nat, r: nat, count: nat) {
    && r + count <= off + BLOCK
    && (forall o: nat :: r <= o < r + count ==> o in m)
    && (r + count < off + BLOCK ==> r + count !in m)
  }

  /** `c` bits of `w` are set from `bit` on, and no more. */
  ghost predicate WordRun(w: Word, bit: nat, c: nat) {
    && bit + c <= 64
    && (forall k: nat :: bit <= k < bit + c ==> Bit(w, k))
    && (bit + c < 64 ==> !Bit(w, bit + c))
  }

  lemma BitOfPart(w: Word, bit: nat, k: nat)
    requires bit < 64
    ensures Bit(Not(Shr(w, bit)), k) <==> k < 64 && !Bit(w, bit + k)
  {
    BitOfNot(Shr(w, bit), k);
    BitOfShr(w, bit, k);
  }

  lemma NoRunEndInWord(w: Word, bit: nat, last: nat)
    requires bit < 64 && last + 1 == 64
    requires Not(Shr(w, bit)) == 0
    ensures WordRun(w, bit, 64)
  {
    ZeroHasNoBits(Not(Shr(w, bit)));
    forall k: nat | bit <= k < bit + 64 ensures Bit(w, k) {
      BitOfPart(w, bit, k - bit);
    }
    assert Bit(w, bit + last);
    forall k: nat | 64 <= k ensures !Bit(w, k) {
      WordBitsBounded(w, k);
    }
  }

  /** Counting the trailing zeros of the complement counts the run of ones. */
  lemma RunInWord(w: Word, bit: nat)
    requires bit < 64
    ensures var part := Not(Shr(w, bit));
            && WordRun(w, bit, if part == 0 then 64 else Ctz(part))
            && (part != 0 ==> Ctz(part) < 64)
  {
    var part := Not(Shr(w, bit));
    if part == 0 {
      NoRunEndInWord(w, bit, 63);
    } else {
      CtzIsLowestBit(part);
      RunUpTo(w, bit, Ctz(part), 64 - bit);
    }
  }

  lemma RunUpTo(w: Word, bit: nat, c: nat, room: nat)
    requires bit < 64 && room == 64 - bit && c < 64
    requires LowestBit(Not(Shr(w, bit)), c)
    ensures WordRun(w, bit, c)
  {
    BitOfPart(w, bit, c);
    forall k: nat | bit <= k < bit + c ensures Bit(w, k) {
      BitOfPart(w, bit, k - bit);
    }
    WordBitsBounded(w, bit + room);
  }

  lemma RunWithinWord(ws: seq<Word>, w: nat, bit: nat, c: nat)
    requires |ws| == N_DB_SETS && w < N_DB_SETS && bit < 64
    requires WordRun(ws[w], bit, c)
    ensures AllValid(ws, w * 64 + bit, w * 64 + bit + c)
    ensures bit + c < 64 ==> !Has(ws, w * 64 + bit + c)
  {
  }

  lemma FullWordExtends(ws: seq<Word>, from: nat, w: nat)
    requires |ws| == N_DB_SETS && w < N_DB_SETS && ws[w] == ALL_ONES
    requires AllValid(ws, from, w * 64)
    ensures AllValid(ws, from, w * 64 + 64)
  {
    FullIsAllOnes(ws[w]);
  }

  /** Because the tail bits are clear, a run that stops in the bitmap stops in the block. */
  lemma TailEndsRun(ws: seq<Word>, from: nat, count: nat)
    requires |ws| == N_DB_SETS && TailClear(ws) && from < BLOCK
    requires AllValid(ws, from, from + count)
    requires from + count < N_DB_SETS * 64 ==> !Has(ws, from + count)
    ensures MaximalRun(ws, from, count)
  {
    assert !Has(ws, BLOCK);
  }

  /** A block at `off` with bitmap `ws` and storage `ds` shows exactly the bytes that `m` has in
      its range. */
  ghost predicate Shows(ws: seq<Word>, ds: seq<byte>, off: nat, m: Bytes) {
    && |ws| == N_DB_SETS && |ds| == BLOCK
    && (forall o :: o in m && off <= o < off + BLOCK ==> Has(ws, o - off) && m[o] == ds[o - off])
    && (forall i: nat :: i < BLOCK && Has(ws, i) ==> off + i in m)
  }

  /** Storing bytes in the block is adding them to the map. */
  lemma StoredShows(ws0: seq<Word>, ds0: seq<byte>, ws1: seq<Word>, ds1: seq<byte>, off: nat, f: Frame, m: Bytes)
    requires Shows(ws0, ds0, off, m)
    requires off <= f.off && Stored(ws0, ds0, ws1, ds1, f.off - off, f.data)
    ensures Shows(ws1, ds1, off, m + Content(f))
  {
    hide Has;
    var m' := m + Content(f);
    forall o | o in m' && off <= o < off + BLOCK
      ensures Has(ws1, o - off) && m'[o] == ds1[o - off]
    {
      if f.Covers(o) {
        assert f.ByteAt(o) == ds1[o - off];
      } else {
        assert ds1[o - off] == ds0[o - off];
      }
    }
    forall i: nat | i < BLOCK && Has(ws1, i)
      ensures off + i in m'
    {
      assert f.off - off <= i < f.off - off + |f.data| <==> f.Covers(off + i);
    }
  }

  lemma RunOfBytes(ws: seq<Word>, ds: seq<byte>, off: nat, m: Bytes, from: nat, count: nat)
    requires Shows(ws, ds, off, m) && MaximalRun(ws, from, count)
    ensures RunInBlock(m, off, off + from, count)
  {
    forall o: nat | off + from <= o < off + from + count
      ensures o in m
    {
      assert Has(ws, o - off);
      assert off + (o - off) in m;
    }
  }

  lemma BytesAfter(ws: seq<Word>, ds: seq<byte>, off: nat, m: Bytes, from: nat)
    requires Shows(ws, ds, off, m)
    ensures (exists i: nat :: from <= i < BLOCK && Has(ws, i)) <==>
            (exists o :: o in m && off + from <= o < off + BLOCK)
  {
    if i: nat :| from <= i < BLOCK && Has(ws, i) {
      assert off + i in m;
    }
    if o :| o in m && off + from <= o < off + BLOCK {
      assert Has(ws, o - off);
    }
  }

  /** The bitmap and the bytes are arrays inside the C struct, so here they are sequence-valued
      fields of the block object. */
  class DataBlock {
    const off: nat       // db_off
    var words: seq<Word> // db_set
    var data: seq<byte>  // db_data

    ghost predicate Valid()
      reads this
    {
      |words| == N_DB_SETS && |data| == BLOCK && TailClear(words)
    }

    /** A new block has an all-clear bitmap. */
    constructor (key: nat)
      ensures Valid() && off == key
      ensures forall i: nat :: i < N_DB_SETS * 64 ==> !Has(words, i)
    {
      off := key;
      words := seq(N_DB_SETS, _ => 0);
      data := seq(BLOCK, _ => 0);
      new;
      forall i: nat | i < N_DB_SETS * 64 ensures !Has(words, i) {
        BitOfZero(i % 64);
      }
    }

    /** Sets the bits of `mask` in word `w` and copies the bytes they stand for. */
    method StorePart(w: nat, mask: Word, at: nat, src: seq<byte>)
      requires |words| == N_DB_SETS && |data| == BLOCK
      requires at + |src| <= BLOCK
      requires w < N_DB_SETS && w * 64 <= at && at + |src| <= w * 64 + 64
      requires forall k: nat :: k < 64 ==> (Bit(mask, k) <==> at <= w * 64 + k < at + |src|)
      modifies this`words, this`data
      ensures Stored(old(words), old(data), words, data, at, src)
    {
      MarkedByMask(words, w, mask, at, at + |src|);
      words := words[w := OrWord(words[w], mask)];
      data := Overwrite(data, at, src);
    }

    /** The bytes up to the next word boundary, when the write starts inside a word. */
    method StoreHead(at: nat, src: seq<byte>) returns (n: nat)
      requires |words| == N_DB_SETS && |data| == BLOCK
      requires at < BLOCK && at + |src| <= BLOCK
      modifies this`words, this`data
      ensures n <= |src| && (n == |src| || (at + n) % 64 == 0)
      ensures Stored(old(words), old(data), words, data, at, src[..n])
    {
      n := 0;
      var bit := at % 64;
      if bit != 0 {
        n := if 64 - bit > |src| then |src| else 64 - bit;
        var top := OneShl(bit + n - 1);
        var mask := AndWord(Not(OneShl(bit) - 1), OrWord(top, top - 1));
        forall k: nat | k < 64 ensures Bit(mask, k) <==> bit <= k < bit + n {
          HeadMask(bit, n, k);
        }
        StorePart(at / 64, mask, at, src[..n]);
      }
    }

    /** As many whole words as `src` fills. */
    method StoreFull(at: nat, src: seq<byte>) returns (n: nat)
      requires |words| == N_DB_SETS && |data| == BLOCK
      requires at + |src| <= BLOCK && (src == [] || at % 64 == 0)
      modifies this`words, this`data
      ensures n <= |src| < n + 64 && (n == |src| || (at + n) % 64 == 0)
      ensures Stored(old(words), old(data), words, data, at, src[..n])
    {
      var nFull := |src| / 64;
      n := nFull * 64;
      if nFull != 0 {
        data := Overwrite(data, at, src[..n]);
        words := Overwrite(words, at / 64, seq(nFull, _ => ALL_ONES));
        MarkedByFull(old(words), words, at / 64, nFull);
      }
    }

    /** The last bytes, fewer than a word of them. */
    method StoreTail(at: nat, src: seq<byte>)
      requires |words| == N_DB_SETS && |data| == BLOCK
      requires at + |src| <= BLOCK && |src| < 64 && (src == [] || at % 64 == 0)
      modifies this`words, this`data
      ensures Stored(old(words), old(data), words, data, at, src)
    {
      if src != [] {
        var mask := OneShl(|src|) - 1;
        forall k: nat | k < 64 ensures Bit(mask, k) <==> k < |src| {
          BitOfLowMask(|src|, k);
        }
        StorePart(at / 64, mask, at, src);
      }
    }

    /** block_write: stores as much of `src` as fits from `blockOff` on. */
    method Write(blockOff: nat, src: seq<byte>) returns (nw: nat)
      requires Valid() && blockOff < BLOCK
      modifies this
      ensures Valid()
      ensures nw == Min(|src|, BLOCK - blockOff)
      ensures Stored(old(words), old(data), words, data, blockOff, src[..nw])
    {
      nw := if |src| > BLOCK - blockOff then BLOCK - blockOff else |src|;
      ghost var ws0, ds0 := words, data;
      var n := StoreHead(blockOff, src[..nw]);
      ghost var ws1, ds1 := words, data;
      var m := StoreFull(blockOff + n, src[..nw][n..]);
      ghost var ws2, ds2 := words, data;
      StoreTail(blockOff + n + m, src[..nw][n + m..]);
      StoredInParts(ws0, ds0, ws1, ds1, ws2, ds2, words, data, blockOff, src[..nw], n, m);
      StoredKeepsTailClear(ws0, ds0, words, data, blockOff, src[..nw]);
    }

    /** has_bytes_after: is any byte at `from` or later valid? */
    method HasBytesAfter(from: nat) returns (has: bool)
      requires Valid() && from <= BLOCK
      ensures has <==> exists i: nat :: from <= i < BLOCK && Has(words, i)
    {
      var w, bit := from / 64, from % 64;
      WordNonZeroFrom(words, w, bit);
      has := 0 != Shr(words[w], bit);
      w := w + 1;
      while w < N_DB_SETS
        invariant from / 64 < w <= N_DB_SETS
        invariant has <==> exists i: nat :: from <= i < w * 64 && Has(words, i)
      {
        WordNonZeroFrom(words, w, 0);
        has := has || 0 != words[w];
        w := w + 1;
      }
    }

    /** n_avail_bytes: length of the run of valid bytes that starts at bit `bit` of word `start`. */
    method NAvailBytes(start: nat, bit: nat) returns (count: nat)
      requires Valid() && bit < 64 && start * 64 + bit < BLOCK
      ensures MaximalRun(words, start * 64 + bit, count)
    {
      count := CountOnes(start, bit);
      TailEndsRun(words, start * 64 + bit, count);
    }

    /** The counting itself: ones from bit `bit` of word `start` on. */
    method CountOnes(start: nat, bit: nat) returns (count: nat)
      requires |words| == N_DB_SETS && bit < 64 && start < N_DB_SETS
      ensures AllValid(words, start * 64 + bit, start * 64 + bit + count)
      ensures start * 64 + bit + count < N_DB_SETS * 64 ==> !Has(words, start * 64 + bit + count)
    {
      ghost var from := start * 64 + bit;
      var w := start;
      var part := Not(Shr(words[w], bit));
      RunInWord(words[w], bit);
      if part != 0 {
        count := Ctz(part);
        RunWithinWord(words, w, bit, count);
        if count < 64 - bit {
          return;
        }
      } else {
        count := 64;
        RunWithinWord(words, w, bit, count);
      }
      w := w + 1;
      while w < N_DB_SETS && words[w] == ALL_ONES
        invariant start < w <= N_DB_SETS
        invariant from + count == w * 64
        invariant AllValid(words, from, from + count)
      {
        FullWordExtends(words, from, w);
        count := count + 64;
        w := w + 1;
      }
      if w < N_DB_SETS {
        part := Not(words[w]);
        RunInWord(words[w], 0);
        RunWithinWord(words, w, 0, if part == 0 then 64 else Ctz(part));
        if part != 0 {
          count := count + Ctz(part);
        } else {
          assert false;  // the loop stopped at a word that is not full
        }
      }
    }
  }
}
