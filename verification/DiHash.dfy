/** The hash handler of incoming stream data, as the object the stream uses. */
module DiHash {
  import opened Basics
  import opened StreamData
  import opened Words
  import opened DataBlocks
  import HashTable
  import HashSpec

  /** What one block stores, as a value. */
  datatype Image = Image(words: seq<Word>, data: seq<byte>)

  /** The ghost state of a handler: its blocks by offset, what each stores, and what the whole
      handler means. */
  datatype Shadow = Shadow(blocks: map<nat, DataBlock>, repr: set<DataBlock>, images: map<nat, Image>,
                           model: HashSpec.HState)

  /** Every block shows the bytes of `m` that fall into its range. */
  ghost predicate Pictures(images: map<nat, Image>, m: Bytes) {
    forall k :: k in images ==> ShowsAt(images[k], k, m)
  }

  ghost predicate ShowsAt(i: Image, k: nat, m: Bytes) {
    |i.words| == N_DB_SETS && TailClear(i.words) && Shows(i.words, i.data, k, m)
  }

  /** Bytes added to one block do not matter to another. */
  lemma OtherBlockSame(i: Image, k: nat, m: Bytes, key: nat, f: Frame)
    requires ShowsAt(i, k, m)
    requires k != key && HashSpec.Aligned(k) && HashSpec.Aligned(key)
    requires key <= f.off && f.End() <= key + BLOCK
    ensures ShowsAt(i, k, m + Content(f))
  {
    forall o: nat | k <= o < k + BLOCK
      ensures !f.Covers(o)
    {
      HashSpec.KeyUnique(k, o);
      if key <= o < key + BLOCK {
        HashSpec.KeyUnique(key, o);
      }
    }
  }

  /** Storing the bytes of a frame in one block adds them to the picture. */
  lemma PicturesAfterWrite(images: map<nat, Image>, s: HashSpec.HState, key: nat, i': Image, f: Frame)
    requires HashSpec.Inv(s) && images.Keys == s.keys && key in images
    requires Pictures(images, s.bytes)
    requires key <= f.off && f.End() <= key + BLOCK && TailClearImage(i')
    requires Stored(images[key].words, images[key].data, i'.words, i'.data, f.off - key, f.data)
    ensures Pictures(images[key := i'], s.bytes + Content(f))
  {
    var m := s.bytes;
    forall k | k in images
      ensures ShowsAt(images[key := i'][k], k, m + Content(f))
    {
      assert ShowsAt(images[k], k, m);
      if k == key {
        StoredShows(images[k].words, images[k].data, i'.words, i'.data, k, f, m);
      } else {
        OtherBlockSame(images[k], k, m, key, f);
      }
    }
  }

  ghost predicate TailClearImage(i: Image) {
    |i.words| == N_DB_SETS && TailClear(i.words)
  }

  /** An empty block joins the picture without changing it. */
  lemma PicturesAfterNew(images: map<nat, Image>, s: HashSpec.HState, key: nat, i: Image)
    requires HashSpec.Inv(s) && key !in s.keys && HashSpec.Aligned(key)
    requires Pictures(images, s.bytes)
    requires TailClearImage(i) && |i.data| == BLOCK
    requires forall j: nat :: j < N_DB_SETS * 64 ==> !Has(i.words, j)
    ensures Pictures(images[key := i], s.bytes)
  {
    forall o: nat | key <= o < key + BLOCK
      ensures o !in s.bytes
    {
      HashSpec.KeyUnique(key, o);
    }
    assert ShowsAt(i, key, s.bytes);
  }

  /** `out` is what `m` holds from offset `r` on. */
  ghost predicate Reads(out: seq<byte>, m: Bytes, r: nat) {
    forall o: nat :: r <= o < r + |out| ==> o in m && m[o] == out[o - r]
  }

  /** The copy out of the block's storage reads the map. */
  lemma CopyOutReads(ws: seq<Word>, ds: seq<byte>, off: nat, m: Bytes, at: nat, n: nat)
    requires Shows(ws, ds, off, m) && at + n <= BLOCK
    requires forall o: nat :: off + at <= o < off + at + n ==> o in m
    ensures Reads(ds[at..at + n], m, off + at)
  {
  }

  /** The bit test at a stream offset tells whether its byte is there. */
  lemma BitTest(ws: seq<Word>, ds: seq<byte>, off: nat, m: Bytes, r: nat)
    requires Shows(ws, ds, off, m) && off <= r < off + BLOCK
    ensures AndWord(ws[(r - off) / 64], OneShl((r - off) % 64)) != 0 <==> r in m
  {
    var i := r - off;
    SingleBit(ws[i / 64], i % 64);
    assert Has(ws, i) ==> off + i in m;
  }

  lemma SameInBlockShows(i: Image, k: nat, m: Bytes, m': Bytes)
    requires ShowsAt(i, k, m)
    requires forall o: nat :: k <= o < k + BLOCK ==> (o in m <==> o in m') && (o in m ==> m[o] == m'[o])
    ensures ShowsAt(i, k, m')
  {
  }

  /** Without one block, the others show what is left. */
  lemma PicturesAfterDrop(images: map<nat, Image>, s: HashSpec.HState, key: nat)
    requires HashSpec.Inv(s) && images.Keys == s.keys
    requires Pictures(images, s.bytes)
    ensures Pictures(images - {key}, HashSpec.Drop(s, key).bytes)
  {
    hide ShowsAt;
    var m := HashSpec.Drop(s, key).bytes;
    forall k | k in images && k != key
      ensures ShowsAt(images[k], k, m)
    {
      assert ShowsAt(images[k], k, s.bytes);
      forall o: nat | k <= o < k + BLOCK
        ensures (o in s.bytes <==> o in m) && (o in s.bytes ==> s.bytes[o] == m[o])
      {
        HashSpec.KeyUnique(k, o);
      }
      SameInBlockShows(images[k], k, s.bytes, m);
    }
  }

  class HashDataIn {
    var buckets: HashTable.Buckets
    var nbits: nat
    var count: nat
    var hasFin: bool
    var finOff: nat
    var lastBlock: DataBlock?
    var frame: HashSpec.View
    var switchImpl: bool

    ghost var shadow: Shadow

    ghost function Model(): HashSpec.HState
      reads this`shadow
    {
      shadow.model
    }

    ghost predicate InTable(b: DataBlock)
      reads this
    {
      b.off in shadow.blocks && shadow.blocks[b.off] == b
    }

    /** The table holds exactly `blocks`, at most half as many as there are buckets. */
    ghost predicate TableHolds(blocks: map<nat, DataBlock>)
      reads this`buckets, this`nbits, this`count
    {
      && nbits >= 1
      && HashTable.Holds(buckets, nbits, blocks)
      && count == |blocks|
      && 2 * count <= |buckets|
    }

    /** The blocks in the heap are as `shadow` says. */
    ghost predicate BlocksMatch()
      reads this`shadow, shadow.repr
    {
      && shadow.images.Keys == shadow.blocks.Keys == shadow.model.keys
      && forall k :: k in shadow.blocks ==>
           var b := shadow.blocks[k];
           b in shadow.repr && b.off == k && Image(b.words, b.data) == shadow.images[k]
    }

    /** The same for every block but `b`. */
    ghost predicate MatchExcept(b: DataBlock)
      reads this, shadow.repr
    {
      && shadow.images.Keys == shadow.blocks.Keys == shadow.model.keys
      && InTable(b) && b in shadow.repr
      && forall k :: k in shadow.blocks && k != b.off ==>
           var c := shadow.blocks[k];
           c in shadow.repr && c.off == k && Image(c.words, c.data) == shadow.images[k]
    }

    ghost predicate Valid()
      reads this`buckets, this`nbits, this`count, this`hasFin, this`finOff, this`shadow, shadow.repr
    {
      && TableHolds(shadow.blocks)
      && BlocksMatch()
      && shadow.model.fin == (if hasFin then Some(finOff) else None)
      && HashSpec.Inv(shadow.model)
      && Pictures(shadow.images, shadow.model.bytes)
    }

    /** my_log2: position of the highest set bit, counted from one. */
    static function Log2(sz: nat): (n: nat)
      ensures sz > 0 ==> Pow2(n) > sz && Pow2(n) <= 2 * sz
    {
      if sz == 0 then 0 else 1 + Log2(sz / 2)
    }

    /** lsquic_data_in_hash_new. */
    constructor (byteage: nat)
      ensures Valid() && Model() == HashSpec.EMPTY && shadow.repr == {}
    {
      var bits := if byteage >= BLOCK then Log2(byteage / BLOCK) + 2 else 3;
      nbits := bits;
      buckets := seq(Pow2(bits), _ => []);
      count := 0;
      hasFin, finOff := false, 0;
      lastBlock := null;
      frame := HashSpec.View(None, 0, 0, 0, false);
      switchImpl := false;
      shadow := Shadow(map[], {}, map[], HashSpec.EMPTY);
    }

    /** hash_grow. */
    method GrowTable(ghost blocks: map<nat, DataBlock>)
      requires TableHolds(blocks)
      modifies this`buckets, this`nbits
      ensures TableHolds(blocks)
      ensures |buckets| == 2 * old(|buckets|)
    {
      buckets := HashTable.Grow(buckets, nbits, blocks);
      nbits := nbits + 1;
    }

    /** hash_insert: the table doubles first when it is half full. */
    method InsertBlock(b: DataBlock, ghost blocks: map<nat, DataBlock>)
      requires TableHolds(blocks) && b.off !in blocks
      modifies this`buckets, this`nbits, this`count
      ensures TableHolds(blocks[b.off := b])
      ensures |buckets| >= old(|buckets|)
    {
      assert |buckets| == 2 * Pow2(nbits - 1);
      if count >= |buckets| / 2 {
        GrowTable(blocks);
      }
      HashTable.InsertHolds(buckets, nbits, blocks, b);
      var n := HashTable.BuckNo(nbits, b.off);
      buckets := buckets[n := buckets[n] + [b]];
      count := count + 1;
    }

    /** hash_remove. */
    method RemoveBlock(b: DataBlock, ghost blocks: map<nat, DataBlock>)
      requires TableHolds(blocks) && b.off in blocks && blocks[b.off] == b
      modifies this`buckets, this`count
      ensures TableHolds(blocks - {b.off})
    {
      var n := HashTable.BuckNo(nbits, b.off);
      ghost var before := buckets;
      buckets := buckets[n := HashTable.Without(buckets[n], b)];
      HashTable.RemoveHolds(before, nbits, blocks, b, buckets);
      assert blocks.Keys == (blocks - {b.off}).Keys + {b.off};
      count := count - 1;
    }

    /** Records in the ghost state that the empty block `b` joined the table. */
    ghost method NoteNew(b: DataBlock)
      requires BlocksMatch() && HashSpec.Inv(shadow.model) && Pictures(shadow.images, shadow.model.bytes)
      requires HashSpec.Aligned(b.off) && b.off !in shadow.blocks
      requires b.Valid() && forall i: nat :: i < N_DB_SETS * 64 ==> !Has(b.words, i)
      modifies this`shadow
      ensures BlocksMatch() && HashSpec.Inv(shadow.model) && Pictures(shadow.images, shadow.model.bytes)
      ensures shadow.repr == old(shadow.repr) + {b}
      ensures shadow.blocks == old(shadow.blocks)[b.off := b]
      ensures Model() == old(Model()).(keys := old(Model()).keys + {b.off})
    {
      hide HashSpec.Inv, Pictures, HashSpec.Aligned;
      var s, i := shadow, Image(b.words, b.data);
      HashSpec.NewKeyKeepsInv(s.model, b.off);
      PicturesAfterNew(s.images, s.model, b.off, i);
      shadow := Shadow(s.blocks[b.off := b], s.repr + {b}, s.images[b.off := i],
                       s.model.(keys := s.model.keys + {b.off}));
    }

    /** new_block. */
    method NewBlock(key: nat) returns (b: DataBlock)
      requires Valid() && HashSpec.Aligned(key) && key !in shadow.blocks
      modifies this`buckets, this`nbits, this`count, this`shadow
      ensures Valid()
      ensures fresh(b) && shadow.repr == old(shadow.repr) + {b}
      ensures b.off == key && key in shadow.blocks && shadow.blocks[key] == b
      ensures Model() == old(Model()).(keys := old(Model()).keys + {key})
    {
      hide TableHolds, HashSpec.Inv, Pictures, HashSpec.Aligned, BlocksMatch;
      b := new DataBlock(key);
      InsertBlock(b, shadow.blocks);
      NoteNew(b);
    }

    /** Records in the ghost state that `b` now stores `i`, which adds the bytes of `f`. */
    ghost method NoteWrite(b: DataBlock, f: Frame)
      requires HashSpec.Inv(shadow.model) && Pictures(shadow.images, shadow.model.bytes)
      requires MatchExcept(b)
      requires b.Valid() && b.off <= f.off && f.End() <= b.off + BLOCK
      requires Stored(shadow.images[b.off].words, shadow.images[b.off].data, b.words, b.data, f.off - b.off, f.data)
      requires shadow.model.fin.Some? ==> !f.Covers(shadow.model.fin.value)
      modifies this`shadow
      ensures BlocksMatch() && HashSpec.Inv(shadow.model) && Pictures(shadow.images, shadow.model.bytes)
      ensures shadow.blocks == old(shadow.blocks) && shadow.repr == old(shadow.repr)
      ensures Model() == old(Model()).(bytes := old(Model()).bytes + Content(f))
    {
      hide HashSpec.Inv, Pictures, Stored;
      var s, i := shadow, Image(b.words, b.data);
      HashSpec.CopyIntoBlockKeepsInv(s.model, f, b.off);
      PicturesAfterWrite(s.images, s.model, b.off, i, f);
      shadow := s.(model := s.model.(bytes := s.model.bytes + Content(f)), images := s.images[b.off := i]);
    }

    /** block_write into the block at `key`. */
    method WriteBlock(b: DataBlock, off: nat, src: seq<byte>) returns (nw: nat)
      requires Valid() && InTable(b) && HashSpec.Key(off) == b.off
      requires Model().fin.Some? ==> off + |src| <= Model().fin.value
      modifies this`shadow, b
      ensures Valid() && shadow.blocks == old(shadow.blocks) && shadow.repr == old(shadow.repr)
      ensures nw <= |src| && nw == Min(|src|, b.off + BLOCK - off)
      ensures Model() == old(Model()).(bytes := old(Model()).bytes + Content(Frame(off, src[..nw], false)))
    {
      hide TableHolds, HashSpec.Inv, Pictures, HashSpec.Key, HashSpec.Aligned, Stored, DataBlock.Valid;
      BlockIsValid(b.off);
      nw := b.Write(off - b.off, src);
      NoteWrite(b, Frame(off, src[..nw], false));
    }

    lemma BlockIsValid(k: nat)
      requires Valid() && k in shadow.blocks
      ensures shadow.blocks[k].Valid()
      ensures Shows(shadow.blocks[k].words, shadow.blocks[k].data, k, shadow.model.bytes)
      ensures |shadow.blocks[k].data| == BLOCK
    {
      assert ShowsAt(shadow.images[k], k, shadow.model.bytes);
    }

    /** hash_find. */
    method FindBlock(key: nat) returns (b: DataBlock?)
      requires Valid()
      ensures b == null <==> key !in Model().keys
      ensures b != null ==> key in shadow.blocks && b == shadow.blocks[key] && b.off == key
    {
      hide HashTable.Holds, HashSpec.Inv, Pictures;
      b := HashTable.Find(buckets, nbits, shadow.blocks, key);
    }

    /** One round of the copying loop: find the block or make it, and write what fits. */
    method CopyToBlock(off: nat, src: seq<byte>) returns (b: DataBlock, nw: nat)
      requires Valid()
      requires Model().fin.Some? ==> off + |src| <= Model().fin.value
      modifies this`buckets, this`nbits, this`count, this`shadow, shadow.repr
      ensures Valid() && fresh(shadow.repr - old(shadow.repr))
      ensures b.off == HashSpec.Key(off) && InTable(b)
      ensures nw <= |src| && nw == Min(|src|, HashSpec.Key(off) + BLOCK - off)
      ensures Model() == HashSpec.CopyPart(old(Model()), off, src[..nw])
    {
      hide TableHolds, HashSpec.Inv, Pictures, HashSpec.Key, HashSpec.Aligned, DataBlock.Valid;
      var found := FindBlock(HashSpec.Key(off));
      if found == null {
        b := NewBlock(HashSpec.Key(off));
      } else {
        b := found;
        assert Model().keys == Model().keys + {HashSpec.Key(off)};
      }
      nw := WriteBlock(b, off, src);
    }

    /** The copying loop: stores all of `t`; `b` is the last block it wrote to. */
    method CopyAll(t: Frame) returns (b: DataBlock)
      requires Valid()
      requires Model().fin.Some? ==> t.End() <= Model().fin.value
      modifies this`buckets, this`nbits, this`count, this`shadow, shadow.repr
      ensures Valid() && fresh(shadow.repr - old(shadow.repr))
      ensures Model() == HashSpec.Copy(old(Model()), t)
      ensures b.off == HashSpec.LastKey(t) && InTable(b)
    {
      hide Valid, HashSpec.Key, HashSpec.LastKey, HashSpec.Copy, HashSpec.CopyPart;
      ghost var s := Model();
      var n: nat;
      b, n := CopyToBlock(t.off, t.data);
      HashSpec.CopyFirst(s, t, n);
      while n < |t.data|
        invariant Valid() && fresh(shadow.repr - old(shadow.repr))
        invariant n <= |t.data| && Model() == HashSpec.Copy(s, HashSpec.Take(t, n)) && Model().fin == s.fin
        invariant n < |t.data| ==> t.off + n == HashSpec.LastKey(HashSpec.Take(t, n)) + BLOCK
        invariant b.off == HashSpec.LastKey(HashSpec.Take(t, n)) && InTable(b)
      {
        ghost var was := n;
        var m: nat;
        HashSpec.TouchedInTurn(t, n, Min(|t.data| - n, BLOCK));
        b, m := CopyToBlock(t.off + n, t.data[n..]);
        n := n + m;
        HashSpec.CopyNext(s, t, was, m);
      }
      assert HashSpec.Take(t, n) == t;
    }

    /** lsquic_data_in_hash_insert_data_frame. */
    method InsertDataFrame(f: Frame, r: nat) returns (res: InsFrame)
      requires Valid()
      modifies this`buckets, this`nbits, this`count, this`shadow, this`hasFin, this`finOff, shadow.repr
      ensures Valid() && fresh(shadow.repr - old(shadow.repr))
      ensures (Model(), res) == HashSpec.Insert(old(Model()), f, r)
    {
      hide Valid, HashSpec.LastKey, HashSpec.Copy, HashSpec.SeesPastFin;
      FinIsRecorded();
      if f.End() < r {
        return if f.fin then Err else Dup;
      }
      if hasFin && ((f.fin && f.End() != finOff) || f.End() > finOff) {
        return Err;
      }
      var t := if f.off < r then Frame(r, f.data[r - f.off..], f.fin) else f;
      assert t == HashSpec.Trim(f, r);
      var b := CopyAll(t);
      res := Ok;
      if f.fin {
        var past := LooksPastFin(b, t);
        if past {
          return Err;
        }
        RecordFin(t);
      }
    }

    lemma FinIsRecorded()
      requires Valid()
      ensures Model().fin == (if hasFin then Some(finOff) else None)
    {
    }

    /** The look-ahead before FIN is recorded. */
    method LooksPastFin(b: DataBlock, t: Frame) returns (past: bool)
      requires Valid() && b.off == HashSpec.LastKey(t) && InTable(b)
      ensures past == HashSpec.SeesPastFin(Model(), t)
    {
      hide Valid, HashSpec.LastKey;
      var has := BytesPast(b, t.End() - b.off);
      var next := FindBlock(b.off + BLOCK);
      past := has || next != null;
    }

    /** has_bytes_after on a block of the table. */
    method BytesPast(b: DataBlock, from: nat) returns (has: bool)
      requires Valid() && InTable(b) && from <= BLOCK
      ensures has <==> exists o :: o in Model().bytes && b.off + from <= o < b.off + BLOCK
    {
      hide TableHolds, HashSpec.Inv, Pictures;
      BlockIsValid(b.off);
      has := b.HasBytesAfter(from);
      BytesAfter(b.words, b.data, b.off, Model().bytes, from);
    }

    /** The FIN flag and offset, once the look-ahead saw nothing. */
    method RecordFin(t: Frame)
      requires Valid() && !HashSpec.SeesPastFin(Model(), t)
      modifies this`hasFin, this`finOff, this`shadow
      ensures Valid() && shadow.repr == old(shadow.repr)
      ensures Model() == old(Model()).(fin := Some(t.End()))
    {
      hide TableHolds, Pictures;
      HashSpec.FinByteAbsent(Model(), t);
      hasFin, finOff := true, t.End();
      shadow := shadow.(model := shadow.model.(fin := Some(t.End())));
    }

    /** `frame` was set up by a get, and the block it points into is still in the table. */
    ghost predicate Held()
      reads this
    {
      && (lastBlock == null ==> frame.block.None? && frame.fin && frame.size == 0)
      && (lastBlock != null ==> frame.block == Some(lastBlock.off) && InTable(lastBlock) && frame.readOff <= BLOCK)
    }

    /** setup_data_frame: readable when there is a byte, or FIN, at the read offset. */
    method SetupDataFrame(r: nat, b: DataBlock) returns (found: bool)
      requires Valid() && InTable(b) && b.off == HashSpec.Key(r)
      modifies this`lastBlock, this`frame
      ensures Valid()
      ensures found == HashSpec.Get(Model(), r).Some?
      ensures found ==> Held() && frame == HashSpec.Get(Model(), r).value
    {
      hide TableHolds, HashSpec.Inv, Pictures, HashSpec.Key, DataBlock.Valid, HashSpec.RunBelow, Shows;
      var at := r - b.off;
      var valid := ByteIsValid(b, r);
      if valid {
        var n := Avail(b, r);
        lastBlock := b;
        frame := HashSpec.View(Some(b.off), b.off, at, at + n, hasFin && at + (at + n) == finOff);
        found := true;
      } else if hasFin && r == finOff {
        lastBlock := b;
        frame := HashSpec.View(Some(b.off), b.off, at, at, true);
        found := true;
      } else {
        found := false;
      }
    }

    /** The bit test at the read offset. */
    method ByteIsValid(b: DataBlock, r: nat) returns (valid: bool)
      requires Valid() && InTable(b) && b.off <= r < b.off + BLOCK
      ensures valid == (r in Model().bytes)
    {
      hide TableHolds, HashSpec.Inv, Pictures, Shows;
      BlockIsValid(b.off);
      var i := r - b.off;
      var mask := OneShl(i % 64);
      valid := 0 != AndWord(b.words[i / 64], mask);
      BitTest(b.words, b.data, b.off, Model().bytes, r);
    }

    /** n_avail_bytes at the read offset. */
    method Avail(b: DataBlock, r: nat) returns (n: nat)
      requires Valid() && InTable(b) && b.off <= r < b.off + BLOCK
      ensures n == HashSpec.RunBelow(Model().bytes, r, b.off + BLOCK)
    {
      hide TableHolds, HashSpec.Inv, Pictures, HashSpec.RunBelow, MaximalRun, Shows;
      BlockIsValid(b.off);
      var i := r - b.off;
      n := b.NAvailBytes(i / 64, i % 64);
      MaximalRunIsRunBelow(b.words, b.data, b.off, Model().bytes, i, n);
    }

    /** hash_di_get_frame. */
    method GetFrame(r: nat) returns (found: bool)
      requires Valid()
      modifies this`lastBlock, this`frame
      ensures Valid()
      ensures found == HashSpec.Get(Model(), r).Some?
      ensures found ==> Held() && frame == HashSpec.Get(Model(), r).value
    {
      hide TableHolds, HashSpec.Inv, Pictures, HashSpec.Key;
      var key := HashSpec.Key(r);
      var b := FindBlock(key);
      if b == null {
        if hasFin && r == finOff {
          lastBlock := null;
          frame := HashSpec.View(None, key, 0, 0, true);
          return true;
        } else {
          return false;
        }
      }
      found := SetupDataFrame(r, b);
    }

    /** What the stream does with a frame it got: copies `n` bytes out and moves `df_read_off`. */
    method Read(n: nat) returns (out: seq<byte>)
      requires Valid() && Held()
      requires frame.readOff + n <= frame.size <= BLOCK
      requires forall o: nat :: frame.off + frame.readOff <= o < frame.off + frame.size ==> o in Model().bytes
      requires frame.block.Some? ==> frame.block.value == frame.off
      modifies this`frame
      ensures Valid() && Held() && frame == old(frame).(readOff := old(frame.readOff) + n)
      ensures |out| == n
      ensures Reads(out, Model().bytes, old(frame).off + old(frame).readOff)
    {
      hide Valid, Shows, DataBlock.Valid;
      if lastBlock == null {
        out := [];
      } else {
        BlockIsValid(lastBlock.off);
        out := lastBlock.data[frame.readOff..frame.readOff + n];
        CopyOutReads(lastBlock.words, lastBlock.data, frame.off, Model().bytes, frame.readOff, n);
      }
      frame := frame.(readOff := frame.readOff + n);
    }

    /** hash_di_frame_done. */
    method FrameDone()
      requires Valid() && Held()
      modifies this`buckets, this`count, this`shadow, this`switchImpl
      ensures Valid() && shadow.repr == old(shadow.repr)
      ensures Model() == HashSpec.Done(old(Model()), frame)
      ensures frame.block.Some? ==>
        (frame.block.value in Model().keys <==> HashSpec.HasUnread(old(Model()), frame))
      ensures switchImpl == (old(switchImpl) ||
        (&& frame.block.Some? && !HashSpec.HasUnread(old(Model()), frame)
         && old(Model()).keys == {frame.block.value} && old(Model()).fin == None))
    {
      hide Valid;
      DoneFrees();
      if lastBlock != null {
        var b: DataBlock := lastBlock;
        var has := BytesPast(b, frame.readOff);
        if frame.readOff == BLOCK || !has {
          DropBlock(b);
          FinIsRecorded();
          if count == 0 && !hasFin {
            NoteSwitch();
          }
        }
      } else {
        assert frame.fin && frame.size == 0;
      }
    }

    lemma DoneFrees()
      requires Valid() && Held()
      ensures frame.block.Some? ==>
        && frame.block.value in Model().keys
        && (frame.block.value in HashSpec.Done(Model(), frame).keys <==> HashSpec.HasUnread(Model(), frame))
        && HashSpec.Done(Model(), frame).keys - {frame.block.value} == Model().keys - {frame.block.value}
    {
      if frame.block.Some? {
        HashSpec.DoneFreesIff(Model(), frame);
      }
    }

    /** Sets DI_SWITCH_IMPL. */
    method NoteSwitch()
      requires Valid()
      modifies this`switchImpl
      ensures Valid() && switchImpl
    {
      switchImpl := true;
    }

    method DropBlock(b: DataBlock)
      requires Valid() && InTable(b)
      modifies this`buckets, this`count, this`shadow
      ensures Valid() && shadow.repr == old(shadow.repr)
      ensures Model() == HashSpec.Drop(old(Model()), b.off) != old(Model())
      ensures count == 0 <==> Model().keys == {}
    {
      hide TableHolds, HashSpec.Inv, Pictures, HashSpec.Drop, BlocksMatch;
      RemoveBlock(b, shadow.blocks);
      NoteDrop(b.off);
      CountIsKeys();
    }

    lemma CountIsKeys()
      requires TableHolds(shadow.blocks) && BlocksMatch()
      ensures count == 0 <==> Model().keys == {}
    {
      assert count == |shadow.blocks.Keys|;
    }

    /** Records in the ghost state that the block at `key` left. */
    ghost method NoteDrop(key: nat)
      requires BlocksMatch() && HashSpec.Inv(shadow.model) && Pictures(shadow.images, shadow.model.bytes)
      requires key in shadow.blocks
      modifies this`shadow
      ensures BlocksMatch() && HashSpec.Inv(shadow.model) && Pictures(shadow.images, shadow.model.bytes)
      ensures shadow.repr == old(shadow.repr) && shadow.blocks == old(shadow.blocks) - {key}
      ensures Model() == HashSpec.Drop(old(Model()), key) != old(Model())
      ensures Model().fin == old(Model()).fin
    {
      hide HashSpec.Inv, Pictures;
      var s := shadow;
      HashSpec.DropKeepsInv(s.model, key);
      PicturesAfterDrop(s.images, s.model, key);
      assert key in s.model.keys && key !in HashSpec.Drop(s.model, key).keys;
      shadow := s.(blocks := s.blocks - {key}, images := s.images - {key}, model := HashSpec.Drop(s.model, key));
    }

    /** hash_di_readable_bytes. */
    method ReadableBytes(r: nat) returns (n: nat)
      requires Valid()
      modifies this`lastBlock, this`frame
      ensures Valid()
      ensures IsRun(Model().bytes, r, n)
    {
      hide Valid, HashSpec.Get, HashSpec.Inv;
      var at := r;
      ghost var top := HashSpec.Top(Model().bytes);
      ModelKeepsInv();
      var found := GetFrame(at);
      while found && frame.size - frame.readOff > 0
        invariant Valid() && Model() == old(Model())
        invariant r <= at && forall o: nat :: r <= o < at ==> o in Model().bytes
        invariant found == HashSpec.Get(Model(), at).Some?
        invariant found ==> frame == HashSpec.Get(Model(), at).value
        decreases top - at
      {
        HashSpec.GetHandsOutRun(Model(), at);
        at := at + (frame.size - frame.readOff);
        found := GetFrame(at);
      }
      HashSpec.GetHandsOutRun(Model(), at);
      n := at - r;
    }

    lemma ModelKeepsInv()
      requires Valid()
      ensures HashSpec.Inv(Model())
    {
    }
  }

  /** The run counted in the bitmap is the run of stream bytes. */
  lemma MaximalRunIsRunBelow(ws: seq<Word>, ds: seq<byte>, off: nat, m: Bytes, i: nat, n: nat)
    requires i < BLOCK && Shows(ws, ds, off, m) && MaximalRun(ws, i / 64 * 64 + i % 64, n)
    ensures n == HashSpec.RunBelow(m, off + i, off + BLOCK)
  {
    assert i / 64 * 64 + i % 64 == i;
    hide MaximalRun, Shows, HashSpec.RunBelow;
    RunOfBytes(ws, ds, off, m, i, n);
    HashSpec.RunBelowUnique(m, off + i, off + BLOCK, n);
  }
}
