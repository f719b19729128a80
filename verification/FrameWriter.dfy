/** Writing a header block to the buffer list: a placeholder first, the frame header over it once
    the length of the frame is known. */
module FrameWriter {
  import opened Basics
  import opened Http2
  import opened HeaderFraming
  import opened FrabList

  /** Storage position `at` of buffer `i` is at `pos` in the contents. */
  ghost predicate Points(fs: seq<Image>, i: nat, at: nat, pos: nat)
    requires Ranged(fs)
  {
    i < |fs| && fs[i].off <= at <= fs[i].size && Start(fs, i) + at - fs[i].off == pos
  }

  lemma PointsStays(a: seq<Image>, b: seq<Image>, i: nat, at: nat, pos: nat)
    requires Ranged(a) && Ranged(b) && Extends(a, b) && Points(a, i, at, pos)
    ensures Points(b, i, at, pos)
  {
  }

  lemma {:induction false} StartNext(fs: seq<Image>, i: nat)
    requires Ranged(fs) && i < |fs|
    ensures Start(fs, i + 1) == Start(fs, i) + fs[i].size - fs[i].off
    decreases i
  {
    if i > 0 {
      StartNext(fs[1..], i - 1);
    } else {
      assert Start(fs[1..], 0) == 0;
    }
  }

  lemma {:induction false} StartOfAll(fs: seq<Image>)
    requires Ranged(fs)
    ensures Start(fs, |fs|) == |Contents(fs)|
    decreases |fs|
  {
    if fs != [] {
      StartOfAll(fs[1..]);
    }
  }

  /** The end of what has been written. */
  lemma PointsAtEnd(fs: seq<Image>)
    requires Ranged(fs) && fs != []
    ensures Points(fs, |fs| - 1, fs[|fs| - 1].size, |Contents(fs)|)
  {
    StartOfAll(fs);
    StartNext(fs, |fs| - 1);
  }

  /** A place with nine bytes of contents before it has them in its own buffer, or is in a buffer
      that follows a full one with the rest. */
  lemma HeaderIsHere(fs: seq<Image>, cap: nat, i: nat, at: nat, pos: nat)
    requires Packed(fs, cap) && cap >= HEADER_SIZE && Points(fs, i, at, pos) && pos >= HEADER_SIZE
    ensures at >= HEADER_SIZE ==> fs[i].off <= at - HEADER_SIZE
    ensures at < HEADER_SIZE ==>
              && i > 0 && fs[i].off == 0 && fs[i - 1].size == cap
              && fs[i - 1].off <= cap - HEADER_SIZE + at
              && Start(fs, i - 1) + (cap - HEADER_SIZE + at) - fs[i - 1].off == pos - HEADER_SIZE
  {
    if i > 0 {
      StartNext(fs, i - 1);
    }
  }

  lemma {:induction false} PatchMovesNothing(fs: seq<Image>, i: nat, at: nat, src: seq<byte>, j: nat)
    requires i < |fs| && Ranged(fs) && at + |src| <= |fs[i].buf| && j <= |fs|
    ensures Ranged(Patch(fs, i, at, src))
    ensures Start(Patch(fs, i, at, src), j) == Start(fs, j)
  {
    StartOfPrefix(Patch(fs, i, at, src), fs, j);
  }

  class HeaderFramer {
    const fral: Fral
    const block: Block
    var ptrFrab: FrameBuf?   // hfc_header_ptr
    var ptrOff: nat
    var curSz: nat
    var nFrames: nat
    ghost var idx: nat
    ghost var base: seq<byte>
    ghost var payload: seq<byte>

    ghost predicate Ready()
      reads fral, fral.frabs
    {
      BlockOk(block) && fral.cap >= HEADER_SIZE && fral.Valid()
    }

    /** The saved pointer is just after the header that ends at `pos` of the contents. */
    ghost predicate PtrAt(pos: nat)
      requires Ready()
      reads this, fral, fral.frabs
    {
      idx < |fral.frabs| && ptrFrab == fral.frabs[idx] && Points(fral.images, idx, ptrOff, pos)
    }

    ghost predicate Valid()
      reads this, fral, fral.frabs
    {
      && Ready()
      && if nFrames == 0 then
           payload == [] && curSz == block.max && Contents(fral.images) == base
         else
           && payload != [] && nFrames == Count(block, payload) && curSz == LastSize(block, payload)
           && Contents(fral.images) == base + Open(block, 0, payload)
           && |Contents(fral.images)| >= curSz + HEADER_SIZE
           && PtrAt(|Contents(fral.images)| - curSz)
    }

    /** hfc_init: nothing is written yet, whatever the list still holds. */
    constructor (list: Fral, b: Block)
      requires list.Valid() && list.cap >= HEADER_SIZE && BlockOk(b)
      ensures Valid() && fral == list && block == b && nFrames == 0
      ensures base == Contents(list.images) && payload == []
    {
      fral, block := list, b;
      ptrFrab, ptrOff := null, 0;
      curSz, nFrames := b.max, 0;
      idx := 0;
      base, payload := Contents(list.images), [];
    }

    /** hfc_save_ptr. */
    method SavePtr()
      requires Ready() && fral.frabs != []
      modifies this`ptrFrab, this`ptrOff, this`idx
      ensures Ready() && PtrAt(|Contents(fral.images)|)
    {
      PointsAtEnd(fral.images);
      ptrFrab := fral.frabs[|fral.frabs| - 1];
      ptrOff := ptrFrab.size;
      idx := |fral.frabs| - 1;
    }

    /** The header is in one buffer. */
    method PatchWithin(h: seq<byte>, ghost pos: nat)
      requires Ready() && PtrAt(pos) && pos >= HEADER_SIZE && |h| == HEADER_SIZE && ptrOff >= HEADER_SIZE
      modifies fral`images, fral.frabs
      ensures Ready() && pos <= |Contents(old(fral.images))|
      ensures Contents(fral.images) == Overwrite(Contents(old(fral.images)), pos - HEADER_SIZE, h)
    {
      hide Contents, Start, Overwrite;
      var frab: FrameBuf := ptrFrab;
      HeaderIsHere(fral.images, fral.cap, idx, ptrOff, pos);
      fral.PatchBuffer(frab, idx, ptrOff - HEADER_SIZE, h);
    }

    /** The header straddles the boundary of two buffers. */
    method PatchAcross(h: seq<byte>, ghost pos: nat)
      requires Ready() && PtrAt(pos) && pos >= HEADER_SIZE && |h| == HEADER_SIZE && ptrOff < HEADER_SIZE
      modifies fral`images, fral.frabs
      ensures Ready() && pos <= |Contents(old(fral.images))|
      ensures Contents(fral.images) == Overwrite(Contents(old(fral.images)), pos - HEADER_SIZE, h)
    {
      hide Contents, Start, Overwrite, Extends;
      var frab: FrameBuf := ptrFrab;
      var left := HEADER_SIZE - ptrOff;
      ghost var fs := fral.images;
      HeaderIsHere(fs, fral.cap, idx, ptrOff, pos);
      var prev := fral.Before(frab, idx);
      fral.PatchBuffer(frab, idx, 0, h[left..]);
      PatchMovesNothing(fs, idx, 0, h[left..], idx - 1);
      fral.PatchBuffer(prev, idx - 1, prev.size - left, h[..left]);
      OverwriteTwo(Contents(fs), pos - HEADER_SIZE, h, left);
    }

    /** Copies the nine header bytes to just before the saved pointer. */
    method PatchHeader(h: seq<byte>, ghost pos: nat)
      requires Ready() && PtrAt(pos) && pos >= HEADER_SIZE && |h| == HEADER_SIZE
      modifies fral`images, fral.frabs
      ensures Ready() && pos <= |Contents(old(fral.images))|
      ensures Contents(fral.images) == Overwrite(Contents(old(fral.images)), pos - HEADER_SIZE, h)
    {
      hide *;
      if ptrOff >= HEADER_SIZE {
        PatchWithin(h, pos);
      } else {
        PatchAcross(h, pos);
      }
    }

    /** hfc_terminate_frame: the header of the current frame replaces its placeholder. */
    method TerminateFrame(flags: Flags)
      requires Valid() && nFrames > 0 && flags in {NO_FLAGS, END_HEADERS}
      modifies fral`images, fral.frabs
      ensures Ready() && |Contents(old(fral.images))| >= curSz + HEADER_SIZE
      ensures Contents(fral.images) ==
              Overwrite(Contents(old(fral.images)), |Contents(old(fral.images))| - curSz - HEADER_SIZE,
                        Head(block, nFrames - 1, curSz, flags == END_HEADERS))
    {
      hide Contents, Overwrite, Open, Count, LastSize, Header;
      var typ, all := CONTINUATION, flags;
      if nFrames == 1 {
        typ, all := block.typ, flags.Or(block.first);
      }
      var h := Header(curSz, typ, all, block.stream);
      assert h == Head(block, nFrames - 1, curSz, flags == END_HEADERS);
      PatchHeader(h, |Contents(fral.images)| - curSz);
    }

    /** A new frame: its placeholder, the pointer to it, and its first bytes. */
    method StartFrame(src: seq<byte>)
      requires Ready() && 1 <= |src| <= block.max
      modifies this`ptrFrab, this`ptrOff, this`idx, this`nFrames, this`curSz, fral, fral.frabs
      ensures Ready() && nFrames == old(nFrames) + 1 && curSz == |src|
      ensures Contents(fral.images) == Contents(old(fral.images)) + PLACEHOLDER + src
      ensures PtrAt(|Contents(fral.images)| - |src|)
      ensures forall i :: 0 <= i < |fral.frabs| ==> fral.frabs[i] in old(fral.frabs) || fresh(fral.frabs[i])
    {
      hide Contents, Points, Fral.Match, Packed, Extends;
      fral.Write(PLACEHOLDER);
      nFrames := nFrames + 1;
      fral.EmptyMeansEmpty();
      SavePtr();
      curSz := 0;
      MoreBytes(src);
    }

    /** Bytes of the current frame. */
    method MoreBytes(src: seq<byte>)
      requires Ready() && |Contents(fral.images)| >= curSz && PtrAt(|Contents(fral.images)| - curSz)
      modifies this`curSz, fral, fral.frabs
      ensures Ready() && curSz == old(curSz) + |src|
      ensures Contents(fral.images) == Contents(old(fral.images)) + src
      ensures PtrAt(|Contents(fral.images)| - curSz)
      ensures forall i :: 0 <= i < |fral.frabs| ==> fral.frabs[i] in old(fral.frabs) || fresh(fral.frabs[i])
    {
      hide Contents, Points, Extends;
      ghost var fs, pos := fral.images, |Contents(fral.images)| - curSz;
      fral.Write(src);
      PointsStays(fs, fral.images, idx, ptrOff, pos);
      curSz := curSz + |src|;
    }

    /** The full frame, if there is one, gets its header. */
    method CloseCurrent(src: seq<byte>) returns (ghost closed: seq<byte>)
      requires Valid() && curSz == block.max && 1 <= |src| <= block.max
      modifies fral`images, fral.frabs
      ensures Ready() && Contents(fral.images) == base + closed
      ensures closed + PLACEHOLDER + src == Open(block, 0, payload + src)
      ensures LastSize(block, payload + src) == |src| && Count(block, payload + src) == nFrames + 1
    {
      hide Contents, Points, Overwrite, Open, Count, LastSize, Head, Fral.Match;
      closed := [];
      if nFrames == 0 {
        OneFrame(block, src);
        assert payload + src == src && [] + PLACEHOLDER + src == PLACEHOLDER + src;
        assert base + [] == base;
      } else {
        CloseFull(block, 0, payload, src);
        PatchInOpen(base, block, payload, Head(block, nFrames - 1, block.max, false));
        TerminateFrame(NO_FLAGS);
        closed := Contents(fral.images)[|base|..];
      }
    }

    /** One round of hfc_write when the current frame is full or there is none yet. */
    method WriteNewFrame(src: seq<byte>)
      requires Valid() && curSz == block.max && 1 <= |src| <= block.max
      modifies this, fral, fral.frabs
      ensures Valid() && base == old(base) && payload == old(payload) + src
      ensures forall i :: 0 <= i < |fral.frabs| ==> fral.frabs[i] in old(fral.frabs) || fresh(fral.frabs[i])
    {
      hide Contents, Points, Overwrite, Open, Count, LastSize, Head, Fral.Match;
      OneFrame(block, src);
      OpenSize(block, payload + src);
      ghost var more := payload + src;
      ghost var closed := CloseCurrent(src);
      StartFrame(src);
      assert base + closed + PLACEHOLDER + src == base + (closed + PLACEHOLDER + src);
      assert closed + PLACEHOLDER + src == Open(block, 0, more);
      payload := more;
    }

    /** One round of hfc_write when the current frame has room. */
    method WriteMore(src: seq<byte>)
      requires Valid() && curSz < block.max && |src| <= block.max - curSz
      modifies this, fral, fral.frabs
      ensures Valid() && base == old(base) && payload == old(payload) + src
      ensures forall i :: 0 <= i < |fral.frabs| ==> fral.frabs[i] in old(fral.frabs) || fresh(fral.frabs[i])
    {
      hide Contents, Points, Open, Count, LastSize, Fral.Valid;
      OpenGrows(block, 0, payload, src);
      MoreBytes(src);
      payload := payload + src;
    }

    /** hfc_write. */
    method Write(src: seq<byte>)
      requires Valid()
      modifies this, fral, fral.frabs
      ensures Valid() && base == old(base) && payload == old(payload) + src
      ensures forall i :: 0 <= i < |fral.frabs| ==> fral.frabs[i] in old(fral.frabs) || fresh(fral.frabs[i])
    {
      hide Valid;
      var p := 0;
      while p < |src|
        invariant p <= |src| && Valid() && base == old(base) && payload == old(payload) + src[..p]
        invariant forall i :: 0 <= i < |fral.frabs| ==> fral.frabs[i] in old(fral.frabs) || fresh(fral.frabs[i])
      {
        SizeBound();
        var avail := if curSz == block.max then block.max else block.max - curSz;
        if |src| - p < avail {
          avail := |src| - p;
        }
        if curSz == block.max {
          WriteNewFrame(src[p..p + avail]);
        } else {
          WriteMore(src[p..p + avail]);
        }
        assert src[..p] + src[p..p + avail] == src[..p + avail];
        p := p + avail;
      }
      assert src[..p] == src;
    }

    lemma SizeBound()
      requires Valid()
      ensures curSz <= block.max && block.max >= 1
    {
    }

    /** hfc_terminate_frame with END_HEADERS: the block is complete. */
    method Finish()
      requires Valid() && payload != []
      modifies fral`images, fral.frabs
      ensures Ready() && Contents(fral.images) == base + Closed(block, 0, payload)
    {
      hide Contents, Points, Overwrite, Open, Count, LastSize, Head, Fral.Valid, Closed;
      CloseLast(block, 0, payload);
      PatchInOpen(base, block, payload, Head(block, nFrames - 1, curSz, true));
      TerminateFrame(END_HEADERS);
    }
  }

  lemma OneFrame(b: Block, src: seq<byte>)
    requires BlockOk(b) && |src| <= b.max
    ensures Open(b, 0, src) == PLACEHOLDER + src && LastSize(b, src) == |src| && Count(b, src) == 1
  {
  }

  lemma OpenSize(b: Block, payload: seq<byte>)
    requires BlockOk(b)
    ensures |Open(b, 0, payload)| >= HEADER_SIZE + LastSize(b, payload)
  {
    OpenEnds(b, 0, payload);
  }

  /** Writing a header inside the open block leaves what was there before it. */
  lemma PatchInOpen(base: seq<byte>, b: Block, payload: seq<byte>, h: seq<byte>)
    requires BlockOk(b) && |h| == HEADER_SIZE
    ensures var open := Open(b, 0, payload);
            var size := LastSize(b, payload);
            && |open| >= HEADER_SIZE + size
            && Overwrite(base + open, |base + open| - size - HEADER_SIZE, h)
               == base + Overwrite(open, |open| - size - HEADER_SIZE, h)
  {
    OpenEnds(b, 0, payload);
    var open, size := Open(b, 0, payload), LastSize(b, payload);
    OverwriteRight(base, open, |open| - size - HEADER_SIZE, h);
  }

  /** A whole header block, in any chunks, over whatever the list still held: what is appended
      parses as the frames section 6.2, 6.6 and 6.10 of RFC 7540 ask for. */
  method WriteHeaderBlock(list: Fral, b: Block, chunks: seq<seq<byte>>)
    requires list.Valid() && list.cap >= HEADER_SIZE && BlockOk(b) && Concat(chunks) != []
    modifies list, list.frabs
    ensures list.Valid()
    ensures Contents(old(list.images)) <= Contents(list.images)
    ensures var added := Contents(list.images)[|Contents(old(list.images))|..];
            Parse(added).Some? && IsHeaderBlock(Parse(added).value, b, Concat(chunks))
  {
    ghost var before := Contents(list.images);
    hide Contents, HeaderFramer.Valid, Closed, IsHeaderBlock, Parse, BlockOk, Fral.Valid, Concat;
    var hfc := new HeaderFramer(list, b);
    WriteChunks(hfc, chunks);
    hfc.Finish();
    ClosedParses(b, Concat(chunks));
    assert (before + Closed(b, 0, Concat(chunks)))[|before|..] == Closed(b, 0, Concat(chunks));
  }

  /** The encoder's output, chunk by chunk. */
  method WriteChunks(hfc: HeaderFramer, chunks: seq<seq<byte>>)
    requires hfc.Valid() && hfc.payload == []
    modifies hfc, hfc.fral, hfc.fral.frabs
    ensures hfc.Valid() && hfc.base == old(hfc.base) && hfc.payload == Concat(chunks)
    ensures forall j :: 0 <= j < |hfc.fral.frabs| ==>
      hfc.fral.frabs[j] in old(hfc.fral.frabs) || fresh(hfc.fral.frabs[j])
  {
    hide HeaderFramer.Valid, Fral.Valid;
    for i := 0 to |chunks|
      invariant hfc.Valid() && hfc.base == old(hfc.base) && hfc.payload == Concat(chunks[..i])
      invariant forall j :: 0 <= j < |hfc.fral.frabs| ==>
        hfc.fral.frabs[j] in old(hfc.fral.frabs) || fresh(hfc.fral.frabs[j])
    {
      hfc.Write(chunks[i]);
      ConcatSnoc(chunks, i);
    }
    assert chunks[..|chunks|] == chunks;
  }

  function Concat(chunks: seq<seq<byte>>): seq<byte> {
    if chunks == [] then [] else Concat(chunks[..|chunks| - 1]) + chunks[|chunks| - 1]
  }

  lemma ConcatSnoc(chunks: seq<seq<byte>>, i: nat)
    requires i < |chunks|
    ensures Concat(chunks[..i + 1]) == Concat(chunks[..i]) + chunks[i]
  {
    assert chunks[..i + 1][..i] == chunks[..i];
  }

  lemma OverwriteTwo(dst: seq<byte>, at: nat, h: seq<byte>, n: nat)
    requires n <= |h| && at + |h| <= |dst|
    ensures Overwrite(Overwrite(dst, at + n, h[n..]), at, h[..n]) == Overwrite(dst, at, h)
  {
  }
}
