/** How a header block is cut into one HEADERS or PUSH_PROMISE frame and CONTINUATION frames. */
module HeaderFraming {
  import opened Basics
  import opened Http2

  /** What hfc_init is given. */
  datatype Block = Block(max: nat, typ: byte, stream: nat, first: Flags)

  ghost predicate BlockOk(b: Block) {
    1 <= b.max <= MAX_MAX_FRAME_SIZE
  }

  /** The bytes that hold the place of a frame header until its length is known. */
  const PLACEHOLDER: seq<byte> := [0x31, 0x32, 0x33, 0x34, 0x35, 0x36, 0x37, 0x38, 0x39]

  /** The `n`-th frame of the block. */
  function Piece(b: Block, n: nat, payload: seq<byte>, last: bool): (f: Frame) {
    var flags := if last then END_HEADERS else NO_FLAGS;
    if n == 0 then Frame(b.typ, flags.Or(b.first), b.stream, payload)
    else Frame(CONTINUATION, flags, b.stream, payload)
  }

  function Head(b: Block, n: nat, len: nat, last: bool): (h: seq<byte>)
    ensures |h| == HEADER_SIZE
  {
    var f := Piece(b, n, [], last);
    Header(len, f.typ, f.flags, f.stream)
  }

  /** The frames of the block, from the `n`-th on, for the rest of the payload. */
  function Pieces(b: Block, n: nat, payload: seq<byte>): (fs: seq<Frame>)
    requires BlockOk(b)
    decreases |payload|
  {
    if |payload| <= b.max then [Piece(b, n, payload, true)]
    else [Piece(b, n, payload[..b.max], false)] + Pieces(b, n + 1, payload[b.max..])
  }

  /** The same bytes while the block is being written: the last frame has no header yet. */
  function Open(b: Block, n: nat, payload: seq<byte>): (bs: seq<byte>)
    requires BlockOk(b)
    decreases |payload|
  {
    if |payload| <= b.max then PLACEHOLDER + payload
    else Head(b, n, b.max, false) + payload[..b.max] + Open(b, n + 1, payload[b.max..])
  }

  /** How many bytes of the payload are in the last frame. */
  function LastSize(b: Block, payload: seq<byte>): (n: nat)
    requires BlockOk(b)
    ensures n <= b.max && n <= |payload|
    decreases |payload|
  {
    if |payload| <= b.max then |payload| else LastSize(b, payload[b.max..])
  }

  /** How many frames there are. */
  function Count(b: Block, payload: seq<byte>): (n: nat)
    requires BlockOk(b)
    ensures n >= 1
    decreases |payload|
  {
    if |payload| <= b.max then 1 else 1 + Count(b, payload[b.max..])
  }

  /** Bytes that fit into the last frame go at the end. */
  lemma {:induction false} OpenGrows(b: Block, n: nat, payload: seq<byte>, more: seq<byte>)
    requires BlockOk(b) && LastSize(b, payload) + |more| <= b.max
    ensures Open(b, n, payload + more) == Open(b, n, payload) + more
    ensures LastSize(b, payload + more) == LastSize(b, payload) + |more|
    ensures Count(b, payload + more) == Count(b, payload)
    decreases |payload|
  {
    if |payload| > b.max {
      OpenGrows(b, n + 1, payload[b.max..], more);
      assert (payload + more)[b.max..] == payload[b.max..] + more;
      assert (payload + more)[..b.max] == payload[..b.max];
    }
  }

  /** Where the header of the last frame is. */
  lemma {:induction false} OpenEnds(b: Block, n: nat, payload: seq<byte>)
    requires BlockOk(b)
    ensures |Open(b, n, payload)| >= HEADER_SIZE + LastSize(b, payload)
    decreases |payload|
  {
    if |payload| > b.max {
      OpenEnds(b, n + 1, payload[b.max..]);
    }
  }

  lemma {:induction false} PiecesFit(b: Block, n: nat, payload: seq<byte>)
    requires BlockOk(b)
    ensures forall i :: 0 <= i < |Pieces(b, n, payload)| ==> |Pieces(b, n, payload)[i].payload| <= b.max
    decreases |payload|
  {
    if |payload| > b.max {
      PiecesFit(b, n + 1, payload[b.max..]);
    }
  }

  /** The bytes of the block once every header is in place. */
  function Closed(b: Block, n: nat, payload: seq<byte>): (bs: seq<byte>)
    requires BlockOk(b)
  {
    PiecesFit(b, n, payload);
    EncodeAll(Pieces(b, n, payload))
  }

  lemma ClosedUnfolds(b: Block, n: nat, payload: seq<byte>)
    requires BlockOk(b)
    ensures |payload| <= b.max ==> Closed(b, n, payload) == Head(b, n, |payload|, true) + payload
    ensures |payload| > b.max ==>
              Closed(b, n, payload) == Head(b, n, b.max, false) + payload[..b.max] + Closed(b, n + 1, payload[b.max..])
  {
    hide Header;
    PiecesFit(b, n, payload);
    var fs := Pieces(b, n, payload);
    assert EncodeAll(fs) == Encode(fs[0]) + EncodeAll(fs[1..]);
    if |payload| <= b.max {
      assert fs[1..] == [];
    } else {
      assert fs[1..] == Pieces(b, n + 1, payload[b.max..]);
    }
  }

  /** A header written over the placeholder in front of `payload`. */
  lemma CloseOne(head: seq<byte>, payload: seq<byte>)
    requires |head| == HEADER_SIZE
    ensures Overwrite(PLACEHOLDER + payload, 0, head) == head + payload
  {
  }

  /** Writing the header of the last frame in its place, as the last one, completes the block. */
  lemma {:induction false} CloseLast(b: Block, n: nat, payload: seq<byte>)
    requires BlockOk(b)
    ensures |Open(b, n, payload)| >= HEADER_SIZE + LastSize(b, payload)
    ensures Overwrite(Open(b, n, payload), |Open(b, n, payload)| - LastSize(b, payload) - HEADER_SIZE,
                      Head(b, n + Count(b, payload) - 1, LastSize(b, payload), true))
            == Closed(b, n, payload)
    decreases |payload|
  {
    hide Head, Closed, Overwrite;
    OpenEnds(b, n, payload);
    ClosedUnfolds(b, n, payload);
    if |payload| <= b.max {
      CloseOne(Head(b, n, |payload|, true), payload);
    } else {
      var rest := payload[b.max..];
      CloseLast(b, n + 1, rest);
      var open := Open(b, n + 1, rest);
      OverwriteRight(Head(b, n, b.max, false) + payload[..b.max], open, |open| - LastSize(b, rest) - HEADER_SIZE,
                     Head(b, n + Count(b, payload) - 1, LastSize(b, payload), true));
    }
  }

  /** Writing the header of a full last frame, as one that others follow, makes room for a new one. */
  lemma {:induction false} CloseFull(b: Block, n: nat, payload: seq<byte>, more: seq<byte>)
    requires BlockOk(b) && LastSize(b, payload) == b.max && 1 <= |more| <= b.max
    ensures |Open(b, n, payload)| >= HEADER_SIZE + b.max
    ensures Overwrite(Open(b, n, payload), |Open(b, n, payload)| - b.max - HEADER_SIZE,
                      Head(b, n + Count(b, payload) - 1, b.max, false)) + PLACEHOLDER + more
            == Open(b, n, payload + more)
    ensures LastSize(b, payload + more) == |more|
    ensures Count(b, payload + more) == Count(b, payload) + 1
    decreases |payload|
  {
    hide *;
    OpenEnds(b, n, payload);
    Unfolds(b, n, payload);
    Unfolds(b, n, payload + more);
    if |payload| <= b.max {
      assert (payload + more)[b.max..] == more && (payload + more)[..b.max] == payload;
      Unfolds(b, n + 1, more);
      CloseOne(Head(b, n, b.max, false), payload);
      Reassociate(Head(b, n, b.max, false) + payload, PLACEHOLDER, more);
    } else {
      var rest := payload[b.max..];
      CloseFull(b, n + 1, rest, more);
      assert (payload + more)[b.max..] == rest + more;
      assert (payload + more)[..b.max] == payload[..b.max];
      var front, open := Head(b, n, b.max, false) + payload[..b.max], Open(b, n + 1, rest);
      var h := Head(b, n + Count(b, payload) - 1, b.max, false);
      OverwriteRight(front, open, |open| - b.max - HEADER_SIZE, h);
      var closed := Overwrite(open, |open| - b.max - HEADER_SIZE, h);
      Reassociate(front, closed, PLACEHOLDER);
      Reassociate(front, closed + PLACEHOLDER, more);
    }
  }

  /** One frame of the open block. */
  lemma Unfolds(b: Block, n: nat, payload: seq<byte>)
    requires BlockOk(b)
    ensures |payload| <= b.max ==>
      Open(b, n, payload) == PLACEHOLDER + payload && LastSize(b, payload) == |payload| && Count(b, payload) == 1
    ensures |payload| > b.max ==>
      var rest := payload[b.max..];
      && Open(b, n, payload) == Head(b, n, b.max, false) + payload[..b.max] + Open(b, n + 1, rest)
      && LastSize(b, payload) == LastSize(b, rest) && Count(b, payload) == Count(b, rest) + 1
  {
    hide Head;
  }

  function Payloads(fs: seq<Frame>): seq<byte> {
    if fs == [] then [] else fs[0].payload + Payloads(fs[1..])
  }

  /** What the receiver of a header block is promised: the payloads add up, every frame but the
      last is full, only the first has the block's type and flags, only the last ends the block. */
  ghost predicate IsHeaderBlock(fs: seq<Frame>, b: Block, payload: seq<byte>) {
    && fs != []
    && Payloads(fs) == payload
    && fs[0].typ == b.typ
    && (forall i :: 0 < i < |fs| ==> fs[i].typ == CONTINUATION)
    && (forall i :: 0 <= i < |fs| - 1 ==> |fs[i].payload| == b.max)
    && (payload != [] ==> 1 <= |fs[|fs| - 1].payload| <= b.max)
    && (forall i :: 0 <= i < |fs| ==> (fs[i].flags.endHeaders <==> i == |fs| - 1 || (i == 0 && b.first.endHeaders)))
    && fs[0].flags.endStream == b.first.endStream && fs[0].flags.priority == b.first.priority
    && (forall i :: 0 < i < |fs| ==> !fs[i].flags.endStream && !fs[i].flags.priority && !fs[i].flags.padded)
    && (forall i :: 0 <= i < |fs| ==> fs[i].stream == b.stream % 0x8000_0000)
  }

  lemma {:induction false} PiecesAreBlock(b: Block, n: nat, payload: seq<byte>)
    requires BlockOk(b)
    ensures var fs := Pieces(b, n, payload);
            && fs != [] && Payloads(fs) == payload
            && (forall i :: 0 <= i < |fs| ==> fs[i] == Piece(b, n + i, fs[i].payload, i == |fs| - 1))
            && (forall i :: 0 <= i < |fs| - 1 ==> |fs[i].payload| == b.max)
            && |fs[|fs| - 1].payload| == LastSize(b, payload)
            && (payload != [] ==> LastSize(b, payload) >= 1)
    decreases |payload|
  {
    if |payload| <= b.max {
      assert Payloads([Piece(b, n, payload, true)]) == payload;
    } else {
      var rest := payload[b.max..];
      PiecesAreBlock(b, n + 1, rest);
      var first, tail := Piece(b, n, payload[..b.max], false), Pieces(b, n + 1, rest);
      assert Pieces(b, n, payload) == [first] + tail;
      assert first.payload == payload[..b.max];
      hide Pieces, Piece;
      PrependPiece(first, tail);
      assert payload == payload[..b.max] + rest;
      Unfolds(b, n, payload);
    }
  }

  lemma PrependPiece(first: Frame, tail: seq<Frame>)
    ensures var fs := [first] + tail;
            && Payloads(fs) == first.payload + Payloads(tail)
            && (forall i :: 0 < i < |fs| ==> fs[i] == tail[i - 1])
  {
    assert ([first] + tail)[1..] == tail;
  }

  lemma {:induction false} ReceivedPayloads(fs: seq<Frame>, rs: seq<Frame>)
    requires |fs| == |rs| && forall i :: 0 <= i < |fs| ==> rs[i] == Received(fs[i])
    ensures Payloads(rs) == Payloads(fs)
    decreases |fs|
  {
    if fs != [] {
      ReceivedPayloads(fs[1..], rs[1..]);
    }
  }

  lemma ReceivedIsBlock(b: Block, payload: seq<byte>, rs: seq<Frame>)
    requires BlockOk(b)
    requires var fs := Pieces(b, 0, payload);
             |rs| == |fs| && forall i :: 0 <= i < |fs| ==> rs[i] == Received(fs[i])
    ensures IsHeaderBlock(rs, b, payload)
  {
    hide Pieces, LastSize, Payloads, Received, Piece, IsPiece;
    var fs := Pieces(b, 0, payload);
    PiecesAreBlock(b, 0, payload);
    ReceivedPayloads(fs, rs);
    forall i | 0 <= i < |rs|
      ensures IsPiece(rs[i], b, i, |rs|) && rs[i].payload == fs[i].payload
    {
      assert fs[i] == Piece(b, 0 + i, fs[i].payload, i == |fs| - 1);
      ReceivedPiece(b, i, fs[i].payload, |rs|);
    }
    IsPieceMeans(rs, b);
  }

  /** What the receiver sees in the header of the `i`-th frame of `n`. */
  ghost predicate IsPiece(r: Frame, b: Block, i: nat, n: nat) {
    var last := if i == n - 1 then END_HEADERS else NO_FLAGS;
    && r.typ == (if i == 0 then b.typ else CONTINUATION) && r.stream == b.stream % 0x8000_0000
    && r.flags == (if i == 0 then last.Or(b.first) else last)
  }

  lemma ReceivedPiece(b: Block, i: nat, payload: seq<byte>, n: nat)
    ensures var r := Received(Piece(b, i, payload, i == n - 1)); IsPiece(r, b, i, n) && r.payload == payload
  {
  }

  lemma IsPieceMeans(rs: seq<Frame>, b: Block)
    requires rs != [] && forall i :: 0 <= i < |rs| ==> IsPiece(rs[i], b, i, |rs|)
    ensures rs[0].typ == b.typ && forall i :: 0 < i < |rs| ==> rs[i].typ == CONTINUATION
    ensures forall i :: 0 <= i < |rs| ==>
      (rs[i].flags.endHeaders <==> i == |rs| - 1 || (i == 0 && b.first.endHeaders))
    ensures rs[0].flags.endStream == b.first.endStream && rs[0].flags.priority == b.first.priority
    ensures forall i :: 0 < i < |rs| ==>
      !rs[i].flags.endStream && !rs[i].flags.priority && !rs[i].flags.padded
    ensures forall i :: 0 <= i < |rs| ==> rs[i].stream == b.stream % 0x8000_0000
  {
    forall i | 0 <= i < |rs|
      ensures rs[i].flags.endHeaders <==> i == |rs| - 1 || (i == 0 && b.first.endHeaders)
    {
      assert IsPiece(rs[i], b, i, |rs|);
    }
  }

  /** A completed block parses under section 4.1 of RFC 7540 as one frame of the block's type and
      CONTINUATION frames (section 6.10) that carry exactly the payload. */
  lemma ClosedParses(b: Block, payload: seq<byte>)
    requires BlockOk(b)
    ensures Parse(Closed(b, 0, payload)).Some?
    ensures IsHeaderBlock(Parse(Closed(b, 0, payload)).value, b, payload)
  {
    hide Pieces, Parse, EncodeAll, IsHeaderBlock;
    PiecesFit(b, 0, payload);
    ParseInvertsEncode(Pieces(b, 0, payload));
    ReceivedIsBlock(b, payload, Parse(Closed(b, 0, payload)).value);
  }
}
