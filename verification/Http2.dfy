/** HTTP/2 frames on the wire: the header of section 4.1 of RFC 7540, written and parsed. */
module Http2 {
  import opened Basics

  const HEADER_SIZE: nat := 9
  const MAX_MAX_FRAME_SIZE: nat := 0xFF_FFFF

  const SETTINGS: byte := 0x04
  const CONTINUATION: byte := 0x09

  /** The four flags of section 6.2. */
  datatype Flags = Flags(endStream: bool, endHeaders: bool, padded: bool, priority: bool) {
    /** Bitwise or of two flag bytes. */
    function Or(g: Flags): Flags {
      Flags(endStream || g.endStream, endHeaders || g.endHeaders, padded || g.padded, priority || g.priority)
    }

    function ToByte(): byte {
      (if endStream then 0x01 else 0) + (if endHeaders then 0x04 else 0) +
      (if padded then 0x08 else 0) + (if priority then 0x20 else 0)
    }
  }

  const NO_FLAGS: Flags := Flags(false, false, false, false)
  const END_HEADERS: Flags := Flags(false, true, false, false)

  function FlagsOf(b: byte): Flags {
    Flags(b % 2 == 1, b / 4 % 2 == 1, b / 8 % 2 == 1, b / 32 % 2 == 1)
  }

  datatype Frame = Frame(typ: byte, flags: Flags, stream: nat, payload: seq<byte>)

  /** The low byte of `n`, as a store into an unsigned char keeps it. */
  function LowByte(n: nat): (b: byte) {
    (n % 0x100) as byte
  }

  /** The frame header as bytes: 24-bit length, type, flags, stream identifier, all big-endian. */
  function Header(len: nat, typ: byte, flags: Flags, stream: nat): (h: seq<byte>)
    ensures |h| == HEADER_SIZE
  {
    [LowByte(len / 0x100 / 0x100), LowByte(len / 0x100), LowByte(len), typ, flags.ToByte(),
     LowByte(stream / 0x100 / 0x100 / 0x100), LowByte(stream / 0x100 / 0x100), LowByte(stream / 0x100), LowByte(stream)]
  }

  /** The layout of section 4.1: the length in the first three bytes and the stream identifier in the last
      four, high byte first, between them the type and the flags, each at its bit. */
  lemma HeaderLayout(len: nat, typ: byte, flags: Flags, stream: nat)
    requires len <= MAX_MAX_FRAME_SIZE && stream < 0x1_0000_0000
    ensures var h := Header(len, typ, flags, stream);
            && h[0] as nat * 0x1_0000 + h[1] as nat * 0x100 + h[2] as nat == len && h[3] == typ
            && h[5] as nat * 0x100_0000 + h[6] as nat * 0x1_0000 + h[7] as nat * 0x100 + h[8] as nat == stream
            && (h[4] % 2 == 1 <==> flags.endStream) && (h[4] / 4 % 2 == 1 <==> flags.endHeaders)
            && (h[4] / 8 % 2 == 1 <==> flags.padded) && (h[4] / 32 % 2 == 1 <==> flags.priority)
            && h[4] / 2 % 2 == 0 && h[4] / 16 % 2 == 0 && h[4] / 64 == 0
  {
    LengthBytes(len);
    IdentifierBytes(stream);
    FlagBits(flags);
    hide LowByte, Flags.ToByte;
  }

  lemma LengthBytes(len: nat)
    requires len <= MAX_MAX_FRAME_SIZE
    ensures LowByte(len / 0x100 / 0x100) as nat * 0x1_0000 + LowByte(len / 0x100) as nat * 0x100
            + LowByte(len) as nat == len
  {
  }

  lemma IdentifierBytes(n: nat)
    requires n < 0x1_0000_0000
    ensures LowByte(n / 0x100 / 0x100 / 0x100) as nat * 0x100_0000 + LowByte(n / 0x100 / 0x100) as nat * 0x1_0000
            + LowByte(n / 0x100) as nat * 0x100 + LowByte(n) as nat == n
  {
  }

  lemma FlagBits(f: Flags)
    ensures var b := f.ToByte();
            && (b % 2 == 1 <==> f.endStream) && (b / 4 % 2 == 1 <==> f.endHeaders)
            && (b / 8 % 2 == 1 <==> f.padded) && (b / 32 % 2 == 1 <==> f.priority)
            && b / 2 % 2 == 0 && b / 16 % 2 == 0 && b / 64 == 0
  {
  }

  /** A frame as bytes. */
  function Encode(f: Frame): (bs: seq<byte>)
    requires |f.payload| <= MAX_MAX_FRAME_SIZE
    ensures |bs| == HEADER_SIZE + |f.payload|
  {
    Header(|f.payload|, f.typ, f.flags, f.stream) + f.payload
  }

  function EncodeAll(fs: seq<Frame>): (bs: seq<byte>)
    requires forall i :: 0 <= i < |fs| ==> |fs[i].payload| <= MAX_MAX_FRAME_SIZE
  {
    if fs == [] then [] else Encode(fs[0]) + EncodeAll(fs[1..])
  }

  /** The length field of a header. */
  function LengthOf(bs: seq<byte>): (n: nat)
    requires |bs| >= HEADER_SIZE
  {
    bs[0] as nat * 0x1_0000 + bs[1] as nat * 0x100 + bs[2] as nat
  }

  /** The stream identifier of a header; the reserved bit is ignored. */
  function StreamOf(bs: seq<byte>): (n: nat)
    requires |bs| >= HEADER_SIZE
  {
    (bs[5] % 0x80) as nat * 0x100_0000 + bs[6] as nat * 0x1_0000 + bs[7] as nat * 0x100 + bs[8] as nat
  }

  /** Parses a whole sequence of frames; None when the bytes end inside one. */
  function Parse(bs: seq<byte>): (fs: Option<seq<Frame>>)
    decreases |bs|
  {
    if bs == [] then Some([])
    else if |bs| < HEADER_SIZE || |bs| < HEADER_SIZE + LengthOf(bs) then None
    else
      var end := HEADER_SIZE + LengthOf(bs);
      var f := Frame(bs[3], FlagsOf(bs[4]), StreamOf(bs), bs[HEADER_SIZE..end]);
      match Parse(bs[end..])
      case None => None
      case Some(rest) => Some([f] + rest)
  }

  lemma LengthParses(len: nat, typ: byte, flags: Flags, stream: nat)
    requires len <= MAX_MAX_FRAME_SIZE
    ensures LengthOf(Header(len, typ, flags, stream)) == len
  {
    hide Flags.ToByte;
  }

  lemma StreamParses(len: nat, typ: byte, flags: Flags, stream: nat)
    ensures StreamOf(Header(len, typ, flags, stream)) == stream % 0x8000_0000
  {
    hide Flags.ToByte, LowByte;
    StreamBytes(stream);
  }

  /** The four bytes of a stream identifier, less the reserved bit. */
  lemma StreamBytes(stream: nat)
    ensures (LowByte(stream / 0x100 / 0x100 / 0x100) % 0x80) as nat * 0x100_0000
            + LowByte(stream / 0x100 / 0x100) as nat * 0x1_0000
            + LowByte(stream / 0x100) as nat * 0x100 + LowByte(stream) as nat == stream % 0x8000_0000
  {
    var s1, b0 := stream / 0x100, stream % 0x100;
    var s2, b1 := s1 / 0x100, s1 % 0x100;
    var q, b2 := s2 / 0x100, s2 % 0x100;
    var low := b2 * 0x1_0000 + b1 * 0x100 + b0;
    assert stream == q * 0x100_0000 + low;
    LowByteIs(stream);
    LowByteIs(s1);
    LowByteIs(s2);
    LowByteIs(q);
    hide LowByte;
    LowBits(q, low);
  }

  lemma LowByteIs(n: nat)
    ensures LowByte(n) as nat == n % 0x100 && (LowByte(n) % 0x80) as nat == n % 0x80
  {
    var q, m := n / 0x100, n % 0x100;
    LowSeven(2 * q, m);
  }

  lemma LowSeven(q: nat, m: nat)
    ensures (q * 0x80 + m) % 0x80 == m % 0x80
  {
  }

  lemma LowBits(q: nat, low: nat)
    requires low < 0x100_0000
    ensures (q * 0x100_0000 + low) % 0x8000_0000 == (q % 0x80) * 0x100_0000 + low
  {
    var h := q / 0x80;
    assert q == h * 0x80 + q % 0x80;
  }

  lemma FlagsParse(flags: Flags)
    ensures FlagsOf(flags.ToByte()) == flags
  {
  }

  /** Header bytes at the front of a longer sequence read the same. */
  lemma HeaderInFront(f: Frame, rest: seq<byte>)
    requires |f.payload| <= MAX_MAX_FRAME_SIZE
    ensures var bs := Encode(f) + rest;
            && LengthOf(bs) == |f.payload| && bs[3] == f.typ && FlagsOf(bs[4]) == f.flags
            && StreamOf(bs) == f.stream % 0x8000_0000
            && bs[HEADER_SIZE..HEADER_SIZE + |f.payload|] == f.payload
            && bs[HEADER_SIZE + |f.payload|..] == rest
  {
    hide Flags.ToByte, FlagsOf;
    LengthParses(|f.payload|, f.typ, f.flags, f.stream);
    StreamParses(|f.payload|, f.typ, f.flags, f.stream);
    FlagsParse(f.flags);
    var h := Header(|f.payload|, f.typ, f.flags, f.stream);
    hide Header;
    var bs := Encode(f) + rest;
    assert forall i :: 0 <= i < HEADER_SIZE ==> bs[i] == h[i];
  }

  /** A frame as the other side reads it: the stream identifier has 31 bits. */
  function Received(f: Frame): Frame {
    f.(stream := f.stream % 0x8000_0000)
  }

  function ReceivedAll(fs: seq<Frame>): (rs: seq<Frame>)
    ensures |rs| == |fs| && forall i :: 0 <= i < |fs| ==> rs[i] == Received(fs[i])
  {
    seq(|fs|, i requires 0 <= i < |fs| => Received(fs[i]))
  }

  /** The frame at the front is parsed off, whatever follows. */
  lemma ParseFirst(f: Frame, rest: seq<byte>)
    requires |f.payload| <= MAX_MAX_FRAME_SIZE
    ensures Parse(Encode(f) + rest) ==
            match Parse(rest) case None => None case Some(fs) => Some([Received(f)] + fs)
  {
    HeaderInFront(f, rest);
    hide Encode, LengthOf, StreamOf, FlagsOf;
    var bs := Encode(f) + rest;
    assert |bs| >= HEADER_SIZE + |f.payload|;
  }

  /** Every sequence of frames parses back to itself. */
  lemma {:induction false} ParseInvertsEncode(fs: seq<Frame>)
    requires forall i :: 0 <= i < |fs| ==> |fs[i].payload| <= MAX_MAX_FRAME_SIZE
    ensures Parse(EncodeAll(fs)) == Some(ReceivedAll(fs))
    decreases |fs|
  {
    if fs == [] {
      assert EncodeAll(fs) == [] && ReceivedAll(fs) == [];
    } else {
      var tail := fs[1..];
      ParseInvertsEncode(tail);
      ParseFirst(fs[0], EncodeAll(tail));
      hide Encode, Parse, Received;
      assert [Received(fs[0])] + ReceivedAll(tail) == ReceivedAll(fs);
    }
  }
}
