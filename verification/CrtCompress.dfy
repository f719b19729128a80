/**
 * Compressing and decompressing a certificate chain: every certificate is sent
 * as the hash of one the client holds, as an index into a common set, or within
 * one zlib stream whose dictionary both sides build from the others.
 */
module CrtCompress {
  import opened Basics
  import opened Endian
  import opened CertEntries
  import opened CertStore

  const MAX_UNCOMPRESSED: nat := 128 * 1024

  /** What the library is built with: the common sets, the common substrings, and zlib. */
  datatype Library = Library(
    sets: seq<CommonSet>,
    substrings: seq<byte>,
    deflate: (seq<byte>, seq<byte>) -> seq<byte>,
    inflate: (seq<byte>, seq<byte>) -> Option<seq<byte>>)

  /** Inflating undoes deflating under the same dictionary. */
  ghost predicate ZlibInverts(l: Library) {
    forall d: seq<byte>, x: seq<byte> :: l.inflate(d, l.deflate(d, x)) == Some(x)
  }

  // ---------------------------------------------------------------- the dictionary

  /** The certificates that are not compressed, last first. */
  function DictCerts(es: seq<Entry>, cs: seq<Cert>): (d: seq<byte>)
    requires |es| == |cs|
  {
    if es == [] then []
    else DictCerts(es[1..], cs[1..]) + if es[0].Compressed? then [] else cs[0]
  }

  function Dict(l: Library, es: seq<Entry>, cs: seq<Cert>): (d: seq<byte>)
    requires |es| == |cs|
  {
    DictCerts(es, cs) + l.substrings
  }

  /** Both sides have the same certificates where the entries are not compressed. */
  ghost predicate SameKnown(es: seq<Entry>, cs: seq<Cert>, ds: seq<Cert>) {
    |es| == |cs| == |ds| && forall i :: 0 <= i < |es| && !es[i].Compressed? ==> cs[i] == ds[i]
  }

  /** Then they build the same dictionary. */
  lemma {:induction false} SameDictionary(es: seq<Entry>, cs: seq<Cert>, ds: seq<Cert>)
    requires SameKnown(es, cs, ds)
    ensures DictCerts(es, cs) == DictCerts(es, ds)
  {
    if es != [] {
      SameKnownTail(es, cs, ds);
      SameDictionary(es[1..], cs[1..], ds[1..]);
    }
  }

  lemma SameKnownTail(es: seq<Entry>, cs: seq<Cert>, ds: seq<Cert>)
    requires es != [] && SameKnown(es, cs, ds)
    ensures SameKnown(es[1..], cs[1..], ds[1..])
  {
    assert forall i :: 0 <= i < |es| - 1 ==>
      es[1..][i] == es[i + 1] && cs[1..][i] == cs[i + 1] && ds[1..][i] == ds[i + 1];
  }

  /** The length of all certificates from the `i`-th on that are not compressed. */
  ghost function KnownFrom(es: seq<Entry>, cs: seq<Cert>, i: nat): (n: nat)
    requires |es| == |cs| && i <= |es|
    decreases |es| - i
  {
    if i == |es| then 0 else (if es[i].Compressed? then 0 else |cs[i]|) + KnownFrom(es, cs, i + 1)
  }

  /** `d` has each certificate that is not compressed, from the `j`-th on, behind all such that follow
      it in the chain. */
  ghost predicate KnownInPlace(es: seq<Entry>, cs: seq<Cert>, j: nat, d: seq<byte>)
    requires |es| == |cs|
  {
    forall i :: j <= i < |es| && !es[i].Compressed? ==>
      && KnownFrom(es, cs, i) == KnownFrom(es, cs, i + 1) + |cs[i]| <= |d|
      && d[KnownFrom(es, cs, i + 1)..KnownFrom(es, cs, i)] == cs[i]
  }

  lemma {:induction false} DictPlaces(es: seq<Entry>, cs: seq<Cert>, j: nat)
    requires |es| == |cs| && j <= |es|
    ensures |DictCerts(es[j..], cs[j..])| == KnownFrom(es, cs, j)
    ensures KnownInPlace(es, cs, j, DictCerts(es[j..], cs[j..]))
    decreases |es| - j
  {
    hide DictCerts, KnownFrom, KnownInPlace;
    DictStep(es, cs, j);
    if j < |es| {
      DictPlaces(es, cs, j + 1);
      InPlaceOneMore(es, cs, j, DictCerts(es[j + 1..], cs[j + 1..]));
    }
  }

  /** What the `j`-th certificate adds to the dictionary. */
  function OwnPart(es: seq<Entry>, cs: seq<Cert>, j: nat): (d: seq<byte>)
    requires |es| == |cs| && j < |es|
  {
    if es[j].Compressed? then [] else cs[j]
  }

  lemma DictStep(es: seq<Entry>, cs: seq<Cert>, j: nat)
    requires |es| == |cs| && j <= |es|
    ensures j == |es| ==> KnownFrom(es, cs, j) == |DictCerts(es[j..], cs[j..])| == 0 && KnownInPlace(es, cs, j, [])
    ensures j == |es| ==> DictCerts(es[j..], cs[j..]) == []
    ensures j < |es| ==> DictCerts(es[j..], cs[j..]) == DictCerts(es[j + 1..], cs[j + 1..]) + OwnPart(es, cs, j)
  {
    if j < |es| {
      assert es[j..][1..] == es[j + 1..] && cs[j..][1..] == cs[j + 1..];
    }
  }

  lemma InPlaceOneMore(es: seq<Entry>, cs: seq<Cert>, j: nat, d: seq<byte>)
    requires |es| == |cs| && j < |es| && |d| == KnownFrom(es, cs, j + 1) && KnownInPlace(es, cs, j + 1, d)
    ensures KnownInPlace(es, cs, j, d + OwnPart(es, cs, j)) && |d + OwnPart(es, cs, j)| == KnownFrom(es, cs, j)
  {
    InPlaceLonger(es, cs, j + 1, d, OwnPart(es, cs, j));
    assert KnownFrom(es, cs, j) == |OwnPart(es, cs, j)| + KnownFrom(es, cs, j + 1);
    hide KnownFrom;
    assert (d + OwnPart(es, cs, j))[|d|..] == OwnPart(es, cs, j);
  }

  lemma InPlaceLonger(es: seq<Entry>, cs: seq<Cert>, j: nat, d: seq<byte>, more: seq<byte>)
    requires |es| == |cs| && KnownInPlace(es, cs, j, d)
    ensures KnownInPlace(es, cs, j, d + more)
  {
    hide KnownFrom;
    forall i | j <= i < |es| && !es[i].Compressed?
      ensures KnownFrom(es, cs, i) == KnownFrom(es, cs, i + 1) + |cs[i]| <= |d + more|
      ensures (d + more)[KnownFrom(es, cs, i + 1)..KnownFrom(es, cs, i)] == cs[i]
    {
      var a, b := KnownFrom(es, cs, i + 1), KnownFrom(es, cs, i);
      assert (d + more)[a..b] == d[a..b];
    }
  }

  /** make_zlib_dict_for_entries. */
  method MakeDict(l: Library, es: seq<Entry>, cs: seq<Cert>) returns (d: seq<byte>)
    requires |es| == |cs|
    ensures d == Dict(l, es, cs)
    ensures |d| == KnownFrom(es, cs, 0) + |l.substrings| && d[KnownFrom(es, cs, 0)..] == l.substrings
    ensures KnownInPlace(es, cs, 0, d)
  {
    hide KnownInPlace;
    d := [];
    var i := |es| - 1;
    while i >= 0
      invariant -1 <= i < |es| && d == DictCerts(es[i + 1..], cs[i + 1..])
    {
      assert es[i..][1..] == es[i + 1..] && cs[i..][1..] == cs[i + 1..];
      if !es[i].Compressed? {
        d := d + cs[i];
      }
      i := i - 1;
    }
    assert es[0..] == es && cs[0..] == cs;
    DictPlaces(es, cs, 0);
    InPlaceLonger(es, cs, 0, d, l.substrings);
    d := d + l.substrings;
  }

  // ---------------------------------------------------------------- the compressed part

  /** The compressed certificates, each behind its length. */
  function Packed(es: seq<Entry>, cs: seq<Cert>): (x: seq<byte>)
    requires |es| == |cs|
  {
    if es == [] then []
    else (if es[0].Compressed? then LittleEndian(|cs[0]|, 4) + cs[0] else []) + Packed(es[1..], cs[1..])
  }

  /** The length of all compressed certificates from the `i`-th on, each with its length field. */
  ghost function PackedFrom(es: seq<Entry>, cs: seq<Cert>, i: nat): (n: nat)
    requires |es| == |cs| && i <= |es|
    decreases |es| - i
  {
    if i == |es| then 0 else (if es[i].Compressed? then 4 + |cs[i]| else 0) + PackedFrom(es, cs, i + 1)
  }

  /** `x` ends with the `i`-th certificate, behind its length in four bytes, and all that follow it. */
  ghost predicate PackedAt(es: seq<Entry>, cs: seq<Cert>, i: nat, x: seq<byte>)
    requires |es| == |cs| && i < |es|
  {
    && PackedFrom(es, cs, i) == 4 + |cs[i]| + PackedFrom(es, cs, i + 1) <= |x|
    && var a := |x| - PackedFrom(es, cs, i);
       x[a..a + 4] == LittleEndian(|cs[i]|, 4) && x[a + 4..a + 4 + |cs[i]|] == cs[i]
  }

  /** The compressed certificates are in the order of the chain, each behind its length. */
  lemma {:induction false} PackedPlaces(es: seq<Entry>, cs: seq<Cert>, j: nat)
    requires |es| == |cs| && j <= |es|
    ensures |Packed(es[j..], cs[j..])| == PackedFrom(es, cs, j)
    ensures forall i :: j <= i < |es| && es[i].Compressed? ==> PackedAt(es, cs, i, Packed(es[j..], cs[j..]))
    decreases |es| - j
  {
    hide Packed, PackedFrom, PackedAt;
    PackedStep(es, cs, j);
    if j < |es| {
      PackedPlaces(es, cs, j + 1);
      var rest := Packed(es[j + 1..], cs[j + 1..]);
      forall i | j <= i < |es| && es[i].Compressed? ensures PackedAt(es, cs, i, PackedPart(es, cs, j) + rest) {
        if i == j {
          PackedFirst(es, cs, j, rest);
        } else {
          PackedLonger(es, cs, i, PackedPart(es, cs, j), rest);
        }
      }
    }
  }

  /** What the `j`-th certificate adds to the compressed part. */
  function PackedPart(es: seq<Entry>, cs: seq<Cert>, j: nat): (x: seq<byte>)
    requires |es| == |cs| && j < |es|
  {
    if es[j].Compressed? then LittleEndian(|cs[j]|, 4) + cs[j] else []
  }

  lemma PackedStep(es: seq<Entry>, cs: seq<Cert>, j: nat)
    requires |es| == |cs| && j <= |es|
    ensures j == |es| ==> PackedFrom(es, cs, j) == 0 && Packed(es[j..], cs[j..]) == []
    ensures j < |es| ==>
      && Packed(es[j..], cs[j..]) == PackedPart(es, cs, j) + Packed(es[j + 1..], cs[j + 1..])
      && PackedFrom(es, cs, j) == |PackedPart(es, cs, j)| + PackedFrom(es, cs, j + 1)
  {
    hide LittleEndian;
    if j < |es| {
      assert es[j..][1..] == es[j + 1..] && cs[j..][1..] == cs[j + 1..];
    }
  }

  lemma PackedFirst(es: seq<Entry>, cs: seq<Cert>, j: nat, rest: seq<byte>)
    requires |es| == |cs| && j < |es| && es[j].Compressed? && |rest| == PackedFrom(es, cs, j + 1)
    ensures PackedAt(es, cs, j, PackedPart(es, cs, j) + rest)
  {
    hide LittleEndian;
    var x := PackedPart(es, cs, j) + rest;
    assert x[..4] == LittleEndian(|cs[j]|, 4) && x[4..4 + |cs[j]|] == cs[j];
  }

  lemma PackedLonger(es: seq<Entry>, cs: seq<Cert>, i: nat, more: seq<byte>, x: seq<byte>)
    requires |es| == |cs| && i < |es| && PackedAt(es, cs, i, x)
    ensures PackedAt(es, cs, i, more + x)
  {
    hide LittleEndian, PackedFrom;
    var a, y := |x| - PackedFrom(es, cs, i), more + x;
    assert y[|more| + a..|more| + a + 4] == x[a..a + 4];
    assert y[|more| + a + 4..|more| + a + 4 + |cs[i]|] == x[a + 4..a + 4 + |cs[i]|];
  }

  /** Taking them out again, into the slots of the compressed entries; all bytes must be used. */
  function Unpacked(es: seq<Entry>, cs: seq<Cert>, x: seq<byte>): (r: Option<seq<Cert>>)
    requires |es| == |cs|
  {
    if es == [] then if x == [] then Some([]) else None
    else if es[0].Compressed? then
      if |x| < 4 then None
      else
        var n := Word32(x[..4]);
        if |x| - 4 < n then None
        else
          match Unpacked(es[1..], cs[1..], x[4 + n..])
          case None => None
          case Some(ds) => Some([x[4..4 + n]] + ds)
    else
      match Unpacked(es[1..], cs[1..], x)
      case None => None
      case Some(ds) => Some([cs[0]] + ds)
  }

  /** Whatever is unpacked, the other certificates stay. */
  lemma {:induction false} UnpackedKeepsKnown(es: seq<Entry>, cs: seq<Cert>, x: seq<byte>)
    requires |es| == |cs| && Unpacked(es, cs, x).Some?
    ensures SameKnown(es, cs, Unpacked(es, cs, x).value)
  {
    if es != [] {
      var y := if es[0].Compressed? then x[4 + Word32(x[..4])..] else x;
      UnpackedKeepsKnown(es[1..], cs[1..], y);
      var r, ds := Unpacked(es, cs, x).value, Unpacked(es[1..], cs[1..], y).value;
      assert r[1..] == ds;
      forall i | 0 <= i < |es| && !es[i].Compressed? ensures cs[i] == r[i] {
        if i > 0 {
          assert es[1..][i - 1] == es[i] && cs[1..][i - 1] == cs[i] && ds[i - 1] == r[i];
        }
      }
    }
  }

  /** Unpacking inverts packing. */
  lemma {:induction false} UnpackInvertsPack(es: seq<Entry>, known: seq<Cert>, cs: seq<Cert>)
    requires SameKnown(es, known, cs) && |Packed(es, cs)| < 0x1_0000_0000
    ensures Unpacked(es, known, Packed(es, cs)) == Some(cs)
  {
    if es != [] {
      SameKnownTail(es, known, cs);
      UnpackInvertsPack(es[1..], known[1..], cs[1..]);
      HeadAndTail(cs);
      if es[0].Compressed? {
        var x, n := Packed(es, cs), |cs[0]|;
        WordsReadBack(0, n);
        hide LittleEndian, FromLittleEndian;
        assert x == LittleEndian(n, 4) + cs[0] + Packed(es[1..], cs[1..]);
        assert x[..4] == LittleEndian(n, 4) && x[4..4 + n] == cs[0] && x[4 + n..] == Packed(es[1..], cs[1..]);
      } else {
        assert Packed(es, cs) == Packed(es[1..], cs[1..]);
      }
    }
  }

  // ---------------------------------------------------------------- the whole message

  /** The stream behind the entries. */
  function Stream(l: Library, es: seq<Entry>, cs: seq<Cert>): (b: seq<byte>)
    requires |es| == |cs|
  {
    var x := Packed(es, cs);
    if x == [] then [] else LittleEndian(|x|, 4) + l.deflate(Dict(l, es, cs), x)
  }

  /** What lsquic_compress_certs sends for these entries. */
  function Message(l: Library, es: seq<Entry>, cs: seq<Cert>): (b: seq<byte>)
    requires |es| == |cs|
  {
    Serialized(es) + Stream(l, es, cs)
  }

  /** The layout of a message: the entries with their end marker; then, if anything is compressed, the
      length of the compressed part in four bytes, and that part deflated under the dictionary. */
  lemma MessageLayout(l: Library, es: seq<Entry>, cs: seq<Cert>)
    requires |es| == |cs|
    ensures var m, a, x := Message(l, es, cs), |AllBytes(es)| + 1, Packed(es, cs);
            && |m| >= a && m[..a] == AllBytes(es) + [0]
            && (x == [] ==> |m| == a)
            && (x != [] ==>
                  && |m| >= a + 4 && (forall k :: 0 <= k < 4 ==> m[a + k] as nat == |x| / Pow256(k) % 256)
                  && m[a + 4..] == l.deflate(DictCerts(es, cs) + l.substrings, x))
  {
    hide LittleEndian, AllBytes, Packed, DictCerts, Pow256;
    var m, a, x := Message(l, es, cs), |AllBytes(es)| + 1, Packed(es, cs);
    assert m[..a] == AllBytes(es) + [0];
    if x != [] {
      forall k | 0 <= k < 4 ensures m[a + k] as nat == |x| / Pow256(k) % 256 {
        ByteOf(|x|, 4, k);
        assert m[a + k] == LittleEndian(|x|, 4)[k];
      }
      assert m[a + 4..] == l.deflate(Dict(l, es, cs), x);
    }
  }

  /** What lsquic_decompress_certs makes of what follows the entries. */
  function DecompressRest(l: Library, es: seq<Entry>, cs: seq<Cert>, rest: seq<byte>): (r: Option<seq<Cert>>)
    requires |es| == |cs|
  {
    if rest == [] then Unpacked(es, cs, [])
    else if |rest| < 4 then None
    else
      var size := Word32(rest[..4]);
      if size > MAX_UNCOMPRESSED then None
      else
        match l.inflate(Dict(l, es, cs), rest[4..])
        case None => None
        case Some(x) => if |x| == size then Unpacked(es, cs, x) else None
  }

  /** The entries are right for the certificates: a cached one by its hash, a common one by its place. */
  ghost predicate EntriesFit(l: Library, es: seq<Entry>, cs: seq<Cert>) {
    |es| == |cs| && forall i :: 0 <= i < |es| ==>
      && (es[i].Cached? ==> es[i].hash == Hash64(cs[i]))
      && (es[i].Common? ==> CommonCert(l.sets, es[i].setHash, es[i].index) == Some(cs[i]))
  }

  /** The client finds, for every certificate sent by hash, that certificate. */
  ghost predicate CachedStillHeld(es: seq<Entry>, cs: seq<Cert>, cached: seq<Cert>)
    requires |es| == |cs|
  {
    forall i :: 0 <= i < |es| && es[i].Cached? ==> FirstHeld(cached, Hash64(cs[i])) == cs[i]
  }

  /** What the parser finds for entries that fit. */
  ghost function Found(l: Library, es: seq<Entry>, cached: seq<Cert>): (ks: seq<Cert>)
    ensures |ks| == |es|
  {
    seq(|es|, i requires 0 <= i < |es| =>
      match StandsFor(es[i], l.sets, Held(cached)) case None => [] case Some(c) => c)
  }

  lemma FoundStands(l: Library, es: seq<Entry>, cs: seq<Cert>, cached: seq<Cert>)
    requires EntriesFit(l, es, cs)
    ensures Stands(es, Found(l, es, cached), l.sets, Held(cached))
    ensures SameKnown(es, Found(l, es, cached), cs) <==> CachedStillHeld(es, cs, cached)
  {
    var ks := Found(l, es, cached);
    forall i | 0 <= i < |es|
      ensures StandsFor(es[i], l.sets, Held(cached)) == Some(ks[i])
      ensures es[i].Common? ==> ks[i] == cs[i]
      ensures es[i].Cached? ==> ks[i] == FirstHeld(cached, Hash64(cs[i]))
    {
    }
  }

  /** Decompressing the stream, when the dictionary is right. */
  lemma StreamRoundTrip(l: Library, es: seq<Entry>, known: seq<Cert>, cs: seq<Cert>)
    requires ZlibInverts(l) && SameKnown(es, known, cs)
    ensures DecompressRest(l, es, known, Stream(l, es, cs))
         == if |Packed(es, cs)| <= MAX_UNCOMPRESSED then Some(cs) else None
  {
    var x := Packed(es, cs);
    if |x| < 0x1_0000_0000 {
      UnpackInvertsPack(es, known, cs);
    }
    SameDictionary(es, known, cs);
    hide Packed, DictCerts, Unpacked, LittleEndian, FromLittleEndian;
    if x != [] {
      var z := l.deflate(Dict(l, es, cs), x);
      var rest := LittleEndian(|x|, 4) + z;
      assert rest[..4] == LittleEndian(|x|, 4) && rest[4..] == z;
      assert l.inflate(Dict(l, es, known), z) == Some(x);
      SizeField(|x|);
    }
  }

  lemma SizeField(n: nat)
    ensures Word32(LittleEndian(n, 4)) == n || n >= 0x1_0000_0000
  {
    hide Pow256, LittleEndian, FromLittleEndian;
    FourBytes();
    ReadBack(n, 4);
  }

  /** lsquic_decompress_certs, on input that lsquic_get_certs_count accepts. */
  function Decompressed(l: Library, b: seq<byte>, cached: seq<Cert>): (r: Option<seq<Cert>>)
    requires CountFrom(b, 0).Some?
  {
    WalksAgree(b, 0, l.sets, Held(cached));
    match ParseFrom(b, 0, l.sets, Held(cached))
    case Parsed(es, cs, pos) => DecompressRest(l, es, cs, b[pos..])
    case Rejected(_) => None
    case OverRead(_) => None
  }

  /** What the two walks make of a message. */
  lemma MessageParses(l: Library, es: seq<Entry>, cs: seq<Cert>, cached: seq<Cert>)
    requires EntriesFit(l, es, cs)
    ensures var b := Message(l, es, cs);
            && CountFrom(b, 0) == Some(|es|)
            && ParseFrom(b, 0, l.sets, Held(cached)) == Parsed(es, Found(l, es, cached), |Serialized(es)|)
            && b[|Serialized(es)|..] == Stream(l, es, cs)
  {
    var b, n := Message(l, es, cs), |Serialized(es)|;
    var ks := Found(l, es, cached);
    FoundStands(l, es, cs, cached);
    assert b == Serialized(es) + Stream(l, es, cs);
    hide Serialized, Stream, Message, Found, EntriesFit, ParseFrom, CountFrom;
    assert b[0..0 + n] == Serialized(es);
    ParseInvertsSerialize(b, 0, es, ks, l.sets, Held(cached));
    WalksAgree(b, 0, l.sets, Held(cached));
  }

  /**
   * The round trip: for every certificate list and every choice of entries that
   * fit it, decompressing gives the list back if and only if what is compressed
   * is at most 128 KB and the client still holds what was sent by hash.
   */
  lemma RoundTrip(l: Library, es: seq<Entry>, cs: seq<Cert>, cached: seq<Cert>)
    requires ZlibInverts(l) && EntriesFit(l, es, cs)
    ensures CountFrom(Message(l, es, cs), 0) == Some(|cs|)
    ensures Decompressed(l, Message(l, es, cs), cached) == Some(cs)
      <==> |Packed(es, cs)| <= MAX_UNCOMPRESSED && CachedStillHeld(es, cs, cached)
  {
    MessageParses(l, es, cs, cached);
    FoundStands(l, es, cs, cached);
    var ks, rest := Found(l, es, cached), Stream(l, es, cs);
    hide Message, Found, EntriesFit, ParseFrom, CountFrom, Stream, DecompressRest, Serialized, SameKnown,
      CachedStillHeld;
    if SameKnown(es, ks, cs) {
      StreamRoundTrip(l, es, ks, cs);
    } else if DecompressRest(l, es, ks, rest).Some? {
      RestKeepsKnown(l, es, ks, rest);
    }
  }

  lemma RestKeepsKnown(l: Library, es: seq<Entry>, ks: seq<Cert>, rest: seq<byte>)
    requires |es| == |ks| && DecompressRest(l, es, ks, rest).Some?
    ensures SameKnown(es, ks, DecompressRest(l, es, ks, rest).value)
  {
    hide Unpacked, Dict;
    if rest == [] {
      UnpackedKeepsKnown(es, ks, []);
    } else {
      UnpackedKeepsKnown(es, ks, l.inflate(Dict(l, es, ks), rest[4..]).value);
    }
  }
}
