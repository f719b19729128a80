/** Certificate compression as the loops that do it. */
module CrtCodec {
  import opened Basics
  import opened Endian
  import opened CertEntries
  import opened CertStore
  import opened CrtCompress

  // ---------------------------------------------------------------- choosing entries

  /** The entry chosen for a certificate, given what the client says it has. */
  ghost predicate Chosen(l: Library, c: Cert, e: Entry, setHashes: seq<byte>, cachedHashes: seq<byte>) {
    var cached := |cachedHashes| % 8 == 0 && Mentions(cachedHashes, Hash64(c));
    match e
    case Cached(h) => cached && h == Hash64(c)
    case Common(h, k) =>
      && !cached && |setHashes| % 8 == 0 && Mentions(setHashes, h)
      && CommonCert(l.sets, h, k) == Some(c)
    case Compressed =>
      && !cached
      && (|setHashes| % 8 == 0 && SetsSorted(l.sets) ==> InNoSet(c, setHashes, l.sets, |setHashes|))
  }

  /** The loop over the client's cached hashes. */
  method IsCached(hash: uint64, cachedHashes: seq<byte>) returns (found: bool)
    requires |cachedHashes| % 8 == 0
    ensures found == Mentions(cachedHashes, hash)
  {
    var j := 0;
    while j < |cachedHashes|
      invariant 0 <= j <= |cachedHashes| && j % 8 == 0
      invariant forall k: nat :: 8 * k < j ==> HashAt(cachedHashes, k) != hash
    {
      assert HashAt(cachedHashes, j / 8) == Word64(cachedHashes[j..j + 8]);
      if hash == Word64(cachedHashes[j..j + 8]) {
        return true;
      }
      j := j + 8;
    }
    return false;
  }

  method ChooseEntry(l: Library, c: Cert, setHashes: seq<byte>, cachedHashes: seq<byte>) returns (e: Entry)
    requires SetsOk(l.sets)
    ensures Chosen(l, c, e, setHashes, cachedHashes)
  {
    hide InNoSet, CommonCert, Hash64;
    if |cachedHashes| % 8 == 0 && |cachedHashes| > 0 {
      var hash := ComputeHash64(c);
      var cached := IsCached(hash, cachedHashes);
      if cached {
        return Cached(hash);
      }
    }
    var m := MatchCommonCert(c, setHashes, l.sets);
    return if m.Some? then m.value else Compressed;
  }

  /** get_certs_entries. */
  method GetCertsEntries(l: Library, certs: seq<Cert>, setHashes: seq<byte>, cachedHashes: seq<byte>)
    returns (es: seq<Entry>)
    requires SetsOk(l.sets)
    ensures |es| == |certs|
    ensures forall i :: 0 <= i < |es| ==> Chosen(l, certs[i], es[i], setHashes, cachedHashes)
  {
    hide Chosen;
    es := [];
    while |es| < |certs|
      invariant |es| <= |certs|
      invariant forall i :: 0 <= i < |es| ==> Chosen(l, certs[i], es[i], setHashes, cachedHashes)
    {
      var e := ChooseEntry(l, certs[|es|], setHashes, cachedHashes);
      es := es + [e];
    }
  }

  /** The chosen entries fit the certificates. */
  lemma ChosenFit(l: Library, certs: seq<Cert>, es: seq<Entry>, setHashes: seq<byte>, cachedHashes: seq<byte>)
    requires |es| == |certs|
    requires forall i :: 0 <= i < |es| ==> Chosen(l, certs[i], es[i], setHashes, cachedHashes)
    ensures EntriesFit(l, es, certs)
  {
    forall i | 0 <= i < |es|
      ensures es[i].Cached? ==> es[i].hash == Hash64(certs[i])
      ensures es[i].Common? ==> CommonCert(l.sets, es[i].setHash, es[i].index) == Some(certs[i])
    {
      assert Chosen(l, certs[i], es[i], setHashes, cachedHashes);
    }
  }

  /** Every hash the client sends is that of a certificate it holds. */
  ghost predicate Honest(cachedHashes: seq<byte>, cached: seq<Cert>) {
    forall h: uint64 :: Mentions(cachedHashes, h) ==> exists d :: d in cached && Hash64(d) == h
  }

  /**
   * The chain comes back to an honest client, if no two certificates involved
   * collide, exactly when what is compressed is at most 128 KB.
   */
  lemma HonestClientGetsChain(l: Library, certs: seq<Cert>, es: seq<Entry>,
                              setHashes: seq<byte>, cachedHashes: seq<byte>, cached: seq<Cert>)
    requires ZlibInverts(l) && |es| == |certs|
    requires forall i :: 0 <= i < |es| ==> Chosen(l, certs[i], es[i], setHashes, cachedHashes)
    requires Honest(cachedHashes, cached)
    requires forall c, d :: c in certs && d in cached && Hash64(c) == Hash64(d) ==> c == d
    ensures CountFrom(Message(l, es, certs), 0) == Some(|certs|)
    ensures Decompressed(l, Message(l, es, certs), cached) == Some(certs) <==> |Packed(es, certs)| <= MAX_UNCOMPRESSED
  {
    ChosenFit(l, certs, es, setHashes, cachedHashes);
    RoundTrip(l, es, certs, cached);
    hide Message, Decompressed, CountFrom, Packed, EntriesFit, FirstHeld;
    forall i | 0 <= i < |es| && es[i].Cached? ensures FirstHeld(cached, Hash64(certs[i])) == certs[i] {
      assert Chosen(l, certs[i], es[i], setHashes, cachedHashes);
      var d :| d in cached && Hash64(d) == Hash64(certs[i]);
      assert d == certs[i];
      HeldIsFound(cached, certs[i]);
    }
  }

  // ---------------------------------------------------------------- compressing

  lemma {:induction false} PackedAppend(es: seq<Entry>, cs: seq<Cert>, e: Entry, c: Cert)
    requires |es| == |cs|
    ensures Packed(es + [e], cs + [c]) == Packed(es, cs) + if e.Compressed? then LittleEndian(|c|, 4) + c else []
  {
    hide LittleEndian;
    if es == [] {
      assert es + [e] == [e] && cs + [c] == [c];
      assert Packed([e][1..], [c][1..]) == [];
    } else {
      PackedAppend(es[1..], cs[1..], e, c);
      assert (es + [e])[1..] == es[1..] + [e] && (cs + [c])[1..] == cs[1..] + [c];
    }
  }

  /** The first loop: how much there is to compress. */
  method UncompressedSize(es: seq<Entry>, cs: seq<Cert>) returns (n: nat)
    requires |es| == |cs|
    ensures n == |Packed(es, cs)|
  {
    n := 0;
    var i := 0;
    while i < |es|
      invariant 0 <= i <= |es| && n == |Packed(es[..i], cs[..i])|
    {
      PrefixNext(es, i);
      PrefixNext(cs, i);
      PackedAppend(es[..i], cs[..i], es[i], cs[i]);
      if es[i].Compressed? {
        n := n + 4 + |cs[i]|;
      }
      i := i + 1;
    }
    assert es[..i] == es && cs[..i] == cs;
  }

  /** The second loop: what is fed to deflate, length by length and certificate by certificate. */
  method Feed(es: seq<Entry>, cs: seq<Cert>) returns (x: seq<byte>)
    requires |es| == |cs|
    ensures x == Packed(es, cs)
  {
    x := [];
    var i := 0;
    while i < |es|
      invariant 0 <= i <= |es| && x == Packed(es[..i], cs[..i])
    {
      PrefixNext(es, i);
      PrefixNext(cs, i);
      PackedAppend(es[..i], cs[..i], es[i], cs[i]);
      if es[i].Compressed? {
        x := x + LittleEndian(|cs[i]|, 4);
        x := x + cs[i];
      }
      i := i + 1;
    }
    assert es[..i] == es && cs[..i] == cs;
  }

  /** lsquic_compress_certs. */
  method CompressCerts(l: Library, certs: seq<Cert>, setHashes: seq<byte>, cachedHashes: seq<byte>)
    returns (b: seq<byte>, es: seq<Entry>)
    requires SetsOk(l.sets)
    ensures EntriesFit(l, es, certs) && b == Message(l, es, certs)
    ensures forall i :: 0 <= i < |es| ==> Chosen(l, certs[i], es[i], setHashes, cachedHashes)
  {
    hide Chosen, EntriesFit, Packed, Dict, Serialized;
    es := GetCertsEntries(l, certs, setHashes, cachedHashes);
    ChosenFit(l, certs, es, setHashes, cachedHashes);
    var uncompressed := UncompressedSize(es, certs);
    var entriesSize := GetEntriesSize(es);
    var out := new byte[entriesSize];
    var n := SerializeCertEntries(out, es);
    assert out[..] == Serialized(es);
    b := out[..];
    if uncompressed == 0 {
      return;
    }
    var dict := MakeDict(l, es, certs);
    b := b + LittleEndian(uncompressed, 4);
    var x := Feed(es, certs);
    b := b + l.deflate(dict, x);
  }

  // ---------------------------------------------------------------- decompressing

  /** get_certs_hash. */
  method GetCertsHash(certs: seq<Cert>) returns (hashes: seq<uint64>)
    ensures |hashes| == |certs| && forall i :: 0 <= i < |certs| ==> hashes[i] == Hash64(certs[i])
  {
    hashes := [];
    while |hashes| < |certs|
      invariant |hashes| <= |certs| && forall i :: 0 <= i < |hashes| ==> hashes[i] == Hash64(certs[i])
    {
      var h := ComputeHash64(certs[|hashes|]);
      hashes := hashes + [h];
    }
  }

  /** The search among the held certificates. */
  method FindHeld(cached: seq<Cert>, hashes: seq<uint64>, h: uint64) returns (c: Cert)
    requires |hashes| == |cached| && forall i :: 0 <= i < |cached| ==> hashes[i] == Hash64(cached[i])
    ensures c == Held(cached)(h)
  {
    c := [];
    var i := 0;
    while i < |cached|
      invariant 0 <= i <= |cached| && FirstHeld(cached, h) == FirstHeld(cached[i..], h)
    {
      assert cached[i..][0] == cached[i] && cached[i..][1..] == cached[i + 1..];
      if hashes[i] == h {
        return cached[i];
      }
      i := i + 1;
    }
  }

  lemma PrependAppend(es: seq<Entry>, cs: seq<Cert>, e: Entry, c: Cert, p: Parse)
    ensures Prepend(es, cs, Prepend([e], [c], p)) == Prepend(es + [e], cs + [c], p)
  {
    if p.Parsed? {
      assert es + ([e] + p.entries) == es + [e] + p.entries;
      assert cs + ([c] + p.certs) == cs + [c] + p.certs;
    }
  }

  /** One entry of parse_entries: the rest to parse, or how parsing ended. */
  method ParseEntry(l: Library, b: seq<byte>, pos: nat, cached: seq<Cert>, hashes: seq<uint64>)
    returns (done: Option<Parse>, e: Entry, c: Cert, next: nat)
    requires pos <= |b|
    requires |hashes| == |cached| && forall i :: 0 <= i < |cached| ==> hashes[i] == Hash64(cached[i])
    ensures done.Some? ==> done.value == ParseFrom(b, pos, l.sets, Held(cached))
    ensures done.None? ==>
      && pos < next <= |b|
      && ParseFrom(b, pos, l.sets, Held(cached)) == Prepend([e], [c], ParseFrom(b, next, l.sets, Held(cached)))
  {
    hide CommonCert, Word64, Word32, Prepend, Held;
    done, e, c, next := None, Compressed, [], pos + 1;
    if pos == |b| {
      return Some(OverRead(0)), e, c, next;
    }
    match b[pos] {
      case 0 =>
        done := Some(Parsed([], [], pos + 1));
      case 1 =>
      case 2 =>
        if |b| - next < 8 {
          return Some(OverRead(1)), e, c, next;
        }
        e := Cached(Word64(b[pos + 1..pos + 9]));
        c := FindHeld(cached, hashes, e.hash);
        next := pos + 9;
      case 3 =>
        if |b| - next < 12 {
          return Some(OverRead(1)), e, c, next;
        }
        e := Common(Word64(b[pos + 1..pos + 9]), Word32(b[pos + 9..pos + 13]));
        var found := GetCommonCert(l.sets, e.setHash, e.index);
        if found.None? {
          return Some(Rejected(1)), e, c, next;
        }
        c := found.value;
        next := pos + 13;
      case _ =>
        done := Some(Rejected(1));
    }
  }

  /** parse_entries. */
  method ParseEntries(l: Library, b: seq<byte>, cached: seq<Cert>) returns (p: Parse)
    ensures p == ParseFrom(b, 0, l.sets, Held(cached))
  {
    hide ParseFrom, Hash64;
    var hashes := GetCertsHash(cached);
    var es: seq<Entry>, cs: seq<Cert>, pos := [], [], 0;
    while true
      invariant 0 <= pos <= |b|
      invariant ParseFrom(b, 0, l.sets, Held(cached)) == Prepend(es, cs, ParseFrom(b, pos, l.sets, Held(cached)))
      decreases |b| - pos
    {
      var done, e, c, next := ParseEntry(l, b, pos, cached, hashes);
      if done.Some? {
        return Prepend(es, cs, done.value);
      }
      PrependAppend(es, cs, e, c, ParseFrom(b, next, l.sets, Held(cached)));
      es, cs, pos := es + [e], cs + [c], next;
    }
  }

  function Joined(pre: seq<Cert>, r: Option<seq<Cert>>): (q: Option<seq<Cert>>) {
    match r case None => None case Some(ds) => Some(pre + ds)
  }

  /** The loop that takes the compressed certificates out of the stream. */
  method Unpack(es: seq<Entry>, cs: seq<Cert>, x: seq<byte>) returns (r: Option<seq<Cert>>)
    requires |es| == |cs|
    ensures r == Unpacked(es, cs, x)
  {
    var out: seq<Cert>, data := [], x;
    assert es[0..] == es && cs[0..] == cs;
    JoinedNothing(Unpacked(es, cs, x));
    while |out| < |es|
      invariant |out| <= |es|
      invariant Unpacked(es, cs, x) == Joined(out, Unpacked(es[|out|..], cs[|out|..], data))
    {
      var i := |out|;
      assert es[i..][1..] == es[i + 1..] && cs[i..][1..] == cs[i + 1..];
      var c := cs[i];
      ghost var before := data;
      if es[i].Compressed? {
        if |data| < 4 {
          return None;
        }
        var n := Word32(data[..4]);
        data := data[4..];
        if |data| < n {
          return None;
        }
        c := data[..n];
        data := data[n..];
        assert before[4..4 + n] == c && before[4 + n..] == data;
      }
      JoinedAppend(out, c, Unpacked(es[i + 1..], cs[i + 1..], data));
      out := out + [c];
    }
    assert es[|out|..] == [] && out + [] == out;
    return if data == [] then Some(out) else None;
  }

  lemma JoinedNothing(r: Option<seq<Cert>>)
    ensures Joined([], r) == r
  {
    if r.Some? {
      assert [] + r.value == r.value;
    }
  }

  lemma JoinedAppend(out: seq<Cert>, c: Cert, r: Option<seq<Cert>>)
    ensures Joined(out, Joined([c], r)) == Joined(out + [c], r)
  {
    if r.Some? {
      assert out + ([c] + r.value) == out + [c] + r.value;
    }
  }

  /** lsquic_decompress_certs, after lsquic_get_certs_count said how many there are. */
  method DecompressCerts(l: Library, b: seq<byte>, cached: seq<Cert>, count: nat) returns (r: Option<seq<Cert>>)
    requires CountFrom(b, 0) == Some(count) && 0 < count < 10000
    ensures r == Decompressed(l, b, cached)
    ensures r.Some? ==> |r.value| == count
  {
    hide ParseFrom, CountFrom, Unpacked, Dict, Word32;
    WalksAgree(b, 0, l.sets, Held(cached));
    var p := ParseEntries(l, b, cached);
    if !p.Parsed? {
      return None;
    }
    var rest, data := b[p.pos..], [];
    if rest != [] {
      if |rest| < 4 {
        return None;
      }
      var size := Word32(rest[..4]);
      if size > MAX_UNCOMPRESSED {
        return None;
      }
      var dict := MakeDict(l, p.entries, p.certs);
      var x := l.inflate(dict, rest[4..]);
      if x.None? || |x.value| != size {
        return None;
      }
      data := x.value;
    }
    r := Unpack(p.entries, p.certs, data);
    if r.Some? {
      UnpackedKeepsKnown(p.entries, p.certs, data);
    }
  }
}
