/**
 * The entry list that leads a compressed certificate chain: its bytes, the walk
 * that counts the entries and the walk that parses them.
 */
module CertEntries {
  import opened Basics
  import opened Endian

  type Cert = seq<byte>

  datatype Entry = Compressed | Cached(hash: uint64) | Common(setHash: uint64, index: uint32)

  /** A set of common certificates, known to both sides. */
  datatype CommonSet = CommonSet(hash: uint64, certs: seq<Cert>)

  // ---------------------------------------------------------------- serialization

  function EntryBytes(e: Entry): (b: seq<byte>)
    ensures |b| >= 1
  {
    match e
    case Compressed => [1]
    case Cached(h) => [2] + LittleEndian(h, 8)
    case Common(h, i) => [3] + LittleEndian(h, 8) + LittleEndian(i, 4)
  }

  /** The bytes of an entry: its type, then the hash and the index, low byte first. */
  lemma EntryLayout(e: Entry)
    ensures var b := EntryBytes(e);
            match e
            case Compressed => |b| == 1 && b[0] == 1
            case Cached(h) => |b| == 9 && b[0] == 2 && forall k :: 0 <= k < 8 ==> b[1 + k] as nat == h / Pow256(k) % 256
            case Common(h, i) =>
              && |b| == 13 && b[0] == 3
              && (forall k :: 0 <= k < 8 ==> b[1 + k] as nat == h / Pow256(k) % 256)
              && (forall k :: 0 <= k < 4 ==> b[9 + k] as nat == i / Pow256(k) % 256)
  {
    hide LittleEndian, Pow256;
    match e
    case Compressed =>
    case Cached(h) =>
      forall k | 0 <= k < 8 ensures EntryBytes(e)[1 + k] as nat == h / Pow256(k) % 256 {
        ByteOf(h, 8, k);
      }
    case Common(h, i) =>
      forall k | 0 <= k < 8 ensures EntryBytes(e)[1 + k] as nat == h / Pow256(k) % 256 {
        ByteOf(h, 8, k);
      }
      forall k | 0 <= k < 4 ensures EntryBytes(e)[9 + k] as nat == i / Pow256(k) % 256 {
        ByteOf(i, 4, k);
      }
  }

  function AllBytes(es: seq<Entry>): (b: seq<byte>) {
    if es == [] then [] else EntryBytes(es[0]) + AllBytes(es[1..])
  }

  /** The entries and the end marker. */
  function Serialized(es: seq<Entry>): (b: seq<byte>) {
    AllBytes(es) + [0]
  }

  lemma {:induction false} AllBytesAppend(es: seq<Entry>, e: Entry)
    ensures AllBytes(es + [e]) == AllBytes(es) + EntryBytes(e)
  {
    hide EntryBytes;
    if es == [] {
      assert es + [e] == [e];
    } else {
      AllBytesAppend(es[1..], e);
      assert (es + [e])[1..] == es[1..] + [e] && (es + [e])[0] == es[0];
      assert AllBytes(es + [e]) == EntryBytes(es[0]) + (AllBytes(es[1..]) + EntryBytes(e));
    }
  }

  lemma PrefixNext<T>(s: seq<T>, i: nat)
    requires i < |s|
    ensures s[..i + 1] == s[..i] + [s[i]]
  {
  }

  /** get_entries_size: the length of what serialize_cert_entries writes. */
  method GetEntriesSize(es: seq<Entry>) returns (n: nat)
    ensures n == |Serialized(es)|
  {
    n := 0;
    var i := 0;
    while i < |es|
      invariant 0 <= i <= |es| && n == |AllBytes(es[..i])|
    {
      PrefixNext(es, i);
      AllBytesAppend(es[..i], es[i]);
      n := n + 1;
      match es[i] {
        case Compressed =>
        case Cached(_) => n := n + 8;
        case Common(_, _) => n := n + 12;
      }
      i := i + 1;
    }
    assert es[..i] == es;
    n := n + 1;
  }

  /** memcpy into the output buffer. */
  method Put(out: array<byte>, pos: nat, src: seq<byte>)
    requires pos + |src| <= out.Length
    modifies out
    ensures out[..] == Overwrite(old(out[..]), pos, src)
  {
    forall k | 0 <= k < |src| {
      out[pos + k] := src[k];
    }
  }

  /** serialize_cert_entries: fills the head of the buffer and leaves the rest alone. */
  method SerializeCertEntries(out: array<byte>, es: seq<Entry>) returns (outLen: nat)
    requires |Serialized(es)| <= out.Length
    modifies out
    ensures outLen == |Serialized(es)|
    ensures out[..] == Overwrite(old(out[..]), 0, Serialized(es))
  {
    hide Overwrite, EntryBytes, AllBytes;
    ghost var before := out[..];
    outLen := 0;
    var i := 0;
    NothingWritten(before);
    while i < |es|
      invariant 0 <= i <= |es| && outLen == |AllBytes(es[..i])| <= out.Length
      invariant out[..] == Overwrite(before, 0, AllBytes(es[..i]))
    {
      PrefixNext(es, i);
      AllBytesAppend(es[..i], es[i]);
      PrefixFits(es, i + 1);
      outLen := PutEntry(out, outLen, es[i]);
      OverwriteAdjacent(before, 0, AllBytes(es[..i]), EntryBytes(es[i]));
      i := i + 1;
    }
    assert es[..i] == es;
    Put(out, outLen, [0]);
    OverwriteAdjacent(before, 0, AllBytes(es), [0]);
    outLen := outLen + 1;
  }

  lemma NothingWritten(before: seq<byte>)
    ensures AllBytes([]) == [] && Overwrite(before, 0, []) == before
  {
  }

  method PutEntry(out: array<byte>, pos: nat, e: Entry) returns (end: nat)
    requires pos + |EntryBytes(e)| <= out.Length
    modifies out
    ensures end == pos + |EntryBytes(e)|
    ensures out[..] == Overwrite(old(out[..]), pos, EntryBytes(e))
  {
    hide LittleEndian, Overwrite;
    ghost var before := out[..];
    match e {
      case Compressed =>
        Put(out, pos, [1]);
        end := pos + 1;
      case Cached(h) =>
        Put(out, pos, [2]);
        Put(out, pos + 1, LittleEndian(h, 8));
        OverwriteAdjacent(before, pos, [2], LittleEndian(h, 8));
        end := pos + 9;
      case Common(h, i) =>
        Put(out, pos, [3]);
        Put(out, pos + 1, LittleEndian(h, 8));
        OverwriteAdjacent(before, pos, [3], LittleEndian(h, 8));
        Put(out, pos + 9, LittleEndian(i, 4));
        OverwriteAdjacent(before, pos, [3] + LittleEndian(h, 8), LittleEndian(i, 4));
        end := pos + 13;
    }
  }

  lemma {:induction false} PrefixFits(es: seq<Entry>, i: nat)
    requires i <= |es|
    ensures |AllBytes(es[..i])| <= |AllBytes(es)|
    decreases |es| - i
  {
    if i == |es| {
      assert es[..i] == es;
    } else {
      PrefixNext(es, i);
      AllBytesAppend(es[..i], es[i]);
      PrefixFits(es, i + 1);
    }
  }

  // ---------------------------------------------------------------- the counting walk

  function CountFrom(b: seq<byte>, pos: nat): (n: Option<nat>)
    requires pos <= |b|
    decreases |b| - pos
  {
    if pos == |b| then None
    else if b[pos] == 0 then Some(0)
    else
      var size := match b[pos] case 1 => 1 case 2 => 9 case 3 => 13 case _ => 0;
      if size == 0 || pos + size > |b| then None
      else
        match CountFrom(b, pos + size)
        case None => None
        case Some(k) => Some(k + 1)
  }

  /** lsquic_get_certs_count. */
  method GetCertsCount(b: seq<byte>) returns (n: Option<nat>)
    ensures n == CountFrom(b, 0)
  {
    var pos, idx := 0, 0;
    while true
      invariant 0 <= pos <= |b| && idx >= 0
      invariant CountFrom(b, 0) == match CountFrom(b, pos) case None => None case Some(k) => Some(idx + k)
      decreases |b| - pos
    {
      if pos >= |b| {
        return None;
      }
      var typeByte := b[pos];
      pos := pos + 1;
      if typeByte == 0 {
        break;
      }
      idx := idx + 1;
      match typeByte {
        case 1 =>
        case 2 =>
          if |b| - pos < 8 {
            return None;
          }
          pos := pos + 8;
        case 3 =>
          if |b| - pos < 12 {
            return None;
          }
          pos := pos + 12;
        case _ =>
          return None;
      }
    }
    return Some(idx);
  }

  // ---------------------------------------------------------------- the parsing walk

  /** lsquic_get_common_cert: only the first set of that hash is looked at. */
  function CommonCert(sets: seq<CommonSet>, hash: uint64, index: uint32): (c: Option<Cert>) {
    if sets == [] then None
    else if sets[0].hash == hash then if index < |sets[0].certs| then Some(sets[0].certs[index]) else None
    else CommonCert(sets[1..], hash, index)
  }

  /**
   * What parsing comes to.  The parser does not check bounds: it may run past
   * the end of its input.  `touched` counts the output slots it has written to.
   */
  datatype Parse =
    | Parsed(entries: seq<Entry>, certs: seq<Cert>, pos: nat)
    | Rejected(touched: nat)
    | OverRead(touched: nat)

  function Prepend(es: seq<Entry>, cs: seq<Cert>, p: Parse): (r: Parse) {
    match p
    case Parsed(fs, ds, pos) => Parsed(es + fs, cs + ds, pos)
    case Rejected(k) => Rejected(|es| + k)
    case OverRead(k) => OverRead(|es| + k)
  }

  function ParseFrom(b: seq<byte>, pos: nat, sets: seq<CommonSet>, held: uint64 -> Cert): (p: Parse)
    requires pos <= |b|
    decreases |b| - pos
  {
    if pos == |b| then OverRead(0)
    else
      match b[pos]
      case 0 => Parsed([], [], pos + 1)
      case 1 => Prepend([Compressed], [[]], ParseFrom(b, pos + 1, sets, held))
      case 2 =>
        if pos + 9 > |b| then OverRead(1)
        else
          var h := Word64(b[pos + 1..pos + 9]);
          Prepend([Cached(h)], [held(h)], ParseFrom(b, pos + 9, sets, held))
      case 3 =>
        if pos + 13 > |b| then OverRead(1)
        else
          var h, i := Word64(b[pos + 1..pos + 9]), Word32(b[pos + 9..pos + 13]);
          (match CommonCert(sets, h, i)
           case None => Rejected(1)
           case Some(c) => Prepend([Common(h, i)], [c], ParseFrom(b, pos + 13, sets, held)))
      case _ => Rejected(1)
  }

  function Word64(b: seq<byte>): (w: uint64)
    requires |b| == 8
  {
    BytesBound(b);
    EightBytes();
    FromLittleEndian(b)
  }

  function Word32(b: seq<byte>): (w: uint32)
    requires |b| == 4
  {
    BytesBound(b);
    FourBytes();
    FromLittleEndian(b)
  }

  lemma {:induction false} BytesBound(b: seq<byte>)
    ensures FromLittleEndian(b) < Pow256(|b|)
  {
    if b != [] {
      BytesBound(b[1..]);
    }
  }

  /**
   * The two walks agree on every byte string.  Where the count succeeds, the
   * parser stays within its input and its output slots, and if it succeeds it
   * finds that many entries; where the count fails, it cannot succeed.
   */
  lemma {:induction false} WalksAgree(b: seq<byte>, pos: nat, sets: seq<CommonSet>, held: uint64 -> Cert)
    requires pos <= |b|
    ensures var p := ParseFrom(b, pos, sets, held);
            match CountFrom(b, pos)
            case None => !p.Parsed?
            case Some(n) =>
              && !p.OverRead?
              && (p.Rejected? ==> p.touched <= n)
              && (p.Parsed? ==> |p.entries| == |p.certs| == n && pos < p.pos <= |b|)
    decreases |b| - pos
  {
    if pos < |b| {
      match b[pos]
      case 1 => WalksAgree(b, pos + 1, sets, held);
      case 2 => if pos + 9 <= |b| { WalksAgree(b, pos + 9, sets, held); }
      case 3 => if pos + 13 <= |b| { WalksAgree(b, pos + 13, sets, held); }
      case _ =>
    }
  }

  /** How many bytes an entry takes by its type; 0 for a type there is not. */
  function EntrySize(t: byte): (n: nat) {
    match t case 1 => 1 case 2 => 9 case 3 => 13 case _ => 0
  }

  /** Where the entries begin, the place where the list stops last. */
  function Starts(b: seq<byte>, pos: nat): (ps: seq<nat>)
    requires pos <= |b|
    ensures ps != [] && ps[0] == pos
    ensures forall i :: 0 <= i < |ps| ==> ps[i] <= |b|
    decreases |b| - pos
  {
    if pos == |b| || EntrySize(b[pos]) == 0 || pos + EntrySize(b[pos]) > |b| then [pos]
    else [pos] + Starts(b, pos + EntrySize(b[pos]))
  }

  function Stop(b: seq<byte>, pos: nat): (p: nat)
    requires pos <= |b|
    ensures p <= |b|
  {
    var ps := Starts(b, pos);
    ps[|ps| - 1]
  }

  /** The bytes end where an entry should begin, or inside one. */
  predicate RunsOut(b: seq<byte>, pos: nat)
    requires pos <= |b|
  {
    var p := Stop(b, pos);
    p == |b| || (EntrySize(b[p]) > 0 && p + EntrySize(b[p]) > |b|)
  }

  /** The list ends with its marker. */
  predicate EndsWell(b: seq<byte>, pos: nat)
    requires pos <= |b|
  {
    var p := Stop(b, pos);
    p < |b| && b[p] == 0
  }

  /** If the entry at `p` is of a common certificate, there is one. */
  predicate LooksUp(b: seq<byte>, p: nat, sets: seq<CommonSet>)
    requires p <= |b|
  {
    p + 13 <= |b| && b[p] == 3 ==>
      CommonCert(sets, Word64(b[p + 1..p + 9]), Word32(b[p + 9..p + 13])).Some?
  }

  predicate AllLookUp(b: seq<byte>, pos: nat, sets: seq<CommonSet>)
    requires pos <= |b|
  {
    var ps := Starts(b, pos);
    forall i :: 0 <= i < |ps| - 1 ==> LooksUp(b, ps[i], sets)
  }

  lemma FirstEntry(b: seq<byte>, pos: nat, sets: seq<CommonSet>)
    requires pos < |b| && EntrySize(b[pos]) > 0 && pos + EntrySize(b[pos]) <= |b|
    ensures var next := pos + EntrySize(b[pos]);
            && (RunsOut(b, pos) <==> RunsOut(b, next)) && (EndsWell(b, pos) <==> EndsWell(b, next))
            && (AllLookUp(b, pos, sets) <==> LooksUp(b, pos, sets) && AllLookUp(b, next, sets))
  {
    hide LooksUp;
    var ps, qs := Starts(b, pos), Starts(b, pos + EntrySize(b[pos]));
    assert ps == [pos] + qs;
    assert forall i :: 0 <= i < |qs| ==> ps[i + 1] == qs[i];
    if AllLookUp(b, pos, sets) {
      assert LooksUp(b, ps[0], sets);
      forall i | 0 <= i < |qs| - 1 ensures LooksUp(b, qs[i], sets) {
        assert LooksUp(b, ps[i + 1], sets);
      }
    }
  }

  /**
   * What becomes of every byte string.  The parser runs past its input exactly when
   * the bytes run out and every common certificate named before that is there; it
   * succeeds exactly when the list ends with its marker and every one named is there.
   * The count succeeds exactly when the list ends with its marker.
   */
  lemma {:induction false} ParseOutcomes(b: seq<byte>, pos: nat, sets: seq<CommonSet>, held: uint64 -> Cert)
    requires pos <= |b|
    ensures ParseFrom(b, pos, sets, held).OverRead? <==> RunsOut(b, pos) && AllLookUp(b, pos, sets)
    ensures ParseFrom(b, pos, sets, held).Parsed? <==> EndsWell(b, pos) && AllLookUp(b, pos, sets)
    ensures CountFrom(b, pos).Some? <==> EndsWell(b, pos)
    decreases |b| - pos
  {
    hide *;
    if pos < |b| && EntrySize(b[pos]) > 0 && pos + EntrySize(b[pos]) <= |b| {
      FirstEntry(b, pos, sets);
      EntryWalked(b, pos, sets, held);
      ParseOutcomes(b, pos + EntrySize(b[pos]), sets, held);
    } else {
      WalkStops(b, pos, sets, held);
    }
  }

  /** Both walks pass a whole entry, the parser if it looks up. */
  lemma EntryWalked(b: seq<byte>, pos: nat, sets: seq<CommonSet>, held: uint64 -> Cert)
    requires pos < |b| && EntrySize(b[pos]) > 0 && pos + EntrySize(b[pos]) <= |b|
    ensures var next := pos + EntrySize(b[pos]);
            var p, q := ParseFrom(b, pos, sets, held), ParseFrom(b, next, sets, held);
            && (p.OverRead? <==> LooksUp(b, pos, sets) && q.OverRead?)
            && (p.Parsed? <==> LooksUp(b, pos, sets) && q.Parsed?)
            && (CountFrom(b, pos).Some? <==> CountFrom(b, next).Some?)
  {
    hide CommonCert, Word64, Word32;
  }

  /** Both walks stop at the same place. */
  lemma WalkStops(b: seq<byte>, pos: nat, sets: seq<CommonSet>, held: uint64 -> Cert)
    requires pos <= |b| && (pos == |b| || EntrySize(b[pos]) == 0 || pos + EntrySize(b[pos]) > |b|)
    ensures ParseFrom(b, pos, sets, held).OverRead? <==> RunsOut(b, pos) && AllLookUp(b, pos, sets)
    ensures ParseFrom(b, pos, sets, held).Parsed? <==> EndsWell(b, pos) && AllLookUp(b, pos, sets)
    ensures CountFrom(b, pos).Some? <==> EndsWell(b, pos)
  {
    hide CommonCert, Word64, Word32;
    assert Starts(b, pos) == [pos];
  }

  /** One entry and no end marker: the parser reads on past the input. */
  lemma ParserOverReads(sets: seq<CommonSet>, held: uint64 -> Cert)
    ensures ParseFrom([1], 0, sets, held) == OverRead(1)
  {
    assert ParseFrom([1], 1, sets, held) == OverRead(0);
  }

  /** The certificate an entry stands for; nothing yet for a compressed one. */
  function StandsFor(e: Entry, sets: seq<CommonSet>, held: uint64 -> Cert): (c: Option<Cert>) {
    match e
    case Compressed => Some([])
    case Cached(h) => Some(held(h))
    case Common(h, k) => CommonCert(sets, h, k)
  }

  ghost predicate Stands(es: seq<Entry>, cs: seq<Cert>, sets: seq<CommonSet>, held: uint64 -> Cert) {
    |es| == |cs| && forall i :: 0 <= i < |es| ==> StandsFor(es[i], sets, held) == Some(cs[i])
  }

  lemma WordsReadBack(h: uint64, i: uint32)
    ensures FromLittleEndian(LittleEndian(h, 8)) == h && FromLittleEndian(LittleEndian(i, 4)) == i
  {
    EightBytes();
    FourBytes();
    hide Pow256, LittleEndian, FromLittleEndian;
    ReadBack(h, 8);
    ReadBack(i, 4);
  }

  /** One step of parsing what was serialized. */
  lemma ParseOne(b: seq<byte>, pos: nat, e: Entry, sets: seq<CommonSet>, held: uint64 -> Cert)
    requires pos + |EntryBytes(e)| <= |b| && b[pos..pos + |EntryBytes(e)|] == EntryBytes(e)
    requires StandsFor(e, sets, held).Some?
    ensures ParseFrom(b, pos, sets, held)
         == Prepend([e], [StandsFor(e, sets, held).value], ParseFrom(b, pos + |EntryBytes(e)|, sets, held))
  {
    var w := EntryBytes(e);
    assert b[pos] == w[0];
    match e {
      case Compressed =>
      case Cached(h) =>
        WordsReadBack(h, 0);
        SliceOfSlice(b, pos, w, 1, 9);
        hide LittleEndian, FromLittleEndian;
        assert w[1..9] == LittleEndian(h, 8);
      case Common(h, k) =>
        WordsReadBack(h, k);
        hide LittleEndian, FromLittleEndian;
        SliceOfSlice(b, pos, w, 1, 9);
        SliceOfSlice(b, pos, w, 9, 13);
        SplitParts([3], LittleEndian(h, 8), LittleEndian(k, 4));
    }
  }

  lemma SliceOfSlice(b: seq<byte>, pos: nat, w: seq<byte>, lo: nat, hi: nat)
    requires pos + |w| <= |b| && b[pos..pos + |w|] == w && lo <= hi <= |w|
    ensures b[pos + lo..pos + hi] == w[lo..hi]
  {
    var s := b[pos..pos + |w|];
    forall i | 0 <= i < hi - lo ensures b[pos + lo..pos + hi][i] == w[lo..hi][i] {
      assert s[lo + i] == b[pos + lo + i];
    }
  }

  lemma SplitParts(a: seq<byte>, x: seq<byte>, y: seq<byte>)
    ensures (a + x + y)[|a|..|a| + |x|] == x
    ensures (a + x + y)[|a| + |x|..|a| + |x| + |y|] == y
  {
  }

  /** Parsing inverts serialization, whatever follows. */
  lemma {:induction false} ParseInvertsSerialize(
    b: seq<byte>, pos: nat, es: seq<Entry>, cs: seq<Cert>, sets: seq<CommonSet>, held: uint64 -> Cert)
    requires pos + |Serialized(es)| <= |b| && b[pos..pos + |Serialized(es)|] == Serialized(es)
    requires Stands(es, cs, sets, held)
    ensures ParseFrom(b, pos, sets, held) == Parsed(es, cs, pos + |Serialized(es)|)
    decreases |es|
  {
    hide *;
    if es == [] {
      ParseEnd(b, pos, sets, held);
      StandsNothing(cs, sets, held);
    } else {
      SerializedSplits(b, pos, es);
      StandsTail(es, cs, sets, held);
      ParseOne(b, pos, es[0], sets, held);
      var n := |EntryBytes(es[0])|;
      ParseInvertsSerialize(b, pos + n, es[1..], cs[1..], sets, held);
      PrependParsed(es, cs, pos + |Serialized(es)|);
      assert pos + n + |Serialized(es[1..])| == pos + |Serialized(es)|;
    }
  }

  lemma ParseEnd(b: seq<byte>, pos: nat, sets: seq<CommonSet>, held: uint64 -> Cert)
    requires pos + |Serialized([])| <= |b| && b[pos..pos + |Serialized([])|] == Serialized([])
    ensures ParseFrom(b, pos, sets, held) == Parsed([], [], pos + |Serialized([])|)
  {
    assert b[pos] == b[pos..pos + 1][0];
  }

  lemma StandsNothing(cs: seq<Cert>, sets: seq<CommonSet>, held: uint64 -> Cert)
    requires Stands([], cs, sets, held)
    ensures cs == []
  {
  }

  lemma PrependParsed(es: seq<Entry>, cs: seq<Cert>, pos: nat)
    requires es != [] && cs != []
    ensures Prepend([es[0]], [cs[0]], Parsed(es[1..], cs[1..], pos)) == Parsed(es, cs, pos)
  {
    HeadAndTail(es);
    HeadAndTail(cs);
  }

  lemma HeadAndTail<T>(s: seq<T>)
    requires s != []
    ensures s == [s[0]] + s[1..]
  {
  }

  lemma SerializedSplits(b: seq<byte>, pos: nat, es: seq<Entry>)
    requires es != []
    requires pos + |Serialized(es)| <= |b| && b[pos..pos + |Serialized(es)|] == Serialized(es)
    ensures var n := |EntryBytes(es[0])|;
            var m := |Serialized(es[1..])|;
            && |Serialized(es)| == n + m
            && b[pos..pos + n] == EntryBytes(es[0]) && b[pos + n..pos + n + m] == Serialized(es[1..])
  {
    hide EntryBytes;
    var w, n := Serialized(es), |EntryBytes(es[0])|;
    assert w == EntryBytes(es[0]) + Serialized(es[1..]);
    assert b[pos..pos + n] == w[..n];
    assert b[pos + n..pos + |w|] == w[n..];
  }

  lemma StandsTail(es: seq<Entry>, cs: seq<Cert>, sets: seq<CommonSet>, held: uint64 -> Cert)
    requires es != [] && Stands(es, cs, sets, held)
    ensures |cs| == |es| && Stands(es[1..], cs[1..], sets, held)
    ensures StandsFor(es[0], sets, held) == Some(cs[0])
  {
    hide StandsFor;
    assert forall i :: 0 <= i < |es| - 1 ==> es[1..][i] == es[i + 1] && cs[1..][i] == cs[i + 1];
  }
}
