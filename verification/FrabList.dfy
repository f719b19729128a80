/** A byte FIFO over a list of fixed-size buffers. */
module FrabList {
  import opened Basics

  /** A buffer as a value: storage, bytes written and bytes read. */
  datatype Image = Image(buf: seq<byte>, size: nat, off: nat) {
    function Unread(): (s: seq<byte>)
      requires off <= size <= |buf|
    {
      buf[off..size]
    }
  }

  /** All buffers but the last are full, and only the first may be partly read. */
  ghost predicate Packed(fs: seq<Image>, cap: nat) {
    && (forall i :: 0 <= i < |fs| ==> |fs[i].buf| == cap && fs[i].off < fs[i].size <= cap)
    && (forall i :: 0 <= i < |fs| - 1 ==> fs[i].size == cap)
    && (forall i :: 0 < i < |fs| ==> fs[i].off == 0)
  }

  ghost predicate Ranged(fs: seq<Image>) {
    forall i :: 0 <= i < |fs| ==> fs[i].off <= fs[i].size <= |fs[i].buf|
  }

  /** The bytes written and not yet read, in order. */
  ghost function Contents(fs: seq<Image>): seq<byte>
    requires Ranged(fs)
  {
    if fs == [] then [] else fs[0].Unread() + Contents(fs[1..])
  }

  /** Where in the contents buffer `i` begins. */
  ghost function Start(fs: seq<Image>, i: nat): nat
    requires i <= |fs| && Ranged(fs)
  {
    if i == 0 then 0 else (fs[0].size - fs[0].off) + Start(fs[1..], i - 1)
  }

  /** Nothing that was in place moved: buffers were only filled further or added at the end. */
  ghost predicate Extends(a: seq<Image>, b: seq<Image>)
    requires Ranged(a) && Ranged(b)
  {
    && |a| <= |b|
    && forall i :: 0 <= i < |a| ==> b[i].off == a[i].off && a[i].size <= b[i].size && Start(b, i) == Start(a, i)
  }

  lemma {:induction false} StartOfPrefix(a: seq<Image>, b: seq<Image>, i: nat)
    requires Ranged(a) && Ranged(b) && i <= |a| && i <= |b|
    requires forall j :: 0 <= j < i ==> a[j].size == b[j].size && a[j].off == b[j].off
    ensures Start(a, i) == Start(b, i)
    decreases i
  {
    if i > 0 {
      StartOfPrefix(a[1..], b[1..], i - 1);
    }
  }

  /** A write into the last buffer. */
  function FillLast(fs: seq<Image>, src: seq<byte>): (r: seq<Image>)
    requires fs != [] && fs[|fs| - 1].size + |src| <= |fs[|fs| - 1].buf|
  {
    var n := |fs| - 1;
    fs[n := Image(Overwrite(fs[n].buf, fs[n].size, src), fs[n].size + |src|, fs[n].off)]
  }

  lemma {:induction false} FillLastAppends(fs: seq<Image>, src: seq<byte>)
    requires fs != [] && Ranged(fs)
    requires fs[|fs| - 1].size + |src| <= |fs[|fs| - 1].buf|
    ensures Ranged(FillLast(fs, src)) && Contents(FillLast(fs, src)) == Contents(fs) + src
    decreases |fs|
  {
    var g := FillLast(fs, src);
    if |fs| == 1 {
      assert g[0].Unread() == fs[0].Unread() + src;
    } else {
      FillLastSplits(fs, src);
      hide FillLast, Contents;
      FillLastAppends(fs[1..], src);
      ContentsOf(fs[0], fs[1..]);
      ContentsOf(fs[0], FillLast(fs[1..], src));
      Reassociate(fs[0].Unread(), Contents(fs[1..]), src);
    }
  }

  lemma FillLastSplits(fs: seq<Image>, src: seq<byte>)
    requires |fs| > 1 && fs[|fs| - 1].size + |src| <= |fs[|fs| - 1].buf|
    ensures fs == [fs[0]] + fs[1..] && FillLast(fs, src) == [fs[0]] + FillLast(fs[1..], src)
  {
  }

  lemma {:induction false} NewBufferAppends(fs: seq<Image>, f: Image)
    requires Ranged(fs) && f.off <= f.size <= |f.buf|
    ensures Ranged(fs + [f]) && Contents(fs + [f]) == Contents(fs) + f.Unread()
    decreases |fs|
  {
    if fs == [] {
      assert Contents([f]) == f.Unread();
    } else {
      NewBufferAppends(fs[1..], f);
      assert (fs + [f])[1..] == fs[1..] + [f] && (fs + [f])[0] == fs[0];
      Reassociate(fs[0].Unread(), Contents(fs[1..]), f.Unread());
    }
  }

  /** Overwriting unread bytes of one buffer. */
  function Patch(fs: seq<Image>, i: nat, at: nat, src: seq<byte>): (r: seq<Image>)
    requires i < |fs| && at + |src| <= |fs[i].buf|
  {
    fs[i := fs[i].(buf := Overwrite(fs[i].buf, at, src))]
  }

  lemma SliceOfOverwrite(buf: seq<byte>, lo: nat, hi: nat, at: nat, src: seq<byte>)
    requires lo <= at && at + |src| <= hi <= |buf|
    ensures Overwrite(buf, at, src)[lo..hi] == Overwrite(buf[lo..hi], at - lo, src)
  {
    var a, b := Overwrite(buf, at, src)[lo..hi], Overwrite(buf[lo..hi], at - lo, src);
    forall i | 0 <= i < hi - lo ensures a[i] == b[i] {
      OverwriteAt(buf, at, src, lo + i);
      OverwriteAt(buf[lo..hi], at - lo, src, i);
    }
  }

  lemma OverwriteAt(buf: seq<byte>, at: nat, src: seq<byte>, i: nat)
    requires at + |src| <= |buf| && i < |buf|
    ensures Overwrite(buf, at, src)[i] == if at <= i < at + |src| then src[i - at] else buf[i]
  {
  }

  lemma PatchFirst(fs: seq<Image>, at: nat, src: seq<byte>)
    requires fs != [] && Ranged(fs)
    requires fs[0].off <= at && at + |src| <= fs[0].size
    ensures Ranged(Patch(fs, 0, at, src)) && at - fs[0].off + |src| <= |Contents(fs)|
    ensures Contents(Patch(fs, 0, at, src)) == Overwrite(Contents(fs), at - fs[0].off, src)
  {
    var g := Patch(fs, 0, at, src);
    assert g[1..] == fs[1..];
    SliceOfOverwrite(fs[0].buf, fs[0].off, fs[0].size, at, src);
    hide Overwrite;
    assert g[0].Unread() == Overwrite(fs[0].Unread(), at - fs[0].off, src);
    OverwriteLeft(fs[0].Unread(), Contents(fs[1..]), at - fs[0].off, src);
  }

  /** It overwrites the contents in the same place and moves nothing. */
  lemma {:induction false} PatchContents(fs: seq<Image>, i: nat, at: nat, src: seq<byte>)
    requires i < |fs| && Ranged(fs)
    requires fs[i].off <= at && at + |src| <= fs[i].size
    ensures var pos := Start(fs, i) + at - fs[i].off;
            && Ranged(Patch(fs, i, at, src)) && pos + |src| <= |Contents(fs)|
            && Contents(Patch(fs, i, at, src)) == Overwrite(Contents(fs), pos, src)
    decreases i
  {
    hide Overwrite, Contents, Patch, Start;
    StartUnfolds(fs, i);
    if i == 0 {
      PatchFirst(fs, at, src);
    } else {
      PatchSplits(fs, i, at, src);
      PatchContents(fs[1..], i - 1, at, src);
      ContentsOf(fs[0], fs[1..]);
      ContentsOf(fs[0], Patch(fs[1..], i - 1, at, src));
      OverwriteRight(fs[0].Unread(), Contents(fs[1..]), Start(fs[1..], i - 1) + at - fs[i].off, src);
    }
  }

  lemma StartUnfolds(fs: seq<Image>, i: nat)
    requires i < |fs| && Ranged(fs)
    ensures Start(fs, i) == if i == 0 then 0 else |fs[0].Unread()| + Start(fs[1..], i - 1)
  {
  }

  lemma PatchSplits(fs: seq<Image>, i: nat, at: nat, src: seq<byte>)
    requires 0 < i < |fs| && at + |src| <= |fs[i].buf|
    ensures fs == [fs[0]] + fs[1..] && Patch(fs, i, at, src) == [fs[0]] + Patch(fs[1..], i - 1, at, src)
  {
  }

  lemma FillLastExtends(fs: seq<Image>, cap: nat, src: seq<byte>)
    requires fs != [] && Packed(fs, cap) && fs[|fs| - 1].size + |src| <= cap
    ensures Packed(FillLast(fs, src), cap) && Extends(fs, FillLast(fs, src))
  {
    var g := FillLast(fs, src);
    forall i | 0 <= i < |fs| ensures Start(g, i) == Start(fs, i) {
      StartOfPrefix(g, fs, i);
    }
  }

  lemma NewBufferExtends(fs: seq<Image>, cap: nat, f: Image)
    requires Packed(fs, cap) && (fs != [] ==> fs[|fs| - 1].size == cap)
    requires |f.buf| == cap && 0 == f.off < f.size <= cap
    ensures Packed(fs + [f], cap) && Extends(fs, fs + [f])
  {
    var g := fs + [f];
    forall i | 0 <= i < |fs| ensures Start(g, i) == Start(fs, i) {
      StartOfPrefix(g, fs, i);
    }
  }

  lemma ExtendsSelf(a: seq<Image>)
    requires Ranged(a)
    ensures Extends(a, a)
  {
  }

  lemma ExtendsInTurn(a: seq<Image>, b: seq<Image>, c: seq<Image>)
    requires Ranged(a) && Ranged(b) && Ranged(c)
    requires Extends(a, b) && Extends(b, c)
    ensures Extends(a, c)
  {
  }

  /** `k` bytes leave the first buffer, and the buffer goes when it is empty. */
  function TakeFirst(fs: seq<Image>, k: nat): (r: seq<Image>)
    requires fs != []
  {
    if fs[0].off + k == fs[0].size then fs[1..] else [fs[0].(off := fs[0].off + k)] + fs[1..]
  }

  /** The first `k` unread bytes of the first buffer. */
  function FirstBytes(fs: seq<Image>, k: nat): (out: seq<byte>)
    requires fs != [] && fs[0].off + k <= |fs[0].buf|
    ensures |out| == k
  {
    fs[0].buf[fs[0].off..fs[0].off + k]
  }

  /** `front` comes off `whole` and leaves `rest`. */
  ghost predicate Splits(whole: seq<byte>, front: seq<byte>, rest: seq<byte>) {
    whole == front + rest
  }

  lemma NothingSplits(whole: seq<byte>)
    ensures Splits(whole, [], whole)
  {
  }

  lemma SplitsMeans(whole: seq<byte>, front: seq<byte>, rest: seq<byte>)
    requires Splits(whole, front, rest)
    ensures whole == front + rest && |whole| == |front| + |rest|
  {
  }

  lemma SplitsInTurn(whole: seq<byte>, a: seq<byte>, mid: seq<byte>, b: seq<byte>, rest: seq<byte>)
    requires Splits(whole, a, mid) && Splits(mid, b, rest)
    ensures Splits(whole, a + b, rest)
  {
    Reassociate(a, b, rest);
  }

  lemma TakeFirstReads(fs: seq<Image>, cap: nat, k: nat)
    requires fs != [] && Packed(fs, cap) && 0 < k <= fs[0].size - fs[0].off
    ensures Packed(TakeFirst(fs, k), cap)
    ensures Splits(Contents(fs), FirstBytes(fs, k), Contents(TakeFirst(fs, k)))
    ensures |Contents(fs)| == k + |Contents(TakeFirst(fs, k))|
  {
    TakeFirstPacked(fs, cap, k);
    PackedIsRanged(fs, cap);
    hide Packed, Contents, TakeFirst, Ranged;
    TakeFirstContents(fs, k);
  }

  lemma PackedIsRanged(fs: seq<Image>, cap: nat)
    requires Packed(fs, cap)
    ensures Ranged(fs)
  {
  }

  lemma SplitSlice(s: seq<byte>, a: nat, b: nat, c: nat)
    requires a <= b <= c <= |s|
    ensures s[a..c] == s[a..b] + s[b..c]
  {
  }

  lemma ContentsOf(f: Image, rest: seq<Image>)
    requires f.off <= f.size <= |f.buf| && Ranged([f] + rest) && Ranged(rest)
    ensures Contents([f] + rest) == f.buf[f.off..f.size] + Contents(rest)
  {
    assert ([f] + rest)[1..] == rest;
  }

  /** What is in the first buffer before and after. */
  lemma TakeFirstContents(fs: seq<Image>, k: nat)
    requires fs != [] && Ranged(fs) && 0 < k <= fs[0].size - fs[0].off
    ensures Ranged(TakeFirst(fs, k))
    ensures Contents(fs) == fs[0].buf[fs[0].off..fs[0].off + k] + Contents(TakeFirst(fs, k))
  {
    hide Contents;
    var f := fs[0];
    assert fs == [f] + fs[1..];
    ContentsOf(f, fs[1..]);
    SplitSlice(f.buf, f.off, f.off + k, f.size);
    if f.off + k < f.size {
      ContentsOf(f.(off := f.off + k), fs[1..]);
    } else {
      assert f.buf[f.off + k..f.size] + Contents(fs[1..]) == Contents(fs[1..]);
    }
    Reassociate(f.buf[f.off..f.off + k], f.buf[f.off + k..f.size], Contents(fs[1..]));
  }

  lemma TakeFirstPacked(fs: seq<Image>, cap: nat, k: nat)
    requires fs != [] && Packed(fs, cap) && 0 < k <= fs[0].size - fs[0].off
    ensures Packed(TakeFirst(fs, k), cap)
  {
    hide Contents;
  }

  lemma FirstHasBytes(fs: seq<Image>, cap: nat)
    requires fs != [] && Packed(fs, cap)
    ensures fs[0].off < fs[0].size <= |fs[0].buf|
  {
  }

  /** One frame buffer; the storage is part of the struct. */
  class FrameBuf {
    var buf: seq<byte>
    var size: nat
    var off: nat

    /** fral_get_frab. */
    constructor (cap: nat)
      ensures |buf| == cap && size == 0 && off == 0
    {
      buf := seq(cap, _ => 0);
      size, off := 0, 0;
    }
  }

  class Fral {
    const cap: nat
    var frabs: seq<FrameBuf>
    var flSize: nat
    ghost var images: seq<Image>

    ghost predicate Match()
      reads this`images, this`frabs, frabs
    {
      && |images| == |frabs|
      && (forall i, j :: 0 <= i < j < |frabs| ==> frabs[i] != frabs[j])
      && (forall i :: 0 <= i < |frabs| ==> Image(frabs[i].buf, frabs[i].size, frabs[i].off) == images[i])
    }

    ghost predicate Valid()
      reads this, frabs
    {
      cap > 0 && Match() && Packed(images, cap) && flSize == |Contents(images)|
    }

    /** What a reader would get. */
    ghost function Text(): seq<byte>
      requires Valid()
      reads this, frabs
    {
      Contents(images)
    }

    /** lsquic_frab_list_init. */
    constructor (capacity: nat)
      requires capacity > 0
      ensures Valid() && cap == capacity && frabs == [] && Contents(images) == []
    {
      cap := capacity;
      frabs := [];
      flSize := 0;
      images := [];
    }

    /** The last buffer takes `src`. */
    method WriteToLast(src: seq<byte>)
      requires Match() && Packed(images, cap) && frabs != [] && frabs[|frabs| - 1].size + |src| <= cap
      modifies this`images, frabs
      ensures Match() && images == FillLast(old(images), src)
    {
      hide Contents;
      images := FillLast(images, src);
      Fill(frabs[|frabs| - 1], src);
    }

    /** A new buffer takes `src`. */
    method WriteToNew(src: seq<byte>)
      requires Match() && |src| <= cap
      modifies this`images, this`frabs
      ensures Match() && |frabs| == |old(frabs)| + 1 && old(frabs) <= frabs && fresh(frabs[|old(frabs)|])
      ensures images == old(images) + [images[|frabs| - 1]]
      ensures var f := images[|frabs| - 1];
              |f.buf| == cap && f.off == 0 && f.size == |src| && f.Unread() == src
    {
      var b := new FrameBuf(cap);
      Fill(b, src);
      frabs := frabs + [b];
      images := images + [Image(b.buf, |src|, 0)];
    }

    /** One round of the writing loop: a new buffer if the last one is full or there is none, and
        then as many bytes as fit. */
    method WriteSome(src: seq<byte>) returns (n: nat)
      requires cap > 0 && Match() && Packed(images, cap) && src != []
      modifies this`frabs, this`images, frabs
      ensures Match() && Packed(images, cap) && 0 < n <= |src|
      ensures old(frabs) <= frabs && (forall i :: |old(frabs)| <= i < |frabs| ==> fresh(frabs[i]))
      ensures Contents(images) == Contents(old(images)) + src[..n]
      ensures Extends(old(images), images)
    {
      hide Contents, Start, FillLast, Extends, Image.Unread;
      var last := |frabs| - 1;
      if last >= 0 && cap - frabs[last].size > 0 {
        n := Min(cap - frabs[last].size, |src|);
        FillLastAppends(images, src[..n]);
        FillLastExtends(images, cap, src[..n]);
        WriteToLast(src[..n]);
      } else {
        n := Min(cap, |src|);
        ghost var fs := images;
        WriteToNew(src[..n]);
        NewBufferAppends(fs, images[|frabs| - 1]);
        NewBufferExtends(fs, cap, images[|frabs| - 1]);
      }
    }

    /** memcpy(frab_write_to(frab), src, |src|). */
    method Fill(b: FrameBuf, src: seq<byte>)
      requires b.size + |src| <= |b.buf|
      modifies b
      ensures b.buf == Overwrite(old(b.buf), old(b.size), src)
      ensures b.size == old(b.size) + |src| && b.off == old(b.off)
    {
      b.buf := Overwrite(b.buf, b.size, src);
      b.size := b.size + |src|;
    }

    /** lsquic_frab_list_write. */
    method Write(src: seq<byte>)
      requires Valid()
      modifies this, frabs
      ensures Valid() && old(frabs) <= frabs && (forall i :: |old(frabs)| <= i < |frabs| ==> fresh(frabs[i]))
      ensures Contents(images) == Contents(old(images)) + src && Text() == old(Text()) + src
      ensures Extends(old(images), images)
    {
      hide Contents, Start, Extends, Match;
      ghost var fs := images;
      ExtendsSelf(fs);
      var p := 0;
      while p < |src|
        invariant p <= |src| && Match() && Packed(images, cap) && flSize == old(flSize)
        invariant old(frabs) <= frabs && (forall i :: |old(frabs)| <= i < |frabs| ==> fresh(frabs[i]))
        invariant Contents(images) == Contents(fs) + src[..p]
        invariant Extends(fs, images)
      {
        ghost var before := images;
        var n := WriteSome(src[p..]);
        ExtendsInTurn(fs, before, images);
        assert src[..p] + src[p..][..n] == src[..p + n];
        p := p + n;
      }
      assert src[..p] == src;
      AddSize(|src|);
    }

    method AddSize(n: nat)
      requires Match()
      modifies this`flSize
      ensures Match() && flSize == old(flSize) + n
    {
      flSize := flSize + n;
    }

    /** lsquic_frab_list_size. */
    method Size() returns (n: nat)
      requires Valid()
      ensures n == |Contents(images)|
    {
      n := flSize;
    }

    /** One round of the reading loop. */
    method ReadSome(n: nat) returns (out: seq<byte>)
      requires Valid() && frabs != [] && n > 0
      modifies this`frabs, this`flSize, this`images, frabs
      ensures Valid()
      ensures 0 < |out| <= n && Splits(Contents(old(images)), out, Contents(images))
      ensures forall i :: 0 <= i < |frabs| ==> frabs[i] in old(frabs)
    {
      hide Contents, Packed, TakeFirst, Ranged, Match, FirstBytes, Splits;
      FirstIs();
      FirstHasBytes(images, cap);
      var b := frabs[0];
      var k := if n <= b.size - b.off then n else b.size - b.off;
      TakeFirstReads(images, cap, k);
      out := TakeBytes(k);
      flSize := flSize - k;
    }

    lemma FirstIs()
      requires Match() && frabs != []
      ensures images != [] && images[0] == Image(frabs[0].buf, frabs[0].size, frabs[0].off)
    {
    }

    /** `k` bytes leave the first buffer. */
    method TakeBytes(k: nat) returns (out: seq<byte>)
      requires Match() && frabs != [] && frabs[0].off + k <= frabs[0].size <= |frabs[0].buf|
      modifies this`frabs, this`images, frabs
      ensures Match() && images == TakeFirst(old(images), k)
      ensures out == FirstBytes(old(images), k)
      ensures forall i :: 0 <= i < |frabs| ==> frabs[i] in old(frabs)
    {
      var b := frabs[0];
      out := b.buf[b.off..b.off + k];
      images := TakeFirst(images, k);
      b.off := b.off + k;
      if b.off == b.size {
        frabs := frabs[1..];
      }
    }

    /** lsquic_frab_list_read: up to `n` bytes, oldest first. */
    method Read(n: nat) returns (out: seq<byte>)
      requires Valid()
      modifies this, frabs
      ensures Valid()
      ensures Contents(old(images)) == out + Contents(images)
      ensures |out| == Min(n, |Contents(old(images))|)
    {
      hide Contents, Match, Splits;
      out := [];
      EmptyMeansEmpty();
      ghost var whole := Contents(images);
      NothingSplits(whole);
      while |out| < n && frabs != []
        invariant Valid() && |out| <= n && (forall i :: 0 <= i < |frabs| ==> frabs[i] in old(frabs))
        invariant Splits(whole, out, Contents(images))
        invariant frabs == [] ==> Contents(images) == []
        decreases n - |out|
      {
        ghost var mid := Contents(images);
        var more := ReadSome(n - |out|);
        SplitsInTurn(whole, out, mid, more, Contents(images));
        out := out + more;
        EmptyMeansEmpty();
      }
      SplitsMeans(whole, out, Contents(images));
    }

    lemma EmptyMeansEmpty()
      requires Valid()
      ensures frabs == [] ==> Contents(images) == []
    {
    }

    /** memcpy over bytes written before, in buffer `b` at storage position `at`. */
    method PatchBuffer(b: FrameBuf, ghost i: nat, at: nat, src: seq<byte>)
      requires Valid() && i < |frabs| && frabs[i] == b
      requires b.off <= at && at + |src| <= b.size
      modifies this`images, b
      ensures Valid()
      ensures images == Patch(old(images), i, at, src)
      ensures Start(old(images), i) + at - old(b.off) + |src| <= |Contents(old(images))|
      ensures Contents(images) ==
              Overwrite(Contents(old(images)), Start(old(images), i) + at - old(b.off), src)
    {
      hide Contents, Start;
      PatchContents(images, i, at, src);
      images := Patch(images, i, at, src);
      b.buf := Overwrite(b.buf, at, src);
    }

    /** TAILQ_PREV: the buffer before `b`. */
    method Before(b: FrameBuf, ghost i: nat) returns (prev: FrameBuf)
      requires Match() && 0 < i < |frabs| && frabs[i] == b
      ensures prev == frabs[i - 1]
    {
      var j := 1;
      while frabs[j] != b
        invariant 1 <= j <= i
        decreases i - j
      {
        j := j + 1;
      }
      prev := frabs[j - 1];
    }
  }
}
