/** What both incoming-stream handlers talk about: STREAM frames and the sparse map of
    stream bytes they stand for (section 2.2 of RFC 9000). */
module StreamData {
  import opened Basics

  // enum ins_frame
  datatype InsFrame = Ok | Err | Dup | Overlap

  /** The payload of a STREAM frame as it arrives. */
  datatype Frame = Frame(off: nat, data: seq<byte>, fin: bool) {
    function End(): nat {
      off + |data|
    }

    predicate Covers(o: nat) {
      off <= o < End()
    }

    function ByteAt(o: nat): byte
      requires Covers(o)
    {
      data[o - off]
    }
  }

  /** Stream bytes by absolute offset. */
  type Bytes = map<nat, byte>

  function Content(f: Frame): Bytes {
    map o: nat | f.off <= o < f.End() && f.Covers(o) :: f.ByteAt(o)
  }

  /** The bytes at `r` and later. */
  function From(m: Bytes, r: nat): Bytes {
    map o | o in m && r <= o :: m[o]
  }

  /** `n` is the length of the longest contiguous run of bytes at `r`. */
  ghost predicate IsRun(m: Bytes, r: nat, n: nat) {
    (forall o: nat :: r <= o < r + n ==> o in m) && r + n !in m
  }

  lemma RunIsUnique(m: Bytes, r: nat, n: nat, n': nat)
    requires IsRun(m, r, n) && IsRun(m, r, n')
    ensures n == n'
  {
    assert n < n' ==> r + n in m;
    assert n' < n ==> r + n' in m;
  }

  /** Every byte of the frame is the byte of `stream` at that offset. */
  ghost predicate SliceOf(f: Frame, stream: nat -> byte) {
    forall o: nat :: f.Covers(o) ==> f.ByteAt(o) == stream(o)
  }

  ghost predicate Agrees(m: Bytes, stream: nat -> byte) {
    forall o: nat :: o in m ==> m[o] == stream(o)
  }

  lemma SliceAgrees(f: Frame, stream: nat -> byte)
    requires SliceOf(f, stream)
    ensures Agrees(Content(f), stream)
  {
  }
}
