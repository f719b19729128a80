/** Types shared by the models. */
module Basics {

  newtype byte = x: int | 0 <= x < 256

  const TWO64: nat := 0x1_0000_0000_0000_0000

  type uint64 = x: nat | x < 0x1_0000_0000_0000_0000
  type uint32 = x: nat | x < 0x1_0000_0000

  datatype Option<+T> = None | Some(value: T)

  function Min(a: int, b: int): (m: int) {
    if a <= b then a else b
  }

  function Max(a: int, b: int): (m: int) {
    if a >= b then a else b
  }

  /** `memcpy(dst + at, src, |src|)`. */
  function Overwrite<T>(dst: seq<T>, at: nat, src: seq<T>): (r: seq<T>)
    requires at + |src| <= |dst|
    ensures |r| == |dst|
  {
    dst[..at] + src + dst[at + |src|..]
  }

  lemma Reassociate<T>(a: seq<T>, b: seq<T>, c: seq<T>)
    ensures a + b + c == a + (b + c)
  {
  }

  lemma OverwriteAdjacent<T>(dst: seq<T>, at: nat, a: seq<T>, b: seq<T>)
    requires at + |a| + |b| <= |dst|
    ensures Overwrite(Overwrite(dst, at, a), at + |a|, b) == Overwrite(dst, at, a + b)
  {
    var once := Overwrite(dst, at, a);
    assert once[..at + |a|] == dst[..at] + a;
    assert once[at + |a| + |b|..] == dst[at + |a| + |b|..];
  }

  lemma OverwriteLeft<T>(a: seq<T>, b: seq<T>, at: nat, src: seq<T>)
    requires at + |src| <= |a|
    ensures Overwrite(a + b, at, src) == Overwrite(a, at, src) + b
  {
  }

  lemma OverwriteRight<T>(a: seq<T>, b: seq<T>, at: nat, src: seq<T>)
    requires at + |src| <= |b|
    ensures Overwrite(a + b, |a| + at, src) == a + Overwrite(b, at, src)
  {
  }
}
