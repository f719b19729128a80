/** The bucket array of the hash handler: every block is in the bucket its offset hashes to,
    once, and doubling the array keeps it so. */
module HashTable {
  import opened Words
  import opened DataBlocks

  type Buckets = seq<seq<DataBlock>>

  /** BUCKNO: the low `nbits` bits of the block number. */
  function BuckNo(nbits: nat, off: nat): (n: nat)
    ensures n < Pow2(nbits)
  {
    AndBound(off / BLOCK, Pow2(nbits) - 1);
    And(off / BLOCK, Pow2(nbits) - 1)
  }

  ghost predicate NoDuplicates<T>(s: seq<T>) {
    forall i, j :: 0 <= i < j < |s| ==> s[i] != s[j]
  }

  /** `buckets` holds exactly the blocks of `blocks`, each once and in its own bucket. */
  ghost predicate Holds(buckets: Buckets, nbits: nat, blocks: map<nat, DataBlock>) {
    && |buckets| == Pow2(nbits)
    && (forall k :: k in blocks ==> blocks[k].off == k && blocks[k] in buckets[BuckNo(nbits, k)])
    && (forall i, b :: 0 <= i < |buckets| && b in buckets[i] ==> InPlace(b, i, nbits, blocks))
    && (forall i :: 0 <= i < |buckets| ==> NoDuplicates(buckets[i]))
  }

  ghost predicate InPlace(b: DataBlock, i: nat, nbits: nat, blocks: map<nat, DataBlock>) {
    b.off in blocks && blocks[b.off] == b && BuckNo(nbits, b.off) == i
  }

  /** hash_find: a block is found exactly when it is present. */
  method Find(buckets: Buckets, nbits: nat, ghost blocks: map<nat, DataBlock>, off: nat) returns (b: DataBlock?)
    requires Holds(buckets, nbits, blocks)
    ensures b == null <==> off !in blocks
    ensures b != null ==> b == blocks[off]
  {
    var bucket := buckets[BuckNo(nbits, off)];
    for i := 0 to |bucket|
      invariant forall j :: 0 <= j < i ==> bucket[j].off != off
    {
      if bucket[i].off == off {
        assert InPlace(bucket[i], BuckNo(nbits, off), nbits, blocks);
        return bucket[i];
      }
    }
    return null;
  }

  /** Which half of the doubled array a block goes to: bit `nbits` of its block number. */
  function Half(nbits: nat, off: nat): (h: nat) {
    And(Shr(BuckNo(nbits + 1, off), nbits), 1)
  }

  lemma HalfPicksBucket(nbits: nat, off: nat)
    ensures Half(nbits, off) < 2
    ensures BuckNo(nbits + 1, off) == BuckNo(nbits, off) + Half(nbits, off) * Pow2(nbits)
  {
    var x := off / BLOCK;
    AndOneMoreBit(x, nbits);
    BitOfAnd(x, Pow2(nbits + 1) - 1, nbits);
    BitOfLowMask(nbits + 1, nbits);
    BitOfShr(BuckNo(nbits + 1, off), nbits, 0);
    AndOne(Shr(BuckNo(nbits + 1, off), nbits));
    hide And, Shr, Pow2;
  }

  lemma AndOne(y: nat)
    ensures And(y, 1) == if Bit(y, 0) then 1 else 0
  {
    assert y != 0 ==> And(y, 1) == y % 2 + 2 * And(y / 2, 0);
  }

  /** The blocks of one old bucket that go to half `h`, in order. */
  function Select(bucket: seq<DataBlock>, nbits: nat, h: nat): (r: seq<DataBlock>) {
    if bucket == [] then []
    else
      var rest := Select(bucket[..|bucket| - 1], nbits, h);
      var last := bucket[|bucket| - 1];
      if Half(nbits, last.off) == h then rest + [last] else rest
  }

  lemma {:induction false} SelectMembers(bucket: seq<DataBlock>, nbits: nat, h: nat)
    ensures forall b :: b in Select(bucket, nbits, h) <==> b in bucket && Half(nbits, b.off) == h
    ensures NoDuplicates(bucket) ==> NoDuplicates(Select(bucket, nbits, h))
  {
    if bucket != [] {
      var init := bucket[..|bucket| - 1];
      SelectMembers(init, nbits, h);
      assert bucket == init + [bucket[|bucket| - 1]];
    }
  }

  /** hash_grow: twice as many buckets, the same blocks, each in its new bucket. */
  method Grow(buckets: Buckets, nbits: nat, ghost blocks: map<nat, DataBlock>) returns (grown: Buckets)
    requires Holds(buckets, nbits, blocks)
    ensures Holds(grown, nbits + 1, blocks)
    ensures |grown| == 2 * |buckets|
  {
    hide Holds, Half;
    var size := |buckets|;
    var low: Buckets, high: Buckets := [], [];
    for n := 0 to size
      invariant |low| == n && |high| == n
      invariant forall i :: 0 <= i < n ==> low[i] == Select(buckets[i], nbits, 0)
      invariant forall i :: 0 <= i < n ==> high[i] == Select(buckets[i], nbits, 1)
    {
      var bucket := buckets[n];
      var new0: seq<DataBlock>, new1: seq<DataBlock> := [], [];
      for j := 0 to |bucket|
        invariant new0 == Select(bucket[..j], nbits, 0)
        invariant new1 == Select(bucket[..j], nbits, 1)
      {
        HalfPicksBucket(nbits, bucket[j].off);
        assert bucket[..j + 1][..j] == bucket[..j];
        if Half(nbits, bucket[j].off) == 0 {
          new0 := new0 + [bucket[j]];
        } else {
          new1 := new1 + [bucket[j]];
        }
      }
      assert bucket[..|bucket|] == bucket;
      low, high := low + [new0], high + [new1];
    }
    grown := low + high;
    GrownHolds(buckets, grown, nbits, blocks);
  }

  ghost predicate Doubled(buckets: Buckets, grown: Buckets, nbits: nat) {
    && |grown| == 2 * |buckets|
    && (forall i :: 0 <= i < |buckets| ==> grown[i] == Select(buckets[i], nbits, 0))
    && (forall i :: |buckets| <= i < |grown| ==> grown[i] == Select(buckets[i - |buckets|], nbits, 1))
  }

  lemma GrownInPlace(buckets: Buckets, grown: Buckets, nbits: nat, blocks: map<nat, DataBlock>, i: nat)
    requires Holds(buckets, nbits, blocks)
    requires Doubled(buckets, grown, nbits)
    requires i < |grown|
    ensures forall b :: b in grown[i] ==> InPlace(b, i, nbits + 1, blocks)
    ensures NoDuplicates(grown[i])
  {
    var h := if i < |buckets| then 0 else 1;
    var from := i - h * |buckets|;
    SelectMembers(buckets[from], nbits, h);
    assert grown[i] == Select(buckets[from], nbits, h);
    forall b | b in grown[i]
      ensures InPlace(b, i, nbits + 1, blocks)
    {
      assert InPlace(b, from, nbits, blocks);
      HalfPicksBucket(nbits, b.off);
    }
  }

  lemma GrownKeeps(buckets: Buckets, grown: Buckets, nbits: nat, blocks: map<nat, DataBlock>, k: nat)
    requires Holds(buckets, nbits, blocks)
    requires Doubled(buckets, grown, nbits)
    requires k in blocks
    ensures BuckNo(nbits + 1, k) < |grown|
    ensures blocks[k] in grown[BuckNo(nbits + 1, k)]
  {
    hide BuckNo, Half, Select, Pow2, NoDuplicates;
    var n, h := BuckNo(nbits, k), Half(nbits, k);
    HalfPicksBucket(nbits, k);
    SelectMembers(buckets[n], nbits, h);
    if h == 0 {
      assert grown[n] == Select(buckets[n], nbits, 0);
    } else {
      assert grown[n + |buckets|] == Select(buckets[n], nbits, 1);
    }
  }

  lemma GrownHolds(buckets: Buckets, grown: Buckets, nbits: nat, blocks: map<nat, DataBlock>)
    requires Holds(buckets, nbits, blocks)
    requires Doubled(buckets, grown, nbits)
    ensures Holds(grown, nbits + 1, blocks)
  {
    assert |grown| == Pow2(nbits + 1);
    forall i | 0 <= i < |grown|
      ensures forall b :: b in grown[i] ==> InPlace(b, i, nbits + 1, blocks)
      ensures NoDuplicates(grown[i])
    {
      GrownInPlace(buckets, grown, nbits, blocks, i);
    }
    forall k | k in blocks
      ensures blocks[k] in grown[BuckNo(nbits + 1, k)]
    {
      GrownKeeps(buckets, grown, nbits, blocks, k);
    }
  }

  /** The list without `b` (TAILQ_REMOVE). */
  function Without(s: seq<DataBlock>, b: DataBlock): (r: seq<DataBlock>)
  {
    if s == [] then [] else if s[0] == b then s[1..] else [s[0]] + Without(s[1..], b)
  }

  lemma {:induction false} WithoutMembers(s: seq<DataBlock>, b: DataBlock)
    requires NoDuplicates(s)
    ensures NoDuplicates(Without(s, b))
    ensures forall x :: x in Without(s, b) <==> x in s && x != b
  {
    if s != [] && s[0] != b {
      WithoutMembers(s[1..], b);
      assert forall x :: x in s <==> x == s[0] || x in s[1..];
      assert s[0] !in s[1..];
    }
  }

  lemma InsertHolds(buckets: Buckets, nbits: nat, blocks: map<nat, DataBlock>, b: DataBlock)
    requires Holds(buckets, nbits, blocks) && b.off !in blocks
    ensures var n := BuckNo(nbits, b.off);
            Holds(buckets[n := buckets[n] + [b]], nbits, blocks[b.off := b])
  {
    var n := BuckNo(nbits, b.off);
    var after, blocks' := buckets[n := buckets[n] + [b]], blocks[b.off := b];
    assert b !in buckets[n];
    forall i, x | 0 <= i < |after| && x in after[i]
      ensures InPlace(x, i, nbits, blocks')
    {
      assert x in buckets[i] ==> InPlace(x, i, nbits, blocks);
    }
  }

  lemma RemoveHolds(buckets: Buckets, nbits: nat, blocks: map<nat, DataBlock>, b: DataBlock, after: Buckets)
    requires Holds(buckets, nbits, blocks) && b.off in blocks && blocks[b.off] == b
    requires var n := BuckNo(nbits, b.off); after == buckets[n := Without(buckets[n], b)]
    ensures Holds(after, nbits, blocks - {b.off})
  {
    var n, blocks' := BuckNo(nbits, b.off), blocks - {b.off};
    WithoutMembers(buckets[n], b);
    forall i | 0 <= i < |after|
      ensures forall x :: x in after[i] ==> InPlace(x, i, nbits, blocks')
      ensures NoDuplicates(after[i])
    {
      forall x | x in after[i]
        ensures InPlace(x, i, nbits, blocks')
      {
        assert x in buckets[i] && InPlace(x, i, nbits, blocks);
      }
    }
  }
}
