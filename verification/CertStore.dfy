/** Finding certificates: among the common sets, and among those the client holds. */
module CertStore {
  import opened Basics
  import opened CertEntries
  import Fnv

  // ---------------------------------------------------------------- hashes

  const FNV64_INIT: uint64 := 14695981039346656037
  const FNV64_PRIME: uint64 := 1099511628211

  /** FNV-1a on 64 bits. */
  function Hash64(data: seq<byte>): (h: uint64) {
    if data == [] then FNV64_INIT
    else Fnv.XorByte(Hash64(data[..|data| - 1]), data[|data| - 1]) * FNV64_PRIME % TWO64
  }

  /** The published parameters of 64-bit FNV, and its published values for the inputs "" and "a". */
  lemma PublishedHashes()
    ensures FNV64_PRIME == 0x100_0000_0000 + 0x1b3 && FNV64_INIT == 0xcbf2_9ce4_8422_2325
    ensures Hash64([]) == 0xcbf2_9ce4_8422_2325
    ensures Hash64([0x61]) == 0xaf63_dc4c_8601_ec8c
  {
    hide Fnv.XorByte;
    assert [0x61 as byte][..0] == [];
    assert Hash64([]) == FNV64_INIT;
    Fnv.XorOfA();
    assert 0xcbf2_9ce4_8422_2344 * FNV64_PRIME == 0xcb_f29c_e5de * TWO64 + 0xaf63_dc4c_8601_ec8c;
  }

  /** lsquic_fnv1a_64. */
  method ComputeHash64(data: seq<byte>) returns (h: uint64)
    ensures h == Hash64(data)
  {
    h := FNV64_INIT;
    var i := 0;
    while i < |data|
      invariant 0 <= i <= |data| && h == Hash64(data[..i])
    {
      assert data[..i + 1][..i] == data[..i];
      h := Fnv.XorByte(h, data[i]) * FNV64_PRIME % TWO64;
      i := i + 1;
    }
    assert data[..i] == data;
  }

  /** The `j`-th of the hashes a client sends as bytes. */
  function HashAt(b: seq<byte>, j: nat): (h: uint64)
    requires 8 * j + 8 <= |b|
  {
    Word64(b[8 * j..8 * j + 8])
  }

  ghost predicate Mentions(b: seq<byte>, h: uint64) {
    exists j: nat :: 8 * j + 8 <= |b| && HashAt(b, j) == h
  }

  // ---------------------------------------------------------------- certificates the client holds

  /** The first held certificate of that hash; none leaves the output empty. */
  function FirstHeld(cached: seq<Cert>, h: uint64): (c: Cert) {
    if cached == [] then []
    else if Hash64(cached[0]) == h then cached[0]
    else FirstHeld(cached[1..], h)
  }

  function Held(cached: seq<Cert>): (f: uint64 -> Cert)
    ensures forall h: uint64 :: f(h) == FirstHeld(cached, h)
  {
    (h: uint64) => FirstHeld(cached, h)
  }

  /** A certificate still held is found by its hash, if no other held one collides with it. */
  lemma {:induction false} HeldIsFound(cached: seq<Cert>, c: Cert)
    requires c in cached && forall d :: d in cached && Hash64(d) == Hash64(c) ==> d == c
    ensures FirstHeld(cached, Hash64(c)) == c
  {
    if cached[0] != c {
      HeldIsFound(cached[1..], c);
    }
  }

  /** What is found by a hash is the first held certificate of that hash, and nothing if there is none. */
  lemma {:induction false} FirstHeldIsFirst(cached: seq<Cert>, h: uint64, j: nat)
    requires j <= |cached| && forall i :: 0 <= i < j ==> Hash64(cached[i]) != h
    ensures j < |cached| && Hash64(cached[j]) == h ==> FirstHeld(cached, h) == cached[j]
    ensures j == |cached| ==> FirstHeld(cached, h) == []
    decreases j
  {
    if j > 0 {
      FirstHeldIsFirst(cached[1..], h, j - 1);
    }
  }

  // ---------------------------------------------------------------- order of certificates

  /** comp_ls_str: bytes first, then length. */
  function Compare(a: Cert, b: Cert): (n: int) {
    if a == [] || b == [] then
      if |a| > |b| then 1 else if |a| < |b| then -1 else 0
    else if a[0] < b[0] then -1
    else if a[0] > b[0] then 1
    else Compare(a[1..], b[1..])
  }

  lemma {:induction false} CompareIsOrder(a: Cert, b: Cert)
    ensures Compare(a, b) == 0 <==> a == b
    ensures Compare(a, b) == -Compare(b, a)
  {
    if a != [] && b != [] {
      CompareIsOrder(a[1..], b[1..]);
      assert a == [a[0]] + a[1..] && b == [b[0]] + b[1..];
    }
  }

  /** The order is that of the bytes at the first difference, and a proper beginning comes first. */
  lemma {:induction false} CompareIsLexicographic(a: Cert, b: Cert, k: nat)
    requires k <= |a| && k <= |b| && a[..k] == b[..k]
    ensures k < |a| && k < |b| && a[k] < b[k] ==> Compare(a, b) < 0
    ensures k == |a| < |b| ==> Compare(a, b) < 0
    decreases k
  {
    if k > 0 {
      assert a[0] == a[..k][0] == b[..k][0] == b[0];
      assert a[1..][..k - 1] == a[..k][1..] && b[1..][..k - 1] == b[..k][1..];
      CompareIsLexicographic(a[1..], b[1..], k - 1);
    }
  }

  /** It is transitive, so it is enough for neighbours to be in order. */
  lemma {:induction false} CompareIsTransitive(a: Cert, b: Cert, c: Cert)
    requires Compare(a, b) <= 0 && Compare(b, c) <= 0
    ensures Compare(a, c) <= 0
    ensures Compare(a, b) < 0 || Compare(b, c) < 0 ==> Compare(a, c) < 0
  {
    if a != [] && b != [] && c != [] && a[0] == b[0] == c[0] {
      CompareIsTransitive(a[1..], b[1..], c[1..]);
    }
  }

  /** A set is sorted exactly when each certificate is before the next. */
  lemma {:induction false} SortedByNeighbours(cs: seq<Cert>)
    ensures Sorted(cs) <==> forall i :: 0 <= i < |cs| - 1 ==> Compare(cs[i], cs[i + 1]) < 0
  {
    if (forall i :: 0 <= i < |cs| - 1 ==> Compare(cs[i], cs[i + 1]) < 0) {
      forall i, j | 0 <= i < j < |cs| ensures Compare(cs[i], cs[j]) < 0 {
        InOrder(cs, i, j);
      }
    }
  }

  lemma {:induction false} InOrder(cs: seq<Cert>, i: nat, j: nat)
    requires i < j < |cs| && forall k :: 0 <= k < |cs| - 1 ==> Compare(cs[k], cs[k + 1]) < 0
    ensures Compare(cs[i], cs[j]) < 0
  {
    if i + 1 < j {
      InOrder(cs, i, j - 1);
      assert Compare(cs[j - 1], cs[j - 1 + 1]) < 0;
      CompareIsTransitive(cs[i], cs[j - 1], cs[j]);
    }
  }

  ghost predicate Sorted(cs: seq<Cert>) {
    forall i, j :: 0 <= i < j < |cs| ==> Compare(cs[i], cs[j]) < 0
  }

  /** Where a comparison leads, the certificate cannot be on the other side. */
  lemma NotThere(cs: seq<Cert>, c: Cert, mid: nat, k: nat)
    requires Sorted(cs) && mid < |cs| && k < |cs| && Compare(c, cs[mid]) != 0
    requires if Compare(c, cs[mid]) < 0 then k >= mid else k <= mid
    ensures cs[k] != c
  {
    CompareIsOrder(c, cs[mid]);
    CompareIsOrder(cs[mid], cs[k]);
  }

  /** The search loop of match_common_cert: sound, and complete on a sorted set. */
  method BinarySearch(cert: Cert, cs: seq<Cert>) returns (r: Option<nat>)
    requires cs != []
    ensures r.Some? ==> r.value < |cs| && cs[r.value] == cert
    ensures r.None? && Sorted(cs) ==> cert !in cs
  {
    var min, max := 0, |cs| - 1;
    while max >= min
      invariant 0 <= min <= |cs| && 0 <= max < |cs|
      invariant Sorted(cs) ==> forall k :: 0 <= k < min || max < k < |cs| ==> cs[k] != cert
      decreases max - min
    {
      var mid := min + (max - min) / 2;
      var n := Compare(cert, cs[mid]);
      CompareIsOrder(cert, cs[mid]);
      if n != 0 && Sorted(cs) {
        forall k | 0 <= k < |cs| && (if n < 0 then k >= mid else k <= mid) ensures cs[k] != cert {
          NotThere(cs, cert, mid, k);
        }
      }
      if n < 0 {
        if mid == 0 {
          break;
        }
        max := mid - 1;
      } else if n > 0 {
        min := mid + 1;
      } else {
        return Some(mid);
      }
    }
    return None;
  }

  // ---------------------------------------------------------------- the common sets

  /** What holds of the sets built into the library: their hashes differ, and an index fits 32 bits. */
  ghost predicate SetsOk(sets: seq<CommonSet>) {
    && (forall i, j :: 0 <= i < j < |sets| ==> sets[i].hash != sets[j].hash)
    && (forall i :: 0 <= i < |sets| ==> |sets[i].certs| < 0x1_0000_0000)
  }

  ghost predicate SetsSorted(sets: seq<CommonSet>) {
    forall i :: 0 <= i < |sets| ==> Sorted(sets[i].certs)
  }

  /** lsquic_get_common_cert. */
  method GetCommonCert(sets: seq<CommonSet>, hash: uint64, index: uint32) returns (c: Option<Cert>)
    ensures c == CommonCert(sets, hash, index)
  {
    var i := 0;
    while i < |sets|
      invariant 0 <= i <= |sets| && CommonCert(sets, hash, index) == CommonCert(sets[i..], hash, index)
    {
      if sets[i].hash == hash {
        if index < |sets[i].certs| {
          return Some(sets[i].certs[index]);
        }
        break;
      }
      assert sets[i..][1..] == sets[i + 1..];
      i := i + 1;
    }
    return None;
  }

  /** The lookup finds the certificate at the index in the first set of that hash, and nothing otherwise. */
  lemma {:induction false} CommonCertIsFirst(sets: seq<CommonSet>, hash: uint64, index: uint32, j: nat)
    requires j <= |sets| && forall i :: 0 <= i < j ==> sets[i].hash != hash
    ensures j == |sets| ==> CommonCert(sets, hash, index) == None
    ensures j < |sets| && sets[j].hash == hash ==>
      CommonCert(sets, hash, index) == if index < |sets[j].certs| then Some(sets[j].certs[index]) else None
    decreases j
  {
    if j > 0 {
      CommonCertIsFirst(sets[1..], hash, index, j - 1);
    }
  }

  /** A match in any set looks up to the same certificate, since the sets' hashes differ. */
  lemma {:induction false} MatchLooksUp(sets: seq<CommonSet>, j: nat, index: uint32)
    requires SetsOk(sets) && j < |sets| && index < |sets[j].certs|
    ensures CommonCert(sets, sets[j].hash, index) == Some(sets[j].certs[index])
  {
    if j > 0 {
      assert sets[0].hash != sets[j].hash;
      MatchLooksUp(sets[1..], j - 1, index);
    }
  }

  /** The certificate is in no set that the hashes mention. */
  ghost predicate InNoSet(cert: Cert, hashes: seq<byte>, sets: seq<CommonSet>, n: nat) {
    forall i: nat, j: nat :: i < n && 8 * i + 8 <= |hashes| && j < |sets| && HashAt(hashes, i) == sets[j].hash ==>
      cert !in sets[j].certs
  }

  /** match_common_cert. */
  method MatchCommonCert(cert: Cert, hashes: seq<byte>, sets: seq<CommonSet>) returns (r: Option<Entry>)
    requires SetsOk(sets)
    ensures r.Some? ==> r.value.Common? && CommonCert(sets, r.value.setHash, r.value.index) == Some(cert)
    ensures r.Some? ==> |hashes| % 8 == 0 && Mentions(hashes, r.value.setHash)
    ensures r.None? && |hashes| % 8 == 0 && SetsSorted(sets) ==> InNoSet(cert, hashes, sets, |hashes|)
  {
    if |hashes| % 8 != 0 {
      return None;
    }
    var i := 0;
    while i < |hashes| / 8
      invariant 0 <= i <= |hashes| / 8
      invariant SetsSorted(sets) ==> InNoSet(cert, hashes, sets, i)
    {
      var hash := HashAt(hashes, i);
      var j := 0;
      while j < |sets|
        invariant 0 <= j <= |sets|
        invariant SetsSorted(sets) ==>
          forall k :: 0 <= k < j && sets[k].hash == hash ==> cert !in sets[k].certs
      {
        if sets[j].hash == hash && sets[j].certs != [] {
          var at := BinarySearch(cert, sets[j].certs);
          if at.Some? {
            MatchLooksUp(sets, j, at.value);
            return Some(Common(hash, at.value));
          }
        }
        j := j + 1;
      }
      i := i + 1;
    }
    return None;
  }
}
