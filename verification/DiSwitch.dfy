/** nocopy_di_switch_impl on the two handler objects. */
module DiSwitch {
  import opened Basics
  import opened StreamData
  import N = NocopySpec
  import H = HashSpec
  import opened DiNocopy
  import opened DiHash
  import opened Switching

  /** Empties the list into a new hash handler, which is null when a frame is refused. */
  method SwitchImpl(list: NocopyDataIn, r: nat) returns (hash: HashDataIn?)
    requires list.Valid(r)
    modifies list`frames
    ensures var res := InsertAll(H.EMPTY, old(list.frames), r);
            if res.None? then hash == null
            else hash != null && fresh(hash) && fresh(hash.shadow.repr) && hash.Valid() && hash.Model() == res.value
  {
    hide HashDataIn.Valid, H.Insert;
    var h := new HashDataIn(list.byteage);
    while list.frames != []
      invariant fresh(h) && h.Valid() && fresh(h.shadow.repr)
      invariant InsertAll(h.Model(), list.frames, r) == InsertAll(H.EMPTY, old(list.frames), r)
      decreases |list.frames|
    {
      var f := list.frames[0].f;
      list.frames := list.frames[1..];
      var ins := h.InsertDataFrame(f, r);
      if ins == Err {
        return null;
      }
    }
    return h;
  }

  /** A switch that succeeds leaves both handlers agreeing on how many bytes are readable: the
      longest run of unread bytes at the read offset. */
  lemma SameReadable(s: N.LState, r: nat, h: H.HState, n: nat, m: nat)
    requires N.Inv(s, r) && InsertAll(H.EMPTY, s.frames, r) == Some(h)
    requires IsRun(From(N.Queue(s.frames), r), r, n)  // what the list handler reports
    requires IsRun(h.bytes, r, m)                     // what the hash handler reports
    ensures n == m
  {
    SwitchKeepsUnread(s, r);
    var q := From(N.Queue(s.frames), r);
    assert forall o: nat :: r <= o ==> (o in h.bytes <==> o in q);
    RunIsUnique(q, r, n, m);
  }

  /** Asks the list, switches, asks the hash handler: the two answers are the same. */
  method ReadableAcrossSwitch(list: NocopyDataIn, r: nat) returns (before: nat, hash: HashDataIn?, after: nat)
    requires list.Valid(r)
    modifies list`frames
    ensures IsRun(From(N.Queue(old(list.frames)), r), r, before)
    ensures hash == null <==> HasFin(old(list.frames)) && !NonePast(old(list.frames), list.finOff)
    ensures hash != null ==> after == before
  {
    hide HashDataIn.Valid, N.Inv, IsRun, H.Inv;
    ghost var s := list.State();
    SwitchKeepsUnread(s, r);
    before := list.ReadableBytes(r);
    hash := SwitchImpl(list, r);
    after := 0;
    if hash != null {
      after := hash.ReadableBytes(r);
      SameReadable(s, r, hash.Model(), before, after);
    }
  }
}
