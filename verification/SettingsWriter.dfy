/** Writing SETTINGS frames (section 6.5 of RFC 7540) to the buffer list. */
module SettingsWriter {
  import opened Basics
  import opened Http2
  import opened HeaderFraming
  import opened FrabList

  const SETTING_SIZE: nat := 6

  datatype Setting = Setting(id: nat, value: nat)

  function IdBytes(s: Setting): (bs: seq<byte>)
    ensures |bs| == 2
  {
    [LowByte(s.id / 0x100), LowByte(s.id)]
  }

  function ValueBytes(s: Setting): (bs: seq<byte>)
    ensures |bs| == 4
  {
    [LowByte(s.value / 0x100 / 0x100 / 0x100), LowByte(s.value / 0x100 / 0x100), LowByte(s.value / 0x100),
     LowByte(s.value)]
  }

  function SettingsBytes(ss: seq<Setting>): (bs: seq<byte>)
    ensures |bs| == SETTING_SIZE * |ss|
  {
    if ss == [] then [] else SettingsBytes(ss[..|ss| - 1]) + IdBytes(ss[|ss| - 1]) + ValueBytes(ss[|ss| - 1])
  }

  /** The settings a SETTINGS payload carries; None when it is not a whole number of them. */
  function ReadSettings(bs: seq<byte>): (ss: Option<seq<Setting>>)
    decreases |bs|
  {
    if bs == [] then Some([])
    else if |bs| < SETTING_SIZE then None
    else
      var at := |bs| - SETTING_SIZE;
      match ReadSettings(bs[..at])
      case None => None
      case Some(ss) =>
        var id := bs[at] as nat * 0x100 + bs[at + 1] as nat;
        var high := bs[at + 2] as nat * 0x100 + bs[at + 3] as nat;
        var value := (high * 0x100 + bs[at + 4] as nat) * 0x100 + bs[at + 5] as nat;
        Some(ss + [Setting(id, value)])
  }

  ghost predicate Fits(ss: seq<Setting>) {
    forall i :: 0 <= i < |ss| ==> ss[i].id < 0x1_0000 && ss[i].value < 0x1_0000_0000
  }

  lemma ValueParses(v: nat)
    requires v < 0x1_0000_0000
    ensures ((LowByte(v / 0x100 / 0x100 / 0x100) as nat * 0x100 + LowByte(v / 0x100 / 0x100) as nat) * 0x100
             + LowByte(v / 0x100) as nat) * 0x100 + LowByte(v) as nat == v
  {
  }

  lemma {:induction false} SettingsRoundTrip(ss: seq<Setting>)
    requires Fits(ss)
    ensures ReadSettings(SettingsBytes(ss)) == Some(ss)
    decreases |ss|
  {
    if ss != [] {
      var last, front := ss[|ss| - 1], ss[..|ss| - 1];
      SettingsRoundTrip(front);
      ReadLast(SettingsBytes(front), last);
      assert front + [last] == ss;
      hide ReadSettings, IdBytes, ValueBytes;
    }
  }

  /** One setting at the end is read off. */
  lemma ReadLast(bs: seq<byte>, s: Setting)
    requires s.id < 0x1_0000 && s.value < 0x1_0000_0000 && ReadSettings(bs).Some?
    ensures ReadSettings(bs + IdBytes(s) + ValueBytes(s)) == Some(ReadSettings(bs).value + [s])
  {
    ValueParses(s.value);
    IdParses(s.id);
    hide LowByte;
    var all := bs + IdBytes(s) + ValueBytes(s);
    assert all[..|all| - SETTING_SIZE] == bs;
    LastSix(bs, IdBytes(s), ValueBytes(s));
  }

  lemma LastSix(bs: seq<byte>, x: seq<byte>, y: seq<byte>)
    requires |x| == 2 && |y| == 4
    ensures var all := bs + x + y;
            && all[|bs|] == x[0] && all[|bs| + 1] == x[1]
            && all[|bs| + 2] == y[0] && all[|bs| + 3] == y[1] && all[|bs| + 4] == y[2] && all[|bs| + 5] == y[3]
  {
  }

  lemma IdParses(id: nat)
    requires id < 0x1_0000
    ensures LowByte(id / 0x100) as nat * 0x100 + LowByte(id) as nat == id
  {
  }

  lemma {:induction false} SettingsConcat(a: seq<Setting>, b: seq<Setting>)
    ensures SettingsBytes(a + b) == SettingsBytes(a) + SettingsBytes(b)
    decreases |b|
  {
    if b == [] {
      assert a + b == a;
    } else {
      SettingsConcat(a, b[..|b| - 1]);
      assert (a + b)[..|a + b| - 1] == a + b[..|b| - 1];
    }
  }

  /** Every setting is in its six bytes: two of the identifier and four of the value, high byte first. */
  lemma SettingsLayout(ss: seq<Setting>, i: nat)
    requires Fits(ss) && i < |ss|
    ensures var b, at := SettingsBytes(ss), SETTING_SIZE * i;
            && b[at] as nat * 0x100 + b[at + 1] as nat == ss[i].id
            && b[at + 2] as nat * 0x100_0000 + b[at + 3] as nat * 0x1_0000 + b[at + 4] as nat * 0x100
               + b[at + 5] as nat == ss[i].value
  {
    var s := ss[i];
    IdParses(s.id);
    ValueParses(s.value);
    SettingsConcat(ss[..i + 1], ss[i + 1..]);
    assert ss[..i + 1] + ss[i + 1..] == ss && ss[..i + 1][..i] == ss[..i];
    hide LowByte;
    LastSix(SettingsBytes(ss[..i]), IdBytes(s), ValueBytes(s));
    var first := SettingsBytes(ss[..i]) + IdBytes(s) + ValueBytes(s);
    assert SettingsBytes(ss[..i + 1]) == first;
    assert forall k :: 0 <= k < |first| ==> SettingsBytes(ss)[k] == first[k];
  }

  function SettingsFrame(ss: seq<Setting>): Frame {
    Frame(SETTINGS, NO_FLAGS, 0, SettingsBytes(ss))
  }

  lemma {:induction false} EncodeSnoc(fs: seq<Frame>, f: Frame)
    requires forall i :: 0 <= i < |fs| ==> |fs[i].payload| <= MAX_MAX_FRAME_SIZE
    requires |f.payload| <= MAX_MAX_FRAME_SIZE
    ensures EncodeAll(fs + [f]) == EncodeAll(fs) + Encode(f)
    decreases |fs|
  {
    hide Encode;
    if fs == [] {
      assert EncodeAll([f]) == Encode(f);
    } else {
      EncodeSnoc(fs[1..], f);
      assert (fs + [f])[1..] == fs[1..] + [f] && (fs + [f])[0] == fs[0];
      assert EncodeAll(fs + [f]) == Encode(fs[0]) + (EncodeAll(fs[1..]) + Encode(f));
    }
  }

  lemma {:induction false} PayloadsSnoc(fs: seq<Frame>, f: Frame)
    ensures Payloads(fs + [f]) == Payloads(fs) + f.payload
    decreases |fs|
  {
    if fs == [] {
      assert Payloads([f]) == f.payload;
    } else {
      PayloadsSnoc(fs[1..], f);
      assert (fs + [f])[1..] == fs[1..] + [f];
    }
  }

  /** SETTINGS frames of at most `max` bytes, each with a whole number of settings, that carry
      exactly `ss`. */
  ghost predicate AreSettings(fs: seq<Frame>, max: nat, ss: seq<Setting>) {
    && (forall i :: 0 <= i < |fs| ==>
          && fs[i].typ == SETTINGS && fs[i].flags == NO_FLAGS && fs[i].stream == 0
          && SETTING_SIZE <= |fs[i].payload| <= max && |fs[i].payload| % SETTING_SIZE == 0)
    && Payloads(fs) == SettingsBytes(ss)
  }

  /** As many settings as fit are in the frame. */
  predicate IsFull(f: Frame, max: nat) {
    |f.payload| == max / SETTING_SIZE * SETTING_SIZE
  }

  ghost predicate AllFull(fs: seq<Frame>, max: nat) {
    forall i :: 0 <= i < |fs| ==> IsFull(fs[i], max)
  }

  lemma AreSettingsSnoc(fs: seq<Frame>, max: nat, ss: seq<Setting>, more: seq<Setting>)
    requires AreSettings(fs, max, ss) && more != [] && SETTING_SIZE * |more| <= max
    ensures AreSettings(fs + [SettingsFrame(more)], max, ss + more)
  {
    PayloadsSnoc(fs, SettingsFrame(more));
    SettingsConcat(ss, more);
    hide SettingsBytes, Payloads;
  }

  /** write_settings: one frame. */
  method WriteFrame(list: Fral, ss: seq<Setting>)
    requires list.Valid() && ss != [] && SETTING_SIZE * |ss| <= MAX_MAX_FRAME_SIZE
    modifies list, list.frabs
    ensures list.Valid() && list.Text() == old(list.Text()) + Encode(SettingsFrame(ss))
    ensures forall i :: 0 <= i < |list.frabs| ==> list.frabs[i] in old(list.frabs) || fresh(list.frabs[i])
  {
    hide Fral.Valid, Fral.Text, Contents, Extends, Header, IdBytes, ValueBytes;
    ghost var before := list.Text();
    var h := Header(|ss| * SETTING_SIZE, SETTINGS, NO_FLAGS, 0);
    list.Write(h);
    ghost var text := before + h;
    for i := 0 to |ss|
      invariant list.Valid() && list.Text() == text + SettingsBytes(ss[..i])
      invariant forall j :: 0 <= j < |list.frabs| ==> list.frabs[j] in old(list.frabs) || fresh(list.frabs[j])
    {
      list.Write(IdBytes(ss[i]));
      list.Write(ValueBytes(ss[i]));
      SettingsSnoc(text, ss, i);
    }
    assert ss[..|ss|] == ss;
    assert before + h + SettingsBytes(ss) == before + (h + SettingsBytes(ss));
  }

  lemma SettingsSnoc(text: seq<byte>, ss: seq<Setting>, i: nat)
    requires i < |ss|
    ensures text + SettingsBytes(ss[..i]) + IdBytes(ss[i]) + ValueBytes(ss[i]) == text + SettingsBytes(ss[..i + 1])
  {
    hide IdBytes, ValueBytes;
    assert ss[..i + 1][..i] == ss[..i];
  }

  /** `text` is `before` and then the frames `fs`, which carry the first `n` settings. */
  ghost predicate Written(text: seq<byte>, before: seq<byte>, fs: seq<Frame>, max: nat, ss: seq<Setting>) {
    && (forall i :: 0 <= i < |fs| ==> |fs[i].payload| <= MAX_MAX_FRAME_SIZE)
    && text == before + EncodeAll(fs)
    && AreSettings(fs, max, ss)
  }

  lemma WrittenNothing(before: seq<byte>, max: nat)
    ensures Written(before, before, [], max, [])
  {
    assert before + EncodeAll([]) == before;
  }

  lemma WrittenMore(text: seq<byte>, before: seq<byte>, fs: seq<Frame>, max: nat, ss: seq<Setting>, n: nat, m: nat)
    requires n < m <= |ss| && SETTING_SIZE * (m - n) <= max <= MAX_MAX_FRAME_SIZE
    requires Written(text, before, fs, max, ss[..n])
    ensures Written(text + Encode(SettingsFrame(ss[n..m])), before, fs + [SettingsFrame(ss[n..m])], max, ss[..m])
  {
    var some := ss[n..m];
    EncodeSnoc(fs, SettingsFrame(some));
    AreSettingsSnoc(fs, max, ss[..n], some);
    assert ss[..n] + some == ss[..m];
    hide Encode, EncodeAll, AreSettings, SettingsBytes, SettingsFrame;
    Reassociate(before, EncodeAll(fs), Encode(SettingsFrame(some)));
  }

  lemma WrittenParses(text: seq<byte>, before: seq<byte>, fs: seq<Frame>, max: nat, ss: seq<Setting>)
    requires Written(text, before, fs, max, ss)
    ensures before <= text && Parse(text[|before|..]) == Some(fs)
  {
    hide Parse, EncodeAll, Payloads, SettingsBytes;
    ParseInvertsEncode(fs);
    assert ReceivedAll(fs) == fs;
    hide ReceivedAll, Received, AreSettings;
    assert text[|before|..] == EncodeAll(fs);
  }

  /** lsquic_frame_writer_write_settings, up to the flush: none is an error, otherwise as many
      settings to a frame as fit. */
  method WriteSettings(list: Fral, max: nat, ss: seq<Setting>) returns (ok: bool)
    requires list.Valid() && SETTING_SIZE <= max <= MAX_MAX_FRAME_SIZE
    modifies list, list.frabs
    ensures list.Valid() && ok == (ss != [])
    ensures old(list.Text()) <= list.Text()
    ensures var added := list.Text()[|old(list.Text())|..];
            Parse(added).Some? && AreSettings(Parse(added).value, max, ss)
    ensures var fs := Parse(list.Text()[|old(list.Text())|..]).value; fs != [] ==> AllFull(fs[..|fs| - 1], max)
  {
    hide Fral.Valid, Fral.Text, Written, Parse, Encode;
    ghost var before := list.Text();
    ghost var fs: seq<Frame> := [];
    WrittenNothing(before, max);
    WrittenParses(before, before, fs, max, []);
    if ss == [] {
      NoSettings(max);
      return false;
    }
    var per := max / SETTING_SIZE;
    var n := 0;
    assert ss[..0] == [];
    while n < |ss|
      invariant n <= |ss| && list.Valid() && 1 <= per && SETTING_SIZE * per <= max
      invariant Written(list.Text(), before, fs, max, ss[..n])
      invariant n < |ss| ==> per == max / SETTING_SIZE && AllFull(fs, max)
      invariant fs != [] ==> AllFull(fs[..|fs| - 1], max)
      invariant forall j :: 0 <= j < |list.frabs| ==> list.frabs[j] in old(list.frabs) || fresh(list.frabs[j])
      decreases |ss| - n
    {
      if per > |ss| - n {
        per := |ss| - n;
      }
      WrittenMore(list.Text(), before, fs, max, ss, n, n + per);
      WriteFrame(list, ss[n..n + per]);
      assert (fs + [SettingsFrame(ss[n..n + per])])[..|fs|] == fs;
      fs := fs + [SettingsFrame(ss[n..n + per])];
      n := n + per;
    }
    assert ss[..n] == ss;
    WrittenParses(list.Text(), before, fs, max, ss);
    WrittenAreSettings(list.Text(), before, fs, max, ss);
    return true;
  }

  lemma WrittenAreSettings(text: seq<byte>, before: seq<byte>, fs: seq<Frame>, max: nat, ss: seq<Setting>)
    requires Written(text, before, fs, max, ss)
    ensures AreSettings(fs, max, ss)
  {
  }

  lemma NoSettings(max: nat)
    ensures AreSettings([], max, [])
  {
  }
}
