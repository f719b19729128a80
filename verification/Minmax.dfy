/** The windowed maximum filter that BBR's bandwidth estimate rests on. */
module Minmax {
  import opened Basics

  /** Unsigned 64-bit subtraction. */
  function Sub64(a: nat, b: nat): (d: nat)
    ensures b <= a < TWO64 ==> d == a - b
  {
    (a - b) % TWO64
  }

  datatype Measure = Measure(time: nat, value: nat)

  datatype MinMax = MinMax(window: nat, best: Measure, second: Measure, third: Measure)

  function Fresh(window: nat): (m: MinMax) {
    Reset(window, Measure(0, 0))
  }

  function Reset(window: nat, s: Measure): (m: MinMax) {
    MinMax(window, s, s, s)
  }

  function Shift(m: MinMax, s: Measure): (r: MinMax) {
    m.(best := m.second, second := m.third, third := s)
  }

  /** minmax_subwin_update. */
  function SubwinUpdate(m: MinMax, s: Measure): (r: MinMax) {
    var dt := Sub64(s.time, m.best.time);
    if dt > m.window then
      var r := Shift(m, s);
      if Sub64(s.time, r.best.time) > m.window then Shift(r, s) else r
    else if m.second.time == m.best.time && dt > m.window / 4 then
      m.(second := s, third := s)
    else if m.third.time == m.second.time && dt > m.window / 2 then
      m.(third := s)
    else m
  }

  /** lsquic_minmax_update_max. */
  function UpMax(m: MinMax, now: nat, meas: nat): (r: MinMax)
    ensures r.window == m.window
  {
    var s := Measure(now, meas);
    if m.best.value == 0 || meas >= m.best.value || Sub64(now, m.third.time) > m.window then
      Reset(m.window, s)
    else
      var r := if meas >= m.second.value then m.(second := s, third := s)
               else if meas >= m.third.value then m.(third := s)
               else m;
      SubwinUpdate(r, s)
  }

  // ---------------------------------------------------------------- runs

  function Run(window: nat, h: seq<Measure>): (m: MinMax) {
    if h == [] then Fresh(window)
    else UpMax(Run(window, h[..|h| - 1]), h[|h| - 1].time, h[|h| - 1].value)
  }

  ghost predicate InTime(h: seq<Measure>) {
    && (forall i :: 0 <= i < |h| ==> h[i].time < TWO64)
    && (forall i, j :: 0 <= i < j < |h| ==> h[i].time <= h[j].time)
  }

  /** `s` is the `i`-th measurement, and no later one exceeds it. */
  ghost predicate MaxSince(h: seq<Measure>, i: nat, s: Measure) {
    i < |h| && h[i] == s && forall j :: i <= j < |h| ==> h[j].value <= s.value
  }

  ghost predicate Choices(h: seq<Measure>, m: MinMax, i: nat, j: nat, k: nat) {
    i <= j <= k && MaxSince(h, i, m.best) && MaxSince(h, j, m.second) && MaxSince(h, k, m.third)
  }

  lemma Extends(h: seq<Measure>, s: Measure, i: nat, x: Measure)
    requires MaxSince(h, i, x) && s.value <= x.value
    ensures MaxSince(h + [s], i, x)
  {
  }

  /** One update keeps the three choices in order and maximal since they were taken. */
  lemma UpMaxKeepsChoices(h: seq<Measure>, m: MinMax, s: Measure, i: nat, j: nat, k: nat)
    returns (a: nat, b: nat, c: nat)
    requires InTime(h + [s]) && Choices(h, m, i, j, k)
    ensures var r := UpMax(m, s.time, s.value);
            Choices(h + [s], r, a, b, c) && s.time - r.best.time <= m.window
  {
    var g, n := h + [s], |h|;
    var r := UpMax(m, s.time, s.value);
    assert MaxSince(g, n, s);
    assert g[i] == h[i] && g[j] == h[j] && g[k] == h[k] && g[n] == s;
    if m.best.value == 0 || s.value >= m.best.value || Sub64(s.time, m.third.time) > m.window {
      a, b, c := n, n, n;
    } else {
      assert m.best.time <= m.second.time <= m.third.time <= s.time;
      Extends(h, s, i, m.best);
      var q := if s.value >= m.second.value then m.(second := s, third := s)
               else if s.value >= m.third.value then m.(third := s)
               else m;
      var qj, qk := if s.value >= m.second.value then n else j, if s.value >= m.third.value then n else k;
      assert Choices(g, q, i, qj, qk) by {
        if s.value < m.second.value { Extends(h, s, j, m.second); }
        if s.value < m.third.value { Extends(h, s, k, m.third); }
      }
      a, b, c := Subwin(g, q, s, i, qj, qk);
    }
  }

  lemma Subwin(g: seq<Measure>, m: MinMax, s: Measure, i: nat, j: nat, k: nat)
    returns (a: nat, b: nat, c: nat)
    requires InTime(g) && |g| > 0 && s == g[|g| - 1] && Choices(g, m, i, j, k)
    requires s.time - m.third.time <= m.window
    ensures var r := SubwinUpdate(m, s); Choices(g, r, a, b, c) && s.time - r.best.time <= m.window
  {
    var n := |g| - 1;
    assert MaxSince(g, n, s);
    var dt := Sub64(s.time, m.best.time);
    a, b, c := i, j, k;
    if dt > m.window {
      a, b, c := j, k, n;
      if Sub64(s.time, m.second.time) > m.window {
        a, b, c := k, n, n;
      }
    } else if m.second.time == m.best.time && dt > m.window / 4 {
      b, c := n, n;
    } else if m.third.time == m.second.time && dt > m.window / 2 {
      c := n;
    }
  }

  lemma FirstChoice(window: nat, s: Measure)
    ensures var m := UpMax(Fresh(window), s.time, s.value);
            m.window == window && m.best == s && Choices([s], m, 0, 0, 0)
  {
    assert MaxSince([s], 0, s);
  }

  lemma {:induction false} RunKeepsChoices(window: nat, h: seq<Measure>) returns (i: nat, j: nat, k: nat)
    requires h != [] && InTime(h)
    ensures var m := Run(window, h);
            m.window == window && Choices(h, m, i, j, k) && h[|h| - 1].time - m.best.time <= window
  {
    hide *;
    var pre, s := h[..|h| - 1], h[|h| - 1];
    RunStep(window, h);
    InTimePrefix(h);
    if pre == [] {
      i, j, k := 0, 0, 0;
      FirstChoice(window, s);
      EmptyRun(window);
    } else {
      i, j, k := RunKeepsChoices(window, pre);
      i, j, k := UpMaxKeepsChoices(pre, Run(window, pre), s, i, j, k);
    }
  }

  lemma EmptyRun(window: nat)
    ensures Run(window, []) == Fresh(window)
  {
  }

  lemma InTimePrefix(h: seq<Measure>)
    requires h != [] && InTime(h)
    ensures InTime(h[..|h| - 1]) && h == h[..|h| - 1] + [h[|h| - 1]]
  {
  }

  // ---------------------------------------------------------------- what makes it a maximum filter

  /** An update never leaves the estimate below the new measurement. */
  lemma UpMaxAtLeast(m: MinMax, now: nat, v: nat)
    ensures UpMax(m, now, v).best.value >= v
  {
  }

  ghost predicate TimesOrdered(m: MinMax, now: nat) {
    m.best.time <= m.second.time <= m.third.time <= now < TWO64
  }

  /** An update lowers the estimate only when it has outlived the window. */
  lemma UpMaxHolds(m: MinMax, now: nat, v: nat)
    requires TimesOrdered(m, now)
    ensures var r := UpMax(m, now, v);
            && TimesOrdered(r, now) && r.best.time >= m.best.time
            && (r.best.value >= m.best.value || now - m.best.time > m.window)
  {
  }

  ghost predicate ValuesOrdered(m: MinMax) {
    m.best.value >= m.second.value >= m.third.value
  }

  /** The choices of the filter and a new measurement. */
  function Candidates(m: MinMax, s: Measure): (c: set<Measure>) {
    {m.best, m.second, m.third, s}
  }

  /** After an update the estimate is the largest of the choices still within the window and the new
      measurement. */
  lemma UpMaxIsLargest(m: MinMax, now: nat, v: nat)
    requires TimesOrdered(m, now) && ValuesOrdered(m)
    ensures var s, r := Measure(now, v), UpMax(m, now, v);
            && r.best in Candidates(m, s) && now - r.best.time <= m.window
            && forall x :: x in Candidates(m, s) && now - x.time <= m.window ==> x.value <= r.best.value
  {
  }

  /** While the estimate lives, the other choices are spread over its window: past a quarter of it the
      second is a later measurement, past half of it the third is later still, or the second is new. */
  lemma UpMaxSpreads(m: MinMax, now: nat, v: nat)
    requires TimesOrdered(m, now) && now - m.best.time <= m.window && v < m.best.value
    ensures var r := UpMax(m, now, v);
            && r.best == m.best
            && (now - m.best.time > m.window / 4 ==> r.second.time > r.best.time)
            && (now - m.best.time > m.window / 2 ==> r.third.time > r.second.time || r.second.time == now)
  {
  }

  /** So it is in every run of the filter. */
  lemma EveryUpdateSpreads(window: nat, h: seq<Measure>, s: Measure)
    requires h != [] && InTime(h + [s])
    ensures var m, r := Run(window, h), Run(window, h + [s]);
            && r.best in Candidates(m, s) && s.time - r.best.time <= window
            && (forall x :: x in Candidates(m, s) && s.time - x.time <= window ==> x.value <= r.best.value)
            && (s.time - m.best.time <= window && s.value < m.best.value ==>
                  && (s.time - m.best.time > window / 4 ==> r.second.time > r.best.time)
                  && (s.time - m.best.time > window / 2 ==> r.third.time > r.second.time || r.second.time == s.time))
  {
    hide UpMax, Run;
    InTimePrefix(h + [s]);
    assert (h + [s])[..|h|] == h;
    RunStep(window, h + [s]);
    var i, j, k := RunKeepsChoices(window, h);
    var m := Run(window, h);
    assert TimesOrdered(m, s.time) by {
      assert (h + [s])[i] == h[i] && (h + [s])[j] == h[j] && (h + [s])[k] == h[k];
    }
    UpMaxIsLargest(m, s.time, s.value);
    if s.time - m.best.time <= window && s.value < m.best.value {
      UpMaxSpreads(m, s.time, s.value);
    }
  }

  lemma RunTimesOrdered(window: nat, h: seq<Measure>)
    requires h != [] && InTime(h)
    ensures TimesOrdered(Run(window, h), h[|h| - 1].time) && Run(window, h).window == window
  {
    hide Run;
    var i, j, k := RunKeepsChoices(window, h);
  }

  /** The measurement was not below the estimate when it was taken. */
  ghost predicate Peak(window: nat, h: seq<Measure>, i: nat) {
    i < |h| && Run(window, h[..i]).best.value <= h[i].value
  }

  /** A peak holds the estimate up for the whole window. */
  lemma {:induction false} PeakIsHeld(window: nat, h: seq<Measure>, i: nat)
    requires InTime(h) && Peak(window, h, i) && h[|h| - 1].time - h[i].time <= window
    ensures Run(window, h).best.value >= h[i].value && Run(window, h).best.time >= h[i].time
    decreases |h|
  {
    var pre, s := h[..|h| - 1], h[|h| - 1];
    if i < |pre| {
      assert h[..i] == pre[..i];
      PeakIsHeld(window, pre, i);
      RunTimesOrdered(window, pre);
      hide Run, UpMax;
      UpMaxHolds(Run(window, pre), s.time, s.value);
      RunStep(window, h);
    } else {
      assert h[..i] == pre;
    }
  }

  lemma RunStep(window: nat, h: seq<Measure>)
    requires h != []
    ensures Run(window, h) == UpMax(Run(window, h[..|h| - 1]), h[|h| - 1].time, h[|h| - 1].value)
  {
  }

  /**
   * What the estimate is: zero before the first measurement; then one of the
   * measurements, at most a window old, not below any that came since it, and not
   * below any peak of the last window.
   */
  lemma EstimateIsRecentMax(window: nat, h: seq<Measure>)
    requires InTime(h)
    ensures h == [] ==> Run(window, h).best.value == 0
    ensures h != [] ==> exists i: nat :: MaxSince(h, i, Run(window, h).best)
                                         && h[|h| - 1].time - h[i].time <= window
    ensures forall i: nat :: Peak(window, h, i) && h[|h| - 1].time - h[i].time <= window ==>
              Run(window, h).best.value >= h[i].value
  {
    if h != [] {
      var i, j, k := RunKeepsChoices(window, h);
      assert MaxSince(h, i, Run(window, h).best);
    }
    forall i: nat | Peak(window, h, i) && h[|h| - 1].time - h[i].time <= window
      ensures Run(window, h).best.value >= h[i].value
    {
      PeakIsHeld(window, h, i);
    }
  }
}
