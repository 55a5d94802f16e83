/**
 Fixed-window rate limiting, as seen by one key.

 Both the rendezvous store (per peer and operation class) and connection admission
 (per source address) keep a map of windows, create them on demand and evict them when
 they have run out.  `WindowStep` is what either of them does to one key in one call.
 */
module RateWindow {
  import opened Basics

  /** Instants and durations are counted in nanoseconds. */
  const SECOND := 1_000_000_000
  const WINDOW := 60 * SECOND

  datatype Window = Window(started: int, count: nat)

  /** `now.saturating_duration_since(started)` */
  function Elapsed(started: int, now: int): nat {
    if now < started then 0 else now - started
  }

  function Live(w: Option<Window>, now: int): Option<Window> {
    if w.Some? && Elapsed(w.value.started, now) < WINDOW then w else None
  }

  /**
   An admission counts one more in a live window below the rate, or opens a new window.
   A call that does not admit leaves the window alone, evicts it if it has run out, or
   opens a new empty one in its place.
   */
  predicate WindowStep(rate: nat, before: Option<Window>, after: Option<Window>, now: int, admitted: bool) {
    var live := Live(before, now);
    if admitted then
      if live.Some? then live.value.count < rate && after == Some(live.value.(count := live.value.count + 1))
      else rate > 0 && after == Some(Window(now, 1))
    else
      after == before || after == live || (live.None? && after == Some(Window(now, 0)))
  }

  /** One key over a run: the instant of each call, whether it admitted, and the windows between. */
  datatype Trace = Trace(times: seq<int>, admits: seq<bool>, windows: seq<Option<Window>>)

  ghost predicate ValidTrace(rate: nat, t: Trace) {
    && |t.admits| == |t.times| && |t.windows| == |t.times| + 1
    && t.windows[0].None?
    && (forall i, j :: 0 <= i <= j < |t.times| ==> t.times[i] <= t.times[j])
    && (forall i :: 0 <= i < |t.times| ==> WindowStep(rate, t.windows[i], t.windows[i + 1], t.times[i], t.admits[i]))
  }

  /** Admissions among the first `n` calls at instants in `[lo, hi)`. */
  function Admitted(t: Trace, n: nat, lo: int, hi: int): nat
    requires n <= |t.times| && |t.admits| == |t.times|
  {
    if n == 0 then 0
    else Admitted(t, n - 1, lo, hi) + if t.admits[n - 1] && lo <= t.times[n - 1] < hi then 1 else 0
  }

  lemma {:induction false} NothingBefore(t: Trace, n: nat, lo: int, hi: int)
    requires n <= |t.times| == |t.admits|
    requires forall i :: 0 <= i < n ==> t.times[i] < lo
    ensures Admitted(t, n, lo, hi) == 0
  {
    if n > 0 { NothingBefore(t, n - 1, lo, hi); }
  }

  /**
   The latest window `w` of the key after `n` calls, and what it says about the interval
   from `lo`: admissions since before `w` are confined to one earlier window, unless `w`
   starts past the interval.
   */
  predicate Summary(rate: nat, t: Trace, n: nat, lo: int, w: Window)
    requires n <= |t.times| == |t.admits| && |t.windows| == |t.times| + 1
  {
    var admitted := Admitted(t, n, lo, lo + WINDOW);
    && w.count <= rate
    && (t.windows[n].Some? ==> t.windows[n].value == w && (n < |t.times| ==> w.started <= t.times[n]))
    && (t.windows[n].None? && n < |t.times| ==> w.started + WINDOW <= t.times[n])
    && (w.started < lo ==> admitted <= w.count)
    && (lo <= w.started < lo + WINDOW ==> admitted <= rate + w.count)
    && admitted <= 2 * rate
  }

  lemma {:induction false} Summarize(rate: nat, t: Trace, n: nat, lo: int) returns (w: Window)
    requires ValidTrace(rate, t) && n <= |t.times|
    ensures Summary(rate, t, n, lo, w)
  {
    if n == 0 {
      w := Window(if t.times == [] then 0 else t.times[0] - WINDOW, 0);
    } else {
      var m := n - 1;
      var now := t.times[m];
      var v := Summarize(rate, t, m, lo);
      assert WindowStep(rate, t.windows[m], t.windows[n], now, t.admits[m]);
      if now < lo {
        NothingBefore(t, n, lo, lo + WINDOW);
      }
      w := if t.windows[n].Some? then t.windows[n].value else v;
    }
  }

  /** The calls that admitted at instants in `[lo, hi)`. */
  function AdmissionsIn(t: Trace, n: nat, lo: int, hi: int): set<nat>
    requires n <= |t.times| && |t.admits| == |t.times|
  {
    set i: nat | i < n && t.admits[i] && lo <= t.times[i] < hi
  }

  lemma {:induction false} AdmittedCounts(t: Trace, n: nat, lo: int, hi: int)
    requires n <= |t.times| && |t.admits| == |t.times|
    ensures |AdmissionsIn(t, n, lo, hi)| == Admitted(t, n, lo, hi)
  {
    if n > 0 {
      AdmittedCounts(t, n - 1, lo, hi);
      var fewer := AdmissionsIn(t, n - 1, lo, hi);
      var one := t.admits[n - 1] && lo <= t.times[n - 1] < hi;
      assert AdmissionsIn(t, n, lo, hi) == if one then fewer + {n - 1} else fewer;
    }
  }

  /** Whatever the calls and evictions, no interval of one window's length admits more than twice the rate. */
  lemma AtMostTwice(rate: nat, t: Trace, lo: int)
    requires ValidTrace(rate, t)
    ensures |AdmissionsIn(t, |t.times|, lo, lo + WINDOW)| <= 2 * rate
  {
    var w := Summarize(rate, t, |t.times|, lo);
    AdmittedCounts(t, |t.times|, lo, lo + WINDOW);
  }

  // ----------------------------------------------- windows opened by admissions

  /** A step that opens a window only to admit: a call that does not admit leaves or evicts. */
  predicate StrictStep(rate: nat, before: Option<Window>, after: Option<Window>, now: int, admitted: bool) {
    && WindowStep(rate, before, after, now, admitted)
    && (!admitted ==> after == before || after == Live(before, now))
  }

  ghost predicate StrictTrace(rate: nat, t: Trace) {
    && ValidTrace(rate, t)
    && (forall i :: 0 <= i < |t.times| ==>
          StrictStep(rate, t.windows[i], t.windows[i + 1], t.times[i], t.admits[i]))
  }

  /** As `Summary`; the admission that opened a window before `lo` is itself outside the interval. */
  predicate StrictSummary(rate: nat, t: Trace, n: nat, lo: int, w: Window)
    requires n <= |t.times| == |t.admits| && |t.windows| == |t.times| + 1
  {
    var admitted := Admitted(t, n, lo, lo + WINDOW);
    && w.count <= rate
    && (t.windows[n].Some? ==> t.windows[n].value == w && w.count > 0 && (n < |t.times| ==> w.started <= t.times[n]))
    && (t.windows[n].None? && n < |t.times| ==> w.started + WINDOW <= t.times[n])
    && (w.started < lo ==> admitted == 0 || admitted < w.count)
    && (lo <= w.started < lo + WINDOW ==> admitted <= rate - 1 + w.count)
    && admitted <= 2 * rate - 1
  }

  lemma {:induction false} StrictSummarize(rate: nat, t: Trace, n: nat, lo: int) returns (w: Window)
    requires rate > 0 && StrictTrace(rate, t) && n <= |t.times|
    ensures StrictSummary(rate, t, n, lo, w)
  {
    if n == 0 {
      w := Window(if t.times == [] then 0 else t.times[0] - WINDOW, 0);
    } else {
      var m := n - 1;
      var now := t.times[m];
      var v := StrictSummarize(rate, t, m, lo);
      assert StrictStep(rate, t.windows[m], t.windows[n], now, t.admits[m]);
      if now < lo {
        NothingBefore(t, n, lo, lo + WINDOW);
      }
      w := if t.windows[n].Some? then t.windows[n].value else v;
    }
  }

  /** Where windows are opened by admissions only, twice the rate is not reached. */
  lemma LessThanTwice(rate: nat, t: Trace, lo: int)
    requires rate > 0 && StrictTrace(rate, t)
    ensures |AdmissionsIn(t, |t.times|, lo, lo + WINDOW)| <= 2 * rate - 1
  {
    var w := StrictSummarize(rate, t, |t.times|, lo);
    AdmittedCounts(t, |t.times|, lo, lo + WINDOW);
  }

  // ------------------------------------------------------------ aligned intervals

  /** Where no window is live at an instant, nothing has been admitted at that instant. */
  lemma {:induction false} NothingAt(rate: nat, t: Trace, n: nat, lo: int)
    requires ValidTrace(rate, t) && n < |t.times| && t.times[n] == lo && Live(t.windows[n], lo).None?
    ensures Admitted(t, n, lo, lo + WINDOW) == 0
  {
    if n > 0 {
      var m := n - 1;
      assert WindowStep(rate, t.windows[m], t.windows[n], t.times[m], t.admits[m]);
      if t.times[m] < lo {
        NothingBefore(t, n, lo, lo + WINDOW);
      } else {
        NothingAt(rate, t, m, lo);
      }
    }
  }

  /** A window counts everything admitted since it was opened. */
  lemma {:induction false} WindowCounts(rate: nat, t: Trace, n: nat, lo: int)
    requires ValidTrace(rate, t) && n <= |t.times| && t.windows[n].Some? && t.windows[n].value.started == lo
    ensures Admitted(t, n, lo, lo + WINDOW) <= t.windows[n].value.count <= rate
  {
    var m := n - 1;
    assert WindowStep(rate, t.windows[m], t.windows[n], t.times[m], t.admits[m]);
    if t.windows[m].Some? && t.windows[m].value.started == lo {
      WindowCounts(rate, t, m, lo);
    } else {
      NothingAt(rate, t, m, lo);
    }
  }

  /** After its window from `lo`, a key is admitted again only past the end of that window. */
  predicate AlignedSummary(rate: nat, t: Trace, n: nat, lo: int)
    requires n <= |t.times| == |t.admits| && |t.windows| == |t.times| + 1
  {
    && Admitted(t, n, lo, lo + WINDOW) <= rate
    && (t.windows[n].Some? && t.windows[n].value.started != lo ==> lo + WINDOW <= t.windows[n].value.started)
    && (t.windows[n].None? || t.windows[n].value.started != lo ==> n < |t.times| ==> lo + WINDOW <= t.times[n])
  }

  lemma {:induction false} AlignedSummarize(rate: nat, t: Trace, m: nat, n: nat, lo: int)
    requires ValidTrace(rate, t) && m <= n <= |t.times| && t.windows[m].Some? && t.windows[m].value.started == lo
    ensures AlignedSummary(rate, t, n, lo)
  {
    if t.windows[n].Some? && t.windows[n].value.started == lo {
      WindowCounts(rate, t, n, lo);
    } else {
      var k := n - 1;
      AlignedSummarize(rate, t, m, k, lo);
      assert WindowStep(rate, t.windows[k], t.windows[n], t.times[k], t.admits[k]);
    }
  }

  /** The configured rate does bound every interval that starts with a window of the key. */
  lemma RateHoldsFromWindowStart(rate: nat, t: Trace, m: nat, lo: int)
    requires ValidTrace(rate, t) && m <= |t.times| && t.windows[m].Some? && t.windows[m].value.started == lo
    ensures |AdmissionsIn(t, |t.times|, lo, lo + WINDOW)| <= rate
  {
    AlignedSummarize(rate, t, m, |t.times|, lo);
    AdmittedCounts(t, |t.times|, lo, lo + WINDOW);
  }
}
