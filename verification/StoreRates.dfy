/** The rate bound of the rendezvous store, per peer and operation class, over every run. */
module StoreRates {
  import opened Basics
  import opened RateWindow
  import opened Store
  import opened StoreRuns

  /** Registering and withdrawing share one count; discovering has its own. */
  datatype Class = Registrations | Discoveries

  function ClassOf(op: Operation): Class {
    if op.DiscoverOp? then Discoveries else Registrations
  }

  function RateOf(l: Limits, class_: Class): nat {
    if class_.Discoveries? then l.discoverRate else l.registerRate
  }

  /** The window of one peer and class. */
  function WindowOf(rates: map<PeerId, RateState>, peer: PeerId, class_: Class): Option<Window> {
    if peer !in rates then None else
    var state := rates[peer];
    Some(Window(state.started, if class_.Discoveries? then state.discoveries else state.registrations))
  }

  /** Whether an event is an admitted operation of this peer and class. */
  predicate AdmitsFor(s: StoreView, e: Event, peer: PeerId, class_: Class) {
    && e.Call? && e.peer == peer && ClassOf(OperationOf(e.request)) == class_
    && Admit(s, peer, OperationOf(e.request), e.now).1
  }

  lemma AdmitStepsWindow(l: Limits, rates: map<PeerId, RateState>, caller: PeerId, op: Operation, now: int,
                         peer: PeerId, class_: Class)
    ensures var (after, admitted) := AdmitRates(l, rates, caller, op, now);
            WindowStep(RateOf(l, class_), WindowOf(rates, peer, class_), WindowOf(after, peer, class_), now,
                       admitted && caller == peer && ClassOf(op) == class_)
  {
    var live := LiveRates(rates, now);
    assert WindowOf(live, peer, class_) == Live(WindowOf(rates, peer, class_), now);
    if caller != peer {
      assert WindowOf(AdmitRates(l, rates, caller, op, now).0, peer, class_) == WindowOf(live, peer, class_);
    }
  }

  lemma StepWindow(check: RecordCheck, s: StoreView, e: Event, peer: PeerId, class_: Class)
    ensures WindowStep(RateOf(s.limits, class_), WindowOf(s.rates, peer, class_),
                       WindowOf(Step(check, s, e).rates, peer, class_), e.now, AdmitsFor(s, e, peer, class_))
  {
    hide AdmitRates, Step;
    StepRates(check, s, e);
    if e.Call? { AdmitStepsWindow(s.limits, s.rates, e.peer, OperationOf(e.request), e.now, peer, class_); }
  }

  /** The positions in a run at which an operation of the peer and class is admitted in `[lo, hi)`. */
  function AdmittedAt(check: RecordCheck, l: Limits, run: seq<Event>, peer: PeerId, class_: Class, lo: int,
                      hi: int): set<nat> {
    set i: nat | i < |run| && IsAdmission(check, l, run, i, peer, class_) && lo <= run[i].now < hi
  }

  predicate IsAdmission(check: RecordCheck, l: Limits, run: seq<Event>, i: nat, peer: PeerId, class_: Class)
    requires i < |run|
  {
    AdmitsFor(StateAt(check, l, run, i), run[i], peer, class_)
  }

  function TraceOf(check: RecordCheck, l: Limits, run: seq<Event>, peer: PeerId, class_: Class): Trace {
    Trace(seq(|run|, i requires 0 <= i < |run| => run[i].now),
          seq(|run|, i requires 0 <= i < |run| => AdmitsFor(StateAt(check, l, run, i), run[i], peer, class_)),
          seq(|run| + 1, i requires 0 <= i <= |run| => WindowOf(StateAt(check, l, run, i).rates, peer, class_)))
  }

  lemma TraceStep(check: RecordCheck, l: Limits, run: seq<Event>, i: nat, peer: PeerId, class_: Class)
    requires i < |run|
    ensures var s := StateAt(check, l, run, i);
            WindowStep(RateOf(l, class_), WindowOf(s.rates, peer, class_),
                       WindowOf(StateAt(check, l, run, i + 1).rates, peer, class_),
                       run[i].now, AdmitsFor(s, run[i], peer, class_))
  {
    hide Step, WindowStep, WindowOf, AdmitsFor;
    assert run[..i + 1][..i] == run[..i];
    LimitsStay(check, l, run[..i]);
    StepWindow(check, StateAt(check, l, run, i), run[i], peer, class_);
  }

  lemma TraceIsValid(check: RecordCheck, l: Limits, run: seq<Event>, peer: PeerId, class_: Class, lo: int)
    requires MonotoneClock(run)
    ensures var t := TraceOf(check, l, run, peer, class_);
            && ValidTrace(RateOf(l, class_), t)
            && AdmissionsIn(t, |t.times|, lo, lo + WINDOW) == AdmittedAt(check, l, run, peer, class_, lo, lo + WINDOW)
  {
    hide StateAt, WindowStep, WindowOf, AdmitsFor;
    var t := TraceOf(check, l, run, peer, class_);
    forall i | 0 <= i < |run|
      ensures WindowStep(RateOf(l, class_), t.windows[i], t.windows[i + 1], t.times[i], t.admits[i])
    {
      TraceStep(check, l, run, i, peer, class_);
    }
    InitialWindow(check, l, run, peer, class_);
  }

  /**
   Under a monotone clock, whatever the calls, the expiries and the windows evicted, a
   peer gets at most twice its rate in any minute.
   */
  lemma PeerRateBound(check: RecordCheck, l: Limits, run: seq<Event>, peer: PeerId, class_: Class, lo: int)
    requires MonotoneClock(run)
    ensures |AdmittedAt(check, l, run, peer, class_, lo, lo + WINDOW)| <= 2 * RateOf(l, class_)
  {
    hide AdmittedAt, ValidTrace, AdmissionsIn, TraceOf;
    TraceIsValid(check, l, run, peer, class_, lo);
    AtMostTwice(RateOf(l, class_), TraceOf(check, l, run, peer, class_), lo);
  }

  /** It gets at most its rate in a minute that starts with one of its windows. */
  lemma PeerRateFromWindowStart(check: RecordCheck, l: Limits, run: seq<Event>, peer: PeerId, class_: Class, m: nat,
                                lo: int)
    requires MonotoneClock(run) && m <= |run|
    requires var w := WindowOf(StateAt(check, l, run, m).rates, peer, class_); w.Some? && w.value.started == lo
    ensures |AdmittedAt(check, l, run, peer, class_, lo, lo + WINDOW)| <= RateOf(l, class_)
  {
    hide AdmittedAt, ValidTrace, AdmissionsIn, StateAt, WindowOf, AdmitsFor;
    TraceIsValid(check, l, run, peer, class_, lo);
    RateHoldsFromWindowStart(RateOf(l, class_), TraceOf(check, l, run, peer, class_), m, lo);
  }

  lemma InitialWindow(check: RecordCheck, l: Limits, run: seq<Event>, peer: PeerId, class_: Class)
    ensures WindowOf(StateAt(check, l, run, 0).rates, peer, class_) == None
  {
  }

  // -------------------------------------------------------- twice the rate, reached

  /** A request of the class that is counted and then refused, so that it changes nothing but the count. */
  function Filler(class_: Class): Request {
    if class_.Discoveries? then Discover(None, None, None) else Unregister("")
  }

  function OtherClass(class_: Class): Class {
    if class_.Discoveries? then Registrations else Discoveries
  }

  function CountIn(state: RateState, class_: Class): nat {
    if class_.Discoveries? then state.discoveries else state.registrations
  }

  function Bumped(state: RateState, class_: Class, n: nat): RateState {
    if class_.Discoveries? then state.(discoveries := state.discoveries + n)
    else state.(registrations := state.registrations + n)
  }

  /** A store that holds nothing but one peer's window. */
  function OnlyPeer(l: Limits, peer: PeerId, state: RateState): StoreView {
    Initial(l).(rates := map[peer := state])
  }

  lemma FillerStep(check: RecordCheck, l: Limits, peer: PeerId, state: RateState, class_: Class, now: int)
    requires Elapsed(state.started, now) < WINDOW && CountIn(state, class_) < RateOf(l, class_)
    ensures var s, e := OnlyPeer(l, peer, state), Call(peer, Filler(class_), now);
            Step(check, s, e) == OnlyPeer(l, peer, Bumped(state, class_, 1)) && AdmitsFor(s, e, peer, class_)
  {
    var rates := map[peer := state];
    assert LiveRates(rates, now) == rates;
    assert rates[peer := Bumped(state, class_, 1)] == map[peer := Bumped(state, class_, 1)];
    assert NAMESPACE_LENGTH != 0;
  }

  /** A filler when the window has run out: a new window, with the filler counted. */
  lemma FillerReopens(check: RecordCheck, l: Limits, peer: PeerId, state: RateState, class_: Class, now: int)
    requires Elapsed(state.started, now) >= WINDOW && l.ratePeers > 0 && RateOf(l, class_) > 0
    ensures var s, e := OnlyPeer(l, peer, state), Call(peer, Filler(class_), now);
            && Step(check, s, e) == OnlyPeer(l, peer, Bumped(RateState(now, 0, 0), class_, 1))
            && AdmitsFor(s, e, peer, class_)
  {
    assert LiveRates(map[peer := state], now) == map[];
    assert NAMESPACE_LENGTH != 0;
  }

  /** The first filler of the other class opens a window in which the class has no admission yet. */
  lemma OtherOpens(check: RecordCheck, l: Limits, peer: PeerId, class_: Class) returns (state: RateState)
    requires l.ratePeers > 0
    ensures state.started == 0 && CountIn(state, class_) == 0
    ensures Step(check, Initial(l), Call(peer, Filler(OtherClass(class_)), 0)) == OnlyPeer(l, peer, state)
    ensures !AdmitsFor(Initial(l), Call(peer, Filler(OtherClass(class_)), 0), peer, class_)
  {
    assert LiveRates(map[], 0) == map[];
    assert NAMESPACE_LENGTH != 0;
    var other, empty := OtherClass(class_), RateState(0, 0, 0);
    state := if RateOf(l, other) > 0 then Bumped(empty, other, 1) else empty;
  }

  lemma AdmittedMore(check: RecordCheck, l: Limits, run: seq<Event>, e: Event, peer: PeerId, class_: Class, lo: int,
                     hi: int)
    ensures var before := AdmittedAt(check, l, run, peer, class_, lo, hi);
            var after := AdmittedAt(check, l, run + [e], peer, class_, lo, hi);
            var one := AdmitsFor(After(check, Initial(l), run), e, peer, class_) && lo <= e.now < hi;
            |after| == |before| + if one then 1 else 0
    ensures After(check, Initial(l), run + [e]) == Step(check, After(check, Initial(l), run), e)
  {
    hide AdmitsFor, Step, IsAdmission;
    var more := run + [e];
    assert more[..|run|] == run;
    var before := AdmittedAt(check, l, run, peer, class_, lo, hi);
    var after := AdmittedAt(check, l, more, peer, class_, lo, hi);
    forall i: nat | i < |run|
      ensures IsAdmission(check, l, more, i, peer, class_) == IsAdmission(check, l, run, i, peer, class_)
    {
      SameAdmission(check, l, run, e, i, peer, class_);
    }
    LastAdmission(check, l, run, e, peer, class_);
    hide After;
    assert forall i: nat :: i < |run| ==> (i in after <==> i in before);
    if IsAdmission(check, l, more, |run|, peer, class_) && lo <= e.now < hi {
      assert after == before + {|run|};
    } else {
      assert after == before;
    }
  }

  lemma SameAdmission(check: RecordCheck, l: Limits, run: seq<Event>, e: Event, i: nat, peer: PeerId, class_: Class)
    requires i < |run|
    ensures IsAdmission(check, l, run + [e], i, peer, class_) == IsAdmission(check, l, run, i, peer, class_)
  {
    assert (run + [e])[..i] == run[..i];
  }

  lemma LastAdmission(check: RecordCheck, l: Limits, run: seq<Event>, e: Event, peer: PeerId, class_: Class)
    ensures IsAdmission(check, l, run + [e], |run|, peer, class_)
         == AdmitsFor(After(check, Initial(l), run), e, peer, class_)
  {
    assert (run + [e])[..|run|] == run;
  }

  function Repeat(e: Event, n: nat): seq<Event> {
    seq(n, i => e)
  }

  /** Fillers in a live window are admitted one after the other, up to the rate. */
  lemma {:induction false} FillersAdmitted(check: RecordCheck, l: Limits, front: seq<Event>, peer: PeerId,
                                           state: RateState,
                                           class_: Class, now: int, n: nat, lo: int)
    requires After(check, Initial(l), front) == OnlyPeer(l, peer, state)
    requires Elapsed(state.started, now) < WINDOW && CountIn(state, class_) + n <= RateOf(l, class_)
    requires lo <= now < lo + WINDOW
    ensures var run := front + Repeat(Call(peer, Filler(class_), now), n);
            && After(check, Initial(l), run) == OnlyPeer(l, peer, Bumped(state, class_, n))
            && |AdmittedAt(check, l, run, peer, class_, lo, lo + WINDOW)|
               == |AdmittedAt(check, l, front, peer, class_, lo, lo + WINDOW)| + n
  {
    hide AdmittedAt, AdmitsFor, Step, After;
    var e := Call(peer, Filler(class_), now);
    var run := front + Repeat(e, n);
    if n == 0 {
      assert run == front;
    } else {
      FillersAdmitted(check, l, front, peer, state, class_, now, n - 1, lo);
      var shorter := front + Repeat(e, n - 1);
      assert run == shorter + [e];
      AdmittedMore(check, l, shorter, e, peer, class_, lo, lo + WINDOW);
      FillerStep(check, l, peer, Bumped(state, class_, n - 1), class_, now);
    }
  }

  /**
   Twice the rate is reached: for every rate there is a run in which an operation of the
   other class opens the window, the rate is used up in its last second, and again in the
   first instant of the next window.
   */
  lemma TwiceIsReached(check: RecordCheck, l: Limits, peer: PeerId, class_: Class) returns (run: seq<Event>, lo: int)
    requires l.ratePeers > 0
    ensures MonotoneClock(run)
    ensures |AdmittedAt(check, l, run, peer, class_, lo, lo + WINDOW)| == 2 * RateOf(l, class_)
  {
    lo := WINDOW - SECOND;
    var rate := RateOf(l, class_);
    var first, again := Call(peer, Filler(OtherClass(class_)), 0), Call(peer, Filler(class_), WINDOW);
    hide AdmittedAt, AdmitsFor, Step;
    var state := OtherOpens(check, l, peer, class_);
    NothingYet(check, l, peer, class_, lo);
    AdmittedMore(check, l, [], first, peer, class_, lo, lo + WINDOW);
    assert [] + [first] == [first];
    run := [first];
    if rate > 0 {
      FillersAdmitted(check, l, run, peer, state, class_, lo, rate, lo);
      run := run + Repeat(Call(peer, Filler(class_), lo), rate);
      AdmittedMore(check, l, run, again, peer, class_, lo, lo + WINDOW);
      FillerReopens(check, l, peer, Bumped(state, class_, rate), class_, WINDOW);
      run := run + [again];
      FillersAdmitted(check, l, run, peer, Bumped(RateState(WINDOW, 0, 0), class_, 1), class_, WINDOW, rate - 1, lo);
      run := run + Repeat(again, rate - 1);
      assert forall i :: 0 <= i < |run| ==> run[i].now == if i == 0 then 0 else if i <= rate then lo else WINDOW;
    }
  }

  lemma NothingYet(check: RecordCheck, l: Limits, peer: PeerId, class_: Class, lo: int)
    ensures |AdmittedAt(check, l, [], peer, class_, lo, lo + WINDOW)| == 0
  {
    assert AdmittedAt(check, l, [], peer, class_, lo, lo + WINDOW) == {};
  }

  function AdmittedInMinute(check: RecordCheck, l: Limits, run: seq<Event>, peer: PeerId, class_: Class, lo: int): nat {
    |AdmittedAt(check, l, run, peer, class_, lo, lo + WINDOW)|
  }

  /** The configured rate as a bound on every minute of every run. */
  ghost predicate RateIsBound(check: RecordCheck, l: Limits, class_: Class) {
    forall run, peer, lo :: MonotoneClock(run) ==>
      AdmittedInMinute(check, l, run, peer, class_, lo) <= RateOf(l, class_)
  }

  /** A node that tracks any peer at all keeps the configured rate as a bound only if the rate is zero. */
  lemma RateIsBoundExactly(check: RecordCheck, l: Limits, class_: Class)
    requires l.ratePeers > 0
    ensures RateIsBound(check, l, class_) <==> RateOf(l, class_) == 0
  {
    hide AdmittedAt;
    var run, lo := TwiceIsReached(check, l, 0, class_);
    assert AdmittedInMinute(check, l, run, 0, class_, lo) == 2 * RateOf(l, class_);
    if RateOf(l, class_) == 0 {
      forall run, peer, lo | MonotoneClock(run) ensures AdmittedInMinute(check, l, run, peer, class_, lo) <= 0 {
        PeerRateBound(check, l, run, peer, class_, lo);
      }
    }
  }
}
