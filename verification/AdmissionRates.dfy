/** The rate bound of connection admission, per source address, over every run. */
module AdmissionRates {
  import opened Basics
  import opened RateWindow
  import opened Addresses
  import opened Admission

  predicate AdmitsFrom(v: View, e: Event, ip: IpAddr) {
    e.Attempt? && SourceIp(e.address) == Some(ip) && Admitting(v, e.id, e.address, e.now).1
  }

  function BucketOf(v: View, ip: IpAddr): Option<Window> {
    if ip in v.rate then Some(v.rate[ip]) else None
  }

  /** What any event does to any address's bucket; a bucket is opened only to admit. */
  lemma StepBucket(v: View, e: Event, ip: IpAddr)
    ensures var before, after := BucketOf(v, ip), BucketOf(Step(v, e), ip);
            && WindowStep(v.attempts, before, after, e.now, AdmitsFrom(v, e, ip))
            && (v.attempts > 0 ==> StrictStep(v.attempts, before, after, e.now, AdmitsFrom(v, e, ip)))
  {
    hide CountOf;
  }

  function StateAt(v: View, run: seq<Event>, i: nat): View
    requires i <= |run|
  {
    After(v, run[..i])
  }

  predicate MonotoneClock(run: seq<Event>) {
    forall i, j :: 0 <= i <= j < |run| ==> run[i].now <= run[j].now
  }

  /** The positions in a run at which a connection from the address is admitted in `[lo, hi)`. */
  function AdmittedAt(v: View, run: seq<Event>, ip: IpAddr, lo: int, hi: int): set<nat> {
    set i: nat | i < |run| && IsAdmission(v, run, i, ip) && lo <= run[i].now < hi
  }

  predicate IsAdmission(v: View, run: seq<Event>, i: nat, ip: IpAddr)
    requires i < |run|
  {
    AdmitsFrom(StateAt(v, run, i), run[i], ip)
  }

  function AdmittedInMinute(v: View, run: seq<Event>, ip: IpAddr, lo: int): nat {
    |AdmittedAt(v, run, ip, lo, lo + WINDOW)|
  }

  function TraceOf(v: View, run: seq<Event>, ip: IpAddr): Trace {
    Trace(seq(|run|, i requires 0 <= i < |run| => run[i].now),
          seq(|run|, i requires 0 <= i < |run| => AdmitsFrom(StateAt(v, run, i), run[i], ip)),
          seq(|run| + 1, i requires 0 <= i <= |run| => BucketOf(StateAt(v, run, i), ip)))
  }

  lemma TraceStep(v: View, run: seq<Event>, i: nat, ip: IpAddr)
    requires i < |run| && v == Initial(v.perIp, v.attempts, v.maxRateIps)
    ensures var s, t := StateAt(v, run, i), StateAt(v, run, i + 1);
            && WindowStep(v.attempts, BucketOf(s, ip), BucketOf(t, ip), run[i].now, AdmitsFrom(s, run[i], ip))
            && (v.attempts > 0 ==>
                  StrictStep(v.attempts, BucketOf(s, ip), BucketOf(t, ip), run[i].now, AdmitsFrom(s, run[i], ip)))
  {
    hide Step, WindowStep, StrictStep, BucketOf, AdmitsFrom;
    assert run[..i + 1][..i] == run[..i];
    ReachableBounded(v.perIp, v.attempts, v.maxRateIps, run[..i]);
    StepBucket(StateAt(v, run, i), run[i], ip);
  }

  lemma TraceIsValid(v: View, run: seq<Event>, ip: IpAddr, lo: int)
    requires MonotoneClock(run) && v == Initial(v.perIp, v.attempts, v.maxRateIps)
    ensures var t := TraceOf(v, run, ip);
            && ValidTrace(v.attempts, t) && (v.attempts > 0 ==> StrictTrace(v.attempts, t))
            && |AdmissionsIn(t, |t.times|, lo, lo + WINDOW)| == AdmittedInMinute(v, run, ip, lo)
  {
    hide StateAt, WindowStep, StrictStep, AdmitsFrom;
    var t := TraceOf(v, run, ip);
    forall i | 0 <= i < |run|
      ensures && WindowStep(v.attempts, t.windows[i], t.windows[i + 1], t.times[i], t.admits[i])
              && (v.attempts > 0 ==>
                    StrictStep(v.attempts, t.windows[i], t.windows[i + 1], t.times[i], t.admits[i]))
    {
      TraceStep(v, run, i, ip);
    }
    assert t.windows[0].None? by { InitialBucket(v, run, ip); }
    assert AdmissionsIn(t, |t.times|, lo, lo + WINDOW) == AdmittedAt(v, run, ip, lo, lo + WINDOW);
  }

  lemma InitialBucket(v: View, run: seq<Event>, ip: IpAddr)
    requires v.rate == map[]
    ensures BucketOf(StateAt(v, run, 0), ip) == None
  {
  }

  /** The most that one minute can admit from one address. */
  function SharpBound(attempts: nat): nat {
    if attempts == 0 then 0 else 2 * attempts - 1
  }

  /**
   Under a monotone clock, whatever is evicted, any minute admits one less than twice the
   rate from an address: the admission that opened the earlier bucket is not in it.
   */
  lemma AddressRateBound(v: View, run: seq<Event>, ip: IpAddr, lo: int)
    requires MonotoneClock(run) && v == Initial(v.perIp, v.attempts, v.maxRateIps)
    ensures AdmittedInMinute(v, run, ip, lo) <= SharpBound(v.attempts)
  {
    hide ValidTrace, StrictTrace, TraceOf, AdmittedInMinute, AdmissionsIn;
    TraceIsValid(v, run, ip, lo);
    if v.attempts == 0 {
      AtMostTwice(v.attempts, TraceOf(v, run, ip), lo);
    } else {
      LessThanTwice(v.attempts, TraceOf(v, run, ip), lo);
    }
  }

  /** A minute that starts with a bucket of the address admits at most the rate. */
  lemma AddressRateFromBucketStart(v: View, run: seq<Event>, ip: IpAddr, m: nat, lo: int)
    requires MonotoneClock(run) && v == Initial(v.perIp, v.attempts, v.maxRateIps) && m <= |run|
    requires var w := BucketOf(StateAt(v, run, m), ip); w.Some? && w.value.started == lo
    ensures AdmittedInMinute(v, run, ip, lo) <= v.attempts
  {
    hide ValidTrace, StrictTrace, AdmittedInMinute, AdmissionsIn, StateAt, BucketOf, AdmitsFrom;
    TraceIsValid(v, run, ip, lo);
    RateHoldsFromWindowStart(v.attempts, TraceOf(v, run, ip), m, lo);
  }

  // ---------------------------------------------------------- the bound is reached

  function AddressOf(ip: IpAddr): Multiaddr {
    match ip
    case V4(bits) => [Ip4(bits)]
    case V6(high, low) => [Ip6(high, low)]
  }

  /** A connection that comes and goes. */
  function Visit(ip: IpAddr, now: int): seq<Event> {
    [Attempt(0, AddressOf(ip), now), Closed(0, now)]
  }

  /** Nothing held but one address's bucket. */
  function OnlyBucket(v: View, ip: IpAddr, w: Window): View {
    v.(rate := map[ip := w])
  }

  predicate Empty(v: View) {
    v == Initial(v.perIp, v.attempts, v.maxRateIps) && v.perIp > 0 && v.maxRateIps > 0
  }

  /** A visit that is admitted: counted in the live bucket, or in a new one. */
  lemma VisitStep(v: View, ip: IpAddr, before: View, now: int, after: Window)
    requires Empty(v) && (before == v || (ip in before.rate && before == OnlyBucket(v, ip, before.rate[ip])))
    requires var w := BucketFor(before.rate, ip, now); w.count < v.attempts && after == w.(count := w.count + 1)
    ensures var held := Step(before, Visit(ip, now)[0]);
            && AdmitsFrom(before, Visit(ip, now)[0], ip)
            && Step(held, Visit(ip, now)[1]) == OnlyBucket(v, ip, after)
  {
    hide CountOf, SourceIp, LiveBuckets, BucketFor;
    var none: map<ConnectionId, IpAddr> := map[];
    NobodyThere(ip);
    assert before.rate[ip := after] == map[ip := after];
    assert ip in before.rate || |before.rate| == 0;
    var held := v.(rate := map[ip := after], pending := none[0 := ip]);
    assert Admitting(before, 0, AddressOf(ip), now) == (held, true);
    VisitEnds(v, ip, held, after, now);
  }

  lemma NobodyThere(ip: IpAddr)
    ensures CountOf(map[], ip) == 0 && SourceIp(AddressOf(ip)) == Some(ip)
  {
    var none: map<ConnectionId, IpAddr> := map[];
    assert From(none, ip) == {};
  }

  lemma VisitEnds(v: View, ip: IpAddr, held: View, w: Window, now: int)
    requires Empty(v) && held == v.(rate := map[ip := w], pending := map[0 := ip])
    ensures Step(held, Closed(0, now)) == OnlyBucket(v, ip, w)
  {
    assert held.pending - {0} == map[] && held.established - {0} == map[];
  }

  lemma AdmittedMore(v: View, run: seq<Event>, e: Event, ip: IpAddr, lo: int)
    ensures AdmittedInMinute(v, run + [e], ip, lo)
         == AdmittedInMinute(v, run, ip, lo)
            + if AdmitsFrom(After(v, run), e, ip) && lo <= e.now < lo + WINDOW then 1 else 0
    ensures After(v, run + [e]) == Step(After(v, run), e)
  {
    hide AdmitsFrom, Step, IsAdmission;
    var more := run + [e];
    assert more[..|run|] == run;
    var before, after := AdmittedAt(v, run, ip, lo, lo + WINDOW), AdmittedAt(v, more, ip, lo, lo + WINDOW);
    forall i: nat | i < |run| ensures IsAdmission(v, more, i, ip) == IsAdmission(v, run, i, ip) {
      SameAdmission(v, run, e, i, ip);
    }
    LastAdmission(v, run, e, ip);
    hide After;
    assert forall i: nat :: i < |run| ==> (i in after <==> i in before);
    if IsAdmission(v, more, |run|, ip) && lo <= e.now < lo + WINDOW {
      assert after == before + {|run|};
    } else {
      assert after == before;
    }
  }

  lemma SameAdmission(v: View, run: seq<Event>, e: Event, i: nat, ip: IpAddr)
    requires i < |run|
    ensures IsAdmission(v, run + [e], i, ip) == IsAdmission(v, run, i, ip)
  {
    assert (run + [e])[..i] == run[..i];
  }

  lemma LastAdmission(v: View, run: seq<Event>, e: Event, ip: IpAddr)
    ensures IsAdmission(v, run + [e], |run|, ip) == AdmitsFrom(After(v, run), e, ip)
  {
    assert (run + [e])[..|run|] == run;
  }

  lemma VisitAdmitted(v: View, run: seq<Event>, ip: IpAddr, now: int, after: Window, lo: int)
    requires Empty(v)
    requires var before := After(v, run);
             && (before == v || (ip in before.rate && before == OnlyBucket(v, ip, before.rate[ip])))
             && var w := BucketFor(before.rate, ip, now); w.count < v.attempts && after == w.(count := w.count + 1)
    ensures After(v, run + Visit(ip, now)) == OnlyBucket(v, ip, after)
    ensures AdmittedInMinute(v, run + Visit(ip, now), ip, lo)
         == AdmittedInMinute(v, run, ip, lo) + if lo <= now < lo + WINDOW then 1 else 0
  {
    hide AdmittedInMinute, AdmitsFrom, Step, After, BucketFor;
    var visit := Visit(ip, now);
    VisitStep(v, ip, After(v, run), now, after);
    AdmittedMore(v, run, visit[0], ip, lo);
    AdmittedMore(v, run + [visit[0]], visit[1], ip, lo);
    assert run + visit == run + [visit[0]] + [visit[1]];
    ClosingAdmitsNothing(After(v, run + [visit[0]]), 0, now, ip);
  }

  lemma ClosingAdmitsNothing(v: View, id: ConnectionId, now: int, ip: IpAddr)
    ensures !AdmitsFrom(v, Closed(id, now), ip)
  {
  }

  function Visits(ip: IpAddr, now: int, n: nat): seq<Event> {
    if n == 0 then [] else Visits(ip, now, n - 1) + Visit(ip, now)
  }

  lemma {:induction false} VisitsAdmitted(v: View, front: seq<Event>, ip: IpAddr, w: Window, now: int, n: nat, lo: int)
    requires Empty(v) && After(v, front) == OnlyBucket(v, ip, w)
    requires Elapsed(w.started, now) < WINDOW && w.count + n <= v.attempts && lo <= now < lo + WINDOW
    ensures var run := front + Visits(ip, now, n);
            && After(v, run) == OnlyBucket(v, ip, w.(count := w.count + n))
            && AdmittedInMinute(v, run, ip, lo) == AdmittedInMinute(v, front, ip, lo) + n
  {
    hide AdmittedInMinute, AdmitsFrom, Step, After;
    if n == 0 {
      assert front + Visits(ip, now, n) == front;
    } else {
      VisitsAdmitted(v, front, ip, w, now, n - 1, lo);
      var shorter := front + Visits(ip, now, n - 1);
      VisitAdmitted(v, shorter, ip, now, w.(count := w.count + n), lo);
      assert front + Visits(ip, now, n) == shorter + Visit(ip, now);
    }
  }

  lemma {:induction false} VisitTimes(ip: IpAddr, now: int, n: nat)
    ensures forall i :: 0 <= i < |Visits(ip, now, n)| ==> Visits(ip, now, n)[i].now == now
  {
    if n > 0 { VisitTimes(ip, now, n - 1); }
  }

  lemma MonotoneJoin(a: seq<Event>, b: seq<Event>, now: int)
    requires MonotoneClock(a) && forall i :: 0 <= i < |a| ==> a[i].now <= now
    requires forall i :: 0 <= i < |b| ==> b[i].now == now
    ensures MonotoneClock(a + b) && forall i :: 0 <= i < |a + b| ==> (a + b)[i].now <= now
  {
  }

  /** One visit at the start, as many more as are left in the last second, and all again in the next window. */
  function SharpRun(ip: IpAddr, rest: nat): seq<Event> {
    Visit(ip, 0) + Visits(ip, WINDOW - SECOND, rest) + Visit(ip, WINDOW) + Visits(ip, WINDOW, rest)
  }

  lemma SharpRunIsMonotone(ip: IpAddr, rest: nat)
    ensures MonotoneClock(SharpRun(ip, rest))
  {
    hide MonotoneClock, Visits;
    var late := WINDOW - SECOND;
    VisitTimes(ip, late, rest);
    VisitTimes(ip, WINDOW, rest);
    assert MonotoneClock(Visit(ip, 0)) by { OneInstant(ip, 0); }
    MonotoneJoin(Visit(ip, 0), Visits(ip, late, rest), late);
    MonotoneJoin(Visit(ip, 0) + Visits(ip, late, rest), Visit(ip, WINDOW), WINDOW);
    MonotoneJoin(Visit(ip, 0) + Visits(ip, late, rest) + Visit(ip, WINDOW), Visits(ip, WINDOW, rest), WINDOW);
  }

  lemma OneInstant(ip: IpAddr, now: int)
    ensures MonotoneClock(Visit(ip, now))
  {
  }

  lemma SharpRunAdmits(v: View, ip: IpAddr, lo: int)
    requires Empty(v) && v.attempts > 0 && lo == WINDOW - SECOND
    ensures AdmittedInMinute(v, SharpRun(ip, v.attempts - 1), ip, lo) == 2 * v.attempts - 1
  {
    hide AdmittedInMinute, Visit, Visits, After;
    var rest := v.attempts - 1;
    var a := Visit(ip, 0);
    var b := a + Visits(ip, lo, rest);
    FirstVisit(v, ip, lo);
    VisitsAdmitted(v, a, ip, Window(0, 1), lo, rest, lo);
    assert BucketFor(map[ip := Window(0, v.attempts)], ip, WINDOW) == Window(WINDOW, 0);
    VisitAdmitted(v, b, ip, WINDOW, Window(WINDOW, 1), lo);
    VisitsAdmitted(v, b + Visit(ip, WINDOW), ip, Window(WINDOW, 1), WINDOW, rest, lo);
  }

  lemma FirstVisit(v: View, ip: IpAddr, lo: int)
    requires Empty(v) && v.attempts > 0 && lo > 0
    ensures After(v, Visit(ip, 0)) == OnlyBucket(v, ip, Window(0, 1))
    ensures AdmittedInMinute(v, Visit(ip, 0), ip, lo) == 0
  {
    hide AdmittedInMinute, Visit;
    NothingYet(v, ip, lo);
    VisitAdmitted(v, [], ip, 0, Window(0, 1), lo);
    assert [] + Visit(ip, 0) == Visit(ip, 0);
  }

  /** For every rate there is a run whose fullest minute admits exactly the sharp bound. */
  lemma SharpBoundIsReached(v: View, ip: IpAddr) returns (run: seq<Event>, lo: int)
    requires Empty(v)
    ensures MonotoneClock(run) && AdmittedInMinute(v, run, ip, lo) == SharpBound(v.attempts)
  {
    hide AdmittedInMinute, SharpRun;
    lo := WINDOW - SECOND;
    if v.attempts == 0 {
      run := [];
      NothingYet(v, ip, lo);
    } else {
      run := SharpRun(ip, v.attempts - 1);
      SharpRunIsMonotone(ip, v.attempts - 1);
      SharpRunAdmits(v, ip, lo);
    }
  }

  lemma NothingYet(v: View, ip: IpAddr, lo: int)
    ensures AdmittedInMinute(v, [], ip, lo) == 0
  {
    assert AdmittedAt(v, [], ip, lo, lo + WINDOW) == {};
  }

  /** The configured rate as a bound on every minute of every run. */
  ghost predicate RateIsBound(v: View) {
    forall run, ip, lo :: MonotoneClock(run) ==> AdmittedInMinute(v, run, ip, lo) <= v.attempts
  }

  /** The configured rate is itself a bound exactly if it is at most one attempt a minute. */
  lemma RateIsBoundExactly(v: View)
    requires Empty(v)
    ensures RateIsBound(v) <==> v.attempts <= 1
  {
    hide AdmittedInMinute;
    var run, lo := SharpBoundIsReached(v, V4(0));
    if v.attempts <= 1 {
      forall run, ip, lo | MonotoneClock(run) ensures AdmittedInMinute(v, run, ip, lo) <= v.attempts {
        AddressRateBound(v, run, ip, lo);
      }
    }
  }
}
