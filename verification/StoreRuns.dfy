/** Runs of the rendezvous store: any interleaving of calls and expiries. */
module StoreRuns {
  import opened Basics
  import opened Store
  import opened StoreInvariant

  datatype Event = Call(peer: PeerId, request: Request, now: int) | Expiry(now: int)

  function Step(check: RecordCheck, s: StoreView, e: Event): StoreView {
    match e
    case Call(peer, request, now) => Handled(check, s, peer, request, now)
    case Expiry(now) => Swept(s, now)
  }

  function After(check: RecordCheck, s: StoreView, run: seq<Event>): StoreView {
    if run == [] then s else Step(check, After(check, s, run[..|run| - 1]), run[|run| - 1])
  }

  function Initial(l: Limits): StoreView {
    StoreView(l, map[], map[], [], map[], 1, 1)
  }

  /** Shorter than the wrap of the registration and cookie counters. */
  predicate ShortRun(run: seq<Event>) {
    |run| < U64_END - 3
  }

  lemma StepCounts(check: RecordCheck, s: StoreView, e: Event)
    requires Invariant(s) && RoomToCount(s)
    ensures var t := Step(check, s, e);
            && Invariant(t) && t.limits == s.limits
            && s.nextRegistration <= t.nextRegistration <= s.nextRegistration + 1
            && s.nextCookie <= t.nextCookie <= s.nextCookie + 1
  {
    hide Invariant;
    match e
    case Call(peer, request, now) =>
      HandleKeepsInvariant(check, s, peer, request, now);
      HandleCounts(check, s, peer, request, now);
    case Expiry(now) => DropKeepsInvariant(s, ExpiredKeys(s, now));
  }

  lemma HandleCounts(check: RecordCheck, s: StoreView, peer: PeerId, r: Request, now: int)
    requires Invariant(s) && RoomToCount(s)
    ensures var t := Handled(check, s, peer, r, now);
            && t.limits == s.limits
            && s.nextRegistration <= t.nextRegistration <= s.nextRegistration + 1
            && s.nextCookie <= t.nextCookie <= s.nextCookie + 1
  {
    hide Invariant, AdmitRates, Evicted;
    AdmitKeepsInvariant(s, peer, OperationOf(r), now);
    var t := Admit(s, peer, OperationOf(r), now).0;
    EvictKeepsCookies(t);
    assert forall keys :: Dropped(t, keys).limits == t.limits;
  }

  /** In every reachable state the invariant holds. */
  lemma {:induction false} ReachableInvariant(check: RecordCheck, l: Limits, run: seq<Event>)
    requires ValidLimits(l) && ShortRun(run)
    ensures var s := After(check, Initial(l), run);
            && Invariant(s) && s.limits == l
            && 1 <= s.nextRegistration <= 1 + |run| && 1 <= s.nextCookie <= 1 + |run|
  {
    if run == [] {
      EmptyInvariant(l);
    } else {
      var n := |run| - 1;
      ReachableInvariant(check, l, run[..n]);
      StepCounts(check, After(check, Initial(l), run[..n]), run[n]);
    }
  }

  lemma EmptyInvariant(l: Limits)
    requires ValidLimits(l)
    ensures Invariant(Initial(l))
  {
    var s := Initial(l);
    assert forall peer :: PeerKeys(s.regs.Keys, peer) == {};
    assert forall ns :: NamespaceKeys(s.regs.Keys, ns) == {};
  }

  /** The store before the event at position `i`. */
  function StateAt(check: RecordCheck, l: Limits, run: seq<Event>, i: nat): StoreView
    requires i <= |run|
  {
    After(check, Initial(l), run[..i])
  }

  lemma StateAtInvariant(check: RecordCheck, l: Limits, run: seq<Event>, i: nat)
    requires ValidLimits(l) && ShortRun(run) && i <= |run|
    ensures var s := StateAt(check, l, run, i);
            && Invariant(s) && s.limits == l
            && (i < |run| ==> RoomToCount(s) && StateAt(check, l, run, i + 1) == Step(check, s, run[i]))
  {
    hide Invariant;
    ReachableInvariant(check, l, run[..i]);
    if i < |run| { assert run[..i + 1][..i] == run[..i]; }
  }

  predicate MonotoneClock(run: seq<Event>) {
    forall i, j :: 0 <= i <= j < |run| ==> run[i].now <= run[j].now
  }

  lemma {:induction false} EvictedFrame(s: StoreView)
    ensures Evicted(s).(cookies := s.cookies, order := s.order) == s
    decreases |s.order|
  {
    if |s.cookies| >= s.limits.cookies && s.order != [] {
      EvictedFrame(s.(cookies := s.cookies - {s.order[0]}, order := s.order[1..]));
    }
  }

  /** Nothing but admission touches the rates. */
  lemma StepRates(check: RecordCheck, s: StoreView, e: Event)
    ensures Step(check, s, e).limits == s.limits
    ensures Step(check, s, e).rates
            == if e.Call? then Admit(s, e.peer, OperationOf(e.request), e.now).0.rates else s.rates
  {
    hide AdmitRates, Evicted;
    if e.Call? { EvictedFrame(Admit(s, e.peer, OperationOf(e.request), e.now).0); }
  }

  lemma {:induction false} LimitsStay(check: RecordCheck, l: Limits, run: seq<Event>)
    ensures After(check, Initial(l), run).limits == l
  {
    if run != [] {
      LimitsStay(check, l, run[..|run| - 1]);
      StepRates(check, After(check, Initial(l), run[..|run| - 1]), run[|run| - 1]);
    }
  }
}
