/** How long a cookie lives: exactly which events end it, and that it need not last until it is evicted. */
module CookieLife {
  import opened Basics
  import opened RateWindow
  import opened Store
  import opened StoreInvariant
  import opened StoreRuns
  import opened Pagination

  /** The ids an event takes out of the cookies. */
  function Removed(check: RecordCheck, s: StoreView, e: Event): set<nat> {
    match e
    case Expiry(now) => IdsOf(s.regs, ExpiredKeys(s, now))
    case Call(peer, r, now) =>
      if !Admit(s, peer, OperationOf(r), now).1 then {} else
      match r
      case Register(ns, record, ttl) =>
        if RegisterRefusal(check, s, peer, ns, record, Lifetime(s.limits, ttl)).None?
        then IdsOf(s.regs, {(peer, ns)}) else {}
      case Unregister(ns) => if ValidNamespace(ns) then IdsOf(s.regs, {(peer, ns)}) else {}
      case Discover(_, _, _) => {}
  }

  /** A page is served while the store is full, and the cookie is the oldest. */
  predicate IsEvicted(s: StoreView, e: Event, c: Bytes) {
    QueryOf(s, e).Some? && |s.order| >= s.limits.cookies && s.order != [] && s.order[0] == c
  }

  /** The cookie is not evicted, and if any registration goes, something it has seen is left. */
  predicate Survives(check: RecordCheck, s: StoreView, e: Event, c: Bytes) {
    && c in s.cookies
    && !IsEvicted(s, e, c)
    && (Removed(check, s, e) == {} || s.cookies[c].seen - Removed(check, s, e) != {})
  }

  // -------------------------------------------------------------------- one step

  lemma DropKeeps(s: StoreView, keys: set<Key>, c: Bytes)
    ensures var ids := IdsOf(s.regs, keys);
            c in Dropped(s, keys).cookies <==> c in s.cookies && (ids == {} || s.cookies[c].seen - ids != {})
  {
  }

  lemma StoredCookies(s: StoreView, key: Key, record: Bytes, ttl: nat, now: int)
    ensures Stored(s, key, record, ttl, now).cookies == Dropped(s, {key}).cookies
  {
    if key !in s.regs { assert IdsOf(s.regs, {key}) == {}; }
  }

  lemma WithdrawnCookies(s: StoreView, peer: PeerId, ns: string)
    requires ValidNamespace(ns)
    ensures Withdrawn(s, peer, ns).0.cookies == Dropped(s, {(peer, ns)}).cookies
  {
    if (peer, ns) !in s.regs { assert IdsOf(s.regs, {(peer, ns)}) == {}; }
  }

  lemma AnsweredCookies(s: StoreView, q: Query, c: Bytes, ns: string)
    requires Invariant(s) && RoomToCount(s) && Issued(s, c, ns)
    ensures c in Answered(s, q).cookies
            <==> c in s.cookies && !(|s.order| >= s.limits.cookies && s.order != [] && s.order[0] == c)
  {
    hide Invariant, Issued, CookieBytes, Delivers;
    EvictedOnce(s);
    hide Evicted;
    NewCookieIsFresh(s, q.namespace, c, ns);
    assert ValidLimits(s.limits) by { SomeCookies(s); }
  }

  lemma SomeCookies(s: StoreView)
    requires Invariant(s)
    ensures ValidLimits(s.limits)
  {
  }

  /** A cookie value once handed out is in the store after an event exactly if it survives it. */
  lemma HandleCookies(check: RecordCheck, s: StoreView, peer: PeerId, r: Request, now: int, c: Bytes, ns: string)
    requires Invariant(s) && RoomToCount(s) && Issued(s, c, ns)
    ensures c in Handled(check, s, peer, r, now).cookies <==> Survives(check, s, Call(peer, r, now), c)
  {
    hide Invariant, AdmitRates, Issued, Dropped, Stored, ValidNamespace, Full, IdsOf, Withdrawn, Answered;
    AdmitKeepsInvariant(s, peer, OperationOf(r), now);
    var (t, admitted) := Admit(s, peer, OperationOf(r), now);
    if admitted {
      match r
      case Register(name, record, ttl) =>
        StoredCookies(t, (peer, name), record, Lifetime(t.limits, ttl), now);
        DropKeeps(t, {(peer, name)}, c);
        SameRefusal(check, s, t, peer, name, record, Lifetime(t.limits, ttl));
      case Unregister(name) =>
        DropKeeps(t, {(peer, name)}, c);
        if ValidNamespace(name) { WithdrawnCookies(t, peer, name); } else { NotWithdrawn(t, peer, name); }
      case Discover(_, _, _) =>
        if Asked(t, r).Ok? {
          assert Issued(t, c, ns) by { SameIssued(s, t, c, ns); }
          AnsweredCookies(t, Asked(t, r).value, c, ns);
        }
    }
  }

  lemma NotWithdrawn(s: StoreView, peer: PeerId, ns: string)
    requires !ValidNamespace(ns)
    ensures Withdrawn(s, peer, ns).0 == s
  {
  }

  lemma SameIssued(s: StoreView, t: StoreView, c: Bytes, ns: string)
    requires Issued(s, c, ns) && t.nextCookie >= s.nextCookie
    ensures Issued(t, c, ns)
  {
    var n :| 1 <= n < s.nextCookie && c == CookieBytes(n, ns);
  }

  lemma SameRefusal(check: RecordCheck, s: StoreView, t: StoreView, peer: PeerId, ns: string, record: Bytes, ttl: nat)
    requires t.regs == s.regs && t.limits == s.limits
    ensures RegisterRefusal(check, t, peer, ns, record, ttl) == RegisterRefusal(check, s, peer, ns, record, ttl)
  {
  }

  lemma StepCookies(check: RecordCheck, s: StoreView, e: Event, c: Bytes, ns: string)
    requires Invariant(s) && RoomToCount(s) && Issued(s, c, ns)
    ensures c in Step(check, s, e).cookies <==> Survives(check, s, e, c)
    ensures Issued(Step(check, s, e), c, ns)
  {
    hide Invariant, Handled, Dropped, Issued;
    StepCounts(check, s, e);
    SameIssued(s, Step(check, s, e), c, ns);
    match e
    case Call(peer, request, now) => HandleCookies(check, s, peer, request, now, c, ns);
    case Expiry(now) => DropKeeps(s, ExpiredKeys(s, now), c);
  }

  // ------------------------------------------------------------------------ runs

  /** The cookie survives the event at position `j` of a run. */
  predicate SurvivesAt(check: RecordCheck, l: Limits, run: seq<Event>, j: nat, c: Bytes) {
    j < |run| && Survives(check, StateAt(check, l, run, j), run[j], c)
  }

  lemma {:induction false} CookieLivesExactly(check: RecordCheck, l: Limits, run: seq<Event>, i: nat, n: nat,
                                              c: Bytes, ns: string)
    requires ValidLimits(l) && ShortRun(run) && i <= n <= |run|
    requires var s := StateAt(check, l, run, i); c in s.cookies && s.cookies[c].namespace == ns
    ensures var t := StateAt(check, l, run, n);
            && Issued(t, c, ns)
            && (c in t.cookies <==> forall j :: i <= j < n ==> SurvivesAt(check, l, run, j, c))
  {
    hide Invariant, Step, StateAt, Survives, Issued;
    if n == i {
      StateAtInvariant(check, l, run, i);
      HeldIsIssued(StateAt(check, l, run, i), c);
    } else {
      var m := n - 1;
      CookieLivesExactly(check, l, run, i, m, c, ns);
      StateAtInvariant(check, l, run, m);
      StepCookies(check, StateAt(check, l, run, m), run[m], c, ns);
      assert c in StateAt(check, l, run, n).cookies <==> SurvivesAt(check, l, run, m, c);
      SurvivorsAreHeld(check, l, run, m, c);
    }
  }

  lemma HeldIsIssued(s: StoreView, c: Bytes)
    requires Invariant(s) && c in s.cookies
    ensures Issued(s, c, s.cookies[c].namespace)
  {
    assert CookieOk(s, c, s.cookies[c]);
  }

  lemma SurvivorsAreHeld(check: RecordCheck, l: Limits, run: seq<Event>, j: nat, c: Bytes)
    ensures SurvivesAt(check, l, run, j, c) ==> j < |run| && c in StateAt(check, l, run, j).cookies
  {
    hide StateAt;
  }

  // ----------------------------------------------------------------- an early end

  /** A peer nobody has heard of for a minute is admitted, whatever the rates. */
  lemma FirstOfTheMinute(l: Limits, rates: map<PeerId, RateState>, peer: PeerId, op: Operation, now: int)
    requires ValidLimits(l) && forall p :: p in rates ==> rates[p].started + WINDOW <= now
    ensures var (after, admitted) := AdmitRates(l, rates, peer, op, now);
            admitted && forall p :: p in after ==> after[p].started <= now
  {
    assert LiveRates(rates, now) == map[];
  }

  /** All windows were opened by then. */
  predicate Quiet(s: StoreView, now: int) {
    forall p :: p in s.rates ==> s.rates[p].started <= now
  }

  lemma DiscoverNothing(check: RecordCheck, l: Limits, peer: PeerId, ns: string) returns (t: StoreView)
    requires ValidLimits(l) && ValidNamespace(ns)
    ensures t == Step(check, Initial(l), Call(peer, Discover(Some(ns), None, None), 0)) && Quiet(t, 0)
    ensures var c := CookieBytes(1, ns);
            t == Initial(l).(rates := t.rates, cookies := map[c := Cookie(ns, {})], order := [c], nextCookie := 2)
  {
    FirstOfTheMinute(l, map[], peer, DiscoverOp, 0);
    hide AdmitRates, ValidNamespace, CookieBytes;
    t := Step(check, Initial(l), Call(peer, Discover(Some(ns), None, None), 0));
    var s := Admit(Initial(l), peer, DiscoverOp, 0).0;
    assert LiveIds(s.regs, ns) - {} == {};
    assert Evicted(s) == s;
    assert SetOf([]) == {};
  }

  lemma RegisterOne(check: RecordCheck, s: StoreView, peer: PeerId, ns: string, record: Bytes) returns (t: StoreView)
    requires ValidLimits(s.limits) && ValidNamespace(ns) && s.regs == map[] && s.nextRegistration == 1 && Quiet(s, 0)
    requires RecordStatus(check, s.limits, peer, record).None?
    ensures t == Step(check, s, Call(peer, Register(ns, record, None), WINDOW)) && Quiet(t, WINDOW)
    ensures (peer, ns) in t.regs && t.regs[(peer, ns)].id == 1
    ensures t == s.(rates := t.rates, regs := map[(peer, ns) := t.regs[(peer, ns)]], nextRegistration := 2)
  {
    FirstOfTheMinute(s.limits, s.rates, peer, RegisterOp, WINDOW);
    hide AdmitRates, ValidNamespace, RecordStatus;
    t := Step(check, s, Call(peer, Register(ns, record, None), WINDOW));
    assert PeerKeys({}, peer) == {} && NamespaceKeys({}, ns) == {};
    assert s.regs.Keys == {};
  }

  lemma WithdrawOne(check: RecordCheck, s: StoreView, peer: PeerId, ns: string, c: Bytes) returns (t: StoreView)
    requires ValidLimits(s.limits) && ValidNamespace(ns) && Quiet(s, WINDOW)
    requires (peer, ns) in s.regs && s.cookies.Keys == {c} && s.cookies[c].seen == {}
    ensures t == Step(check, s, Call(peer, Unregister(ns), 2 * WINDOW)) && Quiet(t, 2 * WINDOW)
    ensures t.cookies == map[] && t.limits == s.limits
  {
    FirstOfTheMinute(s.limits, s.rates, peer, UnregisterOp, 2 * WINDOW);
    hide AdmitRates, ValidNamespace;
    t := Step(check, s, Call(peer, Unregister(ns), 2 * WINDOW));
    assert s.regs[(peer, ns)].id in IdsOf(s.regs, {(peer, ns)});
  }

  /**
   A cookie lost before its time.  A client discovers in an empty namespace; another peer
   registers and withdraws, in whatever namespace; the client's cookie is then refused
   although the store holds fewer cookies than its cap, indeed none.
   */
  lemma CookieLostEarly(check: RecordCheck, l: Limits, client: PeerId, other: PeerId, ns: string, elsewhere: string,
                        record: Bytes)
    requires ValidLimits(l) && ValidNamespace(ns) && ValidNamespace(elsewhere)
    requires RecordStatus(check, l, other, record).None?
    ensures var run := [Call(client, Discover(Some(ns), None, None), 0),
                        Call(other, Register(elsewhere, record, None), WINDOW),
                        Call(other, Unregister(elsewhere), 2 * WINDOW)];
            var c, s := CookieBytes(1, ns), After(check, Initial(l), run);
            && c in StateAt(check, l, run, 1).cookies && |s.cookies| < l.cookies
            && Replies(check, s, client, Discover(Some(ns), Some(c), None), 3 * WINDOW,
                       Reply(Some(ToDiscover(Err(InvalidCookie))), Rejected))
  {
    hide Step, ValidNamespace, CookieBytes, AdmitRates, RecordStatus;
    var c := CookieBytes(1, ns);
    var first := Call(client, Discover(Some(ns), None, None), 0);
    var second := Call(other, Register(elsewhere, record, None), WINDOW);
    var third := Call(other, Unregister(elsewhere), 2 * WINDOW);
    var a := DiscoverNothing(check, l, client, ns);
    var b := RegisterOne(check, a, other, elsewhere, record);
    var s := WithdrawOne(check, b, other, elsewhere, c);
    var run := [first, second, third];
    assert run[..1] == [first] && run[..2] == [first, second] && run[..0] == [];
    assert [first][..0] == [] && [first, second][..1] == [first] && run[..|run| - 1] == [first, second];
    assert After(check, Initial(l), []) == Initial(l);
    assert After(check, Initial(l), [first]) == a;
    assert After(check, Initial(l), [first, second]) == b;
    assert After(check, Initial(l), run) == s;
    FirstOfTheMinute(l, s.rates, client, DiscoverOp, 3 * WINDOW);
  }

  // --------------------------------------------------------------- oldest first

  /** The number a cookie value begins with. */
  function NumberOf(c: Bytes): nat {
    if |c| < 8 then 0 else Value(256, c[..8])
  }

  lemma NumberIs(n: nat, ns: string)
    requires n < U64_END
    ensures NumberOf(CookieBytes(n, ns)) == n
  {
    assert CookieBytes(n, ns)[..8] == BigEndian(8, n);
    BytePowers();
    ValueOfDigits(256, 8, n);
  }

  /** The cookies in the order in which they were handed out. */
  predicate OldestFirst(order: seq<Bytes>) {
    forall i, j :: 0 <= i < j < |order| ==> NumberOf(order[i]) < NumberOf(order[j])
  }

  predicate AllBefore(order: seq<Bytes>, n: nat) {
    forall c :: c in order ==> NumberOf(c) < n
  }

  lemma {:induction false} RetainedOldestFirst(order: seq<Bytes>, keep: set<Bytes>)
    requires OldestFirst(order)
    ensures OldestFirst(Retained(order, keep))
  {
    hide NumberOf;
    if order != [] {
      var n := |order| - 1;
      var front := Retained(order[..n], keep);
      RetainedOldestFirst(order[..n], keep);
      RetainedKeeps(order[..n], keep);
      forall c | c in front ensures NumberOf(c) < NumberOf(order[n]) {
        assert c in order[..n];
        var i :| 0 <= i < n && order[i] == c;
      }
      assert forall i :: 0 <= i < |front| ==> front[i] in front;
    }
  }

  /** What a store keeps about its order: oldest first, and everything handed out before now. */
  ghost predicate InOrder(s: StoreView) {
    OldestFirst(s.order) && AllBefore(s.order, s.nextCookie)
  }

  lemma DropInOrder(s: StoreView, keys: set<Key>)
    requires InOrder(s)
    ensures InOrder(Dropped(s, keys))
  {
    hide NumberOf, IdsOf;
    var t := Dropped(s, keys);
    RetainedOldestFirst(s.order, t.cookies.Keys);
    RetainedKeeps(s.order, t.cookies.Keys);
  }

  lemma InsertInOrder(s: StoreView, ns: string, seen: set<nat>)
    requires Invariant(s) && RoomToCount(s) && InOrder(s)
    ensures InOrder(CookieInserted(s, ns, seen))
  {
    hide Invariant, NumberOf, CookieBytes;
    EvictedOnce(s);
    hide Evicted;
    NumberIs(s.nextCookie, ns);
    var t := Evicted(s);
    assert forall i :: 0 <= i < |t.order| ==> t.order[i] in s.order;
    assert forall c :: c in t.order ==> c in s.order;
  }

  lemma StepInOrder(check: RecordCheck, s: StoreView, e: Event)
    requires Invariant(s) && RoomToCount(s) && InOrder(s)
    ensures InOrder(Step(check, s, e))
  {
    hide Invariant, InOrder, AdmitRates, Dropped, ValidNamespace, Full, CookieInserted, LiveIds;
    match e
    case Expiry(now) => DropInOrder(s, ExpiredKeys(s, now));
    case Call(peer, r, now) =>
      AdmitKeepsInvariant(s, peer, OperationOf(r), now);
      var (t, admitted) := Admit(s, peer, OperationOf(r), now);
      SameOrder(s, t);
      if admitted {
        match r
        case Register(ns, record, ttl) =>
          DropInOrder(t, {(peer, ns)});
          var u := if (peer, ns) in t.regs then Dropped(t, {(peer, ns)}) else t;
          SameOrder(u, Stored(t, (peer, ns), record, Lifetime(t.limits, ttl), now));
        case Unregister(ns) => DropInOrder(t, {(peer, ns)});
        case Discover(_, _, _) =>
          if Asked(t, r).Ok? {
            var q := Asked(t, r).value;
            InsertInOrder(t, q.namespace, q.seen + SetOf(Delivers(t, q)));
          }
      }
  }

  lemma SameOrder(s: StoreView, t: StoreView)
    requires InOrder(s) && t.order == s.order && t.nextCookie == s.nextCookie
    ensures InOrder(t)
  {
  }

  /** In every reachable state the cookies are listed oldest first, so that eviction takes the oldest. */
  lemma {:induction false} OldestGoesFirst(check: RecordCheck, l: Limits, run: seq<Event>)
    requires ValidLimits(l) && ShortRun(run)
    ensures InOrder(After(check, Initial(l), run))
  {
    hide Invariant, Step;
    if run != [] {
      var n := |run| - 1;
      OldestGoesFirst(check, l, run[..n]);
      ReachableInvariant(check, l, run[..n]);
      StepInOrder(check, After(check, Initial(l), run[..n]), run[n]);
    }
  }
}
