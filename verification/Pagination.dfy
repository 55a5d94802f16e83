/** Incremental discovery: a client that follows cookies misses nothing and repeats nothing. */
module Pagination {
  import opened Basics
  import opened Store
  import opened StoreInvariant
  import opened StoreRuns

  /**
   A client that has followed cookies in one namespace, has been delivered `d` with
   greatest id `m`, and now holds cookie `c`: the cookie, while it exists, has seen
   exactly what is still live of the delivery, and everything else live is newer.
   */
  ghost predicate Following(s: StoreView, ns: string, c: Bytes, d: set<nat>, m: nat) {
    && Caught(s, ns, d, m)
    && Issued(s, c, ns)
    && (c in s.cookies ==> s.cookies[c].namespace == ns && s.cookies[c].seen == d * LiveIds(s.regs, ns))
  }

  ghost predicate Caught(s: StoreView, ns: string, d: set<nat>, m: nat) {
    && (forall x :: x in d ==> x <= m) && m < s.nextRegistration
    && (forall x :: x in LiveIds(s.regs, ns) ==> x in d || m < x)
  }

  lemma LiveIdsDropped(regs: map<Key, Registration>, keys: set<Key>, ns: string)
    requires UniqueIds(regs)
    ensures LiveIds(regs - keys, ns) == LiveIds(regs, ns) - IdsOf(regs, keys)
  {
    forall x | x in LiveIds(regs - keys, ns) ensures x in LiveIds(regs, ns) && x !in IdsOf(regs, keys) {
      var k :| k in regs - keys && k.1 == ns && regs[k].id == x;
    }
    forall x | x in LiveIds(regs, ns) && x !in IdsOf(regs, keys) ensures x in LiveIds(regs - keys, ns) {
      var k :| k in regs && k.1 == ns && regs[k].id == x;
      assert k in regs - keys;
    }
  }

  lemma FollowDrop(s: StoreView, keys: set<Key>, ns: string, c: Bytes, d: set<nat>, m: nat)
    requires UniqueIds(s.regs) && Following(s, ns, c, d, m)
    ensures Following(Dropped(s, keys), ns, c, d, m)
  {
    hide CookieBytes, UniqueIds, LiveIds;
    var t, ids := Dropped(s, keys), IdsOf(s.regs, keys);
    LiveIdsDropped(s.regs, keys, ns);
    assert t.regs == s.regs - keys;
    assert Issued(t, c, ns);
    if c in t.cookies {
      assert t.cookies[c].seen == s.cookies[c].seen - ids;
      assert (d * LiveIds(s.regs, ns)) - ids == d * LiveIds(t.regs, ns);
    }
  }

  lemma IdsAreUnique(s: StoreView)
    requires Invariant(s)
    ensures UniqueIds(s.regs)
  {
  }

  lemma FollowAdd(t: StoreView, u: StoreView, key: Key, ns: string, c: Bytes, d: set<nat>, m: nat)
    requires Following(t, ns, c, d, m) && Added(t, u, key)
    ensures Following(u, ns, c, d, m)
  {
    hide CookieBytes;
    var new_ := u.regs[key].id;
    forall x ensures x in LiveIds(u.regs, ns) <==> x in LiveIds(t.regs, ns) || (key.1 == ns && x == new_) {
      if x in LiveIds(t.regs, ns) {
        var k :| k in t.regs && k.1 == ns && t.regs[k].id == x;
        assert u.regs[k].id == x;
      }
    }
    assert new_ !in d;
    assert d * LiveIds(u.regs, ns) == d * LiveIds(t.regs, ns);
  }

  lemma FollowStore(s: StoreView, key: Key, record: Bytes, ttl: nat, now: int, ns: string, c: Bytes, d: set<nat>,
                    m: nat)
    requires Invariant(s) && RoomToCount(s) && Following(s, ns, c, d, m)
    ensures Following(Stored(s, key, record, ttl, now), ns, c, d, m)
  {
    hide Invariant, Following, Dropped, UniqueIds;
    var t := if key in s.regs then Dropped(s, {key}) else s;
    IdsAreUnique(s);
    FollowDrop(s, {key}, ns, c, d, m);
    DropKeepsInvariant(s, {key});
    assert Added(t, Stored(s, key, record, ttl, now), key);
    FollowAdd(t, Stored(s, key, record, ttl, now), key, ns, c, d, m);
  }

  lemma FollowInsert(s: StoreView, other: string, seen: set<nat>, ns: string, c: Bytes, d: set<nat>, m: nat)
    requires Invariant(s) && RoomToCount(s) && Following(s, ns, c, d, m)
    ensures Following(CookieInserted(s, other, seen), ns, c, d, m)
  {
    hide Invariant, CookieBytes, Evicted, LiveIds;
    var t := CookieInserted(s, other, seen);
    EvictKeepsCookies(s);
    NewCookieIsFresh(s, other, c, ns);
    assert Issued(t, c, ns);
  }

  lemma FollowHandle(check: RecordCheck, s: StoreView, peer: PeerId, r: Request, now: int,
                     ns: string, c: Bytes, d: set<nat>, m: nat)
    requires Invariant(s) && RoomToCount(s) && Following(s, ns, c, d, m)
    ensures Following(Handled(check, s, peer, r, now), ns, c, d, m)
  {
    hide Invariant, AdmitRates, Stored, Dropped, CookieInserted;
    AdmitKeepsInvariant(s, peer, OperationOf(r), now);
    var (t, admitted) := Admit(s, peer, OperationOf(r), now);
    assert Following(t, ns, c, d, m) by { assert Issued(t, c, ns); }
    hide Following;
    if admitted {
      match r
      case Register(name, record, ttl) =>
        FollowStore(t, (peer, name), record, Lifetime(t.limits, ttl), now, ns, c, d, m);
      case Unregister(name) =>
        IdsAreUnique(t);
        FollowDrop(t, {(peer, name)}, ns, c, d, m);
      case Discover(_, _, _) =>
        if Asked(t, r).Ok? {
          var q := Asked(t, r).value;
          FollowInsert(t, q.namespace, q.seen + SetOf(Delivers(t, q)), ns, c, d, m);
        }
    }
  }

  lemma FollowStep(check: RecordCheck, s: StoreView, e: Event, ns: string, c: Bytes, d: set<nat>, m: nat)
    requires Invariant(s) && RoomToCount(s) && Following(s, ns, c, d, m)
    ensures Following(Step(check, s, e), ns, c, d, m)
  {
    hide Invariant, Following, Handled, Dropped;
    match e
    case Call(peer, request, now) => FollowHandle(check, s, peer, request, now, ns, c, d, m);
    case Expiry(now) =>
      IdsAreUnique(s);
      FollowDrop(s, ExpiredKeys(s, now), ns, c, d, m);
  }

  /** Whatever is interleaved, a follower keeps its place. */
  lemma {:induction false} FollowRun(check: RecordCheck, l: Limits, run: seq<Event>, i: nat, ns: string, c: Bytes,
                                     d: set<nat>, m: nat)
    requires ValidLimits(l) && ShortRun(run) && i <= |run|
    requires Following(After(check, Initial(l), run[..i]), ns, c, d, m)
    ensures Following(After(check, Initial(l), run), ns, c, d, m)
  {
    hide Invariant, Following, Step;
    if i == |run| {
      assert run[..i] == run;
    } else {
      var n := |run| - 1;
      assert run[..n][..i] == run[..i];
      FollowRun(check, l, run[..n], i, ns, c, d, m);
      ReachableInvariant(check, l, run[..n]);
      FollowStep(check, After(check, Initial(l), run[..n]), run[n], ns, c, d, m);
    }
  }

  function Greatest(ids: seq<nat>, m: nat): nat {
    if ids == [] then m else ids[|ids| - 1]
  }

  predicate Increasing(ids: seq<nat>) {
    forall i, j :: 0 <= i < j < |ids| ==> ids[i] < ids[j]
  }

  /** What `PageIsLeast` says, of any set of unseen ids. */
  ghost predicate LeastPage(ids: seq<nat>, unseen: set<nat>, requested: nat) {
    && SetOf(ids) <= unseen && Increasing(ids)
    && (forall x, y :: x in ids && y in unseen && y !in ids ==> x < y)
    && (|ids| < requested ==> SetOf(ids) == unseen)
  }

  lemma PageBounds(ids: seq<nat>, live: set<nat>, d: set<nat>, m: nat, requested: nat)
    requires LeastPage(ids, live - d * live, requested)
    requires forall x :: x in d ==> x <= m
    requires forall x :: x in live ==> x in d || m < x
    ensures forall x :: x in ids ==> m < x
    ensures forall x :: x in d + SetOf(ids) ==> x <= Greatest(ids, m)
    ensures Greatest(ids, m) == m || Greatest(ids, m) in live
    ensures forall x :: x in live ==> x in d + SetOf(ids) || Greatest(ids, m) < x
    ensures d * live + SetOf(ids) == (d + SetOf(ids)) * live
    ensures |ids| < requested ==> live <= d + SetOf(ids)
  {
    var greatest := Greatest(ids, m);
    forall x | x in ids ensures m < x && x in live && x !in d && x <= greatest {
      assert x in SetOf(ids);
      BelowGreatest(ids, m, x);
    }
    assert ids != [] ==> greatest in ids;
    forall x | x in live ensures x in d + SetOf(ids) || greatest < x {
      if x !in d && x !in ids && ids != [] { assert x in live - d * live; }
    }
    forall x ensures x in d * live + SetOf(ids) <==> x in (d + SetOf(ids)) * live {
      assert x in SetOf(ids) <==> x in ids;
    }
    if |ids| < requested {
      forall x | x in live ensures x in d + SetOf(ids) {
        if x !in d { assert x in live - d * live; }
      }
    }
  }

  lemma BelowGreatest(ids: seq<nat>, m: nat, x: nat)
    requires Increasing(ids) && x in ids
    ensures x <= Greatest(ids, m)
  {
    var i :| 0 <= i < |ids| && ids[i] == x;
  }

  lemma PageOf(s: StoreView, q: Query)
    ensures LeastPage(Delivers(s, q), LiveIds(s.regs, q.namespace) - q.seen, q.requested)
  {
    PageIsLeast(s, q);
  }

  /**
   Serving a caught-up client: everything on the page is newer than everything it has,
   it is caught up with the page, and a short page leaves nothing live undelivered.
   */
  lemma ServeExtends(s: StoreView, q: Query, d: set<nat>, m: nat)
    requires Invariant(s) && RoomToCount(s)
    requires Caught(s, q.namespace, d, m) && q.seen == d * LiveIds(s.regs, q.namespace)
    ensures var ids, t := Delivers(s, q), Answered(s, q);
            && (forall x :: x in ids ==> m < x)
            && Increasing(ids)
            && Following(t, q.namespace, CookieBytes(s.nextCookie, q.namespace), d + SetOf(ids), Greatest(ids, m))
            && t.regs == s.regs
            && (|ids| < q.requested ==> LiveIds(s.regs, q.namespace) <= d + SetOf(ids))
  {
    hide Invariant, Delivers, Answered, LiveIds, CookieBytes, Issued, RoomToCount;
    var ids, live := Delivers(s, q), LiveIds(s.regs, q.namespace);
    PageOf(s, q);
    PageBounds(ids, live, d, m, q.requested);
    IdsBelowNext(s, q.namespace);
    AnsweredFrame(s, q);
  }

  lemma IdsBelowNext(s: StoreView, ns: string)
    requires Invariant(s)
    ensures forall x :: x in LiveIds(s.regs, ns) ==> 1 <= x < s.nextRegistration
  {
    forall x | x in LiveIds(s.regs, ns) ensures 1 <= x < s.nextRegistration {
      var k :| k in s.regs && k.1 == ns && s.regs[k].id == x;
      assert RegistrationOk(s, k, s.regs[k]);
    }
  }

  lemma AnsweredFrame(s: StoreView, q: Query)
    requires Invariant(s) && RoomToCount(s)
    ensures var t, c := Answered(s, q), CookieBytes(s.nextCookie, q.namespace);
            && t.regs == s.regs && t.nextRegistration == s.nextRegistration
            && c in t.cookies && t.cookies[c] == Cookie(q.namespace, q.seen + SetOf(Delivers(s, q)))
            && Issued(t, c, q.namespace)
  {
    hide Invariant, Evicted, CookieBytes;
    EvictKeepsCookies(s);
  }

  function QueryOf(s: StoreView, e: Event): Option<Query> {
    if e.Call? then Serves(s, e.peer, e.request, e.now) else None
  }

  /** The same for the step of a run that serves the query. */
  lemma ServeStep(check: RecordCheck, s: StoreView, e: Event, q: Query, d: set<nat>, m: nat)
    requires Invariant(s) && RoomToCount(s) && QueryOf(s, e) == Some(q)
    requires Caught(s, q.namespace, d, m) && q.seen == d * LiveIds(s.regs, q.namespace)
    ensures var ids, t := Delivers(s, q), Step(check, s, e);
            && (forall x :: x in ids ==> m < x)
            && Increasing(ids)
            && Following(t, q.namespace, CookieBytes(s.nextCookie, q.namespace), d + SetOf(ids), Greatest(ids, m))
            && t.regs == s.regs
            && (|ids| < q.requested ==> LiveIds(s.regs, q.namespace) <= d + SetOf(ids))
  {
    hide Invariant, AdmitRates, CookieInserted, LiveIds, CookieBytes, Following, Asked;
    AdmitKeepsInvariant(s, e.peer, OperationOf(e.request), e.now);
    var t := Admit(s, e.peer, OperationOf(e.request), e.now).0;
    assert Step(check, s, e) == Answered(t, q);
    ServeExtends(t, q, d, m);
  }

  function QueryAt(check: RecordCheck, l: Limits, run: seq<Event>, i: nat): Option<Query>
    requires i < |run|
  {
    QueryOf(StateAt(check, l, run, i), run[i])
  }

  /** The registration ids on the page that the event at position `i` returns. */
  function PageAt(check: RecordCheck, l: Limits, run: seq<Event>, i: nat): seq<nat>
    requires i < |run|
  {
    var q := QueryAt(check, l, run, i);
    if q.Some? then Delivers(StateAt(check, l, run, i), q.value) else []
  }

  /** The cookie on that page. */
  function CookieAt(check: RecordCheck, l: Limits, run: seq<Event>, i: nat, ns: string): Bytes
    requires i < |run|
  {
    CookieBytes(StateAt(check, l, run, i).nextCookie, ns)
  }

  /** The event at position `i` presents the cookie and is served a page of the namespace. */
  predicate ServedAt(check: RecordCheck, l: Limits, run: seq<Event>, i: nat, ns: string, cookie: Option<Bytes>) {
    && i < |run| && QueryAt(check, l, run, i).Some? && QueryAt(check, l, run, i).value.namespace == ns
    && run[i].request.cookie == cookie
  }

  predicate InRun(run: seq<Event>, at: seq<nat>) {
    forall k :: 0 <= k < |at| ==> at[k] < |run|
  }

  /**
   The events at positions `at` are served in one namespace, the first without a cookie
   and each later one with the cookie of the page before it.
   */
  predicate Chain(check: RecordCheck, l: Limits, run: seq<Event>, ns: string, at: seq<nat>) {
    && InRun(run, at)
    && if at == [] then true else
    var n := |at| - 1;
    && Chain(check, l, run, ns, at[..n])
    && if n == 0 then ServedAt(check, l, run, at[n], ns, None)
       else at[n - 1] < at[n] && ServedAt(check, l, run, at[n], ns, Some(CookieAt(check, l, run, at[n - 1], ns)))
  }

  /** Everything the pages at these positions delivered, in order. */
  function Delivered(check: RecordCheck, l: Limits, run: seq<Event>, at: seq<nat>): seq<nat>
    requires InRun(run, at)
  {
    if at == [] then [] else
    var n := |at| - 1;
    Delivered(check, l, run, at[..n]) + PageAt(check, l, run, at[n])
  }

  /** A cookie that is accepted shows what the client has been delivered and is still live. */
  lemma CookieShows(s: StoreView, e: Event, q: Query, c: Bytes, d: set<nat>, m: nat)
    requires QueryOf(s, e) == Some(q) && e.request.cookie == Some(c) && Following(s, q.namespace, c, d, m)
    ensures q.seen == d * LiveIds(s.regs, q.namespace) && Caught(s, q.namespace, d, m)
  {
    hide AdmitRates, LiveIds, Issued;
  }

  lemma FreshClient(s: StoreView, e: Event, q: Query)
    requires Invariant(s) && RoomToCount(s) && QueryOf(s, e) == Some(q) && e.request.cookie == None
    ensures q.seen == {} && Caught(s, q.namespace, {}, 0)
  {
    IdsBelowNext(s, q.namespace);
    hide Invariant, AdmitRates, LiveIds;
  }

  lemma IncreasingJoin(a: seq<nat>, b: seq<nat>)
    requires Increasing(a) && Increasing(b) && forall x :: x in b ==> Greatest(a, 0) < x
    ensures Increasing(a + b) && SetOf(a + b) == SetOf(a) + SetOf(b)
    ensures Greatest(a + b, 0) == Greatest(b, Greatest(a, 0))
  {
    forall i, j | 0 <= i < j < |a + b| ensures (a + b)[i] < (a + b)[j] {
      if i < |a| <= j {
        assert b[j - |a|] in b;
        assert a[i] <= Greatest(a, 0);
      }
    }
  }

  /**
   Following each page's cookie, whatever is interleaved, delivers strictly increasing
   ids; a page shorter than requested means that everything live in the namespace has
   been delivered; and what is live and undelivered is newer than everything delivered.
   */
  lemma {:induction false} PagesMissNothing(check: RecordCheck, l: Limits, run: seq<Event>, ns: string, at: seq<nat>)
    requires ValidLimits(l) && ShortRun(run) && at != [] && Chain(check, l, run, ns, at)
    ensures var last, ids := at[|at| - 1], Delivered(check, l, run, at);
            var after := StateAt(check, l, run, last + 1);
            && Increasing(ids)
            && Following(after, ns, CookieAt(check, l, run, last, ns), SetOf(ids), Greatest(ids, 0))
            && (|PageAt(check, l, run, last)| < QueryAt(check, l, run, last).value.requested
                ==> LiveIds(after.regs, ns) <= SetOf(ids))
  {
    hide Invariant, Following, Caught, Delivers, Step, CookieBytes, QueryOf, LiveIds, After;
    var n := |at| - 1;
    var last, front := at[n], at[..n];
    var s, q := StateAt(check, l, run, last), QueryAt(check, l, run, last).value;
    StateAtInvariant(check, l, run, last);
    var before := Delivered(check, l, run, front);
    if n == 0 {
      FreshClient(s, run[last], q);
      assert SetOf(before) == {} && {} * LiveIds(s.regs, ns) == {};
    } else {
      PagesMissNothing(check, l, run, ns, front);
      var c := CookieAt(check, l, run, at[n - 1], ns);
      assert run[..last][..at[n - 1] + 1] == run[..at[n - 1] + 1];
      FollowRun(check, l, run[..last], at[n - 1] + 1, ns, c, SetOf(before), Greatest(before, 0));
      CookieShows(s, run[last], q, c, SetOf(before), Greatest(before, 0));
    }
    ServeStep(check, s, run[last], q, SetOf(before), Greatest(before, 0));
    IncreasingJoin(before, PageAt(check, l, run, last));
  }
}
