/** Where the entries of discovery pages come from, and how requests are answered. */
module Provenance {
  import opened Basics
  import opened RateWindow
  import opened Store
  import opened StoreInvariant
  import opened StoreRuns
  import opened Pagination

  // ----------------------------------------------------------------------- answers

  /** An event is a registration of the key that passes every check. */
  predicate Accepts(check: RecordCheck, s: StoreView, e: Event, key: Key) {
    && e.Call? && e.request.Register? && (e.peer, e.request.namespace) == key
    && Admit(s, e.peer, RegisterOp, e.now).1
    && RegisterRefusal(check, s, e.peer, key.1, e.request.record, Lifetime(s.limits, e.request.ttl)).None?
  }

  /** An event is an admitted withdrawal of the key. */
  predicate Withdraws(s: StoreView, e: Event, key: Key) {
    && e.Call? && e.request.Unregister? && (e.peer, e.request.namespace) == key
    && Admit(s, e.peer, UnregisterOp, e.now).1
  }

  /** The answers to a registration that passes rate admission, in the order of the checks. */
  lemma RegisterAnswers(check: RecordCheck, s: StoreView, peer: PeerId, r: Request, now: int, reply: Reply)
    requires r.Register? && Admit(s, peer, RegisterOp, now).1 && Replies(check, s, peer, r, now, reply)
    ensures var ttl := if r.ttl.Some? then r.ttl.value else s.limits.maxTtl;
            var refused := check(peer, r.record);
            var fresh_ := (peer, r.namespace) !in s.regs;
            reply.response == Some(ToRegister(
              if !ValidNamespace(r.namespace) then Err(InvalidNamespace)
              else if ttl < s.limits.minTtl || ttl > s.limits.maxTtl then Err(InvalidTtl)
              else if |r.record| > s.limits.recordBytes then Err(InvalidSignedPeerRecord)
              else if refused.Some? then Err(refused.value)
              else if fresh_ && Full(s, peer, r.namespace) then Err(Unavailable)
              else Ok(ttl)))
    ensures reply.response.value.ttl.Err? ==> Handled(check, s, peer, r, now).(rates := s.rates) == s
    ensures reply.response.value.ttl.Ok? <==> Accepts(check, s, Call(peer, r, now), (peer, r.namespace))
  {
    hide AdmitRates, ValidNamespace, Dropped;
  }

  /** What an operation over its rate is told, and that it changes nothing but the windows. */
  lemma RateAnswers(check: RecordCheck, s: StoreView, peer: PeerId, r: Request, now: int, reply: Reply)
    requires !Admit(s, peer, OperationOf(r), now).1 && Replies(check, s, peer, r, now, reply)
    ensures reply.notice == Rejected && Handled(check, s, peer, r, now).(rates := s.rates) == s
    ensures r.Register? ==> reply.response == Some(ToRegister(Err(Unavailable)))
    ensures r.Unregister? ==> reply.response == None
    ensures r.Discover? ==> reply.response == Some(ToDiscover(Err(Unavailable)))
  {
    hide AdmitRates;
  }

  /** When a discover request that passes rate admission is refused, and how long a page may be. */
  lemma DiscoverAnswers(check: RecordCheck, s: StoreView, peer: PeerId, r: Request, now: int, reply: Reply)
    requires r.Discover? && Admit(s, peer, DiscoverOp, now).1 && Replies(check, s, peer, r, now, reply)
    ensures var named := r.wanted.Some? && ValidNamespace(r.wanted.value);
            var known := && r.cookie.Some? && r.cookie.value in s.cookies
                         && r.wanted.Some? && s.cookies[r.cookie.value].namespace == r.wanted.value;
            && (reply.response == Some(ToDiscover(Err(InvalidNamespace))) <==> !named)
            && (reply.response == Some(ToDiscover(Err(InvalidCookie))) <==> named && r.cookie.Some? && !known)
            && (reply.notice.Served? <==> named && (r.cookie.None? || known))
    ensures reply.notice.Served? ==>
              && reply.response.Some? && reply.response.value.ToDiscover? && reply.response.value.page.Ok?
              && var n := |reply.response.value.page.value.registrations|;
                 n <= s.limits.results && (r.limit.Some? ==> n <= r.limit.value) && reply.notice == Served(n)
  {
    hide AdmitRates, ValidNamespace, LiveIds, Sorted, CookieBytes;
    var t := Admit(s, peer, DiscoverOp, now).0;
    if Asked(t, r).Ok? { PageIsLeast(t, Asked(t, r).value); }
  }

  // ------------------------------------------------------------------ one key's fate

  function ExpiryOf(l: Limits, e: Event): int {
    if e.Call? && e.request.Register? then e.now + Lifetime(l, e.request.ttl) * SECOND else e.now
  }

  lemma DroppedKey(s: StoreView, keys: set<Key>, key: Key)
    ensures key in Dropped(s, keys).regs <==> key in s.regs && key !in keys
    ensures key in Dropped(s, keys).regs ==> Dropped(s, keys).regs[key] == s.regs[key]
  {
  }

  /** What one event does to one key: exactly these register it, end it, or leave it alone. */
  lemma StepKey(check: RecordCheck, s: StoreView, e: Event, key: Key)
    ensures var t := Step(check, s, e);
            if Accepts(check, s, e, key) then
              && key in t.regs && t.regs[key].record == e.request.record
              && t.regs[key].ttl == Lifetime(s.limits, e.request.ttl) && t.regs[key].expiresAt == ExpiryOf(s.limits, e)
            else
              var ends := || (Withdraws(s, e, key) && ValidNamespace(key.1))
                          || (e.Expiry? && key in s.regs && s.regs[key].expiresAt <= e.now);
              && (key in t.regs <==> key in s.regs && !ends)
              && (key in t.regs ==> t.regs[key] == s.regs[key])
  {
    hide AdmitRates, ValidNamespace, Dropped, Full, Evicted, RecordStatus;
    match e
    case Expiry(now) => DroppedKey(s, ExpiredKeys(s, now), key);
    case Call(peer, r, now) =>
      var t := Admit(s, peer, OperationOf(r), now).0;
      EvictedFrame(t);
      match r
      case Register(ns, record, ttl) =>
        DroppedKey(t, {(peer, ns)}, key);
        SameFull(s, t, peer, ns);
      case Unregister(ns) => DroppedKey(t, {(peer, ns)}, key);
      case Discover(_, _, _) =>
  }

  lemma SameFull(s: StoreView, t: StoreView, peer: PeerId, ns: string)
    requires t.regs == s.regs && t.limits == s.limits
    ensures Full(t, peer, ns) == Full(s, peer, ns)
  {
  }

  // --------------------------------------------------------------------- provenance

  /** The event at `j` ends what was registered at `i`. */
  predicate EndsIt(check: RecordCheck, l: Limits, run: seq<Event>, i: nat, j: nat, key: Key) {
    && i < |run| && j < |run|
    && var s := StateAt(check, l, run, j);
    || Accepts(check, s, run[j], key)
    || (Withdraws(s, run[j], key) && ValidNamespace(key.1))
    || (run[j].Expiry? && ExpiryOf(l, run[i]) <= run[j].now)
  }

  /** The key was registered at position `i`, and up to `n` nothing has replaced, withdrawn or expired it. */
  ghost predicate Origin(check: RecordCheck, l: Limits, run: seq<Event>, i: nat, n: nat, key: Key)
    requires n <= |run|
  {
    && i < n && Accepts(check, StateAt(check, l, run, i), run[i], key)
    && forall j :: i < j < n ==> !EndsIt(check, l, run, i, j, key)
  }

  lemma StepAt(check: RecordCheck, l: Limits, run: seq<Event>, n: nat)
    requires n < |run|
    ensures StateAt(check, l, run, n + 1) == Step(check, StateAt(check, l, run, n), run[n])
    ensures StateAt(check, l, run, n).limits == l
  {
    assert run[..n + 1][..n] == run[..n];
    LimitsStay(check, l, run[..n]);
  }

  /** The registration is the one made at position `i`, as far as anyone can see. */
  predicate MadeAt(l: Limits, e: Event, reg: Registration) {
    && e.Call? && e.request.Register? && reg.record == e.request.record
    && reg.ttl == Lifetime(l, e.request.ttl) && reg.expiresAt == ExpiryOf(l, e)
  }

  /**
   What is in the store, over every run: a key is listed exactly if it was registered and
   nothing has ended that since, and it is listed with what was registered.
   */
  lemma {:induction false} ListedExactly(check: RecordCheck, l: Limits, run: seq<Event>, n: nat, key: Key)
    requires n <= |run|
    ensures key in StateAt(check, l, run, n).regs <==> exists i: nat :: Origin(check, l, run, i, n, key)
    ensures forall i: nat :: Origin(check, l, run, i, n, key) ==>
              key in StateAt(check, l, run, n).regs && MadeAt(l, run[i], StateAt(check, l, run, n).regs[key])
  {
    hide Step, StateAt, Accepts, Withdraws, ValidNamespace;
    if n == 0 {
      NothingListed(check, l, run, key);
    } else {
      var m := n - 1;
      ListedExactly(check, l, run, m, key);
      StepAt(check, l, run, m);
      StepKey(check, StateAt(check, l, run, m), run[m], key);
      if Accepts(check, StateAt(check, l, run, m), run[m], key) {
        AcceptsRegister(check, StateAt(check, l, run, m), run[m], key);
        OriginNow(check, l, run, m, n, key);
      } else {
        OriginStep(check, l, run, m, key);
        EndsExactly(check, l, run, m, key);
        if i: nat :| Origin(check, l, run, i, m, key) && key in StateAt(check, l, run, n).regs {
          assert Origin(check, l, run, i, n, key);
        }
        if i: nat :| Origin(check, l, run, i, n, key) {
          assert Origin(check, l, run, i, m, key);
        }
      }
    }
  }

  /** Registering a key makes this its only origin. */
  lemma OriginNow(check: RecordCheck, l: Limits, run: seq<Event>, m: nat, n: nat, key: Key)
    requires n == m + 1 <= |run| && Accepts(check, StateAt(check, l, run, m), run[m], key)
    ensures Origin(check, l, run, m, n, key)
    ensures forall i: nat :: Origin(check, l, run, i, n, key) ==> i == m
  {
    hide StateAt, Accepts, Withdraws, ValidNamespace;
    forall i: nat | i < m ensures !Origin(check, l, run, i, n, key) {
      assert EndsIt(check, l, run, i, m, key);
    }
  }

  /** An event that does not register the key ends an origin exactly if the key is listed no more. */
  lemma EndsExactly(check: RecordCheck, l: Limits, run: seq<Event>, m: nat, key: Key)
    requires m < |run| && !Accepts(check, StateAt(check, l, run, m), run[m], key)
    requires forall i: nat :: Origin(check, l, run, i, m, key) ==>
               key in StateAt(check, l, run, m).regs && MadeAt(l, run[i], StateAt(check, l, run, m).regs[key])
    ensures forall i: nat :: Origin(check, l, run, i, m, key) ==>
              (EndsIt(check, l, run, i, m, key) <==> key !in StateAt(check, l, run, m + 1).regs)
  {
    hide Step, StateAt, Accepts, Withdraws, ValidNamespace, Origin;
    StepAt(check, l, run, m);
    StepKey(check, StateAt(check, l, run, m), run[m], key);
    forall i: nat | Origin(check, l, run, i, m, key)
      ensures EndsIt(check, l, run, i, m, key) <==> key !in StateAt(check, l, run, m + 1).regs
    {
      OriginBefore(check, l, run, i, m, key);
    }
  }

  lemma OriginBefore(check: RecordCheck, l: Limits, run: seq<Event>, i: nat, n: nat, key: Key)
    requires n <= |run| && Origin(check, l, run, i, n, key)
    ensures i < n
  {
  }

  lemma AcceptsRegister(check: RecordCheck, s: StoreView, e: Event, key: Key)
    requires Accepts(check, s, e, key)
    ensures e.Call? && e.request.Register?
  {
  }

  lemma NothingListed(check: RecordCheck, l: Limits, run: seq<Event>, key: Key)
    ensures key !in StateAt(check, l, run, 0).regs
  {
  }

  /** An event that does not register the key keeps exactly the origins it does not end. */
  lemma OriginStep(check: RecordCheck, l: Limits, run: seq<Event>, m: nat, key: Key)
    requires m < |run| && !Accepts(check, StateAt(check, l, run, m), run[m], key)
    ensures forall i: nat :: Origin(check, l, run, i, m + 1, key)
              <==> Origin(check, l, run, i, m, key) && !EndsIt(check, l, run, i, m, key)
  {
    hide StateAt, Accepts, EndsIt;
  }

  // -------------------------------------------------------------------------- pages

  /** The entry of a page that names what the event registered. */
  predicate Carries(l: Limits, e: Event, w: WireRegistration) {
    && e.Call? && e.request.Register?
    && w.namespace == e.request.namespace && w.record == e.request.record && w.ttl == Lifetime(l, e.request.ttl)
  }

  /** What an entry shows is one registration of the store, field by field. */
  lemma ShownFields(s: StoreView, id: nat, w: WireRegistration) returns (key: Key)
    requires Shows(s, id, w)
    ensures key in s.regs && s.regs[key].id == id
    ensures w.namespace == key.1 && w.record == s.regs[key].record && w.ttl == s.regs[key].ttl
  {
    key :| key in s.regs && s.regs[key].id == id && w == OnWire(key, s.regs[key]);
  }

  /** The page of a reply to a discover request that is served. */
  lemma ServedPage(check: RecordCheck, s: StoreView, peer: PeerId, r: Request, now: int, reply: Reply, page: Page)
    requires r.Discover? && Replies(check, s, peer, r, now, reply) && reply.response == Some(ToDiscover(Ok(page)))
    ensures Serves(s, peer, r, now).Some? && r.wanted == Some(Serves(s, peer, r, now).value.namespace)
    ensures PageShows(s, Delivers(s, Serves(s, peer, r, now).value), page.registrations)
  {
    hide AdmitRates, PageIds, ValidNamespace, CookieBytes;
    var t := Admit(s, peer, DiscoverOp, now).0;
    var q := Asked(t, r).value;
    assert PageShows(t, Delivers(t, q), page.registrations);
    SameDelivers(s, t, q);
    forall i | 0 <= i < |page.registrations| ensures Shows(s, Delivers(s, q)[i], page.registrations[i]) {
      assert Shows(t, Delivers(t, q)[i], page.registrations[i]);
      SameShows(s, t, Delivers(t, q)[i], page.registrations[i]);
    }
  }

  lemma SameDelivers(s: StoreView, t: StoreView, q: Query)
    requires s.regs == t.regs
    ensures Delivers(s, q) == Delivers(t, q)
  {
  }

  lemma SameShows(s: StoreView, t: StoreView, id: nat, w: WireRegistration)
    requires s.regs == t.regs && Shows(t, id, w)
    ensures Shows(s, id, w)
  {
    var k :| k in t.regs && t.regs[k].id == id && w == OnWire(k, t.regs[k]);
    assert k in s.regs;
  }

  /**
   Nothing on a page is made up.  After every run, each entry of each page carries the
   namespace asked for and the record and lifetime of an earlier registration that was
   accepted and has since been neither replaced nor withdrawn nor swept.
   */
  lemma PageIsGenuine(check: RecordCheck, l: Limits, run: seq<Event>, peer: PeerId, r: Request, now: int,
                      reply: Reply, page: Page, idx: nat)
    requires ValidLimits(l) && ShortRun(run) && r.Discover?
    requires Replies(check, StateAt(check, l, run, |run|), peer, r, now, reply)
    requires reply.response == Some(ToDiscover(Ok(page))) && idx < |page.registrations|
    ensures r.wanted == Some(page.registrations[idx].namespace)
    ensures exists i: nat, key :: Origin(check, l, run, i, |run|, key) && Carries(l, run[i], page.registrations[idx])
  {
    hide Replies, Serves, PageIds, LiveIds, StateAt, Invariant, Accepts, Step;
    var s := StateAt(check, l, run, |run|);
    ServedPage(check, s, peer, r, now, reply, page);
    var q := Serves(s, peer, r, now).value;
    var id := Delivers(s, q)[idx];
    var key := ShownFields(s, id, page.registrations[idx]);
    StateAtInvariant(check, l, run, |run|);
    IdsAreUnique(s);
    DeliveredKey(s, q, idx, key);
    ListedExactly(check, l, run, |run|, key);
    var i: nat :| Origin(check, l, run, i, |run|, key);
    AcceptsKey(check, StateAt(check, l, run, i), run[i], key);
  }

  lemma AcceptsKey(check: RecordCheck, s: StoreView, e: Event, key: Key)
    requires Accepts(check, s, e, key)
    ensures e.Call? && e.request.Register? && key == (e.peer, e.request.namespace)
  {
  }

  lemma DeliveredKey(s: StoreView, q: Query, idx: nat, key: Key)
    requires UniqueIds(s.regs) && idx < |Delivers(s, q)| && key in s.regs && s.regs[key].id == Delivers(s, q)[idx]
    ensures key.1 == q.namespace
  {
    PageIsLeast(s, q);
    assert Delivers(s, q)[idx] in SetOf(Delivers(s, q));
    var k :| k in s.regs && k.1 == q.namespace && s.regs[k].id == Delivers(s, q)[idx];
  }

  /**
   Nothing due on a page is missing or altered.  A registration that is still listed and
   whose id the page delivers is on it with exactly its namespace, record and lifetime.
   */
  lemma PageIsComplete(check: RecordCheck, l: Limits, run: seq<Event>, peer: PeerId, r: Request, now: int,
                       reply: Reply, page: Page, i: nat, key: Key)
    requires ValidLimits(l) && ShortRun(run) && r.Discover?
    requires Replies(check, StateAt(check, l, run, |run|), peer, r, now, reply)
    requires reply.response == Some(ToDiscover(Ok(page)))
    requires Origin(check, l, run, i, |run|, key)
    ensures key in StateAt(check, l, run, |run|).regs && Serves(StateAt(check, l, run, |run|), peer, r, now).Some?
    ensures var s := StateAt(check, l, run, |run|);
            s.regs[key].id in Delivers(s, Serves(s, peer, r, now).value) ==>
              exists idx: nat :: idx < |page.registrations| && Carries(l, run[i], page.registrations[idx])
  {
    hide Replies, Serves, PageIds, LiveIds, StateAt, Invariant, Accepts, Step;
    var s := StateAt(check, l, run, |run|);
    ServedPage(check, s, peer, r, now, reply, page);
    ListedExactly(check, l, run, |run|, key);
    AcceptsKey(check, StateAt(check, l, run, i), run[i], key);
    StateAtInvariant(check, l, run, |run|);
    IdsAreUnique(s);
    var q := Serves(s, peer, r, now).value;
    if s.regs[key].id in Delivers(s, q) {
      var idx: nat :| idx < |Delivers(s, q)| && Delivers(s, q)[idx] == s.regs[key].id;
      var k := ShownFields(s, s.regs[key].id, page.registrations[idx]);
      assert k == key;
    }
  }

  /** A first page with room left carries every registration listed in the namespace. */
  lemma ShortPageIsAll(check: RecordCheck, l: Limits, run: seq<Event>, peer: PeerId, r: Request, now: int,
                       reply: Reply, page: Page, i: nat, key: Key)
    requires ValidLimits(l) && ShortRun(run) && r.Discover? && r.cookie.None? && r.wanted == Some(key.1)
    requires Replies(check, StateAt(check, l, run, |run|), peer, r, now, reply)
    requires reply.response == Some(ToDiscover(Ok(page))) && Origin(check, l, run, i, |run|, key)
    requires |page.registrations| < Requested(l, r.limit)
    ensures exists idx: nat :: idx < |page.registrations| && Carries(l, run[i], page.registrations[idx])
  {
    var s := StateAt(check, l, run, |run|);
    PageIsComplete(check, l, run, peer, r, now, reply, page, i, key);
    ServedPage(check, s, peer, r, now, reply, page);
    LimitsStay(check, l, run[..|run|]);
    FirstQuery(s, peer, r, now);
    hide Replies, Serves, PageIds, StateAt, Origin, Carries, Requested;
    var q := Serves(s, peer, r, now).value;
    PageIsLeast(s, q);
    assert s.regs[key].id in LiveIds(s.regs, key.1);
    assert s.regs[key].id in SetOf(Delivers(s, q));
  }

  lemma FirstQuery(s: StoreView, peer: PeerId, r: Request, now: int)
    requires r.Discover? && r.cookie.None? && Serves(s, peer, r, now).Some?
    ensures var q := Serves(s, peer, r, now).value;
            q.seen == {} && q.requested == Requested(s.limits, r.limit) && Some(q.namespace) == r.wanted
  {
    hide AdmitRates, ValidNamespace;
  }

  /** A page asks for what the client asked for, or for the configured number if that is less. */
  lemma RequestedIs(l: Limits, limit: Option<u64>)
    ensures Requested(l, limit) <= l.results && (limit.Some? ==> Requested(l, limit) <= limit.value)
    ensures Requested(l, limit) == l.results || limit == Some(Requested(l, limit))
  {
  }

  /** Whatever is listed, over every run, has passed the record check and the size bound. */
  lemma ListedIsChecked(check: RecordCheck, l: Limits, run: seq<Event>, n: nat, key: Key)
    requires n <= |run| && key in StateAt(check, l, run, n).regs
    ensures var record := StateAt(check, l, run, n).regs[key].record;
            check(key.0, record) == None && |record| <= l.recordBytes && ValidNamespace(key.1)
  {
    hide Step, Full, AdmitRates, StateAt;
    ListedExactly(check, l, run, n, key);
    var i: nat :| Origin(check, l, run, i, n, key);
    StepAt(check, l, run, i);
  }
}
