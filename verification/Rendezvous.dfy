/** The rendezvous store as the node keeps it, updated in place. */
module Rendezvous {
  import opened Basics
  import opened RateWindow
  import opened Store
  import opened StoreInvariant
  import opened StoreRuns
  import opened Pagination

  datatype Entry = Entry(id: nat, wire: WireRegistration)

  // ------------------------------------------------------------------- helpers

  lemma {:induction false} RetainedTwice(order: seq<Bytes>, more: set<Bytes>, fewer: set<Bytes>)
    requires fewer <= more
    ensures Retained(Retained(order, more), fewer) == Retained(order, fewer)
  {
    if order != [] {
      var n := |order| - 1;
      RetainedTwice(order[..n], more, fewer);
      var front, whole := Retained(order[..n], more), Retained(order, more);
      if order[n] in more {
        assert whole == front + [order[n]] && whole[..|whole| - 1] == front;
        assert Retained(whole, fewer) == Retained(front, fewer) + if order[n] in fewer then [order[n]] else [];
      } else {
        assert whole == front;
      }
    }
  }

  /** Forgetting ids one after the other is forgetting them together. */
  lemma ForgetTwice(s: StoreView, a: set<nat>, b: set<nat>)
    ensures Forget(Forget(s, a), b) == Forget(s, a + b)
  {
    if a == {} {
      assert a + b == b;
    } else if b == {} {
      assert a + b == a;
    } else {
      var t, u, w := Forget(s, a), Forget(Forget(s, a), b), Forget(s, a + b);
      assert forall c :: c in s.cookies ==> (s.cookies[c].seen - a) - b == s.cookies[c].seen - (a + b);
      assert u.cookies == w.cookies;
      RetainedTwice(s.order, t.cookies.Keys, u.cookies.Keys);
    }
  }

  /** Dropping one more registration. */
  lemma DropOneMore(s: StoreView, keys: set<Key>, key: Key)
    requires key in s.regs && key !in keys
    ensures key in Dropped(s, keys).regs && Dropped(s, keys).regs[key] == s.regs[key]
    ensures Dropped(s, keys + {key})
            == Forget(Dropped(s, keys).(regs := Dropped(s, keys).regs - {key}), {s.regs[key].id})
  {
    var a, id := IdsOf(s.regs, keys), s.regs[key].id;
    assert IdsOf(s.regs, keys + {key}) == a + {id};
    var r := s.regs - (keys + {key});
    assert (s.regs - keys) - {key} == r;
    ForgetTwice(s.(regs := r), a, {id});
    assert Forget(s.(regs := r), a) == Forget(s.(regs := s.regs - keys), a).(regs := r);
  }

  lemma DropOne(s: StoreView, key: Key)
    requires key in s.regs
    ensures Dropped(s, {key}) == Forget(s.(regs := s.regs - {key}), {s.regs[key].id})
  {
    assert IdsOf(s.regs, {key}) == {s.regs[key].id};
  }

  function Ids(entries: seq<Entry>): seq<nat> {
    seq(|entries|, i requires 0 <= i < |entries| => entries[i].id)
  }

  lemma {:induction false} IncreasingUnique(a: seq<nat>, b: seq<nat>)
    requires Increasing(a) && Increasing(b) && SetOf(a) == SetOf(b)
    ensures a == b
  {
    assert b != [] ==> b[0] in SetOf(b);
    if a != [] {
      assert a[|a| - 1] in SetOf(b);
      assert b != [];
      var m, n := |a| - 1, |b| - 1;
      assert b[n] in SetOf(a);
      assert a[m] == b[n];
      assert SetOf(a[..m]) == SetOf(a) - {a[m]} by { FrontSet(a); }
      assert SetOf(b[..n]) == SetOf(b) - {b[n]} by { FrontSet(b); }
      IncreasingUnique(a[..m], b[..n]);
      assert a == a[..m] + [a[m]] && b == b[..n] + [b[n]];
    }
  }

  lemma FrontSet(a: seq<nat>)
    requires Increasing(a) && a != []
    ensures SetOf(a[..|a| - 1]) == SetOf(a) - {a[|a| - 1]}
  {
    var m := |a| - 1;
    assert a == a[..m] + [a[m]];
    assert a[m] !in a[..m];
  }

  /** `sort_by_key` on ids that do not repeat. */
  method SortById(entries: seq<Entry>) returns (sorted: seq<Entry>)
    requires NoRepeats(Ids(entries))
    ensures Increasing(Ids(sorted)) && |sorted| == |entries|
    ensures forall e :: e in sorted <==> e in entries
  {
    sorted := [];
    for n := 0 to |entries|
      invariant |sorted| == n && Increasing(Ids(sorted))
      invariant forall e :: e in sorted <==> e in entries[..n]
    {
      var e := entries[n];
      var i := 0;
      while i < n && sorted[i].id < e.id
        invariant i <= n
        invariant forall j :: 0 <= j < i ==> sorted[j].id < e.id
      {
        i := i + 1;
      }
      InsertKeepsIncreasing(entries, n, sorted, i);
      sorted := sorted[..i] + [e] + sorted[i..];
    }
    assert entries[..|entries|] == entries;
  }

  lemma InsertKeepsIncreasing(entries: seq<Entry>, n: nat, sorted: seq<Entry>, i: nat)
    requires n < |entries| && NoRepeats(Ids(entries)) && |sorted| == n && Increasing(Ids(sorted))
    requires forall e :: e in sorted <==> e in entries[..n]
    requires i <= n && (forall j :: 0 <= j < i ==> sorted[j].id < entries[n].id)
             && (i < n ==> sorted[i].id >= entries[n].id)
    ensures Increasing(Ids(sorted[..i] + [entries[n]] + sorted[i..]))
    ensures forall e :: e in sorted[..i] + [entries[n]] + sorted[i..] <==> e in entries[..n + 1]
  {
    var e, next := entries[n], sorted[..i] + [entries[n]] + sorted[i..];
    forall j | 0 <= j < n ensures sorted[j].id != e.id {
      assert sorted[j] in sorted;
      var k :| 0 <= k < n && entries[k] == sorted[j];
      assert Ids(entries)[k] != Ids(entries)[n];
    }
    forall j, k | 0 <= j < k < n ensures sorted[j].id < sorted[k].id {
      assert Ids(sorted)[j] < Ids(sorted)[k];
    }
    forall j, k | 0 <= j < k < |next| ensures next[j].id < next[k].id {
      var left, right := if j < i then j else j - 1, if k < i then k else k - 1;
      assert j != i ==> next[j] == sorted[left];
      assert k != i ==> next[k] == sorted[right];
      assert i < n && i < k ==> e.id < sorted[i].id <= sorted[right].id;
    }
    assert forall j, k :: 0 <= j < k < |next| ==> Ids(next)[j] < Ids(next)[k];
    assert entries[..n + 1] == entries[..n] + [e];
    assert sorted == sorted[..i] + sorted[i..];
  }

  /** `cookie_order.retain(...)` */
  method Retain(order: seq<Bytes>, keep: set<Bytes>) returns (kept: seq<Bytes>)
    ensures kept == Retained(order, keep)
  {
    kept := [];
    for i := 0 to |order|
      invariant kept == Retained(order[..i], keep)
    {
      assert order[..i + 1][..i] == order[..i];
      if order[i] in keep { kept := kept + [order[i]]; }
    }
    assert order[..|order|] == order;
  }

  // --------------------------------------------------------------------- store

  class RendezvousStore {
    const limits: Limits
    var regs: map<Key, Registration>
    var cookies: map<Bytes, Cookie>
    var order: seq<Bytes>
    var rates: map<PeerId, RateState>
    var nextRegistration: nat
    var nextCookie: nat

    ghost function View(): StoreView
      reads this
    {
      StoreView(limits, regs, cookies, order, rates, nextRegistration, nextCookie)
    }

    ghost predicate Valid()
      reads this
    {
      Invariant(View())
    }

    constructor (l: Limits)
      requires ValidLimits(l)
      ensures Valid() && View() == Initial(l)
    {
      limits, regs, cookies, order, rates := l, map[], map[], [], map[];
      nextRegistration, nextCookie := 1, 1;
      EmptyInvariant(l);
    }

    method Admit(peer: PeerId, op: Operation, now: int) returns (admitted: bool)
      modifies this
      ensures (View(), admitted) == Store.Admit(old(View()), peer, op, now)
    {
      rates := map p | p in rates && Elapsed(rates[p].started, now) < WINDOW :: rates[p];
      if peer !in rates && |rates| >= limits.ratePeers {
        return false;
      }
      ghost var live := rates;
      if peer !in rates {
        rates := rates[peer := RateState(now, 0, 0)];
      }
      var state := rates[peer];
      assert rates == live[peer := state];
      if !op.DiscoverOp? && state.registrations < limits.registerRate {
        rates := rates[peer := state.(registrations := state.registrations + 1)];
        assert rates == live[peer := rates[peer]];
        return true;
      } else if op.DiscoverOp? && state.discoveries < limits.discoverRate {
        rates := rates[peer := state.(discoveries := state.discoveries + 1)];
        assert rates == live[peer := rates[peer]];
        return true;
      }
      return false;
    }

    method RemoveFromCookies(id: nat)
      modifies this
      ensures View() == Forget(old(View()), {id})
    {
      cookies := map c | c in cookies && cookies[c].seen - {id} != {} :: cookies[c].(seen := cookies[c].seen - {id});
      order := Retain(order, cookies.Keys);
    }

    method Expire(now: int) returns (peers: seq<PeerId>)
      requires Valid()
      modifies this
      ensures Valid() && View() == Swept(old(View()), now)
      ensures |peers| == |ExpiredKeys(old(View()), now)|
      ensures forall p :: p in peers <==> exists k :: k in ExpiredKeys(old(View()), now) && k.0 == p
    {
      hide Invariant, Forget, Dropped, PeersOf;
      ghost var before := View();
      var expired := set k | k in regs && regs[k].expiresAt <= now;
      ghost var done: set<Key> := {};
      var left := expired;
      peers := [];
      DropNone(before);
      NoPeers();
      while left != {}
        invariant done !! left && done + left == expired
        invariant View() == Dropped(before, done) && PeersOf(done, peers)
        decreases |left|
      {
        var key :| key in left;
        DropOneMore(before, done, key);
        OneMorePeer(done, key, peers);
        var id := regs[key].id;
        regs := regs - {key};
        RemoveFromCookies(id);
        peers := peers + [key.0];
        done, left := done + {key}, left - {key};
      }
      assert done == expired;
      PeersReported(done, peers);
      DropKeepsInvariant(before, done);
    }

    method Register(check: RecordCheck, peer: PeerId, ns: string, record: Bytes, ttl: Option<u64>,
                    now: int) returns (reply: Reply)
      modifies this
      ensures (View(), reply) == Enrolled(check, old(View()), peer, ns, record, Lifetime(limits, ttl), now)
    {
      if !ValidNamespace(ns) {
        return Reply(Some(ToRegister(Err(InvalidNamespace))), Rejected);
      }
      var lifetime := if ttl.Some? then ttl.value else limits.maxTtl;
      if !(limits.minTtl <= lifetime <= limits.maxTtl) {
        return Reply(Some(ToRegister(Err(InvalidTtl))), Rejected);
      }
      var status := RecordStatus(check, limits, peer, record);
      if status.Some? {
        return Reply(Some(ToRegister(Err(status.value))), Rejected);
      }
      var key := (peer, ns);
      if key !in regs
         && (|regs| >= limits.total
             || |PeerKeys(regs.Keys, peer)| >= limits.perPeer
             || |NamespaceKeys(regs.Keys, ns)| >= limits.perNamespace) {
        return Reply(Some(ToRegister(Err(Unavailable))), Rejected);
      }
      if key in regs {
        DropOne(View(), key);
        var previous := regs[key];
        regs := regs - {key};
        RemoveFromCookies(previous.id);
      }
      var id := nextRegistration;
      nextRegistration := Next(nextRegistration);
      regs := regs[key := Registration(id, record, lifetime, now + lifetime * SECOND)];
      reply := Reply(Some(ToRegister(Ok(lifetime))), Registered);
    }

    method Unregister(peer: PeerId, ns: string) returns (reply: Reply)
      modifies this
      ensures (View(), reply) == Withdrawn(old(View()), peer, ns)
    {
      if !ValidNamespace(ns) {
        return Reply(None, Rejected);
      }
      var key := (peer, ns);
      if key in regs {
        DropOne(View(), key);
        var id := regs[key].id;
        regs := regs - {key};
        RemoveFromCookies(id);
      }
      reply := Reply(None, Unregistered);
    }

    method InsertCookie(ns: string, seen: set<nat>) returns (cookie: Bytes)
      modifies this
      ensures View() == CookieInserted(old(View()), ns, seen)
      ensures cookie == CookieBytes(old(nextCookie), ns)
    {
      while |cookies| >= limits.cookies
        invariant Evicted(View()) == Evicted(old(View()))
        invariant nextCookie == old(nextCookie)
        decreases |order|
      {
        if order == [] { break; }
        var oldest := order[0];
        order := order[1..];
        cookies := cookies - {oldest};
      }
      var id := nextCookie;
      nextCookie := Next(nextCookie);
      cookie := BigEndian(8, id) + Ascii(ns);
      cookies := cookies[cookie := Cookie(ns, seen)];
      order := order + [cookie];
    }

    /** Filter, in whatever order the map gives. */
    method Collect(ns: string, seen: set<nat>) returns (entries: seq<Entry>)
      requires UniqueIds(regs)
      ensures NoRepeats(Ids(entries))
      ensures SetOf(Ids(entries)) == LiveIds(regs, ns) - seen
      ensures forall e :: e in entries ==> Shows(View(), e.id, e.wire)
    {
      hide Collected, UniqueIds;
      entries := [];
      var wanted := set k | k in regs && k.1 == ns && regs[k].id !in seen;
      var left := wanted;
      ghost var done: set<Key> := {};
      CollectedNone(View());
      while left != {}
        invariant done !! left && done + left == wanted
        invariant Collected(View(), done, entries)
        decreases |left|
      {
        var k :| k in left;
        CollectedMore(View(), done, k, entries);
        entries := entries + [Entry(regs[k].id, OnWire(k, regs[k]))];
        done, left := done + {k}, left - {k};
      }
      assert done == wanted;
      CollectedAll(View(), ns, seen, entries);
    }

    /** Sort by id and truncate. */
    method Select(ns: string, seen: set<nat>, requested: nat) returns (page: seq<Entry>)
      requires UniqueIds(regs)
      ensures Ids(page) == PageIds(View(), ns, seen, requested)
      ensures forall e :: e in page ==> Shows(View(), e.id, e.wire)
    {
      hide UniqueIds, NoRepeats, LiveIds, Sorted, Increasing, Shows;
      var entries := Collect(ns, seen);
      var sorted := SortById(entries);
      SortedIds(View(), ns, seen, entries, sorted);
      page := if |sorted| <= requested then sorted else sorted[..requested];
    }

    method Discover(r: Request) returns (reply: Reply)
      requires r.Discover? && UniqueIds(regs)
      modifies this
      ensures var before := old(View());
              View() == if Asked(before, r).Ok? then Answered(before, Asked(before, r).value) else before
      ensures Finds(old(View()), r, reply)
    {
      hide UniqueIds, PageIds, CookieInserted, CookieBytes, Shows;
      if r.wanted.None? || !ValidNamespace(r.wanted.value) {
        return Reply(Some(ToDiscover(Err(InvalidNamespace))), Rejected);
      }
      var ns := r.wanted.value;
      var seen: set<nat> := {};
      if r.cookie.Some? {
        if r.cookie.value !in cookies || cookies[r.cookie.value].namespace != ns {
          return Reply(Some(ToDiscover(Err(InvalidCookie))), Rejected);
        }
        seen := cookies[r.cookie.value].seen;
      }
      var requested := if r.limit.Some? && r.limit.value < limits.results then r.limit.value else limits.results;
      ghost var before, q := View(), Query(ns, seen, requested);
      var page := Select(ns, seen, requested);
      var shown := seq(|page|, i requires 0 <= i < |page| => page[i].wire);
      assert PageShows(before, Ids(page), shown);
      var cookie := InsertCookie(ns, seen + SetOf(Ids(page)));
      reply := Reply(Some(ToDiscover(Ok(Page(shown, cookie)))), Served(|shown|));
    }

    /** One request: every reachable state is kept valid and the reply is the specified one. */
    method Handle(check: RecordCheck, peer: PeerId, r: Request, now: int) returns (reply: Reply)
      requires Valid() && RoomToCount(View())
      modifies this
      ensures Valid() && View() == Handled(check, old(View()), peer, r, now)
      ensures Replies(check, old(View()), peer, r, now, reply)
    {
      HandleKeepsInvariant(check, View(), peer, r, now);
      AdmitKeepsInvariant(View(), peer, OperationOf(r), now);
      IdsAreUnique(View());
      var op := OperationOf(r);
      var admitted := Admit(peer, op, now);
      if !admitted {
        return RateLimited(op);
      }
      match r
      case Register(ns, record, ttl) => reply := Register(check, peer, ns, record, ttl, now);
      case Unregister(ns) => reply := Unregister(peer, ns);
      case Discover(_, _, _) => reply := Discover(r);
    }
  }

  /** The entries are those of the registrations `done`, each once. */
  ghost predicate Collected(s: StoreView, done: set<Key>, entries: seq<Entry>) {
    && NoRepeats(Ids(entries))
    && (forall id :: id in Ids(entries) <==> id in IdsOf(s.regs, done))
    && (forall e :: e in entries ==> Shows(s, e.id, e.wire))
  }

  lemma CollectedNone(s: StoreView)
    ensures Collected(s, {}, [])
  {
    assert Ids([]) == [];
  }

  lemma CollectedMore(s: StoreView, done: set<Key>, k: Key, entries: seq<Entry>)
    requires UniqueIds(s.regs) && k in s.regs && k !in done && Collected(s, done, entries)
    ensures Collected(s, done + {k}, entries + [Entry(s.regs[k].id, OnWire(k, s.regs[k]))])
  {
    hide Shows;
    var e := Entry(s.regs[k].id, OnWire(k, s.regs[k]));
    assert e.id !in IdsOf(s.regs, done);
    assert IdsOf(s.regs, done + {k}) == IdsOf(s.regs, done) + {e.id};
    assert Ids(entries + [e]) == Ids(entries) + [e.id];
    assert Shows(s, e.id, e.wire) by { ShowsItself(s, k); }
  }

  lemma ShowsItself(s: StoreView, k: Key)
    requires k in s.regs
    ensures Shows(s, s.regs[k].id, OnWire(k, s.regs[k]))
  {
  }

  lemma CollectedAll(s: StoreView, ns: string, seen: set<nat>, entries: seq<Entry>)
    requires Collected(s, (set k | k in s.regs && k.1 == ns && s.regs[k].id !in seen), entries)
    ensures NoRepeats(Ids(entries)) && SetOf(Ids(entries)) == LiveIds(s.regs, ns) - seen
    ensures forall e :: e in entries ==> Shows(s, e.id, e.wire)
  {
    assert IdsOf(s.regs, set k | k in s.regs && k.1 == ns && s.regs[k].id !in seen) == LiveIds(s.regs, ns) - seen;
  }

  /** One peer is reported for each registration. */
  ghost predicate PeersOf(keys: set<Key>, peers: seq<PeerId>) {
    && |peers| == |keys|
    && forall p :: p in peers <==> exists k :: k in keys && k.0 == p
  }

  lemma NoPeers()
    ensures PeersOf({}, [])
  {
  }

  lemma OneMorePeer(keys: set<Key>, key: Key, peers: seq<PeerId>)
    requires PeersOf(keys, peers) && key !in keys
    ensures PeersOf(keys + {key}, peers + [key.0])
  {
    forall p ensures p in peers + [key.0] <==> exists k :: k in keys + {key} && k.0 == p {
      if p in peers {
        var k :| k in keys && k.0 == p;
        assert k in keys + {key};
      }
      if p == key.0 { assert key in keys + {key}; }
    }
  }

  lemma PeersReported(keys: set<Key>, peers: seq<PeerId>)
    requires PeersOf(keys, peers)
    ensures |peers| == |keys| && forall p :: p in peers <==> exists k :: k in keys && k.0 == p
  {
  }

  lemma DropNone(s: StoreView)
    ensures Dropped(s, {}) == s
  {
    assert IdsOf(s.regs, {}) == {} && s.regs - {} == s.regs;
  }

  /** Any collection of the unseen live entries sorts to the page order. */
  lemma SortedIds(s: StoreView, ns: string, seen: set<nat>, entries: seq<Entry>, sorted: seq<Entry>)
    requires SetOf(Ids(entries)) == LiveIds(s.regs, ns) - seen
    requires Increasing(Ids(sorted)) && forall e :: e in sorted <==> e in entries
    ensures Ids(sorted) == Sorted(LiveIds(s.regs, ns) - seen)
  {
    SortedMembers(LiveIds(s.regs, ns) - seen);
    assert SetOf(Ids(sorted)) == SetOf(Ids(entries)) by { SameIds(sorted, entries); SameIds(entries, sorted); }
    IncreasingUnique(Ids(sorted), Sorted(LiveIds(s.regs, ns) - seen));
  }

  lemma SameIds(a: seq<Entry>, b: seq<Entry>)
    requires forall e :: e in a ==> e in b
    ensures SetOf(Ids(a)) <= SetOf(Ids(b))
  {
    forall id | id in Ids(a) ensures id in Ids(b) {
      var i :| 0 <= i < |a| && a[i].id == id;
      assert a[i] in b;
      var j :| 0 <= j < |b| && b[j] == a[i];
      assert Ids(b)[j] == id;
    }
  }
}
