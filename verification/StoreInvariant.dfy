/** The invariant that every reachable store keeps. */
module StoreInvariant {
  import opened Basics
  import opened RateWindow
  import opened Store

  // ----------------------------------------------------------------- statement

  /** The total, per-peer and per-namespace caps. */
  ghost predicate CapsOk(l: Limits, keys: set<Key>) {
    && |keys| <= l.total
    && (forall peer :: |PeerKeys(keys, peer)| <= l.perPeer)
    && (forall ns :: |NamespaceKeys(keys, ns)| <= l.perNamespace)
  }

  ghost predicate UniqueIds(regs: map<Key, Registration>) {
    forall k, l :: k in regs && l in regs && regs[k].id == regs[l].id ==> k == l
  }

  ghost predicate RegistrationsOk(s: StoreView) {
    && CapsOk(s.limits, s.regs.Keys)
    && UniqueIds(s.regs)
    && (forall k :: k in s.regs ==> RegistrationOk(s, k, s.regs[k]))
  }

  predicate RegistrationOk(s: StoreView, k: Key, r: Registration) {
    && ValidNamespace(k.1)
    && 1 <= r.id < s.nextRegistration
    && |r.record| <= s.limits.recordBytes
    && s.limits.minTtl <= r.ttl <= s.limits.maxTtl
  }

  ghost predicate CookiesOk(s: StoreView) {
    && NoRepeats(s.order)
    && (forall c :: c in s.order <==> c in s.cookies)
    && |s.order| <= s.limits.cookies
    && (forall c :: c in s.cookies ==> CookieOk(s, c, s.cookies[c]))
  }

  /** A cookie has seen only live registrations of its namespace. */
  ghost predicate CookieOk(s: StoreView, c: Bytes, state: Cookie) {
    && Issued(s, c, state.namespace)
    && state.seen <= LiveIds(s.regs, state.namespace)
  }

  /** A cookie value that has been handed out. */
  ghost predicate Issued(s: StoreView, c: Bytes, ns: string) {
    exists n :: 1 <= n < s.nextCookie && c == CookieBytes(n, ns)
  }

  predicate RateOk(l: Limits, state: RateState) {
    state.registrations <= l.registerRate && state.discoveries <= l.discoverRate
  }

  ghost predicate RatesOk(l: Limits, rates: map<PeerId, RateState>) {
    && |rates| <= l.ratePeers
    && forall p :: p in rates ==> RateOk(l, rates[p])
  }

  /** The counters have not wrapped, and have room for one more step. */
  predicate RoomToCount(s: StoreView) {
    1 <= s.nextRegistration < U64_END - 1 && 1 <= s.nextCookie < U64_END - 1
  }

  ghost predicate Invariant(s: StoreView) {
    ValidLimits(s.limits) && RegistrationsOk(s) && CookiesOk(s) && RatesOk(s.limits, s.rates)
  }

  // ----------------------------------------------------------- cardinalities

  lemma {:induction false} NoRepeatsCard(q: seq<Bytes>, keys: set<Bytes>)
    requires NoRepeats(q) && forall c :: c in q <==> c in keys
    ensures |q| == |keys|
  {
    if q == [] {
      assert forall c :: c in keys ==> c in q;
      assert keys == {};
    } else {
      var n := |q| - 1;
      var front, last := q[..n], q[n];
      assert forall c :: c in front <==> c in keys - {last} by {
        forall c ensures c in front <==> c in keys - {last} {
          if c in front {
            var i :| 0 <= i < n && front[i] == c;
            assert q[i] == c && c in q;
          }
          if c in keys - {last} {
            assert c in q;
            var i :| 0 <= i < |q| && q[i] == c;
            assert i < n && front[i] == c;
          }
        }
      }
      NoRepeatsCard(front, keys - {last});
      assert last in q;
    }
  }

  lemma {:induction false} RetainedKeeps(order: seq<Bytes>, keep: set<Bytes>)
    ensures forall c :: c in Retained(order, keep) <==> c in order && c in keep
    ensures |Retained(order, keep)| <= |order|
    ensures NoRepeats(order) ==> NoRepeats(Retained(order, keep))
  {
    if order != [] {
      var n := |order| - 1;
      RetainedKeeps(order[..n], keep);
      assert order == order[..n] + [order[n]];
      if NoRepeats(order) {
        assert order[n] !in order[..n];
      }
    }
  }

  lemma FewerKeys(l: Limits, keys: set<Key>, fewer: set<Key>)
    requires CapsOk(l, keys) && fewer <= keys
    ensures CapsOk(l, fewer)
  {
    SubsetCard(fewer, keys);
    forall peer ensures |PeerKeys(fewer, peer)| <= l.perPeer {
      SubsetCard(PeerKeys(fewer, peer), PeerKeys(keys, peer));
    }
    forall ns ensures |NamespaceKeys(fewer, ns)| <= l.perNamespace {
      SubsetCard(NamespaceKeys(fewer, ns), NamespaceKeys(keys, ns));
    }
  }

  lemma OneMoreKey(l: Limits, keys: set<Key>, key: Key)
    requires CapsOk(l, keys) && key !in keys && |keys| < l.total
    requires |PeerKeys(keys, key.0)| < l.perPeer && |NamespaceKeys(keys, key.1)| < l.perNamespace
    ensures CapsOk(l, keys + {key})
  {
    var more := keys + {key};
    forall peer ensures |PeerKeys(more, peer)| <= l.perPeer {
      var before := PeerKeys(keys, peer);
      assert PeerKeys(more, peer) == if key.0 == peer then before + {key} else before;
    }
    forall ns ensures |NamespaceKeys(more, ns)| <= l.perNamespace {
      var before := NamespaceKeys(keys, ns);
      assert NamespaceKeys(more, ns) == if key.1 == ns then before + {key} else before;
    }
  }

  // ------------------------------------------------------------- preservation

  lemma DroppedRegistrations(s: StoreView, keys: set<Key>)
    requires RegistrationsOk(s)
    ensures RegistrationsOk(Dropped(s, keys))
    ensures Dropped(s, keys).regs == s.regs - keys
  {
    hide CapsOk;
    var t := Dropped(s, keys);
    assert t.regs.Keys == s.regs.Keys - keys;
    FewerKeys(s.limits, s.regs.Keys, t.regs.Keys);
    forall k | k in t.regs ensures RegistrationOk(t, k, t.regs[k]) {
      assert RegistrationOk(s, k, s.regs[k]);
    }
  }

  lemma DroppedCookie(s: StoreView, keys: set<Key>, c: Bytes)
    requires IdsOf(s.regs, keys) != {} && c in Dropped(s, keys).cookies && CookieOk(s, c, s.cookies[c])
    ensures CookieOk(Dropped(s, keys), c, Dropped(s, keys).cookies[c])
  {
    hide ValidNamespace, CookieBytes;
    var ids, t, ns := IdsOf(s.regs, keys), Dropped(s, keys), s.cookies[c].namespace;
    assert Issued(t, c, ns);
    forall id | id in t.cookies[c].seen ensures id in LiveIds(t.regs, ns) {
      assert id in LiveIds(s.regs, ns) && id !in ids;
      var k :| k in s.regs && k.1 == ns && s.regs[k].id == id;
      assert k in t.regs;
    }
  }

  lemma DroppedCookies(s: StoreView, keys: set<Key>)
    requires CookiesOk(s)
    ensures CookiesOk(Dropped(s, keys))
  {
    hide CookieOk;
    var ids, t := IdsOf(s.regs, keys), Dropped(s, keys);
    assert forall k :: k in s.regs && k in keys ==> s.regs[k].id in ids;
    if ids == {} {
      assert s.regs - keys == s.regs;
      assert t == s;
    } else {
      RetainedKeeps(s.order, t.cookies.Keys);
      forall c | c in t.cookies ensures CookieOk(t, c, t.cookies[c]) {
        DroppedCookie(s, keys, c);
      }
    }
  }

  lemma DropKeepsInvariant(s: StoreView, keys: set<Key>)
    requires Invariant(s)
    ensures Invariant(Dropped(s, keys))
    ensures Dropped(s, keys).regs == s.regs - keys
    ensures Dropped(s, keys).(regs := s.regs, cookies := s.cookies, order := s.order) == s
  {
    DroppedRegistrations(s, keys);
    DroppedCookies(s, keys);
  }

  lemma StoreKeepsInvariant(s: StoreView, key: Key, record: Bytes, ttl: nat, now: int)
    requires Invariant(s) && RoomToCount(s)
    requires ValidNamespace(key.1) && |record| <= s.limits.recordBytes && s.limits.minTtl <= ttl <= s.limits.maxTtl
    requires key in s.regs || !Full(s, key.0, key.1)
    ensures Invariant(Stored(s, key, record, ttl, now))
  {
    hide CapsOk, Dropped, RegistrationsOk, CookiesOk, ValidLimits, ValidNamespace, Full;
    var t := if key in s.regs then Dropped(s, {key}) else s;
    DropKeepsInvariant(s, {key});
    RoomForKey(s, t, key);
    AddKeepsInvariant(t, Stored(s, key, record, ttl, now), key);
  }

  lemma AddKeepsInvariant(t: StoreView, u: StoreView, key: Key)
    requires Invariant(t) && Added(t, u, key) && RegistrationOk(u, key, u.regs[key])
    requires CapsOk(t.limits, t.regs.Keys + {key})
    ensures Invariant(u)
  {
    AddedRegistration(t, u, key);
    AddedCookies(t, u, key);
  }

  lemma RoomForKey(s: StoreView, t: StoreView, key: Key)
    requires RegistrationsOk(s) && t.limits == s.limits
    requires key in s.regs || !Full(s, key.0, key.1)
    requires t.regs == if key in s.regs then s.regs - {key} else s.regs
    ensures CapsOk(t.limits, t.regs.Keys + {key})
  {
    hide CapsOk;
    if key in s.regs {
      assert t.regs.Keys + {key} == s.regs.Keys;
    } else {
      assert |s.regs| == |s.regs.Keys|;
      OneMoreKey(s.limits, s.regs.Keys, key);
    }
  }

  /** One more registration, with a new id, in a store that has room for it. */
  predicate Added(t: StoreView, u: StoreView, key: Key) {
    && key !in t.regs && key in u.regs
    && u == t.(regs := t.regs[key := u.regs[key]], nextRegistration := t.nextRegistration + 1)
    && u.regs[key].id == t.nextRegistration
  }

  lemma AddedRegistration(t: StoreView, u: StoreView, key: Key)
    requires RegistrationsOk(t) && Added(t, u, key) && RegistrationOk(u, key, u.regs[key])
    requires CapsOk(t.limits, t.regs.Keys + {key})
    ensures RegistrationsOk(u)
  {
    hide CapsOk;
    assert u.regs.Keys == t.regs.Keys + {key};
    forall k | k in u.regs ensures RegistrationOk(u, k, u.regs[k]) {
      if k != key { assert RegistrationOk(t, k, t.regs[k]); }
    }
    forall k | k in t.regs ensures t.regs[k].id < t.nextRegistration {
      assert RegistrationOk(t, k, t.regs[k]);
    }
  }

  lemma AddedCookies(t: StoreView, u: StoreView, key: Key)
    requires CookiesOk(t) && Added(t, u, key)
    ensures CookiesOk(u)
  {
    forall c | c in u.cookies ensures CookieOk(u, c, u.cookies[c]) {
      assert CookieOk(t, c, t.cookies[c]);
      LiveIdsGrow(t.regs, u.regs, t.cookies[c].namespace);
      assert Issued(u, c, t.cookies[c].namespace);
    }
  }

  lemma LiveIdsGrow(a: map<Key, Registration>, b: map<Key, Registration>, ns: string)
    requires forall k :: k in a ==> k in b && b[k] == a[k]
    ensures LiveIds(a, ns) <= LiveIds(b, ns)
  {
    forall id | id in LiveIds(a, ns) ensures id in LiveIds(b, ns) {
      var k :| k in a && k.1 == ns && a[k].id == id;
      assert k in b;
    }
  }

  /** Under the invariant the eviction loop frees exactly one place, and only when full. */
  lemma EvictedOnce(s: StoreView)
    requires Invariant(s)
    ensures |s.order| == |s.cookies|
    ensures Evicted(s) == if |s.order| < s.limits.cookies then s
                          else s.(cookies := s.cookies - {s.order[0]}, order := s.order[1..])
  {
    NoRepeatsCard(s.order, s.cookies.Keys);
    if |s.order| >= s.limits.cookies {
      var t := s.(cookies := s.cookies - {s.order[0]}, order := s.order[1..]);
      assert s.order[0] in s.cookies;
      assert t.cookies.Keys == s.cookies.Keys - {s.order[0]};
    }
  }

  lemma TailMembers(q: seq<Bytes>)
    requires NoRepeats(q) && q != []
    ensures NoRepeats(q[1..])
    ensures forall c :: c in q[1..] <==> c in q && c != q[0]
  {
    assert q == [q[0]] + q[1..];
  }

  lemma EvictKeepsCookies(s: StoreView)
    requires Invariant(s)
    ensures CookiesOk(Evicted(s)) && |Evicted(s).order| < s.limits.cookies
    ensures Evicted(s).(cookies := s.cookies, order := s.order) == s
    ensures forall c :: c in Evicted(s).cookies ==> c in s.cookies && Evicted(s).cookies[c] == s.cookies[c]
  {
    hide RegistrationsOk, RatesOk, Evicted, CookiesOk;
    EvictedOnce(s);
    CookiesBounded(s);
    if |s.order| >= s.limits.cookies { TailKeepsCookies(s, Evicted(s)); }
  }

  lemma CookiesBounded(s: StoreView)
    requires CookiesOk(s)
    ensures |s.order| <= s.limits.cookies
  {
  }

  lemma TailKeepsCookies(s: StoreView, t: StoreView)
    requires CookiesOk(s) && s.order != [] && t == s.(cookies := s.cookies - {s.order[0]}, order := s.order[1..])
    ensures CookiesOk(t)
  {
    hide CookieOk;
    TailMembers(s.order);
    forall c | c in t.cookies ensures CookieOk(t, c, t.cookies[c]) {
      SameCookie(s, t, c);
    }
  }

  lemma SameCookie(s: StoreView, t: StoreView, c: Bytes)
    requires c in s.cookies && CookieOk(s, c, s.cookies[c]) && t.regs == s.regs && t.nextCookie == s.nextCookie
    ensures CookieOk(t, c, s.cookies[c])
  {
    hide CookieBytes;
    assert Issued(t, c, s.cookies[c].namespace);
  }

  lemma CookieBytesInjective(m: nat, a: string, n: nat, b: string)
    requires m < U64_END && n < U64_END && CookieBytes(m, a) == CookieBytes(n, b)
    ensures m == n
  {
    assert CookieBytes(m, a)[..8] == BigEndian(8, m);
    assert CookieBytes(n, b)[..8] == BigEndian(8, n);
    BytePowers();
    BigEndianInjective(8, m, n);
  }

  /** A new cookie value differs from every value handed out before. */
  lemma NewCookieIsFresh(s: StoreView, ns: string, c: Bytes, other: string)
    requires RoomToCount(s) && Issued(s, c, other)
    ensures CookieBytes(s.nextCookie, ns) != c
  {
    var n :| 1 <= n < s.nextCookie && c == CookieBytes(n, other);
    if CookieBytes(s.nextCookie, ns) == c {
      CookieBytesInjective(s.nextCookie, ns, n, other);
    }
  }

  lemma InsertKeepsInvariant(s: StoreView, ns: string, seen: set<nat>)
    requires Invariant(s) && RoomToCount(s) && seen <= LiveIds(s.regs, ns)
    ensures Invariant(CookieInserted(s, ns, seen))
  {
    var t, u, new_ := Evicted(s), CookieInserted(s, ns, seen), CookieBytes(s.nextCookie, ns);
    EvictKeepsCookies(s);
    assert new_ !in t.cookies by {
      if new_ in t.cookies {
        assert CookieOk(t, new_, t.cookies[new_]);
        NewCookieIsFresh(s, ns, new_, t.cookies[new_].namespace);
      }
    }
    assert new_ !in t.order;
    forall c | c in u.cookies ensures CookieOk(u, c, u.cookies[c]) {
      if c == new_ {
        assert Issued(u, c, ns);
      } else {
        assert CookieOk(t, c, t.cookies[c]);
        var n :| 1 <= n < t.nextCookie && c == CookieBytes(n, t.cookies[c].namespace);
        assert Issued(u, c, t.cookies[c].namespace);
      }
    }
  }

  lemma {:induction false} SortedMembers(ids: set<nat>)
    ensures forall x :: x in Sorted(ids) <==> x in ids
    ensures forall i, j :: 0 <= i < j < |Sorted(ids)| ==> Sorted(ids)[i] < Sorted(ids)[j]
    decreases |ids|
  {
    if ids != {} {
      var m, rest := Least(ids), ids - {Least(ids)};
      SortedMembers(rest);
      assert Sorted(ids) == [m] + Sorted(rest);
      forall x | x in Sorted(rest) ensures m < x {
        assert x in rest;
      }
      forall j | 0 <= j < |Sorted(rest)| ensures m < Sorted(rest)[j] {
        assert Sorted(rest)[j] in Sorted(rest);
      }
    }
  }

  /** A page is the least unseen live ids, in order, as many as were asked for. */
  lemma PageIsLeast(s: StoreView, q: Query)
    ensures var ids, unseen := Delivers(s, q), LiveIds(s.regs, q.namespace) - q.seen;
            && SetOf(ids) <= unseen
            && (forall i, j :: 0 <= i < j < |ids| ==> ids[i] < ids[j])
            && (forall x, y :: x in ids && y in unseen && y !in ids ==> x < y)
            && |ids| == (if |unseen| <= q.requested then |unseen| else q.requested)
            && (|ids| < q.requested ==> SetOf(ids) == unseen)
  {
    hide Sorted, LiveIds;
    var unseen := LiveIds(s.regs, q.namespace) - q.seen;
    SortedMembers(unseen);
    PrefixIsLeast(Sorted(unseen), unseen, q.requested);
  }

  /** A prefix of a sorted set: its least elements. */
  lemma PrefixIsLeast(sorted: seq<nat>, all_: set<nat>, n: nat)
    requires (forall x :: x in sorted <==> x in all_) && |sorted| == |all_|
    requires forall i, j :: 0 <= i < j < |sorted| ==> sorted[i] < sorted[j]
    ensures var ids := Truncated(sorted, n);
            && SetOf(ids) <= all_
            && (forall i, j :: 0 <= i < j < |ids| ==> ids[i] < ids[j])
            && (forall x, y :: x in ids && y in all_ && y !in ids ==> x < y)
            && |ids| == (if |all_| <= n then |all_| else n)
            && (|ids| < n ==> SetOf(ids) == all_)
  {
    var ids := Truncated(sorted, n);
    forall x, y | x in ids && y in all_ && y !in ids ensures x < y {
      BeyondPrefix(sorted, |ids|, x, y);
    }
    assert forall x :: x in ids ==> x in sorted;
  }

  lemma BeyondPrefix(sorted: seq<nat>, n: nat, x: nat, y: nat)
    requires n <= |sorted| && x in sorted[..n] && y in sorted && y !in sorted[..n]
    requires forall i, j :: 0 <= i < j < |sorted| ==> sorted[i] < sorted[j]
    ensures x < y
  {
    var i :| 0 <= i < n && sorted[i] == x;
    var j :| 0 <= j < |sorted| && sorted[j] == y;
    assert forall k :: 0 <= k < n ==> sorted[..n][k] == sorted[k];
    assert j >= n;
  }

  lemma AnswerKeepsInvariant(s: StoreView, r: Request)
    requires Invariant(s) && RoomToCount(s) && r.Discover? && Asked(s, r).Ok?
    ensures Invariant(Answered(s, Asked(s, r).value))
  {
    var q := Asked(s, r).value;
    PageIsLeast(s, q);
    assert q.seen <= LiveIds(s.regs, q.namespace) by {
      if r.cookie.Some? { assert CookieOk(s, r.cookie.value, s.cookies[r.cookie.value]); }
    }
    InsertKeepsInvariant(s, q.namespace, q.seen + SetOf(Delivers(s, q)));
  }

  lemma AdmitKeepsInvariant(s: StoreView, peer: PeerId, op: Operation, now: int)
    requires Invariant(s)
    ensures Invariant(Admit(s, peer, op, now).0)
    ensures Admit(s, peer, op, now).0.(rates := s.rates) == s
  {
    hide CapsOk, CookiesOk, RegistrationsOk, AdmitRates, RatesOk;
    AdmitKeepsRates(s.limits, s.rates, peer, op, now);
    RatesDoNotMatter(s, Admit(s, peer, op, now).0.rates);
  }

  lemma AdmitKeepsRates(l: Limits, rates: map<PeerId, RateState>, peer: PeerId, op: Operation, now: int)
    requires ValidLimits(l) && RatesOk(l, rates)
    ensures RatesOk(l, AdmitRates(l, rates, peer, op, now).0)
  {
    var live, after := LiveRates(rates, now), AdmitRates(l, rates, peer, op, now).0;
    SubsetCard(live.Keys, rates.Keys);
    assert |live| == |live.Keys| && |rates| == |rates.Keys| && |after| == |after.Keys|;
    assert after.Keys == live.Keys || (peer !in live && after.Keys == live.Keys + {peer});
  }

  lemma RatesDoNotMatter(s: StoreView, rates: map<PeerId, RateState>)
    requires RegistrationsOk(s) && CookiesOk(s)
    ensures RegistrationsOk(s.(rates := rates)) && CookiesOk(s.(rates := rates))
  {
    hide CapsOk;
    var t := s.(rates := rates);
    forall c | c in t.cookies ensures CookieOk(t, c, t.cookies[c]) {
      assert CookieOk(s, c, s.cookies[c]);
    }
    forall k | k in t.regs ensures RegistrationOk(t, k, t.regs[k]) {
      assert RegistrationOk(s, k, s.regs[k]);
    }
  }

  /** Every call keeps the invariant. */
  lemma HandleKeepsInvariant(check: RecordCheck, s: StoreView, peer: PeerId, r: Request, now: int)
    requires Invariant(s) && RoomToCount(s)
    ensures Invariant(Handled(check, s, peer, r, now))
  {
    hide Invariant;
    AdmitKeepsInvariant(s, peer, OperationOf(r), now);
    var (t, admitted) := Admit(s, peer, OperationOf(r), now);
    if admitted {
      match r
      case Register(ns, record, ttl) =>
        if RegisterRefusal(check, t, peer, ns, record, Lifetime(t.limits, ttl)).None? {
          StoreKeepsInvariant(t, (peer, ns), record, Lifetime(t.limits, ttl), now);
        }
      case Unregister(ns) => DropKeepsInvariant(t, {(peer, ns)});
      case Discover(_, _, _) => if Asked(t, r).Ok? { AnswerKeepsInvariant(t, r); }
    }
  }
}
