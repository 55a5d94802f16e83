/** Namespaces and renewal: what a client registers, and when, against what the store keeps. */
module Listing {
  import opened Basics
  import opened RateWindow
  import opened Store
  import opened StoreRuns

  // ----------------------------------------------------------------- namespaces

  const HEX := "0123456789abcdef"

  function HexPair(b: byte): string {
    [HEX[b / 16], HEX[b % 16]]
  }

  function Hex(bytes: Bytes): string {
    if bytes == [] then "" else Hex(bytes[..|bytes| - 1]) + HexPair(bytes[|bytes| - 1])
  }

  /** `DiscoveryNamespace::from_room_id` */
  method FromRoomId(room: Bytes16) returns (namespace: string)
    ensures namespace == NAMESPACE_PREFIX + Hex(room)
  {
    namespace := "envshare-v1-";
    for i := 0 to 16
      invariant namespace == NAMESPACE_PREFIX + Hex(room[..i])
    {
      assert room[..i + 1][..i] == room[..i];
      namespace := namespace + [HEX[room[i] / 16]];
      namespace := namespace + [HEX[room[i] % 16]];
    }
    assert room[..16] == room;
  }

  lemma {:induction false} HexDigits(bytes: Bytes)
    ensures |Hex(bytes)| == 2 * |bytes| && forall i :: 0 <= i < |Hex(bytes)| ==> IsLowerHex(Hex(bytes)[i])
  {
    if bytes != [] {
      HexDigits(bytes[..|bytes| - 1]);
      var last := bytes[|bytes| - 1];
      assert IsLowerHex(HEX[last / 16]) && IsLowerHex(HEX[last % 16]);
    }
  }

  lemma HexPairInjective(a: byte, b: byte)
    requires HexPair(a) == HexPair(b)
    ensures a == b
  {
    assert forall i, j :: 0 <= i < j < 16 ==> HEX[i] != HEX[j];
    assert HexPair(a)[0] == HexPair(b)[0] && HexPair(a)[1] == HexPair(b)[1];
    assert a / 16 == b / 16 && a % 16 == b % 16;
  }

  lemma {:induction false} HexInjective(a: Bytes, b: Bytes)
    requires |a| == |b| && Hex(a) == Hex(b)
    ensures a == b
  {
    if a != [] {
      var n := |a| - 1;
      HexDigits(a[..n]);
      HexDigits(b[..n]);
      assert Hex(a)[..2 * n] == Hex(a[..n]) && Hex(b)[..2 * n] == Hex(b[..n]);
      assert Hex(a)[2 * n..] == HexPair(a[n]) && Hex(b)[2 * n..] == HexPair(b[n]);
      HexPairInjective(a[n], b[n]);
      HexInjective(a[..n], b[..n]);
      assert a == a[..n] + [a[n]] && b == b[..n] + [b[n]];
    }
  }

  /** Every room has a namespace that the store accepts, and no two rooms share one. */
  lemma RoomsHaveNamespaces(room: Bytes16, other: Bytes16)
    ensures ValidNamespace(NAMESPACE_PREFIX + Hex(room))
    ensures NAMESPACE_PREFIX + Hex(room) == NAMESPACE_PREFIX + Hex(other) ==> room == other
  {
    var namespace, theirs := NAMESPACE_PREFIX + Hex(room), NAMESPACE_PREFIX + Hex(other);
    HexDigits(room);
    assert namespace[|NAMESPACE_PREFIX|..] == Hex(room) && theirs[|NAMESPACE_PREFIX|..] == Hex(other);
    if namespace == theirs { HexInjective(room, other); }
  }

  function HexValue(c: char): (v: nat)
    requires IsLowerHex(c)
    ensures v < 16 && HEX[v] == c
  {
    if c <= '9' then c as int - '0' as int else c as int - 'a' as int + 10
  }

  lemma UnhexPair(high: char, low: char) returns (b: byte)
    requires IsLowerHex(high) && IsLowerHex(low)
    ensures HexPair(b) == [high, low]
  {
    hide IsLowerHex, HexValue;
    var h, l := HexValue(high), HexValue(low);
    b := h * 16 + l;
    DivModOfSum(16, h, l);
    assert b / 16 == h && b % 16 == l;
  }

  lemma {:induction false} Unhex(text: string) returns (bytes: Bytes)
    requires |text| % 2 == 0 && forall i :: 0 <= i < |text| ==> IsLowerHex(text[i])
    ensures |bytes| == |text| / 2 && Hex(bytes) == text
  {
    hide HexPair, IsLowerHex;
    if text == "" {
      bytes := [];
    } else {
      var n := |text| - 2;
      var front := Unhex(text[..n]);
      var last := UnhexPair(text[n], text[n + 1]);
      bytes := front + [last];
      assert bytes[..|bytes| - 1] == front;
      assert text == text[..n] + [text[n], text[n + 1]];
    }
  }

  /** The store accepts the namespaces of rooms and no others. */
  lemma AcceptedNamespacesAreRooms(namespace: string) returns (room: Bytes16)
    requires ValidNamespace(namespace)
    ensures namespace == NAMESPACE_PREFIX + Hex(room)
  {
    room := Unhex(namespace[|NAMESPACE_PREFIX|..]);
    assert namespace == namespace[..|NAMESPACE_PREFIX|] + namespace[|NAMESPACE_PREFIX|..];
  }

  // -------------------------------------------------------------------- renewal

  /** `renewal_delay`, in seconds: two thirds of the lifetime, multiplied first and saturating. */
  function RenewalDelay(ttl: u64): nat {
    var doubled := if 2 * ttl < U64_END then 2 * ttl else U64_END - 1;
    if doubled / 3 < 1 then 1 else doubled / 3
  }

  /** What a lifetime leaves after the renewal point. */
  function Slack(ttl: u64): nat {
    ttl - 2 * ttl / 3
  }

  /** The renewal point and the slack add up to the lifetime at most, except for lifetimes under two seconds. */
  lemma RenewalInTime(ttl: u64)
    ensures RenewalDelay(ttl) + Slack(ttl) <= ttl <==> ttl >= 2
    ensures 2 <= ttl && 2 * ttl < U64_END ==> RenewalDelay(ttl) + Slack(ttl) == ttl
  {
  }

  /** A registration outlives a sweep exactly if the sweep comes before its lifetime is over. */
  lemma SweptExactly(s: StoreView, key: Key, now: int)
    ensures key in Swept(s, now).regs <==> key in s.regs && now < s.regs[key].expiresAt
  {
  }

  /** With a lifetime of one second the registration is gone when its renewal falls due. */
  lemma OneSecondLapses(s: StoreView, key: Key, record: Bytes, since: int)
    ensures key !in Swept(Stored(s, key, record, 1, since), since + RenewalDelay(1) * SECOND).regs
  {
    SweptExactly(Stored(s, key, record, 1, since), key, since + RenewalDelay(1) * SECOND);
  }

  // ------------------------------------------------------------------- over runs

  predicate Listed(s: StoreView, key: Key, since: int, ttl: u64) {
    key in s.regs && s.regs[key].expiresAt == since + ttl * SECOND
  }

  predicate IsRegister(e: Event, key: Key) {
    e.Call? && e.peer == key.0 && e.request.Register? && e.request.namespace == key.1
  }

  predicate IsUnregister(e: Event, key: Key) {
    e.Call? && e.peer == key.0 && e.request.Unregister? && e.request.namespace == key.1
  }

  /** The request a client renews with, past rate admission and with a record that is accepted. */
  predicate GoodRenewal(check: RecordCheck, s: StoreView, e: Event, ttl: u64) {
    && e.Call? && e.request.Register? && e.request.ttl == Some(ttl)
    && ValidNamespace(e.request.namespace) && s.limits.minTtl <= ttl <= s.limits.maxTtl
    && RecordStatus(check, s.limits, e.peer, e.request.record).None?
    && Admit(s, e.peer, RegisterOp, e.now).1
  }

  /** The owner never withdraws, and every renewal it sends is good. */
  predicate Tended(check: RecordCheck, s: StoreView, e: Event, key: Key, ttl: u64) {
    !IsUnregister(e, key) && (IsRegister(e, key) ==> GoodRenewal(check, s, e, ttl))
  }

  /** Registering and withdrawing other keys, discovering and sweeping leave an unexpired listing alone. */
  lemma OthersKeepListing(check: RecordCheck, s: StoreView, e: Event, key: Key, since: int, ttl: u64)
    requires Listed(s, key, since, ttl) && !IsUnregister(e, key) && !IsRegister(e, key) && e.now < since + ttl * SECOND
    ensures Listed(Step(check, s, e), key, since, ttl)
  {
    hide AdmitRates, Evicted, ValidNamespace, Full, Forget;
    match e
    case Expiry(now) => assert key !in ExpiredKeys(s, now); DroppedRegs(s, ExpiredKeys(s, now));
    case Call(peer, request, now) =>
      var t := Admit(s, peer, OperationOf(request), now).0;
      EvictedFrame(t);
      DroppedRegs(t, {(peer, if request.Discover? then "" else request.namespace)});
  }

  lemma DroppedRegs(s: StoreView, keys: set<Key>)
    ensures Dropped(s, keys).regs == s.regs - keys
  {
  }

  /** A good registration lists the key, or renews it even when the store is full. */
  lemma RegisterLists(check: RecordCheck, s: StoreView, e: Event, key: Key, ttl: u64)
    requires IsRegister(e, key) && GoodRenewal(check, s, e, ttl) && (key in s.regs || !Full(s, key.0, key.1))
    ensures Listed(Step(check, s, e), key, e.now, ttl)
  {
    hide AdmitRates, ValidNamespace, Dropped;
  }

  predicate TendedRun(check: RecordCheck, s: StoreView, run: seq<Event>, key: Key, ttl: u64) {
    run == [] ||
    var n := |run| - 1;
    TendedRun(check, s, run[..n], key, ttl) && Tended(check, After(check, s, run[..n]), run[n], key, ttl)
  }

  // ----------------------------------------------------------------- the schedule

  /** The instants at which the owner's registrations are handled, the one before the run first. */
  function Handlings(run: seq<Event>, key: Key, since: int): (h: seq<int>)
    ensures |h| > 0
  {
    if run == [] then [since] else
    var n := |run| - 1;
    Handlings(run[..n], key, since) + if IsRegister(run[n], key) then [run[n].now] else []
  }

  function LastHandling(run: seq<Event>, key: Key, since: int): int {
    var h := Handlings(run, key, since);
    h[|h| - 1]
  }

  function Allowance(ttl: u64): nat {
    (RenewalDelay(ttl) + Slack(ttl)) * SECOND
  }

  /** Each handling comes before the renewal point of the one before it and the slack have passed. */
  predicate Punctual(handlings: seq<int>, ttl: u64) {
    forall k :: 0 < k < |handlings| ==> handlings[k] < handlings[k - 1] + Allowance(ttl)
  }

  /**
   `maintain_registrations`: register, wait for the renewal delay, register again, until
   cancelled.  `lags[k]` is what the answer to one registration and the way of the next one
   take together, beside the delay; the result are the instants of handling.
   */
  method MaintainRegistrations(ttl: u64, start: int, lags: seq<nat>) returns (handlings: seq<int>)
    ensures |handlings| == |lags| + 1 && handlings[0] == start
    ensures forall k :: 0 < k < |handlings| ==>
              handlings[k] == handlings[k - 1] + RenewalDelay(ttl) * SECOND + lags[k - 1]
    ensures (forall k :: 0 <= k < |lags| ==> lags[k] < Slack(ttl) * SECOND) ==> Punctual(handlings, ttl)
  {
    handlings := [start];
    for n := 0 to |lags|
      invariant |handlings| == n + 1 && handlings[0] == start
      invariant forall k :: 0 < k < |handlings| ==>
                  handlings[k] == handlings[k - 1] + RenewalDelay(ttl) * SECOND + lags[k - 1]
    {
      handlings := handlings + [handlings[n] + RenewalDelay(ttl) * SECOND + lags[n]];
    }
    if forall k :: 0 <= k < |lags| ==> lags[k] < Slack(ttl) * SECOND {
      forall k | 0 < k < |handlings| ensures handlings[k] < handlings[k - 1] + Allowance(ttl) {
        assert lags[k - 1] < Slack(ttl) * SECOND;
      }
    }
  }

  /** The run so far is not longer than the next handling may take. */
  predicate NotOverdue(run: seq<Event>, key: Key, since: int, ttl: u64) {
    run != [] ==> run[|run| - 1].now < LastHandling(run, key, since) + Allowance(ttl)
  }

  /** If the renewals are punctual and the next one is not overdue, every event comes within the allowance. */
  lemma {:induction false} EventsInTime(run: seq<Event>, key: Key, since: int, ttl: u64, i: nat)
    requires MonotoneClock(run) && i < |run|
    requires Punctual(Handlings(run, key, since), ttl) && NotOverdue(run, key, since, ttl)
    ensures run[i].now < LastHandling(run[..i], key, since) + Allowance(ttl)
    decreases |run|
  {
    hide Allowance, IsRegister;
    var n := |run| - 1;
    var front, h := run[..n], Handlings(run[..n], key, since);
    if IsRegister(run[n], key) {
      assert Handlings(run, key, since) == h + [run[n].now];
      assert run[n].now < h[|h| - 1] + Allowance(ttl) by {
        assert Handlings(run, key, since)[|h|] < Handlings(run, key, since)[|h| - 1] + Allowance(ttl);
      }
      assert Punctual(h, ttl) by {
        forall k | 0 < k < |h| ensures h[k] < h[k - 1] + Allowance(ttl) {
          assert Handlings(run, key, since)[k] < Handlings(run, key, since)[k - 1] + Allowance(ttl);
        }
      }
    } else {
      assert Handlings(run, key, since) == h;
    }
    if i < n {
      assert front[..i] == run[..i];
      EventsInTime(front, key, since, ttl, i);
    } else {
      assert run[..i] == front;
    }
  }

  /**
   A registration of at least two seconds whose owner renews on schedule, each renewal
   handled within the slack, is listed after every event, whatever the store does for
   others and however often it sweeps.
   */
  lemma {:induction false} StaysListed(check: RecordCheck, s: StoreView, run: seq<Event>, key: Key, since: int,
                                       ttl: u64)
    requires ttl >= 2 && Listed(s, key, since, ttl) && MonotoneClock(run) && TendedRun(check, s, run, key, ttl)
    requires Punctual(Handlings(run, key, since), ttl) && NotOverdue(run, key, since, ttl)
    ensures Listed(After(check, s, run), key, LastHandling(run, key, since), ttl)
  {
    hide GoodRenewal, Step, MonotoneClock, NotOverdue;
    forall i | 0 <= i < |run| ensures run[i].now < LastHandling(run[..i], key, since) + Allowance(ttl) {
      EventsInTime(run, key, since, ttl, i);
    }
    ListedThroughout(check, s, run, key, since, ttl, |run|);
    assert run[..|run|] == run;
  }

  lemma {:induction false} ListedThroughout(check: RecordCheck, s: StoreView, run: seq<Event>, key: Key, since: int,
                                            ttl: u64, n: nat)
    requires ttl >= 2 && Listed(s, key, since, ttl) && TendedRun(check, s, run, key, ttl) && n <= |run|
    requires forall i :: 0 <= i < |run| ==> run[i].now < LastHandling(run[..i], key, since) + Allowance(ttl)
    ensures Listed(After(check, s, run[..n]), key, LastHandling(run[..n], key, since), ttl)
  {
    hide Step, GoodRenewal;
    if n > 0 {
      var m := n - 1;
      var before, last := After(check, s, run[..m]), LastHandling(run[..m], key, since);
      ListedThroughout(check, s, run, key, since, ttl, m);
      TendedAt(check, s, run, key, ttl, m);
      assert run[..n][..m] == run[..m];
      AllowanceWithin(ttl);
      if IsRegister(run[m], key) {
        RegisterLists(check, before, run[m], key, ttl);
      } else {
        OthersKeepListing(check, before, run[m], key, last, ttl);
      }
    }
  }

  lemma AllowanceWithin(ttl: u64)
    requires ttl >= 2
    ensures Allowance(ttl) <= ttl * SECOND
  {
    RenewalInTime(ttl);
    MulMono(RenewalDelay(ttl) + Slack(ttl), ttl, SECOND);
  }

  lemma {:induction false} TendedAt(check: RecordCheck, s: StoreView, run: seq<Event>, key: Key, ttl: u64, i: nat)
    requires TendedRun(check, s, run, key, ttl) && i < |run|
    ensures Tended(check, After(check, s, run[..i]), run[i], key, ttl)
  {
    hide Tended, After;
    var n := |run| - 1;
    if i < n {
      TendedAt(check, s, run[..n], key, ttl, i);
      assert run[..n][..i] == run[..i];
    } else {
      assert run[..i] == run[..n];
    }
  }

  // --------------------------------------------------------------- pages and sweeps

  /** Sweeping and then discovering, later or not, shows only registrations unexpired at the sweep. */
  lemma PageShowsUnexpired(check: RecordCheck, s: StoreView, sweptAt: int, peer: PeerId, r: Request, now: int,
                           reply: Reply, page: Page, i: nat)
    requires r.Discover? && Replies(check, Swept(s, sweptAt), peer, r, now, reply)
    requires reply.response == Some(ToDiscover(Ok(page))) && i < |page.registrations|
    ensures exists k :: k in s.regs && sweptAt < s.regs[k].expiresAt && page.registrations[i] == OnWire(k, s.regs[k])
  {
    hide AdmitRates, Forget, Delivers;
    var swept := Swept(s, sweptAt);
    var t := Admit(swept, peer, DiscoverOp, now).0;
    var ids := Delivers(t, Asked(t, r).value);
    assert Shows(t, ids[i], page.registrations[i]);
    var k :| k in t.regs && t.regs[k].id == ids[i] && page.registrations[i] == OnWire(k, t.regs[k]);
    DroppedRegs(s, ExpiredKeys(s, sweptAt));
    assert k in s.regs && k !in ExpiredKeys(s, sweptAt);
  }
}
