/**
 The rendezvous store of a node: registrations, incremental-query cookies with their
 eviction order, and per-peer rate windows.
 */
module Store {
  import opened Basics
  import opened RateWindow

  const U64_END := 0x1_0000_0000_0000_0000
  const NAMESPACE_PREFIX := "envshare-v1-"
  const NAMESPACE_LENGTH := 44

  type Key = (PeerId, string)

  datatype Limits = Limits(
    minTtl: nat, maxTtl: nat, perPeer: nat, total: nat, perNamespace: nat, cookies: nat,
    recordBytes: nat, results: nat, registerRate: nat, discoverRate: nat, ratePeers: nat)

  /** The discovery clauses of `NodeConfig::validate`. */
  predicate ValidLimits(l: Limits) {
    && 0 < l.minTtl <= l.maxTtl <= 86_400
    && 0 < l.perPeer <= l.total <= 4_096
    && 0 < l.perNamespace <= l.total
    && 0 < l.cookies <= 8_192
    && 512 <= l.recordBytes <= 16 * 1024
    && 0 < l.results <= 64 && l.results <= l.total
    && l.results * l.recordBytes <= 900 * 1024
    && 0 < l.registerRate <= 120
    && 0 < l.discoverRate <= 240
    && 0 < l.ratePeers <= 4_096
  }

  datatype Registration = Registration(id: nat, record: Bytes, ttl: nat, expiresAt: int)

  datatype Cookie = Cookie(namespace: string, seen: set<nat>)

  datatype RateState = RateState(started: int, registrations: nat, discoveries: nat)

  datatype Status =
    | InvalidNamespace
    | InvalidSignedPeerRecord
    | InvalidTtl
    | InvalidCookie
    | NotAuthorized
    | Unavailable

  datatype Request =
    | Register(namespace: string, record: Bytes, ttl: Option<u64>)
    | Unregister(namespace: string)
    | Discover(wanted: Option<string>, cookie: Option<Bytes>, limit: Option<u64>)

  datatype WireRegistration = WireRegistration(namespace: string, record: Bytes, ttl: nat)

  datatype Page = Page(registrations: seq<WireRegistration>, cookie: Bytes)

  datatype Response = ToRegister(ttl: Result<nat, Status>) | ToDiscover(page: Result<Page, Status>)

  datatype Notice = Registered | Unregistered | Served(count: nat) | Rejected

  datatype Reply = Reply(response: Option<Response>, notice: Notice)

  datatype StoreView = StoreView(
    limits: Limits, regs: map<Key, Registration>, cookies: map<Bytes, Cookie>, order: seq<Bytes>,
    rates: map<PeerId, RateState>, nextRegistration: nat, nextCookie: nat)

  /**
   What remains of `validate_record` after the length check: signature, identity and
   address checks of foreign code, as the status they end in.
   */
  type RecordCheck = (PeerId, Bytes) -> Option<Status>

  // ---------------------------------------------------------------- pure parts

  predicate IsLowerHex(c: char) {
    '0' <= c <= '9' || 'a' <= c <= 'f'
  }

  predicate ValidNamespace(ns: string) {
    && |ns| == NAMESPACE_LENGTH
    && NAMESPACE_PREFIX <= ns
    && forall i :: |NAMESPACE_PREFIX| <= i < |ns| ==> IsLowerHex(ns[i])
  }

  /** `counter.wrapping_add(1).max(1)` on 64 bits */
  function Next(counter: nat): nat {
    if counter + 1 == U64_END then 1 else counter + 1
  }

  function CookieBytes(id: nat, ns: string): Bytes {
    BigEndian(8, id) + Ascii(ns)
  }

  function LiveIds(regs: map<Key, Registration>, ns: string): set<nat> {
    set k | k in regs && k.1 == ns :: regs[k].id
  }

  function PeerKeys(keys: set<Key>, peer: PeerId): set<Key> {
    set k | k in keys && k.0 == peer
  }

  function NamespaceKeys(keys: set<Key>, ns: string): set<Key> {
    set k | k in keys && k.1 == ns
  }

  /** `order.retain(|cookie| cookies.contains_key(cookie))` */
  function Retained(order: seq<Bytes>, keep: set<Bytes>): seq<Bytes> {
    if order == [] then [] else
    var n := |order| - 1;
    Retained(order[..n], keep) + if order[n] in keep then [order[n]] else []
  }

  predicate IsLeast(m: nat, ids: set<nat>) {
    m in ids && forall x :: x in ids ==> m <= x
  }

  lemma {:induction false} LeastExists(ids: set<nat>)
    requires ids != {}
    ensures exists m :: IsLeast(m, ids)
    decreases |ids|
  {
    var y :| y in ids;
    if z :| z in ids && z != y {
      assert z in ids - {y};
      LeastExists(ids - {y});
      var m :| IsLeast(m, ids - {y});
      var least := if m <= y then m else y;
      forall x | x in ids ensures least <= x {
        assert x == y || x in ids - {y};
      }
      assert IsLeast(least, ids);
    } else {
      assert IsLeast(y, ids);
    }
  }

  function Least(ids: set<nat>): (m: nat)
    requires ids != {}
    ensures IsLeast(m, ids)
  {
    LeastExists(ids);
    var m :| IsLeast(m, ids);
    m
  }

  /** The elements of a finite set of ids in increasing order. */
  function Sorted(ids: set<nat>): (s: seq<nat>)
    ensures |s| == |ids|
    decreases |ids|
  {
    if ids == {} then [] else [Least(ids)] + Sorted(ids - {Least(ids)})
  }

  function Truncated(s: seq<nat>, n: nat): seq<nat> {
    if |s| <= n then s else s[..n]
  }

  // ------------------------------------------------------------- specification

  /** `remove_from_cookies` for a set of ids: every cookie left with nothing seen goes. */
  function Forget(s: StoreView, ids: set<nat>): StoreView {
    if ids == {} then s else
    var cookies := map c | c in s.cookies && s.cookies[c].seen - ids != {}
                         :: s.cookies[c].(seen := s.cookies[c].seen - ids);
    s.(cookies := cookies, order := Retained(s.order, cookies.Keys))
  }

  function ExpiredKeys(s: StoreView, now: int): set<Key> {
    set k | k in s.regs && s.regs[k].expiresAt <= now
  }

  function IdsOf(regs: map<Key, Registration>, keys: set<Key>): set<nat> {
    set k | k in keys && k in regs :: regs[k].id
  }

  /** Registrations gone, and their ids gone from every cookie. */
  function Dropped(s: StoreView, keys: set<Key>): StoreView {
    Forget(s.(regs := s.regs - keys), IdsOf(s.regs, keys))
  }

  /** `Store::expire` */
  function Swept(s: StoreView, now: int): StoreView {
    Dropped(s, ExpiredKeys(s, now))
  }

  datatype Operation = RegisterOp | UnregisterOp | DiscoverOp

  function OperationOf(r: Request): Operation {
    match r
    case Register(_, _, _) => RegisterOp
    case Unregister(_) => UnregisterOp
    case Discover(_, _, _) => DiscoverOp
  }

  function LiveRates(rates: map<PeerId, RateState>, now: int): map<PeerId, RateState> {
    map p | p in rates && Elapsed(rates[p].started, now) < WINDOW :: rates[p]
  }

  /** One more operation of a peer, if its class is below its rate. */
  function Counted(l: Limits, state: RateState, op: Operation): Option<RateState> {
    if op.DiscoverOp? then
      if state.discoveries < l.discoverRate then Some(state.(discoveries := state.discoveries + 1)) else None
    else
      if state.registrations < l.registerRate then Some(state.(registrations := state.registrations + 1)) else None
  }

  function AdmitRates(l: Limits, rates: map<PeerId, RateState>, peer: PeerId, op: Operation, now: int)
    : (map<PeerId, RateState>, bool)
  {
    var live := LiveRates(rates, now);
    if peer !in live && |live| >= l.ratePeers then (live, false) else
    var state := if peer in live then live[peer] else RateState(now, 0, 0);
    match Counted(l, state, op)
    case Some(counted) => (live[peer := counted], true)
    case None => (live[peer := state], false)
  }

  /** `Store::admit` */
  function Admit(s: StoreView, peer: PeerId, op: Operation, now: int): (StoreView, bool) {
    var (rates, admitted) := AdmitRates(s.limits, s.rates, peer, op, now);
    (s.(rates := rates), admitted)
  }

  function RateLimited(op: Operation): Reply {
    match op
    case RegisterOp => Reply(Some(ToRegister(Err(Unavailable))), Rejected)
    case UnregisterOp => Reply(None, Rejected)
    case DiscoverOp => Reply(Some(ToDiscover(Err(Unavailable))), Rejected)
  }

  function RecordStatus(check: RecordCheck, l: Limits, peer: PeerId, record: Bytes): Option<Status> {
    if |record| > l.recordBytes then Some(InvalidSignedPeerRecord) else check(peer, record)
  }

  predicate Full(s: StoreView, peer: PeerId, ns: string) {
    || |s.regs| >= s.limits.total
    || |PeerKeys(s.regs.Keys, peer)| >= s.limits.perPeer
    || |NamespaceKeys(s.regs.Keys, ns)| >= s.limits.perNamespace
  }

  /** The store once a registration has passed every check. */
  function Stored(s: StoreView, key: Key, record: Bytes, ttl: nat, now: int): StoreView {
    var t := if key in s.regs then Dropped(s, {key}) else s;
    t.(regs := t.regs[key := Registration(s.nextRegistration, record, ttl, now + ttl * SECOND)],
       nextRegistration := Next(s.nextRegistration))
  }

  function RegisterRefusal(check: RecordCheck, s: StoreView, peer: PeerId, ns: string, record: Bytes,
                           ttl: nat): Option<Status> {
    if !ValidNamespace(ns) then Some(InvalidNamespace)
    else if !(s.limits.minTtl <= ttl <= s.limits.maxTtl) then Some(InvalidTtl)
    else if RecordStatus(check, s.limits, peer, record).Some? then RecordStatus(check, s.limits, peer, record)
    else if (peer, ns) !in s.regs && Full(s, peer, ns) then Some(Unavailable)
    else None
  }

  function Lifetime(l: Limits, ttl: Option<u64>): nat {
    if ttl.Some? then ttl.value else l.maxTtl
  }

  /** `Store::register` */
  function Enrolled(check: RecordCheck, s: StoreView, peer: PeerId, ns: string, record: Bytes, ttl: nat,
                    now: int): (StoreView, Reply) {
    match RegisterRefusal(check, s, peer, ns, record, ttl)
    case Some(status) => (s, Reply(Some(ToRegister(Err(status))), Rejected))
    case None => (Stored(s, (peer, ns), record, ttl, now), Reply(Some(ToRegister(Ok(ttl))), Registered))
  }

  /** `Store::unregister` */
  function Withdrawn(s: StoreView, peer: PeerId, ns: string): (StoreView, Reply) {
    if !ValidNamespace(ns) then (s, Reply(None, Rejected))
    else if (peer, ns) in s.regs then (Dropped(s, {(peer, ns)}), Reply(None, Unregistered))
    else (s, Reply(None, Unregistered))
  }

  /** The eviction loop of `Store::insert_cookie` */
  function Evicted(s: StoreView): StoreView
    decreases |s.order|
  {
    if |s.cookies| >= s.limits.cookies && s.order != []
    then Evicted(s.(cookies := s.cookies - {s.order[0]}, order := s.order[1..]))
    else s
  }

  function CookieInserted(s: StoreView, ns: string, seen: set<nat>): StoreView {
    var t, cookie := Evicted(s), CookieBytes(s.nextCookie, ns);
    t.(cookies := t.cookies[cookie := Cookie(ns, seen)], order := t.order + [cookie], nextCookie := Next(s.nextCookie))
  }

  function Requested(l: Limits, limit: Option<u64>): nat {
    if limit.Some? && limit.value < l.results then limit.value else l.results
  }

  /** The ids a page delivers: the least ones the cookie has not seen. */
  function PageIds(s: StoreView, ns: string, seen: set<nat>, requested: nat): seq<nat> {
    Truncated(Sorted(LiveIds(s.regs, ns) - seen), requested)
  }

  function OnWire(k: Key, r: Registration): WireRegistration {
    WireRegistration(k.1, r.record, r.ttl)
  }

  function SeenBy(s: StoreView, ns: string, cookie: Option<Bytes>): Option<set<nat>> {
    if cookie.None? then Some({})
    else if cookie.value in s.cookies && s.cookies[cookie.value].namespace == ns then Some(s.cookies[cookie.value].seen)
    else None
  }

  predicate Shows(s: StoreView, id: nat, w: WireRegistration) {
    exists k :: k in s.regs && s.regs[k].id == id && w == OnWire(k, s.regs[k])
  }

  /** The wire form of a page is determined by its ids. */
  predicate PageShows(s: StoreView, ids: seq<nat>, page: seq<WireRegistration>) {
    && |page| == |ids|
    && forall i :: 0 <= i < |ids| ==> Shows(s, ids[i], page[i])
  }

  datatype Query = Query(namespace: string, seen: set<nat>, requested: nat)

  /** What a discover request asks of the store, or why it is refused. */
  function Asked(s: StoreView, r: Request): Result<Query, Status>
    requires r.Discover?
  {
    if r.wanted.None? || !ValidNamespace(r.wanted.value) then Err(InvalidNamespace) else
    match SeenBy(s, r.wanted.value, r.cookie)
    case None => Err(InvalidCookie)
    case Some(seen) => Ok(Query(r.wanted.value, seen, Requested(s.limits, r.limit)))
  }

  function Delivers(s: StoreView, q: Query): seq<nat> {
    PageIds(s, q.namespace, q.seen, q.requested)
  }

  function SetOf(ids: seq<nat>): set<nat> {
    set x | x in ids
  }

  /** The store after serving a query. */
  function Answered(s: StoreView, q: Query): StoreView {
    CookieInserted(s, q.namespace, q.seen + SetOf(Delivers(s, q)))
  }

  /** `Store::handle` */
  function Handled(check: RecordCheck, s: StoreView, peer: PeerId, r: Request, now: int): StoreView {
    var (t, admitted) := Admit(s, peer, OperationOf(r), now);
    if !admitted then t else
    match r
    case Register(ns, record, ttl) => Enrolled(check, t, peer, ns, record, Lifetime(t.limits, ttl), now).0
    case Unregister(ns) => Withdrawn(t, peer, ns).0
    case Discover(_, _, _) => if Asked(t, r).Ok? then Answered(t, Asked(t, r).value) else t
  }

  /** The reply to a discover request that has been admitted. */
  predicate Finds(s: StoreView, r: Request, reply: Reply)
    requires r.Discover?
  {
    match Asked(s, r)
    case Err(status) => reply == Reply(Some(ToDiscover(Err(status))), Rejected)
    case Ok(q) =>
      && reply.response.Some? && reply.response.value.ToDiscover? && reply.response.value.page.Ok?
      && reply.response.value.page.value.cookie == CookieBytes(s.nextCookie, q.namespace)
      && PageShows(s, Delivers(s, q), reply.response.value.page.value.registrations)
      && reply.notice == Served(|reply.response.value.page.value.registrations|)
  }

  /** The replies `Store::handle` may give: only the wire form of a page is left to `PageShows`. */
  predicate Replies(check: RecordCheck, s: StoreView, peer: PeerId, r: Request, now: int, reply: Reply) {
    var (t, admitted) := Admit(s, peer, OperationOf(r), now);
    if !admitted then reply == RateLimited(OperationOf(r)) else
    match r
    case Register(ns, record, ttl) => reply == Enrolled(check, t, peer, ns, record, Lifetime(t.limits, ttl), now).1
    case Unregister(ns) => reply == Withdrawn(t, peer, ns).1
    case Discover(_, _, _) => Finds(t, r, reply)
  }

  /** The query a call serves, if it serves one. */
  function Serves(s: StoreView, peer: PeerId, r: Request, now: int): Option<Query> {
    var (t, admitted) := Admit(s, peer, OperationOf(r), now);
    if admitted && r.Discover? && Asked(t, r).Ok? then Some(Asked(t, r).value) else None
  }
}
