/** Connection admission per source address, before any cryptography. */
module Admission {
  import opened Basics
  import opened RateWindow
  import opened Addresses

  type ConnectionId = nat

  /** What admission keeps: the configured limits, the connections counted and the rate buckets. */
  datatype View = View(
    perIp: nat, attempts: nat, maxRateIps: nat,
    pending: map<ConnectionId, IpAddr>, established: map<ConnectionId, IpAddr>, rate: map<IpAddr, Window>)

  function From(held: map<ConnectionId, IpAddr>, ip: IpAddr): set<ConnectionId> {
    set id | id in held && held[id] == ip
  }

  function CountOf(held: map<ConnectionId, IpAddr>, ip: IpAddr): nat {
    |From(held, ip)|
  }

  /** Pending and established connections of one address. */
  function Connections(v: View, ip: IpAddr): nat {
    CountOf(v.pending, ip) + CountOf(v.established, ip)
  }

  function SourceIp(address: Multiaddr): Option<IpAddr> {
    if address == [] then None
    else if IpOf(address[0]).Some? then IpOf(address[0])
    else SourceIp(address[1..])
  }

  function LiveBuckets(rate: map<IpAddr, Window>, now: int): map<IpAddr, Window> {
    map ip | ip in rate && Elapsed(rate[ip].started, now) < WINDOW :: rate[ip]
  }

  /** Buckets are evicted only to make room for a new address. */
  function Cleared(v: View, ip: IpAddr, now: int): map<IpAddr, Window> {
    if ip !in v.rate && |v.rate| == v.maxRateIps then LiveBuckets(v.rate, now) else v.rate
  }

  function BucketFor(rate: map<IpAddr, Window>, ip: IpAddr, now: int): Window {
    if ip in rate && Elapsed(rate[ip].started, now) < WINDOW then rate[ip] else Window(now, 0)
  }

  /** `Behaviour::admit` */
  function Admitting(v: View, id: ConnectionId, address: Multiaddr, now: int): (View, bool) {
    if SourceIp(address).None? then (v, false) else
    var ip := SourceIp(address).value;
    if Connections(v, ip) >= v.perIp then (v, false) else
    var rate := Cleared(v, ip, now);
    if ip !in v.rate && |v.rate| == v.maxRateIps && |rate| == v.maxRateIps then (v.(rate := rate), false) else
    var bucket := BucketFor(rate, ip, now);
    if bucket.count >= v.attempts then (v.(rate := rate[ip := bucket]), false)
    else (v.(rate := rate[ip := bucket.(count := bucket.count + 1)], pending := v.pending[id := ip]), true)
  }

  /** `Behaviour::release` */
  function Released(v: View, id: ConnectionId): View {
    v.(pending := v.pending - {id}, established := v.established - {id})
  }

  function Promoted(v: View, id: ConnectionId): View {
    if id in v.pending then v.(pending := v.pending - {id}, established := v.established[id := v.pending[id]]) else v
  }

  // ------------------------------------------------------------------ behaviour

  class Behaviour {
    const perIp: nat
    const attempts: nat
    const maxRateIps: nat
    var pending: map<ConnectionId, IpAddr>
    var established: map<ConnectionId, IpAddr>
    var rate: map<IpAddr, Window>

    ghost function State(): View
      reads this
    {
      View(perIp, attempts, maxRateIps, pending, established, rate)
    }

    constructor (perIp: nat, attempts: nat, maxRateIps: nat)
      ensures State() == Initial(perIp, attempts, maxRateIps)
    {
      this.perIp, this.attempts, this.maxRateIps := perIp, attempts, maxRateIps;
      pending, established, rate := map[], map[], map[];
    }

    method Admit(id: ConnectionId, address: Multiaddr, now: int) returns (ok: bool)
      modifies this
      ensures (State(), ok) == Admitting(old(State()), id, address, now)
    {
      hide From, CountOf, SourceIp;
      var source := FindIp(address);
      if source.None? { return false; }
      var ip := source.value;
      if CountOf(pending, ip) + CountOf(established, ip) >= perIp { return false; }
      if ip !in rate && |rate| == maxRateIps {
        rate := map other | other in rate && Elapsed(rate[other].started, now) < WINDOW :: rate[other];
        if |rate| == maxRateIps { return false; }
      }
      ghost var cleared := rate;
      if ip !in rate { rate := rate[ip := Window(now, 0)]; }
      if Elapsed(rate[ip].started, now) >= WINDOW { rate := rate[ip := Window(now, 0)]; }
      var bucket := rate[ip];
      assert rate == cleared[ip := bucket];
      if bucket.count >= attempts { return false; }
      rate := rate[ip := bucket.(count := bucket.count + 1)];
      assert rate == cleared[ip := rate[ip]];
      pending := pending[id := ip];
      ok := true;
    }

    method Release(id: ConnectionId)
      modifies this
      ensures State() == Released(old(State()), id)
    {
      pending := pending - {id};
      established := established - {id};
    }

    method OnEstablished(id: ConnectionId)
      modifies this
      ensures State() == Promoted(old(State()), id)
    {
      if id in pending {
        var ip := pending[id];
        pending := pending - {id};
        established := established[id := ip];
      }
    }
  }

  predicate IsFirstIp(address: Multiaddr, i: int) {
    0 <= i < |address| && IpOf(address[i]).Some? && forall j :: 0 <= j < i ==> IpOf(address[j]).None?
  }

  /** `source_ip`: the first address component that is an IP address. */
  method FindIp(address: Multiaddr) returns (ip: Option<IpAddr>)
    ensures ip == SourceIp(address)
    ensures ip.None? <==> forall i :: 0 <= i < |address| ==> IpOf(address[i]).None?
    ensures ip.Some? ==> exists i :: IsFirstIp(address, i) && IpOf(address[i]) == ip
  {
    for i := 0 to |address|
      invariant SourceIp(address) == SourceIp(address[i..])
      invariant forall j :: 0 <= j < i ==> IpOf(address[j]).None?
    {
      if IpOf(address[i]).Some? {
        assert IsFirstIp(address, i);
        return IpOf(address[i]);
      }
    }
    ip := None;
  }

  // ----------------------------------------------------------------------- runs

  /** What the swarm reports; a listen failure releases like a close. */
  datatype Event =
    | Attempt(id: ConnectionId, address: Multiaddr, now: int)
    | Established(id: ConnectionId, now: int)
    | Closed(id: ConnectionId, now: int)

  function Initial(perIp: nat, attempts: nat, maxRateIps: nat): View {
    View(perIp, attempts, maxRateIps, map[], map[], map[])
  }

  function Step(v: View, e: Event): View {
    match e
    case Attempt(id, address, now) => Admitting(v, id, address, now).0
    case Established(id, _) => Promoted(v, id)
    case Closed(id, _) => Released(v, id)
  }

  function After(v: View, run: seq<Event>): View {
    if run == [] then v else Step(After(v, run[..|run| - 1]), run[|run| - 1])
  }

  ghost predicate Bounded(v: View) {
    && (forall ip :: Connections(v, ip) <= v.perIp)
    && |v.rate| <= v.maxRateIps
  }

  lemma CountFewer(a: map<ConnectionId, IpAddr>, b: map<ConnectionId, IpAddr>, ip: IpAddr)
    requires From(a, ip) <= From(b, ip)
    ensures CountOf(a, ip) <= CountOf(b, ip)
  {
    assert From(b, ip) == From(a, ip) + (From(b, ip) - From(a, ip));
  }

  lemma CountInsert(a: map<ConnectionId, IpAddr>, id: ConnectionId, ip: IpAddr, other: IpAddr)
    ensures CountOf(a[id := ip], other) <= CountOf(a, other) + if other == ip then 1 else 0
  {
    var held := From(a, other);
    if other == ip {
      assert From(a[id := ip], other) == held + {id};
    } else {
      assert From(a[id := ip], other) == held - {id};
    }
  }

  lemma CountRemove(a: map<ConnectionId, IpAddr>, id: ConnectionId, ip: IpAddr)
    ensures CountOf(a - {id}, ip) + (if id in a && a[id] == ip then 1 else 0) <= CountOf(a, ip)
  {
    if id in a && a[id] == ip {
      assert From(a, ip) == From(a - {id}, ip) + {id};
    } else {
      CountFewer(a - {id}, a, ip);
    }
  }

  lemma StepConnections(v: View, e: Event, ip: IpAddr)
    requires Connections(v, ip) <= v.perIp
    ensures Connections(Step(v, e), ip) <= v.perIp
  {
    hide CountOf, From;
    match e
    case Attempt(id, address, now) =>
      if SourceIp(address).Some? { CountInsert(v.pending, id, SourceIp(address).value, ip); }
    case Established(id, _) =>
      CountRemove(v.pending, id, ip);
      if id in v.pending { CountInsert(v.established, id, v.pending[id], ip); }
    case Closed(id, _) =>
      CountRemove(v.pending, id, ip);
      CountRemove(v.established, id, ip);
  }

  lemma StepBuckets(v: View, e: Event)
    requires |v.rate| <= v.maxRateIps
    ensures |Step(v, e).rate| <= v.maxRateIps
  {
    hide CountOf;
    if e.Attempt? && SourceIp(e.address).Some? {
      var ip, after := SourceIp(e.address).value, Step(v, e).rate;
      var cleared := Cleared(v, ip, e.now);
      ClearedSize(v, ip, e.now);
      hide Cleared;
      if ip in after { InsertSize(cleared, ip, after[ip]); }
    }
  }

  lemma ClearedSize(v: View, ip: IpAddr, now: int)
    ensures |Cleared(v, ip, now)| <= |v.rate| && (ip in Cleared(v, ip, now) <==> ip in v.rate)
    ensures Cleared(v, ip, now) == v.rate || (ip !in v.rate && |v.rate| == v.maxRateIps)
  {
    var cleared := Cleared(v, ip, now);
    assert v.rate.Keys == cleared.Keys + (v.rate.Keys - cleared.Keys);
    assert |cleared| == |cleared.Keys| && |v.rate| == |v.rate.Keys|;
  }

  lemma InsertSize(rate: map<IpAddr, Window>, ip: IpAddr, bucket: Window)
    ensures |rate[ip := bucket]| == |rate| + if ip in rate then 0 else 1
  {
    assert rate[ip := bucket].Keys == rate.Keys + {ip};
    assert |rate[ip := bucket]| == |rate[ip := bucket].Keys| && |rate| == |rate.Keys|;
  }

  /** No event takes an address over its connection limit, nor the bucket map over its cap. */
  lemma StepKeepsBounds(v: View, e: Event)
    requires Bounded(v)
    ensures Bounded(Step(v, e)) && Step(v, e).perIp == v.perIp
    ensures Step(v, e).attempts == v.attempts && Step(v, e).maxRateIps == v.maxRateIps
  {
    forall ip ensures Connections(Step(v, e), ip) <= v.perIp {
      StepConnections(v, e, ip);
    }
    StepBuckets(v, e);
  }

  /** In every reachable state each address is within its limit and the bucket map within its cap. */
  lemma {:induction false} ReachableBounded(perIp: nat, attempts: nat, maxRateIps: nat, run: seq<Event>)
    ensures Bounded(After(Initial(perIp, attempts, maxRateIps), run))
    ensures var v := After(Initial(perIp, attempts, maxRateIps), run);
            v.perIp == perIp && v.attempts == attempts && v.maxRateIps == maxRateIps
  {
    if run == [] {
      NoConnections(perIp, attempts, maxRateIps);
    } else {
      ReachableBounded(perIp, attempts, maxRateIps, run[..|run| - 1]);
      StepKeepsBounds(After(Initial(perIp, attempts, maxRateIps), run[..|run| - 1]), run[|run| - 1]);
    }
  }

  lemma NoConnections(perIp: nat, attempts: nat, maxRateIps: nat)
    ensures forall ip :: Connections(Initial(perIp, attempts, maxRateIps), ip) == 0
  {
    var none: map<ConnectionId, IpAddr> := map[];
    forall ip ensures CountOf(none, ip) == 0 {
      assert From(none, ip) == {};
    }
  }
}
