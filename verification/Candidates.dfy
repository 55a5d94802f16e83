/** The bounded set of routes that discovery results are merged into. */
module Candidates {
  import opened Basics
  import opened Addresses

  datatype RouteKind = PublicQuic | PublicTcp | Lan | Relay

  datatype Policy = Policy(maxPeers: nat, maxAddresses: nat, allowLan: bool, relayOnly: bool)

  datatype Route = Route(peer: PeerId, address: Multiaddr, kind: RouteKind)

  /** Private, loopback, link-local, unspecified and multicast addresses. */
  type LocalCheck = IpAddr -> bool

  // ------------------------------------------------------------- classification

  predicate Has(address: Multiaddr, p: Protocol) {
    p in address
  }

  predicate HasUnroutable(address: Multiaddr) {
    exists i :: 0 <= i < |address| && address[i].Unroutable?
  }

  predicate HasTcp(address: Multiaddr) {
    exists i :: 0 <= i < |address| && address[i].Tcp?
  }

  predicate IsLocal(local: LocalCheck, address: Multiaddr) {
    exists i :: 0 <= i < |address| && IpOf(address[i]).Some? && local(IpOf(address[i]).value)
  }

  /** The first peer named in a suffix. */
  function FirstPeer(address: Multiaddr): Option<PeerId> {
    if address == [] then None
    else if address[0].P2p? then Some(address[0].peer)
    else FirstPeer(address[1..])
  }

  function LastPeer(address: Multiaddr): Option<PeerId> {
    if address == [] then None
    else if address[|address| - 1].P2p? then Some(address[|address| - 1].peer)
    else LastPeer(address[..|address| - 1])
  }

  function AfterCircuit(address: Multiaddr): Multiaddr
    requires P2pCircuit in address
  {
    if address[0].P2pCircuit? then address[1..] else AfterCircuit(address[1..])
  }

  /** `classify_address` */
  function Classify(local: LocalCheck, policy: Policy, peer: PeerId, address: Multiaddr): Option<RouteKind> {
    if address == [] || HasUnroutable(address) then None
    else if Has(address, P2pCircuit) then
      var named := FirstPeer(AfterCircuit(address));
      if named.Some? && named.value != peer then None else Some(Relay)
    else if LastPeer(address).Some? && LastPeer(address).value != peer then None
    else if policy.relayOnly then None
    else if IsLocal(local, address) then if policy.allowLan then Some(Lan) else None
    else if Has(address, QuicV1) || Has(address, Quic) then Some(PublicQuic)
    else if HasTcp(address) then Some(PublicTcp)
    else None
  }

  predicate IsFirstCircuit(address: Multiaddr, c: int) {
    0 <= c < |address| && address[c].P2pCircuit? && forall j :: 0 <= j < c ==> !address[j].P2pCircuit?
  }

  /** The first peer named after position `c`, if any, is the one expected. */
  predicate FirstNamed(address: Multiaddr, c: int, peer: PeerId) {
    forall i :: 0 <= i < |address| && c < i && address[i].P2p? && NoneNamed(address, c, i) ==> address[i].peer == peer
  }

  /** The last peer named, if any, is the one expected. */
  predicate LastNamed(address: Multiaddr, peer: PeerId) {
    forall i :: 0 <= i < |address| && address[i].P2p? && NoneNamed(address, i, |address|) ==> address[i].peer == peer
  }

  /** No peer is named strictly between two positions. */
  predicate NoneNamed(address: Multiaddr, after: int, before: int) {
    forall j :: 0 <= j < |address| && after < j < before ==> !address[j].P2p?
  }

  lemma {:induction false} FirstPeerNamed(address: Multiaddr, c: int, peer: PeerId)
    requires -1 <= c < |address|
    ensures FirstPeer(address[c + 1..]) in {None, Some(peer)} <==> FirstNamed(address, c, peer)
    decreases |address| - c
  {
    var next := c + 1;
    if next < |address| {
      assert address[next..][1..] == address[next + 1..];
      FirstPeerNamed(address, next, peer);
      if address[next].P2p? {
        assert NoneNamed(address, c, next);
        assert forall i :: next < i <= |address| ==> !NoneNamed(address, c, i);
      } else {
        assert forall i :: NoneNamed(address, c, i) <==> NoneNamed(address, next, i);
      }
    }
  }

  lemma {:induction false} LastPeerNamed(address: Multiaddr, n: nat, peer: PeerId)
    requires n <= |address| && forall j :: n <= j < |address| ==> !address[j].P2p?
    ensures LastPeer(address[..n]) in {None, Some(peer)} <==> LastNamed(address, peer)
  {
    if n > 0 {
      var last := n - 1;
      assert address[..n][..last] == address[..last];
      if address[last].P2p? {
        assert NoneNamed(address, last, |address|);
        assert forall i :: 0 <= i < last ==> !NoneNamed(address, i, |address|);
      } else {
        LastPeerNamed(address, last, peer);
      }
    }
  }

  lemma {:induction false} AfterFirstCircuit(address: Multiaddr) returns (c: nat)
    requires P2pCircuit in address
    ensures IsFirstCircuit(address, c) && AfterCircuit(address) == address[c + 1..]
  {
    if address[0].P2pCircuit? {
      c := 0;
    } else {
      assert address == [address[0]] + address[1..];
      var d := AfterFirstCircuit(address[1..]);
      c := d + 1;
      assert address[1..][d + 1..] == address[c + 1..];
      assert forall j :: 1 <= j < c ==> address[j] == address[1..][j - 1];
    }
  }

  /** There is a circuit, and the first peer named after the first one is the one expected. */
  ghost predicate CircuitTo(address: Multiaddr, peer: PeerId) {
    exists c :: IsFirstCircuit(address, c) && FirstNamed(address, c, peer)
  }

  /** An address that a direct route may use: routable, not for another peer, and no circuit. */
  predicate Direct(address: Multiaddr, peer: PeerId) {
    address != [] && !HasUnroutable(address) && P2pCircuit !in address && LastNamed(address, peer)
  }

  /**
   Exactly which addresses get which class.  A circuit counts if the first peer named
   after it is the expected one, whatever the policy; a direct route needs a policy that
   allows direct routes, and a local one consent to the LAN; QUIC goes before TCP.
   */
  lemma ClassifyExactly(local: LocalCheck, policy: Policy, peer: PeerId, address: Multiaddr)
    ensures var kind, open := Classify(local, policy, peer, address), Direct(address, peer) && !policy.relayOnly;
            var quic := QuicV1 in address || Quic in address;
            && (kind == Some(Relay) <==> !HasUnroutable(address) && CircuitTo(address, peer))
            && (kind == Some(Lan) <==> open && policy.allowLan && IsLocal(local, address))
            && (kind == Some(PublicQuic) <==> open && !IsLocal(local, address) && quic)
            && (kind == Some(PublicTcp) <==> open && !IsLocal(local, address) && !quic && HasTcp(address))
  {
    hide IsLocal, LastNamed, FirstPeer, LastPeer, AfterCircuit, HasTcp, CircuitTo, HasUnroutable;
    if P2pCircuit in address {
      CircuitNames(address, peer);
    } else {
      NoCircuit(address, peer);
      assert address[..|address|] == address;
      LastPeerNamed(address, |address|, peer);
    }
  }

  lemma CircuitNames(address: Multiaddr, peer: PeerId)
    requires P2pCircuit in address
    ensures FirstPeer(AfterCircuit(address)) in {None, Some(peer)} <==> CircuitTo(address, peer)
  {
    hide FirstNamed, FirstPeer, AfterCircuit;
    var c := AfterFirstCircuit(address);
    FirstPeerNamed(address, c, peer);
    if CircuitTo(address, peer) {
      var d :| IsFirstCircuit(address, d) && FirstNamed(address, d, peer);
      assert d == c;
    } else {
      assert !(IsFirstCircuit(address, c) && FirstNamed(address, c, peer));
    }
  }

  lemma NoCircuit(address: Multiaddr, peer: PeerId)
    requires P2pCircuit !in address
    ensures !CircuitTo(address, peer)
  {
    assert forall c :: !IsFirstCircuit(address, c);
  }

  // -------------------------------------------------------------- specification

  datatype View = View(routes: map<PeerId, seq<Route>>, seen: set<(PeerId, Multiaddr)>)

  predicate FullFor(policy: Policy, v: View, peer: PeerId) {
    peer in v.routes && |v.routes[peer]| == policy.maxAddresses
  }

  function RoutesOf(v: View, peer: PeerId): seq<Route> {
    if peer in v.routes then v.routes[peer] else []
  }

  function InsertOne(local: LocalCheck, policy: Policy, v: View, peer: PeerId, address: Multiaddr): View {
    var kind := Classify(local, policy, peer, address);
    if kind.None? || (peer, address) in v.seen then v else
    View(v.routes[peer := RoutesOf(v, peer) + [Route(peer, address, kind.value)]], v.seen + {(peer, address)})
  }

  function InsertEach(local: LocalCheck, policy: Policy, v: View, peer: PeerId, addresses: seq<Multiaddr>): View
    decreases |addresses|
  {
    if addresses == [] || FullFor(policy, v, peer) then v
    else InsertEach(local, policy, InsertOne(local, policy, v, peer, addresses[0]), peer, addresses[1..])
  }

  function Taken(policy: Policy, addresses: seq<Multiaddr>): seq<Multiaddr> {
    if |addresses| <= policy.maxAddresses then addresses else addresses[..policy.maxAddresses]
  }

  predicate Refused(policy: Policy, v: View, peer: PeerId) {
    peer !in v.routes && |v.routes| == policy.maxPeers
  }

  /** `CandidateSet::insert` */
  function Inserted(local: LocalCheck, policy: Policy, v: View, peer: PeerId, addresses: seq<Multiaddr>): View {
    if Refused(policy, v, peer) then v else InsertEach(local, policy, v, peer, Taken(policy, addresses))
  }

  // ------------------------------------------------------------------ invariant

  predicate Holds(v: View, peer: PeerId, address: Multiaddr) {
    exists i :: 0 <= i < |RoutesOf(v, peer)| && RoutesOf(v, peer)[i].address == address
  }

  ghost predicate PeerOk(local: LocalCheck, policy: Policy, peer: PeerId, routes: seq<Route>) {
    && 1 <= |routes| <= policy.maxAddresses
    && (forall i :: 0 <= i < |routes| ==> routes[i].peer == peer)
    && (forall i :: 0 <= i < |routes| ==> Classify(local, policy, peer, routes[i].address) == Some(routes[i].kind))
    && (forall i, j :: 0 <= i < j < |routes| ==> routes[i].address != routes[j].address)
  }

  /** Bounded peers, bounded distinct classified routes, and `seen` exactly the stored pairs. */
  ghost predicate CandidatesOk(local: LocalCheck, policy: Policy, v: View) {
    && |v.routes| <= policy.maxPeers
    && (forall p :: p in v.routes ==> PeerOk(local, policy, p, v.routes[p]))
    && (forall p: PeerId, a: Multiaddr :: (p, a) in v.seen <==> Holds(v, p, a))
  }

  lemma InsertOneKeeps(local: LocalCheck, policy: Policy, v: View, peer: PeerId, address: Multiaddr)
    requires CandidatesOk(local, policy, v) && policy.maxAddresses > 0
    requires !FullFor(policy, v, peer) && !Refused(policy, v, peer)
    ensures var w := InsertOne(local, policy, v, peer, address);
            && CandidatesOk(local, policy, w) && !Refused(policy, w, peer)
            && Grown(v, w, peer)
            && (Classify(local, policy, peer, address).Some? ==> (peer, address) in w.seen)
  {
    hide Classify, PeerOk, Holds;
    var w := InsertOne(local, policy, v, peer, address);
    if w != v {
      OneMoreRoute(local, policy, v, peer, address);
      assert w.routes.Keys == v.routes.Keys + {peer};
      assert |w.routes| == |w.routes.Keys| && |v.routes| == |v.routes.Keys|;
      forall p: PeerId, a: Multiaddr ensures (p, a) in w.seen <==> Holds(w, p, a) {
        StillHolds(v, w, peer, address, p, a);
      }
    }
  }

  lemma OneMoreRoute(local: LocalCheck, policy: Policy, v: View, peer: PeerId, address: Multiaddr)
    requires !FullFor(policy, v, peer) && (peer in v.routes ==> PeerOk(local, policy, peer, v.routes[peer]))
    requires policy.maxAddresses > 0 && Classify(local, policy, peer, address).Some? && !Holds(v, peer, address)
    ensures var kind := Classify(local, policy, peer, address).value;
            PeerOk(local, policy, peer, RoutesOf(v, peer) + [Route(peer, address, kind)])
  {
    hide Classify;
    var before := RoutesOf(v, peer);
    forall i | 0 <= i < |before| ensures before[i].address != address {
      assert Holds(v, peer, before[i].address);
    }
  }

  /** What a growing set keeps: other peers alone, and the peer's own routes first. */
  ghost predicate Grown(v: View, w: View, peer: PeerId) {
    && (forall p :: p != peer ==> RoutesOf(w, p) == RoutesOf(v, p))
    && RoutesOf(v, peer) <= RoutesOf(w, peer)
    && v.seen <= w.seen
  }

  lemma StillHolds(v: View, w: View, peer: PeerId, address: Multiaddr, p: PeerId, a: Multiaddr)
    requires |RoutesOf(w, peer)| == |RoutesOf(v, peer)| + 1 && RoutesOf(v, peer) <= RoutesOf(w, peer)
    requires RoutesOf(w, peer)[|RoutesOf(v, peer)|].address == address
    requires p != peer ==> RoutesOf(w, p) == RoutesOf(v, p)
    ensures Holds(w, p, a) <==> Holds(v, p, a) || (p == peer && a == address)
  {
    if Holds(v, p, a) {
      var i :| 0 <= i < |RoutesOf(v, p)| && RoutesOf(v, p)[i].address == a;
      assert RoutesOf(w, p)[i].address == a;
    }
  }

  /**
   Merging a record keeps every bound, disturbs no stored route, and drops an acceptable
   address only for lack of room.
   */
  lemma {:induction false} InsertEachKeeps(local: LocalCheck, policy: Policy, v: View, peer: PeerId,
                                           addresses: seq<Multiaddr>)
    requires CandidatesOk(local, policy, v) && !Refused(policy, v, peer) && policy.maxAddresses > 0
    ensures var w := InsertEach(local, policy, v, peer, addresses);
            && CandidatesOk(local, policy, w)
            && Grown(v, w, peer)
            && (forall i :: 0 <= i < |addresses| && Classify(local, policy, peer, addresses[i]).Some?
                  ==> (peer, addresses[i]) in w.seen || FullFor(policy, w, peer))
    decreases |addresses|
  {
    hide CandidatesOk, Classify;
    if addresses != [] && !FullFor(policy, v, peer) {
      var u := InsertOne(local, policy, v, peer, addresses[0]);
      InsertOneKeeps(local, policy, v, peer, addresses[0]);
      hide InsertOne;
      InsertEachKeeps(local, policy, u, peer, addresses[1..]);
      assert forall i :: 1 <= i < |addresses| ==> addresses[i] == addresses[1..][i - 1];
    }
  }

  predicate ValidPolicy(policy: Policy) {
    0 < policy.maxPeers <= 256 && 0 < policy.maxAddresses <= 16
  }

  // ------------------------------------------------------------------------ set

  datatype Discovered = Discovered(peer: PeerId, addresses: seq<Multiaddr>)

  class CandidateSet {
    const local: LocalCheck
    const policy: Policy
    var routes: map<PeerId, seq<Route>>
    var seen: set<(PeerId, Multiaddr)>

    ghost function State(): View
      reads this
    {
      View(routes, seen)
    }

    ghost predicate Valid()
      reads this
    {
      ValidPolicy(policy) && CandidatesOk(local, policy, State())
    }

    constructor (local: LocalCheck, policy: Policy)
      requires ValidPolicy(policy)
      ensures Valid() && this.policy == policy && this.local == local && State() == View(map[], {})
    {
      this.local, this.policy := local, policy;
      routes, seen := map[], {};
    }

    method Insert(discovered: Discovered)
      requires Valid()
      modifies this
      ensures Valid()
      ensures State() == Inserted(local, policy, old(State()), discovered.peer, discovered.addresses)
    {
      var peer := discovered.peer;
      if peer !in routes && |routes| == policy.maxPeers { return; }
      var taken := if |discovered.addresses| <= policy.maxAddresses then discovered.addresses
                   else discovered.addresses[..policy.maxAddresses];
      hide Classify, CandidatesOk, InsertEach, Grown;
      InsertEachKeeps(local, policy, State(), peer, taken);
      InsertTaken(peer, taken);
    }

    /** The loop of `insert`, over the addresses that are considered. */
    method InsertTaken(peer: PeerId, taken: seq<Multiaddr>)
      modifies this
      ensures State() == InsertEach(local, policy, old(State()), peer, taken)
    {
      hide InsertEach, InsertOne;
      ghost var goal := InsertEach(local, policy, State(), peer, taken);
      var i := 0;
      assert taken[0..] == taken;
      while i < |taken|
        invariant 0 <= i <= |taken|
        invariant InsertEach(local, policy, State(), peer, taken[i..]) == goal
      {
        InsertEachStep(local, policy, State(), peer, taken, i);
        if peer in routes && |routes[peer]| == policy.maxAddresses { break; }
        Merge(peer, taken[i]);
        i := i + 1;
      }
      InsertEachEnds(local, policy, State(), peer, taken[i..]);
    }

    /** The body of the loop: one address that is acceptable and new is appended. */
    method Merge(peer: PeerId, address: Multiaddr)
      modifies this
      ensures State() == InsertOne(local, policy, old(State()), peer, address)
    {
      hide Classify;
      var kind := Classify(local, policy, peer, address);
      if kind.None? { return; }
      if (peer, address) in seen { return; }
      seen := seen + {(peer, address)};
      if peer !in routes { routes := routes[peer := []]; }
      routes := routes[peer := routes[peer] + [Route(peer, address, kind.value)]];
      assert routes == old(routes)[peer := routes[peer]];
    }
  }

  lemma InsertEachStep(local: LocalCheck, policy: Policy, v: View, peer: PeerId, addresses: seq<Multiaddr>, i: nat)
    requires i < |addresses|
    ensures !FullFor(policy, v, peer) ==>
              InsertEach(local, policy, v, peer, addresses[i..])
              == InsertEach(local, policy, InsertOne(local, policy, v, peer, addresses[i]), peer, addresses[i + 1..])
  {
    assert addresses[i..][1..] == addresses[i + 1..];
  }

  lemma InsertEachEnds(local: LocalCheck, policy: Policy, v: View, peer: PeerId, addresses: seq<Multiaddr>)
    ensures addresses == [] || FullFor(policy, v, peer) ==> InsertEach(local, policy, v, peer, addresses) == v
  {
  }

  /** `CandidateSet::new` */
  method NewCandidateSet(local: LocalCheck, policy: Policy) returns (r: Option<CandidateSet>)
    ensures r.Some? <==> ValidPolicy(policy)
    ensures r.Some? ==> fresh(r.value) && r.value.Valid() && r.value.policy == policy
    ensures r.Some? ==> r.value.State() == View(map[], {})
  {
    if policy.maxPeers == 0 || policy.maxPeers > 256 || policy.maxAddresses == 0 || policy.maxAddresses > 16 {
      return None;
    }
    var set_ := new CandidateSet(local, policy);
    r := Some(set_);
  }

  /** After any inserts, a relay-only set holds circuits only. */
  lemma RelayOnlyHoldsRelays(local: LocalCheck, policy: Policy, v: View, peer: PeerId, i: nat)
    requires CandidatesOk(local, policy, v) && policy.relayOnly && peer in v.routes && i < |v.routes[peer]|
    ensures v.routes[peer][i].kind == Relay && P2pCircuit in v.routes[peer][i].address
  {
    assert PeerOk(local, policy, peer, v.routes[peer]);
    ClassifyExactly(local, policy, peer, v.routes[peer][i].address);
  }

  /** Any sequence of inserts from an empty set. */
  function InsertedAll(local: LocalCheck, policy: Policy, records: seq<Discovered>): View {
    if records == [] then View(map[], {}) else
    var last := records[|records| - 1];
    Inserted(local, policy, InsertedAll(local, policy, records[..|records| - 1]), last.peer, last.addresses)
  }

  lemma {:induction false} InsertsKeepBounds(local: LocalCheck, policy: Policy, records: seq<Discovered>)
    requires ValidPolicy(policy)
    ensures CandidatesOk(local, policy, InsertedAll(local, policy, records))
  {
    if records != [] {
      var n := |records| - 1;
      var v := InsertedAll(local, policy, records[..n]);
      InsertsKeepBounds(local, policy, records[..n]);
      if !Refused(policy, v, records[n].peer) {
        InsertEachKeeps(local, policy, v, records[n].peer, Taken(policy, records[n].addresses));
      }
    }
  }

  /** Every stored route was stored before, or comes from the addresses given. */
  lemma {:induction false} InsertEachAdds(local: LocalCheck, policy: Policy, v: View, peer: PeerId,
                                          addresses: seq<Multiaddr>, a: Multiaddr)
    ensures var w := InsertEach(local, policy, v, peer, addresses);
            (peer, a) in w.seen ==> (peer, a) in v.seen || (a in addresses && Classify(local, policy, peer, a).Some?)
    decreases |addresses|
  {
    hide Classify;
    if addresses != [] && !FullFor(policy, v, peer) {
      InsertEachAdds(local, policy, InsertOne(local, policy, v, peer, addresses[0]), peer, addresses[1..], a);
    }
  }

  /**
   What inserting a record does.  A record of a new peer is dropped whole if the set has its
   peers; otherwise, of the first addresses of the record, as many as a peer may have, every
   acceptable one is stored unless the peer's routes are full, and no other one.
   */
  lemma InsertedExactly(local: LocalCheck, policy: Policy, v: View, peer: PeerId, addresses: seq<Multiaddr>)
    requires CandidatesOk(local, policy, v) && ValidPolicy(policy)
    ensures var w := Inserted(local, policy, v, peer, addresses);
            var turnedAway := peer !in v.routes && |v.routes| == policy.maxPeers;
            && CandidatesOk(local, policy, w) && Grown(v, w, peer)
            && (turnedAway ==> w == v)
            && (!turnedAway ==>
                  forall i :: 0 <= i < |addresses| && i < policy.maxAddresses
                              && Classify(local, policy, peer, addresses[i]).Some?
                    ==> (peer, addresses[i]) in w.seen || FullFor(policy, w, peer))
            && (forall a :: (peer, a) in w.seen && (peer, a) !in v.seen ==>
                  exists i :: 0 <= i < |addresses| && i < policy.maxAddresses && addresses[i] == a)
  {
    hide Classify, CandidatesOk, InsertEach;
    var w, taken := Inserted(local, policy, v, peer, addresses), Taken(policy, addresses);
    assert forall i :: 0 <= i < |taken| ==> taken[i] == addresses[i];
    if !Refused(policy, v, peer) {
      InsertEachKeeps(local, policy, v, peer, taken);
      forall a | (peer, a) in w.seen && (peer, a) !in v.seen
        ensures exists i :: 0 <= i < |addresses| && i < policy.maxAddresses && addresses[i] == a
      {
        InsertEachAdds(local, policy, v, peer, taken, a);
        var i :| 0 <= i < |taken| && taken[i] == a;
        assert addresses[i] == a;
      }
    }
  }
}
