/** Best-first dialing order, the same for every order in which the map is drained. */
module Ranking {
  import opened Basics
  import opened Addresses
  import opened Candidates

  /** The byte and text forms that routes are compared by. */
  datatype Naming = Naming(peerBytes: PeerId -> seq<nat>, text: Multiaddr -> seq<nat>)

  /** Different peers have different bytes, different addresses different texts. */
  ghost predicate Distinguishes(n: Naming) {
    && (forall p, q :: n.peerBytes(p) == n.peerBytes(q) ==> p == q)
    && (forall a, b :: n.text(a) == n.text(b) ==> a == b)
  }

  // ------------------------------------------------------------------ the order

  predicate LexLess(a: seq<nat>, b: seq<nat>) {
    b != [] && (a == [] || a[0] < b[0] || (a[0] == b[0] && LexLess(a[1..], b[1..])))
  }

  lemma {:induction false} LexTotal(a: seq<nat>, b: seq<nat>)
    ensures a == b || LexLess(a, b) || LexLess(b, a)
    ensures !(LexLess(a, b) && LexLess(b, a))
  {
    if a != [] && b != [] {
      LexTotal(a[1..], b[1..]);
      assert a == [a[0]] + a[1..] && b == [b[0]] + b[1..];
    }
  }

  lemma {:induction false} LexTransitive(a: seq<nat>, b: seq<nat>, c: seq<nat>)
    requires LexLess(a, b) && LexLess(b, c)
    ensures LexLess(a, c)
  {
    if a != [] && a[0] == b[0] && b[0] == c[0] { LexTransitive(a[1..], b[1..], c[1..]); }
  }

  function Rank(kind: RouteKind): nat {
    match kind
    case PublicQuic => 0
    case PublicTcp => 1
    case Lan => 2
    case Relay => 3
  }

  /** Kind first, then peer bytes, then address text. */
  predicate Before(n: Naming, a: Route, b: Route) {
    var p, q := n.peerBytes(a.peer), n.peerBytes(b.peer);
    || Rank(a.kind) < Rank(b.kind)
    || (a.kind == b.kind && LexLess(p, q))
    || (a.kind == b.kind && p == q && LexLess(n.text(a.address), n.text(b.address)))
  }

  lemma BeforeTotal(n: Naming, a: Route, b: Route)
    requires Distinguishes(n)
    ensures a == b || Before(n, a, b) || Before(n, b, a)
    ensures !(Before(n, a, b) && Before(n, b, a))
  {
    LexTotal(n.peerBytes(a.peer), n.peerBytes(b.peer));
    LexTotal(n.text(a.address), n.text(b.address));
  }

  lemma BeforeTransitive(n: Naming, a: Route, b: Route, c: Route)
    requires Before(n, a, b) && Before(n, b, c)
    ensures Before(n, a, c)
  {
    hide LexLess;
    var p, q, r := n.peerBytes(a.peer), n.peerBytes(b.peer), n.peerBytes(c.peer);
    if LexLess(p, q) && LexLess(q, r) { LexTransitive(p, q, r); }
    if LexLess(n.text(a.address), n.text(b.address)) && LexLess(n.text(b.address), n.text(c.address)) {
      LexTransitive(n.text(a.address), n.text(b.address), n.text(c.address));
    }
  }

  ghost predicate Ordered(n: Naming, routes: seq<Route>) {
    forall i, j :: 0 <= i < j < |routes| ==> Before(n, routes[i], routes[j])
  }

  // --------------------------------------------------------------- uniqueness

  /** Two orderings of the same routes are the same. */
  lemma {:induction false} OrderIsUnique(n: Naming, a: seq<Route>, b: seq<Route>)
    requires Distinguishes(n) && Ordered(n, a) && Ordered(n, b) && forall r :: r in a <==> r in b
    ensures a == b
  {
    hide Before, Distinguishes;
    assert a != [] ==> a[0] in b;
    assert b != [] ==> b[0] in a;
    if a != [] {
      FirstIsLeast(n, a, b);
      TailMembers(n, a);
      TailMembers(n, b);
      OrderIsUnique(n, a[1..], b[1..]);
      assert a == [a[0]] + a[1..] && b == [b[0]] + b[1..];
    }
  }

  lemma FirstIsLeast(n: Naming, a: seq<Route>, b: seq<Route>)
    requires Distinguishes(n) && Ordered(n, a) && Ordered(n, b) && a != [] && b != [] && a[0] in b && b[0] in a
    ensures a[0] == b[0]
  {
    hide Before, Distinguishes;
    BeforeTotal(n, a[0], b[0]);
    assert forall x :: x in a ==> x == a[0] || Before(n, a[0], x);
    assert forall x :: x in b ==> x == b[0] || Before(n, b[0], x);
  }

  lemma TailMembers(n: Naming, a: seq<Route>)
    requires Distinguishes(n) && Ordered(n, a) && a != []
    ensures Ordered(n, a[1..]) && forall r :: r in a[1..] <==> r in a && r != a[0]
  {
    hide Before, Distinguishes;
    BeforeTotal(n, a[0], a[0]);
    assert a == [a[0]] + a[1..];
    forall r | r in a[1..] ensures r != a[0] {
      var i :| 0 <= i < |a[1..]| && a[1..][i] == r;
      assert Before(n, a[0], a[i + 1]);
    }
  }

  // -------------------------------------------------------------------- sorting

  lemma InsertKeepsOrder(n: Naming, sorted: seq<Route>, r: Route, i: nat)
    requires Distinguishes(n) && Ordered(n, sorted) && r !in sorted && i <= |sorted|
    requires forall j :: 0 <= j < i ==> Before(n, sorted[j], r)
    requires i < |sorted| ==> !Before(n, sorted[i], r)
    ensures Ordered(n, sorted[..i] + [r] + sorted[i..])
  {
    hide Before, Distinguishes;
    var next := sorted[..i] + [r] + sorted[i..];
    forall k | i <= k < |sorted| ensures Before(n, r, sorted[k]) {
      BeforeTotal(n, sorted[i], r);
      assert sorted[i] in sorted;
      if k > i { BeforeTransitive(n, r, sorted[i], sorted[k]); }
    }
    forall j, k | 0 <= j < k < |next| ensures Before(n, next[j], next[k]) {
      var left, right := if j < i then j else j - 1, if k < i then k else k - 1;
      assert j != i ==> next[j] == sorted[left];
      assert k != i ==> next[k] == sorted[right];
    }
  }

  lemma NotYetSorted(routes: seq<Route>, k: nat, sorted: seq<Route>)
    requires k < |routes| && multiset(sorted) == multiset(routes[..k])
    requires forall i, j :: 0 <= i < j < |routes| ==> routes[i] != routes[j]
    ensures routes[k] !in sorted
  {
    assert routes[k] !in routes[..k];
    assert routes[k] !in multiset(sorted);
  }

  lemma OneMoreSorted(routes: seq<Route>, k: nat, sorted: seq<Route>, i: nat)
    requires k < |routes| && i <= |sorted| && multiset(sorted) == multiset(routes[..k])
    ensures multiset(sorted[..i] + [routes[k]] + sorted[i..]) == multiset(routes[..k + 1])
  {
    assert sorted == sorted[..i] + sorted[i..];
    assert routes[..k + 1] == routes[..k] + [routes[k]];
  }

  /** `routes.sort_by(...)` on distinct routes. */
  method Sort(n: Naming, routes: seq<Route>) returns (sorted: seq<Route>)
    requires Distinguishes(n) && forall i, j :: 0 <= i < j < |routes| ==> routes[i] != routes[j]
    ensures Ordered(n, sorted) && multiset(sorted) == multiset(routes)
  {
    hide Distinguishes, Before;
    sorted := [];
    for k := 0 to |routes|
      invariant Ordered(n, sorted) && multiset(sorted) == multiset(routes[..k])
    {
      var r, i := routes[k], 0;
      while i < |sorted| && Before(n, sorted[i], r)
        invariant i <= |sorted|
        invariant forall j :: 0 <= j < i ==> Before(n, sorted[j], r)
      {
        i := i + 1;
      }
      NotYetSorted(routes, k, sorted);
      InsertKeepsOrder(n, sorted, r, i);
      OneMoreSorted(routes, k, sorted, i);
      sorted := sorted[..i] + [r] + sorted[i..];
    }
    assert routes[..|routes|] == routes;
  }

  // -------------------------------------------------------------------- draining

  predicate Stored(v: View, r: Route) {
    r.peer in v.routes && r in v.routes[r.peer]
  }

  ghost predicate Drained(v: View, done: set<PeerId>, routes: seq<Route>) {
    && (forall r :: r in routes <==> r.peer in done && Stored(v, r))
    && (forall i, j :: 0 <= i < j < |routes| ==> routes[i] != routes[j])
  }

  lemma DrainOne(local: LocalCheck, policy: Policy, v: View, done: set<PeerId>, peer: PeerId, routes: seq<Route>)
    requires CandidatesOk(local, policy, v) && peer in v.routes && peer !in done && Drained(v, done, routes)
    ensures Drained(v, done + {peer}, routes + v.routes[peer])
  {
    assert PeerOk(local, policy, peer, v.routes[peer]);
    hide Classify, CandidatesOk;
    var own, all_ := v.routes[peer], routes + v.routes[peer];
    forall r | r in own ensures r.peer == peer {
      var i :| 0 <= i < |own| && own[i] == r;
    }
    forall i, j | 0 <= i < j < |all_| ensures all_[i] != all_[j] {
      if i < |routes| <= j {
        assert all_[i] in routes && all_[j] in own;
      } else if |routes| <= i {
        assert own[i - |routes|].address != own[j - |routes|].address;
      }
    }
  }

  /** `into_ranked`: the map is drained in any order, and the outcome is ordered and complete. */
  method IntoRanked(n: Naming, local: LocalCheck, policy: Policy, v: View) returns (ranked: seq<Route>)
    requires Distinguishes(n) && CandidatesOk(local, policy, v)
    ensures Ordered(n, ranked)
    ensures forall r :: r in ranked <==> Stored(v, r)
    ensures forall i, j :: 0 <= i < j < |ranked| ==> ranked[i] != ranked[j]
  {
    hide CandidatesOk, Distinguishes, Before, Stored;
    var routes: seq<Route> := [];
    var left := v.routes.Keys;
    ghost var done: set<PeerId> := {};
    while left != {}
      invariant done !! left && done + left == v.routes.Keys
      invariant Drained(v, done, routes)
      decreases |left|
    {
      var peer :| peer in left;
      DrainOne(local, policy, v, done, peer, routes);
      routes := routes + v.routes[peer];
      done, left := done + {peer}, left - {peer};
    }
    ranked := Sort(n, routes);
    forall r ensures r in ranked <==> Stored(v, r) {
      assert r in ranked <==> r in multiset(ranked);
      assert r in routes <==> r in multiset(routes);
      StoredPeer(v, r);
    }
    OrderedDistinct(n, ranked);
  }

  lemma StoredPeer(v: View, r: Route)
    ensures Stored(v, r) ==> r.peer in v.routes.Keys
  {
  }

  lemma OrderedDistinct(n: Naming, routes: seq<Route>)
    requires Distinguishes(n) && Ordered(n, routes)
    ensures forall i, j :: 0 <= i < j < |routes| ==> routes[i] != routes[j]
  {
    hide Before, Distinguishes;
    forall i, j | 0 <= i < j < |routes| ensures routes[i] != routes[j] {
      BeforeTotal(n, routes[i], routes[i]);
      assert Before(n, routes[i], routes[j]);
    }
  }

  /** The classes in the order in which they are dialed. */
  const PREFERENCE: seq<RouteKind> := [PublicQuic, PublicTcp, Lan, Relay]

  /** Best first: no route is behind one of a class that is dialed later; within a class peers come by their bytes. */
  lemma BestFirst(n: Naming, routes: seq<Route>, i: nat, j: nat)
    requires Ordered(n, routes) && i < j < |routes|
    ensures exists a, b :: 0 <= a <= b < 4 && PREFERENCE[a] == routes[i].kind && PREFERENCE[b] == routes[j].kind
    ensures routes[i].kind == routes[j].kind ==>
              var p, q := n.peerBytes(routes[i].peer), n.peerBytes(routes[j].peer);
              LexLess(p, q) || (p == q && LexLess(n.text(routes[i].address), n.text(routes[j].address)))
  {
    hide LexLess;
    assert Before(n, routes[i], routes[j]);
    var a, b := Rank(routes[i].kind), Rank(routes[j].kind);
    assert PREFERENCE[a] == routes[i].kind && PREFERENCE[b] == routes[j].kind;
  }

  /** Lexicographic order: the sequences agree up to a point, where the first ends or is smaller. */
  lemma {:induction false} LexIs(a: seq<nat>, b: seq<nat>)
    ensures LexLess(a, b) <==> exists k :: FirstDifference(a, b, k)
  {
    if a == [] || b == [] {
      if b != [] { assert FirstDifference(a, b, 0); }
    } else if a[0] != b[0] {
      assert a[0] < b[0] ==> FirstDifference(a, b, 0);
    } else {
      LexIs(a[1..], b[1..]);
      if k :| FirstDifference(a[1..], b[1..], k) {
        assert forall i :: 1 <= i < k + 1 ==> a[i] == a[1..][i - 1] && b[i] == b[1..][i - 1];
        assert FirstDifference(a, b, k + 1);
      }
      if k :| FirstDifference(a, b, k) {
        assert forall i :: 0 <= i < k - 1 ==> a[1..][i] == a[i + 1] && b[1..][i] == b[i + 1];
        assert FirstDifference(a[1..], b[1..], k - 1);
      }
    }
  }

  predicate FirstDifference(a: seq<nat>, b: seq<nat>, k: int) {
    && 0 <= k <= |a| && k < |b| && (forall i :: 0 <= i < k ==> a[i] == b[i])
    && (k == |a| || a[k] < b[k])
  }
}
