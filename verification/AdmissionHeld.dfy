/** Which connections are counted, and under which address, over every run. */
module AdmissionHeld {
  import opened Basics
  import opened RateWindow
  import opened Addresses
  import opened Admission
  import opened AdmissionRates

  /** The event is an attempt under this id that is admitted. */
  predicate Admits(v: View, e: Event, id: ConnectionId) {
    e.Attempt? && e.id == id && Admitting(v, id, e.address, e.now).1
  }

  /** Where a connection is counted. */
  datatype Place = Nowhere | AsPending(ip: IpAddr) | AsEstablished(ip: IpAddr) | Twice

  function PlaceOf(v: View, id: ConnectionId): Place {
    if id in v.pending && id in v.established then Twice
    else if id in v.pending then AsPending(v.pending[id])
    else if id in v.established then AsEstablished(v.established[id])
    else Nowhere
  }

  /** What one event does to one connection that is not attempted twice. */
  lemma StepPlace(v: View, e: Event, id: ConnectionId)
    requires PlaceOf(v, id) != Twice && (e.Attempt? && e.id == id ==> PlaceOf(v, id) == Nowhere)
    ensures var before, after := PlaceOf(v, id), PlaceOf(Step(v, e), id);
            after == if Admits(v, e, id) then AsPending(SourceIp(e.address).value)
                     else if e.Closed? && e.id == id then Nowhere
                     else if e.Established? && e.id == id && before.AsPending? then AsEstablished(before.ip)
                     else before
    ensures Admits(v, e, id) ==> SourceIp(e.address).Some?
  {
    hide CountOf, SourceIp, Cleared, BucketFor;
  }

  /** Every attempt has an id of its own, as the swarm gives them out. */
  predicate FreshIds(run: seq<Event>) {
    forall i, j :: 0 <= i < j < |run| && run[i].Attempt? && run[j].Attempt? ==> run[i].id != run[j].id
  }

  /** The connection was admitted at position `i` and has not been closed up to `n`. */
  ghost predicate Placed(v: View, run: seq<Event>, i: nat, n: nat, id: ConnectionId)
    requires n <= |run|
  {
    && i < n && Admits(StateAt(v, run, i), run[i], id)
    && forall j :: i < j < n ==> !(run[j].Closed? && run[j].id == id)
  }

  predicate EstablishedIn(run: seq<Event>, i: nat, n: nat, id: ConnectionId)
    requires n <= |run|
  {
    exists k :: i < k < n && run[k].Established? && run[k].id == id
  }

  /** Where a connection placed at `i` is counted at `n`. */
  ghost predicate CountedAs(v: View, run: seq<Event>, i: nat, n: nat, id: ConnectionId) {
    && i < n <= |run| && run[i].Attempt? && SourceIp(run[i].address).Some?
    && var ip := SourceIp(run[i].address).value;
       PlaceOf(StateAt(v, run, n), id) == if EstablishedIn(run, i, n, id) then AsEstablished(ip) else AsPending(ip)
  }

  /**
   Over every run with fresh ids: a connection is counted exactly from its admission to its
   close, once, under the address it came from, as pending until it is established.
   */
  lemma {:induction false} CountedExactly(v: View, run: seq<Event>, n: nat, id: ConnectionId)
    requires v.pending == map[] && v.established == map[] && FreshIds(run) && n <= |run|
    ensures PlaceOf(StateAt(v, run, n), id) == Nowhere <==> !exists i: nat :: Placed(v, run, i, n, id)
    ensures forall i: nat :: Placed(v, run, i, n, id) ==> CountedAs(v, run, i, n, id)
  {
    hide Step, StateAt, Admits, SourceIp;
    if n == 0 {
      NothingCounted(v, run, id);
    } else {
      var m := n - 1;
      CountedExactly(v, run, m, id);
      var s := StateAt(v, run, m);
      NotAttempted(v, run, m, id);
      NextState(v, run, m);
      StepPlace(s, run[m], id);
      if Admits(s, run[m], id) {
        AdmitsAttempt(s, run[m], id);
        assert Placed(v, run, m, n, id);
        assert !EstablishedIn(run, m, n, id);
        forall i: nat | i < m ensures !Placed(v, run, i, n, id) {
          if Admits(StateAt(v, run, i), run[i], id) { AdmitsAttempt(StateAt(v, run, i), run[i], id); }
        }
      } else {
        PlacedStep(v, run, m, n, id);
        KeepsPlace(v, run, m, n, id);
      }
    }
  }

  lemma NothingCounted(v: View, run: seq<Event>, id: ConnectionId)
    requires v.pending == map[] && v.established == map[]
    ensures PlaceOf(StateAt(v, run, 0), id) == Nowhere
  {
  }

  lemma NextState(v: View, run: seq<Event>, m: nat)
    requires m < |run|
    ensures StateAt(v, run, m + 1) == Step(StateAt(v, run, m), run[m])
  {
    assert run[..m + 1][..m] == run[..m];
  }

  lemma AdmitsAttempt(v: View, e: Event, id: ConnectionId)
    requires Admits(v, e, id)
    ensures e.Attempt? && e.id == id
  {
  }

  /** Before its attempt a connection is counted nowhere. */
  lemma NotAttempted(v: View, run: seq<Event>, m: nat, id: ConnectionId)
    requires FreshIds(run) && m < |run|
    requires PlaceOf(StateAt(v, run, m), id) == Nowhere <==> !exists i: nat :: Placed(v, run, i, m, id)
    requires forall i: nat :: Placed(v, run, i, m, id) ==> CountedAs(v, run, i, m, id)
    ensures PlaceOf(StateAt(v, run, m), id) != Twice
    ensures run[m].Attempt? && run[m].id == id ==> PlaceOf(StateAt(v, run, m), id) == Nowhere
  {
    hide StateAt, PlaceOf, SourceIp;
    if i: nat :| Placed(v, run, i, m, id) {
      assert CountedAs(v, run, i, m, id);
      assert run[i].id == id;
    }
  }

  lemma PlacedStep(v: View, run: seq<Event>, m: nat, n: nat, id: ConnectionId)
    requires n == m + 1 <= |run| && !Admits(StateAt(v, run, m), run[m], id)
    ensures forall i: nat :: Placed(v, run, i, n, id)
              <==> Placed(v, run, i, m, id) && !(run[m].Closed? && run[m].id == id)
  {
    hide StateAt, Admits;
  }

  lemma KeepsPlace(v: View, run: seq<Event>, m: nat, n: nat, id: ConnectionId)
    requires n == m + 1 <= |run|
    requires forall i: nat :: Placed(v, run, i, m, id) ==> CountedAs(v, run, i, m, id)
    requires PlaceOf(StateAt(v, run, m), id) == Nowhere <==> !exists i: nat :: Placed(v, run, i, m, id)
    requires forall i: nat :: Placed(v, run, i, n, id)
               <==> Placed(v, run, i, m, id) && !(run[m].Closed? && run[m].id == id)
    requires var before, e := PlaceOf(StateAt(v, run, m), id), run[m];
             PlaceOf(StateAt(v, run, n), id)
             == if e.Closed? && e.id == id then Nowhere
                else if e.Established? && e.id == id && before.AsPending? then AsEstablished(before.ip)
                else before
    ensures PlaceOf(StateAt(v, run, n), id) == Nowhere <==> !exists i: nat :: Placed(v, run, i, n, id)
    ensures forall i: nat :: Placed(v, run, i, n, id) ==> CountedAs(v, run, i, n, id)
  {
    hide StateAt, PlaceOf, SourceIp, Placed;
    forall i: nat | Placed(v, run, i, n, id) ensures CountedAs(v, run, i, n, id) {
      PlacedBefore(v, run, i, m, id);
      assert CountedAs(v, run, i, m, id);
      EstablishedStep(run, i, m, n, id);
    }
    if i: nat :| Placed(v, run, i, m, id) && !(run[m].Closed? && run[m].id == id) {
      PlacedBefore(v, run, i, m, id);
      assert Placed(v, run, i, n, id);
      assert CountedAs(v, run, i, n, id);
    }
  }

  lemma PlacedBefore(v: View, run: seq<Event>, i: nat, m: nat, id: ConnectionId)
    requires m <= |run| && Placed(v, run, i, m, id)
    ensures i < m
  {
  }

  lemma EstablishedStep(run: seq<Event>, i: nat, m: nat, n: nat, id: ConnectionId)
    requires i < m && n == m + 1 <= |run|
    ensures EstablishedIn(run, i, n, id) <==> EstablishedIn(run, i, m, id) || (run[m].Established? && run[m].id == id)
  {
  }

  // ------------------------------------------------------------------------ verdicts

  predicate RunOut(v: View, ip: IpAddr, now: int) {
    ip in v.rate && Elapsed(v.rate[ip].started, now) >= WINDOW
  }

  /** There is a bucket for the address, or room for one, or one that has run out. */
  predicate HasRoom(v: View, ip: IpAddr, now: int) {
    ip in v.rate || |v.rate| < v.maxRateIps || exists other :: other in v.rate && RunOut(v, other, now)
  }

  /** The address has attempts left in its live bucket, or starts a new one. */
  predicate HasAttempts(v: View, ip: IpAddr, now: int) {
    if ip in v.rate && !RunOut(v, ip, now) then v.rate[ip].count < v.attempts else 0 < v.attempts
  }

  lemma ClearedRoom(v: View, ip: IpAddr, now: int)
    requires |v.rate| == v.maxRateIps && ip !in v.rate
    ensures |Cleared(v, ip, now)| == v.maxRateIps <==> !exists other :: other in v.rate && RunOut(v, other, now)
    ensures ip !in Cleared(v, ip, now)
  {
    var live := Cleared(v, ip, now);
    assert |live| == |live.Keys| && |v.rate| == |v.rate.Keys|;
    assert live.Keys <= v.rate.Keys;
    if other :| other in v.rate && RunOut(v, other, now) {
      assert other !in live && live.Keys <= v.rate.Keys - {other};
      SubsetCard(live.Keys, v.rate.Keys - {other});
    } else {
      assert live.Keys == v.rate.Keys;
    }
  }

  /** Exactly when an attempt is admitted, and that it is then pending under its address. */
  lemma AdmittedExactly(v: View, id: ConnectionId, address: Multiaddr, now: int)
    requires |v.rate| <= v.maxRateIps
    ensures var ip := SourceIp(address);
            Admitting(v, id, address, now).1 <==>
              && ip.Some? && Connections(v, ip.value) < v.perIp
              && HasRoom(v, ip.value, now) && HasAttempts(v, ip.value, now)
  {
    hide CountOf, SourceIp, LiveBuckets;
    if SourceIp(address).Some? {
      var ip := SourceIp(address).value;
      if ip !in v.rate && |v.rate| == v.maxRateIps { ClearedRoom(v, ip, now); }
    }
  }
}
