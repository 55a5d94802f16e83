/** Which answer reaches whom: requests to their callers, responses to their channels, over every run. */
module DriverAnswers {
  import opened Basics
  import opened Wire
  import opened Driver
  import opened DriverRuns

  // ---------------------------------------------------------------- outgoing requests

  /** The transport's report on a request of ours: a response, or a failure. */
  predicate Returns(e: Event, o: ProtocolId) {
    (e.Response? || e.OutboundFailure?) && e.outgoing == o
  }

  predicate IsFirstReturn(run: seq<Event>, j: nat, o: ProtocolId, k: nat) {
    j < k < |run| && Returns(run[k], o) && forall i :: j < i < k ==> !Returns(run[i], o)
  }

  predicate Holds(v: View, o: ProtocolId, token: Token) {
    o in v.outbound && v.outbound[o] == token
  }

  lemma StillHolds(v: View, e: Event, o: ProtocolId, token: Token)
    requires Holds(v, o, token) && !Returns(e, o) && (e.Ask? ==> e.outgoing != o)
    ensures Holds(Step(v, e).0, o, token)
  {
  }

  lemma ReturnResolves(v: View, e: Event, o: ProtocolId, token: Token)
    requires Holds(v, o, token) && Returns(e, o)
    ensures Resolve(token, if e.Response? then Replied(e.response) else RequestFailed) in Step(v, e).1
  {
  }

  lemma AskedOnce(run: seq<Event>, j: nat, i: nat)
    requires FreshRun(run) && j < i < |run| && run[j].Ask? && run[i].Ask?
    ensures run[i].outgoing != run[j].outgoing
  {
    FreshAt(run, i);
    assert run[..i][j] == run[j] && run[j] in run[..i];
    assert run[j].outgoing in Outgoings(run[..i]);
  }

  lemma {:induction false} FreshAt(run: seq<Event>, i: nat)
    requires FreshRun(run) && i < |run|
    ensures Fresh(run[..i], run[i])
  {
    hide Fresh;
    var n := |run| - 1;
    if i < n {
      FreshAt(run[..n], i);
      assert run[..n][..i] == run[..i];
    } else {
      assert run[..i] == run[..n];
    }
  }

  lemma {:induction false} HoldsUntil(run: seq<Event>, j: nat, n: nat)
    requires FreshRun(run) && j < n <= |run| && run[j].Ask?
    requires forall i :: j < i < n ==> !Returns(run[i], run[j].outgoing)
    ensures Holds(After(run[..n]), run[j].outgoing, run[j].token)
  {
    var m := n - 1;
    assert run[..n][..m] == run[..m];
    if m == j {
      assert After(run[..n]) == Step(After(run[..j]), run[j]).0;
    } else {
      HoldsUntil(run, j, m);
      if run[m].Ask? { AskedOnce(run, j, m); }
      StillHolds(After(run[..m]), run[m], run[j].outgoing, run[j].token);
    }
  }

  lemma {:induction false} NextReturn(run: seq<Event>, j: nat, o: ProtocolId, from: nat) returns (k: nat)
    requires j < from <= |run| && forall i :: j < i < from ==> !Returns(run[i], o)
    ensures j < k <= |run| && (k == |run| || IsFirstReturn(run, j, o, k))
    ensures forall i :: j < i < k ==> !Returns(run[i], o)
    decreases |run| - from
  {
    if from == |run| || Returns(run[from], o) {
      k := from;
    } else {
      k := NextReturn(run, j, o, from + 1);
    }
  }

  /** The outcome a return brings. */
  function OutcomeOf(e: Event): Settlement {
    if e.Response? then Replied(e.response) else RequestFailed
  }

  /**
   Over every run with fresh ids, the caller of a request is told exactly what the first
   return on its id brings: that response, or that it failed; and nothing without one.
   */
  lemma FirstReturnDecides(run: seq<Event>, j: nat, outcome: Settlement)
    requires FreshRun(run) && j < |run| && run[j].Ask?
    ensures Resolve(run[j].token, outcome) in Log(run)
            <==> exists k: nat :: IsFirstReturn(run, j, run[j].outgoing, k) && OutcomeOf(run[k]) == outcome
  {
    hide FreshRun, Step, NamesOk, ChannelsOk;
    var o, token := run[j].outgoing, run[j].token;
    EveryRunIsBookkept(run);
    var k := NextReturn(run, j, o, j + 1);
    if k == |run| {
      HoldsUntil(run, j, |run|);
      assert run[..|run|] == run;
      assert Pending(After(run).outbound, token);
      if Resolve(token, outcome) in Log(run) { ResolvedHas(Log(run), Resolve(token, outcome)); }
    } else {
      HoldsUntil(run, j, k);
      ReturnResolves(After(run[..k]), run[k], o, token);
      LogGrows(run, k, Resolve(token, OutcomeOf(run[k])));
      assert forall i: nat :: IsFirstReturn(run, j, o, i) ==> i == k;
      if Resolve(token, outcome) in Log(run) {
        OneOutcome(Log(run), Resolve(token, outcome), Resolve(token, OutcomeOf(run[k])));
      }
    }
  }

  // ---------------------------------------------------------------- inbound requests

  /** The request is open: its channel is kept under its id, and its protocol id names it. */
  predicate IsOpen(v: View, p: ProtocolId, request: RequestId, channel: Channel) {
    && request in v.inbound && v.inbound[request] == channel
    && p in v.protocolIds && v.protocolIds[p] == request
  }

  /** A request that arrives is queued under a new id and kept open, or answered as busy and forgotten. */
  lemma InboundExactly(v: View, p: ProtocolId, channel: Channel, queueFull: bool)
    requires v.nextId < ID_END - 1
    ensures var (w, actions) := Step(v, Inbound(p, channel, queueFull));
            && w.nextId == v.nextId + 1
            && if queueFull then
                 && actions == [Answer(channel, Error(ErrorResponse(1, TemporarilyUnavailable)))]
                 && v.nextId !in w.inbound && p !in w.protocolIds
               else
                 actions == [Deliver(v.nextId)] && IsOpen(w, p, v.nextId, channel)
  {
  }

  lemma StaysOpen(v: View, e: Event, protocols: set<ProtocolId>, p: ProtocolId, request: RequestId, channel: Channel)
    requires NamesOk(v, protocols) && IsOpen(v, p, request, channel) && !Reports(e, p)
    requires (e.Respond? ==> e.request != request) && (e.Inbound? ==> e.protocol !in protocols)
    ensures IsOpen(Step(v, e).0, p, request, channel)
  {
  }

  /** Nobody has responded and nothing has been reported between two positions. */
  predicate Untouched(run: seq<Event>, i: nat, j: nat, p: ProtocolId, request: RequestId) {
    forall k :: i < k < j && k < |run| ==> !Reports(run[k], p) && !(run[k].Respond? && run[k].request == request)
  }

  lemma {:induction false} OpenUntil(run: seq<Event>, i: nat, j: nat)
    requires FreshRun(run) && i < j <= |run| && run[i].Inbound? && !run[i].queueFull
    requires Untouched(run, i, j, run[i].protocol, After(run[..i]).nextId)
    ensures IsOpen(After(run[..j]), run[i].protocol, After(run[..i]).nextId, run[i].channel)
  {
    hide NamesOk, ChannelsOk, TokensOk, IsOpen, Step, FreshRun, Fresh;
    var m := j - 1;
    assert run[..j][..m] == run[..m];
    FreshPrefix(run, m);
    EveryRunIsBookkept(run[..m]);
    FreshLength(run, m);
    if m == i {
      InboundExactly(After(run[..i]), run[i].protocol, run[i].channel, false);
    } else {
      OpenUntil(run, i, m);
      FreshAt(run, m);
      FreshProtocol(run[..m], run[m]);
      StaysOpen(After(run[..m]), run[m], Protocols(run[..m]), run[i].protocol, After(run[..i]).nextId, run[i].channel);
    }
  }

  lemma FreshLength(run: seq<Event>, m: nat)
    requires FreshRun(run) && m < |run|
    ensures m + 1 < ID_END - 1
  {
  }

  lemma FreshProtocol(run: seq<Event>, e: Event)
    requires Fresh(run, e)
    ensures e.Inbound? ==> e.protocol !in Protocols(run)
  {
  }

  lemma RespondsOn(v: View, e: Event, p: ProtocolId, channel: Channel)
    requires e.Respond? && IsOpen(v, p, e.request, channel)
    ensures var (w, actions) := Step(v, e);
            && actions == [Answer(channel, e.response)]
                          + (if e.accepted then [] else [Resolve(e.token, ResponseFailed)])
            && e.request !in w.inbound
  {
  }

  /**
   Over every run with fresh ids, the first response to a queued request that the transport
   has not reported on is handed to the transport on that request's own channel, and its
   caller is told of a failure at once exactly if the transport does not take it.
   */
  lemma ResponseReachesItsChannel(run: seq<Event>, i: nat, j: nat)
    requires FreshRun(run) && i < j < |run| && run[i].Inbound? && !run[i].queueFull
    requires run[j].Respond? && run[j].request == After(run[..i]).nextId
    requires Untouched(run, i, j, run[i].protocol, run[j].request)
    ensures var actions := Step(After(run[..j]), run[j]).1;
            actions == [Answer(run[i].channel, run[j].response)]
                       + (if run[j].accepted then [] else [Resolve(run[j].token, ResponseFailed)])
  {
    hide FreshRun, Step, IsOpen, After;
    OpenUntil(run, i, j);
    RespondsOn(After(run[..j]), run[j], run[i].protocol, run[i].channel);
  }
}
