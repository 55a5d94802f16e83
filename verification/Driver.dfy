/**
 The network driver's request and response bookkeeping.

 The transport (which ids it gives out, whether a response can be sent) and the event
 queue (whether it is full) are an environment that chooses the next event.
 */
module Driver {
  import opened Basics
  import opened Wire

  /** Ids of the request-response protocol, of the application, and of reply tokens held by callers. */
  type ProtocolId = nat
  type RequestId = nat
  type Channel = nat
  type Token = nat

  const ID_END := 0x1_0000_0000_0000_0000

  datatype Settlement = Sent | Replied(response: TransferResponse) | ResponseFailed | RequestFailed

  datatype Event =
    | Inbound(protocol: ProtocolId, channel: Channel, queueFull: bool)
    | Respond(request: RequestId, response: TransferResponse, token: Token, accepted: bool)
    | InboundFailure(protocol: ProtocolId)
    | ResponseSent(protocol: ProtocolId)
    | Ask(outgoing: ProtocolId, token: Token)
    | Response(outgoing: ProtocolId, response: TransferResponse)
    | OutboundFailure(outgoing: ProtocolId)

  datatype Action =
    /** the response is handed to the transport */
    | Answer(channel: Channel, response: TransferResponse)
    /** the request is queued for the application */
    | Deliver(request: RequestId)
    /** a caller's token gets its outcome */
    | Resolve(token: Token, outcome: Settlement)

  datatype View = View(
    outbound: map<ProtocolId, Token>, inbound: map<RequestId, Channel>,
    protocolIds: map<ProtocolId, RequestId>, confirmations: map<ProtocolId, Token>, nextId: nat)

  const BUSY := TransferResponse.Error(ErrorResponse(PROTOCOL_VERSION, TemporarilyUnavailable))

  // -------------------------------------------------------------- specification

  predicate Injective<K, V(==)>(m: map<K, V>) {
    forall p, q :: p in m && q in m && m[p] == m[q] ==> p == q
  }

  predicate Named(ids: map<ProtocolId, RequestId>, request: RequestId) {
    exists p :: p in ids && ids[p] == request
  }

  ghost function NameOf(ids: map<ProtocolId, RequestId>, request: RequestId): ProtocolId
    requires Named(ids, request)
  {
    var p :| p in ids && ids[p] == request;
    p
  }

  function Unnamed(ids: map<ProtocolId, RequestId>, request: RequestId): map<ProtocolId, RequestId> {
    map p | p in ids && ids[p] != request :: ids[p]
  }

  function NextId(id: nat): nat {
    if id + 1 == ID_END then 1 else id + 1
  }

  /** `handle_inbound_request` */
  function OnInbound(v: View, protocol: ProtocolId, channel: Channel, queueFull: bool): (View, seq<Action>) {
    var next := v.(nextId := NextId(v.nextId));
    if queueFull
    then (next.(inbound := v.inbound - {v.nextId}, protocolIds := v.protocolIds - {protocol}), [Answer(channel, BUSY)])
    else (next.(inbound := v.inbound[v.nextId := channel], protocolIds := v.protocolIds[protocol := v.nextId]),
          [Deliver(v.nextId)])
  }

  /** The `Respond` command. The channel is spent whether or not the transport takes the response. */
  ghost function OnRespond(v: View, request: RequestId, response: TransferResponse, token: Token,
                           accepted: bool): (View, seq<Action>) {
    var spent := v.(inbound := v.inbound - {request});
    var ready := request in v.inbound && Named(v.protocolIds, request);
    var tried := if ready then [Answer(v.inbound[request], response)] else [];
    if ready && accepted
    then (spent.(confirmations := v.confirmations[NameOf(v.protocolIds, request) := token]), tried)
    else (spent.(protocolIds := Unnamed(v.protocolIds, request)), tried + [Resolve(token, ResponseFailed)])
  }

  /** `InboundFailure` and `ResponseSent` */
  function OnSettled(v: View, protocol: ProtocolId, outcome: Settlement): (View, seq<Action>) {
    (v.(confirmations := v.confirmations - {protocol},
        inbound := if protocol in v.protocolIds then v.inbound - {v.protocolIds[protocol]} else v.inbound,
        protocolIds := v.protocolIds - {protocol}),
     if protocol in v.confirmations then [Resolve(v.confirmations[protocol], outcome)] else [])
  }

  /** `Response` and `OutboundFailure` */
  function OnReply(v: View, outgoing: ProtocolId, outcome: Settlement): (View, seq<Action>) {
    (v.(outbound := v.outbound - {outgoing}),
     if outgoing in v.outbound then [Resolve(v.outbound[outgoing], outcome)] else [])
  }

  ghost function Step(v: View, e: Event): (View, seq<Action>) {
    match e
    case Inbound(protocol, channel, queueFull) => OnInbound(v, protocol, channel, queueFull)
    case Respond(request, response, token, accepted) => OnRespond(v, request, response, token, accepted)
    case InboundFailure(protocol) => OnSettled(v, protocol, ResponseFailed)
    case ResponseSent(protocol) => OnSettled(v, protocol, Sent)
    case Ask(outgoing, token) => (v.(outbound := v.outbound[outgoing := token]), [])
    case Response(outgoing, response) => OnReply(v, outgoing, Replied(response))
    case OutboundFailure(outgoing) => OnReply(v, outgoing, RequestFailed)
  }

  // --------------------------------------------------------------------- driver

  class NetworkDriver {
    var outbound: map<ProtocolId, Token>
    var inbound: map<RequestId, Channel>
    var protocolIds: map<ProtocolId, RequestId>
    var confirmations: map<ProtocolId, Token>
    var nextId: nat

    ghost function State(): View
      reads this
    {
      View(outbound, inbound, protocolIds, confirmations, nextId)
    }

    constructor ()
      ensures State() == INITIAL
    {
      outbound, inbound, protocolIds, confirmations, nextId := map[], map[], map[], map[], 1;
    }

    method HandleInbound(protocol: ProtocolId, channel: Channel, queueFull: bool) returns (actions: seq<Action>)
      modifies this
      ensures (State(), actions) == OnInbound(old(State()), protocol, channel, queueFull)
    {
      var request := nextId;
      nextId := NextId(nextId);
      ghost var before, ids := inbound, protocolIds;
      inbound := inbound[request := channel];
      protocolIds := protocolIds[protocol := request];
      if queueFull {
        inbound := inbound - {request};
        protocolIds := protocolIds - {protocol};
        assert inbound == before - {request} && protocolIds == ids - {protocol};
        return [Answer(channel, BUSY)];
      }
      actions := [Deliver(request)];
    }

    /** The search goes through the ids in whatever order the map gives. */
    method FindName(request: RequestId) returns (name: Option<ProtocolId>)
      requires Injective(protocolIds)
      ensures name == if Named(protocolIds, request) then Some(NameOf(protocolIds, request)) else None
    {
      var left := protocolIds.Keys;
      while left != {}
        invariant left <= protocolIds.Keys
        invariant forall p :: p in protocolIds && protocolIds[p] == request ==> p in left
        decreases |left|
      {
        var p :| p in left;
        if protocolIds[p] == request { return Some(p); }
        left := left - {p};
      }
      name := None;
    }

    method HandleRespond(request: RequestId, response: TransferResponse, token: Token,
                         accepted: bool) returns (actions: seq<Action>)
      requires Injective(protocolIds)
      modifies this
      ensures (State(), actions) == OnRespond(old(State()), request, response, token, accepted)
    {
      var name := FindName(request);
      actions := [];
      var ok := false;
      if request in inbound {
        var channel := inbound[request];
        inbound := inbound - {request};
        if name.Some? {
          actions := [Answer(channel, response)];
          ok := accepted;
        }
      }
      assert inbound == old(inbound) - {request};
      if ok {
        confirmations := confirmations[name.value := token];
      } else {
        protocolIds := map p | p in protocolIds && protocolIds[p] != request :: protocolIds[p];
        actions := actions + [Resolve(token, ResponseFailed)];
      }
    }

    method HandleSettled(protocol: ProtocolId, outcome: Settlement) returns (actions: seq<Action>)
      modifies this
      ensures (State(), actions) == OnSettled(old(State()), protocol, outcome)
    {
      actions := [];
      if protocol in confirmations {
        actions := [Resolve(confirmations[protocol], outcome)];
        confirmations := confirmations - {protocol};
      }
      assert confirmations == old(confirmations) - {protocol};
      if protocol in protocolIds {
        var request := protocolIds[protocol];
        protocolIds := protocolIds - {protocol};
        inbound := inbound - {request};
      }
      assert protocolIds == old(protocolIds) - {protocol};
    }

    method HandleRequest(outgoing: ProtocolId, token: Token)
      modifies this
      ensures (State(), []) == Step(old(State()), Ask(outgoing, token))
    {
      outbound := outbound[outgoing := token];
    }

    method HandleReply(outgoing: ProtocolId, outcome: Settlement) returns (actions: seq<Action>)
      modifies this
      ensures (State(), actions) == OnReply(old(State()), outgoing, outcome)
    {
      actions := [];
      if outgoing in outbound {
        actions := [Resolve(outbound[outgoing], outcome)];
        outbound := outbound - {outgoing};
      }
      assert outbound == old(outbound) - {outgoing};
    }
  }

  const INITIAL := View(map[], map[], map[], map[], 1)
}
