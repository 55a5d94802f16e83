/** The driver's bookkeeping over every run in which the transport and the callers use fresh ids. */
module DriverRuns {
  import opened Basics
  import opened Wire
  import opened Driver

  ghost function After(run: seq<Event>): View {
    if run == [] then INITIAL else Step(After(run[..|run| - 1]), run[|run| - 1]).0
  }

  /** Everything the driver did, in order. */
  ghost function Log(run: seq<Event>): seq<Action> {
    if run == [] then [] else Log(run[..|run| - 1]) + Step(After(run[..|run| - 1]), run[|run| - 1]).1
  }

  // ------------------------------------------------------------ what was used

  function Protocols(run: seq<Event>): set<ProtocolId> {
    set e | e in run && e.Inbound? :: e.protocol
  }

  function Channels(run: seq<Event>): set<Channel> {
    set e | e in run && e.Inbound? :: e.channel
  }

  function Outgoings(run: seq<Event>): set<ProtocolId> {
    set e | e in run && e.Ask? :: e.outgoing
  }

  function Tokens(run: seq<Event>): set<Token> {
    set e | e in run && (e.Ask? || e.Respond?) :: e.token
  }

  predicate Fresh(run: seq<Event>, e: Event) {
    match e
    case Inbound(protocol, channel, _) => protocol !in Protocols(run) && channel !in Channels(run)
    case Respond(_, _, token, _) => token !in Tokens(run)
    case Ask(outgoing, token) => outgoing !in Outgoings(run) && token !in Tokens(run)
    case _ => true
  }

  /** Fresh ids throughout, and short of the wrap of the request counter. */
  predicate FreshRun(run: seq<Event>) {
    && |run| < ID_END - 2
    && (run != [] ==> FreshRun(run[..|run| - 1]) && Fresh(run[..|run| - 1], run[|run| - 1]))
  }

  lemma Used(run: seq<Event>, e: Event)
    ensures Protocols(run + [e]) == Protocols(run) + if e.Inbound? then {e.protocol} else {}
    ensures Channels(run + [e]) == Channels(run) + if e.Inbound? then {e.channel} else {}
    ensures Outgoings(run + [e]) == Outgoings(run) + if e.Ask? then {e.outgoing} else {}
    ensures Tokens(run + [e]) == Tokens(run) + if e.Ask? || e.Respond? then {e.token} else {}
  {
  }

  function Answered(log: seq<Action>): seq<Channel> {
    if log == [] then [] else
    var last := log[|log| - 1];
    Answered(log[..|log| - 1]) + if last.Answer? then [last.channel] else []
  }

  function Resolved(log: seq<Action>): seq<Token> {
    if log == [] then [] else
    var last := log[|log| - 1];
    Resolved(log[..|log| - 1]) + if last.Resolve? then [last.token] else []
  }

  lemma {:induction false} AnsweredJoin(a: seq<Action>, b: seq<Action>)
    ensures Answered(a + b) == Answered(a) + Answered(b)
  {
    if b == [] {
      assert a + b == a;
    } else {
      AnsweredJoin(a, b[..|b| - 1]);
      assert (a + b)[..|a + b| - 1] == a + b[..|b| - 1];
    }
  }

  lemma {:induction false} ResolvedJoin(a: seq<Action>, b: seq<Action>)
    ensures Resolved(a + b) == Resolved(a) + Resolved(b)
  {
    if b == [] {
      assert a + b == a;
    } else {
      ResolvedJoin(a, b[..|b| - 1]);
      assert (a + b)[..|a + b| - 1] == a + b[..|b| - 1];
    }
  }

  // ------------------------------------------------------------------ invariants

  /** Every open channel is named by exactly one protocol id, and by none that awaits a confirmation. */
  ghost predicate NamesOk(v: View, protocols: set<ProtocolId>) {
    && Injective(v.protocolIds)
    && (forall r :: r in v.inbound ==> r < v.nextId && Named(v.protocolIds, r))
    && (forall p :: p in v.protocolIds ==> p in protocols && v.protocolIds[p] < v.nextId)
    && (forall p :: p in v.confirmations ==> p in protocols)
    && (forall p :: p in v.protocolIds && p in v.confirmations ==> v.protocolIds[p] !in v.inbound)
  }

  /** No channel is open twice, and none that is open has been answered. */
  ghost predicate ChannelsOk(inbound: map<RequestId, Channel>, channels: set<Channel>, answered: seq<Channel>) {
    && Injective(inbound)
    && (forall r :: r in inbound ==> inbound[r] in channels && inbound[r] !in answered)
    && (forall c :: c in answered ==> c in channels)
    && NoRepeats(answered)
  }

  predicate Pending(held: map<ProtocolId, Token>, token: Token) {
    exists p :: p in held && held[p] == token
  }

  /** Every token submitted is resolved or pending, in one place and never twice. */
  ghost predicate TokensOk(confirmations: map<ProtocolId, Token>, outbound: map<ProtocolId, Token>,
                           tokens: set<Token>, resolved: seq<Token>) {
    && Injective(confirmations) && Injective(outbound) && NoRepeats(resolved)
    && (forall t :: t in tokens <==> t in resolved || Pending(confirmations, t) || Pending(outbound, t))
    && (forall t :: t in resolved ==> !Pending(confirmations, t) && !Pending(outbound, t))
    && (forall t :: !(Pending(confirmations, t) && Pending(outbound, t)))
  }

  lemma StepNames(v: View, e: Event, protocols: set<ProtocolId>)
    requires NamesOk(v, protocols) && 1 <= v.nextId < ID_END - 1 && (e.Inbound? ==> e.protocol !in protocols)
    ensures NamesOk(Step(v, e).0, protocols + if e.Inbound? then {e.protocol} else {})
    ensures v.nextId <= Step(v, e).0.nextId <= v.nextId + 1
  {
    hide NamesOk;
    assert protocols + {} == protocols;
    SameNames(v, Step(v, e).0, protocols);
    match e
    case Inbound(protocol, channel, queueFull) =>
      InboundNames(v, protocol, channel, queueFull, protocols);
    case Respond(request, response, token, accepted) =>
      RespondNames(v, request, response, token, accepted, protocols);
    case InboundFailure(protocol) => SettledNames(v, protocol, ResponseFailed, protocols);
    case ResponseSent(protocol) => SettledNames(v, protocol, Sent, protocols);
    case Ask(_, _) =>
    case Response(_, _) =>
    case OutboundFailure(_) =>
  }

  lemma SameNames(v: View, w: View, protocols: set<ProtocolId>)
    requires NamesOk(v, protocols)
    ensures w == v.(outbound := w.outbound) ==> NamesOk(w, protocols)
  {
  }

  lemma InboundNames(v: View, protocol: ProtocolId, channel: Channel, queueFull: bool, protocols: set<ProtocolId>)
    requires NamesOk(v, protocols) && 1 <= v.nextId < ID_END - 1 && protocol !in protocols
    ensures NamesOk(OnInbound(v, protocol, channel, queueFull).0, protocols + {protocol})
  {
    var w := OnInbound(v, protocol, channel, queueFull).0;
    forall r | r in w.inbound ensures r < w.nextId && Named(w.protocolIds, r) {
      if r in v.inbound && r != v.nextId {
        var p :| p in v.protocolIds && v.protocolIds[p] == r;
        assert p in w.protocolIds && w.protocolIds[p] == r;
      } else {
        assert protocol in w.protocolIds && w.protocolIds[protocol] == r;
      }
    }
  }

  lemma RespondNames(v: View, request: RequestId, response: TransferResponse, token: Token, accepted: bool,
                     protocols: set<ProtocolId>)
    requires NamesOk(v, protocols)
    ensures NamesOk(OnRespond(v, request, response, token, accepted).0, protocols)
  {
    var w := OnRespond(v, request, response, token, accepted).0;
    forall r | r in w.inbound ensures Named(w.protocolIds, r) {
      var p :| p in v.protocolIds && v.protocolIds[p] == r;
      assert p in w.protocolIds && w.protocolIds[p] == r;
    }
  }

  lemma SettledNames(v: View, protocol: ProtocolId, outcome: Settlement, protocols: set<ProtocolId>)
    requires NamesOk(v, protocols)
    ensures NamesOk(OnSettled(v, protocol, outcome).0, protocols)
  {
    var w := OnSettled(v, protocol, outcome).0;
    forall r | r in w.inbound ensures Named(w.protocolIds, r) {
      var p :| p in v.protocolIds && v.protocolIds[p] == r;
      assert p in w.protocolIds && w.protocolIds[p] == r;
    }
  }

  // ------------------------------------------------------------------- channels

  lemma OpenChannel(inbound: map<RequestId, Channel>, r: RequestId, c: Channel, channels: set<Channel>,
                    answered: seq<Channel>)
    requires ChannelsOk(inbound, channels, answered) && c !in channels
    ensures ChannelsOk(inbound[r := c], channels + {c}, answered)
  {
  }

  lemma CloseChannel(inbound: map<RequestId, Channel>, r: RequestId, channels: set<Channel>, answered: seq<Channel>)
    requires ChannelsOk(inbound, channels, answered)
    ensures ChannelsOk(inbound - {r}, channels, answered)
    ensures r in inbound ==> ChannelsOk(inbound - {r}, channels, answered + [inbound[r]])
  {
  }

  lemma StepChannels(v: View, e: Event, channels: set<Channel>, answered: seq<Channel>)
    requires ChannelsOk(v.inbound, channels, answered) && (e.Inbound? ==> e.channel !in channels)
    ensures var (w, actions) := Step(v, e);
            var newly := if e.Inbound? then {e.channel} else {};
            ChannelsOk(w.inbound, channels + newly, answered + Answered(actions))
  {
    hide ChannelsOk;
    var (w, actions) := Step(v, e);
    AnsweredShort(actions);
    hide Answered;
    if e.Inbound? {
      OpenChannel(v.inbound, v.nextId, e.channel, channels, answered);
      CloseChannel(v.inbound[v.nextId := e.channel], v.nextId, channels + {e.channel}, answered);
      assert v.inbound[v.nextId := e.channel] - {v.nextId} == v.inbound - {v.nextId};
    } else {
      assert channels + {} == channels && answered + [] == answered;
      if e.Respond? {
        CloseChannel(v.inbound, e.request, channels, answered);
      } else if (e.InboundFailure? || e.ResponseSent?) && e.protocol in v.protocolIds {
        CloseChannel(v.inbound, v.protocolIds[e.protocol], channels, answered);
      }
    }
  }

  lemma AnsweredShort(actions: seq<Action>)
    ensures |actions| == 0 ==> Answered(actions) == []
    ensures |actions| == 1 ==> Answered(actions) == if actions[0].Answer? then [actions[0].channel] else []
    ensures |actions| == 2 && actions[1].Resolve? ==>
              Answered(actions) == if actions[0].Answer? then [actions[0].channel] else []
  {
    if |actions| == 2 { assert actions[..1] == [actions[0]]; }
  }

  lemma ResolvedShort(actions: seq<Action>)
    ensures |actions| == 0 ==> Resolved(actions) == []
    ensures |actions| == 1 ==> Resolved(actions) == if actions[0].Resolve? then [actions[0].token] else []
    ensures |actions| == 2 && actions[0].Answer? ==>
              Resolved(actions) == if actions[1].Resolve? then [actions[1].token] else []
  {
    if |actions| == 2 { assert actions[..1] == [actions[0]]; }
  }

  // --------------------------------------------------------------------- tokens

  lemma Kept(held: map<ProtocolId, Token>, p: ProtocolId, token: Token)
    requires Injective(held)
    ensures forall t :: Pending(held - {p}, t) <==> Pending(held, t) && !(p in held && held[p] == t)
    ensures p !in held ==> forall t :: Pending(held[p := token], t) <==> Pending(held, t) || t == token
    ensures Injective(held - {p})
    ensures p !in held && !Pending(held, token) ==> Injective(held[p := token])
  {
    forall t ensures Pending(held - {p}, t) <==> Pending(held, t) && !(p in held && held[p] == t) {
      if Pending(held, t) && !(p in held && held[p] == t) {
        var q :| q in held && held[q] == t;
        assert q in held - {p};
      }
    }
    if p !in held {
      var more := held[p := token];
      forall t ensures Pending(more, t) <==> Pending(held, t) || t == token {
        if Pending(held, t) {
          var q :| q in held && held[q] == t;
          assert q in more && more[q] == t;
        }
        assert p in more && more[p] == token;
      }
      forall q | q in held ensures Pending(held, held[q]) {}
    }
  }

  lemma SubmitConfirmation(c: map<ProtocolId, Token>, o: map<ProtocolId, Token>, tokens: set<Token>,
                           resolved: seq<Token>, p: ProtocolId, t: Token)
    requires TokensOk(c, o, tokens, resolved) && t !in tokens && p !in c
    ensures TokensOk(c[p := t], o, tokens + {t}, resolved)
  {
    Kept(c, p, t);
    hide Pending;
  }

  lemma SubmitRequest(c: map<ProtocolId, Token>, o: map<ProtocolId, Token>, tokens: set<Token>, resolved: seq<Token>,
                      p: ProtocolId, t: Token)
    requires TokensOk(c, o, tokens, resolved) && t !in tokens && p !in o
    ensures TokensOk(c, o[p := t], tokens + {t}, resolved)
  {
    Kept(o, p, t);
    hide Pending;
  }

  lemma ResolveAtOnce(c: map<ProtocolId, Token>, o: map<ProtocolId, Token>, tokens: set<Token>, resolved: seq<Token>,
                      t: Token)
    requires TokensOk(c, o, tokens, resolved) && t !in tokens
    ensures TokensOk(c, o, tokens + {t}, resolved + [t])
  {
    hide Pending, Injective;
  }

  lemma ResolveConfirmation(c: map<ProtocolId, Token>, o: map<ProtocolId, Token>, tokens: set<Token>,
                            resolved: seq<Token>, p: ProtocolId)
    requires TokensOk(c, o, tokens, resolved) && p in c
    ensures TokensOk(c - {p}, o, tokens, resolved + [c[p]])
  {
    Kept(c, p, 0);
    assert Pending(c, c[p]);
    hide Pending, Injective;
  }

  lemma ResolveRequest(c: map<ProtocolId, Token>, o: map<ProtocolId, Token>, tokens: set<Token>, resolved: seq<Token>,
                       p: ProtocolId)
    requires TokensOk(c, o, tokens, resolved) && p in o
    ensures TokensOk(c, o - {p}, tokens, resolved + [o[p]])
  {
    Kept(o, p, 0);
    assert Pending(o, o[p]);
    hide Pending, Injective;
  }

  /** A request that is about to be confirmed is not awaiting a confirmation already. */
  lemma NotYetConfirmed(v: View, protocols: set<ProtocolId>, request: RequestId)
    requires NamesOk(v, protocols) && request in v.inbound
    ensures Named(v.protocolIds, request) && NameOf(v.protocolIds, request) !in v.confirmations
  {
  }

  lemma StepTokens(v: View, e: Event, protocols: set<ProtocolId>, tokens: set<Token>, resolved: seq<Token>)
    requires NamesOk(v, protocols) && TokensOk(v.confirmations, v.outbound, tokens, resolved)
    requires (e.Ask? ==> e.outgoing !in v.outbound) && (e.Ask? || e.Respond? ==> e.token !in tokens)
    ensures var (w, actions) := Step(v, e);
            var submitted := if e.Ask? || e.Respond? then {e.token} else {};
            TokensOk(w.confirmations, w.outbound, tokens + submitted, resolved + Resolved(actions))
  {
    var (w, actions) := Step(v, e);
    ResolvedShort(actions);
    hide TokensOk, Resolved, NamesOk;
    assert tokens + {} == tokens && resolved + [] == resolved;
    assert forall held: map<ProtocolId, Token>, p :: p !in held ==> held - {p} == held;
    match e
    case Respond(request, _, token, accepted) =>
      if request in v.inbound && accepted {
        NotYetConfirmed(v, protocols, request);
        SubmitConfirmation(v.confirmations, v.outbound, tokens, resolved, NameOf(v.protocolIds, request), token);
      } else {
        ResolveAtOnce(v.confirmations, v.outbound, tokens, resolved, token);
      }
    case Ask(outgoing, token) => SubmitRequest(v.confirmations, v.outbound, tokens, resolved, outgoing, token);
    case InboundFailure(p) =>
      if p in v.confirmations { ResolveConfirmation(v.confirmations, v.outbound, tokens, resolved, p); }
    case ResponseSent(p) =>
      if p in v.confirmations { ResolveConfirmation(v.confirmations, v.outbound, tokens, resolved, p); }
    case Response(o, _) => if o in v.outbound { ResolveRequest(v.confirmations, v.outbound, tokens, resolved, o); }
    case OutboundFailure(o) => if o in v.outbound { ResolveRequest(v.confirmations, v.outbound, tokens, resolved, o); }
    case Inbound(_, _, _) =>
  }

  // ------------------------------------------------------------------------ runs

  ghost predicate Bookkept(run: seq<Event>) {
    var v, log := After(run), Log(run);
    && NamesOk(v, Protocols(run)) && 1 <= v.nextId <= 1 + |run|
    && ChannelsOk(v.inbound, Channels(run), Answered(log))
    && TokensOk(v.confirmations, v.outbound, Tokens(run), Resolved(log))
    && (forall o :: o in v.outbound ==> o in Outgoings(run))
  }

  /**
   In every reachable state: each open channel has exactly one protocol id, no channel is
   answered twice, and every token submitted is either resolved once or still pending.
   */
  lemma {:induction false} EveryRunIsBookkept(run: seq<Event>)
    requires FreshRun(run)
    ensures Bookkept(run)
  {
    if run == [] {
      NothingYet();
    } else {
      var n := |run| - 1;
      var front, e := run[..n], run[n];
      assert run == front + [e];
      EveryRunIsBookkept(front);
      BookkeepStep(front, e);
    }
  }

  lemma NothingYet()
    ensures Bookkept([])
  {
    assert Answered([]) == [] && Resolved([]) == [];
  }

  lemma BookkeepStep(front: seq<Event>, e: Event)
    requires Bookkept(front) && FreshRun(front) && Fresh(front, e)
    ensures Bookkept(front + [e])
  {
    var v, log := After(front), Log(front);
    var (w, actions) := Step(v, e);
    assert (front + [e])[..|front|] == front;
    assert After(front + [e]) == w && Log(front + [e]) == log + actions;
    Used(front, e);
    AnsweredJoin(log, actions);
    ResolvedJoin(log, actions);
    StepNames(v, e, Protocols(front));
    StepChannels(v, e, Channels(front), Answered(log));
    assert e.Ask? ==> e.outgoing !in v.outbound;
    StepTokens(v, e, Protocols(front), Tokens(front), Resolved(log));
    StepOutgoing(v, e, Outgoings(front));
  }

  lemma StepOutgoing(v: View, e: Event, outgoings: set<ProtocolId>)
    requires forall o :: o in v.outbound ==> o in outgoings
    ensures forall o :: o in Step(v, e).0.outbound ==> o in outgoings + if e.Ask? then {e.outgoing} else {}
  {
  }

  /** An open channel is named by one protocol id and no other. */
  lemma OneName(run: seq<Event>, request: RequestId)
    requires FreshRun(run) && request in After(run).inbound
    ensures var ids := After(run).protocolIds;
            exists p :: p in ids && ids[p] == request && forall q :: q in ids && ids[q] == request ==> q == p
  {
    EveryRunIsBookkept(run);
    var p :| p in After(run).protocolIds && After(run).protocolIds[p] == request;
  }

  /** A caller is told that its response was sent only when the transport has said so. */
  lemma SentOnlyWhenReported(v: View, e: Event, token: Token)
    requires Resolve(token, Sent) in Step(v, e).1
    ensures e.ResponseSent? && e.protocol in v.confirmations && v.confirmations[e.protocol] == token
  {
  }

  /** The call that a pending confirmation comes from: a response to an open request, taken by the transport. */
  ghost predicate ConfirmedAt(run: seq<Event>, j: nat, p: ProtocolId, token: Token) {
    && j < |run| && run[j].Respond? && run[j].token == token && run[j].accepted
    && var v := After(run[..j]);
       && run[j].request in v.inbound && p in v.protocolIds && v.protocolIds[p] == run[j].request
       && Answer(v.inbound[run[j].request], run[j].response) in Step(v, run[j]).1
  }

  lemma {:induction false} ConfirmationOrigin(run: seq<Event>, p: ProtocolId, token: Token)
    requires p in After(run).confirmations && After(run).confirmations[p] == token
    ensures exists j :: ConfirmedAt(run, j, p, token)
  {
    if run != [] {
      var n := |run| - 1;
      var front, e, v := run[..n], run[n], After(run[..n]);
      if p in v.confirmations && v.confirmations[p] == token {
        ConfirmationOrigin(front, p, token);
        var j: nat :| ConfirmedAt(front, j, p, token);
        assert front[..j] == run[..j];
        assert ConfirmedAt(run, j, p, token);
      } else {
        assert ConfirmedAt(run, n, p, token);
      }
    }
  }

  /** Whoever is told "sent" had its response taken by the transport, for that very request, and reported sent. */
  lemma SentMeansSent(run: seq<Event>, e: Event, token: Token)
    requires Resolve(token, Sent) in Step(After(run), e).1
    ensures e.ResponseSent? && exists j :: ConfirmedAt(run, j, e.protocol, token)
  {
    SentOnlyWhenReported(After(run), e, token);
    ConfirmationOrigin(run, e.protocol, token);
  }

  /**
   A second response to a request fails at once.  It drops the request's protocol id, and
   the first response's confirmation is still pending and still resolved by what the
   transport reports.
   */
  lemma StaleResponse(v: View, request: RequestId, response: TransferResponse, token: Token, accepted: bool,
                      p: ProtocolId, outcome: Settlement)
    requires request !in v.inbound
    ensures var (w, actions) := Step(v, Respond(request, response, token, accepted));
            && actions == [Resolve(token, ResponseFailed)]
            && w == v.(protocolIds := Unnamed(v.protocolIds, request))
            && OnSettled(w, p, outcome).1 == OnSettled(v, p, outcome).1
  {
    var w := Step(v, Respond(request, response, token, accepted)).0;
    assert v.inbound - {request} == v.inbound;
  }

  // -------------------------------------------------------------- reports decide

  /** The transport's report on a response: sent, or failed. */
  predicate Reports(e: Event, p: ProtocolId) {
    (e.InboundFailure? || e.ResponseSent?) && e.protocol == p
  }

  /** The first report on a protocol id after position `j`. */
  predicate IsFirstReport(run: seq<Event>, j: nat, p: ProtocolId, k: nat) {
    j < k < |run| && Reports(run[k], p) && forall i :: j < i < k ==> !Reports(run[i], p)
  }

  predicate Awaits(v: View, p: ProtocolId, token: Token) {
    p in v.confirmations && v.confirmations[p] == token
  }

  lemma {:induction false} FreshPrefix(run: seq<Event>, n: nat)
    requires FreshRun(run) && n <= |run|
    ensures FreshRun(run[..n])
  {
    if n < |run| {
      FreshPrefix(run[..|run| - 1], n);
      assert run[..|run| - 1][..n] == run[..n];
    } else {
      assert run[..n] == run;
    }
  }

  /** Nothing but a report on its protocol id touches a pending confirmation, stale responses included. */
  lemma StillAwaits(v: View, e: Event, protocols: set<ProtocolId>, p: ProtocolId, token: Token)
    requires NamesOk(v, protocols) && Awaits(v, p, token) && !Reports(e, p)
    ensures Awaits(Step(v, e).0, p, token)
  {
    if e.Respond? && e.request in v.inbound { NotYetConfirmed(v, protocols, e.request); }
    hide NamesOk;
  }

  /** An accepted response waits for its report. */
  lemma AcceptedAwaits(run: seq<Event>, j: nat, p: ProtocolId, token: Token)
    requires FreshRun(run) && ConfirmedAt(run, j, p, token)
    ensures Awaits(After(run[..j + 1]), p, token)
  {
    FreshPrefix(run, j);
    EveryRunIsBookkept(run[..j]);
    assert run[..j + 1][..j] == run[..j];
    var v := After(run[..j]);
    assert NamesOk(v, Protocols(run[..j]));
    assert NameOf(v.protocolIds, run[j].request) == p;
  }

  lemma {:induction false} AwaitsUntil(run: seq<Event>, j: nat, n: nat, p: ProtocolId, token: Token)
    requires FreshRun(run) && ConfirmedAt(run, j, p, token) && j < n <= |run|
    requires forall i :: j < i < n ==> !Reports(run[i], p)
    ensures Awaits(After(run[..n]), p, token)
  {
    hide NamesOk, Step, ConfirmedAt, Awaits, ChannelsOk, TokensOk, FreshRun;
    if n == j + 1 {
      AcceptedAwaits(run, j, p, token);
    } else {
      var m := n - 1;
      AwaitsUntil(run, j, m, p, token);
      FreshPrefix(run, m);
      EveryRunIsBookkept(run[..m]);
      assert run[..n][..m] == run[..m];
      StillAwaits(After(run[..m]), run[m], Protocols(run[..m]), p, token);
    }
  }

  lemma {:induction false} LogGrows(run: seq<Event>, k: nat, a: Action)
    requires k < |run| && a in Step(After(run[..k]), run[k]).1
    ensures a in Log(run)
  {
    var n := |run| - 1;
    if k < n {
      assert run[..n][..k] == run[..k];
      LogGrows(run[..n], k, a);
    }
  }

  lemma {:induction false} ResolvedHas(log: seq<Action>, a: Action)
    requires a.Resolve? && a in log
    ensures a.token in Resolved(log)
  {
    var n := |log| - 1;
    assert log == log[..n] + [log[n]];
    if log[n] != a { ResolvedHas(log[..n], a); }
  }

  lemma LastIsNew(q: seq<nat>, last: nat)
    requires NoRepeats(q + [last])
    ensures last !in q
  {
    assert forall i :: 0 <= i < |q| ==> (q + [last])[i] == q[i] && (q + [last])[i] != (q + [last])[|q|];
  }

  /** A token that is resolved once has one outcome. */
  lemma {:induction false} OneOutcome(log: seq<Action>, a: Action, b: Action)
    requires NoRepeats(Resolved(log)) && a.Resolve? && b.Resolve? && a.token == b.token && a in log && b in log
    ensures a == b
  {
    var n := |log| - 1;
    var front := log[..n];
    assert log == front + [log[n]];
    var before := Resolved(front);
    assert log[n].Resolve? ==> Resolved(log) == before + [log[n].token];
    assert log[n].Resolve? ==> log[n].token !in before by {
      if log[n].Resolve? { LastIsNew(before, log[n].token); }
    }
    assert NoRepeats(before) by { assert forall i :: 0 <= i < |before| ==> Resolved(log)[i] == before[i]; }
    if a in front && b in front {
      OneOutcome(front, a, b);
    } else {
      if a in front { ResolvedHas(front, a); }
      if b in front { ResolvedHas(front, b); }
    }
  }

  /**
   Over every run with fresh ids, the caller of an accepted response is told "sent"
   exactly if the first report on its request says so, "failed" exactly if the first
   report says that, and nothing without a report, whatever stale responses come between.
   */
  lemma FirstReportDecides(run: seq<Event>, j: nat, p: ProtocolId, token: Token)
    requires FreshRun(run) && ConfirmedAt(run, j, p, token)
    ensures Resolve(token, Sent) in Log(run) <==> exists k: nat :: IsFirstReport(run, j, p, k) && run[k].ResponseSent?
    ensures Resolve(token, ResponseFailed) in Log(run)
            <==> exists k: nat :: IsFirstReport(run, j, p, k) && run[k].InboundFailure?
  {
    assert j < |run|;
    hide ConfirmedAt, FreshRun, Step, NamesOk, ChannelsOk;
    EveryRunIsBookkept(run);
    var k := NextReport(run, j, p, j + 1);
    if k == |run| {
      AwaitsUntil(run, j, |run|, p, token);
      assert run[..|run|] == run;
      assert Pending(After(run).confirmations, token);
      if Resolve(token, Sent) in Log(run) { ResolvedHas(Log(run), Resolve(token, Sent)); }
      if Resolve(token, ResponseFailed) in Log(run) { ResolvedHas(Log(run), Resolve(token, ResponseFailed)); }
    } else {
      AwaitsUntil(run, j, k, p, token);
      var outcome := if run[k].ResponseSent? then Sent else ResponseFailed;
      ReportResolves(After(run[..k]), run[k], p, token);
      LogGrows(run, k, Resolve(token, outcome));
      assert forall i: nat :: IsFirstReport(run, j, p, i) ==> i == k;
      if Resolve(token, Sent) in Log(run) { OneOutcome(Log(run), Resolve(token, Sent), Resolve(token, outcome)); }
      if Resolve(token, ResponseFailed) in Log(run) {
        OneOutcome(Log(run), Resolve(token, ResponseFailed), Resolve(token, outcome));
      }
    }
  }

  lemma ReportResolves(v: View, e: Event, p: ProtocolId, token: Token)
    requires Awaits(v, p, token) && Reports(e, p)
    ensures Resolve(token, if e.ResponseSent? then Sent else ResponseFailed) in Step(v, e).1
  {
  }

  lemma {:induction false} NextReport(run: seq<Event>, j: nat, p: ProtocolId, from: nat) returns (k: nat)
    requires j < from <= |run| && forall i :: j < i < from ==> !Reports(run[i], p)
    ensures k == |run| || IsFirstReport(run, j, p, k)
    ensures forall i :: j < i < k ==> !Reports(run[i], p)
    ensures j < k <= |run|
    decreases |run| - from
  {
    if from == |run| || Reports(run[from], p) {
      k := from;
    } else {
      k := NextReport(run, j, p, from + 1);
    }
  }
}
