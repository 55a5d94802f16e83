/** What holds over every run of a sender, whatever arrives and whenever. */
module SenderRuns {
  import opened Basics
  import opened Crypto
  import opened Wire
  import opened Sender

  datatype Event =
    | OpenArrives(peer: Bytes, open: OpenRequest, now: int, entropy: Entropy)
    | AcknowledgeArrives(peer: Bytes, acknowledge: AcknowledgeRequest)
    | Tick(now: int)

  datatype Reply =
    | ToOpen(offer: Result<OfferResponse, ErrorCode>, fills: nat)
    | ToAcknowledge(completed: Result<CompletedResponse, ErrorCode>)
    | Silence

  function Step(p: Primitives, s: SenderView, e: Event): (SenderView, Reply) {
    match e
    case OpenArrives(peer, open, now, entropy) =>
      var o := Opened(p, s, peer, open, now, entropy);
      (o.next, ToOpen(o.reply, o.fills))
    case AcknowledgeArrives(peer, acknowledge) =>
      var o := Acknowledged(s, peer, acknowledge);
      (o.next, ToAcknowledge(o.reply))
    case Tick(now) => (Ticked(s, now), Silence)
  }

  /** The sender after a whole run, and its reply to the event at one position. */
  function After(p: Primitives, s: SenderView, run: seq<Event>): SenderView {
    if run == [] then s else Step(p, After(p, s, run[..|run| - 1]), run[|run| - 1]).0
  }

  function ReplyAt(p: Primitives, s: SenderView, run: seq<Event>, i: nat): Reply
    requires i < |run|
  {
    Step(p, After(p, s, run[..i]), run[i]).1
  }

  predicate Fresh(s: SenderView) {
    s.state.Available? && s.root.Some? && s.envelope.Some? && s.claim.None?
  }

  // --------------------------------------------------------------- lifecycle

  /** What is observable between calls. */
  predicate Consistent(s: SenderView) {
    && !s.state.PreparingOffer?
    && (s.root.Some? <==> s.state.Available? || s.state.Disclosed?)
    && (s.envelope.Some? <==> s.state.Available? || s.state.Disclosed?)
    && (s.claim.Some? <==> s.state.Disclosed? || s.state.Consumed? || s.state.DeliveryUnknown?)
  }

  function Rank(state: Lifecycle): nat {
    match state
    case Available => 0
    case PreparingOffer => 1
    case Disclosed => 2
    case _ => 3
  }

  lemma StepKeepsConsistent(p: Primitives, s: SenderView, e: Event)
    requires Consistent(s)
    ensures Consistent(Step(p, s, e).0)
    ensures var t := Step(p, s, e).0; t.state == s.state || Rank(s.state) < Rank(t.state)
    ensures Step(p, s, e).0.share == s.share
    ensures s.claim.Some? ==> Step(p, s, e).0.claim == s.claim
  {
    hide Prepared, Proof;
  }

  /** Every reachable state is consistent, and the lifecycle only ever advances. */
  lemma {:induction false} LifecycleAdvances(p: Primitives, s: SenderView, run: seq<Event>, i: nat)
    requires Consistent(s) && i <= |run|
    ensures Consistent(After(p, s, run[..i])) && Consistent(After(p, s, run))
    ensures var a, b := After(p, s, run[..i]), After(p, s, run);
            && (a.state == b.state || Rank(a.state) < Rank(b.state))
            && a.share == b.share
            && (a.claim.Some? ==> b.claim == a.claim)
    decreases |run|
  {
    if i == |run| {
      assert run[..i] == run;
      if i > 0 {
        LifecycleAdvances(p, s, run[..i - 1], i - 1);
        StepKeepsConsistent(p, After(p, s, run[..i - 1]), run[i - 1]);
      }
    } else {
      var front := run[..|run| - 1];
      assert front[..i] == run[..i];
      LifecycleAdvances(p, s, front, i);
      StepKeepsConsistent(p, After(p, s, front), run[|run| - 1]);
    }
  }

  /**
   An open is told `ShareUnavailable` exactly when it is the one that notices a passed
   resume deadline, is never told `TemporarilyUnavailable`, and in every closed state is
   refused like an unauthenticated one.
   */
  lemma OpenRefusals(p: Primitives, s: SenderView, peer: Bytes, r: OpenRequest, now: int, e: Entropy)
    requires Consistent(s)
    ensures var o := Opened(p, s, peer, r, now, e);
            && o.reply != Err(TemporarilyUnavailable)
            && (o.reply == Err(ShareUnavailable) <==> s.state.Disclosed? && o.next.state.DeliveryUnknown?)
            && (Rank(s.state) == 3 && r.version == PROTOCOL_VERSION ==>
                  o.reply == Err(NotFoundOrUnauthorized) && o.next == s)
            && (r.version != PROTOCOL_VERSION || !Authenticates(p, s, peer, r) ==>
                  o.next == s && o.reply.Err? && o.fills == 0)
  {
    hide Prepared, Proof;
  }

  // ------------------------------------------------------------ single claim

  predicate Offers(r: Reply) { r.ToOpen? && r.offer.Ok? }

  predicate Completes(r: Reply) { r.ToAcknowledge? && r.completed.Ok? }

  predicate Draws(r: Reply) { r.ToOpen? && r.fills > 0 }

  /** What a preparation that succeeds binds its claim to. */
  lemma PreparedTerms(p: Primitives, s: SenderView, peer: Bytes, nonce: Bytes32, now: int, e: Entropy)
    requires s.root.Some? && s.envelope.Some?
    ensures var r := Prepared(p, s.share, s.root.value, s.envelope.value, peer, nonce, now, e);
            r.Ok? ==> && r.value.1.offer == r.value.0
                      && r.value.1.receiverPeer == peer && r.value.1.receiverNonce == nonce
                      && r.value.1.resumeDeadline == now + s.share.resumeDuration
  {
    hide Proof, Session, Stated;
  }

  lemma StepBindsClaim(p: Primitives, s: SenderView, e: Event)
    requires Consistent(s)
    ensures var (t, r) := Step(p, s, e);
            && (Offers(r) ==> && t.claim.Some? && r.offer.value == t.claim.value.offer
                              && e.peer == t.claim.value.receiverPeer
                              && e.open.receiverNonce == t.claim.value.receiverNonce)
            && (Completes(r) ==> && s.claim.Some? && Matches(s.claim.value, e.peer, e.acknowledge)
                                 && r.completed.value == CompletedResponse(PROTOCOL_VERSION, s.claim.value.claimId)
                                 && t.state.Consumed?)
            && (Draws(r) ==> s.state.Available? && !t.state.Available?)
            && (s.claim.None? && t.claim.Some? ==> Offers(r))
            && (Rank(s.state) == 3 ==> !Offers(r))
  {
    hide Proof, Prepared;
    if e.OpenArrives? && s.root.Some? && s.envelope.Some? {
      PreparedTerms(p, s, e.peer, e.open.receiverNonce, e.now, e.entropy);
    }
  }

  lemma {:induction false} ClaimWasOffered(p: Primitives, s: SenderView, run: seq<Event>)
    requires Fresh(s) && After(p, s, run).claim.Some?
    ensures exists j :: 0 <= j < |run| && Offers(ReplyAt(p, s, run, j))
  {
    if run != [] {
      var n := |run| - 1;
      var front := run[..n];
      LifecycleAdvances(p, s, front, n);
      StepBindsClaim(p, After(p, s, front), run[n]);
      if After(p, s, front).claim.Some? {
        ClaimWasOffered(p, s, front);
        var j :| 0 <= j < |front| && Offers(ReplyAt(p, s, front, j));
        assert front[..j] == run[..j];
        assert Offers(ReplyAt(p, s, run, j));
      } else {
        assert Offers(ReplyAt(p, s, run, n));
      }
    }
  }

  /** The state at one position of a run, related to the end of the run. */
  lemma Position(p: Primitives, s: SenderView, run: seq<Event>, i: nat)
    requires Fresh(s) && i < |run|
    ensures var a, b := After(p, s, run[..i]), After(p, s, run[..i + 1]);
            && Consistent(a) && Consistent(b)
            && (b, ReplyAt(p, s, run, i)) == Step(p, a, run[i])
            && (a.claim.Some? ==> After(p, s, run).claim == a.claim)
            && (b.claim.Some? ==> After(p, s, run).claim == b.claim)
  {
    LifecycleAdvances(p, s, run, i);
    LifecycleAdvances(p, s, run, i + 1);
    assert run[..i + 1][..i] == run[..i];
  }

  /** Every offer of a run is one offer, to one peer and nonce. */
  lemma OneOffer(p: Primitives, s: SenderView, run: seq<Event>, i: nat)
    requires Fresh(s) && i < |run| && Offers(ReplyAt(p, s, run, i))
    ensures After(p, s, run).claim.Some?
    ensures var claim := After(p, s, run).claim.value;
            && ReplyAt(p, s, run, i).offer.value == claim.offer
            && run[i].peer == claim.receiverPeer
            && run[i].open.receiverNonce == claim.receiverNonce
  {
    Position(p, s, run, i);
    StepBindsClaim(p, After(p, s, run[..i]), run[i]);
  }

  /** Every accepted acknowledgement matches that claim, follows an offer, and gets one answer. */
  lemma OneCompletion(p: Primitives, s: SenderView, run: seq<Event>, i: nat)
    requires Fresh(s) && i < |run| && Completes(ReplyAt(p, s, run, i))
    ensures After(p, s, run).claim.Some?
    ensures var claim := After(p, s, run).claim.value;
            && Matches(claim, run[i].peer, run[i].acknowledge)
            && ReplyAt(p, s, run, i).completed.value == CompletedResponse(PROTOCOL_VERSION, claim.claimId)
    ensures exists j :: 0 <= j < i && Offers(ReplyAt(p, s, run, j))
  {
    hide Step, Consistent, Offers, Matches;
    Position(p, s, run, i);
    StepBindsClaim(p, After(p, s, run[..i]), run[i]);
    ClaimWasOffered(p, s, run[..i]);
    var j :| 0 <= j < i && Offers(ReplyAt(p, s, run[..i], j));
    assert run[..i][..j] == run[..j];
    assert Offers(ReplyAt(p, s, run, j));
  }

  /** The deadlines of the claim, and the capability, as far as they are still held. */
  lemma StepKeepsTerms(p: Primitives, s: SenderView, e: Event)
    requires Consistent(s)
    ensures var (t, r) := Step(p, s, e);
            && (t.root.Some? ==> t.root == s.root)
            && (s.claim.None? && t.claim.Some? ==> && t.claim.value.resumeDeadline == e.now + s.share.resumeDuration
                                                   && e.now < s.share.availableDeadline)
            && (Offers(r) ==> && s.root.Some? && Authenticates(p, s, e.peer, e.open)
                              && e.open.version == PROTOCOL_VERSION
                              && e.now < if s.claim.None? then s.share.availableDeadline
                                         else s.claim.value.resumeDeadline)
  {
    hide Proof, Prepared;
    if e.OpenArrives? && s.root.Some? && s.envelope.Some? {
      PreparedTerms(p, s, e.peer, e.open.receiverNonce, e.now, e.entropy);
    }
  }

  lemma {:induction false} TermsStay(p: Primitives, s: SenderView, run: seq<Event>)
    requires Fresh(s)
    ensures var t := After(p, s, run);
            && Consistent(t) && t.share == s.share
            && (t.root.Some? ==> t.root == s.root)
            && (t.claim.Some? ==> t.claim.value.resumeDeadline < s.share.availableDeadline + s.share.resumeDuration)
  {
    if run != [] {
      var n := |run| - 1;
      TermsStay(p, s, run[..n]);
      StepKeepsConsistent(p, After(p, s, run[..n]), run[n]);
      StepKeepsTerms(p, After(p, s, run[..n]), run[n]);
    }
  }

  /**
   Whatever happened before, an offer goes only to an open that proves the capability for
   its own peer and nonce, and only before the two deadlines: the first offer before the
   share expires, a repeated one before the resume deadline.
   */
  lemma OffersAreEarned(p: Primitives, s: SenderView, run: seq<Event>, i: nat)
    requires Fresh(s) && i < |run| && Offers(ReplyAt(p, s, run, i))
    ensures var open := run[i].open;
            && open.version == PROTOCOL_VERSION && open.roomId == s.share.roomId
            && Proof(p, s.root.value.authenticationKey, OpenProof(ContextOf(s.share, run[i].peer), open.receiverNonce))
               == Ok(open.receiverProof)
    ensures var claim := After(p, s, run[..i]).claim;
            && run[i].now < (if claim.None? then s.share.availableDeadline else claim.value.resumeDeadline)
            && run[i].now < s.share.availableDeadline + s.share.resumeDuration
  {
    hide Proof, Step;
    TermsStay(p, s, run[..i]);
    StepKeepsTerms(p, After(p, s, run[..i]), run[i]);
  }

  lemma RankGrows(p: Primitives, s: SenderView, run: seq<Event>, i: nat, j: nat)
    requires Fresh(s) && i <= j <= |run|
    ensures Rank(After(p, s, run[..i]).state) <= Rank(After(p, s, run[..j]).state)
  {
    LifecycleAdvances(p, s, run[..j], i);
    assert run[..j][..i] == run[..i];
  }

  /**
   Single claim, over whole runs: all offers are equal and go to one peer and nonce,
   entropy is drawn for at most one open, all completions are equal, and nothing is
   offered again once an acknowledgement was accepted.
   */
  lemma SingleClaim(p: Primitives, s: SenderView, run: seq<Event>, i: nat, j: nat)
    requires Fresh(s) && i < j < |run|
    ensures var a, b := ReplyAt(p, s, run, i), ReplyAt(p, s, run, j);
            && (Offers(a) && Offers(b) ==> && a.offer == b.offer && run[i].peer == run[j].peer
                                           && run[i].open.receiverNonce == run[j].open.receiverNonce)
            && !(Draws(a) && Draws(b))
            && (Completes(a) && Completes(b) ==> && a.completed == b.completed && run[i].peer == run[j].peer
                                                 && run[i].acknowledge == run[j].acknowledge)
            && !(Completes(a) && Offers(b))
  {
    var a, b := ReplyAt(p, s, run, i), ReplyAt(p, s, run, j);
    if Offers(a) && Offers(b) {
      OneOffer(p, s, run, i);
      OneOffer(p, s, run, j);
    }
    if Completes(a) && Completes(b) {
      OneCompletion(p, s, run, i);
      OneCompletion(p, s, run, j);
    }
    Position(p, s, run, i);
    Position(p, s, run, j);
    StepBindsClaim(p, After(p, s, run[..i]), run[i]);
    StepBindsClaim(p, After(p, s, run[..j]), run[j]);
    RankGrows(p, s, run, i + 1, j);
  }

  // ------------------------------------------------------------------ resuming

  /**
   Repeating an open.  Once an offer has been made, an authenticated open before the
   resume deadline gets that very offer again exactly if it has the same peer and nonce,
   and is told that the share is claimed otherwise; either way nothing changes.
   */
  lemma ResumeRepeats(p: Primitives, s: SenderView, run: seq<Event>, i: nat, j: nat)
    requires Fresh(s) && i < j < |run| && Offers(ReplyAt(p, s, run, i)) && run[j].OpenArrives?
    requires var now := After(p, s, run[..j]);
             && now.state.Disclosed? && now.claim.Some? && run[j].now < now.claim.value.resumeDeadline
             && run[j].open.version == PROTOCOL_VERSION && Authenticates(p, now, run[j].peer, run[j].open)
    ensures var same := run[j].peer == run[i].peer && run[j].open.receiverNonce == run[i].open.receiverNonce;
            && ReplyAt(p, s, run, j).offer == (if same then ReplyAt(p, s, run, i).offer else Err(ShareAlreadyClaimed))
            && After(p, s, run[..j + 1]) == After(p, s, run[..j])
  {
    hide Step, After, ReplyAt, Authenticates, Consistent;
    OneOffer(p, s, run, i);
    Position(p, s, run, j);
    ResumeStep(p, After(p, s, run[..j]), run[j]);
  }

  lemma ResumeStep(p: Primitives, s: SenderView, e: Event)
    requires s.state.Disclosed? && s.claim.Some? && e.OpenArrives? && e.now < s.claim.value.resumeDeadline
    requires e.open.version == PROTOCOL_VERSION && Authenticates(p, s, e.peer, e.open)
    ensures var claim := s.claim.value;
            var same := e.peer == claim.receiverPeer && e.open.receiverNonce == claim.receiverNonce;
            Step(p, s, e) == (s, ToOpen(if same then Ok(claim.offer) else Err(ShareAlreadyClaimed), 0))
  {
    hide Prepared, Authenticates;
  }

  // -------------------------------------------------------- late acknowledgements

  /** A step that notices that the resume deadline has passed: a tick, or an authenticated open. */
  predicate Notices(p: Primitives, s: SenderView, e: Event) {
    && s.state.Disclosed? && s.claim.Some?
    && match e
       case Tick(now) => now >= s.claim.value.resumeDeadline
       case OpenArrives(peer, open, now, _) =>
         && open.version == PROTOCOL_VERSION && Authenticates(p, s, peer, open)
         && now >= s.claim.value.resumeDeadline
       case AcknowledgeArrives(_, _) => false
  }

  /** A claim is given up by exactly those steps. */
  lemma GivesUpExactly(p: Primitives, s: SenderView, e: Event)
    requires Consistent(s)
    ensures Step(p, s, e).0.state.DeliveryUnknown? <==> s.state.DeliveryUnknown? || Notices(p, s, e)
  {
    hide Prepared, Proof;
  }

  /** One step before a matching acknowledgement: it is still accepted exactly if the step did not notice. */
  lemma AcknowledgedAfterStep(p: Primitives, s: SenderView, e: Event, r: AcknowledgeRequest)
    requires Consistent(s) && s.state.Disclosed? && r.version == PROTOCOL_VERSION
    requires Matches(s.claim.value, s.claim.value.receiverPeer, r)
    ensures Acknowledged(Step(p, s, e).0, s.claim.value.receiverPeer, r).reply.Ok? <==> !Notices(p, s, e)
  {
    hide Prepared, Proof;
  }

  /** The event at a position notices that the deadline has passed. */
  predicate NoticedAt(p: Primitives, s: SenderView, run: seq<Event>, j: nat) {
    j < |run| && Notices(p, After(p, s, run[..j]), run[j])
  }

  lemma {:induction false} GivenUpAt(p: Primitives, s: SenderView, run: seq<Event>)
    requires Fresh(s)
    ensures After(p, s, run).state.DeliveryUnknown? <==> exists j: nat :: NoticedAt(p, s, run, j)
  {
    hide Notices, Step, Consistent;
    if run != [] {
      var n := |run| - 1;
      var front := run[..n];
      GivenUpAt(p, s, front);
      assert Consistent(After(p, s, front)) by { LifecycleAdvances(p, s, run, n); }
      GivesUpExactly(p, After(p, s, front), run[n]);
      if j: nat :| NoticedAt(p, s, run, j) { NoticedEarlier(p, s, run, n, j); }
      if j: nat :| NoticedAt(p, s, front, j) {
        NoticedEarlier(p, s, run, n, j);
        assert NoticedAt(p, s, run, j);
      }
      assert NoticedAt(p, s, run, n) <==> Notices(p, After(p, s, front), run[n]);
    }
  }

  lemma NoticedEarlier(p: Primitives, s: SenderView, run: seq<Event>, n: nat, j: nat)
    requires n <= |run|
    ensures NoticedAt(p, s, run[..n], j) <==> j < n && NoticedAt(p, s, run, j)
  {
    if j < n { assert run[..n][..j] == run[..j]; }
  }

  /**
   An acknowledgement is judged without a clock.  At any position of any run, one that
   matches the claim is accepted, however late it is, exactly if no earlier tick and no
   earlier authenticated open came at or past the resume deadline of the disclosed share.
   */
  lemma LateAcknowledgement(p: Primitives, s: SenderView, run: seq<Event>, i: nat)
    requires Fresh(s) && i < |run| && run[i].AcknowledgeArrives? && run[i].acknowledge.version == PROTOCOL_VERSION
    requires var claim := After(p, s, run[..i]).claim;
             claim.Some? && Matches(claim.value, run[i].peer, run[i].acknowledge)
    ensures ReplyAt(p, s, run, i).completed.Ok? <==> forall j: nat :: j < i ==> !NoticedAt(p, s, run, j)
  {
    hide Notices, NoticedAt;
    GivenUpAt(p, s, run[..i]);
    Position(p, s, run, i);
    forall j: nat ensures NoticedAt(p, s, run[..i], j) <==> j < i && NoticedAt(p, s, run, j) {
      NoticedEarlier(p, s, run, i, j);
    }
  }

  // --------------------------------------------------------------------- expiry

  /** A step that finds an unclaimed share past its deadline: a tick, or an authenticated open. */
  predicate Expires(p: Primitives, s: SenderView, e: Event) {
    && s.state.Available?
    && match e
       case Tick(now) => now >= s.share.availableDeadline
       case OpenArrives(peer, open, now, _) =>
         && open.version == PROTOCOL_VERSION && Authenticates(p, s, peer, open)
         && now >= s.share.availableDeadline
       case AcknowledgeArrives(_, _) => false
  }

  /** A share expires by exactly those steps, and only the open that notices is told so. */
  lemma ExpiresExactly(p: Primitives, s: SenderView, e: Event)
    requires Consistent(s)
    ensures var (t, r) := Step(p, s, e);
            && (t.state.Expired? <==> s.state.Expired? || Expires(p, s, e))
            && (Expires(p, s, e) ==> t.root.None? && t.envelope.None?)
            && (r.ToOpen? && r.offer == Err(ShareExpired) <==> e.OpenArrives? && Expires(p, s, e))
  {
    hide Prepared, Proof;
  }

  predicate ExpiresAt(p: Primitives, s: SenderView, run: seq<Event>, j: nat) {
    j < |run| && Expires(p, After(p, s, run[..j]), run[j])
  }

  /** A run ends expired exactly if the share expired at some event of it. */
  lemma {:induction false} ExpiredAt(p: Primitives, s: SenderView, run: seq<Event>)
    requires Fresh(s)
    ensures After(p, s, run).state.Expired? <==> exists j: nat :: ExpiresAt(p, s, run, j)
  {
    hide Expires, Step, Consistent;
    if run != [] {
      var n := |run| - 1;
      var front := run[..n];
      ExpiredAt(p, s, front);
      assert Consistent(After(p, s, front)) by { LifecycleAdvances(p, s, run, n); }
      ExpiresExactly(p, After(p, s, front), run[n]);
      if j: nat :| ExpiresAt(p, s, run, j) && j < n {
        assert front[..j] == run[..j];
        assert ExpiresAt(p, s, front, j);
      }
      if j: nat :| ExpiresAt(p, s, front, j) {
        assert front[..j] == run[..j];
        assert ExpiresAt(p, s, run, j);
      }
      assert ExpiresAt(p, s, run, n) <==> Expires(p, After(p, s, front), run[n]);
    }
  }

  /**
   The deadline is kept over runs: from a tick at or past it on, the share is available no
   more, and unless it is disclosed the root and the envelope are gone.
   */
  lemma TickEndsAvailability(p: Primitives, s: SenderView, run: seq<Event>, i: nat)
    requires Fresh(s) && i < |run| && run[i].Tick? && run[i].now >= s.share.availableDeadline
    ensures var t := After(p, s, run);
            && !t.state.Available?
            && (!t.state.Disclosed? ==> t.root.None? && t.envelope.None?)
  {
    TermsStay(p, s, run[..i]);
    Position(p, s, run, i);
    TickCloses(p, After(p, s, run[..i]), run[i]);
    RankGrows(p, s, run, i + 1, |run|);
    assert run[..|run|] == run;
    LifecycleAdvances(p, s, run, |run|);
  }

  lemma TickCloses(p: Primitives, s: SenderView, e: Event)
    requires Consistent(s) && e.Tick? && e.now >= s.share.availableDeadline
    ensures !Step(p, s, e).0.state.Available? && Rank(Step(p, s, e).0.state) > 0
  {
  }

  // -------------------------------------------------------------------- answers

  /** An open that names this version and proves the capability. */
  predicate Proves(p: Primitives, s: SenderView, peer: Bytes, r: OpenRequest) {
    r.version == PROTOCOL_VERSION && Authenticates(p, s, peer, r)
  }

  /** Exactly when an open gets which answer. */
  lemma OpenAnswers(p: Primitives, s: SenderView, peer: Bytes, r: OpenRequest, now: int, e: Entropy)
    requires Consistent(s)
    ensures var reply := Opened(p, s, peer, r, now, e).reply;
            var waiting := Proves(p, s, peer, r) && s.state.Available? && now < s.share.availableDeadline;
            var claimed := Proves(p, s, peer, r) && s.state.Disclosed? && now < s.claim.value.resumeDeadline;
            var same := s.claim.Some? && peer == s.claim.value.receiverPeer
                        && r.receiverNonce == s.claim.value.receiverNonce;
            var prepared := waiting && Prepares(p, s, peer, r.receiverNonce, now, e);
            && (reply.Ok? <==> prepared || (claimed && same))
            && (reply == Err(UnsupportedVersion) <==> r.version != PROTOCOL_VERSION)
            && (reply == Err(NotFoundOrUnauthorized)
                <==> r.version == PROTOCOL_VERSION && !Authenticates(p, s, peer, r))
            && (reply == Err(InternalFailure) <==> waiting && !prepared)
            && (reply == Err(ShareAlreadyClaimed) <==> claimed && !same)
  {
    hide Prepared, Proof;
  }

  predicate Prepares(p: Primitives, s: SenderView, peer: Bytes, nonce: Bytes32, now: int, e: Entropy) {
    && s.root.Some? && s.envelope.Some?
    && Prepared(p, s.share, s.root.value, s.envelope.value, peer, nonce, now, e).Ok?
  }

  /** How much entropy an open draws: up to the first draw that fails, and only to prepare an offer. */
  lemma DrawsExactly(p: Primitives, s: SenderView, peer: Bytes, r: OpenRequest, now: int, e: Entropy)
    requires Consistent(s)
    ensures var fills := Opened(p, s, peer, r, now, e).fills;
            var waiting := Proves(p, s, peer, r) && s.state.Available? && now < s.share.availableDeadline;
            && (fills == 0 <==> !waiting)
            && (fills == 1 <==> waiting && e.senderNonce.None?)
            && (fills == 2 <==> waiting && e.senderNonce.Some? && e.claimId.None?)
            && (fills == 3 <==> waiting && e.senderNonce.Some? && e.claimId.Some?)
  {
    hide Prepared, Proof;
  }

  /** Exactly when an acknowledgement gets which answer. */
  lemma AcknowledgeAnswers(s: SenderView, peer: Bytes, r: AcknowledgeRequest)
    requires Consistent(s)
    ensures var o := Acknowledged(s, peer, r);
            var current := r.version == PROTOCOL_VERSION;
            var expected := s.state.Disclosed? || s.state.Consumed?;
            && (o.reply == Err(UnsupportedVersion) <==> !current)
            && (o.reply == Err(ShareUnavailable) <==> current && !expected)
            && (o.reply == Err(ClaimMismatch) <==> current && expected && !Matches(s.claim.value, peer, r))
            && (o.reply.Ok? <==> current && expected && Matches(s.claim.value, peer, r))
            && (if o.reply.Ok? then o.next.state.Consumed? else o.next == s)
  {
  }

  // --------------------------------------------------------- direct transport

  predicate Terminal(state: Lifecycle) { Rank(state) == 3 }

  /** What the loop of the direct sender waits for, and whether its response could be sent. */
  datatype Arrival =
    | Arrives(event: Event, sent: bool)
    | Unrelated
    | StreamClosed
    | Cancelled

  /** The events among the arrivals. */
  function EventsOf(arrivals: seq<Arrival>): seq<Event> {
    if arrivals == [] then [] else
    var last := arrivals[|arrivals| - 1];
    EventsOf(arrivals[..|arrivals| - 1]) + if last.Arrives? then [last.event] else []
  }

  /** An arrival that ends the loop whatever the state: a tick needs no response. */
  function Ends(arrival: Arrival, state: Lifecycle): Option<Result<Lifecycle, CoreError>> {
    match arrival
    case Arrives(event, sent) => if !event.Tick? && !sent then Some(Err(Network)) else None
    case Unrelated => None
    case StreamClosed => Some(Err(Network))
    case Cancelled => Some(Ok(state))
  }

  /** Whether the loop is over after an arrival, and with what. */
  function Over(arrival: Arrival, state: Lifecycle): Option<Result<Lifecycle, CoreError>> {
    if Ends(arrival, state).Some? then Ends(arrival, state)
    else if Terminal(state) then Some(Ok(state)) else None
  }

  /** The state after the first `n` arrivals. */
  function StateAfter(p: Primitives, s: SenderView, arrivals: seq<Arrival>, n: nat): SenderView
    requires n <= |arrivals|
  {
    After(p, s, EventsOf(arrivals[..n]))
  }

  lemma OneArrival(p: Primitives, s: SenderView, arrivals: seq<Arrival>, n: nat)
    requires n < |arrivals|
    ensures StateAfter(p, s, arrivals, n + 1)
         == if arrivals[n].Arrives? then Step(p, StateAfter(p, s, arrivals, n), arrivals[n].event).0
            else StateAfter(p, s, arrivals, n)
  {
    assert arrivals[..n + 1][..n] == arrivals[..n];
    var events, more := EventsOf(arrivals[..n]), EventsOf(arrivals[..n + 1]);
    assert more == events + if arrivals[n].Arrives? then [arrivals[n].event] else [];
    if arrivals[n].Arrives? {
      assert more[..|more| - 1] == events;
    } else {
      assert more == events;
    }
  }

  lemma NoArrivals(p: Primitives, s: SenderView, arrivals: seq<Arrival>)
    ensures StateAfter(p, s, arrivals, 0) == s
  {
    assert arrivals[..0] == [];
  }

  /** `handle_event`, and the timer. */
  method ServeOne(actor: SenderActor, event: Event) returns (reply: Reply)
    modifies actor
    ensures (actor.View(), reply) == Step(actor.primitives, old(actor.View()), event)
  {
    hide Opened, Acknowledged, Ticked;
    match event
    case OpenArrives(peer, open, now, entropy) =>
      var offer, fills := actor.HandleOpen(peer, open, now, entropy);
      reply := ToOpen(offer, fills);
    case AcknowledgeArrives(peer, acknowledge) =>
      var completed := actor.HandleAcknowledgement(peer, acknowledge);
      reply := ToAcknowledge(completed);
    case Tick(now) =>
      actor.HandleTimer(now);
      reply := Silence;
  }

  /**
   `DirectSender::run`: arrivals are served one at a time.  The loop stops at the first
   one that closes the share, cancels, ends the event stream or cannot be answered, and
   at no earlier one; the last two are network errors, even if the share was consumed.
   `None` stands for a loop that still waits.
   */
  method Serve(actor: SenderActor, arrivals: seq<Arrival>)
    returns (r: Option<Result<Lifecycle, CoreError>>, served: nat)
    modifies actor
    ensures served <= |arrivals|
    ensures actor.View() == StateAfter(actor.primitives, old(actor.View()), arrivals, served)
    ensures forall i :: 0 <= i < served - 1 ==>
              Over(arrivals[i], StateAfter(actor.primitives, old(actor.View()), arrivals, i + 1).state).None?
    ensures if served == 0 then r.None? else r == Over(arrivals[served - 1], actor.state)
    ensures r.None? ==> served == |arrivals|
  {
    hide Step, After;
    ghost var s := actor.View();
    served := 0;
    NoArrivals(actor.primitives, s, arrivals);
    while served < |arrivals|
      invariant served <= |arrivals|
      invariant actor.View() == StateAfter(actor.primitives, s, arrivals, served)
      invariant forall i :: 0 <= i < served ==>
                  Over(arrivals[i], StateAfter(actor.primitives, s, arrivals, i + 1).state).None?
    {
      OneArrival(actor.primitives, s, arrivals, served);
      var arrival := arrivals[served];
      served := served + 1;
      match arrival {
        case Cancelled => return Some(Ok(actor.state)), served;
        case StreamClosed => return Some(Err(Network)), served;
        case Unrelated =>
        case Arrives(event, sent) =>
          var reply := ServeOne(actor, event);
          if !event.Tick? && !sent { return Some(Err(Network)), served; }
      }
      if actor.state.Consumed? || actor.state.Expired? || actor.state.DeliveryUnknown? || actor.state.FailedClosed? {
        return Some(Ok(actor.state)), served;
      }
    }
    return None, served;
  }
}
