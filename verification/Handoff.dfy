/** Sender and receiver together: completeness and agreement of the handoff. */
module Handoff {
  import opened Basics
  import opened Transcripts
  import opened Crypto
  import opened Wire
  import opened Envelopes
  import opened Sender
  import opened SenderRuns
  import opened Receiver
  import Frame

  // -------------------------------------------------------------- the setting

  /** Both ends of one share, the receiver holding the same capability root. */
  datatype Setting = Setting(
    root: Root, networkId: Bytes, senderPeer: Bytes, receiverPeer: Bytes, receiverNonce: Bytes32,
    envelope: SecretEnvelope, availableDeadline: int, resumeDuration: nat, lastInstant: int)

  /** Nothing more than what both constructors and the context validation ask for. */
  predicate Admissible(h: Setting) {
    && Constructible(h.envelope)
    && ValidateNetworkId(h.networkId).Ok?
    && h.senderPeer != [] && h.receiverPeer != []
  }

  function Peers(h: Setting): Context {
    Context(h.networkId, h.root.roomId, h.senderPeer, h.receiverPeer)
  }

  function StartOf(h: Setting): (s: SenderView)
    requires Admissible(h)
    ensures Fresh(s) && s.root == Some(h.root) && s.envelope == Some(EnvelopeBytes(h.envelope))
    ensures forall peer :: ContextOf(s.share, peer) == Peers(h).(receiverPeer := peer)
    ensures s.share.availableDeadline == h.availableDeadline
    ensures s.share.resumeDuration == h.resumeDuration && s.share.lastInstant == h.lastInstant
  {
    EnvelopeFits(h.envelope);
    Created(h.root, h.networkId, h.senderPeer, h.envelope, h.availableDeadline, h.resumeDuration, h.lastInstant).value
  }

  function SessionOf(h: Setting): ReceiverSession
    requires Admissible(h)
  {
    NewSession(h.root, h.networkId, h.senderPeer, h.receiverPeer, h.receiverNonce).value
  }

  /** The largest transcript of the exchange, the offer proof, fits the builder. */
  predicate TranscriptsFit(h: Setting) {
    225 + PeerBytes(Peers(h)) <= MAX_TRANSCRIPT_BYTES
  }

  predicate OpenFits(h: Setting) {
    90 + PeerBytes(Peers(h)) <= MAX_TRANSCRIPT_BYTES
  }

  lemma StatementFits(s: Statement)
    requires ValidateContext(s.context).Ok?
    ensures Stated(s).Ok? <==> Overhead(s) + PeerBytes(s.context) <= MAX_TRANSCRIPT_BYTES
  {
    hide Fields;
    StatementSize(s);
  }

  function RequestOf(p: Primitives, h: Setting): OpenRequest
    requires Admissible(h) && OpenFits(h)
  {
    OpenFormed(p, h);
    OpenRequestOf(p, SessionOf(h)).value
  }

  // ------------------------------------------------------------- completeness

  /** The receiver can form its request exactly when the open transcript fits. */
  lemma OpenFormed(p: Primitives, h: Setting)
    requires Admissible(h)
    ensures OpenRequestOf(p, SessionOf(h)).Ok? <==> OpenFits(h)
    ensures OpenFits(h) ==> Authenticates(p, StartOf(h), h.receiverPeer, OpenRequestOf(p, SessionOf(h)).value)
  {
    hide Stated;
    StatementFits(OpenProof(Peers(h), h.receiverNonce));
    assert ContextOf(StartOf(h).share, h.receiverPeer) == Peers(h);
  }

  /** What the share of the setting prepares for its receiver. */
  function PreparedFor(p: Primitives, h: Setting, now: int, e: Entropy): Result<(OfferResponse, BoundClaim), ()>
    requires Admissible(h)
  {
    var s := StartOf(h);
    Prepared(p, s.share, h.root, s.envelope.value, h.receiverPeer, h.receiverNonce, now, e)
  }

  /** With entropy and a representable deadline, preparation succeeds exactly when everything fits. */
  lemma PreparationSucceeds(p: Primitives, h: Setting, now: int, e: Entropy)
    requires AeadLaws(p) && Admissible(h) && EntropyAvailable(e)
    requires now + h.resumeDuration <= h.lastInstant
    ensures PreparedFor(p, h, now, e).Ok? <==> TranscriptsFit(h)
  {
    hide Stated;
    var s, c := StartOf(h), Peers(h);
    assert ContextOf(s.share, h.receiverPeer) == c;
    var sn, id, an := e.senderNonce.value, e.claimId.value, e.aeadNonce.value;
    EnvelopeFits(h.envelope);
    StatementFits(PayloadKey(c, id));
    StatementFits(AckKey(c, id));
    StatementFits(PayloadAad(c, h.receiverNonce, sn, id, s.share.metadata));
    var m := s.share.metadata;
    forall d: Bytes32 ensures Stated(OfferProof(c, h.receiverNonce, sn, id, m, an, d)).Ok? <==> TranscriptsFit(h) {
      StatementFits(OfferProof(c, h.receiverNonce, sn, id, m, an, d));
    }
    forall d: Bytes32 ensures Stated(AckProof(c, id, d)).Ok? <==> 109 + PeerBytes(c) <= MAX_TRANSCRIPT_BYTES {
      StatementFits(AckProof(c, id, d));
    }
  }

  /** A prepared offer verifies, gives back the sender's envelope, and yields the expected acknowledgement. */
  lemma PreparedVerifies(p: Primitives, h: Setting, now: int, e: Entropy)
    requires AeadLaws(p) && Admissible(h)
    requires PreparedFor(p, h, now, e).Ok?
    ensures var (offer, claim) := PreparedFor(p, h, now, e).value;
            var proof := claim.expectedAcknowledgement;
            var acknowledgement := AcknowledgeRequest(PROTOCOL_VERSION, claim.claimId, claim.digest, proof);
            && VerifyOffer(p, SessionOf(h), offer) == Ok(VerifiedOffer(h.envelope, acknowledgement))
            && claim.receiverPeer == h.receiverPeer && claim.offer == offer
            && ValidOffer(offer)
  {
    hide Stated, EnvelopeBytes, Decoded;
    assert ContextOf(StartOf(h).share, h.receiverPeer) == SessionContext(SessionOf(h));
    EnvelopeFits(h.envelope);
    EnvelopeRoundTrip(h.envelope);
  }

  /**
   The size chain: every envelope encodes within its bound, its ciphertext with the tag
   fits the ciphertext bound, and an offer that carries it always fits a response frame.
   */
  lemma OfferAlwaysFits(p: Primitives, envelope: SecretEnvelope, key: Bytes32, nonce: Bytes24, aad: Bytes,
                        o: OfferResponse)
    requires AeadLaws(p) && Constructible(envelope)
    requires Encoded(envelope).Ok? ==> p.seal(key, nonce, Encoded(envelope).value, aad) == Some(o.ciphertext)
    requires o.plaintextLength == |envelope.payload|
    ensures Encoded(envelope).Ok? && |o.ciphertext| == |Encoded(envelope).value| + TAG_BYTES <= MAX_CIPHERTEXT_BYTES
    ensures Frame.EncodedResponseFrame(Offer(o)).Ok?
  {
    hide EnvelopeBytes, Frame.EncodedResponseFrame;
    EnvelopeFits(envelope);
    Frame.ResponseFrameRoundTrip(Offer(o));
  }

  /**
   End-to-end completeness.  For every capability, identities, nonce and envelope that
   can be constructed, an exchange within the deadlines and with entropy ends with the
   receiver holding exactly the sender's envelope and the sender consumed, if and only
   if the offer transcript fits; otherwise the share closes without an offer.
   */
  lemma HandoffCompletes(p: Primitives, h: Setting, now: int, e: Entropy)
    requires AeadLaws(p) && Admissible(h) && OpenFits(h) && EntropyAvailable(e)
    requires now < h.availableDeadline && now + h.resumeDuration <= h.lastInstant
    ensures var offered := Opened(p, StartOf(h), h.receiverPeer, RequestOf(p, h), now, e);
            if TranscriptsFit(h) then
              && offered.reply.Ok?
              && offered.next.state.Disclosed?
              && var verified := VerifyOffer(p, SessionOf(h), offered.reply.value);
              && verified.Ok?
              && verified.value.envelope == h.envelope
              && var acked := Acknowledged(offered.next, h.receiverPeer, verified.value.acknowledgement);
              && acked.reply.Ok?
              && acked.next.state.Consumed?
              && Released(verified.value, Completed(acked.reply.value)) == Ok(h.envelope)
            else
              offered.reply == Err(InternalFailure) && offered.next.state.FailedClosed?
  {
    hide Prepared, Proof, VerifyOffer;
    OpenFormed(p, h);
    PreparationSucceeds(p, h, now, e);
    if TranscriptsFit(h) {
      PreparedVerifies(p, h, now, e);
    }
  }

  /** The reply a sender puts on the wire. */
  function OpenResponse(reply: Result<OfferResponse, ErrorCode>): TransferResponse {
    match reply
    case Ok(offer) => Offer(offer)
    case Err(code) => Error(ErrorResponse(PROTOCOL_VERSION, code))
  }

  function AcknowledgeResponse(reply: Result<CompletedResponse, ErrorCode>): TransferResponse {
    match reply
    case Ok(completed) => Completed(completed)
    case Err(code) => Error(ErrorResponse(PROTOCOL_VERSION, code))
  }

  /**
   The same exchange through the frame codec: all four messages encode, and what each
   side decodes is what the other encoded, so the handoff completes over bytes.
   */
  lemma HandoffCompletesOverFrames(p: Primitives, h: Setting, now: int, e: Entropy)
    requires AeadLaws(p) && Admissible(h) && TranscriptsFit(h) && EntropyAvailable(e)
    requires now < h.availableDeadline && now + h.resumeDuration <= h.lastInstant
    ensures var open := OpenRequestOf(p, SessionOf(h));
            && open.Ok? && Frame.EncodedRequestFrame(Open(open.value)).Ok?
            && var atSender := Frame.DecodedRequestFrame(Frame.EncodedRequestFrame(Open(open.value)).value);
            && atSender.Ok? && atSender.value.Open?
            && var offered := Opened(p, StartOf(h), h.receiverPeer, atSender.value.open, now, e);
            && Frame.EncodedResponseFrame(OpenResponse(offered.reply)).Ok?
            && var sent := Frame.EncodedResponseFrame(OpenResponse(offered.reply)).value;
            && var atReceiver := Frame.DecodedResponseFrame(sent);
            && atReceiver.Ok?
            && var verified := Received(p, SessionOf(h), atReceiver.value);
            && verified.Ok? && verified.value.envelope == h.envelope
            && Frame.EncodedRequestFrame(Acknowledge(verified.value.acknowledgement)).Ok?
            && var ackAtSender := Frame.DecodedRequestFrame(
                                    Frame.EncodedRequestFrame(Acknowledge(verified.value.acknowledgement)).value);
            && ackAtSender.Ok? && ackAtSender.value.Acknowledge?
            && var acked := Acknowledged(offered.next, h.receiverPeer, ackAtSender.value.acknowledge);
            && acked.next.state.Consumed?
            && Frame.EncodedResponseFrame(AcknowledgeResponse(acked.reply)).Ok?
            && var answer := Frame.EncodedResponseFrame(AcknowledgeResponse(acked.reply)).value;
            && var completion := Frame.DecodedResponseFrame(answer);
            && completion.Ok? && Released(verified.value, completion.value) == Ok(h.envelope)
  {
    hide Prepared, Proof, VerifyOffer, Frame.EncodedRequestFrame, Frame.DecodedRequestFrame,
      Frame.EncodedResponseFrame, Frame.DecodedResponseFrame;
    HandoffCompletes(p, h, now, e);
    OpenFormed(p, h);
    PreparationSucceeds(p, h, now, e);
    PreparedVerifies(p, h, now, e);
    var open := OpenRequestOf(p, SessionOf(h)).value;
    Frame.RequestFrameRoundTrip(Open(open));
    var offered := Opened(p, StartOf(h), h.receiverPeer, open, now, e);
    Frame.ResponseFrameRoundTrip(OpenResponse(offered.reply));
    var verified := VerifyOffer(p, SessionOf(h), offered.reply.value).value;
    Frame.RequestFrameRoundTrip(Acknowledge(verified.acknowledgement));
    var acked := Acknowledged(offered.next, h.receiverPeer, verified.acknowledgement);
    Frame.ResponseFrameRoundTrip(AcknowledgeResponse(acked.reply));
  }

  // ------------------------------------------------------------- interference

  /** The receiver's own open, as often as it likes. */
  predicate Own(p: Primitives, h: Setting, e: Event)
    requires Admissible(h) && OpenFits(h)
  {
    e.OpenArrives? && e.peer == h.receiverPeer && e.open == RequestOf(p, h)
  }

  /**
   What may happen around an exchange: opens that do not authenticate, acknowledgements
   that do not match, the receiver's own opens with entropy for the first, and nothing
   of these nor a tick past a deadline.
   */
  predicate Harmless(p: Primitives, h: Setting, s: SenderView, e: Event)
    requires Admissible(h) && OpenFits(h)
  {
    match e
    case Tick(now) => InTime(s, now)
    case AcknowledgeArrives(peer, r) => s.claim.Some? ==> !Matches(s.claim.value, peer, r)
    case OpenArrives(peer, open, now, entropy) =>
      || open.version != PROTOCOL_VERSION
      || !Authenticates(p, s, peer, open)
      || (Own(p, h, e) && InTime(s, now) && EntropyAvailable(entropy) && now + h.resumeDuration <= h.lastInstant)
  }

  predicate InTime(s: SenderView, now: int) {
    && (s.state.Available? ==> now < s.share.availableDeadline)
    && (s.state.Disclosed? && s.claim.Some? ==> now < s.claim.value.resumeDeadline)
  }

  predicate HarmlessRun(p: Primitives, h: Setting, run: seq<Event>)
    requires Admissible(h) && OpenFits(h)
  {
    run == [] ||
    var n := |run| - 1;
    HarmlessRun(p, h, run[..n]) && Harmless(p, h, After(p, StartOf(h), run[..n]), run[n])
  }

  /** The share disclosed to this receiver, with nothing else changed. */
  ghost predicate DisclosedTo(p: Primitives, h: Setting, t: SenderView)
    requires Admissible(h)
  {
    && t.claim.Some? && t == StartOf(h).(state := Disclosed, claim := t.claim)
    && t.claim.value.receiverPeer == h.receiverPeer && t.claim.value.receiverNonce == h.receiverNonce
    && exists now, e :: PreparedAs(p, StartOf(h), t.claim.value, now, e)
  }

  lemma HarmlessStep(p: Primitives, h: Setting, s: SenderView, e: Event)
    requires AeadLaws(p) && Admissible(h) && OpenFits(h) && TranscriptsFit(h)
    requires s == StartOf(h) || DisclosedTo(p, h, s)
    requires Harmless(p, h, s, e)
    ensures var (t, r) := Step(p, s, e);
            && (t == StartOf(h) || DisclosedTo(p, h, t))
            && (DisclosedTo(p, h, s) ==> DisclosedTo(p, h, t))
            && (Own(p, h, e) ==> Offers(r) && DisclosedTo(p, h, t))
  {
    hide Prepared, Proof, StartOf, Peers, RequestOf;
    if e.OpenArrives? && Own(p, h, e) {
      OwnAuthenticates(p, h, s);
      if s == StartOf(h) {
        PreparationSucceeds(p, h, e.now, e.entropy);
        PreparedBinds(p, s.share, h.root, s.envelope.value, h.receiverPeer, h.receiverNonce, e.now, e.entropy);
        var made := PreparedFor(p, h, e.now, e.entropy).value;
        assert PreparedAs(p, s, made.1, e.now, e.entropy);
      }
    }
  }

  lemma OwnAuthenticates(p: Primitives, h: Setting, s: SenderView)
    requires Admissible(h) && OpenFits(h) && s.share == StartOf(h).share && s.root == StartOf(h).root
    ensures Authenticates(p, s, h.receiverPeer, RequestOf(p, h))
    ensures RequestOf(p, h).version == PROTOCOL_VERSION && RequestOf(p, h).receiverNonce == h.receiverNonce
  {
    hide Proof;
    OpenFormed(p, h);
  }

  lemma {:induction false} HarmlessState(p: Primitives, h: Setting, run: seq<Event>, i: nat)
    requires AeadLaws(p) && Admissible(h) && OpenFits(h) && TranscriptsFit(h) && HarmlessRun(p, h, run)
    ensures var t := After(p, StartOf(h), run);
            && (t == StartOf(h) || DisclosedTo(p, h, t))
            && (i < |run| && Own(p, h, run[i]) ==> Offers(ReplyAt(p, StartOf(h), run, i)) && DisclosedTo(p, h, t))
  {
    hide StartOf, Step, Own, Harmless, DisclosedTo, Offers;
    if run != [] {
      var n := |run| - 1;
      HarmlessState(p, h, run[..n], i);
      HarmlessStep(p, h, After(p, StartOf(h), run[..n]), run[n]);
      if i < n { assert run[..n][..i] == run[..i]; }
    }
  }

  /**
   Completeness under interference.  Whatever else arrives, as long as it neither proves
   the capability nor comes past a deadline, each open of the receiver is answered with an
   offer that verifies to the sender's envelope, and its acknowledgement, whenever it
   comes, consumes the share and releases the envelope.
   */
  lemma HandoffUnderInterference(p: Primitives, h: Setting, run: seq<Event>, i: nat)
    requires AeadLaws(p) && Admissible(h) && OpenFits(h) && TranscriptsFit(h) && HarmlessRun(p, h, run)
    requires i < |run| && Own(p, h, run[i])
    ensures var reply := ReplyAt(p, StartOf(h), run, i);
            && Offers(reply)
            && var verified := VerifyOffer(p, SessionOf(h), reply.offer.value);
            && verified.Ok? && verified.value.envelope == h.envelope
            && var acked := Acknowledged(After(p, StartOf(h), run), h.receiverPeer, verified.value.acknowledgement);
            && acked.reply.Ok? && acked.next.state.Consumed?
            && Released(verified.value, Completed(acked.reply.value)) == Ok(h.envelope)
  {
    hide StartOf, Step, Own, HarmlessRun, Prepared, VerifyOffer, After, ReplyAt;
    HarmlessState(p, h, run, i);
    OneOffer(p, StartOf(h), run, i);
    var claim := After(p, StartOf(h), run).claim.value;
    var now, e :| PreparedAs(p, StartOf(h), claim, now, e);
    PreparedVerifies(p, h, now, e);
  }

  // ---------------------------------------------------------------- agreement

  /** Two keyed transcripts that differ but have one HMAC value. */
  predicate MacCollides(p: Primitives, k: Bytes32, a: Statement, l: Bytes32, b: Statement) {
    && Stated(a).Ok? && Stated(b).Ok?
    && (k != l || Stated(a).value != Stated(b).value)
    && p.hmac(k, Stated(a).value) == p.hmac(l, Stated(b).value)
  }

  predicate DigestCollides(p: Primitives, a: Bytes, b: Bytes) {
    a != b && p.sha256(a) == p.sha256(b)
  }

  /** A claim that some preparation of this share produced. */
  ghost predicate ClaimOf(p: Primitives, s: SenderView, claim: BoundClaim) {
    && s.root.Some? && s.envelope.Some?
    && exists now, e :: PreparedAs(p, s, claim, now, e)
  }

  predicate PreparedAs(p: Primitives, s: SenderView, claim: BoundClaim, now: int, e: Entropy)
    requires s.root.Some? && s.envelope.Some?
  {
    Prepared(p, s.share, s.root.value, s.envelope.value, claim.receiverPeer, claim.receiverNonce, now, e)
    == Ok((claim.offer, claim))
  }

  lemma {:induction false} ClaimsArePrepared(p: Primitives, s: SenderView, run: seq<Event>)
    requires Fresh(s)
    ensures var t := After(p, s, run);
            && (t.state.Available? ==> t == s)
            && (t.claim.Some? ==> ClaimOf(p, s, t.claim.value))
  {
    hide Proof, Prepared;
    if run != [] {
      var n := |run| - 1;
      ClaimsArePrepared(p, s, run[..n]);
      LifecycleAdvances(p, s, run[..n], n);
      StepKeepsConsistent(p, After(p, s, run[..n]), run[n]);
      var t := After(p, s, run[..n]);
      if t.claim.None? && After(p, s, run).claim.Some? {
        var claim := After(p, s, run).claim.value;
        var e := run[n];
        PreparedBinds(p, s.share, s.root.value, s.envelope.value, e.peer, e.open.receiverNonce, e.now, e.entropy);
        assert PreparedAs(p, s, claim, run[n].now, run[n].entropy);
      }
    }
  }

  lemma PreparedBinds(p: Primitives, share: Share, root: Root, envelope: Bytes, peer: Bytes, nonce: Bytes32, now: int,
                      e: Entropy)
    requires Prepared(p, share, root, envelope, peer, nonce, now, e).Ok?
    ensures var (offer, claim) := Prepared(p, share, root, envelope, peer, nonce, now, e).value;
            && claim.receiverPeer == peer && claim.receiverNonce == nonce && claim.offer == offer
            && Proof(p, root.authenticationKey, OfferStatement(share, peer, nonce, offer)) == Ok(offer.senderProof)
            && CiphertextDigest(p, offer.aeadNonce, offer.ciphertext) == offer.digest
            && offer.version == PROTOCOL_VERSION
  {
    hide Stated, Session;
  }

  /**
   Agreement.  Any offer a receiver accepts whose proof is the sender's proof is the
   sender's offer in every field, made for this receiver's identities and nonce; the
   only way out is an explicit HMAC or SHA-256 collision on the strings named here.
   */
  lemma Agreement(p: Primitives, s: SenderView, claim: BoundClaim, r: ReceiverSession, o: OfferResponse)
    requires ClaimOf(p, s, claim)
    requires VerifyOffer(p, r, o).Ok? && o.senderProof == claim.offer.senderProof
    ensures || (&& o == claim.offer
                && r.receiverNonce == claim.receiverNonce
                && SessionContext(r) == ContextOf(s.share, claim.receiverPeer)
                && r.root.authenticationKey == s.root.value.authenticationKey)
            || MacCollides(p, r.root.authenticationKey, ExpectedStatement(r, o), s.root.value.authenticationKey,
                           OfferStatement(s.share, claim.receiverPeer, claim.receiverNonce, claim.offer))
            || DigestCollides(p, o.aeadNonce + o.ciphertext, claim.offer.aeadNonce + claim.offer.ciphertext)
  {
    var now, e :| PreparedAs(p, s, claim, now, e);
    PreparedBinds(p, s.share, s.root.value, s.envelope.value, claim.receiverPeer, claim.receiverNonce, now, e);
    AcceptedProof(p, r, o);
    var a, b := ExpectedStatement(r, o), OfferStatement(s.share, claim.receiverPeer, claim.receiverNonce, claim.offer);
    if Stated(a) == Stated(b) && r.root.authenticationKey == s.root.value.authenticationKey {
      StatementsInjective(a, b);
      if o.aeadNonce + o.ciphertext == claim.offer.aeadNonce + claim.offer.ciphertext {
        assert o.ciphertext == (o.aeadNonce + o.ciphertext)[24..];
        assert claim.offer.ciphertext == (claim.offer.aeadNonce + claim.offer.ciphertext)[24..];
      }
    }
  }

  lemma AcceptedProof(p: Primitives, r: ReceiverSession, o: OfferResponse)
    requires VerifyOffer(p, r, o).Ok?
    ensures o.version == PROTOCOL_VERSION
    ensures Proof(p, r.root.authenticationKey, ExpectedStatement(r, o)) == Ok(o.senderProof)
    ensures CiphertextDigest(p, o.aeadNonce, o.ciphertext) == o.digest
  {
    hide Stated, Session, Decoded;
  }

  /** The envelope handed on carries exactly the authenticated metadata of its offer. */
  lemma VerifiedMetadata(p: Primitives, r: ReceiverSession, o: OfferResponse)
    requires VerifyOffer(p, r, o).Ok?
    ensures var v := VerifyOffer(p, r, o).value;
            && Constructible(v.envelope)
            && ContentNumber(v.envelope.contentType) == o.contentType
            && v.envelope.expiresAt == o.expiresAt
            && |v.envelope.payload| == o.plaintextLength
            && v.acknowledgement.claimId == o.claimId && v.acknowledgement.digest == o.digest
  {
    hide Stated, Session, Decoded;
    var c := SessionContext(r);
    var session := Session(p, r.root.sessionBaseKey, c, r.receiverNonce, o.senderNonce, o.claimId).value;
    var aad := Stated(PayloadAad(c, r.receiverNonce, o.senderNonce, o.claimId, OfferMetadata(o))).value;
    DecodedIsConstructible(p.unseal(session.payloadKey, o.aeadNonce, o.ciphertext, aad).value);
  }

  /**
   Agreement over runs: whatever happened before and after, an accepted offer whose
   proof is that of any offer the sender ever made is that offer, and if both ends hold
   the same capability the receiver decrypts exactly the sender's envelope.
   */
  lemma RunAgreement(p: Primitives, h: Setting, run: seq<Event>, i: nat, r: ReceiverSession, o: OfferResponse)
    requires AeadLaws(p) && Admissible(h) && i < |run|
    requires Offers(ReplyAt(p, StartOf(h), run, i))
    requires VerifyOffer(p, r, o).Ok? && r.root == h.root
    requires o.senderProof == ReplyAt(p, StartOf(h), run, i).offer.value.senderProof
    ensures var made := ReplyAt(p, StartOf(h), run, i).offer.value;
            || (&& o == made
                && run[i].peer == r.receiverPeer && run[i].open.receiverNonce == r.receiverNonce
                && VerifyOffer(p, r, o).value.envelope == h.envelope)
            || MacCollides(p, h.root.authenticationKey, ExpectedStatement(r, o), h.root.authenticationKey,
                           OfferStatement(StartOf(h).share, run[i].peer, run[i].open.receiverNonce, made))
            || DigestCollides(p, o.aeadNonce + o.ciphertext, made.aeadNonce + made.ciphertext)
  {
    hide Prepared, Proof, VerifyOffer, StartOf;
    var s := StartOf(h);
    OneOffer(p, s, run, i);
    ClaimsArePrepared(p, s, run);
    var claim := After(p, s, run).claim.value;
    Agreement(p, s, claim, r, o);
    if o == claim.offer && r.receiverNonce == claim.receiverNonce
       && SessionContext(r) == ContextOf(s.share, claim.receiverPeer) {
      SameCapability(p, h, claim, r, o);
    }
  }

  lemma SameCapability(p: Primitives, h: Setting, claim: BoundClaim, r: ReceiverSession, o: OfferResponse)
    requires AeadLaws(p) && Admissible(h) && ClaimOf(p, StartOf(h), claim)
    requires VerifyOffer(p, r, o).Ok? && r.root == h.root && o == claim.offer
    requires r.receiverNonce == claim.receiverNonce
    requires SessionContext(r) == ContextOf(StartOf(h).share, claim.receiverPeer)
    ensures VerifyOffer(p, r, o).value.envelope == h.envelope
  {
    hide Prepared, VerifyOffer, Stated;
    var now, e :| PreparedAs(p, StartOf(h), claim, now, e);
    AcceptedProof(p, r, o);
    ProofNeedsPeers(p, r.root.authenticationKey, ExpectedStatement(r, o));
    var same := h.(receiverPeer := claim.receiverPeer, receiverNonce := claim.receiverNonce);
    assert StartOf(same) == StartOf(h);
    assert r == SessionOf(same);
    PreparedVerifies(p, same, now, e);
  }

  lemma ProofNeedsPeers(p: Primitives, key: Bytes32, s: Statement)
    requires Proof(p, key, s).Ok?
    ensures s.context.receiverPeer != [] && s.context.senderPeer != []
  {
    hide Built;
  }
}
