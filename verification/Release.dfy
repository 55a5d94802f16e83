/** What a receiver may hand out, and when: only what its own sender has confirmed as consumed. */
module Release {
  import opened Basics
  import opened Crypto
  import opened Wire
  import opened Envelopes
  import opened Sender
  import opened SenderRuns
  import opened Receiver
  import opened Handoff

  /** The user is told that nothing was found, that the share is taken, or to try again. */
  lemma ErrorClasses(code: ErrorCode)
    ensures MapProtocolError(code) == NotFound <==> code == NotFoundOrUnauthorized
    ensures MapProtocolError(code) == Unavailable
            <==> code in {ShareUnavailable, ShareExpired, ShareAlreadyClaimed, ClaimMismatch}
    ensures MapProtocolError(code) == Network <==> code == TemporarilyUnavailable
    ensures MapProtocolError(code) in {NotFound, Unavailable, Network, Transfer}
  {
  }

  /** An open is answered to the receiver's satisfaction only by an offer that verifies. */
  lemma ReceivedExactly(p: Primitives, s: ReceiverSession, response: TransferResponse)
    ensures Received(p, s, response).Ok? <==> response.Offer? && VerifyOffer(p, s, response.offer).Ok?
    ensures Received(p, s, response).Ok? ==> Received(p, s, response) == VerifyOffer(p, s, response.offer)
    ensures response.Error? ==> Received(p, s, response) == Err(MapProtocolError(response.error.code))
    ensures !response.Error? && !Received(p, s, response).Ok? ==> Received(p, s, response) == Err(Transfer)
  {
    hide MapProtocolError;
    if response.Offer? { OneRefusal(p, s, response.offer); }
  }

  /** Why an offer is refused is not told apart. */
  lemma OneRefusal(p: Primitives, s: ReceiverSession, o: OfferResponse)
    ensures VerifyOffer(p, s, o).Ok? || VerifyOffer(p, s, o) == Err(Transfer)
  {
    hide Proof, Session, Stated, Decoded;
  }

  /**
   The envelope is released by a completion of this version and of this very claim, and by
   nothing else: no offer, no error, no completion of another claim.
   */
  lemma ReleasedExactly(v: VerifiedOffer, response: TransferResponse)
    ensures var confirms := && response.Completed? && response.completed.version == PROTOCOL_VERSION
                            && response.completed.claimId == v.acknowledgement.claimId;
            if confirms then Released(v, response) == Ok(v.envelope)
            else Released(v, response)
                 == Err(if response.Error? then MapProtocolError(response.error.code) else Transfer)
  {
    hide MapProtocolError;
  }

  /**
   Whatever the run, whoever acknowledges and with whatever offer in hand: if the sender's
   answer releases anything, the sender has consumed the share.
   */
  lemma ReleasedOnlyIfConsumed(p: Primitives, s: SenderView, run: seq<Event>, i: nat, v: VerifiedOffer)
    requires Fresh(s) && i < |run| && run[i].AcknowledgeArrives?
    requires Released(v, AcknowledgeResponse(ReplyAt(p, s, run, i).completed)).Ok?
    ensures After(p, s, run[..i + 1]).state.Consumed?
    ensures After(p, s, run[..i + 1]).claim.Some?
    ensures After(p, s, run[..i + 1]).claim.value.claimId == v.acknowledgement.claimId
  {
    hide Step, After, Consistent;
    Position(p, s, run, i);
    StepBindsClaim(p, After(p, s, run[..i]), run[i]);
    StepKeepsClaim(p, After(p, s, run[..i]), run[i]);
    ReleasedExactly(v, AcknowledgeResponse(ReplyAt(p, s, run, i).completed));
  }

  lemma StepKeepsClaim(p: Primitives, s: SenderView, e: Event)
    requires Consistent(s)
    ensures e.AcknowledgeArrives? ==> Step(p, s, e).1.ToAcknowledge?
    ensures s.claim.Some? ==> Step(p, s, e).0.claim == s.claim
  {
    hide Prepared, Proof;
  }

  /** An offer of a run that was made for this receiver, and what the receiver makes of it. */
  predicate OfferedTo(p: Primitives, h: Setting, run: seq<Event>, k: nat)
    requires Admissible(h)
  {
    && k < |run| && Offers(ReplyAt(p, StartOf(h), run, k))
    && run[k].peer == h.receiverPeer && run[k].open.receiverNonce == h.receiverNonce
  }

  lemma OfferedVerifies(p: Primitives, h: Setting, run: seq<Event>, k: nat)
    requires AeadLaws(p) && Admissible(h) && OfferedTo(p, h, run, k)
    ensures var verified := VerifyOffer(p, SessionOf(h), ReplyAt(p, StartOf(h), run, k).offer.value);
            && verified.Ok? && verified.value.envelope == h.envelope
            && After(p, StartOf(h), run).claim.Some?
            && Matches(After(p, StartOf(h), run).claim.value, h.receiverPeer, verified.value.acknowledgement)
            && verified.value.acknowledgement.version == PROTOCOL_VERSION
  {
    hide StartOf, Step, Prepared, VerifyOffer, After, ReplyAt;
    OneOffer(p, StartOf(h), run, k);
    ClaimsArePrepared(p, StartOf(h), run);
    var claim := After(p, StartOf(h), run).claim.value;
    var now, e :| PreparedAs(p, StartOf(h), claim, now, e);
    PreparedVerifies(p, h, now, e);
  }

  /**
   Over every run, at every position where the receiver of an offer acknowledges it: the
   sender's answer releases the envelope exactly if the share is consumed then.  If the
   sender has given the claim up instead, the receiver is told that the share is unavailable.
   */
  lemma ReleasedExactlyIfConsumed(p: Primitives, h: Setting, run: seq<Event>, k: nat, i: nat, v: VerifiedOffer)
    requires AeadLaws(p) && Admissible(h) && OfferedTo(p, h, run, k) && k < i < |run|
    requires VerifyOffer(p, SessionOf(h), ReplyAt(p, StartOf(h), run, k).offer.value) == Ok(v)
    requires run[i] == AcknowledgeArrives(h.receiverPeer, v.acknowledgement)
    ensures var released := Released(v, AcknowledgeResponse(ReplyAt(p, StartOf(h), run, i).completed));
            var state := After(p, StartOf(h), run[..i + 1]).state;
            && (released.Ok? <==> state.Consumed?)
            && (released.Ok? ==> released == Ok(h.envelope))
            && (!released.Ok? ==> state.DeliveryUnknown? && released == Err(Unavailable))
  {
    hide StartOf, Prepared, VerifyOffer, SessionOf, Proof, PreparedFor;
    var s, front := StartOf(h), run[..i];
    assert front[..k] == run[..k];
    assert ReplyAt(p, s, front, k) == ReplyAt(p, s, run, k);
    assert OfferedTo(p, h, front, k);
    OfferedVerifies(p, h, front, k);
    Position(p, s, run, i);
    AcknowledgeAnswers(After(p, s, front), h.receiverPeer, v.acknowledgement);
    AcknowledgedReply(p, s, run, i);
    hide After, ReplyAt, Step, OfferedTo;
    ReleasedExactly(v, AcknowledgeResponse(ReplyAt(p, s, run, i).completed));
  }

  lemma AcknowledgedReply(p: Primitives, s: SenderView, run: seq<Event>, i: nat)
    requires i < |run| && run[i].AcknowledgeArrives?
    ensures var o := Acknowledged(After(p, s, run[..i]), run[i].peer, run[i].acknowledge);
            ReplyAt(p, s, run, i) == ToAcknowledge(o.reply) && After(p, s, run[..i + 1]) == o.next
    ensures Acknowledged(After(p, s, run[..i]), run[i].peer, run[i].acknowledge).reply.Ok? ==>
              Acknowledged(After(p, s, run[..i]), run[i].peer, run[i].acknowledge).reply.value
              == CompletedResponse(PROTOCOL_VERSION, run[i].acknowledge.claimId)
  {
    assert run[..i + 1][..i] == run[..i];
  }

  // --------------------------------------------------------------------- beginnings

  /** A share is created, available and unclaimed, exactly for named peers and networks. */
  lemma CreatedExactly(root: Root, networkId: Bytes, senderPeer: Bytes, envelope: SecretEnvelope,
                       availableDeadline: int, resumeDuration: nat, lastInstant: int)
    requires Constructible(envelope)
    ensures var r := Created(root, networkId, senderPeer, envelope, availableDeadline, resumeDuration, lastInstant);
            && (r.Ok? <==> senderPeer != [] && networkId != [])
            && (r.Ok? ==>
                  && Fresh(r.value) && r.value.root == Some(root)
                  && Encoded(envelope).Ok? && r.value.envelope == Some(Encoded(envelope).value)
                  && r.value.share.networkId == networkId && r.value.share.senderPeer == senderPeer
                  && r.value.share.roomId == root.roomId && r.value.share.availableDeadline == availableDeadline
                  && r.value.share.resumeDuration == resumeDuration
                  && r.value.share.metadata.expiresAt == envelope.expiresAt
                  && r.value.share.metadata.plaintextLength == |envelope.payload|)
            && (!r.Ok? ==> r == Err(Configuration))
  {
    hide EnvelopeBytes;
    EnvelopeFits(envelope);
  }

  lemma SessionsExactly(root: Root, networkId: Bytes, senderPeer: Bytes, receiverPeer: Bytes, nonce: Bytes32)
    ensures var r := NewSession(root, networkId, senderPeer, receiverPeer, nonce);
            && (r.Ok? <==> networkId != [] && senderPeer != [] && receiverPeer != [])
            && (r.Ok? ==> && r.value.root == root && r.value.receiverNonce == nonce
                          && SessionContext(r.value) == Context(networkId, root.roomId, senderPeer, receiverPeer))
            && (!r.Ok? ==> r == Err(Configuration))
  {
  }

  /** An envelope holds what it was made of, up to the payload limit and for times in order. */
  lemma EnvelopesExactly(t: ContentType, name: Option<Bytes>, createdAt: u64, expiresAt: u64, payload: Bytes)
    ensures var r := Envelopes.New(t, name, createdAt, expiresAt, payload);
            && (r == Err(PayloadTooLarge) <==> |payload| > 1_048_576)
            && (r == Err(InvalidTimestamps) <==> |payload| <= 1_048_576 && expiresAt < createdAt)
            && (r.Ok? <==> |payload| <= 1_048_576 && createdAt <= expiresAt)
            && (r.Ok? ==> && r.value.contentType == t && r.value.name == name && r.value.payload == payload
                          && r.value.createdAt == createdAt && r.value.expiresAt == expiresAt)
  {
  }

  /** What the receiver sends: its nonce and a proof of the capability for its own peers. */
  lemma OpenRequestIs(p: Primitives, s: ReceiverSession)
    ensures OpenRequestOf(p, s).Ok? <==> Stated(OpenProof(SessionContext(s), s.receiverNonce)).Ok?
    ensures OpenRequestOf(p, s).Ok? ==>
              var r := OpenRequestOf(p, s).value;
              && r.version == PROTOCOL_VERSION && r.roomId == s.root.roomId && r.receiverNonce == s.receiverNonce
              && r.receiverProof
                 == p.hmac(s.root.authenticationKey, Stated(OpenProof(SessionContext(s), s.receiverNonce)).value)
  {
    hide Stated;
  }
}
