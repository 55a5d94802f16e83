/**
 The single-use sender: a lifecycle machine driven by opens, acknowledgements and
 timer ticks.  Time, entropy and the cryptographic primitives are parameters.
 */
module Sender {
  import opened Basics
  import opened Transcripts
  import opened Crypto
  import opened Wire
  import opened Envelopes

  datatype CoreError = Configuration | Transfer | Network | NotFound | Unavailable | Internal

  datatype Lifecycle =
    | Available
    | PreparingOffer
    | Disclosed
    | Consumed
    | Expired
    | DeliveryUnknown
    | FailedClosed

  /** What a share keeps for its whole life. */
  datatype Share = Share(
    roomId: Bytes16, networkId: Bytes, senderPeer: Bytes, metadata: Metadata,
    availableDeadline: int, resumeDuration: nat,
    lastInstant: int) // instants past this one cannot be represented

  datatype BoundClaim = BoundClaim(
    receiverPeer: Bytes, receiverNonce: Bytes32, claimId: Bytes16, digest: Bytes32,
    expectedAcknowledgement: Bytes32, offer: OfferResponse, resumeDeadline: int)

  datatype SenderView = SenderView(
    share: Share, state: Lifecycle, root: Option<Root>, envelope: Option<Bytes>, claim: Option<BoundClaim>)

  /** The outcomes of the three `fill` calls of one offer, should they be made. */
  datatype Entropy = Entropy(senderNonce: Option<Bytes32>, claimId: Option<Bytes16>, aeadNonce: Option<Bytes24>)

  predicate EntropyAvailable(e: Entropy) {
    e.senderNonce.Some? && e.claimId.Some? && e.aeadNonce.Some?
  }

  /** How many `fill` calls preparing one offer makes. */
  function Fills(e: Entropy): nat {
    if e.senderNonce.None? then 1 else if e.claimId.None? then 2 else 3
  }

  function ContextOf(share: Share, receiverPeer: Bytes): Context {
    Context(share.networkId, share.roomId, share.senderPeer, receiverPeer)
  }

  // ----------------------------------------------------------- specification

  function Created(root: Root, networkId: Bytes, senderPeer: Bytes, envelope: SecretEnvelope,
                   availableDeadline: int, resumeDuration: nat, lastInstant: int): Result<SenderView, CoreError>
    requires Constructible(envelope)
  {
    if senderPeer == [] || networkId == [] then Err(Configuration) else
    match Encoded(envelope)
    case Err(_) => Err(Transfer)
    case Ok(bytes) =>
      var metadata := Metadata(envelope.expiresAt, ContentNumber(envelope.contentType), |envelope.payload|);
      Ok(SenderView(Share(root.roomId, networkId, senderPeer, metadata, availableDeadline, resumeDuration, lastInstant),
                    Available, Some(root), Some(bytes), None))
  }

  function Forget<T, E>(r: Result<T, E>): Result<T, ()> {
    match r case Ok(v) => Ok(v) case Err(_) => Err(())
  }

  function Required<T>(o: Option<T>): Result<T, ()> {
    match o case Some(v) => Ok(v) case None => Err(())
  }

  predicate Authenticates(p: Primitives, s: SenderView, peer: Bytes, request: OpenRequest) {
    && s.root.Some?
    && request.roomId == s.share.roomId
    && Proof(p, s.root.value.authenticationKey, OpenProof(ContextOf(s.share, peer), request.receiverNonce))
       == Ok(request.receiverProof)
  }

  function OfferStatement(share: Share, peer: Bytes, receiverNonce: Bytes32, o: OfferResponse): Statement {
    OfferProof(ContextOf(share, peer), receiverNonce, o.senderNonce, o.claimId,
               Metadata(o.expiresAt, o.contentType, o.plaintextLength), o.aeadNonce, o.digest)
  }

  function Prepared(p: Primitives, share: Share, root: Root, envelope: Bytes, peer: Bytes, nonce: Bytes32,
                    now: int, e: Entropy): Result<(OfferResponse, BoundClaim), ()>
  {
    var sn :- Required(e.senderNonce);
    var id :- Required(e.claimId);
    var an :- Required(e.aeadNonce);
    var c, m := ContextOf(share, peer), share.metadata;
    var session :- Forget(Session(p, root.sessionBaseKey, c, nonce, sn, id));
    var aad :- Forget(Stated(PayloadAad(c, nonce, sn, id, m)));
    var ciphertext :- Required(p.seal(session.payloadKey, an, envelope, aad));
    var digest := CiphertextDigest(p, an, ciphertext);
    var senderProof :- Forget(Proof(p, root.authenticationKey, OfferProof(c, nonce, sn, id, m, an, digest)));
    var expected :- Forget(Proof(p, session.acknowledgementKey, AckProof(c, id, digest)));
    var offer := OfferResponse(PROTOCOL_VERSION, id, sn, an, m.expiresAt, m.contentType, m.plaintextLength,
                               ciphertext, digest, senderProof);
    if now + share.resumeDuration > share.lastInstant then Err(()) else
    Ok((offer, BoundClaim(peer, nonce, id, digest, expected, offer, now + share.resumeDuration)))
  }

  function Closed(s: SenderView, state: Lifecycle): SenderView {
    s.(state := state, root := None, envelope := None)
  }

  datatype OpenOutcome = OpenOutcome(next: SenderView, reply: Result<OfferResponse, ErrorCode>, fills: nat)

  function Opened(p: Primitives, s: SenderView, peer: Bytes, request: OpenRequest, now: int, e: Entropy): OpenOutcome {
    if request.version != PROTOCOL_VERSION then OpenOutcome(s, Err(UnsupportedVersion), 0)
    else if !Authenticates(p, s, peer, request) then OpenOutcome(s, Err(NotFoundOrUnauthorized), 0)
    else
      match s.state
      case Available =>
        if now >= s.share.availableDeadline then OpenOutcome(Closed(s, Expired), Err(ShareExpired), 0)
        else if s.envelope.None? then OpenOutcome(Closed(s, FailedClosed), Err(InternalFailure), 0)
        else (
          match Prepared(p, s.share, s.root.value, s.envelope.value, peer, request.receiverNonce, now, e)
          case Ok((offer, claim)) => OpenOutcome(s.(state := Disclosed, claim := Some(claim)), Ok(offer), Fills(e))
          case Err(_) => OpenOutcome(Closed(s, FailedClosed), Err(InternalFailure), Fills(e)))
      case Disclosed =>
        if s.claim.None? then OpenOutcome(s, Err(ShareUnavailable), 0)
        else if now >= s.claim.value.resumeDeadline
        then OpenOutcome(Closed(s, DeliveryUnknown), Err(ShareUnavailable), 0)
        else if peer == s.claim.value.receiverPeer && request.receiverNonce == s.claim.value.receiverNonce
        then OpenOutcome(s, Ok(s.claim.value.offer), 0)
        else OpenOutcome(s, Err(ShareAlreadyClaimed), 0)
      case PreparingOffer => OpenOutcome(s, Err(TemporarilyUnavailable), 0)
      case _ => OpenOutcome(s, Err(ShareUnavailable), 0)
  }

  predicate Matches(claim: BoundClaim, peer: Bytes, request: AcknowledgeRequest) {
    && peer == claim.receiverPeer
    && request.claimId == claim.claimId
    && request.digest == claim.digest
    && request.proof == claim.expectedAcknowledgement
  }

  datatype AckOutcome = AckOutcome(next: SenderView, reply: Result<CompletedResponse, ErrorCode>)

  /** No clock: an acknowledgement is judged by the state alone. */
  function Acknowledged(s: SenderView, peer: Bytes, request: AcknowledgeRequest): AckOutcome {
    if request.version != PROTOCOL_VERSION then AckOutcome(s, Err(UnsupportedVersion))
    else if !s.state.Disclosed? && !s.state.Consumed? then AckOutcome(s, Err(ShareUnavailable))
    else if s.claim.None? then AckOutcome(s, Err(ShareUnavailable))
    else if !Matches(s.claim.value, peer, request) then AckOutcome(s, Err(ClaimMismatch))
    else AckOutcome(if s.state.Disclosed? then Closed(s, Consumed) else s,
                    Ok(CompletedResponse(PROTOCOL_VERSION, request.claimId)))
  }

  function Ticked(s: SenderView, now: int): SenderView {
    if s.state.Available? && now >= s.share.availableDeadline then Closed(s, Expired)
    else if s.state.Disclosed? && s.claim.Some? && now >= s.claim.value.resumeDeadline then Closed(s, DeliveryUnknown)
    else s
  }

  // ------------------------------------------------------------------- actor

  class SenderActor {
    const primitives: Primitives
    const share: Share
    var state: Lifecycle
    var root: Option<Root>
    var encodedEnvelope: Option<Bytes>
    var claim: Option<BoundClaim>

    ghost function View(): SenderView
      reads this
    {
      SenderView(share, state, root, encodedEnvelope, claim)
    }

    constructor (primitives: Primitives, initial: SenderView)
      ensures View() == initial && this.primitives == primitives
    {
      this.primitives, share := primitives, initial.share;
      state, root, encodedEnvelope, claim := initial.state, initial.root, initial.envelope, initial.claim;
    }

    /** `SenderActor::new` */
    static method New(primitives: Primitives, root: Root, networkId: Bytes, senderPeer: Bytes,
                      envelope: SecretEnvelope, availableDeadline: int, resumeDuration: nat, lastInstant: int)
      returns (r: Result<SenderActor, CoreError>)
      requires Constructible(envelope)
      ensures match Created(root, networkId, senderPeer, envelope, availableDeadline, resumeDuration, lastInstant)
              case Ok(view) => r.Ok? && fresh(r.value) && r.value.View() == view && r.value.primitives == primitives
              case Err(e) => r == Err(e)
    {
      if senderPeer == [] || networkId == [] {
        return Err(Configuration);
      }
      var encoded := EncodeEnvelope(envelope);
      if encoded.Err? {
        return Err(Transfer);
      }
      var metadata := Metadata(envelope.expiresAt, ContentNumber(envelope.contentType), |envelope.payload|);
      var fixed := Share(root.roomId, networkId, senderPeer, metadata, availableDeadline, resumeDuration, lastInstant);
      var actor := new SenderActor(primitives, SenderView(fixed, Available, Some(root), Some(encoded.value), None));
      return Ok(actor);
    }

    method AuthenticatesOpen(peer: Bytes, request: OpenRequest) returns (ok: bool)
      ensures ok == Authenticates(primitives, View(), peer, request)
    {
      if root.None? || request.roomId != share.roomId {
        return false;
      }
      var key, context := root.value.authenticationKey, ContextOf(share, peer);
      var expected := MakeOpenProof(primitives, key, context, request.receiverNonce);
      return expected.Ok? && expected.value == request.receiverProof;
    }

    method PrepareOffer(peer: Bytes, request: OpenRequest, now: int, entropy: Entropy)
      returns (r: Result<(OfferResponse, BoundClaim), ()>, fills: nat)
      ensures root.None? || encodedEnvelope.None? ==> r == Err(()) && fills == 0
      ensures root.Some? && encodedEnvelope.Some? ==>
                && r == Prepared(primitives, share, root.value, encodedEnvelope.value,
                                 peer, request.receiverNonce, now, entropy)
                && fills == Fills(entropy)
    {
      hide Stated, Session, Proof;
      fills := 0;
      if root.None? || encodedEnvelope.None? {
        return Err(()), fills;
      }
      fills := fills + 1;
      if entropy.senderNonce.None? { return Err(()), fills; }
      fills := fills + 1;
      if entropy.claimId.None? { return Err(()), fills; }
      fills := fills + 1;
      if entropy.aeadNonce.None? { return Err(()), fills; }
      var nonce, sn := request.receiverNonce, entropy.senderNonce.value;
      var id, an := entropy.claimId.value, entropy.aeadNonce.value;
      var c, m := ContextOf(share, peer), share.metadata;
      var session := DeriveSession(primitives, root.value.sessionBaseKey, c, nonce, sn, id);
      if session.Err? { return Err(()), fills; }
      var aad := PayloadAssociatedData(c, nonce, sn, id, m);
      if aad.Err? { return Err(()), fills; }
      var ciphertext := primitives.seal(session.value.payloadKey, an, encodedEnvelope.value, aad.value);
      if ciphertext.None? { return Err(()), fills; }
      var digest := CiphertextDigest(primitives, an, ciphertext.value);
      var senderProof := MakeOfferProof(primitives, root.value.authenticationKey, c, nonce, sn, id, m, an, digest);
      if senderProof.Err? { return Err(()), fills; }
      var expected := MakeAcknowledgementProof(primitives, session.value.acknowledgementKey, c, id, digest);
      if expected.Err? { return Err(()), fills; }
      var offer := OfferResponse(PROTOCOL_VERSION, id, sn, an, m.expiresAt, m.contentType, m.plaintextLength,
                                 ciphertext.value, digest, senderProof.value);
      if now + share.resumeDuration > share.lastInstant { return Err(()), fills; }
      return Ok((offer, BoundClaim(peer, nonce, id, digest, expected.value, offer, now + share.resumeDuration))), fills;
    }

    method HandleOpen(peer: Bytes, request: OpenRequest, now: int, entropy: Entropy)
      returns (reply: Result<OfferResponse, ErrorCode>, fills: nat)
      modifies this
      ensures OpenOutcome(View(), reply, fills) == Opened(primitives, old(View()), peer, request, now, entropy)
    {
      hide Prepared, Proof;
      fills := 0;
      if request.version != PROTOCOL_VERSION {
        return Err(UnsupportedVersion), fills;
      }
      var authentic := AuthenticatesOpen(peer, request);
      if !authentic {
        return Err(NotFoundOrUnauthorized), fills;
      }
      match state {
        case Available =>
          if now >= share.availableDeadline {
            Close(Expired);
            return Err(ShareExpired), fills;
          }
        case Disclosed =>
          if claim.Some? && now >= claim.value.resumeDeadline {
            Close(DeliveryUnknown);
            return Err(ShareUnavailable), fills;
          }
          reply := ResumeOffer(peer, request);
          return;
        case PreparingOffer => return Err(TemporarilyUnavailable), fills;
        case _ => return Err(ShareUnavailable), fills;
      }
      state := PreparingOffer;
      var prepared;
      prepared, fills := PrepareOffer(peer, request, now, entropy);
      if prepared.Err? {
        Close(FailedClosed);
        return Err(InternalFailure), fills;
      }
      claim := Some(prepared.value.1);
      state := Disclosed;
      return Ok(prepared.value.0), fills;
    }

    method ResumeOffer(peer: Bytes, request: OpenRequest) returns (reply: Result<OfferResponse, ErrorCode>)
      ensures reply == if claim.None? then Err(ShareUnavailable)
                       else if peer == claim.value.receiverPeer && request.receiverNonce == claim.value.receiverNonce
                       then Ok(claim.value.offer) else Err(ShareAlreadyClaimed)
    {
      if claim.None? {
        return Err(ShareUnavailable);
      }
      if peer == claim.value.receiverPeer && request.receiverNonce == claim.value.receiverNonce {
        return Ok(claim.value.offer);
      }
      return Err(ShareAlreadyClaimed);
    }

    method HandleAcknowledgement(peer: Bytes, request: AcknowledgeRequest)
      returns (reply: Result<CompletedResponse, ErrorCode>)
      modifies this
      ensures AckOutcome(View(), reply) == Acknowledged(old(View()), peer, request)
    {
      if request.version != PROTOCOL_VERSION {
        return Err(UnsupportedVersion);
      }
      if !state.Disclosed? && !state.Consumed? {
        return Err(ShareUnavailable);
      }
      if claim.None? {
        return Err(ShareUnavailable);
      }
      if peer != claim.value.receiverPeer || request.claimId != claim.value.claimId
         || request.digest != claim.value.digest || request.proof != claim.value.expectedAcknowledgement {
        return Err(ClaimMismatch);
      }
      reply := Ok(CompletedResponse(PROTOCOL_VERSION, request.claimId));
      if state == Disclosed {
        state := Consumed;
        WipeSource();
      }
    }

    method HandleTimer(now: int)
      modifies this
      ensures View() == Ticked(old(View()), now)
    {
      if state == Available && now >= share.availableDeadline {
        Close(Expired);
      } else if state == Disclosed && claim.Some? && now >= claim.value.resumeDeadline {
        Close(DeliveryUnknown);
      }
    }

    method Close(next: Lifecycle)
      modifies this
      ensures View() == Closed(old(View()), next)
    {
      state := next;
      WipeSource();
    }

    method WipeSource()
      modifies this
      ensures View() == old(View()).(root := None, envelope := None)
    {
      root := None;
      encodedEnvelope := None;
    }
  }
}
