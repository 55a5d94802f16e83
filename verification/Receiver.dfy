/** The receiver: proof of capability, offer verification, acknowledgement. */
module Receiver {
  import opened Basics
  import opened Transcripts
  import opened Crypto
  import opened Wire
  import opened Envelopes
  import opened Sender

  datatype ReceiverSession = ReceiverSession(
    root: Root, networkId: Bytes, senderPeer: Bytes, receiverPeer: Bytes, receiverNonce: Bytes32)

  datatype VerifiedOffer = VerifiedOffer(envelope: SecretEnvelope, acknowledgement: AcknowledgeRequest)

  /** `ReceiverSession::new` */
  function NewSession(root: Root, networkId: Bytes, senderPeer: Bytes, receiverPeer: Bytes, receiverNonce: Bytes32)
    : Result<ReceiverSession, CoreError>
  {
    if networkId == [] || senderPeer == [] || receiverPeer == [] then Err(Configuration)
    else Ok(ReceiverSession(root, networkId, senderPeer, receiverPeer, receiverNonce))
  }

  function SessionContext(s: ReceiverSession): Context {
    Context(s.networkId, s.root.roomId, s.senderPeer, s.receiverPeer)
  }

  function AsTransfer<T, E>(r: Result<T, E>): Result<T, CoreError> {
    match r case Ok(v) => Ok(v) case Err(_) => Err(Transfer)
  }

  function OpenRequestOf(p: Primitives, s: ReceiverSession): Result<OpenRequest, CoreError> {
    var proof :- AsTransfer(Proof(p, s.root.authenticationKey, OpenProof(SessionContext(s), s.receiverNonce)));
    Ok(OpenRequest(PROTOCOL_VERSION, s.root.roomId, s.receiverNonce, proof))
  }

  function OfferMetadata(o: OfferResponse): Metadata {
    Metadata(o.expiresAt, o.contentType, o.plaintextLength)
  }

  /** The statement a receiver expects the sender proof of an offer to authenticate. */
  function ExpectedStatement(s: ReceiverSession, o: OfferResponse): Statement {
    OfferProof(SessionContext(s), s.receiverNonce, o.senderNonce, o.claimId, OfferMetadata(o), o.aeadNonce, o.digest)
  }

  function VerifyOffer(p: Primitives, s: ReceiverSession, o: OfferResponse): Result<VerifiedOffer, CoreError> {
    if o.version != PROTOCOL_VERSION then Err(Transfer) else
    var _ :- AsTransfer(ContentTypeOf(o.contentType));
    var expected :- AsTransfer(Proof(p, s.root.authenticationKey, ExpectedStatement(s, o)));
    if expected != o.senderProof || CiphertextDigest(p, o.aeadNonce, o.ciphertext) != o.digest then Err(Transfer) else
    var c := SessionContext(s);
    var session :- AsTransfer(Session(p, s.root.sessionBaseKey, c, s.receiverNonce, o.senderNonce, o.claimId));
    var aad :- AsTransfer(Stated(PayloadAad(c, s.receiverNonce, o.senderNonce, o.claimId, OfferMetadata(o))));
    match p.unseal(session.payloadKey, o.aeadNonce, o.ciphertext, aad)
    case None => Err(Transfer)
    case Some(plaintext) =>
      var envelope :- AsTransfer(Decoded(plaintext));
      if ContentNumber(envelope.contentType) != o.contentType || envelope.expiresAt != o.expiresAt
         || |envelope.payload| != o.plaintextLength
      then Err(Transfer) else
      var proof :- AsTransfer(Proof(p, session.acknowledgementKey, AckProof(c, o.claimId, o.digest)));
      Ok(VerifiedOffer(envelope, AcknowledgeRequest(PROTOCOL_VERSION, o.claimId, o.digest, proof)))
  }

  function MapProtocolError(code: ErrorCode): CoreError {
    match code
    case NotFoundOrUnauthorized => NotFound
    case ShareUnavailable => Unavailable
    case ShareExpired => Unavailable
    case ShareAlreadyClaimed => Unavailable
    case ClaimMismatch => Unavailable
    case TemporarilyUnavailable => Network
    case _ => Transfer
  }

  /** `DirectReceiver::receive`, from the sender's response on. */
  function Received(p: Primitives, s: ReceiverSession, response: TransferResponse): Result<VerifiedOffer, CoreError> {
    match response
    case Offer(o) => VerifyOffer(p, s, o)
    case Error(e) => Err(MapProtocolError(e.code))
    case Completed(_) => Err(Transfer)
  }

  /** `PendingDirectOffer::acknowledge`, from the sender's response on. */
  function Released(v: VerifiedOffer, response: TransferResponse): Result<SecretEnvelope, CoreError> {
    match response
    case Completed(c) =>
      if c.version == PROTOCOL_VERSION && c.claimId == v.acknowledgement.claimId then Ok(v.envelope) else Err(Transfer)
    case Error(e) => Err(MapProtocolError(e.code))
    case Offer(_) => Err(Transfer)
  }
}
