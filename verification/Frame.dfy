/** Four-byte length framing of transfer messages. */
module Frame {
  import opened Basics
  import opened Wire

  const HEADER_BYTES := 4

  /** `parse_frame_length` on a header or a whole frame. */
  function ParsedLength(header: Bytes): Result<nat, WireError> {
    if |header| < HEADER_BYTES then Err(IncompleteHeader) else
    var length := Value(256, header[..HEADER_BYTES]);
    if length == 0 then Err(EmptyFrame) else Ok(length)
  }

  function Framed(body: Bytes): Result<Bytes, WireError> {
    if body == [] then Err(EmptyFrame)
    else if |body| >= 0x1_0000_0000 then Err(FrameTooLarge)
    else Ok(BigEndian(HEADER_BYTES, |body|) + body)
  }

  function CheckedBody(frame: Bytes, limit: nat): Result<Bytes, WireError> {
    var declared :- ParsedLength(frame);
    if declared > limit then Err(FrameTooLarge)
    else if |frame| != HEADER_BYTES + declared then Err(LengthMismatch)
    else Ok(frame[HEADER_BYTES..])
  }

  function EncodedRequestFrame(r: TransferRequest): Result<Bytes, WireError> {
    var body :- EncodedRequestBody(r);
    Framed(body)
  }

  function DecodedRequestFrame(frame: Bytes): Result<TransferRequest, WireError> {
    var body :- CheckedBody(frame, MAX_REQUEST_BODY_BYTES);
    DecodedRequestBody(body)
  }

  function EncodedResponseFrame(r: TransferResponse): Result<Bytes, WireError> {
    var body :- EncodedResponseBody(r);
    Framed(body)
  }

  function DecodedResponseFrame(frame: Bytes): Result<TransferResponse, WireError> {
    var body :- CheckedBody(frame, MAX_OFFER_BODY_BYTES);
    DecodedResponseBody(body)
  }

  lemma FramedChecks(body: Bytes, limit: nat)
    requires 0 < |body| <= limit < 0x1_0000_0000
    ensures Framed(body).Ok? && CheckedBody(Framed(body).value, limit) == Ok(body)
  {
    var frame := Framed(body).value;
    BytePowers();
    ValueOfDigits(256, HEADER_BYTES, |body|);
    assert frame[..HEADER_BYTES] == BigEndian(HEADER_BYTES, |body|);
    assert frame[HEADER_BYTES..] == body;
  }

  /** Every request crosses the wire unchanged. */
  lemma RequestFrameRoundTrip(r: TransferRequest)
    ensures EncodedRequestFrame(r).Ok?
    ensures DecodedRequestFrame(EncodedRequestFrame(r).value) == Ok(r)
  {
    hide RequestBody, DecodedRequestBody;
    RequestRoundTrip(r);
    RequestFits(r);
    FramedChecks(RequestBody(r), MAX_REQUEST_BODY_BYTES);
  }

  /** A response crosses the wire exactly when it passes the offer checks, and then unchanged. */
  lemma ResponseFrameRoundTrip(r: TransferResponse)
    ensures EncodedResponseFrame(r).Ok? <==> (r.Offer? ==> ValidOffer(r.offer))
    ensures EncodedResponseFrame(r).Ok? ==> DecodedResponseFrame(EncodedResponseFrame(r).value) == Ok(r)
  {
    hide ResponseBody, DecodedResponseBody;
    ResponseRoundTrip(r);
    if r.Offer? ==> ValidOffer(r.offer) {
      ResponseFits(r);
      FramedChecks(ResponseBody(r), MAX_OFFER_BODY_BYTES);
    }
  }

  /** The declared length fixes where an accepted frame ends. */
  lemma AcceptedFrameIsExact(frame: Bytes, limit: nat, other: Bytes)
    requires CheckedBody(frame, limit).Ok?
    requires frame < other || other < frame
    ensures CheckedBody(other, limit) == if |other| < HEADER_BYTES then Err(IncompleteHeader) else Err(LengthMismatch)
  {
    if |other| >= HEADER_BYTES {
      assert other[..HEADER_BYTES] == frame[..HEADER_BYTES];
    }
  }

  /** No proper prefix and no proper extension of a decodable frame decodes. */
  lemma FramesPrefixFree(frame: Bytes, other: Bytes)
    requires frame < other || other < frame
    ensures DecodedRequestFrame(frame).Ok? ==> DecodedRequestFrame(other).Err?
    ensures DecodedResponseFrame(frame).Ok? ==> DecodedResponseFrame(other).Err?
  {
    hide DecodedRequestBody, DecodedResponseBody;
    if DecodedRequestFrame(frame).Ok? {
      AcceptedFrameIsExact(frame, MAX_REQUEST_BODY_BYTES, other);
    }
    if DecodedResponseFrame(frame).Ok? {
      AcceptedFrameIsExact(frame, MAX_OFFER_BODY_BYTES, other);
    }
  }

  /**
   Which frames are accepted: exactly those that framing a body within the limit gives.  A
   header that declares nothing or too much is refused whatever follows it.
   */
  lemma FramesExactly(frame: Bytes, limit: nat, body: Bytes)
    requires limit < 0x1_0000_0000
    ensures CheckedBody(frame, limit) == Ok(body) <==> 0 < |body| <= limit && Framed(body) == Ok(frame)
    ensures |frame| < 4 <==> CheckedBody(frame, limit) == Err(IncompleteHeader)
    ensures |frame| >= 4 ==>
              var declared := Value(256, frame[..4]);
              && (CheckedBody(frame, limit) == Err(EmptyFrame) <==> declared == 0)
              && (CheckedBody(frame, limit) == Err(FrameTooLarge) <==> declared > limit)
              && (CheckedBody(frame, limit) == Err(LengthMismatch)
                  <==> 0 < declared <= limit && |frame| != 4 + declared)
  {
    if 0 < |body| <= limit && Framed(body) == Ok(frame) { FramedChecks(body, limit); }
    if CheckedBody(frame, limit) == Ok(body) {
      assert frame == frame[..4] + body;
      DigitsOfValue(256, frame[..4]);
    }
  }
}
