/** Strict numeric-key CBOR messages of the transfer protocol. */
module Wire {
  import opened Basics
  import opened Cbor

  const PROTOCOL_VERSION: u16 := 1
  const MAX_REQUEST_BODY_BYTES := 1024   // Open and Acknowledge share this bound
  const MAX_SMALL_RESPONSE_BYTES := 1024 // Completed and Error share this bound
  const MAX_OFFER_BODY_BYTES := MAX_PAYLOAD_BYTES + 16 * 1024
  const MAX_ENVELOPE_BYTES := MAX_PAYLOAD_BYTES + 1024
  const MAX_CIPHERTEXT_BYTES := MAX_ENVELOPE_BYTES + 16

  datatype WireError = IncompleteHeader | EmptyFrame | FrameTooLarge | LengthMismatch | InvalidMessage

  datatype ErrorCode =
    | NotFoundOrUnauthorized
    | UnsupportedVersion
    | InvalidMessageCode
    | ShareUnavailable
    | ShareExpired
    | ShareAlreadyClaimed
    | ClaimMismatch
    | PayloadTooLargeCode
    | InternalFailure
    | TemporarilyUnavailable

  datatype OpenRequest = OpenRequest(
    version: u16, roomId: Bytes16, receiverNonce: Bytes32, receiverProof: Bytes32)

  datatype AcknowledgeRequest = AcknowledgeRequest(
    version: u16, claimId: Bytes16, digest: Bytes32, proof: Bytes32)

  datatype OfferResponse = OfferResponse(
    version: u16, claimId: Bytes16, senderNonce: Bytes32, aeadNonce: Bytes24, expiresAt: u64,
    contentType: byte, plaintextLength: u32, ciphertext: Bytes, digest: Bytes32, senderProof: Bytes32)

  datatype CompletedResponse = CompletedResponse(version: u16, claimId: Bytes16)

  datatype ErrorResponse = ErrorResponse(version: u16, code: ErrorCode)

  datatype TransferRequest = Open(open: OpenRequest) | Acknowledge(acknowledge: AcknowledgeRequest)

  datatype TransferResponse =
    | Offer(offer: OfferResponse)
    | Completed(completed: CompletedResponse)
    | Error(error: ErrorResponse)

  function CodeNumber(c: ErrorCode): byte {
    match c
    case NotFoundOrUnauthorized => 0
    case UnsupportedVersion => 1
    case InvalidMessageCode => 2
    case ShareUnavailable => 3
    case ShareExpired => 4
    case ShareAlreadyClaimed => 5
    case ClaimMismatch => 6
    case PayloadTooLargeCode => 7
    case InternalFailure => 8
    case TemporarilyUnavailable => 9
  }

  function CodeOf(n: nat): Result<ErrorCode, WireError> {
    if n == 0 then Ok(NotFoundOrUnauthorized)
    else if n == 1 then Ok(UnsupportedVersion)
    else if n == 2 then Ok(InvalidMessageCode)
    else if n == 3 then Ok(ShareUnavailable)
    else if n == 4 then Ok(ShareExpired)
    else if n == 5 then Ok(ShareAlreadyClaimed)
    else if n == 6 then Ok(ClaimMismatch)
    else if n == 7 then Ok(PayloadTooLargeCode)
    else if n == 8 then Ok(InternalFailure)
    else if n == 9 then Ok(TemporarilyUnavailable)
    else Err(InvalidMessage)
  }

  // ---------------------------------------------------------------- schemas

  const MAX_U8 := 0xff
  const MAX_U16 := 0xffff
  const MAX_U32 := 0xffff_ffff
  const MAX_U64 := 0xffff_ffff_ffff_ffff

  function Key(k: byte): Kind { ExactUint(k, MAX_U8) }

  function BodySchema(): seq<Kind> { [AnArray(2), AnUint(MAX_U8)] }

  function BodyItems(discriminator: byte): seq<Item> { [ArrayHead(2), Uint(discriminator)] }

  /** Open and Acknowledge have one shape: a version, 16 bytes, and twice 32 bytes. */
  function RequestSchema(): seq<Kind> {
    [AMap(4), Key(0), AnUint(MAX_U16), Key(1), FixedBytes(16), Key(2), FixedBytes(32), Key(3), FixedBytes(32)]
  }

  function RequestItems(version: u16, a: Bytes16, b: Bytes32, c: Bytes32): seq<Item> {
    [MapHead(4), Uint(0), Uint(version), Uint(1), ByteString(a), Uint(2), ByteString(b), Uint(3), ByteString(c)]
  }

  /** An offer has ten fields; its schema is given in three consecutive parts. */
  function OfferHeadSchema(): seq<Kind> {
    [AMap(10), Key(0), AnUint(MAX_U16), Key(1), FixedBytes(16), Key(2), FixedBytes(32)]
  }

  function OfferMiddleSchema(): seq<Kind> {
    [Key(3), FixedBytes(24), Key(4), AnUint(MAX_U64), Key(5), AnUint(MAX_U8), Key(6), AnUint(MAX_U32)]
  }

  function OfferTailSchema(): seq<Kind> {
    [Key(7), BoundedBytes(MAX_CIPHERTEXT_BYTES), Key(8), FixedBytes(32), Key(9), FixedBytes(32)]
  }

  function OfferHeadItems(o: OfferResponse): seq<Item> {
    [MapHead(10), Uint(0), Uint(o.version), Uint(1), ByteString(o.claimId), Uint(2), ByteString(o.senderNonce)]
  }

  function OfferMiddleItems(o: OfferResponse): seq<Item> {
    [Uint(3), ByteString(o.aeadNonce), Uint(4), Uint(o.expiresAt), Uint(5), Uint(o.contentType),
     Uint(6), Uint(o.plaintextLength)]
  }

  function OfferTailItems(o: OfferResponse): seq<Item> {
    [Uint(7), ByteString(o.ciphertext), Uint(8), ByteString(o.digest), Uint(9), ByteString(o.senderProof)]
  }

  function OfferBytes(o: OfferResponse): Bytes
    requires ValidOffer(o)
  {
    WrittenAll(OfferHeadItems(o)) + (WrittenAll(OfferMiddleItems(o)) + WrittenAll(OfferTailItems(o)))
  }

  function CompletedSchema(): seq<Kind> { [AMap(2), Key(0), AnUint(MAX_U16), Key(1), FixedBytes(16)] }

  function CompletedItems(c: CompletedResponse): seq<Item> {
    [MapHead(2), Uint(0), Uint(c.version), Uint(1), ByteString(c.claimId)]
  }

  function ErrorSchema(): seq<Kind> { [AMap(2), Key(0), AnUint(MAX_U16), Key(1), AnUint(MAX_U8)] }

  function ErrorItems(e: ErrorResponse): seq<Item> {
    [MapHead(2), Uint(0), Uint(e.version), Uint(1), Uint(CodeNumber(e.code))]
  }

  // ----------------------------------------------------------- specification

  predicate ValidOffer(o: OfferResponse) {
    o.plaintextLength <= MAX_PAYLOAD_BYTES && |o.ciphertext| <= MAX_CIPHERTEXT_BYTES
  }

  function RequestBody(r: TransferRequest): Bytes {
    match r
    case Open(o) =>
      WrittenAll(BodyItems(0)) + WrittenAll(RequestItems(o.version, o.roomId, o.receiverNonce, o.receiverProof))
    case Acknowledge(a) => WrittenAll(BodyItems(1)) + WrittenAll(RequestItems(a.version, a.claimId, a.digest, a.proof))
  }

  function EncodedRequestBody(r: TransferRequest): Result<Bytes, WireError> {
    if |RequestBody(r)| > MAX_REQUEST_BODY_BYTES then Err(FrameTooLarge) else Ok(RequestBody(r))
  }

  function ResponseBody(r: TransferResponse): Bytes
    requires r.Offer? ==> ValidOffer(r.offer)
  {
    match r
    case Offer(o) => WrittenAll(BodyItems(0)) + OfferBytes(o)
    case Completed(c) => WrittenAll(BodyItems(1)) + WrittenAll(CompletedItems(c))
    case Error(e) => WrittenAll(BodyItems(2)) + WrittenAll(ErrorItems(e))
  }

  function ResponseLimit(r: TransferResponse): nat {
    if r.Offer? then MAX_OFFER_BODY_BYTES else MAX_SMALL_RESPONSE_BYTES
  }

  function EncodedResponseBody(r: TransferResponse): Result<Bytes, WireError> {
    if r.Offer? && !ValidOffer(r.offer) then Err(FrameTooLarge)
    else if |ResponseBody(r)| > ResponseLimit(r) then Err(FrameTooLarge)
    else Ok(ResponseBody(r))
  }

  function AsWireError(e: ReadError): WireError {
    if e == TooLarge then FrameTooLarge else InvalidMessage
  }

  /** A schema read at the front of some bytes, with the wire's error classes. */
  function ReadMessage(kinds: seq<Kind>, b: Bytes): (r: Result<(seq<Item>, nat), WireError>)
    ensures r.Ok? ==> AllFit(r.value.0, kinds) && r.value.1 <= |b|
  {
    match ReadAll(kinds, b)
    case Ok(v) => Ok(v)
    case Err(e) => Err(AsWireError(e))
  }

  function ReadRequest(discriminator: nat, b: Bytes): (r: Result<(TransferRequest, nat), WireError>)
    ensures r.Ok? ==> r.value.1 <= |b|
  {
    if discriminator > 1 then Err(InvalidMessage) else
    var (i, used) :- ReadMessage(RequestSchema(), b);
    if discriminator == 0
    then Ok((Open(OpenRequest(i[2].n, i[4].bytes, i[6].bytes, i[8].bytes)), used))
    else Ok((Acknowledge(AcknowledgeRequest(i[2].n, i[4].bytes, i[6].bytes, i[8].bytes)), used))
  }

  function ReadOffer(b: Bytes): (r: Result<(OfferResponse, nat), WireError>)
    ensures r.Ok? ==> r.value.1 <= |b|
  {
    var (h, n) :- ReadMessage(OfferHeadSchema(), b);
    var (m, k) :- ReadMessage(OfferMiddleSchema(), b[n..]);
    var (t, l) :- ReadMessage(OfferTailSchema(), b[n + k..]);
    Ok((OfferResponse(h[2].n, h[4].bytes, h[6].bytes, m[1].bytes, m[3].n, m[5].n, m[7].n,
                      t[1].bytes, t[3].bytes, t[5].bytes), n + k + l))
  }

  function ReadResponse(discriminator: nat, b: Bytes): (r: Result<(TransferResponse, nat), WireError>)
    ensures r.Ok? ==> r.value.1 <= |b|
  {
    if discriminator == 0 then
      var (o, used) :- ReadOffer(b);
      if !ValidOffer(o) then Err(FrameTooLarge) else Ok((Offer(o), used))
    else if discriminator == 1 then
      var (i, used) :- ReadMessage(CompletedSchema(), b);
      Ok((Completed(CompletedResponse(i[2].n, i[4].bytes)), used))
    else if discriminator == 2 then
      var (i, used) :- ReadMessage(ErrorSchema(), b);
      var code :- CodeOf(i[4].n);
      Ok((Error(ErrorResponse(i[2].n, code)), used))
    else Err(InvalidMessage)
  }

  function DecodedRequestBody(b: Bytes): Result<TransferRequest, WireError> {
    if b == [] || |b| > MAX_REQUEST_BODY_BYTES then Err(FrameTooLarge) else
    var (head, used) :- ReadMessage(BodySchema(), b);
    var (request, more) :- ReadRequest(head[1].n, b[used..]);
    if used + more != |b| then Err(InvalidMessage) else Ok(request)
  }

  function DecodedResponseBody(b: Bytes): Result<TransferResponse, WireError> {
    if b == [] || |b| > MAX_OFFER_BODY_BYTES then Err(FrameTooLarge) else
    var (head, used) :- ReadMessage(BodySchema(), b);
    var (response, more) :- ReadResponse(head[1].n, b[used..]);
    if |b| > ResponseLimit(response) then Err(FrameTooLarge)
    else if used + more != |b| then Err(InvalidMessage)
    else Ok(response)
  }

  // -------------------------------------------------------------- round trip

  lemma DiscriminatorReads(discriminator: byte, rest: Bytes)
    ensures var b := WrittenAll(BodyItems(discriminator)) + rest;
            && ReadMessage(BodySchema(), b) == Ok((BodyItems(discriminator), |WrittenAll(BodyItems(discriminator))|))
            && b[|WrittenAll(BodyItems(discriminator))|..] == rest
  {
    WrittenAllReads(BodyItems(discriminator), BodySchema(), rest);
  }

  /** Every request fits its body limit. */
  lemma RequestFits(r: TransferRequest)
    ensures 0 < |RequestBody(r)| <= MAX_REQUEST_BODY_BYTES
  {
    var items := if r.Open? then RequestItems(r.open.version, r.open.roomId, r.open.receiverNonce, r.open.receiverProof)
                 else var a := r.acknowledge; RequestItems(a.version, a.claimId, a.digest, a.proof);
    WrittenSize(BodyItems(if r.Open? then 0 else 1), 0);
    WrittenSize(items, 32);
  }

  lemma OfferTailSize(o: OfferResponse)
    requires ValidOffer(o)
    ensures |WrittenAll(OfferTailItems(o))| <= |o.ciphertext| + 300
  {
    hide Written, WrittenAll;
    var tail, c := OfferTailItems(o), [ByteString(o.ciphertext)];
    assert tail == tail[..1] + c + tail[2..];
    WrittenConcat(tail[..1], c);
    WrittenConcat(tail[..1] + c, tail[2..]);
    WrittenSize(tail[..1], 0);
    WrittenSize(c, |o.ciphertext|);
    WrittenSize(tail[2..], 32);
  }

  /** Every response that passes the offer checks fits its body limit. */
  lemma ResponseFits(r: TransferResponse)
    requires r.Offer? ==> ValidOffer(r.offer)
    ensures 0 < |ResponseBody(r)| <= ResponseLimit(r)
  {
    hide Written, WrittenAll;
    match r
    case Offer(o) =>
      WrittenSize(BodyItems(0), 0);
      WrittenSize(OfferHeadItems(o), 32);
      WrittenSize(OfferMiddleItems(o), 32);
      OfferTailSize(o);
    case Completed(c) =>
      WrittenSize(BodyItems(1), 0);
      WrittenSize(CompletedItems(c), 32);
    case Error(e) =>
      WrittenSize(BodyItems(2), 0);
      WrittenSize(ErrorItems(e), 32);
  }

  lemma RequestReads(version: u16, a: Bytes16, b: Bytes32, c: Bytes32)
    ensures var items := RequestItems(version, a, b, c);
            ReadMessage(RequestSchema(), WrittenAll(items)) == Ok((items, |WrittenAll(items)|))
  {
    var items := RequestItems(version, a, b, c);
    WrittenAllReads(items, RequestSchema(), []);
    assert WrittenAll(items) + [] == WrittenAll(items);
  }

  lemma OfferReads(o: OfferResponse)
    requires ValidOffer(o)
    ensures ReadOffer(OfferBytes(o)) == Ok((o, |OfferBytes(o)|))
  {
    hide Written, WrittenAll, Read, ReadAll;
    var head, middle := WrittenAll(OfferHeadItems(o)), WrittenAll(OfferMiddleItems(o));
    var tail := WrittenAll(OfferTailItems(o));
    WrittenAllReads(OfferHeadItems(o), OfferHeadSchema(), middle + tail);
    WrittenAllReads(OfferMiddleItems(o), OfferMiddleSchema(), tail);
    WrittenAllReads(OfferTailItems(o), OfferTailSchema(), []);
    assert tail + [] == tail;
    var b := OfferBytes(o);
    assert b[|head|..] == middle + tail && b[|head| + |middle|..] == tail;
  }

  /** Every request survives encoding and decoding. */
  lemma RequestRoundTrip(r: TransferRequest)
    ensures EncodedRequestBody(r).Ok?
    ensures DecodedRequestBody(EncodedRequestBody(r).value) == Ok(r)
  {
    hide Written, WrittenAll, Read, ReadAll;
    RequestFits(r);
    match r
    case Open(o) =>
      RequestReads(o.version, o.roomId, o.receiverNonce, o.receiverProof);
      DiscriminatorReads(0, WrittenAll(RequestItems(o.version, o.roomId, o.receiverNonce, o.receiverProof)));
    case Acknowledge(a) =>
      RequestReads(a.version, a.claimId, a.digest, a.proof);
      DiscriminatorReads(1, WrittenAll(RequestItems(a.version, a.claimId, a.digest, a.proof)));
  }

  /** A response encodes exactly when it passes the offer checks, and then survives decoding. */
  lemma ResponseRoundTrip(r: TransferResponse)
    ensures EncodedResponseBody(r).Ok? <==> (r.Offer? ==> ValidOffer(r.offer))
    ensures EncodedResponseBody(r).Ok? ==> DecodedResponseBody(EncodedResponseBody(r).value) == Ok(r)
  {
    hide Written, WrittenAll, Read, ReadAll;
    if r.Offer? ==> ValidOffer(r.offer) {
      ResponseFits(r);
      match r
      case Offer(o) =>
        OfferReads(o);
        DiscriminatorReads(0, OfferBytes(o));
      case Completed(c) =>
        var b := WrittenAll(CompletedItems(c));
        WrittenAllReads(CompletedItems(c), CompletedSchema(), []);
        assert b + [] == b;
        DiscriminatorReads(1, b);
      case Error(e) =>
        var b := WrittenAll(ErrorItems(e));
        WrittenAllReads(ErrorItems(e), ErrorSchema(), []);
        assert b + [] == b;
        DiscriminatorReads(2, b);
    }
  }

  /** Of two decodable bodies, neither is a proper prefix of the other. */
  lemma RequestBodiesPrefixFree(b: Bytes, more: Bytes)
    requires DecodedRequestBody(b).Ok? && DecodedRequestBody(b + more).Ok?
    ensures more == []
  {
    hide Written, WrittenAll, Read, ReadAll;
    var (head, used) := ReadMessage(BodySchema(), b).value;
    ReadAllIgnoresSuffix(BodySchema(), b, more);
    assert (b + more)[used..] == b[used..] + more;
    ReadAllIgnoresSuffix(RequestSchema(), b[used..], more);
  }

  lemma ResponseBodiesPrefixFree(b: Bytes, more: Bytes)
    requires DecodedResponseBody(b).Ok? && DecodedResponseBody(b + more).Ok?
    ensures more == []
  {
    hide Written, WrittenAll, Read, ReadAll;
    var (head, used) := ReadMessage(BodySchema(), b).value;
    ReadAllIgnoresSuffix(BodySchema(), b, more);
    var rest := b[used..];
    assert (b + more)[used..] == rest + more;
    if head[1].n == 0 {
      ReadAllIgnoresSuffix(OfferHeadSchema(), rest, more);
      var n := ReadMessage(OfferHeadSchema(), rest).value.1;
      assert (rest + more)[n..] == rest[n..] + more;
      ReadAllIgnoresSuffix(OfferMiddleSchema(), rest[n..], more);
      var k := n + ReadMessage(OfferMiddleSchema(), rest[n..]).value.1;
      assert (rest + more)[k..] == rest[k..] + more;
      ReadAllIgnoresSuffix(OfferTailSchema(), rest[k..], more);
    } else if head[1].n == 1 {
      ReadAllIgnoresSuffix(CompletedSchema(), rest, more);
    } else {
      ReadAllIgnoresSuffix(ErrorSchema(), rest, more);
    }
  }

  // ------------------------------------------------------ encoding functions

  method PutBodyHead(e: Encoder, discriminator: byte)
    requires e.Valid() && e.items == []
    modifies e
    ensures e.Valid() && e.items == BodyItems(discriminator)
  {
    e.Put(ArrayHead(2));
    e.Put(Uint(discriminator));
  }

  /** `encode_open` and `encode_acknowledgement` */
  method PutRequest(e: Encoder, version: u16, a: Bytes16, b: Bytes32, c: Bytes32)
    requires e.Valid()
    modifies e
    ensures e.Valid() && e.items == old(e.items) + RequestItems(version, a, b, c)
  {
    hide WrittenAll;
    e.Put(MapHead(4));
    e.Put(Uint(0));
    e.Put(Uint(version));
    e.Put(Uint(1));
    e.Put(ByteString(a));
    e.Put(Uint(2));
    e.Put(ByteString(b));
    e.Put(Uint(3));
    e.Put(ByteString(c));
  }

  method EncodeRequestBody(r: TransferRequest) returns (body: Result<Bytes, WireError>)
    ensures body == EncodedRequestBody(r)
  {
    hide WrittenAll;
    var e := new Encoder();
    match r {
      case Open(o) =>
        PutBodyHead(e, 0);
        PutRequest(e, o.version, o.roomId, o.receiverNonce, o.receiverProof);
        WrittenConcat(BodyItems(0), RequestItems(o.version, o.roomId, o.receiverNonce, o.receiverProof));
      case Acknowledge(a) =>
        PutBodyHead(e, 1);
        PutRequest(e, a.version, a.claimId, a.digest, a.proof);
        WrittenConcat(BodyItems(1), RequestItems(a.version, a.claimId, a.digest, a.proof));
    }
    if |e.buffer| > MAX_REQUEST_BODY_BYTES {
      return Err(FrameTooLarge);
    }
    return Ok(e.buffer);
  }

  method PutOffer(e: Encoder, o: OfferResponse)
    requires e.Valid() && ValidOffer(o)
    modifies e
    ensures e.Valid()
    ensures e.items == old(e.items) + (OfferHeadItems(o) + (OfferMiddleItems(o) + OfferTailItems(o)))
  {
    hide WrittenAll;
    PutOfferHead(e, o);
    ghost var head := e.items;
    PutOfferMiddle(e, o);
    ghost var middle := e.items;
    e.Put(Uint(7));
    e.Put(ByteString(o.ciphertext));
    e.Put(Uint(8));
    e.Put(ByteString(o.digest));
    e.Put(Uint(9));
    e.Put(ByteString(o.senderProof));
    assert e.items == middle + OfferTailItems(o);
  }

  method PutOfferHead(e: Encoder, o: OfferResponse)
    requires e.Valid()
    modifies e
    ensures e.Valid() && e.items == old(e.items) + OfferHeadItems(o)
  {
    hide WrittenAll;
    e.Put(MapHead(10));
    e.Put(Uint(0));
    e.Put(Uint(o.version));
    e.Put(Uint(1));
    e.Put(ByteString(o.claimId));
    e.Put(Uint(2));
    e.Put(ByteString(o.senderNonce));
  }

  method PutOfferMiddle(e: Encoder, o: OfferResponse)
    requires e.Valid()
    modifies e
    ensures e.Valid() && e.items == old(e.items) + OfferMiddleItems(o)
  {
    hide WrittenAll;
    e.Put(Uint(3));
    e.Put(ByteString(o.aeadNonce));
    e.Put(Uint(4));
    e.Put(Uint(o.expiresAt));
    e.Put(Uint(5));
    e.Put(Uint(o.contentType));
    e.Put(Uint(6));
    e.Put(Uint(o.plaintextLength));
  }

  method EncodeResponseBody(r: TransferResponse) returns (body: Result<Bytes, WireError>)
    ensures body == EncodedResponseBody(r)
  {
    hide WrittenAll;
    var e := new Encoder();
    var limit;
    match r {
      case Offer(o) =>
        if o.plaintextLength > MAX_PAYLOAD_BYTES || |o.ciphertext| > MAX_CIPHERTEXT_BYTES {
          return Err(FrameTooLarge);
        }
        PutBodyHead(e, 0);
        PutOffer(e, o);
        limit := MAX_OFFER_BODY_BYTES;
        WrittenConcat(OfferMiddleItems(o), OfferTailItems(o));
        WrittenConcat(OfferHeadItems(o), OfferMiddleItems(o) + OfferTailItems(o));
        WrittenConcat(BodyItems(0), OfferHeadItems(o) + (OfferMiddleItems(o) + OfferTailItems(o)));
      case Completed(c) =>
        PutBodyHead(e, 1);
        e.Put(MapHead(2));
        e.Put(Uint(0));
        e.Put(Uint(c.version));
        e.Put(Uint(1));
        e.Put(ByteString(c.claimId));
        limit := MAX_SMALL_RESPONSE_BYTES;
        WrittenConcat(BodyItems(1), CompletedItems(c));
        assert e.items == BodyItems(1) + CompletedItems(c);
      case Error(f) =>
        PutBodyHead(e, 2);
        e.Put(MapHead(2));
        e.Put(Uint(0));
        e.Put(Uint(f.version));
        e.Put(Uint(1));
        e.Put(Uint(CodeNumber(f.code)));
        limit := MAX_SMALL_RESPONSE_BYTES;
        WrittenConcat(BodyItems(2), ErrorItems(f));
        assert e.items == BodyItems(2) + ErrorItems(f);
    }
    if |e.buffer| > limit {
      return Err(FrameTooLarge);
    }
    return Ok(e.buffer);
  }

  // ------------------------------------------------------ decoding functions

  method Take(d: Decoder, kind: Kind) returns (r: Result<Item, WireError>)
    requires d.Valid() && |d.items| < |d.plan| && d.plan[|d.items|] == kind
    modifies d`position, d`items
    ensures d.Valid()
    ensures r.Ok? ==> Fits(r.value, kind) && d.items == old(d.items) + [r.value]
    ensures r.Err? ==> ReadMessage(d.plan, d.input[d.start..]) == Err(r.error)
  {
    var next := d.Next(kind);
    match next
    case Ok(item) => return Ok(item);
    case Err(e) => return Err(AsWireError(e));
  }

  /** `expect_key`, then the value. */
  method TakeField(d: Decoder, key: byte, kind: Kind) returns (r: Result<Item, WireError>)
    requires d.Valid() && |d.items| + 1 < |d.plan|
    requires d.plan[|d.items|] == Key(key) && d.plan[|d.items| + 1] == kind
    modifies d`position, d`items
    ensures d.Valid()
    ensures r.Ok? ==> Fits(r.value, kind) && d.items == old(d.items) + [Uint(key), r.value]
    ensures r.Err? ==> ReadMessage(d.plan, d.input[d.start..]) == Err(r.error)
  {
    hide Decoder.Valid, ReadMessage;
    var _ :- Take(d, Key(key));
    r := Take(d, kind);
  }

  /** At the end of a schema the items are the message. */
  lemma CompletedMessage(d: Decoder)
    requires d.Valid() && |d.items| == |d.plan|
    ensures ReadMessage(d.plan, d.input[d.start..]) == Ok((d.items, d.position - d.start))
  {
    hide ReadAll;
    d.Completed();
  }

  method DecodeBodyHead(d: Decoder) returns (r: Result<nat, WireError>)
    requires d.Valid() && d.position == 0
    modifies d
    ensures d.Valid()
    ensures match ReadMessage(BodySchema(), d.input)
            case Ok((items, used)) => r == Ok(items[1].n) && d.position == used
            case Err(e) => r == Err(e)
  {
    hide ReadAll, Decoder.Valid;
    d.Begin(BodySchema());
    assert d.input[0..] == d.input;
    var _ :- Take(d, AnArray(2));
    var discriminator :- Take(d, AnUint(MAX_U8));
    CompletedMessage(d);
    return Ok(discriminator.n);
  }

  /** The four fields of `decode_open` and of `decode_acknowledgement`. */
  method DecodeFourFields(d: Decoder) returns (r: Result<seq<Item>, WireError>)
    requires d.Valid()
    modifies d
    ensures d.Valid()
    ensures match ReadMessage(RequestSchema(), d.input[old(d.position)..])
            case Ok((items, used)) => r == Ok(items) && d.position == old(d.position) + used
            case Err(e) => r == Err(e)
  {
    hide ReadAll, ReadMessage, Decoder.Valid, Fits;
    d.Begin(RequestSchema());
    var fields :- Take(d, AMap(4));
    var version :- TakeField(d, 0, AnUint(MAX_U16));
    var a :- TakeField(d, 1, FixedBytes(16));
    assert d.items == [fields, Uint(0), version, Uint(1), a];
    var b :- TakeField(d, 2, FixedBytes(32));
    var c :- TakeField(d, 3, FixedBytes(32));
    var items := [fields, Uint(0), version, Uint(1), a, Uint(2), b, Uint(3), c];
    assert d.items == items;
    CompletedMessage(d);
    return Ok(items);
  }

  method DecodeRequest(d: Decoder, discriminator: nat) returns (r: Result<TransferRequest, WireError>)
    requires d.Valid() && discriminator <= 1
    modifies d
    ensures d.Valid()
    ensures match ReadRequest(discriminator, d.input[old(d.position)..])
            case Ok((request, used)) => r == Ok(request) && d.position == old(d.position) + used
            case Err(e) => r == Err(e)
  {
    hide ReadAll, Decoder.Valid, ReadMessage;
    var i :- DecodeFourFields(d);
    if discriminator == 0 {
      return Ok(Open(OpenRequest(i[2].n, i[4].bytes, i[6].bytes, i[8].bytes)));
    }
    return Ok(Acknowledge(AcknowledgeRequest(i[2].n, i[4].bytes, i[6].bytes, i[8].bytes)));
  }

  method DecodeRequestBody(encoded: Bytes) returns (r: Result<TransferRequest, WireError>)
    ensures r == DecodedRequestBody(encoded)
  {
    hide ReadAll, Decoder.Valid;
    if encoded == [] || |encoded| > MAX_REQUEST_BODY_BYTES {
      return Err(FrameTooLarge);
    }
    var d := new Decoder(encoded);
    var discriminator :- DecodeBodyHead(d);
    if discriminator > 1 {
      return Err(InvalidMessage);
    }
    var request :- DecodeRequest(d, discriminator);
    if d.position != |encoded| {
      return Err(InvalidMessage);
    }
    return Ok(request);
  }

  method DecodeOffer(d: Decoder) returns (r: Result<OfferResponse, WireError>)
    requires d.Valid()
    modifies d
    ensures d.Valid()
    ensures match ReadOffer(d.input[old(d.position)..])
            case Ok((offer, used)) => r == Ok(offer) && d.position == old(d.position) + used
            case Err(e) => r == Err(e)
  {
    hide ReadAll, Decoder.Valid, ReadMessage;
    ghost var b, start := d.input[d.position..], d.position;
    var h :- DecodeOfferHead(d);
    assert b[d.position - start..] == d.input[d.position..];
    var m :- DecodeOfferMiddle(d);
    assert b[d.position - start..] == d.input[d.position..];
    var t :- DecodeOfferTail(d);
    return Ok(OfferResponse(h[2].n, h[4].bytes, h[6].bytes, m[1].bytes, m[3].n, m[5].n, m[7].n,
                            t[1].bytes, t[3].bytes, t[5].bytes));
  }

  method DecodeOfferHead(d: Decoder) returns (r: Result<seq<Item>, WireError>)
    requires d.Valid()
    modifies d
    ensures d.Valid()
    ensures match ReadMessage(OfferHeadSchema(), d.input[old(d.position)..])
            case Ok((items, used)) => r == Ok(items) && d.position == old(d.position) + used
            case Err(e) => r == Err(e)
  {
    hide ReadAll, ReadMessage, Decoder.Valid, Fits;
    d.Begin(OfferHeadSchema());
    var fields :- Take(d, AMap(10));
    var version :- TakeField(d, 0, AnUint(MAX_U16));
    var claimId :- TakeField(d, 1, FixedBytes(16));
    assert d.items == [fields, Uint(0), version, Uint(1), claimId];
    var senderNonce :- TakeField(d, 2, FixedBytes(32));
    var items := [fields, Uint(0), version, Uint(1), claimId, Uint(2), senderNonce];
    assert d.items == items;
    CompletedMessage(d);
    return Ok(items);
  }

  method DecodeOfferMiddle(d: Decoder) returns (r: Result<seq<Item>, WireError>)
    requires d.Valid()
    modifies d
    ensures d.Valid()
    ensures match ReadMessage(OfferMiddleSchema(), d.input[old(d.position)..])
            case Ok((items, used)) => r == Ok(items) && d.position == old(d.position) + used
            case Err(e) => r == Err(e)
  {
    hide ReadAll, ReadMessage, Decoder.Valid, Fits;
    d.Begin(OfferMiddleSchema());
    var aeadNonce :- TakeField(d, 3, FixedBytes(24));
    var expiresAt :- TakeField(d, 4, AnUint(MAX_U64));
    assert d.items == [Uint(3), aeadNonce, Uint(4), expiresAt];
    var contentType :- TakeField(d, 5, AnUint(MAX_U8));
    var plaintextLength :- TakeField(d, 6, AnUint(MAX_U32));
    var items := [Uint(3), aeadNonce, Uint(4), expiresAt, Uint(5), contentType, Uint(6), plaintextLength];
    assert d.items == items;
    CompletedMessage(d);
    return Ok(items);
  }

  method DecodeOfferTail(d: Decoder) returns (r: Result<seq<Item>, WireError>)
    requires d.Valid()
    modifies d
    ensures d.Valid()
    ensures match ReadMessage(OfferTailSchema(), d.input[old(d.position)..])
            case Ok((items, used)) => r == Ok(items) && d.position == old(d.position) + used
            case Err(e) => r == Err(e)
  {
    hide ReadAll, ReadMessage, Decoder.Valid, Fits;
    d.Begin(OfferTailSchema());
    var ciphertext :- TakeField(d, 7, BoundedBytes(MAX_CIPHERTEXT_BYTES));
    var digest :- TakeField(d, 8, FixedBytes(32));
    var senderProof :- TakeField(d, 9, FixedBytes(32));
    var items := [Uint(7), ciphertext, Uint(8), digest, Uint(9), senderProof];
    assert d.items == items;
    CompletedMessage(d);
    return Ok(items);
  }

  /** `decode_completed` and `decode_error`, with the one field in which they differ. */
  method DecodePair(d: Decoder, last: Kind) returns (r: Result<(u16, Item), WireError>)
    requires d.Valid()
    modifies d
    ensures d.Valid()
    ensures match ReadMessage([AMap(2), Key(0), AnUint(MAX_U16), Key(1), last], d.input[old(d.position)..])
            case Ok((items, used)) => r == Ok((items[2].n, items[4])) && d.position == old(d.position) + used
            case Err(e) => r == Err(e)
  {
    hide ReadAll, Decoder.Valid;
    d.Begin([AMap(2), Key(0), AnUint(MAX_U16), Key(1), last]);
    var _ :- Take(d, AMap(2));
    var version :- TakeField(d, 0, AnUint(MAX_U16));
    var item :- TakeField(d, 1, last);
    CompletedMessage(d);
    return Ok((version.n, item));
  }

  method DecodeResponse(d: Decoder, discriminator: nat) returns (r: Result<TransferResponse, WireError>)
    requires d.Valid()
    modifies d
    ensures d.Valid()
    ensures match ReadResponse(discriminator, d.input[old(d.position)..])
            case Ok((response, used)) => r == Ok(response) && d.position == old(d.position) + used
            case Err(e) => r == Err(e)
  {
    hide ReadAll, Decoder.Valid;
    if discriminator == 0 {
      var offer :- DecodeOffer(d);
      if !ValidOffer(offer) {
        return Err(FrameTooLarge);
      }
      return Ok(Offer(offer));
    } else if discriminator == 1 {
      var fields :- DecodePair(d, FixedBytes(16));
      return Ok(Completed(CompletedResponse(fields.0, fields.1.bytes)));
    } else if discriminator == 2 {
      var fields :- DecodePair(d, AnUint(MAX_U8));
      var code :- CodeOf(fields.1.n);
      return Ok(Error(ErrorResponse(fields.0, code)));
    }
    return Err(InvalidMessage);
  }

  method DecodeResponseBody(encoded: Bytes) returns (r: Result<TransferResponse, WireError>)
    ensures r == DecodedResponseBody(encoded)
  {
    hide ReadAll, Decoder.Valid;
    if encoded == [] || |encoded| > MAX_OFFER_BODY_BYTES {
      return Err(FrameTooLarge);
    }
    var d := new Decoder(encoded);
    var discriminator :- DecodeBodyHead(d);
    var response :- DecodeResponse(d, discriminator);
    var limit := if response.Offer? then MAX_OFFER_BODY_BYTES else MAX_SMALL_RESPONSE_BYTES;
    if |encoded| > limit {
      return Err(FrameTooLarge);
    }
    if d.position != |encoded| {
      return Err(InvalidMessage);
    }
    return Ok(response);
  }

  /** What is decoded is within the limit of its kind, and an offer within its own. */
  lemma DecodedWithinLimits(b: Bytes)
    ensures DecodedRequestBody(b).Ok? ==> 0 < |b| <= 1024
    ensures DecodedResponseBody(b).Ok? ==>
              match DecodedResponseBody(b).value
              case Offer(o) => && 0 < |b| <= 1_064_960 && o.plaintextLength <= 1_048_576
                               && |o.ciphertext| <= 1_049_616
              case Completed(_) => 0 < |b| <= 1024
              case Error(_) => 0 < |b| <= 1024
  {
    hide ReadMessage, ReadOffer;
  }

  /** The codes of errors on the wire. */
  lemma CodesAreFixed(c: ErrorCode)
    ensures CodeOf(CodeNumber(c)) == Ok(c)
    ensures CodeNumber(NotFoundOrUnauthorized) == 0 && CodeNumber(UnsupportedVersion) == 1
    ensures CodeNumber(InvalidMessageCode) == 2 && CodeNumber(ShareUnavailable) == 3 && CodeNumber(ShareExpired) == 4
    ensures CodeNumber(ShareAlreadyClaimed) == 5 && CodeNumber(ClaimMismatch) == 6
    ensures CodeNumber(PayloadTooLargeCode) == 7 && CodeNumber(InternalFailure) == 8
    ensures CodeNumber(TemporarilyUnavailable) == 9
  {
  }
}
