/** The plaintext envelope that is encoded before encryption. */
module Envelopes {
  import opened Basics
  import opened Cbor
  import opened Wire

  datatype ContentType = DotenvRaw | DotenvNormalized

  datatype EnvelopeError =
    | PayloadTooLarge
    | InvalidSuggestedName
    | InvalidTimestamps
    | EncodedTooLarge
    | InvalidEncoding

  datatype SecretEnvelope = SecretEnvelope(
    contentType: ContentType, name: Option<Bytes>, createdAt: u64, expiresAt: u64, payload: Bytes)

  function ContentNumber(t: ContentType): byte {
    if t.DotenvRaw? then 0 else 1
  }

  function ContentTypeOf(n: nat): Result<ContentType, EnvelopeError> {
    if n == 0 then Ok(DotenvRaw) else if n == 1 then Ok(DotenvNormalized) else Err(InvalidEncoding)
  }

  /** A name that is a string accepted by `SuggestedName::new`. */
  predicate NameOk(name: Option<Bytes>) {
    name.Some? ==> IsUtf8(name.value) && ValidName(name.value)
  }

  /** `SecretEnvelope::new`, given a name that already exists. */
  function New(contentType: ContentType, name: Option<Bytes>, createdAt: u64, expiresAt: u64, payload: Bytes)
    : Result<SecretEnvelope, EnvelopeError>
  {
    if |payload| > MAX_PAYLOAD_BYTES then Err(PayloadTooLarge)
    else if expiresAt < createdAt then Err(InvalidTimestamps)
    else Ok(SecretEnvelope(contentType, name, createdAt, expiresAt, payload))
  }

  /** The envelopes that can exist: fields are private, so each came from `new`. */
  predicate Constructible(e: SecretEnvelope) {
    NameOk(e.name) && New(e.contentType, e.name, e.createdAt, e.expiresAt, e.payload) == Ok(e)
  }

  /** An unknown content type is refused with the same error as a value beyond `u8`. */
  function HeadSchema(): seq<Kind> {
    [AMap(6), Key(0), ExactUint(1, MAX_U16), Key(1), AnUint(1), Key(2), NameOrNull]
  }

  function TailSchema(): seq<Kind> {
    [Key(3), AnUint(MAX_U64), Key(4), AnUint(MAX_U64), Key(5), BoundedBytes(MAX_PAYLOAD_BYTES)]
  }

  function HeadItems(e: SecretEnvelope): seq<Item> {
    [MapHead(6), Uint(0), Uint(1), Uint(1), Uint(ContentNumber(e.contentType)), Uint(2),
     if e.name.Some? then TextString(e.name.value) else Null]
  }

  function TailItems(e: SecretEnvelope): seq<Item> {
    [Uint(3), Uint(e.createdAt), Uint(4), Uint(e.expiresAt), Uint(5), ByteString(e.payload)]
  }

  function EnvelopeBytes(e: SecretEnvelope): Bytes
    requires Constructible(e)
  {
    WrittenAll(HeadItems(e)) + WrittenAll(TailItems(e))
  }

  function Encoded(e: SecretEnvelope): Result<Bytes, EnvelopeError>
    requires Constructible(e)
  {
    if |EnvelopeBytes(e)| > MAX_ENVELOPE_BYTES then Err(EncodedTooLarge) else Ok(EnvelopeBytes(e))
  }

  function AsEnvelopeError(e: ReadError): EnvelopeError {
    match e
    case Malformed => InvalidEncoding
    case TooLarge => PayloadTooLarge
    case BadName => InvalidSuggestedName
  }

  function ReadPart(kinds: seq<Kind>, b: Bytes): (r: Result<(seq<Item>, nat), EnvelopeError>)
    ensures r.Ok? ==> AllFit(r.value.0, kinds) && r.value.1 <= |b|
  {
    match ReadAll(kinds, b)
    case Ok(v) => Ok(v)
    case Err(e) => Err(AsEnvelopeError(e))
  }

  function Decoded(b: Bytes): Result<SecretEnvelope, EnvelopeError> {
    if b == [] || |b| > MAX_ENVELOPE_BYTES then Err(EncodedTooLarge) else
    var (h, n) :- ReadPart(HeadSchema(), b);
    var (t, m) :- ReadPart(TailSchema(), b[n..]);
    if n + m != |b| then Err(InvalidEncoding) else
    New(if h[4].n == 0 then DotenvRaw else DotenvNormalized,
        if h[6].Null? then None else Some(h[6].utf8), t[1].n, t[3].n, t[5].bytes)
  }

  /** The metadata allowance above the payload limit is enough for every envelope. */
  lemma EnvelopeFits(e: SecretEnvelope)
    requires Constructible(e)
    ensures 0 < |EnvelopeBytes(e)| <= |e.payload| + 300
    ensures Encoded(e) == Ok(EnvelopeBytes(e))
  {
    hide Written, WrittenAll, IsUtf8, HasControl;
    var h, t := HeadItems(e), TailItems(e);
    assert h == h[..6] + h[6..] && t == t[..5] + t[5..];
    WrittenConcat(h[..6], h[6..]);
    WrittenConcat(t[..5], t[5..]);
    WrittenSize(h[..6], 0);
    WrittenSize(h[6..], 128);
    WrittenSize(t[..5], 0);
    WrittenSize(t[5..], |e.payload|);
  }

  /** Every constructible envelope encodes and decodes to itself. */
  lemma EnvelopeRoundTrip(e: SecretEnvelope)
    requires Constructible(e)
    ensures Encoded(e).Ok? && Decoded(Encoded(e).value) == Ok(e)
  {
    hide Written, WrittenAll, Read, ReadAll, IsUtf8, HasControl;
    EnvelopeFits(e);
    var h, t := WrittenAll(HeadItems(e)), WrittenAll(TailItems(e));
    WrittenAllReads(HeadItems(e), HeadSchema(), t);
    WrittenAllReads(TailItems(e), TailSchema(), []);
    assert t + [] == t;
    assert (h + t)[|h|..] == t;
  }

  /** Decoding yields only envelopes that could have been constructed. */
  lemma DecodedIsConstructible(b: Bytes)
    requires Decoded(b).Ok?
    ensures Constructible(Decoded(b).value)
  {
    hide Read, ReadAll, IsUtf8, ValidName;
    var (h, n) := ReadPart(HeadSchema(), b).value;
    assert Fits(h[6], HeadSchema()[6]);
  }

  // ---------------------------------------------------- imperative functions

  method EncodeEnvelope(e: SecretEnvelope) returns (r: Result<Bytes, EnvelopeError>)
    requires Constructible(e)
    ensures r == Encoded(e)
  {
    hide WrittenAll, IsUtf8, HasControl;
    var encoder := new Encoder();
    PutHead(encoder, e);
    ghost var head := encoder.items;
    encoder.Put(Uint(3));
    encoder.Put(Uint(e.createdAt));
    encoder.Put(Uint(4));
    encoder.Put(Uint(e.expiresAt));
    encoder.Put(Uint(5));
    encoder.Put(ByteString(e.payload));
    assert encoder.items == HeadItems(e) + TailItems(e);
    WrittenConcat(HeadItems(e), TailItems(e));
    if |encoder.buffer| > MAX_ENVELOPE_BYTES {
      return Err(EncodedTooLarge);
    }
    return Ok(encoder.buffer);
  }

  method PutHead(encoder: Encoder, e: SecretEnvelope)
    requires encoder.Valid() && encoder.items == [] && Constructible(e)
    modifies encoder
    ensures encoder.Valid() && encoder.items == HeadItems(e)
  {
    hide WrittenAll, IsUtf8, HasControl;
    encoder.Put(MapHead(6));
    encoder.Put(Uint(0));
    encoder.Put(Uint(1));
    encoder.Put(Uint(1));
    encoder.Put(Uint(ContentNumber(e.contentType)));
    encoder.Put(Uint(2));
    if e.name.Some? {
      encoder.Put(TextString(e.name.value));
    } else {
      encoder.Put(Null);
    }
  }

  method Expect(d: Decoder, key: byte, kind: Kind) returns (r: Result<Item, EnvelopeError>)
    requires d.Valid() && |d.items| + 1 < |d.plan|
    requires d.plan[|d.items|] == Key(key) && d.plan[|d.items| + 1] == kind
    modifies d`position, d`items
    ensures d.Valid()
    ensures r.Ok? ==> Fits(r.value, kind) && d.items == old(d.items) + [Uint(key), r.value]
    ensures r.Err? ==> ReadPart(d.plan, d.input[d.start..]) == Err(r.error)
  {
    hide Decoder.Valid, ReadAll;
    var k := d.Next(Key(key));
    if k.Err? {
      return Err(AsEnvelopeError(k.error));
    }
    var v := d.Next(kind);
    if v.Err? {
      return Err(AsEnvelopeError(v.error));
    }
    return Ok(v.value);
  }

  method DecodeHead(d: Decoder) returns (r: Result<(ContentType, Option<Bytes>), EnvelopeError>)
    requires d.Valid() && d.position == 0
    modifies d
    ensures d.Valid()
    ensures match ReadPart(HeadSchema(), d.input)
            case Ok((h, used)) =>
              && r == Ok((if h[4].n == 0 then DotenvRaw else DotenvNormalized,
                          if h[6].Null? then None else Some(h[6].utf8)))
              && d.position == used
            case Err(e) => r == Err(e)
  {
    hide ReadAll, Decoder.Valid, IsUtf8, ValidName;
    d.Begin(HeadSchema());
    assert d.input[0..] == d.input;
    var fields := d.Next(AMap(6));
    if fields.Err? {
      return Err(AsEnvelopeError(fields.error));
    }
    var _ :- Expect(d, 0, ExactUint(1, MAX_U16));
    var number :- Expect(d, 1, AnUint(1));
    var name :- Expect(d, 2, NameOrNull);
    d.Completed();
    return Ok((ContentTypeOf(number.n).value, if name.Null? then None else Some(name.utf8)));
  }

  method DecodeEnvelope(encoded: Bytes) returns (r: Result<SecretEnvelope, EnvelopeError>)
    ensures r == Decoded(encoded)
  {
    hide ReadAll, Decoder.Valid, IsUtf8, ValidName;
    if encoded == [] || |encoded| > MAX_ENVELOPE_BYTES {
      return Err(EncodedTooLarge);
    }
    var d := new Decoder(encoded);
    var head :- DecodeHead(d);
    d.Begin(TailSchema());
    var createdAt :- Expect(d, 3, AnUint(MAX_U64));
    var expiresAt :- Expect(d, 4, AnUint(MAX_U64));
    var payload :- Expect(d, 5, BoundedBytes(MAX_PAYLOAD_BYTES));
    d.Completed();
    if d.position != |encoded| {
      return Err(InvalidEncoding);
    }
    return New(head.0, head.1, createdAt.n, expiresAt.n, payload.bytes);
  }
}
