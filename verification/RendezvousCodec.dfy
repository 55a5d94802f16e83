/** The node's discovery wire format: varint frames around protocol-buffer messages. */
module RendezvousCodec {
  import opened Basics
  import opened Store
  import opened StoreInvariant
  import opened StoreRuns

  const MAX_WIRE_MESSAGE_BYTES := 1024 * 1024

  datatype FrameError = InvalidLength | TooLarge | UnexpectedEnd

  // -------------------------------------------------------------------- varints

  /** Base 128, least significant digit first, the high bit on every byte but the last. */
  function Varint(n: nat): Bytes {
    if n < 128 then [n] else [128 + n % 128] + Varint(n / 128)
  }

  /** `encode_varint` */
  method EncodeVarint(length: u64) returns (output: Bytes)
    ensures output == Varint(length)
  {
    var value: nat := length;
    output := [];
    while true
      invariant Varint(length) == output + Varint(value)
      decreases value
    {
      var low: nat := value % 128;
      VarintStep(output, value);
      value := value / 128;
      if value != 0 { low := low + 128; }
      output := output + [low];
      if value == 0 { break; }
    }
  }

  lemma VarintStep(output: Bytes, value: nat)
    ensures value / 128 == 0 ==> Varint(value) == [value % 128]
    ensures value / 128 != 0 ==> output + Varint(value) == output + [value % 128 + 128] + Varint(value / 128)
  {
  }

  /** What is still representable in 64 bits when `i` bytes have been read. */
  function Room(i: nat): nat
    requires i <= 9
  {
    2 * Pow(128, 9 - i)
  }

  /** The length that starts at byte `i` of a prefix, and how many bytes it takes. */
  function Scan(s: Bytes, i: nat): Result<(nat, nat), FrameError>
    requires i <= 10
    decreases 10 - i
  {
    if i == 10 then Err(InvalidLength)
    else if s == [] then Err(UnexpectedEnd)
    else if i == 9 && s[0] > 1 then Err(InvalidLength)
    else if s[0] < 128 then Ok((s[0], 1))
    else match Scan(s[1..], i + 1)
      case Ok((high, used)) => Ok((s[0] - 128 + 128 * high, used + 1))
      case Err(e) => Err(e)
  }

  lemma RoomSteps(i: nat)
    requires i < 9
    ensures Room(i) == 128 * Room(i + 1) && Room(9) == 2
  {
  }

  /** An accepted length fits 64 bits, and lies in the bytes it claims to take. */
  lemma {:induction false} ScanBound(s: Bytes, i: nat)
    requires i <= 9 && Scan(s, i).Ok?
    ensures Scan(s, i).value.0 < Room(i) && 1 <= Scan(s, i).value.1 <= |s|
    decreases 9 - i
  {
    if i < 9 {
      RoomSteps(i);
      RoomPositive(i);
      if s[0] >= 128 { ScanBound(s[1..], i + 1); }
    } else {
      assert Pow(128, 0) == 1;
    }
  }

  lemma {:induction false} RoomPositive(i: nat)
    requires i < 9
    ensures Room(i) >= 128
    decreases 9 - i
  {
    RoomSteps(i);
    if i < 8 { RoomPositive(i + 1); }
  }

  /** Whatever follows, the length loop recovers a number and takes exactly its bytes. */
  lemma {:induction false} ScanVarint(n: nat, rest: Bytes, i: nat)
    requires i <= 9 && n < Room(i)
    ensures Scan(Varint(n) + rest, i) == Ok((n, |Varint(n)|))
    decreases 9 - i
  {
    var s := Varint(n) + rest;
    if i < 9 {
      RoomSteps(i);
      if n >= 128 {
        ScanVarint(n / 128, rest, i + 1);
        assert s[1..] == Varint(n / 128) + rest;
      }
    } else {
      assert Pow(128, 0) == 1;
    }
  }

  lemma AllLengths()
    ensures Room(0) == U64_END
  {
    RoomSteps(0); RoomSteps(1); RoomSteps(2); RoomSteps(3); RoomSteps(4);
    RoomSteps(5); RoomSteps(6); RoomSteps(7); RoomSteps(8);
  }

  /** Every 64-bit length survives its encoding, whatever follows it. */
  lemma VarintRoundTrip(n: u64, rest: Bytes)
    ensures Scan(Varint(n) + rest, 0) == Ok((n, |Varint(n)|))
  {
    AllLengths();
    ScanVarint(n, rest, 0);
  }

  lemma {:induction false} VarintSize(n: nat, k: nat)
    requires 1 <= k && n < Pow(128, k)
    ensures |Varint(n)| <= k
  {
    if n >= 128 {
      assert Pow(128, k) == 128 * Pow(128, k - 1);
      assert Pow(128, 0) == 1;
      VarintSize(n / 128, k - 1);
    }
  }

  // --------------------------------------------------------------------- frames

  /** A frame's payload and the bytes it takes. */
  function Unframed(s: Bytes): Result<(Bytes, nat), FrameError> {
    match Scan(s, 0)
    case Err(e) => Err(e)
    case Ok((length, used)) =>
      if length > MAX_WIRE_MESSAGE_BYTES then Err(TooLarge)
      else if used + length > |s| then Err(UnexpectedEnd)
      else Ok((s[used..used + length], used + length))
  }

  /** `read_frame` on a stream whose bytes are `s`; the shift grows by seven, `scale` is its power of two. */
  method ReadFrame(s: Bytes) returns (r: Result<(Bytes, nat), FrameError>)
    ensures r == Unframed(s)
  {
    hide Scan, Resumed;
    var length: nat, scale: nat := 0, 1;
    ResumeEnds(s, 0, 0, 1);
    for i := 0 to 10
      invariant i <= |s| && Scan(s, 0) == Resumed(s, i, length, scale)
    {
      ResumeEnds(s, i, length, scale);
      if i == |s| { return Err(UnexpectedEnd); }
      var input: nat := s[i];
      if i == 9 && input > 1 { return Err(InvalidLength); }
      ResumeOneMore(s, i, length, scale);
      length := length + input % 128 * scale;
      if input < 128 {
        if length > MAX_WIRE_MESSAGE_BYTES { return Err(TooLarge); }
        if |s| - (i + 1) < length { return Err(UnexpectedEnd); }
        return Ok((s[i + 1..i + 1 + length], i + 1 + length));
      }
      scale := 128 * scale;
    }
    ResumeEnds(s, 10, length, scale);
    r := Err(InvalidLength);
  }

  /** The scan going on from byte `i`, on top of what has been added up. */
  function Resumed(s: Bytes, i: nat, length: nat, scale: nat): Result<(nat, nat), FrameError>
    requires i <= 10 && i <= |s|
  {
    match Scan(s[i..], i)
    case Ok((high, used)) => Ok((length + scale * high, i + used))
    case Err(e) => Err(e)
  }

  lemma ResumeEnds(s: Bytes, i: nat, length: nat, scale: nat)
    requires i <= 10 && i <= |s|
    ensures i == 0 ==> Resumed(s, i, 0, 1) == Scan(s, 0)
    ensures i == 10 || (i == 9 && i < |s| && s[i] > 1) ==> Resumed(s, i, length, scale) == Err(InvalidLength)
    ensures i < 10 && i == |s| ==> Resumed(s, i, length, scale) == Err(UnexpectedEnd)
  {
    assert s[0..] == s;
  }

  lemma ResumeOneMore(s: Bytes, i: nat, length: nat, scale: nat)
    requires i < 10 && i < |s| && (i == 9 ==> s[i] <= 1)
    ensures s[i] < 128 ==> Resumed(s, i, length, scale) == Ok((length + s[i] % 128 * scale, i + 1))
    ensures s[i] >= 128 ==> Resumed(s, i, length, scale) == Resumed(s, i + 1, length + s[i] % 128 * scale, 128 * scale)
  {
    var tail := s[i..];
    assert tail[0] == s[i] && tail[1..] == s[i + 1..];
    if s[i] >= 128 && Scan(s[i + 1..], i + 1).Ok? {
      ScaleStep(scale, s[i] - 128, Scan(s[i + 1..], i + 1).value.0);
    }
  }

  lemma ScaleStep(scale: nat, low: nat, high: nat)
    ensures scale * (low + 128 * high) == low * scale + 128 * scale * high
  {
  }

  function Framed(payload: Bytes): Bytes {
    Varint(|payload|) + payload
  }

  /** A frame within the limit is read back, with exactly its own bytes taken from the stream. */
  lemma FrameRoundTrip(payload: Bytes, rest: Bytes)
    requires |payload| <= MAX_WIRE_MESSAGE_BYTES
    ensures Unframed(Framed(payload) + rest) == Ok((payload, |Framed(payload)|))
  {
    var s := Framed(payload) + rest;
    assert s == Varint(|payload|) + (payload + rest);
    VarintRoundTrip(|payload|, payload + rest);
    assert s[|Varint(|payload|)|..|Framed(payload)|] == payload;
  }

  // ------------------------------------------------------------------- messages

  /** A field holding a number: key with wire type 0, then the value. */
  function NumberField(tag: nat, n: nat): Bytes
    requires 1 <= tag <= 15
  {
    [8 * tag] + Varint(n)
  }

  /** A field holding bytes, text or a message: key with wire type 2, then length and contents. */
  function BytesField(tag: nat, contents: Bytes): Bytes
    requires 1 <= tag <= 15
  {
    [8 * tag + 2] + Varint(|contents|) + contents
  }

  function RegistrationMessage(w: WireRegistration): Bytes {
    BytesField(1, Ascii(w.namespace)) + BytesField(2, w.record) + NumberField(3, w.ttl)
  }

  function RegistrationFields(page: seq<WireRegistration>): Bytes {
    if page == [] then [] else
    RegistrationFields(page[..|page| - 1]) + BytesField(1, RegistrationMessage(page[|page| - 1]))
  }

  function Code(status: Status): nat {
    match status
    case InvalidNamespace => 100
    case InvalidSignedPeerRecord => 101
    case InvalidTtl => 102
    case InvalidCookie => 103
    case NotAuthorized => 200
    case Unavailable => 400
  }

  function DiscoverBody(page: Result<Page, Status>): Bytes {
    match page
    case Ok(p) => RegistrationFields(p.registrations) + BytesField(2, p.cookie) + NumberField(3, 0)
    case Err(status) => NumberField(3, Code(status))
  }

  function RegisterBody(ttl: Result<nat, Status>): Bytes {
    match ttl
    case Ok(seconds) => NumberField(1, 0) + NumberField(3, seconds)
    case Err(status) => NumberField(1, Code(status))
  }

  /** The encoding of `WireMessage::from(response)`, fields in tag order. */
  function Payload(response: Response): Bytes {
    match response
    case ToRegister(ttl) => NumberField(1, 1) + BytesField(3, RegisterBody(ttl))
    case ToDiscover(page) => NumberField(1, 4) + BytesField(6, DiscoverBody(page))
  }

  /** `write_response` */
  method WriteResponse(response: Response) returns (r: Result<Bytes, FrameError>)
    ensures r == if |Payload(response)| > MAX_WIRE_MESSAGE_BYTES then Err(TooLarge) else Ok(Framed(Payload(response)))
  {
    var payload := Payload(response);
    if |payload| > MAX_WIRE_MESSAGE_BYTES { return Err(TooLarge); }
    var prefix := EncodeVarint(|payload|);
    r := Ok(prefix + payload);
  }

  // ---------------------------------------------------------------- size bounds

  lemma VarintPowers()
    ensures Pow(128, 1) == 128 && Pow(128, 2) == 16_384 && Pow(128, 3) == 2_097_152
  {
    assert Pow(128, 0) == 1;
    assert Pow(128, 1) == 128 * Pow(128, 0);
    assert Pow(128, 2) == 128 * Pow(128, 1);
  }

  lemma NumberFieldSize(tag: nat, n: nat)
    requires 1 <= tag <= 15 && n < 2_097_152
    ensures |NumberField(tag, n)| <= 4
  {
    VarintPowers();
    VarintSize(n, 3);
  }

  lemma BytesFieldSize(tag: nat, contents: Bytes)
    requires 1 <= tag <= 15 && |contents| < 2_097_152
    ensures |BytesField(tag, contents)| <= |contents| + 4
  {
    VarintPowers();
    VarintSize(|contents|, 3);
  }

  /** What a registration kept by the store can take on a page, beside its record. */
  const ENTRY_OVERHEAD := 60

  lemma EntrySize(w: WireRegistration, l: Limits)
    requires ValidLimits(l) && |w.namespace| == NAMESPACE_LENGTH && |w.record| <= l.recordBytes && w.ttl <= l.maxTtl
    ensures |BytesField(1, RegistrationMessage(w))| <= l.recordBytes + ENTRY_OVERHEAD
  {
    hide BytesField, NumberField;
    BytesFieldSize(1, Ascii(w.namespace));
    BytesFieldSize(2, w.record);
    NumberFieldSize(3, w.ttl);
    BytesFieldSize(1, RegistrationMessage(w));
  }

  predicate IsAsciiText(text: string) {
    forall i :: 0 <= i < |text| ==> text[i] as int < 128
  }

  predicate EntryOk(l: Limits, w: WireRegistration) {
    && |w.namespace| == NAMESPACE_LENGTH && IsAsciiText(w.namespace)
    && |w.record| <= l.recordBytes && w.ttl <= l.maxTtl
  }

  /** The pages that a store with these limits can serve. */
  predicate PageOk(l: Limits, page: Page) {
    && |page.registrations| <= l.results && |page.cookie| <= 8 + NAMESPACE_LENGTH
    && forall i :: 0 <= i < |page.registrations| ==> EntryOk(l, page.registrations[i])
  }

  /** The responses it can give. */
  predicate ResponseOk(l: Limits, response: Response) {
    match response
    case ToRegister(ttl) => ttl.Ok? ==> ttl.value <= l.maxTtl
    case ToDiscover(page) => page.Ok? ==> PageOk(l, page.value)
  }

  lemma {:induction false} EntriesSize(l: Limits, page: seq<WireRegistration>)
    requires ValidLimits(l) && forall i :: 0 <= i < |page| ==> EntryOk(l, page[i])
    ensures |RegistrationFields(page)| <= |page| * (l.recordBytes + ENTRY_OVERHEAD)
  {
    hide BytesField, RegistrationMessage;
    if page != [] {
      var n := |page| - 1;
      EntriesSize(l, page[..n]);
      EntrySize(page[n], l);
      OneMoreTime(n, l.recordBytes + ENTRY_OVERHEAD);
    }
  }

  lemma OneMoreTime(n: nat, size: nat)
    ensures (n + 1) * size == n * size + size
  {
  }

  lemma PageSize(l: Limits, page: Page)
    requires ValidLimits(l) && PageOk(l, page)
    ensures |Payload(ToDiscover(Ok(page)))| <= MAX_WIRE_MESSAGE_BYTES
  {
    hide BytesField, NumberField, RegistrationFields, EntryOk;
    EntriesSize(l, page.registrations);
    MulMono(|page.registrations|, l.results, l.recordBytes + ENTRY_OVERHEAD);
    assert l.results * (l.recordBytes + ENTRY_OVERHEAD) == l.results * l.recordBytes + l.results * ENTRY_OVERHEAD;
    BytesFieldSize(2, page.cookie);
    NumberFieldSize(3, 0);
    NumberFieldSize(1, 4);
    BytesFieldSize(6, DiscoverBody(Ok(page)));
  }

  lemma StatusSize(response: Response)
    requires match response case ToRegister(ttl) => ttl.Ok? ==> ttl.value <= 86_400 case ToDiscover(page) => page.Err?
    ensures |Payload(response)| <= MAX_WIRE_MESSAGE_BYTES
  {
    hide BytesField, NumberField;
    match response
    case ToRegister(ttl) =>
      NumberFieldSize(1, 1);
      NumberFieldSize(1, match ttl case Ok(_) => 0 case Err(status) => Code(status));
      NumberFieldSize(3, match ttl case Ok(seconds) => seconds case Err(_) => 0);
      BytesFieldSize(3, RegisterBody(ttl));
    case ToDiscover(page) =>
      NumberFieldSize(1, 4);
      NumberFieldSize(3, Code(page.error));
      BytesFieldSize(6, DiscoverBody(page));
  }

  /** What a page shows comes from registrations the store accepted. */
  lemma ShownIsKept(s: StoreView, id: nat, w: WireRegistration)
    requires Invariant(s) && Shows(s, id, w)
    ensures EntryOk(s.limits, w)
  {
    var k :| k in s.regs && s.regs[k].id == id && w == OnWire(k, s.regs[k]);
    assert RegistrationOk(s, k, s.regs[k]);
    NamespacesAreAscii(k.1);
  }

  lemma NamespacesAreAscii(ns: string)
    requires ValidNamespace(ns)
    ensures |ns| == NAMESPACE_LENGTH && IsAsciiText(ns)
  {
    var n := |NAMESPACE_PREFIX|;
    assert forall i :: 0 <= i < n ==> ns[i] == NAMESPACE_PREFIX[i];
    assert forall i :: 0 <= i < n ==> NAMESPACE_PREFIX[i] as int < 128;
  }

  lemma FoundIsOk(s: StoreView, r: Request, reply: Reply)
    requires Invariant(s) && r.Discover? && Finds(s, r, reply)
    ensures reply.response.Some? && ResponseOk(s.limits, reply.response.value)
  {
    hide Invariant, Shows, CookieBytes, EntryOk, PageIds;
    if Asked(s, r).Ok? {
      var q, page := Asked(s, r).value, reply.response.value.page.value;
      PageIsLeast(s, q);
      forall i | 0 <= i < |page.registrations| ensures EntryOk(s.limits, page.registrations[i]) {
        ShownIsKept(s, Delivers(s, q)[i], page.registrations[i]);
      }
      CookieSize(s.nextCookie, q.namespace);
    }
  }

  lemma LimitsOk(s: StoreView)
    requires Invariant(s)
    ensures ValidLimits(s.limits)
  {
  }

  lemma CookieSize(n: nat, ns: string)
    ensures |CookieBytes(n, ns)| == 8 + |ns|
  {
  }

  /** Every response within these limits fits the wire. */
  lemma ResponseFits(l: Limits, response: Response)
    requires ValidLimits(l) && ResponseOk(l, response)
    ensures |Payload(response)| <= MAX_WIRE_MESSAGE_BYTES
  {
    hide Payload, PageOk;
    match response
    case ToRegister(_) => StatusSize(response);
    case ToDiscover(page) => if page.Ok? { PageSize(l, page.value); } else { StatusSize(response); }
  }

  /** Every reply the store gives in a state that keeps the invariant is within its limits. */
  lemma ReplyIsOk(check: RecordCheck, s: StoreView, peer: PeerId, r: Request, now: int, reply: Reply)
    requires Invariant(s) && Replies(check, s, peer, r, now, reply) && reply.response.Some?
    ensures ValidLimits(s.limits) && ResponseOk(s.limits, reply.response.value)
  {
    hide Invariant, AdmitRates, Finds, Stored, Dropped, PageOk;
    AdmitKeepsInvariant(s, peer, OperationOf(r), now);
    var (t, admitted) := Admit(s, peer, OperationOf(r), now);
    LimitsOk(t);
    if admitted && r.Discover? { FoundIsOk(t, r, reply); }
  }

  /** So every such reply fits the wire limit. */
  lemma ReplyFits(check: RecordCheck, s: StoreView, peer: PeerId, r: Request, now: int, reply: Reply)
    requires Invariant(s) && Replies(check, s, peer, r, now, reply) && reply.response.Some?
    ensures |Payload(reply.response.value)| <= MAX_WIRE_MESSAGE_BYTES
  {
    hide Invariant, Payload, Replies, ResponseOk;
    ReplyIsOk(check, s, peer, r, now, reply);
    ResponseFits(s.limits, reply.response.value);
  }

  /** Which frames are read: payloads within the limit, from a length that fits 64 bits and bytes that are there. */
  lemma UnframedExactly(s: Bytes)
    ensures match Unframed(s)
            case Ok((payload, used)) =>
              && |payload| <= 1_048_576 && |payload| < used <= |s| && payload == s[used - |payload|..used]
              && Scan(s, 0) == Ok((|payload|, used - |payload|))
            case Err(TooLarge) => Scan(s, 0).Ok? && Scan(s, 0).value.0 > 1_048_576
            case Err(UnexpectedEnd) =>
              || Scan(s, 0) == Err(UnexpectedEnd)
              || (Scan(s, 0).Ok? && Scan(s, 0).value.0 <= 1_048_576 && Scan(s, 0).value.0 + Scan(s, 0).value.1 > |s|)
            case Err(InvalidLength) => Scan(s, 0) == Err(InvalidLength)
    ensures Scan(s, 0) != Err(TooLarge)
  {
    hide Scan;
    if Scan(s, 0).Ok? { ScanBound(s, 0); }
    NeverTooLarge(s, 0);
  }

  lemma {:induction false} NeverTooLarge(s: Bytes, i: nat)
    requires i <= 10
    ensures Scan(s, i) != Err(TooLarge)
    decreases 10 - i
  {
    if i < 10 && s != [] { NeverTooLarge(s[1..], i + 1); }
  }
}
