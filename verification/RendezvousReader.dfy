/** Reading the node's replies back: tagged fields, messages, and what a client makes of them. */
module RendezvousReader {
  import opened Basics
  import opened Store
  import opened StoreInvariant
  import opened StoreRuns
  import opened RendezvousCodec

  // ------------------------------------------------------------------------- fields

  /** A tagged field of a protocol-buffer message, of one of the two wire types used. */
  datatype Field = Number(tag: nat, n: nat) | Contents(tag: nat, bytes: Bytes)

  datatype ReadError = Truncated | BadField | Missing | Unknown

  predicate FieldOk(f: Field) {
    1 <= f.tag <= 15 && match f case Number(_, n) => n < U64_END case Contents(_, b) => |b| < U64_END
  }

  function Wrote(f: Field): Bytes
    requires FieldOk(f)
  {
    match f
    case Number(tag, n) => NumberField(tag, n)
    case Contents(tag, b) => BytesField(tag, b)
  }

  ghost predicate AllOk(fields: seq<Field>) {
    forall i :: 0 <= i < |fields| ==> FieldOk(fields[i])
  }

  ghost function WroteAll(fields: seq<Field>): Bytes
    requires AllOk(fields)
  {
    if fields == [] then [] else Wrote(fields[0]) + WroteAll(fields[1..])
  }

  function AsRead<T>(r: Result<T, FrameError>): Result<T, ReadError> {
    match r case Ok(v) => Ok(v) case Err(_) => Err(Truncated)
  }

  /** The key, the wire type in its low three bits, and the value. */
  function ReadField(b: Bytes): Result<(Field, nat), ReadError> {
    var (key, k) :- AsRead(Scan(b, 0));
    if k > |b| || key < 8 then Err(BadField)
    else if key % 8 == 0 then
      var (n, used) :- AsRead(Scan(b[k..], 0));
      Ok((Number(key / 8, n), k + used))
    else if key % 8 == 2 then
      var (n, used) :- AsRead(Scan(b[k..], 0));
      if k + used + n > |b| then Err(Truncated) else Ok((Contents(key / 8, b[k + used..k + used + n]), k + used + n))
    else Err(BadField)
  }

  function ReadFields(b: Bytes): Result<seq<Field>, ReadError> {
    if b == [] then Ok([]) else
    var (f, used) :- ReadField(b);
    if used == 0 || used > |b| then Err(BadField) else
    var more :- ReadFields(b[used..]);
    Ok([f] + more)
  }

  lemma KeyReads(key: byte, rest: Bytes)
    requires key < 128
    ensures Scan([key] + rest, 0) == Ok((key, 1)) && ([key] + rest)[1..] == rest
  {
  }

  lemma NumberReads(tag: nat, n: nat, rest: Bytes)
    requires 1 <= tag <= 15 && n < U64_END
    ensures ReadField(NumberField(tag, n) + rest) == Ok((Number(tag, n), |NumberField(tag, n)|))
  {
    hide Scan, Varint;
    var b := NumberField(tag, n) + rest;
    assert b == [8 * tag] + (Varint(n) + rest);
    KeyReads(8 * tag, Varint(n) + rest);
    VarintRoundTrip(n, rest);
  }

  lemma ContentsRead(tag: nat, c: Bytes, rest: Bytes)
    requires 1 <= tag <= 15 && |c| < U64_END
    ensures ReadField(BytesField(tag, c) + rest) == Ok((Contents(tag, c), |BytesField(tag, c)|))
  {
    hide Scan, Varint;
    var b, v := BytesField(tag, c) + rest, Varint(|c|);
    assert b == [8 * tag + 2] + (v + (c + rest));
    KeyReads(8 * tag + 2, v + (c + rest));
    VarintRoundTrip(|c|, c + rest);
    assert b[1 + |v|..1 + |v| + |c|] == c;
  }

  /** Fields written one after the other are read back. */
  lemma {:induction false} FieldsRead(fields: seq<Field>)
    requires AllOk(fields)
    ensures ReadFields(WroteAll(fields)) == Ok(fields)
  {
    hide ReadField, NumberField, BytesField;
    if fields != [] {
      var f, rest := fields[0], WroteAll(fields[1..]);
      var b := Wrote(f) + rest;
      FieldsRead(fields[1..]);
      assert FieldOk(f);
      match f {
        case Number(tag, n) => NumberReads(tag, n, rest); NotEmpty(f);
        case Contents(tag, c) => ContentsRead(tag, c, rest); NotEmpty(f);
      }
      assert b[|Wrote(f)|..] == rest;
      assert fields == [f] + fields[1..];
    }
  }

  lemma NotEmpty(f: Field)
    requires FieldOk(f)
    ensures |Wrote(f)| > 0
  {
  }

  lemma {:induction false} WroteJoin(a: seq<Field>, b: seq<Field>)
    requires AllOk(a) && AllOk(b)
    ensures AllOk(a + b) && WroteAll(a + b) == WroteAll(a) + WroteAll(b)
  {
    hide Wrote;
    if a == [] {
      assert a + b == b;
    } else {
      WroteJoin(a[1..], b);
      assert (a + b)[1..] == a[1..] + b && (a + b)[0] == a[0];
    }
  }

  lemma WroteOne(f: Field)
    requires FieldOk(f)
    ensures AllOk([f]) && WroteAll([f]) == Wrote(f)
  {
    assert [f][1..] == [];
  }

  // ----------------------------------------------------------------------- messages

  /** Of an optional field the last occurrence counts. */
  function NumberIn(fields: seq<Field>, tag: nat): Result<nat, ReadError> {
    if fields == [] then Err(Missing) else
    var last := fields[|fields| - 1];
    if last.Number? && last.tag == tag then Ok(last.n) else NumberIn(fields[..|fields| - 1], tag)
  }

  function ContentsIn(fields: seq<Field>, tag: nat): Result<Bytes, ReadError> {
    if fields == [] then Err(Missing) else
    var last := fields[|fields| - 1];
    if last.Contents? && last.tag == tag then Ok(last.bytes) else ContentsIn(fields[..|fields| - 1], tag)
  }

  /** Of a repeated field every occurrence counts, in order. */
  function AllIn(fields: seq<Field>, tag: nat): seq<Bytes> {
    if fields == [] then [] else
    var last := fields[|fields| - 1];
    AllIn(fields[..|fields| - 1], tag) + if last.Contents? && last.tag == tag then [last.bytes] else []
  }

  function TextOf(b: Bytes): string {
    seq(|b|, i requires 0 <= i < |b| => if b[i] < 128 then b[i] as char else '?')
  }

  function StatusOf(code: nat): Result<Status, ReadError> {
    if code == 100 then Ok(InvalidNamespace)
    else if code == 101 then Ok(InvalidSignedPeerRecord)
    else if code == 102 then Ok(InvalidTtl)
    else if code == 103 then Ok(InvalidCookie)
    else if code == 200 then Ok(NotAuthorized)
    else if code == 400 then Ok(Unavailable)
    else Err(Unknown)
  }

  function ReadRegistration(b: Bytes): Result<WireRegistration, ReadError> {
    var fields :- ReadFields(b);
    var namespace :- ContentsIn(fields, 1);
    var record :- ContentsIn(fields, 2);
    var ttl :- NumberIn(fields, 3);
    Ok(WireRegistration(TextOf(namespace), record, ttl))
  }

  function ReadRegistrations(messages: seq<Bytes>): Result<seq<WireRegistration>, ReadError> {
    if messages == [] then Ok([]) else
    var front :- ReadRegistrations(messages[..|messages| - 1]);
    var last :- ReadRegistration(messages[|messages| - 1]);
    Ok(front + [last])
  }

  function ReadDiscover(b: Bytes): Result<Result<Page, Status>, ReadError> {
    var fields :- ReadFields(b);
    var status :- NumberIn(fields, 3);
    if status == 0 then
      var cookie :- ContentsIn(fields, 2);
      var registrations :- ReadRegistrations(AllIn(fields, 1));
      Ok(Ok(Page(registrations, cookie)))
    else
      var refusal :- StatusOf(status);
      Ok(Err(refusal))
  }

  function ReadRegister(b: Bytes): Result<Result<nat, Status>, ReadError> {
    var fields :- ReadFields(b);
    var status :- NumberIn(fields, 1);
    if status == 0 then
      var ttl :- NumberIn(fields, 3);
      Ok(Ok(ttl))
    else
      var refusal :- StatusOf(status);
      Ok(Err(refusal))
  }

  /** What a client reads in a reply. */
  function ReadResponse(b: Bytes): Result<Response, ReadError> {
    var fields :- ReadFields(b);
    var kind :- NumberIn(fields, 1);
    if kind == 1 then
      var body :- ContentsIn(fields, 3);
      var ttl :- ReadRegister(body);
      Ok(ToRegister(ttl))
    else if kind == 4 then
      var body :- ContentsIn(fields, 6);
      var page :- ReadDiscover(body);
      Ok(ToDiscover(page))
    else Err(Unknown)
  }

  // --------------------------------------------------------------------- round trips

  lemma TextRoundTrip(text: string)
    requires IsAsciiText(text)
    ensures TextOf(Ascii(text)) == text
  {
  }

  lemma StatusRoundTrip(status: Status)
    ensures Code(status) != 0 && Code(status) < U64_END && StatusOf(Code(status)) == Ok(status)
  {
  }

  /** The fields of one entry. */
  function EntryFields(w: WireRegistration): seq<Field> {
    [Contents(1, Ascii(w.namespace)), Contents(2, w.record), Number(3, w.ttl)]
  }

  lemma EntryWrites(w: WireRegistration)
    requires |w.namespace| < U64_END && |w.record| < U64_END && w.ttl < U64_END
    ensures AllOk(EntryFields(w)) && WroteAll(EntryFields(w)) == RegistrationMessage(w)
  {
    hide NumberField, BytesField;
    var f := EntryFields(w);
    WroteOne(f[0]);
    WroteOne(f[1]);
    WroteOne(f[2]);
    WroteJoin([f[0]], [f[1]]);
    WroteJoin([f[0], f[1]], [f[2]]);
    assert f == [f[0], f[1]] + [f[2]] && [f[0], f[1]] == [f[0]] + [f[1]];
  }

  lemma EntryReads(w: WireRegistration)
    requires IsAsciiText(w.namespace) && |w.namespace| < U64_END && |w.record| < U64_END && w.ttl < U64_END
    ensures ReadRegistration(RegistrationMessage(w)) == Ok(w)
  {
    hide ReadFields, WroteAll, RegistrationMessage;
    var f := EntryFields(w);
    EntryWrites(w);
    FieldsRead(f);
    assert f[..2] == [f[0], f[1]] && [f[0], f[1]][..1] == [f[0]];
    assert NumberIn(f, 3) == Ok(w.ttl);
    assert ContentsIn(f, 2) == ContentsIn([f[0], f[1]], 2);
    assert ContentsIn(f, 1) == ContentsIn([f[0]], 1);
    TextRoundTrip(w.namespace);
  }

  function PageFields(page: seq<WireRegistration>): seq<Field> {
    seq(|page|, i requires 0 <= i < |page| => Contents(1, RegistrationMessage(page[i])))
  }

  predicate EntryFits(w: WireRegistration) {
    && IsAsciiText(w.namespace) && |w.namespace| < U64_END && |w.record| < U64_END && w.ttl < U64_END
    && |RegistrationMessage(w)| < U64_END
  }

  lemma {:induction false} PageWrites(page: seq<WireRegistration>)
    requires forall i :: 0 <= i < |page| ==> EntryFits(page[i])
    ensures AllOk(PageFields(page)) && WroteAll(PageFields(page)) == RegistrationFields(page)
  {
    hide BytesField, RegistrationMessage;
    if page != [] {
      var n := |page| - 1;
      PageWrites(page[..n]);
      var last := Contents(1, RegistrationMessage(page[n]));
      assert EntryFits(page[n]);
      WroteOne(last);
      WroteJoin(PageFields(page[..n]), [last]);
      assert PageFields(page) == PageFields(page[..n]) + [last];
    }
  }

  lemma {:induction false} PageReads(page: seq<WireRegistration>)
    requires forall i :: 0 <= i < |page| ==> EntryFits(page[i])
    ensures ReadRegistrations(AllIn(PageFields(page), 1)) == Ok(page)
    ensures |AllIn(PageFields(page), 1)| == |page|
  {
    hide RegistrationMessage, ReadRegistration;
    if page != [] {
      var n := |page| - 1;
      PageReads(page[..n]);
      assert EntryFits(page[n]);
      EntryReads(page[n]);
      var f := PageFields(page);
      assert f[..n] == PageFields(page[..n]);
      var messages := AllIn(f, 1);
      assert messages[..n] == AllIn(f[..n], 1) && messages[n] == RegistrationMessage(page[n]);
      assert page == page[..n] + [page[n]];
    }
  }

  /** The fields behind the entries do not disturb them. */
  lemma AllInFront(fields: seq<Field>, a: Field, b: Field)
    requires !(a.Contents? && a.tag == 1) && !(b.Contents? && b.tag == 1)
    ensures AllIn(fields + [a, b], 1) == AllIn(fields, 1)
  {
    var all_ := fields + [a, b];
    assert all_[..|all_| - 1] == fields + [a] && (fields + [a])[..|fields|] == fields;
  }

  lemma DiscoverReads(page: Page)
    requires (forall i :: 0 <= i < |page.registrations| ==> EntryFits(page.registrations[i])) && |page.cookie| < U64_END
    ensures ReadDiscover(DiscoverBody(Ok(page))) == Ok(Ok(page))
  {
    hide ReadFields, WroteAll, RegistrationFields, RegistrationMessage, ReadRegistrations, BytesField, NumberField;
    var entries := PageFields(page.registrations);
    var cookie, status := Contents(2, page.cookie), Number(3, 0);
    PageWrites(page.registrations);
    PageReads(page.registrations);
    WroteOne(cookie);
    WroteOne(status);
    WroteJoin(entries, [cookie]);
    WroteJoin(entries + [cookie], [status]);
    var fields := entries + [cookie, status];
    assert fields == entries + [cookie] + [status];
    FieldsRead(fields);
    assert fields[..|fields| - 1] == entries + [cookie];
    assert NumberIn(fields, 3) == Ok(0);
    assert ContentsIn(fields, 2) == ContentsIn(entries + [cookie], 2);
    AllInFront(entries, cookie, status);
  }

  lemma OneNumber(tag: nat, n: nat)
    requires 1 <= tag <= 15 && n < U64_END
    ensures ReadFields(NumberField(tag, n)) == Ok([Number(tag, n)])
  {
    hide ReadFields;
    WroteOne(Number(tag, n));
    FieldsRead([Number(tag, n)]);
  }

  lemma RefusalReads(status: Status)
    ensures ReadDiscover(DiscoverBody(Err(status))) == Ok(Err(status))
    ensures ReadRegister(RegisterBody(Err(status))) == Ok(Err(status))
  {
    hide ReadFields, NumberField;
    StatusRoundTrip(status);
    OneNumber(3, Code(status));
    OneNumber(1, Code(status));
  }

  lemma TwoFields(a: Field, b: Field)
    requires FieldOk(a) && FieldOk(b)
    ensures ReadFields(Wrote(a) + Wrote(b)) == Ok([a, b])
  {
    hide ReadFields, Wrote;
    WroteOne(a);
    WroteOne(b);
    WroteJoin([a], [b]);
    assert [a] + [b] == [a, b];
    FieldsRead([a, b]);
  }

  lemma RegisterReads(ttl: nat)
    requires ttl < U64_END
    ensures ReadRegister(RegisterBody(Ok(ttl))) == Ok(Ok(ttl))
  {
    hide ReadFields;
    var fields := [Number(1, 0), Number(3, ttl)];
    TwoFields(fields[0], fields[1]);
    assert RegisterBody(Ok(ttl)) == Wrote(fields[0]) + Wrote(fields[1]);
    assert fields[..1] == [fields[0]];
    assert NumberIn(fields, 3) == Ok(ttl);
    assert NumberIn(fields, 1) == NumberIn([fields[0]], 1);
    assert NumberIn([fields[0]], 1) == Ok(0);
  }

  lemma BodyReads(kind: nat, tag: nat, body: Bytes)
    requires kind < U64_END && |body| < U64_END && 2 <= tag <= 15
    ensures var fields := [Number(1, kind), Contents(tag, body)];
            && ReadFields(NumberField(1, kind) + BytesField(tag, body)) == Ok(fields)
            && NumberIn(fields, 1) == Ok(kind) && ContentsIn(fields, tag) == Ok(body)
  {
    hide ReadFields;
    var fields := [Number(1, kind), Contents(tag, body)];
    TwoFields(fields[0], fields[1]);
    assert fields[..1] == [fields[0]];
  }

  lemma EntryFitsOf(l: Limits, w: WireRegistration)
    requires ValidLimits(l) && EntryOk(l, w)
    ensures EntryFits(w)
  {
    hide BytesField, NumberField;
    BytesFieldSize(1, Ascii(w.namespace));
    BytesFieldSize(2, w.record);
    NumberFieldSize(3, w.ttl);
  }

  lemma BodySizes(l: Limits, response: Response)
    requires ValidLimits(l) && ResponseOk(l, response)
    ensures match response
            case ToRegister(ttl) => |RegisterBody(ttl)| < U64_END
            case ToDiscover(page) => |DiscoverBody(page)| < U64_END
  {
    hide RegisterBody, DiscoverBody, ResponseOk;
    ResponseFits(l, response);
  }

  /** Whatever response a store with these limits can give, a client reads that response. */
  lemma ResponseReads(l: Limits, response: Response)
    requires ValidLimits(l) && ResponseOk(l, response)
    ensures ReadResponse(Payload(response)) == Ok(response)
  {
    hide ReadFields, RegisterBody, DiscoverBody, NumberField, BytesField;
    hide ReadDiscover, ReadRegister, EntryOk, EntryFits;
    BodySizes(l, response);
    match response
    case ToRegister(ttl) =>
      BodyReads(1, 3, RegisterBody(ttl));
      if ttl.Ok? { RegisterReads(ttl.value); } else { RefusalReads(ttl.error); }
    case ToDiscover(page) =>
      BodyReads(4, 6, DiscoverBody(page));
      if page.Ok? {
        forall i | 0 <= i < |page.value.registrations| ensures EntryFits(page.value.registrations[i]) {
          EntryFitsOf(l, page.value.registrations[i]);
        }
        DiscoverReads(page.value);
      } else {
        RefusalReads(page.error);
      }
  }

  /**
   Over every run of a node with a valid configuration, every reply is written, and the
   other side reads exactly that reply, entry by entry, and no byte more.
   */
  lemma EveryReplyArrives(check: RecordCheck, l: Limits, run: seq<Event>, peer: PeerId, r: Request, now: int,
                          reply: Reply, rest: Bytes)
    requires ValidLimits(l) && ShortRun(run)
    requires Replies(check, After(check, Initial(l), run), peer, r, now, reply) && reply.response.Some?
    ensures var frame := Framed(Payload(reply.response.value));
            && |Payload(reply.response.value)| <= MAX_WIRE_MESSAGE_BYTES
            && Unframed(frame + rest).Ok? && Unframed(frame + rest).value.1 == |frame|
            && ReadResponse(Unframed(frame + rest).value.0) == Ok(reply.response.value)
  {
    hide Invariant, Payload, Replies, After, ReadResponse, ResponseOk;
    var s := After(check, Initial(l), run);
    ReachableInvariant(check, l, run);
    ReplyIsOk(check, s, peer, r, now, reply);
    ResponseFits(l, reply.response.value);
    FrameRoundTrip(Payload(reply.response.value), rest);
    ResponseReads(l, reply.response.value);
  }
}
