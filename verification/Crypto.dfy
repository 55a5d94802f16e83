/**
 Endpoint-bound proofs, claim-specific keys and payload protection.

 SHA-256, HMAC (section 2 of RFC 2104), HKDF (section 2 of RFC 5869) and the AEAD are
 parameters; what is modelled byte for byte is the text each of them is applied to.
 */
module Crypto {
  import opened Basics
  import opened Transcripts
  import Wire

  const MAX_NETWORK_ID_BYTES := 64
  const TAG_BYTES := 16

  datatype Primitives = Primitives(
    sha256: Bytes -> Bytes32,
    hmac: (Bytes32, Bytes) -> Bytes32,
    hkdfRoom: (Bytes32, Bytes, Bytes) -> Bytes16, // salt, key material, info; 16 bytes out
    hkdfKey: (Bytes32, Bytes, Bytes) -> Bytes32,  // the same with 32 bytes out
    seal: (Bytes32, Bytes24, Bytes, Bytes) -> Option<Bytes>, // key, nonce, text, associated data
    unseal: (Bytes32, Bytes24, Bytes, Bytes) -> Option<Bytes>)

  /** The AEAD protects every envelope, adds its tag, and opening undoes sealing. */
  ghost predicate AeadLaws(p: Primitives) {
    && (forall k, n, m, a :: |m| <= Wire.MAX_ENVELOPE_BYTES ==> p.seal(k, n, m, a).Some?)
    && (forall k, n, m, a :: p.seal(k, n, m, a).Some? ==> |p.seal(k, n, m, a).value| == |m| + TAG_BYTES)
    && (forall k, n, m, a :: p.seal(k, n, m, a).Some? ==>
          p.unseal(k, n, p.seal(k, n, m, a).value, a) == Some(m))
  }

  datatype Root = Root(roomId: Bytes16, authenticationKey: Bytes32, sessionBaseKey: Bytes32)

  datatype SessionKeys = SessionKeys(payloadKey: Bytes32, acknowledgementKey: Bytes32)

  datatype Context = Context(networkId: Bytes, roomId: Bytes16, senderPeer: Bytes, receiverPeer: Bytes)

  /** The envelope metadata that both the offer proof and the associated data bind. */
  datatype Metadata = Metadata(expiresAt: u64, contentType: byte, plaintextLength: u32)

  /** The six statements that are ever turned into transcript bytes. */
  datatype Statement =
    | OpenProof(context: Context, receiverNonce: Bytes32)
    | OfferProof(context: Context, receiverNonce: Bytes32, senderNonce: Bytes32, claimId: Bytes16,
                 metadata: Metadata, aeadNonce: Bytes24, digest: Bytes32)
    | AckProof(context: Context, claimId: Bytes16, digest: Bytes32)
    | PayloadAad(context: Context, receiverNonce: Bytes32, senderNonce: Bytes32, claimId: Bytes16,
                 metadata: Metadata)
    | PayloadKey(context: Context, claimId: Bytes16)
    | AckKey(context: Context, claimId: Bytes16)

  function Label(s: Statement): Bytes {
    match s
    case OpenProof(_, _) => Ascii("envshare/open/v1")
    case OfferProof(_, _, _, _, _, _, _) => Ascii("envshare/offer/v1")
    case AckProof(_, _, _) => Ascii("envshare/ack/v1")
    case PayloadAad(_, _, _, _, _) => Ascii("envshare/payload-aad/v1")
    case PayloadKey(_, _) => Ascii("envshare/payload-key/v1")
    case AckKey(_, _) => Ascii("envshare/ack-key/v1")
  }

  function ContextFields(c: Context): seq<Field> {
    [Prefixed(c.networkId), Prefixed(c.roomId), Prefixed(c.senderPeer), Prefixed(c.receiverPeer)]
  }

  function VersionField(): seq<Field> {
    [Fixed(BigEndian(2, Wire.PROTOCOL_VERSION))]
  }

  function MetadataFields(m: Metadata): seq<Field> {
    [Fixed(BigEndian(8, m.expiresAt)), Fixed(BigEndian(2, m.contentType)), Fixed(BigEndian(4, m.plaintextLength))]
  }

  /** The nonces, claim and metadata shared by the offer proof and the associated data. */
  function ClaimFields(receiverNonce: Bytes32, senderNonce: Bytes32, claimId: Bytes16, m: Metadata): seq<Field> {
    [Prefixed(receiverNonce), Prefixed(senderNonce), Prefixed(claimId)] + MetadataFields(m)
  }

  /** What follows the label and the peer context. */
  function OwnFields(s: Statement): seq<Field> {
    match s
    case OpenProof(_, rn) => [Prefixed(rn)]
    case OfferProof(_, rn, sn, id, m, an, d) =>
      ClaimFields(rn, sn, id, m) + [Prefixed(an), Prefixed(d)]
    case AckProof(_, id, d) => [Prefixed(id), Prefixed(d)]
    case PayloadAad(_, rn, sn, id, m) => ClaimFields(rn, sn, id, m)
    case PayloadKey(_, id) => [Prefixed(id)]
    case AckKey(_, id) => [Prefixed(id)]
  }

  /** The key-derivation statements carry no version field. */
  predicate Versioned(s: Statement) {
    !s.PayloadKey? && !s.AckKey?
  }

  function Fields(s: Statement): seq<Field> {
    [Prefixed(Label(s))] + (if Versioned(s) then VersionField() else [])
    + ContextFields(s.context) + OwnFields(s)
  }

  // ------------------------------------------------------------ injectivity

  predicate SameForm(a: Statement, b: Statement) {
    && a.OpenProof? == b.OpenProof? && a.OfferProof? == b.OfferProof? && a.AckProof? == b.AckProof?
    && a.PayloadAad? == b.PayloadAad? && a.PayloadKey? == b.PayloadKey? && a.AckKey? == b.AckKey?
  }

  lemma LabelsAreDistinct(a: Statement, b: Statement)
    requires Label(a) == Label(b)
    ensures SameForm(a, b)
  {
    assert Ascii("envshare/payload-aad/v1")[17] == 'a' as int;
    assert Ascii("envshare/payload-key/v1")[17] == 'k' as int;
  }

  lemma SameFormSameShape(a: Statement, b: Statement)
    requires SameForm(a, b)
    ensures SameShape(Fields(a), Fields(b))
  {
    var x := [Prefixed(Label(a))] + (if Versioned(a) then VersionField() else []) + ContextFields(a.context);
    var y := [Prefixed(Label(b))] + (if Versioned(b) then VersionField() else []) + ContextFields(b.context);
    assert SameShape(x, y);
    assert SameShape(OwnFields(a), OwnFields(b));
    forall i | 0 <= i < |Fields(a)| ensures SameKind(Fields(a)[i], Fields(b)[i]) {
      if i < |x| {
        assert SameKind(x[i], y[i]);
      } else {
        assert SameKind(OwnFields(a)[i - |x|], OwnFields(b)[i - |x|]);
      }
    }
  }

  lemma MetadataInjective(m: Metadata, n: Metadata)
    requires MetadataFields(m) == MetadataFields(n)
    ensures m == n
  {
    assert MetadataFields(m)[0] == MetadataFields(n)[0];
    assert MetadataFields(m)[1] == MetadataFields(n)[1];
    assert MetadataFields(m)[2] == MetadataFields(n)[2];
    BytePowers();
    BigEndianInjective(8, m.expiresAt, n.expiresAt);
    BigEndianInjective(2, m.contentType, n.contentType);
    BigEndianInjective(4, m.plaintextLength, n.plaintextLength);
  }

  lemma ClaimFieldsInjective(a: Statement, b: Statement)
    requires (a.OfferProof? && b.OfferProof?) || (a.PayloadAad? && b.PayloadAad?)
    requires ClaimFields(a.receiverNonce, a.senderNonce, a.claimId, a.metadata)
          == ClaimFields(b.receiverNonce, b.senderNonce, b.claimId, b.metadata)
    ensures a.receiverNonce == b.receiverNonce && a.senderNonce == b.senderNonce
    ensures a.claimId == b.claimId && a.metadata == b.metadata
  {
    var x := ClaimFields(a.receiverNonce, a.senderNonce, a.claimId, a.metadata);
    var y := ClaimFields(b.receiverNonce, b.senderNonce, b.claimId, b.metadata);
    assert x[0] == y[0] && x[1] == y[1] && x[2] == y[2];
    assert x[3..] == MetadataFields(a.metadata) && y[3..] == MetadataFields(b.metadata);
    MetadataInjective(a.metadata, b.metadata);
  }

  lemma EqualFieldsEqualStatements(a: Statement, b: Statement)
    requires SameForm(a, b) && Fields(a) == Fields(b)
    ensures a == b
  {
    var v := if Versioned(a) then 1 else 0;
    assert Fields(a)[1 + v..5 + v] == ContextFields(a.context);
    assert Fields(b)[1 + v..5 + v] == ContextFields(b.context);
    assert ContextFields(a.context)[0] == ContextFields(b.context)[0];
    assert ContextFields(a.context)[1] == ContextFields(b.context)[1];
    assert ContextFields(a.context)[2] == ContextFields(b.context)[2];
    assert ContextFields(a.context)[3] == ContextFields(b.context)[3];
    var x, y := Fields(a)[5 + v..], Fields(b)[5 + v..];
    assert x == OwnFields(a) && y == OwnFields(b);
    assert x[0] == y[0];
    if a.OfferProof? || a.PayloadAad? {
      assert x[..6] == ClaimFields(a.receiverNonce, a.senderNonce, a.claimId, a.metadata);
      assert y[..6] == ClaimFields(b.receiverNonce, b.senderNonce, b.claimId, b.metadata);
      ClaimFieldsInjective(a, b);
    }
    if a.OfferProof? {
      assert x[6] == y[6] && x[7] == y[7];
    }
    if a.AckProof? {
      assert x[1] == y[1];
    }
  }

  /**
   Domain separation and unambiguous encoding in one statement: of everything the
   protocol ever authenticates or derives from, two transcripts that could be built
   have equal bytes only if they say the same thing.
   */
  lemma StatementsInjective(a: Statement, b: Statement)
    requires Built(Fields(a)).Ok? && Built(Fields(b)).Ok?
    requires Built(Fields(a)) == Built(Fields(b))
    ensures a == b
  {
    var f, g := Fields(a), Fields(b);
    BoundedIsEncodable(f);
    BoundedIsEncodable(g);
    assert f[0] == Prefixed(Label(a)) && g[0] == Prefixed(Label(b));
    FirstField(f[0], g[0], Encode(f[1..]), Encode(g[1..]));
    LabelsAreDistinct(a, b);
    SameFormSameShape(a, b);
    SameShapeInjective(f, g);
    EqualFieldsEqualStatements(a, b);
  }

  // ------------------------------------------------------------- validation

  predicate IsGraphic(b: byte) {
    0x21 <= b <= 0x7e
  }

  function ValidateNetworkId(id: Bytes): Result<Bytes, CryptoError> {
    if id == [] || |id| > MAX_NETWORK_ID_BYTES || !(forall i :: 0 <= i < |id| ==> IsGraphic(id[i]))
    then Err(InvalidNetworkId) else Ok(id)
  }

  function ValidateContext(c: Context): Result<Bytes, CryptoError> {
    var id :- ValidateNetworkId(c.networkId);
    if c.senderPeer == [] || c.receiverPeer == [] then Err(InvalidPeerIdentity) else Ok(id)
  }

  /** The transcript of a statement, after context validation. */
  function Stated(s: Statement): Result<Bytes, CryptoError> {
    var _ :- ValidateContext(s.context);
    Built(Fields(s))
  }

  /** The specification of the three proofs. */
  function Proof(p: Primitives, key: Bytes32, s: Statement): Result<Bytes32, CryptoError> {
    var transcript :- Stated(s);
    Ok(p.hmac(key, transcript))
  }

  function SessionSalt(p: Primitives, receiverNonce: Bytes32, senderNonce: Bytes32): Bytes32 {
    p.sha256(Ascii("envshare/session-salt/v1") + receiverNonce + senderNonce)
  }

  /** The specification of `derive_session`. */
  function Session(p: Primitives, base: Bytes32, c: Context, receiverNonce: Bytes32, senderNonce: Bytes32,
                   claimId: Bytes16): Result<SessionKeys, CryptoError> {
    var payload :- Stated(PayloadKey(c, claimId));
    var acknowledgement :- Stated(AckKey(c, claimId));
    var salt := SessionSalt(p, receiverNonce, senderNonce);
    Ok(SessionKeys(p.hkdfKey(salt, base, payload), p.hkdfKey(salt, base, acknowledgement)))
  }

  function CiphertextDigest(p: Primitives, nonce: Bytes24, ciphertext: Bytes): Bytes32 {
    p.sha256(nonce + ciphertext)
  }

  /** `network_info`: a bare domain, then the length-prefixed network identifier. */
  function NetworkInfo(domain: Bytes, id: Bytes): Bytes {
    domain + BigEndian(4, |id|) + id
  }

  function DeriveRoot(p: Primitives, secret: Bytes20, networkId: Bytes): Result<Root, CryptoError> {
    var id :- ValidateNetworkId(networkId);
    var salt := p.sha256(Ascii("envshare/root-salt/v1"));
    Ok(Root(p.hkdfRoom(salt, secret, NetworkInfo(Domain(RoomPart), id)),
            p.hkdfKey(salt, secret, NetworkInfo(Domain(AuthenticationPart), id)),
            p.hkdfKey(salt, secret, NetworkInfo(Domain(SessionPart), id))))
  }

  datatype RootPart = RoomPart | AuthenticationPart | SessionPart

  function Domain(part: RootPart): Bytes {
    match part
    case RoomPart => Ascii("envshare/room-id/v1")
    case AuthenticationPart => Ascii("envshare/auth-key/v1")
    case SessionPart => Ascii("envshare/session-base-key/v1")
  }

  /** The domains carry no length, and yet no two derivations from a capability share their input. */
  lemma RootInfosInjective(a: RootPart, x: Bytes, b: RootPart, y: Bytes)
    requires NetworkInfo(Domain(a), x) == NetworkInfo(Domain(b), y)
    ensures a == b && x == y
  {
    var i, j, n := NetworkInfo(Domain(a), x), NetworkInfo(Domain(b), y), |Domain(a)|;
    assert i[9] == Domain(a)[9] && j[9] == Domain(b)[9];
    assert Domain(RoomPart)[9] == 114 && Domain(AuthenticationPart)[9] == 97 && Domain(SessionPart)[9] == 115;
    assert i[n + 4..] == x && j[|Domain(b)| + 4..] == y;
  }

  // ------------------------------------------------------------------ sizes

  function PeerBytes(c: Context): nat {
    |c.networkId| + |c.senderPeer| + |c.receiverPeer|
  }

  function Overhead(s: Statement): nat {
    match s
    case OpenProof(_, _) => 90
    case OfferProof(_, _, _, _, _, _, _) => 225
    case AckProof(_, _, _) => 109
    case PayloadAad(_, _, _, _, _) => 167
    case PayloadKey(_, _) => 79
    case AckKey(_, _) => 75
  }

  function Sizes(fields: seq<Field>): nat {
    if fields == [] then 0
    else |fields[0].bytes| + (if fields[0].Prefixed? then 4 else 0) + Sizes(fields[1..])
  }

  lemma {:induction false} EncodeSize(fields: seq<Field>)
    ensures |Encode(fields)| == Sizes(fields)
  {
    if fields != [] { EncodeSize(fields[1..]); }
  }

  lemma {:induction false} SizesConcat(a: seq<Field>, b: seq<Field>)
    ensures Sizes(a + b) == Sizes(a) + Sizes(b)
  {
    if a == [] {
      assert a + b == b;
    } else {
      assert (a + b)[1..] == a[1..] + b;
      SizesConcat(a[1..], b);
    }
  }

  lemma OneSize(f: Field)
    ensures Sizes([f]) == |f.bytes| + (if f.Prefixed? then 4 else 0)
  {
    assert [f][1..] == [];
  }

  lemma PartSizes(s: Statement)
    ensures Sizes(ContextFields(s.context)) == 32 + PeerBytes(s.context)
    ensures s.OfferProof? || s.PayloadAad? ==> Sizes(MetadataFields(s.metadata)) == 14
  {
    var c := ContextFields(s.context);
    assert c[1..] == [c[1], c[2], c[3]] && c[1..][1..] == [c[2], c[3]] && c[1..][1..][1..] == [c[3]];
    OneSize(c[3]);
    assert Sizes(c[1..][1..]) == |c[2].bytes| + 4 + Sizes([c[3]]);
    assert Sizes(c[1..]) == |c[1].bytes| + 4 + Sizes(c[1..][1..]);
    if s.OfferProof? || s.PayloadAad? {
      var m := MetadataFields(s.metadata);
      assert m[1..] == [m[1], m[2]] && m[1..][1..] == [m[2]];
      OneSize(m[2]);
    }
  }

  lemma OwnSize(s: Statement)
    ensures Sizes(OwnFields(s)) == match s
                                   case OpenProof(_, _) => 36
                                   case OfferProof(_, _, _, _, _, _, _) => 170
                                   case AckProof(_, _, _) => 56
                                   case PayloadAad(_, _, _, _, _) => 106
                                   case PayloadKey(_, _) => 20
                                   case AckKey(_, _) => 20
  {
    PartSizes(s);
    match s
    case OpenProof(_, rn) => OneSize(Prefixed(rn));
    case OfferProof(_, rn, sn, id, m, an, d) =>
      var x, y := [Prefixed(rn), Prefixed(sn), Prefixed(id)], [Prefixed(an), Prefixed(d)];
      SizesConcat(x + MetadataFields(m), y);
      SizesConcat(x, MetadataFields(m));
      assert x[1..] == [x[1], x[2]] && x[1..][1..] == [x[2]] && y[1..] == [y[1]];
      OneSize(x[2]);
      OneSize(y[1]);
    case AckProof(_, id, d) =>
      assert OwnFields(s)[1..] == [Prefixed(d)];
      OneSize(Prefixed(d));
    case PayloadAad(_, rn, sn, id, m) =>
      var x := [Prefixed(rn), Prefixed(sn), Prefixed(id)];
      SizesConcat(x, MetadataFields(m));
      assert x[1..] == [x[1], x[2]] && x[1..][1..] == [x[2]];
      OneSize(x[2]);
    case PayloadKey(_, id) => OneSize(Prefixed(id));
    case AckKey(_, id) => OneSize(Prefixed(id));
  }

  /** The exact length of every transcript. */
  lemma StatementSize(s: Statement)
    ensures |Encode(Fields(s))| == Overhead(s) + PeerBytes(s.context)
  {
    EncodeSize(Fields(s));
    var domain := [Prefixed(Label(s))];
    var version := if Versioned(s) then VersionField() else [];
    SizesConcat(domain + version + ContextFields(s.context), OwnFields(s));
    SizesConcat(domain + version, ContextFields(s.context));
    SizesConcat(domain, version);
    OneSize(domain[0]);
    if Versioned(s) { OneSize(version[0]); }
    PartSizes(s);
    OwnSize(s);
  }

  // ---------------------------------------------------------- the functions

  /** `common_transcript`: label, version and peer context. */
  method CommonTranscript(domain: Bytes, c: Context, ghost plan: seq<Field>)
    returns (r: Result<Transcript, CryptoError>)
    requires [Prefixed(domain)] + VersionField() + ContextFields(c) <= plan
    ensures r.Ok? ==> fresh(r.value) && r.value.Valid() && r.value.plan == plan
                      && r.value.fields == [Prefixed(domain)] + VersionField() + ContextFields(c)
    ensures r.Err? ==> r.error == TranscriptTooLarge && |Encode(plan)| > MAX_TRANSCRIPT_BYTES
  {
    ghost var done := [Prefixed(domain)] + VersionField() + ContextFields(c);
    assert forall i :: 0 <= i < |done| ==> plan[i] == done[i];
    var t :- Transcript.New(domain, plan);
    :- t.AppendInteger(2, Wire.PROTOCOL_VERSION);
    :- t.AppendBytes(c.networkId);
    :- t.AppendBytes(c.roomId);
    :- t.AppendBytes(c.senderPeer);
    :- t.AppendBytes(c.receiverPeer);
    assert t.fields == done;
    return Ok(t);
  }

  method MakeOpenProof(p: Primitives, key: Bytes32, c: Context, receiverNonce: Bytes32)
    returns (r: Result<Bytes32, CryptoError>)
    ensures r == Proof(p, key, OpenProof(c, receiverNonce))
  {
    var _ :- ValidateContext(c);
    ghost var plan := Fields(OpenProof(c, receiverNonce));
    var t :- CommonTranscript(Ascii("envshare/open/v1"), c, plan);
    :- t.AppendBytes(receiverNonce);
    assert t.fields == plan;
    return Ok(p.hmac(key, t.bytes));
  }

  method AppendClaim(t: Transcript, receiverNonce: Bytes32, senderNonce: Bytes32, claimId: Bytes16, m: Metadata)
    returns (r: Outcome<CryptoError>)
    requires t.Valid() && t.fields + ClaimFields(receiverNonce, senderNonce, claimId, m) <= t.plan
    modifies t
    ensures t.Valid()
    ensures r.Pass? ==> t.fields == old(t.fields) + ClaimFields(receiverNonce, senderNonce, claimId, m)
    ensures r.Fail? ==> r.error == TranscriptTooLarge && |Encode(t.plan)| > MAX_TRANSCRIPT_BYTES
  {
    ghost var done := t.fields + ClaimFields(receiverNonce, senderNonce, claimId, m);
    assert forall i :: 0 <= i < |done| ==> t.plan[i] == done[i];
    r := t.AppendBytes(receiverNonce);
    if r.Fail? { return; }
    r := t.AppendBytes(senderNonce);
    if r.Fail? { return; }
    r := t.AppendBytes(claimId);
    if r.Fail? { return; }
    r := t.AppendInteger(8, m.expiresAt);
    if r.Fail? { return; }
    r := t.AppendInteger(2, m.contentType);
    if r.Fail? { return; }
    r := t.AppendInteger(4, m.plaintextLength);
    if r.Fail? { return; }
    assert t.fields == done;
  }

  method MakeOfferProof(p: Primitives, key: Bytes32, c: Context, receiverNonce: Bytes32, senderNonce: Bytes32,
                        claimId: Bytes16, m: Metadata, aeadNonce: Bytes24, digest: Bytes32)
    returns (r: Result<Bytes32, CryptoError>)
    ensures r == Proof(p, key, OfferProof(c, receiverNonce, senderNonce, claimId, m, aeadNonce, digest))
  {
    var _ :- ValidateContext(c);
    ghost var plan := Fields(OfferProof(c, receiverNonce, senderNonce, claimId, m, aeadNonce, digest));
    var t :- CommonTranscript(Ascii("envshare/offer/v1"), c, plan);
    :- AppendClaim(t, receiverNonce, senderNonce, claimId, m);
    :- t.AppendBytes(aeadNonce);
    :- t.AppendBytes(digest);
    assert t.fields == plan;
    return Ok(p.hmac(key, t.bytes));
  }

  method MakeAcknowledgementProof(p: Primitives, key: Bytes32, c: Context, claimId: Bytes16, digest: Bytes32)
    returns (r: Result<Bytes32, CryptoError>)
    ensures r == Proof(p, key, AckProof(c, claimId, digest))
  {
    var _ :- ValidateContext(c);
    ghost var plan := Fields(AckProof(c, claimId, digest));
    var t :- CommonTranscript(Ascii("envshare/ack/v1"), c, plan);
    :- t.AppendBytes(claimId);
    :- t.AppendBytes(digest);
    assert t.fields == plan;
    return Ok(p.hmac(key, t.bytes));
  }

  method PayloadAssociatedData(c: Context, receiverNonce: Bytes32, senderNonce: Bytes32,
                               claimId: Bytes16, m: Metadata)
    returns (r: Result<Bytes, CryptoError>)
    ensures r == Stated(PayloadAad(c, receiverNonce, senderNonce, claimId, m))
  {
    var _ :- ValidateContext(c);
    ghost var plan := Fields(PayloadAad(c, receiverNonce, senderNonce, claimId, m));
    var t :- CommonTranscript(Ascii("envshare/payload-aad/v1"), c, plan);
    :- AppendClaim(t, receiverNonce, senderNonce, claimId, m);
    assert t.fields == plan;
    return Ok(t.bytes);
  }

  /** `session_info`, which binds no version. */
  method SessionInfo(domain: Bytes, c: Context, claimId: Bytes16) returns (r: Result<Bytes, CryptoError>)
    ensures r == Built([Prefixed(domain)] + ContextFields(c) + [Prefixed(claimId)])
  {
    ghost var plan := [Prefixed(domain)] + ContextFields(c) + [Prefixed(claimId)];
    var t :- Transcript.New(domain, plan);
    :- t.AppendBytes(c.networkId);
    :- t.AppendBytes(c.roomId);
    :- t.AppendBytes(c.senderPeer);
    :- t.AppendBytes(c.receiverPeer);
    :- t.AppendBytes(claimId);
    assert t.fields == plan;
    return Ok(t.bytes);
  }

  method DeriveSession(p: Primitives, base: Bytes32, c: Context, receiverNonce: Bytes32, senderNonce: Bytes32,
                       claimId: Bytes16)
    returns (r: Result<SessionKeys, CryptoError>)
    ensures r == Session(p, base, c, receiverNonce, senderNonce, claimId)
  {
    var _ :- ValidateContext(c);
    var salt := SessionSalt(p, receiverNonce, senderNonce);
    assert Fields(PayloadKey(c, claimId))
        == [Prefixed(Ascii("envshare/payload-key/v1"))] + ContextFields(c) + [Prefixed(claimId)];
    assert Fields(AckKey(c, claimId))
        == [Prefixed(Ascii("envshare/ack-key/v1"))] + ContextFields(c) + [Prefixed(claimId)];
    var payload :- SessionInfo(Ascii("envshare/payload-key/v1"), c, claimId);
    var acknowledgement :- SessionInfo(Ascii("envshare/ack-key/v1"), c, claimId);
    return Ok(SessionKeys(p.hkdfKey(salt, base, payload), p.hkdfKey(salt, base, acknowledgement)));
  }
}
