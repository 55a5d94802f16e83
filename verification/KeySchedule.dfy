/**
 What the derived keys bind and how they are kept apart, by reduction: the statement holds,
 or two different inputs of a primitive are named that have one output.
 */
module KeySchedule {
  import opened Basics
  import opened Transcripts
  import opened Crypto
  import Wire

  // -------------------------------------------------------------------- collisions

  datatype KeyInput = KeyInput(salt: Bytes32, material: Bytes, info: Bytes)

  /** Two different inputs of HKDF with one 32-byte output. */
  predicate KeyCollides(p: Primitives, a: KeyInput, b: KeyInput) {
    a != b && p.hkdfKey(a.salt, a.material, a.info) == p.hkdfKey(b.salt, b.material, b.info)
  }

  /** The same with 16-byte outputs. */
  predicate RoomCollides(p: Primitives, a: KeyInput, b: KeyInput) {
    a != b && p.hkdfRoom(a.salt, a.material, a.info) == p.hkdfRoom(b.salt, b.material, b.info)
  }

  predicate HashCollides(p: Primitives, a: Bytes, b: Bytes) {
    a != b && p.sha256(a) == p.sha256(b)
  }

  // ---------------------------------------------------------------------- sessions

  /** Everything a session's keys are derived from. */
  datatype Derivation = Derivation(
    base: Bytes32, context: Context, receiverNonce: Bytes32, senderNonce: Bytes32, claimId: Bytes16)

  function KeysOf(p: Primitives, d: Derivation): Result<SessionKeys, CryptoError> {
    Session(p, d.base, d.context, d.receiverNonce, d.senderNonce, d.claimId)
  }

  /** The string behind the salt: a label and the two nonces. */
  function SaltString(d: Derivation): Bytes {
    Ascii("envshare/session-salt/v1") + d.receiverNonce + d.senderNonce
  }

  function PayloadInput(p: Primitives, d: Derivation): KeyInput
    requires Stated(PayloadKey(d.context, d.claimId)).Ok?
  {
    KeyInput(p.sha256(SaltString(d)), d.base, Stated(PayloadKey(d.context, d.claimId)).value)
  }

  function AckInput(p: Primitives, d: Derivation): KeyInput
    requires Stated(AckKey(d.context, d.claimId)).Ok?
  {
    KeyInput(p.sha256(SaltString(d)), d.base, Stated(AckKey(d.context, d.claimId)).value)
  }

  /** Keys are derived exactly if both info strings can be built, and from these inputs. */
  lemma KeysAre(p: Primitives, d: Derivation)
    ensures KeysOf(p, d).Ok? <==>
            Stated(PayloadKey(d.context, d.claimId)).Ok? && Stated(AckKey(d.context, d.claimId)).Ok?
    ensures KeysOf(p, d).Ok? ==>
              var a, b := PayloadInput(p, d), AckInput(p, d);
              && KeysOf(p, d).value.payloadKey == p.hkdfKey(a.salt, a.material, a.info)
              && KeysOf(p, d).value.acknowledgementKey == p.hkdfKey(b.salt, b.material, b.info)
  {
    hide Stated;
  }

  lemma SaltBindsNonces(a: Derivation, b: Derivation)
    ensures SaltString(a) == SaltString(b) <==> a.receiverNonce == b.receiverNonce && a.senderNonce == b.senderNonce
  {
    var n := |Ascii("envshare/session-salt/v1")|;
    assert SaltString(a)[n..n + 32] == a.receiverNonce && SaltString(b)[n..n + 32] == b.receiverNonce;
    assert SaltString(a)[n + 32..] == a.senderNonce && SaltString(b)[n + 32..] == b.senderNonce;
  }

  /** The key that encrypts and the key that acknowledges are different, within and across sessions. */
  lemma PayloadAndAckKeysDiffer(p: Primitives, a: Derivation, b: Derivation)
    requires KeysOf(p, a).Ok? && KeysOf(p, b).Ok?
    ensures Stated(PayloadKey(a.context, a.claimId)).Ok? && Stated(AckKey(b.context, b.claimId)).Ok?
    ensures || KeysOf(p, a).value.payloadKey != KeysOf(p, b).value.acknowledgementKey
            || KeyCollides(p, PayloadInput(p, a), AckInput(p, b))
  {
    KeysAre(p, a);
    KeysAre(p, b);
    var x, y := PayloadKey(a.context, a.claimId), AckKey(b.context, b.claimId);
    if Stated(x).value == Stated(y).value { StatementsInjective(x, y); }
  }

  /** A session's payload key binds its base key, context, claim and both nonces. */
  lemma PayloadKeyBinds(p: Primitives, a: Derivation, b: Derivation)
    requires KeysOf(p, a).Ok? && KeysOf(p, b).Ok?
    requires KeysOf(p, a).value.payloadKey == KeysOf(p, b).value.payloadKey
    ensures Stated(PayloadKey(a.context, a.claimId)).Ok? && Stated(PayloadKey(b.context, b.claimId)).Ok?
    ensures || a == b
            || KeyCollides(p, PayloadInput(p, a), PayloadInput(p, b))
            || HashCollides(p, SaltString(a), SaltString(b))
  {
    KeysAre(p, a);
    KeysAre(p, b);
    SaltBindsNonces(a, b);
    var x, y := PayloadKey(a.context, a.claimId), PayloadKey(b.context, b.claimId);
    if Stated(x).value == Stated(y).value { StatementsInjective(x, y); }
  }

  /** And so does its acknowledgement key. */
  lemma AckKeyBinds(p: Primitives, a: Derivation, b: Derivation)
    requires KeysOf(p, a).Ok? && KeysOf(p, b).Ok?
    requires KeysOf(p, a).value.acknowledgementKey == KeysOf(p, b).value.acknowledgementKey
    ensures Stated(AckKey(a.context, a.claimId)).Ok? && Stated(AckKey(b.context, b.claimId)).Ok?
    ensures || a == b
            || KeyCollides(p, AckInput(p, a), AckInput(p, b))
            || HashCollides(p, SaltString(a), SaltString(b))
  {
    KeysAre(p, a);
    KeysAre(p, b);
    SaltBindsNonces(a, b);
    var x, y := AckKey(a.context, a.claimId), AckKey(b.context, b.claimId);
    if Stated(x).value == Stated(y).value { StatementsInjective(x, y); }
  }

  // ------------------------------------------------------------------------- roots

  /** The input of one part of a capability's root. */
  function RootInput(p: Primitives, secret: Bytes20, networkId: Bytes, part: RootPart): KeyInput {
    KeyInput(p.sha256(Ascii("envshare/root-salt/v1")), secret, NetworkInfo(Domain(part), networkId))
  }

  lemma RootIs(p: Primitives, secret: Bytes20, networkId: Bytes)
    ensures DeriveRoot(p, secret, networkId).Ok? <==> ValidateNetworkId(networkId).Ok?
    ensures DeriveRoot(p, secret, networkId).Ok? ==>
              var root := DeriveRoot(p, secret, networkId).value;
              var a := RootInput(p, secret, networkId, AuthenticationPart);
              var b := RootInput(p, secret, networkId, SessionPart);
              var r := RootInput(p, secret, networkId, RoomPart);
              && root.roomId == p.hkdfRoom(r.salt, r.material, r.info)
              && root.authenticationKey == p.hkdfKey(a.salt, a.material, a.info)
              && root.sessionBaseKey == p.hkdfKey(b.salt, b.material, b.info)
  {
    hide NetworkInfo, Domain;
  }

  lemma RootInputsDiffer(p: Primitives, s: Bytes20, m: Bytes, a: RootPart, t: Bytes20, n: Bytes, b: RootPart)
    ensures RootInput(p, s, m, a) == RootInput(p, t, n, b) <==> s == t && m == n && a == b
  {
    hide NetworkInfo, Domain;
    if NetworkInfo(Domain(a), m) == NetworkInfo(Domain(b), n) { RootInfosInjective(a, m, b, n); }
  }

  /** The key that authenticates and the key that sessions start from are different, whatever the capabilities. */
  lemma RootKeysDiffer(p: Primitives, s: Bytes20, m: Bytes, t: Bytes20, n: Bytes)
    requires DeriveRoot(p, s, m).Ok? && DeriveRoot(p, t, n).Ok?
    ensures || DeriveRoot(p, s, m).value.authenticationKey != DeriveRoot(p, t, n).value.sessionBaseKey
            || KeyCollides(p, RootInput(p, s, m, AuthenticationPart), RootInput(p, t, n, SessionPart))
  {
    hide DeriveRoot;
    RootIs(p, s, m);
    RootIs(p, t, n);
    RootInputsDiffer(p, s, m, AuthenticationPart, t, n, SessionPart);
  }

  /** Each part of a root binds the secret and the network. */
  lemma RootBinds(p: Primitives, s: Bytes20, m: Bytes, t: Bytes20, n: Bytes)
    requires DeriveRoot(p, s, m).Ok? && DeriveRoot(p, t, n).Ok? && (s, m) != (t, n)
    ensures || DeriveRoot(p, s, m).value.roomId != DeriveRoot(p, t, n).value.roomId
            || RoomCollides(p, RootInput(p, s, m, RoomPart), RootInput(p, t, n, RoomPart))
    ensures || DeriveRoot(p, s, m).value.authenticationKey != DeriveRoot(p, t, n).value.authenticationKey
            || KeyCollides(p, RootInput(p, s, m, AuthenticationPart), RootInput(p, t, n, AuthenticationPart))
    ensures || DeriveRoot(p, s, m).value.sessionBaseKey != DeriveRoot(p, t, n).value.sessionBaseKey
            || KeyCollides(p, RootInput(p, s, m, SessionPart), RootInput(p, t, n, SessionPart))
  {
    hide DeriveRoot;
    RootIs(p, s, m);
    RootIs(p, t, n);
    RootInputsDiffer(p, s, m, RoomPart, t, n, RoomPart);
    RootInputsDiffer(p, s, m, AuthenticationPart, t, n, AuthenticationPart);
    RootInputsDiffer(p, s, m, SessionPart, t, n, SessionPart);
  }

  // ----------------------------------------------------------------------- layouts

  /** A byte string behind its four-byte length. */
  function Counted(b: Bytes): Bytes {
    BigEndian(4, |b|) + b
  }

  function Peers(c: Context): Bytes {
    Counted(c.networkId) + Counted(c.roomId) + Counted(c.senderPeer) + Counted(c.receiverPeer)
  }

  function Times(m: Metadata): Bytes {
    BigEndian(8, m.expiresAt) + BigEndian(2, m.contentType) + BigEndian(4, m.plaintextLength)
  }

  /** The six transcripts, byte by byte in the order of the protocol. */
  function Spelled(s: Statement): Bytes {
    match s
    case OpenProof(c, receiver) =>
      Counted(Ascii("envshare/open/v1")) + [0, 1] + Peers(c) + Counted(receiver)
    case OfferProof(c, receiver, sender, claim, m, aead, digest) =>
      Counted(Ascii("envshare/offer/v1")) + [0, 1] + Peers(c)
      + (Counted(receiver) + Counted(sender) + Counted(claim) + Times(m)) + (Counted(aead) + Counted(digest))
    case AckProof(c, claim, digest) =>
      Counted(Ascii("envshare/ack/v1")) + [0, 1] + Peers(c) + (Counted(claim) + Counted(digest))
    case PayloadAad(c, receiver, sender, claim, m) =>
      Counted(Ascii("envshare/payload-aad/v1")) + [0, 1] + Peers(c)
      + (Counted(receiver) + Counted(sender) + Counted(claim) + Times(m))
    case PayloadKey(c, claim) => Counted(Ascii("envshare/payload-key/v1")) + Peers(c) + Counted(claim)
    case AckKey(c, claim) => Counted(Ascii("envshare/ack-key/v1")) + Peers(c) + Counted(claim)
  }

  lemma EncodeOne(f: Field)
    ensures Encode([f]) == FieldBytes(f)
  {
    assert [f][1..] == [] && Encode([]) == [];
  }

  lemma EncodeTwo(f: Field, g: Field)
    ensures Encode([f, g]) == FieldBytes(f) + FieldBytes(g)
  {
    assert [f, g] == [f] + [g];
    EncodeConcat([f], [g]);
    EncodeOne(f);
    EncodeOne(g);
  }

  lemma EncodeThree(f: Field, g: Field, h: Field)
    ensures Encode([f, g, h]) == FieldBytes(f) + FieldBytes(g) + FieldBytes(h)
  {
    assert [f, g, h] == [f, g] + [h];
    EncodeConcat([f, g], [h]);
    EncodeTwo(f, g);
    EncodeOne(h);
  }

  lemma PeersLayout(c: Context)
    ensures Encode(ContextFields(c)) == Peers(c)
  {
    hide Encode, BigEndian;
    var f := ContextFields(c);
    assert f == [f[0], f[1], f[2]] + [f[3]];
    EncodeConcat([f[0], f[1], f[2]], [f[3]]);
    EncodeThree(f[0], f[1], f[2]);
    EncodeOne(f[3]);
  }

  lemma ClaimLayout(receiver: Bytes32, sender: Bytes32, claim: Bytes16, m: Metadata)
    ensures Encode(ClaimFields(receiver, sender, claim, m))
         == Counted(receiver) + Counted(sender) + Counted(claim) + Times(m)
  {
    hide Encode, BigEndian;
    var ids, times := [Prefixed(receiver), Prefixed(sender), Prefixed(claim)], MetadataFields(m);
    EncodeConcat(ids, times);
    EncodeThree(ids[0], ids[1], ids[2]);
    EncodeThree(times[0], times[1], times[2]);
  }

  lemma HeadLayout(s: Statement)
    ensures Encode([Prefixed(Label(s))]) == Counted(Label(s))
    ensures Encode(if Versioned(s) then VersionField() else []) == if Versioned(s) then [0, 1] else []
  {
    EncodeOne(Prefixed(Label(s)));
    if Versioned(s) {
      EncodeOne(VersionField()[0]);
      VersionBytes();
    }
  }

  lemma VersionBytes()
    ensures BigEndian(2, Wire.PROTOCOL_VERSION) == [0, 1]
  {
    assert Digits(256, 0, 0) == [];
    assert Digits(256, 1, 0) == [0];
    assert Digits(256, 2, 1) == Digits(256, 1, 0) + [1];
  }

  lemma OwnLayout(s: Statement)
    ensures Encode(OwnFields(s)) == match s
                                    case OpenProof(_, rn) => Counted(rn)
                                    case OfferProof(_, rn, sn, id, m, an, d) =>
                                      (Counted(rn) + Counted(sn) + Counted(id) + Times(m)) + (Counted(an) + Counted(d))
                                    case AckProof(_, id, d) => Counted(id) + Counted(d)
                                    case PayloadAad(_, rn, sn, id, m) =>
                                      Counted(rn) + Counted(sn) + Counted(id) + Times(m)
                                    case PayloadKey(_, id) => Counted(id)
                                    case AckKey(_, id) => Counted(id)
  {
    hide Encode, BigEndian, ClaimFields;
    match s
    case OpenProof(_, rn) => EncodeOne(Prefixed(rn));
    case OfferProof(_, rn, sn, id, m, an, d) =>
      EncodeConcat(ClaimFields(rn, sn, id, m), [Prefixed(an), Prefixed(d)]);
      ClaimLayout(rn, sn, id, m);
      EncodeTwo(Prefixed(an), Prefixed(d));
    case AckProof(_, id, d) => EncodeTwo(Prefixed(id), Prefixed(d));
    case PayloadAad(_, rn, sn, id, m) => ClaimLayout(rn, sn, id, m);
    case PayloadKey(_, id) => EncodeOne(Prefixed(id));
    case AckKey(_, id) => EncodeOne(Prefixed(id));
  }

  /** What is authenticated or derived from is these bytes in this order. */
  lemma TranscriptLayout(s: Statement)
    ensures Encode(Fields(s)) == Spelled(s)
  {
    hide Encode, OwnFields, ContextFields, Counted, Peers, Times;
    var head, version := [Prefixed(Label(s))], if Versioned(s) then VersionField() else [];
    EncodeConcat(head + version + ContextFields(s.context), OwnFields(s));
    EncodeConcat(head + version, ContextFields(s.context));
    EncodeConcat(head, version);
    HeadLayout(s);
    PeersLayout(s.context);
    OwnLayout(s);
    assert Counted(Label(s)) + [] == Counted(Label(s));
  }

  /** Exactly which contexts are accepted: a short printable network and two named peers. */
  lemma ContextsExactly(c: Context)
    ensures ValidateContext(c).Ok? <==>
            && 1 <= |c.networkId| <= 64 && (forall b :: b in c.networkId ==> '!' as int <= b <= '~' as int)
            && c.senderPeer != [] && c.receiverPeer != []
    ensures ValidateContext(c) == Err(InvalidPeerIdentity) ==> ValidateNetworkId(c.networkId).Ok?
    ensures ValidateNetworkId(c.networkId).Ok? || ValidateContext(c) == Err(InvalidNetworkId)
  {
    assert forall i :: 0 <= i < |c.networkId| ==> c.networkId[i] in c.networkId;
  }
}
