/** From the code a sender shows to the envelope a receiver holds. */
module Capability {
  import opened Basics
  import opened Crypto
  import opened Wire
  import opened Envelopes
  import opened Sender
  import opened Receiver
  import opened Handoff
  import Code = ShareCode
  import Store
  import Listing

  /** What a receiver makes of a text: the secret it spells, and the keys derived from it. */
  function RootFrom(p: Primitives, text: Bytes, networkId: Bytes): Result<Root, CoreError> {
    var secret :- AsTransfer(Code.Parsed(p.sha256, text));
    AsTransfer(DeriveRoot(p, secret, networkId))
  }

  function NamespaceOf(root: Root): string {
    Store.NAMESPACE_PREFIX + Listing.Hex(root.roomId)
  }

  /** One whole exchange, with everything the receiver does based on its own session. */
  predicate Exchanged(p: Primitives, h: Setting, r: ReceiverSession, now: int, e: Entropy)
    requires Admissible(h)
  {
    var open := OpenRequestOf(p, r);
    && open.Ok?
    && var offered := Opened(p, StartOf(h), h.receiverPeer, open.value, now, e);
    && offered.reply.Ok?
    && var verified := VerifyOffer(p, r, offered.reply.value);
    && verified.Ok? && verified.value.envelope == h.envelope
    && var acked := Acknowledged(offered.next, h.receiverPeer, verified.value.acknowledgement);
    && acked.reply.Ok? && acked.next.state.Consumed?
    && Released(verified.value, Completed(acked.reply.value)) == Ok(h.envelope)
  }

  /**
   However the code is spelled when it is typed in (case, dashes, look-alike letters), the
   receiver derives the sender's keys, looks in the namespace the sender registers, which
   the store accepts, and completes the handoff.
   */
  lemma AnySpellingCompletes(p: Primitives, secret: Bytes20, text: Bytes, h: Setting, now: int, e: Entropy)
    requires DeriveRoot(p, secret, h.networkId) == Ok(h.root)
    requires Code.WellFormed(text) && Code.Respelled(text) == Code.Display(p.sha256, secret)
    requires AeadLaws(p) && Admissible(h) && OpenFits(h) && TranscriptsFit(h) && EntropyAvailable(e)
    requires now < h.availableDeadline && now + h.resumeDuration <= h.lastInstant
    ensures RootFrom(p, text, h.networkId).Ok?
    ensures var root := RootFrom(p, text, h.networkId).value;
            && NamespaceOf(root) == NamespaceOf(h.root) && Store.ValidNamespace(NamespaceOf(root))
            && var session := NewSession(root, h.networkId, h.senderPeer, h.receiverPeer, h.receiverNonce);
            && session.Ok? && Exchanged(p, h, session.value, now, e)
  {
    hide Proof, Prepared, VerifyOffer, DeriveRoot, StartOf, Code.WellFormed, Store.ValidNamespace;
    Code.AcceptedExactlyCanonical(p.sha256, text, secret);
    Listing.RoomsHaveNamespaces(h.root.roomId, h.root.roomId);
    OpenFormed(p, h);
    HandoffCompletes(p, h, now, e);
  }

  /** Another namespace is looked in by a receiver with other keys, unless the rooms collide. */
  lemma OtherRoomOtherNamespace(a: Root, b: Root)
    ensures NamespaceOf(a) == NamespaceOf(b) <==> a.roomId == b.roomId
  {
    Listing.RoomsHaveNamespaces(a.roomId, b.roomId);
  }
}
