# Envshare in Dafny

Envshare hands one secret from one sender to one receiver. This project models the parts of it
that carry state, arithmetic or protocol reasoning, and proves what they promise for every
input, every run and every reachable state.

| files | part |
|---|---|
| `Sender`, `SenderRuns`, `Receiver`, `Handoff`, `Release`, `Capability` | the single-claim transfer: the sender's lifecycle machine, the receiver's checks, both together, what is released when, and from the typed code on |
| `Transcript`, `Crypto`, `KeySchedule` | the length-prefixed transcripts, proofs, associated data and key derivations, byte for byte |
| `ShareCode`, `ShareCodeForm`, `Utf8`, `Cbor`, `CborHeads`, `Wire`, `Frame`, `Envelope` | the share code, the CBOR messages and envelope, and their frames |
| `Store`, `StoreInvariant`, `StoreRuns`, `Pagination`, `Provenance`, `CookieLife`, `StoreRates`, `Listing`, `Rendezvous` | the node's rendezvous store: specification, invariant, properties of runs, and the store updated in place |
| `Admission`, `AdmissionHeld`, `AdmissionRates`, `RateWindow` | connection admission, and the fixed-window argument it shares with the store |
| `RendezvousCodec`, `RendezvousReader` | the node's varint frames, its replies, their size, and reading them back |
| `Driver`, `DriverRuns`, `DriverAnswers` | the network driver's request and response bookkeeping |
| `Candidates`, `Ranking`, `Addresses` | the bounded candidate set and its dialing order |
| `Dotenv`, `DotenvText`, `DotenvMerge`, `DotenvResults`, `DotenvCases` | the structure-preserving dotenv merge |
| `Basics` | shared value types and positional notation |

Objects that the program updates in place are classes whose methods are proved against
specification functions; what the program promises is then proved about those functions, and
runs are sequences of their steps. HMAC, HKDF, SHA-256 and the AEAD are arbitrary functions;
only `AeadLaws` is assumed of the last one (decryption inverts encryption, and a ciphertext is
sixteen bytes longer than its plaintext). Agreement and key separation are stated as
reductions: the conclusion holds, or there is an explicit collision. Instants are integers counted in nanoseconds,
entropy and clock readings are part of the events, and ids wrap only beyond the runs
considered.

Where the program does less than one might expect, the model follows the program, shows an
input and states the exact condition:

- an acknowledgement is judged without a clock: one that comes after the resume deadline is
  accepted exactly if no tick and no authenticated open has noticed the deadline before
  (`SenderRuns.LateAcknowledgement`);
- a cookie need not last until it is evicted: a removal also drops every cookie that it leaves
  with nothing seen, or that had seen nothing before (`CookieLife.CookieLostEarly`,
  `CookieLife.CookieLivesExactly`);
- the configured rates do not bound a minute. In the store twice the rate is the bound and is
  reached for every rate (`StoreRates.PeerRateBound`, `StoreRates.TwiceIsReached`); in admission
  it is one less than twice the rate, reached too, so that the rate itself is a bound exactly if
  it is at most one (`AdmissionRates.AddressRateBound`, `AdmissionRates.SharpBoundIsReached`,
  `AdmissionRates.RateIsBoundExactly`). In both a minute that starts with a window keeps the rate;
- continuous listing fails for a lifetime of one second and holds from two seconds on
  (`Listing.RenewalInTime`, `Listing.OneSecondLapses`, `Listing.StaysListed`);
- replacing a dotenv variable fails, or rewrites a line that does not count, where the library
  and `declaration_key` find different keys in a line, as at `export<TAB>A=1` with a library that
  reads past the tab (`DotenvCases.TabbedMergeFails`, `DotenvCases.TabbedMergeIsLost`,
  `DotenvResults.MergeFailsExactly`, `DotenvResults.MergedEnvironment`);
- a last line without a newline gets one exactly if variables are added after it
  (`DotenvResults.OtherLinesStay`, `DotenvCases.NewlineIsAddedHere`);
- the namespace is `envshare-v1-` and 32 hex digits as in crates/network/src/discovery.rs:25-33,
  not as in protocol/protocol.md:42-43.

## Model

| member | source | states |
|---|---|---|
| `SenderRuns.SingleClaim` | crates/core/src/sender/actor.rs:97-198 | over every run of opens, acknowledgements and ticks, with any requests and times: any two offers are equal and go to one peer and nonce, entropy is drawn for at most one open, any two accepted acknowledgements are equal and get the same answer, and nothing is offered after one was accepted |
| `SenderRuns.OneOffer` | crates/core/src/sender/actor.rs:97-144 | every offer made anywhere in a run is the offer of the one claim the run ends with, and its open came from that claim's peer with that claim's nonce |
| `SenderRuns.OneCompletion` | crates/core/src/sender/actor.rs:151-184 | every accepted acknowledgement matches that claim in peer, id, digest and proof, follows an offer, and is answered with that claim's id |
| `SenderRuns.OffersAreEarned` | crates/core/src/sender/actor.rs:97-144 | at every position of every run an offer answers an open that proves the capability for its own peer and nonce, the first one before the share expires and a repeated one before the resume deadline, so none later than both durations together |
| `SenderRuns.ClaimWasOffered` | crates/core/src/sender/actor.rs:128-143 | a claim exists at the end of a run only if some open of the run was answered with an offer |
| `SenderRuns.StepKeepsConsistent` | crates/core/src/sender/actor.rs:97-198 | no step shows PreparingOffer; root and envelope are present exactly in Available and Disclosed, a claim exactly in Disclosed, Consumed and DeliveryUnknown; a changed state has a higher rank; a claim once made stays |
| `SenderRuns.LifecycleAdvances` | crates/core/src/sender/actor.rs:326-334 | the same for every reachable state and every pair of moments of a run |
| `SenderRuns.OpenRefusals` | crates/core/src/sender/actor.rs:104-143 | an open gets ShareUnavailable if and only if it takes Disclosed to DeliveryUnknown, never TemporarilyUnavailable, and in every closed state NotFoundOrUnauthorized; one of another version or without proof changes nothing and draws no entropy |
| `SenderRuns.StepBindsClaim` | crates/core/src/sender/actor.rs:97-184 | what one step may answer: an offer only from the claim it leaves behind, a completion only to a match, entropy only when leaving Available |
| `SenderRuns.ResumeRepeats` | crates/core/src/sender/actor.rs:216-232 | once an offer was made in a run, an authenticated open before the resume deadline gets that very offer exactly if its peer and nonce are those of the first, ShareAlreadyClaimed otherwise, and changes nothing |
| `SenderRuns.LateAcknowledgement` | crates/core/src/sender/actor.rs:151-184 | at any position of any run an acknowledgement that matches the claim is accepted, however late, if and only if no earlier tick and no earlier authenticated open came at or past the resume deadline of the disclosed share |
| `SenderRuns.GivesUpExactly` | crates/core/src/sender/actor.rs:115-198 | a step ends in DeliveryUnknown if and only if the share was there already or the step is such a tick or open |
| `SenderRuns.AcknowledgedAfterStep` | crates/core/src/sender/actor.rs:151-198 | for any single step from a disclosed share: a matching acknowledgement after it is accepted if and only if the step did not notice a passed deadline |
| `SenderRuns.ExpiresExactly` | crates/core/src/sender/actor.rs:104-114 | a step ends in Expired if and only if the share was there already, or it is available and the step is a tick or an authenticated open at or past the deadline; root and envelope are then gone, and exactly that open is told ShareExpired |
| `SenderRuns.ExpiredAt` | crates/core/src/sender/actor.rs:187-198 | a run ends expired if and only if such a step is in it |
| `SenderRuns.TickEndsAvailability` | crates/core/src/sender/actor.rs:187-198 | from any tick at or past the deadline on the share is not available, and unless it is disclosed nothing of root and envelope is left, over every run |
| `SenderRuns.OpenAnswers` | crates/core/src/sender/actor.rs:97-144 | for every answer to an open the exact condition under which it is given |
| `SenderRuns.AcknowledgeAnswers` | crates/core/src/sender/actor.rs:151-184 | for every answer to an acknowledgement the exact condition, and that anything but a completion changes nothing |
| `SenderRuns.DrawsExactly` | crates/core/src/sender/actor.rs:234-260 | entropy is drawn only to prepare an offer, up to the first draw that fails |
| `SenderRuns.Serve` | crates/core/src/direct.rs:42-110 | the loop stops at the first arrival that closes the share, cancels, ends the event stream or cannot be answered, and at no earlier one; the last two end in a network error, even if the share was consumed |
| `SenderRuns.ServeOne` | crates/core/src/direct.rs:66-110 | one event is one step of the actor |
| `Sender.SenderActor.New` | crates/core/src/sender/actor.rs:56-85 | the new actor, or Configuration and Transfer errors, as specified by `Created` |
| `Sender.SenderActor.HandleOpen` | crates/core/src/sender/actor.rs:97-144 | new state, reply and number of entropy draws are those of `Opened`, about which the run lemmas speak |
| `Sender.SenderActor.HandleAcknowledgement` | crates/core/src/sender/actor.rs:151-184 | new state and reply are those of `Acknowledged`, which has no clock |
| `Sender.SenderActor.HandleTimer` | crates/core/src/sender/actor.rs:187-198 | new state is `Ticked` |
| `Sender.SenderActor.AuthenticatesOpen` | crates/core/src/sender/actor.rs:200-214 | true exactly if a root is left, the room matches and the proof is the open proof of this context |
| `Sender.SenderActor.PrepareOffer` | crates/core/src/sender/actor.rs:234-315 | offer and claim are those of `Prepared`, every failure included, with the draws made until then |
| `Sender.SenderActor.Close` | crates/core/src/sender/actor.rs:326-329 | the state given, and nothing left of root and envelope |
| `Handoff.HandoffCompletes` | crates/core/src/receiver/session.rs:61-154 | for every capability, identities, nonce and constructible envelope, within the deadlines and with entropy: the receiver verifies exactly the sender's envelope, its acknowledgement consumes the share and its claim check passes, if and only if the offer transcript fits; otherwise the share fails closed |
| `Handoff.HandoffCompletesOverFrames` | crates/core/src/direct.rs:136-205 | the same exchange with all four messages encoded into frames and decoded on the other side |
| `Handoff.HandoffUnderInterference` | crates/core/src/direct.rs:66-205 | in every run in which nothing else authenticates, matches or comes past a deadline: each of the receiver's opens is answered with an offer that verifies to the sender's envelope, and the acknowledgement, whenever it comes, consumes the share and releases the envelope |
| `Release.ReleasedExactlyIfConsumed` | crates/core/src/direct.rs:183-205 | over every run, at every position where the receiver of an offer acknowledges it: the sender's answer releases the envelope if and only if the share is consumed then; if the claim was given up, the receiver is told Unavailable |
| `Release.ReleasedOnlyIfConsumed` | crates/core/src/direct.rs:175-205 | whoever acknowledges with whatever offer in hand, an answer that releases anything comes from a share that is consumed under that claim |
| `Release.ReleasedExactly` | crates/core/src/direct.rs:195-205 | the envelope is released by a completion of this version and claim and by nothing else; every other response has its error |
| `Release.ReceivedExactly` | crates/core/src/direct.rs:136-166 | only an offer that verifies is received, error codes are mapped, and everything else is one transfer error |
| `Release.ErrorClasses` | crates/core/src/direct.rs:215-228 | which error codes the user is told as not found, unavailable or a network problem |
| `Release.CreatedExactly` | crates/core/src/sender/actor.rs:56-85 | a share is created, available and unclaimed, if and only if sender and network are named, with the envelope's metadata |
| `Release.SessionsExactly` | crates/core/src/receiver/session.rs:37-59 | a receiver session is made if and only if network and both peers are named |
| `Release.OpenRequestIs` | crates/core/src/receiver/session.rs:61-80 | the request carries the session's nonce and room and the proof for its own peers |
| `Release.EnvelopesExactly` | crates/protocol/src/envelope.rs:77-97 | which envelopes can be made, which error says why not, and that they hold what they were made of |
| `Capability.AnySpellingCompletes` | crates/crypto/src/kdf.rs:27-56 | whatever spelling of the displayed code is typed in, the receiver derives the sender's keys, looks in the namespace the sender registers, which the store accepts, and the handoff completes |
| `Capability.OtherRoomOtherNamespace` | crates/network/src/discovery.rs:25-33 | two capabilities share a namespace if and only if they share a room |
| `Handoff.OpenFormed` | crates/core/src/receiver/session.rs:61-80 | the receiver can form its request exactly when the open transcript fits, and the sender then authenticates it |
| `Handoff.PreparationSucceeds` | crates/core/src/sender/actor.rs:234-315 | with entropy and a representable deadline an offer is prepared if and only if the offer transcript fits |
| `Handoff.PreparedVerifies` | crates/core/src/receiver/session.rs:82-154 | a prepared offer passes `verify_offer`, gives back the envelope and yields the acknowledgement the sender expects |
| `Handoff.OfferAlwaysFits` | crates/protocol/src/limits.rs:4-20 | an envelope always encodes within its bound, its ciphertext with tag fits the ciphertext bound, and an offer carrying it always encodes into a frame |
| `Handoff.Agreement` | crates/core/src/receiver/session.rs:82-154 | an accepted offer that carries the sender's proof is the sender's offer in every field, for this nonce, these identities and this key, or there is an explicit HMAC or SHA-256 collision on the strings named |
| `Handoff.RunAgreement` | crates/crypto/src/proof.rs:38-58 | the same for every offer a sender ever makes in any run, and with one capability at both ends the receiver decrypts exactly the sender's envelope |
| `Handoff.VerifiedMetadata` | crates/core/src/receiver/session.rs:110-154 | the envelope handed on has the content type, expiry and length of the authenticated offer, and the acknowledgement its claim and digest |
| `Handoff.ClaimsArePrepared` | crates/core/src/sender/actor.rs:128-143 | every claim of every run is one that `prepare_offer` made from this share |
| `Crypto.StatementsInjective` | crates/crypto/src/proof.rs:22-84 | across open, offer and acknowledgement proofs, associated data and the two session keys: equal transcript bytes mean the same kind of statement with equal fields |
| `Crypto.StatementSize` | crates/crypto/src/proof.rs:22-84 | the exact length of each of the six transcripts |
| `Crypto.RootInfosInjective` | crates/crypto/src/kdf.rs:27-56 | the inputs of the three root derivations differ unless both part and network identifier agree, although their domains carry no length |
| `KeySchedule.PayloadAndAckKeysDiffer` | crates/crypto/src/kdf.rs:58-79 | the payload key of any session differs from the acknowledgement key of any session, its own included, or HKDF collides on two inputs named here |
| `KeySchedule.PayloadKeyBinds` | crates/crypto/src/kdf.rs:58-79 | equal payload keys come from equal base key, context, claim and nonces, or from an HKDF or SHA-256 collision named here |
| `KeySchedule.AckKeyBinds` | crates/crypto/src/kdf.rs:58-79 | the same for acknowledgement keys |
| `KeySchedule.RootKeysDiffer` | crates/crypto/src/kdf.rs:27-56 | the authentication key of any capability differs from the session base key of any, or HKDF collides on two inputs named here |
| `KeySchedule.RootBinds` | crates/crypto/src/kdf.rs:27-56 | room, authentication key and session base key each bind secret and network, or there is a collision named here |
| `KeySchedule.TranscriptLayout` | crates/crypto/src/proof.rs:22-84 | the bytes of each of the six transcripts, in order |
| `KeySchedule.ContextsExactly` | crates/crypto/src/kdf.rs:81-98 | which contexts are accepted, and the error otherwise |
| `Crypto.CommonTranscript` | crates/crypto/src/proof.rs:73-84 | label, version and the four context fields in order, or TranscriptTooLarge only when the whole transcript would not fit |
| `Crypto.MakeOpenProof` | crates/crypto/src/proof.rs:22-36 | HMAC of the open transcript, context errors first, size errors exactly when it does not fit |
| `Crypto.MakeOfferProof` | crates/crypto/src/proof.rs:38-58 | HMAC of the offer transcript, likewise |
| `Crypto.MakeAcknowledgementProof` | crates/crypto/src/proof.rs:60-71 | HMAC of the acknowledgement transcript, likewise |
| `Crypto.PayloadAssociatedData` | crates/crypto/src/aead.rs:21-36 | the associated-data transcript, likewise |
| `Crypto.SessionInfo` | crates/crypto/src/kdf.rs:109-121 | the key-derivation transcript, which binds no version |
| `Crypto.DeriveSession` | crates/crypto/src/kdf.rs:58-79 | both session keys from their own transcripts under the salt of both nonces |
| `Transcripts.SameShapeInjective` | crates/crypto/src/transcript.rs:58-76 | two field lists of one shape with equal encodings are equal |
| `Transcripts.FirstField` | crates/crypto/src/transcript.rs:58-66 | a length-prefixed field can be split off an encoding in one way only |
| `Transcripts.Transcript.Append` | crates/crypto/src/transcript.rs:72-88 | succeeds exactly if 8192 bytes are not exceeded, appends the field, and on failure leaves the buffer unchanged |
| `Transcripts.Transcript.AppendBytes` | crates/crypto/src/transcript.rs:58-66 | the same for a four-byte length and the bytes, as one unit |
| `Transcripts.Transcript.AppendInteger` | crates/crypto/src/transcript.rs:30-55 | the same for big-endian integers |
| `ShareCode.EncodeSecret` | crates/code/src/alphabet.rs:26-45 | the u16-accumulator loop yields exactly the 32 base-32 digits of the secret read as a number |
| `ShareCode.DecodeSecret` | crates/code/src/alphabet.rs:47-66 | the u16-accumulator loop yields exactly the 20 bytes of the number the symbols denote |
| `ShareCode.SecretRoundTrip` | crates/code/src/alphabet.rs:26-66 | decoding the symbols of any secret gives the secret |
| `ShareCode.SymbolsRoundTrip` | crates/code/src/alphabet.rs:26-66 | encoding the secret of any 32 symbols gives the symbols |
| `ShareCode.PushKeepsBits` | crates/code/src/alphabet.rs:31-44 | shifting within 16 bits loses no bit that is still to be written |
| `ShareCode.SymbolRoundTrip` | crates/code/src/alphabet.rs:7-24 | every symbol decodes from its letter, which is unchanged by upper-casing and is no dash |
| `ShareCodeForm.DecodesExactly` | crates/code/src/alphabet.rs:11-24 | a letter is read as a symbol if and only if it is its own, in either case, or a look-alike of 0 or 1 |
| `ShareCodeForm.ChecksumIsLeadingBits` | crates/code/src/checksum.rs:10-16 | the two checksum symbols are the ten leading bits of the digest |
| `ShareCodeForm.DisplayLayout` | crates/code/src/lib.rs:115-126 | 47 characters: the prefix, every symbol at its place, a dash in front of every fourth |
| `ShareCode.DisplayParses` | crates/code/src/lib.rs:74-126 | parsing the displayed form of any secret gives the secret |
| `ShareCode.AcceptedExactlyCanonical` | crates/code/src/lib.rs:77-113 | a text is accepted as a secret exactly if it is well formed and its symbols, respelled canonically, are the secret's display |
| `ShareCode.SameSecretSameSpelling` | crates/code/src/lib.rs:77-126 | two accepted texts carry one secret exactly if they respell alike |
| `ShareCode.Symbols` | crates/code/src/lib.rs:61-71 | the letters of the secret's symbols and the checksum's |
| `ShareCode.Format` | crates/code/src/lib.rs:115-126 | prefix and groups of four, as specified by `Display` |
| `ShareCode.Normalize` | crates/code/src/lib.rs:78-92 | dashes dropped and upper-cased, or rejection exactly for non-ASCII bytes or a wrong length |
| `ShareCode.Parse` | crates/code/src/lib.rs:77-113 | accepts and rejects exactly as `Parsed`, checksum included |
| `Cbor.WrittenAllReads` | crates/protocol/src/message.rs:439-475 | items written one after the other read back under a matching schema, with exactly their bytes consumed, whatever follows |
| `Cbor.ReadAllIgnoresSuffix` | crates/protocol/src/message.rs:439-466 | a successful read does not depend on what follows the bytes it consumed |
| `CborHeads.HeadsAreDefinite` | crates/protocol/src/message.rs:439-466 | a head that is read is of its type, definite, and its argument fits 64 bits |
| `CborHeads.HeadIsShortest` | crates/protocol/src/message.rs:241-254 | what is written is the shortest of all heads that are read as it |
| `Wire.DecodedWithinLimits` | crates/protocol/src/message.rs:163-239 | whatever is decoded is within the limit of its kind, and an offer within its own |
| `Wire.RequestRoundTrip` | crates/protocol/src/message.rs:139-176 | every request encodes and decodes back to itself |
| `Wire.ResponseRoundTrip` | crates/protocol/src/message.rs:178-239 | a response encodes if and only if it passes `validate_offer`, and then decodes back to itself |
| `Wire.RequestFits` | crates/protocol/src/message.rs:139-161 | no request body is empty or over its bound |
| `Wire.ResponseFits` | crates/protocol/src/message.rs:178-210 | no valid response body is empty or over the bound of its kind |
| `Wire.RequestBodiesPrefixFree` | crates/protocol/src/message.rs:163-176 | an accepted request body with anything appended is not accepted |
| `Wire.ResponseBodiesPrefixFree` | crates/protocol/src/message.rs:212-239 | the same for response bodies |
| `Wire.EncodeRequestBody` | crates/protocol/src/message.rs:139-161 | the encoder's buffer ends as the specified body or error |
| `Wire.DecodeRequestBody` | crates/protocol/src/message.rs:163-176 | the cursor-driven decoder returns the specified message or error |
| `Wire.EncodeResponseBody` | crates/protocol/src/message.rs:178-210 | the encoder's buffer ends as the specified body or error |
| `Wire.DecodeResponseBody` | crates/protocol/src/message.rs:212-239 | the cursor-driven decoder returns the specified message or error |
| `Frame.RequestFrameRoundTrip` | crates/protocol/src/frame.rs:41-60 | every request goes through a frame unchanged |
| `Frame.ResponseFrameRoundTrip` | crates/protocol/src/frame.rs:62-76 | a response is framed if and only if it passes `validate_offer`, and then comes back unchanged |
| `Frame.AcceptedFrameIsExact` | crates/protocol/src/frame.rs:89-101 | of an accepted frame every proper prefix and extension is refused, with the error that applies |
| `Frame.FramesExactly` | crates/protocol/src/frame.rs:22-101 | a frame is accepted if and only if it is the framing of a body within the limit, and each error has its exact condition |
| `Frame.FramesPrefixFree` | crates/protocol/src/frame.rs:52-101 | no proper prefix or extension of a decodable frame decodes, for requests and responses |
| `Envelopes.EnvelopeFits` | crates/protocol/src/envelope.rs:141-178 | every constructible envelope encodes, without EncodedTooLarge |
| `Envelopes.EnvelopeRoundTrip` | crates/protocol/src/envelope.rs:141-234 | every constructible envelope decodes from its encoding as itself |
| `Envelopes.DecodedIsConstructible` | crates/protocol/src/envelope.rs:181-234 | whatever decodes could have been constructed |
| `Utf8.NamesExactly` | crates/protocol/src/envelope.rs:43-54 | a name is accepted if and only if its characters are not empty, at most 128 bytes, without control characters, slash and backslash |
| `Utf8.Utf8IsText` | crates/protocol/src/envelope.rs:200-215 | whatever bytes count as text are the encoding of some characters |
| `Utf8.ByteLengthIs` | crates/core/src/local/dotenv.rs:39-41 | the size that the dotenv limit is on is that of the encoded text |
| `Envelopes.EncodeEnvelope` | crates/protocol/src/envelope.rs:141-178 | the encoder's buffer ends as the specified encoding |
| `Envelopes.DecodeEnvelope` | crates/protocol/src/envelope.rs:181-234 | the cursor-driven decoder returns the specified envelope or error |
| `StoreRuns.ReachableInvariant` | crates/node/src/rendezvous/store.rs:113-365 | after every run short of counter wrap: total, per-peer and per-namespace caps, unique ids, cookie order listing exactly the cookies once and within the cap, every seen id a live registration of the cookie's namespace, bounded rates |
| `StoreInvariant.HandleKeepsInvariant` | crates/node/src/rendezvous/store.rs:113-135 | every call keeps that invariant |
| `StoreInvariant.DropKeepsInvariant` | crates/node/src/rendezvous/store.rs:137-153 | removing any registrations together with their ids in cookies keeps it, and changes nothing else |
| `StoreInvariant.StoreKeepsInvariant` | crates/node/src/rendezvous/store.rs:155-214 | an accepted registration, new or replacing, keeps it |
| `StoreInvariant.InsertKeepsInvariant` | crates/node/src/rendezvous/store.rs:339-356 | inserting a cookie over live ids keeps it, evicting first when full |
| `StoreInvariant.EvictedOnce` | crates/node/src/rendezvous/store.rs:340-346 | under the invariant the eviction loop removes exactly the oldest cookie, and only when full |
| `StoreInvariant.NewCookieIsFresh` | crates/node/src/rendezvous/store.rs:347-355 | a new cookie value differs from every value ever handed out |
| `StoreInvariant.PageIsLeast` | crates/node/src/rendezvous/store.rs:251-275 | a page is the least unseen live ids in increasing order, as many as asked for, and all of them if it is shorter |
| `StoreInvariant.AdmitKeepsInvariant` | crates/node/src/rendezvous/store.rs:313-337 | admission changes rates only, and within their caps |
| `Pagination.PagesMissNothing` | crates/node/src/rendezvous/store.rs:229-288 | following each page's cookie, with any calls and expiries between: the ids delivered are strictly increasing, a page shorter than requested means everything live in the namespace has been delivered, and what is live and undelivered is newer than everything delivered |
| `Pagination.FollowRun` | crates/node/src/rendezvous/store.rs:339-365 | over any further events, while the cookie exists it has seen exactly the delivered ids still live |
| `Pagination.ServeExtends` | crates/node/src/rendezvous/store.rs:251-276 | serving a client extends its delivery by newer ids and leaves its new cookie in step |
| `CookieLife.CookieLivesExactly` | crates/node/src/rendezvous/store.rs:339-365 | over any stretch of any run a cookie is still there if and only if it survived every event: it was not the oldest when a page was served by a full store, and no removal left it with nothing seen |
| `CookieLife.StepCookies` | crates/node/src/rendezvous/store.rs:339-365 | the same for one event, and a cookie value once gone does not come back |
| `CookieLife.CookieLostEarly` | crates/node/src/rendezvous/store.rs:358-365 | a client discovers in an empty namespace, another peer registers and withdraws anywhere, and the cookie is refused with InvalidCookie although the store holds none |
| `CookieLife.OldestGoesFirst` | crates/node/src/rendezvous/store.rs:339-356 | in every reachable state cookies are listed in the order in which they were handed out, so that eviction takes the oldest |
| `Provenance.ListedExactly` | crates/node/src/rendezvous/store.rs:113-214 | over every run a key is in the store if and only if it was registered and since neither replaced, withdrawn nor swept, and with the record, lifetime and expiry of that registration |
| `Provenance.PageIsGenuine` | crates/node/src/rendezvous/store.rs:251-276 | every entry of every page carries the namespace asked for and the record and lifetime of an accepted registration at an earlier position of the run that nothing has ended since |
| `Provenance.PageIsComplete` | crates/node/src/rendezvous/store.rs:251-276 | a registration still listed whose id is due on a page is on it with exactly its namespace, record and lifetime |
| `Provenance.ShortPageIsAll` | crates/node/src/rendezvous/store.rs:229-288 | a first page with room left carries every registration listed in the namespace |
| `Provenance.ListedIsChecked` | crates/node/src/rendezvous/store.rs:290-311 | whatever is listed in any reachable state has passed the record check and the size bound |
| `Provenance.RegisterAnswers` | crates/node/src/rendezvous/store.rs:155-214 | the answer to every registration in the order of the checks, the record check's own status included, and that a refusal stores nothing |
| `Provenance.DiscoverAnswers` | crates/node/src/rendezvous/store.rs:229-288 | when a discovery is refused and how, and that a page is within the limit asked for and the configured one |
| `Provenance.RateAnswers` | crates/node/src/rendezvous/store.rs:434-448 | what an operation over its rate is told, and that it changes nothing but the windows |
| `StoreRates.PeerRateBound` | crates/node/src/rendezvous/store.rs:313-337 | under a monotone clock at most twice the rate is admitted per peer and class in any sixty-second half-open interval, whatever is evicted |
| `StoreRates.AdmitStepsWindow` | crates/node/src/rendezvous/store.rs:313-337 | what admission does to every peer's window is a fixed-window step |
| `StoreRuns.StepRates` | crates/node/src/rendezvous/store.rs:113-135 | nothing but admission touches the rates |
| `RateWindow.AtMostTwice` | crates/node/src/rendezvous/store.rs:313-337 | any sequence of fixed-window steps admits at most twice the rate in one window's length |
| `RateWindow.LessThanTwice` | crates/node/src/admission.rs:76-97 | where only an admission opens a window, any window's length admits at most one less than twice the rate |
| `RateWindow.RateHoldsFromWindowStart` | crates/node/src/rendezvous/store.rs:313-337 | an interval of one window's length that starts with a window of the key admits at most the rate |
| `StoreRates.TwiceIsReached` | crates/node/src/rendezvous/store.rs:313-337 | for every rate and both classes a run that admits exactly twice the rate in one minute |
| `StoreRates.RateIsBoundExactly` | crates/node/src/rendezvous/store.rs:313-337 | the configured rate bounds every minute of every run if and only if it is zero, so never in a valid configuration |
| `StoreRates.PeerRateFromWindowStart` | crates/node/src/rendezvous/store.rs:313-337 | a minute that starts with one of the peer's windows admits at most the rate |
| `Listing.StaysListed` | crates/network/src/discovery.rs:320-348 | under a monotone clock, with renewals that are admitted, each handled less than delay and slack after the one before, and the next not overdue: a registration of two seconds or more is in the store after every event, whatever else is called or swept |
| `Listing.EventsInTime` | crates/network/src/discovery.rs:320-348 | punctual renewals put every event of the run within the allowance of the renewal before it |
| `Listing.MaintainRegistrations` | crates/network/src/discovery.rs:320-337 | the client's loop: each registration is handled the renewal delay and the lag after the one before, punctually if every lag is within the slack |
| `Listing.RegisterLists` | crates/node/src/rendezvous/store.rs:155-214 | a good registration lists the key with its full lifetime, and a renewal does so even when the store is full |
| `Listing.OthersKeepListing` | crates/node/src/rendezvous/store.rs:137-288 | no other request and no early sweep touches a listing |
| `Listing.RenewalInTime` | crates/network/src/discovery.rs:340-348 | renewal point plus slack is within the lifetime if and only if the lifetime is at least two seconds |
| `Listing.OneSecondLapses` | crates/network/src/discovery.rs:340-348 | a registration of one second is gone when its renewal falls due |
| `Listing.SweptExactly` | crates/node/src/rendezvous/store.rs:137-153 | a sweep removes a registration if and only if it has expired by then |
| `Listing.PageShowsUnexpired` | crates/node/src/relay.rs:366-371 | sweeping at one instant and discovering at another shows only registrations unexpired at the sweep |
| `Listing.FromRoomId` | crates/network/src/discovery.rs:25-33 | the loop yields prefix and lower-case hex of the room |
| `Listing.RoomsHaveNamespaces` | crates/node/src/rendezvous/store.rs:368-374 | every room's namespace is one the store accepts, and different rooms have different ones |
| `Listing.AcceptedNamespacesAreRooms` | crates/node/src/rendezvous/store.rs:368-374 | every namespace the store accepts is that of some room |
| `Rendezvous.RendezvousStore.Handle` | crates/node/src/rendezvous/store.rs:113-135 | keeps the invariant; new state and reply are the specified ones for every request, refusals included |
| `Rendezvous.RendezvousStore.Expire` | crates/node/src/rendezvous/store.rs:137-153 | removes exactly the expired registrations in whatever order, and reports each one's peer |
| `Rendezvous.RendezvousStore.Register` | crates/node/src/rendezvous/store.rs:155-214 | state and reply of `Enrolled`, each refusal in the order of the checks |
| `Rendezvous.RendezvousStore.Unregister` | crates/node/src/rendezvous/store.rs:216-227 | state and reply of `Withdrawn` |
| `Rendezvous.RendezvousStore.Discover` | crates/node/src/rendezvous/store.rs:229-288 | state of `Answered`, and a page that shows exactly the least unseen ids with a new cookie |
| `Rendezvous.RendezvousStore.Select` | crates/node/src/rendezvous/store.rs:251-275 | collecting in any order, sorting and truncating gives the ids of the page specified |
| `Rendezvous.RendezvousStore.Admit` | crates/node/src/rendezvous/store.rs:313-337 | windows and verdict of the specified admission |
| `Rendezvous.RendezvousStore.InsertCookie` | crates/node/src/rendezvous/store.rs:339-356 | state of `CookieInserted`, and the cookie is the counter followed by the namespace |
| `Rendezvous.RendezvousStore.RemoveFromCookies` | crates/node/src/rendezvous/store.rs:358-365 | the id is gone from every cookie, cookies left with nothing seen are gone, also those that had seen nothing before |
| `Rendezvous.ForgetTwice` | crates/node/src/rendezvous/store.rs:358-365 | forgetting ids one after the other is forgetting them together, which makes the order of expiry irrelevant |
| `Admission.ReachableBounded` | crates/node/src/admission.rs:59-104 | in every reachable state pending plus established connections per address are within the limit and the bucket map within its cap |
| `Admission.StepKeepsBounds` | crates/node/src/admission.rs:144-155 | every attempt, establishment and close keeps that, even if connection ids repeat |
| `AdmissionHeld.CountedExactly` | crates/node/src/admission.rs:59-155 | over every run with fresh ids a connection is counted from its admission to its close and not otherwise, once, under the address it came from, as pending until established |
| `AdmissionHeld.AdmittedExactly` | crates/node/src/admission.rs:59-98 | an attempt is admitted if and only if it has an address with connections and attempts left, and there is a bucket, room for one, or one that has run out |
| `AdmissionRates.AddressRateBound` | crates/node/src/admission.rs:76-97 | under a monotone clock any minute admits at most one less than twice the attempts from an address, although buckets are evicted |
| `AdmissionRates.SharpBoundIsReached` | crates/node/src/admission.rs:76-97 | for every number of attempts a run whose fullest minute admits exactly that many |
| `AdmissionRates.RateIsBoundExactly` | crates/node/src/admission.rs:76-97 | the configured attempts bound every minute of every run if and only if they are at most one |
| `AdmissionRates.AddressRateFromBucketStart` | crates/node/src/admission.rs:76-97 | a minute that starts with one of the address's buckets admits at most the attempts |
| `AdmissionRates.StepBucket` | crates/node/src/admission.rs:59-98 | what any event does to any address's bucket is a fixed-window step that opens a bucket only to admit |
| `Admission.Behaviour.Admit` | crates/node/src/admission.rs:59-98 | state and verdict of the specified admission |
| `Admission.Behaviour.Release` | crates/node/src/admission.rs:100-103 | the connection is counted no longer |
| `Admission.Behaviour.OnEstablished` | crates/node/src/admission.rs:146-150 | a pending connection becomes an established one of the same address |
| `Admission.FindIp` | crates/node/src/admission.rs:174-180 | the first IP component, and nothing exactly if there is none |
| `RendezvousReader.EveryReplyArrives` | crates/node/src/rendezvous/codec.rs:110-133 | over every run of a node with a valid configuration every reply is within the wire limit, and the other side, taking exactly its bytes, reads that very reply |
| `RendezvousReader.ResponseReads` | crates/node/src/rendezvous/codec.rs:218-262 | every response a store with these limits can give is read back from its encoding, entry by entry |
| `RendezvousReader.FieldsRead` | crates/node/src/rendezvous/codec.rs:320-390 | tagged fields written one after the other are read back |
| `RendezvousCodec.ReplyFits` | crates/node/src/config.rs:230-249 | under the store invariant every reply encodes within 1 MiB |
| `RendezvousCodec.PageSize` | crates/node/src/rendezvous/codec.rs:218-262 | a page of as many accepted registrations as the configuration allows encodes within 1 MiB |
| `RendezvousCodec.VarintRoundTrip` | crates/node/src/rendezvous/codec.rs:136-185 | the length loop recovers every 64-bit length and consumes exactly its bytes |
| `RendezvousCodec.ScanBound` | crates/node/src/rendezvous/codec.rs:136-169 | an accepted length fits 64 bits and lies within the bytes read |
| `RendezvousCodec.FrameRoundTrip` | crates/node/src/rendezvous/codec.rs:136-169 | a payload within the limit is read back from its frame, with nothing else consumed |
| `RendezvousCodec.UnframedExactly` | crates/node/src/rendezvous/codec.rs:136-169 | what is read from a stream is within the limit and right behind its length, and each error has its condition |
| `RendezvousCodec.EncodeVarint` | crates/node/src/rendezvous/codec.rs:171-185 | the loop yields the base-128 form of the length |
| `RendezvousCodec.ReadFrame` | crates/node/src/rendezvous/codec.rs:136-169 | the shift-and-add loop returns the specified payload or error for every stream |
| `RendezvousCodec.WriteResponse` | crates/node/src/rendezvous/codec.rs:110-133 | the frame of the encoded response, or an error exactly if it exceeds the limit |
| `DriverRuns.EveryRunIsBookkept` | crates/network/src/driver.rs:483-515 | over every run with fresh ids: protocol ids name requests injectively, every open channel is named, no channel is answered twice or while open, and every caller's token is resolved exactly once or still pending, never lost |
| `DriverRuns.OneName` | crates/network/src/driver.rs:743-773 | each open response channel is named by exactly one protocol id |
| `DriverRuns.SentMeansSent` | crates/network/src/driver.rs:644-659 | a caller is told its response was sent only on the transport's report, for a response that the transport had taken for that very request |
| `DriverRuns.ConfirmationOrigin` | crates/network/src/driver.rs:505-508 | every pending confirmation stems from an accepted response to a request that was open |
| `DriverRuns.StaleResponse` | crates/network/src/driver.rs:488-514 | a second response to a request fails at once; it drops the protocol id and leaves the pending confirmation to be resolved as before |
| `DriverRuns.FirstReportDecides` | crates/network/src/driver.rs:644-659 | over every run with fresh ids the caller of an accepted response is told it was sent if and only if the first report on its protocol id says so, that it failed if and only if the first report says that, and nothing before, whatever stale responses come between |
| `DriverAnswers.FirstReturnDecides` | crates/network/src/driver.rs:630-643 | over every run with fresh ids the caller of a request is told exactly what the first return on its id brings, that response or the failure, and nothing without one |
| `DriverAnswers.ResponseReachesItsChannel` | crates/network/src/driver.rs:483-515 | the first response to a queued request that is not reported on goes to the transport on that request's own channel, and its caller is told of a failure at once exactly if it is not taken |
| `DriverAnswers.InboundExactly` | crates/network/src/driver.rs:743-773 | an inbound request is queued under a new id and kept open, or answered TemporarilyUnavailable and forgotten |
| `Driver.NetworkDriver.HandleInbound` | crates/network/src/driver.rs:743-773 | state and actions of an inbound request, including the busy reply when the queue is full |
| `Driver.NetworkDriver.HandleRespond` | crates/network/src/driver.rs:483-515 | state and actions of a response command, for whatever order the search goes in |
| `Driver.NetworkDriver.HandleSettled` | crates/network/src/driver.rs:644-659 | state and actions of a sent or failed response |
| `Driver.NetworkDriver.HandleReply` | crates/network/src/driver.rs:630-643 | state and actions of an outbound response or failure |
| `Driver.NetworkDriver.HandleRequest` | crates/network/src/driver.rs:466-482 | an outgoing request's token is kept under its id, as a step of the run |
| `Candidates.InsertsKeepBounds` | crates/network/src/discovery.rs:186-218 | after any inserts: at most `max_peers` peers, each with one to `max_addresses_per_peer` distinct classified routes, and `seen` exactly the stored pairs |
| `Candidates.InsertEachKeeps` | crates/network/src/discovery.rs:186-218 | merging a record keeps those bounds, disturbs no stored route, and drops an acceptable address only for lack of room |
| `Candidates.InsertedExactly` | crates/network/src/discovery.rs:186-218 | a new peer is turned away whole if the set has its peers; otherwise of the first addresses every acceptable one is stored unless the peer is full, and no other |
| `Candidates.RelayOnlyHoldsRelays` | crates/network/src/discovery.rs:350-433 | a relay-only set holds circuits only |
| `Candidates.ClassifyExactly` | crates/network/src/discovery.rs:350-433 | for each class, by positions in the address, exactly which addresses get it: the first peer after the first circuit or the last peer of a direct route is the expected one, relay-only and LAN consent are respected, QUIC goes before TCP |
| `Candidates.CandidateSet.Insert` | crates/network/src/discovery.rs:186-218 | keeps the invariant, with the state of `Inserted` |
| `Candidates.NewCandidateSet` | crates/network/src/discovery.rs:170-183 | a set for exactly the policies within bounds |
| `Ranking.IntoRanked` | crates/network/src/discovery.rs:222-235 | for every order of draining: strictly ordered, every stored route and no other, none twice |
| `Ranking.OrderIsUnique` | crates/network/src/discovery.rs:228-234 | two such orderings of one set are equal, so the result does not depend on the map's order |
| `Ranking.BestFirst` | crates/network/src/discovery.rs:228-234 | QUIC before TCP before LAN before relay, within a class by peer bytes, then by address text |
| `DotenvResults.MergedEnvironment` | crates/core/src/local/dotenv.rs:120-176 | the merged document, read again, is the existing environment overridden by the received one, or the existing one plus the missing keys, if and only if every existing key prevails: no line left after the rewritten one gives a replaced key another value, and the line that gives a key its value is not rewritten for another |
| `DotenvMerge.AgreeingFinalsPrevail` | crates/core/src/local/dotenv.rs:140-151 | every key prevails if the last line the library reads as each replaced key is the one `declaration_key` finds |
| `DotenvResults.KeepPrevails` | crates/core/src/local/dotenv.rs:156-157 | keep mode always means what is intended |
| `DotenvResults.AgreeingDocumentsMerge` | crates/core/src/local/dotenv.rs:120-176 | if library and `declaration_key` agree on the lines of the two documents, a merge fails if and only if the result is too large, and means what is intended |
| `DotenvResults.MergeFailsExactly` | crates/core/src/local/dotenv.rs:120-176 | for any library a merge fails if and only if a document cannot be read, the result is too large, or a variable to replace is declared in no line that `declaration_key` finds |
| `DotenvCases.UnfoundKeyFails` | crates/core/src/local/dotenv.rs:151-154 | replacing a variable whose only line `declaration_key` reads otherwise fails |
| `DotenvCases.UnfoundKeyIsLost` | crates/core/src/local/dotenv.rs:149-162 | replacing a variable whose last line `declaration_key` reads otherwise rewrites an earlier line, counts it as updated, and leaves the old value in force |
| `DotenvCases.TabbedMergeFails` | crates/core/src/local/dotenv.rs:178-189 | so at `export<TAB>A=1`, for any library that reads it as `A` |
| `DotenvCases.TabbedMergeIsLost` | crates/core/src/local/dotenv.rs:178-189 | so at `A=0` followed by `export<TAB>A=1`: the result holds the received 2 and still reads 1 |
| `DotenvResults.OtherLinesStay` | crates/core/src/local/dotenv.rs:136-170 | a line that is not the final declaration of a replaced key is unchanged if and only if it is not an unterminated last line with variables added after it, and gets just a newline otherwise |
| `DotenvCases.NewlineIsAddedHere` | crates/core/src/local/dotenv.rs:166-170 | so at `A=0` without a newline, with `B` added |
| `DotenvResults.KeepIsPrefix` | crates/core/src/local/dotenv.rs:156-170 | keep mode has the existing text as a prefix |
| `DotenvResults.CountsAddUp` | crates/core/src/local/dotenv.rs:147-163 | added, updated and kept sum to the received variables, and updated plus kept to those both documents define |
| `DotenvResults.MergedLines` | crates/core/src/local/dotenv.rs:136-176 | the lines of the result are those before, rewritten where a key is replaced, the last one ended, and the additions |
| `DotenvText.EscapedReadsBack` | crates/core/src/local/dotenv.rs:201-213 | an escaped value in quotes reads back as itself up to the first unescaped quote, so it holds no raw line break and no unescaped quote or dollar |
| `DotenvText.EscapedInjective` | crates/core/src/local/dotenv.rs:201-213 | different values escape differently |
| `DotenvText.DeclarationsAreFound` | crates/core/src/local/dotenv.rs:178-189 | every declaration of a plain key is found, indented or not, padded or not, exported or not |
| `DotenvText.CommentsDeclareNothing` | crates/core/src/local/dotenv.rs:178-189 | a comment line declares nothing |
| `DotenvText.KeyOneLine` | crates/core/src/local/dotenv.rs:178-189 | the key found in a line never includes its line break |
| `DotenvText.KeyShape` | crates/core/src/local/dotenv.rs:178-189 | a key is not empty, has no equals sign and no space around it |
| `DotenvText.NoEqualsDeclaresNothing` | crates/core/src/local/dotenv.rs:178-189 | a line without an equals sign declares nothing |
| `DotenvText.NewlineIs` | crates/core/src/local/dotenv.rs:127-131 | added lines end with carriage return and newline if and only if the document has one such line end |
| `DotenvText.ConcatSplits` | crates/core/src/local/dotenv.rs:134-141 | joining well-formed lines and splitting again gives the lines |
| `Dotenv.MergeDotenv` | crates/core/src/local/dotenv.rs:120-176 | the loop over the received variables ends in the document, counts and errors of `Merged` |
| `Dotenv.DraftMerge` | crates/core/src/local/dotenv.rs:147-163 | rewritten lines, additions and counts after every variable received |
| `Dotenv.FinalDeclarations` | crates/core/src/local/dotenv.rs:140-145 | for each key the last line that declares it |
| `Dotenv.EscapeValue` | crates/core/src/local/dotenv.rs:201-213 | appends exactly the escaped value |
| `Dotenv.Parse` | crates/core/src/local/dotenv.rs:38-53 | the last-declaration-wins environment, or an error for size, malformed lines and NUL |

## Left out

- The libp2p swarm, transports, relay server, mDNS, DNS lookup and scheduling: they choose the next event.
- The internals of the cryptographic primitives, constant-time comparison, wiping of memory and the random source.
- CBOR decoding by the library is modelled from sections 3.1 and 4.1 of RFC 8949; that decoders accept only canonical bytes is not claimed.
- Protocol-buffer encoding of replies follows its wire format; decoding of requests (crates/node/src/rendezvous/codec.rs:187-216) is not modelled.
- The checks of signed peer records after the length check (crates/node/src/rendezvous/store.rs:290-311) and the predicates on IP ranges are parameters, as are the byte and text forms that routes are ranked by, which are taken to be injective.
- The grammar of a dotenv line is a parameter, of which nothing is assumed but what a result says. Values that span lines and substitution are not modelled.
- DotenvResults.MergedEnvironment: that the library reads each normalized declaration back as the variable it was written for, that the keys received hold no line break, and that it reads the last line of the existing document with a newline as without, are conditions, because the library's treatment of each escape is not part of this model.
- Dotenv.MergeDotenv: the order in which received variables are visited is a parameter, so the results hold for every order and the sorted one is not singled out.
- Dotenv documents are sequences of characters; bytes that are not UTF-8, which the merge refuses, are not modelled.
- Selection of dotenv variables (`select_dotenv`), which repeats the same escaping.
- Bitwise or of disjoint bits is written as addition, and shifts as multiplication and division by powers of two, with 16-bit truncation explicit.
- Behaviour after a 64-bit registration, cookie or request id wraps.
- Shutdown of the driver, which drops everything pending.
- The command line, prompts, configuration files, logging, telemetry, the operations server, private file output and child processes.
