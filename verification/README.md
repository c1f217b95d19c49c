# GuyOS wire v1, verified

A Dafny model of the GuyOS wire v1 stack in `guyos_core`: F1 framing and the session read loop,
the JSON message codec, attach negotiation with reference tickets, the hub's publish protocol over
one shared ledger, the error frames it sends, and the incremental parser and relay of streamed
language-model replies. `dafny verify dfyconfig.toml` checks the whole project.

## How the layers fit

| layer | modules |
|---|---|
| bytes and text | `Prelude`, `Utf8`, `CanonicalSeq`, `UuidText`, `Base64Url` |
| framing and sessions | `F1Framing`, `WireSession` |
| JSON | `Json` (values, minified printing), `JsonReader` (an independent reader) |
| messages | `WireMessages` (codec), `CodecTheorems` (what it guarantees) |
| attach and tickets | `ReferenceTicket`, `WireAttach` |
| hub | `PublishLedger`, `HubDispatch`, `HubRuns`, `HubIsolation`, `HubSafety`, `HubAnswers` |
| sizes and error frames | `BodySizes`, `OutboundSizes`, `SessionErrors`, `ReplySizes` |
| streamed replies | `Sse`, `StreamingReply` |
| composition | `EndToEnd` |

The code that changes things in place is modelled in place: the frame decoder, the session ends and
their channels, the publish ledger and the event stream are classes whose methods are proved equal
to a function on values, and the guarantees are then proved of those functions; likewise the
encoders that fill a map key by key and the parsers that loop over characters. The two hub
dispatch functions are methods over the ledger object, and the same step on values (`Handle`) is
what runs are made of.

The results to read first:

- `WireSession.ReadsExact` and `ScheduleRefinesParser`: one read is a two-way match with a grammar
  of the wire that does not mention the decoder, and any interleaving of sends, reads and a hang-up
  gives what the pure parser gives on the concatenated bytes.
- `HubRuns.LedgerIsFirstOccurrences`, `AnswersRefineList` and `AckIsIndex`: over any run of any
  connections, a room is a list of first occurrences, and every answer is the list's.
- `HubIsolation.RoomsDoNotInterfere` and `RejectedInvisible`; `HubSafety.RoomsAreTicketed`.
- `CodecTheorems.DecodeTextExact` and `EncodeTextExact`: decoding accepts exactly the texts whose
  document states a message, encoding exactly the messages within the limits, each with its errors.
- `OutboundSizes.FrameLimitExact`: `max_frame_bytes` suffices for everything sent about publishes
  if and only if it is at least 6 * `max_message_bytes` + 121.
- `ReferenceTicket.AcceptanceExact`, `Sse.ChunkingIrrelevant`, `StreamingReply.ChatExact`.
- `EndToEnd.ClientsReachTheHub`, `EndClassified`, `ObserverSeesFirstPublishes` and
  `PublisherReadsItsAck`: all layers at once, whatever the other peers send and wherever a connection is cut off.

## Conventions

- A Rust `String` is a Dafny `string` of Unicode scalar values; its `len()` is the length of its
  UTF-8 encoding. Bytes are integers 0 to 255. `usize` has 64 bits.
- Library calls are the fields of the record `Runtime`: JSON parsing, `Uuid::parse_str`, RFC 3339
  formatting and parsing, and `{:?}` rendering. What is assumed of them is a hypothesis of the lemma that
  needs it: `Inverts` (the UUID and timestamp parsers read back what the formatters write) and
  `ReadsBack` (the JSON parser reads back one printed document). `JsonReader.ReadInvertsPrint`,
  `EndToEnd.ReaderReadsBack` and `EndToEnd.RuntimeExists` show that both can be met together, for all
  messages whose error details hold no floating-point number. `serde_json` refuses documents nested
  deeper than 128, so of the real parser `ReadsBack` is false for error details nested that deep;
  all other messages are one or two levels deep.
- HMAC-SHA256 is an arbitrary function of key and message to 32 octets. Ticket verification at the
  hub is an arbitrary function; `HubSafety.RoomsAreTicketed` plugs in the reference tickets.
- The panic of `checked_add` on a full room counter is the outcome `CounterOverflow`: it leaves the
  room as it was and the run may go on. `HubRuns.OverflowNeedsFullCounter` says it takes 2^64 - 1
  acceptances.
- A read that would wait for its peer returns `Waiting`; a poll that is not ready returns `Pending`.

## Where the code and its documents differ

- ADR 0003 (docs/adr/0003-wire-protocol-and-compatibility.md:291) and the comment at
  guyos_core/src/domain/guyos_wire_v1.rs:89 give a `type` that is not a string the code
  `unknown_message_type`. The code answers `malformed_json` (guyos_core/src/domain/guyos_wire_v1.rs:145),
  and so does the model (`CodecTheorems.DecodeErrorExact`).
- The comment at guyos_core/src/llm.rs:353 says that a CR LF delimiter is preferred. The code
  returns the least position of either delimiter (`Sse.FindEventDelimiter`).

## What does not hold

- The ack to an accepted attach need not be sendable. The policy may carry a keepalive interval above
  2^31 - 1, which no ack can state, and the verifier may answer with any room text. The ack encodes
  under its own limits if and only if the interval is absent or at most 2^31 - 1 and the frame limit
  is at least 117 bytes, the digits of the ack's integers, its escaped room, and 30 bytes more for an
  interval (`OutboundSizes.AttachAckEncodesExact`; `UnsendableAckExists` is an instance). For rooms
  named by a UUID 233 bytes always suffice (`UuidRoomAckBytes`).
- Error replies echo the client's own text, so the reply to an in-limit body may exceed the frame
  limit. It fits if and only if the limit is at least 91 bytes plus the escaped `{:?}` rendering of an
  unknown `type`, 124 plus that of an identifier that is no canonical UUID, 101 for a missing
  `type`, 105 for an attach of the wrong shape, and 140 for any other body that does not decode
  (`ReplySizes.UndecodableReplyFitsExact`). Above 23 and 41 bytes every frame limit has an in-limit body
  of the first and of the second kind whose reply does not fit (`UnknownTypeReplyMayNotFit`,
  `IdentifierReplyMayNotFit`). `ReplySizes.ReplyFitsExact` gives the condition for every reply to
  every body. The replies to framing failures are at most 143 bytes and fit every
  limit of at least that.
- An awaited reply need not finish. A poll that takes in a chunk which completes no event answers
  `Pending` with no wake to follow (guyos_core/src/llm.rs:294-299). Polled again only after a wake, the
  reply loop finishes if and only if every chunk that arrives before a fault, and before the events
  received hold a `Done` or an error, completes at least one event as it arrives
  (`StreamingReply.AwaitedReply`; `Sse.FinishesExact` for any consumer). If it finishes it has sent
  the whole reply, otherwise a prefix. One event cut once in front of its delimiter is never
  delivered (`Sse.CutBeforeDelimiter`).

## Model

| member | source | states |
|---|---|---|
| F1Framing.EncodeApplicationFrame | guyos_core/src/ports/outbound/f1_framing.rs:15-33 | A body within the limit becomes one length-prefixed unit; a longer one is refused with its length, or with u32::MAX when the length has no u32 |
| F1Framing.F1FrameDecoder.constructor | guyos_core/src/ports/outbound/f1_framing.rs:42-47 | A new decoder keeps its limit and has no buffered bytes |
| F1Framing.F1FrameDecoder.Feed | guyos_core/src/ports/outbound/f1_framing.rs:49-51 | Feeding appends the chunk to the unread bytes |
| F1Framing.F1FrameDecoder.PopCompleteFrame | guyos_core/src/ports/outbound/f1_framing.rs:57-77 | The decoder in place is the parser step on its buffer, result and remaining bytes: a frame that is not UTF-8 is consumed, an oversized or incomplete one stays |
| F1Framing.F1FrameDecoder.HasBufferedData | guyos_core/src/ports/outbound/f1_framing.rs:80-82 | True exactly when unread bytes remain |
| F1Framing.PopFrameExact | guyos_core/src/ports/outbound/f1_framing.rs:57-77 | A frame is returned exactly when the buffer starts with the unit of that frame's UTF-8 within the limit, and exactly that unit is removed |
| Prelude.BigEndian4 | guyos_core/src/ports/outbound/f1_framing.rs:30 | A frame length is written most significant byte first |
| Prelude.BigEndian8 | guyos_core/src/domain/reference_ticket_v1.rs:55 | An expiry is written most significant byte first |
| Utf8.DecodeExact | guyos_core/src/ports/outbound/f1_framing.rs:76 | The UTF-8 check accepts exactly the encodings of strings, and no bytes encode two strings |
| WireSession.PairedWithMaxFrameBytes | guyos_core/src/ports/outbound/fake_guyos_wire_v1_session.rs:27-44 | Two open ends, each reading the channel the other writes, with separate decoders and the same limit |
| WireSession.Session.ReadApplicationFrame | guyos_core/src/ports/outbound/fake_guyos_wire_v1_session.rs:46-64 | A completed read is a reading, in the wire grammar, of everything unread, buffered and in flight; it waits only on a drained open channel and then loses nothing |
| WireSession.Session.WriteApplicationFrame | guyos_core/src/ports/outbound/fake_guyos_wire_v1_session.rs:66-76 | A write succeeds exactly for an in-limit body on a live channel and then appends exactly one unit; a failed write sends nothing, and its error says which condition failed |
| WireSession.ReadsExact | guyos_core/src/ports/outbound/f1_framing.rs:57-77 | A finished stream reads as: a frame, clean end exactly on no bytes, InvalidUtf8 exactly on a unit that is no UTF-8 (consumed), FrameTooLarge exactly on a prefix over the limit (kept), UnexpectedEof exactly on a proper prefix of a unit; the grammar and the parser agree both ways |
| WireSession.ReadLoopReads | guyos_core/src/ports/outbound/fake_guyos_wire_v1_session.rs:46-64 | The chunked read loop returns what one read of the concatenation returns, and reports no end while the sender is alive |
| WireSession.ScheduleRefinesParser | guyos_core/src/ports/outbound/fake_guyos_wire_v1_session.rs:46-64 | Decoder refinement: for every interleaving of sends of any chunks, reads and a hang-up, the completed reads are the pure parser's results on the bytes sent, and the unread bytes are what that parser leaves |
| WireSession.ChunkingIrrelevant | guyos_core/src/ports/outbound/f1_framing.rs:49-77 | The same bytes cut and interleaved in two ways give the same results and the same remainder |
| WireSession.StuckForGood | guyos_core/src/ports/outbound/f1_framing.rs:63-69 | FrameTooLarge, a clean close and UnexpectedEof are sticky over every later read; only frames and InvalidUtf8 consume bytes |
| WireSession.ReadAfterHangUpCompletes | guyos_core/src/ports/outbound/fake_guyos_wire_v1_session.rs:54-61 | A read after the sender is gone always completes |
| CanonicalSeq.ParseSeqWire | guyos_core/src/domain/guyos_wire_v1.rs:489-510 | The checks in order, with both scans as loops, accept a string as n exactly when it is the printed n |
| CanonicalSeq.ParseSeqExact | guyos_core/src/domain/guyos_wire_v1.rs:468-510 | N2: for every string and every u64, parsing gives n if and only if the string is the decimal of n, so no sign, space, leading zero, empty or overflowing text passes |
| CanonicalSeq.DecimalInjective | guyos_core/src/domain/guyos_wire_v1.rs:468-470 | Distinct sequence numbers print differently |
| UuidText.ToTextInjective | guyos_core/src/domain/guyos_wire_v1.rs:464-466 | Distinct identifiers have distinct canonical texts |
| UuidText.TextStatesOctets | guyos_core/src/domain/guyos_wire_v1.rs:464-466 | Each octet of an identifier is stated by two lowercase hexadecimal digits at its place in the text, the high one first, and the other places are hyphens |
| WireMessages.KindOfTypeExact | guyos_core/src/domain/guyos_wire_v1.rs:152-164 | Dispatch on `type` inverts the eight type names the encoder writes |
| CodecTheorems.CanonicalUuidExact | guyos_core/src/domain/guyos_wire_v1.rs:477-487 | M1: the re-print check accepts exactly the canonical text of each identifier, whatever else the library parser takes, and its error carries the raw text |
| CodecTheorems.DecodeExact | guyos_core/src/domain/guyos_wire_v1.rs:136-165 | An object decodes to a message if and only if it states that message: required keys of the right shape and range, canonical identifier and seq, optional keys absent, null or well-formed |
| CodecTheorems.DecodeErrorExact | guyos_core/src/domain/guyos_wire_v1.rs:143-164 | Which error every object that states no message decodes to, in the order of the checks |
| CodecTheorems.DecodeTextExact | guyos_core/src/domain/guyos_wire_v1.rs:136-165 | A text decodes to a message if and only if its document is an object that states it, however spaced, ordered or extended; otherwise to the error of the document |
| WireMessages.EncodeToValueWithLimits | guyos_core/src/domain/guyos_wire_v1.rs:202-324 | Filling the map key by key, checks first and shape by shape, yields the object the codec theorems speak of, or the same error |
| CodecTheorems.EncodeExact | guyos_core/src/domain/guyos_wire_v1.rs:202-324 | Encoding succeeds exactly on messages within the text limit, u31 ranges and printable timestamps, and the object states the message |
| CodecTheorems.EncodeTextExact | guyos_core/src/domain/guyos_wire_v1.rs:183-198 | The encoder in full: the reason for each message that does not encode, with the length and the limit of an oversized text; the length and the limit of an oversized body; otherwise the minified text of an object with exactly the keys of the shape that states the message |
| CodecTheorems.EncodedKeysExact | guyos_core/src/domain/guyos_wire_v1.rs:202-324 | The encoder writes exactly the keys of the shape, optional ones when used and never as null |
| CodecTheorems.EncodedDetailsExact | guyos_core/src/domain/guyos_wire_v1.rs:264-322 | A timestamp is written as the formatter prints it, and an error has details exactly when there are some |
| CodecTheorems.DefaultLimits | guyos_core/src/domain/guyos_wire_v1.rs:172-178 | The default encoder has a frame limit of 1048576 and a text limit of 65536 bytes |
| CodecTheorems.ObjectRoundTrip | guyos_core/src/domain/guyos_wire_v1.rs:202-443 | Every encodable message of all eight shapes decodes back to itself, absent optionals staying absent |
| CodecTheorems.TextRoundTrip | guyos_core/src/domain/guyos_wire_v1.rs:136-198 | A minified body the encoder emits decodes to its message when the JSON parser reads that document back |
| CodecTheorems.SameKeysDecodeAlike | guyos_core/src/domain/guyos_wire_v1.rs:328-443 | Objects that agree on the keys their `type` reads decode alike, errors included |
| CodecTheorems.UnknownKeysIgnored | guyos_core/src/domain/guyos_wire_v1.rs:135-165 | P1: any extra keys with any values leave the result, success or error, unchanged |
| CodecTheorems.UnknownKeysIgnoredInText | guyos_core/src/domain/guyos_wire_v1.rs:135-165 | P1 on texts: two texts whose documents differ in unknown keys only decode alike |
| CodecTheorems.UnknownErrorKeysIgnored | guyos_core/src/domain/guyos_wire_v1.rs:419-443 | P1 inside the nested error object |
| Json.SortedKeysUnique | guyos_core/src/domain/guyos_wire_v1.rs:189 | Object members print in ascending key order, the one strictly ascending listing of the keys |
| Json.BeforeExact | guyos_core/src/domain/guyos_wire_v1.rs:189 | The key order is the lexicographic one |
| Json.EscapeTable | guyos_core/src/domain/guyos_wire_v1.rs:189 | The escape of every character: a letter for quote, backslash and characters 8, 9, 10, 12 and 13, six characters with two digits for other control characters, itself otherwise |
| Json.ObjectPrints | guyos_core/src/domain/guyos_wire_v1.rs:189 | A minified object is its members in ascending key order with commas between them, each a quoted escaped key, a colon and its printed value |
| Json.OtherPrints | guyos_core/src/domain/guyos_wire_v1.rs:189 | The minified text of arrays, strings, numbers, booleans and null |
| JsonReader.ReadInvertsPrint | guyos_core/src/domain/guyos_wire_v1.rs:137-189 | Minified printing loses nothing: an independent reader, without the library's nesting limit, reads back every value without floats, all strings and nesting included |
| ReferenceTicket.EncodeReferenceV1 | guyos_core/src/domain/reference_ticket_v1.rs:51-64 | Filling the two octet buffers in place yields the ticket text of the room and expiry |
| ReferenceTicket.TicketLayout | guyos_core/src/domain/reference_ticket_v1.rs:51-64 | A ticket decodes to 57 octets: version 1, the room, the big-endian expiry, and the HMAC of the prefix and those 25 octets |
| ReferenceTicket.PrefixIsText | guyos_core/src/domain/reference_ticket_v1.rs:21 | The domain prefix is the 15 characters of its documented text, then NUL |
| ReferenceTicket.PadStrictScan | guyos_core/src/domain/reference_ticket_v1.rs:106-121 | The scan passes exactly the texts made of base64url symbols |
| Base64Url.QuadIsBase64 | guyos_core/src/domain/reference_ticket_v1.rs:63 | The symbols of a group are the RFC 4648 alphabet's at the base-64 digits of its 24-bit number |
| Base64Url.DecodeExact | guyos_core/src/domain/reference_ticket_v1.rs:74-76 | A text decodes to octets if and only if it is their encoding, so padding, other lengths and nonzero trailing bits are refused |
| ReferenceTicket.IssuedIsAccepted | guyos_core/src/domain/reference_ticket_v1.rs:51-104 | An issued ticket decodes to its room's canonical text when unexpired, and to invalid_ticket otherwise |
| ReferenceTicket.AcceptanceExact | guyos_core/src/domain/reference_ticket_v1.rs:67-104 | For every string, key, time and HMAC: accepted with an answer if and only if the string is the ticket of some room and unexpired expiry and the answer is that room's text |
| ReferenceTicket.RejectionExact | guyos_core/src/domain/reference_ticket_v1.rs:72-87 | ticket_decode_failed is answered exactly when the text is not 57 octets of the right version in base64url |
| ReferenceTicket.TicketTextInjective | guyos_core/src/domain/reference_ticket_v1.rs:51-64 | Under one key a ticket determines its room and its expiry |
| WireAttach.AcceptAttachExact | guyos_core/src/domain/guyos_wire_attach.rs:79-154 | An ack is built exactly for a u31 preamble, the supported major and an accepted ticket; it echoes the major and the policy, and its minor is the smaller of the two sides' |
| WireAttach.VerifierIrrelevantBeforeTicket | guyos_core/src/domain/guyos_wire_attach.rs:132-144 | The ticket verdict cannot matter when the preamble or the major check fails |
| PublishLedger.RoomPublishState.AcceptOrReplay | guyos_core/src/domain/guyos_wire_publish.rs:50-71 | The ledger in place makes the step on values of the one room's shard, entry creation included, and touches no other room |
| PublishLedger.RepresentsUnique | guyos_core/src/domain/guyos_wire_publish.rs:36-41 | A list of identifiers determines the shard: counter and map |
| PublishLedger.ShardStepRefinesList | guyos_core/src/domain/guyos_wire_publish.rs:50-71 | On the list: an identifier at position i is replayed with i, a new one is appended with the old length, and only 2^64 - 1 identifiers leave no room |
| HubDispatch.DispatchPublishForRoom | guyos_core/src/domain/guyos_wire_v1.rs:644-683 | Dispatch over the mutable ledger is the step on values: an oversized text never reaches the ledger, a first acceptance fans out, a replay does not |
| HubDispatch.HandleClientMessage | guyos_core/src/domain/guyos_wire_v1.rs:694-782 | The whole turn over the mutable ledger is the step on values that runs are made of |
| HubRuns.StepLedger | guyos_core/src/domain/guyos_wire_v1.rs:644-683 | Only an in-limit publish on an attached session touches the ledger, and only its own room's shard; what it is answered |
| HubRuns.LedgerIsFirstOccurrences | guyos_core/src/domain/guyos_wire_publish.rs:35-71 | In every reachable state of every run each room's counter and map are the list of first occurrences, and its fan-outs are those first publishes with their first texts, numbered 0, 1, 2, ... without gaps |
| HubRuns.AnswersRefineList | guyos_core/src/domain/guyos_wire_v1.rs:644-683 | Every answer given in a room is the one the list gives to that room's publishes alone |
| HubRuns.AckIsIndex | guyos_core/src/domain/guyos_wire_v1.rs:656-677 | R3: every ack of an identifier, whenever and from whomever, carries its index among the room's distinct identifiers, and comes with a fan-out exactly on its first acceptance |
| HubRuns.ExactlyOnce | guyos_core/src/domain/guyos_wire_v1.rs:656-683 | Over the whole run an acknowledged publish has exactly one fan-out in its room, at the position its ack names |
| HubRuns.OverflowNeedsFullCounter | guyos_core/src/domain/guyos_wire_publish.rs:64-68 | The counter cannot overflow before 2^64 - 1 acceptances in that room |
| HubIsolation.AttachedForGood | guyos_core/src/domain/guyos_wire_v1.rs:740-780 | Once attached, a session keeps its room and limits for the rest of any run |
| HubIsolation.RoomsDoNotInterfere | guyos_core/src/domain/guyos_wire_publish.rs:55-70 | Deleting all events of connections that never join a room changes neither its shard nor its fan-outs nor any answer in it |
| HubIsolation.RejectedStep | guyos_core/src/domain/guyos_wire_v1.rs:650-654 | A pre-attach or oversized publish changes no state and is answered attach_required or message_too_large |
| HubIsolation.RejectedInvisible | guyos_core/src/domain/guyos_wire_v1.rs:650-656 | Dropping any set of rejected publishes, wherever they stand in a run, leaves the final state and the outcome of every other event unchanged |
| HubSafety.AckIsTheTransition | guyos_core/src/domain/guyos_wire_v1.rs:710-723 | attach_ack is sent exactly when a session becomes attached, and states that session; any other turn leaves the session as it was |
| HubSafety.AckAtMostOnce | guyos_core/src/domain/guyos_wire_v1.rs:744-755 | At most one attach_ack is ever sent on a stream |
| HubSafety.AttachedWasAcked | guyos_core/src/domain/guyos_wire_v1.rs:710-723 | Every attached session of a reachable state is the one an earlier ack on its stream stated |
| HubSafety.HandledAfterAck | guyos_core/src/domain/guyos_wire_v1.rs:756-763 | No publish is handled before the stream's ack, and it goes to the room that ack named |
| HubSafety.RoomsAreTicketed | guyos_core/src/domain/guyos_wire_attach.rs:133-154 | With reference tickets, a connection is in a room only if it presented the issuer's own ticket for that room, unexpired when presented |
| HubSafety.AttachFailureCode | guyos_core/src/domain/guyos_wire_attach.rs:191-202 | The code answering a failed or repeated attach names the first check that fails |
| HubSafety.SilenceExact | guyos_core/src/domain/guyos_wire_v1.rs:705-781 | Exactly which messages are silently ignored and which get attach_required in each state; silence and errors change nothing |
| HubSafety.UndecodableReplyCode | guyos_core/src/domain/guyos_wire_v1.rs:567-603 | The code answering a body that does not decode, as a function of the document |
| HubSafety.ErrorCodesClosed | guyos_core/src/domain/guyos_wire_v1.rs:567-603 | Whatever the body, state and policy, an error sent has a code of the ten-code table and no details; a body that does not decode changes nothing |
| HubAnswers.StreamAnswersClosed | guyos_core/src/ports/outbound/guyos_wire_v1_session.rs:82-122 | For any raw bytes in any chunks, everything sent back is an ack or a v1 error; the first read that is not a frame adds one error of its own code for a framing failure and nothing for a clean or unexpected end |
| BodySizes.EscapeExpansion | guyos_core/src/domain/guyos_wire_v1.rs:183-198 | Escaping makes a text at most six times as long and never shorter |
| BodySizes.EscapedLenExact | guyos_core/src/domain/guyos_wire_v1.rs:183-198 | An escaped text has its own bytes, one more for each character with a letter and five more for each other control character |
| BodySizes.ControlsReachBound | guyos_core/src/domain/guyos_wire_v1.rs:183-198 | The factor six is reached at every length |
| OutboundSizes.FanOutLen | guyos_core/src/domain/guyos_wire_v1.rs:280-300 | A fan-out body is exactly 101 bytes, its digits and its escaped text |
| OutboundSizes.AckLen | guyos_core/src/domain/guyos_wire_v1.rs:264-279 | An ack body is exactly 90 bytes and its digits |
| OutboundSizes.PublishLen | guyos_core/src/domain/guyos_wire_v1.rs:253-263 | A publish body is exactly 87 bytes and its escaped text |
| OutboundSizes.FrameLimitExact | guyos_core/src/domain/guyos_wire_v1.rs:183-198 | Every in-limit publish, every ack and every in-limit fan-out encodes within the limits if and only if max_frame_bytes is at least 6 * max_message_bytes + 121 |
| OutboundSizes.AdrLimitsSuffice | guyos_core/src/domain/guyos_wire_v1.rs:172-178 | The ADR defaults meet that bound |
| OutboundSizes.HandledEncodes | guyos_core/src/domain/guyos_wire_v1.rs:662-682 | What dispatch produces for a publish encodes under the session's own limits |
| OutboundSizes.AttachAckLen | guyos_core/src/domain/guyos_wire_v1.rs:222-252 | The exact length of every ack that can be stated, for any room text and with or without a keepalive |
| OutboundSizes.AttachAckEncodesExact | guyos_core/src/domain/guyos_wire_v1.rs:222-252 | The ack to any accepted attach encodes under its own limits if and only if the policy's keepalive is absent or at most 2^31 - 1 and the frame limit is at least the ack's exact length |
| OutboundSizes.UuidRoomAckBytes | guyos_core/src/domain/guyos_wire_v1.rs:222-252 | For a room named by a UUID an ack is at most 233 bytes, and some ack has exactly that many |
| OutboundSizes.UnsendableAckExists | guyos_core/src/domain/guyos_wire_attach.rs:146-153 | A policy under which the session becomes attached although its ack cannot be encoded |
| SessionErrors.HubTrySendWireError | guyos_core/src/ports/outbound/guyos_wire_v1_session.rs:114-122 | One unit with the body is queued when there is one, it fits this session and the peer listens; otherwise nothing is sent |
| SessionErrors.WireErrorBodyExact | guyos_core/src/ports/outbound/guyos_wire_v1_session.rs:87-110 | A body exists exactly for FrameTooLarge and InvalidUtf8, is at most 143 bytes for all declared lengths and limits, and has a v1 code |
| SessionErrors.WireErrorBodyDecodes | guyos_core/src/ports/outbound/guyos_wire_v1_session.rs:87-110 | The peer decodes the same error from that body |
| SessionErrors.ErrorBodyLen | guyos_core/src/domain/guyos_wire_v1.rs:311-322 | An error body is exactly 49 bytes, its escaped code and its escaped message |
| SessionErrors.ErrorReplyFitsExact | guyos_core/src/domain/guyos_wire_v1.rs:183-198 | Any error message encodes within a frame limit if and only if 49 bytes, its escaped code and its escaped message fit |
| ReplySizes.ErrorReplyBytesExact | guyos_core/src/domain/guyos_wire_v1.rs:567-603 | For each decode error, the exact frame limit from which its reply encodes, constant or with the escaped echo of the client's text |
| ReplySizes.MessagesName | guyos_core/src/domain/guyos_wire_v1.rs:685-691 | An oversized text is answered with its length and then the limit, an oversized frame with the declared length and then the limit, as decimals |
| ReplySizes.UndecodableReplyFitsExact | guyos_core/src/domain/guyos_wire_v1.rs:567-603 | The reply to any body that does not decode encodes if and only if the frame limit reaches the size its document gives |
| ReplySizes.ReplyFitsExact | guyos_core/src/domain/guyos_wire_v1.rs:694-782 | Every reply to every body is an attach_ack or an error, and encodes if and only if the frame limit reaches the size given by the body, the session, the policy and the ticket verdict |
| ReplySizes.UnknownTypeReplyMayNotFit | guyos_core/src/domain/guyos_wire_v1.rs:573-583 | Under every frame limit above 23 some in-limit body with an unknown `type` has a reply that does not fit |
| ReplySizes.IdentifierReplyMayNotFit | guyos_core/src/domain/guyos_wire_v1.rs:591-597 | Under every frame limit above 41 some in-limit publish with a bad identifier has a reply that does not fit |
| Sse.FindEventDelimiter | guyos_core/src/llm.rs:351-365 | The scan returns the least position of LF LF or CR LF CR LF, or nothing when there is none |
| Sse.FirstDelimiterStable | guyos_core/src/llm.rs:351-365 | A delimiter once found stays first, with the same length, whatever arrives after it |
| Sse.SplitExact | guyos_core/src/llm.rs:314-322 | A buffer splits into event and remainder exactly when the bytes are event, delimiter, remainder and no delimiter starts inside the event |
| Sse.SseStream.TryParseOneSseEvent | guyos_core/src/llm.rs:314-349 | Cutting the event and its delimiter out of the buffer in place is that split |
| Sse.SseStream.PollNext | guyos_core/src/llm.rs:278-311 | One poll in place is the poll step on values |
| Sse.SseStream.Next | guyos_core/src/llm.rs:162 | Polling until ready, with or without a wake, yields the first outstanding item, and none exactly at the end |
| Sse.PollYieldsOutstanding | guyos_core/src/llm.rs:278-311 | Each poll yields the next item of the concatenated bytes, or nothing and loses nothing, or ends when none is left |
| Sse.PollsFinish | guyos_core/src/llm.rs:278-311 | Repeated polls reach the end within a computed number |
| Sse.ChunkingIrrelevant | guyos_core/src/llm.rs:278-365 | The items yielded are the complete events of all bytes that arrive before a fault, then the fault: chunk boundaries and delays do not matter to repeated polls |
| Sse.FinishesExact | guyos_core/src/llm.rs:278-311 | Polled again only after a wake, a consumer gets to its stop or to the end if and only if every chunk before a fault and before its stop completes an event as it arrives |
| Sse.AwaitedExact | guyos_core/src/llm.rs:278-311 | A consumer that asks until the end gets a prefix of the items, and the end with all of them if and only if every chunk before a fault completes an event as it arrives |
| Sse.CutEventIsLost | guyos_core/src/llm.rs:293-299 | After a first chunk that completes no event an awaiting consumer gets nothing more, whatever arrives |
| Sse.CutBeforeDelimiter | guyos_core/src/llm.rs:293-299 | An event cut once in front of its delimiter is outstanding and is never delivered to an awaiting consumer |
| StreamingReply.RunStreamingReply | guyos_core/src/llm.rs:152-190 | With pending polls repeated, the loop and flush send exactly the reply of the items and the timer's outcomes, and fail with the first stream error |
| StreamingReply.RelayConserves | guyos_core/src/llm.rs:162-177 | What the loop sent and what it still holds are all deltas in order; every partial has the minimum length |
| StreamingReply.ChatExact | guyos_core/src/llm.rs:162-189 | The strings given to the chat: the deltas are cut exactly where the timer has run and enough bytes are held back; every share is marked, then what is left over, marked exactly when it is not alone and left out after an error |
| StreamingReply.UncutReplyIsOneMessage | guyos_core/src/llm.rs:179-187 | If the condition to send is never met, the chat gets all the text as one unmarked message |
| StreamingReply.CutReplyIsMarked | guyos_core/src/llm.rs:169-183 | Otherwise, and after an error, every message is marked |
| StreamingReply.FailureExact | guyos_core/src/llm.rs:162-164 | The reply fails with the error that comes after deltas only, if there is one |
| StreamingReply.ReplyConserves | guyos_core/src/llm.rs:152-190 | Whatever the timer does, the payloads concatenate to the deltas before the first Done; after an error they are a prefix |
| StreamingReply.ReplyShape | guyos_core/src/llm.rs:179-189 | An unmarked message is the only one; only a last flush may be shorter than the minimum; an error flushes nothing |
| StreamingReply.AwaitedReply | guyos_core/src/llm.rs:162-190 | An awaiting loop finishes if and only if every chunk before a fault and before a Done or an error among the events completes an event as it arrives; if it finishes it has sent the whole reply, if it hangs a prefix |
| EndToEnd.ReadOutExists | guyos_core/src/ports/outbound/fake_guyos_wire_v1_session.rs:46-76 | Every list of bodies can be sent and read to its end, so the theorems over schedules that do are not empty |
| EndToEnd.ParserReadsBodies | guyos_core/src/ports/outbound/f1_framing.rs:15-77 | The parser takes any framed in-limit bodies apart again, whatever follows them |
| EndToEnd.ScheduleDeliversBodies | guyos_core/src/ports/outbound/fake_guyos_wire_v1_session.rs:46-76 | Framed bodies, cut and interleaved in any way and hung up, are read in order, then a clean close, with nothing left |
| EndToEnd.DeliveredSoFar | guyos_core/src/ports/outbound/fake_guyos_wire_v1_session.rs:46-64 | At every moment of any schedule, hung up or not and cut off anywhere, read number i returned the i-th body framed or the end of the stream |
| EndToEnd.EndClassified | guyos_core/src/ports/outbound/fake_guyos_wire_v1_session.rs:54-61 | The first end after n bodies is clean if and only if the peer hung up between frames, and UnexpectedEof if and only if it hung up strictly inside the frame of body n |
| EndToEnd.MessagesSurviveTheWire | guyos_core/src/domain/guyos_wire_v1.rs:136-198 | Encodable messages, encoded, framed, re-chunked and read, decode to the same messages in order, then a clean close; the body limit check suffices for framing |
| EndToEnd.ReaderReadsBack | guyos_core/src/domain/guyos_wire_v1.rs:137-189 | With the minified-document reader as parser, which has no nesting limit, the assumption on the JSON parser holds for all messages whose error details hold no float |
| EndToEnd.RuntimeExists | guyos_core/src/domain/guyos_wire_v1.rs:464-487 | All assumptions on the library calls can be met together |
| EndToEnd.BodiesRunTheHub | guyos_core/src/domain/guyos_wire_v1.rs:694-782 | Every hub state reached over bodies of any content is that of a run of decoded messages |
| EndToEnd.ClientsReachTheHub | guyos_core/src/domain/guyos_wire_v1.rs:694-782 | Any number of connections over any chunking, hang-ups and interleaving: the hub is in the state of a run of decoded messages in which each client that frames messages, whatever the others send, said a prefix of what it sent, and after a clean close all of it if and only if all its bytes left |
| EndToEnd.FanOutsEncode | guyos_core/src/domain/guyos_wire_v1.rs:668-677 | Over a whole run every fan-out encodes when the frame limit meets the bound |
| EndToEnd.ObserverSeesFirstPublishes | guyos_core/src/domain/guyos_wire_v1.rs:668-682 | With a frame limit of at least 6 * max_message_bytes + 121, an observer sent a room's fan-outs in any chunks decodes message i as the i-th distinct publish admitted, with its first text: no gap, duplicate or loss |
| EndToEnd.PublisherReadsItsAck | guyos_core/src/domain/guyos_wire_v1.rs:658-682 | Under a frame limit of at least 110 a publisher reading its own answers in any chunks decodes, for each admitted publish, the ack with the index of its identifier, in the place of its answer; only a full counter gives none |

## Left out

- HMAC-SHA256 and the constant-time comparison: an arbitrary function and equality.
- RFC 3339 text: timestamps are abstract, parsing inverts formatting where formatting succeeds.
- General JSON text: only minified documents are read; whitespace, exponents and other escapes are the library parser's, which is a parameter. Floating-point numbers keep their text.
- The non-canonical forms `Uuid::parse_str` takes: only that it inverts printing is assumed.
- Sse.PollsFinish: counts repeated polls, not wake-ups; a poll that takes in a chunk without completing an event answers `Pending` with no wake to follow (guyos_core/src/llm.rs:298).
- Sse.SseStream.Next: repeats such a poll, which the `.await` at guyos_core/src/llm.rs:162 does only after a wake; `Sse.AwaitedExact` covers the awaiting consumer.
- Channel capacity: reads and polls are steps over FIFO queues, and a send never blocks.
- QUIC, ALPN, gossip relay, chat service, command line and the Swift client: transport and presentation around the protocol.
- The 32-bit saturating addition of the frame length (guyos_core/src/ports/outbound/f1_framing.rs:70): it cannot saturate with 64-bit `usize`.
- Sse.SseStream.TryParseOneSseEvent: what the bytes of one event mean (guyos_core/src/llm.rs:324-348) is a parameter of the stream; the line scan and JSON extraction are not modelled.
- StreamingReply.RunStreamingReply: uses that `Next`, so it always finishes; `StreamingReply.AwaitedReply` covers the awaiting loop. The timer's outcome at each delta is an arbitrary function; that the interval is respected is not stated. Failures of `chat.send` are ignored, as in the source.
- The non-streaming branch and the HTTP requests of guyos_core/src/llm.rs.
- Human-readable wording of messages, except where its length enters a size bound.
