/** The layers composed: messages to JSON to frames, through any schedule of chunks and reads, back
    to the same messages, and on into the hub and out to its observers. */
module EndToEnd {
  import opened Prelude
  import opened Json
  import opened UuidText
  import opened F1Framing
  import opened WireSession
  import opened WireAttach
  import opened WireMessages
  import opened CodecTheorems
  import opened HubDispatch
  import opened HubRuns
  import opened PublishLedger
  import CanonicalSeq
  import HubAnswers
  import HubSafety
  import JsonReader
  import OutboundSizes
  import ReplySizes
  import Utf8

  // ---- Bodies on the wire --------------------------------------------------------------------

  /** The bytes of the bodies, framed one after the other. */
  function WireOf(bodies: seq<string>): seq<byte> {
    if bodies == [] then []
    else WireOf(bodies[..|bodies| - 1]) + Unit(Utf8.Encode(bodies[|bodies| - 1]))
  }

  function Frames(bodies: seq<string>): seq<FrameResult> {
    seq(|bodies|, i requires 0 <= i < |bodies| => Ok(Some(bodies[i])))
  }

  /** The pure parser takes framed in-limit bodies apart again, whatever follows them. */
  lemma {:induction false} ParserReadsBodies(bodies: seq<string>, limit: u32, more: seq<byte>)
    requires forall b | b in bodies :: Utf8.Len(b) <= limit
    ensures ReadMany(WireOf(bodies) + more, limit, |bodies|) == (Frames(bodies), more)
  {
    if bodies == [] {
      assert WireOf(bodies) + more == more;
    } else {
      var init, last := bodies[..|bodies| - 1], bodies[|bodies| - 1];
      var unit := Unit(Utf8.Encode(last));
      ParserReadsBodies(init, limit, unit + more);
      ConcatAssoc(WireOf(init), unit, more);
      PopFrameExact(unit + more, limit, last, more);
      assert Frames(bodies) == Frames(init) + [Ok(Some(last))];
    }
  }

  /** The peer sent the framed bodies, and one read more than there are bodies has completed. */
  ghost predicate ReadOut(bodies: seq<string>, limit: u32, schedule: seq<Action>) {
    Sent(schedule) == WireOf(bodies) && |Completed(schedule, limit)| == |bodies| + 1
  }

  /** A schedule with reads after it. */
  function ThenRead(schedule: seq<Action>, count: nat): seq<Action> {
    if count == 0 then schedule else ThenRead(schedule, count - 1) + [Read]
  }

  lemma SendAtOnce(bytes: seq<byte>, limit: u32)
    ensures Sent([Send(bytes)] + [HangUp]) == bytes && Completed([Send(bytes)] + [HangUp], limit) == []
  {
    var one, two := [Send(bytes)], [Send(bytes)] + [HangUp];
    assert one[..0] == [] && two[..1] == one;
    assert Sent(one) == [] + bytes == bytes && Completed(one, limit) == [];
  }

  lemma OneMoreRead(schedule: seq<Action>, limit: u32)
    requires HangUp in schedule
    ensures Sent(schedule + [Read]) == Sent(schedule)
    ensures |Completed(schedule + [Read], limit)| == |Completed(schedule, limit)| + 1
  {
    var longer, link := schedule + [Read], LinkAfter(schedule, limit);
    assert longer[..|longer| - 1] == schedule;
    ScheduleRefinesParser(schedule, limit);
    ReadAfterHangUpCompletes(link.buf, link.queue, limit);
  }

  lemma {:induction false} ReadsComplete(schedule: seq<Action>, count: nat, limit: u32)
    requires HangUp in schedule
    ensures HangUp in ThenRead(schedule, count)
    ensures Sent(ThenRead(schedule, count)) == Sent(schedule)
    ensures |Completed(ThenRead(schedule, count), limit)| == |Completed(schedule, limit)| + count
  {
    if count > 0 {
      ReadsComplete(schedule, count - 1, limit);
      OneMoreRead(ThenRead(schedule, count - 1), limit);
    }
  }

  /** Every list of bodies can be sent and read out. */
  lemma ReadOutExists(bodies: seq<string>, limit: u32)
    ensures exists schedule :: ReadOut(bodies, limit, schedule)
  {
    var start := [Send(WireOf(bodies))] + [HangUp];
    SendAtOnce(WireOf(bodies), limit);
    ReadsComplete(start, |bodies| + 1, limit);
    assert ReadOut(bodies, limit, ThenRead(start, |bodies| + 1));
  }

  /** The results of reading the bodies to a clean close. */
  function BodiesThenClose(bodies: seq<string>): seq<FrameResult> {
    Frames(bodies) + [Ok(None)]
  }

  /** Any chunking and interleaving of the framed bodies, hung up and read to completion, yields
      the bodies in order and then a clean close, with nothing left over. */
  lemma ScheduleDeliversBodies(bodies: seq<string>, limit: u32, schedule: seq<Action>)
    requires forall b | b in bodies :: Utf8.Len(b) <= limit
    requires ReadOut(bodies, limit, schedule)
    ensures Completed(schedule, limit) == BodiesThenClose(bodies)
    ensures LinkAfter(schedule, limit).Unread() == []
  {
    ParserReadsBodies(bodies, limit, []);
    assert WireOf(bodies) + [] == WireOf(bodies);
    ScheduleRefinesParser(schedule, limit);
    assert ReadWhole([], limit) == (Ok(None), []);
  }

  // ---- Messages on the wire ------------------------------------------------------------------

  /** `bodies` are the messages encoded under the limits. */
  ghost predicate Encoded(rt: Runtime, msgs: seq<Message>, bodies: seq<string>, maxFrameBytes: u32, maxMessageBytes: u32) {
    && |bodies| == |msgs|
    && forall i | 0 <= i < |msgs| :: EncodeWithinLimits(rt, msgs[i], maxFrameBytes, maxMessageBytes) == Ok(bodies[i])
  }

  lemma EncodedBodiesFit(rt: Runtime, msgs: seq<Message>, bodies: seq<string>, maxFrameBytes: u32, maxMessageBytes: u32)
    requires Encoded(rt, msgs, bodies, maxFrameBytes, maxMessageBytes)
    ensures forall b | b in bodies :: Utf8.Len(b) <= maxFrameBytes
  {
    forall b | b in bodies ensures Utf8.Len(b) <= maxFrameBytes {
      var i :| 0 <= i < |bodies| && bodies[i] == b;
      assert EncodeWithinLimits(rt, msgs[i], maxFrameBytes, maxMessageBytes) == Ok(bodies[i]);
    }
  }

  /** The JSON parser reads back the document of each message that encodes. */
  ghost predicate AllReadBack(rt: Runtime, msgs: seq<Message>, maxMessageBytes: u32) {
    forall i | 0 <= i < |msgs| ::
      EncodeMembers(rt, msgs[i], maxMessageBytes).Ok? ==> ReadsBack(rt, EncodeMembers(rt, msgs[i], maxMessageBytes).value)
  }

  /** The result is a body that decodes to `msg`. */
  ghost predicate Delivers(rt: Runtime, r: FrameResult, msg: Message) {
    r.Ok? && r.value.Some? && Decode(rt, r.value.value) == Ok(msg)
  }

  /** End to end: encodable messages, framed, cut and interleaved in any way, are read and decoded
      to the same messages in the same order, then a clean close; the encoder's body limit is all
      framing needs. */
  lemma MessagesSurviveTheWire(rt: Runtime, msgs: seq<Message>, bodies: seq<string>, maxFrameBytes: u32,
                               maxMessageBytes: u32, schedule: seq<Action>)
    requires Inverts(rt) && AllReadBack(rt, msgs, maxMessageBytes)
    requires Encoded(rt, msgs, bodies, maxFrameBytes, maxMessageBytes)
    requires ReadOut(bodies, maxFrameBytes, schedule)
    ensures var results := Completed(schedule, maxFrameBytes);
            && (forall i | 0 <= i < |msgs| :: Delivers(rt, results[i], msgs[i]))
            && results[|msgs|] == Ok(None)
            && LinkAfter(schedule, maxFrameBytes).Unread() == []
  {
    EncodedBodiesFit(rt, msgs, bodies, maxFrameBytes, maxMessageBytes);
    ScheduleDeliversBodies(bodies, maxFrameBytes, schedule);
    forall i | 0 <= i < |msgs| ensures Delivers(rt, Completed(schedule, maxFrameBytes)[i], msgs[i]) {
      assert EncodeWithinLimits(rt, msgs[i], maxFrameBytes, maxMessageBytes) == Ok(bodies[i]);
      TextRoundTrip(rt, msgs[i], maxFrameBytes, maxMessageBytes);
      assert Frames(bodies)[i] == Ok(Some(bodies[i]));
    }
  }

  // ---- The assumption on the JSON parser can be met -------------------------------------------

  /** Error details, the only part of a message that is arbitrary JSON, hold no floating-point number. */
  ghost predicate NoFloats(msg: Message) {
    msg.ErrorMsg? && msg.envelope.details.Some? ==> JsonReader.FloatFree(Obj(msg.envelope.details.value))
  }

  /** Encoded fields are strings and unsigned integers. */
  ghost predicate Scalars(m: Members) {
    forall k | k in m :: m[k].Str? || (m[k].Num? && m[k].number.PosInt?)
  }

  lemma ScalarsFloatFree(m: Members)
    requires Scalars(m)
    ensures JsonReader.FloatFree(Obj(m))
  {
    forall k | k in m ensures JsonReader.FloatFree(m[k]) {
    }
  }

  lemma ErrorFloatFree(e: ErrorEnvelope)
    requires NoFloats(ErrorMsg(e))
    ensures JsonReader.FloatFree(Obj(EncodeError(e)))
  {
    var m := EncodeError(e);
    var inner := m["error"].members;
    forall k | k in inner ensures JsonReader.FloatFree(inner[k]) {
      assert inner[k].Str? || (e.details.Some? && inner[k] == Obj(e.details.value));
    }
    forall k | k in m ensures JsonReader.FloatFree(m[k]) {
      assert m[k].Str? || m[k] == Obj(inner);
    }
  }

  lemma AttachAckScalars(a: AttachAck)
    requires EncodeAttachAck(a).Ok?
    ensures Scalars(EncodeAttachAck(a).value)
  {
  }

  lemma ChatScalars(rt: Runtime, c: ChatMessage, maxMessageBytes: u32)
    requires EncodeChatMessage(rt, c, maxMessageBytes).Ok?
    ensures Scalars(EncodeChatMessage(rt, c, maxMessageBytes).value)
  {
  }

  lemma PublishAckScalars(rt: Runtime, p: PublishAck)
    requires EncodePublishAck(rt, p).Ok?
    ensures Scalars(EncodePublishAck(rt, p).value)
  {
  }

  lemma EncodedFloatFree(rt: Runtime, msg: Message, maxMessageBytes: u32)
    requires NoFloats(msg) && EncodeMembers(rt, msg, maxMessageBytes).Ok?
    ensures JsonReader.FloatFree(Obj(EncodeMembers(rt, msg, maxMessageBytes).value))
  {
    match msg
    case ErrorMsg(e) => ErrorFloatFree(e);
    case AttachAckMsg(a) =>
      AttachAckScalars(a);
      ScalarsFloatFree(EncodeAttachAck(a).value);
    case ChatMsg(c) =>
      ChatScalars(rt, c, maxMessageBytes);
      ScalarsFloatFree(EncodeChatMessage(rt, c, maxMessageBytes).value);
    case PublishAckMsg(p) =>
      PublishAckScalars(rt, p);
      ScalarsFloatFree(EncodePublishAck(rt, p).value);
    case _ => ScalarsFloatFree(EncodeMembers(rt, msg, maxMessageBytes).value);
  }

  /** With the minified-document reader as the parser it holds for every list of messages
      whose error details are free of floating-point numbers. */
  lemma ReaderReadsBack(rt: Runtime, msgs: seq<Message>, maxMessageBytes: u32)
    requires forall text :: rt.parseJson(text) == JsonReader.Read(text)
    requires forall msg | msg in msgs :: NoFloats(msg)
    ensures AllReadBack(rt, msgs, maxMessageBytes)
  {
    forall i | 0 <= i < |msgs| && EncodeMembers(rt, msgs[i], maxMessageBytes).Ok?
      ensures ReadsBack(rt, EncodeMembers(rt, msgs[i], maxMessageBytes).value)
    {
      assert msgs[i] in msgs;
      EncodedFloatFree(rt, msgs[i], maxMessageBytes);
      JsonReader.ReadInvertsPrint(Obj(EncodeMembers(rt, msgs[i], maxMessageBytes).value));
    }
  }

  ghost function UuidOf(text: string): Option<Uuid> {
    if exists u: Uuid :: ToText(u) == text then
      var u: Uuid :| ToText(u) == text;
      Some(u)
    else None
  }

  /** A text for every instant: its decimal, with a sign when negative. */
  function InstantText(t: Timestamp): string {
    if t < 0 then "-" + CanonicalSeq.Decimal(-t) else CanonicalSeq.Decimal(t)
  }

  ghost function InstantOf(text: string): Option<Timestamp> {
    if exists t: Timestamp :: InstantText(t) == text then
      var t: Timestamp :| InstantText(t) == text;
      Some(t)
    else None
  }

  lemma InstantTextInjective(t: Timestamp, t': Timestamp)
    requires InstantText(t) == InstantText(t')
    ensures t == t'
  {
    var n: nat, n': nat := if t < 0 then -t else t, if t' < 0 then -t' else t';
    CanonicalSeq.DecimalParses(n);
    CanonicalSeq.DecimalParses(n');
    assert t < 0 ==> InstantText(t)[1..] == CanonicalSeq.Decimal(n) && InstantText(t)[0] == '-';
    assert t' < 0 ==> InstantText(t')[1..] == CanonicalSeq.Decimal(n') && InstantText(t')[0] == '-';
    CanonicalSeq.DecimalInjective(n, n');
  }

  /** All assumptions on the library calls can be met together. */
  lemma RuntimeExists()
    ensures exists rt: Runtime ::
              && Inverts(rt) && (forall text :: rt.parseJson(text) == JsonReader.Read(text))
              && ReplySizes.RendersInFull(rt)
  {
    var rt := Runtime(text => JsonReader.Read(text), text => UuidOf(text), t => Some(InstantText(t)), text => InstantOf(text), s => s);
    forall u ensures rt.parseUuid(ToText(u)) == Some(u) {
      var v := UuidOf(ToText(u)).value;
      ToTextInjective(u, v);
    }
    forall t ensures rt.parseTime(rt.formatTime(t).value) == Some(t) {
      var t' := InstantOf(InstantText(t)).value;
      InstantTextInjective(t, t');
    }
  }

  // ---- Into the hub --------------------------------------------------------------------------

  /** A body that some connection's reads delivered. */
  datatype Inbound = Inbound(conn: Conn, body: string, policy: AttachPolicy, verify: Verifier)

  /** The hub after it received the bodies, decodable or not, in the order they arrived. */
  function ReceiveAll(rt: Runtime, inputs: seq<Inbound>): Hub {
    if inputs == [] then START
    else
      var last := inputs[|inputs| - 1];
      HubSafety.Receive(rt, ReceiveAll(rt, inputs[..|inputs| - 1]), last.conn, last.body, last.policy, last.verify).0
  }

  function DecodedEvents(rt: Runtime, inputs: seq<Inbound>): seq<Event> {
    if inputs == [] then []
    else
      var init, last := DecodedEvents(rt, inputs[..|inputs| - 1]), inputs[|inputs| - 1];
      match Decode(rt, last.body)
      case Err(_) => init
      case Ok(msg) => init + [Event(last.conn, msg, last.policy, last.verify)]
  }

  /** Every state the hub reaches over bodies of any content is the state of a run of decoded
      messages, so what holds of all runs holds of the hub behind its wire. */
  lemma {:induction false} BodiesRunTheHub(rt: Runtime, inputs: seq<Inbound>)
    ensures ReceiveAll(rt, inputs) == HubAfter(DecodedEvents(rt, inputs))
  {
    if inputs != [] {
      var init := inputs[..|inputs| - 1];
      BodiesRunTheHub(rt, init);
      var events := DecodedEvents(rt, inputs);
      if Decode(rt, inputs[|inputs| - 1].body).Ok? {
        assert events[..|events| - 1] == DecodedEvents(rt, init);
      }
    }
  }

  function BodiesFrom(inputs: seq<Inbound>, conn: Conn): seq<string> {
    if inputs == [] then []
    else
      var init, last := BodiesFrom(inputs[..|inputs| - 1], conn), inputs[|inputs| - 1];
      if last.conn == conn then init + [last.body] else init
  }

  function MessagesFrom(events: seq<Event>, conn: Conn): seq<Message> {
    if events == [] then []
    else
      var init, last := MessagesFrom(events[..|events| - 1], conn), events[|events| - 1];
      if last.conn == conn then init + [last.msg] else init
  }

  lemma {:induction false} MessagesAreDecodedBodies(rt: Runtime, inputs: seq<Inbound>, conn: Conn, msgs: seq<Message>)
    requires |BodiesFrom(inputs, conn)| <= |msgs|
    requires forall i | 0 <= i < |BodiesFrom(inputs, conn)| :: Decode(rt, BodiesFrom(inputs, conn)[i]) == Ok(msgs[i])
    ensures MessagesFrom(DecodedEvents(rt, inputs), conn) == msgs[..|BodiesFrom(inputs, conn)|]
  {
    if inputs != [] {
      var init, last := inputs[..|inputs| - 1], inputs[|inputs| - 1];
      var before, bodies := BodiesFrom(init, conn), BodiesFrom(inputs, conn);
      assert forall i | 0 <= i < |before| :: before[i] == bodies[i];
      MessagesAreDecodedBodies(rt, init, conn, msgs);
      var events := DecodedEvents(rt, inputs);
      if last.conn == conn {
        assert Decode(rt, bodies[|before|]) == Ok(msgs[|before|]);
      }
      if Decode(rt, last.body).Ok? {
        assert events[..|events| - 1] == DecodedEvents(rt, init);
      }
    }
  }

  /** The pure parser's first results do not depend on how many reads follow. */
  lemma {:induction false} ReadManyPrefix(stream: seq<byte>, limit: u32, count: nat, total: nat)
    requires count <= total
    ensures |ReadMany(stream, limit, count).0| == count
    ensures ReadMany(stream, limit, count).0 <= ReadMany(stream, limit, total).0
  {
    if count < total {
      ReadManyPrefix(stream, limit, count, total - 1);
    } else if count > 0 {
      ReadManyPrefix(stream, limit, count - 1, count - 1);
    }
  }

  /** Past the last body the parser sees the end. */
  lemma EndAfterBodies(bodies: seq<string>, limit: u32, count: nat)
    requires (forall b | b in bodies :: Utf8.Len(b) <= limit) && count > |bodies|
    ensures var results := ReadMany(WireOf(bodies), limit, count).0;
            |results| == count && AtEnd(results[|bodies|])
  {
    var wire := WireOf(bodies);
    assert wire + [] == wire;
    ParserReadsBodies(bodies, limit, []);
    ReadManyPrefix(wire, limit, count, count);
    ReadManyPrefix(wire, limit, |bodies| + 1, count);
    assert ReadMany(wire, limit, |bodies| + 1).0[|bodies|] == Ok(None);
  }

  /** Reads that report no end return the bodies in order, as far as they go. */
  lemma DeliveredBeforeEnd(bodies: seq<string>, limit: u32, schedule: seq<Action>, n: nat)
    requires forall b | b in bodies :: Utf8.Len(b) <= limit
    requires Sent(schedule) <= WireOf(bodies) && n <= |Completed(schedule, limit)|
    requires forall i | 0 <= i < n :: !AtEnd(Completed(schedule, limit)[i])
    ensures n <= |bodies| && Completed(schedule, limit)[..n] == Frames(bodies[..n])
    ensures ReadMany(Sent(schedule), limit, n).0 == Frames(bodies[..n])
  {
    var results, sent, wire := Completed(schedule, limit), Sent(schedule), WireOf(bodies);
    ScheduleRefinesParser(schedule, limit);
    ReadManyPrefix(sent, limit, n, |results|);
    ReadManyStable(sent, wire[|sent|..], limit, n);
    assert sent + wire[|sent|..] == wire && wire + [] == wire;
    ParserReadsBodies(bodies, limit, []);
    if n > |bodies| {
      EndAfterBodies(bodies, limit, n);
      assert false;
    }
    ReadManyPrefix(wire, limit, n, |bodies|);
    assert Frames(bodies[..n]) == Frames(bodies)[..n];
  }

  /** At every moment of any schedule, hung up or not and cut off anywhere, read number i returned
      the i-th body the peer framed, or the end of the stream. */
  lemma DeliveredSoFar(bodies: seq<string>, limit: u32, schedule: seq<Action>, i: nat)
    requires forall b | b in bodies :: Utf8.Len(b) <= limit
    requires Sent(schedule) <= WireOf(bodies) && i < |Completed(schedule, limit)|
    ensures var r := Completed(schedule, limit)[i]; AtEnd(r) || (i < |bodies| && r == Ok(Some(bodies[i])))
  {
    var results := Completed(schedule, limit);
    if !AtEnd(results[i]) {
      forall j | 0 <= j < i + 1 ensures !AtEnd(results[j]) {
        if AtEnd(results[j]) {
          StuckForGood(schedule, limit, j, i);
        }
      }
      DeliveredBeforeEnd(bodies, limit, schedule, i + 1);
      assert results[i] == results[..i + 1][i];
    }
  }

  /** Frames the parser returned are units it took off the front of the stream. */
  lemma {:induction false} FramesAreUnits(bodies: seq<string>, limit: u32, stream: seq<byte>)
    requires ReadMany(stream, limit, |bodies|).0 == Frames(bodies)
    ensures stream == WireOf(bodies) + ReadMany(stream, limit, |bodies|).1
  {
    if bodies != [] {
      var init, last := bodies[..|bodies| - 1], bodies[|bodies| - 1];
      var (results, mid) := ReadMany(stream, limit, |init|);
      var (r, rest) := ReadWhole(mid, limit);
      ReadManyPrefix(stream, limit, |init|, |init|);
      assert results == Frames(bodies)[..|init|] == Frames(init);
      assert r == Frames(bodies)[|init|];
      FramesAreUnits(init, limit, stream);
      PopFrameExact(mid, limit, last, rest);
      ConcatAssoc(WireOf(init), Unit(Utf8.Encode(last)), rest);
    }
  }

  lemma {:induction false} WireOfGrows(bodies: seq<string>, n: nat)
    requires n <= |bodies|
    ensures WireOf(bodies[..n]) <= WireOf(bodies)
  {
    if n == |bodies| {
      assert bodies[..n] == bodies;
    } else {
      var init := bodies[..|bodies| - 1];
      WireOfGrows(init, n);
      assert init[..n] == bodies[..n];
    }
  }

  /** How the end is classified: the first end, after `n` bodies, is a clean close exactly when the
      peer hung up between frames, after all of body number n - 1, and an unexpected end exactly
      when it hung up strictly inside the frame of body number n. */
  lemma EndClassified(bodies: seq<string>, limit: u32, schedule: seq<Action>, n: nat)
    requires forall b | b in bodies :: Utf8.Len(b) <= limit
    requires Sent(schedule) <= WireOf(bodies) && n < |Completed(schedule, limit)|
    requires AtEnd(Completed(schedule, limit)[n]) && forall i | 0 <= i < n :: !AtEnd(Completed(schedule, limit)[i])
    ensures n <= |bodies|
    ensures Completed(schedule, limit)[n] == Ok(None) <==> Sent(schedule) == WireOf(bodies[..n])
    ensures Completed(schedule, limit)[n] == Err(UnexpectedEof) <==>
              n < |bodies| && WireOf(bodies[..n]) < Sent(schedule) < WireOf(bodies[..n + 1])
  {
    var results, sent := Completed(schedule, limit), Sent(schedule);
    DeliveredBeforeEnd(bodies, limit, schedule, n);
    FramesAreUnits(bodies[..n], limit, sent);
    ScheduleRefinesParser(schedule, limit);
    ReadManyPrefix(sent, limit, n + 1, |results|);
    var rest := ReadMany(sent, limit, n).1;
    assert results[n] == ReadWhole(rest, limit).0;
    assert rest == [] <==> sent == WireOf(bodies[..n]) by {
      assert |sent| == |WireOf(bodies[..n])| + |rest|;
    }
    if rest != [] {
      CutInsideFrame(bodies, limit, sent, n);
    }
  }

  /** A body whose frame is all there is read. */
  lemma WholeFrameIsRead(bodies: seq<string>, limit: u32, sent: seq<byte>, n: nat)
    requires forall b | b in bodies :: Utf8.Len(b) <= limit
    requires n < |bodies| && WireOf(bodies[..n + 1]) <= sent
    ensures ReadMany(sent, limit, n + 1).0 == Frames(bodies[..n + 1])
  {
    var wire := WireOf(bodies[..n + 1]);
    assert wire + sent[|wire|..] == sent;
    ParserReadsBodies(bodies[..n + 1], limit, sent[|wire|..]);
  }

  lemma CutInsideFrame(bodies: seq<string>, limit: u32, sent: seq<byte>, n: nat)
    requires forall b | b in bodies :: Utf8.Len(b) <= limit
    requires n <= |bodies| && WireOf(bodies[..n]) < sent <= WireOf(bodies)
    requires |ReadMany(sent, limit, n + 1).0| == n + 1 && AtEnd(ReadMany(sent, limit, n + 1).0[n])
    ensures n < |bodies| && sent < WireOf(bodies[..n + 1])
  {
    assert bodies[..|bodies|] == bodies;
    if n < |bodies| {
      WireOfGrows(bodies, n + 1);
      if WireOf(bodies[..n + 1]) <= sent {
        WholeFrameIsRead(bodies, limit, sent, n);
      }
    }
  }

  /** A client: the messages it frames one after the other, and how its bytes travel. */
  datatype Client = Client(msgs: seq<Message>, bodies: seq<string>, schedule: seq<Action>)

  /** The bytes that left the client, before it hung up if it did, are a prefix of its framed
      messages: all of them, or cut off anywhere. */
  ghost predicate Sends(rt: Runtime, c: Client, maxFrameBytes: u32, maxMessageBytes: u32) {
    && AllReadBack(rt, c.msgs, maxMessageBytes)
    && Encoded(rt, c.msgs, c.bodies, maxFrameBytes, maxMessageBytes)
    && Sent(c.schedule) <= WireOf(c.bodies)
  }

  /** The bodies are the first results of the reads on the client's connection. */
  ghost predicate Heard(c: Client, bodies: seq<string>, maxFrameBytes: u32) {
    Frames(bodies) <= Completed(c.schedule, maxFrameBytes)
  }

  /** They are all of its results before a clean close. */
  ghost predicate HeardOut(c: Client, bodies: seq<string>, maxFrameBytes: u32) {
    BodiesThenClose(bodies) <= Completed(c.schedule, maxFrameBytes)
  }

  lemma HeardAt(bodies: seq<string>, c: Client, got: seq<string>, limit: u32, i: nat)
    requires bodies == c.bodies && forall b | b in bodies :: Utf8.Len(b) <= limit
    requires Sent(c.schedule) <= WireOf(bodies) && Heard(c, got, limit) && i < |got|
    ensures i < |bodies| && got[i] == bodies[i]
  {
    assert Frames(got)[i] == Completed(c.schedule, limit)[i];
    DeliveredSoFar(bodies, limit, c.schedule, i);
  }

  lemma HeardPrefix(bodies: seq<string>, c: Client, got: seq<string>, limit: u32)
    requires bodies == c.bodies && forall b | b in bodies :: Utf8.Len(b) <= limit
    requires Sent(c.schedule) <= WireOf(bodies) && Heard(c, got, limit)
    ensures got <= bodies
  {
    if got != [] {
      HeardAt(bodies, c, got, limit, |got| - 1);
    }
    forall i | 0 <= i < |got| ensures got[i] == bodies[i] {
      HeardAt(bodies, c, got, limit, i);
    }
  }

  lemma HeardIsSent(rt: Runtime, c: Client, got: seq<string>, maxFrameBytes: u32, maxMessageBytes: u32)
    requires Inverts(rt) && Sends(rt, c, maxFrameBytes, maxMessageBytes) && Heard(c, got, maxFrameBytes)
    ensures got <= c.bodies
    ensures forall i | 0 <= i < |got| :: Decode(rt, got[i]) == Ok(c.msgs[i])
  {
    EncodedBodiesFit(rt, c.msgs, c.bodies, maxFrameBytes, maxMessageBytes);
    HeardPrefix(c.bodies, c, got, maxFrameBytes);
    forall i | 0 <= i < |got| ensures Decode(rt, got[i]) == Ok(c.msgs[i]) {
      assert got[i] == c.bodies[i];
      TextRoundTrip(rt, c.msgs[i], maxFrameBytes, maxMessageBytes);
    }
  }

  /** The results before the clean close are the bodies, and none of them is an end. */
  lemma HeardOutResults(c: Client, got: seq<string>, limit: u32)
    requires HeardOut(c, got, limit)
    ensures Heard(c, got, limit)
    ensures var results := Completed(c.schedule, limit);
            && |got| < |results| && results[|got|] == Ok(None)
            && forall i | 0 <= i < |got| :: !AtEnd(results[i])
  {
    var results := Completed(c.schedule, limit);
    assert results[|got|] == BodiesThenClose(got)[|got|];
    forall i | 0 <= i < |got| ensures results[i] == Frames(got)[i] {
      assert results[i] == BodiesThenClose(got)[i];
    }
  }

  lemma AllBytesSent(bodies: seq<string>, n: nat, sent: seq<byte>)
    requires n <= |bodies| && sent == WireOf(bodies[..n])
    ensures n == |bodies| <==> sent == WireOf(bodies)
  {
    if n == |bodies| {
      assert bodies[..n] == bodies;
    } else {
      WireOfGrows(bodies, n + 1);
      assert bodies[..n + 1][..n] == bodies[..n];
    }
  }

  /** After a clean close everything was heard exactly when everything was sent. */
  lemma HeardOutExact(rt: Runtime, c: Client, got: seq<string>, maxFrameBytes: u32, maxMessageBytes: u32)
    requires Inverts(rt) && Sends(rt, c, maxFrameBytes, maxMessageBytes) && HeardOut(c, got, maxFrameBytes)
    ensures Heard(c, got, maxFrameBytes) && |got| <= |c.msgs|
    ensures |got| == |c.msgs| <==> Sent(c.schedule) == WireOf(c.bodies)
  {
    EncodedBodiesFit(rt, c.msgs, c.bodies, maxFrameBytes, maxMessageBytes);
    HeardOutResults(c, got, maxFrameBytes);
    EndClassified(c.bodies, maxFrameBytes, c.schedule, |got|);
    AllBytesSent(c.bodies, |got|, Sent(c.schedule));
  }

  lemma ClientHeard(rt: Runtime, c: Client, inputs: seq<Inbound>, conn: Conn, maxFrameBytes: u32, maxMessageBytes: u32)
    requires Inverts(rt) && Sends(rt, c, maxFrameBytes, maxMessageBytes)
    requires Heard(c, BodiesFrom(inputs, conn), maxFrameBytes)
    ensures |BodiesFrom(inputs, conn)| <= |c.msgs|
    ensures MessagesFrom(DecodedEvents(rt, inputs), conn) == c.msgs[..|BodiesFrom(inputs, conn)|]
  {
    HeardIsSent(rt, c, BodiesFrom(inputs, conn), maxFrameBytes, maxMessageBytes);
    MessagesAreDecodedBodies(rt, inputs, conn, c.msgs);
  }

  lemma ClientHeardOut(rt: Runtime, c: Client, inputs: seq<Inbound>, conn: Conn, maxFrameBytes: u32, maxMessageBytes: u32)
    requires Inverts(rt) && Sends(rt, c, maxFrameBytes, maxMessageBytes)
    requires HeardOut(c, BodiesFrom(inputs, conn), maxFrameBytes)
    ensures MessagesFrom(DecodedEvents(rt, inputs), conn) == c.msgs <==> Sent(c.schedule) == WireOf(c.bodies)
  {
    HeardOutExact(rt, c, BodiesFrom(inputs, conn), maxFrameBytes, maxMessageBytes);
    ClientHeard(rt, c, inputs, conn, maxFrameBytes, maxMessageBytes);
    assert c.msgs[..|c.msgs|] == c.msgs;
  }

  /** The whole inbound side: any number of connections, each with its own cuts, delays and
      hang-up, whose delivered frames reach the hub in any interleaving. At every moment the hub
      is in the state of a run of decoded messages; in that run each client that frames messages
      has said exactly a prefix of them, whatever the other peers send and even if it is cut off
      inside a frame; and after a clean close it has said all of them exactly when all its bytes
      left it. */
  lemma ClientsReachTheHub(rt: Runtime, clients: Conn -> Client, inputs: seq<Inbound>, maxFrameBytes: u32, maxMessageBytes: u32)
    requires Inverts(rt)
    ensures ReceiveAll(rt, inputs) == HubAfter(DecodedEvents(rt, inputs))
    ensures forall conn | Sends(rt, clients(conn), maxFrameBytes, maxMessageBytes)
                          && Heard(clients(conn), BodiesFrom(inputs, conn), maxFrameBytes) ::
              MessagesFrom(DecodedEvents(rt, inputs), conn) <= clients(conn).msgs
    ensures forall conn | Sends(rt, clients(conn), maxFrameBytes, maxMessageBytes)
                          && HeardOut(clients(conn), BodiesFrom(inputs, conn), maxFrameBytes) ::
              (MessagesFrom(DecodedEvents(rt, inputs), conn) == clients(conn).msgs
               <==> Sent(clients(conn).schedule) == WireOf(clients(conn).bodies))
  {
    BodiesRunTheHub(rt, inputs);
    forall conn | Sends(rt, clients(conn), maxFrameBytes, maxMessageBytes)
                  && Heard(clients(conn), BodiesFrom(inputs, conn), maxFrameBytes)
      ensures MessagesFrom(DecodedEvents(rt, inputs), conn) <= clients(conn).msgs
    {
      ClientHeard(rt, clients(conn), inputs, conn, maxFrameBytes, maxMessageBytes);
    }
    forall conn | Sends(rt, clients(conn), maxFrameBytes, maxMessageBytes)
                  && HeardOut(clients(conn), BodiesFrom(inputs, conn), maxFrameBytes)
      ensures MessagesFrom(DecodedEvents(rt, inputs), conn) == clients(conn).msgs
         <==> Sent(clients(conn).schedule) == WireOf(clients(conn).bodies)
    {
      ClientHeardOut(rt, clients(conn), inputs, conn, maxFrameBytes, maxMessageBytes);
    }
  }

  // ---- Out to the observers ------------------------------------------------------------------

  function ChatMsgs(chats: seq<ChatMessage>): seq<Message> {
    seq(|chats|, i requires 0 <= i < |chats| => ChatMsg(chats[i]))
  }

  ghost predicate TextLimitsAtMost(events: seq<Event>, maxMessageBytes: u32) {
    forall e | e in events :: e.policy.maxMessageBytes <= maxMessageBytes
  }

  lemma SessionTextLimit(events: seq<Event>, conn: Conn, maxMessageBytes: u32)
    requires TextLimitsAtMost(events, maxMessageBytes) && SessionOf(HubAfter(events), conn).Attached?
    ensures SessionOf(HubAfter(events), conn).maxMessageBytes <= maxMessageBytes
  {
    HubSafety.AttachedWasAcked(events, conn);
    var session := SessionOf(HubAfter(events), conn);
    var j: nat :| HubSafety.AckedSession(events, j, conn, session);
    HubSafety.AckIsTheTransition(HubAfter(events[..j]), events[j]);
    var ack := OutcomeAt(events, j).msg.attachAck;
    AcceptAttachExact(events[j].msg.attach, events[j].policy, events[j].verify, ack);
  }

  lemma {:induction false} AdmittedTextLimit(events: seq<Event>, room: string, maxMessageBytes: u32)
    requires TextLimitsAtMost(events, maxMessageBytes)
    ensures forall p | p in AdmittedTo(events, room) :: Utf8.Len(p.text) <= maxMessageBytes
  {
    if events != [] {
      var init, last := events[..|events| - 1], events[|events| - 1];
      assert forall e | e in init :: e in events;
      AdmittedTextLimit(init, room, maxMessageBytes);
      if SessionOf(HubAfter(init), last.conn).Attached? {
        SessionTextLimit(init, last.conn, maxMessageBytes);
      }
    }
  }

  /** What the hub owes an observer of a room over a whole run, when its frame limit is at least
      six times the text limit plus 121: every fan-out encodes within the limits. */
  lemma FanOutsEncode(rt: Runtime, events: seq<Event>, room: string, maxFrameBytes: u32, maxMessageBytes: u32)
    requires TextLimitsAtMost(events, maxMessageBytes)
    requires maxFrameBytes >= 6 * maxMessageBytes + OutboundSizes.ENVELOPE
    ensures forall i | 0 <= i < |FanOuts(events, room)| ::
              EncodeWithinLimits(rt, ChatMsgs(FanOuts(events, room))[i], maxFrameBytes, maxMessageBytes).Ok?
  {
    LedgerIsFirstOccurrences(events, room);
    AdmittedTextLimit(events, room, maxMessageBytes);
    var firsts := FirstOccurrences(AdmittedTo(events, room));
    forall i | 0 <= i < |firsts|
      ensures EncodeWithinLimits(rt, ChatMsg(ChatOf(i, firsts[i])), maxFrameBytes, maxMessageBytes).Ok?
    {
      FirstsAreMembers(AdmittedTo(events, room), i);
      OutboundSizes.OutboundFits(rt, i, firsts[i].clientMessageId, firsts[i].text, maxFrameBytes, maxMessageBytes);
    }
  }

  lemma FanOutMessages(events: seq<Event>, room: string)
    ensures var firsts := FirstOccurrences(AdmittedTo(events, room));
            && |firsts| == |ChatMsgs(FanOuts(events, room))| <= U64_MAX && Distinct(Ids(firsts))
            && forall i | 0 <= i < |firsts| :: ChatMsgs(FanOuts(events, room))[i] == ChatMsg(ChatOf(i, firsts[i]))
  {
    LedgerIsFirstOccurrences(events, room);
    FirstOccurrencesDistinct(AdmittedTo(events, room));
  }

  /** The body of a message, where it encodes. */
  function BodyOf(rt: Runtime, msg: Message, maxFrameBytes: u32, maxMessageBytes: u32): string {
    var r := EncodeWithinLimits(rt, msg, maxFrameBytes, maxMessageBytes);
    if r.Ok? then r.value else ""
  }

  function Bodies(rt: Runtime, msgs: seq<Message>, maxFrameBytes: u32, maxMessageBytes: u32): seq<string> {
    seq(|msgs|, i requires 0 <= i < |msgs| => BodyOf(rt, msgs[i], maxFrameBytes, maxMessageBytes))
  }

  /** What an observer of a room is sent over a run: the room's fan-outs, encoded. */
  function FanOutBodies(rt: Runtime, events: seq<Event>, room: string, maxFrameBytes: u32, maxMessageBytes: u32): seq<string> {
    Bodies(rt, ChatMsgs(FanOuts(events, room)), maxFrameBytes, maxMessageBytes)
  }

  lemma FanOutBodiesEncoded(rt: Runtime, events: seq<Event>, room: string, maxFrameBytes: u32, maxMessageBytes: u32)
    requires TextLimitsAtMost(events, maxMessageBytes)
    requires maxFrameBytes >= 6 * maxMessageBytes + OutboundSizes.ENVELOPE
    ensures Encoded(rt, ChatMsgs(FanOuts(events, room)), FanOutBodies(rt, events, room, maxFrameBytes, maxMessageBytes),
                    maxFrameBytes, maxMessageBytes)
  {
    FanOutsEncode(rt, events, room, maxFrameBytes, maxMessageBytes);
    var msgs := ChatMsgs(FanOuts(events, room));
    forall i | 0 <= i < |msgs|
      ensures EncodeWithinLimits(rt, msgs[i], maxFrameBytes, maxMessageBytes)
           == Ok(FanOutBodies(rt, events, room, maxFrameBytes, maxMessageBytes)[i])
    {
      assert EncodeWithinLimits(rt, msgs[i], maxFrameBytes, maxMessageBytes).Ok?;
    }
  }

  /** The results are the first publishes as numbered chat messages, then a clean close. */
  ghost predicate DeliversAll(rt: Runtime, results: seq<FrameResult>, firsts: seq<Publish>) {
    && |results| == |firsts| + 1 && |firsts| <= U64_MAX
    && (forall i | 0 <= i < |firsts| :: Delivers(rt, results[i], ChatMsg(ChatOf(i, firsts[i]))))
    && results[|firsts|] == Ok(None)
  }

  /** Publish to observer: over any run whose policies allow texts of at most `maxMessageBytes`,
      under a frame limit of at least 6 * `maxMessageBytes` + 121, an observer that is sent the
      room's fan-outs, in any chunks, decodes message number i as the i-th distinct publish
      admitted to the room, with the text of its first acceptance: no gap, no duplicate, no loss. */
  lemma ObserverSeesFirstPublishes(rt: Runtime, events: seq<Event>, room: string, maxFrameBytes: u32, maxMessageBytes: u32,
                                   schedule: seq<Action>)
    requires Inverts(rt) && TextLimitsAtMost(events, maxMessageBytes)
    requires maxFrameBytes >= 6 * maxMessageBytes + OutboundSizes.ENVELOPE
    requires AllReadBack(rt, ChatMsgs(FanOuts(events, room)), maxMessageBytes)
    requires ReadOut(FanOutBodies(rt, events, room, maxFrameBytes, maxMessageBytes), maxFrameBytes, schedule)
    ensures var firsts := FirstOccurrences(AdmittedTo(events, room));
            Distinct(Ids(firsts)) && DeliversAll(rt, Completed(schedule, maxFrameBytes), firsts)
  {
    FanOutMessages(events, room);
    var msgs, firsts := ChatMsgs(FanOuts(events, room)), FirstOccurrences(AdmittedTo(events, room));
    var bodies := FanOutBodies(rt, events, room, maxFrameBytes, maxMessageBytes);
    FanOutBodiesEncoded(rt, events, room, maxFrameBytes, maxMessageBytes);
    MessagesSurviveTheWire(rt, msgs, bodies, maxFrameBytes, maxMessageBytes, schedule);
    forall i | 0 <= i < |firsts|
      ensures Delivers(rt, Completed(schedule, maxFrameBytes)[i], ChatMsg(ChatOf(i, firsts[i])))
    {
      assert Delivers(rt, Completed(schedule, maxFrameBytes)[i], msgs[i]);
    }
  }

  // ---- Back to the publisher -----------------------------------------------------------------

  /** The messages the hub sends back on a connection over a run: its answers that encode. */
  function SentBack(rt: Runtime, events: seq<Event>, conn: Conn, maxFrameBytes: u32, maxMessageBytes: u32): seq<Message> {
    if events == [] then []
    else
      var init, last := events[..|events| - 1], events[|events| - 1];
      var before := SentBack(rt, init, conn, maxFrameBytes, maxMessageBytes);
      var answer := HubAnswers.ToSender(Step(HubAfter(init), last).1);
      if last.conn == conn && answer != [] && EncodeWithinLimits(rt, answer[0], maxFrameBytes, maxMessageBytes).Ok?
      then before + answer
      else before
  }

  ghost predicate AllEncode(rt: Runtime, msgs: seq<Message>, maxFrameBytes: u32, maxMessageBytes: u32) {
    forall i | 0 <= i < |msgs| :: EncodeWithinLimits(rt, msgs[i], maxFrameBytes, maxMessageBytes).Ok?
  }

  lemma {:induction false} SentBackEncodes(rt: Runtime, events: seq<Event>, conn: Conn, maxFrameBytes: u32, maxMessageBytes: u32)
    ensures AllEncode(rt, SentBack(rt, events, conn, maxFrameBytes, maxMessageBytes), maxFrameBytes, maxMessageBytes)
  {
    if events != [] {
      SentBackEncodes(rt, events[..|events| - 1], conn, maxFrameBytes, maxMessageBytes);
    }
  }

  lemma {:induction false} SentBackGrows(rt: Runtime, events: seq<Event>, k: nat, conn: Conn, maxFrameBytes: u32, maxMessageBytes: u32)
    requires k <= |events|
    ensures SentBack(rt, events[..k], conn, maxFrameBytes, maxMessageBytes) <= SentBack(rt, events, conn, maxFrameBytes, maxMessageBytes)
  {
    if k == |events| {
      assert events[..k] == events;
    } else {
      var init := events[..|events| - 1];
      SentBackGrows(rt, init, k, conn, maxFrameBytes, maxMessageBytes);
      assert init[..k] == events[..k];
    }
  }

  /** The bytes of the longest ack of a publish. */
  const ACK_BYTES: nat := 110

  lemma AnswerSentBack(rt: Runtime, events: seq<Event>, k: nat, conn: Conn, msg: Message, maxFrameBytes: u32, maxMessageBytes: u32)
    requires k < |events| && events[k].conn == conn && HubAnswers.ToSender(OutcomeAt(events, k)) == [msg]
    requires EncodeWithinLimits(rt, msg, maxFrameBytes, maxMessageBytes).Ok?
    ensures SentBack(rt, events[..k], conn, maxFrameBytes, maxMessageBytes) + [msg]
         <= SentBack(rt, events, conn, maxFrameBytes, maxMessageBytes)
  {
    var next := events[..k + 1];
    assert next[..|next| - 1] == events[..k] && next[|next| - 1] == events[k];
    SentBackGrows(rt, events, k + 1, conn, maxFrameBytes, maxMessageBytes);
  }

  lemma AckEncodes(rt: Runtime, n: u64, id: Uuid, maxFrameBytes: u32, maxMessageBytes: u32)
    requires maxFrameBytes >= ACK_BYTES
    ensures EncodeWithinLimits(rt, PublishAckMsg(PublishAck(n, id, None)), maxFrameBytes, maxMessageBytes).Ok?
  {
    OutboundSizes.AckLen(rt, n, id, maxMessageBytes);
    CanonicalSeq.U64Digits(n);
  }

  lemma AckSentBack(rt: Runtime, events: seq<Event>, k: nat, ack: PublishAck, maxFrameBytes: u32, maxMessageBytes: u32)
    requires k < |events| && maxFrameBytes >= ACK_BYTES && ack.serverTimestamp == None
    requires OutcomeAt(events, k).PublishHandled? && OutcomeAt(events, k).publisherAck == ack
    ensures var j := |SentBack(rt, events[..k], events[k].conn, maxFrameBytes, maxMessageBytes)|;
            var sent := SentBack(rt, events, events[k].conn, maxFrameBytes, maxMessageBytes);
            j < |sent| && sent[j] == PublishAckMsg(ack)
  {
    AckEncodes(rt, ack.seqNo, ack.clientMessageId, maxFrameBytes, maxMessageBytes);
    assert ack == PublishAck(ack.seqNo, ack.clientMessageId, None);
    AnswerSentBack(rt, events, k, events[k].conn, PublishAckMsg(ack), maxFrameBytes, maxMessageBytes);
  }

  /** Read number `j` delivers the ack of the publish with its position among the first ones. */
  ghost predicate AckDelivered(rt: Runtime, results: seq<FrameResult>, j: nat, firsts: seq<Publish>, p: Publish, i: u64) {
    && i < |firsts| && firsts[i].clientMessageId == p.clientMessageId
    && j < |results| && Delivers(rt, results[j], PublishAckMsg(PublishAck(i, p.clientMessageId, None)))
  }

  lemma SentBackDelivered(rt: Runtime, sent: seq<Message>, bodies: seq<string>, maxFrameBytes: u32, maxMessageBytes: u32,
                          schedule: seq<Action>, j: nat)
    requires Inverts(rt) && AllReadBack(rt, sent, maxMessageBytes) && AllEncode(rt, sent, maxFrameBytes, maxMessageBytes)
    requires bodies == Bodies(rt, sent, maxFrameBytes, maxMessageBytes) && ReadOut(bodies, maxFrameBytes, schedule)
    requires j < |sent|
    ensures j < |Completed(schedule, maxFrameBytes)| && Delivers(rt, Completed(schedule, maxFrameBytes)[j], sent[j])
  {
    MessagesSurviveTheWire(rt, sent, bodies, maxFrameBytes, maxMessageBytes, schedule);
  }

  /** Publish to publisher: over any run, under a frame limit of at least 110, a publisher that reads
      its own answers, in any chunks, decodes for each of its admitted publishes the ack with the
      index of its identifier among the room's distinct ones, in the place of its answer; only an
      identifier refused by a full counter has none. */
  lemma PublisherReadsItsAck(rt: Runtime, events: seq<Event>, k: nat, room: string, p: Publish, maxFrameBytes: u32,
                             maxMessageBytes: u32, schedule: seq<Action>)
    requires Inverts(rt) && maxFrameBytes >= ACK_BYTES
    requires k < |events| && Admitted(HubAfter(events[..k]), events[k]) == Some((room, p))
    requires AllReadBack(rt, SentBack(rt, events, events[k].conn, maxFrameBytes, maxMessageBytes), maxMessageBytes)
    requires var sent := SentBack(rt, events, events[k].conn, maxFrameBytes, maxMessageBytes);
             ReadOut(Bodies(rt, sent, maxFrameBytes, maxMessageBytes), maxFrameBytes, schedule)
    ensures var firsts := FirstOccurrences(AdmittedTo(events, room));
            var j := |SentBack(rt, events[..k], events[k].conn, maxFrameBytes, maxMessageBytes)|;
            if p.clientMessageId in Ids(firsts) then
              exists i: u64 :: AckDelivered(rt, Completed(schedule, maxFrameBytes), j, firsts, p, i)
            else OutcomeAt(events, k) == CounterOverflow && |firsts| == U64_MAX
  {
    var sent := SentBack(rt, events, events[k].conn, maxFrameBytes, maxMessageBytes);
    var firsts := FirstOccurrences(AdmittedTo(events, room));
    AckIsIndex(events, k, room, p);
    if p.clientMessageId in Ids(firsts) {
      var i: u64 :| AckedAt(OutcomeAt(events, k), p, firsts, i, NotSeenIn(AdmittedTo(events[..k], room), p.clientMessageId));
      var j := |SentBack(rt, events[..k], events[k].conn, maxFrameBytes, maxMessageBytes)|;
      AckSentBack(rt, events, k, PublishAck(i, p.clientMessageId, None), maxFrameBytes, maxMessageBytes);
      SentBackEncodes(rt, events, events[k].conn, maxFrameBytes, maxMessageBytes);
      SentBackDelivered(rt, sent, Bodies(rt, sent, maxFrameBytes, maxMessageBytes), maxFrameBytes, maxMessageBytes, schedule, j);
      assert AckDelivered(rt, Completed(schedule, maxFrameBytes), j, firsts, p, i);
    }
  }
}
