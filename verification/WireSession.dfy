/** One end of a framed application session over FIFO chunk queues
    (guyos_core/src/ports/outbound/fake_guyos_wire_v1_session.rs), and the proof that what a
    session reads depends on the bytes sent and not on how they were cut or interleaved. */
module WireSession {
  import opened Prelude
  import opened F1Framing
  import Utf8

  // ---- The session objects -------------------------------------------------------------------

  /** An mpsc channel of chunks. `senderAlive` and `receiverAlive` turn false when that half is dropped. */
  class Channel {
    var queue: seq<seq<byte>>
    var senderAlive: bool
    var receiverAlive: bool

    constructor ()
      ensures queue == [] && senderAlive && receiverAlive
    {
      queue, senderAlive, receiverAlive := [], true, true;
    }
  }

  /** A read either completes, or waits for the peer: the channel is drained but still open. */
  datatype ReadResult = Done(result: FrameResult) | Waiting

  class Session {
    const maxFrameBytes: u32
    const decoder: F1FrameDecoder
    const rx: Channel
    const tx: Channel

    constructor (limit: u32, rx: Channel, tx: Channel)
      ensures maxFrameBytes == limit && this.rx == rx && this.tx == tx
      ensures fresh(decoder) && decoder.maxFrameBytes == limit && decoder.buf == []
    {
      maxFrameBytes, this.rx, this.tx := limit, rx, tx;
      decoder := new F1FrameDecoder(limit);
    }

    ghost predicate Valid() {
      decoder.maxFrameBytes == maxFrameBytes
    }

    /** Every byte received or in flight that no read has consumed yet. */
    ghost function Unread(): seq<byte>
      reads decoder, rx
    {
      decoder.buf + Flatten(rx.queue)
    }

    method ReadApplicationFrame() returns (r: ReadResult)
      requires Valid()
      modifies decoder, rx`queue
      ensures Valid()
      ensures (r, decoder.buf, rx.queue) == ReadLoop(old(decoder.buf), old(rx.queue), rx.senderAlive, maxFrameBytes)
      ensures r.Done? ==> Reads(old(Unread()), maxFrameBytes, r.result, Unread())
      ensures r.Waiting? ==> rx.senderAlive && rx.queue == [] && Unread() == old(Unread())
    {
      ReadLoopReads(decoder.buf, rx.queue, rx.senderAlive, maxFrameBytes);
      while true
        invariant ReadLoop(decoder.buf, rx.queue, rx.senderAlive, maxFrameBytes)
               == ReadLoop(old(decoder.buf), old(rx.queue), rx.senderAlive, maxFrameBytes)
        decreases |rx.queue|
      {
        var popped := decoder.PopCompleteFrame();
        if popped != Ok(None) {
          return Done(popped);
        }
        if rx.queue == [] {
          if rx.senderAlive {
            return Waiting;
          }
          var leftover := decoder.HasBufferedData();
          return Done(if leftover then Err(UnexpectedEof) else Ok(None));
        }
        var chunk := rx.queue[0];
        rx.queue := rx.queue[1..];
        decoder.Feed(chunk);
      }
    }

    /** An in-limit body reaches the queue as exactly one unit; a refused write sends nothing. */
    method WriteApplicationFrame(body: string) returns (r: Result<(), SessionError>)
      modifies tx`queue
      ensures r.Ok? <==> Utf8.Len(body) <= maxFrameBytes && tx.receiverAlive
      ensures r.Ok? ==> tx.queue == old(tx.queue) + [Unit(Utf8.Encode(body))]
      ensures r.Ok? ==> Flatten(tx.queue) == Flatten(old(tx.queue)) + Unit(Utf8.Encode(body))
      ensures r.Err? ==> tx.queue == old(tx.queue)
      ensures Utf8.Len(body) > maxFrameBytes ==>
                r == Err(FrameTooLarge(if Utf8.Len(body) <= U32_MAX then Utf8.Len(body) else U32_MAX, maxFrameBytes))
      ensures Utf8.Len(body) <= maxFrameBytes && !tx.receiverAlive ==> r == Err(Io)
    {
      var wire := EncodeApplicationFrame(body, maxFrameBytes);
      if wire.Err? {
        return Err(wire.error);
      }
      if !tx.receiverAlive {
        return Err(Io);
      }
      FlattenSnoc(tx.queue, wire.value);
      tx.queue := tx.queue + [wire.value];
      return Ok(());
    }
  }

  /** Two ends, each reading the channel the other writes. */
  method PairedWithMaxFrameBytes(limit: u32) returns (a: Session, b: Session)
    ensures fresh(a) && fresh(b) && a.Valid() && b.Valid()
    ensures a.maxFrameBytes == b.maxFrameBytes == limit
    ensures a.rx == b.tx && a.tx == b.rx && a.decoder != b.decoder
    ensures a.Unread() == [] && b.Unread() == []
    ensures a.rx.senderAlive && a.rx.receiverAlive && b.rx.senderAlive && b.rx.receiverAlive
  {
    var aToB := new Channel();
    var bToA := new Channel();
    a := new Session(limit, bToA, aToB);
    b := new Session(limit, aToB, bToA);
  }

  // ---- The wire grammar ----------------------------------------------------------------------

  /** The read loop on values: buffer, undelivered chunks, and whether the sender is alive. */
  function ReadLoop(buf: seq<byte>, queue: seq<seq<byte>>, open: bool, limit: u32)
    : (ReadResult, seq<byte>, seq<seq<byte>>)
    decreases |queue|
  {
    var (popped, rest) := PopFrame(buf, limit);
    if popped != Ok(None) then (Done(popped), rest, queue)
    else if queue != [] then ReadLoop(buf + queue[0], queue[1..], open, limit)
    else if open then (Waiting, buf, queue)
    else if buf != [] then (Done(Err(UnexpectedEof)), buf, queue)
    else (Done(Ok(None)), buf, queue)
  }

  /** `stream` stops inside a unit: it is a proper prefix of one, and no over-limit length has
      been seen. */
  ghost predicate Truncated(stream: seq<byte>, limit: u32) {
    exists payload: seq<byte> ::
      && |payload| <= U32_MAX && stream < Unit(payload)
      && (|stream| >= 4 ==> |payload| <= limit)
  }

  ghost predicate IsUtf8(payload: seq<byte>) {
    exists s :: payload == Utf8.Encode(s)
  }

  /** What a read of `stream`, a byte stream known to its end, returns and leaves unread, stated
      on the grammar of the wire and not on the decoder. */
  ghost predicate Reads(stream: seq<byte>, limit: u32, r: FrameResult, rest: seq<byte>) {
    match r
    case Ok(Some(s)) => Utf8.Len(s) <= limit && stream == Unit(Utf8.Encode(s)) + rest
    case Ok(None) => stream == [] && rest == []
    case Err(InvalidUtf8) =>
      exists payload: seq<byte> ::
        && |payload| <= limit && !IsUtf8(payload)
        && stream == Unit(payload) + rest
    case Err(FrameTooLarge(declared, l)) =>
      l == limit < declared && BigEndian(declared, 4) <= stream && rest == stream
    case Err(UnexpectedEof) => stream != [] && Truncated(stream, limit) && rest == stream
    case Err(Io) => false
  }

  /** The pure parser of a whole stream: one read. */
  function ReadWhole(stream: seq<byte>, limit: u32): (FrameResult, seq<byte>) {
    var (popped, rest) := PopFrame(stream, limit);
    if popped != Ok(None) then (popped, rest)
    else if stream != [] then (Err(UnexpectedEof), stream)
    else (Ok(None), stream)
  }

  lemma NotUtf8(payload: seq<byte>)
    ensures Utf8.Decode(payload).None? <==> !IsUtf8(payload)
  {
    forall s ensures Utf8.Decode(payload) == Some(s) <==> payload == Utf8.Encode(s) {
      Utf8.DecodeExact(payload, s);
    }
    if Utf8.Decode(payload).Some? {
      Utf8.EncodeOfDecode(payload);
    }
  }

  /** A short buffer, or one that stops before the end of an in-limit unit, is a proper prefix
      of the unit whose payload is completed with zeros. */
  lemma PrefixIsTruncated(buf: seq<byte>, prefix: seq<byte>, body: seq<byte>, limit: u32)
    requires |prefix| == 4 && |body| == FromBigEndian(prefix)
    requires buf < prefix + body
    requires |buf| >= 4 ==> |body| <= limit
    ensures Truncated(buf, limit)
  {
    Pow256Values();
    FromBigEndianRoundTrip(prefix);
    assert Unit(body) == prefix + body;
  }

  /** An incomplete pop means the buffer is empty or stops inside a unit. */
  lemma IncompleteIsTruncated(buf: seq<byte>, limit: u32)
    requires PopFrame(buf, limit).0 == Ok(None) && buf != []
    ensures Truncated(buf, limit)
  {
    if |buf| < 4 {
      var prefix: seq<byte> := buf + seq(4 - |buf|, _ => 0);
      var body: seq<byte> := seq(FromBigEndian(prefix), _ => 0);
      assert (prefix + body)[..|buf|] == buf;
      PrefixIsTruncated(buf, prefix, body, limit);
    } else {
      var declared := FromBigEndian(buf[..4]);
      var body: seq<byte> := buf[4..] + seq(declared - (|buf| - 4), _ => 0);
      assert (buf[..4] + body)[..|buf|] == buf;
      PrefixIsTruncated(buf, buf[..4], body, limit);
    }
  }

  lemma TruncatedIsIncomplete(stream: seq<byte>, limit: u32)
    requires Truncated(stream, limit)
    ensures PopFrame(stream, limit) == (Ok(None), stream)
  {
    var payload: seq<byte> :| |payload| <= U32_MAX && stream < Unit(payload) && (|stream| >= 4 ==> |payload| <= limit);
    if |stream| >= 4 {
      Pow256Values();
      assert stream[..4] == BigEndian(|payload|, 4);
      BigEndianRoundTrip(|payload|, 4);
    }
  }

  /** The grammar and the parser agree in both directions; so each stream has exactly one reading. */
  lemma ReadsExact(stream: seq<byte>, limit: u32, r: FrameResult, rest: seq<byte>)
    ensures Reads(stream, limit, r, rest) <==> ReadWhole(stream, limit) == (r, rest)
  {
    if Reads(stream, limit, r, rest) {
      ReadsParses(stream, limit, r, rest);
    }
    if ReadWhole(stream, limit) == (r, rest) {
      ParsesReads(stream, limit);
    }
  }

  lemma ReadsParses(stream: seq<byte>, limit: u32, r: FrameResult, rest: seq<byte>)
    requires Reads(stream, limit, r, rest)
    ensures ReadWhole(stream, limit) == (r, rest)
  {
    match r
    case Ok(Some(s)) => PopFrameExact(stream, limit, s, rest);
    case Ok(None) =>
    case Err(InvalidUtf8) =>
      var payload: seq<byte> :| |payload| <= limit && !IsUtf8(payload) && stream == Unit(payload) + rest;
      PrefixOfUnit(payload, rest);
      NotUtf8(payload);
    case Err(FrameTooLarge(declared, _)) =>
      Pow256Values();
      BigEndianRoundTrip(declared, 4);
      assert stream[..4] == BigEndian(declared, 4);
    case Err(UnexpectedEof) => TruncatedIsIncomplete(stream, limit);
    case Err(Io) =>
  }

  lemma InvalidUtf8Reads(stream: seq<byte>, limit: u32)
    requires PopFrame(stream, limit).0 == Err(InvalidUtf8)
    ensures Reads(stream, limit, Err(InvalidUtf8), PopFrame(stream, limit).1)
  {
    var payload := stream[4..4 + FromBigEndian(stream[..4])];
    SplitUnit(stream);
    NotUtf8(payload);
  }

  lemma ParsesReads(stream: seq<byte>, limit: u32)
    ensures var (r, rest) := ReadWhole(stream, limit); Reads(stream, limit, r, rest)
  {
    var (r, rest) := ReadWhole(stream, limit);
    match r
    case Ok(Some(s)) => PopFrameExact(stream, limit, s, rest);
    case Ok(None) =>
    case Err(InvalidUtf8) => InvalidUtf8Reads(stream, limit);
    case Err(FrameTooLarge(_, _)) => Declared4(stream);
    case Err(UnexpectedEof) => IncompleteIsTruncated(stream, limit);
    case Err(Io) =>
  }

  // ---- Chunking does not matter --------------------------------------------------------------

  predicate AtEnd(r: FrameResult) {
    r == Ok(None) || r == Err(UnexpectedEof)
  }

  /** A verdict that does not report the end of the stream survives any continuation. */
  lemma ReadWholeStable(stream: seq<byte>, more: seq<byte>, limit: u32)
    requires !AtEnd(ReadWhole(stream, limit).0)
    ensures var (r, rest) := ReadWhole(stream, limit); ReadWhole(stream + more, limit) == (r, rest + more)
  {
    var all := stream + more;
    assert all[..4] == stream[..4];
    var declared := FromBigEndian(stream[..4]);
    if declared <= limit {
      assert all[4..4 + declared] == stream[4..4 + declared];
      assert all[4 + declared..] == stream[4 + declared..] + more;
    }
  }

  /** The chunked read loop is one read of the concatenation; it waits only when the bytes at
      hold hold no verdict and the sender may still add to them. */
  lemma {:induction false} ReadLoopReads(buf: seq<byte>, queue: seq<seq<byte>>, open: bool, limit: u32)
    ensures var (r, buf', queue') := ReadLoop(buf, queue, open, limit);
            var stream, rest := buf + Flatten(queue), buf' + Flatten(queue');
            && (r.Done? ==> Reads(stream, limit, r.result, rest) && (open ==> !AtEnd(r.result)))
            && (r.Waiting? ==> open && queue' == [] && rest == stream && AtEnd(ReadWhole(stream, limit).0))
    decreases |queue|
  {
    var (popped, rest) := PopFrame(buf, limit);
    if popped != Ok(None) {
      ReadWholeStable(buf, Flatten(queue), limit);
      ParsesReads(buf + Flatten(queue), limit);
    } else if queue != [] {
      ReadLoopReads(buf + queue[0], queue[1..], open, limit);
      assert buf + Flatten(queue) == buf + queue[0] + Flatten(queue[1..]);
    } else {
      assert buf + Flatten(queue) == buf;
      ParsesReads(buf, limit);
    }
  }

  /** One action on a link: the peer sends a chunk, the peer hangs up, or this end reads. */
  datatype Action = Send(chunk: seq<byte>) | HangUp | Read

  datatype Link = Link(buf: seq<byte>, queue: seq<seq<byte>>, open: bool) {
    function Unread(): seq<byte> {
      buf + Flatten(queue)
    }
  }

  const FRESH_LINK := Link([], [], true)

  function Act(link: Link, action: Action, limit: u32): (Link, ReadResult) {
    match action
    case Send(chunk) => (if link.open then link.(queue := link.queue + [chunk]) else link, Waiting)
    case HangUp => (link.(open := false), Waiting)
    case Read =>
      var (r, buf, queue) := ReadLoop(link.buf, link.queue, link.open, limit);
      (Link(buf, queue, link.open), r)
  }

  /** The link after a schedule of actions. */
  function LinkAfter(schedule: seq<Action>, limit: u32): Link {
    if schedule == [] then FRESH_LINK
    else Act(LinkAfter(schedule[..|schedule| - 1], limit), schedule[|schedule| - 1], limit).0
  }

  /** The results of the reads of a schedule that completed, in order. */
  function Completed(schedule: seq<Action>, limit: u32): seq<FrameResult> {
    if schedule == [] then []
    else
      var init, last := schedule[..|schedule| - 1], schedule[|schedule| - 1];
      var (_, r) := Act(LinkAfter(init, limit), last, limit);
      if r.Done? then Completed(init, limit) + [r.result] else Completed(init, limit)
  }

  /** The bytes the peer sent before hanging up. */
  function Sent(schedule: seq<Action>): seq<byte> {
    if schedule == [] then []
    else
      var init, last := schedule[..|schedule| - 1], schedule[|schedule| - 1];
      if last.Send? && HangUp !in init then Sent(init) + last.chunk else Sent(init)
  }

  /** The pure parser applied `count` times to one whole stream. */
  function ReadMany(stream: seq<byte>, limit: u32, count: nat): (seq<FrameResult>, seq<byte>) {
    if count == 0 then ([], stream)
    else
      var (results, mid) := ReadMany(stream, limit, count - 1);
      var (r, rest) := ReadWhole(mid, limit);
      (results + [r], rest)
  }

  lemma {:induction false} ReadManyStable(stream: seq<byte>, more: seq<byte>, limit: u32, count: nat)
    requires forall i | 0 <= i < |ReadMany(stream, limit, count).0| :: !AtEnd(ReadMany(stream, limit, count).0[i])
    ensures |ReadMany(stream, limit, count).0| == count
    ensures var (results, rest) := ReadMany(stream, limit, count);
            ReadMany(stream + more, limit, count) == (results, rest + more)
  {
    if count > 0 {
      var (results, mid) := ReadMany(stream, limit, count - 1);
      var (all, _) := ReadMany(stream, limit, count);
      var (r, _) := ReadWhole(mid, limit);
      assert all == results + [r];
      forall i | 0 <= i < |results| ensures !AtEnd(results[i]) {
        assert results[i] == all[i];
      }
      assert r == all[|results|];
      ReadManyStable(stream, more, limit, count - 1);
      ReadWholeStable(mid, more, limit);
    }
  }

  /** The results so far are the parser's on the bytes sent so far, the unread bytes are what it
      leaves, and no end has been reported while the sender lives. */
  ghost predicate InStep(sent: seq<byte>, results: seq<FrameResult>, link: Link, limit: u32) {
    && ReadMany(sent, limit, |results|) == (results, link.Unread())
    && (link.open ==> forall i | 0 <= i < |results| :: !AtEnd(results[i]))
  }

  lemma SendKeepsStep(sent: seq<byte>, results: seq<FrameResult>, link: Link, chunk: seq<byte>, limit: u32)
    requires InStep(sent, results, link, limit) && link.open
    ensures InStep(sent + chunk, results, Act(link, Send(chunk), limit).0, limit)
  {
    ReadManyStable(sent, chunk, limit, |results|);
    FlattenSnoc(link.queue, chunk);
    ConcatAssoc(link.buf, Flatten(link.queue), chunk);
  }

  lemma OneMoreResult(sent: seq<byte>, results: seq<FrameResult>, mid: seq<byte>, r: FrameResult, rest: seq<byte>, limit: u32)
    requires ReadMany(sent, limit, |results|) == (results, mid) && ReadWhole(mid, limit) == (r, rest)
    ensures ReadMany(sent, limit, |results + [r]|) == (results + [r], rest)
  {
  }

  lemma ReadKeepsStep(sent: seq<byte>, results: seq<FrameResult>, link: Link, limit: u32)
    requires InStep(sent, results, link, limit)
    ensures var (link', r) := Act(link, Read, limit);
            InStep(sent, if r.Done? then results + [r.result] else results, link', limit)
  {
    ReadLoopReads(link.buf, link.queue, link.open, limit);
    var (link', r) := Act(link, Read, limit);
    if r.Done? {
      ReadsParses(link.Unread(), limit, r.result, link'.Unread());
      OneMoreResult(sent, results, link.Unread(), r.result, link'.Unread(), limit);
    }
  }

  /** Decoder refinement: whatever the chunks and however sends and reads interleave, the
      completed reads are what the pure parser makes of the bytes sent, and the bytes not yet
      read are what that parser leaves. */
  lemma {:induction false} ScheduleRefinesParser(schedule: seq<Action>, limit: u32)
    ensures InStep(Sent(schedule), Completed(schedule, limit), LinkAfter(schedule, limit), limit)
    ensures LinkAfter(schedule, limit).open == (HangUp !in schedule)
  {
    if schedule == [] {
      assert FRESH_LINK.Unread() == [];
    } else {
      var init, last := schedule[..|schedule| - 1], schedule[|schedule| - 1];
      ScheduleRefinesParser(init, limit);
      assert schedule == init + [last];
      var link, results := LinkAfter(init, limit), Completed(init, limit);
      match last
      case Send(chunk) =>
        if link.open {
          SendKeepsStep(Sent(init), results, link, chunk, limit);
        }
      case HangUp =>
      case Read =>
        ReadKeepsStep(Sent(init), results, link, limit);
    }
  }

  /** Chunk independence: the same bytes, cut and interleaved in two ways, give the same results. */
  lemma ChunkingIrrelevant(one: seq<Action>, other: seq<Action>, limit: u32)
    requires Sent(one) == Sent(other)
    requires |Completed(one, limit)| == |Completed(other, limit)|
    ensures Completed(one, limit) == Completed(other, limit)
    ensures LinkAfter(one, limit).Unread() == LinkAfter(other, limit).Unread()
  {
    ScheduleRefinesParser(one, limit);
    ScheduleRefinesParser(other, limit);
  }

  /** A result that consumes bytes; an oversized length and the end of the stream consume none. */
  predicate Consumes(r: FrameResult) {
    r == Err(InvalidUtf8) || (r.Ok? && r.value.Some?)
  }

  lemma {:induction false} StuckParser(stream: seq<byte>, limit: u32, count: nat, i: nat)
    requires i < count == |ReadMany(stream, limit, count).0|
    requires !Consumes(ReadMany(stream, limit, count).0[i])
    ensures var (results, rest) := ReadMany(stream, limit, count);
            results[count - 1] == results[i] && ReadWhole(rest, limit) == (results[i], rest)
  {
    var (results, mid) := ReadMany(stream, limit, count - 1);
    var (all, rest) := ReadMany(stream, limit, count);
    if i < count - 1 {
      assert all[i] == results[i];
      StuckParser(stream, limit, count - 1, i);
    }
  }

  /** Oversized lengths and ends are sticky: every later read of any schedule reports the same,
      whereas a frame of invalid UTF-8 is consumed and reading goes on after it. */
  lemma {:induction false} StuckForGood(schedule: seq<Action>, limit: u32, i: nat, j: nat)
    requires i <= j < |Completed(schedule, limit)|
    requires !Consumes(Completed(schedule, limit)[i])
    ensures Completed(schedule, limit)[j] == Completed(schedule, limit)[i]
  {
    var init := schedule[..|schedule| - 1];
    ScheduleRefinesParser(schedule, limit);
    if j == |Completed(schedule, limit)| - 1 {
      StuckParser(Sent(schedule), limit, |Completed(schedule, limit)|, i);
    } else {
      StuckForGood(init, limit, i, j);
    }
  }

  /** A read after the peer hung up always completes. */
  lemma {:induction false} ReadAfterHangUpCompletes(buf: seq<byte>, queue: seq<seq<byte>>, limit: u32)
    ensures ReadLoop(buf, queue, false, limit).0.Done?
    decreases |queue|
  {
    if queue != [] {
      ReadAfterHangUpCompletes(buf + queue[0], queue[1..], limit);
    }
  }
}
