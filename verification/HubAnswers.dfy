/** The hub behind one connection's reads: what it sends back for each read, framing failures
    included, until the stream is torn down. */
module HubAnswers {
  import opened Prelude
  import opened F1Framing
  import opened WireSession
  import opened WireAttach
  import opened WireMessages
  import opened HubDispatch
  import opened HubRuns
  import opened HubSafety
  import SessionErrors

  /** What an outcome sends to the connection the message came from. */
  function ToSender(outcome: Outcome): seq<Message> {
    match outcome
    case Reply(msg) => [msg]
    case PublishHandled(ack, _) => [PublishAckMsg(ack)]
    case NoReply => []
    case CounterOverflow => []
  }

  predicate IsFrame(r: FrameResult) {
    r.Ok? && r.value.Some?
  }

  /** One read: a body is received, an end gets no answer, a failure its error frame if it has one. */
  function Answer(rt: Runtime, hub: Hub, conn: Conn, r: FrameResult, policy: AttachPolicy, verify: Verifier): (Hub, seq<Message>) {
    match r
    case Ok(Some(body)) =>
      var (hub', outcome) := Receive(rt, hub, conn, body, policy, verify);
      (hub', ToSender(outcome))
    case Ok(None) => (hub, [])
    case Err(e) =>
      match SessionErrors.FailureMessage(e)
      case None => (hub, [])
      case Some(msg) => (hub, [msg])
  }

  /** The reads of a connection in order, up to and including the first that is not a frame. */
  function Answers(rt: Runtime, hub: Hub, conn: Conn, results: seq<FrameResult>, policy: AttachPolicy, verify: Verifier)
    : (Hub, seq<Message>)
    decreases |results|
  {
    if results == [] then (hub, [])
    else
      var (mid, first) := Answer(rt, hub, conn, results[0], policy, verify);
      if !IsFrame(results[0]) then (mid, first)
      else
        var (end, rest) := Answers(rt, mid, conn, results[1..], policy, verify);
        (end, first + rest)
  }

  /** An answer of the protocol: an ack, or an error with a code of the v1 table and no details. */
  predicate IsV1Answer(msg: Message) {
    || msg.AttachAckMsg? || msg.PublishAckMsg?
    || (msg.ErrorMsg? && msg.envelope.code in V1_CODES && msg.envelope.details == None)
  }

  lemma AnswerIsV1(rt: Runtime, hub: Hub, conn: Conn, r: FrameResult, policy: AttachPolicy, verify: Verifier)
    ensures forall msg | msg in Answer(rt, hub, conn, r, policy, verify).1 :: IsV1Answer(msg)
  {
    match r
    case Ok(Some(body)) => ErrorCodesClosed(rt, hub, conn, body, policy, verify);
    case Ok(None) =>
    case Err(e) => SessionErrors.WireErrorBodyExact(rt, e);
  }

  lemma {:induction false} AnswersAreV1(rt: Runtime, hub: Hub, conn: Conn, results: seq<FrameResult>, policy: AttachPolicy,
                                        verify: Verifier)
    ensures forall msg | msg in Answers(rt, hub, conn, results, policy, verify).1 :: IsV1Answer(msg)
    decreases |results|
  {
    if results != [] {
      AnswerIsV1(rt, hub, conn, results[0], policy, verify);
      AnswersAreV1(rt, Answer(rt, hub, conn, results[0], policy, verify).0, conn, results[1..], policy, verify);
    }
  }

  /** Reads before a last one, all frames, are answered as without it. */
  lemma {:induction false} AnswersSnoc(rt: Runtime, hub: Hub, conn: Conn, frames: seq<FrameResult>, r: FrameResult,
                                       policy: AttachPolicy, verify: Verifier)
    requires forall f | f in frames :: IsFrame(f)
    ensures var (mid, before) := Answers(rt, hub, conn, frames, policy, verify);
            var (end, last) := Answer(rt, mid, conn, r, policy, verify);
            Answers(rt, hub, conn, frames + [r], policy, verify) == (end, before + last)
    decreases |frames|
  {
    var all := frames + [r];
    if frames == [] {
      assert all[1..] == [];
      var (end, last) := Answer(rt, hub, conn, r, policy, verify);
      assert last + [] == last == [] + last;
    } else {
      var (mid, first) := Answer(rt, hub, conn, frames[0], policy, verify);
      assert all[1..] == frames[1..] + [r];
      AnswersSnoc(rt, mid, conn, frames[1..], r, policy, verify);
      var (mid', before) := Answers(rt, mid, conn, frames[1..], policy, verify);
      ConcatAssoc(first, before, Answer(rt, mid', conn, r, policy, verify).1);
    }
  }

  lemma {:induction false} NoIo(schedule: seq<Action>, limit: u32, i: nat)
    requires i < |Completed(schedule, limit)|
    ensures Completed(schedule, limit)[i] != Err(Io)
  {
    var init := schedule[..|schedule| - 1];
    if i < |Completed(init, limit)| {
      NoIo(init, limit, i);
    } else {
      var link := LinkAfter(init, limit);
      ReadLoopReads(link.buf, link.queue, link.open, limit);
    }
  }

  /** What the answer to the first read that is not a frame is: nothing for a clean close or an
      unexpected end, one error with the portable code for a framing failure. */
  predicate LastAnswer(r: FrameResult, msgs: seq<Message>) {
    if AtEnd(r) then msgs == []
    else
      && |msgs| == 1 && msgs[0].ErrorMsg? && r.Err? && (r.error.FrameTooLarge? || r.error.InvalidUtf8?)
      && msgs[0].envelope.code == if r.error.FrameTooLarge? then "frame_too_large" else "malformed_json"
  }

  /** Nothing is answered after the first read that is not a frame. */
  lemma {:induction false} AnswersStop(rt: Runtime, hub: Hub, conn: Conn, results: seq<FrameResult>, i: nat,
                                       policy: AttachPolicy, verify: Verifier)
    requires i < |results| && !IsFrame(results[i]) && forall j | 0 <= j < i :: IsFrame(results[j])
    ensures Answers(rt, hub, conn, results, policy, verify) == Answers(rt, hub, conn, results[..i + 1], policy, verify)
    decreases i
  {
    assert results[..i + 1][0] == results[0];
    if i > 0 {
      assert results[..i + 1][1..] == results[1..][..i];
      AnswersStop(rt, Answer(rt, hub, conn, results[0], policy, verify).0, conn, results[1..], i - 1, policy, verify);
    }
  }

  lemma NonFrameAnswer(rt: Runtime, hub: Hub, conn: Conn, r: FrameResult, policy: AttachPolicy, verify: Verifier)
    requires !IsFrame(r) && r != Err(Io)
    ensures LastAnswer(r, Answer(rt, hub, conn, r, policy, verify).1)
  {
  }

  lemma AnswersEnd(rt: Runtime, hub: Hub, conn: Conn, results: seq<FrameResult>, i: nat, policy: AttachPolicy, verify: Verifier)
    returns (msgs: seq<Message>)
    requires i < |results| && !IsFrame(results[i]) && results[i] != Err(Io) && forall j | 0 <= j < i :: IsFrame(results[j])
    ensures LastAnswer(results[i], msgs)
    ensures Answers(rt, hub, conn, results, policy, verify).1 == Answers(rt, hub, conn, results[..i], policy, verify).1 + msgs
  {
    var frames, r := results[..i], results[i];
    var mid := Answers(rt, hub, conn, frames, policy, verify).0;
    msgs := Answer(rt, mid, conn, r, policy, verify).1;
    AnswersSnoc(rt, hub, conn, frames, r, policy, verify);
    AnswersStop(rt, hub, conn, results, i, policy, verify);
    NonFrameAnswer(rt, mid, conn, r, policy, verify);
    assert results[..i + 1] == frames + [r];
  }

  /** Closed error set over streams of raw bytes: for any bytes, cut and interleaved in any way, from
      any hub state, everything the hub sends back on the connection is an ack or an error of the v1
      table; and the first read that is not a frame, number `i`, adds one error of its own code for
      an oversized or non-UTF-8 frame and nothing for an end of the stream, unexpected or not. */
  lemma StreamAnswersClosed(rt: Runtime, hub: Hub, conn: Conn, schedule: seq<Action>, limit: u32, policy: AttachPolicy,
                            verify: Verifier, i: nat)
    ensures forall msg | msg in Answers(rt, hub, conn, Completed(schedule, limit), policy, verify).1 :: IsV1Answer(msg)
    ensures var results := Completed(schedule, limit);
            i < |results| && !IsFrame(results[i]) && (forall j | 0 <= j < i :: IsFrame(results[j])) ==>
              exists msgs :: LastAnswer(results[i], msgs)
                          && Answers(rt, hub, conn, results, policy, verify).1
                             == Answers(rt, hub, conn, results[..i], policy, verify).1 + msgs
  {
    var results := Completed(schedule, limit);
    AnswersAreV1(rt, hub, conn, results, policy, verify);
    if i < |results| && !IsFrame(results[i]) && forall j | 0 <= j < i :: IsFrame(results[j]) {
      NoIo(schedule, limit, i);
      var msgs := AnswersEnd(rt, hub, conn, results, i, policy, verify);
      assert LastAnswer(results[i], msgs);
    }
  }
}
