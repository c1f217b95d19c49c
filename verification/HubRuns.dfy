/** Whole runs of the hub: any interleaving of messages from any number of connections, to any
    rooms, over one shared ledger. */
module HubRuns {
  import opened Prelude
  import opened UuidText
  import opened WireAttach
  import opened WireMessages
  import opened PublishLedger
  import opened HubDispatch
  import Utf8

  type Conn = nat

  /** One inbound message; policy and ticket verdicts may differ from event to event. */
  datatype Event = Event(conn: Conn, msg: Message, policy: AttachPolicy, verify: Verifier)

  /** A connection without an entry has not attached. */
  datatype Hub = Hub(sessions: map<Conn, Session>, rooms: Rooms)

  const START := Hub(map[], map[])

  function SessionOf(hub: Hub, conn: Conn): Session {
    if conn in hub.sessions then hub.sessions[conn] else AwaitingAttach
  }

  function Step(hub: Hub, e: Event): (Hub, Outcome) {
    var before := SessionOf(hub, e.conn);
    var (after, outcome, rooms) := Handle(before, e.msg, e.policy, e.verify, hub.rooms);
    (Hub(if after == before then hub.sessions else hub.sessions[e.conn := after], rooms), outcome)
  }

  function RunFrom(hub: Hub, events: seq<Event>): Hub {
    if events == [] then hub
    else Step(RunFrom(hub, events[..|events| - 1]), events[|events| - 1]).0
  }

  function HubAfter(events: seq<Event>): Hub {
    RunFrom(START, events)
  }

  function OutcomeAt(events: seq<Event>, k: nat): Outcome
    requires k < |events|
  {
    Step(HubAfter(events[..k]), events[k]).1
  }

  /** The room and the publish, when this event is an in-limit publish on an attached session. */
  function Admitted(hub: Hub, e: Event): Option<(string, Publish)> {
    match SessionOf(hub, e.conn)
    case AwaitingAttach => None
    case Attached(room, _, maxMessageBytes) =>
      if e.msg.PublishMsg? && Utf8.Len(e.msg.publish.text) <= maxMessageBytes then Some((room, e.msg.publish)) else None
  }

  /** Only an admitted publish touches the ledger, and then only its own room's shard. */
  lemma StepLedger(hub: Hub, e: Event)
    ensures var (hub', outcome) := Step(hub, e);
            match Admitted(hub, e)
            case None => hub'.rooms == hub.rooms && !outcome.PublishHandled? && !outcome.CounterOverflow?
            case Some((room, p)) =>
              && hub'.sessions == hub.sessions
              && (forall other | other != room :: ShardOf(hub'.rooms, other) == ShardOf(hub.rooms, other))
              && var (shard, decision) := ShardStep(ShardOf(hub.rooms, room), p.clientMessageId);
              && ShardOf(hub'.rooms, room) == shard
              && outcome == match decision
                            case None => CounterOverflow
                            case Some(FirstAcceptance(n)) =>
                              PublishHandled(PublishAck(n, p.clientMessageId, None), Some(ChatOf(n, p)))
                            case Some(IdempotentReplay(n)) =>
                              PublishHandled(PublishAck(n, p.clientMessageId, None), None)
  {
  }

  // ---- The simple specification: first occurrences --------------------------------------------

  function ChatOf(n: u64, p: Publish): ChatMessage {
    ChatMessage(n, p.clientMessageId, p.text, None, None)
  }

  function Ids(ps: seq<Publish>): seq<Uuid> {
    seq(|ps|, i requires 0 <= i < |ps| => ps[i].clientMessageId)
  }

  /** The admitted publishes of a room, in order. */
  function AdmittedTo(events: seq<Event>, room: string): seq<Publish> {
    if events == [] then []
    else
      var init, last := events[..|events| - 1], events[|events| - 1];
      match Admitted(HubAfter(init), last)
      case None => AdmittedTo(init, room)
      case Some((r, p)) => if r == room then AdmittedTo(init, room) + [p] else AdmittedTo(init, room)
  }

  /** The first publish of each identifier, in order; a list of 2^64 - 1 takes no more. */
  function FirstOccurrences(ps: seq<Publish>): seq<Publish> {
    if ps == [] then []
    else
      var firsts, p := FirstOccurrences(ps[..|ps| - 1]), ps[|ps| - 1];
      if p.clientMessageId in Ids(firsts) || |firsts| == U64_MAX then firsts else firsts + [p]
  }

  /** The `chat_message`s fanned out to a room, in order. */
  function FanOuts(events: seq<Event>, room: string): seq<ChatMessage> {
    if events == [] then []
    else
      var init, last := events[..|events| - 1], events[|events| - 1];
      var hub := HubAfter(init);
      var outcome := Step(hub, last).1;
      if outcome.PublishHandled? && outcome.observerChat.Some?
         && SessionOf(hub, last.conn).Attached? && SessionOf(hub, last.conn).roomId == room
      then FanOuts(init, room) + [outcome.observerChat.value]
      else FanOuts(init, room)
  }

  function Chats(firsts: seq<Publish>): seq<ChatMessage>
    requires |firsts| <= U64_MAX
  {
    seq(|firsts|, i requires 0 <= i < |firsts| => ChatOf(i, firsts[i]))
  }

  lemma {:induction false} FirstOccurrencesBounded(ps: seq<Publish>)
    ensures |FirstOccurrences(ps)| <= U64_MAX
  {
    if ps != [] {
      FirstOccurrencesBounded(ps[..|ps| - 1]);
    }
  }

  /** In every reachable state each room's shard is the list of first occurrences of the
      identifiers admitted to it, and what was fanned out to the room is exactly those first
      publishes, with their first texts, numbered 0, 1, 2, ... without a gap. */
  lemma {:induction false} LedgerIsFirstOccurrences(events: seq<Event>, room: string)
    ensures |FirstOccurrences(AdmittedTo(events, room))| <= U64_MAX
    ensures var firsts := FirstOccurrences(AdmittedTo(events, room));
            && Represents(ShardOf(HubAfter(events).rooms, room), Ids(firsts))
            && FanOuts(events, room) == Chats(firsts)
  {
    FirstOccurrencesBounded(AdmittedTo(events, room));
    if events != [] {
      var init, last := events[..|events| - 1], events[|events| - 1];
      LedgerIsFirstOccurrences(init, room);
      var hub := HubAfter(init);
      StepLedger(hub, last);
      var admitted := Admitted(hub, last);
      if admitted.Some? && admitted.value.0 == room {
        AdmittedStep(hub, last, FirstOccurrences(AdmittedTo(init, room)));
        var ps := AdmittedTo(events, room);
        assert ps[..|ps| - 1] == AdmittedTo(init, room);
      }
    }
  }

  /** One admitted publish against the list of first occurrences. */
  lemma AdmittedStep(hub: Hub, e: Event, firsts: seq<Publish>)
    requires Admitted(hub, e).Some? && |firsts| <= U64_MAX
    requires Represents(ShardOf(hub.rooms, Admitted(hub, e).value.0), Ids(firsts))
    ensures var (room, p) := Admitted(hub, e).value;
            var (hub', outcome) := Step(hub, e);
            if p.clientMessageId in Ids(firsts) then
              && Represents(ShardOf(hub'.rooms, room), Ids(firsts))
              && exists i: u64 :: i < |firsts| && firsts[i].clientMessageId == p.clientMessageId
                            && outcome == PublishHandled(PublishAck(i, p.clientMessageId, None), None)
            else if |firsts| < U64_MAX then
              && Represents(ShardOf(hub'.rooms, room), Ids(firsts + [p]))
              && Chats(firsts + [p]) == Chats(firsts) + [ChatOf(|firsts|, p)]
              && outcome == PublishHandled(PublishAck(|firsts|, p.clientMessageId, None), Some(ChatOf(|firsts|, p)))
            else
              Represents(ShardOf(hub'.rooms, room), Ids(firsts)) && outcome == CounterOverflow
  {
    var (room, p) := Admitted(hub, e).value;
    StepLedger(hub, e);
    ShardStepRefinesList(ShardOf(hub.rooms, room), Ids(firsts), p.clientMessageId);
    if p.clientMessageId in Ids(firsts) {
      var i: u64 :| i < |firsts| && Ids(firsts)[i] == p.clientMessageId;
    } else {
      assert Ids(firsts + [p]) == Ids(firsts) + [p.clientMessageId];
    }
  }

  /** What the list of first occurrences answers to a publish. */
  function ListAnswer(firsts: seq<Publish>, p: Publish): Outcome
    requires |firsts| <= U64_MAX
  {
    if p.clientMessageId in Ids(firsts) then
      PublishHandled(PublishAck(Position(firsts, p.clientMessageId), p.clientMessageId, None), None)
    else if |firsts| < U64_MAX then
      PublishHandled(PublishAck(|firsts|, p.clientMessageId, None), Some(ChatOf(|firsts|, p)))
    else CounterOverflow
  }

  function Position(firsts: seq<Publish>, id: Uuid): (i: u64)
    requires |firsts| <= U64_MAX && id in Ids(firsts)
    ensures i < |firsts| && firsts[i].clientMessageId == id
  {
    var last: u64 := |firsts| - 1;
    if firsts[last].clientMessageId == id then last
    else
      assert forall k | 0 <= k < last :: Ids(firsts)[k] == Ids(firsts[..last])[k];
      Position(firsts[..last], id)
  }

  /** The list's answers to a whole sequence of publishes. */
  function ListAnswers(ps: seq<Publish>): seq<Outcome> {
    if ps == [] then []
    else
      FirstOccurrencesBounded(ps[..|ps| - 1]);
      ListAnswers(ps[..|ps| - 1]) + [ListAnswer(FirstOccurrences(ps[..|ps| - 1]), ps[|ps| - 1])]
  }

  /** The hub's answers to the publishes admitted to a room, in order. */
  function AnswersIn(events: seq<Event>, room: string): seq<Outcome> {
    if events == [] then []
    else
      var init, last := events[..|events| - 1], events[|events| - 1];
      match Admitted(HubAfter(init), last)
      case None => AnswersIn(init, room)
      case Some((r, _)) => if r == room then AnswersIn(init, room) + [Step(HubAfter(init), last).1] else AnswersIn(init, room)
  }

  lemma StepIsListAnswer(hub: Hub, e: Event, firsts: seq<Publish>)
    requires Admitted(hub, e).Some? && |firsts| <= U64_MAX
    requires Represents(ShardOf(hub.rooms, Admitted(hub, e).value.0), Ids(firsts))
    ensures Step(hub, e).1 == ListAnswer(firsts, Admitted(hub, e).value.1)
  {
    AdmittedStep(hub, e, firsts);
    var p := Admitted(hub, e).value.1;
    if p.clientMessageId in Ids(firsts) {
      var i: u64 :| i < |firsts| && firsts[i].clientMessageId == p.clientMessageId
        && Step(hub, e).1 == PublishHandled(PublishAck(i, p.clientMessageId, None), None);
      assert Ids(firsts)[i] == Ids(firsts)[Position(firsts, p.clientMessageId)];
    }
  }

  /** The hub refines the list: every answer it gives in a room, acks, fan-outs and refusals, is
      the one the list of first occurrences gives to the room's publishes alone. */
  lemma {:induction false} AnswersRefineList(events: seq<Event>, room: string)
    ensures AnswersIn(events, room) == ListAnswers(AdmittedTo(events, room))
  {
    if events != [] {
      var init, last := events[..|events| - 1], events[|events| - 1];
      AnswersRefineList(init, room);
      LedgerIsFirstOccurrences(init, room);
      var admitted := Admitted(HubAfter(init), last);
      if admitted.Some? && admitted.value.0 == room {
        var ps := AdmittedTo(events, room);
        assert ps[..|ps| - 1] == AdmittedTo(init, room);
        StepIsListAnswer(HubAfter(init), last, FirstOccurrences(AdmittedTo(init, room)));
      }
    }
  }

  // ---- Exactly once over the whole run --------------------------------------------------------

  lemma IdsAppend(ps: seq<Publish>, p: Publish)
    ensures Ids(ps + [p]) == Ids(ps) + [p.clientMessageId]
  {
  }

  lemma {:induction false} FirstOccurrencesDistinct(ps: seq<Publish>)
    ensures Distinct(Ids(FirstOccurrences(ps)))
  {
    if ps != [] {
      FirstOccurrencesDistinct(ps[..|ps| - 1]);
      IdsAppend(FirstOccurrences(ps[..|ps| - 1]), ps[|ps| - 1]);
    }
  }

  /** The list only grows, and once it refuses an identifier it refuses it for ever. */
  lemma {:induction false} FirstOccurrencesGrow(ps: seq<Publish>, n: nat)
    requires n <= |ps|
    ensures FirstOccurrences(ps[..n]) <= FirstOccurrences(ps)
    ensures |FirstOccurrences(ps[..n])| == U64_MAX ==> FirstOccurrences(ps[..n]) == FirstOccurrences(ps)
  {
    FirstOccurrencesBounded(ps);
    if n == |ps| {
      assert ps[..n] == ps;
    } else {
      var init := ps[..|ps| - 1];
      FirstOccurrencesGrow(init, n);
      assert init[..n] == ps[..n];
    }
  }

  lemma {:induction false} AdmittedToGrows(events: seq<Event>, k: nat, room: string)
    requires k <= |events|
    ensures AdmittedTo(events[..k], room) <= AdmittedTo(events, room)
  {
    if k == |events| {
      assert events[..k] == events;
    } else {
      var init := events[..|events| - 1];
      AdmittedToGrows(init, k, room);
      assert init[..k] == events[..k];
    }
  }

  lemma FirstsGrow(events: seq<Event>, k: nat, room: string)
    requires k <= |events|
    ensures var early, firsts := FirstOccurrences(AdmittedTo(events[..k], room)), FirstOccurrences(AdmittedTo(events, room));
            early <= firsts && (|early| == U64_MAX ==> early == firsts)
  {
    AdmittedToGrows(events, k, room);
    var ps := AdmittedTo(events, room);
    FirstOccurrencesGrow(ps, |AdmittedTo(events[..k], room)|);
    assert ps[..|AdmittedTo(events[..k], room)|] == AdmittedTo(events[..k], room);
  }

  /** The outcome of an admitted publish `p` whose identifier stands at position `i` of `firsts`. */
  ghost predicate AckedAt(outcome: Outcome, p: Publish, firsts: seq<Publish>, i: u64, isFirst: bool) {
    && i < |firsts| && firsts[i].clientMessageId == p.clientMessageId
    && outcome == PublishHandled(PublishAck(i, p.clientMessageId, None), if isFirst then Some(ChatOf(i, p)) else None)
    && (isFirst ==> firsts[i] == p)
  }

  ghost predicate NotSeenIn(ps: seq<Publish>, id: Uuid) {
    forall q | q in ps :: q.clientMessageId != id
  }

  /** How an admitted publish is answered, in terms of the room's list of first occurrences. */
  ghost predicate Answered(outcome: Outcome, p: Publish, firsts: seq<Publish>, isFirst: bool) {
    if p.clientMessageId in Ids(firsts) then exists i: u64 :: AckedAt(outcome, p, firsts, i, isFirst)
    else outcome == CounterOverflow && |firsts| == U64_MAX
  }

  /** What one admitted publish gets, against the list as it then stands. */
  lemma AnsweredOnArrival(hub: Hub, e: Event, ps: seq<Publish>)
    requires Admitted(hub, e).Some?
    requires Represents(ShardOf(hub.rooms, Admitted(hub, e).value.0), Ids(FirstOccurrences(ps)))
    ensures var p := Admitted(hub, e).value.1;
            Answered(Step(hub, e).1, p, FirstOccurrences(ps + [p]), NotSeenIn(ps, p.clientMessageId))
  {
    var p := Admitted(hub, e).value.1;
    var early := FirstOccurrences(ps);
    FirstOccurrencesBounded(ps);
    AdmittedStep(hub, e, early);
    assert (ps + [p])[..|ps + [p]| - 1] == ps;
    var firsts := FirstOccurrences(ps + [p]);
    if p.clientMessageId in Ids(early) {
      var i: u64 :| i < |early| && early[i].clientMessageId == p.clientMessageId
        && Step(hub, e).1 == PublishHandled(PublishAck(i, p.clientMessageId, None), None);
      FirstsAreMembers(ps, i);
      assert AckedAt(Step(hub, e).1, p, firsts, i, NotSeenIn(ps, p.clientMessageId));
    } else if |early| < U64_MAX {
      ListedUnlessFull(ps, p.clientMessageId);
      IdsAppend(early, p);
      assert AckedAt(Step(hub, e).1, p, firsts, |early|, NotSeenIn(ps, p.clientMessageId));
    }
  }

  lemma AnswerStands(outcome: Outcome, p: Publish, now: seq<Publish>, firsts: seq<Publish>, isFirst: bool)
    requires Answered(outcome, p, now, isFirst)
    requires now <= firsts && (|now| == U64_MAX ==> now == firsts)
    ensures Answered(outcome, p, firsts, isFirst)
  {
    if p.clientMessageId in Ids(now) {
      var i: u64 :| AckedAt(outcome, p, now, i, isFirst);
      assert Ids(firsts)[i] == p.clientMessageId;
      assert AckedAt(outcome, p, firsts, i, isFirst);
    }
  }

  lemma AdmittedNext(events: seq<Event>, k: nat)
    requires k < |events| && Admitted(HubAfter(events[..k]), events[k]).Some?
    ensures var (room, p) := Admitted(HubAfter(events[..k]), events[k]).value;
            AdmittedTo(events[..k + 1], room) == AdmittedTo(events[..k], room) + [p]
  {
    var later := events[..k + 1];
    assert later[..|later| - 1] == events[..k];
  }

  lemma AnsweredAtOnce(events: seq<Event>, k: nat, room: string, p: Publish)
    requires k < |events| && Admitted(HubAfter(events[..k]), events[k]) == Some((room, p))
    ensures Answered(OutcomeAt(events, k), p, FirstOccurrences(AdmittedTo(events[..k + 1], room)),
                     NotSeenIn(AdmittedTo(events[..k], room), p.clientMessageId))
  {
    LedgerIsFirstOccurrences(events[..k], room);
    AnsweredOnArrival(HubAfter(events[..k]), events[k], AdmittedTo(events[..k], room));
    AdmittedNext(events, k);
  }

  /** Idempotent replay: over the whole run, every ack of a publish carries the position of its
      identifier among the room's first occurrences, whenever and from wherever it was sent;
      it comes with a fan-out exactly when it is that first occurrence; and the only unacked
      admitted publishes are those of identifiers a full counter refuses throughout the run. */
  lemma AckIsIndex(events: seq<Event>, k: nat, room: string, p: Publish)
    requires k < |events| && Admitted(HubAfter(events[..k]), events[k]) == Some((room, p))
    ensures Answered(OutcomeAt(events, k), p, FirstOccurrences(AdmittedTo(events, room)),
                     NotSeenIn(AdmittedTo(events[..k], room), p.clientMessageId))
  {
    AnsweredAtOnce(events, k, room, p);
    FirstsGrow(events, k + 1, room);
    AnswerStands(OutcomeAt(events, k), p,
                 FirstOccurrences(AdmittedTo(events[..k + 1], room)), FirstOccurrences(AdmittedTo(events, room)),
                 NotSeenIn(AdmittedTo(events[..k], room), p.clientMessageId));
  }

  /** First occurrences are taken from the list itself. */
  lemma {:induction false} FirstsAreMembers(ps: seq<Publish>, i: nat)
    requires i < |FirstOccurrences(ps)|
    ensures FirstOccurrences(ps)[i] in ps
  {
    var init := ps[..|ps| - 1];
    if i < |FirstOccurrences(init)| {
      FirstsAreMembers(init, i);
    }
  }

  /** A list that is not full lists every identifier that occurs. */
  lemma {:induction false} ListedUnlessFull(ps: seq<Publish>, id: Uuid)
    requires |FirstOccurrences(ps)| < U64_MAX && id !in Ids(FirstOccurrences(ps))
    ensures NotSeenIn(ps, id)
  {
    if ps != [] {
      var init, last := ps[..|ps| - 1], ps[|ps| - 1];
      assert ps == init + [last];
      IdsAppend(FirstOccurrences(init), last);
      ListedUnlessFull(init, id);
    }
  }

  /** Exactly-once fan-out: an acked publish has one fan-out of its identifier in its room over
      the whole run, at the position its ack names. */
  lemma ExactlyOnce(events: seq<Event>, k: nat)
    requires k < |events| && OutcomeAt(events, k).PublishHandled?
    ensures Admitted(HubAfter(events[..k]), events[k]).Some?
    ensures var (room, p) := Admitted(HubAfter(events[..k]), events[k]).value;
            var ack, chats := OutcomeAt(events, k).publisherAck, FanOuts(events, room);
            && ack.clientMessageId == p.clientMessageId
            && ack.seqNo < |chats| && chats[ack.seqNo].seqNo == ack.seqNo
            && (forall i | 0 <= i < |chats| :: chats[i].clientMessageId == p.clientMessageId <==> i == ack.seqNo)
  {
    StepLedger(HubAfter(events[..k]), events[k]);
    var (room, p) := Admitted(HubAfter(events[..k]), events[k]).value;
    AckIsIndex(events, k, room, p);
    LedgerIsFirstOccurrences(events, room);
    var firsts := FirstOccurrences(AdmittedTo(events, room));
    FirstOccurrencesDistinct(AdmittedTo(events, room));
    var n := OutcomeAt(events, k).publisherAck.seqNo;
    forall i | 0 <= i < |firsts| && firsts[i].clientMessageId == p.clientMessageId ensures i == n {
      assert Ids(firsts)[i] == Ids(firsts)[n];
    }
  }

  /** A room's counter cannot overflow before 2^64 - 1 distinct identifiers were accepted there. */
  lemma OverflowNeedsFullCounter(events: seq<Event>, k: nat)
    requires k < |events| && OutcomeAt(events, k).CounterOverflow?
    ensures Admitted(HubAfter(events[..k]), events[k]).Some?
    ensures |FanOuts(events[..k], Admitted(HubAfter(events[..k]), events[k]).value.0)| == U64_MAX
    ensures k >= U64_MAX
  {
    StepLedger(HubAfter(events[..k]), events[k]);
    var (room, p) := Admitted(HubAfter(events[..k]), events[k]).value;
    LedgerIsFirstOccurrences(events[..k], room);
    AdmittedStep(HubAfter(events[..k]), events[k], FirstOccurrences(AdmittedTo(events[..k], room)));
    FanOutsBounded(events[..k], room);
  }

  lemma {:induction false} FanOutsBounded(events: seq<Event>, room: string)
    ensures |FanOuts(events, room)| <= |events|
  {
    if events != [] {
      FanOutsBounded(events[..|events| - 1], room);
    }
  }
}
