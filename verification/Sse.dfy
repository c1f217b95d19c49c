/** The incremental parser of server-sent events (guyos_core/src/llm.rs): events end at a blank
    line, written LF LF or CR LF CR LF. What an event's bytes mean is a parameter. */
module Sse {
  import opened Prelude

  datatype StreamEvent = DeltaText(text: string) | Done

  datatype StreamError = BadEvent | Transport

  type EventResult = Result<StreamEvent, StreamError>

  /** The line scan and JSON extraction of one complete event. */
  type Interpreter = seq<byte> -> EventResult

  const CR: byte := 13
  const LF: byte := 10

  // ---- Delimiters ----------------------------------------------------------------------------

  predicate CrLfAt(buf: seq<byte>, i: nat) {
    i + 3 < |buf| && buf[i] == CR && buf[i + 1] == LF && buf[i + 2] == CR && buf[i + 3] == LF
  }

  predicate LfAt(buf: seq<byte>, i: nat) {
    i + 1 < |buf| && buf[i] == LF && buf[i + 1] == LF
  }

  predicate DelimiterAt(buf: seq<byte>, i: nat) {
    CrLfAt(buf, i) || LfAt(buf, i)
  }

  /** `r` is the least position of a delimiter. */
  ghost predicate IsFirstDelimiter(buf: seq<byte>, r: Option<nat>) {
    match r
    case Some(i) => DelimiterAt(buf, i) && forall j: nat | j < i :: !DelimiterAt(buf, j)
    case None => forall j: nat :: !DelimiterAt(buf, j)
  }

  function FirstFrom(buf: seq<byte>, i: nat): (r: Option<nat>)
    requires i <= |buf|
    ensures r.Some? ==> i <= r.value && DelimiterAt(buf, r.value)
    ensures forall j: nat | i <= j && (r.Some? ==> j < r.value) :: !DelimiterAt(buf, j)
    decreases |buf| - i
  {
    if i == |buf| then None else if DelimiterAt(buf, i) then Some(i) else FirstFrom(buf, i + 1)
  }

  function FirstDelimiter(buf: seq<byte>): (r: Option<nat>)
    ensures IsFirstDelimiter(buf, r)
  {
    FirstFrom(buf, 0)
  }

  method FindEventDelimiter(buf: seq<byte>) returns (r: Option<nat>)
    ensures IsFirstDelimiter(buf, r)
    ensures r == FirstDelimiter(buf)
  {
    var i := 0;
    while i + 1 < |buf|
      invariant 0 <= i
      invariant forall j: nat | j < i :: !DelimiterAt(buf, j)
    {
      if i + 3 < |buf| {
        assert buf[i..i + 4] == [buf[i], buf[i + 1], buf[i + 2], buf[i + 3]];
        if buf[i..i + 4] == [CR, LF, CR, LF] {
          return Some(i);
        }
      }
      assert buf[i..i + 2] == [buf[i], buf[i + 1]];
      if buf[i..i + 2] == [LF, LF] {
        return Some(i);
      }
      i := i + 1;
    }
    return None;
  }

  // ---- Splitting off one event ---------------------------------------------------------------

  /** The first complete event of the buffer and what follows its delimiter. */
  function Split(buf: seq<byte>): (r: Option<(seq<byte>, seq<byte>)>)
    ensures r.Some? ==> |r.value.1| + 2 <= |buf|
  {
    match FirstDelimiter(buf)
    case None => None
    case Some(i) => Some((buf[..i], buf[i + (if CrLfAt(buf, i) then 4 else 2)..]))
  }

  lemma FirstDelimiterUnique(buf: seq<byte>, one: Option<nat>, other: Option<nat>)
    requires IsFirstDelimiter(buf, one) && IsFirstDelimiter(buf, other)
    ensures one == other
  {
  }

  /** A delimiter once found stays the first one, whatever bytes arrive after it. */
  lemma FirstDelimiterStable(buf: seq<byte>, more: seq<byte>)
    requires FirstDelimiter(buf).Some?
    ensures FirstDelimiter(buf + more) == FirstDelimiter(buf)
    ensures CrLfAt(buf + more, FirstDelimiter(buf).value) == CrLfAt(buf, FirstDelimiter(buf).value)
  {
    var all := buf + more;
    var i := FirstDelimiter(buf).value;
    assert forall k: nat | k < |buf| :: all[k] == buf[k];
    forall j: nat | j < i ensures !DelimiterAt(all, j) {
      assert !DelimiterAt(buf, j);
      assert j + 1 < |buf| && all[j] == buf[j] && all[j + 1] == buf[j + 1];
      assert j + 2 < |buf| ==> all[j + 2] == buf[j + 2];
    }
    FirstDelimiterUnique(all, Some(i), FirstDelimiter(all));
  }

  lemma SplitStable(buf: seq<byte>, more: seq<byte>)
    requires Split(buf).Some?
    ensures Split(buf + more) == Some((Split(buf).value.0, Split(buf).value.1 + more))
  {
    FirstDelimiterStable(buf, more);
    var i := FirstDelimiter(buf).value;
    var skip := i + (if CrLfAt(buf, i) then 4 else 2);
    assert (buf + more)[..i] == buf[..i];
    assert (buf + more)[skip..] == buf[skip..] + more;
  }

  /** A buffer splits into an event and a remainder exactly when the bytes are the event, one of
      the two delimiters and the remainder, and no delimiter starts inside the event. */
  lemma SplitExact(buf: seq<byte>, event: seq<byte>, rest: seq<byte>)
    ensures Split(buf) == Some((event, rest))
       <==> && (buf == event + [13, 10, 13, 10] + rest || buf == event + [10, 10] + rest)
            && forall j: nat | j < |event| :: !DelimiterAt(buf, j)
  {
    if Split(buf) == Some((event, rest)) {
      var i := |event|;
      if CrLfAt(buf, i) {
        assert buf == event + [CR, LF, CR, LF] + rest;
      } else {
        assert buf == event + [LF, LF] + rest;
      }
    }
    if forall j: nat | j < |event| :: !DelimiterAt(buf, j) {
      if buf == event + [CR, LF, CR, LF] + rest {
        SplitAtDelimiter(buf, event, [CR, LF, CR, LF], rest);
      } else if buf == event + [LF, LF] + rest {
        SplitAtDelimiter(buf, event, [LF, LF], rest);
      }
    }
  }

  lemma SplitAtDelimiter(buf: seq<byte>, event: seq<byte>, delimiter: seq<byte>, rest: seq<byte>)
    requires buf == event + delimiter + rest && (delimiter == [CR, LF, CR, LF] || delimiter == [LF, LF])
    requires forall j: nat | j < |event| :: !DelimiterAt(buf, j)
    ensures Split(buf) == Some((event, rest))
  {
    var i := |event|;
    assert forall k: nat | k < |delimiter| :: buf[i + k] == delimiter[k];
    assert buf[i + 0] == delimiter[0] && buf[i + 1] == delimiter[1];
    assert |delimiter| == 4 ==> buf[i + 2] == delimiter[2] && buf[i + 3] == delimiter[3];
    assert DelimiterAt(buf, i) && CrLfAt(buf, i) == (|delimiter| == 4);
    FirstDelimiterUnique(buf, Some(i), FirstDelimiter(buf));
    assert buf[..i] == event && buf[i + |delimiter|..] == rest;
  }

  /** All complete events of a byte string, interpreted. */
  function Events(bytes: seq<byte>, interpret: Interpreter): seq<EventResult>
    decreases |bytes|
  {
    match Split(bytes)
    case None => []
    case Some((event, rest)) => [interpret(event)] + Events(rest, interpret)
  }

  // ---- The stream ----------------------------------------------------------------------------

  /** What the byte stream underneath produces at a poll; after the last one it has ended. */
  datatype Arrival = Chunk(bytes: seq<byte>) | Fault | NotReady

  datatype Poll = Ready(item: Option<EventResult>) | Pending

  datatype State = State(buf: seq<byte>, inner: seq<Arrival>, done: bool)

  /** One poll on values. */
  function PollStep(s: State, interpret: Interpreter): (Poll, State) {
    if s.done then (Ready(None), s)
    else
      match Split(s.buf)
      case Some((event, rest)) => (Ready(Some(interpret(event))), s.(buf := rest))
      case None =>
        if s.inner == [] then (Ready(None), s.(done := true))
        else
          var next := s.(inner := s.inner[1..]);
          match s.inner[0]
          case NotReady => (Pending, next)
          case Fault => (Ready(Some(Err(Transport))), next.(done := true))
          case Chunk(bytes) =>
            (match Split(s.buf + bytes)
             case Some((event, rest)) => (Ready(Some(interpret(event))), next.(buf := rest))
             case None => (Pending, next.(buf := s.buf + bytes)))
  }

  class SseStream {
    const interpret: Interpreter
    var buf: seq<byte>
    var inner: seq<Arrival>
    var done: bool

    constructor (inner: seq<Arrival>, interpret: Interpreter)
      ensures this.interpret == interpret && Value() == State([], inner, false)
    {
      this.interpret := interpret;
      buf, this.inner, done := [], inner, false;
    }

    function Value(): State
      reads this
    {
      State(buf, inner, done)
    }

    method TryParseOneSseEvent() returns (r: Option<EventResult>)
      modifies this`buf
      ensures match Split(old(buf))
              case None => r == None && buf == old(buf)
              case Some((event, rest)) => r == Some(interpret(event)) && buf == rest
    {
      var idx := FindEventDelimiter(buf);
      if idx.None? {
        return None;
      }
      var event := buf[..idx.value];
      buf := buf[idx.value..];
      var delimLen := if |buf| >= 4 && buf[..4] == [CR, LF, CR, LF] then 4 else 2;
      assert (delimLen == 4) == CrLfAt(old(buf), idx.value) by {
        assert |buf| >= 4 ==> buf[..4] == [buf[0], buf[1], buf[2], buf[3]];
      }
      buf := buf[delimLen..];
      return Some(interpret(event));
    }

    method PollNext() returns (r: Poll)
      modifies this
      ensures (r, Value()) == PollStep(old(Value()), interpret)
    {
      if done {
        return Ready(None);
      }
      var ev := TryParseOneSseEvent();
      if ev.Some? {
        return Ready(ev);
      }
      if inner == [] {
        done := true;
        return Ready(None);
      }
      var arrival := inner[0];
      inner := inner[1..];
      match arrival {
        case NotReady => return Pending;
        case Fault =>
          done := true;
          return Ready(Some(Err(Transport)));
        case Chunk(bytes) =>
          buf := buf + bytes;
          ev := TryParseOneSseEvent();
          if ev.Some? {
            return Ready(ev);
          }
          return Pending;
      }
    }

    /** Poll until the stream is ready, whether or not a pending poll was followed by a wake; for
        `stream.next().await`, which is polled again only after one, see `AwaitedExact`. */
    method Next() returns (item: Option<EventResult>)
      modifies this
      ensures item.None? ==> old(Left()) == [] && done
      ensures item.Some? ==> old(Left()) == [item.value] + Left()
      ensures item.Some? ==> Remaining(Value()) < old(Remaining(Value()))
    {
      while true
        invariant Left() == old(Left()) && Remaining(Value()) <= old(Remaining(Value()))
        decreases Remaining(Value())
      {
        PollYieldsOutstanding(Value(), interpret);
        if !done {
          PollProgresses(Value(), interpret);
        }
        var polled := PollNext();
        if polled.Ready? {
          return polled.item;
        }
      }
    }

    /** The items still to come. */
    ghost function Left(): seq<EventResult>
      reads this
    {
      Outstanding(Value(), interpret)
    }
  }

  // ---- Chunk independence --------------------------------------------------------------------

  /** The bytes that arrive before the first fault. */
  function Arriving(inner: seq<Arrival>): seq<byte> {
    if inner == [] || inner[0].Fault? then []
    else (if inner[0].Chunk? then inner[0].bytes else []) + Arriving(inner[1..])
  }

  /** Everything the stream has yet to yield, stated on the concatenated bytes alone. */
  function Outstanding(s: State, interpret: Interpreter): seq<EventResult> {
    if s.done then []
    else Events(s.buf + Arriving(s.inner), interpret) + (if Fault in s.inner then [Err(Transport)] else [])
  }

  /** One poll yields the next outstanding item, or nothing yet, or ends when none is left. */
  lemma PollYieldsOutstanding(s: State, interpret: Interpreter)
    ensures var (r, s') := PollStep(s, interpret);
            match r
            case Pending => Outstanding(s', interpret) == Outstanding(s, interpret)
            case Ready(Some(item)) => Outstanding(s, interpret) == [item] + Outstanding(s', interpret)
            case Ready(None) => Outstanding(s, interpret) == [] && s'.done
  {
    if !s.done {
      if Split(s.buf).Some? {
        SplitStable(s.buf, Arriving(s.inner));
      } else if s.inner == [] {
        assert s.buf + Arriving(s.inner) == s.buf;
      } else {
        assert s.inner == [s.inner[0]] + s.inner[1..];
        match s.inner[0]
        case NotReady =>
          assert [] + Arriving(s.inner[1..]) == Arriving(s.inner[1..]);
        case Fault =>
          assert s.buf + Arriving(s.inner) == s.buf;
        case Chunk(bytes) =>
          assert s.buf + Arriving(s.inner) == s.buf + bytes + Arriving(s.inner[1..]);
          if Split(s.buf + bytes).Some? {
            SplitStable(s.buf + bytes, Arriving(s.inner[1..]));
          }
      }
    }
  }

  /** The state after `n` polls, and the items those polls yielded. */
  function PollMany(s: State, interpret: Interpreter, n: nat): (seq<EventResult>, State) {
    if n == 0 then ([], s)
    else
      var (items, mid) := PollMany(s, interpret, n - 1);
      var (r, last) := PollStep(mid, interpret);
      (Yielded(items, r), last)
  }

  function Yielded(items: seq<EventResult>, r: Poll): seq<EventResult> {
    if r.Ready? && r.item.Some? then items + [r.item.value] else items
  }

  /** Items already yielded and items outstanding make up `all`. */
  ghost predicate Conserved(items: seq<EventResult>, s: State, interpret: Interpreter, all: seq<EventResult>) {
    items + Outstanding(s, interpret) == all
  }

  lemma PollConserves(items: seq<EventResult>, s: State, interpret: Interpreter, all: seq<EventResult>)
    requires Conserved(items, s, interpret, all)
    ensures var (r, s') := PollStep(s, interpret); Conserved(Yielded(items, r), s', interpret, all)
  {
    PollYieldsOutstanding(s, interpret);
    var (r, s') := PollStep(s, interpret);
    if r.Ready? && r.item.Some? {
      assert items + ([r.item.value] + Outstanding(s', interpret)) == items + [r.item.value] + Outstanding(s', interpret);
    }
  }

  /** After any number of polls, what was yielded and what is outstanding make up the whole. */
  lemma {:induction false} PollsConserve(s: State, interpret: Interpreter, n: nat, all: seq<EventResult>)
    requires Outstanding(s, interpret) == all
    ensures Conserved(PollMany(s, interpret, n).0, PollMany(s, interpret, n).1, interpret, all)
  {
    if n == 0 {
      assert [] + all == all;
    } else {
      PollsConserve(s, interpret, n - 1, all);
      var (items, mid) := PollMany(s, interpret, n - 1);
      PollConserves(items, mid, interpret, all);
    }
  }

  /** A bound on the polls still needed to reach the end. */
  function Remaining(s: State): nat {
    if s.done then 0 else 1 + |s.inner| + |s.buf| + |AllBytes(s.inner)|
  }

  function AllBytes(inner: seq<Arrival>): seq<byte> {
    if inner == [] then [] else (if inner[0].Chunk? then inner[0].bytes else []) + AllBytes(inner[1..])
  }

  lemma PollProgresses(s: State, interpret: Interpreter)
    requires !s.done
    ensures Remaining(PollStep(s, interpret).1) < Remaining(s)
  {
  }

  lemma {:induction false} PollsFinish(s: State, interpret: Interpreter, n: nat)
    requires n >= Remaining(s)
    ensures PollMany(s, interpret, n).1.done
    decreases n
  {
    if n > 0 {
      PollManyFront(s, interpret, n);
      if !s.done {
        PollProgresses(s, interpret);
      }
      PollsFinish(PollStep(s, interpret).1, interpret, n - 1);
    }
  }

  lemma {:induction false} PollManyFront(s: State, interpret: Interpreter, n: nat)
    requires n > 0
    ensures PollMany(s, interpret, n).1 == PollMany(PollStep(s, interpret).1, interpret, n - 1).1
  {
    if n > 1 {
      PollManyFront(s, interpret, n - 1);
    }
  }

  /** Chunk independence: polled to the end, a stream yields the events of the bytes that arrived,
      then the fault if there was one. So two streams with the same bytes, however cut and
      delayed, yield the same items. */
  lemma ChunkingIrrelevant(inner: seq<Arrival>, interpret: Interpreter, n: nat)
    requires n >= Remaining(State([], inner, false))
    ensures PollMany(State([], inner, false), interpret, n).0
         == Events(Arriving(inner), interpret) + (if Fault in inner then [Err(Transport)] else [])
  {
    var s := State([], inner, false);
    PollsConserve(s, interpret, n, Outstanding(s, interpret));
    PollsFinish(s, interpret, n);
    assert [] + Arriving(inner) == Arriving(inner);
  }

  // ---- Awaiting --------------------------------------------------------------------------------

  /** What an awaiting consumer gets if a pending poll is repeated only after a wake: the items,
      and whether it reaches the end. The stream underneath wakes it when it was itself not ready;
      nothing wakes it when a chunk arrived that completes no event. */
  function Awaited(s: State, interpret: Interpreter): (seq<EventResult>, bool)
    decreases Remaining(s)
  {
    if s.done then ([], true)
    else
      PollProgresses(s, interpret);
      var (r, s') := PollStep(s, interpret);
      match r
      case Ready(None) => ([], true)
      case Ready(Some(item)) =>
        var (items, ends) := Awaited(s', interpret);
        ([item] + items, ends)
      case Pending => if s.inner[0].NotReady? then Awaited(s', interpret) else ([], false)
  }

  /** At which item a consumer stops asking for more. */
  type Stop = EventResult -> bool

  ghost predicate Meets(items: seq<EventResult>, stop: Stop) {
    exists i :: 0 <= i < |items| && stop(items[i])
  }

  /** Number `k` of the arrivals, if it is a chunk before any fault and no event before it stops the
      consumer, completes at least one event. */
  ghost predicate CompletesEvent(buf: seq<byte>, inner: seq<Arrival>, interpret: Interpreter, stop: Stop, k: nat)
    requires k < |inner|
  {
    var before, after := Events(buf + Arriving(inner[..k]), interpret), Events(buf + Arriving(inner[..k + 1]), interpret);
    inner[k].Chunk? && Fault !in inner[..k] && !Meets(before, stop) ==> |before| < |after|
  }

  ghost predicate EveryChunkCompletes(buf: seq<byte>, inner: seq<Arrival>, interpret: Interpreter, stop: Stop) {
    forall k: nat | k < |inner| :: CompletesEvent(buf, inner, interpret, stop, k)
  }

  /** A consumer that asks until the end. */
  const NEVER: Stop := _ => false

  lemma EventsSplit(buf: seq<byte>, more: seq<byte>, interpret: Interpreter)
    requires Split(buf).Some?
    ensures Events(buf + more, interpret)
         == [interpret(Split(buf).value.0)] + Events(Split(buf).value.1 + more, interpret)
  {
    SplitStable(buf, more);
  }

  lemma MeetsFirst(x: EventResult, items: seq<EventResult>, stop: Stop)
    ensures Meets([x] + items, stop) <==> stop(x) || Meets(items, stop)
  {
    var all := [x] + items;
    if stop(x) {
      assert stop(all[0]);
    }
    if Meets(items, stop) {
      var i :| 0 <= i < |items| && stop(items[i]);
      assert stop(all[i + 1]);
    }
    if Meets(all, stop) {
      var i :| 0 <= i < |all| && stop(all[i]);
      assert i > 0 ==> stop(items[i - 1]);
    }
  }

  lemma ArrivingTail(inner: seq<Arrival>, k: nat)
    requires 0 < k <= |inner|
    ensures Arriving(inner[..k]) ==
            if inner[0].Fault? then [] else (if inner[0].Chunk? then inner[0].bytes else []) + Arriving(inner[1..][..k - 1])
    ensures Fault in inner[..k] <==> inner[0].Fault? || Fault in inner[1..][..k - 1]
  {
    assert inner[..k][1..] == inner[1..][..k - 1];
    assert inner[..k] == [inner[0]] + inner[1..][..k - 1];
  }

  /** An event in the buffer that stops the consumer excuses every chunk; any other changes nothing. */
  lemma SplitKeepsCompletes(s: State, interpret: Interpreter, stop: Stop)
    requires Split(s.buf).Some?
    ensures var (event, rest) := Split(s.buf).value;
            EveryChunkCompletes(s.buf, s.inner, interpret, stop)
            <==> stop(interpret(event)) || EveryChunkCompletes(rest, s.inner, interpret, stop)
  {
    var (event, rest) := Split(s.buf).value;
    forall k: nat | k < |s.inner|
      ensures CompletesEvent(s.buf, s.inner, interpret, stop, k)
         <==> stop(interpret(event)) || CompletesEvent(rest, s.inner, interpret, stop, k)
    {
      EventsSplit(s.buf, Arriving(s.inner[..k]), interpret);
      EventsSplit(s.buf, Arriving(s.inner[..k + 1]), interpret);
      MeetsFirst(interpret(event), Events(rest + Arriving(s.inner[..k]), interpret), stop);
    }
  }

  /** Taking in the first arrival does not change which later chunks complete events. */
  lemma ArrivalKeepsCompletes(buf: seq<byte>, inner: seq<Arrival>, interpret: Interpreter, stop: Stop, k: nat)
    requires inner != [] && !inner[0].Fault? && k < |inner| - 1
    ensures var got := if inner[0].Chunk? then inner[0].bytes else [];
            CompletesEvent(buf + got, inner[1..], interpret, stop, k) <==> CompletesEvent(buf, inner, interpret, stop, k + 1)
  {
    var got := if inner[0].Chunk? then inner[0].bytes else [];
    ArrivingTail(inner, k + 1);
    ArrivingTail(inner, k + 2);
    ConcatAssoc(buf, got, Arriving(inner[1..][..k]));
    ConcatAssoc(buf, got, Arriving(inner[1..][..k + 1]));
  }

  lemma FirstChunkCompletes(buf: seq<byte>, inner: seq<Arrival>, interpret: Interpreter, stop: Stop)
    requires Split(buf).None? && inner != [] && inner[0].Chunk?
    ensures CompletesEvent(buf, inner, interpret, stop, 0) <==> Split(buf + inner[0].bytes).Some?
  {
    assert inner[..1] == [inner[0]] && inner[..0] == [];
    assert inner[0].bytes + Arriving([]) == inner[0].bytes && buf + [] == buf;
    assert Arriving(inner[..1]) == inner[0].bytes;
  }

  lemma AfterFirst(buf: seq<byte>, inner: seq<Arrival>, interpret: Interpreter, stop: Stop)
    requires inner != [] && !inner[0].Fault?
    ensures var got := if inner[0].Chunk? then inner[0].bytes else [];
            EveryChunkCompletes(buf, inner, interpret, stop) <==>
              CompletesEvent(buf, inner, interpret, stop, 0) && EveryChunkCompletes(buf + got, inner[1..], interpret, stop)
  {
    var got := if inner[0].Chunk? then inner[0].bytes else [];
    forall k: nat | k < |inner| - 1
      ensures CompletesEvent(buf + got, inner[1..], interpret, stop, k) <==> CompletesEvent(buf, inner, interpret, stop, k + 1)
    {
      ArrivalKeepsCompletes(buf, inner, interpret, stop, k);
    }
    if CompletesEvent(buf, inner, interpret, stop, 0) && EveryChunkCompletes(buf + got, inner[1..], interpret, stop) {
      forall k: nat | k < |inner| ensures CompletesEvent(buf, inner, interpret, stop, k) {
        if k > 0 {
          assert CompletesEvent(buf + got, inner[1..], interpret, stop, k - 1);
        }
      }
    }
    if EveryChunkCompletes(buf, inner, interpret, stop) {
      forall k: nat | k < |inner| - 1 ensures CompletesEvent(buf + got, inner[1..], interpret, stop, k) {
        assert CompletesEvent(buf, inner, interpret, stop, k + 1);
      }
    }
  }

  lemma FaultEndsArrivals(buf: seq<byte>, inner: seq<Arrival>, interpret: Interpreter, stop: Stop)
    requires inner != [] && inner[0].Fault?
    ensures EveryChunkCompletes(buf, inner, interpret, stop)
  {
    forall k: nat | k < |inner| ensures CompletesEvent(buf, inner, interpret, stop, k) {
      if k > 0 {
        assert inner[..k][0] == Fault;
      }
    }
  }

  /** The consumer gets to its stop or to the end. */
  ghost predicate Finishes(s: State, interpret: Interpreter, stop: Stop) {
    var (items, ends) := Awaited(s, interpret);
    ends || Meets(items, stop)
  }

  lemma FinishesAfter(s: State, interpret: Interpreter, stop: Stop, item: EventResult)
    requires !s.done && PollStep(s, interpret).0 == Ready(Some(item))
    ensures Finishes(s, interpret, stop) <==> stop(item) || Finishes(PollStep(s, interpret).1, interpret, stop)
  {
    PollProgresses(s, interpret);
    MeetsFirst(item, Awaited(PollStep(s, interpret).1, interpret).0, stop);
  }

  /** The lost wake-up, exactly: a consumer that is polled again only after a wake gets to its stop
      or to the end exactly when every chunk that arrives before a fault and before the event it
      stops at completes an event as it arrives. */
  lemma {:induction false} FinishesExact(s: State, interpret: Interpreter, stop: Stop)
    requires !s.done
    ensures Finishes(s, interpret, stop) <==> EveryChunkCompletes(s.buf, s.inner, interpret, stop)
    decreases Remaining(s)
  {
    var (r, s') := PollStep(s, interpret);
    PollProgresses(s, interpret);
    if Split(s.buf).Some? {
      FinishesExact(s', interpret, stop);
      SplitKeepsCompletes(s, interpret, stop);
      FinishesAfter(s, interpret, stop, r.item.value);
    } else if s.inner != [] {
      match s.inner[0]
      case NotReady =>
        FinishesExact(s', interpret, stop);
        AfterFirst(s.buf, s.inner, interpret, stop);
        assert s.buf + [] == s.buf;
      case Fault =>
        FaultEndsArrivals(s.buf, s.inner, interpret, stop);
        assert Awaited(s', interpret) == ([], true);
      case Chunk(bytes) =>
        FirstChunkCompletes(s.buf, s.inner, interpret, stop);
        AfterFirst(s.buf, s.inner, interpret, stop);
        if Split(s.buf + bytes).Some? {
          FinishesExact(s', interpret, stop);
          SplitKeepsCompletes(State(s.buf + bytes, s.inner[1..], false), interpret, stop);
          FinishesAfter(s, interpret, stop, r.item.value);
        }
    }
  }

  /** What is awaited is a prefix of what is outstanding, and all of it when the end is reached. */
  lemma {:induction false} AwaitedPrefix(s: State, interpret: Interpreter)
    ensures var (items, ends) := Awaited(s, interpret);
            items <= Outstanding(s, interpret) && (ends ==> items == Outstanding(s, interpret))
    decreases Remaining(s)
  {
    if !s.done {
      var (r, s') := PollStep(s, interpret);
      PollYieldsOutstanding(s, interpret);
      PollProgresses(s, interpret);
      if (r.Ready? && r.item.Some?) || (r.Pending? && s.inner[0].NotReady?) {
        AwaitedPrefix(s', interpret);
      }
    }
  }

  /** A consumer that asks until the end gets a prefix of the items, and the end with all of them
      exactly when every chunk before a fault completes an event as it arrives. */
  lemma AwaitedExact(s: State, interpret: Interpreter)
    requires !s.done
    ensures var (items, ends) := Awaited(s, interpret);
            && items <= Outstanding(s, interpret)
            && (ends ==> items == Outstanding(s, interpret))
            && (ends <==>
                  forall k: nat | k < |s.inner| && s.inner[k].Chunk? && Fault !in s.inner[..k] ::
                    |Events(s.buf + Arriving(s.inner[..k]), interpret)| < |Events(s.buf + Arriving(s.inner[..k + 1]), interpret)|)
  {
    AwaitedPrefix(s, interpret);
    FinishesExact(s, interpret, NEVER);
    forall k: nat | k < |s.inner|
      ensures CompletesEvent(s.buf, s.inner, interpret, NEVER, k) <==>
                (s.inner[k].Chunk? && Fault !in s.inner[..k] ==>
                   |Events(s.buf + Arriving(s.inner[..k]), interpret)| < |Events(s.buf + Arriving(s.inner[..k + 1]), interpret)|)
    {
    }
  }

  /** A first chunk that completes no event is the last an awaiting consumer sees of the stream. */
  lemma CutEventIsLost(part: seq<byte>, more: seq<Arrival>, interpret: Interpreter)
    requires Split(part).None?
    ensures Awaited(State([], [Chunk(part)] + more, false), interpret) == ([], false)
  {
    var inner := [Chunk(part)] + more;
    assert inner[0] == Chunk(part) && [] + part == part;
    assert Split([]).None?;
  }

  /** So one event, cut once in front of its delimiter, is outstanding and never delivered. */
  lemma CutBeforeDelimiter(x: byte, interpret: Interpreter)
    requires x != LF && x != CR
    ensures var s := State([], [Chunk([x]), Chunk([LF, LF])], false);
            Awaited(s, interpret) == ([], false) && Outstanding(s, interpret) == [interpret([x])]
  {
    var first, second := Chunk([x]), Chunk([LF, LF]);
    assert [first, second] == [first] + [second];
    CutEventIsLost([x], [second], interpret);
    assert Arriving([second]) == [LF, LF] + Arriving([]) == [LF, LF];
    assert [first, second][1..] == [second];
    assert Arriving([first, second]) == [x] + [LF, LF];
    SplitExact([x] + [LF, LF], [x], []);
    assert [x] + [LF, LF] == [x] + [LF, LF] + [];
    assert [] + ([x] + [LF, LF]) == [x] + [LF, LF];
    assert Events([], interpret) == [];
  }
}
