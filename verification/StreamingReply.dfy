/** The throttled relay of a streamed reply (`run_streaming_reply` in guyos_core/src/llm.rs). */
module StreamingReply {
  import opened Prelude
  import opened Sse
  import Utf8

  /** A message given to the chat: a marked partial, or the unmarked whole. */
  datatype Sent = Partial(payload: string) | Whole(payload: string) {
    function Text(): string {
      if Partial? then "(partial) " + payload else payload
    }
  }

  function Texts(log: seq<Sent>): seq<string> {
    seq(|log|, i requires 0 <= i < |log| => log[i].Text())
  }

  /** The outcome of the timer test at each delta. */
  type Timer = nat -> bool

  predicate Stops(item: EventResult) {
    item.Err? || item.value.Done?
  }

  /** What the loop sends and what it still holds at its end, from the `i`-th delta on. */
  function Relay(items: seq<EventResult>, timer: Timer, i: nat, acc: string, minBytes: nat): (seq<Sent>, string) {
    if items == [] || Stops(items[0]) then ([], acc)
    else
      var acc' := acc + items[0].value.text;
      if Utf8.Len(acc') >= minBytes && timer(i) then
        var (log, rest) := Relay(items[1..], timer, i + 1, "", minBytes);
        ([Partial(acc')] + log, rest)
      else
        Relay(items[1..], timer, i + 1, acc', minBytes)
  }

  /** The error the stream fails with before it says `Done`. */
  function Failure(items: seq<EventResult>): Option<StreamError> {
    if items == [] then None
    else if items[0].Err? then Some(items[0].error)
    else if items[0].value.Done? then None
    else Failure(items[1..])
  }

  /** The flush after the loop. */
  function Flush(log: seq<Sent>, rest: string): seq<Sent> {
    if rest == "" then log else log + [if log == [] then Whole(rest) else Partial(rest)]
  }

  /** The whole reply: what is sent for a stream of items. */
  function Reply(items: seq<EventResult>, timer: Timer, minBytes: nat): seq<Sent> {
    var (log, rest) := Relay(items, timer, 0, "", minBytes);
    if Failure(items).Some? then log else Flush(log, rest)
  }

  // ---- The loop against its specification ----------------------------------------------------

  /** After `i` deltas, with `left` still to come, `log` sent and `acc` held back, the loop is on
      its way to the reply to `all`. */
  ghost predicate InStep(all: seq<EventResult>, left: seq<EventResult>, timer: Timer, i: nat, log: seq<Sent>, acc: string,
                         minBytes: nat)
  {
    var (more, rest) := Relay(left, timer, i, acc, minBytes);
    Relay(all, timer, 0, "", minBytes) == (log + more, rest) && Failure(all) == Failure(left)
  }

  lemma StartInStep(all: seq<EventResult>, timer: Timer, minBytes: nat)
    ensures InStep(all, all, timer, 0, [], "", minBytes)
  {
    var log := Relay(all, timer, 0, "", minBytes).0;
    assert [] + log == log;
  }

  lemma DeltaKeepsStep(all: seq<EventResult>, text: string, left: seq<EventResult>, timer: Timer, i: nat, log: seq<Sent>,
                       acc: string, minBytes: nat)
    requires InStep(all, [Ok(DeltaText(text))] + left, timer, i, log, acc, minBytes)
    ensures if Utf8.Len(acc + text) >= minBytes && timer(i)
            then InStep(all, left, timer, i + 1, log + [Partial(acc + text)], "", minBytes)
            else InStep(all, left, timer, i + 1, log, acc + text, minBytes)
  {
    var items: seq<EventResult> := [Ok(DeltaText(text))] + left;
    assert items[1..] == left;
    ConcatAssoc(log, [Partial(acc + text)], Relay(left, timer, i + 1, "", minBytes).0);
  }

  lemma StopInStep(all: seq<EventResult>, left: seq<EventResult>, timer: Timer, i: nat, log: seq<Sent>, acc: string,
                   minBytes: nat)
    requires InStep(all, left, timer, i, log, acc, minBytes) && (left == [] || Stops(left[0]))
    ensures Failure(all) == if left != [] && left[0].Err? then Some(left[0].error) else None
    ensures Reply(all, timer, minBytes) == if Failure(all).Some? then log else Flush(log, acc)
  {
    assert log + [] == log;
  }

  lemma TextsSnoc(log: seq<Sent>, s: Sent)
    ensures Texts(log + [s]) == Texts(log) + [s.Text()]
  {
  }

  /** Pending polls are repeated, as in `Next`; `AwaitedReply` says what an awaiting loop sends. */
  method RunStreamingReply(stream: SseStream, timer: Timer, minBytes: nat)
    returns (chat: seq<string>, r: Result<(), StreamError>)
    modifies stream
    ensures chat == Texts(Reply(old(stream.Left()), timer, minBytes))
    ensures r == match Failure(old(stream.Left())) case None => Ok(()) case Some(e) => Err(e)
  {
    ghost var all, log := stream.Left(), [];
    chat := [];
    var acc, sentAnyPartial, i := "", false, 0;
    StartInStep(all, timer, minBytes);
    while true
      invariant chat == Texts(log) && sentAnyPartial == (log != [])
      invariant InStep(all, stream.Left(), timer, i, log, acc, minBytes)
      decreases Remaining(stream.Value())
    {
      ghost var before := stream.Left();
      var next := stream.Next();
      if next.None? {
        StopInStep(all, before, timer, i, log, acc, minBytes);
        break;
      }
      var ev := next.value;
      if ev.Err? {
        StopInStep(all, before, timer, i, log, acc, minBytes);
        return chat, Err(ev.error);
      }
      if ev.value.Done? {
        StopInStep(all, before, timer, i, log, acc, minBytes);
        break;
      }
      DeltaKeepsStep(all, ev.value.text, stream.Left(), timer, i, log, acc, minBytes);
      acc := acc + ev.value.text;
      if Utf8.Len(acc) >= minBytes && timer(i) {
        var partial := acc;
        acc := "";
        sentAnyPartial := true;
        TextsSnoc(log, Partial(partial));
        log := log + [Partial(partial)];
        chat := chat + ["(partial) " + partial];
      }
      i := i + 1;
    }
    if acc != "" {
      TextsSnoc(log, if sentAnyPartial then Partial(acc) else Whole(acc));
      if sentAnyPartial {
        chat := chat + ["(partial) " + acc];
      } else {
        chat := chat + [acc];
      }
    }
    r := Ok(());
  }

  // ---- Conservation of text ------------------------------------------------------------------

  function Payloads(log: seq<Sent>): string {
    if log == [] then "" else log[0].payload + Payloads(log[1..])
  }

  /** The deltas before the first `Done` or error, joined. */
  function DeltasBeforeStop(items: seq<EventResult>): string {
    if items == [] || Stops(items[0]) then "" else items[0].value.text + DeltasBeforeStop(items[1..])
  }

  /** All partials, each long enough to have been sent inside the loop. */
  ghost predicate LongPartials(log: seq<Sent>, minBytes: nat) {
    forall i | 0 <= i < |log| :: log[i].Partial? && Utf8.Len(log[i].payload) >= minBytes
  }

  lemma {:induction false} PayloadsAppend(a: seq<Sent>, b: seq<Sent>)
    ensures Payloads(a + b) == Payloads(a) + Payloads(b)
  {
    if a == [] {
      assert a + b == b;
    } else {
      PayloadsAppend(a[1..], b);
      assert (a + b)[1..] == a[1..] + b;
      ConcatAssoc(a[0].payload, Payloads(a[1..]), Payloads(b));
    }
  }

  /** The loop keeps every delta, in order: what it sent and what it holds. */
  lemma {:induction false} RelayConserves(items: seq<EventResult>, timer: Timer, i: nat, acc: string, minBytes: nat)
    ensures var (log, rest) := Relay(items, timer, i, acc, minBytes);
            Payloads(log) + rest == acc + DeltasBeforeStop(items) && LongPartials(log, minBytes)
  {
    var (log, rest) := Relay(items, timer, i, acc, minBytes);
    if items == [] || Stops(items[0]) {
      assert "" + rest == rest == acc + "";
    } else {
      var acc' := acc + items[0].value.text;
      ConcatAssoc(acc, items[0].value.text, DeltasBeforeStop(items[1..]));
      if Utf8.Len(acc') >= minBytes && timer(i) {
        RelayConserves(items[1..], timer, i + 1, "", minBytes);
        var (tail, _) := Relay(items[1..], timer, i + 1, "", minBytes);
        assert log[1..] == tail;
        ConcatAssoc(acc', Payloads(tail), rest);
        assert "" + DeltasBeforeStop(items[1..]) == DeltasBeforeStop(items[1..]);
      } else {
        RelayConserves(items[1..], timer, i + 1, acc', minBytes);
      }
    }
  }

  /** Conservation: whatever the timer does, a reply that does not fail carries every delta before
      the stop, in order, once; one that fails carries a prefix of them. */
  lemma ReplyConserves(items: seq<EventResult>, timer: Timer, minBytes: nat)
    ensures Failure(items).None? ==> Payloads(Reply(items, timer, minBytes)) == DeltasBeforeStop(items)
    ensures Failure(items).Some? ==> Payloads(Reply(items, timer, minBytes)) <= DeltasBeforeStop(items)
  {
    RelayConserves(items, timer, 0, "", minBytes);
    var (log, rest) := Relay(items, timer, 0, "", minBytes);
    assert "" + DeltasBeforeStop(items) == DeltasBeforeStop(items);
    var last := if log == [] then Whole(rest) else Partial(rest);
    PayloadsAppend(log, [last]);
    assert Payloads([last]) == rest + Payloads([]);
  }

  /** The shape of a reply: an unmarked message is the only one and is never empty; every partial
      but a last flush has at least `minBytes` bytes; a failed reply flushes nothing. */
  lemma ReplyShape(items: seq<EventResult>, timer: Timer, minBytes: nat, k: nat)
    requires k < |Reply(items, timer, minBytes)|
    ensures var log := Reply(items, timer, minBytes);
            && (log[k].Whole? ==> |log| == 1 && log[k].payload != "" && Failure(items).None?)
            && (log[k].Partial? && Utf8.Len(log[k].payload) < minBytes ==>
                  k == |log| - 1 && log[k].payload != "" && Failure(items).None?)
  {
    RelayConserves(items, timer, 0, "", minBytes);
  }

  // ---- The messages of the chat --------------------------------------------------------------

  /** The deltas before the first `Done` or error. */
  function Deltas(items: seq<EventResult>): seq<string> {
    if items == [] || Stops(items[0]) then [] else [items[0].value.text] + Deltas(items[1..])
  }

  lemma {:induction false} DeltasJoined(items: seq<EventResult>)
    ensures Flatten(Deltas(items)) == DeltasBeforeStop(items)
  {
    if items != [] && !Stops(items[0]) {
      DeltasJoined(items[1..]);
      assert Deltas(items)[1..] == Deltas(items[1..]);
    }
  }

  /** The condition to send at delta `i`, when everything before delta `from` is sent. */
  predicate SendsAt(deltas: seq<string>, timer: Timer, minBytes: nat, from: nat, i: nat) {
    from <= i < |deltas| && timer(i) && Utf8.Len(Flatten(deltas[from..i + 1])) >= minBytes
  }

  ghost predicate NoneSends(deltas: seq<string>, timer: Timer, minBytes: nat, from: nat, to: nat) {
    forall i: nat | from <= i < to :: !SendsAt(deltas, timer, minBytes, from, i)
  }

  /** From delta `from` on, `cuts` are the deltas at which the condition to send is met, each the
      first one after the cut before it and none after the last, and `shares` are the texts between
      the cuts, the last of them what is left over. */
  ghost predicate CutInto(deltas: seq<string>, timer: Timer, minBytes: nat, from: nat, cuts: seq<nat>, shares: seq<string>)
    decreases |cuts|
  {
    && from <= |deltas| && |shares| == |cuts| + 1
    && if cuts == [] then
         NoneSends(deltas, timer, minBytes, from, |deltas|) && shares[0] == Flatten(deltas[from..])
       else
         && SendsAt(deltas, timer, minBytes, from, cuts[0]) && NoneSends(deltas, timer, minBytes, from, cuts[0])
         && shares[0] == Flatten(deltas[from..cuts[0] + 1])
         && CutInto(deltas, timer, minBytes, cuts[0] + 1, cuts[1..], shares[1..])
  }

  /** The loop sends all shares but the last and holds the last. */
  ghost predicate SentShares(shares: seq<string>, log: seq<Sent>, rest: string) {
    && |shares| == |log| + 1 && rest == shares[|log|]
    && forall j | 0 <= j < |log| :: log[j] == Partial(shares[j])
  }

  lemma ShareFirst(share: string, shares: seq<string>, log: seq<Sent>, rest: string)
    requires SentShares(shares, log, rest)
    ensures SentShares([share] + shares, [Partial(share)] + log, rest)
  {
  }

  lemma CutFirst(deltas: seq<string>, timer: Timer, minBytes: nat, from: nat, i: nat, cuts: seq<nat>, shares: seq<string>)
    requires SendsAt(deltas, timer, minBytes, from, i) && NoneSends(deltas, timer, minBytes, from, i)
    requires CutInto(deltas, timer, minBytes, i + 1, cuts, shares)
    ensures CutInto(deltas, timer, minBytes, from, [i] + cuts, [Flatten(deltas[from..i + 1])] + shares)
  {
    assert ([i] + cuts)[1..] == cuts;
    assert ([Flatten(deltas[from..i + 1])] + shares)[1..] == shares;
  }

  lemma NextDelta(items: seq<EventResult>, deltas: seq<string>, from: nat, i: nat)
    requires from <= i <= |deltas| && Deltas(items) == deltas[i..] && items != [] && !Stops(items[0])
    ensures i < |deltas| && Deltas(items[1..]) == deltas[i + 1..]
    ensures Flatten(deltas[from..i]) + items[0].value.text == Flatten(deltas[from..i + 1])
  {
    assert deltas[i] == deltas[i..][0] == items[0].value.text;
    assert Deltas(items[1..]) == deltas[i..][1..] == deltas[i + 1..];
    assert deltas[from..i + 1] == deltas[from..i] + [deltas[i]];
    FlattenSnoc(deltas[from..i], deltas[i]);
  }

  lemma NoneSendsNext(deltas: seq<string>, timer: Timer, minBytes: nat, from: nat, i: nat)
    requires NoneSends(deltas, timer, minBytes, from, i) && !SendsAt(deltas, timer, minBytes, from, i)
    ensures NoneSends(deltas, timer, minBytes, from, i + 1)
  {
  }

  /** One turn of the loop. */
  lemma RelayTurn(items: seq<EventResult>, timer: Timer, i: nat, acc: string, minBytes: nat)
    requires items != [] && !Stops(items[0])
    ensures var acc' := acc + items[0].value.text;
            Relay(items, timer, i, acc, minBytes) ==
              if Utf8.Len(acc') >= minBytes && timer(i) then
                var (log, rest) := Relay(items[1..], timer, i + 1, "", minBytes);
                ([Partial(acc')] + log, rest)
              else Relay(items[1..], timer, i + 1, acc', minBytes)
  {
  }

  /** The loop cuts the deltas exactly where the condition to send is met. */
  lemma {:induction false} RelayCuts(items: seq<EventResult>, deltas: seq<string>, timer: Timer, i: nat, from: nat, acc: string,
                                     minBytes: nat)
    returns (cuts: seq<nat>, shares: seq<string>)
    requires from <= i <= |deltas| && Deltas(items) == deltas[i..] && acc == Flatten(deltas[from..i])
    requires NoneSends(deltas, timer, minBytes, from, i)
    ensures CutInto(deltas, timer, minBytes, from, cuts, shares)
    ensures var (log, rest) := Relay(items, timer, i, acc, minBytes); SentShares(shares, log, rest)
    decreases |items|, 0
  {
    if items == [] || Stops(items[0]) {
      cuts, shares := [], [acc];
      assert deltas[from..i] == deltas[from..];
    } else {
      NextDelta(items, deltas, from, i);
      RelayTurn(items, timer, i, acc, minBytes);
      var acc' := acc + items[0].value.text;
      if SendsAt(deltas, timer, minBytes, from, i) {
        var (log, rest) := Relay(items[1..], timer, i + 1, "", minBytes);
        var later, others := CutsAfterSend(items[1..], deltas, timer, i + 1, minBytes);
        CutFirst(deltas, timer, minBytes, from, i, later, others);
        ShareFirst(acc', others, log, rest);
        cuts, shares := [i] + later, [acc'] + others;
      } else {
        NoneSendsNext(deltas, timer, minBytes, from, i);
        cuts, shares := RelayCuts(items[1..], deltas, timer, i + 1, from, acc', minBytes);
      }
    }
  }

  lemma {:induction false} CutsAfterSend(items: seq<EventResult>, deltas: seq<string>, timer: Timer, i: nat, minBytes: nat)
    returns (cuts: seq<nat>, shares: seq<string>)
    requires i <= |deltas| && Deltas(items) == deltas[i..]
    ensures CutInto(deltas, timer, minBytes, i, cuts, shares)
    ensures var (log, rest) := Relay(items, timer, i, "", minBytes); SentShares(shares, log, rest)
    decreases |items|, 1
  {
    assert deltas[i..i] == [];
    cuts, shares := RelayCuts(items, deltas, timer, i, i, "", minBytes);
  }

  /** `chat` is what is sent for these shares: each but the last marked; then the last, unless the
      stream failed or nothing is left, marked exactly when it is not alone. */
  ghost predicate IsChat(chat: seq<string>, shares: seq<string>, fails: bool) {
    && shares != []
    && var n, rest := |shares| - 1, shares[|shares| - 1];
    && |chat| == n + (if fails || rest == "" then 0 else 1)
    && (forall j | 0 <= j < n :: chat[j] == "(partial) " + shares[j])
    && (|chat| > n ==> chat[n] == if n == 0 then rest else "(partial) " + rest)
  }

  /** The strings given to the chat, in full: the deltas are cut exactly where the timer has run and
      enough text is held back, and the chat gets the shares. */
  lemma ChatExact(items: seq<EventResult>, timer: Timer, minBytes: nat) returns (cuts: seq<nat>, shares: seq<string>)
    ensures CutInto(Deltas(items), timer, minBytes, 0, cuts, shares)
    ensures IsChat(Texts(Reply(items, timer, minBytes)), shares, Failure(items).Some?)
  {
    var deltas := Deltas(items);
    assert deltas[0..0] == [] && deltas[0..] == deltas;
    cuts, shares := RelayCuts(items, deltas, timer, 0, 0, "", minBytes);
  }

  lemma NoCuts(deltas: seq<string>, timer: Timer, minBytes: nat, cuts: seq<nat>, shares: seq<string>)
    requires CutInto(deltas, timer, minBytes, 0, cuts, shares)
    ensures cuts == [] <==> NoneSends(deltas, timer, minBytes, 0, |deltas|)
    ensures cuts == [] ==> shares == [Flatten(deltas)]
  {
    assert deltas[0..] == deltas;
  }

  /** A reply in which the condition to send is never met is one message, all of it and unmarked. */
  lemma UncutReplyIsOneMessage(items: seq<EventResult>, timer: Timer, minBytes: nat)
    requires NoneSends(Deltas(items), timer, minBytes, 0, |Deltas(items)|) && Failure(items).None?
    ensures Texts(Reply(items, timer, minBytes)) == if DeltasBeforeStop(items) == "" then [] else [DeltasBeforeStop(items)]
  {
    var cuts, shares := ChatExact(items, timer, minBytes);
    NoCuts(Deltas(items), timer, minBytes, cuts, shares);
    DeltasJoined(items);
  }

  /** In any other reply, and in one that fails, every message is marked. */
  lemma CutReplyIsMarked(items: seq<EventResult>, timer: Timer, minBytes: nat, k: nat)
    requires !NoneSends(Deltas(items), timer, minBytes, 0, |Deltas(items)|) || Failure(items).Some?
    requires k < |Texts(Reply(items, timer, minBytes))|
    ensures "(partial) " <= Texts(Reply(items, timer, minBytes))[k]
  {
    var cuts, shares := ChatExact(items, timer, minBytes);
    NoCuts(Deltas(items), timer, minBytes, cuts, shares);
    MarkedShare(Texts(Reply(items, timer, minBytes)), shares, Failure(items).Some?, k);
  }

  lemma MarkedShare(chat: seq<string>, shares: seq<string>, fails: bool, k: nat)
    requires IsChat(chat, shares, fails) && (|shares| > 1 || fails) && k < |chat|
    ensures "(partial) " <= chat[k]
  {
  }

  /** Deltas before position `k`, and there the error. */
  ghost predicate FailsAt(items: seq<EventResult>, k: nat, e: StreamError) {
    k < |items| && items[k] == Err(e) && forall i | 0 <= i < k :: items[i].Ok? && items[i].value.DeltaText?
  }

  lemma FailsAtTail(items: seq<EventResult>, k: nat, e: StreamError)
    requires items != []
    ensures FailsAt(items, k + 1, e) <==> items[0].Ok? && items[0].value.DeltaText? && FailsAt(items[1..], k, e)
  {
    var tail := items[1..];
    if FailsAt(items, k + 1, e) {
      assert forall i | 0 <= i < k :: tail[i] == items[i + 1];
    }
    if items[0].Ok? && items[0].value.DeltaText? && FailsAt(tail, k, e) {
      assert forall i | 0 < i < k + 1 :: items[i] == tail[i - 1];
    }
  }

  /** The reply fails with the error that comes after deltas only, if there is one. */
  lemma {:induction false} FailureExact(items: seq<EventResult>, e: StreamError)
    ensures Failure(items) == Some(e) <==> exists k: nat :: FailsAt(items, k, e)
  {
    if items != [] {
      FailureExact(items[1..], e);
      if items[0].Err? {
        assert items[0].error == e ==> FailsAt(items, 0, e);
      } else {
        forall k: nat ensures FailsAt(items, k + 1, e) <==> items[0].value.DeltaText? && FailsAt(items[1..], k, e) {
          FailsAtTail(items, k, e);
        }
        forall k: nat | FailsAt(items, k, e) ensures k > 0 && FailsAt(items[1..], k - 1, e) {
          FailsAtTail(items, k - 1, e);
        }
      }
    }
  }

  // ---- The awaiting loop -----------------------------------------------------------------------

  ghost predicate StopsWithin(items: seq<EventResult>) {
    Meets(items, Stops)
  }

  /** Items after a prefix add to what the loop sends, and after a stop they do not matter. */
  lemma {:induction false} RelayOfPrefix(items: seq<EventResult>, all: seq<EventResult>, timer: Timer, i: nat, acc: string,
                                         minBytes: nat)
    requires items <= all
    ensures Relay(items, timer, i, acc, minBytes).0 <= Relay(all, timer, i, acc, minBytes).0
    ensures StopsWithin(items) ==>
              Relay(items, timer, i, acc, minBytes) == Relay(all, timer, i, acc, minBytes) && Failure(items) == Failure(all)
  {
    if items != [] && !Stops(items[0]) {
      if StopsWithin(items) {
        var k :| 0 <= k < |items| && Stops(items[k]);
        assert Stops(items[1..][k - 1]);
      }
      var acc' := acc + items[0].value.text;
      assert items[0] == all[0] && items[1..] <= all[1..];
      RelayOfPrefix(items[1..], all[1..], timer, i + 1,
                    if Utf8.Len(acc') >= minBytes && timer(i) then "" else acc', minBytes);
    }
  }

  /** A reply whose loop is polled again only after a wake: it finishes exactly when every chunk that
      arrives before a fault and before the events hold a `Done` or an error completes an event as
      it arrives. If it finishes it has sent the whole reply; if it hangs, a prefix of it. */
  lemma AwaitedReply(s: State, interpret: Interpreter, timer: Timer, minBytes: nat)
    requires !s.done
    ensures var (items, ends) := Awaited(s, interpret);
            var finishes := ends || StopsWithin(items);
            && (finishes <==>
                  forall k: nat | k < |s.inner| && s.inner[k].Chunk? && Fault !in s.inner[..k]
                                  && !StopsWithin(Events(s.buf + Arriving(s.inner[..k]), interpret)) ::
                    |Events(s.buf + Arriving(s.inner[..k]), interpret)| < |Events(s.buf + Arriving(s.inner[..k + 1]), interpret)|)
            && (finishes ==>
                  && Reply(items, timer, minBytes) == Reply(Outstanding(s, interpret), timer, minBytes)
                  && Failure(items) == Failure(Outstanding(s, interpret)))
            && Relay(items, timer, 0, "", minBytes).0 <= Reply(Outstanding(s, interpret), timer, minBytes)
  {
    AwaitedPrefix(s, interpret);
    FinishesExact(s, interpret, Stops);
    forall k: nat | k < |s.inner|
      ensures CompletesEvent(s.buf, s.inner, interpret, Stops, k) <==>
                (s.inner[k].Chunk? && Fault !in s.inner[..k]
                 && !StopsWithin(Events(s.buf + Arriving(s.inner[..k]), interpret)) ==>
                   |Events(s.buf + Arriving(s.inner[..k]), interpret)| < |Events(s.buf + Arriving(s.inner[..k + 1]), interpret)|)
    {
    }
    RelayOfPrefix(Awaited(s, interpret).0, Outstanding(s, interpret), timer, 0, "", minBytes);
  }
}
