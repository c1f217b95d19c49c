/** What cannot influence what: rooms do not influence each other, and rejected publishes
    influence nothing. */
module HubIsolation {
  import opened Prelude
  import opened WireAttach
  import opened WireMessages
  import opened PublishLedger
  import opened HubDispatch
  import opened HubRuns

  // ---- Sessions ------------------------------------------------------------------------------

  /** A connection's next session does not depend on the ledger, and is final once attached. */
  lemma HandleSession(session: Session, msg: Message, policy: AttachPolicy, verify: Verifier, rooms: Rooms, rooms': Rooms)
    ensures Handle(session, msg, policy, verify, rooms).0 == Handle(session, msg, policy, verify, rooms').0
    ensures session.Attached? ==> Handle(session, msg, policy, verify, rooms).0 == session
  {
  }

  lemma StepSessions(hub: Hub, e: Event, conn: Conn)
    ensures SessionOf(Step(hub, e).0, conn) ==
            if conn == e.conn then Handle(SessionOf(hub, conn), e.msg, e.policy, e.verify, hub.rooms).0
            else SessionOf(hub, conn)
  {
  }

  /** Once attached, a session keeps its room and limits for the rest of the run. */
  lemma {:induction false} AttachedForGood(events: seq<Event>, k: nat, conn: Conn)
    requires k <= |events| && SessionOf(HubAfter(events[..k]), conn).Attached?
    ensures SessionOf(HubAfter(events), conn) == SessionOf(HubAfter(events[..k]), conn)
  {
    if k == |events| {
      assert events[..k] == events;
    } else {
      var init, last := events[..|events| - 1], events[|events| - 1];
      assert init[..k] == events[..k];
      AttachedForGood(init, k, conn);
      StepSessions(HubAfter(init), last, conn);
    }
  }

  // ---- Rooms do not interfere ----------------------------------------------------------------

  /** The events of the chosen connections alone. */
  function Only(events: seq<Event>, conns: set<Conn>): seq<Event> {
    if events == [] then []
    else
      var init, last := events[..|events| - 1], events[|events| - 1];
      if last.conn in conns then Only(init, conns) + [last] else Only(init, conns)
  }

  lemma {:induction false} OnlyKeepsSessions(events: seq<Event>, conns: set<Conn>, conn: Conn)
    requires conn in conns
    ensures SessionOf(HubAfter(Only(events, conns)), conn) == SessionOf(HubAfter(events), conn)
  {
    if events != [] {
      var init, last := events[..|events| - 1], events[|events| - 1];
      OnlyKeepsSessions(init, conns, conn);
      StepSessions(HubAfter(init), last, conn);
      if last.conn in conns {
        var kept := Only(events, conns);
        assert kept[..|kept| - 1] == Only(init, conns);
        StepSessions(HubAfter(Only(init, conns)), last, conn);
        HandleSession(SessionOf(HubAfter(init), conn), last.msg, last.policy, last.verify,
                      HubAfter(init).rooms, HubAfter(Only(init, conns)).rooms);
      }
    }
  }

  predicate InRoom(session: Session, room: string) {
    session.Attached? && session.roomId == room
  }

  ghost predicate CoversRoom(events: seq<Event>, conns: set<Conn>, room: string) {
    forall conn :: InRoom(SessionOf(HubAfter(events), conn), room) ==> conn in conns
  }

  lemma CoversPrefix(events: seq<Event>, conns: set<Conn>, room: string)
    requires events != [] && CoversRoom(events, conns, room)
    ensures CoversRoom(events[..|events| - 1], conns, room)
  {
    var init := events[..|events| - 1];
    forall conn | InRoom(SessionOf(HubAfter(init), conn), room) ensures conn in conns {
      AttachedForGood(events, |init|, conn);
    }
  }

  lemma {:induction false} OnlyKeepsAdmitted(events: seq<Event>, conns: set<Conn>, room: string)
    requires CoversRoom(events, conns, room)
    ensures AdmittedTo(Only(events, conns), room) == AdmittedTo(events, room)
  {
    if events != [] {
      var init, last := events[..|events| - 1], events[|events| - 1];
      CoversPrefix(events, conns, room);
      OnlyKeepsAdmitted(init, conns, room);
      if last.conn in conns {
        var kept := Only(events, conns);
        assert kept[..|kept| - 1] == Only(init, conns);
        OnlyKeepsSessions(init, conns, last.conn);
      } else {
        assert !InRoom(SessionOf(HubAfter(init), last.conn), room);
      }
    }
  }

  /** Room non-interference: delete every event of any connections that never join the room, and
      the room's shard, its fan-outs and every answer to its publishers are the same. */
  lemma RoomsDoNotInterfere(events: seq<Event>, conns: set<Conn>, room: string)
    requires CoversRoom(events, conns, room)
    ensures ShardOf(HubAfter(Only(events, conns)).rooms, room) == ShardOf(HubAfter(events).rooms, room)
    ensures FanOuts(Only(events, conns), room) == FanOuts(events, room)
    ensures AnswersIn(Only(events, conns), room) == AnswersIn(events, room)
  {
    OnlyKeepsAdmitted(events, conns, room);
    AnswersRefineList(events, room);
    AnswersRefineList(Only(events, conns), room);
    LedgerIsFirstOccurrences(events, room);
    LedgerIsFirstOccurrences(Only(events, conns), room);
    RepresentsUnique(ShardOf(HubAfter(Only(events, conns)).rooms, room), ShardOf(HubAfter(events).rooms, room),
                     Ids(FirstOccurrences(AdmittedTo(events, room))));
  }

  // ---- Rejected publishes are invisible ------------------------------------------------------

  /** A publish that is over the session's limit, or sent before the attach. */
  predicate Rejected(hub: Hub, e: Event) {
    e.msg.PublishMsg? && Admitted(hub, e).None?
  }

  lemma RejectedStep(hub: Hub, e: Event)
    requires Rejected(hub, e)
    ensures Step(hub, e).0 == hub
    ensures Step(hub, e).1.Reply? && Step(hub, e).1.msg.ErrorMsg?
    ensures Step(hub, e).1.msg.envelope.code ==
            if SessionOf(hub, e.conn).AwaitingAttach? then "attach_required" else "message_too_large"
  {
  }

  /** The events of a run whose positions are not dropped. */
  function Without(events: seq<Event>, dropped: nat -> bool): seq<Event> {
    if events == [] then []
    else
      var init := Without(events[..|events| - 1], dropped);
      if dropped(|events| - 1) then init else init + [events[|events| - 1]]
  }

  ghost predicate DropsRejected(events: seq<Event>, dropped: nat -> bool) {
    forall k: nat | k < |events| && dropped(k) :: Rejected(HubAfter(events[..k]), events[k])
  }

  lemma SameStep(a: seq<Event>, b: seq<Event>, e: Event)
    requires HubAfter(a) == HubAfter(b)
    ensures HubAfter(a + [e]) == HubAfter(b + [e])
  {
    assert (a + [e])[..|a|] == a && (b + [e])[..|b|] == b;
  }

  lemma RejectedLast(a: seq<Event>, e: Event)
    requires Rejected(HubAfter(a), e)
    ensures HubAfter(a + [e]) == HubAfter(a)
  {
    assert (a + [e])[..|a|] == a;
    RejectedStep(HubAfter(a), e);
  }

  lemma {:induction false} WithoutRejected(events: seq<Event>, dropped: nat -> bool)
    requires DropsRejected(events, dropped)
    ensures HubAfter(Without(events, dropped)) == HubAfter(events)
  {
    if events != [] {
      var n := |events| - 1;
      var init, last := events[..n], events[n];
      assert events == init + [last];
      DropsRejectedBefore(events, dropped, n);
      WithoutRejected(init, dropped);
      if dropped(n) {
        RejectedLast(init, last);
      } else {
        SameStep(Without(init, dropped), init, last);
      }
    }
  }

  lemma {:induction false} WithoutGrows(events: seq<Event>, dropped: nat -> bool, k: nat)
    requires k <= |events|
    ensures Without(events[..k], dropped) <= Without(events, dropped)
  {
    if k == |events| {
      assert events[..k] == events;
    } else {
      var init := events[..|events| - 1];
      WithoutGrows(init, dropped, k);
      assert init[..k] == events[..k];
    }
  }

  lemma DropsRejectedBefore(events: seq<Event>, dropped: nat -> bool, n: nat)
    requires DropsRejected(events, dropped) && n <= |events|
    ensures DropsRejected(events[..n], dropped)
  {
    forall j: nat | j < n && dropped(j) ensures Rejected(HubAfter(events[..n][..j]), events[..n][j]) {
      assert events[..n][..j] == events[..j];
    }
  }

  lemma KeptEvent(events: seq<Event>, dropped: nat -> bool, k: nat)
    requires k < |events| && !dropped(k)
    ensures Without(events[..k], dropped) + [events[k]] <= Without(events, dropped)
  {
    assert events[..k + 1][..k] == events[..k];
    WithoutGrows(events, dropped, k + 1);
  }

  /** Rejected publishes are invisible wherever they stand: drop any of them from a run, and the
      run ends in the same state and every event that is kept has the same outcome. In particular
      an identifier seen only in an oversized publish is still new. */
  lemma RejectedInvisible(events: seq<Event>, dropped: nat -> bool, k: nat)
    requires DropsRejected(events, dropped)
    ensures HubAfter(Without(events, dropped)) == HubAfter(events)
    ensures k < |events| && !dropped(k) ==>
              var kept, i := Without(events, dropped), |Without(events[..k], dropped)|;
              i < |kept| && kept[i] == events[k] && OutcomeAt(kept, i) == OutcomeAt(events, k)
  {
    WithoutRejected(events, dropped);
    if k < |events| && !dropped(k) {
      KeptEvent(events, dropped, k);
      DropsRejectedBefore(events, dropped, k);
      WithoutRejected(events[..k], dropped);
      SameStateSameOutcome(Without(events, dropped), Without(events[..k], dropped), events, k);
    }
  }

  lemma SameStateSameOutcome(kept: seq<Event>, before: seq<Event>, events: seq<Event>, k: nat)
    requires k < |events| && before + [events[k]] <= kept
    requires HubAfter(before) == HubAfter(events[..k])
    ensures |before| < |kept| && kept[|before|] == events[k] && OutcomeAt(kept, |before|) == OutcomeAt(events, k)
  {
    assert kept[..|before|] == before;
  }
}
