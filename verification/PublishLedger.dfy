/** Room-scoped publish sequencing and deduplication (ADR 0003, rules D2, O1 and R3;
    guyos_core/src/domain/guyos_wire_publish.rs). */
module PublishLedger {
  import opened Prelude
  import opened UuidText

  datatype PublishDecision = FirstAcceptance(seqNo: u64) | IdempotentReplay(seqNo: u64)

  datatype RoomShard = RoomShard(nextSeq: u64, byClientId: map<Uuid, u64>)

  type Rooms = map<string, RoomShard>

  const EMPTY_SHARD := RoomShard(0, map[])

  function ShardOf(rooms: Rooms, room: string): RoomShard {
    if room in rooms then rooms[room] else EMPTY_SHARD
  }

  /** One call on values. None stands for the panic of `checked_add` on a full counter; the
      shard is then as it was. */
  function ShardStep(shard: RoomShard, id: Uuid): (RoomShard, Option<PublishDecision>) {
    if id in shard.byClientId then (shard, Some(IdempotentReplay(shard.byClientId[id])))
    else if shard.nextSeq == U64_MAX then (shard, None)
    else
      (RoomShard(shard.nextSeq + 1, shard.byClientId[id := shard.nextSeq]), Some(FirstAcceptance(shard.nextSeq)))
  }

  function RoomsStep(rooms: Rooms, room: string, id: Uuid): (Rooms, Option<PublishDecision>) {
    var (shard, decision) := ShardStep(ShardOf(rooms, room), id);
    (rooms[room := shard], decision)
  }

  class RoomPublishState {
    var rooms: Rooms

    constructor ()
      ensures rooms == map[]
    {
      rooms := map[];
    }

    method AcceptOrReplay(roomId: string, clientMessageId: Uuid) returns (decision: Option<PublishDecision>)
      modifies this
      ensures (rooms, decision) == RoomsStep(old(rooms), roomId, clientMessageId)
    {
      if roomId !in rooms {
        rooms := rooms[roomId := EMPTY_SHARD];
      }
      var shard := rooms[roomId];
      assert rooms == old(rooms)[roomId := shard];
      if clientMessageId in shard.byClientId {
        return Some(IdempotentReplay(shard.byClientId[clientMessageId]));
      }
      var seqNo := shard.nextSeq;
      if seqNo == U64_MAX {
        return None;
      }
      shard := shard.(nextSeq := seqNo + 1);
      shard := shard.(byClientId := shard.byClientId[clientMessageId := seqNo]);
      rooms := rooms[roomId := shard];
      assert rooms == old(rooms)[roomId := shard];
      return Some(FirstAcceptance(seqNo));
    }
  }

  // ---- The simple ledger: a list of identifiers in order of first acceptance ------------------

  ghost predicate Distinct(ids: seq<Uuid>) {
    forall i, j | 0 <= i < j < |ids| :: ids[i] != ids[j]
  }

  /** The shard is the list `ids`: the counter is its length, and the map is the bijection from
      its members onto their positions 0 .. nextSeq-1. */
  ghost predicate Represents(shard: RoomShard, ids: seq<Uuid>) {
    && Distinct(ids)
    && shard.nextSeq == |ids|
    && (forall i | 0 <= i < |ids| :: ids[i] in shard.byClientId && shard.byClientId[ids[i]] == i)
    && (forall id | id in shard.byClientId :: shard.byClientId[id] < |ids| && ids[shard.byClientId[id]] == id)
  }

  /** A list determines its shard. */
  lemma RepresentsUnique(one: RoomShard, other: RoomShard, ids: seq<Uuid>)
    requires Represents(one, ids) && Represents(other, ids)
    ensures one == other
  {
    forall id ensures id in one.byClientId <==> id in other.byClientId {
      if id in one.byClientId {
        assert ids[one.byClientId[id]] in other.byClientId;
      }
      if id in other.byClientId {
        assert ids[other.byClientId[id]] in one.byClientId;
      }
    }
    assert one.byClientId.Keys == other.byClientId.Keys;
    assert one.byClientId == other.byClientId;
  }

  /** A call on the shard is the obvious call on the list: an identifier listed at position i is
      replayed with i, a new one is appended and gets the old length, and only a list of
      2^64 - 1 identifiers refuses a new one. */
  lemma ShardStepRefinesList(shard: RoomShard, ids: seq<Uuid>, id: Uuid)
    requires Represents(shard, ids)
    ensures var (shard', decision) := ShardStep(shard, id);
            && (forall i | 0 <= i < |ids| && ids[i] == id :: shard' == shard && decision == Some(IdempotentReplay(i)))
            && (id !in ids && |ids| < U64_MAX ==>
                  Represents(shard', ids + [id]) && decision == Some(FirstAcceptance(|ids|)))
            && (id !in ids && |ids| == U64_MAX ==> shard' == shard && decision == None)
  {
    var (shard', decision) := ShardStep(shard, id);
    if id !in ids && |ids| < U64_MAX {
      var ids' := ids + [id];
      assert id !in shard.byClientId;
      forall i | 0 <= i < |ids'| ensures ids'[i] in shard'.byClientId && shard'.byClientId[ids'[i]] == i {
        if i < |ids| {
          assert ids'[i] == ids[i] && ids[i] != id;
        }
      }
    }
  }
}
