/**
 * The in-memory index of the durable messages, id by id, as values: the index a data file stands for,
 * and what appending, invalidating and compacting the file do to it.
 */
module DurableIndex {
  import opened Bytes
  import opened Payload
  import opened MessageLog
  import QueueSpec

  /** A payload together with the position and length of its bytes in the data file. */
  datatype Stored = Stored(payload: Payload, offset: nat, length: nat)

  /** The true place of record i: offset and length delimit exactly the bytes of its payload. */
  function PlaceOf(log: seq<Payload>, i: nat): Stored
    requires i < |log|
  {
    Stored(log[i], BodyStart(log, i), |Serialize(log[i])|)
  }

  /** Record i as a `Message` can remember it: its place truncated to 32 bits. */
  function Placement(log: seq<Payload>, i: nat): Stored
    requires i < |log|
  {
    Stored(log[i], ToUint32(BodyStart(log, i)), ToUint32(|Serialize(log[i])|))
  }

  /** The first n records, each with its place. */
  function Placements(log: seq<Payload>, n: nat): (r: seq<Stored>)
    requires n <= |log|
    ensures |r| == n
  {
    if n == 0 then [] else Placements(log, n - 1) + [Placement(log, n - 1)]
  }

  lemma {:induction false} PlacementsAt(log: seq<Payload>, n: nat, k: nat)
    requires k < n <= |log|
    ensures Placements(log, n)[k] == Placement(log, k)
  {
    hide Placement;
    assert Placements(log, n) == Placements(log, n - 1) + [Placement(log, n - 1)];
    if k < n - 1 {
      PlacementsAt(log, n - 1, k);
    }
  }

  lemma PlacementIs(log: seq<Payload>, i: nat, offset: nat, length: nat)
    requires i < |log|
    requires offset == ToUint32(|Encode(log[..i])| + PREFIX_LEN) && length == ToUint32(|Serialize(log[i])|)
    ensures Placement(log, i) == Stored(log[i], offset, length)
  {
    hide Encode, Serialize, BodyStart;
    CopyRecord(log, i);
  }

  /** The index a data file stands for: every valid record under its id, with its true place. */
  function IndexOf(log: seq<Payload>): map<Bytes, Stored> {
    if log == [] then map[]
    else
      var n := |log| - 1;
      var p := log[n];
      if p.IsLive() then IndexOf(log[..n])[p.Id() := Stored(p, |Encode(log[..n])| + PREFIX_LEN, |Serialize(p)|)]
      else IndexOf(log[..n])
  }

  /** The same said of each id: the ids of the valid records, each with the place of its own record. */
  ghost predicate Locates(index: map<Bytes, Stored>, log: seq<Payload>) {
    && (forall id :: id in index <==> HasLive(log, id))
    && (forall id {:trigger index[id]} :: id in index ==> index[id] == PlaceOf(log, Position(log, id)))
  }

  lemma {:induction false} IndexLocates(log: seq<Payload>)
    requires UniqueLive(log)
    ensures Locates(IndexOf(log), log)
  {
    if log == [] {
      assert forall id, i :: !LiveAt(log, id, i);
    } else {
      var n := |log| - 1;
      var init, p := log[..n], log[n];
      assert log == init + [p];
      assert forall i :: 0 <= i < n ==> init[i] == log[i];
      IndexLocates(init);
      AppendLocates(IndexOf(init), init, p);
    }
  }

  lemma LocatesOnlyIndex(index: map<Bytes, Stored>, log: seq<Payload>)
    requires UniqueLive(log) && Locates(index, log)
    ensures index == IndexOf(log)
  {
    IndexLocates(log);
  }

  lemma AppendKeepsPlace(log: seq<Payload>, p: Payload, id: Bytes)
    requires UniqueLive(log + [p]) && HasLive(log, id)
    ensures HasLive(log + [p], id)
    ensures PlaceOf(log + [p], Position(log + [p], id)) == PlaceOf(log, Position(log, id))
  {
    assert LiveAt(log + [p], id, Position(log, id));
    PositionIs(log + [p], id, Position(log, id));
    AppendRecord(log, p);
  }

  lemma AppendPlaces(log: seq<Payload>, p: Payload)
    requires UniqueLive(log + [p]) && p.IsLive()
    ensures HasLive(log + [p], p.Id()) && !HasLive(log, p.Id())
    ensures PlaceOf(log + [p], Position(log + [p], p.Id()))
         == Stored(p, |Encode(log)| + PREFIX_LEN, |Serialize(p)|)
  {
    assert LiveAt(log + [p], p.Id(), |log|);
    PositionIs(log + [p], p.Id(), |log|);
    AppendRecord(log, p);
    assert forall i :: 0 <= i < |log| ==> (log + [p])[i] == log[i];
  }

  lemma AppendHas(log: seq<Payload>, p: Payload, id: Bytes)
    requires UniqueLive(log + [p])
    ensures HasLive(log + [p], id) <==> HasLive(log, id) || (p.IsLive() && id == p.Id())
    ensures HasLive(log, id) ==>
              PlaceOf(log + [p], Position(log + [p], id)) == PlaceOf(log, Position(log, id))
  {
    assert forall i :: LiveAt(log + [p], id, i) ==> LiveAt(log, id, i) || i == |log|;
    if HasLive(log, id) {
      AppendKeepsPlace(log, p, id);
    }
    if p.IsLive() {
      AppendPlaces(log, p);
    }
  }

  lemma AppendLocates(index: map<Bytes, Stored>, log: seq<Payload>, p: Payload)
    requires Locates(index, log) && UniqueLive(log + [p])
    ensures Locates(if p.IsLive() then index[p.Id() := Stored(p, |Encode(log)| + PREFIX_LEN, |Serialize(p)|)]
                    else index, log + [p])
  {
    hide UniqueLive, HasLive, PlaceOf, Encode, Serialize;
    var log' := log + [p];
    if p.IsLive() {
      AppendPlaces(log, p);
    }
    forall id
      ensures HasLive(log', id) <==> HasLive(log, id) || (p.IsLive() && id == p.Id())
      ensures HasLive(log, id) ==> PlaceOf(log', Position(log', id)) == PlaceOf(log, Position(log, id))
    {
      AppendHas(log, p, id);
    }
  }

  lemma InvalidateKeepsPlace(log: seq<Payload>, gone: Bytes, id: Bytes)
    requires UniqueLive(log) && HasLive(log, gone) && id != gone && WellFormed(log)
    ensures HasLive(log, id) <==> HasLive(QueueSpec.Invalidate(log, gone), id)
    ensures var log' := QueueSpec.Invalidate(log, gone);
            HasLive(log, id) ==> PlaceOf(log', Position(log', id)) == PlaceOf(log, Position(log, id))
  {
    QueueSpec.InvalidateRemovesOne(log, gone);
    var i, log' := Position(log, gone), QueueSpec.Invalidate(log, gone);
    if HasLive(log, id) {
      assert LiveAt(log', id, Position(log, id));
      PositionIs(log', id, Position(log, id));
      WellFormedAt(log, i);
      FlipKeepsLength(log[i]);
      OverwriteRecord(log, i, log[i].Invalidated());
    }
    if HasLive(log', id) {
      assert LiveAt(log, id, Position(log', id));
    }
  }

  lemma InvalidatedIsGone(log: seq<Payload>, gone: Bytes)
    requires UniqueLive(log) && HasLive(log, gone)
    ensures !HasLive(QueueSpec.Invalidate(log, gone), gone)
  {
    var log' := QueueSpec.Invalidate(log, gone);
    assert forall i :: LiveAt(log', gone, i) ==> LiveAt(log, gone, i);
    assert forall i :: LiveAt(log, gone, i) ==> i == Position(log, gone);
  }

  lemma IndexOfInvalidated(log: seq<Payload>, gone: Bytes)
    requires UniqueLive(log) && HasLive(log, gone) && WellFormed(log)
    ensures IndexOf(QueueSpec.Invalidate(log, gone)) == IndexOf(log) - {gone}
  {
    hide IndexOf, UniqueLive, Live, HasLive, PlaceOf, WellFormed, QueueSpec.Invalidate;
    var log' := QueueSpec.Invalidate(log, gone);
    IndexLocates(log);
    QueueSpec.InvalidateRemovesOne(log, gone);
    InvalidatedIsGone(log, gone);
    forall id | id != gone
      ensures HasLive(log, id) <==> HasLive(log', id)
      ensures HasLive(log, id) ==> PlaceOf(log', Position(log', id)) == PlaceOf(log, Position(log, id))
    {
      InvalidateKeepsPlace(log, gone, id);
    }
    LocatesOnlyIndex(IndexOf(log) - {gone}, log');
  }

  /** Every place in the index fits the 32-bit fields of a message object. */
  ghost predicate Addressable(index: map<Bytes, Stored>) {
    forall id {:trigger index[id]} :: id in index ==>
      index[id].offset < UINT32_LIMIT && index[id].length < UINT32_LIMIT
  }

  /** After a compaction the old places of the index are replaced by the new ones. */
  ghost predicate Relocated(index: map<Bytes, Stored>, index': map<Bytes, Stored>, places: seq<Stored>) {
    && index'.Keys == index.Keys
    && (forall id :: id in index ==> index'[id].payload == index[id].payload)
    && (forall k {:trigger places[k]} :: 0 <= k < |places| && places[k].payload.Id() in index' ==>
          && index'[places[k].payload.Id()].offset == places[k].offset
          && index'[places[k].payload.Id()].length == places[k].length)
  }

  lemma PlacementIsTrue(log: seq<Payload>, k: nat)
    requires k < |log|
    requires BodyStart(log, k) < UINT32_LIMIT && |Serialize(log[k])| < UINT32_LIMIT
    ensures Placement(log, k) == PlaceOf(log, k)
  {
  }

  lemma TakesNewPlace(index: map<Bytes, Stored>, index': map<Bytes, Stored>, places: seq<Stored>, k: nat)
    requires Relocated(index, index', places) && k < |places|
    requires places[k].payload.Id() in index
    requires index[places[k].payload.Id()].payload == places[k].payload
    ensures index'[places[k].payload.Id()] == places[k]
  {
  }

  /** Where compaction puts the record of one message, and that 32 bits still hold its place. */
  lemma CompactedPlace(log: seq<Payload>, id: Bytes) returns (k: nat)
    requires UniqueLive(log) && HasLive(log, id) && Addressable(IndexOf(log))
    ensures id in IndexOf(log) && k < |Live(log)| && Live(log)[k] == IndexOf(log)[id].payload
    ensures LiveAt(Live(log), id, k) && Placement(Live(log), k) == PlaceOf(Live(log), k)
  {
    IndexLocates(log);
    k := CompactionMovesDown(log, Position(log, id));
    assert IndexOf(log)[id] == PlaceOf(log, Position(log, id));
    PlacementIsTrue(Live(log), k);
  }

  lemma RelocatedPlace(log: seq<Payload>, index': map<Bytes, Stored>, id: Bytes)
    requires UniqueLive(log) && Addressable(IndexOf(log)) && id in IndexOf(log)
    requires Relocated(IndexOf(log), index', Placements(Live(log), |Live(log)|))
    ensures HasLive(Live(log), id) && index'[id] == PlaceOf(Live(log), Position(Live(log), id))
  {
    var live := Live(log);
    IndexLocates(log);
    LiveStaysUnique(log);
    var k := CompactedPlace(log, id);
    PositionIs(live, id, k);
    PlacementsAt(live, |live|, k);
    TakesNewPlace(IndexOf(log), index', Placements(live, |live|), k);
  }

  /** Taking over the new places gives exactly the index of the compacted file. */
  lemma IndexOfCompacted(log: seq<Payload>, index': map<Bytes, Stored>)
    requires UniqueLive(log) && Addressable(IndexOf(log))
    requires Relocated(IndexOf(log), index', Placements(Live(log), |Live(log)|))
    ensures index' == IndexOf(Live(log))
  {
    var live := Live(log);
    LiveStaysUnique(log);
    IndexLocates(log);
    forall id | id in index'
      ensures HasLive(live, id) && index'[id] == PlaceOf(live, Position(live, id))
    {
      RelocatedPlace(log, index', id);
    }
    forall id | HasLive(live, id)
      ensures id in index'
    {
      assert live[Position(live, id)] in live;
      QueueSpec.LiveHasPosition(log, live[Position(live, id)]);
    }
    LocatesOnlyIndex(index', live);
  }

  /** The places compaction hands back are the true ones. */
  lemma CompactedPlacesAreTrue(log: seq<Payload>, k: nat)
    requires UniqueLive(log) && Addressable(IndexOf(log)) && k < |Live(log)|
    ensures Placements(Live(log), |Live(log)|)[k] == PlaceOf(Live(log), k)
    ensures PlaceOf(Live(log), k).offset < UINT32_LIMIT && PlaceOf(Live(log), k).length < UINT32_LIMIT
    ensures Live(log)[k].Id() in IndexOf(log)
  {
    var live := Live(log);
    var id := live[k].Id();
    assert live[k] in live;
    LiveMembers(log);
    LiveStaysUnique(log);
    QueueSpec.LiveHasPosition(log, live[k]);
    IndexLocates(log);
    var j := CompactedPlace(log, id);
    assert LiveAt(live, id, k);
    PositionIs(live, id, j);
    PositionIs(live, id, k);
    PlacementsAt(live, |live|, k);
  }
}
