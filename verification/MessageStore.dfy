/**
 * The durable message store of one queue (`server/message.hpp`): message objects shared by three
 * containers, and a data file kept in step with them.
 */
module MessageStore {
  import opened Bytes
  import opened Payload
  import opened MessageLog
  import opened Options
  import FileHelper
  import RecordFile
  import opened DurableIndex
  import QueueSpec

  /** A message object; the three containers of a queue share it. Only its flag and place ever change. */
  class Message {
    const properties: Properties
    const body: Bytes
    var valid: Bytes
    var offset: Uint32
    var length: Uint32

    constructor (properties: Properties, body: Bytes)
      ensures this.properties == properties && this.body == body
      ensures valid == [] && offset == 0 && length == 0
    {
      this.properties, this.body := properties, body;
      valid, offset, length := [], 0, 0;
    }

    function Id(): Bytes { properties.id }

    predicate IsDurable() { properties.mode == DURABLE }

    /** The payload the message was accepted with. */
    function Accepted(): Payload { QueueSpec.NewPayload(properties, body) }

    function Current(): Payload
      reads this`valid
    {
      Payload(properties, body, valid)
    }

    ghost function View(): Stored
      reads this
    {
      Stored(Current(), offset, length)
    }
  }

  class MessageMapper {
    var datafile: Bytes
    var tempfile: Bytes
    ghost var log: seq<Payload>

    ghost predicate Valid()
      reads this
    {
      datafile == Encode(log) && WellFormed(log)
    }

    constructor (existing: Bytes, ghost records: seq<Payload>)
      ensures datafile == existing && log == records
    {
      datafile, tempfile, log := existing, [], records;
    }

    /** Writes the length, then the payload, at the end of `file`; tells where the payload went. */
    static method Append(file: Bytes, payload: Payload) returns (file': Bytes, offset: Uint32, length: Uint32)
      ensures file' == file + RecordFile.Frame(Serialize(payload))
      ensures offset == ToUint32(|file| + PREFIX_LEN) && length == ToUint32(|Serialize(payload)|)
    {
      var body := Serialize(payload);
      var fsize := |file|;
      RecordFile.WriteRecord(file, body);
      file' := FileHelper.Write(file, fsize, LittleEndian(|body|, PREFIX_LEN));
      file' := FileHelper.Write(file', fsize + PREFIX_LEN, body);
      offset, length := ToUint32(fsize + PREFIX_LEN), ToUint32(|body|);
    }

    method Insert(msg: Message)
      requires Valid()
      modifies this`datafile, this`log, msg`offset, msg`length
      ensures log == old(log) + [msg.Current()] && datafile == Encode(log)
      ensures Valid() <==> WellFormedRecord(msg.Current())
      ensures msg.offset == ToUint32(old(|datafile|) + PREFIX_LEN)
      ensures msg.length == ToUint32(|Serialize(msg.Current())|)
    {
      hide Serialize, Encode, WellFormed;
      AppendRecord(log, msg.Current());
      WellFormedAppend(log, msg.Current());
      datafile, msg.offset, msg.length := Append(datafile, msg.Current());
      log := log + [msg.Current()];
    }

    /** Rewrites the message's own bytes, wherever its offset says they are, with the flag cleared. */
    method Remove(msg: Message, ghost i: nat) returns (ok: bool)
      requires Valid()
      modifies this`datafile, this`log, msg`valid
      ensures msg.valid == [48]
      ensures ok <==> |Serialize(msg.Current())| == msg.length
      ensures datafile == if ok then FileHelper.Write(old(datafile), msg.offset, Serialize(msg.Current()))
                          else old(datafile)
      ensures i < |old(log)| && old(log)[i].IsLive() && old(msg.View()) == PlaceOf(old(log), i)
              ==> ok && Valid() && log == old(log)[i := old(log)[i].Invalidated()]
    {
      ghost var here := i < |log| && log[i].IsLive() && msg.View() == PlaceOf(log, i);
      if here {
        WellFormedAt(log, i);
        FlipKeepsLength(log[i]);
        WellFormedUpdate(log, i, log[i].Invalidated());
        OverwriteRecord(log, i, log[i].Invalidated());
      }
      msg.valid := INVALID;
      var body := Serialize(msg.Current());
      if |body| != msg.length {
        return false;
      }
      datafile := FileHelper.Write(datafile, msg.offset, body);
      if here {
        log := log[i := log[i].Invalidated()];
      }
      return true;
    }

    /** Reads the record at `offset`, which is record i. */
    method ReadMessage(offset: nat, ghost i: nat) returns (payload: Payload, next: nat)
      requires Valid() && i < |log| && offset + PREFIX_LEN == BodyStart(log, i)
      ensures payload == log[i]
      ensures next + PREFIX_LEN == BodyStart(log, i + 1) && offset < next <= |datafile|
    {
      WellFormedAt(log, i);
      ReadRecord(log, i);
      var prefix := FileHelper.Read(datafile, offset, PREFIX_LEN);
      if prefix.ReadFailed? {
        assert false;
      }
      var size := FromLittleEndian(prefix.data);
      next := offset + PREFIX_LEN;
      var body := FileHelper.Read(datafile, next, size);
      if body.ReadFailed? {
        assert false;
      }
      next := next + size;
      var parsed := Parse(body.data);
      payload := if parsed.Parsed? then parsed.value else EmptyPayload;
    }

    /** Reads every valid record, in file order. */
    method Load() returns (result: seq<Payload>)
      requires Valid()
      ensures result == Live(log)
    {
      hide Encode, WellFormed, BodyStart;
      result := [];
      var offset, fsize := 0, |datafile|;
      ghost var i := 0;
      FileEnds(log);
      while offset < fsize
        invariant i <= |log| && offset + PREFIX_LEN == BodyStart(log, i)
        invariant result == Live(log[..i])
        decreases |log| - i
      {
        LiveSnoc(log, i);
        var payload, next := ReadMessage(offset, i);
        offset, i := next, i + 1;
        if payload.valid != INVALID {
          result := result + [payload];
        }
      }
      LogEnds(log, i, offset);
    }

    /** Appends every message to an empty file, noting its new position. */
    static method WriteAll(payloads: seq<Payload>) returns (file: Bytes, result: seq<Stored>)
      ensures file == Encode(payloads) && result == Placements(payloads, |payloads|)
    {
      hide Encode, Serialize, BodyStart, Placement, RecordFile.Frame;
      NothingEncoded();
      file, result := [], [];
      for n := 0 to |payloads|
        invariant file == Encode(payloads[..n]) && result == Placements(payloads, n)
      {
        CopyRecord(payloads, n);
        var offset, length;
        file, offset, length := Append(file, payloads[n]);
        PlacementIs(payloads, n, offset, length);
        result := result + [Stored(payloads[n], offset, length)];
      }
      assert payloads[..|payloads|] == payloads;
    }

    /** Rewrites the data file with the valid records only, through a temporary file. */
    method Gc() returns (result: seq<Stored>)
      requires Valid()
      modifies this
      ensures Valid() && log == Live(old(log)) && result == Placements(log, |log|)
    {
      LiveStaysWellFormed(log);
      var loaded := Load();
      tempfile, result := WriteAll(loaded);
      datafile := tempfile;
      tempfile := [];
      log := Live(log);
    }
  }

  function AcceptedAll(ms: seq<Message>): (r: seq<Payload>)
    ensures |r| == |ms|
  {
    if ms == [] then [] else AcceptedAll(ms[..|ms| - 1]) + [ms[|ms| - 1].Accepted()]
  }

  lemma {:induction false} AcceptedAt(ms: seq<Message>, k: nat)
    requires k < |ms|
    ensures AcceptedAll(ms)[k] == ms[k].Accepted()
  {
    if k < |ms| - 1 {
      AcceptedAt(ms[..|ms| - 1], k);
    }
  }

  lemma {:induction false} AcceptedTail(ms: seq<Message>)
    requires ms != []
    ensures AcceptedAll(ms[1..]) == AcceptedAll(ms)[1..] && AcceptedAll(ms)[0] == ms[0].Accepted()
  {
    var n := |ms| - 1;
    if n > 0 {
      assert ms[1..][..n - 1] == ms[..n][1..];
      AcceptedTail(ms[..n]);
    }
  }

  ghost function AcceptedMap(ms: map<Bytes, Message>): map<Bytes, Payload> {
    map id | id in ms :: ms[id].Accepted()
  }

  /** Each indexed object looks as the index says. */
  ghost predicate Show(ms: map<Bytes, Message>, index: map<Bytes, Stored>)
    reads ms.Values
  {
    ms.Keys == index.Keys && forall id {:trigger ms[id]} :: id in ms ==> ms[id].View() == index[id]
  }

  /** The record's place fits the 32-bit fields that remember it. */
  predicate Fits(fileSize: nat, p: Payload) {
    fileSize + PREFIX_LEN < UINT32_LIMIT && |Serialize(p)| < UINT32_LIMIT
  }

  lemma IndexOfAppended(log: seq<Payload>, p: Payload)
    requires p.IsLive()
    ensures IndexOf(log + [p]) == IndexOf(log)[p.Id() := Stored(p, |Encode(log)| + PREFIX_LEN, |Serialize(p)|)]
  {
    assert (log + [p])[..|log|] == log;
  }

  /** Appending a new object's record keeps the file and the index in step exactly when its place fits. */
  lemma AppendedIffFits(ms: map<Bytes, Message>, log: seq<Payload>, m: Message)
    requires WellFormed(log) && UniqueLive(log) && Show(ms, IndexOf(log))
    requires m.valid == VALID && m.Id() !in ms
    requires m.offset == ToUint32(|Encode(log)| + PREFIX_LEN) && m.length == ToUint32(|Serialize(m.Current())|)
    ensures var log' := log + [m.Current()];
            && UniqueLive(log') && |Live(log')| == |Live(log)| + 1
            && (WellFormed(log') && Show(ms[m.Id() := m], IndexOf(log')) <==> Fits(|Encode(log)|, m.Current()))
  {
    var p := m.Current();
    IndexLocates(log);
    QueueSpec.AppendKeepsUnique(log, p);
    LiveAppend(log, [p]);
    WellFormedAppend(log, p);
    IndexOfAppended(log, p);
    ShowChanged(ms, IndexOf(log), m, Stored(p, |Encode(log)| + PREFIX_LEN, |Serialize(p)|));
  }

  lemma NothingIndexed()
    ensures IndexOf([]) == map[]
  {
  }

  /** The places are those of a list of valid records with distinct ids, and fit in 32 bits. */
  ghost predicate AllTrue(places: seq<Stored>, live: seq<Payload>) {
    && |places| == |live| && UniqueLive(live)
    && (forall k :: 0 <= k < |live| ==>
          && live[k].IsLive() && places[k] == PlaceOf(live, k) && places[k].payload == live[k]
          && places[k].offset < UINT32_LIMIT && places[k].length < UINT32_LIMIT)
  }

  lemma RecoveredPlaces(log: seq<Payload>)
    requires UniqueLive(log) && Addressable(IndexOf(log))
    ensures AllTrue(NewPlaces(log), Live(log)) && Live(Live(log)) == Live(log)
  {
    hide Live, Placements, PlaceOf, Addressable, IndexOf;
    NewPlacesReady(log);
    LiveStaysUnique(log);
    LiveOfLive(log);
    LiveMembers(log);
    assert forall k :: 0 <= k < |Live(log)| ==> Live(log)[k] in Live(log);
  }

  /** Indexing the valid records one after the other. */
  lemma IndexGrows(live: seq<Payload>, n: nat)
    requires n < |live| && live[n].IsLive() && UniqueLive(live)
    ensures live[n].Id() !in IndexOf(live[..n])
    ensures IndexOf(live[..n + 1]) == IndexOf(live[..n])[live[n].Id() := PlaceOf(live, n)]
  {
    var init := live[..n];
    assert live[..n + 1] == init + [live[n]];
    assert UniqueLive(init) && forall i :: 0 <= i < n ==> init[i] == live[i];
    IndexLocates(init);
    IndexOfAppended(init, live[n]);
    BodyStartOfPrefix(live, n);
  }

  /** The object's place is that of its own valid record. */
  lemma RecordOf(ms: map<Bytes, Message>, log: seq<Payload>, id: Bytes)
    requires UniqueLive(log) && Show(ms, IndexOf(log)) && id in ms
    ensures HasLive(log, id) && ms[id].View() == PlaceOf(log, Position(log, id))
  {
    IndexLocates(log);
  }

  /** The other objects still show their records when one record is marked invalid. */
  lemma DiscardedIndex(ms: map<Bytes, Message>, log: seq<Payload>, id: Bytes)
    requires UniqueLive(log) && WellFormed(log) && Show(ms, IndexOf(log)) && id in ms
    ensures HasLive(log, id)
    ensures var log' := QueueSpec.Invalidate(log, id);
            && Show(ms - {id}, IndexOf(log'))
            && UniqueLive(log') && |Live(log)| == |Live(log')| + 1
  {
    RecordOf(ms, log, id);
    IndexOfInvalidated(log, id);
    QueueSpec.InvalidateRemovesOne(log, id);
  }

  predicate At(m: Message, place: Stored)
    reads m`offset, m`length
  {
    m.offset == place.offset && m.length == place.length
  }

  /** The objects hold their payloads, whatever their places are. */
  ghost predicate Hold(ms: map<Bytes, Message>, index: map<Bytes, Stored>)
    reads ms.Values`valid
  {
    && ms.Keys == index.Keys
    && (forall id {:trigger ms[id]} :: id in ms ==> ms[id].Id() == id && ms[id].Current() == index[id].payload)
  }

  predicate ReadyFor(places: seq<Stored>, ids: set<Bytes>) {
    && (forall k :: 0 <= k < |places| ==>
          places[k].payload.Id() in ids && places[k].offset < UINT32_LIMIT && places[k].length < UINT32_LIMIT)
    && (forall j, k :: 0 <= j < k < |places| ==> places[j].payload.Id() != places[k].payload.Id())
  }

  function NewPlaces(log: seq<Payload>): seq<Stored> {
    Placements(Live(log), |Live(log)|)
  }

  lemma ShownIsHeld(ms: map<Bytes, Message>, log: seq<Payload>)
    requires UniqueLive(log) && Show(ms, IndexOf(log))
    ensures Hold(ms, IndexOf(log)) && Addressable(IndexOf(log))
  {
    hide UniqueLive, HasLive, IndexOf;
    IndexLocates(log);
    LocatedIdsAgree(log);
    forall id | id in IndexOf(log)
      ensures IndexOf(log)[id].offset < UINT32_LIMIT && IndexOf(log)[id].length < UINT32_LIMIT
    {
      assert ms[id].View() == IndexOf(log)[id];
    }
  }

  lemma NewPlacesReady(log: seq<Payload>)
    requires UniqueLive(log) && Addressable(IndexOf(log))
    ensures ReadyFor(NewPlaces(log), IndexOf(log).Keys)
    ensures forall k :: 0 <= k < |Live(log)| ==>
              NewPlaces(log)[k] == PlaceOf(Live(log), k) && NewPlaces(log)[k].payload == Live(log)[k]
  {
    hide UniqueLive, HasLive, IndexOf, Addressable, PlaceOf, Live, Placements;
    LiveIdsDistinct(log);
    forall k | 0 <= k < |Live(log)|
      ensures NewPlaces(log)[k] == PlaceOf(Live(log), k) && Live(log)[k].Id() in IndexOf(log)
      ensures NewPlaces(log)[k].offset < UINT32_LIMIT && NewPlaces(log)[k].length < UINT32_LIMIT
      ensures NewPlaces(log)[k].payload == Live(log)[k]
    {
      CompactedPlacesAreTrue(log, k);
      PlacementsAt(Live(log), |Live(log)|, k);
    }
  }

  lemma LocatedIdsAgree(log: seq<Payload>)
    requires Locates(IndexOf(log), log)
    ensures forall id :: id in IndexOf(log) ==> IndexOf(log)[id].payload.Id() == id
  {
  }

  lemma LiveIdsDistinct(log: seq<Payload>)
    requires UniqueLive(log)
    ensures forall j, k :: 0 <= j < k < |Live(log)| ==> Live(log)[j].Id() != Live(log)[k].Id()
  {
    LiveStaysUnique(log);
    LiveMembers(log);
    assert forall k :: 0 <= k < |Live(log)| ==> Live(log)[k] in Live(log);
  }

  /** Once every object has taken its new place, the index is that of the compacted file. */
  lemma ShowCompacted(ms: map<Bytes, Message>, log: seq<Payload>)
    requires UniqueLive(log) && Hold(ms, IndexOf(log)) && Addressable(IndexOf(log))
    requires ReadyFor(NewPlaces(log), ms.Keys)
    requires forall k :: 0 <= k < |NewPlaces(log)| ==>
               At(ms[NewPlaces(log)[k].payload.Id()], NewPlaces(log)[k])
    ensures Show(ms, IndexOf(Live(log)))
  {
    hide UniqueLive, IndexOf, Live, Addressable;
    var index' := map id | id in ms :: ms[id].View();
    assert Relocated(IndexOf(log), index', NewPlaces(log));
    IndexOfCompacted(log, index');
  }

  lemma ShowChanged(ms: map<Bytes, Message>, index: map<Bytes, Stored>, m: Message, place: Stored)
    requires Show(ms, index)
    ensures Show(ms[m.Id() := m], index[m.Id() := place]) <==> m.View() == place
  {
    var ms', index' := ms[m.Id() := m], index[m.Id() := place];
    assert ms'[m.Id()] == m && index'[m.Id()] == place;
  }

  /** A durable message in memory is the very object of the index; any other is not in the index. */
  ghost predicate Shared(m: Message, durable: map<Bytes, Message>) {
    if m.IsDurable() then m.Id() in durable && durable[m.Id()] == m else m.Id() !in durable
  }

  ghost predicate PendingOk(msgs: seq<Message>, waiting: map<Bytes, Message>, durable: map<Bytes, Message>) {
    && (forall i, j :: 0 <= i < j < |msgs| ==> msgs[i].Id() != msgs[j].Id())
    && (forall i :: 0 <= i < |msgs| ==> msgs[i].Id() !in waiting && Shared(msgs[i], durable))
  }

  ghost predicate WaitingOk(waiting: map<Bytes, Message>, durable: map<Bytes, Message>) {
    forall id :: id in waiting ==> waiting[id].Id() == id && Shared(waiting[id], durable)
  }

  lemma FrontKeeps(msgs: seq<Message>, waiting: map<Bytes, Message>, durable: map<Bytes, Message>)
    requires msgs != [] && PendingOk(msgs, waiting, durable) && WaitingOk(waiting, durable)
    ensures var waiting' := waiting[msgs[0].Id() := msgs[0]];
            && PendingOk(msgs[1..], waiting', durable) && WaitingOk(waiting', durable)
            && AcceptedMap(waiting') == AcceptedMap(waiting)[msgs[0].Id() := msgs[0].Accepted()]
    ensures msgs[0].Id() !in waiting
  {
  }

  /** Taking a delivered message out of its containers leaves the other messages shared as before. */
  lemma RemoveKeeps(msgs: seq<Message>, waiting: map<Bytes, Message>, durable: map<Bytes, Message>, id: Bytes)
    requires PendingOk(msgs, waiting, durable) && WaitingOk(waiting, durable) && id in waiting
    ensures var durable' := if waiting[id].IsDurable() then durable - {id} else durable;
            PendingOk(msgs, waiting - {id}, durable') && WaitingOk(waiting - {id}, durable')
    ensures AcceptedMap(waiting - {id}) == AcceptedMap(waiting) - {id}
    ensures waiting[id].IsDurable() ==> id in durable && durable[id] == waiting[id]
    ensures AcceptedMap(waiting)[id].IsDurable() == waiting[id].IsDurable()
  {
  }

  /** Adding a new object keeps the sharing in order exactly when its id is new everywhere. */
  lemma InsertKeepsIffFresh(msgs: seq<Message>, waiting: map<Bytes, Message>, durable: map<Bytes, Message>,
                            durable': map<Bytes, Message>, m: Message)
    requires PendingOk(msgs, waiting, durable) && WaitingOk(waiting, durable)
    requires m !in durable.Values
    requires durable' == if m.IsDurable() && m.Id() !in durable then durable[m.Id() := m] else durable
    ensures PendingOk(msgs + [m], waiting, durable') && WaitingOk(waiting, durable')
       <==> (forall i :: 0 <= i < |msgs| ==> msgs[i].Id() != m.Id()) && m.Id() !in waiting && m.Id() !in durable
  {
    var msgs' := msgs + [m];
    assert msgs'[|msgs|] == m;
    assert forall i :: 0 <= i < |msgs| ==> msgs'[i] == msgs[i];
  }

  lemma AcceptedAppend(ms: seq<Message>, m: Message)
    ensures AcceptedAll(ms + [m]) == AcceptedAll(ms) + [m.Accepted()]
  {
    assert (ms + [m])[..|ms|] == ms;
  }

  /** The id is new to the objects exactly when it is new to the meaning of the store. */
  lemma FreshIffNew(msgs: seq<Message>, waiting: map<Bytes, Message>, durable: map<Bytes, Message>,
                    log: seq<Payload>, m: Message)
    requires UniqueLive(log) && Show(durable, IndexOf(log))
    ensures QueueSpec.FreshId(QueueSpec.QState(AcceptedAll(msgs), AcceptedMap(waiting), log), m.Id())
       <==> (forall i :: 0 <= i < |msgs| ==> msgs[i].Id() != m.Id()) && m.Id() !in waiting && m.Id() !in durable
  {
    hide UniqueLive, HasLive, IndexOf, AcceptedAll;
    IndexLocates(log);
    var pending := AcceptedAll(msgs);
    forall i | 0 <= i < |msgs|
      ensures pending[i] in pending && pending[i].Id() == msgs[i].Id()
    {
      AcceptedAt(msgs, i);
    }
  }

  class QueueMessage {
    var msgs: seq<Message>
    var durableMsgs: map<Bytes, Message>
    var waitackMsgs: map<Bytes, Message>
    const mapper: MessageMapper
    // Records in the data file, and how many of them are valid.
    var totalCount: nat
    var validCount: nat

    /** The data file is what the durable index and the counters say. */
    ghost predicate FileValid()
      reads `durableMsgs, `totalCount, `validCount, mapper, durableMsgs.Values
    {
      && mapper.Valid() && UniqueLive(mapper.log)
      && Show(durableMsgs, IndexOf(mapper.log))
      && totalCount == |mapper.log| && validCount == |Live(mapper.log)|
    }

    ghost predicate Valid()
      reads this, mapper, durableMsgs.Values
    {
      FileValid() && PendingOk(msgs, waitackMsgs, durableMsgs) && WaitingOk(waitackMsgs, durableMsgs)
    }

    /** What the store means. */
    ghost function Abs(): QueueSpec.QState
      reads `msgs, `waitackMsgs, mapper`log
    {
      QueueSpec.QState(AcceptedAll(msgs), AcceptedMap(waitackMsgs), mapper.log)
    }

    /** A store over an existing data file; nothing is in memory until Recovery. */
    constructor (existing: Bytes, ghost records: seq<Payload>)
      ensures msgs == [] && durableMsgs == map[] && waitackMsgs == map[] && totalCount == validCount == 0
      ensures fresh(mapper) && mapper.datafile == existing && mapper.log == records
    {
      msgs, durableMsgs, waitackMsgs := [], map[], map[];
      totalCount, validCount := 0, 0;
      mapper := new MessageMapper(existing, records);
    }

    method Front() returns (front: Message)
      requires Valid() && msgs != []
      modifies this`msgs, this`waitackMsgs
      ensures Valid() && front == old(msgs[0])
      ensures Abs() == QueueSpec.Front(old(Abs()))
    {
      hide UniqueLive, Live, WellFormed, Encode, PendingOk, WaitingOk, Show, IndexOf;
      FrontKeeps(msgs, waitackMsgs, durableMsgs);
      AcceptedTail(msgs);
      front := msgs[0];
      msgs := msgs[1..];
      if front.Id() !in waitackMsgs {
        waitackMsgs := waitackMsgs[front.Id() := front];
      }
    }

    /** Stores a durable message and indexes it (an id already indexed keeps its older object). */
    method Persist(msg: Message)
      requires FileValid() && msg.valid == VALID && msg !in durableMsgs.Values
      modifies `durableMsgs, `totalCount, `validCount
      modifies mapper`datafile, mapper`log, msg`offset, msg`length
      ensures mapper.log == old(mapper.log) + [msg.Current()] && mapper.datafile == Encode(mapper.log)
      ensures durableMsgs == if msg.Id() in old(durableMsgs) then old(durableMsgs)
                             else old(durableMsgs)[msg.Id() := msg]
      ensures msg.Id() !in old(durableMsgs)
              ==> (FileValid() <==> Fits(old(|mapper.datafile|), msg.Current()))
    {
      hide UniqueLive, Serialize, IndexOf, Live, Encode, WellFormed, BodyStart;
      ghost var log := mapper.log;
      mapper.Insert(msg);
      validCount, totalCount := validCount + 1, totalCount + 1;
      if msg.Id() !in durableMsgs {
        AppendedIffFits(durableMsgs, log, msg);
        durableMsgs := durableMsgs[msg.Id() := msg];
      }
    }

    /**
     * Accepts a message. The store still holds together afterwards exactly when the id is new to it and,
     * for a durable message, the record's place fits the 32-bit offset and length fields.
     */
    method Insert(properties: Option<Properties>, body: Bytes, deliveryMode: bool, uuid: Bytes) returns (ok: bool)
      requires Valid()
      modifies `msgs, `durableMsgs, `totalCount, `validCount, mapper`datafile, mapper`log
      ensures ok
      ensures var p := QueueSpec.NewPayload(QueueSpec.EffectiveProperties(properties, deliveryMode, uuid), body);
              && Abs() == QueueSpec.Insert(old(Abs()), p)
              && mapper.datafile == Encode(mapper.log)
              && (Valid() <==> QueueSpec.FreshId(old(Abs()), p.Id())
                               && (p.IsDurable() ==> Fits(old(|mapper.datafile|), p)))
      ensures |msgs| == |old(msgs)| + 1 && msgs[..|old(msgs)|] == old(msgs)
      ensures var m := msgs[|old(msgs)|];
              QueueSpec.IsPayloadFor(Payload(m.properties, m.body, m.valid), properties, body, deliveryMode, uuid)
      ensures mapper.log == old(mapper.log) + if msgs[|old(msgs)|].properties.mode == 2
                                              then [Payload(msgs[|old(msgs)|].properties, body, [49])] else []
    {
      hide PendingOk, WaitingOk, Show, UniqueLive, Serialize, IndexOf, Live, Encode, AcceptedAll, WellFormed;
      var msg := new Message(QueueSpec.EffectiveProperties(properties, deliveryMode, uuid), body);
      InsertKeepsIffFresh(msgs, waitackMsgs, durableMsgs,
        if msg.IsDurable() && msg.Id() !in durableMsgs then durableMsgs[msg.Id() := msg] else durableMsgs, msg);
      FreshIffNew(msgs, waitackMsgs, durableMsgs, mapper.log, msg);
      AcceptedAppend(msgs, msg);
      if msg.properties.mode == DURABLE {
        msg.valid := VALID;
        Persist(msg);
      }
      msgs := msgs + [msg];
      ok := true;
    }

    /** Gives every relocated message its new place. */
    method Relocate(places: seq<Stored>)
      requires ReadyFor(places, durableMsgs.Keys)
      requires forall id :: id in durableMsgs ==> durableMsgs[id].Id() == id
      modifies durableMsgs.Values`offset, durableMsgs.Values`length
      ensures forall k :: 0 <= k < |places| ==> At(durableMsgs[places[k].payload.Id()], places[k])
    {
      for n := 0 to |places|
        invariant forall k :: 0 <= k < n ==> At(durableMsgs[places[k].payload.Id()], places[k])
      {
        var id := places[n].payload.Id();
        if id !in durableMsgs {
          assert false;
        }
        durableMsgs[id].offset := places[n].offset;
        durableMsgs[id].length := places[n].length;
      }
    }

    /** Compacts the data file when most of it is garbage; the shared objects follow their records. */
    method Gc()
      requires FileValid()
      modifies `totalCount, `validCount, mapper, durableMsgs.Values`offset, durableMsgs.Values`length
      ensures FileValid() && mapper.log == QueueSpec.Collect(old(mapper.log))
    {
      hide UniqueLive, IndexOf, Live, Placements, WellFormed, Encode, ReadyFor;
      if !QueueSpec.GcDue(totalCount, validCount) {
        return;
      }
      ghost var log := mapper.log;
      ShownIsHeld(durableMsgs, log);
      NewPlacesReady(log);
      LiveStaysUnique(log);
      LiveOfLive(log);
      var places := mapper.Gc();
      assert Hold(durableMsgs, IndexOf(log));
      Relocate(places);
      ShowCompacted(durableMsgs, log);
      totalCount, validCount := |places|, |places|;
    }

    /** Marks a durable message's record invalid and drops it from the index. */
    method Discard(msg: Message, id: Bytes)
      requires FileValid() && id in durableMsgs && durableMsgs[id] == msg
      modifies `durableMsgs, `validCount, mapper`datafile, mapper`log, msg`valid
      ensures FileValid() && durableMsgs == old(durableMsgs) - {id}
      ensures mapper.log == QueueSpec.Invalidate(old(mapper.log), id)
    {
      hide UniqueLive, IndexOf, Live, HasLive, WellFormed, Encode, Serialize;
      ghost var log := mapper.log;
      ShownIsHeld(durableMsgs, log);
      RecordOf(durableMsgs, log, id);
      DiscardedIndex(durableMsgs, log, id);
      var _ := mapper.Remove(msg, Position(log, id));
      durableMsgs := durableMsgs - {id};
      validCount := validCount - 1;
    }

    /** Acknowledges a delivered message; any other id is refused and nothing changes. */
    method Remove(msgId: Bytes) returns (ok: bool)
      requires Valid()
      modifies `durableMsgs, `waitackMsgs, `totalCount, `validCount, mapper, durableMsgs.Values
      ensures Valid() && (ok <==> msgId in old(waitackMsgs))
      ensures Abs() == QueueSpec.Remove(old(Abs()), msgId)
    {
      hide UniqueLive, IndexOf, Live, WellFormed, Encode, Show, PendingOk, WaitingOk;
      if msgId !in waitackMsgs {
        return false;
      }
      RemoveKeeps(msgs, waitackMsgs, durableMsgs, msgId);
      var msg := waitackMsgs[msgId];
      if msg.properties.mode == DURABLE {
        Discard(msg, msgId);
        Gc();
      }
      waitackMsgs := waitackMsgs - {msgId};
      return true;
    }

    static method Rebuild(place: Stored) returns (msg: Message)
      requires place.offset < UINT32_LIMIT && place.length < UINT32_LIMIT
      ensures fresh(msg) && msg.View() == place
    {
      msg := new Message(place.payload.properties, place.payload.body);
      msg.valid, msg.offset, msg.length := place.payload.valid, place.offset, place.length;
    }

    /** Makes an object for each recovered record and indexes it. */
    method Reindex(places: seq<Stored>, ghost live: seq<Payload>)
      requires durableMsgs == map[] && AllTrue(places, live)
      modifies `durableMsgs
      ensures Show(durableMsgs, IndexOf(live))
      ensures forall id :: id in durableMsgs ==> fresh(durableMsgs[id])
    {
      hide UniqueLive, PlaceOf, IndexOf;
      NothingIndexed();
      for n := 0 to |places|
        invariant Show(durableMsgs, IndexOf(live[..n]))
        invariant forall id :: id in durableMsgs ==> fresh(durableMsgs[id])
      {
        IndexGrows(live, n);
        var msg := Rebuild(places[n]);
        ShowChanged(durableMsgs, IndexOf(live[..n]), msg, places[n]);
        if msg.Id() !in durableMsgs {
          durableMsgs := durableMsgs[msg.Id() := msg];
        }
      }
      assert live[..|places|] == live;
    }

    /** Rebuilds the index of a store just opened over an existing file, compacting the file. */
    method Recovery()
      requires mapper.Valid() && UniqueLive(mapper.log) && Addressable(IndexOf(mapper.log))
      requires msgs == [] && waitackMsgs == map[] && durableMsgs == map[]
      modifies `durableMsgs, `totalCount, `validCount, mapper
      ensures Valid() && Abs() == QueueSpec.Recovered(old(mapper.log))
      ensures forall id :: id in durableMsgs ==> fresh(durableMsgs[id])
    {
      hide UniqueLive, Live, Placements, WellFormed, Encode, PlaceOf, Addressable, IndexOf;
      RecoveredPlaces(mapper.log);
      var places := mapper.Gc();
      Reindex(places, mapper.log);
      totalCount, validCount := |places|, |places|;
    }
  }

  /** Message id `id`: the object in the index, the bytes it points at, and the one valid record with that id. */
  ghost predicate PointsAtItsRecord(q: QueueMessage, id: Bytes)
    requires id in q.durableMsgs
    reads q`durableMsgs, q.durableMsgs.Values, q.mapper
  {
    var m := q.durableMsgs[id];
    && m.Id() == id && m.valid == VALID
    && m.offset + m.length <= |q.mapper.datafile|
    && q.mapper.datafile[m.offset..m.offset + m.length] == Serialize(m.Current())
    && (exists i :: LiveAt(q.mapper.log, id, i) && q.mapper.log[i] == m.Current())
  }

  /**
   * What a store that holds together says about its file: the bytes parse completely into records, the ids
   * of the valid records are exactly the keys of the index, each indexed object delimits exactly the bytes of
   * its own payload, the pending and waiting durable messages are those very objects, and the counters count
   * all records and the valid ones.
   */
  lemma ValidStoreFile(q: QueueMessage)
    requires q.Valid()
    ensures ParseFile(q.mapper.datafile) == Records(q.mapper.log)
    ensures forall id :: id in q.durableMsgs <==> exists p :: p in q.mapper.log && p.IsLive() && p.Id() == id
    ensures forall id :: id in q.durableMsgs ==> PointsAtItsRecord(q, id)
    ensures forall m :: (m in q.msgs || m in q.waitackMsgs.Values) && m.IsDurable() ==>
              m.Id() in q.durableMsgs && q.durableMsgs[m.Id()] == m
    ensures q.totalCount == |q.mapper.log| && q.validCount == |Live(q.mapper.log)|
    ensures q.validCount == |q.durableMsgs|
  {
    var log := q.mapper.log;
    ParseFileUndoesEncode(log);
    IndexLocates(log);
    forall id | id in q.durableMsgs
      ensures PointsAtItsRecord(q, id)
    {
      IndexedObject(q, id);
    }
    forall id
      ensures HasLive(log, id) <==> exists p :: p in log && p.IsLive() && p.Id() == id
    {
      HasLiveMeans(log, id);
    }
    IndexSize(log);
  }

  lemma HasLiveMeans(log: seq<Payload>, id: Bytes)
    ensures HasLive(log, id) <==> exists p :: p in log && p.IsLive() && p.Id() == id
  {
    if HasLive(log, id) {
      assert log[Position(log, id)] in log;
    }
    if p :| p in log && p.IsLive() && p.Id() == id {
      var i :| 0 <= i < |log| && log[i] == p;
      assert LiveAt(log, id, i);
    }
  }

  lemma IndexedObject(q: QueueMessage, id: Bytes)
    requires q.Valid() && id in q.durableMsgs
    ensures PointsAtItsRecord(q, id)
  {
    hide UniqueLive, Serialize, IndexOf, Encode, WellFormed;
    var log, m := q.mapper.log, q.durableMsgs[id];
    RecordOf(q.durableMsgs, log, id);
    var i := Position(log, id);
    WellFormedAt(log, i);
    BodyAt(log, i);
    assert LiveAt(log, id, i);
  }

  /** There is one indexed message for each valid record. */
  lemma {:induction false} IndexSize(log: seq<Payload>)
    requires UniqueLive(log)
    ensures |IndexOf(log)| == |Live(log)|
  {
    hide Serialize, Encode;
    if log != [] {
      var n := |log| - 1;
      var init, p := log[..n], log[n];
      assert log == init + [p];
      assert UniqueLive(init) by {
        assert forall i :: 0 <= i < n ==> init[i] == log[i];
      }
      IndexSize(init);
      LiveAppend(init, [p]);
      if p.IsLive() {
        NewKey(init, p);
      }
    }
  }

  lemma NewKey(log: seq<Payload>, p: Payload)
    requires UniqueLive(log + [p]) && UniqueLive(log) && p.IsLive()
    ensures |IndexOf(log + [p])| == |IndexOf(log)| + 1
  {
    hide Serialize, Encode, IndexOf;
    AppendPlaces(log, p);
    IndexLocates(log);
    IndexOfAppended(log, p);
  }

  /** Whatever file a store leaves behind can be recovered from. */
  lemma LeftFileIsRecoverable(q: QueueMessage)
    requires q.Valid()
    ensures q.mapper.Valid() && UniqueLive(q.mapper.log) && Addressable(IndexOf(q.mapper.log))
    ensures QueueSpec.Recoverable(q.mapper.log)
  {
    ShownIsHeld(q.durableMsgs, q.mapper.log);
  }

  /** Opening a queue: the object, over the file left by an earlier run, and its recovery. */
  method OpenQueue(existing: Bytes, ghost records: seq<Payload>) returns (q: QueueMessage)
    requires existing == Encode(records) && WellFormed(records)
    requires UniqueLive(records) && Addressable(IndexOf(records))
    ensures fresh(q) && q.Valid() && q.Abs() == QueueSpec.Recovered(records)
  {
    q := new QueueMessage(existing, records);
    q.Recovery();
  }

  lemma CompactionKeepsIndexed(log: seq<Payload>)
    requires UniqueLive(log)
    ensures IndexOf(Live(log)).Keys == IndexOf(log).Keys
    ensures forall id :: id in IndexOf(log) ==> IndexOf(Live(log))[id].payload == IndexOf(log)[id].payload
  {
    var live := Live(log);
    IndexLocates(log);
    LiveStaysUnique(log);
    IndexLocates(live);
    forall id
      ensures HasLive(live, id) <==> HasLive(log, id)
      ensures HasLive(log, id) ==> live[Position(live, id)] == log[Position(log, id)]
    {
      CompactionKeepsMessage(log, id);
    }
  }

  lemma CompactionKeepsMessage(log: seq<Payload>, id: Bytes)
    requires UniqueLive(log)
    ensures HasLive(Live(log), id) <==> HasLive(log, id)
    ensures HasLive(log, id) ==> Live(log)[Position(Live(log), id)] == log[Position(log, id)]
  {
    var live := Live(log);
    LiveStaysUnique(log);
    if HasLive(log, id) {
      var k := CompactionMovesDown(log, Position(log, id));
      PositionIs(live, id, k);
    }
    if HasLive(live, id) {
      assert live[Position(live, id)] in live;
      QueueSpec.LiveHasPosition(log, live[Position(live, id)]);
    }
  }

  /**
   * Restarting: a new store opened over the file another one left has in its index exactly the ids and
   * payloads the other had, both counters equal to their number, and nothing pending or waiting.
   */
  method Restart(q: QueueMessage) returns (r: QueueMessage)
    requires q.Valid()
    ensures fresh(r) && r.Valid() && r.Abs() == QueueSpec.Recovered(q.mapper.log)
    ensures r.durableMsgs.Keys == q.durableMsgs.Keys
    ensures forall id :: id in q.durableMsgs ==> r.durableMsgs[id].Current() == q.durableMsgs[id].Current()
    ensures r.totalCount == r.validCount == |q.durableMsgs|
  {
    hide UniqueLive, IndexOf, Live, WellFormed, Encode, Addressable;
    LeftFileIsRecoverable(q);
    IndexSize(q.mapper.log);
    CompactionKeepsIndexed(q.mapper.log);
    r := OpenQueue(q.mapper.datafile, q.mapper.log);
    LiveOfLive(q.mapper.log);
  }
}
