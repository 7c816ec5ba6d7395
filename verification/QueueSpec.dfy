/**
 * What one queue's message store means, without files or shared objects: the messages waiting to be
 * delivered, those delivered and not yet acknowledged, and the list of records in the data file.
 * The class `QueueMessage` is proved to behave like this; the lemmas here are about whole runs.
 */
module QueueSpec {
  import opened Bytes
  import opened Payload
  import opened MessageLog
  import opened Options
  import Sequences

  datatype QState = QState(pending: seq<Payload>, waiting: map<Bytes, Payload>, log: seq<Payload>)

  /** A publisher's own properties, or a generated id and the queue's delivery mode. */
  function EffectiveProperties(properties: Option<Properties>, deliveryMode: bool, uuid: Bytes): Properties {
    match properties
    case Some(p) => p
    case None => Properties(uuid, if deliveryMode then DURABLE else UNDURABLE, [])
  }

  /** The payload built for a new message: only a durable one carries the flag. */
  function NewPayload(properties: Properties, body: Bytes): Payload {
    Payload(properties, body, if properties.mode == DURABLE then VALID else [])
  }

  /**
   * What a message must carry: its body; the publisher's own properties, or else the generated id and the delivery
   * mode the queue asks for; and the flag "1" if and only if its mode is 2, durable.
   */
  predicate IsPayloadFor(p: Payload, properties: Option<Properties>, body: Bytes, deliveryMode: bool, uuid: Bytes) {
    && p.body == body
    && p.properties == (if properties.Some? then properties.value
                        else Properties(uuid, if deliveryMode then 2 else 1, []))
    && p.valid == if p.properties.mode == 2 then [49] else []
  }

  function Insert(s: QState, p: Payload): QState {
    s.(pending := s.pending + [p], log := if p.IsDurable() then s.log + [p] else s.log)
  }

  function Front(s: QState): QState
    requires s.pending != []
  {
    var p := s.pending[0];
    s.(pending := s.pending[1..],
       waiting := if p.Id() in s.waiting then s.waiting else s.waiting[p.Id() := p])
  }

  // Garbage collection: more than GC_MIN records, fewer than half of them valid.
  const GC_MIN := 2000

  predicate GcDue(total: nat, valid: nat) {
    total > GC_MIN && valid * 10 / total < 5
  }

  function Collect(log: seq<Payload>): (r: seq<Payload>)
    ensures |r| <= |log|
  {
    if GcDue(|log|, |Live(log)|) then Live(log) else log
  }

  /** How many records a collection copies into the new file. */
  function CollectCost(log: seq<Payload>): nat {
    if GcDue(|log|, |Live(log)|) then |Live(log)| else 0
  }

  /** The record of message `id` is marked invalid. */
  function Invalidate(log: seq<Payload>, id: Bytes): (r: seq<Payload>)
    ensures |r| == |log|
  {
    if HasLive(log, id) then
      var i := Position(log, id);
      log[i := log[i].Invalidated()]
    else log
  }

  /** Acknowledging an id that is not waiting changes nothing. */
  function Remove(s: QState, id: Bytes): QState {
    if id !in s.waiting then s
    else
      var log := if s.waiting[id].IsDurable() then Collect(Invalidate(s.log, id)) else s.log;
      s.(waiting := s.waiting - {id}, log := log)
  }

  /** A store just recovered from a data file: only the file survives a restart. */
  function Recovered(log: seq<Payload>): QState {
    QState([], map[], Live(log))
  }

  function Dead(log: seq<Payload>): nat {
    |log| - |Live(log)|
  }

  // Runs.

  datatype Op = InsertOp(properties: Properties, body: Bytes) | FrontOp | RemoveOp(id: Bytes)

  /**
   * A state together with what happened so far: the messages accepted (in order), the messages
   * handed out by Front (in order), which of those hold a place in `waiting` (by their number), and
   * the numbers of the acknowledged ones. `removes` counts durable acknowledgements and `rewritten`
   * the records copied by garbage collection.
   */
  datatype Trace = Trace(
    q: QState,
    inserted: seq<Payload>, delivered: seq<Payload>, holder: map<Bytes, nat>, acked: set<nat>,
    removes: nat, rewritten: nat)

  ghost predicate FreshId(s: QState, id: Bytes) {
    && (forall p :: p in s.pending ==> p.Id() != id)
    && id !in s.waiting
    && !HasLive(s.log, id)
  }

  /** What the store asks of its callers: a new id for each message, and no Front of an empty list. */
  ghost predicate Allowed(s: QState, op: Op) {
    match op
    case InsertOp(properties, body) => FreshId(s, properties.id)
    case FrontOp => s.pending != []
    case RemoveOp(_) => true
  }

  ghost function Step(t: Trace, op: Op): Trace
    requires Allowed(t.q, op)
  {
    match op
    case InsertOp(properties, body) =>
      var p := NewPayload(properties, body);
      t.(q := Insert(t.q, p), inserted := t.inserted + [p])
    case FrontOp =>
      var p := t.q.pending[0];
      t.(q := Front(t.q),
         delivered := t.delivered + [p],
         holder := if p.Id() in t.q.waiting then t.holder else t.holder[p.Id() := |t.delivered|])
    case RemoveOp(id) =>
      if id !in t.q.waiting || id !in t.holder then t
      else
        var durable := t.q.waiting[id].IsDurable();
        t.(q := Remove(t.q, id), holder := t.holder - {id}, acked := t.acked + {t.holder[id]},
           removes := t.removes + if durable then 1 else 0,
           rewritten := t.rewritten + if durable then CollectCost(Invalidate(t.q.log, id)) else 0)
  }

  ghost predicate RunAllowed(t: Trace, ops: seq<Op>)
    decreases |ops|
  {
    ops == [] || (Allowed(t.q, ops[0]) && RunAllowed(Step(t, ops[0]), ops[1..]))
  }

  ghost function Run(t: Trace, ops: seq<Op>): Trace
    requires RunAllowed(t, ops)
    decreases |ops|
  {
    if ops == [] then t else Run(Step(t, ops[0]), ops[1..])
  }

  function Start(log: seq<Payload>): Trace {
    Trace(Recovered(log), [], [], map[], {}, 0, 0)
  }

  /** The durable messages accepted and not acknowledged, oldest first. */
  ghost function Outstanding(inserted: seq<Payload>, acked: set<nat>): seq<Payload> {
    if inserted == [] then []
    else
      var n := |inserted| - 1;
      Outstanding(inserted[..n], acked)
      + if inserted[n].IsDurable() && n !in acked then [inserted[n]] else []
  }

  // Invariants of runs.

  /** The messages that still count have pairwise distinct ids. */
  ghost predicate DistinctIds(inserted: seq<Payload>, acked: set<nat>) {
    forall i, j {:trigger inserted[i], inserted[j]} ::
      0 <= i < j < |inserted| && i !in acked && j !in acked ==> inserted[i].Id() != inserted[j].Id()
  }

  /** ... and share no id with a recovered message. */
  ghost predicate ApartFrom(recovered: seq<Payload>, inserted: seq<Payload>, acked: set<nat>) {
    forall p, i {:trigger p in recovered, inserted[i]} ::
      p in recovered && 0 <= i < |inserted| && i !in acked ==> p.Id() != inserted[i].Id()
  }

  /** Front hands out the accepted messages in order; pending holds exactly the rest. */
  ghost predicate Fifo(delivered: seq<Payload>, pending: seq<Payload>, inserted: seq<Payload>) {
    delivered + pending == inserted
  }

  /** A delivered message is waiting or acknowledged, never both, and nothing else is either. */
  ghost predicate Conserved(
    delivered: seq<Payload>, waiting: map<Bytes, Payload>, holder: map<Bytes, nat>, acked: set<nat>)
  {
    && holder.Keys == waiting.Keys
    && (forall i :: i in acked ==> i < |delivered|)
    && (forall id {:trigger holder[id]} :: id in holder ==>
          && holder[id] < |delivered| && holder[id] !in acked
          && delivered[holder[id]] == waiting[id] && waiting[id].Id() == id)
    && (forall i {:trigger delivered[i]} :: 0 <= i < |delivered| && i !in acked ==>
          delivered[i].Id() in holder && holder[delivered[i].Id()] == i)
  }

  /** The valid records are the recovered ones, then the unacknowledged durable messages in order. */
  ghost predicate FileAgrees(
    log: seq<Payload>, recovered: seq<Payload>, inserted: seq<Payload>, acked: set<nat>)
  {
    UniqueLive(log) && Live(log) == recovered + Outstanding(inserted, acked)
  }

  ghost predicate Inv(t: Trace, recovered: seq<Payload>) {
    && Fifo(t.delivered, t.q.pending, t.inserted)
    && Conserved(t.delivered, t.q.waiting, t.holder, t.acked)
    && FileAgrees(t.q.log, recovered, t.inserted, t.acked)
    && DistinctIds(t.inserted, t.acked)
    && ApartFrom(recovered, t.inserted, t.acked)
  }

  ghost predicate GarbageBounded(t: Trace) {
    && (Dead(t.q.log) <= GC_MIN || Dead(t.q.log) <= |Live(t.q.log)|)
    && t.rewritten + Dead(t.q.log) <= t.removes
  }

  // Facts about lists of records.

  /** The messages of s other than the one called id. */
  function Without(s: seq<Payload>, id: Bytes): seq<Payload> {
    if s == [] then []
    else if s[0].Id() == id then Without(s[1..], id)
    else [s[0]] + Without(s[1..], id)
  }

  lemma {:induction false} WithoutAppend(a: seq<Payload>, b: seq<Payload>, id: Bytes)
    ensures Without(a + b, id) == Without(a, id) + Without(b, id)
  {
    if a == [] {
      assert a + b == b;
    } else {
      assert (a + b)[1..] == a[1..] + b;
      WithoutAppend(a[1..], b, id);
    }
  }

  lemma {:induction false} WithoutAbsent(s: seq<Payload>, id: Bytes)
    requires forall p :: p in s ==> p.Id() != id
    ensures Without(s, id) == s
  {
    if s != [] {
      assert s == [s[0]] + s[1..];
      WithoutAbsent(s[1..], id);
    }
  }

  /** Marking a record invalid removes exactly that message from the valid ones. */
  lemma InvalidateRemovesOne(log: seq<Payload>, id: Bytes)
    requires UniqueLive(log) && HasLive(log, id)
    ensures Live(Invalidate(log, id)) == Without(Live(log), id)
    ensures |Live(log)| == |Live(Invalidate(log, id))| + 1
    ensures UniqueLive(Invalidate(log, id))
  {
    var i := Position(log, id);
    var before, after := log[..i], log[i + 1..];
    assert log == before + [log[i]] + after;
    assert Invalidate(log, id) == before + [log[i].Invalidated()] + after;
    LiveAppend(before + [log[i]], after);
    LiveAppend(before, [log[i]]);
    LiveAppend(before + [log[i].Invalidated()], after);
    LiveAppend(before, [log[i].Invalidated()]);
    assert Live([log[i]]) == [log[i]];
    assert Live([log[i].Invalidated()]) == [];
    forall p | p in Live(before) + Live(after)
      ensures p.Id() != id
    {
      LiveMembers(before);
      LiveMembers(after);
      assert p in before || p in after;
    }
    WithoutAppend(Live(before) + [log[i]], Live(after), id);
    WithoutAppend(Live(before), [log[i]], id);
    WithoutAbsent(Live(before), id);
    WithoutAbsent(Live(after), id);
  }

  lemma CollectKeepsLive(log: seq<Payload>)
    ensures Live(Collect(log)) == Live(log)
    ensures UniqueLive(log) ==> UniqueLive(Collect(log))
  {
    LiveOfLive(log);
    if UniqueLive(log) {
      LiveStaysUnique(log);
    }
  }

  lemma {:induction false} OutstandingMembers(inserted: seq<Payload>, acked: set<nat>)
    ensures forall i :: 0 <= i < |inserted| && i !in acked && inserted[i].IsDurable() ==>
              inserted[i] in Outstanding(inserted, acked)
    ensures forall p :: p in Outstanding(inserted, acked) ==>
              exists i :: 0 <= i < |inserted| && i !in acked && inserted[i] == p && p.IsDurable()
  {
    if inserted != [] {
      var n := |inserted| - 1;
      OutstandingMembers(inserted[..n], acked);
      assert forall i :: 0 <= i < n ==> inserted[..n][i] == inserted[i];
    }
  }

  /** Acknowledging the durable message number k takes exactly that message out of the outstanding ones. */
  lemma {:induction false} OutstandingWithout(inserted: seq<Payload>, acked: set<nat>, k: nat, id: Bytes)
    requires forall i :: 0 <= i < |inserted| && i !in acked && i != k ==> inserted[i].Id() != id
    requires k < |inserted| ==> inserted[k].Id() == id
    ensures Outstanding(inserted, acked + {k}) == Without(Outstanding(inserted, acked), id)
  {
    if inserted != [] {
      var n := |inserted| - 1;
      var init := inserted[..n];
      OutstandingWithout(init, acked, k, id);
      var last := if inserted[n].IsDurable() && n !in acked then [inserted[n]] else [];
      WithoutAppend(Outstanding(init, acked), last, id);
      if n != k {
        WithoutAbsent(last, id);
      }
    }
  }

  lemma {:induction false} OutstandingKept(inserted: seq<Payload>, acked: set<nat>, k: nat)
    requires k < |inserted| ==> !inserted[k].IsDurable()
    ensures Outstanding(inserted, acked + {k}) == Outstanding(inserted, acked)
  {
    if inserted != [] {
      OutstandingKept(inserted[..|inserted| - 1], acked, k);
    }
  }

  // Every step keeps the invariant.

  lemma InsertKeepsInv(t: Trace, op: Op, recovered: seq<Payload>)
    requires Inv(t, recovered) && op.InsertOp? && Allowed(t.q, op)
    ensures Inv(Step(t, op), recovered)
  {
    var p := NewPayload(op.properties, op.body);
    FreshAmongAccepted(t, p.Id(), recovered);
    ExtendDistinct(t.inserted, t.acked, p, recovered);
    InsertKeepsFile(t, p, recovered);
    Sequences.AppendAssociative(t.delivered, t.q.pending, [p]);
  }

  /** An id new to the state is the id of no recovered and no unacknowledged message. */
  lemma FreshAmongAccepted(t: Trace, id: Bytes, recovered: seq<Payload>)
    requires Fifo(t.delivered, t.q.pending, t.inserted)
    requires Conserved(t.delivered, t.q.waiting, t.holder, t.acked)
    requires FileAgrees(t.q.log, recovered, t.inserted, t.acked)
    requires FreshId(t.q, id)
    ensures forall i :: 0 <= i < |t.inserted| && i !in t.acked ==> t.inserted[i].Id() != id
    ensures forall p :: p in recovered ==> p.Id() != id
  {
    forall i | 0 <= i < |t.inserted| && i !in t.acked
      ensures t.inserted[i].Id() != id
    {
      if i < |t.delivered| {
        assert t.delivered[i] == t.inserted[i];
      } else {
        assert t.inserted[i] == t.q.pending[i - |t.delivered|];
      }
    }
    forall p | p in recovered
      ensures p.Id() != id
    {
      assert p in recovered + Outstanding(t.inserted, t.acked);
      LiveHasPosition(t.q.log, p);
    }
  }

  lemma ExtendDistinct(inserted: seq<Payload>, acked: set<nat>, p: Payload, recovered: seq<Payload>)
    requires DistinctIds(inserted, acked) && ApartFrom(recovered, inserted, acked)
    requires forall i :: 0 <= i < |inserted| && i !in acked ==> inserted[i].Id() != p.Id()
    requires forall r :: r in recovered ==> r.Id() != p.Id()
    ensures DistinctIds(inserted + [p], acked) && ApartFrom(recovered, inserted + [p], acked)
  {
  }

  lemma InsertKeepsFile(t: Trace, p: Payload, recovered: seq<Payload>)
    requires Fifo(t.delivered, t.q.pending, t.inserted)
    requires Conserved(t.delivered, t.q.waiting, t.holder, t.acked)
    requires FileAgrees(t.q.log, recovered, t.inserted, t.acked)
    requires FreshId(t.q, p.Id()) && p.IsLive()
    ensures FileAgrees(Insert(t.q, p).log, recovered, t.inserted + [p], t.acked)
  {
    assert |t.inserted| !in t.acked;
    assert (t.inserted + [p])[..|t.inserted|] == t.inserted;
    if p.IsDurable() {
      AppendKeepsUnique(t.q.log, p);
      LiveAppend(t.q.log, [p]);
      Sequences.AppendAssociative(recovered, Outstanding(t.inserted, t.acked), [p]);
    }
  }

  lemma LiveHasPosition(log: seq<Payload>, p: Payload)
    requires p in Live(log)
    ensures HasLive(log, p.Id())
  {
    LiveMembers(log);
    var k :| 0 <= k < |log| && log[k] == p;
    assert LiveAt(log, p.Id(), k);
  }

  lemma AppendKeepsUnique(log: seq<Payload>, p: Payload)
    requires UniqueLive(log) && !HasLive(log, p.Id())
    ensures UniqueLive(log + [p])
  {
    forall i | 0 <= i < |log| && log[i].IsLive()
      ensures log[i].Id() != p.Id()
    {
      assert LiveAt(log, log[i].Id(), i);
    }
  }

  lemma FrontKeepsInv(t: Trace, recovered: seq<Payload>)
    requires Inv(t, recovered) && t.q.pending != []
    ensures Inv(Step(t, FrontOp), recovered)
  {
    FrontIdNotWaiting(t);
    FrontKeepsConserved(t);
    Sequences.SplitHead(t.q.pending);
    Sequences.AppendAssociative(t.delivered, [t.q.pending[0]], t.q.pending[1..]);
  }

  /** Front always finds the id free in `waiting`, so the message it hands out is recorded there. */
  lemma FrontIdNotWaiting(t: Trace)
    requires Fifo(t.delivered, t.q.pending, t.inserted)
    requires Conserved(t.delivered, t.q.waiting, t.holder, t.acked)
    requires DistinctIds(t.inserted, t.acked)
    requires t.q.pending != []
    ensures t.q.pending[0].Id() !in t.q.waiting
    ensures |t.delivered| !in t.acked
  {
    assert t.inserted[|t.delivered|] == t.q.pending[0];
    assert forall id :: id in t.holder ==> t.inserted[t.holder[id]] == t.delivered[t.holder[id]];
  }

  lemma FrontKeepsConserved(t: Trace)
    requires Conserved(t.delivered, t.q.waiting, t.holder, t.acked)
    requires t.q.pending != []
    requires t.q.pending[0].Id() !in t.q.waiting && |t.delivered| !in t.acked
    ensures var t' := Step(t, FrontOp);
            Conserved(t'.delivered, t'.q.waiting, t'.holder, t'.acked)
  {
    var t', n, p := Step(t, FrontOp), |t.delivered|, t.q.pending[0];
    assert t'.delivered[n] == p;
    assert forall i :: 0 <= i < n ==> t'.delivered[i] == t.delivered[i];
    assert t'.holder == t.holder[p.Id() := n] && t'.q.waiting == t.q.waiting[p.Id() := p];
  }

  lemma RemoveKeepsInv(t: Trace, id: Bytes, recovered: seq<Payload>)
    requires Inv(t, recovered)
    ensures Inv(Step(t, RemoveOp(id)), recovered)
  {
    if id in t.q.waiting {
      RemoveKeepsConserved(t, id);
      RemoveKeepsFile(t, id, recovered);
      AckKeepsDistinct(t.inserted, t.acked, t.holder[id], recovered);
    }
  }

  lemma RemoveKeepsConserved(t: Trace, id: Bytes)
    requires Conserved(t.delivered, t.q.waiting, t.holder, t.acked) && id in t.q.waiting
    ensures var t' := Step(t, RemoveOp(id));
            Conserved(t'.delivered, t'.q.waiting, t'.holder, t'.acked)
  {
  }

  lemma AckKeepsDistinct(inserted: seq<Payload>, acked: set<nat>, k: nat, recovered: seq<Payload>)
    requires DistinctIds(inserted, acked) && ApartFrom(recovered, inserted, acked)
    ensures DistinctIds(inserted, acked + {k}) && ApartFrom(recovered, inserted, acked + {k})
  {
  }

  lemma RemoveKeepsFile(t: Trace, id: Bytes, recovered: seq<Payload>)
    requires Inv(t, recovered) && id in t.q.waiting
    ensures FileAgrees(Remove(t.q, id).log, recovered, t.inserted, t.acked + {t.holder[id]})
  {
    WaitingIsAccepted(t, id, recovered);
    if t.q.waiting[id].IsDurable() {
      OutstandingWithout(t.inserted, t.acked, t.holder[id], id);
      WaitingDurableHasRecord(t, id, recovered);
      InvalidateRemovesOne(t.q.log, id);
      CollectKeepsLive(Invalidate(t.q.log, id));
      WithoutAppend(recovered, Outstanding(t.inserted, t.acked), id);
      WithoutAbsent(recovered, id);
    } else {
      OutstandingKept(t.inserted, t.acked, t.holder[id]);
    }
  }

  lemma WaitingIsAccepted(t: Trace, id: Bytes, recovered: seq<Payload>)
    requires Inv(t, recovered) && id in t.q.waiting
    ensures t.holder[id] < |t.inserted| && t.holder[id] !in t.acked
    ensures t.inserted[t.holder[id]] == t.q.waiting[id] && t.q.waiting[id].Id() == id
    ensures forall p :: p in recovered ==> p.Id() != id
  {
    assert t.delivered[t.holder[id]] == t.q.waiting[id];
    assert t.inserted[t.holder[id]] == t.delivered[t.holder[id]];
  }

  /** A waiting durable message has its valid record in the file. */
  lemma WaitingDurableHasRecord(t: Trace, id: Bytes, recovered: seq<Payload>)
    requires Inv(t, recovered) && id in t.q.waiting && t.q.waiting[id].IsDurable()
    ensures HasLive(t.q.log, id)
  {
    WaitingIsAccepted(t, id, recovered);
    OutstandingMembers(t.inserted, t.acked);
    assert t.q.waiting[id] in recovered + Outstanding(t.inserted, t.acked);
    LiveHasPosition(t.q.log, t.q.waiting[id]);
  }

  lemma StepKeepsGarbageBound(t: Trace, op: Op, recovered: seq<Payload>)
    requires Inv(t, recovered) && GarbageBounded(t) && Allowed(t.q, op)
    ensures GarbageBounded(Step(t, op))
  {
    match op
    case InsertOp(properties, body) =>
      LiveAppend(t.q.log, [NewPayload(properties, body)]);
    case FrontOp =>
    case RemoveOp(id) =>
      if id in t.q.waiting && t.q.waiting[id].IsDurable() {
        WaitingDurableHasRecord(t, id, recovered);
        InvalidateRemovesOne(t.q.log, id);
        var marked := Invalidate(t.q.log, id);
        CollectKeepsLive(marked);
        GcDueMeansMostlyDead(|marked|, |Live(marked)|);
      }
  }

  /** The integer-division test says exactly: over 2000 records, more of them dead than valid. */
  lemma GcDueMeansMostlyDead(total: nat, valid: nat)
    requires valid <= total
    ensures GcDue(total, valid) <==> total > GC_MIN && valid < total - valid
  {
    if total > GC_MIN {
      var q, r := valid * 10 / total, valid * 10 % total;
      assert valid * 10 == total * q + r;
      if q < 5 {
        assert total * q <= total * 4;
      } else {
        assert total * q >= total * 5;
      }
    }
  }

  // Whole runs.

  ghost predicate Recoverable(log: seq<Payload>) {
    UniqueLive(log)
  }

  lemma StartHolds(log: seq<Payload>)
    requires Recoverable(log)
    ensures Inv(Start(log), Live(log)) && GarbageBounded(Start(log))
  {
    LiveStaysUnique(log);
    LiveOfLive(log);
  }

  lemma StepKeepsInv(t: Trace, op: Op, recovered: seq<Payload>)
    requires Allowed(t.q, op) && Inv(t, recovered)
    ensures Inv(Step(t, op), recovered)
  {
    hide Inv, Step;
    match op
    case InsertOp(_, _) => InsertKeepsInv(t, op, recovered);
    case FrontOp => FrontKeepsInv(t, recovered);
    case RemoveOp(id) => RemoveKeepsInv(t, id, recovered);
  }

  lemma {:induction false} RunKeepsInv(t: Trace, ops: seq<Op>, recovered: seq<Payload>)
    requires RunAllowed(t, ops) && Inv(t, recovered) && GarbageBounded(t)
    ensures Inv(Run(t, ops), recovered) && GarbageBounded(Run(t, ops))
    decreases |ops|
  {
    if ops != [] {
      StepKeepsInv(t, ops[0], recovered);
      StepKeepsGarbageBound(t, ops[0], recovered);
      RunKeepsInv(Step(t, ops[0]), ops[1..], recovered);
    }
  }

  // What the history of a run records.

  /** The insertions of a run, in order. */
  function Inserts(ops: seq<Op>): (r: seq<Op>)
    ensures forall op :: op in r ==> op.InsertOp?
  {
    if ops == [] then []
    else if ops[0].InsertOp? then [ops[0]] + Inserts(ops[1..])
    else Inserts(ops[1..])
  }

  /** The payload carries what was published; the flag "1" is set for delivery mode 2, durable, only. */
  predicate Carries(p: Payload, op: Op)
    requires op.InsertOp?
  {
    p.properties == op.properties && p.body == op.body && p.valid == if op.properties.mode == 2 then [49] else []
  }

  /** Message number k of a run is the one its k-th insertion published. */
  lemma AcceptedAreInserts(log: seq<Payload>, ops: seq<Op>)
    requires RunAllowed(Start(log), ops)
    ensures var inserted := Run(Start(log), ops).inserted;
            && |inserted| == |Inserts(ops)|
            && (forall k :: 0 <= k < |inserted| ==> Carries(inserted[k], Inserts(ops)[k]))
  {
    hide Run, RunAllowed, Carries;
    InsertedGrows(Start(log), ops);
    assert Start(log).inserted == [];
    var inserted := Run(Start(log), ops).inserted;
    assert inserted == inserted[0..];
  }

  lemma StepInserts(t: Trace, op: Op)
    requires Allowed(t.q, op)
    ensures var inserted := Step(t, op).inserted;
            if op.InsertOp? then
              |inserted| == |t.inserted| + 1 && inserted[..|t.inserted|] == t.inserted
              && Carries(inserted[|t.inserted|], op)
            else inserted == t.inserted
  {
    hide Insert, Remove, Front;
  }

  lemma {:induction false} InsertedGrows(t: Trace, ops: seq<Op>)
    requires RunAllowed(t, ops)
    ensures var inserted, n := Run(t, ops).inserted, |t.inserted|;
            && |inserted| == n + |Inserts(ops)| && inserted[..n] == t.inserted
            && (forall k :: 0 <= k < |Inserts(ops)| ==> Carries(inserted[n..][k], Inserts(ops)[k]))
    decreases |ops|
  {
    hide Step, Allowed, Carries;
    if ops != [] {
      var inserted, n, t1 := Run(t, ops).inserted, |t.inserted|, Step(t, ops[0]);
      StepInserts(t, ops[0]);
      InsertedGrows(t1, ops[1..]);
      if ops[0].InsertOp? {
        assert inserted[n] == inserted[..n + 1][n] && inserted[..n] == inserted[..n + 1][..n];
        assert inserted[n..] == [inserted[n]] + inserted[n + 1..];
      }
    }
  }

  /** The acknowledged messages that were durable. */
  ghost function DurableAcked(inserted: seq<Payload>, acked: set<nat>): set<nat> {
    set i | i in acked && i < |inserted| && inserted[i].IsDurable()
  }

  /** `removes` counts the acknowledgements of durable messages. */
  ghost predicate RemovesCounted(t: Trace) {
    t.removes == |DurableAcked(t.inserted, t.acked)|
  }

  lemma RemovesCountDurableAcks(log: seq<Payload>, ops: seq<Op>)
    requires Recoverable(log) && RunAllowed(Start(log), ops)
    ensures var t := Run(Start(log), ops);
            t.removes == |DurableAcked(t.inserted, t.acked)|
  {
    StartHolds(log);
    assert DurableAcked(Start(log).inserted, Start(log).acked) == {};
    RunKeepsCount(Start(log), ops, Live(log));
  }

  lemma {:induction false} RunKeepsCount(t: Trace, ops: seq<Op>, recovered: seq<Payload>)
    requires RunAllowed(t, ops) && Inv(t, recovered) && RemovesCounted(t)
    ensures RemovesCounted(Run(t, ops))
    decreases |ops|
  {
    hide Inv, RemovesCounted, Step, Allowed;
    if ops != [] {
      StepKeepsCount(t, ops[0], recovered);
      StepKeepsInv(t, ops[0], recovered);
      RunKeepsCount(Step(t, ops[0]), ops[1..], recovered);
    }
  }

  lemma StepKeepsCount(t: Trace, op: Op, recovered: seq<Payload>)
    requires Allowed(t.q, op) && Inv(t, recovered) && RemovesCounted(t)
    ensures RemovesCounted(Step(t, op))
  {
    hide Inv, Insert, Front, Remove, DurableAcked, CollectCost;
    match op
    case InsertOp(properties, body) =>
      AckedWereInserted(t, recovered);
      DurableAckedAppend(t.inserted, NewPayload(properties, body), t.acked);
    case FrontOp =>
    case RemoveOp(id) =>
      if id in t.q.waiting && id in t.holder {
        WaitingIsAccepted(t, id, recovered);
        DurableAckedGrows(t.inserted, t.acked, t.holder[id]);
      }
  }

  lemma AckedWereInserted(t: Trace, recovered: seq<Payload>)
    requires Inv(t, recovered)
    ensures forall i :: i in t.acked ==> i < |t.inserted|
  {
  }

  lemma DurableAckedAppend(inserted: seq<Payload>, p: Payload, acked: set<nat>)
    requires forall i :: i in acked ==> i < |inserted|
    ensures DurableAcked(inserted + [p], acked) == DurableAcked(inserted, acked)
  {
  }

  lemma DurableAckedGrows(inserted: seq<Payload>, acked: set<nat>, k: nat)
    requires k < |inserted| && k !in acked
    ensures |DurableAcked(inserted, acked + {k})|
         == |DurableAcked(inserted, acked)| + if inserted[k].IsDurable() then 1 else 0
  {
    assert DurableAcked(inserted, acked + {k})
        == DurableAcked(inserted, acked) + if inserted[k].IsDurable() then {k} else {};
  }

  /** When a collection happens, what it leaves, and how many records it copies. */
  lemma CollectMeans(log: seq<Payload>)
    ensures var due := |log| > 2000 && |Live(log)| < |log| - |Live(log)|;
            && Collect(log) == (if due then Live(log) else log)
            && CollectCost(log) == (if due then |Live(log)| else 0)
  {
    GcDueMeansMostlyDead(|log|, |Live(log)|);
  }

  /** A step makes the file shorter only by a collection, and `rewritten` grows by what it copied. */
  lemma StepCost(t: Trace, op: Op)
    requires Allowed(t.q, op)
    ensures var t' := Step(t, op);
            t'.rewritten == t.rewritten + if |t'.q.log| < |t.q.log| then |t'.q.log| else 0
  {
    hide Live, Invalidate;
    match op
    case InsertOp(_, _) =>
    case FrontOp =>
    case RemoveOp(id) =>
      CollectMeans(Invalidate(t.q.log, id));
  }

  // What one acknowledgement does to the file, whatever the ids in it.

  /** How many valid records carry the id. */
  function LiveCount(log: seq<Payload>, id: Bytes): nat {
    if log == [] then 0 else (if log[0].IsLive() && log[0].Id() == id then 1 else 0) + LiveCount(log[1..], id)
  }

  lemma {:induction false} LiveCountAppend(a: seq<Payload>, b: seq<Payload>, id: Bytes)
    ensures LiveCount(a + b, id) == LiveCount(a, id) + LiveCount(b, id)
  {
    if a == [] {
      assert a + b == b;
    } else {
      assert (a + b)[1..] == a[1..] + b;
      LiveCountAppend(a[1..], b, id);
    }
  }

  lemma {:induction false} LiveCountOfLive(log: seq<Payload>, id: Bytes)
    ensures LiveCount(Live(log), id) == LiveCount(log, id)
  {
    if log != [] {
      LiveCountOfLive(log[1..], id);
    }
  }

  lemma {:induction false} LiveCountMeans(log: seq<Payload>, id: Bytes)
    ensures LiveCount(log, id) > 0 <==> HasLive(log, id)
    ensures UniqueLive(log) ==> LiveCount(log, id) <= 1
  {
    if log == [] {
    } else {
      var rest := log[1..];
      assert forall i :: 0 <= i < |rest| ==> rest[i] == log[i + 1];
      LiveCountMeans(rest, id);
      if LiveAt(log, id, 0) {
        assert UniqueLive(log) ==> !HasLive(rest, id);
      } else {
        assert forall i :: LiveAt(log, id, i) ==> LiveAt(rest, id, i - 1);
        assert forall i :: LiveAt(rest, id, i) ==> LiveAt(log, id, i + 1);
      }
    }
  }

  /**
   * The file after one valid record of the id, if there is any, was taken out: the valid records of other ids
   * are as before, and none of this id is left exactly when there was at most one.
   */
  ghost predicate OneRecordGone(log: seq<Payload>, log': seq<Payload>, id: Bytes) {
    && LiveCount(log', id) == (if LiveCount(log, id) == 0 then 0 else LiveCount(log, id) - 1)
    && Without(Live(log'), id) == Without(Live(log), id)
    && (!HasLive(log', id) <==> LiveCount(log, id) <= 1)
  }

  lemma InvalidateTakesOne(log: seq<Payload>, id: Bytes)
    ensures OneRecordGone(log, Collect(Invalidate(log, id)), id)
  {
    var marked := Invalidate(log, id);
    LiveCountMeans(log, id);
    if HasLive(log, id) {
      var i := Position(log, id);
      MarkedRecord(log[..i], log[i], log[i + 1..], id);
      assert log == log[..i] + [log[i]] + log[i + 1..];
      assert marked == log[..i] + [log[i].Invalidated()] + log[i + 1..];
    }
    CollectKeepsLive(marked);
    LiveCountOfLive(marked, id);
    LiveCountOfLive(Collect(marked), id);
    LiveCountMeans(Collect(marked), id);
  }

  lemma MarkedRecord(before: seq<Payload>, p: Payload, after: seq<Payload>, id: Bytes)
    requires p.IsLive() && p.Id() == id
    ensures var log, marked := before + [p] + after, before + [p.Invalidated()] + after;
            && LiveCount(log, id) == LiveCount(marked, id) + 1
            && Without(Live(log), id) == Without(Live(marked), id)
  {
    var q := p.Invalidated();
    LiveCountAppend(before + [p], after, id);
    LiveCountAppend(before, [p], id);
    LiveCountAppend(before + [q], after, id);
    LiveCountAppend(before, [q], id);
    LiveAppend(before + [p], after);
    LiveAppend(before, [p]);
    LiveAppend(before + [q], after);
    LiveAppend(before, [q]);
    assert Live([p]) == [p] && Live([q]) == [] && Without([p], id) == [];
    WithoutAppend(Live(before) + [p], Live(after), id);
    WithoutAppend(Live(before), [p], id);
    WithoutAppend(Live(before), Live(after), id);
    assert Live(before) + [] == Live(before) && Without(Live(before), id) + [] == Without(Live(before), id);
  }

  /** With two valid records of one id, an acknowledgement leaves the second one behind. */
  lemma DuplicateStays(p: Payload)
    requires p.IsLive()
    ensures HasLive(Collect(Invalidate([p, p], p.Id())), p.Id())
  {
    InvalidateTakesOne([p, p], p.Id());
    assert [p, p][1..] == [p] && [p][1..] == [];
    assert LiveCount([p], p.Id()) == 1;
    assert LiveCount([p, p], p.Id()) == 2;
  }

  /** First in, first out: what Front returned so far, followed by what is pending, is what was accepted. */
  lemma RunIsFifo(log: seq<Payload>, ops: seq<Op>)
    requires Recoverable(log) && RunAllowed(Start(log), ops)
    ensures var t := Run(Start(log), ops);
            t.delivered + t.q.pending == t.inserted
  {
    StartHolds(log);
    RunKeepsInv(Start(log), ops, Live(log));
  }

  // Where message number i is.

  ghost predicate IsPending(t: Trace, i: nat) {
    |t.delivered| <= i < |t.inserted| && i - |t.delivered| < |t.q.pending|
    && t.q.pending[i - |t.delivered|] == t.inserted[i]
  }

  ghost predicate IsWaiting(t: Trace, i: nat) {
    i < |t.delivered| && i !in t.acked
    && t.delivered[i].Id() in t.q.waiting && t.q.waiting[t.delivered[i].Id()] == t.delivered[i]
  }

  predicate ExactlyOne(a: bool, b: bool, c: bool) {
    (a || b || c) && !(a && b) && !(a && c) && !(b && c)
  }

  /** Every accepted message is in exactly one place, and everything waiting is a delivered message. */
  lemma RunConserves(log: seq<Payload>, ops: seq<Op>)
    requires Recoverable(log) && RunAllowed(Start(log), ops)
    ensures var t := Run(Start(log), ops);
            && (forall i: nat {:trigger t.inserted[i]} :: i < |t.inserted| ==>
                  ExactlyOne(IsPending(t, i), IsWaiting(t, i), i in t.acked))
            && (forall id :: id in t.q.waiting ==>
                  exists i: nat :: IsWaiting(t, i) && t.delivered[i] == t.q.waiting[id])
  {
    StartHolds(log);
    RunKeepsInv(Start(log), ops, Live(log));
    var t := Run(Start(log), ops);
    forall i: nat | i < |t.inserted|
      ensures ExactlyOne(IsPending(t, i), IsWaiting(t, i), i in t.acked)
    {
      OnePlace(t, i);
    }
    forall id | id in t.q.waiting
      ensures exists i: nat :: IsWaiting(t, i) && t.delivered[i] == t.q.waiting[id]
    {
      assert IsWaiting(t, t.holder[id]);
    }
  }

  lemma OnePlace(t: Trace, i: nat)
    requires Fifo(t.delivered, t.q.pending, t.inserted)
    requires Conserved(t.delivered, t.q.waiting, t.holder, t.acked)
    requires i < |t.inserted|
    ensures ExactlyOne(IsPending(t, i), IsWaiting(t, i), i in t.acked)
  {
    if i < |t.delivered| {
      if i !in t.acked {
        assert t.delivered[i].Id() in t.holder;
      }
    } else {
      assert (t.delivered + t.q.pending)[i] == t.q.pending[i - |t.delivered|];
      assert i !in t.acked;
    }
  }

  /**
   * An acknowledgement takes effect exactly when its id belongs to a delivered, unacknowledged message;
   * in particular the id of a pending message is never one, and an id can be acknowledged only once.
   */
  lemma AckTakesEffectIffWaiting(log: seq<Payload>, ops: seq<Op>, id: Bytes)
    requires Recoverable(log) && RunAllowed(Start(log), ops)
    ensures var t := Run(Start(log), ops);
            && (Remove(t.q, id) != t.q <==>
                  exists i: nat :: i < |t.delivered| && i !in t.acked && t.delivered[i].Id() == id)
            && ((exists p :: p in t.q.pending && p.Id() == id) ==> Remove(t.q, id) == t.q)
            && Remove(Remove(t.q, id), id) == Remove(t.q, id)
  {
    StartHolds(log);
    RunKeepsInv(Start(log), ops, Live(log));
    var t := Run(Start(log), ops);
    if id in t.q.waiting {
      assert id !in Remove(t.q, id).waiting;
      assert t.delivered[t.holder[id]].Id() == id;
      PendingIsNotWaiting(t, id);
    }
  }

  lemma PendingIsNotWaiting(t: Trace, id: Bytes)
    requires Fifo(t.delivered, t.q.pending, t.inserted)
    requires Conserved(t.delivered, t.q.waiting, t.holder, t.acked)
    requires DistinctIds(t.inserted, t.acked) && id in t.q.waiting
    ensures forall p :: p in t.q.pending ==> p.Id() != id
  {
    var i := t.holder[id];
    assert t.inserted[i] == t.delivered[i];
    forall k | 0 <= k < |t.q.pending|
      ensures t.q.pending[k].Id() != id
    {
      assert t.inserted[|t.delivered| + k] == t.q.pending[k];
    }
  }

  /** Every message of the run can be written with a length prefix. */
  predicate Sizable(ops: seq<Op>) {
    forall op :: op in ops && op.InsertOp? ==>
      WellFormedRecord(NewPayload(op.properties, op.body).(valid := VALID))
  }

  lemma StepKeepsWellFormed(t: Trace, op: Op)
    requires Allowed(t.q, op) && WellFormed(t.q.log) && UniqueLive(t.q.log)
    requires op.InsertOp? ==> WellFormedRecord(NewPayload(op.properties, op.body).(valid := VALID))
    ensures WellFormed(Step(t, op).q.log)
  {
    hide Serialize, WellFormed, WellFormedRecord, UniqueLive;
    match op
    case InsertOp(properties, body) =>
      WellFormedAppend(t.q.log, NewPayload(properties, body));
    case FrontOp =>
    case RemoveOp(id) =>
      InvalidateKeepsWellFormed(t.q.log, id);
      LiveStaysWellFormed(Invalidate(t.q.log, id));
  }

  lemma InvalidateKeepsWellFormed(log: seq<Payload>, id: Bytes)
    requires WellFormed(log)
    ensures WellFormed(Invalidate(log, id))
  {
    hide WellFormed, Serialize;
    if HasLive(log, id) {
      var i := Position(log, id);
      WellFormedAt(log, i);
      FlipKeepsLength(log[i]);
      WellFormedUpdate(log, i, log[i].Invalidated());
    }
  }

  lemma {:induction false} RunKeepsWellFormed(t: Trace, ops: seq<Op>, recovered: seq<Payload>)
    requires RunAllowed(t, ops) && Sizable(ops) && WellFormed(t.q.log)
    requires Inv(t, recovered)
    ensures WellFormed(Run(t, ops).q.log)
    decreases |ops|
  {
    if ops != [] {
      assert ops[0] in ops && forall op :: op in ops[1..] ==> op in ops;
      StepKeepsWellFormed(t, ops[0]);
      StepKeepsInv(t, ops[0], recovered);
      RunKeepsWellFormed(Step(t, ops[0]), ops[1..], recovered);
    }
  }

  /**
   * Restart round trip: the file left by any run, read back from its bytes, holds exactly the messages
   * recovered at the start followed by the durable messages accepted and not acknowledged, in order;
   * recovering from it gives a store with those records, all valid, and nothing pending or waiting.
   */
  lemma RestartRoundTrip(log: seq<Payload>, ops: seq<Op>)
    requires Recoverable(log) && WellFormed(log) && RunAllowed(Start(log), ops) && Sizable(ops)
    ensures var t := Run(Start(log), ops);
            var kept := Live(log) + Outstanding(t.inserted, t.acked);
            && ParseFile(Encode(t.q.log)) == Records(t.q.log)
            && Recovered(t.q.log) == QState([], map[], kept)
            && Recoverable(kept) && Live(kept) == kept
  {
    StartHolds(log);
    LiveStaysWellFormed(log);
    RunKeepsInv(Start(log), ops, Live(log));
    RunKeepsWellFormed(Start(log), ops, Live(log));
    var t := Run(Start(log), ops);
    ParseFileUndoesEncode(t.q.log);
    LiveStaysUnique(t.q.log);
    LiveOfLive(t.q.log);
  }

  /** A recovered message is never delivered again, so nothing ever takes it out of the file. */
  lemma RecoveredMessagesStay(log: seq<Payload>, ops: seq<Op>, p: Payload)
    requires Recoverable(log) && RunAllowed(Start(log), ops) && p in Live(log)
    ensures var t := Run(Start(log), ops);
            p in Live(t.q.log) && p.Id() !in t.q.waiting && p !in t.q.pending
  {
    StartHolds(log);
    RunKeepsInv(Start(log), ops, Live(log));
    NotDelivered(Run(Start(log), ops), p, Live(log));
  }

  lemma NotDelivered(t: Trace, p: Payload, recovered: seq<Payload>)
    requires Inv(t, recovered) && p in recovered
    ensures p in Live(t.q.log) && p.Id() !in t.q.waiting && p !in t.q.pending
  {
    assert p in recovered + Outstanding(t.inserted, t.acked);
    assert forall id :: id in t.holder ==> t.inserted[t.holder[id]] == t.delivered[t.holder[id]];
    forall k | 0 <= k < |t.q.pending|
      ensures t.q.pending[k] != p
    {
      assert t.inserted[|t.delivered| + k] == t.q.pending[k];
    }
  }

  /**
   * After any run the dead records number at most 2000 or at most as many as the valid ones, and the
   * records copied by all collections, plus those still dead, are paid for by durable acknowledgements.
   */
  lemma RunBoundsGarbage(log: seq<Payload>, ops: seq<Op>)
    requires Recoverable(log) && RunAllowed(Start(log), ops)
    ensures var t := Run(Start(log), ops);
            var dead := Dead(t.q.log);
            && (dead <= GC_MIN || dead <= |Live(t.q.log)|)
            && t.rewritten + dead <= t.removes
  {
    StartHolds(log);
    RunKeepsInv(Start(log), ops, Live(log));
  }
}
