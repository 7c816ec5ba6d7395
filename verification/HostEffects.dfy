/**
 * What each operation of a virtual host does, said without the functions of `HostSpec`: the answer, what becomes
 * different, and that everything else stays as it was.
 */
module HostEffects {
  import opened Bytes
  import opened Payload
  import opened MessageLog
  import opened Options
  import opened HostSpec
  import opened HostProperties
  import QueueSpec

  // Bindings.

  /** The key a queue is bound to an exchange with, if it is. */
  function KeyOf(bs: BindingMap, e: string, q: string): Option<string> {
    if e in bs && q in bs[e] then Some(bs[e][q]) else None
  }

  /** The bindings that `gone` accepts, and their rows, are gone; all others, and theirs, are as before. */
  ghost predicate Cleared(b: Bindings, b': Bindings, gone: (string, string) -> bool) {
    && (forall e, q :: KeyOf(b'.inMemory, e, q) == if gone(e, q) then None else KeyOf(b.inMemory, e, q))
    && (forall r :: multiset(b'.table)[r] == if gone(r.exchange, r.queue) then 0 else multiset(b.table)[r])
  }

  /**
   * Binding succeeds unless a row is needed and cannot be inserted. A new binding gets the key that was asked
   * for, and a row with it if it is durable; an existing one keeps its key.
   */
  ghost predicate Binds(b: Bindings, b': Bindings, ok: bool, e: string, q: string, key: string, durable: bool,
                        tableOk: bool) {
    var isNew := KeyOf(b.inMemory, e, q).None?;
    && (ok <==> !isNew || !durable || tableOk)
    && (!ok ==> b' == b)
    && (ok ==>
          && (forall e', q' :: KeyOf(b'.inMemory, e', q') ==
                if isNew && e' == e && q' == q then Some(key) else KeyOf(b.inMemory, e', q'))
          && b'.table == b.table + if isNew && durable then [Row(e, q, key)] else [])
  }

  /** Unbinding what is not bound leaves everything, its rows included, as it was. */
  ghost predicate Unbinds(b: Bindings, b': Bindings, e: string, q: string) {
    if KeyOf(b.inMemory, e, q).None? then b' == b
    else Cleared(b, b', (e', q') => e' == e && q' == q)
  }

  lemma {:induction false} SelectCounts(rows: seq<Row>, keep: Row -> bool, r: Row)
    ensures multiset(Select(rows, keep))[r] == if keep(r) then multiset(rows)[r] else 0
  {
    if rows != [] {
      SelectCounts(rows[1..], keep, r);
      assert rows == [rows[0]] + rows[1..];
    }
  }

  lemma BindBinds(b: Bindings, e: string, q: string, key: string, durable: bool, tableOk: bool)
    ensures var (ok, b') := HostSpec.Bind(b, e, q, key, durable, tableOk);
            Binds(b, b', ok, e, q, key, durable, tableOk)
  {
  }

  lemma UnBindUnbinds(b: Bindings, e: string, q: string)
    ensures Unbinds(b, HostSpec.UnBind(b, e, q), e, q)
  {
    if Bound(b.inMemory, e, q) {
      RowsCleared(b.table, (r: Row) => !(r.exchange == e && r.queue == q));
    }
  }

  lemma RowsCleared(rows: seq<Row>, keep: Row -> bool)
    ensures forall r :: multiset(Select(rows, keep))[r] == if keep(r) then multiset(rows)[r] else 0
  {
    forall r
      ensures multiset(Select(rows, keep))[r] == if keep(r) then multiset(rows)[r] else 0
    {
      SelectCounts(rows, keep, r);
    }
  }

  lemma RemoveExchangeClears(b: Bindings, name: string)
    ensures Cleared(b, HostSpec.RemoveExchangeBindings(b, name), (e, _) => e == name)
  {
    RowsCleared(b.table, (r: Row) => r.exchange != name);
  }

  lemma RemoveQueueClears(b: Bindings, name: string)
    ensures Cleared(b, HostSpec.RemoveMsgQueueBindings(b, name), (_, q) => q == name)
  {
    RowsCleared(b.table, (r: Row) => r.queue != name);
  }

  // Message stores.

  /** The stores and data files of all other queues are as before. */
  predicate OthersKept(s: Stores, s': Stores, q: string) {
    s'.open - {q} == s.open - {q} && s'.files - {q} == s.files - {q}
  }

  /** An open store is left alone; otherwise one is opened with the valid records of the queue's data file. */
  predicate Opens(s: Stores, s': Stores, q: string) {
    if q in s.open then s' == s
    else
      && OthersKept(s, s', q) && q in s'.open && q !in s'.files
      && s'.open[q].pending == [] && s'.open[q].waiting == map[]
      && s'.open[q].log == if q in s.files then Live(s.files[q]) else []
  }

  /** An open store goes, and its data file with it: what is left of the queue's files is what was closed before. */
  predicate Closes(s: Stores, s': Stores, q: string) {
    OthersKept(s, s', q) && q !in s'.open && s'.files == s.files
  }

  /** Only the contents of the one store change. */
  predicate WithinStore(s: Stores, s': Stores, q: string) {
    q in s.open && q in s'.open && OthersKept(s, s', q) && s'.files == s.files
  }

  /** The message is the newest pending one, and, when durable, the newest record; nothing else changes. */
  predicate Accepts(s: Stores, s': Stores, q: string, p: Payload) {
    && WithinStore(s, s', q)
    && s'.open[q].pending == s.open[q].pending + [p]
    && s'.open[q].waiting == s.open[q].waiting
    && s'.open[q].log == s.open[q].log + if p.properties.mode == 2 then [p] else []
  }

  /**
   * An acknowledgement succeeds exactly for a message that is waiting. The message then waits no longer; a
   * durable one also loses its record. Nothing else changes, and nothing at all when it fails.
   */
  ghost predicate Acks(s: Stores, s': Stores, ok: bool, q: string, id: Bytes) {
    && (ok <==> q in s.open && id in s.open[q].waiting)
    && (!ok ==> s' == s)
    && (ok ==>
          && WithinStore(s, s', q)
          && s'.open[q].pending == s.open[q].pending
          && s'.open[q].waiting == s.open[q].waiting - {id}
          && if s.open[q].waiting[id].properties.mode == 2
             then QueueSpec.OneRecordGone(s.open[q].log, s'.open[q].log, id)
             else s'.open[q].log == s.open[q].log)
  }

  /** The oldest pending message is handed out and waits for its acknowledgement. */
  predicate HandsOut(s: Stores, s': Stores, r: Option<Payload>, q: string) {
    if q !in s.open then r == None && s' == s
    else
      && s.open[q].pending != [] && r == Some(s.open[q].pending[0])
      && WithinStore(s, s', q)
      && s.open[q].pending == [r.value] + s'.open[q].pending
      && s'.open[q].log == s.open[q].log
      && (var id, waiting := r.value.properties.id, s.open[q].waiting;
          s'.open[q].waiting == if id in waiting then waiting else waiting[id := r.value])
  }

  lemma InitStoreOpens(s: Stores, q: string)
    ensures Opens(s, InitStore(s, q), q)
  {
  }

  lemma DestroyStoreCloses(s: Stores, q: string)
    ensures Closes(s, DestroyStore(s, q), q)
  {
  }

  lemma RemoveAcks(s: Stores, q: string, id: Bytes)
    ensures var s' := if q in s.open then s.(open := s.open[q := QueueSpec.Remove(s.open[q], id)]) else s;
            Acks(s, s', q in s.open && id in s.open[q].waiting, q, id)
  {
    hide QueueSpec.OneRecordGone, QueueSpec.Invalidate, QueueSpec.Collect;
    if q in s.open && id in s.open[q].waiting {
      QueueSpec.InvalidateTakesOne(s.open[q].log, id);
    }
  }

  lemma AckStoreAcks(h: Host, q: string, id: Bytes)
    ensures var h' := AckStore(h, q, id);
            && Acks(h.stores, h'.stores, q in h.stores.open && id in h.stores.open[q].waiting, q, id)
            && h' == h.(stores := h'.stores)
  {
    hide Acks, QueueSpec.Remove;
    RemoveAcks(h.stores, q, id);
  }

  /** A second acknowledgement of the same id fails and changes nothing. */
  lemma AckedOnlyOnce(s: Stores, s': Stores, s'': Stores, ok: bool, q: string, id: Bytes)
    requires Acks(s, s', true, q, id) && Acks(s', s'', ok, q, id)
    ensures !ok && s'' == s'
  {
  }

  /** With distinct ids no valid record of an acknowledged durable message is left. */
  lemma AckedRecordIsGone(s: Stores, s': Stores, q: string, id: Bytes)
    requires Acks(s, s', true, q, id) && s.open[q].waiting[id].IsDurable() && UniqueLive(s.open[q].log)
    ensures forall p :: p in s'.open[q].log && p.IsLive() ==> p.Id() != id
  {
    hide UniqueLive, Live;
    QueueSpec.LiveCountMeans(s.open[q].log, id);
    forall p | p in s'.open[q].log && p.IsLive()
      ensures p.Id() != id
    {
      var i :| 0 <= i < |s'.open[q].log| && s'.open[q].log[i] == p;
      assert LiveAt(s'.open[q].log, p.Id(), i);
    }
  }

  // Host operations.

  ghost predicate DeclaresExchange(h: Host, h': Host, ok: bool, name: string, ex: Exchange, tableOk: bool) {
    && (ok <==> name in h.exchanges || !ex.durable || (tableOk && name !in h.exchangeTable))
    && (!ok || name in h.exchanges ==> h' == h)
    && (ok && name !in h.exchanges ==>
          && h'.exchanges == h.exchanges[name := ex]
          && h'.exchangeTable == (if ex.durable then h.exchangeTable[name := ex] else h.exchangeTable)
          && h' == h.(exchanges := h'.exchanges, exchangeTable := h'.exchangeTable))
  }

  /** The exchange, its row and its bindings are gone; every other exchange, row and binding is as before. */
  ghost predicate DeletesExchange(h: Host, h': Host, name: string) {
    && h'.exchanges == h.exchanges - {name}
    && h'.exchangeTable == h.exchangeTable - (if name in h.exchanges && h.exchanges[name].durable then {name} else {})
    && Cleared(h.bindings, h'.bindings, (e, _) => e == name)
    && h' == h.(exchanges := h'.exchanges, exchangeTable := h'.exchangeTable, bindings := h'.bindings)
  }

  /** The queue's store is open afterwards even when the declaration fails. */
  ghost predicate DeclaresQueue(h: Host, h': Host, ok: bool, name: string, mq: MsgQueue, tableOk: bool) {
    && (ok <==> name in h.queues || !mq.durable || (tableOk && name !in h.queueTable))
    && Opens(h.stores, h'.stores, name)
    && (!ok || name in h.queues ==> h' == h.(stores := h'.stores))
    && (ok && name !in h.queues ==>
          && h'.queues == h.queues[name := mq]
          && h'.queueTable == (if mq.durable then h.queueTable[name := mq] else h.queueTable)
          && h' == h.(queues := h'.queues, queueTable := h'.queueTable, stores := h'.stores))
  }

  /** The queue, its row, its bindings and its store are gone; everything of other queues is as before. */
  ghost predicate DeletesQueue(h: Host, h': Host, name: string) {
    && h'.queues == h.queues - {name}
    && h'.queueTable == h.queueTable - (if name in h.queues && h.queues[name].durable then {name} else {})
    && Cleared(h.bindings, h'.bindings, (_, q) => q == name)
    && Closes(h.stores, h'.stores, name)
    && h' == h.(queues := h'.queues, queueTable := h'.queueTable, bindings := h'.bindings, stores := h'.stores)
  }

  /** Binding needs both ends, and its row is needed when both are durable. */
  ghost predicate BindsQueue(h: Host, h': Host, ok: bool, e: string, q: string, key: string, tableOk: bool) {
    if e !in h.exchanges || q !in h.queues then !ok && h' == h
    else
      && Binds(h.bindings, h'.bindings, ok, e, q, key, h.exchanges[e].durable && h.queues[q].durable, tableOk)
      && h' == h.(bindings := h'.bindings)
  }

  ghost predicate UnbindsQueue(h: Host, h': Host, e: string, q: string) {
    Unbinds(h.bindings, h'.bindings, e, q) && h' == h.(bindings := h'.bindings)
  }

  ghost predicate Publishes(h: Host, h': Host, ok: bool, q: string, p: Payload) {
    && (ok <==> q in h.queues && q in h.stores.open)
    && (if ok then Accepts(h.stores, h'.stores, q, p) && h' == h.(stores := h'.stores) else h' == h)
  }

  ghost predicate AcksQueue(h: Host, h': Host, ok: bool, q: string, id: Bytes) {
    if q !in h.queues then !ok && h' == h
    else Acks(h.stores, h'.stores, ok, q, id) && h' == h.(stores := h'.stores)
  }

  ghost predicate Consumes(h: Host, h': Host, r: Option<Payload>, q: string) {
    HandsOut(h.stores, h'.stores, r, q) && h' == h.(stores := h'.stores)
  }

  /** No earlier row is about the same exchange and queue. */
  predicate IsFirst(rows: seq<Row>, i: nat)
    requires i < |rows|
  {
    forall j :: 0 <= j < i ==> !(rows[j].exchange == rows[i].exchange && rows[j].queue == rows[i].queue)
  }

  /**
   * What comes back after a restart: the exchanges and queues of the tables, a binding for each pair that has a
   * row, with the key of its first row, for each queue a store with the valid records of its data file, and all
   * other data files untouched.
   */
  ghost predicate Restarts(h: Host, h': Host) {
    && h'.exchanges == h'.exchangeTable == h.exchangeTable
    && h'.queues == h'.queueTable == h.queueTable
    && h'.bindings.table == h.bindings.table
    && (forall e, q :: KeyOf(h'.bindings.inMemory, e, q).Some? <==>
          exists key :: Row(e, q, key) in h.bindings.table)
    && (forall i {:trigger IsFirst(h.bindings.table, i)} ::
          0 <= i < |h.bindings.table| && IsFirst(h.bindings.table, i) ==>
            var r := h.bindings.table[i];
            KeyOf(h'.bindings.inMemory, r.exchange, r.queue) == Some(r.key))
    && h'.stores.open.Keys == h.queueTable.Keys
    && (forall q :: q in h'.stores.open ==>
          h'.stores.open[q] == QueueSpec.QState([], map[], Live(
            if q in h.stores.open then h.stores.open[q].log
            else if q in h.stores.files then h.stores.files[q] else [])))
    && h'.stores.files.Keys == h.stores.open.Keys + h.stores.files.Keys - h.queueTable.Keys
    && (forall q :: q in h'.stores.files ==>
          h'.stores.files[q] == if q in h.stores.open then h.stores.open[q].log else h.stores.files[q])
  }

  lemma DeclareExchangeDeclares(h: Host, name: string, ex: Exchange, tableOk: bool)
    ensures var (ok, h') := DeclareExchange(h, name, ex, tableOk);
            DeclaresExchange(h, h', ok, name, ex, tableOk)
  {
  }

  lemma DeleteExchangeDeletes(h: Host, name: string)
    ensures DeletesExchange(h, DeleteExchange(h, name), name)
  {
    hide Cleared, RemoveExchangeBindings;
    RemoveExchangeClears(h.bindings, name);
  }

  lemma DeclareQueueDeclares(h: Host, name: string, mq: MsgQueue, tableOk: bool)
    ensures var (ok, h') := DeclareQueue(h, name, mq, tableOk);
            DeclaresQueue(h, h', ok, name, mq, tableOk)
  {
    hide Opens, InitStore;
    InitStoreOpens(h.stores, name);
  }

  lemma DeleteQueueDeletes(h: Host, name: string)
    ensures DeletesQueue(h, DeleteQueue(h, name), name)
  {
    hide Cleared, RemoveMsgQueueBindings, Closes, DestroyStore;
    RemoveQueueClears(h.bindings, name);
    DestroyStoreCloses(h.stores, name);
  }

  lemma BindQueueBinds(h: Host, e: string, q: string, key: string, tableOk: bool)
    ensures var (ok, h') := BindQueue(h, e, q, key, tableOk);
            BindsQueue(h, h', ok, e, q, key, tableOk)
  {
    hide Binds, HostSpec.Bind;
    if e in h.exchanges && q in h.queues {
      BindBinds(h.bindings, e, q, key, h.exchanges[e].durable && h.queues[q].durable, tableOk);
    }
  }

  lemma UnBindQueueUnbinds(h: Host, e: string, q: string)
    ensures UnbindsQueue(h, UnBindQueue(h, e, q), e, q)
  {
    hide Unbinds, HostSpec.UnBind;
    UnBindUnbinds(h.bindings, e, q);
  }

  lemma PublishPublishes(h: Host, q: string, p: Payload)
    ensures var (ok, h') := Publish(h, q, p);
            Publishes(h, h', ok, q, p)
  {
  }

  lemma AckAcks(h: Host, q: string, id: Bytes)
    ensures AcksQueue(h, Ack(h, q, id), q in h.queues && q in h.stores.open && id in h.stores.open[q].waiting, q, id)
  {
    hide Acks, AckStore;
    AckStoreAcks(h, q, id);
  }

  lemma ConsumeConsumes(h: Host, q: string)
    requires q in h.stores.open ==> h.stores.open[q].pending != []
    ensures Consumes(h, Consume(h, q), if q in h.stores.open then Some(h.stores.open[q].pending[0]) else None, q)
  {
  }

  lemma {:induction false} RebuildKeys(rows: seq<Row>, e: string, q: string)
    ensures KeyOf(Rebuild(rows), e, q).Some? <==> exists key :: Row(e, q, key) in rows
  {
    if rows != [] {
      var n := |rows| - 1;
      RebuildKeys(rows[..n], e, q);
      assert rows == rows[..n] + [rows[n]];
      assert rows[n] == Row(rows[n].exchange, rows[n].queue, rows[n].key);
      assert forall key :: Row(e, q, key) in rows <==> Row(e, q, key) in rows[..n] || Row(e, q, key) == rows[n];
    }
  }

  lemma {:induction false} FirstRowCounts(rows: seq<Row>, i: nat)
    requires i < |rows| && IsFirst(rows, i)
    ensures KeyOf(Rebuild(rows), rows[i].exchange, rows[i].queue) == Some(rows[i].key)
  {
    var n := |rows| - 1;
    var r := rows[i];
    if i < n {
      FirstRowCounts(rows[..n], i);
    } else {
      RebuildKeys(rows[..n], r.exchange, r.queue);
      forall key
        ensures Row(r.exchange, r.queue, key) !in rows[..n]
      {
        assert forall j :: 0 <= j < n ==> rows[..n][j] == rows[j];
      }
    }
  }

  lemma RestartedStores(s: Stores, qs: set<string>)
    ensures var s' := InitAll(Stores(map[], AllFiles(s)), qs);
            && s'.open.Keys == qs
            && (forall q :: q in s'.open ==> s'.open[q] == QueueSpec.QState([], map[], Live(
                  if q in s.open then s.open[q].log else if q in s.files then s.files[q] else [])))
            && s'.files.Keys == s.open.Keys + s.files.Keys - qs
            && (forall q :: q in s'.files ==> s'.files[q] == if q in s.open then s.open[q].log else s.files[q])
  {
  }

  lemma RestartRestarts(h: Host)
    ensures Restarts(h, Restart(h))
  {
    hide Rebuild, KeyOf, AllFiles, InitAll;
    RestartedStores(h.stores, h.queueTable.Keys);
    forall e, q
      ensures KeyOf(Rebuild(h.bindings.table), e, q).Some? <==> exists key :: Row(e, q, key) in h.bindings.table
    {
      RebuildKeys(h.bindings.table, e, q);
    }
    forall i: nat | i < |h.bindings.table| && IsFirst(h.bindings.table, i)
      ensures var r := h.bindings.table[i];
              KeyOf(Rebuild(h.bindings.table), r.exchange, r.queue) == Some(r.key)
    {
      FirstRowCounts(h.bindings.table, i);
    }
  }

  /** A host started over tables and data files is one restarted from a host that left them. */
  lemma StartRestarts(exchangeTable: map<string, Exchange>, queueTable: map<string, MsgQueue>,
                      bindingTable: seq<Row>, files: map<string, seq<Payload>>)
    ensures Restarts(Host(map[], exchangeTable, map[], queueTable, Bindings(map[], bindingTable), Stores(map[], files)),
                     Host(exchangeTable, exchangeTable, queueTable, queueTable,
                          Bindings(Rebuild(bindingTable), bindingTable),
                          InitAll(Stores(map[], files), queueTable.Keys)))
  {
    hide Restarts, Rebuild, InitAll;
    var h := Host(map[], exchangeTable, map[], queueTable, Bindings(map[], bindingTable), Stores(map[], files));
    assert AllFiles(h.stores) == files;
    RestartRestarts(h);
  }

  /** The host after the first step of deleting an exchange. */
  ghost predicate HalfDeletes(h: Host, h': Host, name: string) {
    Cleared(h.bindings, h'.bindings, (e, _) => e == name) && h' == h.(bindings := h'.bindings)
  }

  /** What each operation of a run does. */
  ghost predicate Effect(h: Host, h': Host, op: Op) {
    match op
    case DeclareExchangeOp(name, ex, tableOk) => exists ok :: DeclaresExchange(h, h', ok, name, ex, tableOk)
    case DeleteExchangeOp(name) => DeletesExchange(h, h', name)
    case DeclareQueueOp(name, mq, tableOk) => exists ok :: DeclaresQueue(h, h', ok, name, mq, tableOk)
    case DeleteQueueOp(name) => DeletesQueue(h, h', name)
    case BindOp(e, q, key, tableOk) => exists ok :: BindsQueue(h, h', ok, e, q, key, tableOk)
    case UnBindOp(e, q) => UnbindsQueue(h, h', e, q)
    case PublishOp(q, payload) => exists ok :: Publishes(h, h', ok, q, payload)
    case AckOp(q, id) => exists ok :: AcksQueue(h, h', ok, q, id)
    case ConsumeOp(q) => exists r :: Consumes(h, h', r, q)
    case RestartOp => Restarts(h, h')
    case CrashInDeleteExchangeOp(name) => exists half :: HalfDeletes(h, half, name) && Restarts(half, h')
  }

  /** Every step of a run has the effect of its operation. */
  lemma StepHasEffect(h: Host, op: Op)
    requires Allowed(h, op)
    ensures Effect(h, Do(h, op), op)
  {
    hide DeclaresExchange, DeletesExchange, DeclaresQueue, DeletesQueue, BindsQueue, UnbindsQueue, Publishes,
         AcksQueue, Consumes, Restarts, Cleared, DeclareExchange, DeleteExchange, DeclareQueue, DeleteQueue,
         BindQueue, UnBindQueue, Publish, Ack, Consume, Restart, RemoveExchangeBindings;
    match op
    case DeclareExchangeOp(name, ex, tableOk) => DeclareExchangeDeclares(h, name, ex, tableOk);
    case DeleteExchangeOp(name) => DeleteExchangeDeletes(h, name);
    case DeclareQueueOp(name, mq, tableOk) => DeclareQueueDeclares(h, name, mq, tableOk);
    case DeleteQueueOp(name) => DeleteQueueDeletes(h, name);
    case BindOp(e, q, key, tableOk) => BindQueueBinds(h, e, q, key, tableOk);
    case UnBindOp(e, q) => UnBindQueueUnbinds(h, e, q);
    case PublishOp(q, payload) => PublishPublishes(h, q, payload);
    case AckOp(q, id) => AckAcks(h, q, id);
    case ConsumeOp(q) => ConsumeConsumes(h, q);
    case RestartOp => RestartRestarts(h);
    case CrashInDeleteExchangeOp(name) =>
      RemoveExchangeClears(h.bindings, name);
      RestartRestarts(HalfDeletedExchange(h, name));
      assert HalfDeletes(h, HalfDeletedExchange(h, name), name);
  }
}
