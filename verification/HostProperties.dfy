/** Consistency of the host's maps with each other and with its tables, over whole runs and restarts. */
module HostProperties {
  import opened Bytes
  import opened Payload
  import opened HostSpec
  import QueueSpec

  function DurableExchanges(es: map<string, Exchange>): map<string, Exchange> {
    map e | e in es && es[e].durable :: es[e]
  }

  function DurableQueues(qs: map<string, MsgQueue>): map<string, MsgQueue> {
    map q | q in qs && qs[q].durable :: qs[q]
  }

  predicate NoDuplicates(rows: seq<Row>) {
    forall i, j :: 0 <= i < j < |rows| ==> !(rows[i].exchange == rows[j].exchange && rows[i].queue == rows[j].queue)
  }

  predicate DurableBoth(es: map<string, Exchange>, qs: map<string, MsgQueue>, e: string, q: string) {
    e in es && q in qs && es[e].durable && qs[q].durable
  }

  /** Every binding names an existing exchange and an existing queue. */
  ghost predicate NoDangling(bs: BindingMap, es: map<string, Exchange>, qs: map<string, MsgQueue>) {
    forall e, q {:trigger Bound(bs, e, q)} :: Bound(bs, e, q) ==> e in es && q in qs
  }

  /** The table has exactly one row for each binding of a durable queue to a durable exchange. */
  ghost predicate TableAgrees(b: Bindings, es: map<string, Exchange>, qs: map<string, MsgQueue>) {
    && NoDuplicates(b.table)
    && (forall e, q, key {:trigger Row(e, q, key)} :: Row(e, q, key) in b.table <==>
          Bound(b.inMemory, e, q) && b.inMemory[e][q] == key && DurableBoth(es, qs, e, q))
  }

  predicate StoresOk(h: Host) {
    h.queues.Keys <= h.stores.open.Keys && h.stores.open.Keys !! h.stores.files.Keys
  }

  ghost predicate Integrity(h: Host) {
    && NoDangling(h.bindings.inMemory, h.exchanges, h.queues)
    && TableAgrees(h.bindings, h.exchanges, h.queues)
    && h.exchangeTable == DurableExchanges(h.exchanges)
    && h.queueTable == DurableQueues(h.queues)
    && StoresOk(h)
  }

  lemma {:induction false} SelectMembers(rows: seq<Row>, keep: Row -> bool)
    ensures forall r :: r in Select(rows, keep) <==> r in rows && keep(r)
  {
    if rows != [] {
      SelectMembers(rows[1..], keep);
      assert rows == [rows[0]] + rows[1..];
    }
  }

  lemma {:induction false} SelectKeepsNoDuplicates(rows: seq<Row>, keep: Row -> bool)
    requires NoDuplicates(rows)
    ensures NoDuplicates(Select(rows, keep))
  {
    if rows != [] {
      var rest := Select(rows[1..], keep);
      SelectKeepsNoDuplicates(rows[1..], keep);
      SelectMembers(rows[1..], keep);
      if keep(rows[0]) {
        forall j | 0 <= j < |rest|
          ensures !(rows[0].exchange == rest[j].exchange && rows[0].queue == rest[j].queue)
        {
          assert rest[j] in rows[1..];
          var k :| 0 <= k < |rows[1..]| && rows[1..][k] == rest[j];
          assert rows[k + 1] == rest[j];
        }
      }
    }
  }

  /** What goes on inside the open stores does not touch the consistency of the host. */
  lemma StoreContentsDoNotMatter(h: Host, h': Host)
    requires Integrity(h) && h' == h.(stores := h'.stores)
    requires h'.stores.open.Keys == h.stores.open.Keys && h'.stores.files == h.stores.files
    ensures Integrity(h')
  {
    hide NoDangling, TableAgrees;
  }

  // The binding operations.

  lemma BindKeeps(b: Bindings, es: map<string, Exchange>, qs: map<string, MsgQueue>, e: string, q: string,
                  key: string, tableOk: bool)
    requires NoDangling(b.inMemory, es, qs) && TableAgrees(b, es, qs) && e in es && q in qs
    ensures var (ok, b') := Bind(b, e, q, key, es[e].durable && qs[q].durable, tableOk);
            NoDangling(b'.inMemory, es, qs) && TableAgrees(b', es, qs)
  {
    var (ok, b') := Bind(b, e, q, key, es[e].durable && qs[q].durable, tableOk);
    if b' != b {
      assert forall e', q' :: Bound(b'.inMemory, e', q') <==> Bound(b.inMemory, e', q') || (e' == e && q' == q);
      if DurableBoth(es, qs, e, q) {
        AppendKeepsNoDuplicates(b, es, qs, Row(e, q, key));
      }
    }
  }

  lemma AppendKeepsNoDuplicates(b: Bindings, es: map<string, Exchange>, qs: map<string, MsgQueue>, row: Row)
    requires TableAgrees(b, es, qs) && !Bound(b.inMemory, row.exchange, row.queue)
    ensures NoDuplicates(b.table + [row])
  {
    forall i | 0 <= i < |b.table|
      ensures !(b.table[i].exchange == row.exchange && b.table[i].queue == row.queue)
    {
      var r := b.table[i];
      assert Row(r.exchange, r.queue, r.key) in b.table;
    }
  }

  lemma UnBindKeeps(b: Bindings, es: map<string, Exchange>, qs: map<string, MsgQueue>, e: string, q: string)
    requires NoDangling(b.inMemory, es, qs) && TableAgrees(b, es, qs)
    ensures NoDangling(UnBind(b, e, q).inMemory, es, qs) && TableAgrees(UnBind(b, e, q), es, qs)
  {
    var b' := UnBind(b, e, q);
    var keep := (r: Row) => !(r.exchange == e && r.queue == q);
    SelectMembers(b.table, keep);
    SelectKeepsNoDuplicates(b.table, keep);
    assert forall e', q' :: Bound(b'.inMemory, e', q') <==> Bound(b.inMemory, e', q') && !(e' == e && q' == q);
  }

  lemma RemoveExchangeKeeps(b: Bindings, es: map<string, Exchange>, qs: map<string, MsgQueue>, e: string)
    requires NoDangling(b.inMemory, es, qs) && TableAgrees(b, es, qs)
    ensures var b' := RemoveExchangeBindings(b, e);
            && NoDangling(b'.inMemory, es - {e}, qs) && TableAgrees(b', es - {e}, qs)
            && NoDangling(b'.inMemory, es, qs) && TableAgrees(b', es, qs)
  {
    var b' := RemoveExchangeBindings(b, e);
    var keep := (r: Row) => r.exchange != e;
    SelectMembers(b.table, keep);
    SelectKeepsNoDuplicates(b.table, keep);
    assert forall e', q' :: Bound(b'.inMemory, e', q') <==> Bound(b.inMemory, e', q') && e' != e;
  }

  lemma RemoveQueueKeeps(b: Bindings, es: map<string, Exchange>, qs: map<string, MsgQueue>, q: string)
    requires NoDangling(b.inMemory, es, qs) && TableAgrees(b, es, qs)
    ensures var b' := RemoveMsgQueueBindings(b, q);
            NoDangling(b'.inMemory, es, qs - {q}) && TableAgrees(b', es, qs - {q})
  {
    var b' := RemoveMsgQueueBindings(b, q);
    var keep := (r: Row) => r.queue != q;
    SelectMembers(b.table, keep);
    SelectKeepsNoDuplicates(b.table, keep);
    assert forall e', q' :: Bound(b'.inMemory, e', q') <==> Bound(b.inMemory, e', q') && q' != q;
  }

  // A new exchange or queue has no bindings yet, so the tables still agree.

  lemma AddExchangeKeeps(b: Bindings, es: map<string, Exchange>, qs: map<string, MsgQueue>, e: string, ex: Exchange)
    requires NoDangling(b.inMemory, es, qs) && TableAgrees(b, es, qs) && e !in es
    ensures NoDangling(b.inMemory, es[e := ex], qs) && TableAgrees(b, es[e := ex], qs)
  {
  }

  lemma AddQueueKeeps(b: Bindings, es: map<string, Exchange>, qs: map<string, MsgQueue>, q: string, mq: MsgQueue)
    requires NoDangling(b.inMemory, es, qs) && TableAgrees(b, es, qs) && q !in qs
    ensures NoDangling(b.inMemory, es, qs[q := mq]) && TableAgrees(b, es, qs[q := mq])
  {
  }

  // Reading the binding table back.

  /** The map holds exactly the bindings the rows list. */
  ghost predicate ReadsAs(bs: BindingMap, rows: seq<Row>) {
    forall e, q, key {:trigger Row(e, q, key)} ::
      Row(e, q, key) in rows <==> Bound(bs, e, q) && bs[e][q] == key
  }

  lemma {:induction false} RebuildReads(rows: seq<Row>)
    requires NoDuplicates(rows)
    ensures ReadsAs(Rebuild(rows), rows)
  {
    if rows != [] {
      var n := |rows| - 1;
      var init, r := rows[..n], rows[n];
      assert rows == init + [r];
      RebuildReads(init);
      LastIsNew(init, r);
      ReadOneMore(Rebuild(init), init, r);
    }
  }

  lemma LastIsNew(init: seq<Row>, r: Row)
    requires NoDuplicates(init + [r]) && ReadsAs(Rebuild(init), init)
    ensures !Bound(Rebuild(init), r.exchange, r.queue)
  {
    forall i | 0 <= i < |init|
      ensures !(init[i].exchange == r.exchange && init[i].queue == r.queue)
    {
      assert (init + [r])[i] == init[i] && (init + [r])[|init|] == r;
    }
    assert forall key :: Row(r.exchange, r.queue, key) !in init;
    assert Bound(Rebuild(init), r.exchange, r.queue)
           ==> Row(r.exchange, r.queue, Rebuild(init)[r.exchange][r.queue]) in init;
  }

  lemma ReadOneMore(bs: BindingMap, init: seq<Row>, r: Row)
    requires ReadsAs(bs, init) && !Bound(bs, r.exchange, r.queue)
    ensures ReadsAs(SetBinding(bs, r.exchange, r.queue, r.key), init + [r])
  {
    var bs' := SetBinding(bs, r.exchange, r.queue, r.key);
    assert forall e, q :: Bound(bs', e, q) <==> Bound(bs, e, q) || (e == r.exchange && q == r.queue);
    assert r == Row(r.exchange, r.queue, r.key);
  }

  // Host operations.

  datatype Op =
    | DeclareExchangeOp(name: string, ex: Exchange, tableOk: bool)
    | DeleteExchangeOp(name: string)
    | DeclareQueueOp(name: string, mq: MsgQueue, tableOk: bool)
    | DeleteQueueOp(name: string)
    | BindOp(e: string, q: string, key: string, tableOk: bool)
    | UnBindOp(e: string, q: string)
    | PublishOp(q: string, payload: Payload)
    | AckOp(q: string, id: Bytes)
    | ConsumeOp(q: string)
    | RestartOp
    // The process dies between the two steps of DeleteExchange and is started again.
    | CrashInDeleteExchangeOp(name: string)

  predicate Allowed(h: Host, op: Op) {
    op.ConsumeOp? && op.q in h.stores.open ==> h.stores.open[op.q].pending != []
  }

  function Do(h: Host, op: Op): Host
    requires Allowed(h, op)
  {
    match op
    case DeclareExchangeOp(name, ex, tableOk) => DeclareExchange(h, name, ex, tableOk).1
    case DeleteExchangeOp(name) => DeleteExchange(h, name)
    case DeclareQueueOp(name, mq, tableOk) => DeclareQueue(h, name, mq, tableOk).1
    case DeleteQueueOp(name) => DeleteQueue(h, name)
    case BindOp(e, q, key, tableOk) => BindQueue(h, e, q, key, tableOk).1
    case UnBindOp(e, q) => UnBindQueue(h, e, q)
    case PublishOp(q, payload) => Publish(h, q, payload).1
    case AckOp(q, id) => Ack(h, q, id)
    case ConsumeOp(q) => Consume(h, q)
    case RestartOp => Restart(h)
    case CrashInDeleteExchangeOp(name) => Restart(HalfDeletedExchange(h, name))
  }

  /** After the first of the two steps of DeleteExchange. */
  function HalfDeletedExchange(h: Host, name: string): Host {
    h.(bindings := RemoveExchangeBindings(h.bindings, name))
  }

  predicate RunAllowed(h: Host, ops: seq<Op>)
    decreases |ops|
  {
    ops == [] || (Allowed(h, ops[0]) && RunAllowed(Do(h, ops[0]), ops[1..]))
  }

  function Run(h: Host, ops: seq<Op>): Host
    requires RunAllowed(h, ops)
    decreases |ops|
  {
    if ops == [] then h else Run(Do(h, ops[0]), ops[1..])
  }

  lemma DeclareExchangeKeeps(h: Host, name: string, ex: Exchange, tableOk: bool)
    requires Integrity(h)
    ensures Integrity(DeclareExchange(h, name, ex, tableOk).1)
    ensures DeclareExchange(h, name, ex, tableOk).0 <==> name in h.exchanges || !ex.durable || tableOk
    ensures !DeclareExchange(h, name, ex, tableOk).0 ==> DeclareExchange(h, name, ex, tableOk).1 == h
  {
    hide NoDangling, TableAgrees;
    if name !in h.exchanges {
      AddExchangeKeeps(h.bindings, h.exchanges, h.queues, name, ex);
    }
  }

  lemma DeleteExchangeKeeps(h: Host, name: string)
    requires Integrity(h)
    ensures Integrity(DeleteExchange(h, name)) && Integrity(HalfDeletedExchange(h, name))
  {
    hide NoDangling, TableAgrees;
    RemoveExchangeKeeps(h.bindings, h.exchanges, h.queues, name);
    if name in h.exchanges {
      assert DurableExchanges(h.exchanges - {name})
          == if h.exchanges[name].durable then h.exchangeTable - {name} else h.exchangeTable;
    }
  }

  lemma AddQueueKeepsIntegrity(h: Host, name: string, mq: MsgQueue, tableOk: bool)
    requires Integrity(h) && name in h.stores.open
    ensures Integrity(AddQueue(h, name, mq, tableOk).1)
  {
    hide NoDangling, TableAgrees;
    if name !in h.queues {
      AddQueueKeeps(h.bindings, h.exchanges, h.queues, name, mq);
    }
  }

  lemma DropQueueKeepsIntegrity(h: Host, name: string)
    requires Integrity(h)
    ensures Integrity(DropQueueBindings(DropQueue(h, name), name))
  {
    hide NoDangling, TableAgrees;
    RemoveQueueKeeps(h.bindings, h.exchanges, h.queues, name);
    if name in h.queues {
      assert DurableQueues(h.queues - {name})
          == if h.queues[name].durable then h.queueTable - {name} else h.queueTable;
    } else {
      assert h.queues - {name} == h.queues;
    }
  }

  lemma DeclareQueueKeeps(h: Host, name: string, mq: MsgQueue, tableOk: bool)
    requires Integrity(h)
    ensures Integrity(DeclareQueue(h, name, mq, tableOk).1)
    ensures DeclareQueue(h, name, mq, tableOk).0 <==> name in h.queues || !mq.durable || tableOk
  {
    hide NoDangling, TableAgrees, QueueSpec.Recovered;
    AddQueueKeepsIntegrity(OpenStore(h, name), name, mq, tableOk);
  }

  lemma DeleteQueueKeeps(h: Host, name: string)
    requires Integrity(h)
    ensures Integrity(DeleteQueue(h, name))
  {
    hide NoDangling, TableAgrees, RemoveMsgQueueBindings;
    DropQueueKeepsIntegrity(h, name);
  }

  /** Restarting over the tables gives a host that holds together again. */
  lemma RestartKeeps(h: Host)
    requires Integrity(h)
    ensures Integrity(Restart(h))
    ensures forall e, q {:trigger Bound(Restart(h).bindings.inMemory, e, q)} ::
              Bound(Restart(h).bindings.inMemory, e, q)
              <==> Bound(h.bindings.inMemory, e, q) && DurableBoth(h.exchanges, h.queues, e, q)
    ensures forall e, q {:trigger Bound(Restart(h).bindings.inMemory, e, q)} ::
              Bound(Restart(h).bindings.inMemory, e, q) ==>
              Restart(h).bindings.inMemory[e][q] == h.bindings.inMemory[e][q]
  {
    var rows, bs := h.bindings.table, Rebuild(h.bindings.table);
    RebuildReads(rows);
    forall e, q
      ensures Bound(bs, e, q) <==> Bound(h.bindings.inMemory, e, q) && DurableBoth(h.exchanges, h.queues, e, q)
      ensures Bound(bs, e, q) ==> bs[e][q] == h.bindings.inMemory[e][q]
    {
      if Bound(bs, e, q) {
        assert Row(e, q, bs[e][q]) in rows;
      }
      if Bound(h.bindings.inMemory, e, q) && DurableBoth(h.exchanges, h.queues, e, q) {
        assert Row(e, q, h.bindings.inMemory[e][q]) in rows;
      }
    }
    assert DurableExchanges(h.exchangeTable) == h.exchangeTable;
    assert DurableQueues(h.queueTable) == h.queueTable;
  }

  lemma StepKeepsIntegrity(h: Host, op: Op)
    requires Integrity(h) && Allowed(h, op)
    ensures Integrity(Do(h, op))
  {
    hide NoDangling, TableAgrees;
    match op
    case DeclareExchangeOp(name, ex, tableOk) => DeclareExchangeKeeps(h, name, ex, tableOk);
    case DeleteExchangeOp(name) => DeleteExchangeKeeps(h, name);
    case DeclareQueueOp(name, mq, tableOk) => DeclareQueueKeeps(h, name, mq, tableOk);
    case DeleteQueueOp(name) => DeleteQueueKeeps(h, name);
    case BindOp(e, q, key, tableOk) =>
      if e in h.exchanges && q in h.queues {
        BindKeeps(h.bindings, h.exchanges, h.queues, e, q, key, tableOk);
      }
    case UnBindOp(e, q) => UnBindKeeps(h.bindings, h.exchanges, h.queues, e, q);
    case RestartOp => RestartKeeps(h);
    case CrashInDeleteExchangeOp(name) =>
      DeleteExchangeKeeps(h, name);
      RestartKeeps(HalfDeletedExchange(h, name));
    case _ =>
  }

  /**
   * In every state reached by declaring, deleting, binding, unbinding, publishing, consuming, acknowledging,
   * restarting and crashing inside DeleteExchange, whichever table insertions fail: no binding dangles, every
   * queue has a store, and each table holds exactly what is durable.
   */
  lemma {:induction false} RunKeepsIntegrity(h: Host, ops: seq<Op>)
    requires Integrity(h) && RunAllowed(h, ops)
    ensures Integrity(Run(h, ops))
    decreases |ops|
  {
    if ops != [] {
      StepKeepsIntegrity(h, ops[0]);
      RunKeepsIntegrity(Do(h, ops[0]), ops[1..]);
    }
  }

  /** A host started over empty tables, with whatever data files there are. */
  function Fresh(files: map<string, seq<Payload>>): Host {
    Host(map[], map[], map[], map[], Bindings(map[], []), Stores(map[], files))
  }

  lemma FreshHolds(files: map<string, seq<Payload>>)
    ensures Integrity(Fresh(files))
  {
  }

  /**
   * Restart is projection: what comes back is exactly the durable exchanges, the durable queues, the bindings
   * between them, and for each durable queue a store holding the valid records of its data file.
   */
  lemma RestartIsProjection(files: map<string, seq<Payload>>, ops: seq<Op>)
    requires RunAllowed(Fresh(files), ops)
    ensures var h := Run(Fresh(files), ops);
            var r := Restart(h);
            && Integrity(r)
            && r.exchanges == DurableExchanges(h.exchanges) && r.queues == DurableQueues(h.queues)
            && (forall e, q {:trigger Bound(r.bindings.inMemory, e, q)} ::
                  Bound(r.bindings.inMemory, e, q)
                  <==> Bound(h.bindings.inMemory, e, q) && e in r.exchanges && q in r.queues)
            && (forall e, q {:trigger Bound(r.bindings.inMemory, e, q)} ::
                  Bound(r.bindings.inMemory, e, q) ==> r.bindings.inMemory[e][q] == h.bindings.inMemory[e][q])
            && r.stores.open.Keys == r.queues.Keys
            && r.queues.Keys <= h.stores.open.Keys
            && (forall q :: q in r.queues ==> r.stores.open[q] == QueueSpec.Recovered(h.stores.open[q].log))
            && Restart(r).exchanges == r.exchanges && Restart(r).queues == r.queues
  {
    FreshHolds(files);
    RunKeepsIntegrity(Fresh(files), ops);
    RestartKeeps(Run(Fresh(files), ops));
  }

  /**
   * DeleteQueue removes the queue's row first and its bindings second. A crash in between leaves tables from
   * which the host rebuilds without a dangling binding if and only if the queue had no durable binding.
   */
  lemma CrashInDeleteQueue(h: Host, name: string)
    requires Integrity(h) && name in h.queues && h.queues[name].durable
    ensures Integrity(Restart(DropQueue(h, name)))
       <==> forall e :: !(Bound(h.bindings.inMemory, e, name) && DurableBoth(h.exchanges, h.queues, e, name))
  {
    var half := DropQueue(h, name);
    var r := Restart(half);
    RebuildReads(h.bindings.table);
    if e :| Bound(h.bindings.inMemory, e, name) && DurableBoth(h.exchanges, h.queues, e, name) {
      assert Row(e, name, h.bindings.inMemory[e][name]) in h.bindings.table;
      assert Bound(r.bindings.inMemory, e, name) && name !in r.queues;
    } else {
      HalfDeletedQueueAgrees(h, name);
    }
  }

  lemma HalfDeletedQueueAgrees(h: Host, name: string)
    requires Integrity(h) && name in h.queues && h.queues[name].durable
    requires forall e :: !(Bound(h.bindings.inMemory, e, name) && DurableBoth(h.exchanges, h.queues, e, name))
    ensures Integrity(Restart(DropQueue(h, name)))
  {
    var r := Restart(DropQueue(h, name));
    var bs := r.bindings.inMemory;
    RebuildReads(h.bindings.table);
    forall e, q
      ensures Bound(bs, e, q) ==> Row(e, q, bs[e][q]) in h.bindings.table && DurableBoth(r.exchanges, r.queues, e, q)
    {
      if Bound(bs, e, q) {
        assert Row(e, q, bs[e][q]) in h.bindings.table;
      }
    }
    assert DurableExchanges(r.exchanges) == r.exchanges && DurableQueues(r.queues) == r.queues;
  }
}
