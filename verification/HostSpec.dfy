/**
 * What a virtual host means (`server/host.hpp`): exchanges, queues and bindings in memory, the three tables
 * that persist them, and the message store of each queue. Every operation is a function on this state.
 * `tableOk` says whether the insertion into a table, if one is attempted, succeeds.
 */
module HostSpec {
  import opened Bytes
  import opened Payload
  import Router
  import QueueSpec

  datatype Exchange = Exchange(kind: Router.ExchangeType, durable: bool, autoDelete: bool)

  datatype MsgQueue = MsgQueue(durable: bool, exclusive: bool, autoDelete: bool)

  /** A row of the binding table. */
  datatype Row = Row(exchange: string, queue: string, key: string)

  // Exchange name, then queue name, to binding key.
  type BindingMap = map<string, map<string, string>>

  datatype Bindings = Bindings(inMemory: BindingMap, table: seq<Row>)

  /** The open stores, and the records in the data files no store has open. */
  datatype Stores = Stores(open: map<string, QueueSpec.QState>, files: map<string, seq<Payload>>)

  datatype Host = Host(
    exchanges: map<string, Exchange>, exchangeTable: map<string, Exchange>,
    queues: map<string, MsgQueue>, queueTable: map<string, MsgQueue>,
    bindings: Bindings,
    stores: Stores)

  // Bindings.

  predicate Bound(bs: BindingMap, e: string, q: string) {
    e in bs && q in bs[e]
  }

  function OfExchange(bs: BindingMap, e: string): map<string, string> {
    if e in bs then bs[e] else map[]
  }

  function SetBinding(bs: BindingMap, e: string, q: string, key: string): BindingMap {
    bs[e := OfExchange(bs, e)[q := key]]
  }

  function ClearBinding(bs: BindingMap, e: string, q: string): BindingMap {
    if e in bs then bs[e := bs[e] - {q}] else bs
  }

  function ClearQueue(bs: BindingMap, q: string): BindingMap {
    map e | e in bs :: bs[e] - {q}
  }

  /** The rows that `keep` accepts, in order. */
  function Select(rows: seq<Row>, keep: Row -> bool): seq<Row> {
    if rows == [] then []
    else if keep(rows[0]) then [rows[0]] + Select(rows[1..], keep)
    else Select(rows[1..], keep)
  }

  function Bind(b: Bindings, e: string, q: string, key: string, durable: bool, tableOk: bool): (bool, Bindings) {
    if Bound(b.inMemory, e, q) then (true, b)
    else if durable && !tableOk then (false, b)
    else (true, Bindings(SetBinding(b.inMemory, e, q, key), if durable then b.table + [Row(e, q, key)] else b.table))
  }

  function UnBind(b: Bindings, e: string, q: string): Bindings {
    if !Bound(b.inMemory, e, q) then b
    else Bindings(ClearBinding(b.inMemory, e, q), Select(b.table, (r: Row) => !(r.exchange == e && r.queue == q)))
  }

  function RemoveExchangeBindings(b: Bindings, e: string): Bindings {
    Bindings(b.inMemory - {e}, Select(b.table, (r: Row) => r.exchange != e))
  }

  function RemoveMsgQueueBindings(b: Bindings, q: string): Bindings {
    Bindings(ClearQueue(b.inMemory, q), Select(b.table, (r: Row) => r.queue != q))
  }

  /** Reading the rows back: the first row of an exchange and a queue counts. */
  function Rebuild(rows: seq<Row>): BindingMap {
    if rows == [] then map[]
    else
      var r, bs := rows[|rows| - 1], Rebuild(rows[..|rows| - 1]);
      if Bound(bs, r.exchange, r.queue) then bs else SetBinding(bs, r.exchange, r.queue, r.key)
  }

  // Message stores.

  function InitStore(s: Stores, q: string): Stores {
    if q in s.open then s
    else Stores(s.open[q := QueueSpec.Recovered(if q in s.files then s.files[q] else [])], s.files - {q})
  }

  function DestroyStore(s: Stores, q: string): Stores {
    s.(open := s.open - {q})
  }

  /** The records in the data file of a queue. */
  function FileOf(s: Stores, q: string): seq<Payload> {
    if q in s.open then s.open[q].log else if q in s.files then s.files[q] else []
  }

  function AllFiles(s: Stores): map<string, seq<Payload>> {
    map q | q in s.open.Keys + s.files.Keys :: FileOf(s, q)
  }

  function InitAll(s: Stores, qs: set<string>): Stores {
    Stores(s.open + (map q | q in qs - s.open.Keys :: QueueSpec.Recovered(if q in s.files then s.files[q] else [])),
           s.files - (qs - s.open.Keys))
  }

  // Host operations.

  function DeclareExchange(h: Host, name: string, ex: Exchange, tableOk: bool): (bool, Host) {
    if name in h.exchanges then (true, h)
    else if ex.durable && !(tableOk && name !in h.exchangeTable) then (false, h)
    else (true, h.(exchanges := h.exchanges[name := ex],
                   exchangeTable := if ex.durable then h.exchangeTable[name := ex] else h.exchangeTable))
  }

  function DropExchange(h: Host, name: string): Host {
    if name !in h.exchanges then h
    else h.(exchanges := h.exchanges - {name},
            exchangeTable := if h.exchanges[name].durable then h.exchangeTable - {name} else h.exchangeTable)
  }

  function DeleteExchange(h: Host, name: string): Host {
    DropExchange(h.(bindings := RemoveExchangeBindings(h.bindings, name)), name)
  }

  function OpenStore(h: Host, name: string): Host {
    h.(stores := InitStore(h.stores, name))
  }

  function AddQueue(h: Host, name: string, mq: MsgQueue, tableOk: bool): (bool, Host) {
    if name in h.queues then (true, h)
    else if mq.durable && !(tableOk && name !in h.queueTable) then (false, h)
    else (true, h.(queues := h.queues[name := mq],
                   queueTable := if mq.durable then h.queueTable[name := mq] else h.queueTable))
  }

  /** The store is opened first, whether or not the declaration then succeeds. */
  function DeclareQueue(h: Host, name: string, mq: MsgQueue, tableOk: bool): (bool, Host) {
    AddQueue(OpenStore(h, name), name, mq, tableOk)
  }

  function DropQueue(h: Host, name: string): Host {
    if name !in h.queues then h
    else h.(queues := h.queues - {name},
            queueTable := if h.queues[name].durable then h.queueTable - {name} else h.queueTable)
  }

  function DropQueueBindings(h: Host, name: string): Host {
    h.(bindings := RemoveMsgQueueBindings(h.bindings, name))
  }

  function DropStore(h: Host, name: string): Host {
    h.(stores := DestroyStore(h.stores, name))
  }

  /** The queue goes first, then its bindings, then its store. */
  function DeleteQueue(h: Host, name: string): Host {
    DropStore(DropQueueBindings(DropQueue(h, name), name), name)
  }

  function BindQueue(h: Host, e: string, q: string, key: string, tableOk: bool): (bool, Host) {
    if e !in h.exchanges || q !in h.queues then (false, h)
    else
      var (ok, bindings) := Bind(h.bindings, e, q, key, h.exchanges[e].durable && h.queues[q].durable, tableOk);
      (ok, h.(bindings := bindings))
  }

  function UnBindQueue(h: Host, e: string, q: string): Host {
    h.(bindings := UnBind(h.bindings, e, q))
  }

  function Publish(h: Host, q: string, p: Payload): (bool, Host) {
    if q !in h.queues || q !in h.stores.open then (false, h)
    else (true, h.(stores := h.stores.(open := h.stores.open[q := QueueSpec.Insert(h.stores.open[q], p)])))
  }

  function AckStore(h: Host, q: string, id: Bytes): Host {
    if q !in h.stores.open then h
    else h.(stores := h.stores.(open := h.stores.open[q := QueueSpec.Remove(h.stores.open[q], id)]))
  }

  function Ack(h: Host, q: string, id: Bytes): Host {
    if q in h.queues then AckStore(h, q, id) else h
  }

  function Consume(h: Host, q: string): Host
    requires q in h.stores.open ==> h.stores.open[q].pending != []
  {
    if q !in h.stores.open then h
    else h.(stores := h.stores.(open := h.stores.open[q := QueueSpec.Front(h.stores.open[q])]))
  }

  /** Starting the host over the tables and data files another one left. */
  function Restart(h: Host): Host {
    Host(h.exchangeTable, h.exchangeTable, h.queueTable, h.queueTable,
         Bindings(Rebuild(h.bindings.table), h.bindings.table),
         InitAll(Stores(map[], AllFiles(h.stores)), h.queueTable.Keys))
  }
}
