/**
 * The four managers of a virtual host and the host itself (`server/exchange.hpp`, `server/msgqueue.hpp`,
 * `server/binding.hpp`, `server/host.hpp`). A table is a map or a list of rows beside the manager's own map.
 */
module VirtualHost {
  import opened Bytes
  import opened Payload
  import opened HostSpec
  import opened Options
  import HostEffects
  import QueueSpec

  class ExchangeManager {
    var exchanges: map<string, Exchange>
    var table: map<string, Exchange>

    constructor (table: map<string, Exchange>)
      ensures exchanges == table && this.table == table
    {
      this.exchanges, this.table := table, table;
    }

    method DeclareExchange(name: string, ex: Exchange, tableOk: bool) returns (ok: bool)
      modifies this
      ensures ok == (name in old(exchanges) || !ex.durable || (tableOk && name !in old(table)))
      ensures exchanges == if ok && name !in old(exchanges) then old(exchanges)[name := ex] else old(exchanges)
      ensures table == if ok && name !in old(exchanges) && ex.durable then old(table)[name := ex] else old(table)
    {
      if name in exchanges {
        return true;
      }
      if ex.durable {
        if !tableOk || name in table {
          return false;
        }
        table := table[name := ex];
      }
      exchanges := exchanges[name := ex];
      return true;
    }

    method DeleteExchange(name: string)
      modifies this
      ensures exchanges == old(exchanges) - {name}
      ensures table == if name in old(exchanges) && old(exchanges)[name].durable then old(table) - {name}
                       else old(table)
    {
      if name !in exchanges {
        return;
      }
      if exchanges[name].durable {
        table := table - {name};
      }
      exchanges := exchanges - {name};
    }

    method SelectExchange(name: string) returns (r: Option<Exchange>)
      ensures r == if name in exchanges then Some(exchanges[name]) else None
    {
      if name !in exchanges {
        return None;
      }
      return Some(exchanges[name]);
    }
  }

  class MsgQueueManager {
    var queues: map<string, MsgQueue>
    var table: map<string, MsgQueue>

    constructor (table: map<string, MsgQueue>)
      ensures queues == table && this.table == table
    {
      this.queues, this.table := table, table;
    }

    method DeclareQueue(name: string, mq: MsgQueue, tableOk: bool) returns (ok: bool)
      modifies this
      ensures ok == (name in old(queues) || !mq.durable || (tableOk && name !in old(table)))
      ensures queues == if ok && name !in old(queues) then old(queues)[name := mq] else old(queues)
      ensures table == if ok && name !in old(queues) && mq.durable then old(table)[name := mq] else old(table)
    {
      if name in queues {
        return true;
      }
      if mq.durable {
        if !tableOk || name in table {
          return false;
        }
        table := table[name := mq];
      }
      queues := queues[name := mq];
      return true;
    }

    method DeleteQueue(name: string)
      modifies this
      ensures queues == old(queues) - {name}
      ensures table == if name in old(queues) && old(queues)[name].durable then old(table) - {name} else old(table)
    {
      if name !in queues {
        return;
      }
      if queues[name].durable {
        table := table - {name};
      }
      queues := queues - {name};
    }

    method SelectQueue(name: string) returns (r: Option<MsgQueue>)
      ensures r == if name in queues then Some(queues[name]) else None
    {
      if name !in queues {
        return None;
      }
      return Some(queues[name]);
    }
  }

  class BindingManager {
    var bindings: BindingMap
    var table: seq<Row>

    ghost function Abs(): Bindings
      reads this
    {
      Bindings(bindings, table)
    }

    /** Reads the table row by row. */
    constructor (table: seq<Row>)
      ensures Abs() == Bindings(Rebuild(table), table)
    {
      this.table := table;
      this.bindings := map[];
      new;
      for i := 0 to |table|
        invariant this.table == table && bindings == Rebuild(table[..i])
      {
        var r := table[i];
        assert table[..i + 1][..i] == table[..i];
        if r.exchange !in bindings {
          bindings := bindings[r.exchange := map[]];
        }
        if r.queue !in bindings[r.exchange] {
          bindings := bindings[r.exchange := bindings[r.exchange][r.queue := r.key]];
        }
      }
      assert table[..|table|] == table;
    }

    method Bind(e: string, q: string, key: string, durable: bool, tableOk: bool) returns (ok: bool)
      modifies this
      ensures (ok, Abs()) == HostSpec.Bind(old(Abs()), e, q, key, durable, tableOk)
      ensures HostEffects.Binds(old(Abs()), Abs(), ok, e, q, key, durable, tableOk)
    {
      hide HostEffects.Binds;
      HostEffects.BindBinds(Abs(), e, q, key, durable, tableOk);
      if e in bindings && q in bindings[e] {
        return true;
      }
      if durable {
        if !tableOk {
          return false;
        }
        table := table + [Row(e, q, key)];
      }
      if e !in bindings {
        bindings := bindings[e := map[]];
      }
      bindings := bindings[e := bindings[e][q := key]];
      assert bindings == SetBinding(old(bindings), e, q, key);
      return true;
    }

    method UnBind(e: string, q: string)
      modifies this
      ensures Abs() == HostSpec.UnBind(old(Abs()), e, q)
      ensures HostEffects.Unbinds(old(Abs()), Abs(), e, q)
    {
      hide HostEffects.Unbinds;
      HostEffects.UnBindUnbinds(Abs(), e, q);
      if e !in bindings || q !in bindings[e] {
        return;
      }
      table := Select(table, (r: Row) => !(r.exchange == e && r.queue == q));
      bindings := bindings[e := bindings[e] - {q}];
    }

    method RemoveExchangeBindings(e: string)
      modifies this
      ensures Abs() == HostSpec.RemoveExchangeBindings(old(Abs()), e)
      ensures HostEffects.Cleared(old(Abs()), Abs(), (e', _) => e' == e)
    {
      hide HostEffects.Cleared;
      HostEffects.RemoveExchangeClears(Abs(), e);
      table := Select(table, (r: Row) => r.exchange != e);
      bindings := bindings - {e};
    }

    method RemoveMsgQueueBindings(q: string)
      modifies this
      ensures Abs() == HostSpec.RemoveMsgQueueBindings(old(Abs()), q)
      ensures HostEffects.Cleared(old(Abs()), Abs(), (_, q') => q' == q)
    {
      hide HostEffects.Cleared;
      HostEffects.RemoveQueueClears(Abs(), q);
      table := Select(table, (r: Row) => r.queue != q);
      var left := bindings.Keys;
      while left != {}
        invariant left <= bindings.Keys == old(bindings).Keys && table == Select(old(table), (r: Row) => r.queue != q)
        invariant forall e :: e in bindings ==>
                    bindings[e] == if e in left then old(bindings)[e] else old(bindings)[e] - {q}
      {
        var e :| e in left;
        bindings := bindings[e := bindings[e] - {q}];
        left := left - {e};
      }
      assert bindings == ClearQueue(old(bindings), q);
    }

    /** Looking an exchange up enters it with no bindings when it was not there. */
    method GetExchangeBindings(e: string) returns (r: map<string, string>)
      modifies this`bindings
      ensures r == OfExchange(old(bindings), e)
      ensures bindings == if e in old(bindings) then old(bindings) else old(bindings)[e := map[]]
      ensures forall e', q' :: Bound(bindings, e', q') <==> Bound(old(bindings), e', q')
    {
      if e !in bindings {
        bindings := bindings[e := map[]];
      }
      return bindings[e];
    }

    method Exists(e: string, q: string) returns (found: bool)
      ensures found == Bound(bindings, e, q)
    {
      return e in bindings && q in bindings[e];
    }
  }

  /** Each store is represented by its meaning, which is what `QueueMessage` is proved to implement. */
  class MessageManager {
    var stores: Stores

    constructor (files: map<string, seq<Payload>>)
      ensures stores == Stores(map[], files)
    {
      stores := Stores(map[], files);
    }

    method InitQueueManager(q: string)
      modifies this
      ensures stores == InitStore(old(stores), q)
      ensures HostEffects.Opens(old(stores), stores, q)
    {
      if q in stores.open {
        return;
      }
      var log := if q in stores.files then stores.files[q] else [];
      stores := Stores(stores.open[q := QueueSpec.Recovered(log)], stores.files - {q});
    }

    method DestroyQueueMessage(q: string)
      modifies this
      ensures stores == DestroyStore(old(stores), q)
      ensures HostEffects.Closes(old(stores), stores, q)
    {
      if q in stores.open {
        stores := stores.(open := stores.open - {q});
      }
    }

    method Insert(q: string, properties: Option<Properties>, body: Bytes, deliveryMode: bool, uuid: Bytes)
      returns (ok: bool)
      modifies this
      ensures ok == (q in old(stores).open)
      ensures var p := QueueSpec.NewPayload(QueueSpec.EffectiveProperties(properties, deliveryMode, uuid), body);
              && stores == (if ok then
                              old(stores).(open := old(stores).open[q := QueueSpec.Insert(old(stores).open[q], p)])
                            else old(stores))
              && (ok ==> HostEffects.Accepts(old(stores), stores, q, p))
              && QueueSpec.IsPayloadFor(p, properties, body, deliveryMode, uuid)
    {
      if q !in stores.open {
        return false;
      }
      var p := QueueSpec.NewPayload(QueueSpec.EffectiveProperties(properties, deliveryMode, uuid), body);
      stores := stores.(open := stores.open[q := QueueSpec.Insert(stores.open[q], p)]);
      return true;
    }

    method Front(q: string) returns (r: Option<Payload>)
      requires q in stores.open ==> stores.open[q].pending != []
      modifies this
      ensures r == if q in old(stores).open then Some(old(stores).open[q].pending[0]) else None
      ensures stores == if r.Some?
                        then old(stores).(open := old(stores).open[q := QueueSpec.Front(old(stores).open[q])])
                        else old(stores)
      ensures HostEffects.HandsOut(old(stores), stores, r, q)
    {
      if q !in stores.open {
        return None;
      }
      r := Some(stores.open[q].pending[0]);
      stores := stores.(open := stores.open[q := QueueSpec.Front(stores.open[q])]);
    }

    method Ack(q: string, id: Bytes) returns (ok: bool)
      modifies this
      ensures ok == (q in old(stores).open && id in old(stores).open[q].waiting)
      ensures stores == if q in old(stores).open
                        then old(stores).(open := old(stores).open[q := QueueSpec.Remove(old(stores).open[q], id)])
                        else old(stores)
      ensures HostEffects.Acks(old(stores), stores, ok, q, id)
    {
      hide HostEffects.Acks, QueueSpec.Remove;
      HostEffects.RemoveAcks(stores, q, id);
      if q !in stores.open {
        return false;
      }
      ok := id in stores.open[q].waiting;
      stores := stores.(open := stores.open[q := QueueSpec.Remove(stores.open[q], id)]);
    }
  }

  class VirtualHost {
    const emp: ExchangeManager
    const mqmp: MsgQueueManager
    const bmp: BindingManager
    const mmp: MessageManager

    ghost function Abs(): Host
      reads emp, mqmp, bmp, mmp
    {
      Host(emp.exchanges, emp.table, mqmp.queues, mqmp.table, bmp.Abs(), mmp.stores)
    }

    /** Starts over the tables and data files of an earlier run, opening a store for each recovered queue. */
    constructor (exchangeTable: map<string, Exchange>, queueTable: map<string, MsgQueue>, bindingTable: seq<Row>,
                 files: map<string, seq<Payload>>)
      ensures fresh(emp) && fresh(mqmp) && fresh(bmp) && fresh(mmp)
      ensures Abs() == Host(exchangeTable, exchangeTable, queueTable, queueTable,
                            Bindings(Rebuild(bindingTable), bindingTable),
                            InitAll(Stores(map[], files), queueTable.Keys))
      ensures HostEffects.Restarts(
                Host(map[], exchangeTable, map[], queueTable, Bindings(map[], bindingTable), Stores(map[], files)),
                Abs())
    {
      emp := new ExchangeManager(exchangeTable);
      mqmp := new MsgQueueManager(queueTable);
      bmp := new BindingManager(bindingTable);
      mmp := new MessageManager(files);
      new;
      var left := mqmp.queues.Keys;
      while left != {}
        invariant left <= queueTable.Keys
        invariant mmp.stores == InitAll(Stores(map[], files), queueTable.Keys - left)
        invariant emp.exchanges == emp.table == exchangeTable && mqmp.queues == mqmp.table == queueTable
        invariant bmp.Abs() == Bindings(Rebuild(bindingTable), bindingTable)
      {
        var q :| q in left;
        InitOneMore(Stores(map[], files), queueTable.Keys, left, q);
        mmp.InitQueueManager(q);
        left := left - {q};
      }
      assert queueTable.Keys - {} == queueTable.Keys;
      HostEffects.StartRestarts(exchangeTable, queueTable, bindingTable, files);
    }

    method DeclareExchange(name: string, ex: Exchange, tableOk: bool) returns (ok: bool)
      modifies emp
      ensures (ok, Abs()) == HostSpec.DeclareExchange(old(Abs()), name, ex, tableOk)
      ensures HostEffects.DeclaresExchange(old(Abs()), Abs(), ok, name, ex, tableOk)
    {
      hide HostEffects.DeclaresExchange;
      HostEffects.DeclareExchangeDeclares(Abs(), name, ex, tableOk);
      ok := emp.DeclareExchange(name, ex, tableOk);
    }

    method DeleteExchange(name: string)
      modifies emp, bmp
      ensures Abs() == HostSpec.DeleteExchange(old(Abs()), name)
      ensures HostEffects.DeletesExchange(old(Abs()), Abs(), name)
    {
      hide HostEffects.DeletesExchange;
      HostEffects.DeleteExchangeDeletes(Abs(), name);
      bmp.RemoveExchangeBindings(name);
      emp.DeleteExchange(name);
    }

    method DeclareQueue(name: string, mq: MsgQueue, tableOk: bool) returns (ok: bool)
      modifies mqmp, mmp
      ensures (ok, Abs()) == HostSpec.DeclareQueue(old(Abs()), name, mq, tableOk)
      ensures HostEffects.DeclaresQueue(old(Abs()), Abs(), ok, name, mq, tableOk)
    {
      hide HostEffects.DeclaresQueue;
      HostEffects.DeclareQueueDeclares(Abs(), name, mq, tableOk);
      mmp.InitQueueManager(name);
      ok := mqmp.DeclareQueue(name, mq, tableOk);
    }

    method DeleteQueue(name: string)
      modifies mqmp, bmp, mmp
      ensures Abs() == HostSpec.DeleteQueue(old(Abs()), name)
      ensures HostEffects.DeletesQueue(old(Abs()), Abs(), name)
    {
      hide HostEffects.DeletesQueue;
      HostEffects.DeleteQueueDeletes(Abs(), name);
      mqmp.DeleteQueue(name);
      bmp.RemoveMsgQueueBindings(name);
      mmp.DestroyQueueMessage(name);
    }

    method Bind(e: string, q: string, key: string, tableOk: bool) returns (ok: bool)
      modifies bmp
      ensures (ok, Abs()) == HostSpec.BindQueue(old(Abs()), e, q, key, tableOk)
      ensures HostEffects.BindsQueue(old(Abs()), Abs(), ok, e, q, key, tableOk)
    {
      hide HostEffects.BindsQueue;
      HostEffects.BindQueueBinds(Abs(), e, q, key, tableOk);
      var exp := emp.SelectExchange(e);
      if exp.None? {
        return false;
      }
      var mqp := mqmp.SelectQueue(q);
      if mqp.None? {
        return false;
      }
      ok := bmp.Bind(e, q, key, exp.value.durable && mqp.value.durable, tableOk);
    }

    method UnBind(e: string, q: string)
      modifies bmp
      ensures Abs() == HostSpec.UnBindQueue(old(Abs()), e, q)
      ensures HostEffects.UnbindsQueue(old(Abs()), Abs(), e, q)
    {
      hide HostEffects.UnbindsQueue;
      HostEffects.UnBindQueueUnbinds(Abs(), e, q);
      bmp.UnBind(e, q);
    }

    /** Without properties of its own, a message takes the durability of the queue and a generated id. */
    method BasicPublish(q: string, properties: Option<Properties>, body: Bytes, uuid: Bytes) returns (ok: bool)
      modifies mmp
      ensures var durable := q in old(Abs()).queues && old(Abs()).queues[q].durable;
              var p := QueueSpec.NewPayload(QueueSpec.EffectiveProperties(properties, durable, uuid), body);
              && (ok, Abs()) == HostSpec.Publish(old(Abs()), q, p)
              && HostEffects.Publishes(old(Abs()), Abs(), ok, q, p)
              && QueueSpec.IsPayloadFor(p, properties, body, durable, uuid)
    {
      hide HostEffects.Publishes;
      HostEffects.PublishPublishes(Abs(), q, QueueSpec.NewPayload(
        QueueSpec.EffectiveProperties(properties, q in mqmp.queues && mqmp.queues[q].durable, uuid), body));
      var mqp := mqmp.SelectQueue(q);
      if mqp.None? {
        return false;
      }
      ok := mmp.Insert(q, properties, body, mqp.value.durable, uuid);
    }

    method BasicAck(q: string, id: Bytes) returns (ok: bool)
      modifies mmp
      ensures Abs() == HostSpec.Ack(old(Abs()), q, id)
      ensures ok == (q in old(Abs()).queues && q in old(Abs()).stores.open
                     && id in old(Abs()).stores.open[q].waiting)
      ensures HostEffects.AcksQueue(old(Abs()), Abs(), ok, q, id)
    {
      hide HostEffects.AcksQueue, HostEffects.Acks, QueueSpec.Remove;
      HostEffects.AckAcks(Abs(), q, id);
      var mqp := mqmp.SelectQueue(q);
      if mqp.None? {
        return false;
      }
      ok := mmp.Ack(q, id);
    }

    method BasicConsume(q: string) returns (r: Option<Payload>)
      requires q in mmp.stores.open ==> mmp.stores.open[q].pending != []
      modifies mmp
      ensures Abs() == HostSpec.Consume(old(Abs()), q)
      ensures r == if q in old(Abs()).stores.open then Some(old(Abs()).stores.open[q].pending[0]) else None
      ensures HostEffects.Consumes(old(Abs()), Abs(), r, q)
    {
      r := mmp.Front(q);
    }
  }

  lemma InitOneMore(s: Stores, qs: set<string>, left: set<string>, q: string)
    requires s.open == map[] && q in left && left <= qs
    ensures InitStore(InitAll(s, qs - left), q) == InitAll(s, qs - (left - {q}))
  {
    hide QueueSpec.Recovered;
    var one, more := InitStore(InitAll(s, qs - left), q), InitAll(s, qs - (left - {q}));
    assert one.open == more.open;
    assert one.files == more.files;
  }
}
