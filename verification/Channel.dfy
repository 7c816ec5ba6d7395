/** Publishing on a channel (`server/channel.hpp`): a message goes to every queue whose binding its key matches. */
module Channel {
  import opened Bytes
  import opened Payload
  import opened HostSpec
  import opened HostProperties
  import opened VirtualHost
  import opened Options
  import HostEffects
  import QueueSpec
  import Router
  import opened RouterProperties
  import opened Words

  /** A routing key on the wire, as the text the router works on. */
  function Text(bs: Bytes): (s: string)
    ensures |s| == |bs| && forall i :: 0 <= i < |bs| ==> s[i] as int == bs[i]
  {
    seq(|bs|, i requires 0 <= i < |bs| => bs[i] as char)
  }

  /** The queues bound to the exchange with a key that the routing key matches. */
  function Targets(h: Host, e: string, routingKey: Bytes): set<string>
    requires e in h.exchanges
  {
    var bound := OfExchange(h.bindings.inMemory, e);
    set q | q in bound && Router.Routes(h.exchanges[e].kind, Text(routingKey), bound[q])
  }

  /** Each of the queues qs that exists gets the message; nothing else changes. */
  function Deliver(h: Host, qs: set<string>, p: Payload): Host {
    h.(stores := h.stores.(open := map q | q in h.stores.open ::
      if q in qs && q in h.queues then QueueSpec.Insert(h.stores.open[q], p) else h.stores.open[q]))
  }

  /** Every element of the set once. */
  ghost predicate Enumerates(order: seq<string>, qs: set<string>) {
    (forall q :: q in order <==> q in qs) && (forall i, j :: 0 <= i < j < |order| ==> order[i] != order[j])
  }

  lemma DeliverOneMore(h: Host, qs: set<string>, q: string, p: Payload)
    requires q !in qs
    ensures Publish(Deliver(h, qs, p), q, p).1 == Deliver(h, qs + {q}, p)
  {
  }

  lemma DeliverNothing(h: Host, p: Payload)
    ensures Deliver(h, {}, p) == h
  {
    assert Deliver(h, {}, p).stores.open == h.stores.open;
  }

  /** Looking up an exchange's bindings may enter it with none: that binds nothing. */
  function LookedUp(h: Host, e: string): Host {
    if e in h.bindings.inMemory then h
    else h.(bindings := h.bindings.(inMemory := h.bindings.inMemory[e := map[]]))
  }

  lemma LookUpKeeps(h: Host, e: string)
    requires Integrity(h)
    ensures Integrity(LookedUp(h, e))
  {
    assert forall e', q :: Bound(LookedUp(h, e).bindings.inMemory, e', q) <==> Bound(h.bindings.inMemory, e', q);
  }

  class Channel {
    const host: VirtualHost
    // The queues whose consume tasks the channel has handed to the pool, oldest first.
    var tasks: seq<string>

    constructor (host: VirtualHost)
      ensures this.host == host && tasks == []
    {
      this.host, tasks := host, [];
    }

    /**
     * The message is appended to exactly the target queues, and one consume task is handed to the pool for
     * each of them, in some order. An unknown exchange is refused and changes nothing.
     */
    method BasicPublish(e: string, properties: Properties, body: Bytes) returns (ok: bool)
      modifies this`tasks, host.bmp, host.mmp
      ensures ok <==> e in old(host.Abs()).exchanges
      ensures !ok ==> host.Abs() == old(host.Abs()) && tasks == old(tasks)
      ensures ok ==>
                var p := Payload(properties, body, if properties.mode == 2 then [49] else []);
                var qs := Targets(old(host.Abs()), e, properties.routingKey);
                && host.Abs() == Deliver(LookedUp(old(host.Abs()), e), qs, p)
                && |old(tasks)| <= |tasks| && tasks[..|old(tasks)|] == old(tasks)
                && Enumerates(tasks[|old(tasks)|..], qs)
    {
      hide Deliver, QueueSpec.Insert, Router.Routes, Text;
      var exp := host.emp.SelectExchange(e);
      if exp.None? {
        return false;
      }
      var routingKey := Text(properties.routingKey);
      ghost var p := QueueSpec.NewPayload(properties, body);
      var bound := host.bmp.GetExchangeBindings(e);
      ghost var h, new_ := LookedUp(old(host.Abs()), e), [];
      ghost var sent: set<string> := {};
      assert host.Abs() == h;
      DeliverNothing(h, p);
      var left := bound.Keys;
      while left != {}
        invariant left <= bound.Keys
        invariant sent == set q | q in bound.Keys - left && Router.Routes(exp.value.kind, routingKey, bound[q])
        invariant host.Abs() == Deliver(h, sent, p)
        invariant tasks == old(tasks) + new_ && Enumerates(new_, sent)
      {
        var q :| q in left;
        left := left - {q};
        var matched := Router.Route(exp.value.kind, routingKey, bound[q]);
        if matched {
          DeliverOneMore(h, sent, q, p);
          var _ := host.BasicPublish(q, Some(properties), body, []);
          tasks := tasks + [q];
          new_, sent := new_ + [q], sent + {q};
        }
      }
      assert sent == Targets(old(host.Abs()), e, properties.routingKey);
      assert tasks[|old(tasks)|..] == new_;
      return true;
    }
  }

  /** No binding dangles, so every target is a queue with an open store. */
  lemma TargetsExist(h: Host, e: string, routingKey: Bytes)
    requires Integrity(h) && e in h.exchanges
    ensures Targets(h, e, routingKey) <= h.queues.Keys <= h.stores.open.Keys
  {
    forall q | q in Targets(h, e, routingKey)
      ensures q in h.queues
    {
      assert Bound(h.bindings.inMemory, e, q);
    }
  }

  predicate IsTarget(h: Host, e: string, routingKey: Bytes, q: string)
    requires e in h.exchanges
  {
    Bound(h.bindings.inMemory, e, q)
    && Router.Routes(h.exchanges[e].kind, Text(routingKey), h.bindings.inMemory[e][q])
  }

  /**
   * A direct exchange serves exactly the queues bound with the message's own key, a fanout exchange every bound
   * queue, and any other the queues whose patterns the table of the router accepts.
   */
  lemma TargetsByType(h: Host, e: string, routingKey: Bytes, q: string)
    requires e in h.exchanges
    ensures var key := HostEffects.KeyOf(h.bindings.inMemory, e, q);
            q in Targets(h, e, routingKey) <==>
              && key.Some?
              && match h.exchanges[e].kind
                 case Direct => key.value == Text(routingKey)
                 case Fanout => true
                 case _ =>
                   var b, r := Split(key.value, '.'), Split(Text(routingKey), '.');
                   TableSaysYes(b, r, LastPlain(b, |b|))
  {
    hide TableSaysYes, LastPlain, Split, Text, Router.Routes;
    if Bound(h.bindings.inMemory, e, q) {
      RoutesMeaning(h.exchanges[e].kind, Text(routingKey), h.bindings.inMemory[e][q]);
    }
  }

  /**
   * In a host that holds together, publishing appends the message to the pending list of exactly the queues
   * bound to the exchange with a matching key; every other list, and every waiting map, stays as it was.
   */
  lemma PublishReachesExactlyTargets(h: Host, e: string, p: Payload)
    requires Integrity(h) && e in h.exchanges
    ensures var qs := Targets(h, e, p.properties.routingKey);
            var h' := Deliver(LookedUp(h, e), qs, p);
            && Integrity(h')
            && h'.stores.open.Keys == h.stores.open.Keys
            && (forall q :: q in qs <==> IsTarget(h, e, p.properties.routingKey, q))
            && qs <= h.stores.open.Keys
            && (forall q :: q in qs ==> h'.stores.open[q].pending == h.stores.open[q].pending + [p])
            && (forall q :: q in qs ==> h'.stores.open[q].log == h.stores.open[q].log
                                                                 + if p.properties.mode == 2 then [p] else [])
            && (forall q :: q in h.stores.open && q !in qs ==> h'.stores.open[q] == h.stores.open[q])
            && (forall q :: q in h.stores.open ==> h'.stores.open[q].waiting == h.stores.open[q].waiting)
  {
    hide Router.Routes, Text, Integrity;
    LookUpKeeps(h, e);
    StoreContentsDoNotMatter(LookedUp(h, e), Deliver(LookedUp(h, e), Targets(h, e, p.properties.routingKey), p));
    TargetsExist(h, e, p.properties.routingKey);
  }
}
