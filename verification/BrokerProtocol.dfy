/**
 * The server as interleaved threads: one I/O thread that handles requests one at a time, and any number of
 * pool workers that run consume tasks (the server has one). A step is what one thread does inside one mutex,
 * preceded by lookups of exchanges, queues and bindings where the I/O thread makes them: no other thread
 * ever changes those.
 */
module BrokerProtocol {
  import opened Bytes
  import opened Payload
  import opened HostSpec
  import opened HostProperties
  import Channel
  import HostEffects
  import opened Options
  import QueueSpec

  /** What the I/O thread is in the middle of. */
  datatype IoState =
    | Ready
    // Publishing: the target queues still to be served, and the one served but not yet handed to the pool.
    | Publishing(payload: Payload, left: set<string>, served: set<string>)
    // Declaring: the store is open; then the queue is there, but its consumer list is not set up yet.
    | Opened(queue: string, mq: MsgQueue, tableOk: bool)
    | Declared(queue: string)
    // Deleting: the queue is gone; its bindings are; its store is, but its consumer list is not dropped yet.
    | Dropped(queue: string)
    | Unbound(queue: string)
    | Deleted(queue: string)

  datatype Broker = Broker(
    host: Host,
    consumers: set<string>,      // queues that have a consumer list
    tasks: seq<string>,          // consume tasks waiting in the pool
    running: multiset<string>,   // consume tasks a worker has taken and not yet done its Front
    choosing: multiset<string>,  // ... and those past Front, about to choose a consumer
    io: IoState,
    crashed: bool)               // Front met an empty list, or Choose a queue without a consumer list

  datatype Step =
    // I/O thread
    | BeginPublish(e: string, payload: Payload)
    | ServeQueue(q: string)
    | EnqueueTask(q: string)
    | EndPublish
    | OpenStoreStep(name: string, mq: MsgQueue, tableOk: bool)
    | AddQueueStep
    | InitConsumers
    | DropQueueStep(name: string)
    | DropBindingsStep
    | DropStoreStep
    | DropConsumers
    | OtherRequest(op: Op)
    // Workers
    | TakeTask
    | FrontStep(q: string)
    | ChooseStep(q: string)
    // The check that the queue exists was made earlier; it may be gone by now.
    | AutoAck(q: string, id: Bytes)

  predicate IsOther(op: Op) {
    op.DeclareExchangeOp? || op.DeleteExchangeOp? || op.BindOp? || op.UnBindOp? || op.AckOp?
  }

  predicate Enabled(b: Broker, s: Step) {
    match s
    case BeginPublish(e, _) => b.io.Ready? && e in b.host.exchanges
    case ServeQueue(q) => b.io.Publishing? && q in b.io.left && b.io.served == {}
    case EnqueueTask(q) => b.io.Publishing? && b.io.served == {q}
    case EndPublish => b.io.Publishing? && b.io.left == {} && b.io.served == {}
    case OpenStoreStep(_, _, _) => b.io.Ready?
    case AddQueueStep => b.io.Opened?
    case InitConsumers => b.io.Declared?
    case DropQueueStep(_) => b.io.Ready?
    case DropBindingsStep => b.io.Dropped?
    case DropStoreStep => b.io.Unbound?
    case DropConsumers => b.io.Deleted?
    case OtherRequest(op) => b.io.Ready? && IsOther(op)
    case TakeTask => b.tasks != []
    case FrontStep(q) => q in b.running
    case ChooseStep(q) => q in b.choosing
    case AutoAck(_, _) => true
  }

  function Do(b: Broker, s: Step): Broker
    requires Enabled(b, s)
  {
    match s
    case BeginPublish(e, payload) =>
      b.(host := Channel.LookedUp(b.host, e),
         io := Publishing(payload, Channel.Targets(b.host, e, payload.properties.routingKey), {}))
    case ServeQueue(q) =>
      b.(host := Publish(b.host, q, b.io.payload).1, io := b.io.(left := b.io.left - {q}, served := {q}))
    case EnqueueTask(q) => b.(tasks := b.tasks + [q], io := b.io.(served := {}))
    case EndPublish => b.(io := Ready)
    case OpenStoreStep(name, mq, tableOk) => b.(host := OpenStore(b.host, name), io := Opened(name, mq, tableOk))
    case AddQueueStep =>
      var (ok, host) := AddQueue(b.host, b.io.queue, b.io.mq, b.io.tableOk);
      b.(host := host, io := if ok then Declared(b.io.queue) else Ready)
    case InitConsumers => b.(consumers := b.consumers + {b.io.queue}, io := Ready)
    case DropQueueStep(name) => b.(host := DropQueue(b.host, name), io := Dropped(name))
    case DropBindingsStep => b.(host := DropQueueBindings(b.host, b.io.queue), io := Unbound(b.io.queue))
    case DropStoreStep => b.(host := DropStore(b.host, b.io.queue), io := Deleted(b.io.queue))
    case DropConsumers => b.(consumers := b.consumers - {b.io.queue}, io := Ready)
    case OtherRequest(op) => b.(host := HostProperties.Do(b.host, op))
    case TakeTask => b.(tasks := b.tasks[1..], running := b.running + multiset{b.tasks[0]})
    case FrontStep(q) =>
      var taken := b.(running := b.running - multiset{q});
      if q !in b.host.stores.open then taken
      else if b.host.stores.open[q].pending == [] then taken.(crashed := true)
      else taken.(host := Consume(b.host, q), choosing := b.choosing + multiset{q})
    case ChooseStep(q) =>
      b.(choosing := b.choosing - multiset{q}, crashed := b.crashed || q !in b.consumers)
    case AutoAck(q, id) => b.(host := AckStore(b.host, q, id))
  }

  /** The server as started over the tables and data files h left behind. */
  function Started(h: Host): Broker {
    Broker(Restart(h), h.queueTable.Keys, [], multiset{}, multiset{}, Ready, false)
  }

  /** Consume tasks that have yet to do their Front for queue q, and one more while the publisher is about to add it. */
  function Outstanding(b: Broker, q: string): nat {
    multiset(b.tasks)[q] + b.running[q] + if b.io.Publishing? && q in b.io.served then 1 else 0
  }

  function PendingOf(h: Host, q: string): nat {
    if q in h.stores.open then |h.stores.open[q].pending| else 0
  }

  function PendingCount(b: Broker, q: string): nat {
    PendingOf(b.host, q)
  }

  ghost predicate Balanced(b: Broker) {
    forall q :: PendingCount(b, q) == Outstanding(b, q)
  }

  /** Whatever a task or a publication in progress refers to exists. */
  ghost predicate Referenced(b: Broker) {
    && (forall q :: q in b.choosing ==> q in b.consumers)
    && (forall q :: q in b.tasks || q in b.running ==> q in b.host.queues)
    && (b.io.Publishing? ==> b.io.left + b.io.served <= b.host.queues.Keys)
    && (match b.io
        case Opened(name, _, _) => name in b.host.stores.open && b.host.queues.Keys <= b.consumers
        case Declared(name) => name in b.host.queues && b.host.queues.Keys <= b.consumers + {name}
        case Dropped(name) => name !in b.host.queues && name !in b.choosing && b.host.queues.Keys <= b.consumers
        case Unbound(name) => name !in b.host.queues && name !in b.choosing && b.host.queues.Keys <= b.consumers
        case Deleted(name) => name !in b.host.queues && name !in b.choosing && b.host.queues.Keys <= b.consumers
        case _ => b.host.queues.Keys <= b.consumers)
    && (b.io.Declared? && b.io.queue !in b.consumers ==> PendingCount(b, b.io.queue) == 0)
  }

  /** The host once the bindings of a queue being deleted are gone too. */
  function Finished(b: Broker): Host {
    if b.io.Dropped? then DropQueueBindings(b.host, b.io.queue) else b.host
  }

  ghost predicate Inv(b: Broker) {
    Integrity(Finished(b)) && Balanced(b) && Referenced(b) && !b.crashed
  }

  /** Deleting a queue is safe when no task for it is on its way and no worker is choosing a consumer for it. */
  predicate Quiet(b: Broker, q: string) {
    Outstanding(b, q) == 0 && q !in b.choosing
  }

  predicate Guarded(b: Broker, s: Step) {
    s.DropQueueStep? ==> Quiet(b, s.name)
  }

  lemma StartedHolds(h: Host)
    requires Integrity(h)
    ensures Inv(Started(h))
  {
    RestartKeeps(h);
    forall q
      ensures PendingCount(Started(h), q) == Outstanding(Started(h), q)
    {
    }
  }

  // The I/O thread.

  lemma PublishKeeps(b: Broker, s: Step)
    requires Inv(b) && Enabled(b, s)
    requires s.BeginPublish? || s.ServeQueue? || s.EnqueueTask? || s.EndPublish?
    ensures Inv(Do(b, s))
  {
    hide Integrity, Channel.Targets;
    var b' := Do(b, s);
    match s
    case BeginPublish(e, p) =>
      Channel.TargetsExist(b.host, e, p.properties.routingKey);
      Channel.LookUpKeeps(b.host, e);
      assert forall q :: PendingCount(b', q) == PendingCount(b, q) && Outstanding(b', q) == Outstanding(b, q);
    case ServeQueue(q) => ServeKeeps(b, q);
    case EnqueueTask(q) =>
      assert forall q' :: PendingCount(b', q') == PendingCount(b, q') && Outstanding(b', q') == Outstanding(b, q');
    case EndPublish =>
      assert forall q :: PendingCount(b', q) == PendingCount(b, q) && Outstanding(b', q) == Outstanding(b, q);
  }

  // What the host operations do to queues and pending messages.

  lemma PublishEffect(h: Host, q: string, p: Payload)
    requires q in h.queues && StoresOk(h)
    ensures var h' := Publish(h, q, p).1;
            && h'.queues == h.queues
            && (forall q' :: PendingOf(h', q') == PendingOf(h, q') + if q' == q then 1 else 0)
  {
  }

  lemma OpenEffect(h: Host, name: string)
    ensures var h' := OpenStore(h, name);
            && h'.queues == h.queues
            && (forall q :: PendingOf(h', q) == PendingOf(h, q))
  {
  }

  lemma AddEffect(h: Host, name: string, mq: MsgQueue, tableOk: bool)
    ensures var (ok, h') := AddQueue(h, name, mq, tableOk);
            && h'.queues.Keys == h.queues.Keys + (if ok then {name} else {})
            && (forall q :: PendingOf(h', q) == PendingOf(h, q))
  {
  }

  lemma DropEffect(h: Host, name: string)
    ensures var h' := DropStore(h, name);
            && h'.queues == h.queues
            && (forall q :: PendingOf(h', q) == if q == name then 0 else PendingOf(h, q))
  {
  }

  lemma ConsumeEffect(h: Host, q: string)
    requires q in h.stores.open && h.stores.open[q].pending != []
    ensures var h' := Consume(h, q);
            && h' == h.(stores := h'.stores)
            && h'.stores.open.Keys == h.stores.open.Keys && h'.stores.files == h.stores.files
            && (forall q' :: PendingOf(h', q') == PendingOf(h, q') - if q' == q then 1 else 0)
  {
  }

  lemma AckEffect(h: Host, q: string, id: Bytes)
    ensures var h' := AckStore(h, q, id);
            && h' == h.(stores := h'.stores)
            && h'.stores.open.Keys == h.stores.open.Keys && h'.stores.files == h.stores.files
            && (forall q' :: PendingOf(h', q') == PendingOf(h, q'))
  {
    hide QueueSpec.Invalidate, QueueSpec.Collect;
  }

  lemma OtherEffect(h: Host, op: Op)
    requires IsOther(op)
    ensures var h' := HostProperties.Do(h, op);
            && h'.queues == h.queues
            && (forall q :: PendingOf(h', q) == PendingOf(h, q))
  {
    hide QueueSpec.Invalidate, QueueSpec.Collect, RemoveExchangeBindings, HostSpec.Bind, UnBind;
  }

  lemma ServeKeeps(b: Broker, q: string)
    requires Inv(b) && Enabled(b, ServeQueue(q))
    ensures Inv(Do(b, ServeQueue(q)))
  {
    hide NoDangling, TableAgrees, Publish, PendingOf;
    var b' := Do(b, ServeQueue(q));
    StepKeepsIntegrity(b.host, PublishOp(q, b.io.payload));
    PublishEffect(b.host, q, b.io.payload);
    forall q'
      ensures PendingCount(b', q') == Outstanding(b', q')
    {
      assert PendingCount(b, q') == Outstanding(b, q');
    }
  }

  lemma RequestKeeps(b: Broker, s: Step)
    requires Inv(b) && Enabled(b, s) && Guarded(b, s)
    requires s.OpenStoreStep? || s.AddQueueStep? || s.InitConsumers? || s.OtherRequest?
          || s.DropQueueStep? || s.DropBindingsStep? || s.DropStoreStep? || s.DropConsumers?
    ensures Inv(Do(b, s))
  {
    match s
    case OpenStoreStep(name, mq, tableOk) => OpenKeeps(b, name, mq, tableOk);
    case AddQueueStep => AddKeeps(b);
    case InitConsumers => SameBalance(b, Do(b, s));
    case DropQueueStep(name) => DropQueueKeeps(b, name);
    case DropBindingsStep => SameBalance(b, Do(b, s));
    case DropStoreStep => DropStoreKeeps(b);
    case DropConsumers => SameBalance(b, Do(b, s));
    case OtherRequest(op) => OtherKeeps(b, op);
  }

  lemma SameBalance(b: Broker, b': Broker)
    requires Balanced(b)
    requires forall q :: PendingCount(b', q) == PendingCount(b, q) && Outstanding(b', q) == Outstanding(b, q)
    ensures Balanced(b')
  {
  }

  lemma OpenKeeps(b: Broker, name: string, mq: MsgQueue, tableOk: bool)
    requires Inv(b) && b.io.Ready?
    ensures Inv(Do(b, OpenStoreStep(name, mq, tableOk)))
  {
    hide NoDangling, TableAgrees, PendingOf, QueueSpec.Recovered;
    var b' := Do(b, OpenStoreStep(name, mq, tableOk));
    OpenEffect(b.host, name);
    SameBalance(b, b');
  }

  lemma AddKeeps(b: Broker)
    requires Inv(b) && b.io.Opened?
    ensures Inv(Do(b, AddQueueStep))
  {
    hide Integrity, AddQueue, PendingOf;
    var b', name := Do(b, AddQueueStep), b.io.queue;
    AddQueueKeepsIntegrity(b.host, name, b.io.mq, b.io.tableOk);
    AddEffect(b.host, name, b.io.mq, b.io.tableOk);
    NewQueueIsEmpty(b, name);
    SameBalance(b, b');
  }

  lemma NewQueueIsEmpty(b: Broker, name: string)
    requires Inv(b) && b.io.Opened?
    ensures name in b.consumers || PendingCount(b, name) == 0
  {
    hide Integrity, PendingOf;
    if name !in b.host.queues {
      assert name !in b.tasks && name !in b.running;
      assert PendingCount(b, name) == Outstanding(b, name);
    }
  }

  lemma DropQueueKeeps(b: Broker, name: string)
    requires Inv(b) && b.io.Ready? && Quiet(b, name)
    ensures Inv(Do(b, DropQueueStep(name)))
  {
    hide Integrity;
    var b' := Do(b, DropQueueStep(name));
    DropQueueKeepsIntegrity(b.host, name);
    SameBalance(b, b');
    assert name !in b.tasks && name !in b.running by {
      assert multiset(b.tasks)[name] == 0 && b.running[name] == 0;
    }
  }

  lemma DropStoreKeeps(b: Broker)
    requires Inv(b) && b.io.Unbound?
    ensures Inv(Do(b, DropStoreStep))
  {
    hide NoDangling, TableAgrees, PendingOf;
    var b', name := Do(b, DropStoreStep), b.io.queue;
    DropEffect(b.host, name);
    assert name !in b.tasks && name !in b.running;
    forall q
      ensures PendingCount(b', q) == Outstanding(b', q)
    {
      assert PendingCount(b, q) == Outstanding(b, q);
    }
  }

  lemma OtherKeeps(b: Broker, op: Op)
    requires Inv(b) && b.io.Ready? && IsOther(op)
    ensures Inv(Do(b, OtherRequest(op)))
  {
    hide Integrity, PendingOf, HostProperties.Do;
    OtherIsAllowed(b.host, op);
    StepKeepsIntegrity(b.host, op);
    OtherEffect(b.host, op);
    SameBalance(b, Do(b, OtherRequest(op)));
  }

  lemma OtherIsAllowed(h: Host, op: Op)
    requires IsOther(op)
    ensures Allowed(h, op)
  {
  }

  // The workers.

  lemma WorkerKeeps(b: Broker, s: Step)
    requires Inv(b) && Enabled(b, s)
    requires s.TakeTask? || s.FrontStep? || s.ChooseStep? || s.AutoAck?
    ensures Inv(Do(b, s))
  {
    match s
    case TakeTask => TakeKeeps(b);
    case FrontStep(q) => FrontKeeps(b, q);
    case ChooseStep(q) => SameBalance(b, Do(b, s));
    case AutoAck(q, id) => AckKeeps(b, q, id);
  }

  lemma TakeKeeps(b: Broker)
    requires Inv(b) && b.tasks != []
    ensures Inv(Do(b, TakeTask))
  {
    hide Integrity;
    var b' := Do(b, TakeTask);
    assert b.tasks == [b.tasks[0]] + b.tasks[1..];
    assert multiset(b.tasks) == multiset{b.tasks[0]} + multiset(b.tasks[1..]);
    SameBalance(b, b');
  }

  /** A worker's Front always finds a message, and the queue it is for has a consumer list. */
  lemma FrontIsSafe(b: Broker, q: string)
    requires Inv(b) && q in b.running
    ensures q in b.host.stores.open && b.host.stores.open[q].pending != [] && q in b.consumers
  {
    hide NoDangling, TableAgrees;
    assert PendingCount(b, q) == Outstanding(b, q);
  }

  lemma FrontKeeps(b: Broker, q: string)
    requires Inv(b) && q in b.running
    ensures Inv(Do(b, FrontStep(q)))
  {
    hide Integrity, Consume, PendingOf;
    FrontIsSafe(b, q);
    var b' := Do(b, FrontStep(q));
    ConsumeEffect(b.host, q);
    StoreContentsDoNotMatter(Finished(b), Finished(b'));
    forall q'
      ensures PendingCount(b', q') == Outstanding(b', q')
    {
      assert PendingCount(b, q') == Outstanding(b, q');
    }
  }

  lemma AckKeeps(b: Broker, q: string, id: Bytes)
    requires Inv(b)
    ensures Inv(Do(b, AutoAck(q, id)))
  {
    hide Integrity, AckStore, PendingOf;
    AckEffect(b.host, q, id);
    StoreContentsDoNotMatter(Finished(b), Finished(Do(b, AutoAck(q, id))));
    SameBalance(b, Do(b, AutoAck(q, id)));
  }

  // Whole runs, under any interleaving.

  predicate RunEnabled(b: Broker, steps: seq<Step>)
    decreases |steps|
  {
    steps == [] || (Enabled(b, steps[0]) && RunEnabled(Do(b, steps[0]), steps[1..]))
  }

  predicate RunGuarded(b: Broker, steps: seq<Step>)
    requires RunEnabled(b, steps)
    decreases |steps|
  {
    steps == [] || (Guarded(b, steps[0]) && RunGuarded(Do(b, steps[0]), steps[1..]))
  }

  function Run(b: Broker, steps: seq<Step>): Broker
    requires RunEnabled(b, steps)
    decreases |steps|
  {
    if steps == [] then b else Run(Do(b, steps[0]), steps[1..])
  }

  lemma {:induction false} RunKeepsInv(b: Broker, steps: seq<Step>)
    requires Inv(b) && RunEnabled(b, steps) && RunGuarded(b, steps)
    ensures Inv(Run(b, steps))
    decreases |steps|
  {
    hide Inv, Enabled, Guarded, Do;
    if steps != [] {
      StepKeepsInv(b, steps[0]);
      RunKeepsInv(Do(b, steps[0]), steps[1..]);
    }
  }

  lemma StepKeepsInv(b: Broker, s: Step)
    requires Inv(b) && Enabled(b, s) && Guarded(b, s)
    ensures Inv(Do(b, s))
  {
    hide Inv, Do;
    if s.BeginPublish? || s.ServeQueue? || s.EnqueueTask? || s.EndPublish? {
      PublishKeeps(b, s);
    } else if s.TakeTask? || s.FrontStep? || s.ChooseStep? || s.AutoAck? {
      WorkerKeeps(b, s);
    } else {
      RequestKeeps(b, s);
    }
  }

  /**
   * However the I/O thread and the workers interleave, as long as queues are deleted only while quiet: each
   * queue has as many pending messages as consume tasks on their way to it, Front never meets an empty list,
   * and Choose never a queue without a consumer list.
   */
  lemma RunNeverCrashes(h: Host, steps: seq<Step>)
    requires Integrity(h) && RunEnabled(Started(h), steps) && RunGuarded(Started(h), steps)
    ensures var b := Run(Started(h), steps);
            && !b.crashed
            && (forall q :: PendingCount(b, q) == Outstanding(b, q))
            && (forall q :: q in b.running ==> q in b.host.stores.open && b.host.stores.open[q].pending != [])
            && (forall q :: q in b.choosing ==> q in b.consumers)
  {
    StartedHolds(h);
    RunKeepsInv(Started(h), steps);
    var b := Run(Started(h), steps);
    forall q | q in b.running
      ensures q in b.host.stores.open && b.host.stores.open[q].pending != []
    {
      FrontIsSafe(b, q);
    }
  }

  // A publication that nothing interrupts.

  lemma {:induction false} RunAppend(b: Broker, first: seq<Step>, rest: seq<Step>)
    requires RunEnabled(b, first) && RunEnabled(Run(b, first), rest)
    ensures RunEnabled(b, first + rest) && Run(b, first + rest) == Run(Run(b, first), rest)
    decreases |first|
  {
    hide Do, Enabled;
    if first == [] {
      assert first + rest == rest;
    } else {
      assert (first + rest)[1..] == first[1..] + rest;
      RunAppend(Do(b, first[0]), first[1..], rest);
    }
  }

  function Serves(order: seq<string>): seq<Step> {
    if order == [] then [] else [ServeQueue(order[0]), EnqueueTask(order[0])] + Serves(order[1..])
  }

  lemma RunOne(b: Broker, s: Step)
    requires Enabled(b, s)
    ensures RunEnabled(b, [s]) && Run(b, [s]) == Do(b, s)
  {
    hide Do, Enabled;
    assert [s][1..] == [];
  }

  lemma RunTwo(b: Broker, s: Step, s': Step)
    requires Enabled(b, s) && Enabled(Do(b, s), s')
    ensures RunEnabled(b, [s, s']) && Run(b, [s, s']) == Do(Do(b, s), s')
  {
    hide Do, Enabled;
    RunOne(Do(b, s), s');
    assert [s, s'][1..] == [s'];
  }

  lemma {:induction false} ServesDeliver(b: Broker, h: Host, p: Payload, sent: set<string>, order: seq<string>)
    requires b.io.Publishing? && b.io.payload == p && b.io.served == {} && Channel.Enumerates(order, b.io.left)
    requires b.host == Channel.Deliver(h, sent, p) && sent !! b.io.left
    ensures RunEnabled(b, Serves(order))
    ensures Run(b, Serves(order))
         == b.(host := Channel.Deliver(h, sent + b.io.left, p), tasks := b.tasks + order,
               io := Publishing(p, {}, {}))
    decreases |order|
  {
    hide Channel.Deliver;
    if order == [] {
      assert b.io.left == {} && sent + b.io.left == sent;
    } else {
      var q, rest := order[0], order[1..];
      var b' := Do(Do(b, ServeQueue(q)), EnqueueTask(q));
      Channel.DeliverOneMore(h, sent, q, p);
      RunTwo(b, ServeQueue(q), EnqueueTask(q));
      assert Channel.Enumerates(rest, b.io.left - {q}) by {
        assert order == [q] + rest && forall i :: 0 <= i < |rest| ==> rest[i] == order[i + 1];
      }
      assert sent + {q} + b'.io.left == sent + b.io.left && b'.tasks + rest == b.tasks + order;
      ServesDeliver(b', h, p, sent + {q}, rest);
      RunAppend(b, [ServeQueue(q), EnqueueTask(q)], Serves(rest));
    }
  }

  /**
   * Run without interruption, in any order of the targets, the steps of a publication do what the channel's
   * BasicPublish promises: every target queue gets the message, and a consume task is queued for each.
   */
  lemma PublishStepsDeliver(b: Broker, e: string, p: Payload, order: seq<string>)
    requires b.io.Ready? && e in b.host.exchanges
    requires Channel.Enumerates(order, Channel.Targets(b.host, e, p.properties.routingKey))
    ensures var steps := [BeginPublish(e, p)] + (Serves(order) + [EndPublish]);
            && RunEnabled(b, steps)
            && Run(b, steps)
            == b.(host := Channel.Deliver(Channel.LookedUp(b.host, e),
                                          Channel.Targets(b.host, e, p.properties.routingKey), p),
                  tasks := b.tasks + order)
  {
    hide Channel.Deliver, Channel.Targets;
    var b', qs := Do(b, BeginPublish(e, p)), Channel.Targets(b.host, e, p.properties.routingKey);
    Channel.DeliverNothing(b'.host, p);
    assert {} + qs == qs;
    ServesDeliver(b', b'.host, p, {}, order);
    RunOne(b, BeginPublish(e, p));
    RunOne(Run(b', Serves(order)), EndPublish);
    RunAppend(b', Serves(order), [EndPublish]);
    RunAppend(b, [BeginPublish(e, p)], Serves(order) + [EndPublish]);
  }

  // The other requests and tasks, each uninterrupted.

  /** Declaring a queue does what the host's DeclareQueue does, and sets up its consumer list if that succeeds. */
  lemma DeclareRuns(b: Broker, name: string, mq: MsgQueue, tableOk: bool) returns (b': Broker, ok: bool)
    requires b.io.Ready?
    ensures var steps := [OpenStoreStep(name, mq, tableOk), AddQueueStep] + if ok then [InitConsumers] else [];
            RunEnabled(b, steps) && Run(b, steps) == b'
    ensures HostEffects.DeclaresQueue(b.host, b'.host, ok, name, mq, tableOk)
    ensures b' == b.(host := b'.host, consumers := b.consumers + if ok then {name} else {})
  {
    hide OpenStore, AddQueue, HostEffects.DeclaresQueue;
    HostEffects.DeclareQueueDeclares(b.host, name, mq, tableOk);
    ok := DeclareQueue(b.host, name, mq, tableOk).0;
    var first := [OpenStoreStep(name, mq, tableOk), AddQueueStep];
    RunTwo(b, first[0], first[1]);
    b' := Run(b, first);
    if ok {
      RunOne(b', InitConsumers);
      RunAppend(b, first, [InitConsumers]);
      b' := Run(b', [InitConsumers]);
    } else {
      assert first + [] == first && b.consumers + {} == b.consumers;
    }
  }

  /** Every other request has the effect of its host operation, and no other. */
  lemma OtherRequestDoes(b: Broker, op: Op)
    requires b.io.Ready? && IsOther(op)
    ensures var b' := Do(b, OtherRequest(op));
            HostEffects.Effect(b.host, b'.host, op) && b' == b.(host := b'.host)
  {
    hide HostEffects.Effect, HostProperties.Do;
    OtherIsAllowed(b.host, op);
    HostEffects.StepHasEffect(b.host, op);
  }

  /** A worker's acknowledgement takes exactly the message with that id out of the queue's store. */
  lemma AutoAckAcks(b: Broker, q: string, id: Bytes)
    ensures var b', stores := Do(b, AutoAck(q, id)), b.host.stores;
            && HostEffects.Acks(stores, b'.host.stores, q in stores.open && id in stores.open[q].waiting, q, id)
            && b' == b.(host := b.host.(stores := b'.host.stores))
  {
    hide AckStore, HostEffects.Acks;
    HostEffects.AckStoreAcks(b.host, q, id);
  }

  /** A worker that holds a task hands out the oldest message of its queue and chooses a consumer. */
  lemma HeldTaskSteps(b: Broker, q: string) returns (b': Broker)
    requires Inv(b) && q in b.running
    ensures Enabled(b, FrontStep(q)) && Enabled(Do(b, FrontStep(q)), ChooseStep(q))
    ensures q in b.host.stores.open && b.host.stores.open[q].pending != []
    ensures b' == Do(Do(b, FrontStep(q)), ChooseStep(q))
         == b.(host := Consume(b.host, q), running := b.running - multiset{q})
  {
    hide Inv, Consume;
    FrontIsSafe(b, q);
    b' := Do(Do(b, FrontStep(q)), ChooseStep(q));
    assert b.choosing + multiset{q} - multiset{q} == b.choosing;
  }

  lemma TakeDoes(b: Broker)
    requires b.tasks != []
    ensures Enabled(b, TakeTask)
    ensures Do(b, TakeTask) == b.(tasks := b.tasks[1..], running := b.running + multiset{b.tasks[0]})
  {
  }

  /** A consume task takes the oldest task there is and hands out the oldest message of its queue. */
  lemma ConsumeTaskRuns(b: Broker, q: string)
    requires Inv(b) && b.tasks != [] && b.tasks[0] == q && b.io.Ready?
    ensures var steps := [TakeTask, FrontStep(q)] + [ChooseStep(q)];
            RunEnabled(b, steps)
            && var b' := Run(b, steps);
               && b' == b.(host := b'.host, tasks := b.tasks[1..])
               && q in b.host.stores.open && b.host.stores.open[q].pending != []
               && HostEffects.Consumes(b.host, b'.host, Some(b.host.stores.open[q].pending[0]), q)
  {
    hide Inv, Do, Enabled, Consume, Run, RunEnabled, HostEffects.Consumes;
    TakeKeeps(b);
    TakeDoes(b);
    var _ := HeldTaskSteps(Do(b, TakeTask), q);
    HostEffects.ConsumeConsumes(b.host, q);
    RunTwo(b, TakeTask, FrontStep(q));
    RunOne(Do(Do(b, TakeTask), FrontStep(q)), ChooseStep(q));
    RunAppend(b, [TakeTask, FrontStep(q)], [ChooseStep(q)]);
    assert b.running + multiset{q} - multiset{q} == b.running;
  }

  // The guard on deletion is needed.

  /** Workers alone bring a queue that is empty, but still has a task on its way, to a Front of an empty list. */
  lemma {:induction false} StrayTaskCrashes(b: Broker, name: string) returns (steps: seq<Step>)
    requires name in b.host.stores.open && b.host.stores.open[name].pending == []
    requires name in b.tasks || name in b.running
    ensures RunEnabled(b, steps) && Run(b, steps).crashed
    ensures forall s :: s in steps ==> !s.DropQueueStep?
    decreases |b.tasks|
  {
    if name in b.running {
      steps := [FrontStep(name)];
      RunOne(b, FrontStep(name));
    } else {
      assert b.tasks == [b.tasks[0]] + b.tasks[1..];
      var rest := StrayTaskCrashes(Do(b, TakeTask), name);
      steps := [TakeTask] + rest;
      RunOne(b, TakeTask);
      RunAppend(b, [TakeTask], rest);
    }
  }

  /** The four steps of deleting a queue, and the first two of declaring it again. */
  lemma DeleteRuns(b: Broker, name: string) returns (b': Broker)
    requires b.io.Ready? && name in b.host.queues
    ensures var steps := [DropQueueStep(name), DropBindingsStep] + [DropStoreStep, DropConsumers];
            RunEnabled(b, steps) && Run(b, steps) == b'
    ensures b' == b.(host := DeleteQueue(b.host, name), consumers := b.consumers - {name})
    ensures HostEffects.DeletesQueue(b.host, b'.host, name)
  {
    hide DropQueue, DropQueueBindings, DropStore, HostEffects.DeletesQueue;
    HostEffects.DeleteQueueDeletes(b.host, name);
    RunTwo(b, DropQueueStep(name), DropBindingsStep);
    var half := Run(b, [DropQueueStep(name), DropBindingsStep]);
    RunTwo(half, DropStoreStep, DropConsumers);
    RunAppend(b, [DropQueueStep(name), DropBindingsStep], [DropStoreStep, DropConsumers]);
    b' := Run(half, [DropStoreStep, DropConsumers]);
  }

  lemma RedeclaredIsEmpty(h: Host, name: string, mq: MsgQueue)
    requires name !in h.stores.open
    ensures var h' := AddQueue(OpenStore(h, name), name, mq, true).1;
            name in h'.stores.open && h'.stores.open[name].pending == []
  {
  }

  /**
   * Deleting a queue that is not quiet lets the server crash: declared again, it is empty while an old task is
   * still on its way to it; or a worker is left to choose among consumers whose list is gone.
   */
  lemma UnquietDeletionCanCrash(b: Broker, name: string) returns (steps: seq<Step>)
    requires Inv(b) && b.io.Ready? && name in b.host.queues && !Quiet(b, name)
    ensures var deletion := [DropQueueStep(name), DropBindingsStep] + [DropStoreStep, DropConsumers];
            RunEnabled(b, deletion + steps) && Run(b, deletion + steps).crashed
    ensures forall s :: s in steps ==> !s.DropQueueStep?
  {
    hide Inv, AddQueue, OpenStore;
    var deleted := DeleteRuns(b, name);
    if name in b.choosing {
      steps := [ChooseStep(name)];
      RunOne(deleted, ChooseStep(name));
    } else {
      assert name in b.tasks || name in b.running by {
        assert multiset(b.tasks)[name] > 0 || b.running[name] > 0;
      }
      var mq := MsgQueue(false, false, false);
      var again := [OpenStoreStep(name, mq, true), AddQueueStep];
      RunTwo(deleted, OpenStoreStep(name, mq, true), AddQueueStep);
      RedeclaredIsEmpty(deleted.host, name, mq);
      var rest := StrayTaskCrashes(Run(deleted, again), name);
      RunAppend(deleted, again, rest);
      steps := again + rest;
    }
    RunAppend(b, [DropQueueStep(name), DropBindingsStep] + [DropStoreStep, DropConsumers], steps);
  }
}
