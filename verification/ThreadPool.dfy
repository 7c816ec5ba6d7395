/**
 * The thread pool (`common/threadpool.hpp`) as a state machine. A step is what one thread does while it holds
 * the queue mutex, except that the stop flag is set without the mutex, so `enqueue` is two steps: it can be
 * stopped between checking the flag and pushing the task. Tasks are named by the order they are accepted in.
 */
module ThreadPool {

  datatype Worker = Idle | Running(task: nat) | Exited

  datatype Pool = Pool(
    tasks: seq<nat>, stop: bool, workers: seq<Worker>,
    // A thread inside enqueue holds the mutex and has seen the flag unset.
    pushing: bool,
    // History: tasks accepted, started and finished, in order.
    accepted: nat, started: seq<nat>, done: seq<nat>)

  datatype Step =
    | CheckStop         // enqueue takes the mutex and tests the flag; if set, it throws
    | Push              // enqueue appends the task and releases the mutex
    | Wake(w: nat)      // worker w holds the mutex and its wait is over: it takes a task or returns
    | Finish(w: nat)    // worker w has run its task
    | Stop              // the destructor sets the flag

  predicate Enabled(p: Pool, s: Step) {
    match s
    case CheckStop => !p.pushing
    case Push => p.pushing
    case Wake(w) => !p.pushing && w < |p.workers| && p.workers[w].Idle? && (p.stop || p.tasks != [])
    case Finish(w) => w < |p.workers| && p.workers[w].Running?
    case Stop => true
  }

  function Do(p: Pool, s: Step): Pool
    requires Enabled(p, s)
  {
    match s
    case CheckStop => if p.stop then p else p.(pushing := true)
    case Push => p.(tasks := p.tasks + [p.accepted], accepted := p.accepted + 1, pushing := false)
    case Wake(w) =>
      if p.stop && p.tasks == [] then p.(workers := p.workers[w := Exited])
      else p.(tasks := p.tasks[1..], workers := p.workers[w := Running(p.tasks[0])],
              started := p.started + [p.tasks[0]])
    case Finish(w) => p.(workers := p.workers[w := Idle], done := p.done + [p.workers[w].task])
    case Stop => p.(stop := true)
  }

  function Init(workers: nat): Pool {
    Pool([], false, seq(workers, _ => Idle), false, 0, [], [])
  }

  predicate RunEnabled(p: Pool, steps: seq<Step>)
    decreases |steps|
  {
    steps == [] || (Enabled(p, steps[0]) && RunEnabled(Do(p, steps[0]), steps[1..]))
  }

  function Run(p: Pool, steps: seq<Step>): Pool
    requires RunEnabled(p, steps)
    decreases |steps|
  {
    if steps == [] then p else Run(Do(p, steps[0]), steps[1..])
  }

  function Range(lo: nat, hi: nat): (r: seq<nat>)
    requires lo <= hi
    ensures |r| == hi - lo
  {
    seq(hi - lo, i requires 0 <= i => lo + i)
  }

  predicate Queued(p: Pool, t: nat) { t in p.tasks }

  predicate IsRunning(p: Pool, t: nat) { exists w :: 0 <= w < |p.workers| && p.workers[w] == Running(t) }

  predicate IsDone(p: Pool, t: nat) { t in p.done }

  predicate SomeExited(p: Pool) { exists w :: 0 <= w < |p.workers| && p.workers[w].Exited? }

  predicate AllExited(p: Pool) { forall w :: 0 <= w < |p.workers| ==> p.workers[w].Exited? }

  /** Tasks start in the order they were accepted, and the queue holds exactly those not started. */
  predicate InOrder(p: Pool) {
    |p.started| <= p.accepted && p.started == Range(0, |p.started|) && p.tasks == Range(|p.started|, p.accepted)
  }

  /** Running and finished tasks are the started ones, each once. */
  ghost predicate Accounted(p: Pool) {
    && (forall w :: 0 <= w < |p.workers| && p.workers[w].Running? ==>
          p.workers[w].task < |p.started| && p.workers[w].task !in p.done)
    && (forall v, w :: 0 <= v < w < |p.workers| && p.workers[v].Running? ==> p.workers[v] != p.workers[w])
    && (forall i :: 0 <= i < |p.done| ==> p.done[i] < |p.started|)
    && (forall i, j :: 0 <= i < j < |p.done| ==> p.done[i] != p.done[j])
    && (forall t: nat {:trigger t in p.done} :: t < |p.started| && t !in p.done ==> IsRunning(p, t))
  }

  /** Once a worker has returned there is nothing left to do, and nothing can be added. */
  predicate Closed(p: Pool) {
    SomeExited(p) ==> p.stop && p.tasks == [] && !p.pushing
  }

  ghost predicate Inv(p: Pool) {
    InOrder(p) && Accounted(p) && Closed(p)
  }

  lemma StepKeepsOrder(p: Pool, s: Step)
    requires InOrder(p) && Enabled(p, s)
    ensures InOrder(Do(p, s))
  {
    var p' := Do(p, s);
    if s.Push? {
      assert p'.tasks == Range(|p.started|, p'.accepted);
    } else if s.Wake? && p.tasks != [] {
      assert p.tasks[0] == |p.started|;
      assert p'.started == Range(0, |p'.started|) && p'.tasks == Range(|p'.started|, p.accepted);
    }
  }

  lemma StepKeepsAccounted(p: Pool, s: Step)
    requires InOrder(p) && Accounted(p) && Enabled(p, s)
    ensures Accounted(Do(p, s))
  {
    var p' := Do(p, s);
    match s
    case Wake(w) =>
      if p.tasks != [] {
        assert p.tasks[0] == |p.started|;
        TakeKeepsAccounted(p, w);
      } else {
        OthersKeepRunning(p, w, Exited);
      }
    case Finish(w) => FinishKeepsAccounted(p, w);
    case _ =>
      assert forall t: nat :: IsRunning(p, t) ==> IsRunning(p', t);
  }

  lemma OthersKeepRunning(p: Pool, w: nat, state: Worker)
    requires w < |p.workers|
    ensures forall t: nat :: IsRunning(p, t) && p.workers[w] != Running(t)
              ==> IsRunning(p.(workers := p.workers[w := state]), t)
  {
    var p' := p.(workers := p.workers[w := state]);
    forall t: nat | IsRunning(p, t) && p.workers[w] != Running(t)
      ensures IsRunning(p', t)
    {
      var v :| 0 <= v < |p.workers| && p.workers[v] == Running(t);
      assert p'.workers[v] == Running(t);
    }
  }

  lemma TakeKeepsAccounted(p: Pool, w: nat)
    requires Accounted(p) && Enabled(p, Wake(w)) && p.tasks != [] && p.tasks[0] == |p.started|
    ensures Accounted(Do(p, Wake(w)))
  {
    var p' := Do(p, Wake(w));
    OthersKeepRunning(p, w, Running(p.tasks[0]));
    assert p'.workers[w] == Running(|p.started|);
    forall t: nat | t < |p'.started| && t !in p'.done
      ensures IsRunning(p', t)
    {
      if t < |p.started| {
        assert IsRunning(p, t);
        assert IsRunning(p.(workers := p'.workers), t);
      }
    }
  }

  lemma FinishKeepsAccounted(p: Pool, w: nat)
    requires Accounted(p) && Enabled(p, Finish(w))
    ensures Accounted(Do(p, Finish(w)))
  {
    var p', task := Do(p, Finish(w)), p.workers[w].task;
    OthersKeepRunning(p, w, Idle);
    forall t: nat | t < |p'.started| && t !in p'.done
      ensures IsRunning(p', t)
    {
      assert t !in p.done && t != task by {
        assert p'.done[|p.done|] == task;
        assert forall i :: 0 <= i < |p.done| ==> p'.done[i] == p.done[i];
      }
      assert IsRunning(p, t);
      assert IsRunning(p.(workers := p'.workers), t);
    }
  }

  lemma StepKeepsClosed(p: Pool, s: Step)
    requires Closed(p) && Enabled(p, s)
    ensures Closed(Do(p, s))
    ensures SomeExited(p) ==> SomeExited(Do(p, s)) && Do(p, s).accepted == p.accepted
  {
    var p' := Do(p, s);
    if SomeExited(p) {
      var w :| 0 <= w < |p.workers| && p.workers[w].Exited?;
      assert p'.workers[w].Exited?;
    }
  }

  lemma {:induction false} RunKeepsInv(p: Pool, steps: seq<Step>)
    requires Inv(p) && RunEnabled(p, steps)
    ensures Inv(Run(p, steps)) && |Run(p, steps).workers| == |p.workers|
    decreases |steps|
  {
    if steps != [] {
      StepKeepsOrder(p, steps[0]);
      StepKeepsAccounted(p, steps[0]);
      StepKeepsClosed(p, steps[0]);
      RunKeepsInv(Do(p, steps[0]), steps[1..]);
    }
  }

  lemma InitHolds(workers: nat)
    ensures Inv(Init(workers))
  {
    assert Range(0, 0) == [];
  }

  // Whole runs, under any interleaving.

  predicate ExactlyOne(a: bool, b: bool, c: bool) {
    (a || b || c) && !(a && b) && !(a && c) && !(b && c)
  }

  /** Every accepted task is queued, running or done, exactly one of them, and tasks start in order. */
  lemma EveryTaskIsAccountedFor(workers: nat, steps: seq<Step>)
    requires RunEnabled(Init(workers), steps)
    ensures var p := Run(Init(workers), steps);
            && p.started + p.tasks == Range(0, p.accepted)
            && (forall t: nat :: t < p.accepted ==> ExactlyOne(Queued(p, t), IsRunning(p, t), IsDone(p, t)))
            && (forall v, w :: 0 <= v < w < |p.workers| && p.workers[v].Running? ==> p.workers[v] != p.workers[w])
            && (forall i, j :: 0 <= i < j < |p.done| ==> p.done[i] != p.done[j])
  {
    InitHolds(workers);
    RunKeepsInv(Init(workers), steps);
    var p := Run(Init(workers), steps);
    assert p.started + p.tasks == Range(0, p.accepted);
    forall t: nat | t < p.accepted
      ensures ExactlyOne(Queued(p, t), IsRunning(p, t), IsDone(p, t))
    {
      assert t >= |p.started| ==> p.tasks[t - |p.started|] == t;
    }
  }

  /** After a worker has returned, the queue stays empty and no further task is ever accepted. */
  lemma {:induction false} NothingAfterExit(p: Pool, steps: seq<Step>)
    requires Inv(p) && SomeExited(p) && RunEnabled(p, steps)
    ensures Run(p, steps).tasks == [] && Run(p, steps).accepted == p.accepted
    decreases |steps|
  {
    if steps != [] {
      StepKeepsOrder(p, steps[0]);
      StepKeepsAccounted(p, steps[0]);
      StepKeepsClosed(p, steps[0]);
      NothingAfterExit(Do(p, steps[0]), steps[1..]);
    }
  }

  lemma RunOne(p: Pool, s: Step)
    requires Enabled(p, s)
    ensures RunEnabled(p, [s]) && Run(p, [s]) == Do(p, s)
  {
    hide Enabled, Do;
    assert [s][1..] == [];
  }

  lemma RunTwo(p: Pool, s: Step, s': Step)
    requires Enabled(p, s) && Enabled(Do(p, s), s')
    ensures RunEnabled(p, [s, s']) && Run(p, [s, s']) == Do(Do(p, s), s')
  {
    hide Enabled, Do;
    RunOne(Do(p, s), s');
    assert [s, s'][1..] == [s'];
  }

  /** Unless it is stopped, a pool takes the next task at the end of the queue; a stopped one takes none. */
  lemma EnqueueAccepts(p: Pool)
    requires !p.pushing
    ensures !p.stop ==> RunEnabled(p, [CheckStop, Push])
                        && Run(p, [CheckStop, Push]) == p.(tasks := p.tasks + [p.accepted], accepted := p.accepted + 1)
    ensures p.stop ==> RunEnabled(p, [CheckStop]) && Run(p, [CheckStop]) == p && !Enabled(p, Push)
  {
    hide RunEnabled, Run;
    RunOne(p, CheckStop);
    if !p.stop {
      RunTwo(p, CheckStop, Push);
    }
  }

  /** An idle worker can take the oldest task, stopped or not, runs it, and is idle again. */
  lemma OldestTaskCanRun(p: Pool, w: nat)
    requires !p.pushing && p.tasks != [] && w < |p.workers| && p.workers[w].Idle?
    ensures var t := p.tasks[0];
            && RunEnabled(p, [Wake(w), Finish(w)])
            && Run(p, [Wake(w), Finish(w)])
            == p.(tasks := p.tasks[1..], started := p.started + [t], done := p.done + [t])
  {
    hide RunEnabled, Run;
    RunTwo(p, Wake(w), Finish(w));
    assert p.workers[w := Running(p.tasks[0])][w := Idle] == p.workers;
  }

  /** Once the flag is set, only a push that had already passed its test is still accepted. */
  lemma NothingAcceptedAfterStop(p: Pool, steps: seq<Step>)
    requires RunEnabled(p, [Stop] + steps)
    ensures Run(p, [Stop] + steps).accepted <= p.accepted + if p.pushing then 1 else 0
    ensures !p.pushing ==> Run(p, [Stop] + steps).accepted == p.accepted
  {
    assert ([Stop] + steps)[1..] == steps;
    StoppedAcceptsNoMore(Do(p, Stop), steps);
  }

  lemma {:induction false} StoppedAcceptsNoMore(p: Pool, steps: seq<Step>)
    requires p.stop && RunEnabled(p, steps)
    ensures p.accepted <= Run(p, steps).accepted <= p.accepted + if p.pushing then 1 else 0
    decreases |steps|
  {
    if steps != [] {
      StoppedAcceptsNoMore(Do(p, steps[0]), steps[1..]);
    }
  }

  /** What is left for the workers to do: a running one has to finish and to return, an idle one to return. */
  function Weight(workers: seq<Worker>): nat {
    if workers == [] then 0
    else
      Weight(workers[1..]) + match workers[0] case Running(_) => 2 case Idle => 1 case Exited => 0
  }

  lemma {:induction false} WeightDrops(workers: seq<Worker>, w: nat, state: Worker)
    requires w < |workers|
    requires (workers[w].Running? && state.Idle?) || (workers[w].Idle? && state.Exited?)
    ensures Weight(workers[w := state]) < Weight(workers)
  {
    if w > 0 {
      assert workers[w := state][1..] == workers[1..][w - 1 := state];
      WeightDrops(workers[1..], w - 1, state);
    } else {
      assert workers[0 := state][1..] == workers[1..];
    }
  }

  /** A stopped pool, whatever it is doing, can go on until all its workers have returned. */
  lemma {:induction false} StoppedPoolCanExit(p: Pool) returns (steps: seq<Step>)
    requires p.stop
    ensures RunEnabled(p, steps) && AllExited(Run(p, steps))
    decreases if p.pushing then 1 else 0, |p.tasks|, Weight(p.workers)
  {
    if AllExited(p) {
      return [];
    }
    var w :| 0 <= w < |p.workers| && !p.workers[w].Exited?;
    var s := if p.pushing then Push else if p.workers[w].Running? then Finish(w) else Wake(w);
    if s.Finish? {
      WeightDrops(p.workers, w, Idle);
    } else if s.Wake? && p.tasks == [] {
      WeightDrops(p.workers, w, Exited);
    }
    var rest := StoppedPoolCanExit(Do(p, s));
    steps := [s] + rest;
    assert steps[1..] == rest;
  }

  /** When all workers of a pool with at least one have returned, every accepted task ran, exactly once. */
  lemma JoinedMeansAllDone(workers: nat, steps: seq<Step>)
    requires workers > 0 && RunEnabled(Init(workers), steps) && AllExited(Run(Init(workers), steps))
    ensures var p := Run(Init(workers), steps);
            && p.tasks == []
            && (forall t: nat :: t < p.accepted <==> t in p.done)
            && (forall i, j :: 0 <= i < j < |p.done| ==> p.done[i] != p.done[j])
            && |p.done| == p.accepted
  {
    InitHolds(workers);
    RunKeepsInv(Init(workers), steps);
    var p := Run(Init(workers), steps);
    assert p.workers[0].Exited?;
    assert forall t: nat :: !IsRunning(p, t);
    DistinctAndFull(p.done, p.accepted);
  }

  function Below(n: nat): (r: set<nat>)
    ensures |r| == n && forall t: nat :: t in r <==> t < n
  {
    if n == 0 then {} else Below(n - 1) + {n - 1}
  }

  lemma DistinctAndFull(s: seq<nat>, n: nat)
    requires forall i, j :: 0 <= i < j < |s| ==> s[i] != s[j]
    requires forall t: nat :: t < n <==> t in s
    ensures |s| == n
  {
    SizeOfDistinct(s);
    assert Elements(s) == Below(n);
  }

  function Elements(s: seq<nat>): (r: set<nat>)
    ensures forall t :: t in r <==> t in s
  {
    if s == [] then {} else Elements(s[..|s| - 1]) + {s[|s| - 1]}
  }

  lemma {:induction false} SizeOfDistinct(s: seq<nat>)
    requires forall i, j :: 0 <= i < j < |s| ==> s[i] != s[j]
    ensures |Elements(s)| == |s|
  {
    if s != [] {
      var n := |s| - 1;
      SizeOfDistinct(s[..n]);
      assert s[n] !in s[..n];
    }
  }

  /** With a single worker, as the server has, tasks also finish in the order they were accepted. */
  predicate FinishedInOrder(p: Pool) {
    |p.workers| == 1
    && p.done == Range(0, |p.done|)
    && |p.started| == |p.done| + (if p.workers[0].Running? then 1 else 0)
    && (p.workers[0].Running? ==> p.workers[0].task == |p.done|)
  }

  lemma {:induction false} SingleWorkerFinishesInOrder(p: Pool, steps: seq<Step>)
    requires InOrder(p) && FinishedInOrder(p) && RunEnabled(p, steps)
    ensures Run(p, steps).done == Range(0, |Run(p, steps).done|)
    decreases |steps|
  {
    if steps != [] {
      var p' := Do(p, steps[0]);
      StepKeepsOrder(p, steps[0]);
      assert FinishedInOrder(p') by {
        if steps[0].Finish? {
          assert p'.done == Range(0, |p'.done|);
        } else if steps[0].Wake? && p.tasks != [] {
          assert p.tasks[0] == |p.started|;
        }
      }
      SingleWorkerFinishesInOrder(p', steps[1..]);
    }
  }

  lemma ServerPoolFinishesInOrder(steps: seq<Step>)
    requires RunEnabled(Init(1), steps)
    ensures var p := Run(Init(1), steps);
            p.done == Range(0, |p.done|) && |p.done| <= |p.started| <= p.accepted
  {
    InitHolds(1);
    assert Range(0, 0) == [];
    SingleWorkerFinishesInOrder(Init(1), steps);
    RunKeepsInv(Init(1), steps);
    var p := Run(Init(1), steps);
    if |p.done| > 0 {
      assert p.done[|p.done| - 1] == |p.done| - 1;
    }
  }

  /** Without workers the guarantee fails: all zero of them have returned and an accepted task never ran. */
  lemma NoWorkersNoGuarantee()
    ensures var steps := [CheckStop, Push, Stop];
            RunEnabled(Init(0), steps) && AllExited(Run(Init(0), steps)) && Run(Init(0), steps).tasks == [0]
  {
    var p0 := Init(0);
    var p1 := Do(p0, CheckStop);
    var p2 := Do(p1, Push);
    assert [Stop][1..] == [];
    assert RunEnabled(p2, [Stop]) && Run(p2, [Stop]) == Do(p2, Stop);
    assert [Push, Stop][1..] == [Stop] && [CheckStop, Push, Stop][1..] == [Push, Stop];
    assert RunEnabled(p1, [Push, Stop]) && Run(p1, [Push, Stop]) == Do(p2, Stop);
  }
}
