/**
 Starting and stopping a worker thread that polls an atomic flag: serial_service stores the flag and then
 spawns the thread, radio_network spawns first. One controller calls start and stop; the worker runs
 between any two of its operations.
 */
module Lifecycle {
  import opened Prelude

  datatype Order = StoreThenSpawn | SpawnThenStore

  /** The thread that the std::thread member stands for; NoThread when it is not joinable. */
  datatype Thread = NoThread | AtTest | InBody | Exited

  /** The controller: between calls, or inside start or stop before the named operation. */
  datatype Control = Idle | StartFirst | StartSecond | StopStore | StopJoin

  /** `terminated`: a thread was assigned over a joinable one, which ends the program. */
  datatype State = State(flag: bool, thread: Thread, control: Control, terminated: bool)

  const INIT := State(false, NoThread, Idle, false)

  datatype Step = CallStart | CallStop | Proceed | Work

  function Spawn(s: State): State {
    s.(thread := AtTest, terminated := s.terminated || s.thread != NoThread)
  }

  /** The worker: test the flag, do one round, test again. */
  function Worked(s: State): State {
    match s.thread
    case NoThread | Exited => s
    case AtTest => s.(thread := if s.flag then InBody else Exited)
    case InBody => s.(thread := AtTest)
  }

  predicate Enabled(s: State, a: Step) {
    match a
    case CallStart => s.control == Idle
    case CallStop => s.control == Idle
    case Proceed => s.control != Idle && (s.control == StopJoin ==> s.thread in [NoThread, Exited])
    case Work => s.thread in [AtTest, InBody]
  }

  function Done(o: Order, s: State, a: Step): State
    requires Enabled(s, a)
  {
    match a
    case CallStart => if s.flag then s else s.(control := StartFirst)
    case CallStop => if s.flag then s.(control := StopStore) else s
    case Work => Worked(s)
    case Proceed =>
      match s.control
      case StartFirst => (if o == StoreThenSpawn then s.(flag := true) else Spawn(s)).(control := StartSecond)
      case StartSecond => (if o == StoreThenSpawn then Spawn(s) else s.(flag := true)).(control := Idle)
      case StopStore => s.(flag := false, control := StopJoin)
      case _ => s.(thread := NoThread, control := Idle)
  }

  function Run(o: Order, steps: seq<Step>): Option<State> {
    if steps == [] then Some(INIT)
    else
      var n := |steps| - 1;
      match Run(o, steps[..n])
      case None => None
      case Some(s) => if Enabled(s, steps[n]) then Some(Done(o, s, steps[n])) else None
  }

  ghost predicate Inv(o: Order, s: State) {
    && !s.terminated
    && (match s.control
        case Idle => s.flag <==> s.thread != NoThread
        case StartFirst => !s.flag && s.thread == NoThread
        case StartSecond => (s.flag <==> o == StoreThenSpawn) && (s.thread == NoThread <==> o == StoreThenSpawn)
        case StopStore => s.flag && s.thread != NoThread
        case StopJoin => !s.flag && s.thread != NoThread)
    && (o == StoreThenSpawn && s.flag ==> s.thread != Exited)
  }

  lemma StepKeepsInv(o: Order, s: State, a: Step)
    requires Inv(o, s) && Enabled(s, a)
    ensures Inv(o, Done(o, s, a))
  {
  }

  lemma {:induction false} InvInEveryRun(o: Order, steps: seq<Step>)
    requires Run(o, steps).Some?
    ensures Inv(o, Run(o, steps).value)
    decreases |steps|
  {
    if steps != [] {
      var n := |steps| - 1;
      InvInEveryRun(o, steps[..n]);
      StepKeepsInv(o, Run(o, steps[..n]).value, steps[n]);
    }
  }

  /**
   In every interleaving of either order an idle controller sees the flag set exactly when the thread is
   joinable. In the store-first order the worker is then alive.
   */
  lemma WorkerLiveness(o: Order, steps: seq<Step>)
    requires Run(o, steps).Some?
    ensures var s := Run(o, steps).value;
            && !s.terminated
            && (s.control == Idle ==> (s.flag <==> s.thread != NoThread))
            && (o == StoreThenSpawn && s.flag && s.control != StartSecond ==> s.thread in [AtTest, InBody])
  {
    InvInEveryRun(o, steps);
  }

  lemma Next(o: Order, steps: seq<Step>, a: Step)
    requires Run(o, steps).Some? && Enabled(Run(o, steps).value, a)
    ensures Run(o, steps + [a]) == Some(Done(o, Run(o, steps).value, a))
  {
    assert (steps + [a])[..|steps|] == steps;
  }

  /** Spawn-first: the worker tests the flag before it is stored, and the started network has no worker. */
  lemma SpawnFirstCanLoseWorker() returns (steps: seq<Step>)
    ensures Run(SpawnThenStore, steps) == Some(State(true, Exited, Idle, false))
  {
    var o := SpawnThenStore;
    Next(o, [], CallStart);
    steps := [] + [CallStart];
    Next(o, steps, Proceed);
    steps := steps + [Proceed];
    Next(o, steps, Work);
    steps := steps + [Work];
    Next(o, steps, Proceed);
    steps := steps + [Proceed];
  }

  /** A started service has a running worker. */
  predicate WorkerAlive(s: State) {
    s.flag && s.control == Idle ==> s.thread in [AtTest, InBody]
  }

  /** Starting is right under every schedule exactly in the store-first order. */
  lemma OrderDecides(o: Order)
    ensures (forall steps :: Run(o, steps).Some? ==> WorkerAlive(Run(o, steps).value)) <==> o == StoreThenSpawn
  {
    if o == StoreThenSpawn {
      forall steps | Run(o, steps).Some?
        ensures WorkerAlive(Run(o, steps).value)
      {
        WorkerLiveness(o, steps);
      }
    } else {
      var steps := SpawnFirstCanLoseWorker();
      assert !WorkerAlive(Run(o, steps).value);
    }
  }

  // ----- Which schedules lose the worker -----

  /** A start with `mid` between its two operations. */
  function StartOf(pre: seq<Step>, mid: seq<Step>): seq<Step> {
    ((pre + [CallStart]) + [Proceed]) + mid
  }

  /** `steps` ends in a start that took effect: `mid` ran between its two operations, `post` after it. */
  ghost predicate LastStart(o: Order, steps: seq<Step>, pre: seq<Step>, mid: seq<Step>, post: seq<Step>) {
    && steps == (StartOf(pre, mid) + [Proceed]) + post
    && Run(o, pre).Some? && Run(o, pre).value.control == Idle && !Run(o, pre).value.flag
    && Proceed !in mid && CallStop !in post
  }

  lemma LastStep(o: Order, before: seq<Step>, a: Step)
    requires Run(o, before + [a]).Some?
    ensures Run(o, before).Some? && Inv(o, Run(o, before).value) && Enabled(Run(o, before).value, a)
    ensures Run(o, before + [a]) == Some(Done(o, Run(o, before).value, a))
  {
    assert (before + [a])[..|before|] == before;
    InvInEveryRun(o, before);
  }

  lemma {:induction false} DuringStart(o: Order, pre: seq<Step>, mid: seq<Step>)
    requires Run(o, pre).Some? && Run(o, pre).value.control == Idle && !Run(o, pre).value.flag
    requires Proceed !in mid && Run(o, StartOf(pre, mid)).Some?
    ensures var s := Run(o, StartOf(pre, mid)).value;
            && s.control == StartSecond && (s.flag <==> o == StoreThenSpawn)
            && s.thread == if o == StoreThenSpawn then NoThread else if Work in mid then Exited else AtTest
    decreases |mid|
  {
    if mid == [] {
      assert StartOf(pre, mid) == (pre + [CallStart]) + [Proceed];
      LastStep(o, pre + [CallStart], Proceed);
      LastStep(o, pre, CallStart);
    } else {
      var n := |mid| - 1;
      assert StartOf(pre, mid) == StartOf(pre, mid[..n]) + [mid[n]];
      LastStep(o, StartOf(pre, mid[..n]), mid[n]);
      DuringStart(o, pre, mid[..n]);
      assert Work in mid <==> Work in mid[..n] || mid[n] == Work;
    }
  }

  /** In the store-first order there is no worker yet, so nothing can run in between. */
  lemma {:induction false} NothingBeforeSpawn(o: Order, pre: seq<Step>, mid: seq<Step>)
    requires Run(o, pre).Some? && Run(o, pre).value.control == Idle && !Run(o, pre).value.flag
    requires Proceed !in mid && Run(o, StartOf(pre, mid)).Some? && o == StoreThenSpawn
    ensures mid == []
  {
    if mid != [] {
      var n := |mid| - 1;
      assert StartOf(pre, mid) == StartOf(pre, mid[..n]) + [mid[n]];
      LastStep(o, StartOf(pre, mid[..n]), mid[n]);
      DuringStart(o, pre, mid[..n]);
      assert false;
    }
  }

  /**
   The exact schedules that lose the worker of a start: the worker takes a step between the start's two
   operations. Until the next stop nothing repairs it, and nothing else breaks it.
   */
  lemma {:induction false} LostExactlyWhen(o: Order, steps: seq<Step>, pre: seq<Step>, mid: seq<Step>, post: seq<Step>)
    requires LastStart(o, steps, pre, mid, post) && Run(o, steps).Some?
    ensures var s := Run(o, steps).value;
            s.flag && s.control == Idle && s.thread != NoThread && (s.thread == Exited <==> Work in mid)
    decreases |post|
  {
    var start := StartOf(pre, mid) + [Proceed];
    if post == [] {
      assert steps == start;
      LastStep(o, StartOf(pre, mid), Proceed);
      DuringStart(o, pre, mid);
      if o == StoreThenSpawn {
        NothingBeforeSpawn(o, pre, mid);
      }
    } else {
      var n := |post| - 1;
      assert steps == (start + post[..n]) + [post[n]];
      LastStep(o, start + post[..n], post[n]);
      LostExactlyWhen(o, start + post[..n], pre, mid, post[..n]);
    }
  }

  lemma {:induction false} FindOngoingStart(o: Order, steps: seq<Step>) returns (pre: seq<Step>, mid: seq<Step>)
    requires Run(o, steps).Some? && Run(o, steps).value.control == StartSecond
    ensures steps == StartOf(pre, mid) && Proceed !in mid
    ensures Run(o, pre).Some? && Run(o, pre).value.control == Idle && !Run(o, pre).value.flag
    decreases |steps|
  {
    var n := |steps| - 1;
    var a := steps[n];
    assert steps == steps[..n] + [a];
    LastStep(o, steps[..n], a);
    if a == Proceed {
      pre, mid := steps[..n - 1], [];
      assert steps[..n] == pre + [steps[n - 1]];
      LastStep(o, pre, steps[n - 1]);
    } else {
      pre, mid := FindOngoingStart(o, steps[..n]);
      assert steps == StartOf(pre, mid + [a]);
      mid := mid + [a];
    }
  }

  /** Every run that ends started and idle has such a last start, so LostExactlyWhen covers all of them. */
  lemma {:induction false} FindLastStart(o: Order, steps: seq<Step>)
    returns (pre: seq<Step>, mid: seq<Step>, post: seq<Step>)
    requires Run(o, steps).Some? && Run(o, steps).value.flag && Run(o, steps).value.control == Idle
    ensures LastStart(o, steps, pre, mid, post)
    decreases |steps|
  {
    var n := |steps| - 1;
    var a := steps[n];
    assert steps == steps[..n] + [a];
    LastStep(o, steps[..n], a);
    if a == Proceed {
      pre, mid := FindOngoingStart(o, steps[..n]);
      post := [];
      assert steps == (StartOf(pre, mid) + [Proceed]) + [];
    } else {
      pre, mid, post := FindLastStart(o, steps[..n]);
      assert steps == (StartOf(pre, mid) + [Proceed]) + (post + [a]);
      post := post + [a];
    }
  }

  /** Once stop has cleared the flag the worker needs at most two more steps to exit. */
  function StepsToExit(t: Thread): nat {
    match t
    case InBody => 2
    case AtTest => 1
    case _ => 0
  }

  lemma StopAlwaysReturns(o: Order, s: State)
    requires Inv(o, s) && s.control == StopJoin
    ensures Enabled(s, Proceed) <==> StepsToExit(s.thread) == 0
    ensures StepsToExit(s.thread) > 0 ==>
              var t := Done(o, s, Work);
              t.control == StopJoin && StepsToExit(t.thread) == StepsToExit(s.thread) - 1
    ensures Enabled(s, Proceed) ==> s.thread == Exited && Done(o, s, Proceed).thread == NoThread
  {
  }

  function Works(n: nat): seq<Step> {
    seq(n, _ => Work)
  }

  datatype Result = Success | PreconditionFailed

  /** The members that both services have; the ghost log ties the calls to the step system. */
  class Worker {
    const order: Order
    var running: bool
    var thread: Thread

    ghost var steps: seq<Step>
    ghost var state: State

    ghost predicate Valid()
      reads this
    {
      Run(order, steps) == Some(state) && Inv(order, state) && state.flag == running && state.thread == thread
    }

    constructor (order: Order)
      ensures Valid() && this.order == order && state == INIT
    {
      this.order := order;
      running, thread := false, NoThread;
      steps, state := [], INIT;
    }

    ghost method Log(a: Step)
      requires Run(order, steps) == Some(state) && Inv(order, state) && Enabled(state, a)
      requires Done(order, state, a).flag == running && Done(order, state, a).thread == thread
      modifies this`steps, this`state
      ensures Valid() && steps == old(steps) + [a] && state == Done(order, old(state), a)
    {
      Next(order, steps, a);
      StepKeepsInv(order, state, a);
      steps, state := steps + [a], Done(order, state, a);
    }

    /** The worker's loop: one test or one round. */
    method WorkerStep()
      requires Valid() && thread in [AtTest, InBody]
      modifies this`thread, this`steps, this`state
      ensures Valid() && steps == old(steps) + [Work] && state == Worked(old(state))
      ensures thread == if old(thread) == InBody then AtTest else if running then InBody else Exited
    {
      if thread == InBody {
        thread := AtTest;
      } else if running {
        thread := InBody;
      } else {
        thread := Exited;
      }
      Log(Work);
    }

    /** The worker runs for a while. */
    method WorkerRuns() returns (ghost ran: nat)
      requires Valid()
      modifies this`thread, this`steps, this`state
      ensures Valid() && steps == old(steps) + Works(ran) && state.control == old(state).control
      ensures ran == 0 ==> thread == old(thread)
      ensures old(thread) == AtTest && !running && ran > 0 ==> thread == Exited
      ensures running ==> (thread in [AtTest, InBody] <==> old(thread) in [AtTest, InBody])
    {
      var count: nat := *;
      ran := 0;
      while count > 0 && thread in [AtTest, InBody]
        invariant Valid() && steps == old(steps) + Works(ran) && state.control == old(state).control
        invariant ran == 0 ==> thread == old(thread)
        invariant old(thread) == AtTest && !running && ran > 0 ==> thread == Exited
        invariant running ==> (thread in [AtTest, InBody] <==> old(thread) in [AtTest, InBody])
        decreases count
      {
        WorkerStep();
        ran := ran + 1;
        count := count - 1;
      }
    }

    /** serial_service::start_tx */
    method StartTx() returns (r: Result)
      requires Valid() && order == StoreThenSpawn && state.control == Idle
      modifies this
      ensures Valid() && old(steps) <= steps && state.control == Idle
      ensures r == PreconditionFailed <==> old(running)
      ensures running && thread in [AtTest, InBody]
    {
      if running {
        Log(CallStart);
        return PreconditionFailed;
      }
      Enter();
      StoreAndSpawn();
      ghost var ran := WorkerRuns();
      return Success;
    }

    /** Store first, then spawn; no worker can run in between. */
    method StoreAndSpawn()
      requires Valid() && order == StoreThenSpawn && state.control == StartFirst
      modifies this
      ensures Valid() && old(steps) <= steps && state.control == Idle && running && thread == AtTest
    {
      running := true;
      Log(Proceed);
      thread := AtTest;
      Log(Proceed);
    }

    /**
     radio_network::start. The worker takes `early` steps before the flag is stored and `late` ones after;
     it is lost exactly if there is an early one.
     */
    method Start() returns (r: Result, ghost early: nat, ghost late: nat)
      requires Valid() && order == SpawnThenStore && state.control == Idle
      modifies this
      ensures Valid() && state.control == Idle && running && thread != NoThread
      ensures r == PreconditionFailed <==> old(running)
      ensures r == PreconditionFailed ==> thread == old(thread) && steps == old(steps) + [CallStart]
      ensures r == Success ==>
                && (thread == Exited <==> early > 0)
                && steps == ((((old(steps) + [CallStart]) + [Proceed]) + Works(early)) + [Proceed]) + Works(late)
    {
      early, late := 0, 0;
      if running {
        Log(CallStart);
        r := PreconditionFailed;
        return;
      }
      Enter();
      SpawnWorker();
      early := WorkerRuns();
      StoreFlag();
      late := WorkerRuns();
      r := Success;
    }

    /** Past the precondition of start. */
    ghost method Enter()
      requires Valid() && state.control == Idle && !running
      modifies this`steps, this`state
      ensures Valid() && steps == old(steps) + [CallStart] && state.control == StartFirst
    {
      Log(CallStart);
    }

    method SpawnWorker()
      requires Valid() && order == SpawnThenStore && state.control == StartFirst
      modifies this`thread, this`steps, this`state
      ensures Valid() && steps == old(steps) + [Proceed]
      ensures state.control == StartSecond && thread == AtTest
    {
      thread := AtTest;
      Log(Proceed);
    }

    method StoreFlag()
      requires Valid() && order == SpawnThenStore && state.control == StartSecond
      modifies this`running, this`steps, this`state
      ensures Valid() && steps == old(steps) + [Proceed]
      ensures state.control == Idle && running && thread != NoThread
    {
      running := true;
      Log(Proceed);
    }

    /** serial_service::stop_tx, radio_network::stop: returns only when the worker is gone. */
    method Stop() returns (r: Result)
      requires Valid() && state.control == Idle
      modifies this
      ensures Valid() && old(steps) <= steps && state.control == Idle
      ensures r == PreconditionFailed <==> !old(running)
      ensures !running && thread == NoThread
    {
      if !running {
        Log(CallStop);
        return PreconditionFailed;
      }
      Log(CallStop);
      ghost var ran := WorkerRuns();
      running := false;
      Log(Proceed);
      Join();
      return Success;
    }

    /** thread.join(): the worker runs until it exits. */
    method Join()
      requires Valid() && state.control == StopJoin
      modifies this`thread, this`steps, this`state
      ensures Valid() && old(steps) <= steps && state.control == Idle && thread == NoThread && !running
    {
      while thread != Exited
        invariant Valid() && old(steps) <= steps && state.control == StopJoin && !running
        decreases StepsToExit(thread)
      {
        WorkerStep();
      }
      thread := NoThread;
      Log(Proceed);
    }
  }
}
