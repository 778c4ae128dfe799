/**
 The locks of the mesh networks and of the gRPC queue (network.cpp:63-84, 182-192, grpc_service.cpp:178-200).
 Each network has a mutex around its rfnet instance; its updater may call back into receive_frame, which
 takes the queue mutex while the network's is held. Transmitters and poppers come in any number.

 Of rfnet only this contract is used: one outgoing frame is stored at a time, rfnet_is_tx_free reports whether
 there is room, rfnet_send refuses a frame when there is none, and rfnet_update may send the stored frame and
 may hand received frames to the callback.
 */
module MeshLocks {
  import opened Prelude
  import opened Packing
  import opened FrameQueue

  datatype Role = Updater(net: nat) | Transmitter(net: nat) | Popper

  datatype Pc =
    | Outside
    | Wanting          // at the network's lock
    | Inside           // updater, in rfnet_update
    | WantingQueue     // at the queue lock
    | Pushing          // updater, in receive_frame
    | Checking         // transmitter, before rfnet_is_tx_free
    | Backing          // transmitter, before lock.unlock
    | Sleeping         // without any lock
    | Sending          // transmitter, before rfnet_send
    | Leaving          // transmitter, before returning
    | Popping          // popper, in pop_frame

  /** `checked` is history: the lock hold in which the transmitter last found room. */
  datatype Thread = Thread(role: Role, pc: Pc, frame: Frame, checked: nat)

  /** History: `holds` counts lock acquisitions, `sends` pairs the holds of each check and its send. */
  datatype Network = Network(
    owner: Option<nat>, slot: Option<Frame>,
    holds: nat, accepted: seq<Frame>, drained: seq<Frame>, refused: nat, sends: seq<(nat, nat)>)

  datatype State = State(nets: seq<Network>, queueOwner: Option<nat>, queue: seq<Frame>, threads: seq<Thread>)

  datatype Act =
    | Begin(f: Frame) | Acquire | Drain | Deliver(f: Frame) | AcquireQueue | Push(f: Frame) | Release
    | Check | Unlock | Wake | Send | Take | GiveUp

  predicate HoldsMesh(x: Thread) {
    match x.role
    case Updater(_) => x.pc in {Inside, WantingQueue, Pushing}
    case Transmitter(_) => x.pc in {Checking, Backing, Sending, Leaving}
    case Popper => false
  }

  predicate HoldsQueue(x: Thread) {
    x.pc in {Pushing, Popping}
  }

  predicate Fits(x: Thread, nets: nat) {
    match x.role
    case Updater(n) => n < nets && x.pc in {Outside, Wanting, Inside, WantingQueue, Pushing}
    case Transmitter(n) => n < nets && x.pc in {Outside, Wanting, Checking, Backing, Sleeping, Sending, Leaving}
    case Popper => x.pc in {Outside, WantingQueue, Popping, Sleeping}
  }

  /** The action is the next one of thread `t` and is not blocked. */
  predicate Enabled(s: State, t: nat, a: Act) {
    && t < |s.threads|
    && var x := s.threads[t];
       && Fits(x, |s.nets|)
       && match a
          case Begin(_) => x.pc == Outside
          case Acquire => x.pc == Wanting && s.nets[x.role.net].owner == None
          case Drain => x.pc == Inside && s.nets[x.role.net].slot.Some?
          case Deliver(_) => x.pc == Inside
          case AcquireQueue => x.pc == WantingQueue && s.queueOwner == None
          case Push(f) => x.pc == Pushing && x.frame == f
          case Release => x.pc in {Inside, Leaving}
          case Check => x.pc == Checking
          case Unlock => x.pc == Backing
          case Wake => x.pc == Sleeping
          case Send => x.pc == Sending
          case Take => x.pc == Popping
          case GiveUp => x.pc == Popping && s.queue == []
  }

  function SetThread(s: State, t: nat, x: Thread): State
    requires t < |s.threads|
  {
    s.(threads := s.threads[t := x])
  }

  function SetNet(s: State, n: nat, w: Network): State
    requires n < |s.nets|
  {
    s.(nets := s.nets[n := w])
  }

  /** rfnet_send under the contract above. */
  function Stored(w: Network, f: Frame, checked: nat): Network {
    var logged := w.(sends := w.sends + [(checked, w.holds)]);
    if w.slot.None? then logged.(slot := Some(f), accepted := w.accepted + [f])
    else logged.(refused := w.refused + 1)
  }

  /** The effect of an action on the network of its thread. */
  function NetAfter(w: Network, x: Thread, t: nat, a: Act): Network
    requires a.Drain? ==> w.slot.Some?
  {
    match a
    case Acquire => w.(owner := Some(t), holds := w.holds + 1)
    case Drain => w.(slot := None, drained := w.drained + [w.slot.value])
    case Release => w.(owner := None)
    case Unlock => w.(owner := None)
    case Send => Stored(w, x.frame, x.checked)
    case _ => w
  }

  function ThreadAfter(s: State, t: nat, a: Act): Thread
    requires Enabled(s, t, a)
  {
    var x := s.threads[t];
    match a
    case Begin(f) => x.(frame := f, pc := if x.role.Popper? then WantingQueue else Wanting)
    case Acquire => x.(pc := if x.role.Updater? then Inside else Checking)
    case Drain => x
    case Deliver(f) => x.(frame := f, pc := WantingQueue)
    case AcquireQueue => x.(pc := if x.role.Updater? then Pushing else Popping)
    case Push(_) => x.(pc := Inside)
    case Release => x.(pc := Outside)
    case Check =>
      if s.nets[x.role.net].slot.None? then x.(pc := Sending, checked := s.nets[x.role.net].holds)
      else x.(pc := Backing)
    case Unlock => x.(pc := Sleeping)
    case Wake => x.(pc := if x.role.Popper? then WantingQueue else Wanting)
    case Send => x.(pc := Leaving)
    case Take => x.(pc := if s.queue == [] then Sleeping else Outside)
    case GiveUp => x.(pc := Outside)
  }

  function QueueAfter(s: State, t: nat, a: Act): State
    requires Enabled(s, t, a)
  {
    match a
    case AcquireQueue => s.(queueOwner := Some(t))
    case Push(f) => s.(queueOwner := None, queue := Enqueued(s.queue, f))
    case Take => s.(queueOwner := None, queue := if s.queue == [] then [] else s.queue[1..])
    case GiveUp => s.(queueOwner := None)
    case _ => s
  }

  function Done(s: State, t: nat, a: Act): State
    requires Enabled(s, t, a)
  {
    var x := s.threads[t];
    var q := SetThread(QueueAfter(s, t, a), t, ThreadAfter(s, t, a));
    if x.role.Popper? then q
    else SetNet(q, x.role.net, NetAfter(s.nets[x.role.net], x, t, a))
  }

  // ----- Invariant -----

  function SlotContent(w: Network): seq<Frame> {
    if w.slot.Some? then [w.slot.value] else []
  }

  ghost predicate NetInv(w: Network) {
    && w.accepted == w.drained + SlotContent(w)
    && w.refused == 0
    && forall k :: 0 <= k < |w.sends| ==> w.sends[k].0 == w.sends[k].1
  }

  ghost predicate ThreadInv(s: State, t: nat)
    requires t < |s.threads|
  {
    var x := s.threads[t];
    && Fits(x, |s.nets|)
    && (!x.role.Popper? ==> (HoldsMesh(x) <==> s.nets[x.role.net].owner == Some(t)))
    && (HoldsQueue(x) <==> s.queueOwner == Some(t))
    && (x.pc == Sending ==> s.nets[x.role.net].slot.None? && x.checked == s.nets[x.role.net].holds)
  }

  ghost predicate OwnerInv(s: State, n: nat)
    requires n < |s.nets|
  {
    s.nets[n].owner.Some? ==>
      var u := s.nets[n].owner.value;
      u < |s.threads| && !s.threads[u].role.Popper? && s.threads[u].role.net == n && HoldsMesh(s.threads[u])
  }

  ghost predicate Inv(s: State) {
    && (forall n :: 0 <= n < |s.nets| ==> NetInv(s.nets[n]) && OwnerInv(s, n))
    && (forall t :: 0 <= t < |s.threads| ==> ThreadInv(s, t))
    && (s.queueOwner.Some? ==> s.queueOwner.value < |s.threads| && HoldsQueue(s.threads[s.queueOwner.value]))
  }

  const NEW_NET := Network(None, None, 0, [], [], 0, [])

  /** All threads outside, all locks free. */
  predicate Initial(s: State) {
    && (forall n :: 0 <= n < |s.nets| ==> s.nets[n] == NEW_NET)
    && s.queueOwner == None && s.queue == []
    && (forall t :: 0 <= t < |s.threads| ==>
                      s.threads[t].pc == Outside && (s.threads[t].role.Popper? || s.threads[t].role.net < |s.nets|))
  }

  lemma NetInvKept(s: State, t: nat, a: Act, n: nat)
    requires Inv(s) && Enabled(s, t, a) && n < |s.nets|
    ensures NetInv(Done(s, t, a).nets[n])
  {
    var x := s.threads[t];
    assert ThreadInv(s, t) && NetInv(s.nets[n]);
    if !x.role.Popper? && x.role.net == n && a.Drain? {
      var w := s.nets[n];
      assert w.drained + [w.slot.value] + [] == w.drained + [w.slot.value];
    }
  }

  lemma OwnerInvKept(s: State, t: nat, a: Act, n: nat)
    requires Inv(s) && Enabled(s, t, a) && n < |s.nets|
    ensures OwnerInv(Done(s, t, a), n)
  {
    assert ThreadInv(s, t) && OwnerInv(s, n);
    var x := s.threads[t];
    if x.role.Popper? || x.role.net != n {
      assert Done(s, t, a).nets[n] == s.nets[n];
    } else {
      OwnNetOwner(s, t, a);
    }
  }

  lemma OwnNetOwner(s: State, t: nat, a: Act)
    requires Inv(s) && Enabled(s, t, a) && !s.threads[t].role.Popper?
    ensures OwnerInv(Done(s, t, a), s.threads[t].role.net)
  {
    assert ThreadInv(s, t) && OwnerInv(s, s.threads[t].role.net);
  }

  /** The part of a network that other threads rely on changes only in the hands of the lock holder. */
  lemma OthersLeaveNetAlone(s: State, t: nat, a: Act, u: nat)
    requires Inv(s) && Enabled(s, t, a) && u < |s.threads| && u != t
    requires !s.threads[u].role.Popper? && HoldsMesh(s.threads[u])
    ensures Fits(s.threads[u], |s.nets|)
    ensures Done(s, t, a).nets[s.threads[u].role.net] == s.nets[s.threads[u].role.net]
  {
    assert ThreadInv(s, t) && ThreadInv(s, u);
  }

  lemma OthersTakeNothing(s: State, t: nat, a: Act, u: nat)
    requires Inv(s) && Enabled(s, t, a) && u < |s.threads| && u != t
    requires !s.threads[u].role.Popper? && !HoldsMesh(s.threads[u])
    ensures Fits(s.threads[u], |s.nets|)
    ensures Done(s, t, a).nets[s.threads[u].role.net].owner != Some(u)
  {
    assert ThreadInv(s, t) && ThreadInv(s, u);
  }

  lemma QueueOwnerKept(s: State, t: nat, a: Act, u: nat)
    requires Inv(s) && Enabled(s, t, a) && u < |s.threads|
    ensures HoldsQueue(Done(s, t, a).threads[u]) <==> Done(s, t, a).queueOwner == Some(u)
  {
    assert ThreadInv(s, t) && ThreadInv(s, u);
  }

  lemma OwnThreadInv(s: State, t: nat, a: Act)
    requires Inv(s) && Enabled(s, t, a)
    ensures ThreadInv(Done(s, t, a), t)
  {
    assert ThreadInv(s, t);
    QueueOwnerKept(s, t, a, t);
  }

  lemma ThreadInvKept(s: State, t: nat, a: Act, u: nat)
    requires Inv(s) && Enabled(s, t, a) && u < |s.threads|
    ensures ThreadInv(Done(s, t, a), u)
  {
    if u == t {
      OwnThreadInv(s, t, a);
    } else {
      assert ThreadInv(s, u);
      QueueOwnerKept(s, t, a, u);
      if !s.threads[u].role.Popper? {
        if HoldsMesh(s.threads[u]) {
          OthersLeaveNetAlone(s, t, a, u);
        } else {
          OthersTakeNothing(s, t, a, u);
        }
      }
    }
  }

  lemma StepKeepsInv(s: State, t: nat, a: Act)
    requires Inv(s) && Enabled(s, t, a)
    ensures Inv(Done(s, t, a))
  {
    var next := Done(s, t, a);
    forall n | 0 <= n < |next.nets|
      ensures NetInv(next.nets[n]) && OwnerInv(next, n)
    {
      NetInvKept(s, t, a, n);
      OwnerInvKept(s, t, a, n);
    }
    forall u | 0 <= u < |next.threads|
      ensures ThreadInv(next, u)
    {
      ThreadInvKept(s, t, a, u);
    }
    assert ThreadInv(s, t);
  }

  /** Only pushes and takes change the queue: a push keeps the last 64 frames, a take drops the first one. */
  lemma QueueChanges(s: State, t: nat, a: Act)
    requires Enabled(s, t, a) && |s.queue| <= 64
    ensures var q := Done(s, t, a).queue;
            && |q| <= 64
            && match a
               case Push(f) => var all := s.queue + [f]; q == if |all| <= 64 then all else all[1..]
               case Take => q == if s.queue == [] then [] else s.queue[1..]
               case _ => q == s.queue
  {
  }

  // ----- Runs -----

  function Run(s: State, steps: seq<(nat, Act)>): Option<State> {
    if steps == [] then Some(s)
    else
      var n := |steps| - 1;
      match Run(s, steps[..n])
      case None => None
      case Some(r) => if Enabled(r, steps[n].0, steps[n].1) then Some(Done(r, steps[n].0, steps[n].1)) else None
  }

  /** The frames that thread `t` has pushed into the queue, in order. */
  function PushesBy(steps: seq<(nat, Act)>, t: nat): seq<Frame> {
    if steps == [] then []
    else
      var n := |steps| - 1; var before := PushesBy(steps[..n], t);
      if steps[n].0 == t && steps[n].1.Push? then before + [steps[n].1.f] else before
  }

  lemma PushesExtended(steps: seq<(nat, Act)>, t: nat, a: Act)
    ensures PushesBy(steps + [(t, a)], t) == if a.Push? then PushesBy(steps, t) + [a.f] else PushesBy(steps, t)
    ensures forall u: nat :: u != t ==> PushesBy(steps + [(t, a)], u) == PushesBy(steps, u)
  {
    var next := steps + [(t, a)];
    assert next[..|steps|] == steps;
  }

  lemma RunExtended(s: State, steps: seq<(nat, Act)>, t: nat, a: Act)
    requires Run(s, steps).Some? && Enabled(Run(s, steps).value, t, a)
    ensures Run(s, steps + [(t, a)]) == Some(Done(Run(s, steps).value, t, a))
  {
    var next := steps + [(t, a)];
    assert next[..|steps|] == steps;
  }

  lemma {:induction false} InvInEveryRun(s: State, steps: seq<(nat, Act)>)
    requires Initial(s) && Run(s, steps).Some?
    ensures Inv(Run(s, steps).value)
    decreases |steps|
  {
    if steps == [] {
      forall n | 0 <= n < |s.nets| ensures NetInv(s.nets[n]) && OwnerInv(s, n) {
      }
      forall t | 0 <= t < |s.threads| ensures ThreadInv(s, t) {
      }
    } else {
      var n := |steps| - 1;
      InvInEveryRun(s, steps[..n]);
      StepKeepsInv(Run(s, steps[..n]).value, steps[n].0, steps[n].1);
    }
  }

  /**
   Check-and-send is atomic in every run: each send happens in the lock hold of its successful check, rfnet
   never refuses a frame, none is overwritten, and what was accepted is what was drained plus the stored frame.
   */
  lemma CheckAndSendIsAtomic(s: State, steps: seq<(nat, Act)>, n: nat)
    requires Initial(s) && Run(s, steps).Some? && n < |s.nets|
    ensures n < |Run(s, steps).value.nets|
    ensures var w := Run(s, steps).value.nets[n];
            && w.refused == 0
            && w.accepted == w.drained + SlotContent(w)
            && forall k :: 0 <= k < |w.sends| ==> w.sends[k].0 == w.sends[k].1
  {
    InvInEveryRun(s, steps);
    SameNetworks(s, steps);
    assert NetInv(Run(s, steps).value.nets[n]);
  }

  /**
   A thread outside its critical sections, at a lock or asleep holds nothing: above all, a transmitter that waits
   for room has given its network to the updater.
   */
  lemma WaitersHoldNothing(s: State, steps: seq<(nat, Act)>, t: nat, n: nat)
    requires Initial(s) && Run(s, steps).Some? && t < |s.threads| && n < |s.nets|
    ensures |Run(s, steps).value.threads| == |s.threads| && |Run(s, steps).value.nets| == |s.nets|
    ensures var r := Run(s, steps).value;
            && (r.threads[t].pc in {Outside, Wanting, Sleeping} ==>
                  r.nets[n].owner != Some(t) && r.queueOwner != Some(t))
            && (r.threads[t].pc == WantingQueue ==> r.queueOwner != Some(t))
  {
    InvInEveryRun(s, steps);
    SameNetworks(s, steps);
    var r := Run(s, steps).value;
    assert ThreadInv(r, t) && OwnerInv(r, n);
  }

  lemma {:induction false} SameNetworks(s: State, steps: seq<(nat, Act)>)
    requires Run(s, steps).Some?
    ensures |Run(s, steps).value.nets| == |s.nets| && |Run(s, steps).value.threads| == |s.threads|
    decreases |steps|
  {
    if steps != [] {
      var n := |steps| - 1;
      SameNetworks(s, steps[..n]);
      StepKeepsSizes(Run(s, steps[..n]).value, steps[n].0, steps[n].1);
    }
  }

  lemma StepKeepsSizes(s: State, t: nat, a: Act)
    requires Enabled(s, t, a)
    ensures |Done(s, t, a).nets| == |s.nets| && |Done(s, t, a).threads| == |s.threads|
  {
  }

  // ----- Deadlock freedom -----

  ghost predicate CanStep(s: State, t: nat) {
    exists a :: Enabled(s, t, a)
  }

  /** The thread stands at a lock that another one holds. */
  predicate Blocked(s: State, t: nat)
    requires t < |s.threads| && Fits(s.threads[t], |s.nets|)
  {
    var x := s.threads[t];
    (x.pc == Wanting && s.nets[x.role.net].owner.Some?) || (x.pc == WantingQueue && s.queueOwner.Some?)
  }

  lemma StepsUnlessBlocked(s: State, t: nat)
    requires t < |s.threads| && Fits(s.threads[t], |s.nets|)
    ensures CanStep(s, t) <==> !Blocked(s, t)
  {
    var x := s.threads[t];
    if !Blocked(s, t) {
      var a :=
        match x.pc
        case Outside => Begin([])
        case Wanting => Acquire
        case Inside => Release
        case WantingQueue => AcquireQueue
        case Pushing => Push(x.frame)
        case Checking => Check
        case Backing => Unlock
        case Sleeping => Wake
        case Sending => Send
        case Leaving => Release
        case Popping => Take;
      assert Enabled(s, t, a);
    } else {
      forall a ensures !Enabled(s, t, a) {
      }
    }
  }

  /** Who keeps a blocked thread waiting can step itself, or waits for a queue holder that can. */
  lemma HolderSteps(s: State, t: nat) returns (u: nat)
    requires Inv(s) && t < |s.threads| && Fits(s.threads[t], |s.nets|) && Blocked(s, t)
    ensures u < |s.threads| && u != t && CanStep(s, u)
    ensures HoldsMesh(s.threads[u]) || HoldsQueue(s.threads[u])
  {
    assert ThreadInv(s, t);
    var x := s.threads[t];
    if x.pc == Wanting {
      assert OwnerInv(s, x.role.net);
      u := s.nets[x.role.net].owner.value;
    } else {
      u := s.queueOwner.value;
    }
    assert ThreadInv(s, u);
    if Blocked(s, u) {
      u := s.queueOwner.value;
      assert ThreadInv(s, u);
    }
    StepsUnlessBlocked(s, u);
  }

  /**
   No deadlock in any reachable state: a thread holding the queue lock waits for nothing, and as long as some
   thread is blocked, some lock holder can step; so with any thread at all, some thread can always step.
   */
  lemma DeadlockFree(s: State, steps: seq<(nat, Act)>)
    requires Initial(s) && Run(s, steps).Some?
    ensures var r := Run(s, steps).value;
            forall t :: 0 <= t < |r.threads| && HoldsQueue(r.threads[t]) ==> CanStep(r, t)
    ensures var r := Run(s, steps).value;
            forall t :: 0 <= t < |r.threads| && !CanStep(r, t) ==>
              exists u :: 0 <= u < |r.threads| && CanStep(r, u) && (HoldsMesh(r.threads[u]) || HoldsQueue(r.threads[u]))
    ensures var r := Run(s, steps).value;
            |r.threads| > 0 ==> exists u :: 0 <= u < |r.threads| && CanStep(r, u)
  {
    InvInEveryRun(s, steps);
    var r := Run(s, steps).value;
    forall t | 0 <= t < |r.threads|
      ensures HoldsQueue(r.threads[t]) ==> CanStep(r, t)
      ensures !CanStep(r, t) ==>
              exists u :: 0 <= u < |r.threads| && CanStep(r, u) && (HoldsMesh(r.threads[u]) || HoldsQueue(r.threads[u]))
    {
      assert ThreadInv(r, t);
      StepsUnlessBlocked(r, t);
      if Blocked(r, t) {
        var u := HolderSteps(r, t);
      }
    }
    if |r.threads| > 0 && !CanStep(r, 0) {
      var u :| 0 <= u < |r.threads| && CanStep(r, u);
    }
  }
}
