/**
 network::transmit and network::update, statement by statement, on the shared state of MeshLocks. All other
 threads run between any two statements. Waiting for a lock or for room depends on them, so an execution is
 followed for `patience` waits; None says that it was still waiting then.
 */
module MeshNetwork {
  import opened Prelude
  import opened Packing
  import opened MeshLocks

  datatype Result = Success | NotReady

  class Shared {
    var state: State

    ghost const start: State
    ghost var steps: seq<(nat, Act)>

    ghost predicate Valid()
      reads this
    {
      Initial(start) && Run(start, steps) == Some(state)
    }

    constructor (start: State)
      requires Initial(start)
      ensures Valid() && state == start
    {
      this.start := start;
      state := start;
      steps := [];
    }

    /** The frames that thread `t` has handed to the gRPC queue so far. */
    ghost function Pushed(t: nat): seq<Frame>
      reads this
    {
      PushesBy(steps, t)
    }

    /** One action of thread `t`. */
    method Do(t: nat, a: Act)
      requires Valid() && Enabled(state, t, a)
      modifies this
      ensures Valid() && old(steps) <= steps && state == Done(old(state), t, a)
      ensures Pushed(t) == if a.Push? then old(Pushed(t)) + [a.f] else old(Pushed(t))
      ensures forall u: nat :: u != t ==> PushesBy(steps, u) == PushesBy(old(steps), u)
    {
      RunExtended(start, steps, t, a);
      PushesExtended(steps, t, a);
      state := Done(state, t, a);
      steps := steps + [(t, a)];
    }

    /** What thread `t` can rely on while the others run. */
    ghost predicate Undisturbed(t: nat, before: State)
      reads this
    {
      && Valid() && |state.nets| == |before.nets| && |state.threads| == |before.threads|
      && t < |state.threads| && state.threads[t] == before.threads[t] && Fits(state.threads[t], |state.nets|)
      && (HoldsMesh(state.threads[t]) ==> state.nets[state.threads[t].role.net] == before.nets[state.threads[t].role.net])
    }

    /** Some other thread takes one step, if it can. */
    method OtherStep(t: nat)
      requires Valid() && t < |state.threads| && Fits(state.threads[t], |state.nets|)
      modifies this
      ensures old(steps) <= steps && Undisturbed(t, old(state)) && Pushed(t) == old(Pushed(t))
    {
      var u: nat := *;
      var a: Act := *;
      if u != t && Enabled(state, u, a) {
        InvInEveryRun(start, steps);
        OthersDoNotDisturb(state, u, a, t);
        Do(u, a);
      }
    }

    method OthersRun(t: nat)
      requires Valid() && t < |state.threads| && Fits(state.threads[t], |state.nets|)
      modifies this
      ensures old(steps) <= steps && Undisturbed(t, old(state)) && Pushed(t) == old(Pushed(t))
    {
      var count: nat := *;
      while count > 0
        invariant old(steps) <= steps && Undisturbed(t, old(state)) && Pushed(t) == old(Pushed(t))
      {
        OtherStep(t);
        count := count - 1;
      }
    }

    /** Some thread has the network's lock. */
    predicate NetTaken(n: nat)
      reads this
    {
      n < |state.nets| && state.nets[n].owner.Some?
    }

    predicate Stands(t: nat, n: nat, role: Role, pc: Pc)
      reads this
    {
      n < |state.nets| && t < |state.threads| && state.threads[t].role == role && state.threads[t].pc == pc &&
      Fits(state.threads[t], |state.nets|)
    }

    /** The call of transmit or update: the thread goes to the network's lock. */
    method Call(t: nat, n: nat, role: Role, frame: Frame)
      requires Valid() && role in [Updater(n), Transmitter(n)] && Stands(t, n, role, Outside)
      modifies this
      ensures Valid() && old(steps) <= steps && Pushed(t) == old(Pushed(t))
      ensures Stands(t, n, role, Wanting) && state.threads[t].frame == frame
    {
      Do(t, Begin(frame));
    }

    /** Waits for the network's lock and takes it. */
    method Lock(t: nat, n: nat, role: Role, patience: nat) returns (left: Option<nat>)
      requires Valid() && role in [Updater(n), Transmitter(n)] && Stands(t, n, role, Wanting)
      modifies this
      ensures Valid() && old(steps) <= steps && Pushed(t) == old(Pushed(t))
      ensures left.None? ==> NetTaken(n)
      ensures left.Some? ==>
                && left.value <= patience
                && Stands(t, n, role, if role.Updater? then Inside else Checking)
                && state.threads[t].frame == old(state).threads[t].frame
    {
      var rest: nat := patience;
      OthersRun(t);
      while state.nets[n].owner.Some?
        invariant old(steps) <= steps && Undisturbed(t, old(state)) && rest <= patience
        invariant Pushed(t) == old(Pushed(t))
        decreases rest
      {
        if rest == 0 {
          return None;
        }
        rest := rest - 1;
        OthersRun(t);
      }
      Do(t, Acquire);
      return Some(rest);
    }

    /**
     network::transmit. The result is never NotReady: between the check that finds room and the send, no
     other thread can take the room, whatever runs in between.
     */
    method Transmit(t: nat, n: nat, frame: Frame, patience: nat) returns (r: Option<Result>)
      requires Valid() && Stands(t, n, Transmitter(n), Outside)
      modifies this
      ensures Valid() && old(steps) <= steps
      ensures r == None || r == Some(Success)
      ensures r.None? ==> NetTaken(n)
      ensures r.Some? ==>
                && Stands(t, n, Transmitter(n), Outside) && state.nets[n].owner == None
                && state.nets[n].slot == Some(frame)
                && state.nets[n].accepted == state.nets[n].drained + [frame]
    {
      Call(t, n, Transmitter(n), frame);
      var left := Lock(t, n, Transmitter(n), patience);
      if left == None {
        return None;
      }
      left := AwaitRoom(t, n, left.value);
      if left == None {
        return None;
      }
      OthersRun(t);
      r := SendLocked(t, n, frame);
    }

    /** One call of rfnet_is_tx_free, with the lock held. */
    method CheckRoom(t: nat, n: nat) returns (free: bool)
      requires Valid() && Stands(t, n, Transmitter(n), Checking)
      modifies this
      ensures Valid() && old(steps) <= steps
      ensures Stands(t, n, Transmitter(n), if free then Sending else Backing)
      ensures free <==> state.nets[n].slot.None?
      ensures state.threads[t].frame == old(state).threads[t].frame
    {
      OthersRun(t);
      free := state.nets[n].slot.None?;
      Do(t, Check);
    }

    /** The body of the wait loop: give the lock away, sleep, take it again. */
    method BackOff(t: nat, n: nat, patience: nat) returns (left: Option<nat>)
      requires Valid() && Stands(t, n, Transmitter(n), Backing)
      modifies this
      ensures Valid() && old(steps) <= steps
      ensures left.None? ==> NetTaken(n)
      ensures left.Some? ==>
                && left.value <= patience && Stands(t, n, Transmitter(n), Checking)
                && state.threads[t].frame == old(state).threads[t].frame
    {
      Do(t, Unlock);
      OthersRun(t);
      Do(t, Wake);
      left := Lock(t, n, Transmitter(n), patience);
    }

    /** The wait loop: check, and back off while there is no room. */
    method AwaitRoom(t: nat, n: nat, patience: nat) returns (left: Option<nat>)
      requires Valid() && Stands(t, n, Transmitter(n), Checking)
      modifies this
      ensures Valid() && old(steps) <= steps
      ensures left.None? ==> NetTaken(n)
      ensures left.Some? ==>
                && Stands(t, n, Transmitter(n), Sending) && state.nets[n].slot.None?
                && state.threads[t].frame == old(state).threads[t].frame
    {
      var rest: nat := patience;
      var free := CheckRoom(t, n);
      while !free
        invariant Valid() && old(steps) <= steps
        invariant Stands(t, n, Transmitter(n), if free then Sending else Backing)
        invariant free ==> state.nets[n].slot.None?
        invariant state.threads[t].frame == old(state).threads[t].frame
        decreases rest, !free
      {
        if rest == 0 {
          BackingHolds(t, n);
          return None;
        }
        left := BackOff(t, n, rest - 1);
        if left == None {
          return None;
        }
        rest := left.value;
        free := CheckRoom(t, n);
      }
      return Some(rest);
    }

    /** A transmitter about to give the lock away still has it. */
    ghost method BackingHolds(t: nat, n: nat)
      requires Valid() && Stands(t, n, Transmitter(n), Backing)
      ensures NetTaken(n)
    {
      InvInEveryRun(start, steps);
      assert ThreadInv(state, t);
    }

    /** rfnet_send with its return code, and the release of the lock. */
    method SendLocked(t: nat, n: nat, frame: Frame) returns (r: Option<Result>)
      requires Valid() && Stands(t, n, Transmitter(n), Sending)
      requires state.threads[t].frame == frame && state.nets[n].slot.None?
      modifies this
      ensures Valid() && old(steps) <= steps
      ensures r == Some(Success)
      ensures Stands(t, n, Transmitter(n), Outside) && state.nets[n].owner == None
      ensures state.nets[n].slot == Some(frame) && state.nets[n].accepted == state.nets[n].drained + [frame]
    {
      var rc := if state.nets[n].slot.None? then 0 else -1;
      Do(t, Send);
      r := if rc != 0 then Some(NotReady) else Some(Success);
      OthersRun(t);
      Do(t, Release);
      InvInEveryRun(start, steps);
      assert NetInv(state.nets[n]);
    }

    /**
     network::update: rfnet may send its stored frame and may hand on received frames, each through receive_frame.
     They are pushed into the gRPC queue in order, each once; `handed` counts those pushed before the wait ran out.
     */
    method Update(t: nat, n: nat, received: seq<Frame>, patience: nat) returns (done: bool, ghost handed: nat)
      requires Valid() && Stands(t, n, Updater(n), Outside)
      modifies this
      ensures Valid() && old(steps) <= steps
      ensures handed <= |received| && Pushed(t) == old(Pushed(t)) + received[..handed]
      ensures !done ==> NetTaken(n)
      ensures done ==> Stands(t, n, Updater(n), Outside) && state.nets[n].owner == None && handed == |received|
    {
      Call(t, n, Updater(n), []);
      var left := Lock(t, n, Updater(n), patience);
      if left == None {
        return false, 0;
      }
      MaySend(t, n);
      done, handed := HandOnAll(t, n, received, patience);
      if done {
        Do(t, Release);
      }
    }

    /** The sending half of rfnet_update. */
    method MaySend(t: nat, n: nat)
      requires Valid() && Stands(t, n, Updater(n), Inside)
      modifies this
      ensures Valid() && old(steps) <= steps && Pushed(t) == old(Pushed(t))
      ensures Stands(t, n, Updater(n), Inside)
    {
      if state.nets[n].slot.Some? {
        if * {
          Do(t, Drain);
        }
      }
    }

    /** The receiving half. */
    method HandOnAll(t: nat, n: nat, received: seq<Frame>, patience: nat) returns (done: bool, ghost handed: nat)
      requires Valid() && Stands(t, n, Updater(n), Inside)
      modifies this
      ensures Valid() && old(steps) <= steps
      ensures handed <= |received| && Pushed(t) == old(Pushed(t)) + received[..handed]
      ensures !done ==> NetTaken(n)
      ensures done ==> Stands(t, n, Updater(n), Inside) && handed == |received|
    {
      handed := 0;
      ghost var before := Pushed(t);
      for i := 0 to |received|
        invariant Valid() && old(steps) <= steps && Stands(t, n, Updater(n), Inside)
        invariant handed == i && Pushed(t) == before + received[..i]
      {
        done := HandOn(t, n, received[i], patience);
        if !done {
          return;
        }
        handed := i + 1;
        OneMore(before, received, i);
      }
      done := true;
    }

    /** Waits for the queue lock inside receive_frame. */
    method AwaitQueue(t: nat, n: nat, patience: nat) returns (free: bool)
      requires Valid() && Stands(t, n, Updater(n), WantingQueue)
      modifies this
      ensures Valid() && old(steps) <= steps
      ensures Stands(t, n, Updater(n), WantingQueue) && state.threads[t].frame == old(state).threads[t].frame
      ensures Pushed(t) == old(Pushed(t))
      ensures free <==> state.queueOwner.None?
    {
      var rest: nat := patience;
      OthersRun(t);
      while state.queueOwner.Some?
        invariant old(steps) <= steps && Undisturbed(t, old(state)) && Pushed(t) == old(Pushed(t))
        decreases rest
      {
        if rest == 0 {
          return false;
        }
        rest := rest - 1;
        OthersRun(t);
      }
      return true;
    }

    /** The receive callback down to receive_frame, which takes the queue lock inside the network's lock. */
    method HandOn(t: nat, n: nat, frame: Frame, patience: nat) returns (done: bool)
      requires Valid() && Stands(t, n, Updater(n), Inside)
      modifies this
      ensures Valid() && old(steps) <= steps
      ensures done ==> Pushed(t) == old(Pushed(t)) + [frame]
      ensures !done ==> Pushed(t) == old(Pushed(t)) && NetTaken(n) && state.queueOwner.Some?
      ensures done ==> Stands(t, n, Updater(n), Inside) && AtBack(state.queue, frame)
    {
      done := AwaitInCallback(t, n, frame, patience);
      if done {
        ReceiveFrame(t, n, frame);
      }
    }

    method AwaitInCallback(t: nat, n: nat, frame: Frame, patience: nat) returns (free: bool)
      requires Valid() && Stands(t, n, Updater(n), Inside)
      modifies this
      ensures Valid() && old(steps) <= steps && Pushed(t) == old(Pushed(t))
      ensures !free ==> NetTaken(n) && state.queueOwner.Some?
      ensures free ==> Stands(t, n, Updater(n), WantingQueue) && state.threads[t].frame == frame && state.queueOwner.None?
    {
      Callback(t, n, frame);
      free := AwaitQueue(t, n, patience);
      if !free {
        CallbackHolds(t, n);
      }
    }

    /** The updater keeps its network while it waits for the queue. */
    ghost method CallbackHolds(t: nat, n: nat)
      requires Valid() && Stands(t, n, Updater(n), WantingQueue)
      ensures NetTaken(n)
    {
      InvInEveryRun(start, steps);
      assert ThreadInv(state, t);
    }

    /** rfnet_update calls back with a received frame. */
    method Callback(t: nat, n: nat, frame: Frame)
      requires Valid() && Stands(t, n, Updater(n), Inside)
      modifies this
      ensures Valid() && old(steps) <= steps && Pushed(t) == old(Pushed(t))
      ensures Stands(t, n, Updater(n), WantingQueue) && state.threads[t].frame == frame
    {
      Do(t, Deliver(frame));
    }

    /** receive_frame, from the queue lock to its release. */
    method ReceiveFrame(t: nat, n: nat, frame: Frame)
      requires Valid() && Stands(t, n, Updater(n), WantingQueue) && state.queueOwner.None?
      requires state.threads[t].frame == frame
      modifies this
      ensures Valid() && old(steps) <= steps && Pushed(t) == old(Pushed(t)) + [frame]
      ensures Stands(t, n, Updater(n), Inside) && AtBack(state.queue, frame)
    {
      Do(t, AcquireQueue);
      OthersRun(t);
      Do(t, Push(frame));
    }
  }

  /** The queue ends with this frame. */
  predicate AtBack(queue: seq<Frame>, frame: Frame) {
    queue != [] && queue[|queue| - 1] == frame
  }

  lemma OneMore<T>(a: seq<T>, b: seq<T>, i: nat)
    requires i < |b|
    ensures (a + b[..i]) + [b[i]] == a + b[..i + 1]
  {
  }

  /** A step of `u` leaves the record of `t` alone, and the network that `t` has locked. */
  lemma OthersDoNotDisturb(s: State, u: nat, a: Act, t: nat)
    requires Inv(s) && Enabled(s, u, a) && t < |s.threads| && t != u
    ensures var r := Done(s, u, a);
            && |r.nets| == |s.nets| && |r.threads| == |s.threads| && r.threads[t] == s.threads[t]
            && Fits(r.threads[t], |r.nets|)
            && (HoldsMesh(r.threads[t]) ==> r.nets[r.threads[t].role.net] == s.nets[s.threads[t].role.net])
  {
    assert ThreadInv(s, t);
    if HoldsMesh(s.threads[t]) {
      OthersLeaveNetAlone(s, u, a, t);
    }
  }
}
