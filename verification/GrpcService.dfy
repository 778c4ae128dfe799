/**
 The receive side of grpc_service, with its fields. A ghost log of Pipeline steps accompanies the fields:
 every method extends it by the steps it performs, so what Pipeline proves of runs holds here.
 */
module GrpcService {
  import opened Prelude
  import opened Packing
  import opened FrameQueue
  import opened Pipeline

  datatype Status = StreamOk | Aborted

  /** The steps lead to `s` without any handler overtaking another. */
  ghost predicate Logged(steps: seq<Step>, s: State) {
    Run(INIT, steps) == Some(s) && Calm(INIT, steps) && Head(s) >= 0
  }

  lemma LogExtended(steps: seq<Step>, s: State, a: Step)
    requires Logged(steps, s) && Enabled(s, a) && !Overtakes(s, a)
    ensures Logged(steps + [a], Done(s, a))
  {
    var next := steps + [a];
    assert next[..|steps|] == steps;
    QueueInvInEveryRun(next);
  }

  /** What a client has got in a logged run. */
  lemma LoggedDelivery(steps: seq<Step>, s: State, i: nat)
    requires Logged(steps, s) && i < |s.streams|
    ensures var x := s.streams[i];
            && Increasing(x.seen) && |x.wire| == |x.seen|
            && x.taken == |x.wire| + (if Busy(x) || x.lost then 1 else 0)
            && forall k :: 0 <= k < |x.wire| ==> x.seen[k] < |s.pushed| && Packed(x.wire[k]) == s.pushed[x.seen[k]]
  {
    EndToEnd(steps, i, i);
    var x := s.streams[i];
    forall k | 0 <= k < |x.wire|
      ensures Delivered(x)[k] == Packed(x.wire[k])
    {
    }
  }

  class Service {
    var frameQueue: seq<Frame>
    var rxFrame: Frame

    ghost var steps: seq<Step>
    ghost var state: State

    ghost predicate Valid()
      reads this
    {
      && Logged(steps, state)
      && state.queue == frameQueue && state.rx == rxFrame
    }

    constructor ()
      ensures Valid() && state == INIT
    {
      frameQueue, rxFrame := [], [];
      steps, state := [], INIT;
    }

    /** Logs one step whose effect on the fields has just been carried out. */
    ghost method Log(a: Step)
      requires Logged(steps, state)
      requires Enabled(state, a) && !Overtakes(state, a)
      requires Done(state, a).queue == frameQueue && Done(state, a).rx == rxFrame
      modifies this`steps, this`state
      ensures Valid() && old(steps) <= steps && state == Done(old(state), a)
    {
      LogExtended(steps, state, a);
      steps, state := steps + [a], Done(state, a);
    }

    /** grpc_service::receive_frame */
    method ReceiveFrame(frame: Frame)
      requires Valid()
      modifies this`frameQueue, this`steps, this`state
      ensures Valid() && old(steps) <= steps
      ensures state == Done(old(state), Arrive(frame))
      ensures frameQueue == (if |old(frameQueue)| < 64 then old(frameQueue) else old(frameQueue)[1..]) + [frame]
    {
      if |frameQueue| >= QUEUE_LIMIT {
        frameQueue := frameQueue[1..];
      }
      frameQueue := frameQueue + [frame];
      Log(Arrive(frame));
    }

    /** grpc_service::pop_frame into `_rx_frame`; `i` is the handler that calls it, overtaking no other. */
    method PopFrame(ghost i: nat) returns (ok: bool)
      requires Valid() && At(state, i, Waiting) && !Overtakes(state, Pop(i))
      modifies this
      ensures Valid() && old(steps) <= steps && |state.streams| == |old(state).streams|
      ensures ok <==> old(frameQueue) != []
      ensures ok ==> rxFrame == old(frameQueue)[0] && frameQueue == old(frameQueue)[1..]
      ensures !ok ==> rxFrame == old(rxFrame) && frameQueue == old(frameQueue)
      ensures state == Done(old(state), if ok then Pop(i) else TimeOut(i))
    {
      if frameQueue == [] {
        Log(TimeOut(i));
        return false;
      }
      rxFrame := frameQueue[0];
      frameQueue := frameQueue[1..];
      Log(Pop(i));
      return true;
    }

    /** The mesh thread gets the lock any number of times. */
    method MeshDelivers()
      requires Valid()
      modifies this`frameQueue, this`steps, this`state
      ensures Valid() && old(steps) <= steps
      ensures state.streams == old(state).streams
    {
      var count: nat := *;
      while count > 0
        invariant Valid() && old(steps) <= steps && state.streams == old(state).streams
      {
        var frame: Frame := *;
        ReceiveFrame(frame);
        count := count - 1;
      }
    }

    /**
     Handler `i`, the last of the log, is the one running, at phase `p`; all the others have ended. It has asked
     the queue `turns` times.
     */
    ghost predicate Only(i: nat, p: Phase, msg: RadioFrame, wire: seq<RadioFrame>, turns: nat)
      reads this
    {
      && Valid() && At(state, i, p) && |state.streams| == i + 1
      && (forall j :: 0 <= j < i ==> state.streams[j].phase == Ended)
      && state.streams[i].msg == msg && state.streams[i].wire == wire
      && state.streams[i].taken + state.streams[i].idle == turns
      && (p != Ended ==> !state.streams[i].lost)
    }

    /** One turn of the loop of ReceiveStream after a successful pop: unpack, then write. */
    method Forward(message: Message, ghost i: nat, wire: seq<RadioFrame>, ghost turns: nat)
      returns (ok: bool, next: seq<RadioFrame>)
      requires Only(i, Holding, message.Value(), wire, turns)
      modifies this`frameQueue, this`steps, this`state, message
      ensures old(steps) <= steps
      ensures Only(i, if ok then Waiting else Ended, message.Value(), next, turns)
      ensures state.streams[i].lost == !ok
      ensures next == if ok then wire + [message.Value()] else wire
    {
      MeshDelivers();
      BufUnpack(rxFrame, message);
      Log(Load(i));
      MeshDelivers();
      ok := *;
      next := if ok then wire + [message.Value()] else wire;
      Log(Write(i, ok));
    }

    /** The start of ReceiveStream: a fresh response, written empty. */
    method OpenStream() returns (message: Message)
      requires Valid() && forall j :: 0 <= j < |state.streams| ==> state.streams[j].phase == Ended
      modifies this`steps, this`state
      ensures old(steps) <= steps && fresh(message)
      ensures Only(|old(state).streams|, Waiting, message.Value(), [], 0)
    {
      ghost var i := |state.streams|;
      Log(Connect);
      message := new Message();
      Log(Open(i));
    }

    /** One turn of the loop: wait for a frame, and forward it if there is one. */
    method Turn(message: Message, ghost i: nat, wire: seq<RadioFrame>, ghost turns: nat)
      returns (ok: bool, next: seq<RadioFrame>)
      requires Only(i, Waiting, message.Value(), wire, turns)
      modifies this, message
      ensures old(steps) <= steps
      ensures Only(i, if ok then Waiting else Ended, message.Value(), next, turns + 1)
      ensures state.streams[i].lost == !ok
    {
      MeshDelivers();
      var popped := PopFrame(i);
      if popped {
        ok, next := Forward(message, i, wire, turns + 1);
      } else {
        ok, next := true, wire;
      }
    }

    /**
     grpc_service::ReceiveStream for the only client: `wire` is what reached it after the initial response
     and `which` the indices of those arrivals. The loop ends when the client cancels, here after `limit` turns.
     Each turn asks the queue once and goes without a frame only when it is empty (see PopFrame); every frame
     taken is written, but for one whose write fails.
     */
    method ReceiveStream(limit: nat) returns (status: Status, wire: seq<RadioFrame>, ghost which: seq<nat>)
      requires Valid() && forall j :: 0 <= j < |state.streams| ==> state.streams[j].phase == Ended
      modifies this
      ensures Valid() && old(steps) <= steps
      ensures Increasing(which) && |which| == |wire|
      ensures forall k :: 0 <= k < |wire| ==> which[k] < |state.pushed| && Packed(wire[k]) == state.pushed[which[k]]
      ensures |state.streams| == |old(state).streams| + 1
      ensures forall j :: 0 <= j < |state.streams| ==> state.streams[j].phase == Ended
      ensures var x := state.streams[|old(state).streams|];
              && wire == x.wire && which == x.seen && (status == Aborted <==> x.lost)
              && |wire| == x.taken - (if status == Aborted then 1 else 0)
              && x.taken + x.idle <= limit && (status == StreamOk ==> x.taken + x.idle == limit)
    {
      ghost var i := |state.streams|;
      var message := OpenStream();
      wire := [];
      var ok := true;
      var turns: nat := 0;
      while ok && turns < limit
        invariant turns <= limit
        invariant Only(i, if ok then Waiting else Ended, message.Value(), wire, turns) && old(steps) <= steps
        invariant state.streams[i].lost == !ok
        invariant fresh(message)
      {
        ok, wire := Turn(message, i, wire, turns);
        turns := turns + 1;
      }
      status := if ok then StreamOk else Aborted;
      if ok {
        Log(Cancel(i));
      }
      which := state.streams[i].seen;
      LoggedDelivery(steps, state, i);
    }
  }
}
