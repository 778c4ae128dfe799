/**
 The receive path of the gRPC service (grpc_service.cpp:141-200) as a concurrent step system: the mesh
 thread pushes frames into a bounded queue, any number of ReceiveStream handlers pop them into the shared
 `_rx_frame`, copy that into their own response and write it. Each step is one lock hold or one unlocked
 operation; handlers interleave freely.
 */
module Pipeline {
  import opened Prelude
  import opened Packing
  import opened FrameQueue

  /** Where a handler stands in its loop. */
  datatype Phase = Opening | Waiting | Holding | Loaded | Ended

  /**
   `msg` is the response message, filled again for every frame; `wire` lists what has been written after
   the initial response. The rest is history: `mine` is the index of the frame this handler popped last,
   `from` the index of the frame that anyone had popped last when it copied `_rx_frame`; `seen` and `loaded`
   list these two for every frame written. `taken` counts its pops and
   `idle` its timeouts, `lost` tells whether a write failed.
   */
  datatype Stream = Stream(
    phase: Phase, msg: RadioFrame, wire: seq<RadioFrame>,
    mine: nat, from: nat, seen: seq<nat>, loaded: seq<nat>, taken: nat, idle: nat, lost: bool)

  const NEW_STREAM := Stream(Opening, EMPTY_FRAME, [], 0, 0, [], [], 0, 0, false)

  /**
   History: `pushed` are all frames ever pushed, `taker` says who popped which, `last` is the index of the
   frame popped last by anyone, `evicted` counts the frames dropped.
   */
  datatype State = State(
    pushed: seq<Frame>, queue: seq<Frame>, rx: Frame, streams: seq<Stream>,
    taker: map<nat, nat>, last: nat, evicted: nat)

  const INIT := State([], [], [], [], map[], 0, 0)

  /** The index of the frame at the front of the queue. */
  function Head(s: State): int {
    |s.pushed| - |s.queue|
  }

  datatype Step =
    | Arrive(f: Frame)
    | Connect                     // a client opens a stream
    | Open(i: nat)                // the initial, empty response
    | Pop(i: nat)
    | TimeOut(i: nat)
    | Load(i: nat)                // grpc_buf_unpack, outside the lock
    | Write(i: nat, ok: bool)
    | Cancel(i: nat)

  predicate At(s: State, i: nat, p: Phase) {
    i < |s.streams| && s.streams[i].phase == p
  }

  predicate Enabled(s: State, a: Step) {
    match a
    case Arrive(_) => true
    case Connect => true
    case Open(i) => At(s, i, Opening)
    case Pop(i) => At(s, i, Waiting) && s.queue != []
    case TimeOut(i) => At(s, i, Waiting) && s.queue == []
    case Load(i) => At(s, i, Holding)
    case Write(i, _) => At(s, i, Loaded)
    case Cancel(i) => At(s, i, Waiting)
  }

  function SetStream(s: State, i: nat, x: Stream): State
    requires i < |s.streams|
  {
    s.(streams := s.streams[i := x])
  }

  function Pushed(s: State, f: Frame): State {
    s.(pushed := s.pushed + [f],
       queue := Enqueued(s.queue, f),
       evicted := s.evicted + if |s.queue| >= QUEUE_LIMIT then 1 else 0)
  }

  function Popped(s: State, i: nat): State
    requires i < |s.streams| && s.queue != [] && Head(s) >= 0
  {
    var x := s.streams[i].(phase := Holding, mine := Head(s), taken := s.streams[i].taken + 1);
    SetStream(s, i, x).(rx := s.queue[0], queue := s.queue[1..], taker := s.taker[Head(s) := i], last := Head(s))
  }

  function WithFrame(s: State, x: Stream): Stream {
    x.(phase := Loaded, msg := UnpackedFrame(x.msg, s.rx), from := s.last)
  }

  function Written(x: Stream, ok: bool): Stream {
    if ok then
      x.(phase := Waiting, wire := x.wire + [x.msg], seen := x.seen + [x.mine], loaded := x.loaded + [x.from])
    else
      x.(phase := Ended, lost := true)
  }

  function Done(s: State, a: Step): State
    requires Enabled(s, a) && Head(s) >= 0
  {
    match a
    case Arrive(f) => Pushed(s, f)
    case Connect => s.(streams := s.streams + [NEW_STREAM])
    case Open(i) => SetStream(s, i, s.streams[i].(phase := Waiting))
    case Pop(i) => Popped(s, i)
    case TimeOut(i) => SetStream(s, i, s.streams[i].(idle := s.streams[i].idle + 1))
    case Load(i) => SetStream(s, i, WithFrame(s, s.streams[i]))
    case Write(i, ok) => SetStream(s, i, Written(s.streams[i], ok))
    case Cancel(i) => SetStream(s, i, s.streams[i].(phase := Ended))
  }

  /** A handler pops while another one has popped but not yet copied its frame out of `_rx_frame`. */
  predicate Overtakes(s: State, a: Step) {
    a.Pop? && exists j :: 0 <= j < |s.streams| && j != a.i && s.streams[j].phase == Holding
  }

  // ----- What every interleaving keeps -----

  /** The queue is the tail of all frames ever pushed, and every frame is popped, evicted or queued. */
  ghost predicate QueueInv(s: State) {
    && |s.queue| <= QUEUE_LIMIT
    && |s.queue| <= |s.pushed| && s.queue == s.pushed[Head(s)..]
    && |s.taker| + s.evicted == Head(s)
    && (forall k :: k in s.taker ==> k < Head(s))
  }

  /** The shared frame is the one popped last. */
  ghost predicate SharedInv(s: State) {
    && (s.taker != map[] ==> s.last < Head(s) && s.rx == s.pushed[s.last])
    && (forall k :: k in s.taker ==> k <= s.last)
  }

  predicate Increasing(ks: seq<nat>) {
    forall a, b :: 0 <= a < b < |ks| ==> ks[a] < ks[b]
  }

  predicate NonDecreasing(ks: seq<nat>) {
    forall a, b :: 0 <= a < b < |ks| ==> ks[a] <= ks[b]
  }

  predicate Busy(x: Stream) {
    x.phase == Holding || x.phase == Loaded
  }

  /** What handler `i` has written: for each of its pops the frame that was in `_rx_frame` at the copy. */
  ghost predicate WrittenInv(s: State, i: nat, x: Stream) {
    && |x.wire| == |x.seen| == |x.loaded|
    && Increasing(x.seen) && NonDecreasing(x.loaded)
    && (forall k :: 0 <= k < |x.seen| ==>
                      && x.seen[k] in s.taker && s.taker[x.seen[k]] == i
                      && x.seen[k] <= x.loaded[k] <= s.last && x.loaded[k] < |s.pushed|
                      && Packed(x.wire[k]) == s.pushed[x.loaded[k]])
    && x.taken == |x.seen| + (if Busy(x) || x.lost then 1 else 0)
    && (x.lost ==> x.phase == Ended)
    && (x.phase == Opening ==> x == NEW_STREAM)
  }

  /** What it is about to write. */
  ghost predicate PendingInv(s: State, i: nat, x: Stream) {
    && (Busy(x) ==>
          && x.mine in s.taker && s.taker[x.mine] == i && x.mine < |s.pushed|
          && forall k :: 0 <= k < |x.seen| ==> x.seen[k] < x.mine)
    && (x.phase == Loaded ==>
          && x.mine <= x.from <= s.last && x.from < |s.pushed| && Packed(x.msg) == s.pushed[x.from]
          && forall k :: 0 <= k < |x.loaded| ==> x.loaded[k] <= x.from)
  }

  ghost predicate StreamInv(s: State, i: nat)
    requires i < |s.streams|
  {
    WrittenInv(s, i, s.streams[i]) && PendingInv(s, i, s.streams[i])
  }

  function TotalTaken(xs: seq<Stream>): nat {
    if xs == [] then 0 else TotalTaken(xs[..|xs| - 1]) + xs[|xs| - 1].taken
  }

  ghost predicate Inv(s: State) {
    && QueueInv(s) && SharedInv(s)
    && (forall i :: 0 <= i < |s.streams| ==> StreamInv(s, i))
    && TotalTaken(s.streams) == |s.taker|
  }

  /** No handler has been overtaken: every copy was made of the handler's own frame. */
  ghost predicate OwnFrame(s: State, i: nat)
    requires i < |s.streams|
  {
    var x := s.streams[i];
    && x.loaded == x.seen
    && (x.phase == Holding ==> s.last == x.mine)
    && (x.phase == Loaded ==> x.from == x.mine)
  }

  ghost predicate Faithful(s: State) {
    forall i :: 0 <= i < |s.streams| ==> OwnFrame(s, i)
  }

  lemma StepKeepsQueueInv(s: State, a: Step)
    requires QueueInv(s) && Enabled(s, a)
    ensures QueueInv(Done(s, a))
  {
    match a
    case Arrive(f) =>
      var t := Done(s, a);
      assert t.queue == t.pushed[Head(t)..];
    case Pop(i) =>
      assert Head(s) !in s.taker;
    case _ =>
  }

  /**
   A push leaves the last 64 of the queued frames and the new one, so it drops a frame exactly when it finds 64
   queued: the one pushed 64 frames earlier, which nobody has popped. No other step drops any.
   */
  lemma EvictionDistance(s: State, a: Step)
    requires QueueInv(s) && Enabled(s, a)
    ensures var t := Done(s, a);
            t.evicted != s.evicted <==> a.Arrive? && |s.queue| == 64
    ensures a.Arrive? ==>
              var t := Done(s, a); var all := s.queue + [a.f];
              && t.pushed == s.pushed + [a.f]
              && t.queue == (if |all| <= 64 then all else all[|all| - 64..])
    ensures var t := Done(s, a);
            t.evicted != s.evicted ==>
              && t.evicted == s.evicted + 1
              && Head(s) + 64 == |s.pushed| && t.pushed[|s.pushed|] == a.f
              && s.queue[0] == s.pushed[Head(s)] && Head(t) == Head(s) + 1
              && Head(s) !in t.taker
  {
  }

  lemma {:induction false} TotalAfterUpdate(xs: seq<Stream>, i: nat, x: Stream)
    requires i < |xs|
    ensures TotalTaken(xs[i := x]) + xs[i].taken == TotalTaken(xs) + x.taken
    decreases |xs|
  {
    var n := |xs| - 1;
    if i == n {
      assert xs[i := x][..n] == xs[..n];
    } else {
      TotalAfterUpdate(xs[..n], i, x);
      assert xs[i := x][..n] == xs[..n][i := x];
    }
  }

  /** A step that leaves the shared parts alone concerns one stream only. */
  lemma LocalStep(s: State, i: nat, x: Stream)
    requires Inv(s) && i < |s.streams|
    requires x.taken == s.streams[i].taken && WrittenInv(s, i, x) && PendingInv(s, i, x)
    ensures Inv(SetStream(s, i, x))
  {
    var t := SetStream(s, i, x);
    TotalAfterUpdate(s.streams, i, x);
    forall j | 0 <= j < |t.streams|
      ensures StreamInv(t, j)
    {
      assert j != i ==> StreamInv(s, j);
      StreamInvFrame(s, t, j, t.streams[j]);
    }
  }

  /** A stream's invariant depends on the pushed frames, on who took them, and on the last pop not going back. */
  lemma StreamInvFrame(s: State, t: State, i: nat, x: Stream)
    requires WrittenInv(s, i, x) && PendingInv(s, i, x)
    requires s.pushed <= t.pushed && (s.taker == map[] || s.last <= t.last)
    requires forall k :: k in s.taker ==> k in t.taker && t.taker[k] == s.taker[k]
    ensures WrittenInv(t, i, x) && PendingInv(t, i, x)
  {
  }

  lemma ArriveKeepsInv(s: State, f: Frame)
    requires Inv(s)
    ensures Inv(Pushed(s, f))
  {
    StepKeepsQueueInv(s, Arrive(f));
    var t := Pushed(s, f);
    forall j | 0 <= j < |t.streams|
      ensures StreamInv(t, j)
    {
      assert StreamInv(s, j);
      StreamInvFrame(s, t, j, s.streams[j]);
    }
  }

  lemma ConnectKeepsInv(s: State)
    requires Inv(s)
    ensures Inv(Done(s, Connect))
  {
    var t := Done(s, Connect);
    assert t.streams[..|s.streams|] == s.streams;
    forall j | 0 <= j < |t.streams|
      ensures StreamInv(t, j)
    {
      if j < |s.streams| {
        assert StreamInv(s, j);
        StreamInvFrame(s, t, j, s.streams[j]);
      }
    }
  }

  lemma PopKeepsInv(s: State, i: nat)
    requires Inv(s) && Enabled(s, Pop(i))
    ensures Inv(Popped(s, i))
  {
    StepKeepsQueueInv(s, Pop(i));
    var t := Popped(s, i);
    TotalAfterUpdate(s.streams, i, t.streams[i]);
    assert Head(s) !in s.taker;
    assert s.taker == map[] ==> forall k :: k !in s.taker;
    forall j | 0 <= j < |t.streams|
      ensures StreamInv(t, j)
    {
      assert StreamInv(s, j);
      if j == i {
        PopStream(s, i);
      } else {
        PopOther(s, i, j);
      }
    }
  }

  lemma PopOther(s: State, i: nat, j: nat)
    requires Inv(s) && Enabled(s, Pop(i)) && j < |s.streams| && j != i
    ensures StreamInv(Popped(s, i), j)
  {
    var t := Popped(s, i);
    assert StreamInv(s, j) && Head(s) !in s.taker;
    StreamInvFrame(s, t, j, s.streams[j]);
  }

  lemma PopStream(s: State, i: nat)
    requires Inv(s) && Enabled(s, Pop(i))
    ensures StreamInv(Popped(s, i), i)
  {
    assert StreamInv(s, i);
    var x := s.streams[i];
    assert forall k :: 0 <= k < |x.seen| ==> x.seen[k] in s.taker && x.seen[k] < Head(s);
    forall k | 0 <= k < |x.seen|
      ensures x.loaded[k] < Head(s)
    {
      assert x.seen[k] in s.taker;
    }
  }

  lemma LoadKeepsInv(s: State, i: nat)
    requires Inv(s) && Enabled(s, Load(i))
    ensures Inv(Done(s, Load(i)))
  {
    assert StreamInv(s, i);
    PackUnpack(s.streams[i].msg, s.rx);
    LocalStep(s, i, WithFrame(s, s.streams[i]));
  }

  lemma WrittenStream(s: State, i: nat, x: Stream)
    requires WrittenInv(s, i, x) && PendingInv(s, i, x) && x.phase == Loaded
    ensures WrittenInv(s, i, Written(x, true)) && PendingInv(s, i, Written(x, true))
  {
    var y := Written(x, true);
    assert Increasing(y.seen) && NonDecreasing(y.loaded);
  }

  lemma WriteKeepsInv(s: State, i: nat, ok: bool)
    requires Inv(s) && Enabled(s, Write(i, ok))
    ensures Inv(Done(s, Write(i, ok)))
  {
    assert StreamInv(s, i);
    if ok {
      WrittenStream(s, i, s.streams[i]);
    }
    LocalStep(s, i, Written(s.streams[i], ok));
  }

  lemma TimeOutKeepsInv(s: State, i: nat)
    requires Inv(s) && Enabled(s, TimeOut(i))
    ensures Inv(Done(s, TimeOut(i)))
  {
    assert StreamInv(s, i);
    LocalStep(s, i, s.streams[i].(idle := s.streams[i].idle + 1));
  }

  lemma PhaseKeepsInv(s: State, i: nat, phase: Phase)
    requires Inv(s) && (At(s, i, Opening) || At(s, i, Waiting)) && (phase == Waiting || phase == Ended)
    ensures Inv(SetStream(s, i, s.streams[i].(phase := phase)))
  {
    assert StreamInv(s, i);
    LocalStep(s, i, s.streams[i].(phase := phase));
  }

  lemma StepKeepsInv(s: State, a: Step)
    requires Inv(s) && Enabled(s, a)
    ensures Inv(Done(s, a))
  {
    match a
    case Arrive(f) => ArriveKeepsInv(s, f);
    case Connect => ConnectKeepsInv(s);
    case Open(i) => PhaseKeepsInv(s, i, Waiting);
    case Pop(i) => PopKeepsInv(s, i);
    case TimeOut(i) => TimeOutKeepsInv(s, i);
    case Load(i) => LoadKeepsInv(s, i);
    case Write(i, ok) => WriteKeepsInv(s, i, ok);
    case Cancel(i) => PhaseKeepsInv(s, i, Ended);
  }

  lemma StepKeepsFaithful(s: State, a: Step)
    requires Head(s) >= 0 && Faithful(s) && Enabled(s, a) && !Overtakes(s, a)
    ensures Faithful(Done(s, a))
  {
    var t := Done(s, a);
    forall i | 0 <= i < |t.streams|
      ensures OwnFrame(t, i)
    {
      assert i < |s.streams| ==> OwnFrame(s, i);
    }
  }

  // ----- Runs -----

  /** A run, given by its steps; None when one of them is not possible where it stands. */
  function Run(s: State, steps: seq<Step>): Option<State>
  {
    if steps == [] then Some(s)
    else
      var n := |steps| - 1;
      match Run(s, steps[..n])
      case None => None
      case Some(t) => if Enabled(t, steps[n]) && Head(t) >= 0 then Some(Done(t, steps[n])) else None
  }

  /** No handler ever overtakes another one. */
  predicate Calm(s: State, steps: seq<Step>) {
    if steps == [] then true
    else
      var n := |steps| - 1;
      Calm(s, steps[..n]) && (Run(s, steps[..n]).Some? ==> !Overtakes(Run(s, steps[..n]).value, steps[n]))
  }

  lemma {:induction false} InvInEveryRun(steps: seq<Step>)
    requires Run(INIT, steps).Some?
    ensures Inv(Run(INIT, steps).value)
    decreases |steps|
  {
    if steps != [] {
      var n := |steps| - 1;
      InvInEveryRun(steps[..n]);
      StepKeepsInv(Run(INIT, steps[..n]).value, steps[n]);
    }
  }

  lemma {:induction false} FaithfulInCalmRuns(steps: seq<Step>)
    requires Run(INIT, steps).Some? && Calm(INIT, steps)
    ensures Faithful(Run(INIT, steps).value)
    decreases |steps|
  {
    if steps != [] {
      var n := |steps| - 1;
      FaithfulInCalmRuns(steps[..n]);
      StepKeepsFaithful(Run(INIT, steps[..n]).value, steps[n]);
    }
  }

  /** In every run the queue is a suffix of all pushed frames, and every frame is popped, evicted or queued. */
  lemma QueueInvInEveryRun(steps: seq<Step>)
    requires Run(INIT, steps).Some?
    ensures var s := Run(INIT, steps).value;
            && |s.queue| <= 64 && |s.queue| <= |s.pushed| && s.queue == s.pushed[Head(s)..]
            && |s.pushed| == TotalTaken(s.streams) + s.evicted + |s.queue|
  {
    InvInEveryRun(steps);
  }

  /** The frames a client gets out of the responses written to it. */
  function Delivered(x: Stream): (fs: seq<seq<byte>>)
    ensures |fs| == |x.wire|
  {
    seq(|x.wire|, k requires 0 <= k < |x.wire| => Packed(x.wire[k]))
  }

  /**
   Delivery in every run, overtaking or not. Each client gets, for each of its pops in order, the frame that
   anyone had popped last when its handler copied `_rx_frame`: never an older one than the handler's own, and
   never going back. So a delivery is right exactly if those two frames are the same bytes.
   */
  lemma DeliveryInEveryRun(steps: seq<Step>, i: nat)
    requires Run(INIT, steps).Some? && i < |Run(INIT, steps).value.streams|
    ensures var s := Run(INIT, steps).value; var x := s.streams[i];
            && |Delivered(x)| == |x.seen| == |x.loaded|
            && Increasing(x.seen) && NonDecreasing(x.loaded)
            && (forall k :: 0 <= k < |x.seen| ==>
                              && x.seen[k] <= x.loaded[k] < |s.pushed|
                              && Delivered(x)[k] == s.pushed[x.loaded[k]]
                              && (Delivered(x)[k] == s.pushed[x.seen[k]] <==>
                                  s.pushed[x.loaded[k]] == s.pushed[x.seen[k]]))
            && x.taken == |x.seen| + (if Busy(x) || x.lost then 1 else 0)
  {
    InvInEveryRun(steps);
    assert StreamInv(Run(INIT, steps).value, i);
  }

  /** No two pops anywhere are of the same frame. */
  lemma PopsAreDisjoint(steps: seq<Step>, i: nat, j: nat, k: nat, l: nat)
    requires Run(INIT, steps).Some? && i != j
    requires var xs := Run(INIT, steps).value.streams;
             i < |xs| && j < |xs| && k < |xs[i].seen| && l < |xs[j].seen|
    ensures var xs := Run(INIT, steps).value.streams; xs[i].seen[k] != xs[j].seen[l]
  {
    InvInEveryRun(steps);
    var s := Run(INIT, steps).value;
    assert StreamInv(s, i) && StreamInv(s, j);
    assert s.taker[s.streams[i].seen[k]] == i && s.taker[s.streams[j].seen[l]] == j;
  }

  /**
   End to end: as long as no handler overtakes another, every client decodes an order-preserving
   subsequence of the arrivals without duplicates, no two clients get the same arrival, and every arrival
   is delivered, queued, evicted, in flight in some handler, or lost to that handler's failed write.
   */
  lemma EndToEnd(steps: seq<Step>, i: nat, j: nat)
    requires Run(INIT, steps).Some? && Calm(INIT, steps)
    requires var s := Run(INIT, steps).value; i < |s.streams| && j < |s.streams|
    ensures var s := Run(INIT, steps).value; var x := s.streams[i];
            && Increasing(x.seen) && |Delivered(x)| == |x.seen|
            && (forall k :: 0 <= k < |x.seen| ==> x.seen[k] < |s.pushed| && Delivered(x)[k] == s.pushed[x.seen[k]])
            && (i != j ==> forall k, l :: 0 <= k < |x.seen| && 0 <= l < |s.streams[j].seen| ==>
                                            x.seen[k] != s.streams[j].seen[l])
    ensures var s := Run(INIT, steps).value;
            && |s.pushed| == TotalTaken(s.streams) + s.evicted + |s.queue|
            && s.streams[i].taken == |s.streams[i].seen| + (if Busy(s.streams[i]) || s.streams[i].lost then 1 else 0)
  {
    var s := Run(INIT, steps).value;
    DeliveryInEveryRun(steps, i);
    QueueInvInEveryRun(steps);
    FaithfulInCalmRuns(steps);
    assert OwnFrame(s, i);
    forall k, l | i != j && 0 <= k < |s.streams[i].seen| && 0 <= l < |s.streams[j].seen|
      ensures s.streams[i].seen[k] != s.streams[j].seen[l]
    {
      PopsAreDisjoint(steps, i, j, k, l);
    }
  }
}
