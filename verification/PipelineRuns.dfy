/**
 What overtaking does to the receive path, and which runs are free of it: the schedule of one turn of a
 handler, and the number of handlers that may be live at once.
 */
module PipelineRuns {
  import opened Prelude
  import opened Packing
  import opened Pipeline

  function Then(s: Option<State>, a: Step): Option<State> {
    if s.Some? && Enabled(s.value, a) && Head(s.value) >= 0 then Some(Done(s.value, a)) else None
  }

  lemma RunThen(s: State, steps: seq<Step>, a: Step)
    ensures Run(s, steps + [a]) == Then(Run(s, steps), a)
  {
    assert (steps + [a])[..|steps|] == steps;
  }

  lemma {:induction false} RunConcat(s: State, a: seq<Step>, b: seq<Step>)
    ensures Run(s, a + b) == if Run(s, a).Some? then Run(Run(s, a).value, b) else None
    decreases |b|
  {
    if b == [] {
      assert a + b == a;
    } else {
      var n := |b| - 1;
      assert a + b == (a + b[..n]) + [b[n]] && b == b[..n] + [b[n]];
      RunThen(s, a + b[..n], b[n]);
      RunConcat(s, a, b[..n]);
    }
  }

  // ----- One turn of a handler -----

  predicate NoPop(steps: seq<Step>) {
    steps == [] || (NoPop(steps[..|steps| - 1]) && !steps[|steps| - 1].Pop?)
  }

  lemma LastStep(s: State, steps: seq<Step>) returns (before: seq<Step>, t: State, a: Step)
    requires steps != [] && Run(s, steps).Some?
    ensures before == steps[..|steps| - 1] && a == steps[|steps| - 1]
    ensures Run(s, before) == Some(t) && Enabled(t, a) && Head(t) >= 0 && Run(s, steps) == Some(Done(t, a))
    ensures forall b :: b !in steps ==> b !in before && b != a
    ensures NoPop(steps) <==> NoPop(before) && !a.Pop?
  {
    before, a := steps[..|steps| - 1], steps[|steps| - 1];
    t := Run(s, before).value;
  }

  /** Handler `i` has stood still from `s` to `t`; someone has popped in between unless `popFree`. */
  ghost predicate StillHolding(s: State, t: State, i: nat, popFree: bool) {
    && Inv(t) && At(s, i, Holding) && At(t, i, Holding) && t.streams[i] == s.streams[i]
    && s.pushed <= t.pushed && s.last <= t.last
    && (t.last == s.last <==> popFree)
  }

  lemma StepOnHolding(s: State, t: State, a: Step, i: nat, popFree: bool)
    requires StillHolding(s, t, i, popFree) && Enabled(t, a) && a != Load(i)
    ensures StillHolding(s, Done(t, a), i, popFree && !a.Pop?)
  {
    StepKeepsInv(t, a);
    assert StreamInv(t, i);
  }

  lemma StepOnLoaded(s: State, a: Step, i: nat)
    requires Inv(s) && At(s, i, Loaded) && Enabled(s, a) && (a.Write? ==> a.i != i)
    ensures var t := Done(s, a);
            At(t, i, Loaded) && t.streams[i] == s.streams[i] && s.pushed <= t.pushed
  {
  }

  /** Between its pop and its copy a handler's stream does not change. */
  lemma {:induction false} HeldWhile(s: State, steps: seq<Step>, i: nat)
    requires Inv(s) && At(s, i, Holding) && Load(i) !in steps && Run(s, steps).Some?
    ensures var t := Run(s, steps).value;
            StillHolding(s, t, i, NoPop(steps))
    decreases |steps|
  {
    if steps != [] {
      var before, t, a := LastStep(s, steps);
      HeldWhile(s, before, i);
      StepOnHolding(s, t, a, i, NoPop(before));
    }
  }

  /** Between its copy and its write neither. */
  lemma {:induction false} LoadedWhile(s: State, steps: seq<Step>, i: nat)
    requires Inv(s) && At(s, i, Loaded) && Write(i, true) !in steps && Write(i, false) !in steps
    requires Run(s, steps).Some?
    ensures var t := Run(s, steps).value;
            Inv(t) && At(t, i, Loaded) && t.streams[i] == s.streams[i] && s.pushed <= t.pushed
    decreases |steps|
  {
    if steps != [] {
      var before, t, a := LastStep(s, steps);
      LoadedWhile(s, before, i);
      StepKeepsInv(t, a);
      assert a.Write? ==> a == Write(a.i, true) || a == Write(a.i, false);
      StepOnLoaded(t, a, i);
    }
  }

  /** Handler `i` pops, copies and writes, with any steps of others (or arrivals) in between. */
  function TurnOf(i: nat, mid: seq<Step>, rest: seq<Step>, ok: bool): seq<Step> {
    ((([Pop(i)] + mid) + [Load(i)]) + rest) + [Write(i, ok)]
  }

  lemma LoadsOwnExactly(s: State, i: nat, mid: seq<Step>)
    requires Inv(s) && Load(i) !in mid && Run(s, ([Pop(i)] + mid) + [Load(i)]).Some?
    ensures Enabled(s, Pop(i)) && Run(s, [Pop(i)] + mid).Some?
    ensures var t := Run(s, ([Pop(i)] + mid) + [Load(i)]).value;
            && Inv(t) && At(t, i, Loaded) && s.pushed <= t.pushed
            && var x, y := s.streams[i], t.streams[i];
               && y.from == Run(s, [Pop(i)] + mid).value.last
               && y.mine == Head(s) <= y.from < |t.pushed| && Packed(y.msg) == t.pushed[y.from]
               && y.wire == x.wire && y.seen == x.seen && y.loaded == x.loaded
               && (y.from == Head(s) <==> NoPop(mid))
  {
    RunThen(s, [Pop(i)] + mid, Load(i));
    RunConcat(s, [Pop(i)], mid);
    RunThen(s, [], Pop(i));
    assert [] + [Pop(i)] == [Pop(i)];
    var p := Done(s, Pop(i));
    StepKeepsInv(s, Pop(i));
    HeldWhile(p, mid, i);
    var t := Run(p, mid).value;
    StepKeepsInv(t, Load(i));
    assert StreamInv(Done(t, Load(i)), i);
  }

  /** The state in which the turn's write happens. */
  lemma BeforeTheWrite(s: State, i: nat, mid: seq<Step>, rest: seq<Step>, ok: bool) returns (v: State)
    requires Inv(s) && Load(i) !in mid && Write(i, true) !in rest && Write(i, false) !in rest
    requires Run(s, TurnOf(i, mid, rest, ok)).Some?
    ensures Enabled(s, Pop(i)) && Run(s, [Pop(i)] + mid).Some?
    ensures Inv(v) && Enabled(v, Write(i, ok)) && Run(s, TurnOf(i, mid, rest, ok)) == Some(Done(v, Write(i, ok)))
    ensures var k := Run(s, [Pop(i)] + mid).value.last; var x, y := s.streams[i], v.streams[i];
            && y.mine == Head(s) <= k == y.from < |v.pushed| && Packed(y.msg) == v.pushed[k]
            && y.wire == x.wire && y.seen == x.seen && y.loaded == x.loaded
            && (k == Head(s) <==> NoPop(mid))
  {
    var first := ([Pop(i)] + mid) + [Load(i)];
    RunThen(s, first + rest, Write(i, ok));
    RunConcat(s, first, rest);
    LoadsOwnExactly(s, i, mid);
    var u := Run(s, first).value;
    LoadedWhile(u, rest, i);
    v := Run(u, rest).value;
  }

  /**
   One turn in any reachable state and under any schedule. The client is sent the frame popped last before
   the copy, by whomever; that is the handler's own frame exactly if nobody pops between its pop and its copy.
   */
  lemma TurnDelivers(s: State, i: nat, mid: seq<Step>, rest: seq<Step>)
    requires Inv(s) && Load(i) !in mid && Write(i, true) !in rest && Write(i, false) !in rest
    requires Run(s, TurnOf(i, mid, rest, true)).Some?
    ensures Run(s, [Pop(i)] + mid).Some?
    ensures var t := Run(s, TurnOf(i, mid, rest, true)).value; var k := Run(s, [Pop(i)] + mid).value.last;
            && At(s, i, Waiting) && At(t, i, Waiting) && Head(s) <= k < |t.pushed|
            && (k == Head(s) <==> NoPop(mid))
            && var x, y := s.streams[i], t.streams[i];
               && y.seen == x.seen + [Head(s)] && y.loaded == x.loaded + [k]
               && Delivered(y) == Delivered(x) + [t.pushed[k]]
  {
    var v := BeforeTheWrite(s, i, mid, rest, true);
    DeliveredNext(s.streams[i], Done(v, Write(i, true)).streams[i], v.streams[i].msg);
  }

  /** A failed write sends nothing and ends the stream. */
  lemma FailedTurnDeliversNothing(s: State, i: nat, mid: seq<Step>, rest: seq<Step>)
    requires Inv(s) && Load(i) !in mid && Write(i, true) !in rest && Write(i, false) !in rest
    requires Run(s, TurnOf(i, mid, rest, false)).Some?
    ensures var t := Run(s, TurnOf(i, mid, rest, false)).value;
            && At(s, i, Waiting) && At(t, i, Ended)
            && Delivered(t.streams[i]) == Delivered(s.streams[i]) && t.streams[i].lost
  {
    var v := BeforeTheWrite(s, i, mid, rest, false);
    DeliveredSame(s.streams[i], Done(v, Write(i, false)).streams[i]);
  }

  lemma DeliveredSame(x: Stream, y: Stream)
    requires y.wire == x.wire
    ensures Delivered(y) == Delivered(x)
  {
  }

  lemma DeliveredNext(x: Stream, y: Stream, m: RadioFrame)
    requires y.wire == x.wire + [m]
    ensures Delivered(y) == Delivered(x) + [Packed(m)]
  {
  }

  // ----- How many handlers may be live -----

  function LiveCount(xs: seq<Stream>): nat {
    if xs == [] then 0
    else LiveCount(xs[..|xs| - 1]) + if xs[|xs| - 1].phase == Ended then 0 else 1
  }

  /** At most `n` handlers are live in every state of the run. */
  predicate AtMostLive(s: State, steps: seq<Step>, n: nat) {
    && (steps != [] ==> AtMostLive(s, steps[..|steps| - 1], n))
    && (Run(s, steps).Some? ==> LiveCount(Run(s, steps).value.streams) <= n)
  }

  lemma {:induction false} LiveIsCounted(xs: seq<Stream>, i: nat)
    requires i < |xs| && xs[i].phase != Ended
    ensures LiveCount(xs) >= 1
    decreases |xs|
  {
    if i < |xs| - 1 {
      LiveIsCounted(xs[..|xs| - 1], i);
    }
  }

  lemma {:induction false} TwoLiveAreCounted(xs: seq<Stream>, i: nat, j: nat)
    requires i < j < |xs| && xs[i].phase != Ended && xs[j].phase != Ended
    ensures LiveCount(xs) >= 2
    decreases |xs|
  {
    var n := |xs| - 1;
    if j == n {
      LiveIsCounted(xs[..n], i);
    } else {
      TwoLiveAreCounted(xs[..n], i, j);
    }
  }

  lemma NobodyToOvertake(s: State, a: Step)
    requires LiveCount(s.streams) <= 1 && Enabled(s, a)
    ensures !Overtakes(s, a)
  {
    if Overtakes(s, a) {
      var j :| 0 <= j < |s.streams| && j != a.i && s.streams[j].phase == Holding;
      TwoLiveAreCounted(s.streams, if j < a.i then j else a.i, if j < a.i then a.i else j);
    }
  }

  /** With one live handler at a time nobody is overtaken. */
  lemma {:induction false} SingleStreamIsCalm(s: State, steps: seq<Step>, n: nat)
    requires AtMostLive(s, steps, n) && n <= 1 && Run(s, steps).Some?
    ensures Calm(s, steps)
    decreases |steps|
  {
    if steps != [] {
      var m := |steps| - 1;
      SingleStreamIsCalm(s, steps[..m], n);
      assert AtMostLive(s, steps[..m], n);
      NobodyToOvertake(Run(s, steps[..m]).value, steps[m]);
    }
  }

  lemma {:induction false} LiveAtMostAll(xs: seq<Stream>)
    ensures LiveCount(xs) <= |xs|
    decreases |xs|
  {
    if xs != [] {
      LiveAtMostAll(xs[..|xs| - 1]);
    }
  }

  /** No stream ever disappears, so the number of streams at the end bounds the live ones throughout. */
  lemma {:induction false} BoundedIsAtMostLive(s: State, steps: seq<Step>, n: nat)
    requires Run(s, steps).Some? && |Run(s, steps).value.streams| <= n
    ensures AtMostLive(s, steps, n)
    decreases |steps|
  {
    LiveAtMostAll(Run(s, steps).value.streams);
    if steps != [] {
      var before, t, a := LastStep(s, steps);
      StreamsNeverShrink(t, a);
      BoundedIsAtMostLive(s, before, n);
    }
  }

  lemma StreamsNeverShrink(s: State, a: Step)
    requires Enabled(s, a) && Head(s) >= 0
    ensures |s.streams| <= |Done(s, a).streams|
  {
  }

  /** With one stream: popped = written, plus at most one frame in flight or lost to the failed write. */
  lemma SingleStreamCount(steps: seq<Step>)
    requires Run(INIT, steps).Some? && |Run(INIT, steps).value.streams| == 1
    ensures var s := Run(INIT, steps).value; var x := s.streams[0];
            |s.pushed| - s.evicted - |s.queue| == |Delivered(x)| + (if Busy(x) || x.lost then 1 else 0)
  {
    BoundedIsAtMostLive(INIT, steps, 1);
    SingleStreamIsCalm(INIT, steps, 1);
    EndToEnd(steps, 0, 0);
    var xs := Run(INIT, steps).value.streams;
    assert TotalTaken(xs[..0]) == 0;
  }

  /** Every client was sent the frames its handler popped. */
  ghost predicate Correct(s: State) {
    forall i, k :: 0 <= i < |s.streams| && 0 <= k < |s.streams[i].wire| ==>
                     DeliveredOwn(s, s.streams[i], k)
  }

  ghost predicate DeliveredOwn(s: State, x: Stream, k: nat)
    requires k < |x.wire|
  {
    k < |x.seen| && x.seen[k] < |s.pushed| && Delivered(x)[k] == s.pushed[x.seen[k]]
  }

  /** Every run with at most `n` live handlers delivers correctly. */
  ghost predicate SafeWith(n: nat) {
    forall steps :: Run(INIT, steps).Some? && AtMostLive(INIT, steps, n) ==> Correct(Run(INIT, steps).value)
  }

  lemma OneHandlerIsSafe(steps: seq<Step>, n: nat)
    requires n <= 1 && Run(INIT, steps).Some? && AtMostLive(INIT, steps, n)
    ensures Correct(Run(INIT, steps).value)
  {
    SingleStreamIsCalm(INIT, steps, n);
    var s := Run(INIT, steps).value;
    forall i | 0 <= i < |s.streams|
      ensures forall k :: 0 <= k < |s.streams[i].wire| ==> DeliveredOwn(s, s.streams[i], k)
    {
      EndToEnd(steps, i, i);
    }
  }

  /** The receive path is right under every schedule exactly if at most one handler may be live at a time. */
  lemma LiveHandlers(n: nat)
    ensures SafeWith(n) <==> n <= 1
  {
    if n <= 1 {
      forall steps | Run(INIT, steps).Some? && AtMostLive(INIT, steps, n)
        ensures Correct(Run(INIT, steps).value)
      {
        OneHandlerIsSafe(steps, n);
      }
    } else {
      var a: Frame, b: Frame := [], [0];
      var steps := TwoStreamsFail(a, b);
      BoundedIsAtMostLive(INIT, steps, n);
      var s := Run(INIT, steps).value;
      assert !DeliveredOwn(s, s.streams[0], 0);
    }
  }

  // ----- What overtaking does -----

  /** Handler `i` pops while `j` still has to copy its frame; then both finish. */
  function Overtaken(s: State, i: nat, j: nat): Option<State> {
    Then(Then(Then(Then(Then(Some(s), Pop(i)), Load(j)), Write(j, true)), Load(i)), Write(i, true))
  }

  lemma OvertakingSteps(s: State, i: nat, j: nat)
    requires Head(s) >= 0 && i != j && At(s, i, Waiting) && At(s, j, Holding) && s.queue != []
    ensures var t := Overtaken(s, i, j);
            && t.Some?
            && t.value.pushed == s.pushed && t.value.queue == s.queue[1..] && |t.value.streams| == |s.streams|
            && t.value.streams[j].seen == s.streams[j].seen + [s.streams[j].mine]
            && t.value.streams[i].seen == s.streams[i].seen + [Head(s)]
            && t.value.streams[j].wire == s.streams[j].wire + [UnpackedFrame(s.streams[j].msg, s.queue[0])]
            && t.value.streams[i].wire == s.streams[i].wire + [UnpackedFrame(s.streams[i].msg, s.queue[0])]
  {
    var t1 := Done(s, Pop(i));
    var t2 := Done(t1, Load(j));
    var t3 := Done(t2, Write(j, true));
    var t4 := Done(t3, Load(i));
  }

  lemma AppendIsInjective<T>(s: seq<T>, x: T, y: T)
    ensures s + [x] == s + [y] <==> x == y
  {
    assert (s + [x])[|s|] == x && (s + [y])[|s|] == y;
  }

  /**
   The simplest way to go wrong, open in every reachable state with a second handler waiting: `j` delivers
   what `i` popped, and so does `i`. What `j` popped then reaches its client only if the two frames are equal.
   */
  lemma OvertakingCorrupts(s: State, i: nat, j: nat)
    requires Inv(s) && i != j && At(s, i, Waiting) && At(s, j, Holding) && s.queue != []
    ensures var t := Overtaken(s, i, j); var mine, other := s.streams[j].mine, Head(s);
            && t.Some? && |t.value.streams| == |s.streams|
            && t.value.pushed == s.pushed && t.value.queue == s.queue[1..]
            && t.value.streams[j].seen == s.streams[j].seen + [mine]
            && t.value.streams[i].seen == s.streams[i].seen + [other]
            && mine < |s.pushed| && other < |s.pushed| && mine != other
            && Delivered(t.value.streams[j]) == Delivered(s.streams[j]) + [s.pushed[other]]
            && Delivered(t.value.streams[i]) == Delivered(s.streams[i]) + [s.pushed[other]]
            && (Delivered(t.value.streams[j]) == Delivered(s.streams[j]) + [s.pushed[mine]] <==>
                s.pushed[mine] == s.pushed[other])
  {
    assert StreamInv(s, j);
    OvertakingSteps(s, i, j);
    var t, b := Overtaken(s, i, j).value, s.queue[0];
    assert b == s.pushed[Head(s)];
    PackUnpack(s.streams[j].msg, b);
    PackUnpack(s.streams[i].msg, b);
    DeliveredNext(s.streams[j], t.streams[j], UnpackedFrame(s.streams[j].msg, b));
    DeliveredNext(s.streams[i], t.streams[i], UnpackedFrame(s.streams[i].msg, b));
    AppendIsInjective(Delivered(s.streams[j]), b, s.pushed[s.streams[j].mine]);
  }

  lemma Append(steps: seq<Step>, s: State, a: Step, t: State) returns (next: seq<Step>)
    requires Run(INIT, steps) == Some(s) && Head(s) >= 0 && Enabled(s, a) && Done(s, a) == t
    ensures Run(INIT, next) == Some(t)
  {
    next := steps + [a];
    RunThen(INIT, steps, a);
  }

  /** Two connected clients; nothing has arrived yet. */
  lemma TwoClients() returns (steps: seq<Step>)
    ensures var w := NEW_STREAM.(phase := Waiting);
            Run(INIT, steps) == Some(INIT.(streams := [w, w]))
  {
    var x, w := NEW_STREAM, NEW_STREAM.(phase := Waiting);
    steps := Append([], INIT, Connect, INIT.(streams := [x]));
    steps := Append(steps, INIT.(streams := [x]), Connect, INIT.(streams := [x, x]));
    assert [x, x][0 := w] == [w, x];
    steps := Append(steps, INIT.(streams := [x, x]), Open(0), INIT.(streams := [w, x]));
    assert [w, x][1 := w] == [w, w];
    steps := Append(steps, INIT.(streams := [w, x]), Open(1), INIT.(streams := [w, w]));
  }

  /** Client 0 has popped the first of two frames. */
  function FirstPopped(a: Frame, b: Frame): State {
    var w := NEW_STREAM.(phase := Waiting);
    State([a, b], [b], a, [w.(phase := Holding, taken := 1), w], map[0 := 0], 0, 0)
  }

  lemma FirstPoppedReached(a: Frame, b: Frame) returns (steps: seq<Step>)
    ensures Run(INIT, steps) == Some(FirstPopped(a, b))
  {
    var w := NEW_STREAM.(phase := Waiting);
    var h := w.(phase := Holding, taken := 1);
    var two := INIT.(streams := [w, w]);
    steps := TwoClients();
    steps := Append(steps, two, Arrive(a), two.(pushed := [a], queue := [a]));
    steps := Append(steps, two.(pushed := [a], queue := [a]), Arrive(b), two.(pushed := [a, b], queue := [a, b]));
    assert [w, w][0 := h] == [h, w];
    steps := Append(steps, two.(pushed := [a, b], queue := [a, b]), Pop(0), FirstPopped(a, b));
  }

  lemma OvertakenIsRun(steps: seq<Step>, s: State, i: nat, j: nat) returns (next: seq<Step>)
    requires Run(INIT, steps) == Some(s)
    ensures Run(INIT, next) == Overtaken(s, i, j)
  {
    var five := [Pop(i), Load(j), Write(j, true), Load(i), Write(i, true)];
    next := steps;
    ghost var t := Some(s);
    RunThen(INIT, next, five[0]);
    next, t := next + [five[0]], Then(t, five[0]);
    RunThen(INIT, next, five[1]);
    next, t := next + [five[1]], Then(t, five[1]);
    RunThen(INIT, next, five[2]);
    next, t := next + [five[2]], Then(t, five[2]);
    RunThen(INIT, next, five[3]);
    next, t := next + [five[3]], Then(t, five[3]);
    RunThen(INIT, next, five[4]);
    next, t := next + [five[4]], Then(t, five[4]);
  }

  /** Two clients, two arrivals: one frame is delivered twice and the other to nobody. */
  lemma TwoStreamsFail(a: Frame, b: Frame) returns (steps: seq<Step>)
    requires a != b
    ensures Run(INIT, steps).Some?
    ensures var s := Run(INIT, steps).value;
            && s.pushed == [a, b] && s.queue == []
            && |s.streams| == 2 && Delivered(s.streams[0]) == [b] && Delivered(s.streams[1]) == [b]
            && s.streams[0].seen == [0] && s.streams[1].seen == [1]
  {
    var s := FirstPopped(a, b);
    steps := FirstPoppedReached(a, b);
    InvInEveryRun(steps);
    steps := OvertakenIsRun(steps, s, 1, 0);
    OvertakingCorrupts(s, 1, 0);
    assert [b][1..] == [];
  }
}
