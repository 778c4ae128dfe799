/**
 No reachable state of the mesh locks is a trap: however the threads stand, the locks can be given back, the
 stored frame can be sent, and a transmitter that waits can then store its own.
 */
module MeshProgress {
  import opened Prelude
  import opened Packing
  import opened MeshLocks

  type Schedule = seq<(nat, Act)>

  /** `r` is where the schedule leads. */
  ghost predicate Reaches(s: State, steps: Schedule, r: State) {
    Initial(s) && Run(s, steps) == Some(r)
  }

  /** Roles never change, and whoever waited for a network's lock still does, except perhaps thread `e`. */
  ghost predicate Steady(r: State, q: State, e: nat) {
    && |q.nets| == |r.nets| && |q.threads| == |r.threads|
    && (forall k :: 0 <= k < |r.threads| ==> q.threads[k].role == r.threads[k].role)
    && (forall k :: 0 <= k < |r.threads| && k != e && r.threads[k].pc == Wanting ==> q.threads[k] == r.threads[k])
  }

  lemma StepIsSteady(r: State, t: nat, a: Act, e: nat)
    requires Enabled(r, t, a) && (t == e || r.threads[t].pc != Wanting)
    ensures Steady(r, Done(r, t, a), e)
  {
    assert ThreadAfter(r, t, a).role == r.threads[t].role;
    assert Done(r, t, a).threads == r.threads[t := ThreadAfter(r, t, a)];
  }

  lemma Go(s: State, steps: Schedule, r: State, t: nat, a: Act, e: nat) returns (next: Schedule, q: State)
    requires Reaches(s, steps, r) && Enabled(r, t, a) && (t == e || r.threads[t].pc != Wanting)
    ensures q == Done(r, t, a)
    ensures Reaches(s, next, q) && steps <= next && Steady(r, q, e)
  {
    RunExtended(s, steps, t, a);
    StepIsSteady(r, t, a, e);
    next, q := steps + [(t, a)], Done(r, t, a);
  }

  /** The queue's lock holder, if any, gives it back. */
  lemma FreeQueue(s: State, steps: Schedule, r: State, v: nat, e: nat) returns (next: Schedule, q: State)
    requires Reaches(s, steps, r) && v < |r.threads| && r.threads[v].pc == WantingQueue
    ensures Reaches(s, next, q) && steps <= next && Steady(r, q, e)
    ensures q.queueOwner.None? && q.nets == r.nets && q.threads[v] == r.threads[v]
  {
    next, q := steps, r;
    if r.queueOwner.Some? {
      InvInEveryRun(s, steps);
      var w := r.queueOwner.value;
      assert ThreadInv(r, w) && ThreadInv(r, v);
      next, q := Go(s, steps, r, w, if r.threads[w].pc == Pushing then Push(r.threads[w].frame) else Take, e);
    }
  }

  /** An updater inside its network hands over what it holds and leaves. */
  lemma UpdaterLeaves(s: State, steps: Schedule, r: State, n: nat, v: nat, e: nat) returns (next: Schedule, q: State)
    requires Reaches(s, steps, r) && v < |r.threads| && n < |r.nets|
    requires r.threads[v].role == Updater(n) && r.threads[v].pc in {Inside, WantingQueue, Pushing}
    ensures Reaches(s, next, q) && steps <= next && Steady(r, q, e) && q.nets[n].owner.None?
  {
    next, q := steps, r;
    if q.threads[v].pc == WantingQueue {
      next, q := FreeQueue(s, next, q, v, e);
      next, q := Go(s, next, q, v, AcquireQueue, e);
    }
    if q.threads[v].pc == Pushing {
      next, q := Go(s, next, q, v, Push(q.threads[v].frame), e);
    }
    next, q := Go(s, next, q, v, Release, e);
  }

  lemma SenderLeaves(s: State, steps: Schedule, r: State, n: nat, v: nat, e: nat) returns (next: Schedule, q: State)
    requires Reaches(s, steps, r) && v < |r.threads| && n < |r.nets|
    requires r.threads[v].role == Transmitter(n) && r.threads[v].pc in {Sending, Leaving}
    ensures Reaches(s, next, q) && steps <= next && Steady(r, q, e) && q.nets[n].owner.None?
  {
    next, q := steps, r;
    if q.threads[v].pc == Sending {
      next, q := Go(s, next, q, v, Send, e);
    }
    next, q := Go(s, next, q, v, Release, e);
  }

  /** A transmitter with its network's lock backs off or sends and leaves. */
  lemma TransmitterLeaves(s: State, steps: Schedule, r: State, n: nat, v: nat, e: nat) returns (next: Schedule, q: State)
    requires Reaches(s, steps, r) && v < |r.threads| && n < |r.nets|
    requires r.threads[v].role == Transmitter(n) && r.threads[v].pc in {Checking, Backing, Sending, Leaving}
    ensures Reaches(s, next, q) && steps <= next && Steady(r, q, e) && q.nets[n].owner.None?
  {
    next, q := steps, r;
    if q.threads[v].pc == Checking {
      next, q := Go(s, next, q, v, Check, e);
    }
    if q.threads[v].pc == Backing {
      next, q := Go(s, next, q, v, Unlock, e);
    } else {
      next, q := SenderLeaves(s, next, q, n, v, e);
    }
  }

  /** From every reachable state the lock of every network can come free, while those that wait for it stay. */
  lemma LockComesFree(s: State, steps: Schedule, r: State, n: nat, e: nat) returns (next: Schedule, q: State)
    requires Reaches(s, steps, r) && n < |r.nets|
    ensures Reaches(s, next, q) && steps <= next && Steady(r, q, e) && q.nets[n].owner.None?
  {
    next, q := steps, r;
    if r.nets[n].owner.Some? {
      InvInEveryRun(s, steps);
      var v := r.nets[n].owner.value;
      assert OwnerInv(r, n) && ThreadInv(r, v);
      if r.threads[v].role.Updater? {
        next, q := UpdaterLeaves(s, steps, r, n, v, e);
      } else {
        next, q := TransmitterLeaves(s, steps, r, n, v, e);
      }
    }
  }

  lemma UpdaterEnters(s: State, steps: Schedule, r: State, n: nat, u: nat) returns (next: Schedule, q: State)
    requires Reaches(s, steps, r) && n < |r.nets| && r.nets[n].owner.None?
    requires u < |r.threads| && r.threads[u].role == Updater(n)
    ensures Reaches(s, next, q) && steps <= next && Steady(r, q, u)
    ensures q.threads[u].pc == Inside
  {
    InvInEveryRun(s, steps);
    assert ThreadInv(r, u);
    next, q := steps, r;
    if q.threads[u].pc == Outside {
      next, q := Go(s, next, q, u, Begin([]), u);
    }
    next, q := Go(s, next, q, u, Acquire, u);
  }

  /** With the lock free, an updater of the network can send the stored frame. */
  lemma SlotComesFree(s: State, steps: Schedule, r: State, n: nat, u: nat) returns (next: Schedule, q: State)
    requires Reaches(s, steps, r) && n < |r.nets| && r.nets[n].owner.None?
    requires u < |r.threads| && r.threads[u].role == Updater(n)
    ensures Reaches(s, next, q) && steps <= next && Steady(r, q, u)
    ensures q.nets[n].owner.None? && q.nets[n].slot.None?
  {
    next, q := UpdaterEnters(s, steps, r, n, u);
    if q.nets[n].slot.Some? {
      next, q := Go(s, next, q, u, Drain, u);
    }
    next, q := Go(s, next, q, u, Release, u);
  }

  /** With lock and slot free, a waiting transmitter stores its frame and returns. */
  lemma TransmitterSends(s: State, steps: Schedule, r: State, n: nat, t: nat) returns (next: Schedule, q: State)
    requires Reaches(s, steps, r) && n < |r.nets| && r.nets[n].owner.None? && r.nets[n].slot.None?
    requires t < |r.threads| && r.threads[t].role == Transmitter(n) && r.threads[t].pc == Wanting
    ensures Reaches(s, next, q) && steps <= next && |q.nets| == |r.nets| && |q.threads| == |r.threads|
    ensures q.threads[t].pc == Outside && q.nets[n].slot == Some(r.threads[t].frame)
    ensures q.nets[n].accepted == r.nets[n].accepted + [r.threads[t].frame]
  {
    next, q := Go(s, steps, r, t, Acquire, t);
    next, q := Go(s, next, q, t, Check, t);
    next, q := Go(s, next, q, t, Send, t);
    next, q := Go(s, next, q, t, Release, t);
  }

  /**
   In every reachable state, whatever the other threads are doing, a transmitter waiting for a network that has
   an updater can still get its frame accepted: some continuation of the run stores it and lets the call return.
   */
  lemma TransmitCanFinish(s: State, steps: Schedule, r: State, n: nat, t: nat, u: nat)
    returns (next: Schedule, q: State)
    requires Reaches(s, steps, r) && n < |r.nets| && t < |r.threads| && u < |r.threads|
    requires r.threads[t].role == Transmitter(n) && r.threads[t].pc == Wanting
    requires r.threads[u].role == Updater(n)
    ensures Reaches(s, next, q) && steps <= next && n < |q.nets| && t < |q.threads|
    ensures q.threads[t].pc == Outside && q.nets[n].slot == Some(r.threads[t].frame)
  {
    next, q := LockComesFree(s, steps, r, n, u);
    next, q := SlotComesFree(s, next, q, n, u);
    next, q := TransmitterSends(s, next, q, n, t);
  }
}
