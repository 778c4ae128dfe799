/**
 What the update protocol does to the running service: how an upload is decided, and what runs once the
 updater is idle again.
 */
module OtaService {
  import opened Prelude
  import opened OtaProtocol
  import opened OtaRuns

  // ----- How an upload is decided -----

  /** One of the polls between `b` and `i` was the one with `left` more to go, and found the service running. */
  ghost predicate PolledRunning(run: seq<State>, b: nat, i: nat, pkg: Package, left: nat)
    requires b <= i <= |run|
  {
    exists k :: b <= k < i && run[k].pc == Poll(pkg, left) && run[k].service.Running?
  }

  predicate Polling(pc: Pc, pkg: Package) {
    pc.Poll? && pc.pkg == pkg
  }

  lemma StepIntoPoll(pf: Platform, s: State, t: State)
    requires Next(pf, s, t) && t.pc.Poll?
    ensures (s.pc == Launch(t.pc.pkg) && t.pc.left == 10)
         || s.pc == t.pc
         || (s.pc == Poll(t.pc.pkg, t.pc.left + 1) && s.service.Running?)
  {
  }

  lemma {:induction false} PollsSoFar(pf: Platform, run: seq<State>, i: nat, pkg: Package) returns (b: nat)
    requires IsRun(pf, run) && AtRest(run[0].pc) && i < |run| && Polling(run[i].pc, pkg)
    ensures 0 < b <= i && run[b - 1].pc == Launch(pkg) && run[i].pc.left <= 10
    ensures forall k :: b <= k <= i ==> Polling(run[k].pc, pkg)
    ensures forall m: nat :: run[i].pc.left < m <= 10 ==> PolledRunning(run, b, i, pkg, m)
  {
    assert StepAt(pf, run, i);
    StepIntoPoll(pf, run[i - 1], run[i]);
    if run[i - 1].pc.Launch? {
      b := i;
    } else {
      b := PollsSoFar(pf, run, i - 1, pkg);
      forall m: nat | run[i].pc.left < m <= 10
        ensures PolledRunning(run, b, i, pkg, m)
      {
        if m > run[i - 1].pc.left {
          assert PolledRunning(run, b, i - 1, pkg, m);
        } else {
          assert run[i - 1].pc == Poll(pkg, m);
        }
      }
    }
  }

  lemma StepIntoCheck(pf: Platform, s: State, t: State)
    requires Next(pf, s, t) && t.pc.FinalCheck?
    ensures s.pc == t.pc || (Polling(s.pc, t.pc.pkg) && (s.pc.left == 0 || s.service.Stopped?))
  {
  }

  /**
   The final check comes after ten polls that found the service running, or right after a poll that found it
   stopped; all polls come after the launch of this very upload.
   */
  lemma {:induction false} PollsPrecedeCheck(pf: Platform, run: seq<State>, i: nat, pkg: Package) returns (b: nat, j: nat)
    requires IsRun(pf, run) && AtRest(run[0].pc) && i < |run| && run[i].pc == FinalCheck(pkg)
    ensures 0 < b <= j < i && run[b - 1].pc == Launch(pkg) && run[j].pc.Poll?
    ensures forall k :: b <= k <= j ==> Polling(run[k].pc, pkg)
    ensures forall k :: j < k <= i ==> run[k].pc == FinalCheck(pkg)
    ensures run[j].pc.left == 0 || run[j].service.Stopped?
    ensures forall m: nat :: run[j].pc.left < m <= 10 ==> PolledRunning(run, b, j, pkg, m)
  {
    assert StepAt(pf, run, i);
    StepIntoCheck(pf, run[i - 1], run[i]);
    if run[i - 1].pc.Poll? {
      j := i - 1;
      b := PollsSoFar(pf, run, j, pkg);
    } else {
      b, j := PollsPrecedeCheck(pf, run, i - 1, pkg);
    }
  }

  predicate Restoring(pc: Pc, pkg: Package) {
    pc == Rollback(pkg) || pc == RollingBack(pkg)
  }

  lemma StepIntoRollback(pf: Platform, s: State, t: State, pkg: Package)
    requires Next(pf, s, t) && Restoring(t.pc, pkg)
    ensures Restoring(s.pc, pkg) || (s.pc == FinalCheck(pkg) && s.service.Stopped?)
  {
  }

  /** The counterpart of CommitDiscipline: nothing is rolled back but what the final check found not running. */
  lemma {:induction false} RollbackFollowsCheck(pf: Platform, run: seq<State>, i: nat, pkg: Package) returns (j: nat)
    requires IsRun(pf, run) && AtRest(run[0].pc) && i < |run| && Restoring(run[i].pc, pkg)
    ensures j < i && run[j].pc == FinalCheck(pkg) && run[j].service.Stopped? && run[j].wanted
    ensures forall k :: j < k <= i ==> Restoring(run[k].pc, pkg)
  {
    assert StepAt(pf, run, i);
    StepIntoRollback(pf, run[i - 1], run[i], pkg);
    if run[i - 1].pc.FinalCheck? {
      j := i - 1;
      RunsKeepFlow(pf, run, j);
    } else {
      j := RollbackFollowsCheck(pf, run, i - 1, pkg);
    }
  }

  // ----- What runs afterwards -----

  /** Nothing runs but what APP holds. */
  predicate RunsApp(s: State) {
    s.service.Stopped? || (s.disk.app.Some? && s.service == Running(s.disk.app.value))
  }

  /** The service has come up between the final check and the end of the restore. */
  predicate EarlyAt(run: seq<State>, i: nat)
    requires i < |run|
  {
    (run[i].pc.Rollback? || run[i].pc.RollingBack?) && run[i].service.Running?
  }

  predicate NoEarlyStart(run: seq<State>) {
    forall i :: 0 <= i < |run| ==> !EarlyAt(run, i)
  }

  /** In a recovery, behind the stop. */
  predicate Recovering(pc: Pc) {
    pc.BootRestore? || pc.BootRestoring? || pc.BootLaunch?
  }

  predicate StoppedInRecovery(s: State) {
    Recovering(s.pc) ==> s.service.Stopped? && !s.wanted
  }

  lemma BootStepStops(pf: Platform, s: State, t: State)
    requires StoppedInRecovery(s) && Advance(pf, s, t) && (s.pc.BootStop? || Recovering(s.pc))
    ensures StoppedInRecovery(t)
  {
  }

  lemma OtherStepStops(pf: Platform, s: State, t: State)
    requires StoppedInRecovery(s) && Next(pf, s, t)
    requires !(Advance(pf, s, t) && (s.pc.BootStop? || Recovering(s.pc)))
    ensures StoppedInRecovery(t)
  {
  }

  lemma {:induction false} RecoveryIsStopped(pf: Platform, run: seq<State>, i: nat)
    requires IsRun(pf, run) && AtRest(run[0].pc) && i < |run|
    ensures StoppedInRecovery(run[i])
  {
    if i > 0 {
      RecoveryIsStopped(pf, run, i - 1);
      assert StepAt(pf, run, i);
      var s, t := run[i - 1], run[i];
      if Advance(pf, s, t) && (s.pc.BootStop? || Recovering(s.pc)) {
        BootStepStops(pf, s, t);
      } else {
        OtherStepStops(pf, s, t);
      }
    }
  }

  lemma StepKeepsRunsApp(pf: Platform, s: State, t: State)
    requires FlowInv(pf, s) && StoppedInRecovery(s) && RunsApp(s) && Next(pf, s, t)
    requires s.pc.Rollback? || s.pc.RollingBack? ==> s.service.Stopped?
    ensures RunsApp(t)
  {
  }

  /** In every run in which the service never comes up early, nothing ever runs but what APP holds. */
  lemma {:induction false} ServiceRunsApp(pf: Platform, run: seq<State>, i: nat)
    requires IsRun(pf, run) && AtRest(run[0].pc) && RunsApp(run[0]) && NoEarlyStart(run) && i < |run|
    ensures RunsApp(run[i])
  {
    if i > 0 {
      ServiceRunsApp(pf, run, i - 1);
      RunsKeepFlow(pf, run, i - 1);
      RecoveryIsStopped(pf, run, i - 1);
      assert StepAt(pf, run, i) && !EarlyAt(run, i - 1);
      StepKeepsRunsApp(pf, run[i - 1], run[i]);
    }
  }

  /**
   Every rollback and every recovery ends with a start of the service. After a recovery it runs what APP then
   holds or has failed to start; after a rollback too, unless it had come up early.
   */
  lemma EndsWithLaunch(pf: Platform, run: seq<State>, i: nat)
    requires IsRun(pf, run) && AtRest(run[0].pc) && RunsApp(run[0]) && 0 < i < |run| && run[i].pc.Idle?
    requires InRollback(run[i - 1].pc) || Recovering(run[i - 1].pc) || run[i - 1].pc.BootStop?
    ensures run[i].wanted
    ensures Recovering(run[i - 1].pc) || NoEarlyStart(run) ==> RunsApp(run[i])
  {
    assert StepAt(pf, run, i);
    RecoveryIsStopped(pf, run, i - 1);
    LastStepLaunches(pf, run[i - 1], run[i]);
    if NoEarlyStart(run) {
      ServiceRunsApp(pf, run, i);
    }
  }

  lemma LastStepLaunches(pf: Platform, s: State, t: State)
    requires Next(pf, s, t) && t.pc.Idle? && StoppedInRecovery(s)
    requires InRollback(s.pc) || Recovering(s.pc) || s.pc.BootStop?
    ensures t.wanted
    ensures Recovering(s.pc) ==> RunsApp(t)
  {
  }

  /** A rejected upload of any other image can leave that image running beside a restored APP. */
  lemma EarlyStartKeepsRejected(pf: Platform, s: State, pkg: Package) returns (run: seq<State>)
    requires Accepted(pf, pkg) && Committed(pf, s)
    ensures IsRun(pf, run) && run[0] == s && Committed(pf, Last(run)) && Last(run).disk.app == s.disk.app
    ensures Last(run).service == Running(pkg.image)
  {
    var d := s.disk.(app := Some(pkg.image), backup := s.disk.app);
    run := UploadToLaunch(pf, s, pkg);
    run := Go(pf, run, State(d, Poll(pkg, 10), Stopped, true, s.good));
    run := Go(pf, run, State(d, FinalCheck(pkg), Stopped, true, s.good));
    run := Go(pf, run, State(d, Rollback(pkg), Stopped, true, s.good));
    run := Go(pf, run, State(d, Rollback(pkg), Running(pkg.image), true, s.good));
    run := Go(pf, run, State(d.(app := Some([])), RollingBack(pkg), Running(pkg.image), true, s.good));
    run := Go(pf, run, State(d.(app := d.backup), Relaunch, Running(pkg.image), true, s.good));
    run := Go(pf, run, State(d.(app := d.backup), Idle, Running(pkg.image), true, s.good));
  }

  /** The exact condition: idle states run nothing but APP in every run, if and only if none starts early. */
  lemma RunsAppExactly(pf: Platform, s: State, early: bool)
    requires Committed(pf, s) && RunsApp(s)
    ensures (forall run :: IsRun(pf, run) && run[0] == s && Last(run).pc.Idle? && (early || NoEarlyStart(run)) ==>
                             RunsApp(Last(run)))
            <==> !early
  {
    if early {
      var image: Image := if s.good == [] then [0] else [];
      var run := EarlyStartKeepsRejected(pf, s, Package(image, pf.hash(image), "", true));
    } else {
      forall run | IsRun(pf, run) && run[0] == s && Last(run).pc.Idle? && (early || NoEarlyStart(run))
        ensures RunsApp(Last(run))
      {
        ServiceRunsApp(pf, run, |run| - 1);
      }
    }
  }
}
