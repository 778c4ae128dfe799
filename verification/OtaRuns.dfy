/** Runs that show where the update protocol stops being crash-safe, and the exact condition for safety. */
module OtaRuns {
  import opened Prelude
  import opened OtaProtocol

  lemma Join(pf: Platform, a: seq<State>, b: seq<State>)
    requires IsRun(pf, a) && IsRun(pf, b) && Last(a) == b[0]
    ensures IsRun(pf, a + b[1..]) && Last(a + b[1..]) == Last(b)
  {
    var c := a + b[1..];
    forall i | 0 < i < |c|
      ensures StepAt(pf, c, i)
    {
      if i < |a| {
        assert StepAt(pf, a, i);
      } else {
        assert StepAt(pf, b, i - |a| + 1);
        assert c[i] == b[i - |a| + 1];
        assert c[i - 1] == b[i - |a|];
      }
    }
  }

  lemma Start(pf: Platform, s: State) returns (run: seq<State>)
    ensures IsRun(pf, run) && run == [s]
  {
    run := [s];
  }

  lemma Go(pf: Platform, run: seq<State>, t: State) returns (next: seq<State>)
    requires IsRun(pf, run) && Next(pf, Last(run), t)
    ensures IsRun(pf, next) && Last(next) == t && next[0] == run[0]
  {
    Extend(pf, run, t);
    next := run + [t];
  }

  /** An upload that is about to copy APP over BACKUP. */
  lemma UploadToBackup(pf: Platform, s: State, pkg: Package) returns (run: seq<State>)
    requires s.pc.Idle? && Accepted(pf, pkg) && s.disk.app.Some?
    ensures IsRun(pf, run) && run[0] == s
    ensures Last(run) == State(s.disk.(backup := None), CopyBackup(pkg), Stopped, false, s.good)
  {
    run := Start(pf, s);
    run := Go(pf, run, s.(pc := StopService(pkg)));
    run := Go(pf, run, s.(pc := DropBackup(pkg), service := Stopped, wanted := false));
    run := Go(pf, run, State(s.disk.(backup := None), CopyBackup(pkg), Stopped, false, s.good));
  }

  /** The recovery branch of validate_app_file, with or without a BACKUP to restore. */
  lemma RestoringRun(pf: Platform, s: State) returns (run: seq<State>)
    requires s.pc.BootStop?
    ensures IsRun(pf, run) && run[0] == s
    ensures Last(run).disk == s.disk.(app := if s.disk.backup.Some? then s.disk.backup else s.disk.app)
    ensures Last(run).pc.Idle? && Last(run).good == s.good
  {
    var d := s.disk;
    run := Start(pf, s);
    run := Go(pf, run, State(d, BootRestore, Stopped, false, s.good));
    if d.backup.Some? {
      run := Go(pf, run, State(d.(app := Some([])), BootRestoring, Stopped, false, s.good));
      d := d.(app := d.backup);
    }
    run := Go(pf, run, State(d, BootLaunch, Stopped, false, s.good));
    run := Go(pf, run, State(d, Idle, Stopped, true, s.good));
  }

  /** A restart in any state and an uninterrupted recovery: its steps add up to ValidatePass on every disk. */
  lemma RecoveryRun(pf: Platform, s: State) returns (run: seq<State>)
    ensures IsRun(pf, run) && run[0] == s
    ensures Last(run).disk == ValidatePass(pf, s.disk)
    ensures Last(run).pc.Idle? && Last(run).good == s.good
  {
    var d := s.disk;
    run := Start(pf, s);
    run := Go(pf, run, State(d, BootCheck, Stopped, false, s.good));
    if d.metadata && (d.app.Some? || d.backup.Some?) && NeedsRestore(pf, d) {
      run := Go(pf, run, State(d, BootStop, Stopped, false, s.good));
      var rest := RestoringRun(pf, Last(run));
      Join(pf, run, rest);
      run := run + rest[1..];
    } else {
      run := Go(pf, run, State(d.(metadata := true), Idle, Stopped, false, s.good));
    }
  }

  /** Without a matching HASH one interrupted backup destroys the image: recovery copies the torn backup over it. */
  lemma LosingRun(pf: Platform, s: State) returns (run: seq<State>)
    requires s.pc.Idle? && s.disk.metadata && s.disk.app == Some(s.good)
    requires s.disk.hash != Some(pf.hash(s.good))
    ensures IsRun(pf, run) && run[0] == s
    ensures Last(run).pc.Idle? && Last(run).good == s.good && Last(run).disk.hash == s.disk.hash
    ensures Last(run).disk.app != Some(s.good) && Last(run).disk.backup != Some(s.good)
  {
    var pkg := Package([], pf.hash([]), "", true);
    var torn: Image := if s.good == [] then [0] else [];
    var a := UploadToBackup(pf, s, pkg);
    var cut := Last(a).(disk := s.disk.(backup := Some(torn)), pc := CopyingBackup(pkg));
    a := Go(pf, a, cut);
    var b := RecoveryRun(pf, cut);
    Join(pf, a, b);
    run := a + b[1..];
  }

  lemma UploadToLaunch(pf: Platform, s: State, pkg: Package) returns (run: seq<State>)
    requires s.pc.Idle? && Accepted(pf, pkg) && s.disk.app.Some?
    ensures IsRun(pf, run) && run[0] == s
    ensures Last(run) ==
            State(s.disk.(app := Some(pkg.image), backup := s.disk.app), Launch(pkg), Stopped, false, s.good)
  {
    var d1 := s.disk.(backup := s.disk.app);
    var d2 := d1.(app := Some(pkg.image));
    run := UploadToBackup(pf, s, pkg);
    run := Go(pf, run, State(d1, CopyingBackup(pkg), Stopped, false, s.good));
    run := Go(pf, run, State(d1, Install(pkg), Stopped, false, s.good));
    run := Go(pf, run, State(d2, Installing(pkg), Stopped, false, s.good));
    run := Go(pf, run, State(d2, SetMode(pkg), Stopped, false, s.good));
    run := Go(pf, run, State(d2, Launch(pkg), Stopped, false, s.good));
  }

  /** The first poll sees a stopped service, the final check a running one. */
  lemma LaunchToCommit(pf: Platform, s: State) returns (run: seq<State>)
    requires s.pc.Launch? && s.service.Stopped? && s.disk.app == Some(s.pc.pkg.image)
    ensures IsRun(pf, run) && run[0] == s
    ensures Last(run) == State(s.disk, CommitHash(s.pc.pkg), Running(s.pc.pkg.image), true, s.good)
  {
    var pkg := s.pc.pkg;
    run := Start(pf, s);
    run := Go(pf, run, State(s.disk, Poll(pkg, 10), Stopped, true, s.good));
    run := Go(pf, run, State(s.disk, FinalCheck(pkg), Stopped, true, s.good));
    run := Go(pf, run, State(s.disk, FinalCheck(pkg), Running(pkg.image), true, s.good));
    run := Go(pf, run, State(s.disk, CommitHash(pkg), Running(pkg.image), true, s.good));
  }

  lemma UploadToCommit(pf: Platform, s: State, pkg: Package) returns (run: seq<State>)
    requires Accepted(pf, pkg) && s.pc.Idle? && s.disk.app.Some?
    ensures IsRun(pf, run) && run[0] == s
    ensures Last(run) ==
            State(s.disk.(app := Some(pkg.image), backup := s.disk.app), CommitHash(pkg), Running(pkg.image), true, s.good)
  {
    var a := UploadToLaunch(pf, s, pkg);
    var b := LaunchToCommit(pf, Last(a));
    Join(pf, a, b);
    run := a + b[1..];
  }

  lemma UploadToTornHash(pf: Platform, s: State, pkg: Package, torn: string) returns (run: seq<State>)
    requires !pf.hashAtomic && Accepted(pf, pkg)
    requires s.pc.Idle? && s.disk.app == Some(s.good)
    ensures IsRun(pf, run) && run[0] == s
    ensures Last(run).disk == s.disk.(app := Some(pkg.image), backup := Some(s.good), hash := Some(torn))
    ensures Last(run).good == s.good
  {
    run := UploadToCommit(pf, s, pkg);
    var cut := Last(run).(disk := Last(run).disk.(hash := Some(torn)), pc := CommittingHash(pkg));
    run := Go(pf, run, cut);
  }

  lemma ThirdText(x: string, y: string) returns (t: string)
    ensures t != x && t != y
  {
    t := if x != "" && y != "" then "" else if x != "0" && y != "0" then "0" else "1";
  }

  /**
   The protocol relies on an atomic HASH write. If that write can be torn, there is a run from every
   committed state in which the first restart recovers the old image, yet a second interrupted upload
   loses it from both files although nothing else was ever committed.
   */
  lemma TornHashLosesImage(pf: Platform, s: State) returns (run: seq<State>)
    requires !pf.hashAtomic && Committed(pf, s)
    ensures IsRun(pf, run) && run[0] == s
    ensures Last(run).pc.Idle? && Last(run).good == s.good
    ensures Last(run).disk.app != Some(s.good) && Last(run).disk.backup != Some(s.good)
  {
    var pkg := Package([], pf.hash([]), "", true);
    var torn := ThirdText(pf.hash([]), pf.hash(s.good));
    var a := UploadToTornHash(pf, s, pkg, torn);
    var b := RecoveryRun(pf, Last(a));
    Join(pf, a, b);
    var c := LosingRun(pf, Last(b));
    Join(pf, a + b[1..], c);
    run := a + b[1..] + c[1..];
  }

  /**
   Crash safety holds exactly from committed states on platforms with an atomic HASH write: every idle state
   of every run has the good image in APP if and only if HASH describes APP at the start and HASH writes
   cannot be torn. A device delivered without a HASH file is not safe.
   */
  lemma SafeExactlyWhenCommitted(pf: Platform, s: State)
    requires pf.CollisionFree()
    requires s.pc.Idle? && s.disk.metadata && s.disk.app == Some(s.good)
    ensures (forall run :: IsRun(pf, run) && run[0] == s && Last(run).pc.Idle? ==>
                             Last(run).disk.app == Some(Last(run).good))
            <==> s.disk.hash == Some(pf.hash(s.good)) && pf.hashAtomic
  {
    if s.disk.hash != Some(pf.hash(s.good)) {
      var run := LosingRun(pf, s);
    } else if !pf.hashAtomic {
      var run := TornHashLosesImage(pf, s);
    } else {
      forall run | IsRun(pf, run) && run[0] == s && Last(run).pc.Idle?
        ensures Last(run).disk.app == Some(Last(run).good)
      {
        AtomicHashWritesComplete(pf, run);
        CrashSafety(pf, run, |run| - 1);
      }
    }
  }
}
