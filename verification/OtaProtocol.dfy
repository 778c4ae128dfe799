/**
 The update protocol of ota/kaonic-ota.py as a machine over file operations. Every file operation is
 one step; copying a file is two, and between them the destination holds arbitrary contents. The
 process may restart after any step, also in the middle of a copy and during the recovery itself.
 */
module OtaProtocol {
  import opened Prelude

  type Image = seq<byte>

  /** The four files and the directory that holds three of them. Texts are taken without surrounding blanks. */
  datatype Disk = Disk(
    metadata: bool,
    app: Option<Image>,
    backup: Option<Image>,
    hash: Option<string>,
    version: Option<string>)

  /** An unpacked upload, with the answer that the signature check gives for it. */
  datatype Package = Package(image: Image, hashText: string, version: string, signatureOk: bool)

  /** What systemd runs: nothing, or the image that APP held when the service was started. */
  datatype Service = Stopped | Running(image: Image)

  /** The next file operation: of upload_ota, of its rollback, or of validate_app_file. */
  datatype Pc =
    | Idle
    | StopService(pkg: Package)
    | DropBackup(pkg: Package)
    | CopyBackup(pkg: Package) | CopyingBackup(pkg: Package)
    | Install(pkg: Package) | Installing(pkg: Package)
    | SetMode(pkg: Package)
    | Launch(pkg: Package)
    | Poll(pkg: Package, left: nat)
    | FinalCheck(pkg: Package)
    | CommitHash(pkg: Package) | CommittingHash(pkg: Package)
    | CommitVersion(pkg: Package) | CommittingVersion(pkg: Package)
    | Rollback(pkg: Package) | RollingBack(pkg: Package)
    | Relaunch
    | BootCheck
    | BootStop
    | BootRestore | BootRestoring
    | BootLaunch

  /** `wanted`: the last systemctl command was a start. `good`: the image last committed by a HASH write. */
  datatype State = State(disk: Disk, pc: Pc, service: Service, wanted: bool, good: Image)

  /** SHA-256 as a function, and whether a HASH write can be cut short. */
  datatype Platform = Platform(hash: Image -> string, hashAtomic: bool) {
    ghost predicate CollisionFree() {
      forall a, b :: hash(a) == hash(b) ==> a == b
    }
  }

  predicate Accepted(pf: Platform, pkg: Package) {
    pf.hash(pkg.image) == pkg.hashText && pkg.signatureOk
  }

  predicate NeedsRestore(pf: Platform, d: Disk) {
    d.app.None? || d.hash.None? || d.hash.value != pf.hash(d.app.value)
  }

  // ----- Steps -----

  /** systemctl start: leaves a running service alone, else runs what APP holds, or fails. */
  predicate Started(s: State, t: State, pc: Pc) {
    && t == s.(pc := pc, wanted := true, service := t.service)
    && (t.service == s.service || (s.service.Stopped? && s.disk.app.Some? && t.service == Running(s.disk.app.value)))
  }

  predicate Advance(pf: Platform, s: State, t: State) {
    match s.pc
    case Idle =>
      t.pc.StopService? && Accepted(pf, t.pc.pkg) && t == s.(pc := t.pc)
    case StopService(pkg) =>
      t == s.(pc := DropBackup(pkg), service := Stopped, wanted := false)
    case DropBackup(pkg) =>
      t == s.(disk := s.disk.(backup := None), pc := if s.disk.app.Some? then CopyBackup(pkg) else Install(pkg))
    case CopyBackup(pkg) =>
      t.disk.backup.Some? && t == s.(disk := s.disk.(backup := t.disk.backup), pc := CopyingBackup(pkg))
    case CopyingBackup(pkg) =>
      t == s.(disk := s.disk.(backup := s.disk.app), pc := Install(pkg))
    case Install(pkg) =>
      t.disk.app.Some? && t == s.(disk := s.disk.(app := t.disk.app), pc := Installing(pkg))
    case Installing(pkg) =>
      t == s.(disk := s.disk.(app := Some(pkg.image)), pc := SetMode(pkg))
    case SetMode(pkg) =>
      t == s.(pc := Launch(pkg))
    case Launch(pkg) =>
      Started(s, t, Poll(pkg, 10))
    case Poll(pkg, left) =>
      t == s.(pc := if left > 0 && s.service.Running? then Poll(pkg, left - 1) else FinalCheck(pkg))
    case FinalCheck(pkg) =>
      t == s.(pc := if s.service.Running? then CommitHash(pkg) else Rollback(pkg))
    case CommitHash(pkg) =>
      if pf.hashAtomic then
        t == s.(disk := s.disk.(hash := Some(pkg.hashText)), good := pkg.image, pc := CommitVersion(pkg))
      else
        t.disk.hash.Some? && t == s.(disk := s.disk.(hash := t.disk.hash), pc := CommittingHash(pkg))
    case CommittingHash(pkg) =>
      t == s.(disk := s.disk.(hash := Some(pkg.hashText)), good := pkg.image, pc := CommitVersion(pkg))
    case CommitVersion(pkg) =>
      t.disk.version.Some? && t == s.(disk := s.disk.(version := t.disk.version), pc := CommittingVersion(pkg))
    case CommittingVersion(pkg) =>
      t == s.(disk := s.disk.(version := Some(pkg.version)), pc := Idle)
    case Rollback(pkg) =>
      if s.disk.backup.Some? then
        t.disk.app.Some? && t == s.(disk := s.disk.(app := t.disk.app), pc := RollingBack(pkg))
      else
        t == s.(pc := Relaunch)
    case RollingBack(pkg) =>
      t == s.(disk := s.disk.(app := s.disk.backup), pc := Relaunch)
    case Relaunch =>
      Started(s, t, Idle)
    case BootCheck =>
      if !s.disk.metadata then t == s.(disk := s.disk.(metadata := true), pc := Idle)
      else if s.disk.app.None? && s.disk.backup.None? then t == s.(pc := Idle)
      else t == s.(pc := if NeedsRestore(pf, s.disk) then BootStop else Idle)
    case BootStop =>
      t == s.(pc := BootRestore, service := Stopped, wanted := false)
    case BootRestore =>
      if s.disk.backup.Some? then
        t.disk.app.Some? && t == s.(disk := s.disk.(app := t.disk.app), pc := BootRestoring)
      else
        t == s.(pc := BootLaunch)
    case BootRestoring =>
      t == s.(disk := s.disk.(app := s.disk.backup), pc := BootLaunch)
    case BootLaunch =>
      Started(s, t, Idle)
  }

  /** The service dies, or systemd starts it again with what APP holds now. */
  predicate ServiceMoves(s: State, t: State) {
    && t == s.(service := t.service)
    && (t.service.Stopped? || (s.wanted && s.disk.app.Some? && t.service == Running(s.disk.app.value)))
  }

  /** Power loss or process restart: the disk stays as it is and boot validation comes next. */
  predicate Reboot(s: State, t: State) {
    && t == s.(pc := BootCheck, service := t.service, wanted := t.wanted)
    && (t.service == s.service || t.service.Stopped?)
  }

  predicate Next(pf: Platform, s: State, t: State) {
    Advance(pf, s, t) || ServiceMoves(s, t) || Reboot(s, t)
  }

  predicate StepAt(pf: Platform, run: seq<State>, i: nat)
    requires 0 < i < |run|
  {
    Next(pf, run[i - 1], run[i])
  }

  predicate IsRun(pf: Platform, run: seq<State>) {
    && run != []
    && forall i :: 0 < i < |run| ==> StepAt(pf, run, i)
  }

  function Last(run: seq<State>): State
    requires run != []
  {
    run[|run| - 1]
  }

  // ----- Recovery as a function of the disk -----

  /** What one uninterrupted validate_app_file makes of a disk. */
  function ValidatePass(pf: Platform, d: Disk): Disk {
    if !d.metadata then d.(metadata := true)
    else if d.app.None? && d.backup.None? then d
    else if NeedsRestore(pf, d) && d.backup.Some? then d.(app := d.backup)
    else d
  }

  /** Three of the files lie in the metadata directory. */
  predicate InDirectory(d: Disk) {
    !d.metadata ==> d.backup.None? && d.hash.None? && d.version.None?
  }

  /** A second pass finds nothing to do, whatever state the disk was in. */
  lemma RecoveryReachesFixedPoint(pf: Platform, d: Disk)
    requires InDirectory(d)
    ensures ValidatePass(pf, ValidatePass(pf, d)) == ValidatePass(pf, d)
  {
  }

  /** From any disk with a HASH, a pass ends with APP matching HASH exactly when APP or BACKUP matched it. */
  lemma RecoveryMatchesHash(pf: Platform, d: Disk)
    requires InDirectory(d) && d.hash.Some?
    ensures !NeedsRestore(pf, ValidatePass(pf, d)) <==>
            !NeedsRestore(pf, d) || (d.backup.Some? && pf.hash(d.backup.value) == d.hash.value)
  {
  }

  // ----- The invariant -----

  /** Where the good image is, step by step. */
  ghost predicate GoodIsKept(s: State) {
    var inApp, inBackup := s.disk.app == Some(s.good), s.disk.backup == Some(s.good);
    match s.pc
    case Idle | StopService(_) | DropBackup(_) | CopyBackup(_) | CopyingBackup(_) => inApp
    case Install(_) => inApp && inBackup
    case Installing(_) | SetMode(_) | Launch(_) | Poll(_, _) | FinalCheck(_) => inBackup
    case CommitHash(_) | CommittingHash(_) => inBackup
    case CommitVersion(_) | CommittingVersion(_) => inApp
    case Rollback(_) | RollingBack(_) => inBackup
    case Relaunch => inApp
    case BootCheck => inApp || inBackup
    case BootStop | BootRestore | BootRestoring => inBackup
    case BootLaunch => inApp
  }

  /** From the stop to the launch nothing runs; from then to the check systemd runs the new image or fails to. */
  ghost predicate ServiceIsNew(s: State) {
    match s.pc
    case DropBackup(_) | CopyBackup(_) | CopyingBackup(_) | Install(_) | Installing(_) | SetMode(_) | Launch(_) =>
      s.service.Stopped? && !s.wanted
    case Poll(pkg, _) => s.wanted && s.service in {Stopped, Running(pkg.image)}
    case FinalCheck(pkg) => s.wanted && s.service in {Stopped, Running(pkg.image)}
    case _ => true
  }

  ghost predicate PackageIsAccepted(pf: Platform, s: State) {
    match s.pc
    case Idle | Relaunch => true
    case BootCheck | BootStop | BootRestore | BootRestoring | BootLaunch => true
    case _ => Accepted(pf, s.pc.pkg)
  }

  /** Between installation and commit, APP holds the new image. */
  ghost predicate AppIsNew(s: State) {
    match s.pc
    case SetMode(_) | Launch(_) | Poll(_, _) | FinalCheck(_) | CommitHash(_) | CommittingHash(_) =>
      s.disk.app == Some(s.pc.pkg.image)
    case _ => true
  }

  /** What every run keeps, whatever the disk was at its start and wherever it restarts. */
  ghost predicate FlowInv(pf: Platform, s: State) {
    ServiceIsNew(s) && PackageIsAccepted(pf, s) && AppIsNew(s)
  }

  predicate Booting(pc: Pc) {
    pc.BootCheck? || pc.BootStop? || pc.BootRestore? || pc.BootRestoring? || pc.BootLaunch?
  }

  predicate Replacing(pc: Pc) {
    pc.Idle? || pc.StopService? || pc.DropBackup? || pc.CopyBackup? || pc.CopyingBackup? || pc.Install? ||
    pc.Installing? || pc.SetMode? || pc.Launch?
  }

  lemma ReplacementKeepsFlow(pf: Platform, s: State, t: State)
    requires Replacing(s.pc) && FlowInv(pf, s) && Advance(pf, s, t)
    ensures FlowInv(pf, t)
  {
  }

  lemma DecisionKeepsFlow(pf: Platform, s: State, t: State)
    requires !Replacing(s.pc) && !Booting(s.pc) && FlowInv(pf, s) && Advance(pf, s, t)
    ensures FlowInv(pf, t)
  {
  }

  lemma InterferenceKeepsFlow(pf: Platform, s: State, t: State)
    requires FlowInv(pf, s) && (ServiceMoves(s, t) || Reboot(s, t))
    ensures FlowInv(pf, t)
  {
  }

  lemma StepKeepsFlow(pf: Platform, s: State, t: State)
    requires FlowInv(pf, s) && Next(pf, s, t)
    ensures FlowInv(pf, t)
  {
    if !Advance(pf, s, t) {
      InterferenceKeepsFlow(pf, s, t);
    } else if Replacing(s.pc) {
      ReplacementKeepsFlow(pf, s, t);
    } else if !Booting(s.pc) {
      DecisionKeepsFlow(pf, s, t);
    }
  }

  lemma {:induction false} RunsKeepFlow(pf: Platform, run: seq<State>, i: nat)
    requires IsRun(pf, run) && FlowInv(pf, run[0]) && i < |run|
    ensures FlowInv(pf, run[i])
  {
    if i > 0 {
      RunsKeepFlow(pf, run, i - 1);
      assert StepAt(pf, run, i);
      StepKeepsFlow(pf, run[i - 1], run[i]);
    }
  }

  ghost predicate Inv(pf: Platform, s: State) {
    && s.disk.metadata
    && (s.pc.CommittingHash? || s.disk.hash == Some(pf.hash(s.good)))
    && GoodIsKept(s)
    && FlowInv(pf, s)
  }

  lemma BootKeepsInv(pf: Platform, s: State, t: State)
    requires pf.CollisionFree() && Booting(s.pc)
    requires Inv(pf, s) && Advance(pf, s, t)
    ensures Inv(pf, t)
  {
    if s.pc.BootCheck? && s.disk.app.Some? && s.disk.hash.value == pf.hash(s.disk.app.value) {
      assert s.disk.app.value == s.good;
    }
  }

  lemma ReplacementKeepsInv(pf: Platform, s: State, t: State)
    requires Replacing(s.pc)
    requires Inv(pf, s) && Advance(pf, s, t)
    ensures Inv(pf, t)
  {
  }

  lemma AdvanceKeepsInv(pf: Platform, s: State, t: State)
    requires pf.CollisionFree()
    requires Inv(pf, s) && Advance(pf, s, t)
    ensures Inv(pf, t)
  {
    if Booting(s.pc) {
      BootKeepsInv(pf, s, t);
    } else if Replacing(s.pc) {
      ReplacementKeepsInv(pf, s, t);
    }
  }

  /** A restart that finds the HASH write half done. */
  predicate CutsHash(s: State, t: State) {
    s.pc.CommittingHash? && t.pc.BootCheck?
  }

  lemma InterferenceKeepsInv(pf: Platform, s: State, t: State)
    requires Inv(pf, s) && (ServiceMoves(s, t) || Reboot(s, t)) && !CutsHash(s, t)
    ensures Inv(pf, t)
  {
  }

  predicate CutsHashAt(run: seq<State>, i: nat)
    requires 0 < i < |run|
  {
    CutsHash(run[i - 1], run[i])
  }

  /** No restart falls into a HASH write. */
  predicate HashWritesComplete(run: seq<State>) {
    forall i :: 0 < i < |run| ==> !CutsHashAt(run, i)
  }

  lemma ExtendComplete(run: seq<State>, t: State)
    requires run != [] && HashWritesComplete(run) && !CutsHash(Last(run), t)
    ensures HashWritesComplete(run + [t])
  {
    var next := run + [t];
    forall i | 0 < i < |next|
      ensures !CutsHashAt(next, i)
    {
      if i < |run| {
        assert !CutsHashAt(run, i);
        assert next[i] == run[i] && next[i - 1] == run[i - 1];
      }
    }
  }

  /** Where the HASH write is atomic, every run is of that kind. */
  lemma AtomicHashWritesComplete(pf: Platform, run: seq<State>)
    requires pf.hashAtomic && IsRun(pf, run) && !run[0].pc.CommittingHash?
    ensures HashWritesComplete(run)
  {
    forall i | 0 < i < |run|
      ensures !CutsHashAt(run, i)
    {
      NeverCommittingHash(pf, run, i - 1);
    }
  }

  lemma {:induction false} NeverCommittingHash(pf: Platform, run: seq<State>, i: nat)
    requires pf.hashAtomic && IsRun(pf, run) && !run[0].pc.CommittingHash? && i < |run|
    ensures !run[i].pc.CommittingHash?
  {
    if i > 0 {
      NeverCommittingHash(pf, run, i - 1);
      assert StepAt(pf, run, i);
    }
  }

  lemma {:induction false} RunsKeepInv(pf: Platform, run: seq<State>, i: nat)
    requires pf.CollisionFree() && HashWritesComplete(run)
    requires IsRun(pf, run) && Inv(pf, run[0]) && i < |run|
    ensures Inv(pf, run[i])
  {
    if i > 0 {
      RunsKeepInv(pf, run, i - 1);
      assert StepAt(pf, run, i) && !CutsHashAt(run, i);
      if Advance(pf, run[i - 1], run[i]) {
        AdvanceKeepsInv(pf, run[i - 1], run[i]);
      } else {
        InterferenceKeepsInv(pf, run[i - 1], run[i]);
      }
    }
  }

  /**
   HASH describes the good image; it is in APP, or in BACKUP while HASH tells that APP is not it. Only in the
   middle of a HASH write recovery may also keep the image that is being committed.
   */
  ghost predicate Recoverable(pf: Platform, s: State) {
    if s.pc.CommittingHash? then
      && s.disk.backup == Some(s.good)
      && ValidatePass(pf, s.disk).app in {Some(s.good), Some(s.pc.pkg.image)}
    else
      && s.disk.hash == Some(pf.hash(s.good))
      && (s.disk.app == Some(s.good) || (s.disk.backup == Some(s.good) && NeedsRestore(pf, s.disk)))
      && ValidatePass(pf, s.disk).app == Some(s.good)
      && (s.pc.Idle? ==> s.disk.app == Some(s.good))
  }

  lemma InvIsRecoverable(pf: Platform, s: State)
    requires pf.CollisionFree() && Inv(pf, s)
    ensures Recoverable(pf, s)
  {
    assert s.disk.app == Some(s.good) || s.disk.backup == Some(s.good);
    if s.disk.app.Some? && pf.hash(s.disk.app.value) == pf.hash(s.good) {
      assert s.disk.app.value == s.good;
    }
  }

  /** A finished boot or upload: APP holds what HASH describes. */
  predicate Committed(pf: Platform, s: State) {
    s.pc.Idle? && s.disk.metadata && s.disk.app == Some(s.good) && s.disk.hash == Some(pf.hash(s.good))
  }

  /**
   Crash safety. In every state of every run from a committed one in which no restart falls into a HASH
   write, HASH describes the good image, the image is in APP or else in BACKUP with HASH telling that APP is
   not it, and one pass of recovery brings it back; whenever the service is idle again, APP holds it.
   */
  lemma CrashSafety(pf: Platform, run: seq<State>, i: nat)
    requires pf.CollisionFree() && HashWritesComplete(run)
    requires IsRun(pf, run) && Committed(pf, run[0]) && i < |run|
    ensures Recoverable(pf, run[i])
  {
    RunsKeepInv(pf, run, i);
    InvIsRecoverable(pf, run[i]);
  }

  // ----- Commits and rollbacks over whole runs -----

  /** The HASH write of `pkg` is due or under way. */
  predicate InHashWrite(pc: Pc, pkg: Package) {
    pc == CommitHash(pkg) || pc == CommittingHash(pkg)
  }

  lemma StepBeforeCommit(pf: Platform, s: State, t: State, pkg: Package)
    requires Next(pf, s, t) && InHashWrite(t.pc, pkg)
    ensures InHashWrite(s.pc, pkg) || (s.pc == FinalCheck(pkg) && s.service.Running?)
  {
  }

  /** Where a run starts: no upload and no recovery is under way. */
  predicate AtRest(pc: Pc) {
    pc.Idle? || pc.BootCheck?
  }

  lemma {:induction false} CommitFollowsCheck(pf: Platform, run: seq<State>, i: nat, pkg: Package) returns (j: nat)
    requires IsRun(pf, run) && AtRest(run[0].pc) && i < |run| && InHashWrite(run[i].pc, pkg)
    ensures j < i && run[j].pc == FinalCheck(pkg) && run[j].service.Running?
    ensures forall k :: j < k <= i ==> InHashWrite(run[k].pc, pkg)
  {
    assert StepAt(pf, run, i);
    StepBeforeCommit(pf, run[i - 1], run[i], pkg);
    if run[i - 1].pc.FinalCheck? {
      j := i - 1;
    } else {
      j := CommitFollowsCheck(pf, run, i - 1, pkg);
    }
  }

  lemma GoodChangesAtCommit(pf: Platform, s: State, t: State)
    requires FlowInv(pf, s) && Next(pf, s, t) && t.good != s.good
    ensures (s.pc.CommitHash? || s.pc.CommittingHash?) && Accepted(pf, s.pc.pkg) && t.good == s.pc.pkg.image
    ensures t.disk == s.disk.(hash := Some(s.pc.pkg.hashText))
  {
  }

  lemma StepInRollback(pf: Platform, s: State, t: State)
    requires Next(pf, s, t) && InRollback(s.pc) && !t.pc.BootCheck?
    ensures InRollback(t.pc) || t.pc.Idle?
    ensures t.good == s.good && t.disk == s.disk.(app := t.disk.app)
  {
  }

  /**
   In every run, torn writes and all, the good image changes only to one whose package hash matched, whose
   signature was verified, and which was the running one at the final status check just before the HASH write.
   */
  lemma CommitDiscipline(pf: Platform, run: seq<State>, i: nat) returns (pkg: Package, j: nat)
    requires IsRun(pf, run) && AtRest(run[0].pc)
    requires 0 < i < |run| && run[i].good != run[i - 1].good
    ensures run[i].good == pkg.image && pf.hash(pkg.image) == pkg.hashText && pkg.signatureOk
    ensures j < i - 1 && run[j].pc == FinalCheck(pkg) && run[j].service == Running(pkg.image)
    ensures forall k :: j < k < i ==> InHashWrite(run[k].pc, pkg)
    ensures run[i].disk == run[i - 1].disk.(hash := Some(pkg.hashText))
  {
    RunsKeepFlow(pf, run, i - 1);
    assert StepAt(pf, run, i);
    GoodChangesAtCommit(pf, run[i - 1], run[i]);
    pkg := run[i - 1].pc.pkg;
    j := CommitFollowsCheck(pf, run, i - 1, pkg);
    RunsKeepFlow(pf, run, j);
  }

  predicate InRollback(pc: Pc) {
    pc.Rollback? || pc.RollingBack? || pc.Relaunch?
  }

  lemma {:induction false} RollbackTouchesAppOnly(pf: Platform, run: seq<State>, i: nat, j: nat)
    requires IsRun(pf, run) && i <= j < |run| && run[i].pc.Rollback?
    requires forall k :: i < k < j ==> !run[k].pc.Idle?
    requires forall k :: i < k <= j ==> !run[k].pc.BootCheck?
    ensures InRollback(run[j].pc) || run[j].pc.Idle?
    ensures run[j].good == run[i].good
    ensures run[j].disk == run[i].disk.(app := run[j].disk.app)
    decreases j
  {
    if i < j {
      RollbackTouchesAppOnly(pf, run, i, j - 1);
      assert j - 1 == i || !run[j - 1].pc.Idle?;
      assert StepAt(pf, run, j);
      StepInRollback(pf, run[j - 1], run[j]);
    }
  }

  /** A failed final check puts exactly the earlier good image back and changes neither HASH nor VERSION. */
  lemma RollbackRestores(pf: Platform, run: seq<State>, i: nat, j: nat)
    requires pf.CollisionFree() && HashWritesComplete(run)
    requires IsRun(pf, run) && Committed(pf, run[0])
    requires i < j < |run| && run[i].pc.Rollback? && run[j].pc.Idle?
    requires forall k :: i < k < j ==> !run[k].pc.Idle? && !run[k].pc.BootCheck?
    ensures run[j].good == run[i].good
    ensures run[j].disk == run[i].disk.(app := Some(run[i].good))
  {
    RollbackTouchesAppOnly(pf, run, i, j);
    CrashSafety(pf, run, j);
  }

  lemma Extend(pf: Platform, run: seq<State>, t: State)
    requires IsRun(pf, run) && Next(pf, Last(run), t)
    ensures IsRun(pf, run + [t])
  {
    var next := run + [t];
    forall i | 0 < i < |next|
      ensures StepAt(pf, next, i)
    {
      assert i < |run| ==> StepAt(pf, run, i);
    }
  }

  lemma Prefix(pf: Platform, run: seq<State>, n: nat)
    requires IsRun(pf, run) && 0 < n <= |run|
    ensures IsRun(pf, run[..n])
  {
    forall i | 0 < i < n
      ensures StepAt(pf, run[..n], i)
    {
      assert StepAt(pf, run, i);
    }
  }

  /** Any run may be cut after any step: the class in OtaDaemon runs its methods to the end, a device need not. */
  lemma CrashAnywhere(pf: Platform, run: seq<State>, i: nat, t: State)
    requires IsRun(pf, run) && i < |run| && Reboot(run[i], t)
    ensures IsRun(pf, run[..i + 1] + [t])
  {
    Prefix(pf, run, i + 1);
    Extend(pf, run[..i + 1], t);
  }
}
