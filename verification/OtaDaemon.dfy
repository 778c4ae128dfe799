/**
 The handlers of ota/kaonic-ota.py, statement by statement. A ghost log records the state after every file
 operation and every move of the service, and Valid says that the log is a run of OtaProtocol; so everything
 proved there about runs, with a restart after any prefix, holds of what these methods do to the disk.
 */
module OtaDaemon {
  import opened Prelude
  import opened OtaProtocol
  import opened OtaVersion
  import opened OtaService

  datatype Response = HashMismatch | BadSignature | Updated | RolledBack

  class Daemon {
    const pf: Platform

    // The files, and what systemd does.
    var metadata: bool
    var app: Option<Image>
    var backup: Option<Image>
    var hash: Option<string>
    var version: Option<string>
    var service: Service
    var wanted: bool

    ghost var pc: Pc
    ghost var good: Image
    ghost var run: seq<State>

    function Files(): Disk
      reads this
    {
      Disk(metadata, app, backup, hash, version)
    }

    ghost function Now(): State
      reads this
    {
      State(Files(), pc, service, wanted, good)
    }

    ghost predicate Valid()
      reads this
    {
      IsRun(pf, run) && run[0].pc.BootCheck? && HashWritesComplete(run) && Last(run) == Now()
    }

    /** A device that starts with the given files. */
    constructor (pf: Platform, files: Disk, ghost good: Image)
      ensures Valid() && this.pf == pf && Files() == files
      ensures pc == BootCheck && this.good == good && run == [Now()]
    {
      this.pf := pf;
      metadata, app, backup, hash, version := files.metadata, files.app, files.backup, files.hash, files.version;
      service, wanted := Stopped, false;
      pc, this.good := BootCheck, good;
      run := [State(files, BootCheck, Stopped, false, good)];
    }

    /** Logs the state that the last file operation or service call has led to. */
    ghost method Record()
      requires IsRun(pf, run) && run[0].pc.BootCheck? && HashWritesComplete(run) && Advance(pf, Last(run), Now())
      modifies this`run
      ensures Valid() && old(run) <= run && |run| == |old(run)| + 1
    {
      Extend(pf, run, Now());
      ExtendComplete(run, Now());
      run := run + [Now()];
    }

    /** Logs what happens from outside: a move of the service, or a restart. */
    ghost method RecordEvent()
      requires IsRun(pf, run) && run[0].pc.BootCheck? && HashWritesComplete(run) && !CutsHash(Last(run), Now())
      requires ServiceMoves(Last(run), Now()) || Reboot(Last(run), Now())
      modifies this`run
      ensures Valid() && old(run) <= run
    {
      Extend(pf, run, Now());
      ExtendComplete(run, Now());
      run := run + [Now()];
    }

    /** Between two operations the service may die or be started again. */
    method ServiceStirs()
      requires Valid()
      modifies this`service, this`run
      ensures Valid() && old(run) <= run
      ensures service == old(service) || service.Stopped? || (wanted && app.Some? && service == Running(app.value))
    {
      if * {
        service := Stopped;
        RecordEvent();
      } else if * {
        if wanted && app.Some? {
          service := Running(app.value);
          RecordEvent();
        }
      }
    }

    /** sha256sum */
    method Sha256Sum(content: Image) returns (digest: string)
      ensures digest == pf.hash(content)
    {
      var fed: Image := [];
      while |fed| < |content|
        invariant fed <= content
        decreases |content| - |fed|
      {
        var end := if |fed| + 4096 < |content| then |fed| + 4096 else |content|;
        fed := fed + content[|fed|..end];
      }
      assert fed == content;
      digest := pf.hash(fed);
    }

    method IsKaonicRunning() returns (r: bool)
      ensures r == service.Running?
    {
      r := service.Running?;
    }

    /** stop_kaonic_commd, on the way to `next`. */
    method StopKaonicCommd(ghost next: Pc)
      requires Valid()
      requires (pc.StopService? && next == DropBackup(pc.pkg)) || (pc.BootStop? && next == BootRestore)
      modifies this`service, this`wanted, this`pc, this`run
      ensures Valid() && old(run) <= run && pc == next && service.Stopped? && !wanted
    {
      service, wanted := Stopped, false;
      pc := next;
      Record();
    }

    /** launch_kaonic_commd, on the way to `next`; `starts` tells whether a start of the stopped service succeeds. */
    method LaunchKaonicCommd(ghost next: Pc, starts: bool)
      requires Valid()
      requires (pc.Launch? && next == Poll(pc.pkg, 10)) || ((pc.Relaunch? || pc.BootLaunch?) && next == Idle)
      modifies this`service, this`wanted, this`pc, this`run
      ensures Valid() && old(run) <= run && pc == next
      ensures wanted
      ensures service == if old(service).Stopped? && app.Some? && starts then Running(app.value) else old(service)
    {
      wanted := true;
      if service.Stopped? && app.Some? && starts {
        service := Running(app.value);
      }
      pc := next;
      Record();
    }

    /** backup_current */
    method BackupCurrent()
      requires Valid() && pc.DropBackup?
      modifies this`backup, this`pc, this`run
      ensures Valid() && old(run) <= run && pc == Install(old(pc).pkg)
      ensures backup == app
    {
      ghost var pkg := pc.pkg;
      if backup.Some? {
        backup := None;
      }
      pc := if app.Some? then CopyBackup(pkg) else Install(pkg);
      Record();
      if app.Some? {
        var torn: Image := *;
        backup := Some(torn);
        pc := CopyingBackup(pkg);
        Record();
        backup := app;
        pc := Install(pkg);
        Record();
      }
    }

    /** restore_backup, in the rollback of an upload or at boot. */
    method RestoreBackup()
      requires Valid() && (pc.Rollback? || pc.BootRestore?)
      modifies this`app, this`pc, this`run
      ensures Valid() && old(run) <= run && pc == if old(pc).Rollback? then Relaunch else BootLaunch
      ensures app == if backup.Some? then backup else old(app)
    {
      ghost var from := pc;
      if backup.Some? {
        var torn: Image := *;
        app := Some(torn);
        pc := if from.Rollback? then RollingBack(from.pkg) else BootRestoring;
        Record();
        app := backup;
      }
      pc := if from.Rollback? then Relaunch else BootLaunch;
      Record();
    }

    /** What runs is what APP holds. */
    ghost predicate ServesApp()
      reads this
    {
      service.Stopped? || (app.Some? && service == Running(app.value))
    }

    /**
     The two calls that end both a rollback and a recovery. If systemd still wants the service, it may come up
     before the restore is done; state `early` of the log then shows it.
     */
    method RestoreAndLaunch(starts: bool) returns (ghost early: nat)
      requires Valid() && (pc.Rollback? || pc.BootRestore?) && service.Stopped?
      modifies this`app, this`service, this`wanted, this`pc, this`run
      ensures Valid() && old(run) <= run && pc.Idle?
      ensures app == if backup.Some? then backup else old(app)
      ensures wanted && (starts && app.Some? ==> service.Running?)
      ensures !starts && !old(wanted) ==> service.Stopped?
      ensures ServesApp() || (old(wanted) && |old(run)| <= early < |run| && (old(pc).Rollback? ==> EarlyAt(run, early)))
    {
      ServiceStirs();
      early := |run| - 1;
      RestoreBackup();
      ServiceStirs();
      LaunchKaonicCommd(Idle, starts);
    }

    /** The recovery branch of validate_app_file. */
    method RecoverApp(starts: bool)
      requires Valid() && pc.BootCheck?
      requires metadata && (app.Some? || backup.Some?) && NeedsRestore(pf, Files())
      modifies this`app, this`service, this`wanted, this`pc, this`run
      ensures Valid() && old(run) <= run && pc.Idle?
      ensures app == if backup.Some? then backup else old(app)
      ensures wanted && service == if starts && app.Some? then Running(app.value) else Stopped
    {
      pc := BootStop;
      Record();
      StopKaonicCommd(BootRestore);
      ghost var early := RestoreAndLaunch(starts);
    }

    /**
     validate_app_file, uninterrupted. It restores if there is a metadata directory, APP or BACKUP exists, and APP
     is not what HASH says. Then BACKUP is back in APP, and the service has been stopped and started again with
     it, where `starts` tells whether the start succeeds; otherwise no file and no service is touched.
     */
    method ValidateAppFile(starts: bool)
      requires Valid() && pc.BootCheck?
      modifies this
      ensures Valid() && old(run) <= run && pc.Idle?
      ensures Files() == ValidatePass(pf, old(Files())) && good == old(good)
      ensures metadata && backup == old(backup) && hash == old(hash) && version == old(version)
      ensures var restores := && old(metadata) && (old(app).Some? || old(backup).Some?)
                              && (old(app).None? || old(hash).None? || old(hash).value != pf.hash(old(app).value));
              && app == (if restores && old(backup).Some? then old(backup) else old(app))
              && (restores ==> wanted && service == if starts && app.Some? then Running(app.value) else Stopped)
              && (!restores ==> wanted == old(wanted) && service == old(service))
    {
      if !metadata {
        metadata := true;
        pc := Idle;
        Record();
        return;
      }
      if app.None? && backup.None? {
        pc := Idle;
        Record();
        return;
      }
      var actual := "";
      if app.Some? {
        actual := Sha256Sum(app.value);
      }
      if app.None? || hash.None? || hash.value != actual {
        RecoverApp(starts);
      } else {
        pc := Idle;
        Record();
      }
    }

    /** The ten polls; they end early when the service is found stopped, but decide nothing. */
    method PollService()
      requires Valid() && pc.Poll? && pc.left == 10
      modifies this`service, this`pc, this`run
      ensures Valid() && old(run) <= run && pc == FinalCheck(old(pc).pkg)
    {
      ghost var pkg := pc.pkg;
      var left := 10;
      while left > 0
        invariant 0 <= left && Valid() && old(run) <= run && pc == Poll(pkg, left)
      {
        ServiceStirs();
        var running := IsKaonicRunning();
        if !running {
          break;
        }
        left := left - 1;
        pc := Poll(pkg, left);
        Record();
      }
      pc := FinalCheck(pkg);
      Record();
    }

    /** Copies the package's digest over HASH: the point at which the new image becomes the good one. */
    method WriteHash(pkg: Package)
      requires Valid() && pc == CommitHash(pkg)
      modifies this`hash, this`good, this`pc, this`run
      ensures Valid() && old(run) <= run && pc == CommitVersion(pkg)
      ensures hash == Some(pkg.hashText) && good == pkg.image
    {
      if !pf.hashAtomic {
        var torn: string := *;
        hash := Some(torn);
        pc := CommittingHash(pkg);
        Record();
      }
      hash := Some(pkg.hashText);
      good := pkg.image;
      pc := CommitVersion(pkg);
      Record();
    }

    method WriteVersion(pkg: Package)
      requires Valid() && pc == CommitVersion(pkg)
      modifies this`version, this`pc, this`run
      ensures Valid() && old(run) <= run && pc.Idle?
      ensures version == Some(pkg.version)
    {
      var torn: string := *;
      version := Some(torn);
      pc := CommittingVersion(pkg);
      Record();
      version := Some(pkg.version);
      pc := Idle;
      Record();
    }

    /** The two writes that commit an update. */
    method Commit(pkg: Package)
      requires Valid() && pc == CommitHash(pkg)
      modifies this`hash, this`version, this`good, this`pc, this`run
      ensures Valid() && old(run) <= run && pc.Idle?
      ensures hash == Some(pkg.hashText) && version == Some(pkg.version) && good == pkg.image
    {
      WriteHash(pkg);
      WriteVersion(pkg);
    }

    /** Copies the new image over APP. */
    method CopyImage(pkg: Package)
      requires Valid() && pc == Install(pkg)
      modifies this`app, this`pc, this`run
      ensures Valid() && old(run) <= run && pc == SetMode(pkg)
      ensures app == Some(pkg.image)
    {
      var torn: Image := *;
      app := Some(torn);
      pc := Installing(pkg);
      Record();
      app := Some(pkg.image);
      pc := SetMode(pkg);
      Record();
    }

    /** Copies the new image over APP and makes it executable. */
    method InstallApp(pkg: Package)
      requires Valid() && pc == Install(pkg)
      modifies this`app, this`pc, this`run
      ensures Valid() && old(run) <= run && pc == Launch(pkg)
      ensures app == Some(pkg.image)
    {
      CopyImage(pkg);
      pc := Launch(pkg);
      Record();
    }

    /** State `i` of the log is the deciding check of a service that systemd wants, with the given answer. */
    ghost predicate CheckedAt(i: nat, pkg: Package, running: bool)
      reads this
    {
      && i + 1 < |run| && run[i].pc == FinalCheck(pkg) && run[i].wanted
      && run[i + 1].pc == (if running then CommitHash(pkg) else Rollback(pkg))
      && run[i].service == if running then Running(pkg.image) else Stopped
    }

    /** The status check that decides between commit and rollback. */
    method CheckFinalStatus(pkg: Package) returns (running: bool, ghost checked: nat)
      requires Valid() && pc == FinalCheck(pkg)
      modifies this`service, this`pc, this`run
      ensures Valid() && old(run) <= run && pc == if running then CommitHash(pkg) else Rollback(pkg)
      ensures running <==> service.Running?
      ensures |old(run)| <= checked + 1 && CheckedAt(checked, pkg, running)
    {
      ServiceStirs();
      running := IsKaonicRunning();
      checked := |run| - 1;
      RunsKeepFlow(pf, run, checked);
      pc := if running then CommitHash(pkg) else Rollback(pkg);
      Record();
    }

    /** The package has been accepted; nothing on the disk has changed yet. */
    method BeginUpload(pkg: Package)
      requires Valid() && pc.Idle? && Accepted(pf, pkg)
      modifies this`service, this`wanted, this`pc, this`run
      ensures Valid() && old(run) <= run && pc == DropBackup(pkg) && service.Stopped? && !wanted
    {
      pc := StopService(pkg);
      Record();
      StopKaonicCommd(DropBackup(pkg));
    }

    /** State `i` of the log is the one right after the launch of the new image. */
    ghost predicate LaunchedAt(i: nat, pkg: Package, starts: bool)
      reads this
    {
      i < |run| && run[i].pc == Poll(pkg, 10) && run[i].service == if starts then Running(pkg.image) else Stopped
    }

    /** Everything up to the final check: the new image in APP, what APP held in BACKUP, nothing else touched. */
    method TryImage(pkg: Package, starts: bool) returns (ghost launched: nat)
      requires Valid() && pc.Idle? && Accepted(pf, pkg)
      modifies this`app, this`backup, this`service, this`wanted, this`pc, this`run
      ensures Valid() && old(run) <= run && pc == FinalCheck(pkg)
      ensures app == Some(pkg.image) && backup == old(app)
      ensures |old(run)| <= launched && LaunchedAt(launched, pkg, starts)
    {
      BeginUpload(pkg);
      BackupCurrent();
      InstallApp(pkg);
      LaunchKaonicCommd(Poll(pkg, 10), starts);
      launched := |run| - 1;
      PollService();
    }

    /** Keeps the new image or puts the old one back, as the final check decides. */
    method Conclude(pkg: Package, restarts: bool) returns (r: Response, ghost checked: nat, ghost early: nat)
      requires Valid() && pc == FinalCheck(pkg)
      modifies this
      ensures Valid() && old(run) <= run && pc.Idle?
      ensures r.Updated? || r.RolledBack?
      ensures |old(run)| <= checked + 1 && CheckedAt(checked, pkg, r.Updated?)
      ensures r.RolledBack? && restarts && app.Some? ==> service.Running?
      ensures r.RolledBack? ==> wanted && (ServesApp() || (|old(run)| <= early < |run| && EarlyAt(run, early)))
      ensures r.Updated? ==>
                Files() == old(Files()).(hash := Some(pkg.hashText), version := Some(pkg.version)) && good == pkg.image
      ensures r.RolledBack? ==>
                Files() == old(Files()).(app := if backup.Some? then backup else old(app)) && good == old(good)
    {
      var running;
      running, checked := CheckFinalStatus(pkg);
      early := 0;
      if running {
        Commit(pkg);
        r := Updated;
      } else {
        early := RestoreAndLaunch(restarts);
        r := RolledBack;
      }
    }

    /** What becomes of an accepted package. */
    method Deploy(pkg: Package, starts: bool, restarts: bool)
      returns (r: Response, ghost launched: nat, ghost checked: nat, ghost early: nat)
      requires Valid() && pc.Idle? && Accepted(pf, pkg)
      modifies this
      ensures Valid() && old(run) <= run && pc.Idle?
      ensures r.Updated? || r.RolledBack?
      ensures r.Updated? ==>
                && Files() == Disk(old(metadata), Some(pkg.image), old(app), Some(pkg.hashText), Some(pkg.version))
                && good == pkg.image
      ensures r.RolledBack? ==>
                && Files() == old(Files()).(app := if old(app).Some? then old(app) else Some(pkg.image), backup := old(app))
                && good == old(good)
      ensures |old(run)| <= launched && LaunchedAt(launched, pkg, starts)
      ensures launched < checked && CheckedAt(checked, pkg, r.Updated?)
      ensures r.RolledBack? && restarts && app.Some? ==> service.Running?
      ensures r.RolledBack? ==> wanted && (ServesApp() || (|old(run)| <= early < |run| && EarlyAt(run, early)))
    {
      launched := TryImage(pkg, starts);
      r, checked, early := Conclude(pkg, restarts);
    }

    /**
     upload_ota, from the hash check on; `starts` and `restarts` tell whether its two starts of a stopped service
     succeed. An accepted package is launched (state `launched` of the log), and it is kept exactly if the final
     status check (state `checked`) finds it running. After a rollback nothing runs but the restored APP,
     unless the service came up before the restore was done, which state `early` of the log then shows.
     */
    method UploadOta(pkg: Package, starts: bool, restarts: bool)
      returns (r: Response, ghost launched: nat, ghost checked: nat, ghost early: nat)
      requires Valid() && pc.Idle?
      modifies this
      ensures Valid() && old(run) <= run && pc.Idle?
      ensures r.HashMismatch? <==> pf.hash(pkg.image) != pkg.hashText
      ensures r.BadSignature? <==> pf.hash(pkg.image) == pkg.hashText && !pkg.signatureOk
      ensures r.HashMismatch? || r.BadSignature? ==> Now() == old(Now()) && run == old(run)
      ensures r.Updated? ==>
                && Files() == Disk(old(metadata), Some(pkg.image), old(app), Some(pkg.hashText), Some(pkg.version))
                && good == pkg.image
      ensures r.RolledBack? ==>
                && Files() == old(Files()).(app := if old(app).Some? then old(app) else Some(pkg.image), backup := old(app))
                && good == old(good)
      ensures r.Updated? || r.RolledBack? ==>
                && |old(run)| <= launched < checked
                && LaunchedAt(launched, pkg, starts) && CheckedAt(checked, pkg, r.Updated?)
      ensures r.RolledBack? && restarts && app.Some? ==> service.Running?
      ensures r.RolledBack? ==> wanted && (ServesApp() || (|old(run)| <= early < |run| && EarlyAt(run, early)))
      ensures old(Committed(pf, Now())) ==> Committed(pf, Now())
    {
      launched, checked, early := 0, 0, 0;
      var actual := Sha256Sum(pkg.image);
      if pkg.hashText != actual {
        r := HashMismatch;
        return;
      }
      if !pkg.signatureOk {
        r := BadSignature;
        return;
      }
      r, launched, checked, early := Deploy(pkg, starts, restarts);
    }

    /**
     get_version: no answer exactly when a file is missing. Asked in a committed state, the reported digest is
     that of the image in APP, and the reported version is that of the package committed last unless the
     process was restarted between the two writes of that commit.
     */
    method GetVersion() returns (reply: Option<(string, string)>)
      ensures reply == None <==> version == None || hash == None
      ensures reply.Some? ==> version == Some(reply.value.0) && hash == Some(reply.value.1)
      ensures Committed(pf, Now()) && reply.Some? ==> app.Some? && reply.value.1 == pf.hash(app.value)
      ensures Valid() && pc.Idle? && CutSince(run, |run| - 1) == NoCut && reply.Some? ==>
                CommittedVersion(run, |run| - 1) == Some(reply.value.0)
    {
      if Valid() && pc.Idle? {
        VersionAtRest(pf, run, |run| - 1);
      }
      if version.None? || hash.None? {
        return None;
      }
      return Some((version.value, hash.value));
    }

    /** An aborted handler or a power loss: the process starts again and validates first. */
    method Restart()
      requires Valid() && !pc.CommittingHash?
      modifies this`service, this`pc, this`run
      ensures Valid() && old(run) <= run && pc.BootCheck?
    {
      if * {
        service := Stopped;
      }
      pc := BootCheck;
      RecordEvent();
    }
  }

  /**
   The device loses power after any logged operation of any of the methods above, except inside a HASH write
   that is not atomic, and starts again with what the disk then held: validation puts the committed image
   back. The new daemon meets the same conditions, so this holds again for a power loss during that very
   validation, and any number of times.
   */
  method PowerLoss(d: Daemon, ghost i: nat, files: Disk, starts: bool) returns (e: Daemon)
    requires d.Valid() && d.pf.CollisionFree() && Inv(d.pf, d.run[0])
    requires i < |d.run| && !d.run[i].pc.CommittingHash? && files == d.run[i].disk
    ensures fresh(e) && e.pf == d.pf && e.Valid() && Inv(e.pf, e.run[0])
    ensures Committed(e.pf, e.Now()) && e.good == d.run[i].good
    ensures e.backup == files.backup && e.version == files.version
  {
    RunsKeepInv(d.pf, d.run, i);
    InvIsRecoverable(d.pf, d.run[i]);
    e := new Daemon(d.pf, files, d.run[i].good);
    assert e.run[0] == e.Now();
    e.ValidateAppFile(starts);
    assert e.run[0].disk == files;
  }
}
