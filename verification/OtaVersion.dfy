/**
 What get_version reports. HASH and VERSION are two files written one after the other, so a restart
 between or inside the two writes can leave a VERSION that does not belong to the committed image.
 */
module OtaVersion {
  import opened Prelude
  import opened OtaProtocol
  import opened OtaRuns

  /** State `i` of the run is the one a HASH write has just led to. */
  predicate Commits(run: seq<State>, i: nat)
    requires 0 < i < |run|
  {
    run[i].pc.CommitVersion? && !run[i - 1].pc.CommitVersion?
  }

  /** The last commit up to `i`, or 0 if there was none. */
  function LastCommit(run: seq<State>, i: nat): (c: nat)
    requires i < |run|
    ensures c <= i && (c > 0 ==> Commits(run, c))
    ensures forall k :: c < k <= i ==> !Commits(run, k)
  {
    if i == 0 then 0 else if Commits(run, i) then i else LastCommit(run, i - 1)
  }

  /** The version of the package committed last; what VERSION held at the start if there was no commit. */
  function CommittedVersion(run: seq<State>, i: nat): Option<string>
    requires i < |run|
  {
    var c := LastCommit(run, i);
    if c == 0 then run[0].disk.version else Some(run[c].pc.pkg.version)
  }

  /** Where the process restarted after a commit: not at all, before its VERSION write, or inside that write. */
  datatype Cut = NoCut | BeforeWrite | InsideWrite

  function CutAt(run: seq<State>, i: nat): Cut
    requires 0 < i < |run|
  {
    if !run[i].pc.BootCheck? then NoCut
    else if run[i - 1].pc.CommitVersion? then BeforeWrite
    else if run[i - 1].pc.CommittingVersion? then InsideWrite
    else NoCut
  }

  /** The cut, if any, that followed the last commit up to `i`. */
  function CutSince(run: seq<State>, i: nat): Cut
    requires i < |run|
  {
    if i == 0 || Commits(run, i) then NoCut
    else if CutAt(run, i) != NoCut then CutAt(run, i)
    else CutSince(run, i - 1)
  }

  predicate Writing(pc: Pc) {
    pc.CommitVersion? || pc.CommittingVersion?
  }

  /** What VERSION holds: in the two steps of its write, and otherwise as the restarts have left it. */
  ghost predicate VersionInv(run: seq<State>, i: nat)
    requires i < |run|
  {
    var s, c := run[i], LastCommit(run, i);
    if s.pc.CommitVersion? then
      c > 0 && CutSince(run, i) == NoCut && run[c].pc == s.pc && s.disk.version == run[c - 1].disk.version
    else if s.pc.CommittingVersion? then
      c > 0 && CutSince(run, i) == NoCut && run[c].pc.pkg == s.pc.pkg && s.disk.version.Some?
    else
      match CutSince(run, i)
      case NoCut => s.disk.version == CommittedVersion(run, i)
      case BeforeWrite => c > 0 && s.disk.version == run[c - 1].disk.version
      case InsideWrite => c > 0 && s.disk.version.Some?
  }

  /** Only the two steps of the VERSION write change VERSION. */
  lemma StepAndVersion(pf: Platform, s: State, t: State)
    requires Next(pf, s, t)
    ensures !Writing(s.pc) ==> t.disk.version == s.disk.version && !t.pc.CommittingVersion?
    ensures s.pc.CommitVersion? ==>
              || (t.pc == s.pc && t.disk.version == s.disk.version)
              || (t.pc.BootCheck? && t.disk.version == s.disk.version)
              || (t.pc == CommittingVersion(s.pc.pkg) && t.disk.version.Some?)
    ensures s.pc.CommittingVersion? ==>
              || (t.pc == s.pc && t.disk.version == s.disk.version)
              || (t.pc.BootCheck? && t.disk.version == s.disk.version)
              || (t.pc.Idle? && t.disk.version == Some(s.pc.pkg.version))
  {
  }

  lemma {:induction false} RunsKeepVersion(pf: Platform, run: seq<State>, i: nat)
    requires IsRun(pf, run) && !Writing(run[0].pc) && i < |run|
    ensures VersionInv(run, i)
  {
    if i > 0 {
      RunsKeepVersion(pf, run, i - 1);
      assert StepAt(pf, run, i);
      StepAndVersion(pf, run[i - 1], run[i]);
    }
  }

  /**
   VERSION in every run, from any start. It belongs to the package committed last as long as no restart fell
   between the HASH and the VERSION write of that commit. After a restart just before the VERSION write it is
   still what it was before the commit, so it is right exactly if the new package has that same version.
   */
  lemma VersionAtRest(pf: Platform, run: seq<State>, i: nat)
    requires IsRun(pf, run) && !Writing(run[0].pc)
    requires i < |run| && !Writing(run[i].pc)
    ensures CutSince(run, i) == NoCut ==> run[i].disk.version == CommittedVersion(run, i)
    ensures CutSince(run, i) == BeforeWrite ==>
              var c := LastCommit(run, i);
              && c > 0 && run[i].disk.version == run[c - 1].disk.version
              && (run[i].disk.version == CommittedVersion(run, i) <==>
                  run[c - 1].disk.version == Some(run[c].pc.pkg.version))
    ensures CutSince(run, i) == InsideWrite ==> LastCommit(run, i) > 0 && run[i].disk.version.Some?
  {
    RunsKeepVersion(pf, run, i);
  }

  // ----- Both cuts really occur -----

  /** An upload up to its commit, with VERSION still to be written. */
  lemma UploadToVersion(pf: Platform, s: State, pkg: Package) returns (run: seq<State>)
    requires Accepted(pf, pkg) && s.pc.Idle? && s.disk.app.Some?
    ensures IsRun(pf, run) && run[0] == s && |run| > 1 && Commits(run, |run| - 1)
    ensures Last(run).pc == CommitVersion(pkg) && Last(run).good == pkg.image
    ensures Last(run).disk == s.disk.(app := Some(pkg.image), backup := s.disk.app, hash := Some(pkg.hashText))
  {
    run := UploadToCommit(pf, s, pkg);
    if !pf.hashAtomic {
      run := Go(pf, run, Last(run).(disk := Last(run).disk.(hash := Some("")), pc := CommittingHash(pkg)));
    }
    var t := Last(run);
    var next := t.(disk := t.disk.(hash := Some(pkg.hashText)), good := pkg.image, pc := CommitVersion(pkg));
    Extend(pf, run, next);
    run := run + [next];
  }

  /** A restart of an idle-to-be state whose APP matches HASH: recovery is content at once. */
  lemma RestartContent(pf: Platform, run: seq<State>) returns (next: seq<State>)
    requires IsRun(pf, run) && |run| > 1 && Writing(Last(run).pc)
    requires Last(run).disk.metadata && Last(run).disk.app.Some? && !NeedsRestore(pf, Last(run).disk)
    ensures IsRun(pf, next) && run < next && |next| == |run| + 2
    ensures next[|run|].pc.BootCheck? && Last(next) == Last(run).(pc := Idle)
  {
    var boot, idle := Last(run).(pc := BootCheck), Last(run).(pc := Idle);
    Extend(pf, run, boot);
    Extend(pf, run + [boot], idle);
    next := run + [boot] + [idle];
  }

  /** The cut and the commit that a restart right after the steps `run` leaves behind. */
  lemma CutAfterRestart(run: seq<State>, c: nat, next: seq<State>)
    requires 0 < c < |run| && Commits(run, c) && Writing(Last(run).pc)
    requires forall k :: c < k < |run| ==> run[k].pc.CommittingVersion?
    requires run < next && |next| == |run| + 2 && next[|run|].pc.BootCheck? && Last(next).pc.Idle?
    ensures CutSince(next, |next| - 1) == if Last(run).pc.CommitVersion? then BeforeWrite else InsideWrite
    ensures LastCommit(next, |next| - 1) == c
  {
    var n := |run|;
    assert next[n - 1] == Last(run);
    CommitStays(run, next, c, n - 1);
    assert LastCommit(next, n) == c;
    assert CutAt(next, n) != NoCut;
    assert CutSince(next, n + 1) == CutSince(next, n);
  }

  lemma {:induction false} CommitStays(run: seq<State>, next: seq<State>, c: nat, k: nat)
    requires 0 < c <= k < |run| && Commits(run, c) && run < next
    requires forall j :: c < j < |run| ==> run[j].pc.CommittingVersion?
    ensures LastCommit(next, k) == c
  {
    assert next[c] == run[c] && next[c - 1] == run[c - 1];
    if k > c {
      assert next[k] == run[k];
      CommitStays(run, next, c, k - 1);
    }
  }

  /** Restarted before the VERSION write: the new image is committed, the old version is reported. */
  lemma VersionCanLag(pf: Platform, s: State, pkg: Package) returns (run: seq<State>)
    requires Accepted(pf, pkg) && Committed(pf, s)
    ensures IsRun(pf, run) && run[0] == s && Committed(pf, Last(run)) && Last(run).good == pkg.image
    ensures CutSince(run, |run| - 1) == BeforeWrite
    ensures CommittedVersion(run, |run| - 1) == Some(pkg.version) && Last(run).disk.version == s.disk.version
  {
    var a := UploadToVersion(pf, s, pkg);
    run := RestartContent(pf, a);
    CutAfterRestart(a, |a| - 1, run);
    assert run[|a| - 1] == Last(a);
  }

  /** Restarted inside the VERSION write: the new image is committed, any text at all may be reported. */
  lemma VersionCanBeAnything(pf: Platform, s: State, pkg: Package, text: string) returns (run: seq<State>)
    requires Accepted(pf, pkg) && Committed(pf, s)
    ensures IsRun(pf, run) && run[0] == s && Committed(pf, Last(run)) && Last(run).good == pkg.image
    ensures CutSince(run, |run| - 1) == InsideWrite
    ensures CommittedVersion(run, |run| - 1) == Some(pkg.version) && Last(run).disk.version == Some(text)
  {
    var a := UploadToVersion(pf, s, pkg);
    var c := |a| - 1;
    var t := Last(a).(disk := Last(a).disk.(version := Some(text)), pc := CommittingVersion(pkg));
    Extend(pf, a, t);
    var b := a + [t];
    run := RestartContent(pf, b);
    CutAfterRestart(b, c, run);
    assert run[c] == Last(a);
  }

  /**
   The exact condition, on the restarts alone: idle states with the given cut behind them report the version
   of the committed image in every run from a committed state if and only if there was no cut.
   */
  lemma VersionExactly(pf: Platform, s: State, cut: Cut)
    requires Committed(pf, s)
    ensures (forall run :: IsRun(pf, run) && run[0] == s && Last(run).pc.Idle? && CutSince(run, |run| - 1) == cut ==>
                             Last(run).disk.version == CommittedVersion(run, |run| - 1))
            <==> cut == NoCut
  {
    var version := if s.disk.version == Some("") then "0" else "";
    var pkg := Package([], pf.hash([]), version, true);
    match cut
    case NoCut =>
      forall run | IsRun(pf, run) && run[0] == s && Last(run).pc.Idle? && CutSince(run, |run| - 1) == cut
        ensures Last(run).disk.version == CommittedVersion(run, |run| - 1)
      {
        VersionAtRest(pf, run, |run| - 1);
      }
    case BeforeWrite =>
      var run := VersionCanLag(pf, s, pkg);
    case InsideWrite =>
      var run := VersionCanBeAnything(pf, s, pkg, if version == "" then "0" else "");
  }
}
