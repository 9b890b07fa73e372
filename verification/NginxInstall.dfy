/**
  The install over the configuration tree: plan every file, back up, write, validate, and
  restore the backups when validation fails. Disk and validator outcomes are arbitrary.
 */
module NginxInstall {
  import opened NginxFile
  import opened NginxRescan
  import opened NginxRepeat
  import opened NginxTree
  import opened NginxPlan
  import opened NginxRestore

  // ----- the install ----------------------------------------------------------------------------

  datatype Outcome = NoServerBlock | ForeignCert | AlreadyServed | WouldEdit | WriteFailed(at: nat)
                   | Installed | RestoredConfig | RestoreFailed

  datatype WriteResult = Done | Stopped(at: nat)

  /** The configuration files by path. */
  class ConfigTree {
    var files: Files

    /** Backs up and rewrites each file in turn; the first refused copy or write stops the loop. */
    method WriteAll(ps: seq<Pending>, copyOk: string -> bool, writeOk: string -> bool) returns (r: WriteResult)
      requires AllIn(ps, files)
      modifies this
      ensures r.Done? <==> WritesOk(ps, copyOk, writeOk, |ps|)
      ensures r.Done? ==> files == Written(old(files), ps)
      ensures r.Stopped? ==>
                && r.at < |ps| && WritesOk(ps, copyOk, writeOk, r.at)
                && !(copyOk(ps[r.at].path) && writeOk(ps[r.at].path))
                && files == StoppedAt(old(files), ps, r.at, copyOk(ps[r.at].path))
    {
      hide BackupOf, Written, WritesOk;
      var k := 0;
      NothingWritten(files);
      WritesNone(ps, copyOk, writeOk);
      assert ps[..0] == [];
      while k < |ps|
        invariant 0 <= k <= |ps| && files == Written(old(files), ps[..k])
        invariant WritesOk(ps, copyOk, writeOk, k)
      {
        var p := ps[k];
        WrittenPrefix(old(files), ps, k);
        WritesNext(ps, copyOk, writeOk, k);
        WritesFail(ps, copyOk, writeOk, k);
        if !copyOk(p.path) {
          return Stopped(k);
        }
        files := files[BackupOf(p.path) := files[p.path]];
        if !writeOk(p.path) {
          return Stopped(k);
        }
        files := files[p.path := p.text];
        k := k + 1;
      }
      assert ps[..k] == ps;
      return Done;
    }

    /** Copies every backup over its file; failures are remembered, and the loop goes on. */
    method RestoreAll(ps: seq<Pending>, readOk: string -> bool, writeOk: string -> bool) returns (failed: bool)
      requires Backed(ps, files)
      modifies this
      ensures !failed <==> WritesOk(ps, readOk, writeOk, |ps|)
      ensures files == RestoredWhere(old(files), ps, readOk, writeOk)
    {
      hide BackupOf, RestoredWhere, WritesOk, Backed;
      failed := false;
      ghost var start := files;
      NothingRestored(start, readOk, writeOk);
      WritesNone(ps, readOk, writeOk);
      assert ps[..0] == [];
      var k := 0;
      while k < |ps|
        invariant 0 <= k <= |ps| && Backed(ps[..k], start)
        invariant !failed <==> WritesOk(ps, readOk, writeOk, k)
        invariant files == RestoredWhere(start, ps[..k], readOk, writeOk)
      {
        RestoredWhereStep(start, ps, k, readOk, writeOk);
        WritesNext(ps, readOk, writeOk, k);
        var p := ps[k].path;
        if readOk(p) && writeOk(p) {
          files := files[p := files[BackupOf(p)]];
        } else {
          failed := true;
        }
        k := k + 1;
      }
      assert ps[..k] == ps;
    }

    /** Plan, back up, write, validate, restore on failure. */
    method Install(paths: seq<string>, job: Job, force: bool, dryRun: bool, copyOk: string -> bool, writeOk: string -> bool,
                   valid: bool, readBackOk: string -> bool, rewriteOk: string -> bool) returns (r: Outcome)
      requires (forall i :: 0 <= i < |paths| ==> paths[i] in files) && Ascending(paths)
      modifies this
      ensures r.NoServerBlock? <==> forall i: nat, k: nat :: !NamedBlock(old(files), paths, job.want, i, k)
      ensures r.ForeignCert? <==> !force && ServesOthers(old(files), paths, job.want, job.cert)
      ensures !force && (files != old(files) || r.WouldEdit?) ==>
                forall i: nat, k: nat :: NamedBlock(old(files), paths, job.want, i, k) ==>
                  CertsAt(old(files), paths, i, k) == [] || job.cert in CertsAt(old(files), paths, i, k)
      ensures r.NoServerBlock? <==> !AnyMatch(old(files), paths, job)
      ensures r.ForeignCert? <==> AnyMatch(old(files), paths, job) && !force && AnyForeign(old(files), paths, job)
      ensures
        var ps := Plans(old(files), paths, job);
        var cleared := AnyMatch(old(files), paths, job) && (force || !AnyForeign(old(files), paths, job));
        var writing := cleared && ps != [] && !dryRun;
        var written := writing && WritesOk(ps, copyOk, writeOk, |ps|);
        && (r.AlreadyServed? <==> cleared && ps == [])
        && (r.WouldEdit? <==> cleared && ps != [] && dryRun)
        && (r.WriteFailed? <==> writing && !WritesOk(ps, copyOk, writeOk, |ps|))
        && (r.Installed? <==> written && valid)
        && (r.RestoredConfig? <==> written && !valid && WritesOk(ps, readBackOk, rewriteOk, |ps|))
        && (r.RestoreFailed? <==> written && !valid && !WritesOk(ps, readBackOk, rewriteOk, |ps|))
      ensures r.NoServerBlock? || r.ForeignCert? || r.AlreadyServed? || r.WouldEdit? ==> files == old(files)
      ensures
        var ps := Plans(old(files), paths, job);
        && (r.Installed? ==> files == Written(old(files), ps))
        && (r.WriteFailed? ==>
              && r.at < |ps| && WritesOk(ps, copyOk, writeOk, r.at)
              && !(copyOk(ps[r.at].path) && writeOk(ps[r.at].path))
              && files == StoppedAt(old(files), ps, r.at, copyOk(ps[r.at].path)))
        && (r.RestoredConfig? ==>
              && AllIn(ps, old(files)) && Backed(ps, Written(old(files), ps))
              && files == Restored(Written(old(files), ps), ps) && Left(old(files), ps, files)
              && (AllBack(old(files), files, paths) <==> Coincide(old(files), ps) && NoneIdle(paths, ps))
              && (RegularTree(old(files), paths, job) ==> (AllBack(old(files), files, paths) <==> Apart(paths, ps))))
        && (r.RestoreFailed? ==>
              && Backed(ps, Written(old(files), ps))
              && files == RestoredWhere(Written(old(files), ps), ps, readBackOk, rewriteOk))
        && Frame(old(files), files, ps)
    {
      hide AnyMatch, AnyForeign, NamedBlock, CertsAt, ServesOthers, BackupOf, Written, Restored, RestoredWhere, StoppedAt, Plans, WritesOk, Frame, PathLess, Left, AllBack, Coincide, NoneIdle, Apart, RegularTree;
      var ps, matched, foreign := PlanAll(files, paths, job);
      NothingChanged(files, ps);
      OthersAreForeign(files, paths, job);
      if !matched {
        return NoServerBlock;
      }
      if foreign && !force {
        return ForeignCert;
      }
      if ps == [] {
        return AlreadyServed;
      }
      if dryRun {
        return WouldEdit;
      }
      PlansAscending(files, paths, job);
      AscendingBackups(ps);
      var w := WriteAll(ps, copyOk, writeOk);
      if w.Stopped? {
        StoppedFrame(old(files), ps, w.at, copyOk(ps[w.at].path));
        return WriteFailed(w.at);
      }
      WrittenFrame(old(files), ps);
      if valid {
        return Installed;
      }
      WrittenHasBackups(old(files), ps);
      var failed := RestoreAll(ps, readBackOk, rewriteOk);
      FailedRestoreFrame(old(files), ps, readBackOk, rewriteOk);
      if failed {
        return RestoreFailed;
      }
      AllRestored(Written(old(files), ps), ps, readBackOk, rewriteOk);
      RestoredExactly(old(files), ps);
      ScannedRestoredIff(old(files), paths, job);
      if RegularTree(old(files), paths, job) {
        RegularRestoredIff(old(files), paths, job);
      }
      return RestoredConfig;
    }
  }

  lemma OthersAreForeign(files: Files, paths: seq<string>, job: Job)
    ensures AnyMatch(files, paths, job) <==> exists i: nat, k: nat :: NamedBlock(files, paths, job.want, i, k)
    ensures AnyForeign(files, paths, job) <==> ServesOthers(files, paths, job.want, job.cert)
    ensures AnyForeign(files, paths, job) ==> AnyMatch(files, paths, job)
    ensures !ServesOthers(files, paths, job.want, job.cert) ==> forall i: nat, k: nat :: NamedBlock(files, paths, job.want, i, k) ==>
              CertsAt(files, paths, i, k) == [] || job.cert in CertsAt(files, paths, i, k)
  {
    hide AnyMatch, AnyForeign, NamedBlock, CertsAt;
    MatchIsNamed(files, paths, job);
    ForeignIsOthers(files, paths, job);
  }

  /** The first `n` files can be copied (or read back) and written. */
  ghost predicate WritesOk(ps: seq<Pending>, copyOk: string -> bool, writeOk: string -> bool, n: nat)
    requires n <= |ps|
  {
    forall i :: 0 <= i < n ==> copyOk(ps[i].path) && writeOk(ps[i].path)
  }

  lemma WritesNone(ps: seq<Pending>, copyOk: string -> bool, writeOk: string -> bool)
    ensures WritesOk(ps, copyOk, writeOk, 0)
  {
  }

  lemma WritesNext(ps: seq<Pending>, copyOk: string -> bool, writeOk: string -> bool, k: nat)
    requires k < |ps|
    ensures WritesOk(ps, copyOk, writeOk, k + 1) <==> WritesOk(ps, copyOk, writeOk, k) && copyOk(ps[k].path) && writeOk(ps[k].path)
  {
  }

  lemma WritesFail(ps: seq<Pending>, copyOk: string -> bool, writeOk: string -> bool, k: nat)
    requires k < |ps|
    ensures WritesOk(ps, copyOk, writeOk, |ps|) ==> copyOk(ps[k].path) && writeOk(ps[k].path)
  {
  }

  lemma NothingWritten(files: Files)
    ensures Written(files, []) == files
  {
  }

  lemma NothingRestored(files: Files, readOk: string -> bool, writeOk: string -> bool)
    ensures Backed([], files) && RestoredWhere(files, [], readOk, writeOk) == files
  {
  }

  lemma NothingChanged(files: Files, ps: seq<Pending>)
    ensures Frame(files, files, ps)
  {
  }

  lemma AllRestored(files: Files, ps: seq<Pending>, readOk: string -> bool, writeOk: string -> bool)
    requires Backed(ps, files) && WritesOk(ps, readOk, writeOk, |ps|)
    ensures RestoredWhere(files, ps, readOk, writeOk) == Restored(files, ps)
  {
    hide BackupOf, RestoredWhere, Restored;
    RestoredWhereAll(files, ps, readOk, writeOk);
  }

  // ----- the second install over the tree -------------------------------------------------------

  /** A scanned file that is not to be written is not the backup of one that is. */
  ghost predicate BackupsApart(files: Files, paths: seq<string>, job: Job, m: nat)
    requires (forall i :: 0 <= i < |paths| ==> paths[i] in files) && m < |paths|
  {
    forall i :: 0 <= i < |Plans(files, paths, job)| ==> paths[m] != BackupOf(Plans(files, paths, job)[i].path)
  }

  /** What the install left at a scanned path wants no edit: the file settled, or was left alone. */
  lemma {:induction false} AfterFile(files: Files, paths: seq<string>, job: Job, m: nat)
    requires (forall i :: 0 <= i < |paths| ==> paths[i] in files) && Ascending(paths) && m < |paths|
    requires Steady(job) && OnePath(job) && Sound(ToLines(files[paths[m]]), job)
    ensures
      var after := Written(files, Plans(files, paths, job));
      && paths[m] in after
      && (BlockEdits(after[paths[m]], job) == [] <==>
          if BlockEdits(files[paths[m]], job) == [] then BackupsApart(files, paths, job, m) else AllSettle(ToLines(files[paths[m]]), job))
  {
    hide Written, BlockEdits, NewText, BackupOf, Sound, Steady, OnePath, ToLines, AllSettle, Plans, PathLess;
    var ps, p := Plans(files, paths, job), paths[m];
    PlansAscending(files, paths, job);
    AscendingBackups(ps);
    AscendingDistinct(paths);
    if BlockEdits(files[p], job) == [] {
      PlansSkip(files, paths, job, m);
      if i :| 0 <= i < |ps| && p == BackupOf(ps[i].path) {
        BackupOrigin(files, ps, i);
        PlannedWants(files, paths, job, First(ps, i));
      } else {
        WrittenElsewhere(files, ps, p);
      }
    } else {
      var k := PlansHold(files, paths, job, m);
      WrittenText(files, ps, k);
      SecondInstallOfFile(files[p], job);
    }
  }

  /**
    After an install over the whole tree, planning again with the same certificate finds nothing
    to write, exactly when every edited block could hold its lines and no scanned file left alone
    was overwritten as a backup.
   */
  lemma {:induction false} SecondInstallPlansNothing(files: Files, paths: seq<string>, job: Job)
    requires (forall i :: 0 <= i < |paths| ==> paths[i] in files) && Ascending(paths)
    requires Steady(job) && OnePath(job) && forall i :: 0 <= i < |paths| ==> Sound(ToLines(files[paths[i]]), job)
    ensures
      var after := Written(files, Plans(files, paths, job));
      && (forall i :: 0 <= i < |paths| ==> paths[i] in after)
      && (Plans(after, paths, job) == [] <==> forall m :: 0 <= m < |paths| ==>
            if BlockEdits(files[paths[m]], job) == [] then BackupsApart(files, paths, job, m) else AllSettle(ToLines(files[paths[m]]), job))
  {
    hide Written, BlockEdits, NewText, BackupOf, Sound, Steady, OnePath, ToLines, AllSettle, Plans, PathLess, BackupsApart;
    var after := Written(files, Plans(files, paths, job));
    forall m | 0 <= m < |paths|
      ensures paths[m] in after
      ensures BlockEdits(after[paths[m]], job) == [] <==>
              if BlockEdits(files[paths[m]], job) == [] then BackupsApart(files, paths, job, m) else AllSettle(ToLines(files[paths[m]]), job)
    {
      AfterFile(files, paths, job, m);
    }
    NothingPlanned(after, paths, job);
  }
}
