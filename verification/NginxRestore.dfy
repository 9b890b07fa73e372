/**
  When a failed install puts every scanned file back: what the restore does to files that are
  each other's backups, and that texts written by the installer never coincide around a chain.
 */
module NginxRestore {
  import opened Text
  import opened NginxLines
  import opened NginxScan
  import opened NginxFile
  import opened NginxRescan
  import opened NginxRepeat
  import opened NginxTree
  import opened NginxPlan

  // ----- growth of file text --------------------------------------------------------------------

  /** The certificate's path reads back, the key's is neutral and one line, and edited blocks stay closed. */
  ghost predicate RegularText(raw: string, job: Job) {
    PlainPath(job.cert) && NeutralPath(job.key) && '\n' !in job.key && Sound(ToLines(raw), job)
  }

  lemma RegularPaths(raw: string, job: Job)
    requires RegularText(raw, job)
    ensures Steady(job) && OnePath(job)
  {
    hide ToLines, Sound;
    PathOneLine(job.cert);
  }

  lemma PathOneLine(p: string)
    requires PlainPath(p)
    ensures '\n' !in p
  {
    hide StripComment, Balance, Unquote;
    assert IsSpace('\n');
  }

  /** Lines that read back as installed ones: wanted blocks have no certificate line. */
  lemma {:induction false} ReadBackClear(ls: seq<Line>, ms: seq<Line>, job: Job)
    requires Regular(ls, job) && PlainPath(job.cert) && AllAlike(Installed(ls, job), ms)
    ensures Inside(Scan(ms), |ms|)
    ensures forall b, i :: 0 <= b < |Scan(ms)| && Scan(ms)[b].first <= i <= Scan(ms)[b].last && Wants(Region(ms, Scan(ms)[b]), job) ==> !IsCert(ms[i])
  {
    hide ScanFrom, Installed, Wants, Read, PlainPath, Sound, Steady, IsCert, Alike;
    var n := Installed(ls, job);
    AlikeEdits(n, ms, job);
    forall b, i | 0 <= b < |Scan(ms)| && Scan(ms)[b].first <= i <= Scan(ms)[b].last && Wants(Region(ms, Scan(ms)[b]), job)
      ensures !IsCert(ms[i])
    {
      AlikeWants(Region(n, Scan(n)[b]), Region(ms, Scan(n)[b]), job);
      WantedIsClear(ls, job, b, i);
      assert Alike(n[i], ms[i]);
      AlikeCert(n[i], ms[i]);
    }
  }

  lemma AlikeCert(a: Line, b: Line)
    requires Alike(a, b)
    ensures IsCert(a) <==> IsCert(b)
  {
  }

  /** A file the installer wrote and still wants to edit has more lines after the next install. */
  lemma {:induction false} WrittenGrows(raw: string, job: Job)
    requires RegularText(raw, job) && BlockEdits(NewText(raw, job), job) != []
    ensures
      var x := NewText(raw, job);
      |ToLines(NewText(x, job))| > |ToLines(x)|
  {
    hide ScanFrom, Installed, Wants, EditsFor, Read, Render, ToLines, Sound, Steady, AllAlike, PlainPath, IsCert;
    RegularPaths(raw, job);
    var ls, x := ToLines(raw), NewText(raw, job);
    var ms := ToLines(x);
    ToLinesFaithful(raw);
    ToLinesFaithful(x);
    InstalledReadsBack(ls, job);
    ReadBackClear(ls, ms, job);
    NoEditsIffNoneWanted(ms, Scan(ms), job);
    var k :| 0 <= k < |Scan(ms)| && Wants(Region(ms, Scan(ms)[k]), job);
    ClearGrows(ms, job, k);
    InstalledReadsBack(ms, job);
    SameLength(Installed(ms, job), ToLines(NewText(x, job)));
  }

  lemma SameLength(a: seq<Line>, b: seq<Line>)
    requires AllAlike(a, b)
    ensures |a| == |b|
  {
  }

  lemma {:induction false} InstalledReadsBack(ls: seq<Line>, job: Job)
    requires Faithful(ls) && ls != [] && OneLine(ls) && OnePath(job)
    ensures AllAlike(Installed(ls, job), ToLines(Render(Installed(ls, job))))
  {
    hide Installed, Read, Render, ToLines, AllAlike, OnePath;
    InstalledOneLine(ls, job);
    InstalledNonEmpty(ls, job);
    InstalledFaithful(ls, job);
    ReadBack(Installed(ls, job));
  }

  // ----- chains of backups ----------------------------------------------------------------------

  /** Every file to be written is to get the installer's text, wants it, and reads regularly. */
  ghost predicate Proper(files: Files, ps: seq<Pending>, job: Job) {
    && AllIn(ps, files) && DistinctPaths(ps) && BackupsLater(ps)
    && forall i :: 0 <= i < |ps| ==> ProperAt(files, ps[i], job)
  }

  ghost predicate ProperAt(files: Files, p: Pending, job: Job)
    requires p.path in files
  {
    p.text == NewText(files[p.path], job) && BlockEdits(files[p.path], job) != [] && RegularText(files[p.path], job)
  }

  ghost predicate IsBackup(ps: seq<Pending>, i: nat)
    requires i < |ps|
  {
    exists h :: 0 <= h < |ps| && ps[i].path == BackupOf(ps[h].path)
  }

  lemma {:induction false} FirstHasBackup(ps: seq<Pending>, i: nat) returns (s: nat)
    requires DistinctPaths(ps) && i < |ps| && IsBackup(ps, i)
    ensures s < |ps| && ps[s].path == BackupOf(ps[First(ps, i)].path)
    decreases |ps[i].path|
  {
    hide First;
    var h :| 0 <= h < |ps| && ps[i].path == BackupOf(ps[h].path);
    FirstUnfolds(ps, i, h);
    if IsBackup(ps, h) {
      s := FirstHasBackup(ps, h);
    } else {
      FirstItself(ps, h);
      s := i;
    }
  }

  /** Under coinciding texts every file of a chain holds what the installer makes of another. */
  lemma {:induction false} ChainImage(files: Files, ps: seq<Pending>, job: Job, i: nat) returns (s: nat)
    requires Proper(files, ps, job) && Coincide(files, ps) && i < |ps| && IsBackup(ps, i)
    ensures s < |ps| && files[ps[i].path] == NewText(files[ps[s].path], job)
  {
    hide First, BackupOf, NewText, BlockEdits, RegularText;
    if j :| 0 <= j < |ps| && ps[j].path == BackupOf(ps[i].path) {
      s := j;
    } else {
      s := FirstHasBackup(ps, i);
    }
    assert ProperAt(files, ps[s], job);
  }

  /** Then each file of a chain has more lines than its backup. */
  lemma {:induction false} LinkGrows(files: Files, ps: seq<Pending>, job: Job, h: nat, i: nat)
    requires Proper(files, ps, job) && Coincide(files, ps) && h < |ps| && i < |ps| && ps[i].path == BackupOf(ps[h].path)
    ensures |ToLines(files[ps[h].path])| > |ToLines(files[ps[i].path])|
  {
    hide First, BackupOf, NewText, BlockEdits, RegularText, ToLines;
    var s := ChainImage(files, ps, job, i);
    assert ProperAt(files, ps[s], job) && ProperAt(files, ps[i], job);
    WrittenGrows(files[ps[s].path], job);
  }

  lemma {:induction false} ChainGrows(files: Files, ps: seq<Pending>, job: Job, i: nat)
    requires Proper(files, ps, job) && Coincide(files, ps) && i < |ps| && IsBackup(ps, i)
    ensures |ToLines(files[ps[First(ps, i)].path])| > |ToLines(files[ps[i].path])|
    decreases |ps[i].path|
  {
    hide First, NewText, BlockEdits, RegularText, ToLines, Coincide, Proper;
    assert DistinctPaths(ps) by { ProperDistinct(files, ps, job); }
    var h :| 0 <= h < |ps| && ps[i].path == BackupOf(ps[h].path);
    FirstUnfolds(ps, i, h);
    LinkGrows(files, ps, job, h, i);
    if IsBackup(ps, h) {
      ChainGrows(files, ps, job, h);
    } else {
      FirstItself(ps, h);
    }
  }

  lemma ProperDistinct(files: Files, ps: seq<Pending>, job: Job)
    requires Proper(files, ps, job)
    ensures DistinctPaths(ps) && BackupsLater(ps) && AllIn(ps, files)
  {
  }

  /** The last file of a chain. */
  lemma {:induction false} ChainEnd(ps: seq<Pending>, j: nat) returns (e: nat)
    requires BackupsLater(ps) && j < |ps| && IsBackup(ps, j)
    ensures e < |ps| && IsBackup(ps, e) && !Planned(ps, BackupOf(ps[e].path))
    decreases |ps| - j
  {
    hide BackupOf;
    if k :| 0 <= k < |ps| && ps[k].path == BackupOf(ps[j].path) {
      e := ChainEnd(ps, k);
    } else {
      e := j;
    }
  }

  /** Around a chain the texts never coincide: a file would have to be longer than itself. */
  lemma {:induction false} NoCoincidence(files: Files, ps: seq<Pending>, job: Job)
    requires Proper(files, ps, job) && Coincide(files, ps)
    ensures forall i :: 0 <= i < |ps| ==> !IsBackup(ps, i)
  {
    hide First, NewText, BlockEdits, RegularText, ToLines, Proper;
    ProperDistinct(files, ps, job);
    forall i | 0 <= i < |ps| ensures !IsBackup(ps, i) {
      if IsBackup(ps, i) {
        var e := ChainEnd(ps, i);
        ChainGrows(files, ps, job, e);
        assert false;
      }
    }
  }

  // ----- the scanned tree -----------------------------------------------------------------------

  /** Every scanned file that backs up a planned one is planned itself. */
  ghost predicate NoneIdle(paths: seq<string>, ps: seq<Pending>) {
    forall i, m :: 0 <= i < |ps| && 0 <= m < |paths| && paths[m] == BackupOf(ps[i].path) ==> Planned(ps, paths[m])
  }

  /** No scanned file is the backup of a planned one. */
  ghost predicate Apart(paths: seq<string>, ps: seq<Pending>) {
    forall i, m :: 0 <= i < |ps| && 0 <= m < |paths| ==> paths[m] != BackupOf(ps[i].path)
  }

  /** Every scanned file reads regularly. */
  ghost predicate RegularTree(files: Files, paths: seq<string>, job: Job)
    requires AllThere(paths, files)
  {
    forall m :: 0 <= m < |paths| ==> RegularText(files[paths[m]], job)
  }

  /**
    After writing and restoring, every scanned file has its original text exactly when each one
    that backs up a planned file is planned too and the texts around every chain coincide.
   */
  lemma {:induction false} ScannedRestoredIff(files: Files, paths: seq<string>, job: Job)
    requires AllThere(paths, files) && Ascending(paths)
    ensures
      var ps := Plans(files, paths, job);
      var w := Written(files, ps);
      && AllIn(ps, files) && Backed(ps, w)
      && (AllBack(files, Restored(w, ps), paths) <==> Coincide(files, ps) && NoneIdle(paths, ps))
  {
    hide BackupOf, Written, Restored, First, Plans, PathLess, BlockEdits, NewText, AllBack, Coincide;
    var ps := Plans(files, paths, job);
    PlansAscending(files, paths, job);
    AscendingBackups(ps);
    AscendingDistinct(paths);
    RestoreUndoesWrite(files, paths, ps);
    forall i, m | 0 <= i < |ps| && 0 <= m < |paths| && paths[m] == BackupOf(ps[i].path) && !Planned(ps, paths[m])
      ensures files[paths[m]] != files[ps[First(ps, i)].path]
    {
      IdleDiffers(files, paths, job, m, First(ps, i));
    }
  }

  /** A scanned file that is not planned differs from every planned one. */
  lemma {:induction false} IdleDiffers(files: Files, paths: seq<string>, job: Job, m: nat, r: nat)
    requires AllThere(paths, files) && Distinct(paths) && m < |paths| && r < |Plans(files, paths, job)|
    requires !Planned(Plans(files, paths, job), paths[m])
    ensures files[paths[m]] != files[Plans(files, paths, job)[r].path]
  {
    hide Plans, BlockEdits, NewText;
    PlannedWants(files, paths, job, r);
    if BlockEdits(files[paths[m]], job) != [] {
      var k := PlansHold(files, paths, job, m);
    }
  }

  /** In a regular tree: exactly when no scanned file is the backup of a planned one. */
  lemma {:induction false} RegularRestoredIff(files: Files, paths: seq<string>, job: Job)
    requires AllThere(paths, files) && Ascending(paths) && RegularTree(files, paths, job)
    ensures
      var ps := Plans(files, paths, job);
      && AllIn(ps, files)
      && (Coincide(files, ps) && NoneIdle(paths, ps) <==> Apart(paths, ps))
  {
    hide BackupOf, First, Plans, PathLess, BlockEdits, NewText, RegularText, Coincide;
    var ps := Plans(files, paths, job);
    PlansAscending(files, paths, job);
    AscendingBackups(ps);
    forall i | 0 <= i < |ps| ensures ProperAt(files, ps[i], job) {
      PlannedWants(files, paths, job, i);
      assert ps[i].path in paths;
      var m :| 0 <= m < |paths| && paths[m] == ps[i].path;
    }
    if Coincide(files, ps) && NoneIdle(paths, ps) {
      NoCoincidence(files, ps, job);
      BackupsUnplanned(ps);
    }
    if Apart(paths, ps) {
      ApartCoincides(files, paths, ps);
    }
  }

  lemma BackupsUnplanned(ps: seq<Pending>)
    requires forall i :: 0 <= i < |ps| ==> !IsBackup(ps, i)
    ensures forall i :: 0 <= i < |ps| ==> !Planned(ps, BackupOf(ps[i].path))
  {
    hide BackupOf;
    forall i | 0 <= i < |ps| ensures !Planned(ps, BackupOf(ps[i].path)) {
      assert forall j :: 0 <= j < |ps| && ps[j].path == BackupOf(ps[i].path) ==> IsBackup(ps, j);
    }
  }

  lemma {:induction false} ApartCoincides(files: Files, paths: seq<string>, ps: seq<Pending>)
    requires AllIn(ps, files) && Apart(paths, ps) && forall i :: 0 <= i < |ps| ==> ps[i].path in paths
    ensures Coincide(files, ps)
  {
    hide BackupOf, First;
    forall i, h | 0 <= i < |ps| && 0 <= h < |ps| ensures ps[i].path != BackupOf(ps[h].path) {
      assert ps[i].path in paths;
      var m :| 0 <= m < |paths| && paths[m] == ps[i].path;
    }
    forall i | 0 <= i < |ps| ensures First(ps, i) == i {
      FirstItself(ps, i);
    }
  }
}
