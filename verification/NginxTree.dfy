/**
  The configuration tree during an install: backups, rewrites, and the restore that copies the
  backups back. What the restore undoes, exactly, and what a failure half-way leaves.
 */
module NginxTree {
  import opened Text

  type Files = map<string, string>

  // ----- backups --------------------------------------------------------------------------------

  const BACKUP := ".freens-pre"

  function BackupOf(path: string): string { path + BACKUP }

  /** A file whose name the scan does not pass over as backup litter is not the backup of any path. */
  lemma {:induction false} BackupsAreNotScanned(dir: string, name: string, other: string)
    requires !HasSuffix(name, ".freens-pre")
    ensures dir + "/" + name != BackupOf(other)
  {
    assert HasSuffix(BackupOf(other), BACKUP) by {
      assert BackupOf(other)[|other|..] == BACKUP;
    }
    SuffixOfName(dir, name);
  }

  lemma {:induction false} SuffixOfName(dir: string, name: string)
    ensures HasSuffix(dir + "/" + name, BACKUP) ==> HasSuffix(name, BACKUP)
  {
    var path := dir + "/" + name;
    if HasSuffix(path, BACKUP) {
      var n := |path| - |BACKUP|;
      assert forall k :: 0 <= k < |BACKUP| ==> path[n + k] == path[n..][k] == BACKUP[k];
      assert path[|dir|] == '/' && '/' !in BACKUP;
      assert n > |dir|;
      assert path[n..] == name[|name| - |BACKUP|..];
    }
  }

  /** One file to write: its path and new text. */
  datatype Pending = Pending(path: string, text: string)

  ghost predicate DistinctPaths(ps: seq<Pending>) {
    forall i, j :: 0 <= i < j < |ps| ==> ps[i].path != ps[j].path
  }

  lemma {:induction false} BackupInjective(a: string, b: string)
    ensures BackupOf(a) == BackupOf(b) <==> a == b
  {
    if BackupOf(a) == BackupOf(b) {
      assert |a| == |b|;
      assert BackupOf(a)[..|a|] == a && BackupOf(b)[..|b|] == b;
    }
  }

  function WriteOne(files: Files, p: Pending): Files
    requires p.path in files
  {
    files[BackupOf(p.path) := files[p.path]][p.path := p.text]
  }

  /** The tree after backing up and rewriting the files of `ps` in order. */
  function Written(files: Files, ps: seq<Pending>): (w: Files)
    requires forall i :: 0 <= i < |ps| ==> ps[i].path in files
    ensures files.Keys <= w.Keys
  {
    if ps == [] then files
    else
      var n := |ps| - 1;
      WriteOne(Written(files, ps[..n]), ps[n])
  }

  /** Every file to be written has its backup. */
  ghost predicate Backed(ps: seq<Pending>, files: Files) {
    forall i :: 0 <= i < |ps| ==> BackupOf(ps[i].path) in files
  }

  /** The tree after copying every backup over its file, in order. */
  ghost function Restored(files: Files, ps: seq<Pending>): (w: Files)
    requires Backed(ps, files)
    ensures files.Keys <= w.Keys
  {
    if ps == [] then files
    else
      var n := |ps| - 1;
      var before := Restored(files, ps[..n]);
      before[ps[n].path := before[BackupOf(ps[n].path)]]
  }

  lemma {:induction false} WrittenHasBackups(files: Files, ps: seq<Pending>)
    requires forall i :: 0 <= i < |ps| ==> ps[i].path in files
    ensures Backed(ps, Written(files, ps))
  {
    hide BackupOf;
    if ps != [] {
      WrittenHasBackups(files, ps[..|ps| - 1]);
    }
  }

  ghost predicate Untouched(q: string, ps: seq<Pending>) {
    forall i :: 0 <= i < |ps| ==> q != ps[i].path && q != BackupOf(ps[i].path)
  }

  lemma {:induction false} WrittenElsewhere(files: Files, ps: seq<Pending>, q: string)
    requires (forall i :: 0 <= i < |ps| ==> ps[i].path in files) && q in files && Untouched(q, ps)
    ensures Written(files, ps)[q] == files[q]
  {
    hide BackupOf;
    if ps != [] {
      WrittenElsewhere(files, ps[..|ps| - 1], q);
    }
  }

  lemma {:induction false} WrittenStep(files: Files, ps: seq<Pending>)
    requires ps != [] && forall j :: 0 <= j < |ps| ==> ps[j].path in files
    ensures
      var n := |ps| - 1;
      Written(files, ps) == WriteOne(Written(files, ps[..n]), ps[n])
  {
  }

  // ----- files that are each other's backups ----------------------------------------------------

  /** A written path that is another one's backup comes later, as it does in path order. */
  ghost predicate BackupsLater(ps: seq<Pending>) {
    forall i, j :: 0 <= i < |ps| && 0 <= j < |ps| && ps[j].path == BackupOf(ps[i].path) ==> i < j
  }

  ghost predicate AllIn(ps: seq<Pending>, files: Files) {
    forall i :: 0 <= i < |ps| ==> ps[i].path in files
  }

  /** A text stays where no later write puts another: neither that file nor one it backs up. */
  lemma {:induction false} WrittenStays(files: Files, ps: seq<Pending>, k: nat, q: string)
    requires AllIn(ps, files) && k <= |ps| && q in Written(files, ps[..k])
    requires forall i :: k <= i < |ps| ==> q != ps[i].path && q != BackupOf(ps[i].path)
    ensures q in Written(files, ps) && Written(files, ps)[q] == Written(files, ps[..k])[q]
    decreases |ps| - k
  {
    hide BackupOf, Written;
    if k < |ps| {
      var n := |ps| - 1;
      assert ps[..n][..k] == ps[..k];
      WrittenStays(files, ps[..n], k, q);
      WrittenStep(files, ps);
    } else {
      assert ps[..k] == ps;
    }
  }

  lemma {:induction false} WrittenPrefix(files: Files, ps: seq<Pending>, k: nat)
    requires AllIn(ps, files) && k < |ps|
    ensures Written(files, ps[..k + 1]) == WriteOne(Written(files, ps[..k]), ps[k])
  {
    hide BackupOf, Written;
    assert ps[..k + 1][..k] == ps[..k];
    WrittenStep(files, ps[..k + 1]);
  }

  /** After the writes every written file holds its new text. */
  lemma {:induction false} WrittenText(files: Files, ps: seq<Pending>, j: nat)
    requires DistinctPaths(ps) && AllIn(ps, files) && BackupsLater(ps) && j < |ps|
    ensures ps[j].path in Written(files, ps) && Written(files, ps)[ps[j].path] == ps[j].text
  {
    hide BackupOf, Written;
    WrittenPrefix(files, ps, j);
    WrittenStays(files, ps, j + 1, ps[j].path);
  }

  /** This path is among those to be written. */
  ghost predicate Planned(ps: seq<Pending>, q: string) { exists j :: 0 <= j < |ps| && ps[j].path == q }

  /** Following "is the backup of" down from file `i`: the first file of its chain. */
  ghost function First(ps: seq<Pending>, i: nat): (r: nat)
    requires i < |ps|
    ensures r < |ps|
    decreases |ps[i].path|
  {
    if exists h :: 0 <= h < |ps| && ps[i].path == BackupOf(ps[h].path) then
      var h :| 0 <= h < |ps| && ps[i].path == BackupOf(ps[h].path);
      First(ps, h)
    else i
  }

  lemma {:induction false} FirstUnfolds(ps: seq<Pending>, i: nat, h: nat)
    requires DistinctPaths(ps) && i < |ps| && h < |ps| && ps[i].path == BackupOf(ps[h].path)
    ensures First(ps, i) == First(ps, h)
  {
    hide BackupOf;
    forall g | 0 <= g < |ps| && ps[i].path == BackupOf(ps[g].path) ensures g == h {
      BackupInjective(ps[g].path, ps[h].path);
    }
  }

  lemma {:induction false} FirstItself(ps: seq<Pending>, i: nat)
    requires i < |ps| && forall h :: 0 <= h < |ps| ==> ps[i].path != BackupOf(ps[h].path)
    ensures First(ps, i) == i
  {
    hide BackupOf;
  }

  /** Just before it is written, a file holds the original text of the first file of its chain. */
  lemma {:induction false} TextBefore(files: Files, ps: seq<Pending>, k: nat)
    requires DistinctPaths(ps) && AllIn(ps, files) && BackupsLater(ps) && k < |ps|
    ensures Written(files, ps[..k])[ps[k].path] == files[ps[First(ps, k)].path]
    decreases k
  {
    hide BackupOf, Written, First;
    var p := ps[k].path;
    if h :| 0 <= h < |ps| && p == BackupOf(ps[h].path) {
      assert h < k;
      FirstUnfolds(ps, k, h);
      TextBefore(files, ps, h);
      WrittenPrefix(files, ps, h);
      assert p != ps[h].path;
      forall j | h + 1 <= j < k ensures p != BackupOf(ps[j].path) {
        BackupInjective(ps[h].path, ps[j].path);
      }
      assert ps[..k][..h + 1] == ps[..h + 1];
      WrittenStays(files, ps[..k], h + 1, p);
    } else {
      FirstItself(ps, k);
      WrittenElsewhere(files, ps[..k], p);
    }
  }

  /** A path that is only a backup ends up with the original text of the first file of its chain. */
  lemma {:induction false} BackupOrigin(files: Files, ps: seq<Pending>, i: nat)
    requires DistinctPaths(ps) && AllIn(ps, files) && BackupsLater(ps) && i < |ps| && !Planned(ps, BackupOf(ps[i].path))
    ensures BackupOf(ps[i].path) in Written(files, ps)
    ensures Written(files, ps)[BackupOf(ps[i].path)] == files[ps[First(ps, i)].path]
  {
    hide BackupOf, Written, First;
    TextBefore(files, ps, i);
    WrittenPrefix(files, ps, i);
    forall k | i + 1 <= k < |ps| ensures BackupOf(ps[i].path) != BackupOf(ps[k].path) {
      BackupInjective(ps[i].path, ps[k].path);
    }
    WrittenStays(files, ps, i + 1, BackupOf(ps[i].path));
  }

  /** After the writes a file that backs up an earlier one holds its new text. */
  lemma {:induction false} ClashText(files: Files, ps: seq<Pending>, i: nat, j: nat)
    requires DistinctPaths(ps) && AllIn(ps, files) && i < j < |ps| && ps[j].path == BackupOf(ps[i].path)
    ensures Written(files, ps)[ps[j].path] == ps[j].text
  {
    hide BackupOf, Written;
    WrittenPrefix(files, ps, j);
    forall k | j + 1 <= k < |ps| ensures ps[j].path != BackupOf(ps[k].path) {
      BackupInjective(ps[i].path, ps[k].path);
    }
    WrittenStays(files, ps, j + 1, ps[j].path);
  }

  /** The restore gives a file whatever its backup path holds, unless that path was restored before it. */
  lemma {:induction false} RestoredAt(files: Files, ps: seq<Pending>, i: nat)
    requires DistinctPaths(ps) && i < |ps| && Backed(ps, files)
    requires forall h :: 0 <= h < i ==> ps[h].path != BackupOf(ps[i].path)
    ensures ps[i].path in Restored(files, ps) && Restored(files, ps)[ps[i].path] == files[BackupOf(ps[i].path)]
  {
    hide BackupOf, Restored;
    RestoredStep(files, ps, i);
    RestoredElsewhere(files, ps[..i], BackupOf(ps[i].path));
    RestoredKept(files, ps, i + 1, ps[i].path);
  }

  lemma {:induction false} RestoredElsewhere(files: Files, ps: seq<Pending>, q: string)
    requires Backed(ps, files) && (forall i :: 0 <= i < |ps| ==> ps[i].path != q) && q in files
    ensures Restored(files, ps)[q] == files[q]
  {
    if ps != [] {
      RestoredElsewhere(files, ps[..|ps| - 1], q);
    }
  }

  lemma {:induction false} RestoredKept(files: Files, ps: seq<Pending>, k: nat, q: string)
    requires k <= |ps| && Backed(ps, files)
    requires q in Restored(files, ps[..k]) && forall i :: k <= i < |ps| ==> ps[i].path != q
    ensures q in Restored(files, ps) && Restored(files, ps)[q] == Restored(files, ps[..k])[q]
    decreases |ps| - k
  {
    hide BackupOf, Restored;
    if k < |ps| {
      var n := |ps| - 1;
      assert ps[..n][..k] == ps[..k] && ps[..n + 1] == ps;
      RestoredKept(files, ps[..n], k, q);
      RestoredStep(files, ps, n);
    } else {
      assert ps[..k] == ps;
    }
  }

  /** When a written file is the backup of an earlier one, the restore gives that one its new text. */
  lemma {:induction false} ClashLosesTheOriginal(files: Files, ps: seq<Pending>, i: nat, j: nat)
    requires DistinctPaths(ps) && AllIn(ps, files) && i < j < |ps| && ps[j].path == BackupOf(ps[i].path)
    ensures
      var w := Written(files, ps);
      && Backed(ps, w)
      && ps[i].path in Restored(w, ps) && Restored(w, ps)[ps[i].path] == ps[j].text
  {
    hide BackupOf, Written, Restored;
    WrittenHasBackups(files, ps);
    ClashText(files, ps, i, j);
    RestoredAt(Written(files, ps), ps, i);
  }

  /**
    What writing and restoring leave, at every path: a written file whose backup was written too
    gets that one's new text; any other written file, and its backup, get the original text of the
    first file of their chain; nothing else changes.
   */
  ghost predicate Left(files: Files, ps: seq<Pending>, r: Files)
    requires AllIn(ps, files)
  {
    && (forall i, j :: 0 <= i < |ps| && 0 <= j < |ps| && ps[j].path == BackupOf(ps[i].path) ==>
          ps[i].path in r && r[ps[i].path] == ps[j].text)
    && (forall i :: 0 <= i < |ps| && !Planned(ps, BackupOf(ps[i].path)) ==>
          && ps[i].path in r && r[ps[i].path] == files[ps[First(ps, i)].path]
          && BackupOf(ps[i].path) in r && r[BackupOf(ps[i].path)] == files[ps[First(ps, i)].path])
    && (forall q :: q in files && Untouched(q, ps) ==> q in r && r[q] == files[q])
  }

  lemma LaterBackup(ps: seq<Pending>, i: nat, j: nat)
    requires BackupsLater(ps) && i < |ps| && j < |ps| && ps[j].path == BackupOf(ps[i].path)
    ensures i < j
  {
  }

  lemma {:induction false} ChainRestored(files: Files, ps: seq<Pending>, i: nat)
    requires DistinctPaths(ps) && AllIn(ps, files) && BackupsLater(ps) && i < |ps| && !Planned(ps, BackupOf(ps[i].path))
    requires Backed(ps, Written(files, ps))
    ensures
      var r, text := Restored(Written(files, ps), ps), files[ps[First(ps, i)].path];
      && ps[i].path in r && r[ps[i].path] == text
      && BackupOf(ps[i].path) in r && r[BackupOf(ps[i].path)] == text
  {
    hide BackupOf, Written, Restored, First;
    BackupOrigin(files, ps, i);
    RestoredAt(Written(files, ps), ps, i);
    RestoredElsewhere(Written(files, ps), ps, BackupOf(ps[i].path));
  }

  lemma {:induction false} RestoredExactly(files: Files, ps: seq<Pending>)
    requires DistinctPaths(ps) && AllIn(ps, files) && BackupsLater(ps)
    ensures
      var w := Written(files, ps);
      Backed(ps, w) && Left(files, ps, Restored(w, ps))
  {
    hide BackupOf, Written, Restored, First, Backed, BackupsLater, DistinctPaths;
    WrittenHasBackups(files, ps);
    var w := Written(files, ps);
    forall i, j | 0 <= i < |ps| && 0 <= j < |ps| && ps[j].path == BackupOf(ps[i].path)
      ensures ps[i].path in Restored(w, ps) && Restored(w, ps)[ps[i].path] == ps[j].text
    {
      LaterBackup(ps, i, j);
      ClashLosesTheOriginal(files, ps, i, j);
    }
    forall i | 0 <= i < |ps| && !Planned(ps, BackupOf(ps[i].path))
      ensures ps[i].path in Restored(w, ps) && Restored(w, ps)[ps[i].path] == files[ps[First(ps, i)].path]
      ensures BackupOf(ps[i].path) in Restored(w, ps) && Restored(w, ps)[BackupOf(ps[i].path)] == files[ps[First(ps, i)].path]
    {
      ChainRestored(files, ps, i);
    }
    forall q | q in files && Untouched(q, ps) ensures q in Restored(w, ps) && Restored(w, ps)[q] == files[q] {
      WrittenElsewhere(files, ps, q);
      RestoredElsewhere(w, ps, q);
    }
  }

  ghost predicate AllThere(paths: seq<string>, files: Files) { forall m :: 0 <= m < |paths| ==> paths[m] in files }

  /** Every one of these paths has its old text. */
  ghost predicate AllBack(before: Files, after: Files, paths: seq<string>) {
    forall m :: 0 <= m < |paths| && paths[m] in before ==> paths[m] in after && after[paths[m]] == before[paths[m]]
  }

  /** The texts of each chain of backups happen to coincide so that the restore puts them back. */
  ghost predicate Coincide(files: Files, ps: seq<Pending>)
    requires AllIn(ps, files)
  {
    && (forall i, j :: 0 <= i < |ps| && 0 <= j < |ps| && ps[j].path == BackupOf(ps[i].path) ==> ps[j].text == files[ps[i].path])
    && (forall i :: 0 <= i < |ps| && !Planned(ps, BackupOf(ps[i].path)) ==> files[ps[First(ps, i)].path] == files[ps[i].path])
  }

  /** A watched path that is the backup of a written file, and is not written itself, holds the text the chain starts with. */
  ghost predicate BackupsAlike(files: Files, paths: seq<string>, ps: seq<Pending>)
    requires AllIn(ps, files) && AllThere(paths, files)
  {
    forall i, m :: 0 <= i < |ps| && 0 <= m < |paths| && paths[m] == BackupOf(ps[i].path) && !Planned(ps, paths[m]) ==>
      files[paths[m]] == files[ps[First(ps, i)].path]
  }

  /** All watched files, backups among them included, have their original text after a restore exactly under these two conditions. */
  lemma {:induction false} RestoreUndoesWrite(files: Files, paths: seq<string>, ps: seq<Pending>)
    requires DistinctPaths(ps) && AllIn(ps, files) && BackupsLater(ps) && AllThere(paths, files)
    requires forall i :: 0 <= i < |ps| ==> ps[i].path in paths
    ensures
      var w := Written(files, ps);
      && Backed(ps, w)
      && (AllBack(files, Restored(w, ps), paths) <==> Coincide(files, ps) && BackupsAlike(files, paths, ps))
  {
    hide BackupOf, Written, Restored, Left, Coincide, BackupsAlike;
    RestoredExactly(files, ps);
    var r := Restored(Written(files, ps), ps);
    if Coincide(files, ps) && BackupsAlike(files, paths, ps) {
      forall m | 0 <= m < |paths| ensures paths[m] in r && r[paths[m]] == files[paths[m]] {
        WatchedBack(files, paths, ps, r, m);
      }
    }
    if AllBack(files, r, paths) {
      PlannedBack(files, paths, ps, r);
    }
  }

  lemma {:induction false} WatchedBack(files: Files, paths: seq<string>, ps: seq<Pending>, r: Files, m: nat)
    requires AllIn(ps, files) && AllThere(paths, files) && Left(files, ps, r) && m < |paths|
    requires Coincide(files, ps) && BackupsAlike(files, paths, ps)
    ensures paths[m] in r && r[paths[m]] == files[paths[m]]
  {
    hide BackupOf, First;
    var q := paths[m];
    if i :| 0 <= i < |ps| && ps[i].path == q {
      if j :| 0 <= j < |ps| && ps[j].path == BackupOf(ps[i].path) {
        assert r[q] == ps[j].text;
      } else {
        assert !Planned(ps, BackupOf(ps[i].path));
      }
    } else if i :| 0 <= i < |ps| && q == BackupOf(ps[i].path) {
      assert !Planned(ps, BackupOf(ps[i].path));
    } else {
      assert Untouched(q, ps);
    }
  }

  lemma {:induction false} PlannedBack(files: Files, paths: seq<string>, ps: seq<Pending>, r: Files)
    requires AllIn(ps, files) && AllThere(paths, files) && Left(files, ps, r) && AllBack(files, r, paths)
    requires forall i :: 0 <= i < |ps| ==> ps[i].path in paths
    ensures Coincide(files, ps) && BackupsAlike(files, paths, ps)
  {
    hide BackupOf, First;
    forall i | 0 <= i < |ps| ensures ps[i].path in r && r[ps[i].path] == files[ps[i].path] {
      assert ps[i].path in paths;
      var m :| 0 <= m < |paths| && paths[m] == ps[i].path;
    }
  }

  // ----- path order -----------------------------------------------------------------------------

  /** Byte order of paths. */
  predicate PathLess(a: string, b: string) {
    if b == [] then false
    else if a == [] then true
    else if a[0] != b[0] then a[0] < b[0]
    else PathLess(a[1..], b[1..])
  }

  lemma {:induction false} PathLessAsymmetric(a: string, b: string)
    ensures !(PathLess(a, b) && PathLess(b, a)) && !PathLess(a, a)
  {
    if a != [] {
      PathLessAsymmetric(a[1..], if b == [] then [] else b[1..]);
    }
  }

  lemma {:induction false} BackupAfter(a: string, b: string)
    requires b != ""
    ensures PathLess(a, a + b)
  {
    if a == [] {
      assert a + b == b;
    } else {
      assert (a + b)[1..] == a[1..] + b;
      BackupAfter(a[1..], b);
    }
  }

  /** The first difference decides. */
  lemma {:induction false} FirstDifference(common: string, c: char, x: string, d: char, y: string)
    requires c != d
    ensures PathLess(common + [c] + x, common + [d] + y) <==> c < d
  {
    var a, b := common + [c] + x, common + [d] + y;
    if common != [] {
      assert a[0] == b[0] == common[0];
      assert a[1..] == common[1..] + [c] + x && b[1..] == common[1..] + [d] + y;
      FirstDifference(common[1..], c, x, d, y);
    }
  }

  ghost predicate Ascending(paths: seq<string>) {
    forall i, j :: 0 <= i < j < |paths| ==> PathLess(paths[i], paths[j])
  }

  ghost predicate Distinct(paths: seq<string>) {
    forall i, j :: 0 <= i < j < |paths| ==> paths[i] != paths[j]
  }

  lemma AscendingDistinct(paths: seq<string>)
    requires Ascending(paths)
    ensures Distinct(paths)
  {
    hide PathLess;
    forall i, j | 0 <= i < j < |paths| ensures paths[i] != paths[j] {
      PathLessAsymmetric(paths[i], paths[j]);
    }
  }

  /** In path order a backup's path comes after the path it backs up. */
  lemma {:induction false} AscendingBackups(ps: seq<Pending>)
    requires forall i, j :: 0 <= i < j < |ps| ==> PathLess(ps[i].path, ps[j].path)
    ensures DistinctPaths(ps) && BackupsLater(ps)
  {
    hide PathLess;
    forall i, j | 0 <= i < |ps| && 0 <= j < |ps| && ps[j].path == BackupOf(ps[i].path) ensures i < j {
      BackupAfter(ps[i].path, BACKUP);
      PathLessAsymmetric(ps[i].path, ps[j].path);
    }
    forall i, j | 0 <= i < j < |ps| ensures ps[i].path != ps[j].path {
      PathLessAsymmetric(ps[i].path, ps[j].path);
    }
  }

  // ----- what a failure leaves ------------------------------------------------------------------

  /** The tree when file `k` could not be backed up, or was backed up and could not be written. */
  function StoppedAt(files: Files, ps: seq<Pending>, k: nat, copied: bool): Files
    requires AllIn(ps, files) && k < |ps|
  {
    var w := Written(files, ps[..k]);
    if copied then w[BackupOf(ps[k].path) := w[ps[k].path]] else w
  }

  /** The restore when some backups cannot be read or some files not be written: those are skipped. */
  ghost function RestoredWhere(files: Files, ps: seq<Pending>, readOk: string -> bool, writeOk: string -> bool): (w: Files)
    requires Backed(ps, files)
    ensures files.Keys <= w.Keys
  {
    if ps == [] then files
    else
      var n := |ps| - 1;
      var before := RestoredWhere(files, ps[..n], readOk, writeOk);
      if readOk(ps[n].path) && writeOk(ps[n].path) then before[ps[n].path := before[BackupOf(ps[n].path)]] else before
  }

  lemma {:induction false} RestoredWhereAll(files: Files, ps: seq<Pending>, readOk: string -> bool, writeOk: string -> bool)
    requires Backed(ps, files) && forall i :: 0 <= i < |ps| ==> readOk(ps[i].path) && writeOk(ps[i].path)
    ensures RestoredWhere(files, ps, readOk, writeOk) == Restored(files, ps)
  {
    hide BackupOf;
    if ps != [] {
      RestoredWhereAll(files, ps[..|ps| - 1], readOk, writeOk);
    }
  }

  lemma {:induction false} RestoredWhereStep(files: Files, ps: seq<Pending>, k: nat, readOk: string -> bool, writeOk: string -> bool)
    requires k < |ps| && Backed(ps, files)
    ensures
      && Backed(ps[..k], files) && Backed(ps[..k + 1], files)
      && var before, p := RestoredWhere(files, ps[..k], readOk, writeOk), ps[k].path;
      && BackupOf(p) in before
      && RestoredWhere(files, ps[..k + 1], readOk, writeOk) ==
         if readOk(p) && writeOk(p) then before[p := before[BackupOf(p)]] else before
  {
    assert ps[..k + 1][..k] == ps[..k];
  }

  /** Files that are neither written nor backups of written ones keep their text. */
  ghost predicate Frame(before: Files, after: Files, ps: seq<Pending>) {
    forall q :: q in before && Untouched(q, ps) ==> q in after && after[q] == before[q]
  }

  lemma {:induction false} WrittenFrame(files: Files, ps: seq<Pending>)
    requires AllIn(ps, files)
    ensures Frame(files, Written(files, ps), ps)
  {
    hide BackupOf, Written;
    forall q | q in files && Untouched(q, ps) ensures Written(files, ps)[q] == files[q] {
      WrittenElsewhere(files, ps, q);
    }
  }

  lemma {:induction false} StoppedFrame(files: Files, ps: seq<Pending>, k: nat, copied: bool)
    requires AllIn(ps, files) && k < |ps|
    ensures Frame(files, StoppedAt(files, ps, k, copied), ps)
  {
    hide BackupOf, Written;
    forall q | q in files && Untouched(q, ps) ensures StoppedAt(files, ps, k, copied)[q] == files[q] {
      WrittenElsewhere(files, ps[..k], q);
      assert q != BackupOf(ps[k].path);
    }
  }

  lemma {:induction false} RestoredFrame(files: Files, ps: seq<Pending>, readOk: string -> bool, writeOk: string -> bool, q: string)
    requires Backed(ps, files) && q in files
    requires forall i :: 0 <= i < |ps| ==> q != ps[i].path
    ensures RestoredWhere(files, ps, readOk, writeOk)[q] == files[q]
  {
    hide BackupOf;
    if ps != [] {
      RestoredFrame(files, ps[..|ps| - 1], readOk, writeOk, q);
    }
  }

  lemma {:induction false} FailedRestoreFrame(files: Files, ps: seq<Pending>, readOk: string -> bool, writeOk: string -> bool)
    requires AllIn(ps, files)
    ensures
      var w := Written(files, ps);
      && Backed(ps, w)
      && Frame(files, RestoredWhere(w, ps, readOk, writeOk), ps)
  {
    hide BackupOf, Written, RestoredWhere;
    WrittenHasBackups(files, ps);
    var w := Written(files, ps);
    forall q | q in files && Untouched(q, ps) ensures RestoredWhere(w, ps, readOk, writeOk)[q] == files[q] {
      WrittenElsewhere(files, ps, q);
      RestoredFrame(w, ps, readOk, writeOk, q);
    }
  }

  lemma {:induction false} RestoredStep(files: Files, ps: seq<Pending>, k: nat)
    requires k < |ps| && Backed(ps, files)
    ensures
      var before, b := Restored(files, ps[..k]), BackupOf(ps[k].path);
      b in before && Restored(files, ps[..k + 1]) == before[ps[k].path := before[b]]
  {
    assert ps[..k + 1][..k] == ps[..k];
  }
}
