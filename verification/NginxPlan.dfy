/**
  Planning an install: file text to lines and back, what each file of the tree is to become, and
  what a second plan makes of a written file.
 */
module NginxPlan {
  import opened Bytes
  import opened Text
  import opened NginxLines
  import opened NginxScan
  import opened NginxRebuild
  import opened NginxEdit
  import opened NginxSplice
  import opened NginxFile
  import opened NginxRescan
  import opened NginxRepeat
  import opened NginxTree

  // ----- file text ------------------------------------------------------------------------------

  function NormalizeBreaks(s: string): string {
    if s == [] then []
    else if |s| >= 2 && s[0] == '\r' && s[1] == '\n' then "\n" + NormalizeBreaks(s[2..])
    else [s[0]] + NormalizeBreaks(s[1..])
  }

  function Split(s: string): (parts: seq<string>)
    ensures parts != []
  {
    if s == [] then [""]
    else
      var rest := Split(s[1..]);
      if s[0] == '\n' then [""] + rest else [[s[0]] + rest[0]] + rest[1..]
  }

  function ReadAll(texts: seq<string>): (ls: seq<Line>)
    ensures |ls| == |texts| && forall i :: 0 <= i < |ls| ==> ls[i] == Read(texts[i])
  {
    seq(|texts|, i requires 0 <= i < |texts| => Read(texts[i]))
  }

  function ToLines(raw: string): seq<Line> { ReadAll(Split(NormalizeBreaks(raw))) }

  function Render(ls: seq<Line>): string {
    if ls == [] then "" else if |ls| == 1 then ls[0].text else ls[0].text + "\n" + Render(ls[1..])
  }

  ghost predicate OneLine(ls: seq<Line>) { forall i :: 0 <= i < |ls| ==> '\n' !in ls[i].text }

  lemma {:induction false} ToLinesFaithful(raw: string)
    ensures Faithful(ToLines(raw)) && ToLines(raw) != [] && OneLine(ToLines(raw))
  {
    hide Read;
    var texts := Split(NormalizeBreaks(raw));
    SplitOneLine(NormalizeBreaks(raw));
    forall i | 0 <= i < |texts| ensures ToLines(raw)[i] == Read(ToLines(raw)[i].text) && '\n' !in ToLines(raw)[i].text {
      ReadKeepsText(texts[i]);
    }
  }

  lemma {:induction false} SplitOneLine(s: string)
    ensures forall i :: 0 <= i < |Split(s)| ==> '\n' !in Split(s)[i]
  {
    if s != [] {
      SplitOneLine(s[1..]);
    }
  }

  lemma {:induction false} SplitLine(t: string, rest: string)
    requires '\n' !in t
    ensures Split(t + "\n" + rest) == [t] + Split(rest)
    ensures Split(t) == [t]
  {
    if t == [] {
      assert t + "\n" + rest == "\n" + rest;
      assert ("\n" + rest)[1..] == rest;
    } else {
      SplitLine(t[1..], rest);
      assert (t + "\n" + rest)[1..] == t[1..] + "\n" + rest;
      assert [t[0]] + t[1..] == t;
    }
  }

  /** A carriage return before the line break is lost when a file is written and read again. */
  function Chop(t: string): string { if t != [] && t[|t| - 1] == '\r' then t[..|t| - 1] else t }

  lemma NormalizeStep(c: char, s: string)
    ensures !(c == '\r' && s != [] && s[0] == '\n') ==> NormalizeBreaks([c] + s) == [c] + NormalizeBreaks(s)
    ensures c == '\r' && s != [] && s[0] == '\n' ==> NormalizeBreaks([c] + s) == "\n" + NormalizeBreaks(s[1..])
  {
    assert ([c] + s)[1..] == s;
    assert s != [] ==> ([c] + s)[2..] == s[1..];
  }

  lemma {:induction false} NormalizeLine(t: string, rest: string)
    requires '\n' !in t
    ensures NormalizeBreaks(t + "\n" + rest) == Chop(t) + "\n" + NormalizeBreaks(rest)
    ensures NormalizeBreaks(t) == t
  {
    hide NormalizeBreaks;
    var tail := "\n" + rest;
    NormalizeStep('\n', rest);
    if t == [] {
      NormalizeNothing();
      assert t + "\n" + rest == tail;
    } else {
      var u := t[1..];
      NormalizeLine(u, rest);
      NormalizeStep(t[0], u + "\n" + rest);
      NormalizeStep(t[0], u);
      assert t == [t[0]] + u;
      assert t + "\n" + rest == [t[0]] + (u + "\n" + rest);
      if u == [] {
        assert u + "\n" + rest == tail && tail[1..] == rest;
      } else {
        assert (u + "\n" + rest)[0] == u[0] == t[1];
        ChopStep(t);
        assert [t[0]] + (Chop(u) + "\n" + NormalizeBreaks(rest)) == ([t[0]] + Chop(u)) + "\n" + NormalizeBreaks(rest);
      }
    }
  }

  lemma NormalizeNothing()
    ensures NormalizeBreaks([]) == []
  {
  }

  lemma ChopStep(t: string)
    requires |t| >= 2
    ensures Chop(t) == [t[0]] + Chop(t[1..])
  {
  }

  /** What a written line reads as: itself, less a carriage return unless it is the last. */
  function Reread(ls: seq<Line>, i: nat): string
    requires i < |ls|
  {
    if i + 1 < |ls| then Chop(ls[i].text) else ls[i].text
  }

  lemma {:induction false} SplitRender(ls: seq<Line>)
    requires ls != [] && OneLine(ls)
    ensures |Split(NormalizeBreaks(Render(ls)))| == |ls|
    ensures forall i :: 0 <= i < |ls| ==> Split(NormalizeBreaks(Render(ls)))[i] == Reread(ls, i)
  {
    hide Split, NormalizeBreaks;
    assert '\n' !in ls[0].text;
    if |ls| == 1 {
      NormalizeLine(ls[0].text, "");
      SplitLine(ls[0].text, "");
    } else {
      SplitRender(ls[1..]);
      NormalizeLine(ls[0].text, Render(ls[1..]));
      SplitLine(Chop(ls[0].text), NormalizeBreaks(Render(ls[1..])));
      assert forall i :: 0 <= i < |ls| - 1 ==> Reread(ls[1..], i) == Reread(ls, i + 1);
    }
  }

  // ----- lines that read alike ------------------------------------------------------------------

  /** Two lines the scanner and the parser cannot tell apart. */
  predicate Alike(a: Line, b: Line) { a.net == b.net && a.opens == b.opens && a.words == b.words }

  ghost predicate AllAlike(ls: seq<Line>, ms: seq<Line>) {
    |ls| == |ms| && forall i :: 0 <= i < |ls| ==> Alike(ls[i], ms[i])
  }

  lemma {:induction false} ChopAlike(t: string)
    ensures Alike(Read(t), Read(Chop(t)))
  {
    hide StripComment, Trim, Fields, Balance, TrimRightTabs, LeadingSpace;
    if t != [] && t[|t| - 1] == '\r' {
      var u := Chop(t);
      assert t == u + "\r";
      StripTail(u, "\r", 0, false, false);
      StripOf(t);
      StripOf(u);
      BalanceAppend(u, "\r");
      NoBraces("\r");
      TrimPadded("", u, "\r");
      assert "" + u + "\r" == t;
    }
  }

  lemma StripOf(t: string)
    ensures StripComment(t) == StripFrom(t, 0, false, false)
  {
  }

  /** Writing lines and reading the file back gives lines that read alike, the same ones but for lost carriage returns. */
  lemma {:induction false} ReadBack(ls: seq<Line>)
    requires ls != [] && OneLine(ls) && Faithful(ls)
    ensures
      var back := ToLines(Render(ls));
      && AllAlike(ls, back)
      && forall i :: 0 <= i < |ls| ==> back[i].text == Reread(ls, i)
  {
    hide Split, NormalizeBreaks, Read, Render, Alike;
    SplitRender(ls);
    var back := ToLines(Render(ls));
    forall i | 0 <= i < |ls| ensures Alike(ls[i], back[i]) && back[i].text == Reread(ls, i) {
      ReadKeepsText(Reread(ls, i));
      ChopAlike(ls[i].text);
      SameAlike(ls[i]);
    }
  }

  lemma SameAlike(a: Line)
    ensures Alike(a, a)
  {
  }

  lemma {:induction false} AlikeWalk(ls: seq<Line>, ms: seq<Line>, j: nat, depth: int)
    requires AllAlike(ls, ms) && j < |ls|
    ensures Walk(ls, j, depth) == Walk(ms, j, depth)
    decreases |ls| - j
  {
    if depth > 0 && j + 1 < |ls| {
      assert Alike(ls[j + 1], ms[j + 1]);
      AlikeWalk(ls, ms, j + 1, depth + ls[j + 1].net);
    }
  }

  lemma {:induction false} AlikeScan(ls: seq<Line>, ms: seq<Line>, i: nat)
    requires AllAlike(ls, ms) && i <= |ls|
    ensures ScanFrom(ls, i) == ScanFrom(ms, i)
    decreases |ls| - i
  {
    hide Walk;
    if i < |ls| {
      assert Alike(ls[i], ms[i]);
      AlikeWalk(ls, ms, i, ls[i].net);
      AlikeScan(ls, ms, i + 1);
      if ls[i].opens {
        var w := Walk(ls, i, ls[i].net);
        AlikeScan(ls, ms, w.0 + 1);
      }
    }
  }

  lemma {:induction false} AlikeGather(a: seq<Line>, b: seq<Line>)
    requires AllAlike(a, b)
    ensures Gather(a, LineNames) == Gather(b, LineNames) && Gather(a, LineCerts) == Gather(b, LineCerts)
  {
    hide NamesOf, Unquote;
    if a != [] {
      AlikeGather(a[..|a| - 1], b[..|b| - 1]);
      assert Alike(a[|a| - 1], b[|b| - 1]);
    }
  }

  lemma AlikeWants(a: seq<Line>, b: seq<Line>, job: Job)
    requires AllAlike(a, b)
    ensures Wants(a, job) <==> Wants(b, job)
  {
    hide Gather;
    AlikeGather(a, b);
  }

  lemma {:induction false} AlikeEdits(ls: seq<Line>, ms: seq<Line>, job: Job)
    requires AllAlike(ls, ms)
    ensures Inside(Scan(ls), |ls|) && Scan(ls) == Scan(ms)
    ensures EditsFor(ls, Scan(ls), job) == [] <==> EditsFor(ms, Scan(ms), job) == []
  {
    hide ScanFrom, EditsFor, Gather, Alike;
    ScanInside(ls);
    AlikeScan(ls, ms, 0);
    NoEditsIffNoneWanted(ls, Scan(ls), job);
    NoEditsIffNoneWanted(ms, Scan(ls), job);
    forall k | 0 <= k < |Scan(ls)|
      ensures Wants(Region(ls, Scan(ls)[k]), job) <==> Wants(Region(ms, Scan(ls)[k]), job)
    {
      AlikeWants(Region(ls, Scan(ls)[k]), Region(ms, Scan(ls)[k]), job);
    }
  }

  // ----- planning all files ---------------------------------------------------------------------

  function BlockEdits(raw: string, job: Job): seq<BlockEdit> {
    var ls := ToLines(raw);
    ScanInside(ls);
    EditsFor(ls, Scan(ls), job)
  }

  /** The text an install writes for a file. */
  ghost function NewText(raw: string, job: Job): string {
    ToLinesFaithful(raw);
    Render(Installed(ToLines(raw), job))
  }

  ghost predicate MatchesIn(ls: seq<Line>, rs: seq<Range>, job: Job)
    requires Inside(rs, |ls|)
  {
    exists k :: 0 <= k < |rs| && Matches(Region(ls, rs[k]), job)
  }

  ghost predicate ForeignIn(ls: seq<Line>, rs: seq<Range>, job: Job)
    requires Inside(rs, |ls|)
  {
    exists k :: 0 <= k < |rs| && Matches(Region(ls, rs[k]), job) && Foreign(Region(ls, rs[k]), job)
  }

  ghost predicate FileMatches(raw: string, job: Job) {
    ScanInside(ToLines(raw));
    MatchesIn(ToLines(raw), Scan(ToLines(raw)), job)
  }

  ghost predicate FileForeign(raw: string, job: Job) {
    ScanInside(ToLines(raw));
    ForeignIn(ToLines(raw), Scan(ToLines(raw)), job)
  }

  ghost predicate AnyMatch(files: Files, paths: seq<string>, job: Job) {
    exists i :: 0 <= i < |paths| && paths[i] in files && FileMatches(files[paths[i]], job)
  }

  ghost predicate AnyForeign(files: Files, paths: seq<string>, job: Job) {
    exists i :: 0 <= i < |paths| && paths[i] in files && FileForeign(files[paths[i]], job)
  }

  /** Block `k` of a file: its lines, as the scan of the file's text finds them. */
  ghost function BlockOf(raw: string, k: nat): seq<Line>
    requires k < |Scan(ToLines(raw))|
  {
    ScanInside(ToLines(raw));
    Region(ToLines(raw), Scan(ToLines(raw))[k])
  }

  /** Block `k` of a file has this server name. */
  ghost predicate HasName(raw: string, name: string, k: nat) {
    k < |Scan(ToLines(raw))| && name in Gather(BlockOf(raw, k), LineNames)
  }

  /** It serves certificates, none of them this one. */
  ghost predicate HasOthers(raw: string, cert: string, k: nat)
    requires k < |Scan(ToLines(raw))|
  {
    Gather(BlockOf(raw, k), LineCerts) != [] && cert !in Gather(BlockOf(raw, k), LineCerts)
  }

  lemma FileFlags(raw: string, job: Job)
    ensures FileMatches(raw, job) <==> exists k: nat :: HasName(raw, job.want, k)
    ensures FileForeign(raw, job) <==> exists k: nat :: HasName(raw, job.want, k) && HasOthers(raw, job.cert, k)
  {
    hide ToLines, Scan, Gather, SslIn, Indent;
    var ls := ToLines(raw);
    ScanInside(ls);
    forall k: nat | k < |Scan(ls)|
      ensures Matches(Region(ls, Scan(ls)[k]), job) <==> HasName(raw, job.want, k)
      ensures Foreign(Region(ls, Scan(ls)[k]), job) <==> HasOthers(raw, job.cert, k)
    {
    }
  }

  /** Block `k` of scanned file `i` has this server name. */
  ghost predicate NamedBlock(files: Files, paths: seq<string>, name: string, i: nat, k: nat) {
    i < |paths| && paths[i] in files && HasName(files[paths[i]], name, k)
  }

  /** That block's certificate paths, in order. */
  ghost function CertsAt(files: Files, paths: seq<string>, i: nat, k: nat): seq<string>
    requires i < |paths| && paths[i] in files && k < |Scan(ToLines(files[paths[i]]))|
  {
    Gather(BlockOf(files[paths[i]], k), LineCerts)
  }

  /** Some block of that name serves certificates, none of them this one. */
  ghost predicate ServesOthers(files: Files, paths: seq<string>, name: string, cert: string) {
    exists i: nat, k: nat :: NamedBlock(files, paths, name, i, k) && CertsAt(files, paths, i, k) != [] && cert !in CertsAt(files, paths, i, k)
  }

  lemma MatchIsNamed(files: Files, paths: seq<string>, job: Job)
    ensures AnyMatch(files, paths, job) <==> exists i: nat, k: nat :: NamedBlock(files, paths, job.want, i, k)
  {
    hide HasName, FileMatches;
    if AnyMatch(files, paths, job) {
      var i :| 0 <= i < |paths| && paths[i] in files && FileMatches(files[paths[i]], job);
      FileFlags(files[paths[i]], job);
      var k: nat :| HasName(files[paths[i]], job.want, k);
      assert NamedBlock(files, paths, job.want, i, k);
    }
    forall i: nat, k: nat | NamedBlock(files, paths, job.want, i, k) ensures AnyMatch(files, paths, job) {
      FileFlags(files[paths[i]], job);
    }
  }

  lemma ForeignIsOthers(files: Files, paths: seq<string>, job: Job)
    ensures AnyForeign(files, paths, job) <==> ServesOthers(files, paths, job.want, job.cert)
  {
    hide FileForeign, ToLines, Scan, Gather;
    if AnyForeign(files, paths, job) {
      var i :| 0 <= i < |paths| && paths[i] in files && FileForeign(files[paths[i]], job);
      FileFlags(files[paths[i]], job);
      var k: nat :| HasName(files[paths[i]], job.want, k) && HasOthers(files[paths[i]], job.cert, k);
      assert NamedBlock(files, paths, job.want, i, k);
    }
    if ServesOthers(files, paths, job.want, job.cert) {
      var i: nat, k: nat :| NamedBlock(files, paths, job.want, i, k) && CertsAt(files, paths, i, k) != [] && job.cert !in CertsAt(files, paths, i, k);
      FileFlags(files[paths[i]], job);
      assert HasOthers(files[paths[i]], job.cert, k);
    }
  }

  /** The files to write: those with at least one block to edit, in path order. */
  ghost function Plans(files: Files, paths: seq<string>, job: Job): (ps: seq<Pending>)
    requires forall i :: 0 <= i < |paths| ==> paths[i] in files
    ensures forall i :: 0 <= i < |ps| ==> ps[i].path in files
  {
    if paths == [] then []
    else
      var n := |paths| - 1;
      var raw := files[paths[n]];
      Plans(files, paths[..n], job) + if BlockEdits(raw, job) == [] then [] else [Pending(paths[n], NewText(raw, job))]
  }

  lemma {:induction false} PlansDistinct(files: Files, paths: seq<string>, job: Job)
    requires (forall i :: 0 <= i < |paths| ==> paths[i] in files) && Distinct(paths)
    ensures
      var ps := Plans(files, paths, job);
      DistinctPaths(ps) && forall i :: 0 <= i < |ps| ==> ps[i].path in paths && ps[i].path in files
  {
    hide BlockEdits, NewText;
    if paths != [] {
      PlansDistinct(files, paths[..|paths| - 1], job);
    }
  }

  lemma {:induction false} PlansAscending(files: Files, paths: seq<string>, job: Job)
    requires (forall i :: 0 <= i < |paths| ==> paths[i] in files) && Ascending(paths)
    ensures
      var ps := Plans(files, paths, job);
      && AllIn(ps, files) && (forall i :: 0 <= i < |ps| ==> ps[i].path in paths)
      && forall i, j :: 0 <= i < j < |ps| ==> PathLess(ps[i].path, ps[j].path)
  {
    hide BlockEdits, NewText, PathLess;
    if paths != [] {
      var n := |paths| - 1;
      PlansAscending(files, paths[..n], job);
      assert forall q :: q in paths[..n] ==> PathLess(q, paths[n]);
    }
  }

  /** Scans one file and decides what to do with it. */
  method PlanFile(raw: string, job: Job) returns (text: Option<string>, matched: bool, foreign: bool)
    ensures text == if BlockEdits(raw, job) == [] then None else Some(NewText(raw, job))
    ensures matched <==> FileMatches(raw, job)
    ensures foreign <==> FileForeign(raw, job)
    ensures matched <==> exists k: nat :: HasName(raw, job.want, k)
    ensures foreign <==> exists k: nat :: HasName(raw, job.want, k) && HasOthers(raw, job.cert, k)
  {
    hide EditsFor, Rewrite, EditsOrdered, ScanFrom, Matches, Foreign, Read, Render, HasName, HasOthers;
    FileFlags(raw, job);
    var ls := ToLines(raw);
    ToLinesFaithful(raw);
    var rs := ScanFile(ls);
    ScanInside(ls);
    matched, foreign := false, false;
    for k := 0 to |rs|
      invariant matched <==> exists j :: 0 <= j < k && Matches(Region(ls, rs[j]), job)
      invariant foreign <==> exists j :: 0 <= j < k && Matches(Region(ls, rs[j]), job) && Foreign(Region(ls, rs[j]), job)
    {
      if Matches(Region(ls, rs[k]), job) {
        matched := true;
        if Foreign(Region(ls, rs[k]), job) {
          foreign := true;
        }
      }
    }
    var es := EditsFor(ls, rs, job);
    if es == [] {
      text := None;
    } else {
      ScanShape(ls, 0);
      EditsForOrdered(ls, rs, job, 0);
      var out := ApplyEdits(ls, es);
      text := Some(Render(out));
    }
  }

  method PlanAll(files: Files, paths: seq<string>, job: Job) returns (ps: seq<Pending>, matched: bool, foreign: bool)
    requires forall i :: 0 <= i < |paths| ==> paths[i] in files
    ensures ps == Plans(files, paths, job)
    ensures matched <==> AnyMatch(files, paths, job)
    ensures foreign <==> AnyForeign(files, paths, job)
  {
    hide BlockEdits, NewText, FileMatches, FileForeign;
    ps, matched, foreign := [], false, false;
    for i := 0 to |paths|
      invariant ps == Plans(files, paths[..i], job)
      invariant matched <==> exists j :: 0 <= j < i && FileMatches(files[paths[j]], job)
      invariant foreign <==> exists j :: 0 <= j < i && FileForeign(files[paths[j]], job)
    {
      var text, m, f := PlanFile(files[paths[i]], job);
      assert paths[..i + 1][..i] == paths[..i];
      if text.Some? {
        ps := ps + [Pending(paths[i], text.value)];
      }
      matched, foreign := matched || m, foreign || f;
    }
    assert paths[..|paths|] == paths;
  }

  lemma {:induction false} NothingPlanned(files: Files, paths: seq<string>, job: Job)
    requires forall i :: 0 <= i < |paths| ==> paths[i] in files
    ensures Plans(files, paths, job) == [] <==> forall m :: 0 <= m < |paths| ==> BlockEdits(files[paths[m]], job) == []
  {
    hide BlockEdits, NewText;
    if paths != [] {
      var n := |paths| - 1;
      NothingPlanned(files, paths[..n], job);
      assert forall m :: 0 <= m < n ==> paths[..n][m] == paths[m];
    }
  }

  lemma {:induction false} PlannedWants(files: Files, paths: seq<string>, job: Job, r: nat)
    requires (forall i :: 0 <= i < |paths| ==> paths[i] in files) && r < |Plans(files, paths, job)|
    ensures
      var p := Plans(files, paths, job)[r];
      p.path in paths && BlockEdits(files[p.path], job) != [] && p.text == NewText(files[p.path], job)
  {
    hide BlockEdits, NewText;
    var n := |paths| - 1;
    if r < |Plans(files, paths[..n], job)| {
      PlannedWants(files, paths[..n], job, r);
    }
  }

  lemma {:induction false} PlansSkip(files: Files, paths: seq<string>, job: Job, m: nat)
    requires (forall i :: 0 <= i < |paths| ==> paths[i] in files) && Distinct(paths) && m < |paths|
    requires BlockEdits(files[paths[m]], job) == []
    ensures forall i :: 0 <= i < |Plans(files, paths, job)| ==> Plans(files, paths, job)[i].path != paths[m]
  {
    hide BlockEdits, NewText;
    var n := |paths| - 1;
    PlansDistinct(files, paths[..n], job);
    if m < n {
      PlansSkip(files, paths[..n], job, m);
    }
  }

  lemma {:induction false} PlansHold(files: Files, paths: seq<string>, job: Job, m: nat) returns (k: nat)
    requires (forall i :: 0 <= i < |paths| ==> paths[i] in files) && m < |paths| && BlockEdits(files[paths[m]], job) != []
    ensures k < |Plans(files, paths, job)| && Plans(files, paths, job)[k] == Pending(paths[m], NewText(files[paths[m]], job))
  {
    hide BlockEdits, NewText;
    var n := |paths| - 1;
    if m < n {
      k := PlansHold(files, paths[..n], job, m);
    } else {
      k := |Plans(files, paths[..n], job)|;
    }
  }

  // ----- the second install ---------------------------------------------------------------------

  /** The certificate's and the key's path have no line break. */
  predicate OnePath(job: Job) { '\n' !in job.cert && '\n' !in job.key }

  lemma {:induction false} PlanOneLine(region: seq<Line>, job: Job, l: Line)
    requires Faithful(region) && OnePath(job) && l in Plan(Parse(region), job.cert, job.key)
    ensures '\n' !in l.text
  {
    hide Read, Parse;
    ParseIndent(region);
    var f := Parse(region);
    var indent := if f.indent == "" then "    " else f.indent;
    TabsOneLine(indent);
    var a, b, c := "listen 443 ssl;", "ssl_certificate " + job.cert + ";", "ssl_certificate_key " + job.key + ";";
    DirectiveOneLine("ssl_certificate ", job.cert);
    DirectiveOneLine("ssl_certificate_key ", job.key);
    ReadKeepsText(indent + a);
    ReadKeepsText(indent + b);
    ReadKeepsText(indent + c);
    assert l == Read(indent + a) || l == Read(indent + b) || l == Read(indent + c);
  }

  lemma TabsOneLine(indent: string)
    requires Tabs(indent)
    ensures '\n' !in indent
  {
  }

  lemma DirectiveOneLine(name: string, p: string)
    requires '\n' !in name && '\n' !in p
    ensures '\n' !in name + p + ";"
  {
  }

  lemma {:induction false} InstalledOneLine(ls: seq<Line>, job: Job)
    requires Faithful(ls) && OneLine(ls) && OnePath(job)
    ensures OneLine(Installed(ls, job))
  {
    hide Read, Scan, Installed, Plan, Parse, OnePath;
    var n := Installed(ls, job);
    forall i | 0 <= i < |n| ensures '\n' !in n[i].text {
      var b := InstalledSource(ls, job, n[i]);
      if b < |Scan(ls)| {
        assert Faithful(Region(ls, Scan(ls)[b]));
        PlanOneLine(Region(ls, Scan(ls)[b]), job, n[i]);
      }
    }
  }

  lemma {:induction false} InstalledNonEmpty(ls: seq<Line>, job: Job)
    requires ls != [] && Faithful(ls)
    ensures Installed(ls, job) != []
  {
    hide Read, ScanFrom, Installed, Rebuilt, Core, Tail, Closed, IsCert, Ordered;
    InstalledIsRebuilt(ls, job);
    var rs := Scan(ls);
    var cs, ts := Cores(ls, rs, job), Tails(ls, rs, job);
    if rs == [] {
      RebuiltNone(ls, 0);
    } else {
      RebuiltHead(ls, rs, 0, cs, ts);
      ScannedBlock(ls, 0);
      CoreNonEmpty(Region(ls, rs[0]), job);
    }
  }

  lemma {:induction false} CoreNonEmpty(region: seq<Line>, job: Job)
    requires region != [] && !IsCert(region[0])
    ensures Core(region, job) != []
  {
    hide Wants, Plan, Parse, Keep, CutAt, IsCert, Fits;
    KeepFirst(region);
    KeepFirst(region[..CutAt(region)]);
  }

  /** On the file's text: the second install leaves the written file alone exactly when every edited block was settled. */
  lemma {:induction false} SecondInstallOfFile(raw: string, job: Job)
    requires Steady(job) && OnePath(job) && Sound(ToLines(raw), job)
    ensures BlockEdits(NewText(raw, job), job) == [] <==> AllSettle(ToLines(raw), job)
  {
    hide ScanFrom, Installed, Wants, EditsFor, Settles, Read, Render, ToLines, Sound, AllAlike, Steady, OnePath;
    var ls := ToLines(raw);
    ToLinesFaithful(raw);
    InstalledOneLine(ls, job);
    InstalledNonEmpty(ls, job);
    InstalledFaithful(ls, job);
    var n := Installed(ls, job);
    ReadBack(n);
    AlikeEdits(n, ToLines(Render(n)), job);
    SecondInstallQuiet(ls, job);
  }
}
