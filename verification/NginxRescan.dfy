/**
  After an install a second scan finds every block again, rewritten, exactly when every edited
  block is still closed without its old certificate lines; and the second install with the same
  certificate leaves the file alone exactly when, besides, every edited block could hold its new
  lines and the certificate's path reads back.
 */
module NginxRescan {
  import opened NginxLines
  import opened NginxScan
  import opened NginxRebuild
  import opened NginxEdit
  import opened NginxSplice
  import opened NginxFile

  // ----- the parts of an edited block -----------------------------------------------------------

  /** What a block becomes. */
  ghost function NewBlock(region: seq<Line>, job: Job): seq<Line>
    requires region != []
  {
    if Wants(region, job) then EditRegion(region, Plan(Parse(region), job.cert, job.key)) else region
  }

  /** The new lines fall inside the block: a line that stays follows its last server_name line. */
  ghost predicate Fits(region: seq<Line>)
    requires region != []
  {
    Keep(region[CutAt(region)..]) != []
  }

  /** What a block becomes as the next scan is to see it: rewritten, only cleared when the new lines fell outside, or as it was. */
  ghost function Core(region: seq<Line>, job: Job): seq<Line>
    requires region != []
  {
    if !Wants(region, job) then region
    else if Fits(region) then EditRegion(region, Plan(Parse(region), job.cert, job.key))
    else Keep(region)
  }

  /** The new lines that fell outside. */
  ghost function Tail(region: seq<Line>, job: Job): seq<Line>
    requires region != []
  {
    if Wants(region, job) && !Fits(region) then Plan(Parse(region), job.cert, job.key) else []
  }

  lemma {:induction false} NewBlockParts(region: seq<Line>, job: Job)
    requires region != []
    ensures NewBlock(region, job) == Core(region, job) + Tail(region, job)
  {
    hide Wants, Plan, Parse, Keep, CutAt;
    var cut := CutAt(region);
    KeepAppend(region[..cut], region[cut..]);
    assert region[..cut] + region[cut..] == region;
    if !Fits(region) {
      var ins := Plan(Parse(region), job.cert, job.key);
      assert Keep(region[..cut]) + ins + [] == Keep(region[..cut]) + ins;
      assert Keep(region[..cut]) + [] == Keep(region);
    }
  }

  ghost function Cores(ls: seq<Line>, rs: seq<Range>, job: Job): (cs: seq<seq<Line>>)
    requires Inside(rs, |ls|)
    ensures |cs| == |rs| && forall k :: 0 <= k < |rs| ==> cs[k] == Core(Region(ls, rs[k]), job)
  {
    seq(|rs|, k requires 0 <= k < |rs| => Core(Region(ls, rs[k]), job))
  }

  ghost function Tails(ls: seq<Line>, rs: seq<Range>, job: Job): (ts: seq<seq<Line>>)
    requires Inside(rs, |ls|)
    ensures |ts| == |rs| && forall k :: 0 <= k < |rs| ==> ts[k] == Tail(Region(ls, rs[k]), job)
  {
    seq(|rs|, k requires 0 <= k < |rs| => Tail(Region(ls, rs[k]), job))
  }

  /** The rewritten file: up to the first block, that block, and the rest. */
  ghost predicate HeadRewritten(ls: seq<Line>, r: Range, lo: nat, es: seq<BlockEdit>, more: seq<BlockEdit>, block: seq<Line>) {
    && lo <= r.first <= r.last < |ls| && EditsOrdered(ls, es, lo) && EditsOrdered(ls, more, r.last + 1)
    && Rewrite(ls, lo, es) == ls[lo..r.first] + block + Rewrite(ls, r.last + 1, more)
  }

  lemma {:induction false} RewriteHead(ls: seq<Line>, rs: seq<Range>, job: Job, lo: nat)
    requires Faithful(ls) && rs != [] && Inside(rs, |ls|) && Ordered(rs, lo, |ls|) && Blocks(ls, rs)
    ensures HeadRewritten(ls, rs[0], lo, EditsFor(ls, rs, job), EditsFor(ls, rs[1..], job), NewBlock(Region(ls, rs[0]), job))
  {
    hide Wants, Plan, Parse, IsCert, EditRegion, Read, Rewrite, EditsOrdered;
    var r, es, more := rs[0], EditsFor(ls, rs, job), EditsFor(ls, rs[1..], job);
    assert Blocks(ls, rs[1..]);
    EditsForOrdered(ls, rs, job, lo);
    EditsForOrdered(ls, rs[1..], job, r.last + 1);
    if Wants(Region(ls, r), job) {
      assert es[1..] == more;
      RewriteCons(ls, lo, es);
    } else {
      assert es == more;
      RewriteFrom(ls, lo, r.last + 1, more);
      assert ls[lo..r.first] + ls[r.first..r.last + 1] == ls[lo..r.last + 1];
    }
  }

  lemma {:induction false} NoBlocks(ls: seq<Line>, job: Job, lo: nat)
    requires lo <= |ls|
    ensures EditsOrdered(ls, EditsFor(ls, [], job), lo) && Rewrite(ls, lo, EditsFor(ls, [], job)) == ls[lo..]
  {
  }

  /** Rewriting the edited blocks one by one is rebuilding the file from the parts of all blocks. */
  lemma {:induction false} RewriteIsRebuilt(ls: seq<Line>, rs: seq<Range>, job: Job, lo: nat)
    requires Faithful(ls) && lo <= |ls| && Inside(rs, |ls|) && Ordered(rs, lo, |ls|) && Blocks(ls, rs)
    ensures EditsOrdered(ls, EditsFor(ls, rs, job), lo)
    ensures Rewrite(ls, lo, EditsFor(ls, rs, job)) == Rebuilt(ls, rs, lo, Cores(ls, rs, job), Tails(ls, rs, job))
    decreases |rs|
  {
    hide EditsFor, Rewrite, EditsOrdered, NewBlock, Read, Core, Tail;
    if rs == [] {
      NoBlocks(ls, job, lo);
    } else {
      RewriteHead(ls, rs, job, lo);
      RewriteIsRebuilt(ls, rs[1..], job, rs[0].last + 1);
      NewBlockParts(Region(ls, rs[0]), job);
      var cs, ts := Cores(ls, rs, job), Tails(ls, rs, job);
      assert cs[1..] == Cores(ls, rs[1..], job) && ts[1..] == Tails(ls, rs[1..], job);
      var gap, rest := ls[lo..rs[0].first], Rewrite(ls, rs[0].last + 1, EditsFor(ls, rs[1..], job));
      assert gap + (cs[0] + ts[0]) + rest == gap + cs[0] + ts[0] + rest;
    }
  }

  // ----- what the next scan sees ----------------------------------------------------------------

  /** The file after an install for `job`. */
  ghost function Installed(ls: seq<Line>, job: Job): seq<Line>
    requires Faithful(ls)
  {
    ScanShape(ls, 0);
    EditsForOrdered(ls, Scan(ls), job, 0);
    Rewrite(ls, 0, EditsFor(ls, Scan(ls), job))
  }

  lemma {:induction false} ScanInside(ls: seq<Line>)
    ensures Inside(Scan(ls), |ls|)
  {
    ScanShape(ls, 0);
  }

  lemma {:induction false} InstalledIsRebuilt(ls: seq<Line>, job: Job)
    requires Faithful(ls)
    ensures Inside(Scan(ls), |ls|) && Ordered(Scan(ls), 0, |ls|)
    ensures Installed(ls, job) == Rebuilt(ls, Scan(ls), 0, Cores(ls, Scan(ls), job), Tails(ls, Scan(ls), job))
  {
    hide EditsFor, Rewrite, EditsOrdered, Read, ScanFrom, Rebuilt, Core, Tail;
    ScanShape(ls, 0);
    ScanInside(ls);
    RewriteIsRebuilt(ls, Scan(ls), job, 0);
  }

  /** The new lines do not move the brace depth. */
  predicate Steady(job: Job) { NeutralPath(job.cert) && NeutralPath(job.key) }

  /** Every edited block is still a closed block without its certificate lines. */
  ghost predicate Sound(ls: seq<Line>, job: Job) {
    ScanInside(ls);
    forall k :: 0 <= k < |Scan(ls)| && Wants(Region(ls, Scan(ls)[k]), job) ==> Closed(Keep(Region(ls, Scan(ls)[k])))
  }

  // ----- neutral lines inside a block -----------------------------------------------------------

  lemma {:induction false} DepthInsert(a: seq<Line>, t: seq<Line>, b: seq<Line>, k: nat)
    requires a != [] && NeutralAll(t) && k < |a + t + b|
    ensures
      var x, y := a + t + b, a + b;
      Depth(x, 0, k) ==
        if k < |a| then Depth(y, 0, k) else if k < |a| + |t| then Depth(y, 0, |a| - 1) else Depth(y, 0, k - |t|)
  {
    var x, y := a + t + b, a + b;
    if k < |a| {
      assert x[0..|a|] == a && y[0..|a|] == a;
      DepthShift(x, 0, a, k);
      DepthShift(y, 0, a, k);
    } else {
      DepthInsert(a, t, b, k - 1);
      if k < |a| + |t| {
        assert x[k] == t[k - |a|] && Neutral(t[k - |a|]);
      } else {
        assert x[k] == y[k - |t|];
      }
    }
  }

  /** Neutral lines between other lines of a block do not matter. */
  lemma {:induction false} InsertKeepsClosed(a: seq<Line>, t: seq<Line>, b: seq<Line>)
    requires a != [] && b != [] && NeutralAll(t)
    ensures Closed(a + t + b) <==> Closed(a + b)
  {
    hide NeutralAll, Depth;
    var x, y := a + t + b, a + b;
    assert x[0] == a[0] == y[0];
    DepthInsert(a, t, b, |x| - 1);
    if Closes(y, 0, |y| - 1) {
      forall k | 0 <= k < |x| - 1 ensures Depth(x, 0, k) > 0 {
        DepthInsert(a, t, b, k);
      }
    }
    if Closes(x, 0, |x| - 1) {
      forall k | 0 <= k < |y| - 1 ensures Depth(y, 0, k) > 0 {
        if k < |a| {
          DepthInsert(a, t, b, k);
          assert Depth(x, 0, k) > 0;
        } else {
          DepthInsert(a, t, b, k + |t|);
          assert Depth(x, 0, k + |t|) > 0;
        }
      }
    }
  }

  /** The first line of a block stays. */
  lemma {:induction false} KeepFirst(region: seq<Line>)
    requires region != [] && !IsCert(region[0])
    ensures Keep(region) != [] && Keep(region)[0] == region[0]
  {
    hide Keep, IsCert;
    assert region == [region[0]] + region[1..];
    KeepAppend([region[0]], region[1..]);
    KeepOne(region[0]);
  }

  /** What a block becomes is a closed block exactly when it is one without its certificate lines. */
  lemma {:induction false} CoreClosed(region: seq<Line>, job: Job)
    requires Closed(region) && Faithful(region) && !IsCert(region[0]) && Steady(job)
    ensures Core(region, job) != [] && Core(region, job)[0] == region[0] && NeutralAll(Tail(region, job))
    ensures Closed(Core(region, job)) <==> (Wants(region, job) ==> Closed(Keep(region)))
  {
    hide Wants, Plan, Parse, Keep, CutAt, Read, IsCert, Closes, NeutralPath, NeutralAll;
    PlanFacts(region, job.cert, job.key);
    KeepFirst(region);
    NothingNeutral();
    if Wants(region, job) && Fits(region) {
      var cut, ins := CutAt(region), Plan(Parse(region), job.cert, job.key);
      var left, right := Keep(region[..cut]), Keep(region[cut..]);
      KeepFirst(region[..cut]);
      KeepAppend(region[..cut], region[cut..]);
      assert region[..cut] + region[cut..] == region;
      InsertKeepsClosed(left, ins, right);
    }
  }

  lemma NothingNeutral()
    ensures NeutralAll([])
  {
  }

  lemma {:induction false} ScanCloses(ls: seq<Line>, k: nat)
    requires k < |Scan(ls)|
    ensures
      var r := Scan(ls)[k];
      r.first <= r.last < |ls| && ls[r.first].opens && Closes(ls, r.first, r.last)
  {
    hide Closes, Walk, Ordered;
    ScanShape(ls, 0);
    ScanExact(ls, 0);
  }

  lemma {:induction false} ScannedBlock(ls: seq<Line>, k: nat)
    requires Faithful(ls) && k < |Scan(ls)|
    ensures
      var r := Scan(ls)[k];
      r.first <= r.last < |ls| && Closed(Region(ls, r)) && Faithful(Region(ls, r)) && !IsCert(Region(ls, r)[0])
  {
    hide Read, Scan, Closes, IsCert, Depth;
    ScanCloses(ls, k);
    var r := Scan(ls)[k];
    var b := Region(ls, r);
    assert b[0] == ls[r.first] && r.first + |b| - 1 == r.last;
    ClosesShift(ls, r.first, b);
    OpensNotCert(ls[r.first].text);
  }

  // ----- the rescan -----------------------------------------------------------------------------

  /** The scan of the installed file finds every block again, each as it was rewritten, and no other. */
  ghost predicate BlocksFound(ls: seq<Line>, job: Job)
    requires Faithful(ls)
  {
    var n := Installed(ls, job);
    ScanInside(ls);
    ScanInside(n);
    && |Scan(n)| == |Scan(ls)|
    && forall k :: 0 <= k < |Scan(ls)| ==> Region(n, Scan(n)[k]) == Core(Region(ls, Scan(ls)[k]), job)
  }

  lemma {:induction false} PartsGood(ls: seq<Line>, job: Job)
    requires Faithful(ls) && Steady(job) && Sound(ls, job)
    ensures Inside(Scan(ls), |ls|) && GoodParts(Cores(ls, Scan(ls), job), Tails(ls, Scan(ls), job))
  {
    hide ScanFrom, Core, Tail, Wants, Closed, NeutralAll, Read, IsCert, Keep, Steady;
    ScanInside(ls);
    forall k | 0 <= k < |Scan(ls)|
      ensures Closed(Core(Region(ls, Scan(ls)[k]), job)) && NeutralAll(Tail(Region(ls, Scan(ls)[k]), job))
    {
      ScannedBlock(ls, k);
      CoreClosed(Region(ls, Scan(ls)[k]), job);
    }
  }

  /** After an install the scan finds every block again, each rewritten and at its new place. */
  lemma {:induction false} RescanFindsBlocks(ls: seq<Line>, job: Job)
    requires Faithful(ls) && Steady(job) && Sound(ls, job)
    ensures
      var n, rs := Installed(ls, job), Scan(ls);
      && Inside(rs, |ls|) && PlacesOk(rs, Cores(ls, rs, job), Tails(ls, rs, job), 0, 0)
      && Scan(n) == Places(rs, 0, Cores(ls, rs, job), Tails(ls, rs, job), 0)
      && BlocksFound(ls, job)
  {
    hide ScanFrom, Installed, Core, Tail, Sound, Steady, GoodParts, Rebuilt, Places, Ordered, Read;
    var n, rs := Installed(ls, job), Scan(ls);
    InstalledIsRebuilt(ls, job);
    PartsGood(ls, job);
    var cs, ts := Cores(ls, rs, job), Tails(ls, rs, job);
    assert n[0..] == n;
    ScanRebuilt(ls, 0, cs, ts, n, 0);
    PlacesCount(rs, 0, cs, ts, 0);
    ScanInside(n);
    forall k | 0 <= k < |rs| ensures Region(n, Scan(n)[k]) == Core(Region(ls, rs[k]), job) {
      PlacesHold(ls, rs, 0, cs, ts, n, 0, k);
    }
  }

  /** It does so exactly when every edited block is still closed without its certificate lines. */
  lemma {:induction false} RescanIff(ls: seq<Line>, job: Job)
    requires Faithful(ls) && Steady(job)
    ensures BlocksFound(ls, job) <==> Sound(ls, job)
  {
    hide ScanFrom, Installed, Core, Wants, Closed, Read, IsCert, Keep, Steady, Places;
    if Sound(ls, job) {
      RescanFindsBlocks(ls, job);
    }
    if BlocksFound(ls, job) {
      ScanInside(ls);
      InstalledFaithful(ls, job);
      forall k | 0 <= k < |Scan(ls)| && Wants(Region(ls, Scan(ls)[k]), job) ensures Closed(Keep(Region(ls, Scan(ls)[k]))) {
        ScannedBlock(ls, k);
        ScannedBlock(Installed(ls, job), k);
        CoreClosed(Region(ls, Scan(ls)[k]), job);
      }
    }
  }

  /** A block as the next scan sees it: rewritten, or only cleared when the new lines fell outside, or as it was. */
  lemma {:induction false} BlockAfterInstall(ls: seq<Line>, job: Job, k: nat)
    requires Faithful(ls) && Steady(job) && Sound(ls, job) && k < |Scan(ls)|
    ensures
      var n := Installed(ls, job);
      && Inside(Scan(ls), |ls|) && |Scan(n)| == |Scan(ls)| && Inside(Scan(n), |n|)
      && var region := Region(ls, Scan(ls)[k]);
      Region(n, Scan(n)[k]) ==
        if !Wants(region, job) then region
        else if Fits(region) then EditRegion(region, Plan(Parse(region), job.cert, job.key))
        else Keep(region)
  {
    hide ScanFrom, Installed, Wants, Plan, Parse, Keep, EditRegion, Fits, Read, Sound, Steady, Places;
    RescanFindsBlocks(ls, job);
    ScanInside(Installed(ls, job));
  }

  // ----- an edited file still reads as it is written --------------------------------------------

  lemma {:induction false} ReadKeepsText(t: string)
    ensures Read(t).text == t
  {
  }

  /** Every line of a rebuilt file is an old line or in one of the parts. */
  lemma {:induction false} RebuiltMembers(ls: seq<Line>, rs: seq<Range>, lo: nat, cs: seq<seq<Line>>, ts: seq<seq<Line>>, l: Line)
    requires |rs| == |cs| == |ts| && lo <= |ls| && Ordered(rs, lo, |ls|) && l in Rebuilt(ls, rs, lo, cs, ts)
    ensures l in ls || exists k :: 0 <= k < |rs| && (l in cs[k] || l in ts[k])
  {
    if rs != [] {
      var rest := Rebuilt(ls, rs[1..], rs[0].last + 1, cs[1..], ts[1..]);
      if l in rest {
        RebuiltMembers(ls, rs[1..], rs[0].last + 1, cs[1..], ts[1..], l);
        if k :| 0 <= k < |rs| - 1 && (l in cs[1..][k] || l in ts[1..][k]) {
          assert l in cs[k + 1] || l in ts[k + 1];
        }
      } else {
        assert l in ls[lo..rs[0].first] || l in cs[0] || l in ts[0];
      }
    }
  }

  lemma {:induction false} KeepMembers(ls: seq<Line>, l: Line)
    requires l in Keep(ls)
    ensures l in ls
  {
    if l in Keep(ls[..|ls| - 1]) {
      KeepMembers(ls[..|ls| - 1], l);
    }
  }

  lemma {:induction false} PartMembers(region: seq<Line>, job: Job, l: Line)
    requires region != [] && (l in Core(region, job) || l in Tail(region, job))
    ensures l in region || l in Plan(Parse(region), job.cert, job.key)
  {
    hide Wants, Plan, Parse, Keep, Fits, CutAt;
    var cut := CutAt(region);
    if l in Keep(region) {
      KeepMembers(region, l);
    } else if l in Keep(region[..cut]) {
      KeepMembers(region[..cut], l);
    } else if l in Keep(region[cut..]) {
      KeepMembers(region[cut..], l);
    }
  }

  /** A line of the installed file is one of the file or one planned for a block of it. */
  lemma {:induction false} InstalledSource(ls: seq<Line>, job: Job, l: Line) returns (b: nat)
    requires Faithful(ls) && l in Installed(ls, job)
    ensures Inside(Scan(ls), |ls|) && b <= |Scan(ls)|
    ensures if b < |Scan(ls)| then l in Plan(Parse(Region(ls, Scan(ls)[b])), job.cert, job.key) else l in ls
  {
    hide Read, ScanFrom, Installed, Plan, Parse, Core, Tail, Rebuilt, Ordered;
    InstalledIsRebuilt(ls, job);
    var rs := Scan(ls);
    RebuiltMembers(ls, rs, 0, Cores(ls, rs, job), Tails(ls, rs, job), l);
    b := |rs|;
    if l !in ls {
      b :| 0 <= b < |rs| && (l in Cores(ls, rs, job)[b] || l in Tails(ls, rs, job)[b]);
      PartMembers(Region(ls, rs[b]), job, l);
    }
  }

  lemma {:induction false} PlanReads(f: Facts, job: Job, l: Line)
    requires l in Plan(f, job.cert, job.key)
    ensures l == Read(l.text)
  {
    hide Read;
    var indent := if f.indent == "" then "    " else f.indent;
    ReadKeepsText(indent + "listen 443 ssl;");
    ReadKeepsText(indent + ("ssl_certificate " + job.cert + ";"));
    ReadKeepsText(indent + ("ssl_certificate_key " + job.key + ";"));
  }

  lemma {:induction false} InstalledFaithful(ls: seq<Line>, job: Job)
    requires Faithful(ls)
    ensures Faithful(Installed(ls, job))
  {
    hide Read, Scan, Installed, Plan, Parse;
    var n := Installed(ls, job);
    forall i | 0 <= i < |n| ensures n[i] == Read(n[i].text) {
      var b := InstalledSource(ls, job, n[i]);
      if b < |Scan(ls)| {
        PlanReads(Parse(Region(ls, Scan(ls)[b])), job, n[i]);
      }
    }
  }

  // ----- the second install ---------------------------------------------------------------------

  lemma {:induction false} KeepGathers(ls: seq<Line>)
    ensures Gather(Keep(ls), LineNames) == Gather(ls, LineNames) && Gather(Keep(ls), LineCerts) == []
  {
    if ls != [] {
      var m := |ls| - 1;
      var l := ls[m];
      KeepGathers(ls[..m]);
      var tail: seq<Line> := if IsCert(l) then [] else [l];
      GatherAppend(Keep(ls[..m]), tail, LineNames);
      GatherAppend(Keep(ls[..m]), tail, LineCerts);
      GatherOne(l, LineNames);
      GatherOne(l, LineCerts);
    }
  }

  /** A rewritten block keeps its server names, and serves exactly the new certificate exactly when its path is plain. */
  lemma {:induction false} RewrittenServes(region: seq<Line>, job: Job)
    requires region != [] && Faithful(region) && NeutralPath(job.cert)
    ensures
      var out := EditRegion(region, Plan(Parse(region), job.cert, job.key));
      && Parse(out).names == Parse(region).names && (Parse(out).certs == [job.cert] <==> PlainPath(job.cert))
      && Parse(Keep(region)).names == Parse(region).names && Parse(Keep(region)).certs == []
  {
    hide Gather, Keep, CutAt, Plan, SslIn, Indent, Read, LineNames, LineCerts, PlainPath, NeutralPath;
    var cut, ins := CutAt(region), Plan(Parse(region), job.cert, job.key);
    var left, right := Keep(region[..cut]), Keep(region[cut..]);
    PlanFacts(region, job.cert, job.key);
    KeepGathers(region);
    KeepGathers(region[..cut]);
    KeepGathers(region[cut..]);
    GatherAppend(left + ins, right, LineNames);
    GatherAppend(left, ins, LineNames);
    GatherAppend(left + ins, right, LineCerts);
    GatherAppend(left, ins, LineCerts);
    GatherAppend(region[..cut], region[cut..], LineNames);
    assert region[..cut] + region[cut..] == region;
  }

  /** The edit of this block settles it: it can hold its lines, and the certificate's path reads back. */
  ghost predicate Settles(region: seq<Line>, job: Job)
    requires region != []
  {
    Fits(region) && PlainPath(job.cert)
  }

  /** After the install a block still wants an edit exactly if it was edited and that did not settle it. */
  lemma {:induction false} WantsAgain(ls: seq<Line>, job: Job, k: nat)
    requires Faithful(ls) && Steady(job) && Sound(ls, job) && k < |Scan(ls)|
    ensures
      var n := Installed(ls, job);
      && Inside(Scan(ls), |ls|) && |Scan(n)| == |Scan(ls)| && Inside(Scan(n), |n|)
      && var region := Region(ls, Scan(ls)[k]);
      Wants(Region(n, Scan(n)[k]), job) <==> Wants(region, job) && !Settles(region, job)
  {
    hide ScanFrom, Installed, Parse, Plan, Keep, EditRegion, CutAt, Read, Sound, Fits, PlainPath, NeutralPath;
    BlockAfterInstall(ls, job, k);
    var region := Region(ls, Scan(ls)[k]);
    assert Faithful(region);
    RewrittenServes(region, job);
  }

  lemma {:induction false} NoEditsIffNoneWanted(ls: seq<Line>, rs: seq<Range>, job: Job)
    requires Inside(rs, |ls|)
    ensures EditsFor(ls, rs, job) == [] <==> forall k :: 0 <= k < |rs| ==> !Wants(Region(ls, rs[k]), job)
  {
    hide Wants, Plan, Parse;
    if rs != [] {
      NoEditsIffNoneWanted(ls, rs[1..], job);
      assert forall k :: 0 <= k < |rs| - 1 ==> rs[1..][k] == rs[k + 1];
      assert (forall k :: 0 <= k < |rs| ==> !Wants(Region(ls, rs[k]), job)) <==>
             !Wants(Region(ls, rs[0]), job) && forall k :: 0 <= k < |rs| - 1 ==> !Wants(Region(ls, rs[1..][k]), job);
    }
  }

  /** A second install with the same certificate edits nothing, exactly when every edited block was settled by the first. */
  lemma {:induction false} SecondInstallQuiet(ls: seq<Line>, job: Job)
    requires Faithful(ls) && Steady(job) && Sound(ls, job)
    ensures
      var n := Installed(ls, job);
      && Inside(Scan(ls), |ls|) && Inside(Scan(n), |n|)
      && (EditsFor(n, Scan(n), job) == [] <==>
          forall k :: 0 <= k < |Scan(ls)| && Wants(Region(ls, Scan(ls)[k]), job) ==> Settles(Region(ls, Scan(ls)[k]), job))
  {
    hide ScanFrom, Installed, Wants, EditsFor, Settles, Read, Sound, Steady, Places;
    var n := Installed(ls, job);
    ScanInside(ls);
    ScanInside(n);
    NoEditsIffNoneWanted(n, Scan(n), job);
    RescanFindsBlocks(ls, job);
    forall k | 0 <= k < |Scan(ls)|
      ensures Wants(Region(n, Scan(n)[k]), job) <==> Wants(Region(ls, Scan(ls)[k]), job) && !Settles(Region(ls, Scan(ls)[k]), job)
    {
      WantsAgain(ls, job, k);
    }
  }
}
