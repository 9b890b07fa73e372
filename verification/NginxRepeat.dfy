/** Installing again and again: which files settle after one install and which never do. */
module NginxRepeat {
  import opened Text
  import opened NginxLines
  import opened NginxScan
  import opened NginxRebuild
  import opened NginxEdit
  import opened NginxSplice
  import opened NginxFile
  import opened NginxRescan

  // ----- what one install keeps -----------------------------------------------------------------

  /** The file reads as written, the new lines are neutral, and edited blocks stay closed without their certificate lines. */
  ghost predicate Regular(ls: seq<Line>, job: Job) { Faithful(ls) && Steady(job) && Sound(ls, job) }

  /** Every block to be edited is settled by it. */
  ghost predicate AllSettle(ls: seq<Line>, job: Job) {
    ScanInside(ls);
    forall k :: 0 <= k < |Scan(ls)| && Wants(Region(ls, Scan(ls)[k]), job) ==> Settles(Region(ls, Scan(ls)[k]), job)
  }

  /** A block that wants an edit and cannot hold the lines: nothing that stays follows its last server_name line. */
  lemma {:induction false} ClosingName(region: seq<Line>, job: Job)
    requires region != [] && Wants(region, job) && !Fits(region)
    ensures Keep(region) != [] && Names(Keep(region)[|Keep(region)| - 1])
  {
    hide Parse, Gather, Keep;
    if LastName(region) < 0 {
      NoNames(region);
      assert Parse(region).names == [] by { ParseNames(region); }
    }
    var cut := CutAt(region);
    var last := region[cut - 1];
    assert region == region[..cut - 1] + [last] + region[cut..];
    KeepAppend(region[..cut - 1] + [last], region[cut..]);
    KeepAppend(region[..cut - 1], [last]);
    KeepOne(last);
  }

  lemma ParseNames(region: seq<Line>)
    ensures Parse(region).names == Gather(region, LineNames)
  {
  }

  lemma {:induction false} NoNames(region: seq<Line>)
    requires LastName(region) < 0
    ensures Gather(region, LineNames) == []
  {
    if region != [] {
      NoNames(region[..|region| - 1]);
    }
  }

  lemma {:induction false} NamedLast(k: seq<Line>)
    requires k != [] && Names(k[|k| - 1])
    ensures !Fits(k)
  {
    assert LastName(k) == |k| - 1;
    assert k[|k|..] == [];
  }

  /** A block its edit does not settle is not settled by the next one either. */
  lemma {:induction false} StuckStays(ls: seq<Line>, job: Job, k: nat)
    requires Regular(ls, job) && k < |Scan(ls)| && Inside(Scan(ls), |ls|)
    requires Wants(Region(ls, Scan(ls)[k]), job) && !Settles(Region(ls, Scan(ls)[k]), job)
    ensures
      var n := Installed(ls, job);
      && |Scan(n)| == |Scan(ls)| && Inside(Scan(n), |n|)
      && Wants(Region(n, Scan(n)[k]), job) && !Settles(Region(n, Scan(n)[k]), job)
  {
    hide Scan, Installed, Wants, Keep, EditRegion, Plan, Parse, Read, Names, IsCert, Sound, Steady, Fits, PlainPath;
    BlockAfterInstall(ls, job, k);
    WantsAgain(ls, job, k);
    var region := Region(ls, Scan(ls)[k]);
    if !Fits(region) {
      ClosingName(region, job);
      NamedLast(Keep(region));
    }
  }

  lemma {:induction false} KeepTwice(ls: seq<Line>)
    ensures Keep(Keep(ls)) == Keep(ls)
  {
    KeepClean(ls);
    KeepAll(Keep(ls));
  }

  /** Of the planned lines only a listener stays when certificate lines are dropped. */
  lemma {:induction false} KeepPlan(region: seq<Line>, job: Job)
    requires Faithful(region)
    ensures NeutralAll(Keep(Plan(Parse(region), job.cert, job.key)))
  {
    hide Read, Parse, Keep, Neutral, IsCert;
    var f := Parse(region);
    ParseIndent(region);
    var indent := if f.indent == "" then "    " else f.indent;
    var a, b, l := PairLines(indent, job.cert, job.key);
    KeepOne(a);
    KeepOne(b);
    KeepOne(l);
    KeepAppend([a], [b]);
    KeepAppend([l], [a, b]);
    assert [a] + [b] == [a, b] && [l] + [a, b] == [l, a, b];
    assert [] + [a, b] == [a, b];
  }

  /** A rewritten block is closed without its new certificate lines as the old one was. */
  lemma {:induction false} RewrittenSound(region: seq<Line>, job: Job)
    requires region != [] && Faithful(region) && !IsCert(region[0]) && Closed(Keep(region)) && Fits(region)
    ensures Closed(Keep(EditRegion(region, Plan(Parse(region), job.cert, job.key))))
  {
    hide Keep, Plan, Parse, Read, IsCert, Closed, CutAt, NeutralAll;
    var cut, ins := CutAt(region), Plan(Parse(region), job.cert, job.key);
    var left, right := Keep(region[..cut]), Keep(region[cut..]);
    KeepPlan(region, job);
    KeepFirst(region[..cut]);
    KeepAppend(region[..cut], region[cut..]);
    assert region[..cut] + region[cut..] == region;
    KeepAppend(left + ins, right);
    KeepAppend(left, ins);
    KeepTwice(region[..cut]);
    KeepTwice(region[cut..]);
    InsertKeepsClosed(left, Keep(ins), right);
  }

  lemma {:induction false} RegularStays(ls: seq<Line>, job: Job)
    requires Regular(ls, job)
    ensures Regular(Installed(ls, job), job)
  {
    hide Scan, Installed, Wants, Read, IsCert, Keep, Closed, Steady, EditRegion, Fits, Plan, Parse, Settles;
    var n := Installed(ls, job);
    InstalledFaithful(ls, job);
    ScanInside(n);
    ScanInside(ls);
    RescanFindsBlocks(ls, job);
    forall k | 0 <= k < |Scan(n)| && Wants(Region(n, Scan(n)[k]), job) ensures Closed(Keep(Region(n, Scan(n)[k]))) {
      BlockAfterInstall(ls, job, k);
      WantsAgain(ls, job, k);
      var region := Region(ls, Scan(ls)[k]);
      ScannedBlock(ls, k);
      if Fits(region) {
        RewrittenSound(region, job);
      } else {
        KeepTwice(region);
      }
    }
  }

  /** With a plain path, a block that still wants an edit after an install has no certificate line. */
  lemma {:induction false} WantedIsClear(ls: seq<Line>, job: Job, k: nat, i: nat)
    requires Regular(ls, job) && PlainPath(job.cert) && k < |Scan(Installed(ls, job))| && Inside(Scan(Installed(ls, job)), |Installed(ls, job)|)
    requires Scan(Installed(ls, job))[k].first <= i <= Scan(Installed(ls, job))[k].last
    requires Wants(Region(Installed(ls, job), Scan(Installed(ls, job))[k]), job)
    ensures !IsCert(Installed(ls, job)[i])
  {
    hide Scan, Installed, Wants, Keep, EditRegion, Plan, Parse, Read, IsCert, PlainPath, Sound, Steady, Fits, BlocksFound, Places;
    var n := Installed(ls, job);
    assert |Scan(n)| == |Scan(ls)| by { SameCount(ls, job); }
    BlockAfterInstall(ls, job, k);
    WantsAgain(ls, job, k);
    KeepClean(Region(ls, Scan(ls)[k]));
    assert Region(n, Scan(n)[k])[i - Scan(n)[k].first] == n[i];
  }

  lemma SameCount(ls: seq<Line>, job: Job)
    requires Regular(ls, job)
    ensures |Scan(Installed(ls, job))| == |Scan(ls)|
  {
    hide Scan, Installed, Sound, Steady, Places;
    RescanFindsBlocks(ls, job);
  }

  // ----- growth ---------------------------------------------------------------------------------

  lemma {:induction false} RebuiltGrows(ls: seq<Line>, rs: seq<Range>, lo: nat, cs: seq<seq<Line>>, ts: seq<seq<Line>>)
    requires |rs| == |cs| == |ts| && lo <= |ls| && Ordered(rs, lo, |ls|)
    requires forall k :: 0 <= k < |rs| ==> |cs[k]| + |ts[k]| >= rs[k].last + 1 - rs[k].first
    ensures |Rebuilt(ls, rs, lo, cs, ts)| >= |ls| - lo
    ensures forall k :: 0 <= k < |rs| && |cs[k]| + |ts[k]| > rs[k].last + 1 - rs[k].first ==> |Rebuilt(ls, rs, lo, cs, ts)| > |ls| - lo
  {
    if rs != [] {
      assert forall k :: 0 <= k < |rs| - 1 ==> rs[1..][k] == rs[k + 1] && cs[1..][k] == cs[k + 1] && ts[1..][k] == ts[k + 1];
      RebuiltGrows(ls, rs[1..], rs[0].last + 1, cs[1..], ts[1..]);
      forall k | 0 <= k < |rs| && |cs[k]| + |ts[k]| > rs[k].last + 1 - rs[k].first
        ensures |Rebuilt(ls, rs, lo, cs, ts)| > |ls| - lo
      {
        if k > 0 {
          assert cs[1..][k - 1] == cs[k] && ts[1..][k - 1] == ts[k] && rs[1..][k - 1] == rs[k];
        }
      }
    }
  }

  lemma {:induction false} ClearPart(region: seq<Line>, job: Job)
    requires region != [] && (Wants(region, job) ==> forall i :: 0 <= i < |region| ==> !IsCert(region[i]))
    ensures |Core(region, job)| + |Tail(region, job)| == |region| + if Wants(region, job) then |Plan(Parse(region), job.cert, job.key)| else 0
  {
    hide Wants, Plan, Parse, Keep, CutAt, IsCert, Fits;
    var cut := CutAt(region);
    KeepAppend(region[..cut], region[cut..]);
    assert region[..cut] + region[cut..] == region;
    if Wants(region, job) {
      KeepAll(region);
    }
  }

  /** An install that has lines to add and none to drop makes the file longer. */
  lemma {:induction false} ClearGrows(ls: seq<Line>, job: Job, k: nat)
    requires Faithful(ls) && Inside(Scan(ls), |ls|) && k < |Scan(ls)| && Wants(Region(ls, Scan(ls)[k]), job)
    requires forall b, i :: 0 <= b < |Scan(ls)| && Scan(ls)[b].first <= i <= Scan(ls)[b].last && Wants(Region(ls, Scan(ls)[b]), job) ==> !IsCert(ls[i])
    ensures |Installed(ls, job)| > |ls|
  {
    hide ScanFrom, Installed, Wants, Plan, Parse, Read, IsCert, Core, Tail, Rebuilt, Ordered;
    InstalledIsRebuilt(ls, job);
    var rs := Scan(ls);
    var cs, ts := Cores(ls, rs, job), Tails(ls, rs, job);
    forall b | 0 <= b < |rs| ensures |cs[b]| + |ts[b]| >= rs[b].last + 1 - rs[b].first {
      ClearPart(Region(ls, rs[b]), job);
    }
    ClearPart(Region(ls, rs[k]), job);
    PlanNonEmpty(Parse(Region(ls, rs[k])), job);
    assert |cs[k]| + |ts[k]| > rs[k].last + 1 - rs[k].first;
    RebuiltGrows(ls, rs, 0, cs, ts);
  }

  lemma PlanNonEmpty(f: Facts, job: Job)
    ensures Plan(f, job.cert, job.key) != []
  {
    hide Read;
  }

  // ----- n installs -----------------------------------------------------------------------------

  ghost function Times(ls: seq<Line>, job: Job, n: nat): (r: seq<Line>)
    requires Faithful(ls)
    ensures Faithful(r)
  {
    if n == 0 then ls
    else
      InstalledFaithful(Times(ls, job, n - 1), job);
      Installed(Times(ls, job, n - 1), job)
  }

  lemma {:induction false} RegularTimes(ls: seq<Line>, job: Job, n: nat)
    requires Regular(ls, job)
    ensures Regular(Times(ls, job, n), job)
  {
    hide Regular, Installed;
    assert Faithful(ls) by { RegularFaithful(ls, job); }
    if n > 0 {
      RegularTimes(ls, job, n - 1);
      RegularStays(Times(ls, job, n - 1), job);
    }
  }

  lemma RegularFaithful(ls: seq<Line>, job: Job)
    requires Regular(ls, job)
    ensures Faithful(ls)
  {
  }

  /** A block its edit does not settle is edited by every install anew, however often. */
  lemma {:induction false} NeverSettles(ls: seq<Line>, job: Job, k: nat, n: nat)
    requires Regular(ls, job) && k < |Scan(ls)| && Inside(Scan(ls), |ls|)
    requires Wants(Region(ls, Scan(ls)[k]), job) && !Settles(Region(ls, Scan(ls)[k]), job)
    ensures
      var t := Times(ls, job, n);
      && |Scan(t)| == |Scan(ls)| && Inside(Scan(t), |t|)
      && Wants(Region(t, Scan(t)[k]), job) && !Settles(Region(t, Scan(t)[k]), job)
      && EditsFor(t, Scan(t), job) != []
  {
    hide Scan, Installed, Wants, EditsFor, Read, Settles, Sound, Steady;
    if n > 0 {
      NeverSettles(ls, job, k, n - 1);
      RegularTimes(ls, job, n - 1);
      StuckStays(Times(ls, job, n - 1), job, k);
    }
    var t := Times(ls, job, n);
    NoEditsIffNoneWanted(t, Scan(t), job);
  }

  lemma {:induction false} NoEditsNoChange(ls: seq<Line>, job: Job)
    requires Faithful(ls) && Inside(Scan(ls), |ls|) && EditsFor(ls, Scan(ls), job) == []
    ensures Installed(ls, job) == ls
  {
    hide Scan, EditsFor;
    assert ls[0..] == ls;
  }

  /** After one install the file never changes again, exactly when every edited block was settled by it. */
  lemma {:induction false} InstallsSettleIff(ls: seq<Line>, job: Job, n: nat)
    requires Regular(ls, job) && n >= 1
    ensures
      var t := Times(ls, job, n);
      && Inside(Scan(t), |t|)
      && (EditsFor(t, Scan(t), job) == [] <==> AllSettle(ls, job))
      && (AllSettle(ls, job) ==> t == Installed(ls, job))
  {
    hide Scan, Installed, Wants, EditsFor, Read, Settles, Sound, Steady;
    ScanInside(ls);
    if AllSettle(ls, job) {
      SettledStays(ls, job, n);
    } else {
      var k :| 0 <= k < |Scan(ls)| && Wants(Region(ls, Scan(ls)[k]), job) && !Settles(Region(ls, Scan(ls)[k]), job);
      NeverSettles(ls, job, k, n);
    }
  }

  lemma {:induction false} SettledStays(ls: seq<Line>, job: Job, n: nat)
    requires Regular(ls, job) && n >= 1 && AllSettle(ls, job)
    ensures
      var t := Times(ls, job, n);
      t == Installed(ls, job) && Inside(Scan(t), |t|) && EditsFor(t, Scan(t), job) == []
  {
    hide Scan, Installed, Wants, EditsFor, Read, Settles, Sound, Steady;
    if n == 1 {
      SecondInstallQuiet(ls, job);
      assert Times(ls, job, 0) == ls;
    } else {
      SettledStays(ls, job, n - 1);
      NoEditsNoChange(Times(ls, job, n - 1), job);
    }
  }

  // ----- a block that cannot hold its lines -----------------------------------------------------

  lemma {:induction false} PlainRead(text: string)
    requires '#' !in text && text != "" && !IsSpace(text[0]) && !IsSpace(text[|text| - 1])
    ensures
      var l := Read(text);
      && l.text == text && l.net == Balance(text) && l.words == Fields(TrimSemicolon(text))
      && (l.opens <==> |Fields(text)| > 0 && Fields(text)[0] == "server" && '{' in text)
  {
    hide Fields, Balance, LeadingSpace, TrimRightTabs, StripFrom;
    NoCommentFrom(text, 0, false, false);
  }

  lemma {:induction false} ExampleOpening()
    ensures
      var l := Read("server {");
      l.text == "server {" && l.net == 1 && l.opens && l.words == ["server", "{"]
  {
    hide Read, Fields, Balance;
    PlainRead("server {");
    assert "server {" == "server" + " " + "{" == "server " + "{";
    FieldsTwo("server", "{");
    BalanceAppend("server ", "{");
    NoBraces("server ");
    OneBrace();
  }

  lemma {:induction false} OneBrace()
    ensures Balance("{") == 1 && Balance("}") == -1
  {
    assert "{"[1..] == [] && "}"[1..] == [];
  }

  lemma {:induction false} ExampleClosing()
    ensures
      var l := Read("server_name a; }");
      l.text == "server_name a; }" && l.net == -1 && !l.opens && l.words == ["server_name", "a;", "}"]
  {
    hide Read, Fields, Balance;
    PlainRead("server_name a; }");
    ExampleWords();
    ExampleBalance();
  }

  lemma {:induction false} ExampleWords()
    ensures Fields("server_name a; }") == ["server_name", "a;", "}"]
  {
    hide Fields;
    FieldsThree("server_name", "a;", "}");
    assert "server_name" + " " + ("a;" + " " + "}") == "server_name a; }";
  }

  lemma {:induction false} ExampleBalance()
    ensures Balance("server_name a; }") == -1
  {
    hide Balance;
    BalanceAppend("server_name a; ", "}");
    NoBraces("server_name a; ");
    OneBrace();
    assert "server_name a; " + "}" == "server_name a; }";
  }

  lemma {:induction false} ExampleNames()
    ensures NamesOf(["a;", "}"]) == ["a", "}"]
  {
    assert TrimSet("a;", {';'}) == "a" && TrimSet("}", {';'}) == "}";
    assert Unquote("a") == "a" && Unquote("}") == "}";
    assert ["a;", "}"][1..] == ["}"] && ["}"][1..] == [];
  }

  lemma {:induction false} ExampleFacts(a: Line, b: Line, job: Job)
    requires a.words == ["server", "{"] && b.words == ["server_name", "a;", "}"] && job.want == "a"
    ensures Wants([a, b], job) && !Fits([a, b]) && Keep([a, b]) == [a, b]
  {
    hide Gather, NamesOf, Unquote, SslIn, Indent;
    GatherPair(a, b, LineNames);
    GatherPair(a, b, LineCerts);
    ExampleNames();
    assert b.words[1..] == ["a;", "}"];
    assert Gather([a, b], LineNames) == [] + ["a", "}"];
    assert Names(b) && [a, b][..1] == [a];
    assert [a, b][2..] == [];
    KeepAll([a, b]);
  }

  lemma {:induction false} ExampleScan(a: Line, b: Line)
    requires a.opens && a.net == 1 && b.net == -1
    ensures Scan([a, b]) == [Range(0, 1)]
  {
    assert Walk([a, b], 1, 0) == (1, 0);
    assert Walk([a, b], 0, 1) == (1, 0);
    assert ScanFrom([a, b], 2) == [];
  }

  /** Such a block exists: its only server_name stands on its closing line. */
  lemma {:induction false} ClosingNameExample()
    ensures
      var ls, job := [Read("server {"), Read("server_name a; }")], Job("a", "/c", "/k");
      && Regular(ls, job) && Inside(Scan(ls), |ls|) && |Scan(ls)| == 1
      && Wants(Region(ls, Scan(ls)[0]), job) && !Fits(Region(ls, Scan(ls)[0]))
  {
    hide Read, Scan, Wants, Keep, IsCert, PlainPath, Fits, Closed, Steady;
    ExampleOpening();
    ExampleClosing();
    ExamplePaths();
    var a, b, job := Read("server {"), Read("server_name a; }"), Job("a", "/c", "/k");
    ExampleScan(a, b);
    ExampleFacts(a, b, job);
    PlainIsSteady(job);
    var ls := [a, b];
    assert Region(ls, Range(0, 1)) == ls;
    ScannedBlock(ls, 0);
  }

  lemma PlainIsSteady(job: Job)
    requires PlainPath(job.cert) && PlainPath(job.key)
    ensures Steady(job)
  {
  }

  lemma ExamplePaths()
    ensures PlainPath("/c") && PlainPath("/k")
  {
    hide IsSpace;
    NoSpaces();
    NoCommentFrom("/c", 0, false, false);
    NoCommentFrom("/k", 0, false, false);
    NoBraces("/c");
    NoBraces("/k");
  }

  lemma NoSpaces()
    ensures !IsSpace('/') && !IsSpace('c') && !IsSpace('k')
  {
  }

  // ----- a block whose certificate line closes it -----------------------------------------------

  lemma {:induction false} NameLine()
    ensures
      var l := Read("server_name a;");
      l.text == "server_name a;" && l.net == 0 && !l.opens && l.words == ["server_name", "a"]
  {
    hide Read, Fields, Balance;
    PlainRead("server_name a;");
    NameWords();
    NoBraces("server_name a;");
  }

  lemma {:induction false} CertClosing()
    ensures
      var l := Read("ssl_certificate_key k; }");
      l.text == "ssl_certificate_key k; }" && l.net == -1 && !l.opens && l.words == ["ssl_certificate_key", "k;", "}"]
  {
    hide Read, Fields, Balance;
    PlainRead("ssl_certificate_key k; }");
    CertWords();
    CertBalance();
  }

  lemma {:induction false} NameWords()
    ensures Fields("server_name a;") == ["server_name", "a;"] && Fields(TrimSemicolon("server_name a;")) == ["server_name", "a"]
  {
    hide Fields;
    FieldsTwo("server_name", "a;");
    FieldsTwo("server_name", "a");
    assert "server_name" + " " + "a;" == "server_name a;" && "server_name" + " " + "a" == "server_name a";
    assert TrimSemicolon("server_name a;") == "server_name a";
  }

  lemma {:induction false} CertWords()
    ensures Fields("ssl_certificate_key k; }") == ["ssl_certificate_key", "k;", "}"]
  {
    hide Fields;
    FieldsThree("ssl_certificate_key", "k;", "}");
    assert "ssl_certificate_key" + " " + ("k;" + " " + "}") == "ssl_certificate_key k; }";
  }

  lemma {:induction false} CertBalance()
    ensures Balance("ssl_certificate_key k; }") == -1
  {
    hide Balance;
    BalanceAppend("ssl_certificate_key k; ", "}");
    NoBraces("ssl_certificate_key k; ");
    OneBrace();
    assert "ssl_certificate_key k; " + "}" == "ssl_certificate_key k; }";
  }

  lemma {:induction false} OneName()
    ensures NamesOf(["a"]) == ["a"]
  {
    assert TrimSet("a", {';'}) == "a" && Unquote("a") == "a" && ["a"][1..] == [];
  }

  lemma {:induction false} ScanThree(a: Line, b: Line, c: Line)
    requires a.opens && a.net == 1 && b.net == 0 && c.net == -1
    ensures Scan([a, b, c]) == [Range(0, 2)] && !Closed([a, b])
  {
    var ls := [a, b, c];
    assert Walk(ls, 2, 0) == (2, 0);
    assert Walk(ls, 1, 1) == (2, 0);
    assert Walk(ls, 0, 1) == (2, 0);
    assert ScanFrom(ls, 3) == [];
    assert Depth([a, b], 0, 0) == 1 && Depth([a, b], 0, 1) == 1;
  }

  lemma {:induction false} ThreeFacts(a: Line, b: Line, c: Line, job: Job)
    requires a.words == ["server", "{"] && b.words == ["server_name", "a"] && c.words == ["ssl_certificate_key", "k;", "}"] && job.want == "a"
    ensures Wants([a, b, c], job) && Keep([a, b, c]) == [a, b]
  {
    hide Gather, NamesOf, Unquote, SslIn, Indent, Keep;
    GatherThree(a, b, c, LineNames);
    GatherThree(a, b, c, LineCerts);
    OneName();
    assert b.words[1..] == ["a"];
    assert Gather([a, b, c], LineNames) == [] + ["a"] + [];
    KeepAppend([a, b], [c]);
    KeepOne(c);
    KeepAll([a, b]);
    assert [a, b] + [c] == [a, b, c] && [a, b] + [] == [a, b];
  }

  /** The condition is needed: a certificate line that also closes its block takes the brace along, and the block is lost. */
  lemma {:induction false} ClosingCertExample()
    ensures
      var ls, job := [Read("server {"), Read("server_name a;"), Read("ssl_certificate_key k; }")], Job("a", "/c", "/k");
      Faithful(ls) && Steady(job) && |Scan(ls)| == 1 && !Sound(ls, job) && !BlocksFound(ls, job)
  {
    hide Read, Scan, Wants, Keep, IsCert, PlainPath, Closed, Steady, BlocksFound;
    ExampleOpening();
    NameLine();
    CertClosing();
    ExamplePaths();
    var a, b, c, job := Read("server {"), Read("server_name a;"), Read("ssl_certificate_key k; }"), Job("a", "/c", "/k");
    ScanThree(a, b, c);
    ThreeFacts(a, b, c, job);
    PlainIsSteady(job);
    var ls := [a, b, c];
    assert Region(ls, Range(0, 2)) == ls;
    assert Scan(ls)[0] == Range(0, 2) && Wants(Region(ls, Scan(ls)[0]), job) && !Closed(Keep(Region(ls, Scan(ls)[0])));
    RescanIff(ls, job);
  }

  // ----- the file's braces ----------------------------------------------------------------------

  ghost function NetOf(ls: seq<Line>): int {
    if ls == [] then 0 else NetOf(ls[..|ls| - 1]) + ls[|ls| - 1].net
  }

  lemma {:induction false} NetAppend(a: seq<Line>, b: seq<Line>)
    ensures NetOf(a + b) == NetOf(a) + NetOf(b)
  {
    if b == [] {
      assert a + b == a;
    } else {
      assert (a + b)[..|a + b| - 1] == a + b[..|b| - 1];
      NetAppend(a, b[..|b| - 1]);
    }
  }

  lemma {:induction false} NeutralNet(ls: seq<Line>)
    requires NeutralAll(ls)
    ensures NetOf(ls) == 0
  {
    if ls != [] {
      NeutralNet(ls[..|ls| - 1]);
      assert Neutral(ls[|ls| - 1]);
    }
  }

  /** The balance of the certificate lines dropped from the edited blocks. */
  ghost function DroppedNet(ls: seq<Line>, rs: seq<Range>, job: Job): int
    requires Inside(rs, |ls|)
  {
    if rs == [] then 0
    else
      var region := Region(ls, rs[0]);
      (if Wants(region, job) then NetOf(region) - NetOf(Keep(region)) else 0) + DroppedNet(ls, rs[1..], job)
  }

  lemma {:induction false} PartNet(region: seq<Line>, job: Job)
    requires region != [] && Faithful(region) && Steady(job)
    ensures NetOf(NewBlock(region, job)) == if Wants(region, job) then NetOf(Keep(region)) else NetOf(region)
  {
    hide NetOf, Wants, Plan, Parse, Keep, CutAt, Read, NeutralAll;
    PlanFacts(region, job.cert, job.key);
    var cut, ins := CutAt(region), Plan(Parse(region), job.cert, job.key);
    var left, right := Keep(region[..cut]), Keep(region[cut..]);
    KeepAppend(region[..cut], region[cut..]);
    assert region[..cut] + region[cut..] == region;
    NetAppend(left + ins, right);
    NetAppend(left, ins);
    NetAppend(left, right);
    NeutralNet(ins);
  }

  lemma NetThree(a: seq<Line>, b: seq<Line>, c: seq<Line>)
    ensures NetOf(a + b + c) == NetOf(a) + NetOf(b) + NetOf(c)
  {
    hide NetOf;
    NetAppend(a + b, c);
    NetAppend(a, b);
  }

  lemma NetAround(ls: seq<Line>, lo: nat, r: Range)
    requires lo <= r.first <= r.last < |ls|
    ensures NetOf(ls[lo..]) == NetOf(ls[lo..r.first]) + NetOf(Region(ls, r)) + NetOf(ls[r.last + 1..])
  {
    hide NetOf;
    NetThree(ls[lo..r.first], Region(ls, r), ls[r.last + 1..]);
    assert ls[lo..] == ls[lo..r.first] + Region(ls, r) + ls[r.last + 1..];
  }

  lemma NothingDropped(ls: seq<Line>, job: Job)
    ensures DroppedNet(ls, [], job) == 0
  {
  }

  lemma DroppedFirst(ls: seq<Line>, rs: seq<Range>, job: Job)
    requires Inside(rs, |ls|) && rs != []
    ensures
      var region := Region(ls, rs[0]);
      DroppedNet(ls, rs, job) == (if Wants(region, job) then NetOf(region) - NetOf(Keep(region)) else 0) + DroppedNet(ls, rs[1..], job)
  {
    hide NetOf, Wants, Keep;
  }

  lemma {:induction false} RebuiltNet(ls: seq<Line>, rs: seq<Range>, job: Job, lo: nat)
    requires Faithful(ls) && Steady(job) && lo <= |ls| && Inside(rs, |ls|) && Ordered(rs, lo, |ls|)
    ensures NetOf(Rebuilt(ls, rs, lo, Cores(ls, rs, job), Tails(ls, rs, job))) == NetOf(ls[lo..]) - DroppedNet(ls, rs, job)
    decreases |rs|
  {
    hide NetOf, Core, Tail, Read, Steady, Wants, Keep, Rebuilt, Ordered, DroppedNet, NewBlock;
    if rs == [] {
      NothingDropped(ls, job);
      RebuiltNone(ls, lo);
    } else {
      OrderedHead(rs, lo, |ls|);
      var r := rs[0];
      var region, cs, ts := Region(ls, r), Cores(ls, rs, job), Tails(ls, rs, job);
      RebuiltNet(ls, rs[1..], job, r.last + 1);
      assert cs[1..] == Cores(ls, rs[1..], job) && ts[1..] == Tails(ls, rs[1..], job);
      var gap, rest := ls[lo..r.first], Rebuilt(ls, rs[1..], r.last + 1, cs[1..], ts[1..]);
      RebuiltHead(ls, rs, lo, cs, ts);
      NewBlockParts(region, job);
      PartNet(region, job);
      assert gap + cs[0] + ts[0] + rest == gap + (cs[0] + ts[0]) + rest;
      NetThree(gap, cs[0] + ts[0], rest);
      NetAround(ls, lo, r);
      DroppedFirst(ls, rs, job);
    }
  }

  /** An install keeps the file's brace balance exactly when the certificate lines it drops balance out. */
  lemma {:induction false} BalanceKeptIff(ls: seq<Line>, job: Job)
    requires Faithful(ls) && Steady(job)
    ensures Inside(Scan(ls), |ls|)
    ensures NetOf(Installed(ls, job)) == NetOf(ls) <==> DroppedNet(ls, Scan(ls), job) == 0
  {
    hide ScanFrom, Installed, NetOf, DroppedNet, Read, Steady, Rebuilt, Core, Tail, Ordered;
    InstalledIsRebuilt(ls, job);
    RebuiltNet(ls, Scan(ls), job, 0);
    assert ls[0..] == ls;
  }

  // ----- when edited blocks stay closed ---------------------------------------------------------

  lemma {:induction false} DepthIsNet(b: seq<Line>, k: nat)
    requires k < |b|
    ensures Depth(b, 0, k) == NetOf(b[..k + 1])
  {
    assert b[..k + 1][..k] == b[..k];
    if k > 0 {
      DepthIsNet(b, k - 1);
    } else {
      assert b[..0] == [];
    }
  }

  lemma OneNet(l: Line)
    ensures NetOf([l]) == l.net && NetOf([]) == 0
  {
    assert [l][..0] == [];
  }

  lemma {:induction false} KeepNet(ls: seq<Line>)
    requires forall i :: 0 <= i < |ls| && IsCert(ls[i]) ==> ls[i].net == 0
    ensures NetOf(Keep(ls)) == NetOf(ls)
  {
    if ls != [] {
      hide NetOf, IsCert;
      var n := |ls| - 1;
      var rest, l := ls[..n], ls[n];
      KeepNet(rest);
      assert ls == rest + [l];
      KeepAppend(rest, [l]);
      KeepOne(l);
      NetAppend(Keep(rest), Keep([l]));
      NetAppend(rest, [l]);
      OneNet(l);
    }
  }

  /** A prefix of the lines that stay is what stays of a prefix. */
  lemma {:induction false} KeepPrefix(ls: seq<Line>, i: nat) returns (j: nat)
    requires i < |Keep(ls)|
    ensures j < |ls| && Keep(ls)[..i + 1] == Keep(ls[..j + 1]) && (i == |Keep(ls)| - 1 || j < |ls| - 1)
  {
    var n := |ls| - 1;
    if i < |Keep(ls[..n])| {
      j := KeepPrefix(ls[..n], i);
      assert Keep(ls)[..i + 1] == Keep(ls[..n])[..i + 1];
      assert ls[..n][..j + 1] == ls[..j + 1];
    } else {
      j := n;
      assert ls[..n + 1] == ls && Keep(ls)[..i + 1] == Keep(ls);
    }
  }

  /** A block whose certificate lines carry no brace imbalance stays closed without them. */
  lemma {:induction false} NeutralIsSound(region: seq<Line>)
    requires Closed(region) && !IsCert(region[0]) && forall i :: 0 <= i < |region| && IsCert(region[i]) ==> region[i].net == 0
    ensures Closed(Keep(region))
  {
    hide Keep, IsCert, Depth, NetOf;
    KeepFirst(region);
    var k := Keep(region);
    forall i | 0 <= i < |k| ensures Depth(k, 0, i) == 0 || i < |k| - 1 ensures i < |k| - 1 ==> Depth(k, 0, i) > 0 {
      DepthIsNet(k, i);
      var j := KeepPrefix(region, i);
      KeepNet(region[..j + 1]);
      DepthIsNet(region, j);
      if i == |k| - 1 {
        assert k[..i + 1] == k && region[..|region|] == region;
        KeepNet(region);
        DepthIsNet(region, |region| - 1);
      }
    }
  }

  /** Conversely, a block that stays closed has lost as many opening as closing braces: none on balance. */
  lemma {:induction false} SoundBalances(region: seq<Line>)
    requires Closed(region) && Closed(Keep(region))
    ensures NetOf(region) == NetOf(Keep(region)) == 0
  {
    hide Keep, Depth, NetOf;
    var k := Keep(region);
    DepthIsNet(region, |region| - 1);
    DepthIsNet(k, |k| - 1);
    assert region[..|region|] == region && k[..|k|] == k;
  }
}
