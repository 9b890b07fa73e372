/**
  What lines already in a configuration file mean to the installer: where comments end, what
  counts as a word, a server name, a certificate path and a TLS listener, each against an
  independent description.
 */
module NginxReading {
  import opened Bytes
  import opened Text
  import opened NginxLines
  import opened NginxScan
  import opened NginxEdit

  // ----- comments -------------------------------------------------------------------------------

  datatype Mode = Plain | InSingle | InDouble

  /** Whether text up to here ends inside a quoted string. */
  function ModeAfter(s: string): Mode {
    if s == [] then Plain
    else
      var before, c := ModeAfter(s[..|s| - 1]), s[|s| - 1];
      if c == '\'' then if before == Plain then InSingle else if before == InSingle then Plain else before
      else if c == '"' then if before == Plain then InDouble else if before == InDouble then Plain else before
      else before
  }

  /** A comment starts at `n`: a '#' outside quotes. */
  ghost predicate CommentAt(line: string, n: nat) {
    n < |line| && line[n] == '#' && ModeAfter(line[..n]) == Plain
  }

  lemma {:induction false} StripFromIs(line: string, i: nat, inS: bool, inD: bool) returns (n: nat)
    requires i <= |line| && !(inS && inD)
    requires ModeAfter(line[..i]) == if inS then InSingle else if inD then InDouble else Plain
    ensures i <= n <= |line| && StripFrom(line, i, inS, inD) == line[..n]
    ensures (n == |line| || CommentAt(line, n)) && forall k: nat :: i <= k < n ==> !CommentAt(line, k)
    decreases |line| - i
  {
    if i == |line| {
      n := i;
      assert line[..n] == line;
    } else {
      assert line[..i + 1][..i] == line[..i];
      if line[i] == '\'' && !inD {
        n := StripFromIs(line, i + 1, !inS, inD);
      } else if line[i] == '"' && !inS {
        n := StripFromIs(line, i + 1, inS, !inD);
      } else if line[i] == '#' && !inS && !inD {
        n := i;
      } else {
        n := StripFromIs(line, i + 1, inS, inD);
      }
    }
  }

  /** What is left of a line is everything before its first '#' outside quotes. */
  lemma CommentsEndTheLine(line: string) returns (n: nat)
    ensures n <= |line| && StripComment(line) == line[..n]
    ensures (n == |line| || CommentAt(line, n)) && forall k: nat :: k < n ==> !CommentAt(line, k)
  {
    assert line[..0] == [];
    n := StripFromIs(line, 0, false, false);
  }

  // ----- braces and words -----------------------------------------------------------------------

  /** The balance is the number of opening less the number of closing braces. */
  lemma {:induction false} BalanceCounts(s: string)
    ensures Balance(s) + multiset(s)['}'] == multiset(s)['{']
  {
    if s != [] {
      BalanceCounts(s[1..]);
      assert s == [s[0]] + s[1..];
      assert multiset(s) == multiset{s[0]} + multiset(s[1..]);
    }
  }

  /** Gaps and words, alternating. */
  ghost function Interleaved(gaps: seq<string>, ws: seq<string>): string
    requires |gaps| == |ws| + 1
  {
    if ws == [] then gaps[0] else gaps[0] + ws[0] + Interleaved(gaps[1..], ws[1..])
  }

  /** These are the words of the string: runs without white space, with white space between and around them. */
  ghost predicate Split(s: string, gaps: seq<string>, ws: seq<string>) {
    && |gaps| == |ws| + 1 && s == Interleaved(gaps, ws)
    && (forall i :: 0 <= i < |ws| ==> Word(ws[i]))
    && (forall i :: 0 <= i < |gaps| ==> Blank(gaps[i]))
    && (forall i :: 1 <= i < |ws| ==> gaps[i] != "")
  }

  lemma {:induction false} FieldsSplit(s: string) returns (gaps: seq<string>)
    ensures Split(s, gaps, Fields(s))
    decreases |s|
  {
    hide Split;
    if s == [] {
      gaps := [""];
      assert Split("", [""], []) by { NothingSplit(); }
    } else if IsSpace(s[0]) {
      var more := FieldsSplit(s[1..]);
      gaps := SpaceFirst(s, more, Fields(s[1..]));
    } else {
      var n := WordLen(s);
      var more := FieldsSplit(s[n..]);
      gaps := [""] + more;
      WordPart(s);
      WordStops(s);
      WordFirst(s, n, more, Fields(s[n..]));
    }
  }

  lemma NothingSplit()
    ensures Split("", [""], [])
  {
  }

  lemma SpaceFirst(s: string, more: seq<string>, ws: seq<string>) returns (gaps: seq<string>)
    requires s != [] && IsSpace(s[0]) && Split(s[1..], more, ws)
    ensures Split(s, gaps, ws)
  {
    gaps := [[s[0]] + more[0]] + more[1..];
    assert gaps[1..] == more[1..];
    assert forall i :: 1 <= i < |gaps| ==> gaps[i] == more[i];
    assert s == [s[0]] + s[1..];
    if ws != [] {
      var rest := Interleaved(more[1..], ws[1..]);
      assert [s[0]] + (more[0] + ws[0] + rest) == [s[0]] + more[0] + ws[0] + rest;
    }
  }

  lemma WordFirst(s: string, n: nat, more: seq<string>, ws: seq<string>)
    requires 0 < n <= |s| && Word(s[..n]) && Split(s[n..], more, ws) && (n == |s| || IsSpace(s[n]))
    ensures Split(s, [""] + more, [s[..n]] + ws)
  {
    FirstGap(s[n..], more, ws);
    var gaps, all := [""] + more, [s[..n]] + ws;
    assert gaps[1..] == more && all[1..] == ws;
    assert forall i :: 1 <= i < |gaps| ==> gaps[i] == more[i - 1];
    assert forall i :: 1 <= i < |all| ==> all[i] == ws[i - 1];
    assert "" + s[..n] + s[n..] == s;
  }

  lemma {:induction false} WordStops(s: string)
    ensures WordLen(s) == |s| || IsSpace(s[WordLen(s)])
  {
    if s != [] && !IsSpace(s[0]) {
      WordStops(s[1..]);
    }
  }

  lemma FirstGap(s: string, gaps: seq<string>, ws: seq<string>)
    requires Split(s, gaps, ws) && (s == [] || IsSpace(s[0]))
    ensures ws != [] ==> gaps[0] != ""
  {
    if ws != [] {
      assert Word(ws[0]);
      assert s[|gaps[0]|] == ws[0][0];
    }
  }

  lemma {:induction false} FieldsOfGap(b: string, s: string)
    requires Blank(b)
    ensures Fields(b + s) == Fields(s)
  {
    if b == [] {
      assert b + s == s;
    } else {
      assert (b + s)[1..] == b[1..] + s && (b + s)[0] == b[0];
      FieldsOfGap(b[1..], s);
    }
  }

  /** There is only one way to split a string into words. */
  lemma {:induction false} SplitUnique(s: string, gaps: seq<string>, ws: seq<string>)
    requires Split(s, gaps, ws)
    ensures ws == Fields(s)
    decreases |ws|
  {
    if ws == [] {
      FieldsOfGap(gaps[0], "");
      assert gaps[0] + "" == gaps[0];
    } else {
      var rest := Interleaved(gaps[1..], ws[1..]);
      assert s == gaps[0] + (ws[0] + rest);
      FieldsOfGap(gaps[0], ws[0] + rest);
      assert forall i :: 0 <= i < |gaps| - 1 ==> gaps[1..][i] == gaps[i + 1];
      assert forall i :: 0 <= i < |ws| - 1 ==> ws[1..][i] == ws[i + 1];
      SplitUnique(rest, gaps[1..], ws[1..]);
      RestStarts(rest, gaps[1..], ws[1..]);
      assert Word(ws[0]);
      FieldsWord(ws[0], rest);
    }
  }

  lemma RestStarts(rest: string, gaps: seq<string>, ws: seq<string>)
    requires Split(rest, gaps, ws) && (ws != [] ==> gaps[0] != "")
    ensures rest == "" || IsSpace(rest[0])
  {
  }

  lemma FieldsTrim(s: string)
    ensures Fields(Trim(s)) == Fields(s)
  {
    hide Fields;
    TrimRightShape(s);
    var r := TrimRight(s);
    TrimLeftShape(r);
    var a, b := r[..|r| - |Trim(s)|], s[|r|..];
    assert s == a + (Trim(s) + b);
    FieldsOfGap(a, Trim(s) + b);
    FieldsBefore(Trim(s), b);
  }

  lemma {:induction false} FieldsBefore(s: string, b: string)
    requires Blank(b)
    ensures Fields(s + b) == Fields(s)
  {
    var gaps := FieldsSplit(s);
    var n := |gaps| - 1;
    var longer := gaps[n := gaps[n] + b];
    LastGap(gaps, Fields(s), b);
    SplitUnique(s + b, longer, Fields(s));
  }

  lemma {:induction false} LastGap(gaps: seq<string>, ws: seq<string>, b: string)
    requires |gaps| == |ws| + 1
    ensures Interleaved(gaps[|ws| := gaps[|ws|] + b], ws) == Interleaved(gaps, ws) + b
    decreases |ws|
  {
    if ws != [] {
      LastGap(gaps[1..], ws[1..], b);
      assert gaps[|ws| := gaps[|ws|] + b][1..] == gaps[1..][|ws| - 1 := gaps[1..][|ws| - 1] + b];
      var rest := Interleaved(gaps[1..], ws[1..]);
      assert gaps[0] + ws[0] + (rest + b) == gaps[0] + ws[0] + rest + b;
    }
  }

  lemma BraceStays(s: string)
    ensures '{' in Trim(s) <==> '{' in s
  {
    hide Trim;
    var a, b := Trimmed(s);
    assert !IsSpace('{');
    assert '{' !in a && '{' !in b;
  }

  /** `u` is the string without the white space around it. */
  ghost predicate Surrounded(s: string, u: string) {
    && (u == "" ==> Blank(s))
    && (u != "" ==> !IsSpace(u[0]) && !IsSpace(u[|u| - 1]) && exists a, b :: Blank(a) && Blank(b) && s == a + u + b)
  }

  lemma TrimSurrounds(s: string)
    ensures Surrounded(s, Trim(s))
  {
    hide Trim, Blank, IsSpace;
    BlankTrim(s);
    var a, b := Trimmed(s);
  }

  /**
    How any line reads: up to its comment it opens a block exactly if its first word is `server`
    and a brace opens in it; its balance counts braces; and its directive words are those of the
    rest without white space around it and without one final semicolon.
   */
  lemma ReadIs(text: string) returns (n: nat)
    ensures n <= |text| && (n == |text| || CommentAt(text, n)) && forall k: nat :: k < n ==> !CommentAt(text, k)
    ensures
      var l, bare := Read(text), text[..n];
      && l.text == text
      && l.net + multiset(bare)['}'] == multiset(bare)['{']
      && (l.opens <==> Fields(bare) != [] && Fields(bare)[0] == "server" && '{' in bare)
      && exists u :: Surrounded(bare, u) &&
           l.words == Fields(if u != "" && u[|u| - 1] == ';' then u[..|u| - 1] else u)
  {
    hide Fields, Trim, Surrounded, StripComment, Balance, LeadingSpace, TrimRightTabs, CommentAt;
    n := CommentsEndTheLine(text);
    var bare := text[..n];
    BalanceCounts(bare);
    FieldsTrim(bare);
    BraceStays(bare);
    TrimSurrounds(bare);
  }

  /** The indentation of a line: its first blanks and tabs, if anything but blanks and tabs is left of it. */
  lemma LeadIs(text: string)
    ensures
      var bare, lead := StripComment(text), Read(text).lead;
      if forall k :: 0 <= k < |bare| ==> bare[k] == ' ' || bare[k] == '\t' then lead == ""
      else
        && |lead| < |bare| && lead == bare[..|lead|] && Tabs(lead)
        && bare[|lead|] != ' ' && bare[|lead|] != '\t'
  {
    hide StripComment, Fields, Trim, Balance;
    LeadOf(StripComment(text));
  }

  lemma {:induction false} LeadOf(bare: string)
    ensures
      var lead := LeadingSpace(TrimRightTabs(bare));
      if forall k :: 0 <= k < |bare| ==> bare[k] == ' ' || bare[k] == '\t' then lead == ""
      else
        && |lead| < |bare| && lead == bare[..|lead|] && Tabs(lead)
        && bare[|lead|] != ' ' && bare[|lead|] != '\t'
  {
    TabsCut(bare);
    TabsEnd(TrimRightTabs(bare));
    var t := TrimRightTabs(bare);
    if t != [] {
      assert bare[|t| - 1] == t[|t| - 1];
    }
    assert forall k :: 0 <= k < |t| ==> t[k] == bare[k];
    assert forall k :: |t| <= k < |bare| ==> bare[k] == bare[|t|..][k - |t|];
  }

  lemma {:induction false} TabsCut(s: string)
    ensures
      var t := TrimRightTabs(s);
      |t| <= |s| && t == s[..|t|] && Tabs(s[|t|..]) && (t != [] ==> t[|t| - 1] != ' ' && t[|t| - 1] != '\t')
  {
    if s != [] && (s[|s| - 1] == ' ' || s[|s| - 1] == '\t') {
      TabsCut(s[..|s| - 1]);
      var t := TrimRightTabs(s);
      assert s[|t|..] == s[..|s| - 1][|t|..] + [s[|s| - 1]];
    }
  }

  lemma {:induction false} TabsEnd(s: string)
    ensures TabLen(s) == |s| || (s[TabLen(s)] != ' ' && s[TabLen(s)] != '\t')
  {
    if s != [] && (s[0] == ' ' || s[0] == '\t') {
      TabsEnd(s[1..]);
    }
  }

  // ----- server names and certificate paths -----------------------------------------------------

  ghost predicate Within(a: string, cut: set<char>) { forall k :: 0 <= k < |a| ==> a[k] in cut }

  /** `t` is what is left of `s` when characters of `cut` are taken off both ends. */
  ghost predicate Stripped(s: string, cut: set<char>, t: string) {
    && (exists a, b :: s == a + t + b && Within(a, cut) && Within(b, cut))
    && (t != "" ==> t[0] !in cut && t[|t| - 1] !in cut)
  }

  lemma {:induction false} TrimSetStrips(s: string, cut: set<char>)
    ensures Stripped(s, cut, TrimSet(s, cut))
  {
    var a, b := TrimSetParts(s, cut);
  }

  lemma {:induction false} TrimSetParts(s: string, cut: set<char>) returns (a: string, b: string)
    ensures
      var t := TrimSet(s, cut);
      s == a + t + b && Within(a, cut) && Within(b, cut) && (t != "" ==> t[0] !in cut && t[|t| - 1] !in cut)
  {
    hide Within;
    NoneWithin(cut);
    a, b := [], [];
    if s != [] {
      var n := |s| - 1;
      if s[0] in cut {
        a, b := TrimSetParts(s[1..], cut);
        MoreWithin(s[0], a, cut);
        LeftPart(s, a, TrimSet(s, cut), b);
        a := [s[0]] + a;
      } else if s[n] in cut {
        a, b := TrimSetParts(s[..n], cut);
        MoreWithin(s[n], b, cut);
        RightPart(s, a, TrimSet(s, cut), b);
        b := b + [s[n]];
      }
    }
  }

  lemma NoneWithin(cut: set<char>)
    ensures Within([], cut)
  {
  }

  lemma MoreWithin(c: char, a: string, cut: set<char>)
    requires c in cut && Within(a, cut)
    ensures Within([c] + a, cut) && Within(a + [c], cut)
  {
  }

  lemma LeftPart(s: string, a: string, t: string, b: string)
    requires s != "" && s[1..] == a + t + b
    ensures s == [s[0]] + a + t + b
  {
    assert s == [s[0]] + s[1..];
  }

  lemma RightPart(s: string, a: string, t: string, b: string)
    requires s != "" && s[..|s| - 1] == a + t + b
    ensures s == a + t + (b + [s[|s| - 1]])
  {
    assert s == s[..|s| - 1] + [s[|s| - 1]];
  }

  /** Word `k` of a line, if the line is this directive, with quotes and semicolons off. */
  ghost predicate NameWord(l: Line, k: nat, x: string) {
    && 1 <= k < |l.words| && l.words[0] == "server_name"
    && exists f :: Stripped(l.words[k], {';'}, f) && f != "" && f != "-" && Stripped(f, {'"', '\''}, x)
  }

  lemma {:induction false} NamesOfIs(fs: seq<string>, x: string)
    ensures x in NamesOf(fs) ==> exists k, f :: 0 <= k < |fs| && Stripped(fs[k], {';'}, f) && f != "" && f != "-" && Stripped(f, {'"', '\''}, x)
  {
    hide Stripped, TrimSet;
    if fs != [] {
      NamesOfIs(fs[1..], x);
      var f := TrimSet(fs[0], {';'});
      TrimSetStrips(fs[0], {';'});
      TrimSetStrips(f, {'"', '\''});
      if x in NamesOf(fs[1..]) {
        var k, g :| 0 <= k < |fs| - 1 && Stripped(fs[1..][k], {';'}, g) && g != "" && g != "-" && Stripped(g, {'"', '\''}, x);
        assert Stripped(fs[k + 1], {';'}, g);
      } else if x in NamesOf(fs) {
        assert Stripped(fs[0], {';'}, f);
      }
    }
  }

  lemma Ends(a: string, t: string, b: string)
    ensures
      var s := a + t + b;
      && (s != "" ==> s[0] == if a != "" then a[0] else if t != "" then t[0] else b[0])
      && (s != "" ==> s[|s| - 1] == if b != "" then b[|b| - 1] else if t != "" then t[|t| - 1] else a[|a| - 1])
  {
  }

  lemma StripLeft(a: string, t: string, b: string)
    requires a + t + b != ""
    ensures (a + t + b)[1..] == if a != "" then a[1..] + t + b else if t != "" then t[1..] + b else b[1..]
  {
  }

  lemma StripRight(a: string, t: string, b: string)
    requires b != ""
    ensures (a + t + b)[..|a + t + b| - 1] == a + t + b[..|b| - 1]
  {
  }

  /** There is only one result of taking characters off both ends. */
  lemma {:induction false} StrippedUnique(s: string, cut: set<char>, t: string)
    requires Stripped(s, cut, t)
    ensures t == TrimSet(s, cut)
  {
    var a, b :| s == a + t + b && Within(a, cut) && Within(b, cut);
    PartsUnique(a, t, b, cut);
  }

  lemma {:induction false} PartsUnique(a: string, t: string, b: string, cut: set<char>)
    requires Within(a, cut) && Within(b, cut) && (t != "" ==> t[0] !in cut && t[|t| - 1] !in cut)
    ensures TrimSet(a + t + b, cut) == t
    decreases |a| + |b|
  {
    var s := a + t + b;
    Ends(a, t, b);
    if s != "" {
      StripLeft(a, t, b);
      if a != "" {
        PartsUnique(a[1..], t, b, cut);
      } else if t == "" {
        PartsUnique("", "", b[1..], cut);
        assert "" + "" + b[1..] == b[1..];
      } else if b != "" {
        StripRight(a, t, b);
        PartsUnique(a, t, b[..|b| - 1], cut);
      }
    }
  }

  lemma {:induction false} NamesOfHas(fs: seq<string>, k: nat, f: string, x: string)
    requires k < |fs| && Stripped(fs[k], {';'}, f) && f != "" && f != "-" && Stripped(f, {'"', '\''}, x)
    ensures x in NamesOf(fs)
  {
    hide Stripped, TrimSet;
    if k == 0 {
      StrippedUnique(fs[0], {';'}, f);
      StrippedUnique(f, {'"', '\''}, x);
    } else {
      NamesOfHas(fs[1..], k - 1, f, x);
    }
  }

  lemma {:induction false} GatherHas(ls: seq<Line>, f: Line -> seq<string>, x: string)
    ensures x in Gather(ls, f) <==> exists i :: 0 <= i < |ls| && x in f(ls[i])
  {
    if ls != [] {
      var n := |ls| - 1;
      GatherHas(ls[..n], f, x);
      assert forall i :: 0 <= i < n ==> ls[..n][i] == ls[i];
    }
  }

  /** A block has a server name exactly if a word after `server_name`, semicolons and quotes off, is it and is neither empty nor a dash. */
  lemma NamedIff(region: seq<Line>, x: string)
    ensures x in Parse(region).names <==> exists i: nat, k: nat :: i < |region| && NameWord(region[i], k, x)
  {
    hide Gather, NamesOf, SslIn, Indent, Stripped;
    GatherHas(region, LineNames, x);
    if i :| 0 <= i < |region| && x in LineNames(region[i]) {
      var fs := region[i].words[1..];
      NamesOfIs(fs, x);
      var k, f :| 0 <= k < |fs| && Stripped(fs[k], {';'}, f) && f != "" && f != "-" && Stripped(f, {'"', '\''}, x);
      assert region[i].words[k + 1] == fs[k];
      assert NameWord(region[i], k + 1, x);
    }
    forall i: nat, k: nat | i < |region| && NameWord(region[i], k, x) ensures x in LineNames(region[i]) {
      var fs := region[i].words[1..];
      var f :| Stripped(region[i].words[k], {';'}, f) && f != "" && f != "-" && Stripped(f, {'"', '\''}, x);
      assert fs[k - 1] == region[i].words[k];
      NamesOfHas(fs, k - 1, f, x);
    }
  }

  /** A block serves a certificate exactly if the word after `ssl_certificate`, quotes off, is its path. */
  lemma ServesIff(region: seq<Line>, x: string)
    ensures x in Parse(region).certs <==>
            exists i :: 0 <= i < |region| && |region[i].words| > 1 && region[i].words[0] == "ssl_certificate" && Stripped(region[i].words[1], {'"', '\''}, x)
  {
    hide Gather, SslIn, Indent, Stripped, TrimSet;
    GatherHas(region, LineCerts, x);
    forall i | 0 <= i < |region| && |region[i].words| > 1
      ensures Stripped(region[i].words[1], {'"', '\''}, x) <==> x == Unquote(region[i].words[1])
    {
      TrimSetStrips(region[i].words[1], {'"', '\''});
      if Stripped(region[i].words[1], {'"', '\''}, x) {
        StrippedUnique(region[i].words[1], {'"', '\''}, x);
      }
    }
  }

  // ----- TLS listeners --------------------------------------------------------------------------

  predicate AllDigits(s: string) { forall k :: 0 <= k < |s| ==> '0' <= s[k] <= '9' }

  /** The number a digit string denotes. */
  function Decimal(s: string): nat
    requires AllDigits(s)
  {
    if s == [] then 0 else 10 * Decimal(s[..|s| - 1]) + (s[|s| - 1] as int - '0' as int)
  }

  lemma {:induction false} DigitsAppend(s: string, c: char, acc: nat)
    ensures Digits(s + [c], acc) ==
            if Digits(s, acc).None? || !('0' <= c <= '9') then None else Some(10 * Digits(s, acc).value + (c as int - '0' as int))
  {
    if s == [] {
      assert s + [c] == [c];
      assert [c][1..] == [];
    } else {
      assert (s + [c])[1..] == s[1..] + [c];
      if '0' <= s[0] <= '9' {
        DigitsAppend(s[1..], c, 10 * acc + (s[0] as int - '0' as int));
      }
    }
  }

  lemma {:induction false} DigitsIs(s: string)
    ensures Digits(s, 0).Some? <==> AllDigits(s)
    ensures AllDigits(s) ==> Digits(s, 0).value == Decimal(s)
  {
    if s != [] {
      var n := |s| - 1;
      DigitsIs(s[..n]);
      DigitsAppend(s[..n], s[n], 0);
      assert s == s[..n] + [s[n]];
      assert AllDigits(s) <==> AllDigits(s[..n]) && '0' <= s[n] <= '9';
    }
  }

  /** A port by which the installer takes a listener for TLS: decimal 443 or 8443, a plus sign allowed. */
  ghost predicate TlsPort(p: string) {
    var body := if p != "" && p[0] == '+' then p[1..] else p;
    body != "" && AllDigits(body) && (Decimal(body) == 443 || Decimal(body) == 8443)
  }

  /** The word is `ssl`, or what follows its last colon (or all of it) is such a port. */
  ghost predicate TlsWord(f: string) {
    f == "ssl" || exists n :: 0 <= n <= |f| && (n == 0 || f[n - 1] == ':') && ':' !in f[n..] && TlsPort(f[n..])
  }

  lemma AtoiIs(p: string)
    ensures Atoi(p) == Some(443) || Atoi(p) == Some(8443) <==> TlsPort(p)
  {
    hide Digits, Decimal;
    if p != [] {
      DigitsIs(p[1..]);
      DigitsIs(p);
      assert p[0] == '+' || p[0] == '-' ==> !AllDigits(p);
    }
  }

  /** `t` is what follows the last colon of `s`, or all of it. */
  ghost predicate AfterColon(s: string, t: string) {
    exists a :: s == a + t && ':' !in t && (a == "" || a[|a| - 1] == ':')
  }

  lemma {:induction false} ColonIs(s: string)
    ensures AfterColon(s, AfterLastColon(s))
  {
    hide AfterColon;
    if s == [] || s[|s| - 1] == ':' {
      ColonLast(s);
    } else {
      ColonIs(s[..|s| - 1]);
      ColonMore(s, AfterLastColon(s[..|s| - 1]));
    }
  }

  lemma ColonLast(s: string)
    requires s == [] || s[|s| - 1] == ':'
    ensures AfterColon(s, [])
  {
    assert s == s + [];
  }

  lemma ColonMore(s: string, t: string)
    requires s != [] && s[|s| - 1] != ':' && AfterColon(s[..|s| - 1], t)
    ensures AfterColon(s, t + [s[|s| - 1]])
  {
    var n := |s| - 1;
    var a :| s[..n] == a + t && ':' !in t && (a == "" || a[|a| - 1] == ':');
    assert s == s[..n] + [s[n]];
    assert s == a + (t + [s[n]]);
  }

  lemma ColonBehind(f: string, n: nat, m: nat)
    ensures n < m <= |f| && f[m - 1] == ':' ==> ':' in f[n..]
  {
    if n < m <= |f| {
      assert f[n..][m - 1 - n] == f[m - 1];
    }
  }

  lemma OneLastColon(f: string, n: nat, m: nat)
    requires n <= |f| && (n == 0 || f[n - 1] == ':') && ':' !in f[n..]
    requires m <= |f| && (m == 0 || f[m - 1] == ':') && ':' !in f[m..]
    ensures n == m
  {
    ColonBehind(f, n, m);
    ColonBehind(f, m, n);
  }

  /** The installer's test of a word is exactly that. */
  lemma TlsWordIff(f: string)
    ensures SslWord(f) <==> TlsWord(f)
  {
    hide Atoi, AfterLastColon, TlsPort;
    var off := if |f| >= 5 && f[..5] == "[::]:" then 5 else 0;
    var port := f[off..];
    assert off == 0 ==> port == f;
    ColonIs(port);
    var t := AfterLastColon(port);
    ColonPlace(f, off, t);
    var n := |f| - |t|;
    AtoiIs(t);
    forall m | 0 <= m <= |f| && (m == 0 || f[m - 1] == ':') && ':' !in f[m..] ensures m == n {
      OneLastColon(f, m, n);
    }
  }

  lemma ColonPlace(f: string, off: nat, t: string)
    requires off <= |f| && (off == 0 || f[off - 1] == ':') && AfterColon(f[off..], t)
    ensures |t| <= |f| && t == f[|f| - |t|..] && ':' !in t && (|t| == |f| || f[|f| - |t| - 1] == ':')
  {
    var a :| f[off..] == a + t && ':' !in t && (a == "" || a[|a| - 1] == ':');
    assert f == f[..off] + (a + t);
  }

  /** This line is a TLS listener. */
  ghost predicate TlsListen(l: Line) {
    |l.words| > 0 && l.words[0] == "listen" && exists k :: 1 <= k < |l.words| && TlsWord(l.words[k])
  }

  lemma {:induction false} SslInIff(region: seq<Line>)
    ensures SslIn(region) <==> exists i :: 0 <= i < |region| && LineSsl(region[i])
  {
    hide LineSsl;
    if region != [] {
      var n := |region| - 1;
      SslInIff(region[..n]);
      assert forall i :: 0 <= i < n ==> region[..n][i] == region[i];
    }
  }

  lemma LineSslIff(l: Line)
    ensures LineSsl(l) <==> TlsListen(l)
  {
    hide SslWord, TlsWord;
    forall k | 1 <= k < |l.words| ensures SslWord(l.words[k]) <==> TlsWord(l.words[k]) {
      TlsWordIff(l.words[k]);
    }
  }

  /** The planned lines start with a TLS listener exactly when no line of the block is one. */
  lemma ListenerPlannedIff(region: seq<Line>, cert: string, key: string)
    requires Faithful(region)
    ensures
      var ins := Plan(Parse(region), cert, key);
      var listens := exists i :: 0 <= i < |region| && TlsListen(region[i]);
      && |ins| == (if listens then 2 else 3)
      && (!listens ==> ins[0].words == ["listen", "443", "ssl"] && TlsListen(ins[0]))
  {
    hide Read, SslIn, Gather, Indent, LineSsl, TlsListen;
    SslInIff(region);
    forall i | 0 <= i < |region| ensures LineSsl(region[i]) <==> TlsListen(region[i]) {
      LineSslIff(region[i]);
    }
    ParseIndent(region);
    var f := Parse(region);
    var indent := if f.indent == "" then "    " else f.indent;
    WrittenListen(indent);
    SslListen(Read(indent + "listen 443 ssl;"));
    LineSslIff(Read(indent + "listen 443 ssl;"));
  }
}
