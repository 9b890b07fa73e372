/**
  What the lines of a configuration file mean, described on their text alone: comments, headers
  and assignments, the section in force at a line, and the value a lookup returns.
 */
module ConfeditReading {
  import opened Bytes
  import opened Text
  import opened Confedit
  import opened ConfeditLaws

  // ----- one line -------------------------------------------------------------------------------

  /** The first character that is not white space is this one. */
  ghost predicate StartsWith(line: string, c: char) {
    exists a, rest :: Blank(a) && line == a + [c] + rest && !IsSpace(c)
  }

  ghost predicate Commented(line: string) { StartsWith(line, ';') || StartsWith(line, '#') }

  /** Leading white space, a bracket, the name up to the first closing bracket, and anything after it. */
  ghost predicate HeaderText(line: string, name: string) {
    ']' !in name && exists a, rest :: Blank(a) && line == a + "[" + name + "]" + rest
  }

  ghost predicate IsHeader(line: string) { exists name :: HeaderText(line, name) }

  /** Neither a comment nor a bracketed line: a key, the first '=' or ':', and a value. */
  ghost predicate AssignText(line: string, k: string, v: string) {
    && !StartsWith(line, '[') && !Commented(line) && '=' !in k && ':' !in k
    && (line == k + "=" + v || line == k + ":" + v)
  }

  lemma StartsIs(line: string, c: char)
    ensures !IsSpace(c) ==> (StartsWith(line, c) <==> Trim(line) != "" && Trim(line)[0] == c)
  {
    var a, b := Trimmed(line);
    if Trim(line) != "" && Trim(line)[0] == c {
      var rest := Trim(line)[1..] + b;
      assert line == a + [c] + rest;
    }
    if StartsWith(line, c) {
      var x, rest :| Blank(x) && line == x + [c] + rest && !IsSpace(c);
      var tail := [c] + rest;
      assert tail[0] == c;
      assert line == x + tail;
      HeadStays(x, tail);
    }
  }

  lemma HeadStays(x: string, tail: string)
    requires Blank(x) && tail != "" && !IsSpace(tail[0])
    ensures Trim(x + tail) == TrimRight(tail) && TrimRight(tail) != "" && TrimRight(tail)[0] == tail[0]
  {
    TrimRightAppend(x, tail);
    TrimRightShape(tail);
    var r := TrimRight(tail);
    assert tail[|r|..] == tail ==> false by {
      assert Blank(tail[|r|..]);
    }
    TrimLeftBlank(x, r);
  }

  lemma Marks()
    ensures !IsSpace('[') && !IsSpace(']') && !IsSpace(';') && !IsSpace('#') && !IsSpace('=') && !IsSpace(':')
  {
  }

  /** Blank and commented-out lines say nothing. */
  lemma CommentsSayNothing(line: string, lower: Lower)
    requires Blank(line) || Commented(line)
    ensures Classify(line, lower) == Ignored
  {
    hide Trim, TrimRightChar, StartsWith, IsSpace;
    Marks();
    TrimRightCharTrim(line);
    StartsIs(line, ';');
    StartsIs(line, '#');
    BlankTrim(line);
  }

  lemma {:induction false} HeaderCut(t: string, name: string, rest: string)
    requires ']' !in name && t == "[" + name + "]" + rest
    ensures IndexOf(t, ']') == |name| + 1 && t[1..|name| + 1] == name
  {
    var head := "[" + name;
    assert t == head + "]" + rest;
    assert forall k :: 0 <= k < |head| ==> head[k] != ']';
    IndexOfSplit(head, ']', rest);
  }

  /** A line reads as the header of a section exactly when its text is one for that name. */
  lemma HeaderIff(line: string, x: string, lower: Lower)
    ensures Classify(line, lower) == Header(x) <==> exists name :: HeaderText(line, name) && Norm(name, lower) == x
  {
    hide Trim, TrimRightChar, IndexOf, Norm, SplitKV, IsSpace;
    Marks();
    TrimRightCharTrim(line);
    var t := Trim(line);
    if Classify(line, lower) == Header(x) {
      var end := IndexOf(t, ']');
      var name := t[1..end];
      var a, b := Trimmed(line);
      CutName(t, end);
      assert t == "[" + name + "]" + t[end + 1..];
      assert line == a + "[" + name + "]" + (t[end + 1..] + b);
      assert HeaderText(line, name);
    }
    forall name | HeaderText(line, name) && Norm(name, lower) == x ensures Classify(line, lower) == Header(x) {
      var rest := HeaderTrimmed(line, name);
      HeaderCut(t, name, rest);
    }
  }

  /** A bracketed name and nothing else but white space. */
  ghost predicate Bracketed(line: string) {
    exists a, name, b :: Blank(a) && Blank(b) && line == a + ("[" + name + "]") + b
  }

  /** The search for a section's end stops exactly at bracketed lines with nothing after the bracket. */
  lemma EndsIff(line: string)
    ensures EndsSection(line) <==> Bracketed(line)
  {
    hide Trim, TrimRightChar, IsSpace, Blank;
    Marks();
    TrimRightCharTrim(line);
    var t := Trim(line);
    if EndsSection(line) {
      var a, b := Trimmed(line);
      var name := t[1..|t| - 1];
      assert t == "[" + name + "]";
      assert line == a + ("[" + name + "]") + b;
    }
    forall a, name, b | Blank(a) && Blank(b) && line == a + ("[" + name + "]") + b ensures EndsSection(line) {
      TrimPadded(a, "[" + name + "]", b);
      TightTrim("[" + name + "]");
    }
  }

  /** If every header's bracket is the last thing on its line, a written line lands in its section. */
  lemma TidyFilesLand(lines: seq<string>, section: string, key: string, lower: Lower)
    requires ']' !in section && forall i :: 0 <= i < |lines| && IsHeader(lines[i]) ==> Bracketed(lines[i])
    ensures Lands(lines, section, key, lower)
  {
    hide Classify, EndsSection, Lands, HeaderText, Bracketed;
    forall i | 0 <= i < |lines| && Classify(lines[i], lower).Header? ensures EndsSection(lines[i]) {
      HeaderIff(lines[i], Classify(lines[i], lower).name, lower);
      EndsIff(lines[i]);
    }
    TidyHeadersLand(lines, section, key, lower);
  }

  lemma CutName(t: string, end: int)
    requires end == IndexOf(t, ']') && end > 0 && t[0] == '['
    ensures ']' !in t[1..end] && t[end] == ']'
  {
    assert forall k :: 0 <= k < end ==> t[..end][k] == t[k];
  }

  lemma HeaderTrimmed(line: string, name: string) returns (rest: string)
    requires HeaderText(line, name)
    ensures Trim(line) == "[" + name + "]" + rest
  {
    var a, r :| Blank(a) && line == a + "[" + name + "]" + r;
    var head := "[" + name;
    var tail := "]" + r;
    Marks();
    assert line == a + (head + tail) && head + tail != "" && (head + tail)[0] == '[';
    HeadStays(a, head + tail);
    assert tail[0] == ']';
    TrimRightAppend(head, tail);
    TailStays(r);
    rest := TrimRight(tail)[1..];
    assert TrimRight(tail) == "]" + rest;
  }

  lemma TailStays(r: string)
    ensures TrimRight("]" + r) != "" && TrimRight("]" + r)[0] == ']'
  {
    Marks();
    var tail := "]" + r;
    assert tail[0] == ']';
    HeadStays("", tail);
  }

  lemma {:induction false} SplitAt(k: string, c: char, v: string)
    requires '=' !in k && ':' !in k && (c == '=' || c == ':')
    ensures SplitKV(k + [c] + v) == Some((k, v))
  {
    var t := k + [c] + v;
    IndexOfSplit(k, c, v);
    assert t[..|k|] == k && t[|k| + 1..] == v && t[|k|] == c;
    assert forall j :: 0 <= j < |k| ==> t[j] == k[j];
    FirstOf(t, |k|, '=');
    FirstOf(t, |k|, ':');
  }

  lemma FirstOf(t: string, n: nat, c: char)
    requires n <= |t| && forall j :: 0 <= j < n ==> t[j] != c
    ensures IndexOf(t, c) < 0 || IndexOf(t, c) >= n
  {
  }

  /** Trimming around the separator: the parts are trimmed on their outer ends. */
  lemma TrimAround(k: string, c: char, v: string) returns (k': string, v': string)
    requires !IsSpace(c)
    ensures Trim(k + [c] + v) == k' + [c] + v' && Trim(k') == Trim(k) && Trim(v') == Trim(v)
    ensures forall x :: x in k' ==> x in k
  {
    hide TrimLeft, TrimRight, IsSpace;
    var tail := [c] + v;
    assert tail[0] == c && k + [c] + v == k + tail;
    TrimRightAppend(k, tail);
    HeadStays("", tail);
    v' := TrimRight(tail)[1..];
    assert TrimRight(tail) == [c] + v';
    ValuePart(c, v, v');
    if Blank(k) {
      k' := "";
      TrimLeftBlank(k, [c] + v');
      TightLeft(c, v');
      BlankTrim(k);
      BlankTrim("");
      assert "" + [c] + v' == [c] + v';
    } else {
      k' := TrimLeft(k);
      TrimLeftAppend(k, [c] + v');
      TrimTrimLeft(k);
      TrimLeftShape(k);
      assert k' + ([c] + v') == k' + [c] + v';
    }
  }

  lemma TightLeft(c: char, v: string)
    requires !IsSpace(c)
    ensures TrimLeft([c] + v) == [c] + v
  {
  }

  lemma ValuePart(c: char, v: string, v': string)
    requires !IsSpace(c) && TrimRight([c] + v) == [c] + v'
    ensures Trim(v') == Trim(v)
  {
    if Blank(v) {
      TrimRightBlank([c], v);
      assert TrimRight([c]) == [c];
      assert v' == "";
      BlankTrim(v);
      BlankTrim("");
    } else {
      TrimRightAppend([c], v);
      assert v' == ([c] + v')[1..] == ([c] + TrimRight(v))[1..] == TrimRight(v);
      TrimTrimRight(v);
    }
  }

  /** A line reads as this assignment exactly when its text is one, whichever separator it uses. */
  lemma AssignIff(line: string, x: string, y: string, lower: Lower)
    ensures Classify(line, lower) == Assign(x, y) <==>
            exists k, v :: AssignText(line, k, v) && Norm(k, lower) == x && Trim(v) == y
  {
    hide Trim, TrimRightChar, IndexOf, LowerAll, SplitKV, IsSpace, StartsWith;
    Marks();
    TrimRightCharTrim(line);
    var t := Trim(line);
    StartsIs(line, '[');
    StartsIs(line, ';');
    StartsIs(line, '#');
    if Classify(line, lower) == Assign(x, y) {
      var a, b := Trimmed(line);
      var kv := SplitKV(t).value;
      var c := SplitParts(t);
      var k, v := a + kv.0, kv.1 + b;
      assert line == k + [c] + v by { assert line == a + (kv.0 + [c] + kv.1) + b; }
      TrimPadded(a, kv.0, "");
      assert a + kv.0 + "" == k;
      TrimPadded("", kv.1, b);
      assert "" + kv.1 + b == v;
      BlankNoMark(a);
      assert AssignText(line, k, v);
    }
    forall k, v | AssignText(line, k, v) && Norm(k, lower) == x && Trim(v) == y ensures Classify(line, lower) == Assign(x, y) {
      var c := if line == k + "=" + v then '=' else ':';
      assert line == k + [c] + v;
      var k', v' := TrimAround(k, c, v);
      SplitAt(k', c, v');
    }
  }

  lemma BlankNoMark(a: string)
    requires Blank(a)
    ensures '=' !in a && ':' !in a
  {
  }

  lemma SplitParts(t: string) returns (c: char)
    requires SplitKV(t).Some?
    ensures
      var kv := SplitKV(t).value;
      (c == '=' || c == ':') && t == kv.0 + [c] + kv.1 && '=' !in kv.0 && ':' !in kv.0
  {
    var kv := SplitKV(t).value;
    var n := |kv.0|;
    c := t[n];
    assert t == t[..n] + [t[n]] + t[n + 1..];
    NotBefore(t, n, '=');
    NotBefore(t, n, ':');
  }

  lemma NotBefore(t: string, n: nat, c: char)
    requires n <= |t| && (IndexOf(t, c) < 0 || n <= IndexOf(t, c))
    ensures c !in t[..n]
  {
    var i := IndexOf(t, c);
    if i >= 0 {
      assert forall j :: 0 <= j < n ==> t[..i][j] == t[..n][j];
    }
  }

  // ----- a file ---------------------------------------------------------------------------------

  /** The section in force before line `i`: the last header above it, or none. */
  ghost predicate InForce(lines: seq<string>, i: nat, sec: string, lower: Lower)
    requires i <= |lines|
  {
    || (sec == "" && forall m :: 0 <= m < i ==> !IsHeader(lines[m]))
    || exists j :: 0 <= j < i && Opens(lines[j], sec, lower) && forall m :: j < m < i ==> !IsHeader(lines[m])
  }

  ghost predicate Opens(line: string, sec: string, lower: Lower) {
    exists name :: HeaderText(line, name) && Norm(name, lower) == sec
  }

  lemma HeaderKind(line: string, lower: Lower)
    ensures Classify(line, lower).Header? <==> IsHeader(line)
    ensures forall x :: Classify(line, lower) == Header(x) <==> Opens(line, x, lower)
  {
    hide Classify, HeaderText, Norm;
    forall x ensures Classify(line, lower) == Header(x) <==> Opens(line, x, lower) {
      HeaderIff(line, x, lower);
    }
    if Classify(line, lower).Header? {
      assert Opens(line, Classify(line, lower).name, lower);
    }
    if name :| HeaderText(line, name) {
      assert Opens(line, Norm(name, lower), lower);
    }
  }

  lemma {:induction false} SectionIs(lines: seq<string>, i: nat, sec: string, lower: Lower)
    requires i <= |lines|
    ensures SectionAfter("", Kinds(lines[..i], lower)) == sec <==> InForce(lines, i, sec, lower)
    decreases i
  {
    hide Classify, Kinds, IsHeader, Opens;
    if i == 0 {
      NothingRead(Slot("", ""), lower);
      assert lines[..0] == [];
    } else {
      SectionIs(lines, i - 1, sec, lower);
      ReadNext(lines, i - 1, Slot("", ""), lower);
      HeaderKind(lines[i - 1], lower);
      ForceNext(lines, i - 1, sec, lower);
    }
  }

  lemma ForceNext(lines: seq<string>, i: nat, sec: string, lower: Lower)
    requires i < |lines| && (Opens(lines[i], sec, lower) ==> IsHeader(lines[i]))
    ensures InForce(lines, i + 1, sec, lower) <==>
            Opens(lines[i], sec, lower) || (!IsHeader(lines[i]) && InForce(lines, i, sec, lower))
  {
    hide IsHeader, Opens;
  }

  /** Line `i` assigns this value to the slot. */
  ghost predicate Assigns(lines: seq<string>, i: nat, q: Slot, value: string, lower: Lower)
    requires i < |lines|
  {
    InForce(lines, i, q.sec, lower) && exists k, v :: AssignText(lines[i], k, v) && Norm(k, lower) == q.key && Trim(v) == value
  }

  ghost predicate Silent(lines: seq<string>, i: nat, q: Slot, lower: Lower)
    requires i < |lines|
  {
    forall value :: !Assigns(lines, i, q, value, lower)
  }

  lemma SaysIff(lines: seq<string>, i: nat, q: Slot, lower: Lower)
    requires i < |lines|
    ensures
      var says := Says(SectionAfter("", Kinds(lines[..i], lower)), Classify(lines[i], lower), q);
      && (forall value :: says == Some(value) <==> Assigns(lines, i, q, value, lower))
      && (says.None? <==> Silent(lines, i, q, lower))
  {
    hide Classify, Kinds, InForce, AssignText, SectionAfter, Norm, Trim;
    var cur, k := SectionAfter("", Kinds(lines[..i], lower)), Classify(lines[i], lower);
    SectionIs(lines, i, q.sec, lower);
    forall value ensures Says(cur, k, q) == Some(value) <==> Assigns(lines, i, q, value, lower) {
      AssignIff(lines[i], q.key, value, lower);
    }
  }

  /**
    A lookup returns a value exactly when some line, under the section in force there, assigns it
    to the key, and no later line assigns the key under that section anything.
   */
  lemma {:induction false} LookupIs(lines: seq<string>, q: Slot, value: string, lower: Lower)
    ensures Lookup("", Kinds(lines, lower), q) == Some(value) <==>
            exists i: nat :: i < |lines| && Assigns(lines, i, q, value, lower) && forall j: nat :: i < j < |lines| ==> Silent(lines, j, q, lower)
  {
    hide Lookup, Kinds, Assigns, Silent;
    LookupUpTo(lines, |lines|, q, value, lower);
    assert lines[..|lines|] == lines;
  }

  lemma {:induction false} LookupUpTo(lines: seq<string>, n: nat, q: Slot, value: string, lower: Lower)
    requires n <= |lines|
    ensures Lookup("", Kinds(lines[..n], lower), q) == Some(value) <==>
            exists i: nat :: i < n && Assigns(lines, i, q, value, lower) && forall j: nat :: i < j < n ==> Silent(lines, j, q, lower)
    decreases n
  {
    hide Lookup, Kinds, Assigns, Silent, Classify, Says, SectionAfter, KeyIdx, SecIdx;
    if n == 0 {
      NothingRead(q, lower);
      assert lines[..0] == [];
    } else {
      var m := n - 1;
      LookupUpTo(lines, m, q, value, lower);
      ReadNext(lines, m, q, lower);
      SaysIff(lines, m, q, lower);
      SilentIs(lines, m, q, value, lower);
    }
  }

  lemma SilentIs(lines: seq<string>, i: nat, q: Slot, value: string, lower: Lower)
    requires i < |lines|
    ensures Silent(lines, i, q, lower) ==> !Assigns(lines, i, q, value, lower)
  {
  }

  /** Commented-out lines never match: one more or less of them, anywhere, changes no lookup. */
  lemma CommentsNeverMatch(before: seq<string>, line: string, rest: seq<string>, q: Slot, lower: Lower)
    requires Blank(line) || Commented(line)
    ensures Lookup("", Kinds(before + [line] + rest, lower), q) == Lookup("", Kinds(before + rest, lower), q)
  {
    hide Lookup, Kinds, Classify, Commented, Blank;
    CommentsSayNothing(line, lower);
    KindsAppend(before + [line], rest, lower);
    KindsAppend(before, [line], lower);
    KindsOne(line, lower);
    KindsAppend(before, rest, lower);
    LookupMiddle(Kinds(before, lower), Ignored, Kinds(rest, lower), q);
    LookupAppend("", Kinds(before, lower), Kinds(rest, lower), q);
    SectionOne(SectionAfter("", Kinds(before, lower)), Ignored);
  }
}
