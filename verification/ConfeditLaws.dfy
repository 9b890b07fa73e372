/** What a later `Get` sees after an edit, and what the printed file reads back as. */
module ConfeditLaws {
  import opened Bytes
  import opened Text
  import opened Confedit

  // ----- reading concatenated lines -----------------------------------------------------------

  function Or<T>(a: Option<T>, b: Option<T>): Option<T> { if a.Some? then a else b }

  lemma {:induction false} SectionAppend(cur: string, a: seq<Kind>, b: seq<Kind>)
    ensures SectionAfter(cur, a + b) == SectionAfter(SectionAfter(cur, a), b)
  {
    if b == [] {
      assert a + b == a;
    } else {
      var n := |b| - 1;
      assert (a + b)[..|a + b| - 1] == a + b[..n];
      SectionAppend(cur, a, b[..n]);
    }
  }

  lemma {:induction false} LookupAppend(cur: string, a: seq<Kind>, b: seq<Kind>, q: Slot)
    ensures Lookup(cur, a + b, q) == Or(Lookup(SectionAfter(cur, a), b, q), Lookup(cur, a, q))
  {
    if b == [] {
      assert a + b == a;
    } else {
      var n := |b| - 1;
      assert (a + b)[..|a + b| - 1] == a + b[..n];
      LookupAppend(cur, a, b[..n], q);
      SectionAppend(cur, a, b[..n]);
    }
  }

  /** The reading of a slot around one line: what follows, the line itself, what precedes. */
  lemma {:induction false} LookupMiddle(a: seq<Kind>, x: Kind, b: seq<Kind>, q: Slot)
    ensures
      var s := SectionAfter("", a);
      Lookup("", a + [x] + b, q) == Or(Lookup(SectionAfter(s, [x]), b, q), Or(Says(s, x, q), Lookup("", a, q)))
  {
    hide Lookup, SectionAfter, Says;
    LookupAppend("", a + [x], b, q);
    LookupAppend("", a, [x], q);
    SectionAppend("", a, [x]);
    LookupOne(SectionAfter("", a), x, q);
  }

  lemma {:induction false} LookupOne(cur: string, x: Kind, q: Slot)
    ensures Lookup(cur, [x], q) == Says(cur, x, q)
  {
    assert [x][..0] == [];
  }

  /** Line `k` assigns the slot and nothing after it does. */
  ghost predicate LastAssignedAt(ks: seq<Kind>, k: nat, q: Slot)
    requires k < |ks|
  {
    && Says(SectionAfter("", ks[..k]), ks[k], q).Some?
    && Lookup(SectionAfter("", ks[..k + 1]), ks[k + 1..], q).None?
  }

  lemma {:induction false} KeyIdxFacts(ks: seq<Kind>, q: Slot)
    ensures KeyIdx(ks, q) < 0 ==> Lookup("", ks, q).None?
    ensures KeyIdx(ks, q) >= 0 ==> LastAssignedAt(ks, KeyIdx(ks, q), q)
  {
    if ks != [] {
      var n, k := |ks| - 1, KeyIdx(ks, q);
      var init := ks[..n];
      KeyIdxFacts(init, q);
      if k == n {
        assert ks[n + 1..] == [];
      } else if k >= 0 {
        LastAssignedStays(init, ks[n], k, q);
        assert init + [ks[n]] == ks;
      }
    }
  }

  lemma {:induction false} LastAssignedStays(init: seq<Kind>, x: Kind, k: nat, q: Slot)
    requires k < |init| && LastAssignedAt(init, k, q) && Says(SectionAfter("", init), x, q).None?
    ensures LastAssignedAt(init + [x], k, q)
  {
    hide Lookup, SectionAfter, Says;
    var ks, s, tail := init + [x], SectionAfter("", init[..k + 1]), init[k + 1..];
    assert ks[..k] == init[..k] && ks[..k + 1] == init[..k + 1] && ks[k + 1..] == tail + [x];
    SectionAppend("", init[..k + 1], tail);
    assert init[..k + 1] + tail == init;
    LookupAppend(s, tail, [x], q);
    LookupOne(SectionAfter(s, tail), x, q);
  }

  // ----- trimmed lengths ----------------------------------------------------------------------

  lemma {:induction false} TrimIsPrefix(a: string)
    requires !Blank(a)
    ensures |Trim(a)| <= |TrimLeft(a)| && Trim(a) == TrimLeft(a)[..|Trim(a)|] && Trim(a) != ""
  {
    TrimRightShape(a);
    var r := TrimRight(a);
    BlankTrim(a);
    assert a == r + a[|r|..];
    assert !Blank(r);
    TrimLeftAppend(r, a[|r|..]);
  }

  /** Cutting a string before a non-blank character strictly shortens its trimmed form. */
  lemma {:induction false} TrimLonger(a: string, c: char, b: string)
    requires !IsSpace(c)
    ensures |Trim(a)| < |Trim(a + [c] + b)|
  {
    var tail := [c] + b;
    assert tail[0] == c;
    TrimRightAppend(a, tail);
    assert a + [c] + b == a + tail;
    var r := TrimRight(tail);
    TrimRightShape(tail);
    assert tail[..|r|] == r;
    assert forall j :: |r| <= j < |tail| ==> tail[j] == tail[|r|..][j - |r|];
    BlankTrim(a);
    if Blank(a) {
      TrimLeftBlank(a, r);
    } else {
      TrimLeftAppend(a, r);
      TrimIsPrefix(a);
    }
  }

  // ----- the two lines an edit writes ---------------------------------------------------------

  lemma {:induction false} FirstSeparator(k: string, v: string)
    requires '=' !in k && ':' !in k
    ensures SplitKV(k + "=" + v) == Some((k, v))
  {
    var t := k + "=" + v;
    IndexOfSplit(k, '=', v);
    assert t[..|k|] == k && t[|k| + 1..] == v && t[|k|] == '=';
    assert forall j :: 0 <= j < |k| ==> t[j] == k[j];
  }

  /** Written verbatim, the line assigns the trimmed value to the key exactly for writable keys. */
  lemma {:induction false} NewLineAssigns(key: string, value: string, lower: Lower)
    ensures Classify(NewLine(key, value), lower) == Assign(Norm(key, lower), Trim(value)) <==> WritableKey(key)
  {
    var line := NewLine(key, value);
    TrimRightCharTrim(line);
    var k, v := NewLineTrimmed(key, value);
    var t := k + "=" + v;
    BlankTrim(key);
    TrimLeftShape(key);
    if !Blank(key) {
      TrimIsPrefix(key);
      assert t[0] == k[0] == TrimLeft(key)[0] == Trim(key)[0];
    }
    if '=' in key || ':' in key {
      SeparatorInKey(key, k, v, lower);
    } else {
      FirstSeparator(k, v);
    }
  }

  predicate IsSeparator(c: char) { c == '=' || c == ':' }

  lemma {:induction false} SeparatorSurvives(key: string, at: nat)
    requires at < |key| && IsSeparator(key[at])
    ensures !Blank(key)
    ensures exists p: nat :: p < |TrimLeft(key)| && IsSeparator(TrimLeft(key)[p])
  {
    TrimLeftShape(key);
    var n := |key| - |TrimLeft(key)|;
    assert forall j :: 0 <= j < n ==> key[..n][j] == key[j];
    assert at >= n;
    assert TrimLeft(key)[at - n] == key[at];
  }

  /** A separator inside the left part makes the split come early, so the key read is shorter. */
  lemma {:induction false} SplitComesEarly(k: string, v: string, p: nat)
    requires p < |k| && IsSeparator(k[p])
    ensures
      var kv := SplitKV(k + "=" + v);
      kv.Some? && |Trim(kv.value.0)| < |Trim(k)|
  {
    var t := k + "=" + v;
    assert t[p] == k[p];
    SplitAtFirst(t, p);
    var i := |SplitKV(t).value.0|;
    assert t[..i] == k[..i] && t[i] == k[i];
    TrimLonger(k[..i], k[i], k[i + 1..]);
    assert k == k[..i] + [k[i]] + k[i + 1..];
  }

  lemma {:induction false} SeparatorInKey(key: string, k: string, v: string, lower: Lower)
    requires '=' in key || ':' in key
    requires k == (if Blank(key) then "" else TrimLeft(key) + " ") && Trim(k) == Trim(key)
    ensures
      var kv := SplitKV(k + "=" + v);
      kv.Some? && |Norm(kv.value.0, lower)| < |Norm(key, lower)|
  {
    var at: nat :| at < |key| && IsSeparator(key[at]);
    SeparatorSurvives(key, at);
    var p: nat :| p < |TrimLeft(key)| && IsSeparator(TrimLeft(key)[p]);
    assert k[p] == TrimLeft(key)[p];
    SplitComesEarly(k, v, p);
  }

  lemma {:induction false} SplitAtFirst(t: string, at: nat)
    requires at < |t| && IsSeparator(t[at])
    ensures
      var kv := SplitKV(t);
      && kv.Some? && |kv.value.0| <= at && kv.value.0 == t[..|kv.value.0|]
      && !IsSpace(t[|kv.value.0|])
  {
    var eq, co := IndexOf(t, '='), IndexOf(t, ':');
    assert eq >= 0 ==> forall j :: 0 <= j < eq ==> t[..eq][j] == t[j];
    assert co >= 0 ==> forall j :: 0 <= j < co ==> t[..co][j] == t[j];
  }

  lemma {:induction false} TightTrim(s: string)
    requires s != [] && !IsSpace(s[0]) && !IsSpace(s[|s| - 1])
    ensures Trim(s) == s
  {
  }

  /** The appended header opens the wanted section exactly when the name carries no ']'. */
  lemma {:induction false} SectionLineOpens(section: string, lower: Lower)
    ensures Classify(SectionLine(section), lower).Header?
    ensures Classify(SectionLine(section), lower).name == Norm(section, lower) <==> ']' !in section
  {
    var line := SectionLine(section);
    TrimRightCharTrim(line);
    TightTrim(line);
    hide Trim, TrimRightChar, IndexOf, LowerAll;
    if ']' in section {
      SectionLineCut(section);
      ShorterName(section, lower);
    } else {
      SectionLineWhole(section);
    }
  }

  lemma {:induction false} ShorterName(section: string, lower: Lower)
    requires ']' in section
    ensures |Norm(section[..IndexOf(section, ']')], lower)| < |Norm(section, lower)|
  {
    var i := IndexOf(section, ']');
    TrimLonger(section[..i], ']', section[i + 1..]);
    assert section[..i] + "]" + section[i + 1..] == section;
  }

  lemma {:induction false} SectionLineWhole(section: string)
    requires ']' !in section
    ensures
      var line := SectionLine(section);
      IndexOf(line, ']') == |section| + 1 && line[1..|section| + 1] == section
  {
    var line := SectionLine(section);
    IndexOfSplit("[" + section, ']', "");
    assert "[" + section + "]" + "" == line;
  }

  lemma {:induction false} SectionLineCut(section: string)
    requires ']' in section
    ensures
      var line, i := SectionLine(section), IndexOf(section, ']');
      IndexOf(line, ']') == i + 1 && line[1..i + 1] == section[..i]
  {
    var line := SectionLine(section);
    assert line[1..] == section + "]";
    IndexOfFirstPart(section, "]", ']');
    assert IndexOf(line, ']') == IndexOf(line[1..], ']') + 1;
  }

  lemma {:induction false} IndexOfFirstPart(s: string, t: string, c: char)
    requires c in s
    ensures IndexOf(s + t, c) == IndexOf(s, c)
  {
    if s[0] != c {
      assert (s + t)[1..] == s[1..] + t;
      assert c in s[1..];
      IndexOfFirstPart(s[1..], t, c);
    }
  }

  // ----- edits, read back ---------------------------------------------------------------------

  lemma {:induction false} ReplacedReads(ks: seq<Kind>, k: nat, y: Kind, q: Slot, other: Slot)
    requires k < |ks| && LastAssignedAt(ks, k, q) && y.Assign? && y.key == q.key
    ensures
      var edited := ks[..k] + [y] + ks[k + 1..];
      && Lookup("", edited, q) == Some(y.value)
      && (other != q ==> Lookup("", edited, other) == Lookup("", ks, other))
      && LastAssignedAt(edited, k, q)
  {
    var a, x, b := ks[..k], ks[k], ks[k + 1..];
    var edited := a + [y] + b;
    assert ks == a + [x] + b && ks[..k + 1] == a + [x];
    assert edited[..k] == a && edited[k] == y && edited[k + 1..] == b && edited[..k + 1] == a + [y];
    SectionAppend("", a, [x]);
    SectionAppend("", a, [y]);
    assert [x][..0] == [] && [y][..0] == [];
    LookupMiddle(a, y, b, q);
    LookupMiddle(a, x, b, other);
    LookupMiddle(a, y, b, other);
  }

  /** A line that opens no section over other lines changes at most the slot it assigns. */
  lemma {:induction false} InsertedReads(a: seq<Kind>, b: seq<Kind>, y: Kind, other: Slot)
    requires y.Header? ==> b == [] || b[0].Header?
    ensures
      var edited, s := a + [y] + b, SectionAfter("", a);
      && (Wrote(y, s) != Some(other) ==> Lookup("", edited, other) == Lookup("", a + b, other))
      && (Wrote(y, s) == Some(other) && Lookup("", a + b, other).None? ==>
            Lookup("", edited, other) == Some(y.value) && LastAssignedAt(edited, |a|, other))
  {
    hide Lookup, Says;
    var edited, s := a + [y] + b, SectionAfter("", a);
    assert edited[..|a|] == a && edited[|a| + 1..] == b && edited[..|a| + 1] == a + [y];
    SectionAppend("", a, [y]);
    SectionOne(s, y);
    LookupMiddle(a, y, b, other);
    LookupAppend("", a, b, other);
    SaysIs(s, y, other);
    HeaderFirst(b, SectionAfter(s, [y]), s, other);
  }

  /** The slot a line assigns in section `s`, if it assigns one. */
  ghost function Wrote(y: Kind, s: string): Option<Slot> { if y.Assign? then Some(Slot(s, y.key)) else None }

  lemma SectionOne(s: string, y: Kind)
    ensures SectionAfter(s, [y]) == if y.Header? then y.name else s
  {
    assert [y][..0] == [];
  }

  lemma SaysIs(s: string, y: Kind, q: Slot)
    ensures Says(s, y, q) == if Wrote(y, s) == Some(q) then Some(y.value) else None
  {
  }

  /** What follows a header does not depend on the section before it. */
  lemma {:induction false} HeaderFirst(b: seq<Kind>, s: string, t: string, q: Slot)
    ensures s == t || b == [] || b[0].Header? ==> Lookup(s, b, q) == Lookup(t, b, q)
    ensures b != [] && b[0].Header? ==> SectionAfter(s, b) == SectionAfter(t, b)
  {
    if b != [] && b[0].Header? {
      HeaderFirst(b[..|b| - 1], s, t, q);
    }
  }

  lemma {:induction false} AppendedHeaderReads(ks: seq<Kind>, h: Kind)
    requires h.Header? || h.Ignored?
    ensures forall q :: Lookup("", ks + [h], q) == Lookup("", ks, q)
    ensures SectionAfter("", ks + [h]) == if h.Header? then h.name else SectionAfter("", ks)
  {
    assert (ks + [h])[..|ks|] == ks;
  }

  lemma {:induction false} KindsAppend(a: seq<string>, b: seq<string>, lower: Lower)
    ensures Kinds(a + b, lower) == Kinds(a, lower) + Kinds(b, lower)
  {
    if b == [] {
      assert a + b == a;
    } else {
      var n := |b| - 1;
      assert (a + b)[..|a + b| - 1] == a + b[..n];
      KindsAppend(a, b[..n], lower);
    }
  }

  lemma {:induction false} KindsOne(x: string, lower: Lower)
    ensures Kinds([x], lower) == [Classify(x, lower)]
  {
    assert [x][..0] == [];
  }

  lemma {:induction false} KindsSlices(lines: seq<string>, i: nat, lower: Lower)
    requires i <= |lines|
    ensures Kinds(lines[..i], lower) == Kinds(lines, lower)[..i] && Kinds(lines[i..], lower) == Kinds(lines, lower)[i..]
  {
    KindsAppend(lines[..i], lines[i..], lower);
    assert lines[..i] + lines[i..] == lines;
  }

  lemma {:induction false} BlankLineIgnored(lower: Lower)
    ensures Classify("", lower) == Ignored
  {
  }

  /**
    The section in force where the new line ends up. A key already assigned is replaced in place; in an existing
    section the line goes before the next line that starts with '[' and ends with ']', and a
    header with text after its ']' is not such a line; otherwise a header is appended, which
    opens the section named `opens`.
   */
  ghost function SpliceSection(lines: seq<string>, q: Slot, opens: string, lower: Lower): string {
    var ks := Kinds(lines, lower);
    var secIdx := SecIdx(ks, q.sec);
    if KeyIdx(ks, q) >= 0 then q.sec
    else if secIdx >= 0 then SectionAfter("", ks[..EndIdx(lines, secIdx + 1)])
    else opens
  }

  ghost predicate LandsIn(lines: seq<string>, q: Slot, opens: string, lower: Lower) {
    SpliceSection(lines, q, opens, lower) == q.sec
  }

  /** Where the written line ends up in the edited list. */
  ghost function LinePosition(ks: seq<Kind>, q: Slot, end: nat, blanks: nat): int {
    if KeyIdx(ks, q) >= 0 then KeyIdx(ks, q)
    else if SecIdx(ks, q.sec) >= 0 then end
    else |ks| + blanks + 1
  }

  /** The edit on classified lines; `blank` tells whether a separating blank line is added. */
  ghost function EditedKinds(ks: seq<Kind>, q: Slot, end: nat, blank: bool, opens: string, y: Kind): seq<Kind>
    requires end <= |ks|
  {
    var k := KeyIdx(ks, q);
    if k >= 0 then ks[..k] + [y] + ks[k + 1..]
    else if SecIdx(ks, q.sec) >= 0 then ks[..end] + [y] + ks[end..]
    else (if blank then ks + [Ignored] else ks) + [Header(opens)] + [y]
  }

  /** The section in force at the splice, on classified lines. */
  ghost function SpliceIn(ks: seq<Kind>, q: Slot, end: nat, opens: string): string
    requires end <= |ks|
  {
    if KeyIdx(ks, q) >= 0 then q.sec else if SecIdx(ks, q.sec) >= 0 then SectionAfter("", ks[..end]) else opens
  }

  /** An edit writes the slot's own key where it replaces, and puts a header only before a header or the end. */
  ghost predicate Tidy(ks: seq<Kind>, q: Slot, end: nat, y: Kind) {
    && end <= |ks|
    && (KeyIdx(ks, q) >= 0 ==> y.Assign? && y.key == q.key)
    && (y.Header? && end < |ks| ==> ks[end].Header?)
  }

  /** Everything a writing edit does to later reads: only the slot it writes can change. */
  lemma {:induction false} EditedKindsRead(ks: seq<Kind>, q: Slot, end: nat, blank: bool, opens: string, y: Kind, other: Slot)
    requires Tidy(ks, q, end, y)
    ensures
      var after := EditedKinds(ks, q, end, blank, opens, y);
      var p := LinePosition(ks, q, end, if blank then 1 else 0);
      var s := SpliceIn(ks, q, end, opens);
      && (Wrote(y, s) != Some(other) ==> Lookup("", after, other) == Lookup("", ks, other))
      && (Wrote(y, s) == Some(q) ==> Lookup("", after, q) == Some(y.value) && 0 <= p < |after| && LastAssignedAt(after, p, q))
  {
    hide KeyIdx, SecIdx, Lookup, SectionAfter, Says, LastAssignedAt;
    KeyIdxFacts(ks, q);
    var k := KeyIdx(ks, q);
    if k >= 0 {
      ReplacedReads(ks, k, y, q, other);
    } else if SecIdx(ks, q.sec) >= 0 {
      assert ks[..end] + ks[end..] == ks;
      InsertedReads(ks[..end], ks[end..], y, other);
      InsertedReads(ks[..end], ks[end..], y, q);
    } else {
      AppendedReads(ks, blank, opens, y, other);
      AppendedReads(ks, blank, opens, y, q);
    }
  }

  lemma {:induction false} AppendedReads(ks: seq<Kind>, blank: bool, opens: string, y: Kind, other: Slot)
    ensures
      var base := if blank then ks + [Ignored] else ks;
      var after := base + [Header(opens)] + [y];
      && (Wrote(y, opens) != Some(other) ==> Lookup("", after, other) == Lookup("", ks, other))
      && (Wrote(y, opens) == Some(other) && Lookup("", ks, other).None? ==>
            Lookup("", after, other) == Some(y.value) && LastAssignedAt(after, |base| + 1, other))
  {
    hide Lookup, SectionAfter, Says, LastAssignedAt;
    var base := if blank then ks + [Ignored] else ks;
    AppendedHeaderReads(ks, Ignored);
    AppendedHeaderReads(base, Header(opens));
    var a := base + [Header(opens)];
    assert a + [] == a && a + [y] + [] == a + [y];
    InsertedReads(a, [], y, other);
  }

  /** The line-level edit, classified, is the edit on classified lines. */
  lemma {:induction false} EditedKindsMatch(lines: seq<string>, q: Slot, head: string, opens: string, line: string, lower: Lower)
    requires Classify(head, lower) == Header(opens)
    ensures
      var ks, edited := Kinds(lines, lower), EditedSlot(lines, q, head, line, false, lower);
      var end := if SecIdx(ks, q.sec) >= 0 then EndIdx(lines, SecIdx(ks, q.sec) + 1) else 0;
      var blank := |Separated(lines)| > |lines|;
      var p := LinePosition(ks, q, end, if blank then 1 else 0);
      && Kinds(edited, lower) == EditedKinds(ks, q, end, blank, opens, Classify(line, lower))
      && 0 <= p < |edited| && edited[p] == line
  {
    hide Kinds, KeyIdx, SecIdx, EndIdx, Classify;
    var ks := Kinds(lines, lower);
    var k, sec := KeyIdx(ks, q), SecIdx(ks, q.sec);
    if k >= 0 {
      SplicedKinds(lines, k, k + 1, line, lower);
    } else if sec >= 0 {
      var end := EndIdx(lines, sec + 1);
      SplicedKinds(lines, end, end, line, lower);
    } else {
      NewSectionKinds(lines, head, line, lower);
    }
  }

  /** Where a section ends there is a header. */
  lemma {:induction false} EndIsHeader(lines: seq<string>, i: nat, lower: Lower)
    requires i <= |lines| && EndIdx(lines, i) < |lines|
    ensures Kinds(lines, lower)[EndIdx(lines, i)].Header?
  {
    hide Classify, EndsSection;
    var e := EndIdx(lines, i);
    EndEnds(lines, i);
    EndingOpens(lines[e], lower);
    KindsAt(lines, e, lower);
  }

  lemma {:induction false} EndEnds(lines: seq<string>, i: nat)
    requires i <= |lines| && EndIdx(lines, i) < |lines|
    ensures EndsSection(lines[EndIdx(lines, i)])
    decreases |lines| - i
  {
    if !EndsSection(lines[i]) {
      EndEnds(lines, i + 1);
    }
  }

  lemma {:induction false} EndingOpens(line: string, lower: Lower)
    requires EndsSection(line)
    ensures Classify(line, lower).Header?
  {
    var t := Trim(TrimRightChar(line, '\r'));
    assert t[|t| - 1] == ']' && t[0] == '[';
    assert IndexOf(t, ']') > 0;
  }

  lemma {:induction false} KindsAt(lines: seq<string>, i: nat, lower: Lower)
    requires i < |lines|
    ensures Kinds(lines, lower)[i] == Classify(lines[i], lower)
  {
    hide Classify;
    if i < |lines| - 1 {
      KindsAt(lines[..|lines| - 1], i, lower);
    }
  }

  lemma {:induction false} EditReads(lines: seq<string>, q: Slot, head: string, opens: string, line: string, lower: Lower, other: Slot)
    requires Classify(head, lower) == Header(opens)
    requires KeyIdx(Kinds(lines, lower), q) >= 0 ==> Classify(line, lower).Assign? && Classify(line, lower).key == q.key
    ensures
      var edited := EditedSlot(lines, q, head, line, false, lower);
      var ks := Kinds(edited, lower);
      var wrote := Wrote(Classify(line, lower), SpliceSection(lines, q, opens, lower));
      && (wrote != Some(other) ==> Lookup("", ks, other) == Lookup("", Kinds(lines, lower), other))
      && (wrote == Some(q) ==>
            && Lookup("", ks, q) == Some(Classify(line, lower).value)
            && exists p: nat :: p < |ks| && LastAssignedAt(ks, p, q) && edited[p] == line)
  {
    hide Kinds, KeyIdx, SecIdx, EndIdx, Classify, Lookup, SectionAfter, Says, LastAssignedAt, EditedKinds, EditedSlot, Separated;
    var ks := Kinds(lines, lower);
    var sec := SecIdx(ks, q.sec);
    var end := if sec >= 0 then EndIdx(lines, sec + 1) else 0;
    var blank := |Separated(lines)| > |lines|;
    if sec >= 0 {
      if end < |lines| {
        EndIsHeader(lines, sec + 1, lower);
      }
      EditedKindsMatch(lines, q, head, opens, line, lower);
      EditedKindsRead(ks, q, end, blank, opens, Classify(line, lower), other);
    } else {
      EditedKindsMatch(lines, q, head, opens, line, lower);
      NoEndNeeded(ks, q, blank, opens, Classify(line, lower));
      EditedKindsRead(ks, q, |ks|, blank, opens, Classify(line, lower), other);
    }
  }

  /** Without the section's header the end position plays no part. */
  lemma NoEndNeeded(ks: seq<Kind>, q: Slot, blank: bool, opens: string, y: Kind)
    requires SecIdx(ks, q.sec) < 0
    ensures EditedKinds(ks, q, 0, blank, opens, y) == EditedKinds(ks, q, |ks|, blank, opens, y)
    ensures LinePosition(ks, q, 0, if blank then 1 else 0) == LinePosition(ks, q, |ks|, if blank then 1 else 0)
    ensures SpliceIn(ks, q, 0, opens) == SpliceIn(ks, q, |ks|, opens)
  {
  }

  lemma {:induction false} SplicedKinds(lines: seq<string>, i: nat, j: nat, line: string, lower: Lower)
    requires i <= j <= |lines|
    ensures Kinds(lines[..i] + [line] + lines[j..], lower)
         == Kinds(lines, lower)[..i] + [Classify(line, lower)] + Kinds(lines, lower)[j..]
  {
    KindsAppend(lines[..i] + [line], lines[j..], lower);
    KindsAppend(lines[..i], [line], lower);
    KindsOne(line, lower);
    KindsSlices(lines, i, lower);
    KindsSlices(lines, j, lower);
  }

  lemma {:induction false} NewSectionKinds(lines: seq<string>, head: string, line: string, lower: Lower)
    ensures
      var ks := Kinds(lines, lower);
      Kinds(Separated(lines) + [head, line], lower)
        == (if |Separated(lines)| > |lines| then ks + [Ignored] else ks) + [Classify(head, lower)] + [Classify(line, lower)]
  {
    var base := Separated(lines);
    assert base + [head, line] == base + [head] + [line];
    KindsAppend(base + [head], [line], lower);
    KindsAppend(base, [head], lower);
    KindsOne(head, lower);
    KindsOne(line, lower);
    KindsAppend(lines, [""], lower);
    KindsOne("", lower);
    BlankLineIgnored(lower);
  }

  /** The line lands in the wanted section: see `LandsIn`; a section name with ']' opens another section. */
  ghost predicate Lands(lines: seq<string>, section: string, key: string, lower: Lower) {
    LandsIn(lines, SlotOf(section, key, lower), Classify(SectionLine(section), lower).name, lower)
  }

  /** For section names without ']' that are new to the file, the line always lands. */
  lemma {:induction false} NewSectionLands(lines: seq<string>, section: string, key: string, lower: Lower)
    requires SecIdx(Kinds(lines, lower), Norm(section, lower)) < 0 && KeyIdx(Kinds(lines, lower), SlotOf(section, key, lower)) < 0
    ensures Lands(lines, section, key, lower) <==> ']' !in section
  {
    SectionLineOpens(section, lower);
  }

  /** Every recognised header line also ends with its ']'. */
  ghost predicate TidyHeaders(lines: seq<string>, lower: Lower) {
    forall i :: 0 <= i < |lines| && Classify(lines[i], lower).Header? ==> EndsSection(lines[i])
  }

  /** With no text after any header's ']', the line always lands (a new section name must not contain ']'). */
  lemma {:induction false} TidyHeadersLand(lines: seq<string>, section: string, key: string, lower: Lower)
    requires TidyHeaders(lines, lower) && ']' !in section
    ensures Lands(lines, section, key, lower)
  {
    hide Kinds, Classify, EndIdx, KeyIdx, SecIdx, SectionAfter, Norm, TidyHeaders, SectionLine;
    var q, ks := SlotOf(section, key, lower), Kinds(lines, lower);
    var sec := SecIdx(ks, q.sec);
    SectionLineOpens(section, lower);
    if sec >= 0 {
      SecIdxIsHeader(ks, q.sec);
      TidyUntilEnd(lines, sec + 1, EndIdx(lines, sec + 1), lower);
    }
  }

  lemma {:induction false} SecIdxIsHeader(ks: seq<Kind>, sec: string)
    requires SecIdx(ks, sec) >= 0
    ensures ks[SecIdx(ks, sec)] == Header(sec) && SectionAfter("", ks[..SecIdx(ks, sec) + 1]) == sec
  {
    var n := |ks| - 1;
    if SecIdx(ks[..n], sec) >= 0 {
      SecIdxIsHeader(ks[..n], sec);
      assert ks[..n][..SecIdx(ks, sec) + 1] == ks[..SecIdx(ks, sec) + 1];
    }
  }

  lemma {:induction false} NoEarlierEnd(lines: seq<string>, i: nat, j: nat)
    requires i <= |lines| && i <= j < EndIdx(lines, i)
    ensures !EndsSection(lines[j])
    decreases j - i
  {
    if i < j {
      NoEarlierEnd(lines, i + 1, j);
    }
  }

  lemma {:induction false} TidyUntilEnd(lines: seq<string>, i: nat, j: nat, lower: Lower)
    requires TidyHeaders(lines, lower) && i <= |lines| && i <= j <= EndIdx(lines, i)
    ensures SectionAfter("", Kinds(lines, lower)[..j]) == SectionAfter("", Kinds(lines, lower)[..i])
    decreases j
  {
    hide Classify, EndsSection, EndIdx;
    if i < j {
      TidyUntilEnd(lines, i, j - 1, lower);
      NoEarlierEnd(lines, i, j - 1);
      KindsSlices(lines, j, lower);
      KindsSlices(lines, j - 1, lower);
      KindsSnoc(lines, j - 1, lower);
    }
  }

  /** Text after a header's ']' hides the header from the splice: the key lands one section too far. */
  lemma {:induction false} TrailingTextMisplacesKey(lower: Lower)
    requires lower('a') == 'a' && lower('b') == 'b'
    ensures !Lands(["[a]", "[b] x"], "a", "k", lower)
  {
    hide Classify, Norm, EndsSection;
    var lines := ["[a]", "[b] x"];
    var q, ks := SlotOf("a", "k", lower), Kinds(lines, lower);
    ExampleHeaders(lower);
    assert lines[..1] == ["[a]"];
    KindsOne("[a]", lower);
    assert ks == [Header("a"), Header("b")];
    assert ks[..1] == [Header("a")] && [Header("a")][..0] == [];
    assert SecIdx(ks, "a") == 0;
    assert EndIdx(lines, 1) == 2 && ks[..2] == ks;
    assert KeyIdx(ks, q) == -1;
  }

  lemma {:induction false} ExampleHeaders(lower: Lower)
    requires lower('a') == 'a' && lower('b') == 'b'
    ensures Norm("a", lower) == "a"
    ensures Classify("[a]", lower) == Header("a")
    ensures Classify("[b] x", lower) == Header("b") && !EndsSection("[b] x")
  {
    hide Classify, EndsSection;
    ExampleA(lower);
    ExampleB(lower);
  }

  lemma {:induction false} ExampleA(lower: Lower)
    requires lower('a') == 'a'
    ensures Norm("a", lower) == "a" && Classify("[a]", lower) == Header("a")
  {
    TightTrim("[a]");
    TightTrim("a");
    SectionLineWhole("a");
    assert "[a]"[1..2] == "a" && SectionLine("a") == "[a]";
  }

  lemma {:induction false} ExampleB(lower: Lower)
    requires lower('b') == 'b'
    ensures Classify("[b] x", lower) == Header("b") && !EndsSection("[b] x")
  {
    TightTrim("[b] x");
    TightTrim("b");
    IndexOfSplit("[b", ']', " x");
    assert "[b] x" == "[b" + "]" + " x" && "[b] x"[1..2] == "b";
  }

  // ----- keys no line can be read as ------------------------------------------------------------

  predicate IsSpecial(c: char) { c in {'=', ':', '[', ';', '#'} }

  /** Lower-casing neither moves nor makes separators, brackets and comment signs; Unicode's does not. */
  ghost predicate KeepsSpecials(lower: Lower) {
    forall c: char :: (IsSpecial(c) ==> lower(c) == c) && (IsSpecial(lower(c)) ==> IsSpecial(c))
  }

  /** A key that a line can be read as. */
  predicate Readable(k: string) {
    '=' !in k && ':' !in k && (k != "" ==> k[0] !in {'[', ';', '#'})
  }

  lemma {:induction false} LowerReadable(k: string, lower: Lower)
    requires KeepsSpecials(lower)
    ensures Readable(LowerAll(k, lower)) <==> Readable(k)
  {
    if k != [] {
      LowerSeparators(k, lower);
      assert LowerAll(k, lower)[0] == lower(k[0]);
      assert IsSpecial('[') && IsSpecial(';') && IsSpecial('#');
      assert lower('[') == '[' && lower(';') == ';' && lower('#') == '#';
    }
  }

  lemma {:induction false} LowerSeparators(k: string, lower: Lower)
    requires KeepsSpecials(lower)
    ensures '=' in LowerAll(k, lower) <==> '=' in k
    ensures ':' in LowerAll(k, lower) <==> ':' in k
  {
    assert lower('=') == '=' && lower(':') == ':' by { assert IsSpecial('=') && IsSpecial(':'); }
    if k != [] {
      LowerSeparators(k[1..], lower);
      assert k == [k[0]] + k[1..];
      SpecialMeans(k[0], lower);
    }
  }

  lemma SpecialMeans(c: char, lower: Lower)
    requires KeepsSpecials(lower)
    ensures (lower(c) == '=' <==> c == '=') && (lower(c) == ':' <==> c == ':')
  {
    assert IsSpecial('=') && IsSpecial(':');
    assert IsSpecial(c) ==> lower(c) == c;
    assert lower(c) == '=' || lower(c) == ':' ==> IsSpecial(lower(c));
  }

  /** Trimming a string that starts with a non-blank keeps its first character. */
  lemma {:induction false} TrimReadable(k: string)
    requires Readable(k) && (k != "" ==> !IsSpace(k[0]))
    ensures Readable(Trim(k))
  {
    if k != [] {
      BlankTrim(k);
      TrimIsPrefix(k);
    }
  }

  /** Every key read from a line is readable. */
  lemma {:induction false} KeysAreReadable(line: string, lower: Lower)
    requires KeepsSpecials(lower) && Classify(line, lower).Assign?
    ensures Readable(Classify(line, lower).key)
  {
    var t := Trim(TrimRightChar(line, '\r'));
    TrimLeftShape(TrimRight(TrimRightChar(line, '\r')));
    var k := SplitKV(t).value.0;
    SplitBefore(t);
    assert k != "" ==> k[0] == t[0];
    TrimReadable(k);
    LowerReadable(Trim(k), lower);
  }

  lemma {:induction false} SplitBefore(t: string)
    requires SplitKV(t).Some?
    ensures
      var k := SplitKV(t).value.0;
      '=' !in k && ':' !in k && |k| < |t| && k == t[..|k|]
  {
    var eq, co := IndexOf(t, '='), IndexOf(t, ':');
    assert eq >= 0 ==> forall j :: 0 <= j < eq ==> t[..eq][j] == t[j];
    assert co >= 0 ==> forall j :: 0 <= j < co ==> t[..co][j] == t[j];
  }

  lemma {:induction false} WritableIsReadable(key: string, lower: Lower)
    requires KeepsSpecials(lower)
    ensures Readable(Norm(key, lower)) <==> WritableKey(key)
  {
    LowerReadable(Trim(key), lower);
    TrimKeepsSeparators(key);
  }

  lemma {:induction false} TrimKeepsSeparators(key: string)
    ensures '=' in Trim(key) <==> '=' in key
    ensures ':' in Trim(key) <==> ':' in key
  {
    var r := TrimRight(key);
    TrimRightShape(key);
    TrimLeftShape(r);
    var n := |r| - |TrimLeft(r)|;
    assert key == r + key[|r|..] && r == r[..n] + TrimLeft(r);
    assert !IsSpace('=') && !IsSpace(':');
    assert '=' !in key[|r|..] && ':' !in key[|r|..] && '=' !in r[..n] && ':' !in r[..n];
  }

  /** No line assigns a key that cannot be written, so it is never found. */
  lemma {:induction false} UnwritableNeverFound(lines: seq<string>, section: string, key: string, lower: Lower)
    requires KeepsSpecials(lower) && !WritableKey(key)
    ensures
      var q, ks := SlotOf(section, key, lower), Kinds(lines, lower);
      KeyIdx(ks, q) < 0 && Lookup("", ks, q).None?
  {
    hide Classify, Norm, WritableKey, Readable, KeepsSpecials;
    var q := SlotOf(section, key, lower);
    WritableIsReadable(key, lower);
    if lines != [] {
      var n := |lines| - 1;
      UnwritableNeverFound(lines[..n], section, key, lower);
      if Classify(lines[n], lower).Assign? {
        KeysAreReadable(lines[n], lower);
      }
    }
  }

  /** The hypotheses under which every key is covered. */
  ghost predicate Covered(key: string, lower: Lower) { WritableKey(key) || KeepsSpecials(lower) }

  /** The slot an edit writes: for a writable key, that key in the section in force at the splice. */
  ghost function WrittenSlot(lines: seq<string>, section: string, key: string, value: string, lower: Lower): Option<Slot> {
    var q := SlotOf(section, key, lower);
    if value == "" then Some(q)
    else Wrote(Classify(NewLine(key, value), lower), SpliceSection(lines, q, Classify(SectionLine(section), lower).name, lower))
  }

  lemma {:induction false} WrittenSlotIs(lines: seq<string>, section: string, key: string, value: string, lower: Lower)
    requires value != "" && WritableKey(key)
    ensures
      var q := SlotOf(section, key, lower);
      var s := SpliceSection(lines, q, Classify(SectionLine(section), lower).name, lower);
      && WrittenSlot(lines, section, key, value, lower) == Some(Slot(s, q.key))
      && (Lands(lines, section, key, lower) <==> s == q.sec)
  {
    hide SpliceSection, Classify;
    NewLineAssigns(key, value, lower);
  }

  /** What an edit does, for every key: nothing but the slot it writes changes. */
  lemma {:induction false} OtherSlotsUntouched(lines: seq<string>, section: string, key: string, value: string, lower: Lower, other: Slot)
    requires Covered(key, lower) && WrittenSlot(lines, section, key, value, lower) != Some(other)
    ensures Lookup("", Kinds(Edited(lines, section, key, value, lower), lower), other) == Lookup("", Kinds(lines, lower), other)
  {
    hide Lookup, Kinds, Classify, SpliceSection, WritableKey, KeepsSpecials, KeyIdx, SecIdx, EndIdx;
    var q := SlotOf(section, key, lower);
    if value != "" {
      NewLineAssigns(key, value, lower);
      SectionLineOpens(section, lower);
      if !WritableKey(key) {
        UnwritableNeverFound(lines, section, key, lower);
      }
      EditReads(lines, q, SectionLine(section), Classify(SectionLine(section), lower).name, NewLine(key, value), lower, other);
    } else {
      RemovalReads(lines, q, SectionLine(section), NewLine(key, value), lower, other);
    }
  }

  /**
    `Get` after `Set` of a non-empty value returns the trimmed value, exactly when the key can be
    written and its line lands.
   */
  lemma {:induction false} GetAfterSet(lines: seq<string>, section: string, key: string, value: string, lower: Lower)
    requires value != "" && Covered(key, lower)
    ensures Lookup("", Kinds(Edited(lines, section, key, value, lower), lower), SlotOf(section, key, lower)) == Some(Trim(value))
            <==> WritableKey(key) && Lands(lines, section, key, lower)
  {
    hide Lookup, Kinds, Classify, SpliceSection, WritableKey, KeepsSpecials, KeyIdx, SecIdx, EndIdx;
    var q := SlotOf(section, key, lower);
    if !WritableKey(key) {
      UnwritableNeverFound(Edited(lines, section, key, value, lower), section, key, lower);
    } else {
      WrittenSlotIs(lines, section, key, value, lower);
      NewLineAssigns(key, value, lower);
      SectionLineOpens(section, lower);
      EditReads(lines, q, SectionLine(section), Classify(SectionLine(section), lower).name, NewLine(key, value), lower, q);
      NotLandedNotFound(lines, section, key, value, lower);
    }
  }

  /** A key whose line does not land is still not found afterwards. */
  lemma {:induction false} NotLandedNotFound(lines: seq<string>, section: string, key: string, value: string, lower: Lower)
    requires value != "" && WritableKey(key)
    ensures
      var q := SlotOf(section, key, lower);
      var after := Kinds(Edited(lines, section, key, value, lower), lower);
      !Lands(lines, section, key, lower) ==> KeyIdx(after, q) < 0 && Lookup("", after, q).None?
  {
    hide Lookup, Kinds, Classify, WritableKey, SecIdx, EndIdx, LastAssignedAt, KeyIdx;
    var q := SlotOf(section, key, lower);
    if !Lands(lines, section, key, lower) {
      WrittenSlotIs(lines, section, key, value, lower);
      OtherSlotsUntouched(lines, section, key, value, lower, q);
      KeyIdxFacts(Kinds(lines, lower), q);
      KeyIdxFacts(Kinds(Edited(lines, section, key, value, lower), lower), q);
      AssignedIsFound(Kinds(Edited(lines, section, key, value, lower), lower), q);
    }
  }

  lemma {:induction false} AssignedIsFound(ks: seq<Kind>, q: Slot)
    ensures KeyIdx(ks, q) >= 0 ==> Lookup("", ks, q).Some?
  {
    if ks != [] {
      AssignedIsFound(ks[..|ks| - 1], q);
    }
  }

  lemma {:induction false} LastAssignedIsKeyIdx(ks: seq<Kind>, p: nat, q: Slot)
    requires p < |ks| && LastAssignedAt(ks, p, q)
    ensures KeyIdx(ks, q) == p
  {
    var n := |ks| - 1;
    if p < n {
      LastAssignedInit(ks, p, q);
      LastAssignedIsKeyIdx(ks[..n], p, q);
    }
  }

  lemma {:induction false} LastAssignedInit(ks: seq<Kind>, p: nat, q: Slot)
    requires p < |ks| - 1 && LastAssignedAt(ks, p, q)
    ensures LastAssignedAt(ks[..|ks| - 1], p, q)
    ensures Says(SectionAfter("", ks[..|ks| - 1]), ks[|ks| - 1], q).None?
  {
    hide Lookup, SectionAfter, Says;
    var n := |ks| - 1;
    var init, s, tail := ks[..n], SectionAfter("", ks[..p + 1]), ks[p + 1..n];
    assert init[..p] == ks[..p] && init[..p + 1] == ks[..p + 1] && init[p + 1..] == tail;
    assert ks[p + 1..] == tail + [ks[n]];
    LookupAppend(s, tail, [ks[n]], q);
    LookupOne(SectionAfter(s, tail), ks[n], q);
    SectionAppend("", ks[..p + 1], tail);
    assert ks[..p + 1] + tail == init;
  }

  lemma {:induction false} EditTwice(lines: seq<string>, q: Slot, head: string, opens: string, line: string, lower: Lower)
    requires Classify(head, lower) == Header(opens) && Classify(line, lower).Assign? && Classify(line, lower).key == q.key
    requires LandsIn(lines, q, opens, lower)
    ensures
      var once := EditedSlot(lines, q, head, line, false, lower);
      EditedSlot(once, q, head, line, false, lower) == once
  {
    hide Kinds, KeyIdx, SecIdx, EndIdx, Classify, Lookup, SectionAfter, LastAssignedAt, SpliceSection;
    var once := EditedSlot(lines, q, head, line, false, lower);
    var ks := Kinds(once, lower);
    EditReads(lines, q, head, opens, line, lower, q);
    var p: nat :| p < |ks| && LastAssignedAt(ks, p, q) && once[p] == line;
    LastAssignedIsKeyIdx(ks, p, q);
    assert once[..p] + [once[p]] + once[p + 1..] == once;
  }

  /** A key that is not found is written as a line more. */
  lemma {:induction false} UnfoundGrows(lines: seq<string>, section: string, key: string, value: string, lower: Lower)
    requires value != "" && KeyIdx(Kinds(lines, lower), SlotOf(section, key, lower)) < 0
    ensures |Edited(lines, section, key, value, lower)| > |lines|
  {
    hide Kinds, KeyIdx, SecIdx, EndIdx;
  }

  /** The same edit a second time changes no line, exactly when the key can be written and its line lands. */
  lemma {:induction false} SetTwice(lines: seq<string>, section: string, key: string, value: string, lower: Lower)
    requires value != "" && Covered(key, lower)
    ensures
      var once := Edited(lines, section, key, value, lower);
      Edited(once, section, key, value, lower) == once <==> WritableKey(key) && Lands(lines, section, key, lower)
  {
    hide Kinds, KeyIdx, SecIdx, EndIdx, Classify, WritableKey, KeepsSpecials, SpliceSection;
    var once := Edited(lines, section, key, value, lower);
    if !WritableKey(key) {
      UnwritableNeverFound(once, section, key, lower);
      UnfoundGrows(once, section, key, value, lower);
    } else if !Lands(lines, section, key, lower) {
      NotLandedNotFound(lines, section, key, value, lower);
      UnfoundGrows(once, section, key, value, lower);
    } else {
      NewLineAssigns(key, value, lower);
      SectionLineOpens(section, lower);
      EditTwice(lines, SlotOf(section, key, lower), SectionLine(section), Classify(SectionLine(section), lower).name,
                NewLine(key, value), lower);
    }
  }

  // ----- removal ------------------------------------------------------------------------------

  /** How many lines assign the slot. */
  ghost function Assignments(cur: string, ks: seq<Kind>, q: Slot): nat {
    if ks == [] then 0
    else
      var n := |ks| - 1;
      Assignments(cur, ks[..n], q) + if Says(SectionAfter(cur, ks[..n]), ks[n], q).Some? then 1 else 0
  }

  lemma {:induction false} AssignmentsAppend(cur: string, a: seq<Kind>, b: seq<Kind>, q: Slot)
    ensures Assignments(cur, a + b, q) == Assignments(cur, a, q) + Assignments(SectionAfter(cur, a), b, q)
  {
    if b == [] {
      assert a + b == a;
    } else {
      var n := |b| - 1;
      assert (a + b)[..|a + b| - 1] == a + b[..n];
      AssignmentsAppend(cur, a, b[..n], q);
      SectionAppend(cur, a, b[..n]);
    }
  }

  lemma {:induction false} NoneIffUnassigned(cur: string, ks: seq<Kind>, q: Slot)
    ensures Lookup(cur, ks, q).None? <==> Assignments(cur, ks, q) == 0
  {
    if ks != [] {
      NoneIffUnassigned(cur, ks[..|ks| - 1], q);
    }
  }

  lemma {:induction false} DroppedReads(ks: seq<Kind>, k: nat, q: Slot, other: Slot)
    requires k < |ks| && LastAssignedAt(ks, k, q)
    ensures
      var after := ks[..k] + ks[k + 1..];
      && (other != q ==> Lookup("", after, other) == Lookup("", ks, other))
      && Assignments("", ks, q) == Assignments("", after, q) + 1
  {
    var a, x, b := ks[..k], ks[k], ks[k + 1..];
    assert ks == a + [x] + b && [x][..0] == [];
    assert SectionAfter(SectionAfter("", a), [x]) == SectionAfter("", a);
    LookupMiddle(a, x, b, other);
    LookupAppend("", a, b, other);
    AssignmentsAppend("", a + [x], b, q);
    AssignmentsAppend("", a, [x], q);
    AssignmentsAppend("", a, b, q);
    SectionAppend("", a, [x]);
  }

  lemma {:induction false} RemovalReads(lines: seq<string>, q: Slot, head: string, line: string, lower: Lower, other: Slot)
    ensures
      var ks, after := Kinds(lines, lower), Kinds(EditedSlot(lines, q, head, line, true, lower), lower);
      && (other != q ==> Lookup("", after, other) == Lookup("", ks, other))
      && Assignments("", after, q) == (if Assignments("", ks, q) == 0 then 0 else Assignments("", ks, q) - 1)
  {
    hide Kinds, KeyIdx, SecIdx, EndIdx, Lookup, SectionAfter, LastAssignedAt, Assignments;
    var ks := Kinds(lines, lower);
    var k := KeyIdx(ks, q);
    KeyIdxFacts(ks, q);
    NoneIffUnassigned("", ks, q);
    if k >= 0 {
      KindsAppend(lines[..k], lines[k + 1..], lower);
      KindsSlices(lines, k, lower);
      KindsSlices(lines, k + 1, lower);
      DroppedReads(ks, k, q, other);
    }
  }

  /** Removal drops the last assignment: the key is gone exactly when it was assigned at most once. */
  lemma {:induction false} RemovedIffAssignedOnce(lines: seq<string>, section: string, key: string, lower: Lower)
    ensures
      var q := SlotOf(section, key, lower);
      Lookup("", Kinds(Edited(lines, section, key, "", lower), lower), q).None? <==> Assignments("", Kinds(lines, lower), q) <= 1
  {
    var q := SlotOf(section, key, lower);
    RemovalReads(lines, q, SectionLine(section), NewLine(key, ""), lower, q);
    NoneIffUnassigned("", Kinds(Edited(lines, section, key, "", lower), lower), q);
  }

  /** A second removal changes nothing exactly when the key was assigned at most once. */
  lemma {:induction false} RemoveTwice(lines: seq<string>, section: string, key: string, lower: Lower)
    ensures
      var once := Edited(lines, section, key, "", lower);
      Edited(once, section, key, "", lower) == once <==> Assignments("", Kinds(lines, lower), SlotOf(section, key, lower)) <= 1
  {
    hide Kinds, KeyIdx, SecIdx, EndIdx, Lookup, Assignments;
    var q, once := SlotOf(section, key, lower), Edited(lines, section, key, "", lower);
    RemovedIffAssignedOnce(lines, section, key, lower);
    KeyIdxFacts(Kinds(once, lower), q);
    AssignedIsFound(Kinds(once, lower), q);
  }
}
