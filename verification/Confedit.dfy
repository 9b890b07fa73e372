/**
  Comment-preserving edits of the INI configuration file. A file is a list of lines; an edit
  is line surgery on that list, and what an edit means is what a later `Get` sees.

  Lower-casing works character by character and is otherwise arbitrary (`lower`).
 */
module Confedit {
  import opened Bytes
  import opened Text

  type Lower = char -> char

  /** A normalised (section, key) pair. */
  datatype Slot = Slot(sec: string, key: string)

  datatype Kind = Ignored | Header(name: string) | OpenBracket | Assign(key: string, value: string) | Other

  function LowerAll(s: string, lower: Lower): (r: string)
    ensures |r| == |s|
  {
    if s == [] then [] else [lower(s[0])] + LowerAll(s[1..], lower)
  }

  function Norm(s: string, lower: Lower): string { LowerAll(Trim(s), lower) }

  /** Splits at the first '=' or ':', whichever comes first. */
  function SplitKV(s: string): Option<(string, string)> {
    var eq, co := IndexOf(s, '='), IndexOf(s, ':');
    if eq < 0 && co < 0 then None
    else
      var idx := if eq < 0 then co else if co < 0 then eq else if eq < co then eq else co;
      Some((s[..idx], s[idx + 1..]))
  }

  /** How a line reads, after trimming. */
  function Classify(line: string, lower: Lower): Kind {
    var t := Trim(TrimRightChar(line, '\r'));
    if t == [] || t[0] == ';' || t[0] == '#' then Ignored
    else if t[0] == '[' then
      var end := IndexOf(t, ']');
      if end > 0 then Header(Norm(t[1..end], lower)) else OpenBracket
    else
      match SplitKV(t)
      case None => Other
      case Some((k, v)) => Assign(Norm(k, lower), Trim(v))
  }

  function Kinds(lines: seq<string>, lower: Lower): (ks: seq<Kind>)
    ensures |ks| == |lines|
  {
    if lines == [] then [] else Kinds(lines[..|lines| - 1], lower) + [Classify(lines[|lines| - 1], lower)]
  }

  /** The section in force after reading `ks`, starting in section `cur`. */
  function SectionAfter(cur: string, ks: seq<Kind>): string {
    if ks == [] then cur
    else if ks[|ks| - 1].Header? then ks[|ks| - 1].name
    else SectionAfter(cur, ks[..|ks| - 1])
  }

  /** What one line, read in section `cur`, says about a slot. */
  function Says(cur: string, k: Kind, q: Slot): Option<string> {
    if cur == q.sec && k.Assign? && k.key == q.key then Some(k.value) else None
  }

  /** The last assignment of the slot. */
  function Lookup(cur: string, ks: seq<Kind>, q: Slot): Option<string> {
    if ks == [] then None
    else
      var rest := ks[..|ks| - 1];
      var here := Says(SectionAfter(cur, rest), ks[|ks| - 1], q);
      if here.Some? then here else Lookup(cur, rest, q)
  }

  function SlotOf(section: string, key: string, lower: Lower): Slot {
    Slot(Norm(section, lower), Norm(key, lower))
  }

  lemma {:induction false} KindsSnoc(lines: seq<string>, i: nat, lower: Lower)
    requires i < |lines|
    ensures
      var ks := Kinds(lines[..i + 1], lower);
      |ks| == i + 1 && ks[..i] == Kinds(lines[..i], lower) && ks[i] == Classify(lines[i], lower)
  {
    assert lines[..i + 1][..i] == lines[..i];
  }

  /** Reading one more line. */
  lemma {:induction false} ReadNext(lines: seq<string>, i: nat, q: Slot, lower: Lower)
    requires i < |lines|
    ensures
      var before, after, k := Kinds(lines[..i], lower), Kinds(lines[..i + 1], lower), Classify(lines[i], lower);
      var cur := SectionAfter("", before);
      && SectionAfter("", after) == (if k.Header? then k.name else cur)
      && Lookup("", after, q) == (if Says(cur, k, q).Some? then Says(cur, k, q) else Lookup("", before, q))
      && KeyIdx(after, q) == (if Says(cur, k, q).Some? then i else KeyIdx(before, q))
      && SecIdx(after, q.sec) == (if SecIdx(before, q.sec) >= 0 then SecIdx(before, q.sec) else if k == Header(q.sec) then i else -1)
  {
    hide Classify, Kinds;
    KindsSnoc(lines, i, lower);
  }

  lemma NothingRead(q: Slot, lower: Lower)
    ensures Kinds([], lower) == [] && SectionAfter("", []) == "" && Lookup("", [], q).None?
    ensures KeyIdx([], q) == -1 && SecIdx([], q.sec) == -1
  {
  }

  /** The last value of the key under the section, and whether there is one. */
  method Get(lines: seq<string>, section: string, key: string, lower: Lower) returns (value: string, found: bool)
    ensures Lookup("", Kinds(lines, lower), SlotOf(section, key, lower)) == if found then Some(value) else None
  {
    hide Classify, Kinds, SectionAfter, Lookup, Norm, KeyIdx, SecIdx;
    var q := SlotOf(section, key, lower);
    var cur := "";
    value, found := "", false;
    NothingRead(q, lower);
    assert lines[..0] == [];
    for i := 0 to |lines|
      invariant cur == SectionAfter("", Kinds(lines[..i], lower))
      invariant Lookup("", Kinds(lines[..i], lower), q) == if found then Some(value) else None
    {
      var kind := Classify(lines[i], lower);
      ReadNext(lines, i, q, lower);
      match kind
      case Header(name) =>
        cur := name;
      case Assign(k, v) =>
        if cur == q.sec && k == q.key {
          value, found := v, true;
        }
      case _ =>
    }
    assert lines[..|lines|] == lines;
  }

  // ----- the edit -----------------------------------------------------------------------------

  /** Index of the last assignment of the slot, or -1. */
  function KeyIdx(ks: seq<Kind>, q: Slot): (r: int)
    ensures -1 <= r < |ks|
  {
    if ks == [] then -1
    else
      var n := |ks| - 1;
      if Says(SectionAfter("", ks[..n]), ks[n], q).Some? then n else KeyIdx(ks[..n], q)
  }

  /** Index of the first header of the section, or -1. */
  function SecIdx(ks: seq<Kind>, sec: string): (r: int)
    ensures -1 <= r < |ks|
  {
    if ks == [] then -1
    else
      var n := |ks| - 1;
      var r := SecIdx(ks[..n], sec);
      if r >= 0 then r else if ks[n] == Header(sec) then n else -1
  }

  predicate EndsSection(line: string) {
    var t := Trim(TrimRightChar(line, '\r'));
    t != [] && t[0] == '[' && t[|t| - 1] == ']'
  }

  /** First line from `i` on that starts with '[' and ends with ']', or the end. */
  function EndIdx(lines: seq<string>, i: nat): (r: nat)
    requires i <= |lines|
    ensures i <= r <= |lines|
    decreases |lines| - i
  {
    if i == |lines| || EndsSection(lines[i]) then i else EndIdx(lines, i + 1)
  }

  function NewLine(key: string, value: string): string { key + " = " + value }

  function SectionLine(section: string): string { "[" + section + "]" }

  /** The splice, given where the key and the section were found. */
  function Splice(lines: seq<string>, head: string, line: string, remove: bool, keyIdx: int, secIdx: int): seq<string>
    requires -1 <= keyIdx < |lines| && -1 <= secIdx < |lines|
  {
    if remove then if keyIdx >= 0 then lines[..keyIdx] + lines[keyIdx + 1..] else lines
    else if keyIdx >= 0 then lines[..keyIdx] + [line] + lines[keyIdx + 1..]
    else if secIdx >= 0 then
      var end := EndIdx(lines, secIdx + 1);
      lines[..end] + [line] + lines[end..]
    else
      Separated(lines) + [head, line]
  }

  /** The file a new section is appended to: a blank line follows a non-blank last line. */
  function Separated(lines: seq<string>): seq<string> {
    if |lines| > 0 && Trim(lines[|lines| - 1]) != "" then lines + [""] else lines
  }

  /** The splice for a slot, with the header and the assignment line to write. */
  function EditedSlot(lines: seq<string>, q: Slot, head: string, line: string, remove: bool, lower: Lower): seq<string> {
    Splice(lines, head, line, remove, KeyIdx(Kinds(lines, lower), q), SecIdx(Kinds(lines, lower), q.sec))
  }

  /** The list of lines after an edit; an empty value removes. */
  function Edited(lines: seq<string>, section: string, key: string, value: string, lower: Lower): seq<string> {
    EditedSlot(lines, SlotOf(section, key, lower), SectionLine(section), NewLine(key, value), value == "", lower)
  }

  datatype SetResult = Refused | Unchanged | Written(lines: seq<string>)

  predicate HasBreak(s: string) { '\r' in s || '\n' in s }

  /** One pass: the first header of the section and the last line of the key. */
  method Locate(lines: seq<string>, q: Slot, lower: Lower) returns (secIdx: int, keyIdx: int)
    ensures secIdx == SecIdx(Kinds(lines, lower), q.sec)
    ensures keyIdx == KeyIdx(Kinds(lines, lower), q)
  {
    hide Classify, Kinds, SectionAfter, Lookup, KeyIdx, SecIdx;
    var cur := "";
    secIdx, keyIdx := -1, -1;
    NothingRead(q, lower);
    assert lines[..0] == [];
    for i := 0 to |lines|
      invariant cur == SectionAfter("", Kinds(lines[..i], lower))
      invariant secIdx == SecIdx(Kinds(lines[..i], lower), q.sec)
      invariant keyIdx == KeyIdx(Kinds(lines[..i], lower), q)
    {
      var kind := Classify(lines[i], lower);
      ReadNext(lines, i, q, lower);
      match kind
      case Header(name) =>
        if name == q.sec && secIdx == -1 {
          secIdx := i;
        }
        cur := name;
      case Assign(k, _) =>
        if cur == q.sec && k == q.key {
          keyIdx := i;
        }
      case _ =>
    }
    assert lines[..|lines|] == lines;
  }

  method FindEnd(lines: seq<string>, start: nat) returns (end: nat)
    requires start <= |lines|
    ensures end == EndIdx(lines, start)
  {
    end := start;
    while end < |lines| && !EndsSection(lines[end])
      invariant start <= end <= |lines| && EndIdx(lines, start) == EndIdx(lines, end)
    {
      end := end + 1;
    }
  }

  /** Writes key = value under the section, or removes the key when the value is empty. */
  method Set(lines: seq<string>, section: string, key: string, value: string, lower: Lower) returns (r: SetResult)
    ensures r.Refused? <==> HasBreak(key) || HasBreak(value)
    ensures r.Written? ==> r.lines == Edited(lines, section, key, value, lower)
    ensures r.Unchanged? <==> !HasBreak(key) && !HasBreak(value) && value == "" && KeyIdx(Kinds(lines, lower), SlotOf(section, key, lower)) < 0
    ensures r.Unchanged? ==> Edited(lines, section, key, value, lower) == lines
  {
    if HasBreak(key) || HasBreak(value) {
      return Refused;
    }
    var secIdx, keyIdx := Locate(lines, SlotOf(section, key, lower), lower);
    if value == "" && keyIdx < 0 {
      return Unchanged;
    }
    var out := SpliceLines(lines, SectionLine(section), NewLine(key, value), value == "", keyIdx, secIdx);
    return Written(out);
  }

  method SpliceLines(lines: seq<string>, head: string, line: string, remove: bool, keyIdx: int, secIdx: int)
    returns (out: seq<string>)
    requires -1 <= keyIdx < |lines| && -1 <= secIdx < |lines| && (remove ==> keyIdx >= 0)
    ensures out == Splice(lines, head, line, remove, keyIdx, secIdx)
  {
    if remove {
      out := lines[..keyIdx] + lines[keyIdx + 1..];
    } else if keyIdx >= 0 {
      out := lines[keyIdx := line];
    } else if secIdx >= 0 {
      var end := FindEnd(lines, secIdx + 1);
      out := lines[..end] + [line] + lines[end..];
    } else {
      out := lines;
      if |out| > 0 && Trim(out[|out| - 1]) != "" {
        out := out + [""];
      }
      out := out + [head, line];
    }
  }

  // ----- what the new line says ---------------------------------------------------------------

  /** The key survives being written verbatim: no separator in it, and it does not open a comment or header. */
  predicate WritableKey(key: string) {
    && '=' !in key && ':' !in key
    && (Trim(key) != "" ==> Trim(key)[0] !in {'[', ';', '#'})
  }

  lemma {:induction false} IndexOfSplit(a: string, c: char, b: string)
    requires c !in a
    ensures IndexOf(a + [c] + b, c) == |a|
  {
    if a != [] {
      assert (a + [c] + b)[1..] == a[1..] + [c] + b;
      IndexOfSplit(a[1..], c, b);
    }
  }

  /** The trimmed new line is a left part that trims to the key, '=', and a right part that trims to the value. */
  lemma {:induction false} NewLineTrimmed(key: string, value: string) returns (k: string, v: string)
    ensures Trim(NewLine(key, value)) == k + "=" + v
    ensures Trim(k) == Trim(key) && Trim(v) == Trim(value)
    ensures k == if Blank(key) then "" else TrimLeft(key) + " "
  {
    v := NewLineRight(key, value);
    k := NewLineLeft(key, "=" + v);
    assert key + " =" + v == key + " " + ("=" + v);
    assert k + ("=" + v) == k + "=" + v;
  }

  lemma {:induction false} NewLineLeft(key: string, rest: string) returns (k: string)
    requires rest != "" && !IsSpace(rest[0])
    ensures TrimLeft(key + " " + rest) == k + rest && Trim(k) == Trim(key)
    ensures k == if Blank(key) then "" else TrimLeft(key) + " "
  {
    hide TrimLeft, Trim, IsSpace;
    if Blank(key) {
      k := "";
      BlankKey(key, rest);
    } else {
      k := TrimLeft(key) + " ";
      TrimLeftAppend(key, " " + rest);
      assert key + (" " + rest) == key + " " + rest;
      assert TrimLeft(key) + (" " + rest) == k + rest;
      OneBlank();
      TrimPadded("", TrimLeft(key), " ");
      assert "" + TrimLeft(key) + " " == k;
      TrimTrimLeft(key);
    }
  }

  lemma OneBlank()
    ensures Blank(" ") && Blank("")
  {
  }

  lemma BlankKey(key: string, rest: string)
    requires Blank(key) && rest != "" && !IsSpace(rest[0])
    ensures TrimLeft(key + " " + rest) == rest && Trim("") == Trim(key)
  {
    TrimLeftBlank(key + " ", rest);
    BlankTrim(key);
  }

  lemma {:induction false} NewLineRight(key: string, value: string) returns (v: string)
    ensures TrimRight(NewLine(key, value)) == key + " =" + v && Trim(v) == Trim(value)
  {
    var line := NewLine(key, value);
    if Blank(value) {
      v := "";
      assert line == key + " =" + (" " + value);
      TrimRightBlank(key + " =", " " + value);
      assert TrimRight(key + " =") == key + " =";
      BlankTrim(value);
      assert key + " =" + "" == key + " =";
    } else {
      v := " " + TrimRight(value);
      TrimRightAppend(key + " = ", value);
      assert key + " = " + TrimRight(value) == key + " =" + v;
      TrimPadded(" ", TrimRight(value), "");
      assert " " + TrimRight(value) + "" == v;
      TrimTrimRight(value);
    }
  }
}
