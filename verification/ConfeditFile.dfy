/**
  The configuration file as text: how lines are printed and read back. `Get` after `Set`
  holds through the file, not only on line lists; a trailing blank line does not survive.
 */
module ConfeditFile {
  import opened Bytes
  import opened Text
  import opened Confedit
  import opened ConfeditLaws

  /** One carriage return before the line break is dropped by the line scanner. */
  function DropCR(s: string): string {
    if s != [] && s[|s| - 1] == '\r' then s[..|s| - 1] else s
  }

  /** The line scanner: lines end at '\n'; a last line without one counts if it is not empty. */
  function ReadLines(text: string): seq<string>
    decreases |text|
  {
    if text == [] then []
    else
      var i := IndexOf(text, '\n');
      if i < 0 then [DropCR(text)] else [DropCR(text[..i])] + ReadLines(text[i + 1..])
  }

  function Join(lines: seq<string>): string {
    if lines == [] then "" else if |lines| == 1 then lines[0] else lines[0] + "\n" + Join(lines[1..])
  }

  /** What `Set` writes: the lines joined, with a final line break added unless one is there. */
  function Print(lines: seq<string>): string {
    var out := Join(lines);
    if HasSuffix(out, "\n") then out else out + "\n"
  }

  /** Every line followed by a line break. */
  ghost function Terminated(lines: seq<string>): string {
    if lines == [] then "" else lines[0] + "\n" + Terminated(lines[1..])
  }

  ghost predicate OneLine(s: string) { '\n' !in s }

  ghost predicate Clean(lines: seq<string>) { forall i :: 0 <= i < |lines| ==> OneLine(lines[i]) }

  ghost function Dropped(lines: seq<string>): seq<string> {
    if lines == [] then [] else [DropCR(lines[0])] + Dropped(lines[1..])
  }

  /** The lines that survive printing: all of them, except one empty last line after others. */
  ghost function Kept(lines: seq<string>): seq<string> {
    if lines == [] then [""]
    else if |lines| >= 2 && lines[|lines| - 1] == "" then lines[..|lines| - 1]
    else lines
  }

  lemma {:induction false} JoinTerminated(lines: seq<string>)
    requires lines != []
    ensures Join(lines) + "\n" == Terminated(lines)
  {
    if |lines| == 1 {
      assert lines[1..] == [];
      assert lines[0] + "\n" + "" == lines[0] + "\n";
    } else {
      JoinTerminated(lines[1..]);
      assert lines[0] + "\n" + Join(lines[1..]) + "\n" == lines[0] + "\n" + (Join(lines[1..]) + "\n");
    }
  }

  lemma {:induction false} TerminatedSnoc(lines: seq<string>, x: string)
    ensures Terminated(lines + [x]) == Terminated(lines) + x + "\n"
  {
    if lines == [] {
      assert (lines + [x])[1..] == [];
      assert Terminated([x]) == x + "\n" + Terminated([]);
      assert "" + x + "\n" == x + "\n" + "";
    } else {
      assert (lines + [x])[1..] == lines[1..] + [x];
      TerminatedSnoc(lines[1..], x);
      var a, t := lines[0] + "\n", Terminated(lines[1..]);
      assert a + (t + x + "\n") == a + t + x + "\n";
    }
  }

  lemma {:induction false} TerminatedEnds(lines: seq<string>)
    requires lines != []
    ensures Terminated(lines) != "" && Terminated(lines)[|Terminated(lines)| - 1] == '\n'
  {
    var n := |lines| - 1;
    TerminatedSnoc(lines[..n], lines[n]);
    assert lines[..n] + [lines[n]] == lines;
  }

  /** Printing clean lines terminates exactly the kept ones. */
  lemma {:induction false} PrintTerminates(lines: seq<string>)
    requires Clean(lines)
    ensures Print(lines) == Terminated(Kept(lines))
  {
    if lines == [] {
      assert Terminated([""]) == "" + "\n" + Terminated([""][1..]);
      assert Print(lines) == "\n";
    } else {
      var n := |lines| - 1;
      var out, init, last := Join(lines), lines[..n], lines[n];
      JoinTerminated(lines);
      TerminatedSnoc(init, last);
      assert init + [last] == lines;
      assert out + "\n" == Terminated(init) + last + "\n";
      assert out == Terminated(init) + last by {
        assert (out + "\n")[..|out|] == out;
        assert (Terminated(init) + last + "\n")[..|out|] == Terminated(init) + last;
      }
      if last != "" {
        assert out[|out| - 1] == last[|last| - 1];
        assert OneLine(last);
        assert out[|out| - 1..] == [out[|out| - 1]];
      } else if n >= 1 {
        TerminatedEnds(init);
        assert out == Terminated(init);
        assert out[|out| - 1..] == "\n";
      } else {
        assert init == [] && out == "";
      }
    }
  }

  /** Reading terminated clean lines gives the lines back, less a carriage return each. */
  lemma {:induction false} ReadTerminated(lines: seq<string>)
    requires Clean(lines)
    ensures ReadLines(Terminated(lines)) == Dropped(lines)
  {
    if lines != [] {
      var x, rest := lines[0], Terminated(lines[1..]);
      assert OneLine(x);
      IndexOfSplit(x, '\n', rest);
      var text := x + "\n" + rest;
      assert text[..|x|] == x && text[|x| + 1..] == rest;
      ReadTerminated(lines[1..]);
    }
  }

  lemma {:induction false} DropCRReads(x: string, lower: Lower)
    ensures Classify(DropCR(x), lower) == Classify(x, lower)
  {
    hide Classify, Trim, TrimRightChar;
    SameTrimSameKind(x, DropCR(x), lower);
    TrimRightCharTrim(x);
    TrimRightCharTrim(DropCR(x));
    if x != [] && x[|x| - 1] == '\r' {
      TrimPadded("", x[..|x| - 1], "\r");
      assert "" + x[..|x| - 1] + "\r" == x;
    }
  }

  lemma SameTrimSameKind(x: string, y: string, lower: Lower)
    ensures Trim(TrimRightChar(x, '\r')) == Trim(TrimRightChar(y, '\r')) ==> Classify(x, lower) == Classify(y, lower)
  {
    hide Trim, TrimRightChar, SplitKV, IndexOf, Norm;
  }

  lemma {:induction false} DroppedKinds(lines: seq<string>, lower: Lower)
    ensures Kinds(Dropped(lines), lower) == Kinds(lines, lower)
  {
    if lines != [] {
      DroppedKinds(lines[1..], lower);
      DropCRReads(lines[0], lower);
      KindsAppend([DropCR(lines[0])], Dropped(lines[1..]), lower);
      KindsAppend([lines[0]], lines[1..], lower);
      KindsOne(DropCR(lines[0]), lower);
      KindsOne(lines[0], lower);
      assert [lines[0]] + lines[1..] == lines;
    }
  }

  /** A blank last line says nothing. */
  lemma {:induction false} KeptReads(lines: seq<string>, q: Slot, lower: Lower)
    ensures Lookup("", Kinds(Kept(lines), lower), q) == Lookup("", Kinds(lines, lower), q)
  {
    BlankLineIgnored(lower);
    if lines == [] {
      KindsOne("", lower);
      LookupOne("", Ignored, q);
    } else if |lines| >= 2 && lines[|lines| - 1] == "" {
      var init := lines[..|lines| - 1];
      KindsAppend(init, [""], lower);
      KindsOne("", lower);
      assert init + [""] == lines;
      AppendedHeaderReads(Kinds(init, lower), Ignored);
    }
  }

  /** Any lookup through the printed file sees what it sees on the lines. */
  lemma {:induction false} PrintedFileReads(lines: seq<string>, q: Slot, lower: Lower)
    requires Clean(lines)
    ensures Lookup("", Kinds(ReadLines(Print(lines)), lower), q) == Lookup("", Kinds(lines, lower), q)
  {
    hide Lookup, Kinds, ReadLines, Print, Classify;
    PrintTerminates(lines);
    ReadTerminated(Kept(lines));
    DroppedKinds(Kept(lines), lower);
    KeptReads(lines, q, lower);
  }

  // ----- the whole round trip -----------------------------------------------------------------

  /** `Set` on the file's text. */
  function SetText(text: string, section: string, key: string, value: string, lower: Lower): string {
    Print(Edited(ReadLines(text), section, key, value, lower))
  }

  lemma {:induction false} ReadLinesClean(text: string)
    ensures Clean(ReadLines(text))
    decreases |text|
  {
    hide DropCR;
    if text != [] {
      var i := IndexOf(text, '\n');
      if i >= 0 {
        ReadLinesClean(text[i + 1..]);
        DropCROneLine(text[..i]);
        CleanCons(DropCR(text[..i]), ReadLines(text[i + 1..]));
      } else {
        DropCROneLine(text);
      }
    }
  }

  lemma DropCROneLine(s: string)
    ensures OneLine(s) ==> OneLine(DropCR(s))
  {
  }

  lemma CleanCons(x: string, rest: seq<string>)
    requires OneLine(x) && Clean(rest)
    ensures Clean([x] + rest)
  {
  }

  lemma {:induction false} EditedClean(lines: seq<string>, section: string, key: string, value: string, lower: Lower)
    requires Clean(lines) && OneLine(section) && OneLine(key) && OneLine(value)
    ensures Clean(Edited(lines, section, key, value, lower))
  {
    hide Kinds, KeyIdx, SecIdx, EndIdx, SlotOf, Trim;
    assert OneLine(NewLine(key, value)) && OneLine(SectionLine(section)) && OneLine("");
  }

  /** Through the file: a written value is read back trimmed, exactly when its key can be written and its line lands. */
  lemma {:induction false} FileGetAfterSet(text: string, section: string, key: string, value: string, lower: Lower)
    requires value != "" && Covered(key, lower) && OneLine(section) && OneLine(key) && OneLine(value)
    ensures Lookup("", Kinds(ReadLines(SetText(text, section, key, value, lower)), lower), SlotOf(section, key, lower)) == Some(Trim(value))
            <==> WritableKey(key) && Lands(ReadLines(text), section, key, lower)
  {
    hide Lookup, Kinds, ReadLines, Print, Lands, Edited, Trim, SlotOf, WritableKey, Covered;
    var lines := ReadLines(text);
    ReadLinesClean(text);
    EditedClean(lines, section, key, value, lower);
    PrintedFileReads(Edited(lines, section, key, value, lower), SlotOf(section, key, lower), lower);
    GetAfterSet(lines, section, key, value, lower);
  }

  /** Lines that end in a carriage return. */
  ghost function Returns(lines: seq<string>): nat {
    if lines == [] then 0 else (if DropCR(lines[0]) == lines[0] then 0 else 1) + Returns(lines[1..])
  }

  lemma {:induction false} NoReturns(lines: seq<string>)
    ensures Returns(lines) == 0 <==> forall i :: 0 <= i < |lines| ==> DropCR(lines[i]) == lines[i]
    ensures Returns(lines) == 0 ==> Dropped(lines) == lines
    ensures |Terminated(Dropped(lines))| + Returns(lines) == |Terminated(lines)| && |Dropped(lines)| == |lines|
  {
    if lines != [] {
      NoReturns(lines[1..]);
      assert forall i :: 0 <= i < |lines| - 1 ==> lines[1..][i] == lines[i + 1];
      assert Dropped(lines)[0] == DropCR(lines[0]) && Dropped(lines)[1..] == Dropped(lines[1..]);
    }
  }

  /** Printing keeps all but one trailing blank line. */
  lemma {:induction false} KeptLength(lines: seq<string>)
    requires lines != []
    ensures |Terminated(Kept(lines))| <= |Terminated(lines)|
    ensures |lines| >= 2 && lines[|lines| - 1] == "" ==> |Terminated(Kept(lines))| < |Terminated(lines)|
  {
    if |lines| >= 2 && lines[|lines| - 1] == "" {
      var init := lines[..|lines| - 1];
      TerminatedSnoc(init, "");
      assert init + [""] == lines;
    }
  }

  /**
    Printing, reading and printing again gives the same text exactly when no line ends in a
    carriage return and the lines do not end in two empty ones: each round eats one of either.
   */
  lemma {:induction false} ReprintStable(lines: seq<string>)
    requires Clean(lines)
    ensures
      var n := |lines|;
      Print(ReadLines(Print(lines))) == Print(lines) <==>
        && (forall i :: 0 <= i < n ==> DropCR(lines[i]) == lines[i])
        && !(n >= 3 && lines[n - 1] == "" && lines[n - 2] == "")
  {
    hide Print, ReadLines, Terminated;
    var n, kept := |lines|, Kept(lines);
    PrintTerminates(lines);
    ReadTerminated(kept);
    DroppedClean(kept);
    PrintTerminates(Dropped(kept));
    NoReturns(kept);
    KeptLength(Dropped(kept));
    KeptReturns(lines);
    if Returns(kept) == 0 {
      if n >= 3 && lines[n - 1] == "" && lines[n - 2] == "" {
        assert kept[|kept| - 1] == "";
      } else {
        assert Kept(kept) == kept;
      }
    }
  }

  lemma {:induction false} DroppedClean(lines: seq<string>)
    requires Clean(lines)
    ensures Clean(Dropped(lines))
  {
    if lines != [] {
      DroppedClean(lines[1..]);
      assert OneLine(lines[0]);
    }
  }

  lemma KeptReturns(lines: seq<string>)
    ensures Returns(Kept(lines)) == 0 <==> forall i :: 0 <= i < |lines| ==> DropCR(lines[i]) == lines[i]
    ensures Kept(lines) != []
  {
    hide Returns;
    NoReturns(Kept(lines));
    assert DropCR("") == "";
    if |lines| >= 2 && lines[|lines| - 1] == "" {
      assert forall i :: 0 <= i < |lines| - 1 ==> Kept(lines)[i] == lines[i];
    }
  }
}
