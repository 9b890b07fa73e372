/**
  The splice of one block, and of all matched blocks of a file from the bottom up: the result
  is every block rewritten on its own, with everything outside the blocks untouched.
 */
module NginxSplice {
  import opened NginxLines
  import opened NginxScan

  function Keep(ls: seq<Line>): seq<Line> {
    if ls == [] then [] else Keep(ls[..|ls| - 1]) + if IsCert(ls[|ls| - 1]) then [] else [ls[|ls| - 1]]
  }

  /** Index of the last server_name line, or -1. */
  function LastName(ls: seq<Line>): (k: int)
    ensures -1 <= k < |ls| && (k >= 0 ==> Names(ls[k]))
  {
    if ls == [] then -1 else if Names(ls[|ls| - 1]) then |ls| - 1 else LastName(ls[..|ls| - 1])
  }

  /** The new lines go after the last server_name line, or after the opening line if there is none. */
  function CutAt(region: seq<Line>): (k: nat)
    requires region != []
    ensures 1 <= k <= |region|
  {
    if LastName(region) < 0 then 1 else LastName(region) + 1
  }

  /** A block rewritten: old certificate lines gone, new lines once, right after the cut. */
  function EditRegion(region: seq<Line>, ins: seq<Line>): seq<Line>
    requires region != []
  {
    Keep(region[..CutAt(region)]) + ins + Keep(region[CutAt(region)..])
  }

  lemma {:induction false} KeepAppend(a: seq<Line>, b: seq<Line>)
    ensures Keep(a + b) == Keep(a) + Keep(b)
  {
    if b == [] {
      assert a + b == a;
    } else {
      assert (a + b)[..|a + b| - 1] == a + b[..|b| - 1];
      KeepAppend(a, b[..|b| - 1]);
    }
  }

  lemma {:induction false} KeepAll(ls: seq<Line>)
    requires forall k :: 0 <= k < |ls| ==> !IsCert(ls[k])
    ensures Keep(ls) == ls
  {
    if ls != [] {
      KeepAll(ls[..|ls| - 1]);
    }
  }

  lemma {:induction false} KeepOne(l: Line)
    ensures Keep([l]) == if IsCert(l) then [] else [l]
  {
    assert [l][..0] == [];
  }

  // ----- the splice of one block ----------------------------------------------------------------

  /** `lines` with the certificate lines of [c, hi) removed. */
  ghost function Cleared(lines: seq<Line>, c: nat, hi: nat): seq<Line>
    requires c <= hi <= |lines|
  {
    lines[..c] + Keep(lines[c..hi]) + lines[hi..]
  }

  lemma {:induction false} KeepFrom(lines: seq<Line>, d: nat, c: nat, hi: nat)
    requires d < c <= hi <= |lines| && IsCert(lines[d]) && forall k :: d < k < c ==> !IsCert(lines[k])
    ensures Keep(lines[d..hi]) == lines[d + 1..c] + Keep(lines[c..hi])
  {
    hide Keep, IsCert;
    assert lines[d..hi] == [lines[d]] + (lines[d + 1..c] + lines[c..hi]);
    KeepAppend([lines[d]], lines[d + 1..c] + lines[c..hi]);
    KeepAppend(lines[d + 1..c], lines[c..hi]);
    KeepOne(lines[d]);
    KeepAll(lines[d + 1..c]);
  }

  /** Removing one more line from the end side clears one stretch more. */
  lemma {:induction false} ClearStep(lines: seq<Line>, d: nat, c: nat, hi: nat)
    requires d < c <= hi <= |lines| && IsCert(lines[d]) && forall k :: d < k < c ==> !IsCert(lines[k])
    ensures
      var out := Cleared(lines, c, hi);
      d < |out| && out[..d] + out[d + 1..] == Cleared(lines, d, hi)
  {
    hide Keep, IsCert;
    KeepFrom(lines, d, c, hi);
    var out, tail := Cleared(lines, c, hi), Keep(lines[c..hi]) + lines[hi..];
    assert out == lines[..c] + tail;
    assert out[..d] == lines[..d];
    assert out[d + 1..] == lines[d + 1..c] + tail;
  }

  /** Where the anchor line `a` stands once [c, hi) is cleared. */
  ghost function Shifted(lines: seq<Line>, c: nat, a: int): int
    requires a < |lines| && c <= |lines|
  {
    if a < c then a else c + |Keep(lines[c..a])|
  }

  lemma {:induction false} ShiftStep(lines: seq<Line>, d: nat, c: nat, a: int)
    requires d < c <= |lines| && -1 <= a < |lines| && IsCert(lines[d]) && a != d
    requires forall k :: d < k < c ==> !IsCert(lines[k])
    ensures Shifted(lines, d, a) == if Shifted(lines, c, a) > d then Shifted(lines, c, a) - 1 else Shifted(lines, c, a)
  {
    hide Keep, IsCert;
    if a >= c {
      KeepFrom(lines, d, c, a);
    } else if a > d {
      KeepFrom(lines, d, a, a);
      assert lines[a..a] == [];
      KeepEmpty();
    }
  }

  lemma {:induction false} KeepEmpty()
    ensures Keep([]) == []
  {
  }

  lemma {:induction false} LastNameEmpty(lines: seq<Line>, i: nat)
    requires i <= |lines|
    ensures LastName(lines[i..i]) == -1
  {
  }

  lemma {:induction false} LastNameNext(lines: seq<Line>, i: nat, ln: nat)
    requires i <= ln < |lines|
    ensures LastName(lines[i..ln + 1]) == if Names(lines[ln]) then ln - i else LastName(lines[i..ln])
    ensures IsCert(lines[ln]) ==> !Names(lines[ln])
  {
    assert lines[i..ln + 1][..ln - i] == lines[i..ln];
  }

  /** `drop` lists the certificate lines from `lo` up to `hi`, ascending. */
  ghost predicate CertsIn(lines: seq<Line>, lo: nat, hi: nat, drop: seq<nat>)
    requires hi <= |lines|
  {
    && (forall k :: 0 <= k < |drop| ==> lo <= drop[k] < hi && IsCert(lines[drop[k]]))
    && (forall j, k :: 0 <= j < k < |drop| ==> drop[j] < drop[k])
    && (forall ln :: lo <= ln < hi && IsCert(lines[ln]) ==> ln in drop)
  }

  lemma CertsNext(lines: seq<Line>, lo: nat, ln: nat, drop: seq<nat>)
    requires lo <= ln < |lines| && CertsIn(lines, lo, ln, drop)
    ensures CertsIn(lines, lo, ln + 1, if IsCert(lines[ln]) then drop + [ln] else drop)
  {
    hide IsCert;
    if IsCert(lines[ln]) {
      var longer := drop + [ln];
      assert forall k :: 0 <= k < |longer| ==> longer[k] == (if k < |drop| then drop[k] else ln);
      forall x | lo <= x < ln + 1 && IsCert(lines[x]) ensures x in longer {
        assert x == ln || x in drop;
        assert longer[|drop|] == ln;
      }
    }
  }

  /** The certificate lines of a block, in ascending order, and its last server_name line. */
  method Mark1(lines: seq<Line>, r: Range) returns (drop: seq<nat>, anchor: int)
    requires r.first <= r.last < |lines|
    ensures CertsIn(lines, r.first, r.last + 1, drop)
    ensures
      var last := LastName(lines[r.first..r.last + 1]);
      anchor == if last < 0 then -1 else r.first + last
  {
    hide LastName, IsCert, Names, CertsIn;
    drop, anchor := [], -1;
    LastNameEmpty(lines, r.first);
    NoCertsYet(lines, r.first);
    for ln := r.first to r.last + 1
      invariant CertsIn(lines, r.first, ln, drop)
      invariant
        var last := LastName(lines[r.first..ln]);
        anchor == if last < 0 then -1 else r.first + last
    {
      LastNameNext(lines, r.first, ln);
      CertsNext(lines, r.first, ln, drop);
      if IsCert(lines[ln]) {
        drop := drop + [ln];
      } else if Names(lines[ln]) {
        anchor := ln;
      }
    }
  }

  lemma NoCertsYet(lines: seq<Line>, lo: nat)
    requires lo <= |lines|
    ensures CertsIn(lines, lo, lo, [])
  {
  }

  method ApplyBlockEdit(lines: seq<Line>, r: Range, ins: seq<Line>) returns (out: seq<Line>)
    requires r.first <= r.last < |lines| && !IsCert(lines[r.first])
    ensures out == lines[..r.first] + EditRegion(lines[r.first..r.last + 1], ins) + lines[r.last + 1..]
  {
    hide Keep, IsCert, LastName, Names;
    var drop, anchor := Mark1(lines, r);
    ghost var a, hi := anchor, r.last + 1;
    out := lines;
    ghost var c := hi;
    StartClear(lines, hi, a);
    var i := |drop|;
    while i > 0
      invariant 0 <= i <= |drop| && c == (if i < |drop| then drop[i] else hi)
      invariant out == Cleared(lines, c, hi) && anchor == Shifted(lines, c, a)
    {
      i := i - 1;
      var d := drop[i];
      assert a != d by { AnchorNotCert(lines, r); }
      assert forall k :: d < k < c ==> !IsCert(lines[k]);
      ClearStep(lines, d, c, hi);
      ShiftStep(lines, d, c, a);
      out := out[..d] + out[d + 1..];
      if anchor > d {
        anchor := anchor - 1;
      }
      c := d;
    }
    if anchor < 0 {
      anchor := r.first;
    }
    if anchor > |out| - 1 {
      anchor := |out| - 1;
    }
    assert forall k :: r.first <= k < c ==> !IsCert(lines[k]);
    FinalSplice(lines, r, c, a, ins);
    out := out[..anchor + 1] + ins + out[anchor + 1..];
  }

  lemma {:induction false} StartClear(lines: seq<Line>, hi: nat, a: int)
    requires hi <= |lines| && a < hi
    ensures Cleared(lines, hi, hi) == lines && Shifted(lines, hi, a) == a
  {
    assert lines[hi..hi] == [];
    assert lines[..hi] + [] + lines[hi..] == lines;
  }

  lemma {:induction false} AnchorNotCert(lines: seq<Line>, r: Range)
    requires r.first <= r.last < |lines|
    ensures
      var last := LastName(lines[r.first..r.last + 1]);
      last >= 0 ==> !IsCert(lines[r.first + last])
  {
  }

  /** With every certificate line cleared, splicing after the anchor rewrites exactly the block. */
  lemma {:induction false} FinalSplice(lines: seq<Line>, r: Range, c: nat, a: int, ins: seq<Line>)
    requires r.first <= r.last < |lines| && !IsCert(lines[r.first]) && r.first < c <= r.last + 1
    requires forall k :: r.first <= k < c ==> !IsCert(lines[k])
    requires
      var last := LastName(lines[r.first..r.last + 1]);
      a == if last < 0 then -1 else r.first + last
    ensures
      var out := Cleared(lines, c, r.last + 1);
      var s := Shifted(lines, c, a);
      var anchor := if s < 0 then r.first else s;
      && 0 <= anchor < |out|
      && out[..anchor + 1] + ins + out[anchor + 1..]
         == lines[..r.first] + EditRegion(lines[r.first..r.last + 1], ins) + lines[r.last + 1..]
  {
    hide Keep, IsCert, LastName, Names;
    var hi, region := r.last + 1, lines[r.first..r.last + 1];
    var out := Cleared(lines, c, hi);
    var cut := CutAt(region);
    var left, right := Keep(region[..cut]), Keep(region[cut..]);
    ClearedBlock(lines, r, c, cut);
    var s := Shifted(lines, c, a);
    var anchor := if s < 0 then r.first else s;
    AnchorPlace(lines, r, c, a);
    assert anchor + 1 == r.first + |left|;
    InsertAfter(lines[..r.first], left, right, lines[hi..], ins);
  }

  lemma InsertAfter(a: seq<Line>, left: seq<Line>, right: seq<Line>, b: seq<Line>, ins: seq<Line>)
    ensures
      var out, n := a + left + (right + b), |a| + |left|;
      out[..n] + ins + out[n..] == a + (left + ins + right) + b
  {
    var out, n := a + left + (right + b), |a| + |left|;
    assert out[..n] == a + left && out[n..] == right + b;
  }

  lemma {:induction false} ClearedBlock(lines: seq<Line>, r: Range, c: nat, cut: nat)
    requires r.first <= r.last < |lines| && r.first < c <= r.last + 1 && cut <= r.last + 1 - r.first
    requires forall k :: r.first <= k < c ==> !IsCert(lines[k])
    ensures
      var region := lines[r.first..r.last + 1];
      Cleared(lines, c, r.last + 1) == lines[..r.first] + Keep(region[..cut]) + (Keep(region[cut..]) + lines[r.last + 1..])
  {
    hide Keep, IsCert;
    var hi, region := r.last + 1, lines[r.first..r.last + 1];
    var head, tail := lines[r.first..c], lines[c..hi];
    assert region == head + tail;
    KeepAppend(head, tail);
    KeepAll(head);
    KeepAppend(region[..cut], region[cut..]);
    assert region == region[..cut] + region[cut..];
    var k := Keep(region);
    assert k == head + Keep(tail);
    assert lines[..c] == lines[..r.first] + head;
    assert Cleared(lines, c, hi) == lines[..r.first] + k + lines[hi..];
  }

  lemma {:induction false} AnchorPlace(lines: seq<Line>, r: Range, c: nat, a: int)
    requires r.first <= r.last < |lines| && !IsCert(lines[r.first]) && r.first < c <= r.last + 1
    requires forall k :: r.first <= k < c ==> !IsCert(lines[k])
    requires
      var last := LastName(lines[r.first..r.last + 1]);
      a == if last < 0 then -1 else r.first + last
    ensures
      var region := lines[r.first..r.last + 1];
      var s := Shifted(lines, c, a);
      (if s < 0 then r.first else s) + 1 == r.first + |Keep(region[..CutAt(region)])|
  {
    hide Keep, IsCert, Names, LastName;
    var region := lines[r.first..r.last + 1];
    if a < 0 {
      assert region[..1] == [lines[r.first]];
      KeepOne(lines[r.first]);
    } else {
      AnchorNotCert(lines, r);
      assert region[..CutAt(region)] == lines[r.first..a] + [lines[a]];
      KeepAppend(lines[r.first..a], [lines[a]]);
      KeepOne(lines[a]);
      if a < c {
        KeepAll(lines[r.first..a]);
      } else {
        assert lines[r.first..a] == lines[r.first..c] + lines[c..a];
        KeepAppend(lines[r.first..c], lines[c..a]);
        KeepAll(lines[r.first..c]);
      }
    }
  }
}
