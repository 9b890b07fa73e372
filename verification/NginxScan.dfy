/** Finding server blocks by brace depth. */
module NginxScan {
  import opened NginxLines

  /** A block: the first and last line of it, inclusive. */
  datatype Range = Range(first: nat, last: nat)

  /** Follows the depth from line `j` (already counted) until it leaves the positive or the file ends. */
  function Walk(ls: seq<Line>, j: nat, depth: int): (r: (nat, int))
    requires j < |ls|
    ensures j <= r.0 < |ls|
    decreases |ls| - j
  {
    if depth > 0 && j + 1 < |ls| then Walk(ls, j + 1, depth + ls[j + 1].net) else (j, depth)
  }

  /** The blocks found from line `i` on; an opening line whose braces do not balance is passed over. */
  function ScanFrom(ls: seq<Line>, i: nat): seq<Range>
    requires i <= |ls|
    decreases |ls| - i
  {
    if i == |ls| then []
    else if !ls[i].opens then ScanFrom(ls, i + 1)
    else
      var (j, depth) := Walk(ls, i, ls[i].net);
      if depth != 0 then ScanFrom(ls, i + 1) else [Range(i, j)] + ScanFrom(ls, j + 1)
  }

  function Scan(ls: seq<Line>): seq<Range> { ScanFrom(ls, 0) }

  method ScanFile(ls: seq<Line>) returns (blocks: seq<Range>)
    ensures blocks == Scan(ls)
  {
    blocks := [];
    var i := 0;
    while i < |ls|
      invariant 0 <= i <= |ls| && Scan(ls) == blocks + ScanFrom(ls, i)
    {
      if !ls[i].opens {
        i := i + 1;
        continue;
      }
      var depth, j := ls[i].net, i;
      while depth > 0 && j + 1 < |ls|
        invariant i <= j < |ls| && Walk(ls, i, ls[i].net) == Walk(ls, j, depth)
        decreases |ls| - j
      {
        j := j + 1;
        depth := depth + ls[j].net;
      }
      if depth != 0 {
        i := i + 1;
        continue;
      }
      assert ScanFrom(ls, i) == [Range(i, j)] + ScanFrom(ls, j + 1);
      blocks := blocks + [Range(i, j)];
      i := j + 1;
    }
  }

  // ----- the shape of a scan --------------------------------------------------------------------

  /** Ranges in order, disjoint, inside [lo, hi). */
  ghost predicate Ordered(rs: seq<Range>, lo: nat, hi: nat) {
    if rs == [] then lo <= hi
    else lo <= rs[0].first <= rs[0].last < hi && Ordered(rs[1..], rs[0].last + 1, hi)
  }

  lemma {:induction false} OrderedWeaken(rs: seq<Range>, lo: nat, lo': nat, hi: nat)
    requires Ordered(rs, lo, hi) && lo' <= lo
    ensures Ordered(rs, lo', hi)
  {
  }

  /** Every block opens a server section, and its last line is that line or lowers the depth. */
  ghost predicate Blocks(ls: seq<Line>, rs: seq<Range>) {
    forall k :: 0 <= k < |rs| ==>
      rs[k].first <= rs[k].last < |ls| && ls[rs[k].first].opens && (rs[k].last == rs[k].first || ls[rs[k].last].net < 0)
  }

  lemma {:induction false} WalkEnds(ls: seq<Line>, j: nat, depth: int)
    requires j < |ls|
    ensures
      var (e, d) := Walk(ls, j, depth);
      d <= 0 && e > j ==> ls[e].net < 0
    decreases |ls| - j
  {
    if depth > 0 && j + 1 < |ls| {
      WalkEnds(ls, j + 1, depth + ls[j + 1].net);
    }
  }

  lemma {:induction false} ScanShape(ls: seq<Line>, i: nat)
    requires i <= |ls|
    ensures Ordered(ScanFrom(ls, i), i, |ls|) && Blocks(ls, ScanFrom(ls, i))
    decreases |ls| - i
  {
    if i < |ls| {
      var (j, depth) := Walk(ls, i, ls[i].net);
      WalkEnds(ls, i, ls[i].net);
      if ls[i].opens && depth == 0 {
        ScanShape(ls, j + 1);
        assert ([Range(i, j)] + ScanFrom(ls, j + 1))[1..] == ScanFrom(ls, j + 1);
      } else {
        ScanShape(ls, i + 1);
        OrderedWeaken(ScanFrom(ls, i + 1), i + 1, i, |ls|);
      }
    }
  }

  /** The brace depth at the end of line `j`, counted from line `i`. */
  function Depth(ls: seq<Line>, i: nat, j: nat): int
    requires i <= j < |ls|
  {
    if i == j then ls[i].net else Depth(ls, i, j - 1) + ls[j].net
  }

  /** Counted from line `i`, the depth first leaves the positive at line `j`, and is zero there. */
  ghost predicate Closes(ls: seq<Line>, i: nat, j: nat) {
    i <= j < |ls| && Depth(ls, i, j) == 0 && forall k :: i <= k < j ==> Depth(ls, i, k) > 0
  }

  lemma {:induction false} WalkDepth(ls: seq<Line>, i: nat, j: nat)
    requires i <= j < |ls| && forall k :: i <= k < j ==> Depth(ls, i, k) > 0
    ensures
      var w := Walk(ls, j, Depth(ls, i, j));
      && w.1 == Depth(ls, i, w.0) && (forall k :: i <= k < w.0 ==> Depth(ls, i, k) > 0)
      && (w.1 > 0 ==> w.0 == |ls| - 1)
    decreases |ls| - j
  {
    if Depth(ls, i, j) > 0 && j + 1 < |ls| {
      WalkDepth(ls, i, j + 1);
    }
  }

  /** The walk from a line balances exactly when the depth counted from there closes somewhere, and ends there. */
  lemma {:induction false} WalkCloses(ls: seq<Line>, i: nat)
    requires i < |ls|
    ensures
      var w := Walk(ls, i, ls[i].net);
      && (w.1 == 0 ==> Closes(ls, i, w.0))
      && (forall j :: Closes(ls, i, j) ==> w.1 == 0 && j == w.0)
  {
    hide Walk;
    WalkDepth(ls, i, i);
    var w := Walk(ls, i, ls[i].net);
    assert Depth(ls, i, i) == ls[i].net;
  }

  ghost predicate AllClose(ls: seq<Line>, rs: seq<Range>) {
    forall k :: 0 <= k < |rs| ==> Closes(ls, rs[k].first, rs[k].last)
  }

  ghost predicate InBlock(rs: seq<Range>, x: nat) { exists k :: 0 <= k < |rs| && rs[k].first <= x <= rs[k].last }

  lemma FirstBlock(r: Range, rest: seq<Range>)
    ensures forall x: nat :: !InBlock([r] + rest, x) ==> !(r.first <= x <= r.last) && !InBlock(rest, x)
  {
    var rs := [r] + rest;
    forall x: nat | !InBlock(rs, x) ensures !(r.first <= x <= r.last) && !InBlock(rest, x) {
      assert rs[0] == r;
      assert forall k :: 0 <= k < |rest| ==> rs[k + 1] == rest[k];
    }
  }

  /** Found blocks are exactly closed, and a server line outside all of them closes nowhere. */
  lemma {:induction false} ScanExact(ls: seq<Line>, i: nat)
    requires i <= |ls|
    ensures AllClose(ls, ScanFrom(ls, i))
    ensures forall x, j :: i <= x < |ls| && ls[x].opens && !InBlock(ScanFrom(ls, i), x) ==> !Closes(ls, x, j)
    decreases |ls| - i
  {
    hide Walk, ScanFrom, Closes, InBlock;
    if i == |ls| {
      ScanAtEnd(ls);
    } else {
      WalkCloses(ls, i);
      ScanUnfolds(ls, i);
      var w, rs := Walk(ls, i, ls[i].net), ScanFrom(ls, i);
      if ls[i].opens && w.1 == 0 {
        ScanExact(ls, w.0 + 1);
        FirstBlock(Range(i, w.0), ScanFrom(ls, w.0 + 1));
      } else {
        ScanExact(ls, i + 1);
      }
    }
  }

  // ----- steps of a scan ------------------------------------------------------------------------

  ghost predicate NeutralAll(ls: seq<Line>) { forall k :: 0 <= k < |ls| ==> Neutral(ls[k]) }

  ghost predicate Inside(rs: seq<Range>, n: nat) {
    forall k :: 0 <= k < |rs| ==> rs[k].first <= rs[k].last < n
  }

  /** One step of the scan. */
  lemma {:induction false} ScanUnfolds(ls: seq<Line>, i: nat)
    requires i < |ls|
    ensures
      var w := Walk(ls, i, ls[i].net);
      ScanFrom(ls, i) == if ls[i].opens && w.1 == 0 then [Range(i, w.0)] + ScanFrom(ls, w.0 + 1) else ScanFrom(ls, i + 1)
  {
  }

  lemma {:induction false} NeutralRun(n: seq<Line>, a: nat, b: nat)
    requires a <= b <= |n| && forall k :: a <= k < b ==> Neutral(n[k])
    ensures ScanFrom(n, a) == ScanFrom(n, b)
    decreases b - a
  {
    if a < b {
      ScanUnfolds(n, a);
      NeutralRun(n, a + 1, b);
    }
  }

  lemma {:induction false} ScanAtEnd(ls: seq<Line>)
    ensures ScanFrom(ls, |ls|) == []
  {
  }
}
