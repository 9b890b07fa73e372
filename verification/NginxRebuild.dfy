/**
  What a later scan sees after every block of a file has been replaced: if each replacement is
  itself a closed block, followed at most by neutral lines, the scan finds exactly the
  replacements, each at its new place; none is added or lost, and nothing that was no block
  becomes one.
 */
module NginxRebuild {
  import opened NginxLines
  import opened NginxScan

  // ----- depth over a stretch of lines ----------------------------------------------------------

  /** The depth where a walk that stands at `d` before these lines comes to rest. */
  function EndFrom(ls: seq<Line>, d: int): int {
    if d <= 0 || ls == [] then d else EndFrom(ls[1..], d + ls[0].net)
  }

  lemma {:induction false} WalkEnd(ls: seq<Line>, j: nat, d: int)
    requires j < |ls|
    ensures Walk(ls, j, d).1 == EndFrom(ls[j + 1..], d)
    decreases |ls| - j
  {
    if d > 0 && j + 1 < |ls| {
      WalkEnd(ls, j + 1, d + ls[j + 1].net);
      assert ls[j + 1..][1..] == ls[j + 2..];
    }
  }

  /** A block: it opens, and the depth first leaves the positive, to zero, at its last line. */
  ghost predicate Closed(b: seq<Line>) { b != [] && b[0].opens && Closes(b, 0, |b| - 1) }

  lemma {:induction false} DepthShift(ls: seq<Line>, i: nat, b: seq<Line>, k: nat)
    requires k < |b| && i + |b| <= |ls| && ls[i..i + |b|] == b
    ensures Depth(ls, i, i + k) == Depth(b, 0, k)
  {
    assert ls[i + k] == b[k];
    if k > 0 {
      DepthShift(ls, i, b, k - 1);
    }
  }

  lemma {:induction false} ClosesShift(ls: seq<Line>, i: nat, b: seq<Line>)
    requires b != [] && i + |b| <= |ls| && ls[i..i + |b|] == b
    ensures Closes(ls, i, i + |b| - 1) <==> Closes(b, 0, |b| - 1)
  {
    forall k | 0 <= k < |b| ensures Depth(b, 0, k) == Depth(ls, i, i + k) {
      DepthShift(ls, i, b, k);
    }
    forall j | i <= j < i + |b| ensures Depth(ls, i, j) == Depth(b, 0, j - i) {
      DepthShift(ls, i, b, j - i);
    }
  }

  /** From a positive depth a walk passes over the first lines of a block ... */
  lemma {:induction false} EndInto(b: seq<Line>, x: seq<Line>, d: int, i: nat)
    requires b != [] && Closes(b, 0, |b| - 1) && d > 0 && 0 < i <= |b|
    ensures EndFrom(b + x, d) == EndFrom((b + x)[i..], d + Depth(b, 0, i - 1))
  {
    if i > 1 {
      EndInto(b, x, d, i - 1);
      assert (b + x)[i - 1..][1..] == (b + x)[i..] && (b + x)[i - 1..][0] == b[i - 1];
      assert Depth(b, 0, i - 2) > 0;
    } else {
      assert (b + x)[0] == b[0] && Depth(b, 0, 0) == b[0].net;
    }
  }

  /** ... and over the whole of it as if it were not there. */
  lemma {:induction false} EndOver(b: seq<Line>, x: seq<Line>, d: int)
    requires b != [] && Closes(b, 0, |b| - 1) && d > 0
    ensures EndFrom(b + x, d) == EndFrom(x, d)
  {
    EndInto(b, x, d, |b|);
    assert (b + x)[|b|..] == x;
  }

  lemma {:induction false} EndNeutral(t: seq<Line>, x: seq<Line>, d: int)
    requires NeutralAll(t)
    ensures EndFrom(t + x, d) == EndFrom(x, d)
  {
    if t == [] {
      assert t + x == x;
    } else {
      assert Neutral(t[0]);
      assert (t + x)[1..] == t[1..] + x && (t + x)[0] == t[0];
      EndNeutral(t[1..], x, d);
    }
  }

  // ----- the rebuilt file -----------------------------------------------------------------------

  /** Lines `lo` on, with block `k` replaced by `cs[k]` followed by `ts[k]`. */
  ghost function Rebuilt(ls: seq<Line>, rs: seq<Range>, lo: nat, cs: seq<seq<Line>>, ts: seq<seq<Line>>): seq<Line>
    requires |rs| == |cs| == |ts| && lo <= |ls| && Ordered(rs, lo, |ls|)
  {
    if rs == [] then ls[lo..]
    else ls[lo..rs[0].first] + cs[0] + ts[0] + Rebuilt(ls, rs[1..], rs[0].last + 1, cs[1..], ts[1..])
  }

  /** Where the replacements stand if the rebuilt lines start at line `p`. */
  ghost function Places(rs: seq<Range>, lo: nat, cs: seq<seq<Line>>, ts: seq<seq<Line>>, p: int): seq<Range>
    requires |rs| == |cs| == |ts|
    requires forall k :: 0 <= k < |cs| ==> cs[k] != []
    requires rs != [] ==> p + rs[0].first - lo >= 0
    requires forall k :: 0 <= k < |rs| - 1 ==> rs[k].last < rs[k + 1].first
  {
    if rs == [] then []
    else
      var s := p + rs[0].first - lo;
      [Range(s, s + |cs[0]| - 1)] + Places(rs[1..], rs[0].last + 1, cs[1..], ts[1..], s + |cs[0]| + |ts[0]|)
  }

  /** Every replacement is a block, and what follows it is neutral. */
  ghost predicate GoodParts(cs: seq<seq<Line>>, ts: seq<seq<Line>>) {
    |cs| == |ts| && forall k :: 0 <= k < |cs| ==> Closed(cs[k]) && NeutralAll(ts[k])
  }

  lemma {:induction false} OrderedLast(rs: seq<Range>, lo: nat, hi: nat)
    requires Ordered(rs, lo, hi)
    ensures forall k :: 0 <= k < |rs| - 1 ==> rs[k].last < rs[k + 1].first
    ensures rs != [] ==> lo <= rs[0].first
  {
    if rs != [] {
      OrderedLast(rs[1..], rs[0].last + 1, hi);
      forall k | 0 <= k < |rs| - 1 ensures rs[k].last < rs[k + 1].first {
        if k > 0 {
          assert rs[1..][k - 1].last < rs[1..][k].first;
        }
      }
    }
  }

  /** A line outside the blocks stands in front of what the rest becomes. */
  lemma {:induction false} RebuiltGap(ls: seq<Line>, rs: seq<Range>, lo: nat, cs: seq<seq<Line>>, ts: seq<seq<Line>>)
    requires |rs| == |cs| == |ts| && lo < |ls| && Ordered(rs, lo + 1, |ls|)
    ensures Ordered(rs, lo, |ls|)
    ensures Rebuilt(ls, rs, lo, cs, ts) == [ls[lo]] + Rebuilt(ls, rs, lo + 1, cs, ts)
  {
    if rs != [] {
      assert ls[lo..rs[0].first] == [ls[lo]] + ls[lo + 1..rs[0].first];
    }
  }

  /** What a positive walk makes of the rest of the file is not changed by the replacements. */
  lemma {:induction false} EndRebuilt(ls: seq<Line>, lo: nat, cs: seq<seq<Line>>, ts: seq<seq<Line>>, d: int)
    requires lo <= |ls| && |ScanFrom(ls, lo)| == |cs| == |ts| && GoodParts(cs, ts) && Ordered(ScanFrom(ls, lo), lo, |ls|)
    ensures EndFrom(Rebuilt(ls, ScanFrom(ls, lo), lo, cs, ts), d) == EndFrom(ls[lo..], d)
    decreases |ls| - lo
  {
    hide ScanFrom, Walk, Closes, NeutralAll, Rebuilt, EndFrom, Ordered, GoodParts, Blocks;
    if d <= 0 {
      EndLow(Rebuilt(ls, ScanFrom(ls, lo), lo, cs, ts), d);
      EndLow(ls[lo..], d);
    } else if lo == |ls| {
      ScanAtEnd(ls);
      RebuiltNone(ls, lo);
    } else {
      ScanUnfolds(ls, lo);
      WalkCloses(ls, lo);
      var w := Walk(ls, lo, ls[lo].net);
      if ls[lo].opens && w.1 == 0 {
        EndBlock(ls, lo, w.0, cs, ts, d);
        EndRebuilt(ls, w.0 + 1, cs[1..], ts[1..], d);
      } else {
        ScanShape(ls, lo + 1);
        EndRebuilt(ls, lo + 1, cs, ts, d + ls[lo].net);
        EndGap(ls, ScanFrom(ls, lo + 1), lo, cs, ts, d);
      }
    }
  }

  lemma {:induction false} EndGap(ls: seq<Line>, rs: seq<Range>, lo: nat, cs: seq<seq<Line>>, ts: seq<seq<Line>>, d: int)
    requires |rs| == |cs| == |ts| && lo < |ls| && Ordered(rs, lo + 1, |ls|) && d > 0
    ensures Ordered(rs, lo, |ls|)
    ensures EndFrom(Rebuilt(ls, rs, lo, cs, ts), d) == EndFrom(Rebuilt(ls, rs, lo + 1, cs, ts), d + ls[lo].net)
    ensures EndFrom(ls[lo..], d) == EndFrom(ls[lo + 1..], d + ls[lo].net)
  {
    hide Rebuilt, EndFrom, Ordered;
    RebuiltGap(ls, rs, lo, cs, ts);
    EndFirst(ls[lo], Rebuilt(ls, rs, lo + 1, cs, ts), d);
    EndFirst(ls[lo], ls[lo + 1..], d);
    assert ls[lo..] == [ls[lo]] + ls[lo + 1..];
  }

  lemma EndLow(ls: seq<Line>, d: int)
    requires d <= 0
    ensures EndFrom(ls, d) == d
  {
  }

  lemma EndFirst(l: Line, x: seq<Line>, d: int)
    requires d > 0
    ensures EndFrom([l] + x, d) == EndFrom(x, d + l.net)
  {
    assert ([l] + x)[1..] == x;
  }

  lemma RebuiltNone(ls: seq<Line>, lo: nat)
    requires lo <= |ls|
    ensures Rebuilt(ls, [], lo, [], []) == ls[lo..]
  {
  }

  /** The walk passes over a block and over its replacement alike. */
  lemma {:induction false} EndBlock(ls: seq<Line>, lo: nat, last: nat, cs: seq<seq<Line>>, ts: seq<seq<Line>>, d: int)
    requires lo <= last < |ls| && Closes(ls, lo, last) && d > 0 && ScanFrom(ls, lo) == [Range(lo, last)] + ScanFrom(ls, last + 1)
    requires |ScanFrom(ls, lo)| == |cs| && GoodParts(cs, ts) && Ordered(ScanFrom(ls, lo), lo, |ls|)
    ensures Ordered(ScanFrom(ls, last + 1), last + 1, |ls|) && |ScanFrom(ls, last + 1)| == |cs[1..]| && GoodParts(cs[1..], ts[1..])
    ensures EndFrom(Rebuilt(ls, ScanFrom(ls, lo), lo, cs, ts), d) ==
            EndFrom(Rebuilt(ls, ScanFrom(ls, last + 1), last + 1, cs[1..], ts[1..]), d)
    ensures EndFrom(ls[lo..], d) == EndFrom(ls[last + 1..], d)
  {
    hide ScanFrom, Closes, NeutralAll, Rebuilt, EndFrom;
    HeadBlock(ls, lo, last, cs, ts);
    var rest := Rebuilt(ls, ScanFrom(ls, last + 1), last + 1, cs[1..], ts[1..]);
    assert cs[0] + ts[0] + rest == cs[0] + (ts[0] + rest);
    EndOver(cs[0], ts[0] + rest, d);
    EndNeutral(ts[0], rest, d);
    var b := ls[lo..last + 1];
    ClosesShift(ls, lo, b);
    EndOver(b, ls[last + 1..], d);
    assert ls[lo..] == b + ls[last + 1..];
  }

  lemma {:induction false} HeadBlock(ls: seq<Line>, lo: nat, last: nat, cs: seq<seq<Line>>, ts: seq<seq<Line>>)
    requires lo <= last < |ls| && ScanFrom(ls, lo) == [Range(lo, last)] + ScanFrom(ls, last + 1)
    requires |ScanFrom(ls, lo)| == |cs| && GoodParts(cs, ts) && Ordered(ScanFrom(ls, lo), lo, |ls|)
    ensures Ordered(ScanFrom(ls, last + 1), last + 1, |ls|) && |ScanFrom(ls, last + 1)| == |cs[1..]| && GoodParts(cs[1..], ts[1..])
    ensures Closed(cs[0]) && NeutralAll(ts[0])
    ensures Rebuilt(ls, ScanFrom(ls, lo), lo, cs, ts) ==
            cs[0] + ts[0] + Rebuilt(ls, ScanFrom(ls, last + 1), last + 1, cs[1..], ts[1..])
  {
    hide ScanFrom, Closed, NeutralAll;
    var rs := ScanFrom(ls, lo);
    assert rs[1..] == ScanFrom(ls, last + 1) && rs[0] == Range(lo, last);
    assert ls[lo..lo] == [];
    assert [] + cs[0] + ts[0] == cs[0] + ts[0];
  }

  // ----- scanning the rebuilt file --------------------------------------------------------------

  /** A closed block at line `p` is found. */
  lemma {:induction false} ScanBlock(n: seq<Line>, p: nat, b: seq<Line>)
    requires Closed(b) && p + |b| <= |n| && n[p..p + |b|] == b
    ensures ScanFrom(n, p) == [Range(p, p + |b| - 1)] + ScanFrom(n, p + |b|)
  {
    hide ScanFrom, Walk, Closes;
    assert n[p] == b[0];
    ClosesShift(n, p, b);
    WalkCloses(n, p);
    ScanUnfolds(n, p);
  }

  /** A line that opens nothing closed is passed over. */
  lemma {:induction false} ScanGap(n: seq<Line>, p: nat)
    requires p < |n| && (n[p].opens ==> EndFrom(n[p + 1..], n[p].net) != 0)
    ensures ScanFrom(n, p) == ScanFrom(n, p + 1)
  {
    hide ScanFrom, Walk, EndFrom;
    WalkEnd(n, p, n[p].net);
    ScanUnfolds(n, p);
  }

  /** The scan of a rebuilt file finds exactly the replacements, each at its place. */
  lemma {:induction false} ScanRebuilt(ls: seq<Line>, lo: nat, cs: seq<seq<Line>>, ts: seq<seq<Line>>, n: seq<Line>, p: nat)
    requires lo <= |ls| && |ScanFrom(ls, lo)| == |cs| == |ts| && GoodParts(cs, ts) && Ordered(ScanFrom(ls, lo), lo, |ls|)
    requires p <= |n| && n[p..] == Rebuilt(ls, ScanFrom(ls, lo), lo, cs, ts)
    ensures PlacesOk(ScanFrom(ls, lo), cs, ts, lo, p)
    ensures ScanFrom(n, p) == Places(ScanFrom(ls, lo), lo, cs, ts, p)
    decreases |ls| - lo
  {
    hide ScanFrom, Walk, Closed, NeutralAll, Rebuilt, EndFrom, Places, PlacesOk, Ordered, GoodParts, Blocks;
    PlacesFine(ScanFrom(ls, lo), lo, |ls|, cs, ts, p);
    if lo == |ls| {
      ScanAtEnd(ls);
      RebuiltNone(ls, lo);
      assert |n| == p by { assert |n[p..]| == 0; }
      ScanAtEnd(n);
      NoPlaces(lo, p);
    } else {
      ScanUnfolds(ls, lo);
      var w := Walk(ls, lo, ls[lo].net);
      if ls[lo].opens && w.1 == 0 {
        var m := ScanHead(ls, lo, w.0, cs, ts, n, p);
        ScanRebuilt(ls, w.0 + 1, cs[1..], ts[1..], n, m);
        PlacesFirst(ls, lo, w.0, cs, ts, p);
      } else {
        ScanShape(ls, lo + 1);
        WalkEnd(ls, lo, ls[lo].net);
        ScanOutside(ls, lo, cs, ts, n, p);
        ScanRebuilt(ls, lo + 1, cs, ts, n, p + 1);
        PlacesShift(ScanFrom(ls, lo + 1), lo, cs, ts, p);
      }
    }
  }

  /** A replaced block is found, and the scan goes on behind it and its neutral lines. */
  lemma {:induction false} ScanHead(ls: seq<Line>, lo: nat, last: nat, cs: seq<seq<Line>>, ts: seq<seq<Line>>, n: seq<Line>, p: nat) returns (m: nat)
    requires lo <= last < |ls| && ScanFrom(ls, lo) == [Range(lo, last)] + ScanFrom(ls, last + 1)
    requires |ScanFrom(ls, lo)| == |cs| == |ts| && GoodParts(cs, ts) && Ordered(ScanFrom(ls, lo), lo, |ls|)
    requires p <= |n| && n[p..] == Rebuilt(ls, ScanFrom(ls, lo), lo, cs, ts)
    ensures Ordered(ScanFrom(ls, last + 1), last + 1, |ls|) && |ScanFrom(ls, last + 1)| == |cs[1..]| && GoodParts(cs[1..], ts[1..])
    ensures m == p + |cs[0]| + |ts[0]| <= |n| && n[m..] == Rebuilt(ls, ScanFrom(ls, last + 1), last + 1, cs[1..], ts[1..])
    ensures ScanFrom(n, p) == [Range(p, p + |cs[0]| - 1)] + ScanFrom(n, m) && cs[0] != []
  {
    hide ScanFrom, Closes, NeutralAll, Rebuilt, Ordered, GoodParts;
    HeadBlock(ls, lo, last, cs, ts);
    m := p + |cs[0]| + |ts[0]|;
    Pieces(n, p, cs[0], ts[0], Rebuilt(ls, ScanFrom(ls, last + 1), last + 1, cs[1..], ts[1..]));
    ScanBlock(n, p, cs[0]);
    NeutralPart(n, p + |cs[0]|, ts[0]);
  }

  /** A line outside the blocks is passed over in the rebuilt file too. */
  lemma {:induction false} ScanOutside(ls: seq<Line>, lo: nat, cs: seq<seq<Line>>, ts: seq<seq<Line>>, n: seq<Line>, p: nat)
    requires lo < |ls| && ScanFrom(ls, lo) == ScanFrom(ls, lo + 1) && Ordered(ScanFrom(ls, lo + 1), lo + 1, |ls|)
    requires ls[lo].opens ==> EndFrom(ls[lo + 1..], ls[lo].net) != 0
    requires |ScanFrom(ls, lo)| == |cs| == |ts| && GoodParts(cs, ts) && Ordered(ScanFrom(ls, lo), lo, |ls|)
    requires p <= |n| && n[p..] == Rebuilt(ls, ScanFrom(ls, lo), lo, cs, ts)
    ensures p < |n| && n[p + 1..] == Rebuilt(ls, ScanFrom(ls, lo + 1), lo + 1, cs, ts)
    ensures ScanFrom(n, p) == ScanFrom(n, p + 1)
  {
    hide ScanFrom, Rebuilt, EndFrom, Ordered, GoodParts;
    var rs := ScanFrom(ls, lo + 1);
    RebuiltGap(ls, rs, lo, cs, ts);
    var rest := Rebuilt(ls, rs, lo + 1, cs, ts);
    assert n[p..] == [ls[lo]] + rest;
    assert n[p] == n[p..][0] && n[p + 1..] == n[p..][1..] == rest;
    EndRebuilt(ls, lo + 1, cs, ts, ls[lo].net);
    ScanGap(n, p);
  }

  ghost predicate PlacesOk(rs: seq<Range>, cs: seq<seq<Line>>, ts: seq<seq<Line>>, lo: nat, p: int) {
    && |rs| == |cs| == |ts| && (forall k :: 0 <= k < |cs| ==> cs[k] != []) && (rs != [] ==> p + rs[0].first - lo >= 0)
    && forall k :: 0 <= k < |rs| - 1 ==> rs[k].last < rs[k + 1].first
  }

  lemma PlacesFine(rs: seq<Range>, lo: nat, hi: nat, cs: seq<seq<Line>>, ts: seq<seq<Line>>, p: nat)
    requires Ordered(rs, lo, hi) && |rs| == |cs| && GoodParts(cs, ts)
    ensures PlacesOk(rs, cs, ts, lo, p)
  {
    hide Ordered, Closes;
    OrderedLast(rs, lo, hi);
  }

  lemma NoPlaces(lo: nat, p: nat)
    ensures Places([], lo, [], [], p) == []
  {
  }

  lemma PlacesFirst(ls: seq<Line>, lo: nat, last: nat, cs: seq<seq<Line>>, ts: seq<seq<Line>>, p: nat)
    requires lo <= last < |ls| && ScanFrom(ls, lo) == [Range(lo, last)] + ScanFrom(ls, last + 1)
    requires PlacesOk(ScanFrom(ls, lo), cs, ts, lo, p)
    requires PlacesOk(ScanFrom(ls, last + 1), cs[1..], ts[1..], last + 1, p + |cs[0]| + |ts[0]|)
    ensures Places(ScanFrom(ls, lo), lo, cs, ts, p) ==
            [Range(p, p + |cs[0]| - 1)] + Places(ScanFrom(ls, last + 1), last + 1, cs[1..], ts[1..], p + |cs[0]| + |ts[0]|)
  {
    hide ScanFrom;
    assert ScanFrom(ls, lo)[1..] == ScanFrom(ls, last + 1);
  }

  lemma PlacesShift(rs: seq<Range>, lo: nat, cs: seq<seq<Line>>, ts: seq<seq<Line>>, p: nat)
    requires PlacesOk(rs, cs, ts, lo, p) && PlacesOk(rs, cs, ts, lo + 1, p + 1)
    ensures Places(rs, lo, cs, ts, p) == Places(rs, lo + 1, cs, ts, p + 1)
  {
  }

  lemma Pieces(n: seq<Line>, p: nat, a: seq<Line>, b: seq<Line>, c: seq<Line>)
    requires p <= |n| && n[p..] == a + b + c
    ensures p + |a| + |b| <= |n|
    ensures n[p..p + |a|] == a && n[p + |a|..p + |a| + |b|] == b && n[p + |a| + |b|..] == c
  {
    assert |n[p..]| == |a| + |b| + |c|;
    assert n[p..p + |a|] == n[p..][..|a|];
    assert n[p + |a|..p + |a| + |b|] == n[p..][|a|..|a| + |b|];
    assert n[p + |a| + |b|..] == n[p..][|a| + |b|..];
  }

  lemma NeutralPart(n: seq<Line>, q: nat, t: seq<Line>)
    requires q + |t| <= |n| && n[q..q + |t|] == t && NeutralAll(t)
    ensures ScanFrom(n, q) == ScanFrom(n, q + |t|)
  {
    hide ScanFrom, Neutral;
    forall k | q <= k < q + |t| ensures Neutral(n[k]) {
      assert n[k] == t[k - q];
    }
    NeutralRun(n, q, q + |t|);
  }

  /** So block `k` of the rebuilt file is replacement `k`, line for line. */
  lemma {:induction false} PlacesHold(ls: seq<Line>, rs: seq<Range>, lo: nat, cs: seq<seq<Line>>, ts: seq<seq<Line>>, n: seq<Line>, p: nat, k: nat)
    requires lo <= |ls| && Ordered(rs, lo, |ls|) && PlacesOk(rs, cs, ts, lo, p) && k < |rs|
    requires p <= |n| && n[p..] == Rebuilt(ls, rs, lo, cs, ts)
    ensures
      var places := Places(rs, lo, cs, ts, p);
      && |places| == |rs| && places[k].first <= places[k].last < |n|
      && n[places[k].first..places[k].last + 1] == cs[k]
    decreases k
  {
    hide Rebuilt, Places, Ordered;
    OrderedHead(rs, lo, |ls|);
    PlacesHead(rs, lo, cs, ts, p);
    var gap := ls[lo..rs[0].first];
    var rest := Rebuilt(ls, rs[1..], rs[0].last + 1, cs[1..], ts[1..]);
    RebuiltHead(ls, rs, lo, cs, ts);
    assert n[p..] == gap + cs[0] + (ts[0] + rest);
    Pieces(n, p, gap, cs[0], ts[0] + rest);
    var m := p + |gap| + |cs[0]|;
    Pieces(n, m, ts[0], rest, []);
    PlacesCount(rs, lo, cs, ts, p);
    if k > 0 {
      PlacesHold(ls, rs[1..], rs[0].last + 1, cs[1..], ts[1..], n, m + |ts[0]|, k - 1);
    }
  }

  lemma OrderedHead(rs: seq<Range>, lo: nat, hi: nat)
    requires Ordered(rs, lo, hi) && rs != []
    ensures lo <= rs[0].first <= rs[0].last < hi && Ordered(rs[1..], rs[0].last + 1, hi)
  {
  }

  lemma PlacesHead(rs: seq<Range>, lo: nat, cs: seq<seq<Line>>, ts: seq<seq<Line>>, p: int)
    requires PlacesOk(rs, cs, ts, lo, p) && rs != []
    ensures
      var s := p + rs[0].first - lo;
      && PlacesOk(rs[1..], cs[1..], ts[1..], rs[0].last + 1, s + |cs[0]| + |ts[0]|)
      && Places(rs, lo, cs, ts, p) ==
         [Range(s, s + |cs[0]| - 1)] + Places(rs[1..], rs[0].last + 1, cs[1..], ts[1..], s + |cs[0]| + |ts[0]|)
  {
  }

  lemma RebuiltHead(ls: seq<Line>, rs: seq<Range>, lo: nat, cs: seq<seq<Line>>, ts: seq<seq<Line>>)
    requires |rs| == |cs| == |ts| && lo <= |ls| && Ordered(rs, lo, |ls|) && rs != []
    ensures Rebuilt(ls, rs, lo, cs, ts) ==
            ls[lo..rs[0].first] + cs[0] + ts[0] + Rebuilt(ls, rs[1..], rs[0].last + 1, cs[1..], ts[1..])
  {
  }

  lemma {:induction false} PlacesCount(rs: seq<Range>, lo: nat, cs: seq<seq<Line>>, ts: seq<seq<Line>>, p: int)
    requires PlacesOk(rs, cs, ts, lo, p)
    ensures |Places(rs, lo, cs, ts, p)| == |rs|
  {
    if rs != [] {
      PlacesCount(rs[1..], rs[0].last + 1, cs[1..], ts[1..], p + rs[0].first - lo + |cs[0]| + |ts[0]|);
    }
  }
}
