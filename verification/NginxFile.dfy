/**
  One configuration file: which blocks an install edits, the bottom-up application of the
  edits, and what the next scan of the result sees.
 */
module NginxFile {
  import opened Text
  import opened NginxLines
  import opened NginxScan
  import opened NginxEdit
  import opened NginxSplice

  datatype BlockEdit = BlockEdit(range: Range, ins: seq<Line>)

  /** Edits in file order, disjoint, from line `lo` on; no block starts with a certificate line. */
  ghost predicate EditsOrdered(ls: seq<Line>, es: seq<BlockEdit>, lo: nat) {
    if es == [] then lo <= |ls|
    else
      var r := es[0].range;
      lo <= r.first <= r.last < |ls| && !IsCert(ls[r.first]) && EditsOrdered(ls, es[1..], r.last + 1)
  }

  /** The file from line `from` on, with every edited block rewritten on its own. */
  ghost function Rewrite(ls: seq<Line>, from: nat, es: seq<BlockEdit>): seq<Line>
    requires EditsOrdered(ls, es, from)
    decreases |es|
  {
    if es == [] then ls[from..]
    else
      var r := es[0].range;
      ls[from..r.first] + EditRegion(ls[r.first..r.last + 1], es[0].ins) + Rewrite(ls, r.last + 1, es[1..])
  }

  lemma {:induction false} EditsOrderedFrom(ls: seq<Line>, es: seq<BlockEdit>, lo: nat, lo': nat)
    requires EditsOrdered(ls, es, lo) && lo' <= lo
    ensures EditsOrdered(ls, es, lo')
  {
  }

  lemma {:induction false} RewriteCons(ls: seq<Line>, lo: nat, es: seq<BlockEdit>)
    requires EditsOrdered(ls, es, lo) && es != []
    ensures
      var r := es[0].range;
      && lo <= r.first <= r.last < |ls| && EditsOrdered(ls, es[1..], r.last + 1)
      && Rewrite(ls, lo, es) == ls[lo..r.first] + EditRegion(ls[r.first..r.last + 1], es[0].ins) + Rewrite(ls, r.last + 1, es[1..])
  {
    hide EditRegion, IsCert;
  }

  lemma {:induction false} RewriteFrom(ls: seq<Line>, a: nat, b: nat, es: seq<BlockEdit>)
    requires a <= b && EditsOrdered(ls, es, b)
    ensures b <= |ls| && EditsOrdered(ls, es, a) && Rewrite(ls, a, es) == ls[a..b] + Rewrite(ls, b, es)
  {
    hide EditRegion, IsCert, Rewrite, EditsOrdered;
    EditsOrderedFrom(ls, es, b, a);
    if es == [] {
      NoEditsRest(ls, a, es);
      NoEditsRest(ls, b, es);
      assert ls[a..] == ls[a..b] + ls[b..];
    } else {
      RewriteCons(ls, a, es);
      RewriteCons(ls, b, es);
      var f := es[0].range.first;
      assert ls[a..f] == ls[a..b] + ls[b..f];
    }
  }

  lemma NoEditsRest(ls: seq<Line>, a: nat, es: seq<BlockEdit>)
    requires EditsOrdered(ls, es, a) && es == []
    ensures a <= |ls| && Rewrite(ls, a, es) == ls[a..]
  {
  }

  lemma {:induction false} EditsTail(ls: seq<Line>, es: seq<BlockEdit>, k: nat)
    requires EditsOrdered(ls, es, 0) && k < |es|
    ensures
      var r := es[k].range;
      && EditsOrdered(ls, es[k..], 0) && EditsOrdered(ls, es[k + 1..], r.last + 1)
      && r.first <= r.last < |ls| && !IsCert(ls[r.first])
  {
    if k == 0 {
      assert es[0..] == es;
    } else {
      EditsTail(ls, es, k - 1);
      assert es[k - 1..][1..] == es[k..];
      assert es[k..][1..] == es[k + 1..];
      EditsOrderedFrom(ls, es[k..], es[k - 1].range.last + 1, 0);
    }
  }

  /** Splicing the next block up into a file whose lower blocks are done touches only that block. */
  lemma {:induction false} NextBlockUp(ls: seq<Line>, es: seq<BlockEdit>, k: nat)
    requires EditsOrdered(ls, es, 0) && k < |es|
    ensures
      var r := es[k].range;
      && EditsOrdered(ls, es[k..], 0) && EditsOrdered(ls, es[k + 1..], 0)
      && var done := Rewrite(ls, 0, es[k + 1..]);
      && r.first <= r.last < |done| && !IsCert(done[r.first])
      && done[..r.first] + EditRegion(done[r.first..r.last + 1], es[k].ins) + done[r.last + 1..] == Rewrite(ls, 0, es[k..])
  {
    hide EditRegion, IsCert, Rewrite, EditsOrdered;
    var r := es[k].range;
    EditsTail(ls, es, k);
    assert es[k..][1..] == es[k + 1..] && es[k..][0] == es[k];
    RewriteCons(ls, 0, es[k..]);
    RewriteFrom(ls, 0, r.last + 1, es[k + 1..]);
    Pieces(ls, r, Rewrite(ls, r.last + 1, es[k + 1..]));
  }

  lemma Pieces(ls: seq<Line>, r: Range, rest: seq<Line>)
    requires r.first <= r.last < |ls|
    ensures
      var done := ls[0..r.last + 1] + rest;
      && done[r.first] == ls[r.first] && done[..r.first] == ls[0..r.first]
      && done[r.first..r.last + 1] == ls[r.first..r.last + 1] && done[r.last + 1..] == rest
  {
  }

  /** Applies the edits of one file bottom-up, so that recorded line numbers stay valid. */
  method ApplyEdits(ls: seq<Line>, es: seq<BlockEdit>) returns (out: seq<Line>)
    requires EditsOrdered(ls, es, 0)
    ensures out == Rewrite(ls, 0, es)
  {
    hide Rewrite, EditsOrdered, EditRegion, IsCert;
    out := ls;
    var k := |es|;
    assert es[k..] == [];
    NoEdits(ls);
    while k > 0
      invariant 0 <= k <= |es| && EditsOrdered(ls, es[k..], 0) && out == Rewrite(ls, 0, es[k..])
    {
      k := k - 1;
      NextBlockUp(ls, es, k);
      out := ApplyBlockEdit(out, es[k].range, es[k].ins);
    }
    assert es[0..] == es;
  }

  lemma {:induction false} NoEdits(ls: seq<Line>)
    ensures EditsOrdered(ls, [], 0) && Rewrite(ls, 0, []) == ls
  {
  }

  /**
    A rewritten block: the planned lines stand together once, right after the last server_name
    line (or the opening line); no other certificate line is left; the rest keeps its order.
   */
  lemma {:induction false} RewrittenBlock(region: seq<Line>, ins: seq<Line>)
    requires region != [] && !IsCert(region[0])
    ensures
      var out, p := EditRegion(region, ins), |Keep(region[..CutAt(region)])|;
      && 1 <= p && p + |ins| <= |out|
      && out[p..p + |ins|] == ins
      && out[p - 1] == region[CutAt(region) - 1]
      && out[..p] + out[p + |ins|..] == Keep(region)
      && forall k :: 0 <= k < |out| && !(p <= k < p + |ins|) ==> !IsCert(out[k])
  {
    hide IsCert, Names;
    var cut := CutAt(region);
    var left, right := Keep(region[..cut]), Keep(region[cut..]);
    KeepAppend(region[..cut], region[cut..]);
    assert region[..cut] + region[cut..] == region;
    assert region[..cut][..cut - 1] == region[..cut - 1];
    CutNotCert(region);
    KeepClean(region[..cut]);
    KeepClean(region[cut..]);
    var out, p := EditRegion(region, ins), |left|;
    assert out == left + ins + right;
    assert out[..p] == left && out[p + |ins|..] == right;
    assert forall k :: 0 <= k < p ==> out[k] == left[k];
    assert forall k :: p + |ins| <= k < |out| ==> out[k] == right[k - p - |ins|];
  }

  lemma {:induction false} CutNotCert(region: seq<Line>)
    requires region != [] && !IsCert(region[0])
    ensures !IsCert(region[CutAt(region) - 1])
  {
  }

  lemma {:induction false} KeepClean(ls: seq<Line>)
    ensures forall k :: 0 <= k < |Keep(ls)| ==> !IsCert(Keep(ls)[k])
  {
    if ls != [] {
      KeepClean(ls[..|ls| - 1]);
    }
  }

  // ----- which blocks an install edits ----------------------------------------------------------

  /** What to install: the server name to match and the certificate pair. */
  datatype Job = Job(want: string, cert: string, key: string)

  function Region(ls: seq<Line>, r: Range): seq<Line>
    requires r.first <= r.last < |ls|
  {
    ls[r.first..r.last + 1]
  }

  predicate Matches(region: seq<Line>, job: Job) { job.want in Parse(region).names }

  predicate ServesOurs(region: seq<Line>, job: Job) { Parse(region).certs == [job.cert] }

  predicate Foreign(region: seq<Line>, job: Job) {
    Parse(region).certs != [] && job.cert !in Parse(region).certs
  }

  predicate Wants(region: seq<Line>, job: Job) { Matches(region, job) && !ServesOurs(region, job) }

  function EditsFor(ls: seq<Line>, rs: seq<Range>, job: Job): seq<BlockEdit>
    requires Inside(rs, |ls|)
  {
    if rs == [] then []
    else
      var region := Region(ls, rs[0]);
      (if Wants(region, job) then [BlockEdit(rs[0], Plan(Parse(region), job.cert, job.key))] else [])
      + EditsFor(ls, rs[1..], job)
  }

  /** An opening line is neither a certificate nor a server_name line. */
  lemma {:induction false} OpensNotCert(text: string)
    requires Read(text).opens
    ensures !IsCert(Read(text)) && !Names(Read(text))
  {
    var s := Trim(StripComment(text));
    var n := WordLen(s);
    TrimmedStart(StripComment(text));
    assert Fields(s)[0] == s[..n] == "server";
    var t := TrimSemicolon(s);
    WordEnds(s);
    assert |s| > 6;
    var rest := t[6..];
    assert t == "server" + rest;
    assert rest != [] ==> rest[0] == s[6];
    FieldsWord("server", rest);
  }

  lemma {:induction false} TrimmedStart(s: string)
    ensures Trim(s) != [] ==> !IsSpace(Trim(s)[0])
  {
    TrimLeftShape(TrimRight(s));
  }

  lemma {:induction false} WordEnds(s: string)
    ensures WordLen(s) < |s| ==> IsSpace(s[WordLen(s)])
  {
    if s != [] && !IsSpace(s[0]) {
      WordEnds(s[1..]);
    }
  }

  lemma {:induction false} EditsForOrdered(ls: seq<Line>, rs: seq<Range>, job: Job, lo: nat)
    requires Faithful(ls) && Ordered(rs, lo, |ls|) && Blocks(ls, rs)
    ensures Inside(rs, |ls|) && EditsOrdered(ls, EditsFor(ls, rs, job), lo)
  {
    hide Wants, Plan, Parse, IsCert, Read;
    if rs != [] {
      assert Blocks(ls, rs[1..]);
      EditsForOrdered(ls, rs[1..], job, rs[0].last + 1);
      var more := EditsFor(ls, rs[1..], job);
      OpensNotCert(ls[rs[0].first].text);
      if Wants(Region(ls, rs[0]), job) {
        assert EditsFor(ls, rs, job)[1..] == more;
      } else {
        EditsOrderedFrom(ls, more, rs[0].last + 1, lo);
        assert EditsFor(ls, rs, job) == more;
      }
    }
  }
}
