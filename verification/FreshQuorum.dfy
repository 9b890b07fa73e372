/** Re-attestation evidence: the fresh attestations a verifier counts, and what the cap costs. */
module FreshQuorum {
  import opened Bytes
  import opened Claims
  import opened Quorum

  /** Signed for this identity, and dated inside the window (64-bit signed arithmetic). */
  predicate Fresh(w: World, a: Attestation, prefixHash: ByteString, now: Int64, window: Int64) {
    && Signed(w, a, prefixHash)
    && Wrap64(now - window) <= Wrap64(a.ts) <= Wrap64(now + SKEW_TOLERANCE)
  }

  /** The signature verifies over this identity, and the signed time lies from `window` before now to a minute after. */
  ghost predicate VerifiedLately(w: World, a: Attestation, prefixHash: ByteString, now: Int64, window: Int64) {
    Verified(w, a, prefixHash) && Wrap64(now - window) <= SignedTime(a.ts) <= Wrap64(now + 60)
  }

  lemma FreshIs(w: World, a: Attestation, prefixHash: ByteString, now: Int64, window: Int64)
    ensures Fresh(w, a, prefixHash, now, window) <==> VerifiedLately(w, a, prefixHash, now, window)
  {
    hide Signed, Verified, Wrap64;
    SignedIsVerified(w, a, prefixHash);
    WrapTime(a.ts);
  }

  datatype Scan = Scan(out: seq<Attestation>, evaluated: nat)

  /** The state after scanning the list; once the cap is reached nothing changes any more. */
  function ScanAll(w: World, atts: seq<Attestation>, ph: ByteString, now: Int64, window: Int64): Scan {
    if atts == [] then Scan([], 0)
    else
      var s := ScanAll(w, atts[..|atts| - 1], ph, now, window);
      var a := atts[|atts| - 1];
      if a.nodeId in Ids(s.out) || s.evaluated >= MAX_EVALUATIONS then s
      else Scan(if Fresh(w, a, ph, now, window) then s.out + [a] else s.out, s.evaluated + 1)
  }

  lemma ScanNext(w: World, atts: seq<Attestation>, a: Attestation, ph: ByteString, now: Int64, window: Int64)
    ensures
      var s := ScanAll(w, atts, ph, now, window);
      ScanAll(w, atts + [a], ph, now, window) ==
      if a.nodeId in Ids(s.out) || s.evaluated >= MAX_EVALUATIONS then s
      else Scan(if Fresh(w, a, ph, now, window) then s.out + [a] else s.out, s.evaluated + 1)
  {
    assert (atts + [a])[..|atts|] == atts;
  }

  method FreshAttestations(w: World, atts: seq<Attestation>, ph: ByteString, now: Int64, window: Int64)
    returns (out: seq<Attestation>)
    ensures out == ScanAll(w, atts, ph, now, window).out
  {
    hide ScanAll, Fresh, Ids;
    out := [];
    if atts == [] {
      ScanNothing(w, ph, now, window);
      return;
    }
    var seen: set<ByteString>, evaluated := {}, 0;
    ScanNothing(w, ph, now, window);
    for i := 0 to |atts|
      invariant seen == Ids(out) && ScanAll(w, atts[..i], ph, now, window) == Scan(out, evaluated)
    {
      var a := atts[i];
      ScanNext(w, atts[..i], a, ph, now, window);
      assert atts[..i] + [a] == atts[..i + 1];
      if a.nodeId in seen {
        continue;
      }
      if evaluated >= MAX_EVALUATIONS {
        CapHolds(w, atts[..i], atts[i..], ph, now, window);
        assert atts[..i] + atts[i..] == atts;
        return;
      }
      evaluated := evaluated + 1;
      if Fresh(w, a, ph, now, window) {
        FirstsNext(out, a);
        seen, out := seen + {a.nodeId}, out + [a];
      }
    }
    assert atts[..|atts|] == atts;
  }

  lemma ScanNothing(w: World, ph: ByteString, now: Int64, window: Int64)
    ensures ScanAll(w, [], ph, now, window) == Scan([], 0) && Ids([]) == {}
  {
  }

  lemma {:induction false} CapHolds(w: World, atts: seq<Attestation>, more: seq<Attestation>, ph: ByteString, now: Int64, window: Int64)
    requires ScanAll(w, atts, ph, now, window).evaluated >= MAX_EVALUATIONS
    ensures ScanAll(w, atts + more, ph, now, window) == ScanAll(w, atts, ph, now, window)
  {
    hide ScanAll, Fresh, Ids;
    if more == [] {
      assert atts + more == atts;
    } else {
      var rest := more[..|more| - 1];
      CapHolds(w, atts, rest, ph, now, window);
      ScanNext(w, atts + rest, more[|more| - 1], ph, now, window);
      assert atts + more == (atts + rest) + [more[|more| - 1]];
    }
  }

  /** At most sixteen signatures are checked; what comes out is fresh, given, and one per node. */
  lemma {:induction false} ScanSound(w: World, atts: seq<Attestation>, ph: ByteString, now: Int64, window: Int64)
    ensures
      var s := ScanAll(w, atts, ph, now, window);
      && s.evaluated <= MAX_EVALUATIONS && |s.out| <= s.evaluated
      && (forall a :: a in s.out ==> a in atts && Fresh(w, a, ph, now, window))
      && |Ids(s.out)| == |s.out|
  {
    hide ScanAll, Fresh, Ids;
    if atts == [] {
      ScanNothing(w, ph, now, window);
    } else {
      var rest := atts[..|atts| - 1];
      var a := atts[|atts| - 1];
      ScanSound(w, rest, ph, now, window);
      ScanNext(w, rest, a, ph, now, window);
      assert atts == rest + [a];
      FirstsNext(ScanAll(w, rest, ph, now, window).out, a);
    }
  }

  /** More evidence at the end never loses any. */
  lemma {:induction false} ScanGrows(w: World, atts: seq<Attestation>, more: seq<Attestation>, ph: ByteString, now: Int64, window: Int64)
    ensures ScanAll(w, atts, ph, now, window).out <= ScanAll(w, atts + more, ph, now, window).out
  {
    hide ScanAll, Fresh, Ids;
    if more == [] {
      assert atts + more == atts;
    } else {
      var rest := more[..|more| - 1];
      ScanGrows(w, atts, rest, ph, now, window);
      ScanNext(w, atts + rest, more[|more| - 1], ph, now, window);
      assert atts + more == (atts + rest) + [more[|more| - 1]];
    }
  }

  // ----- what the cap costs ---------------------------------------------------------------------

  /** Nodes with a fresh attestation in the list. */
  function FreshIds(w: World, atts: seq<Attestation>, ph: ByteString, now: Int64, window: Int64): set<ByteString> {
    set a | a in atts && Fresh(w, a, ph, now, window) :: a.nodeId
  }

  /** Signature checks spent without a result, repetitions included; a counted node is not checked again. */
  function Wasted(w: World, atts: seq<Attestation>, ph: ByteString, now: Int64, window: Int64): nat {
    if atts == [] then 0
    else
      var rest := atts[..|atts| - 1];
      var a := atts[|atts| - 1];
      Wasted(w, rest, ph, now, window) +
      if Fresh(w, a, ph, now, window) || a.nodeId in FreshIds(w, rest, ph, now, window) then 0 else 1
  }

  /** The checks the list asks for. */
  function Asked(w: World, atts: seq<Attestation>, ph: ByteString, now: Int64, window: Int64): nat {
    Wasted(w, atts, ph, now, window) + |FreshIds(w, atts, ph, now, window)|
  }

  lemma AskedNext(w: World, atts: seq<Attestation>, a: Attestation, ph: ByteString, now: Int64, window: Int64)
    ensures FreshIds(w, atts + [a], ph, now, window) ==
            FreshIds(w, atts, ph, now, window) + if Fresh(w, a, ph, now, window) then {a.nodeId} else {}
    ensures Asked(w, atts + [a], ph, now, window) ==
            Asked(w, atts, ph, now, window) + if a.nodeId in FreshIds(w, atts, ph, now, window) then 0 else 1
  {
    hide Fresh, FreshIds, Wasted;
    FreshIdsNext(w, atts, a, ph, now, window);
    WastedNext(w, atts, a, ph, now, window);
    AddOne(FreshIds(w, atts, ph, now, window), a.nodeId);
  }

  lemma FreshIdsNext(w: World, atts: seq<Attestation>, a: Attestation, ph: ByteString, now: Int64, window: Int64)
    ensures FreshIds(w, atts + [a], ph, now, window) ==
            FreshIds(w, atts, ph, now, window) + if Fresh(w, a, ph, now, window) then {a.nodeId} else {}
  {
    hide Fresh;
  }

  lemma WastedNext(w: World, atts: seq<Attestation>, a: Attestation, ph: ByteString, now: Int64, window: Int64)
    ensures Wasted(w, atts + [a], ph, now, window) == Wasted(w, atts, ph, now, window) +
            if Fresh(w, a, ph, now, window) || a.nodeId in FreshIds(w, atts, ph, now, window) then 0 else 1
  {
    hide Fresh, FreshIds;
    assert (atts + [a])[..|atts|] == atts;
  }

  lemma AddOne(ids: set<ByteString>, id: ByteString)
    ensures |ids + {id}| == |ids| + if id in ids then 0 else 1
    ensures |ids + {}| == |ids|
  {
    assert ids + {} == ids;
    assert id in ids ==> ids + {id} == ids;
  }

  lemma AskedNothing(w: World, ph: ByteString, now: Int64, window: Int64)
    ensures Asked(w, [], ph, now, window) == 0 && FreshIds(w, [], ph, now, window) == {}
  {
  }

  /** While the list asks for at most sixteen checks, every fresh node is counted. */
  lemma {:induction false} WithinCap(w: World, atts: seq<Attestation>, ph: ByteString, now: Int64, window: Int64)
    requires Asked(w, atts, ph, now, window) <= MAX_EVALUATIONS
    ensures ScanAll(w, atts, ph, now, window).evaluated == Asked(w, atts, ph, now, window)
    ensures Ids(ScanAll(w, atts, ph, now, window).out) == FreshIds(w, atts, ph, now, window)
  {
    hide ScanAll, Fresh, Ids, Asked, FreshIds;
    if atts == [] {
      ScanNothing(w, ph, now, window);
      AskedNothing(w, ph, now, window);
    } else {
      var rest := atts[..|atts| - 1];
      var a := atts[|atts| - 1];
      assert atts == rest + [a];
      AskedNext(w, rest, a, ph, now, window);
      ScanNext(w, rest, a, ph, now, window);
      WithinCap(w, rest, ph, now, window);
      FirstsNext(ScanAll(w, rest, ph, now, window).out, a);
    }
  }

  /** A list that asks for sixteen checks or more gets exactly sixteen. */
  lemma {:induction false} BeyondCap(w: World, atts: seq<Attestation>, ph: ByteString, now: Int64, window: Int64)
    requires Asked(w, atts, ph, now, window) >= MAX_EVALUATIONS
    ensures ScanAll(w, atts, ph, now, window).evaluated == MAX_EVALUATIONS
  {
    hide ScanAll, Fresh, Ids, Asked, FreshIds;
    if atts == [] {
      AskedNothing(w, ph, now, window);
    } else {
      var rest := atts[..|atts| - 1];
      var a := atts[|atts| - 1];
      assert atts == rest + [a];
      AskedNext(w, rest, a, ph, now, window);
      ScanNext(w, rest, a, ph, now, window);
      if Asked(w, rest, ph, now, window) >= MAX_EVALUATIONS {
        BeyondCap(w, rest, ph, now, window);
      } else {
        WithinCap(w, rest, ph, now, window);
      }
    }
  }

  /** A node's first fresh attestation makes it count exactly when fewer than sixteen checks come before it. */
  lemma CountedIff(w: World, atts: seq<Attestation>, i: nat, ph: ByteString, now: Int64, window: Int64)
    requires i < |atts| && Fresh(w, atts[i], ph, now, window)
    requires atts[i].nodeId !in FreshIds(w, atts[..i], ph, now, window)
    ensures atts[i].nodeId in Ids(ScanAll(w, atts, ph, now, window).out) <==>
            Asked(w, atts[..i], ph, now, window) < 16
  {
    hide ScanAll, Fresh, Ids, Asked, FreshIds;
    var before := atts[..i];
    var a := atts[i];
    assert atts[..i + 1] == before + [a];
    assert atts[..i + 1] + atts[i + 1..] == atts && before + atts[i..] == atts;
    ScanNext(w, before, a, ph, now, window);
    if Asked(w, before, ph, now, window) < MAX_EVALUATIONS {
      WithinCap(w, before, ph, now, window);
      FirstsNext(ScanAll(w, before, ph, now, window).out, a);
      ScanGrows(w, atts[..i + 1], atts[i + 1..], ph, now, window);
      IdsGrow(ScanAll(w, atts[..i + 1], ph, now, window).out, ScanAll(w, atts, ph, now, window).out);
    } else {
      BeyondCap(w, before, ph, now, window);
      CapHolds(w, before, atts[i..], ph, now, window);
      ScanFreshOnly(w, before, ph, now, window);
    }
  }

  lemma IdsGrow(xs: seq<Attestation>, ys: seq<Attestation>)
    requires xs <= ys
    ensures Ids(xs) <= Ids(ys)
  {
    assert forall a :: a in xs ==> a in ys;
  }

  lemma ScanFreshOnly(w: World, atts: seq<Attestation>, ph: ByteString, now: Int64, window: Int64)
    ensures Ids(ScanAll(w, atts, ph, now, window).out) <= FreshIds(w, atts, ph, now, window)
  {
    hide ScanAll, Fresh;
    ScanSound(w, atts, ph, now, window);
  }

  /** Sixteen copies of one unusable attestation hide a usable one; deduplicating first would not. */
  lemma CopiesExhaustTheCap(w: World, bad: Attestation, good: Attestation, ph: ByteString, now: Int64, window: Int64)
    requires !Fresh(w, bad, ph, now, window) && Fresh(w, good, ph, now, window) && bad.nodeId != good.nodeId
    ensures
      var atts := seq(16, i => bad) + [good];
      ScanAll(w, atts, ph, now, window).out == [] && good in Evaluated(atts)
  {
    hide ScanAll, Fresh, Ids, Asked, FreshIds;
    var copies := seq(16, i => bad);
    var atts := copies + [good];
    CopiesAsk(w, bad, 16, ph, now, window);
    BeyondCap(w, copies, ph, now, window);
    ScanNext(w, copies, good, ph, now, window);
    ScanFreshOnly(w, copies, ph, now, window);
    NoIdsNoOut(ScanAll(w, copies, ph, now, window).out);
    assert atts[..16] == copies && atts[16] == good;
    CopyIds(bad, 16);
    EvaluatedIff(atts, 16);
  }

  lemma NoIdsNoOut(out: seq<Attestation>)
    requires Ids(out) <= {}
    ensures out == []
  {
    assert |out| > 0 ==> out[0].nodeId in Ids(out);
  }

  lemma CopyIds(bad: Attestation, n: nat)
    requires n > 0
    ensures Ids(seq(n, i => bad)) == {bad.nodeId}
  {
    assert seq(n, i => bad)[0] == bad;
  }

  lemma {:induction false} CopiesAsk(w: World, bad: Attestation, n: nat, ph: ByteString, now: Int64, window: Int64)
    requires !Fresh(w, bad, ph, now, window)
    ensures FreshIds(w, seq(n, i => bad), ph, now, window) == {} && Asked(w, seq(n, i => bad), ph, now, window) == n
  {
    hide Fresh, Asked, FreshIds;
    if n == 0 {
      assert seq(n, i => bad) == [];
      AskedNothing(w, ph, now, window);
    } else {
      CopiesAsk(w, bad, n - 1, ph, now, window);
      assert seq(n, i => bad) == seq(n - 1, i => bad) + [bad];
      AskedNext(w, seq(n - 1, i => bad), bad, ph, now, window);
    }
  }

  // ----- the fresh quorum -----------------------------------------------------------------------

  /** A fresh quorum is that many different keys, each with a fresh signature over this identity. */
  method HasFreshQuorum(w: World, atts: seq<Attestation>, ph: ByteString, now: Int64, window: Int64,
    members: Option<set<ByteString>>, quorum: int) returns (ok: bool, ghost keys: set<ByteString>)
    ensures ok <==> |set a | a in ScanAll(w, atts, ph, now, window).out && Admitted(members, a.nodeId) :: a.nodeId| >= quorum
    ensures ok ==> |keys| >= quorum
    ensures forall pk :: pk in keys ==>
              && (members.Some? ==> w.sha(pk) in members.value)
              && exists a :: a in atts && a.nodePk == pk && VerifiedLately(w, a, ph, now, window)
  {
    hide ScanAll, Fresh, Ids, VerifiedLately;
    var valid := FreshAttestations(w, atts, ph, now, window);
    var counted: set<ByteString> := {};
    for i := 0 to |valid|
      invariant counted == set a | a in valid[..i] && Admitted(members, a.nodeId) :: a.nodeId
    {
      assert valid[..i + 1] == valid[..i] + [valid[i]];
      if Admitted(members, valid[i].nodeId) {
        counted := counted + {valid[i].nodeId};
      }
    }
    assert valid[..|valid|] == valid;
    ok := |counted| >= quorum;
    keys := FreshKeys(w, atts, ph, now, window, members, counted);
  }

  lemma FreshKeys(w: World, atts: seq<Attestation>, ph: ByteString, now: Int64, window: Int64,
    members: Option<set<ByteString>>, counted: set<ByteString>) returns (keys: set<ByteString>)
    requires counted == set a | a in ScanAll(w, atts, ph, now, window).out && Admitted(members, a.nodeId) :: a.nodeId
    ensures |keys| >= |counted|
    ensures forall pk :: pk in keys ==>
              && (members.Some? ==> w.sha(pk) in members.value)
              && exists a :: a in atts && a.nodePk == pk && VerifiedLately(w, a, ph, now, window)
  {
    hide ScanAll, Fresh, Wrap64;
    var out := ScanAll(w, atts, ph, now, window).out;
    ScanSound(w, atts, ph, now, window);
    forall a ensures Fresh(w, a, ph, now, window) <==> VerifiedLately(w, a, ph, now, window) {
      FreshIs(w, a, ph, now, window);
    }
    keys := set a | a in out && Admitted(members, a.nodeId) :: a.nodePk;
    assert counted == set pk | pk in keys :: w.sha(pk);
    ImageSize(keys, w.sha);
  }
}
