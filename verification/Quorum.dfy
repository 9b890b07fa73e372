/**
  Witness quorums: which attestations of a claim are evaluated, which corroborate it, and what a
  quorum of them guarantees.
 */
module Quorum {
  import opened Bytes
  import opened Claims
  import opened ProofOfWork

  const SKEW_TOLERANCE := 60
  const PRESENT_WINDOW := 300
  const MAX_EVALUATIONS := 16

  /** The node identifier binds the key, and the key signed this claim identity at `a.ts`. */
  predicate Signed(w: World, a: Attestation, prefixHash: ByteString) {
    && |a.nodePk| == KEY_LEN && w.sha(a.nodePk) == a.nodeId
    && var m := Message(w, prefixHash, a.ts);
    m.Some? && w.verify(a.nodePk, a.sig, m.value)
  }

  /** The corroboration band around the asserted time, in 64-bit signed arithmetic. */
  predicate InBand(ts: Uint64, asserted: Uint64) {
    var lo := Wrap64(Wrap64(asserted) - SKEW_TOLERANCE);
    var hi := Wrap64(Wrap64(asserted) + PRESENT_WINDOW + SKEW_TOLERANCE);
    lo <= Wrap64(ts) <= hi
  }

  /** A 64-bit time stamp read as a signed number. */
  function SignedTime(t: Uint64): Int64 { if t < TWO63 then t else t - TWO64 }

  /**
    The band for all time stamps: the intended one around the signed reading, and empty for the
    first minute and the last six minutes of that range, where an end of it overflows.
   */
  lemma BandExact(ts: Uint64, asserted: Uint64)
    ensures
      var a, t := SignedTime(asserted), SignedTime(ts);
      InBand(ts, asserted) <==>
        && -TWO63 + 60 <= a < TWO63 - 360
        && a - 60 <= t <= a + 360
  {
    hide Wrap64;
    WrapTime(ts);
    WrapTime(asserted);
    WrapEnd(SignedTime(asserted) - SKEW_TOLERANCE);
    WrapEnd(SignedTime(asserted) + PRESENT_WINDOW + SKEW_TOLERANCE);
  }

  lemma WrapTime(x: Uint64)
    ensures Wrap64(x) == SignedTime(x)
  {
  }

  lemma WrapEnd(x: int)
    requires -TWO64 <= x < TWO64
    ensures Wrap64(x) == if x < -TWO63 then x + TWO64 else if x < TWO63 then x else x - TWO64
  {
  }

  /**
    The attestation's key hashes to its node identifier and the signature verifies, under that key,
    over the domain tag, the 32-byte claim hash and the time stamp as eight bytes.
   */
  ghost predicate Verified(w: World, a: Attestation, prefixHash: ByteString) {
    && |a.nodePk| == 32 && w.sha(a.nodePk) == a.nodeId && |prefixHash| == 32
    && w.verify(a.nodePk, a.sig, w.tag + prefixHash + BigEndian(a.ts, 8))
  }

  /** Dated from a minute before to six minutes after the claim, read as signed times, where that does not overflow. */
  ghost predicate NearInTime(ts: Uint64, asserted: Uint64) {
    var a, t := SignedTime(asserted), SignedTime(ts);
    -TWO63 + 60 <= a < TWO63 - 360 && a - 60 <= t <= a + 360
  }

  lemma SignedIsVerified(w: World, a: Attestation, prefixHash: ByteString)
    ensures Signed(w, a, prefixHash) <==> Verified(w, a, prefixHash)
  {
  }

  lemma CorroboratesIs(w: World, a: Attestation, prefixHash: ByteString, asserted: Uint64)
    ensures Corroborates(w, a, prefixHash, asserted) <==> Verified(w, a, prefixHash) && NearInTime(a.ts, asserted)
  {
    hide Signed, InBand, Verified;
    SignedIsVerified(w, a, prefixHash);
    BandExact(a.ts, asserted);
  }

  // ----- which attestations are evaluated -------------------------------------------------------

  function Ids(ws: seq<Attestation>): set<ByteString> { set a | a in ws :: a.nodeId }

  /** First attestation of every node, in order. */
  function Firsts(ws: seq<Attestation>): seq<Attestation> {
    if ws == [] then []
    else
      var rest := ws[..|ws| - 1];
      var a := ws[|ws| - 1];
      if a.nodeId in Ids(rest) then Firsts(rest) else Firsts(rest) + [a]
  }

  function Capped(ws: seq<Attestation>): seq<Attestation> {
    if |ws| <= MAX_EVALUATIONS then ws else ws[..MAX_EVALUATIONS]
  }

  /** The attestations whose signatures are checked. */
  function Evaluated(ws: seq<Attestation>): seq<Attestation> { Capped(Firsts(ws)) }

  lemma FirstsNext(ws: seq<Attestation>, a: Attestation)
    ensures Ids(ws + [a]) == Ids(ws) + {a.nodeId}
    ensures Firsts(ws + [a]) == if a.nodeId in Ids(ws) then Firsts(ws) else Firsts(ws) + [a]
  {
    assert (ws + [a])[..|ws|] == ws;
  }

  lemma {:induction false} FirstsSize(ws: seq<Attestation>)
    ensures |Firsts(ws)| == |Ids(ws)| && Ids(Firsts(ws)) == Ids(ws)
    ensures forall a :: a in Firsts(ws) ==> a in ws
  {
    hide Firsts, Ids;
    if ws == [] {
      NothingFirst();
    } else {
      var rest := ws[..|ws| - 1];
      FirstsSize(rest);
      assert ws == rest + [ws[|ws| - 1]];
      FirstsNext(rest, ws[|ws| - 1]);
      FirstsNext(Firsts(rest), ws[|ws| - 1]);
    }
  }

  lemma {:induction false} FirstsAppend(ws: seq<Attestation>, more: seq<Attestation>)
    ensures Firsts(ws) <= Firsts(ws + more)
  {
    if more == [] {
      assert ws + more == ws;
    } else {
      var rest := more[..|more| - 1];
      FirstsAppend(ws, rest);
      assert ws + more == (ws + rest) + [more[|more| - 1]];
      FirstsNext(ws + rest, more[|more| - 1]);
    }
  }

  /**
    An attestation is evaluated exactly when it is the first of its node and fewer than sixteen
    other nodes come before it.
   */
  lemma {:induction false} EvaluatedIff(ws: seq<Attestation>, i: nat)
    requires i < |ws| && ws[i].nodeId !in Ids(ws[..i])
    ensures ws[i] in Evaluated(ws) <==> |Ids(ws[..i])| < 16
  {
    hide Firsts, Ids;
    var n := |Ids(ws[..i])|;
    FirstsSize(ws[..i]);
    FirstsNext(ws[..i], ws[i]);
    assert ws[..i] + [ws[i]] == ws[..i + 1];
    FirstsAppend(ws[..i + 1], ws[i + 1..]);
    assert ws[..i + 1] + ws[i + 1..] == ws;
    FirstsDistinct(ws);
    PlaceInPrefix(Firsts(ws), n);
  }

  lemma PlaceInPrefix(xs: seq<Attestation>, n: nat)
    requires n < |xs| && forall i, j :: 0 <= i < j < |xs| ==> xs[i].nodeId != xs[j].nodeId
    ensures xs[n] in Capped(xs) <==> n < MAX_EVALUATIONS
  {
    if n < MAX_EVALUATIONS {
      assert Capped(xs)[n] == xs[n];
    }
  }

  lemma {:induction false} FirstsDistinct(ws: seq<Attestation>)
    ensures forall i, j :: 0 <= i < j < |Firsts(ws)| ==> Firsts(ws)[i].nodeId != Firsts(ws)[j].nodeId
  {
    if ws != [] {
      FirstsDistinct(ws[..|ws| - 1]);
      FirstsSize(ws[..|ws| - 1]);
    }
  }

  /** Sixteen different nodes at the front hide everything behind them. */
  lemma FrontHides(front: seq<Attestation>, back: seq<Attestation>)
    requires |Ids(front)| >= MAX_EVALUATIONS
    ensures Evaluated(front + back) == Evaluated(front)
  {
    FirstsSize(front);
    FirstsAppend(front, back);
  }

  // ----- counting -------------------------------------------------------------------------------

  predicate Admitted(members: Option<set<ByteString>>, id: ByteString) {
    members.None? || id in members.value
  }

  predicate Corroborates(w: World, a: Attestation, prefixHash: ByteString, asserted: Uint64) {
    Signed(w, a, prefixHash) && InBand(a.ts, asserted)
  }

  /** The node identifiers that count. */
  function Counted(w: World, ws: seq<Attestation>, prefixHash: ByteString, asserted: Uint64,
    members: Option<set<ByteString>>): set<ByteString>
  {
    set a | a in Evaluated(ws) && Corroborates(w, a, prefixHash, asserted) && Admitted(members, a.nodeId) :: a.nodeId
  }

  /** One pass that keeps the first of each node and stops at the cap. */
  method Deduplicate(ws: seq<Attestation>) returns (deduped: seq<Attestation>)
    ensures deduped == Evaluated(ws)
  {
    hide Firsts, Ids;
    var seen: set<ByteString> := {};
    deduped := [];
    NothingFirst();
    for i := 0 to |ws|
      invariant seen == Ids(ws[..i]) && deduped == Firsts(ws[..i]) && |deduped| < MAX_EVALUATIONS
    {
      var a := ws[i];
      FirstsNext(ws[..i], a);
      assert ws[..i] + [a] == ws[..i + 1];
      if a.nodeId in seen {
        continue;
      }
      seen, deduped := seen + {a.nodeId}, deduped + [a];
      if |deduped| >= MAX_EVALUATIONS {
        FirstsAppend(ws[..i + 1], ws[i + 1..]);
        assert ws[..i + 1] + ws[i + 1..] == ws;
        return;
      }
    }
    assert ws[..|ws|] == ws;
  }

  lemma NothingFirst()
    ensures Firsts([]) == [] && Ids([]) == {}
  {
  }

  /** Deduplicate with the cap, then check signatures. */
  method ValidWitnesses(w: World, ws: seq<Attestation>, prefixHash: ByteString) returns (out: seq<Attestation>)
    ensures out == Filter(Evaluated(ws), a => Signed(w, a, prefixHash))
    ensures forall a :: a in out <==> a in Evaluated(ws) && Verified(w, a, prefixHash)
  {
    hide Signed, Evaluated, Verified;
    var deduped := Deduplicate(ws);
    out := [];
    for i := 0 to |deduped|
      invariant out == Filter(deduped[..i], a => Signed(w, a, prefixHash))
    {
      FilterAppend(deduped[..i], [deduped[i]], a => Signed(w, a, prefixHash));
      assert deduped[..i + 1] == deduped[..i] + [deduped[i]];
      if Signed(w, deduped[i], prefixHash) {
        out := out + [deduped[i]];
      }
    }
    assert deduped[..|deduped|] == deduped;
    FilterMembers(Evaluated(ws), a => Signed(w, a, prefixHash));
    forall a ensures Signed(w, a, prefixHash) <==> Verified(w, a, prefixHash) {
      SignedIsVerified(w, a, prefixHash);
    }
  }

  /** Signed, and dated inside the corroboration band. */
  method CorroboratingWitnesses(w: World, ws: seq<Attestation>, prefixHash: ByteString, asserted: Uint64)
    returns (out: seq<Attestation>)
    ensures forall a :: a in out <==> a in Evaluated(ws) && Corroborates(w, a, prefixHash, asserted)
  {
    hide Signed, InBand, Evaluated, Filter;
    var valid := ValidWitnesses(w, ws, prefixHash);
    FilterMembers(Evaluated(ws), a => Signed(w, a, prefixHash));
    out := [];
    for i := 0 to |valid|
      invariant forall a :: a in out <==> a in valid[..i] && InBand(a.ts, asserted)
    {
      if InBand(valid[i].ts, asserted) {
        out := out + [valid[i]];
      }
    }
  }

  method QuorumFromHash(w: World, ws: seq<Attestation>, prefixHash: ByteString, asserted: Uint64,
    members: Option<set<ByteString>>, quorum: int) returns (ok: bool)
    ensures ok <==> |Counted(w, ws, prefixHash, asserted, members)| >= quorum
  {
    hide Corroborates, Evaluated;
    var valid := CorroboratingWitnesses(w, ws, prefixHash, asserted);
    var counted: set<ByteString> := {};
    for i := 0 to |valid|
      invariant counted == set a | a in valid[..i] && Admitted(members, a.nodeId) :: a.nodeId
    {
      assert valid[..i + 1] == valid[..i] + [valid[i]];
      if Admitted(members, valid[i].nodeId) {
        counted := counted + {valid[i].nodeId};
      }
    }
    assert counted == Counted(w, ws, prefixHash, asserted, members);
    ok := |counted| >= quorum;
  }

  /** The quorum condition of a claim. */
  ghost predicate Quorate(w: World, c: Claim, members: Option<set<ByteString>>, quorum: int) {
    var p := Prefix(w, c);
    p.Some? && |Counted(w, c.witnesses, w.sha(p.value), c.timestamp, members)| >= quorum
  }

  method HasQuorum(w: World, c: Claim, members: Option<set<ByteString>>, quorum: int) returns (ok: bool)
    ensures ok <==> Quorate(w, c, members, quorum)
    ensures ok <==> w.aliasOf(c.name).Some? && |Vouching(w, c, members)| >= quorum
  {
    hide Counted, Vouching;
    QuorateIff(w, c, members, quorum);
    var prefix := Prefix(w, c);
    if prefix.None? {
      return false;
    }
    ok := QuorumFromHash(w, c.witnesses, w.sha(prefix.value), c.timestamp, members, quorum);
  }

  /** The full filter, with the prefix built once, is the conjunction of the three checks. */
  method VerifyFull(w: World, c: Claim, bits: int, members: Option<set<ByteString>>, quorum: int)
    returns (ok: bool)
    ensures ok <==> Consistent(w, c) && WorkDone(w, c, bits) && Quorate(w, c, members, quorum)
    ensures ok <==> && |c.claimantPk| == 32 && w.sha(c.claimantPk) == c.tldId && Worked(w, c, bits)
                    && |Vouching(w, c, members)| >= quorum
  {
    hide Counted, Meets, Vouching, Worked;
    QuorateIff(w, c, members, quorum);
    WorkDoneIs(w, c, bits);
    if !Consistent(w, c) {
      return false;
    }
    var prefix := Prefix(w, c);
    if prefix.None? {
      return false;
    }
    var worked := VerifyFromPrefix(w, c, prefix.value, Demanded(w, c, bits));
    if !worked {
      return false;
    }
    ok := QuorumFromHash(w, c.witnesses, w.sha(prefix.value), c.timestamp, members, quorum);
  }

  // ----- what a quorum means --------------------------------------------------------------------

  /** The hash a witness of this claim signs: of the canonical bytes of its alias, identifier, time and key. */
  ghost function IdentityHash(w: World, c: Claim): ByteString
    requires w.aliasOf(c.name).Some?
  {
    w.sha(w.encode(w.aliasOf(c.name).value, c.tldId, c.timestamp, c.claimantPk))
  }

  /** This key signed this claim's identity near its time and belongs to the witness set. */
  ghost predicate Vouches(w: World, c: Claim, members: Option<set<ByteString>>, pk: ByteString) {
    && w.aliasOf(c.name).Some? && (members.Some? ==> w.sha(pk) in members.value)
    && exists a :: a in c.witnesses && a.nodePk == pk && Verified(w, a, IdentityHash(w, c)) && NearInTime(a.ts, c.timestamp)
  }

  /** The nodes that count, by their signatures and times. */
  ghost function Vouching(w: World, c: Claim, members: Option<set<ByteString>>): set<ByteString>
    requires w.aliasOf(c.name).Some?
  {
    set a | a in Evaluated(c.witnesses) && Verified(w, a, IdentityHash(w, c)) && NearInTime(a.ts, c.timestamp)
            && (members.Some? ==> a.nodeId in members.value) :: a.nodeId
  }

  /** A quorum counts exactly the evaluated witnesses whose signature verifies over this claim's identity, near its time. */
  lemma QuorateIff(w: World, c: Claim, members: Option<set<ByteString>>, quorum: int)
    ensures Quorate(w, c, members, quorum) <==> w.aliasOf(c.name).Some? && |Vouching(w, c, members)| >= quorum
  {
    hide Corroborates, Evaluated, Verified, NearInTime;
    if w.aliasOf(c.name).Some? {
      var ph := IdentityHash(w, c);
      forall a ensures Corroborates(w, a, ph, c.timestamp) <==> Verified(w, a, ph) && NearInTime(a.ts, c.timestamp) {
        CorroboratesIs(w, a, ph, c.timestamp);
      }
      assert Counted(w, c.witnesses, ph, c.timestamp, members) == Vouching(w, c, members);
    }
  }

  /** A node none of whose attestations verifies is never counted. */
  lemma UnsignedNeverCounts(w: World, c: Claim, members: Option<set<ByteString>>, id: ByteString)
    requires w.aliasOf(c.name).Some?
    requires forall a :: a in c.witnesses && a.nodeId == id ==>
               !w.verify(a.nodePk, a.sig, w.tag + IdentityHash(w, c) + BigEndian(a.ts, 8))
    ensures id !in Counted(w, c.witnesses, IdentityHash(w, c), c.timestamp, members)
  {
    hide Evaluated, Corroborates, NearInTime;
    EvaluatedMembers(c.witnesses);
    forall a ensures Corroborates(w, a, IdentityHash(w, c), c.timestamp) ==> Verified(w, a, IdentityHash(w, c)) {
      CorroboratesIs(w, a, IdentityHash(w, c), c.timestamp);
    }
  }

  /** A quorum is that many different keys, each with a signature over exactly this identity. */
  lemma QuorumMeansKeys(w: World, c: Claim, members: Option<set<ByteString>>, quorum: int) returns (keys: set<ByteString>)
    requires Quorate(w, c, members, quorum)
    ensures |keys| >= quorum && forall pk :: pk in keys ==> Vouches(w, c, members, pk)
  {
    hide Evaluated, Corroborates, NearInTime;
    var ph := w.sha(Prefix(w, c).value);
    forall a ensures Corroborates(w, a, ph, c.timestamp) <==> Verified(w, a, ph) && NearInTime(a.ts, c.timestamp) {
      CorroboratesIs(w, a, ph, c.timestamp);
    }
    keys := set a | a in Evaluated(c.witnesses) && Corroborates(w, a, ph, c.timestamp) && Admitted(members, a.nodeId) :: a.nodePk;
    EvaluatedMembers(c.witnesses);
    var ids := Counted(w, c.witnesses, ph, c.timestamp, members);
    assert ids == set pk | pk in keys :: w.sha(pk);
    ImageSize(keys, w.sha);
  }

  lemma EvaluatedMembers(ws: seq<Attestation>)
    ensures forall a :: a in Evaluated(ws) ==> a in ws
    ensures |Evaluated(ws)| <= 16
  {
    FirstsSize(ws);
  }

  lemma {:induction false} ImageSize(keys: set<ByteString>, f: ByteString -> ByteString)
    ensures |set k | k in keys :: f(k)| <= |keys|
  {
    if keys != {} {
      var k :| k in keys;
      ImageSize(keys - {k}, f);
      var rest := set x | x in keys - {k} :: f(x);
      assert (set x | x in keys :: f(x)) == rest + {f(k)};
    }
  }

  /**
    Conversely, keys that vouch make a quorum when the list has at most sixteen attestations, one
    per node, and the hash does not confuse those keys.
   */
  lemma KeysMakeQuorum(w: World, c: Claim, members: Option<set<ByteString>>, quorum: int, keys: set<ByteString>)
    requires |keys| >= quorum && Prefix(w, c).Some? && forall pk :: pk in keys ==> Vouches(w, c, members, pk)
    requires |c.witnesses| <= MAX_EVALUATIONS && |Ids(c.witnesses)| == |c.witnesses|
    requires forall x, y :: x in keys && y in keys && w.sha(x) == w.sha(y) ==> x == y
    ensures Quorate(w, c, members, quorum)
  {
    hide Evaluated, Ids, Corroborates, NearInTime;
    var ph := w.sha(Prefix(w, c).value);
    forall a ensures Corroborates(w, a, ph, c.timestamp) <==> Verified(w, a, ph) && NearInTime(a.ts, c.timestamp) {
      CorroboratesIs(w, a, ph, c.timestamp);
    }
    var ids := set pk | pk in keys :: w.sha(pk);
    InjectiveImage(keys, w.sha);
    AllEvaluated(c.witnesses);
    var counted := Counted(w, c.witnesses, ph, c.timestamp, members);
    forall pk | pk in keys ensures w.sha(pk) in counted {
      assert Vouches(w, c, members, pk);
    }
    SubsetSize(ids, counted);
  }

  lemma AllEvaluated(ws: seq<Attestation>)
    requires |Ids(ws)| == |ws| <= MAX_EVALUATIONS
    ensures Evaluated(ws) == ws
  {
    hide Ids;
    FirstsSize(ws);
    FirstsWhole(ws);
  }

  lemma {:induction false} FirstsWhole(ws: seq<Attestation>)
    requires |Firsts(ws)| == |ws|
    ensures Firsts(ws) == ws
  {
    if ws != [] {
      var rest := ws[..|ws| - 1];
      FirstsShort(rest);
      FirstsWhole(rest);
      assert ws == rest + [ws[|ws| - 1]];
    }
  }

  lemma {:induction false} FirstsShort(ws: seq<Attestation>)
    ensures |Firsts(ws)| <= |ws|
  {
    if ws != [] {
      FirstsShort(ws[..|ws| - 1]);
    }
  }

  lemma {:induction false} InjectiveImage(keys: set<ByteString>, f: ByteString -> ByteString)
    requires forall x, y :: x in keys && y in keys && f(x) == f(y) ==> x == y
    ensures |set k | k in keys :: f(k)| == |keys|
  {
    if keys != {} {
      var k :| k in keys;
      InjectiveImage(keys - {k}, f);
      var rest := set x | x in keys - {k} :: f(x);
      assert (set x | x in keys :: f(x)) == rest + {f(k)};
    }
  }

  /** Attestations added at the end never undo a quorum. */
  lemma AppendKeepsQuorum(w: World, c: Claim, more: seq<Attestation>, members: Option<set<ByteString>>, quorum: int)
    requires Quorate(w, c, members, quorum)
    ensures Quorate(w, c.(witnesses := c.witnesses + more), members, quorum)
  {
    hide Corroborates;
    var ph := w.sha(Prefix(w, c).value);
    FirstsAppend(c.witnesses, more);
    var a := Counted(w, c.witnesses, ph, c.timestamp, members);
    var b := Counted(w, c.witnesses + more, ph, c.timestamp, members);
    assert a <= b;
    SubsetSize(a, b);
  }

  lemma SubsetSize<T>(a: set<T>, b: set<T>)
    requires a <= b
    ensures |a| <= |b|
  {
    assert b == a + (b - a);
  }

  /** Sixteen unusable nodes at the front defeat any quorum behind them. */
  lemma FrontDefeatsQuorum(w: World, c: Claim, back: seq<Attestation>, members: Option<set<ByteString>>, quorum: int)
    requires quorum > 0 && |Ids(c.witnesses)| >= MAX_EVALUATIONS && Prefix(w, c).Some?
    requires forall a :: a in c.witnesses ==> !Signed(w, a, w.sha(Prefix(w, c).value))
    ensures !Quorate(w, c.(witnesses := c.witnesses + back), members, quorum)
  {
    hide Signed;
    FrontHides(c.witnesses, back);
    EvaluatedMembers(c.witnesses);
    assert Counted(w, c.witnesses + back, w.sha(Prefix(w, c).value), c.timestamp, members) == {};
  }
}
