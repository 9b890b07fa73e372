/**
  Alias claims: the identity a claim commits to, its proof of work, and the mining that makes one.
  Hash, signature check, alias normaliser and canonical encoder are parameters of the model.
 */
module Claims {
  import opened Bytes
  import opened ProofOfWork

  const KEY_LEN := 32
  const HASH_LEN := 32

  datatype Attestation = Attestation(nodeId: ByteString, nodePk: ByteString, ts: Uint64, sig: ByteString)

  datatype Claim = Claim(
    name: string, tldId: ByteString, timestamp: Uint64, nonce: ByteString,
    claimantPk: ByteString, powHash: ByteString, witnesses: seq<Attestation>)

  /** Primitives the claim engine calls: SHA-256, Ed25519, alias validation, canonical CBOR. */
  datatype World = World(
    sha: Hash,
    verify: (ByteString, ByteString, ByteString) -> bool,
    aliasOf: string -> Option<string>,
    encode: (string, ByteString, Uint64, ByteString) -> ByteString,
    tag: ByteString,
    baseline: nat)

  /** Validating a validated alias returns it. */
  ghost predicate Settled(w: World) {
    forall a: string :: w.aliasOf(a).Some? ==> w.aliasOf(w.aliasOf(a).value) == w.aliasOf(a)
  }

  /** The canonical bytes of the identity fields; the nonce and the witnesses are not among them. */
  function Prefix(w: World, c: Claim): Option<ByteString> {
    match w.aliasOf(c.name)
    case None => None
    case Some(a) => Some(w.encode(a, c.tldId, c.timestamp, c.claimantPk))
  }

  /** The TLD identifier is the hash of the claimant's key. */
  predicate Consistent(w: World, c: Claim) {
    |c.claimantPk| == KEY_LEN && w.sha(c.claimantPk) == c.tldId
  }

  /** The difficulty asked for, or the inferred one when it is negative. */
  function Demanded(w: World, c: Claim, bits: int): int {
    if bits < 0 then InferDifficulty(c.nonce, w.baseline) else bits
  }

  /** The stored hash is the hash of prefix and nonce, and is small enough. */
  ghost predicate WorkDone(w: World, c: Claim, bits: int) {
    var p := Prefix(w, c);
    p.Some? && w.sha(p.value + c.nonce) == c.powHash && Meets(c.powHash, Demanded(w, c, bits))
  }

  method VerifyFromPrefix(w: World, c: Claim, prefix: ByteString, d: int) returns (ok: bool)
    ensures ok <==> w.sha(prefix + c.nonce) == c.powHash && Meets(c.powHash, d)
  {
    var recomputed := w.sha(prefix + c.nonce);
    if recomputed != c.powHash {
      return false;
    }
    ok := MeetsDifficulty(recomputed, d);
  }

  /**
    The work of a claim, in full: its stored hash is the hash of the canonical bytes of alias,
    identifier, time and key followed by the nonce, and meets the difficulty asked for; without
    one, both the baseline and the difficulty the nonce's first byte names.
   */
  ghost predicate Worked(w: World, c: Claim, bits: int) {
    && w.aliasOf(c.name).Some?
    && w.sha(w.encode(w.aliasOf(c.name).value, c.tldId, c.timestamp, c.claimantPk) + c.nonce) == c.powHash
    && (bits >= 0 ==> Meets(c.powHash, bits))
    && (bits < 0 ==> Meets(c.powHash, w.baseline) && (c.nonce != [] ==> Meets(c.powHash, c.nonce[0])))
  }

  lemma WorkDoneIs(w: World, c: Claim, bits: int)
    ensures WorkDone(w, c, bits) <==> Worked(w, c, bits)
  {
    hide Meets, InferDifficulty;
    InferredIsBoth(c.powHash, c.nonce, w.baseline);
  }

  method VerifyPoW(w: World, c: Claim, bits: int) returns (ok: bool)
    ensures ok <==> WorkDone(w, c, bits)
    ensures ok <==> Worked(w, c, bits)
  {
    WorkDoneIs(w, c, bits);
    var prefix := Prefix(w, c);
    if prefix.None? {
      return false;
    }
    ok := VerifyFromPrefix(w, c, prefix.value, Demanded(w, c, bits));
  }

  /**
    A claim is mined exactly when the arguments are valid and a draw hits before one fails. It
    binds the claimant's key, passes the work check at the difficulty it was mined
    at, and passes at the inferred one exactly when mined at the baseline or lucky enough.
   */
  method MineAliasClaim(w: World, name: string, pk: ByteString, ts: Uint64, bits: int, maxIters: int,
    nonceSize: int, rand: nat -> Option<ByteString>) returns (r: Option<Claim>)
    requires Settled(w)
    requires forall i: nat :: rand(i).Some? ==> |rand(i).value| == (if nonceSize >= 1 then nonceSize - 1 else 0)
    ensures r.Some? <==>
      && w.aliasOf(name).Some? && |pk| == KEY_LEN && bits >= 0 && nonceSize >= 0
      && exists i: nat :: i < maxIters &&
           FirstHit(w.encode(w.aliasOf(name).value, w.sha(pk), ts, pk), bits, nonceSize, w.sha, rand, i)
    ensures r.Some? ==>
      var c := r.value;
      && w.aliasOf(name) == Some(c.name) && c.claimantPk == pk && c.timestamp == ts && c.witnesses == []
      && |c.nonce| == nonceSize && |pk| == 32 && c.tldId == w.sha(pk) && Worked(w, c, bits)
      && (Worked(w, c, -1) <==> w.baseline <= bits || Meets(c.powHash, w.baseline))
  {
    hide Meets, FirstHit;
    var a := w.aliasOf(name);
    if a.None? || |pk| != KEY_LEN {
      return None;
    }
    var prefix := w.encode(a.value, w.sha(pk), ts, pk);
    var m := ProofOfWork.MinePoW(prefix, bits, maxIters, nonceSize, w.sha, rand);
    if !m.Found? {
      return None;
    }
    MinedWorkPasses(m.digest, m.nonce, bits, w.baseline);
    r := Some(Claim(a.value, w.sha(pk), ts, m.nonce, pk, m.digest, []));
    WorkDoneIs(w, r.value, bits);
    WorkDoneIs(w, r.value, -1);
  }

  // ----- what a witness signs -------------------------------------------------------------------

  function BigEndian(x: nat, n: nat): (r: ByteString)
    ensures |r| == n
  {
    if n == 0 then [] else BigEndian(x / 256, n - 1) + [x % 256]
  }

  lemma {:induction false} BigEndianValue(x: nat, n: nat)
    requires x < Pow2(8 * n)
    ensures Value(BigEndian(x, n)) == x
  {
    if n > 0 {
      Pow2Eight();
      Pow2Add(8 * (n - 1), 8);
      Quotient(x, Pow2(8 * (n - 1)));
      BigEndianValue(x / 256, n - 1);
      var d := BigEndian(x, n);
      assert d[..n - 1] == BigEndian(x / 256, n - 1);
    }
  }

  lemma Quotient(x: nat, p: nat)
    requires x < p * 256
    ensures x / 256 < p
  {
  }

  /** The signed message: tag, claim-prefix hash and time stamp; none for a wrong-length hash. */
  function Message(w: World, prefixHash: ByteString, ts: Uint64): Option<ByteString> {
    if |prefixHash| != HASH_LEN then None else Some(w.tag + prefixHash + BigEndian(ts, 8))
  }

  /** A signed message names one claim identity and one time: it cannot serve for another. */
  lemma MessageBinds(w: World, p: ByteString, s: Uint64, q: ByteString, t: Uint64)
    requires Message(w, p, s).Some? && Message(w, p, s) == Message(w, q, t)
    ensures p == q && s == t
  {
    var m := Message(w, p, s).value;
    var n := |w.tag|;
    assert m[n..n + HASH_LEN] == p;
    assert Message(w, q, t).value[n..n + HASH_LEN] == q;
    assert m[n + HASH_LEN..] == BigEndian(s, 8);
    assert Message(w, q, t).value[n + HASH_LEN..] == BigEndian(t, 8);
    Pow2SixtyFour();
    BigEndianValue(s, 8);
    BigEndianValue(t, 8);
  }

  lemma Pow2SixtyFour()
    ensures Pow2(64) == TWO64
  {
    hide Pow2;
    Pow2Eight();
    Pow2Add(8, 8);
    Pow2Add(16, 16);
    Pow2Add(32, 32);
  }
}
