/**
  Social recovery: counting the policy keys that signed a declaration, the acceptance predicate,
  the command-line verdict that restates it, and the assembly of evidence.
 */
module Recovery {
  import opened Bytes
  import opened Claims

  const SIG_LEN := 64

  datatype Policy = Policy(threshold: Uint64, keys: seq<ByteString>, timelock: Uint64)

  datatype Evidence = Evidence(newOwner: ByteString, sigs: seq<ByteString>, notBefore: Uint64)

  /** Ed25519 over byte strings, and the domain-separation tag. */
  datatype Signing = Signing(ed: (ByteString, ByteString, ByteString) -> bool, tag: ByteString)

  /** Signature verification with its length gate. */
  predicate Verifies(w: Signing, pk: ByteString, sig: ByteString, msg: ByteString) {
    |pk| == KEY_LEN && |sig| == SIG_LEN && w.ed(pk, sig, msg)
  }

  /** The declaration a recovery key signs. */
  function Declaration(w: Signing, prevHash: ByteString, newOwner: ByteString, notBefore: Uint64): Option<ByteString> {
    if |prevHash| != HASH_LEN || |newOwner| != KEY_LEN then None
    else Some(w.tag + prevHash + newOwner + BigEndian(notBefore, 8))
  }

  /** A declaration names one record, one new owner and one start time. */
  lemma DeclarationBinds(w: Signing, h: ByteString, o: ByteString, t: Uint64, h': ByteString, o': ByteString, t': Uint64)
    requires Declaration(w, h, o, t).Some? && Declaration(w, h, o, t) == Declaration(w, h', o', t')
    ensures h == h' && o == o' && t == t'
  {
    var x := Declaration(w, h, o, t).value;
    var y := Declaration(w, h', o', t').value;
    var n := |w.tag|;
    assert x[n..n + 32] == h && y[n..n + 32] == h';
    assert x[n + 32..n + 64] == o && y[n + 32..n + 64] == o';
    assert x[n + 64..] == BigEndian(t, 8) && y[n + 64..] == BigEndian(t', 8);
    Pow2SixtyFour();
    BigEndianValue(t, 8);
    BigEndianValue(t', 8);
  }

  // ----- the quorum -----------------------------------------------------------------------------

  predicate HasSigned(w: Signing, k: ByteString, sigs: seq<ByteString>, msg: ByteString) {
    exists s :: s in sigs && Verifies(w, k, s, msg)
  }

  /** The policy keys with a valid signature among `sigs`, each once. */
  function Signers(w: Signing, keys: seq<ByteString>, sigs: seq<ByteString>, msg: ByteString): set<ByteString> {
    set k | k in keys && HasSigned(w, k, sigs, msg)
  }

  method AnySignature(w: Signing, k: ByteString, sigs: seq<ByteString>, msg: ByteString) returns (ok: bool)
    ensures ok <==> HasSigned(w, k, sigs, msg)
  {
    for i := 0 to |sigs|
      invariant forall j :: 0 <= j < i ==> !Verifies(w, k, sigs[j], msg)
    {
      if Verifies(w, k, sigs[i], msg) {
        return true;
      }
    }
    return false;
  }

  /** The counting loop: policy keys in order, each counted at its first signature. */
  method CountSigners(w: Signing, keys: seq<ByteString>, sigs: seq<ByteString>, msg: ByteString) returns (verified: nat)
    ensures verified == |Signers(w, keys, sigs, msg)|
  {
    hide HasSigned;
    var seen: set<ByteString> := {};
    verified := 0;
    for i := 0 to |keys|
      invariant seen == Signers(w, keys[..i], sigs, msg) && verified == |seen|
    {
      var k := keys[i];
      SignersNext(w, keys[..i], k, sigs, msg);
      assert keys[..i + 1] == keys[..i] + [k];
      if |k| != KEY_LEN || k in seen {
        ShortKeySilent(w, k, sigs, msg);
        continue;
      }
      var ok := AnySignature(w, k, sigs, msg);
      if ok {
        seen := seen + {k};
        verified := verified + 1;
      }
    }
    assert keys[..|keys|] == keys;
  }

  lemma SignersNext(w: Signing, keys: seq<ByteString>, k: ByteString, sigs: seq<ByteString>, msg: ByteString)
    ensures Signers(w, keys + [k], sigs, msg) ==
            Signers(w, keys, sigs, msg) + if HasSigned(w, k, sigs, msg) then {k} else {}
    ensures k in Signers(w, keys, sigs, msg) ==> HasSigned(w, k, sigs, msg)
  {
    hide HasSigned;
  }

  lemma ShortKeySilent(w: Signing, k: ByteString, sigs: seq<ByteString>, msg: ByteString)
    ensures |k| != KEY_LEN ==> !HasSigned(w, k, sigs, msg)
  {
  }

  /** The count depends only on which keys and signatures there are; more signatures never lower it. */
  lemma CountIgnoresOrder(w: Signing, keys: seq<ByteString>, sigs: seq<ByteString>, keys': seq<ByteString>, sigs': seq<ByteString>, msg: ByteString)
    requires forall k :: k in keys <==> k in keys'
    requires forall s :: s in sigs ==> s in sigs'
    ensures Signers(w, keys, sigs, msg) <= Signers(w, keys', sigs', msg)
    ensures |Signers(w, keys, sigs, msg)| <= |Signers(w, keys', sigs', msg)|
    ensures (forall s :: s in sigs' ==> s in sigs) ==> Signers(w, keys, sigs, msg) == Signers(w, keys', sigs', msg)
  {
    hide Verifies;
    var a, b := Signers(w, keys, sigs, msg), Signers(w, keys', sigs', msg);
    assert a <= b;
    assert b == a + (b - a);
  }

  // ----- acceptance -----------------------------------------------------------------------------

  /** The earliest admissible instant: creation plus timelock, saturating; none if creation is unknown. */
  function Bound(created: Uint64, timelock: Uint64): Uint64 {
    if created == 0 then 0 else if created + timelock >= TWO64 then TWO64 - 1 else created + timelock
  }

  /** Enough different policy keys, not backdated, and due. */
  predicate Accepts(w: Signing, p: Policy, ev: Evidence, prevHash: ByteString, created: Uint64, now: Uint64) {
    var msg := Declaration(w, prevHash, ev.newOwner, ev.notBefore);
    && msg.Some? && 1 <= p.threshold <= |Signers(w, p.keys, ev.sigs, msg.value)|
    && Bound(created, p.timelock) <= ev.notBefore <= now
  }

  /** The policy keys that vouch: of 32 bytes, with a 64-byte signature among those given that Ed25519 verifies. */
  ghost function Vouchers(w: Signing, keys: seq<ByteString>, sigs: seq<ByteString>, msg: ByteString): set<ByteString> {
    set k | k in keys && |k| == 32 && exists s :: s in sigs && |s| == 64 && w.ed(k, s, msg)
  }

  /**
    Recovery is authorised: at least `threshold` different policy keys signed the tag, the record's
    hash, the new owner and the start time; the start is no earlier than creation plus timelock
    (or the end of time, where that sum overflows); and the start has come.
   */
  ghost predicate Authorised(w: Signing, p: Policy, ev: Evidence, prevHash: ByteString, created: Uint64, now: Uint64) {
    && |prevHash| == 32 && |ev.newOwner| == 32
    && 1 <= p.threshold <= |Vouchers(w, p.keys, ev.sigs, w.tag + prevHash + ev.newOwner + BigEndian(ev.notBefore, 8))|
    && (created != 0 ==> ev.notBefore >= created + p.timelock || ev.notBefore == TWO64 - 1)
    && now >= ev.notBefore
  }

  lemma AcceptsIff(w: Signing, p: Policy, ev: Evidence, prevHash: ByteString, created: Uint64, now: Uint64)
    ensures Accepts(w, p, ev, prevHash, created, now) <==> Authorised(w, p, ev, prevHash, created, now)
  {
    hide BigEndian;
    var msg := w.tag + prevHash + ev.newOwner + BigEndian(ev.notBefore, 8);
    assert Signers(w, p.keys, ev.sigs, msg) == Vouchers(w, p.keys, ev.sigs, msg);
  }

  method VerifyRecovery(w: Signing, policy: Option<Policy>, evidence: Option<Evidence>, prevHash: ByteString,
    created: Uint64, now: Uint64) returns (ok: bool)
    ensures ok <==> policy.Some? && evidence.Some? && Authorised(w, policy.value, evidence.value, prevHash, created, now)
    ensures ok <==> policy.Some? && evidence.Some? && Accepts(w, policy.value, evidence.value, prevHash, created, now)
  {
    hide Signers, Authorised;
    if policy.None? || evidence.None? {
      return false;
    }
    var p, ev := policy.value, evidence.value;
    AcceptsIff(w, p, ev, prevHash, created, now);
    if p.threshold < 1 || |prevHash| != HASH_LEN || |ev.newOwner| != KEY_LEN {
      return false;
    }
    if created != 0 {
      var bound := if p.timelock > TWO64 - 1 - created then TWO64 - 1 else created + p.timelock;
      if ev.notBefore < bound {
        return false;
      }
    }
    var msg := Declaration(w, prevHash, ev.newOwner, ev.notBefore);
    if msg.None? {
      return false;
    }
    var verified := CountSigners(w, p.keys, ev.sigs, msg.value);
    if verified < p.threshold {
      return false;
    }
    return now >= ev.notBefore;
  }

  /** Signatures reordered or repeated, and policy keys reordered or repeated, change nothing. */
  lemma AcceptanceIgnoresOrder(w: Signing, p: Policy, ev: Evidence, p': Policy, ev': Evidence, prevHash: ByteString, created: Uint64, now: Uint64)
    requires p' == p.(keys := p'.keys) && ev' == ev.(sigs := ev'.sigs)
    requires (forall k :: k in p.keys <==> k in p'.keys) && (forall s :: s in ev.sigs <==> s in ev'.sigs)
    ensures Accepts(w, p, ev, prevHash, created, now) <==> Accepts(w, p', ev', prevHash, created, now)
  {
    hide Signers;
    var msg := Declaration(w, prevHash, ev.newOwner, ev.notBefore);
    if msg.Some? {
      CountIgnoresOrder(w, p.keys, ev.sigs, p'.keys, ev'.sigs, msg.value);
    }
  }

  // ----- the command-line verdict ---------------------------------------------------------------

  datatype Status = BelowThreshold | Backdated | NotElapsed | Executable

  /** The count the report shows: zero when there is nothing to sign. */
  ghost function Shown(w: Signing, p: Policy, ev: Evidence, prevHash: ByteString): nat {
    var msg := Declaration(w, prevHash, ev.newOwner, ev.notBefore);
    if msg.None? then 0 else |Signers(w, p.keys, ev.sigs, msg.value)|
  }

  /** The verdict in 64-bit arithmetic: the threshold read as signed, the bound wrapping. */
  ghost function Verdict(w: Signing, p: Policy, ev: Evidence, prevHash: ByteString, created: Uint64, now: Uint64): Status {
    if Shown(w, p, ev, prevHash) < Wrap64(p.threshold) then BelowThreshold
    else if ev.notBefore < WrapU64(created + p.timelock) then Backdated
    else if now < ev.notBefore then NotElapsed
    else Executable
  }

  method Report(w: Signing, p: Policy, ev: Evidence, prevHash: ByteString, created: Uint64, now: Uint64) returns (s: Status)
    ensures s == Verdict(w, p, ev, prevHash, created, now)
  {
    hide Signers;
    var quorum := 0;
    var msg := Declaration(w, prevHash, ev.newOwner, ev.notBefore);
    if msg.Some? {
      quorum := CountSigners(w, p.keys, ev.sigs, msg.value);
    }
    if quorum < Wrap64(p.threshold) {
      return BelowThreshold;
    } else if ev.notBefore < WrapU64(created + p.timelock) {
      return Backdated;
    } else if now < ev.notBefore {
      return NotElapsed;
    }
    return Executable;
  }

  /** Policies on which the report can be trusted. */
  predicate Ordinary(p: Policy, created: Uint64) {
    && 1 <= p.threshold < TWO63
    && (if created == 0 then p.timelock == 0 else created + p.timelock < TWO64)
  }

  /** On such policies the report says executable exactly when acceptance does. */
  lemma VerdictsAgree(w: Signing, p: Policy, ev: Evidence, prevHash: ByteString, created: Uint64, now: Uint64)
    requires Ordinary(p, created)
    ensures Verdict(w, p, ev, prevHash, created, now).Executable? <==> Accepts(w, p, ev, prevHash, created, now)
  {
    hide Signers;
    assert WrapU64(created + p.timelock) == created + p.timelock;
  }

  /** Signatures that reach the threshold for whatever start time the declaration names. */
  ghost predicate Reachable(w: Signing, p: Policy, prevHash: ByteString, newOwner: ByteString, sign: Uint64 -> seq<ByteString>) {
    && |prevHash| == HASH_LEN && |newOwner| == KEY_LEN
    && (p.threshold < TWO63 ==> forall t: Uint64 ::
         |Signers(w, p.keys, sign(t), Declaration(w, prevHash, newOwner, t).value)| >= p.threshold)
  }

  /** On every other policy (of fewer than 2^63 keys) whose keys can reach the threshold, they differ on some evidence. */
  lemma VerdictsDiffer(w: Signing, p: Policy, prevHash: ByteString, newOwner: ByteString, created: Uint64, sign: Uint64 -> seq<ByteString>)
    returns (ev: Evidence, now: Uint64)
    requires Reachable(w, p, prevHash, newOwner, sign) && !Ordinary(p, created)
    requires |p.keys| < TWO63
    ensures ev.newOwner == newOwner
    ensures Verdict(w, p, ev, prevHash, created, now).Executable? <==> !Accepts(w, p, ev, prevHash, created, now)
  {
    hide Signers;
    now := TWO64 - 1;
    if p.threshold < 1 || p.threshold >= TWO63 {
      ev := Evidence(newOwner, [], TWO64 - 1);
      SignersBounded(w, p.keys, [], Declaration(w, prevHash, newOwner, TWO64 - 1).value);
    } else if created == 0 {
      ev := Evidence(newOwner, sign(0), 0);
    } else {
      var t: Uint64 := created + p.timelock - TWO64;
      ev := Evidence(newOwner, sign(t), t);
      assert WrapU64(created + p.timelock) == t by { WrapsOnce(created + p.timelock); }
    }
  }

  lemma WrapsOnce(x: int)
    requires TWO64 <= x < 2 * TWO64
    ensures WrapU64(x) == x - TWO64
  {
  }

  lemma {:induction false} SignersBounded(w: Signing, keys: seq<ByteString>, sigs: seq<ByteString>, msg: ByteString)
    ensures |Signers(w, keys, sigs, msg)| <= |keys|
  {
    hide HasSigned;
    if keys != [] {
      var rest := keys[..|keys| - 1];
      SignersBounded(w, rest, sigs, msg);
      SignersNext(w, rest, keys[|keys| - 1], sigs, msg);
      assert keys == rest + [keys[|keys| - 1]];
      var a := Signers(w, rest, sigs, msg);
      assert |a + {keys[|keys| - 1]}| <= |a| + 1;
      assert a + {} == a;
    }
  }

  // ----- assembling evidence --------------------------------------------------------------------

  /** A signer's public key and what it signs. */
  datatype Keypair = Keypair(pk: ByteString, sign: ByteString -> ByteString)

  /** Signing works: what the pair signs verifies under its public key. */
  ghost predicate Genuine(w: Signing, kp: Keypair) {
    forall m :: Verifies(w, kp.pk, kp.sign(m), m)
  }

  datatype Assembly =
    | Assembled(ev: Evidence)
    | DuplicateSigner(at: nat)
    | ForeignSigner(at: nat)
    | BadLength
    | SelfCheckFailed

  ghost predicate DistinctInPolicy(p: Policy, signers: seq<Keypair>, n: nat)
    requires n <= |signers|
  {
    && (forall i :: 0 <= i < n ==> signers[i].pk in p.keys)
    && (forall i, j :: 0 <= i < j < n ==> signers[i].pk != signers[j].pk)
  }

  /** Signer `i` has the key of an earlier one. */
  ghost predicate Repeats(signers: seq<Keypair>, i: nat)
    requires i < |signers|
  {
    exists j :: 0 <= j < i && signers[j].pk == signers[i].pk
  }

  method CheckSigners(p: Policy, signers: seq<Keypair>) returns (bad: Option<Assembly>)
    ensures bad.None? <==> DistinctInPolicy(p, signers, |signers|)
    ensures bad.Some? ==> bad.value.DuplicateSigner? || bad.value.ForeignSigner?
    ensures bad.Some? ==> bad.value.at < |signers| && DistinctInPolicy(p, signers, bad.value.at)
    ensures bad.Some? && bad.value.DuplicateSigner? ==> Repeats(signers, bad.value.at)
    ensures bad.Some? && bad.value.ForeignSigner? ==>
              signers[bad.value.at].pk !in p.keys && !Repeats(signers, bad.value.at)
  {
    var seen: set<ByteString> := {};
    for i := 0 to |signers|
      invariant DistinctInPolicy(p, signers, i)
      invariant forall k :: k in seen <==> exists j :: 0 <= j < i && signers[j].pk == k
    {
      var k := signers[i].pk;
      if k in seen {
        return Some(DuplicateSigner(i));
      }
      if k !in p.keys {
        return Some(ForeignSigner(i));
      }
      seen := seen + {k};
    }
    return None;
  }

  function SignAll(signers: seq<Keypair>, msg: ByteString): (sigs: seq<ByteString>)
    ensures |sigs| == |signers| && forall i :: 0 <= i < |signers| ==> sigs[i] == signers[i].sign(msg)
  {
    seq(|signers|, i requires 0 <= i < |signers| => signers[i].sign(msg))
  }

  /** The start of now + timelock lies before the earliest admissible instant: the sum wrapped, or the clock is behind. */
  predicate StartsTooEarly(created: Uint64, now: Uint64, timelock: Uint64) {
    created > 0 && (now + timelock >= TWO64 || (now < created && now + timelock < TWO64 - 1))
  }

  /** The self-check turns this evidence down: a threshold nobody can meet, or a start that is too early. */
  predicate SelfCheckFails(p: Policy, signers: nat, created: Uint64, now: Uint64) {
    p.threshold < 1 || p.threshold >= TWO63 || (p.threshold <= signers && StartsTooEarly(created, now, p.timelock))
  }

  /** Why the assembly ended as it did. The cases exclude each other. */
  ghost predicate Explained(w: Signing, p: Policy, newOwner: ByteString, signers: seq<Keypair>, prevHash: ByteString,
    created: Uint64, now: Uint64, r: Assembly)
  {
    var start := WrapU64(now + p.timelock);
    var msg := Declaration(w, prevHash, newOwner, start);
    var signed := DistinctInPolicy(p, signers, |signers|);
    var sized := |prevHash| == HASH_LEN && |newOwner| == KEY_LEN;
    match r
    case DuplicateSigner(i) => i < |signers| && DistinctInPolicy(p, signers, i) && Repeats(signers, i)
    case ForeignSigner(i) =>
      i < |signers| && DistinctInPolicy(p, signers, i) && signers[i].pk !in p.keys && !Repeats(signers, i)
    case BadLength => signed && !sized
    case SelfCheckFailed => signed && sized && SelfCheckFails(p, |signers|, created, now)
    case Assembled(ev) =>
      && signed && sized && !SelfCheckFails(p, |signers|, created, now)
      && ev == Evidence(newOwner, SignAll(signers, msg.value), start)
  }

  /** The explanations determine the outcome. */
  lemma OneExplanation(w: Signing, p: Policy, newOwner: ByteString, signers: seq<Keypair>, prevHash: ByteString,
    created: Uint64, now: Uint64, r: Assembly, s: Assembly)
    requires Explained(w, p, newOwner, signers, prevHash, created, now, r)
    requires Explained(w, p, newOwner, signers, prevHash, created, now, s)
    ensures r == s
  {
    hide SelfCheckFails, Declaration, SignAll;
    Faults(p, signers);
    if r.DuplicateSigner? || r.ForeignSigner? {
      assert !DistinctInPolicy(p, signers, r.at + 1);
    }
    if s.DuplicateSigner? || s.ForeignSigner? {
      assert !DistinctInPolicy(p, signers, s.at + 1);
    }
  }

  /** A signer at fault spoils every longer prefix. */
  lemma Faults(p: Policy, signers: seq<Keypair>)
    ensures forall i, n :: 0 <= i < n <= |signers| && (Repeats(signers, i) || signers[i].pk !in p.keys) ==>
              !DistinctInPolicy(p, signers, n)
  {
  }

  /**
    Evidence from distinct policy keys names now + timelock as its start, and once the threshold
    is reached it is accepted from that instant on and at no earlier one. Every outcome, for every
    policy of fewer than 2^63 keys, creation time and clock, has its exact condition.
   */
  method Assemble(w: Signing, p: Policy, newOwner: ByteString, signers: seq<Keypair>, prevHash: ByteString,
    created: Uint64, now: Uint64) returns (r: Assembly)
    requires forall i :: 0 <= i < |signers| ==> Genuine(w, signers[i])
    ensures r.DuplicateSigner? || r.ForeignSigner? <==> !DistinctInPolicy(p, signers, |signers|)
    ensures r.BadLength? <==> DistinctInPolicy(p, signers, |signers|) && !(|prevHash| == 32 && |newOwner| == 32)
    ensures |p.keys| < TWO63 ==> Explained(w, p, newOwner, signers, prevHash, created, now, r)
    ensures r.Assembled? ==> r.ev.newOwner == newOwner && |r.ev.sigs| == |signers| && r.ev.notBefore == WrapU64(now + p.timelock)
    ensures r.Assembled? && 1 <= p.threshold < TWO63 && |signers| >= p.threshold ==>
            forall t: Uint64 :: Accepts(w, p, r.ev, prevHash, created, t) <==> t >= r.ev.notBefore
  {
    hide Signers, Genuine, Verifies, Wrap64;
    var bad := CheckSigners(p, signers);
    if bad.Some? {
      return bad.value;
    }
    var notBefore := WrapU64(now + p.timelock);
    var msg := Declaration(w, prevHash, newOwner, notBefore);
    if msg.None? {
      return BadLength;
    }
    var sigs: seq<ByteString> := [];
    for i := 0 to |signers|
      invariant |sigs| == i && forall j :: 0 <= j < i ==> sigs[j] == signers[j].sign(msg.value)
    {
      sigs := sigs + [signers[i].sign(msg.value)];
    }
    var ev := Evidence(newOwner, sigs, notBefore);
    assert sigs == SignAll(signers, msg.value);
    AllCounted(w, p, signers, sigs, msg.value);
    SignersBounded(w, p.keys, sigs, msg.value);
    StartInTime(created, now, p.timelock);
    SignedThreshold(p.threshold);
    var ok := VerifyRecovery(w, Some(p), Some(ev), prevHash, created, notBefore);
    if !ok && |sigs| >= Wrap64(p.threshold) {
      return SelfCheckFailed;
    }
    return Assembled(ev);
  }

  lemma SignedThreshold(t: Uint64)
    ensures Wrap64(t) == if t < TWO63 then t else t - TWO64
  {
  }

  lemma AllCounted(w: Signing, p: Policy, signers: seq<Keypair>, sigs: seq<ByteString>, msg: ByteString)
    requires DistinctInPolicy(p, signers, |signers|) && |sigs| == |signers|
    requires forall i :: 0 <= i < |signers| ==> Genuine(w, signers[i]) && sigs[i] == signers[i].sign(msg)
    ensures |Signers(w, p.keys, sigs, msg)| >= |signers|
  {
    hide Verifies;
    var mine := set i | 0 <= i < |signers| :: signers[i].pk;
    DistinctCount(signers);
    forall i | 0 <= i < |signers| ensures signers[i].pk in Signers(w, p.keys, sigs, msg) {
      assert sigs[i] in sigs && Verifies(w, signers[i].pk, sigs[i], msg);
    }
    var all := Signers(w, p.keys, sigs, msg);
    assert all == mine + (all - mine);
  }

  lemma {:induction false} DistinctCount(signers: seq<Keypair>)
    requires forall i, j :: 0 <= i < j < |signers| ==> signers[i].pk != signers[j].pk
    ensures |set i | 0 <= i < |signers| :: signers[i].pk| == |signers|
  {
    if signers != [] {
      var rest := signers[..|signers| - 1];
      DistinctCount(rest);
      var a := set i | 0 <= i < |rest| :: rest[i].pk;
      assert (set i | 0 <= i < |signers| :: signers[i].pk) == a + {signers[|signers| - 1].pk};
    }
  }

  /** The start clears the bound exactly when it is not too early. */
  lemma StartInTime(created: Uint64, now: Uint64, timelock: Uint64)
    ensures WrapU64(now + timelock) >= Bound(created, timelock) <==> !StartsTooEarly(created, now, timelock)
  {
    if now + timelock >= TWO64 {
      WrapsOnce(now + timelock);
    }
  }
}
