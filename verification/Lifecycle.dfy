/** Ownership hand-offs and recoveries, and what holds along every chain of them. */
module Lifecycle {
  import opened Bytes
  import opened Recovery
  import opened Records
  import Store

  const DEFAULT_TTL := 86400
  const TTL_CAP := 3600

  /** A command-line value: not given, not parseable, or parsed. */
  datatype Arg<T> = Absent | Malformed | Given(value: T)

  datatype Result = Ok(env: Envelope) | NotOwner | BadArgument | BadRecord | NoPolicy

  /** Subtree authority is with the owner: no delegation, or one to the owner. */
  predicate Follows(r: Record) { r.delegation == [] || r.delegation == r.owner }

  /** Authority that follows the owner moves with it; a third party's stays. */
  function Delegate(prev: Record, newOwner: ByteString): ByteString {
    if Follows(prev) then newOwner else prev.delegation
  }

  /** Hand-off: signed by the current owner. */
  function Handoff(h: EnvelopeHash, prev: Envelope, newOwner: ByteString, kp: Signer, address: Arg<RR>,
    expires: Arg<Uint64>, now: Uint64): Result
  {
    if kp.pk != prev.record.owner then NotOwner
    else if expires.Malformed? then BadArgument
    else
      var until := if expires.Given? then expires.value else WrapU64(now + DEFAULT_TTL);
      var r := NewRecord(prev.record.name, newOwner, WrapU64(prev.record.sequence + 1), now, until);
      if r.None? then BadRecord
      else if address.Malformed? then BadArgument
      else
        Ok(Sign(r.value.(
          prevHash := h(prev),
          rrset := if address.Given? then [address.value] else prev.record.rrset,
          delegation := Delegate(prev.record, newOwner),
          recovery := prev.record.recovery,
          claim := prev.record.claim), kp))
  }

  function DefaultTtl(rr: RR): RR { if rr.ttl == 0 then rr.(ttl := TTL_CAP) else rr }

  function DefaultTtls(rrs: seq<RR>): (r: seq<RR>)
    ensures |r| == |rrs| && forall i :: 0 <= i < |rrs| ==> r[i] == rrs[i].(ttl := if rrs[i].ttl == 0 then 3600 else rrs[i].ttl)
  {
    if rrs == [] then [] else [DefaultTtl(rrs[0])] + DefaultTtls(rrs[1..])
  }

  /** The recovered record's expiry: the remaining lifetime, at least an hour, in 64-bit arithmetic. */
  function RecoveredExpiry(expires: Uint64, now: Uint64): Uint64 {
    var remaining := Wrap64(Wrap64(expires) - Wrap64(now));
    WrapU64(Wrap64(Wrap64(now) + if remaining < TTL_CAP then TTL_CAP else remaining))
  }

  /** Recovery: signed by the new owner. */
  function Recovered(h: EnvelopeHash, prev: Envelope, kp: Signer, now: Uint64): Result {
    if prev.record.recovery.None? then NoPolicy
    else
      var r := NewRecord(prev.record.name, kp.pk, WrapU64(prev.record.sequence + 1), now, RecoveredExpiry(prev.record.expires, now));
      if r.None? then BadRecord
      else
        Ok(Sign(r.value.(
          prevHash := h(prev),
          rrset := DefaultTtls(prev.record.rrset),
          delegation := Delegate(prev.record, kp.pk),
          recovery := prev.record.recovery,
          claim := prev.record.claim), kp))
  }

  // ----- the lifetime of a recovered record -----------------------------------------------------

  lemma WrapNear(x: int)
    ensures -TWO64 - TWO63 <= x < -TWO63 ==> Wrap64(x) == x + TWO64
    ensures TWO63 <= x < TWO64 + TWO63 ==> Wrap64(x) == x - TWO64
    ensures -TWO64 <= x < 0 ==> WrapU64(x) == x + TWO64
  {
  }

  /** The recovered record would keep the old expiry: it is an hour ahead or more, in signed 64-bit distance. */
  predicate KeepsExpiry(expires: Uint64, now: Uint64) {
    3600 <= expires - now < TWO63 || 3600 - TWO64 <= expires - now < -TWO63
  }

  /** It is the old expiry, or one hour from now, with wrap-around where a sum does not fit. */
  lemma RecoveredLifetime(expires: Uint64, now: Uint64)
    ensures RecoveredExpiry(expires, now) == if KeepsExpiry(expires, now) then expires else WrapU64(now + 3600)
  {
    hide Wrap64, WrapU64;
    var d := expires - now;
    SignedDistance(expires, now);
    WrapNear(d);
    Plain(d);
    SignedSum(now, if Wrap64(d) < TTL_CAP then TTL_CAP else Wrap64(d));
    WrapNear(expires - TWO64);
    Plain(expires);
    WrapOff(expires);
  }

  lemma SignedDistance(x: Uint64, y: Uint64)
    ensures Wrap64(Wrap64(x) - Wrap64(y)) == Wrap64(x - y)
  {
    hide Wrap64;
    WrapNear(x);
    WrapNear(y);
    Plain(x);
    Plain(y);
    WrapShift(x - y, Wrap64(x) - Wrap64(y));
  }

  lemma WrapShift(a: int, b: int)
    requires a == b || a == b + TWO64 || a == b - TWO64
    ensures Wrap64(a) == Wrap64(b) && WrapU64(a) == WrapU64(b)
  {
    SameResidue(a, b);
    SameResidue(a + TWO63, b + TWO63);
  }

  lemma SameResidue(a: int, b: int)
    requires a == b || a == b + TWO64 || a == b - TWO64
    ensures a % TWO64 == b % TWO64
  {
  }

  lemma SignedSum(now: Uint64, d: Int64)
    ensures WrapU64(Wrap64(Wrap64(now) + d)) == WrapU64(now + d)
  {
    hide Wrap64, WrapU64;
    WrapNear(now);
    Plain(now);
    var s := Wrap64(now) + d;
    WrapNear(s);
    Plain(s);
    WrapShift(Wrap64(s), s);
    WrapShift(now + d, s);
  }

  lemma WrapOff(x: Uint64)
    ensures WrapU64(x) == x && WrapU64(x + TWO64) == x && WrapU64(x - TWO64) == x
  {
    WrapShift(x, x + TWO64);
    WrapShift(x, x - TWO64);
  }

  lemma Plain(x: int)
    ensures -TWO63 <= x < TWO63 ==> Wrap64(x) == x
    ensures 0 <= x < TWO64 ==> WrapU64(x) == x
  {
  }

  // ----- chains ---------------------------------------------------------------------------------

  /** One link: how a successor was made. */
  datatype Link =
    | ByHandoff(newOwner: ByteString, kp: Signer, address: Arg<RR>, expires: Arg<Uint64>, now: Uint64)
    | ByRecovery(kp: Signer, now: Uint64)

  function Follow(h: EnvelopeHash, prev: Envelope, l: Link): Result {
    match l
    case ByHandoff(newOwner, kp, address, expires, now) => Handoff(h, prev, newOwner, kp, address, expires, now)
    case ByRecovery(kp, now) => Recovered(h, prev, kp, now)
  }

  ghost predicate IsChain(h: EnvelopeHash, es: seq<Envelope>, ls: seq<Link>) {
    && |es| == |ls| + 1
    && forall i :: 0 <= i < |ls| ==> Follow(h, es[i], ls[i]) == Ok(es[i + 1])
  }

  /** What one link keeps and changes. */
  lemma LinkStep(h: EnvelopeHash, prev: Envelope, l: Link, next: Envelope)
    requires Follow(h, prev, l) == Ok(next)
    ensures next.record.name == prev.record.name && next.record.claim == prev.record.claim
    ensures next.record.recovery == prev.record.recovery && !next.record.revoked
    ensures next.record.sequence == prev.record.sequence + 1
    ensures next.record.prevHash == h(prev)
    ensures next.signer == if l.ByHandoff? then prev.record.owner else next.record.owner
    ensures next.record.delegation == if Follows(prev.record) then next.record.owner else prev.record.delegation
    ensures l.ByRecovery? ==> prev.record.recovery.Some?
    ensures next.record.owner == if l.ByHandoff? then l.newOwner else l.kp.pk
    ensures next.record.created == l.now <= next.record.expires
    ensures next.record.rrset ==
            if l.ByRecovery? then DefaultTtls(prev.record.rrset) else if l.address.Given? then [l.address.value] else prev.record.rrset
    ensures next.record.expires ==
            if l.ByRecovery? then RecoveredExpiry(prev.record.expires, l.now)
            else if l.expires.Given? then l.expires.value else WrapU64(l.now + 86400)
  {
    hide RecoveredExpiry, DefaultTtls;
    Plain(prev.record.sequence + 1);
    assert prev.record.sequence + 1 == TWO64 ==> WrapU64(prev.record.sequence + 1) == 0;
  }

  /** When a link can be made: a usable name and key, room in the sequence, a time window, and the right consent. */
  lemma LinkMadeIff(h: EnvelopeHash, prev: Envelope, l: Link)
    ensures Follow(h, prev, l).Ok? <==>
            && prev.record.name != [] && prev.record.sequence < TWO64 - 1
            && match l
               case ByHandoff(newOwner, kp, address, expires, now) =>
                 && kp.pk == prev.record.owner && |newOwner| == 32 && !address.Malformed? && !expires.Malformed?
                 && (if expires.Given? then now <= expires.value else now + DEFAULT_TTL < TWO64)
               case ByRecovery(kp, now) =>
                 && prev.record.recovery.Some? && |kp.pk| == 32
                 && (if KeepsExpiry(prev.record.expires, now) then now <= prev.record.expires else now + TTL_CAP < TWO64)
  {
    hide DefaultTtls, RecoveredExpiry, KeepsExpiry, WrapU64;
    Plain(prev.record.sequence + 1);
    WrapOff(0);
    FitsWindow(l.now, DEFAULT_TTL);
    FitsWindow(l.now, TTL_CAP);
    RecoveredLifetime(prev.record.expires, l.now);
  }

  lemma FitsWindow(now: Uint64, d: int)
    requires 0 < d < TWO63
    ensures now <= WrapU64(now + d) <==> now + d < TWO64
  {
    if now + d >= TWO64 {
      WrapShift(now + d, now + d - TWO64);
      Plain(now + d - TWO64);
    }
  }

  /** Along every chain: identity fixed, sequence counting the links, authority where it belongs. */
  lemma {:induction false} ChainLaws(h: EnvelopeHash, es: seq<Envelope>, ls: seq<Link>, n: nat)
    requires IsChain(h, es, ls) && n < |es|
    ensures es[n].record.name == es[0].record.name && es[n].record.claim == es[0].record.claim
    ensures es[n].record.recovery == es[0].record.recovery
    ensures es[n].record.sequence == es[0].record.sequence + n
    ensures n > 0 ==> !es[n].record.revoked && es[n].record.prevHash == h(es[n - 1])
    ensures n > 0 ==> es[n].signer == if ls[n - 1].ByHandoff? then es[n - 1].record.owner else es[n].record.owner
    ensures es[n].record.delegation == es[0].record.delegation || es[n].record.delegation == es[n].record.owner
  {
    hide Follow;
    if n > 0 {
      ChainLaws(h, es, ls, n - 1);
      LinkStep(h, es[n - 1], ls[n - 1], es[n]);
    }
  }

  /** Authority was with the owner somewhere among the first `n` envelopes. */
  ghost predicate Followed(es: seq<Envelope>, n: nat)
    requires n <= |es|
  {
    exists j :: 0 <= j < n && Follows(es[j].record)
  }

  lemma FollowedNext(es: seq<Envelope>, n: nat)
    requires n < |es|
    ensures Followed(es, n + 1) <==> Followed(es, n) || Follows(es[n].record)
    ensures !Followed(es, 0)
  {
    hide Follows;
  }

  lemma DelegationStep(h: EnvelopeHash, es: seq<Envelope>, ls: seq<Link>, n: nat)
    requires IsChain(h, es, ls) && 0 < n < |es|
    ensures
      var r, next := es[n - 1].record, es[n].record;
      && next.delegation == (if Follows(r) then next.owner else r.delegation)
      && (Follows(r) <==> r.delegation == [] || r.delegation == r.owner)
  {
    hide Follow;
    LinkStep(h, es[n - 1], ls[n - 1], es[n]);
  }

  /** Exactly: the owner if authority has followed anywhere before, the first delegation otherwise. */
  lemma {:induction false} DelegationExactly(h: EnvelopeHash, es: seq<Envelope>, ls: seq<Link>, n: nat)
    requires IsChain(h, es, ls) && 0 < n < |es|
    ensures es[n].record.delegation == if Followed(es, n) then es[n].record.owner else es[0].record.delegation
  {
    DelegationStep(h, es, ls, n);
    hide IsChain, Followed, Follows;
    FollowedNext(es, n - 1);
    if n > 1 {
      DelegationExactly(h, es, ls, n - 1);
    } else {
      FollowedNext(es, 0);
    }
  }

  /** Once authority has followed the owner it does so for good. */
  lemma FollowsForGood(h: EnvelopeHash, es: seq<Envelope>, ls: seq<Link>, i: nat, n: nat)
    requires IsChain(h, es, ls) && i < n < |es| && Follows(es[i].record)
    ensures es[n].record.delegation == es[n].record.owner
  {
    hide Follow, Follows;
    assert Followed(es, n);
    DelegationExactly(h, es, ls, n);
  }

  /** Every envelope of a chain links to and wins over every earlier one's successor rule. */
  lemma ChainWins(h: EnvelopeHash, es: seq<Envelope>, ls: seq<Link>, i: nat, n: nat)
    requires IsChain(h, es, ls) && i < n < |es|
    ensures Wins(h, es[n], es[i]) && (n == i + 1 ==> ChainLink(h, es[n], es[i]))
  {
    hide Follow;
    ChainLaws(h, es, ls, i);
    ChainLaws(h, es, ls, n);
  }

  /**
    A store that holds the predecessor installs the successor exactly when it is a hand-off, a
    recovery by the same owner, or one whose evidence names the new owner and carries a quorum of
    the predecessor's policy.
   */
  lemma StoreTakesLink(h: EnvelopeHash, prev: Envelope, l: Link, next: Envelope, c: Store.Circumstance)
    requires Follow(h, prev, l) == Ok(next) && h(prev) != [] && h(next) != h(prev)
    ensures Store.Against(h, prev, next, c).Installed? <==>
            || l.ByHandoff?
            || next.record.owner == prev.record.owner
            || (&& c.evidence.Some? && c.evidence.value.newOwner == next.record.owner
                && Accepts(c.signing, prev.record.recovery.value, c.evidence.value, h(prev), prev.record.created, c.evidence.value.notBefore))
  {
    hide Follow, Accepts;
    LinkStep(h, prev, l, next);
  }

  /** Without an address change, resource records keep kind and data; only absent TTLs are filled in. */
  lemma {:induction false} RecordsCarried(h: EnvelopeHash, es: seq<Envelope>, ls: seq<Link>, n: nat)
    requires IsChain(h, es, ls) && n < |es|
    requires forall i :: 0 <= i < n && ls[i].ByHandoff? ==> ls[i].address.Absent?
    ensures es[n].record.rrset ==
            if exists i :: 0 <= i < n && ls[i].ByRecovery? then DefaultTtls(es[0].record.rrset) else es[0].record.rrset
  {
    hide DefaultTtls, RecoveredExpiry;
    if n > 0 {
      RecordsCarried(h, es, ls, n - 1);
      assert Follow(h, es[n - 1], ls[n - 1]) == Ok(es[n]);
      DefaultTtlsTwice(es[0].record.rrset);
    }
  }

  lemma DefaultTtlsTwice(rrs: seq<RR>)
    ensures DefaultTtls(DefaultTtls(rrs)) == DefaultTtls(rrs)
  {
  }

  // ----- recovering a name, end to end ----------------------------------------------------------

  datatype Recovering = Ready(evidence: Evidence, env: Envelope) | NoEvidence(why: Assembly) | NoRecord(reason: Result)

  /** A recovered record can be made: a usable name and key, room in the sequence, an expiry not in the past. */
  predicate Makeable(prev: Record, pk: ByteString, now: Uint64) {
    && prev.name != [] && |pk| == 32 && prev.sequence < TWO64 - 1
    && (if KeepsExpiry(prev.expires, now) then now <= prev.expires else now + TTL_CAP < TWO64)
  }

  /** The signers suffice for evidence: distinct policy keys, and the self-check has no objection. */
  ghost predicate Evidential(h: EnvelopeHash, prev: Envelope, p: Policy, pk: ByteString, signers: seq<Keypair>, now: Uint64) {
    && DistinctInPolicy(p, signers, |signers|) && |h(prev)| == 32 && |pk| == 32
    && !SelfCheckFails(p, |signers|, prev.record.created, now)
  }

  /**
    The recovery of a name: evidence from the policy's keys, and the recovered record. It is ready
    exactly when there is a policy, its evidence can be assembled and the record be made; else the
    reason is the first of these that fails. With enough signers, every store that holds the
    predecessor alive installs the record when the evidence comes along, at whatever time.
   */
  method Recover(w: Signing, h: EnvelopeHash, prev: Envelope, kp: Signer, signers: seq<Keypair>, now: Uint64) returns (r: Recovering)
    requires forall i :: 0 <= i < |signers| ==> Genuine(w, signers[i])
    ensures r == NoRecord(NoPolicy) <==> prev.record.recovery.None?
    ensures prev.record.recovery.Some? && |prev.record.recovery.value.keys| < TWO63 ==>
              var p := prev.record.recovery.value;
              && (r.Ready? <==> Evidential(h, prev, p, kp.pk, signers, now) && Makeable(prev.record, kp.pk, now))
              && (r == NoRecord(BadRecord) <==> Evidential(h, prev, p, kp.pk, signers, now) && !Makeable(prev.record, kp.pk, now))
              && (r.NoEvidence? <==> !Evidential(h, prev, p, kp.pk, signers, now))
              && (r.NoEvidence? ==> Explained(w, p, kp.pk, signers, h(prev), prev.record.created, now, r.why))
              && (r.Ready? ==> Explained(w, p, kp.pk, signers, h(prev), prev.record.created, now, Assembled(r.evidence)))
    ensures r.Ready? ==>
              && prev.record.recovery.Some? && Recovered(h, prev, kp, now) == Ok(r.env)
              && r.evidence.newOwner == kp.pk && r.evidence.notBefore == WrapU64(now + prev.record.recovery.value.timelock)
    ensures r.Ready? && 1 <= prev.record.recovery.value.threshold <= |signers| && |signers| < TWO63 && h(r.env) != h(prev) ==>
              forall m: Store.Entries, key, t: Int64, c: Store.Circumstance ::
                key in m && m[key] == prev && Store.Alive(prev, t) && c.signing == w && c.evidence == Some(r.evidence) ==>
                Store.Decide(h, m, key, r.env, t, c).Installed?
  {
    hide Recovered, SelfCheckFails, Makeable, Store.Decide, Accepts;
    if prev.record.recovery.None? {
      return NoRecord(NoPolicy);
    }
    var p := prev.record.recovery.value;
    var a := Assemble(w, p, kp.pk, signers, h(prev), prev.record.created, now);
    if !a.Assembled? {
      return NoEvidence(a);
    }
    var env := Recovered(h, prev, kp, now);
    RecoveredIff(h, prev, kp, now);
    if !env.Ok? {
      return NoRecord(env);
    }
    r := Ready(a.ev, env.env);
    if 1 <= p.threshold <= |signers| && |signers| < TWO63 && h(env.env) != h(prev) {
      EvidenceEverywhere(w, h, prev, kp, now, env.env, a.ev);
    }
  }

  lemma RecoveredIff(h: EnvelopeHash, prev: Envelope, kp: Signer, now: Uint64)
    requires prev.record.recovery.Some?
    ensures Recovered(h, prev, kp, now).Ok? <==> Makeable(prev.record, kp.pk, now)
    ensures Recovered(h, prev, kp, now).Ok? || Recovered(h, prev, kp, now).BadRecord?
  {
    hide RecoveredExpiry, DefaultTtls, KeepsExpiry;
    LinkMadeIff(h, prev, ByRecovery(kp, now));
  }

  /** Accepted evidence installs the record in every store that holds the predecessor alive. */
  lemma EvidenceEverywhere(w: Signing, h: EnvelopeHash, prev: Envelope, kp: Signer, now: Uint64, next: Envelope, ev: Evidence)
    requires prev.record.recovery.Some? && Recovered(h, prev, kp, now) == Ok(next) && h(next) != h(prev) && ev.newOwner == kp.pk
    requires Accepts(w, prev.record.recovery.value, ev, h(prev), prev.record.created, ev.notBefore)
    ensures forall m: Store.Entries, key, t: Int64, c: Store.Circumstance ::
              key in m && m[key] == prev && Store.Alive(prev, t) && c.signing == w && c.evidence == Some(ev) ==>
              Store.Decide(h, m, key, next, t, c).Installed?
  {
    hide Recovered, Accepts, Store.Against;
    forall m: Store.Entries, key, t: Int64, c: Store.Circumstance
      | key in m && m[key] == prev && Store.Alive(prev, t) && c.signing == w && c.evidence == Some(ev)
      ensures Store.Decide(h, m, key, next, t, c).Installed?
    {
      EvidenceInstalls(h, prev, kp, now, next, c);
    }
  }

  lemma EvidenceInstalls(h: EnvelopeHash, prev: Envelope, kp: Signer, now: Uint64, next: Envelope, c: Store.Circumstance)
    requires prev.record.recovery.Some? && Recovered(h, prev, kp, now) == Ok(next) && h(next) != h(prev)
    requires c.evidence.Some? && c.evidence.value.newOwner == kp.pk
    requires Accepts(c.signing, prev.record.recovery.value, c.evidence.value, h(prev), prev.record.created, c.evidence.value.notBefore)
    ensures Store.Against(h, prev, next, c).Installed?
  {
    hide Recovered, Signers;
    assert Follow(h, prev, ByRecovery(kp, now)) == Ok(next);
    LinkStep(h, prev, ByRecovery(kp, now), next);
  }
}
