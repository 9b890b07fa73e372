/**
  The local envelope store: one winning envelope per key. Whether a live parent record authorises
  a newcomer, the recovery evidence at hand and the least-recently-used victims of the byte budget
  are inputs.
 */
module Store {
  import opened Bytes
  import opened Records
  import opened Recovery

  const GRACE := 86400

  type Key = ByteString
  type Entries = map<Key, Envelope>

  /** Not yet past expiry plus grace, in 64-bit arithmetic. */
  predicate Alive(e: Envelope, now: Int64) { now < Wrap64(Wrap64(e.record.expires) + GRACE) }

  /** Circumstances of a put: consent of a parent record, the evidence that came along or was retained, victims. */
  datatype Circumstance = Circumstance(parent: bool, signing: Signing, evidence: Option<Evidence>, victims: set<Key>)

  /**
    A recovery hand-off the store takes: the new key owns and signs the record, the evidence names
    it, and a quorum of the incumbent's policy signed. The time lock is left to the resolver.
   */
  predicate RecoveryAcceptable(h: EnvelopeHash, env: Envelope, cur: Envelope, c: Circumstance) {
    && c.evidence.Some? && cur.record.recovery.Some?
    && env.signer == env.record.owner && c.evidence.value.newOwner == env.signer
    && Accepts(c.signing, cur.record.recovery.value, c.evidence.value, h(cur), cur.record.created, c.evidence.value.notBefore)
  }

  datatype Decision = Refused | Already | Installed

  /** The winner rule against a live incumbent. */
  function Against(h: EnvelopeHash, cur: Envelope, env: Envelope, c: Circumstance): Decision {
    if h(env) == h(cur) then Already
    else if !Wins(h, env, cur) then Refused
    else if env.record.prevHash != [] && !ChainLink(h, env, cur) then Refused
    else if env.record.prevHash != [] && env.signer != cur.record.owner && !RecoveryAcceptable(h, env, cur, c) then Refused
    else if env.record.prevHash == [] && env.signer != cur.record.owner && !c.parent then Refused
    else Installed
  }

  function Decide(h: EnvelopeHash, m: Entries, key: Key, env: Envelope, now: Int64, c: Circumstance): Decision {
    if key in m && Alive(m[key], now) then Against(h, m[key], env, c) else Installed
  }

  /**
    The store takes an envelope exactly when its slot is free or lapsed by more than a day, or when
    it is a different envelope that is newer than the one there and comes with consent: of the
    owner there, of a parent if it asserts no predecessor, or of a recovery quorum over the
    predecessor it asserts, which must be the one there, at a lower sequence.
   */
  lemma TakenIff(h: EnvelopeHash, m: Entries, key: Key, env: Envelope, now: Int64, c: Circumstance)
    ensures Decide(h, m, key, env, now, c).Installed? <==>
            key in m && now < Wrap64(Wrap64(m[key].record.expires) + 86400) ==>
              var cur, r := m[key], env.record;
              && h(env) != h(cur) && Newer(h, env, cur)
              && (r.prevHash == [] ==> env.signer == cur.record.owner || c.parent)
              && (r.prevHash != [] ==>
                    && r.prevHash == h(cur) && r.sequence > cur.record.sequence
                    && (env.signer == cur.record.owner || Recovers(h, env, cur, c)))
  {
    hide Wins, Newer, Wrap64, Accepts, Authorised;
    if key in m {
      WinsIs(h, env, m[key]);
      RecoversIff(h, env, m[key], c);
    }
  }

  /** The new owner signs its own record, and a quorum of the incumbent's policy named it over the incumbent's hash. */
  ghost predicate Recovers(h: EnvelopeHash, env: Envelope, cur: Envelope, c: Circumstance) {
    && c.evidence.Some? && cur.record.recovery.Some? && env.signer == env.record.owner == c.evidence.value.newOwner
    && Authorised(c.signing, cur.record.recovery.value, c.evidence.value, h(cur), cur.record.created, c.evidence.value.notBefore)
  }

  lemma RecoversIff(h: EnvelopeHash, env: Envelope, cur: Envelope, c: Circumstance)
    ensures RecoveryAcceptable(h, env, cur, c) <==> Recovers(h, env, cur, c)
  {
    hide Accepts, Authorised;
    if c.evidence.Some? && cur.record.recovery.Some? {
      AcceptsIff(c.signing, cur.record.recovery.value, c.evidence.value, h(cur), cur.record.created, c.evidence.value.notBefore);
    }
  }

  /** After an installation dead entries and the victims go; the key just put is never a victim. */
  function Put(h: EnvelopeHash, m: Entries, key: Key, env: Envelope, now: Int64, c: Circumstance): Entries {
    if Decide(h, m, key, env, now, c).Installed? then
      map k | k in m[key := env] && Alive(m[key := env][k], now) && (k == key || k !in c.victims) :: m[key := env][k]
    else m
  }

  /** The newer one is the older one or beats it. */
  ghost predicate AtLeast(h: EnvelopeHash, newer: Envelope, older: Envelope) {
    newer == older || Wins(h, newer, older)
  }

  lemma PutNeverLowers(h: EnvelopeHash, m: Entries, key: Key, env: Envelope, now: Int64, c: Circumstance, k: Key)
    requires k in m && Alive(m[k], now) && k in Put(h, m, key, env, now, c)
    ensures AtLeast(h, Put(h, m, key, env, now, c)[k], m[k])
    ensures Put(h, m, key, env, now, c)[k] == m[k] || Newer(h, Put(h, m, key, env, now, c)[k], m[k])
  {
    hide Wins, Newer, ChainLink, RecoveryAcceptable;
    WinsIs(h, Put(h, m, key, env, now, c)[k], m[k]);
  }

  /** What a put leaves at a key: the newcomer, or what was there. */
  lemma PutOrigin(h: EnvelopeHash, m: Entries, key: Key, env: Envelope, now: Int64, c: Circumstance, k: Key)
    requires k in Put(h, m, key, env, now, c)
    ensures (k == key && Put(h, m, key, env, now, c)[k] == env) || (k in m && Put(h, m, key, env, now, c)[k] == m[k])
  {
    hide Against;
  }

  // ----- any history of one store ---------------------------------------------------------------

  datatype Step =
    | DoPut(key: Key, env: Envelope, now: Int64, c: Circumstance)
    | Drop(keys: set<Key>)

  function Next(h: EnvelopeHash, m: Entries, s: Step): Entries {
    match s
    case DoPut(key, env, now, c) => Put(h, m, key, env, now, c)
    case Drop(keys) => m - keys
  }

  ghost predicate IsHistory(h: EnvelopeHash, ms: seq<Entries>, steps: seq<Step>) {
    && |ms| == |steps| + 1
    && forall i :: 0 <= i < |steps| ==> ms[i + 1] == Next(h, ms[i], steps[i])
  }

  /** While a key stays occupied by live entries, (sequence, hash) never falls there. */
  lemma {:induction false} NeverFalls(h: EnvelopeHash, ms: seq<Entries>, steps: seq<Step>, k: Key)
    requires IsHistory(h, ms, steps) && forall i :: 0 <= i < |ms| ==> k in ms[i]
    requires forall i :: 0 <= i < |steps| && steps[i].DoPut? ==> Alive(ms[i][k], steps[i].now)
    ensures AtLeast(h, ms[|steps|][k], ms[0][k]) && ms[|steps|][k].record.sequence >= ms[0][k].record.sequence
    ensures ms[|steps|][k] == ms[0][k] || Newer(h, ms[|steps|][k], ms[0][k])
  {
    hide Put, Alive, Wins, BytesBefore;
    WinsIs(h, ms[|steps|][k], ms[0][k]);
    if steps != [] {
      var n := |steps| - 1;
      NeverFalls(h, ms[..|steps|], steps[..n], k);
      assert ms[n + 1] == Next(h, ms[n], steps[n]);
      if steps[n].DoPut? {
        PutNeverLowers(h, ms[n], steps[n].key, steps[n].env, steps[n].now, steps[n].c, k);
      }
      WinsIsStrictOrder(h, ms[n + 1][k], ms[n][k], ms[0][k]);
    }
  }

  // ----- convergence ----------------------------------------------------------------------------

  /** An ordinary update: the owner signs it and it asserts no predecessor. */
  predicate Plain(e: Envelope, pk: ByteString) {
    e.signer == pk && e.record.owner == pk && e.record.prevHash == []
  }

  /** Among these envelopes equal hashes mean equal envelopes. */
  ghost predicate NoCollision(h: EnvelopeHash, u: set<Envelope>) {
    forall a, b :: a in u && b in u && h(a) == h(b) ==> a == b
  }

  /** The slot holds nothing alive, or an update of this owner from `u`. */
  ghost predicate Open(m: Entries, key: Key, pk: ByteString, now: Int64, u: set<Envelope>) {
    key in m && Alive(m[key], now) ==> Plain(m[key], pk) && m[key] in u
  }

  /** The store after updates delivered one by one. */
  function Deliver(h: EnvelopeHash, m: Entries, key: Key, es: seq<Envelope>, now: Int64, c: Circumstance): Entries {
    if es == [] then m else Put(h, Deliver(h, m, key, es[..|es| - 1], now, c), key, es[|es| - 1], now, c)
  }

  /** Live updates that this owner signed and owns and that assert no predecessor. */
  ghost predicate Updates(es: seq<Envelope>, pk: ByteString, now: Int64, u: set<Envelope>) {
    forall e :: e in es ==> e.signer == e.record.owner == pk && e.record.prevHash == [] && Alive(e, now) && e in u
  }

  /** The envelopes in contention: those delivered, and a live one that was there. */
  ghost predicate Contends(m: Entries, key: Key, es: seq<Envelope>, now: Int64, e: Envelope) {
    e in es || (key in m && Alive(m[key], now) && e == m[key])
  }

  /** The slot holds a live update from `u` that contended and that nothing contending beats. */
  ghost predicate Best(h: EnvelopeHash, m: Entries, key: Key, es: seq<Envelope>, pk: ByteString, now: Int64, u: set<Envelope>, after: Entries) {
    && key in after && Alive(after[key], now) && Plain(after[key], pk) && after[key] in u
    && Contends(m, key, es, now, after[key])
    && forall e :: Contends(m, key, es, now, e) ==> AtLeast(h, after[key], e)
  }

  /** The better of two is at least both, and at least what either was. */
  lemma BetterOf(h: EnvelopeHash, u: set<Envelope>, cur: Envelope, e: Envelope, x: Envelope)
    requires NoCollision(h, u) && cur in u && e in u
    ensures
      var r := if Wins(h, e, cur) then e else cur;
      AtLeast(h, r, e) && AtLeast(h, r, cur) && (AtLeast(h, cur, x) ==> AtLeast(h, r, x))
  {
    hide Wins;
    WinsIsStrictOrder(h, e, cur, x);
    WinsIsStrictOrder(h, cur, e, x);
    SameHashSame(h, u, cur, e);
  }

  lemma DeliverOne(h: EnvelopeHash, m: Entries, key: Key, e: Envelope, pk: ByteString, now: Int64, c: Circumstance, u: set<Envelope>)
    requires NoCollision(h, u) && Open(m, key, pk, now, u) && Updates([e], pk, now, u)
    ensures Best(h, m, key, [e], pk, now, u, Put(h, m, key, e, now, c))
  {
    hide Put, Wins, Alive, NoCollision;
    assert e in [e];
    if key in m && Alive(m[key], now) {
      SameHashSame(h, u, m[key], e);
      BetterOf(h, u, m[key], e, e);
    }
    SlotAfter(h, m, key, e, pk, now, c);
  }

  lemma DeliverMore(h: EnvelopeHash, m: Entries, key: Key, es: seq<Envelope>, e: Envelope, pk: ByteString, now: Int64, c: Circumstance, u: set<Envelope>, before: Entries)
    requires NoCollision(h, u) && Best(h, m, key, es, pk, now, u, before) && Plain(e, pk) && Alive(e, now) && e in u
    ensures Best(h, m, key, es + [e], pk, now, u, Put(h, before, key, e, now, c))
  {
    hide Put, Wins, Alive, NoCollision, AtLeast;
    SameHashSame(h, u, before[key], e);
    SlotAfter(h, before, key, e, pk, now, c);
    var after := Put(h, before, key, e, now, c);
    forall x | Contends(m, key, es + [e], now, x) ensures AtLeast(h, after[key], x) {
      assert x == e || Contends(m, key, es, now, x);
      BetterOf(h, u, before[key], e, x);
    }
  }

  /** After any deliveries the slot holds the best of what contended. */
  lemma {:induction false} DeliverIsBest(h: EnvelopeHash, m: Entries, key: Key, es: seq<Envelope>, pk: ByteString, now: Int64, c: Circumstance, u: set<Envelope>)
    requires NoCollision(h, u) && Open(m, key, pk, now, u) && Updates(es, pk, now, u) && es != []
    ensures Best(h, m, key, es, pk, now, u, Deliver(h, m, key, es, now, c))
  {
    hide Put, Best, Alive, NoCollision, Open;
    var n := |es| - 1;
    assert es == es[..n] + [es[n]] && es[n] in es;
    assert forall x :: x in es[..n] ==> x in es;
    if n == 0 {
      assert es == [es[0]] && es[..0] == [];
      DeliverOne(h, m, key, es[0], pk, now, c, u);
    } else {
      DeliverIsBest(h, m, key, es[..n], pk, now, c, u);
      DeliverMore(h, m, key, es[..n], es[n], pk, now, c, u, Deliver(h, m, key, es[..n], now, c));
    }
  }

  /** It is the delivered update, or what was there, with the highest sequence, and among those the latest hash. */
  lemma DeliverIsNewest(h: EnvelopeHash, m: Entries, key: Key, es: seq<Envelope>, pk: ByteString, now: Int64, c: Circumstance, u: set<Envelope>)
    requires NoCollision(h, u) && Open(m, key, pk, now, u) && Updates(es, pk, now, u) && es != []
    ensures
      var after := Deliver(h, m, key, es, now, c);
      && key in after && (after[key] in es || (key in m && after[key] == m[key]))
      && (forall e :: e in es ==> after[key] == e || Newer(h, after[key], e))
      && (key in m && Alive(m[key], now) ==> after[key] == m[key] || Newer(h, after[key], m[key]))
  {
    hide Deliver, Wins, Newer, NoCollision, Open, Plain;
    DeliverIsBest(h, m, key, es, pk, now, c, u);
    var x := Deliver(h, m, key, es, now, c)[key];
    forall e ensures Wins(h, x, e) <==> Newer(h, x, e) {
      WinsIs(h, x, e);
    }
    assert forall e :: e in es ==> Contends(m, key, es, now, e);
    if key in m && Alive(m[key], now) {
      assert Contends(m, key, es, now, m[key]);
    }
  }

  lemma SameHashSame(h: EnvelopeHash, u: set<Envelope>, a: Envelope, b: Envelope)
    requires NoCollision(h, u) && a in u && b in u
    ensures h(a) == h(b) <==> a == b
  {
  }

  /** Two stores that get the same updates of an owner, in any order and however often, end with the same one. */
  lemma UpdatesConverge(h: EnvelopeHash, m: Entries, key: Key, es: seq<Envelope>, fs: seq<Envelope>, pk: ByteString, now: Int64, c: Circumstance, u: set<Envelope>)
    requires NoCollision(h, u) && Open(m, key, pk, now, u) && Updates(es, pk, now, u) && es != []
    requires forall e :: e in es <==> e in fs
    ensures
      var a, b := Deliver(h, m, key, es, now, c), Deliver(h, m, key, fs, now, c);
      key in a && key in b && a[key] == b[key]
  {
    hide Deliver, Wins, NoCollision;
    assert es[0] in fs;
    DeliverIsBest(h, m, key, es, pk, now, c, u);
    DeliverIsBest(h, m, key, fs, pk, now, c, u);
    var x, y := Deliver(h, m, key, es, now, c)[key], Deliver(h, m, key, fs, now, c)[key];
    assert Contends(m, key, fs, now, x) && Contends(m, key, es, now, y);
    WinsIsStrictOrder(h, x, y, x);
  }

  /** What an owner's update leaves in a slot it can contend for. */
  lemma SlotAfter(h: EnvelopeHash, m: Entries, key: Key, e: Envelope, pk: ByteString, now: Int64, c: Circumstance)
    requires Plain(e, pk) && Alive(e, now)
    requires key in m ==> !Alive(m[key], now) || (Plain(m[key], pk) && (h(m[key]) == h(e) ==> m[key] == e))
    ensures
      var m' := Put(h, m, key, e, now, c);
      && key in m'
      && m'[key] == if key in m && Alive(m[key], now) && !Wins(h, e, m[key]) then m[key] else e
  {
    hide Wins, Alive, ChainLink, RecoveryAcceptable;
    WinsIsStrictOrder(h, e, e, e);
  }
}
