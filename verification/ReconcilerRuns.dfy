/** What the reconciler keeps over whole runs: sequences, renewals, and the lease check. */
module ReconcilerRuns {
  import opened Bytes
  import opened Records
  import opened Store
  import opened Reconcilers

  // ----- what the scan renews -------------------------------------------------------------------

  /** This renewal is of a listed live record, own, not revoked, and due; it is its successor. */
  ghost predicate Legal(w: World, owners: Keychain, items: seq<Item>, now: Int64, r: Renewal) {
    && (exists i :: 0 <= i < |items| && items[i].env == r.prev)
    && !r.prev.record.revoked && r.prev.signer in owners
    && ShouldRenew(now, Wrap64(r.prev.record.created), Wrap64(r.prev.record.expires))
    && Renew(w, r.prev, owners[r.prev.signer], now) == Some(r.renewed)
    && StorageKeys(w, r.renewed) == Some(r.keys)
  }

  ghost predicate OncePerIdentity(log: seq<Renewal>) {
    forall i, j :: 0 <= i < j < |log| ==> Identity(log[i].prev) != Identity(log[j].prev)
  }

  lemma ScanNext(w: World, owners: Keychain, m: Entries, items: seq<Item>, x: Item, now: Int64, u: Surroundings)
    ensures ScanAll(w, owners, m, items + [x], now, u) == Visit(w, owners, ScanAll(w, owners, m, items, now, u), x.env, now, u)
  {
    hide Visit;
    assert (items + [x])[..|items|] == items;
  }

  lemma CandidateLegal(w: World, owners: Keychain, items: seq<Item>, s: Scan, x: Item, now: Int64)
    requires Candidate(w, owners, s, x.env, now).Some?
    ensures Legal(w, owners, items + [x], now, Candidate(w, owners, s, x.env, now).value)
    ensures Identity(x.env) !in s.seen && Candidate(w, owners, s, x.env, now).value.prev == x.env
  {
    hide ShouldRenew, Renew;
    assert (items + [x])[|items|] == x;
  }

  lemma LegalLonger(w: World, owners: Keychain, items: seq<Item>, x: Item, now: Int64, r: Renewal)
    requires Legal(w, owners, items, now, r)
    ensures Legal(w, owners, items + [x], now, r)
  {
    hide ShouldRenew, Renew;
    var i :| 0 <= i < |items| && items[i].env == r.prev;
    assert (items + [x])[i] == items[i];
  }

  /** How one visit extends the scan. */
  lemma VisitCases(w: World, owners: Keychain, s: Scan, e: Envelope, now: Int64, u: Surroundings)
    ensures
      var v := Visit(w, owners, s, e, now, u);
      var c := Candidate(w, owners, s, e, now);
      && s.seen <= v.seen
      && if c.Some? && u.publish(s.attempts) then
           && v.log == s.log + [c.value] && Identity(e) in v.seen
           && v.entries == PutAll(w, s.entries, c.value.keys, c.value.renewed, now, u, |s.log|)
         else v.log == s.log && v.entries == s.entries
  {
    hide ShouldRenew, Renew, PutAll;
  }

  /** Each renewal is legal, and an identity is renewed at most once a tick. */
  lemma {:induction false} ScanLegal(w: World, owners: Keychain, m: Entries, items: seq<Item>, now: Int64, u: Surroundings)
    ensures
      var s := ScanAll(w, owners, m, items, now, u);
      && OncePerIdentity(s.log)
      && forall i :: 0 <= i < |s.log| ==> Legal(w, owners, items, now, s.log[i]) && Identity(s.log[i].prev) in s.seen
  {
    hide Visit, Candidate, Legal, PutAll;
    if items != [] {
      var rest := items[..|items| - 1];
      var x := items[|items| - 1];
      assert items == rest + [x];
      ScanLegal(w, owners, m, rest, now, u);
      ScanNext(w, owners, m, rest, x, now, u);
      var s := ScanAll(w, owners, m, rest, now, u);
      VisitCases(w, owners, s, x.env, now, u);
      forall i | 0 <= i < |s.log| ensures Legal(w, owners, items, now, s.log[i]) {
        LegalLonger(w, owners, rest, x, now, s.log[i]);
      }
      if Candidate(w, owners, s, x.env, now).Some? {
        CandidateLegal(w, owners, rest, s, x, now);
      }
    }
  }

  /** The scan would renew this record: own, not revoked, due, signable and storable. */
  ghost predicate Renewable(w: World, owners: Keychain, now: Int64, r: Renewal) {
    && !r.prev.record.revoked && r.prev.signer in owners
    && ShouldRenew(now, Wrap64(r.prev.record.created), Wrap64(r.prev.record.expires))
    && Renew(w, r.prev, owners[r.prev.signer], now) == Some(r.renewed)
    && StorageKeys(w, r.renewed) == Some(r.keys)
  }

  lemma {:induction false} SeenIsOwn(w: World, owners: Keychain, m: Entries, items: seq<Item>, now: Int64, u: Surroundings, id: (ByteString, ByteString))
    ensures id in ScanAll(w, owners, m, items, now, u).seen ==>
              exists i :: 0 <= i < |items| && Identity(items[i].env) == id && !items[i].env.record.revoked
  {
    hide Candidate, PutAll;
    if items != [] {
      var rest := items[..|items| - 1];
      assert items == rest + [items[|items| - 1]];
      SeenIsOwn(w, owners, m, rest, now, u, id);
      if id in ScanAll(w, owners, m, rest, now, u).seen {
        var i :| 0 <= i < |rest| && Identity(rest[i].env) == id && !rest[i].env.record.revoked;
        assert items[i] == rest[i];
      }
    }
  }

  /** Nothing due is skipped: the first listed record of a signer and name that is not revoked is renewed if its publishing works. */
  lemma {:induction false} DueIsRenewed(w: World, owners: Keychain, m: Entries, items: seq<Item>, now: Int64, u: Surroundings, i: nat, r: Renewal)
    requires i < |items| && items[i].env == r.prev && Renewable(w, owners, now, r)
    requires u.publish(ScanAll(w, owners, m, items[..i], now, u).attempts)
    requires forall j :: 0 <= j < i && !items[j].env.record.revoked ==>
               items[j].env.signer != r.prev.signer || items[j].env.record.name != r.prev.record.name
    ensures r in ScanAll(w, owners, m, items, now, u).log
  {
    hide Visit, Candidate, PutAll, Renewable;
    var rest := items[..|items| - 1];
    var x := items[|items| - 1];
    assert items == rest + [x];
    var s := ScanAll(w, owners, m, rest, now, u);
    ScanNext(w, owners, m, rest, x, now, u);
    VisitCases(w, owners, s, x.env, now, u);
    if i < |rest| {
      assert rest[..i] == items[..i];
      DueIsRenewed(w, owners, m, rest, now, u, i, r);
    } else {
      assert rest == items[..i];
      assert forall j :: 0 <= j < |rest| ==> rest[j] == items[j];
      SeenIsOwn(w, owners, m, rest, now, u, Identity(r.prev));
      CandidateFound(w, owners, s, now, r);
    }
  }

  /** The identities a scan handles: signer and name of every listed own record that is not revoked. */
  ghost function Handled(owners: Keychain, items: seq<Item>): set<(ByteString, ByteString)> {
    set x | x in items && !x.env.record.revoked && x.env.signer in owners :: (x.env.signer, x.env.record.name)
  }

  /** One publish attempt at most for each of them, whatever comes of it. */
  lemma {:induction false} AttemptedOnce(w: World, owners: Keychain, m: Entries, items: seq<Item>, now: Int64, u: Surroundings)
    ensures
      var s := ScanAll(w, owners, m, items, now, u);
      s.seen == Handled(owners, items) && |s.log| <= s.attempts <= |s.seen|
  {
    hide Visit, Handled;
    if items != [] {
      var rest, x := items[..|items| - 1], items[|items| - 1];
      assert items == rest + [x];
      AttemptedOnce(w, owners, m, rest, now, u);
      ScanNext(w, owners, m, rest, x, now, u);
      HandledNext(owners, rest, x);
      AttemptStep(w, owners, ScanAll(w, owners, m, rest, now, u), x.env, now, u);
    } else {
      HandledNone(owners);
    }
  }

  lemma AttemptStep(w: World, owners: Keychain, s: Scan, e: Envelope, now: Int64, u: Surroundings)
    requires |s.log| <= s.attempts <= |s.seen|
    ensures
      var v := Visit(w, owners, s, e, now, u);
      && v.seen == s.seen + (if e.record.revoked || e.signer !in owners then {} else {Identity(e)})
      && |v.log| <= v.attempts <= |v.seen|
  {
    hide Candidate, PutAll;
    if Candidate(w, owners, s, e, now).Some? {
      OnlyUnseen(w, owners, s, e, now);
    } else if Identity(e) in s.seen {
      assert s.seen + {Identity(e)} == s.seen;
    }
  }

  lemma HandledNone(owners: Keychain)
    ensures Handled(owners, []) == {}
  {
  }

  lemma HandledNext(owners: Keychain, items: seq<Item>, x: Item)
    ensures Handled(owners, items + [x]) ==
            Handled(owners, items) + if x.env.record.revoked || x.env.signer !in owners then {} else {Identity(x.env)}
  {
  }

  lemma OnlyUnseen(w: World, owners: Keychain, s: Scan, e: Envelope, now: Int64)
    requires Candidate(w, owners, s, e, now).Some?
    ensures Identity(e) !in s.seen && !e.record.revoked && e.signer in owners
  {
    hide ShouldRenew, Renew;
  }

  /** What the scan renews of these: the same record, renewed. */
  ghost predicate Expiring(w: World, owners: Keychain, now: Int64, e: Envelope) {
    exists r: Renewal :: r.prev == e && Renewable(w, owners, now, r)
  }

  /**
    If publishing works, a name whose live records in the store, revoked ones aside, can all be
    renewed and are due gets a renewal of one of them in this tick.
   */
  lemma NothingDueIsLeft(w: World, owners: Keychain, m: Entries, items: seq<Item>, now: Int64, u: Surroundings, signer: ByteString, name: ByteString)
    requires Listed(m, now, items) && forall n :: u.publish(n)
    requires exists k :: Bears(m, k, now, signer, name)
    requires forall k :: Bears(m, k, now, signer, name) ==> Expiring(w, owners, now, m[k])
    ensures exists r :: r in ScanAll(w, owners, m, items, now, u).log && r.prev.signer == signer && r.prev.record.name == name
  {
    hide Renewable, ScanAll, Alive;
    var k :| Bears(m, k, now, signer, name);
    assert Item(k, m[k]) in items;
    var at :| 0 <= at < |items| && items[at] == Item(k, m[k]);
    var i := FirstBearing(items, signer, name, at);
    assert Bears(m, items[i].key, now, signer, name);
    var r: Renewal :| r.prev == items[i].env && Renewable(w, owners, now, r);
    DueIsRenewed(w, owners, m, items, now, u, i, r);
  }

  /** This key holds a live record of that signer and name that is not revoked. */
  ghost predicate Bears(m: Entries, k: Key, now: Int64, signer: ByteString, name: ByteString) {
    k in m && Alive(m[k], now) && !m[k].record.revoked && m[k].signer == signer && m[k].record.name == name
  }

  lemma {:induction false} FirstBearing(items: seq<Item>, signer: ByteString, name: ByteString, at: nat) returns (i: nat)
    requires at < |items| && !items[at].env.record.revoked && items[at].env.signer == signer && items[at].env.record.name == name
    ensures i <= at && !items[i].env.record.revoked && items[i].env.signer == signer && items[i].env.record.name == name
    ensures forall j :: 0 <= j < i && !items[j].env.record.revoked ==> items[j].env.signer != signer || items[j].env.record.name != name
  {
    if j :| 0 <= j < at && !items[j].env.record.revoked && items[j].env.signer == signer && items[j].env.record.name == name {
      i := FirstBearing(items, signer, name, j);
    } else {
      i := at;
    }
  }

  lemma CandidateFound(w: World, owners: Keychain, s: Scan, now: Int64, r: Renewal)
    requires Renewable(w, owners, now, r) && Identity(r.prev) !in s.seen
    ensures Candidate(w, owners, s, r.prev, now) == Some(r)
  {
    hide ShouldRenew, Renew;
  }

  // ----- where a renewal lands ------------------------------------------------------------------

  /**
    A renewal may take this key: the slot is free, holds that envelope already, or holds one it
    beats whose owner signed the renewal (or a parent record consents).
   */
  predicate Takes(w: World, m: Entries, k: Key, env: Envelope, now: Int64, c: Circumstance) {
    || k !in m
    || !Alive(m[k], now)
    || w.hash(env) == w.hash(m[k])
    || (Wins(w.hash, env, m[k]) && (env.signer == m[k].record.owner || c.parent))
  }

  lemma TakesIsDecided(w: World, m: Entries, k: Key, env: Envelope, now: Int64, c: Circumstance)
    requires env.record.prevHash == []
    ensures Takes(w, m, k, env, now, c) <==> !Decide(w.hash, m, k, env, now, c).Refused?
  {
    hide Wins, Alive, ChainLink, RecoveryAcceptable;
  }

  /** None of the first `n` local puts pushes this key out of the byte budget. */
  ghost predicate Spared(k: Key, u: Surroundings, at: nat, n: nat) {
    forall i: nat :: i < n ==> k !in u.put(at, i).victims
  }

  /** A put at another key leaves a live entry, or an absent one, as it is. */
  lemma PutElsewhere(h: EnvelopeHash, m: Entries, key: Key, env: Envelope, now: Int64, c: Circumstance, k: Key)
    requires k != key && k !in c.victims
    ensures
      var m' := Store.Put(h, m, key, env, now, c);
      && (k in m && Alive(m[k], now) ==> k in m' && m'[k] == m[k])
      && (k in m' ==> k in m && m'[k] == m[k])
  {
    hide Against, Alive;
  }

  lemma PutHere(h: EnvelopeHash, m: Entries, key: Key, env: Envelope, now: Int64, c: Circumstance)
    requires Alive(env, now)
    ensures
      var m' := Store.Put(h, m, key, env, now, c);
      match Decide(h, m, key, env, now, c)
      case Installed => key in m' && m'[key] == env
      case Already => key in m' && m' == m && h(m[key]) == h(env)
      case Refused => key in m' && m' == m && h(m[key]) != h(env)
  {
    hide Wins, ChainLink, Alive, RecoveryAcceptable;
  }

  /** Puts before and after leave the slot of `k` to its own put. */
  lemma {:induction false} PutAllElsewhere(w: World, m: Entries, keys: seq<Key>, env: Envelope, now: Int64, u: Surroundings, at: nat, k: Key)
    requires k !in keys && Spared(k, u, at, |keys|)
    ensures
      var m' := PutAll(w, m, keys, env, now, u, at);
      && (k in m && Alive(m[k], now) ==> k in m' && m'[k] == m[k])
      && (k in m' ==> k in m && m'[k] == m[k])
  {
    hide Store.Put, Alive;
    if keys != [] {
      var n := |keys| - 1;
      PutAllElsewhere(w, m, keys[..n], env, now, u, at, k);
      PutElsewhere(w.hash, PutAll(w, m, keys[..n], env, now, u, at), keys[n], env, now, u.put(at, n), k);
    }
  }

  /**
    After the local puts of a renewal a key of the name holds it exactly when the renewal may take
    that key; in particular a live record of another owner stays unless a parent record consents.
   */
  lemma {:induction false} RaisedIff(w: World, m: Entries, keys: seq<Key>, env: Envelope, now: Int64, u: Surroundings, at: nat, j: nat)
    requires env.record.prevHash == [] && Alive(env, now) && j < |keys| && Spared(keys[j], u, at, |keys|)
    requires forall a, b :: 0 <= a < b < |keys| ==> keys[a] != keys[b]
    requires keys[j] in m && w.hash(m[keys[j]]) == w.hash(env) ==> m[keys[j]] == env
    ensures
      var m', k := PutAll(w, m, keys, env, now, u, at), keys[j];
      && k in m'
      && (m'[k] == env <==>
            || k !in m || !Alive(m[k], now) || w.hash(env) == w.hash(m[k])
            || (Wins(w.hash, env, m[k]) && (env.signer == m[k].record.owner || u.put(at, j).parent)))
      && (m'[k] != env ==> k in m && m'[k] == m[k])
  {
    hide Wins, Alive;
    RaisedWhenTaken(w, m, keys, env, now, u, at, j);
  }

  lemma {:induction false} RaisedWhenTaken(w: World, m: Entries, keys: seq<Key>, env: Envelope, now: Int64, u: Surroundings, at: nat, j: nat)
    requires env.record.prevHash == [] && Alive(env, now) && j < |keys| && Spared(keys[j], u, at, |keys|)
    requires forall a, b :: 0 <= a < b < |keys| ==> keys[a] != keys[b]
    requires keys[j] in m && w.hash(m[keys[j]]) == w.hash(env) ==> m[keys[j]] == env
    ensures
      var m', k := PutAll(w, m, keys, env, now, u, at), keys[j];
      && k in m'
      && (m'[k] == env <==> Takes(w, m, k, env, now, u.put(at, j)))
      && (m'[k] != env ==> k in m && m'[k] == m[k] && Alive(m[k], now))
  {
    hide Store.Put, Alive, Against, Takes;
    var n := |keys| - 1;
    var k := keys[j];
    var before := PutAll(w, m, keys[..n], env, now, u, at);
    assert k !in u.put(at, n).victims;
    if j == n {
      PutAllElsewhere(w, m, keys[..n], env, now, u, at, k);
      SameSlot(w.hash, m, before, k, env, now, u.put(at, n));
      PutHere(w.hash, before, k, env, now, u.put(at, n));
      TakesIsDecided(w, m, k, env, now, u.put(at, n));
      AlreadyMeansHash(w.hash, m, k, env, now, u.put(at, n));
    } else {
      assert keys[..n][j] == k;
      RaisedWhenTaken(w, m, keys[..n], env, now, u, at, j);
      StillThere(w, before, k, keys[n], env, now, u.put(at, n), m);
    }
  }

  lemma AlreadyMeansHash(h: EnvelopeHash, m: Entries, k: Key, env: Envelope, now: Int64, c: Circumstance)
    ensures Decide(h, m, k, env, now, c).Already? ==> k in m && h(m[k]) == h(env)
    ensures Decide(h, m, k, env, now, c).Refused? ==> k in m && h(m[k]) != h(env) && Alive(m[k], now)
  {
    hide Wins, Alive, ChainLink, RecoveryAcceptable;
  }

  /** A renewal reaches every key that held its predecessor, one sequence up. */
  lemma RenewalRaisesItsKeys(w: World, m: Entries, keys: seq<Key>, prev: Envelope, kp: Signer, now: Int64, u: Surroundings, at: nat, j: nat)
    requires Renew(w, prev, kp, now).Some? && Alive(Renew(w, prev, kp, now).value, now)
    requires j < |keys| && Spared(keys[j], u, at, |keys|) && keys[j] in m && m[keys[j]] == prev
    requires forall a, b :: 0 <= a < b < |keys| ==> keys[a] != keys[b]
    requires w.hash(prev) != w.hash(Renew(w, prev, kp, now).value)
    ensures
      var renewed := Renew(w, prev, kp, now).value;
      var m' := PutAll(w, m, keys, renewed, now, u, at);
      keys[j] in m' && m'[keys[j]] == renewed && m'[keys[j]].record.sequence == m[keys[j]].record.sequence + 1
  {
    hide Renew, Alive, Wins, PutAll;
    RenewIsNext(w, prev, kp, now);
    RaisedIff(w, m, keys, Renew(w, prev, kp, now).value, now, u, at, j);
  }

  lemma SameSlot(h: EnvelopeHash, m: Entries, m': Entries, k: Key, env: Envelope, now: Int64, c: Circumstance)
    requires k in m && Alive(m[k], now) ==> k in m' && m'[k] == m[k]
    requires k in m' ==> k in m && m'[k] == m[k]
    ensures Decide(h, m', k, env, now, c) == Decide(h, m, k, env, now, c)
    ensures Decide(h, m, k, env, now, c).Refused? ==> k in m && k in m' && m'[k] == m[k]
  {
    hide Against, Alive;
  }

  /** An entry that is live, or is the renewal itself, survives the next put. */
  lemma StillThere(w: World, m: Entries, k: Key, key: Key, env: Envelope, now: Int64, c: Circumstance, start: Entries)
    requires k != key && k !in c.victims && k in m && (m[k] == env || (k in start && m[k] == start[k] && Alive(start[k], now)))
    requires Alive(env, now)
    ensures
      var m' := Store.Put(w.hash, m, key, env, now, c);
      k in m' && m'[k] == m[k]
  {
    hide Against, Alive, Store.Put;
    PutElsewhere(w.hash, m, key, env, now, c, k);
  }
}
