/**
  The reconciler tick: the renewal scan that re-signs own records nearing expiry, and the lease
  check that compares own records with the network. Publishing outcomes, network replies and the
  clock are inputs; the network may lose, keep or accept anything.
 */
module Reconcilers {
  import opened Bytes
  import opened Records
  import opened Store

  const DEFAULT_TTL := 86400
  const VERIFY_INTERVAL := 3600

  /** What the daemon is configured with: hashing, storage keys, the apex binding rule. */
  datatype World = World(
    hash: EnvelopeHash,
    keysFor: (ByteString, Option<ByteString>) -> Option<seq<Key>>,
    bind: Record -> seq<RR>)

  function StorageKeys(w: World, e: Envelope): Option<seq<Key>> {
    w.keysFor(e.record.name, e.record.claim)
  }

  /** Keychain: public key to signing pair. */
  type Keychain = map<ByteString, Signer>

  ghost predicate Sound(owners: Keychain) { forall pk :: pk in owners ==> owners[pk].pk == pk }

  // ----- renewal of one envelope ----------------------------------------------------------------

  /** In the last fifth of its own lifetime, or expired. */
  predicate ShouldRenew(now: Int64, created: Int64, expires: Int64) {
    var remaining := Wrap64(expires - now);
    var lifetime := Wrap64(expires - created);
    remaining <= 0 || remaining < (if lifetime <= 0 then DEFAULT_TTL else lifetime) / 5
  }

  /**
    Due: expired, or fewer than a fifth of the lifetime's seconds left, where distances are 64-bit
    signed and a lifetime that is not positive counts as a day.
   */
  lemma DueIff(now: Int64, created: Int64, expires: Int64)
    ensures
      var left, life := Wrap64(expires - now), Wrap64(expires - created);
      ShouldRenew(now, created, expires) <==> left <= 0 || 5 * (left + 1) <= if life <= 0 then 86400 else life
    ensures -TWO63 <= expires - now < TWO63 && 0 < expires - created < TWO63 ==>
      (ShouldRenew(now, created, expires) <==> expires <= now || 5 * (expires - now + 1) <= expires - created)
  {
  }

  /** A record that is due stays due as time goes on, as long as distances fit 64 bits. */
  lemma DueStays(now: Int64, later: Int64, created: Int64, expires: Int64)
    requires ShouldRenew(now, created, expires) && now <= later
    requires -TWO63 <= expires - later && expires - now < TWO63
    ensures ShouldRenew(later, created, expires)
  {
  }

  function Renew(w: World, prev: Envelope, kp: Signer, now: Int64): Option<Envelope> {
    if kp.pk != prev.record.owner || prev.record.revoked then None
    else
      match NewRecord(prev.record.name, prev.record.owner, WrapU64(prev.record.sequence + 1), WrapU64(now), WrapU64(now + DEFAULT_TTL))
      case None => None
      case Some(r) =>
        var full := r.(rrset := prev.record.rrset, delegation := prev.record.delegation,
                       recovery := prev.record.recovery, claim := prev.record.claim);
        Some(Sign(full.(rrset := w.bind(full)), kp))
  }

  /** The record a renewal signs: the old one, the next sequence, a new day, no predecessor; its set as the binding rule has it. */
  ghost function NextLease(w: World, r: Record, now: Int64): Record
    requires r.sequence + 1 < TWO64
  {
    var next := r.(sequence := r.sequence + 1, created := WrapU64(now), expires := WrapU64(now + 86400), prevHash := []);
    next.(rrset := w.bind(next))
  }

  /** A renewal is made exactly for its owner, of a record that is not revoked and stays valid one sequence later. */
  lemma RenewIff(w: World, prev: Envelope, kp: Signer, now: Int64)
    ensures Renew(w, prev, kp, now).Some? <==>
            && kp.pk == prev.record.owner && !prev.record.revoked && prev.record.name != [] && |prev.record.owner| == 32
            && prev.record.sequence + 1 < TWO64 && WrapU64(now) <= WrapU64(now + 86400)
  {
    NextSequence(prev.record.sequence);
  }

  lemma NextSequence(n: Uint64)
    ensures WrapU64(n + 1) == if n + 1 < TWO64 then n + 1 else 0
  {
  }

  /** A renewal is the same lease, every field of it, one sequence later, signed by its owner, at the same keys. */
  lemma RenewIsNext(w: World, prev: Envelope, kp: Signer, now: Int64)
    requires Renew(w, prev, kp, now).Some?
    ensures prev.record.sequence + 1 < TWO64 && kp.pk == prev.record.owner && !prev.record.revoked
    ensures
      var renewed := Renew(w, prev, kp, now).value;
      && renewed.record == NextLease(w, prev.record, now)
      && renewed.signer == prev.record.owner && renewed.sig == kp.sign(renewed.record)
      && StorageKeys(w, renewed) == StorageKeys(w, prev)
      && Wins(w.hash, renewed, prev)
  {
    hide WrapU64;
    NextSequence(prev.record.sequence);
  }

  // ----- the renewal scan -----------------------------------------------------------------------

  /** A live entry of the store, as listed. */
  datatype Item = Item(key: Key, env: Envelope)

  datatype Renewal = Renewal(prev: Envelope, renewed: Envelope, keys: seq<Key>)

  /** Inputs of a scan: did publish attempt i succeed, and the circumstances of each local put. */
  datatype Surroundings = Surroundings(publish: nat -> bool, put: (nat, nat) -> Circumstance)

  datatype Scan = Scan(seen: set<(ByteString, ByteString)>, attempts: nat, log: seq<Renewal>, entries: Entries)

  function Identity(e: Envelope): (ByteString, ByteString) { (e.signer, e.record.name) }

  /** Local puts of one renewed envelope, key by key. */
  function PutAll(w: World, m: Entries, keys: seq<Key>, env: Envelope, now: Int64, u: Surroundings, at: nat): Entries {
    if keys == [] then m
    else
      var n := |keys| - 1;
      Store.Put(w.hash, PutAll(w, m, keys[..n], env, now, u, at), keys[n], env, now, u.put(at, n))
  }

  /** Renewable: own, not revoked, first of its identity this tick, due, and signable. */
  function Candidate(w: World, owners: Keychain, s: Scan, e: Envelope, now: Int64): Option<Renewal> {
    if e.record.revoked || e.signer !in owners || Identity(e) in s.seen then None
    else if !ShouldRenew(now, Wrap64(e.record.created), Wrap64(e.record.expires)) then None
    else
      match Renew(w, e, owners[e.signer], now)
      case None => None
      case Some(renewed) =>
        match StorageKeys(w, renewed)
        case None => None
        case Some(keys) => Some(Renewal(e, renewed, keys))
  }

  function Visit(w: World, owners: Keychain, s: Scan, e: Envelope, now: Int64, u: Surroundings): Scan {
    var seen := if e.record.revoked || e.signer !in owners then s.seen else s.seen + {Identity(e)};
    match Candidate(w, owners, s, e, now)
    case None => s.(seen := seen)
    case Some(r) =>
      if u.publish(s.attempts) then
        Scan(seen, s.attempts + 1, s.log + [r], PutAll(w, s.entries, r.keys, r.renewed, now, u, |s.log|))
      else
        s.(seen := seen, attempts := s.attempts + 1)
  }

  function ScanAll(w: World, owners: Keychain, m: Entries, items: seq<Item>, now: Int64, u: Surroundings): Scan {
    if items == [] then Scan({}, 0, [], m)
    else Visit(w, owners, ScanAll(w, owners, m, items[..|items| - 1], now, u), items[|items| - 1].env, now, u)
  }

  /** The live entries, each once, in ascending key order. */
  ghost predicate Listed(m: Entries, now: Int64, items: seq<Item>) {
    && (forall i :: 0 <= i < |items| ==> items[i].key in m && m[items[i].key] == items[i].env && Alive(items[i].env, now))
    && (forall k :: k in m && Alive(m[k], now) ==> Item(k, m[k]) in items)
    && (forall i, j :: 0 <= i < j < |items| ==> Above(items[j].key, items[i].key))
  }

  // ----- the lease check ------------------------------------------------------------------------

  /** What a network walk comes back with, the local store excluded. */
  datatype Reply = Inconclusive | Failed | Missing | Found(env: Envelope)

  datatype Published = Published(keys: seq<Key>, env: Envelope)

  type Throttle = map<(ByteString, nat), int>

  /** One question put to the network: for which record and which of its keys, the answer, and the clock then. */
  datatype Ask = Ask(env: Envelope, index: nat, key: Key, reply: Reply, at: int)

  datatype Check = Check(throttle: Throttle, published: seq<Published>, asks: seq<Ask>, visits: nat)

  predicate Throttled(t: Throttle, n: (ByteString, nat), now: int) {
    n in t && now - t[n] < VERIFY_INTERVAL
  }

  /** One storage key of one own envelope against the network. */
  function CheckAt(w: World, s: Check, e: Envelope, keys: seq<Key>, i: nat, net: (nat, Key) -> Reply, clock: nat -> int): Check
    requires i < |keys|
  {
    var n := (e.record.name, i);
    var now := clock(s.visits);
    if Throttled(s.throttle, n, now) then s.(visits := s.visits + 1)
    else
      var reply := net(s.visits, keys[i]);
      var asked := s.(asks := s.asks + [Ask(e, i, keys[i], reply, now)], visits := s.visits + 1);
      match reply
      case Inconclusive => asked
      case Found(x) =>
        if w.hash(x) == w.hash(e) then asked.(throttle := s.throttle[n := now])
        else asked.(published := s.published + [Published(keys, e)])
      case _ => asked.(published := s.published + [Published(keys, e)])
  }

  function CheckKeys(w: World, s: Check, e: Envelope, keys: seq<Key>, n: nat, net: (nat, Key) -> Reply, clock: nat -> int): Check
    requires n <= |keys|
  {
    if n == 0 then s else CheckAt(w, CheckKeys(w, s, e, keys, n - 1, net, clock), e, keys, n - 1, net, clock)
  }

  predicate Mine(owners: Keychain, e: Envelope) { !e.record.revoked && e.signer in owners }

  function CheckAll(w: World, owners: Keychain, t: Throttle, items: seq<Item>, net: (nat, Key) -> Reply, clock: nat -> int): Check {
    if items == [] then Check(t, [], [], 0)
    else
      var s := CheckAll(w, owners, t, items[..|items| - 1], net, clock);
      var e := items[|items| - 1].env;
      if Mine(owners, e) && StorageKeys(w, e).Some? then CheckKeys(w, s, e, StorageKeys(w, e).value, |StorageKeys(w, e).value|, net, clock)
      else s
  }

  // ----- the daemon's loops ---------------------------------------------------------------------

  class Reconciler {
    var entries: Entries
    var throttle: Throttle

    /** The store's listing: live entries in key order. */
    method Snapshot(now: Int64) returns (items: seq<Item>)
      ensures Listed(entries, now, items)
      ensures forall k, e :: Item(k, e) in items <==> k in entries && entries[k] == e && Alive(e, now)
      ensures forall i, j :: 0 <= i < j < |items| ==> BytesBefore(items[i].key, items[j].key)
    {
      hide Listing, BytesBefore;
      items := [];
      var left := set k | k in entries && Alive(entries[k], now);
      ListingStarts(entries, now, left);
      while left != {}
        invariant Listing(entries, now, items, left)
        decreases |left|
      {
        LeastExists(left);
        var k :| k in left && forall x :: x in left && x != k ==> Above(x, k);
        ListingNext(entries, now, items, left, k);
        items := items + [Item(k, entries[k])];
        left := left - {k};
      }
      ListingEnds(entries, now, items);
      forall i, j | 0 <= i < j < |items| ensures BytesBefore(items[i].key, items[j].key) {
        AboveIs(items[j].key, items[i].key);
      }
    }

    /** The renewal scan does exactly what the specification fold does. */
    method RenewOnce(w: World, owners: Keychain, now: Int64, u: Surroundings) returns (log: seq<Renewal>, ghost items: seq<Item>)
      modifies this`entries
      ensures Listed(old(entries), now, items)
      ensures log == ScanAll(w, owners, old(entries), items, now, u).log
      ensures entries == ScanAll(w, owners, old(entries), items, now, u).entries
    {
      hide Listed, ShouldRenew, Renew, Store.Put;
      var list := Snapshot(now);
      items := list;
      log := [];
      var seen: set<(ByteString, ByteString)>, attempts := {}, 0;
      for i := 0 to |list|
        invariant ScanAll(w, owners, old(entries), list[..i], now, u) == Scan(seen, attempts, log, entries)
      {
        var e := list[i].env;
        assert list[..i + 1][..i] == list[..i];
        if e.record.revoked || e.signer !in owners {
          continue;
        }
        if Identity(e) in seen {
          assert seen + {Identity(e)} == seen;
          continue;
        }
        ghost var before := Scan(seen, attempts, log, entries);
        seen := seen + {Identity(e)};
        if !ShouldRenew(now, Wrap64(e.record.created), Wrap64(e.record.expires)) {
          continue;
        }
        var renewed := Renew(w, e, owners[e.signer], now);
        if renewed.None? {
          continue;
        }
        var keys := StorageKeys(w, renewed.value);
        if keys.None? {
          continue;
        }
        assert Candidate(w, owners, before, e, now) == Some(Renewal(e, renewed.value, keys.value));
        if !u.publish(attempts) {
          attempts := attempts + 1;
          continue;
        }
        attempts := attempts + 1;
        InstallAll(w, keys.value, renewed.value, now, u, |log|);
        log := log + [Renewal(e, renewed.value, keys.value)];
      }
      assert list[..|list|] == list;
    }

    method InstallAll(w: World, keys: seq<Key>, env: Envelope, now: Int64, u: Surroundings, at: nat)
      modifies this`entries
      ensures entries == PutAll(w, old(entries), keys, env, now, u, at)
    {
      hide Store.Put;
      for i := 0 to |keys|
        invariant entries == PutAll(w, old(entries), keys[..i], env, now, u, at)
      {
        assert keys[..i + 1][..i] == keys[..i];
        entries := Store.Put(w.hash, entries, keys[i], env, now, u.put(at, i));
      }
      assert keys[..|keys|] == keys;
    }

    /** The lease check changes only the throttle. */
    method ReconcileLeases(w: World, owners: Keychain, now: Int64, net: (nat, Key) -> Reply, clock: nat -> int)
      returns (published: seq<Published>, asks: seq<Ask>, ghost items: seq<Item>)
      modifies this`throttle
      ensures Listed(entries, now, items)
      ensures published == CheckAll(w, owners, old(throttle), items, net, clock).published
      ensures asks == CheckAll(w, owners, old(throttle), items, net, clock).asks
      ensures throttle == CheckAll(w, owners, old(throttle), items, net, clock).throttle
    {
      hide Listed, CheckAt;
      var list := Snapshot(now);
      items := list;
      published, asks := [], [];
      var visits := 0;
      for i := 0 to |list|
        invariant CheckAll(w, owners, old(throttle), list[..i], net, clock) == Check(throttle, published, asks, visits)
      {
        assert list[..i + 1][..i] == list[..i];
        var e := list[i].env;
        if !Mine(owners, e) || StorageKeys(w, e).None? {
          continue;
        }
        var keys := StorageKeys(w, e).value;
        ghost var start := Check(throttle, published, asks, visits);
        for j := 0 to |keys|
          invariant CheckKeys(w, start, e, keys, j, net, clock) == Check(throttle, published, asks, visits)
        {
          var c := CheckAt(w, Check(throttle, published, asks, visits), e, keys, j, net, clock);
          throttle, published, asks, visits := c.throttle, c.published, c.asks, c.visits;
        }
      }
      assert list[..|list|] == list;
    }
  }

  /** The listing so far, all of it below the live keys that are left. */
  ghost predicate Listing(m: Entries, now: Int64, items: seq<Item>, left: set<Key>) {
    && (forall k :: k in left ==> k in m && Alive(m[k], now))
    && (forall i :: 0 <= i < |items| ==> items[i].key in m && m[items[i].key] == items[i].env && Alive(items[i].env, now))
    && (forall k :: k in m && Alive(m[k], now) ==> k in left || Item(k, m[k]) in items)
    && (forall i, k :: 0 <= i < |items| && k in left ==> Above(k, items[i].key))
    && (forall i, j :: 0 <= i < j < |items| ==> Above(items[j].key, items[i].key))
  }

  lemma ListingStarts(m: Entries, now: Int64, left: set<Key>)
    requires left == set k | k in m && Alive(m[k], now)
    ensures Listing(m, now, [], left)
  {
  }

  lemma ListingEnds(m: Entries, now: Int64, items: seq<Item>)
    requires Listing(m, now, items, {})
    ensures Listed(m, now, items)
  {
  }

  lemma ListingNext(m: Entries, now: Int64, items: seq<Item>, left: set<Key>, k: Key)
    requires Listing(m, now, items, left) && k in left && forall x :: x in left && x != k ==> Above(x, k)
    ensures k in m && Listing(m, now, items + [Item(k, m[k])], left - {k})
  {
    hide Above, Alive;
    var longer := items + [Item(k, m[k])];
    assert longer[|items|] == Item(k, m[k]);
    assert forall i :: 0 <= i < |items| ==> longer[i] == items[i];
    forall x | x in m && Alive(m[x], now) ensures x in left - {k} || Item(x, m[x]) in longer {
      assert x in left || Item(x, m[x]) in items;
    }
  }

  lemma {:induction false} LeastExists(ks: set<Key>)
    requires ks != {}
    ensures exists k :: k in ks && forall x :: x in ks && x != k ==> Above(x, k)
  {
    hide Above;
    var a :| a in ks;
    var rest := ks - {a};
    assert forall x :: x in ks && x != a ==> x in rest;
    if rest != {} {
      LeastExists(rest);
      var b :| b in rest && forall x :: x in rest && x != b ==> Above(x, b);
      AboveTotal(a, b);
      if Above(b, a) {
        forall x | x in ks && x != a ensures Above(x, a) {
          if x != b {
            AboveTransitive(x, b, a);
          }
        }
      } else {
        assert forall x :: x in ks && x != b ==> Above(x, b);
      }
    }
  }
}
