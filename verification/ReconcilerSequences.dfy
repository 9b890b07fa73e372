/** Sequence numbers over whole runs of ticks, incoming puts and losses. */
module ReconcilerSequences {
  import opened Bytes
  import opened Records
  import opened Store
  import opened Reconcilers
  import opened ReconcilerRuns

  // ----- never falling --------------------------------------------------------------------------

  /** A clock reading from which two days ahead still fit 64 bits. */
  predicate Sane(now: Int64) { now < TWO63 - 2 * GRACE }

  /** A renewal is alive when it is made, exactly on such a reading. */
  lemma RenewedAlive(w: World, prev: Envelope, kp: Signer, now: Int64)
    requires Renew(w, prev, kp, now).Some?
    ensures Alive(Renew(w, prev, kp, now).value, now) <==> Sane(now)
  {
    hide Wrap64, WrapU64;
    RenewedExpiry(w, prev, kp, now);
    TwoDays(now);
  }

  lemma RenewedExpiry(w: World, prev: Envelope, kp: Signer, now: Int64)
    requires Renew(w, prev, kp, now).Some?
    ensures Renew(w, prev, kp, now).value.record.expires == WrapU64(now + 86400)
  {
  }

  lemma TwoDays(now: Int64)
    ensures now < Wrap64(Wrap64(WrapU64(now + DEFAULT_TTL)) + GRACE) <==> Sane(now)
  {
  }

  /** The byte budget never picks this key. */
  ghost predicate Kept(k: Key, u: Surroundings) {
    forall a: nat, i: nat :: k !in u.put(a, i).victims
  }

  ghost predicate Holds(w: World, m: Entries, k: Key, now: Int64, floor: Envelope) {
    k in m && Alive(m[k], now) && AtLeast(w.hash, m[k], floor)
  }

  lemma PutHolds(w: World, m: Entries, key: Key, env: Envelope, now: Int64, c: Circumstance, k: Key, floor: Envelope)
    requires Holds(w, m, k, now, floor) && Alive(env, now) && k !in c.victims
    ensures Holds(w, Store.Put(w.hash, m, key, env, now, c), k, now, floor)
  {
    hide Store.Put, Alive, Wins;
    if k == key {
      PutHere(w.hash, m, key, env, now, c);
      PutNeverLowers(w.hash, m, key, env, now, c, k);
      WinsIsStrictOrder(w.hash, Store.Put(w.hash, m, key, env, now, c)[k], m[k], floor);
    } else {
      PutElsewhere(w.hash, m, key, env, now, c, k);
    }
  }

  lemma {:induction false} PutAllHolds(w: World, m: Entries, keys: seq<Key>, env: Envelope, now: Int64, u: Surroundings, at: nat, k: Key, floor: Envelope)
    requires Holds(w, m, k, now, floor) && Alive(env, now) && Kept(k, u)
    ensures Holds(w, PutAll(w, m, keys, env, now, u, at), k, now, floor)
  {
    hide Store.Put, Holds, Alive;
    if keys != [] {
      var n := |keys| - 1;
      PutAllHolds(w, m, keys[..n], env, now, u, at, k, floor);
      PutHolds(w, PutAll(w, m, keys[..n], env, now, u, at), keys[n], env, now, u.put(at, n), k, floor);
    }
  }

  /** A scan never lowers a live key, whoever owns it. */
  lemma {:induction false} ScanHolds(w: World, owners: Keychain, m: Entries, items: seq<Item>, now: Int64, u: Surroundings, k: Key, floor: Envelope)
    requires Holds(w, m, k, now, floor) && Sane(now) && Kept(k, u)
    ensures Holds(w, ScanAll(w, owners, m, items, now, u).entries, k, now, floor)
  {
    hide Visit, Candidate, Holds, PutAll, Alive, Kept;
    if items != [] {
      var rest := items[..|items| - 1];
      var x := items[|items| - 1];
      assert items == rest + [x];
      ScanHolds(w, owners, m, rest, now, u, k, floor);
      ScanNext(w, owners, m, rest, x, now, u);
      var s := ScanAll(w, owners, m, rest, now, u);
      VisitCases(w, owners, s, x.env, now, u);
      var c := Candidate(w, owners, s, x.env, now);
      if c.Some? {
        CandidateAlive(w, owners, rest, s, x, now);
        PutAllHolds(w, s.entries, c.value.keys, c.value.renewed, now, u, |s.log|, k, floor);
      }
    }
  }

  lemma CandidateAlive(w: World, owners: Keychain, items: seq<Item>, s: Scan, x: Item, now: Int64)
    requires Sane(now) && Candidate(w, owners, s, x.env, now).Some?
    ensures Alive(Candidate(w, owners, s, x.env, now).value.renewed, now)
  {
    hide Alive, Renew, ShouldRenew;
    RenewedAlive(w, x.env, owners[x.env.signer], now);
  }

  // ----- floors of one identity -----------------------------------------------------------------

  /** A record this key owns and signed for this name: the kind a scan can renew. */
  predicate Own(e: Envelope, pk: ByteString, name: ByteString) {
    e.signer == pk && e.record.owner == pk && e.record.name == name
  }

  /** Every such record in the store sits at its storage keys `ks` and is not below `floor`. */
  ghost predicate NotBelow(w: World, m: Entries, pk: ByteString, name: ByteString, ks: seq<Key>, floor: int) {
    forall k :: k in m && Own(m[k], pk, name) ==>
      m[k].record.sequence >= floor && StorageKeys(w, m[k]) == Some(ks) && k in ks
  }

  lemma PutAbove(w: World, m: Entries, key: Key, env: Envelope, now: Int64, c: Circumstance, pk: ByteString, name: ByteString, ks: seq<Key>, floor: int)
    requires NotBelow(w, m, pk, name, ks, floor)
    requires Own(env, pk, name) ==> env.record.sequence >= floor && StorageKeys(w, env) == Some(ks) && key in ks
    ensures NotBelow(w, Store.Put(w.hash, m, key, env, now, c), pk, name, ks, floor)
  {
    hide Store.Put, StorageKeys;
    var m' := Store.Put(w.hash, m, key, env, now, c);
    forall k | k in m' && Own(m'[k], pk, name)
      ensures m'[k].record.sequence >= floor && StorageKeys(w, m'[k]) == Some(ks) && k in ks
    {
      PutOrigin(w.hash, m, key, env, now, c, k);
    }
  }

  /** Where an owner puts its own record, any own record left there is at least as new. */
  lemma PutRaises(h: EnvelopeHash, m: Entries, key: Key, env: Envelope, now: Int64, c: Circumstance)
    requires env.record.prevHash == [] && (key in m && h(m[key]) == h(env) ==> m[key] == env)
    ensures
      var m' := Store.Put(h, m, key, env, now, c);
      key in m' && Own(m'[key], env.signer, env.record.name) ==> m'[key].record.sequence >= env.record.sequence
  {
    hide Alive, RecoveryAcceptable, ChainLink;
  }

  /** No envelope in the store is confused with this one by its hash. */
  ghost predicate Told(h: EnvelopeHash, m: Entries, env: Envelope) {
    forall k :: k in m && h(m[k]) == h(env) ==> m[k] == env
  }

  lemma {:induction false} PutAllTold(w: World, m: Entries, keys: seq<Key>, env: Envelope, now: Int64, u: Surroundings, at: nat)
    requires Told(w.hash, m, env)
    ensures Told(w.hash, PutAll(w, m, keys, env, now, u, at), env)
  {
    hide Store.Put;
    if keys != [] {
      var n := |keys| - 1;
      PutAllTold(w, m, keys[..n], env, now, u, at);
      var before, m' := PutAll(w, m, keys[..n], env, now, u, at), PutAll(w, m, keys, env, now, u, at);
      forall k | k in m' && w.hash(m'[k]) == w.hash(env) ensures m'[k] == env {
        PutOrigin(w.hash, before, keys[n], env, now, u.put(at, n), k);
      }
    }
  }

  lemma ToldAt(h: EnvelopeHash, m: Entries, env: Envelope, k: Key)
    requires Told(h, m, env)
    ensures k in m && h(m[k]) == h(env) ==> m[k] == env
  {
  }

  lemma {:induction false} PutAllRaises(w: World, m: Entries, keys: seq<Key>, env: Envelope, now: Int64, u: Surroundings, at: nat, k: Key)
    requires Told(w.hash, m, env) && env.record.prevHash == [] && k in keys
    ensures
      var m' := PutAll(w, m, keys, env, now, u, at);
      k in m' && Own(m'[k], env.signer, env.record.name) ==> m'[k].record.sequence >= env.record.sequence
  {
    hide Store.Put, Told;
    var n := |keys| - 1;
    var before := PutAll(w, m, keys[..n], env, now, u, at);
    var m' := PutAll(w, m, keys, env, now, u, at);
    PutAllTold(w, m, keys[..n], env, now, u, at);
    if k == keys[n] {
      assert k in before && w.hash(before[k]) == w.hash(env) ==> before[k] == env by { ToldAt(w.hash, before, env, k); }
      PutRaises(w.hash, before, k, env, now, u.put(at, n));
    } else {
      PutAllRaises(w, m, keys[..n], env, now, u, at, k);
      if k in m' {
        PutOrigin(w.hash, before, keys[n], env, now, u.put(at, n), k);
      }
    }
  }

  lemma {:induction false} PutAllAbove(w: World, m: Entries, keys: seq<Key>, env: Envelope, now: Int64, u: Surroundings, at: nat, pk: ByteString, name: ByteString, ks: seq<Key>, floor: int)
    requires NotBelow(w, m, pk, name, ks, floor)
    requires Own(env, pk, name) ==> env.record.sequence >= floor && StorageKeys(w, env) == Some(ks) && forall k :: k in keys ==> k in ks
    ensures NotBelow(w, PutAll(w, m, keys, env, now, u, at), pk, name, ks, floor)
  {
    hide Store.Put, NotBelow, StorageKeys;
    if keys != [] {
      var n := |keys| - 1;
      PutAllAbove(w, m, keys[..n], env, now, u, at, pk, name, ks, floor);
      PutAbove(w, PutAll(w, m, keys[..n], env, now, u, at), keys[n], env, now, u.put(at, n), pk, name, ks, floor);
    }
  }

  /** Renewing an identity lifts its floor to the renewal's sequence. */
  lemma RenewalLifts(w: World, m: Entries, env: Envelope, now: Int64, u: Surroundings, at: nat, pk: ByteString, name: ByteString, ks: seq<Key>, floor: int)
    requires Told(w.hash, m, env) && NotBelow(w, m, pk, name, ks, floor) && floor <= env.record.sequence
    requires Own(env, pk, name) && env.record.prevHash == [] && StorageKeys(w, env) == Some(ks)
    ensures NotBelow(w, PutAll(w, m, ks, env, now, u, at), pk, name, ks, env.record.sequence)
  {
    hide PutAll, StorageKeys, Told;
    PutAllAbove(w, m, ks, env, now, u, at, pk, name, ks, floor);
    var m' := PutAll(w, m, ks, env, now, u, at);
    forall k | k in m' && Own(m'[k], pk, name) ensures m'[k].record.sequence >= env.record.sequence {
      PutAllRaises(w, m, ks, env, now, u, at, k);
    }
  }

  /** The identity's floor after a scan: the sequence of its renewal, if there was one. */
  function FloorAfter(log: seq<Renewal>, pk: ByteString, name: ByteString, floor: int): int {
    if log == [] then floor
    else if Identity(log[|log| - 1].prev) == (pk, name) then log[|log| - 1].renewed.record.sequence
    else FloorAfter(log[..|log| - 1], pk, name, floor)
  }

  lemma FloorNext(log: seq<Renewal>, r: Renewal, pk: ByteString, name: ByteString, floor: int)
    ensures FloorAfter(log + [r], pk, name, floor) ==
            if Identity(r.prev) == (pk, name) then r.renewed.record.sequence else FloorAfter(log, pk, name, floor)
  {
    assert (log + [r])[..|log|] == log;
  }

  lemma {:induction false} FloorIsTheRenewal(log: seq<Renewal>, i: nat, pk: ByteString, name: ByteString, floor: int)
    requires OncePerIdentity(log) && i < |log| && Identity(log[i].prev) == (pk, name)
    ensures FloorAfter(log, pk, name, floor) == log[i].renewed.record.sequence
  {
    if i != |log| - 1 {
      FloorIsTheRenewal(log[..|log| - 1], i, pk, name, floor);
    }
  }

  /** A candidate of this identity is the successor of a listed own record. */
  lemma CandidateLifts(w: World, owners: Keychain, m: Entries, s: Scan, x: Item, now: Int64, pk: ByteString, name: ByteString, ks: seq<Key>, floor: int)
    requires Sound(owners) && NotBelow(w, m, pk, name, ks, floor) && x.key in m && m[x.key] == x.env
    requires Candidate(w, owners, s, x.env, now).Some?
    ensures
      var r := Candidate(w, owners, s, x.env, now).value;
      && r.prev == x.env && r.renewed.record.prevHash == [] && StorageKeys(w, r.renewed) == Some(r.keys)
      && (Own(r.renewed, pk, name) <==> Identity(x.env) == (pk, name))
      && (Identity(x.env) == (pk, name) ==> r.keys == ks && r.renewed.record.sequence > floor)
  {
    hide Renew, ShouldRenew;
    RenewIsNext(w, x.env, owners[x.env.signer], now);
  }

  /** Every envelope of the store is among `all`. */
  ghost predicate Within(m: Entries, all: set<Envelope>) { forall k :: k in m ==> m[k] in all }

  /** Every renewed envelope of the log is among `all`. */
  ghost predicate Logged(log: seq<Renewal>, all: set<Envelope>) {
    forall i :: 0 <= i < |log| ==> log[i].renewed in all
  }

  lemma {:induction false} PutAllWithin(w: World, m: Entries, keys: seq<Key>, env: Envelope, now: Int64, u: Surroundings, at: nat, all: set<Envelope>)
    requires Within(m, all) && env in all
    ensures Within(PutAll(w, m, keys, env, now, u, at), all)
  {
    hide Store.Put;
    if keys != [] {
      var n := |keys| - 1;
      PutAllWithin(w, m, keys[..n], env, now, u, at, all);
      var before, m' := PutAll(w, m, keys[..n], env, now, u, at), PutAll(w, m, keys, env, now, u, at);
      forall k | k in m' ensures m'[k] in all {
        PutOrigin(w.hash, before, keys[n], env, now, u.put(at, n), k);
      }
    }
  }

  lemma VisitWithin(w: World, owners: Keychain, s: Scan, e: Envelope, now: Int64, u: Surroundings, all: set<Envelope>)
    requires Within(s.entries, all) && Logged(Visit(w, owners, s, e, now, u).log, all)
    ensures Within(Visit(w, owners, s, e, now, u).entries, all) && Logged(s.log, all)
  {
    hide Visit, Candidate, PutAll, Within;
    VisitCases(w, owners, s, e, now, u);
    var v, c := Visit(w, owners, s, e, now, u), Candidate(w, owners, s, e, now);
    if c.Some? && u.publish(s.attempts) {
      assert v.log[|s.log|] == c.value;
      assert forall i :: 0 <= i < |s.log| ==> v.log[i] == s.log[i];
      PutAllWithin(w, s.entries, c.value.keys, c.value.renewed, now, u, |s.log|, all);
    }
  }

  lemma {:induction false} ScanWithin(w: World, owners: Keychain, m: Entries, items: seq<Item>, now: Int64, u: Surroundings, all: set<Envelope>)
    requires Within(m, all) && Logged(ScanAll(w, owners, m, items, now, u).log, all)
    ensures Within(ScanAll(w, owners, m, items, now, u).entries, all)
  {
    hide Visit, Within, Logged;
    if items != [] {
      var rest := items[..|items| - 1];
      var x := items[|items| - 1];
      assert items == rest + [x];
      ScanNext(w, owners, m, rest, x, now, u);
      ScanLogged(w, owners, m, rest, x, now, u, all);
      ScanWithin(w, owners, m, rest, now, u, all);
      VisitWithin(w, owners, ScanAll(w, owners, m, rest, now, u), x.env, now, u, all);
    }
  }

  lemma ScanLogged(w: World, owners: Keychain, m: Entries, rest: seq<Item>, x: Item, now: Int64, u: Surroundings, all: set<Envelope>)
    requires Logged(ScanAll(w, owners, m, rest + [x], now, u).log, all)
    ensures Logged(ScanAll(w, owners, m, rest, now, u).log, all)
  {
    hide Visit, Candidate, ScanAll;
    ScanNext(w, owners, m, rest, x, now, u);
    var s := ScanAll(w, owners, m, rest, now, u);
    VisitCases(w, owners, s, x.env, now, u);
    assert forall i :: 0 <= i < |s.log| ==> Visit(w, owners, s, x.env, now, u).log[i] == s.log[i];
  }

  ghost predicate Lifted(w: World, s: Scan, pk: ByteString, name: ByteString, ks: seq<Key>, floor: int) {
    && NotBelow(w, s.entries, pk, name, ks, FloorAfter(s.log, pk, name, floor))
    && FloorAfter(s.log, pk, name, floor) >= floor
    && ((exists i :: 0 <= i < |s.log| && Identity(s.log[i].prev) == (pk, name)) ==> FloorAfter(s.log, pk, name, floor) > floor)
  }

  lemma VisitLifts(w: World, owners: Keychain, m: Entries, s: Scan, x: Item, now: Int64, u: Surroundings, pk: ByteString, name: ByteString, ks: seq<Key>, floor: int, all: set<Envelope>)
    requires Sound(owners) && NotBelow(w, m, pk, name, ks, floor) && x.key in m && m[x.key] == x.env
    requires Lifted(w, s, pk, name, ks, floor)
    requires NoCollision(w.hash, all) && Within(s.entries, all) && Logged(Visit(w, owners, s, x.env, now, u).log, all)
    requires (forall i :: 0 <= i < |s.log| ==> Identity(s.log[i].prev) in s.seen)
    ensures Lifted(w, Visit(w, owners, s, x.env, now, u), pk, name, ks, floor)
  {
    hide Visit, Candidate, PutAll, NotBelow, FloorAfter, StorageKeys;
    VisitCases(w, owners, s, x.env, now, u);
    var c := Candidate(w, owners, s, x.env, now);
    if c.Some? && u.publish(s.attempts) {
      var g := FloorAfter(s.log, pk, name, floor);
      CandidateLegal(w, owners, [], s, x, now);
      CandidateLifts(w, owners, m, s, x, now, pk, name, ks, floor);
      FloorNext(s.log, c.value, pk, name, floor);
      if Identity(x.env) == (pk, name) {
        Untouched(s.log, pk, name, floor);
        assert (s.log + [c.value])[|s.log|] == c.value;
        assert Told(w.hash, s.entries, c.value.renewed);
        RenewalLifts(w, s.entries, c.value.renewed, now, u, |s.log|, pk, name, ks, g);
      } else {
        PutAllAbove(w, s.entries, c.value.keys, c.value.renewed, now, u, |s.log|, pk, name, ks, g);
      }
      LongerLog(s.log, c.value, pk, name);
    }
  }

  lemma LongerLog(log: seq<Renewal>, r: Renewal, pk: ByteString, name: ByteString)
    ensures (exists i :: 0 <= i < |log + [r]| && Identity((log + [r])[i].prev) == (pk, name)) ==>
            (exists i :: 0 <= i < |log| && Identity(log[i].prev) == (pk, name)) || Identity(r.prev) == (pk, name)
  {
  }

  lemma {:induction false} Untouched(log: seq<Renewal>, pk: ByteString, name: ByteString, floor: int)
    requires forall i :: 0 <= i < |log| ==> Identity(log[i].prev) != (pk, name)
    ensures FloorAfter(log, pk, name, floor) == floor
  {
    if log != [] {
      Untouched(log[..|log| - 1], pk, name, floor);
    }
  }

  lemma {:induction false} ScanLifts(w: World, owners: Keychain, m: Entries, items: seq<Item>, now: Int64, u: Surroundings, pk: ByteString, name: ByteString, ks: seq<Key>, floor: int, all: set<Envelope>)
    requires Sound(owners) && NotBelow(w, m, pk, name, ks, floor)
    requires NoCollision(w.hash, all) && Within(m, all) && Logged(ScanAll(w, owners, m, items, now, u).log, all)
    requires forall i :: 0 <= i < |items| ==> items[i].key in m && m[items[i].key] == items[i].env
    ensures Lifted(w, ScanAll(w, owners, m, items, now, u), pk, name, ks, floor)
  {
    hide Visit, NotBelow, Legal, Within, Logged, NoCollision;
    if items != [] {
      var rest := items[..|items| - 1];
      var x := items[|items| - 1];
      assert items == rest + [x];
      ScanLogged(w, owners, m, rest, x, now, u, all);
      ScanLifts(w, owners, m, rest, now, u, pk, name, ks, floor, all);
      ScanNext(w, owners, m, rest, x, now, u);
      ScanLegal(w, owners, m, rest, now, u);
      ScanWithin(w, owners, m, rest, now, u, all);
      VisitLifts(w, owners, m, ScanAll(w, owners, m, rest, now, u), x, now, u, pk, name, ks, floor, all);
    } else {
      NothingLifted(w, owners, m, now, u, pk, name, ks, floor);
    }
  }

  lemma NothingLifted(w: World, owners: Keychain, m: Entries, now: Int64, u: Surroundings, pk: ByteString, name: ByteString, ks: seq<Key>, floor: int)
    requires NotBelow(w, m, pk, name, ks, floor)
    ensures Lifted(w, ScanAll(w, owners, m, [], now, u), pk, name, ks, floor)
  {
  }

  // ----- runs -----------------------------------------------------------------------------------

  datatype Event =
    | Tick(owners: Keychain, now: Int64, u: Surroundings, items: seq<Item>)
    | Incoming(key: Key, env: Envelope, at: Int64, c: Circumstance)
    | Lose(keys: set<Key>)

  function Log(w: World, m: Entries, e: Event): seq<Renewal> {
    if e.Tick? then ScanAll(w, e.owners, m, e.items, e.now, e.u).log else []
  }

  function Next(w: World, m: Entries, e: Event): Entries {
    match e
    case Tick(owners, now, u, items) => ScanAll(w, owners, m, items, now, u).entries
    case Incoming(key, env, at, c) => Store.Put(w.hash, m, key, env, at, c)
    case Lose(keys) => m - keys
  }

  ghost predicate IsRun(w: World, ms: seq<Entries>, es: seq<Event>) {
    && |ms| == |es| + 1
    && (forall i :: 0 <= i < |es| ==> ms[i + 1] == Next(w, ms[i], es[i]))
    && (forall i :: 0 <= i < |es| && es[i].Tick? ==> Sound(es[i].owners) && Listed(ms[i], es[i].now, es[i].items))
  }

  /** The identity's floor after the first `n` events. */
  function Floor(w: World, ms: seq<Entries>, es: seq<Event>, pk: ByteString, name: ByteString, floor: int, n: nat): int
    requires n <= |es| <= |ms|
  {
    if n == 0 then floor else FloorAfter(Log(w, ms[n - 1], es[n - 1]), pk, name, Floor(w, ms, es, pk, name, floor, n - 1))
  }

  /** The store takes an incoming envelope: it wins its slot and has not expired. */
  predicate Taken(w: World, m: Entries, e: Event) {
    e.Incoming? && Decide(w.hash, m, e.key, e.env, e.at, e.c).Installed? && Alive(e.env, e.at)
  }

  /** If the store takes an incoming record of this identity, it is not older than its last renewal and has its keys. */
  ghost predicate Current(w: World, m: Entries, e: Event, pk: ByteString, name: ByteString, ks: seq<Key>, floor: int) {
    Taken(w, m, e) && Own(e.env, pk, name) ==>
      e.env.record.sequence >= floor && StorageKeys(w, e.env) == Some(ks) && e.key in ks
  }

  /** An incoming put keeps the floor exactly when it is not taken, is not of this identity, or is current. */
  lemma FloorKeptIff(w: World, m: Entries, e: Event, pk: ByteString, name: ByteString, ks: seq<Key>, floor: int)
    requires e.Incoming? && NotBelow(w, m, pk, name, ks, floor)
    ensures NotBelow(w, Next(w, m, e), pk, name, ks, floor) <==>
            || !Decide(w.hash, m, e.key, e.env, e.at, e.c).Installed? || !Alive(e.env, e.at)
            || !Own(e.env, pk, name)
            || (e.env.record.sequence >= floor && StorageKeys(w, e.env) == Some(ks) && e.key in ks)
  {
    hide Decide, StorageKeys, Alive;
    var m' := Next(w, m, e);
    if Taken(w, m, e) {
      assert e.key in m' && m'[e.key] == e.env;
    }
    forall k | k in m' && !(k == e.key && Taken(w, m, e)) ensures k in m && m'[k] == m[k] {
      PutLeaves(w.hash, m, e.key, e.env, e.at, e.c, k);
    }
  }

  /** Where a put does not leave the newcomer it leaves what was there, or nothing. */
  lemma PutLeaves(h: EnvelopeHash, m: Entries, key: Key, env: Envelope, now: Int64, c: Circumstance, k: Key)
    requires k in Store.Put(h, m, key, env, now, c)
    requires k != key || !Decide(h, m, key, env, now, c).Installed? || !Alive(env, now)
    ensures k in m && Store.Put(h, m, key, env, now, c)[k] == m[k]
  {
    hide Decide, Alive;
  }

  /** A tick does not confuse the envelopes it handles: those in the store and those it signs. */
  ghost predicate Distinguishes(w: World, m: Entries, e: Event) {
    e.Tick? ==> NoCollision(w.hash, (set k | k in m :: m[k]) + (set r | r in Log(w, m, e) :: r.renewed))
  }

  lemma EventLifts(w: World, m: Entries, e: Event, pk: ByteString, name: ByteString, ks: seq<Key>, floor: int)
    requires Distinguishes(w, m, e) && NotBelow(w, m, pk, name, ks, floor) && Current(w, m, e, pk, name, ks, floor)
    requires e.Tick? ==> Sound(e.owners) && Listed(m, e.now, e.items)
    ensures NotBelow(w, Next(w, m, e), pk, name, ks, FloorAfter(Log(w, m, e), pk, name, floor))
    ensures FloorAfter(Log(w, m, e), pk, name, floor) >= floor
    ensures (exists i :: 0 <= i < |Log(w, m, e)| && Identity(Log(w, m, e)[i].prev) == (pk, name)) ==>
            FloorAfter(Log(w, m, e), pk, name, floor) > floor
  {
    hide NoCollision, ScanAll, Store.Put, FloorAfter, StorageKeys;
    Untouched([], pk, name, floor);
    match e
    case Tick(owners, now, u, items) =>
      var all := (set k | k in m :: m[k]) + (set r | r in Log(w, m, e) :: r.renewed);
      ScanLifts(w, owners, m, items, now, u, pk, name, ks, floor, all);
    case Incoming(key, env, at, c) => FloorKeptIff(w, m, e, pk, name, ks, floor);
    case Lose(keys) =>
  }

  lemma {:induction false} RunLifts(w: World, ms: seq<Entries>, es: seq<Event>, pk: ByteString, name: ByteString, ks: seq<Key>, floor: int, from: nat, n: nat)
    requires IsRun(w, ms, es) && NotBelow(w, ms[0], pk, name, ks, floor) && from <= n <= |es|
    requires forall i: nat :: i < |es| ==> Distinguishes(w, ms[i], es[i])
    requires forall i: nat :: i < |es| ==> Current(w, ms[i], es[i], pk, name, ks, Floor(w, ms, es, pk, name, floor, i))
    ensures NotBelow(w, ms[n], pk, name, ks, Floor(w, ms, es, pk, name, floor, n))
    ensures Floor(w, ms, es, pk, name, floor, from) <= Floor(w, ms, es, pk, name, floor, n)
    decreases n
  {
    hide Distinguishes, NotBelow, Next, FloorAfter, Current, Listed, Log, Sound;
    if n > 0 {
      RunLifts(w, ms, es, pk, name, ks, floor, if from < n then from else n - 1, n - 1);
      assert Current(w, ms[n - 1], es[n - 1], pk, name, ks, Floor(w, ms, es, pk, name, floor, n - 1));
      EventLifts(w, ms[n - 1], es[n - 1], pk, name, ks, Floor(w, ms, es, pk, name, floor, n - 1));
    }
  }

  lemma TickFloor(w: World, m: Entries, e: Event, j: nat, pk: ByteString, name: ByteString, floor: int)
    requires j < |Log(w, m, e)| && Identity(Log(w, m, e)[j].prev) == (pk, name)
    ensures FloorAfter(Log(w, m, e), pk, name, floor) == Log(w, m, e)[j].renewed.record.sequence
  {
    hide ScanAll, FloorAfter, Legal;
    ScanLegal(w, e.owners, m, e.items, e.now, e.u);
    FloorIsTheRenewal(Log(w, m, e), j, pk, name, floor);
  }

  // ----- what a renewal carries -----------------------------------------------------------------

  /** Every renewal of every tick is the next lease of a live record in the store, field by field. */
  lemma RenewalsCarryTheLease(w: World, ms: seq<Entries>, es: seq<Event>, n: nat, i: nat)
    requires IsRun(w, ms, es) && n < |es| && i < |Log(w, ms[n], es[n])|
    ensures
      var r := Log(w, ms[n], es[n])[i];
      && es[n].Tick? && r.prev.record.sequence + 1 < TWO64
      && (exists k :: k in ms[n] && ms[n][k] == r.prev && Alive(r.prev, es[n].now))
      && r.renewed.record == NextLease(w, r.prev.record, es[n].now)
  {
    hide ScanAll, Renew, ShouldRenew, Alive;
    var e := es[n];
    ScanLegal(w, e.owners, ms[n], e.items, e.now, e.u);
    var r := Log(w, ms[n], e)[i];
    assert Legal(w, e.owners, e.items, e.now, r);
    RenewIsNext(w, r.prev, e.owners[r.prev.signer], e.now);
    var j :| 0 <= j < |e.items| && e.items[j].env == r.prev;
    assert e.items[j].key in ms[n] && ms[n][e.items[j].key] == r.prev;
  }

  /** The binding rule leaves this record set alone. */
  ghost predicate LeavesAlone(w: World) { forall r :: w.bind(r) == r.rrset }

  /** The record sets published before event `n`: those of the initial store and of what came in. */
  ghost function Published(ms: seq<Entries>, es: seq<Event>, n: nat): set<seq<RR>>
    requires ms != [] && n <= |es|
  {
    (set k | k in ms[0] :: ms[0][k].record.rrset) + (set i | 0 <= i < n && es[i].Incoming? :: es[i].env.record.rrset)
  }

  ghost predicate SetsFrom(m: Entries, sets: set<seq<RR>>) { forall k :: k in m ==> m[k].record.rrset in sets }

  lemma TickKeepsSets(w: World, m: Entries, e: Event, sets: set<seq<RR>>)
    requires LeavesAlone(w) && e.Tick? && Listed(m, e.now, e.items) && SetsFrom(m, sets)
    ensures SetsFrom(Next(w, m, e), sets)
  {
    hide ScanAll, Renew, ShouldRenew, Alive, LeavesAlone;
    var log := Log(w, m, e);
    ScanLegal(w, e.owners, m, e.items, e.now, e.u);
    var all := (set k | k in m :: m[k]) + (set r | r in log :: r.renewed);
    ScanWithin(w, e.owners, m, e.items, e.now, e.u, all);
    forall r | r in log ensures r.renewed.record.rrset in sets {
      assert Legal(w, e.owners, e.items, e.now, r);
      RenewIsNext(w, r.prev, e.owners[r.prev.signer], e.now);
      SameSet(w, r.prev.record, e.now);
      var j :| 0 <= j < |e.items| && e.items[j].env == r.prev;
      assert e.items[j].key in m && m[e.items[j].key] == r.prev;
    }
  }

  lemma SameSet(w: World, r: Record, now: Int64)
    requires LeavesAlone(w) && r.sequence + 1 < TWO64
    ensures NextLease(w, r, now).rrset == r.rrset
  {
  }

  /** Where the binding rule leaves sets alone, no run of ticks ever holds or publishes a record set nobody published. */
  lemma {:induction false} NoSetIsInvented(w: World, ms: seq<Entries>, es: seq<Event>, n: nat)
    requires IsRun(w, ms, es) && n <= |es| && LeavesAlone(w)
    ensures SetsFrom(ms[n], Published(ms, es, n))
    ensures n < |es| ==> forall r :: r in Log(w, ms[n], es[n]) ==> r.renewed.record.rrset == r.prev.record.rrset
    decreases n
  {
    hide LeavesAlone, ScanAll, Alive;
    if n > 0 {
      var m, e, sets := ms[n - 1], es[n - 1], Published(ms, es, n);
      NoSetIsInvented(w, ms, es, n - 1);
      assert SetsFrom(m, sets);
      match e
      case Tick(_, _, _, _) => TickKeepsSets(w, m, e, sets);
      case Incoming(key, env, at, c) =>
        forall k | k in ms[n] ensures ms[n][k].record.rrset in sets {
          PutOrigin(w.hash, m, key, env, at, c, k);
        }
      case Lose(_) =>
    }
    if n < |es| {
      forall i | 0 <= i < |Log(w, ms[n], es[n])| ensures Log(w, ms[n], es[n])[i].renewed.record.rrset == Log(w, ms[n], es[n])[i].prev.record.rrset {
        RenewalsCarryTheLease(w, ms, es, n, i);
        SameSet(w, Log(w, ms[n], es[n])[i].prev.record, es[n].now);
      }
    }
  }

  /**
    Over every run, whatever publishing does and whatever is lost, two renewals of one identity
    never share a sequence: the later is higher. The condition is that its records have the same
    storage keys, that the store takes no record of its own that is older than its last renewal
    (stale copies it refuses do no harm), and that a tick's own envelopes do not collide.
   */
  lemma RenewalsNeverShareASequence(w: World, ms: seq<Entries>, es: seq<Event>, pk: ByteString, name: ByteString, ks: seq<Key>,
    a: nat, i: nat, b: nat, j: nat)
    requires IsRun(w, ms, es) && NotBelow(w, ms[0], pk, name, ks, 0)
    requires forall n: nat :: n < |es| ==> Distinguishes(w, ms[n], es[n])
    requires forall n: nat :: n < |es| ==> Current(w, ms[n], es[n], pk, name, ks, Floor(w, ms, es, pk, name, 0, n))
    requires a < b < |es| && i < |Log(w, ms[a], es[a])| && j < |Log(w, ms[b], es[b])|
    requires Identity(Log(w, ms[a], es[a])[i].prev) == Identity(Log(w, ms[b], es[b])[j].prev) == (pk, name)
    ensures Log(w, ms[a], es[a])[i].renewed.record.sequence < Log(w, ms[b], es[b])[j].renewed.record.sequence
  {
    hide Distinguishes, NotBelow, Next, FloorAfter, Listed, Sound, Current, Log;
    var fb := Floor(w, ms, es, pk, name, 0, b);
    RunLifts(w, ms, es, pk, name, ks, 0, a + 1, b);
    TickFloor(w, ms[a], es[a], i, pk, name, Floor(w, ms, es, pk, name, 0, a));
    TickFloor(w, ms[b], es[b], j, pk, name, fb);
    assert Current(w, ms[b], es[b], pk, name, ks, fb);
    EventLifts(w, ms[b], es[b], pk, name, ks, fb);
  }

  /**
    The condition is needed: if everything local is lost and the network returns the old record,
    a later tick signs the same sequence again, in a different envelope.
   */
  lemma ReplayRepeatsASequence(w: World, prev: Envelope, k: Key, owners: Keychain, now: Int64, later: Int64, u: Surroundings, c: Circumstance,
    r: Renewal, s: Renewal) returns (ms: seq<Entries>, es: seq<Event>)
    requires Sound(owners) && now < later && Alive(prev, later) && u.publish(0)
    requires r.prev == s.prev == prev && Renewable(w, owners, now, r) && Renewable(w, owners, later, s)
    ensures IsRun(w, ms, es) && |es| == 4 && ms[0] == map[k := prev]
    ensures es[0].Tick? && es[0].now == now && es[3].Tick? && es[3].now == later
    ensures Log(w, ms[0], es[0]) == [r] && Log(w, ms[3], es[3]) == [s]
    ensures r.renewed.record.sequence == s.renewed.record.sequence && r.renewed != s.renewed
  {
    hide ScanAll, Renewable;
    var m0: Entries := map[k := prev];
    var items := [Item(k, prev)];
    assert Listed(m0, now, items) && Listed(m0, later, items) by { OneListed(k, prev, now, later); }
    var e0, e3 := Tick(owners, now, u, items), Tick(owners, later, u, items);
    OneRenewed(w, owners, m0, k, now, u, r);
    OneRenewed(w, owners, m0, k, later, u, s);
    var m1 := Next(w, m0, e0);
    var lose := Lose(m1.Keys);
    var back := Incoming(k, prev, later, c);
    var nothing: Entries := map[];
    assert Next(w, m1, lose) == nothing;
    assert Next(w, nothing, back) == m0;
    ms, es := [m0, m1, nothing, m0, Next(w, m0, e3)], [e0, lose, back, e3];
    DifferentTimes(w, owners, now, later, r, s);
  }

  lemma OneListed(k: Key, prev: Envelope, now: Int64, later: Int64)
    requires now < later && Alive(prev, later)
    ensures Listed(map[k := prev], now, [Item(k, prev)]) && Listed(map[k := prev], later, [Item(k, prev)])
  {
    assert Item(k, prev) in [Item(k, prev)];
  }

  lemma OneRenewed(w: World, owners: Keychain, m: Entries, k: Key, now: Int64, u: Surroundings, r: Renewal)
    requires Renewable(w, owners, now, r) && u.publish(0)
    ensures ScanAll(w, owners, m, [Item(k, r.prev)], now, u).log == [r]
  {
    hide Renewable, PutAll, Candidate, Visit;
    var start := Scan({}, 0, [], m);
    assert ScanAll(w, owners, m, [], now, u) == start;
    assert [] + [Item(k, r.prev)] == [Item(k, r.prev)];
    ScanNext(w, owners, m, [], Item(k, r.prev), now, u);
    CandidateFound(w, owners, start, now, r);
    VisitCases(w, owners, start, r.prev, now, u);
  }

  lemma DifferentTimes(w: World, owners: Keychain, now: Int64, later: Int64, r: Renewal, s: Renewal)
    requires now < later && r.prev == s.prev && Renewable(w, owners, now, r) && Renewable(w, owners, later, s)
    ensures r.renewed.record.sequence == s.renewed.record.sequence && r.renewed != s.renewed
  {
    hide ShouldRenew;
    assert r.renewed.record.created == WrapU64(now) && s.renewed.record.created == WrapU64(later);
    Unwrapped(now, later);
  }

  lemma Unwrapped(now: Int64, later: Int64)
    requires now < later
    ensures WrapU64(now) != WrapU64(later)
  {
  }

  /** At a key that stays live and within the budget, no event of a run lowers (sequence, hash). */
  lemma {:induction false} RunNeverFalls(w: World, ms: seq<Entries>, es: seq<Event>, k: Key)
    requires IsRun(w, ms, es) && forall i :: 0 <= i < |ms| ==> k in ms[i]
    requires forall i :: 0 <= i < |es| ==> Calm(ms[i], es[i], k)
    ensures AtLeast(w.hash, ms[|es|][k], ms[0][k]) && ms[|es|][k].record.sequence >= ms[0][k].record.sequence
  {
    hide Next, Calm, Listed;
    if es != [] {
      var n := |es| - 1;
      RunNeverFalls(w, ms[..|es|], es[..n], k);
      assert ms[n + 1] == Next(w, ms[n], es[n]);
      CalmStep(w, ms[n], es[n], k);
      WinsIsStrictOrder(w.hash, ms[n + 1][k], ms[n][k], ms[0][k]);
    }
  }

  /** The key is live when the event happens, and a tick does not push it out of the budget. */
  ghost predicate Calm(m: Entries, e: Event, k: Key) {
    && k in m
    && (e.Tick? ==> Sane(e.now) && Kept(k, e.u) && Alive(m[k], e.now))
    && (e.Incoming? ==> Alive(m[k], e.at))
  }

  lemma CalmStep(w: World, m: Entries, e: Event, k: Key)
    requires Calm(m, e, k) && k in Next(w, m, e)
    ensures AtLeast(w.hash, Next(w, m, e)[k], m[k])
  {
    hide ScanAll, Store.Put, Alive, Kept, Wins;
    match e
    case Tick(owners, now, u, items) => ScanHolds(w, owners, m, items, now, u, k, m[k]);
    case Incoming(key, env, at, c) => PutNeverLowers(w.hash, m, key, env, at, c, k);
    case Lose(keys) =>
  }
}
