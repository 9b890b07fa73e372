/** What the lease check publishes, and when it arms its throttle. */
module ReconcilerLeases {
  import opened Bytes
  import opened Records
  import opened Store
  import opened Reconcilers

  /** This publication is of a listed own record that is not revoked, at its storage keys. */
  ghost predicate Existing(w: World, owners: Keychain, items: seq<Item>, p: Published) {
    && !p.env.record.revoked && p.env.signer in owners
    && exists i :: 0 <= i < |items| && items[i].env == p.env && StorageKeys(w, p.env) == Some(p.keys)
  }

  predicate Agrees(w: World, r: Reply, e: Envelope) { r.Found? && w.hash(r.env) == w.hash(e) }

  /** A question of this pass, put for this storage key of a listed own record, was answered with that record at `at`. */
  ghost predicate Shown(w: World, owners: Keychain, items: seq<Item>, asks: seq<Ask>, n: (ByteString, nat), at: int) {
    exists i, c :: 0 <= i < |items| && 0 <= c < |asks| && Answered(w, owners, items[i].env, asks[c], n, at)
  }

  ghost predicate Answered(w: World, owners: Keychain, e: Envelope, a: Ask, n: (ByteString, nat), at: int) {
    && !e.record.revoked && e.signer in owners && e.record.name == n.0
    && StorageKeys(w, e).Some? && n.1 < |StorageKeys(w, e).value|
    && a.key == StorageKeys(w, e).value[n.1] && Agrees(w, a.reply, e) && a.at == at
  }

  ghost predicate Armed(w: World, owners: Keychain, items: seq<Item>, asks: seq<Ask>, t: Throttle, t': Throttle) {
    forall n :: n in t' ==> (n in t && t'[n] == t[n]) || Shown(w, owners, items, asks, n, t'[n])
  }

  /** The questions are real: each got what the network answers to that visit. */
  ghost predicate Asked(net: (nat, Key) -> Reply, clock: nat -> int, s: Check) {
    && |s.asks| <= s.visits
    && forall c :: 0 <= c < |s.asks| ==>
         exists v: nat :: v < s.visits && s.asks[c].reply == net(v, s.asks[c].key) && s.asks[c].at == clock(v)
  }

  ghost predicate AllExisting(w: World, owners: Keychain, items: seq<Item>, ps: seq<Published>) {
    forall j :: 0 <= j < |ps| ==> Existing(w, owners, items, ps[j])
  }

  lemma ExistingLonger(w: World, owners: Keychain, items: seq<Item>, x: Item, p: Published)
    requires Existing(w, owners, items, p)
    ensures Existing(w, owners, items + [x], p)
  {
    var i :| 0 <= i < |items| && items[i].env == p.env && StorageKeys(w, p.env) == Some(p.keys);
    assert (items + [x])[i] == items[i];
  }

  lemma ShownLonger(w: World, owners: Keychain, items: seq<Item>, more: seq<Item>, asks: seq<Ask>, asked: seq<Ask>, n: (ByteString, nat), at: int)
    requires Shown(w, owners, items, asks, n, at) && items <= more && asks <= asked
    ensures Shown(w, owners, more, asked, n, at)
  {
    hide Answered;
    var i, c :| 0 <= i < |items| && 0 <= c < |asks| && Answered(w, owners, items[i].env, asks[c], n, at);
    assert more[i] == items[i] && asked[c] == asks[c];
  }

  /** One key: publishes only this record, arms only on sight of it in an answer to its own question. */
  lemma CheckAtStep(w: World, owners: Keychain, items: seq<Item>, s: Check, i: nat, keys: seq<Key>, j: nat, net: (nat, Key) -> Reply, clock: nat -> int, t: Throttle)
    requires i < |items| && Mine(owners, items[i].env) && StorageKeys(w, items[i].env) == Some(keys) && j < |keys|
    requires AllExisting(w, owners, items, s.published) && Armed(w, owners, items, s.asks, t, s.throttle) && Asked(net, clock, s)
    ensures
      var s' := CheckAt(w, s, items[i].env, keys, j, net, clock);
      && AllExisting(w, owners, items, s'.published) && Armed(w, owners, items, s'.asks, t, s'.throttle) && Asked(net, clock, s')
  {
    hide Mine, StorageKeys, Throttled, Shown, Asked, Existing;
    var e := items[i].env;
    var s' := CheckAt(w, s, e, keys, j, net, clock);
    AskedStep(w, s, e, keys, j, net, clock);
    assert Existing(w, owners, items, Published(keys, e)) by { ExistingHere(w, owners, items, i, keys); }
    forall n | n in s.throttle && Shown(w, owners, items, s.asks, n, s.throttle[n])
      ensures Shown(w, owners, items, s'.asks, n, s.throttle[n])
    {
      ShownLonger(w, owners, items, items, s.asks, s'.asks, n, s.throttle[n]);
    }
    if |s'.asks| > |s.asks| && Agrees(w, net(s.visits, keys[j]), e) {
      ShownHere(w, owners, items, i, keys, j, s'.asks, clock(s.visits));
    }
  }

  lemma ExistingHere(w: World, owners: Keychain, items: seq<Item>, i: nat, keys: seq<Key>)
    requires i < |items| && Mine(owners, items[i].env) && StorageKeys(w, items[i].env) == Some(keys)
    ensures Existing(w, owners, items, Published(keys, items[i].env))
  {
  }

  lemma ShownHere(w: World, owners: Keychain, items: seq<Item>, i: nat, keys: seq<Key>, j: nat, asks: seq<Ask>, at: int)
    requires i < |items| && Mine(owners, items[i].env) && StorageKeys(w, items[i].env) == Some(keys) && j < |keys|
    requires asks != [] && asks[|asks| - 1].key == keys[j] && Agrees(w, asks[|asks| - 1].reply, items[i].env) && asks[|asks| - 1].at == at
    ensures Shown(w, owners, items, asks, (items[i].env.record.name, j), at)
  {
    assert Answered(w, owners, items[i].env, asks[|asks| - 1], (items[i].env.record.name, j), at);
  }

  lemma AskedStep(w: World, s: Check, e: Envelope, keys: seq<Key>, j: nat, net: (nat, Key) -> Reply, clock: nat -> int)
    requires j < |keys| && Asked(net, clock, s)
    ensures
      var s' := CheckAt(w, s, e, keys, j, net, clock);
      && Asked(net, clock, s') && s.asks <= s'.asks
      && (s'.asks == s.asks || s'.asks == s.asks + [Ask(e, j, keys[j], net(s.visits, keys[j]), clock(s.visits))])
  {
    hide Throttled;
    var s' := CheckAt(w, s, e, keys, j, net, clock);
    var a := Ask(e, j, keys[j], net(s.visits, keys[j]), clock(s.visits));
    assert s'.asks == s.asks || s'.asks == s.asks + [a];
    forall c | 0 <= c < |s'.asks|
      ensures exists v: nat :: v < s'.visits && s'.asks[c].reply == net(v, s'.asks[c].key) && s'.asks[c].at == clock(v)
    {
      if c < |s.asks| {
        assert s'.asks[c] == s.asks[c];
        var v: nat :| v < s.visits && s.asks[c].reply == net(v, s.asks[c].key) && s.asks[c].at == clock(v);
        assert v < s'.visits;
      } else {
        assert s'.asks[c] == a && s.visits < s'.visits;
      }
    }
  }

  lemma {:induction false} CheckKeysStep(w: World, owners: Keychain, items: seq<Item>, s: Check, i: nat, keys: seq<Key>, n: nat, net: (nat, Key) -> Reply, clock: nat -> int, t: Throttle)
    requires i < |items| && Mine(owners, items[i].env) && StorageKeys(w, items[i].env) == Some(keys) && n <= |keys|
    requires AllExisting(w, owners, items, s.published) && Armed(w, owners, items, s.asks, t, s.throttle) && Asked(net, clock, s)
    ensures
      var s' := CheckKeys(w, s, items[i].env, keys, n, net, clock);
      && AllExisting(w, owners, items, s'.published) && Armed(w, owners, items, s'.asks, t, s'.throttle) && Asked(net, clock, s')
  {
    hide Mine, StorageKeys, CheckAt, AllExisting, Armed, Asked;
    if n > 0 {
      CheckKeysStep(w, owners, items, s, i, keys, n - 1, net, clock, t);
      CheckAtStep(w, owners, items, CheckKeys(w, s, items[i].env, keys, n - 1, net, clock), i, keys, n - 1, net, clock, t);
    }
  }

  lemma Longer(w: World, owners: Keychain, items: seq<Item>, x: Item, s: Check, t: Throttle)
    requires AllExisting(w, owners, items, s.published) && Armed(w, owners, items, s.asks, t, s.throttle)
    ensures AllExisting(w, owners, items + [x], s.published) && Armed(w, owners, items + [x], s.asks, t, s.throttle)
  {
    hide Existing, Shown;
    forall j | 0 <= j < |s.published| ensures Existing(w, owners, items + [x], s.published[j]) {
      ExistingLonger(w, owners, items, x, s.published[j]);
    }
    forall n | n in s.throttle && Shown(w, owners, items, s.asks, n, s.throttle[n])
      ensures Shown(w, owners, items + [x], s.asks, n, s.throttle[n])
    {
      ShownLonger(w, owners, items, items + [x], s.asks, s.asks, n, s.throttle[n]);
    }
  }

  lemma CheckNext(w: World, owners: Keychain, t: Throttle, items: seq<Item>, x: Item, net: (nat, Key) -> Reply, clock: nat -> int)
    ensures
      var s := CheckAll(w, owners, t, items, net, clock);
      var keys := StorageKeys(w, x.env);
      CheckAll(w, owners, t, items + [x], net, clock) ==
      if Mine(owners, x.env) && keys.Some? then CheckKeys(w, s, x.env, keys.value, |keys.value|, net, clock) else s
  {
    hide CheckKeys;
    assert (items + [x])[..|items|] == items;
  }

  /**
    For every network: what the pass publishes already exists in the store, is own and not
    revoked; and a throttle mark that is new was set at a moment the network, asked for that very
    storage key, showed the same hash.
   */
  lemma {:induction false} CheckIsSafe(w: World, owners: Keychain, t: Throttle, items: seq<Item>, net: (nat, Key) -> Reply, clock: nat -> int)
    ensures AllExisting(w, owners, items, CheckAll(w, owners, t, items, net, clock).published)
    ensures
      var s := CheckAll(w, owners, t, items, net, clock);
      Armed(w, owners, items, s.asks, t, s.throttle) && Asked(net, clock, s)
  {
    hide CheckKeys, Existing, Shown, Mine, StorageKeys;
    if items != [] {
      var rest := items[..|items| - 1];
      var x := items[|items| - 1];
      assert items == rest + [x];
      CheckIsSafe(w, owners, t, rest, net, clock);
      CheckNext(w, owners, t, rest, x, net, clock);
      var s := CheckAll(w, owners, t, rest, net, clock);
      Longer(w, owners, rest, x, s, t);
      var keys := StorageKeys(w, x.env);
      if Mine(owners, x.env) && keys.Some? {
        CheckKeysStep(w, owners, items, s, |rest|, keys.value, |keys.value|, net, clock, t);
      }
    }
  }

  // ----- repair ---------------------------------------------------------------------------------

  /** A conclusive answer other than the record asked for. */
  predicate Refutes(w: World, a: Ask) { !a.reply.Inconclusive? && !Agrees(w, a.reply, a.env) }

  /** One publication, at the record's own keys, for every question with such an answer, in order. */
  ghost function Repairs(w: World, asks: seq<Ask>): seq<Published> {
    if asks == [] then []
    else
      var a := asks[|asks| - 1];
      Repairs(w, asks[..|asks| - 1]) +
      if Refutes(w, a) && StorageKeys(w, a.env).Some? then [Published(StorageKeys(w, a.env).value, a.env)] else []
  }

  lemma RepairsNext(w: World, asks: seq<Ask>, a: Ask)
    ensures Repairs(w, asks + [a]) ==
            Repairs(w, asks) + if Refutes(w, a) && StorageKeys(w, a.env).Some? then [Published(StorageKeys(w, a.env).value, a.env)] else []
  {
    hide StorageKeys, Refutes;
    assert (asks + [a])[..|asks|] == asks;
  }

  lemma CheckAtRepairs(w: World, s: Check, e: Envelope, keys: seq<Key>, j: nat, net: (nat, Key) -> Reply, clock: nat -> int)
    requires j < |keys| && StorageKeys(w, e) == Some(keys) && s.published == Repairs(w, s.asks)
    ensures CheckAt(w, s, e, keys, j, net, clock).published == Repairs(w, CheckAt(w, s, e, keys, j, net, clock).asks)
  {
    hide StorageKeys, Repairs, Throttled;
    RepairsNext(w, s.asks, Ask(e, j, keys[j], net(s.visits, keys[j]), clock(s.visits)));
  }

  lemma {:induction false} CheckKeysRepairs(w: World, s: Check, e: Envelope, keys: seq<Key>, n: nat, net: (nat, Key) -> Reply, clock: nat -> int)
    requires n <= |keys| && StorageKeys(w, e) == Some(keys) && s.published == Repairs(w, s.asks)
    ensures CheckKeys(w, s, e, keys, n, net, clock).published == Repairs(w, CheckKeys(w, s, e, keys, n, net, clock).asks)
  {
    hide StorageKeys, Repairs, CheckAt;
    if n > 0 {
      CheckKeysRepairs(w, s, e, keys, n - 1, net, clock);
      CheckAtRepairs(w, CheckKeys(w, s, e, keys, n - 1, net, clock), e, keys, n - 1, net, clock);
    }
  }

  /** For every network and throttle: the pass publishes once, in order, for every question that was refuted, and nothing else. */
  lemma {:induction false} PublishedAreRepairs(w: World, owners: Keychain, t: Throttle, items: seq<Item>, net: (nat, Key) -> Reply, clock: nat -> int)
    ensures
      var s := CheckAll(w, owners, t, items, net, clock);
      s.published == Repairs(w, s.asks)
  {
    hide StorageKeys, Refutes, CheckKeys, Mine;
    if items != [] {
      var rest := items[..|items| - 1];
      var x := items[|items| - 1];
      assert items == rest + [x];
      PublishedAreRepairs(w, owners, t, rest, net, clock);
      CheckNext(w, owners, t, rest, x, net, clock);
      var keys := StorageKeys(w, x.env);
      if keys.Some? {
        CheckKeysRepairs(w, CheckAll(w, owners, t, rest, net, clock), x.env, keys.value, |keys.value|, net, clock);
      }
    }
  }

  lemma {:induction false} RepairsMembers(w: World, asks: seq<Ask>, e: Envelope)
    requires StorageKeys(w, e).Some?
    ensures Published(StorageKeys(w, e).value, e) in Repairs(w, asks) <==>
            exists c :: 0 <= c < |asks| && asks[c].env == e && Refutes(w, asks[c])
  {
    hide StorageKeys, Refutes;
    if asks != [] {
      var n := |asks| - 1;
      RepairsMembers(w, asks[..n], e);
      var more := Repairs(w, asks)[|Repairs(w, asks[..n])|..];
      assert Repairs(w, asks) == Repairs(w, asks[..n]) + more;
      assert forall p :: p in Repairs(w, asks) <==> p in Repairs(w, asks[..n]) || p in more;
      assert forall c :: 0 <= c < n ==> asks[..n][c] == asks[c];
    }
  }

  /** A record is published again exactly when a question asked for it in this pass was answered conclusively with something else. */
  lemma RepublishedIff(w: World, owners: Keychain, t: Throttle, items: seq<Item>, net: (nat, Key) -> Reply, clock: nat -> int, e: Envelope)
    ensures
      var s := CheckAll(w, owners, t, items, net, clock);
      (StorageKeys(w, e).Some? && Published(StorageKeys(w, e).value, e) in s.published) <==>
      exists c :: 0 <= c < |s.asks| && s.asks[c].env == e && Refutes(w, s.asks[c])
  {
    hide StorageKeys, Refutes, CheckAll, Repairs;
    var s := CheckAll(w, owners, t, items, net, clock);
    PublishedAreRepairs(w, owners, t, items, net, clock);
    if StorageKeys(w, e).Some? {
      RepairsMembers(w, s.asks, e);
    }
    AskedHaveKeys(w, owners, t, items, net, clock);
  }

  /** Questions are asked only for records with storage keys, each at the key with its index. */
  ghost predicate Keyed(w: World, asks: seq<Ask>) {
    forall c :: 0 <= c < |asks| ==>
      var keys := StorageKeys(w, asks[c].env);
      keys.Some? && asks[c].index < |keys.value| && asks[c].key == keys.value[asks[c].index]
  }

  lemma {:induction false} KeysKeyed(w: World, s: Check, e: Envelope, keys: seq<Key>, n: nat, net: (nat, Key) -> Reply, clock: nat -> int)
    requires n <= |keys| && StorageKeys(w, e) == Some(keys) && Keyed(w, s.asks)
    ensures Keyed(w, CheckKeys(w, s, e, keys, n, net, clock).asks)
  {
    hide StorageKeys, Throttled;
    if n > 0 {
      KeysKeyed(w, s, e, keys, n - 1, net, clock);
    }
  }

  lemma {:induction false} AskedHaveKeys(w: World, owners: Keychain, t: Throttle, items: seq<Item>, net: (nat, Key) -> Reply, clock: nat -> int)
    ensures Keyed(w, CheckAll(w, owners, t, items, net, clock).asks)
  {
    hide StorageKeys, CheckKeys, Mine;
    if items != [] {
      var rest := items[..|items| - 1];
      var x := items[|items| - 1];
      assert items == rest + [x];
      AskedHaveKeys(w, owners, t, rest, net, clock);
      CheckNext(w, owners, t, rest, x, net, clock);
      var keys := StorageKeys(w, x.env);
      if keys.Some? {
        KeysKeyed(w, CheckAll(w, owners, t, rest, net, clock), x.env, keys.value, |keys.value|, net, clock);
      }
    }
  }

  // ----- no lease is passed over ----------------------------------------------------------------

  /** This key of this record was asked for in this pass. */
  ghost predicate AskedFor(asks: seq<Ask>, e: Envelope, j: nat) {
    exists c :: 0 <= c < |asks| && asks[c].env == e && asks[c].index == j
  }

  /** A mark from before the pass was under an hour old at one of its visits. */
  ghost predicate MarkedBefore(t: Throttle, n: (ByteString, nat), clock: nat -> int, visits: nat) {
    exists v: nat :: v < visits && n in t && clock(v) - t[n] < 3600
  }

  /** The network showed, in this pass, the record of this name that was asked for at this key. */
  ghost predicate SeenNow(w: World, asks: seq<Ask>, n: (ByteString, nat)) {
    exists c :: 0 <= c < |asks| && (asks[c].env.record.name, asks[c].index) == n && Agrees(w, asks[c].reply, asks[c].env)
  }

  /** The check of one key of one record is accounted for. */
  ghost predicate Checked(w: World, t: Throttle, clock: nat -> int, s: Check, e: Envelope, j: nat) {
    AskedFor(s.asks, e, j) || MarkedBefore(t, (e.record.name, j), clock, s.visits) || SeenNow(w, s.asks, (e.record.name, j))
  }

  /** A mark is from before the pass, or this pass's network showed the record. */
  ghost predicate MarksFrom(w: World, t: Throttle, s: Check) {
    forall n :: n in s.throttle ==> (n in t && s.throttle[n] == t[n]) || SeenNow(w, s.asks, n)
  }

  lemma Extends(w: World, t: Throttle, clock: nat -> int, s: Check, s': Check, e: Envelope, j: nat)
    requires s.asks <= s'.asks && s.visits <= s'.visits
    ensures Checked(w, t, clock, s, e, j) ==> Checked(w, t, clock, s', e, j)
    ensures forall n :: SeenNow(w, s.asks, n) ==> SeenNow(w, s'.asks, n)
  {
    hide Throttled, Agrees;
    assert forall c :: 0 <= c < |s.asks| ==> s'.asks[c] == s.asks[c];
  }

  lemma CheckAtAccounts(w: World, t: Throttle, s: Check, e: Envelope, keys: seq<Key>, j: nat, net: (nat, Key) -> Reply, clock: nat -> int)
    requires j < |keys| && MarksFrom(w, t, s)
    ensures
      var s' := CheckAt(w, s, e, keys, j, net, clock);
      s.asks <= s'.asks && s.visits <= s'.visits && MarksFrom(w, t, s') && Checked(w, t, clock, s', e, j)
  {
    hide SeenNow, AskedFor, MarkedBefore;
    var s' := CheckAt(w, s, e, keys, j, net, clock);
    var n, now := (e.record.name, j), clock(s.visits);
    assert s.asks <= s'.asks;
    Extends(w, t, clock, s, s', e, j);
    if Throttled(s.throttle, n, now) {
      assert Throttled(t, n, now) || SeenNow(w, s.asks, n);
      assert Throttled(t, n, now) ==> MarkedBefore(t, n, clock, s'.visits) by { MarkedAt(t, n, clock, s'.visits, s.visits); }
    } else {
      LastAsk(w, s'.asks, e, j);
    }
  }

  lemma MarkedAt(t: Throttle, n: (ByteString, nat), clock: nat -> int, visits: nat, v: nat)
    requires v < visits
    ensures Throttled(t, n, clock(v)) ==> MarkedBefore(t, n, clock, visits)
  {
  }

  lemma LastAsk(w: World, asks: seq<Ask>, e: Envelope, j: nat)
    requires asks != [] && asks[|asks| - 1].env == e && asks[|asks| - 1].index == j
    ensures AskedFor(asks, e, j)
    ensures Agrees(w, asks[|asks| - 1].reply, e) ==> SeenNow(w, asks, (e.record.name, j))
  {
  }

  lemma {:induction false} CheckKeysAccounts(w: World, t: Throttle, s: Check, e: Envelope, keys: seq<Key>, n: nat, net: (nat, Key) -> Reply, clock: nat -> int)
    requires n <= |keys| && MarksFrom(w, t, s)
    ensures
      var s' := CheckKeys(w, s, e, keys, n, net, clock);
      && s.asks <= s'.asks && s.visits <= s'.visits && MarksFrom(w, t, s')
      && forall j :: 0 <= j < n ==> Checked(w, t, clock, s', e, j)
  {
    hide CheckAt, MarksFrom, Checked, SeenNow;
    if n > 0 {
      CheckKeysAccounts(w, t, s, e, keys, n - 1, net, clock);
      var before, after := CheckKeys(w, s, e, keys, n - 1, net, clock), CheckKeys(w, s, e, keys, n, net, clock);
      CheckAtAccounts(w, t, before, e, keys, n - 1, net, clock);
      forall j | 0 <= j < n - 1 ensures Checked(w, t, clock, after, e, j) {
        Extends(w, t, clock, before, after, e, j);
      }
    }
  }

  /**
    Every key of every own record is asked for, unless a mark from before the pass was fresh or
    the network showed the record of that name at that key in this very pass.
   */
  lemma {:induction false} EveryLeaseIsChecked(w: World, owners: Keychain, t: Throttle, items: seq<Item>, net: (nat, Key) -> Reply, clock: nat -> int, i: nat, j: nat)
    requires i < |items| && !items[i].env.record.revoked && items[i].env.signer in owners
    requires StorageKeys(w, items[i].env).Some? && j < |StorageKeys(w, items[i].env).value|
    ensures Checked(w, t, clock, CheckAll(w, owners, t, items, net, clock), items[i].env, j)
  {
    hide CheckKeys, StorageKeys, Checked, MarksFrom;
    var n := |items| - 1;
    var rest, x := items[..n], items[n];
    assert items == rest + [x];
    CheckNext(w, owners, t, rest, x, net, clock);
    MarksAccounted(w, owners, t, rest, net, clock);
    var s, keys := CheckAll(w, owners, t, rest, net, clock), StorageKeys(w, x.env);
    if keys.Some? {
      CheckKeysAccounts(w, t, s, x.env, keys.value, |keys.value|, net, clock);
    }
    if i < n {
      EveryLeaseIsChecked(w, owners, t, rest, net, clock, i, j);
      Extends(w, t, clock, s, CheckAll(w, owners, t, items, net, clock), items[i].env, j);
    }
  }

  lemma {:induction false} MarksAccounted(w: World, owners: Keychain, t: Throttle, items: seq<Item>, net: (nat, Key) -> Reply, clock: nat -> int)
    ensures MarksFrom(w, t, CheckAll(w, owners, t, items, net, clock))
  {
    hide CheckKeys, Mine, StorageKeys, SeenNow;
    if items != [] {
      var rest, x := items[..|items| - 1], items[|items| - 1];
      assert items == rest + [x];
      MarksAccounted(w, owners, t, rest, net, clock);
      CheckNext(w, owners, t, rest, x, net, clock);
      var keys := StorageKeys(w, x.env);
      if keys.Some? {
        CheckKeysAccounts(w, t, CheckAll(w, owners, t, rest, net, clock), x.env, keys.value, |keys.value|, net, clock);
      }
    }
  }

  // ----- no lease is asked for twice within the hour --------------------------------------------

  /** What a question was about: a name and the index of one of its keys. */
  function About(a: Ask): (ByteString, nat) { (a.env.record.name, a.index) }

  /** Every question comes an hour or more after the mark it found, and after every agreeing answer to an earlier one. */
  ghost predicate Hourly(w: World, t: Throttle, asks: seq<Ask>) {
    && (forall c :: 0 <= c < |asks| && About(asks[c]) in t ==> asks[c].at - t[About(asks[c])] >= 3600)
    && (forall c, d :: 0 <= d < c < |asks| && About(asks[d]) == About(asks[c]) && Agrees(w, asks[d].reply, asks[d].env) ==>
          asks[c].at - asks[d].at >= 3600)
  }

  /** The marks remember: none is older than the one before the pass, nor than an agreeing answer. */
  ghost predicate Remembers(w: World, t: Throttle, s: Check) {
    && (forall n :: n in t ==> n in s.throttle && s.throttle[n] >= t[n])
    && (forall c :: 0 <= c < |s.asks| && Agrees(w, s.asks[c].reply, s.asks[c].env) ==>
          About(s.asks[c]) in s.throttle && s.throttle[About(s.asks[c])] >= s.asks[c].at)
  }

  /** The marks after a question. */
  ghost function MarkedBy(w: World, t: Throttle, a: Ask): Throttle {
    if Agrees(w, a.reply, a.env) then t[About(a) := a.at] else t
  }

  lemma NextHourly(w: World, t: Throttle, s: Check, a: Ask)
    requires Hourly(w, t, s.asks) && Remembers(w, t, s)
    requires About(a) in s.throttle ==> a.at - s.throttle[About(a)] >= 3600
    ensures Hourly(w, t, s.asks + [a])
  {
    hide Agrees;
  }

  lemma NextRemembers(w: World, t: Throttle, s: Check, s': Check, a: Ask)
    requires Remembers(w, t, s)
    requires About(a) in s.throttle ==> a.at >= s.throttle[About(a)]
    requires s'.asks == s.asks + [a] && s'.throttle == MarkedBy(w, s.throttle, a)
    ensures Remembers(w, t, s')
  {
    hide Agrees;
  }

  lemma CheckAtHourly(w: World, t: Throttle, s: Check, e: Envelope, keys: seq<Key>, j: nat, net: (nat, Key) -> Reply, clock: nat -> int)
    requires j < |keys| && Hourly(w, t, s.asks) && Remembers(w, t, s)
    ensures
      var s' := CheckAt(w, s, e, keys, j, net, clock);
      Hourly(w, t, s'.asks) && Remembers(w, t, s')
  {
    hide Hourly;
    var a := Ask(e, j, keys[j], net(s.visits, keys[j]), clock(s.visits));
    var s' := CheckAt(w, s, e, keys, j, net, clock);
    if !Throttled(s.throttle, About(a), a.at) {
      NextHourly(w, t, s, a);
      NextRemembers(w, t, s, s', a);
    }
  }

  lemma {:induction false} CheckKeysHourly(w: World, t: Throttle, s: Check, e: Envelope, keys: seq<Key>, n: nat, net: (nat, Key) -> Reply, clock: nat -> int)
    requires n <= |keys| && Hourly(w, t, s.asks) && Remembers(w, t, s)
    ensures
      var s' := CheckKeys(w, s, e, keys, n, net, clock);
      Hourly(w, t, s'.asks) && Remembers(w, t, s')
  {
    hide CheckAt, Hourly, Remembers;
    if n > 0 {
      CheckKeysHourly(w, t, s, e, keys, n - 1, net, clock);
      CheckAtHourly(w, t, CheckKeys(w, s, e, keys, n - 1, net, clock), e, keys, n - 1, net, clock);
    }
  }

  /** For every network and clock: no key is asked for within an hour of its mark, or of an answer that showed the record. */
  lemma {:induction false} AskedHourly(w: World, owners: Keychain, t: Throttle, items: seq<Item>, net: (nat, Key) -> Reply, clock: nat -> int)
    ensures
      var s := CheckAll(w, owners, t, items, net, clock);
      Hourly(w, t, s.asks) && Remembers(w, t, s)
  {
    hide StorageKeys, CheckKeys, Mine;
    if items != [] {
      var rest, x := items[..|items| - 1], items[|items| - 1];
      assert items == rest + [x];
      AskedHourly(w, owners, t, rest, net, clock);
      CheckNext(w, owners, t, rest, x, net, clock);
      var keys := StorageKeys(w, x.env);
      if keys.Some? {
        CheckKeysHourly(w, t, CheckAll(w, owners, t, rest, net, clock), x.env, keys.value, |keys.value|, net, clock);
      }
    }
  }

  /** Nothing of ours is on the network, and every walk is conclusive. */
  ghost predicate Gone(net: (nat, Key) -> Reply) { forall c: nat, k :: net(c, k).Missing? || net(c, k).Failed? }

  /** A network that lost everything gets back, in one pass, every own record with a key that had no fresh mark; no mark is set. */
  lemma LostLeasesAreRepublished(w: World, owners: Keychain, t: Throttle, items: seq<Item>, net: (nat, Key) -> Reply, clock: nat -> int, i: nat, j: nat)
    requires Gone(net) && i < |items| && !items[i].env.record.revoked && items[i].env.signer in owners
    requires StorageKeys(w, items[i].env).Some? && j < |StorageKeys(w, items[i].env).value|
    requires
      var n := (items[i].env.record.name, j);
      n in t ==> forall v: nat :: clock(v) - t[n] >= 3600
    ensures Published(StorageKeys(w, items[i].env).value, items[i].env) in CheckAll(w, owners, t, items, net, clock).published
    ensures forall n :: n in CheckAll(w, owners, t, items, net, clock).throttle ==>
              n in t && CheckAll(w, owners, t, items, net, clock).throttle[n] == t[n]
  {
    hide CheckAll, StorageKeys, Throttled, AllExisting, Armed;
    var s, e := CheckAll(w, owners, t, items, net, clock), items[i].env;
    EveryLeaseIsChecked(w, owners, t, items, net, clock, i, j);
    CheckIsSafe(w, owners, t, items, net, clock);
    forall c | 0 <= c < |s.asks| ensures Refutes(w, s.asks[c]) {
      var v: nat :| v < s.visits && s.asks[c].reply == net(v, s.asks[c].key) && s.asks[c].at == clock(v);
    }
    var c :| 0 <= c < |s.asks| && s.asks[c].env == e && s.asks[c].index == j;
    assert Refutes(w, s.asks[c]);
    RepublishedIff(w, owners, t, items, net, clock, e);
    MarksAccounted(w, owners, t, items, net, clock);
  }
}
