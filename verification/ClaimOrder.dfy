/**
  The deterministic winner among competing claims: the order on (timestamp, pow_hash, tld_id),
  the linear minimum, the stable sort, and why every client converges on the same winner.
 */
module ClaimOrder {
  import opened Bytes
  import opened Claims

  /** The filter before ordering: key consistency and proof of work, no witness quorum. */
  ghost predicate Valid(w: World, c: Claim) {
    Consistent(w, c) && WorkDone(w, c, -1)
  }

  method CheckValid(w: World, c: Claim) returns (ok: bool)
    ensures ok <==> Valid(w, c)
    ensures ok <==> |c.claimantPk| == 32 && w.sha(c.claimantPk) == c.tldId && Worked(w, c, -1)
  {
    WorkDoneIs(w, c, -1);
    if !Consistent(w, c) {
      return false;
    }
    ok := VerifyPoW(w, c, -1);
  }

  /** Lexicographic comparison of byte strings: negative, zero or positive. */
  function Compare(x: ByteString, y: ByteString): int {
    if x == [] && y == [] then 0
    else if x == [] then -1
    else if y == [] then 1
    else if x[0] != y[0] then x[0] - y[0]
    else Compare(x[1..], y[1..])
  }

  predicate Less(a: Claim, b: Claim) {
    if a.timestamp != b.timestamp then a.timestamp < b.timestamp
    else if Compare(a.powHash, b.powHash) != 0 then Compare(a.powHash, b.powHash) < 0
    else Compare(a.tldId, b.tldId) < 0
  }

  predicate SameKey(a: Claim, b: Claim) {
    a.timestamp == b.timestamp && a.powHash == b.powHash && a.tldId == b.tldId
  }

  lemma {:induction false} CompareZero(x: ByteString, y: ByteString)
    ensures Compare(x, y) == 0 <==> x == y
    ensures Compare(x, y) < 0 <==> Compare(y, x) > 0
    ensures Compare(x, y) > 0 <==> Compare(y, x) < 0
  {
    if x != [] && y != [] {
      CompareZero(x[1..], y[1..]);
      assert x == [x[0]] + x[1..] && y == [y[0]] + y[1..];
    }
  }

  lemma {:induction false} CompareTransitive(x: ByteString, y: ByteString, z: ByteString)
    requires Compare(x, y) < 0 && Compare(y, z) < 0
    ensures Compare(x, z) < 0
  {
    if x != [] && y != [] && z != [] && x[0] == y[0] == z[0] {
      CompareTransitive(x[1..], y[1..], z[1..]);
    }
  }

  /** The order is a strict total order on keys. */
  lemma LessIsStrictTotal(a: Claim, b: Claim, c: Claim)
    ensures !Less(a, a)
    ensures Less(a, b) && Less(b, c) ==> Less(a, c)
    ensures Less(a, b) ==> !Less(b, a)
    ensures Less(a, b) || Less(b, a) || SameKey(a, b)
    ensures SameKey(a, b) ==> !Less(a, b)
    ensures Less(a, b) <==> !NotAfter(b, a)
  {
    hide Compare, NotAfter;
    NotBelowIsNotAfter(b, a);
    CompareZero(a.powHash, a.powHash);
    CompareZero(a.tldId, a.tldId);
    CompareZero(a.powHash, b.powHash);
    CompareZero(a.tldId, b.tldId);
    CompareZero(b.powHash, c.powHash);
    CompareZero(a.powHash, c.powHash);
    CompareZero(b.tldId, c.tldId);
    if Compare(a.powHash, b.powHash) < 0 && Compare(b.powHash, c.powHash) < 0 {
      CompareTransitive(a.powHash, b.powHash, c.powHash);
    }
    if Compare(a.tldId, b.tldId) < 0 && Compare(b.tldId, c.tldId) < 0 {
      CompareTransitive(a.tldId, b.tldId, c.tldId);
    }
  }

  // ----- what the order is ----------------------------------------------------------------------

  /** The earlier time stamp; then the smaller proof-of-work hash; then the smaller or equal identifier. */
  ghost predicate NotAfter(a: Claim, b: Claim) {
    || a.timestamp < b.timestamp
    || (a.timestamp == b.timestamp && BytesBefore(a.powHash, b.powHash))
    || (a.timestamp == b.timestamp && a.powHash == b.powHash && (a.tldId == b.tldId || BytesBefore(a.tldId, b.tldId)))
  }

  lemma {:induction false} CompareIsBytes(x: ByteString, y: ByteString)
    ensures Compare(x, y) < 0 <==> BytesBefore(x, y)
  {
    if x == [] || y == [] || x[0] != y[0] {
      if y != [] && (x == [] || x[0] < y[0]) {
        assert SplitsAt(x, y, 0);
      }
      forall n | 0 <= n <= |x| && n <= |y| && SplitsAt(x, y, n) ensures Compare(x, y) < 0 {
        SplitFirst(x, y, n);
      }
    } else {
      CompareIsBytes(x[1..], y[1..]);
      if BytesBefore(x[1..], y[1..]) {
        var n :| 0 <= n <= |x[1..]| && n <= |y[1..]| && SplitsAt(x[1..], y[1..], n);
        assert x[..n + 1] == [x[0]] + x[1..][..n] && y[..n + 1] == [y[0]] + y[1..][..n];
        assert SplitsAt(x, y, n + 1);
      }
      forall n | 0 <= n <= |x| && n <= |y| && SplitsAt(x, y, n) ensures BytesBefore(x[1..], y[1..]) {
        SplitFirst(x, y, n);
        assert x[1..][..n - 1] == x[..n][1..] && y[1..][..n - 1] == y[..n][1..];
        assert SplitsAt(x[1..], y[1..], n - 1);
      }
    }
  }

  lemma NotBelowIsNotAfter(a: Claim, b: Claim)
    ensures !Less(b, a) <==> NotAfter(a, b)
  {
    hide Compare, BytesBefore;
    CompareZero(a.powHash, b.powHash);
    CompareZero(b.powHash, a.powHash);
    CompareZero(a.tldId, b.tldId);
    CompareZero(b.tldId, a.tldId);
    CompareIsBytes(a.powHash, b.powHash);
    CompareIsBytes(b.powHash, a.powHash);
    CompareIsBytes(a.tldId, b.tldId);
    CompareIsBytes(b.tldId, a.tldId);
  }

  // ----- the winner -----------------------------------------------------------------------------

  /** Claim `at` of the list survives, beats every survivor before it and loses to none after it. */
  ghost predicate FirstLeast(cs: seq<Claim>, w: World, at: nat) {
    && at < |cs| && Valid(w, cs[at])
    && (forall j :: 0 <= j < at && Valid(w, cs[j]) ==> Less(cs[at], cs[j]))
    && (forall j :: at < j < |cs| && Valid(w, cs[j]) ==> !Less(cs[j], cs[at]))
  }

  /** The linear minimum. */
  method SelectWinner(cs: seq<Claim>, w: World) returns (best: Option<Claim>, ghost at: nat)
    ensures best.None? <==> forall j :: 0 <= j < |cs| ==> !Valid(w, cs[j])
    ensures best.Some? ==> FirstLeast(cs, w, at) && best.value == cs[at]
    ensures best.Some? ==> best.value in cs && forall c :: c in cs && Valid(w, c) ==> NotAfter(best.value, c)
  {
    hide Less, Valid, NotAfter;
    best, at := None, 0;
    for i := 0 to |cs|
      invariant best.None? <==> forall j :: 0 <= j < i ==> !Valid(w, cs[j])
      invariant best.Some? ==> FirstLeast(cs[..i], w, at) && best.value == cs[at]
    {
      var c := cs[i];
      assert forall j :: 0 <= j < i ==> cs[..i + 1][j] == cs[..i][j] == cs[j];
      var ok := CheckValid(w, c);
      if ok && (best.None? || Less(c, best.value)) {
        if best.Some? {
          Newcomer(cs, w, i, at);
        }
        best, at := Some(c), i;
      }
    }
    assert cs[..|cs|] == cs;
    if best.Some? {
      WinnerIsEarliest(cs, w, at);
    }
  }

  /** No survivor is earlier than the winner, has a smaller hash at the same time, or a smaller identifier at the same hash. */
  lemma WinnerIsEarliest(cs: seq<Claim>, w: World, at: nat)
    requires FirstLeast(cs, w, at)
    ensures forall c :: c in cs && Valid(w, c) ==> NotAfter(cs[at], c)
  {
    hide Less, Valid, NotAfter;
    forall c | c in cs && Valid(w, c) ensures NotAfter(cs[at], c) {
      var j :| 0 <= j < |cs| && cs[j] == c;
      LessIsStrictTotal(cs[at], c, cs[at]);
      NotBelowIsNotAfter(cs[at], c);
    }
  }

  lemma Newcomer(cs: seq<Claim>, w: World, i: nat, at: nat)
    requires i < |cs| && FirstLeast(cs[..i], w, at) && Less(cs[i], cs[at])
    ensures forall j :: 0 <= j < i && Valid(w, cs[j]) ==> Less(cs[i], cs[j])
  {
    hide Less, Valid;
    forall j | 0 <= j < i && Valid(w, cs[j]) ensures Less(cs[i], cs[j]) {
      assert cs[..i][j] == cs[j] && cs[..i][at] == cs[at];
      LessIsStrictTotal(cs[at], cs[j], cs[at]);
      BelowAndNotAbove(cs[i], cs[at], cs[j]);
    }
  }

  lemma SameKeyOrder(a: Claim, b: Claim, c: Claim)
    requires SameKey(b, c)
    ensures Less(a, b) <==> Less(a, c)
    ensures Less(b, a) <==> Less(c, a)
  {
  }

  /** The key of the winner depends only on which claims are present, not on order or repetition. */
  lemma WinnerKeyConverges(cs: seq<Claim>, ds: seq<Claim>, w: World, v: nat, at: nat)
    requires FirstLeast(cs, w, v) && FirstLeast(ds, w, at) && forall c :: c in cs <==> c in ds
    ensures SameKey(cs[v], ds[at])
  {
    hide Less, Valid;
    assert cs[v] in ds && ds[at] in cs;
    var i :| 0 <= i < |ds| && ds[i] == cs[v];
    var j :| 0 <= j < |cs| && cs[j] == ds[at];
    LessIsStrictTotal(cs[v], ds[at], cs[v]);
    LessIsStrictTotal(ds[at], cs[v], ds[at]);
  }

  /** The winner of two merged lists is the winner of their two winners, the left one on equal keys. */
  lemma WinnerOfMerge(a: seq<Claim>, b: seq<Claim>, w: World, v: nat, at: nat)
    requires FirstLeast(a, w, v) && FirstLeast(b, w, at)
    ensures FirstLeast(a + b, w, if Less(b[at], a[v]) then |a| + at else v)
    ensures FirstLeast([a[v], b[at]], w, if Less(b[at], a[v]) then 1 else 0)
  {
    hide Less, Valid;
    var m := a + b;
    assert forall j :: 0 <= j < |a| ==> m[j] == a[j];
    assert forall j :: |a| <= j < |m| ==> m[j] == b[j - |a|];
    LessIsStrictTotal(a[v], b[at], a[v]);
    if Less(b[at], a[v]) {
      forall j | 0 <= j < |a| && Valid(w, m[j]) ensures Less(b[at], m[j]) {
        NotAbove(a, w, v, j);
        BelowAndNotAbove(b[at], a[v], a[j]);
      }
    } else {
      forall j | |a| <= j < |m| && Valid(w, m[j]) ensures !Less(m[j], a[v]) {
        NotAbove(b, w, at, j - |a|);
        NotBelowChain(m[j], b[at], a[v]);
      }
    }
  }

  lemma NotAbove(cs: seq<Claim>, w: World, at: nat, j: nat)
    requires FirstLeast(cs, w, at) && j < |cs| && Valid(w, cs[j])
    ensures !Less(cs[j], cs[at])
  {
    hide Less, Valid;
    LessIsStrictTotal(cs[at], cs[j], cs[at]);
  }

  lemma BelowAndNotAbove(x: Claim, y: Claim, z: Claim)
    requires Less(x, y) && !Less(z, y)
    ensures Less(x, z)
  {
    hide Less, Valid;
    LessIsStrictTotal(y, z, x);
    LessIsStrictTotal(x, y, z);
    if SameKey(y, z) {
      SameKeyOrder(x, y, z);
    }
  }

  lemma NotBelowChain(x: Claim, y: Claim, z: Claim)
    requires !Less(x, y) && !Less(y, z)
    ensures !Less(x, z)
  {
    hide Less, Valid;
    if Less(x, z) {
      BelowAndNotAbove(x, z, y);
      assert false;
    }
  }

  // ----- the stable sort ------------------------------------------------------------------------

  /** Place `a` of the list comes before place `b`: smaller key, or equal key and earlier. */
  ghost predicate Before(cs: seq<Claim>, a: nat, b: nat)
    requires a < |cs| && b < |cs|
  {
    Less(cs[a], cs[b]) || (!Less(cs[b], cs[a]) && a < b)
  }

  /** `order` lists every surviving place below `k` once, in stable order. */
  ghost predicate Ordered(cs: seq<Claim>, w: World, k: nat, order: seq<nat>)
    requires k <= |cs|
  {
    && (forall i :: 0 <= i < |order| ==> order[i] < k && Valid(w, cs[order[i]]))
    && (forall i: nat :: i < k && Valid(w, cs[i]) ==> i in order)
    && (forall i, j :: 0 <= i < j < |order| ==> Before(cs, order[i], order[j]))
  }

  ghost predicate StableOrder(cs: seq<Claim>, w: World, order: seq<nat>) {
    Ordered(cs, w, |cs|, order)
  }

  /** The list shows the claims in that order. */
  ghost predicate Shows(cs: seq<Claim>, order: seq<nat>, out: seq<Claim>) {
    && |out| == |order|
    && forall i :: 0 <= i < |out| ==> order[i] < |cs| && out[i] == cs[order[i]]
  }

  /** Stable insertion of the survivors, first to last. */
  method OrderClaims(cs: seq<Claim>, w: World) returns (out: seq<Claim>)
    ensures exists order :: StableOrder(cs, w, order) && Shows(cs, order, out)
    ensures forall c :: c in out <==> c in cs && Valid(w, c)
    ensures forall i, j :: 0 <= i < j < |out| ==> NotAfter(out[i], out[j])
  {
    hide Less, Valid, Ordered, NotAfter;
    out := [];
    ghost var order: seq<nat> := [];
    assert Ordered(cs, w, 0, []) by { EmptyOrder(cs, w); }
    for k := 0 to |cs|
      invariant Ordered(cs, w, k, order) && Shows(cs, order, out)
    {
      var ok := CheckValid(w, cs[k]);
      if ok {
        var p := |out|;
        while p > 0 && Less(cs[k], out[p - 1])
          invariant 0 <= p <= |out| && forall i :: p <= i < |out| ==> Less(cs[k], out[i])
        {
          p := p - 1;
        }
        InsertKeepsOrder(cs, w, order, out, k, p);
        order := order[..p] + [k] + order[p..];
        out := out[..p] + [cs[k]] + out[p..];
      } else {
        SkipKeepsOrder(cs, w, order, k);
      }
    }
    assert StableOrder(cs, w, order) && Shows(cs, order, out);
    ListIsEarliestFirst(cs, w, order, out);
  }

  /** The list has exactly the survivors, earliest first, by hash at the same time and by identifier at the same hash. */
  lemma ListIsEarliestFirst(cs: seq<Claim>, w: World, order: seq<nat>, out: seq<Claim>)
    requires StableOrder(cs, w, order) && Shows(cs, order, out)
    ensures forall c :: c in out <==> c in cs && Valid(w, c)
    ensures forall i, j :: 0 <= i < j < |out| ==> NotAfter(out[i], out[j])
  {
    hide Less, Valid, NotAfter;
    forall c | c in cs && Valid(w, c) ensures c in out {
      var i :| 0 <= i < |cs| && cs[i] == c;
      assert i in order;
      var k :| 0 <= k < |order| && order[k] == i;
      assert out[k] == c;
    }
    forall i, j | 0 <= i < j < |out| ensures NotAfter(out[i], out[j]) {
      assert Before(cs, order[i], order[j]);
      LessIsStrictTotal(out[i], out[j], out[i]);
      NotBelowIsNotAfter(out[i], out[j]);
    }
  }

  lemma EmptyOrder(cs: seq<Claim>, w: World)
    ensures Ordered(cs, w, 0, [])
  {
  }

  lemma SkipKeepsOrder(cs: seq<Claim>, w: World, order: seq<nat>, k: nat)
    requires k < |cs| && Ordered(cs, w, k, order) && !Valid(w, cs[k])
    ensures Ordered(cs, w, k + 1, order)
  {
    hide Less, Valid;
  }

  lemma InsertKeepsOrder(cs: seq<Claim>, w: World, order: seq<nat>, out: seq<Claim>, k: nat, p: nat)
    requires k < |cs| && Valid(w, cs[k]) && Ordered(cs, w, k, order) && Shows(cs, order, out) && p <= |order|
    requires forall i :: p <= i < |out| ==> Less(cs[k], out[i])
    requires p > 0 ==> !Less(cs[k], out[p - 1])
    ensures Ordered(cs, w, k + 1, order[..p] + [k] + order[p..])
    ensures Shows(cs, order[..p] + [k] + order[p..], out[..p] + [cs[k]] + out[p..])
  {
    hide Less, Valid, Ordered, Before, Shows;
    var longer := order[..p] + [k] + order[p..];
    InsertShows(cs, order, out, k, p);
    InsertMembers(cs, w, order, k, p);
    InsertBefore(cs, w, order, out, k, p);
    InsertPairs(cs, w, order, k, p);
    FoldOrdered(cs, w, k + 1, longer);
  }

  lemma InsertShows(cs: seq<Claim>, order: seq<nat>, out: seq<Claim>, k: nat, p: nat)
    requires k < |cs| && Shows(cs, order, out) && p <= |order|
    ensures p <= |out| && Shows(cs, order[..p] + [k] + order[p..], out[..p] + [cs[k]] + out[p..])
  {
  }

  lemma FoldOrdered(cs: seq<Claim>, w: World, k: nat, order: seq<nat>)
    requires k <= |cs| && forall i :: 0 <= i < |order| ==> order[i] < k && Valid(w, cs[order[i]])
    requires forall i: nat :: i < k && Valid(w, cs[i]) ==> i in order
    requires forall i, j :: 0 <= i < j < |order| ==> Before(cs, order[i], order[j])
    ensures Ordered(cs, w, k, order)
  {
  }

  lemma InsertMembers(cs: seq<Claim>, w: World, order: seq<nat>, k: nat, p: nat)
    requires k < |cs| && Valid(w, cs[k]) && Ordered(cs, w, k, order) && p <= |order|
    ensures
      var longer := order[..p] + [k] + order[p..];
      && (forall i :: 0 <= i < |longer| ==> longer[i] < k + 1 && Valid(w, cs[longer[i]]))
      && (forall i: nat :: i < k + 1 && Valid(w, cs[i]) ==> i in longer)
  {
    hide Before, Valid;
    var longer := order[..p] + [k] + order[p..];
    forall i: nat | i < k + 1 && Valid(w, cs[i]) ensures i in longer {
      if i < k {
        var j :| 0 <= j < |order| && order[j] == i;
        assert longer[if j < p then j else j + 1] == i;
      } else {
        assert longer[p] == k;
      }
    }
  }

  lemma InsertBefore(cs: seq<Claim>, w: World, order: seq<nat>, out: seq<Claim>, k: nat, p: nat)
    requires k < |cs| && Ordered(cs, w, k, order) && Shows(cs, order, out) && p <= |order|
    requires forall i :: p <= i < |out| ==> Less(cs[k], out[i])
    requires p > 0 ==> !Less(cs[k], out[p - 1])
    ensures forall i :: 0 <= i < p ==> Before(cs, order[i], k)
    ensures forall i :: p <= i < |order| ==> Before(cs, k, order[i])
  {
    hide Less, Valid;
    forall i | 0 <= i < p ensures Before(cs, order[i], k) {
      EarlierNotAbove(cs, order, i, p);
      NotBelowChain(cs[k], out[p - 1], cs[order[i]]);
    }
  }

  lemma InsertPairs(cs: seq<Claim>, w: World, order: seq<nat>, k: nat, p: nat)
    requires k < |cs| && Ordered(cs, w, k, order) && p <= |order|
    requires forall i :: 0 <= i < p ==> Before(cs, order[i], k)
    requires forall i :: p <= i < |order| ==> Before(cs, k, order[i])
    ensures
      var longer := order[..p] + [k] + order[p..];
      && (forall i :: 0 <= i < |longer| ==> longer[i] < |cs|)
      && forall i, j :: 0 <= i < j < |longer| ==> Before(cs, longer[i], longer[j])
  {
    hide Before, Valid;
    var longer := order[..p] + [k] + order[p..];
    assert forall i :: 0 <= i < |longer| ==>
        longer[i] == (if i < p then order[i] else if i == p then k else order[i - 1]);
    forall i, j | 0 <= i < j < |longer| ensures Before(cs, longer[i], longer[j]) {
    }
  }

  lemma EarlierNotAbove(cs: seq<Claim>, order: seq<nat>, i: nat, p: nat)
    requires i < p <= |order| && forall j :: 0 <= j < |order| ==> order[j] < |cs|
    requires forall i, j :: 0 <= i < j < |order| ==> Before(cs, order[i], order[j])
    ensures !Less(cs[order[p - 1]], cs[order[i]])
  {
    hide Less, Valid;
    LessIsStrictTotal(cs[order[i]], cs[order[p - 1]], cs[order[i]]);
    assert i < p - 1 ==> Before(cs, order[i], order[p - 1]);
  }

  /** The winner is the first of the sorted survivors, on equal keys too. */
  lemma WinnerIsFirst(cs: seq<Claim>, w: World, order: seq<nat>, out: seq<Claim>, at: nat)
    requires StableOrder(cs, w, order) && Shows(cs, order, out) && FirstLeast(cs, w, at)
    ensures order != [] && order[0] == at && out != [] && out[0] == cs[at]
  {
    hide Less, Valid;
    assert at in order;
    var k :| 0 <= k < |order| && order[k] == at;
    if k > 0 {
      var f := order[0];
      assert Before(cs, f, at) && Valid(w, cs[f]);
      NotAbove(cs, w, at, f);
      assert false;
    }
  }

  /** There is only one stable order: every stable sort returns the same list. */
  lemma {:induction false} StableOrderUnique(cs: seq<Claim>, w: World, a: seq<nat>, b: seq<nat>, n: nat)
    requires StableOrder(cs, w, a) && StableOrder(cs, w, b) && n <= |a|
    ensures n <= |b| && a[..n] == b[..n]
  {
    hide Less, Valid;
    if n > 0 {
      StableOrderUnique(cs, w, a, b, n - 1);
      var i := n - 1;
      var x := a[i];
      SamePrefix(a, b, i);
      assert x in b;
      var j :| 0 <= j < |b| && b[j] == x;
      OrderDistinct(cs, w, a);
      var y := b[i];
      assert y in a;
      var k :| 0 <= k < |a| && a[k] == y;
      OrderDistinct(cs, w, b);
      if x != y {
        assert Before(cs, a[i], a[k]) && Before(cs, b[i], b[j]);
        BeforeAsymmetric(cs, x, y);
        assert false;
      }
      assert a[..n] == a[..i] + [x] && b[..n] == b[..i] + [y];
    }
  }

  lemma SamePrefix(a: seq<nat>, b: seq<nat>, n: nat)
    requires n <= |a| && n <= |b| && a[..n] == b[..n]
    ensures forall i :: 0 <= i < n ==> a[i] == b[i]
  {
    assert forall i :: 0 <= i < n ==> a[i] == a[..n][i] && b[i] == b[..n][i];
  }

  lemma BeforeAsymmetric(cs: seq<Claim>, a: nat, b: nat)
    requires a < |cs| && b < |cs| && Before(cs, a, b)
    ensures !Before(cs, b, a) && a != b
  {
    hide Less;
    LessIsStrictTotal(cs[a], cs[b], cs[a]);
  }

  lemma OrderDistinct(cs: seq<Claim>, w: World, order: seq<nat>)
    requires StableOrder(cs, w, order)
    ensures forall i, j :: 0 <= i < j < |order| ==> order[i] != order[j]
  {
    hide Less, Valid, Before;
    forall i, j | 0 <= i < j < |order| ensures order[i] != order[j] {
      BeforeAsymmetric(cs, order[i], order[j]);
    }
  }
}
