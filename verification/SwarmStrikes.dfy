/**
  What the peers' replies do to the rotation, over every interleaving: which replies cost a peer
  its place, that nothing else does, and that the rotation goes round.
 */
module SwarmStrikes {
  import opened Bytes
  import opened Swarm
  import opened SwarmRuns

  // ----- replies --------------------------------------------------------------------------------

  /** This event is a reply of a peer of this address to a worker's fetch. */
  ghost predicate Answers(s: State, e: Event, addr: string) {
    e.Fetch? && e.w < |s.ws| && s.ws[e.w].Fetching? && s.ws[e.w].peer.addr == addr
  }

  /** The peer says it has no such blob, or serves bytes whose hash is not the manifest's. */
  ghost predicate HardReply(wd: World, s: State, e: Event, addr: string) {
    && Answers(s, e, addr)
    && (|| e.reply.Absent?
        || (e.reply.Data? && (s.ws[e.w].i >= wd.N() || wd.hash(e.reply.d) != wd.man.chunks[s.ws[e.w].i])))
  }

  /** The fetch failed in transport. */
  ghost predicate SoftReply(s: State, e: Event, addr: string) {
    Answers(s, e, addr) && e.reply.Failed?
  }

  /** Two for an absent blob, one for a failure, five for wrong bytes, nothing for anything else. */
  ghost function Penalty(wd: World, s: State, e: Event, addr: string): nat {
    if HardReply(wd, s, e, addr) then if e.reply.Absent? then 2 else 5
    else if SoftReply(s, e, addr) then 1
    else 0
  }

  /** The penalties of this address among the first `k` events. */
  ghost function Earned(wd: World, es: seq<Event>, ss: seq<State>, k: nat, addr: string): nat
    requires k <= |es| && k < |ss|
  {
    if k == 0 then 0 else Earned(wd, es, ss, k - 1, addr) + Penalty(wd, ss[k - 1], es[k - 1], addr)
  }

  ghost predicate Strikes(x: Worker, addr: string) { x.Striking? && x.peer.addr == addr }

  ghost function Due(x: Worker, addr: string): nat { if Strikes(x, addr) then x.count else 0 }

  /** Strikes against this address that workers are about to count. */
  ghost function Owed(ws: seq<Worker>, addr: string): nat {
    if ws == [] then 0 else Due(ws[0], addr) + Owed(ws[1..], addr)
  }

  lemma {:induction false} OwedUpdate(ws: seq<Worker>, w: nat, x: Worker, addr: string)
    requires w < |ws|
    ensures Owed(ws[w := x], addr) == Owed(ws, addr) - Due(ws[w], addr) + Due(x, addr)
  {
    hide Due;
    if w == 0 {
      assert ws[0 := x][1..] == ws[1..];
    } else {
      assert ws[w := x][1..] == ws[1..][w - 1 := x];
      OwedUpdate(ws[1..], w - 1, x, addr);
    }
  }

  lemma {:induction false} NothingOwed(ws: seq<Worker>, addr: string)
    requires forall w :: 0 <= w < |ws| ==> !Strikes(ws[w], addr)
    ensures Owed(ws, addr) == 0
  {
    if ws != [] {
      NothingOwed(ws[1..], addr);
    }
  }

  // ----- counting -------------------------------------------------------------------------------

  /** A strike adds the worker's count to its peer's address; no other event and no other address moves a count. */
  lemma StrikesMove(wd: World, s: State, e: Event, addr: string)
    requires Enabled(wd, s, e)
    ensures StrikesOf(Next(wd, s, e).sh.strikes, addr) ==
            StrikesOf(s.sh.strikes, addr) + if e.Strike? && s.ws[e.w].peer.addr == addr then s.ws[e.w].count else 0
  {
  }

  /** One event: what is counted and what is owed grow together by the penalty of the reply. */
  lemma StrikesEarnedStep(wd: World, s: State, e: Event, addr: string)
    requires Enabled(wd, s, e)
    ensures
      var t := Next(wd, s, e);
      StrikesOf(t.sh.strikes, addr) + Owed(t.ws, addr) ==
      StrikesOf(s.sh.strikes, addr) + Owed(s.ws, addr) + Penalty(wd, s, e, addr)
  {
    hide Owed;
    var t := Next(wd, s, e);
    assert t.ws == s.ws[e.w := t.ws[e.w]];
    OwedUpdate(s.ws, e.w, t.ws[e.w], addr);
    StrikesMove(wd, s, e, addr);
  }

  /** In every interleaving the strikes counted and owed are exactly the penalties of the replies so far. */
  lemma {:induction false} StrikesAreEarned(wd: World, es: seq<Event>, ss: seq<State>, k: nat, addr: string)
    requires IsRun(wd, es, ss) && k <= |es|
    ensures StrikesOf(ss[k].sh.strikes, addr) + Owed(ss[k].ws, addr) == Earned(wd, es, ss, k, addr)
  {
    hide Next, Enabled, Penalty, Owed;
    if k == 0 {
      NothingOwed(ss[0].ws, addr);
    } else {
      StrikesAreEarned(wd, es, ss, k - 1, addr);
      StrikesEarnedStep(wd, ss[k - 1], es[k - 1], addr);
    }
  }

  ghost predicate AnyHard(wd: World, es: seq<Event>, ss: seq<State>, k: nat, addr: string)
    requires k <= |es| && k < |ss|
  {
    exists j :: 0 <= j < k && HardReply(wd, ss[j], es[j], addr)
  }

  ghost predicate AnySoft(es: seq<Event>, ss: seq<State>, k: nat, addr: string)
    requires k <= |es| && k < |ss|
  {
    exists j :: 0 <= j < k && SoftReply(ss[j], es[j], addr)
  }

  ghost predicate TwoSoft(es: seq<Event>, ss: seq<State>, k: nat, addr: string)
    requires k <= |es| && k < |ss|
  {
    exists i, j :: 0 <= i < j < k && SoftReply(ss[i], es[i], addr) && SoftReply(ss[j], es[j], addr)
  }

  /** Two strikes are one hard reply or two failures. */
  lemma {:induction false} EarnedTwo(wd: World, es: seq<Event>, ss: seq<State>, k: nat, addr: string)
    requires k <= |es| && k < |ss|
    ensures Earned(wd, es, ss, k, addr) >= 1 <==> AnyHard(wd, es, ss, k, addr) || AnySoft(es, ss, k, addr)
    ensures Earned(wd, es, ss, k, addr) >= 2 <==> AnyHard(wd, es, ss, k, addr) || TwoSoft(es, ss, k, addr)
  {
    hide HardReply, SoftReply;
    if k > 0 {
      EarnedTwo(wd, es, ss, k - 1, addr);
    }
  }

  // ----- who is out -----------------------------------------------------------------------------

  lemma InRotation(wd: World, es: seq<Event>, ss: seq<State>, k: nat, p: Peer)
    requires wd.Genuine() && IsRun(wd, es, ss) && k <= |es|
    ensures p in ss[k].sh.live <==> p in wd.start && StrikesOf(ss[k].sh.strikes, p.addr) < 2
  {
    hide Transfer, NoChunkLost, PopsPaid, StepsPaid, ExitsExplained, Init, Next, Enabled;
    EveryInterleaving(wd, es, ss, k);
    FilterMembers(wd.start, IsUnstruck(ss[k].sh.strikes));
  }

  /**
    While no worker is about to strike it, a starting peer is out of the rotation exactly when a
    peer of its address has given a hard reply or failed twice, in whatever interleaving.
   */
  lemma OutIff(wd: World, es: seq<Event>, ss: seq<State>, k: nat, p: Peer)
    requires wd.Genuine() && IsRun(wd, es, ss) && k <= |es| && p in wd.start
    requires forall w :: 0 <= w < |ss[k].ws| ==> !Strikes(ss[k].ws[w], p.addr)
    ensures p !in ss[k].sh.live <==> AnyHard(wd, es, ss, k, p.addr) || TwoSoft(es, ss, k, p.addr)
  {
    hide IsRun, Earned, Owed, AnyHard, AnySoft, TwoSoft;
    assert |ss| == |es| + 1 by { RunLength(wd, es, ss); }
    InRotation(wd, es, ss, k, p);
    StrikesAreEarned(wd, es, ss, k, p.addr);
    NothingOwed(ss[k].ws, p.addr);
    EarnedTwo(wd, es, ss, k, p.addr);
  }

  lemma RunLength(wd: World, es: seq<Event>, ss: seq<State>)
    requires IsRun(wd, es, ss)
    ensures |ss| == |es| + 1
  {
  }

  /** One failure alone removes nobody, whoever is about to strike: only a hard reply or a second failure does. */
  lemma OneFailureRemovesNobody(wd: World, es: seq<Event>, ss: seq<State>, k: nat, p: Peer)
    requires wd.Genuine() && IsRun(wd, es, ss) && k <= |es| && p in wd.start
    requires !AnyHard(wd, es, ss, k, p.addr) && !TwoSoft(es, ss, k, p.addr)
    ensures p in ss[k].sh.live
  {
    hide IsRun, Earned, Owed, AnyHard, AnySoft, TwoSoft;
    assert |ss| == |es| + 1 by { RunLength(wd, es, ss); }
    InRotation(wd, es, ss, k, p);
    StrikesAreEarned(wd, es, ss, k, p.addr);
    EarnedTwo(wd, es, ss, k, p.addr);
  }

  /** Worker `w` does nothing from event `f` on and before event `g`. */
  ghost predicate Rests(es: seq<Event>, f: nat, g: nat, w: nat)
    requires g <= |es|
  {
    forall j :: f <= j < g ==> es[j].w != w
  }

  lemma {:induction false} WorkerWaits(wd: World, es: seq<Event>, ss: seq<State>, f: nat, g: nat, w: nat)
    requires IsRun(wd, es, ss) && f <= g <= |es| && w < |ss[f].ws| && Rests(es, f, g, w)
    ensures w < |ss[g].ws| && ss[g].ws[w] == ss[f].ws[w]
    decreases g
  {
    hide Next, Enabled;
    if f < g {
      WorkerWaits(wd, es, ss, f, g - 1, w);
      OthersStay(wd, ss[g - 1], es[g - 1], w);
    }
  }

  lemma OthersStay(wd: World, s: State, e: Event, w: nat)
    requires Enabled(wd, s, e) && w < |s.ws| && e.w != w
    ensures |Next(wd, s, e).ws| == |s.ws| && Next(wd, s, e).ws[w] == s.ws[w]
  {
  }

  /** The worker that got a bad reply at event `f` counts it with its next event, and no less than its penalty. */
  lemma ReplyIsCounted(wd: World, es: seq<Event>, ss: seq<State>, f: nat, g: nat, addr: string)
    requires IsRun(wd, es, ss) && f < g < |es| && es[g].w == es[f].w && Rests(es, f + 1, g, es[f].w)
    requires HardReply(wd, ss[f], es[f], addr) || SoftReply(ss[f], es[f], addr)
    ensures es[g].Strike?
    ensures StrikesOf(ss[g + 1].sh.strikes, addr) == StrikesOf(ss[g].sh.strikes, addr) + Penalty(wd, ss[f], es[f], addr)
  {
    var w := es[f].w;
    assert Enabled(wd, ss[f], es[f]) && ss[f + 1] == Next(wd, ss[f], es[f]);
    FetchStrikes(wd, ss[f], es[f], addr);
    WorkerWaits(wd, es, ss, f + 1, g, w);
    assert Enabled(wd, ss[g], es[g]) && ss[g + 1] == Next(wd, ss[g], es[g]);
    StrikesMove(wd, ss[g], es[g], addr);
  }

  lemma FetchStrikes(wd: World, s: State, e: Event, addr: string)
    requires Enabled(wd, s, e) && (HardReply(wd, s, e, addr) || SoftReply(s, e, addr))
    ensures
      var t := Next(wd, s, e);
      e.w < |t.ws| && Strikes(t.ws[e.w], addr) && t.ws[e.w].count == Penalty(wd, s, e, addr)
  {
  }

  lemma {:induction false} StrikesGrow(wd: World, es: seq<Event>, ss: seq<State>, j: nat, k: nat, addr: string)
    requires IsRun(wd, es, ss) && j <= k <= |es|
    ensures StrikesOf(ss[j].sh.strikes, addr) <= StrikesOf(ss[k].sh.strikes, addr)
    decreases k
  {
    hide Next;
    if j < k {
      StrikesGrow(wd, es, ss, j, k - 1, addr);
      StrikesMove(wd, ss[k - 1], es[k - 1], addr);
    }
  }

  /** Once a hard reply has been counted, no peer of that address is in the rotation, at any later state. */
  lemma HardReplyRemoves(wd: World, es: seq<Event>, ss: seq<State>, f: nat, g: nat, k: nat, p: Peer)
    requires wd.Genuine() && IsRun(wd, es, ss) && f < g < k <= |es|
    requires HardReply(wd, ss[f], es[f], p.addr) && es[g].w == es[f].w && Rests(es, f + 1, g, es[f].w)
    ensures es[g].Strike? && p !in ss[k].sh.live
  {
    hide IsRun;
    assert |ss| == |es| + 1 by { RunLength(wd, es, ss); }
    ReplyIsCounted(wd, es, ss, f, g, p.addr);
    StrikesGrow(wd, es, ss, g + 1, k, p.addr);
    InRotation(wd, es, ss, k, p);
  }

  /** Likewise once two failures have been counted. */
  lemma TwoFailuresRemove(wd: World, es: seq<Event>, ss: seq<State>, f: nat, g: nat, f': nat, g': nat, k: nat, p: Peer)
    requires wd.Genuine() && IsRun(wd, es, ss) && f < g < g' && f' < g' < k <= |es|
    requires SoftReply(ss[f], es[f], p.addr) && es[g].w == es[f].w && Rests(es, f + 1, g, es[f].w)
    requires SoftReply(ss[f'], es[f'], p.addr) && es[g'].w == es[f'].w && Rests(es, f' + 1, g', es[f'].w)
    ensures es[g].Strike? && es[g'].Strike? && p !in ss[k].sh.live
  {
    hide IsRun;
    assert |ss| == |es| + 1 by { RunLength(wd, es, ss); }
    ReplyIsCounted(wd, es, ss, f, g, p.addr);
    ReplyIsCounted(wd, es, ss, f', g', p.addr);
    StrikesGrow(wd, es, ss, g + 1, g', p.addr);
    StrikesGrow(wd, es, ss, g' + 1, k, p.addr);
    InRotation(wd, es, ss, k, p);
  }

  // ----- going round ----------------------------------------------------------------------------

  /** How often a peer is picked from event `a` on and before event `b`. */
  ghost function Picks(es: seq<Event>, a: nat, b: nat): nat
    requires a <= b <= |es|
    decreases b
  {
    if a == b then 0 else Picks(es, a, b - 1) + if es[b - 1].PickPeer? then 1 else 0
  }

  ghost predicate NoStrike(es: seq<Event>, a: nat, b: nat)
    requires b <= |es|
  {
    forall j :: a <= j < b ==> !es[j].Strike?
  }

  lemma RotationMoves(wd: World, s: State, e: Event)
    requires Enabled(wd, s, e) && !e.Strike? && s.sh.live != []
    ensures
      var t := Next(wd, s, e);
      t.sh.live == s.sh.live && t.sh.liveIdx == s.sh.liveIdx + if e.PickPeer? then 1 else 0
  {
  }

  lemma {:induction false} RotationAdvances(wd: World, es: seq<Event>, ss: seq<State>, a: nat, b: nat)
    requires IsRun(wd, es, ss) && a <= b <= |es| && NoStrike(es, a, b) && ss[a].sh.live != []
    ensures ss[b].sh.live == ss[a].sh.live && ss[b].sh.liveIdx == ss[a].sh.liveIdx + Picks(es, a, b)
    decreases b
  {
    hide Next, Enabled;
    if a < b {
      RotationAdvances(wd, es, ss, a, b - 1);
      RotationMoves(wd, ss[b - 1], es[b - 1]);
    }
  }

  lemma {:induction false} FindPick(es: seq<Event>, a: nat, b: nat, c: nat) returns (k: nat)
    requires a <= b <= |es| && c < Picks(es, a, b)
    ensures a <= k < b && es[k].PickPeer? && Picks(es, a, k) == c
    decreases b
  {
    if c < Picks(es, a, b - 1) {
      k := FindPick(es, a, b - 1, c);
    } else {
      k := b - 1;
    }
  }

  lemma PickTakes(wd: World, s: State, e: Event)
    requires Enabled(wd, s, e) && e.PickPeer? && s.sh.live != []
    ensures
      var t := Next(wd, s, e);
      t.ws[e.w].Fetching? && t.ws[e.w].peer == s.sh.live[s.sh.liveIdx % |s.sh.live|]
  {
  }

  lemma GoesRound(i: nat, j: nat, n: nat) returns (c: nat)
    requires j < n
    ensures c < n && (i + c) % n == j
  {
    c := (j + n - i % n) % n;
    Wrapped(i, c, j, n);
  }

  lemma Wrapped(i: nat, c: nat, j: nat, n: nat)
    requires j < n && c == (j + n - i % n) % n
    ensures (i + c) % n == j
  {
    var q, r := i / n, i % n;
    assert i == q * n + r;
    if r <= j {
      SmallMod(j - r, n);
      assert j + n - r == n + (j - r);
      AddModulus(j - r, 1, n);
      AddModulus(j, q, n);
      assert i + c == q * n + j;
      SmallMod(j, n);
    } else {
      SmallMod(j + n - r, n);
      AddModulus(j, q + 1, n);
      assert (q + 1) * n == q * n + n;
      SmallMod(j, n);
    }
  }

  lemma SmallMod(x: nat, n: nat)
    requires x < n
    ensures x % n == x
  {
  }

  lemma {:induction false} AddModulus(x: nat, q: nat, n: nat)
    requires n > 0
    ensures (q * n + x) % n == x % n
    decreases q
  {
    if q > 0 {
      AddModulus(x, q - 1, n);
      assert q * n == (q - 1) * n + n;
      OneModulus((q - 1) * n + x, n);
    }
  }

  lemma OneModulus(x: nat, n: nat)
    requires n > 0
    ensures (x + n) % n == x % n
  {
    var q, r := x / n, x % n;
    assert x == q * n + r;
    assert x + n == (q + 1) * n + r;
    Unique(x + n, q + 1, r, n);
  }

  lemma Unique(x: nat, q: nat, r: nat, n: nat)
    requires n > 0 && x == q * n + r && r < n
    ensures x % n == r
  {
    assert x == (x / n) * n + x % n;
    SameQuotient(q, r, x / n, x % n, n);
  }

  lemma SameQuotient(q: int, r: nat, q': int, r': nat, n: nat)
    requires q * n + r == q' * n + r' && r < n && r' < n
    ensures q == q' && r == r'
  {
    Difference(q, q', n);
    AtLeastOne(q - q', n);
    AtLeastOne(q' - q, n);
    Difference(q', q, n);
  }

  lemma Difference(a: int, b: int, n: nat)
    ensures a * n - b * n == (a - b) * n
  {
  }

  lemma AtLeastOne(d: int, n: nat)
    ensures d >= 1 ==> d * n >= n
  {
  }

  /**
    The rotation goes round: over any stretch without strikes, whatever the workers interleave,
    as many picks as there are peers have asked every one of them.
   */
  lemma EveryPeerIsAsked(wd: World, es: seq<Event>, ss: seq<State>, a: nat, b: nat, p: Peer) returns (k: nat)
    requires IsRun(wd, es, ss) && a <= b <= |es| && NoStrike(es, a, b)
    requires p in ss[a].sh.live && Picks(es, a, b) >= |ss[a].sh.live|
    ensures a <= k < b && es[k].PickPeer? && es[k].w < |ss[k + 1].ws|
    ensures ss[k + 1].ws[es[k].w].Fetching? && ss[k + 1].ws[es[k].w].peer == p
  {
    hide Next;
    var live := ss[a].sh.live;
    var j :| 0 <= j < |live| && live[j] == p;
    var c := GoesRound(ss[a].sh.liveIdx, j, |live|);
    k := FindPick(es, a, b, c);
    RotationAdvances(wd, es, ss, a, k);
    assert Enabled(wd, ss[k], es[k]) && ss[k + 1] == Next(wd, ss[k], es[k]);
    WorkersStay(wd, ss[k], es[k]);
    PickTakes(wd, ss[k], es[k]);
  }

  lemma WorkersStay(wd: World, s: State, e: Event)
    requires Enabled(wd, s, e)
    ensures |Next(wd, s, e).ws| == |s.ws|
  {
  }

  // ----- patience and retries -------------------------------------------------------------------

  /** The throttled replies this worker got in these events. */
  ghost function Throttles(es: seq<Event>, a: nat, b: nat, w: nat): nat
    requires a <= b <= |es|
    decreases b
  {
    if a == b then 0 else Throttles(es, a, b - 1, w) + if es[b - 1] == Fetch(w, Throttled) then 1 else 0
  }

  /**
    A worker that has picked a peer and hears nothing but throttling asks it up to 200 times more
    and, at the next, gives the chunk back without a strike.
   */
  lemma {:induction false} PatienceIs(wd: World, es: seq<Event>, ss: seq<State>, a: nat, b: nat, w: nat)
    requires IsRun(wd, es, ss) && a < b <= |es| && es[a] == PickPeer(w) && ss[a].sh.live != []
    requires forall k :: a < k < b && es[k].w == w ==> es[k] == Fetch(w, Throttled)
    ensures w < |ss[a].ws| && w < |ss[a + 1].ws| && w < |ss[b].ws| && ss[a].ws[w].Popped? && ss[a + 1].ws[w].Fetching?
    ensures
      var n := Throttles(es, a + 1, b, w);
      && n <= 201
      && ss[b].ws[w] == if n <= 200 then Fetching(ss[a].ws[w].i, ss[a + 1].ws[w].peer, n) else Requeueing(ss[a].ws[w].i, false)
    decreases b
  {
    hide Next, Enabled;
    PickStep(wd, ss[a], es[a]);
    if b > a + 1 {
      PatienceIs(wd, es, ss, a, b - 1, w);
      if es[b - 1].w == w {
        ThrottleStep(wd, ss[b - 1], es[b - 1]);
      } else {
        OthersStay(wd, ss[b - 1], es[b - 1], w);
      }
    }
  }

  lemma PickStep(wd: World, s: State, e: Event)
    requires Enabled(wd, s, e) && e.PickPeer? && s.sh.live != []
    ensures
      var t := Next(wd, s, e);
      && e.w < |s.ws| && s.ws[e.w].Popped? && e.w < |t.ws|
      && t.ws[e.w].Fetching? && t.ws[e.w] == Fetching(s.ws[e.w].i, t.ws[e.w].peer, 0)
  {
  }

  lemma ThrottleStep(wd: World, s: State, e: Event)
    requires Enabled(wd, s, e) && e.Fetch? && e.reply.Throttled?
    ensures
      var x, t := s.ws[e.w], Next(wd, s, e);
      && x.Fetching? && e.w < |t.ws|
      && t.ws[e.w] == if x.attempts >= 200 then Requeueing(x.i, false) else Fetching(x.i, x.peer, x.attempts + 1)
  {
  }

  /** The chunks given back in the first `k` events. */
  ghost function Requeues(es: seq<Event>, k: nat): nat
    requires k <= |es|
  {
    if k == 0 then 0 else Requeues(es, k - 1) + if es[k - 1].Requeue? then 1 else 0
  }

  lemma {:induction false} RetriesAreCounted(wd: World, es: seq<Event>, ss: seq<State>, k: nat)
    requires IsRun(wd, es, ss) && k <= |es|
    ensures ss[k].sh.retries == Requeues(es, k)
  {
    if k > 0 {
      RetriesAreCounted(wd, es, ss, k - 1);
      assert Enabled(wd, ss[k - 1], es[k - 1]) && ss[k] == Next(wd, ss[k - 1], es[k - 1]);
    }
  }

  /** A chunk that is given back is handed out again, and those after it, exactly for the first three times the number of chunks. */
  lemma BudgetIs(wd: World, es: seq<Event>, ss: seq<State>, k: nat)
    requires IsRun(wd, es, ss) && k < |es| && es[k].Requeue?
    ensures es[k].w < |ss[k].ws| && ss[k].ws[es[k].w].Requeueing?
    ensures
      var i := ss[k].ws[es[k].w].i;
      ss[k + 1].sh.next == if Requeues(es, k) < 3 * wd.N() && i < ss[k].sh.next then i else ss[k].sh.next
  {
    RetriesAreCounted(wd, es, ss, k);
    assert Enabled(wd, ss[k], es[k]) && ss[k + 1] == Next(wd, ss[k], es[k]);
  }
}
