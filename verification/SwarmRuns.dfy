/**
  Every interleaving of the swarm's workers. A worker's position between two atomic actions
  is a `Worker` value; one event moves one worker by one action. Replies of peers, the
  scheduler and disk errors are arbitrary: a worker may read any error, because the error
  variable is shared, and may be served any bytes of `served`.
 */
module SwarmRuns {
  import opened Bytes
  import opened Manifests
  import opened Swarm

  /** One transfer: the manifest, the file it was computed from, and what peers may ever serve. */
  datatype World = World(man: Manifest, file: ByteString, hash: Hash, served: iset<ByteString>,
                         start: seq<Peer>, workers: nat)
  {
    ghost function N(): nat { |man.chunks| }

    /** The manifest is the file's, and nothing a peer serves collides with a chunk of the file. */
    ghost predicate Genuine() {
      && Describes(man, file, hash)
      && forall d, i {:trigger d in served, man.chunks[i]} ::
           d in served && 0 <= i < |man.chunks| && hash(d) == man.chunks[i] ==> d == Chunk(man, file, i)
    }
  }

  datatype Worker =
    | Idle
    | Popped(i: nat)
    | Fetching(i: nat, peer: Peer, attempts: nat)
    | Striking(i: nat, peer: Peer, count: nat)
    | Requeueing(i: nat, exits: bool)
    | Writing(i: nat, data: ByteString)
    | Exited

  /** `pops`, `steps`, `starved` and `diskFailed` record history; no transition reads them. */
  datatype State = State(sh: Shared, ws: seq<Worker>, disk: ByteString,
                         pops: nat, steps: nat, starved: bool, diskFailed: bool)

  datatype Reply = Throttled | Absent | Failed | Data(d: ByteString)

  datatype Event =
    | PopChunk(w: nat)
    | PickPeer(w: nat)
    | Fetch(w: nat, reply: Reply)
    | Strike(w: nat)
    | Requeue(w: nat)
    | Write(w: nat, ok: bool, written: nat)

  ghost predicate Enabled(wd: World, s: State, e: Event) {
    && e.w < |s.ws|
    && match e
       case PopChunk(w) => s.ws[w].Idle?
       case PickPeer(w) => s.ws[w].Popped?
       case Fetch(w, reply) => s.ws[w].Fetching? && (reply.Data? ==> reply.d in wd.served)
       case Strike(w) => s.ws[w].Striking?
       case Requeue(w) => s.ws[w].Requeueing?
       case Write(w, ok, n) => s.ws[w].Writing? && (if ok then n == |s.ws[w].data| else n <= |s.ws[w].data|)
  }

  /** Where a worker goes once a fetch is over: the hash gate decides, not the error it read. */
  ghost function AfterFetch(wd: World, x: Worker, reply: Reply): Worker
    requires x.Fetching?
  {
    match reply
    case Throttled =>
      if x.attempts + 1 > MAX_THROTTLES then Requeueing(x.i, false) else x.(attempts := x.attempts + 1)
    case Absent => Striking(x.i, x.peer, 2)
    case Failed => Striking(x.i, x.peer, 1)
    case Data(d) =>
      if x.i < |wd.man.chunks| && wd.hash(d) == wd.man.chunks[x.i] then Writing(x.i, d)
      else Striking(x.i, x.peer, 5)
  }

  function WriteAt(disk: ByteString, off: nat, d: ByteString): ByteString
    requires off <= |disk|
  {
    disk[..off] + d + if off + |d| < |disk| then disk[off + |d|..] else []
  }

  ghost function Next(wd: World, s: State, e: Event): State
    requires Enabled(wd, s, e)
  {
    var x := s.ws[e.w];
    var t := s.(steps := s.steps + 1);
    match e
    case PopChunk(w) =>
      var (sh, i) := PopSpec(s.sh, wd.N());
      if i.Some? then t.(sh := sh, ws := s.ws[w := Popped(i.value)], pops := s.pops + 1)
      else t.(ws := s.ws[w := Exited])
    case PickPeer(w) =>
      var (sh, p) := NextPeerSpec(s.sh);
      if p.Some? then t.(sh := sh, ws := s.ws[w := Fetching(x.i, p.value, 0)])
      else t.(ws := s.ws[w := Requeueing(x.i, true)], starved := true)
    case Fetch(w, reply) =>
      t.(ws := s.ws[w := AfterFetch(wd, x, reply)])
    case Strike(w) =>
      t.(sh := StrikeSpec(s.sh, x.peer, x.count), ws := s.ws[w := Requeueing(x.i, false)])
    case Requeue(w) =>
      t.(sh := RequeueSpec(s.sh, wd.N(), x.i), ws := s.ws[w := if x.exits then Exited else Idle])
    case Write(w, ok, n) =>
      var off := Offset(wd.man, x.i);
      var disk := if 0 <= off <= |s.disk| then WriteAt(s.disk, off, x.data[..n]) else s.disk;
      if ok then t.(disk := disk, ws := s.ws[w := Idle])
      else t.(disk := disk, ws := s.ws[w := Requeueing(x.i, true)], diskFailed := true)
  }

  ghost predicate Init(wd: World, s: State) {
    && s.sh == Shared(0, 0, wd.start, 0, map[])
    && |s.ws| == wd.workers && (forall w :: 0 <= w < |s.ws| ==> s.ws[w] == Idle)
    && |s.disk| == wd.man.size && (forall j :: 0 <= j < |s.disk| ==> s.disk[j] == 0)
    && s.pops == s.steps == 0 && !s.starved && !s.diskFailed
  }

  /** A run: states from an initial one, each obtained from the one before by some enabled event. */
  ghost predicate IsRun(wd: World, es: seq<Event>, ss: seq<State>) {
    && |ss| == |es| + 1 && Init(wd, ss[0])
    && forall k :: 0 <= k < |es| ==> Enabled(wd, ss[k], es[k]) && ss[k + 1] == Next(wd, ss[k], es[k])
  }

  ghost predicate AllExited(s: State) {
    forall w :: 0 <= w < |s.ws| ==> s.ws[w].Exited?
  }

  // ----- the chunk invariant ------------------------------------------------------------------

  ghost predicate Holds(x: Worker, i: nat) {
    !x.Idle? && !x.Exited? && x.i == i
  }

  ghost predicate OnDisk(wd: World, disk: ByteString, i: nat)
    requires WellFormed(wd.man) && |wd.file| == |disk| == wd.man.size && i < wd.N()
  {
    Chunk(wd.man, disk, i) == Chunk(wd.man, wd.file, i)
  }

  /** Per worker: it holds an index of the manifest, and bytes it is about to write are the file's. */
  ghost predicate WorkerOk(wd: World, x: Worker)
    requires WellFormed(wd.man) && |wd.file| == wd.man.size
  {
    && (!x.Idle? && !x.Exited? ==> x.i < wd.N())
    && (x.Fetching? ==> x.attempts <= MAX_THROTTLES)
    && (x.Writing? ==> x.data == Chunk(wd.man, wd.file, x.i))
  }

  /** Chunk `i` is on disk, or a running worker holds it. */
  ghost predicate Accounted(wd: World, s: State, i: nat)
    requires WellFormed(wd.man) && |wd.file| == |s.disk| == wd.man.size && i < wd.N()
  {
    OnDisk(wd, s.disk, i) || exists w :: 0 <= w < |s.ws| && Holds(s.ws[w], i)
  }

  ghost predicate Transfer(wd: World, s: State)
    requires WellFormed(wd.man) && |wd.file| == wd.man.size
  {
    && |s.disk| == wd.man.size && |s.ws| == wd.workers && s.sh.next <= wd.N()
    && (forall w :: 0 <= w < |s.ws| ==> WorkerOk(wd, s.ws[w]))
    && (forall j :: 0 <= j < |s.disk| ==> s.disk[j] == 0 || s.disk[j] == wd.file[j])
  }

  /** While the retry budget is unspent, no chunk below the cursor is lost. */
  ghost predicate NoChunkLost(wd: World, s: State)
    requires WellFormed(wd.man) && |wd.file| == |s.disk| == wd.man.size && s.sh.next <= wd.N()
  {
    s.sh.retries <= 3 * wd.N() ==> forall i: nat :: i < s.sh.next ==> Accounted(wd, s, i)
  }

  lemma WriteAtIndex(disk: ByteString, off: nat, d: ByteString)
    requires off + |d| <= |disk|
    ensures |WriteAt(disk, off, d)| == |disk|
    ensures forall j :: 0 <= j < |disk| ==>
              WriteAt(disk, off, d)[j] == if off <= j < off + |d| then d[j - off] else disk[j]
  {
  }

  lemma OnDiskByIndex(wd: World, disk: ByteString, i: nat)
    requires WellFormed(wd.man) && |wd.file| == |disk| == wd.man.size && i < wd.N()
    ensures 0 <= Offset(wd.man, i) && Offset(wd.man, i) + ChunkLen(wd.man, i) <= |disk|
    ensures OnDisk(wd, disk, i) <==>
            forall j :: Offset(wd.man, i) <= j < Offset(wd.man, i) + ChunkLen(wd.man, i) ==> disk[j] == wd.file[j]
  {
    hide WellFormed, Offset, ChunkLen;
    ChunksAbut(wd.man, i);
    SlicesAgree(disk, wd.file, Offset(wd.man, i), Offset(wd.man, i) + ChunkLen(wd.man, i));
  }

  lemma SlicesAgree(x: ByteString, y: ByteString, lo: int, hi: int)
    requires 0 <= lo <= hi <= |x| && hi <= |y|
    ensures x[lo..hi] == y[lo..hi] <==> forall j :: lo <= j < hi ==> x[j] == y[j]
  {
    if x[lo..hi] == y[lo..hi] {
      forall j | lo <= j < hi ensures x[j] == y[j] {
        assert x[j] == x[lo..hi][j - lo] && y[j] == y[lo..hi][j - lo];
      }
    }
  }

  /** Writing any prefix of a chunk's true bytes at the chunk's place harms no chunk already on disk. */
  lemma PartialWrite(wd: World, disk: ByteString, i: nat, n: nat)
    requires WellFormed(wd.man) && |wd.file| == |disk| == wd.man.size && i < wd.N()
    requires n <= |Chunk(wd.man, wd.file, i)|
    ensures 0 <= Offset(wd.man, i) <= |disk|
    ensures
      var d := WriteAt(disk, Offset(wd.man, i), Chunk(wd.man, wd.file, i)[..n]);
      && |d| == |disk|
      && (forall j :: 0 <= j < |d| ==> d[j] == disk[j] || d[j] == wd.file[j])
      && (forall k: nat :: k < wd.N() && OnDisk(wd, disk, k) ==> OnDisk(wd, d, k))
      && (n == |Chunk(wd.man, wd.file, i)| ==> OnDisk(wd, d, i))
  {
    ChunksAbut(wd.man, i);
    var off := Offset(wd.man, i);
    var piece := Chunk(wd.man, wd.file, i)[..n];
    var d := WriteAt(disk, off, piece);
    WriteAtIndex(disk, off, piece);
    assert forall j :: off <= j < off + n ==> piece[j - off] == wd.file[j];
    OnDiskByIndex(wd, d, i);
    forall k: nat | k < wd.N() && OnDisk(wd, disk, k) ensures OnDisk(wd, d, k) {
      OnDiskByIndex(wd, disk, k);
      OnDiskByIndex(wd, d, k);
    }
  }

  /** Every event keeps the worker and disk invariant. */
  lemma TransferStep(wd: World, s: State, e: Event)
    requires wd.Genuine() && Transfer(wd, s) && Enabled(wd, s, e)
    ensures Transfer(wd, Next(wd, s, e))
  {
    var t := Next(wd, s, e);
    var x := s.ws[e.w];
    assert WorkerOk(wd, x);
    if e.Write? {
      PartialWrite(wd, s.disk, x.i, e.written);
    } else if e.Fetch? && e.reply.Data? {
      assert e.reply.d in wd.served;
    }
    assert WorkerOk(wd, t.ws[e.w]);
  }

  /** Every event keeps every chunk below the cursor accounted for, as long as budget is left. */
  lemma NoChunkLostStep(wd: World, s: State, e: Event)
    requires wd.Genuine() && Transfer(wd, s) && NoChunkLost(wd, s) && Enabled(wd, s, e)
    ensures Transfer(wd, Next(wd, s, e)) && NoChunkLost(wd, Next(wd, s, e))
  {
    TransferStep(wd, s, e);
    var t := Next(wd, s, e);
    var x := s.ws[e.w];
    assert WorkerOk(wd, x);
    if t.sh.retries <= 3 * wd.N() {
      if e.Write? {
        PartialWrite(wd, s.disk, x.i, e.written);
      }
      forall i: nat | i < t.sh.next ensures Accounted(wd, t, i) {
        AccountedStep(wd, s, e, i);
      }
    }
  }

  lemma AccountedStep(wd: World, s: State, e: Event, i: nat)
    requires wd.Genuine() && Transfer(wd, s) && NoChunkLost(wd, s) && Enabled(wd, s, e)
    requires Transfer(wd, Next(wd, s, e)) && Next(wd, s, e).sh.retries <= 3 * wd.N()
    requires i < Next(wd, s, e).sh.next
    ensures Accounted(wd, Next(wd, s, e), i)
  {
    var t := Next(wd, s, e);
    var x := s.ws[e.w];
    assert WorkerOk(wd, x);
    if e.Write? {
      PartialWrite(wd, s.disk, x.i, e.written);
    }
    if i >= s.sh.next {
      assert Holds(t.ws[e.w], i);
    } else if !OnDisk(wd, s.disk, i) {
      assert Accounted(wd, s, i);
      var w :| 0 <= w < |s.ws| && Holds(s.ws[w], i);
      if w != e.w {
        assert t.ws[w] == s.ws[w];
      } else if !OnDisk(wd, t.disk, i) {
        HolderKeepsChunk(wd, s, e);
      }
    }
  }

  /** A worker lets go of its chunk only by a completed write or by requeueing it. */
  lemma HolderKeepsChunk(wd: World, s: State, e: Event)
    requires Enabled(wd, s, e) && !e.PopChunk?
    ensures e.Requeue? || (e.Write? && e.ok) || Holds(Next(wd, s, e).ws[e.w], s.ws[e.w].i)
  {
  }

  // ----- the rotation -------------------------------------------------------------------------

  ghost function IsUnstruck(strikes: map<string, nat>): Peer -> bool {
    (q: Peer) => StrikesOf(strikes, q.addr) < STRIKES_OUT
  }

  /** The starting peers whose address has fewer than two strikes, in their starting order. */
  ghost function Unstruck(start: seq<Peer>, strikes: map<string, nat>): seq<Peer> {
    Filter(start, IsUnstruck(strikes))
  }

  ghost predicate RotationExact(wd: World, s: State) {
    s.sh.live == Unstruck(wd.start, s.sh.strikes)
  }

  /** A strike keeps the rotation exactly the unstruck starting peers. */
  lemma StrikeKeepsRotation(start: seq<Peer>, s: Shared, p: Peer, n: nat)
    requires s.live == Unstruck(start, s.strikes)
    ensures StrikeSpec(s, p, n).live == Unstruck(start, StrikeSpec(s, p, n).strikes)
  {
    var strikes := s.strikes[p.addr := StrikesOf(s.strikes, p.addr) + n];
    var was, now := IsUnstruck(s.strikes), IsUnstruck(strikes);
    var other := (q: Peer) => q.addr != p.addr;
    if strikes[p.addr] < STRIKES_OUT {
      FilterExt(start, was, now);
    } else if s.live == [] {
      FilterTwice(start, was, now, now);
    } else {
      FilterTwice(start, was, other, now);
    }
  }

  lemma RotationStep(wd: World, s: State, e: Event)
    requires RotationExact(wd, s) && Enabled(wd, s, e)
    ensures RotationExact(wd, Next(wd, s, e))
    ensures forall a :: StrikesOf(s.sh.strikes, a) <= StrikesOf(Next(wd, s, e).sh.strikes, a)
  {
    if e.Strike? {
      StrikeKeepsRotation(wd.start, s.sh, s.ws[e.w].peer, s.ws[e.w].count);
    }
  }

  // ----- how long a run can be ----------------------------------------------------------------

  /** Upper bound on the actions a worker takes before it pops again. */
  ghost function Rank(x: Worker): nat {
    match x
    case Exited => 0
    case Idle => 1
    case Requeueing(_, _) => 2
    case Striking(_, _, _) => 3
    case Writing(_, _) => 3
    case Fetching(_, _, a) => if a <= MAX_THROTTLES then 4 + (MAX_THROTTLES + 1 - a) else 4
    case Popped(_) => MAX_THROTTLES + 6
  }

  const ACTIONS_PER_POP := MAX_THROTTLES + 6

  ghost function Ranks(ws: seq<Worker>): nat {
    if ws == [] then 0 else Rank(ws[0]) + Ranks(ws[1..])
  }

  lemma {:induction false} RanksUpdate(ws: seq<Worker>, w: nat, x: Worker)
    requires w < |ws|
    ensures Ranks(ws[w := x]) == Ranks(ws) - Rank(ws[w]) + Rank(x)
  {
    if w == 0 {
      assert ws[0 := x][1..] == ws[1..];
    } else {
      assert ws[w := x][1..] == ws[1..][w - 1 := x];
      RanksUpdate(ws[1..], w - 1, x);
    }
  }

  lemma {:induction false} RanksIdle(ws: seq<Worker>)
    requires forall w :: 0 <= w < |ws| ==> ws[w] == Idle
    ensures Ranks(ws) == |ws|
  {
    if ws != [] {
      RanksIdle(ws[1..]);
    }
  }

  function Min(a: nat, b: nat): nat { if a < b then a else b }

  /** Pops are paid for by the chunks above the cursor and by the rewinds the budget allows. */
  ghost predicate PopsPaid(wd: World, s: State) {
    s.pops + wd.N() - s.sh.next <= wd.N() * (1 + Min(s.sh.retries, 3 * wd.N()))
  }

  ghost predicate StepsPaid(wd: World, s: State) {
    s.steps + Ranks(s.ws) <= wd.workers + ACTIONS_PER_POP * s.pops
  }

  lemma PopsPaidStep(wd: World, s: State, e: Event)
    requires Enabled(wd, s, e) && s.sh.next <= wd.N() && PopsPaid(wd, s)
    ensures PopsPaid(wd, Next(wd, s, e))
  {
    BudgetGrows(wd.N(), s.sh.retries);
  }

  lemma RankDrops(wd: World, s: State, e: Event)
    requires Enabled(wd, s, e)
    requires e.Fetch? ==> s.ws[e.w].attempts <= MAX_THROTTLES
    ensures
      var t := Next(wd, s, e);
      && t.ws == s.ws[e.w := t.ws[e.w]] && t.steps == s.steps + 1
      && Rank(t.ws[e.w]) + 1 <= Rank(s.ws[e.w]) + ACTIONS_PER_POP * (t.pops - s.pops)
  {
  }

  lemma StepsPaidStep(wd: World, s: State, e: Event)
    requires Enabled(wd, s, e) && StepsPaid(wd, s)
    requires e.Fetch? ==> s.ws[e.w].attempts <= MAX_THROTTLES
    ensures StepsPaid(wd, Next(wd, s, e))
  {
    RankDrops(wd, s, e);
    RanksUpdate(s.ws, e.w, Next(wd, s, e).ws[e.w]);
  }

  lemma BudgetGrows(n: nat, r: nat)
    ensures n * (1 + Min(r + 1, 3 * n)) >= n * (1 + Min(r, 3 * n))
    ensures r + 1 <= 3 * n ==> n * (1 + Min(r + 1, 3 * n)) == n * (1 + Min(r, 3 * n)) + n
  {
    assert n * (1 + (r + 1)) == n * (1 + r) + n;
  }

  // ----- why a worker leaves ------------------------------------------------------------------

  /**
    A worker gives up only with the cursor at the end, with the rotation empty for good, or
    after a failed write; so if neither of the last two happened, the last worker to leave
    left the cursor at the end.
   */
  ghost predicate ExitsExplained(wd: World, s: State) {
    && (s.starved ==> s.sh.live == [])
    && (!s.starved && !s.diskFailed ==> forall w :: 0 <= w < |s.ws| ==> !(s.ws[w].Requeueing? && s.ws[w].exits))
    && (!s.starved && !s.diskFailed && |s.ws| > 0 && AllExited(s) ==> s.sh.next == wd.N())
  }

  lemma ExitsStep(wd: World, s: State, e: Event)
    requires Enabled(wd, s, e) && s.sh.next <= wd.N() && ExitsExplained(wd, s)
    ensures ExitsExplained(wd, Next(wd, s, e))
  {
    var t := Next(wd, s, e);
    assert t.ws[e.w] == Exited || !AllExited(t);
  }

  // ----- theorems over whole runs -------------------------------------------------------------

  ghost predicate Invariant(wd: World, s: State)
    requires wd.Genuine()
  {
    && Transfer(wd, s) && NoChunkLost(wd, s) && RotationExact(wd, s)
    && PopsPaid(wd, s) && StepsPaid(wd, s) && ExitsExplained(wd, s)
  }

  lemma InvariantInit(wd: World, s: State)
    requires wd.Genuine() && Init(wd, s)
    ensures Invariant(wd, s)
  {
    RanksIdle(s.ws);
    AllKept(wd.start, IsUnstruck(map[]));
    assert |s.ws| > 0 ==> !s.ws[0].Exited?;
  }

  lemma {:induction false} AllKept<T>(xs: seq<T>, keep: T -> bool)
    requires forall x :: x in xs ==> keep(x)
    ensures Filter(xs, keep) == xs
  {
    if xs != [] {
      assert forall x :: x in xs[1..] ==> x in xs;
      AllKept(xs[1..], keep);
    }
  }

  lemma InvariantStep(wd: World, s: State, e: Event)
    requires wd.Genuine() && Invariant(wd, s) && Enabled(wd, s, e)
    ensures Invariant(wd, Next(wd, s, e))
  {
    NoChunkLostStep(wd, s, e);
    RotationStep(wd, s, e);
    assert WorkerOk(wd, s.ws[e.w]);
    PopsPaidStep(wd, s, e);
    StepsPaidStep(wd, s, e);
    ExitsStep(wd, s, e);
  }

  /** In every interleaving, every state satisfies the whole invariant. */
  lemma {:induction false} EveryInterleaving(wd: World, es: seq<Event>, ss: seq<State>, k: nat)
    requires wd.Genuine() && IsRun(wd, es, ss) && k <= |es|
    ensures Invariant(wd, ss[k])
  {
    if k == 0 {
      InvariantInit(wd, ss[0]);
    } else {
      EveryInterleaving(wd, es, ss, k - 1);
      InvariantStep(wd, ss[k - 1], es[k - 1]);
    }
  }

  /**
    When all workers are gone, the budget is unspent and the cursor is at the end, the file on
    disk is the release and the final digest check passes. The cursor is at the end whenever a
    peer survived in the rotation and no disk write failed.
   */
  lemma FinishedSwarmHasTheFile(wd: World, es: seq<Event>, ss: seq<State>)
    requires wd.Genuine() && IsRun(wd, es, ss)
    requires AllExited(ss[|es|]) && ss[|es|].sh.retries <= 3 * wd.N()
    requires ss[|es|].sh.next == wd.N() || (wd.workers > 0 && ss[|es|].sh.live != [] && !ss[|es|].diskFailed)
    ensures ss[|es|].disk == wd.file && wd.hash(ss[|es|].disk) == wd.man.sha256
  {
    EveryInterleaving(wd, es, ss, |es|);
    var s := ss[|es|];
    assert s.sh.next == wd.N();
    forall i: nat | i < wd.N() ensures Chunk(wd.man, s.disk, i) == Chunk(wd.man, wd.file, i) {
      assert Accounted(wd, s, i);
    }
    SameChunksSameFile(wd.man, s.disk, wd.file);
  }

  /** At most N(3N+1) pops, and so a bounded number of events, in any run. */
  lemma RunsAreBounded(wd: World, es: seq<Event>, ss: seq<State>)
    requires wd.Genuine() && IsRun(wd, es, ss)
    ensures ss[|es|].pops <= wd.N() * (3 * wd.N() + 1)
    ensures |es| <= wd.workers + 206 * (wd.N() * (3 * wd.N() + 1))
  {
    hide Transfer, NoChunkLost, RotationExact, ExitsExplained, Ranks, Init, Next, Enabled;
    EveryInterleaving(wd, es, ss, |es|);
    StepsCounted(wd, es, ss, |es|);
    CursorInside(wd, ss[|es|]);
    var s := ss[|es|];
    PopBound(s.pops, s.sh.next, Min(s.sh.retries, 3 * wd.N()), wd.N());
    StepBound(s.steps, Ranks(s.ws), wd.workers, s.pops, wd.N() * (3 * wd.N() + 1));
  }

  lemma CursorInside(wd: World, s: State)
    requires wd.Genuine() && Invariant(wd, s)
    ensures s.sh.next <= wd.N()
  {
  }

  lemma PopBound(pops: nat, next: nat, retries: nat, n: nat)
    requires pops + n - next <= n * (1 + retries) && next <= n && retries <= 3 * n
    ensures pops <= n * (3 * n + 1)
  {
    MulMonotone(1 + retries, 3 * n + 1, n);
  }

  lemma StepBound(steps: nat, ranks: nat, workers: nat, pops: nat, bound: nat)
    requires steps + ranks <= workers + ACTIONS_PER_POP * pops && pops <= bound
    ensures steps <= workers + ACTIONS_PER_POP * bound
  {
  }

  lemma {:induction false} StepsCounted(wd: World, es: seq<Event>, ss: seq<State>, k: nat)
    requires IsRun(wd, es, ss) && k <= |es|
    ensures ss[k].steps == k
  {
    if k > 0 {
      StepsCounted(wd, es, ss, k - 1);
    }
  }

  /** The swarm is never stuck: while some worker has not left, some event is enabled. */
  lemma NeverStuck(wd: World, s: State)
    requires !AllExited(s)
    ensures exists e :: Enabled(wd, s, e)
  {
    var w :| 0 <= w < |s.ws| && !s.ws[w].Exited?;
    var e := match s.ws[w]
      case Idle => PopChunk(w)
      case Popped(_) => PickPeer(w)
      case Fetching(_, _, _) => Fetch(w, Failed)
      case Striking(_, _, _) => Strike(w)
      case Requeueing(_, _) => Event.Requeue(w)
      case Writing(_, d) => Write(w, false, 0);
    assert Enabled(wd, s, e);
  }

  /** A peer with two strikes is not in the rotation then or at any later time of the run. */
  lemma {:induction false} StruckPeerNeverReturns(wd: World, es: seq<Event>, ss: seq<State>, j: nat, k: nat, p: Peer)
    requires wd.Genuine() && IsRun(wd, es, ss) && j <= k <= |es|
    requires StrikesOf(ss[j].sh.strikes, p.addr) >= STRIKES_OUT
    ensures p !in ss[k].sh.live
    ensures StrikesOf(ss[k].sh.strikes, p.addr) >= STRIKES_OUT
    decreases k - j
  {
    hide Next, Enabled, Transfer, NoChunkLost, PopsPaid, StepsPaid, ExitsExplained;
    if j < k {
      StruckPeerNeverReturns(wd, es, ss, j, k - 1, p);
      EveryInterleaving(wd, es, ss, k - 1);
      RotationStep(wd, ss[k - 1], es[k - 1]);
    }
    EveryInterleaving(wd, es, ss, k);
    FilterMembers(wd.start, IsUnstruck(ss[k].sh.strikes));
  }
}
