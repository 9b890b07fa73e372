/**
  Memoised signature verification: a direct-mapped table of immutable entries under the
  verifier and a bounded map above it, both shared by concurrent callers.
 */
module VerifyCache {
  import opened Bytes

  const SLOTS := 8192
  const MEMO_SIZE := 8192
  const PK_LEN := 32
  const SIG_LEN := 64

  type Digest = d: ByteString | |d| == 32 witness seq(32, i => 0)

  datatype Triple = Triple(pk: ByteString, sig: ByteString, msg: ByteString)

  /** The primitives: SHA-256, and Ed25519 verification as a pure function. */
  datatype Crypto = Crypto(sha: ByteString -> Digest, ed: Triple -> bool)

  predicate Sized(t: Triple) { |t.pk| == PK_LEN && |t.sig| == SIG_LEN }

  /** What verification means, without any cache. */
  predicate Pure(w: Crypto, t: Triple) { Sized(t) && w.ed(t) }

  function Key(w: Crypto, t: Triple): Digest { w.sha(t.pk + t.sig + t.msg) }

  /** The table index: the top 13 bits of the first eight key bytes times the golden constant. */
  function Slot(key: Digest): (n: nat)
    ensures n < SLOTS
  {
    TopBits(Leading(key, 8) * 0x9E37_79B9_7F4A_7C15);
    WrapU64(Leading(key, 8) * 0x9E37_79B9_7F4A_7C15) / 0x8_0000_0000_0000
  }

  /** The first `n` bytes as a big-endian number. */
  function Leading(key: ByteString, n: nat): nat
    requires n <= |key|
  {
    if n == 0 then 0 else Leading(key, n - 1) * 256 + key[n - 1]
  }

  lemma TopBits(x: nat)
    ensures WrapU64(x) / 0x8_0000_0000_0000 < SLOTS
  {
  }

  /** The first eight bytes of a key as a number, the first the most significant. */
  ghost function Head(key: Digest): nat {
    var a: int, b: int, c: int, d: int := key[0], key[1], key[2], key[3];
    var e: int, f: int, g: int, h: int := key[4], key[5], key[6], key[7];
    0x100_0000_0000_0000 * a + 0x1_0000_0000_0000 * b + 0x100_0000_0000 * c + 0x1_0000_0000 * d
    + 0x100_0000 * e + 0x1_0000 * f + 0x100 * g + h
  }

  lemma LeadingIsHead(key: Digest)
    ensures Leading(key, 8) == Head(key)
  {
    var a: int, b: int, c: int, d: int, e: int, f: int := key[0], key[1], key[2], key[3], key[4], key[5];
    assert Leading(key, 1) == a;
    assert Leading(key, 2) == 0x100 * a + b;
    assert Leading(key, 4) == 0x1_0000 * Leading(key, 2) + 0x100 * c + d;
    assert Leading(key, 6) == 0x1_0000 * Leading(key, 4) + 0x100 * e + f;
  }

  /** The slot is bits 51 to 63 of that number times the golden constant. */
  lemma SlotIs(key: Digest) returns (above: nat, below: nat)
    ensures below < 0x8_0000_0000_0000
    ensures Head(key) * 0x9E37_79B9_7F4A_7C15 == above * 0x1_0000_0000_0000_0000 + Slot(key) * 0x8_0000_0000_0000 + below
  {
    hide Head, Leading;
    LeadingIsHead(key);
    var product := Head(key) * 0x9E37_79B9_7F4A_7C15;
    above, below := product / TWO64, WrapU64(product) % 0x8_0000_0000_0000;
  }

  /** No two well-sized triples in `u` with different bytes hash to the same digest. */
  ghost predicate NoCollision(w: Crypto, u: set<Triple>) {
    forall s, t :: s in u && t in u && Sized(s) && Sized(t) && Key(w, s) == Key(w, t) ==>
      s.pk + s.sig + s.msg == t.pk + t.sig + t.msg
  }

  /** Fixed lengths make the key unambiguous. */
  lemma KeyNamesTriple(w: Crypto, u: set<Triple>, s: Triple, t: Triple)
    requires NoCollision(w, u) && s in u && t in u && Sized(s) && Sized(t) && Key(w, s) == Key(w, t)
    ensures s == t
  {
    var x := s.pk + s.sig + s.msg;
    var y := t.pk + t.sig + t.msg;
    assert x == y;
    assert x[..32] == s.pk && y[..32] == t.pk;
    assert x[32..96] == s.sig && y[32..96] == t.sig;
    assert x[96..] == s.msg && y[96..] == t.msg;
  }

  /** Without the length gate it would not be: moving a byte across a boundary keeps the key. */
  lemma GateNeeded(w: Crypto, t: Triple)
    requires t.msg != []
    ensures
      var other := Triple(t.pk, t.sig + t.msg[..1], t.msg[1..]);
      other != t && Key(w, other) == Key(w, t) && (Sized(t) ==> !Sized(other))
  {
    var other := Triple(t.pk, t.sig + t.msg[..1], t.msg[1..]);
    assert other.pk + other.sig + other.msg == t.pk + t.sig + t.msg;
  }

  // ----- one caller at a time -------------------------------------------------------------------

  datatype Entry = Entry(key: Digest, ok: bool)

  /** An entry under this key answers for every triple of `u` that has it. */
  ghost predicate Honest(w: Crypto, u: set<Triple>, key: Digest, ok: bool) {
    forall t :: t in u && Sized(t) && Key(w, t) == key ==> ok == w.ed(t)
  }

  lemma OwnVerdictHonest(w: Crypto, u: set<Triple>, t: Triple)
    requires NoCollision(w, u) && t in u && Sized(t)
    ensures Honest(w, u, Key(w, t), w.ed(t))
  {
    forall s | s in u && Sized(s) && Key(w, s) == Key(w, t) ensures w.ed(s) == w.ed(t) {
      KeyNamesTriple(w, u, s, t);
    }
  }

  class Table {
    var slots: array<Option<Entry>>

    constructor ()
      ensures fresh(slots) && slots.Length == SLOTS && forall i :: 0 <= i < SLOTS ==> slots[i] == None
    {
      slots := new Option<Entry>[SLOTS](i => None);
    }

    ghost predicate Valid(w: Crypto, u: set<Triple>)
      reads this, slots
    {
      && slots.Length == SLOTS
      && forall i :: 0 <= i < SLOTS && slots[i].Some? ==> Honest(w, u, slots[i].value.key, slots[i].value.ok)
    }

    /** Verification through the table is verification; afterwards the table holds this verdict. */
    method Verify(w: Crypto, ghost u: set<Triple>, t: Triple) returns (ok: bool)
      requires NoCollision(w, u) && t in u && Valid(w, u)
      modifies slots
      ensures Valid(w, u) && ok == Pure(w, t)
      ensures Sized(t) ==> slots[Slot(Key(w, t))] == Some(Entry(Key(w, t), w.ed(t)))
      ensures forall i :: 0 <= i < SLOTS && (Sized(t) ==> i != Slot(Key(w, t))) ==> slots[i] == old(slots[i])
    {
      hide Slot, NoCollision;
      if |t.pk| != PK_LEN || |t.sig| != SIG_LEN {
        return false;
      }
      var key := Key(w, t);
      var e := slots[Slot(key)];
      if e.Some? && e.value.key == key {
        return e.value.ok;
      }
      ok := w.ed(t);
      OwnVerdictHonest(w, u, t);
      slots[Slot(key)] := Some(Entry(key, ok));
    }
  }

  // ----- any number of callers, interleaved -----------------------------------------------------

  /** Where a call stands; every step below is one atomic access to shared state. */
  datatype Phase =
    | Begin
    | MemoMissed
    | SlotMissed
    | Checked(ok: bool)
    | Returned(ok: bool)
    | Done(ok: bool)

  /** A call, made through the upper memo or directly. */
  datatype Caller = Caller(t: Triple, viaMemo: bool, phase: Phase)

  datatype State = State(slots: map<nat, Entry>, memo: map<Digest, bool>, callers: seq<Caller>)

  datatype Event = Call(t: Triple, viaMemo: bool) | Step(i: nat)

  const Empty := State(map[], map[], [])

  /** The upper memo drops its whole generation when it is full. */
  function Remember(memo: map<Digest, bool>, key: Digest, ok: bool): map<Digest, bool> {
    if |memo| >= MEMO_SIZE then map[key := ok] else memo[key := ok]
  }

  function NextPhase(w: Crypto, s: State, c: Caller): Phase {
    var key := Key(w, c.t);
    match c.phase
    case Begin =>
      if !Sized(c.t) then Done(false)
      else if c.viaMemo && key in s.memo then Done(s.memo[key])
      else MemoMissed
    case MemoMissed =>
      var n := Slot(key);
      if n in s.slots && s.slots[n].key == key then Returned(s.slots[n].ok) else SlotMissed
    case SlotMissed => Checked(w.ed(c.t))
    case Checked(ok) => Returned(ok)
    case Returned(ok) => Done(ok)
    case Done(ok) => Done(ok)
  }

  function Next(w: Crypto, s: State, e: Event): State {
    match e
    case Call(t, viaMemo) => s.(callers := s.callers + [Caller(t, viaMemo, Begin)])
    case Step(i) =>
      if i >= |s.callers| then s
      else
        var c := s.callers[i];
        var key := Key(w, c.t);
        State(
          if c.phase.Checked? then s.slots[Slot(key) := Entry(key, c.phase.ok)] else s.slots,
          if c.phase.Returned? && c.viaMemo then Remember(s.memo, key, c.phase.ok) else s.memo,
          s.callers[i := c.(phase := NextPhase(w, s, c))])
  }

  function After(w: Crypto, es: seq<Event>): State {
    if es == [] then Empty else Next(w, After(w, es[..|es| - 1]), es[|es| - 1])
  }

  // ----- the invariant --------------------------------------------------------------------------

  ghost predicate CallerOk(w: Crypto, u: set<Triple>, c: Caller) {
    && c.t in u
    && (c.phase.Begin? || c.phase.Done? || Sized(c.t))
    && (c.phase.Checked? || c.phase.Returned? || c.phase.Done? ==> c.phase.ok == Pure(w, c.t))
  }

  ghost predicate MemoOk(w: Crypto, u: set<Triple>, memo: map<Digest, bool>) {
    |memo| <= MEMO_SIZE && forall k :: k in memo ==> Honest(w, u, k, memo[k])
  }

  ghost predicate SlotsOk(w: Crypto, u: set<Triple>, slots: map<nat, Entry>) {
    forall n :: n in slots ==> n < SLOTS && Honest(w, u, slots[n].key, slots[n].ok)
  }

  ghost predicate Invariant(w: Crypto, u: set<Triple>, s: State) {
    && SlotsOk(w, u, s.slots) && MemoOk(w, u, s.memo)
    && forall i :: 0 <= i < |s.callers| ==> CallerOk(w, u, s.callers[i])
  }

  lemma PhaseKept(w: Crypto, u: set<Triple>, s: State, i: nat)
    requires Invariant(w, u, s) && i < |s.callers|
    ensures CallerOk(w, u, s.callers[i].(phase := NextPhase(w, s, s.callers[i])))
  {
    hide Slot, Key;
    var c := s.callers[i];
    assert CallerOk(w, u, c);
  }

  lemma RememberKept(w: Crypto, u: set<Triple>, memo: map<Digest, bool>, key: Digest, ok: bool)
    requires MemoOk(w, u, memo) && Honest(w, u, key, ok)
    ensures MemoOk(w, u, Remember(memo, key, ok))
  {
    hide Honest;
    assert |memo[key := ok]| <= |memo| + 1 by {
      assert memo[key := ok].Keys == memo.Keys + {key};
    }
  }

  lemma SlotKept(w: Crypto, u: set<Triple>, slots: map<nat, Entry>, key: Digest, ok: bool)
    requires SlotsOk(w, u, slots) && Honest(w, u, key, ok)
    ensures SlotsOk(w, u, slots[Slot(key) := Entry(key, ok)])
  {
    hide Slot, Honest;
  }

  lemma NextKeeps(w: Crypto, u: set<Triple>, s: State, e: Event)
    requires NoCollision(w, u) && Invariant(w, u, s) && (e.Call? ==> e.t in u)
    ensures Invariant(w, u, Next(w, s, e))
  {
    hide Slot, Key, NoCollision, SlotsOk, MemoOk, NextPhase;
    if e.Step? && e.i < |s.callers| {
      var c := s.callers[e.i];
      PhaseKept(w, u, s, e.i);
      assert CallerOk(w, u, c);
      if Sized(c.t) {
        OwnVerdictHonest(w, u, c.t);
        if c.phase.Checked? {
          SlotKept(w, u, s.slots, Key(w, c.t), c.phase.ok);
        }
        if c.phase.Returned? {
          RememberKept(w, u, s.memo, Key(w, c.t), c.phase.ok);
        }
      }
    }
  }

  lemma {:induction false} EveryRun(w: Crypto, u: set<Triple>, es: seq<Event>)
    requires NoCollision(w, u) && forall e :: e in es && e.Call? ==> e.t in u
    ensures Invariant(w, u, After(w, es))
  {
    hide NoCollision, Invariant, Next;
    if es == [] {
      EmptyOk(w, u);
    } else {
      EveryRun(w, u, es[..|es| - 1]);
      NextKeeps(w, u, After(w, es[..|es| - 1]), es[|es| - 1]);
    }
  }

  lemma EmptyOk(w: Crypto, u: set<Triple>)
    ensures Invariant(w, u, Empty)
  {
  }

  /** In every interleaving, evictions and resets included, a finished call returns the pure verdict. */
  lemma EveryVerdictIsPure(w: Crypto, u: set<Triple>, es: seq<Event>, i: nat)
    requires NoCollision(w, u) && forall e :: e in es && e.Call? ==> e.t in u
    requires i < |After(w, es).callers| && After(w, es).callers[i].phase.Done?
    ensures
      var t := After(w, es).callers[i].t;
      After(w, es).callers[i].phase.ok <==> |t.pk| == 32 && |t.sig| == 64 && w.ed(t)
    ensures |After(w, es).memo| <= 8192 && forall n :: n in After(w, es).slots ==> n < 8192
  {
    hide After, NoCollision;
    EveryRun(w, u, es);
    assert CallerOk(w, u, After(w, es).callers[i]);
  }

  function Rank(p: Phase): nat {
    match p
    case Begin => 5
    case MemoMissed => 4
    case SlotMissed => 3
    case Checked(_) => 2
    case Returned(_) => 1
    case Done(_) => 0
  }

  /** Each of a caller's own steps brings it closer to its answer, and no other event moves it. */
  lemma OwnStepAdvances(w: Crypto, s: State, e: Event, i: nat)
    requires i < |s.callers|
    ensures i < |Next(w, s, e).callers|
    ensures
      var before := s.callers[i].phase;
      var after := Next(w, s, e).callers[i].phase;
      if e == Step(i) && !before.Done? then Rank(after) < Rank(before) else after == before
  {
    hide Slot, Key;
  }

  /** The steps that call `i` has taken in a run. */
  function OwnSteps(w: Crypto, es: seq<Event>, i: nat): nat {
    if es == [] then 0
    else
      var rest := es[..|es| - 1];
      OwnSteps(w, rest, i) + if es[|es| - 1] == Step(i) && i < |After(w, rest).callers| then 1 else 0
  }

  /** Wait-freedom: in every interleaving a call is answered after at most five steps of its own. */
  lemma {:induction false} AnsweredInFiveSteps(w: Crypto, es: seq<Event>, i: nat)
    requires i < |After(w, es).callers|
    ensures After(w, es).callers[i].phase.Done? || Rank(After(w, es).callers[i].phase) + OwnSteps(w, es, i) <= 5
    ensures OwnSteps(w, es, i) >= 5 ==> After(w, es).callers[i].phase.Done?
  {
    hide Next;
    if es != [] {
      var rest, e := es[..|es| - 1], es[|es| - 1];
      var s := After(w, rest);
      if i < |s.callers| {
        AnsweredInFiveSteps(w, rest, i);
        OwnStepAdvances(w, s, e, i);
      } else {
        NoStepsBefore(w, rest, i);
        NewCaller(w, s, e);
      }
    }
  }

  lemma NewCaller(w: Crypto, s: State, e: Event)
    ensures |Next(w, s, e).callers| <= |s.callers| + 1
    ensures |Next(w, s, e).callers| > |s.callers| ==> Next(w, s, e).callers[|s.callers|].phase == Begin
    ensures |Next(w, s, e).callers| >= |s.callers|
  {
    hide Slot, Key, NextPhase, Remember;
  }

  lemma {:induction false} NoStepsBefore(w: Crypto, es: seq<Event>, i: nat)
    requires i >= |After(w, es).callers|
    ensures OwnSteps(w, es, i) == 0
  {
    hide Next;
    if es != [] {
      NewCaller(w, After(w, es[..|es| - 1]), es[|es| - 1]);
      NoStepsBefore(w, es[..|es| - 1], i);
    }
  }

  // ----- what the memo is good for --------------------------------------------------------------

  /** This event puts a verdict into the memo. */
  ghost predicate Stores(s: State, e: Event) {
    e.Step? && e.i < |s.callers| && s.callers[e.i].viaMemo && s.callers[e.i].phase.Returned?
  }

  /** The verdicts that `fs` puts into the memo after `es`. */
  ghost function Stored(w: Crypto, es: seq<Event>, fs: seq<Event>): nat {
    if fs == [] then 0
    else Stored(w, es, fs[..|fs| - 1]) + if Stores(After(w, es + fs[..|fs| - 1]), fs[|fs| - 1]) then 1 else 0
  }

  lemma MemoStep(w: Crypto, s: State, e: Event, key: Digest)
    requires key in s.memo && (Stores(s, e) ==> |s.memo| < 8192)
    ensures key in Next(w, s, e).memo && |Next(w, s, e).memo| <= |s.memo| + if Stores(s, e) then 1 else 0
  {
    hide Slot, NextPhase, Key;
    if Stores(s, e) {
      var c := s.callers[e.i];
      var added := Key(w, c.t);
      assert s.memo[added := c.phase.ok].Keys == s.memo.Keys + {added};
    }
  }

  /** A verdict stays in the memo at least until its size and the verdicts stored since exceed 8192. */
  lemma {:induction false} Remembered(w: Crypto, es: seq<Event>, fs: seq<Event>, key: Digest)
    requires key in After(w, es).memo && |After(w, es).memo| + Stored(w, es, fs) <= 8192
    ensures key in After(w, es + fs).memo && |After(w, es + fs).memo| <= |After(w, es).memo| + Stored(w, es, fs)
  {
    hide Next, Stores;
    if fs == [] {
      assert es + fs == es;
    } else {
      var gs, e := fs[..|fs| - 1], fs[|fs| - 1];
      Remembered(w, es, gs, key);
      assert (es + fs)[..|es + fs| - 1] == es + gs && (es + fs)[|es + fs| - 1] == e;
      MemoStep(w, After(w, es + gs), e, key);
    }
  }

  /** While it is there, a call for it through the memo is answered by its first step, whatever else runs. */
  lemma RepeatedCallsAreFree(w: Crypto, es: seq<Event>, fs: seq<Event>, key: Digest, i: nat)
    requires key in After(w, es).memo && |After(w, es).memo| + Stored(w, es, fs) <= 8192
    requires i < |After(w, es + fs).callers|
    requires
      var c := After(w, es + fs).callers[i];
      c.viaMemo && c.phase.Begin? && |c.t.pk| == 32 && |c.t.sig| == 64 && w.sha(c.t.pk + c.t.sig + c.t.msg) == key
    ensures i < |After(w, es + fs + [Step(i)]).callers| && After(w, es + fs + [Step(i)]).callers[i].phase.Done?
  {
    Remembered(w, es, fs, key);
    var all := es + fs + [Step(i)];
    assert all[..|all| - 1] == es + fs && all[|all| - 1] == Step(i);
    BeginEnds(w, After(w, es + fs), i);
  }

  lemma BeginEnds(w: Crypto, s: State, i: nat)
    requires i < |s.callers| && s.callers[i].viaMemo && s.callers[i].phase.Begin? && Sized(s.callers[i].t)
    requires Key(w, s.callers[i].t) in s.memo
    ensures i < |Next(w, s, Step(i)).callers| && Next(w, s, Step(i)).callers[i].phase.Done?
  {
    hide Slot, Key;
  }

  /** This call went through the memo, for this key, and was answered so. */
  ghost predicate Answered(w: Crypto, c: Caller, key: Digest, ok: bool) {
    c.viaMemo && Key(w, c.t) == key && c.phase == Done(ok)
  }

  /** The memo holds only answers given to calls through it. */
  ghost predicate MemoOfCalls(w: Crypto, s: State) {
    forall k :: k in s.memo ==> exists i :: 0 <= i < |s.callers| && Answered(w, s.callers[i], k, s.memo[k])
  }

  lemma MemoOfCallsStep(w: Crypto, s: State, e: Event)
    requires MemoOfCalls(w, s)
    ensures MemoOfCalls(w, Next(w, s, e))
  {
    hide Slot, Key;
    var t := Next(w, s, e);
    forall k | k in t.memo ensures exists i :: 0 <= i < |t.callers| && Answered(w, t.callers[i], k, t.memo[k]) {
      if Stores(s, e) && k == Key(w, s.callers[e.i].t) {
        assert Answered(w, t.callers[e.i], k, t.memo[k]);
      } else {
        var i :| 0 <= i < |s.callers| && Answered(w, s.callers[i], k, s.memo[k]);
        assert t.callers[i] == s.callers[i];
      }
    }
  }

  lemma {:induction false} MemoHoldsAnswers(w: Crypto, es: seq<Event>)
    ensures MemoOfCalls(w, After(w, es))
  {
    hide Next, MemoOfCalls;
    if es == [] {
      EmptyMemo(w);
    } else {
      MemoHoldsAnswers(w, es[..|es| - 1]);
      MemoOfCallsStep(w, After(w, es[..|es| - 1]), es[|es| - 1]);
    }
  }

  lemma EmptyMemo(w: Crypto)
    ensures MemoOfCalls(w, Empty)
  {
  }
}
