/**
  Runs of several processes that share one ledger file: what memory guarantees and what the file
  does. The lock of a process does not reach the others: a record reads the file and writes it in
  two steps, between which other processes may write.
 */
module LedgerRuns {
  import opened Bytes
  import opened Ledgers

  /** The processes' tables and the file; `recording` are the processes between a record's read and its write. */
  datatype State = State(tables: seq<Table>, content: Content, clock: int, recording: set<nat>)

  datatype Event =
    | Adopt(p: nat, id: string, v: Violation, now: int)
    | Save(p: nat, now: int, writes: bool)
    | Query(p: nat, id: string, now: int, writes: bool)
    | Remove(p: nat, id: string, now: int, writes: bool)
    | List(p: nat, now: int)
    | Restart(p: nat, now: int)

  /** This query finds an expired row: it drops it and saves without merging. */
  predicate Decays(t: Table, e: Event) {
    e.Query? && e.id in t && !Live(t[e.id], e.now)
  }

  /** The acting process's table afterwards. */
  function NextTable(t: Table, c: Content, e: Event): Table {
    match e
    case Adopt(_, id, v, now) => Recorded(t, c, id, v, now)
    case Save(_, _, _) => t
    case Query(_, id, _, _) => if Decays(t, e) then t - {id} else t
    case Remove(_, id, _, _) => t - {id}
    case List(_, now) => map id | id in t && Live(t[id], now) :: t[id]
    case Restart(_, now) => if c.Rows? then Opened(c.rows, now) else map[]
  }

  /** The event saves the table without having read the file: a decay or a removal. */
  predicate SavesPlainly(t: Table, e: Event) {
    (Decays(t, e) || (e.Remove? && e.id in t)) && e.writes
  }

  /** Whether the event rewrites the file. */
  predicate Rewrites(t: Table, e: Event) {
    (e.Save? && e.writes) || SavesPlainly(t, e)
  }

  /**
    One step of one process: every step touches the file at most once. A process that has read
    the file for a record does nothing else before it has written, unless it dies and restarts.
   */
  ghost predicate Next(s: State, e: Event, s': State) {
    && e.p < |s.tables| && e.now >= s.clock && (e.Restart? ==> !s.content.Corrupt?)
    && (e.p in s.recording ==> e.Save? || e.Restart?) && (e.Save? ==> e.p in s.recording)
    && s'.recording == (if e.Adopt? then s.recording + {e.p} else s.recording - {e.p})
    && s'.clock == e.now && |s'.tables| == |s.tables|
    && s'.tables[e.p] == NextTable(s.tables[e.p], s.content, e)
    && (forall q :: 0 <= q < |s.tables| && q != e.p ==> s'.tables[q] == s.tables[q])
    && if Rewrites(s.tables[e.p], e) then Saved(s'.content, s'.tables[e.p]) else s'.content == s.content
  }

  ghost predicate IsRun(ss: seq<State>, es: seq<Event>) {
    && |ss| == |es| + 1
    && forall i :: 0 <= i < |es| ==> Next(ss[i], es[i], ss[i + 1])
  }

  /** This table flags the identity at least until `until`. */
  predicate Holds(t: Table, id: string, until: int) {
    id in t && t[id].expiresAt >= until
  }

  // ----- memory ---------------------------------------------------------------------------------

  /** The event does not clear this identity in process `p` by operator request or restart. */
  predicate Spares(e: Event, p: nat, id: string) {
    e.p == p ==> !e.Restart? && !(e.Remove? && e.id == id)
  }

  lemma RecordHolds(t: Table, c: Content, e: Event, id: string, until: int)
    requires e.Adopt? && until <= e.now + TTL && (Holds(t, id, until) || e.id == id)
    ensures Holds(NextTable(t, c, e), id, until)
  {
    hide Newest;
    if c.Rows? {
      AdoptIsLatest(t, c.rows, e.now, id);
    }
  }

  lemma StepHolds(s: State, e: Event, s': State, p: nat, id: string, until: int)
    requires Next(s, e, s') && p < |s.tables| && Spares(e, p, id)
    requires Holds(s.tables[p], id, until) && e.now <= until <= s.clock + TTL
    ensures Holds(s'.tables[p], id, until) && until <= s'.clock + TTL
  {
    hide Recorded, Opened, Saved;
    if e.p == p && e.Adopt? {
      RecordHolds(s.tables[p], s.content, e, id, until);
    }
  }

  lemma {:induction false} RunHolds(ss: seq<State>, es: seq<Event>, p: nat, id: string, until: int)
    requires IsRun(ss, es) && p < |ss[0].tables| && Holds(ss[0].tables[p], id, until) && until <= ss[0].clock + TTL
    requires forall i :: 0 <= i < |es| ==> Spares(es[i], p, id) && es[i].now <= until
    ensures |ss[|es|].tables| == |ss[0].tables| && Holds(ss[|es|].tables[p], id, until)
    ensures until <= ss[|es|].clock + TTL
  {
    hide Next, Holds, Spares;
    if es != [] {
      var n := |es| - 1;
      RunHolds(ss[..|es|], es[..n], p, id, until);
      assert Next(ss[n], es[n], ss[n + 1]);
      SameProcesses(ss[n], es[n], ss[n + 1]);
      StepHolds(ss[n], es[n], ss[n + 1], p, id, until);
    }
  }

  lemma SameProcesses(s: State, e: Event, s': State)
    requires Next(s, e, s')
    ensures |s'.tables| == |s.tables| && s'.clock == e.now >= s.clock
  {
  }

  /**
    In every run of any number of processes, an identity recorded by a process at time t is
    flagged by that process at every query up to t + TTL, whatever the others do to the file and
    whether or not any save succeeds, unless that process removes it or restarts.
   */
  lemma RecordedStaysFlagged(ss: seq<State>, es: seq<Event>, k: nat, p: nat, id: string)
    requires IsRun(ss, es) && k < |es| && es[k].Adopt? && es[k].p == p && es[k].id == id
    requires forall i :: k < i < |es| && es[i].p == p ==> !es[i].Restart? && !(es[i].Remove? && es[i].id == id)
    requires forall i :: k < i < |es| ==> es[i].now <= es[k].now + 24 * 3600 * 1_000_000_000
    ensures p < |ss[|es|].tables| && id in ss[|es|].tables[p]
    ensures forall now :: now <= es[k].now + 24 * 3600 * 1_000_000_000 ==> Live(ss[|es|].tables[p][id], now)
  {
    hide Recorded, Opened, Saved;
    var until := es[k].now + TTL;
    assert Next(ss[k], es[k], ss[k + 1]);
    RecordHolds(ss[k].tables[p], ss[k].content, es[k], id, until);
    RunHolds(ss[k + 1..], es[k + 1..], p, id, until);
  }

  // ----- the file -------------------------------------------------------------------------------

  /** The file flags the identity at least until `until`, in every row it has for it. */
  ghost predicate FileHolds(c: Content, id: string, until: int) {
    && c.Rows?
    && (exists r :: r in c.rows && r.Some? && r.value.id == id)
    && (forall r :: r in c.rows && r.Some? && r.value.id == id ==> r.value.entry.expiresAt >= until)
  }

  /** The file has a row that flags the identity at least until `until`. */
  ghost predicate FileShows(c: Content, id: string, until: int) {
    c.Rows? && exists e :: Some(Row(id, e)) in c.rows && e.expiresAt >= until
  }

  /** A save leaves the file holding exactly what the saving process holds. */
  lemma SaveHoldsIff(c: Content, t: Table, id: string, until: int)
    requires Saved(c, t)
    ensures FileHolds(c, id, until) <==> Holds(t, id, until)
  {
    if id in t {
      assert Some(Row(id, t[id])) in c.rows;
    }
  }

  /** After its read a recording process holds exactly what it or the file held, besides what it records. */
  lemma AdoptHoldsIff(t: Table, c: Content, e: Event, id: string, until: int)
    requires e.Adopt? && e.now <= until <= e.now + TTL
    ensures Holds(NextTable(t, c, e), id, until) <==> e.id == id || Holds(t, id, until) || FileShows(c, id, until)
  {
    hide Newest, Ledgers.Adopt;
    if c.Rows? {
      AdoptIsLatest(t, c.rows, e.now, id);
      var m := Ledgers.Adopt(t, c.rows, e.now);
      if x :| Some(Row(id, x)) in c.rows && x.expiresAt >= until {
        assert LiveRow(c.rows, id, x, e.now);
      }
      assert id in m && LiveRow(c.rows, id, m[id], e.now) ==> Some(Row(id, m[id])) in c.rows;
    }
  }

  /** One step keeps a live file row exactly when it does not save, or its process knows the row and is not dropping it. */
  lemma StepKeepsFileIff(s: State, e: Event, s': State, id: string, until: int)
    requires Next(s, e, s') && FileHolds(s.content, id, until) && e.now <= until
    ensures FileHolds(s'.content, id, until) <==>
            || !Rewrites(s.tables[e.p], e)
            || (Holds(s.tables[e.p], id, until) && (e.Save? || e.id != id))
  {
    hide FileHolds, Saved, Recorded, Opened;
    if Rewrites(s.tables[e.p], e) {
      SaveHoldsIff(s'.content, s'.tables[e.p], id, until);
    }
  }

  /**
    A record over the whole run, from its read at step `a` to its write at step `b`: the file then
    flags another identity exactly when the process or the file did at the read. What others
    wrote in between is gone, and what they removed is back.
   */
  lemma RecordMergesIff(ss: seq<State>, es: seq<Event>, a: nat, b: nat, id: string, until: int)
    requires IsRun(ss, es) && a < b < |es| && es[a].Adopt? && es[b].Save? && es[b].writes && es[a].p == es[b].p
    requires (forall i :: a < i < b ==> es[i].p != es[a].p) && es[a].now <= until <= es[a].now + TTL
    ensures es[a].p < |ss[a].tables|
    ensures FileHolds(ss[b + 1].content, id, until) <==>
            es[a].id == id || Holds(ss[a].tables[es[a].p], id, until) || FileShows(ss[a].content, id, until)
  {
    hide FileHolds, FileShows, Saved, Recorded, Opened;
    var p := es[a].p;
    assert Next(ss[a], es[a], ss[a + 1]);
    AdoptHoldsIff(ss[a].tables[p], ss[a].content, es[a], id, until);
    TableWaits(ss, es, a + 1, b, p);
    assert Next(ss[b], es[b], ss[b + 1]);
    SaveHoldsIff(ss[b + 1].content, ss[b + 1].tables[p], id, until);
  }

  /** A table changes only by steps of its own process. */
  lemma {:induction false} TableWaits(ss: seq<State>, es: seq<Event>, i: nat, j: nat, p: nat)
    requires IsRun(ss, es) && i <= j < |ss| && p < |ss[i].tables| && forall k :: i <= k < j ==> es[k].p != p
    ensures p < |ss[j].tables| && ss[j].tables[p] == ss[i].tables[p]
    decreases j
  {
    hide Saved, NextTable, Rewrites;
    if i < j {
      TableWaits(ss, es, i, j - 1, p);
      assert Next(ss[j - 1], es[j - 1], ss[j]);
    }
  }

  // ----- runs that keep a row -------------------------------------------------------------------

  /** The file holds the row, and so does every process that has read the file and will write it. */
  ghost predicate Safe(s: State, id: string, until: int) {
    && FileHolds(s.content, id, until) && until <= s.clock + TTL
    && forall p :: p in s.recording ==> p < |s.tables| && Holds(s.tables[p], id, until)
  }

  /** The event is no plain save by a process that does not know the row or is dropping it. */
  ghost predicate Careful(s: State, e: Event, id: string, until: int) {
    && e.now <= until && e.p < |s.tables|
    && (SavesPlainly(s.tables[e.p], e) ==> Holds(s.tables[e.p], id, until) && e.id != id)
  }

  lemma CarefulStep(s: State, e: Event, s': State, id: string, until: int)
    requires Next(s, e, s') && Safe(s, id, until) && Careful(s, e, id, until)
    ensures Safe(s', id, until)
  {
    hide FileHolds, Saved, Recorded, Opened;
    StepKeepsFileIff(s, e, s', id, until);
    if e.Adopt? {
      HoldsShows(s.content, id, until);
      AdoptHoldsIff(s.tables[e.p], s.content, e, id, until);
    }
  }

  lemma HoldsShows(c: Content, id: string, until: int)
    requires FileHolds(c, id, until)
    ensures FileShows(c, id, until)
  {
    var r :| r in c.rows && r.Some? && r.value.id == id;
    assert Some(Row(id, r.value.entry)) in c.rows;
  }

  /**
    Over every run a row stays in the file if no record was under way without it and no plain
    save comes from a process that does not know it. Records that start later do not matter:
    they read the row before they write.
   */
  lemma {:induction false} RunKeepsFile(ss: seq<State>, es: seq<Event>, id: string, until: int)
    requires IsRun(ss, es) && Safe(ss[0], id, until)
    requires forall i :: 0 <= i < |es| ==> Careful(ss[i], es[i], id, until)
    ensures Safe(ss[|es|], id, until)
  {
    hide Next, Safe, Careful;
    if es != [] {
      var n := |es| - 1;
      RunKeepsFile(ss[..|es|], es[..n], id, until);
      assert Next(ss[n], es[n], ss[n + 1]);
      CarefulStep(ss[n], es[n], ss[n + 1], id, until);
    }
  }

  /** A process that restarts while the file still flags the identity flags it again. */
  lemma RestartRecovers(s: State, e: Event, s': State, id: string, until: int)
    requires Next(s, e, s') && e.Restart? && FileHolds(s.content, id, until) && e.now <= until
    ensures Holds(s'.tables[e.p], id, until)
  {
    hide Opened;
    var r :| r in s.content.rows && r.Some? && r.value.id == id;
    assert LiveRow(s.content.rows, id, r.value.entry, e.now);
    OpenedFrom(s.content.rows, e.now, id);
  }

  // ----- runs that lose a row -------------------------------------------------------------------

  function RowAt(v: Violation, now: int): Entry { Entry([v], now, now + TTL) }

  /**
    Two records that overlap lose a row although every save is a record's: from a fresh start both
    processes read, then both write, and the first, restarted, no longer flags what it recorded.
   */
  lemma OverlappingRecordsLoseRow(v: Violation) returns (ss: seq<State>, es: seq<Event>)
    ensures IsRun(ss, es) && ss[0] == State([map[], map[]], Missing, 0, {})
    ensures es == [Adopt(0, "x", v, 1), Adopt(1, "z", v, 2), Save(0, 3, true), Save(1, 4, true), Restart(0, 5)]
    ensures |ss[5].tables| == 2 && "x" !in ss[5].tables[0] && es[4].now <= es[0].now + TTL
  {
    hide Next;
    var x, z := RowAt(v, 1), RowAt(v, 2);
    var fx, fz := Rows([Some(Row("x", x))]), Rows([Some(Row("z", z))]);
    es := [Adopt(0, "x", v, 1), Adopt(1, "z", v, 2), Save(0, 3, true), Save(1, 4, true), Restart(0, 5)];
    ss := [State([map[], map[]], Missing, 0, {}), State([map["x" := x], map[]], Missing, 1, {0}),
           State([map["x" := x], map["z" := z]], Missing, 2, {0, 1}), State([map["x" := x], map["z" := z]], fx, 3, {1}),
           State([map["x" := x], map["z" := z]], fz, 4, {}), State([map["z" := z], map["z" := z]], fz, 5, {})];
    assert Next(ss[0], es[0], ss[1]) by { FirstRecord("x", v, 1); Reads(ss[0], es[0], ss[1]); }
    assert Next(ss[1], es[1], ss[2]) by { FirstRecord("z", v, 2); Reads(ss[1], es[1], ss[2]); }
    assert Next(ss[2], es[2], ss[3]) by { OneRow("x", x); Writes(ss[2], es[2], ss[3]); }
    assert Next(ss[3], es[3], ss[4]) by { OneRow("z", z); Writes(ss[3], es[3], ss[4]); }
    assert Next(ss[4], es[4], ss[5]) by { OpensOne(z); Restarts(ss[4], es[4], ss[5]); }
  }

  /**
    A plain save loses another process's row. From a fresh start both processes record one after
    the other, process 1 drops its row once it has expired and saves, and process 0, restarted
    inside the time its own record should hold, no longer flags it.
   */
  lemma PlainSaveLosesRow(v: Violation) returns (ss: seq<State>, es: seq<Event>)
    ensures IsRun(ss, es) && ss[0] == State([map[], map[]], Missing, 0, {})
    ensures es == [Adopt(1, "z", v, 0), Save(1, 0, true), Adopt(0, "x", v, 5), Save(0, 5, true),
                   Query(1, "z", TTL + 1, true), Restart(0, TTL + 2)]
    ensures |ss[6].tables| == 2 && "x" !in ss[6].tables[0] && es[5].now <= es[2].now + TTL
  {
    hide Next, Saved, Recorded, Opened;
    var x, z := RowAt(v, 5), RowAt(v, 0);
    var tz: Table, both: Table := map["z" := z], map["z" := z, "x" := x];
    var fz, fboth := Rows([Some(Row("z", z))]), Rows([Some(Row("z", z)), Some(Row("x", x))]);
    es := [Adopt(1, "z", v, 0), Save(1, 0, true), Adopt(0, "x", v, 5), Save(0, 5, true),
           Query(1, "z", TTL + 1, true), Restart(0, TTL + 2)];
    ss := [State([map[], map[]], Missing, 0, {}), State([map[], tz], Missing, 0, {1}), State([map[], tz], fz, 0, {}),
           State([both, tz], fz, 5, {0}), State([both, tz], fboth, 5, {}), State([both, map[]], Rows([]), TTL + 1, {}),
           State([map[], map[]], Rows([]), TTL + 2, {})];
    assert Next(ss[0], es[0], ss[1]) by { FirstRecord("z", v, 0); Reads(ss[0], es[0], ss[1]); }
    assert Next(ss[1], es[1], ss[2]) by { OneRow("z", z); Writes(ss[1], es[1], ss[2]); }
    assert Next(ss[2], es[2], ss[3]) by { AdoptsOther(v, z); Reads(ss[2], es[2], ss[3]); }
    assert Next(ss[3], es[3], ss[4]) by { TwoRows(z, x); Writes(ss[3], es[3], ss[4]); }
    assert Next(ss[4], es[4], ss[5]) by { Decay(both, z, fboth); }
    assert Next(ss[5], es[5], ss[6]) by { OpensNone(); Restarts(ss[5], es[5], ss[6]); }
  }

  lemma Reads(s: State, e: Event, s': State)
    requires e.Adopt? && |s.tables| == 2 == |s'.tables| && e.p < 2 && e.now >= s.clock && e.p !in s.recording
    requires s' == State(s.tables[e.p := Recorded(s.tables[e.p], s.content, e.id, e.v, e.now)], s.content, e.now, s.recording + {e.p})
    ensures Next(s, e, s')
  {
    hide Recorded;
  }

  lemma Writes(s: State, e: Event, s': State)
    requires e.Save? && e.writes && |s.tables| == 2 && e.p < 2 && e.now >= s.clock && e.p in s.recording
    requires s' == State(s.tables, s'.content, e.now, s.recording - {e.p}) && Saved(s'.content, s.tables[e.p])
    ensures Next(s, e, s')
  {
    hide Saved;
  }

  lemma Restarts(s: State, e: Event, s': State)
    requires e.Restart? && |s.tables| == 2 && e.p < 2 && e.now >= s.clock && s.content.Rows? && s.recording == {}
    requires s' == State(s.tables[e.p := Opened(s.content.rows, e.now)], s.content, e.now, {})
    ensures Next(s, e, s')
  {
    hide Opened;
  }

  lemma Decay(both: Table, z: Entry, c: Content)
    requires z.expiresAt == TTL
    ensures Next(State([both, map["z" := z]], c, 5, {}), Query(1, "z", TTL + 1, true), State([both, map[]], Rows([]), TTL + 1, {}))
  {
    var tz: Table := map["z" := z];
    assert tz - {"z"} == map[];
  }

  lemma FirstRecord(id: string, v: Violation, now: int)
    ensures Recorded(map[], Missing, id, v, now) == map[id := RowAt(v, now)]
  {
    assert [] + [v] == [v];
  }

  lemma AdoptsOther(v: Violation, z: Entry)
    requires z == RowAt(v, 0)
    ensures Recorded(map[], Rows([Some(Row("z", z))]), "x", v, 5) == map["z" := z, "x" := RowAt(v, 5)]
  {
    var row := Some(Row("z", z));
    assert [row][..0] == [];
    assert Ledgers.Adopt(map[], [row], 5) == map["z" := z];
    assert [] + [v] == [v];
  }

  lemma OneRow(id: string, e: Entry)
    ensures Saved(Rows([Some(Row(id, e))]), map[id := e])
  {
  }

  lemma TwoRows(z: Entry, x: Entry)
    ensures Saved(Rows([Some(Row("z", z)), Some(Row("x", x))]), map["z" := z, "x" := x])
  {
    var both: Table := map["z" := z, "x" := x];
    assert both["z"] == z && both["x"] == x;
  }

  lemma OpensNone()
    ensures Opened([], TTL + 2) == map[]
  {
  }

  lemma OpensOne(z: Entry)
    requires z.expiresAt >= 5
    ensures Opened([Some(Row("z", z))], 5) == map["z" := z]
  {
    assert [Some(Row("z", z))][..0] == [];
  }
}
