/**
  The violation ledger: an in-memory table per process over one shared file. Clock readings are
  arguments; `writes` says whether the atomic file replacement of a save succeeds.
 */
module Ledgers {
  import opened Bytes

  const TTL := 24 * 3600 * 1_000_000_000
  const MAX_VIOLATIONS := 32
  const NODE_ID_LEN := 32

  datatype Violation = Violation(kind: string, at: int, detail: string, proof: string)

  datatype Entry = Entry(violations: seq<Violation>, flaggedAt: int, expiresAt: int)

  type Table = map<string, Entry>

  datatype Row = Row(id: string, entry: Entry)

  /** The file: missing, not parseable, or rows, any of which may be null. */
  datatype Content = Missing | Corrupt | Rows(rows: seq<Option<Row>>)

  predicate Live(e: Entry, now: int) { now <= e.expiresAt }

  // ----- adopting the file ----------------------------------------------------------------------

  /** Merge of file rows: a live row is taken when it is new or outlives the copy held. */
  function Adopt(t: Table, rows: seq<Option<Row>>, now: int): Table {
    if rows == [] then t else AdoptOne(Adopt(t, rows[..|rows| - 1], now), rows[|rows| - 1], now)
  }

  function AdoptOne(t: Table, r: Option<Row>, now: int): Table {
    if r.None? || !Live(r.value.entry, now) then t
    else if r.value.id !in t || r.value.entry.expiresAt > t[r.value.id].expiresAt then t[r.value.id := r.value.entry]
    else t
  }

  function AdoptFile(t: Table, c: Content, now: int): Table {
    if c.Rows? then Adopt(t, c.rows, now) else t
  }

  /** A live row of this file for this identity. */
  ghost predicate LiveRow(rows: seq<Option<Row>>, id: string, e: Entry, now: int) {
    Some(Row(id, e)) in rows && Live(e, now)
  }

  /**
    The merge is the pointwise latest: every entry comes from the table or a live row, nothing
    is lost, and no copy that was available outlives the one kept; ties keep the table's copy.
   */
  lemma {:induction false} AdoptIsLatest(t: Table, rows: seq<Option<Row>>, now: int, id: string)
    ensures
      var m := Adopt(t, rows, now);
      && (id in m ==> (id in t && m[id] == t[id]) || LiveRow(rows, id, m[id], now))
      && (id in t ==> id in m && m[id].expiresAt >= t[id].expiresAt)
      && (id in t && id in m && m[id].expiresAt == t[id].expiresAt ==> m[id] == t[id])
      && (forall e :: LiveRow(rows, id, e, now) ==> id in m && m[id].expiresAt >= e.expiresAt)
  {
    if rows != [] {
      var rest := rows[..|rows| - 1];
      var r := rows[|rows| - 1];
      AdoptIsLatest(t, rest, now, id);
      assert rows == rest + [r];
      forall e | LiveRow(rows, id, e, now)
        ensures id in Adopt(t, rows, now) && Adopt(t, rows, now)[id].expiresAt >= e.expiresAt
      {
        assert r == Some(Row(id, e)) || LiveRow(rest, id, e, now);
      }
    }
  }

  // ----- recording ------------------------------------------------------------------------------

  function Newest(vs: seq<Violation>): (r: seq<Violation>)
    ensures |r| <= 32
    ensures exists older :: vs == older + r && (older == [] || |r| == 32)
  {
    if |vs| > MAX_VIOLATIONS then
      assert vs == vs[..|vs| - MAX_VIOLATIONS] + vs[|vs| - MAX_VIOLATIONS..];
      vs[|vs| - MAX_VIOLATIONS..]
    else
      assert vs == [] + vs;
      vs
  }

  function Flag(t: Table, id: string, v: Violation, now: int): Table {
    t[id := Entry(Newest((if id in t then t[id].violations else []) + [v]), now, now + TTL)]
  }

  /** The table after a violation is recorded: merge the file, append, re-arm. */
  function Recorded(t: Table, c: Content, id: string, v: Violation, now: int): Table {
    Flag(AdoptFile(t, c, now), id, v, now)
  }

  /** The file holds exactly the rows of the table. */
  ghost predicate Saved(c: Content, t: Table) {
    && c.Rows?
    && (forall r :: r in c.rows ==> r.Some? && r.value.id in t && t[r.value.id] == r.value.entry)
    && (forall id :: id in t ==> Some(Row(id, t[id])) in c.rows)
  }

  // ----- opening --------------------------------------------------------------------------------

  /** The table of a newly opened ledger: live rows, the last one for an identity winning. */
  function Opened(rows: seq<Option<Row>>, now: int): Table {
    if rows == [] then map[]
    else
      var t := Opened(rows[..|rows| - 1], now);
      var r := rows[|rows| - 1];
      if r.None? || !Live(r.value.entry, now) then t else t[r.value.id := r.value.entry]
  }

  /** Opening a file this program saved restores exactly the live part of the table. */
  lemma OpenRestores(c: Content, t: Table, now: int)
    requires Saved(c, t)
    ensures Opened(c.rows, now) == map id | id in t && Live(t[id], now) :: t[id]
  {
    forall id ensures id in Opened(c.rows, now) <==> id in t && Live(t[id], now) {
      OpenedFrom(c.rows, now, id);
      assert id in t && Live(t[id], now) ==> LiveRow(c.rows, id, t[id], now);
    }
    forall id | id in Opened(c.rows, now) ensures Opened(c.rows, now)[id] == t[id] {
      OpenedFrom(c.rows, now, id);
    }
  }

  lemma {:induction false} OpenedFrom(rows: seq<Option<Row>>, now: int, id: string)
    ensures
      var t := Opened(rows, now);
      && (id in t ==> LiveRow(rows, id, t[id], now))
      && (forall e :: LiveRow(rows, id, e, now) ==> id in t)
  {
    if rows != [] {
      var rest := rows[..|rows| - 1];
      OpenedFrom(rest, now, id);
      assert rows == rest + [rows[|rows| - 1]];
      forall e | LiveRow(rows, id, e, now) ensures id in Opened(rows, now) {
        assert rows[|rows| - 1] == Some(Row(id, e)) || LiveRow(rest, id, e, now);
      }
    }
  }

  // ----- the ledger -----------------------------------------------------------------------------

  class LedgerFile {
    var content: Content
  }

  function HexDigit(n: nat): char
    requires n < 16
  {
    "0123456789abcdef"[n]
  }

  function Hex(b: ByteString): string {
    if b == [] then "" else Hex(b[..|b| - 1]) + [HexDigit(b[|b| - 1] / 16), HexDigit(b[|b| - 1] % 16)]
  }

  datatype Outcome = Refused | Flagged(saved: bool)

  class Ledger {
    const file: LedgerFile
    var entries: Table

    /** Opening: a missing file is an empty ledger, an unparseable one an error. */
    constructor (f: LedgerFile, now: int)
      requires !f.content.Corrupt?
      ensures file == f && f.content == old(f.content)
      ensures entries == if f.content.Rows? then Opened(f.content.rows, now) else map[]
    {
      file := f;
      var t: Table := map[];
      if f.content.Rows? {
        var rows := f.content.rows;
        for i := 0 to |rows|
          invariant t == Opened(rows[..i], now)
        {
          assert rows[..i + 1][..i] == rows[..i];
          if rows[i].Some? && Live(rows[i].value.entry, now) {
            t := t[rows[i].value.id := rows[i].value.entry];
          }
        }
        assert rows[..|rows|] == rows;
      }
      entries := t;
    }

    /** Writes one row per entry, in no particular order; a failed write leaves the file alone. */
    method Save(writes: bool)
      modifies file
      ensures if writes then Saved(file.content, entries) else file.content == old(file.content)
    {
      var rows: seq<Option<Row>> := [];
      var left := entries.Keys;
      while left != {}
        invariant left <= entries.Keys
        invariant forall r :: r in rows ==> r.Some? && r.value.id in entries && entries[r.value.id] == r.value.entry
        invariant forall id :: id in entries && id !in left ==> Some(Row(id, entries[id])) in rows
        decreases |left|
      {
        var id :| id in left;
        rows := rows + [Some(Row(id, entries[id]))];
        left := left - {id};
      }
      if writes {
        file.content := Rows(rows);
      }
    }

    method AdoptFromFile(now: int)
      modifies this`entries
      ensures entries == AdoptFile(old(entries), file.content, now)
    {
      if !file.content.Rows? {
        return;
      }
      var rows := file.content.rows;
      for i := 0 to |rows|
        invariant entries == Adopt(old(entries), rows[..i], now)
      {
        assert rows[..i + 1][..i] == rows[..i];
        var r := rows[i];
        if r.None? || now > r.value.entry.expiresAt {
          continue;
        }
        if r.value.id !in entries || r.value.entry.expiresAt > entries[r.value.id].expiresAt {
          entries := entries[r.value.id := r.value.entry];
        }
      }
      assert rows[..|rows|] == rows;
    }

    method Record(nodeId: ByteString, v: Violation, now: int, writes: bool) returns (r: Outcome)
      modifies this`entries, file
      ensures r == if |nodeId| == 32 then Flagged(writes) else Refused
      ensures r.Refused? ==> entries == old(entries) && file.content == old(file.content)
      ensures r.Flagged? ==> entries == Recorded(old(entries), old(file.content), Hex(nodeId), v, now)
      ensures r.Flagged? ==> forall q :: q <= now + 86_400_000_000_000 <==> Live(entries[Hex(nodeId)], q)
      ensures r == Flagged(true) ==> Saved(file.content, entries)
      ensures r == Flagged(false) ==> file.content == old(file.content)
    {
      if |nodeId| != NODE_ID_LEN {
        return Refused;
      }
      var id := Hex(nodeId);
      AdoptFromFile(now);
      var e := if id in entries then entries[id] else Entry([], 0, 0);
      var vs := e.violations + [v];
      if |vs| > MAX_VIOLATIONS {
        vs := vs[|vs| - MAX_VIOLATIONS..];
      }
      entries := entries[id := Entry(vs, now, now + TTL)];
      Save(writes);
      return Flagged(writes);
    }

    /** Flagged is being present and not past the expiry; an expired row is dropped and the table saved. */
    method FlaggedID(id: string, now: int, writes: bool) returns (flagged: bool)
      modifies this`entries, file
      ensures flagged <==> id in old(entries) && Live(old(entries)[id], now)
      ensures entries == if flagged || id !in old(entries) then old(entries) else old(entries) - {id}
      ensures if !flagged && id in old(entries) && writes then Saved(file.content, entries)
              else file.content == old(file.content)
    {
      if id !in entries {
        return false;
      }
      if now > entries[id].expiresAt {
        entries := entries - {id};
        Save(writes);
        return false;
      }
      return true;
    }

    method Remove(id: string, writes: bool) returns (removed: bool)
      modifies this`entries, file
      ensures removed <==> id in old(entries)
      ensures entries == old(entries) - {id}
      ensures if removed && writes then Saved(file.content, entries) else file.content == old(file.content)
    {
      removed := id in entries;
      if removed {
        entries := entries - {id};
        Save(writes);
      } else {
        assert entries - {id} == entries;
      }
    }

    /**
      The live rows, oldest flag first, each once; expired rows leave the table. The save behind
      the length comparison never happens: by then both lengths count the live rows.
     */
    method Entries(now: int) returns (out: seq<Row>)
      modifies this`entries
      ensures entries == map id | id in old(entries) && Live(old(entries)[id], now) :: old(entries)[id]
      ensures Oldest(out) && Once(out)
      ensures forall r :: r in out <==> r.id in entries && entries[r.id] == r.entry
    {
      ghost var before := entries;
      var left := entries.Keys;
      out := [];
      while left != {}
        invariant left <= before.Keys
        invariant forall id :: id in entries <==> id in before && (id in left || Live(before[id], now))
        invariant forall id :: id in entries ==> entries[id] == before[id]
        invariant Listed(out, before, before.Keys - left, now)
        decreases |left|
      {
        var id :| id in left;
        if now > entries[id].expiresAt {
          ListedSkip(out, before, before.Keys - left, now, id);
          entries := entries - {id};
        } else {
          var r := Row(id, entries[id]);
          var p := Place(out, r);
          ListedInsert(out, before, before.Keys - left, now, id, p);
          out := out[..p] + [r] + out[p..];
        }
        assert before.Keys - (left - {id}) == (before.Keys - left) + {id};
        left := left - {id};
      }
      assert before.Keys - left == before.Keys;
      ListedSize(out, before, now, entries);
      if |out| != |entries| {
        assert false;
      }
    }
  }

  /** A corrupt file is refused; anything else opens. */
  method Open(f: LedgerFile, now: int) returns (l: Ledger?)
    ensures f.content == old(f.content) && (l == null <==> f.content.Corrupt?)
    ensures l != null ==> l.file == f && l.entries == if f.content.Rows? then Opened(f.content.rows, now) else map[]
  {
    if f.content.Corrupt? {
      return null;
    }
    l := new Ledger(f, now);
  }

  /** Oldest flag first. */
  ghost predicate Oldest(out: seq<Row>) {
    forall i, j :: 0 <= i < j < |out| ==> out[i].entry.flaggedAt <= out[j].entry.flaggedAt
  }

  ghost predicate Once(out: seq<Row>) {
    forall i, j :: 0 <= i < j < |out| ==> out[i].id != out[j].id
  }

  /** `out` lists the live rows among `done`, sorted by flag time, each once. */
  ghost predicate Listed(out: seq<Row>, t: Table, done: set<string>, now: int) {
    && Oldest(out) && Once(out)
    && (forall r :: r in out <==> r.id in t && r.id in done && t[r.id] == r.entry && Live(r.entry, now))
  }

  method Place(out: seq<Row>, r: Row) returns (p: nat)
    requires Oldest(out)
    ensures p <= |out|
    ensures forall i :: 0 <= i < p ==> out[i].entry.flaggedAt <= r.entry.flaggedAt
    ensures forall i :: p <= i < |out| ==> r.entry.flaggedAt <= out[i].entry.flaggedAt
  {
    p := |out|;
    while p > 0 && r.entry.flaggedAt < out[p - 1].entry.flaggedAt
      invariant p <= |out|
      invariant forall i :: p <= i < |out| ==> r.entry.flaggedAt <= out[i].entry.flaggedAt
    {
      p := p - 1;
    }
  }

  lemma ListedSkip(out: seq<Row>, t: Table, done: set<string>, now: int, id: string)
    requires Listed(out, t, done, now) && id in t && !Live(t[id], now)
    ensures Listed(out, t, done + {id}, now)
  {
  }

  lemma ListedInsert(out: seq<Row>, t: Table, done: set<string>, now: int, id: string, p: nat)
    requires Listed(out, t, done, now) && id in t && id !in done && Live(t[id], now) && p <= |out|
    requires forall i :: 0 <= i < p ==> out[i].entry.flaggedAt <= t[id].flaggedAt
    requires forall i :: p <= i < |out| ==> t[id].flaggedAt <= out[i].entry.flaggedAt
    ensures Listed(out[..p] + [Row(id, t[id])] + out[p..], t, done + {id}, now)
  {
    hide Oldest, Once;
    var r := Row(id, t[id]);
    var longer := out[..p] + [r] + out[p..];
    InsertMembers(out, r, p);
    InsertOldest(out, r, p);
    InsertOnce(out, r, p);
  }

  lemma InsertMembers(out: seq<Row>, r: Row, p: nat)
    requires p <= |out|
    ensures forall x :: x in out[..p] + [r] + out[p..] <==> x in out || x == r
  {
    assert out == out[..p] + out[p..];
  }

  lemma InsertOldest(out: seq<Row>, r: Row, p: nat)
    requires Oldest(out) && p <= |out|
    requires forall i :: 0 <= i < p ==> out[i].entry.flaggedAt <= r.entry.flaggedAt
    requires forall i :: p <= i < |out| ==> r.entry.flaggedAt <= out[i].entry.flaggedAt
    ensures Oldest(out[..p] + [r] + out[p..])
  {
    var longer := out[..p] + [r] + out[p..];
    assert forall i :: 0 <= i < |longer| ==>
        longer[i] == (if i < p then out[i] else if i == p then r else out[i - 1]);
  }

  lemma InsertOnce(out: seq<Row>, r: Row, p: nat)
    requires Once(out) && p <= |out| && forall x :: x in out ==> x.id != r.id
    ensures Once(out[..p] + [r] + out[p..])
  {
    var longer := out[..p] + [r] + out[p..];
    assert forall i :: 0 <= i < |longer| ==>
        longer[i] == (if i < p then out[i] else if i == p then r else out[i - 1]);
    assert forall i :: 0 <= i < |out| ==> out[i] in out;
  }

  lemma ListedSize(out: seq<Row>, t: Table, now: int, live: Table)
    requires Listed(out, t, t.Keys, now)
    requires forall id :: id in live <==> id in t && Live(t[id], now)
    ensures |out| == |live|
  {
    var ids := set r | r in out :: r.id;
    IdCount(out);
    assert ids == live.Keys by {
      forall id | id in live ensures id in ids {
        assert Row(id, t[id]) in out;
      }
    }
  }

  lemma {:induction false} IdCount(out: seq<Row>)
    requires Once(out)
    ensures |set r | r in out :: r.id| == |out|
  {
    if out != [] {
      var rest := out[..|out| - 1];
      var r := out[|out| - 1];
      IdCount(rest);
      assert out == rest + [r];
      var ids := set x | x in rest :: x.id;
      assert (set x | x in out :: x.id) == ids + {r.id};
      assert r.id !in ids;
    }
  }
}
