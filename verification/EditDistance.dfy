/**
  The typo net of the command line: a table-filling edit distance, proved to be the least
  number of single-character edits over all ways of turning one string into the other, and
  a metric on lower-cased strings.
 */
module EditDistance {
  import opened Bytes

  function Least(a: nat, b: nat, c: nat): nat {
    var m := if b < a then b else a;
    if c < m then c else m
  }

  function Cost<T(==)>(x: T, y: T): nat { if x == y then 0 else 1 }

  function Init<T>(s: seq<T>): seq<T>
    requires s != []
  {
    s[..|s| - 1]
  }

  function Last<T>(s: seq<T>): T
    requires s != []
  {
    s[|s| - 1]
  }

  /** The recurrence behind the table. */
  ghost function Dist<T>(a: seq<T>, b: seq<T>): nat
    decreases |a| + |b|
  {
    if a == [] then |b|
    else if b == [] then |a|
    else Least(Dist(Init(a), b) + 1, Dist(a, Init(b)) + 1, Dist(Init(a), Init(b)) + Cost(Last(a), Last(b)))
  }

  /** The recurrence on table indices. */
  ghost function Cell(a: ByteString, b: ByteString, i: nat, j: nat): nat
    requires i <= |a| && j <= |b|
    decreases i + j
  {
    if i == 0 then j
    else if j == 0 then i
    else Least(Cell(a, b, i - 1, j) + 1, Cell(a, b, i, j - 1) + 1,
               Cell(a, b, i - 1, j - 1) + Cost(a[i - 1], b[j - 1]))
  }

  lemma {:induction false} CellIsPrefixDistance(a: ByteString, b: ByteString, i: nat, j: nat)
    requires i <= |a| && j <= |b|
    ensures Cell(a, b, i, j) == Dist(a[..i], b[..j])
    decreases i + j
  {
    hide Dist, Cell;
    DistUnfolds(a[..i], b[..j]);
    CellUnfolds(a, b, i, j);
    if i > 0 && j > 0 {
      assert Init(a[..i]) == a[..i - 1] && Init(b[..j]) == b[..j - 1];
      assert Last(a[..i]) == a[i - 1] && Last(b[..j]) == b[j - 1];
      CellIsPrefixDistance(a, b, i - 1, j);
      CellIsPrefixDistance(a, b, i, j - 1);
      CellIsPrefixDistance(a, b, i - 1, j - 1);
    }
  }

  lemma {:induction false} CellUnfolds(a: ByteString, b: ByteString, i: nat, j: nat)
    requires i <= |a| && j <= |b|
    ensures i == 0 ==> Cell(a, b, i, j) == j
    ensures j == 0 ==> Cell(a, b, i, j) == i
    ensures i > 0 && j > 0 ==>
            Cell(a, b, i, j) == Least(Cell(a, b, i - 1, j) + 1, Cell(a, b, i, j - 1) + 1,
                                      Cell(a, b, i - 1, j - 1) + Cost(a[i - 1], b[j - 1]))
  {
  }

  lemma {:induction false} DistUnfolds<T>(a: seq<T>, b: seq<T>)
    ensures a == [] ==> Dist(a, b) == |b|
    ensures b == [] ==> Dist(a, b) == |a|
    ensures a != [] && b != [] ==>
            Dist(a, b) == Least(Dist(Init(a), b) + 1, Dist(a, Init(b)) + 1, Dist(Init(a), Init(b)) + Cost(Last(a), Last(b)))
  {
  }

  ghost function Row(a: ByteString, b: ByteString, i: nat): (row: seq<nat>)
    requires i <= |a|
    ensures |row| == |b| + 1 && forall l :: 0 <= l <= |b| ==> row[l] == Cell(a, b, i, l)
  {
    seq(|b| + 1, l requires 0 <= l <= |b| => Cell(a, b, i, l))
  }

  ghost predicate RowIs(d: array2<nat>, i: nat, row: seq<nat>)
    requires i < d.Length0 && |row| == d.Length1
    reads d
  {
    forall l :: 0 <= l < |row| ==> d[i, l] == row[l]
  }

  /** One row of the recurrence: `row` follows from the row `above` and the characters. */
  ghost predicate RowFollows(above: seq<nat>, row: seq<nat>, x: Byte, b: ByteString)
    requires |above| == |row| == |b| + 1
  {
    forall j :: 1 <= j <= |b| ==>
      row[j] == Least(above[j] + 1, row[j - 1] + 1, above[j - 1] + Cost(x, b[j - 1]))
  }

  method FillRow(d: array2<nat>, x: Byte, b: ByteString, i: nat, ghost above: seq<nat>, ghost row: seq<nat>)
    requires d.Length1 == |b| + 1 == |above| == |row| && 1 <= i < d.Length0
    requires RowIs(d, i - 1, above) && d[i, 0] == row[0] && RowFollows(above, row, x, b)
    modifies d
    ensures RowIs(d, i, row)
    ensures forall k, l :: 0 <= k < d.Length0 && 0 <= l < d.Length1 && k != i ==> d[k, l] == old(d[k, l])
  {
    for j := 1 to |b| + 1
      invariant forall k, l :: 0 <= k < d.Length0 && 0 <= l < d.Length1 && k != i ==> d[k, l] == old(d[k, l])
      invariant forall l :: 0 <= l < j ==> d[i, l] == row[l]
    {
      var cost := if x == b[j - 1] then 0 else 1;
      var m := d[i - 1, j] + 1;
      if d[i, j - 1] + 1 < m {
        m := d[i, j - 1] + 1;
      }
      if d[i - 1, j - 1] + cost < m {
        m := d[i - 1, j - 1] + cost;
      }
      d[i, j] := m;
    }
  }

  lemma {:induction false} RowsFollow(a: ByteString, b: ByteString, i: nat)
    requires 1 <= i <= |a|
    ensures RowFollows(Row(a, b, i - 1), Row(a, b, i), a[i - 1], b) && Row(a, b, i)[0] == i
  {
    var above, row := Row(a, b, i - 1), Row(a, b, i);
    forall j | 1 <= j <= |b|
      ensures row[j] == Least(above[j] + 1, row[j - 1] + 1, above[j - 1] + Cost(a[i - 1], b[j - 1]))
    {
    }
  }

  /** The border of the table: row 0 and column 0 count up. */
  method NewTable(m: nat, n: nat) returns (d: array2<nat>)
    ensures fresh(d) && d.Length0 == m + 1 && d.Length1 == n + 1
    ensures forall k :: 0 <= k <= m ==> d[k, 0] == k
    ensures forall k :: 0 <= k <= n ==> d[0, k] == k
  {
    d := new nat[m + 1, n + 1];
    for i := 0 to m + 1
      invariant forall k :: 0 <= k < i ==> d[k, 0] == k
    {
      d[i, 0] := i;
    }
    for j := 1 to n + 1
      invariant forall k :: 0 <= k <= m ==> d[k, 0] == k
      invariant forall k :: 0 <= k < j ==> d[0, k] == k
    {
      d[0, j] := j;
    }
  }

  /** Fills the table row by row; `lower` is the lower-casing applied to both inputs first. */
  method Distance(rawA: ByteString, rawB: ByteString, lower: ByteString -> ByteString) returns (r: nat)
    ensures r == Dist(lower(rawA), lower(rawB))
  {
    var a, b := lower(rawA), lower(rawB);
    var d := NewTable(|a|, |b|);
    ghost var row := Row(a, b, 0);
    for i := 1 to |a| + 1
      invariant row == Row(a, b, i - 1)
      invariant forall k :: i <= k <= |a| ==> d[k, 0] == k
      invariant RowIs(d, i - 1, row)
    {
      RowsFollow(a, b, i);
      FillRow(d, a[i - 1], b, i, row, Row(a, b, i));
      row := Row(a, b, i);
    }
    r := d[|a|, |b|];
    CellIsPrefixDistance(a, b, |a|, |b|);
    assert a[..|a|] == a && b[..|b|] == b;
  }

  // ----- the mathematical definition ----------------------------------------------------------

  /** `y` arises from `x` by inserting, deleting or replacing one character. */
  ghost predicate OneEdit<T(!new)>(x: seq<T>, y: seq<T>) {
    || (exists p: nat, c :: p <= |x| && y == x[..p] + [c] + x[p..])
    || (exists p: nat, c :: p <= |y| && x == y[..p] + [c] + y[p..])
    || (exists p: nat, c :: p < |x| && y == x[..p] + [c] + x[p + 1..])
  }

  /** A chain of single edits from `a` to `b`; its length is the number of edits. */
  ghost predicate Chain<T(!new)>(steps: seq<seq<T>>, a: seq<T>, b: seq<T>) {
    && steps != [] && steps[0] == a && Last(steps) == b
    && forall k :: 0 <= k < |steps| - 1 ==> OneEdit(steps[k], steps[k + 1])
  }

  // ----- metric laws --------------------------------------------------------------------------

  lemma {:induction false} Symmetric<T>(a: seq<T>, b: seq<T>)
    ensures Dist(a, b) == Dist(b, a)
    decreases |a| + |b|
  {
    if a != [] && b != [] {
      Symmetric(Init(a), b);
      Symmetric(a, Init(b));
      Symmetric(Init(a), Init(b));
    }
  }

  lemma {:induction false} LengthBounds<T>(a: seq<T>, b: seq<T>)
    ensures |a| <= |b| + Dist(a, b) && |b| <= |a| + Dist(a, b) && Dist(a, b) <= |a| + |b|
    decreases |a| + |b|
  {
    if a != [] && b != [] {
      LengthBounds(Init(a), b);
      LengthBounds(a, Init(b));
      LengthBounds(Init(a), Init(b));
    }
  }

  /** Zero exactly on equal strings. */
  lemma {:induction false} ZeroIffEqual<T>(a: seq<T>, b: seq<T>)
    ensures Dist(a, b) == 0 <==> a == b
    decreases |a| + |b|
  {
    if a != [] && b != [] {
      ZeroIffEqual(Init(a), Init(b));
      assert a == Init(a) + [Last(a)] && b == Init(b) + [Last(b)];
    }
  }

  /** The recurrence as facts: at most each of the three, and equal to one of them. */
  lemma {:induction false} Recurrence<T>(a: seq<T>, b: seq<T>)
    requires a != [] && b != []
    ensures
      var del, ins := Dist(Init(a), b) + 1, Dist(a, Init(b)) + 1;
      var sub := Dist(Init(a), Init(b)) + Cost(Last(a), Last(b));
      && Dist(a, b) <= del && Dist(a, b) <= ins && Dist(a, b) <= sub
      && (Dist(a, b) == del || Dist(a, b) == ins || Dist(a, b) == sub)
  {
  }

  /** The triangle inequality, by the last step of each of the two distances. */
  lemma {:induction false} Triangle<T>(a: seq<T>, b: seq<T>, c: seq<T>)
    ensures Dist(a, c) <= Dist(a, b) + Dist(b, c)
    decreases |a| + |b| + |c|
  {
    hide Dist;
    if a == [] || b == [] || c == [] {
      LengthBounds(a, b);
      LengthBounds(b, c);
      LengthBounds(a, c);
    } else {
      var a', b', c' := Init(a), Init(b), Init(c);
      Recurrence(a, b);
      Recurrence(b, c);
      Recurrence(a, c);
      if Dist(a, b) == Dist(a', b) + 1 {
        Triangle(a', b, c);
      } else if Dist(b, c) == Dist(b, c') + 1 {
        Triangle(a, b, c');
      } else if Dist(a, b) == Dist(a, b') + 1 {
        Triangle(a, b', c);
        Triangle(a, b', c');
      } else if Dist(b, c) == Dist(b', c) + 1 {
        Triangle(a', b', c);
      } else {
        Triangle(a', b', c');
      }
    }
  }

  // ----- the recurrence is the least number of edits -------------------------------------------

  lemma {:induction false} CommonSuffix<T>(x: seq<T>, y: seq<T>, s: seq<T>)
    ensures Dist(x + s, y + s) <= Dist(x, y)
    decreases |s|
  {
    if s == [] {
      assert x + s == x && y + s == y;
    } else {
      assert Init(x + s) == x + Init(s) && Init(y + s) == y + Init(s);
      assert Last(x + s) == Last(y + s) == Last(s);
      CommonSuffix(x, y, Init(s));
    }
  }

  lemma {:induction false} Appended<T>(u: seq<T>, c: T)
    ensures Dist(u, u + [c]) <= 1
  {
    ZeroIffEqual(u, u);
    assert Init(u + [c]) == u;
  }

  lemma {:induction false} InsertCostsOne<T>(x: seq<T>, p: nat, c: T)
    requires p <= |x|
    ensures Dist(x, x[..p] + [c] + x[p..]) <= 1
  {
    hide Dist;
    Appended(x[..p], c);
    CommonSuffix(x[..p], x[..p] + [c], x[p..]);
    assert x[..p] + x[p..] == x;
  }

  lemma {:induction false} Replaced<T>(u: seq<T>, x: T, c: T)
    ensures Dist(u + [x], u + [c]) <= 1
  {
    ZeroIffEqual(u, u);
    assert Init(u + [x]) == u && Init(u + [c]) == u;
  }

  lemma {:induction false} ReplaceCostsOne<T>(x: seq<T>, p: nat, c: T)
    requires p < |x|
    ensures Dist(x, x[..p] + [c] + x[p + 1..]) <= 1
  {
    hide Dist;
    var was, now, rest := x[..p] + [x[p]], x[..p] + [c], x[p + 1..];
    assert x == was + rest;
    Replaced(x[..p], x[p], c);
    CommonSuffix(was, now, rest);
  }

  lemma {:induction false} OneEditCostsOne<T(!new)>(x: seq<T>, y: seq<T>)
    requires OneEdit(x, y)
    ensures Dist(x, y) <= 1
  {
    if p: nat, c :| p <= |x| && y == x[..p] + [c] + x[p..] {
      InsertCostsOne(x, p, c);
    } else if p: nat, c :| p <= |y| && x == y[..p] + [c] + y[p..] {
      InsertCostsOne(y, p, c);
      Symmetric(x, y);
    } else {
      var p: nat, c :| p < |x| && y == x[..p] + [c] + x[p + 1..];
      ReplaceCostsOne(x, p, c);
    }
  }

  /** No chain of edits is shorter than the distance. */
  lemma {:induction false} NoShorterChain<T(!new)>(steps: seq<seq<T>>, a: seq<T>, b: seq<T>)
    requires Chain(steps, a, b)
    ensures Dist(a, b) <= |steps| - 1
    decreases |steps|
  {
    if |steps| == 1 {
      ZeroIffEqual(a, b);
    } else {
      OneEditCostsOne(a, steps[1]);
      assert Last(steps[1..]) == Last(steps);
      NoShorterChain(steps[1..], steps[1], b);
      Triangle(a, steps[1], b);
    }
  }

  lemma {:induction false} InsertAppend<T(!new)>(x: seq<T>, y: seq<T>, p: nat, d: T, c: T)
    requires p <= |x| && y == x[..p] + [d] + x[p..]
    ensures OneEdit(x + [c], y + [c]) && OneEdit(y + [c], x + [c])
  {
    assert y + [c] == (x + [c])[..p] + [d] + (x + [c])[p..];
  }

  lemma {:induction false} ReplaceAppend<T(!new)>(x: seq<T>, y: seq<T>, p: nat, d: T, c: T)
    requires p < |x| && y == x[..p] + [d] + x[p + 1..]
    ensures OneEdit(x + [c], y + [c])
  {
    assert y + [c] == (x + [c])[..p] + [d] + (x + [c])[p + 1..];
  }

  lemma {:induction false} OneEditAppend<T(!new)>(x: seq<T>, y: seq<T>, c: T)
    requires OneEdit(x, y)
    ensures OneEdit(x + [c], y + [c])
  {
    if p: nat, d :| p <= |x| && y == x[..p] + [d] + x[p..] {
      InsertAppend(x, y, p, d, c);
    } else if p: nat, d :| p <= |y| && x == y[..p] + [d] + y[p..] {
      InsertAppend(y, x, p, d, c);
    } else {
      var p: nat, d :| p < |x| && y == x[..p] + [d] + x[p + 1..];
      ReplaceAppend(x, y, p, d, c);
    }
  }

  lemma {:induction false} AppendToChain<T(!new)>(steps: seq<seq<T>>, a: seq<T>, b: seq<T>, c: T) returns (longer: seq<seq<T>>)
    requires Chain(steps, a, b)
    ensures Chain(longer, a + [c], b + [c]) && |longer| == |steps|
  {
    longer := seq(|steps|, k requires 0 <= k < |steps| => steps[k] + [c]);
    forall k | 0 <= k < |longer| - 1 ensures OneEdit(longer[k], longer[k + 1]) {
      OneEditAppend(steps[k], steps[k + 1], c);
    }
  }

  lemma {:induction false} Prepend<T(!new)>(x: seq<T>, steps: seq<seq<T>>, a: seq<T>, b: seq<T>)
    requires OneEdit(x, a) && Chain(steps, a, b)
    ensures Chain([x] + steps, x, b)
  {
    var all := [x] + steps;
    forall k | 0 <= k < |all| - 1 ensures OneEdit(all[k], all[k + 1]) {
      assert k > 0 ==> all[k] == steps[k - 1] && all[k + 1] == steps[k];
    }
  }

  lemma {:induction false} Extend<T(!new)>(steps: seq<seq<T>>, a: seq<T>, b: seq<T>, y: seq<T>)
    requires OneEdit(b, y) && Chain(steps, a, b)
    ensures Chain(steps + [y], a, y)
  {
    var all := steps + [y];
    forall k | 0 <= k < |all| - 1 ensures OneEdit(all[k], all[k + 1]) {
      assert k < |steps| - 1 ==> all[k] == steps[k] && all[k + 1] == steps[k + 1];
    }
  }

  lemma {:induction false} AppendIsEdit<T(!new)>(x: seq<T>)
    requires x != []
    ensures OneEdit(Init(x), x) && OneEdit(x, Init(x))
  {
    var u, c := Init(x), Last(x);
    assert x == u[..|u|] + [c] + u[|u|..];
  }

  /** Some chain of edits is exactly as long as the distance. */
  lemma {:induction false} ShortestChain<T(!new)>(a: seq<T>, b: seq<T>) returns (steps: seq<seq<T>>)
    ensures Chain(steps, a, b) && |steps| - 1 == Dist(a, b)
    decreases |a| + |b|
  {
    if a == [] && b == [] {
      steps := [a];
    } else if b == [] || (a != [] && Dist(a, b) == Dist(Init(a), b) + 1) {
      steps := ShortestChain(Init(a), b);
      AppendIsEdit(a);
      Prepend(a, steps, Init(a), b);
      steps := [a] + steps;
    } else if a == [] || Dist(a, b) == Dist(a, Init(b)) + 1 {
      steps := ShortestChain(a, Init(b));
      AppendIsEdit(b);
      Extend(steps, a, Init(b), b);
      steps := steps + [b];
    } else {
      steps := ShortestChain(Init(a), Init(b));
      steps := MatchLast(steps, a, b);
    }
  }

  lemma {:induction false} MatchLast<T(!new)>(steps: seq<seq<T>>, a: seq<T>, b: seq<T>) returns (longer: seq<seq<T>>)
    requires a != [] && b != [] && Chain(steps, Init(a), Init(b))
    ensures Chain(longer, a, b) && |longer| == |steps| + Cost(Last(a), Last(b))
  {
    longer := AppendToChain(steps, Init(a), Init(b), Last(b));
    var swapped := Init(a) + [Last(b)];
    assert b == Init(b) + [Last(b)];
    if Last(a) == Last(b) {
      assert a == swapped;
    } else {
      var p := |a| - 1;
      assert swapped == a[..p] + [Last(b)] + a[p + 1..];
      Prepend(a, longer, swapped, b);
      longer := [a] + longer;
    }
  }

  /** The distance is the least number of edits over all chains of edits. */
  lemma {:induction false} DistanceIsLeast<T(!new)>(a: seq<T>, b: seq<T>)
    ensures exists steps :: Chain(steps, a, b) && |steps| - 1 == Dist(a, b)
    ensures forall steps :: Chain(steps, a, b) ==> Dist(a, b) <= |steps| - 1
  {
    var steps := ShortestChain(a, b);
    forall others | Chain(others, a, b) ensures Dist(a, b) <= |others| - 1 {
      NoShorterChain(others, a, b);
    }
  }
}
