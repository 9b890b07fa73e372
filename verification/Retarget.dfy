/**
  The difficulty retarget rule: add the rounded base-2 logarithm of target span over actual
  span, clamped to two bits either way, and never go below the initial difficulty. The
  logarithm is exact here; the source computes it in floating point.
 */
module Retarget {

  const POW_DIFFICULTY_INIT := 24

  /** What makes a function on the positive reals the base-2 logarithm. */
  ghost predicate IsLog2(log: real -> real) {
    && (forall x: real, y: real :: x > 0.0 && y > 0.0 ==> log(x * y) == log(x) + log(y))
    && (forall x: real, y: real :: 0.0 < x < y ==> log(x) < log(y))
    && log(2.0) == 1.0
  }

  /** Rounding half away from zero. */
  function Round(x: real): int {
    if x >= 0.0 then (x + 0.5).Floor else -((-x + 0.5).Floor)
  }

  function Clamp(x: int): int { if x < -2 then -2 else if x > 2 then 2 else x }

  function Max(a: int, b: int): int { if a < b then b else a }

  function RetargetDifficulty(dOld: int, actual: int, target: int, log: real -> real): int {
    if target <= 0 then Max(dOld, POW_DIFFICULTY_INIT)
    else
      var delta := if actual <= 0 then 2 else Clamp(Round(log(target as real / actual as real)));
      Max(dOld + delta, POW_DIFFICULTY_INIT)
  }

  // ----- integer comparisons decide the step --------------------------------------------------

  /** The step by comparing squares of the two spans; no logarithm and no rounding. */
  function Step(actual: int, target: int): int {
    var a, t := actual * actual, target * target;
    if t > 8 * a then 2 else if t > 2 * a then 1
    else if a > 8 * t then -2 else if a > 2 * t then -1
    else 0
  }

  /** No positive square is twice another one. */
  lemma {:induction false} SquareNotDouble(t: int, a: int)
    requires t > 0 && a > 0
    ensures t * t != 2 * (a * a)
    decreases t
  {
    if t * t == 2 * (a * a) {
      EvenRoot(t, a * a);
      var u := t / 2;
      assert t == 2 * u && 2 * (u * u) == a * a;
      EvenRoot(a, u * u);
      var b := a / 2;
      assert a == 2 * b && u * u == 2 * (b * b);
      SquareNotDouble(u, b);
      assert false;
    }
  }

  lemma EvenRoot(t: int, n: int)
    requires t * t == 2 * n
    ensures t % 2 == 0
  {
    var k := t / 2;
    OddSquare(k);
    assert t == 2 * k || t == 2 * k + 1;
  }

  lemma OddSquare(k: int)
    ensures (2 * k + 1) * (2 * k + 1) == 2 * (2 * (k * k) + 2 * k) + 1
  {
  }

  /** The comparisons never meet equality for positive spans, so rounding never meets a tie. */
  lemma NoTies(a: int, t: int)
    requires a > 0 && t > 0
    ensures t * t != 2 * (a * a) && t * t != 8 * (a * a) && a * a != 2 * (t * t) && a * a != 8 * (t * t)
  {
    SquareNotDouble(t, a);
    SquareNotDouble(a, t);
    SquareNotDouble(t, 2 * a);
    SquareNotDouble(a, 2 * t);
    assert (2 * a) * (2 * a) == 4 * (a * a) && (2 * t) * (2 * t) == 4 * (t * t);
  }

  /** Doubling the logarithm of a ratio: comparing squares compares half-integers. */
  lemma LogOfSquares(log: real -> real, x: real)
    requires IsLog2(log) && x > 0.0
    ensures x * x > 2.0 ==> log(x) > 0.5
    ensures x * x < 2.0 ==> log(x) < 0.5
    ensures x * x > 8.0 ==> log(x) > 1.5
    ensures x * x < 8.0 ==> log(x) < 1.5
  {
    hide IsLog2;
    PositiveProduct(x, x, x * x);
    LogOfSquare(log, x, x * x);
  }

  lemma LogOfSquare(log: real -> real, x: real, y: real)
    requires IsLog2(log) && x > 0.0 && y > 0.0 && y == x * x
    ensures y > 2.0 ==> log(x) > 0.5
    ensures y < 2.0 ==> log(x) < 0.5
    ensures y > 8.0 ==> log(x) > 1.5
    ensures y < 8.0 ==> log(x) < 1.5
  {
    hide IsLog2;
    LogProduct(log, x, x, y);
    LogProduct(log, 2.0, 2.0, 4.0);
    LogProduct(log, 4.0, 2.0, 8.0);
    LogOfTwo(log);
    LogCompares(log, y, 2.0);
    LogCompares(log, y, 8.0);
  }

  lemma PositiveProduct(x: real, y: real, z: real)
    requires x > 0.0 && y > 0.0 && z == x * y
    ensures z > 0.0
  {
    Scaled(x, 0.0, y);
  }

  lemma LogProduct(log: real -> real, x: real, y: real, z: real)
    requires IsLog2(log) && x > 0.0 && y > 0.0 && z == x * y
    ensures log(z) == log(x) + log(y)
  {
    assert log(x * y) == log(x) + log(y);
  }

  lemma LogOfTwo(log: real -> real)
    requires IsLog2(log)
    ensures log(2.0) == 1.0
  {
  }

  lemma LogCompares(log: real -> real, y: real, c: real)
    requires IsLog2(log) && y > 0.0 && c > 0.0
    ensures y < c ==> log(y) < log(c)
    ensures y > c ==> log(y) > log(c)
  {
    if y < c {
      assert log(y) < log(c);
    } else if y > c {
      assert log(c) < log(y);
    }
  }

  lemma LogOfInverse(log: real -> real, x: real, y: real)
    requires IsLog2(log) && x > 0.0 && y > 0.0 && x * y == 1.0
    ensures log(y) == -log(x)
  {
    hide IsLog2;
    LogProduct(log, x, y, 1.0);
    LogProduct(log, 1.0, 1.0, 1.0);
  }

  lemma SquaredRatio(t: int, a: int, c: int, rc: real, x: real)
    requires t > 0 && a > 0 && c > 0 && rc == c as real && x == t as real / a as real
    ensures x > 0.0
    ensures t * t > c * (a * a) <==> x * x > rc
    ensures t * t < c * (a * a) <==> x * x < rc
  {
    var ra, rt := a as real, t as real;
    assert x * ra == rt;
    assert (x * x) * (ra * ra) == rt * rt;
    assert rt * rt == (t * t) as real && ra * ra == (a * a) as real && rc * (ra * ra) == (c * (a * a)) as real;
    Scaled(x * x, rc, ra * ra);
  }

  lemma Scaled(x: real, c: real, k: real)
    requires k > 0.0
    ensures x > c <==> x * k > c * k
    ensures x < c <==> x * k < c * k
  {
  }

  lemma InverseRatios(t: int, a: int)
    requires t > 0 && a > 0
    ensures (t as real / a as real) * (a as real / t as real) == 1.0
  {
    var x, y := t as real / a as real, a as real / t as real;
    assert x * (a as real) == t as real && y * (t as real) == a as real;
    assert x * y * (t as real) == x * (y * (t as real));
    Scaled(x * y, 1.0, t as real);
  }

  /** Over the exact logarithm, the rule's clamped rounded step is decided by integer comparisons. */
  lemma StepByIntegers(log: real -> real, a: int, t: int)
    requires IsLog2(log) && a > 0 && t > 0
    ensures Clamp(Round(log(t as real / a as real))) == Step(a, t)
  {
    hide IsLog2, Round, Clamp;
    NoTies(a, t);
    RatioLog(log, t, a);
    RatioLog(log, a, t);
    InverseRatios(t, a);
    LogOfInverse(log, t as real / a as real, a as real / t as real);
    StepCases(a * a, t * t, log(t as real / a as real), a, t);
    RoundByHalves(log(t as real / a as real), Step(a, t));
  }

  /** Comparing squared spans compares the logarithm of their ratio with halves. */
  lemma RatioLog(log: real -> real, t: int, a: int)
    requires IsLog2(log) && a > 0 && t > 0
    ensures
      var v := log(t as real / a as real);
      && (t * t > 2 * (a * a) ==> v > 0.5) && (t * t < 2 * (a * a) ==> v < 0.5)
      && (t * t > 8 * (a * a) ==> v > 1.5) && (t * t < 8 * (a * a) ==> v < 1.5)
  {
    hide IsLog2;
    var x := t as real / a as real;
    SquaredRatio(t, a, 2, 2.0, x);
    SquaredRatio(t, a, 8, 8.0, x);
    LogOfSquares(log, x);
  }

  lemma StepCases(aa: int, tt: int, v: real, a: int, t: int)
    requires aa == a * a && tt == t * t && aa > 0 && tt > 0
    requires tt != 2 * aa && tt != 8 * aa && aa != 2 * tt && aa != 8 * tt
    requires (tt > 2 * aa ==> v > 0.5) && (tt < 2 * aa ==> v < 0.5) && (tt > 8 * aa ==> v > 1.5) && (tt < 8 * aa ==> v < 1.5)
    requires (aa > 2 * tt ==> v < -0.5) && (aa < 2 * tt ==> v > -0.5) && (aa > 8 * tt ==> v < -1.5) && (aa < 8 * tt ==> v > -1.5)
    ensures
      var s := Step(a, t);
      && (s == 2 ==> v > 1.5) && (s == 1 ==> 0.5 < v < 1.5) && (s == 0 ==> -0.5 < v < 0.5)
      && (s == -1 ==> -1.5 < v < -0.5) && (s == -2 ==> v < -1.5) && -2 <= s <= 2
  {
  }

  lemma RoundByHalves(v: real, s: int)
    requires -2 <= s <= 2
    requires s == 2 ==> v > 1.5
    requires s == 1 ==> 0.5 < v < 1.5
    requires s == 0 ==> -0.5 < v < 0.5
    requires s == -1 ==> -1.5 < v < -0.5
    requires s == -2 ==> v < -1.5
    ensures Clamp(Round(v)) == s
  {
  }

  // ----- the step as a controller --------------------------------------------------------------

  lemma SquareMonotone(a: nat, b: nat)
    requires a <= b
    ensures a * a <= b * b
  {
    assert b * b == a * a + (b - a) * (b + a);
  }

  /** A faster block never takes a smaller step. */
  lemma StepMonotone(a: int, b: int, t: int)
    requires 0 < a <= b && t > 0
    ensures Step(a, t) >= Step(b, t)
  {
    SquareMonotone(a, b);
  }

  /** Swapping the spans flips the step. */
  lemma StepAntisymmetric(a: int, t: int)
    requires a > 0 && t > 0
    ensures Step(a, t) == -Step(t, a)
  {
    var x, y := a * a, t * t;
    assert x > 0 && y > 0;
  }

  /** The rule in integers, for all spans: zero and negative ones included. */
  lemma RetargetByIntegers(dOld: int, actual: int, target: int, log: real -> real)
    requires IsLog2(log)
    ensures RetargetDifficulty(dOld, actual, target, log)
         == Max(dOld + (if target <= 0 then 0 else if actual <= 0 then 2 else Step(actual, target)), 24)
  {
    if target > 0 && actual > 0 {
      StepByIntegers(log, actual, target);
    }
  }

  /** One block's observation. */
  datatype Block = Block(actual: int, target: int)

  /** The difficulty after a run of blocks. */
  function Run(d: int, blocks: seq<Block>, log: real -> real): int {
    if blocks == [] then d
    else
      var n := |blocks| - 1;
      RetargetDifficulty(Run(d, blocks[..n], log), blocks[n].actual, blocks[n].target, log)
  }

  /** Every run keeps the difficulty at or above the floor and raises it by at most two bits a block. */
  lemma {:induction false} RunBounded(d: int, blocks: seq<Block>, log: real -> real)
    ensures blocks != [] || d >= 24 ==> Run(d, blocks, log) >= 24
    ensures Run(d, blocks, log) <= Max(d, 24) + 2 * |blocks|
    ensures Run(d, blocks, log) >= d - 2 * |blocks|
  {
    if blocks != [] {
      RunBounded(d, blocks[..|blocks| - 1], log);
    }
  }

  /** Of two networks from the same difficulty, the one whose blocks were all at least as fast ends at least as hard. */
  lemma {:induction false} FasterRunsHarder(d: int, fast: seq<Block>, slow: seq<Block>, log: real -> real)
    requires IsLog2(log) && |fast| == |slow|
    requires forall i :: 0 <= i < |fast| ==> fast[i].target == slow[i].target && fast[i].actual <= slow[i].actual
    ensures Run(d, fast, log) >= Run(d, slow, log)
  {
    if fast != [] {
      var n := |fast| - 1;
      FasterRunsHarder(d, fast[..n], slow[..n], log);
      var f, s := Run(d, fast[..n], log), Run(d, slow[..n], log);
      RetargetByIntegers(f, fast[n].actual, fast[n].target, log);
      RetargetByIntegers(s, slow[n].actual, slow[n].target, log);
      if fast[n].target > 0 && fast[n].actual > 0 {
        StepMonotone(fast[n].actual, slow[n].actual, fast[n].target);
      }
    }
  }
}
