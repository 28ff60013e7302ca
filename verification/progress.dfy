/** The two pure helpers over goal progress: the colour band of one progress
    value, and the rounded average progress of an employee's goals. */
module Progress {
  import opened Records

  /** The five bands of the red-to-green scale, lowest first. */
  datatype Color = Red | Orange | Yellow | LightGreen | Emerald

  /** Position of a band on the scale. */
  function Rank(c: Color): nat {
    match c
    case Red => 0
    case Orange => 1
    case Yellow => 2
    case LightGreen => 3
    case Emerald => 4
  }

  /** The style class the editor paints a band with; `getProgressColor(p)`
      is `ColorClass(ProgressColor(p))`. */
  function ColorClass(c: Color): string {
    match c
    case Red => "bg-red-500"
    case Orange => "bg-orange-500"
    case Yellow => "bg-yellow-500"
    case LightGreen => "bg-green-400"
    case Emerald => "bg-emerald-600"
  }

  /** Each band has its own class, so the class shows the band. */
  lemma ColorClassDistinct(c: Color, d: Color)
    ensures ColorClass(c) == ColorClass(d) <==> c == d
  {
  }

  /** Lower bounds of the bands above Red. */
  const Thresholds: seq<int> := [25, 50, 75, 90]

  /** How many of the bounds `ts` the value `p` reaches. */
  function Reached(ts: seq<int>, p: int): (n: nat)
    ensures n <= |ts|
  {
    if ts == [] then 0 else (if ts[0] <= p then 1 else 0) + Reached(ts[1..], p)
  }

  /** Unfolds `Reached` over the four thresholds. */
  lemma ReachedThresholds(p: int)
    ensures Reached(Thresholds, p)
      == (if 25 <= p then 1 else 0) + (if 50 <= p then 1 else 0)
       + (if 75 <= p then 1 else 0) + (if 90 <= p then 1 else 0)
  {
    assert Thresholds[1..] == [50, 75, 90];
    assert Reached(Thresholds, p) == (if 25 <= p then 1 else 0) + Reached([50, 75, 90], p);
    assert [50, 75, 90][1..] == [75, 90];
    assert Reached([50, 75, 90], p) == (if 50 <= p then 1 else 0) + Reached([75, 90], p);
    assert [75, 90][1..] == [90];
    assert Reached([75, 90], p) == (if 75 <= p then 1 else 0) + Reached([90], p);
    assert [90][1..] == [];
    assert Reached([90], p) == if 90 <= p then 1 else 0;
  }

  /** `getProgressColor`: the band of `p` is the number of thresholds `p`
      reaches: below 25 red, below 50 orange, below 75 yellow, below 90 light
      green, else emerald. */
  function ProgressColor(p: int): (c: Color)
    ensures Rank(c) == Reached(Thresholds, p)
  {
    ReachedThresholds(p);
    if p < 25 then Red
    else if p < 50 then Orange
    else if p < 75 then Yellow
    else if p < 90 then LightGreen
    else Emerald
  }

  lemma {:induction false} ReachedMonotone(ts: seq<int>, p: int, q: int)
    requires p <= q
    ensures Reached(ts, p) <= Reached(ts, q)
  {
    if ts != [] {
      ReachedMonotone(ts[1..], p, q);
    }
  }

  /** More progress never moves to a lower band. */
  lemma ProgressColorMonotone(p: int, q: int)
    requires p <= q
    ensures Rank(ProgressColor(p)) <= Rank(ProgressColor(q))
  {
    ReachedMonotone(Thresholds, p, q);
  }

  // ---------------------------------------------------------------------
  // averageProgress

  /** `goals.reduce((acc, c) => acc + c.progress, 0)`, left to right. */
  function ProgressSum(goals: seq<Goal>): int {
    if goals == [] then 0 else ProgressSum(goals[..|goals| - 1]) + goals[|goals| - 1].progress
  }

  /** `Math.round(s / n)` for a positive count `n`: the integer nearest to
      s/n, halves rounded upward. */
  function RoundedMean(s: int, n: int): (r: int)
    requires n > 0
    ensures 2 * n * r - n <= 2 * s < 2 * n * r + n
  {
    var r := (2 * s + n) / (2 * n);
    assert 2 * s + n == 2 * n * r + (2 * s + n) % (2 * n);
    r
  }

  /** Multiplying by a non-negative factor keeps the order. */
  lemma ScaleMonotone(m: int, x: int, y: int)
    requires m >= 0 && x <= y
    ensures m * x <= m * y
  {
    assert m * y - m * x == m * (y - x);
  }

  /** The inequality in RoundedMean's contract pins the result down: no other
      integer is within half a step of s/n on the same side. */
  lemma RoundedMeanUnique(s: int, n: int, r: int)
    requires n > 0
    requires 2 * n * r - n <= 2 * s < 2 * n * r + n
    ensures r == RoundedMean(s, n)
  {
    var q := RoundedMean(s, n);
    if r < q {
      ScaleMonotone(2 * n, r + 1, q);
    } else if r > q {
      ScaleMonotone(2 * n, q + 1, r);
    }
  }

  /** `averageProgress`: 0 without goals, else the rounded mean progress. */
  function AverageProgress(goals: seq<Goal>): (r: int)
    ensures goals == [] ==> r == 0
    ensures goals != [] ==> 2 * |goals| * r - |goals| <= 2 * ProgressSum(goals) < 2 * |goals| * r + |goals|
  {
    if |goals| == 0 then 0 else RoundedMean(ProgressSum(goals), |goals|)
  }

  /** Every goal in the slider's range [0, 100]. */
  predicate InSliderRange(goals: seq<Goal>) {
    forall g :: g in goals ==> 0 <= g.progress <= 100
  }

  lemma {:induction false} ProgressSumBounds(goals: seq<Goal>)
    requires InSliderRange(goals)
    ensures 0 <= ProgressSum(goals) <= 100 * |goals|
  {
    if goals != [] {
      var init := goals[..|goals| - 1];
      assert forall g :: g in init ==> g in goals;
      assert goals[|goals| - 1] in goals;
      ProgressSumBounds(init);
    }
  }

  /** With every progress in [0, 100], the average is in [0, 100] too. */
  lemma AverageProgressInRange(goals: seq<Goal>)
    requires InSliderRange(goals)
    ensures 0 <= AverageProgress(goals) <= 100
  {
    if goals != [] {
      ProgressSumBounds(goals);
      var n, s, r := |goals|, ProgressSum(goals), AverageProgress(goals);
      if r < 0 {
        ScaleMonotone(2 * n, r, -1);
      } else if r > 100 {
        ScaleMonotone(2 * n, 101, r);
      }
    }
  }
}
