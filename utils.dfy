/** The distance model of the builder (`Utils` in core.py): the Euclidean
    distance between two agents, the threshold probability function with its
    exponential smoothing, and the depth of a tree. `math.hypot` and
    `math.exp` are not interpreted: they are passed in as `hypot` and `exp`. */
module Utils {
  import opened Matrices
  import opened Arborescence

  /** The position of an agent in the plane. */
  datatype Point = Point(x: real, y: real)

  /** The laws of `math.hypot` that make dist2 a distance: it is never
      negative, and negating both legs does not change it. */
  ghost predicate HypotLaws(hypot: (real, real) -> real) {
    && (forall a, b :: 0.0 <= hypot(a, b))
    && (forall a, b, c, d {:trigger hypot(a, b), hypot(c, d)} :: c == -a && d == -b ==> hypot(a, b) == hypot(c, d))
  }

  /** Utils.dist2: the hypotenuse of the coordinate differences. Under the
      hypot laws it is a non-negative distance that does not depend on the
      order of the two agents. */
  function Dist2(hypot: (real, real) -> real, p1: Point, p2: Point): (d: real)
    ensures HypotLaws(hypot) ==> 0.0 <= d && d == hypot(p2.x - p1.x, p2.y - p1.y)
  {
    hypot(p1.x - p2.x, p1.y - p2.y)
  }

  /** The laws of the exponential function that the range and monotonicity
      lemmas below rely on. */
  ghost predicate ExpLaws(exp: real -> real) {
    && (forall a :: 0.0 < exp(a))
    && (forall a, b :: a < b ==> exp(a) < exp(b))
    && (forall a, b, c {:trigger exp(a), exp(b), exp(c)} :: a + b == c ==> exp(a) * exp(b) == exp(c))
  }

  lemma ExpAdd(exp: real -> real, a: real, b: real, c: real)
    requires ExpLaws(exp) && a + b == c
    ensures exp(a) * exp(b) == exp(c)
  {
  }

  lemma ExpZero(exp: real -> real)
    requires ExpLaws(exp)
    ensures exp(0.0) == 1.0
  {
    var e := exp(0.0);
    assert e * e == e;
  }

  /** Utils.base_func: a product of two exponentials, so positive for an
      exponential function. */
  function BaseFunc(exp: real -> real, r: real, rmin: real, rmax: real): (v: real)
    requires rmin != rmax && (r - rmin) * (r - rmax) != 0.0
    ensures ExpLaws(exp) ==> 0.0 < v
  {
    exp(4.0 / (rmax - rmin)) * exp((rmax - rmin) / ((r - rmin) * (r - rmax)))
  }

  /** The point at which get_prob evaluates base_func for a distance `r`:
      the midpoint of `r` and the upper threshold, so a distance below that
      threshold is carried strictly closer to it. */
  function SmoothingPoint(r: real, rmin: real, rmax: real): (x: real)
    ensures x == (r + rmax) / 2.0
    ensures r < rmax ==> r < x < rmax
  {
    0.5 * (r + (rmin + rmax) - rmin)
  }

  lemma MulPositive(a: real, b: real)
    requires 0.0 < a && 0.0 < b
    ensures 0.0 < a * b
  {
  }

  /** Strictly between the thresholds the divisor of base_func's second
      exponent is negative. */
  lemma DivisorNegative(x: real, rmin: real, rmax: real)
    requires rmin < x < rmax
    ensures (x - rmin) * (x - rmax) == -((x - rmin) * (rmax - x)) < 0.0
  {
    MulPositive(x - rmin, rmax - x);
  }

  /** For a distance strictly between the thresholds, base_func is evaluated
      strictly between them too, where none of its divisors is zero. */
  lemma SmoothingPointInside(r: real, rmin: real, rmax: real)
    requires rmin < r < rmax
    ensures rmin < SmoothingPoint(r, rmin, rmax) < rmax
    ensures (SmoothingPoint(r, rmin, rmax) - rmin) * (SmoothingPoint(r, rmin, rmax) - rmax) < 0.0
  {
    DivisorNegative(SmoothingPoint(r, rmin, rmax), rmin, rmax);
  }

  /** Utils.get_prob: probability 1 up to the lower threshold, 0 from the upper
      threshold on, the smoothing function between; the lower threshold is
      checked first. */
  function GetProb(exp: real -> real, r: real, rmin: real, rmax: real): (p: real)
    ensures r <= rmin ==> p == 1.0
    ensures rmin < r && rmax <= r ==> p == 0.0
  {
    if r <= rmin then 1.0
    else if r >= rmax then 0.0
    else (
      SmoothingPointInside(r, rmin, rmax);
      BaseFunc(exp, SmoothingPoint(r, rmin, rmax), rmin, rmax))
  }

  /** The sum of the two exponents of base_func at `x`. */
  function Exponent(x: real, rmin: real, rmax: real): real
    requires rmin < x < rmax
  {
    DivisorNegative(x, rmin, rmax);
    4.0 / (rmax - rmin) + (rmax - rmin) / ((x - rmin) * (x - rmax))
  }

  /** At the midpoint of the thresholds the two exponents cancel. */
  lemma ExponentAtMidpoint(rmin: real, rmax: real)
    requires rmin < rmax
    ensures rmin < 0.5 * (rmin + rmax) < rmax
    ensures Exponent(0.5 * (rmin + rmax), rmin, rmax) == 0.0
  {
    var d := rmax - rmin;
    var x := 0.5 * (rmin + rmax);
    assert x - rmin == 0.5 * d && x - rmax == -0.5 * d;
    assert (x - rmin) * (x - rmax) == -0.25 * (d * d);
    assert d / (-0.25 * (d * d)) == -4.0 / d;
  }

  /** Between the midpoint of the thresholds and the upper threshold, the
      product of the distances to the two thresholds shrinks. */
  lemma DistanceProductShrinks(x1: real, x2: real, lo: real, hi: real)
    requires 0.5 * (lo + hi) <= x1 < x2 < hi
    ensures 0.0 < (x2 - lo) * (hi - x2) < (x1 - lo) * (hi - x1)
  {
    var a, b, g := x1 - lo, hi - x1, x2 - x1;
    assert x2 - lo == a + g && hi - x2 == b - g && a - b + g == x1 + x2 - lo - hi;
    ShiftedProduct(a, b, g);
    MulPositive(a + g, b - g);
    MulPositiveGap(x1, x2, lo, hi);
    LessByPositiveGap(a * b, (a + g) * (b - g), g * (a - b + g));
  }

  /** Moving the split point of a product by `g` changes it by
      `g * (a - b + g)`. */
  lemma ShiftedProduct(a: real, b: real, g: real)
    ensures (a + g) * (b - g) == a * b - g * (a - b + g)
  {
    calc {
      (a + g) * (b - g);
      a * (b - g) + g * (b - g);
      (a * b - a * g) + (g * b - g * g);
      a * b - g * (a - b + g);
    }
  }

  lemma MulPositiveGap(x1: real, x2: real, lo: real, hi: real)
    requires 0.0 < x2 - x1 && 0.0 < x1 + x2 - lo - hi
    ensures 0.0 < (x2 - x1) * (x1 + x2 - lo - hi)
  {
    MulPositive(x2 - x1, x1 + x2 - lo - hi);
  }

  lemma LessByPositiveGap(a: real, b: real, gap: real)
    requires a - b == gap && 0.0 < gap
    ensures b < a
  {
  }

  lemma QuotientAntitone(d: real, p1: real, p2: real)
    requires 0.0 < d && 0.0 < p2 < p1
    ensures d / p1 < d / p2
  {
    assert d / p1 * p1 == d && d / p2 * p2 == d;
    MulPositive(d / p2, p1 - p2);
  }

  /** From the midpoint of the thresholds on, the exponent strictly decreases. */
  lemma ExponentDecreasing(x1: real, x2: real, rmin: real, rmax: real)
    requires 0.5 * (rmin + rmax) <= x1 < x2 < rmax
    ensures Exponent(x1, rmin, rmax) > Exponent(x2, rmin, rmax)
  {
    DistanceProductShrinks(x1, x2, rmin, rmax);
    DivisorNegative(x1, rmin, rmax);
    DivisorNegative(x2, rmin, rmax);
    QuotientAntitone(rmax - rmin, (x1 - rmin) * (rmax - x1), (x2 - rmin) * (rmax - x2));
  }

  /** The smoothing branch, carried to the lower threshold itself, meets the
      value 1 that get_prob gives there: the re-centring of the distance makes
      the probability continuous at the lower threshold. */
  lemma SmoothingMeetsLowerThreshold(exp: real -> real, rmin: real, rmax: real)
    requires ExpLaws(exp) && rmin < rmax
    ensures SmoothingPoint(rmin, rmin, rmax) == 0.5 * (rmin + rmax)
    ensures (SmoothingPoint(rmin, rmin, rmax) - rmin) * (SmoothingPoint(rmin, rmin, rmax) - rmax) < 0.0
    ensures BaseFunc(exp, SmoothingPoint(rmin, rmin, rmax), rmin, rmax) == 1.0
  {
    var x := SmoothingPoint(rmin, rmin, rmax);
    LowerThresholdAtMidpoint(rmin, rmax);
    BaseFuncIsExp(exp, x, rmin, rmax);
    ExpZero(exp);
  }

  /** The lower threshold is carried to the midpoint of the thresholds,
      where the exponent of base_func is zero. */
  lemma LowerThresholdAtMidpoint(rmin: real, rmax: real)
    requires rmin < rmax
    ensures SmoothingPoint(rmin, rmin, rmax) == 0.5 * (rmin + rmax)
    ensures rmin < SmoothingPoint(rmin, rmin, rmax) < rmax
    ensures (SmoothingPoint(rmin, rmin, rmax) - rmin) * (SmoothingPoint(rmin, rmin, rmax) - rmax) < 0.0
    ensures Exponent(SmoothingPoint(rmin, rmin, rmax), rmin, rmax) == 0.0
  {
    var x := SmoothingPoint(rmin, rmin, rmax);
    ExponentAtMidpoint(rmin, rmax);
    assert x == 0.5 * (rmin + rmax);
    DivisorNegative(x, rmin, rmax);
  }

  /** Strictly between the thresholds, base_func is the exponential of the
      exponent. */
  lemma BaseFuncIsExp(exp: real -> real, x: real, rmin: real, rmax: real)
    requires ExpLaws(exp) && rmin < x < rmax
    ensures (x - rmin) * (x - rmax) != 0.0
    ensures BaseFunc(exp, x, rmin, rmax) == exp(Exponent(x, rmin, rmax))
  {
    var first := BaseFuncSplit(exp, x, rmin, rmax);
    var e := Exponent(x, rmin, rmax);
    ExpAdd(exp, first, e - first, e);
  }

  /** base_func is the product of the exponentials of its first exponent
      and of the rest of the exponent. */
  lemma BaseFuncSplit(exp: real -> real, x: real, rmin: real, rmax: real) returns (first: real)
    requires rmin < x < rmax
    ensures (x - rmin) * (x - rmax) != 0.0
    ensures BaseFunc(exp, x, rmin, rmax) == exp(first) * exp(Exponent(x, rmin, rmax) - first)
  {
    DivisorNegative(x, rmin, rmax);
    first := 4.0 / (rmax - rmin);
    var divisor := (x - rmin) * (x - rmax);
    assert Exponent(x, rmin, rmax) - first == (rmax - rmin) / divisor;
  }

  /** get_prob is a probability, and strictly between the thresholds it is
      neither 0 nor 1. */
  lemma GetProbRange(exp: real -> real, r: real, rmin: real, rmax: real)
    requires ExpLaws(exp)
    ensures 0.0 <= GetProb(exp, r, rmin, rmax) <= 1.0
    ensures rmin < r < rmax ==> 0.0 < GetProb(exp, r, rmin, rmax) < 1.0
  {
    if rmin < r < rmax {
      var x := SmoothingPoint(r, rmin, rmax);
      SmoothingPointInside(r, rmin, rmax);
      BaseFuncIsExp(exp, x, rmin, rmax);
      ExponentAtMidpoint(rmin, rmax);
      ExponentDecreasing(0.5 * (rmin + rmax), x, rmin, rmax);
      ExpZero(exp);
      assert exp(Exponent(x, rmin, rmax)) < exp(0.0);
    }
  }

  /** get_prob never increases with the distance, and strictly decreases
      between the thresholds. */
  lemma GetProbMonotone(exp: real -> real, r1: real, r2: real, rmin: real, rmax: real)
    requires ExpLaws(exp) && r1 <= r2
    ensures GetProb(exp, r1, rmin, rmax) >= GetProb(exp, r2, rmin, rmax)
    ensures rmin < r1 < r2 < rmax ==> GetProb(exp, r1, rmin, rmax) > GetProb(exp, r2, rmin, rmax)
  {
    GetProbRange(exp, r1, rmin, rmax);
    GetProbRange(exp, r2, rmin, rmax);
    if rmin < r1 < r2 < rmax {
      var x1, x2 := SmoothingPoint(r1, rmin, rmax), SmoothingPoint(r2, rmin, rmax);
      BaseFuncIsExp(exp, x1, rmin, rmax);
      BaseFuncIsExp(exp, x2, rmin, rmax);
      ExponentDecreasing(x1, x2, rmin, rmax);
      assert exp(Exponent(x2, rmin, rmax)) < exp(Exponent(x1, rmin, rmax));
    }
  }

  /** Utils.tree_depth: the number of edges of the path that the longest-path
      routine returns. */
  function TreeDepth(longestPath: Matrix -> seq<int>, t: Matrix): (d: int)
    ensures PathContract(longestPath) && 1 <= |t| && IsSquare(t, |t|) ==> 0 <= d < |longestPath(t)|
  {
    |longestPath(t)| - 1
  }
}
