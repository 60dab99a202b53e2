/**
 * Point distributions: the Halton sequence (the radical inverse of an index in a
 * base) and the 2-D Halton sample set built from bases 2 and 3.
 */
module Distributions {
  import opened Geometry

  /** The generator's ranges and point count; none of them change after construction. */
  datatype PointGenerator = PointGenerator(xRange: real, yRange: real, numPoints: int)

  /**
   * Sum of the base-b digits of n, least significant first, the k-th digit weighted
   * by w / b^k.
   */
  function DigitSum(n: nat, b: nat, w: real): real
    requires b >= 2
  {
    if n == 0 then 0.0 else w * (n % b) as real + DigitSum(n / b, b, w / b as real)
  }

  /**
   * The radical inverse of n in base b: its digits mirrored behind the radix point,
   * the k-th least significant digit at weight b^-(k+1).
   */
  function RadicalInverse(n: nat, b: nat): real
    requires b >= 2
  {
    DigitSum(n, b, 1.0 / b as real)
  }

  lemma DigitSumUnfold(n: nat, b: nat, w: real)
    requires b >= 2 && n > 0
    ensures DigitSum(n, b, w) == w * (n % b) as real + DigitSum(n / b, b, w / b as real)
  {
  }

  lemma QuotientShrinks(n: nat, b: nat)
    requires n > 0 && b >= 2
    ensures n / b < n
  {
  }

  /** The next weight is positive and b times it is the current weight. */
  lemma WeightShrink(b: nat, w: real, w': real)
    requires b >= 2 && w > 0.0 && w' == w / b as real
    ensures 0.0 < w' && w' * b as real == w
  {
  }

  /** A digit at weight w contributes at most (b - 1) * w. */
  lemma DigitStep(d: nat, b: nat, w: real, rest: real, w': real)
    requires d < b && w > 0.0
    requires w' * b as real == w
    requires 0.0 <= rest < w' * b as real
    ensures 0.0 <= w * d as real + rest < w * b as real
  {
    assert w * d as real <= w * (b - 1) as real;
    assert w * (b - 1) as real + w == w * b as real;
  }

  /**
   * The digit sum lies in [0, w * b) and is 0 exactly for index 0; in particular every
   * radical inverse lies in [0, 1).
   */
  lemma {:induction false} DigitSumBounds(n: nat, b: nat, w: real)
    requires b >= 2 && w > 0.0
    ensures 0.0 <= DigitSum(n, b, w) < w * b as real
    ensures DigitSum(n, b, w) == 0.0 <==> n == 0
    decreases n
  {
    if n > 0 {
      var q, d, w' := n / b, n % b, w / b as real;
      QuotientShrinks(n, b);
      WeightShrink(b, w, w');
      DigitSumBounds(q, b, w');
      DigitSumUnfold(n, b, w);
      var rest := DigitSum(q, b, w');
      DigitStep(d, b, w, rest, w');
      assert q == 0 ==> d > 0;
      if d > 0 {
        assert w * d as real > 0.0;
      }
    }
  }

  lemma RadicalInverseBounds(n: nat, b: nat)
    requires b >= 2
    ensures 0.0 <= RadicalInverse(n, b) < 1.0
    ensures RadicalInverse(n, b) == 0.0 <==> n == 0
  {
    var w := 1.0 / b as real;
    WeightShrink(b, 1.0, w);
    DigitSumBounds(n, b, w);
  }

  /** An index below the base is its single digit over the base. */
  lemma SingleDigit(n: nat, b: nat)
    requires b >= 2 && 0 < n < b
    ensures RadicalInverse(n, b) == n as real / b as real
  {
    var w := 1.0 / b as real;
    DigitSumUnfold(n, b, w);
    assert n / b == 0 && n % b == n;
  }

  /** Equal weighted sums whose remainders lie below the weight have equal digits. */
  lemma DigitsAgree(dm: nat, dn: nat, w: real, x: real, y: real)
    requires w > 0.0 && 0.0 <= x < w && 0.0 <= y < w
    requires w * dm as real + x == w * dn as real + y
    ensures dm == dn && x == y
  {
    DigitNotBelow(dm, dn, w, x, y);
    DigitNotBelow(dn, dm, w, y, x);
  }

  /** The side with the smaller remainder cannot have the smaller digit. */
  lemma DigitNotBelow(dm: nat, dn: nat, w: real, x: real, y: real)
    requires w > 0.0 && x < w && 0.0 <= y
    requires w * dm as real + x == w * dn as real + y
    ensures dn <= dm
  {
    var k := dn as real - dm as real;
    assert w * k == w * dn as real - w * dm as real;
    CancelWeight(w, k, x - y);
  }

  /** A multiple of a positive weight that stays below the weight is a multiple below one. */
  lemma CancelWeight(w: real, k: real, g: real)
    requires w > 0.0 && g < w && w * k == g
    ensures k < 1.0
  {
  }

  /**
   * Distinct indices have distinct digit sums: the digit sequence is recovered from
   * the value.
   */
  lemma {:induction false} DigitSumInjective(m: nat, n: nat, b: nat, w: real)
    requires b >= 2 && w > 0.0
    requires DigitSum(m, b, w) == DigitSum(n, b, w)
    ensures m == n
    decreases m + n
  {
    DigitSumBounds(m, b, w);
    DigitSumBounds(n, b, w);
    if m != 0 && n != 0 {
      var dm, qm, x, w' := LowestDigit(m, b, w);
      var dn, qn, y, _ := LowestDigit(n, b, w);
      DigitsAgree(dm, dn, w, x, y);
      DigitSumInjective(qm, qn, b, w');
    }
  }

  /**
   * Splits a positive index into its lowest digit and the quotient: the digit sum is
   * that digit at weight w plus the quotient's digit sum, which stays below w.
   */
  lemma LowestDigit(n: nat, b: nat, w: real) returns (d: nat, q: nat, rest: real, w': real)
    requires b >= 2 && w > 0.0 && n > 0
    ensures n == b * q + d && d < b && q < n
    ensures w' == w / b as real && w' > 0.0
    ensures rest == DigitSum(q, b, w') && 0.0 <= rest < w
    ensures DigitSum(n, b, w) == w * d as real + rest
  {
    q, d, w' := n / b, n % b, w / b as real;
    QuotientShrinks(n, b);
    DivisionIdentity(n, b);
    WeightShrink(b, w, w');
    DigitSumBounds(q, b, w');
    rest := DigitSum(q, b, w');
    RestBelow(rest, b, w, w');
    DigitSumUnfold(n, b, w);
  }

  lemma RestBelow(rest: real, b: nat, w: real, w': real)
    requires b >= 2 && w' * b as real == w && rest < w' * b as real
    ensures rest < w
  {
  }

  lemma DivisionIdentity(n: nat, b: nat)
    requires b >= 2
    ensures n == b * (n / b) + n % b && n % b < b
  {
  }

  /**
   * The radical inverse never repeats: distinct indices have distinct inverses, so the
   * Halton points are pairwise distinct along each axis of non-zero range.
   */
  lemma RadicalInverseInjective(m: nat, n: nat, b: nat)
    requires b >= 2
    requires RadicalInverse(m, b) == RadicalInverse(n, b)
    ensures m == n
  {
    DigitSumInjective(m, n, b, 1.0 / b as real);
  }

  /**
   * The Halton value of `index` in `base`, accumulated digit by digit; a non-positive
   * index gives 0.
   */
  method HaltonSequence(index: int, base: int) returns (result: real)
    requires base >= 2
    ensures result == RadicalInverse(if index > 0 then index else 0, base)
    ensures 0.0 <= result < 1.0
    ensures index <= 0 ==> result == 0.0
  {
    result := 0.0;
    var f := 1.0 / base as real;
    var idx := index;
    while idx > 0
      invariant Accumulate(result, idx, f, base) == Accumulate(0.0, index, 1.0 / base as real, base)
      decreases idx
    {
      QuotientShrinks(idx, base);
      result := result + f * (idx % base) as real;
      idx := idx / base;
      f := f / base as real;
    }
    HaltonLoopExit(result, idx, f, index, base);
  }

  /** When the loop stops, the result is the radical inverse of the positive part of the index. */
  lemma HaltonLoopExit(result: real, idx: int, f: real, index: int, base: int)
    requires base >= 2 && idx <= 0
    requires Accumulate(result, idx, f, base) == Accumulate(0.0, index, 1.0 / base as real, base)
    ensures result == RadicalInverse(if index > 0 then index else 0, base)
    ensures 0.0 <= result < 1.0
    ensures index <= 0 ==> result == 0.0
  {
    AccumulateSum(0.0, index, 1.0 / base as real, base);
    RadicalInverseBounds(if index > 0 then index else 0, base);
  }

  /**
   * What the digit loop returns when it resumes with the given result, index and
   * weight: the loop's own recursion, one digit per step.
   */
  function Accumulate(result: real, idx: int, f: real, base: int): real
    requires base >= 2
    decreases if idx > 0 then idx else 0
  {
    if idx <= 0 then result
    else Accumulate(result + f * (idx % base) as real, idx / base, f / base as real, base)
  }

  /** Resuming the loop adds the digit sum of the remaining index to the result. */
  lemma {:induction false} AccumulateSum(result: real, idx: int, f: real, base: int)
    requires base >= 2
    ensures Accumulate(result, idx, f, base) == result + DigitSum(if idx > 0 then idx else 0, base, f)
    decreases if idx > 0 then idx else 0
  {
    if idx > 0 {
      QuotientShrinks(idx, base);
      AccumulateSum(result + f * (idx % base) as real, idx / base, f / base as real, base);
      DigitSumUnfold(idx, base, f);
    }
  }

  /**
   * The first numPoints Halton points: index i + 1 in base 2 scaled by xRange and in
   * base 3 scaled by yRange.
   */
  function HaltonSamples(gen: PointGenerator): (points: seq<Point>)
    ensures |points| == if gen.numPoints > 0 then gen.numPoints else 0
    ensures forall i :: 0 <= i < |points| ==> points[i] == HaltonPoint(gen, i)
  {
    seq(if gen.numPoints > 0 then gen.numPoints else 0, i requires 0 <= i => HaltonPoint(gen, i))
  }

  /** Sample i: index i + 1 in base 2 scaled by xRange, in base 3 scaled by yRange. */
  function HaltonPoint(gen: PointGenerator, i: nat): Point
  {
    Point(Scale(RadicalInverse(i + 1, 2), gen.xRange), Scale(RadicalInverse(i + 1, 3), gen.yRange))
  }

  /** A unit-interval value stretched over a range: a value of [0, 1) lands in [0, range). */
  function Scale(u: real, range: real): (r: real)
    ensures 0.0 <= u < 1.0 && range >= 0.0 ==> 0.0 <= r <= range && (range > 0.0 ==> r < range)
  {
    ScaleBounds(u, range);
    u * range
  }

  lemma ScaleBounds(u: real, range: real)
    ensures 0.0 <= u < 1.0 && range >= 0.0 ==> 0.0 <= u * range <= range && (range > 0.0 ==> u * range < range)
  {
    if 0.0 <= u < 1.0 && range > 0.0 {
      assert (1.0 - u) * range > 0.0;
    }
  }

  /** Stretching over a non-zero range keeps distinct values distinct. */
  lemma ScaleInjective(u: real, v: real, range: real)
    requires range != 0.0 && Scale(u, range) == Scale(v, range)
    ensures u == v
  {
    assert (u - v) * range == 0.0;
  }

  /** With non-negative ranges sample i lies in [0, xRange] x [0, yRange], strictly below a positive range. */
  lemma HaltonPointInRange(gen: PointGenerator, i: nat)
    requires gen.xRange >= 0.0 && gen.yRange >= 0.0
    ensures var p := HaltonPoint(gen, i);
      && 0.0 <= p.x <= gen.xRange && (gen.xRange > 0.0 ==> p.x < gen.xRange)
      && 0.0 <= p.y <= gen.yRange && (gen.yRange > 0.0 ==> p.y < gen.yRange)
  {
    RadicalInverseBounds(i + 1, 2);
    RadicalInverseBounds(i + 1, 3);
  }

  /** Every sample of the set lies in the generator's ranges. */
  lemma HaltonSamplesInRange(gen: PointGenerator)
    requires gen.xRange >= 0.0 && gen.yRange >= 0.0
    ensures forall i :: 0 <= i < |HaltonSamples(gen)| ==>
      && 0.0 <= HaltonSamples(gen)[i].x <= gen.xRange
      && 0.0 <= HaltonSamples(gen)[i].y <= gen.yRange
  {
    forall i | 0 <= i < |HaltonSamples(gen)|
      ensures 0.0 <= HaltonSamples(gen)[i].x <= gen.xRange
      ensures 0.0 <= HaltonSamples(gen)[i].y <= gen.yRange
    {
      HaltonPointInRange(gen, i);
    }
  }

  /** The first sample is (xRange/2, yRange/3). */
  lemma HaltonFirstSample(gen: PointGenerator)
    requires gen.numPoints > 0
    ensures HaltonSamples(gen)[0] == Point(gen.xRange / 2.0, gen.yRange / 3.0)
  {
    SingleDigit(1, 2);
    SingleDigit(1, 3);
  }

  /** With a non-zero range the samples are pairwise distinct along that axis. */
  lemma HaltonSamplesDistinct(gen: PointGenerator)
    requires gen.xRange != 0.0
    ensures forall i, j :: 0 <= i < j < |HaltonSamples(gen)| ==> HaltonSamples(gen)[i].x != HaltonSamples(gen)[j].x
  {
    forall i, j | 0 <= i < j < |HaltonSamples(gen)|
      ensures HaltonSamples(gen)[i].x != HaltonSamples(gen)[j].x
    {
      if HaltonSamples(gen)[i].x == HaltonSamples(gen)[j].x {
        ScaleInjective(RadicalInverse(i + 1, 2), RadicalInverse(j + 1, 2), gen.xRange);
        RadicalInverseInjective(i + 1, j + 1, 2);
      }
    }
  }
}
