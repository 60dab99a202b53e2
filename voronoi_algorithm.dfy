/**
 * The Voronoi engine of `VoronoiGenerator`: one Sutherland–Hodgman pass against a
 * half-plane, the cell of one site as the bounding region clipped by the
 * perpendicular bisector of every other site, the choice of bounding region, and
 * the vertex clean-up applied before the cells are handed on.
 */
module VoronoiAlgorithm {
  import opened Results
  import opened Geometry

  // ---------------------------------------------------------------------------
  // Configuration

  /** The settings a `VoronoiGenerator` stores; the shape name is kept lower-cased. */
  datatype VoronoiGenerator = VoronoiGenerator(
    points: seq<Point>,
    padding: real,
    boundingShape: string,
    customShape: Option<seq<Point>>)

  /** ASCII lower-casing of one character. */
  function LowerChar(c: char): char
  {
    if 'A' <= c <= 'Z' then (c as int + 32) as char else c
  }

  function Lower(s: string): string
  {
    seq(|s|, i requires 0 <= i < |s| => LowerChar(s[i]))
  }

  /** Lower-casing keeps the length, leaves no upper-case letter, and is idempotent. */
  lemma LowerNormalizes(s: string)
    ensures |Lower(s)| == |s|
    ensures forall i :: 0 <= i < |s| ==> !('A' <= Lower(s)[i] <= 'Z')
    ensures Lower(Lower(s)) == Lower(s)
  {
  }

  /** The constructor: stores its arguments, normalising the shape name to lower case. */
  function NewVoronoiGenerator(
    points: seq<Point>,
    padding: real := 50.0,
    boundingShape: string := "rectangle",
    customShape: Option<seq<Point>> := None): (g: VoronoiGenerator)
    ensures g.points == points && g.padding == padding && g.customShape == customShape
    ensures |g.boundingShape| == |boundingShape|
    ensures forall i :: 0 <= i < |boundingShape| ==>
      g.boundingShape[i] == (if 'A' <= boundingShape[i] <= 'Z' then (boundingShape[i] as int + 32) as char else boundingShape[i])
  {
    VoronoiGenerator(points, padding, Lower(boundingShape), customShape)
  }

  // ---------------------------------------------------------------------------
  // compute_intersection

  /** `r` lies on the closed segment from `a` to `b`. */
  ghost predicate OnSegment(r: Point, a: Point, b: Point)
  {
    exists t :: 0.0 <= t <= 1.0 && r == Lerp(a, b, t)
  }

  /** `f1 / (f1 - f2)` lies in [0, 1] when exactly one of `f1`, `f2` is negative. */
  lemma CrossingParameter(f1: real, f2: real)
    requires (f1 >= 0.0) != (f2 >= 0.0)
    ensures f1 != f2 && 0.0 <= f1 / (f1 - f2) <= 1.0
  {
    if f1 >= 0.0 {
      assert f1 - f2 > 0.0 && f1 <= f1 - f2;
    } else {
      assert f1 / (f1 - f2) == (-f1) / (f2 - f1);
      assert f2 - f1 > 0.0 && -f1 <= f2 - f1;
    }
  }

  /**
   * The point where the segment `p1 p2` meets the line `f = 0`, by linear
   * interpolation; when `f` is equal at both ends the source returns `p2`.
   */
  function ComputeIntersection(p1: Point, p2: Point, h: HalfPlane): (r: Point)
    ensures Eval(h, p1) == Eval(h, p2) ==> r == p2
    ensures Eval(h, p1) != Eval(h, p2) ==> Eval(h, r) == 0.0
    ensures (Eval(h, p1) >= 0.0) != (Eval(h, p2) >= 0.0) ==> OnSegment(r, p1, p2)
  {
    var f1, f2 := Eval(h, p1), Eval(h, p2);
    if f1 == f2 then p2
    else
      var t := f1 / (f1 - f2);
      EvalLerp(h, p1, p2, t);
      assert t * (f1 - f2) == f1;
      if (f1 >= 0.0) != (f2 >= 0.0) then CrossingParameter(f1, f2); Lerp(p1, p2, t)
      else Lerp(p1, p2, t)
  }

  // ---------------------------------------------------------------------------
  // clip_polygon

  /** What the edge from `curr` to `next` contributes to the clipped polygon. */
  function EdgeOutput(curr: Point, next: Point, h: HalfPlane): seq<Point>
  {
    var insideCurr, insideNext := Eval(h, curr) >= 0.0, Eval(h, next) >= 0.0;
    if insideCurr && insideNext then [next]
    else if insideCurr && !insideNext then [ComputeIntersection(curr, next, h)]
    else if !insideCurr && insideNext then [ComputeIntersection(curr, next, h), next]
    else []
  }

  /** The output after the first `k` edges of the (implicitly closed) polygon. */
  function ClipPrefix(polygon: seq<Point>, h: HalfPlane, k: nat): seq<Point>
    requires k <= |polygon|
  {
    if k == 0 then []
    else ClipPrefix(polygon, h, k - 1) + EdgeOutput(polygon[k - 1], polygon[k % |polygon|], h)
  }

  /** One Sutherland–Hodgman pass of `polygon` against the half-plane `f >= 0`. */
  function Clip(polygon: seq<Point>, h: HalfPlane): seq<Point>
  {
    ClipPrefix(polygon, h, |polygon|)
  }

  method ClipPolygon(polygon: seq<Point>, h: HalfPlane) returns (clipped: seq<Point>)
    ensures clipped == Clip(polygon, h)
  {
    if |polygon| == 0 {
      return [];
    }
    clipped := [];
    var n := |polygon|;
    for i := 0 to n
      invariant clipped == ClipPrefix(polygon, h, i)
    {
      var curr, nextPt := polygon[i], polygon[(i + 1) % n];
      var insideCurr, insideNext := Eval(h, curr) >= 0.0, Eval(h, nextPt) >= 0.0;
      if insideCurr && insideNext {
        clipped := clipped + [nextPt];
      } else if insideCurr && !insideNext {
        clipped := clipped + [ComputeIntersection(curr, nextPt, h)];
      } else if !insideCurr && insideNext {
        var inter := ComputeIntersection(curr, nextPt, h);
        clipped := clipped + [inter];
        clipped := clipped + [nextPt];
      }
    }
  }

  lemma {:induction false} ClipPrefixLength(polygon: seq<Point>, h: HalfPlane, k: nat)
    requires k <= |polygon|
    ensures |ClipPrefix(polygon, h, k)| <= 2 * k
  {
    if k > 0 {
      ClipPrefixLength(polygon, h, k - 1);
    }
  }

  /** Every edge contributes at most two points. */
  lemma ClipLengthBound(polygon: seq<Point>, h: HalfPlane)
    ensures |Clip(polygon, h)| <= 2 * |polygon|
  {
    ClipPrefixLength(polygon, h, |polygon|);
  }

  lemma {:induction false} ClipPrefixAllOutside(polygon: seq<Point>, h: HalfPlane, k: nat)
    requires k <= |polygon|
    requires forall i :: 0 <= i < |polygon| ==> Eval(h, polygon[i]) < 0.0
    ensures ClipPrefix(polygon, h, k) == []
  {
    if k > 0 {
      ClipPrefixAllOutside(polygon, h, k - 1);
      var next := k % |polygon|;
      EdgeOutputBothOutside(polygon[k - 1], polygon[next], h);
    }
  }

  lemma EdgeOutputBothOutside(curr: Point, next: Point, h: HalfPlane)
    requires Eval(h, curr) < 0.0 && Eval(h, next) < 0.0
    ensures EdgeOutput(curr, next, h) == []
  {
  }

  /** A polygon with no vertex on the kept side (the empty one included) clips to nothing. */
  lemma ClipAllOutside(polygon: seq<Point>, h: HalfPlane)
    requires forall i :: 0 <= i < |polygon| ==> Eval(h, polygon[i]) < 0.0
    ensures Clip(polygon, h) == []
  {
    ClipPrefixAllOutside(polygon, h, |polygon|);
  }

  lemma ModBelow(k: nat, n: nat)
    requires k < n
    ensures k % n == k
  {
  }

  lemma EdgeOutputBothInside(curr: Point, next: Point, h: HalfPlane)
    requires Eval(h, curr) >= 0.0 && Eval(h, next) >= 0.0
    ensures EdgeOutput(curr, next, h) == [next]
  {
  }

  lemma {:induction false} ClipPrefixAllInside(polygon: seq<Point>, h: HalfPlane, k: nat)
    requires k < |polygon|
    requires forall i :: 0 <= i < |polygon| ==> Eval(h, polygon[i]) >= 0.0
    ensures ClipPrefix(polygon, h, k) == polygon[1..k + 1]
  {
    if k > 0 {
      ClipPrefixAllInside(polygon, h, k - 1);
      var n := |polygon|;
      ModBelow(k, n);
      EdgeOutputBothInside(polygon[k - 1], polygon[k], h);
      assert polygon[1..k + 1] == polygon[1..k] + [polygon[k]];
    }
  }

  /** A polygon wholly on the kept side comes back rotated by one vertex. */
  lemma ClipAllInside(polygon: seq<Point>, h: HalfPlane)
    requires |polygon| > 0
    requires forall i :: 0 <= i < |polygon| ==> Eval(h, polygon[i]) >= 0.0
    ensures Clip(polygon, h) == polygon[1..] + [polygon[0]]
  {
    ClipPrefixAllInside(polygon, h, |polygon| - 1);
  }

  lemma {:induction false} ClipPrefixKeptSide(polygon: seq<Point>, h: HalfPlane, k: nat)
    requires k <= |polygon|
    ensures forall v :: v in ClipPrefix(polygon, h, k) ==> Eval(h, v) >= 0.0
  {
    if k > 0 {
      ClipPrefixKeptSide(polygon, h, k - 1);
    }
  }

  /** Every vertex of the clipped polygon is on the kept side. */
  lemma ClipKeptSide(polygon: seq<Point>, h: HalfPlane)
    ensures forall v :: v in Clip(polygon, h) ==> Eval(h, v) >= 0.0
  {
    ClipPrefixKeptSide(polygon, h, |polygon|);
  }

  lemma EdgeOutputPreserves(curr: Point, next: Point, h: HalfPlane, g: HalfPlane)
    requires Eval(g, curr) >= 0.0 && Eval(g, next) >= 0.0
    ensures forall v :: v in EdgeOutput(curr, next, h) ==> Eval(g, v) >= 0.0
  {
    if (Eval(h, curr) >= 0.0) != (Eval(h, next) >= 0.0) {
      var r := ComputeIntersection(curr, next, h);
      assert OnSegment(r, curr, next);
      var t :| 0.0 <= t <= 1.0 && r == Lerp(curr, next, t);
      EvalBetween(g, curr, next, t);
    }
  }

  lemma {:induction false} ClipPrefixPreserves(polygon: seq<Point>, h: HalfPlane, g: HalfPlane, k: nat)
    requires k <= |polygon|
    requires forall v :: v in polygon ==> Eval(g, v) >= 0.0
    ensures forall v :: v in ClipPrefix(polygon, h, k) ==> Eval(g, v) >= 0.0
  {
    if k > 0 {
      ClipPrefixPreserves(polygon, h, g, k - 1);
      EdgeOutputPreserves(polygon[k - 1], polygon[k % |polygon|], h, g);
    }
  }

  /**
   * Clipping keeps every half-plane the polygon already lies in: new vertices are
   * taken between two old ones.
   */
  lemma ClipPreservesHalfPlane(polygon: seq<Point>, h: HalfPlane, g: HalfPlane)
    requires forall v :: v in polygon ==> Eval(g, v) >= 0.0
    ensures forall v :: v in Clip(polygon, h) ==> Eval(g, v) >= 0.0
  {
    ClipPrefixPreserves(polygon, h, g, |polygon|);
  }

  // ---------------------------------------------------------------------------
  // compute_voronoi_cell

  /** The half-plane on `p`'s side of the perpendicular bisector of `p` and `q`. */
  function Bisector(p: Point, q: Point): HalfPlane
  {
    HalfPlane(Point((p.x + q.x) / 2.0, (p.y + q.y) / 2.0), Point(p.x - q.x, p.y - q.y))
  }

  /** The bisector test is half the difference of squared distances to `q` and `p`. */
  lemma BisectorSides(p: Point, q: Point, v: Point)
    ensures Eval(Bisector(p, q), v) == (DistSq(v, q) - DistSq(v, p)) / 2.0
  {
    var dx, dy := p.x - q.x, p.y - q.y;
    assert (v.x - (p.x + q.x) / 2.0) * dx == ((v.x - q.x) * (v.x - q.x) - (v.x - p.x) * (v.x - p.x)) / 2.0;
    assert (v.y - (p.y + q.y) / 2.0) * dy == ((v.y - q.y) * (v.y - q.y) - (v.y - p.y) * (v.y - p.y)) / 2.0;
  }

  lemma SameSignProduct(u: real, v: real)
    requires (u > 0.0 && v > 0.0) || (u < 0.0 && v < 0.0)
    ensures u * v > 0.0
  {
  }

  lemma ZeroFactorProduct(u: real, v: real)
    requires v == 0.0
    ensures u * v == 0.0
  {
  }

  /** A site lies strictly on the kept side of its bisector with any other site. */
  lemma BisectorKeepsSite(p: Point, q: Point)
    requires p != q
    ensures Eval(Bisector(p, q), p) == DistSq(p, q) / 2.0
    ensures Eval(Bisector(p, q), p) > 0.0
  {
    BisectorSides(p, q, p);
    assert DistSq(p, p) == 0.0;
    var h := Bisector(p, q);
    var ux, uy := p.x - h.mid.x, p.y - h.mid.y;
    var ex, ey := ux * h.normal.x, uy * h.normal.y;
    if p.x != q.x { SameSignProduct(ux, h.normal.x); } else { ZeroFactorProduct(ux, h.normal.x); }
    if p.y != q.y { SameSignProduct(uy, h.normal.y); } else { ZeroFactorProduct(uy, h.normal.y); }
    assert ex >= 0.0 && ey >= 0.0 && (ex > 0.0 || ey > 0.0);
    assert Eval(h, p) == ex + ey;
  }

  /** The cell of `p` after the first `k` sites have been processed. */
  function CellPrefix(points: seq<Point>, p: Point, region: seq<Point>, k: nat): seq<Point>
    requires k <= |points|
  {
    if k == 0 then region
    else
      var cell := CellPrefix(points, p, region, k - 1);
      if points[k - 1] == p then cell else Clip(cell, Bisector(p, points[k - 1]))
  }

  function VoronoiCell(points: seq<Point>, p: Point, region: seq<Point>): seq<Point>
  {
    CellPrefix(points, p, region, |points|)
  }

  method ComputeVoronoiCell(points: seq<Point>, p: Point, boundingRegion: seq<Point>) returns (cell: seq<Point>)
    ensures cell == VoronoiCell(points, p, boundingRegion)
  {
    cell := boundingRegion;
    for k := 0 to |points|
      invariant cell == CellPrefix(points, p, boundingRegion, k)
    {
      var q := points[k];
      if p == q {
        continue;
      }
      cell := ClipPolygon(cell, Bisector(p, q));
    }
  }

  lemma {:induction false} CellPrefixStaysEmpty(points: seq<Point>, p: Point, region: seq<Point>, k: nat, m: nat)
    requires k <= m <= |points|
    requires CellPrefix(points, p, region, k) == []
    ensures CellPrefix(points, p, region, m) == []
  {
    if m > k {
      CellPrefixStaysEmpty(points, p, region, k, m - 1);
      ClipEmpty(Bisector(p, points[m - 1]));
    }
  }

  lemma ClipEmpty(h: HalfPlane)
    ensures Clip([], h) == []
  {
  }

  /** Once the cell has been clipped away it stays empty for the remaining sites. */
  lemma CellEmptyStaysEmpty(points: seq<Point>, p: Point, region: seq<Point>, k: nat)
    requires k <= |points|
    requires CellPrefix(points, p, region, k) == []
    ensures VoronoiCell(points, p, region) == []
  {
    CellPrefixStaysEmpty(points, p, region, k, |points|);
  }

  lemma {:induction false} CellPrefixWithinBisectors(points: seq<Point>, p: Point, region: seq<Point>, k: nat)
    requires k <= |points|
    ensures forall v, j :: v in CellPrefix(points, p, region, k) && 0 <= j < k && points[j] != p ==>
      Eval(Bisector(p, points[j]), v) >= 0.0
  {
    if k > 0 {
      CellPrefixWithinBisectors(points, p, region, k - 1);
      var cell := CellPrefix(points, p, region, k - 1);
      var q := points[k - 1];
      if q != p {
        ClipKeptSide(cell, Bisector(p, q));
        forall j | 0 <= j < k - 1 && points[j] != p
          ensures forall v :: v in Clip(cell, Bisector(p, q)) ==> Eval(Bisector(p, points[j]), v) >= 0.0
        {
          ClipPreservesHalfPlane(cell, Bisector(p, q), Bisector(p, points[j]));
        }
      }
    }
  }

  /**
   * Every vertex of the cell of `p` is at least as close to `p` as to any other
   * site: it lies on `p`'s side of every bisector.
   */
  lemma CellCloserToSite(points: seq<Point>, p: Point, region: seq<Point>)
    ensures forall v, q :: v in VoronoiCell(points, p, region) && q in points ==>
      Eval(Bisector(p, q), v) >= 0.0 && DistSq(v, p) <= DistSq(v, q)
  {
    CellPrefixWithinBisectors(points, p, region, |points|);
    forall v, q | v in VoronoiCell(points, p, region) && q in points
      ensures Eval(Bisector(p, q), v) >= 0.0 && DistSq(v, p) <= DistSq(v, q)
    {
      var j :| 0 <= j < |points| && points[j] == q;
      BisectorSides(p, q, v);
      if q == p {
        assert Eval(Bisector(p, q), v) == 0.0;
      }
    }
  }

  // ---------------------------------------------------------------------------
  // remove_duplicate_vertices

  predicate NoDuplicates<T(==)>(s: seq<T>)
  {
    forall i, j :: 0 <= i < j < |s| ==> s[i] != s[j]
  }

  /** The distinct elements of `s`, each kept at its first occurrence. */
  function Dedup(s: seq<Point>): (r: seq<Point>)
    ensures NoDuplicates(r)
    ensures |r| <= |s|
    ensures forall x :: x in r <==> x in s
  {
    if |s| == 0 then []
    else
      var d := Dedup(s[..|s| - 1]);
      assert forall x :: x in s <==> x in s[..|s| - 1] || x == s[|s| - 1] by {
        assert s == s[..|s| - 1] + [s[|s| - 1]];
      }
      if s[|s| - 1] in d then d else d + [s[|s| - 1]]
  }

  /** The position of the first occurrence of `x` in `s`. */
  function FirstIndex(s: seq<Point>, x: Point): (i: nat)
    requires x in s
    ensures i < |s| && s[i] == x && x !in s[..i]
  {
    if s[0] == x then 0
    else
      var i := 1 + FirstIndex(s[1..], x);
      assert s[..i] == [s[0]] + s[1..][..i - 1];
      i
  }

  /** Any position that holds `x` and has no earlier `x` is the first index. */
  lemma FirstIndexUnique(s: seq<Point>, x: Point, i: nat)
    requires i < |s| && s[i] == x && x !in s[..i]
    ensures FirstIndex(s, x) == i
  {
  }

  /** The output of `Dedup` follows the order of first occurrences in the input. */
  lemma {:induction false} DedupFirstOccurrence(s: seq<Point>)
    ensures forall i, j :: 0 <= i < j < |Dedup(s)| ==>
      FirstIndex(s, Dedup(s)[i]) < FirstIndex(s, Dedup(s)[j])
  {
    if |s| > 0 {
      var pre, x := s[..|s| - 1], s[|s| - 1];
      DedupFirstOccurrence(pre);
      assert s == pre + [x];
      forall i, j | 0 <= i < j < |Dedup(pre + [x])|
        ensures FirstIndex(pre + [x], Dedup(pre + [x])[i]) < FirstIndex(pre + [x], Dedup(pre + [x])[j])
      {
        DedupOrderStep(pre, x, i, j);
      }
    }
  }

  /** The elements of `Dedup(s)` appear in the order of their first occurrence in `s`. */
  ghost predicate FirstOccurrenceOrder(s: seq<Point>)
  {
    forall i, j :: 0 <= i < j < |Dedup(s)| ==> FirstIndex(s, Dedup(s)[i]) < FirstIndex(s, Dedup(s)[j])
  }

  /** One pair of the ordering after appending x, given the ordering before. */
  lemma DedupOrderStep(pre: seq<Point>, x: Point, i: int, j: int)
    requires FirstOccurrenceOrder(pre)
    requires 0 <= i < j < |Dedup(pre + [x])|
    ensures FirstIndex(pre + [x], Dedup(pre + [x])[i]) < FirstIndex(pre + [x], Dedup(pre + [x])[j])
  {
    var d := Dedup(pre);
    DedupSnoc(pre, x);
    var r := Dedup(pre + [x]);
    assert r[i] == d[i] && d[i] in pre;
    FirstIndexInPrefix(pre, x, r[i]);
    if j < |d| {
      assert r[j] == d[j] && d[j] in pre;
      FirstIndexInPrefix(pre, x, r[j]);
    } else {
      assert r[j] == x && x !in pre;
      assert (pre + [x])[..|pre|] == pre;
      FirstIndexUnique(pre + [x], x, |pre|);
    }
  }

  /** Appending an element leaves the first index of an earlier element unchanged. */
  lemma FirstIndexInPrefix(pre: seq<Point>, x: Point, y: Point)
    requires y in pre
    ensures FirstIndex(pre + [x], y) == FirstIndex(pre, y)
  {
    var k := FirstIndex(pre, y);
    assert (pre + [x])[..k] == pre[..k];
    FirstIndexUnique(pre + [x], y, k);
  }

  /** `Dedup` leaves a sequence without duplicates unchanged. */
  lemma {:induction false} DedupOfDistinct(s: seq<Point>)
    requires NoDuplicates(s)
    ensures Dedup(s) == s
  {
    if |s| > 0 {
      var pre := s[..|s| - 1];
      DedupOfDistinct(pre);
      assert s[|s| - 1] !in pre;
      assert pre + [s[|s| - 1]] == s;
    }
  }

  /** Round half to even: the nearest integer, the even one on a tie. */
  function RoundHalfEven(x: real): (k: int)
    ensures -0.5 <= x - k as real <= 0.5
    ensures (x - k as real == 0.5 || x - k as real == -0.5) ==> k % 2 == 0
  {
    var fl := x.Floor;
    var frac := x - fl as real;
    if frac < 0.5 then fl
    else if frac > 0.5 then fl + 1
    else if fl % 2 == 0 then fl
    else fl + 1
  }

  /** Python's `round(v, 2)` on the exact value: the nearest hundredth, ties to even. */
  function Round2(v: real): (r: real)
    ensures -0.005 <= v - r <= 0.005
    ensures (r * 100.0).Floor as real == r * 100.0
  {
    var k := RoundHalfEven(v * 100.0);
    Hundredths(v, k);
    k as real / 100.0
  }

  /** k hundredths is a whole number of hundredths, within 0.005 of v when k is within 1/2 of 100·v. */
  lemma Hundredths(v: real, k: int)
    requires -0.5 <= v * 100.0 - k as real <= 0.5
    ensures -0.005 <= v - k as real / 100.0 <= 0.005
    ensures ((k as real / 100.0) * 100.0).Floor == k
  {
    var r := k as real / 100.0;
    assert r * 100.0 == k as real;
  }

  /** Rounding an already rounded value changes nothing. */
  lemma Round2Idempotent(v: real)
    ensures Round2(Round2(v)) == Round2(v)
  {
    var r := Round2(v);
    var k := (r * 100.0).Floor;
    assert r * 100.0 == k as real;
    var k' := RoundHalfEven(r * 100.0);
    assert k' == k;
  }

  function RoundPoint(v: Point): Point
  {
    Point(Round2(v.x), Round2(v.y))
  }

  function RoundAll(cell: seq<Point>): (r: seq<Point>)
  {
    seq(|cell|, i requires 0 <= i < |cell| => RoundPoint(cell[i]))
  }

  /** The vertices of `cell` rounded to two decimals, duplicates dropped. */
  function Cleaned(cell: seq<Point>): seq<Point>
  {
    Dedup(RoundAll(cell))
  }

  method RemoveDuplicateVertices(cell: seq<Point>) returns (cleanedCell: seq<Point>)
    ensures cleanedCell == Cleaned(cell)
  {
    cleanedCell := [];
    for i := 0 to |cell|
      invariant cleanedCell == Dedup(RoundAll(cell[..i]))
    {
      var roundedV := Point(Round2(cell[i].x), Round2(cell[i].y));
      CleanStep(cell, i, cleanedCell);
      if roundedV !in cleanedCell {
        cleanedCell := cleanedCell + [roundedV];
      }
    }
    assert cell[..|cell|] == cell;
  }

  /** One step of the clean-up loop: the next rounded vertex is appended unless already kept. */
  lemma CleanStep(cell: seq<Point>, i: int, cleanedCell: seq<Point>)
    requires 0 <= i < |cell| && cleanedCell == Dedup(RoundAll(cell[..i]))
    ensures var v := Point(Round2(cell[i].x), Round2(cell[i].y));
      Dedup(RoundAll(cell[..i + 1])) == if v in cleanedCell then cleanedCell else cleanedCell + [v]
  {
    RoundAllSnoc(cell, i);
    DedupSnoc(RoundAll(cell[..i]), Point(Round2(cell[i].x), Round2(cell[i].y)));
  }

  lemma RoundAllSnoc(cell: seq<Point>, i: int)
    requires 0 <= i < |cell|
    ensures RoundAll(cell[..i + 1]) == RoundAll(cell[..i]) + [Point(Round2(cell[i].x), Round2(cell[i].y))]
  {
  }

  lemma DedupSnoc(s: seq<Point>, v: Point)
    ensures Dedup(s + [v]) == if v in Dedup(s) then Dedup(s) else Dedup(s) + [v]
  {
    assert (s + [v])[..|s|] == s;
  }

  /**
   * The cleaned cell has no duplicates, is no longer than the input, and holds
   * exactly the rounded input vertices, in order of first occurrence.
   */
  lemma CleanedProperties(cell: seq<Point>)
    ensures NoDuplicates(Cleaned(cell))
    ensures |Cleaned(cell)| <= |cell|
    ensures forall v :: v in Cleaned(cell) <==> exists i :: 0 <= i < |cell| && v == RoundPoint(cell[i])
    ensures forall i, j :: 0 <= i < j < |Cleaned(cell)| ==>
      FirstIndex(RoundAll(cell), Cleaned(cell)[i]) < FirstIndex(RoundAll(cell), Cleaned(cell)[j])
  {
    DedupFirstOccurrence(RoundAll(cell));
    forall v | v in RoundAll(cell)
      ensures exists i :: 0 <= i < |cell| && v == RoundPoint(cell[i])
    {
      var i :| 0 <= i < |cell| && RoundAll(cell)[i] == v;
    }
    forall i | 0 <= i < |cell|
      ensures RoundPoint(cell[i]) in RoundAll(cell)
    {
      assert RoundAll(cell)[i] == RoundPoint(cell[i]);
    }
  }

  /** Cleaning a cleaned cell gives the same cell. */
  lemma CleanedIdempotent(cell: seq<Point>)
    ensures Cleaned(Cleaned(cell)) == Cleaned(cell)
  {
    var c := Cleaned(cell);
    forall i | 0 <= i < |c|
      ensures RoundPoint(c[i]) == c[i]
    {
      assert c[i] in RoundAll(cell);
      var j :| 0 <= j < |cell| && RoundAll(cell)[j] == c[i];
      Round2Idempotent(cell[j].x);
      Round2Idempotent(cell[j].y);
    }
    assert RoundAll(c) == c;
    DedupOfDistinct(c);
  }

  // ---------------------------------------------------------------------------
  // voronoi_cells and dictionary_to_list

  /** Why a configuration is refused (the source raises an exception). */
  datatype ConfigError =
    | UnsupportedShape(name: string)  // ValueError: unknown shape name
    | InvalidCustomShape              // ValueError: custom shape missing or under 3 points
    | EmptyPoints                     // ValueError: min() of an empty sequence
    | ZeroDivision                    // ZeroDivisionError: centroid of no points

  /** One entry of the site-to-cell dictionary, in insertion order. */
  datatype CellEntry = CellEntry(site: Point, cell: seq<Point>)

  function MinOf(xs: seq<real>): (m: real)
    requires |xs| > 0
    ensures m in xs && forall i :: 0 <= i < |xs| ==> m <= xs[i]
  {
    if |xs| == 1 then xs[0]
    else
      var rest := MinOf(xs[1..]);
      if rest < xs[0] then rest else xs[0]
  }

  function MaxOf(xs: seq<real>): (m: real)
    requires |xs| > 0
    ensures m in xs && forall i :: 0 <= i < |xs| ==> xs[i] <= m
  {
    if |xs| == 1 then xs[0]
    else
      var rest := MaxOf(xs[1..]);
      if rest > xs[0] then rest else xs[0]
  }

  function Xs(points: seq<Point>): seq<real>
  {
    seq(|points|, i requires 0 <= i < |points| => points[i].x)
  }

  function Ys(points: seq<Point>): seq<real>
  {
    seq(|points|, i requires 0 <= i < |points| => points[i].y)
  }

  /** The sites' bounding box grown by `padding`, corners counter-clockwise from the lower left. */
  function RectangleRegion(points: seq<Point>, padding: real): seq<Point>
    requires |points| > 0
  {
    var minX, maxX := MinOf(Xs(points)) - padding, MaxOf(Xs(points)) + padding;
    var minY, maxY := MinOf(Ys(points)) - padding, MaxOf(Ys(points)) + padding;
    [Point(minX, minY), Point(maxX, minY), Point(maxX, maxY), Point(minX, maxY)]
  }

  /**
   * Three vertices from the sites' extremes: one at the middle of the x-range, `padding`
   * below the lowest site, and two `padding` beyond the left and right extremes,
   * `padding` above the highest site.
   */
  function TriangleRegion(points: seq<Point>, padding: real): seq<Point>
    requires |points| > 0
  {
    var minX, maxX := MinOf(Xs(points)), MaxOf(Xs(points));
    var minY, maxY := MinOf(Ys(points)), MaxOf(Ys(points));
    [Point((minX + maxX) / 2.0, minY - padding),
     Point(minX - padding, maxY + padding),
     Point(maxX + padding, maxY + padding)]
  }

  /** With non-negative padding the padded rectangle contains every site. */
  lemma RectangleContainsSites(points: seq<Point>, padding: real)
    requires |points| > 0 && padding >= 0.0
    ensures var r := RectangleRegion(points, padding);
      |r| == 4 && r[0].x == r[3].x && r[1].x == r[2].x && r[0].y == r[1].y && r[2].y == r[3].y &&
      forall p :: p in points ==> r[0].x <= p.x <= r[1].x && r[0].y <= p.y <= r[2].y
  {
    forall p | p in points
      ensures MinOf(Xs(points)) <= p.x <= MaxOf(Xs(points))
      ensures MinOf(Ys(points)) <= p.y <= MaxOf(Ys(points))
    {
      var i :| 0 <= i < |points| && points[i] == p;
      assert Xs(points)[i] == p.x && Ys(points)[i] == p.y;
    }
  }

  predicate IsKnownShape(name: string)
  {
    name == "rectangle" || name == "circle" || name == "triangle" || name == "custom"
  }

  /**
   * The starting polygon of every cell. The circle's 32-gon is computed with
   * floating-point trigonometry and is passed in as `circleRegion`.
   */
  function BoundingRegion(gen: VoronoiGenerator, circleRegion: seq<Point>): (r: Result<seq<Point>, ConfigError>)
  {
    if gen.boundingShape == "rectangle" then
      if |gen.points| == 0 then Err(EmptyPoints) else Ok(RectangleRegion(gen.points, gen.padding))
    else if gen.boundingShape == "circle" then
      if |gen.points| == 0 then Err(ZeroDivision) else Ok(circleRegion)
    else if gen.boundingShape == "triangle" then
      if |gen.points| == 0 then Err(EmptyPoints) else Ok(TriangleRegion(gen.points, gen.padding))
    else if gen.boundingShape == "custom" then
      if gen.customShape.None? || |gen.customShape.value| < 3 then Err(InvalidCustomShape)
      else Ok(gen.customShape.value)
    else Err(UnsupportedShape(gen.boundingShape))
  }

  function Sites(entries: seq<CellEntry>): seq<Point>
  {
    seq(|entries|, i requires 0 <= i < |entries| => entries[i].site)
  }

  /** The cell of every distinct site, in order of first occurrence, or the configuration error. */
  function VoronoiCells(gen: VoronoiGenerator, circleRegion: seq<Point>): (r: Result<seq<CellEntry>, ConfigError>)
    ensures !IsKnownShape(gen.boundingShape) ==> r == Err(UnsupportedShape(gen.boundingShape))
    ensures gen.boundingShape == "custom" ==>
      (r == Err(InvalidCustomShape) <==> gen.customShape.None? || |gen.customShape.value| < 3)
    ensures gen.boundingShape == "custom" ==> r.Ok? || r == Err(InvalidCustomShape)
    ensures gen.boundingShape == "rectangle" || gen.boundingShape == "triangle" ==>
      (r.Err? <==> |gen.points| == 0) && (r.Err? ==> r.error == EmptyPoints)
    ensures gen.boundingShape == "circle" ==> (r.Err? <==> |gen.points| == 0) && (r.Err? ==> r.error == ZeroDivision)
    ensures r.Ok? ==>
      && Sites(r.value) == Dedup(gen.points)
      && NoDuplicates(Sites(r.value))
      && (forall p :: p in Sites(r.value) <==> p in gen.points)
      && forall i :: 0 <= i < |r.value| ==>
           r.value[i].cell == VoronoiCell(gen.points, r.value[i].site, BoundingRegion(gen, circleRegion).value)
  {
    match BoundingRegion(gen, circleRegion)
    case Err(e) => Err(e)
    case Ok(region) =>
      var sites := Dedup(gen.points);
      var entries := seq(|sites|, i requires 0 <= i < |sites| => CellEntry(sites[i], VoronoiCell(gen.points, sites[i], region)));
      assert Sites(entries) == sites;
      Ok(entries)
  }

  /** One cleaned vertex list per dictionary value, in the dictionary's order. */
  function DictionaryToList(cellsDict: seq<CellEntry>): (cells: seq<seq<Point>>)
    ensures |cells| == |cellsDict|
    ensures forall i :: 0 <= i < |cells| ==>
      cells[i] == Cleaned(cellsDict[i].cell) && NoDuplicates(cells[i]) && |cells[i]| <= |cellsDict[i].cell|
  {
    seq(|cellsDict|, i requires 0 <= i < |cellsDict| => Cleaned(cellsDict[i].cell))
  }
}
