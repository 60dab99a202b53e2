/**
 * The quadrant grid laid over the Voronoi cells: the bounding box of every cell
 * vertex, square buckets sized from the number of cells, offsets that centre the
 * grid on the box, and for each bucket its midpoint and its 8-connected neighbour
 * positions.
 */
module VoronoiToDelauney {
  import opened Results
  import opened Geometry

  /** One square bucket of the grid. */
  class Quadrant {
    var length: real
    var midpoint: Point
    var neighbours: seq<(int, int)>
    var containedPoints: seq<Point>

    /** A non-positive length is stored as 0; a missing midpoint is the origin. */
    constructor (length: real := 0.0, midpoint: Option<Point> := None)
      ensures this.length >= 0.0
      ensures length > 0.0 ==> this.length == length
      ensures length <= 0.0 ==> this.length == 0.0
      ensures this.midpoint == (if midpoint.Some? then midpoint.value else Point(0.0, 0.0))
      ensures neighbours == [] && containedPoints == []
    {
      if length > 0.0 {
        this.length := length;
      } else {
        this.length := 0.0;
      }
      if midpoint.None? {
        this.midpoint := Point(0.0, 0.0);
      } else {
        this.midpoint := midpoint.value;
      }
      neighbours := [];
      containedPoints := [];
    }
  }

  // ---------------------------------------------------------------------------
  // Bounding box of all cell vertices

  datatype Box = Box(minX: real, maxX: real, minY: real, maxY: real)

  predicate InBox(b: Box, v: Point)
  {
    b.minX <= v.x <= b.maxX && b.minY <= v.y <= b.maxY
  }

  /** `value` is 0 (where the scan starts) or a coordinate some vertex has. */
  ghost predicate AttainedX(data: seq<seq<Point>>, value: real)
  {
    value == 0.0 || exists c, k :: 0 <= c < |data| && 0 <= k < |data[c]| && data[c][k].x == value
  }

  ghost predicate AttainedY(data: seq<seq<Point>>, value: real)
  {
    value == 0.0 || exists c, k :: 0 <= c < |data| && 0 <= k < |data[c]| && data[c][k].y == value
  }

  /**
   * The box the scan computes: it contains the origin and every vertex, and each
   * side is at the origin or at a vertex (so it is the smallest such box).
   */
  ghost predicate IsBoundingBox(data: seq<seq<Point>>, b: Box)
  {
    && b.minX <= 0.0 <= b.maxX && b.minY <= 0.0 <= b.maxY
    && (forall c, k :: 0 <= c < |data| && 0 <= k < |data[c]| ==> InBox(b, data[c][k]))
    && AttainedX(data, b.minX) && AttainedX(data, b.maxX)
    && AttainedY(data, b.minY) && AttainedY(data, b.maxY)
  }

  method BoundingBox(voronoiData: seq<seq<Point>>) returns (box: Box)
    ensures IsBoundingBox(voronoiData, box)
  {
    var minX, maxX, minY, maxY := 0.0, 0.0, 0.0, 0.0;
    for c := 0 to |voronoiData|
      invariant minX <= 0.0 <= maxX && minY <= 0.0 <= maxY
      invariant CoversCells(voronoiData, c, Box(minX, maxX, minY, maxY))
      invariant AttainedX(voronoiData, minX) && AttainedX(voronoiData, maxX)
      invariant AttainedY(voronoiData, minY) && AttainedY(voronoiData, maxY)
    {
      var cell := voronoiData[c];
      for k := 0 to |cell|
        invariant minX <= 0.0 <= maxX && minY <= 0.0 <= maxY
        invariant CoversCells(voronoiData, c, Box(minX, maxX, minY, maxY))
        invariant CoversPrefix(cell, k, Box(minX, maxX, minY, maxY))
        invariant AttainedX(voronoiData, minX) && AttainedX(voronoiData, maxX)
        invariant AttainedY(voronoiData, minY) && AttainedY(voronoiData, maxY)
      {
        var v := cell[k];
        VertexAttained(voronoiData, c, k);
        ghost var before := Box(minX, maxX, minY, maxY);
        if v.x < minX {
          minX := v.x;
        } else if v.x > maxX {
          maxX := v.x;
        }
        if v.y < minY {
          minY := v.y;
        } else if v.y > maxY {
          maxY := v.y;
        }
        CoversGrow(voronoiData, c, cell, k, before, Box(minX, maxX, minY, maxY));
      }
      CoversNext(voronoiData, c, Box(minX, maxX, minY, maxY));
    }
    box := Box(minX, maxX, minY, maxY);
  }

  /** Every vertex of the first n cells lies in b. */
  ghost predicate CoversCells(data: seq<seq<Point>>, n: int, b: Box)
    requires n <= |data|
  {
    forall c, k :: 0 <= c < n && 0 <= k < |data[c]| ==> InBox(b, data[c][k])
  }

  /** The first n vertices of the cell lie in b. */
  ghost predicate CoversPrefix(cell: seq<Point>, n: int, b: Box)
  {
    forall k :: 0 <= k < n && k < |cell| ==> InBox(b, cell[k])
  }

  /** Each side of `outer` lies at or beyond the same side of `inner`. */
  predicate Encloses(outer: Box, inner: Box)
  {
    outer.minX <= inner.minX && inner.maxX <= outer.maxX && outer.minY <= inner.minY && inner.maxY <= outer.maxY
  }

  /** Growing the box to take in cell[k] keeps everything seen so far inside. */
  lemma CoversGrow(data: seq<seq<Point>>, c: int, cell: seq<Point>, k: int, before: Box, after: Box)
    requires 0 <= c < |data| && cell == data[c] && 0 <= k < |cell|
    requires CoversCells(data, c, before) && CoversPrefix(cell, k, before)
    requires Encloses(after, before) && InBox(after, cell[k])
    ensures CoversCells(data, c, after) && CoversPrefix(cell, k + 1, after)
  {
  }

  /** A fully scanned cell extends the covered cells by one. */
  lemma CoversNext(data: seq<seq<Point>>, c: int, b: Box)
    requires 0 <= c < |data|
    requires CoversCells(data, c, b) && CoversPrefix(data[c], |data[c]|, b)
    ensures CoversCells(data, c + 1, b)
  {
  }

  /** Every vertex coordinate is a value a side of the box may take. */
  lemma VertexAttained(data: seq<seq<Point>>, c: int, k: int)
    requires 0 <= c < |data| && 0 <= k < |data[c]|
    ensures AttainedX(data, data[c][k].x) && AttainedY(data, data[c][k].y)
  {
  }

  /** The scan's box is determined by the vertices: two boxes that satisfy it are equal. */
  lemma BoundingBoxUnique(data: seq<seq<Point>>, a: Box, b: Box)
    requires IsBoundingBox(data, a) && IsBoundingBox(data, b)
    ensures a == b
  {
    BoxWithin(data, a, b);
    BoxWithin(data, b, a);
  }

  /** A bounding box reaches at least as far as any other, on every side. */
  lemma BoxWithin(data: seq<seq<Point>>, a: Box, b: Box)
    requires IsBoundingBox(data, a) && IsBoundingBox(data, b)
    ensures a.minX <= b.minX && a.maxX >= b.maxX && a.minY <= b.minY && a.maxY >= b.maxY
  {
    if b.minX != 0.0 {
      var c, k :| 0 <= c < |data| && 0 <= k < |data[c]| && data[c][k].x == b.minX;
      assert InBox(a, data[c][k]);
    }
    if b.maxX != 0.0 {
      var c, k :| 0 <= c < |data| && 0 <= k < |data[c]| && data[c][k].x == b.maxX;
      assert InBox(a, data[c][k]);
    }
    if b.minY != 0.0 {
      var c, k :| 0 <= c < |data| && 0 <= k < |data[c]| && data[c][k].y == b.minY;
      assert InBox(a, data[c][k]);
    }
    if b.maxY != 0.0 {
      var c, k :| 0 <= c < |data| && 0 <= k < |data[c]| && data[c][k].y == b.maxY;
      assert InBox(a, data[c][k]);
    }
  }

  // ---------------------------------------------------------------------------
  // Grid layout

  /**
   * round(sqrt(n)) for a natural n: the integer k with (k - 1/2)^2 < n < (k + 1/2)^2,
   * written over integers as k*k - k < n <= k*k + k (a tie cannot occur).
   */
  function RoundSqrt(n: nat): (k: nat)
    ensures n == 0 <==> k == 0
    ensures n > 0 ==> k * k - k < n <= k * k + k
  {
    if n == 0 then 0 else RoundSqrtFrom(n, 1)
  }

  /** Searches upward from k for the rounded square root. */
  function RoundSqrtFrom(n: nat, k: nat): (r: nat)
    requires k * k - k < n
    requires k >= 1
    ensures r >= k
    ensures r * r - r < n <= r * r + r
    decreases n - k
  {
    if n <= k * k + k then k
    else
      assert k * k >= k;
      RoundSqrtFrom(n, k + 1)
  }

  /** The integer characterization agrees with rounding the real square root. */
  lemma RoundSqrtNearest(n: nat)
    requires n > 0
    ensures var k := RoundSqrt(n) as real;
      (k - 0.5) * (k - 0.5) < n as real < (k + 0.5) * (k + 0.5)
  {
    var k := RoundSqrt(n);
    var kr := k as real;
    assert (k * k) as real == kr * kr;
    assert (kr - 0.5) * (kr - 0.5) == kr * kr - kr + 0.25;
    assert (kr + 0.5) * (kr + 0.5) == kr * kr + kr + 0.25;
  }

  /** math.ceil */
  function Ceil(x: real): (c: int)
    ensures x <= c as real < x + 1.0
  {
    -((-x).Floor)
  }

  function MinReal(a: real, b: real): (m: real)
    ensures m <= a && m <= b && (m == a || m == b)
  {
    if b < a then b else a
  }

  /** Quadrant side, grid dimensions and the offsets that centre the grid on the box. */
  datatype Layout = Layout(quadLength: real, numRows: nat, numCols: nat, xOffset: real, yOffset: real)

  datatype GridError = ZeroDivision

  /** Doubling of the side length. */
  const Scaling: real := 2.0

  lemma MulMonotone(a: real, b: real, len: real)
    requires a <= b && len > 0.0
    ensures a * len <= b * len
    ensures a < b ==> a * len < b * len
  {
    var d := b - a;
    assert b * len == a * len + d * len;
    if a < b {
      assert d * len > 0.0;
    }
  }

  /** Scaling a ceiling of w / len back by len gives at least w ... */
  lemma ScaleLower(q: real, c: real, len: real, w: real)
    requires q * len == w
    requires q <= c && len > 0.0
    ensures w <= c * len
  {
    MulMonotone(q, c, len);
  }

  /** ... and less than w + len. */
  lemma ScaleUpper(q: real, c: real, len: real, w: real)
    requires q * len == w
    requires c < q + 1.0 && len > 0.0
    ensures c * len < w + len
  {
    MulMonotone(c, q + 1.0, len);
    assert (q + 1.0) * len == q * len + len;
  }

  /** Rounding `w / len` up gives the fewest squares of side `len` that span `w`. */
  lemma CeilCovers(w: real, len: real)
    requires w >= 0.0 && len > 0.0
    ensures Ceil(w / len) >= 0
    ensures Ceil(w / len) as real * len >= w
    ensures Ceil(w / len) as real * len < w + len
  {
    var q := w / len;
    assert q * len == w;
    assert q >= 0.0;
    ScaleLower(q, Ceil(q) as real, len, w);
    ScaleUpper(q, Ceil(q) as real, len, w);
  }

  /**
   * The grid of squares of side `quadLength` for the box: it covers the box with less
   * than one square of slack per axis, is centred on it, and has at least one row and
   * one column.
   */
  function GridFor(box: Box, quadLength: real): (l: Layout)
    requires box.minX < box.maxX && box.minY < box.maxY
    requires quadLength > 0.0
    ensures l.quadLength == quadLength
    ensures l.numRows >= 1 && l.numCols >= 1
    ensures l.xOffset <= box.minX && box.maxX <= l.xOffset + l.numRows as real * quadLength
    ensures l.yOffset <= box.minY && box.maxY <= l.yOffset + l.numCols as real * quadLength
    ensures l.numRows as real * quadLength < box.maxX - box.minX + quadLength
    ensures l.numCols as real * quadLength < box.maxY - box.minY + quadLength
    ensures l.xOffset + l.numRows as real * quadLength / 2.0 == (box.minX + box.maxX) / 2.0
    ensures l.yOffset + l.numCols as real * quadLength / 2.0 == (box.minY + box.maxY) / 2.0
  {
    var w, h := box.maxX - box.minX, box.maxY - box.minY;
    CeilCovers(w, quadLength);
    CeilCovers(h, quadLength);
    var numRows := Ceil(w / quadLength);
    var numCols := Ceil(h / quadLength);
    var xOffset := box.minX - (quadLength * numRows as real - w) / 2.0;
    var yOffset := box.minY - (quadLength * numCols as real - h) / 2.0;
    Layout(quadLength, numRows, numCols, xOffset, yOffset)
  }

  /**
   * The layout computed from the box and the number of cells; the source divides by
   * round(sqrt(n)) and by the side length, which fails when either is zero.
   */
  function ComputeLayout(box: Box, n: nat): (r: Result<Layout, GridError>)
    requires box.minX <= box.maxX && box.minY <= box.maxY
    ensures r.Err? <==> n == 0 || box.maxX == box.minX || box.maxY == box.minY
    ensures r.Ok? ==>
      r.value.quadLength == Scaling * MinReal(box.maxX - box.minX, box.maxY - box.minY) / RoundSqrt(n) as real
    ensures r.Ok? ==> r.value == GridFor(box, r.value.quadLength)
  {
    var k := RoundSqrt(n);
    if k == 0 then Err(ZeroDivision)
    else
      var w, h := box.maxX - box.minX, box.maxY - box.minY;
      var m := MinReal(w, h);
      var quadLength := m / k as real * Scaling;
      SideLength(m, k, quadLength);
      if quadLength == 0.0 then Err(ZeroDivision)
      else Ok(GridFor(box, quadLength))
  }

  /** The side length is zero exactly when the shorter box side is, and its factors commute. */
  lemma SideLength(m: real, k: nat, quadLength: real)
    requires m >= 0.0 && k >= 1 && quadLength == m / k as real * Scaling
    ensures quadLength == 0.0 <==> m == 0.0
    ensures quadLength >= 0.0
    ensures quadLength == Scaling * m / k as real
  {
  }

  /** Midpoint of the quadrant in row r, column c. */
  function MidPoint(l: Layout, r: int, c: int): Point
  {
    Point(r as real * l.quadLength + l.quadLength / 2.0 + l.xOffset,
          c as real * l.quadLength + l.quadLength / 2.0 + l.yOffset)
  }

  /**
   * The grid is centred on the box: the midpoints of (r, c) and of the mirrored row
   * numRows - 1 - r (resp. column numCols - 1 - c) are symmetric about the box centre.
   */
  lemma MidPointsMirror(box: Box, quadLength: real, r: int, c: int)
    requires box.minX < box.maxX && box.minY < box.maxY && quadLength > 0.0
    ensures var l := GridFor(box, quadLength);
      && MidPoint(l, r, c).x + MidPoint(l, l.numRows - 1 - r, c).x == box.minX + box.maxX
      && MidPoint(l, r, c).y + MidPoint(l, r, l.numCols - 1 - c).y == box.minY + box.maxY
  {
    var l := GridFor(box, quadLength);
    var L := l.quadLength;
    assert r as real * L + (l.numRows - 1 - r) as real * L + L == l.numRows as real * L;
    assert c as real * L + (l.numCols - 1 - c) as real * L + L == l.numCols as real * L;
  }

  /** Different positions have different midpoints. */
  lemma MidPointInjective(l: Layout, r: int, c: int, r': int, c': int)
    requires l.quadLength > 0.0
    requires MidPoint(l, r, c) == MidPoint(l, r', c')
    ensures r == r' && c == c'
  {
    assert (r as real - r' as real) * l.quadLength == 0.0;
    assert (c as real - c' as real) * l.quadLength == 0.0;
  }

  // ---------------------------------------------------------------------------
  // Neighbour positions

  /**
   * The test applied to a candidate (i, j) around (r, c): both indices non-negative,
   * at most numRows and numCols respectively (inclusive), and not (r, c) itself.
   */
  predicate Admitted(r: int, c: int, rows: int, cols: int, i: int, j: int)
  {
    i >= 0 && i <= rows && j >= 0 && j <= cols && !(i == r && j == c)
  }

  /** Positions of row i appended while j runs from c - 1 up to (excluding) jEnd. */
  function NeighbourRow(r: int, c: int, rows: int, cols: int, i: int, jEnd: int): seq<(int, int)>
    requires c - 1 <= jEnd
    decreases jEnd - c + 1
  {
    if jEnd == c - 1 then []
    else
      NeighbourRow(r, c, rows, cols, i, jEnd - 1)
      + (if Admitted(r, c, rows, cols, i, jEnd - 1) then [(i, jEnd - 1)] else [])
  }

  /** Positions appended while i runs from r - 1 up to (excluding) iEnd. */
  function NeighbourRows(r: int, c: int, rows: int, cols: int, iEnd: int): seq<(int, int)>
    requires r - 1 <= iEnd
    decreases iEnd - r + 1
  {
    if iEnd == r - 1 then []
    else NeighbourRows(r, c, rows, cols, iEnd - 1) + NeighbourRow(r, c, rows, cols, iEnd - 1, c + 2)
  }

  /** The neighbour list of the quadrant at (r, c) in a rows-by-cols grid. */
  function Neighbours(r: int, c: int, rows: int, cols: int): seq<(int, int)>
  {
    NeighbourRows(r, c, rows, cols, r + 2)
  }

  /** Row-major order on positions. */
  predicate Before(a: (int, int), b: (int, int))
  {
    a.0 < b.0 || (a.0 == b.0 && a.1 < b.1)
  }

  /** What a row segment of the neighbour list holds, in which order, and how much. */
  lemma NeighbourRowFacts(r: int, c: int, rows: int, cols: int, i: int, jEnd: int)
    requires c - 1 <= jEnd
    ensures var s := NeighbourRow(r, c, rows, cols, i, jEnd);
      && (forall k :: 0 <= k < |s| ==>
            s[k].0 == i && c - 1 <= s[k].1 < jEnd && Admitted(r, c, rows, cols, s[k].0, s[k].1))
      && (forall j :: c - 1 <= j < jEnd && Admitted(r, c, rows, cols, i, j) ==> (i, j) in s)
      && (forall k, m :: 0 <= k < m < |s| ==> Before(s[k], s[m]))
      && |s| <= jEnd - c + 1
      && (i == r && jEnd > c ==> |s| <= jEnd - c)
  {
    NeighbourRowBounds(r, c, rows, cols, i, jEnd);
    NeighbourRowComplete(r, c, rows, cols, i, jEnd);
    NeighbourRowOrdered(r, c, rows, cols, i, jEnd);
  }

  lemma {:induction false} NeighbourRowBounds(r: int, c: int, rows: int, cols: int, i: int, jEnd: int)
    requires c - 1 <= jEnd
    ensures var s := NeighbourRow(r, c, rows, cols, i, jEnd);
      && (forall k :: 0 <= k < |s| ==>
            s[k].0 == i && c - 1 <= s[k].1 < jEnd && Admitted(r, c, rows, cols, s[k].0, s[k].1))
      && |s| <= jEnd - c + 1
      && (i == r && jEnd > c ==> |s| <= jEnd - c)
    decreases jEnd - c + 1
  {
    if jEnd != c - 1 {
      NeighbourRowBounds(r, c, rows, cols, i, jEnd - 1);
      var a: seq<(int, int)> := NeighbourRow(r, c, rows, cols, i, jEnd - 1);
      var t: seq<(int, int)> := if Admitted(r, c, rows, cols, i, jEnd - 1) then [(i, jEnd - 1)] else [];
      assert NeighbourRow(r, c, rows, cols, i, jEnd) == a + t;
      forall k | 0 <= k < |a + t|
        ensures (a + t)[k].0 == i && c - 1 <= (a + t)[k].1 < jEnd
        ensures Admitted(r, c, rows, cols, (a + t)[k].0, (a + t)[k].1)
      {
        if k < |a| {
          assert (a + t)[k] == a[k];
        }
      }
    }
  }

  lemma {:induction false} NeighbourRowComplete(r: int, c: int, rows: int, cols: int, i: int, jEnd: int)
    requires c - 1 <= jEnd
    ensures forall j :: c - 1 <= j < jEnd && Admitted(r, c, rows, cols, i, j) ==>
      (i, j) in NeighbourRow(r, c, rows, cols, i, jEnd)
    decreases jEnd - c + 1
  {
    if jEnd != c - 1 {
      NeighbourRowComplete(r, c, rows, cols, i, jEnd - 1);
    }
  }

  lemma {:induction false} NeighbourRowOrdered(r: int, c: int, rows: int, cols: int, i: int, jEnd: int)
    requires c - 1 <= jEnd
    ensures var s := NeighbourRow(r, c, rows, cols, i, jEnd);
      forall k, m :: 0 <= k < m < |s| ==> Before(s[k], s[m])
    decreases jEnd - c + 1
  {
    if jEnd != c - 1 {
      NeighbourRowOrdered(r, c, rows, cols, i, jEnd - 1);
      NeighbourRowBounds(r, c, rows, cols, i, jEnd - 1);
      var a: seq<(int, int)> := NeighbourRow(r, c, rows, cols, i, jEnd - 1);
      var t: seq<(int, int)> := if Admitted(r, c, rows, cols, i, jEnd - 1) then [(i, jEnd - 1)] else [];
      assert NeighbourRow(r, c, rows, cols, i, jEnd) == a + t;
      forall k, m | 0 <= k < m < |a + t|
        ensures Before((a + t)[k], (a + t)[m])
      {
        assert (a + t)[k] == a[k];
        if m < |a| {
          assert (a + t)[m] == a[m];
        }
      }
    }
  }

  /** `p` is an admitted position around (r, c) in a row below iEnd. */
  predicate InBlock(r: int, c: int, rows: int, cols: int, iEnd: int, p: (int, int))
  {
    r - 1 <= p.0 < iEnd && c - 1 <= p.1 <= c + 1 && Admitted(r, c, rows, cols, p.0, p.1)
  }

  lemma {:induction false} NeighbourRowsBounds(r: int, c: int, rows: int, cols: int, iEnd: int)
    requires r - 1 <= iEnd
    ensures forall k :: 0 <= k < |NeighbourRows(r, c, rows, cols, iEnd)| ==>
      InBlock(r, c, rows, cols, iEnd, NeighbourRows(r, c, rows, cols, iEnd)[k])
    decreases iEnd - r + 1
  {
    if iEnd != r - 1 {
      NeighbourRowsBounds(r, c, rows, cols, iEnd - 1);
      NeighbourRowFacts(r, c, rows, cols, iEnd - 1, c + 2);
      var a: seq<(int, int)> := NeighbourRows(r, c, rows, cols, iEnd - 1);
      var b: seq<(int, int)> := NeighbourRow(r, c, rows, cols, iEnd - 1, c + 2);
      assert NeighbourRows(r, c, rows, cols, iEnd) == a + b;
      forall k | 0 <= k < |a + b|
        ensures InBlock(r, c, rows, cols, iEnd, (a + b)[k])
      {
        if k < |a| {
          assert (a + b)[k] == a[k];
        } else {
          assert (a + b)[k] == b[k - |a|];
        }
      }
    }
  }

  lemma {:induction false} NeighbourRowsComplete(r: int, c: int, rows: int, cols: int, iEnd: int)
    requires r - 1 <= iEnd
    ensures forall i, j :: r - 1 <= i < iEnd && c - 1 <= j <= c + 1 && Admitted(r, c, rows, cols, i, j) ==>
      (i, j) in NeighbourRows(r, c, rows, cols, iEnd)
    decreases iEnd - r + 1
  {
    if iEnd != r - 1 {
      NeighbourRowsComplete(r, c, rows, cols, iEnd - 1);
      NeighbourRowFacts(r, c, rows, cols, iEnd - 1, c + 2);
    }
  }

  lemma {:induction false} NeighbourRowsOrdered(r: int, c: int, rows: int, cols: int, iEnd: int)
    requires r - 1 <= iEnd
    ensures forall k, m :: 0 <= k < m < |NeighbourRows(r, c, rows, cols, iEnd)| ==>
      Before(NeighbourRows(r, c, rows, cols, iEnd)[k], NeighbourRows(r, c, rows, cols, iEnd)[m])
    decreases iEnd - r + 1
  {
    if iEnd != r - 1 {
      NeighbourRowsOrdered(r, c, rows, cols, iEnd - 1);
      NeighbourRowsBounds(r, c, rows, cols, iEnd - 1);
      NeighbourRowFacts(r, c, rows, cols, iEnd - 1, c + 2);
      var a: seq<(int, int)> := NeighbourRows(r, c, rows, cols, iEnd - 1);
      var b: seq<(int, int)> := NeighbourRow(r, c, rows, cols, iEnd - 1, c + 2);
      assert NeighbourRows(r, c, rows, cols, iEnd) == a + b;
      forall k, m | 0 <= k < m < |a + b|
        ensures Before((a + b)[k], (a + b)[m])
      {
        if m < |a| {
          assert (a + b)[k] == a[k] && (a + b)[m] == a[m];
        } else if k >= |a| {
          assert (a + b)[k] == b[k - |a|];
          assert (a + b)[m] == b[m - |a|];
        } else {
          assert (a + b)[k] == a[k];
          assert (a + b)[m] == b[m - |a|];
        }
      }
    }
  }

  lemma {:induction false} NeighbourRowsLength(r: int, c: int, rows: int, cols: int, iEnd: int)
    requires r - 1 <= iEnd
    ensures |NeighbourRows(r, c, rows, cols, iEnd)| <= 3 * (iEnd - r + 1) - (if iEnd > r then 1 else 0)
    decreases iEnd - r + 1
  {
    if iEnd != r - 1 {
      NeighbourRowsLength(r, c, rows, cols, iEnd - 1);
      NeighbourRowFacts(r, c, rows, cols, iEnd - 1, c + 2);
    }
  }

  /**
   * The neighbour list holds exactly the admitted positions in the 3-by-3 block around
   * (r, c), in strictly increasing row-major order (hence without repeats), and has
   * at most 8 entries.
   */
  lemma NeighboursSpec(r: int, c: int, rows: int, cols: int)
    ensures var s := Neighbours(r, c, rows, cols);
      && (forall i, j :: (i, j) in s <==>
            (r - 1 <= i <= r + 1 && c - 1 <= j <= c + 1 && Admitted(r, c, rows, cols, i, j)))
      && (forall k, m :: 0 <= k < m < |s| ==> Before(s[k], s[m]))
      && (forall k, m :: 0 <= k < m < |s| ==> s[k] != s[m])
      && |s| <= 8
  {
    NeighbourRowsBounds(r, c, rows, cols, r + 2);
    NeighbourRowsComplete(r, c, rows, cols, r + 2);
    NeighbourRowsOrdered(r, c, rows, cols, r + 2);
    NeighbourRowsLength(r, c, rows, cols, r + 2);
    var s := Neighbours(r, c, rows, cols);
    forall i, j | (i, j) in s
      ensures r - 1 <= i <= r + 1 && c - 1 <= j <= c + 1 && Admitted(r, c, rows, cols, i, j)
    {
      var k :| 0 <= k < |s| && s[k] == (i, j);
    }
  }

  /**
   * The upper bounds are inclusive, so a quadrant in the last row lists row `rows` and
   * one in the last column lists column `cols`, positions outside the grid.
   */
  lemma NeighboursReachPastGrid(rows: int, cols: int)
    requires rows >= 1 && cols >= 1
    ensures (rows, cols - 1) in Neighbours(rows - 1, cols - 1, rows, cols)
    ensures (rows - 1, cols) in Neighbours(rows - 1, cols - 1, rows, cols)
  {
    NeighboursSpec(rows - 1, cols - 1, rows, cols);
    assert Admitted(rows - 1, cols - 1, rows, cols, rows, cols - 1);
    assert Admitted(rows - 1, cols - 1, rows, cols, rows - 1, cols);
  }

  /** Interior positions: the listed neighbours of a quadrant away from the far edges lie inside the grid. */
  lemma NeighboursInsideAwayFromEdge(r: int, c: int, rows: int, cols: int)
    requires 0 <= r < rows - 1 && 0 <= c < cols - 1
    ensures forall p :: p in Neighbours(r, c, rows, cols) ==> 0 <= p.0 < rows && 0 <= p.1 < cols
  {
    NeighboursSpec(r, c, rows, cols);
    forall p | p in Neighbours(r, c, rows, cols)
      ensures 0 <= p.0 < rows && 0 <= p.1 < cols
    {
      var i, j := p.0, p.1;
      assert (i, j) in Neighbours(r, c, rows, cols);
      assert i <= r + 1 && j <= c + 1 && Admitted(r, c, rows, cols, i, j);
    }
  }

  // ---------------------------------------------------------------------------
  // Building the grid

  /**
   * The entry at (r, c) is a quadrant with the grid's side length, the midpoint of its
   * square, its neighbour list and no contained points.
   */
  ghost predicate Built(a: array2<Quadrant?>, l: Layout, r: int, c: int)
    requires 0 <= r < a.Length0 && 0 <= c < a.Length1
    reads a, a[r, c]
  {
    && a[r, c] != null
    && a[r, c].length == l.quadLength
    && a[r, c].midpoint == MidPoint(l, r, c)
    && a[r, c].neighbours == Neighbours(r, c, l.numRows, l.numCols)
    && a[r, c].containedPoints == []
  }

  /** No two positions among the first `rows` full rows and `cols` entries of the next share a quadrant. */
  ghost predicate DistinctUpTo(a: array2<Quadrant?>, row: int, col: int)
    reads a
  {
    forall i, j, i', j' ::
      (&& 0 <= i < a.Length0 && 0 <= j < a.Length1 && (i < row || (i == row && j < col))
       && 0 <= i' < a.Length0 && 0 <= j' < a.Length1 && (i' < row || (i' == row && j' < col))
       && a[i, j] == a[i', j'])
      ==> i == i' && j == j'
  }

  /**
   * A fresh quadrant for row `row`, column `col` of the grid, with the neighbour list
   * appended position by position in row-major order.
   */
  method NewQuadrant(l: Layout, row: int, col: int) returns (q: Quadrant)
    requires l.quadLength > 0.0
    ensures fresh(q)
    ensures q.length == l.quadLength && q.midpoint == MidPoint(l, row, col)
    ensures q.neighbours == Neighbours(row, col, l.numRows, l.numCols)
    ensures q.containedPoints == []
  {
    q := new Quadrant(l.quadLength, Some(MidPoint(l, row, col)));
    for i := row - 1 to row + 2
      modifies q`neighbours
      invariant q.neighbours == NeighbourRows(row, col, l.numRows, l.numCols, i)
    {
      for j := col - 1 to col + 2
        modifies q`neighbours
        invariant q.neighbours ==
          NeighbourRows(row, col, l.numRows, l.numCols, i) + NeighbourRow(row, col, l.numRows, l.numCols, i, j)
      {
        if i >= 0 && i <= l.numRows && j >= 0 && j <= l.numCols {
          if i == row && j == col {
          } else {
            q.neighbours := q.neighbours + [(i, j)];
          }
        }
      }
    }
  }

  /** Fills a fresh numRows-by-numCols table with fresh, pairwise distinct quadrants. */
  method FillGrid(l: Layout) returns (a: array2<Quadrant?>)
    requires l.quadLength > 0.0
    ensures fresh(a) && a.Length0 == l.numRows && a.Length1 == l.numCols
    ensures forall i, j :: 0 <= i < a.Length0 && 0 <= j < a.Length1 ==> Built(a, l, i, j) && fresh(a[i, j])
    ensures DistinctUpTo(a, a.Length0, 0)
  {
    a := new Quadrant?[l.numRows, l.numCols];
    for row := 0 to l.numRows
      invariant forall i, j :: 0 <= i < row && 0 <= j < l.numCols ==> Built(a, l, i, j) && fresh(a[i, j])
    {
      for col := 0 to l.numCols
        invariant forall i, j :: 0 <= i < l.numRows && 0 <= j < l.numCols && (i < row || (i == row && j < col)) ==>
          Built(a, l, i, j) && fresh(a[i, j])
      {
        var q := NewQuadrant(l, row, col);
        a[row, col] := q;
      }
    }
    BuiltDistinct(a, l);
  }

  /** A filled table holds a different quadrant at every position, told apart by their midpoints. */
  lemma BuiltDistinct(a: array2<Quadrant?>, l: Layout)
    requires l.quadLength > 0.0
    requires forall i, j :: 0 <= i < a.Length0 && 0 <= j < a.Length1 ==> Built(a, l, i, j)
    ensures DistinctUpTo(a, a.Length0, 0)
  {
    forall i, j, i', j' |
      && 0 <= i < a.Length0 && 0 <= j < a.Length1 && 0 <= i' < a.Length0 && 0 <= j' < a.Length1
      && a[i, j] == a[i', j']
      ensures i == i' && j == j'
    {
      assert Built(a, l, i, j) && Built(a, l, i', j');
      MidPointInjective(l, i, j, i', j');
    }
  }

  /**
   * Computes the bounding box of all cell vertices, lays the grid over it and fills a
   * numRows-by-numCols table with fresh, pairwise distinct quadrants, each with its
   * midpoint and neighbour list; a zero divisor gives ZeroDivision.
   */
  method GenerateQuadrants(voronoiData: seq<seq<Point>>)
    returns (r: Result<array2<Quadrant?>, GridError>, ghost box: Box)
    ensures IsBoundingBox(voronoiData, box)
    ensures r.Err? <==> ComputeLayout(box, |voronoiData|).Err?
    ensures r.Ok? ==>
      var a := r.value;
      var l := ComputeLayout(box, |voronoiData|).value;
      && fresh(a) && a.Length0 == l.numRows && a.Length1 == l.numCols
      && (forall i, j :: 0 <= i < a.Length0 && 0 <= j < a.Length1 ==> Built(a, l, i, j) && fresh(a[i, j]))
      && DistinctUpTo(a, a.Length0, 0)
  {
    var bounds := BoundingBox(voronoiData);
    box := bounds;
    var layout := ComputeLayout(bounds, |voronoiData|);
    if layout.Err? {
      return Err(ZeroDivision), box;
    }
    var a := FillGrid(layout.value);
    r := Ok(a);
  }
}
