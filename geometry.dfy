/**
 * Geometry of one detected bag in `produce.py`: the four corners picked from
 * its polygon (`sort_corners`), the centre drawn between top-left and
 * bottom-right, and the choice of the longer edge that `bag_angle` measures.
 */
module Geometry {
  import opened Results

  /** A polygon vertex after `astype(np.int32)`. */
  datatype Point = Point(x: int, y: int)

  type Polygon = seq<Point>

  datatype Corners = Corners(tl: Point, tr: Point, br: Point, bl: Point)

  /** `float -> int` conversion (`astype(int)`, `int(...)`): truncation toward zero. */
  function Truncate(r: real): (n: int)
    ensures 0.0 <= r ==> 0 <= n && n as real <= r < n as real + 1.0
    ensures r < 0.0 ==> n <= 0 && n as real - 1.0 < r <= n as real
  {
    if r >= 0.0 then r.Floor else -((-r).Floor)
  }

  /** `pts.sum(axis=1)`: x + y per vertex. */
  function Sums(poly: Polygon): (s: seq<int>)
    ensures |s| == |poly|
    ensures forall i :: 0 <= i < |poly| ==> s[i] == poly[i].x + poly[i].y
  {
    seq(|poly|, i requires 0 <= i < |poly| => poly[i].x + poly[i].y)
  }

  /** `np.diff(pts, axis=1).ravel()`: y - x per vertex. */
  function Diffs(poly: Polygon): (d: seq<int>)
    ensures |d| == |poly|
    ensures forall i :: 0 <= i < |poly| ==> d[i] == poly[i].y - poly[i].x
  {
    seq(|poly|, i requires 0 <= i < |poly| => poly[i].y - poly[i].x)
  }

  /** `np.argmin`: the index of the smallest value, the first one on a tie (`ArgMinFirst`). */
  function ArgMin(s: seq<int>): (k: nat)
    requires |s| > 0
    ensures k < |s|
  {
    if |s| == 1 then 0
    else
      var k := ArgMin(s[..|s| - 1]);
      if s[|s| - 1] < s[k] then |s| - 1 else k
  }

  /** `ArgMin` picks a smallest value, and every index before it holds a larger one. */
  lemma {:induction false} ArgMinFirst(s: seq<int>)
    requires |s| > 0
    ensures forall j :: 0 <= j < |s| ==> s[ArgMin(s)] <= s[j]
    ensures forall j :: 0 <= j < ArgMin(s) ==> s[j] > s[ArgMin(s)]
  {
    if |s| > 1 {
      var init := s[..|s| - 1];
      ArgMinFirst(init);
      assert forall j :: 0 <= j < |init| ==> init[j] == s[j];
    }
  }

  /** `np.argmax`: the index of the largest value, the first one on a tie (`ArgMaxFirst`). */
  function ArgMax(s: seq<int>): (k: nat)
    requires |s| > 0
    ensures k < |s|
  {
    if |s| == 1 then 0
    else
      var k := ArgMax(s[..|s| - 1]);
      if s[|s| - 1] > s[k] then |s| - 1 else k
  }

  /** `ArgMax` picks a largest value, and every index before it holds a smaller one. */
  lemma {:induction false} ArgMaxFirst(s: seq<int>)
    requires |s| > 0
    ensures forall j :: 0 <= j < |s| ==> s[ArgMax(s)] >= s[j]
    ensures forall j :: 0 <= j < ArgMax(s) ==> s[j] < s[ArgMax(s)]
  {
    if |s| > 1 {
      var init := s[..|s| - 1];
      ArgMaxFirst(init);
      assert forall j :: 0 <= j < |init| ==> init[j] == s[j];
    }
  }

  /**
   * `sort_corners`: TL and BR minimise and maximise x + y, TR and BL minimise
   * and maximise y - x. An empty polygon has no corners (`np.argmin` raises).
   */
  function SortCorners(poly: Polygon): (r: Option<Corners>)
    ensures r.Some? <==> |poly| > 0
  {
    if |poly| == 0 then None
    else
      var s, d := Sums(poly), Diffs(poly);
      Some(Corners(poly[ArgMin(s)], poly[ArgMin(d)], poly[ArgMax(s)], poly[ArgMax(d)]))
  }

  /** The vertices `np.argmin` and `np.argmax` pick on x + y bound every vertex's sum, and come first. */
  lemma SumExtremes(poly: Polygon)
    requires |poly| > 0
    ensures var lo, hi := ArgMin(Sums(poly)), ArgMax(Sums(poly));
      && (forall p :: p in poly ==> poly[lo].x + poly[lo].y <= p.x + p.y <= poly[hi].x + poly[hi].y)
      && (forall j :: 0 <= j < lo ==> poly[j].x + poly[j].y > poly[lo].x + poly[lo].y)
      && (forall j :: 0 <= j < hi ==> poly[j].x + poly[j].y < poly[hi].x + poly[hi].y)
  {
    var s := Sums(poly);
    ArgMinFirst(s);
    ArgMaxFirst(s);
    forall p | p in poly ensures s[ArgMin(s)] <= p.x + p.y <= s[ArgMax(s)] {
      var j :| 0 <= j < |poly| && poly[j] == p;
      assert s[j] == p.x + p.y;
    }
  }

  /** The vertices `np.argmin` and `np.argmax` pick on y - x bound every vertex's difference, and come first. */
  lemma DiffExtremes(poly: Polygon)
    requires |poly| > 0
    ensures var lo, hi := ArgMin(Diffs(poly)), ArgMax(Diffs(poly));
      && (forall p :: p in poly ==> poly[lo].y - poly[lo].x <= p.y - p.x <= poly[hi].y - poly[hi].x)
      && (forall j :: 0 <= j < lo ==> poly[j].y - poly[j].x > poly[lo].y - poly[lo].x)
      && (forall j :: 0 <= j < hi ==> poly[j].y - poly[j].x < poly[hi].y - poly[hi].x)
  {
    var d := Diffs(poly);
    ArgMinFirst(d);
    ArgMaxFirst(d);
    forall p | p in poly ensures d[ArgMin(d)] <= p.y - p.x <= d[ArgMax(d)] {
      var j :| 0 <= j < |poly| && poly[j] == p;
      assert d[j] == p.y - p.x;
    }
  }

  /** The four corners are vertices of the polygon, each the first vertex extreme in its key. */
  lemma SortCornersExtremes(poly: Polygon)
    requires |poly| > 0
    ensures var c := SortCorners(poly).value;
      && c.tl in poly && c.tr in poly && c.br in poly && c.bl in poly
      && (forall p :: p in poly ==> c.tl.x + c.tl.y <= p.x + p.y <= c.br.x + c.br.y)
      && (forall p :: p in poly ==> c.tr.y - c.tr.x <= p.y - p.x <= c.bl.y - c.bl.x)
      && (exists i :: 0 <= i < |poly| && poly[i] == c.tl && forall j :: 0 <= j < i ==> poly[j].x + poly[j].y > c.tl.x + c.tl.y)
      && (exists i :: 0 <= i < |poly| && poly[i] == c.br && forall j :: 0 <= j < i ==> poly[j].x + poly[j].y < c.br.x + c.br.y)
      && (exists i :: 0 <= i < |poly| && poly[i] == c.tr && forall j :: 0 <= j < i ==> poly[j].y - poly[j].x > c.tr.y - c.tr.x)
      && (exists i :: 0 <= i < |poly| && poly[i] == c.bl && forall j :: 0 <= j < i ==> poly[j].y - poly[j].x < c.bl.y - c.bl.x)
  {
    var itl, itr, ibr, ibl := ArgMin(Sums(poly)), ArgMin(Diffs(poly)), ArgMax(Sums(poly)), ArgMax(Diffs(poly));
    assert SortCorners(poly).value == Corners(poly[itl], poly[itr], poly[ibr], poly[ibl]);
    SumExtremes(poly);
    DiffExtremes(poly);
  }

  /** A displacement between two points. */
  datatype Vec = Vec(dx: int, dy: int)

  function Sub(a: Point, b: Point): Vec
  {
    Vec(a.x - b.x, a.y - b.y)
  }

  /** Squared Euclidean length; comparing these compares `np.linalg.norm`s. */
  function SqNorm(v: Vec): nat
  {
    v.dx * v.dx + v.dy * v.dy
  }

  /** The top edge TR - TL. */
  function TopEdge(c: Corners): Vec { Sub(c.tr, c.tl) }

  /** The right edge BR - TR. */
  function RightEdge(c: Corners): Vec { Sub(c.br, c.tr) }

  /** The vector `bag_angle` measures: the longer of the top and right edges, the top edge on a tie. */
  function LongEdge(c: Corners): (v: Vec)
    ensures v == TopEdge(c) || v == RightEdge(c)
    ensures SqNorm(v) >= SqNorm(TopEdge(c)) && SqNorm(v) >= SqNorm(RightEdge(c))
    ensures SqNorm(TopEdge(c)) == SqNorm(RightEdge(c)) ==> v == TopEdge(c)
  {
    if SqNorm(TopEdge(c)) >= SqNorm(RightEdge(c)) then TopEdge(c) else RightEdge(c)
  }

  /** `int(a / 2)`: halving with the quotient truncated toward zero. */
  function HalfTruncated(a: int): (h: int)
    ensures a >= 0 ==> 0 <= a - 2 * h <= 1
    ensures a < 0 ==> -1 <= a - 2 * h <= 0
  {
    if a >= 0 then a / 2 else -((-a) / 2)
  }

  /** `((tl + br) / 2).astype(int)`: the midpoint of TL and BR, truncated; it lies in their bounding box. */
  function Center(c: Corners): (m: Point)
    ensures (c.tl.x <= m.x <= c.br.x) || (c.br.x <= m.x <= c.tl.x)
    ensures (c.tl.y <= m.y <= c.br.y) || (c.br.y <= m.y <= c.tl.y)
    ensures -1 <= (c.tl.x + c.br.x) - 2 * m.x <= 1 && -1 <= (c.tl.y + c.br.y) - 2 * m.y <= 1
  {
    Point(HalfTruncated(c.tl.x + c.br.x), HalfTruncated(c.tl.y + c.br.y))
  }
}
