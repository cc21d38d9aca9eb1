/** Bresenham lines in a linear frame buffer of 32-bit pixels. */
module Lines {
  import opened Arith

  type Color = c: int | 0 <= c < 0x1_0000_0000

  datatype Point = Point(x: int, y: int)

  // ----- which points a line is

  /** How far the minor coordinate has moved after `k` steps of the major one: `minor * k / major`, rounded to
      the nearest whole number, halves down. */
  function Minor(major: nat, minor: nat, k: nat): nat
    requires major > 0
  {
    (2 * minor * k + major - 1) / (2 * major)
  }

  /** Twice the distance, times `major`, from `s` up to the ideal minor coordinate. */
  function Error(major: int, minor: int, k: int, s: int): int { 2 * minor * k - 2 * major * s }

  lemma ErrorSteps(major: int, minor: int, k: int, s: int)
    ensures Error(major, minor, 0, 0) == 0 && Error(major, minor, major, minor) == 0
    ensures Error(major, minor, k + 1, s) == Error(major, minor, k, s) + 2 * minor
    ensures Error(major, minor, k, s + 1) == Error(major, minor, k, s) - 2 * major
    ensures Error(major, minor, k + 1, s + 1) == Error(major, minor, k, s) + 2 * minor - 2 * major
  {
  }

  lemma ErrorPastTheEnd(major: nat, minor: nat, k: nat, s: int)
    requires k <= major && s > minor
    ensures Error(major, minor, k, s) <= -2 * major
  {
    ProductIsNatural(minor, major - k);
    ProductIsNatural(major, s - minor - 1);
    assert minor * (major - k) == minor * major - minor * k;
    assert major * (s - minor - 1) == major * s - major * minor - major;
  }

  lemma ProductIsNatural(a: nat, b: nat)
    ensures a * b >= 0
  {
  }

  /** At most half a pixel from the ideal line, below it never by exactly half; only this value is. */
  lemma MinorIsNearest(major: nat, minor: nat, k: nat, s: int)
    requires major > 0
    ensures 0 - major < Error(major, minor, k, s) <= major <==> s == Minor(major, minor, k)
  {
    var n, d := 2 * minor * k + major - 1, 2 * major;
    var q := n / d;
    assert n == q * d + n % d && 0 <= n % d < d;
    assert 2 * major * s == s * d;
    QuotientIsUnique(n, d, s, q);
  }

  lemma QuotientIsUnique(n: int, d: int, s: int, q: int)
    requires d > 0 && 0 <= n - q * d < d
    ensures 0 <= n - s * d < d <==> s == q
  {
    if s < q {
      assert (q - s) * d == q * d - s * d && (q - s) * d >= d by { AtLeastOnce(q - s, d); }
    } else if s > q {
      assert (s - q) * d == s * d - q * d && (s - q) * d >= d by { AtLeastOnce(s - q, d); }
    }
  }

  lemma AtLeastOnce(k: int, d: int)
    requires k >= 1 && d > 0
    ensures k * d >= d
  {
    assert k * d == (k - 1) * d + d;
  }

  /** The minor coordinate starts at its start, ends at its end, and moves by at most one a step. */
  lemma MinorRuns(major: nat, minor: nat, k: nat)
    requires 0 < major && minor <= major && k <= major
    ensures Minor(major, minor, 0) == 0 && Minor(major, minor, major) == minor
    ensures Minor(major, minor, k) <= minor
    ensures k < major ==> 0 <= Minor(major, minor, k + 1) - Minor(major, minor, k) <= 1
  {
    hide Minor, Error;
    var s := Minor(major, minor, k);
    MinorIsNearest(major, minor, k, s);
    MinorIsNearest(major, minor, 0, 0);
    MinorIsNearest(major, minor, major, minor);
    ErrorSteps(major, minor, k, s);
    if s > minor {
      ErrorPastTheEnd(major, minor, k, s);
    }
    MinorIsNearest(major, minor, k + 1, s);
    MinorIsNearest(major, minor, k + 1, s + 1);
  }

  function Abs(v: int): nat { if v < 0 then -v else v }

  /** `s` steps in the direction of `v`. */
  function Towards(v: int, s: int): int { if v < 0 then -s else s }

  /** From left to right, one point for every x but the last. */
  function LowPoints(p: Point, q: Point): seq<Point>
    requires p.x < q.x
  {
    seq(q.x - p.x, k requires 0 <= k < q.x - p.x =>
      Point(p.x + k, p.y + Towards(q.y - p.y, Minor(q.x - p.x, Abs(q.y - p.y), k))))
  }

  /** From top to bottom, one point for every y but the last. */
  function HighPoints(p: Point, q: Point): seq<Point>
    requires p.y < q.y
  {
    seq(q.y - p.y, k requires 0 <= k < q.y - p.y =>
      Point(p.x + Towards(q.x - p.x, Minor(q.y - p.y, Abs(q.x - p.x), k)), p.y + k))
  }

  function Lesser(a: int, b: int): int { if a <= b then a else b }

  function HorizontalPoints(x0: int, x1: int, y: int): seq<Point> {
    seq(Abs(x1 - x0) + 1, k => Point(Lesser(x0, x1) + k, y))
  }

  function VerticalPoints(x: int, y0: int, y1: int): seq<Point> {
    seq(Abs(y1 - y0) + 1, k => Point(x, Lesser(y0, y1) + k))
  }

  /** The points of the line between two points. */
  function LinePoints(p: Point, q: Point): seq<Point> {
    if p.y == q.y then HorizontalPoints(p.x, q.x, p.y)
    else if p.x == q.x then VerticalPoints(p.x, p.y, q.y)
    else if Abs(q.y - p.y) < Abs(q.x - p.x) then (if p.x > q.x then LowPoints(q, p) else LowPoints(p, q))
    else if p.y > q.y then HighPoints(q, p)
    else HighPoints(p, q)
  }

  lemma LowPointsAre(p: Point, q: Point, r: Point)
    requires p.x < q.x
    ensures var dx, dy, rise := q.x - p.x, Abs(q.y - p.y), if q.y < p.y then p.y - r.y else r.y - p.y;
      r in LowPoints(p, q) <==> p.x <= r.x < q.x && 0 - dx < 2 * dy * (r.x - p.x) - 2 * dx * rise <= dx
  {
    hide Minor, Abs;
    var dx, dy, rise := q.x - p.x, Abs(q.y - p.y), if q.y < p.y then p.y - r.y else r.y - p.y;
    if p.x <= r.x < q.x {
      MinorIsNearest(dx, dy, r.x - p.x, rise);
      assert Error(dx, dy, r.x - p.x, rise) == 2 * dy * (r.x - p.x) - 2 * dx * rise;
      assert LowPoints(p, q)[r.x - p.x] in LowPoints(p, q);
    }
    hide Error;
  }

  lemma HighPointsAre(p: Point, q: Point, r: Point)
    requires p.y < q.y
    ensures var dy, dx, run := q.y - p.y, Abs(q.x - p.x), if q.x < p.x then p.x - r.x else r.x - p.x;
      r in HighPoints(p, q) <==> p.y <= r.y < q.y && 0 - dy < 2 * dx * (r.y - p.y) - 2 * dy * run <= dy
  {
    hide Minor, Abs;
    var dy, dx, run := q.y - p.y, Abs(q.x - p.x), if q.x < p.x then p.x - r.x else r.x - p.x;
    if p.y <= r.y < q.y {
      MinorIsNearest(dy, dx, r.y - p.y, run);
      assert Error(dy, dx, r.y - p.y, run) == 2 * dx * (r.y - p.y) - 2 * dy * run;
      assert HighPoints(p, q)[r.y - p.y] in HighPoints(p, q);
    }
    hide Error;
  }

  /** The line in full. A horizontal or upright one is all points between its ends. A flat one has, in each column
      from its left end up to its right one, the point nearest the ideal line, a half taken towards the left end; a
      steep one in each row from its upper end up to its lower one, likewise. */
  lemma LineIs(p: Point, q: Point, r: Point)
    ensures p.y == q.y ==> (r in LinePoints(p, q) <==> r.y == p.y && (p.x <= r.x <= q.x || q.x <= r.x <= p.x))
    ensures p.x == q.x && p.y != q.y ==>
              (r in LinePoints(p, q) <==> r.x == p.x && (p.y <= r.y <= q.y || q.y <= r.y <= p.y))
    ensures p.x != q.x && p.y != q.y && Abs(q.y - p.y) < Abs(q.x - p.x) ==>
              var (a, b) := if p.x < q.x then (p, q) else (q, p);
              var dx, dy, rise := b.x - a.x, Abs(b.y - a.y), if b.y < a.y then a.y - r.y else r.y - a.y;
              (r in LinePoints(p, q) <==>
               a.x <= r.x < b.x && 0 - dx < 2 * dy * (r.x - a.x) - 2 * dx * rise <= dx)
    ensures p.x != q.x && p.y != q.y && Abs(q.y - p.y) >= Abs(q.x - p.x) ==>
              var (a, b) := if p.y < q.y then (p, q) else (q, p);
              var dy, dx, run := b.y - a.y, Abs(b.x - a.x), if b.x < a.x then a.x - r.x else r.x - a.x;
              (r in LinePoints(p, q) <==>
               a.y <= r.y < b.y && 0 - dy < 2 * dx * (r.y - a.y) - 2 * dy * run <= dy)
  {
    hide LowPoints, HighPoints, HorizontalPoints, VerticalPoints;
    if p.y == q.y {
      HorizontalPointsAre(p.x, q.x, p.y, r);
    } else if p.x == q.x {
      VerticalPointsAre(p.x, p.y, q.y, r);
    } else {
      if p.x < q.x { LowPointsAre(p, q, r); } else { LowPointsAre(q, p, r); }
      if p.y < q.y { HighPointsAre(p, q, r); } else { HighPointsAre(q, p, r); }
    }
  }

  lemma HorizontalPointsAre(x0: int, x1: int, y: int, r: Point)
    ensures r in HorizontalPoints(x0, x1, y) <==> r.y == y && (x0 <= r.x <= x1 || x1 <= r.x <= x0)
  {
    var points := HorizontalPoints(x0, x1, y);
    if r.y == y && (x0 <= r.x <= x1 || x1 <= r.x <= x0) {
      assert points[r.x - Lesser(x0, x1)] == r;
    }
  }

  lemma VerticalPointsAre(x: int, y0: int, y1: int, r: Point)
    ensures r in VerticalPoints(x, y0, y1) <==> r.x == x && (y0 <= r.y <= y1 || y1 <= r.y <= y0)
  {
    var points := VerticalPoints(x, y0, y1);
    if r.x == x && (y0 <= r.y <= y1 || y1 <= r.y <= y0) {
      assert points[r.y - Lesser(y0, y1)] == r;
    }
  }

  /** How far `r` lies off the line through `p` and `q`, scaled. */
  function Off(p: Point, q: Point, r: Point): int {
    2 * (q.x - p.x) * (r.y - p.y) - 2 * (q.y - p.y) * (r.x - p.x)
  }

  lemma OffFromEitherEnd(p: Point, q: Point, r: Point)
    ensures Off(q, p, r) == -Off(p, q, r)
  {
  }

  lemma LowOff(p: Point, q: Point, k: nat)
    requires p.x < q.x && k < |LowPoints(p, q)|
    ensures Abs(Off(p, q, LowPoints(p, q)[k])) <= q.x - p.x
  {
    hide Minor;
    var dx, dy := q.x - p.x, q.y - p.y;
    var s := Minor(dx, Abs(dy), k);
    assert Off(p, q, LowPoints(p, q)[k]) == Towards(dy, -Error(dx, Abs(dy), k, s));
    hide Off, Error;
    MinorIsNearest(dx, Abs(dy), k, s);
  }

  lemma HighOff(p: Point, q: Point, k: nat)
    requires p.y < q.y && k < |HighPoints(p, q)|
    ensures Abs(Off(p, q, HighPoints(p, q)[k])) <= q.y - p.y
  {
    hide Minor;
    var dx, dy := q.x - p.x, q.y - p.y;
    var s := Minor(dy, Abs(dx), k);
    assert Off(p, q, HighPoints(p, q)[k]) == Towards(dx, Error(dy, Abs(dx), k, s));
    hide Off, Error;
    MinorIsNearest(dy, Abs(dx), k, s);
  }

  /** Every point lies within half a pixel of the ideal line, measured on the minor axis: `dx * (y - y0)` and
      `dy * (x - x0)` differ by at most half the longer side. */
  lemma PointsAreNearTheLine(p: Point, q: Point, k: nat)
    requires k < |LinePoints(p, q)|
    ensures Abs(Off(p, q, LinePoints(p, q)[k])) <=
            if Abs(q.y - p.y) < Abs(q.x - p.x) then Abs(q.x - p.x) else Abs(q.y - p.y)
  {
    hide Minor, LowPoints, HighPoints, Error;
    var r := LinePoints(p, q)[k];
    if p.y != q.y && p.x != q.x {
      hide Off;
      OffFromEitherEnd(p, q, r);
      if Abs(q.y - p.y) < Abs(q.x - p.x) {
        if p.x > q.x { LowOff(q, p, k); } else { LowOff(p, q, k); }
      } else {
        if p.y > q.y { HighOff(q, p, k); } else { HighOff(p, q, k); }
      }
    }
  }

  /** A line is the same set of points drawn from either end. */
  lemma EitherEndDrawsTheSame(p: Point, q: Point)
    ensures LinePoints(p, q) == LinePoints(q, p)
  {
  }

  predicate Touch(a: Point, b: Point) { Abs(b.x - a.x) <= 1 && Abs(b.y - a.y) <= 1 && a != b }

  lemma LowPointsTouch(p: Point, q: Point, k: nat)
    requires Abs(q.y - p.y) < q.x - p.x && k + 1 < |LowPoints(p, q)|
    ensures Touch(LowPoints(p, q)[k], LowPoints(p, q)[k + 1])
  {
    hide Minor;
    MinorRuns(q.x - p.x, Abs(q.y - p.y), k);
  }

  lemma HighPointsTouch(p: Point, q: Point, k: nat)
    requires Abs(q.x - p.x) <= q.y - p.y && p.y < q.y && k + 1 < |HighPoints(p, q)|
    ensures Touch(HighPoints(p, q)[k], HighPoints(p, q)[k + 1])
  {
    hide Minor;
    MinorRuns(q.y - p.y, Abs(q.x - p.x), k);
  }

  /** Neighbours on a line touch: no gap opens between them. */
  lemma LineHasNoGap(p: Point, q: Point, k: nat)
    requires k + 1 < |LinePoints(p, q)|
    ensures Touch(LinePoints(p, q)[k], LinePoints(p, q)[k + 1])
  {
    hide LowPoints, HighPoints;
    if p.y != q.y && p.x != q.x {
      hide Touch;
      if Abs(q.y - p.y) < Abs(q.x - p.x) {
        if p.x > q.x { LowPointsTouch(q, p, k); } else { LowPointsTouch(p, q, k); }
      } else {
        if p.y > q.y { HighPointsTouch(q, p, k); } else { HighPointsTouch(p, q, k); }
      }
    }
  }

  /** The next point of a slanted line would be its far end: the minor coordinate arrives exactly there. */
  lemma LineArrives(p: Point, q: Point)
    ensures p.x < q.x && Abs(q.y - p.y) < q.x - p.x ==>
        LowPoints(p, q)[0] == p && p.y + Towards(q.y - p.y, Minor(q.x - p.x, Abs(q.y - p.y), q.x - p.x)) == q.y
    ensures p.y < q.y && Abs(q.x - p.x) <= q.y - p.y ==>
        HighPoints(p, q)[0] == p && p.x + Towards(q.x - p.x, Minor(q.y - p.y, Abs(q.x - p.x), q.y - p.y)) == q.x
  {
    hide Minor;
    if p.x < q.x && Abs(q.y - p.y) < q.x - p.x {
      MinorRuns(q.x - p.x, Abs(q.y - p.y), 0);
    }
    if p.y < q.y && Abs(q.x - p.x) <= q.y - p.y {
      MinorRuns(q.y - p.y, Abs(q.x - p.x), 0);
    }
  }

  lemma LowLeavesItsEnd(p: Point, q: Point)
    requires p.x < q.x
    ensures q !in LowPoints(p, q)
  {
    hide Minor;
  }

  lemma HighLeavesItsEnd(p: Point, q: Point)
    requires p.y < q.y
    ensures q !in HighPoints(p, q)
  {
    hide Minor;
  }

  lemma StraightHasItsEnds(p: Point, q: Point)
    requires p.x == q.x || p.y == q.y
    ensures p in LinePoints(p, q) && q in LinePoints(p, q)
  {
    var points := LinePoints(p, q);
    assert points[0] in points && points[|points| - 1] in points;
  }

  /** A line holds both its end points exactly when it is horizontal or upright. */
  lemma BothEndsExactly(p: Point, q: Point)
    ensures p in LinePoints(p, q) && q in LinePoints(p, q) <==> p.x == q.x || p.y == q.y
  {
    hide LowPoints, HighPoints;
    if p.x == q.x || p.y == q.y {
      StraightHasItsEnds(p, q);
    } else if Abs(q.y - p.y) < Abs(q.x - p.x) {
      if p.x > q.x { LowLeavesItsEnd(q, p); } else { LowLeavesItsEnd(p, q); }
    } else {
      if p.y > q.y { HighLeavesItsEnd(q, p); } else { HighLeavesItsEnd(p, q); }
    }
  }

  predicate Between(a: int, v: int, b: int) { a <= v <= b || b <= v <= a }

  /** No point leaves the rectangle the end points span. */
  lemma LineStaysInItsBox(p: Point, q: Point, k: nat)
    requires k < |LinePoints(p, q)|
    ensures var r := LinePoints(p, q)[k]; Between(p.x, r.x, q.x) && Between(p.y, r.y, q.y)
  {
    hide Minor;
    if p.y != q.y && p.x != q.x {
      if Abs(q.y - p.y) < Abs(q.x - p.x) {
        MinorRuns(Abs(q.x - p.x), Abs(q.y - p.y), k);
      } else {
        MinorRuns(Abs(q.y - p.y), Abs(q.x - p.x), k);
      }
    }
  }

  // ----- the frame buffer

  lemma RowsAreApart(a: int, b: int, pitch: nat)
    requires a < b
    ensures a * pitch + pitch <= b * pitch
  {
    assert b * pitch == a * pitch + pitch + (b - a - 1) * pitch;
    assert (b - a - 1) * pitch >= 0;
  }

  /** `width` by `height` pixels of four bytes, rows `pitch` bytes apart. */
  class FrameBuffer {
    const width: nat
    const height: nat
    const pitch: nat
    /** The pixel words by their byte offset. */
    var words: map<int, Color>

    constructor (width: nat, height: nat, pitch: nat)
      requires 4 * width <= pitch && width <= 0x2000_0000 && height <= 0x2000_0000
      ensures Valid() && this.width == width && this.height == height && this.pitch == pitch && words == map[]
    {
      this.width, this.height, this.pitch, words := width, height, pitch, map[];
    }

    predicate Valid() {
      4 * width <= pitch && width <= 0x2000_0000 && height <= 0x2000_0000
    }

    predicate OnScreen(p: Point) { 0 <= p.x < width && 0 <= p.y < height }

    function Offset(p: Point): int { p.y * pitch + p.x * 32 / 8 }

    /** Different pixels are different words, wholly apart. */
    lemma PixelsAreApart(p: Point, q: Point)
      requires Valid() && OnScreen(p) && OnScreen(q) && p != q
      ensures Offset(p) + 4 <= Offset(q) || Offset(q) + 4 <= Offset(p)
    {
      if p.y < q.y {
        RowsAreApart(p.y, q.y, pitch);
      } else if q.y < p.y {
        RowsAreApart(q.y, p.y, pitch);
      }
    }

    function Offsets(points: seq<Point>): set<int> { set p | p in points :: Offset(p) }

    /** The buffer with the points painted and nothing else touched. */
    function Paint(before: map<int, Color>, points: seq<Point>, col: Color): map<int, Color> {
      map a | a in before.Keys + Offsets(points) :: if a in Offsets(points) then col else before[a]
    }

    lemma PaintOneMore(before: map<int, Color>, points: seq<Point>, k: nat, col: Color)
      requires k < |points|
      ensures Paint(before, points[..k], col)[Offset(points[k]) := col] == Paint(before, points[..k + 1], col)
    {
      hide Offset;
      assert points[..k + 1] == points[..k] + [points[k]];
      assert Offsets(points[..k + 1]) == Offsets(points[..k]) + {Offset(points[k])};
    }

    lemma PaintNothing(before: map<int, Color>, points: seq<Point>, col: Color)
      ensures Paint(before, points[..0], col) == before
    {
      assert Offsets(points[..0]) == {};
    }

    /** Painting some of the points again changes nothing. */
    lemma PaintAgain(before: map<int, Color>, points: seq<Point>, again: seq<Point>, col: Color)
      requires forall p :: p in again ==> p in points
      ensures Paint(Paint(before, points, col), again, col) == Paint(before, points, col)
    {
      hide Offset;
      assert Offsets(again) <= Offsets(points);
    }

    method DrawPixel(x: int, y: int, col: Color)
      requires OnScreen(Point(x, y))
      modifies this
      ensures words == old(words)[Offset(Point(x, y)) := col] == old(words)[y * pitch + 4 * x := col]
    {
      words := words[y * pitch + x * 32 / 8 := col];
    }

    method DrawLineLow(x0: int, y0: int, x1: int, y1: int, col: Color)
      requires Valid() && OnScreen(Point(x0, y0)) && OnScreen(Point(x1, y1)) && Abs(y1 - y0) < x1 - x0
      modifies this
      ensures words == Paint(old(words), LowPoints(Point(x0, y0), Point(x1, y1)), col)
    {
      hide Minor, Paint, Offset, Error;
      var dx, dy, yi := x1 - x0, y1 - y0, 1;
      if dy < 0 {
        yi, dy := -1, -dy;
      }
      ghost var points := LowPoints(Point(x0, y0), Point(x1, y1));
      var D, y := 2 * dy - dx, y0;
      ghost var s := 0;
      PaintNothing(words, points, col);
      MinorRuns(dx, dy, 0);
      ErrorSteps(dx, dy, 0, 0);
      for x := x0 to x1
        invariant s == Minor(dx, dy, x - x0) && y == y0 + Towards(yi, s)
        invariant D == 2 * dy - dx + Error(dx, dy, x - x0, s)
        invariant words == Paint(old(words), points[..x - x0], col)
      {
        ghost var k := x - x0;
        MinorRuns(dx, dy, k);
        assert points[k] == Point(x, y);
        PaintOneMore(old(words), points, k, col);
        DrawPixel(x, y, col);
        NextMinor(dx, dy, k, s);
        assert FitsInt(D);
        if D > 0 {
          y := y + yi;
          D := D - 2 * dx;
          s := s + 1;
        }
        D := D + 2 * dy;
      }
      assert points[..x1 - x0] == points;
    }

    method DrawLineHigh(x0: int, y0: int, x1: int, y1: int, col: Color)
      requires Valid() && OnScreen(Point(x0, y0)) && OnScreen(Point(x1, y1)) && Abs(x1 - x0) <= y1 - y0 && y0 < y1
      modifies this
      ensures words == Paint(old(words), HighPoints(Point(x0, y0), Point(x1, y1)), col)
    {
      hide Minor, Paint, Offset, Error;
      var dx, dy, xi := x1 - x0, y1 - y0, 1;
      if dx < 0 {
        xi, dx := -1, -dx;
      }
      ghost var points := HighPoints(Point(x0, y0), Point(x1, y1));
      var D, x := 2 * dx - dy, x0;
      ghost var s := 0;
      PaintNothing(words, points, col);
      MinorRuns(dy, dx, 0);
      ErrorSteps(dy, dx, 0, 0);
      for y := y0 to y1
        invariant s == Minor(dy, dx, y - y0) && x == x0 + Towards(xi, s)
        invariant D == 2 * dx - dy + Error(dy, dx, y - y0, s)
        invariant words == Paint(old(words), points[..y - y0], col)
      {
        ghost var k := y - y0;
        MinorRuns(dy, dx, k);
        assert points[k] == Point(x, y);
        PaintOneMore(old(words), points, k, col);
        DrawPixel(x, y, col);
        NextMinor(dy, dx, k, s);
        assert FitsInt(D);
        if D > 0 {
          x := x + xi;
          D := D + 2 * (dx - dy);
          s := s + 1;
        } else {
          D := D + 2 * dx;
        }
      }
      assert points[..y1 - y0] == points;
    }

    method DrawLineHorizontal(from: int, end: int, y: int, col: Color)
      requires Valid() && OnScreen(Point(from, y)) && OnScreen(Point(end, y))
      modifies this
      ensures words == Paint(old(words), HorizontalPoints(from, end, y), col)
    {
      hide Paint;
      var x0, x1 := from, end;
      if x0 > x1 {
        x0, x1 := x1, x0;
      }
      ghost var points := HorizontalPoints(from, end, y);
      var offset := y * pitch + x0 * 32 / 8;
      PaintNothing(words, points, col);
      for i := 0 to x1 - x0 + 1
        invariant words == Paint(old(words), points[..i], col)
      {
        assert points[i] == Point(x0 + i, y) && Offset(points[i]) == offset + 4 * i;
        PaintOneMore(old(words), points, i, col);
        words := words[offset + 4 * i := col];
      }
      assert points[..x1 - x0 + 1] == points;
    }

    lemma NextRow(x: int, y: int)
      ensures Offset(Point(x, y + 1)) == Offset(Point(x, y)) + pitch
    {
    }

    method DrawLineVertical(x: int, from: int, end: int, col: Color)
      requires Valid() && OnScreen(Point(x, from)) && OnScreen(Point(x, end))
      modifies this
      ensures words == Paint(old(words), VerticalPoints(x, from, end), col)
    {
      hide Paint, Offset;
      var y0, y1 := from, end;
      if y0 > y1 {
        y0, y1 := y1, y0;
      }
      ghost var points := VerticalPoints(x, from, end);
      var offset := Offset(Point(x, y0));
      PaintNothing(words, points, col);
      for i := 0 to y1 - y0 + 1
        invariant offset == Offset(Point(x, y0 + i)) && words == Paint(old(words), points[..i], col)
      {
        assert points[i] == Point(x, y0 + i);
        PaintOneMore(old(words), points, i, col);
        words := words[offset := col];
        NextRow(x, y0 + i);
        offset := offset + pitch;
      }
      assert points[..y1 - y0 + 1] == points;
    }

    /** An upright line is drawn twice, the second time without its last point. */
    method DrawLine(x0: int, y0: int, x1: int, y1: int, col: Color)
      requires Valid() && OnScreen(Point(x0, y0)) && OnScreen(Point(x1, y1))
      modifies this
      ensures words == Paint(old(words), LinePoints(Point(x0, y0), Point(x1, y1)), col)
    {
      hide Paint, LowPoints, HighPoints;
      if y0 == y1 {
        DrawLineHorizontal(x0, x1, y0, col);
        return;
      }
      if x0 == x1 {
        DrawLineVertical(x0, y0, y1, col);
        UprightAgain(x0, y0, y1);
        ghost var top := Lesser(y0, y1);
        ghost var again := HighPoints(Point(x0, top), Point(x0, y0 + y1 - top));
        PaintAgain(old(words), VerticalPoints(x0, y0, y1), again, col);
      }
      if Abs(y1 - y0) < Abs(x1 - x0) {
        if x0 > x1 {
          DrawLineLow(x1, y1, x0, y0, col);
        } else {
          DrawLineLow(x0, y0, x1, y1, col);
        }
      } else {
        if y0 > y1 {
          DrawLineHigh(x1, y1, x0, y0, col);
        } else {
          DrawLineHigh(x0, y0, x1, y1, col);
        }
      }
    }

    /** Reading a pixel after painting: the colour for the points painted, the old word for all the others. */
    lemma PaintShows(before: map<int, Color>, points: seq<Point>, col: Color, r: Point)
      requires Valid() && OnScreen(r) && forall p :: p in points ==> OnScreen(p)
      ensures var after := Paint(before, points, col);
        && (r in points ==> Offset(r) in after && after[Offset(r)] == col)
        && (r !in points ==> (Offset(r) in after <==> Offset(r) in before)
                             && (Offset(r) in before ==> after[Offset(r)] == before[Offset(r)]))
    {
      hide Offset;
      if r !in points && Offset(r) in Offsets(points) {
        var p :| p in points && Offset(p) == Offset(r);
        PixelsAreApart(p, r);
      }
    }
  }

  lemma UprightAgain(x: int, y0: int, y1: int)
    requires y0 != y1
    ensures var top := Lesser(y0, y1);
      forall r :: r in HighPoints(Point(x, top), Point(x, y0 + y1 - top)) ==> r in VerticalPoints(x, y0, y1)
  {
    hide Minor;
    var top := Lesser(y0, y1);
    var again, points := HighPoints(Point(x, top), Point(x, y0 + y1 - top)), VerticalPoints(x, y0, y1);
    forall r | r in again ensures r in points {
      var k :| 0 <= k < |again| && again[k] == r;
      MinorRuns(|again|, 0, k);
      assert points[k] == r;
    }
  }

  /** The sign of the error term picks the next minor coordinate. */
  lemma NextMinor(major: nat, minor: nat, k: nat, s: nat)
    requires 0 < major && minor <= major && s == Minor(major, minor, k)
    ensures var D := 2 * minor - major + Error(major, minor, k, s);
      && Minor(major, minor, k + 1) == (if D > 0 then s + 1 else s)
      && 2 * minor - 2 * major <= D <= 2 * minor
    ensures Error(major, minor, k + 1, s) == Error(major, minor, k, s) + 2 * minor
    ensures Error(major, minor, k + 1, s + 1) == Error(major, minor, k, s) + 2 * minor - 2 * major
  {
    hide Minor, Error;
    MinorIsNearest(major, minor, k, s);
    ErrorSteps(major, minor, k, s);
    MinorIsNearest(major, minor, k + 1, s);
    MinorIsNearest(major, minor, k + 1, s + 1);
  }
}
