/** The chart curve: piecewise quadratic Bezier arcs through the data points, and the length of a path up to an x.
    `CGFloat` is `real`; the distance, a square root, is a function argument of which only its square is assumed. */
module ChartPath {
  datatype Point = Point(x: real, y: real)

  type Distance = (Point, Point) -> real

  function Square(r: real): real {
    r * r
  }

  function Times(s: real, w: real): real {
    s * w
  }

  /** `dist` is the non-negative square root of the squared coordinate differences. */
  ghost predicate IsEuclidean(dist: Distance) {
    forall a: Point, b: Point :: dist(a, b) >= 0.0 && Square(dist(a, b)) == Square(a.x - b.x) + Square(a.y - b.y)
  }

  datatype Element = Move(to: Point) | Line(to: Point) | Quad(to: Point, control: Point)

  // ---------- Points of lines and arcs ----------

  /** The point of the line through `a` and `b` above `x`. */
  function PointAt(a: Point, b: Point, x: real): Point
    requires a.x != b.x
  {
    var slope := (b.y - a.y) / (b.x - a.x);
    Point(x, a.y + (x - a.x) * slope)
  }

  function Value(from: real, to: real, t: real, c: real): real {
    Square(1.0 - t) * from + 2.0 * (1.0 - t) * t * c + Square(t) * to
  }

  function ArcPoint(from: Point, to: Point, t: real, control: Point): Point {
    Point(Value(from.x, to.x, t, control.x), Value(from.y, to.y, t, control.y))
  }

  const STEPS: nat := 100

  // ---------- A path as the chords along which it is measured ----------

  datatype Chord = Chord(a: Point, b: Point)

  /** The point of an arc at the i-th of its hundred steps. */
  function Sample(from: Point, to: Point, control: Point, i: nat): Point {
    ArcPoint(from, to, i as real / STEPS as real, control)
  }

  function ArcChords(from: Point, to: Point, control: Point): (cs: seq<Chord>)
    ensures |cs| == STEPS
  {
    seq(STEPS, i requires 0 <= i < STEPS => Chord(Sample(from, to, control, i), Sample(from, to, control, i + 1)))
  }

  function ElementChords(pen: Point, e: Element): seq<Chord> {
    match e
    case Move(_) => []
    case Line(to) => [Chord(pen, to)]
    case Quad(to, control) => ArcChords(pen, to, control)
  }

  function PenAfter(path: seq<Element>): Point {
    if path == [] then Point(0.0, 0.0) else path[|path| - 1].to
  }

  /** The chords in drawing order. */
  function Chords(path: seq<Element>): seq<Chord> {
    if path == [] then []
    else
      var before := path[..|path| - 1];
      Chords(before) + ElementChords(PenAfter(before), path[|path| - 1])
  }

  function Total(cs: seq<Chord>, dist: Distance): real {
    if cs == [] then 0.0
    else Total(cs[..|cs| - 1], dist) + dist(cs[|cs| - 1].a, cs[|cs| - 1].b)
  }

  /** The share of a chord that lies to the left of `x`. */
  function Share(c: Chord, x: real): real
    requires c.a.x < c.b.x
  {
    if x <= c.a.x then 0.0 else if x >= c.b.x then 1.0 else (x - c.a.x) / (c.b.x - c.a.x)
  }

  predicate Rightward(cs: seq<Chord>) {
    forall i :: 0 <= i < |cs| ==> cs[i].a.x < cs[i].b.x
  }

  function PartLeftOf(c: Chord, x: real, dist: Distance): real
    requires c.a.x < c.b.x
  {
    Times(Share(c, x), dist(c.a, c.b))
  }

  /** No chord begins before an earlier one has ended. */
  ghost predicate Ordered(cs: seq<Chord>) {
    forall i, j :: 0 <= i < j < |cs| ==> cs[i].b.x <= cs[j].a.x
  }

  /** The length of what lies to the left of `x`. */
  function TotalLeftOf(cs: seq<Chord>, x: real, dist: Distance): real
    requires Rightward(cs)
  {
    if cs == [] then 0.0
    else TotalLeftOf(cs[..|cs| - 1], x, dist) + PartLeftOf(cs[|cs| - 1], x, dist)
  }

  /** The chords of an arc run left to right, from the pen's x to the arc's end. */
  predicate RunsRightward(pen: Point, e: Element) {
    match e
    case Move(to) => pen.x <= to.x
    case Line(to) => pen.x < to.x
    case Quad(to, control) => pen.x < to.x && control.x == (pen.x + to.x) / 2.0
  }

  /** The path begins by placing the pen and never goes back to the left. */
  predicate Forward(path: seq<Element>) {
    path == [] || (path[0].Move? && ForwardAfterFirst(path))
  }

  predicate ForwardAfterFirst(path: seq<Element>) {
    forall i :: 1 <= i < |path| ==> RunsRightward(path[i - 1].to, path[i])
  }

  // ---------- Sums of chords ----------

  lemma {:induction false} TotalConcat(a: seq<Chord>, b: seq<Chord>, dist: Distance)
    ensures Total(a + b, dist) == Total(a, dist) + Total(b, dist)
    decreases |b|
  {
    if b == [] {
      assert a + b == a;
    } else {
      assert (a + b)[..|a + b| - 1] == a + b[..|b| - 1];
      TotalConcat(a, b[..|b| - 1], dist);
    }
  }

  lemma {:induction false} TotalLeftOfConcat(a: seq<Chord>, b: seq<Chord>, x: real, dist: Distance)
    requires Rightward(a) && Rightward(b)
    ensures Rightward(a + b)
    ensures TotalLeftOf(a + b, x, dist) == TotalLeftOf(a, x, dist) + TotalLeftOf(b, x, dist)
    decreases |b|
  {
    if b == [] {
      assert a + b == a;
    } else {
      assert (a + b)[..|a + b| - 1] == a + b[..|b| - 1];
      TotalLeftOfConcat(a, b[..|b| - 1], x, dist);
    }
  }

  /** Chords wholly to the right contribute nothing, chords wholly to the left all of their length. */
  lemma {:induction false} BeyondAndBefore(cs: seq<Chord>, x: real, dist: Distance)
    requires Rightward(cs)
    ensures (forall i :: 0 <= i < |cs| ==> x <= cs[i].a.x) ==> TotalLeftOf(cs, x, dist) == 0.0
    ensures (forall i :: 0 <= i < |cs| ==> cs[i].b.x <= x) ==> TotalLeftOf(cs, x, dist) == Total(cs, dist)
  {
    if cs != [] {
      BeyondAndBefore(cs[..|cs| - 1], x, dist);
    }
  }

  lemma ShareRange(c: Chord, x: real, x': real)
    requires c.a.x < c.b.x && x <= x'
    ensures 0.0 <= Share(c, x) <= Share(c, x') <= 1.0
  {
    var w := c.b.x - c.a.x;
    if c.a.x < x < c.b.x {
      Quotient(x - c.a.x, w);
    }
    if c.a.x < x' < c.b.x {
      Quotient(x' - c.a.x, w);
    }
    if c.a.x < x && x' < c.b.x {
      QuotientGrows(x - c.a.x, x' - c.a.x, w);
    }
  }

  lemma Quotient(n: real, d: real)
    requires 0.0 < d
    ensures (n / d) * d == n
    ensures 0.0 <= n <= d ==> 0.0 <= n / d <= 1.0
  {}

  lemma QuotientGrows(n: real, m: real, d: real)
    requires 0.0 < d && n <= m
    ensures n / d <= m / d
  {}

  lemma PartRange(c: Chord, x: real, x': real, dist: Distance)
    requires c.a.x < c.b.x && x <= x' && IsEuclidean(dist)
    ensures 0.0 <= PartLeftOf(c, x, dist) <= PartLeftOf(c, x', dist) <= dist(c.a, c.b)
  {
    ShareRange(c, x, x');
    Scaled(Share(c, x), Share(c, x'), dist(c.a, c.b));
  }

  /** The length to the left of `x` lies between nothing and the whole, and grows with `x`. */
  lemma {:induction false} TotalLeftOfRange(cs: seq<Chord>, x: real, x': real, dist: Distance)
    requires Rightward(cs) && x <= x' && IsEuclidean(dist)
    ensures 0.0 <= TotalLeftOf(cs, x, dist) <= TotalLeftOf(cs, x', dist) <= Total(cs, dist)
  {
    if cs != [] {
      TotalLeftOfRange(cs[..|cs| - 1], x, x', dist);
      PartRange(cs[|cs| - 1], x, x', dist);
    }
  }

  lemma Scaled(s: real, s': real, d: real)
    requires 0.0 <= s <= s' <= 1.0 && 0.0 <= d
    ensures 0.0 <= Times(s, d) <= Times(s', d) <= d
  {}

  lemma ScaledOther(s: real, w: real)
    ensures Times(s, -w) == -Times(s, w)
  {}

  // ---------- The partial chord ----------

  lemma EqualSquares(p: real, q: real)
    requires p >= 0.0 && q >= 0.0 && Square(p) == Square(q)
    ensures p == q
  {
    if p < q {
      SquareGrows(p, q);
    } else if q < p {
      SquareGrows(q, p);
    }
  }

  lemma SquareGrows(p: real, q: real)
    requires 0.0 <= p < q
    ensures Square(p) < Square(q)
  {
    var e := q - p;
    assert q == p + e;
    assert Square(q) == Square(p) + 2.0 * p * e + e * e;
    assert e * e > 0.0 && p * e >= 0.0;
  }

  lemma SquareOfProduct(p: real, q: real)
    ensures Square(Times(p, q)) == Times(Square(p), Square(q))
  {
    assert p * q * (p * q) == p * p * (q * q);
  }

  lemma ShareTimesWidth(u: real, w: real, h: real)
    requires w != 0.0
    ensures Times(u / w, w) == u
    ensures Times(u, h / w) == Times(u / w, h)
  {}

  lemma TimesSum(s: real, p: real, q: real)
    ensures Times(s, p + q) == Times(s, p) + Times(s, q)
  {}

  lemma SquareOfScaled(s: real, w: real, h: real, d: real)
    requires Square(d) == Square(w) + Square(h)
    ensures Square(Times(s, d)) == Square(Times(s, w)) + Square(Times(s, h))
  {
    SquareOfProduct(s, w);
    SquareOfProduct(s, h);
    SquareOfProduct(s, d);
    TimesSum(Square(s), Square(w), Square(h));
  }

  lemma ScaledRoot(s: real, w: real, h: real, d: real, part: real)
    requires 0.0 <= s <= 1.0 && 0.0 <= d && 0.0 <= part
    requires Square(d) == Square(w) + Square(h) && Square(part) == Square(Times(s, w)) + Square(Times(s, h))
    ensures part == Times(s, d)
  {
    SquareOfScaled(s, w, h, d);
    Scaled(s, s, d);
    EqualSquares(part, Times(s, d));
  }

  /** `PointAt` as a share of the way. */
  lemma PointAtShare(c: Chord, x: real)
    requires c.a.x <= x < c.b.x
    ensures var s := Share(c, x);
      && 0.0 <= s <= 1.0
      && x - c.a.x == Times(s, c.b.x - c.a.x)
      && PointAt(c.a, c.b, x).y - c.a.y == Times(s, c.b.y - c.a.y)
  {
    var u, w, h := x - c.a.x, c.b.x - c.a.x, c.b.y - c.a.y;
    ShareRange(c, x, x);
    ShareTimesWidth(u, w, h);
    assert PointAt(c.a, c.b, x).y == c.a.y + Times(u, h / w);
  }

  /** The distance to the point of a chord above `x` is that share of the chord's length. */
  lemma PartialChord(c: Chord, x: real, dist: Distance)
    requires IsEuclidean(dist) && c.a.x <= x < c.b.x
    ensures dist(c.a, PointAt(c.a, c.b, x)) == PartLeftOf(c, x, dist)
  {
    var s, p, w, h := Share(c, x), PointAt(c.a, c.b, x), c.b.x - c.a.x, c.b.y - c.a.y;
    PointAtShare(c, x);
    DifferenceSquares(c.a, p);
    DifferenceSquares(c.a, c.b);
    assert Square(dist(c.a, p)) == Square(Times(s, w)) + Square(Times(s, h));
    ScaledRoot(s, w, h, dist(c.a, c.b), dist(c.a, p));
  }

  lemma DifferenceSquares(a: Point, b: Point)
    ensures Square(a.x - b.x) == Square(b.x - a.x) && Square(a.y - b.y) == Square(b.y - a.y)
  {
    SquareOfNegation(b.x - a.x);
    SquareOfNegation(b.y - a.y);
  }

  lemma SquareOfNegation(p: real)
    ensures Square(-p) == Square(p)
  {}

  // ---------- Arcs whose control point lies halfway ----------

  /** Then x is linear along the arc. */
  lemma LinearX(from: real, to: real, t: real)
    ensures Value(from, to, t, (from + to) / 2.0) == from + Times(t, to - from)
  {
    var c := (from + to) / 2.0;
    assert 2.0 * c == from + to;
    assert Value(from, to, t, c) == (1.0 - 2.0 * t + t * t) * from + (1.0 - t) * t * (2.0 * c) + t * t * to;
    assert (1.0 - t) * t * (from + to) == t * from + t * to - t * t * from - t * t * to;
  }

  lemma StepFraction(i: nat, j: nat)
    requires i <= j <= STEPS
    ensures 0.0 <= i as real / STEPS as real <= j as real / STEPS as real <= 1.0
    ensures i < j ==> i as real / STEPS as real < j as real / STEPS as real
  {}

  lemma StrictlyScaled(s: real, t: real, w: real)
    requires 0.0 < w && s < t
    ensures Times(s, w) < Times(t, w)
  {
    assert (t - s) * w > 0.0;
  }

  lemma SampleX(pen: Point, to: Point, control: Point, i: nat)
    requires RunsRightward(pen, Quad(to, control))
    ensures Sample(pen, to, control, i).x == pen.x + Times(i as real / STEPS as real, to.x - pen.x)
  {
    LinearX(pen.x, to.x, i as real / STEPS as real);
  }

  lemma SamplesAscend(pen: Point, to: Point, control: Point, i: nat, j: nat)
    requires RunsRightward(pen, Quad(to, control)) && i <= j <= STEPS
    ensures pen.x <= Sample(pen, to, control, i).x <= Sample(pen, to, control, j).x <= to.x
    ensures i < j ==> Sample(pen, to, control, i).x < Sample(pen, to, control, j).x
  {
    SampleX(pen, to, control, i);
    SampleX(pen, to, control, j);
    StepFraction(i, j);
    Scaled(i as real / STEPS as real, j as real / STEPS as real, to.x - pen.x);
    if i < j {
      StrictlyScaled(i as real / STEPS as real, j as real / STEPS as real, to.x - pen.x);
    }
  }

  /** The chords of such an arc run rightward, in order, within its x range. */
  lemma ArcRunsRightward(pen: Point, to: Point, control: Point)
    requires RunsRightward(pen, Quad(to, control))
    ensures var cs := ArcChords(pen, to, control);
      && Rightward(cs) && Ordered(cs)
      && Within(cs, pen.x, to.x)
  {
    var cs := ArcChords(pen, to, control);
    forall i | 0 <= i < STEPS ensures pen.x <= cs[i].a.x < cs[i].b.x <= to.x {
      SamplesAscend(pen, to, control, i, i + 1);
    }
    forall i, j | 0 <= i < j < STEPS ensures cs[i].b.x <= cs[j].a.x {
      SamplesAscend(pen, to, control, i + 1, j);
    }
  }

  lemma ElementRunsRightward(pen: Point, e: Element)
    requires RunsRightward(pen, e)
    ensures var cs := ElementChords(pen, e);
      && Rightward(cs) && Ordered(cs)
      && Within(cs, pen.x, e.to.x)
  {
    if e.Quad? {
      ArcRunsRightward(pen, e.to, e.control);
    }
  }

  /** Every chord of `cs` lies between `lo` and `hi`. */
  ghost predicate Within(cs: seq<Chord>, lo: real, hi: real) {
    forall i :: 0 <= i < |cs| ==> lo <= cs[i].a.x && cs[i].b.x <= hi
  }

  lemma AppendedInOrder(cs: seq<Chord>, added: seq<Chord>, lo: real, mid: real, hi: real)
    requires Rightward(cs) && Ordered(cs) && Within(cs, lo, mid)
    requires Rightward(added) && Ordered(added) && Within(added, mid, hi) && lo <= mid <= hi
    ensures Rightward(cs + added) && Ordered(cs + added) && Within(cs + added, lo, hi)
  {}

  /** A forward path is a list of rightward chords between its first point and its pen. */
  lemma {:induction false} ForwardIsRightward(path: seq<Element>)
    requires Forward(path)
    ensures Rightward(Chords(path)) && Ordered(Chords(path))
    ensures path != [] ==> path[0].to.x <= PenAfter(path).x && Within(Chords(path), path[0].to.x, PenAfter(path).x)
  {
    if |path| > 1 {
      var before, e := path[..|path| - 1], path[|path| - 1];
      assert RunsRightward(path[|path| - 2].to, e);
      ForwardIsRightward(before);
      ElementRunsRightward(PenAfter(before), e);
      AppendedInOrder(Chords(before), ElementChords(PenAfter(before), e), path[0].to.x, PenAfter(before).x, e.to.x);
    } else if |path| == 1 {
      assert Chords(path[..0]) == [];
    }
  }

  /** A line counts for its length. */
  lemma LineCounts(a: Point, b: Point, dist: Distance)
    ensures Total(Chords([Move(a), Line(b)]), dist) == dist(a, b)
  {
    var path := [Move(a), Line(b)];
    assert path[..1] == [Move(a)] && path[..1][..0] == [];
    assert Chords([Move(a)]) == [] && Chords(path) == [Chord(a, b)];
    assert [Chord(a, b)][..0] == [];
  }

  /** An arc is measured along a hundred chords, end to end, through the points of the Bezier curve. */
  lemma ArcIsMeasured(pen: Point, to: Point, control: Point, i: nat)
    requires i < 100
    ensures var cs := ElementChords(pen, Quad(to, control));
      && |cs| == 100 && cs[0].a == pen && cs[99].b == to
      && (i < 99 ==> cs[i].b == cs[i + 1].a)
      && cs[i].b == ArcPoint(pen, to, (i + 1) as real / 100.0, control)
  {
    assert Square(1.0) == 1.0 && Square(0.0) == 0.0;
    assert Value(pen.x, to.x, 0.0, control.x) == pen.x && Value(pen.y, to.y, 0.0, control.y) == pen.y;
    assert Value(pen.x, to.x, 1.0, control.x) == to.x && Value(pen.y, to.y, 1.0, control.y) == to.y;
  }

  // ---------- Lengths ----------

  /** Once `x` is reached the rest contributes nothing. */
  lemma RestIsBeyond(cs: seq<Chord>, i: nat, x: real, dist: Distance)
    requires Rightward(cs) && Ordered(cs) && i <= |cs| && (i < |cs| ==> x <= cs[i].a.x)
    ensures TotalLeftOf(cs, x, dist) == TotalLeftOf(cs[..i], x, dist)
  {
    assert cs == cs[..i] + cs[i..];
    forall k | i <= k < |cs| ensures x <= cs[k].a.x {}
    BeyondAndBefore(cs[i..], x, dist);
    TotalLeftOfConcat(cs[..i], cs[i..], x, dist);
  }

  /** The hundred steps along an arc. */
  method QuadCurve(from: Point, to: Point, control: Point, dist: Distance) returns (d: real)
    ensures d == Total(ArcChords(from, to, control), dist)
  {
    d := 0.0;
    ghost var cs := ArcChords(from, to, control);
    for i := 0 to STEPS
      invariant d == Total(cs[..i], dist)
    {
      var a, b := Sample(from, to, control, i), Sample(from, to, control, i + 1);
      assert cs[..i + 1][..i] == cs[..i];
      d := d + dist(a, b);
    }
    assert cs[..STEPS] == cs;
  }

  /** The length of a path. */
  method Length(path: seq<Element>, dist: Distance) returns (ret: real)
    ensures ret == Total(Chords(path), dist)
  {
    ret := 0.0;
    var point := Point(0.0, 0.0);
    for i := 0 to |path|
      invariant point == PenAfter(path[..i]) && ret == Total(Chords(path[..i]), dist)
    {
      assert path[..i + 1][..i] == path[..i];
      TotalConcat(Chords(path[..i]), ElementChords(point, path[i]), dist);
      match path[i]
      case Move(to) =>
        point := to;
      case Line(to) =>
        ret := ret + dist(point, to);
        assert ElementChords(PenAfter(path[..i]), path[i])[..0] == [];
        point := to;
      case Quad(to, control) =>
        var d := QuadCurve(point, to, control, dist);
        ret := ret + d;
        point := to;
    }
    assert path[..|path|] == path;
  }

  /** What the chord at `i` adds, and when it is the last to add anything. */
  lemma NextChord(cs: seq<Chord>, i: nat, x: real, dist: Distance)
    requires Rightward(cs) && Ordered(cs) && i < |cs| && IsEuclidean(dist)
    ensures var (a, b) := (cs[i].a, cs[i].b);
      && (x <= a.x ==> TotalLeftOf(cs, x, dist) == TotalLeftOf(cs[..i], x, dist))
      && (a.x <= x < b.x ==> TotalLeftOf(cs, x, dist) == TotalLeftOf(cs[..i], x, dist) + dist(a, PointAt(a, b, x)))
      && (x == b.x ==> TotalLeftOf(cs, x, dist) == TotalLeftOf(cs[..i], x, dist) + dist(a, b))
      && (b.x <= x ==> TotalLeftOf(cs[..i + 1], x, dist) == TotalLeftOf(cs[..i], x, dist) + dist(a, b))
  {
    var (a, b) := (cs[i].a, cs[i].b);
    assert cs[..i + 1][..i] == cs[..i];
    assert TotalLeftOf(cs[..i + 1], x, dist) == TotalLeftOf(cs[..i], x, dist) + PartLeftOf(cs[i], x, dist);
    if x <= a.x {
      RestIsBeyond(cs, i, x, dist);
    }
    if a.x <= x < b.x {
      PartialChord(cs[i], x, dist);
    }
    if x <= b.x {
      RestIsBeyond(cs, i + 1, x, dist);
    }
  }

  /** The part of an arc to the left of `x`, with its three early exits. */
  method QuadCurveTo(from: Point, to: Point, control: Point, x: real, dist: Distance) returns (d: real)
    requires RunsRightward(from, Quad(to, control)) && IsEuclidean(dist)
    ensures Rightward(ArcChords(from, to, control))
    ensures d == TotalLeftOf(ArcChords(from, to, control), x, dist)
  {
    d := 0.0;
    ghost var cs := ArcChords(from, to, control);
    ArcRunsRightward(from, to, control);
    assert cs[..0] == [];
    for i := 0 to STEPS
      invariant d == TotalLeftOf(cs[..i], x, dist)
    {
      var a, b := Sample(from, to, control, i), Sample(from, to, control, i + 1);
      assert cs[i] == Chord(a, b) && a.x < b.x;
      NextChord(cs, i, x, dist);
      if a.x >= x {
        return;
      } else if b.x > x {
        d := d + dist(a, PointAt(a, b, x));
        return;
      } else if b.x == x {
        d := d + dist(a, b);
        return;
      }
      d := d + dist(a, b);
    }
    assert cs[..STEPS] == cs;
  }

  /** What a line or an arc from `point` adds up to `maxX`. */
  method ElementLengthTo(point: Point, e: Element, maxX: real, dist: Distance) returns (d: real)
    requires !e.Move? && RunsRightward(point, e) && IsEuclidean(dist) && point.x <= maxX
    ensures Rightward(ElementChords(point, e))
    ensures d == TotalLeftOf(ElementChords(point, e), maxX, dist)
  {
    ghost var cs := ElementChords(point, e);
    ElementRunsRightward(point, e);
    match e
    case Line(to) =>
      assert cs[..0] == [] && cs[..1] == cs;
      NextChord(cs, 0, maxX, dist);
      if to.x > maxX {
        d := dist(point, PointAt(point, to, maxX));
      } else {
        d := dist(point, to);
      }
    case Quad(to, control) =>
      if to.x > maxX {
        d := QuadCurveTo(point, to, control, maxX, dist);
      } else {
        BeyondAndBefore(cs, maxX, dist);
        d := QuadCurve(point, to, control, dist);
      }
  }

  lemma {:induction false} PartsRightward(path: seq<Element>, i: nat)
    requires Forward(path) && i <= |path|
    ensures Rightward(Chords(path[..i]))
    ensures i < |path| ==> Rightward(ElementChords(PenAfter(path[..i]), path[i]))
  {
    assert Forward(path[..i]);
    ForwardIsRightward(path[..i]);
    if 0 < i < |path| {
      assert RunsRightward(path[i - 1].to, path[i]);
      ElementRunsRightward(PenAfter(path[..i]), path[i]);
    }
  }

  /** The length to the left of `x` of the first `i` elements. */
  ghost function LengthUpTo(path: seq<Element>, i: nat, x: real, dist: Distance): real
    requires Forward(path) && i <= |path|
  {
    PartsRightward(path, i);
    TotalLeftOf(Chords(path[..i]), x, dist)
  }

  /** What the element at `i` adds to it. */
  ghost function LengthOfElement(path: seq<Element>, i: nat, x: real, dist: Distance): real
    requires Forward(path) && i < |path|
  {
    PartsRightward(path, i);
    TotalLeftOf(ElementChords(PenAfter(path[..i]), path[i]), x, dist)
  }

  /** One element more. */
  lemma {:induction false} ForwardStep(path: seq<Element>, i: nat, x: real, dist: Distance)
    requires Forward(path) && i < |path|
    ensures LengthUpTo(path, i + 1, x, dist) == LengthUpTo(path, i, x, dist) + LengthOfElement(path, i, x, dist)
    ensures i > 0 && x <= PenAfter(path[..i]).x ==> LengthOfElement(path, i, x, dist) == 0.0
    ensures path[i].Move? ==> LengthOfElement(path, i, x, dist) == 0.0
    ensures PenAfter(path[..i + 1]) == path[i].to
    ensures i == 0 ==> path[i].Move?
    ensures i > 0 ==> RunsRightward(PenAfter(path[..i]), path[i]) && PenAfter(path[..i]).x <= path[i].to.x
  {
    var pen := PenAfter(path[..i]);
    var added := ElementChords(pen, path[i]);
    PartsRightward(path, i);
    if i > 0 {
      assert RunsRightward(path[i - 1].to, path[i]);
      ElementRunsRightward(pen, path[i]);
      BeyondAndBefore(added, x, dist);
    }
    assert Chords(path[..i + 1]) == Chords(path[..i]) + added by {
      assert path[..i + 1][..i] == path[..i];
    }
    TotalLeftOfConcat(Chords(path[..i]), added, x, dist);
  }

  method NextLength(path: seq<Element>, i: nat, point: Point, maxX: real, dist: Distance) returns (d: real)
    requires Forward(path) && 0 < i < |path| && !path[i].Move? && IsEuclidean(dist)
    requires point == PenAfter(path[..i]) && point.x <= maxX
    ensures d == LengthOfElement(path, i, maxX, dist)
  {
    assert RunsRightward(path[i - 1].to, path[i]);
    d := ElementLengthTo(point, path[i], maxX, dist);
  }

  /** The length of a path up to `maxX`; after the first element that reaches beyond, the rest is skipped. */
  method LengthTo(path: seq<Element>, maxX: real, dist: Distance) returns (ret: real)
    requires Forward(path) && IsEuclidean(dist)
    ensures Rightward(Chords(path))
    ensures ret == TotalLeftOf(Chords(path), maxX, dist)
  {
    ret := 0.0;
    var point, finished := Point(0.0, 0.0), false;
    assert Chords(path[..0]) == [];
    for i := 0 to |path|
      invariant ret == LengthUpTo(path, i, maxX, dist)
      invariant i > 0 && finished ==> maxX < PenAfter(path[..i]).x
      invariant i == 0 ==> !finished
      invariant !finished ==> point == PenAfter(path[..i]) && (i > 0 ==> point.x <= maxX)
    {
      var e := path[i];
      ForwardStep(path, i, maxX, dist);
      if !finished {
        if !e.Move? {
          var d := NextLength(path, i, point, maxX, dist);
          ret := ret + d;
        }
        if e.to.x > maxX {
          finished := true;
        } else {
          point := e.to;
        }
      }
    }
    assert path[..|path|] == path;
    PartsRightward(path, |path|);
  }
}
