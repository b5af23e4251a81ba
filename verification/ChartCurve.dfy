/** The curve through the data points (`Path.quadCurvedPathWithPoints`) and the chart's scaling of it
    (`ATCLineChartLineProgress`). */
module ChartCurve {
  import opened Options
  import opened ChartPath

  // ---------- The code: control points and the path ----------

  function MidPoint(p1: Point, p2: Point): Point {
    Point((p1.x + p2.x) / 2.0, (p1.y + p2.y) / 2.0)
  }

  function ControlPoint(p1: Point, p2: Point): Point {
    var mid := MidPoint(p1, p2);
    var diffY := if p2.y - mid.y < 0.0 then -(p2.y - mid.y) else p2.y - mid.y;
    if p1.y < p2.y then Point(mid.x, mid.y + diffY)
    else if p1.y > p2.y then Point(mid.x, mid.y - diffY)
    else mid
  }

  /** All three branches do the same thing: the control point lies halfway in x and level with the second point. */
  lemma ControlIsLevel(p1: Point, p2: Point)
    ensures ControlPoint(p1, p2) == Point((p1.x + p2.x) / 2.0, p2.y)
  {}

  function Minimum(s: seq<real>): (m: real)
    requires s != []
    ensures m in s && forall i :: 0 <= i < |s| ==> m <= s[i]
  {
    if |s| == 1 then s[0]
    else
      var m := Minimum(s[..|s| - 1]);
      if s[|s| - 1] < m then s[|s| - 1] else m
  }

  function Maximum(s: seq<real>): (m: real)
    requires s != []
    ensures m in s && forall i :: 0 <= i < |s| ==> s[i] <= m
  {
    if |s| == 1 then s[0]
    else
      var m := Maximum(s[..|s| - 1]);
      if s[|s| - 1] > m then s[|s| - 1] else m
  }

  /** The scaled data point at an index. */
  function DataPoint(points: seq<real>, k: nat, step: Point, offset: real): Point
    requires k < |points|
  {
    Point(Times(step.x, k as real), Times(step.y, points[k] - offset))
  }

  function DataPoints(points: seq<real>, step: Point, offset: real): (data: seq<Point>)
    ensures |data| == |points|
  {
    seq(|points|, k requires 0 <= k < |points| => DataPoint(points, k, step, offset))
  }

  /** The arc that leaves `p` level, and the arc that arrives at `q` level; they meet in the middle. */
  function Departure(p: Point, q: Point): Element {
    Quad(MidPoint(p, q), Point((MidPoint(p, q).x + p.x) / 2.0, p.y))
  }

  function Arrival(p: Point, q: Point): Element {
    Quad(q, Point((MidPoint(p, q).x + q.x) / 2.0, q.y))
  }

  /** `path` goes from data point to data point, departing from one level and arriving at the next level. */
  ghost predicate IsCurveThrough(path: seq<Element>, data: seq<Point>) {
    && |data| >= 1 && |path| == 2 * |data| - 1 && path[0] == Move(data[0])
    && (forall k :: 1 <= k < |data| ==> path[2 * k - 1] == Departure(data[k - 1], data[k]))
    && (forall k :: 1 <= k < |data| ==> path[2 * k] == Arrival(data[k - 1], data[k]))
  }

  lemma TimesCommutes(s: real, w: real)
    ensures Times(s, w) == Times(w, s) && Times(0.0, w) == 0.0
  {}

  lemma OnePointMore(path: seq<Element>, data: seq<Point>, q: Point)
    requires IsCurveThrough(path, data)
    ensures IsCurveThrough(path + [Departure(data[|data| - 1], q)] + [Arrival(data[|data| - 1], q)], data + [q])
  {
    var p := data[|data| - 1];
    var path', data' := path + [Departure(p, q)] + [Arrival(p, q)], data + [q];
    forall k | 1 <= k < |data'|
      ensures path'[2 * k - 1] == Departure(data'[k - 1], data'[k]) && path'[2 * k] == Arrival(data'[k - 1], data'[k])
    {
      if k < |data| {
        assert path'[2 * k - 1] == path[2 * k - 1] && path'[2 * k] == path[2 * k];
      }
    }
  }

  /** One turn of the loop. */
  lemma LoopTurn(path: seq<Element>, data: seq<Point>, i: nat)
    requires 1 <= i < |data| && IsCurveThrough(path, data[..i])
    ensures var (p1, p2) := (data[i - 1], data[i]);
      var mid := MidPoint(p1, p2);
      IsCurveThrough(path + [Quad(mid, ControlPoint(mid, p1))] + [Quad(p2, ControlPoint(mid, p2))], data[..i + 1])
  {
    var (p1, p2) := (data[i - 1], data[i]);
    ControlIsLevel(MidPoint(p1, p2), p1);
    ControlIsLevel(MidPoint(p1, p2), p2);
    OnePointMore(path, data[..i], p2);
    assert data[..i + 1] == data[..i] + [p2];
  }

  method QuadCurvedPathWithPoints(points: seq<real>, step: Point, globalOffset: Option<real> := None)
    returns (path: seq<Element>)
    ensures |points| < 2 ==> path == []
    ensures |points| >= 2 ==>
      var offset := if globalOffset.Some? then globalOffset.value else Minimum(points);
      IsCurveThrough(path, DataPoints(points, step, offset))
  {
    path := [];
    if |points| < 2 {
      return;
    }
    var offset := if globalOffset.Some? then globalOffset.value else Minimum(points);
    ghost var data := DataPoints(points, step, offset);
    var p1 := Point(0.0, Times(points[0] - offset, step.y));
    TimesCommutes(points[0] - offset, step.y);
    TimesCommutes(0.0, step.x);
    path := path + [Move(p1)];
    for pointIndex := 1 to |points|
      invariant p1 == data[pointIndex - 1]
      invariant IsCurveThrough(path, data[..pointIndex])
    {
      var p2 := Point(Times(step.x, pointIndex as real), Times(step.y, points[pointIndex] - offset));
      var midPoint := MidPoint(p1, p2);
      LoopTurn(path, data, pointIndex);
      path := path + [Quad(midPoint, ControlPoint(midPoint, p1))];
      path := path + [Quad(p2, ControlPoint(midPoint, p2))];
      p1 := p2;
    }
    assert data[..|points|] == data;
  }

  // ---------- The curve between two neighbours ----------

  /** Where the two arcs from `p` to `q` are when the share `u` of the way has been drawn. */
  function CurveAt(p: Point, q: Point, u: real): Point {
    if u <= 0.5 then ArcPoint(p, MidPoint(p, q), 2.0 * u, Departure(p, q).control)
    else ArcPoint(MidPoint(p, q), q, 2.0 * u - 1.0, Arrival(p, q).control)
  }

  /** Slow, fast, slow. */
  function Ease(u: real): real {
    if u <= 0.5 then 2.0 * Square(u) else 1.0 - 2.0 * Square(1.0 - u)
  }

  lemma LevelDeparture(y: real, h: real, t: real)
    ensures Value(y, y + h, t, y) == y + Times(Square(t), h)
  {
    assert Value(y, y + h, t, y) == (1.0 - 2.0 * t + t * t) * y + (2.0 * t - 2.0 * t * t) * y + t * t * (y + h);
  }

  lemma LevelArrival(y: real, h: real, t: real)
    ensures Value(y - h, y, t, y) == y - Times(Square(1.0 - t), h)
  {
    assert Value(y - h, y, t, y) == (1.0 - 2.0 * t + t * t) * (y - h) + (2.0 * t - 2.0 * t * t) * y + t * t * y;
  }

  /** x runs evenly and y eases from one data point to the next. */
  lemma EasesBetween(p: Point, q: Point, u: real)
    ensures CurveAt(p, q, u).x == p.x + Times(u, q.x - p.x)
    ensures CurveAt(p, q, u).y == p.y + Times(Ease(u), q.y - p.y)
  {
    if u <= 0.5 {
      EasesAway(p, q, u);
    } else {
      EasesIn(p, q, u);
    }
  }

  lemma EasesAway(p: Point, q: Point, u: real)
    requires u <= 0.5
    ensures CurveAt(p, q, u).x == p.x + Times(u, q.x - p.x)
    ensures CurveAt(p, q, u).y == p.y + Times(Ease(u), q.y - p.y)
  {
    var m, w, h := MidPoint(p, q), q.x - p.x, q.y - p.y;
    LinearX(p.x, m.x, 2.0 * u);
    LevelDeparture(p.y, h / 2.0, 2.0 * u);
    assert m.y == p.y + h / 2.0 && m.x - p.x == w / 2.0;
    Halves(u, w, h);
  }

  lemma EasesIn(p: Point, q: Point, u: real)
    requires u > 0.5
    ensures CurveAt(p, q, u).x == p.x + Times(u, q.x - p.x)
    ensures CurveAt(p, q, u).y == p.y + Times(Ease(u), q.y - p.y)
  {
    var m, w, h := MidPoint(p, q), q.x - p.x, q.y - p.y;
    var t := 2.0 * u - 1.0;
    LinearX(m.x, q.x, t);
    LevelArrival(q.y, h / 2.0, t);
    assert m.y == q.y - h / 2.0 && q.x - m.x == w / 2.0 && 1.0 - t == 2.0 * (1.0 - u);
    assert Times(t, w / 2.0) == Times(u, w) - w / 2.0;
    Halves(1.0 - u, w, h);
    assert Times(Ease(u), h) == h - Times(2.0 * Square(1.0 - u), h);
  }

  lemma Halves(u: real, w: real, h: real)
    ensures Times(2.0 * u, w / 2.0) == Times(u, w)
    ensures Times(Square(2.0 * u), h / 2.0) == Times(2.0 * Square(u), h)
  {}

  lemma EaseGrows(u: real, v: real)
    requires 0.0 <= u <= v <= 1.0
    ensures 0.0 <= Ease(u) <= Ease(v) <= 1.0
    ensures Ease(0.0) == 0.0 && Ease(1.0) == 1.0
  {
    if v <= 0.5 {
      SquareGrowsTo(u, v, 0.5);
    } else if u > 0.5 {
      SquareGrowsTo(1.0 - v, 1.0 - u, 0.5);
    } else {
      SquareGrowsTo(u, 0.5, 0.5);
      SquareGrowsTo(1.0 - v, 0.5, 0.5);
    }
  }

  lemma SquareGrowsTo(u: real, v: real, m: real)
    requires 0.0 <= u <= v <= m
    ensures 0.0 <= Square(u) <= Square(v) <= Square(m)
  {
    if u < v {
      SquareGrows(u, v);
    }
    if v < m {
      SquareGrows(v, m);
    }
  }

  // ---------- Slopes ----------

  /** The derivative of `Value` in t. */
  function Tangent(from: real, to: real, t: real, c: real): real {
    2.0 * (1.0 - t) * (c - from) + 2.0 * t * (to - c)
  }

  /** It is the derivative: what a step `h` adds is `h` times it, up to a multiple of `h` squared. */
  lemma TangentIsDerivative(from: real, to: real, t: real, c: real, h: real)
    ensures Value(from, to, t + h, c)
         == Value(from, to, t, c) + h * Tangent(from, to, t, c) + Square(h) * (from - 2.0 * c + to)
  {
    assert Value(from, to, t, c) == from + t * (2.0 * (c - from)) + t * t * (from - 2.0 * c + to) by {
      Expanded(from, to, t, c);
    }
    Expanded(from, to, t + h, c);
    assert (t + h) * (t + h) == t * t + 2.0 * t * h + h * h;
    var a, k := 2.0 * (c - from), from - 2.0 * c + to;
    assert Tangent(from, to, t, c) == a + 2.0 * t * k;
    assert (t + h) * a == t * a + h * a;
    assert (t * t + 2.0 * t * h + h * h) * k == t * t * k + h * (2.0 * t * k) + h * h * k;
    assert h * (a + 2.0 * t * k) == h * a + h * (2.0 * t * k);
  }

  lemma Expanded(from: real, to: real, t: real, c: real)
    ensures Value(from, to, t, c) == from + t * (2.0 * (c - from)) + t * t * (from - 2.0 * c + to)
  {}

  function EndTangent(pen: Point, e: Element): Point
    requires e.Quad?
  {
    Point(Tangent(pen.x, e.to.x, 1.0, e.control.x), Tangent(pen.y, e.to.y, 1.0, e.control.y))
  }

  function StartTangent(pen: Point, e: Element): Point
    requires e.Quad?
  {
    Point(Tangent(pen.x, e.to.x, 0.0, e.control.x), Tangent(pen.y, e.to.y, 0.0, e.control.y))
  }

  /** The data points are evenly spaced in x. */
  ghost predicate EvenlySpaced(data: seq<Point>, width: real) {
    forall k :: 1 <= k < |data| ==> data[k].x - data[k - 1].x == width
  }

  /** Wherever two arcs of the path meet, in the middles and at the data points, they have the same tangent. */
  lemma SmoothEverywhere(path: seq<Element>, data: seq<Point>, width: real, i: nat)
    requires IsCurveThrough(path, data) && EvenlySpaced(data, width) && 1 <= i < |path| - 1
    ensures path[i].Quad? && path[i + 1].Quad?
    ensures EndTangent(path[i - 1].to, path[i]) == StartTangent(path[i].to, path[i + 1])
    ensures i % 2 == 0 ==> EndTangent(path[i - 1].to, path[i]).y == 0.0
  {
    var k := (i + 1) / 2;
    assert path[2 * k - 1] == Departure(data[k - 1], data[k]) && path[2 * k] == Arrival(data[k - 1], data[k]);
    PenAtData(path, data, k - 1);
    if i % 2 == 1 {
      assert i == 2 * k - 1;
    } else {
      assert i == 2 * k && k + 1 < |data|;
      assert path[2 * (k + 1) - 1] == Departure(data[k], data[k + 1]);
      assert data[k + 1].x - data[k].x == width == data[k].x - data[k - 1].x;
    }
  }

  /** The curve passes through every data point. */
  lemma PenAtData(path: seq<Element>, data: seq<Point>, k: nat)
    requires IsCurveThrough(path, data) && k < |data|
    ensures path[2 * k].to == data[k]
    ensures k + 1 < |data| ==>
      CurveAt(data[k], data[k + 1], 0.0) == data[k] && CurveAt(data[k], data[k + 1], 1.0) == data[k + 1]
  {
    if k > 0 {
      assert path[2 * k] == Arrival(data[k - 1], data[k]);
    }
    if k + 1 < |data| {
      EasesBetween(data[k], data[k + 1], 0.0);
      EasesBetween(data[k], data[k + 1], 1.0);
    }
  }

  // ---------- Length up to an x, on the built path ----------

  ghost predicate Ascending(data: seq<Point>) {
    forall k :: 1 <= k < |data| ==> data[k - 1].x < data[k].x
  }

  /** A positive step in x is all that ascending data need. */
  lemma PositiveStepAscends(points: seq<real>, step: Point, offset: real)
    requires 0.0 < step.x
    ensures Ascending(DataPoints(points, step, offset))
    ensures EvenlySpaced(DataPoints(points, step, offset), step.x)
  {
    var data := DataPoints(points, step, offset);
    forall k | 1 <= k < |data| ensures data[k].x - data[k - 1].x == step.x {
      assert Times(step.x, k as real) == Times(step.x, (k - 1) as real) + step.x;
    }
  }

  lemma CurveIsForward(path: seq<Element>, data: seq<Point>)
    requires IsCurveThrough(path, data) && Ascending(data)
    ensures Forward(path) && Rightward(Chords(path)) && Ordered(Chords(path))
    ensures Within(Chords(path), data[0].x, data[|data| - 1].x)
  {
    forall i | 1 <= i < |path| ensures RunsRightward(path[i - 1].to, path[i]) {
      var k := (i + 1) / 2;
      PenAtData(path, data, k - 1);
      assert path[2 * k - 1] == Departure(data[k - 1], data[k]) && path[2 * k] == Arrival(data[k - 1], data[k]);
      assert data[k - 1].x < data[k].x;
      assert i == 2 * k - 1 || i == 2 * k;
    }
    ForwardIsRightward(path);
    PenAtData(path, data, |data| - 1);
  }

  /** The measured length grows with x from nothing at the first data point to the whole at the last. */
  lemma LengthGrowsAlongCurve(path: seq<Element>, data: seq<Point>, x: real, x': real, dist: Distance)
    requires IsCurveThrough(path, data) && Ascending(data) && IsEuclidean(dist) && x <= x'
    ensures Forward(path) && Rightward(Chords(path))
    ensures var cs := Chords(path);
      && 0.0 <= TotalLeftOf(cs, x, dist) <= TotalLeftOf(cs, x', dist) <= Total(cs, dist)
      && (x <= data[0].x ==> TotalLeftOf(cs, x, dist) == 0.0)
      && (x >= data[|data| - 1].x ==> TotalLeftOf(cs, x, dist) == Total(cs, dist))
  {
    var cs := Chords(path);
    CurveIsForward(path, data);
    TotalLeftOfRange(cs, x, x', dist);
    BeyondAndBefore(cs, x, dist);
  }

  lemma DistancePositive(c: Chord, dist: Distance)
    requires c.a.x < c.b.x && IsEuclidean(dist)
    ensures dist(c.a, c.b) > 0.0
  {
    var w, h := c.a.x - c.b.x, c.a.y - c.b.y;
    assert Square(dist(c.a, c.b)) == Square(w) + Square(h);
    assert Square(-w) == Square(w);
    SquareGrows(0.0, -w);
    assert Square(h) >= 0.0;
  }

  lemma TotalPositive(cs: seq<Chord>, dist: Distance)
    requires Rightward(cs) && cs != [] && IsEuclidean(dist)
    ensures Total(cs, dist) > 0.0
  {
    TotalLeftOfRange(cs[..|cs| - 1], 0.0, 0.0, dist);
    DistancePositive(cs[|cs| - 1], dist);
  }

  lemma CurveHasChords(path: seq<Element>, data: seq<Point>)
    requires IsCurveThrough(path, data) && |data| >= 2
    ensures Chords(path) != []
  {
    var e, before := path[|path| - 1], path[..|path| - 1];
    assert path[2 * (|data| - 1)] == Arrival(data[|data| - 2], data[|data| - 1]);
    assert e.Quad? && |ElementChords(PenAfter(before), e)| == STEPS;
  }

  /** So the share of the path that `point(to:)` asks for is a proper fraction, with no zero denominator. */
  lemma PercentOfCurve(path: seq<Element>, data: seq<Point>, x: real, dist: Distance)
    requires IsCurveThrough(path, data) && |data| >= 2 && Ascending(data) && IsEuclidean(dist)
    ensures Rightward(Chords(path)) && Total(Chords(path), dist) > 0.0
    ensures 0.0 <= TotalLeftOf(Chords(path), x, dist) / Total(Chords(path), dist) <= 1.0
  {
    CurveIsForward(path, data);
    CurveHasChords(path, data);
    TotalPositive(Chords(path), dist);
    TotalLeftOfRange(Chords(path), x, x, dist);
    Quotient(TotalLeftOf(Chords(path), x, dist), Total(Chords(path), dist));
  }

  // ---------- Inside the frame ----------

  predicate Inside(p: Point, width: real, height: real) {
    0.0 <= p.x <= width && 0.0 <= p.y <= height
  }

  ghost predicate InsideBetween(p: Point, q: Point, width: real, height: real) {
    forall u: real :: 0.0 <= u <= 1.0 ==> Inside(CurveAt(p, q, u), width, height)
  }

  /** The whole curve stays inside. */
  ghost predicate CurveInside(data: seq<Point>, width: real, height: real) {
    forall k :: 1 <= k < |data| ==> InsideBetween(data[k - 1], data[k], width, height)
  }

  lemma BetweenEnds(a: real, b: real, s: real, lo: real, hi: real)
    requires lo <= a <= hi && lo <= b <= hi && 0.0 <= s <= 1.0
    ensures lo <= a + Times(s, b - a) <= hi
  {
    if a <= b {
      Scaled(s, s, b - a);
    } else {
      Scaled(s, s, a - b);
      ScaledOther(s, a - b);
      assert -(a - b) == b - a;
    }
  }

  /** Between two neighbours the curve leaves the frame nowhere if and only if neither of them is outside. */
  lemma InsideBetweenExactly(p: Point, q: Point, width: real, height: real)
    ensures InsideBetween(p, q, width, height) <==> Inside(p, width, height) && Inside(q, width, height)
  {
    if Inside(p, width, height) && Inside(q, width, height) {
      forall u: real | 0.0 <= u <= 1.0 ensures Inside(CurveAt(p, q, u), width, height) {
        EasesBetween(p, q, u);
        EaseGrows(u, u);
        BetweenEnds(p.x, q.x, u, 0.0, width);
        BetweenEnds(p.y, q.y, Ease(u), 0.0, height);
      }
    }
    EasesBetween(p, q, 0.0);
    EasesBetween(p, q, 1.0);
    assert CurveAt(p, q, 0.0) == p && CurveAt(p, q, 1.0) == q;
  }

  lemma CurveInsideExactly(data: seq<Point>, width: real, height: real)
    requires |data| >= 2
    ensures CurveInside(data, width, height) <==> forall k :: 0 <= k < |data| ==> Inside(data[k], width, height)
  {
    forall k | 1 <= k < |data|
      ensures InsideBetween(data[k - 1], data[k], width, height) <==>
        Inside(data[k - 1], width, height) && Inside(data[k], width, height)
    {
      InsideBetweenExactly(data[k - 1], data[k], width, height);
    }
    if CurveInside(data, width, height) {
      forall k | 0 <= k < |data| ensures Inside(data[k], width, height) {
        var j := if k == 0 then 1 else k;
        assert InsideBetween(data[j - 1], data[j], width, height);
      }
    }
  }

  // ---------- The chart's own scaling ----------

  const PADDING: real := 30.0

  function StepWidth(count: nat, frameWidth: real): real {
    if count < 2 then 0.0 else frameWidth / (count - 1) as real
  }

  /** The range the frame height is spread over: min to max when min is not positive, else min plus max. */
  function Spread(min: real, max: real): real {
    if min <= 0.0 then max - min else max + min
  }

  /** The spread the heights are scaled to: of both explicit bounds, else of the values; `None` when that is one
      point. */
  function Range(points: seq<real>, minData: Option<real>, maxData: Option<real>): Option<real> {
    if minData.Some? && maxData.Some? then
      if minData.value != maxData.value then Some(Spread(minData.value, maxData.value)) else None
    else if points != [] && Minimum(points) != Maximum(points) then Some(Spread(Minimum(points), Maximum(points)))
    else None
  }

  /** `None` stands for a division by zero, which explicit bounds can cause. */
  function StepHeight(points: seq<real>, minData: Option<real>, maxData: Option<real>, frameHeight: real): Option<real>
  {
    match Range(points, minData, maxData)
    case None => Some(0.0)
    case Some(range) => if range == 0.0 then None else Some((frameHeight - PADDING) / range)
  }

  /** That division, exactly: both bounds are given, the lower one is positive, and the upper one is its negative. */
  lemma StepHeightUndefinedExactly(points: seq<real>, minData: Option<real>, maxData: Option<real>, height: real)
    ensures StepHeight(points, minData, maxData, height).None?
        <==> minData.Some? && maxData.Some? && minData.value > 0.0 && maxData.value == -minData.value
  {
    if points != [] && Minimum(points) != Maximum(points) {
      SpreadPositive(points);
    }
  }

  /** The value drawn at height zero: the lower bound, even when it is given alone, else the least value. */
  function Offset(points: seq<real>, minData: Option<real>): real
    requires points != []
  {
    if minData.Some? then minData.value else Minimum(points)
  }

  /** The path of the chart, with the frame's scaling. */
  method Path(points: seq<real>, minData: Option<real>, maxData: Option<real>, frameWidth: real, frameHeight: real)
    returns (path: seq<Element>)
    requires StepHeight(points, minData, maxData, frameHeight).Some?
    ensures |points| < 2 ==> path == []
    ensures |points| >= 2 ==> IsCurveThrough(path, ChartData(points, minData, maxData, frameWidth, frameHeight))
  {
    var step := Point(StepWidth(|points|, frameWidth), StepHeight(points, minData, maxData, frameHeight).value);
    path := QuadCurvedPathWithPoints(points, step, minData);
  }

  function ChartData(points: seq<real>, minData: Option<real>, maxData: Option<real>,
                     frameWidth: real, frameHeight: real): seq<Point>
    requires |points| >= 2 && StepHeight(points, minData, maxData, frameHeight).Some?
  {
    var step := Point(StepWidth(|points|, frameWidth), StepHeight(points, minData, maxData, frameHeight).value);
    DataPoints(points, step, Offset(points, minData))
  }

  lemma ColumnInside(count: nat, k: nat, width: real)
    requires 2 <= count && k < count && 0.0 <= width
    ensures 0.0 <= Times(StepWidth(count, width), k as real) <= width
    ensures 0.0 < width ==> 0.0 < StepWidth(count, width)
  {
    var n, w := (count - 1) as real, StepWidth(count, width);
    Quotient(width, n);
    if w < 0.0 {
      Negative(n, w);
    }
    NotNegative(w, k as real);
    NotNegative(w, n - k as real);
    assert Times(w, n - k as real) == Times(w, n) - Times(w, k as real);
  }

  /** The chart fills its frame: from the left edge to the right edge, with a value at the offset drawn at the bottom,
      and one a spread away from it the padding of 30 below the frame's height. */
  lemma ChartFillsFrame(points: seq<real>, minData: Option<real>, maxData: Option<real>, width: real, height: real,
                        k: nat)
    requires |points| >= 2 && StepHeight(points, minData, maxData, height).Some? && k < |points|
    ensures var data := ChartData(points, minData, maxData, width, height);
      && data[0].x == 0.0 && data[|points| - 1].x == width
      && (points[k] == Offset(points, minData) ==> data[k].y == 0.0)
      && (Range(points, minData, maxData).Some? ==>
            points[k] == Offset(points, minData) + Range(points, minData, maxData).value ==> data[k].y == height - 30.0)
      && (Range(points, minData, maxData).None? ==> data[k].y == 0.0)
  {
    var n, w := (|points| - 1) as real, StepWidth(|points|, width);
    assert w == width / n;
    QuotientTimes(width, n);
    TimesCommutes(0.0, points[k] - Offset(points, minData));
    assert Times(w, 0.0) == 0.0;
    if Range(points, minData, maxData).Some? {
      QuotientTimes(height - PADDING, Range(points, minData, maxData).value);
    }
  }

  lemma QuotientTimes(a: real, b: real)
    requires b != 0.0
    ensures Times(a / b, b) == a && Times(a / b, 0.0) == 0.0
  {}

  predicate Between(v: real, a: real, b: real) {
    a <= v <= b || b <= v <= a
  }

  /** A height is inside exactly when the value lies between the offset and one spread away from it, on its side. */
  lemma HeightInside(h: real, spread: real, v: real)
    requires 0.0 < h && spread != 0.0
    ensures 0.0 <= Times(h / spread, v) <= h <==> Between(v, 0.0, spread)
  {
    if spread > 0.0 {
      HeightInsidePositive(h, spread, v);
    } else {
      HeightInsidePositive(h, -spread, -v);
      assert Times(h / -spread, -v) == Times(h / spread, v) by {
        Mirrored(h, spread, v);
      }
    }
  }

  lemma Mirrored(h: real, spread: real, v: real)
    requires spread != 0.0
    ensures Times(h / -spread, -v) == Times(h / spread, v)
  {
    var s, t := h / spread, h / -spread;
    assert s * spread == h && t * spread == -h;
    assert (s + t) * spread == 0.0;
    assert s + t == 0.0;
    assert t * -v == -(t * v) == s * v;
  }

  lemma HeightInsidePositive(h: real, spread: real, v: real)
    requires 0.0 < h && 0.0 < spread
    ensures 0.0 <= Times(h / spread, v) <= h <==> 0.0 <= v <= spread
  {
    var s := h / spread;
    Quotient(h, spread);
    if s <= 0.0 {
      NotNegative(-s, spread);
    }
    assert Times(s, spread - v) == Times(s, spread) - Times(s, v);
    if v < 0.0 {
      Negative(s, v);
    } else if v > spread {
      Negative(s, spread - v);
    } else {
      NotNegative(s, v);
      NotNegative(s, spread - v);
    }
  }

  lemma Negative(s: real, v: real)
    requires 0.0 < s && v < 0.0
    ensures Times(s, v) < 0.0
  {}

  lemma NotNegative(s: real, v: real)
    requires 0.0 <= s && 0.0 <= v
    ensures 0.0 <= Times(s, v)
  {}

  /** The exact condition, for any bounds, frame and values: there is a frame, and unless the curve is flat every
      value lies between the offset and one spread away from it. */
  predicate FitsFrame(points: seq<real>, minData: Option<real>, maxData: Option<real>, width: real, height: real)
    requires points != []
  {
    && 0.0 <= width && PADDING <= height
    && (height == PADDING || Range(points, minData, maxData).None? ||
        var offset, range := Offset(points, minData), Range(points, minData, maxData).value;
        forall k :: 0 <= k < |points| ==> Between(points[k], offset, offset + range))
  }

  lemma ChartInsideExactly(points: seq<real>, minData: Option<real>, maxData: Option<real>, width: real, height: real)
    requires |points| >= 2 && StepHeight(points, minData, maxData, height).Some?
    ensures CurveInside(ChartData(points, minData, maxData, width, height), width, height - PADDING)
            <==> FitsFrame(points, minData, maxData, width, height)
  {
    var data := ChartData(points, minData, maxData, width, height);
    CurveInsideExactly(data, width, height - PADDING);
    if 0.0 <= width && PADDING <= height {
      var offset, range := Offset(points, minData), Range(points, minData, maxData);
      forall k | 0 <= k < |points|
        ensures Inside(data[k], width, height - PADDING) <==>
          (height == PADDING || range.None? || Between(points[k], offset, offset + range.value))
      {
        ColumnInside(|points|, k, width);
        PointInsideExactly(points, minData, maxData, height, points[k] - Offset(points, minData));
      }
    } else {
      assert data[0].x == Times(StepWidth(|points|, width), 0.0) == 0.0;
      assert !Inside(data[0], width, height - PADDING);
    }
  }

  lemma PointInsideExactly(points: seq<real>, minData: Option<real>, maxData: Option<real>, height: real, v: real)
    requires PADDING <= height && StepHeight(points, minData, maxData, height).Some?
    ensures var range := Range(points, minData, maxData);
      0.0 <= Times(StepHeight(points, minData, maxData, height).value, v) <= height - PADDING <==>
        (height == PADDING || range.None? || Between(v, 0.0, range.value))
  {
    if Range(points, minData, maxData).Some? {
      if height > PADDING {
        HeightInside(height - PADDING, Range(points, minData, maxData).value, v);
      } else {
        assert StepHeight(points, minData, maxData, height).value == 0.0;
        TimesCommutes(0.0, v);
      }
    } else {
      TimesCommutes(0.0, v);
    }
  }

  /** Both bounds given, in either order: in a frame, unless the curve is flat, it stays inside exactly when every
      value lies between the lower bound and one spread away from it. */
  lemma ExplicitBoundsInsideExactly(points: seq<real>, min: real, max: real, width: real, height: real)
    requires |points| >= 2 && !(min > 0.0 && max == -min)
    ensures StepHeight(points, Some(min), Some(max), height).Some?
    ensures CurveInside(ChartData(points, Some(min), Some(max), width, height), width, height - PADDING) <==>
      0.0 <= width && PADDING <= height && (height == PADDING || min == max ||
        forall k :: 0 <= k < |points| ==> Between(points[k], min, min + Spread(min, max)))
  {
    StepHeightUndefinedExactly(points, Some(min), Some(max), height);
    ChartInsideExactly(points, Some(min), Some(max), width, height);
  }

  /** The lower bound given alone moves the curve and leaves the scale to the values. */
  lemma LowerBoundAloneInsideExactly(points: seq<real>, min: real, width: real, height: real)
    requires |points| >= 2
    ensures StepHeight(points, Some(min), None, height).Some?
    ensures CurveInside(ChartData(points, Some(min), None, width, height), width, height - PADDING) <==>
      0.0 <= width && PADDING <= height && (height == PADDING || Minimum(points) == Maximum(points) ||
        forall k :: 0 <= k < |points| ==> min <= points[k] <= min + Spread(Minimum(points), Maximum(points)))
  {
    if Minimum(points) != Maximum(points) {
      SpreadPositive(points);
    }
    ChartInsideExactly(points, Some(min), None, width, height);
  }

  lemma SpreadPositive(points: seq<real>)
    requires points != [] && Minimum(points) != Maximum(points)
    ensures Spread(Minimum(points), Maximum(points)) > 0.0
    ensures Maximum(points) <= Minimum(points) + Spread(Minimum(points), Maximum(points))
  {
    assert Minimum(points) <= points[0] <= Maximum(points);
  }

  /** Values above a lower bound that is given alone can leave the frame. */
  lemma LowerBoundAloneLeavesFrame(points: seq<real>)
    requires points == [-10.0, 20.0]
    ensures StepHeight(points, Some(-20.0), None, 130.0).Some?
    ensures !CurveInside(ChartData(points, Some(-20.0), None, 100.0, 130.0), 100.0, 130.0 - PADDING)
  {
    assert Minimum(points) == -10.0 && Maximum(points) == 20.0 by {
      assert points[0] == -10.0 && points[1] == 20.0;
      assert Minimum(points) <= -10.0 && Maximum(points) >= 20.0;
    }
    LowerBoundAloneInsideExactly(points, -20.0, 100.0, 130.0);
    assert points[1] == 20.0;
  }

  /** Without a lower bound the curve is always inside, whatever the upper one. */
  lemma ChartInside(points: seq<real>, maxData: Option<real>, width: real, height: real)
    requires |points| >= 2 && 0.0 <= width && PADDING <= height
    ensures StepHeight(points, None, maxData, height).Some?
    ensures CurveInside(ChartData(points, None, maxData, width, height), width, height - PADDING)
  {
    if Minimum(points) != Maximum(points) {
      SpreadPositive(points);
    }
    ChartInsideExactly(points, None, maxData, width, height);
  }

  /** With a frame of positive width, the chart's data points ascend. */
  lemma ChartAscends(points: seq<real>, minData: Option<real>, maxData: Option<real>, width: real, height: real)
    requires |points| >= 2 && 0.0 < width && StepHeight(points, minData, maxData, height).Some?
    ensures Ascending(ChartData(points, minData, maxData, width, height))
    ensures EvenlySpaced(ChartData(points, minData, maxData, width, height), StepWidth(|points|, width))
  {
    ColumnInside(|points|, 0, width);
    var step := Point(StepWidth(|points|, width), StepHeight(points, minData, maxData, height).value);
    PositiveStepAscends(points, step, Offset(points, minData));
  }
}
