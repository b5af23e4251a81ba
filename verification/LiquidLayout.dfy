/** `ATCLiquidCollectionViewLayout`: items dealt out to columns in turn, with cached frames. `CGFloat` is `real`. */
module LiquidLayout {
  import opened Options

  datatype Frame = Frame(x: real, y: real, width: real, height: real)

  function Times(k: int, w: real): real {
    k as real * w
  }

  function Max(a: real, b: real): real {
    if a < b then b else a
  }

  /** Conversion to an integer drops the fraction, towards zero. */
  function Truncated(r: real): int {
    if r >= 0.0 then r.Floor else -((-r).Floor)
  }

  function Columns(contentWidth: real, cellWidth: real): int {
    if cellWidth > 0.0 then Truncated(contentWidth / cellWidth) else 1
  }

  // ---------- A fresh layout, item by item ----------

  /** What the layout asks its delegate for, and its own padding. */
  datatype Request = Request(contentWidth: real, cellWidth: real, heights: seq<real>, padding: real) {
    ghost predicate Valid() {
      0.0 <= padding && 0.0 <= cellWidth && forall i :: 0 <= i < |heights| ==> 0.0 <= heights[i]
    }

    function Count(): int {
      Columns(contentWidth, cellWidth)
    }

    /** The space between columns; unused when the column count is negative. */
    function Gap(): real {
      if Count() + 1 == 0 then 0.0 else (contentWidth - Times(Count(), cellWidth)) / (Count() + 1) as real
    }

    function ColumnX(column: int): real {
      Times(column, cellWidth) + Times(column + 1, Gap())
    }

    /** The height an item takes up in its column. */
    function Outer(row: nat): real
      requires row < |heights|
    {
      padding + heights[row] + padding
    }

    /** The total height of the items before `row` that are in `column`. */
    function Filled(column: nat, row: nat): real
      requires row <= |heights| && Count() > 0
    {
      if row == 0 then 0.0
      else Filled(column, row - 1) + (if (row - 1) % Count() == column then Outer(row - 1) else 0.0)
    }

    /** Item `row` is in column `row` mod the column count, below everything that is there already. */
    function FreshFrame(row: nat): Frame
      requires row < |heights| && Count() > 0
    {
      Frame(ColumnX(row % Count()), Filled(row % Count(), row) + padding, cellWidth, heights[row])
    }

    function FreshFrames(): (frames: seq<Frame>)
      requires heights == [] || Count() > 0
      ensures |frames| == |heights|
    {
      seq(|heights|, row requires 0 <= row < |heights| => FreshFrame(row))
    }

    /** The lowest edge, paddings included, of the first `row` items. */
    function LowestEdge(row: nat): real
      requires row <= |heights| && (row == 0 || Count() > 0)
    {
      if row == 0 then 0.0
      else Max(LowestEdge(row - 1), Filled((row - 1) % Count(), row - 1) + Outer(row - 1))
    }

    function FreshHeight(): real
      requires heights == [] || Count() > 0
    {
      LowestEdge(|heights|)
    }
  }

  // ---------- Frames of a fresh layout ----------

  lemma TimesAdds(a: int, b: int, w: real)
    ensures Times(a + b, w) == Times(a, w) + Times(b, w)
    ensures Times(0, w) == 0.0 && Times(1, w) == w
    ensures 0 <= a && 0.0 <= w ==> 0.0 <= Times(a, w)
  {}

  /** There is room for the columns: at least one, and the gap is not negative. */
  lemma RoomForColumns(r: Request)
    requires 0.0 < r.cellWidth <= r.contentWidth
    ensures r.Count() >= 1 && r.Gap() >= 0.0
    ensures Times(r.Count(), r.cellWidth) + Times(r.Count() + 1, r.Gap()) == r.contentWidth
  {
    var q, n := r.contentWidth / r.cellWidth, r.Count();
    assert q * r.cellWidth == r.contentWidth;
    assert q >= 1.0;
    assert n as real <= q;
    var left := r.contentWidth - Times(n, r.cellWidth);
    assert left == (q - n as real) * r.cellWidth;
    assert left >= 0.0;
    assert r.Gap() * (n + 1) as real == left;
  }

  /** How many columns: as many as fit, and one if the cell width is not positive. */
  lemma ColumnsExactly(r: Request)
    ensures r.cellWidth <= 0.0 ==> r.Count() == 1
    ensures 0.0 < r.cellWidth && 0.0 <= r.contentWidth ==>
      Times(r.Count(), r.cellWidth) <= r.contentWidth < Times(r.Count() + 1, r.cellWidth)
  {
    if 0.0 < r.cellWidth && 0.0 <= r.contentWidth {
      var q := r.contentWidth / r.cellWidth;
      assert q * r.cellWidth == r.contentWidth;
      ProductSign(q, r.cellWidth);
      assert r.Count() == q.Floor;
      FitsExactly(q, q.Floor, r.cellWidth);
    }
  }

  lemma FitsExactly(q: real, n: int, w: real)
    requires n as real <= q < n as real + 1.0 && 0.0 < w
    ensures Times(n, w) <= q * w < Times(n + 1, w)
  {
    var x, y := n as real, (n + 1) as real;
    ProductSign(q - x, w);
    ProductSign(y - q, w);
    assert (q - x) * w == q * w - x * w;
    assert (y - q) * w == y * w - q * w;
    assert y > q;
    assert (y - q) * w > 0.0;
    assert q * w < y * w;
    assert Times(n + 1, w) == y * w;
  }

  /** The columns stand evenly: one gap from the left edge, one between any two, one to the right edge. */
  lemma ColumnsEven(r: Request, column: nat)
    requires 0.0 < r.cellWidth <= r.contentWidth && column < r.Count()
    ensures r.ColumnX(0) == r.Gap()
    ensures column + 1 < r.Count() ==> r.ColumnX(column + 1) == r.ColumnX(column) + r.cellWidth + r.Gap()
    ensures column + 1 == r.Count() ==> r.ColumnX(column) + r.cellWidth + r.Gap() == r.contentWidth
  {
    RoomForColumns(r);
    TimesAdds(column, 1, r.cellWidth);
    TimesAdds(column + 1, 1, r.Gap());
    TimesAdds(0, 0, r.cellWidth);
    TimesAdds(1, 0, r.Gap());
  }

  /** Column `b` begins where column `a` has ended, for `a` left of `b`. */
  lemma ColumnsApart(r: Request, a: nat, b: nat)
    requires 0.0 < r.cellWidth <= r.contentWidth && a < b
    ensures r.ColumnX(a) + r.cellWidth <= r.ColumnX(b)
  {
    RoomForColumns(r);
    TimesAdds(a, b - a, r.cellWidth);
    TimesAdds(a + 1, b - a, r.Gap());
    TimesAdds(1, b - a - 1, r.cellWidth);
    TimesAdds(b - a - 1, 0, r.cellWidth);
    TimesAdds(b - a, 0, r.Gap());
  }

  lemma ColumnInside(r: Request, c: nat)
    requires 0.0 < r.cellWidth <= r.contentWidth && c < r.Count()
    ensures 0.0 <= r.ColumnX(c) && r.ColumnX(c) + r.cellWidth <= r.contentWidth
  {
    RoomForColumns(r);
    var n := r.Count();
    TimesAdds(c, 0, r.cellWidth);
    TimesAdds(c + 1, 0, r.Gap());
    TimesAdds(c + 1, n - c - 1, r.cellWidth);
    TimesAdds(n - c - 1, 0, r.cellWidth);
    TimesAdds(c, 1, r.cellWidth);
    TimesAdds(c + 1, n - c, r.Gap());
    TimesAdds(n - c, 0, r.Gap());
  }

  /** A column only fills up; an item's own column is fuller after it by its outer height. */
  lemma {:induction false} FilledGrows(r: Request, column: nat, i: nat, j: nat)
    requires r.Valid() && r.Count() > 0 && i <= j <= |r.heights|
    ensures 0.0 <= r.Filled(column, i) <= r.Filled(column, j)
    ensures i < j && i % r.Count() == column ==> r.Filled(column, i) + r.Outer(i) <= r.Filled(column, j)
    decreases j
  {
    if i < j {
      FilledGrows(r, column, i, j - 1);
    } else if i > 0 {
      FilledGrows(r, column, i - 1, j - 1);
    }
  }

  lemma {:induction false} LowestEdgeBounds(r: Request, row: nat, n: nat)
    requires r.Valid() && r.Count() > 0 && row < n <= |r.heights|
    ensures r.Filled(row % r.Count(), row) + r.Outer(row) <= r.LowestEdge(n)
  {
    if row < n - 1 {
      LowestEdgeBounds(r, row, n - 1);
    }
  }

  lemma {:induction false} LowestEdgeNotNegative(r: Request, n: nat)
    requires n <= |r.heights| && (n == 0 || r.Count() > 0)
    ensures 0.0 <= r.LowestEdge(n)
  {
    if n > 0 {
      LowestEdgeNotNegative(r, n - 1);
    }
  }

  /** The lowest edge is reached: it is some item's, or zero without items. */
  lemma {:induction false} LowestEdgeReached(r: Request, n: nat)
    requires r.Valid() && (n == 0 || r.Count() > 0) && n <= |r.heights|
    ensures r.LowestEdge(n) == 0.0
      || exists row :: 0 <= row < n && r.LowestEdge(n) == r.Filled(row % r.Count(), row) + r.Outer(row)
  {
    if n > 0 {
      LowestEdgeReached(r, n - 1);
      var edge := r.Filled((n - 1) % r.Count(), n - 1) + r.Outer(n - 1);
      if r.LowestEdge(n) != edge && r.LowestEdge(n - 1) != 0.0 {
        var row :| 0 <= row < n - 1 && r.LowestEdge(n - 1) == r.Filled(row % r.Count(), row) + r.Outer(row);
        assert r.LowestEdge(n) == r.Filled(row % r.Count(), row) + r.Outer(row);
      }
    }
  }

  /** One frame ends, left to right or top to bottom, before the other begins. */
  predicate Apart(f: Frame, g: Frame) {
    f.x + f.width <= g.x || g.x + g.width <= f.x || f.y + f.height <= g.y || g.y + g.height <= f.y
  }

  /** An item has the cell's width and its own height. The first of each column stands one padding below the top; the
      next in a column two paddings below the one before, whatever is in other columns. */
  lemma StackedExactly(r: Request, row: nat)
    requires r.Count() > 0 && row < |r.heights|
    ensures r.FreshFrame(row).width == r.cellWidth && r.FreshFrame(row).height == r.heights[row]
    ensures r.FreshFrame(row).x == r.ColumnX(row % r.Count())
    ensures row < r.Count() ==> r.FreshFrame(row).y == r.padding
    ensures row >= r.Count() ==>
      var above := r.FreshFrame(row - r.Count());
      r.FreshFrame(row).x == above.x && r.FreshFrame(row).y == above.y + above.height + 2.0 * r.padding
  {
    if row < r.Count() {
      FirstInColumn(r, row);
    } else {
      NextInColumn(r, row, row - r.Count());
    }
  }

  lemma FirstInColumn(r: Request, row: nat)
    requires r.Count() > 0 && row <= |r.heights| && row < r.Count()
    ensures r.Filled(row % r.Count(), row) == 0.0
  {
    SmallRemainder(row, r.Count());
    EmptyAbove(r, row, row);
  }

  lemma SmallRemainder(a: nat, n: nat)
    requires a < n
    ensures a % n == a
  {}

  lemma NextInColumn(r: Request, row: nat, above: nat)
    requires r.Count() > 0 && row < |r.heights| && row == above + r.Count()
    ensures row % r.Count() == above % r.Count()
    ensures r.Filled(row % r.Count(), row) == r.Filled(above % r.Count(), above) + r.Outer(above)
  {
    SameColumn(above, r.Count());
    NothingBetween(r, above % r.Count(), above, row);
  }

  lemma SameColumn(row: nat, n: nat)
    requires n > 0
    ensures (row + n) % n == row % n
  {
    Remainder(row + n, row / n + 1, row % n, n);
  }

  lemma {:induction false} EmptyAbove(r: Request, column: nat, row: nat)
    requires r.Count() > 0 && row <= |r.heights| && row <= column < r.Count()
    ensures r.Filled(column, row) == 0.0
  {
    if row > 0 {
      EmptyAbove(r, column, row - 1);
      SmallRemainder(row - 1, r.Count());
    }
  }

  /** Between an item and the row one column count later, its column holds nothing else. */
  lemma {:induction false} NothingBetween(r: Request, column: nat, i: nat, j: nat)
    requires r.Count() > 0 && i < j <= i + r.Count() && j <= |r.heights| && column == i % r.Count()
    ensures r.Filled(column, j) == r.Filled(column, i) + r.Outer(i)
    decreases j
  {
    if i < j - 1 {
      NothingBetween(r, column, i, j - 1);
      DifferentColumn(i, j - 1, r.Count());
    }
  }

  lemma DifferentColumn(i: nat, j: nat, n: nat)
    requires i < j < i + n
    ensures i % n != j % n
  {
    MultiplesApart(j / n - i / n, n);
    assert i == (i / n) * n + i % n && j == (j / n) * n + j % n;
    assert (j / n - i / n) * n == (j / n) * n - (i / n) * n;
  }

  /** The content ends one padding below the lowest frame. */
  lemma ContentHeightExactly(r: Request, row: nat)
    requires r.Valid() && r.Count() > 0
    ensures row < |r.heights| ==> r.FreshFrame(row).y + r.FreshFrame(row).height + r.padding <= r.FreshHeight()
    ensures r.heights != [] ==>
      exists k :: 0 <= k < |r.heights| && r.FreshHeight() == r.FreshFrame(k).y + r.FreshFrame(k).height + r.padding
    ensures r.heights == [] ==> r.FreshHeight() == 0.0
  {
    if row < |r.heights| {
      LowestEdgeBounds(r, row, |r.heights|);
    }
    if r.heights != [] {
      LowestEdgeReached(r, |r.heights|);
      LowestEdgeBounds(r, 0, |r.heights|);
      FilledGrows(r, 0, 0, 0);
      if r.FreshHeight() == 0.0 {
        assert r.Filled(0 % r.Count(), 0) == 0.0 && r.Outer(0) >= 0.0;
        assert r.FreshHeight() == r.FreshFrame(0).y + r.FreshFrame(0).height + r.padding;
      } else {
        var k :| 0 <= k < |r.heights| && r.FreshHeight() == r.Filled(k % r.Count(), k) + r.Outer(k);
        assert r.FreshHeight() == r.FreshFrame(k).y + r.FreshFrame(k).height + r.padding;
      }
    }
  }

  /** No two frames of a fresh layout overlap. */
  lemma FreshFramesApart(r: Request, i: nat, j: nat)
    requires r.Valid() && 0.0 < r.cellWidth <= r.contentWidth && i < j < |r.heights|
    ensures r.Count() >= 1 && Apart(r.FreshFrame(i), r.FreshFrame(j))
  {
    RoomForColumns(r);
    var (a, b) := (i % r.Count(), j % r.Count());
    if a < b {
      ColumnsApart(r, a, b);
    } else if b < a {
      ColumnsApart(r, b, a);
    } else {
      FilledGrows(r, a, i, j);
    }
  }

  /** And every one lies within the content width and height. */
  lemma FreshFramesInside(r: Request, i: nat)
    requires r.Valid() && 0.0 < r.cellWidth <= r.contentWidth && i < |r.heights|
    ensures r.Count() >= 1
    ensures var f := r.FreshFrame(i);
      0.0 <= f.x && f.x + f.width <= r.contentWidth && 0.0 <= f.y && f.y + f.height <= r.FreshHeight()
  {
    RoomForColumns(r);
    ColumnInside(r, i % r.Count());
    FilledGrows(r, i % r.Count(), i, i);
    LowestEdgeBounds(r, i, |r.heights|);
  }

  // ---------- The cache, as a value ----------

  datatype State = State(cachedWidth: real, numberOfItems: nat, cache: seq<Frame>, contentHeight: real)

  const INITIAL := State(0.0, 0, [], 0.0)

  /** The width or the number of items is not the one the cache was made for. */
  predicate Outdated(s: State, r: Request) {
    r.contentWidth != s.cachedWidth || s.numberOfItems != |r.heights|
  }

  predicate Rebuilds(s: State, r: Request) {
    Outdated(s, r) || s.cache == []
  }

  /** A negative range, or an item to place and no column. */
  predicate Traps(s: State, r: Request) {
    Rebuilds(s, r) && (r.Count() < 0 || (r.Count() == 0 && r.heights != []))
  }

  /** What `prepare` is for: keep the cache or lay everything out afresh. */
  function Prepared(s: State, r: Request): State
    requires !Traps(s, r)
  {
    if Rebuilds(s, r) then
      var floor := if Outdated(s, r) then 0.0 else s.contentHeight;
      State(r.contentWidth, |r.heights|, r.FreshFrames(), Max(floor, r.FreshHeight()))
    else s
  }

  function FrameOfItem(s: State, row: nat): Option<Frame> {
    if row < |s.cache| then Some(s.cache[row]) else None
  }

  function Invalidated(s: State): State {
    s.(cache := [])
  }

  lemma ProperFraction(a: real, b: real)
    requires 0.0 <= a < b
    ensures 0.0 <= a / b < 1.0
  {}

  /** A rebuild with a positive cell width traps exactly when the cell is wider than the content or, without items,
      when the content has a negative width of at least the cell's. Nothing else traps. */
  lemma TrapsExactly(s: State, r: Request)
    ensures Traps(s, r) <==>
      Rebuilds(s, r) && 0.0 < r.cellWidth &&
      (if r.heights == [] then r.contentWidth <= -r.cellWidth else r.contentWidth < r.cellWidth)
  {
    if 0.0 < r.cellWidth {
      if r.cellWidth <= r.contentWidth {
        RoomForColumns(r);
      } else if 0.0 <= r.contentWidth {
        ProperFraction(r.contentWidth, r.cellWidth);
      } else {
        NegativeFraction(r.contentWidth, r.cellWidth);
      }
    }
  }

  lemma NegativeFraction(a: real, b: real)
    requires a < 0.0 < b
    ensures a / b < 0.0
    ensures a / b <= -1.0 <==> a <= -b
  {
    var q := a / b;
    assert q * b == a && (q + 1.0) * b == a + b;
    ProductSign(q, b);
    ProductSign(q + 1.0, b);
  }

  lemma ProductSign(p: real, b: real)
    requires 0.0 < b
    ensures p * b > 0.0 <==> p > 0.0
    ensures p * b < 0.0 <==> p < 0.0
  {}

  // ---------- The class ----------

  class Layout {
    const cellPadding: real
    var cachedWidth: real
    var cache: seq<Frame>
    var contentHeight: real
    var numberOfItems: nat

    constructor (cellPadding: real := 0.0)
      ensures this.cellPadding == cellPadding && Value() == INITIAL
    {
      this.cellPadding := cellPadding;
      cachedWidth, cache, contentHeight, numberOfItems := 0.0, [], 0.0, 0;
    }

    function Value(): State
      reads this
    {
      State(cachedWidth, numberOfItems, cache, contentHeight)
    }

    ghost predicate Valid()
      reads this
    {
      0.0 <= contentHeight
    }

    /** The x of every column. */
    method XOffsets(r: Request) returns (xOffset: seq<real>)
      requires r.Count() >= 0
      ensures |xOffset| == r.Count() && forall k :: 0 <= k < |xOffset| ==> xOffset[k] == r.ColumnX(k)
    {
      var horizontalPadding := r.Gap();
      xOffset := [];
      for column := 0 to r.Count()
        invariant |xOffset| == column && forall k :: 0 <= k < column ==> xOffset[k] == r.ColumnX(k)
      {
        xOffset := xOffset + [Times(column, r.cellWidth) + Times(column + 1, horizontalPadding)];
      }
    }

    /** Deals the items out to the columns, into an empty cache. */
    method FillCache(r: Request, xOffset: seq<real>)
      requires Valid() && cache == [] && r.Valid() && r.padding == cellPadding && (r.Count() > 0 || r.heights == [])
      requires |xOffset| == r.Count() && forall k :: 0 <= k < |xOffset| ==> xOffset[k] == r.ColumnX(k)
      modifies `cache, `contentHeight
      ensures cache == r.FreshFrames() && contentHeight == Max(old(contentHeight), r.FreshHeight())
    {
      var n, column := r.Count(), 0;
      var yOffset := seq(n, _ => 0.0);
      for row := 0 to |r.heights|
        invariant |yOffset| == n
        invariant n > 0 ==> column == row % n
        invariant n > 0 ==> forall k :: 0 <= k < n ==> yOffset[k] == r.Filled(k, row)
        invariant |cache| == row && forall k :: 0 <= k < row ==> cache[k] == r.FreshFrame(k)
        invariant contentHeight == Max(old(contentHeight), r.LowestEdge(row))
      {
        var height := cellPadding + r.heights[row] + cellPadding;
        var frame := Frame(xOffset[column], yOffset[column], r.cellWidth, height);
        var insetFrame := Frame(frame.x, frame.y + cellPadding, frame.width, frame.height - 2.0 * cellPadding);
        cache := cache + [insetFrame];
        contentHeight := Max(contentHeight, frame.y + frame.height);
        yOffset := yOffset[column := yOffset[column] + height];
        NextColumn(row, n);
        if column >= n - 1 {
          column := 0;
        } else {
          column := column + 1;
        }
      }
    }

    /** `ok` is false when the source traps. */
    method Prepare(r: Request) returns (ok: bool)
      requires Valid() && r.Valid() && r.padding == cellPadding
      modifies this
      ensures Valid()
      ensures ok <==> !Traps(old(Value()), r)
      ensures ok ==> Value() == Prepared(old(Value()), r)
    {
      if r.contentWidth != cachedWidth || numberOfItems != |r.heights| {
        cache, contentHeight, numberOfItems := [], 0.0, |r.heights|;
      }
      if cache == [] {
        if r.Count() < 0 || (r.Count() == 0 && r.heights != []) {
          return false;
        }
        cachedWidth := r.contentWidth;
        var xOffset := XOffsets(r);
        FillCache(r, xOffset);
      }
      ok := true;
    }

    method InvalidateCache()
      modifies this
      ensures Value() == Invalidated(old(Value()))
    {
      cache := [];
    }

    /** The frames a rect query returns: those that intersect, in order. `intersects` is the platform's. */
    method LayoutAttributesForElements(rect: Frame, intersects: (Frame, Frame) -> bool)
      returns (attributes: seq<Frame>, ghost rows: seq<nat>)
      ensures |attributes| == |rows|
      ensures forall k :: 0 <= k < |rows| ==> rows[k] < |cache| && attributes[k] == cache[rows[k]]
      ensures forall j, k :: 0 <= j < k < |rows| ==> rows[j] < rows[k]
      ensures forall row: nat :: row < |cache| ==> (row in rows <==> intersects(cache[row], rect))
    {
      attributes, rows := [], [];
      for row := 0 to |cache|
        invariant |attributes| == |rows|
        invariant forall k :: 0 <= k < |rows| ==> rows[k] < row && attributes[k] == cache[rows[k]]
        invariant forall j, k :: 0 <= j < k < |rows| ==> rows[j] < rows[k]
        invariant forall q: nat :: q < row ==> (q in rows <==> intersects(cache[q], rect))
      {
        if intersects(cache[row], rect) {
          attributes, rows := attributes + [cache[row]], rows + [row];
        }
      }
    }

    method LayoutAttributesForItem(row: nat) returns (attributes: Option<Frame>)
      ensures attributes == FrameOfItem(Value(), row)
    {
      if row < |cache| {
        return Some(cache[row]);
      }
      return None;
    }
  }

  lemma NextColumn(row: nat, n: int)
    requires n > 0
    ensures (row + 1) % n == if row % n >= n - 1 then 0 else row % n + 1
  {
    var q, m := row / n, row % n;
    assert row == q * n + m;
    if m >= n - 1 {
      assert row + 1 == (q + 1) * n + 0;
      Remainder(row + 1, q + 1, 0, n);
    } else {
      assert row + 1 == q * n + (m + 1);
      Remainder(row + 1, q, m + 1, n);
    }
  }

  lemma Remainder(a: nat, q: nat, m: nat, n: nat)
    requires m < n && a == q * n + m
    ensures a % n == m
  {
    MultiplesApart(a / n - q, n);
    assert (a / n - q) * n == m - a % n;
  }

  lemma MultiplesApart(d: int, n: int)
    requires 0 <= n
    ensures d >= 1 ==> d * n >= n
    ensures d <= -1 ==> d * n <= -n
  {}

  // ---------- Runs ----------

  datatype Event = Prepare(request: Request) | Invalidate

  /** `None` when some `prepare` trapped. */
  function After(events: seq<Event>): Option<State> {
    if events == [] then Some(INITIAL)
    else
      var last := events[|events| - 1];
      match After(events[..|events| - 1])
      case None => None
      case Some(s) =>
        if last.Invalidate? then Some(Invalidated(s))
        else if Traps(s, last.request) then None
        else Some(Prepared(s, last.request))
  }

  /** What the delegate would answer for a width and a number of items. */
  type Delegate = (real, nat) -> Request

  /** The delegate's answers do not change during the run. */
  ghost predicate Stable(events: seq<Event>, delegate: Delegate) {
    forall i :: 0 <= i < |events| && events[i].Prepare? ==>
      events[i].request == delegate(events[i].request.contentWidth, |events[i].request.heights|)
  }

  /** The state after a stable run: an empty cache or a fresh layout, and the height of that layout in either case. */
  ghost predicate Exact(s: State, delegate: Delegate) {
    if s.numberOfItems == 0 then s.cache == [] && s.contentHeight == 0.0
    else
      var r := delegate(s.cachedWidth, s.numberOfItems);
      && |r.heights| == s.numberOfItems && r.Count() > 0
      && (s.cache == [] || s.cache == r.FreshFrames())
      && s.contentHeight == r.FreshHeight()
  }

  lemma PreparedIsExact(s: State, delegate: Delegate, r: Request)
    requires Exact(s, delegate) && !Traps(s, r) && r == delegate(r.contentWidth, |r.heights|)
    ensures Exact(Prepared(s, r), delegate)
    ensures r.heights == [] || r.Count() > 0
    ensures Prepared(s, r).cache == r.FreshFrames() && Prepared(s, r).contentHeight == r.FreshHeight()
    ensures Prepared(s, r).cachedWidth == r.contentWidth
  {
    if r.heights != [] && !Outdated(s, r) {
      assert r == delegate(s.cachedWidth, s.numberOfItems);
    }
    if r.heights == [] || r.Count() > 0 {
      LowestEdgeNotNegative(r, |r.heights|);
    }
  }

  lemma {:induction false} StableRunIsExact(events: seq<Event>, delegate: Delegate)
    requires Stable(events, delegate) && After(events).Some?
    ensures Exact(After(events).value, delegate)
  {
    if events != [] {
      var before, last := events[..|events| - 1], events[|events| - 1];
      assert Stable(before, delegate);
      StableRunIsExact(before, delegate);
      if last.Prepare? {
        PreparedIsExact(After(before).value, delegate, last.request);
      }
    }
  }

  /** With a stable delegate, whatever was prepared and invalidated before, `prepare` leaves exactly the fresh layout
      and exactly its height. */
  lemma StableRunAgreesWithFreshLayout(events: seq<Event>, delegate: Delegate, r: Request)
    requires Stable(events + [Prepare(r)], delegate) && After(events + [Prepare(r)]).Some?
    ensures r.heights == [] || r.Count() > 0
    ensures var s := After(events + [Prepare(r)]).value;
      s.cache == r.FreshFrames() && s.contentHeight == r.FreshHeight() && s.cachedWidth == r.contentWidth
  {
    var all := events + [Prepare(r)];
    assert all[..|all| - 1] == events;
    assert Stable(events, delegate) by {
      forall i | 0 <= i < |events| && events[i].Prepare?
        ensures events[i].request == delegate(events[i].request.contentWidth, |events[i].request.heights|)
      {
        assert all[i] == events[i];
      }
    }
    assert all[|events|] == Prepare(r);
    StableRunIsExact(events, delegate);
    PreparedIsExact(After(events).value, delegate, r);
  }

  /** After such a run every item has its fresh frame, and nothing else has a frame; after an invalidation nothing
      has. */
  lemma ItemsAfterStableRun(events: seq<Event>, delegate: Delegate, r: Request, row: nat)
    requires Stable(events + [Prepare(r)], delegate) && After(events + [Prepare(r)]).Some?
    ensures r.heights == [] || r.Count() > 0
    ensures var s := After(events + [Prepare(r)]).value;
      && FrameOfItem(s, row) == (if row < |r.heights| then Some(r.FreshFrame(row)) else None)
      && FrameOfItem(Invalidated(s), row) == None
  {
    StableRunAgreesWithFreshLayout(events, delegate, r);
  }

  // ---------- Runs with changing heights ----------

  /** The last request that was prepared. */
  function LastRequest(events: seq<Event>): Option<Request> {
    if events == [] then None
    else
      var last := events[|events| - 1];
      if last.Prepare? then Some(last.request) else LastRequest(events[..|events| - 1])
  }

  /** Whether the cache has been invalidated since. */
  predicate InvalidatedSince(events: seq<Event>) {
    events != [] && events[|events| - 1].Invalidate?
  }

  /** The first request, or one with another width or number of items than the last. */
  predicate Changes(events: seq<Event>, r: Request) {
    match LastRequest(events)
    case None => true
    case Some(q) => q.contentWidth != r.contentWidth || |q.heights| != |r.heights|
  }

  /** The requests laid out since the width or the number of items last changed: the one that changed them, and those
      after an invalidation. The events alone tell. */
  function LaidOut(events: seq<Event>): seq<Request> {
    if events == [] then []
    else
      var before, last := events[..|events| - 1], events[|events| - 1];
      if last.Invalidate? then LaidOut(before)
      else if Changes(before, last.request) then [last.request]
      else if InvalidatedSince(before) then LaidOut(before) + [last.request]
      else LaidOut(before)
  }

  /** No request has a layout taller than `h`, and one has exactly that, unless there is none. */
  ghost predicate IsTallest(rs: seq<Request>, h: real) {
    && 0.0 <= h
    && (forall i :: 0 <= i < |rs| ==> (rs[i].heights == [] || rs[i].Count() > 0) && rs[i].FreshHeight() <= h)
    && (if rs == [] then h == 0.0 else exists i :: 0 <= i < |rs| && rs[i].FreshHeight() == h)
  }

  /** What every event keeps, whatever the heights. */
  ghost predicate Follows(s: State, events: seq<Event>) {
    var rs := LaidOut(events);
    && IsTallest(rs, s.contentHeight)
    && (match LastRequest(events)
        case None => s == INITIAL && rs == []
        case Some(q) =>
          && s.cachedWidth == q.contentWidth && s.numberOfItems == |q.heights| && rs != []
          && |rs[|rs| - 1].heights| == |q.heights|
          && s.cache == (if InvalidatedSince(events) then [] else rs[|rs| - 1].FreshFrames()))
  }

  lemma TallestOneMore(rs: seq<Request>, h: real, r: Request)
    requires IsTallest(rs, h) && (r.heights == [] || r.Count() > 0)
    ensures IsTallest(rs + [r], Max(h, r.FreshHeight()))
  {
    LowestEdgeNotNegative(r, |r.heights|);
    var all := rs + [r];
    assert all[|rs|] == r;
    if rs != [] {
      var i :| 0 <= i < |rs| && rs[i].FreshHeight() == h;
      assert all[i].FreshHeight() == h;
    }
  }

  lemma LaidOutOneMore(events: seq<Event>, r: Request)
    ensures LastRequest(events + [Prepare(r)]) == Some(r) && !InvalidatedSince(events + [Prepare(r)])
    ensures LaidOut(events + [Prepare(r)]) ==
      if Changes(events, r) then [r] else LaidOut(events) + (if InvalidatedSince(events) then [r] else [])
  {
    assert (events + [Prepare(r)])[..|events|] == events;
  }

  lemma PreparedFollows(s: State, events: seq<Event>, r: Request)
    requires Follows(s, events) && !Traps(s, r)
    ensures Follows(Prepared(s, r), events + [Prepare(r)])
  {
    LaidOutOneMore(events, r);
    if Changes(events, r) {
      assert Rebuilds(s, r) && (Outdated(s, r) || s.contentHeight == 0.0);
      TallestOneMore([], 0.0, r);
      assert [] + [r] == [r];
    } else if InvalidatedSince(events) {
      assert Rebuilds(s, r) && !Outdated(s, r);
      TallestOneMore(LaidOut(events), s.contentHeight, r);
    } else {
      assert LaidOut(events + [Prepare(r)]) == LaidOut(events);
      if Rebuilds(s, r) {
        assert r.heights == [];
        assert Prepared(s, r) == s;
      }
    }
  }

  lemma {:induction false} EveryRunFollows(events: seq<Event>)
    requires After(events).Some?
    ensures Follows(After(events).value, events)
  {
    if events != [] {
      var before, last := events[..|events| - 1], events[|events| - 1];
      EveryRunFollows(before);
      if last.Prepare? {
        PreparedFollows(After(before).value, before, last.request);
        assert before + [last] == events;
      }
    }
  }

  /** In every run, whatever the heights: after `prepare` the frames are those of the last request laid out, and the
      content height is the greatest of all those laid out since the width or the number of items changed. So it is
      exact for the frames if and only if none of those was taller. */
  lemma ChangedHeightsExactly(events: seq<Event>, r: Request)
    requires After(events + [Prepare(r)]).Some?
    ensures var (s, rs) := (After(events + [Prepare(r)]).value, LaidOut(events + [Prepare(r)]));
      && rs != [] && IsTallest(rs, s.contentHeight)
      && s.cache == rs[|rs| - 1].FreshFrames()
      && (s.contentHeight == rs[|rs| - 1].FreshHeight()
          <==> forall i :: 0 <= i < |rs| ==> rs[i].FreshHeight() <= rs[|rs| - 1].FreshHeight())
  {
    var all := events + [Prepare(r)];
    EveryRunFollows(all);
    assert LastRequest(all) == Some(r) && !InvalidatedSince(all);
  }

  /** One item that shrinks from 2 to 1 leaves a content height of 2. */
  lemma ShrunkContentStaysTall()
    ensures var (tall, low) := (Request(1.0, 1.0, [2.0], 0.0), Request(1.0, 1.0, [1.0], 0.0));
      var s := After([Prepare(tall), Invalidate, Prepare(low)]);
      s.Some? && s.value.contentHeight == 2.0 && low.Count() == 1 && low.FreshHeight() == 1.0
  {
    var (tall, low) := (Request(1.0, 1.0, [2.0], 0.0), Request(1.0, 1.0, [1.0], 0.0));
    assert tall.Count() == low.Count() == 1;
    assert tall.FreshHeight() == Max(tall.LowestEdge(0), tall.Filled(0, 0) + tall.Outer(0)) == 2.0;
    assert low.FreshHeight() == Max(low.LowestEdge(0), low.Filled(0, 0) + low.Outer(0)) == 1.0;
    var e1, e2, e3 := Prepare(tall), Invalidate, Prepare(low);
    assert [e1][..0] == [] && [e1, e2][..1] == [e1] && [e1, e2, e3][..2] == [e1, e2];
    assert After([]) == Some(INITIAL);
    assert After([e1]) == Some(Prepared(INITIAL, tall));
    assert After([e1, e2]) == Some(Invalidated(Prepared(INITIAL, tall)));
    assert After([e1, e2, e3]) == Some(Prepared(Invalidated(Prepared(INITIAL, tall)), low));
  }
}
