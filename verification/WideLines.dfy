/** line_wide of kernel/bitmap.cpp: rows of pixels whose distance from the line is small enough. The
    points it sets are proved against a recursive description of its two nested loops. */
module WideLines {
  import opened Lines

  function Top(s: Segment, x: int, y: int): int {
    (s.x1 - s.x0) * (s.y0 - y) - (s.x0 - x) * (s.y1 - s.y0)
  }

  function Ratio(top: int, bottom: int): int
    requires bottom > 0
  {
    top * top / bottom
  }

  /** line_error: the squared distance of (x, y) from the line through the segment, rounded down. The
      loops ask for it only on segments that are not level. */
  function LineError(s: Segment, x: int, y: int): int
    requires s.y0 != s.y1
  {
    BottomPositive(s.x1 - s.x0, s.y1 - s.y0);
    Ratio(Top(s, x, y), (s.x1 - s.x0) * (s.x1 - s.x0) + (s.y1 - s.y0) * (s.y1 - s.y0))
  }

  lemma BottomPositive(a: int, b: int)
    requires b != 0
    ensures a * a + b * b > 0
  {
    assert b * b > 0;
  }

  /** What one pass of the inner loop leaves: the points it set, and where and with what error the
      next row starts. */
  datatype Row = Row(dots: seq<Point>, nextError: int, start: int)

  /** The inner loop from `x` on. */
  function WideRow(s: Segment, limit: int, y: int, ydelta: int, x: int, error: int, nextError: int, start: int): Row
    requires s.y0 != s.y1
    decreases s.x1 - x
  {
    if error <= limit && x < s.x1 then
      var nextError' := if nextError > limit then LineError(s, x, y + ydelta) else nextError;
      var start' := if nextError > limit then x else start;
      var rest := WideRow(s, limit, y, ydelta, x + 1, LineError(s, x + 1, y), nextError', start');
      Row([(x, y)] + rest.dots, rest.nextError, rest.start)
    else Row([], nextError, start)
  }

  /** The outer loop from row `y` on, towards `s.y1`. */
  function WideRows(s: Segment, limit: int, y: int, error: int, start: int): seq<Point>
    requires Between(s, y)
    decreases Abs(s.y1 - y)
  {
    if y == s.y1 then [] else
    var row := WideRow(s, limit, y, YDelta(s), start, error, limit * 2, start);
    row.dots + WideRows(s, limit, y + YDelta(s), row.nextError, row.start)
  }

  function YDelta(s: Segment): int {
    if s.y0 > s.y1 then -1 else 1
  }

  /** `y` lies between the ends, both included. */
  predicate Between(s: Segment, y: int) {
    if s.y0 > s.y1 then s.y1 <= y <= s.y0 else s.y0 <= y <= s.y1
  }

  /** The ends exchanged if need be, so that the segment runs from left to right. */
  function Rightward(s: Segment): (r: Segment)
    ensures r.x0 <= r.x1 && (r == s || (r == Segment(s.x1, s.y1, s.x0, s.y0) && s.x1 < s.x0))
  {
    if s.x0 > s.x1 then Segment(s.x1, s.y1, s.x0, s.y0) else s
  }

  function WideLine(s: Segment, width: int): seq<Point> {
    WideRows(Rightward(s), Limit(width), Rightward(s).y0, 0, Rightward(s).x0)
  }

  // ----------------------------------------------------------- the loops

  method DrawRow(s: Segment, limit: int, y: int, ydelta: int, from: int, firstError: int) returns (row: Row)
    requires s.y0 != s.y1
    ensures row == WideRow(s, limit, y, ydelta, from, firstError, limit * 2, from)
  {
    var x, error, nextError, start := from, firstError, limit * 2, from;
    var dots := [];
    ghost var whole := WideRow(s, limit, y, ydelta, from, firstError, limit * 2, from);
    while error <= limit && x < s.x1
      invariant var rest := WideRow(s, limit, y, ydelta, x, error, nextError, start);
        whole == Row(dots + rest.dots, rest.nextError, rest.start)
      decreases s.x1 - x
    {
      ghost var rest := WideRow(s, limit, y, ydelta, x, error, nextError, start);
      dots := dots + [(x, y)];
      if nextError > limit {
        nextError := LineError(s, x, y + ydelta);
        start := x;
      }
      x := x + 1;
      error := LineError(s, x, y);
      assert dots + rest.dots[1..] == dots[..|dots| - 1] + rest.dots;
    }
    row := Row(dots, nextError, start);
    assert dots + [] == dots;
  }

  method DrawLineWide(segment: Segment, width: int) returns (dots: seq<Point>)
    ensures dots == WideLine(segment, width)
  {
    var s := if segment.x0 > segment.x1 then Segment(segment.x1, segment.y1, segment.x0, segment.y0) else segment;
    dots := DrawRows(s, Limit(width));
  }

  method DrawRows(s: Segment, limit: int) returns (dots: seq<Point>)
    ensures dots == WideRows(s, limit, s.y0, 0, s.x0)
  {
    var ydelta := if s.y0 > s.y1 then -1 else 1;
    var start, nextError, y := s.x0, 0, s.y0;
    dots := [];
    while y != s.y1
      invariant Between(s, y)
      invariant WideRows(s, limit, s.y0, 0, s.x0) == dots + WideRows(s, limit, y, nextError, start)
      decreases Abs(s.y1 - y)
    {
      RowThenRows(s, limit, y, nextError, start, dots);
      var row := DrawRow(s, limit, y, ydelta, start, nextError);
      dots := dots + row.dots;
      nextError, start, y := row.nextError, row.start, y + ydelta;
    }
  }

  /** The rows from `y` on are one row and the rows after it. */
  lemma RowThenRows(s: Segment, limit: int, y: int, error: int, start: int, before: seq<Point>)
    requires Between(s, y) && y != s.y1
    ensures var row := WideRow(s, limit, y, YDelta(s), start, error, limit * 2, start);
      && Between(s, y + YDelta(s))
      && before + WideRows(s, limit, y, error, start)
         == (before + row.dots) + WideRows(s, limit, y + YDelta(s), row.nextError, row.start)
  {
  }

  // ------------------------------------------------------------ soundness

  /** Near enough to the line, and in the half-open ranges of the segment. */
  predicate Sound(s: Segment, limit: int, p: Point) {
    s.x0 <= p.0 < s.x1 && Between(s, p.1) && p.1 != s.y1 && LineError(s, p.0, p.1) <= limit
  }

  ghost predicate DotsSound(s: Segment, limit: int, dots: seq<Point>) {
    forall i :: 0 <= i < |dots| ==> Sound(s, limit, dots[i])
  }

  /** The pair carried from row to row is consistent: unless the error is too big, it is that of `start`. */
  predicate Carried(s: Segment, limit: int, y: int, error: int, start: int)
    requires s.y0 != s.y1
  {
    s.x0 <= start && (error <= limit ==> error == LineError(s, start, y))
  }

  lemma {:induction false} RowSound(
      s: Segment, limit: int, y: int, ydelta: int, x: int, error: int, nextError: int, start: int)
    requires Between(s, y) && y != s.y1 && Carried(s, limit, y, error, x)
    ensures var row := WideRow(s, limit, y, ydelta, x, error, nextError, start);
      && DotsSound(s, limit, row.dots)
      && (Carried(s, limit, y + ydelta, nextError, start) ==> Carried(s, limit, y + ydelta, row.nextError, row.start))
    decreases s.x1 - x
  {
    if error <= limit && x < s.x1 {
      var nextError' := if nextError > limit then LineError(s, x, y + ydelta) else nextError;
      var start' := if nextError > limit then x else start;
      RowSound(s, limit, y, ydelta, x + 1, LineError(s, x + 1, y), nextError', start');
    }
  }

  lemma DotsSoundAppend(s: Segment, limit: int, a: seq<Point>, b: seq<Point>)
    requires DotsSound(s, limit, a) && DotsSound(s, limit, b)
    ensures DotsSound(s, limit, a + b)
  {
    forall i | 0 <= i < |a + b| ensures Sound(s, limit, (a + b)[i]) {
      assert (a + b)[i] == if i < |a| then a[i] else b[i - |a|];
    }
  }

  lemma {:induction false} RowsSound(s: Segment, limit: int, y: int, error: int, start: int)
    requires s.y0 != s.y1 && Between(s, y) && limit >= 1 && Carried(s, limit, y, error, start)
    ensures DotsSound(s, limit, WideRows(s, limit, y, error, start))
    decreases Abs(s.y1 - y)
  {
    if y != s.y1 {
      var row := WideRow(s, limit, y, YDelta(s), start, error, limit * 2, start);
      RowSound(s, limit, y, YDelta(s), start, error, limit * 2, start);
      RowsSound(s, limit, y + YDelta(s), row.nextError, row.start);
      DotsSoundAppend(s, limit, row.dots, WideRows(s, limit, y + YDelta(s), row.nextError, row.start));
    }
  }

  /** A quarter of the squared width, rounded down. */
  function Limit(width: int): (limit: nat)
    ensures 4 * limit <= width * width < 4 * limit + 4
  {
    SquareNotNegative(width);
    width * width / 4
  }

  lemma SquareNotNegative(n: int)
    ensures n * n >= 0
  {
  }

  lemma LimitPositive(width: int)
    ensures Limit(width) >= 1 <==> Abs(width) >= 2
  {
    assert width * width == Abs(width) * Abs(width);
    if Abs(width) >= 2 { assert Abs(width) * Abs(width) >= 2 * Abs(width); }
    if Abs(width) == 1 { assert Abs(width) * Abs(width) == 1; }
  }

  /** Every point that a pen of that width sets is near enough and in range. */
  ghost predicate AllSound(s: Segment, width: int) {
    DotsSound(Rightward(s), Limit(width), WideLine(s, width))
  }

  lemma WideIsSound(s: Segment, width: int)
    requires Abs(width) >= 2
    ensures AllSound(s, width)
  {
    var r := Rightward(s);
    if r.y0 != r.y1 {
      LimitPositive(width);
      ColumnError(r, r.y0);
      assert (r.x1 - r.x0) * 0 == 0;
      RowsSound(r, Limit(width), r.y0, 0, r.x0);
    }
  }

  // ---------------------------------------------------- pens that are too thin

  /** Without room for error the next row starts again at the left end, whatever its error there. */
  lemma {:induction false} ThinRowStays(s: Segment, y: int, ydelta: int, x: int, error: int, start: int)
    requires s.y0 != s.y1
    ensures var row := WideRow(s, 0, y, ydelta, x, error, 0, start);
      && row.nextError == 0 && row.start == start
      && (error <= 0 && x < s.x1 ==> row.dots != [] && row.dots[0] == (x, y))
    decreases s.x1 - x
  {
    if error <= 0 && x < s.x1 {
      ThinRowStays(s, y, ydelta, x + 1, LineError(s, x + 1, y), start);
    }
  }

  /** `y` is the row of `from` or a later one, but not the end. */
  predicate Ahead(s: Segment, from: int, y: int) {
    if s.y0 > s.y1 then s.y1 < y <= from <= s.y0 else s.y0 <= from <= y < s.y1
  }

  /** So every pixel of the left column is set, on the way down as on the way up. */
  lemma {:induction false} ThinSetsColumn(s: Segment, from: int, y: int)
    requires s.x0 < s.x1 && Ahead(s, from, y)
    ensures (s.x0, y) in WideRows(s, 0, from, 0, s.x0)
    decreases Abs(y - from)
  {
    var row := WideRow(s, 0, from, YDelta(s), s.x0, 0, 0, s.x0);
    ThinRowStays(s, from, YDelta(s), s.x0, 0, s.x0);
    var rest := WideRows(s, 0, from + YDelta(s), 0, s.x0);
    assert WideRows(s, 0, from, 0, s.x0) == row.dots + rest;
    if from == y {
      assert (row.dots + rest)[0] == (s.x0, y);
    } else {
      ThinSetsColumn(s, from + YDelta(s), y);
    }
  }

  /** The left column has no error in any row. */
  ghost predicate ColumnExact(s: Segment) {
    forall v :: Between(s, v) && v != s.y1 ==> LineError(s, s.x0, v) == 0
  }

  lemma {:induction false} ThinRowsSound(s: Segment, y: int)
    requires Between(s, y) && ColumnExact(s)
    ensures DotsSound(s, 0, WideRows(s, 0, y, 0, s.x0))
    decreases Abs(s.y1 - y)
  {
    if y != s.y1 {
      RowSound(s, 0, y, YDelta(s), s.x0, 0, 0, s.x0);
      ThinRowStays(s, y, YDelta(s), s.x0, 0, s.x0);
      ThinRowsSound(s, y + YDelta(s));
      DotsSoundAppend(s, 0, WideRow(s, 0, y, YDelta(s), s.x0, 0, 0, s.x0).dots, WideRows(s, 0, y + YDelta(s), 0, s.x0));
    }
  }

  /** A pen of width zero or one is right exactly when the whole left column is on the line. */
  lemma ThinIsSoundExactly(s: Segment)
    requires s.x0 < s.x1
    ensures DotsSound(s, 0, WideRows(s, 0, s.y0, 0, s.x0)) <==> ColumnExact(s)
  {
    if ColumnExact(s) {
      ThinRowsSound(s, s.y0);
    } else {
      var v :| Between(s, v) && v != s.y1 && LineError(s, s.x0, v) != 0;
      ThinSetsColumn(s, s.y0, v);
      ErrorNotNegative(s, s.x0, v);
      var dots := WideRows(s, 0, s.y0, 0, s.x0);
      var i :| 0 <= i < |dots| && dots[i] == (s.x0, v);
      assert !Sound(s, 0, dots[i]);
    }
  }

  lemma ErrorNotNegative(s: Segment, x: int, y: int)
    requires s.y0 != s.y1
    ensures LineError(s, x, y) >= 0
  {
    BottomPositive(s.x1 - s.x0, s.y1 - s.y0);
    SquareNotNegative(Top(s, x, y));
  }

  // --------------------------------------------------- the segments a thin pen gets right

  lemma ColumnError(s: Segment, v: int)
    requires s.y0 != s.y1
    ensures var a, k, h := Abs(s.x1 - s.x0), Abs(s.y0 - v), Abs(s.y1 - s.y0);
      LineError(s, s.x0, v) == 0 <==> (a * k) * (a * k) < a * a + h * h
  {
    assert Top(s, s.x0, v) == (s.x1 - s.x0) * (s.y0 - v);
    RatioOfColumn(s.x1 - s.x0, s.y0 - v, s.y1 - s.y0);
  }

  lemma RatioOfColumn(dx: int, k: int, dy: int)
    requires dy != 0
    ensures dx * dx + dy * dy > 0
    ensures Ratio(dx * k, dx * dx + dy * dy) == 0
       <==> (Abs(dx) * Abs(k)) * (Abs(dx) * Abs(k)) < Abs(dx) * Abs(dx) + Abs(dy) * Abs(dy)
  {
    BottomPositive(dx, dy);
    SquareOfProduct(dx, k);
    RatioIsZero(dx * k, dx * dx + dy * dy);
    SquareOfAbs(dx);
    SquareOfAbs(dy);
  }

  lemma SquareOfAbs(x: int)
    ensures Abs(x) * Abs(x) == x * x
  {
  }

  lemma SquareOfProduct(x: int, y: int)
    ensures (x * y) * (x * y) == (Abs(x) * Abs(y)) * (Abs(x) * Abs(y))
  {
    assert x * y == Abs(x) * Abs(y) || x * y == -(Abs(x) * Abs(y));
    SquareOfNegative(x * y, Abs(x) * Abs(y));
  }

  lemma SquareOfNegative(p: int, q: int)
    requires p == q || p == -q
    ensures p * p == q * q
  {
  }

  lemma RatioIsZero(top: int, bottom: int)
    requires bottom > 0
    ensures Ratio(top, bottom) == 0 <==> top * top < bottom
  {
    SquareNotNegative(top);
  }

  /** The column is near enough when it is next to the line or the segment is flat. */
  lemma NearColumn(a: nat, k: nat, h: nat)
    requires k < h && (a <= 1 || h <= 2)
    ensures (a * k) * (a * k) < a * a + h * h
  {
    if a <= 1 {
      assert a * k <= k;
      assert (a * k) * (a * k) <= k * k < h * h;
    } else {
      assert a * k == if k == 0 then 0 else a;
      assert h * h > 0;
    }
  }

  lemma FarColumn(a: nat, k: nat)
    requires a >= 2 && k >= 2
    ensures (a * k) * (a * k) >= a * a + (k + 1) * (k + 1)
  {
    var p, q := a * a, k * k;
    ProductGrows(a, 2, a);
    ProductGrows(k, 2, k);
    ProductGrows(p, 4, q - 1);
    assert (k + 1) * (k + 1) == q + 2 * k + 1;
    calc {
      (a * k) * (a * k);
      p * q;
      p + p * (q - 1);
    }
  }

  lemma ProductGrows(x: nat, least: nat, y: nat)
    requires x >= least
    ensures x * y >= least * y
  {
  }

  lemma ColumnExactly(s: Segment)
    requires s.x0 <= s.x1
    ensures ColumnExact(s) <==> s.x1 - s.x0 <= 1 || Abs(s.y1 - s.y0) <= 2
  {
    var a, h := Abs(s.x1 - s.x0), Abs(s.y1 - s.y0);
    if a <= 1 || h <= 2 {
      forall v | Between(s, v) && v != s.y1 ensures LineError(s, s.x0, v) == 0 {
        ColumnError(s, v);
        NearColumn(a, Abs(s.y0 - v), h);
      }
    } else {
      var v := s.y1 - YDelta(s);
      ColumnError(s, v);
      FarColumn(a, h - 1);
      assert Between(s, v) && LineError(s, s.x0, v) != 0;
    }
  }

  /** Every pixel set on a segment is near the line and in range exactly when the pen is at least two
      wide, or the segment at most one column wide or two rows high. */
  lemma SoundExactly(s: Segment, width: int)
    ensures AllSound(s, width) <==> Abs(width) >= 2 || Abs(s.x1 - s.x0) <= 1 || Abs(s.y1 - s.y0) <= 2
  {
    var r := Rightward(s);
    LimitPositive(width);
    if Abs(width) >= 2 {
      WideIsSound(s, width);
    } else {
      ColumnExactly(r);
      if r.x0 < r.x1 { ThinIsSoundExactly(r); } else { ThinRowsSound(r, r.y0); }
    }
  }

  lemma Diagonal() returns (s: Segment)
    ensures s.x1 - s.x0 == 4 && s.y1 - s.y0 == 4
  {
    s := Segment(0, 0, 4, 4);
  }

  /** So a pen width is right on every segment exactly when it is two or more. */
  lemma WideIsSoundExactly(width: int)
    ensures (forall s: Segment :: AllSound(s, width)) <==> Abs(width) >= 2
  {
    if Abs(width) >= 2 {
      forall s: Segment ensures AllSound(s, width) { WideIsSound(s, width); }
    } else {
      var s := Diagonal();
      SoundExactly(s, width);
    }
  }
}
