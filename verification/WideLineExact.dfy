/** Which points line_wide of kernel/bitmap.cpp sets: for a pen at least two wide, all those of the
    half-open box of the segment whose squared distance from the line, rounded down, is at most a
    quarter of the squared width, and no others. */
module WideLineExact {
  import opened Lines
  import opened WideLines

  // ------------------------------------------------------------------ what line_error measures

  ghost function Square(a: real): real {
    a * a
  }

  /** The squared distance of (x, y) from the point of the line that divides the segment as `t` says. */
  ghost function DistanceTo(s: Segment, x: int, y: int, t: real): real {
    Square((x - s.x0) as real - t * (s.x1 - s.x0) as real) + Square((y - s.y0) as real - t * (s.y1 - s.y0) as real)
  }

  /** Pythagoras, with the foot of the perpendicular at q / n. */
  lemma Perpendicular(a: real, b: real, dx: real, dy: real, t: real)
    ensures var n, c, q := dx * dx + dy * dy, a * dy - b * dx, a * dx + b * dy;
      n * (Square(a - t * dx) + Square(b - t * dy)) == Square(c) + Square(q - t * n)
  {
  }

  lemma RealProduct(a: int, b: int)
    ensures (a * b) as real == a as real * b as real
  {
  }

  lemma ScaledBounds(n: real, d: real, e: real)
    requires n > 0.0
    ensures n * d >= e * n <==> d >= e
  {
    assert n * d - e * n == n * (d - e);
  }

  /** line_error is the squared distance from the line, rounded down: no point of the line is nearer,
      and one is nearer than the next whole number says. */
  lemma ErrorIsDistance(s: Segment, x: int, y: int)
    requires s.y0 != s.y1
    ensures forall t: real :: LineError(s, x, y) as real <= DistanceTo(s, x, y, t)
    ensures exists t: real :: DistanceTo(s, x, y, t) < LineError(s, x, y) as real + 1.0
  {
    forall t: real ensures LineError(s, x, y) as real <= DistanceTo(s, x, y, t) {
      NoneIsNearer(s, x, y, t);
    }
    var t := Foot(s, x, y);
  }

  lemma NoneIsNearer(s: Segment, x: int, y: int, t: real)
    requires s.y0 != s.y1
    ensures LineError(s, x, y) as real <= DistanceTo(s, x, y, t)
  {
    var n, low := Scaled(s, x, y, t);
    ScaledBounds(n, DistanceTo(s, x, y, t), LineError(s, x, y) as real);
  }

  lemma Foot(s: Segment, x: int, y: int) returns (t: real)
    requires s.y0 != s.y1
    ensures DistanceTo(s, x, y, t) < LineError(s, x, y) as real + 1.0
  {
    var n, low;
    n, low, t := ScaledFoot(s, x, y);
    BelowBound(n, DistanceTo(s, x, y, t), low, LineError(s, x, y) as real + 1.0);
  }

  /** Scaled by `n`, no squared distance is below `low`, which the error bounds from below. */
  lemma Scaled(s: Segment, x: int, y: int, t: real) returns (n: real, low: real)
    requires s.y0 != s.y1
    ensures n > 0.0 && LineError(s, x, y) as real * n <= low <= n * DistanceTo(s, x, y, t)
  {
    var c, q;
    n, c, q := RealTerms(s, x, y);
    AtParameter(s, x, y, t, n, c, q);
    SquareOfReal(q - t * n);
    low := Square(c);
  }

  lemma ScaledFoot(s: Segment, x: int, y: int) returns (n: real, low: real, t: real)
    requires s.y0 != s.y1
    ensures n > 0.0 && n * DistanceTo(s, x, y, t) == low < (LineError(s, x, y) as real + 1.0) * n
  {
    var c, q;
    n, c, q := RealTerms(s, x, y);
    t := Quotient(q, n);
    AtParameter(s, x, y, t, n, c, q);
    low := Square(c);
  }

  lemma Quotient(q: real, n: real) returns (t: real)
    requires n > 0.0
    ensures Square(q - t * n) == 0.0
  {
    t := q / n;
    assert t * n == q;
  }

  lemma BelowBound(n: real, d: real, scaled: real, e: real)
    requires n > 0.0 && n * d == scaled < e * n
    ensures d < e
  {
    ScaledBounds(n, d, e);
  }

  lemma SquareOfReal(a: real)
    ensures Square(a) >= 0.0
  {
  }

  lemma AtParameter(s: Segment, x: int, y: int, t: real, n: real, c: real, q: real)
    requires var a, b, dx, dy := (x - s.x0) as real, (y - s.y0) as real, (s.x1 - s.x0) as real, (s.y1 - s.y0) as real;
      n == dx * dx + dy * dy && c == a * dy - b * dx && q == a * dx + b * dy
    ensures n * DistanceTo(s, x, y, t) == Square(c) + Square(q - t * n)
  {
    Perpendicular((x - s.x0) as real, (y - s.y0) as real, (s.x1 - s.x0) as real, (s.y1 - s.y0) as real, t);
  }

  /** The terms of the distance as reals, and where the rounded one lies. */
  lemma RealTerms(s: Segment, x: int, y: int) returns (n: real, c: real, q: real)
    requires s.y0 != s.y1
    ensures var a, b, dx, dy := (x - s.x0) as real, (y - s.y0) as real, (s.x1 - s.x0) as real, (s.y1 - s.y0) as real;
      n == dx * dx + dy * dy && c == a * dy - b * dx && q == a * dx + b * dy
    ensures n > 0.0
    ensures LineError(s, x, y) as real * n <= Square(c) < (LineError(s, x, y) as real + 1.0) * n
  {
    var a, b, dx, dy := x - s.x0, y - s.y0, s.x1 - s.x0, s.y1 - s.y0;
    n := dx as real * dx as real + dy as real * dy as real;
    c := a as real * dy as real - b as real * dx as real;
    q := a as real * dx as real + b as real * dy as real;
    BottomPositive(dx, dy);
    RealSum(dx, dx, dy, dy);
    RealSum(a, dy, -b, dx);
    assert Top(s, x, y) == a * dy + (-b) * dx;
    RealQuotient(a * dy + (-b) * dx, dx * dx + dy * dy);
  }

  lemma RealSum(a: int, b: int, c: int, d: int)
    ensures (a * b + c * d) as real == a as real * b as real + c as real * d as real
  {
    RealProduct(a, b);
    RealProduct(c, d);
  }

  lemma RealQuotient(k: int, m: int)
    requires m > 0
    ensures Ratio(k, m) as real * m as real <= Square(k as real) < (Ratio(k, m) as real + 1.0) * m as real
  {
    DivisionBounds(k * k, m);
    RealProduct(k, k);
    RealProduct(m, Ratio(k, m));
  }

  // ------------------------------------------------------------------------------- one row

  /** The inner loop sets a run of points from `x` on, which ends at the right end of the segment or
      before a point with too big an error. */
  ghost predicate RowRuns(s: Segment, limit: int, y: int, x: int, error: int, row: Row)
    requires s.y0 != s.y1
  {
    var end := x + |row.dots|;
    && (forall i :: 0 <= i < |row.dots| ==> row.dots[i] == (x + i, y))
    && (row.dots != [] <==> error <= limit && x < s.x1)
    && (forall u :: x < u < end ==> LineError(s, u, y) <= limit)
    && (row.dots != [] ==> end <= s.x1 && (end == s.x1 || LineError(s, end, y) > limit))
  }

  /** The next row starts at the first column of this one that is near enough there, or else at the
      last column. */
  ghost predicate RowCarries(s: Segment, limit: int, y: int, x: int, row: Row)
    requires s.y0 != s.y1
  {
    && x <= row.start < x + |row.dots| && row.nextError == LineError(s, row.start, y)
    && (forall u :: x <= u < row.start ==> LineError(s, u, y) > limit)
    && (row.nextError > limit ==> row.start == x + |row.dots| - 1)
  }

  lemma {:induction false} RowIs(
      s: Segment, limit: int, y: int, ydelta: int, x: int, error: int, nextError: int, start: int)
    requires s.y0 != s.y1
    ensures RowRuns(s, limit, y, x, error, WideRow(s, limit, y, ydelta, x, error, nextError, start))
    decreases s.x1 - x
  {
    if error <= limit && x < s.x1 {
      var nextError' := if nextError > limit then LineError(s, x, y + ydelta) else nextError;
      var start' := if nextError > limit then x else start;
      RowIs(s, limit, y, ydelta, x + 1, LineError(s, x + 1, y), nextError', start');
    }
  }

  lemma {:induction false} NextRowIs(
      s: Segment, limit: int, y: int, ydelta: int, x: int, error: int, nextError: int, start: int)
    requires s.y0 != s.y1
    ensures var row := WideRow(s, limit, y, ydelta, x, error, nextError, start);
      && (nextError > limit && row.dots != [] ==> RowCarries(s, limit, y + ydelta, x, row))
      && (nextError <= limit || row.dots == [] ==> row.nextError == nextError && row.start == start)
    decreases s.x1 - x
  {
    if error <= limit && x < s.x1 {
      var nextError' := if nextError > limit then LineError(s, x, y + ydelta) else nextError;
      var start' := if nextError > limit then x else start;
      NextRowIs(s, limit, y, ydelta, x + 1, LineError(s, x + 1, y), nextError', start');
    }
  }

  // ---------------------------------------------------------------------------- thin pens

  /** The points from the left end of their row on, as long as the error is zero. */
  ghost predicate FromLeft(s: Segment, p: Point) {
    && s.x0 <= p.0 < s.x1 && Between(s, p.1) && p.1 != s.y1
    && forall u :: s.x0 < u <= p.0 ==> LineError(s, u, p.1) <= 0
  }

  lemma ThinRow(s: Segment, y: int, dots: seq<Point>)
    requires Between(s, y) && y != s.y1
    requires dots == WideRow(s, 0, y, YDelta(s), s.x0, 0, 0, s.x0).dots
    ensures forall p :: p in dots <==> FromLeft(s, p) && p.1 == y
  {
    RowIs(s, 0, y, YDelta(s), s.x0, 0, 0, s.x0);
    DotsOfRun(y, s.x0, dots);
  }

  lemma {:induction false} ThinRows(s: Segment, y: int)
    requires Between(s, y)
    ensures forall p :: p in WideRows(s, 0, y, 0, s.x0) <==> FromLeft(s, p) && Ahead(s, y, p.1)
    decreases Abs(s.y1 - y)
  {
    if y != s.y1 {
      ThinRow(s, y, WideRow(s, 0, y, YDelta(s), s.x0, 0, 0, s.x0).dots);
      ThinRowStays(s, y, YDelta(s), s.x0, 0, s.x0);
      ThinRows(s, y + YDelta(s));
    }
  }

  /** A thinner pen sets in every row the points from the left end on whose squared distance from the
      line is below one, and the left end whatever its distance. */
  lemma ThinDrawsFromLeft(s: Segment, width: int, p: Point)
    requires Abs(width) < 2
    ensures p in WideLine(s, width) <==> FromLeft(Rightward(s), p)
  {
    LimitPositive(width);
    ThinRows(Rightward(s), Rightward(s).y0);
  }

  // ---------------------------------------------------------------- how the error moves

  /** The signed measure of which LineError is the square over the norm: it grows along a row and
      falls from row to row. */
  function Offset(s: Segment, x: int, y: int): int {
    (x - s.x0) * Abs(s.y1 - s.y0) - (s.x1 - s.x0) * Abs(y - s.y0)
  }

  function Norm(s: Segment): int {
    (s.x1 - s.x0) * (s.x1 - s.x0) + (s.y1 - s.y0) * (s.y1 - s.y0)
  }

  predicate Near(s: Segment, limit: int, c: int) {
    c * c < (limit + 1) * Norm(s)
  }

  lemma ErrorIsNear(s: Segment, limit: int, x: int, y: int)
    requires s.y0 != s.y1 && Between(s, y)
    ensures LineError(s, x, y) <= limit <==> Near(s, limit, Offset(s, x, y))
  {
    var c, n := Top(s, x, y), Norm(s);
    BottomPositive(s.x1 - s.x0, s.y1 - s.y0);
    assert c == Offset(s, x, y) || c == -Offset(s, x, y);
    SquareOfNegative(c, Offset(s, x, y));
    QuotientAtMost(c * c, n, limit);
  }

  lemma QuotientAtMost(a: int, d: int, limit: int)
    requires d > 0
    ensures a / d <= limit <==> a < (limit + 1) * d
  {
    var q := a / d;
    DivisionBounds(a, d);
    if q <= limit { assert (q + 1) * d <= (limit + 1) * d; } else { assert q * d >= (limit + 1) * d; }
  }

  lemma OffsetSteps(s: Segment, x: int, y: int)
    requires Between(s, y) && y != s.y1
    ensures Offset(s, x + 1, y) == Offset(s, x, y) + Abs(s.y1 - s.y0)
    ensures Between(s, y + YDelta(s)) && Offset(s, x, y + YDelta(s)) == Offset(s, x, y) - (s.x1 - s.x0)
  {
    assert Abs(y + YDelta(s) - s.y0) == Abs(y - s.y0) + 1;
  }

  lemma OffsetGrows(s: Segment, x: int, u: int, y: int)
    requires x <= u
    ensures Offset(s, x, y) <= Offset(s, u, y)
  {
    assert (u - x) * Abs(s.y1 - s.y0) >= 0;
    assert Offset(s, u, y) == Offset(s, x, y) + (u - x) * Abs(s.y1 - s.y0);
  }

  lemma SquareBetween(m: int, a: int, b: int, c: int)
    requires a <= b <= c && a * a < m && c * c < m
    ensures b * b < m
  {
    if b >= 0 { assert b * b <= c * c; } else { assert b * b <= a * a; }
  }

  /** A measure that is too big and not negative is at least the sum of the two steps. */
  lemma FarIsFar(dx: nat, h: nat, limit: int, c: int)
    requires limit >= 1 && c >= 0 && c * c >= (limit + 1) * (dx * dx + h * h)
    ensures c >= dx + h
  {
    assert (limit + 1) * (dx * dx + h * h) >= 2 * (dx * dx + h * h);
    assert (dx + h) * (dx + h) + (dx - h) * (dx - h) == 2 * (dx * dx + h * h);
    SquareNotNegative(dx - h);
    SmallerSquare(c, dx + h);
  }

  lemma SmallerSquare(a: nat, b: nat)
    requires a * a >= b * b
    ensures a >= b
  {
    assert a < b ==> a * a < b * b;
  }

  // -------------------------------------------------------------- all points near enough

  /** In a row the points near enough are next to each other. */
  lemma RowIsConvex(s: Segment, limit: int, y: int, a: int, b: int, c: int)
    requires s.y0 != s.y1 && Between(s, y) && a <= b <= c
    requires LineError(s, a, y) <= limit && LineError(s, c, y) <= limit
    ensures LineError(s, b, y) <= limit
  {
    ErrorIsNear(s, limit, a, y);
    ErrorIsNear(s, limit, b, y);
    ErrorIsNear(s, limit, c, y);
    OffsetGrows(s, a, b, y);
    OffsetGrows(s, b, c, y);
    SquareBetween((limit + 1) * Norm(s), Offset(s, a, y), Offset(s, b, y), Offset(s, c, y));
  }

  /** `x` is the first column of row `y` that is near enough. */
  ghost predicate Leftmost(s: Segment, limit: int, y: int, x: int)
    requires s.y0 != s.y1
  {
    s.x0 <= x < s.x1 && LineError(s, x, y) <= limit && forall u :: s.x0 <= u < x ==> LineError(s, u, y) > limit
  }

  /** What is left of the points near enough in one row is so in the next. */
  lemma LeftStaysLeft(s: Segment, limit: int, y: int, u: int, x: int)
    requires s.y0 != s.y1 && s.x0 < s.x1 && Between(s, y) && y != s.y1 && u <= x
    requires LineError(s, u, y) > limit && LineError(s, x, y) <= limit
    ensures LineError(s, u, y + YDelta(s)) > limit
  {
    OffsetSteps(s, u, y);
    ErrorIsNear(s, limit, u, y);
    ErrorIsNear(s, limit, x, y);
    ErrorIsNear(s, limit, u, y + YDelta(s));
    OffsetGrows(s, u, x, y);
    if Near(s, limit, Offset(s, u, y) - (s.x1 - s.x0)) {
      SquareBetween((limit + 1) * Norm(s), Offset(s, u, y) - (s.x1 - s.x0), Offset(s, u, y), Offset(s, x, y));
    }
  }

  /** In the next row, the last column of this one is not far to the left of the line. */
  lemma LastIsNotLeft(s: Segment, limit: int, y: int, last: int)
    requires s.y0 != s.y1 && s.x0 < s.x1 && Between(s, y) && y != s.y1 && limit >= 1
    requires LineError(s, last, y) <= limit && last < s.x1
    requires last + 1 == s.x1 || LineError(s, last + 1, y) > limit
    ensures Offset(s, last, y + YDelta(s)) + Abs(s.y1 - s.y0) >= 0
  {
    var dx, h := s.x1 - s.x0, Abs(s.y1 - s.y0);
    OffsetSteps(s, last, y);
    if last + 1 == s.x1 {
      OffsetSteps(s, s.x1, y);
      EndIsRight(s, y + YDelta(s));
    } else {
      var c := Offset(s, last + 1, y);
      ErrorIsNear(s, limit, last, y);
      ErrorIsNear(s, limit, last + 1, y);
      NormPositive(s, limit);
      if c < 0 { SquareBetween((limit + 1) * Norm(s), Offset(s, last, y), c, 0); }
      SquareOfAbs(s.y1 - s.y0);
      FarIsFar(dx, h, limit, c);
    }
  }

  lemma NormPositive(s: Segment, limit: int)
    requires s.y0 != s.y1 && limit >= 1
    ensures 0 < Norm(s) && Abs(s.y1 - s.y0) * Abs(s.y1 - s.y0) < (limit + 1) * Norm(s)
  {
    BottomPositive(s.x1 - s.x0, s.y1 - s.y0);
    SquareOfAbs(s.y1 - s.y0);
    SquareNotNegative(s.x1 - s.x0);
    assert (limit + 1) * Norm(s) >= 2 * Norm(s);
  }

  lemma EndIsRight(s: Segment, y: int)
    requires s.x0 < s.x1 && Between(s, y)
    ensures Offset(s, s.x1, y) >= 0 && Offset(s, s.x1 - 1, y) + Abs(s.y1 - s.y0) >= 0
  {
    var dx, h, k := s.x1 - s.x0, Abs(s.y1 - s.y0), Abs(y - s.y0);
    assert dx * (h - k) >= 0;
    assert (dx - 1) * h == dx * h - h;
  }

  /** So it is near enough there, and the search for the next start succeeds. */
  lemma LastIsNear(s: Segment, limit: int, y: int, last: int)
    requires s.y0 != s.y1 && s.x0 < s.x1 && Between(s, y) && y != s.y1 && limit >= 1
    requires LineError(s, last, y) <= limit && last < s.x1
    requires last + 1 == s.x1 || LineError(s, last + 1, y) > limit
    ensures LineError(s, last, y + YDelta(s)) <= limit
  {
    var h: int := Abs(s.y1 - s.y0);
    LastIsNotLeft(s, limit, y, last);
    OffsetSteps(s, last, y);
    ErrorIsNear(s, limit, last, y);
    ErrorIsNear(s, limit, last, y + YDelta(s));
    NormPositive(s, limit);
    SquareOfNegative(-h, h);
    SquareBetween((limit + 1) * Norm(s), -h, Offset(s, last, y + YDelta(s)), Offset(s, last, y));
  }

  /** One row, from its leftmost point: all its points near enough are set, and the next row starts
      at its own leftmost point. */
  lemma RowComplete(s: Segment, limit: int, y: int, x: int, row: Row)
    requires s.y0 != s.y1 && s.x0 < s.x1 && Between(s, y) && y != s.y1 && limit >= 1 && Leftmost(s, limit, y, x)
    requires row == WideRow(s, limit, y, YDelta(s), x, LineError(s, x, y), limit * 2, x)
    ensures forall p :: p in row.dots <==> Sound(s, limit, p) && p.1 == y
    ensures Leftmost(s, limit, y + YDelta(s), row.start) && row.nextError == LineError(s, row.start, y + YDelta(s))
  {
    RowIs(s, limit, y, YDelta(s), x, LineError(s, x, y), limit * 2, x);
    NextRowIs(s, limit, y, YDelta(s), x, LineError(s, x, y), limit * 2, x);
    var end := x + |row.dots|;
    forall u | end <= u < s.x1 ensures LineError(s, u, y) > limit {
      if LineError(s, u, y) <= limit { RowIsConvex(s, limit, y, x, end, u); }
    }
    DotsOfRun(y, x, row.dots);
    LastIsNear(s, limit, y, end - 1);
    var next := y + YDelta(s);
    forall u | s.x0 <= u < x ensures LineError(s, u, next) > limit {
      LeftStaysLeft(s, limit, y, u, x);
    }
  }

  lemma DotsOfRun(y: int, x: int, dots: seq<Point>)
    requires forall i :: 0 <= i < |dots| ==> dots[i] == (x + i, y)
    ensures forall p :: p in dots <==> x <= p.0 < x + |dots| && p.1 == y
  {
    forall p: Point | x <= p.0 < x + |dots| && p.1 == y ensures p in dots {
      assert dots[p.0 - x] == p;
    }
  }

  lemma {:induction false} RowsComplete(s: Segment, limit: int, y: int, x: int)
    requires s.y0 != s.y1 && s.x0 < s.x1 && Between(s, y) && limit >= 1 && (y != s.y1 ==> Leftmost(s, limit, y, x))
    ensures forall p :: p in WideRows(s, limit, y, LineError(s, x, y), x) <==> Sound(s, limit, p) && Ahead(s, y, p.1)
    decreases Abs(s.y1 - y)
  {
    if y != s.y1 {
      var row := WideRow(s, limit, y, YDelta(s), x, LineError(s, x, y), limit * 2, x);
      RowComplete(s, limit, y, x, row);
      RowsComplete(s, limit, y + YDelta(s), row.start);
    }
  }

  /** Near enough as the plane has it: in the half-open box of the segment, and with a point of the line
      at a squared distance below `limit` + 1. */
  ghost predicate InBand(s: Segment, limit: int, p: Point) {
    && s.x0 <= p.0 < s.x1 && Between(s, p.1) && p.1 != s.y1
    && exists t: real :: DistanceTo(s, p.0, p.1, t) < limit as real + 1.0
  }

  lemma SoundIsInBand(s: Segment, limit: int, p: Point)
    ensures Sound(s, limit, p) <==> InBand(s, limit, p)
  {
    if Between(s, p.1) && p.1 != s.y1 { ErrorIsDistance(s, p.0, p.1); }
  }

  /** A pen at least two wide sets exactly the points of the band around the line. */
  lemma DrawsTheBand(s: Segment, width: int, p: Point)
    requires Abs(width) >= 2
    ensures p in WideLine(s, width) <==> InBand(Rightward(s), Limit(width), p)
  {
    var r, limit := Rightward(s), Limit(width);
    SoundIsInBand(r, limit, p);
    LimitPositive(width);
    if r.y0 != r.y1 && r.x0 < r.x1 {
      ColumnError(r, r.y0);
      RowsComplete(r, limit, r.y0, r.x0);
    } else {
      WideIsSound(s, width);
    }
  }
}
