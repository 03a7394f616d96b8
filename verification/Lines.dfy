/** The thin lines of kernel/bitmap.cpp: `LineBresenham` returns the points it passes to pen_dot, in
    order. Coordinates are unbounded. */
module Lines {

  type Point = (int, int)

  function Abs(x: int): nat {
    if x < 0 then -x else x
  }

  /** `k` steps from `x` in a direction, backwards if it is negative. */
  function Toward(x: int, direction: int, k: int): int {
    if direction < 0 then x - k else x + k
  }

  // -------------------------------------------------------------- Bresenham

  /** How far the minor coordinate has moved after `k` of `n` steps towards a total of `m`: the
      nearest whole number to m * k / n, the smaller one of two. */
  function Minor(n: nat, m: nat, k: nat): int
    requires n > 0
  {
    (2 * (m * k) + n - 1) / (2 * n)
  }

  /** `t` is within half a step of the true line after `k` of `n` steps towards a total of `m`; exactly
      half a step only from below. */
  predicate Nearest(n: nat, m: nat, k: nat, t: int) {
    0 < 2 * (m * k) - 2 * (n * t) + n <= 2 * n
  }

  /** `Minor` is the only such number. */
  lemma MinorIsNearest(n: nat, m: nat, k: nat, t: int)
    requires n > 0
    ensures Nearest(n, m, k, t) <==> t == Minor(n, m, k)
  {
    var a, q := 2 * (m * k) + n - 1, Minor(n, m, k);
    DivisionBounds(a, 2 * n);
    assert (2 * n) * q == 2 * (n * q);
    OnlyNearest(n, m * k, q, t);
  }

  lemma DivisionBounds(a: int, d: int)
    requires d > 0
    ensures d * (a / d) <= a < d * (a / d) + d
  {
  }

  lemma OnlyNearest(n: int, p: int, q: int, t: int)
    requires n > 0 && 2 * (n * q) <= 2 * p + n - 1 < 2 * (n * q) + 2 * n
    ensures -n < 2 * p - 2 * (n * t) <= n <==> t == q
  {
    if t < q { MultiplesApart(n, t, q); }
    if t > q { MultiplesApart(n, q, t); }
  }

  lemma MultiplesApart(n: int, t: int, q: int)
    requires n > 0 && t < q
    ensures n * t + n <= n * q
    decreases q - t
  {
    assert n * q == n * (q - 1) + n;
    if t < q - 1 { MultiplesApart(n, t, q - 1); }
  }

  lemma MinorEnds(n: nat, m: nat)
    requires n > 0
    ensures Minor(n, m, 0) == 0 && Minor(n, m, n) == m
  {
    MinorIsNearest(n, m, 0, 0);
    MinorIsNearest(n, m, n, m);
    assert m * n == n * m;
  }

  /** Along a line that is not steeper than the diagonal, each step moves the minor coordinate by at
      most one, and it never moves back. */
  lemma MinorSteps(n: nat, m: nat, k: nat)
    requires n > 0 && m <= n
    ensures Minor(n, m, k) <= Minor(n, m, k + 1) <= Minor(n, m, k) + 1
  {
    var q := Minor(n, m, k);
    MinorIsNearest(n, m, k, q);
    assert m * (k + 1) == m * k + m;
    assert n * (q + 1) == n * q + n;
    if 2 * (m * (k + 1)) - 2 * (n * q) <= n {
      MinorIsNearest(n, m, k + 1, q);
    } else {
      MinorIsNearest(n, m, k + 1, q + 1);
    }
  }

  datatype Segment = Segment(x0: int, y0: int, x1: int, y1: int)

  predicate Steep(s: Segment) {
    Abs(s.y1 - s.y0) >= Abs(s.x1 - s.x0)
  }

  /** The number of steps: the extent along the major axis. */
  function Length(s: Segment): nat {
    if Steep(s) then Abs(s.y1 - s.y0) else Abs(s.x1 - s.x0)
  }

  /** The point of the segment at step `k`, in every octant: `k` along the major axis, and along the
      minor axis as near to the true line as whole numbers get. */
  function Dot(s: Segment, k: nat): Point
    requires Length(s) > 0
  {
    var dx, dy := s.x1 - s.x0, s.y1 - s.y0;
    if Steep(s) then (Toward(s.x0, dx, Minor(Abs(dy), Abs(dx), k)), Toward(s.y0, dy, k))
    else (Toward(s.x0, dx, k), Toward(s.y0, dy, Minor(Abs(dx), Abs(dy), k)))
  }

  /** The walk starts at the first end and would reach the other end with its next dot. */
  lemma DotEnds(s: Segment)
    requires Length(s) > 0
    ensures Dot(s, 0) == (s.x0, s.y0) && Dot(s, Length(s)) == (s.x1, s.y1)
  {
    var dx, dy := Abs(s.x1 - s.x0), Abs(s.y1 - s.y0);
    if Steep(s) { MinorEnds(dy, dx); } else { MinorEnds(dx, dy); }
  }

  /** One step of the error term. */
  lemma ErrorStep(n: nat, m: nat, k: nat, q: int, e: int)
    requires n > 0 && m <= n && q == Minor(n, m, k) && e == 2 * (m * (k + 1)) - n - 2 * (n * q)
    ensures Minor(n, m, k + 1) == if e > 0 then q + 1 else q
    ensures 2 * (m * (k + 2)) == 2 * (m * (k + 1)) + 2 * m && 2 * (n * (q + 1)) == 2 * (n * q) + 2 * n
  {
    MinorIsNearest(n, m, k, q);
    assert m * (k + 1) == m * k + m && m * (k + 2) == m * (k + 1) + m && n * (q + 1) == n * q + n;
    MinorIsNearest(n, m, k + 1, if e > 0 then q + 1 else q);
  }

  /** The loop, after the axes were exchanged for a steep line: `n` steps in direction `xstep`. */
  method Walk(x0: int, y0: int, n: nat, m: nat, xstep: int, ystep: int, steep: bool) returns (dots: seq<Point>)
    requires m <= n && (xstep == 1 || xstep == -1) && (ystep == 1 || ystep == -1)
    ensures |dots| == n
    ensures forall k :: 0 <= k < n ==>
      var x, y := Toward(x0, xstep, k), Toward(y0, ystep, Minor(n, m, k)); dots[k] == if steep then (y, x) else (x, y)
  {
    var e := 2 * m - n;
    var y, x := y0, x0;
    dots := [];
    ghost var q := 0;
    if n > 0 { MinorEnds(n, m); }
    while x != Toward(x0, xstep, n)
      invariant |dots| <= n && x == Toward(x0, xstep, |dots|)
      invariant n > 0 ==> q == Minor(n, m, |dots|) && y == Toward(y0, ystep, q)
      invariant e == 2 * (m * (|dots| + 1)) - n - 2 * (n * q)
      invariant forall k :: 0 <= k < |dots| ==>
        var x, y := Toward(x0, xstep, k), Toward(y0, ystep, Minor(n, m, k)); dots[k] == if steep then (y, x) else (x, y)
      decreases n - |dots|
    {
      ErrorStep(n, m, |dots|, q, e);
      dots := dots + [if steep then (y, x) else (x, y)];
      if e > 0 {
        e := e + 2 * m - 2 * n;
        y := y + ystep;
        q := q + 1;
      } else {
        e := e + 2 * m;
      }
      x := x + xstep;
    }
  }

  /** `p` is `k` steps along the axis on which the segment is longer, and on the other axis at the only
      whole number within half a step of the true line, exactly half only below it. */
  predicate AtStep(s: Segment, k: nat, p: Point) {
    var dx, dy := s.x1 - s.x0, s.y1 - s.y0;
    var mx, my := if dx < 0 then s.x0 - p.0 else p.0 - s.x0, if dy < 0 then s.y0 - p.1 else p.1 - s.y0;
    if Abs(dx) > Abs(dy) then mx == k && Nearest(Abs(dx), Abs(dy), k, my)
    else my == k && Nearest(Abs(dy), Abs(dx), k, mx)
  }

  lemma DotAtStep(s: Segment, k: nat)
    requires Length(s) > 0
    ensures AtStep(s, k, Dot(s, k))
  {
    var dx, dy := Abs(s.x1 - s.x0), Abs(s.y1 - s.y0);
    if Steep(s) { MinorIsNearest(dy, dx, k, Minor(dy, dx, k)); } else { MinorIsNearest(dx, dy, k, Minor(dx, dy, k)); }
  }

  /** The dots run from the first end to one step before the other. */
  method LineBresenham(s: Segment) returns (dots: seq<Point>)
    ensures |dots| == if Abs(s.x1 - s.x0) > Abs(s.y1 - s.y0) then Abs(s.x1 - s.x0) else Abs(s.y1 - s.y0)
    ensures forall k :: 0 <= k < |dots| ==> dots[k] == Dot(s, k) && AtStep(s, k, dots[k])
  {
    var x0, y0, x1, y1 := s.x0, s.y0, s.x1, s.y1;
    var dx, dy := x1 - x0, y1 - y0;
    var steep := Abs(dy) >= Abs(dx);
    if steep {
      x0, y0 := y0, x0;
      x1, y1 := y1, x1;
      dx, dy := x1 - x0, y1 - y0;
    }
    var xstep, ystep := 1, 1;
    if dx < 0 { xstep, dx := -1, -dx; }
    if dy < 0 { ystep, dy := -1, -dy; }
    dots := Walk(x0, y0, dx, dy, xstep, ystep, steep);
    forall k | 0 <= k < |dots| ensures AtStep(s, k, Dot(s, k)) {
      DotAtStep(s, k);
    }
  }
}
