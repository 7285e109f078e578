/** The integer line walk of NtGdiLineTo in kernel/win32k/gdiobj.c, counted in x-steps and
    y-steps from the current position. */
module Bresenham {

  /** i x-steps and j y-steps taken; err is the code's error term. */
  datatype Cursor = Cursor(i: int, j: int, err: int)

  function Max(a: int, b: int): int
  {
    if a >= b then a else b
  }

  /** The body of the loop. */
  function Advance(dx: int, dy: int, c: Cursor): Cursor
  {
    var e2 := c.err * 2;
    var x := if e2 > -dy then Cursor(c.i + 1, c.j, c.err - dy) else c;
    if e2 < dx then Cursor(x.i, x.j + 1, x.err + dx) else x
  }

  /** Where the loop is at its k-th test. */
  function Walk(dx: int, dy: int, k: nat): Cursor
  {
    if k == 0 then Cursor(0, 0, dx - dy) else Advance(dx, dy, Walk(dx, dy, k - 1))
  }

  /** How far (i, j) is off the ideal line, times dx for the y-distance or dy for the x-distance. */
  function Cross(dx: int, dy: int, i: int, j: int): int
  {
    i * dy - j * dx
  }

  lemma CrossSteps(dx: int, dy: int, i: int, j: int)
    ensures Cross(dx, dy, i + 1, j) == Cross(dx, dy, i, j) + dy
    ensures Cross(dx, dy, i, j + 1) == Cross(dx, dy, i, j) - dx
    ensures Cross(dx, dy, i + 1, j + 1) == Cross(dx, dy, i, j) + dy - dx
  {
    assert (i + 1) * dy == i * dy + dy;
    assert (j + 1) * dx == j * dx + dx;
  }

  /** The steps along the longer side. */
  function Major(dx: int, dy: int, i: int, j: int): int
  {
    if dx >= dy then i else j
  }

  /** The lattice point is within half a step of the ideal line, measured along the shorter
      side; of two points half a step away it is the nearer to the start. */
  predicate Nearest(dx: int, dy: int, i: int, j: int)
  {
    var d := Cross(dx, dy, i, j);
    if dx >= dy then (if dx == 0 then i == 0 && j == 0 else -dx < 2 * d <= dx) else -dy <= 2 * d < dy
  }

  lemma Multiple(m: int, n: int)
    requires m > 0
    ensures n >= 1 ==> n * m >= m
    ensures n <= -1 ==> n * m <= -m
  {
    if n >= 1 {
      assert n * m == (n - 1) * m + m;
    } else if n <= -1 {
      assert n * m == (n + 1) * m - m;
    }
  }

  /** No other point is as good: the point is determined by the steps along the longer side. */
  lemma NearestUnique(dx: int, dy: int, i: int, j: int, i': int, j': int)
    requires dx >= 0 && dy >= 0 && Nearest(dx, dy, i, j) && Nearest(dx, dy, i', j')
    requires Major(dx, dy, i, j) == Major(dx, dy, i', j')
    ensures i == i' && j == j'
  {
    if dx >= dy {
      if dx > 0 {
        assert Cross(dx, dy, i, j) - Cross(dx, dy, i', j') == (j' - j) * dx;
        Multiple(dx, j' - j);
      }
    } else {
      assert Cross(dx, dy, i, j) - Cross(dx, dy, i', j') == (i - i') * dy;
      Multiple(dy, i - i');
    }
  }

  /** Both ends are nearest points, and the only ones at their place. */
  lemma EndNearest(dx: int, dy: int)
    requires dx >= 0 && dy >= 0
    ensures Nearest(dx, dy, 0, 0) && Nearest(dx, dy, dx, dy)
  {
    assert dx * dy == dy * dx;
  }

  /** A diagonal line is never off. */
  lemma Diagonal(d: int, i: int, j: int)
    requires d > 0 && Nearest(d, d, i, j)
    ensures i == j
  {
    assert Cross(d, d, i, j) == (i - j) * d;
    Multiple(d, i - j);
  }

  /** One turn of the loop: one step along the longer side, at most one along the other, and
      the point reached is again the nearest. */
  lemma AdvanceKeeps(dx: int, dy: int, c: Cursor)
    requires dx >= 0 && dy >= 0 && Nearest(dx, dy, c.i, c.j) && Max(dx, dy) > 0
    requires c.err == dx - dy - Cross(dx, dy, c.i, c.j)
    ensures var n := Advance(dx, dy, c);
      && Nearest(dx, dy, n.i, n.j) && n.err == dx - dy - Cross(dx, dy, n.i, n.j)
      && c.i <= n.i <= c.i + 1 && c.j <= n.j <= c.j + 1
      && Major(dx, dy, n.i, n.j) == Major(dx, dy, c.i, c.j) + 1
  {
    CrossSteps(dx, dy, c.i, c.j);
    if dx == dy {
      Diagonal(dx, c.i, c.j);
    }
  }

  /** The walk, step by step: after k turns it is at the one nearest point k steps along. */
  lemma {:induction false} WalkIsNearest(dx: int, dy: int, k: nat)
    requires dx >= 0 && dy >= 0 && k <= Max(dx, dy)
    ensures var c := Walk(dx, dy, k);
      && Nearest(dx, dy, c.i, c.j) && Major(dx, dy, c.i, c.j) == k
      && c.err == dx - dy - Cross(dx, dy, c.i, c.j)
  {
    if k > 0 {
      WalkIsNearest(dx, dy, k - 1);
      AdvanceKeeps(dx, dy, Walk(dx, dy, k - 1));
    }
  }

  lemma WalkUnique(dx: int, dy: int, k: nat, i: int, j: int)
    requires dx >= 0 && dy >= 0 && k <= Max(dx, dy)
    requires Nearest(dx, dy, i, j) && Major(dx, dy, i, j) == k
    ensures Walk(dx, dy, k).i == i && Walk(dx, dy, k).j == j
  {
    WalkIsNearest(dx, dy, k);
    NearestUnique(dx, dy, Walk(dx, dy, k).i, Walk(dx, dy, k).j, i, j);
  }

  /** The loop ends at turn max(dx, dy) and not before, at the target. */
  lemma WalkEnds(dx: int, dy: int, k: nat)
    requires dx >= 0 && dy >= 0 && k <= Max(dx, dy)
    ensures Walk(dx, dy, k).i == dx && Walk(dx, dy, k).j == dy <==> k == Max(dx, dy)
  {
    WalkIsNearest(dx, dy, k);
    if k == Max(dx, dy) {
      EndNearest(dx, dy);
      WalkUnique(dx, dy, k, dx, dy);
    }
  }

  /** Steps are monotone and stay inside the box spanned by the ends. */
  lemma {:induction false} WalkInBox(dx: int, dy: int, k: nat)
    requires dx >= 0 && dy >= 0 && k <= Max(dx, dy)
    ensures 0 <= Walk(dx, dy, k).i <= dx && 0 <= Walk(dx, dy, k).j <= dy
    decreases Max(dx, dy) - k
  {
    WalkIsNearest(dx, dy, k);
    var c := Walk(dx, dy, k);
    if k == Max(dx, dy) {
      WalkEnds(dx, dy, k);
    } else {
      WalkInBox(dx, dy, k + 1);
      AdvanceKeeps(dx, dy, c);
      NotBack(dx, dy, k);
    }
  }

  lemma {:induction false} NotBack(dx: int, dy: int, k: nat)
    requires dx >= 0 && dy >= 0 && k <= Max(dx, dy)
    ensures Walk(dx, dy, k).i >= 0 && Walk(dx, dy, k).j >= 0
  {
    if k > 0 {
      NotBack(dx, dy, k - 1);
      WalkIsNearest(dx, dy, k - 1);
      AdvanceKeeps(dx, dy, Walk(dx, dy, k - 1));
    }
  }

  /** The error bound, and with it the range of the error term. */
  lemma ErrorBound(dx: int, dy: int, k: nat)
    requires dx >= 0 && dy >= 0 && k <= Max(dx, dy)
    ensures var c := Walk(dx, dy, k);
      && -Max(dx, dy) <= 2 * (c.j * dx - c.i * dy) <= Max(dx, dy)
      && -3 * Max(dx, dy) <= 2 * c.err <= 3 * Max(dx, dy)
  {
    WalkIsNearest(dx, dy, k);
  }

  /** Consecutive points are 8-adjacent and different. */
  lemma Adjacent(dx: int, dy: int, k: nat)
    requires dx >= 0 && dy >= 0 && k < Max(dx, dy)
    ensures var c, n := Walk(dx, dy, k), Walk(dx, dy, k + 1);
      && 0 <= n.i - c.i <= 1 && 0 <= n.j - c.j <= 1 && Major(dx, dy, n.i, n.j) == Major(dx, dy, c.i, c.j) + 1
  {
    WalkIsNearest(dx, dy, k);
    AdvanceKeeps(dx, dy, Walk(dx, dy, k));
  }

  // ------------------------------------------------------- as coordinates

  type Point = (int, int)

  function Abs(v: int): nat
  {
    if v < 0 then -v else v
  }

  /** The coordinate n steps from one end toward the other. */
  function Toward(from: int, to: int, n: int): int
  {
    if from < to then from + n else from - n
  }

  function PointAt(from: Point, to: Point, k: nat): Point
  {
    var c := Walk(Abs(to.0 - from.0), Abs(to.1 - from.1), k);
    (Toward(from.0, to.0, c.i), Toward(from.1, to.1, c.j))
  }

  function Length(from: Point, to: Point): nat
  {
    Max(Abs(to.0 - from.0), Abs(to.1 - from.1))
  }

  /** The points the line visits, in order. */
  function Line(from: Point, to: Point): seq<Point>
  {
    seq(Length(from, to) + 1, (k: nat) => PointAt(from, to, k))
  }

  /** The line joins its ends by max(|dx|, |dy|) + 1 points, each 8-adjacent to the one before
      and within half a step of the ideal line. */
  lemma LineMeaning(from: Point, to: Point)
    ensures var line, n := Line(from, to), Length(from, to);
      && |line| == n + 1 && line[0] == from && line[n] == to
      && (forall k :: 0 <= k <= n ==> Close(from, to, line[k]))
      && (forall k, l :: 0 <= k && l == k + 1 && l <= n ==> Neighbours(line[k], line[l]))
  {
    var line, n := Line(from, to), Length(from, to);
    LastPoint(from, to);
    forall k | 0 <= k <= n ensures Close(from, to, line[k]) {
      CloseAt(from, to, k);
    }
    forall k, l | 0 <= k && l == k + 1 && l <= n ensures Neighbours(line[k], line[l]) {
      NeighboursAt(from, to, k);
    }
  }

  lemma LastPoint(from: Point, to: Point)
    ensures PointAt(from, to, Length(from, to)) == to
  {
    WalkEnds(Abs(to.0 - from.0), Abs(to.1 - from.1), Length(from, to));
  }

  lemma NeighboursAt(from: Point, to: Point, k: nat)
    requires k < Length(from, to)
    ensures Neighbours(PointAt(from, to, k), PointAt(from, to, k + 1))
  {
    Adjacent(Abs(to.0 - from.0), Abs(to.1 - from.1), k);
  }

  /** Distance from the ideal line, on the point's coordinates. */
  predicate Close(from: Point, to: Point, p: Point)
  {
    2 * Abs(Abs(p.1 - from.1) * Abs(to.0 - from.0) - Abs(p.0 - from.0) * Abs(to.1 - from.1)) <= Length(from, to)
  }

  predicate Neighbours(p: Point, q: Point)
  {
    p != q && Abs(p.0 - q.0) <= 1 && Abs(p.1 - q.1) <= 1
  }

  lemma CloseAt(from: Point, to: Point, k: nat)
    requires k <= Length(from, to)
    ensures Close(from, to, PointAt(from, to, k))
  {
    var dx, dy := Abs(to.0 - from.0), Abs(to.1 - from.1);
    var c, p := Walk(dx, dy, k), PointAt(from, to, k);
    NotBack(dx, dy, k);
    ErrorBound(dx, dy, k);
    assert Abs(p.0 - from.0) == c.i && Abs(p.1 - from.1) == c.j;
  }

  /** Every point lies in the box spanned by the ends. */
  lemma PointInBox(from: Point, to: Point, k: nat)
    requires k <= Length(from, to)
    ensures var p := PointAt(from, to, k);
      && (from.0 <= p.0 <= to.0 || to.0 <= p.0 <= from.0)
      && (from.1 <= p.1 <= to.1 || to.1 <= p.1 <= from.1)
  {
    WalkInBox(Abs(to.0 - from.0), Abs(to.1 - from.1), k);
  }
}
