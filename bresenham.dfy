/** The point list plotted by Engine::SetLine, as a pure function.

    SetLine swaps the axes when the line is steeper than 45 degrees (a strict
    comparison, so a diagonal is not swapped), orders the endpoints so that
    the working x increases, and then walks x from the first endpoint to the
    second, plotting (x, y) -- or (y, x) when swapped -- and stepping y by
    the sign of the minor delta whenever the accumulator `error`, advanced
    by deltaY + 1 each step, reaches deltaX + 1. */
module Bresenham {

  import opened Arith

  function Abs(n: int): nat {
    if n < 0 then -n else n
  }

  function Sign(n: int): int {
    if n > 0 then 1 else if n < 0 then -1 else 0
  }

  function Max(a: int, b: int): int {
    if a < b then b else a
  }

  /** The working frame after the axis swap and the endpoint ordering. */
  datatype Setup = Setup(swapped: bool, x0: int, y0: int, x1: int, y1: int, deltaX: nat, deltaY: nat, dirY: int)

  predicate Steep(startX: int, startY: int, endX: int, endY: int) {
    Abs(endX - startX) < Abs(endY - startY)
  }

  function Prepare(startX: int, startY: int, endX: int, endY: int): (s: Setup)
    ensures s.swapped == Steep(startX, startY, endX, endY)
    ensures s.x0 <= s.x1 && s.deltaX == s.x1 - s.x0
    ensures s.deltaY == Abs(s.y1 - s.y0) && s.deltaY <= s.deltaX
    ensures s.dirY == Sign(s.y1 - s.y0)
  {
    var swapped := Steep(startX, startY, endX, endY);
    var sx := if swapped then startY else startX;
    var sy := if swapped then startX else startY;
    var ex := if swapped then endY else endX;
    var ey := if swapped then endX else endY;
    var deltaX := Abs(ex - sx);
    var deltaY := Abs(ey - sy);
    var x0 := if sx > ex then ex else sx;
    var y0 := if sx > ex then ey else sy;
    var x1 := if sx > ex then sx else ex;
    var y1 := if sx > ex then sy else ey;
    Setup(swapped, x0, y0, x1, y1, deltaX, deltaY, Sign(y1 - y0))
  }

  /** The pixel plotted for working coordinates (x, y). */
  function Emit(swapped: bool, x: int, y: int): (int, int) {
    if swapped then (y, x) else (x, y)
  }

  /** The pixel's coordinate along the line's major axis, and across it. */
  function Major(swapped: bool, p: (int, int)): int {
    if swapped then p.1 else p.0
  }

  function Minor(swapped: bool, p: (int, int)): int {
    if swapped then p.0 else p.1
  }

  /** The loop's accumulator invariant. */
  predicate ErrorInRange(st: Setup, error: int) {
    0 <= error < st.deltaX + 1
  }

  /** The points plotted by the loop from working column x onwards, with
      current row y and accumulator `error`. */
  function Steps(st: Setup, x: int, y: int, error: int): seq<(int, int)>
    requires st.deltaY <= st.deltaX && ErrorInRange(st, error)
    decreases st.x1 + 1 - x
  {
    if x > st.x1 then []
    else
      var e := error + (st.deltaY + 1);
      var up := e >= st.deltaX + 1;
      [Emit(st.swapped, x, y)] + Steps(st, x + 1, if up then y + st.dirY else y, if up then e - (st.deltaX + 1) else e)
  }

  function Points(startX: int, startY: int, endX: int, endY: int): seq<(int, int)> {
    var st := Prepare(startX, startY, endX, endY);
    Steps(st, st.x0, st.y0, 0)
  }

  /** The loop's invariant, advanced over one iteration: the points plotted
      so far followed by the rest of the walk are the whole walk. */
  lemma StepsAdvance(st: Setup, done: seq<(int, int)>, x: int, y: int, error: int, whole: seq<(int, int)>)
    requires st.deltaY <= st.deltaX && ErrorInRange(st, error) && x <= st.x1
    requires done + Steps(st, x, y, error) == whole
    ensures var e := error + (st.deltaY + 1);
            var up := e >= st.deltaX + 1;
            var e' := if up then e - (st.deltaX + 1) else e;
            ErrorInRange(st, e') &&
            (done + [Emit(st.swapped, x, y)]) + Steps(st, x + 1, if up then y + st.dirY else y, e') == whole
  {
    var e := error + (st.deltaY + 1);
    var up := e >= st.deltaX + 1;
    var tail := Steps(st, x + 1, if up then y + st.dirY else y, if up then e - (st.deltaX + 1) else e);
    assert Steps(st, x, y, error) == [Emit(st.swapped, x, y)] + tail;
    assert done + ([Emit(st.swapped, x, y)] + tail) == (done + [Emit(st.swapped, x, y)]) + tail;
  }

  lemma {:induction false} StepsLength(st: Setup, x: int, y: int, error: int)
    requires st.deltaY <= st.deltaX && ErrorInRange(st, error)
    requires x <= st.x1 + 1
    ensures |Steps(st, x, y, error)| == st.x1 + 1 - x
    decreases st.x1 + 1 - x
  {
    if x <= st.x1 {
      var e := error + (st.deltaY + 1);
      var up := e >= st.deltaX + 1;
      StepsLength(st, x + 1, if up then y + st.dirY else y, if up then e - (st.deltaX + 1) else e);
    }
  }

  /** One carry step of the accumulator: adding c whole multiples of t adds
      c to the quotient. */
  lemma Carry(n: int, rest: int, c: int, t: int)
    requires 0 < t && 0 <= rest && n == rest + c * t
    ensures n / t == rest / t + c
  {
    assert n == (rest / t + c) * t + rest % t;
    DivModUnique(n, t, rest / t + c, rest % t);
  }

  /** One column of the closed form: a step either carries into the row or
      leaves the carry in the accumulator, and the row plus the carries
      still to come is the same either way. */
  lemma CarryStep(y: int, dirY: int, error: int, k: nat, d: int, t: int)
    requires 0 < d <= t && 0 <= error < t && 0 < k
    ensures var e := error + d;
            var up := e >= t;
            (if up then y + dirY else y) + dirY * (((if up then e - t else e) + (k - 1) * d) / t) ==
            y + dirY * ((error + k * d) / t)
  {
    var e := error + d;
    var up := e >= t;
    var e' := if up then e - t else e;
    var c := if up then 1 else 0;
    var n' := e' + (k - 1) * d;
    var n := error + k * d;
    assert n == n' + c * t by {
      assert k * d == d + (k - 1) * d;
    }
    Carry(n, n', c, t);
    var q := n' / t;
    if up {
      assert dirY * (q + 1) == dirY * q + dirY;
    }
  }

  /** Closed form of the walk: k columns on, the row has moved by dirY times
      the number of whole multiples of deltaX + 1 in error + k*(deltaY + 1). */
  lemma {:induction false} StepsAt(st: Setup, x: int, y: int, error: int, k: nat)
    requires st.deltaY <= st.deltaX && ErrorInRange(st, error)
    requires x + k <= st.x1
    ensures |Steps(st, x, y, error)| > k
    ensures Steps(st, x, y, error)[k] ==
            Emit(st.swapped, x + k, y + st.dirY * ((error + k * (st.deltaY + 1)) / (st.deltaX + 1)))
    decreases k
  {
    var t, d := st.deltaX + 1, st.deltaY + 1;
    var e := error + d;
    var up := e >= t;
    var y' := if up then y + st.dirY else y;
    var e' := if up then e - t else e;
    var rest := Steps(st, x + 1, y', e');
    assert Steps(st, x, y, error) == [Emit(st.swapped, x, y)] + rest;
    if k == 0 {
      DivModUnique(error, t, 0, error);
    } else {
      StepsAt(st, x + 1, y', e', k - 1);
      CarryStep(y, st.dirY, error, k, d, t);
    }
  }

  /** After deltaX columns the accumulator has carried exactly deltaY times. */
  lemma FinalRow(dx: nat, dy: nat)
    requires dy <= dx
    ensures dx * (dy + 1) / (dx + 1) == dy
  {
    assert dx * (dy + 1) == dy * (dx + 1) + (dx - dy);
    DivModUnique(dx * (dy + 1), dx + 1, dy, dx - dy);
  }

  /** The walk starts at the first working endpoint and ends at the second. */
  lemma StepsEnds(st: Setup)
    requires st.x0 <= st.x1 && st.deltaX == st.x1 - st.x0
    requires st.deltaY == Abs(st.y1 - st.y0) && st.deltaY <= st.deltaX
    requires st.dirY == Sign(st.y1 - st.y0)
    ensures var pts := Steps(st, st.x0, st.y0, 0);
            |pts| == st.deltaX + 1 &&
            pts[0] == Emit(st.swapped, st.x0, st.y0) &&
            pts[|pts| - 1] == Emit(st.swapped, st.x1, st.y1)
  {
    StepsLength(st, st.x0, st.y0, 0);
    StepsAt(st, st.x0, st.y0, 0, 0);
    StepsAt(st, st.x0, st.y0, 0, st.deltaX);
    FinalRow(st.deltaX, st.deltaY);
    assert st.dirY * st.deltaY == st.y1 - st.y0;
  }

  /** SetLine plots exactly max(|dx|, |dy|) + 1 points. */
  lemma PointsLength(startX: int, startY: int, endX: int, endY: int)
    ensures |Points(startX, startY, endX, endY)| == Max(Abs(endX - startX), Abs(endY - startY)) + 1
  {
    var st := Prepare(startX, startY, endX, endY);
    StepsLength(st, st.x0, st.y0, 0);
  }

  /** The first plotted point is the endpoint with the smaller major
      coordinate and the last one is the other endpoint. */
  lemma Endpoints(startX: int, startY: int, endX: int, endY: int)
    ensures var pts := Points(startX, startY, endX, endY);
            var steep := Steep(startX, startY, endX, endY);
            var inOrder := Major(steep, (startX, startY)) <= Major(steep, (endX, endY));
            |pts| > 0 &&
            pts[0] == (if inOrder then (startX, startY) else (endX, endY)) &&
            pts[|pts| - 1] == (if inOrder then (endX, endY) else (startX, startY))
  {
    StepsEnds(Prepare(startX, startY, endX, endY));
  }

  /** Every step advances the major coordinate by one and moves the minor
      coordinate by 0 or by one unit towards the last point. */
  lemma {:induction false} StepsStep(st: Setup, x: int, y: int, error: int, k: nat)
    requires st.deltaY <= st.deltaX && ErrorInRange(st, error)
    requires k + 1 < |Steps(st, x, y, error)|
    ensures var pts := Steps(st, x, y, error);
            Major(st.swapped, pts[k + 1]) == Major(st.swapped, pts[k]) + 1 &&
            Minor(st.swapped, pts[k + 1]) - Minor(st.swapped, pts[k]) in {0, st.dirY}
    decreases k
  {
    var e := error + (st.deltaY + 1);
    var up := e >= st.deltaX + 1;
    var y' := if up then y + st.dirY else y;
    var e' := if up then e - (st.deltaX + 1) else e;
    var rest := Steps(st, x + 1, y', e');
    assert Steps(st, x, y, error) == [Emit(st.swapped, x, y)] + rest;
    if k == 0 {
      assert rest[0] == Emit(st.swapped, x + 1, y');
    } else {
      StepsStep(st, x + 1, y', e', k - 1);
    }
  }

  lemma PointsStep(startX: int, startY: int, endX: int, endY: int, k: nat)
    requires k + 1 < |Points(startX, startY, endX, endY)|
    ensures var pts := Points(startX, startY, endX, endY);
            var steep := Steep(startX, startY, endX, endY);
            var toward := Sign(Minor(steep, pts[|pts| - 1]) - Minor(steep, pts[0]));
            Major(steep, pts[k + 1]) == Major(steep, pts[k]) + 1 &&
            Minor(steep, pts[k + 1]) - Minor(steep, pts[k]) in {0, toward}
  {
    var st := Prepare(startX, startY, endX, endY);
    StepsStep(st, st.x0, st.y0, 0, k);
    Endpoints(startX, startY, endX, endY);
  }

  /** SetLine(0, 0, 3, 1, c): the accumulator reaches deltaX + 1 = 4 after
      two steps of deltaY + 1 = 2, so the row steps once, half-way. */
  lemma SlopedExample()
    ensures Points(0, 0, 3, 1) == [(0, 0), (1, 0), (2, 1), (3, 1)]
  {
    var st := Prepare(0, 0, 3, 1);
    assert st == Setup(false, 0, 0, 3, 1, 3, 1, 1);
    assert Steps(st, 3, 1, 2) == [(3, 1)];
    assert Steps(st, 2, 1, 0) == [(2, 1), (3, 1)];
    assert Steps(st, 1, 0, 2) == [(1, 0), (2, 1), (3, 1)];
  }

  /** SetLine(0, 2, 0, 0, c) goes through the axis swap and the endpoint
      swap, and plots the column from the top. */
  lemma SteepExample()
    ensures Points(0, 2, 0, 0) == [(0, 0), (0, 1), (0, 2)]
  {
    var st := Prepare(0, 2, 0, 0);
    assert st == Setup(true, 0, 0, 2, 0, 2, 0, 0);
    assert Steps(st, 2, 0, 2) == [(0, 2)];
    assert Steps(st, 1, 0, 1) == [(0, 1), (0, 2)];
  }
}
