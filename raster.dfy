/** Row-major addressing of a flat pixel raster, shared by the sprite
    storage (Colors / AplhaChannels) and the engine's off-screen buffer:
    pixel (x, y) of a w-by-h raster lives at index y*w + x, and every access
    outside [0,w) x [0,h) is a sentinel read or a discarded write. */
module Raster {

  import opened Arith

  predicate InBounds(w: int, h: int, x: int, y: int) {
    0 <= x < w && 0 <= y < h
  }

  function Index(w: int, x: int, y: int): int {
    y * w + x
  }

  lemma IndexInRange(w: int, h: int, x: int, y: int)
    requires InBounds(w, h, x, y)
    ensures 0 <= Index(w, x, y) < w * h
  {
    assert y * w <= (h - 1) * w by { MulLeq(y, h - 1, w); }
    assert (h - 1) * w + w == h * w;
  }

  /** Two in-bounds pixels share an index only if they are the same pixel. */
  lemma IndexInjective(w: int, h: int, x1: int, y1: int, x2: int, y2: int)
    requires InBounds(w, h, x1, y1) && InBounds(w, h, x2, y2)
    requires Index(w, x1, y1) == Index(w, x2, y2)
    ensures x1 == x2 && y1 == y2
  {
    if y1 < y2 {
      MulLeq(y1 + 1, y2, w);
    } else if y2 < y1 {
      MulLeq(y2 + 1, y1, w);
    }
  }

  /** The sentinel-guarded read of GetPixelColor / GetPixelAlpha. */
  function Get<T(!new)>(cells: seq<T>, w: int, h: int, x: int, y: int, absent: T): (v: T)
    requires 0 <= w && 0 <= h && |cells| == w * h
    ensures !InBounds(w, h, x, y) ==> v == absent
  {
    if x < 0 || x >= w || y < 0 || y >= h then absent
    else
      IndexInRange(w, h, x, y);
      cells[Index(w, x, y)]
  }

  /** The bounds-checked write of SetPixel / SetPoint. */
  function Put<T(!new)>(cells: seq<T>, w: int, h: int, x: int, y: int, v: T): (r: seq<T>)
    requires 0 <= w && 0 <= h && |cells| == w * h
    ensures |r| == |cells|
    ensures !InBounds(w, h, x, y) ==> r == cells
  {
    if x < 0 || x >= w || y < 0 || y >= h then cells
    else
      IndexInRange(w, h, x, y);
      cells[Index(w, x, y) := v]
  }

  /** Read after write: the written pixel reads the new value when it is
      inside the raster, and every other pixel reads what it read before. */
  lemma GetPut<T(!new)>(cells: seq<T>, w: int, h: int, x: int, y: int, v: T, px: int, py: int, a: T)
    requires 0 <= w && 0 <= h && |cells| == w * h
    ensures Get(Put(cells, w, h, x, y, v), w, h, px, py, a) ==
            if px == x && py == y && InBounds(w, h, x, y) then v else Get(cells, w, h, px, py, a)
  {
    if InBounds(w, h, x, y) && InBounds(w, h, px, py) {
      IndexInRange(w, h, x, y);
      IndexInRange(w, h, px, py);
      if Index(w, px, py) == Index(w, x, y) {
        IndexInjective(w, h, px, py, x, y);
      }
    }
  }

  /** The buffer after writing v at each point of pts, in order. */
  function PlotAll<T(!new)>(cells: seq<T>, w: int, h: int, pts: seq<(int, int)>, v: T): (r: seq<T>)
    requires 0 <= w && 0 <= h && |cells| == w * h
    ensures |r| == |cells|
    decreases |pts|
  {
    if pts == [] then cells
    else PlotAll(Put(cells, w, h, pts[0].0, pts[0].1, v), w, h, pts[1..], v)
  }

  /** Plotting a concatenation is plotting one list after the other. */
  lemma {:induction false} PlotAllAppend<T(!new)>(cells: seq<T>, w: int, h: int, a: seq<(int, int)>, b: seq<(int, int)>, v: T)
    requires 0 <= w && 0 <= h && |cells| == w * h
    ensures PlotAll(cells, w, h, a + b, v) == PlotAll(PlotAll(cells, w, h, a, v), w, h, b, v)
    decreases |a|
  {
    if a != [] {
      assert (a + b)[0] == a[0];
      assert (a + b)[1..] == a[1..] + b;
      PlotAllAppend(Put(cells, w, h, a[0].0, a[0].1, v), w, h, a[1..], b, v);
    } else {
      assert a + b == b;
    }
  }

  /** Plotting one more point is one more Put. */
  lemma PlotAllSnoc<T(!new)>(cells: seq<T>, w: int, h: int, a: seq<(int, int)>, p: (int, int), v: T)
    requires 0 <= w && 0 <= h && |cells| == w * h
    ensures PlotAll(cells, w, h, a + [p], v) == Put(PlotAll(cells, w, h, a, v), w, h, p.0, p.1, v)
  {
    PlotAllAppend(cells, w, h, a, [p], v);
    var mid := PlotAll(cells, w, h, a, v);
    assert PlotAll(mid, w, h, [p], v) == PlotAll(Put(mid, w, h, p.0, p.1, v), w, h, [], v);
  }

  /** After plotting pts, a pixel on the list reads v, and a pixel not on
      the list reads what it read before. */
  lemma {:induction false} PlotAllEffect<T(!new)>(cells: seq<T>, w: int, h: int, pts: seq<(int, int)>, v: T, x: int, y: int, a: T)
    requires 0 <= w && 0 <= h && |cells| == w * h
    ensures (x, y) in pts && InBounds(w, h, x, y) ==> Get(PlotAll(cells, w, h, pts, v), w, h, x, y, a) == v
    ensures (x, y) !in pts ==> Get(PlotAll(cells, w, h, pts, v), w, h, x, y, a) == Get(cells, w, h, x, y, a)
    decreases |pts|
  {
    if pts != [] {
      var next := Put(cells, w, h, pts[0].0, pts[0].1, v);
      PlotAllEffect(next, w, h, pts[1..], v, x, y, a);
      GetPut(cells, w, h, pts[0].0, pts[0].1, v, x, y, a);
      assert pts == [pts[0]] + pts[1..];
      assert (x, y) in pts <==> (x, y) == pts[0] || (x, y) in pts[1..];
    }
  }
}
