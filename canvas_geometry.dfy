/**
 * Cell-level geometry of the drawing canvas (src/components/canvas.py): a
 * 512 by 512 surface painted in whole 8 by 8 blocks, that is a 64 by 64 grid
 * of cells. Here are the pointer-to-cell mapping shared by brush, dropper and
 * fill, the square brush footprint, what a stamp of the brush does to the
 * grid, and the zoom clamp.
 */
module CanvasGeometry {
  import opened Regions

  const SurfaceWidth: nat := 512
  const SurfaceHeight: nat := 512
  const PixelSize: nat := 8
  const Cols: nat := SurfaceWidth / PixelSize
  const Rows: nat := SurfaceHeight / PixelSize

  /** Python's `int()` on a float: truncation toward zero. */
  function Trunc(r: real): (t: int)
    ensures 0.0 <= r ==> 0 <= t && t as real <= r < t as real + 1.0
    ensures r < 0.0 ==> t <= 0 && t as real - 1.0 < r <= t as real
  {
    if r >= 0.0 then r.Floor else -((-r).Floor)
  }

  /**
   * The cell under pointer coordinate `p` at magnification `zoom`:
   * `int(p / zoom) // pixel_size`, truncation toward zero followed by floor
   * division. For a non-negative pointer it is the block of `p / zoom`.
   */
  function CellOf(p: int, zoom: real): (c: int)
    requires zoom > 0.0
    ensures 0 <= p ==> 0 <= c && (PixelSize * c) as real <= p as real / zoom < (PixelSize * (c + 1)) as real
  {
    var t := Trunc(p as real / zoom);
    assert 0 <= p ==> PixelSize * (t / PixelSize) <= t < PixelSize * (t / PixelSize + 1);
    t / PixelSize
  }

  /**
   * Truncating before the floor division matters only for a negative pointer
   * whose quotient `p / zoom` is not whole: at zoom 1.2 pointer -1 maps to
   * cell 0, where one floor of `p / zoom / 8` gives -1; at zoom 1 both give -1.
   */
  lemma CellOfNegative()
    ensures CellOf(-1, 1.0) == -1
    ensures CellOf(-1, 1.2) == 0 && ((-1) as real / 1.2 / 8.0).Floor == -1
  {
    assert Trunc((-1) as real / 1.0) == -1;
    assert -1.0 < (-1) as real / 1.2 < 0.0;
    assert Trunc((-1) as real / 1.2) == 0;
  }

  /** At zoom 1 the top-left pointer position of a block maps back to that block. */
  lemma CellOfBlockCorner(k: int)
    ensures CellOf(k * PixelSize, 1.0) == k
  {
    assert (k * PixelSize) as real / 1.0 == (k * PixelSize) as real;
    assert Trunc((k * PixelSize) as real) == k * PixelSize;
  }

  /**
   * At any zoom of at least 1 the top-left pointer position of an on-grid
   * block maps to an on-grid block no further right (or down) than it.
   */
  lemma CellOfZoomedCorner(k: int, zoom: real)
    requires 0 <= k && zoom >= 1.0
    ensures 0 <= CellOf(k * PixelSize, zoom) <= k
  {
    var p := (k * PixelSize) as real;
    assert p / zoom <= p by {
      assert p / zoom * zoom == p;
      assert p / zoom * 1.0 <= p / zoom * zoom;
    }
    var c := CellOf(k * PixelSize, zoom);
    assert (PixelSize * c) as real <= p;
  }

  /** First offset of the square brush on each axis: `-size // 2 + 1`, i.e. `((-size) // 2) + 1`. */
  function BrushLow(size: int): (lo: int)
    ensures 2 * (lo - 1) <= -size < 2 * lo
  {
    (-size) / 2 + 1
  }

  /** Last offset of the square brush on each axis: `size // 2`. */
  function BrushHigh(size: int): (hi: int)
    ensures 2 * hi <= size < 2 * hi + 2
  {
    size / 2
  }

  /** The offsets `BrushLow(size) .. BrushHigh(size)` are exactly `size` values, and none for a negative size. */
  lemma BrushSpan(size: int)
    ensures size >= 0 ==> BrushHigh(size) - BrushLow(size) + 1 == size
    ensures size >= 1 ==> BrushLow(size) <= 0 <= BrushHigh(size)
    ensures size < 0 ==> BrushHigh(size) < BrushLow(size)
  {
  }

  /** Cell `(x, y)` is on the grid and under the brush of `size` centred on cell `(cx, cy)`. */
  predicate InFootprint(cx: int, cy: int, size: int, x: int, y: int) {
    && Inside(Cols, Rows, x, y)
    && BrushLow(size) <= x - cx <= BrushHigh(size)
    && BrushLow(size) <= y - cy <= BrushHigh(size)
  }

  /** The number of offsets `d` in `lo .. hi` that keep `c + d` within `0 .. n - 1`. */
  function OnGridCount(c: int, lo: int, hi: int, n: int): (k: nat)
    decreases hi - lo
    ensures k <= if hi < lo then 0 else hi - lo + 1
    ensures lo <= hi && 0 <= c + lo && c + hi < n ==> k == hi - lo + 1
    ensures c + hi < 0 || n <= c + lo ==> k == 0
  {
    if hi < lo then 0 else OnGridCount(c, lo, hi - 1, n) + (if 0 <= c + hi < n then 1 else 0)
  }

  /** Counting one more offset `hi` adds one more row of `r` when `c + hi` is on the grid. */
  lemma OnGridCountStep(c: int, lo: int, hi: int, n: int, r: int)
    requires lo <= hi
    ensures OnGridCount(c, lo, hi, n) * r == OnGridCount(c, lo, hi - 1, n) * r + if 0 <= c + hi < n then r else 0
  {
    var a := OnGridCount(c, lo, hi - 1, n);
    if 0 <= c + hi < n {
      assert (a + 1) * r == a * r + r;
    }
  }

  /** Cell `p` comes before cell `q` in column-major order. */
  predicate Before(p: Cell, q: Cell) {
    p.0 < q.0 || (p.0 == q.0 && p.1 < q.1)
  }

  /** The on-grid cells of column `col` at rows `cy + lo .. cy + hi`, top to bottom. */
  function ColumnCells(col: int, cy: int, lo: int, hi: int): seq<Cell>
    decreases hi - lo
  {
    if hi < lo then []
    else ColumnCells(col, cy, lo, hi - 1) + if Inside(Cols, Rows, col, cy + hi) then [(col, cy + hi)] else []
  }

  /**
   * The on-grid cells of the rectangle with columns `cx + lo .. cx + last` and
   * rows `cy + lo .. cy + hi`, column by column.
   */
  function SquareCells(cx: int, cy: int, lo: int, last: int, hi: int): seq<Cell>
    decreases last - lo
  {
    if last < lo then [] else SquareCells(cx, cy, lo, last - 1, hi) + ColumnCells(cx + last, cy, lo, hi)
  }

  /** Every listed cell of a column is an on-grid cell of that column in the row range. */
  lemma {:induction false} ColumnCellsSound(col: int, cy: int, lo: int, hi: int)
    decreases hi - lo
    ensures forall k :: 0 <= k < |ColumnCells(col, cy, lo, hi)| ==>
              var p := ColumnCells(col, cy, lo, hi)[k];
              p.0 == col && Inside(Cols, Rows, col, p.1) && lo <= p.1 - cy <= hi
  {
    if lo <= hi {
      ColumnCellsSound(col, cy, lo, hi - 1);
      var s0, s := ColumnCells(col, cy, lo, hi - 1), ColumnCells(col, cy, lo, hi);
      var tail := if Inside(Cols, Rows, col, cy + hi) then [(col, cy + hi)] else [];
      assert s == s0 + tail;
      forall k | 0 <= k < |s|
        ensures s[k].0 == col && Inside(Cols, Rows, col, s[k].1) && lo <= s[k].1 - cy <= hi
      {
        if k < |s0| {
          assert s[k] == s0[k];
        } else {
          assert s[k] == tail[0];
        }
      }
    }
  }

  /** Every on-grid cell of a column in the row range is listed. */
  lemma {:induction false} ColumnCellsComplete(col: int, cy: int, lo: int, hi: int)
    decreases hi - lo
    ensures forall r :: Inside(Cols, Rows, col, r) && lo <= r - cy <= hi ==> (col, r) in ColumnCells(col, cy, lo, hi)
  {
    if lo <= hi {
      ColumnCellsComplete(col, cy, lo, hi - 1);
      var s0, s := ColumnCells(col, cy, lo, hi - 1), ColumnCells(col, cy, lo, hi);
      forall r | Inside(Cols, Rows, col, r) && lo <= r - cy <= hi
        ensures (col, r) in s
      {
        if r - cy < hi {
          assert (col, r) in s0;
        } else {
          assert s[|s| - 1] == (col, r);
        }
      }
    }
  }

  /** A column is listed top to bottom, so no cell twice. */
  lemma {:induction false} ColumnCellsSorted(col: int, cy: int, lo: int, hi: int)
    decreases hi - lo
    ensures forall i, j :: 0 <= i < j < |ColumnCells(col, cy, lo, hi)| ==>
              ColumnCells(col, cy, lo, hi)[i].1 < ColumnCells(col, cy, lo, hi)[j].1
  {
    if lo <= hi {
      ColumnCellsSorted(col, cy, lo, hi - 1);
      ColumnCellsSound(col, cy, lo, hi - 1);
      var s0, s := ColumnCells(col, cy, lo, hi - 1), ColumnCells(col, cy, lo, hi);
      var tail := if Inside(Cols, Rows, col, cy + hi) then [(col, cy + hi)] else [];
      assert s == s0 + tail;
      forall i, j | 0 <= i < j < |s|
        ensures s[i].1 < s[j].1
      {
        assert s[i] == s0[i];
        if j < |s0| {
          assert s[j] == s0[j];
        } else {
          assert s[j] == tail[0];
        }
      }
    }
  }

  /** A column lists as many cells as it has on-grid rows in the range, and none off the grid. */
  lemma {:induction false} ColumnCellsLength(col: int, cy: int, lo: int, hi: int)
    decreases hi - lo
    ensures |ColumnCells(col, cy, lo, hi)| == if 0 <= col < Cols then OnGridCount(cy, lo, hi, Rows) else 0
  {
    if lo <= hi {
      ColumnCellsLength(col, cy, lo, hi - 1);
    }
  }

  /** Every listed cell of the rectangle is one of its on-grid cells. */
  lemma {:induction false} SquareCellsSound(cx: int, cy: int, lo: int, last: int, hi: int)
    decreases last - lo
    ensures forall k :: 0 <= k < |SquareCells(cx, cy, lo, last, hi)| ==>
              var p := SquareCells(cx, cy, lo, last, hi)[k];
              Inside(Cols, Rows, p.0, p.1) && lo <= p.0 - cx <= last && lo <= p.1 - cy <= hi
  {
    if lo <= last {
      SquareCellsSound(cx, cy, lo, last - 1, hi);
      ColumnCellsSound(cx + last, cy, lo, hi);
      var s0, c, s := SquareCells(cx, cy, lo, last - 1, hi), ColumnCells(cx + last, cy, lo, hi), SquareCells(cx, cy, lo, last, hi);
      assert s == s0 + c;
      forall k | 0 <= k < |s|
        ensures Inside(Cols, Rows, s[k].0, s[k].1) && lo <= s[k].0 - cx <= last && lo <= s[k].1 - cy <= hi
      {
        if k < |s0| {
          assert s[k] == s0[k];
        } else {
          assert s[k] == c[k - |s0|];
        }
      }
    }
  }

  /** Every on-grid cell of the rectangle is listed. */
  lemma {:induction false} SquareCellsComplete(cx: int, cy: int, lo: int, last: int, hi: int)
    decreases last - lo
    ensures forall px, py :: Inside(Cols, Rows, px, py) && lo <= px - cx <= last && lo <= py - cy <= hi ==>
              (px, py) in SquareCells(cx, cy, lo, last, hi)
  {
    if lo <= last {
      SquareCellsComplete(cx, cy, lo, last - 1, hi);
      ColumnCellsComplete(cx + last, cy, lo, hi);
      var s0, c := SquareCells(cx, cy, lo, last - 1, hi), ColumnCells(cx + last, cy, lo, hi);
      forall px, py | Inside(Cols, Rows, px, py) && lo <= px - cx <= last && lo <= py - cy <= hi
        ensures (px, py) in SquareCells(cx, cy, lo, last, hi)
      {
        if px - cx < last {
          assert (px, py) in s0;
        } else {
          assert (px, py) in c;
        }
      }
    }
  }

  /** The rectangle is listed in column-major order, so no cell twice. */
  lemma {:induction false} SquareCellsSorted(cx: int, cy: int, lo: int, last: int, hi: int)
    decreases last - lo
    ensures forall i, j :: 0 <= i < j < |SquareCells(cx, cy, lo, last, hi)| ==>
              Before(SquareCells(cx, cy, lo, last, hi)[i], SquareCells(cx, cy, lo, last, hi)[j])
  {
    if lo <= last {
      SquareCellsSorted(cx, cy, lo, last - 1, hi);
      SquareCellsSound(cx, cy, lo, last - 1, hi);
      ColumnCellsSound(cx + last, cy, lo, hi);
      ColumnCellsSorted(cx + last, cy, lo, hi);
      var s0, c, s := SquareCells(cx, cy, lo, last - 1, hi), ColumnCells(cx + last, cy, lo, hi), SquareCells(cx, cy, lo, last, hi);
      assert s == s0 + c;
      forall i, j | 0 <= i < j < |s|
        ensures Before(s[i], s[j])
      {
        if j < |s0| {
          assert s[i] == s0[i] && s[j] == s0[j];
        } else if i < |s0| {
          assert s[i] == s0[i] && s[j] == c[j - |s0|];
        } else {
          assert s[i] == c[i - |s0|] && s[j] == c[j - |s0|];
        }
      }
    }
  }

  /** The rectangle lists its on-grid columns times its on-grid rows cells. */
  lemma {:induction false} SquareCellsLength(cx: int, cy: int, lo: int, last: int, hi: int)
    decreases last - lo
    ensures |SquareCells(cx, cy, lo, last, hi)| == OnGridCount(cx, lo, last, Cols) * OnGridCount(cy, lo, hi, Rows)
  {
    if lo <= last {
      SquareCellsLength(cx, cy, lo, last - 1, hi);
      ColumnCellsLength(cx + last, cy, lo, hi);
      OnGridCountStep(cx, lo, last, Cols, OnGridCount(cy, lo, hi, Rows));
    }
  }

  /**
   * The cells under the square brush of `size` centred on cell `(cx, cy)`,
   * column by column: one per on-grid column and on-grid row of the footprint.
   */
  function BrushCells(cx: int, cy: int, size: int): (s: seq<Cell>)
    ensures |s| == OnGridCount(cx, BrushLow(size), BrushHigh(size), Cols) * OnGridCount(cy, BrushLow(size), BrushHigh(size), Rows)
  {
    SquareCellsLength(cx, cy, BrushLow(size), BrushHigh(size), BrushHigh(size));
    SquareCells(cx, cy, BrushLow(size), BrushHigh(size), BrushHigh(size))
  }

  /**
   * The brush lists exactly the on-grid cells of its footprint, each once,
   * in column-major order, as many as its on-grid columns times its on-grid
   * rows.
   */
  lemma BrushCellsSpec(cx: int, cy: int, size: int, s: seq<Cell>)
    requires s == BrushCells(cx, cy, size)
    ensures forall k :: 0 <= k < |s| ==> InFootprint(cx, cy, size, s[k].0, s[k].1)
    ensures forall px, py :: InFootprint(cx, cy, size, px, py) ==> (px, py) in s
    ensures forall i, j :: 0 <= i < j < |s| ==> Before(s[i], s[j]) && s[i] != s[j]
    ensures |s| == OnGridCount(cx, BrushLow(size), BrushHigh(size), Cols) * OnGridCount(cy, BrushLow(size), BrushHigh(size), Rows)
  {
    var lo, hi := BrushLow(size), BrushHigh(size);
    SquareCellsSound(cx, cy, lo, hi, hi);
    SquareCellsComplete(cx, cy, lo, hi, hi);
    SquareCellsSorted(cx, cy, lo, hi, hi);
    SquareCellsLength(cx, cy, lo, hi, hi);
  }

  /** A brush of size 1 covers just its centre cell, or nothing when the centre is off the grid. */
  lemma BrushCellsUnit(cx: int, cy: int)
    ensures BrushCells(cx, cy, 1) == if Inside(Cols, Rows, cx, cy) then [(cx, cy)] else []
  {
    assert BrushLow(1) == 0 && BrushHigh(1) == 0;
    assert SquareCells(cx, cy, 0, -1, 0) == [];
    assert ColumnCells(cx, cy, 0, -1) == [];
  }

  /** A brush of `size` whose footprint lies wholly on the grid covers `size * size` cells. */
  lemma BrushCellsUnclipped(cx: int, cy: int, size: int)
    requires size >= 1
    requires 0 <= cx + BrushLow(size) && cx + BrushHigh(size) < Cols
    requires 0 <= cy + BrushLow(size) && cy + BrushHigh(size) < Rows
    ensures |BrushCells(cx, cy, size)| == size * size
  {
    BrushSpan(size);
    BrushCellsSpec(cx, cy, size, BrushCells(cx, cy, size));
  }

  /** The grid after stamping the brush of `size` centred on cell `(cx, cy)` with colour `c`. */
  function Stamp<C>(g: Grid<C>, cx: int, cy: int, size: int, c: C): (r: Grid<C>)
    requires Shaped(g, Cols, Rows)
    ensures Shaped(r, Cols, Rows)
    ensures forall y, x :: 0 <= y < Rows && 0 <= x < Cols ==>
              r[y][x] == if InFootprint(cx, cy, size, x, y) then c else g[y][x]
  {
    seq(Rows, y requires 0 <= y < Rows =>
      seq(Cols, x requires 0 <= x < Cols => if InFootprint(cx, cy, size, x, y) then c else g[y][x]))
  }

  /** A brush of size 1 recolours exactly its centre cell, and nothing when the centre is off the grid. */
  lemma StampUnit<C>(g: Grid<C>, cx: int, cy: int, c: C)
    requires Shaped(g, Cols, Rows)
    ensures Stamp(g, cx, cy, 1, c) == Put(g, Cols, Rows, cx, cy, c)
  {
    GridExt(Stamp(g, cx, cy, 1, c), Put(g, Cols, Rows, cx, cy, c), Cols, Rows);
  }

  /** Stamping the same place twice with the same colour is the same as stamping once. */
  lemma StampIdempotent<C>(g: Grid<C>, cx: int, cy: int, size: int, c: C)
    requires Shaped(g, Cols, Rows)
    ensures Stamp(Stamp(g, cx, cy, size, c), cx, cy, size, c) == Stamp(g, cx, cy, size, c)
  {
    var once := Stamp(g, cx, cy, size, c);
    GridExt(Stamp(once, cx, cy, size, c), once, Cols, Rows);
  }

  /**
   * A stamp with a brush of size at least 1 whose centre is on the grid and
   * still holds `o` removes that cell from the cells holding `o`, and adds none.
   */
  lemma StampShrinksMatching<C>(g: Grid<C>, cx: int, cy: int, size: int, o: C, c: C)
    requires Shaped(g, Cols, Rows) && size >= 1 && c != o
    requires Inside(Cols, Rows, cx, cy) && g[cy][cx] == o
    ensures Matching(Stamp(g, cx, cy, size, c), Cols, Rows, o) < Matching(g, Cols, Rows, o)
  {
    BrushSpan(size);
    RecolourShrinksMatching(g, Stamp(g, cx, cy, size, c), Cols, Rows, o, c, cx, cy);
  }

  /** `max(1, min(10, z))`: the zoom level is kept between 1x and 10x. */
  function ClampZoom(z: real): (r: real)
    ensures 1.0 <= r <= 10.0
    ensures 1.0 <= z <= 10.0 ==> r == z
    ensures z < 1.0 ==> r == 1.0
    ensures z > 10.0 ==> r == 10.0
  {
    var m := if 10.0 < z then 10.0 else z;
    if 1.0 > m then 1.0 else m
  }

  function Distance(a: real, b: real): real {
    if a < b then b - a else a - b
  }

  /** The clamped level is the allowed level nearest to the requested one. */
  lemma ClampZoomNearest(z: real, v: real)
    requires 1.0 <= v <= 10.0
    ensures Distance(ClampZoom(z), z) <= Distance(v, z)
  {
  }

  /** Clamping an allowed level changes nothing, so clamping twice is clamping once. */
  lemma ClampZoomIdempotent(z: real)
    ensures ClampZoom(ClampZoom(z)) == ClampZoom(z)
  {
  }
}
