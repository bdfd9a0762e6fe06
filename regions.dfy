/**
 * Value-level view of a rectangular grid of cells and of 4-connected flood
 * fill over it. Both the bitmap (`ImageLogic`) and the canvas surface are
 * specified against these definitions; the loop invariant `FillInv` and its
 * step lemmas are the proof of the explicit-stack, check-on-pop fill that
 * both of them run.
 */
module Regions {

  /** A cell coordinate `(x, y)`, column first, as the source passes it. */
  type Cell = (int, int)

  /** A grid stored row by row: `g[y][x]`, like numpy's `image[y, x]`. */
  type Grid<C> = seq<seq<C>>

  predicate Inside(w: int, h: int, x: int, y: int) {
    0 <= x < w && 0 <= y < h
  }

  /** `g` has `h` rows of `w` cells each. */
  predicate Shaped<C>(g: Grid<C>, w: nat, h: nat) {
    |g| == h && forall y :: 0 <= y < h ==> |g[y]| == w
  }

  /** Bounds-checked write: exactly cell `(x, y)` becomes `c`; a no-op off the grid. */
  function Put<C>(g: Grid<C>, w: nat, h: nat, x: int, y: int, c: C): (r: Grid<C>)
    requires Shaped(g, w, h)
    ensures Shaped(r, w, h)
    ensures forall j, i :: 0 <= j < h && 0 <= i < w ==>
              r[j][i] == if i == x && j == y then c else g[j][i]
  {
    if Inside(w, h, x, y) then g[y := g[y][x := c]] else g
  }

  /** A `w` by `h` grid every cell of which is `c`. */
  function Uniform<C>(w: nat, h: nat, c: C): (r: Grid<C>)
    ensures Shaped(r, w, h)
    ensures forall j, i :: 0 <= j < h && 0 <= i < w ==> r[j][i] == c
  {
    seq(h, _ => seq(w, _ => c))
  }

  /**
   * The grid after resizing to `nw` by `nh`: the top-left overlap keeps its
   * cells, every other cell is `fill`.
   */
  function Resized<C>(g: Grid<C>, w: nat, h: nat, nw: nat, nh: nat, fill: C): (r: Grid<C>)
    requires Shaped(g, w, h)
    ensures Shaped(r, nw, nh)
    ensures forall j, i :: 0 <= j < nh && 0 <= i < nw && j < h && i < w ==> r[j][i] == g[j][i]
    ensures forall j, i :: 0 <= j < nh && 0 <= i < nw && (h <= j || w <= i) ==> r[j][i] == fill
  {
    seq(nh, j requires 0 <= j < nh => seq(nw, i requires 0 <= i < nw => if i < w && j < h then g[j][i] else fill))
  }

  /** Two grids of the same shape that agree on every cell are equal. */
  lemma GridExt<C>(a: Grid<C>, b: Grid<C>, w: nat, h: nat)
    requires Shaped(a, w, h) && Shaped(b, w, h)
    requires forall j, i :: 0 <= j < h && 0 <= i < w ==> a[j][i] == b[j][i]
    ensures a == b
  {
    forall j | 0 <= j < h
      ensures a[j] == b[j]
    {
      assert forall i :: 0 <= i < w ==> a[j][i] == b[j][i] by {
        forall i | 0 <= i < w ensures a[j][i] == b[j][i] {
          assert Inside(w, h, i, j);
        }
      }
    }
  }

  /** Resizing to the current size changes nothing. */
  lemma ResizeSameSize<C>(g: Grid<C>, w: nat, h: nat, fill: C)
    requires Shaped(g, w, h)
    ensures Resized(g, w, h, w, h, fill) == g
  {
    GridExt(Resized(g, w, h, w, h, fill), g, w, h);
  }

  /** Growing and then cropping back to the original size restores the grid. */
  lemma ResizeGrowThenCrop<C>(g: Grid<C>, w: nat, h: nat, bw: nat, bh: nat, fill: C)
    requires Shaped(g, w, h) && w <= bw && h <= bh
    ensures Resized(Resized(g, w, h, bw, bh, fill), bw, bh, w, h, fill) == g
  {
    GridExt(Resized(Resized(g, w, h, bw, bh, fill), bw, bh, w, h, fill), g, w, h);
  }

  /** Two successive crops are the same as cropping once to the smaller size. */
  lemma ResizeCropTwice<C>(g: Grid<C>, w: nat, h: nat, w1: nat, h1: nat, w2: nat, h2: nat, fill: C)
    requires Shaped(g, w, h) && w2 <= w1 <= w && h2 <= h1 <= h
    ensures Resized(Resized(g, w, h, w1, h1, fill), w1, h1, w2, h2, fill) == Resized(g, w, h, w2, h2, fill)
  {
    GridExt(Resized(Resized(g, w, h, w1, h1, fill), w1, h1, w2, h2, fill), Resized(g, w, h, w2, h2, fill), w2, h2);
  }

  /** `q` is one of the four axis neighbours of `p`. */
  predicate Adjacent(p: Cell, q: Cell) {
    q == (p.0 - 1, p.1) || q == (p.0 + 1, p.1) || q == (p.0, p.1 - 1) || q == (p.0, p.1 + 1)
  }

  /**
   * The stack after recolouring `(x, y)`: `rest` followed by the on-grid
   * neighbours in push order left, right, up, down.
   */
  function Pushed(rest: seq<Cell>, x: int, y: int, w: int, h: int): (s: seq<Cell>)
    requires Inside(w, h, x, y)
    ensures |rest| <= |s| && forall k :: 0 <= k < |rest| ==> s[k] == rest[k]
    ensures forall k :: |rest| <= k < |s| ==> Inside(w, h, s[k].0, s[k].1) && Adjacent((x, y), s[k])
    ensures forall q {:trigger q in rest} :: q in rest ==> q in s
    ensures forall q: Cell {:trigger Adjacent((x, y), q)} :: Adjacent((x, y), q) && Inside(w, h, q.0, q.1) ==> q in s
  {
    var s1 := if x > 0 then rest + [(x - 1, y)] else rest;
    var s2 := if x < w - 1 then s1 + [(x + 1, y)] else s1;
    var s3 := if y > 0 then s2 + [(x, y - 1)] else s2;
    if y < h - 1 then s3 + [(x, y + 1)] else s3
  }

  /** A non-empty walk through on-grid cells of colour `o`, one axis step at a time. */
  ghost predicate IsPath<C>(g: Grid<C>, w: nat, h: nat, o: C, path: seq<Cell>)
    requires Shaped(g, w, h)
  {
    && |path| > 0
    && (forall k :: 0 <= k < |path| ==>
          Inside(w, h, path[k].0, path[k].1) && g[path[k].1][path[k].0] == o)
    && (forall k {:trigger Adjacent(path[k - 1], path[k])} :: 0 < k < |path| ==> Adjacent(path[k - 1], path[k]))
  }

  /**
   * `(x, y)` is 4-connected to the on-grid seed `(sx, sy)` through cells that
   * have the seed's colour.
   */
  ghost predicate InRegion<C>(g: Grid<C>, w: nat, h: nat, sx: int, sy: int, x: int, y: int)
    requires Shaped(g, w, h)
  {
    && Inside(w, h, sx, sy)
    && exists path {:trigger IsPath(g, w, h, g[sy][sx], path)} ::
         IsPath(g, w, h, g[sy][sx], path) && path[0] == (sx, sy) && path[|path| - 1] == (x, y)
  }

  lemma RegionSeed<C>(g: Grid<C>, w: nat, h: nat, sx: int, sy: int)
    requires Shaped(g, w, h) && Inside(w, h, sx, sy)
    ensures InRegion(g, w, h, sx, sy, sx, sy)
  {
    assert IsPath(g, w, h, g[sy][sx], [(sx, sy)]);
  }

  /** Every region cell is on the grid and has the seed's colour. */
  lemma RegionInside<C>(g: Grid<C>, w: nat, h: nat, sx: int, sy: int, x: int, y: int)
    requires Shaped(g, w, h) && InRegion(g, w, h, sx, sy, x, y)
    ensures Inside(w, h, x, y) && g[y][x] == g[sy][sx]
  {
    var path: seq<Cell> :| IsPath(g, w, h, g[sy][sx], path) && path[0] == (sx, sy) && path[|path| - 1] == (x, y);
    var k := |path| - 1;
    assert Inside(w, h, path[k].0, path[k].1) && g[path[k].1][path[k].0] == g[sy][sx];
  }

  /** The region is closed under steps to on-grid neighbours of the seed's colour. */
  lemma RegionStep<C>(g: Grid<C>, w: nat, h: nat, sx: int, sy: int, p: Cell, q: Cell)
    requires Shaped(g, w, h) && InRegion(g, w, h, sx, sy, p.0, p.1)
    requires Adjacent(p, q) && Inside(w, h, q.0, q.1) && g[q.1][q.0] == g[sy][sx]
    ensures InRegion(g, w, h, sx, sy, q.0, q.1)
  {
    var path: seq<Cell> :| IsPath(g, w, h, g[sy][sx], path) && path[0] == (sx, sy) && path[|path| - 1] == p;
    var longer := path + [q];
    assert longer[|longer| - 1] == q && longer[|longer| - 2] == p;
    assert IsPath(g, w, h, g[sy][sx], longer);
  }

  /**
   * The result of filling from `(sx, sy)` with `c`: the seed's region takes
   * colour `c`, every other cell keeps its own; an off-grid seed, or a seed
   * that already has colour `c`, leaves the grid as it is.
   */
  ghost function Flood<C>(g: Grid<C>, w: nat, h: nat, sx: int, sy: int, c: C): (r: Grid<C>)
    requires Shaped(g, w, h)
    ensures Shaped(r, w, h)
  {
    if !Inside(w, h, sx, sy) || g[sy][sx] == c then g
    else seq(h, y requires 0 <= y < h =>
           seq(|g[y]|, x requires 0 <= x < |g[y]| =>
             if InRegion(g, w, h, sx, sy, x, y) then c else g[y][x]))
  }

  /** Fill recolours exactly the seed's region, in every case. */
  lemma FloodAt<C>(g: Grid<C>, w: nat, h: nat, sx: int, sy: int, c: C, x: int, y: int)
    requires Shaped(g, w, h) && Inside(w, h, x, y)
    ensures Flood(g, w, h, sx, sy, c)[y][x] == if InRegion(g, w, h, sx, sy, x, y) then c else g[y][x]
  {
    if Inside(w, h, sx, sy) && g[sy][sx] == c && InRegion(g, w, h, sx, sy, x, y) {
      RegionInside(g, w, h, sx, sy, x, y);
    }
  }

  /** A second identical fill right after the first changes nothing. */
  lemma FloodIdempotent<C>(g: Grid<C>, w: nat, h: nat, sx: int, sy: int, c: C)
    requires Shaped(g, w, h)
    ensures Flood(Flood(g, w, h, sx, sy, c), w, h, sx, sy, c) == Flood(g, w, h, sx, sy, c)
  {
    if Inside(w, h, sx, sy) {
      RegionSeed(g, w, h, sx, sy);
      FloodAt(g, w, h, sx, sy, c, sx, sy);
    }
  }

  /** Cells whose colour differs from the seed's are never touched by a fill. */
  lemma FloodKeepsOtherColours<C>(g: Grid<C>, w: nat, h: nat, sx: int, sy: int, c: C, x: int, y: int)
    requires Shaped(g, w, h) && Inside(w, h, x, y)
    requires !Inside(w, h, sx, sy) || g[y][x] != g[sy][sx]
    ensures Flood(g, w, h, sx, sy, c)[y][x] == g[y][x]
  {
    FloodAt(g, w, h, sx, sy, c, x, y);
    if InRegion(g, w, h, sx, sy, x, y) {
      RegionInside(g, w, h, sx, sy, x, y);
    }
  }

  /**
   * A fill does not stop short: a neighbour of a recoloured cell that kept
   * its colour does not have the seed's original colour.
   */
  lemma FloodStopsAtBoundary<C>(g: Grid<C>, w: nat, h: nat, sx: int, sy: int, c: C, p: Cell, q: Cell)
    requires Shaped(g, w, h) && Inside(w, h, p.0, p.1) && Inside(w, h, q.0, q.1) && Adjacent(p, q)
    requires Flood(g, w, h, sx, sy, c)[p.1][p.0] != g[p.1][p.0]
    requires Flood(g, w, h, sx, sy, c)[q.1][q.0] == g[q.1][q.0]
    ensures g[q.1][q.0] != g[sy][sx]
  {
    FloodAt(g, w, h, sx, sy, c, p.0, p.1);
    FloodAt(g, w, h, sx, sy, c, q.0, q.1);
    RegionInside(g, w, h, sx, sy, p.0, p.1);
    if g[q.1][q.0] == g[sy][sx] {
      RegionStep(g, w, h, sx, sy, p, q);
    }
  }

  lemma {:induction false} UniformRowReach<C>(w: nat, h: nat, o: C, sx: int, sy: int, x: int)
    requires Inside(w, h, sx, sy) && 0 <= x < w
    ensures InRegion(Uniform(w, h, o), w, h, sx, sy, x, sy)
    decreases if x < sx then sx - x else x - sx
  {
    var g := Uniform(w, h, o);
    if x == sx {
      RegionSeed(g, w, h, sx, sy);
    } else if x > sx {
      UniformRowReach(w, h, o, sx, sy, x - 1);
      RegionStep(g, w, h, sx, sy, (x - 1, sy), (x, sy));
    } else {
      UniformRowReach(w, h, o, sx, sy, x + 1);
      RegionStep(g, w, h, sx, sy, (x + 1, sy), (x, sy));
    }
  }

  /** On a grid of one colour, every cell is in the region of every seed. */
  lemma {:induction false} UniformReach<C>(w: nat, h: nat, o: C, sx: int, sy: int, x: int, y: int)
    requires Inside(w, h, sx, sy) && Inside(w, h, x, y)
    ensures InRegion(Uniform(w, h, o), w, h, sx, sy, x, y)
    decreases if y < sy then sy - y else y - sy
  {
    var g := Uniform(w, h, o);
    if y == sy {
      UniformRowReach(w, h, o, sx, sy, x);
    } else if y > sy {
      UniformReach(w, h, o, sx, sy, x, y - 1);
      RegionStep(g, w, h, sx, sy, (x, y - 1), (x, y));
    } else {
      UniformReach(w, h, o, sx, sy, x, y + 1);
      RegionStep(g, w, h, sx, sy, (x, y + 1), (x, y));
    }
  }

  /** Filling a grid of one colour from any on-grid seed recolours all of it. */
  lemma FloodUniform<C>(w: nat, h: nat, o: C, c: C, sx: int, sy: int)
    requires Inside(w, h, sx, sy)
    ensures Flood(Uniform(w, h, o), w, h, sx, sy, c) == Uniform(w, h, c)
  {
    var g := Uniform(w, h, o);
    forall j, i | 0 <= j < h && 0 <= i < w
      ensures Flood(g, w, h, sx, sy, c)[j][i] == Uniform(w, h, c)[j][i]
    {
      UniformReach(w, h, o, sx, sy, i, j);
      FloodAt(g, w, h, sx, sy, c, i, j);
    }
    GridExt(Flood(g, w, h, sx, sy, c), Uniform(w, h, c), w, h);
  }

  // ---------------------------------------------------------------------
  // Termination measure of the fill loops.

  /** The on-grid cells that currently have colour `o`. */
  ghost function Matching<C>(g: Grid<C>, w: nat, h: nat, o: C): set<Cell>
    requires Shaped(g, w, h)
  {
    set x: int, y: int | 0 <= x < w && 0 <= y < h && g[y][x] == o :: (x, y)
  }

  /**
   * Recolouring some cells to `c` (never to `o`), among them an on-grid cell
   * of colour `o`, strictly shrinks the set of cells of colour `o`.
   */
  lemma RecolourShrinksMatching<C>(g: Grid<C>, r: Grid<C>, w: nat, h: nat, o: C, c: C, x: int, y: int)
    requires Shaped(g, w, h) && Shaped(r, w, h) && c != o
    requires forall j, i :: 0 <= j < h && 0 <= i < w ==> r[j][i] == g[j][i] || r[j][i] == c
    requires Inside(w, h, x, y) && g[y][x] == o && r[y][x] == c
    ensures Matching(r, w, h, o) < Matching(g, w, h, o)
  {
    assert (x, y) in Matching(g, w, h, o);
    assert (x, y) !in Matching(r, w, h, o);
    forall q | q in Matching(r, w, h, o)
      ensures q in Matching(g, w, h, o)
    {
      assert Inside(w, h, q.0, q.1) && r[q.1][q.0] == o;
    }
  }

  // ---------------------------------------------------------------------
  // The invariant of the explicit-stack, check-on-pop fill loop.

  /** `(x, y)` has been recoloured by the fill: it is in the region and holds `n`. */
  ghost predicate Painted<C>(g0: Grid<C>, cur: Grid<C>, w: nat, h: nat, sx: int, sy: int, n: C, x: int, y: int)
    requires Shaped(g0, w, h) && Shaped(cur, w, h)
  {
    Inside(w, h, x, y) && cur[y][x] == n && InRegion(g0, w, h, sx, sy, x, y)
  }

  /** If `(x, y)` is on the grid and still has colour `o`, it waits on the stack. */
  ghost predicate Pending<C>(cur: Grid<C>, w: nat, h: nat, o: C, stack: seq<Cell>, x: int, y: int)
    requires Shaped(cur, w, h)
  {
    Inside(w, h, x, y) && cur[y][x] == o ==> (x, y) in stack
  }

  /** `p` is the seed or a neighbour of a region cell. */
  ghost predicate NextToRegion<C>(g0: Grid<C>, w: nat, h: nat, sx: int, sy: int, p: Cell)
    requires Shaped(g0, w, h)
  {
    || p == (sx, sy)
    || InRegion(g0, w, h, sx, sy, p.0 - 1, p.1) || InRegion(g0, w, h, sx, sy, p.0 + 1, p.1)
    || InRegion(g0, w, h, sx, sy, p.0, p.1 - 1) || InRegion(g0, w, h, sx, sy, p.0, p.1 + 1)
  }

  /** Every cell that differs from the original was recoloured within the region. */
  ghost predicate ChangedOnlyInRegion<C>(g0: Grid<C>, cur: Grid<C>, w: nat, h: nat, sx: int, sy: int, n: C)
    requires Shaped(g0, w, h) && Shaped(cur, w, h)
  {
    forall y, x {:trigger cur[y][x]} :: 0 <= y < h && 0 <= x < w ==>
      cur[y][x] == g0[y][x] || (cur[y][x] == n && InRegion(g0, w, h, sx, sy, x, y))
  }

  /** Every stacked cell is on the grid, and is the seed or a neighbour of the region. */
  ghost predicate StackNearRegion<C>(g0: Grid<C>, w: nat, h: nat, sx: int, sy: int, stack: seq<Cell>)
    requires Shaped(g0, w, h)
  {
    forall k :: 0 <= k < |stack| ==>
      Inside(w, h, stack[k].0, stack[k].1) && NextToRegion(g0, w, h, sx, sy, stack[k])
  }

  /** Every neighbour of a recoloured cell that still has the old colour is on the stack. */
  ghost predicate FrontierStacked<C>(g0: Grid<C>, cur: Grid<C>, w: nat, h: nat, sx: int, sy: int, n: C, stack: seq<Cell>)
    requires Shaped(g0, w, h) && Shaped(cur, w, h)
  {
    forall y, x :: Painted(g0, cur, w, h, sx, sy, n, x, y) ==>
      && Pending(cur, w, h, g0[sy][sx], stack, x - 1, y)
      && Pending(cur, w, h, g0[sy][sx], stack, x + 1, y)
      && Pending(cur, w, h, g0[sy][sx], stack, x, y - 1)
      && Pending(cur, w, h, g0[sy][sx], stack, x, y + 1)
  }

  /**
   * Invariant of a fill from `(sx, sy)` with colour `n` over the grid that was
   * `g0` when the fill began, now `cur`, with `stack` still to pop.
   */
  ghost predicate FillInv<C>(g0: Grid<C>, cur: Grid<C>, w: nat, h: nat, sx: int, sy: int, n: C, stack: seq<Cell>)
  {
    && Shaped(g0, w, h) && Shaped(cur, w, h)
    && Inside(w, h, sx, sy) && g0[sy][sx] != n
    && ChangedOnlyInRegion(g0, cur, w, h, sx, sy, n)
    && StackNearRegion(g0, w, h, sx, sy, stack)
    && FrontierStacked(g0, cur, w, h, sx, sy, n, stack)
    && (cur[sy][sx] == n || (sx, sy) in stack)
  }

  /** The invariant holds when the stack first holds the seed alone. */
  lemma FillInvInit<C>(g0: Grid<C>, w: nat, h: nat, sx: int, sy: int, n: C)
    requires Shaped(g0, w, h) && Inside(w, h, sx, sy) && g0[sy][sx] != n
    ensures FillInv(g0, g0, w, h, sx, sy, n, [(sx, sy)])
  {
    forall y, x ensures !Painted(g0, g0, w, h, sx, sy, n, x, y) {
      if Inside(w, h, x, y) && InRegion(g0, w, h, sx, sy, x, y) {
        RegionInside(g0, w, h, sx, sy, x, y);
      }
    }
  }

  /** Popping a cell that no longer has the old colour keeps the invariant. */
  lemma FillInvSkip<C>(g0: Grid<C>, cur: Grid<C>, w: nat, h: nat, sx: int, sy: int, n: C, stack: seq<Cell>)
    requires FillInv(g0, cur, w, h, sx, sy, n, stack) && |stack| > 0
    requires cur[stack[|stack| - 1].1][stack[|stack| - 1].0] != g0[sy][sx]
    ensures FillInv(g0, cur, w, h, sx, sy, n, stack[..|stack| - 1])
  {
    var p, rest := stack[|stack| - 1], stack[..|stack| - 1];
    assert stack == rest + [p];
    forall y, x | Painted(g0, cur, w, h, sx, sy, n, x, y)
      ensures && Pending(cur, w, h, g0[sy][sx], rest, x - 1, y)
              && Pending(cur, w, h, g0[sy][sx], rest, x + 1, y)
              && Pending(cur, w, h, g0[sy][sx], rest, x, y - 1)
              && Pending(cur, w, h, g0[sy][sx], rest, x, y + 1)
    {
      assert Pending(cur, w, h, g0[sy][sx], stack, x - 1, y);
      assert Pending(cur, w, h, g0[sy][sx], stack, x + 1, y);
      assert Pending(cur, w, h, g0[sy][sx], stack, x, y - 1);
      assert Pending(cur, w, h, g0[sy][sx], stack, x, y + 1);
    }
    if cur[sy][sx] != n {
      assert cur[sy][sx] == g0[sy][sx];
    }
  }

  /** The popped cell still has the old colour, so it lies in the region. */
  lemma PoppedInRegion<C>(g0: Grid<C>, cur: Grid<C>, w: nat, h: nat, sx: int, sy: int, n: C, stack: seq<Cell>)
    requires FillInv(g0, cur, w, h, sx, sy, n, stack) && |stack| > 0
    requires cur[stack[|stack| - 1].1][stack[|stack| - 1].0] == g0[sy][sx]
    ensures InRegion(g0, w, h, sx, sy, stack[|stack| - 1].0, stack[|stack| - 1].1)
  {
    var p := stack[|stack| - 1];
    assert Inside(w, h, p.0, p.1) && NextToRegion(g0, w, h, sx, sy, p);
    if p == (sx, sy) {
      RegionSeed(g0, w, h, sx, sy);
    } else if !Painted(g0, cur, w, h, sx, sy, n, p.0, p.1) {
      assert g0[p.1][p.0] == g0[sy][sx];
      if InRegion(g0, w, h, sx, sy, p.0 - 1, p.1) {
        RegionStep(g0, w, h, sx, sy, (p.0 - 1, p.1), p);
      } else if InRegion(g0, w, h, sx, sy, p.0 + 1, p.1) {
        RegionStep(g0, w, h, sx, sy, (p.0 + 1, p.1), p);
      } else if InRegion(g0, w, h, sx, sy, p.0, p.1 - 1) {
        RegionStep(g0, w, h, sx, sy, (p.0, p.1 - 1), p);
      } else {
        RegionStep(g0, w, h, sx, sy, (p.0, p.1 + 1), p);
      }
    }
  }

  /** A cell waiting before a paint still waits after it, unless it was the one painted. */
  lemma PendingAfterPaint<C>(cur: Grid<C>, w: nat, h: nat, o: C, n: C, stack: seq<Cell>, x: int, y: int)
    requires Shaped(cur, w, h) && |stack| > 0 && o != n
    requires Inside(w, h, stack[|stack| - 1].0, stack[|stack| - 1].1)
    requires Pending(cur, w, h, o, stack, x, y)
    ensures var p := stack[|stack| - 1];
            Pending(Put(cur, w, h, p.0, p.1, n), w, h, o, Pushed(stack[..|stack| - 1], p.0, p.1, w, h), x, y)
  {
    var p, rest := stack[|stack| - 1], stack[..|stack| - 1];
    assert stack == rest + [p];
    var cur' := Put(cur, w, h, p.0, p.1, n);
    if Inside(w, h, x, y) && cur'[y][x] == o {
      assert (x, y) != p && (x, y) in stack;
      assert (x, y) in rest;
    }
  }

  /** Recolouring a region cell keeps every other change inside the region. */
  lemma PaintKeepsChanges<C>(g0: Grid<C>, cur: Grid<C>, w: nat, h: nat, sx: int, sy: int, n: C, p: Cell)
    requires Shaped(g0, w, h) && Shaped(cur, w, h) && ChangedOnlyInRegion(g0, cur, w, h, sx, sy, n)
    requires Inside(w, h, p.0, p.1) && InRegion(g0, w, h, sx, sy, p.0, p.1)
    ensures ChangedOnlyInRegion(g0, Put(cur, w, h, p.0, p.1, n), w, h, sx, sy, n)
  {
    var cur' := Put(cur, w, h, p.0, p.1, n);
    forall y, x | 0 <= y < h && 0 <= x < w
      ensures cur'[y][x] == g0[y][x] || (cur'[y][x] == n && InRegion(g0, w, h, sx, sy, x, y))
    {
    }
  }

  /** Replacing a popped region cell by its neighbours keeps the stack next to the region. */
  lemma PushKeepsStackNear<C>(g0: Grid<C>, w: nat, h: nat, sx: int, sy: int, stack: seq<Cell>)
    requires Shaped(g0, w, h) && StackNearRegion(g0, w, h, sx, sy, stack) && |stack| > 0
    requires InRegion(g0, w, h, sx, sy, stack[|stack| - 1].0, stack[|stack| - 1].1)
    ensures var p := stack[|stack| - 1];
            Inside(w, h, p.0, p.1) &&
            StackNearRegion(g0, w, h, sx, sy, Pushed(stack[..|stack| - 1], p.0, p.1, w, h))
  {
    var p, rest := stack[|stack| - 1], stack[..|stack| - 1];
    assert Inside(w, h, p.0, p.1);
    var stack' := Pushed(rest, p.0, p.1, w, h);
    forall k | 0 <= k < |stack'|
      ensures Inside(w, h, stack'[k].0, stack'[k].1) && NextToRegion(g0, w, h, sx, sy, stack'[k])
    {
      if k < |rest| {
        assert stack'[k] == stack[k];
      } else {
        NeighbourNextToRegion(g0, w, h, sx, sy, p, stack'[k]);
      }
    }
  }

  lemma NeighbourNextToRegion<C>(g0: Grid<C>, w: nat, h: nat, sx: int, sy: int, p: Cell, q: Cell)
    requires Shaped(g0, w, h) && InRegion(g0, w, h, sx, sy, p.0, p.1) && Adjacent(p, q)
    ensures NextToRegion(g0, w, h, sx, sy, q)
  {
    if q == (p.0 - 1, p.1) {
      assert p == (q.0 + 1, q.1);
    } else if q == (p.0 + 1, p.1) {
      assert p == (q.0 - 1, q.1);
    } else if q == (p.0, p.1 - 1) {
      assert p == (q.0, q.1 + 1);
    } else {
      assert p == (q.0, q.1 - 1);
    }
  }

  /** Recolouring the popped region cell and pushing its neighbours keeps the frontier stacked. */
  lemma PaintKeepsFrontier<C>(g0: Grid<C>, cur: Grid<C>, w: nat, h: nat, sx: int, sy: int, n: C, stack: seq<Cell>)
    requires Shaped(g0, w, h) && Shaped(cur, w, h) && |stack| > 0 && Inside(w, h, sx, sy) && g0[sy][sx] != n
    requires FrontierStacked(g0, cur, w, h, sx, sy, n, stack)
    requires Inside(w, h, stack[|stack| - 1].0, stack[|stack| - 1].1)
    ensures var p := stack[|stack| - 1];
            FrontierStacked(g0, Put(cur, w, h, p.0, p.1, n), w, h, sx, sy, n,
                            Pushed(stack[..|stack| - 1], p.0, p.1, w, h))
  {
    var p, rest := stack[|stack| - 1], stack[..|stack| - 1];
    var o := g0[sy][sx];
    var cur' := Put(cur, w, h, p.0, p.1, n);
    var stack' := Pushed(rest, p.0, p.1, w, h);
    forall y, x | Painted(g0, cur', w, h, sx, sy, n, x, y)
      ensures && Pending(cur', w, h, o, stack', x - 1, y)
              && Pending(cur', w, h, o, stack', x + 1, y)
              && Pending(cur', w, h, o, stack', x, y - 1)
              && Pending(cur', w, h, o, stack', x, y + 1)
    {
      if (x, y) == p {
        PushedNeighbourStacked(cur', w, h, o, rest, p, (x - 1, y));
        PushedNeighbourStacked(cur', w, h, o, rest, p, (x + 1, y));
        PushedNeighbourStacked(cur', w, h, o, rest, p, (x, y - 1));
        PushedNeighbourStacked(cur', w, h, o, rest, p, (x, y + 1));
      } else {
        OtherPaintedStillStacked(g0, cur, w, h, sx, sy, n, stack, x, y);
      }
    }
  }

  /** A cell recoloured earlier keeps its old-coloured neighbours stacked after the next paint. */
  lemma OtherPaintedStillStacked<C>(g0: Grid<C>, cur: Grid<C>, w: nat, h: nat, sx: int, sy: int, n: C,
                                    stack: seq<Cell>, x: int, y: int)
    requires Shaped(g0, w, h) && Shaped(cur, w, h) && |stack| > 0 && Inside(w, h, sx, sy) && g0[sy][sx] != n
    requires FrontierStacked(g0, cur, w, h, sx, sy, n, stack)
    requires Inside(w, h, stack[|stack| - 1].0, stack[|stack| - 1].1) && (x, y) != stack[|stack| - 1]
    requires Painted(g0, Put(cur, w, h, stack[|stack| - 1].0, stack[|stack| - 1].1, n), w, h, sx, sy, n, x, y)
    ensures var p := stack[|stack| - 1];
            var cur' := Put(cur, w, h, p.0, p.1, n);
            var stack' := Pushed(stack[..|stack| - 1], p.0, p.1, w, h);
            && Pending(cur', w, h, g0[sy][sx], stack', x - 1, y)
            && Pending(cur', w, h, g0[sy][sx], stack', x + 1, y)
            && Pending(cur', w, h, g0[sy][sx], stack', x, y - 1)
            && Pending(cur', w, h, g0[sy][sx], stack', x, y + 1)
  {
    var p := stack[|stack| - 1];
    assert Put(cur, w, h, p.0, p.1, n)[y][x] == cur[y][x];
    assert Painted(g0, cur, w, h, sx, sy, n, x, y);
    var o := g0[sy][sx];
    PendingAfterPaint(cur, w, h, o, n, stack, x - 1, y);
    PendingAfterPaint(cur, w, h, o, n, stack, x + 1, y);
    PendingAfterPaint(cur, w, h, o, n, stack, x, y - 1);
    PendingAfterPaint(cur, w, h, o, n, stack, x, y + 1);
  }

  /** Every on-grid neighbour of the recoloured cell is on the stack once it has been pushed. */
  lemma PushedNeighbourStacked<C>(cur: Grid<C>, w: nat, h: nat, o: C, rest: seq<Cell>, p: Cell, q: Cell)
    requires Shaped(cur, w, h) && Inside(w, h, p.0, p.1) && Adjacent(p, q)
    ensures Pending(cur, w, h, o, Pushed(rest, p.0, p.1, w, h), q.0, q.1)
  {
    if Inside(w, h, q.0, q.1) {
      assert q in Pushed(rest, p.0, p.1, w, h);
    }
  }

  /**
   * Popping a cell that still has the old colour, recolouring it and pushing
   * its on-grid neighbours keeps the invariant; the recoloured cell is in
   * the region.
   */
  lemma FillInvPaint<C>(g0: Grid<C>, cur: Grid<C>, w: nat, h: nat, sx: int, sy: int, n: C, stack: seq<Cell>,
                        cur': Grid<C>, stack': seq<Cell>)
    requires FillInv(g0, cur, w, h, sx, sy, n, stack) && |stack| > 0
    requires cur[stack[|stack| - 1].1][stack[|stack| - 1].0] == g0[sy][sx]
    requires var p := stack[|stack| - 1];
             && cur' == Put(cur, w, h, p.0, p.1, n)
             && stack' == Pushed(stack[..|stack| - 1], p.0, p.1, w, h)
    ensures InRegion(g0, w, h, sx, sy, stack[|stack| - 1].0, stack[|stack| - 1].1)
    ensures FillInv(g0, cur', w, h, sx, sy, n, stack')
  {
    var p, rest := stack[|stack| - 1], stack[..|stack| - 1];
    assert stack == rest + [p];
    PoppedInRegion(g0, cur, w, h, sx, sy, n, stack);
    PaintKeepsChanges(g0, cur, w, h, sx, sy, n, p);
    PushKeepsStackNear(g0, w, h, sx, sy, stack);
    PaintKeepsFrontier(g0, cur, w, h, sx, sy, n, stack);
  }

  /** Along a path of the region from the seed, an emptied stack left every cell recoloured. */
  lemma {:induction false} PaintedAlongPath<C>(g0: Grid<C>, cur: Grid<C>, w: nat, h: nat,
                                               sx: int, sy: int, n: C, path: seq<Cell>, k: nat)
    requires FillInv(g0, cur, w, h, sx, sy, n, [])
    requires IsPath(g0, w, h, g0[sy][sx], path) && path[0] == (sx, sy) && k < |path|
    ensures Painted(g0, cur, w, h, sx, sy, n, path[k].0, path[k].1)
  {
    if k == 0 {
      RegionSeed(g0, w, h, sx, sy);
    } else {
      PaintedAlongPath(g0, cur, w, h, sx, sy, n, path, k - 1);
      var p, q := path[k - 1], path[k];
      assert Adjacent(p, q);
      assert !(cur[q.1][q.0] == g0[sy][sx]) by {
        assert Pending(cur, w, h, g0[sy][sx], [], q.0, q.1);
      }
      var prefix := path[..k + 1];
      assert IsPath(g0, w, h, g0[sy][sx], prefix) && prefix[0] == (sx, sy) && prefix[k] == q;
      assert InRegion(g0, w, h, sx, sy, q.0, q.1);
    }
  }

  /** When the stack is empty the grid is the fill of the original grid. */
  lemma FillInvDone<C>(g0: Grid<C>, cur: Grid<C>, w: nat, h: nat, sx: int, sy: int, n: C)
    requires FillInv(g0, cur, w, h, sx, sy, n, [])
    ensures cur == Flood(g0, w, h, sx, sy, n)
  {
    var f := Flood(g0, w, h, sx, sy, n);
    forall y, x | 0 <= y < h && 0 <= x < w
      ensures cur[y][x] == f[y][x]
    {
      FillInvDoneAt(g0, cur, w, h, sx, sy, n, x, y);
    }
    GridExt(cur, f, w, h);
  }

  lemma FillInvDoneAt<C>(g0: Grid<C>, cur: Grid<C>, w: nat, h: nat, sx: int, sy: int, n: C, x: int, y: int)
    requires FillInv(g0, cur, w, h, sx, sy, n, []) && Inside(w, h, x, y)
    ensures cur[y][x] == Flood(g0, w, h, sx, sy, n)[y][x]
  {
    FloodAt(g0, w, h, sx, sy, n, x, y);
    if InRegion(g0, w, h, sx, sy, x, y) {
      var path: seq<Cell> :| IsPath(g0, w, h, g0[sy][sx], path) && path[0] == (sx, sy) && path[|path| - 1] == (x, y);
      PaintedAlongPath(g0, cur, w, h, sx, sy, n, path, |path| - 1);
    } else {
      assert cur[y][x] == g0[y][x];
    }
  }
}
