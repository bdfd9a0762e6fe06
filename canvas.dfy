/**
 * The drawing canvas (src/components/canvas.py) at the level of its cells:
 * the 512 by 512 surface is only ever painted in whole 8 by 8 blocks, so it
 * is held as a 64 by 64 grid of RGB cells indexed `[y, x]`, together with the
 * brush size and the zoom level the pointer mapping divides by.
 */
module CanvasComponent {
  import opened Colours
  import opened Regions
  import opened CanvasGeometry
  import opened ToolboxComponent
  import opened PaletteComponent
  import opened Wrappers

  class Canvas {
    var cells: array2<Rgb>
    var brushSize: int
    var zoomLevel: real

    ghost predicate Valid()
      reads this
    {
      && cells.Length0 == Rows && cells.Length1 == Cols
      && 1.0 <= zoomLevel <= 10.0
    }

    /** The surface as a value: `Cells()[y][x]` is the block at column `x`, row `y`. */
    ghost function Cells(): (g: Grid<Rgb>)
      reads this, cells
      requires Valid()
      ensures Shaped(g, Cols, Rows)
      ensures forall y, x :: 0 <= y < Rows && 0 <= x < Cols ==> g[y][x] == cells[y, x]
    {
      var a := cells;
      seq(a.Length0, y requires 0 <= y < a.Length0 reads a =>
        seq(a.Length1, x requires 0 <= x < a.Length1 reads a => a[y, x]))
    }

    /** A new canvas is white, with a brush of size 1 and no magnification. */
    constructor ()
      ensures Valid() && fresh(cells)
      ensures brushSize == 1 && zoomLevel == 1.0
      ensures Cells() == Uniform(Cols, Rows, White)
    {
      cells := new Rgb[Rows, Cols]((_, _) => White);
      brushSize := 1;
      zoomLevel := 1.0;
      new;
      GridExt(Cells(), Uniform(Cols, Rows, White), Cols, Rows);
    }

    /**
     * The cells under the square brush centred on the cell under pointer
     * `(x, y)`: exactly the on-grid cells of the footprint, each once, in
     * column-major order; there are as many as the on-grid columns of the
     * footprint times its on-grid rows.
     */
    method BrushPixels(x: int, y: int) returns (pixels: seq<Cell>)
      requires Valid()
      ensures pixels == BrushCells(CellOf(x, zoomLevel), CellOf(y, zoomLevel), brushSize)
      ensures var cx, cy := CellOf(x, zoomLevel), CellOf(y, zoomLevel);
              && (forall k :: 0 <= k < |pixels| ==> InFootprint(cx, cy, brushSize, pixels[k].0, pixels[k].1))
              && (forall px, py :: InFootprint(cx, cy, brushSize, px, py) ==> (px, py) in pixels)
              && (forall i, j :: 0 <= i < j < |pixels| ==> Before(pixels[i], pixels[j]) && pixels[i] != pixels[j])
              && |pixels| == OnGridCount(cx, BrushLow(brushSize), BrushHigh(brushSize), Cols)
                             * OnGridCount(cy, BrushLow(brushSize), BrushHigh(brushSize), Rows)
    {
      var cx, cy := CellOf(x, zoomLevel), CellOf(y, zoomLevel);
      var lo, hi := BrushLow(brushSize), BrushHigh(brushSize);
      pixels := [];
      var dx := lo;
      while dx <= hi
        invariant dx == lo || lo < dx <= hi + 1
        invariant pixels == SquareCells(cx, cy, lo, dx - 1, hi)
      {
        var column := ColumnPixels(cx + dx, cy, lo, hi);
        pixels := pixels + column;
        dx := dx + 1;
      }
      if hi < lo {
        assert SquareCells(cx, cy, lo, hi, hi) == [];
      }
      BrushCellsSpec(cx, cy, brushSize, pixels);
    }

    /** The inner loop of the brush scan: the on-grid cells of column `col` for row offsets `lo .. hi`. */
    static method ColumnPixels(col: int, cy: int, lo: int, hi: int) returns (column: seq<Cell>)
      ensures column == ColumnCells(col, cy, lo, hi)
    {
      column := [];
      var dy := lo;
      while dy <= hi
        invariant dy == lo || lo < dy <= hi + 1
        invariant column == ColumnCells(col, cy, lo, dy - 1)
      {
        var py := cy + dy;
        if 0 <= col < Cols && 0 <= py < Rows {
          column := column + [(col, py)];
        }
        dy := dy + 1;
      }
      if hi < lo {
        assert ColumnCells(col, cy, lo, hi) == [];
      }
    }

    /** Stamps the brush centred on the cell under pointer `(x, y)` with `colour`. */
    method DrawPixel(x: int, y: int, colour: Rgb)
      requires Valid()
      modifies cells
      ensures Valid()
      ensures Cells() == Stamp(old(Cells()), CellOf(x, zoomLevel), CellOf(y, zoomLevel), brushSize, colour)
    {
      var pixels := BrushPixels(x, y);
      ghost var g := Cells();
      for i := 0 to |pixels|
        invariant forall j, k :: 0 <= j < Rows && 0 <= k < Cols ==>
                    cells[j, k] == if (k, j) in pixels[..i] then colour else g[j][k]
      {
        var (px, py) := pixels[i];
        cells[py, px] := colour;
        assert pixels[..i + 1] == pixels[..i] + [(px, py)];
      }
      assert pixels[..|pixels|] == pixels;
      GridExt(Cells(), Stamp(g, CellOf(x, zoomLevel), CellOf(y, zoomLevel), brushSize, colour), Cols, Rows);
    }

    /**
     * The colour of the cell under pointer `(x, y)`; `None` where the source
     * reads off the surface and the read raises.
     */
    function GetPixelColor(x: int, y: int): (c: Option<Rgb>)
      reads this, cells
      requires Valid()
      ensures var px, py := CellOf(x, zoomLevel), CellOf(y, zoomLevel);
              && (Inside(Cols, Rows, px, py) ==> c == Some(Cells()[py][px]))
              && (!Inside(Cols, Rows, px, py) ==> c == None)
    {
      var px, py := CellOf(x, zoomLevel), CellOf(y, zoomLevel);
      if 0 <= px < Cols && 0 <= py < Rows then Some(cells[py, px]) else None
    }

    /** Paints exactly cell `(x, y)`, which is on the grid. */
    method PaintCell(x: int, y: int, colour: Rgb)
      requires Valid() && Inside(Cols, Rows, x, y)
      modifies cells
      ensures Valid()
      ensures Cells() == Put(old(Cells()), Cols, Rows, x, y, colour)
    {
      cells[y, x] := colour;
      GridExt(Cells(), Put(old(Cells()), Cols, Rows, x, y, colour), Cols, Rows);
    }

    /**
     * Flood fill from the cell under pointer `(x, y)`, comparing colours as
     * RGB values and working on cells: the 4-connected region of the seed
     * cell's colour becomes `newColour`, every other cell keeps its colour.
     * Off the surface nothing changes.
     */
    method Fill(x: int, y: int, newColour: Rgb)
      requires Valid()
      modifies cells
      ensures Valid()
      ensures Cells() == Flood(old(Cells()), Cols, Rows, CellOf(x, zoomLevel), CellOf(y, zoomLevel), newColour)
    {
      var px, py := CellOf(x, zoomLevel), CellOf(y, zoomLevel);
      var sample := GetPixelColor(x, y);
      if sample.None? || sample.value == newColour {
        return;
      }
      var oldColour := sample.value;
      ghost var g0 := Cells();
      FillInvInit(g0, Cols, Rows, px, py, newColour);
      var stack := [(px, py)];
      while stack != []
        invariant Valid() && FillInv(g0, Cells(), Cols, Rows, px, py, newColour, stack)
        invariant oldColour == g0[py][px]
        decreases Matching(Cells(), Cols, Rows, oldColour), |stack|
      {
        stack := FillStep(g0, px, py, oldColour, newColour, stack);
      }
      FillInvDone(g0, Cells(), Cols, Rows, px, py, newColour);
    }

    /**
     * One pass of the fill loop: the top cell is popped; when it still has
     * the old colour it is painted and its on-grid neighbours are pushed.
     */
    method FillStep(ghost g0: Grid<Rgb>, ghost px: int, ghost py: int, oldColour: Rgb, newColour: Rgb,
                    stack: seq<Cell>) returns (stack': seq<Cell>)
      requires Valid() && FillInv(g0, Cells(), Cols, Rows, px, py, newColour, stack) && stack != []
      requires oldColour == g0[py][px]
      modifies cells
      ensures Valid() && FillInv(g0, Cells(), Cols, Rows, px, py, newColour, stack')
      ensures || Matching(Cells(), Cols, Rows, oldColour) < old(Matching(Cells(), Cols, Rows, oldColour))
              || (Cells() == old(Cells()) && |stack'| < |stack|)
    {
      ghost var cur := Cells();
      var (cx, cy) := stack[|stack| - 1];
      stack' := stack[..|stack| - 1];
      if cells[cy, cx] == oldColour {
        PaintCell(cx, cy, newColour);
        RecolourShrinksMatching(cur, Cells(), Cols, Rows, oldColour, newColour, cx, cy);
        stack' := Pushed(stack', cx, cy, Cols, Rows);
        FillInvPaint(g0, cur, Cols, Rows, px, py, newColour, stack, Cells(), stack');
      } else {
        FillInvSkip(g0, cur, Cols, Rows, px, py, newColour, stack);
      }
    }

    /**
     * The fill as the source writes it, except that colours are compared as
     * values (the string comparison is modelled by `HexColours.StringFillStep`):
     * every popped cell is re-entered through the pointer API at
     * `(cx * 8, cy * 8)`, so it is sampled and painted through the zoom
     * division and the whole brush. It only ever turns cells into
     * `newColour`, and changes nothing when the pointer is off the surface
     * or already on `newColour`; at zoom 1 with a brush of size 1 it is the
     * flood fill of the seed's region. A brush of size 0 or less paints
     * nothing, so a matching popped cell keeps its colour and the source can
     * loop forever, for example once the seed's region has two cells.
     */
    method FillViaPointer(x: int, y: int, newColour: Rgb)
      requires Valid() && brushSize >= 1
      modifies cells
      ensures Valid()
      ensures forall j, i :: 0 <= j < Rows && 0 <= i < Cols ==>
                cells[j, i] == old(cells[j, i]) || cells[j, i] == newColour
      ensures old(GetPixelColor(x, y)) in {None, Some(newColour)} ==> Cells() == old(Cells())
      ensures zoomLevel == 1.0 && brushSize == 1 ==>
                Cells() == Flood(old(Cells()), Cols, Rows, CellOf(x, zoomLevel), CellOf(y, zoomLevel), newColour)
    {
      var px, py := CellOf(x, zoomLevel), CellOf(y, zoomLevel);
      var sample := GetPixelColor(x, y);
      if sample.None? || sample.value == newColour {
        return;
      }
      var oldColour := sample.value;
      ghost var exact := zoomLevel == 1.0 && brushSize == 1;
      ghost var g0 := Cells();
      if exact {
        FillInvInit(g0, Cols, Rows, px, py, newColour);
      }
      var stack := [(px, py)];
      while stack != []
        invariant Valid() && ReentryInv(g0, Cells(), newColour, stack)
        invariant exact ==> FillInv(g0, Cells(), Cols, Rows, px, py, newColour, stack) && oldColour == g0[py][px]
        decreases Matching(Cells(), Cols, Rows, oldColour), |stack|
      {
        stack := FillViaPointerStep(g0, px, py, oldColour, newColour, stack);
      }
      if exact {
        FillInvDone(g0, Cells(), Cols, Rows, px, py, newColour);
      }
    }

    /**
     * One pass of the source's fill loop: the top cell is popped and
     * re-entered at pointer `(cx * 8, cy * 8)`; when the colour read there is
     * the old colour the brush is stamped there and the neighbours of the
     * popped cell are pushed.
     */
    method FillViaPointerStep(ghost g0: Grid<Rgb>, ghost px: int, ghost py: int, oldColour: Rgb, newColour: Rgb,
                              stack: seq<Cell>) returns (stack': seq<Cell>)
      requires Valid() && brushSize >= 1 && stack != [] && oldColour != newColour
      requires ReentryInv(g0, Cells(), newColour, stack)
      requires zoomLevel == 1.0 && brushSize == 1 ==>
                 FillInv(g0, Cells(), Cols, Rows, px, py, newColour, stack) && oldColour == g0[py][px]
      modifies cells
      ensures Valid() && ReentryInv(g0, Cells(), newColour, stack')
      ensures zoomLevel == 1.0 && brushSize == 1 ==> FillInv(g0, Cells(), Cols, Rows, px, py, newColour, stack')
      ensures || Matching(Cells(), Cols, Rows, oldColour) < old(Matching(Cells(), Cols, Rows, oldColour))
              || (Cells() == old(Cells()) && |stack'| < |stack|)
    {
      ghost var cur := Cells();
      var (cx, cy) := stack[|stack| - 1];
      stack' := stack[..|stack| - 1];
      CellOfZoomedCorner(cx, zoomLevel);
      CellOfZoomedCorner(cy, zoomLevel);
      if GetPixelColor(cx * PixelSize, cy * PixelSize) == Some(oldColour) {
        DrawPixel(cx * PixelSize, cy * PixelSize, newColour);
        StampShrinksMatching(cur, CellOf(cx * PixelSize, zoomLevel), CellOf(cy * PixelSize, zoomLevel),
                             brushSize, oldColour, newColour);
        stack' := Pushed(stack', cx, cy, Cols, Rows);
        ReentryPaint(g0, cur, newColour, stack, zoomLevel, brushSize, Cells(), stack');
        if zoomLevel == 1.0 && brushSize == 1 {
          ExactReentry(cur, cx, cy, newColour);
          FillInvPaint(g0, cur, Cols, Rows, px, py, newColour, stack, Cells(), stack');
        }
      } else if zoomLevel == 1.0 && brushSize == 1 {
        CellOfBlockCorner(cx);
        CellOfBlockCorner(cy);
        FillInvSkip(g0, cur, Cols, Rows, px, py, newColour, stack);
      }
    }

    /** `zoom(factor)`: the level is multiplied by `factor` and clamped to 1x .. 10x. */
    method Zoom(factor: real)
      requires Valid()
      modifies this
      ensures Valid() && cells == old(cells) && brushSize == old(brushSize)
      ensures Cells() == old(Cells())
      ensures zoomLevel == ClampZoom(old(zoomLevel) * factor)
    {
      zoomLevel := ClampZoom(zoomLevel * factor);
      GridExt(Cells(), old(Cells()), Cols, Rows);
    }

    method SetBrushSize(size: int)
      requires Valid()
      modifies this
      ensures Valid() && cells == old(cells) && zoomLevel == old(zoomLevel)
      ensures Cells() == old(Cells())
      ensures brushSize == size
    {
      brushSize := size;
      GridExt(Cells(), old(Cells()), Cols, Rows);
    }

    /**
     * Left button press: brush stamps the palette colour, eraser stamps
     * white, dropper copies the colour under the pointer into the palette,
     * fill floods with the palette colour through the corrected `Fill`,
     * zoom magnifies by 1.2.
     */
    method OnLeftClick(x: int, y: int, toolbox: Toolbox, palette: Palette)
      requires Valid()
      modifies this, cells, palette
      ensures Valid() && cells == old(cells) && brushSize == old(brushSize)
      ensures toolbox.currentTool != Dropper ==> palette.currentColour == old(palette.currentColour)
      ensures toolbox.currentTool != Tool.Zoom ==> zoomLevel == old(zoomLevel)
      ensures toolbox.currentTool in {Dropper, Tool.Zoom} ==> Cells() == old(Cells())
      ensures toolbox.currentTool == Brush ==>
                Cells() == Stamp(old(Cells()), CellOf(x, zoomLevel), CellOf(y, zoomLevel), brushSize, palette.currentColour)
      ensures toolbox.currentTool == Eraser ==>
                Cells() == Stamp(old(Cells()), CellOf(x, zoomLevel), CellOf(y, zoomLevel), brushSize, White)
      ensures toolbox.currentTool == Dropper ==>
                palette.currentColour == match old(GetPixelColor(x, y))
                                         case Some(c) => c
                                         case None => old(palette.currentColour)
      ensures toolbox.currentTool == Tool.Fill ==>
                Cells() == Flood(old(Cells()), Cols, Rows, CellOf(x, zoomLevel), CellOf(y, zoomLevel), palette.currentColour)
      ensures toolbox.currentTool == Tool.Zoom ==> zoomLevel == ClampZoom(old(zoomLevel) * 1.2)
    {
      match toolbox.currentTool
      case Brush => DrawPixel(x, y, palette.currentColour);
      case Eraser => DrawPixel(x, y, White);
      case Dropper =>
        var sample := GetPixelColor(x, y);
        if sample.Some? {
          palette.SetColour(sample.value);
        }
      case Fill => Fill(x, y, palette.currentColour);
      case Zoom => Zoom(1.2);
    }

    /** Left button drag: brush and eraser stamp as on a press; the other tools do nothing. */
    method OnLeftDrag(x: int, y: int, toolbox: Toolbox, palette: Palette)
      requires Valid()
      modifies cells
      ensures Valid()
      ensures toolbox.currentTool == Brush ==>
                Cells() == Stamp(old(Cells()), CellOf(x, zoomLevel), CellOf(y, zoomLevel), brushSize, palette.currentColour)
      ensures toolbox.currentTool == Eraser ==>
                Cells() == Stamp(old(Cells()), CellOf(x, zoomLevel), CellOf(y, zoomLevel), brushSize, White)
      ensures toolbox.currentTool !in {Brush, Eraser} ==> Cells() == old(Cells())
    {
      if toolbox.currentTool in {Brush, Eraser} {
        var colour := if toolbox.currentTool == Brush then palette.currentColour else White;
        DrawPixel(x, y, colour);
      }
    }

    /** Right button press: the zoom tool zooms out by 0.8; the other tools do nothing. */
    method OnRightClick(toolbox: Toolbox)
      requires Valid()
      modifies this
      ensures Valid() && cells == old(cells) && brushSize == old(brushSize)
      ensures toolbox.currentTool == Tool.Zoom ==> zoomLevel == ClampZoom(old(zoomLevel) * 0.8)
      ensures toolbox.currentTool != Tool.Zoom ==> zoomLevel == old(zoomLevel)
      ensures Cells() == old(Cells())
    {
      if toolbox.currentTool == Tool.Zoom {
        Zoom(0.8);
      }
    }
  }

  /**
   * What the pointer-driven fill keeps whatever the zoom and brush: every
   * cell is either untouched or `c`, and every stacked cell is on the grid.
   */
  ghost predicate ReentryInv(g0: Grid<Rgb>, cur: Grid<Rgb>, c: Rgb, stack: seq<Cell>)
  {
    && Shaped(g0, Cols, Rows) && Shaped(cur, Cols, Rows)
    && (forall k :: 0 <= k < |stack| ==> Inside(Cols, Rows, stack[k].0, stack[k].1))
    && forall y, x :: 0 <= y < Rows && 0 <= x < Cols ==> cur[y][x] == g0[y][x] || cur[y][x] == c
  }

  /** Stamping `c` through the re-entered pointer and pushing the neighbours keeps `ReentryInv`. */
  lemma ReentryPaint(g0: Grid<Rgb>, cur: Grid<Rgb>, c: Rgb, stack: seq<Cell>, zoom: real, size: int,
                     cur': Grid<Rgb>, stack': seq<Cell>)
    requires ReentryInv(g0, cur, c, stack) && |stack| > 0 && zoom >= 1.0
    requires var p := stack[|stack| - 1];
             && cur' == Stamp(cur, CellOf(p.0 * PixelSize, zoom), CellOf(p.1 * PixelSize, zoom), size, c)
             && stack' == Pushed(stack[..|stack| - 1], p.0, p.1, Cols, Rows)
    ensures ReentryInv(g0, cur', c, stack')
  {
    var p, rest := stack[|stack| - 1], stack[..|stack| - 1];
    assert forall k :: 0 <= k < |rest| ==> rest[k] == stack[k];
  }

  /**
   * After one zoom-in (level 1.2) re-entry misaddresses: the pointer at 48
   * lies in block 5, but re-entering block 5 through its corner 5 * 8 = 40
   * reads and paints block 4.
   */
  lemma ZoomedReentryMisses()
    ensures ClampZoom(1.0 * 1.2) == 1.2
    ensures CellOf(48, 1.2) == 5 && CellOf(5 * PixelSize, 1.2) == 4
  {
    assert 48 as real / 1.2 == 40.0;
    assert 33.0 <= 40 as real / 1.2 < 34.0;
    assert (40 as real / 1.2).Floor == 33;
  }

  /**
   * With a brush of size 2 re-entry stamps cells outside the region: the
   * stamp on block (0, 0) also covers block (1, 1), which a fill from
   * (0, 0) leaves alone when it has another colour.
   */
  lemma WideBrushLeaks(g: Grid<Rgb>, c: Rgb)
    requires Shaped(g, Cols, Rows) && g[1][1] != g[0][0] && g[1][1] != c
    ensures Stamp(g, 0, 0, 2, c)[1][1] == c
    ensures Flood(g, Cols, Rows, 0, 0, c)[1][1] == g[1][1]
  {
    FloodKeepsOtherColours(g, Cols, Rows, 0, 0, c, 1, 1);
  }

  /**
   * At zoom 1 with a brush of size 1, re-entering cell `(cx, cy)` through
   * its top-left pointer position reads and paints exactly that cell.
   */
  lemma ExactReentry(g: Grid<Rgb>, cx: int, cy: int, c: Rgb)
    requires Shaped(g, Cols, Rows)
    ensures CellOf(cx * PixelSize, 1.0) == cx && CellOf(cy * PixelSize, 1.0) == cy
    ensures Stamp(g, cx, cy, 1, c) == Put(g, Cols, Rows, cx, cy, c)
  {
    CellOfBlockCorner(cx);
    CellOfBlockCorner(cy);
    StampUnit(g, cx, cy, c);
  }
}
