# PixelScribe raster engine in Dafny

PixelScribe is a pixel-art editor. Its core is a raster engine, made of four parts:

- **The bitmap** (`ImageLogic`). A `height` by `width` grid of RGBA cells. Reads and writes are bounds-checked. It also has clear, resize and 4-connected flood fill.
- **The canvas** (`Canvas`). A 512 by 512 drawing surface. It is only ever painted in whole 8 by 8 blocks, so it is modelled as a 64 by 64 grid of RGB cells.
  - A pointer position maps to a cell through the zoom level: `int(p / zoom) // 8`.
  - The square brush stamps every on-grid cell of its footprint.
  - The dropper reads a cell back as a colour.
  - The fill floods a region.
  - The zoom is multiplied by 1.2 or 0.8 and clamped to 1x .. 10x.
- **The tool dispatch.** Left press, left drag and right press each pick an operation according to the active tool: brush, eraser, dropper, fill or zoom.
- **The mouse wheel handler** of the application window. It changes the brush size by whole notches of 120, clamps the size to 1 .. 10, and hands the same size to the toolbox and to the canvas. It does this only for the brush and eraser tools.

Modules and files:

| module | file | content |
|---|---|---|
| `Regions` | `regions.dfy` | Grids as values: bounds-checked write, uniform grid, resize. The 4-connected region of a seed as the cells reachable along single-colour paths. `Flood`, the reference definition of flood fill. `FillInv`, the loop invariant of the check-on-pop stack fill, with its step lemmas. |
| `Core` | `image_logic.dfy` | `ImageLogic` as a class over an `array2`. Every method is proved against the `Regions` definitions. |
| `CanvasGeometry` | `canvas_geometry.dfy` | Pointer-to-cell mapping, brush footprint and brush scan order, the effect of a stamp, zoom clamp. |
| `CanvasComponent` | `canvas.dfy` | `Canvas` as a class over an `array2`: brush scan, stamp, read-back, fill (as written and corrected), zoom, dispatch. |
| `HexColours` | `hex_colours.dfy` | The `#rrggbb` spellings used by the palette and by the canvas read-back, and the string-comparing fill loop. |
| `ToolboxComponent`, `PaletteComponent` | `toolbox.dfy`, `palette.dfy` | The active tool with the brush size shown, and the current colour. |
| `App` | `app.dfy` | The window's components and the wheel handler. |
| `Colours`, `Wrappers` | `colours.dfy`, `wrappers.dfy` | Colour values; `Option`. |

Points of the source's behaviour that the model keeps as they are:

- **Negative pointer positions.** `int(p / zoom) // 8` truncates toward zero and then floors. A single floor of `p / zoom / 8` would differ for a negative pointer whose quotient `p / zoom` is not whole: at zoom 1.2 pointer -1 maps to cell 0, where a single floor gives -1. At zoom 1 both give -1 (`CanvasGeometry.CellOfNegative`).
- **Brush size setter.** `set_brush_size` on the canvas and on the toolbox stores any size. Only the wheel handler clamps.
- **Termination of fill.** The bitmap fill does not terminate for every seed (see `Core.ImageLogic.Fill` under Left out). At zoom 1 with brush size 1, the canvas fill never ends when two conditions hold. First, the palette string spells the colour under the pointer differently from the read-back, with upper-case letters. Second, the seed's region has at least two cells. This is proved for a canvas all of one colour (`HexColours.StringFillNeverEnds`, `HexColours.WhiteOnWhiteNeverEnds`; see Findings). A palette string without letters, or one the dropper stored, matches the read-back, so the no-op test catches it (`HexColours.BlackSwatchMatches`). A one-cell region is repainted once, and the loop then ends.

## Model

| member | source | states |
|---|---|---|
| Core.ImageLogic.constructor | src/core/image_logic.py:7-10 | A new `width` by `height` bitmap is opaque white in every cell. |
| Core.ImageLogic.SetPixel | src/core/image_logic.py:12-15 | On the bitmap, exactly cell `(x, y)` becomes the colour and no other cell changes. Off the bitmap nothing changes. |
| Core.ImageLogic.GetPixel | src/core/image_logic.py:17-21 | Returns the stored cell on the bitmap and transparent black `(0,0,0,0)` off it. |
| Core.ImageLogic.Fill | src/core/image_logic.py:23-41 | The result is `Flood` of the old bitmap: the seed's 4-connected region of its colour becomes the new colour and every other cell keeps its colour. It is proved through the loop invariant `FillInv`, with termination measured by the cells still holding the old colour. |
| Core.ImageLogic.Clear | src/core/image_logic.py:43-45 | Every cell becomes the given colour (opaque white by default). The size is unchanged. |
| Core.ImageLogic.Resize | src/core/image_logic.py:47-53 | The new size is stored. The overlapping top-left rectangle keeps its cells. Every new cell is opaque white. |
| Regions.Put | src/core/image_logic.py:14-15 | A bounds-checked write changes exactly the addressed cell, and nothing when it is off the grid. |
| Regions.Uniform | src/core/image_logic.py:10 | Every cell of the grid holds the one colour. |
| Regions.Resized | src/core/image_logic.py:49-50 | The resized grid has the new shape. Its cells inside the old bounds keep their colour, and its cells outside them hold the fill colour. |
| Regions.ResizeSameSize | src/core/image_logic.py:47-53 | Resizing to the current size changes nothing. |
| Regions.ResizeGrowThenCrop | src/core/image_logic.py:47-53 | Growing and then cropping back to the original size restores the original grid. |
| Regions.ResizeCropTwice | src/core/image_logic.py:47-53 | Two crops in a row equal one crop to the smaller size. |
| Regions.Pushed | src/core/image_logic.py:34-41 | The old stack stays as a prefix. Every pushed cell is an on-grid neighbour of the repainted cell, and every on-grid neighbour is pushed. |
| Regions.FloodAt | src/core/image_logic.py:23-41 | A cell of the flood result has the new colour if it is in the seed's region, and its old colour otherwise. |
| Regions.FloodIdempotent | src/core/image_logic.py:25-27 | Filling the seed again with the same colour changes nothing, because the no-op test now holds. |
| Regions.FloodKeepsOtherColours | src/core/image_logic.py:32 | A cell whose colour differs from the seed's is never repainted. |
| Regions.FloodStopsAtBoundary | src/core/image_logic.py:32-41 | The fill does not stop short: an unchanged neighbour of a repainted cell does not have the seed's original colour. |
| Regions.FloodUniform | src/core/image_logic.py:23-41 | Filling from any on-grid seed of a grid of one colour repaints every cell. |
| Regions.RecolourShrinksMatching | src/core/image_logic.py:32-33 | Repainting a cell of the old colour removes it from the set of cells holding the old colour and adds none. This set is what makes the fill loop terminate. |
| Regions.FillInvInit | src/core/image_logic.py:29 | The fill invariant holds for the stack that holds only the seed. |
| Regions.FillInvSkip | src/core/image_logic.py:31-32 | Popping a cell that no longer has the old colour keeps the invariant. |
| Regions.FillInvPaint | src/core/image_logic.py:31-41 | Painting the popped cell and pushing its on-grid neighbours keeps the invariant. |
| Regions.FillInvDone | src/core/image_logic.py:30 | With an empty stack, the invariant means the grid is exactly `Flood` of the start grid. |
| CanvasGeometry.Trunc | src/components/canvas.py:74 | Python's `int()` on a real truncates toward zero. The result is bounded on both sides for either sign. |
| CanvasGeometry.CellOf | src/components/canvas.py:74 | For a non-negative pointer, the cell is the 8-wide block that contains `p / zoom`. |
| CanvasGeometry.CellOfNegative | src/components/canvas.py:74 | Pointer -1 maps to cell -1 at zoom 1 and to cell 0 at zoom 1.2, where a single floor of `p / zoom / 8` gives -1. |
| CanvasGeometry.CellOfBlockCorner | src/components/canvas.py:154-155 | At zoom 1, the top-left pointer position `k * 8` of block `k` maps back to `k`. |
| CanvasGeometry.CellOfZoomedCorner | src/components/canvas.py:154-155 | At any zoom of at least 1, pointer `k * 8` maps to a block between 0 and `k`, so it is on the grid whenever block `k` is. |
| CanvasGeometry.BrushLow | src/components/canvas.py:78 | The first brush offset is `(-size) // 2 + 1`, with Python's floor division: `2 * (lo - 1) <= -size < 2 * lo`. |
| CanvasGeometry.BrushHigh | src/components/canvas.py:78 | The last brush offset is `size // 2`, with Python's floor division: `2 * hi <= size < 2 * hi + 2`. |
| CanvasGeometry.BrushSpan | src/components/canvas.py:78-79 | The offsets `-size // 2 + 1 .. size // 2` are exactly `size` values and contain 0 for a size of at least 1. There are none for a negative size. |
| CanvasGeometry.OnGridCount | src/components/canvas.py:78-81 | The on-grid offsets of a range are at most its length. There are exactly its length when the whole range is on the grid, and none when it lies wholly off the grid. |
| CanvasGeometry.ColumnCellsSound | src/components/canvas.py:79-82 | Every cell the inner brush loop emits is in its column, within its offsets and on the grid. |
| CanvasGeometry.ColumnCellsComplete | src/components/canvas.py:79-82 | Every on-grid cell of the column within the offsets is emitted. |
| CanvasGeometry.ColumnCellsSorted | src/components/canvas.py:79-82 | The inner loop emits cells in increasing row order, so each cell appears once. |
| CanvasGeometry.ColumnCellsLength | src/components/canvas.py:79-82 | The inner loop emits as many cells as there are on-grid rows in its range. |
| CanvasGeometry.SquareCellsSound | src/components/canvas.py:78-82 | Every cell the two brush loops emit lies in the footprint and on the grid. |
| CanvasGeometry.SquareCellsComplete | src/components/canvas.py:78-82 | Every on-grid cell of the scanned columns is emitted. |
| CanvasGeometry.SquareCellsSorted | src/components/canvas.py:78-82 | The cells are emitted column by column, each column top to bottom, with no repeats. |
| CanvasGeometry.SquareCellsLength | src/components/canvas.py:78-82 | The number emitted is the on-grid column count times the on-grid row count. |
| CanvasGeometry.BrushCells | src/components/canvas.py:72-84 | The brush's cell list, column by column. It has one cell per on-grid column and on-grid row of the footprint. |
| CanvasGeometry.BrushCellsSpec | src/components/canvas.py:72-84 | The brush cells are exactly the on-grid cells of the footprint, once each, in column-major order. Their number is the on-grid columns times the on-grid rows. |
| CanvasGeometry.BrushCellsUnit | src/components/canvas.py:74-84 | A brush of size 1 covers the centre cell alone when it is on the grid, and nothing otherwise. |
| CanvasGeometry.BrushCellsUnclipped | src/components/canvas.py:78-82 | A brush footprint lying wholly on the grid covers `size * size` cells. |
| CanvasGeometry.Stamp | src/components/canvas.py:60-69 | After a stamp, each cell holds the brush colour if it is in the footprint, and its old colour otherwise. |
| CanvasGeometry.StampUnit | src/components/canvas.py:60-69 | A stamp with brush size 1 is a bounds-checked write of the centre cell. |
| CanvasGeometry.StampIdempotent | src/components/canvas.py:60-69 | Stamping the same place twice with the same colour equals stamping once. |
| CanvasGeometry.StampShrinksMatching | src/components/canvas.py:154-155 | A stamp on an on-grid centre that still has the old colour strictly shrinks the set of cells holding the old colour. |
| CanvasGeometry.ClampZoom | src/components/canvas.py:168 | `max(1, min(10, z))` lies in 1 .. 10. It is the identity inside that range and clamps to the nearer bound outside it. |
| CanvasGeometry.ClampZoomNearest | src/components/canvas.py:168 | The clamped level is the allowed level nearest the requested one. |
| CanvasGeometry.ClampZoomIdempotent | src/components/canvas.py:168 | Clamping twice equals clamping once. |
| CanvasComponent.Canvas.constructor | src/components/canvas.py:12-25 | A new canvas is white, with brush size 1 and zoom 1. |
| CanvasComponent.Canvas.BrushPixels | src/components/canvas.py:72-84 | The cells are the on-grid cells of the footprint around the cell under the pointer, each once and in column-major order. Their number is the on-grid columns times the on-grid rows. |
| CanvasComponent.Canvas.ColumnPixels | src/components/canvas.py:79-82 | The inner loop computes the column's on-grid cells. |
| CanvasComponent.Canvas.DrawPixel | src/components/canvas.py:60-69 | The new surface is the stamp of the brush around the cell under the pointer. |
| CanvasComponent.Canvas.GetPixelColor | src/components/canvas.py:138-142 | Returns the colour of the cell under the pointer. Off the surface, where the read raises, it returns nothing. |
| CanvasComponent.Canvas.PaintCell | src/components/canvas.py:155 | The corrected fill's single-cell paint. It replaces the source's `draw_pixel` call, which divides by the zoom and stamps the whole brush. It paints exactly one on-grid cell. |
| CanvasComponent.Canvas.Fill | src/components/canvas.py:144-163 | Corrected fill: the surface becomes `Flood` from the cell under the pointer. Colours are compared as values. Off the surface nothing changes. |
| CanvasComponent.Canvas.FillStep | src/components/canvas.py:152-163 | One pass of the corrected loop keeps `FillInv`. Either the cells of the old colour shrink, or nothing is painted and the stack shrinks. |
| CanvasComponent.Canvas.FillViaPointer | src/components/canvas.py:144-163 | The fill as written, re-entering each cell through the pointer API, except that colours are compared as values (the string comparison is in `HexColours`). Every cell either keeps its colour or takes the new one. Nothing changes when the pointer is off the surface (the read raises) or already on the new colour. At zoom 1 with brush size 1 the result is exactly `Flood`. |
| CanvasComponent.Canvas.FillViaPointerStep | src/components/canvas.py:152-163 | One pass of the re-entering loop keeps `ReentryInv`, and keeps `FillInv` at zoom 1 with brush size 1. It decreases the same measure as `FillStep`. |
| CanvasComponent.ReentryPaint | src/components/canvas.py:154-163 | A stamp through the re-entered pointer, followed by pushing the neighbours, keeps the cells unchanged-or-new and the stack on the grid. |
| CanvasComponent.ExactReentry | src/components/canvas.py:154-155 | At zoom 1 with brush size 1, re-entering a cell reads and paints exactly that cell. |
| CanvasComponent.ZoomedReentryMisses | src/components/canvas.py:146-155 | After one zoom-in (level 1.2), pointer 48 lies in block 5. Re-entering block 5 at pointer 40 addresses block 4. |
| CanvasComponent.WideBrushLeaks | src/components/canvas.py:78-79 | With brush size 2, the stamp on block (0, 0) also paints block (1, 1). A flood fill from (0, 0) leaves (1, 1) alone when its colour differs. |
| CanvasComponent.Canvas.Zoom | src/components/canvas.py:165-169 | The zoom becomes the clamp of old zoom times factor. The cells and the brush do not change. |
| CanvasComponent.Canvas.SetBrushSize | src/components/canvas.py:171-173 | The brush size is stored unclamped. The cells and the zoom do not change. |
| CanvasComponent.Canvas.OnLeftClick | src/components/canvas.py:86-99 | Brush stamps the palette colour and eraser stamps white. Dropper copies the colour under the pointer into the palette. Fill floods with the palette colour through the corrected fill (`Canvas.Fill`, see Findings). Zoom zooms in by 1.2. Everything else stays unchanged. |
| CanvasComponent.Canvas.OnLeftDrag | src/components/canvas.py:101-106 | Brush and eraser stamp as on a press. The other tools change no cell. |
| CanvasComponent.Canvas.OnRightClick | src/components/canvas.py:108-112 | The zoom tool zooms out by 0.8. The other tools change nothing. No cell ever changes. |
| ToolboxComponent.Toolbox.constructor | src/components/toolbox.py:11-15 | A new toolbox has the brush selected at size 1. |
| ToolboxComponent.Toolbox.SetTool | src/components/toolbox.py:43-46 | The tool is replaced and the size is kept. |
| ToolboxComponent.Toolbox.SetBrushSize | src/components/toolbox.py:48-51 | The size is stored unclamped and the tool is kept. |
| PaletteComponent.Palette.constructor | src/components/palette.py:11-14 | A new palette holds black. |
| PaletteComponent.Palette.SetColour | src/components/palette.py:33-36 | The current colour is replaced. |
| HexColours.Digit | src/components/canvas.py:142 | A nibble is written as `0`-`9` or a letter of the requested case, and reads back as that nibble. |
| HexColours.Hex | src/components/canvas.py:142 | The spelling is `#` and six hexadecimal digits, with letters in lower case for the read-back and in upper case for the swatches. |
| HexColours.ParseChannel | src/components/canvas.py:62 | Two characters parse as a channel exactly when both are hexadecimal digits. |
| HexColours.ParseHex | src/components/canvas.py:62 | A string parses as a colour exactly when it is `#` followed by six hexadecimal digits of either case. |
| HexColours.DigitValue | src/components/canvas.py:62 | A character has a value exactly when it is a hexadecimal digit of either case, and the value is below 16. |
| HexColours.HexRoundTrip | src/components/canvas.py:142 | Both `#rrggbb` spellings are 7 characters long, start with `#`, and parse back to the colour they spell. |
| HexColours.ChannelRoundTrip | src/components/canvas.py:142 | Two hex digits of a channel parse back to the channel. |
| HexColours.HexInjective | src/components/canvas.py:142 | Distinct colours have distinct spellings in either case. |
| HexColours.SpellingsAgree | src/components/canvas.py:142 | The lower-case read-back spelling equals the upper-case palette spelling exactly when no nibble is 10 or more. |
| HexColours.SwatchesUpperCase | src/components/palette.py:14 | The eight swatches are the upper-case spellings of black, white and the six primary and secondary colours. |
| HexColours.BlackSwatchMatches | src/components/canvas.py:148 | The black swatch `#000000` equals the read-back spelling of black, so filling black with it is caught by the no-op test. |
| HexColours.StringFillStep | src/components/canvas.py:153-163 | One pass of the string-comparing loop keeps the cells a full grid and the stack on it. |
| HexColours.StringFillRun | src/components/canvas.py:152-163 | Any number of passes keeps the cells a full grid and the stack on it. |
| HexColours.StringFillStepOnUniform | src/components/canvas.py:153-163 | On a surface all of the palette colour, one pass repaints a cell with its own colour and grows the stack. |
| HexColours.StringFillNeverEnds | src/components/canvas.py:147-163 | On such a surface, after any number of passes the cells are unchanged and the stack is not empty. |
| HexColours.WhiteOnWhiteNeverEnds | src/components/canvas.py:147-163 | On the fresh white canvas with the `#FFFFFF` swatch, the no-op test fails (`#ffffff` differs from `#FFFFFF`) and the loop never ends. |
| App.WheelSteps | src/app.py:48 | `delta // 120` is the number of whole notches, rounded toward minus infinity. |
| App.WheelStepsRounding | src/app.py:48 | Half a notch up gives 0 steps. Half a notch down gives -1. Whole notches are exact. |
| App.ClampSize | src/app.py:49 | `max(1, min(10, size))` lies in 1 .. 10. It is the identity inside that range and clamps outside it. |
| App.ClampSizeMonotone | src/app.py:49 | Clamping preserves the order of sizes. |
| App.PixelScribeApp.constructor | src/app.py:16-33 | A new window selects the brush at size 1, holds black in the palette, and has a white canvas at zoom 1 and a white 64 by 64 bitmap. Toolbox and canvas agree on the size. |
| App.PixelScribeApp.AdjustBrushSize | src/app.py:45-52 | With the brush or the eraser, the size becomes `ClampSize(old + delta // 120)` in both toolbox and canvas. With any other tool the size is unchanged. The tool, the zoom and the cells never change. |

## Left out

- **Rendering and widgets.** `create_widgets`, `update_canvas`, `on_hover` (the brush preview), button layout, icons and the mainloop are left out. They only draw and do not change the model's state.
- **`on_right_drag`.** Its body is `pass`, so it changes nothing.
- **The colour picker** (`open_color_picker`) and the palette's list of swatch colours are left out. They are interactive dialogs. `HexColours.Swatches` records the initial swatches.
- **`src/utils.py` and `src/logging.py`** are not part of this model. They hold image caching, debug output and logging.
- **Zoom and pointer division.** The zoom level is a real number, not an IEEE-754 float. Rounding in `x / zoom` and in repeated multiplication is not modelled.
- **The canvas surface as pixels.** The 512 by 512 pygame surface is held as 64 by 64 cells, one per 8 by 8 block. The canvas only ever paints whole blocks. The alpha channel of the surface is left out.
- **Colour strings.** The palette colour and the colour passed to `draw_pixel` are held as RGB values, not strings. `pygame.Color` accepts more formats than `#rrggbb`; only that spelling is modelled, in `HexColours`.
- **Brush shape.** `brush_shape` is always `"square"`, so there is no shape field.
- **Bitmap versus canvas.** `ImageLogic` and the canvas are not connected in the source, and they are not connected here either.
- **Exceptions.** `get_pixel_color` raises off the surface, and the dropper and the fill then stop. This is modelled as `None`, and the handler changes nothing.
- Core.ImageLogic.Fill: requires the seed to be on the bitmap, or the new colour to be transparent black. With transparent black as the new colour, the no-op test returns at once. From an off-bitmap seed, `get_pixel` returns the old colour `(0,0,0,0)` for every off-bitmap cell and `set_pixel` ignores them. Typically two neighbouring off-bitmap cells then push each other forever. On a bitmap of a single row or a single column some such runs do end: `ImageLogic(3, 1).fill(5, 0, red)` walks left from 5 and stops at the white cell 2, and it would recolour transparent cells on the way. The precondition excludes these terminating runs as well; the model does not describe them.
- Core.ImageLogic.Clear: the source calls `self.image.fill(colour)` with a 4-tuple. numpy's `ndarray.fill` accepts only a scalar, so the call raises and the bitmap is left unchanged. The model implements the docstring's intent instead: every cell takes the colour. The exception is not modelled.
- Core.ImageLogic.Resize: requires positive sizes. Non-positive sizes are a caller error.
- CanvasComponent.Canvas.FillViaPointer: proves the region property only at zoom 1 with brush size 1. At any other zoom or brush size it proves two things. Every cell keeps its colour or takes the new one. Nothing changes when the pointer is off the surface or already on the new colour. It does not say which cells are repainted, because re-entry can address the wrong block or stamp outside the region (see Findings). It requires a brush size of at least 1. With a size of 0 or less the stamp paints nothing, so a matching popped cell keeps the old colour and the source can loop forever. It does so, for example, when the seed's region has two cells or more: they push each other. Some such runs do end, such as a one-cell region. The precondition excludes them as well. The wheel handler's clamp keeps the size at 1 or more.
- HexColours.StringFillRun: runs a bounded number of passes, to state non-termination as "after any number of passes the stack is still not empty".
- **Negative and zero brush sizes.** The brush scan and the stamp accept them and cover no cell, as the source's empty `range` does.
- CanvasComponent.Canvas.OnLeftClick: the fill branch runs the corrected fill `Canvas.Fill` (see Findings), so its contract states `Flood` at every zoom and brush size. The source runs the fill as written: at zoom 1.2 or with a brush of size 2 or more it can paint the wrong cells or stop early (`FillViaPointer`, `ZoomedReentryMisses`, `WideBrushLeaks`), and when the palette string spells the colour under the pointer with upper-case letters and the seed's region has two cells or more, it never ends (proved for a one-colour canvas: `StringFillNeverEnds`, `WhiteOnWhiteNeverEnds`). The dispatch does not capture these behaviours.
- **Logging** calls are left out.

## Findings

| source | as written | input that shows it | evidently intended | confidence | as-written member | corrected member |
|---|---|---|---|---|---|---|
| src/components/canvas.py:147-154 | The fill compares colours as strings. It compares the lower-case read-back `#ffffff` with the palette's upper-case `#FFFFFF`, so the no-op test fails and every re-read cell still "matches". | A fresh white canvas, the white swatch `#FFFFFF` chosen, fill clicked anywhere: the loop repaints white cells and pushes neighbours forever. | Compare colours as values; filling with the colour already there does nothing. | not executed | HexColours.WhiteOnWhiteNeverEnds | CanvasComponent.Canvas.Fill |
| src/components/canvas.py:154-155 | Each popped cell is re-entered through the pointer API at `(cx * 8, cy * 8)`, so it is divided by the zoom and painted with the whole brush. | At zoom 1.2, re-entering block 5 at pointer 40 addresses block 4 (`ZoomedReentryMisses`). With brush size 2, painting block (0, 0) also paints block (1, 1) outside the region (`WideBrushLeaks`). | Paint and test exactly the popped cell, so that the region of the seed is filled and nothing else. | not executed | CanvasComponent.Canvas.FillViaPointer | CanvasComponent.Canvas.Fill |
