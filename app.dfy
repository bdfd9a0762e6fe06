/**
 * The application window (src/app.py) reduced to the state it wires
 * together and the one handler it owns: the mouse wheel resizes the brush
 * of the brush and eraser tools, keeping toolbox and canvas in step.
 */
module App {
  import opened Colours
  import opened Regions
  import opened CanvasGeometry
  import opened ToolboxComponent
  import opened PaletteComponent
  import opened CanvasComponent
  import opened Core

  /** The wheel delta in notches of 120, rounded toward minus infinity as Python's `//` does. */
  function WheelSteps(delta: int): (steps: int)
    ensures 120 * steps <= delta < 120 * (steps + 1)
  {
    delta / 120
  }

  /** Half a notch either way: up rounds to no step, down to a whole step down. */
  lemma WheelStepsRounding()
    ensures WheelSteps(60) == 0 && WheelSteps(-60) == -1
    ensures WheelSteps(120) == 1 && WheelSteps(-120) == -1 && WheelSteps(240) == 2
  {
  }

  /** `max(1, min(10, size))`: the brush size limited to 1 .. 10. */
  function ClampSize(size: int): (r: int)
    ensures 1 <= r <= 10
    ensures 1 <= size <= 10 ==> r == size
    ensures size < 1 ==> r == 1
    ensures size > 10 ==> r == 10
  {
    if size < 1 then 1 else if size > 10 then 10 else size
  }

  /** Clamping never reverses the order of two sizes. */
  lemma ClampSizeMonotone(a: int, b: int)
    requires a <= b
    ensures ClampSize(a) <= ClampSize(b)
  {
  }

  class PixelScribeApp {
    var toolbox: Toolbox
    var palette: Palette
    var canvas: Canvas
    var imageLogic: ImageLogic

    /** The components are well formed and toolbox and canvas agree on a brush size in 1 .. 10. */
    ghost predicate Valid()
      reads this, toolbox, canvas, imageLogic
    {
      && canvas.Valid() && imageLogic.Valid()
      && toolbox.brushSize == canvas.brushSize
      && 1 <= toolbox.brushSize <= 10
    }

    /**
     * A new window: brush tool at size 1, black palette colour, a white
     * canvas and a white 64 by 64 bitmap.
     */
    constructor ()
      ensures Valid()
      ensures fresh(toolbox) && fresh(palette) && fresh(canvas) && fresh(canvas.cells) && fresh(imageLogic)
      ensures toolbox.currentTool == Brush && toolbox.brushSize == 1
      ensures palette.currentColour == Black
      ensures canvas.zoomLevel == 1.0 && canvas.Cells() == Uniform(Cols, Rows, White)
      ensures imageLogic.width == 64 && imageLogic.height == 64
      ensures imageLogic.Pixels() == Uniform(64, 64, OpaqueWhite)
    {
      toolbox := new Toolbox();
      palette := new Palette();
      canvas := new Canvas();
      imageLogic := new ImageLogic(64, 64);
    }

    /**
     * The wheel handler: with the brush or the eraser selected, the size
     * moves by the whole notches of `delta` and is clamped to 1 .. 10, and
     * toolbox and canvas both take the new size; with any other tool
     * nothing changes. The tool, the zoom and the cells never change.
     */
    method AdjustBrushSize(delta: int)
      requires Valid()
      modifies toolbox, canvas
      ensures Valid()
      ensures toolbox.currentTool == old(toolbox.currentTool)
      ensures canvas.cells == old(canvas.cells) && canvas.zoomLevel == old(canvas.zoomLevel)
      ensures canvas.Cells() == old(canvas.Cells())
      ensures toolbox.currentTool in {Brush, Eraser} ==>
                toolbox.brushSize == ClampSize(old(toolbox.brushSize) + WheelSteps(delta))
      ensures toolbox.currentTool !in {Brush, Eraser} ==> toolbox.brushSize == old(toolbox.brushSize)
    {
      if toolbox.currentTool in {Brush, Eraser} {
        var newSize := ClampSize(toolbox.brushSize + WheelSteps(delta));
        toolbox.SetBrushSize(newSize);
        canvas.SetBrushSize(newSize);
      }
    }
  }
}
