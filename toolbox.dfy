/**
 * The tool selector (src/components/toolbox.py): which of the five drawing
 * tools is active and the brush size it shows.
 */
module ToolboxComponent {

  /** The five tools of the toolbox, in the order the buttons are laid out. */
  datatype Tool = Brush | Eraser | Dropper | Fill | Zoom

  class Toolbox {
    var currentTool: Tool
    var brushSize: int

    /** A new toolbox has the brush selected, at size 1. */
    constructor ()
      ensures currentTool == Brush && brushSize == 1
    {
      currentTool := Brush;
      brushSize := 1;
    }

    method SetTool(tool: Tool)
      modifies this
      ensures currentTool == tool && brushSize == old(brushSize)
    {
      currentTool := tool;
    }

    method SetBrushSize(size: int)
      modifies this
      ensures brushSize == size && currentTool == old(currentTool)
    {
      brushSize := size;
    }
  }
}
