/**
 * The authoritative bitmap of the editor (src/core/image_logic.py): a
 * `height` by `width` grid of RGBA cells indexed `[y, x]`, with
 * bounds-checked reads and writes, clear, resize and 4-connected flood fill.
 */
module Core {
  import opened Colours
  import opened Regions

  class ImageLogic {
    var width: nat
    var height: nat
    var image: array2<Rgba>

    ghost predicate Valid()
      reads this
    {
      image.Length0 == height && image.Length1 == width
    }

    /** The bitmap as a value: `Pixels()[y][x]` is the cell at column `x`, row `y`. */
    ghost function Pixels(): (g: Grid<Rgba>)
      reads this, image
      requires Valid()
      ensures Shaped(g, width, height)
      ensures forall y, x :: 0 <= y < height && 0 <= x < width ==> g[y][x] == image[y, x]
    {
      var a := image;
      seq(a.Length0, y requires 0 <= y < a.Length0 reads a =>
        seq(a.Length1, x requires 0 <= x < a.Length1 reads a => a[y, x]))
    }

    /** A new bitmap is opaque white everywhere. */
    constructor (width: nat, height: nat)
      ensures Valid() && fresh(image)
      ensures this.width == width && this.height == height
      ensures Pixels() == Uniform(width, height, OpaqueWhite)
    {
      this.width := width;
      this.height := height;
      image := new Rgba[height, width]((_, _) => OpaqueWhite);
      new;
      GridExt(Pixels(), Uniform(width, height, OpaqueWhite), width, height);
    }

    /** Overwrites exactly cell `(x, y)` when it is on the bitmap; otherwise changes nothing. */
    method SetPixel(x: int, y: int, colour: Rgba)
      requires Valid()
      modifies image
      ensures Valid()
      ensures Pixels() == Put(old(Pixels()), width, height, x, y, colour)
    {
      if 0 <= x < width && 0 <= y < height {
        image[y, x] := colour;
      }
      GridExt(Pixels(), Put(old(Pixels()), width, height, x, y, colour), width, height);
    }

    /** The stored cell, or transparent black off the bitmap. */
    function GetPixel(x: int, y: int): (c: Rgba)
      reads this, image
      requires Valid()
      ensures Inside(width, height, x, y) ==> c == Pixels()[y][x]
      ensures !Inside(width, height, x, y) ==> c == Transparent
    {
      if 0 <= x < width && 0 <= y < height then image[y, x] else Transparent
    }

    /**
     * Flood fill from `(x, y)`: the seed's 4-connected region of its colour
     * becomes `newColour`, every other cell keeps its colour. The source
     * loops forever when the seed is off the bitmap and `newColour` is not
     * transparent black, hence the precondition.
     */
    method Fill(x: int, y: int, newColour: Rgba)
      requires Valid()
      requires Inside(width, height, x, y) || newColour == Transparent
      modifies image
      ensures Valid()
      ensures Pixels() == Flood(old(Pixels()), width, height, x, y, newColour)
    {
      var oldColour := GetPixel(x, y);
      if oldColour == newColour {
        return;
      }
      ghost var g0 := Pixels();
      FillInvInit(g0, width, height, x, y, newColour);
      var stack := [(x, y)];
      ghost var cur := g0;
      while stack != []
        invariant Valid()
        invariant cur == Pixels()
        invariant FillInv(g0, cur, width, height, x, y, newColour, stack)
        invariant oldColour == g0[y][x]
        decreases Matching(cur, width, height, oldColour), |stack|
      {
        ghost var popped := stack;
        var (cx, cy) := stack[|stack| - 1];
        stack := stack[..|stack| - 1];
        if GetPixel(cx, cy) == oldColour {
          SetPixel(cx, cy, newColour);
          RecolourShrinksMatching(cur, Pixels(), width, height, oldColour, newColour, cx, cy);
          stack := Pushed(stack, cx, cy, width, height);
          FillInvPaint(g0, cur, width, height, x, y, newColour, popped, Pixels(), stack);
          cur := Pixels();
        } else {
          FillInvSkip(g0, cur, width, height, x, y, newColour, popped);
        }
      }
      FillInvDone(g0, cur, width, height, x, y, newColour);
    }

    /** Every cell becomes `colour` (opaque white by default); the size is unchanged. */
    method Clear(colour: Rgba := OpaqueWhite)
      requires Valid()
      modifies image
      ensures Valid()
      ensures Pixels() == Uniform(width, height, colour)
    {
      forall y, x | 0 <= y < height && 0 <= x < width {
        image[y, x] := colour;
      }
      GridExt(Pixels(), Uniform(width, height, colour), width, height);
    }

    /**
     * Crops or grows to `newWidth` by `newHeight`: the overlapping top-left
     * rectangle keeps its cells, new cells are opaque white.
     */
    method Resize(newWidth: nat, newHeight: nat)
      requires Valid() && newWidth > 0 && newHeight > 0
      modifies this
      ensures Valid() && fresh(image)
      ensures width == newWidth && height == newHeight
      ensures Pixels() == Resized(old(Pixels()), old(width), old(height), newWidth, newHeight, OpaqueWhite)
    {
      var keepW := if newWidth < width then newWidth else width;
      var keepH := if newHeight < height then newHeight else height;
      var newImage := new Rgba[newHeight, newWidth]((_, _) => OpaqueWhite);
      forall y, x | 0 <= y < keepH && 0 <= x < keepW {
        newImage[y, x] := image[y, x];
      }
      image := newImage;
      width := newWidth;
      height := newHeight;
      GridExt(Pixels(), Resized(old(Pixels()), old(width), old(height), newWidth, newHeight, OpaqueWhite),
              newWidth, newHeight);
    }
  }
}
