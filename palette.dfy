/**
 * The colour selector (src/components/palette.py), reduced to the colour it
 * currently holds.
 */
module PaletteComponent {
  import opened Colours

  /** `#000000`, the colour a new palette starts with. */
  const Black: Rgb := Rgb(0, 0, 0)

  class Palette {
    var currentColour: Rgb

    constructor ()
      ensures currentColour == Black
    {
      currentColour := Black;
    }

    method SetColour(colour: Rgb)
      modifies this
      ensures currentColour == colour
    {
      currentColour := colour;
    }
  }
}
