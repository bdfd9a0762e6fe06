/**
 * Colour values of the editor. The bitmap stores RGBA cells (four 8-bit
 * channels); the drawing surface behind the canvas stores RGB cells.
 */
module Colours {

  /** One unsigned 8-bit channel, as numpy's `uint8` and pygame store it. */
  newtype byte = x: int | 0 <= x < 256

  datatype Rgba = Rgba(r: byte, g: byte, b: byte, a: byte)

  datatype Rgb = Rgb(r: byte, g: byte, b: byte)

  /** Opaque white: the colour of a fresh or grown bitmap and of `clear()`. */
  const OpaqueWhite: Rgba := Rgba(255, 255, 255, 255)

  /** Transparent black: what an out-of-bounds read of the bitmap returns. */
  const Transparent: Rgba := Rgba(0, 0, 0, 0)

  /** White on the drawing surface: its background and the eraser's colour. */
  const White: Rgb := Rgb(255, 255, 255)
}
