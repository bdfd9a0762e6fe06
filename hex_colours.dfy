/**
 * The `#rrggbb` spelling of colours. The palette holds its swatches as
 * upper-case strings (src/components/palette.py:13-14) and the canvas reads
 * a cell back as lower-case hex (src/components/canvas.py:142). The canvas
 * fill's no-op test compares the read-back of the seed with the palette
 * string (src/components/canvas.py:147-148); inside the loop it compares two
 * read-backs (src/components/canvas.py:154). This module models both
 * spellings, the case-insensitive parse that turns either back into a
 * colour, and the fill loop with its string comparison. When the palette
 * string spells the colour under the pointer with upper-case letters, the
 * no-op test fails; the loop then repaints cells with their own colour and
 * never ends once the seed's region has two cells or more. That is proved
 * here for a canvas all of one colour.
 */
module HexColours {
  import opened Colours
  import opened Wrappers
  import opened Regions
  import opened CanvasGeometry

  /** The hexadecimal digit for `d`, its letters in upper or lower case. */
  function Digit(d: int, upper: bool): (ch: char)
    requires 0 <= d < 16
    ensures '0' <= ch <= '9' || (upper && 'A' <= ch <= 'F') || (!upper && 'a' <= ch <= 'f')
    ensures DigitValue(ch) == Some(d)
  {
    if d < 10 then ('0' as int + d) as char
    else if upper then ('A' as int + d - 10) as char
    else ('a' as int + d - 10) as char
  }

  /** The value of a hexadecimal digit of either case. */
  function DigitValue(ch: char): (v: Option<int>)
    ensures v.Some? ==> 0 <= v.value < 16
    ensures v.Some? <==> ('0' <= ch <= '9' || 'a' <= ch <= 'f' || 'A' <= ch <= 'F')
  {
    if '0' <= ch <= '9' then Some(ch as int - '0' as int)
    else if 'a' <= ch <= 'f' then Some(ch as int - 'a' as int + 10)
    else if 'A' <= ch <= 'F' then Some(ch as int - 'A' as int + 10)
    else None
  }

  /** One channel as two digits, high nibble first (`{v:02x}` when lower case). */
  function Channel(v: byte, upper: bool): string {
    [Digit(v as int / 16, upper), Digit(v as int % 16, upper)]
  }

  /**
   * `#` and the three channels in two digits each: the canvas's read-back
   * spelling when `upper` is false, the palette's spelling when it is true.
   */
  function Hex(c: Rgb, upper: bool): (s: string)
    ensures |s| == 7 && s[0] == '#'
    ensures forall i :: 1 <= i < 7 ==> '0' <= s[i] <= '9' || (upper && 'A' <= s[i] <= 'F') || (!upper && 'a' <= s[i] <= 'f')
  {
    "#" + Channel(c.r, upper) + Channel(c.g, upper) + Channel(c.b, upper)
  }

  /** Two hexadecimal digits of either case as one channel. */
  function ParseChannel(hi: char, lo: char): (v: Option<byte>)
    ensures v.Some? <==> DigitValue(hi).Some? && DigitValue(lo).Some?
  {
    match (DigitValue(hi), DigitValue(lo))
    case (Some(h), Some(l)) => Some((16 * h + l) as byte)
    case _ => None
  }

  /** `#rrggbb` in either case as a colour, the way the drawing library reads a colour string. */
  function ParseHex(s: string): (r: Option<Rgb>)
    ensures r.Some? <==> |s| == 7 && s[0] == '#' && forall i :: 1 <= i < 7 ==> DigitValue(s[i]).Some?
  {
    if |s| != 7 || s[0] != '#' then None
    else match (ParseChannel(s[1], s[2]), ParseChannel(s[3], s[4]), ParseChannel(s[5], s[6]))
      case (Some(r), Some(g), Some(b)) => Some(Rgb(r, g, b))
      case _ => None
  }

  /** Both spellings are seven characters and read back as the colour they spell. */
  lemma HexRoundTrip(c: Rgb, upper: bool)
    ensures |Hex(c, upper)| == 7 && Hex(c, upper)[0] == '#'
    ensures ParseHex(Hex(c, upper)) == Some(c)
  {
    var s := Hex(c, upper);
    assert s[1..3] == Channel(c.r, upper) && s[3..5] == Channel(c.g, upper) && s[5..7] == Channel(c.b, upper);
    ChannelRoundTrip(c.r, upper);
    ChannelRoundTrip(c.g, upper);
    ChannelRoundTrip(c.b, upper);
  }

  lemma ChannelRoundTrip(v: byte, upper: bool)
    ensures ParseChannel(Channel(v, upper)[0], Channel(v, upper)[1]) == Some(v)
  {
    assert DigitValue(Digit(v as int / 16, upper)) == Some(v as int / 16);
    assert DigitValue(Digit(v as int % 16, upper)) == Some(v as int % 16);
  }

  /** Distinct colours have distinct spellings, in either case. */
  lemma HexInjective(c: Rgb, d: Rgb, upper: bool)
    requires Hex(c, upper) == Hex(d, upper)
    ensures c == d
  {
    HexRoundTrip(c, upper);
    HexRoundTrip(d, upper);
  }

  /** No channel of `c` has a nibble of ten or more, so its hex spelling has no letters. */
  predicate DecimalNibbles(c: Rgb) {
    && c.r as int / 16 < 10 && c.r as int % 16 < 10
    && c.g as int / 16 < 10 && c.g as int % 16 < 10
    && c.b as int / 16 < 10 && c.b as int % 16 < 10
  }

  /**
   * The lower-case and the upper-case spelling of a colour agree exactly
   * when no nibble is a letter digit: `#FF0000` and `#ff0000` differ.
   */
  lemma SpellingsAgree(c: Rgb)
    ensures Hex(c, false) == Hex(c, true) <==> DecimalNibbles(c)
  {
    var lower, upper := Hex(c, false), Hex(c, true);
    assert lower[1] == Digit(c.r as int / 16, false) && upper[1] == Digit(c.r as int / 16, true);
    assert lower[2] == Digit(c.r as int % 16, false) && upper[2] == Digit(c.r as int % 16, true);
    assert lower[3] == Digit(c.g as int / 16, false) && upper[3] == Digit(c.g as int / 16, true);
    assert lower[4] == Digit(c.g as int % 16, false) && upper[4] == Digit(c.g as int % 16, true);
    assert lower[5] == Digit(c.b as int / 16, false) && upper[5] == Digit(c.b as int / 16, true);
    assert lower[6] == Digit(c.b as int % 16, false) && upper[6] == Digit(c.b as int % 16, true);
    if DecimalNibbles(c) {
      assert lower == upper;
    }
  }

  /** The palette's eight swatches, in the order of its buttons. */
  const Swatches: seq<string> := ["#000000", "#FFFFFF", "#FF0000", "#00FF00", "#0000FF", "#FFFF00", "#FF00FF", "#00FFFF"]

  /** The swatches are the upper-case spellings of black, white and the six primaries and secondaries. */
  lemma SwatchesUpperCase()
    ensures Swatches == [Hex(Rgb(0, 0, 0), true), Hex(Rgb(255, 255, 255), true), Hex(Rgb(255, 0, 0), true),
                         Hex(Rgb(0, 255, 0), true), Hex(Rgb(0, 0, 255), true), Hex(Rgb(255, 255, 0), true),
                         Hex(Rgb(255, 0, 255), true), Hex(Rgb(0, 255, 255), true)]
  {
    var zero, full := Channel(0, true), Channel(255, true);
    assert zero == "00" && full == "FF";
    assert Swatches[0] == "#" + zero + zero + zero;
    assert Swatches[1] == "#" + full + full + full;
    assert Swatches[2] == "#" + full + zero + zero;
    assert Swatches[3] == "#" + zero + full + zero;
    assert Swatches[4] == "#" + zero + zero + full;
    assert Swatches[5] == "#" + full + full + zero;
    assert Swatches[6] == "#" + full + zero + full;
    assert Swatches[7] == "#" + zero + full + full;
  }

  /**
   * A swatch without letters spells its colour as the read-back does, so the
   * no-op test catches it: the black swatch on a black cell changes nothing.
   */
  lemma BlackSwatchMatches()
    ensures Hex(Rgb(0, 0, 0), false) == Swatches[0]
  {
    SwatchesUpperCase();
    SpellingsAgree(Rgb(0, 0, 0));
  }

  /** The state of the source's fill loop: the cells and the stack. */
  datatype StringFill = StringFill(cells: Grid<Rgb>, stack: seq<Cell>)

  /** The cells are a full grid and every stacked cell is on it. */
  predicate Wellformed(st: StringFill) {
    && Shaped(st.cells, Cols, Rows)
    && forall k :: 0 <= k < |st.stack| ==> Inside(Cols, Rows, st.stack[k].0, st.stack[k].1)
  }

  /**
   * One pass of the source's fill loop at zoom 1 with a brush of size 1:
   * the top cell is popped and its lower-case spelling compared as a string
   * with `oldHex`; on a match it is painted `newColour` (the parse of the
   * palette string) and its on-grid neighbours are pushed.
   */
  function StringFillStep(st: StringFill, oldHex: string, newColour: Rgb): (r: StringFill)
    requires Wellformed(st) && st.stack != []
    ensures Wellformed(r)
  {
    var p, rest := st.stack[|st.stack| - 1], st.stack[..|st.stack| - 1];
    if Hex(st.cells[p.1][p.0], false) == oldHex then
      StringFill(Put(st.cells, Cols, Rows, p.0, p.1, newColour), Pushed(rest, p.0, p.1, Cols, Rows))
    else
      StringFill(st.cells, rest)
  }

  /** The loop state after `n` passes, or earlier once the stack is empty. */
  function StringFillRun(st: StringFill, oldHex: string, newColour: Rgb, n: nat): (r: StringFill)
    requires Wellformed(st)
    ensures Wellformed(r)
    decreases n
  {
    if n == 0 || st.stack == [] then st
    else StringFillRun(StringFillStep(st, oldHex, newColour), oldHex, newColour, n - 1)
  }

  /**
   * On a canvas all of colour `c`, filling with a palette string that
   * parses to `c` repaints the popped cell with the colour it had and
   * pushes at least two neighbours, so the stack grows.
   */
  lemma StringFillStepOnUniform(c: Rgb, st: StringFill)
    requires Wellformed(st) && st.stack != [] && st.cells == Uniform(Cols, Rows, c)
    ensures StringFillStep(st, Hex(c, false), c).cells == st.cells
    ensures |StringFillStep(st, Hex(c, false), c).stack| > |st.stack|
  {
    var p, rest := st.stack[|st.stack| - 1], st.stack[..|st.stack| - 1];
    assert Inside(Cols, Rows, p.0, p.1);
    GridExt(Put(st.cells, Cols, Rows, p.0, p.1, c), st.cells, Cols, Rows);
  }

  /**
   * The string comparison never lets the fill finish on a canvas all of
   * the palette colour: after any number of passes the cells are unchanged
   * and the stack is still not empty.
   */
  lemma {:induction false} StringFillNeverEnds(c: Rgb, st: StringFill, n: nat)
    requires Wellformed(st) && st.stack != [] && st.cells == Uniform(Cols, Rows, c)
    ensures StringFillRun(st, Hex(c, false), c, n).cells == st.cells
    ensures StringFillRun(st, Hex(c, false), c, n).stack != []
    decreases n
  {
    if n > 0 {
      StringFillStepOnUniform(c, st);
      StringFillNeverEnds(c, StringFillStep(st, Hex(c, false), c), n - 1);
    }
  }

  /**
   * The concrete case: on the fresh white canvas, filling with the white
   * swatch `#FFFFFF` from cell (0, 0) passes the no-op test at
   * src/components/canvas.py:148, since the read-back spelling is
   * `#ffffff`, and then never leaves the loop.
   */
  lemma WhiteOnWhiteNeverEnds(n: nat)
    ensures Hex(White, false) != Swatches[1] && ParseHex(Swatches[1]) == Some(White)
    ensures StringFillRun(StringFill(Uniform(Cols, Rows, White), [(0, 0)]), Hex(White, false), White, n).stack != []
  {
    SwatchesUpperCase();
    HexRoundTrip(White, true);
    SpellingsAgree(White);
    StringFillNeverEnds(White, StringFill(Uniform(Cols, Rows, White), [(0, 0)]), n);
  }
}
