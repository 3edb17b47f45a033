/**
 * Colour values as the colour picker handles them: a pixel's red, green and
 * blue channels, and a table of named reference colours.
 */
module Pixel {

  /** An RGB triple. Channels read from an image are never negative. */
  datatype Rgb = Rgb(r: nat, g: nat, b: nat)

  /** One entry of the named-colour table: a colour keyword and its RGB value. */
  datatype NamedColor = NamedColor(name: string, rgb: Rgb)

  /** The named-colour table, in its iteration order. */
  type ColorTable = seq<NamedColor>

  /** An 8-bit channel value, as read from an RGBA image. */
  predicate IsByte(n: int) {
    0 <= n < 256
  }

  predicate IsByteRgb(c: Rgb) {
    IsByte(c.r) && IsByte(c.g) && IsByte(c.b)
  }

  /** The name `name` labels some entry of `t`. */
  predicate InTable(t: ColorTable, name: string) {
    exists i :: 0 <= i < |t| && t[i].name == name
  }
}
