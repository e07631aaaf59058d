/** The fixed colour table of the fire and the lookup that turns an intensity
    into a colour (main.go: generatePalette and the indexing done by Draw). */
module Palette {

  type Byte = x: int | 0 <= x < 256

  /** One `color.RGBA` value: red, green, blue and alpha channels. */
  datatype Rgba = Rgba(r: Byte, g: Byte, b: Byte, a: Byte)

  /** The hottest intensity; the bottom row is seeded with it. */
  const MaxIntensity: int := 36

  /** Entry `i` of the palette, for `i` from 0 (no heat, black) to 36 (full
      heat, white); every entry is opaque. */
  function PaletteEntry(i: int): (c: Rgba)
    requires 0 <= i <= MaxIntensity
    ensures c.a == 255
  {
    match i
      case 0 => Rgba(0, 0, 0, 255)
      case 1 => Rgba(7, 7, 7, 255)
      case 2 => Rgba(31, 7, 7, 255)
      case 3 => Rgba(47, 15, 7, 255)
      case 4 => Rgba(71, 15, 7, 255)
      case 5 => Rgba(87, 23, 7, 255)
      case 6 => Rgba(103, 31, 7, 255)
      case 7 => Rgba(119, 31, 7, 255)
      case 8 => Rgba(143, 39, 7, 255)
      case 9 => Rgba(159, 47, 7, 255)
      case 10 => Rgba(175, 63, 7, 255)
      case 11 => Rgba(191, 71, 7, 255)
      case 12 => Rgba(199, 71, 7, 255)
      case 13 => Rgba(223, 79, 7, 255)
      case 14 => Rgba(223, 87, 7, 255)
      case 15 => Rgba(223, 87, 7, 255)
      case 16 => Rgba(215, 95, 7, 255)
      case 17 => Rgba(215, 103, 15, 255)
      case 18 => Rgba(207, 111, 15, 255)
      case 19 => Rgba(207, 119, 15, 255)
      case 20 => Rgba(207, 127, 15, 255)
      case 21 => Rgba(207, 135, 23, 255)
      case 22 => Rgba(199, 135, 23, 255)
      case 23 => Rgba(199, 143, 23, 255)
      case 24 => Rgba(199, 151, 31, 255)
      case 25 => Rgba(191, 159, 31, 255)
      case 26 => Rgba(191, 159, 31, 255)
      case 27 => Rgba(191, 167, 39, 255)
      case 28 => Rgba(191, 167, 39, 255)
      case 29 => Rgba(255, 255, 63, 255)
      case 30 => Rgba(255, 255, 111, 255)
      case 31 => Rgba(255, 255, 159, 255)
      case 32 => Rgba(255, 255, 191, 255)
      case 33 => Rgba(255, 255, 223, 255)
      case 34 => Rgba(255, 255, 239, 255)
      case 35 => Rgba(255, 255, 247, 255)
      case _ => Rgba(255, 255, 255, 255)
  }

  /** generatePalette: the 37-entry gradient, entry `i` for intensity `i`,
      from black to white. */
  function GeneratePalette(): (p: seq<Rgba>)
    ensures |p| == MaxIntensity + 1
    ensures forall i :: 0 <= i < |p| ==> p[i] == PaletteEntry(i) && p[i].a == 255
    ensures p[0] == Rgba(0, 0, 0, 255)
    ensures p[MaxIntensity] == Rgba(255, 255, 255, 255)
  {
    seq(MaxIntensity + 1, i requires 0 <= i <= MaxIntensity => PaletteEntry(i))
  }

  /** The colour Draw hands to the screen for a cell of the given intensity.
      Every intensity the fire can hold, 0 to 36, is a valid index. */
  function ColorOf(intensity: int): (c: Rgba)
    requires 0 <= intensity <= MaxIntensity
    ensures c.a == 255
    ensures intensity == 0 ==> c == Rgba(0, 0, 0, 255)
    ensures intensity == MaxIntensity ==> c == Rgba(255, 255, 255, 255)
  {
    GeneratePalette()[intensity]
  }

  /** A step up in heat never darkens the green or the blue channel. */
  lemma PaletteBrightens(i: int)
    requires 0 <= i < MaxIntensity
    ensures GeneratePalette()[i].g <= GeneratePalette()[i + 1].g
    ensures GeneratePalette()[i].b <= GeneratePalette()[i + 1].b
  {
    assert GeneratePalette()[i] == PaletteEntry(i);
    assert GeneratePalette()[i + 1] == PaletteEntry(i + 1);
  }
}
