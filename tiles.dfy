/** The tile vocabulary: the tile record, its render records, the two tile
    kinds and the shroud glyph. */
module Tiles {

  newtype byte = x: int | 0 <= x < 256

  /** The swatch colours the tiles use; their RGB values live outside this model. */
  datatype SwatchColour = Stone | StoneDarker | StoneLight | StoneDark | Black

  /** A colour: either a named swatch colour or an explicit RGB triple. */
  datatype Colour = Swatch(name: SwatchColour) | Rgb(r: byte, g: byte, b: byte)

  /** `render_dt`: a code point with foreground and background colours. */
  datatype Render = Render(ch: int, fg: Colour, bg: Colour)

  /** `tile_dt`: the record stored in every map cell, fields in this order. */
  datatype Tile = Tile(walkable: bool, transparent: bool, dark: Render, light: Render)

  /** `new_tile`: a tile record built field for field from its arguments. */
  function NewTile(walkable: bool, transparent: bool, dark: Render, light: Render): (t: Tile)
    ensures t.walkable == walkable && t.transparent == transparent
    ensures t.dark == dark && t.light == light
  {
    Tile(walkable, transparent, dark, light)
  }

  /** `TILE_WALL`: blocks movement and sight; '#' in both lit states. */
  function Wall(): (t: Tile)
    ensures !t.walkable && !t.transparent
    ensures t.light.ch == '#' as int && t.dark.ch == '#' as int
    ensures t.light != t.dark
  {
    NewTile(false, false, Render('#' as int, Swatch(StoneDarker), Swatch(Black)), Render('#' as int, Swatch(Stone), Swatch(Black)))
  }

  /** `TILE_FLOOR`: open to movement and sight; '.' in both lit states. */
  function Floor(): (t: Tile)
    ensures t.walkable && t.transparent
    ensures t.light.ch == '.' as int && t.dark.ch == '.' as int
    ensures t.light != t.dark
  {
    NewTile(true, true, Render('.' as int, Swatch(StoneDark), Swatch(Black)), Render('.' as int, Swatch(StoneLight), Swatch(Black)))
  }

  /** `SHROUD`: the blank white-on-black glyph shown for unexplored cells;
      it is none of the tiles' render records. */
  function Shroud(): (g: Render)
    ensures g.ch == ' ' as int && g.fg == Rgb(255, 255, 255) && g.bg == Rgb(0, 0, 0)
    ensures g != Wall().dark && g != Wall().light && g != Floor().dark && g != Floor().light
  {
    Render(' ' as int, Rgb(255, 255, 255), Rgb(0, 0, 0))
  }
}
