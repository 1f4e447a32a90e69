/** The tile: a fixed 2×2 block of glyph bytes with a parallel block of colours. */
module Tiles {
  import opened AsciiBros

  /** Number of glyphs in a tile. */
  const TILE_AREA: nat := 4

  /** Side length of a tile: the integer square root of `TILE_AREA`. */
  const STRIDE: nat := 2

  /** Glyph bytes of one tile, `[u8; TILE_AREA]`, in row-major order within the block. */
  type PixBuf = s: seq<u8> | |s| == 4 witness [0, 0, 0, 0]

  /** Colours of one tile, `[Color; TILE_AREA]`, parallel to the glyphs. */
  type ColorBuf = s: seq<Color> | |s| == 4 witness [Color(0), Color(0), Color(0), Color(0)]

  /** A tile is a value (`Copy` in the source): storing it copies it, nothing aliases it.
      The datatype constructor is `Tile::new`, which stores each argument in its field. */
  datatype Tile = Tile(id: Ident, stride: nat, color_buf: ColorBuf, pix_buf: PixBuf)

  /** `Tile::default()`: id 0, stride 0, colour 0 and glyph byte 0 everywhere. */
  const DEFAULT_TILE: Tile := Tile(0, 0, [Color(0), Color(0), Color(0), Color(0)], [0, 0, 0, 0])

  /** The colours given to every tile the rasteriser creates (`[Color(32); TILE_AREA]`). */
  const NEW_TILE_COLORS: ColorBuf := [Color(32), Color(32), Color(32), Color(32)]

  /** `STRIDE` is the integer square root of `TILE_AREA`, and the buffers have `TILE_AREA` slots. */
  lemma StrideIsSquareRootOfArea(t: Tile)
    ensures STRIDE * STRIDE <= TILE_AREA < (STRIDE + 1) * (STRIDE + 1)
    ensures |t.pix_buf| == TILE_AREA && |t.color_buf| == TILE_AREA
  {
  }
}
