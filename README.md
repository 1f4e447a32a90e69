# Super ASCII Bros: tile atlas, sprite rasteriser and frame compositor

Super ASCII Bros draws its characters in a terminal. A sprite sheet is a text file. `Sprite::new`
reads its lines, cuts the raster into 2×2 blocks (tiles of `TILE_AREA = 4` glyphs), and resolves
every block against the game's shared tile atlas. A block with the same glyphs as a stored tile
gets that tile's id. Any other block is stored as a new tile under the atlas size cast to `u16`.
`Window::render_frame` clears the window's buffers, builds the sprite, fills the character
buffer with spaces, places the sprite's glyphs and breaks the buffer into lines.
`impl Debug for Game` lists the atlas.

The model has six modules:

- `AsciiBros` (`ascii_bros.dfy`): machine integer ranges, `Ident = u16`, `Color`, `EntityType`
  and a `Result` type for errors and panics.
- `Tiles` (`tile.dfy`): `TILE_AREA`, the stride, and `Tile` as a value. The datatype
  constructor `Tile(id, stride, color_buf, pix_buf)` is `Tile::new`.
- `Text` (`text.dfy`): the parts of Rust's formatting that the debug listing uses. These are
  decimal notation, `{:<2}` and glyph lists separated by `", "`.
- `Games` (`game.dfy`): the atlas as a `map<Ident, Tile>`, its invariant (dense ids, each tile
  stored under its own id, no two tiles with the same glyphs) and the class `Game`.
  `Game` holds `tile_atlas_contains` and the `Debug` listing.
- `Sprites` (`sprite.dfy`): `validate` and its messages, and the specification of
  deduplication. `Resolve` resolves one block and `ResolveAll` resolves a sequence of blocks.
  `Blocks` gives the blocks of a raster in row-major order. This module also holds the
  rasteriser `as_tile_ids` (an in-place algorithm on an `array` of tiles) and `Sprite::new`.
- `Windows` (`window.dfy`): `String::insert` and `step_by`. It has two versions of each
  drawing loop of `render_frame`: the loop as written and a corrected one. The class `Window`
  holds `default`, `clear` and `render_frame`.

A panic in the source is an `Err` of the datatype `Panic`. `IndexOutOfBounds` stands for an
index past the end of a buffer, a line or the raster. `Message(text)` stands for a formatted
panic.

## Model

| member | source | states |
|---|---|---|
| Tiles.StrideIsSquareRootOfArea | src/actor/sprite.rs:54 | the stride 2 is the integer square root of `TILE_AREA` = 4, and both tile buffers hold `TILE_AREA` entries |
| Text.DecimalRoundTrip | src/game.rs:73 | reading back the decimal notation that `{}` prints for a key gives the key |
| Text.DecimalInjective | src/game.rs:73 | two keys with the same printed notation are the same key |
| Text.Spaces | src/main.rs:98-100 | the string has length `n` and every character is a space |
| Text.LeftAligned | src/game.rs:73 | `{:<2}`: the text is kept in full, then padded with spaces to at least the width, and never truncated |
| Text.JoinedShape | src/game.rs:74-79 | glyph `j` is at position `3j`; `", "` follows every glyph but the last; `n` glyphs take `3n-2` characters |
| Games.SortedKeys | src/game.rs:68 | `keys().sorted()`: exactly the atlas keys, each once, in strictly ascending order |
| Games.ScanFor | src/game.rs:23-26 | the scan answers true exactly when one of the scanned tiles has the glyphs asked for |
| Games.Chars | src/game.rs:71 | definition used by the listing rows, `pixel as char`: four characters whose codes are the four glyph bytes |
| Games.WrittenStep | src/game.rs:68-82 | writing the entry of the next key extends the listing by exactly that entry |
| Games.EntryShape | src/game.rs:73-80 | one entry is the key padded to 2, then `" ["`, the four glyphs at every third position with `", "` between them, then `"]"` |
| Games.WriteEntry | src/game.rs:71-80 | the writes for one key produce exactly that key's entry |
| Games.WriteGlyphs | src/game.rs:74-79 | the glyph loop writes each glyph, followed by `", "` unless it is the last |
| Games.Game.constructor | src/main.rs:148-152 | a new game has an empty atlas, which is well formed, and its id counter is 0 |
| Games.Game.TileAtlasContains | src/game.rs:22-27 | true exactly when some stored tile has exactly the glyphs asked for |
| Games.Game.Fmt | src/game.rs:62-86 | the debug text is the `Game { next_tile_id: N }` header, then one entry per atlas key in ascending key order |
| Sprites.Validate | src/actor/sprite.rs:99-108 | `Ok` exactly when width and height are multiples of the stride; otherwise the width's message comes first, then the height's |
| Sprites.DimensionErrorNames | src/actor/sprite.rs:102-104 | the message names the failing dimension right after `"Sprite's "` |
| Sprites.DimensionErrorNamesValue | src/actor/sprite.rs:102-104 | the message carries the dimension's value in decimal, and those digits read back as the value |
| Sprites.RowStartIsProduct | src/actor/sprite.rs:61 | the first buffer entry of block row `brow` is `brow * pitch` |
| Sprites.RowBlocksAt | src/actor/sprite.rs:60-87 | one block row yields `n` blocks, and block `bcol` of it holds the glyphs of that block |
| Sprites.BlocksLength | src/actor/sprite.rs:18 | a raster of `rows` × `cols` blocks yields `rows * cols` blocks |
| Sprites.BlocksAt | src/actor/sprite.rs:18 | block `(bcol, brow)` comes at index `brow * cols + bcol`: left to right, then top to bottom |
| Sprites.NewId | src/actor/sprite.rs:68 | `tile_atlas.len() as Ident` is the atlas size while that size is below 65536 |
| Sprites.InsertKeepsIdsDense | src/actor/sprite.rs:67-74 | a new tile keeps ids exactly `0 .. len-1`; the atlas grows by one, or keeps its size when the id wraps to 0 |
| Sprites.InsertKeepsContentDistinct | src/actor/sprite.rs:66-74 | inserting glyphs that no tile has keeps every tile's glyphs distinct |
| Sprites.InsertKeepsWellFormed | src/actor/sprite.rs:66-75 | inserting a new tile keeps the atlas well formed and keeps every key |
| Sprites.ResolveKeepsWellFormed | src/actor/sprite.rs:64-87 | resolving a block keeps the atlas well formed and keeps every key; the resolved id holds the block's glyphs |
| Sprites.ResolveReuses | src/actor/sprite.rs:76-86 | glyphs already stored resolve to the one key that holds them, and the atlas is unchanged |
| Sprites.ResolveInserts | src/actor/sprite.rs:66-75 | below the id limit, new glyphs get id `len` with colours `Color(32)` and the stride; only that entry is added |
| Sprites.ResolveWrapsAround | src/actor/sprite.rs:68-74 | with 65536 tiles stored, the id cast wraps to 0 and the tile that was under 0 is overwritten |
| Sprites.ResolveAllKeepsWellFormed | src/actor/sprite.rs:56-94 | resolving every block keeps the atlas well formed, drops no key, and yields one stored id per block |
| Sprites.ResolveKeepsEntries | src/actor/sprite.rs:66-75 | below the id limit, resolving a block never changes a stored tile |
| Sprites.ResolveAllKeepsEntries | src/actor/sprite.rs:56-94 | when the counter never wraps, the tiles stored before the sprite are left exactly as they were |
| Sprites.ResolveHolds | src/actor/sprite.rs:64-87 | the id pushed for a block is a key whose tile has that block's glyphs |
| Sprites.ResolveAllIdsStored | src/actor/sprite.rs:56-94 | every id pushed is a key of the final atlas, so the atlas lookups of the drawing loop succeed |
| Sprites.ResolveAllLength | src/actor/sprite.rs:64-87 | exactly one id is pushed per completed block |
| Sprites.ResolveAllContent | src/actor/sprite.rs:64-87 | when the counter never wraps, the tile of the i-th id holds the glyphs of the i-th block |
| Sprites.ResolveAllAddsOnlyBlocks | src/actor/sprite.rs:64-75 | when the counter never wraps, every tile added holds the glyphs of some block of the sprite |
| Sprites.ResolveAllDedup | src/actor/sprite.rs:64-87 | deduplication: two blocks get the same id exactly when they hold the same glyphs, while the atlas stays below 65536 tiles |
| Sprites.BufferHoldsEveryBlock | src/actor/sprite.rs:48-50 | with even dimensions the buffer of `width * height / TILE_AREA` tiles has one entry per block |
| Sprites.PitchInBounds | src/actor/sprite.rs:50-61 | with even dimensions, every cell indexes inside the buffer exactly when the raster is empty, one block row high, or the pitch is at most the blocks per row |
| Sprites.CorrectPitchInBounds | src/actor/sprite.rs:50-61 | with the pitch `width / 2`, every cell of an even raster indexes inside the buffer |
| Sprites.AsWrittenPitchInBounds | src/actor/sprite.rs:61 | with the written pitch `height / 2`, an even raster stays in bounds exactly when it is empty, one block row high, or not taller than wide |
| Sprites.TallSpriteOverruns | src/actor/sprite.rs:61 | a raster 2 wide and 4 high puts cell (0, 2) on entry 2 of a buffer of 2 |
| Sprites.FindExistingKey | src/actor/sprite.rs:77-85 | `find_map(..).unwrap()` finds a key whose tile has the glyphs, visiting keys in any order |
| Sprites.ResolveBlock | src/actor/sprite.rs:64-87 | one completed block is resolved against the atlas as `Resolve` specifies, and the atlas stays well formed |
| Sprites.WriteExtendsRow | src/actor/sprite.rs:60-62 | writing the next cell of a row keeps the cells of that row already written |
| Sprites.WriteKeepsRowAbove | src/actor/sprite.rs:56-62 | writing an odd row fills lower slots and leaves the even row above in place |
| Sprites.BlockComplete | src/actor/sprite.rs:62-64 | once slot 3 is written, the buffer entry holds all four glyphs of its block |
| Sprites.RowBegins | src/actor/sprite.rs:57-58 | `(y * stride) % TILE_AREA` is the slot of the row's first cell |
| Sprites.SlotStep | src/actor/sprite.rs:89-92 | stepping `pixel_idx` gives the next cell's slot; slot 3 is reached exactly at a block's lower-right cell |
| Sprites.TileIdx | src/actor/sprite.rs:61 | `tile_idx` is `(y / 2) * pitch + x / 2` |
| Sprites.WritePixel | src/actor/sprite.rs:62 | the cell's byte goes into its slot, nothing else changes, and a completed block's entry holds the block |
| Sprites.PushBlockId | src/actor/sprite.rs:64-87 | the ids and the atlas remain those of resolving every completed block in order |
| Sprites.RasteriseCell | src/actor/sprite.rs:61-92 | one pass of the inner loop writes the cell, resolves the block it completes, and steps the slot |
| Sprites.RasteriseRow | src/actor/sprite.rs:60-93 | the inner loop stops exactly when a cell of the row is missing or past the buffer; otherwise the whole row is written and its completed blocks resolved |
| Sprites.RasteriseRows | src/actor/sprite.rs:56-94 | the outer loop succeeds exactly when every row fits, and then the ids are the blocks resolved in row-major order |
| Sprites.RasteriseWithPitch | src/actor/sprite.rs:48-96 | the rasteriser panics exactly when some cell is missing or past the buffer; otherwise it returns the resolved ids of all blocks, and the atlas stays well formed |
| Sprites.RowsFitInBounds | src/actor/sprite.rs:56-62 | every row fits exactly when every cell can be read and indexes inside the buffer |
| Sprites.AsTileIds | src/actor/sprite.rs:42-97 | as written: it panics exactly when a cell is missing or out of bounds with pitch `height / 2`; otherwise it returns the ids of the blocks in row-major order |
| Sprites.AsTileIdsCorrected | src/actor/sprite.rs:42-97 | the same algorithm with pitch `width / 2`, the layout the buffer is sized for |
| Sprites.NewSprite | src/actor/sprite.rs:23-40 | as written: width is the first line's length and height the line count. It succeeds exactly when both dimensions are even, every cell can be read, and the raster is empty, one block row high or not taller than wide. It panics with an index out of bounds exactly when a cell is missing or indexes past the buffer with pitch `height / 2`. Any other failure is the validation message for the width, or else the height. On success it returns one id per block in row-major order |
| Sprites.NewSpriteCorrected | src/actor/sprite.rs:23-40 | corrected: the same steps with pitch `width / 2`. It succeeds exactly when both dimensions are even and every cell can be read, with one id per block in row-major order |
| Sprites.OddHeightReachesValidation | src/actor/sprite.rs:31-37 | a raster 8 wide and 3 high stays in bounds with the written pitch, so `Sprite::new` fails on the height; with pitch `width / 2` cell (4, 2) indexes entry 6 of 6 |
| Windows.InsertAtShape | src/main.rs:106-115 | `String::insert` puts the character at the index and moves everything from there one place right |
| Windows.StepBy | src/main.rs:119 | `step_by` yields strictly increasing indices in `[start, end)`, and none exactly when `start >= end` |
| Windows.InsertEach | src/main.rs:119-121 | each insert grows the buffer by one character |
| Windows.InsertEachLands | src/main.rs:119-121 | inserts at increasing indices leave a newline at every index, and the text before the first index unchanged |
| Windows.FrameRow | src/main.rs:119-121 | corrected: line `k` of the frame is row `k` of the grid, closed by a newline |
| Windows.NewlineStepSplitsRows | src/main.rs:119-121 | as written: on a 2×2 grid the second line holds one glyph and the next glyph is pushed onto the third |
| Windows.LineStepKeepsRows | src/main.rs:119-121 | corrected: with step `width + 1` the same grid comes out as one row per line |
| Windows.TileGlyphs | src/main.rs:103-105 | definition used by the drawing rows: the glyphs of the tiles the sprite's ids name, in order |
| Windows.TileInsertedShape | src/main.rs:105-115 | one tile's four inserts put its glyphs at the corners of a 2×2 block and shift the text after them right |
| Windows.TilesInserted | src/main.rs:103-116 | every tile adds four characters to the buffer |
| Windows.LastTileOnTop | src/main.rs:103-116 | with every tile at the same offset, the block shows only the last tile |
| Windows.Stacked | src/main.rs:103-116 | of two tiles inserted at the same offset, the second lands in front of the first |
| Windows.SameOffsetStacksTiles | src/main.rs:103-116 | as written: tiles "ABCD" and "EFGH" on a blank 4×2 grid read "EFAB" and the buffer doubles to 16 characters |
| Windows.TileDrawnShape | src/main.rs:105-115 | corrected: drawing one tile writes its glyphs into its block's four cells and changes nothing else |
| Windows.SpriteDrawn | src/main.rs:103-116 | corrected: drawing every tile keeps the buffer length |
| Windows.SpriteDrawnReadBack | src/main.rs:103-116 | corrected: every slot of every block of the drawn sprite holds that tile's glyph |
| Windows.SpriteDrawnElsewhere | src/main.rs:103-116 | corrected: every character outside the sprite's cells is left as it was |
| Windows.SideBySide | src/main.rs:103-116 | corrected: two tiles drawn side by side show the first tile's top glyphs, then the second's |
| Windows.OwnBlocksKeepTiles | src/main.rs:103-116 | corrected: the same two tiles read "ABEF" and the buffer keeps its 8 characters |
| Windows.ScreenArea | src/main.rs:93 | definition used by the frame rows, `(width + 1) * height`: room for every row and its newline |
| Windows.Window.constructor | src/main.rs:61-69 | `Window::default`: 80 by 25, with empty buffers |
| Windows.Window.Clear | src/main.rs:77-78 | both buffers are emptied and the size is kept |
| Windows.Window.FillSpaces | src/main.rs:98-100 | spaces are pushed until the buffer holds `capacity` characters |
| Windows.Window.InsertTile | src/main.rs:105-115 | one tile's four inserts, in the written order |
| Windows.Window.InsertTiles | src/main.rs:103-116 | as written: every tile is inserted at the same offset; an insert past the end panics with the `is_char_boundary` message |
| Windows.Window.InsertNewlines | src/main.rs:119-121 | as written: a newline goes at each index of `(width..screen_area).step_by(width)`; a width of 0 panics |
| Windows.Window.DrawSprite | src/main.rs:103-116 | corrected: each tile overwrites its own block; it panics exactly when some block does not fit in the buffer |
| Windows.Window.BreakLines | src/main.rs:119-121 | corrected: the grid becomes `height` lines of `width` glyphs, each closed by a newline |
| Windows.Window.DrawFrame | src/main.rs:93-121 | the spaces, the sprite on its blocks, then the line breaks; it panics exactly when a block does not fit |
| Windows.Window.DrawSpriteAt | src/main.rs:93-121 | corrected: a built sprite placed at `y_pos * width + x_pos` is drawn exactly when every block fits, and every block fits when the sprite lies on the screen |
| Windows.Window.RenderFrame | src/main.rs:81-131 | clears the buffers, builds the sprite (failing as `NewSpriteCorrected` does), then draws the frame of the sprite's resolved tiles at `y_pos * width + x_pos`; a built sprite that lies on the screen is always drawn |
| Windows.CellAtRasterCell | src/main.rs:103-116 | corrected: the slot that holds raster cell (x, y) is drawn `y` rows and `x` columns past the sprite offset |
| Windows.RasterCellDrawn | src/main.rs:103-116 | corrected: the blocks of a raster, drawn on their own blocks, show raster cell (x, y) at row `y`, column `x` from the offset |
| Windows.FrameShift | src/main.rs:119-121 | corrected: character `x_pos + x` of frame line `y_pos + y` is the grid character `y` rows and `x` columns past the sprite offset |
| Windows.RasterCellShown | src/main.rs:102-121 | corrected: one raster cell, drawn and broken into lines, appears at column `x_pos + x` of line `y_pos + y` |
| Windows.BlockOnScreen | src/main.rs:102-116 | corrected: each block of a sprite that lies on the screen ends inside the grid |
| Windows.SpriteOnScreenFits | src/main.rs:93-116 | corrected: a sprite with even dimensions that lies on the screen has every block inside the buffer, so drawing it does not panic |
| Windows.RasterShowsThrough | src/main.rs:93-121 | corrected: every block of an even raster on the screen fits, and every cell of an even raster, drawn from its blocks onto blank space and broken into lines, appears at column `x_pos + x` of line `y_pos + y` |
| Windows.SpriteShowsRaster | src/main.rs:81-121 | round trip: for an even raster that lies on the screen, the ids it resolves to are all stored and all fit, and the frame `RenderFrame` draws from them shows every raster cell at its own place, while the atlas stays below 65536 tiles |

## Left out

- Resizing the window. Nothing in the core writes `height` or `width` after `Window::default`, so the model makes them constant fields.
- Terminal I/O: the escape codes `clear` prints, printing the frame, `dbg!`, and the `println!()` calls in the atlas listing. The model keeps only the buffer contents.
- Reading the sprite sheet from a file (`load_raster_from_file`). The lines of the sheet are a parameter, already split and without newlines. A file that cannot be opened is not modelled.
- `Actor::new`, `ActorProps` and their `f32` positions. `RenderFrame` takes the actor's position as natural numbers; the source draws the mushroom at (0, 0). The call in `render_frame` does not match the signature in `src/actor.rs`.
- The capacity that `reserve_exact(screen_area)` produces is allocator-dependent. `RenderFrame` and `DrawFrame` take it as a parameter at least as large as the screen area.
- `on_start`, `on_update`, `main`, the input thread and the terminal settings.
- The sprite and actor lists of `Game`, and the `{:#?}` pretty form of the debug header. The listing models the `{:?}` form `Game { next_tile_id: N }`.
- The order in which `HashMap` iterates. `TileAtlasContains` scans keys in ascending order; the answer does not depend on the order. `FindExistingKey` may visit keys in any order, and the key it finds is unique because no two tiles share glyphs.
- Glyphs outside ASCII. A byte cast with `as char` is one character here, and `String::insert` indexes characters, not UTF-8 bytes.
- `usize` overflow in `width * height` and `(width + 1) * height`: integers are unbounded.
- `Tile::new` is called in `as_tile_ids` with three arguments, but `src/actor/sprite/tile.rs` declares four. New tiles get the stride 2 for the missing `stride` argument.
- The colours of a tile take no part in rendering; only the placeholder `Color(32)` is stored.
- Windows.Window.RenderFrame: builds the sprite with `NewSpriteCorrected`, the corrected pitch (see Findings). `Sprite::new` as written is `NewSprite`. On a raster with even dimensions whose cells can all be read, the two differ exactly when the raster is at least 2 wide, more than one block row high and taller than wide: `Sprite::new` panics with an index out of bounds and the corrected build succeeds (`AsWrittenPitchInBounds`, `CorrectPitchInBounds`). A raster with a missing cell makes both panic with an index out of bounds. With an odd dimension they can differ too: `Sprite::new` can reach validation and fail with the height message where the corrected build fails earlier with an index out of bounds, as `OddHeightReachesValidation` shows for a raster 8 wide and 3 high. Other odd rasters, such as one 2 wide and 5 high, overrun the buffer with either pitch.
- Windows.Window.RenderFrame: draws with the corrected glyph and newline loops (see Findings). The loops as written are `InsertTiles` and `InsertNewlines`.
- Sprites.ResolveAllContent: states the id-to-glyphs correspondence only while the atlas stays below 65536 tiles. Beyond that the wrapped id overwrites tile 0, as `ResolveWrapsAround` states.

## Findings

| source | as written | input that shows it | evidently intended | confidence | as-written member | corrected member |
|---|---|---|---|---|---|---|
| src/actor/sprite.rs:61 | block rows are `sprite_height / stride` entries apart in the tile buffer | a raster 2 wide and 4 high: cell (0, 2) indexes entry 2 of a buffer of 2 entries, and indexing panics | rows `sprite_width / stride` apart, so each block has its own entry inside the buffer | high (not executed) | Sprites.AsTileIds, Sprites.NewSprite, Sprites.TallSpriteOverruns, Sprites.OddHeightReachesValidation | Sprites.AsTileIdsCorrected, Sprites.NewSpriteCorrected, Sprites.CorrectPitchInBounds |
| src/main.rs:102-116 | every tile's glyphs are inserted at `sprite_offset`, shifting the buffer | tiles "ABCD" and "EFGH" of a sprite two blocks wide on a blank 4×2 grid: the top row reads "EFAB" and the buffer grows from 8 to 16 characters | each tile overwrites its own 2×2 block, left to right and top to bottom, and the buffer length is kept | high (not executed) | Windows.Window.InsertTiles, Windows.SameOffsetStacksTiles | Windows.Window.DrawSprite, Windows.SpriteDrawnReadBack, Windows.OwnBlocksKeepTiles, Windows.SpriteShowsRaster |
| src/main.rs:119 | newlines at `(width..screen_area).step_by(width)` | a 2×2 grid "abcd" with two spare characters: the frame is "ab\nc\ndef" | step `width + 1`, so each inserted newline ends one full row | high (not executed) | Windows.Window.InsertNewlines, Windows.NewlineStepSplitsRows | Windows.Window.BreakLines, Windows.FrameRow, Windows.LineStepKeepsRows |
