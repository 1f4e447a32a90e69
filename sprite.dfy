/** Sprites: a rectangular raster of glyph bytes cut into 2×2 blocks, each block resolved to
    the id of a tile in the shared atlas (an equal tile's id, or a new tile's). */
module Sprites {
  import opened AsciiBros
  import opened Tiles
  import opened Text
  import opened Games

  /** A sprite sheet as loaded: the bytes of each line (`String::as_bytes`), top to bottom. */
  type Raster = seq<seq<u8>>

  datatype Sprite = Sprite(
    entity_type: EntityType,
    width: nat,
    height: nat,
    tile_ids: seq<Ident>,   // one id per block, left to right, top to bottom
    z_order: u8)

  /** Why the program panics. */
  datatype Panic = IndexOutOfBounds | Message(text: string)

  // ------------------------------------------------------------------------------------------
  // Validation

  /** The message `validate` formats for a dimension that is not a multiple of the stride. */
  function DimensionError(name: string, value: nat): string
  {
    "Sprite's " + name + " (" + Decimal(value) + ") is not a multiple of " + Decimal(STRIDE)
  }

  /** `Sprite::validate`: both dimensions must be multiples of the stride; the width is
      checked first. */
  function Validate(s: Sprite): (r: Result<(), string>)
    ensures r.Ok? <==> s.width % STRIDE == 0 && s.height % STRIDE == 0
    ensures s.width % STRIDE != 0 ==> r == Err(DimensionError("width", s.width))
    ensures s.width % STRIDE == 0 && s.height % STRIDE != 0 ==> r == Err(DimensionError("height", s.height))
  {
    if s.width % STRIDE != 0 then Err(DimensionError("width", s.width))
    else if s.height % STRIDE != 0 then Err(DimensionError("height", s.height))
    else Ok(())
  }

  /** `b` sits between `a` and `c` in `a + b + c`. */
  lemma Between<T>(a: seq<T>, b: seq<T>, c: seq<T>)
    ensures |a + b + c| == |a| + |b| + |c| && (a + b + c)[|a|..|a| + |b|] == b
  {
    assert (a + b + c)[|a|..|a| + |b|] == b;
  }

  /** The message names the dimension at position 9. */
  lemma DimensionErrorNames(name: string, value: nat)
    ensures |DimensionError(name, value)| >= |name| + 11 + |Decimal(value)|
    ensures DimensionError(name, value)[9..9 + |name|] == name
  {
    var tail := " (" + Decimal(value) + ") is not a multiple of " + Decimal(STRIDE);
    assert DimensionError(name, value) == "Sprite's " + name + tail;
    Between("Sprite's ", name, tail);
  }

  /** The message carries the value's digits after the name, and they read back as the value. */
  lemma DimensionErrorNamesValue(name: string, value: nat)
    ensures |DimensionError(name, value)| >= |name| + 11 + |Decimal(value)|
    ensures DimensionError(name, value)[|name| + 11..|name| + 11 + |Decimal(value)|] == Decimal(value)
    ensures DigitsValue(DimensionError(name, value)[|name| + 11..|name| + 11 + |Decimal(value)|]) == value
  {
    var d := Decimal(value);
    var tail := ") is not a multiple of " + Decimal(STRIDE);
    assert DimensionError(name, value) == ("Sprite's " + name + " (") + d + tail;
    Between("Sprite's " + name + " (", d, tail);
    DecimalRoundTrip(value);
  }

  // ------------------------------------------------------------------------------------------
  // Where a raster cell goes

  /** Slot of cell (x, y) within its block: row-major within the block. */
  function Slot(x: nat, y: nat): nat
  {
    (y % STRIDE) * STRIDE + x % STRIDE
  }

  /** Index into the block buffer of cell (x, y) when block rows are `pitch` entries apart. */
  function TileIndex(x: nat, y: nat, pitch: nat): nat
  {
    RowStart(y / STRIDE, pitch) + x / STRIDE
  }

  /** `brow * pitch`, the first buffer entry of block row `brow`, written as repeated addition
      so that reasoning about one row of the buffer stays linear. */
  function RowStart(brow: nat, pitch: nat): (r: nat)
  {
    if brow == 0 then 0 else RowStart(brow - 1, pitch) + pitch
  }

  lemma {:induction false} RowStartIsProduct(brow: nat, pitch: nat)
    ensures RowStart(brow, pitch) == brow * pitch
  {
    if brow > 0 {
      RowStartIsProduct(brow - 1, pitch);
    }
  }

  /** Rows further down start further on. */
  lemma {:induction false} RowStartMono(k: nat, n: nat, pitch: nat)
    requires k <= n
    ensures RowStart(k, pitch) <= RowStart(n, pitch)
    decreases n
  {
    if k < n {
      RowStartMono(k, n - 1, pitch);
    }
  }

  /** With one more character per row, row `n` starts `n` characters further on. */
  lemma {:induction false} RowStartWiden(n: nat, pitch: nat)
    ensures RowStart(n, pitch + 1) == RowStart(n, pitch) + n
  {
    if n > 0 {
      RowStartWiden(n - 1, pitch);
    }
  }

  /** A wider pitch puts every row at least as far on. */
  lemma {:induction false} RowStartPitchMono(k: nat, pitch: nat, wider: nat)
    requires pitch <= wider
    ensures RowStart(k, pitch) <= RowStart(k, wider)
  {
    if k > 0 {
      RowStartPitchMono(k - 1, pitch, wider);
    }
  }

  /** Every cell of a `width`×`height` raster is there to read: a raster with no columns is
      never read, otherwise there are `height` lines of at least `width` bytes. */
  ghost predicate CellsReadable(lines: Raster, width: nat, height: nat)
  {
    width == 0 || (height <= |lines| && forall y :: 0 <= y < height ==> width <= |lines[y]|)
  }

  /** Every cell of a `width`×`height` raster indexes inside the block buffer of
      `(width * height) / TILE_AREA` entries. */
  ghost predicate IndicesInBounds(width: nat, height: nat, pitch: nat)
  {
    forall y, x :: 0 <= y < height && 0 <= x < width ==> TileIndex(x, y, pitch) < (width * height) / TILE_AREA
  }

  /** Byte `x` of line `y`; the rasteriser reads only cells it has checked, so the value off
      the raster never matters. */
  function At(lines: Raster, y: nat, x: nat): u8
  {
    if y < |lines| && x < |lines[y]| then lines[y][x] else 0
  }

  /** The four glyphs of block (bcol, brow), row-major within the block. */
  function BlockContent(lines: Raster, bcol: nat, brow: nat): PixBuf
  {
    [At(lines, STRIDE * brow, STRIDE * bcol), At(lines, STRIDE * brow, STRIDE * bcol + 1),
     At(lines, STRIDE * brow + 1, STRIDE * bcol), At(lines, STRIDE * brow + 1, STRIDE * bcol + 1)]
  }

  /** Contents of blocks 0 .. n-1 of block row `brow`, left to right. */
  function RowBlocks(lines: Raster, brow: nat, n: nat): seq<PixBuf>
  {
    if n == 0 then [] else RowBlocks(lines, brow, n - 1) + [BlockContent(lines, n - 1, brow)]
  }

  /** The blocks of raster row `y` complete once its cells before column `x` are written:
      those of its block row on an odd row, none on an even one. */
  function RowDone(lines: Raster, y: nat, x: nat): seq<PixBuf>
  {
    if y % STRIDE == 1 then RowBlocks(lines, y / STRIDE, x / STRIDE) else []
  }

  /** Contents of block rows 0 .. rows-1, `cols` blocks each, in row-major order. */
  function Blocks(lines: Raster, cols: nat, rows: nat): seq<PixBuf>
  {
    if rows == 0 then [] else Blocks(lines, cols, rows - 1) + RowBlocks(lines, rows - 1, cols)
  }

  lemma {:induction false} RowBlocksAt(lines: Raster, brow: nat, n: nat, bcol: nat)
    ensures |RowBlocks(lines, brow, n)| == n
    ensures bcol < n ==> RowBlocks(lines, brow, n)[bcol] == BlockContent(lines, bcol, brow)
  {
    if n > 0 {
      RowBlocksAt(lines, brow, n - 1, bcol);
    }
  }

  /** Each block row adds `cols` blocks. */
  lemma {:induction false} BlocksCount(lines: Raster, cols: nat, rows: nat)
    ensures |Blocks(lines, cols, rows)| == RowStart(rows, cols)
  {
    if rows > 0 {
      BlocksCount(lines, cols, rows - 1);
      RowBlocksAt(lines, rows - 1, cols, 0);
    }
  }

  /** There are `rows * cols` blocks. */
  lemma BlocksLength(lines: Raster, cols: nat, rows: nat)
    ensures |Blocks(lines, cols, rows)| == rows * cols
  {
    BlocksCount(lines, cols, rows);
    RowStartIsProduct(rows, cols);
  }

  lemma ConcatAt<T>(a: seq<T>, b: seq<T>, j: nat)
    requires j < |b|
    ensures |a| + j < |a + b| && (a + b)[|a| + j] == b[j]
  {
  }

  lemma ConcatBefore<T>(a: seq<T>, b: seq<T>, j: nat)
    requires j < |a|
    ensures j < |a + b| && (a + b)[j] == a[j]
  {
  }

  /** Block row `brow` follows the block rows above it. */
  lemma LastRowAt(lines: Raster, cols: nat, bcol: nat, brow: nat)
    requires bcol < cols
    ensures |Blocks(lines, cols, brow)| + bcol < |Blocks(lines, cols, brow + 1)|
    ensures Blocks(lines, cols, brow + 1)[|Blocks(lines, cols, brow)| + bcol] == BlockContent(lines, bcol, brow)
  {
    RowBlocksAt(lines, brow, cols, bcol);
    ConcatAt(Blocks(lines, cols, brow), RowBlocks(lines, brow, cols), bcol);
  }

  /** Block (bcol, brow) follows the first `brow` block rows; later block rows only append. */
  lemma {:induction false} BlocksAtOffset(lines: Raster, cols: nat, rows: nat, bcol: nat, brow: nat)
    requires bcol < cols && brow < rows
    ensures |Blocks(lines, cols, brow)| + bcol < |Blocks(lines, cols, rows)|
    ensures Blocks(lines, cols, rows)[|Blocks(lines, cols, brow)| + bcol] == BlockContent(lines, bcol, brow)
    decreases rows
  {
    if brow + 1 == rows {
      LastRowAt(lines, cols, bcol, brow);
      assert Blocks(lines, cols, rows) == Blocks(lines, cols, brow + 1);
    } else {
      BlocksAtOffset(lines, cols, rows - 1, bcol, brow);
      ConcatBefore(Blocks(lines, cols, rows - 1), RowBlocks(lines, rows - 1, cols), |Blocks(lines, cols, brow)| + bcol);
    }
  }

  /** Block (bcol, brow) is at row-major index `brow * cols + bcol`. */
  lemma {:induction false} BlocksAt(lines: Raster, cols: nat, rows: nat, bcol: nat, brow: nat)
    requires bcol < cols && brow < rows
    ensures |Blocks(lines, cols, rows)| == rows * cols
    ensures brow * cols + bcol < rows * cols
    ensures Blocks(lines, cols, rows)[brow * cols + bcol] == BlockContent(lines, bcol, brow)
  {
    BlocksAtOffset(lines, cols, rows, bcol, brow);
    BlocksLength(lines, cols, rows);
    BlocksLength(lines, cols, brow);
  }

  // ------------------------------------------------------------------------------------------
  // Resolving block contents against the atlas

  /** The id `as_tile_ids` gives a new tile: the atlas size cast to `Ident`, which wraps
      around at `IDENT_LIMIT`. */
  function NewId(a: Atlas): (id: Ident)
    ensures |a| < IDENT_LIMIT ==> id == |a|
  {
    |a| % IDENT_LIMIT
  }

  /** The tile `as_tile_ids` stores for new glyphs: placeholder colours, the standard stride. */
  function NewTile(a: Atlas, content: PixBuf): Tile
  {
    Tile(NewId(a), STRIDE, NEW_TILE_COLORS, content)
  }

  /** Resolving one block: the id of a stored tile with the same glyphs and the atlas
      unchanged, or a new tile stored under `NewId`. */
  ghost function Resolve(a: Atlas, content: PixBuf): (Ident, Atlas)
  {
    if HasContent(a, content) then
      var k :| k in a && a[k].pix_buf == content; (k, a)
    else
      (NewId(a), a[NewId(a) := NewTile(a, content)])
  }

  /** Resolving a sequence of block contents in order: the ids and the final atlas. */
  ghost function ResolveAll(a: Atlas, cs: seq<PixBuf>): (seq<Ident>, Atlas)
  {
    if cs == [] then ([], a)
    else
      var before := ResolveAll(a, cs[..|cs| - 1]);
      var last := Resolve(before.1, cs[|cs| - 1]);
      (before.0 + [last.0], last.1)
  }

  lemma ResolveAllSnoc(a: Atlas, cs: seq<PixBuf>, c: PixBuf)
    ensures var before := ResolveAll(a, cs);
      var last := Resolve(before.1, c);
      ResolveAll(a, cs + [c]) == (before.0 + [last.0], last.1)
  {
    assert (cs + [c])[..|cs|] == cs;
  }

  /** Storing a new tile keeps the ids dense: the atlas grows by one, or keeps its size when
      the id wraps onto 0. */
  lemma InsertKeepsIdsDense(a: Atlas, c: PixBuf)
    requires |a| <= IDENT_LIMIT && DenseIds(a)
    ensures DenseIds(a[NewId(a) := NewTile(a, c)])
    ensures |a[NewId(a) := NewTile(a, c)]| == if |a| < IDENT_LIMIT then |a| + 1 else |a|
  {
    var id := NewId(a);
    var a' := a[id := NewTile(a, c)];
    if |a| < IDENT_LIMIT {
      assert id !in a;
      assert |a'| == |a| + 1;
    } else {
      assert id == 0 && 0 in a;
      assert |a'| == |a|;
    }
    forall k: Ident
      ensures k in a' <==> k < |a'|
    {
      if k != id {
        assert k in a' <==> k in a;
      }
    }
  }

  /** Storing glyphs no stored tile has keeps every stored tile's glyphs distinct. */
  lemma InsertKeepsContentDistinct(a: Atlas, c: PixBuf)
    requires NoDuplicateContent(a) && !HasContent(a, c)
    ensures NoDuplicateContent(a[NewId(a) := NewTile(a, c)])
  {
    var id := NewId(a);
    var a' := a[id := NewTile(a, c)];
    forall k1, k2 | k1 in a' && k2 in a' && a'[k1].pix_buf == a'[k2].pix_buf
      ensures k1 == k2
    {
      if k1 != id && k2 != id {
        assert a[k1].pix_buf == a[k2].pix_buf;
      }
    }
  }

  /** Storing a new tile keeps the atlas well formed, whether or not the id wraps. */
  lemma InsertKeepsWellFormed(a: Atlas, c: PixBuf)
    requires WellFormed(a) && !HasContent(a, c)
    ensures var a' := a[NewId(a) := NewTile(a, c)];
      && WellFormed(a')
      && a.Keys <= a'.Keys
      && |a'| == (if |a| < IDENT_LIMIT then |a| + 1 else |a|)
  {
    InsertKeepsIdsDense(a, c);
    InsertKeepsContentDistinct(a, c);
  }

  /** Resolving keeps the atlas well formed, keeps every key, and yields a key holding the glyphs. */
  lemma ResolveKeepsWellFormed(a: Atlas, c: PixBuf)
    requires WellFormed(a)
    ensures var r := Resolve(a, c);
      && WellFormed(r.1)
      && r.0 in r.1 && r.1[r.0].pix_buf == c
      && a.Keys <= r.1.Keys && |a| <= |r.1|
  {
    if !HasContent(a, c) {
      InsertKeepsWellFormed(a, c);
    }
  }

  /** Glyphs already in a well-formed atlas resolve to the one key holding them, and the atlas
      is left unchanged. */
  lemma ResolveReuses(a: Atlas, c: PixBuf, k: Ident)
    requires WellFormed(a) && k in a && a[k].pix_buf == c
    ensures Resolve(a, c) == (k, a)
  {
  }

  /** New glyphs, below the id limit, get id `|a|`; the atlas grows by exactly that one tile,
      with the placeholder colours, and every other entry is untouched. */
  lemma ResolveInserts(a: Atlas, c: PixBuf)
    requires WellFormed(a) && !HasContent(a, c) && |a| < IDENT_LIMIT
    ensures var r := Resolve(a, c);
      && r.0 == |a| && r.0 !in a
      && r.1.Keys == a.Keys + {r.0} && |r.1| == |a| + 1
      && r.1[r.0] == Tile(r.0, STRIDE, NEW_TILE_COLORS, c)
      && forall k :: k in a ==> r.1[k] == a[k]
  {
    assert NewId(a) !in a;
  }

  /** With `IDENT_LIMIT` tiles stored, the cast wraps: new glyphs are stored under id 0 and
      the tile that was there is lost. */
  lemma ResolveWrapsAround(a: Atlas, c: PixBuf)
    requires WellFormed(a) && !HasContent(a, c) && |a| == IDENT_LIMIT
    ensures var r := Resolve(a, c);
      && r.0 == 0 && 0 in a && |r.1| == |a|
      && r.1[0].pix_buf == c && r.1[0] != a[0]
  {
    assert 0 in a;
  }

  /** Resolving blocks in order keeps the atlas well formed, never drops a key, and yields
      one id per block, each a key of the final atlas. */
  lemma {:induction false} ResolveAllKeepsWellFormed(a: Atlas, cs: seq<PixBuf>)
    requires WellFormed(a)
    ensures var r := ResolveAll(a, cs);
      && WellFormed(r.1)
      && |r.0| == |cs|
      && (forall i :: 0 <= i < |r.0| ==> r.0[i] in r.1)
      && a.Keys <= r.1.Keys && |a| <= |r.1|
  {
    if cs != [] {
      var before := ResolveAll(a, cs[..|cs| - 1]);
      ResolveAllKeepsWellFormed(a, cs[..|cs| - 1]);
      ResolveKeepsWellFormed(before.1, cs[|cs| - 1]);
    }
  }

  /** Below the id limit, resolving one block never changes a stored tile. */
  lemma ResolveKeepsEntries(a: Atlas, c: PixBuf)
    requires WellFormed(a) && |a| < IDENT_LIMIT
    ensures var r := Resolve(a, c);
      forall k :: k in a ==> k in r.1 && r.1[k] == a[k]
  {
    if !HasContent(a, c) {
      ResolveInserts(a, c);
    }
  }

  /** The atlas before the last block is no larger than the final one. */
  lemma ResolveAllPrefix(a: Atlas, cs: seq<PixBuf>)
    requires WellFormed(a) && cs != []
    ensures var before := ResolveAll(a, cs[..|cs| - 1]);
      && WellFormed(before.1)
      && |before.1| <= |ResolveAll(a, cs).1|
      && ResolveAll(a, cs) == (before.0 + [Resolve(before.1, cs[|cs| - 1]).0], Resolve(before.1, cs[|cs| - 1]).1)
  {
    var before := ResolveAll(a, cs[..|cs| - 1]);
    ResolveAllKeepsWellFormed(a, cs[..|cs| - 1]);
    ResolveKeepsWellFormed(before.1, cs[|cs| - 1]);
  }

  /** When the id counter never wrapped (the final atlas is below `IDENT_LIMIT`), resolving
      blocks never changes a tile that was already stored. */
  lemma {:induction false} ResolveAllKeepsEntries(a: Atlas, cs: seq<PixBuf>)
    requires WellFormed(a) && |ResolveAll(a, cs).1| < IDENT_LIMIT
    ensures var r := ResolveAll(a, cs);
      forall k :: k in a ==> k in r.1 && r.1[k] == a[k]
  {
    if cs != [] {
      var before := ResolveAll(a, cs[..|cs| - 1]);
      ResolveAllPrefix(a, cs);
      ResolveAllKeepsEntries(a, cs[..|cs| - 1]);
      ResolveKeepsEntries(before.1, cs[|cs| - 1]);
    }
  }

  /** The resolved id holds the block's glyphs, whatever the atlas. */
  lemma ResolveHolds(a: Atlas, c: PixBuf)
    ensures var r := Resolve(a, c); r.0 in r.1 && r.1[r.0].pix_buf == c
  {
  }

  /** Every resolved id is a key of the final atlas: storing a tile never removes a key. */
  lemma {:induction false} ResolveAllIdsStored(a: Atlas, cs: seq<PixBuf>)
    ensures forall i :: 0 <= i < |ResolveAll(a, cs).0| ==> ResolveAll(a, cs).0[i] in ResolveAll(a, cs).1
  {
    if cs != [] {
      var before := ResolveAll(a, cs[..|cs| - 1]);
      var last := Resolve(before.1, cs[|cs| - 1]);
      ResolveAllIdsStored(a, cs[..|cs| - 1]);
      ResolveHolds(before.1, cs[|cs| - 1]);
      assert before.1.Keys <= last.1.Keys;
      var r := ResolveAll(a, cs);
      assert r.0 == before.0 + [last.0] && r.1 == last.1;
      forall i | 0 <= i < |r.0|
        ensures r.0[i] in r.1
      {
        if i < |before.0| {
          assert r.0[i] == before.0[i] && before.0[i] in before.1;
        } else {
          assert r.0[i] == last.0;
        }
      }
    }
  }

  /** One id per block. */
  lemma {:induction false} ResolveAllLength(a: Atlas, cs: seq<PixBuf>)
    ensures |ResolveAll(a, cs).0| == |cs|
  {
    if cs != [] {
      ResolveAllLength(a, cs[..|cs| - 1]);
    }
  }

  /** When the id counter never wrapped, the tile of the i-th id holds the i-th block's glyphs. */
  lemma {:induction false} ResolveAllContent(a: Atlas, cs: seq<PixBuf>)
    requires WellFormed(a) && |ResolveAll(a, cs).1| < IDENT_LIMIT
    ensures var r := ResolveAll(a, cs);
      && |r.0| == |cs|
      && forall i :: 0 <= i < |cs| ==> r.0[i] in r.1 && r.1[r.0[i]].pix_buf == cs[i]
  {
    ResolveAllLength(a, cs);
    if cs != [] {
      var prefix, c := cs[..|cs| - 1], cs[|cs| - 1];
      var before := ResolveAll(a, prefix);
      var last := Resolve(before.1, c);
      var r := ResolveAll(a, cs);
      ResolveAllPrefix(a, cs);
      ResolveAllContent(a, prefix);
      ResolveHolds(before.1, c);
      ResolveKeepsEntries(before.1, c);
      forall i | 0 <= i < |cs|
        ensures r.0[i] in r.1 && r.1[r.0[i]].pix_buf == cs[i]
      {
        if i < |cs| - 1 {
          assert r.0[i] == before.0[i] && cs[i] == prefix[i];
        }
      }
    }
  }

  /** When the id counter never wrapped, every tile added holds some block's glyphs. */
  lemma {:induction false} ResolveAllAddsOnlyBlocks(a: Atlas, cs: seq<PixBuf>)
    requires WellFormed(a) && |ResolveAll(a, cs).1| < IDENT_LIMIT
    ensures var r := ResolveAll(a, cs);
      forall k :: k in r.1 && k !in a ==> exists i :: 0 <= i < |cs| && cs[i] == r.1[k].pix_buf
  {
    if cs != [] {
      var prefix, c := cs[..|cs| - 1], cs[|cs| - 1];
      var before := ResolveAll(a, prefix);
      var r := ResolveAll(a, cs);
      ResolveAllPrefix(a, cs);
      ResolveAllAddsOnlyBlocks(a, prefix);
      ResolveKeepsEntries(before.1, c);
      forall k | k in r.1 && k !in a
        ensures exists i :: 0 <= i < |cs| && cs[i] == r.1[k].pix_buf
      {
        if k in before.1 {
          var i :| 0 <= i < |prefix| && prefix[i] == before.1[k].pix_buf;
          assert cs[i] == r.1[k].pix_buf;
        } else {
          if !HasContent(before.1, c) {
            ResolveInserts(before.1, c);
          }
          assert cs[|cs| - 1] == r.1[k].pix_buf;
        }
      }
    }
  }

  /** Deduplication: below the id limit, two blocks get the same id exactly when they hold the
      same glyphs. */
  lemma ResolveAllDedup(a: Atlas, cs: seq<PixBuf>)
    requires WellFormed(a) && |ResolveAll(a, cs).1| < IDENT_LIMIT
    ensures var r := ResolveAll(a, cs);
      && |r.0| == |cs|
      && forall i, j :: 0 <= i < |cs| && 0 <= j < |cs| ==> (r.0[i] == r.0[j] <==> cs[i] == cs[j])
  {
    ResolveAllContent(a, cs);
    ResolveAllKeepsWellFormed(a, cs);
    var r := ResolveAll(a, cs);
    forall i, j | 0 <= i < |cs| && 0 <= j < |cs| && cs[i] == cs[j]
      ensures r.0[i] == r.0[j]
    {
      assert r.1[r.0[i]].pix_buf == r.1[r.0[j]].pix_buf;
    }
  }

  // ------------------------------------------------------------------------------------------
  // Where the block buffer index lands

  /** The block buffer of a raster with even dimensions has one entry per block. */
  lemma BufferHoldsEveryBlock(width: nat, height: nat)
    requires width % STRIDE == 0 && height % STRIDE == 0
    ensures (width * height) / TILE_AREA == (height / STRIDE) * (width / STRIDE)
  {
    var cols, rows := width / STRIDE, height / STRIDE;
    assert width * height == TILE_AREA * (rows * cols);
  }

  /** A block at (bcol, brow) lands inside a buffer of `rows` block rows of `cols` entries
      when the grid is one block row high or the pitch is at most `cols`. */
  lemma IndexBelow(bcol: nat, brow: nat, rows: nat, cols: nat, pitch: nat)
    requires brow < rows && bcol < cols && (rows <= 1 || pitch <= cols)
    ensures RowStart(brow, pitch) + bcol < RowStart(rows, cols)
  {
    RowStartMono(brow + 1, rows, cols);
    if rows > 1 {
      RowStartPitchMono(brow, pitch, cols);
    }
  }

  /** With a pitch above `cols` and at least two block rows, the last block overruns. */
  lemma IndexBeyond(rows: nat, cols: nat, pitch: nat)
    requires rows >= 2 && cols >= 1 && pitch > cols
    ensures RowStart(rows - 1, pitch) + (cols - 1) >= RowStart(rows, cols)
  {
    RowStartPitchMono(rows - 1, cols + 1, pitch);
    RowStartWiden(rows - 1, cols);
  }

  /** With even dimensions, every cell indexes inside the block buffer exactly when the raster
      is empty, at most one block row high, or the pitch is at most the blocks per row. */
  lemma PitchInBounds(width: nat, height: nat, pitch: nat)
    requires width % STRIDE == 0 && height % STRIDE == 0
    ensures IndicesInBounds(width, height, pitch)
      <==> (width == 0 || height <= STRIDE || pitch <= width / STRIDE)
  {
    var cols, rows := width / STRIDE, height / STRIDE;
    BufferHoldsEveryBlock(width, height);
    RowStartIsProduct(rows, cols);
    if width == 0 || height <= STRIDE || pitch <= cols {
      forall y, x | 0 <= y < height && 0 <= x < width
        ensures TileIndex(x, y, pitch) < RowStart(rows, cols)
      {
        IndexBelow(x / STRIDE, y / STRIDE, rows, cols, pitch);
      }
    } else {
      IndexBeyond(rows, cols, pitch);
      assert TileIndex(width - 1, height - 1, pitch) == RowStart(rows - 1, pitch) + (cols - 1);
    }
  }

  /** With the pitch of a block row (`width / STRIDE`), every cell of a raster with even
      dimensions indexes inside the block buffer. */
  lemma CorrectPitchInBounds(width: nat, height: nat)
    requires width % STRIDE == 0 && height % STRIDE == 0
    ensures IndicesInBounds(width, height, width / STRIDE)
  {
    PitchInBounds(width, height, width / STRIDE);
  }

  /** With the pitch the source uses (`height / STRIDE`), a raster with even dimensions stays in
      bounds exactly when it is empty, at most one block row high, or not taller than wide. */
  lemma AsWrittenPitchInBounds(width: nat, height: nat)
    requires width % STRIDE == 0 && height % STRIDE == 0
    ensures IndicesInBounds(width, height, height / STRIDE)
      <==> (width == 0 || height <= STRIDE || height <= width)
  {
    PitchInBounds(width, height, height / STRIDE);
  }

  /** A raster two cells wide and four high overruns the block buffer with the source's pitch:
      cell (0, 2) lands on entry 2 of a buffer of 2. */
  lemma TallSpriteOverruns()
    ensures !IndicesInBounds(2, 4, 4 / STRIDE)
    ensures TileIndex(0, 2, 4 / STRIDE) == 2 && (2 * 4) / TILE_AREA == 2
  {
    AsWrittenPitchInBounds(2, 4);
    RowStartIsProduct(1, 4 / STRIDE);
  }

  // ------------------------------------------------------------------------------------------
  // The rasteriser

  /** `iter().find_map(..).unwrap()`: a key whose tile has the glyphs `content`, found by
      visiting the keys in an unspecified order (a hash map's). */
  method FindExistingKey(a: Atlas, content: PixBuf) returns (k: Ident)
    requires HasContent(a, content)
    ensures k in a && a[k].pix_buf == content
  {
    var remaining := a.Keys;
    var found := false;
    k := 0;
    while !found
      invariant remaining <= a.Keys
      invariant found ==> k in a && a[k].pix_buf == content
      invariant !found ==> exists j :: j in remaining && a[j].pix_buf == content
      decreases |remaining|, if found then 0 else 1
    {
      var j :| j in remaining;
      if a[j].pix_buf == content {
        k, found := j, true;
      }
      remaining := remaining - {j};
    }
  }

  /** The body of `as_tile_ids` once a block's last glyph is written: reuse the id of an equal
      tile, or insert a new tile under the atlas size cast to `Ident`. */
  method ResolveBlock(game: Game, content: PixBuf) returns (id: Ident)
    requires game.Valid()
    modifies game`tile_atlas
    ensures game.Valid()
    ensures (id, game.tile_atlas) == Resolve(old(game.tile_atlas), content)
  {
    ResolveKeepsWellFormed(game.tile_atlas, content);
    if !game.TileAtlasContains(content) {
      var tile := Tile(|game.tile_atlas| % IDENT_LIMIT, STRIDE, NEW_TILE_COLORS, content);
      game.tile_atlas := game.tile_atlas[tile.id := tile];
      id := tile.id;
    } else {
      id := FindExistingKey(game.tile_atlas, content);
      ResolveReuses(game.tile_atlas, content, id);
    }
  }

  lemma SnocAssoc<T>(a: seq<T>, b: seq<T>, c: T)
    ensures (a + b) + [c] == a + (b + [c])
  {
  }

  /** The block buffer after cell (x, y) is written with glyph `v`. */
  function WriteCell(tiles: seq<Tile>, x: nat, y: nat, pitch: nat, v: u8): (r: seq<Tile>)
    requires TileIndex(x, y, pitch) < |tiles|
    ensures |r| == |tiles|
  {
    var i := TileIndex(x, y, pitch);
    tiles[i := tiles[i].(pix_buf := tiles[i].pix_buf[Slot(x, y) := v])]
  }

  /** Cells 0 .. upto-1 of raster row `row` sit in their slots of the block buffer. */
  ghost predicate RowWritten(tiles: seq<Tile>, lines: Raster, row: nat, upto: nat, pitch: nat)
  {
    forall c :: 0 <= c < upto ==>
      TileIndex(c, row, pitch) < |tiles| && tiles[TileIndex(c, row, pitch)].pix_buf[Slot(c, row)] == At(lines, row, c)
  }

  /** On an odd row, the even row above it is in the buffer in full. */
  ghost predicate RowAboveWritten(tiles: seq<Tile>, lines: Raster, y: nat, width: nat, pitch: nat)
  {
    y % STRIDE == 1 ==> RowWritten(tiles, lines, y - 1, width, pitch)
  }

  /** Writing the next cell of a row keeps the cells before it: a cell sharing its entry is
      the other column of the same block, in the other slot. */
  lemma WriteExtendsRow(tiles: seq<Tile>, lines: Raster, x: nat, y: nat, pitch: nat)
    requires RowWritten(tiles, lines, y, x, pitch) && TileIndex(x, y, pitch) < |tiles|
    ensures RowWritten(WriteCell(tiles, x, y, pitch, At(lines, y, x)), lines, y, x + 1, pitch)
  {
    var tiles' := WriteCell(tiles, x, y, pitch, At(lines, y, x));
    forall c | 0 <= c < x + 1
      ensures tiles'[TileIndex(c, y, pitch)].pix_buf[Slot(c, y)] == At(lines, y, c)
    {
      if c < x && TileIndex(c, y, pitch) == TileIndex(x, y, pitch) {
        assert Slot(c, y) != Slot(x, y);
      }
    }
  }

  /** Writing a cell of an odd row fills a lower slot, so the row above stays in place. */
  lemma WriteKeepsRowAbove(tiles: seq<Tile>, lines: Raster, x: nat, y: nat, width: nat, pitch: nat, v: u8)
    requires y % STRIDE == 1 && TileIndex(x, y, pitch) < |tiles|
    requires RowWritten(tiles, lines, y - 1, width, pitch)
    ensures RowWritten(WriteCell(tiles, x, y, pitch, v), lines, y - 1, width, pitch)
  {
    var tiles' := WriteCell(tiles, x, y, pitch, v);
    var above := y - 1;
    forall c | 0 <= c < width
      ensures tiles'[TileIndex(c, above, pitch)].pix_buf[Slot(c, above)] == At(lines, above, c)
    {
      assert Slot(c, above) < STRIDE <= Slot(x, y);
    }
  }

  /** Once the lower-right cell of a block is written, its buffer entry holds the block. */
  lemma BlockComplete(tiles: seq<Tile>, lines: Raster, x: nat, y: nat, width: nat, pitch: nat)
    requires y % STRIDE == 1 && x % STRIDE == 1 && x < width
    requires RowWritten(tiles, lines, y - 1, width, pitch) && RowWritten(tiles, lines, y, x + 1, pitch)
    ensures TileIndex(x, y, pitch) < |tiles|
    ensures tiles[TileIndex(x, y, pitch)].pix_buf == BlockContent(lines, x / STRIDE, y / STRIDE)
  {
    var i := TileIndex(x, y, pitch);
    assert TileIndex(x - 1, y - 1, pitch) == i && Slot(x - 1, y - 1) == 0;
    assert TileIndex(x, y - 1, pitch) == i && Slot(x, y - 1) == 1;
    assert TileIndex(x - 1, y, pitch) == i && Slot(x - 1, y) == 2;
    assert Slot(x, y) == 3;
  }

  /** Row `y` can be read in full and all its cells index inside the block buffer. */
  ghost predicate RowFits(lines: Raster, y: nat, width: nat, pitch: nat, entries: nat)
  {
    (width == 0 || (y < |lines| && width <= |lines[y]|))
    && forall x :: 0 <= x < width ==> TileIndex(x, y, pitch) < entries
  }

  /** A row with a missing cell, or a cell past the buffer, does not fit. */
  lemma CellMisfit(lines: Raster, x: nat, y: nat, width: nat, pitch: nat, entries: nat)
    requires x < width && (y >= |lines| || x >= |lines[y]| || TileIndex(x, y, pitch) >= entries)
    ensures !RowFits(lines, y, width, pitch, entries)
  {
  }

  /** A row written in full into a buffer of `entries` entries fits. */
  lemma WrittenRowFits(tiles: seq<Tile>, lines: Raster, y: nat, width: nat, pitch: nat)
    requires width == 0 || (y < |lines| && width <= |lines[y]|)
    requires RowWritten(tiles, lines, y, width, pitch)
    ensures RowFits(lines, y, width, pitch, |tiles|)
  {
  }

  /** Where a row starts: the slot `(y * stride) % TILE_AREA` is the slot of its first cell,
      and no block of the row is complete yet. */
  lemma {:induction false} RowBegins(lines: Raster, y: nat)
    ensures (y * STRIDE) % TILE_AREA == (y % STRIDE) * STRIDE == Slot(0, y)
    ensures RowDone(lines, y, 0) == []
  {
    var r := y % STRIDE;
    assert y * STRIDE == TILE_AREA * (y / STRIDE) + r * STRIDE;
    assert 0 <= r * STRIDE < TILE_AREA;
    assert 0 / STRIDE == 0;
  }

  /** Stepping the slot as `as_tile_ids` does (`pixel_idx` up by one, back to `prev_pixel_idx`
      past the end of the block's row) gives the slot of the next cell,
      and the last slot is reached exactly at the lower-right cell of a block. */
  lemma {:induction false} SlotStep(x: nat, y: nat)
    ensures var next := Slot(x, y) + 1;
      Slot(x + 1, y) == if next > ((y % STRIDE) + 1) * STRIDE - 1 then (y % STRIDE) * STRIDE else next
    ensures Slot(x, y) == TILE_AREA - 1 <==> x % STRIDE == 1 && y % STRIDE == 1
  {
  }

  /** Passing cell x of a row completes a block exactly when x is odd. */
  lemma {:induction false} RowBlocksStep(lines: Raster, brow: nat, x: nat)
    ensures x % STRIDE == 0 ==> RowBlocks(lines, brow, (x + 1) / STRIDE) == RowBlocks(lines, brow, x / STRIDE)
    ensures x % STRIDE == 1 ==>
      RowBlocks(lines, brow, (x + 1) / STRIDE) == RowBlocks(lines, brow, x / STRIDE) + [BlockContent(lines, x / STRIDE, brow)]
  {
    if x % STRIDE == 0 {
      assert (x + 1) / STRIDE == x / STRIDE;
    } else {
      assert (x + 1) / STRIDE == x / STRIDE + 1;
    }
  }

  /** Passing raster row y completes a row of blocks exactly when y is odd. */
  lemma {:induction false} BlocksNextRow(lines: Raster, cols: nat, y: nat)
    ensures Blocks(lines, cols, (y + 1) / STRIDE)
      == Blocks(lines, cols, y / STRIDE) + if y % STRIDE == 1 then RowBlocks(lines, y / STRIDE, cols) else []
  {
    if y % STRIDE == 0 {
      assert (y + 1) / STRIDE == y / STRIDE;
    } else {
      assert (y + 1) / STRIDE == y / STRIDE + 1;
    }
  }

  /** The tile index `as_tile_ids` computes from the pitch: the buffer entry of cell (x, y). */
  method TileIdx(x: nat, y: nat, pitch: nat) returns (tile_idx: nat)
    ensures tile_idx == TileIndex(x, y, pitch)
  {
    RowStartIsProduct(y / STRIDE, pitch);
    tile_idx := ((y / STRIDE) * pitch) + (x / STRIDE);
  }

  /** The pixel write of `as_tile_ids`: cell (x, y) goes into slot `pixel_idx` of buffer entry
      `tile_idx`. The cells already written stay, and once the lower-right cell of a block is
      written its entry holds the whole block. */
  method WritePixel(sprite_tiles: array<Tile>, lines: Raster, x: nat, y: nat, width: nat, pitch: nat,
                    tile_idx: nat, pixel_idx: nat)
    requires x < width && y < |lines| && x < |lines[y]|
    requires tile_idx == TileIndex(x, y, pitch) < sprite_tiles.Length && pixel_idx == Slot(x, y)
    requires RowWritten(sprite_tiles[..], lines, y, x, pitch)
    requires RowAboveWritten(sprite_tiles[..], lines, y, width, pitch)
    modifies sprite_tiles
    ensures sprite_tiles[..] == WriteCell(old(sprite_tiles[..]), x, y, pitch, lines[y][x])
    ensures RowWritten(sprite_tiles[..], lines, y, x + 1, pitch)
    ensures RowAboveWritten(sprite_tiles[..], lines, y, width, pitch)
    ensures pixel_idx == TILE_AREA - 1 ==> sprite_tiles[tile_idx].pix_buf == BlockContent(lines, x / STRIDE, y / STRIDE)
  {
    ghost var before := sprite_tiles[..];
    var tile := sprite_tiles[tile_idx];
    sprite_tiles[tile_idx] := tile.(pix_buf := tile.pix_buf[pixel_idx := lines[y][x]]);
    assert sprite_tiles[..] == WriteCell(before, x, y, pitch, At(lines, y, x));
    WriteExtendsRow(before, lines, x, y, pitch);
    if y % STRIDE == 1 {
      WriteKeepsRowAbove(before, lines, x, y, width, pitch, At(lines, y, x));
    }
    if pixel_idx == TILE_AREA - 1 {
      BlockComplete(sprite_tiles[..], lines, x, y, width, pitch);
    }
  }

  /** The find-or-insert step of `as_tile_ids` for one completed block: resolve it and push its id. The
      ids and the atlas go on being those of resolving every block so far, in order. */
  method PushBlockId(game: Game, content: PixBuf, ids: seq<Ident>, ghost atlas0: Atlas, ghost done: seq<PixBuf>)
    returns (ids': seq<Ident>)
    requires WellFormed(atlas0)
    requires (ids, game.tile_atlas) == ResolveAll(atlas0, done)
    modifies game`tile_atlas
    ensures (ids', game.tile_atlas) == ResolveAll(atlas0, done + [content])
  {
    ResolveAllKeepsWellFormed(atlas0, done);
    var id := ResolveBlock(game, content);
    ResolveAllSnoc(atlas0, done, content);
    ids' := ids + [id];
  }

  /** The body of the inner loop of `as_tile_ids` for one cell that is there and inside the buffer: write
      it, resolve the block it completes if any, and step the slot. Afterwards the cell is in
      the buffer, on an odd row the blocks resolved so far run one cell further, and the slot
      is that of the next cell.
      The parameters are the loop's locals: `sprite_tiles` the block buffer, `lines` the
      raster, (`x`, `y`) the cell, `width` the raster width, `pitch` the block-row stride,
      `tile_idx` and `pixel_idx` the entry and slot the cell goes to, `prev_pixel_idx` the slot
      the row's cells restart from, and `ids` the `tile_ids` pushed so far. The ghost `atlas0`
      is the atlas before the sprite and `done` the blocks completed on earlier block rows;
      `RowDone(lines, y, x)` adds those of this block row completed so far (on an odd row, the
      blocks left of `x`). */
  method RasteriseCell(game: Game, sprite_tiles: array<Tile>, lines: Raster, x: nat, y: nat, width: nat, pitch: nat,
                       tile_idx: nat, pixel_idx: nat, prev_pixel_idx: nat, ids: seq<Ident>,
                       ghost atlas0: Atlas, ghost done: seq<PixBuf>)
    returns (ids': seq<Ident>, next_pixel_idx: nat)
    requires WellFormed(atlas0)
    requires x < width && y < |lines| && x < |lines[y]|
    requires tile_idx == TileIndex(x, y, pitch) < sprite_tiles.Length
    requires pixel_idx == Slot(x, y) && prev_pixel_idx == (y % STRIDE) * STRIDE
    requires RowWritten(sprite_tiles[..], lines, y, x, pitch)
    requires RowAboveWritten(sprite_tiles[..], lines, y, width, pitch)
    requires (ids, game.tile_atlas) == ResolveAll(atlas0, done + RowDone(lines, y, x))
    modifies game`tile_atlas, sprite_tiles
    ensures RowWritten(sprite_tiles[..], lines, y, x + 1, pitch)
    ensures RowAboveWritten(sprite_tiles[..], lines, y, width, pitch)
    ensures (ids', game.tile_atlas) == ResolveAll(atlas0, done + RowDone(lines, y, x + 1))
    ensures next_pixel_idx == Slot(x + 1, y)
  {
    ghost var row_done := RowDone(lines, y, x);
    WritePixel(sprite_tiles, lines, x, y, width, pitch, tile_idx, pixel_idx);
    SlotStep(x, y);
    RowBlocksStep(lines, y / STRIDE, x);
    ids' := ids;
    if pixel_idx == TILE_AREA - 1 {
      var content := sprite_tiles[tile_idx].pix_buf;
      ids' := PushBlockId(game, content, ids, atlas0, done + row_done);
      SnocAssoc(done, row_done, content);
    }
    next_pixel_idx := pixel_idx + 1;
    if next_pixel_idx > (((y % STRIDE) + 1) * STRIDE) - 1 {
      next_pixel_idx := prev_pixel_idx;
    }
  }

  /** One pass of the inner loop of `as_tile_ids`, over the cells of raster row `y`: writes
      each cell into the block buffer and, on an odd row, resolves each block as its last cell
      is written. It stops at the first cell that is missing or past the buffer (`ok` false);
      otherwise the whole row is in the buffer and the ids and the atlas are those of resolving
      every block up to this row. */
  method RasteriseRow(game: Game, sprite_tiles: array<Tile>, lines: Raster, y: nat, width: nat, pitch: nat,
                      tile_ids: seq<Ident>, ghost atlas0: Atlas, ghost done: seq<PixBuf>)
    returns (ok: bool, ids: seq<Ident>, ghost done': seq<PixBuf>)
    requires WellFormed(atlas0)
    requires RowAboveWritten(sprite_tiles[..], lines, y, width, pitch)
    requires done == Blocks(lines, width / STRIDE, y / STRIDE)
    requires (tile_ids, game.tile_atlas) == ResolveAll(atlas0, done)
    modifies game`tile_atlas, sprite_tiles
    ensures (ids, game.tile_atlas) == ResolveAll(atlas0, done')
    ensures ok <==> RowFits(lines, y, width, pitch, sprite_tiles.Length)
    ensures ok ==> RowWritten(sprite_tiles[..], lines, y, width, pitch)
    ensures ok ==> RowAboveWritten(sprite_tiles[..], lines, y + 1, width, pitch)
    ensures ok ==> done' == Blocks(lines, width / STRIDE, (y + 1) / STRIDE)
  {
    ids := tile_ids;
    ghost var row_done: seq<PixBuf> := [];
    ghost var resolved := done;
    var prev_pixel_idx := (y * STRIDE) % TILE_AREA;
    var pixel_idx := prev_pixel_idx;
    var x := 0;
    RowBegins(lines, y);
    assert done + row_done == done;
    while x < width
      invariant 0 <= x <= width
      invariant x > 0 ==> y < |lines| && x <= |lines[y]|
      invariant prev_pixel_idx == (y % STRIDE) * STRIDE && pixel_idx == Slot(x, y)
      invariant RowWritten(sprite_tiles[..], lines, y, x, pitch)
      invariant RowAboveWritten(sprite_tiles[..], lines, y, width, pitch)
      invariant row_done == RowDone(lines, y, x)
      invariant resolved == done + row_done && (ids, game.tile_atlas) == ResolveAll(atlas0, resolved)
    {
      var tile_idx := TileIdx(x, y, pitch);
      if y >= |lines| || x >= |lines[y]| || tile_idx >= sprite_tiles.Length {
        CellMisfit(lines, x, y, width, pitch, sprite_tiles.Length);
        return false, ids, resolved;
      }
      ids, pixel_idx := RasteriseCell(game, sprite_tiles, lines, x, y, width, pitch, tile_idx,
                                      pixel_idx, prev_pixel_idx, ids, atlas0, done);
      x := x + 1;
      row_done := RowDone(lines, y, x);
      resolved := done + row_done;
    }
    WrittenRowFits(sprite_tiles[..], lines, y, width, pitch);
    BlocksNextRow(lines, width / STRIDE, y);
    ok, done' := true, resolved;
  }

  /** The loops of `as_tile_ids` over a block buffer already allocated: every raster row in
      turn. It stops at the first row with a cell that is missing or past the buffer (`ok`
      false). Either way the ids and the new atlas are those of resolving the blocks `done`
      completed before it stopped; when it does not stop, those are every block in row-major
      order. */
  method RasteriseRows(game: Game, sprite_tiles: array<Tile>, lines: Raster, width: nat, height: nat, pitch: nat,
                       ghost atlas0: Atlas)
    returns (ok: bool, tile_ids: seq<Ident>, ghost done: seq<PixBuf>)
    requires WellFormed(atlas0) && game.tile_atlas == atlas0
    modifies game`tile_atlas, sprite_tiles
    ensures (tile_ids, game.tile_atlas) == ResolveAll(atlas0, done)
    ensures ok <==> RowsFit(lines, height, width, pitch, sprite_tiles.Length)
    ensures ok ==> done == Blocks(lines, width / STRIDE, height / STRIDE)
  {
    tile_ids, done := [], [];
    var y := 0;
    while y < height
      invariant 0 <= y <= height
      invariant RowsFit(lines, y, width, pitch, sprite_tiles.Length)
      invariant RowAboveWritten(sprite_tiles[..], lines, y, width, pitch)
      invariant done == Blocks(lines, width / STRIDE, y / STRIDE)
      invariant (tile_ids, game.tile_atlas) == ResolveAll(atlas0, done)
    {
      ok, tile_ids, done := RasteriseRow(game, sprite_tiles, lines, y, width, pitch, tile_ids, atlas0, done);
      if !ok {
        RowMisfit(lines, y, height, width, pitch, sprite_tiles.Length);
        return;
      }
      y := y + 1;
    }
    assert y == height;
    ok := true;
  }

  /** `as_tile_ids`, with the distance between block rows in the block buffer as a parameter:
      allocates a buffer of `width * height / TILE_AREA` default tiles, cuts the raster into 2×2
      blocks, writing each cell into slot `Slot(x, y)` of buffer entry `TileIndex(x, y, pitch)`,
      and resolves each block against the atlas when its last slot is written. It panics when a
      cell is missing or its entry is past the buffer; otherwise the ids and the new atlas are
      those of resolving the blocks in row-major order. */
  method RasteriseWithPitch(game: Game, lines: Raster, width: nat, height: nat, pitch: nat)
    returns (r: Result<seq<Ident>, Panic>)
    requires game.Valid()
    modifies game`tile_atlas
    ensures game.Valid()
    ensures r.Ok? <==> RowsFit(lines, height, width, pitch, (width * height) / TILE_AREA)
    ensures r.Err? ==> r.error == IndexOutOfBounds
    ensures r.Ok? ==>
      (r.value, game.tile_atlas) == ResolveAll(old(game.tile_atlas), Blocks(lines, width / STRIDE, height / STRIDE))
  {
    var sprite_size := width * height;
    var sprite_tiles := new Tile[sprite_size / TILE_AREA](_ => DEFAULT_TILE);
    var ok, tile_ids, done := RasteriseRows(game, sprite_tiles, lines, width, height, pitch, game.tile_atlas);
    ResolveAllKeepsWellFormed(old(game.tile_atlas), done);
    if !ok {
      return Err(IndexOutOfBounds);
    }
    r := Ok(tile_ids);
  }

  /** Rows 0 .. n-1 all fit. */
  ghost predicate RowsFit(lines: Raster, n: nat, width: nat, pitch: nat, entries: nat)
  {
    n == 0 || (RowsFit(lines, n - 1, width, pitch, entries) && RowFits(lines, n - 1, width, pitch, entries))
  }

  lemma {:induction false} RowsFitEach(lines: Raster, n: nat, width: nat, pitch: nat, entries: nat)
    ensures RowsFit(lines, n, width, pitch, entries)
      <==> forall y :: 0 <= y < n ==> RowFits(lines, y, width, pitch, entries)
  {
    if n > 0 {
      RowsFitEach(lines, n - 1, width, pitch, entries);
    }
  }

  /** A row that does not fit spoils every longer run of rows. */
  lemma RowMisfit(lines: Raster, y: nat, n: nat, width: nat, pitch: nat, entries: nat)
    requires y < n && !RowFits(lines, y, width, pitch, entries)
    ensures !RowsFit(lines, n, width, pitch, entries)
  {
    RowsFitEach(lines, n, width, pitch, entries);
  }

  /** All rows fitting is exactly all cells being readable and in bounds. */
  lemma RowsFitInBounds(lines: Raster, width: nat, height: nat, pitch: nat)
    ensures RowsFit(lines, height, width, pitch, (width * height) / TILE_AREA)
      <==> CellsReadable(lines, width, height) && IndicesInBounds(width, height, pitch)
  {
    var entries := (width * height) / TILE_AREA;
    RowsFitEach(lines, height, width, pitch, entries);
    if RowsFit(lines, height, width, pitch, entries) {
      forall y, x | 0 <= y < height && 0 <= x < width
        ensures TileIndex(x, y, pitch) < entries
      {
        assert RowFits(lines, y, width, pitch, entries);
      }
      forall y | 0 <= y < height
        ensures width == 0 || (y < |lines| && width <= |lines[y]|)
      {
        assert RowFits(lines, y, width, pitch, entries);
      }
      if width > 0 && height > 0 {
        assert RowFits(lines, height - 1, width, pitch, entries);
      }
    } else {
      var y :| 0 <= y < height && !RowFits(lines, y, width, pitch, entries);
      if width > 0 && y < |lines| && width <= |lines[y]| {
        var x :| 0 <= x < width && TileIndex(x, y, pitch) >= entries;
      }
    }
  }

  // ------------------------------------------------------------------------------------------
  // `as_tile_ids` and `Sprite::new`

  /** `as_tile_ids` as written: block rows are `height / STRIDE` entries apart in the buffer.
      It panics exactly when some cell is missing or lands past the buffer; otherwise it returns
      the ids of the blocks in row-major order, with the atlas grown accordingly. */
  method AsTileIds(game: Game, lines: Raster, width: nat, height: nat) returns (r: Result<seq<Ident>, Panic>)
    requires game.Valid()
    modifies game`tile_atlas
    ensures game.Valid()
    ensures r.Ok? <==> CellsReadable(lines, width, height) && IndicesInBounds(width, height, height / STRIDE)
    ensures r.Err? ==> r.error == IndexOutOfBounds
    ensures r.Ok? ==>
      (r.value, game.tile_atlas) == ResolveAll(old(game.tile_atlas), Blocks(lines, width / STRIDE, height / STRIDE))
  {
    RowsFitInBounds(lines, width, height, height / STRIDE);
    r := RasteriseWithPitch(game, lines, width, height, height / STRIDE);
  }

  /** `as_tile_ids` with block rows `width / STRIDE` entries apart, one block row's worth: the
      layout the buffer of `width * height / TILE_AREA` entries is sized for. */
  method AsTileIdsCorrected(game: Game, lines: Raster, width: nat, height: nat) returns (r: Result<seq<Ident>, Panic>)
    requires game.Valid()
    modifies game`tile_atlas
    ensures game.Valid()
    ensures r.Ok? <==> CellsReadable(lines, width, height) && IndicesInBounds(width, height, width / STRIDE)
    ensures r.Err? ==> r.error == IndexOutOfBounds
    ensures r.Ok? ==>
      (r.value, game.tile_atlas) == ResolveAll(old(game.tile_atlas), Blocks(lines, width / STRIDE, height / STRIDE))
  {
    RowsFitInBounds(lines, width, height, width / STRIDE);
    r := RasteriseWithPitch(game, lines, width, height, width / STRIDE);
  }

  /** `Sprite::new` on the lines of a sprite sheet, as written: the width is the length of the
      first line (a panic when there is none), the height the number of lines; the tile ids are
      computed with the pitch `height / STRIDE` before the dimensions are validated, and a
      failed validation panics with its message. It succeeds exactly when both dimensions are
      even, every line is at least as long as the first, and the raster is not taller than wide
      (or at most one block row high, or empty); the sprite then holds one id per block, in
      row-major order. */
  method NewSprite(game: Game, lines: Raster, z_order: u8) returns (r: Result<Sprite, Panic>)
    requires game.Valid()
    modifies game`tile_atlas
    ensures game.Valid()
    ensures lines == [] ==> r == Err(IndexOutOfBounds) && game.tile_atlas == old(game.tile_atlas)
    ensures lines != [] ==>
      (r.Ok? <==> |lines[0]| % STRIDE == 0 && |lines| % STRIDE == 0 && CellsReadable(lines, |lines[0]|, |lines|)
                  && (|lines[0]| == 0 || |lines| <= STRIDE || |lines| <= |lines[0]|))
    ensures lines != [] ==>
      (r == Err(IndexOutOfBounds)
       <==> !(CellsReadable(lines, |lines[0]|, |lines|) && IndicesInBounds(|lines[0]|, |lines|, |lines| / STRIDE)))
    ensures lines != [] && r.Err? && r.error.Message? ==>
      r.error.text == if |lines[0]| % STRIDE != 0 then DimensionError("width", |lines[0]|)
                      else DimensionError("height", |lines|)
    ensures r.Ok? ==> r.value == Sprite(EntityType.None, |lines[0]|, |lines|, r.value.tile_ids, z_order)
    ensures r.Ok? ==> |r.value.tile_ids| == (|lines| / STRIDE) * (|lines[0]| / STRIDE)
    ensures r.Ok? ==>
      (r.value.tile_ids, game.tile_atlas) == ResolveAll(old(game.tile_atlas), Blocks(lines, |lines[0]| / STRIDE, |lines| / STRIDE))
  {
    if |lines| == 0 {
      return Err(IndexOutOfBounds);
    }
    ghost var atlas0 := game.tile_atlas;
    var width := |lines[0]|;
    var height := |lines|;
    if width % STRIDE == 0 && height % STRIDE == 0 {
      AsWrittenPitchInBounds(width, height);
    }
    var ids := AsTileIds(game, lines, width, height);
    if ids.Err? {
      return Err(ids.error);
    }
    var sprite := Sprite(EntityType.None, width, height, ids.value, z_order);
    var valid := Validate(sprite);
    if valid.Err? {
      return Err(Message(valid.error));
    }
    ResolveAllKeepsWellFormed(atlas0, Blocks(lines, width / STRIDE, height / STRIDE));
    BlocksLength(lines, width / STRIDE, height / STRIDE);
    r := Ok(sprite);
  }

  /** `Sprite::new` with the tile ids computed by `AsTileIdsCorrected` (pitch `width / STRIDE`).
      It succeeds exactly when both dimensions are even and every line is at least as long as
      the first; the sprite then holds one id per block, in row-major order. An odd dimension
      fails with the validation message only when every cell still indexes inside the buffer. */
  method NewSpriteCorrected(game: Game, lines: Raster, z_order: u8) returns (r: Result<Sprite, Panic>)
    requires game.Valid()
    modifies game`tile_atlas
    ensures game.Valid()
    ensures lines == [] ==> r == Err(IndexOutOfBounds) && game.tile_atlas == old(game.tile_atlas)
    ensures lines != [] ==>
      (r.Ok? <==> |lines[0]| % STRIDE == 0 && |lines| % STRIDE == 0 && CellsReadable(lines, |lines[0]|, |lines|))
    ensures lines != [] ==>
      (r == Err(IndexOutOfBounds)
       <==> !(CellsReadable(lines, |lines[0]|, |lines|) && IndicesInBounds(|lines[0]|, |lines|, |lines[0]| / STRIDE)))
    ensures lines != [] && r.Err? && r.error.Message? ==>
      r.error.text == if |lines[0]| % STRIDE != 0 then DimensionError("width", |lines[0]|)
                      else DimensionError("height", |lines|)
    ensures r.Ok? ==> r.value == Sprite(EntityType.None, |lines[0]|, |lines|, r.value.tile_ids, z_order)
    ensures r.Ok? ==> |r.value.tile_ids| == (|lines| / STRIDE) * (|lines[0]| / STRIDE)
    ensures r.Ok? ==>
      (r.value.tile_ids, game.tile_atlas) == ResolveAll(old(game.tile_atlas), Blocks(lines, |lines[0]| / STRIDE, |lines| / STRIDE))
  {
    if |lines| == 0 {
      return Err(IndexOutOfBounds);
    }
    ghost var atlas0 := game.tile_atlas;
    var width := |lines[0]|;
    var height := |lines|;
    if width % STRIDE == 0 && height % STRIDE == 0 {
      CorrectPitchInBounds(width, height);
    }
    var ids := AsTileIdsCorrected(game, lines, width, height);
    if ids.Err? {
      return Err(ids.error);
    }
    var sprite := Sprite(EntityType.None, width, height, ids.value, z_order);
    var valid := Validate(sprite);
    if valid.Err? {
      return Err(Message(valid.error));
    }
    ResolveAllKeepsWellFormed(atlas0, Blocks(lines, width / STRIDE, height / STRIDE));
    BlocksLength(lines, width / STRIDE, height / STRIDE);
    r := Ok(sprite);
  }

  /** A raster 8 wide and 3 high: with the source's pitch `3 / STRIDE` every cell indexes inside
      the buffer of 6 entries, so `Sprite::new` reaches validation and fails on the height; with
      the pitch `8 / STRIDE` cell (4, 2) indexes entry 6 and the corrected build fails there. */
  lemma OddHeightReachesValidation()
    ensures IndicesInBounds(8, 3, 3 / STRIDE)
    ensures TileIndex(4, 2, 8 / STRIDE) == 6 && (8 * 3) / TILE_AREA == 6
    ensures !IndicesInBounds(8, 3, 8 / STRIDE)
  {
    forall y, x | 0 <= y < 3 && 0 <= x < 8
      ensures TileIndex(x, y, 3 / STRIDE) < (8 * 3) / TILE_AREA
    {
      RowStartIsProduct(y / STRIDE, 1);
    }
    RowStartIsProduct(1, 4);
  }
}
