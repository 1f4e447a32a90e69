/** The terminal window of `src/main.rs`: a character buffer the size of the screen that is
    emptied every frame, padded with spaces, given the glyphs of a sprite and broken into
    lines. */
module Windows {
  import opened AsciiBros
  import opened Tiles
  import opened Text
  import opened Games
  import opened Sprites

  /** The panic of `String::insert` at an index past the end of the string. */
  const NOT_CHAR_BOUNDARY: string := "assertion failed: self.is_char_boundary(idx)"

  /** The panic of `step_by(0)`. */
  const ZERO_STEP: string := "assertion failed: step != 0"

  // ------------------------------------------------------------------------------------------
  // Inserting into a string

  /** `String::insert(idx, c)`: `c` lands at `idx` and everything from `idx` on moves one
      place to the right. */
  function InsertAt(s: string, idx: nat, c: char): (r: string)
    requires idx <= |s|
    ensures |r| == |s| + 1
  {
    s[..idx] + [c] + s[idx..]
  }

  /** Where an insert leaves every character: those before `idx` stay, `c` is at `idx`, and
      the rest sit one place further on. */
  lemma InsertAtShape(s: string, idx: nat, c: char)
    requires idx <= |s|
    ensures var r := InsertAt(s, idx, c);
      && r[idx] == c
      && (forall i :: 0 <= i < idx ==> r[i] == s[i])
      && (forall i :: idx <= i < |s| ==> r[i + 1] == s[i])
  {
  }

  /** The indices `(start..end).step_by(step)` yields: `start`, `start + step`, … below `end`. */
  function StepBy(start: nat, end: nat, step: nat): (r: seq<nat>)
    requires step > 0
    ensures forall k :: 0 <= k < |r| ==> start <= r[k] < end
    ensures forall k, l :: 0 <= k < l < |r| ==> r[k] < r[l]
    ensures r == [] <==> start >= end
    decreases end - start
  {
    if start < end then [start] + StepBy(start + step, end, step) else []
  }

  /** `c` inserted at each of `idxs` in turn; each index is taken in the string as it is
      after the inserts before it. */
  function InsertEach(s: string, idxs: seq<nat>, c: char): (r: string)
    requires forall k :: 0 <= k < |idxs| ==> idxs[k] <= |s|
    ensures |r| == |s| + |idxs|
    decreases |idxs|
  {
    if idxs == [] then s else InsertEach(InsertAt(s, idxs[0], c), idxs[1..], c)
  }

  /** Inserting at increasing indices leaves `c` at every one of them: a later insert only
      moves what lies at or after its own index. */
  lemma {:induction false} InsertEachLands(s: string, idxs: seq<nat>, c: char)
    requires forall k :: 0 <= k < |idxs| ==> idxs[k] <= |s|
    requires forall k, l :: 0 <= k < l < |idxs| ==> idxs[k] < idxs[l]
    ensures var r := InsertEach(s, idxs, c);
      && (forall k :: 0 <= k < |idxs| ==> r[idxs[k]] == c)
      && (idxs != [] ==> r[..idxs[0]] == s[..idxs[0]])
    decreases |idxs|
  {
    if idxs != [] {
      var s' := InsertAt(s, idxs[0], c);
      var rest := idxs[1..];
      InsertEachLands(s', rest, c);
      var r := InsertEach(s, idxs, c);
      assert r == InsertEach(s', rest, c);
      if rest != [] {
        assert r[..rest[0]] == s'[..rest[0]];
        assert idxs[0] < rest[0];
        assert r[idxs[0]] == s'[idxs[0]];
        forall k | 0 <= k < |idxs|
          ensures r[idxs[k]] == c
        {
          if k > 0 {
            assert idxs[k] == rest[k - 1];
          }
        }
        assert r[..idxs[0]] == s'[..rest[0]][..idxs[0]];
      }
      assert s'[..idxs[0]] == s[..idxs[0]];
    }
  }

  // ------------------------------------------------------------------------------------------
  // Line breaks

  /** The first `n` rows of a grid `width` characters wide, each followed by a newline. */
  function Rows(grid: string, width: nat, n: nat): (r: string)
    requires RowStart(n, width) <= |grid|
    ensures |r| == RowStart(n, width + 1)
  {
    if n == 0 then [] else Rows(grid, width, n - 1) + grid[RowStart(n - 1, width)..RowStart(n, width)] + ['\n']
  }

  /** The intended frame: the first `height` rows of the grid, each ending in a newline, then
      whatever the buffer holds beyond them. */
  function Frame(grid: string, width: nat, height: nat): string
    requires RowStart(height, width) <= |grid|
  {
    Rows(grid, width, height) + grid[RowStart(height, width)..]
  }

  /** A longer run of rows starts with a shorter one. */
  lemma {:induction false} RowsPrefix(grid: string, width: nat, k: nat, n: nat)
    requires k <= n && RowStart(n, width) <= |grid|
    ensures RowStart(k, width) <= |grid|
    ensures RowStart(k, width + 1) <= RowStart(n, width + 1)
    ensures Rows(grid, width, n)[..RowStart(k, width + 1)] == Rows(grid, width, k)
    decreases n
  {
    RowStartMono(k, n, width);
    RowStartMono(k, n, width + 1);
    if k < n {
      RowsPrefix(grid, width, k, n - 1);
    }
  }

  /** Line `k` of the frame is row `k` of the grid, and a newline closes it. */
  lemma FrameRow(grid: string, width: nat, height: nat, k: nat)
    requires k < height && RowStart(height, width) <= |grid|
    ensures var f, start := Frame(grid, width, height), RowStart(k, width + 1);
      && RowStart(k + 1, width) <= |grid|
      && start + width < |f|
      && f[start..start + width] == grid[RowStart(k, width)..RowStart(k + 1, width)]
      && f[start + width] == '\n'
  {
    RowsPrefix(grid, width, k + 1, height);
    var f := Frame(grid, width, height);
    var rows := Rows(grid, width, k + 1);
    assert f[..RowStart(k + 1, width + 1)] == rows;
  }

  /** One more break: the newline inserted right after row `j` turns it into a line. */
  lemma RowBreak(grid: string, width: nat, j: nat)
    requires RowStart(j + 1, width) <= |grid|
    ensures var buf := Rows(grid, width, j) + grid[RowStart(j, width)..];
      && RowStart(j, width + 1) + width <= |buf|
      && InsertAt(buf, RowStart(j, width + 1) + width, '\n')
         == Rows(grid, width, j + 1) + grid[RowStart(j + 1, width)..]
  {
    var rows := Rows(grid, width, j);
    var buf := rows + grid[RowStart(j, width)..];
    var idx := RowStart(j, width + 1) + width;
    assert buf[..idx] == rows + grid[RowStart(j, width)..RowStart(j + 1, width)];
    assert buf[idx..] == grid[RowStart(j + 1, width)..];
  }

  /** A 2×2 grid "ab", "cd" with the two spare characters "ef" after it: breaking it every
      `width` characters leaves a second line of one glyph ("c") and pushes 'd' onto the
      third. */
  lemma NewlineStepSplitsRows()
    ensures InsertEach("abcdef", StepBy(2, 6, 2), '\n') == "ab\nc\ndef"
  {
    assert StepBy(2, 6, 2) == [2, 4] && [2, 4][1..] == [4];
    assert InsertAt("abcdef", 2, '\n') == "ab\ncdef";
    assert InsertAt("ab\ncdef", 4, '\n') == "ab\nc\ndef";
  }

  /** The same grid broken every `width + 1` characters: the rows "ab" and "cd", each closed
      by a newline, then the spare characters. */
  lemma LineStepKeepsRows()
    ensures InsertEach("abcdef", StepBy(2, 6, 3), '\n') == Frame("abcdef", 2, 2) == "ab\ncd\nef"
  {
    var g := "abcdef";
    assert InsertEach(g, StepBy(2, 6, 3), '\n') == "ab\ncd\nef" by {
      assert StepBy(2, 6, 3) == [2, 5] by {
        assert StepBy(8, 6, 3) == [];
        assert StepBy(5, 6, 3) == [5];
      }
      var once := InsertAt(g, 2, '\n');
      assert once == "ab\ncdef" by {
        assert g[..2] == "ab" && g[2..] == "cdef";
      }
      var twice := InsertAt(once, 5, '\n');
      assert twice == "ab\ncd\nef" by {
        assert once[..5] == "ab\ncd" && once[5..] == "ef";
      }
      assert [2, 5][1..] == [5] && [5][1..] == [];
      assert InsertEach(once, [5], '\n') == InsertEach(twice, [], '\n');
    }
    assert Frame(g, 2, 2) == "ab\ncd\nef" by {
      assert RowStart(1, 2) == 2 && RowStart(2, 2) == 4;
      assert Rows(g, 2, 1) == "ab\n" by {
        assert g[0..2] == "ab";
      }
      assert Rows(g, 2, 2) == "ab\ncd\n" by {
        assert g[2..4] == "cd";
      }
      assert g[4..] == "ef";
    }
  }

  // ------------------------------------------------------------------------------------------
  // Placing a sprite's glyphs, as written: four inserts per tile, all at the same offset

  /** The glyphs of the tiles `ids` name, in order. */
  function TileGlyphs(atlas: Atlas, ids: seq<Ident>): (ps: seq<PixBuf>)
    requires forall i :: 0 <= i < |ids| ==> ids[i] in atlas
    ensures |ps| == |ids| && forall i :: 0 <= i < |ids| ==> ps[i] == atlas[ids[i]].pix_buf
  {
    seq(|ids|, i requires 0 <= i < |ids| => atlas[ids[i]].pix_buf)
  }

  /** Whether the four inserts of one tile at `off` stay inside a string of `len` characters;
      each insert may land one past the current end. */
  predicate InsertsFit(len: nat, off: nat, width: nat)
  {
    off <= len && off + width <= len + STRIDE
  }

  /** One tile's four inserts in the order written: glyphs 0 and 1 at `off` and `off + 1`,
      then glyphs 2 and 3 at `off + width` and `off + width + 1`. */
  function TileInserted(buf: string, off: nat, width: nat, p: PixBuf): (r: string)
    requires InsertsFit(|buf|, off, width)
  {
    var cs := Chars(p);
    InsertAt(InsertAt(InsertAt(InsertAt(buf, off, cs[0]), off + 1, cs[1]), off + width, cs[2]), off + width + 1, cs[3])
  }

  /** Where one tile's inserts leave everything: its glyphs at the four corners of a 2×2
      block, the `width - 2` characters between the two rows moved right by 2, and the rest
      of the string after the block moved right by 4. */
  lemma TileInsertedShape(buf: string, off: nat, width: nat, p: PixBuf)
    requires InsertsFit(|buf|, off, width) && width >= STRIDE
    ensures |TileInserted(buf, off, width, p)| == |buf| + TILE_AREA
    ensures TileInserted(buf, off, width, p)[off] == Chars(p)[0]
    ensures TileInserted(buf, off, width, p)[off + 1] == Chars(p)[1]
    ensures TileInserted(buf, off, width, p)[off + width] == Chars(p)[2]
    ensures TileInserted(buf, off, width, p)[off + width + 1] == Chars(p)[3]
    ensures forall i :: 0 <= i < off ==> TileInserted(buf, off, width, p)[i] == buf[i]
    ensures forall i :: off <= i < off + width - STRIDE ==> TileInserted(buf, off, width, p)[i + STRIDE] == buf[i]
    ensures forall i :: off + width - STRIDE <= i < |buf| ==> TileInserted(buf, off, width, p)[i + TILE_AREA] == buf[i]
  {
  }

  /** The inserts of every tile in turn, all at `off`. */
  function TilesInserted(buf: string, tiles: seq<PixBuf>, off: nat, width: nat): (r: string)
    requires tiles == [] || InsertsFit(|buf|, off, width)
    ensures |r| == |buf| + TILE_AREA * |tiles|
    decreases |tiles|
  {
    if tiles == [] then buf
    else
      var before := TilesInserted(buf, tiles[..|tiles| - 1], off, width);
      TileInserted(before, off, width, tiles[|tiles| - 1])
  }

  /** Every tile lands on the same 2×2 block, so the block shows the last tile only and the
      buffer grows by four characters per tile. */
  lemma LastTileOnTop(buf: string, tiles: seq<PixBuf>, off: nat, width: nat)
    requires tiles != [] && InsertsFit(|buf|, off, width) && width >= STRIDE
    ensures var r, cs := TilesInserted(buf, tiles, off, width), Chars(tiles[|tiles| - 1]);
      && |r| == |buf| + TILE_AREA * |tiles|
      && r[off] == cs[0] && r[off + 1] == cs[1] && r[off + width] == cs[2] && r[off + width + 1] == cs[3]
  {
    var before := TilesInserted(buf, tiles[..|tiles| - 1], off, width);
    TileInsertedShape(before, off, width, tiles[|tiles| - 1]);
  }

  /** Two tiles inserted at the start of a grid at least 4 characters wide: the second lands
      in front of the first, which moves two places right. */
  lemma Stacked(buf: string, a: PixBuf, b: PixBuf, width: nat)
    requires width >= 4 && |buf| >= width
    ensures InsertsFit(|buf|, 0, width)
    ensures var r := TilesInserted(buf, [a, b], 0, width);
      |r| == |buf| + 8 && r[0] == Chars(b)[0] && r[1] == Chars(b)[1] && r[2] == Chars(a)[0] && r[3] == Chars(a)[1]
  {
    assert [a, b][..1] == [a] && [a][..0] == [];
    assert TilesInserted(buf, [], 0, width) == buf;
    var first := TilesInserted(buf, [a], 0, width);
    assert first == TileInserted(TilesInserted(buf, [a][..0], 0, width), 0, width, a);
    TileInsertedShape(buf, 0, width, a);
    var r := TilesInserted(buf, [a, b], 0, width);
    assert r == TileInserted(first, 0, width, b);
    TileInsertedShape(first, 0, width, b);
    assert r[0 + STRIDE] == first[0] && r[1 + STRIDE] == first[1];
  }

  /** Two tiles "ABCD" and "EFGH" of a sprite two blocks wide, placed into a blank 4×2 grid:
      the second tile covers the first and pushes it two places right, so 'A' ends up where
      'E' belongs, and the buffer is 16 characters long instead of 8. */
  lemma SameOffsetStacksTiles()
    ensures var r := TilesInserted(Spaces(8), [[65, 66, 67, 68], [69, 70, 71, 72]], 0, 4);
      |r| == 16 && r[0] == 'E' && r[1] == 'F' && r[2] == 'A' && r[3] == 'B'
  {
    var a: PixBuf, b: PixBuf := [65, 66, 67, 68], [69, 70, 71, 72];
    Stacked(Spaces(8), a, b, 4);
    assert Chars(a)[0] == 'A' && Chars(a)[1] == 'B' && Chars(b)[0] == 'E' && Chars(b)[1] == 'F';
  }

  // ------------------------------------------------------------------------------------------
  // Placing a sprite's glyphs, corrected: each tile overwrites its own 2×2 block

  /** The first character of block `i` of a sprite `cols` blocks wide drawn at `off` in a
      grid `width` characters wide; blocks run left to right, then top to bottom. */
  function BlockOrigin(off: nat, width: nat, cols: nat, i: nat): nat
    requires cols > 0
  {
    off + RowStart(STRIDE * (i / cols), width) + STRIDE * (i % cols)
  }

  /** The grid row of slot `slot` of block `i`, counted from the sprite's first row. */
  function CellRow(cols: nat, i: nat, slot: nat): nat
    requires cols > 0
  {
    STRIDE * (i / cols) + slot / STRIDE
  }

  /** The grid column of slot `slot` of block `i`, counted from the sprite's first column. */
  function CellCol(cols: nat, i: nat, slot: nat): nat
    requires cols > 0
  {
    STRIDE * (i % cols) + slot % STRIDE
  }

  /** The grid cell of slot `slot` of block `i`; slots run row-major within the block. */
  function Cell(off: nat, width: nat, cols: nat, i: nat, slot: nat): nat
    requires cols > 0
  {
    off + RowStart(CellRow(cols, i, slot), width) + CellCol(cols, i, slot)
  }

  /** The four cells of a block are its origin, the one after, and the two below them. */
  lemma CellCorners(off: nat, width: nat, cols: nat, i: nat)
    requires cols > 0
    ensures var o := BlockOrigin(off, width, cols, i);
      && Cell(off, width, cols, i, 0) == o && Cell(off, width, cols, i, 1) == o + 1
      && Cell(off, width, cols, i, 2) == o + width && Cell(off, width, cols, i, 3) == o + width + 1
  {
    assert RowStart(STRIDE * (i / cols) + 1, width) == RowStart(STRIDE * (i / cols), width) + width;
  }

  /** Row and column within a grid are determined by the position. */
  lemma {:induction false} RowStartUnique(a: nat, x: nat, b: nat, y: nat, width: nat)
    requires x < width && y < width && RowStart(a, width) + x == RowStart(b, width) + y
    ensures a == b && x == y
    decreases a + b
  {
    if a > 0 && b > 0 {
      RowStartUnique(a - 1, x, b - 1, y, width);
    }
  }

  /** Block and slot are recovered from the row and column of their cell. */
  lemma CellRecovers(i: nat, s: nat, cols: nat)
    requires cols > 0 && s < TILE_AREA
    ensures i == cols * (CellRow(cols, i, s) / STRIDE) + CellCol(cols, i, s) / STRIDE
    ensures s == STRIDE * (CellRow(cols, i, s) % STRIDE) + CellCol(cols, i, s) % STRIDE
  {
    var row, col := CellRow(cols, i, s), CellCol(cols, i, s);
    assert row / STRIDE == i / cols && row % STRIDE == s / STRIDE;
    assert col / STRIDE == i % cols && col % STRIDE == s % STRIDE;
  }

  /** Two (block, slot) pairs in the same row and column are the same pair. */
  lemma CellInjective(cols: nat, i: nat, s: nat, j: nat, t: nat)
    requires cols > 0 && s < TILE_AREA && t < TILE_AREA
    requires CellRow(cols, i, s) == CellRow(cols, j, t) && CellCol(cols, i, s) == CellCol(cols, j, t)
    ensures i == j && s == t
  {
    CellRecovers(i, s, cols);
    CellRecovers(j, t, cols);
  }

  /** The column of a slot within the grid stays left of the grid's right edge. */
  lemma ColumnInRow(i: nat, cols: nat, s: nat, width: nat)
    requires cols > 0 && STRIDE * cols <= width && s < TILE_AREA
    ensures CellCol(cols, i, s) < width
  {
  }

  /** When a row of blocks fits in the grid, no two (block, slot) pairs share a cell. */
  lemma CellsDistinct(off: nat, width: nat, cols: nat, i: nat, s: nat, j: nat, t: nat)
    requires cols > 0 && STRIDE * cols <= width && s < TILE_AREA && t < TILE_AREA
    requires Cell(off, width, cols, i, s) == Cell(off, width, cols, j, t)
    ensures i == j && s == t
  {
    ColumnInRow(i, cols, s, width);
    ColumnInRow(j, cols, t, width);
    RowStartUnique(CellRow(cols, i, s), CellCol(cols, i, s), CellRow(cols, j, t), CellCol(cols, j, t), width);
    CellInjective(cols, i, s, j, t);
  }

  /** One tile overwrites its 2×2 block whose first cell is `at`. */
  function TileDrawn(buf: string, at: nat, width: nat, p: PixBuf): (r: string)
    requires at + width + 1 < |buf|
  {
    var cs := Chars(p);
    buf[at := cs[0]][at + 1 := cs[1]][at + width := cs[2]][at + width + 1 := cs[3]]
  }

  /** `q` is one of the four cells of block `n`. */
  predicate InBlock(off: nat, width: nat, cols: nat, n: nat, q: nat)
    requires cols > 0
  {
    || q == Cell(off, width, cols, n, 0) || q == Cell(off, width, cols, n, 1)
    || q == Cell(off, width, cols, n, 2) || q == Cell(off, width, cols, n, 3)
  }

  /** Drawing block `n` puts the tile's glyphs in the block's cells and changes nothing else. */
  lemma TileDrawnShape(buf: string, off: nat, width: nat, cols: nat, n: nat, p: PixBuf)
    requires cols > 0 && width >= STRIDE && BlockOrigin(off, width, cols, n) + width + 1 < |buf|
    ensures |TileDrawn(buf, BlockOrigin(off, width, cols, n), width, p)| == |buf|
    ensures forall s :: 0 <= s < TILE_AREA ==> Cell(off, width, cols, n, s) < |buf|
    ensures forall s :: 0 <= s < TILE_AREA ==>
      TileDrawn(buf, BlockOrigin(off, width, cols, n), width, p)[Cell(off, width, cols, n, s)] == Chars(p)[s]
    ensures forall q :: 0 <= q < |buf| && !InBlock(off, width, cols, n, q) ==>
      TileDrawn(buf, BlockOrigin(off, width, cols, n), width, p)[q] == buf[q]
  {
    CellCorners(off, width, cols, n);
  }

  /** A cell of another block is not in block `n`. */
  lemma OtherBlockApart(off: nat, width: nat, cols: nat, i: nat, s: nat, n: nat)
    requires cols > 0 && STRIDE * cols <= width && s < TILE_AREA && i != n
    ensures !InBlock(off, width, cols, n, Cell(off, width, cols, i, s))
  {
    var q := Cell(off, width, cols, i, s);
    if q == Cell(off, width, cols, n, 0) { CellsDistinct(off, width, cols, i, s, n, 0); }
    if q == Cell(off, width, cols, n, 1) { CellsDistinct(off, width, cols, i, s, n, 1); }
    if q == Cell(off, width, cols, n, 2) { CellsDistinct(off, width, cols, i, s, n, 2); }
    if q == Cell(off, width, cols, n, 3) { CellsDistinct(off, width, cols, i, s, n, 3); }
  }

  /** Every block of a sprite `n` blocks long lies inside a string of `len` characters. */
  predicate BlocksFit(len: nat, off: nat, width: nat, cols: nat, n: nat)
  {
    n == 0 || (cols > 0 && forall i :: 0 <= i < n ==> BlockOrigin(off, width, cols, i) + width + 1 < len)
  }

  /** Every tile drawn in turn onto its own block. */
  function SpriteDrawn(buf: string, tiles: seq<PixBuf>, off: nat, width: nat, cols: nat): (r: string)
    requires BlocksFit(|buf|, off, width, cols, |tiles|)
    ensures |r| == |buf|
    decreases |tiles|
  {
    if tiles == [] then buf
    else
      var n := |tiles| - 1;
      TileDrawn(SpriteDrawn(buf, tiles[..n], off, width, cols), BlockOrigin(off, width, cols, n), width, tiles[n])
  }

  /** Some slot of one of the first `n` blocks is drawn at `q`. */
  ghost predicate IsCell(off: nat, width: nat, cols: nat, n: nat, q: nat)
    requires cols > 0
  {
    exists i, s :: 0 <= i < n && 0 <= s < TILE_AREA && q == Cell(off, width, cols, i, s)
  }

  /** The drawn sprite reads back: every slot of every block holds that tile's glyph. */
  lemma {:induction false} SpriteDrawnReadBack(buf: string, tiles: seq<PixBuf>, off: nat, width: nat, cols: nat)
    requires cols > 0 && STRIDE * cols <= width && BlocksFit(|buf|, off, width, cols, |tiles|)
    ensures forall i, s :: 0 <= i < |tiles| && 0 <= s < TILE_AREA ==>
      && Cell(off, width, cols, i, s) < |buf|
      && SpriteDrawn(buf, tiles, off, width, cols)[Cell(off, width, cols, i, s)] == Chars(tiles[i])[s]
    decreases |tiles|
  {
    if tiles != [] {
      var n := |tiles| - 1;
      var prev := SpriteDrawn(buf, tiles[..n], off, width, cols);
      var r := SpriteDrawn(buf, tiles, off, width, cols);
      assert r == TileDrawn(prev, BlockOrigin(off, width, cols, n), width, tiles[n]);
      SpriteDrawnReadBack(buf, tiles[..n], off, width, cols);
      TileDrawnShape(prev, off, width, cols, n, tiles[n]);
      forall i, s | 0 <= i < |tiles| && 0 <= s < TILE_AREA
        ensures Cell(off, width, cols, i, s) < |buf| && r[Cell(off, width, cols, i, s)] == Chars(tiles[i])[s]
      {
        var q := Cell(off, width, cols, i, s);
        if i < n {
          OtherBlockApart(off, width, cols, i, s, n);
          assert tiles[..n][i] == tiles[i];
          assert q < |buf| && prev[q] == Chars(tiles[i])[s];
          assert r[q] == prev[q];
        } else {
          assert q < |buf| && r[q] == Chars(tiles[n])[s];
        }
      }
    }
  }

  /** Drawing the sprite leaves every character outside its cells as it was. */
  lemma {:induction false} SpriteDrawnElsewhere(buf: string, tiles: seq<PixBuf>, off: nat, width: nat, cols: nat)
    requires cols > 0 && width >= STRIDE && BlocksFit(|buf|, off, width, cols, |tiles|)
    ensures forall q :: 0 <= q < |buf| && !IsCell(off, width, cols, |tiles|, q) ==>
      SpriteDrawn(buf, tiles, off, width, cols)[q] == buf[q]
    decreases |tiles|
  {
    if tiles != [] {
      var n := |tiles| - 1;
      var prev := SpriteDrawn(buf, tiles[..n], off, width, cols);
      SpriteDrawnElsewhere(buf, tiles[..n], off, width, cols);
      TileDrawnShape(prev, off, width, cols, n, tiles[n]);
      forall q | 0 <= q < |buf| && InBlock(off, width, cols, n, q)
        ensures IsCell(off, width, cols, |tiles|, q)
      {
        var s := if q == Cell(off, width, cols, n, 0) then 0
          else if q == Cell(off, width, cols, n, 1) then 1
          else if q == Cell(off, width, cols, n, 2) then 2
          else 3;
        assert q == Cell(off, width, cols, n, s);
      }
      forall q | 0 <= q < |buf| && IsCell(off, width, cols, n, q)
        ensures IsCell(off, width, cols, |tiles|, q)
      {
        var i, s :| 0 <= i < n && 0 <= s < TILE_AREA && q == Cell(off, width, cols, i, s);
        assert 0 <= i < |tiles|;
      }
    }
  }

  /** Two tiles drawn side by side at the start of a grid at least 4 characters wide: the
      first row begins with the top glyphs of the first tile, then those of the second. */
  lemma SideBySide(buf: string, a: PixBuf, b: PixBuf, width: nat)
    requires width >= 4 && |buf| >= width + 4
    ensures BlocksFit(|buf|, 0, width, 2, 2)
    ensures var r := SpriteDrawn(buf, [a, b], 0, width, 2);
      r[0] == Chars(a)[0] && r[1] == Chars(a)[1] && r[2] == Chars(b)[0] && r[3] == Chars(b)[1]
  {
    assert RowStart(0, width) == 0;
    assert BlockOrigin(0, width, 2, 0) == 0 && BlockOrigin(0, width, 2, 1) == 2;
    assert Cell(0, width, 2, 0, 0) == 0 && Cell(0, width, 2, 0, 1) == 1;
    assert Cell(0, width, 2, 1, 0) == 2 && Cell(0, width, 2, 1, 1) == 3;
    SpriteDrawnReadBack(buf, [a, b], 0, width, 2);
  }

  /** The same two tiles as in `SameOffsetStacksTiles`, each drawn onto its own block: the
      grid reads "ABEF" over "CDGH" and keeps its 8 characters. */
  lemma OwnBlocksKeepTiles()
    ensures var r := SpriteDrawn(Spaces(8), [[65, 66, 67, 68], [69, 70, 71, 72]], 0, 4, 2);
      |r| == 8 && r[0] == 'A' && r[1] == 'B' && r[2] == 'E' && r[3] == 'F'
  {
    var a: PixBuf, b: PixBuf := [65, 66, 67, 68], [69, 70, 71, 72];
    SideBySide(Spaces(8), a, b, 4);
    assert Chars(a)[0] == 'A' && Chars(a)[1] == 'B' && Chars(b)[0] == 'E' && Chars(b)[1] == 'F';
  }

  // ------------------------------------------------------------------------------------------
  // From raster to frame: every cell of the sprite sheet shows at its place on screen

  /** A row further down starts at least one whole row further on. */
  lemma RowStartGap(k: nat, n: nat, pitch: nat)
    ensures k < n ==> RowStart(k, pitch) + pitch <= RowStart(n, pitch)
  {
    if k < n {
      RowStartMono(k + 1, n, pitch);
    }
  }

  /** Dividing a position by the row length gives its row and column back. */
  lemma DivUnique(i: nat, cols: nat, a: nat, b: nat)
    requires b < cols && i == RowStart(a, cols) + b
    ensures i / cols == a && i % cols == b
  {
    var q, r := i / cols, i % cols;
    RowStartIsProduct(q, cols);
    assert i == RowStart(q, cols) + r;
    RowStartGap(a, q, cols);
    RowStartGap(q, a, cols);
  }

  /** Rows stacked on rows: `y0` rows then `y` more start where row `y0 + y` does. */
  lemma {:induction false} RowStartAdd(y0: nat, y: nat, width: nat)
    ensures RowStart(y0, width) + RowStart(y, width) == RowStart(y0 + y, width)
  {
    if y > 0 {
      RowStartAdd(y0, y - 1, width);
    }
  }

  /** Raster cell (x, y) is slot `Slot(x, y)` of block `RowStart(y / 2, cols) + x / 2`, and that
      block slot is drawn at row `y`, column `x` of the sprite. */
  lemma CellOfRasterCell(x: nat, y: nat, cols: nat)
    requires x / STRIDE < cols
    ensures CellRow(cols, RowStart(y / STRIDE, cols) + x / STRIDE, Slot(x, y)) == y
    ensures CellCol(cols, RowStart(y / STRIDE, cols) + x / STRIDE, Slot(x, y)) == x
  {
    DivUnique(RowStart(y / STRIDE, cols) + x / STRIDE, cols, y / STRIDE, x / STRIDE);
  }

  /** The slot holding raster cell (x, y) is drawn at row `y`, column `x` counted from `off`. */
  lemma CellAtRasterCell(off: nat, width: nat, cols: nat, x: nat, y: nat)
    requires x / STRIDE < cols
    ensures Slot(x, y) < TILE_AREA
    ensures Cell(off, width, cols, RowStart(y / STRIDE, cols) + x / STRIDE, Slot(x, y)) == off + RowStart(y, width) + x
  {
    CellOfRasterCell(x, y, cols);
  }

  /** The block holding raster cell (x, y) keeps its glyph in slot `Slot(x, y)`. */
  lemma BlockSlot(lines: Raster, cols: nat, rows: nat, x: nat, y: nat)
    requires x / STRIDE < cols && y / STRIDE < rows
    ensures RowStart(y / STRIDE, cols) + x / STRIDE < |Blocks(lines, cols, rows)|
    ensures Blocks(lines, cols, rows)[RowStart(y / STRIDE, cols) + x / STRIDE][Slot(x, y)] == At(lines, y, x)
  {
    BlocksAtOffset(lines, cols, rows, x / STRIDE, y / STRIDE);
    BlocksCount(lines, cols, y / STRIDE);
  }

  /** Character `x` of line `y` of the frame is character `x` of row `y` of the grid. */
  lemma FrameAt(grid: string, width: nat, height: nat, y: nat, x: nat)
    requires y < height && x < width && RowStart(height, width) <= |grid|
    ensures RowStart(y, width + 1) + x < |Frame(grid, width, height)|
    ensures RowStart(y, width) + x < |grid|
    ensures Frame(grid, width, height)[RowStart(y, width + 1) + x] == grid[RowStart(y, width) + x]
  {
    FrameRow(grid, width, height, y);
    var start := RowStart(y, width + 1);
    assert Frame(grid, width, height)[start..start + width][x] == Frame(grid, width, height)[start + x];
  }

  /** The tiles of the resolved ids hold the blocks, in order, while the atlas stays below the
      id limit. */
  lemma ResolvedGlyphs(a: Atlas, cs: seq<PixBuf>)
    requires WellFormed(a) && |ResolveAll(a, cs).1| < IDENT_LIMIT
    ensures forall i :: 0 <= i < |ResolveAll(a, cs).0| ==> ResolveAll(a, cs).0[i] in ResolveAll(a, cs).1
    ensures TileGlyphs(ResolveAll(a, cs).1, ResolveAll(a, cs).0) == cs
  {
    ResolveAllIdsStored(a, cs);
    ResolveAllContent(a, cs);
  }

  /** The blocks of a raster drawn onto their own blocks of a grid from `off` show raster cell
      (x, y) at row `y`, column `x` counted from `off`. */
  lemma RasterCellDrawn(lines: Raster, cols: nat, rows: nat, buf: string, off: nat, width: nat, x: nat, y: nat)
    requires cols > 0 && STRIDE * cols <= width && x < STRIDE * cols && y < STRIDE * rows
    requires BlocksFit(|buf|, off, width, cols, |Blocks(lines, cols, rows)|)
    ensures off + RowStart(y, width) + x < |buf|
    ensures SpriteDrawn(buf, Blocks(lines, cols, rows), off, width, cols)[off + RowStart(y, width) + x]
            == At(lines, y, x) as char
  {
    var tiles := Blocks(lines, cols, rows);
    var i, s := RowStart(y / STRIDE, cols) + x / STRIDE, Slot(x, y);
    BlockSlot(lines, cols, rows, x, y);
    assert Chars(tiles[i])[s] as int == At(lines, y, x);
    CellAtRasterCell(off, width, cols, x, y);
    SpriteDrawnReadBack(buf, tiles, off, width, cols);
  }

  /** One cell of the raster drawn at column `x_pos` of row `y_pos` and broken into lines. */
  lemma RasterCellShown(lines: Raster, cols: nat, rows: nat, buf: string, off: nat, x_pos: nat, y_pos: nat,
                        width: nat, height: nat, x: nat, y: nat)
    requires cols > 0 && x_pos + STRIDE * cols <= width && y_pos + STRIDE * rows <= height
    requires x < STRIDE * cols && y < STRIDE * rows && RowStart(height, width) <= |buf|
    requires off == RowStart(y_pos, width) + x_pos
    requires BlocksFit(|buf|, off, width, cols, |Blocks(lines, cols, rows)|)
    ensures RowStart(y_pos + y, width + 1) + x_pos + x
            < |Frame(SpriteDrawn(buf, Blocks(lines, cols, rows), off, width, cols), width, height)|
    ensures Frame(SpriteDrawn(buf, Blocks(lines, cols, rows), off, width, cols), width, height)
              [RowStart(y_pos + y, width + 1) + x_pos + x]
            == At(lines, y, x) as char
  {
    var grid := SpriteDrawn(buf, Blocks(lines, cols, rows), off, width, cols);
    RasterCellDrawn(lines, cols, rows, buf, off, width, x, y);
    FrameShift(grid, width, height, x_pos, y_pos, x, y);
  }

  /** Character `x` of line `y` of a sprite placed at column `x_pos` of row `y_pos`, in the frame
      and in the grid. */
  lemma FrameShift(grid: string, width: nat, height: nat, x_pos: nat, y_pos: nat, x: nat, y: nat)
    requires y_pos + y < height && x_pos + x < width && RowStart(height, width) <= |grid|
    ensures RowStart(y_pos + y, width + 1) + x_pos + x < |Frame(grid, width, height)|
    ensures RowStart(y_pos, width) + x_pos + RowStart(y, width) + x < |grid|
    ensures Frame(grid, width, height)[RowStart(y_pos + y, width + 1) + x_pos + x]
            == grid[RowStart(y_pos, width) + x_pos + RowStart(y, width) + x]
  {
    RowStartAdd(y_pos, y, width);
    FrameAt(grid, width, height, y_pos + y, x_pos + x);
  }

  /** `frame` shows every cell (x, y) of a `w`×`h` raster at column `x_pos + x` of line
      `y_pos + y`, lines being `width` glyphs and a newline long. */
  ghost predicate ShowsRaster(frame: string, lines: Raster, w: nat, h: nat, x_pos: nat, y_pos: nat, width: nat)
  {
    forall y, x :: 0 <= y < h && 0 <= x < w ==> ShowsCell(frame, lines, x_pos, y_pos, width, y, x)
  }

  /** `frame` shows raster cell (x, y) at column `x_pos + x` of line `y_pos + y`. */
  ghost predicate ShowsCell(frame: string, lines: Raster, x_pos: nat, y_pos: nat, width: nat, y: nat, x: nat)
  {
    && RowStart(y_pos + y, width + 1) + x_pos + x < |frame|
    && frame[RowStart(y_pos + y, width + 1) + x_pos + x] == At(lines, y, x) as char
  }

  /** Block `i` of a sprite `cols` blocks wide and `rows` blocks high lies in block row
      `i / cols < rows` and block column `i % cols < cols`. */
  lemma BlockIndexSplit(cols: nat, rows: nat, i: nat) returns (b: nat, c: nat)
    requires cols > 0 && i < RowStart(rows, cols)
    ensures b == i / cols < rows && c == i % cols < cols
  {
    RowStartIsProduct(rows, cols);
    b, c := i / cols, i % cols;
    assert b * cols <= i;
    MulMono(rows, b, cols);
  }

  lemma MulMono(a: nat, b: nat, c: nat)
    ensures a <= b ==> a * c <= b * c
  {
  }

  /** The block at block row `b`, block column `c` of a sprite placed at column `x_pos` of row
      `y_pos` ends inside a grid of `height` rows of `width` glyphs when the sprite lies on it. */
  lemma BlockOnScreen(x_pos: nat, y_pos: nat, width: nat, height: nat, cols: nat, rows: nat, b: nat, c: nat)
    requires b < rows && c < cols
    requires x_pos + STRIDE * cols <= width && y_pos + STRIDE * rows <= height
    ensures RowStart(y_pos, width) + x_pos + RowStart(STRIDE * b, width) + STRIDE * c + width + 1
            < RowStart(height, width)
  {
    RowStartAdd(y_pos, STRIDE * b, width);
    assert RowStart(y_pos + STRIDE * b + 2, width) == RowStart(y_pos + STRIDE * b, width) + width + width;
    RowStartMono(y_pos + STRIDE * b + 2, height, width);
  }

  /** A sprite with even dimensions and one tile per block (`n` of them) that lies on a screen
      of `height` lines of `width` glyphs and their newlines: every one of its blocks fits in a
      buffer of `capacity` characters, so the corrected drawing does not panic. */
  lemma SpriteOnScreenFits(n: nat, w: nat, h: nat, x_pos: nat, y_pos: nat, width: nat, height: nat,
                           capacity: nat)
    requires w % STRIDE == 0 && h % STRIDE == 0 && n == (h / STRIDE) * (w / STRIDE)
    requires x_pos + w <= width && y_pos + h <= height && RowStart(height, width + 1) <= capacity
    ensures BlocksFit(capacity, SpriteOffset(x_pos, y_pos, width), width, w / STRIDE, n)
  {
    var cols, rows := w / STRIDE, h / STRIDE;
    RowStartIsProduct(rows, cols);
    var off := SpriteOffset(x_pos, y_pos, width);
    RowStartIsProduct(y_pos, width);
    assert off == RowStart(y_pos, width) + x_pos;
    RowStartWiden(height, width);
    assert RowStart(height, width) <= capacity;
    if cols > 0 {
      forall i | 0 <= i < RowStart(rows, cols)
        ensures BlockOrigin(off, width, cols, i) + width + 1 < capacity
      {
        var b, c := BlockIndexSplit(cols, rows, i);
        BlockOnScreen(x_pos, y_pos, width, height, cols, rows, b, c);
      }
    } else {
      RowStartIsProduct(rows, cols);
    }
  }

  /** The blocks of a raster with even dimensions, drawn onto their own blocks of a blank grid at
      column `x_pos` of row `y_pos` and broken into lines, show raster cell (x, y) at column
      `x_pos + x` of line `y_pos + y`. */
  lemma RasterShowsThrough(lines: Raster, w: nat, h: nat, x_pos: nat, y_pos: nat, width: nat, height: nat,
                           capacity: nat)
    requires w % STRIDE == 0 && h % STRIDE == 0
    requires x_pos + w <= width && y_pos + h <= height && RowStart(height, width + 1) <= capacity
    ensures RowStart(height, width) <= capacity
    ensures BlocksFit(capacity, SpriteOffset(x_pos, y_pos, width), width, w / STRIDE,
                      |Blocks(lines, w / STRIDE, h / STRIDE)|)
    ensures ShowsRaster(Frame(SpriteDrawn(Spaces(capacity), Blocks(lines, w / STRIDE, h / STRIDE),
                                          SpriteOffset(x_pos, y_pos, width), width, w / STRIDE), width, height),
                        lines, w, h, x_pos, y_pos, width)
  {
    BlocksLength(lines, w / STRIDE, h / STRIDE);
    SpriteOnScreenFits(|Blocks(lines, w / STRIDE, h / STRIDE)|, w, h, x_pos, y_pos, width, height, capacity);
    FittingRasterShows(lines, w, h, x_pos, y_pos, width, height, capacity);
  }

  /** `RasterShowsThrough` once the blocks are known to fit. */
  lemma FittingRasterShows(lines: Raster, w: nat, h: nat, x_pos: nat, y_pos: nat, width: nat, height: nat,
                           capacity: nat)
    requires w % STRIDE == 0 && h % STRIDE == 0
    requires x_pos + w <= width && y_pos + h <= height && RowStart(height, width + 1) <= capacity
    requires BlocksFit(capacity, SpriteOffset(x_pos, y_pos, width), width, w / STRIDE,
                       |Blocks(lines, w / STRIDE, h / STRIDE)|)
    ensures RowStart(height, width) <= capacity
    ensures ShowsRaster(Frame(SpriteDrawn(Spaces(capacity), Blocks(lines, w / STRIDE, h / STRIDE),
                                          SpriteOffset(x_pos, y_pos, width), width, w / STRIDE), width, height),
                        lines, w, h, x_pos, y_pos, width)
  {
    RowStartWiden(height, width);
    var cols, rows := w / STRIDE, h / STRIDE;
    assert STRIDE * cols == w && STRIDE * rows == h;
    var off := SpriteOffset(x_pos, y_pos, width);
    RowStartIsProduct(y_pos, width);
    var frame := Frame(SpriteDrawn(Spaces(capacity), Blocks(lines, cols, rows), off, width, cols), width, height);
    if cols > 0 {
      forall y, x | 0 <= y < h && 0 <= x < w
        ensures ShowsCell(frame, lines, x_pos, y_pos, width, y, x)
      {
        RasterCellShown(lines, cols, rows, Spaces(capacity), off, x_pos, y_pos, width, height, x, y);
      }
    } else {
      assert w == 0;
    }
    assert ShowsRaster(frame, lines, w, h, x_pos, y_pos, width);
  }

  /** Composition of `NewSpriteCorrected` and `DrawFrame` as `RenderFrame` states it: a `w`×`h`
      raster that lies on the screen resolves to ids that are all stored and whose blocks all
      fit, so the frame is drawn, and that frame shows the raster cell for cell, while the atlas
      stays below the id limit. */
  lemma SpriteShowsRaster(atlas0: Atlas, lines: Raster, w: nat, h: nat, ids: seq<Ident>, atlas: Atlas,
                          x_pos: nat, y_pos: nat, width: nat, height: nat, capacity: nat)
    requires w % STRIDE == 0 && h % STRIDE == 0
    requires WellFormed(atlas0) && |atlas| < IDENT_LIMIT
    requires (ids, atlas) == ResolveAll(atlas0, Blocks(lines, w / STRIDE, h / STRIDE))
    requires x_pos + w <= width && y_pos + h <= height && RowStart(height, width + 1) <= capacity
    ensures RowStart(height, width) <= capacity && forall i :: 0 <= i < |ids| ==> ids[i] in atlas
    ensures BlocksFit(capacity, SpriteOffset(x_pos, y_pos, width), width, w / STRIDE, |ids|)
    ensures ShowsRaster(Frame(SpriteDrawn(Spaces(capacity), TileGlyphs(atlas, ids), SpriteOffset(x_pos, y_pos, width),
                                          width, w / STRIDE), width, height),
                        lines, w, h, x_pos, y_pos, width)
  {
    var blocks := Blocks(lines, w / STRIDE, h / STRIDE);
    ResolvedGlyphs(atlas0, blocks);
    assert |ids| == |blocks|;
    RasterShowsThrough(lines, w, h, x_pos, y_pos, width, height, capacity);
  }

  // ------------------------------------------------------------------------------------------
  // Loop steps, with the arithmetic kept out of the loops

  /** Line `j` ends below the end of line `height` exactly when `j` comes before `height`. */
  lemma LineEndBelow(j: nat, height: nat, width: nat)
    requires j <= height
    ensures RowStart(j, width + 1) + width < RowStart(height, width + 1) <==> j < height
  {
    if j < height {
      RowStartMono(j + 1, height, width + 1);
    }
  }

  /** The buffer once its first `j` rows are broken into lines. */
  function Broken(grid: string, width: nat, j: nat): string
    requires RowStart(j, width) <= |grid|
  {
    Rows(grid, width, j) + grid[RowStart(j, width)..]
  }

  /** One pass of the newline loop: while `idx` is below the screen area it ends line `j`
      of the grid, a line that exists, and inserting the newline there breaks line `j`. */
  lemma BreakNext(grid: string, width: nat, j: nat, height: nat, idx: nat, screen_area: nat)
    requires j <= height && idx == RowStart(j, width + 1) + width && idx < screen_area
    requires screen_area == RowStart(height, width + 1) <= |grid|
    ensures j < height && RowStart(j + 1, width) <= |grid|
    ensures idx <= |Broken(grid, width, j)|
    ensures InsertAt(Broken(grid, width, j), idx, '\n') == Broken(grid, width, j + 1)
    ensures idx + width + 1 == RowStart(j + 1, width + 1) + width
  {
    LineEndBelow(j, height, width);
    BreakStep(grid, width, j, height);
  }

  /** Breaking line `j` of a buffer that holds every line. */
  lemma BreakStep(grid: string, width: nat, j: nat, height: nat)
    requires j < height && RowStart(height, width + 1) <= |grid|
    ensures RowStart(j, width) <= |grid| && RowStart(j + 1, width) <= |grid|
    ensures RowStart(j, width + 1) + width <= |Broken(grid, width, j)|
    ensures InsertAt(Broken(grid, width, j), RowStart(j, width + 1) + width, '\n') == Broken(grid, width, j + 1)
  {
    RowStartWiden(j + 1, width);
    RowStartMono(j + 1, height, width + 1);
    RowBreak(grid, width, j);
  }

  /** `(width + 1) * height`: room for every row and its newline. */
  method ScreenArea(width: nat, height: nat) returns (area: nat)
    ensures area == RowStart(height, width + 1)
  {
    RowStartIsProduct(height, width + 1);
    area := (width + 1) * height;
  }

  /** The first cell of block `i`, computed as `off + (i / cols) * STRIDE * width + (i % cols) * STRIDE`. */
  method BlockAt(off: nat, width: nat, cols: nat, i: nat) returns (at: nat)
    requires cols > 0
    ensures at == BlockOrigin(off, width, cols, i)
  {
    RowStartIsProduct(STRIDE * (i / cols), width);
    at := off + (i / cols) * STRIDE * width + (i % cols) * STRIDE;
  }

  /** The blocks before `k` fit, and so does block `k`: the blocks up to `k` fit. */
  lemma BlocksFitStep(len: nat, off: nat, width: nat, cols: nat, k: nat)
    requires cols > 0 && BlocksFit(len, off, width, cols, k) && BlockOrigin(off, width, cols, k) + width + 1 < len
    ensures BlocksFit(len, off, width, cols, k + 1)
  {
  }

  /** Where the sprite's first glyph goes: row `y_pos`, column `x_pos` of the grid. */
  function SpriteOffset(x_pos: nat, y_pos: nat, width: nat): nat
  {
    y_pos * width + x_pos
  }

  // ------------------------------------------------------------------------------------------
  // The window

  class Window {
    const height: nat
    const width: nat
    var color_buf: seq<Color>
    var pix_buf: string

    /** `Window::default`: an 80×25 window with empty buffers. */
    constructor ()
      ensures height == 25 && width == 80 && color_buf == [] && pix_buf == []
    {
      height := 25;
      width := 80;
      color_buf := [];
      pix_buf := [];
    }

    /** The buffer part of `clear`: both buffers are emptied; the size is kept. */
    method Clear()
      modifies this`color_buf, this`pix_buf
      ensures color_buf == [] && pix_buf == []
    {
      color_buf := [];
      pix_buf := [];
    }

    /** Spaces are pushed until the buffer holds `capacity` characters. */
    method FillSpaces(capacity: nat)
      requires |pix_buf| <= capacity
      modifies this`pix_buf
      ensures pix_buf == old(pix_buf) + Spaces(capacity - |old(pix_buf)|)
    {
      while |pix_buf| != capacity
        invariant |old(pix_buf)| <= |pix_buf| <= capacity
        invariant pix_buf == old(pix_buf) + Spaces(|pix_buf| - |old(pix_buf)|)
        decreases capacity - |pix_buf|
      {
        pix_buf := pix_buf + [' '];
      }
    }

    /** The body of the glyph loop as written: one tile's four inserts. */
    method InsertTile(p: PixBuf, sprite_offset: nat)
      requires InsertsFit(|pix_buf|, sprite_offset, width)
      modifies this`pix_buf
      ensures pix_buf == TileInserted(old(pix_buf), sprite_offset, width, p)
    {
      var pixel := p[0];
      pix_buf := InsertAt(pix_buf, sprite_offset, pixel as char);
      pixel := p[1];
      pix_buf := InsertAt(pix_buf, sprite_offset + 1, pixel as char);
      pixel := p[2];
      pix_buf := InsertAt(pix_buf, sprite_offset + width, pixel as char);
      pixel := p[3];
      pix_buf := InsertAt(pix_buf, sprite_offset + width + 1, pixel as char);
    }

    /** The glyph loop as written: the four glyphs of every tile are inserted at the same
        offset. It panics in the first tile when an insert would land past the end. */
    method InsertTiles(atlas: Atlas, tile_ids: seq<Ident>, sprite_offset: nat) returns (r: Result<(), Panic>)
      requires forall i :: 0 <= i < |tile_ids| ==> tile_ids[i] in atlas
      modifies this`pix_buf
      ensures r.Ok? <==> tile_ids == [] || InsertsFit(|old(pix_buf)|, sprite_offset, width)
      ensures r.Err? ==> r.error == Message(NOT_CHAR_BOUNDARY)
      ensures r.Ok? ==> pix_buf == TilesInserted(old(pix_buf), TileGlyphs(atlas, tile_ids), sprite_offset, width)
    {
      ghost var tiles := TileGlyphs(atlas, tile_ids);
      var k := 0;
      while k < |tile_ids|
        invariant 0 <= k <= |tile_ids| && |old(pix_buf)| <= |pix_buf|
        invariant k == 0 || InsertsFit(|old(pix_buf)|, sprite_offset, width)
        invariant pix_buf == TilesInserted(old(pix_buf), tiles[..k], sprite_offset, width)
      {
        if !InsertsFit(|pix_buf|, sprite_offset, width) {
          return Err(Message(NOT_CHAR_BOUNDARY));
        }
        InsertTile(atlas[tile_ids[k]].pix_buf, sprite_offset);
        assert tiles[..k + 1][..k] == tiles[..k];
        k := k + 1;
      }
      assert tiles[..k] == tiles;
      r := Ok(());
    }

    /** The newline loop as written: a newline is inserted at each index of
        `(width..screen_area).step_by(width)`, which panics when `width` is 0. Each
        newline lands at its own index. */
    method InsertNewlines(screen_area: nat) returns (r: Result<(), Panic>)
      requires screen_area <= |pix_buf|
      modifies this`pix_buf
      ensures width == 0 ==> r == Err(Message(ZERO_STEP)) && pix_buf == old(pix_buf)
      ensures width > 0 ==> r.Ok? && pix_buf == InsertEach(old(pix_buf), StepBy(width, screen_area, width), '\n')
      ensures width > 0 ==> forall k :: 0 <= k < |StepBy(width, screen_area, width)| ==>
        pix_buf[StepBy(width, screen_area, width)[k]] == '\n'
    {
      var w, buf := width, pix_buf;
      if w == 0 {
        return Err(Message(ZERO_STEP));
      }
      ghost var all := StepBy(w, screen_area, w);
      var idx := w;
      while idx < screen_area
        invariant |old(pix_buf)| <= |buf|
        invariant InsertEach(buf, StepBy(idx, screen_area, w), '\n') == InsertEach(old(pix_buf), all, '\n')
        decreases screen_area - idx
      {
        var rest := StepBy(idx + w, screen_area, w);
        assert StepBy(idx, screen_area, w) == [idx] + rest;
        assert ([idx] + rest)[1..] == rest;
        buf := InsertAt(buf, idx, '\n');
        idx := idx + w;
      }
      InsertEachLands(old(pix_buf), all, '\n');
      pix_buf := buf;
      r := Ok(());
    }

    /** The glyph loop corrected: each tile overwrites its own 2×2 block, blocks laid out
        `cols` to a row. It panics at the first block that does not fit in the buffer. */
    method DrawSprite(atlas: Atlas, tile_ids: seq<Ident>, sprite_offset: nat, cols: nat) returns (r: Result<(), Panic>)
      requires forall i :: 0 <= i < |tile_ids| ==> tile_ids[i] in atlas
      requires tile_ids == [] || cols > 0
      modifies this`pix_buf
      ensures |pix_buf| == |old(pix_buf)|
      ensures r.Ok? <==> BlocksFit(|old(pix_buf)|, sprite_offset, width, cols, |tile_ids|)
      ensures r.Err? ==> r.error == IndexOutOfBounds
      ensures r.Ok? ==> pix_buf == SpriteDrawn(old(pix_buf), TileGlyphs(atlas, tile_ids), sprite_offset, width, cols)
    {
      ghost var tiles := TileGlyphs(atlas, tile_ids);
      var w, buf := width, pix_buf;
      var k := 0;
      while k < |tile_ids|
        invariant 0 <= k <= |tile_ids| && |buf| == |old(pix_buf)|
        invariant BlocksFit(|old(pix_buf)|, sprite_offset, w, cols, k)
        invariant buf == SpriteDrawn(old(pix_buf), tiles[..k], sprite_offset, w, cols)
      {
        var at := BlockAt(sprite_offset, w, cols, k);
        if at + w + 1 >= |buf| {
          pix_buf := buf;
          return Err(IndexOutOfBounds);
        }
        var tile_id := tile_ids[k];
        var pixel := atlas[tile_id].pix_buf[0];
        buf := buf[at := pixel as char];
        pixel := atlas[tile_id].pix_buf[1];
        buf := buf[at + 1 := pixel as char];
        pixel := atlas[tile_id].pix_buf[2];
        buf := buf[at + w := pixel as char];
        pixel := atlas[tile_id].pix_buf[3];
        buf := buf[at + w + 1 := pixel as char];
        BlocksFitStep(|old(pix_buf)|, sprite_offset, w, cols, k);
        assert tiles[..k + 1][..k] == tiles[..k];
        k := k + 1;
      }
      assert tiles[..k] == tiles;
      pix_buf := buf;
      r := Ok(());
    }

    /** The newline loop corrected: a newline is inserted at each index of
        `(width..screen_area).step_by(width + 1)`, so that every line holds one row of the
        grid. */
    method BreakLines()
      requires RowStart(height, width + 1) <= |pix_buf|
      modifies this`pix_buf
      ensures RowStart(height, width) <= |old(pix_buf)|
      ensures pix_buf == Frame(old(pix_buf), width, height)
    {
      var w, h := width, height;
      RowStartWiden(h, w);
      var screen_area := ScreenArea(w, h);
      var buf := pix_buf;
      ghost var grid := buf;
      ghost var j := 0;
      assert Broken(grid, w, 0) == grid;
      var idx := w;
      while idx < screen_area
        invariant j <= h && idx == RowStart(j, w + 1) + w
        invariant RowStart(j, w) <= |grid|
        invariant buf == Broken(grid, w, j)
        decreases h - j
      {
        BreakNext(grid, w, j, h, idx, screen_area);
        buf := InsertAt(buf, idx, '\n');
        idx := idx + w + 1;
        j := j + 1;
      }
      LineEndBelow(j, h, w);
      pix_buf := buf;
    }

    /** The drawing part of `render_frame`, on an empty buffer, with the glyph and newline
        loops corrected: spaces up to `capacity`, each tile on its own block, then a newline
        after every row. */
    method DrawFrame(atlas: Atlas, tile_ids: seq<Ident>, sprite_offset: nat, cols: nat, capacity: nat)
      returns (r: Result<(), Panic>)
      requires pix_buf == [] && RowStart(height, width + 1) <= capacity
      requires forall i :: 0 <= i < |tile_ids| ==> tile_ids[i] in atlas
      requires tile_ids == [] || cols > 0
      modifies this`pix_buf
      ensures r.Ok? <==> BlocksFit(capacity, sprite_offset, width, cols, |tile_ids|)
      ensures r.Err? ==> r.error == IndexOutOfBounds
      ensures r.Ok? ==>
        && RowStart(height, width) <= capacity
        && pix_buf == Frame(SpriteDrawn(Spaces(capacity), TileGlyphs(atlas, tile_ids), sprite_offset, width, cols), width, height)
    {
      RowStartWiden(height, width);
      FillSpaces(capacity);
      assert pix_buf == Spaces(capacity);
      r := DrawSprite(atlas, tile_ids, sprite_offset, cols);
      if r.Ok? {
        BreakLines();
      }
    }

    /** The drawing part of `render_frame` for a built sprite at column `x_pos` of row `y_pos`:
        the frame is drawn exactly when every block fits, and every block fits when the sprite
        lies on the screen. */
    method DrawSpriteAt(atlas: Atlas, s: Sprite, x_pos: nat, y_pos: nat, capacity: nat)
      returns (r: Result<(), Panic>)
      requires pix_buf == [] && RowStart(height, width + 1) <= capacity
      requires forall i :: 0 <= i < |s.tile_ids| ==> s.tile_ids[i] in atlas
      requires s.width % STRIDE == 0 && s.height % STRIDE == 0
      requires |s.tile_ids| == (s.height / STRIDE) * (s.width / STRIDE)
      modifies this`pix_buf
      ensures r.Ok? <==> BlocksFit(capacity, SpriteOffset(x_pos, y_pos, width), width, s.width / STRIDE, |s.tile_ids|)
      ensures r.Err? ==> r.error == IndexOutOfBounds
      ensures x_pos + s.width <= width && y_pos + s.height <= height ==> r.Ok?
      ensures r.Ok? ==>
        && RowStart(height, width) <= capacity
        && pix_buf == Frame(SpriteDrawn(Spaces(capacity), TileGlyphs(atlas, s.tile_ids), SpriteOffset(x_pos, y_pos, width),
                                        width, s.width / STRIDE), width, height)
    {
      var cols := s.width / STRIDE;
      if cols == 0 {
        assert |s.tile_ids| == (s.height / STRIDE) * 0 == 0;
      }
      if x_pos + s.width <= width && y_pos + s.height <= height {
        SpriteOnScreenFits(|s.tile_ids|, s.width, s.height, x_pos, y_pos, width, height, capacity);
      }
      r := DrawFrame(atlas, s.tile_ids, SpriteOffset(x_pos, y_pos, width), cols, capacity);
    }

    /** `render_frame`, with the glyph and newline loops corrected: the buffers are
        cleared, the sprite is built from `lines` (which grows the atlas), the character
        buffer is filled with spaces up to its `capacity` (at least the screen area after
        `reserve_exact`), the sprite is drawn block by block at `y_pos * width + x_pos`, and
        the grid is broken into `height` lines of `width` glyphs. */
    method RenderFrame(game: Game, lines: Raster, x_pos: nat, y_pos: nat, capacity: nat)
      returns (r: Result<(), Panic>, ghost sprite: Result<Sprite, Panic>)
      requires game.Valid() && RowStart(height, width + 1) <= capacity
      modifies this`color_buf, this`pix_buf, game`tile_atlas
      ensures game.Valid() && color_buf == []
      ensures lines == [] ==> sprite == Err(IndexOutOfBounds)
      ensures lines != [] ==>
        (sprite.Ok? <==> |lines[0]| % STRIDE == 0 && |lines| % STRIDE == 0 && CellsReadable(lines, |lines[0]|, |lines|))
      ensures sprite.Err? ==> r == Err(sprite.error)
      ensures sprite.Ok? ==>
        && sprite.value.width == |lines[0]| && sprite.value.height == |lines|
        && (sprite.value.tile_ids, game.tile_atlas)
           == ResolveAll(old(game.tile_atlas), Blocks(lines, sprite.value.width / STRIDE, sprite.value.height / STRIDE))
        && (forall i :: 0 <= i < |sprite.value.tile_ids| ==> sprite.value.tile_ids[i] in game.tile_atlas)
        && (r.Ok? <==> BlocksFit(capacity, SpriteOffset(x_pos, y_pos, width), width, sprite.value.width / STRIDE, |sprite.value.tile_ids|))
        && (r.Err? ==> r.error == IndexOutOfBounds)
        && (x_pos + sprite.value.width <= width && y_pos + sprite.value.height <= height ==> r.Ok?)
        && (r.Ok? ==>
              && RowStart(height, width) <= capacity
              && pix_buf == Frame(SpriteDrawn(Spaces(capacity), TileGlyphs(game.tile_atlas, sprite.value.tile_ids),
                                              SpriteOffset(x_pos, y_pos, width), width, sprite.value.width / STRIDE), width, height))
    {
      Clear();
      var built := NewSpriteCorrected(game, lines, 255);
      sprite := built;
      if built.Err? {
        return Err(built.error), sprite;
      }
      var s := built.value;
      ResolveAllIdsStored(old(game.tile_atlas), Blocks(lines, s.width / STRIDE, s.height / STRIDE));
      r := DrawSpriteAt(game.tile_atlas, s, x_pos, y_pos, capacity);
    }
  }
}
