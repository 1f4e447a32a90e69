/** The game object and its tile atlas: identifiers mapped to tiles, shared by every sprite. */
module Games {
  import opened AsciiBros
  import opened Tiles
  import opened Text

  /** `HashMap<Ident, Tile>`. */
  type Atlas = map<Ident, Tile>

  /** Ids are exactly 0 .. |a|-1. */
  ghost predicate DenseIds(a: Atlas)
  {
    forall k: Ident :: k in a <==> k < |a|
  }

  /** Every tile is stored under its own id. */
  ghost predicate KeyedById(a: Atlas)
  {
    forall k :: k in a ==> a[k].id == k
  }

  /** No two ids hold the same glyphs. */
  ghost predicate NoDuplicateContent(a: Atlas)
  {
    forall k1, k2 :: k1 in a && k2 in a && a[k1].pix_buf == a[k2].pix_buf ==> k1 == k2
  }

  /** The invariant the rasteriser keeps on the atlas. */
  ghost predicate WellFormed(a: Atlas)
  {
    |a| <= IDENT_LIMIT && DenseIds(a) && KeyedById(a) && NoDuplicateContent(a)
  }

  /** Some stored tile holds exactly the glyphs `p`. */
  ghost predicate HasContent(a: Atlas, p: PixBuf)
  {
    exists k :: k in a && a[k].pix_buf == p
  }

  predicate IsLeast(m: Ident, s: set<Ident>)
  {
    m in s && forall y :: y in s ==> m <= y
  }

  lemma {:induction false} HasMinimum(s: set<Ident>)
    requires s != {}
    ensures exists m :: IsLeast(m, s)
  {
    var x :| x in s;
    var rest := s - {x};
    if rest == {} {
      assert s == {x};
      assert IsLeast(x, s);
    } else {
      HasMinimum(rest);
      var m :| IsLeast(m, rest);
      assert s == rest + {x};
      if x < m {
        assert IsLeast(x, s);
      } else {
        assert IsLeast(m, s);
      }
    }
  }

  /** The least element of a non-empty set of ids. */
  function Minimum(s: set<Ident>): (m: Ident)
    requires s != {}
    ensures m in s && forall y :: y in s ==> m <= y
  {
    HasMinimum(s);
    var m :| IsLeast(m, s); m
  }

  /** `keys().sorted()`: the ids of `s` in ascending order, each once. */
  function SortedKeys(s: set<Ident>): (r: seq<Ident>)
    ensures |r| == |s|
    ensures forall k :: k in s <==> k in r
    ensures forall i, j :: 0 <= i < j < |r| ==> r[i] < r[j]
    decreases |s|
  {
    if s == {} then [] else
      var m := Minimum(s);
      [m] + SortedKeys(s - {m})
  }

  /** A linear scan of the tiles stored under `keys`, stopping at the first whose glyphs are `p`. */
  function ScanFor(a: Atlas, keys: seq<Ident>, p: PixBuf): (r: bool)
    requires forall i :: 0 <= i < |keys| ==> keys[i] in a
    ensures r <==> exists i :: 0 <= i < |keys| && a[keys[i]].pix_buf == p
  {
    if keys == [] then false
    else if a[keys[0]].pix_buf == p then true
    else
      var r := ScanFor(a, keys[1..], p);
      assert forall i :: 1 <= i < |keys| ==> keys[i] == keys[1..][i - 1];
      r
  }

  /** `{:?}` of `f.debug_struct("Game").field("next_tile_id", ..).finish()`. */
  function DebugHeader(next_tile_id: Ident): string
  {
    "Game { next_tile_id: " + Decimal(next_tile_id) + " }"
  }

  /** A tile's glyph bytes as characters (`pixel as char`). */
  function Chars(p: PixBuf): (cs: seq<char>)
    ensures |cs| == TILE_AREA && forall i :: 0 <= i < TILE_AREA ==> cs[i] as int == p[i]
  {
    [p[0] as char, p[1] as char, p[2] as char, p[3] as char]
  }

  /** One listed atlas entry: `{:<2} [` of the key, the glyphs separated by `", "`, then `]`. */
  function Entry(key: Ident, t: Tile): string
  {
    LeftAligned(Decimal(key), 2) + " [" + Joined(Chars(t.pix_buf), TILE_AREA) + "]"
  }

  /** What `impl Debug for Game` has written once it has listed the tiles stored under
      `keys`: the header, then one entry per key, in that order. */
  function Written(next_tile_id: Ident, a: Atlas, keys: seq<Ident>): string
    requires forall i :: 0 <= i < |keys| ==> keys[i] in a
  {
    if keys == [] then DebugHeader(next_tile_id)
    else Written(next_tile_id, a, keys[..|keys| - 1]) + Entry(keys[|keys| - 1], a[keys[|keys| - 1]])
  }

  /** Writing the entry of key `n` extends what was written for the keys before it. */
  lemma WrittenStep(next_tile_id: Ident, a: Atlas, keys: seq<Ident>, n: nat, before: string, entry: string)
    requires n < |keys| && forall i :: 0 <= i < |keys| ==> keys[i] in a
    requires before == Written(next_tile_id, a, keys[..n]) && entry == Entry(keys[n], a[keys[n]])
    ensures before + entry == Written(next_tile_id, a, keys[..n + 1])
  {
    assert keys[..n + 1][..n] == keys[..n];
  }

  /** Everything `impl Debug for Game` writes to the formatter. */
  function DebugText(next_tile_id: Ident, a: Atlas): string
  {
    Written(next_tile_id, a, SortedKeys(a.Keys))
  }

  /** The width of the key field: the key's digits, padded to at least two characters. */
  function FieldWidth(key: Ident): nat
  {
    if |Decimal(key)| >= 2 then |Decimal(key)| else 2
  }

  /** An entry is the key's digits padded to a field of two, then `" ["`, the four glyphs at
      every third position with `", "` between them and none after the last, then `"]"`. */
  lemma EntryShape(key: Ident, t: Tile)
    ensures |Entry(key, t)| == FieldWidth(key) + 2 + 10 + 1
    ensures Entry(key, t)[..|Decimal(key)|] == Decimal(key)
    ensures forall i :: |Decimal(key)| <= i < FieldWidth(key) ==> Entry(key, t)[i] == ' '
    ensures Entry(key, t)[FieldWidth(key)] == ' ' && Entry(key, t)[FieldWidth(key) + 1] == '['
    ensures forall j :: 0 <= j < TILE_AREA ==> Entry(key, t)[FieldWidth(key) + 2 + 3 * j] as int == t.pix_buf[j]
    ensures forall j :: 0 <= j < TILE_AREA - 1 ==>
      Entry(key, t)[FieldWidth(key) + 3 + 3 * j] == ',' && Entry(key, t)[FieldWidth(key) + 4 + 3 * j] == ' '
    ensures Entry(key, t)[FieldWidth(key) + 12] == ']'
  {
    var d := Decimal(key);
    var field := LeftAligned(d, 2);
    var cs := Chars(t.pix_buf);
    var g := Joined(cs, TILE_AREA);
    JoinedShape(cs, TILE_AREA);
    Bracketed(field, g);
    assert Entry(key, t)[..|d|] == field[..|d|];
  }

  /** Where the parts of `field + " [" + g + "]"` sit. */
  lemma Bracketed(field: string, g: string)
    ensures |field + " [" + g + "]"| == |field| + |g| + 3
    ensures (field + " [" + g + "]")[..|field|] == field
    ensures (field + " [" + g + "]")[|field|] == ' ' && (field + " [" + g + "]")[|field| + 1] == '['
    ensures forall k :: 0 <= k < |g| ==> (field + " [" + g + "]")[|field| + 2 + k] == g[k]
    ensures (field + " [" + g + "]")[|field| + |g| + 2] == ']'
  {
  }

  /** One entry as the formatter writes it: the padded key, `" ["`, the glyphs, `"]"`. */
  method WriteEntry(key: Ident, tile: Tile) returns (entry: string)
    ensures entry == Entry(key, tile)
  {
    var pix_buf_chars := Chars(tile.pix_buf);
    entry := LeftAligned(Decimal(key), 2);
    entry := entry + " [";
    var glyphs := WriteGlyphs(pix_buf_chars);
    entry := entry + glyphs;
    entry := entry + "]";
  }

  /** The inner loop of the atlas listing: each glyph, then `", "` unless it is the last. */
  method WriteGlyphs(cs: seq<char>) returns (out: string)
    ensures out == Joined(cs, |cs|)
  {
    out := "";
    var i := 0;
    while i < |cs|
      invariant 0 <= i <= |cs|
      invariant out == Joined(cs, i)
    {
      out := out + [cs[i]];
      if i < |cs| - 1 {
        out := out + ", ";
      }
      i := i + 1;
    }
  }

  /** `Game`: the tile atlas and the tile id counter. */
  class Game {
    var tile_atlas: Atlas
    var next_tile_id: Ident

    ghost predicate Valid()
      reads this
    {
      WellFormed(tile_atlas)
    }

    /** A game with an empty atlas and the counter at 0. */
    constructor ()
      ensures Valid()
      ensures tile_atlas == map[] && next_tile_id == 0
    {
      tile_atlas := map[];
      next_tile_id := 0;
    }

    /** `tile_atlas_contains`: whether some stored tile has exactly the glyphs `pix_buf`.
        The scan order does not matter for the answer; ascending key order is used. */
    function TileAtlasContains(pix_buf: PixBuf): (r: bool)
      reads this
      ensures r <==> HasContent(tile_atlas, pix_buf)
    {
      var keys := SortedKeys(tile_atlas.Keys);
      var r := ScanFor(tile_atlas, keys, pix_buf);
      assert r ==> HasContent(tile_atlas, pix_buf);
      assert HasContent(tile_atlas, pix_buf) ==> r by {
        if HasContent(tile_atlas, pix_buf) {
          var k :| k in tile_atlas && tile_atlas[k].pix_buf == pix_buf;
          var i :| 0 <= i < |keys| && keys[i] == k;
        }
      }
      r
    }

    /** `impl fmt::Debug for Game`: the header, then one entry per atlas key in ascending order. */
    method Fmt() returns (out: string)
      ensures out == DebugText(next_tile_id, tile_atlas)
    {
      var atlas, next := tile_atlas, next_tile_id;
      out := DebugHeader(next);
      var keys := SortedKeys(atlas.Keys);
      assert forall i :: 0 <= i < |keys| ==> keys[i] in atlas;
      var n := 0;
      while n < |keys|
        invariant 0 <= n <= |keys|
        invariant out == Written(next, atlas, keys[..n])
      {
        var entry := WriteEntry(keys[n], atlas[keys[n]]);
        WrittenStep(next, atlas, keys, n, out, entry);
        out := out + entry;
        n := n + 1;
      }
      assert keys[..n] == keys;
    }
  }
}
