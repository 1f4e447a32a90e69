/** Shared declarations of the game: machine integer ranges, tile identifiers,
    colours and entity kinds. */
module AsciiBros {

  /** Unsigned 8-bit integer (a glyph byte, a z-order). */
  type u8 = x: int | 0 <= x < 0x100

  /** Unsigned 16-bit integer. */
  type u16 = x: int | 0 <= x < 0x1_0000

  /** Signed 32-bit integer. */
  type i32 = x: int | -0x8000_0000 <= x < 0x8000_0000

  /** Number of distinct values of `Ident`; a cast of a larger count to `Ident` wraps modulo this. */
  const IDENT_LIMIT: nat := 0x1_0000

  /** Tile identifier (`Ident = u16`). */
  type Ident = u16

  /** A terminal colour code. */
  datatype Color = Color(code: i32)

  /** Binds actors to their sprites; informational only in the model. */
  datatype EntityType =
    | None | Mario | Mushroom | OneUp | Bowser | Goomba | Koopa | Parakoopa
    | Pirhana | Lakitu | Spiney | Beetle | BulletBill | HammerBro | FireBar

  /** A computation that either yields a value or stops with an error (a panic or an `Err`). */
  datatype Result<+T, +E> = Ok(value: T) | Err(error: E)
}
