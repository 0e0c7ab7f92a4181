/** The font character identifiers a font sequence is made of. */
module Glyphs {
  import opened Int32
  import opened Keys

  /** A `FontCharIdentifier`: either a `SpaceFontCharIdentifier` that moves
      the cursor by `pixels` (negative moves left), or a
      `BitmapFontCharIdentifier` showing the square `size`×`size` texture
      `texture`, raised `ascent` pixels above the baseline. */
  datatype Glyph =
    | Space(pixels: i32)
    | Bitmap(texture: Key, size: i32, ascent: i32)

  /** The platform's rendering constraint on bitmap characters: a positive
      size and an ascent no larger than the character's height. */
  predicate Renderable(g: Glyph)
  {
    g.Bitmap? ==> 1 <= g.size && g.ascent <= g.size
  }

  /** The total horizontal shift of the spacing characters in `gs`, as a
      mathematical integer. */
  function SpacingSum(gs: seq<Glyph>): int
  {
    if gs == [] then 0 else Shift(gs[0]) + SpacingSum(gs[1..])
  }

  /** How far one character moves the cursor by itself in the list: spacing
      characters by their pixels, bitmap characters not at all. */
  function Shift(g: Glyph): int
  {
    if g.Space? then g.pixels as int else 0
  }

  lemma {:induction false} SpacingSumAppend(a: seq<Glyph>, b: seq<Glyph>)
    ensures SpacingSum(a + b) == SpacingSum(a) + SpacingSum(b)
  {
    if a == [] {
      assert a + b == b;
    } else {
      assert (a + b)[0] == a[0];
      assert (a + b)[1..] == a[1..] + b;
      SpacingSumAppend(a[1..], b);
    }
  }

  lemma SpacingSumOne(g: Glyph)
    ensures SpacingSum([g]) == Shift(g)
  {
    assert [g][1..] == [];
  }

  lemma SpacingSumThree(a: Glyph, b: Glyph, c: Glyph)
    ensures SpacingSum([a, b, c]) == Shift(a) + Shift(b) + Shift(c)
  {
    assert [a, b, c] == [a] + [b] + [c];
    SpacingSumAppend([a] + [b], [c]);
    SpacingSumAppend([a], [b]);
    SpacingSumOne(a);
    SpacingSumOne(b);
    SpacingSumOne(c);
  }
}
