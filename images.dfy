/** Decoded images as the builder sees them through `BufferedImage.getRGB`:
    a grid of 32-bit ARGB values, plus the two image computations the builder
    relies on: padding onto a square canvas and the effective width. */
module Images {
  import opened Int32

  /** Raw pixel data, `rows[y][x]` being the ARGB value at column `x`, row `y`. */
  datatype Raster = Raster(width: int, height: int, rows: seq<seq<bv32>>)

  /** What every `BufferedImage` satisfies: positive `int` dimensions and one
      row of `width` pixels per line. */
  predicate WellFormed(r: Raster)
  {
    && 1 <= r.width <= MAX
    && 1 <= r.height <= MAX
    && |r.rows| == r.height
    && forall y :: 0 <= y < |r.rows| ==> |r.rows[y]| == r.width
  }

  type Image = r: Raster | WellFormed(r) witness Raster(1, 1, [[0]])

  /** `image.getRGB(x, y)`. */
  function Pixel(img: Image, x: int, y: int): bv32
    requires 0 <= x < img.width && 0 <= y < img.height
  {
    img.rows[y][x]
  }

  /** `(argb & 0xFF000000) != 0`: the pixel's alpha component is not zero. */
  predicate Visible(argb: bv32)
  {
    argb & 0xFF00_0000 != 0
  }

  /** Column `x` holds at least one pixel with non-zero alpha. */
  predicate ColumnVisible(img: Image, x: int)
    requires 0 <= x < img.width
  {
    exists y :: 0 <= y < img.height && Visible(Pixel(img, x, y))
  }

  /** One past the rightmost visible column among the first `n` columns, or 0
      when none of them holds a visible pixel. */
  function VisibleWidthBelow(img: Image, n: int): (w: int)
    requires 0 <= n <= img.width
    ensures 0 <= w <= n
    ensures w > 0 ==> ColumnVisible(img, w - 1)
    ensures forall x :: w <= x < n ==> !ColumnVisible(img, x)
    decreases n
  {
    if n == 0 then 0
    else if ColumnVisible(img, n - 1) then n
    else VisibleWidthBelow(img, n - 1)
  }

  /** The width the game advances the cursor by for this image: trailing
      transparent columns on the right do not count. */
  function EffectiveWidth(img: Image): int
  {
    VisibleWidthBelow(img, img.width)
  }

  /** The effective width lies between 0 and the image width; the column just
      left of it is visible and every column from it on is transparent. */
  lemma EffectiveWidthCharacterized(img: Image)
    ensures 0 <= EffectiveWidth(img) <= img.width
    ensures EffectiveWidth(img) > 0 ==> ColumnVisible(img, EffectiveWidth(img) - 1)
    ensures forall x :: EffectiveWidth(img) <= x < img.width ==> !ColumnVisible(img, x)
  {
  }

  /** Those properties determine the effective width: no other number has them. */
  lemma {:induction false} EffectiveWidthUnique(img: Image, w: int)
    requires 0 <= w <= img.width
    requires w > 0 ==> ColumnVisible(img, w - 1)
    requires forall x :: w <= x < img.width ==> !ColumnVisible(img, x)
    ensures w == EffectiveWidth(img)
  {
  }

  /** The effective width is 0 exactly when the whole image is transparent. */
  lemma EffectiveWidthZero(img: Image)
    ensures EffectiveWidth(img) == 0 <==>
            forall x, y :: 0 <= x < img.width && 0 <= y < img.height ==> !Visible(Pixel(img, x, y))
  {
    var e := EffectiveWidth(img);
    if e > 0 {
      assert ColumnVisible(img, e - 1);
    } else {
      forall x, y | 0 <= x < img.width && 0 <= y < img.height
        ensures !Visible(Pixel(img, x, y))
      {
        assert !ColumnVisible(img, x);
      }
    }
  }

  /** A `size`×`size` ARGB canvas, initially all zero (transparent), with `img`
      drawn unscaled at its top-left corner. */
  function Pad(img: Image, size: int): (p: Image)
    requires img.width <= size <= MAX && img.height <= size
    ensures p.width == size && p.height == size
    ensures forall x, y :: 0 <= x < size && 0 <= y < size ==>
              Pixel(p, x, y) == if x < img.width && y < img.height then Pixel(img, x, y) else 0
  {
    var rows := seq(size, y requires 0 <= y < size =>
                      seq(size, x requires 0 <= x < size =>
                            if x < img.width && y < img.height then img.rows[y][x] else 0));
    Raster(size, size, rows)
  }

  /** Padding on the right and at the bottom leaves every original column as
      visible as it was. */
  lemma PadColumn(img: Image, size: int, x: int)
    requires img.width <= size <= MAX && img.height <= size
    requires 0 <= x < size
    ensures ColumnVisible(Pad(img, size), x) <==> x < img.width && ColumnVisible(img, x)
  {
    var p := Pad(img, size);
    if ColumnVisible(p, x) {
      var y :| 0 <= y < size && Visible(Pixel(p, x, y));
      assert x < img.width && y < img.height && Visible(Pixel(img, x, y));
    }
    if x < img.width && ColumnVisible(img, x) {
      var y :| 0 <= y < img.height && Visible(Pixel(img, x, y));
      assert Pixel(p, x, y) == Pixel(img, x, y);
    }
  }

  /** Padding never changes the effective width, so a padded glyph advances the
      cursor exactly as far as the original image would. */
  lemma PadKeepsEffectiveWidth(img: Image, size: int)
    requires img.width <= size <= MAX && img.height <= size
    ensures EffectiveWidth(Pad(img, size)) == EffectiveWidth(img)
  {
    var p := Pad(img, size);
    var e := EffectiveWidth(img);
    EffectiveWidthCharacterized(img);
    if e > 0 {
      PadColumn(img, size, e - 1);
    }
    forall x | e <= x < size
      ensures !ColumnVisible(p, x)
    {
      PadColumn(img, size, x);
    }
    EffectiveWidthUnique(p, e);
  }
}
