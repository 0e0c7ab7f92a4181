/** The font-sequence builder: compiles "draw image at (x, y)" calls into an
    ordered list of font characters, registering every character with one
    font per resource pack and writing any padded texture to every pack. */
module FontSequence {
  import opened Int32
  import opened Images
  import opened Keys
  import opened Glyphs

  type Bytes = seq<bv8>

  datatype Option<T> = None | Some(value: T)

  /** The exceptions a builder call can end with. */
  datatype Error =
    | ReadFailed            // the source texture could not be read
    | WriteFailed(pack: nat) // writing the padded texture to this pack failed
    | Unsupported           // UnsupportedOperationException

  datatype Outcome = Pass | Fail(error: Error)

  /** The side length of the square character: `max(width, height)`, raised to
      the ascent when the ascent is larger. */
  function CanvasSize(width: i32, height: i32, ascent: i32): (size: i32)
    ensures width <= size && height <= size && ascent <= size
    ensures size == width || size == height || size == ascent
  {
    var s := if width >= height then width else height;
    if ascent > s then ascent else s
  }

  /** The image is not already a `size`×`size` square and must be padded. */
  predicate NeedsPadding(img: Image, size: int)
  {
    img.width != size || img.height != size
  }

  /** The image the character's texture holds: the padded canvas when padding
      was needed, else the source image itself. */
  function Texture(img: Image, size: int): Image
    requires img.width <= size <= MAX && img.height <= size
  {
    if NeedsPadding(img, size) then Pad(img, size) else img
  }

  /** Every font of `fs` with `gs` registered after what it already had. */
  function AppendEach(fs: seq<seq<Glyph>>, gs: seq<Glyph>): (r: seq<seq<Glyph>>)
    ensures |r| == |fs|
    ensures forall i :: 0 <= i < |fs| ==> r[i] == fs[i] + gs
  {
    seq(|fs|, i requires 0 <= i < |fs| => fs[i] + gs)
  }

  lemma AppendEachTwice(fs: seq<seq<Glyph>>, a: seq<Glyph>, b: seq<Glyph>)
    ensures AppendEach(AppendEach(fs, a), b) == AppendEach(fs, a + b)
  {
    assert forall i :: 0 <= i < |fs| ==> AppendEach(AppendEach(fs, a), b)[i] == AppendEach(fs, a + b)[i];
  }

  lemma AppendEachThree(fs: seq<seq<Glyph>>, a: Glyph, b: Glyph, c: Glyph)
    ensures AppendEach(AppendEach(AppendEach(fs, [a]), [b]), [c]) == AppendEach(fs, [a, b, c])
  {
    AppendEachTwice(fs, [a], [b]);
    assert [a] + [b] == [a, b];
    AppendEachTwice(fs, [a, b], [c]);
    assert [a, b] + [c] == [a, b, c];
  }

  /** The texture stores of the packs after `bytes` was written under `k` to
      the first `n` of them. */
  function Written(ts: seq<map<Key, Bytes>>, k: Key, bytes: Bytes, n: nat): (r: seq<map<Key, Bytes>>)
    ensures |r| == |ts|
  {
    seq(|ts|, i requires 0 <= i < |ts| => if i < n then ts[i][k := bytes] else ts[i])
  }

  /** The first of the packs `0 .. n-1` that refuses a write of `k`, or `n`
      when all of them accept it. */
  function FirstRefusal(writeOk: (nat, Key) -> bool, k: Key, n: nat): (r: nat)
    ensures r <= n
    ensures forall i :: 0 <= i < r ==> writeOk(i, k)
    ensures r < n ==> !writeOk(r, k)
  {
    if n == 0 then 0
    else
      var r := FirstRefusal(writeOk, k, n - 1);
      if r < n - 1 then r else if writeOk(n - 1, k) then n else n - 1
  }

  /** The three characters one successful draw call appends: a shift right by
      `dx`, the bitmap character, and a shift left by `dx` plus the image's
      effective width plus one pixel of spacing. */
  function DrawGlyphs(dx: i32, texture: Key, size: i32, ascent: i32, img: Image): seq<Glyph>
  {
    [Space(dx), Bitmap(texture, size, ascent),
     Space(Neg32(Add32(Add32(dx, EffectiveWidth(img)), 1)))]
  }

  /** What one `drawImage` call appends, what the packs hold afterwards, and
      how the call ends. */
  datatype Draw = Draw(glyphs: seq<Glyph>, textures: seq<map<Key, Bytes>>, outcome: Outcome)

  /** `drawImage(key, x, y)` with the origin already resolved into `dx`, `dy`:
      `read` gives the texture stored under a key (None when it cannot be
      read), `writeOk(i, k)` whether pack `i` accepts the write of `k`, and
      `encode` the PNG encoding of an image. */
  function DrawSpec(generated: string, encode: Image -> Bytes, textures: seq<map<Key, Bytes>>,
                    key: Key, dx: i32, dy: i32,
                    read: Key -> Option<Image>, writeOk: (nat, Key) -> bool): Draw
  {
    var k := NormalizeKey(key);
    match read(k)
    case None => Draw([Space(dx)], textures, Fail(ReadFailed))
    case Some(img) => PlaceSpec(generated, encode, textures, k, dx, Neg32(dy), img, writeOk)
  }

  /** The part of a draw after the source image `img` of the normalised key
      `k` was read: pad when needed, write to every pack, append the
      characters. */
  function PlaceSpec(generated: string, encode: Image -> Bytes, textures: seq<map<Key, Bytes>>,
                     k: Key, dx: i32, ascent: i32, img: Image, writeOk: (nat, Key) -> bool): Draw
    requires EndsWith(k.path, PNG)
  {
    var size := CanvasSize(img.width, img.height, ascent);
    if NeedsPadding(img, size) then
      var padded := DerivedKey(generated, k, size);
      var bytes := encode(Pad(img, size));
      var n := FirstRefusal(writeOk, padded, |textures|);
      if n < |textures| then
        Draw([Space(dx)], Written(textures, padded, bytes, n), Fail(WriteFailed(n)))
      else
        Draw(DrawGlyphs(dx, padded, size, ascent, img), Written(textures, padded, bytes, n), Pass)
    else
      Draw(DrawGlyphs(dx, k, size, ascent, img), textures, Pass)
  }

  /** `shiftRight(n)` followed by `shiftLeft(n)`: the two shifts cancel in
      Java arithmetic, and as integers for every `n` except `Integer.MIN_VALUE`. */
  lemma ShiftPairCancels(n: i32)
    ensures Wrap(SpacingSum([Space(n), Space(Neg32(n))])) == 0
    ensures SpacingSum([Space(n), Space(Neg32(n))]) == 0 <==> n != MIN
  {
    NegCancels(n);
    SpacingSumAppend([Space(n)], [Space(Neg32(n))]);
    SpacingSumOne(Space(n));
    SpacingSumOne(Space(Neg32(n)));
  }

  /** A successful draw appends exactly three characters: the shift right by
      `dx`, a bitmap character of side `max(width, height, -dy)` raised by
      `-dy`, and the shift left by `dx + effectiveWidth + 1`. */
  lemma DrawGlyphsShape(generated: string, encode: Image -> Bytes, textures: seq<map<Key, Bytes>>,
                        key: Key, dx: i32, dy: i32,
                        read: Key -> Option<Image>, writeOk: (nat, Key) -> bool)
    requires DrawSpec(generated, encode, textures, key, dx, dy, read, writeOk).outcome == Pass
    ensures read(NormalizeKey(key)).Some?
    ensures var g := DrawSpec(generated, encode, textures, key, dx, dy, read, writeOk).glyphs;
            var img := read(NormalizeKey(key)).value;
            && |g| == 3
            && g[0] == Space(dx)
            && g[1].Bitmap?
            && g[1] == Bitmap(g[1].texture, CanvasSize(img.width, img.height, Neg32(dy)), Neg32(dy))
            && g[2] == Space(Neg32(Add32(Add32(dx, EffectiveWidth(img)), 1)))
  {
  }

  /** The shifts of a successful draw add up to minus the image's effective
      width minus one: exactly so in Java arithmetic, and as integers whenever
      `dx + width + 1` does not overflow. The cancelling advance comes from the
      bitmap character, not from the list. */
  lemma {:induction false} DrawSpacingSum(generated: string, encode: Image -> Bytes, textures: seq<map<Key, Bytes>>,
                        key: Key, dx: i32, dy: i32,
                        read: Key -> Option<Image>, writeOk: (nat, Key) -> bool)
    requires DrawSpec(generated, encode, textures, key, dx, dy, read, writeOk).outcome == Pass
    ensures read(NormalizeKey(key)).Some?
    ensures var g := DrawSpec(generated, encode, textures, key, dx, dy, read, writeOk).glyphs;
            var w := EffectiveWidth(read(NormalizeKey(key)).value);
            && Wrap(SpacingSum(g)) == -(w + 1)
            && (dx + w + 1 <= MAX ==> SpacingSum(g) == -(w + 1))
  {
    var img := read(NormalizeKey(key)).value;
    var g := DrawSpec(generated, encode, textures, key, dx, dy, read, writeOk).glyphs;
    assert g == DrawGlyphs(dx, g[1].texture, g[1].size, g[1].ascent, img);
    DrawGlyphsSum(dx, g[1].texture, g[1].size, g[1].ascent, img);
  }

  /** The three characters of a draw shift by minus the effective width minus
      one in total. */
  lemma DrawGlyphsSum(dx: i32, texture: Key, size: i32, ascent: i32, img: Image)
    ensures var w := EffectiveWidth(img);
            && Wrap(SpacingSum(DrawGlyphs(dx, texture, size, ascent, img))) == -(w + 1)
            && (dx + w + 1 <= MAX ==> SpacingSum(DrawGlyphs(dx, texture, size, ascent, img)) == -(w + 1))
  {
    var w := EffectiveWidth(img);
    var g := DrawGlyphs(dx, texture, size, ascent, img);
    SpacingSumThree(g[0], g[1], g[2]);
    ShiftBackSum(dx, w);
  }

  /** The bitmap character of a successful draw fits the platform's
      constraint: its size is `max(width, height, ascent)`. */
  lemma DrawBitmapFits(generated: string, encode: Image -> Bytes, textures: seq<map<Key, Bytes>>,
                       key: Key, dx: i32, dy: i32,
                       read: Key -> Option<Image>, writeOk: (nat, Key) -> bool)
    requires DrawSpec(generated, encode, textures, key, dx, dy, read, writeOk).outcome == Pass
    ensures read(NormalizeKey(key)).Some?
    ensures var g := DrawSpec(generated, encode, textures, key, dx, dy, read, writeOk).glyphs[1];
            var img := read(NormalizeKey(key)).value;
            && g.Bitmap? && Renderable(g)
            && img.width <= g.size && img.height <= g.size && g.ascent <= g.size
            && (g.size == img.width || g.size == img.height || g.size == g.ascent)
  {
  }

  /** Which texture the bitmap character shows: the normalised source key
      exactly when the image is already square at the right size, otherwise
      the derived key `<namespace>/<stem>_<size>.png` in the generated
      namespace. */
  lemma DrawTextureKey(generated: string, encode: Image -> Bytes, textures: seq<map<Key, Bytes>>,
                       key: Key, dx: i32, dy: i32,
                       read: Key -> Option<Image>, writeOk: (nat, Key) -> bool)
    requires DrawSpec(generated, encode, textures, key, dx, dy, read, writeOk).outcome == Pass
    ensures read(NormalizeKey(key)).Some?
    ensures var g := DrawSpec(generated, encode, textures, key, dx, dy, read, writeOk).glyphs[1];
            var img := read(NormalizeKey(key)).value;
            var k := NormalizeKey(key);
            && g.Bitmap?
            && EndsWith(g.texture.path, PNG)
            && (g.texture == k <==> !NeedsPadding(img, g.size))
            && (NeedsPadding(img, g.size) ==>
                  g.texture.namespace == generated &&
                  g.texture.path == k.namespace + "/" + Stem(k.path) + "_" + Decimal(g.size) + PNG)
  {
    var k := NormalizeKey(key);
    var img := read(k).value;
    var size := CanvasSize(img.width, img.height, Neg32(dy));
    if NeedsPadding(img, size) {
      DerivedKeyIsNew(generated, k, size);
      DerivedKeyPath(generated, k, size);
    }
  }

  /** What a draw does to the packs: nothing when no padding is needed;
      otherwise every pack (on success) holds the encoded padded image under
      the derived key and every other entry of every pack is as before. */
  lemma DrawWritesEveryPack(generated: string, encode: Image -> Bytes, textures: seq<map<Key, Bytes>>,
                            key: Key, dx: i32, dy: i32,
                            read: Key -> Option<Image>, writeOk: (nat, Key) -> bool)
    requires DrawSpec(generated, encode, textures, key, dx, dy, read, writeOk).outcome == Pass
    ensures read(NormalizeKey(key)).Some?
    ensures var d := DrawSpec(generated, encode, textures, key, dx, dy, read, writeOk);
            var g := d.glyphs[1];
            var img := read(NormalizeKey(key)).value;
            && g.Bitmap?
            && |d.textures| == |textures|
            && (!NeedsPadding(img, g.size) ==> d.textures == textures)
            && (NeedsPadding(img, g.size) ==>
                  forall i :: 0 <= i < |textures| ==>
                    && d.textures[i][g.texture] == encode(Pad(img, g.size))
                    && forall k :: k != g.texture ==>
                         (k in d.textures[i] <==> k in textures[i]) &&
                         (k in textures[i] ==> d.textures[i][k] == textures[i][k]))
  {
  }

  /** A draw that fails has appended only the initial shift right: a read
      failure leaves the packs alone, a write failure at pack `n` leaves the
      writes of packs `0 .. n-1` in place (nothing is rolled back) and the
      packs from `n` on untouched. */
  lemma DrawFailure(generated: string, encode: Image -> Bytes, textures: seq<map<Key, Bytes>>,
                    key: Key, dx: i32, dy: i32,
                    read: Key -> Option<Image>, writeOk: (nat, Key) -> bool)
    requires DrawSpec(generated, encode, textures, key, dx, dy, read, writeOk).outcome.Fail?
    ensures var d := DrawSpec(generated, encode, textures, key, dx, dy, read, writeOk);
            && d.glyphs == [Space(dx)]
            && (d.outcome == Fail(ReadFailed) <==> read(NormalizeKey(key)).None?)
            && (d.outcome == Fail(ReadFailed) ==> d.textures == textures)
            && (d.outcome.error.WriteFailed? ==>
                  var k := NormalizeKey(key);
                  var n := d.outcome.error.pack;
                  && read(k).Some?
                  && var img := read(k).value;
                     var size := CanvasSize(img.width, img.height, Neg32(dy));
                     var padded := DerivedKey(generated, k, size);
                     && NeedsPadding(img, size)
                     && n < |textures| && |d.textures| == |textures| && !writeOk(n, padded)
                     && (forall i :: 0 <= i < n ==>
                           writeOk(i, padded) && d.textures[i] == textures[i][padded := encode(Pad(img, size))])
                     && (forall i :: n <= i < |textures| ==> d.textures[i] == textures[i]))
  {
  }

  /** Under the game's rule that a bitmap character advances the cursor by its
      texture's effective width plus one pixel, a whole draw moves the cursor
      back to where it was: as integers when `dx + effectiveWidth + 1` does not
      overflow, and modulo 2^32 always. */
  lemma DrawCursorNeutral(generated: string, encode: Image -> Bytes, textures: seq<map<Key, Bytes>>,
                          key: Key, dx: i32, dy: i32,
                          read: Key -> Option<Image>, writeOk: (nat, Key) -> bool)
    requires DrawSpec(generated, encode, textures, key, dx, dy, read, writeOk).outcome == Pass
    ensures read(NormalizeKey(key)).Some?
    ensures var d := DrawSpec(generated, encode, textures, key, dx, dy, read, writeOk);
            var img := read(NormalizeKey(key)).value;
            var g := d.glyphs[1];
            && g.Bitmap? && img.width <= g.size && img.height <= g.size
            && Wrap(SpacingSum(d.glyphs) + EffectiveWidth(Texture(img, g.size)) + 1) == 0
            && (dx + EffectiveWidth(img) + 1 <= MAX ==>
                  SpacingSum(d.glyphs) + EffectiveWidth(Texture(img, g.size)) + 1 == 0)
  {
    var img := read(NormalizeKey(key)).value;
    var g := DrawSpec(generated, encode, textures, key, dx, dy, read, writeOk).glyphs;
    assert g == DrawGlyphs(dx, g[1].texture, g[1].size, g[1].ascent, img);
    GlyphsCursorNeutral(dx, g[1].texture, g[1].size, g[1].ascent, img);
  }

  /** The three characters of a draw, followed by the advance of the bitmap
      character, leave the cursor where it started: as integers when
      `dx + effectiveWidth + 1` does not overflow, and modulo 2^32 always. */
  lemma GlyphsCursorNeutral(dx: i32, texture: Key, size: i32, ascent: i32, img: Image)
    requires img.width <= size && img.height <= size
    ensures Wrap(SpacingSum(DrawGlyphs(dx, texture, size, ascent, img)) + EffectiveWidth(Texture(img, size)) + 1) == 0
    ensures dx + EffectiveWidth(img) + 1 <= MAX ==>
              SpacingSum(DrawGlyphs(dx, texture, size, ascent, img)) + EffectiveWidth(Texture(img, size)) + 1 == 0
  {
    var g := DrawGlyphs(dx, texture, size, ascent, img);
    DrawGlyphsSum(dx, texture, size, ascent, img);
    PadKeepsEffectiveWidth(img, size);
    var w := EffectiveWidth(img);
    assert EffectiveWidth(Texture(img, size)) == w;
    WrapInner(w + 1, SpacingSum(g));
  }

  lemma WrittenTwice(ts: seq<map<Key, Bytes>>, k: Key, bytes: Bytes, n: nat)
    ensures Written(Written(ts, k, bytes, n), k, bytes, n) == Written(ts, k, bytes, n)
  {
    var once := Written(ts, k, bytes, n);
    forall i | 0 <= i < |ts|
      ensures Written(once, k, bytes, n)[i] == once[i]
    {
      if i < n {
        assert once[i][k := bytes] == once[i];
      }
    }
  }

  /** Drawing the same image again with the same packs' answers appends the
      same characters and leaves the packs as the first draw left them: the
      generated texture is shared, keyed by (source key, size). */
  lemma {:induction false} DrawAgainSharesTexture(generated: string, encode: Image -> Bytes, textures: seq<map<Key, Bytes>>,
                                key: Key, dx: i32, dy: i32,
                                read: Key -> Option<Image>, writeOk: (nat, Key) -> bool)
    requires DrawSpec(generated, encode, textures, key, dx, dy, read, writeOk).outcome == Pass
    ensures var first := DrawSpec(generated, encode, textures, key, dx, dy, read, writeOk);
            var second := DrawSpec(generated, encode, first.textures, key, dx, dy, read, writeOk);
            second == first
  {
    var k := NormalizeKey(key);
    var img := read(k).value;
    var size := CanvasSize(img.width, img.height, Neg32(dy));
    if NeedsPadding(img, size) {
      var padded := DerivedKey(generated, k, size);
      WrittenTwice(textures, padded, encode(Pad(img, size)), |textures|);
    }
  }

  /** A fully opaque 4×4 image. */
  function Opaque4(): Image
  {
    var row: seq<bv32> := [0xFF00_0000, 0xFF00_0000, 0xFF00_0000, 0xFF00_0000];
    Raster(4, 4, [row, row, row, row])
  }

  lemma Opaque4Width()
    ensures EffectiveWidth(Opaque4()) == 4
  {
    assert Visible(Pixel(Opaque4(), 3, 0));
    assert ColumnVisible(Opaque4(), 3);
  }

  /** An opaque 4×4 image drawn at (0, 0) needs no padding: one shift of 0,
      the character of size 4 and ascent 0, and a shift of -5. */
  lemma ScenarioSquareAtOrigin(generated: string, encode: Image -> Bytes, textures: seq<map<Key, Bytes>>,
                               key: Key, read: Key -> Option<Image>, writeOk: (nat, Key) -> bool)
    requires read(NormalizeKey(key)) == Some(Opaque4())
    ensures var d := DrawSpec(generated, encode, textures, key, 0, 0, read, writeOk);
            && d.outcome == Pass && d.textures == textures
            && d.glyphs == [Space(0), Bitmap(NormalizeKey(key), 4, 0), Space(-5)]
  {
    Opaque4Width();
  }

  /** At `dx == Integer.MAX_VALUE` the shift back overflows: the opaque 4×4
      image then leaves the cursor 2^32 pixels to the right of where it
      started, although the two agree modulo 2^32. */
  lemma ScenarioShiftBackOverflows(generated: string, encode: Image -> Bytes, textures: seq<map<Key, Bytes>>,
                                   key: Key, read: Key -> Option<Image>, writeOk: (nat, Key) -> bool)
    requires read(NormalizeKey(key)) == Some(Opaque4())
    ensures var d := DrawSpec(generated, encode, textures, key, MAX, 0, read, writeOk);
            && d.outcome == Pass
            && d.glyphs[2] == Space(MAX - 3)
            && SpacingSum(d.glyphs) + EffectiveWidth(Opaque4()) + 1 == MODULUS
  {
    Opaque4Width();
    var g := DrawSpec(generated, encode, textures, key, MAX, 0, read, writeOk).glyphs;
    assert Add32(MAX, 4) == MIN + 3;
    assert Add32(MIN + 3, 1) == MIN + 4;
    assert Neg32(MIN + 4) == MAX - 3;
    assert g == [Space(MAX), g[1], Space(MAX - 3)];
    SpacingSumThree(g[0], g[1], g[2]);
  }

  /** When every pack accepts every write, placing a read image always
      succeeds and every pack receives the padded texture when one is needed. */
  lemma PlaceAllAccept(generated: string, encode: Image -> Bytes, textures: seq<map<Key, Bytes>>,
                       k: Key, dx: i32, ascent: i32, img: Image, writeOk: (nat, Key) -> bool)
    requires EndsWith(k.path, PNG)
    requires forall i, key :: writeOk(i, key)
    ensures var size := CanvasSize(img.width, img.height, ascent);
            var d := PlaceSpec(generated, encode, textures, k, dx, ascent, img, writeOk);
            && d.outcome == Pass
            && (NeedsPadding(img, size) ==>
                  var padded := DerivedKey(generated, k, size);
                  d.textures == Written(textures, padded, encode(Pad(img, size)), |textures|) &&
                  d.glyphs == DrawGlyphs(dx, padded, size, ascent, img))
  {
    var size := CanvasSize(img.width, img.height, ascent);
    var padded := DerivedKey(generated, k, size);
    var n := FirstRefusal(writeOk, padded, |textures|);
    assert n == |textures|;
  }

  /** The same image drawn at (0, -6) has ascent 6 > 4: it is padded to a 6×6
      canvas, stored under a key ending in `_6.png` in every pack. */
  lemma ScenarioRaisedImage(generated: string, encode: Image -> Bytes, textures: seq<map<Key, Bytes>>,
                            key: Key, read: Key -> Option<Image>, writeOk: (nat, Key) -> bool)
    requires read(NormalizeKey(key)) == Some(Opaque4())
    requires forall i, k :: writeOk(i, k)
    ensures var d := DrawSpec(generated, encode, textures, key, 0, -6, read, writeOk);
            var k := DerivedKey(generated, NormalizeKey(key), 6);
            && d.outcome == Pass
            && d.glyphs == [Space(0), Bitmap(k, 6, 6), Space(-5)]
            && EndsWith(k.path, "_6.png")
            && forall i :: 0 <= i < |textures| ==> d.textures[i][k] == encode(Pad(Opaque4(), 6))
  {
    var nk := NormalizeKey(key);
    var img := Opaque4();
    assert Neg32(-6) == 6;
    assert DrawSpec(generated, encode, textures, key, 0, -6, read, writeOk)
        == PlaceSpec(generated, encode, textures, nk, 0, 6, img, writeOk);
    assert CanvasSize(4, 4, 6) == 6;
    PlaceAllAccept(generated, encode, textures, nk, 0, 6, img, writeOk);
    var k := DerivedKey(generated, nk, 6);
    Opaque4Width();
    assert DrawGlyphs(0, k, 6, 6, img) == [Space(0), Bitmap(k, 6, 6), Space(-5)];
    DerivedKeySuffix(generated, nk, 6);
    assert Decimal(6) == "6";
    assert "_" + Decimal(6) + PNG == "_6.png";
  }

  /** A font-sequence builder over a list of resource packs. `O` is the type of
      draw origins; `resolveX`/`resolveY` stand for the subclass's origin
      resolver, `generatedNamespace` for the generated-texture namespace and `encode`
      for the PNG encoder. `fonts[i]` is what was registered with the font of
      pack `i`, `textures[i]` the textures stored in pack `i`. */
  class FontSequenceBuilder<O> {
    const generatedNamespace: string
    const resolveX: O -> i32
    const resolveY: O -> i32
    const encode: Image -> Bytes
    const packCount: nat

    var fontChars: seq<Glyph>
    var fonts: seq<seq<Glyph>>
    var textures: seq<map<Key, Bytes>>
    var origin: O

    /** One font and one texture store per pack; every font has received
        exactly the builder's characters; every bitmap character is renderable. */
    ghost predicate Valid()
      reads this
    {
      && |fonts| == packCount && |textures| == packCount
      && (forall i :: 0 <= i < |fonts| ==> fonts[i] == fontChars)
      && (forall j :: 0 <= j < |fontChars| ==> Renderable(fontChars[j]))
    }

    constructor (packTextures: seq<map<Key, Bytes>>, generatedNamespace: string,
                 resolveX: O -> i32, resolveY: O -> i32, encode: Image -> Bytes, origin: O)
      ensures Valid()
      ensures packCount == |packTextures| && textures == packTextures
      ensures fontChars == [] && this.origin == origin
      ensures this.generatedNamespace == generatedNamespace && this.encode == encode
      ensures this.resolveX == resolveX && this.resolveY == resolveY
    {
      this.generatedNamespace := generatedNamespace;
      this.resolveX := resolveX;
      this.resolveY := resolveY;
      this.encode := encode;
      this.packCount := |packTextures|;
      this.origin := origin;
      fontChars := [];
      fonts := seq(|packTextures|, _ => []);
      textures := packTextures;
    }

    /** `build()`: the characters registered so far, leaving the builder as it is. */
    method Build() returns (s: seq<Glyph>)
      ensures s == fontChars
    {
      s := fontChars;
    }

    /** Registers `g` with the font of every pack. */
    method AddToFonts(g: Glyph)
      modifies this`fonts
      ensures fonts == AppendEach(old(fonts), [g])
    {
      var i := 0;
      while i < |fonts|
        invariant 0 <= i <= |fonts| == |old(fonts)|
        invariant forall j :: 0 <= j < i ==> fonts[j] == old(fonts)[j] + [g]
        invariant forall j :: i <= j < |fonts| ==> fonts[j] == old(fonts)[j]
      {
        fonts := fonts[i := fonts[i] + [g]];
        i := i + 1;
      }
    }

    /** `shiftRight(pixels)`: one spacing character of `pixels`, registered with
        every font and appended to the sequence; nothing else changes. */
    method ShiftRight(pixels: i32)
      requires Valid()
      modifies this
      ensures Valid()
      ensures fontChars == old(fontChars) + [Space(pixels)]
      ensures fonts == AppendEach(old(fonts), [Space(pixels)])
      ensures textures == old(textures) && origin == old(origin)
    {
      var fontChar := Space(pixels);
      AddToFonts(fontChar);
      fontChars := fontChars + [fontChar];
    }

    /** `shiftLeft(pixels)` is `shiftRight(-pixels)`, with Java's negation. */
    method ShiftLeft(pixels: i32)
      requires Valid()
      modifies this
      ensures Valid()
      ensures fontChars == old(fontChars) + [Space(Neg32(pixels))]
      ensures fonts == AppendEach(old(fonts), [Space(Neg32(pixels))])
      ensures textures == old(textures) && origin == old(origin)
    {
      ShiftRight(Neg32(pixels));
    }

    method GetOrigin() returns (o: O)
      ensures o == origin
    {
      o := origin;
    }

    method SetOrigin(o: O)
      modifies this`origin
      ensures origin == o
    {
      origin := o;
    }

    /** The texture the bitmap character will show: when the image is not
        already `size`×`size`, pad it, derive its key and write it to every
        pack; otherwise keep the source key and write nothing. */
    method StoreTexture(textureKey: Key, image: Image, size: i32, writeOk: (nat, Key) -> bool)
      returns (storedKey: Key, failed: Option<nat>)
      requires EndsWith(textureKey.path, PNG)
      requires image.width <= size && image.height <= size
      modifies this`textures
      ensures !NeedsPadding(image, size) ==> storedKey == textureKey && failed == None && textures == old(textures)
      ensures NeedsPadding(image, size) ==>
                var n := FirstRefusal(writeOk, storedKey, |old(textures)|);
                && storedKey == DerivedKey(generatedNamespace, textureKey, size)
                && textures == Written(old(textures), storedKey, encode(Pad(image, size)), n)
                && failed == if n < |old(textures)| then Some(n) else None
    {
      storedKey, failed := textureKey, None;
      if image.width != size || image.height != size {
        var created := Pad(image, size);
        storedKey := DerivedKey(generatedNamespace, textureKey, size);
        var bytes := encode(created);
        failed := WriteToPacks(storedKey, bytes, writeOk);
      }
    }

    /** Writes `bytes` under `k` to every pack in order, stopping at the first
        pack that refuses; the writes already made stay in place. */
    method WriteToPacks(k: Key, bytes: Bytes, writeOk: (nat, Key) -> bool) returns (failed: Option<nat>)
      modifies this`textures
      ensures var n := FirstRefusal(writeOk, k, |old(textures)|);
              && textures == Written(old(textures), k, bytes, n)
              && failed == if n < |old(textures)| then Some(n) else None
    {
      var i := 0;
      while i < |textures|
        invariant 0 <= i <= |textures| == |old(textures)|
        invariant textures == Written(old(textures), k, bytes, i)
        invariant forall j :: 0 <= j < i ==> writeOk(j, k)
      {
        if !writeOk(i, k) {
          assert FirstRefusal(writeOk, k, |textures|) == i;
          return Some(i);
        }
        textures := textures[i := textures[i][k := bytes]];
        i := i + 1;
      }
      assert FirstRefusal(writeOk, k, |textures|) == |textures|;
      return None;
    }

    /** `drawImage(key, x, y)`: resolves the origin, shifts right, reads the
        texture, pads it onto a square canvas when needed (writing the result
        to every pack), appends the bitmap character and shifts back. */
    method DrawImage(key: Key, x: i32, y: i32, read: Key -> Option<Image>, writeOk: (nat, Key) -> bool)
      returns (r: Outcome)
      requires Valid()
      modifies this
      ensures Valid() && origin == old(origin)
      ensures var d := DrawSpec(generatedNamespace, encode, old(textures), key,
                                Add32(x, resolveX(old(origin))), Add32(y, resolveY(old(origin))),
                                read, writeOk);
              && r == d.outcome
              && fontChars == old(fontChars) + d.glyphs
              && fonts == AppendEach(old(fonts), d.glyphs)
              && textures == d.textures
    {
      var dx := Add32(x, resolveX(origin));
      var dy := Add32(y, resolveY(origin));
      var textureKey := NormalizeKey(key);
      ShiftRight(dx);
      var ascent := Neg32(dy);
      var source := read(textureKey);
      if source.None? {
        return Fail(ReadFailed);
      }
      r := Place(textureKey, dx, ascent, source.value, writeOk, old(fontChars), old(fonts));
    }

    /** The rest of `drawImage` once the image is read: size, padding, the
        write to every pack, the bitmap character and the shift back. */
    method Place(textureKey: Key, dx: i32, ascent: i32, image: Image, writeOk: (nat, Key) -> bool,
                 ghost chars0: seq<Glyph>, ghost fonts0: seq<seq<Glyph>>)
      returns (r: Outcome)
      requires Valid() && EndsWith(textureKey.path, PNG)
      requires fontChars == chars0 + [Space(dx)] && fonts == AppendEach(fonts0, [Space(dx)])
      modifies this
      ensures Valid() && origin == old(origin)
      ensures var d := PlaceSpec(generatedNamespace, encode, old(textures), textureKey, dx, ascent, image, writeOk);
              && r == d.outcome
              && fontChars == chars0 + d.glyphs
              && fonts == AppendEach(fonts0, d.glyphs)
              && textures == d.textures
    {
      ghost var d := PlaceSpec(generatedNamespace, encode, textures, textureKey, dx, ascent, image, writeOk);
      var size: i32 := if image.width >= image.height then image.width else image.height;
      if ascent > size {
        size := ascent;
      }
      assert size == CanvasSize(image.width, image.height, ascent);
      var storedKey, failed := StoreTexture(textureKey, image, size, writeOk);
      if failed.Some? {
        assert d == Draw([Space(dx)], textures, Fail(WriteFailed(failed.value)));
        return Fail(WriteFailed(failed.value));
      }
      assert d == Draw(DrawGlyphs(dx, storedKey, size, ascent, image), textures, Pass);
      var fontChar := Bitmap(storedKey, size, ascent);
      AddBitmap(fontChar, dx, image);
      AppendEachTwice(fonts0, [Space(dx)], d.glyphs[1..]);
      assert [Space(dx)] + d.glyphs[1..] == d.glyphs;
      r := Pass;
    }

    /** Appends the bitmap character to the sequence and every font, then
        shifts back by `dx` plus the image's effective width plus one. */
    method AddBitmap(fontChar: Glyph, dx: i32, image: Image)
      requires Valid() && Renderable(fontChar)
      modifies this
      ensures Valid() && origin == old(origin) && textures == old(textures)
      ensures var back := Space(Neg32(Add32(Add32(dx, EffectiveWidth(image)), 1)));
              && fontChars == old(fontChars) + [fontChar, back]
              && fonts == AppendEach(old(fonts), [fontChar, back])
    {
      fontChars := fontChars + [fontChar];
      AddToFonts(fontChar);
      var width := GetEffectiveWidth(image);
      ShiftLeft(Add32(Add32(dx, width), 1));
      AppendEachTwice(old(fonts), [fontChar], [Space(Neg32(Add32(Add32(dx, width), 1)))]);
      assert [fontChar] + [Space(Neg32(Add32(Add32(dx, width), 1)))] == [fontChar, Space(Neg32(Add32(Add32(dx, width), 1)))];
    }

    /** `getEffectiveWidth(image)`: scans the columns from the right and stops
        at the first one holding a pixel with non-zero alpha. */
    static method GetEffectiveWidth(image: Image) returns (w: int)
      ensures w == EffectiveWidth(image)
    {
      var x := image.width - 1;
      while x >= 0
        invariant -1 <= x < image.width
        invariant EffectiveWidth(image) == VisibleWidthBelow(image, x + 1)
      {
        var y := 0;
        while y < image.height
          invariant 0 <= y <= image.height
          invariant forall j :: 0 <= j < y ==> !Visible(Pixel(image, x, j))
        {
          var argb := Pixel(image, x, y);
          if argb & 0xFF00_0000 != 0 {
            return x + 1;
          }
          y := y + 1;
        }
        x := x - 1;
      }
      return x + 1;
    }

    /** `drawImage(BufferedImage, x, y)` is not supported, whatever its input. */
    method DrawBufferedImage(image: Image, x: i32, y: i32) returns (r: Outcome)
      ensures r == Fail(Unsupported)
    {
      r := Fail(Unsupported);
    }

    /** `drawText(text, x, y, color, font)` is not supported, whatever its input. */
    method DrawText<F>(text: string, x: i32, y: i32, color: bv32, font: F) returns (r: Outcome)
      ensures r == Fail(Unsupported)
    {
      r := Fail(Unsupported);
    }
  }
}
