# Font-sequence builder, modelled in Dafny

Praeter draws images in Minecraft interfaces that can only show text. It does
this by building a custom font. `AbstractFontSequenceBuilder` turns
"draw image `key` at (x, y)" calls into an ordered list of font characters.
Each character is one of two kinds:

- a *space* character (`SpaceFontCharIdentifier(pixels)`), which moves the
  text cursor right (positive) or left (negative);
- a *bitmap* character (`BitmapFontCharIdentifier(key, size, ascent)`), which
  shows a square `size`×`size` texture raised `ascent` pixels above the
  baseline.

Every character is registered with one `Font` per resource pack and appended
to the builder's own list. When a bitmap character needs a texture that is not
already square and large enough, the builder does three things: it pads the
image onto a transparent canvas, gives it a derived key in the generated
namespace, and writes the PNG bytes to every resource pack.

The project has five modules:

- `Int32` (`int32.dfy`): Java `int` arithmetic with explicit 32-bit wrap-around.
  The builder's `x += originX`, `-y`, `-pixels` and `x + width + 1` all use it.
- `Images` (`images.dfy`): decoded images as grids of ARGB values read through
  `getRGB`. It also holds the transparent padding and the effective width as a
  specification. The effective width is one past the rightmost column with a
  non-zero alpha.
- `Keys` (`keys.dfy`): `NamespacedKey`, the `.png` normalisation,
  `String.lastIndexOf`, `Integer.toString` and the derived key
  `<namespace>/<stem>_<size>.png`.
- `Glyphs` (`glyphs.dfy`): the two character kinds and the total shift of a
  list of characters.
- `FontSequence` (`builder.dfy`): the builder class. Its fields are
  `fontChars`, one `seq` of characters per font, one texture map per pack, and
  the origin. Its methods follow the Java methods. `DrawSpec` is the pure
  specification of `drawImage`. `DrawImage` is proved equal to it, and the
  lemmas state the promised properties about `DrawSpec`.

The environment is modelled as follows:

- The origin resolver is two functions from origins to `int`, fixed when the
  builder is constructed.
- Reading a texture is a parameter `read: Key -> Option<Image>`.
- Whether pack `i` accepts a write is a parameter `writeOk(i, key)`.
- PNG encoding is a function `encode` fixed at construction.
- The generated namespace is a string fixed at construction, because
  `Praeter.java` is not part of this model.

The write loop at `AbstractFontSequenceBuilder.java:159-163` overwrites every
pack. It does not skip a pack that already has the texture, so a repeated draw
writes the same bytes again.
`DrawAgainSharesTexture` proves that the packs end up the same either way.

## Model

| member | source | states |
|---|---|---|
| Int32.NegCancels | praeter-core/src/main/java/ca/bkaw/praeter/core/resources/font/AbstractFontSequenceBuilder.java:64-67 | `n + (-n)` is 0 in Java arithmetic for every `int`. As integers the two shifts cancel exactly when `n` is not `Integer.MIN_VALUE`. |
| Int32.ShiftBackSum | praeter-core/src/main/java/ca/bkaw/praeter/core/resources/font/AbstractFontSequenceBuilder.java:120-175 | A shift right by `x` and then left by `x + w + 1` totals `-(w + 1)` in Java arithmetic. The total is exactly that as integers when `x + w + 1` does not overflow. |
| Images.VisibleWidthBelow | praeter-core/src/main/java/ca/bkaw/praeter/core/resources/font/AbstractFontSequenceBuilder.java:187-200 | Over the first `n` columns the result is between 0 and `n`. The column just left of it holds a pixel with non-zero alpha, and every column from it up to `n` is transparent. |
| Images.EffectiveWidthUnique | praeter-core/src/main/java/ca/bkaw/praeter/core/resources/font/AbstractFontSequenceBuilder.java:187-200 | Any number with the three properties above (bounds, visible column left of it, transparent columns from it on) is the effective width. |
| Images.EffectiveWidthZero | praeter-core/src/main/java/ca/bkaw/praeter/core/resources/font/AbstractFontSequenceBuilder.java:189-199 | The effective width is 0 exactly when every pixel of the image has zero alpha (both directions). |
| Images.Pad | praeter-core/src/main/java/ca/bkaw/praeter/core/resources/font/AbstractFontSequenceBuilder.java:139-143 | The padded image is `size`×`size`. It has the source's pixels at the top-left and zero (transparent) pixels everywhere else. |
| Images.PadColumn | praeter-core/src/main/java/ca/bkaw/praeter/core/resources/font/AbstractFontSequenceBuilder.java:139-143 | A column of the padded image is visible exactly when it is a column of the source and visible there. |
| Images.PadKeepsEffectiveWidth | praeter-core/src/main/java/ca/bkaw/praeter/core/resources/font/AbstractFontSequenceBuilder.java:128-130 | Padding on the right and at the bottom leaves the effective width unchanged. |
| Keys.NormalizeKey | praeter-core/src/main/java/ca/bkaw/praeter/core/resources/font/AbstractFontSequenceBuilder.java:112-116 | The result ends with `.png`, keeps the namespace and extends the path. It equals the key exactly when the key already ends with `.png`, and otherwise appends `.png`. |
| Keys.LastIndexOf | praeter-core/src/main/java/ca/bkaw/praeter/core/resources/font/AbstractFontSequenceBuilder.java:147 | The result is -1 or an index holding the character, and no later index holds it. |
| Keys.LastDotOfPng | praeter-core/src/main/java/ca/bkaw/praeter/core/resources/font/AbstractFontSequenceBuilder.java:147-151 | In a normalised path the last `.` starts the `.png` extension, so `substring(0, extIndex)` is defined. |
| Keys.Decimal | praeter-core/src/main/java/ca/bkaw/praeter/core/resources/font/AbstractFontSequenceBuilder.java:150 | `"" + size` renders as a non-empty string of decimal digits. |
| Keys.DecimalRoundTrip | praeter-core/src/main/java/ca/bkaw/praeter/core/resources/font/AbstractFontSequenceBuilder.java:150 | Reading the digits back gives the number. |
| Keys.DerivedKey | praeter-core/src/main/java/ca/bkaw/praeter/core/resources/font/AbstractFontSequenceBuilder.java:146-152 | The derived key is in the generated namespace and its path ends with `.png`. |
| Keys.DerivedKeyPath | praeter-core/src/main/java/ca/bkaw/praeter/core/resources/font/AbstractFontSequenceBuilder.java:146-151 | The derived path is `<namespace>/<stem>_<size>.png`, where the stem is the path without `.png`. |
| Keys.DerivedKeySuffix | praeter-core/src/main/java/ca/bkaw/praeter/core/resources/font/AbstractFontSequenceBuilder.java:146-152 | Every derived path ends with `_<size>.png`. |
| Keys.DerivedKeyIsNew | praeter-core/src/main/java/ca/bkaw/praeter/core/resources/font/AbstractFontSequenceBuilder.java:145-152 | A derived key never equals the source key it came from. |
| Keys.DerivedKeyInjective | praeter-core/src/main/java/ca/bkaw/praeter/core/resources/font/AbstractFontSequenceBuilder.java:145-152 | Equal derived keys come from equal (source key, size) pairs, given namespaces without `/`. Two draws share a generated texture only when they pad the same source to the same size. |
| FontSequence.CanvasSize | praeter-core/src/main/java/ca/bkaw/praeter/core/resources/font/AbstractFontSequenceBuilder.java:126-133 | The size is at least the width, the height and the ascent, and equals one of them: it is `max(width, height, ascent)`. |
| FontSequence.FirstRefusal | praeter-core/src/main/java/ca/bkaw/praeter/core/resources/font/AbstractFontSequenceBuilder.java:159-163 | Every pack before the result accepts the write. The pack at the result refuses it, unless the result is the pack count. |
| FontSequence.ShiftPairCancels | praeter-core/src/main/java/ca/bkaw/praeter/core/resources/font/AbstractFontSequenceBuilder.java:64-85 | `shiftRight(n)` then `shiftLeft(n)` appends two shifts. They cancel in Java arithmetic, and as integers exactly when `n` is not `Integer.MIN_VALUE`. |
| FontSequence.DrawGlyphsShape | praeter-core/src/main/java/ca/bkaw/praeter/core/resources/font/AbstractFontSequenceBuilder.java:118-175 | A successful draw appends exactly three characters, in order: `Space(x)`, then a bitmap of side `max(width, height, -y)` with ascent `-y`, then `Space(-(x + effectiveWidth + 1))` in Java arithmetic. |
| FontSequence.DrawGlyphsSum | praeter-core/src/main/java/ca/bkaw/praeter/core/resources/font/AbstractFontSequenceBuilder.java:173-175 | The three characters shift by `-(effectiveWidth + 1)` in total: in Java arithmetic always, and as integers without overflow. |
| FontSequence.DrawSpacingSum | praeter-core/src/main/java/ca/bkaw/praeter/core/resources/font/AbstractFontSequenceBuilder.java:118-175 | The shifts appended by a successful draw sum to `-(effectiveWidth + 1)` of the source image, not to 0. |
| FontSequence.DrawBitmapFits | praeter-core/src/main/java/ca/bkaw/praeter/core/resources/font/AbstractFontSequenceBuilder.java:126-133 | The bitmap character's size is `max(width, height, ascent)`. So `ascent <= size`, both image sides fit, and the character is renderable. |
| FontSequence.DrawTextureKey | praeter-core/src/main/java/ca/bkaw/praeter/core/resources/font/AbstractFontSequenceBuilder.java:135-152 | The character uses the normalised source key exactly when the image is already `size`×`size`. Otherwise it uses `<namespace>/<stem>_<size>.png` in the generated namespace. |
| FontSequence.DrawWritesEveryPack | praeter-core/src/main/java/ca/bkaw/praeter/core/resources/font/AbstractFontSequenceBuilder.java:154-163 | Without padding no pack changes. With padding every pack holds the encoded padded image under the derived key, and all its other entries are unchanged. |
| FontSequence.DrawFailure | praeter-core/src/main/java/ca/bkaw/praeter/core/resources/font/AbstractFontSequenceBuilder.java:120-163 | A failed draw has appended only the first shift. A read failure touches no pack. A write failure at pack `n` leaves packs `0..n-1` written and packs from `n` on untouched. |
| FontSequence.DrawCursorNeutral | praeter-core/src/main/java/ca/bkaw/praeter/core/resources/font/AbstractFontSequenceBuilder.java:173-175 | A bitmap character advances by its texture's effective width plus one. With that rule, a whole draw returns the cursor to where it was: as integers when `x + effectiveWidth + 1` does not overflow, and modulo 2^32 always. |
| FontSequence.GlyphsCursorNeutral | praeter-core/src/main/java/ca/bkaw/praeter/core/resources/font/AbstractFontSequenceBuilder.java:166-175 | With the bitmap's advance of its texture's effective width plus one, the three characters return the cursor to its start: as integers when `x + effectiveWidth + 1` does not overflow, and modulo 2^32 always. |
| FontSequence.ScenarioShiftBackOverflows | praeter-core/src/main/java/ca/bkaw/praeter/core/resources/font/AbstractFontSequenceBuilder.java:175 | At `x = Integer.MAX_VALUE` the sum `x + effectiveWidth + 1` overflows. The opaque 4×4 image then ends with `Space(MAX - 3)`, and the cursor ends 2^32 pixels right of its start. |
| FontSequence.PlaceAllAccept | praeter-core/src/main/java/ca/bkaw/praeter/core/resources/font/AbstractFontSequenceBuilder.java:135-171 | When every pack accepts every write, placing an image succeeds. When padding is needed, every pack receives the padded texture and the characters use the derived key. |
| FontSequence.DrawAgainSharesTexture | praeter-core/src/main/java/ca/bkaw/praeter/core/resources/font/AbstractFontSequenceBuilder.java:145-163 | Repeating a draw against the packs the first draw left gives the same characters, outcome and packs. |
| FontSequence.ScenarioSquareAtOrigin | praeter-core/src/main/java/ca/bkaw/praeter/core/resources/font/AbstractFontSequenceBuilder.java:108-175 | An opaque 4×4 image at (0, 0) appends `Space(0)`, `Bitmap(key.png, 4, 0)`, `Space(-5)` and writes nothing. |
| FontSequence.ScenarioRaisedImage | praeter-core/src/main/java/ca/bkaw/praeter/core/resources/font/AbstractFontSequenceBuilder.java:121-163 | The same image at (0, -6) is padded to 6×6 under a key ending in `_6.png`, and every pack receives it, given that every pack accepts writes. |
| FontSequence.FontSequenceBuilder.constructor | praeter-core/src/main/java/ca/bkaw/praeter/core/resources/font/AbstractFontSequenceBuilder.java:32-41 | The builder starts with an empty sequence, one empty font per pack, and the given packs and origin. |
| FontSequence.FontSequenceBuilder.Build | praeter-core/src/main/java/ca/bkaw/praeter/core/resources/font/AbstractFontSequenceBuilder.java:48-50 | Returns the current character sequence and changes nothing. |
| FontSequence.FontSequenceBuilder.AddToFonts | praeter-core/src/main/java/ca/bkaw/praeter/core/resources/font/AbstractFontSequenceBuilder.java:81-83 | Every font gets exactly the one character appended. |
| FontSequence.FontSequenceBuilder.ShiftRight | praeter-core/src/main/java/ca/bkaw/praeter/core/resources/font/AbstractFontSequenceBuilder.java:79-86 | Appends one `Space(pixels)` to the sequence and to every font. Packs and origin are unchanged. |
| FontSequence.FontSequenceBuilder.ShiftLeft | praeter-core/src/main/java/ca/bkaw/praeter/core/resources/font/AbstractFontSequenceBuilder.java:64-67 | Has exactly the effect of `shiftRight(-pixels)`, with Java negation. |
| FontSequence.FontSequenceBuilder.GetOrigin | praeter-core/src/main/java/ca/bkaw/praeter/core/resources/font/AbstractFontSequenceBuilder.java:96-99 | Returns the current origin. |
| FontSequence.FontSequenceBuilder.SetOrigin | praeter-core/src/main/java/ca/bkaw/praeter/core/resources/font/AbstractFontSequenceBuilder.java:101-104 | The origin becomes the argument. Nothing else changes. |
| FontSequence.FontSequenceBuilder.DrawImage | praeter-core/src/main/java/ca/bkaw/praeter/core/resources/font/AbstractFontSequenceBuilder.java:106-178 | The outcome, the appended characters (in the sequence and in every font) and the packs all equal `DrawSpec`. The origin is resolved first. The builder invariant is kept: every font equals the sequence, and every bitmap character is renderable. |
| FontSequence.FontSequenceBuilder.Place | praeter-core/src/main/java/ca/bkaw/praeter/core/resources/font/AbstractFontSequenceBuilder.java:126-175 | Once the image is read, the appended characters, outcome and packs equal `PlaceSpec`. |
| FontSequence.FontSequenceBuilder.StoreTexture | praeter-core/src/main/java/ca/bkaw/praeter/core/resources/font/AbstractFontSequenceBuilder.java:135-164 | A square image of the right size keeps its key and writes nothing. Any other image is padded and stored under the derived key in the packs up to the first refusal. |
| FontSequence.FontSequenceBuilder.WriteToPacks | praeter-core/src/main/java/ca/bkaw/praeter/core/resources/font/AbstractFontSequenceBuilder.java:158-163 | Writes the bytes to every pack in order and stops at the first refusal, which it reports. Earlier writes stay. |
| FontSequence.FontSequenceBuilder.AddBitmap | praeter-core/src/main/java/ca/bkaw/praeter/core/resources/font/AbstractFontSequenceBuilder.java:166-175 | Appends the bitmap character, then `Space(-(x + effectiveWidth + 1))`, to the sequence and every font. |
| FontSequence.FontSequenceBuilder.GetEffectiveWidth | praeter-core/src/main/java/ca/bkaw/praeter/core/resources/font/AbstractFontSequenceBuilder.java:187-200 | The nested right-to-left scan with its early return computes exactly `EffectiveWidth`. |
| FontSequence.FontSequenceBuilder.DrawBufferedImage | praeter-core/src/main/java/ca/bkaw/praeter/core/resources/font/AbstractFontSequenceBuilder.java:202-205 | Fails with `Unsupported` for every input. |
| FontSequence.FontSequenceBuilder.DrawText | praeter-core/src/main/java/ca/bkaw/praeter/core/resources/font/AbstractFontSequenceBuilder.java:207-210 | Fails with `Unsupported` for every input. |

## Left out

- Reading the texture (`ResourcePackList.getTexturePath`, `Files.newInputStream`, `ImageIO.read`) is the parameter `read`. Path resolution and decoding are not modelled; any failure, including a `null` image, is `ReadFailed`.
- `Files.createDirectories` and `Files.write` are one map update per pack, allowed or refused by `writeOk`. Directory structure and partial file contents are not modelled.
- `ImageIO.write` is the function `encode`, fixed at construction. The PNG format is not modelled.
- `Graphics.drawImage`: `Pad` copies each ARGB value unchanged onto a zero canvas. AWT's colour-model conversion and compositing are not modelled, but the zero or non-zero alpha of every copied pixel is.
- `Font.addFontChar` is an append to that font's list that never fails. Its character-code allocation and any I/O error it may throw are not modelled. `Font.java` is not part of this model.
- The constructor's `fontKey` is passed only to `new Font(...)`, so it is dropped. Each font starts as the empty list of characters this builder registered.
- `NamespacedKey` validation is not modelled. `Keys.DerivedKeyInjective` assumes, as a requirement, the namespace rule that a namespace has no `/`.
- `DrawOrigin` and `DrawOriginResolver` are an abstract type parameter and two resolver functions. The concrete resolvers are not part of this model.
- `FontSequence` receives `this.fontChars` itself. It may alias the builder's list, depending on `FontSequence`'s constructor, which is not part of this model. `Build` returns the sequence's value at the moment of the call. Later draws are not visible through it.
- `getThis()` and the fluent `return this` are left out; methods return their outcome instead.
- Java exceptions are the `Outcome` result. Throwing from inside a font registration cannot happen in the model (see `Font.addFontChar` above).
- `FontSequence.DrawCursorNeutral`: the game's rule that a bitmap character advances by its texture's effective width plus one is an assumption taken from the code comment at lines 173-174. It is not modelled from the game itself.
- The shift back at line 175 computes `x + effectiveWidth + 1` in Java `int`, which overflows for `x` near `Integer.MAX_VALUE`. The model keeps the overflow (`ScenarioShiftBackOverflows`). `DrawCursorNeutral` promises an exact return of the cursor only without overflow, and modulo 2^32 otherwise.
- Memory limits, such as a huge ascent making a huge canvas, are not modelled.
