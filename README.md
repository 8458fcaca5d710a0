# SDF text labels and the sorted transform list

This project models four pieces of a 3D visualisation codebase and proves properties of the model in Dafny.

- **The SDF font manager** (`three-text`). It keeps an alphabet and a 1024x1024 single-channel glyph atlas.
  - `update(newChars)` appends the characters it has not seen. When the alphabet grew, it shelf-packs every glyph of the whole alphabet into a fresh atlas: left to right, a new shelf when `x + width >= 1024`, and an error when `y + height >= 1024`. It may throw for a duplicate character, an exhausted atlas, or a `RangeError` from `Uint8ClampedArray.set`.
  - `layout(text)` places one box per non-newline character, falling back to U+FFFD for characters the atlas lacks.
  - Its constructor seeds the alphabet with U+FFFD and `' '`..`'~'`.
- **The label pool of the SDF renderer** (`three-text`). A pool uploads the atlas as an RGBA texture: four values `1, 1, 1, alpha` per atlas value. A label lays its text out and packs ten values per character into a grow-only `Float32Array` instance buffer, flipping y so that it grows upwards.
- **The label pool of the 3D panel** (`studio-base`). It has the same structure with six values per character, written against a font manager of which only the interface is known.
- **`SortedList`**, the ordered key/value array of the transform tree. It provides `binarySearch`, returning the index or `~insertionPoint`, and also `set`, `shift`, `pop`, `at`, `clear`, `size` and the min/max accessors.

Modules, one per file:

- `Base`: bytes, `Option`, `Outcome`, `Result`.
- `AtlasPacking`: a pure specification of the alphabet extension, of `subarray`/`set`, and of the shelf packing (`Rebuild`).
- `TextLayout`: a pure specification of `layout`, with a closed-form reference description.
- `Fonts`: the `FontManager` class. Its methods loop and write arrays the way the source does, each proved against the specification functions.
- `Textures`: the data texture and the RGBA expansion.
- `ThreeTextLabels` and `StudioLabels`: the two label pools.
- `SortedLists`: the `SortedList` class over a `seq` field, with the dictionary it stands for (`AsMap`).

The glyph rasteriser (TinySDF) is a parameter `draw: char -> Glyph`. The 3D panel's font manager is a class whose `update` effect and `layout` are the parameters `extend` and `layoutOf`. Float32 buffer values are modelled as integers.

## Model

| member | source | states |
|---|---|---|
| AtlasPacking.SeedContents | packages/three-text/src/FontManager.ts:57-62 | the seed holds U+FFFD and every code point from ' ' to '~', each once, and nothing else |
| AtlasPacking.Extend | packages/three-text/src/FontManager.ts:68-73 | the old alphabet is a prefix of the new one, which gains at most one character per character of `newChars` |
| AtlasPacking.ExtendAppendsFresh | packages/three-text/src/FontManager.ts:67-73 | the new alphabet is the old one plus the unseen characters of `newChars`, once each, in order of first occurrence; its character set is the union; no duplicate is introduced; it is unchanged iff every character was known |
| AtlasPacking.FreshMembers | packages/three-text/src/FontManager.ts:68-72 | the appended characters are exactly the characters of `newChars` outside the alphabet, without repetition |
| AtlasPacking.Subarray | packages/three-text/src/FontManager.ts:105 | `subarray(b, e)` clamps both ends to the length: it is never longer than `e - b`, and is exactly that slice when it lies inside the array |
| AtlasPacking.RowInBitmap | packages/three-text/src/FontManager.ts:104-105 | for a glyph whose bitmap holds width*height values, every row `width*r .. width*(r+1)` lies inside it |
| AtlasPacking.SetAt | packages/three-text/src/FontManager.ts:105 | `set` succeeds iff the source fits at the offset, and a successful `set` keeps the array length |
| AtlasPacking.BlitRows | packages/three-text/src/FontManager.ts:104-106 | a successful row-by-row copy never changes the atlas length |
| AtlasPacking.BlitRowsFailurePersists | packages/three-text/src/FontManager.ts:104-106 | once one row is out of range the whole copy fails: copying further rows never succeeds again |
| AtlasPacking.BlitRowsInRange | packages/three-text/src/FontManager.ts:104-106 | a rectangle inside the 1024x1024 atlas never raises a RangeError |
| AtlasPacking.BlitPixel | packages/three-text/src/FontManager.ts:104-106 | after copying rows 0..n, each atlas pixel in the rectangle is the glyph's pixel and each pixel outside it is as before |
| AtlasPacking.BlitRowsEffect | packages/three-text/src/FontManager.ts:104-106 | the copy succeeds and puts glyph pixel (r, c) at atlas pixel (y+r, x+c), leaving every other pixel unchanged |
| AtlasPacking.BlitShows | packages/three-text/src/FontManager.ts:104-106 | a blitted glyph is shown in its own rectangle |
| AtlasPacking.BlitKeeps | packages/three-text/src/FontManager.ts:104-106 | a blit keeps every glyph whose rectangle it does not overlap |
| AtlasPacking.Place | packages/three-text/src/FontManager.ts:90-116 | a placement that does not throw was of a character not yet in the table, and keeps the atlas length |
| AtlasPacking.PackAll | packages/three-text/src/FontManager.ts:89-117 | a packing that does not throw leaves a full 1024*1024 atlas |
| AtlasPacking.Rebuild | packages/three-text/src/FontManager.ts:78-126 | a rebuild that does not throw gives a 1024x1024 atlas holding 1024*1024 values |
| AtlasPacking.PlaceExhausts | packages/three-text/src/FontManager.ts:94-101 | a glyph whose shelf has no room below (`y + height >= 1024`) throws the exhaustion error |
| AtlasPacking.PlaceFits | packages/three-text/src/FontManager.ts:94-116 | a glyph that passes both checks is placed at the cursor; rowHeight, lineHeight and maxAscent are maxima; the cursor advances by the glyph's width |
| AtlasPacking.PlaceOk | packages/three-text/src/FontManager.ts:90-116 | a successful placement: the character was new; the glyph goes at the cursor or at the start of the next shelf and is blitted there; the table gains exactly its entry |
| AtlasPacking.PlaceInRange | packages/three-text/src/FontManager.ts:104-106 | a glyph narrower than the atlas never raises a RangeError |
| AtlasPacking.PackAllLast | packages/three-text/src/FontManager.ts:89-117 | a successful packing of an alphabet is the packing of its prefix followed by one placement |
| AtlasPacking.PackAllErrorPersists | packages/three-text/src/FontManager.ts:89-117 | the first error thrown ends the rebuild: extending a failed alphabet fails with the same kind of error |
| AtlasPacking.PackAllTable | packages/three-text/src/FontManager.ts:89-117 | a successful packing has exactly one entry per alphabet character, holding that glyph's metrics, and the alphabet had no duplicate |
| AtlasPacking.PackAllGeometry | packages/three-text/src/FontManager.ts:89-117 | every packed glyph lies on an earlier shelf or left of the cursor on the current one, and no two glyphs overlap |
| AtlasPacking.PackAllMetrics | packages/three-text/src/FontManager.ts:102-115 | lineHeight is the tallest glyph height and maxAscent the largest glyph top or 0; both are attained |
| AtlasPacking.PackAllInside | packages/three-text/src/FontManager.ts:94-101 | with glyphs narrower than the atlas, every glyph lies inside both atlas dimensions |
| AtlasPacking.PackAllNoRangeError | packages/three-text/src/FontManager.ts:104-106 | with narrow glyphs, no row copy ever raises a RangeError |
| AtlasPacking.PackAllNoDuplicate | packages/three-text/src/FontManager.ts:90-92 | a duplicate-free alphabet never trips the duplicate-character check |
| AtlasPacking.PlaceShows | packages/three-text/src/FontManager.ts:104-114 | placing a narrow, well-formed glyph shows it in the atlas and keeps every earlier glyph shown |
| AtlasPacking.PackAllPixels | packages/three-text/src/FontManager.ts:89-117 | after packing narrow, well-formed glyphs, each table entry's rectangle holds exactly that glyph's bitmap |
| AtlasPacking.RebuildTable | packages/three-text/src/FontManager.ts:78-126 | a successful rebuild is 1024x1024 with 1024*1024 values, has one entry per alphabet character with that glyph's metrics, and succeeds only for a duplicate-free alphabet |
| AtlasPacking.RebuildLayout | packages/three-text/src/FontManager.ts:89-117 | packed glyphs never overlap and lie inside the atlas height, and inside its width when all glyphs are narrow |
| AtlasPacking.RebuildMetrics | packages/three-text/src/FontManager.ts:102-126 | the atlas lineHeight is the tallest glyph's height and maxAscent the largest glyph top, at least 0 |
| AtlasPacking.RebuildPixels | packages/three-text/src/FontManager.ts:104-114 | with narrow, well-formed glyphs, atlas pixel (atlasY+r, atlasX+c) is glyph pixel (r, c) for every character |
| AtlasPacking.RebuildErrors | packages/three-text/src/FontManager.ts:90-101 | for a duplicate-free alphabet of narrow glyphs, the only error is exhaustion, and a failed alphabet keeps failing with the same kind of error when extended |
| AtlasPacking.ExhaustionExample | packages/three-text/src/FontManager.ts:94-101 | glyphs 1000 wide and 400 tall take one shelf each: two fit and a third exhausts the atlas |
| Fonts.UpdateSpec | packages/three-text/src/FontManager.ts:66-127 | the alphabet only grows; when it did not grow, the state is unchanged and the call returns normally; when the call throws, the atlas is the old one |
| Fonts.UpdateKnownChars | packages/three-text/src/FontManager.ts:66-77 | `update` changes nothing iff every character of `newChars` is already in the alphabet |
| Fonts.UpdateCovers | packages/three-text/src/FontManager.ts:66-127 | the alphabet gains exactly the new characters and stays duplicate-free; a successful update of an in-sync font stays in sync and gives every new character an entry holding its glyph's width, height, top and advance |
| Fonts.UpdateIdempotent | packages/three-text/src/FontManager.ts:66-77 | a second update with the same characters changes nothing |
| Fonts.UpdateFailureIsFinal | packages/three-text/src/FontManager.ts:66-127 | after a failed rebuild the atlas is never replaced again, and each later update either meets no new character or throws the same kind of error |
| Fonts.UpdateErrors | packages/three-text/src/FontManager.ts:89-101 | for a duplicate-free alphabet of narrow glyphs, an update only throws for exhaustion |
| Fonts.ExtendSeed | packages/three-text/src/FontManager.ts:56-64 | updating the empty alphabet with the seed gives exactly the seed |
| Fonts.FontManager.constructor | packages/three-text/src/FontManager.ts:46-54 | the field initialisers: empty alphabet, empty 0x0 atlas |
| Fonts.FontManager.Create | packages/three-text/src/FontManager.ts:56-64 | construction builds the seed alphabet; it throws iff its rebuild fails, with the same error; on success the atlas is the seed's rebuild and U+FFFD and all seed characters have entries |
| Fonts.FontManager.SeedAlphabet | packages/three-text/src/FontManager.ts:57-62 | the loop builds U+FFFD followed by ' ' through '~' |
| Fonts.FontManager.ReadyToLayout | packages/three-text/src/FontManager.ts:56-64 | a constructed font manager has an entry for U+FFFD and a non-negative line height |
| Fonts.FontManager.Update | packages/three-text/src/FontManager.ts:66-127 | the dedup loop and rebuild compute exactly `UpdateSpec`; a constructed manager stays constructed; the atlas matches the alphabet afterwards iff the alphabet did not grow and it matched before, or it grew and the rebuild succeeded |
| Fonts.FontManager.AddChars | packages/three-text/src/FontManager.ts:67-73 | the dedup loop leaves the alphabet equal to `Extend(old alphabet, newChars)`, keeps the atlas, and reports a change iff the alphabet grew |
| Fonts.FontManager.PackAtlas | packages/three-text/src/FontManager.ts:78-126 | the shelf-packing loop over a fresh 1024x1024 array returns exactly `Rebuild(draw, alphabet)`, or its error |
| Fonts.FontManager.BlitGlyph | packages/three-text/src/FontManager.ts:104-106 | the row loop fails iff some row is out of range, and otherwise leaves the array equal to `BlitRows` of its old contents |
| Fonts.FontManager.SetFrom | packages/three-text/src/FontManager.ts:105 | `atlas.set(src, offset)` fails with nothing written when `src` runs past the end, and otherwise writes exactly `src` at `offset` |
| Fonts.FontManager.Layout | packages/three-text/src/FontManager.ts:129-158 | the layout loop computes exactly `LayoutOf(atlasData, text)` |
| TextLayout.LayoutPen | packages/three-text/src/FontManager.ts:135-156 | after text t, the pen's x is the advance since the last newline, its line top is lineHeight times the newline count, and there is one box per non-newline character |
| TextLayout.LayoutClosedForm | packages/three-text/src/FontManager.ts:135-156 | box k of the loop is `BoxAt` of the k-th non-newline character |
| TextLayout.LayoutOf | packages/three-text/src/FontManager.ts:129-158 | `layout` returns one box per non-newline character and a width and height that are not negative |
| TextLayout.LayoutBoxes | packages/three-text/src/FontManager.ts:129-158 | `layout` returns one box per non-newline character, in text order, each equal to the closed form `BoxAt` |
| TextLayout.LayoutGlyph | packages/three-text/src/FontManager.ts:140-151 | the box of a character shows its own atlas entry (size and atlas position) when it has one and U+FFFD's otherwise, and its glyph top is the line top plus maxAscent minus that same entry's yOffset |
| TextLayout.LayoutWidth | packages/three-text/src/FontManager.ts:152-153 | the width is at least 0, at least every character's right edge, and equal to one of them unless 0 |
| TextLayout.LayoutHeight | packages/three-text/src/FontManager.ts:154 | the height is at least 0, at least every box's bottom, and equal to one of them unless 0 |
| TextLayout.LayoutLineBoxes | packages/three-text/src/FontManager.ts:137-146 | with a non-negative line height, every box starts at or below the top and is one line tall |
| TextLayout.LayoutExtent | packages/three-text/src/FontManager.ts:129-158 | the label is as wide as the furthest right edge and as tall as the lowest box, and 0 by 0 when nothing is drawn |
| TextLayout.AdvanceAppend | packages/three-text/src/FontManager.ts:152 | the advance of concatenated text is the sum of the advances |
| TextLayout.SameLine | packages/three-text/src/FontManager.ts:136-152 | two characters with no newline between them share a line box and a baseline, and the later starts at the earlier's left plus the advances between them |
| TextLayout.LayoutExample | packages/three-text/src/FontManager.ts:129-158 | "A\nBC" with an unknown 'C' gives the three expected boxes and a 21x40 label |
| Textures.Rgba | packages/three-text/src/LabelPool.ts:257-261 | the expansion holds four values per atlas value |
| Textures.RgbaChannels | packages/three-text/src/LabelPool.ts:257-261 | pixel i of the expansion has RGB 1 and alpha equal to atlas value i |
| Textures.AlphaOfRgba | packages/three-text/src/LabelPool.ts:257-261 | the expansion's alpha channel is the atlas itself |
| Textures.ExpandRgba | packages/three-text/src/LabelPool.ts:257-261 | the expansion loop returns an array of 4n values whose pixel i is (1, 1, 1, atlas value i) |
| Textures.Texture.SetImage | packages/three-text/src/LabelPool.ts:263-268 | the image is replaced and `needsUpdate` is set |
| ThreeTextLabels.Instance | packages/three-text/src/LabelPool.ts:215-230 | ten values per character, from which the character is recovered exactly, with box x equal to character x and box width equal to character width |
| ThreeTextLabels.InstanceInsideLabel | packages/three-text/src/LabelPool.ts:215-218 | the flipped box lies inside the label and is one line tall, and the character sits in it at its glyph offset |
| ThreeTextLabels.WriteInstance | packages/three-text/src/LabelPool.ts:214-231 | the ten cursor writes put exactly the character's instance values at the cursor, and nothing else changes |
| ThreeTextLabels.RequiredLength | packages/three-text/src/LabelPool.ts:206-207 | the byte length compared against holds at least ten values per character, and is 0 only for no characters |
| ThreeTextLabels.LabelPool.constructor | packages/three-text/src/LabelPool.ts:238-251 | an empty 0x0 texture around the given font manager |
| ThreeTextLabels.LabelPool.Update | packages/three-text/src/LabelPool.ts:253-269 | the font manager's state follows `UpdateSpec`; on success the texture image is the RGBA expansion with the atlas dimensions and is marked for upload; when the font manager throws, the texture is untouched |
| ThreeTextLabels.LabelPool.Acquire | packages/three-text/src/LabelPool.ts:271-274 | a fresh label on this pool with no text and an empty buffer |
| ThreeTextLabels.Label.constructor | packages/three-text/src/LabelPool.ts:125-189 | no text, empty buffer, label size 0x0, no instance-count limit, texture-size uniform equal to the pool texture's size |
| ThreeTextLabels.Label.Update | packages/three-text/src/LabelPool.ts:191-233 | new text is stored before the pool update; an exception propagates with the label's buffer and uniforms untouched; otherwise the texture size is copied after a text update and the label shows the layout of its stored text |
| ThreeTextLabels.Label.Relayout | packages/three-text/src/LabelPool.ts:200-232 | label size and counts are the layout's; the buffer is reallocated to `n*10*4` zeroed values exactly when its byte length is short, and is otherwise kept; it never shrinks; slot 10k+f holds value f of character k and later slots keep their values |
| ThreeTextLabels.Label.WriteInstances | packages/three-text/src/LabelPool.ts:212-231 | the packing loop fills slots 10k..10k+9 with character k's instance values and leaves later slots unchanged |
| StudioLabels.Instance | packages/studio-base/src/panels/ThreeDeeRender/text/LabelPool.ts:181-188 | six values per character, from which the character is recovered exactly; a character inside the label stays inside it after the flip |
| StudioLabels.WriteInstance | packages/studio-base/src/panels/ThreeDeeRender/text/LabelPool.ts:181-188 | the six cursor writes put exactly the character's instance values at the cursor, and nothing else changes |
| StudioLabels.RequiredLength | packages/studio-base/src/panels/ThreeDeeRender/text/LabelPool.ts:173-174 | the byte length compared against holds at least six values per character, and is 0 only for no characters |
| StudioLabels.LabelPool.constructor | packages/studio-base/src/panels/ThreeDeeRender/text/LabelPool.ts:195-208 | an empty 0x0 texture around the given font manager |
| StudioLabels.LabelPool.Update | packages/studio-base/src/panels/ThreeDeeRender/text/LabelPool.ts:210-226 | the font manager's update runs; on success the texture image is the RGBA expansion with the atlas dimensions and is marked for upload; when it throws, the texture is untouched |
| StudioLabels.LabelPool.Acquire | packages/studio-base/src/panels/ThreeDeeRender/text/LabelPool.ts:228-230 | a fresh label on this pool with no text and an empty buffer |
| StudioLabels.Label.constructor | packages/studio-base/src/panels/ThreeDeeRender/text/LabelPool.ts:111-160 | no text, empty buffer, no instance-count limit, texture-size uniform equal to the pool texture's size |
| StudioLabels.Label.Update | packages/studio-base/src/panels/ThreeDeeRender/text/LabelPool.ts:162-190 | new text is stored before the pool update; an exception propagates with the label's buffer and uniforms untouched; otherwise the texture size is copied after a text update and the label shows the layout of its stored text |
| StudioLabels.Label.Relayout | packages/studio-base/src/panels/ThreeDeeRender/text/LabelPool.ts:170-189 | counts are the layout's; the buffer is reallocated to `n*6*4` zeroed values exactly when its byte length is short, and is otherwise kept; it never shrinks; slot 6k+f holds value f of character k and later slots keep their values |
| StudioLabels.Label.WriteInstances | packages/studio-base/src/panels/ThreeDeeRender/text/LabelPool.ts:180-188 | the packing loop fills slots 6k..6k+5 with character k's instance values and leaves later slots unchanged |
| SortedLists.AsMapKeys | packages/studio-base/src/panels/ThreeDeeRender/transforms/SortedList.ts:6 | a key is in the dictionary iff some pair has it |
| SortedLists.AsMapValue | packages/studio-base/src/panels/ThreeDeeRender/transforms/SortedList.ts:6 | in a sorted list every pair is its key's dictionary entry |
| SortedLists.AsMapSize | packages/studio-base/src/panels/ThreeDeeRender/transforms/SortedList.ts:9-11 | a sorted list has as many pairs as distinct keys |
| SortedLists.CountBelowAt | packages/studio-base/src/panels/ThreeDeeRender/transforms/SortedList.ts:60-83 | a split point between smaller and larger keys equals the number of smaller keys |
| SortedLists.ReplaceEntry | packages/studio-base/src/panels/ThreeDeeRender/transforms/SortedList.ts:23-24 | overwriting the value at an existing key's index keeps the list sorted and updates only that key |
| SortedLists.InsertEntry | packages/studio-base/src/panels/ThreeDeeRender/transforms/SortedList.ts:26-32 | inserting a new key at its split point keeps the list sorted and adds exactly that entry |
| SortedLists.RemoveEntry | packages/studio-base/src/panels/ThreeDeeRender/transforms/SortedList.ts:36-42 | removing one pair keeps the list sorted and removes exactly that pair's key |
| SortedLists.DropFirst | packages/studio-base/src/panels/ThreeDeeRender/transforms/SortedList.ts:36-38 | dropping the first pair removes exactly the smallest key |
| SortedLists.DropLast | packages/studio-base/src/panels/ThreeDeeRender/transforms/SortedList.ts:40-42 | dropping the last pair removes exactly the largest key |
| SortedLists.SortedList.constructor | packages/studio-base/src/panels/ThreeDeeRender/transforms/SortedList.ts:6 | a new list is empty |
| SortedLists.SortedList.Size | packages/studio-base/src/panels/ThreeDeeRender/transforms/SortedList.ts:9-11 | the size is the number of distinct keys stored |
| SortedLists.SortedList.Clear | packages/studio-base/src/panels/ThreeDeeRender/transforms/SortedList.ts:13-15 | the list becomes empty |
| SortedLists.SortedList.At | packages/studio-base/src/panels/ThreeDeeRender/transforms/SortedList.ts:17-19 | defined iff 0 <= index < size; then it is a stored entry with exactly `index` smaller keys |
| SortedLists.SortedList.MinEntry | packages/studio-base/src/panels/ThreeDeeRender/transforms/SortedList.ts:44-46 | undefined iff empty; otherwise a stored entry whose key is the smallest |
| SortedLists.SortedList.MaxEntry | packages/studio-base/src/panels/ThreeDeeRender/transforms/SortedList.ts:48-50 | undefined iff empty; otherwise a stored entry whose key is the largest |
| SortedLists.SortedList.MinKey | packages/studio-base/src/panels/ThreeDeeRender/transforms/SortedList.ts:52-54 | undefined iff empty; otherwise the smallest stored key |
| SortedLists.SortedList.MaxKey | packages/studio-base/src/panels/ThreeDeeRender/transforms/SortedList.ts:56-58 | undefined iff empty; otherwise the largest stored key |
| SortedLists.SortedList.BinarySearch | packages/studio-base/src/panels/ThreeDeeRender/transforms/SortedList.ts:60-83 | a non-negative result indexes the key; a negative one is `~p`, where the key is absent and p is the number of smaller keys; an empty list gives -1 |
| SortedLists.SortedList.Set | packages/studio-base/src/panels/ThreeDeeRender/transforms/SortedList.ts:21-34 | the dictionary becomes `old[key := value]` and the list stays sorted; an existing key keeps its position and every other pair, and a new key is inserted at its split point |
| SortedLists.SortedList.Shift | packages/studio-base/src/panels/ThreeDeeRender/transforms/SortedList.ts:36-38 | removes and returns the first pair, which holds the smallest key; undefined and no change when the list is empty |
| SortedLists.SortedList.Pop | packages/studio-base/src/panels/ThreeDeeRender/transforms/SortedList.ts:40-42 | removes and returns the last pair, which holds the largest key; undefined and no change when the list is empty |

## Left out

- The rasteriser (TinySDF, font size 100, buffer 10) is the parameter `draw`. The pixel lemmas assume its bitmaps hold `width * height` values (`WellFormed`); the range and exhaustion lemmas assume glyphs narrower than the atlas (`Narrow`). Both appear as explicit preconditions.
- `Fonts.FontManager.Create`: the source's constructor may throw, and a Dafny constructor cannot fail. The constructor therefore models only the field initialisers, and the static method `Create` models the seeding `update`.
- After an exhaustion error the alphabet keeps the new characters while the atlas stays stale. Later updates without new characters return normally, and those characters are then drawn as U+FFFD. This is modelled as the source does it, through the ghost notion `Synced`.
- The float32 values of the instance buffer and the `uScale` uniform (`1 / lineHeight`) are not modelled: buffer values are exact integers and `uScale` is omitted.
- `new Float32Array(byteLength)` receives a byte count where it expects an element count, so the buffer holds four times as many values as needed. This is modelled as written; the buffer still holds `10n` (or `6n`) values.
- Error messages: `FontError` keeps only the kind of error, plus the repeated character for `DuplicateCharacter`. The exhaustion message also counts the alphabet's UTF-16 units (packages/three-text/src/FontManager.ts:100). A later update that exhausts the atlas again throws a message with a larger count, while the model returns the same `AtlasExhausted` value.
- `SortedLists.SortedList.BinarySearch`: keys are unbounded integers. The 32-bit range of `>> 1` and `~` is not modelled: `(left + right) >> 1` wraps once `left + right >= 2^31`, so lists longer than about 2^30 entries are outside the model. Keys are `int` rather than any comparable `K`.
- Integer advances: `Glyph.glyphAdvance` and `CharInfo.xAdvance` are integers, so the layout's `x`, `left` and `width` values and the sums in `TextLayout.AdvanceAppend` and `TextLayout.SameLine` are exact. The source copies TinySDF's `glyphAdvance`, which may be fractional (packages/three-text/src/FontManager.ts:113), into `xAdvance` and sums it in floating point.
- UTF-16 strings: a Dafny `char` is a Unicode scalar value, so lone surrogates are not modelled. In the source, `for…of` walks code points and a lone surrogate is one element; two lone halves appended by separate `update` calls would fuse into one code point inside `alphabet`, which the model cannot express.
- Entry aliasing in `SortedList`: the source hands out its stored `[K, V]` arrays by reference (packages/studio-base/src/panels/ThreeDeeRender/transforms/SortedList.ts:18, 45, 49, and the removed entry in `shift`/`pop`), and `set` on an existing key overwrites the stored array in place (line 24), so an entry returned earlier by `at`, `minEntry` or `maxEntry` sees the new value. The model's pairs are values: `SortedLists.SortedList.At`, `MinEntry`, `MaxEntry`, `Shift` and `Pop` return copies, and `SortedLists.SortedList.Set` replaces the pair, so a caller mutating a returned entry, or observing a later `set` through it, is not modelled.
- `StudioLabels.FontManager`: the 3D panel's `./FontManager` is not part of this model. Its `update` is the parameter `extend` (the new atlas, and whether it throws) and its `layout` is the parameter `layoutOf`; nothing is assumed about either.
- The studio `FontManager.ts` stub next to `ThreeDeeRender` is not modelled. It never initialises its alphabet and discards its drawn glyphs.
- three.js objects (materials, shaders, `InstancedMesh`, geometry attributes) become plain fields of the label: the uniforms it sets (`uTextureSize`, `uLabelSize`), the instance and mesh counts, the buffer and its `needsUpdate` flag; the texture is reduced to its image and its `needsUpdate` flag. Shader code and rendering are left out.
