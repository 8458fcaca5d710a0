/**
 * The glyph atlas of the run-time text renderer, as values: how the alphabet
 * grows, how a rebuild shelf-packs every glyph of the alphabet into one
 * 1024x1024 single-channel atlas and blits its bitmap row by row, and what the
 * resulting per-character table and metrics are.
 */
module AtlasPacking {
  import opened Base

  const AtlasWidth: nat := 1024
  const AtlasHeight: nat := 1024
  const AtlasSize: nat := AtlasWidth * AtlasHeight

  /** U+FFFD, always in the alphabet; layout falls back to it. */
  const Replacement: char := '\U{FFFD}'

  /** What the rasteriser (the SDF glyph renderer) returns for one character. */
  datatype Glyph = Glyph(width: nat, height: nat, glyphTop: int, glyphAdvance: int, data: seq<Byte>)

  /** The rasteriser, a pure function of the character (its font size and buffer are fixed). */
  type Rasterizer = char -> Glyph

  /** Where a glyph sits in the atlas and how it is drawn. */
  datatype CharInfo = CharInfo(atlasX: int, atlasY: int, width: int, height: int, yOffset: int, xAdvance: int)

  datatype AtlasData = AtlasData(
    data: seq<Byte>,
    width: int,
    height: int,
    charInfo: map<char, CharInfo>,
    maxAscent: int,
    lineHeight: int)

  /** The atlas a font manager holds before its first rebuild. */
  const EmptyAtlas: AtlasData := AtlasData([], 0, 0, map[], 0, 0)

  datatype FontError =
    | DuplicateCharacter(c: char)  // the alphabet held a character twice
    | AtlasExhausted               // the next shelf has no room for a glyph
    | BlitOutOfRange               // a bitmap row would be written past the end of the atlas

  /** The rasteriser's bitmap holds exactly `width * height` values, row after row (see `WellFormedSize`). */
  predicate WellFormed(g: Glyph)
  {
    |g.data| == RowStart(g, g.height)
  }

  /** The glyph is narrower than the atlas. */
  predicate Narrow(g: Glyph)
  {
    g.width < AtlasWidth
  }

  ghost predicate AllNarrow(draw: Rasterizer, s: string)
  {
    forall c :: c in s ==> Narrow(draw(c))
  }

  ghost predicate AllWellFormed(draw: Rasterizer, s: string)
  {
    forall c :: c in s ==> WellFormed(draw(c))
  }

  function Chars(s: string): set<char>
  {
    set c | c in s
  }

  // ---------------------------------------------------------------------------
  // The alphabet

  /** The seed alphabet: U+FFFD followed by every code point from ' ' to '~'. */
  const Seed: string := [Replacement] + seq(0x7F - 0x20, k requires 0 <= k < 0x7F - 0x20 => (0x20 + k) as char)

  lemma SeedContents()
    ensures |Seed| == 96 && NoDup(Seed)
    ensures Replacement in Seed
    ensures forall c: char :: ' ' <= c <= '~' ==> c in Seed
  {
    forall c: char | ' ' <= c <= '~'
      ensures c in Seed
    {
      assert Seed[c as int - 0x20 + 1] == c;
    }
  }

  /** The alphabet after `update(newChars)`: each new character appended as it is met. */
  function Extend(alphabet: string, newChars: string): (r: string)
    ensures alphabet <= r && |r| <= |alphabet| + |newChars|
    decreases |newChars|
  {
    if newChars == [] then alphabet
    else
      var a := Extend(alphabet, newChars[..|newChars| - 1]);
      if newChars[|newChars| - 1] in a then a else a + [newChars[|newChars| - 1]]
  }

  /** The characters of `s` not in `seen`, each once, in order of first occurrence. */
  function Fresh(seen: set<char>, s: string): string
    decreases |s|
  {
    if s == [] then []
    else if s[0] in seen then Fresh(seen, s[1..])
    else [s[0]] + Fresh(seen + {s[0]}, s[1..])
  }

  lemma {:induction false} FreshMembers(seen: set<char>, s: string)
    ensures forall c :: c in Fresh(seen, s) <==> c in s && c !in seen
    ensures NoDup(Fresh(seen, s))
    decreases |s|
  {
    if s != [] {
      if s[0] in seen {
        FreshMembers(seen, s[1..]);
      } else {
        FreshMembers(seen + {s[0]}, s[1..]);
      }
    }
  }

  lemma {:induction false} FreshSnoc(seen: set<char>, s: string, c: char)
    ensures Fresh(seen, s + [c]) == Fresh(seen, s) + (if c in seen || c in s then [] else [c])
    decreases |s|
  {
    if s == [] {
      assert [c][1..] == [];
    } else {
      assert (s + [c])[0] == s[0];
      assert (s + [c])[1..] == s[1..] + [c];
      if s[0] in seen {
        FreshSnoc(seen, s[1..], c);
      } else {
        FreshSnoc(seen + {s[0]}, s[1..], c);
      }
    }
  }

  lemma {:induction false} ExtendIsFresh(alphabet: string, newChars: string)
    ensures Extend(alphabet, newChars) == alphabet + Fresh(Chars(alphabet), newChars)
    decreases |newChars|
  {
    if newChars != [] {
      var seen := Chars(alphabet);
      var p := newChars[..|newChars| - 1];
      var c := newChars[|newChars| - 1];
      assert newChars == p + [c];
      ExtendIsFresh(alphabet, p);
      FreshMembers(seen, p);
      FreshSnoc(seen, p, c);
    }
  }

  /**
   * `update` appends to the alphabet exactly the characters of `newChars` it
   * did not hold, once each, in order of first occurrence; it never drops or
   * duplicates a character, and it changes nothing when every character is known.
   */
  lemma ExtendAppendsFresh(alphabet: string, newChars: string)
    ensures Extend(alphabet, newChars) == alphabet + Fresh(Chars(alphabet), newChars)
    ensures forall c :: c in Extend(alphabet, newChars) <==> c in alphabet || c in newChars
    ensures NoDup(alphabet) ==> NoDup(Extend(alphabet, newChars))
    ensures Extend(alphabet, newChars) == alphabet <==> forall c :: c in newChars ==> c in alphabet
  {
    var seen := Chars(alphabet);
    ExtendIsFresh(alphabet, newChars);
    FreshMembers(seen, newChars);
    var f := Fresh(seen, newChars);
    var r := alphabet + f;
    if NoDup(alphabet) {
      forall i, j | 0 <= i < j < |r|
        ensures r[i] != r[j]
      {
        if j >= |alphabet| && i < |alphabet| {
          assert r[j] in f;
          assert r[i] in seen;
        } else if i >= |alphabet| {
          assert r[i] == f[i - |alphabet|] && r[j] == f[j - |alphabet|];
        }
      }
    }
    assert f != [] ==> f[0] in f;
  }

  // ---------------------------------------------------------------------------
  // Blitting: Uint8ClampedArray.set and subarray

  /** `a.set(src, offset)`: throws a RangeError (None) when `src` does not fit. */
  function SetAt(a: seq<Byte>, src: seq<Byte>, offset: nat): (r: Option<seq<Byte>>)
    ensures r.Some? <==> offset + |src| <= |a|
    ensures r.Some? ==> |r.value| == |a|
  {
    if offset + |src| > |a| then None
    else Some(seq(|a|, i requires 0 <= i < |a| => if offset <= i < offset + |src| then src[i - offset] else a[i]))
  }

  /** `s.subarray(b, e)`: both ends clamped to the length. */
  function Subarray(s: seq<Byte>, b: nat, e: nat): (r: seq<Byte>)
    ensures b <= e ==> |r| <= e - b
    ensures e <= |s| && b <= e ==> r == s[b..e]
  {
    var lo := Min(b, |s|);
    var hi := Min(e, |s|);
    if hi <= lo then [] else s[lo..hi]
  }

  /** Where bitmap row `r` of the glyph starts in its data: `width * r`, summed up row by row. */
  function RowStart(g: Glyph, r: nat): nat
  {
    if r == 0 then 0 else RowStart(g, r - 1) + g.width
  }

  lemma {:induction false} RowStartIsProduct(g: Glyph, r: nat)
    ensures RowStart(g, r) == g.width * r
  {
    if r > 0 {
      RowStartIsProduct(g, r - 1);
      assert g.width * r == g.width * (r - 1) + g.width;
    }
  }

  /** A well-formed glyph's bitmap holds `width * height` values. */
  lemma WellFormedSize(g: Glyph)
    ensures WellFormed(g) <==> |g.data| == g.width * g.height
  {
    RowStartIsProduct(g, g.height);
  }

  /** In a well-formed glyph, every row lies inside the bitmap. */
  lemma {:induction false} RowInBitmap(g: Glyph, r: nat)
    requires WellFormed(g) && r < g.height
    ensures RowStart(g, r) + g.width <= |g.data|
    decreases g.height - r
  {
    if r + 1 < g.height {
      RowInBitmap(g, r + 1);
    }
  }

  /** Bitmap row `r` of the glyph: `data.subarray(width * r, width * (r + 1))`. */
  function RowData(g: Glyph, r: nat): (row: seq<Byte>)
    ensures |row| <= g.width
  {
    Subarray(g.data, RowStart(g, r), RowStart(g, r + 1))
  }

  lemma RowDataSlice(g: Glyph, r: nat)
    requires WellFormed(g) && r < g.height
    ensures RowStart(g, r) + g.width <= |g.data|
    ensures RowData(g, r) == g.data[RowStart(g, r)..RowStart(g, r) + g.width]
  {
    RowInBitmap(g, r);
  }

  /**
   * The atlas after copying rows `0..n` of `g` to the rectangle whose top-left
   * corner is (x, y); a successful copy never changes the atlas length.
   */
  function BlitRows(a: seq<Byte>, g: Glyph, x: nat, y: nat, n: nat): (r: Option<seq<Byte>>)
    ensures r.Some? ==> |r.value| == |a|
  {
    if n == 0 then Some(a)
    else
      match BlitRows(a, g, x, y, n - 1)
      case None => None
      case Some(a') => SetAt(a', RowData(g, n - 1), AtlasWidth * (y + n - 1) + x)
  }

  /** The atlas value in row `row`, column `col`. */
  function Pixel(a: seq<Byte>, row: int, col: int): Byte
    requires |a| == AtlasSize && 0 <= row < AtlasHeight && 0 <= col < AtlasWidth
  {
    a[AtlasWidth * row + col]
  }

  /** The glyph's bitmap value in row `r`, column `c`. */
  function GlyphPixel(g: Glyph, r: int, c: int): Byte
    requires WellFormed(g) && 0 <= r < g.height && 0 <= c < g.width
  {
    RowInBitmap(g, r);
    g.data[RowStart(g, r) + c]
  }

  /** Once a row does not fit, the blit has failed: copying more rows never succeeds again. */
  lemma {:induction false} BlitRowsFailurePersists(a: seq<Byte>, g: Glyph, x: nat, y: nat, n: nat, m: nat)
    requires n <= m && BlitRows(a, g, x, y, n).None?
    ensures BlitRows(a, g, x, y, m).None?
    decreases m
  {
    if n < m {
      BlitRowsFailurePersists(a, g, x, y, n, m - 1);
      assert BlitRows(a, g, x, y, m - 1).None?;
    }
  }

  /** A rectangle inside the atlas can always be blitted. */
  lemma {:induction false} BlitRowsInRange(a: seq<Byte>, g: Glyph, x: nat, y: nat, n: nat)
    requires |a| == AtlasSize && x + g.width <= AtlasWidth && y + n <= AtlasHeight
    ensures BlitRows(a, g, x, y, n).Some? && |BlitRows(a, g, x, y, n).value| == AtlasSize
  {
    if n > 0 {
      BlitRowsInRange(a, g, x, y, n - 1);
      var src := RowData(g, n - 1);
      assert AtlasWidth * (y + n - 1) + x + |src| <= AtlasWidth * (y + n);
    }
  }

  /** In atlas coordinates, a row copy touches exactly one row segment. */
  lemma SegmentOfRow(row0: int, x: nat, w: nat, row: int, col: int)
    requires 0 <= col < AtlasWidth && x + w <= AtlasWidth
    ensures AtlasWidth * row0 + x <= AtlasWidth * row + col < AtlasWidth * row0 + x + w
        <==> row == row0 && x <= col < x + w
  {
  }

  lemma SetAtIndex(a: seq<Byte>, src: seq<Byte>, offset: nat, p: int)
    requires offset + |src| <= |a| && 0 <= p < |a|
    ensures SetAt(a, src, offset).Some? && |SetAt(a, src, offset).value| == |a|
    ensures SetAt(a, src, offset).value[p] == if offset <= p < offset + |src| then src[p - offset] else a[p]
  {
  }

  lemma SliceIndex(d: seq<Byte>, b: nat, w: nat, k: nat)
    requires b + w <= |d| && k < w
    ensures d[b..b + w][k] == d[b + k]
  {
  }

  /** Copying bitmap row `r` of `g` (the values `src`) to atlas row `y` at column `x` puts that row under the glyph. */
  lemma BlitRowInside(prev: seq<Byte>, next: seq<Byte>, g: Glyph, src: seq<Byte>, r: nat, x: nat, y: nat, col: int)
    requires |prev| == AtlasSize && WellFormed(g) && r < g.height
    requires x <= col < x + g.width && x + g.width <= AtlasWidth && y < AtlasHeight
    requires RowStart(g, r) + g.width <= |g.data| && src == g.data[RowStart(g, r)..RowStart(g, r) + g.width]
    requires SetAt(prev, src, AtlasWidth * y + x) == Some(next)
    ensures |next| == AtlasSize
    ensures Pixel(next, y, col) == GlyphPixel(g, r, col - x)
  {
    var offset := AtlasWidth * y + x;
    SetAtIndex(prev, src, offset, AtlasWidth * y + col);
    SliceIndex(g.data, RowStart(g, r), g.width, col - x);
  }

  /** The same copy leaves every pixel outside that row segment as it was. */
  lemma BlitRowOutside(prev: seq<Byte>, next: seq<Byte>, src: seq<Byte>, w: nat, x: nat, y: nat, row: int, col: int)
    requires |prev| == AtlasSize && |src| == w
    requires x + w <= AtlasWidth && y < AtlasHeight
    requires 0 <= row < AtlasHeight && 0 <= col < AtlasWidth && !(row == y && x <= col < x + w)
    requires SetAt(prev, src, AtlasWidth * y + x) == Some(next)
    ensures |next| == AtlasSize
    ensures Pixel(next, row, col) == Pixel(prev, row, col)
  {
    SetAtIndex(prev, src, AtlasWidth * y + x, AtlasWidth * row + col);
    SegmentOfRow(y, x, w, row, col);
  }

  /** The pixel (row, col) lies in the rectangle of width w and height h at (x, y). */
  predicate InRect(x: int, y: int, w: int, h: int, row: int, col: int)
  {
    y <= row < y + h && x <= col < x + w
  }

  /** One atlas pixel after blitting rows `0..n` of a well-formed glyph at (x, y). */
  lemma {:induction false} BlitPixel(a: seq<Byte>, g: Glyph, x: nat, y: nat, n: nat, row: int, col: int)
    requires |a| == AtlasSize && WellFormed(g) && n <= g.height
    requires x + g.width <= AtlasWidth && y + n <= AtlasHeight
    requires 0 <= row < AtlasHeight && 0 <= col < AtlasWidth
    ensures BlitRows(a, g, x, y, n).Some? && |BlitRows(a, g, x, y, n).value| == AtlasSize
    ensures Pixel(BlitRows(a, g, x, y, n).value, row, col) ==
      if InRect(x, y, g.width, n, row, col) then GlyphPixel(g, row - y, col - x) else Pixel(a, row, col)
  {
    BlitRowsInRange(a, g, x, y, n);
    if n > 0 {
      BlitPixel(a, g, x, y, n - 1, row, col);
      var prev := BlitRows(a, g, x, y, n - 1).value;
      var next := BlitRows(a, g, x, y, n).value;
      assert SetAt(prev, RowData(g, n - 1), AtlasWidth * (y + n - 1) + x) == Some(next);
      BlitPixelStep(a, prev, next, g, x, y, n, row, col);
    }
  }

  /** The induction step of `BlitPixel`: copying glyph row `n - 1` extends the rectangle by one row. */
  lemma BlitPixelStep(a: seq<Byte>, prev: seq<Byte>, next: seq<Byte>, g: Glyph, x: nat, y: nat, n: nat, row: int, col: int)
    requires |a| == AtlasSize && |prev| == AtlasSize && WellFormed(g) && 0 < n <= g.height
    requires x + g.width <= AtlasWidth && y + n <= AtlasHeight
    requires 0 <= row < AtlasHeight && 0 <= col < AtlasWidth
    requires Pixel(prev, row, col) ==
      if InRect(x, y, g.width, n - 1, row, col) then GlyphPixel(g, row - y, col - x) else Pixel(a, row, col)
    requires SetAt(prev, RowData(g, n - 1), AtlasWidth * (y + n - 1) + x) == Some(next)
    ensures |next| == AtlasSize
    ensures Pixel(next, row, col) ==
      if InRect(x, y, g.width, n, row, col) then GlyphPixel(g, row - y, col - x) else Pixel(a, row, col)
  {
    RowDataSlice(g, n - 1);
    if row == y + n - 1 && x <= col < x + g.width {
      BlitRowInside(prev, next, g, RowData(g, n - 1), n - 1, x, y + n - 1, col);
    } else {
      BlitRowOutside(prev, next, RowData(g, n - 1), g.width, x, y + n - 1, row, col);
    }
  }

  /**
   * Blitting a well-formed glyph at (x, y) puts glyph pixel (r, c) at atlas
   * pixel (y + r, x + c) and leaves every other atlas pixel as it was.
   */
  lemma BlitRowsEffect(a: seq<Byte>, g: Glyph, x: nat, y: nat, n: nat)
    requires |a| == AtlasSize && WellFormed(g) && n <= g.height
    requires x + g.width <= AtlasWidth && y + n <= AtlasHeight
    ensures BlitRows(a, g, x, y, n).Some?
    ensures |BlitRows(a, g, x, y, n).value| == AtlasSize
    ensures forall row, col :: 0 <= row < AtlasHeight && 0 <= col < AtlasWidth && InRect(x, y, g.width, n, row, col) ==>
      Pixel(BlitRows(a, g, x, y, n).value, row, col) == GlyphPixel(g, row - y, col - x)
    ensures forall row, col :: 0 <= row < AtlasHeight && 0 <= col < AtlasWidth && !InRect(x, y, g.width, n, row, col) ==>
      Pixel(BlitRows(a, g, x, y, n).value, row, col) == Pixel(a, row, col)
  {
    BlitRowsInRange(a, g, x, y, n);
    forall row, col | 0 <= row < AtlasHeight && 0 <= col < AtlasWidth
      ensures Pixel(BlitRows(a, g, x, y, n).value, row, col) ==
        if InRect(x, y, g.width, n, row, col) then GlyphPixel(g, row - y, col - x) else Pixel(a, row, col)
    {
      BlitPixel(a, g, x, y, n, row, col);
    }
  }

  /** A blit shows the glyph in its own rectangle. */
  lemma BlitShows(a: seq<Byte>, g: Glyph, x: nat, y: nat)
    requires |a| == AtlasSize && WellFormed(g)
    requires x + g.width <= AtlasWidth && y + g.height <= AtlasHeight
    ensures BlitRows(a, g, x, y, g.height).Some? && |BlitRows(a, g, x, y, g.height).value| == AtlasSize
    ensures forall i: CharInfo :: i.atlasX == x && i.atlasY == y ==> Shows(BlitRows(a, g, x, y, g.height).value, i, g)
  {
    BlitRowsEffect(a, g, x, y, g.height);
  }

  /** A blit keeps every glyph whose rectangle it does not touch. */
  lemma BlitKeeps(a: seq<Byte>, g: Glyph, x: nat, y: nat, i: CharInfo, h: Glyph)
    requires |a| == AtlasSize && WellFormed(g) && WellFormed(h)
    requires x + g.width <= AtlasWidth && y + g.height <= AtlasHeight
    requires i.width == h.width && i.height == h.height
    requires Disjoint(i, CharInfo(x, y, g.width, g.height, 0, 0)) && Shows(a, i, h)
    ensures BlitRows(a, g, x, y, g.height).Some? && |BlitRows(a, g, x, y, g.height).value| == AtlasSize
    ensures Shows(BlitRows(a, g, x, y, g.height).value, i, h)
  {
    BlitRowsEffect(a, g, x, y, g.height);
  }

  // ---------------------------------------------------------------------------
  // Shelf packing

  /** The packing cursor, the running metrics and the tables built so far during one rebuild. */
  datatype Shelf = Shelf(
    x: nat,
    y: nat,
    rowHeight: nat,
    lineHeight: nat,
    maxAscent: int,
    charInfo: map<char, CharInfo>,
    atlas: seq<Byte>)

  function StartShelf(): Shelf
  {
    Shelf(0, 0, 0, 0, 0, map[], seq(AtlasSize, _ => 0))
  }

  /**
   * Packs one more glyph: a glyph that does not fit to the right of the
   * cursor (x + width >= 1024) moves to a new shelf below the current one;
   * one whose shelf has no room left below (y + height >= 1024) exhausts the atlas.
   */
  function Place(st: Shelf, c: char, g: Glyph): (r: Result<Shelf, FontError>)
    ensures r.Ok? ==> c !in st.charInfo && |r.value.atlas| == |st.atlas|
  {
    if c in st.charInfo then Err(DuplicateCharacter(c))
    else
      var wrap := st.x + g.width >= AtlasWidth;
      var x: nat := if wrap then 0 else st.x;
      var y: nat := if wrap then st.y + st.rowHeight else st.y;
      var rowHeight: nat := if wrap then 0 else st.rowHeight;
      if y + g.height >= AtlasHeight then Err(AtlasExhausted)
      else
        var rowHeight': nat := Max(rowHeight, g.height);
        var lineHeight: nat := Max(st.lineHeight, rowHeight');
        match BlitRows(st.atlas, g, x, y, g.height)
        case None => Err(BlitOutOfRange)
        case Some(atlas) =>
          Ok(Shelf(x + g.width, y, rowHeight', lineHeight, Max(st.maxAscent, g.glyphTop),
                   st.charInfo[c := CharInfo(x, y, g.width, g.height, g.glyphTop, g.glyphAdvance)], atlas))
  }

  /** A glyph whose shelf has no room below left exhausts the atlas. */
  lemma PlaceExhausts(st: Shelf, c: char, g: Glyph, y: nat)
    requires c !in st.charInfo
    requires y == if st.x + g.width >= AtlasWidth then st.y + st.rowHeight else st.y
    requires y + g.height >= AtlasHeight
    ensures Place(st, c, g) == Err(AtlasExhausted)
  {
  }

  /** The outcome of placing a glyph that passed both checks, at (x, y) on a shelf `rowHeight` tall so far. */
  lemma PlaceFits(st: Shelf, c: char, g: Glyph, x: nat, y: nat, rowHeight: nat)
    requires c !in st.charInfo
    requires if st.x + g.width >= AtlasWidth then x == 0 && y == st.y + st.rowHeight && rowHeight == 0
             else x == st.x && y == st.y && rowHeight == st.rowHeight
    requires y + g.height < AtlasHeight
    ensures Place(st, c, g) ==
      match BlitRows(st.atlas, g, x, y, g.height)
      case None => Err(BlitOutOfRange)
      case Some(atlas) => Ok(Shelf(
        x + g.width, y, Max(rowHeight, g.height), Max(st.lineHeight, Max(rowHeight, g.height)),
        Max(st.maxAscent, g.glyphTop), st.charInfo[c := CharInfo(x, y, g.width, g.height, g.glyphTop, g.glyphAdvance)],
        atlas))
  {
  }

  /** A successful placement, field by field: where the glyph went and what the shelf became. */
  lemma PlaceOk(st: Shelf, c: char, g: Glyph)
    requires Place(st, c, g).Ok?
    ensures
      var wrap := st.x + g.width >= AtlasWidth;
      var x: nat := if wrap then 0 else st.x;
      var y: nat := if wrap then st.y + st.rowHeight else st.y;
      var rowHeight: nat := if wrap then 0 else st.rowHeight;
      var st' := Place(st, c, g).value;
      && c !in st.charInfo
      && y + g.height < AtlasHeight
      && st'.x == x + g.width && st'.y == y
      && st'.rowHeight == Max(rowHeight, g.height)
      && st'.lineHeight == Max(st.lineHeight, st'.rowHeight)
      && st'.maxAscent == Max(st.maxAscent, g.glyphTop)
      && st'.charInfo == st.charInfo[c := CharInfo(x, y, g.width, g.height, g.glyphTop, g.glyphAdvance)]
      && BlitRows(st.atlas, g, x, y, g.height) == Some(st'.atlas)
      && |st'.atlas| == |st.atlas|
  {
    var wrap := st.x + g.width >= AtlasWidth;
    var x: nat := if wrap then 0 else st.x;
    var y: nat := if wrap then st.y + st.rowHeight else st.y;
  }

  /** A glyph narrower than the atlas is never written out of range. */
  lemma PlaceInRange(st: Shelf, c: char, g: Glyph)
    requires |st.atlas| == AtlasSize && Narrow(g)
    ensures Place(st, c, g) != Err(BlitOutOfRange)
  {
    var wrap := st.x + g.width >= AtlasWidth;
    var x: nat := if wrap then 0 else st.x;
    var y: nat := if wrap then st.y + st.rowHeight else st.y;
    if c !in st.charInfo && y + g.height < AtlasHeight {
      BlitRowsInRange(st.atlas, g, x, y, g.height);
    }
  }

  /** Packs the glyphs of `alphabet`, in order, into a blank atlas; the first failure ends it. */
  function PackAll(draw: Rasterizer, alphabet: string): (r: Result<Shelf, FontError>)
    ensures r.Ok? ==> |r.value.atlas| == AtlasSize
  {
    if alphabet == [] then Ok(StartShelf())
    else
      match PackAll(draw, alphabet[..|alphabet| - 1])
      case Err(e) => Err(e)
      case Ok(st) => Place(st, alphabet[|alphabet| - 1], draw(alphabet[|alphabet| - 1]))
  }

  /** The atlas a successful rebuild for `alphabet` produces, or the error it throws. */
  function Rebuild(draw: Rasterizer, alphabet: string): (r: Result<AtlasData, FontError>)
    ensures r.Ok? ==> r.value.width == AtlasWidth && r.value.height == AtlasHeight && |r.value.data| == AtlasSize
  {
    match PackAll(draw, alphabet)
    case Err(e) => Err(e)
    case Ok(st) => Ok(AtlasData(st.atlas, AtlasWidth, AtlasHeight, st.charInfo, st.maxAscent, st.lineHeight))
  }

  /** The two rectangles share no pixel. */
  predicate Disjoint(a: CharInfo, b: CharInfo)
  {
    || a.atlasX + a.width <= b.atlasX
    || b.atlasX + b.width <= a.atlasX
    || a.atlasY + a.height <= b.atlasY
    || b.atlasY + b.height <= a.atlasY
  }

  /** A packed glyph lies on an earlier shelf, or on the current one left of the cursor. */
  predicate OnShelf(st: Shelf, i: CharInfo)
  {
    || i.atlasY + i.height <= st.y
    || (i.atlasY == st.y && i.atlasX + i.width <= st.x && i.height <= st.rowHeight)
  }

  /** The table entry records the glyph's own metrics, at a position inside the atlas height. */
  predicate Describes(i: CharInfo, g: Glyph)
  {
    && i.width == g.width && i.height == g.height
    && i.yOffset == g.glyphTop && i.xAdvance == g.glyphAdvance
    && 0 <= i.atlasX && 0 <= i.atlasY && i.atlasY + i.height < AtlasHeight
  }

  /** One more character of the alphabet is one more `Place`; the rest of the alphabet follows the prefix. */
  lemma PackAllSnoc(draw: Rasterizer, s: string, i: nat)
    requires i < |s|
    ensures PackAll(draw, s[..i + 1]) ==
      match PackAll(draw, s[..i])
      case Err(e) => Err(e)
      case Ok(st) => Place(st, s[i], draw(s[i]))
  {
    assert s[..i + 1][..i] == s[..i];
  }

  /** A successful packing of a non-empty alphabet is a successful packing of its prefix plus one placement. */
  lemma PackAllLast(draw: Rasterizer, s: string)
    requires s != [] && PackAll(draw, s).Ok?
    ensures PackAll(draw, s[..|s| - 1]).Ok?
    ensures Place(PackAll(draw, s[..|s| - 1]).value, s[|s| - 1], draw(s[|s| - 1])).Ok?
    ensures PackAll(draw, s) == Place(PackAll(draw, s[..|s| - 1]).value, s[|s| - 1], draw(s[|s| - 1]))
  {
  }

  /** A rebuild fails with the error of the first prefix that fails. */
  lemma RebuildStops(draw: Rasterizer, s: string, i: nat, e: FontError)
    requires i < |s| && PackAll(draw, s[..i + 1]) == Err(e)
    ensures Rebuild(draw, s) == Err(e)
  {
    assert s[..i + 1] + s[i + 1..] == s;
    PackAllErrorPersists(draw, s[..i + 1], s[i + 1..]);
  }

  /** The error of a failed prefix is the error of the whole rebuild. */
  lemma {:induction false} PackAllErrorPersists(draw: Rasterizer, s: string, t: string)
    requires PackAll(draw, s).Err?
    ensures PackAll(draw, s + t) == PackAll(draw, s)
    decreases |t|
  {
    if t == [] {
      assert s + t == s;
    } else {
      var t' := t[..|t| - 1];
      assert (s + t)[..|s + t| - 1] == s + t';
      PackAllErrorPersists(draw, s, t');
      assert PackAll(draw, s + t') == PackAll(draw, s);
    }
  }

  /** A successful packing has one entry per alphabet character, each recording that character's glyph. */
  lemma {:induction false} PackAllTable(draw: Rasterizer, s: string)
    requires PackAll(draw, s).Ok?
    ensures |PackAll(draw, s).value.atlas| == AtlasSize
    ensures NoDup(s)
    ensures forall c :: c in PackAll(draw, s).value.charInfo <==> c in s
    ensures forall c :: c in PackAll(draw, s).value.charInfo ==>
      Describes(PackAll(draw, s).value.charInfo[c], draw(c))
  {
    if s != [] {
      var p := s[..|s| - 1];
      var c := s[|s| - 1];
      assert s == p + [c];
      PackAllLast(draw, s);
      PackAllTable(draw, p);
      var st := PackAll(draw, p).value;
      PlaceOk(st, c, draw(c));
      NoDupSnoc(p, c);
      forall d
        ensures d in PackAll(draw, s).value.charInfo <==> d in s
      {
        assert d in s <==> d in p || d == c;
      }
    }
  }

  /** Every packed glyph sits on an earlier shelf or left of the cursor, and no two overlap. */
  lemma {:induction false} PackAllGeometry(draw: Rasterizer, s: string)
    requires PackAll(draw, s).Ok?
    ensures PackAll(draw, s).value.rowHeight <= PackAll(draw, s).value.lineHeight
    ensures forall c :: c in PackAll(draw, s).value.charInfo ==>
      OnShelf(PackAll(draw, s).value, PackAll(draw, s).value.charInfo[c])
    ensures forall c, d :: c in PackAll(draw, s).value.charInfo && d in PackAll(draw, s).value.charInfo && c != d ==>
      Disjoint(PackAll(draw, s).value.charInfo[c], PackAll(draw, s).value.charInfo[d])
  {
    if s != [] {
      var p := s[..|s| - 1];
      var c := s[|s| - 1];
      PackAllLast(draw, s);
      PackAllGeometry(draw, p);
      var st := PackAll(draw, p).value;
      var st' := PackAll(draw, s).value;
      var g := draw(c);
      PlaceOk(st, c, g);
      var info := st'.charInfo[c];
      forall d | d in st.charInfo
        ensures OnShelf(st', st.charInfo[d]) && Disjoint(st.charInfo[d], info)
      {
        assert OnShelf(st, st.charInfo[d]);
      }
    }
  }

  /** `lineHeight` is the tallest glyph and `maxAscent` the largest glyph top (at least 0). */
  lemma {:induction false} PackAllMetrics(draw: Rasterizer, s: string)
    requires PackAll(draw, s).Ok?
    ensures PackAll(draw, s).value.rowHeight <= PackAll(draw, s).value.lineHeight
    ensures forall c :: c in s ==> draw(c).height <= PackAll(draw, s).value.lineHeight
    ensures PackAll(draw, s).value.lineHeight == 0 ||
      exists c :: c in s && draw(c).height == PackAll(draw, s).value.lineHeight
    ensures 0 <= PackAll(draw, s).value.maxAscent
    ensures forall c :: c in s ==> draw(c).glyphTop <= PackAll(draw, s).value.maxAscent
    ensures PackAll(draw, s).value.maxAscent == 0 ||
      exists c :: c in s && draw(c).glyphTop == PackAll(draw, s).value.maxAscent
  {
    if s != [] {
      var p := s[..|s| - 1];
      var c := s[|s| - 1];
      assert s == p + [c];
      PackAllLast(draw, s);
      PackAllMetrics(draw, p);
      var st := PackAll(draw, p).value;
      var st' := PackAll(draw, s).value;
      var g := draw(c);
      PlaceOk(st, c, g);
      if st'.lineHeight != st.lineHeight {
        assert draw(c).height == st'.lineHeight;
      } else if st'.lineHeight != 0 {
        var d :| d in p && draw(d).height == st.lineHeight;
        assert d in s;
      }
      if st'.maxAscent != st.maxAscent {
        assert draw(c).glyphTop == st'.maxAscent;
      } else if st'.maxAscent != 0 {
        var d :| d in p && draw(d).glyphTop == st.maxAscent;
        assert d in s;
      }
    }
  }

  /** With glyphs narrower than the atlas, every packed glyph lies inside it. */
  lemma {:induction false} PackAllInside(draw: Rasterizer, s: string)
    requires PackAll(draw, s).Ok? && AllNarrow(draw, s)
    ensures forall c :: c in PackAll(draw, s).value.charInfo ==>
      && PackAll(draw, s).value.charInfo[c].atlasX + PackAll(draw, s).value.charInfo[c].width < AtlasWidth
      && PackAll(draw, s).value.charInfo[c].atlasY + PackAll(draw, s).value.charInfo[c].height < AtlasHeight
  {
    if s != [] {
      var p := s[..|s| - 1];
      var c := s[|s| - 1];
      assert c in s;
      PackAllInside(draw, p);
    }
  }

  /** With glyphs narrower than the atlas, no bitmap row is ever written out of range. */
  lemma {:induction false} PackAllNoRangeError(draw: Rasterizer, s: string)
    requires AllNarrow(draw, s)
    ensures PackAll(draw, s) != Err(BlitOutOfRange)
  {
    if s != [] {
      var p := s[..|s| - 1];
      var c := s[|s| - 1];
      assert c in s;
      PackAllNoRangeError(draw, p);
      if PackAll(draw, p).Ok? {
        PackAllTable(draw, p);
        PlaceInRange(PackAll(draw, p).value, c, draw(c));
      }
    }
  }

  /** A duplicate-free alphabet never trips the duplicate-character check. */
  lemma {:induction false} PackAllNoDuplicate(draw: Rasterizer, s: string)
    requires NoDup(s)
    ensures !(PackAll(draw, s).Err? && PackAll(draw, s).error.DuplicateCharacter?)
  {
    if s != [] {
      var p := s[..|s| - 1];
      var c := s[|s| - 1];
      assert NoDup(p) by {
        assert forall i :: 0 <= i < |p| ==> p[i] == s[i];
      }
      PackAllNoDuplicate(draw, p);
      if PackAll(draw, p).Ok? {
        PackAllTable(draw, p);
        assert c !in p by {
          forall i | 0 <= i < |p|
            ensures p[i] != c
          {
            assert p[i] == s[i];
          }
        }
      }
    }
  }

  /** Every packed glyph's rectangle shows that glyph's bitmap. */
  ghost predicate Shows(a: seq<Byte>, i: CharInfo, g: Glyph)
    requires |a| == AtlasSize && WellFormed(g)
  {
    forall row, col ::
      0 <= row < AtlasHeight && 0 <= col < AtlasWidth &&
      i.atlasY <= row < i.atlasY + g.height && i.atlasX <= col < i.atlasX + g.width ==>
        Pixel(a, row, col) == GlyphPixel(g, row - i.atlasY, col - i.atlasX)
  }

  /** The glyph table of a shelf records the rasteriser's glyphs, each shown in the atlas. */
  ghost predicate ShowsAll(draw: Rasterizer, st: Shelf)
  {
    && |st.atlas| == AtlasSize
    && forall d :: d in st.charInfo ==>
      && WellFormed(draw(d))
      && st.charInfo[d].width == draw(d).width && st.charInfo[d].height == draw(d).height
      && Shows(st.atlas, st.charInfo[d], draw(d))
  }

  /** Placing a narrow, well-formed glyph keeps every glyph shown and shows the new one. */
  lemma PlaceShows(draw: Rasterizer, st: Shelf, c: char)
    requires Place(st, c, draw(c)).Ok? && Narrow(draw(c)) && WellFormed(draw(c))
    requires ShowsAll(draw, st) && forall d :: d in st.charInfo ==> OnShelf(st, st.charInfo[d])
    ensures ShowsAll(draw, Place(st, c, draw(c)).value)
  {
    var g := draw(c);
    var st' := Place(st, c, g).value;
    var info := st'.charInfo[c];
    BlitShows(st.atlas, g, info.atlasX, info.atlasY);
    forall d | d in st'.charInfo
      ensures Shows(st'.atlas, st'.charInfo[d], draw(d))
    {
      if d != c {
        var di := st.charInfo[d];
        assert OnShelf(st, di);
        BlitKeeps(st.atlas, g, info.atlasX, info.atlasY, di, draw(d));
      }
    }
  }

  lemma {:induction false} PackAllPixels(draw: Rasterizer, s: string)
    requires PackAll(draw, s).Ok? && AllNarrow(draw, s) && AllWellFormed(draw, s)
    ensures ShowsAll(draw, PackAll(draw, s).value)
  {
    if s != [] {
      var p := s[..|s| - 1];
      var c := s[|s| - 1];
      assert c in s;
      PackAllPixels(draw, p);
      PackAllGeometry(draw, p);
      PlaceShows(draw, PackAll(draw, p).value, c);
    }
  }

  // ---------------------------------------------------------------------------
  // What a rebuild promises

  /**
   * A successful rebuild yields a 1024x1024 atlas with exactly one entry per
   * alphabet character, holding that character's glyph metrics; and it
   * succeeds only for a duplicate-free alphabet.
   */
  lemma RebuildTable(draw: Rasterizer, alphabet: string)
    requires Rebuild(draw, alphabet).Ok?
    ensures Rebuild(draw, alphabet).value.width == AtlasWidth
    ensures Rebuild(draw, alphabet).value.height == AtlasHeight
    ensures |Rebuild(draw, alphabet).value.data| == AtlasWidth * AtlasHeight
    ensures NoDup(alphabet)
    ensures forall c :: c in Rebuild(draw, alphabet).value.charInfo <==> c in alphabet
    ensures forall c :: c in alphabet ==>
      var i := Rebuild(draw, alphabet).value.charInfo[c];
      && i.width == draw(c).width && i.height == draw(c).height
      && i.yOffset == draw(c).glyphTop && i.xAdvance == draw(c).glyphAdvance
  {
    PackAllTable(draw, alphabet);
  }

  /**
   * Packed glyphs never overlap, lie inside the atlas height, and, when every
   * glyph is narrower than the atlas, inside its width too.
   */
  lemma RebuildLayout(draw: Rasterizer, alphabet: string)
    requires Rebuild(draw, alphabet).Ok?
    ensures forall c :: c in alphabet ==> c in Rebuild(draw, alphabet).value.charInfo
    ensures forall c, d :: c in alphabet && d in alphabet && c != d ==>
      Disjoint(Rebuild(draw, alphabet).value.charInfo[c], Rebuild(draw, alphabet).value.charInfo[d])
    ensures forall c :: c in alphabet ==>
      var i := Rebuild(draw, alphabet).value.charInfo[c];
      0 <= i.atlasX && 0 <= i.atlasY && i.atlasY + i.height < AtlasHeight
    ensures AllNarrow(draw, alphabet) ==> forall c :: c in alphabet ==>
      var i := Rebuild(draw, alphabet).value.charInfo[c];
      i.atlasX + i.width < AtlasWidth
  {
    PackAllTable(draw, alphabet);
    PackAllGeometry(draw, alphabet);
    if AllNarrow(draw, alphabet) {
      PackAllInside(draw, alphabet);
    }
  }

  /** `lineHeight` is the height of the tallest glyph, `maxAscent` the largest glyph top or 0. */
  lemma RebuildMetrics(draw: Rasterizer, alphabet: string)
    requires Rebuild(draw, alphabet).Ok?
    ensures forall c :: c in alphabet ==> draw(c).height <= Rebuild(draw, alphabet).value.lineHeight
    ensures Rebuild(draw, alphabet).value.lineHeight == 0 ||
      exists c :: c in alphabet && draw(c).height == Rebuild(draw, alphabet).value.lineHeight
    ensures 0 <= Rebuild(draw, alphabet).value.maxAscent
    ensures forall c :: c in alphabet ==> draw(c).glyphTop <= Rebuild(draw, alphabet).value.maxAscent
    ensures Rebuild(draw, alphabet).value.maxAscent == 0 ||
      exists c :: c in alphabet && draw(c).glyphTop == Rebuild(draw, alphabet).value.maxAscent
  {
    PackAllMetrics(draw, alphabet);
  }

  /** With narrow, well-formed glyphs, atlas pixel (atlasY + r, atlasX + c) is glyph pixel (r, c). */
  lemma RebuildPixels(draw: Rasterizer, alphabet: string)
    requires Rebuild(draw, alphabet).Ok? && AllNarrow(draw, alphabet) && AllWellFormed(draw, alphabet)
    ensures |Rebuild(draw, alphabet).value.data| == AtlasSize
    ensures forall c :: c in alphabet ==> c in Rebuild(draw, alphabet).value.charInfo
    ensures forall c :: c in alphabet ==>
      Shows(Rebuild(draw, alphabet).value.data, Rebuild(draw, alphabet).value.charInfo[c], draw(c))
  {
    PackAllTable(draw, alphabet);
    PackAllPixels(draw, alphabet);
  }

  /**
   * A rebuild fails only by exhausting the atlas when the alphabet is
   * duplicate-free and its glyphs are narrow; and a failure is final: a
   * longer alphabet fails with the same error.
   */
  lemma RebuildErrors(draw: Rasterizer, alphabet: string, more: string)
    ensures NoDup(alphabet) && AllNarrow(draw, alphabet) && Rebuild(draw, alphabet).Err? ==>
      Rebuild(draw, alphabet).error == AtlasExhausted
    ensures Rebuild(draw, alphabet).Err? ==> Rebuild(draw, alphabet + more) == Rebuild(draw, alphabet)
  {
    if NoDup(alphabet) && AllNarrow(draw, alphabet) {
      PackAllNoDuplicate(draw, alphabet);
      PackAllNoRangeError(draw, alphabet);
    }
    if PackAll(draw, alphabet).Err? {
      PackAllErrorPersists(draw, alphabet, more);
    }
  }

  /** The glyph the exhaustion example packs: 1000 wide and 400 tall, so only one fits per shelf. */
  function WideGlyph(c: char): Glyph
  {
    Glyph(1000, 400, 0, 0, [])
  }

  lemma WideShelfOne()
    ensures PackAll(WideGlyph, "a").Ok?
    ensures var st := PackAll(WideGlyph, "a").value;
      st.x == 1000 && st.y == 0 && st.rowHeight == 400 && |st.atlas| == AtlasSize && st.charInfo.Keys == {'a'}
  {
    var s0 := StartShelf();
    BlitRowsInRange(s0.atlas, WideGlyph('a'), 0, 0, 400);
    assert "a"[..0] == [];
  }

  lemma WideShelfTwo()
    ensures PackAll(WideGlyph, "ab").Ok?
    ensures var st := PackAll(WideGlyph, "ab").value;
      st.x == 1000 && st.y == 400 && st.rowHeight == 400 && st.charInfo.Keys == {'a', 'b'}
  {
    WideShelfOne();
    var s1 := PackAll(WideGlyph, "a").value;
    BlitRowsInRange(s1.atlas, WideGlyph('b'), 0, 400, 400);
    assert "ab"[..1] == "a";
  }

  /** An atlas with room for two shelves of glyphs rejects an alphabet that needs three. */
  lemma ExhaustionExample()
    ensures Rebuild(WideGlyph, "ab").Ok?
    ensures Rebuild(WideGlyph, "abc") == Err(AtlasExhausted)
  {
    WideShelfTwo();
    assert "abc"[..2] == "ab";
  }
}
