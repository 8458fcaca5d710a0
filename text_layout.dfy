/**
 * Text layout against a glyph atlas: one box per non-newline character,
 * placed at the running sum of glyph advances on its line, one atlas line
 * height per line, with unknown characters drawn as U+FFFD.
 */
module TextLayout {
  import opened Base
  import opened AtlasPacking

  /** Where one character's glyph is drawn in the label, and where it is read from in the atlas. */
  datatype CharLayoutInfo = CharLayoutInfo(
    left: int,
    top: int,
    width: int,
    height: int,
    boxTop: int,
    boxHeight: int,
    atlasX: int,
    atlasY: int)

  datatype LayoutInfo = LayoutInfo(width: int, height: int, chars: seq<CharLayoutInfo>)

  /** The table entry drawn for `c`: its own, or U+FFFD's when the atlas has none for it. */
  function InfoFor(ad: AtlasData, c: char): CharInfo
    requires Replacement in ad.charInfo
  {
    if c in ad.charInfo then ad.charInfo[c] else ad.charInfo[Replacement]
  }

  /** The layout loop's variables after some prefix of the text. */
  datatype Pen = Pen(x: int, lineTop: int, width: int, height: int, chars: seq<CharLayoutInfo>)

  /** One iteration of the layout loop. */
  function Step(ad: AtlasData, pen: Pen, c: char): Pen
    requires Replacement in ad.charInfo
  {
    if c == '\n' then
      pen.(lineTop := pen.lineTop + ad.lineHeight, x := 0)
    else
      var info := InfoFor(ad, c);
      var box := CharLayoutInfo(
        pen.x, pen.lineTop - info.yOffset + ad.maxAscent, info.width, info.height,
        pen.lineTop, ad.lineHeight, info.atlasX, info.atlasY);
      var x := pen.x + info.xAdvance;
      Pen(x, pen.lineTop, Max(pen.width, x), Max(pen.height, pen.lineTop + ad.lineHeight), pen.chars + [box])
  }

  /** The layout loop's variables after the text `t`. */
  function LayoutFrom(ad: AtlasData, t: string): Pen
    requires Replacement in ad.charInfo
  {
    if t == [] then Pen(0, 0, 0, 0, [])
    else Step(ad, LayoutFrom(ad, t[..|t| - 1]), t[|t| - 1])
  }

  /** What `layout(text)` returns: a box per non-newline character, and a size that is not negative. */
  function LayoutOf(ad: AtlasData, t: string): (r: LayoutInfo)
    requires Replacement in ad.charInfo
    ensures 0 <= r.width && 0 <= r.height && |r.chars| == CountChars(t)
  {
    LayoutPen(ad, t);
    LayoutWidth(ad, t);
    LayoutHeight(ad, t);
    var pen := LayoutFrom(ad, t);
    LayoutInfo(pen.width, pen.height, pen.chars)
  }

  // ---------------------------------------------------------------------------
  // A closed-form description of the layout

  function Newlines(s: string): nat
  {
    if s == [] then 0 else Newlines(s[..|s| - 1]) + (if s[|s| - 1] == '\n' then 1 else 0)
  }

  /** The number of characters that get a box. */
  function CountChars(s: string): nat
  {
    if s == [] then 0 else CountChars(s[..|s| - 1]) + (if s[|s| - 1] == '\n' then 0 else 1)
  }

  /** Where the last line of `s` starts: just after its last newline, or 0. */
  function LineStart(s: string): (k: nat)
    ensures k <= |s|
  {
    if s == [] then 0
    else if s[|s| - 1] == '\n' then |s|
    else LineStart(s[..|s| - 1])
  }

  /** The sum of the advances of the characters of `s`. */
  function Advance(ad: AtlasData, s: string): int
    requires Replacement in ad.charInfo
  {
    if s == [] then 0 else Advance(ad, s[..|s| - 1]) + InfoFor(ad, s[|s| - 1]).xAdvance
  }

  /**
   * The box of the non-newline character `t[i]`: it starts at the sum of the
   * advances since the start of its line, its line box starts one line height
   * per preceding newline down, and its glyph is raised so that every glyph's
   * baseline sits `maxAscent` below the top of the line.
   */
  function BoxAt(ad: AtlasData, t: string, i: nat): CharLayoutInfo
    requires Replacement in ad.charInfo && i < |t|
  {
    var p := t[..i];
    var info := InfoFor(ad, t[i]);
    var lineTop := ad.lineHeight * Newlines(p);
    CharLayoutInfo(
      Advance(ad, p[LineStart(p)..]), lineTop + ad.maxAscent - info.yOffset,
      info.width, info.height, lineTop, ad.lineHeight, info.atlasX, info.atlasY)
  }

  /** How far right the pen is after the non-newline character `t[i]`. */
  function RightEdge(ad: AtlasData, t: string, i: nat): int
    requires Replacement in ad.charInfo && i < |t|
  {
    BoxAt(ad, t, i).left + InfoFor(ad, t[i]).xAdvance
  }

  /** The pen after `t`: its x is the line's advance so far, its line top one line height per newline. */
  lemma {:induction false} LayoutPen(ad: AtlasData, t: string)
    requires Replacement in ad.charInfo
    ensures LayoutFrom(ad, t).x == Advance(ad, t[LineStart(t)..])
    ensures LayoutFrom(ad, t).lineTop == ad.lineHeight * Newlines(t)
    ensures |LayoutFrom(ad, t).chars| == CountChars(t)
  {
    if t == [] {
      assert t[0..] == [];
    } else {
      var p := t[..|t| - 1];
      var c := t[|t| - 1];
      LayoutPen(ad, p);
      assert ad.lineHeight * (Newlines(p) + 1) == ad.lineHeight * Newlines(p) + ad.lineHeight;
      if c == '\n' {
        assert t[|t|..] == [];
      } else {
        var k := LineStart(p);
        assert t[k..][..|t[k..]| - 1] == p[k..];
      }
    }
  }

  /** A box depends only on the text up to its character. */
  lemma BoxAtPrefix(ad: AtlasData, t: string, n: nat, i: nat)
    requires Replacement in ad.charInfo && i < n <= |t|
    ensures BoxAt(ad, t[..n], i) == BoxAt(ad, t, i) && t[..n][i] == t[i]
  {
    assert t[..n][..i] == t[..i];
  }

  lemma {:induction false} LayoutClosedForm(ad: AtlasData, t: string)
    requires Replacement in ad.charInfo
    ensures |LayoutFrom(ad, t).chars| == CountChars(t)
    ensures forall i :: 0 <= i < |t| && t[i] != '\n' ==>
      CountChars(t[..i]) < |LayoutFrom(ad, t).chars| && LayoutFrom(ad, t).chars[CountChars(t[..i])] == BoxAt(ad, t, i)
  {
    LayoutPen(ad, t);
    if t != [] {
      var p := t[..|t| - 1];
      LayoutClosedForm(ad, p);
      forall i | 0 <= i < |t| && t[i] != '\n'
        ensures CountChars(t[..i]) < |LayoutFrom(ad, t).chars| && LayoutFrom(ad, t).chars[CountChars(t[..i])] == BoxAt(ad, t, i)
      {
        if i < |p| {
          assert p[i] == t[i];
          BoxKept(ad, t, i);
        } else {
          BoxLast(ad, t);
        }
      }
    }
  }

  /** One more step of the loop keeps the boxes already drawn. */
  lemma BoxKept(ad: AtlasData, t: string, i: nat)
    requires Replacement in ad.charInfo && i < |t| - 1
    requires var p := t[..|t| - 1];
      CountChars(p[..i]) < |LayoutFrom(ad, p).chars| && LayoutFrom(ad, p).chars[CountChars(p[..i])] == BoxAt(ad, p, i)
    ensures CountChars(t[..i]) < |LayoutFrom(ad, t).chars| && LayoutFrom(ad, t).chars[CountChars(t[..i])] == BoxAt(ad, t, i)
  {
    var p := t[..|t| - 1];
    BoxAtPrefix(ad, t, |p|, i);
    assert p[..i] == t[..i];
    var pen := LayoutFrom(ad, p);
    assert LayoutFrom(ad, t).chars[..|pen.chars|] == pen.chars;
  }

  /** The step for a non-newline character draws its box last. */
  lemma BoxLast(ad: AtlasData, t: string)
    requires Replacement in ad.charInfo && t != [] && t[|t| - 1] != '\n'
    ensures CountChars(t[..|t| - 1]) < |LayoutFrom(ad, t).chars|
    ensures LayoutFrom(ad, t).chars[CountChars(t[..|t| - 1])] == BoxAt(ad, t, |t| - 1)
  {
    LayoutPen(ad, t[..|t| - 1]);
  }

  /**
   * `layout` gives one box per non-newline character, in text order, and the
   * box of character `t[i]` is `BoxAt(t, i)`.
   */
  lemma LayoutBoxes(ad: AtlasData, t: string)
    requires Replacement in ad.charInfo
    ensures |LayoutOf(ad, t).chars| == CountChars(t)
    ensures forall i :: 0 <= i < |t| && t[i] != '\n' ==>
      CountChars(t[..i]) < |LayoutOf(ad, t).chars| && LayoutOf(ad, t).chars[CountChars(t[..i])] == BoxAt(ad, t, i)
  {
    LayoutClosedForm(ad, t);
  }

  /**
   * The box of the non-newline character `t[i]` shows that character's glyph
   * when the atlas has one, and U+FFFD's otherwise, raised above the
   * baseline by that same glyph's `yOffset`.
   */
  lemma LayoutGlyph(ad: AtlasData, t: string, i: nat)
    requires Replacement in ad.charInfo && i < |t| && t[i] != '\n'
    ensures CountChars(t[..i]) < |LayoutOf(ad, t).chars|
    ensures var b := LayoutOf(ad, t).chars[CountChars(t[..i])];
      var g := if t[i] in ad.charInfo then ad.charInfo[t[i]] else ad.charInfo[Replacement];
      && b.width == g.width && b.height == g.height && b.atlasX == g.atlasX && b.atlasY == g.atlasY
      && b.top == b.boxTop + ad.maxAscent - g.yOffset
  {
    LayoutBoxes(ad, t);
  }

  /** After a character, the pen is at that character's right edge. */
  lemma RightEdgeStep(ad: AtlasData, t: string)
    requires Replacement in ad.charInfo && t != [] && t[|t| - 1] != '\n'
    ensures RightEdge(ad, t, |t| - 1) == LayoutFrom(ad, t).x
  {
    var p := t[..|t| - 1];
    LayoutPen(ad, p);
    assert t[..|p|] == p;
  }

  /** The right edges of the characters of a prefix do not depend on what follows. */
  lemma RightEdgePrefix(ad: AtlasData, t: string)
    requires Replacement in ad.charInfo && t != []
    ensures forall i :: 0 <= i < |t| - 1 ==> t[..|t| - 1][i] == t[i] && RightEdge(ad, t[..|t| - 1], i) == RightEdge(ad, t, i)
  {
    forall i | 0 <= i < |t| - 1
      ensures t[..|t| - 1][i] == t[i] && RightEdge(ad, t[..|t| - 1], i) == RightEdge(ad, t, i)
    {
      BoxAtPrefix(ad, t, |t| - 1, i);
    }
  }

  /** The pen's width is the furthest right it has been after a character. */
  lemma {:induction false} LayoutWidth(ad: AtlasData, t: string)
    requires Replacement in ad.charInfo
    ensures 0 <= LayoutFrom(ad, t).width
    ensures forall i :: 0 <= i < |t| && t[i] != '\n' ==> RightEdge(ad, t, i) <= LayoutFrom(ad, t).width
    ensures LayoutFrom(ad, t).width == 0 ||
      exists i :: 0 <= i < |t| && t[i] != '\n' && RightEdge(ad, t, i) == LayoutFrom(ad, t).width
  {
    if t != [] {
      var p := t[..|t| - 1];
      LayoutWidth(ad, p);
      RightEdgePrefix(ad, t);
      var w := LayoutFrom(ad, p).width;
      var w' := LayoutFrom(ad, t).width;
      if t[|t| - 1] != '\n' {
        RightEdgeStep(ad, t);
      }
      if w' != 0 && w' == w {
        var i :| 0 <= i < |p| && p[i] != '\n' && RightEdge(ad, p, i) == w;
        assert RightEdge(ad, t, i) == w';
      }
    }
  }

  /** The pen's height is the bottom of the lowest line box drawn. */
  lemma {:induction false} LayoutHeight(ad: AtlasData, t: string)
    requires Replacement in ad.charInfo
    ensures 0 <= LayoutFrom(ad, t).height
    ensures forall k :: 0 <= k < |LayoutFrom(ad, t).chars| ==>
      LayoutFrom(ad, t).chars[k].boxTop + LayoutFrom(ad, t).chars[k].boxHeight <= LayoutFrom(ad, t).height
    ensures LayoutFrom(ad, t).height == 0 || exists k :: (0 <= k < |LayoutFrom(ad, t).chars| &&
      LayoutFrom(ad, t).chars[k].boxTop + LayoutFrom(ad, t).chars[k].boxHeight == LayoutFrom(ad, t).height)
  {
    if t != [] {
      var p := t[..|t| - 1];
      LayoutHeight(ad, p);
      var pen := LayoutFrom(ad, p);
      var pen' := LayoutFrom(ad, t);
      if t[|t| - 1] != '\n' {
        assert pen'.chars == pen.chars + [pen'.chars[|pen.chars|]];
        if pen'.height != 0 && pen'.height == pen.height {
          var k :| 0 <= k < |pen.chars| && pen.chars[k].boxTop + pen.chars[k].boxHeight == pen.height;
          assert pen'.chars[k] == pen.chars[k];
        }
      }
    }
  }

  /** With a non-negative line height, every box starts at or below the top and is one line tall. */
  lemma {:induction false} LayoutLineBoxes(ad: AtlasData, t: string)
    requires Replacement in ad.charInfo && 0 <= ad.lineHeight
    ensures 0 <= LayoutFrom(ad, t).lineTop
    ensures forall k :: 0 <= k < |LayoutFrom(ad, t).chars| ==>
      0 <= LayoutFrom(ad, t).chars[k].boxTop && LayoutFrom(ad, t).chars[k].boxHeight == ad.lineHeight
  {
    if t != [] {
      var p := t[..|t| - 1];
      LayoutLineBoxes(ad, p);
      var pen := LayoutFrom(ad, p);
      var pen' := LayoutFrom(ad, t);
      if t[|t| - 1] != '\n' {
        assert pen'.chars == pen.chars + [pen'.chars[|pen.chars|]];
      }
    }
  }

  /**
   * The layout is as wide as the furthest any line's pen reaches and as tall
   * as the lowest line box, and 0 by 0 when nothing is drawn.
   */
  lemma LayoutExtent(ad: AtlasData, t: string)
    requires Replacement in ad.charInfo
    ensures 0 <= LayoutOf(ad, t).width && 0 <= LayoutOf(ad, t).height
    ensures forall i :: 0 <= i < |t| && t[i] != '\n' ==> RightEdge(ad, t, i) <= LayoutOf(ad, t).width
    ensures LayoutOf(ad, t).width == 0 ||
      exists i :: 0 <= i < |t| && t[i] != '\n' && RightEdge(ad, t, i) == LayoutOf(ad, t).width
    ensures forall k :: 0 <= k < |LayoutOf(ad, t).chars| ==>
      LayoutOf(ad, t).chars[k].boxTop + LayoutOf(ad, t).chars[k].boxHeight <= LayoutOf(ad, t).height
    ensures LayoutOf(ad, t).height == 0 || exists k :: (0 <= k < |LayoutOf(ad, t).chars| &&
      LayoutOf(ad, t).chars[k].boxTop + LayoutOf(ad, t).chars[k].boxHeight == LayoutOf(ad, t).height)
  {
    LayoutWidth(ad, t);
    LayoutHeight(ad, t);
  }

  lemma {:induction false} AdvanceAppend(ad: AtlasData, s: string, u: string)
    requires Replacement in ad.charInfo
    ensures Advance(ad, s + u) == Advance(ad, s) + Advance(ad, u)
    decreases |u|
  {
    if u == [] {
      assert s + u == s;
    } else {
      assert (s + u)[..|s + u| - 1] == s + u[..|u| - 1];
      AdvanceAppend(ad, s, u[..|u| - 1]);
    }
  }

  /** Appending text without a newline keeps the line's start and the number of newlines. */
  lemma {:induction false} SameLinePrefix(s: string, u: string)
    requires forall k :: 0 <= k < |u| ==> u[k] != '\n'
    ensures LineStart(s + u) == LineStart(s) && Newlines(s + u) == Newlines(s)
    decreases |u|
  {
    if u == [] {
      assert s + u == s;
    } else {
      assert (s + u)[..|s + u| - 1] == s + u[..|u| - 1];
      SameLinePrefix(s, u[..|u| - 1]);
    }
  }

  /**
   * Two characters with no newline between them share a line box and a
   * baseline, and the later one starts where the earlier one's advances lead.
   */
  lemma SameLine(ad: AtlasData, t: string, i: nat, j: nat)
    requires Replacement in ad.charInfo
    requires i < j < |t| && t[i] != '\n' && t[j] != '\n'
    requires forall k :: i <= k < j ==> t[k] != '\n'
    ensures BoxAt(ad, t, j).boxTop == BoxAt(ad, t, i).boxTop
    ensures BoxAt(ad, t, j).top + InfoFor(ad, t[j]).yOffset == BoxAt(ad, t, i).top + InfoFor(ad, t[i]).yOffset
    ensures BoxAt(ad, t, j).left == BoxAt(ad, t, i).left + Advance(ad, t[i..j])
  {
    var u := t[i..j];
    assert t[..j] == t[..i] + u;
    SameLinePrefix(t[..i], u);
    var k := LineStart(t[..i]);
    assert t[..j][k..] == t[..i][k..] + u;
    AdvanceAppend(ad, t[..i][k..], u);
  }

  /** The atlas of the layout example: 'A' and 'B' advance 10 and 12; the line height is 20. */
  function ExampleAtlas(): AtlasData
  {
    AtlasData([], 1024, 1024,
      map[Replacement := CharInfo(0, 0, 8, 18, 14, 9), 'A' := CharInfo(10, 0, 9, 18, 15, 10), 'B' := CharInfo(20, 0, 9, 18, 15, 12)],
      15, 20)
  }

  /**
   * "A\nBC": 'A' on the first line, then 'B' and the unknown 'C' (drawn as
   * U+FFFD) side by side on the second; the label is 21 wide and 40 tall.
   */
  lemma LayoutExample()
    ensures LayoutOf(ExampleAtlas(), "A\nBC") == LayoutInfo(21, 40, [
      CharLayoutInfo(0, 0, 9, 18, 0, 20, 10, 0),
      CharLayoutInfo(0, 20, 9, 18, 20, 20, 20, 0),
      CharLayoutInfo(12, 21, 8, 18, 20, 20, 0, 0)])
  {
    var ad := ExampleAtlas();
    assert "A\nBC"[..3] == "A\nB";
    assert "A\nB"[..2] == "A\n";
    assert "A\n"[..1] == "A";
    assert "A"[..0] == [];
  }
}
