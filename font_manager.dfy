/**
 * The font manager of the run-time text renderer: it owns the alphabet and
 * the glyph atlas, rebuilds the atlas whenever `update` meets new
 * characters, and lays text out against the current atlas.
 */
module Fonts {
  import opened Base
  import opened AtlasPacking
  import opened TextLayout

  /** The part of a font manager that `update` reads and writes. */
  datatype FontState = FontState(alphabet: string, atlasData: AtlasData)

  datatype Updated = Updated(state: FontState, outcome: Outcome<FontError>)

  /**
   * `update(newChars)`: extend the alphabet; when it grew, rebuild the atlas
   * for the whole alphabet and install it, or throw and keep the old atlas
   * (the alphabet stays extended).
   */
  function UpdateSpec(draw: Rasterizer, st: FontState, newChars: string): (u: Updated)
    ensures st.alphabet <= u.state.alphabet
    ensures u.state.alphabet == st.alphabet ==> u == Updated(st, Pass)
    ensures u.outcome.Fail? ==> u.state.atlasData == st.atlasData
  {
    var alphabet := Extend(st.alphabet, newChars);
    if alphabet == st.alphabet then Updated(FontState(alphabet, st.atlasData), Pass)
    else
      match Rebuild(draw, alphabet)
      case Ok(ad) => Updated(FontState(alphabet, ad), Pass)
      case Err(e) => Updated(FontState(alphabet, st.atlasData), Fail(e))
  }

  /** The atlas was built for exactly the current alphabet. */
  ghost predicate InSync(draw: Rasterizer, st: FontState)
  {
    Rebuild(draw, st.alphabet) == Ok(st.atlasData)
  }

  /** An update changes nothing exactly when every character is already in the alphabet. */
  lemma UpdateKnownChars(draw: Rasterizer, st: FontState, newChars: string)
    ensures (forall c :: c in newChars ==> c in st.alphabet) <==> UpdateSpec(draw, st, newChars) == Updated(st, Pass)
  {
    ExtendAppendsFresh(st.alphabet, newChars);
  }

  /**
   * The alphabet gains exactly the new characters, and a successful update of
   * an in-sync font leaves it in sync with an entry for every character of
   * `newChars`, each recording that character's glyph.
   */
  lemma UpdateCovers(draw: Rasterizer, st: FontState, newChars: string)
    ensures var u := UpdateSpec(draw, st, newChars);
      forall c :: c in u.state.alphabet <==> c in st.alphabet || c in newChars
    ensures NoDup(st.alphabet) ==> NoDup(UpdateSpec(draw, st, newChars).state.alphabet)
    ensures var u := UpdateSpec(draw, st, newChars);
      InSync(draw, st) && u.outcome.Pass? ==>
        && InSync(draw, u.state)
        && (forall c :: c in newChars ==> c in u.state.atlasData.charInfo)
        && (forall c :: c in newChars ==>
             var i := u.state.atlasData.charInfo[c];
             && i.width == draw(c).width && i.height == draw(c).height
             && i.yOffset == draw(c).glyphTop && i.xAdvance == draw(c).glyphAdvance)
  {
    var u := UpdateSpec(draw, st, newChars);
    ExtendAppendsFresh(st.alphabet, newChars);
    if InSync(draw, st) && u.outcome.Pass? {
      RebuildTable(draw, u.state.alphabet);
    }
  }

  /** Updating twice with the same characters: the second update changes nothing. */
  lemma UpdateIdempotent(draw: Rasterizer, st: FontState, newChars: string)
    ensures var u := UpdateSpec(draw, st, newChars);
      UpdateSpec(draw, u.state, newChars) == Updated(u.state, Pass)
  {
    var u := UpdateSpec(draw, st, newChars);
    ExtendAppendsFresh(st.alphabet, newChars);
    UpdateKnownChars(draw, u.state, newChars);
  }

  /**
   * A failed rebuild is final: the atlas is never replaced again, and every
   * later update that meets a new character throws the same error.
   */
  lemma UpdateFailureIsFinal(draw: Rasterizer, st: FontState, newChars: string, later: string)
    requires UpdateSpec(draw, st, newChars).outcome.Fail?
    ensures var u := UpdateSpec(draw, st, newChars);
      var v := UpdateSpec(draw, u.state, later);
      && v.state.atlasData == st.atlasData
      && (v.state.alphabet == u.state.alphabet || v.outcome == u.outcome)
  {
    var u := UpdateSpec(draw, st, newChars);
    var a := u.state.alphabet;
    ExtendAppendsFresh(a, later);
    RebuildErrors(draw, a, Fresh(Chars(a), later));
  }

  /** For a duplicate-free alphabet of narrow glyphs, the only error an update throws is exhaustion. */
  lemma UpdateErrors(draw: Rasterizer, st: FontState, newChars: string)
    requires NoDup(st.alphabet) && AllNarrow(draw, st.alphabet) && AllNarrow(draw, newChars)
    ensures UpdateSpec(draw, st, newChars).outcome.Fail? ==>
      UpdateSpec(draw, st, newChars).outcome.error == AtlasExhausted
  {
    var alphabet := Extend(st.alphabet, newChars);
    ExtendAppendsFresh(st.alphabet, newChars);
    RebuildErrors(draw, alphabet, []);
  }

  /** Updating the empty alphabet with the seed gives the seed. */
  lemma ExtendSeed()
    ensures Extend([], Seed) == Seed && Seed != []
  {
    SeedContents();
    FreshOfNew({}, Seed);
    ExtendAppendsFresh([], Seed);
    assert Chars([]) == {};
  }

  lemma {:induction false} FreshOfNew(seen: set<char>, s: string)
    requires NoDup(s) && forall c :: c in s ==> c !in seen
    ensures Fresh(seen, s) == s
    decreases |s|
  {
    if s != [] {
      assert NoDup(s[1..]) by {
        assert forall i :: 0 <= i < |s[1..]| ==> s[1..][i] == s[i + 1];
      }
      assert forall c :: c in s[1..] ==> c != s[0] by {
        forall i | 0 <= i < |s[1..]|
          ensures s[1..][i] != s[0]
        {
          assert s[1..][i] == s[i + 1];
        }
      }
      FreshOfNew(seen + {s[0]}, s[1..]);
    }
  }

  class FontManager {
    /** The glyph rasteriser. */
    const draw: Rasterizer
    var alphabet: string
    var atlasData: AtlasData
    /** The alphabet the current atlas was built for, if it has been built at all. */
    ghost var builtFor: Option<string>

    ghost predicate Valid()
      reads this
    {
      && NoDup(alphabet)
      && match builtFor
         case None => atlasData == EmptyAtlas
         case Some(b) => b <= alphabet && Rebuild(draw, b) == Ok(atlasData)
    }

    /** Constructed: the seed alphabet has been built into the atlas. */
    ghost predicate Ready()
      reads this
    {
      && Valid()
      && builtFor.Some? && Seed <= builtFor.value
      && forall c :: c in Seed ==> c in atlasData.charInfo
    }

    /** A constructed font manager can lay text out: U+FFFD has an entry and lines are not negative. */
    lemma ReadyToLayout()
      requires Ready()
      ensures Replacement in atlasData.charInfo && 0 <= atlasData.lineHeight
    {
      SeedContents();
    }

    ghost predicate Synced()
      reads this
    {
      builtFor == Some(alphabet)
    }

    function State(): FontState
      reads this
    {
      FontState(alphabet, atlasData)
    }

    /** The field initialisers: an empty alphabet and an empty atlas. */
    constructor (draw: Rasterizer)
      ensures this.draw == draw && alphabet == [] && atlasData == EmptyAtlas && builtFor == None
      ensures Valid()
    {
      this.draw := draw;
      alphabet := [];
      atlasData := EmptyAtlas;
      builtFor := None;
    }

    /** The source's constructor: start with the seed alphabet. */
    static method Create(draw: Rasterizer) returns (r: Result<FontManager, FontError>)
      ensures r.Ok? <==> Rebuild(draw, Seed).Ok?
      ensures r.Err? ==> r.error == Rebuild(draw, Seed).error
      ensures r.Ok? ==> && fresh(r.value) && r.value.draw == draw && r.value.Ready() && r.value.Synced()
                        && r.value.alphabet == Seed && r.value.atlasData == Rebuild(draw, Seed).value
    {
      var m := new FontManager(draw);
      var seed := SeedAlphabet();
      ExtendSeed();
      var o := m.Update(seed);
      assert m.alphabet == Seed && m.alphabet != [];
      if o.Fail? {
        r := Err(o.error);
      } else {
        assert m.builtFor == Some(Seed);
        RebuildTable(draw, Seed);
        r := Ok(m);
      }
    }

    /** U+FFFD followed by ' ' through '~', built one code point at a time. */
    static method SeedAlphabet() returns (s: string)
      ensures s == Seed
    {
      s := [Replacement];
      var i := 0x20;
      while i <= 0x7E
        invariant 0x20 <= i <= 0x7F && |s| == i - 0x20 + 1
        invariant s[0] == Replacement && forall k :: 1 <= k < |s| ==> s[k] == (0x20 + k - 1) as char
      {
        s := s + [i as char];
        i := i + 1;
      }
      assert forall k :: 1 <= k < |s| ==> Seed[k] == s[k];
    }

    /** `update(newChars)`. */
    method Update(newChars: string) returns (r: Outcome<FontError>)
      requires Valid()
      modifies this
      ensures Valid()
      ensures Updated(State(), r) == UpdateSpec(draw, old(State()), newChars)
      ensures old(Ready()) ==> Ready()
      ensures Synced() <==> if alphabet == old(alphabet) then old(Synced()) else r.Pass?
    {
      var needsUpdate := AddChars(newChars);
      if !needsUpdate {
        return Pass;
      }
      var res := PackAtlas(draw, alphabet);
      match res
      case Ok(ad) =>
        atlasData := ad;
        builtFor := Some(alphabet);
        if old(Ready()) {
          RebuildTable(draw, alphabet);
        }
        r := Pass;
      case Err(e) =>
        r := Fail(e);
    }

    /** The loop at the start of `update`: append each character not yet in the alphabet, and note whether any was. */
    method AddChars(newChars: string) returns (needsUpdate: bool)
      requires Valid()
      modifies this
      ensures alphabet == Extend(old(alphabet), newChars)
      ensures needsUpdate <==> alphabet != old(alphabet)
      ensures Valid() && builtFor == old(builtFor) && atlasData == old(atlasData)
    {
      ExtendAppendsFresh(alphabet, newChars);
      needsUpdate := false;
      for i := 0 to |newChars|
        invariant alphabet == Extend(old(alphabet), newChars[..i])
        invariant old(alphabet) <= alphabet
        invariant needsUpdate <==> alphabet != old(alphabet)
        invariant Valid() && builtFor == old(builtFor) && atlasData == old(atlasData)
      {
        assert newChars[..i + 1][..i] == newChars[..i];
        ExtendAppendsFresh(old(alphabet), newChars[..i + 1]);
        var c := newChars[i];
        if c !in alphabet {
          alphabet := alphabet + [c];
          needsUpdate := true;
        }
      }
      assert newChars[..|newChars|] == newChars;
    }

    /** The rebuild inside `update`: shelf-pack every glyph of `alphabet` into a fresh atlas. */
    static method PackAtlas(draw: Rasterizer, alphabet: string) returns (r: Result<AtlasData, FontError>)
      ensures r == Rebuild(draw, alphabet)
    {
      var atlas := new Byte[AtlasWidth * AtlasHeight](_ => 0);
      assert atlas[..] == StartShelf().atlas;
      var charInfo: map<char, CharInfo> := map[];
      var x: nat, y: nat, rowHeight: nat, lineHeight: nat, maxAscent: int := 0, 0, 0, 0, 0;
      for i := 0 to |alphabet|
        invariant atlas.Length == AtlasSize
        invariant PackAll(draw, alphabet[..i]).Ok?
        invariant PackAll(draw, alphabet[..i]).value == Shelf(x, y, rowHeight, lineHeight, maxAscent, charInfo, atlas[..])
      {
        var c := alphabet[i];
        ghost var st := Shelf(x, y, rowHeight, lineHeight, maxAscent, charInfo, atlas[..]);
        PackAllSnoc(draw, alphabet, i);
        if c in charInfo {
          RebuildStops(draw, alphabet, i, DuplicateCharacter(c));
          return Err(DuplicateCharacter(c));
        }
        var sdf := draw(c);
        if x + sdf.width >= AtlasWidth {
          x := 0;
          y := y + rowHeight;
          rowHeight := 0;
        }
        ghost var shelfHeight := rowHeight;
        if y + sdf.height >= AtlasHeight {
          PlaceExhausts(st, c, sdf, y);
          RebuildStops(draw, alphabet, i, AtlasExhausted);
          return Err(AtlasExhausted);
        }
        rowHeight := Max(rowHeight, sdf.height);
        lineHeight := Max(lineHeight, rowHeight);
        var ok := BlitGlyph(atlas, sdf, x, y);
        ghost var blitted := BlitRows(st.atlas, sdf, x, y, sdf.height);
        assert ok == blitted.Some? && (ok ==> atlas[..] == blitted.value);
        PlaceFits(st, c, sdf, x, y, shelfHeight);
        if !ok {
          RebuildStops(draw, alphabet, i, BlitOutOfRange);
          return Err(BlitOutOfRange);
        }
        charInfo := charInfo[c := CharInfo(x, y, sdf.width, sdf.height, sdf.glyphTop, sdf.glyphAdvance)];
        maxAscent := Max(maxAscent, sdf.glyphTop);
        x := x + sdf.width;
      }
      assert alphabet[..|alphabet|] == alphabet;
      r := Ok(AtlasData(atlas[..], AtlasWidth, AtlasHeight, charInfo, maxAscent, lineHeight));
    }

    /** The row loop of the rebuild: copy each bitmap row of `g` into the atlas at (x, y). */
    static method BlitGlyph(atlas: array<Byte>, g: Glyph, x: nat, y: nat) returns (ok: bool)
      modifies atlas
      ensures ok == BlitRows(old(atlas[..]), g, x, y, g.height).Some?
      ensures ok ==> atlas[..] == BlitRows(old(atlas[..]), g, x, y, g.height).value
    {
      ok := true;
      for row := 0 to g.height
        invariant BlitRows(old(atlas[..]), g, x, y, row) == Some(atlas[..])
      {
        var src := RowData(g, row);
        ok := SetFrom(atlas, src, AtlasWidth * (y + row) + x);
        if !ok {
          BlitRowsFailurePersists(old(atlas[..]), g, x, y, row + 1, g.height);
          return;
        }
      }
    }

    /** `atlas.set(src, offset)`: a RangeError (false, nothing written) when `src` runs past the end. */
    static method SetFrom(atlas: array<Byte>, src: seq<Byte>, offset: nat) returns (ok: bool)
      modifies atlas
      ensures ok == SetAt(old(atlas[..]), src, offset).Some?
      ensures ok ==> atlas[..] == SetAt(old(atlas[..]), src, offset).value
      ensures !ok ==> atlas[..] == old(atlas[..])
    {
      if offset + |src| > atlas.Length {
        return false;
      }
      forall k | 0 <= k < |src| {
        atlas[offset + k] := src[k];
      }
      return true;
    }

    /** `layout(text)`. */
    method Layout(text: string) returns (info: LayoutInfo)
      requires Replacement in atlasData.charInfo
      ensures info == LayoutOf(atlasData, text)
    {
      var chars: seq<CharLayoutInfo> := [];
      var x, lineTop, width, height := 0, 0, 0, 0;
      for i := 0 to |text|
        invariant LayoutFrom(atlasData, text[..i]) == Pen(x, lineTop, width, height, chars)
      {
        var c := text[i];
        assert text[..i + 1][..i] == text[..i] && text[..i + 1][i] == c;
        if c == '\n' {
          lineTop := lineTop + atlasData.lineHeight;
          x := 0;
        } else {
          var ci := if c in atlasData.charInfo then atlasData.charInfo[c] else atlasData.charInfo[Replacement];
          chars := chars + [CharLayoutInfo(
            x, lineTop - ci.yOffset + atlasData.maxAscent, ci.width, ci.height,
            lineTop, atlasData.lineHeight, ci.atlasX, ci.atlasY)];
          x := x + ci.xAdvance;
          width := Max(width, x);
          height := Max(height, lineTop + atlasData.lineHeight);
        }
      }
      assert text[..|text|] == text;
      info := LayoutInfo(width, height, chars);
    }
  }
}
