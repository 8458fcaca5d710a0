/**
 * The label pool of the SDF text renderer: one shared font manager and RGBA
 * atlas texture, and labels that lay their text out against it and pack ten
 * values per character into an instance buffer, flipped so that y grows upwards.
 */
module ThreeTextLabels {
  import opened Base
  import opened AtlasPacking
  import opened TextLayout
  import opened Fonts
  import opened Textures

  /** Values per character in the instance buffer. */
  const Stride: nat := 10

  /** Bytes per element of a Float32Array. */
  const BytesPerElement: nat := 4

  /**
   * The ten instance values of one character of a label whose layout is `info`:
   * box position, character position, atlas position, box size and character size,
   * with y measured upwards from the bottom of the label. The character can be
   * read back from them.
   */
  function Instance(info: LayoutInfo, c: CharLayoutInfo): (r: seq<int>)
    ensures |r| == Stride
    ensures CharOf(info.height, r) == c
    ensures r[0] == r[2] && r[6] == r[8]
  {
    var boxBottom := info.height - c.boxTop - c.boxHeight;
    [c.left, boxBottom, c.left, boxBottom + c.top - c.boxTop, c.atlasX, c.atlasY, c.width, c.boxHeight, c.width, c.height]
  }

  /** The character whose instance values, in a label `height` high, are `r`. */
  function CharOf(height: int, r: seq<int>): CharLayoutInfo
    requires |r| == Stride
  {
    var boxTop := height - r[1] - r[7];
    CharLayoutInfo(r[0], r[3] - r[1] + boxTop, r[6], r[9], boxTop, r[7], r[4], r[5])
  }

  /**
   * Flipping keeps every character box inside the label: it starts at or above
   * the bottom edge, ends at or below the top edge, and the character sits in
   * its box at the glyph's own offset below the line's ascent.
   */
  lemma InstanceInsideLabel(ad: AtlasData, t: string, k: nat)
    requires Replacement in ad.charInfo && 0 <= ad.lineHeight
    requires k < |LayoutOf(ad, t).chars|
    ensures var info := LayoutOf(ad, t);
      var r := Instance(info, info.chars[k]);
      && 0 <= r[1] && r[1] + r[7] <= info.height
      && r[7] == ad.lineHeight
      && r[0] == r[2] && r[6] == r[8]
      && r[3] - r[1] == info.chars[k].top - info.chars[k].boxTop
  {
    LayoutExtent(ad, t);
    LayoutLineBoxes(ad, t);
  }

  /** The buffer `new Float32Array(byteLength)` allocated for `n` characters: as many elements as bytes. */
  function RequiredLength(n: nat): (r: nat)
    ensures Stride * n <= r
    ensures r == 0 <==> n == 0
  {
    n * Stride * BytesPerElement
  }

  /** Writes the instance values of `c` at the cursor `i0` and returns the advanced cursor. */
  method WriteInstance(data: array<int>, info: LayoutInfo, c: CharLayoutInfo, i0: nat) returns (i: nat)
    requires i0 + Stride <= data.Length
    modifies data
    ensures i == i0 + Stride
    ensures var r := Instance(info, c);
      && data[i0] == r[0] && data[i0 + 1] == r[1] && data[i0 + 2] == r[2] && data[i0 + 3] == r[3] && data[i0 + 4] == r[4]
      && data[i0 + 5] == r[5] && data[i0 + 6] == r[6] && data[i0 + 7] == r[7] && data[i0 + 8] == r[8] && data[i0 + 9] == r[9]
    ensures forall j :: 0 <= j < data.Length && !(i0 <= j < i0 + Stride) ==> data[j] == old(data[j])
  {
    i := i0;
    // box position
    data[i] := c.left;
    i := i + 1;
    data[i] := info.height - c.boxTop - c.boxHeight;
    i := i + 1;
    // character position
    data[i] := c.left;
    i := i + 1;
    data[i] := info.height - c.boxTop - c.boxHeight + c.top - c.boxTop;
    i := i + 1;
    // atlas position
    data[i] := c.atlasX;
    i := i + 1;
    data[i] := c.atlasY;
    i := i + 1;
    // box size
    data[i] := c.width;
    i := i + 1;
    data[i] := c.boxHeight;
    i := i + 1;
    // character size
    data[i] := c.width;
    i := i + 1;
    data[i] := c.height;
    i := i + 1;
  }

  class LabelPool {
    const fontManager: FontManager
    const atlasTexture: Texture

    ghost predicate Valid()
      reads this, fontManager
    {
      fontManager.Ready()
    }

    /** A pool around a constructed font manager, with an empty texture. */
    constructor (fontManager: FontManager)
      requires fontManager.Ready()
      ensures Valid() && this.fontManager == fontManager
      ensures fresh(atlasTexture) && atlasTexture.image == Image([], 0, 0) && !atlasTexture.needsUpdate
    {
      this.fontManager := fontManager;
      atlasTexture := new Texture();
    }

    /**
     * `update(text)`: extend the font, then upload the whole atlas as RGBA.
     * When the font manager throws, the exception propagates and the texture is untouched.
     */
    method Update(text: string) returns (r: Outcome<FontError>)
      requires Valid()
      modifies fontManager, atlasTexture
      ensures Valid()
      ensures Updated(fontManager.State(), r) == UpdateSpec(fontManager.draw, old(fontManager.State()), text)
      ensures fontManager.Synced() <==>
        if fontManager.alphabet == old(fontManager.alphabet) then old(fontManager.Synced()) else r.Pass?
      ensures r.Pass? ==> && atlasTexture.needsUpdate
                          && atlasTexture.image == Image(Rgba(fontManager.atlasData.data),
                                                         fontManager.atlasData.width, fontManager.atlasData.height)
      ensures r.Fail? ==> unchanged(atlasTexture)
    {
      r := fontManager.Update(text);
      if r.Fail? {
        return;
      }
      var data := ExpandRgba(fontManager.atlasData.data);
      atlasTexture.SetImage(Image(data, fontManager.atlasData.width, fontManager.atlasData.height));
    }

    /** `acquire()`: a new label on this pool. */
    method Acquire() returns (l: Label)
      requires Valid()
      ensures fresh(l) && l.labelPool == this && l.Valid()
      ensures l.text == [] && l.meshCount == 0 && l.instanceData.Length == 0
    {
      l := new Label(this);
    }
  }

  class Label {
    const labelPool: LabelPool
    var text: string
    /** The `uTextureSize` uniform. */
    var textureSize: (int, int)
    /** The `uLabelSize` uniform. */
    var labelSize: (int, int)
    /** The geometry's instance count; None is three.js's default of no limit. */
    var instanceCount: Option<nat>
    /** The instanced mesh's count. */
    var meshCount: nat
    /** The interleaved instance buffer, `Stride` values per character. */
    var instanceData: array<int>
    /** The buffer's `needsUpdate` flag. */
    var bufferNeedsUpdate: bool

    ghost predicate Valid()
      reads this, labelPool, labelPool.fontManager
    {
      labelPool.Valid()
    }

    /** A label with no text, an empty buffer and the pool texture's current size. */
    constructor (labelPool: LabelPool)
      requires labelPool.Valid()
      ensures Valid() && this.labelPool == labelPool
      ensures text == [] && labelSize == (0, 0) && instanceCount == None && meshCount == 0 && !bufferNeedsUpdate
      ensures textureSize == (labelPool.atlasTexture.image.width, labelPool.atlasTexture.image.height)
      ensures fresh(instanceData) && instanceData.Length == 0
    {
      this.labelPool := labelPool;
      text := [];
      textureSize := (labelPool.atlasTexture.image.width, labelPool.atlasTexture.image.height);
      labelSize := (0, 0);
      instanceCount := None;
      meshCount := 0;
      instanceData := new int[0];
      bufferNeedsUpdate := false;
    }

    /**
     * `update(text?)`: with new text, store it and extend the pool's font (an
     * exception from there propagates); then lay the stored text out and
     * write its instance buffer.
     */
    method Update(newText: Option<string>) returns (r: Outcome<FontError>)
      requires Valid()
      modifies this, instanceData, labelPool.fontManager, labelPool.atlasTexture
      ensures Valid()
      ensures newText.None? ==> r.Pass? && unchanged(labelPool.fontManager, labelPool.atlasTexture)
      ensures newText.Some? ==>
        Updated(labelPool.fontManager.State(), r) ==
        UpdateSpec(labelPool.fontManager.draw, old(labelPool.fontManager.State()), newText.value)
      ensures text == if newText.Some? then newText.value else old(text)
      ensures r.Fail? ==> && textureSize == old(textureSize) && labelSize == old(labelSize)
                          && instanceCount == old(instanceCount) && meshCount == old(meshCount)
                          && instanceData == old(instanceData) && unchanged(instanceData)
                          && bufferNeedsUpdate == old(bufferNeedsUpdate)
      ensures r.Pass? && newText.Some? ==> textureSize == (labelPool.atlasTexture.image.width, labelPool.atlasTexture.image.height)
      ensures r.Pass? && newText.None? ==> textureSize == old(textureSize)
      ensures r.Pass? ==> Displays(LayoutOf(labelPool.fontManager.atlasData, text))
      ensures r.Pass? ==> Reallocated(old(instanceData), old(instanceData[..]), |LayoutOf(labelPool.fontManager.atlasData, text).chars|)
    {
      if newText.Some? {
        text := newText.value;
        r := labelPool.Update(newText.value);
        if r.Fail? {
          return;
        }
        textureSize := (labelPool.atlasTexture.image.width, labelPool.atlasTexture.image.height);
      } else {
        r := Pass;
      }
      labelPool.fontManager.ReadyToLayout();
      Relayout();
    }

    /**
     * The label shows the layout `info`: its size and instance counts are the
     * layout's, and value `f` of character `k` sits at `Stride * k + f` of a
     * buffer marked for upload.
     */
    ghost predicate Displays(info: LayoutInfo)
      reads this, instanceData
    {
      var n := |info.chars|;
      && labelSize == (info.width, info.height)
      && instanceCount == Some(n) && meshCount == n
      && bufferNeedsUpdate
      && instanceData.Length >= Stride * n
      && forall k, f :: 0 <= k < n && 0 <= f < Stride ==>
           instanceData[Stride * k + f] == Instance(info, info.chars[k])[f]
    }

    /**
     * The buffer after writing `n` characters over `previous` (whose values
     * were `values`): a fresh buffer of `RequiredLength(n)` values, zero past
     * the filled part, exactly when the old byte length was too small, so it
     * never shrinks; otherwise the same buffer with its values past the filled part kept.
     */
    twostate predicate Reallocated(previous: array<int>, values: seq<int>, n: nat)
      reads this, instanceData
    {
      && (previous.Length * BytesPerElement < RequiredLength(n) ==>
            fresh(instanceData) && instanceData.Length == RequiredLength(n)
            && forall j :: Stride * n <= j < instanceData.Length ==> instanceData[j] == 0)
      && instanceData.Length >= previous.Length
      && (!(previous.Length * BytesPerElement < RequiredLength(n)) ==>
            instanceData == previous && |values| == previous.Length
            && forall j :: Stride * n <= j < instanceData.Length ==> instanceData[j] == values[j])
    }

    /** Lays the stored text out against the pool's atlas and writes the instance buffer. */
    method Relayout()
      requires Replacement in labelPool.fontManager.atlasData.charInfo
      modifies this, instanceData
      ensures text == old(text) && textureSize == old(textureSize)
      ensures Displays(LayoutOf(labelPool.fontManager.atlasData, text))
      ensures Reallocated(old(instanceData), old(instanceData[..]), |LayoutOf(labelPool.fontManager.atlasData, text).chars|)
    {
      var info := labelPool.fontManager.Layout(text);
      labelSize := (info.width, info.height);
      instanceCount := Some(|info.chars|);
      meshCount := |info.chars|;
      var required := RequiredLength(|info.chars|);
      if instanceData.Length * BytesPerElement < required {
        instanceData := new int[required](_ => 0);
      }
      WriteInstances(info);
      bufferNeedsUpdate := true;
    }

    /** The packing loop: `Stride` values per character, through a running cursor. */
    method WriteInstances(info: LayoutInfo)
      requires instanceData.Length >= Stride * |info.chars|
      modifies instanceData
      ensures forall k, f :: 0 <= k < |info.chars| && 0 <= f < Stride ==>
        instanceData[Stride * k + f] == Instance(info, info.chars[k])[f]
      ensures forall j :: Stride * |info.chars| <= j < instanceData.Length ==> instanceData[j] == old(instanceData[j])
    {
      var data := instanceData;
      var i := 0;
      for k := 0 to |info.chars|
        invariant i == Stride * k
        invariant forall k', f :: 0 <= k' < k && 0 <= f < Stride ==> data[Stride * k' + f] == Instance(info, info.chars[k'])[f]
        invariant forall j :: Stride * k <= j < data.Length ==> data[j] == old(data[j])
      {
        i := WriteInstance(data, info, info.chars[k], i);
      }
    }
  }
}
