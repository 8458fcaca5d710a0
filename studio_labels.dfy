/**
 * The label pool of the 3D panel: the same pool-and-label structure as the
 * SDF text renderer, against a font manager of which only the interface is
 * known, packing six values per character (position, atlas position, size)
 * into an instance buffer, flipped so that y grows upwards.
 */
module StudioLabels {
  import opened Base
  import opened Textures

  /** Values per character in the instance buffer. */
  const Stride: nat := 6

  /** Bytes per element of a Float32Array. */
  const BytesPerElement: nat := 4

  /** The font manager's `atlasData`, as far as the label pool reads it. */
  datatype Atlas = Atlas(data: seq<Byte>, width: int, height: int)

  /** One laid-out character: where it is drawn in the label and where it is read from in the atlas. */
  datatype CharBox = CharBox(x: int, y: int, width: int, height: int, atlasX: int, atlasY: int)

  /** The result of `layout(text)`: the label's size and its characters. */
  datatype Layout = Layout(width: int, height: int, chars: seq<CharBox>)

  /**
   * The six instance values of one character of a label whose layout is
   * `info`: position with y measured upwards from the bottom of the label,
   * atlas position and size. The character can be read back from them, and a
   * character inside the label stays inside it after the flip.
   */
  function Instance(info: Layout, c: CharBox): (r: seq<int>)
    ensures |r| == Stride
    ensures CharOf(info.height, r) == c
    ensures 0 <= c.y && c.y + c.height <= info.height ==> 0 <= r[1] && r[1] + r[5] <= info.height
  {
    [c.x, info.height - c.y - c.height, c.atlasX, c.atlasY, c.width, c.height]
  }

  /** The character whose instance values, in a label `height` high, are `r`. */
  function CharOf(height: int, r: seq<int>): CharBox
    requires |r| == Stride
  {
    CharBox(r[0], height - r[1] - r[5], r[4], r[5], r[2], r[3])
  }

  /** The buffer `new Float32Array(byteLength)` allocated for `n` characters: as many elements as bytes. */
  function RequiredLength(n: nat): (r: nat)
    ensures Stride * n <= r
    ensures r == 0 <==> n == 0
  {
    n * Stride * BytesPerElement
  }

  /** Writes the instance values of `c` at the cursor `i0` and returns the advanced cursor. */
  method WriteInstance(data: array<int>, info: Layout, c: CharBox, i0: nat) returns (i: nat)
    requires i0 + Stride <= data.Length
    modifies data
    ensures i == i0 + Stride
    ensures var r := Instance(info, c);
      && data[i0] == r[0] && data[i0 + 1] == r[1] && data[i0 + 2] == r[2]
      && data[i0 + 3] == r[3] && data[i0 + 4] == r[4] && data[i0 + 5] == r[5]
    ensures forall j :: 0 <= j < data.Length && !(i0 <= j < i0 + Stride) ==> data[j] == old(data[j])
  {
    i := i0;
    data[i] := c.x;
    i := i + 1;
    data[i] := info.height - c.y - c.height;
    i := i + 1;
    data[i] := c.atlasX;
    i := i + 1;
    data[i] := c.atlasY;
    i := i + 1;
    data[i] := c.width;
    i := i + 1;
    data[i] := c.height;
    i := i + 1;
  }

  /**
   * The interface of the font manager the pool is written against: an atlas,
   * an `update` whose effect on the atlas (and whether it throws) is given by
   * `extend`, and a `layout` given by `layoutOf`.
   */
  class FontManager {
    var atlasData: Atlas
    const extend: (Atlas, string) -> (Atlas, Outcome<string>)
    const layoutOf: (Atlas, string) -> Layout

    constructor (atlasData: Atlas, extend: (Atlas, string) -> (Atlas, Outcome<string>), layoutOf: (Atlas, string) -> Layout)
      ensures this.atlasData == atlasData && this.extend == extend && this.layoutOf == layoutOf
    {
      this.atlasData := atlasData;
      this.extend := extend;
      this.layoutOf := layoutOf;
    }

    /** `update(text)`: the atlas becomes `extend`'s, and the call throws when `extend` says so. */
    method Update(text: string) returns (r: Outcome<string>)
      modifies this
      ensures (atlasData, r) == extend(old(atlasData), text)
    {
      var next := extend(atlasData, text);
      atlasData := next.0;
      r := next.1;
    }

    /** `layout(text)` against the current atlas. */
    method Layout(text: string) returns (info: Layout)
      ensures info == layoutOf(atlasData, text)
    {
      info := layoutOf(atlasData, text);
    }
  }

  class LabelPool {
    const fontManager: FontManager
    const atlasTexture: Texture

    /** A pool around `fontManager`, with an empty texture. */
    constructor (fontManager: FontManager)
      ensures this.fontManager == fontManager
      ensures fresh(atlasTexture) && atlasTexture.image == Image([], 0, 0) && !atlasTexture.needsUpdate
    {
      this.fontManager := fontManager;
      atlasTexture := new Texture();
    }

    /**
     * `update(text)`: extend the font, then upload the whole atlas as RGBA.
     * When the font manager throws, the exception propagates and the texture is untouched.
     */
    method Update(text: string) returns (r: Outcome<string>)
      modifies fontManager, atlasTexture
      ensures (fontManager.atlasData, r) == fontManager.extend(old(fontManager.atlasData), text)
      ensures r.Pass? ==> && atlasTexture.needsUpdate
                          && atlasTexture.image == Image(Rgba(fontManager.atlasData.data),
                                                         fontManager.atlasData.width, fontManager.atlasData.height)
      ensures r.Fail? ==> unchanged(atlasTexture)
    {
      r := fontManager.Update(text);
      if r.Fail? {
        return;
      }
      var data := ExpandRgba(fontManager.atlasData.data);
      atlasTexture.SetImage(Image(data, fontManager.atlasData.width, fontManager.atlasData.height));
    }

    /** `acquire()`: a new label on this pool. */
    method Acquire() returns (l: Label)
      ensures fresh(l) && l.labelPool == this
      ensures l.text == [] && l.meshCount == 0 && l.instanceData.Length == 0
    {
      l := new Label(this);
    }
  }

  class Label {
    const labelPool: LabelPool
    var text: string
    /** The `uTextureSize` uniform. */
    var textureSize: (int, int)
    /** The geometry's instance count; None is three.js's default of no limit. */
    var instanceCount: Option<nat>
    /** The instanced mesh's count. */
    var meshCount: nat
    /** The interleaved instance buffer, `Stride` values per character. */
    var instanceData: array<int>
    /** The buffer's `needsUpdate` flag. */
    var bufferNeedsUpdate: bool

    /** A label with no text, an empty buffer and the pool texture's current size. */
    constructor (labelPool: LabelPool)
      ensures this.labelPool == labelPool
      ensures text == [] && instanceCount == None && meshCount == 0 && !bufferNeedsUpdate
      ensures textureSize == (labelPool.atlasTexture.image.width, labelPool.atlasTexture.image.height)
      ensures fresh(instanceData) && instanceData.Length == 0
    {
      this.labelPool := labelPool;
      text := [];
      textureSize := (labelPool.atlasTexture.image.width, labelPool.atlasTexture.image.height);
      instanceCount := None;
      meshCount := 0;
      instanceData := new int[0];
      bufferNeedsUpdate := false;
    }

    /**
     * `update(text?)`: with new text, store it and extend the pool's font (an
     * exception from there propagates); then lay the stored text out and
     * write its instance buffer.
     */
    method Update(newText: Option<string>) returns (r: Outcome<string>)
      modifies this, instanceData, labelPool.fontManager, labelPool.atlasTexture
      ensures newText.None? ==> r.Pass? && unchanged(labelPool.fontManager, labelPool.atlasTexture)
      ensures newText.Some? ==>
        (labelPool.fontManager.atlasData, r) == labelPool.fontManager.extend(old(labelPool.fontManager.atlasData), newText.value)
      ensures text == if newText.Some? then newText.value else old(text)
      ensures r.Fail? ==> && textureSize == old(textureSize)
                          && instanceCount == old(instanceCount) && meshCount == old(meshCount)
                          && instanceData == old(instanceData) && unchanged(instanceData)
                          && bufferNeedsUpdate == old(bufferNeedsUpdate)
      ensures r.Pass? && newText.Some? ==> textureSize == (labelPool.atlasTexture.image.width, labelPool.atlasTexture.image.height)
      ensures r.Pass? && newText.None? ==> textureSize == old(textureSize)
      ensures r.Pass? ==> Displays(labelPool.fontManager.layoutOf(labelPool.fontManager.atlasData, text))
      ensures r.Pass? ==>
        Reallocated(old(instanceData), old(instanceData[..]),
                    |labelPool.fontManager.layoutOf(labelPool.fontManager.atlasData, text).chars|)
    {
      if newText.Some? {
        text := newText.value;
        r := labelPool.Update(newText.value);
        if r.Fail? {
          return;
        }
        textureSize := (labelPool.atlasTexture.image.width, labelPool.atlasTexture.image.height);
      } else {
        r := Pass;
      }
      Relayout();
    }

    /**
     * The label shows the layout `info`: its instance counts are the number
     * of characters, and value `f` of character `k` sits at `Stride * k + f`
     * of a buffer marked for upload.
     */
    ghost predicate Displays(info: Layout)
      reads this, instanceData
    {
      var n := |info.chars|;
      && instanceCount == Some(n) && meshCount == n
      && bufferNeedsUpdate
      && instanceData.Length >= Stride * n
      && forall k, f :: 0 <= k < n && 0 <= f < Stride ==>
           instanceData[Stride * k + f] == Instance(info, info.chars[k])[f]
    }

    /**
     * The buffer after writing `n` characters over `previous` (whose values
     * were `values`): a fresh buffer of `RequiredLength(n)` values, zero past
     * the filled part, exactly when the old byte length was too small, so it
     * never shrinks; otherwise the same buffer with its values past the filled part kept.
     */
    twostate predicate Reallocated(previous: array<int>, values: seq<int>, n: nat)
      reads this, instanceData
    {
      && (previous.Length * BytesPerElement < RequiredLength(n) ==>
            fresh(instanceData) && instanceData.Length == RequiredLength(n)
            && forall j :: Stride * n <= j < instanceData.Length ==> instanceData[j] == 0)
      && instanceData.Length >= previous.Length
      && (!(previous.Length * BytesPerElement < RequiredLength(n)) ==>
            instanceData == previous && |values| == previous.Length
            && forall j :: Stride * n <= j < instanceData.Length ==> instanceData[j] == values[j])
    }

    /** Lays the stored text out against the pool's atlas and writes the instance buffer. */
    method Relayout()
      modifies this, instanceData
      ensures text == old(text) && textureSize == old(textureSize)
      ensures Displays(labelPool.fontManager.layoutOf(labelPool.fontManager.atlasData, text))
      ensures Reallocated(old(instanceData), old(instanceData[..]),
                          |labelPool.fontManager.layoutOf(labelPool.fontManager.atlasData, text).chars|)
    {
      var info := labelPool.fontManager.Layout(text);
      instanceCount := Some(|info.chars|);
      meshCount := |info.chars|;
      var required := RequiredLength(|info.chars|);
      if instanceData.Length * BytesPerElement < required {
        instanceData := new int[required](_ => 0);
      }
      WriteInstances(info);
      bufferNeedsUpdate := true;
    }

    /** The packing loop: `Stride` values per character, through a running cursor. */
    method WriteInstances(info: Layout)
      requires instanceData.Length >= Stride * |info.chars|
      modifies instanceData
      ensures forall k, f :: 0 <= k < |info.chars| && 0 <= f < Stride ==>
        instanceData[Stride * k + f] == Instance(info, info.chars[k])[f]
      ensures forall j :: Stride * |info.chars| <= j < instanceData.Length ==> instanceData[j] == old(instanceData[j])
    {
      var data := instanceData;
      var i := 0;
      for k := 0 to |info.chars|
        invariant i == Stride * k
        invariant forall k', f :: 0 <= k' < k && 0 <= f < Stride ==> data[Stride * k' + f] == Instance(info, info.chars[k'])[f]
        invariant forall j :: Stride * k <= j < data.Length ==> data[j] == old(data[j])
      {
        i := WriteInstance(data, info, info.chars[k], i);
      }
    }
  }
}
