/**
 * The RGBA texture the label pools upload: every single-channel atlas value
 * becomes one white pixel (channels 1, 1, 1) whose alpha is that value.
 */
module Textures {
  import opened Base

  /** The `image` of a data texture: its values and its dimensions. */
  datatype Image = Image(data: seq<Byte>, width: int, height: int)

  /** The RGBA expansion of an alpha-only bitmap: four values per pixel, `1, 1, 1, alpha`. */
  function Rgba(alpha: seq<Byte>): (rgba: seq<Byte>)
    ensures |rgba| == 4 * |alpha|
  {
    if alpha == [] then []
    else Rgba(alpha[..|alpha| - 1]) + [1, 1, 1, alpha[|alpha| - 1]]
  }

  /** The alpha channel of an RGBA bitmap: every fourth value. */
  function AlphaOf(rgba: seq<Byte>): (alpha: seq<Byte>)
    ensures |alpha| == |rgba| / 4
  {
    if |rgba| < 4 then []
    else AlphaOf(rgba[..|rgba| - 4]) + [rgba[|rgba| - 1]]
  }

  /** Pixel `i` of the expansion is white with the alpha of atlas value `i`. */
  lemma {:induction false} RgbaChannels(alpha: seq<Byte>)
    ensures forall i :: 0 <= i < |alpha| ==>
      && Rgba(alpha)[4 * i] == 1 && Rgba(alpha)[4 * i + 1] == 1 && Rgba(alpha)[4 * i + 2] == 1
      && Rgba(alpha)[4 * i + 3] == alpha[i]
  {
    if alpha != [] {
      var p := alpha[..|alpha| - 1];
      RgbaChannels(p);
      forall i | 0 <= i < |p|
        ensures p[i] == alpha[i]
      {
      }
    }
  }

  /** The alpha channel of the expansion is the atlas itself. */
  lemma {:induction false} AlphaOfRgba(alpha: seq<Byte>)
    ensures AlphaOf(Rgba(alpha)) == alpha
  {
    if alpha != [] {
      var p := alpha[..|alpha| - 1];
      var r := Rgba(alpha);
      assert r[..|r| - 4] == Rgba(p);
      AlphaOfRgba(p);
      assert alpha == p + [alpha[|alpha| - 1]];
    }
  }

  /** A three.js data texture, reduced to its image and its upload flag. */
  class Texture {
    var image: Image
    /** Set to ask for the image to be uploaded again. */
    var needsUpdate: bool

    /** An empty texture: no values, 0 by 0. */
    constructor ()
      ensures image == Image([], 0, 0) && !needsUpdate
    {
      image := Image([], 0, 0);
      needsUpdate := false;
    }

    /** Replaces the image and marks the texture for upload. */
    method SetImage(img: Image)
      modifies this
      ensures image == img && needsUpdate
    {
      image := img;
      needsUpdate := true;
    }
  }

  /** Fills a new RGBA buffer, four values per atlas value. */
  method ExpandRgba(alpha: seq<Byte>) returns (rgba: seq<Byte>)
    ensures rgba == Rgba(alpha)
    ensures |rgba| == 4 * |alpha|
    ensures forall i :: 0 <= i < |alpha| ==>
      rgba[4 * i] == 1 && rgba[4 * i + 1] == 1 && rgba[4 * i + 2] == 1 && rgba[4 * i + 3] == alpha[i]
  {
    var data := new Byte[4 * |alpha|](_ => 0);
    for i := 0 to |alpha|
      invariant data[..4 * i] == Rgba(alpha[..i])
    {
      assert alpha[..i + 1][..i] == alpha[..i];
      data[4 * i] := 1;
      data[4 * i + 1] := 1;
      data[4 * i + 2] := 1;
      data[4 * i + 3] := alpha[i];
      assert data[..4 * (i + 1)] == data[..4 * i] + [1, 1, 1, alpha[i]];
    }
    assert alpha[..|alpha|] == alpha;
    rgba := data[..];
    RgbaChannels(alpha);
  }
}
