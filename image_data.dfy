/** `ImageData` of src/ImageData.h: the width, height and RGBA pixel bytes
    of a decoded image, handed between the PNG codecs and the texture
    code. */
module Images {

  /** `unsigned int`, the type of the width and the height. */
  newtype uint32 = x: int | 0 <= x < 0x1_0000_0000

  /** `std::vector::resize`: keeps the first `n` elements, and pads with
      value-initialised (zero) bytes when the vector grows. */
  function Resize(v: seq<bv8>, n: nat): (r: seq<bv8>)
    ensures |r| == n
    ensures n <= |v| ==> r == v[..n]
    ensures n > |v| ==> r[..|v|] == v && forall k | |v| <= k < n :: r[k] == 0
  {
    if n <= |v| then v[..n] else v + seq(n - |v|, _ => 0)
  }

  class ImageData {
    var width: uint32
    var height: uint32
    var pixels: seq<bv8>

    /** A new object has no size and no pixels. */
    constructor ()
      ensures width == 0 && height == 0 && pixels == []
    {
      width := 0;
      height := 0;
      pixels := [];
    }

    method GetWidth() returns (w: uint32)
      ensures w == width
    {
      w := width;
    }

    /** Sets the width; the height and the pixels stay as they are. */
    method SetWidth(aWidth: uint32)
      modifies this`width
      ensures width == aWidth
      ensures height == old(height) && pixels == old(pixels)
    {
      width := aWidth;
    }

    method GetHeight() returns (h: uint32)
      ensures h == height
    {
      h := height;
    }

    /** Sets the height; the width and the pixels stay as they are. */
    method SetHeight(aHeight: uint32)
      modifies this`height
      ensures height == aHeight
      ensures width == old(width) && pixels == old(pixels)
    {
      height := aHeight;
    }

    method GetPixels() returns (p: seq<bv8>)
      ensures p == pixels
    {
      p := pixels;
    }

    /** `setPixels(void *src, size)`: resizes the pixel vector to `size`
        bytes and copies the first `size` bytes of `src` over it. The
        `memcpy` reads `size` bytes, so the source must hold that many. */
    method SetPixelsFrom(src: seq<bv8>, size: nat)
      requires size <= |src|
      modifies this`pixels
      ensures pixels == src[..size]
      ensures width == old(width) && height == old(height)
    {
      pixels := Resize(pixels, size);
      var k := 0;
      while k < size
        invariant 0 <= k <= size && |pixels| == size
        invariant forall j | 0 <= j < k :: pixels[j] == src[j]
      {
        pixels := pixels[k := src[k]];
        k := k + 1;
      }
      assert pixels == src[..size];
    }

    /** `setPixels(const std::vector &src)`: the pixels become a copy of
        `src`. */
    method SetPixels(src: seq<bv8>)
      modifies this`pixels
      ensures pixels == src
      ensures width == old(width) && height == old(height)
    {
      SetPixelsFrom(src, |src|);
    }

    method GetPixelsSize() returns (n: nat)
      ensures n == |pixels|
    {
      n := |pixels|;
    }
  }

  /** What a caller can rely on: each getter returns what its setter was
      given last, whichever other setters ran in between, and the pixel
      count is the length of the vector that was set. */
  method SettersAndGetters(w: uint32, h: uint32, src: seq<bv8>)
    returns (img: ImageData, gotWidth: uint32, gotHeight: uint32, size: nat)
    ensures gotWidth == w && gotHeight == h && size == |src|
    ensures img.pixels == src
  {
    img := new ImageData();
    var w0 := img.GetWidth();
    var n0 := img.GetPixelsSize();
    assert w0 == 0 && n0 == 0;
    img.SetWidth(w);
    img.SetPixels(src);
    img.SetHeight(h);
    gotWidth := img.GetWidth();
    gotHeight := img.GetHeight();
    size := img.GetPixelsSize();
  }
}
