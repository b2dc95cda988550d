/** `convertRGBAtoBGRA` of src/DxTexWrapper.cpp: turns a buffer of 8-bit
    RGBA pixels into BGRA by swapping the first and third byte of every
    4-byte pixel. */
module PixelShuffle {

  /** The BGRA bytes of an RGBA buffer, one pixel at a time. The
      conversion keeps the length. */
  function SwapRedBlue(rgba: seq<bv8>): (bgra: seq<bv8>)
    requires |rgba| % 4 == 0
    ensures |bgra| == |rgba|
    decreases |rgba|
  {
    if |rgba| == 0 then []
    else [rgba[2], rgba[1], rgba[0], rgba[3]] + SwapRedBlue(rgba[4..])
  }

  /** Converting the pixels of two buffers one after the other is
      converting the joined buffer. */
  lemma {:induction false} SwapRedBlueAppend(a: seq<bv8>, b: seq<bv8>)
    requires |a| % 4 == 0 && |b| % 4 == 0
    ensures SwapRedBlue(a + b) == SwapRedBlue(a) + SwapRedBlue(b)
    decreases |a|
  {
    if |a| == 0 {
      assert a + b == b;
    } else {
      assert (a + b)[4..] == a[4..] + b;
      SwapRedBlueAppend(a[4..], b);
    }
  }

  /** The output has the input's length, and pixel `i` of the output is
      pixel `i` of the input with its first and third byte exchanged:
      blue, green, red, alpha. */
  lemma {:induction false} SwapRedBlueAt(rgba: seq<bv8>, i: nat)
    requires |rgba| % 4 == 0 && i < |rgba| / 4
    ensures |SwapRedBlue(rgba)| == |rgba|
    ensures var bgra := SwapRedBlue(rgba);
      && bgra[4 * i] == rgba[4 * i + 2] && bgra[4 * i + 1] == rgba[4 * i + 1]
      && bgra[4 * i + 2] == rgba[4 * i] && bgra[4 * i + 3] == rgba[4 * i + 3]
    decreases |rgba|
  {
    if i > 0 {
      SwapRedBlueAt(rgba[4..], i - 1);
      assert rgba[4..][4 * (i - 1)] == rgba[4 * i];
    }
  }

  /** The green and the alpha byte of every pixel are left where they are. */
  lemma GreenAndAlphaKept(rgba: seq<bv8>)
    requires |rgba| % 4 == 0
    ensures |SwapRedBlue(rgba)| == |rgba|
    ensures forall i | 0 <= i < |rgba| && i % 4 in {1, 3} :: SwapRedBlue(rgba)[i] == rgba[i]
  {
    forall i | 0 <= i < |rgba| && i % 4 in {1, 3} ensures SwapRedBlue(rgba)[i] == rgba[i] {
      SwapRedBlueAt(rgba, i / 4);
    }
  }

  /** Converting twice gives the original pixels back. */
  lemma SwapRedBlueInvolutive(rgba: seq<bv8>)
    requires |rgba| % 4 == 0
    ensures |SwapRedBlue(rgba)| % 4 == 0
    ensures SwapRedBlue(SwapRedBlue(rgba)) == rgba
  {
    var bgra := SwapRedBlue(rgba);
    forall k | 0 <= k < |rgba| ensures SwapRedBlue(bgra)[k] == rgba[k] {
      var i := k / 4;
      SwapRedBlueAt(rgba, i);
      SwapRedBlueAt(bgra, i);
    }
  }

  /** One more pixel of the input adds its converted bytes to the output. */
  lemma SwapRedBlueStep(rgba: seq<bv8>, k: nat)
    requires k % 4 == 0 && k + 4 <= |rgba|
    ensures SwapRedBlue(rgba[..k + 4]) ==
      SwapRedBlue(rgba[..k]) + [rgba[k + 2], rgba[k + 1], rgba[k], rgba[k + 3]]
  {
    var px := [rgba[k], rgba[k + 1], rgba[k + 2], rgba[k + 3]];
    assert rgba[..k + 4] == rgba[..k] + px;
    SwapRedBlueAppend(rgba[..k], px);
    assert px[4..] == [];
  }

  /** The loop of `convertRGBAtoBGRA`: reads four bytes at a time and
      appends them to the output as blue, green, red, alpha. The iterator
      steps by four and dereferences `it + 3`, so the input length must be
      a multiple of four. */
  method ConvertRgbaToBgra(rgba: seq<bv8>) returns (bgra: seq<bv8>)
    requires |rgba| % 4 == 0
    ensures bgra == SwapRedBlue(rgba)
    ensures |bgra| == |rgba|
    ensures forall i | 0 <= i < |rgba| / 4 ::
      bgra[4 * i] == rgba[4 * i + 2] && bgra[4 * i + 1] == rgba[4 * i + 1] &&
      bgra[4 * i + 2] == rgba[4 * i] && bgra[4 * i + 3] == rgba[4 * i + 3]
  {
    bgra := [];
    var it := 0;
    while it != |rgba|
      invariant 0 <= it <= |rgba| && it % 4 == 0
      invariant |bgra| == it
      invariant bgra == SwapRedBlue(rgba[..it])
    {
      var r, g, b, a := rgba[it], rgba[it + 1], rgba[it + 2], rgba[it + 3];
      SwapRedBlueStep(rgba, it);
      bgra := bgra + [b];
      bgra := bgra + [g];
      bgra := bgra + [r];
      bgra := bgra + [a];
      it := it + 4;
    }
    assert rgba[..it] == rgba;
    forall i | 0 <= i < |rgba| / 4
      ensures bgra[4 * i] == rgba[4 * i + 2] && bgra[4 * i + 1] == rgba[4 * i + 1] &&
        bgra[4 * i + 2] == rgba[4 * i] && bgra[4 * i + 3] == rgba[4 * i + 3]
    {
      SwapRedBlueAt(rgba, i);
    }
  }
}
