/** The block of `test1` as its comments say it is meant to work: every
    mask write overwrites the four bytes of its field instead of erasing
    three and inserting four, and the texture capability is ORed into the
    32-bit `dwCaps` field instead of into one byte of it. The decisions
    are those of the code as written (`TexContainer`). With these writes
    the header keeps its 128-byte layout and the pixel data stays where
    the DDS reader looks for it. */
module TexCorrected {
  import opened Bytes
  import opened Wrappers
  import opened DdsHeader
  import opened TexContainer

  /** A 32-bit field overwritten in place with the little-endian bytes `mask`. */
  function WriteMask(s: seq<bv8>, at: nat, mask: seq<bv8>): (r: seq<bv8>)
    requires |mask| == 4 && at + 4 <= |s|
    ensures |r| == |s|
    ensures r[..at] == s[..at] && r[at..at + 4] == mask && r[at + 4..] == s[at + 4..]
    ensures LeWord(r, at) == LeWord(mask, 0)
  {
    var r := s[..at] + mask + s[at + 4..];
    assert r[at..at + 4] == mask;
    LeWordBytes(r, at);
    LeWordBytes(mask, 0);
    WordsEqualByBytes(LeWord(r, at), LeWord(mask, 0));
    r
  }

  /** The channel-mask rule with overwriting writes. */
  function ApplyRgbRuleFixed(u: seq<bv8>): (r: seq<bv8>)
    requires |u| >= PixelFormatEnd
    ensures |r| == |u|
  {
    var s1 := WriteMask(u, RedMaskOffset, RedMaskBytes);
    var s2 := WriteMask(s1, GreenMaskOffset, GreenMaskBytes);
    WriteMask(s2, BlueMaskOffset, BlueMaskBytes)
  }

  /** The fixed channel-mask rule writes the three colour masks and
      nothing else. */
  lemma ApplyRgbRuleFixedLayout(u: seq<bv8>)
    requires |u| >= PixelFormatEnd
    ensures var r := ApplyRgbRuleFixed(u);
      && r[..92] == u[..92]
      && r[92..104] == RedMaskBytes + GreenMaskBytes + BlueMaskBytes
      && r[104..] == u[104..]
  {
    var s1 := WriteMask(u, RedMaskOffset, RedMaskBytes);
    var s2 := WriteMask(s1, GreenMaskOffset, GreenMaskBytes);
    var r := WriteMask(s2, BlueMaskOffset, BlueMaskBytes);
    assert r[..92] == u[..92] by {
      assert r[..92] == r[..100][..92] == s2[..100][..92] == s2[..92];
      assert s2[..92] == s2[..96][..92] == s1[..96][..92] == s1[..92];
    }
    assert r[92..104] == RedMaskBytes + GreenMaskBytes + BlueMaskBytes by {
      assert r[92..96] == r[..100][92..96] == s2[..100][92..96] == s2[92..96];
      assert s2[92..96] == s2[..96][92..] == s1[..96][92..] == s1[92..96];
      assert r[96..100] == r[..100][96..] == s2[..100][96..] == s2[96..100];
      assert r[92..104] == r[92..96] + r[96..100] + r[100..104];
    }
    assert r[104..] == u[104..] by {
      assert r[104..] == s2[104..] == s1[100..][4..] == s1[104..] == u[96..][8..];
    }
  }

  /** The alpha rule with an overwriting mask write. */
  function ApplyAlphaRuleFixed(s: seq<bv8>): (r: seq<bv8>)
    requires |s| >= PixelFormatEnd
    ensures |r| == |s|
  {
    var t := s[PixelFormatFlagsOffset := s[PixelFormatFlagsOffset] | DdsAlphaPixels];
    WriteMask(t, AlphaMaskOffset, AlphaMaskBytes)
  }

  /** The fixed alpha rule sets bit 0 of byte 80, writes the alpha mask
      and changes nothing else. */
  lemma ApplyAlphaRuleFixedLayout(s: seq<bv8>)
    requires |s| >= PixelFormatEnd
    ensures var r := ApplyAlphaRuleFixed(s);
      && r[..80] == s[..80] && r[81..104] == s[81..104]
      && r[80] == s[80] | DdsAlphaPixels && r[80] & 1 == 1
      && r[104..108] == AlphaMaskBytes
      && r[108..] == s[108..]
  {
    var r := ApplyAlphaRuleFixed(s);
    assert r[..80] == r[..104][..80];
    assert r[81..104] == r[..104][81..];
  }

  /** The pixel-format repair with the code's decisions and overwriting
      writes. */
  function RepairFixed(u: seq<bv8>): (r: seq<bv8>)
    requires |u| >= PixelFormatEnd
    ensures |r| == |u|
  {
    var pf := ReadPixelFormat(u);
    var s1 := if RgbRuleFires(pf) then ApplyRgbRuleFixed(u) else u;
    if AlphaRuleFires(pf, s1[PixelFormatFlagsOffset]) then ApplyAlphaRuleFixed(s1) else s1
  }

  /** What the fixed repair leaves: the buffer keeps its length, only the
      flags byte at 80 and the masks at 92 to 107 may change, the
      channel-mask rule leaves the A8R8G8B8 colour masks, the alpha rule
      the alpha mask 0xFF000000 and the alpha bit, and with neither rule
      the buffer is as it was. */
  lemma RepairFixedLayout(u: seq<bv8>)
    requires |u| >= PixelFormatEnd
    ensures
      var pf := ReadPixelFormat(u);
      var rgb := RgbRuleFires(pf);
      var alpha := AlphaRuleFires(pf, u[80]);
      var r := RepairFixed(u);
      && r[..80] == u[..80] && r[81..92] == u[81..92] && r[108..] == u[108..]
      && r[80] == (if alpha then u[80] | DdsAlphaPixels else u[80])
      && r[92..104] == (if rgb then RedMaskBytes + GreenMaskBytes + BlueMaskBytes else u[92..104])
      && r[104..108] == (if alpha then AlphaMaskBytes else u[104..108])
      && (!rgb && !alpha ==> r == u)
  {
    var pf := ReadPixelFormat(u);
    var s1 := if RgbRuleFires(pf) then ApplyRgbRuleFixed(u) else u;
    if RgbRuleFires(pf) {
      ApplyRgbRuleFixedLayout(u);
      assert s1[104..108] == s1[104..][..4] && u[104..108] == u[104..][..4];
    }
    assert s1[..80] == s1[..92][..80] && u[..80] == u[..92][..80];
    assert s1[81..92] == s1[..92][81..] && u[81..92] == u[..92][81..];
    assert s1[80] == s1[..92][80];
    assert s1[108..] == u[108..] by {
      if RgbRuleFires(pf) {
        assert s1[108..] == s1[104..][4..];
      }
    }
    if AlphaRuleFires(pf, s1[80]) {
      var r := ApplyAlphaRuleFixed(s1);
      ApplyAlphaRuleFixedLayout(s1);
      assert r[81..92] == r[81..104][..11] && s1[81..92] == s1[81..104][..11];
      assert r[92..104] == r[81..104][11..] && s1[92..104] == s1[81..104][11..];
    }
  }

  /** After the fixed repair the masks read back as the canonical words. */
  lemma RepairFixedMasks(u: seq<bv8>)
    requires |u| >= PixelFormatEnd
    ensures
      var pf := ReadPixelFormat(u);
      var r := RepairFixed(u);
      var pr := ReadPixelFormat(r);
      && pr.size == pf.size && pr.fourCC == pf.fourCC && pr.rgbBitCount == pf.rgbBitCount
      && (RgbRuleFires(pf) ==> pr.rMask == 0x00FF_0000 && pr.gMask == 0x0000_FF00 && pr.bMask == 0x0000_00FF)
      && (!RgbRuleFires(pf) ==> pr.rMask == pf.rMask && pr.gMask == pf.gMask && pr.bMask == pf.bMask)
      && (AlphaRuleFires(pf, u[80]) ==> pr.aMask == 0xFF00_0000 && r[80] & 1 == 1)
      && (!AlphaRuleFires(pf, u[80]) ==> pr.aMask == pf.aMask && pr.flags == pf.flags)
  {
    var r := RepairFixed(u);
    RepairFixedLayout(u);
    MaskWordsRead(r);
    assert r[..80] == u[..80];
    assert r[76..80] == u[76..80] by { assert r[76..80] == r[..80][76..]; }
    assert r[84..92] == u[84..92] by { assert r[84..92] == r[81..92][3..]; }
    forall k | 76 <= k < 80 || 81 <= k < 92 ensures r[k] == u[k] {
      if k < 80 {
        assert r[k] == r[..80][k];
      } else {
        assert r[k] == r[81..92][k - 81];
      }
    }
    forall k | 92 <= k < 108 && !RgbRuleFires(ReadPixelFormat(u)) && !AlphaRuleFires(ReadPixelFormat(u), u[80])
      ensures r[k] == u[k]
    {
    }
    if !RgbRuleFires(ReadPixelFormat(u)) {
      forall k | 92 <= k < 104 ensures r[k] == u[k] {
        assert r[k] == r[92..104][k - 92];
      }
    }
    if !AlphaRuleFires(ReadPixelFormat(u), u[80]) {
      forall k | 104 <= k < 108 ensures r[k] == u[k] {
        assert r[k] == r[104..108][k - 104];
      }
    }
  }

  /** The fixed repair leaves a buffer that triggers neither rule, so
      repairing again changes nothing. */
  lemma RepairFixedIdempotent(u: seq<bv8>)
    requires |u| >= PixelFormatEnd
    ensures RepairFixed(RepairFixed(u)) == RepairFixed(u)
  {
    var r := RepairFixed(u);
    var pf := ReadPixelFormat(u);
    RepairFixedLayout(u);
    RepairFixedMasks(u);
    RuleBlockers(u);
    RuleBlockers(r);
    var pr := ReadPixelFormat(r);
    if RgbRuleFires(pf) {
      assert r[94] == r[92..104][2] && r[97] == r[92..104][5] && r[100] == r[92..104][8];
    }
    if AlphaRuleFires(pf, u[80]) {
      assert r[107] == r[104..108][3];
    }
    assert !RgbRuleFires(pr);
    assert !AlphaRuleFires(pr, r[80]);
    RepairFixedLayout(r);
  }

  /** The caps patch as meant: `DDS_SURFACE_FLAGS_TEXTURE` ORed into the
      32-bit `dwCaps` field at offset 108. */
  function PatchCapsWord(s: seq<bv8>, textureCaps: bv32): (r: seq<bv8>)
    requires |s| >= CapsOffset + 4
    ensures |r| == |s|
    ensures r[..CapsOffset] == s[..CapsOffset] && r[CapsOffset + 4..] == s[CapsOffset + 4..]
    ensures LeWord(r, CapsOffset) == LeWord(s, CapsOffset) | textureCaps
  {
    WriteMask(s, CapsOffset, BytesOf(LeWord(s, CapsOffset) | textureCaps))
  }

  /** Patching the caps word twice is patching it once. */
  lemma PatchCapsWordIdempotent(s: seq<bv8>, textureCaps: bv32)
    requires |s| >= CapsOffset + 4
    ensures PatchCapsWord(PatchCapsWord(s, textureCaps), textureCaps) == PatchCapsWord(s, textureCaps)
  {
    var r := PatchCapsWord(s, textureCaps);
    var r2 := PatchCapsWord(r, textureCaps);
    assert LeWord(r2, CapsOffset) == LeWord(r, CapsOffset);
    LeWordBytes(r, CapsOffset);
    LeWordBytes(r2, CapsOffset);
    assert r2[CapsOffset..CapsOffset + 4] == r[CapsOffset..CapsOffset + 4];
    assert r2 == r2[..CapsOffset] + r2[CapsOffset..CapsOffset + 4] + r2[CapsOffset + 4..];
    assert r == r[..CapsOffset] + r[CapsOffset..CapsOffset + 4] + r[CapsOffset + 4..];
  }

  /** With the conventional `DDSCAPS_TEXTURE` (0x1000) the word patch sets
      bit 4 of byte 109, the bit the one-byte OR of the code drops, and
      leaves every other byte as it was. */
  lemma PatchCapsWordTexture(s: seq<bv8>)
    requires |s| >= CapsOffset + 4
    ensures var r := PatchCapsWord(s, DdsSurfaceFlagsTexture);
      && r == s[CapsByteOffset := s[CapsByteOffset] | 0x10]
      && r[CapsByteOffset] & 0x10 == 0x10
  {
    var r := PatchCapsWord(s, DdsSurfaceFlagsTexture);
    var t := s[CapsByteOffset := s[CapsByteOffset] | 0x10];
    var w := LeWord(s, CapsOffset);
    LeWordBytes(s, CapsOffset);
    LeWordBytes(r, CapsOffset);
    OrTextureBytes(w);
    forall k | 0 <= k < |r| ensures r[k] == t[k] {
      if k < CapsOffset {
        assert r[k] == r[..CapsOffset][k];
      } else if k >= CapsOffset + 4 {
        assert r[k] == r[CapsOffset + 4..][k - CapsOffset - 4];
      }
    }
  }

  /** ORing 0x1000 into a word ORs 0x10 into its byte 1 and keeps the others. */
  lemma OrTextureBytes(w: bv32)
    ensures ByteOf(w | 0x1000, 0) == ByteOf(w, 0) && ByteOf(w | 0x1000, 1) == ByteOf(w, 1) | 0x10
    ensures ByteOf(w | 0x1000, 2) == ByteOf(w, 2) && ByteOf(w | 0x1000, 3) == ByteOf(w, 3)
  {
  }

  /** What the fixed transform needs: four bytes for the leading word and,
      behind a recognised frame, a DDS header reaching the end of `dwCaps`. */
  predicate CanNormalizeFixed(buf: seq<bv8>) {
    |buf| >= 4 &&
    (Sniff(buf).Some? ==> |buf| >= Sniff(buf).value.HeaderSize() + CapsOffset + 4)
  }

  /** The transform with the fixed writes: a recognised buffer loses its
      frame, gets the "DDS " magic, the fixed repair and the caps-word
      patch; any other buffer comes back as it was. */
  function NormalizedFixed(buf: seq<bv8>, textureCaps: bv32): (out: seq<bv8>)
    requires CanNormalizeFixed(buf)
    ensures Sniff(buf).None? ==> out == buf
    ensures Sniff(buf).Some? ==> |out| == |buf| - Sniff(buf).value.HeaderSize()
  {
    match Sniff(buf)
    case None => buf
    case Some(v) => PatchCapsWord(RepairFixed(Unwrap(buf, v)), textureCaps)
  }

  /** On a recognised buffer the fixed transform is a pure header patch:
      the output is exactly the bytes behind the frame except for byte 3
      (a space), the alpha bit of the flags byte and the masks, each as
      its rule decided on the bytes behind the frame writes it, and
      `dwCaps`; everything from offset 112 on, the rest of the header and
      all pixel data, is unmoved. */
  lemma NormalizedFixedLayout(buf: seq<bv8>, textureCaps: bv32)
    requires CanNormalizeFixed(buf) && Sniff(buf).Some?
    ensures
      var w := buf[Sniff(buf).value.HeaderSize()..];
      var pf := ReadPixelFormat(w);
      var rgb := RgbRuleFires(pf);
      var alpha := AlphaRuleFires(pf, w[80]);
      var out := NormalizedFixed(buf, textureCaps);
      && |out| == |w|
      && out[..80] == w[..3] + [0x20] + w[4..80] && out[81..92] == w[81..92]
      && out[80] == (if alpha then w[80] | DdsAlphaPixels else w[80])
      && out[92..104] == (if rgb then RedMaskBytes + GreenMaskBytes + BlueMaskBytes else w[92..104])
      && out[104..108] == (if alpha then AlphaMaskBytes else w[104..108])
      && out[CapsOffset + 4..] == w[CapsOffset + 4..]
      && LeWord(out, CapsOffset) == LeWord(w, CapsOffset) | textureCaps
  {
    var v := Sniff(buf).value;
    var w := buf[v.HeaderSize()..];
    UnwrapIsUpdate(buf, v);
    assert NormalizedFixed(buf, textureCaps) == PatchCapsWord(RepairFixed(w[3 := 0x20]), textureCaps);
    MagicFixedFixedLayout(w, textureCaps);
  }

  /** The fixed repair and the caps-word patch after the magic fix,
      relative to the bytes `w` behind the frame. */
  lemma MagicFixedFixedLayout(w: seq<bv8>, textureCaps: bv32)
    requires |w| >= CapsOffset + 4
    ensures
      var pf := ReadPixelFormat(w);
      var rgb := RgbRuleFires(pf);
      var alpha := AlphaRuleFires(pf, w[80]);
      var out := PatchCapsWord(RepairFixed(w[3 := 0x20]), textureCaps);
      && |out| == |w|
      && out[..80] == w[..3] + [0x20] + w[4..80] && out[81..92] == w[81..92]
      && out[80] == (if alpha then w[80] | DdsAlphaPixels else w[80])
      && out[92..104] == (if rgb then RedMaskBytes + GreenMaskBytes + BlueMaskBytes else w[92..104])
      && out[104..108] == (if alpha then AlphaMaskBytes else w[104..108])
      && out[CapsOffset + 4..] == w[CapsOffset + 4..]
      && LeWord(out, CapsOffset) == LeWord(w, CapsOffset) | textureCaps
  {
    var u := w[3 := 0x20];
    var r := RepairFixed(u);
    RepairFixedLayout(u);
    PatchedFixedLayout(u, r, textureCaps);
    MagicFixSlices(w);
    ReadPixelFormatLocal(u, w);
  }

  /** The magic fix changes byte 3 only. */
  lemma MagicFixSlices(w: seq<bv8>)
    requires |w| >= CapsOffset + 4
    ensures var u := w[3 := 0x20];
      && u[..80] == w[..3] + [0x20] + w[4..80] && u[81..92] == w[81..92]
      && u[76..108] == w[76..108] && u[80] == w[80]
      && u[92..104] == w[92..104] && u[104..108] == w[104..108]
      && u[CapsOffset + 4..] == w[CapsOffset + 4..]
      && LeWord(u, CapsOffset) == LeWord(w, CapsOffset)
  {
    var u := w[3 := 0x20];
    assert u[..80] == w[..3] + [0x20] + w[4..80];
    assert u[108..] == w[108..];
    CapsWordKept(w, u);
  }

  /** The caps-word patch after the fixed repair, relative to the
      unwrapped buffer `u`. */
  lemma PatchedFixedLayout(u: seq<bv8>, r: seq<bv8>, textureCaps: bv32)
    requires |u| >= CapsOffset + 4 && |r| == |u|
    requires r[..80] == u[..80] && r[81..92] == u[81..92] && r[108..] == u[108..]
    ensures
      var out := PatchCapsWord(r, textureCaps);
      && out[..80] == u[..80] && out[81..92] == u[81..92]
      && out[80] == r[80] && out[92..104] == r[92..104] && out[104..108] == r[104..108]
      && out[CapsOffset + 4..] == u[CapsOffset + 4..]
      && LeWord(out, CapsOffset) == LeWord(u, CapsOffset) | textureCaps
  {
    var out := PatchCapsWord(r, textureCaps);
    KeepsBefore(out, r, CapsOffset, 80);
    KeepsBetween(out, r, CapsOffset, 81, 92);
    KeepsBetween(out, r, CapsOffset, 92, 104);
    KeepsBetween(out, r, CapsOffset, 104, 108);
    assert out[80] == out[..CapsOffset][80] && r[80] == r[..CapsOffset][80];
    assert out[CapsOffset + 4..] == u[CapsOffset + 4..] by {
      assert r[CapsOffset + 4..] == r[108..][4..] && u[CapsOffset + 4..] == u[108..][4..];
    }
    CapsWordKept(u, r);
  }

  /** A buffer that agrees with `u` from offset 108 on has the same `dwCaps`. */
  lemma CapsWordKept(u: seq<bv8>, r: seq<bv8>)
    requires |u| >= CapsOffset + 4 && |r| == |u| && r[108..] == u[108..]
    ensures LeWord(r, CapsOffset) == LeWord(u, CapsOffset)
  {
    assert r[108] == r[108..][0] && r[109] == r[108..][1] && r[110] == r[108..][2] && r[111] == r[108..][3];
  }

  /** Two sequences that agree up to `n` agree on any range below `n`. */
  lemma KeepsBetween(a: seq<bv8>, b: seq<bv8>, n: nat, lo: nat, hi: nat)
    requires lo <= hi <= n <= |a| && n <= |b| && a[..n] == b[..n]
    ensures a[lo..hi] == b[lo..hi]
  {
    forall k | lo <= k < hi ensures a[k] == b[k] {
      assert a[k] == a[..n][k] && b[k] == b[..n][k];
    }
  }

  /** Two sequences that agree up to `n` agree up to any `m <= n`. */
  lemma KeepsBefore(a: seq<bv8>, b: seq<bv8>, n: nat, m: nat)
    requires m <= n <= |a| && n <= |b| && a[..n] == b[..n]
    ensures a[..m] == b[..m]
  {
    assert a[..m] == a[..n][..m];
  }

  /** The fixed transform is idempotent on the header it produces:
      repairing and patching its output again changes nothing. */
  lemma NormalizedFixedRepairStable(buf: seq<bv8>, textureCaps: bv32)
    requires CanNormalizeFixed(buf) && Sniff(buf).Some?
    ensures
      var out := NormalizedFixed(buf, textureCaps);
      |out| >= CapsOffset + 4 && PatchCapsWord(RepairFixed(out), textureCaps) == out
  {
    var v := Sniff(buf).value;
    var r := RepairFixed(Unwrap(buf, v));
    var out := PatchCapsWord(r, textureCaps);
    RepairFixedIdempotent(Unwrap(buf, v));
    RepairOnlyReadsPixelFormat(r, out);
    PatchCapsWordIdempotent(r, textureCaps);
  }

  /** Changing `dwCaps` (bytes 108 to 111) does not change what the fixed
      repair does to the bytes before it: the repair of a buffer whose
      repair is a no-op stays a no-op after the caps patch. */
  lemma RepairOnlyReadsPixelFormat(r: seq<bv8>, out: seq<bv8>)
    requires |r| >= CapsOffset + 4 && |out| == |r|
    requires RepairFixed(r) == r
    requires out[..CapsOffset] == r[..CapsOffset]
    ensures RepairFixed(out) == out
  {
    assert out[76..108] == r[76..108] by {
      assert out[76..108] == out[..CapsOffset][76..];
      assert r[76..108] == r[..CapsOffset][76..];
    }
    ReadPixelFormatLocal(out, r);
    assert out[80] == out[..CapsOffset][80] && r[80] == r[..CapsOffset][80];
    var pf := ReadPixelFormat(r);
    RepairFixedLayout(r);
    RepairFixedLayout(out);
    if RgbRuleFires(pf) || AlphaRuleFires(pf, r[80]) {
      RepairFixedMasks(r);
      if RgbRuleFires(pf) {
        assert r[94] == r[92..104][2] && r[97] == r[92..104][5] && r[100] == r[92..104][8];
      }
      if AlphaRuleFires(pf, r[80]) {
        assert r[107] == r[104..108][3];
      }
      RuleBlockers(r);
      assert false;
    }
  }
}
