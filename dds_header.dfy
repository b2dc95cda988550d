/** The fixed byte layout of a DDS file's leading bytes: the 4-byte magic,
    then `DDS_HEADER`, whose `DDS_PIXELFORMAT` block starts at `dwSize`
    offset 76 of the file. Every offset below counts from the first byte
    of the magic. */
module DdsHeader {
  import opened Bytes

  const PixelFormatSizeOffset: nat := 76
  const PixelFormatFlagsOffset: nat := 80
  const FourCCOffset: nat := 84
  const RgbBitCountOffset: nat := 88
  const RedMaskOffset: nat := 92
  const GreenMaskOffset: nat := 96
  const BlueMaskOffset: nat := 100
  const AlphaMaskOffset: nat := 104
  const CapsOffset: nat := 108
  /** The second byte of `dwCaps`, which holds its bits 8 to 15. */
  const CapsByteOffset: nat := 109

  /** Bytes up to and including the alpha mask: all the fields the
      repair rules read. */
  const PixelFormatEnd: nat := 108

  /** `DDPF_RGB`: uncompressed RGB data is present. */
  const DdpfRgb: bv32 := 0x40
  /** `DDS_ALPHAPIXELS` (`DDPF_ALPHAPIXELS`): the alpha mask is meaningful. */
  const DdsAlphaPixels: bv8 := 0x01

  /** The little-endian bytes of the masks in the repaired pixel format. */
  const RedMaskBytes: seq<bv8> := [0x00, 0x00, 0xFF, 0x00]
  const GreenMaskBytes: seq<bv8> := [0x00, 0xFF, 0x00, 0x00]
  const BlueMaskBytes: seq<bv8> := [0xFF, 0x00, 0x00, 0x00]
  const AlphaMaskBytes: seq<bv8> := [0x00, 0x00, 0x00, 0xFF]

  /** The four mask constants are the A8R8G8B8 masks. */
  lemma MaskBytesValues()
    ensures LeWord(RedMaskBytes, 0) == 0x00FF_0000
    ensures LeWord(GreenMaskBytes, 0) == 0x0000_FF00
    ensures LeWord(BlueMaskBytes, 0) == 0x0000_00FF
    ensures LeWord(AlphaMaskBytes, 0) == 0xFF00_0000
  {
  }

  /** The `DDS_PIXELFORMAT` fields, each read as a 32-bit word. */
  datatype PixelFormat = PixelFormat(
    size: bv32, flags: bv32, fourCC: bv32, rgbBitCount: bv32,
    rMask: bv32, gMask: bv32, bMask: bv32, aMask: bv32)

  /** Reads the pixel-format block of a DDS buffer at its fixed offsets:
      each field is the little-endian word stored at its offset. */
  function ReadPixelFormat(s: seq<bv8>): (pf: PixelFormat)
    requires |s| >= PixelFormatEnd
    ensures StoredAt(pf.size, s, PixelFormatSizeOffset) && StoredAt(pf.flags, s, PixelFormatFlagsOffset)
    ensures StoredAt(pf.fourCC, s, FourCCOffset) && StoredAt(pf.rgbBitCount, s, RgbBitCountOffset)
    ensures StoredAt(pf.rMask, s, RedMaskOffset) && StoredAt(pf.gMask, s, GreenMaskOffset)
    ensures StoredAt(pf.bMask, s, BlueMaskOffset) && StoredAt(pf.aMask, s, AlphaMaskOffset)
  {
    LeWordBytes(s, PixelFormatSizeOffset);
    LeWordBytes(s, PixelFormatFlagsOffset);
    LeWordBytes(s, FourCCOffset);
    LeWordBytes(s, RgbBitCountOffset);
    LeWordBytes(s, RedMaskOffset);
    LeWordBytes(s, GreenMaskOffset);
    LeWordBytes(s, BlueMaskOffset);
    LeWordBytes(s, AlphaMaskOffset);
    PixelFormat(
      LeWord(s, PixelFormatSizeOffset), LeWord(s, PixelFormatFlagsOffset),
      LeWord(s, FourCCOffset), LeWord(s, RgbBitCountOffset),
      LeWord(s, RedMaskOffset), LeWord(s, GreenMaskOffset),
      LeWord(s, BlueMaskOffset), LeWord(s, AlphaMaskOffset))
  }

  /** The canonical mask bytes read back as the A8R8G8B8 masks. */
  lemma MaskWordsRead(s: seq<bv8>)
    requires |s| >= PixelFormatEnd
    ensures s[92..104] == RedMaskBytes + GreenMaskBytes + BlueMaskBytes ==>
      LeWord(s, RedMaskOffset) == 0x00FF_0000 && LeWord(s, GreenMaskOffset) == 0x0000_FF00 &&
      LeWord(s, BlueMaskOffset) == 0x0000_00FF
    ensures s[104..108] == AlphaMaskBytes ==> LeWord(s, AlphaMaskOffset) == 0xFF00_0000
  {
    if s[92..104] == RedMaskBytes + GreenMaskBytes + BlueMaskBytes {
      assert s[92] == 0 && s[93] == 0 && s[94] == 0xFF && s[95] == 0 by {
        assert s[92..104][0] == 0 && s[92..104][1] == 0 && s[92..104][2] == 0xFF && s[92..104][3] == 0;
      }
      assert s[96] == 0 && s[97] == 0xFF && s[98] == 0 && s[99] == 0 by {
        assert s[92..104][4] == 0 && s[92..104][5] == 0xFF && s[92..104][6] == 0 && s[92..104][7] == 0;
      }
      assert s[100] == 0xFF && s[101] == 0 && s[102] == 0 && s[103] == 0 by {
        assert s[92..104][8] == 0xFF && s[92..104][9] == 0 && s[92..104][10] == 0 && s[92..104][11] == 0;
      }
    }
    if s[104..108] == AlphaMaskBytes {
      assert s[104] == 0 && s[105] == 0 && s[106] == 0 && s[107] == 0xFF by {
        assert s[104..108][0] == 0 && s[104..108][1] == 0 && s[104..108][2] == 0 && s[104..108][3] == 0xFF;
      }
    }
  }

  /** The pixel format depends only on the bytes from offset 76 to 107. */
  lemma ReadPixelFormatLocal(s: seq<bv8>, t: seq<bv8>)
    requires |s| >= PixelFormatEnd && |t| >= PixelFormatEnd
    requires s[PixelFormatSizeOffset..PixelFormatEnd] == t[PixelFormatSizeOffset..PixelFormatEnd]
    ensures ReadPixelFormat(s) == ReadPixelFormat(t)
  {
    forall k | 76 <= k < 108 ensures s[k] == t[k] {
      assert s[k] == s[76..108][k - 76];
    }
    assert s[76..80] == t[76..80];
    assert s[80..84] == t[80..84];
    assert s[84..88] == t[84..88];
    assert s[88..92] == t[88..92];
    assert s[92..96] == t[92..96];
    assert s[96..100] == t[96..100];
    assert s[100..104] == t[100..104];
    assert s[104..108] == t[104..108];
  }
}
