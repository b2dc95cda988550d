/** The TEX container unwrapper and DDS header patcher of src/main.cpp,
    lifted out of the demo function `test1` as one transform of a byte
    buffer, modelled as the code is written.

    A TEX file is a 12-byte (version 1) or 13-byte (version 2) frame in
    front of a legacy DDS file whose magic reads "DDSR". The transform
    drops the frame, turns the magic into "DDS ", repairs the channel
    masks and the alpha flag of the pixel format, and ORs a byte into the
    surface capabilities. Any other buffer is returned as it is.

    The vector operations are modelled as what they are: `erase` removes
    a range and `insert` splices bytes in, so a mask write that erases
    three bytes and inserts four makes the buffer one byte longer. */
module TexContainer {
  import opened Bytes
  import opened Wrappers
  import opened DdsHeader

  /** `byteSwap`: reverses the byte order of a 32-bit word. */
  function ByteSwap(x: bv32): (r: bv32)
    ensures ByteOf(r, 0) == ByteOf(x, 3) && ByteOf(r, 1) == ByteOf(x, 2)
    ensures ByteOf(r, 2) == ByteOf(x, 1) && ByteOf(r, 3) == ByteOf(x, 0)
  {
    ((x & 0xff00_0000) >> 24) | ((x & 0x00ff_0000) >> 8) | ((x & 0x0000_ff00) << 8) | ((x & 0xff) << 24)
  }

  /** Swapping twice gives the word back. */
  lemma ByteSwapInvolutive(x: bv32)
    ensures ByteSwap(ByteSwap(x)) == x
  {
    WordsEqualByBytes(ByteSwap(ByteSwap(x)), x);
  }

  // ---------------------------------------------------------------------------
  // Classifying the container

  /** The two container signatures, read big-endian: "TEX\x01" and "TEX\x02". */
  const TexV1Magic: bv32 := 0x5445_5801
  const TexV2Magic: bv32 := 0x5445_5802
  const TexV1Signature: seq<bv8> := [0x54, 0x45, 0x58, 0x01]
  const TexV2Signature: seq<bv8> := [0x54, 0x45, 0x58, 0x02]

  datatype TexVersion = V1 | V2 {
    /** The length of the container frame in front of the DDS data. */
    function HeaderSize(): nat {
      match this
      case V1 => 12
      case V2 => 13
    }

    /** Where the frame's texture-length word starts; the code only prints it. */
    function TextureLengthOffset(): nat {
      match this
      case V1 => 8
      case V2 => 9
    }
  }

  /** The leading word of the buffer, loaded little-endian and byte
      swapped. Byte `k` of it is the buffer's byte `3 - k`: the word reads
      the first four bytes most significant first. */
  function ContainerMagic(buf: seq<bv8>): (m: bv32)
    requires |buf| >= 4
    ensures ByteOf(m, 0) == buf[3] && ByteOf(m, 1) == buf[2]
    ensures ByteOf(m, 2) == buf[1] && ByteOf(m, 3) == buf[0]
  {
    LeWordBytes(buf, 0);
    ByteSwap(LeWord(buf, 0))
  }

  /** The first four bytes equal a four-byte signature exactly when they
      agree with it byte by byte. */
  lemma PrefixIsSignature(buf: seq<bv8>, sig: seq<bv8>)
    requires |buf| >= 4 && |sig| == 4
    ensures buf[..4] == sig <==>
      buf[0] == sig[0] && buf[1] == sig[1] && buf[2] == sig[2] && buf[3] == sig[3]
  {
    if buf[0] == sig[0] && buf[1] == sig[1] && buf[2] == sig[2] && buf[3] == sig[3] {
      assert forall i | 0 <= i < 4 :: buf[..4][i] == sig[i];
    }
  }

  /** Which container the buffer is, if any: the test at the head of the
      block and the version branches that follow it. */
  function Sniff(buf: seq<bv8>): (v: Option<TexVersion>)
    requires |buf| >= 4
    ensures v == Some(V1) <==> buf[..4] == TexV1Signature
    ensures v == Some(V2) <==> buf[..4] == TexV2Signature
  {
    var containerMagic := ContainerMagic(buf);
    WordsEqualByBytes(containerMagic, TexV1Magic);
    WordsEqualByBytes(containerMagic, TexV2Magic);
    PrefixIsSignature(buf, TexV1Signature);
    PrefixIsSignature(buf, TexV2Signature);
    if containerMagic == TexV2Magic || containerMagic == TexV1Magic then
      if containerMagic & 0xff == 0x01 then Some(V1)
      else if containerMagic & 0xff == 0x02 then Some(V2)
      else assert false; None
    else None
  }

  // ---------------------------------------------------------------------------
  // Vector operations

  /** `erase(begin + first, begin + last)`: removes the bytes in [first, last)
      and closes the gap. */
  function Erase(s: seq<bv8>, first: nat, last: nat): (r: seq<bv8>)
    requires first <= last <= |s|
    ensures |r| == |s| - (last - first)
    ensures r[..first] == s[..first] && r[first..] == s[last..]
  {
    s[..first] + s[last..]
  }

  /** `insert(begin + at, xs)`: puts `xs` in front of the byte at `at`. */
  function Insert(s: seq<bv8>, at: nat, xs: seq<bv8>): (r: seq<bv8>)
    requires at <= |s|
    ensures |r| == |s| + |xs|
    ensures r[..at] == s[..at] && r[at..at + |xs|] == xs && r[at + |xs|..] == s[at..]
  {
    s[..at] + xs + s[at..]
  }

  /** A mask write as the code does it: erase three bytes at `at`, then
      insert four there. The bytes before `at` keep their place, the four
      new bytes follow, and every later byte moves up by one. */
  function WriteMaskAsWritten(s: seq<bv8>, at: nat, mask: seq<bv8>): (r: seq<bv8>)
    requires |mask| == 4 && at + 3 <= |s|
    ensures |r| == |s| + 1
    ensures r[..at] == s[..at]
    ensures r[at..at + 4] == mask
    ensures r[at + 4..] == s[at + 3..]
  {
    var e := Erase(s, at, at + 3);
    assert e[..at] == s[..at] && e[at..] == s[at + 3..];
    Insert(e, at, mask)
  }

  // ---------------------------------------------------------------------------
  // Unwrapping

  /** Drops the container frame and overwrites byte 3 with a space, which
      turns "DDSR" into "DDS ". */
  function Unwrap(buf: seq<bv8>, v: TexVersion): (u: seq<bv8>)
    requires |buf| >= v.HeaderSize() + 4
    ensures |u| == |buf| - v.HeaderSize()
    ensures u[..3] == buf[v.HeaderSize()..v.HeaderSize() + 3]
    ensures u[3] == 0x20
    ensures u[4..] == buf[v.HeaderSize() + 4..]
  {
    var u := Erase(buf, 0, v.HeaderSize());
    assert u == buf[v.HeaderSize()..];
    u[3 := 0x20]
  }

  const DdsrMagic: seq<bv8> := [0x44, 0x44, 0x53, 0x52]
  const DdsMagic: seq<bv8> := [0x44, 0x44, 0x53, 0x20]

  /** A legacy "DDSR" magic behind the frame comes out as "DDS ". */
  lemma UnwrapMakesDdsMagic(buf: seq<bv8>, v: TexVersion)
    requires |buf| >= v.HeaderSize() + 4
    requires buf[v.HeaderSize()..v.HeaderSize() + 3] == DdsrMagic[..3]
    ensures Unwrap(buf, v)[..4] == DdsMagic
  {
    var u := Unwrap(buf, v);
    assert u[..3] == DdsMagic[..3];
    assert u[..4] == u[..3] + [u[3]];
  }

  // ---------------------------------------------------------------------------
  // Repairing the pixel format

  /** The channel-mask rule: the flags word is exactly `DDPF_RGB`, a colour
      mask is missing, and the signed bit count is at least 24. */
  predicate RgbRuleFires(pf: PixelFormat): (fires: bool)
    ensures fires <==>
      pf.flags == DdpfRgb && (pf.rMask == 0 || pf.gMask == 0 || pf.bMask == 0) &&
      Int32(pf.rgbBitCount) >= 24
  {
    SignedTestsAreInt32(pf.rgbBitCount);
    pf.flags == DdpfRgb && (pf.rMask == 0 || pf.gMask == 0 || pf.bMask == 0) &&
    SignedAtLeast(pf.rgbBitCount, 24)
  }

  /** The alpha rule: a 32-bit format whose alpha mask, as read before any
      patch, is zero or whose current flags byte lacks the alpha bit. (The
      signed and the unsigned bit count equal 32 together.) */
  predicate AlphaRuleFires(pf: PixelFormat, flagsByte: bv8): (fires: bool)
    ensures fires <==>
      Int32(pf.rgbBitCount) == 32 && (pf.aMask == 0 || flagsByte & DdsAlphaPixels == 0)
  {
    SignedTestsAreInt32(pf.rgbBitCount);
    pf.rgbBitCount == 32 && (pf.aMask == 0 || flagsByte & 1 == 0)
  }

  /** The three mask writes of the channel-mask rule. */
  function ApplyRgbRule(u: seq<bv8>): (r: seq<bv8>)
    requires |u| >= PixelFormatEnd
    ensures |r| == |u| + 3
  {
    var s1 := WriteMaskAsWritten(u, RedMaskOffset, RedMaskBytes);
    var s2 := WriteMaskAsWritten(s1, GreenMaskOffset, GreenMaskBytes);
    WriteMaskAsWritten(s2, BlueMaskOffset, BlueMaskBytes)
  }

  /** The channel-mask rule keeps the first 92 bytes, puts the canonical
      red, green and blue masks at 92 to 103, and moves every byte from
      offset 101 on up by three. */
  lemma ApplyRgbRuleLayout(u: seq<bv8>)
    requires |u| >= PixelFormatEnd
    ensures var r := ApplyRgbRule(u);
      && r[..92] == u[..92]
      && r[92..104] == RedMaskBytes + GreenMaskBytes + BlueMaskBytes
      && r[104..] == u[101..]
  {
    var s1 := WriteMaskAsWritten(u, RedMaskOffset, RedMaskBytes);
    var s2 := WriteMaskAsWritten(s1, GreenMaskOffset, GreenMaskBytes);
    var r := WriteMaskAsWritten(s2, BlueMaskOffset, BlueMaskBytes);
    assert r[..92] == u[..92] by {
      assert r[..92] == s2[..92] == s1[..92];
    }
    assert r[92..104] == RedMaskBytes + GreenMaskBytes + BlueMaskBytes by {
      assert r[92..96] == s2[92..96] == s1[92..96];
      assert r[96..100] == s2[96..100];
      assert r[92..104] == r[92..96] + r[96..100] + r[100..104];
    }
    assert r[104..] == u[101..] by {
      assert s1[96..] == u[95..];
      assert s2[100..] == s1[99..] == u[98..];
    }
  }

  /** The alpha rule's writes: set the alpha bit in the flags byte, then
      write the alpha mask with erase and insert. */
  function ApplyAlphaRule(s: seq<bv8>): (r: seq<bv8>)
    requires |s| >= 107
    ensures |r| == |s| + 1
  {
    var t := s[PixelFormatFlagsOffset := s[PixelFormatFlagsOffset] | DdsAlphaPixels];
    WriteMaskAsWritten(t, AlphaMaskOffset, AlphaMaskBytes)
  }

  /** The alpha rule sets the alpha bit of the flags byte, puts the alpha
      mask at 104 to 107 and moves every byte from offset 107 on up by one. */
  lemma ApplyAlphaRuleLayout(s: seq<bv8>)
    requires |s| >= 107
    ensures var r := ApplyAlphaRule(s);
      && r[..80] == s[..80] && r[81..104] == s[81..104]
      && r[80] == s[80] | DdsAlphaPixels && r[80] & 1 == 1
      && r[104..108] == AlphaMaskBytes
      && r[108..] == s[107..]
  {
    var r := ApplyAlphaRule(s);
    assert r[..80] == s[..80] by {
      assert r[..80] == r[..104][..80];
    }
    assert r[81..104] == s[81..104] by {
      assert r[81..104] == r[..104][81..];
    }
  }

  /** How many bytes the splices of the rules that fire add. */
  function Growth(rgb: bool, alpha: bool): nat {
    (if rgb then 3 else 0) + (if alpha then 1 else 0)
  }

  /** The writes of the two rules, given which of them fire. */
  function ApplyRules(u: seq<bv8>, rgb: bool, alpha: bool): (r: seq<bv8>)
    requires |u| >= PixelFormatEnd
    ensures |r| == |u| + Growth(rgb, alpha)
  {
    var s1 := if rgb then ApplyRgbRule(u) else u;
    if alpha then ApplyAlphaRule(s1) else s1
  }

  /** Where every byte of a patched buffer comes from: what each rule
      writes, by how much the buffer grows and how far the bytes behind
      each write move. */
  lemma ApplyRulesLayout(u: seq<bv8>, rgb: bool, alpha: bool)
    requires |u| >= PixelFormatEnd
    ensures
      var r := ApplyRules(u, rgb, alpha);
      && |r| == |u| + Growth(rgb, alpha)
      && r[..80] == u[..80] && r[81..92] == u[81..92]
      && r[80] == (if alpha then u[80] | DdsAlphaPixels else u[80])
      && r[92..104] == (if rgb then RedMaskBytes + GreenMaskBytes + BlueMaskBytes else u[92..104])
      && (alpha ==> r[104..108] == AlphaMaskBytes)
      && (rgb && alpha ==> r[108..] == u[104..])
      && (rgb && !alpha ==> r[104..] == u[101..])
      && (!rgb && alpha ==> r[108..] == u[107..])
      && (!rgb && !alpha ==> r == u)
  {
    var s1 := if rgb then ApplyRgbRule(u) else u;
    if rgb {
      ApplyRgbRuleLayout(u);
    }
    assert s1[..92] == u[..92];
    assert s1[..80] == u[..80] by { assert s1[..80] == s1[..92][..80]; }
    assert s1[81..92] == u[81..92] by { assert s1[81..92] == s1[..92][81..]; }
    assert s1[80] == u[80] by { assert s1[80] == s1[..92][80]; }
    if alpha {
      var r := ApplyAlphaRule(s1);
      ApplyAlphaRuleLayout(s1);
      assert r[81..92] == r[81..104][..11];
      assert r[92..104] == r[81..104][11..];
      assert s1[92..104] == s1[81..104][11..];
      if rgb {
        assert s1[107..] == s1[104..][3..];
      }
    }
  }

  /** Both repair rules, in the code's order. Their decisions use the
      fields read before either rule writes, except the alpha rule's
      flags byte, which the code reads from the buffer as it stands. */
  function Repair(u: seq<bv8>): (r: seq<bv8>)
    requires |u| >= PixelFormatEnd
    ensures |u| < |r| <= |u| + 4 || r == u
  {
    var pf := ReadPixelFormat(u);
    var s1 := if RgbRuleFires(pf) then ApplyRgbRule(u) else u;
    if AlphaRuleFires(pf, s1[PixelFormatFlagsOffset]) then ApplyAlphaRule(s1) else s1
  }

  /** The rules that fire on the unwrapped buffer are the ones the repair
      applies; the channel-mask rule leaves the flags byte alone, so the
      alpha rule's live read sees the byte of the unwrapped buffer. */
  lemma RepairApplies(u: seq<bv8>)
    requires |u| >= PixelFormatEnd
    ensures
      var pf := ReadPixelFormat(u);
      Repair(u) == ApplyRules(u, RgbRuleFires(pf), AlphaRuleFires(pf, u[80]))
  {
    var pf := ReadPixelFormat(u);
    if RgbRuleFires(pf) {
      var s1 := ApplyRgbRule(u);
      ApplyRgbRuleLayout(u);
      assert s1[80] == s1[..92][80];
    }
  }

  /** A flags word equal to `DDPF_RGB` has 0x40 as its low byte, so its
      alpha bit is clear. */
  lemma RgbFlagsByte(s: seq<bv8>)
    requires |s| >= PixelFormatEnd
    ensures LeWord(s, PixelFormatFlagsOffset) == DdpfRgb ==> s[80] == 0x40 && s[80] & 1 == 0
  {
    LeWordBytes(s, PixelFormatFlagsOffset);
    assert ByteOf(DdpfRgb, 0) == 0x40;
  }

  /** The bytes the rule decisions look at after the rules' writes: the
      bit count is kept, the channel-mask rule leaves a 0xFF byte in each
      colour mask, and the alpha rule sets the alpha bit and leaves a
      0xFF byte in the alpha mask. */
  lemma ApplyRulesDecisionBytes(u: seq<bv8>, rgb: bool, alpha: bool)
    requires |u| >= PixelFormatEnd
    ensures
      var r := ApplyRules(u, rgb, alpha);
      && |r| >= PixelFormatEnd
      && r[88] == u[88] && r[89] == u[89] && r[90] == u[90] && r[91] == u[91]
      && (rgb ==> r[94] == 0xFF && r[97] == 0xFF && r[100] == 0xFF)
      && (alpha ==> r[107] == 0xFF && r[80] & 1 == 1)
      && (!alpha ==> r[80] == u[80])
      && (!rgb && !alpha ==> r == u)
  {
    ApplyRulesLayout(u, rgb, alpha);
    var r := ApplyRules(u, rgb, alpha);
    assert r[81..92][7..11] == u[81..92][7..11];
    if rgb {
      assert r[92..104][2] == 0xFF && r[92..104][5] == 0xFF && r[92..104][8] == 0xFF;
    }
    if alpha {
      assert r[104..108][3] == 0xFF;
    }
  }

  /** The bytes that keep a rule from firing: a set alpha bit rules out
      `DDPF_RGB`, a 0xFF byte in each colour mask rules out a missing
      mask, and a 0xFF byte in the alpha mask with the alpha bit set
      rules out the alpha rule. */
  lemma RuleBlockers(s: seq<bv8>)
    requires |s| >= PixelFormatEnd
    ensures var pf := ReadPixelFormat(s);
      && (RgbRuleFires(pf) ==> s[80] & 1 == 0)
      && (s[94] == 0xFF && s[97] == 0xFF && s[100] == 0xFF ==> !RgbRuleFires(pf))
      && (s[107] == 0xFF && s[80] & 1 == 1 ==> !AlphaRuleFires(pf, s[80]))
  {
    RgbFlagsByte(s);
    LeWordBytes(s, RedMaskOffset);
    LeWordBytes(s, GreenMaskOffset);
    LeWordBytes(s, BlueMaskOffset);
    LeWordBytes(s, AlphaMaskOffset);
  }

  /** A repaired buffer triggers neither rule: the channel-mask rule
      leaves non-zero masks, the alpha rule leaves the alpha bit set and a
      non-zero alpha mask, and a bit count of 32 makes the channel-mask
      rule bring the alpha rule with it. */
  lemma RepairLeavesNoRuleToFire(u: seq<bv8>)
    requires |u| >= PixelFormatEnd
    ensures
      var r := Repair(u);
      var pr := ReadPixelFormat(r);
      |r| >= PixelFormatEnd && !RgbRuleFires(pr) && !AlphaRuleFires(pr, r[80])
  {
    var pf := ReadPixelFormat(u);
    RepairApplies(u);
    ApplyRulesDecisionBytes(u, RgbRuleFires(pf), AlphaRuleFires(pf, u[80]));
    var r := Repair(u);
    assert ReadPixelFormat(r).rgbBitCount == pf.rgbBitCount;
    RuleBlockers(u);
    RuleBlockers(r);
  }

  /** Repairing a repaired buffer changes nothing. */
  lemma RepairIdempotent(u: seq<bv8>)
    requires |u| >= PixelFormatEnd
    ensures |Repair(u)| >= PixelFormatEnd && Repair(Repair(u)) == Repair(u)
  {
    RepairLeavesNoRuleToFire(u);
  }

  /** The repair changes the buffer exactly when one of the rules fires:
      each rule makes the buffer longer. */
  lemma RepairChangesIffRuleFires(u: seq<bv8>)
    requires |u| >= PixelFormatEnd
    ensures
      var pf := ReadPixelFormat(u);
      Repair(u) == u <==> !RgbRuleFires(pf) && !AlphaRuleFires(pf, u[80])
  {
    var pf := ReadPixelFormat(u);
    RepairApplies(u);
    ApplyRulesLayout(u, RgbRuleFires(pf), AlphaRuleFires(pf, u[80]));
  }

  /** The rules' writes move everything from offset 108 on up by as many
      bytes as they add. */
  lemma ApplyRulesShiftTail(u: seq<bv8>, rgb: bool, alpha: bool)
    requires |u| >= PixelFormatEnd
    ensures |ApplyRules(u, rgb, alpha)| >= |u|
    ensures
      var r := ApplyRules(u, rgb, alpha);
      r[CapsOffset + (|r| - |u|)..] == u[CapsOffset..]
  {
    ApplyRulesLayout(u, rgb, alpha);
    var r := ApplyRules(u, rgb, alpha);
    if rgb && alpha {
      assert r[112..] == r[108..][4..];
    } else if rgb {
      assert r[111..] == r[104..][7..];
    } else if alpha {
      assert r[109..] == r[108..][1..];
    }
  }

  /** Everything from the `dwCaps` field on — the rest of the header and
      all of the pixel data — comes out moved up by as many bytes as the
      repair added. */
  lemma RepairShiftsTail(u: seq<bv8>)
    requires |u| >= PixelFormatEnd
    ensures |Repair(u)| >= |u|
    ensures Repair(u)[CapsOffset + (|Repair(u)| - |u|)..] == u[CapsOffset..]
  {
    var pf := ReadPixelFormat(u);
    RepairApplies(u);
    ApplyRulesShiftTail(u, RgbRuleFires(pf), AlphaRuleFires(pf, u[80]));
  }

  /** A 24-bit `DDPF_RGB` header with zero masks, followed by one pixel
      byte 0xAB: the channel-mask rule makes the buffer three bytes longer,
      so offset 128, where a DDS reader starts the pixel data, now holds a
      byte of the header and the pixel byte sits at 131. */
  lemma RgbRuleMovesFirstPixel()
    ensures
      var u := seq(129, i requires 0 <= i < 129 =>
        if i == 80 then 0x40 else if i == 88 then 0x18 else if i == 128 then 0xAB else 0 as bv8);
      var r := Repair(u);
      |r| == 132 && r[128] == 0 && r[131] == 0xAB
  {
    var u := seq(129, i requires 0 <= i < 129 =>
      if i == 80 then 0x40 else if i == 88 then 0x18 else if i == 128 then 0xAB else 0 as bv8);
    assert u[80] == 0x40 && u[81] == 0 && u[82] == 0 && u[83] == 0;
    assert u[88] == 0x18 && u[89] == 0 && u[90] == 0 && u[91] == 0;
    assert u[92] == 0 && u[93] == 0 && u[94] == 0 && u[95] == 0;
    assert u[125] == 0 && u[128] == 0xAB;
    var pf := ReadPixelFormat(u);
    assert pf.flags == Word4(0x40, 0, 0, 0) == DdpfRgb;
    assert pf.rgbBitCount == Word4(0x18, 0, 0, 0) == 24;
    assert pf.rMask == Word4(0, 0, 0, 0) == 0;
    assert RgbRuleFires(pf) && !AlphaRuleFires(pf, u[80]);
    RepairApplies(u);
    ApplyRulesLayout(u, true, false);
    var r := Repair(u);
    assert r[128] == r[104..][24] && r[131] == r[104..][27];
  }

  // ---------------------------------------------------------------------------
  // Patching the surface capabilities

  /** The byte `x |= flag` stores into an `unsigned char`: the OR is done
      in `int` and the assignment keeps its low 8 bits. */
  function OrIntoByte(x: bv8, flag: bv32): bv8 {
    ((x as bv32 | flag) & 0xFF) as bv8
  }

  /** What of `flag` survives `x |= flag`: the stored byte is the old byte
      ORed with the flag's low byte, whatever the old byte. */
  function LowByte(flag: bv32): (b: bv8)
    ensures forall x: bv8 :: OrIntoByte(x, flag) == x | b
  {
    (flag & 0xFF) as bv8
  }

  /** ORs the texture-capability constant, truncated to a byte, into
      byte 109. The constant comes from a header outside this model and
      is a parameter. */
  function PatchCaps(s: seq<bv8>, textureCaps: bv32): (r: seq<bv8>)
    requires |s| > CapsByteOffset
    ensures |r| == |s|
    ensures r[CapsByteOffset] == s[CapsByteOffset] | LowByte(textureCaps)
    ensures r[..CapsByteOffset] == s[..CapsByteOffset] && r[CapsByteOffset + 1..] == s[CapsByteOffset + 1..]
  {
    s[CapsByteOffset := OrIntoByte(s[CapsByteOffset], textureCaps)]
  }

  /** Patching the caps byte a second time changes nothing. */
  lemma PatchCapsIdempotent(s: seq<bv8>, textureCaps: bv32)
    requires |s| > CapsByteOffset
    ensures PatchCaps(PatchCaps(s, textureCaps), textureCaps) == PatchCaps(s, textureCaps)
  {
  }

  /** The conventional `DDS_SURFACE_FLAGS_TEXTURE` (`DDSCAPS_TEXTURE`). */
  const DdsSurfaceFlagsTexture: bv32 := 0x0000_1000

  /** With the conventional constant the truncated OR is zero, so the caps
      patch leaves every buffer as it was. */
  lemma PatchCapsTextureIsNoOp(s: seq<bv8>)
    requires |s| > CapsByteOffset
    ensures PatchCaps(s, DdsSurfaceFlagsTexture) == s
  {
    assert LowByte(DdsSurfaceFlagsTexture) == 0;
    assert s[CapsByteOffset] | 0 == s[CapsByteOffset];
  }

  // ---------------------------------------------------------------------------
  // The whole transform

  /** What the block needs of a buffer it has recognised as version `v`:
      the pixel-format fields behind the frame, and a caps byte once the
      rules that fire on them have spliced their masks in. */
  predicate Patchable(buf: seq<bv8>, v: TexVersion) {
    |buf| >= v.HeaderSize() + PixelFormatEnd &&
    var w := buf[v.HeaderSize()..];
    var pf := ReadPixelFormat(w);
    |w| + Growth(RgbRuleFires(pf), AlphaRuleFires(pf, w[80])) > CapsByteOffset
  }

  /** The block's writes on a buffer it has recognised as version `v`:
      drop the frame, fix the magic, repair the pixel format and patch
      the caps byte. */
  function UnwrapAndPatch(buf: seq<bv8>, v: TexVersion, textureCaps: bv32): (out: seq<bv8>)
    requires Patchable(buf, v)
    ensures
      var w := buf[v.HeaderSize()..];
      var pf := ReadPixelFormat(w);
      |out| == |w| + Growth(RgbRuleFires(pf), AlphaRuleFires(pf, w[80]))
  {
    var u := Unwrap(buf, v);
    UnwrapKeepsPixelFormat(buf, v);
    RepairApplies(u);
    assert u[80] == buf[v.HeaderSize()..][80] by { assert u[80] == u[4..][76]; }
    PatchCaps(Repair(u), textureCaps)
  }

  /** The rules' writes followed by the caps patch: where each byte of the
      result comes from. With `d` the growth, bytes 108 and 109 (the first
      two bytes of `dwCaps` as the reader sees it) are the bytes from
      `108 - d`, the second one with the flag ORed in, and bytes from
      offset 110 on are the bytes from `110 - d` on. With the channel-mask
      rule alone, the alpha-mask field holds bytes 101 to 104 of the input:
      the tail of the blue mask and the first byte of the old alpha mask. */
  lemma PatchedRulesLayout(u: seq<bv8>, rgb: bool, alpha: bool, textureCaps: bv32)
    requires |u| >= PixelFormatEnd && |u| + Growth(rgb, alpha) > CapsByteOffset
    ensures
      var d := Growth(rgb, alpha);
      var out := PatchCaps(ApplyRules(u, rgb, alpha), textureCaps);
      && |out| == |u| + d
      && out[..80] == u[..80]
      && out[80] == (if alpha then u[80] | DdsAlphaPixels else u[80])
      && out[81..92] == u[81..92]
      && out[92..104] == (if rgb then RedMaskBytes + GreenMaskBytes + BlueMaskBytes else u[92..104])
      && (alpha ==> out[104..108] == AlphaMaskBytes)
      && (rgb && !alpha ==> out[104..108] == u[101..105])
      && (!rgb && !alpha ==> out[76..108] == u[76..108])
      && out[108] == u[108 - d]
      && out[109] == u[109 - d] | LowByte(textureCaps)
      && out[110..] == u[110 - d..]
  {
    ApplyRulesLayout(u, rgb, alpha);
    var r := ApplyRules(u, rgb, alpha);
    var d := Growth(rgb, alpha);
    var out := PatchCaps(r, textureCaps);
    assert out[..108] == r[..108] by {
      assert out[..108] == out[..CapsByteOffset][..108];
    }
    assert out[..80] == r[..108][..80];
    assert out[80] == r[..108][80];
    assert out[81..92] == r[..108][81..92];
    assert out[92..104] == r[..108][92..104];
    assert out[104..108] == r[..108][104..];
    assert out[76..108] == r[..108][76..];
    assert out[108] == out[..CapsByteOffset][108] == r[..CapsByteOffset][108];
    assert out[110..] == r[110..];
    if rgb && alpha {
      assert r[108] == r[108..][0] && r[109] == r[108..][1];
      assert r[110..] == r[108..][2..] && u[106..] == u[104..][2..];
    } else if rgb {
      assert r[104..108] == r[104..][..4] && u[101..105] == u[101..][..4];
      assert r[108] == r[104..][4] && r[109] == r[104..][5];
      assert r[110..] == r[104..][6..] && u[107..] == u[101..][6..];
    } else if alpha {
      assert r[108] == r[108..][0] && r[109] == r[108..][1];
      assert r[110..] == r[108..][2..] && u[109..] == u[107..][2..];
    }
  }

  /** The bytes behind the frame and the bytes of the unwrapped buffer
      agree from offset 4 on, so both read the same pixel format. */
  lemma UnwrapKeepsPixelFormat(buf: seq<bv8>, v: TexVersion)
    requires |buf| >= v.HeaderSize() + PixelFormatEnd
    ensures |buf[v.HeaderSize()..]| >= PixelFormatEnd
    ensures ReadPixelFormat(Unwrap(buf, v)) == ReadPixelFormat(buf[v.HeaderSize()..])
  {
    var u := Unwrap(buf, v);
    var hs := v.HeaderSize();
    assert buf[hs..][76..108] == u[76..108] by {
      assert u[76..108] == u[4..][72..104];
    }
    ReadPixelFormatLocal(buf[hs..], u);
  }

  /** The unwrapped buffer is the bytes behind the frame with byte 3
      replaced by a space. */
  lemma UnwrapIsUpdate(buf: seq<bv8>, v: TexVersion)
    requires |buf| >= v.HeaderSize() + 4
    ensures Unwrap(buf, v) == buf[v.HeaderSize()..][3 := 0x20]
  {
    var u := Unwrap(buf, v);
    var w := buf[v.HeaderSize()..][3 := 0x20];
    assert u[..3] == w[..3];
    assert u[4..] == w[4..];
    assert u == u[..3] + [u[3]] + u[4..];
    assert w == w[..3] + [w[3]] + w[4..];
  }

  /** What a recognised buffer becomes, in terms of the bytes `w` behind
      the frame: bytes 0 to 2 are those of `w` and byte 3 is a space, the
      header up to the masks stays in place (the alpha rule setting bit 0
      of byte 80), the rules write their masks, and every byte from offset
      110 on comes from `w` moved up by the growth. */
  lemma UnwrapAndPatchLayout(buf: seq<bv8>, v: TexVersion, textureCaps: bv32)
    requires Patchable(buf, v)
    ensures
      var w := buf[v.HeaderSize()..];
      var pf := ReadPixelFormat(w);
      PatchedFrom(UnwrapAndPatch(buf, v, textureCaps), w, RgbRuleFires(pf), AlphaRuleFires(pf, w[80]), textureCaps)
  {
    var w := buf[v.HeaderSize()..];
    var pf := ReadPixelFormat(w);
    var rgb, alpha := RgbRuleFires(pf), AlphaRuleFires(pf, w[80]);
    UnwrapAndPatchApplies(buf, v, textureCaps);
    var out := UnwrapAndPatch(buf, v, textureCaps);
    assert out == PatchCaps(ApplyRules(w[3 := 0x20], rgb, alpha), textureCaps);
    MagicFixedLayout(w, rgb, alpha, textureCaps);
  }

  /** The block's writes on a recognised buffer are the rules decided on
      the bytes behind the frame, applied after the magic fix. */
  lemma UnwrapAndPatchApplies(buf: seq<bv8>, v: TexVersion, textureCaps: bv32)
    requires Patchable(buf, v)
    ensures
      var w := buf[v.HeaderSize()..];
      var pf := ReadPixelFormat(w);
      && |Repair(Unwrap(buf, v))| == |w| + Growth(RgbRuleFires(pf), AlphaRuleFires(pf, w[80]))
      && UnwrapAndPatch(buf, v, textureCaps) ==
        PatchCaps(ApplyRules(w[3 := 0x20], RgbRuleFires(pf), AlphaRuleFires(pf, w[80])), textureCaps)
  {
    var u := Unwrap(buf, v);
    UnwrapIsUpdate(buf, v);
    UnwrapKeepsPixelFormat(buf, v);
    RepairApplies(u);
  }

  /** Where every byte of `out` comes from when it is the bytes `w` behind
      a frame after the magic fix, the writes of the rules `rgb` and
      `alpha` and the caps patch, `d` being the growth: bytes 0 to 2 are
      those of `w` and byte 3 is a space; the header up to the masks stays
      in place, the alpha rule setting bit 0 of byte 80; each rule that
      fires writes its masks; with the channel-mask rule alone the
      alpha-mask field holds bytes 101 to 104 of `w`; with neither rule
      the pixel format is that of `w`; bytes 108 and 109 are the bytes of
      `w` at `108 - d` and `109 - d`, the second with the flag ORed in; and
      every byte from offset 110 on comes from `w` moved up by `d`. */
  predicate PatchedFrom(out: seq<bv8>, w: seq<bv8>, rgb: bool, alpha: bool, textureCaps: bv32) {
    var d := Growth(rgb, alpha);
    && |w| >= PixelFormatEnd && |w| + d > CapsByteOffset
      && |out| == |w| + d
      && out[..3] == w[..3] && out[3] == 0x20
      && out[4..80] == w[4..80]
      && out[80] == (if alpha then w[80] | DdsAlphaPixels else w[80])
      && out[81..92] == w[81..92]
      && out[92..104] == (if rgb then RedMaskBytes + GreenMaskBytes + BlueMaskBytes else w[92..104])
      && (alpha ==> out[104..108] == AlphaMaskBytes)
      && (rgb && !alpha ==> out[104..108] == w[101..105])
      && (!rgb && !alpha ==> out[76..108] == w[76..108])
      && out[108] == w[108 - d]
      && out[109] == w[109 - d] | LowByte(textureCaps)
      && out[110..] == w[110 - d..]
  }

  /** The rules and the caps patch after the magic fix, relative to the
      bytes `w` before the fix. */
  lemma MagicFixedLayout(w: seq<bv8>, rgb: bool, alpha: bool, textureCaps: bv32)
    requires |w| >= PixelFormatEnd && |w| + Growth(rgb, alpha) > CapsByteOffset
    ensures PatchedFrom(PatchCaps(ApplyRules(w[3 := 0x20], rgb, alpha), textureCaps), w, rgb, alpha, textureCaps)
  {
    var u := w[3 := 0x20];
    PatchedRulesLayout(u, rgb, alpha, textureCaps);
    var out := PatchCaps(ApplyRules(u, rgb, alpha), textureCaps);
    assert out[..3] == out[..80][..3] && u[..3] == u[..80][..3];
    assert out[3] == out[..80][3];
    assert out[4..80] == out[..80][4..] && u[4..80] == u[..80][4..];
    assert u[..3] == w[..3];
    assert u[4..80] == w[4..80];
    assert u[81..92] == w[81..92];
    assert u[92..104] == w[92..104];
    assert u[76..108] == w[76..108];
    assert u[101..105] == w[101..105];
    assert u[106..] == w[106..];
  }

  /** On a recognised buffer the channel-mask rule leaves the A8R8G8B8
      colour masks and the alpha rule the alpha mask 0xFF000000 and the
      alpha bit; with neither rule the pixel format is as it was. */
  lemma UnwrapAndPatchMasks(buf: seq<bv8>, v: TexVersion, textureCaps: bv32)
    requires Patchable(buf, v)
    ensures
      var w := buf[v.HeaderSize()..];
      var pf := ReadPixelFormat(w);
      var out := UnwrapAndPatch(buf, v, textureCaps);
      && |out| >= PixelFormatEnd
      && (RgbRuleFires(pf) ==>
            LeWord(out, RedMaskOffset) == 0x00FF_0000 && LeWord(out, GreenMaskOffset) == 0x0000_FF00 &&
            LeWord(out, BlueMaskOffset) == 0x0000_00FF)
      && (AlphaRuleFires(pf, w[80]) ==>
            LeWord(out, AlphaMaskOffset) == 0xFF00_0000 && out[80] & 1 == 1)
      && (!RgbRuleFires(pf) && !AlphaRuleFires(pf, w[80]) ==>
            ReadPixelFormat(out) == pf)
  {
    var w := buf[v.HeaderSize()..];
    var out := UnwrapAndPatch(buf, v, textureCaps);
    UnwrapAndPatchLayout(buf, v, textureCaps);
    MaskWordsRead(out);
    var pf := ReadPixelFormat(w);
    if !RgbRuleFires(pf) && !AlphaRuleFires(pf, w[80]) {
      ReadPixelFormatLocal(out, w);
    }
  }

  /** What the code needs of its input: four bytes for the leading word
      and, behind a recognised frame, the pixel-format fields the rules
      read and, once the rules have spliced, the caps byte. */
  predicate CanNormalize(buf: seq<bv8>) {
    |buf| >= 4 &&
    (Sniff(buf).Some? ==> Patchable(buf, Sniff(buf).value))
  }

  /** A version 1 frame followed by only 109 header bytes, with a bit
      count of 32 and a zero alpha mask: byte 109 lies past the end until
      the alpha rule's splice adds a byte, after which the block can patch
      it, and the result has 110 bytes. */
  lemma AlphaSpliceReachesCapsByte(textureCaps: bv32)
    ensures
      var buf := seq(121, i requires 0 <= i < 121 =>
        if i == 0 then 0x54 else if i == 1 then 0x45 else if i == 2 then 0x58
        else if i == 3 then 0x01 else if i == 100 then 0x20 else 0 as bv8);
      CanNormalize(buf) && |Normalized(buf, textureCaps)| == 110
  {
    var buf := seq(121, i requires 0 <= i < 121 =>
      if i == 0 then 0x54 else if i == 1 then 0x45 else if i == 2 then 0x58
      else if i == 3 then 0x01 else if i == 100 then 0x20 else 0 as bv8);
    assert buf[..4] == TexV1Signature;
    var w := buf[12..];
    assert w[80] == 0 && w[81] == 0 && w[82] == 0 && w[83] == 0;
    assert w[88] == 0x20 && w[89] == 0 && w[90] == 0 && w[91] == 0;
    assert w[104] == 0 && w[105] == 0 && w[106] == 0 && w[107] == 0;
    var pf := ReadPixelFormat(w);
    assert pf.flags == Word4(0, 0, 0, 0) == 0;
    assert pf.rgbBitCount == Word4(0x20, 0, 0, 0) == 32;
    assert pf.aMask == Word4(0, 0, 0, 0) == 0;
    assert !RgbRuleFires(pf) && AlphaRuleFires(pf, w[80]);
  }

  /** The buffer as the block leaves it: a recognised buffer unwrapped and
      patched, any other buffer as it was. */
  function Normalized(buf: seq<bv8>, textureCaps: bv32): (out: seq<bv8>)
    requires CanNormalize(buf)
    ensures Sniff(buf).None? ==> out == buf
  {
    match Sniff(buf)
    case None => buf
    case Some(v) => UnwrapAndPatch(buf, v, textureCaps)
  }

  /** The block of `test1`, step by step on a local buffer: the version
      branches, the frame erase, the magic fix, the repair rules and the
      caps patch. */
  method NormalizeTexBuffer(input: seq<bv8>, textureCaps: bv32) returns (buf: seq<bv8>)
    requires CanNormalize(input)
    ensures buf == Normalized(input, textureCaps)
  {
    buf := input;
    var containerMagic := ByteSwap(LeWord(buf, 0));
    assert containerMagic == ContainerMagic(input);
    if containerMagic == TexV2Magic || containerMagic == TexV1Magic {
      ghost var v := if containerMagic == TexV1Magic then V1 else V2;
      assert Sniff(input) == Some(v);
      if containerMagic & 0xff == 0x01 {
        buf := Erase(buf, 0, 12);
      } else if containerMagic & 0xff == 0x02 {
        buf := Erase(buf, 0, 13);
      } else {
        assert false;
      }
      buf := buf[3 := 0x20];
      assert buf == Unwrap(input, v);
      UnwrapAndPatchApplies(input, v, textureCaps);
      buf := RepairPixelFormat(buf);
      buf := PatchCaps(buf, textureCaps);
    }
  }

  /** The two repair rules of the block: each decision is taken on the
      fields read before any write, except the flags byte the alpha rule
      reads from the buffer as it stands. */
  method RepairPixelFormat(u: seq<bv8>) returns (buf: seq<bv8>)
    requires |u| >= PixelFormatEnd
    ensures buf == Repair(u)
    ensures |buf| >= |u|
  {
    buf := u;
    var pf := ReadPixelFormat(buf);
    if RgbRuleFires(pf) {
      buf := ApplyRgbRule(buf);
    }
    if AlphaRuleFires(pf, buf[PixelFormatFlagsOffset]) {
      buf := ApplyAlphaRule(buf);
    }
  }
}
