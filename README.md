# dxtexwrapper: TEX unwrapping, DDS header repair, pixel shuffle

This project models the byte-level parts of dxtexwrapper, a small
DirectXTex wrapper that turns textures from a game's proprietary TEX
container into standard DDS and PNG files:

- **The TEX unwrapper and DDS header patcher** (the block inside `test1` in
  `src/main.cpp`), lifted out as one transform of a byte buffer. A TEX file
  is a 12-byte (version 1, "TEX\x01") or 13-byte (version 2, "TEX\x02")
  frame in front of a legacy DDS file whose magic reads "DDSR". The
  transform works in four steps:
  1. It recognises the frame from the byte-swapped first word and drops it.
  2. It turns the magic into "DDS ".
  3. It reads the `DDS_PIXELFORMAT` fields at their fixed offsets. It then
     applies two repair rules: canonical A8R8G8B8 colour masks when
     `dwFlags` is exactly `DDPF_RGB` (0x40), a colour mask is zero and the
     bit count is at least 24; and the alpha bit plus an alpha mask of
     0xFF000000 for 32-bit formats whose alpha mask is zero or whose
     `DDS_ALPHAPIXELS` bit is clear.
  4. It ORs the texture capability into byte 109.

  Any other buffer comes back unchanged. Module `Bytes` holds the byte and
  word view (little-endian loads, as on the x86 Windows host). `DdsHeader`
  holds the header layout. `TexContainer` holds the transform exactly as
  written, both as functions and as the step-by-step method
  `NormalizeTexBuffer`.
- **`TexCorrected`**: the same transform with the two defects listed
  under Findings corrected. The mask writes overwrite their four bytes
  instead of splicing, and the capability is ORed into the 32-bit
  `dwCaps` word.
- **`convertRGBAtoBGRA`** (`src/DxTexWrapper.cpp`), module `PixelShuffle`.
  It is a loop method that appends four bytes per pixel. It is proved
  against a pixel-by-pixel specification function, and that function is
  proved to be its own inverse.
- **`ImageData`** (`src/ImageData.h`), module `Images`. It is a class
  whose `width`, `height` and `pixels` fields its setters overwrite. Both
  `setPixels` overloads resize the vector and then copy into it.

The code defines no error results, and the model follows it:
- An unrecognised buffer is returned unchanged.
- The `throw` for an unknown version (src/main.cpp:80) is unreachable once
  the signature test has passed; the model has `assert false` in that
  branch.
- Nothing checks lengths. What the code reads and writes is a
  precondition (`CanNormalize`, `Patchable`): four bytes for the leading
  word; behind a recognised frame, the pixel-format fields up to offset
  107; and byte 109 once the rules have spliced their masks in.
- The channel-mask rule fires for any signed bit count of at least 24,
  and the alpha rule for a bit count of exactly 32.
- The mask writes splice rather than overwrite (see Findings).

## Model

| member | source | states |
|---|---|---|
| `TexContainer.ByteSwap` | src/main.cpp:26-28 | byte k of the result is byte 3-k of the argument |
| `TexContainer.ByteSwapInvolutive` | src/main.cpp:26-28 | swapping twice gives the word back |
| `TexContainer.ContainerMagic` | src/main.cpp:64 | the byte-swapped little-endian load of the first word reads bytes 0..3 most significant first |
| `TexContainer.Sniff` | src/main.cpp:64-81 | version 1 exactly when the first four bytes are "TEX\x01", version 2 exactly when they are "TEX\x02", nothing otherwise |
| `TexContainer.Erase` | src/main.cpp:73 | `vector::erase` removes [first, last): the prefix is kept and the rest closes the gap |
| `TexContainer.Insert` | src/main.cpp:112 | `vector::insert` puts the new bytes at the position and shifts the rest up |
| `TexContainer.WriteMaskAsWritten` | src/main.cpp:111-112 | erase 3 + insert 4: one byte longer, bytes before the offset kept, the 4 mask bytes at the offset, every later byte moved up by one |
| `TexContainer.Unwrap` | src/main.cpp:69-84 | drops exactly `headerSize` (12 or 13) bytes keeping order, bytes 0-2 are the bytes at headerSize..headerSize+2 and byte 3 is 0x20 |
| `TexContainer.UnwrapMakesDdsMagic` | src/main.cpp:83-84 | a "DDSR" magic behind the frame comes out as "DDS " |
| `TexContainer.UnwrapIsUpdate` | src/main.cpp:73-84 | the unwrapped buffer is the bytes behind the frame with byte 3 set to a space |
| `TexContainer.UnwrapKeepsPixelFormat` | src/main.cpp:73-96 | the pixel-format fields read after unwrapping are those behind the frame |
| `DdsHeader.ReadPixelFormat` | src/main.cpp:89-96 | each of the eight fields is the little-endian word stored at its offset (76, 80, ..., 104) |
| `DdsHeader.ReadPixelFormatLocal` | src/main.cpp:89-96 | the eight pixel-format fields depend only on bytes 76-107 |
| `DdsHeader.MaskBytesValues` | src/main.cpp:110-125 | the inserted byte quadruples are the little-endian words 0x00FF0000, 0x0000FF00, 0x000000FF, 0xFF000000 |
| `DdsHeader.MaskWordsRead` | src/main.cpp:110-125 | bytes 92-103 / 104-107 holding those quadruples read back as those masks |
| `Bytes.SignedTestsAreInt32` | src/main.cpp:109-119 | the bit tests used for `(int) dwRGBBitCount >= 24` and `== 32` agree with the signed 32-bit value |
| `TexContainer.RgbRuleFires` | src/main.cpp:107-109 | the channel-mask rule fires exactly when `dwFlags` is 0x40, a colour mask is zero and the bit count read as a signed `int` is at least 24 |
| `TexContainer.AlphaRuleFires` | src/main.cpp:119 | the alpha rule fires exactly when the bit count read as a signed `int` is 32 and the alpha mask is zero or the flags byte it is given lacks `DDS_ALPHAPIXELS` |
| `TexContainer.ApplyRgbRule` | src/main.cpp:110-116 | the three erase-and-insert writes make the buffer three bytes longer |
| `TexContainer.ApplyRgbRuleLayout` | src/main.cpp:110-116 | the three splices keep bytes 0-91, put `00 00 FF 00 00 FF 00 00 FF 00 00 00` at 92-103 and move bytes from 101 on up by three |
| `TexContainer.ApplyAlphaRuleLayout` | src/main.cpp:121-125 | the alpha rule sets bit 0 of byte 80, puts `00 00 00 FF` at 104-107, moves bytes from 107 on up by one, keeps the rest |
| `TexContainer.ApplyAlphaRule` | src/main.cpp:122-125 | the flag write and the alpha-mask splice make the buffer one byte longer |
| `TexContainer.ApplyRules` | src/main.cpp:107-126 | the writes of the rules that fire grow the buffer by 3 for the channel-mask rule plus 1 for the alpha rule |
| `TexContainer.ApplyRulesLayout` | src/main.cpp:107-126 | for each combination of rules: the length growth (3 and/or 1), what each rule writes, and where every other byte moves |
| `TexContainer.Repair` | src/main.cpp:107-126 | the repair either changes nothing or grows the buffer by 1 to 4 bytes |
| `TexContainer.RepairApplies` | src/main.cpp:107-126 | the rules applied are decided on the fields read before any write; the alpha rule's live read of byte 80 sees the pre-repair byte |
| `TexContainer.RgbFlagsByte` | src/main.cpp:107-119 | a `dwFlags` of exactly 0x40 has the alpha bit clear |
| `TexContainer.ApplyRulesDecisionBytes` | src/main.cpp:107-126 | after the writes the bit count is kept, each colour mask holds 0xFF, and the alpha bit and an 0xFF alpha byte are set |
| `TexContainer.RuleBlockers` | src/main.cpp:107-119 | a set alpha bit rules out the RGB rule; non-zero masks and a set alpha bit rule out both rules |
| `TexContainer.RepairLeavesNoRuleToFire` | src/main.cpp:107-126 | after the repair neither rule fires |
| `TexContainer.RepairIdempotent` | src/main.cpp:107-126 | repairing a repaired buffer changes nothing |
| `TexContainer.RepairChangesIffRuleFires` | src/main.cpp:107-126 | the repair changes the buffer if and only if one of the two rules fires |
| `TexContainer.ApplyRulesShiftTail` | src/main.cpp:111-125 | every byte from offset 108 on moves up by exactly the growth |
| `TexContainer.RepairShiftsTail` | src/main.cpp:111-125 | `dwCaps`, the rest of the header and all pixel data come out moved up by the bytes the repair added |
| `TexContainer.RgbRuleMovesFirstPixel` | src/main.cpp:107-116 | concrete: a 24-bit RGB header with zero masks and pixel byte 0xAB at 128 yields 132 bytes, a header byte at 128 and 0xAB at 131 |
| `TexContainer.LowByte` | src/main.cpp:128 | for every old byte x, `OrIntoByte(x, flag)` (the truncating store: OR-assigning the flag in `int` and keeping the low 8 bits in an `unsigned char`) is x OR the flag's low byte |
| `TexContainer.PatchCaps` | src/main.cpp:128 | the caps step changes only byte 109, which becomes the old byte OR the low byte of the constant |
| `TexContainer.PatchCapsIdempotent` | src/main.cpp:128 | patching twice equals patching once |
| `TexContainer.PatchCapsTextureIsNoOp` | src/main.cpp:128 | with `DDS_SURFACE_FLAGS_TEXTURE` = 0x1000 the truncated OR leaves every buffer as it was |
| `TexContainer.PatchedRulesLayout` | src/main.cpp:107-128 | the rules followed by the caps step, relative to the unwrapped buffer and the growth d: bytes 0-91 kept except bit 0 of byte 80 under the alpha rule; each rule's masks; with the channel-mask rule alone bytes 104-107 are input bytes 101-104; bytes 108 and 109 are input bytes 108-d and 109-d, the second ORed with the flag's low byte; bytes from 110 on are input bytes from 110-d on |
| `TexContainer.MagicFixedLayout` | src/main.cpp:84-128 | magic fix, rules and caps step relative to the bytes behind the frame: every byte as `PatchedFrom` places it (bytes 0-2 kept, byte 3 a space, then as for `PatchedRulesLayout`) |
| `TexContainer.UnwrapAndPatchApplies` | src/main.cpp:64-128 | on a recognised buffer the block equals the rules, decided on the bytes behind the frame, applied after the magic fix |
| `TexContainer.UnwrapAndPatch` | src/main.cpp:64-128 | on a recognised buffer the output is as long as the bytes behind the frame plus the growth of the rules that fire on them |
| `TexContainer.UnwrapAndPatchLayout` | src/main.cpp:64-128 | with the rules decided on the bytes behind the frame, every output byte as `PatchedFrom` places it: length input minus headerSize plus growth; bytes 0-2 from behind the frame, byte 3 = 0x20; bytes 4-91 kept except bit 0 of byte 80; masks as the rules write them (displaced blue-mask bytes in the alpha field under the channel-mask rule alone); bytes 108-109 the shifted bytes, 109 ORed with the flag's low byte; bytes from 110 on shifted by the growth |
| `TexContainer.UnwrapAndPatchMasks` | src/main.cpp:107-128 | RGB rule: masks read R=0x00FF0000, G=0x0000FF00, B=0x000000FF; alpha rule: A=0xFF000000 with the alpha bit; neither: the pixel format is unchanged |
| `TexContainer.AlphaSpliceReachesCapsByte` | src/main.cpp:119-128 | concrete: a version 1 buffer with only 109 header bytes, bit count 32 and a zero alpha mask is accepted, and the block leaves 110 bytes |
| `TexContainer.Normalized` | src/main.cpp:64-146 | a buffer without a recognised signature is returned unchanged |
| `TexContainer.NormalizeTexBuffer` | src/main.cpp:64-128 | the step-by-step block (version branches, erase, magic fix, rules, caps patch) computes `Normalized` |
| `TexContainer.RepairPixelFormat` | src/main.cpp:89-126 | the step-by-step repair with decisions on pre-read fields computes `Repair` |
| `TexCorrected.WriteMask` | src/main.cpp:111-125 | an overwriting mask write keeps the length and the other bytes, and the field reads back as the mask |
| `TexCorrected.ApplyRgbRuleFixed` | src/main.cpp:110-116 | the overwriting channel-mask writes keep the length |
| `TexCorrected.ApplyRgbRuleFixedLayout` | src/main.cpp:110-116 | the overwriting RGB rule changes only bytes 92-103 |
| `TexCorrected.ApplyAlphaRuleFixed` | src/main.cpp:122-125 | the overwriting alpha rule keeps the length |
| `TexCorrected.ApplyAlphaRuleFixedLayout` | src/main.cpp:121-125 | the overwriting alpha rule changes only bit 0 of byte 80 and bytes 104-107 |
| `TexCorrected.RepairFixed` | src/main.cpp:107-126 | the corrected repair keeps the buffer length |
| `TexCorrected.RepairFixedLayout` | src/main.cpp:107-126 | only byte 80 and bytes 92-107 can change; each rule writes its masks; with neither rule nothing changes |
| `TexCorrected.RepairFixedMasks` | src/main.cpp:107-126 | size, fourCC and bit count kept; the masks read back as the canonical words when a rule fires and as before otherwise |
| `TexCorrected.RepairFixedIdempotent` | src/main.cpp:107-126 | the corrected repair is idempotent |
| `TexCorrected.PatchCapsWord` | src/main.cpp:128 | the corrected caps step ORs the constant into the `dwCaps` word and changes nothing else |
| `TexCorrected.PatchCapsWordIdempotent` | src/main.cpp:128 | patching twice equals patching once |
| `TexCorrected.PatchCapsWordTexture` | src/main.cpp:128 | with 0x1000 the word patch sets bit 4 of byte 109 and nothing else |
| `TexCorrected.NormalizedFixed` | src/main.cpp:64-146 | unrecognised input is unchanged; recognised input loses exactly headerSize bytes |
| `TexCorrected.NormalizedFixedLayout` | src/main.cpp:64-128 | corrected output, with the rules decided on the bytes behind the frame: magic fixed; bytes 4-91 kept except bit 0 of byte 80, set by the alpha rule; bytes 92-103 the colour masks under the channel-mask rule and kept otherwise; bytes 104-107 the alpha mask under the alpha rule and kept otherwise; `dwCaps` ORed; bytes 112 onwards (pixel data) unmoved |
| `TexCorrected.NormalizedFixedRepairStable` | src/main.cpp:107-128 | repairing and patching the corrected output again changes nothing |
| `PixelShuffle.SwapRedBlue` | src/DxTexWrapper.cpp:179-194 | the conversion keeps the length |
| `PixelShuffle.SwapRedBlueAt` | src/DxTexWrapper.cpp:183-190 | for each pixel i: out[4i]=in[4i+2], out[4i+1]=in[4i+1], out[4i+2]=in[4i], out[4i+3]=in[4i+3] |
| `PixelShuffle.GreenAndAlphaKept` | src/DxTexWrapper.cpp:184-190 | the green and alpha bytes of every pixel are unchanged |
| `PixelShuffle.SwapRedBlueInvolutive` | src/DxTexWrapper.cpp:179-194 | converting twice gives the original bytes |
| `PixelShuffle.SwapRedBlueAppend` | src/DxTexWrapper.cpp:182-191 | converting a joined buffer is joining the converted parts |
| `PixelShuffle.SwapRedBlueStep` | src/DxTexWrapper.cpp:182-191 | one more pixel appends exactly its b, g, r, a bytes to the output |
| `PixelShuffle.ConvertRgbaToBgra` | src/DxTexWrapper.cpp:179-194 | requires a length that is a multiple of 4; the loop's output is the specification's, has the input's length and swaps bytes 0 and 2 of each pixel (invariant: after reading `it` bytes the output is the conversion of those `it` bytes alone) |
| `Images.Resize` | src/ImageData.h:33 | `vector::resize` gives exactly n bytes, keeps the first ones and zero-fills growth |
| `Images.ImageData.constructor` | src/ImageData.h:7-9 | a new object has width 0, height 0 and no pixels |
| `Images.ImageData.GetWidth` | src/ImageData.h:12-14 | returns the width field |
| `Images.ImageData.SetWidth` | src/ImageData.h:16-18 | sets the width; height and pixels unchanged |
| `Images.ImageData.GetHeight` | src/ImageData.h:20-22 | returns the height field |
| `Images.ImageData.SetHeight` | src/ImageData.h:24-26 | sets the height; width and pixels unchanged |
| `Images.ImageData.GetPixels` | src/ImageData.h:28-30 | returns the pixel vector |
| `Images.ImageData.SetPixelsFrom` | src/ImageData.h:32-35 | pixels become exactly the first `size` source bytes; width and height unchanged |
| `Images.ImageData.SetPixels` | src/ImageData.h:37-40 | pixels become equal to the source; width and height unchanged |
| `Images.ImageData.GetPixelsSize` | src/ImageData.h:46-48 | returns the number of pixel bytes |
| `Images.SettersAndGetters` | src/ImageData.h:5-49 | each getter returns the last value its setter was given, whatever other setters ran; `getPixelsSize` equals `src.size()` |

## Findings

| source | as written | input that shows it | evidently intended | confidence | as-written member | corrected member |
|---|---|---|---|---|---|---|
| src/main.cpp:111-125 | each mask write erases 3 bytes and inserts 4, so the buffer grows by one byte per write and everything behind it shifts | a 24-bit `DDPF_RGB` header with zero colour masks: the buffer grows by 3, `dwCaps` and the pixel data move up by 3, and the first pixel byte ends up at 131 instead of 128 | overwrite the 4 bytes of each mask field in place | high; not executed | `TexContainer.RgbRuleMovesFirstPixel` | `TexCorrected.NormalizedFixedLayout` |
| src/main.cpp:128 | the OR of `DDS_SURFACE_FLAGS_TEXTURE` into byte 109 is stored in an `unsigned char`, so only the low byte of 0x1000 (zero) is ORed in | any buffer: the byte is unchanged | set `DDSCAPS_TEXTURE` (bit 12 of `dwCaps`, bit 4 of byte 109) | medium (the constant comes from DirectXTex's `DDS.h`, which is not part of this model); not executed | `TexContainer.PatchCapsTextureIsNoOp` | `TexCorrected.PatchCapsWordTexture` |

## Left out

- Reading the TEX file, its size check and every `printf` in `test1` (src/main.cpp:30-62, 68, 82, 86-87, 98-105, 142-149) are I/O.
- The texture-length word that versions 1 and 2 keep at offset 8 or 9 is only printed. The model records those offsets (`TexVersion.TextureLengthOffset`) and nothing more.
- The DirectXTex calls: `LoadFromDDSMemory`, `LoadFromWICMemory`, `IsCompressed`, `Decompress`, `SaveToWICFile`, `SaveToWICMemory`, `GenerateMipMaps`, `ComputePitch` and `SaveToDDSMemory` (src/main.cpp:150-219, src/DxTexWrapper.cpp:1-177). They are calls into a library whose code is not part of this model.
- `encodePng` and `decodePng` (src/DxTexWrapper.cpp:196-313) are thin wrappers over the spng and lodepng codecs, which are not part of this model.
- `ErrorDescription` and `printErrorDescription` format and print Win32 error text.
- COM initialisation, `main()`, and the `try`/`catch` wrappers are plumbing.
- src/DxTexWrapper.h holds declarations only.
- `DDS_SURFACE_FLAGS_TEXTURE` comes from DirectXTex's `DDS.h`, which is not part of this model. It is a parameter; the conventional 0x1000 is used only in the lemmas about it.
- `DDS_ALPHAPIXELS` is taken as 0x1 (`DDPF_ALPHAPIXELS`), which matches the code's own `& 1` test.
- `Images.ImageData.GetPixels` returns a copy of the bytes, while `getPixels` returns a `const` reference into the object. The aliasing of that reference is not modelled: a caller that kept it would see later `setPixels` writes.
- `ImageData::getPixelsPointer` returns a raw pointer to the vector's storage. Pointers are not modelled; `GetPixels` gives the same bytes.
- `Images.ImageData.SetPixelsFrom` takes the source as a byte sequence rather than a `void *`. It therefore does not model a source that overlaps the object's own vector.
- `Images.ImageData.GetPixelsSize` returns an unbounded `nat`, not the 64-bit `unsigned long long`.
