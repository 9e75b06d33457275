# Texture storage, Radiance decoding, relocatable buffers and property keys

This project is a Dafny model of four pieces of an asset pipeline.

- **The relocatable byte buffer** (`SmartBuffer`). A buffer is a growable
  run of bytes with a name, a type tag and a target platform. Each platform
  has a pointer width and a byte order. A buffer keeps two fixup tables:
  - outgoing fixups, keyed by the offset they patch;
  - incoming locations, the places in other buffers that point into it.

  The fixup API links a source location to a destination. A link is one
  of three kinds: a numeric offset, a pointer, or a vtable class index.
- **The float texture** (`Texture`). Each face is one allocation of four
  float planes (red, green, blue, alpha), one after the other. A volume
  texture keeps all its slices in each plane of face 0. A cube map has six
  faces. The model covers these operations on that layout:
  - the constructors;
  - the in-place flips;
  - the float clean-up;
  - face insertion;
  - the power-of-two size rule of the mip preparation.
- **The Radiance `.hdr` pixel section**. This is the run-length decoder:
  1. scanline marks;
  2. run and literal pairs, channel by channel into a planar buffer;
  3. the flat fallback.

  It sits alongside the header tokenisers that the Radiance and PFM
  loaders share: the bounded line reader, the whitespace skipper, the word
  reader and the PFM magic test.
- **The property-panel key** (`ElementTypeFlags`), with its comparison
  operators. Also the map insertion `EnumerateElement`, which keeps one
  element per key.

The modules are:

| module | contents |
|---|---|
| `Machine` | integer widths and `Result` / `Option` |
| `SmartBuffers` | the buffer class and the fixup API |
| `HdrRle` | the pixel section as functions, plus an independent encoder for round trips |
| `HdrReader` | the decoder's loops, proved equal to `HdrRle`'s reader with the corrected flat fallback (Findings row 3); the loader as written is `HdrRle.DecodePixelsAsWritten` |
| `HeaderTokens` | the header tokenisers |
| `Planes` | in-place block algorithms on `array<u32>` |
| `Textures` | the texture class and the size rule |
| `PropertiesManager` | the key and the insertion |

Floats are kept as their IEEE single bit patterns (`u32`). None of the
operations modelled here does arithmetic on them.

## Model

| member | source | states |
|---|---|---|
| SmartBuffers.SmartBuffer.constructor | Libraries/SmartBuffer/SmartBuffer.h:64-78 | a new buffer is empty and valid: default platform Power32, default maximum size, owns its data, not virtual, no fixups |
| SmartBuffers.SmartBuffer.SetType | Libraries/SmartBuffer/SmartBuffer.h:88-91 | stores the type tag and changes no other field |
| SmartBuffers.SmartBuffer.SetPlatformAsWritten | Libraries/SmartBuffer/SmartBuffer.h:97-101 | the setter as written: it asserts only on the current platform and stores any value it is given |
| SmartBuffers.SmartBuffer.SetPlatform | Libraries/SmartBuffer/SmartBuffer.h:97-101 | with the check on the argument, the new platform indexes the tables and the buffer stays valid |
| SmartBuffers.SetPlatformAsWrittenAdmitsCount | Libraries/SmartBuffer/SmartBuffer.h:34-41 | the written assertion passes for `BufferPlatforms::Count`, which is no platform; the corrected check refuses it |
| SmartBuffers.SetPlatformCheckMeaning | Libraries/SmartBuffer/SmartBuffer.h:34-41 | the corrected check holds exactly for x86 and Power32 |
| SmartBuffers.SmartBuffer.GetPlatformPtrSize | Libraries/SmartBuffer/SmartBuffer.h:103-106 | both platforms have 4-byte (32-bit) pointers |
| SmartBuffers.SmartBuffer.IsPlatformBigEndian | Libraries/SmartBuffer/SmartBuffer.h:107-110 | big-endian exactly for Power32; little-endian exactly for x86 |
| SmartBuffers.SmartBuffer.GetHeadLocation | Libraries/SmartBuffer/SmartBuffer.h:112-116 | offset 0 of this buffer, which lies within the used bytes |
| SmartBuffers.SmartBuffer.GetCurrentLocation | Libraries/SmartBuffer/SmartBuffer.h:118-122 | the end offset `size` of this buffer |
| SmartBuffers.SmartBuffer.GetOffsetLocation | Libraries/SmartBuffer/SmartBuffer.h:124-129 | the given offset, which may be at most the size (the end is allowed) |
| SmartBuffers.SmartBuffer.GetAddressLocation | Libraries/SmartBuffer/SmartBuffer.h:131-136 | for an address inside the used bytes, an offset below the size that leads back to that address |
| SmartBuffers.SmartBuffer.AddressOffsetRoundTrip | Libraries/SmartBuffer/SmartBuffer.h:124-136 | turning an offset into an address and back gives the same location |
| SmartBuffers.SmartBuffer.Reset | Libraries/SmartBuffer/SmartBuffer.h:164-165 | no bytes allocated and no fixups in either direction; the identity, platform and limits are kept |
| SmartBuffers.SmartBuffer.SetMaxSize | Libraries/SmartBuffer/SmartBuffer.h:182-183 | on an empty buffer, sets the maximum size and nothing else |
| SmartBuffers.SmartBuffer.SetVirtual | Libraries/SmartBuffer/SmartBuffer.h:185-187 | on an empty buffer, switches to virtual memory with the given size as the maximum |
| SmartBuffers.SmartBuffer.Reserve | Libraries/SmartBuffer/SmartBuffer.h:195-196 | succeeds exactly when the request fits the maximum. On success the capacity reaches the request and never shrinks, the bytes are kept and the used size is unchanged. On failure nothing changes, the data address included |
| SmartBuffers.SmartBuffer.GrowBy | Libraries/SmartBuffer/SmartBuffer.h:189-190 | succeeds exactly when the size plus the request fits the maximum. On success the size grows by the request, the capacity never shrinks and the used bytes are kept. On failure nothing changes, the data address included |
| SmartBuffers.SmartBuffer.Resize | Libraries/SmartBuffer/SmartBuffer.h:192-193 | succeeds exactly when the request fits the maximum. On success the size becomes at least the request (exactly the request when that is larger), the capacity never shrinks and the used bytes are kept. On failure nothing changes, the data address included |
| SmartBuffers.SmartBuffer.CollectChildren | Libraries/SmartBuffer/SmartBuffer.h:201-202 | adds every buffer reachable through outgoing fixups, entering each buffer once: the result keeps the given set, holds this buffer's children and the children of every buffer it added, and lists the added buffers in an order in which each is pointed into by this buffer or by an earlier one |
| SmartBuffers.DiscoveredHasPath | Libraries/SmartBuffer/SmartBuffer.h:201-202 | each buffer `CollectChildren` adds ends a chain of fixups from this buffer through added buffers only |
| SmartBuffers.CollectedReachesAll | Libraries/SmartBuffer/SmartBuffer.h:201-202 | the end of every chain of fixups from this buffer that passes through no buffer of the given set is collected |
| SmartBuffers.SmartBuffer.InheritFixups | Libraries/SmartBuffer/SmartBuffer.h:204-205 | every fixup of the other buffer appears at its offset moved by `delta`; the existing offsets stay; no other offset appears; every other field, the data address included, is kept |
| SmartBuffers.WithFixup | Libraries/SmartBuffer/SmartBuffer.h:56 | the outgoing table holds one fixup per offset: the new one is present and the other offsets keep theirs |
| SmartBuffers.WithFixupLastWins | Libraries/SmartBuffer/SmartBuffer.h:56 | registering twice at one offset leaves only the second fixup |
| SmartBuffers.WithFixupCommutes | Libraries/SmartBuffer/SmartBuffer.h:56 | fixups at different offsets can be registered in either order |
| SmartBuffers.InsertOrdered | Libraries/SmartBuffer/SmartBuffer.h:53-54 | insertion into the incoming ordered set: the location is present, nothing else is added, no duplicate arises, and what was there is kept in order |
| SmartBuffers.InsertOrderedIdempotent | Libraries/SmartBuffer/SmartBuffer.h:53-54 | inserting a location already present changes nothing |
| SmartBuffers.InsertOrderedSameMembers | Libraries/SmartBuffer/SmartBuffer.h:53-54 | two insertions in either order give the same members |
| SmartBuffers.AddFixup | Libraries/SmartBuffer/SmartBuffer.h:210-211 | records the fixup at the source offset. When the fixup points into a buffer, that buffer's incoming set gains the source. Both buffers stay valid; every field other than the two tables is kept in both; the source's incoming set and the target's outgoing table are kept when they are different buffers |
| SmartBuffers.AddOffsetFixup | Libraries/SmartBuffer/SmartBuffer.h:213-221 | true exactly when the destination names a buffer and lies within its bytes. Then the source's outgoing table and the destination's incoming set are updated, the other table of each (when they differ) and every other field are kept; otherwise neither buffer changes |
| SmartBuffers.AddPointerFixup | Libraries/SmartBuffer/SmartBuffer.h:223-227 | the same contract as `AddOffsetFixup`, for a pointer fixup of the given width |
| SmartBuffers.AddVTableFixup | Libraries/SmartBuffer/SmartBuffer.h:229-231 | always succeeds; records the class index at the source; its incoming set and every field other than the outgoing table are kept |
| Textures.Texture.Make2D | Libraries/Texture/Texture.cpp:31-53 | one fresh face holding four `w*h` planes; the other five faces are missing; depth is 2D; the data size is the face's bytes |
| Textures.Texture.Make | Libraries/Texture/Texture.cpp:57-102 | depth 0 gives six fresh, distinct faces (a cube map). Any other depth gives one face whose planes hold `d` slices each, with the rest missing |
| Textures.Texture.PlaneInside | Libraries/Texture/Texture.cpp:70-74 | the four channel planes of a face follow each other without overlap, and each slice lies inside the face's allocation |
| Textures.Texture.FlipChannels | Libraries/Texture/Texture.cpp:882-937 | each of the four channel slices of the face is replaced by its flip; no other word of the allocation changes |
| Textures.Texture.FlipVertical | Libraries/Texture/Texture.cpp:882-905 | each channel slice of the face becomes its rows in reverse order |
| Textures.Texture.FlipHorizontal | Libraries/Texture/Texture.cpp:908-937 | each channel slice of the face becomes each row reversed |
| Textures.Texture.ChannelMapped | Libraries/Texture/Texture.cpp:884-887 | after a face's blocks are mapped, channel `c` is the image of the former channel `c`: a flip never spills into another channel |
| Textures.Texture.CleanFloatData | Libraries/Texture/Texture.cpp:847-879 | every face present becomes its scrubbed words; missing faces are skipped |
| Textures.Texture.AcceptedSizes | Libraries/Texture/Texture.cpp:794-798 | an accepted texture's single face is four slices of this texture; for a non-volume it is exactly one face |
| Textures.Texture.InsertFace | Libraries/Texture/Texture.cpp:790-843 | refuses, with no change, a texture that is not 2D or differs in width, height or format. For a volume, slice `face` of each plane takes the matching plane of the inserted texture. Otherwise face `face` becomes the inserted face, allocated when missing; filling a face other than 0 of a 2D texture makes it a cube map. Every other face keeps its words |
| Textures.Texture.InsertSlices | Libraries/Texture/Texture.cpp:814-818 | plane `c` of the source is pasted into slice `face` of plane `c`, for all four planes |
| Textures.Texture.InsertWhole | Libraries/Texture/Texture.cpp:823-840 | the face becomes a copy of the source; a missing face is allocated first; the other faces are unchanged |
| Textures.NextPowerOfTwo | Libraries/Texture/Texture.cpp:2232 | a power of two not below the input whose half is below it (1 for 0) |
| Textures.NextPowerOfTwoIsLeast | Libraries/Texture/Texture.cpp:2232 | no power of two lies between the input and its next power of two |
| Textures.NextPowerOfTwoOfPower | Libraries/Texture/Texture.cpp:2230-2232 | a power of two is its own next power of two, so the guard only saves work |
| Textures.AdjustWidthAndHeight | Libraries/Texture/Texture.cpp:2227-2250 | both results are at most `max_size`, and each is the size rule applied to its input |
| Textures.AdjustedSizeMeaning | Libraries/Texture/Texture.cpp:2227-2250 | the rule gives the next power of two when it fits and `max_size` otherwise; a power of two that fits is kept |
| Textures.AdjustedSizeIdempotent | Libraries/Texture/Texture.cpp:2227-2250 | applying the rule to its own result changes nothing |
| Textures.AdjustedSizeMonotone | Libraries/Texture/Texture.cpp:2227-2250 | a larger input never gives a smaller result |
| Planes.FlipRows | Libraries/Texture/Texture.cpp:889-901 | in place, a block's rows come out in reverse order and the words outside the block are unchanged |
| Planes.FlipCols | Libraries/Texture/Texture.cpp:916-933 | in place, every row of a block is reversed and the words outside the block are unchanged |
| Planes.SwapRanges | Libraries/Texture/Texture.cpp:896-898 | two disjoint ranges trade contents through the temporary line; everything else is kept |
| Planes.ReverseRange | Libraries/Texture/Texture.cpp:925-932 | swapping the outermost pixels inwards reverses the range |
| Planes.FlipBlock | Libraries/Texture/Texture.cpp:882-937 | a block becomes its vertical or its horizontal flip |
| Planes.RevRowsRow | Libraries/Texture/Texture.cpp:890-900 | row `y` of the vertically flipped block is row `height - 1 - y` of the original |
| Planes.RevEachRow | Libraries/Texture/Texture.cpp:922-932 | row `y` of the horizontally flipped block is row `y` of the original reversed |
| Planes.RevRowsTwice | Libraries/Texture/Texture.cpp:882-905 | flipping vertically twice gives back the block |
| Planes.RevEachTwice | Libraries/Texture/Texture.cpp:908-937 | flipping horizontally twice gives back the block |
| Planes.FlipBlocksTwice | Libraries/Texture/Texture.cpp:882-937 | flipping the same channel blocks twice in the same direction gives back the whole allocation |
| Planes.FlipOfInvolutive | Libraries/Texture/Texture.cpp:882-937 | each flip, as a function on blocks of `w*h` words, undoes itself |
| Planes.BlocksMappedTwice | Libraries/Texture/Texture.cpp:884-887 | mapping the same blocks twice by an involution restores the words |
| Planes.BlocksMappedAt | Libraries/Texture/Texture.cpp:884-887 | each mapped block lies in the allocation and is the map of the original block |
| Planes.CopyWords | Libraries/Texture/Texture.cpp:817 | the `memcpy` of words: the target range takes the source words and everything else is kept |
| Planes.PastedPlane | Libraries/Texture/Texture.cpp:814-818 | after the four copies, slice `face` of plane `c` holds plane `c` of the inserted texture |
| Planes.PastedOutside | Libraries/Texture/Texture.cpp:814-818 | after the four copies, every word outside the four slices is unchanged |
| Planes.ScrubPlanes | Libraries/Texture/Texture.cpp:856-877 | the four planes of a face, walked together, become their scrubbed words |
| Planes.ScrubbedWords | Libraries/Texture/Texture.cpp:867-871 | every infinity and NaN becomes zero, no word is left that the test would catch, and words the test lets through are kept |
| Planes.InfOrNanIsScrubbed | Libraries/Texture/Texture.cpp:867-871 | every infinity and NaN bit pattern meets the mask test |
| Planes.ScrubbedIdempotent | Libraries/Texture/Texture.cpp:847-879 | cleaning twice is cleaning once |
| Planes.ScrubCatchesLargestFinite | Libraries/Texture/Texture.cpp:867-868 | the mask test also zeroes finite singles such as `0x7f000000`, about 1.7e38 |
| HeaderTokens.ScanEnd | Libraries/Texture/Texture.cpp:445-450 | the copy loop stops at the first line end, at the budget, or at the end of the input, and copies no line end |
| HeaderTokens.ReadString | Libraries/Texture/Texture.cpp:442-459 | writes the line reader's token into the buffer (copied bytes, then the line end if it is next, then NUL) and returns the position after it |
| HeaderTokens.LineReadsBack | Libraries/Texture/Texture.cpp:442-459 | a line within the budget is read back whole with its line end; the position moves past it |
| HeaderTokens.ScanEndOfLine | Libraries/Texture/Texture.cpp:445-450 | with enough budget, the scan stops exactly at the first line end |
| HeaderTokens.LongLineIsCut | Libraries/Texture/Texture.cpp:445-458 | a line longer than the budget is cut after `n` bytes and the next read resumes inside it |
| HeaderTokens.StringTokenFootprint | Libraries/Texture/Texture.cpp:442-459 | the reader writes at most `n + 2` bytes, ends with NUL, and consumes one byte less than it writes |
| HeaderTokens.HdrHeaderLineOverflows | Libraries/Texture/Texture.cpp:1181 | a 128-byte header line followed by a line feed makes the reader write 130 bytes into a 128-byte buffer |
| HeaderTokens.ReadBoundedString | Libraries/Texture/Texture.cpp:442-459 | the reader with its budget taken from the buffer size minus two never writes past the buffer |
| HeaderTokens.BoundedReaderAgrees | Libraries/Texture/Texture.cpp:442-459 | on a line short enough to fit, the bounded reader reads the same as the unbounded one |
| HeaderTokens.SkipSpaces | Libraries/Texture/Texture.cpp:418-425 | the first position at or after `p` that is not whitespace, with only whitespace before it |
| HeaderTokens.SkipWhiteSpace | Libraries/Texture/Texture.cpp:418-425 | the loop returns the position `SkipSpaces` describes |
| HeaderTokens.SkipSpacesIdempotent | Libraries/Texture/Texture.cpp:418-425 | skipping twice is skipping once |
| HeaderTokens.SkipSpacesExact | Libraries/Texture/Texture.cpp:418-425 | a run of whitespace followed by something else is skipped exactly |
| HeaderTokens.WordEnd | Libraries/Texture/Texture.cpp:431-436 | the first whitespace position at or after `p`, with only non-whitespace before it |
| HeaderTokens.ReadWord | Libraries/Texture/Texture.cpp:428-439 | copies the word up to the next whitespace, terminates it with NUL, leaves the rest of the buffer, and returns the word's end |
| HeaderTokens.PfmWordOverflows | Libraries/Texture/Texture.cpp:473-476 | a 1024-byte header word makes the word reader write 1025 bytes into the loader's 1024-byte buffer |
| HeaderTokens.BoundedWordEnd | Libraries/Texture/Texture.cpp:431-436 | a bounded word read stops at the word's end or after the budget, whichever comes first |
| HeaderTokens.ReadBoundedWord | Libraries/Texture/Texture.cpp:428-439 | the word reader bounded by the buffer size minus one never writes past the buffer and still ends the text with NUL |
| HeaderTokens.BoundedWordAgrees | Libraries/Texture/Texture.cpp:428-439 | on a word that fits with its NUL, the bounded reader stops where the unbounded one does |
| HeaderTokens.WordReadsBack | Libraries/Texture/Texture.cpp:428-439 | a word followed by whitespace (or the end) is read back exactly |
| HeaderTokens.WordEndThenSkip | Libraries/Texture/Texture.cpp:418-439 | the word reader stops where the whitespace skipper makes progress |
| HeaderTokens.PfmMagicAsWrittenAcceptsPpm | Libraries/Texture/Texture.cpp:466 | the written test lets `P6` (a PPM header) through, which the corrected test refuses |
| HeaderTokens.PfmMagicTests | Libraries/Texture/Texture.cpp:466-470 | the corrected test accepts exactly `P` or `p` followed by `F` or `f`. The written one accepts everything the corrected one does, and more |
| HeaderTokens.CheckPfmMagicAsWritten | Libraries/Texture/Texture.cpp:464-470 | after skipping whitespace, rejects only when both of the first two bytes are wrong |
| HeaderTokens.CheckPfmMagic | Libraries/Texture/Texture.cpp:464-470 | after skipping whitespace, accepts exactly a PF header, and returns the position after the magic |
| HdrRle.DecodeChannel | Libraries/Texture/Texture.cpp:1234-1271 | a successful channel decoding yields exactly the requested number of bytes and moves forward in the input |
| HdrRle.RunPairLeads | Libraries/Texture/Texture.cpp:1240-1252 | in a channel that decodes, a run pair at the front fits the channel, and the channel starts with `count - 128` copies of its value |
| HdrRle.LiteralPairLeads | Libraries/Texture/Texture.cpp:1253-1270 | in a channel that decodes, a literal pair `(m, ...)` at the front fits the channel and the input, and the channel starts with the `m` input bytes after the count |
| HdrRle.ChannelsLength | Libraries/Texture/Texture.cpp:1231-1272 | `k` decoded channels hold `k * w` bytes |
| HdrRle.ScanlineLength | Libraries/Texture/Texture.cpp:1226-1233 | a decoded scanline fills the `4 * width` buffer exactly |
| HdrRle.Planar | Libraries/Texture/Texture.cpp:1275-1281 | the planar buffer gives one pixel per column |
| HdrRle.DecodedScanlineIsPlanar | Libraries/Texture/Texture.cpp:1275-1281 | channel `c` of pixel `i` is byte `i + c * width` of the scanline buffer |
| HdrRle.FlatPixels | Libraries/Texture/Texture.cpp:1114-1133 | `n` flat quads are read exactly when `4 * n` bytes remain |
| HdrRle.HeaderWidth | Libraries/Texture/Texture.cpp:1219 | the width a scanline mark declares is `(b2 << 8) \| b3` |
| HdrRle.DecodeScanlines | Libraries/Texture/Texture.cpp:1206-1290 | a successful decoding of the remaining scanlines gives `width` pixels per scanline |
| HdrRle.DecodePixels | Libraries/Texture/Texture.cpp:1191-1293 | a successful decoding of the pixel section gives `width * height` pixels |
| HdrRle.PixelsIsProduct | Libraries/Texture/Texture.cpp:1194 | the row-by-row pixel count equals `width * height` |
| HdrRle.ChannelRoundTrip | Libraries/Texture/Texture.cpp:1234-1271 | decoding an encoded channel gives it back and stops right after its encoding |
| HdrRle.ChannelsRoundTrip | Libraries/Texture/Texture.cpp:1231-1272 | four encoded channels in a row decode to the four channels |
| HdrRle.ScanlineRoundTrip | Libraries/Texture/Texture.cpp:1208-1288 | an encoded scanline (mark, width, four channels) decodes to its pixels |
| HdrRle.PictureRoundTrip | Libraries/Texture/Texture.cpp:1206-1290 | an encoded picture of any run-length width decodes to its pixels |
| HdrRle.EncodedPictureDecodes | Libraries/Texture/Texture.cpp:1191-1293 | the pixel section decoder inverts the encoder for every run-length width and height |
| HdrRle.DecodePixelsAsWritten | Libraries/Texture/Texture.cpp:1191-1293 | the loader's fallback as written: a successful decoding has `width * height` entries, some of which may never be written |
| HdrRle.MixedPictureAsWritten | Libraries/Texture/Texture.cpp:1214-1217 | with the written fallback, an 8 by 2 picture whose second scanline is flat gets its header bytes as pixel 0, and pixels 8 to 15 are never written |
| HdrRle.MixedPictureDecodes | Libraries/Texture/Texture.cpp:1214-1217 | with the corrected fallback, the same picture decodes to its eight run pixels followed by its eight flat pixels |
| HdrReader.FillRun | Libraries/Texture/Texture.cpp:1250-1251 | writes `n` copies of the value and nothing outside them |
| HdrReader.CopyBytes | Libraries/Texture/Texture.cpp:1264-1269 | the literal's `memcpy`: the range takes the input bytes and nothing outside it changes |
| HdrReader.ReadPair | Libraries/Texture/Texture.cpp:1236-1270 | one pair is decoded into the buffer as `DecodeChannel` describes, and its error is the decoder's |
| HdrReader.ReadRun | Libraries/Texture/Texture.cpp:1240-1252 | the run branch agrees with `DecodeChannel` |
| HdrReader.ReadLiteral | Libraries/Texture/Texture.cpp:1253-1270 | the literal branch agrees with `DecodeChannel` |
| HdrReader.ReadChannel | Libraries/Texture/Texture.cpp:1233-1271 | the channel loop fills its range with the decoded channel, or returns the decoder's error, and writes nothing outside the range |
| HdrReader.ReadNextChannel | Libraries/Texture/Texture.cpp:1231-1272 | one pass of the channel loop keeps the loop invariant, or returns the decoder's error |
| HdrReader.ReadScanline | Libraries/Texture/Texture.cpp:1227-1272 | the buffer holds the four decoded channels, or the decoder's error is returned |
| HdrReader.ConvertScanline | Libraries/Texture/Texture.cpp:1275-1288 | the scanline's `width` pixels are its planar reading |
| HdrReader.QuadsArePlanar | Libraries/Texture/Texture.cpp:1277-1280 | the four bytes read per column are the planar reading |
| HdrReader.ReadFlatPixels | Libraries/Texture/Texture.cpp:1114-1133 | the flat reader succeeds exactly when `FlatPixels` does and stores its pixels |
| HdrReader.ReadOneScanline | Libraries/Texture/Texture.cpp:1206-1290 | one pass of the scanline loop keeps the picture invariant, finishes it by the flat fallback, or returns the decoder's error |
| HdrReader.ReadScanlines | Libraries/Texture/Texture.cpp:1197-1292 | the scanline loop computes exactly `DecodeScanlines`, which carries the corrected flat fallback of Findings row 3; the fallback as written is `HdrRle.ScanlinesAsWritten` |
| HdrReader.DecodeHdr | Libraries/Texture/Texture.cpp:1191-1293 | the pixel reader computes exactly `DecodePixels`, whose round trip is `EncodedPictureDecodes`; it implements the corrected flat fallback of Findings row 3, and the loader as written is `HdrRle.DecodePixelsAsWritten` |
| PropertiesManager.Equals | Core/Scene/PropertiesManager.h:46-51 | `operator==` holds exactly for equal keys |
| PropertiesManager.LessIsLexicographic | Core/Scene/PropertiesManager.h:53-62 | `operator<` is the lexicographic order on (type, include, exclude) |
| PropertiesManager.LessIrreflexive | Core/Scene/PropertiesManager.h:53-62 | no key is less than itself |
| PropertiesManager.LessTransitive | Core/Scene/PropertiesManager.h:53-62 | the order is transitive |
| PropertiesManager.LessTrichotomy | Core/Scene/PropertiesManager.h:46-62 | of two keys, exactly one is less or they are equal |
| PropertiesManager.MapEquivalenceIsEquality | Core/Scene/PropertiesManager.h:53-70 | keys that `std::map` treats as equivalent are equal, so its key identity is equality |
| PropertiesManager.ElementTypeFlagsCell.constructor | Core/Scene/PropertiesManager.h:28-33 | the three arguments are stored as given |
| PropertiesManager.ElementTypeFlagsCell.Assign | Core/Scene/PropertiesManager.h:35-44 | after assignment the object equals the old right-hand side, also when it is the same object |
| PropertiesManager.EnumerateElementArgs.constructor | Core/Scene/PropertiesManager.h:75-81 | the collector starts with the given map |
| PropertiesManager.EnumerateElementArgs.EnumerateElement | Core/Scene/PropertiesManager.h:83-87 | the map becomes `InsertNew` of the key built from the element's type and the flags |
| PropertiesManager.InsertNew | Core/Scene/PropertiesManager.h:85-86 | `std::map::insert`: the key is present afterwards with its old value if it had one, otherwise with the new element; every other entry is kept |
| PropertiesManager.InsertNewKeepsFirst | Core/Scene/PropertiesManager.h:85-86 | inserting twice under one key keeps the first element |

## Left out

- Machine words: sizes, offsets and products (`w*h*d`, `size + n`, `channel_f32_size*4`) are unbounded integers here. The source's 32-bit wrap-around of these is not modelled.
- Textures.NextPowerOfTwo: Math is not part of this model. It is defined as the least power of two not below its input (1 for 0), without the 32-bit wrap the engine's version may have above 2^31.
- Textures.Texture.InsertFace: requires that the inserted texture does not share storage with this one. Inserting a texture into itself is not modelled.
- Textures.Texture.InsertFace: the volume branch's `return false` for a null channel pointer is not modelled. In this model face 0 always exists, so that pointer is never null.
- Textures.Texture.InsertFace: the source's `NOC_ASSERT(face < m_Depth)` and the unchecked face index of the other branch become a precondition.
- Textures.Texture.FlipVertical: the row-by-row meaning is stated per channel block, by `ChannelMapped` together with `Planes.FlipOfApply` and `Planes.RevRowsRow`. It is not restated on the whole allocation.
- Textures.Texture.FlipHorizontal: the same, with `Planes.RevEachRow`.
- Texture.h is not part of this model. Its constants are taken as two-dimensional depth 1, cube depth 0, six faces and four channels. `IsVolumeTexture()` is taken as depth above 1. `GetFacePtr(face, c)` is taken as plane `c`, slice `face` of face 0 for a volume, and plane `c` of face `face` otherwise.
- `FixUpChannels`: the recomputation of a face's green, blue and alpha pointers is implicit. The channel pointers are derived from the face allocation, never stored.
- Floating point: `rgbe2float`, the sampling and the exposure and header parsing around the decoder (`sscanf`) are left out. Pixels are the RGBE quads before conversion, and alpha is not stored. Texels are IEEE bit patterns.
- Input that ends early: the loaders read past the end of their input. Here every reader stops at the end of the given bytes, and the decoder reports `Truncated`.
- Memory management is left out: `operator new`/`delete`, the memory pools, reference counting and the freeing of the scanline buffer.
- SmartBuffer.cpp is not part of this model. The header shows little of the behaviour below, so each item is an assumption of this model:
  - the default maximum size is 0xFFFFFFFF (the header gives no default);
  - `Resize` grows the size to the request, as its comment says;
  - `GrowBy` adds the request to the size. This follows the method's name; its comment is word for word the one on `Resize`, which promises only a size of at least the request;
  - `Reserve` changes only the capacity;
  - growth beyond the maximum fails and changes nothing;
  - a fixup registered at an offset that already has one replaces it. The header shows only the `std::map<u32, FixupPtr>` table, and this is what assignment into that map does.
- SmartBuffers.SmartBuffer.Reserve, GrowBy and Resize: in the source all three return nothing. Their `ok` result, and the failure that changes nothing, belong to this model: they stand for the maximum-size limit, whose enforcement SmartBuffer.cpp would hold.
- SmartBuffers.SmartBuffer.Reserve, GrowBy and Resize: on success the new capacity is only bounded below (at least the request and at least the old capacity), since the growth policy is not shown. For the same reason the data address is not promised to stay on success, as a reallocation may move it.
- SmartBuffers.AddFixup and SmartBuffers.AddVTableFixup: the source's `bool` results are not modelled as failures. The header never says when `AddFixup` or `AddVTableFixup` returns false, so `AddFixup` returns nothing here and `AddVTableFixup` always returns true. The destination check the header does describe sits in the `AddOffsetFixup` and `AddPointerFixup` wrappers, whose result is false exactly for an invalid destination.
- SmartBuffers.AddFixup: an incoming entry made stale when a later fixup replaces the earlier one is kept. Whether the source removes it is not shown.
- SmartBuffers.SmartBuffer.InheritFixups: requires the other buffer to be a different buffer. A buffer inheriting its own fixups would insert into the map it is iterating over, whose outcome the header does not show.
- SmartBuffers.SmartBuffer.InheritFixups: requires the moved offsets to lie within the buffer. Whether incoming sets are updated for the moved fixups is not shown, so they are left as they were.
- SmartBuffers.SmartBuffer.InheritFixups: each inherited fixup is copied with its destination unchanged; only its own offset moves. Whether the destination offsets are shifted as well is not shown: the header's own comment says the function needs more documentation.
- SmartBuffers.SmartBuffer.CollectChildren: the header shows only the signature and "collect buffers this buffer points to". The walk is modelled as transitive, entering each buffer once by identity. The ghost set `universe` stands for the finite set of live buffers, which no fixup leaves; termination rests on it. The order in which children are visited is not modelled.
- HeaderTokens.ReadString: requires the copied bytes, the line end and the NUL to fit `text`, since writing past an array cannot be modelled. The Radiance loader's calls with a 128-byte buffer and a budget of 128 do not ensure this; `HeaderTokens.HdrHeaderLineOverflows` shows the overflow and `HeaderTokens.ReadBoundedString` is the corrected reader (see Findings).
- HeaderTokens.ReadWord: requires the word and its NUL to fit the buffer, since writing past an array cannot be modelled. The loader does not ensure this; `HeaderTokens.PfmWordOverflows` shows the overflow and `HeaderTokens.ReadBoundedWord` is the corrected reader (see Findings).
- HeaderTokens.IsSpace: `iswspace` is taken in the C locale (tab, line feed, vertical tab, form feed, carriage return, space). The loader passes each `u8` byte unchanged, so bytes 0x80 to 0xFF reach `iswspace` as the values 128 to 255, whose classification depends on the locale; here none of them is whitespace.
- `TakeData`, `AdoptBuffer`, `Dump` and the `Write*` functions are left out. Their bodies and the byte order they write are not shown, and `Dump` is debug output.
- `OrderedSet`: modelled as an insertion-ordered sequence without duplicates.
- The fixups' own classes (`FixupPtr`) are modelled as a datatype of their three kinds.
- PropertiesManager.EnumerateElementArgs: the source binds `m_CurrentElements` by reference to the caller's map, so the insert lands in the caller's map directly. Here the collector holds the map as a field, and a caller reads the updated map back from that field; the aliasing is not modelled.
- PropertiesManager.EnumerateElementArgs: only `m_CurrentElements` is modelled. The other two maps are not touched by `EnumerateElement`. The reflected element is modelled by its type identifier alone.

## Findings

| source | as written | input that shows it | evidently intended | confidence | as-written member | corrected member |
|---|---|---|---|---|---|---|
| Libraries/Texture/Texture.cpp:466 | the PFM loader rejects a header only when its first byte is not `P`/`p` **and** its second is not `F`/`f` | `P6` (a binary PPM) passes the test | reject when either byte is wrong (the comment says the header must start with PF) | not executed | HeaderTokens.CheckPfmMagicAsWritten | HeaderTokens.CheckPfmMagic |
| Libraries/SmartBuffer/SmartBuffer.h:97-101 | `SetPlatform` asserts that the current platform is in range, then stores the argument unchecked | `SetPlatform(BufferPlatforms::Count)` on a new buffer passes the assertion, after which `s_PointerSizes[m_Platform]` reads past the table | assert on the argument | not executed | SmartBuffers.SmartBuffer.SetPlatformAsWritten | SmartBuffers.SmartBuffer.SetPlatform |
| Libraries/Texture/Texture.cpp:1214-1217 | a scanline without the run-length mark, met after earlier scanlines were decoded, makes the loader read `width*height` flat quads from the start of the pixel section into the texture from pixel 0 | 8 by 2 picture: run-coded first scanline, flat second scanline (`HdrRle.MixedPicture`); pixel 0 becomes the mark bytes and pixels 8-15 are never written | continue with flat quads from the current scanline for the remaining pixels | not executed | HdrRle.MixedPictureAsWritten | HdrRle.MixedPictureDecodes |
| Libraries/Texture/Texture.cpp:1148-1181 | the Radiance loader calls `ReadString(header, text, 128)` with a 128-byte `text` (lines 1148, 1157 and 1181); the reader may copy 128 bytes, then the line end, then a NUL | a 128-byte resolution line followed by a line feed: 130 bytes written | pass the buffer size minus two as the budget | not executed | HeaderTokens.HdrHeaderLineOverflows | HeaderTokens.ReadBoundedString |
| Libraries/Texture/Texture.cpp:428-476 | `PFMReadLine` copies bytes until whitespace and then writes a NUL, with no bound; `LoadPFM` reads the header words into `char buffer[1024]` | a header whose width field is 1024 digits long: 1025 bytes written | stop copying one byte before the end of the buffer | not executed | HeaderTokens.PfmWordOverflows | HeaderTokens.ReadBoundedWord |
