# ImageMagick 6: quantum export, the VIFF coder, the security policy cache and substring search

This project models four parts of ImageMagick 6 in Dafny and proves
properties of each one.

- **Quantum export** (`magick/quantum-export.c`). `ExportQuantumPixels` writes
  one row of cache pixels into a caller's byte buffer. The row is written in
  the layout of a quantum type (alpha, RGB, RGBA, CMYK, gray, gray-alpha,
  index, CbYCrY, ...) at the configured depth, with bit packing, padding and
  byte order. The exporter's state (buffer, write position, pending bits and
  pending 32-bit word) is the class `QuantumPacker.Packer`. Each primitive
  write (`PopCharPixel`, `PopShortPixel`, `PopLongPixel`, `PopQuantumPixel`,
  `PopQuantumLongPixel`) is a method proved to do what the pure function
  `QuantumStream.Step` says. Each routine is a method proved to perform
  exactly the writes that `QuantumLayouts.LayoutOps` lists for the row.
  `QuantumProperties` proves what those writes mean: which bits hold each
  pixel and that no pixel is lost. Four of those layouts are corrected
  forms of the routines' own, one for each of the first four rows under
  "## Findings"; `QuantumFindings` models the routines as written there.
- **The VIFF coder** (`coders/viff.c`). This covers the Khoros VIFF magic
  test, the reader (header, header checks, the colormap stage, the sample
  buffer with its byte swapping and rescaling, bitmaps, colormapped and
  planar direct-colour rasters, and multi-image files) and the writer
  (header, colormap dump, and the direct, colormapped, bitmap and gray
  rasters). The reader is given as functions with methods proved against
  them (`ViffDecode`, `ViffReader`). So is the writer (`ViffEncode`,
  `ViffWriter`). `ViffRoundTrip.EncodeVIFFReadBack` proves that any list
  of images the writer can describe reads back as the images the writer
  means. Three steps are the corrected ones (the bitmap rescale in the
  reader, the monochrome and the gray rasters in the writer), one for each
  of the next three rows under "## Findings"; `ViffFindings` models them as
  written.
- **The security policy cache** (`magick/policy.c`). A policy lookup strips
  white space from the name, splits off a `domain:` prefix, searches the
  cache case-insensitively and moves the hit to the front. The listings
  hide stealth policies. `IsRightsAuthorized` lets the last matching policy
  decide. `SetMagickSecurityPolicy` refuses a user policy once a domain
  policy is in force. The cache is the class `PolicyCache.PolicyCache`,
  whose methods are proved against the functions of `Policy`.
- **`StringLocateSubstring`** (`magick/string-private.h`). This is the
  case-insensitive substring search used when the C library has no
  `strcasestr`.

Four shared modules support the rest. `Bits` holds powers of two, bit tests,
OR and shifts on naturals. `Wrappers` holds `Option` and `Result`.
`QuantumTypes` holds the Q16 sample type and its scalings. `QuantumStream`
holds byte order, the cursor, `Step` and `Run`.

The model follows the code where the code and its documentation differ. A
VIFF data plane without a map whose samples all hold one non-zero value is
rescaled to `QuantumRange` in exact arithmetic (`scale_factor =
QuantumRange/min_value`, then `min_value = 0`), not to zero.
`ViffSamples.ScaledConstant` states this. The build computes the rescale in
floating point (see `ViffSamples.ConvertSamples` under "## Left out").
Likewise, the BGR routine writes blue first only at 8, 16 and 32 bits. At
every other depth it writes red, green, blue, as the RGB routine does, and
`QuantumLayouts.BGRLayout` keeps that order. The same holds for BGRA and
BGRO at 10 bits.

## Model

| member | source | states |
|---|---|---|
| QuantumExport.RoutineError | magick/quantum-export.c:1130-1135 | The black and CMYK routines refuse an image that is not CMYK with ColorSeparatedImageRequired, and the index routines refuse a non-colormapped image with ColormappedImageRequired; every other routine raises nothing. |
| QuantumExport.AssociateAlpha | magick/quantum-export.c:3882-3902 | With associated alpha, each of the image's `columns` pixels has red, green and blue multiplied by its alpha fraction, clamped; pixels beyond them and the opacities are unchanged. |
| QuantumExport.AssociateOpaque | magick/quantum-export.c:3896-3899 | Associating an opaque pixel leaves it unchanged. |
| QuantumExport.AssociateTransparent | magick/quantum-export.c:3896-3899 | Associating a fully transparent pixel makes it black. |
| QuantumExport.AssociateDarkens | magick/quantum-export.c:3896-3899 | Association never raises a colour channel. |
| QuantumExport.SwapRedGreen | magick/quantum-export.c:3903-3922 | For CbYCr and CbYCrA, red and green of the first `number_pixels` pixels are exchanged and nothing else changes. |
| QuantumExport.SwapRowTwice | magick/quantum-export.c:4044-4063 | The exchange after the export undoes the one before it: the row is restored. |
| QuantumExport.ExportQuantumPixels | magick/quantum-export.c:3836-4065 | Returns the extent it is given and the routine's error. The row is associated when alpha is associated. The state is reset, and the buffer then holds exactly the writes of the routine's layout for the row (corrected in the four places "## Findings" names), or no writes when the routine refuses the image. |
| QuantumPacker.Packer.ResetQuantumState | magick/quantum-export.c:3925 | Pending bits and pending word are cleared; buffer and position unchanged. |
| QuantumPacker.Packer.PopChar | magick/quantum-export.c:262 | One byte written at the position, which advances by one. |
| QuantumPacker.Packer.PopShort | magick/quantum-export.c:287 | Two bytes in the configured byte order; `QuantumStream.ShortRoundTrip` reads them back as the short. |
| QuantumPacker.Packer.PopLong | magick/quantum-export.c:315 | Four bytes in the configured byte order; `QuantumStream.LongRoundTrip` reads them back as the word. |
| QuantumPacker.Packer.Skip | magick/quantum-export.c:262-264 | The pad after a pixel advances the position and writes nothing. |
| QuantumPacker.Packer.PopQuantum | magick/quantum-export.c:177-208 | The low `depth` bits of the value are appended to the bit stream, most significant first, after the pending bits. |
| QuantumPacker.Packer.PopChunk | magick/quantum-export.c:188-206 | One pass of the loop fills as many bits of the current byte as are free (clearing a fresh byte first) and consumes that many bits of the value. |
| QuantumPacker.Packer.PopQuantumLong | magick/quantum-export.c:210-240 | The `depth` bits of the value go into the pending 32-bit word above its used bits, least significant first; a full word is written and a new one started. |
| QuantumPacker.Packer.PopLongPass | magick/quantum-export.c:219-238 | One pass of the 32-bit loop, as `LongPass` says. |
| QuantumPacker.Packer.ExportRow | magick/quantum-export.c:242-353 | A routine that writes pixel after pixel performs the per-pixel writes of its layout for every pixel, in order. |
| QuantumPacker.Packer.ExportRotation10 | magick/quantum-export.c:3384-3440 | The 10-bit unpacked four-channel layout: a running sample count picks each sample's slot, and the word is written and cleared when its third slot is filled. |
| QuantumPacker.Packer.RotatePixel | magick/quantum-export.c:3405-3438 | The four samples of one pixel go through the rotation in order, and the count advances by four. |
| QuantumPacker.Packer.RotateSample | magick/quantum-export.c:3414-3436 | One sample is ORed into slot `n mod 3`, and the word is written when that was slot 2. |
| QuantumPacker.Packer.ExportPairs12 | magick/quantum-export.c:3140-3253 | The 12-bit unpacked RGB layout: samples two at a time, each in the high bits of a short, then the pad; an odd last sample alone. |
| QuantumPacker.Packer.ExportGray10 | magick/quantum-export.c:2044-2076 | The 10-bit unpacked gray layout in its corrected form: three lumas to a word, and one or two left over in a last word. |
| QuantumPacker.Packer.ExportCbYCrY | magick/quantum-export.c:1338-1456 | CbYCrY: for each pair of pixels, four components taken in rotation from the pair's first pixel, written as two words or six samples, then the pad. |
| QuantumPacker.Packer.ExportFields | magick/quantum-export.c:1956-2005 | The bit-packed layouts (1-bit gray, 4-bit gray, 1-bit and 4-bit index, 1-bit gray-alpha and index-alpha): whole bytes first, then the fields left over in a last byte whose unused bits are zero (corrected form for the gray-alpha and index-alpha rows). |
| QuantumPacker.Packer.EmitFieldByte | magick/quantum-export.c:1971-1988 | One byte of fields is written and the field position advances by the fields per byte. |
| QuantumPacker.PackFieldByte | magick/quantum-export.c:1972-1987 | The byte holding fields `vs` has each one ORed in below the ones before it, starting at the most significant bits. |
| QuantumPacker.PairComponents | magick/quantum-export.c:1362-1383 | The four components of a CbYCrY pair come from pixel `t`, in rotation from component `n0`; the count advances by four. |
| QuantumPacker.Packer.ExportLayout | magick/quantum-export.c:3927-4043 | The dispatch: for every layout the buffer ends as the layout's writes for the row say. |
| QuantumStream.ShortRoundTrip | magick/quantum-export.c:278 | A short written in either byte order reads back as itself. |
| QuantumStream.LongRoundTrip | magick/quantum-export.c:315 | A 32-bit word written in either byte order reads back as itself. |
| QuantumStream.RunAppend | magick/quantum-export.c:3927-4043 | Writes that fit in sequence can be split anywhere: running `a + b` is running `a`, then `b`. |
| QuantumPacking.PackChunksStream | magick/quantum-export.c:177-208 | After packing `i` bits, the bit stream holds the earlier bits unchanged, followed by the value's `i` bits, most significant first. |
| QuantumPacking.PackChunksShape | magick/quantum-export.c:177-208 | Packing advances the bit position by exactly `i`, leaves the bits after it clear and touches no byte outside the packed range. |
| QuantumPacking.PackLongSplitsWord | magick/quantum-export.c:210-240 | The value's bits that fill the pending word complete it, and the rest start the next word. |
| QuantumProperties.SlotWordFields | magick/quantum-export.c:3102-3105 | A 10-bit word built from three samples holds each sample again in its slot. |
| QuantumProperties.Gray10Keeps | magick/quantum-export.c:2049-2058 | In the corrected 10-bit gray layout, pixel `3g + s` is in slot `s` of word `g`. |
| QuantumProperties.Gray10RowKeeps | magick/quantum-export.c:2044-2076 | For the gray routine at 10 bits unpacked, every pixel's scaled luma is in the output: pixel `3g + s` is in slot `s` of write `2g`. |
| QuantumProperties.FieldBytesKeepRow | magick/quantum-export.c:1956-2005 | Field `i` of a bit-packed row is field `i mod k` of byte `i / k`. |
| QuantumProperties.BitFieldsRowKeeps | magick/quantum-export.c:2211-2268 | For the 1-bit and 4-bit routines, each pixel's field is in the output at that place. |
| QuantumProperties.FieldBytesLength | magick/quantum-export.c:1994-2004 | A row of `n` fields takes `n / k` bytes, rounded up. |
| QuantumProperties.CbYCrYReadsEvenPixels | magick/quantum-export.c:1362-1403 | CbYCrY reads only the first pixel of each pair: rows that agree on those pixels produce the same writes. |
| QuantumProperties.AlphaNibbleRange | magick/quantum-export.c:2279-2281 | The corrected 4-bit alpha runs from 0 (transparent) to 15 (opaque), is monotone, and is 15 for every alpha of at least 63488. |
| QuantumFindings.AlphaNibbleAgrees | magick/quantum-export.c:2279-2281 | The corrected 4-bit alpha is the routine's own `16*alpha/QuantumRange + 0.5` truncated and masked (the same expression as in the index-alpha routine, lines 2735-2737), for every alpha below 63488; from 63488 on it is 15. |
| QuantumFindings.AlphaNibbleWraps | magick/quantum-export.c:2279-2281 | As written, a nearly opaque pixel's alpha nibble is 0 (transparent), where the corrected nibble is 15. |
| QuantumFindings.Gray10LastPixelLost | magick/quantum-export.c:2059-2068 | As written, a row of `3g + 1` gray pixels ends with the word 0, where the corrected layout keeps the last pixel in slot 0. |
| QuantumFindings.GrayAlphaTrailing | magick/quantum-export.c:2254-2266 | How many left-over pixels the gray-alpha trailing loop writes: 2 of 3. |
| QuantumFindings.IndexAlphaTrailing | magick/quantum-export.c:2710-2722 | How many left-over pixels the index-alpha trailing loop writes: 1 of 2 and 2 of 3. |
| QuantumFindings.GrayAlphaThirdPixelLost | magick/quantum-export.c:2254-2266 | Three gray-alpha pixels: as written the byte is 0x00, where the corrected byte holds the third pixel (0x04). |
| QuantumFindings.IndexAlphaSecondPixelLost | magick/quantum-export.c:2710-2722 | Two index-alpha pixels: as written the byte is 0x00, where the corrected byte holds the second pixel (0x10). |
| ViffFormat.IsVIFF | coders/viff.c:101-108 | True exactly when there are at least two bytes and they start 0xAB 0x01. |
| ViffFormat.ParseHeader | coders/viff.c:280-332 | Not VIFF unless the first byte is 0xAB; a short comment is an improper header, and short fields an early end of file. On success, the comment has 512 bytes with the last forced to 0. |
| ViffFormat.MSBLongRoundTrip | coders/viff.c:1088-1110 | A field written most significant byte first reads back as itself in big-endian order. |
| ViffFormat.CommentProperty | coders/viff.c:300-302 | The comment property is set exactly when the comment string is longer than four characters. |
| ViffFormat.CheckHeader | coders/viff.c:333-380 | A header passes exactly when its pixel count is between 1 and eight times the blob size, it has 1 to 4 bands, and its storage type, raw encoding, map storage type, colour model, implicit locations and single image are all supported. Otherwise the first failing check, in the reader's order, gives its own error. |
| ViffFormat.MapScheme | coders/viff.c:381-382 | A map without rows means no map scheme. |
| ViffSamples.SwapShorts | coders/viff.c:553-558 | The first `length` bytes of 16-bit samples are put in host order. |
| ViffSamples.SwapLongs | coders/viff.c:559-564 | The first `length` bytes of 32-bit samples are put in host order. |
| ViffSamples.HostOrderTwice | coders/viff.c:548-566 | Swapping twice restores the buffer. |
| ViffSamples.SwappedLong | coders/viff.c:559-564 | A swapped 32-bit sample decodes little-endian as the original decodes big-endian. |
| ViffSamples.ScanRange | coders/viff.c:578-603 | The scan finds the least and the greatest of the first `max_packets` samples. |
| ViffSamples.RangeBounds | coders/viff.c:588-603 | Least and greatest bound every sample and occur among them. |
| ViffSamples.ScaledSpan | coders/viff.c:604-613 | With distinct least and greatest, the rescaling in exact arithmetic maps the samples' span onto 0..QuantumRange, preserving order. |
| ViffSamples.ScaledConstant | coders/viff.c:604-611 | In exact arithmetic, a constant plane rescales to 0 when the value is 0 and to QuantumRange otherwise. |
| ViffSamples.ConvertSamples | coders/viff.c:618-640 | Each of the first `max_packets` samples is rescaled in exact arithmetic when there is no map, clamped, and stored as a byte; the rest of the buffer is kept. |
| ViffSamples.ConvertBytes | coders/viff.c:618-640 | Unscaled one-byte samples convert to themselves. |
| ViffRaster.Ramp | coders/viff.c:386-401 | The linear ramp runs from black to white, and its 256-entry form is the byte scaling. |
| ViffRaster.LoadColormap | coders/viff.c:466-491 | Map values load red, green and blue from the first plane, then green from the second and blue from the third, each as a byte scaled to a quantum. |
| ViffRaster.UnpackRow | coders/viff.c:658-683 | A bitmap row unpacks least significant bit first: a set bit is index 0 (black), a clear bit index 1. |
| ViffRaster.UnpackBitmap | coders/viff.c:652-694 | The bitmap is the rows unpacked in turn, each starting on a byte boundary. |
| ViffRaster.CopyIndexes | coders/viff.c:696-714 | A colormapped raster takes one index per byte. |
| ViffRaster.GatherPlanar | coders/viff.c:716-761 | A direct-colour pixel takes red, green, blue and (with a matte) alpha from four planes of `n` bytes. |
| ViffDecode.RampColors | coders/viff.c:392-398 | Bit storage gets a 2-entry ramp, one-byte storage 256 entries, and deeper storage 256 or 65536 by depth. |
| ViffDecode.MapBytesCount | coders/viff.c:413-423 | The map's byte count is entry size times rows times columns. |
| ViffDecode.ReadMap | coders/viff.c:383-497 | The colormap stage fails on an unsupported map scheme and on a map larger than the blob. Without a map it consumes nothing; with one it consumes the map bytes. |
| ViffDecode.BufferFits | coders/viff.c:522-542 | The zeroed buffer holds all the data bytes, every sample and every pixel. |
| ViffDecode.DataError | coders/viff.c:534-547 | The data stage fails exactly when the blob holds fewer than `bytes_per_pixel * max_packets` bytes after the map. |
| ViffDecode.DecodeData | coders/viff.c:534-761 | Succeeds exactly when the data is there, consumes exactly the data bytes, and otherwise fails with ImproperImageHeader. |
| ViffDecode.ReadOne | coders/viff.c:280-766 | One image consumes at least its header and never reads past the blob; anything but 0xAB at the offset is NotAVIFFImage. |
| ViffDecode.ReadAll | coders/viff.c:773-791 | Another image is read while the next byte is the identifier; a successful read returns at least one image. |
| ViffReader.ToHostOrder | coders/viff.c:548-566 | Big-endian 16-bit and 32-bit samples are swapped on a little-endian host; everything else is left alone. |
| ViffReader.ReadColormap | coders/viff.c:383-497 | The colormap stage computes `ReadMap`. |
| ViffReader.ReadSamples | coders/viff.c:537-640 | The sample buffer is the padded data, in host order and converted (rescaled in exact arithmetic); packed bitmap bytes are not rescaled (the corrected form of viff.c:569-570, see "## Findings"). |
| ViffReader.FillRaster | coders/viff.c:645-761 | The raster is the bitmap, the index bytes, or the planar pixels. |
| ViffReader.ReadOneImage | coders/viff.c:280-766 | One image is read as `ReadOne` says. |
| ViffReader.ReadVIFFImage | coders/viff.c:141-796 | The whole file is read as `ReadAll` from offset 0 says. |
| ViffEncode.CommentBufferString | coders/viff.c:1012-1016 | The comment field holds nothing when the image has no comment. Otherwise it holds the comment string cut to 511 bytes, followed by a 0. |
| ViffEncode.HeaderBytes | coders/viff.c:1075-1112 | The header is 1024 bytes. |
| ViffEncode.IndexBytes | coders/viff.c:1177-1193 | Each index is written cut to a byte. |
| ViffEncode.PackBitsBit | coders/viff.c:1217-1231 | Bit `k` of a packed row byte is the `k`-th dark flag. |
| ViffEncode.MonoBytesRow | coders/viff.c:1209-1239 | Row `y` of the bitmap raster is that row's packed dark flags. |
| ViffWriter.SetComment | coders/viff.c:1012-1016 | The comment field's first byte is cleared, and the image's comment (at most 511 bytes) is copied in with its terminator. The other bytes keep the previous scene's contents. |
| ViffWriter.FillPlanes | coders/viff.c:1121-1151 | Direct colour: red, green, blue and (with a matte) alpha planes of one byte per pixel. |
| ViffWriter.DumpColormap | coders/viff.c:1161-1172 | The colormap is written as a red, a green and a blue plane of bytes. |
| ViffWriter.FillIndexes | coders/viff.c:1177-1193 | Colormapped: one index byte per pixel. |
| ViffWriter.PackRow | coders/viff.c:1215-1231 | A bitmap row's flags are shifted into bytes, the last byte shifted down; the bytes before the row are untouched. |
| ViffWriter.PackMonochrome | coders/viff.c:1209-1239 | The bitmap raster holds each row's packed dark flags, in the corrected form where every pixel's own luma is tested. |
| ViffWriter.FillGray | coders/viff.c:1246-1264 | Gray: one byte per pixel, the luma clamped and scaled to eight bits (corrected form). |
| ViffWriter.WriteRaster | coders/viff.c:1121-1264 | The bytes after the header are the colormap dump (for a colormapped image) followed by the raster of the image's representation. |
| ViffWriter.WriteScene | coders/viff.c:1000-1266 | One scene: its header with the updated comment field, then its map and raster. |
| ViffWriter.WriteVIFFImage | coders/viff.c:894-1276 | The file is every scene in turn when joining, and the first scene alone otherwise. |
| ViffRoundTrip.HeaderRoundTrip | coders/viff.c:1075-1112 | A written header parses back as the header the writer describes. |
| ViffRoundTrip.WrittenHeaderChecks | coders/viff.c:333-380 | A written header passes every reader check. |
| ViffRoundTrip.CommentRoundTrip | coders/viff.c:1012-1016 | The comment property read back is the image's comment cut to 511 bytes, kept only when longer than four. |
| ViffRoundTrip.MapRoundTrip | coders/viff.c:1161-1172 | A dumped colormap reads back quantized to eight bits per channel. |
| ViffRoundTrip.RasterReadBack | coders/viff.c:1121-1264 | Each of the four rasters reads back as the raster the writer means. |
| ViffRoundTrip.BitmapReadBack | coders/viff.c:1209-1239 | A packed bitmap unpacks to the dark flags (0 dark, 1 light), row by row. |
| ViffRoundTrip.ImageReadBack | coders/viff.c:1000-1266 | One written image reads back and ends exactly where the writer stopped. |
| ViffRoundTrip.ReadAllWritten | coders/viff.c:773-791 | The images written from scene `i` on read back as those scenes when joining, and as scene `i` alone otherwise. |
| ViffRoundTrip.EncodeVIFFReadBack | coders/viff.c:1000-1273 | A written file is recognized as VIFF and reads back as every image when joining, and the first image otherwise. |
| ViffFindings.BitmapRescaled | coders/viff.c:569-570 | As written, a bitmap read without a map is rescaled, so 0x01 becomes 0xFF (eight dark pixels); corrected, the bytes are left alone. |
| ViffFindings.SecondPixelLost | coders/viff.c:1217-1222 | As written, a black-then-white row packs as 0x03 (both dark); corrected, 0x01. |
| ViffFindings.MidGrayDarkened | coders/viff.c:1253 | As written, a mid-gray pixel is stored as 0 (black); corrected, 128. |
| Policy.Find | magick/policy.c:321-327 | The search answers the first policy whose domain matches (or any domain when none was given) and whose name equals the key ignoring case; none answers before it. |
| Policy.ColonAt | magick/policy.c:300-303 | The first colon of the name, or its length when there is none. |
| Policy.Truncated | magick/policy.c:286-288 | The name is copied into a buffer of MagickPathExtent: the copy is a prefix of the name, the whole name when it fits and its first MagickPathExtent - 1 characters otherwise; a null name copies as empty. |
| Policy.SplitDomainParts | magick/policy.c:299-309 | Without a colon the domain is undefined and the key is the name. Otherwise the text before the first colon is parsed as the domain and the rest is the key. |
| Policy.StrippedHasNoSpace | magick/policy.c:289-295 | The stripped name holds no white space and only characters of the name; a name without white space is unchanged. |
| Policy.StrippedAppend | magick/policy.c:289-295 | Stripping works character by character: stripping a concatenation concatenates the stripped parts. |
| Policy.KeyIgnoresSpace | magick/policy.c:289-309 | A white-space character anywhere in the name changes neither domain nor key. |
| Policy.MoveToFrontPositions | magick/policy.c:328-330 | Moving the hit to the front keeps the same policies: the hit comes first, those before it move up by one, and those after it stay. |
| Policy.LookupFinds | magick/policy.c:313-332 | A lookup answers nothing exactly when no policy matches, and then leaves the cache alone. Otherwise it answers a matching policy, which is first in the reordered cache. |
| Policy.LookupKeeps | magick/policy.c:313-332 | Every lookup answers a policy of the cache, if any, and keeps the same policies. |
| Policy.WildcardLookup | magick/policy.c:316-320 | A null or `*` name answers the first policy and does not reorder the cache. |
| Policy.LookupTwice | magick/policy.c:321-330 | Repeating a lookup answers the same policy and leaves the cache as the first one left it. |
| Policy.FindIgnoresCase | magick/policy.c:324 | Keys that differ only in letter case find the same policy. |
| Policy.LastMatchWins | magick/policy.c:646-662 | With rights requested, the last policy whose domain and pattern match decides: the answer is whether it grants the last requested right (read, then write, then execute). |
| Policy.NoMatchAuthorizes | magick/policy.c:642-664 | Without a matching policy, or without requested rights, access is authorized. |
| Policy.AppendedPolicyDecides | magick/policy.c:646-662 | A policy appended later that matches overrides every earlier policy. |
| Policy.ListedExactly | magick/policy.c:395-401 | A policy is listed exactly when it is in the cache, is not stealth and its name matches the pattern. |
| Policy.ListedAppend | magick/policy.c:395-401 | Listing keeps cache order: the listing of a concatenation is the concatenation of the listings. |
| Policy.LookupClosesGuard | magick/policy.c:1111-1117 | After a lookup that finds a policy with a domain, the cache starts with it, so a user policy is refused. |
| Policy.FindBeforeAppended | magick/policy.c:321-327 | Policies appended to the cache do not change what an existing match finds. |
| PolicyCache.AcquirePolicyString | magick/policy.c:436-456 | Fails exactly when the length plus the pad overflows `size_t`. Otherwise it returns a fresh buffer of length plus pad that holds the text and a NUL after it. |
| PolicyCache.StripSpaces | magick/policy.c:289-295 | The in-place loop leaves the name with its white space removed. |
| PolicyCache.NormalizeName | magick/policy.c:286-309 | The buffer steps compute the domain and key of `Key`. |
| PolicyCache.PolicyCache.Search | magick/policy.c:321-327 | The scan stops at the position `Find` answers, or at the end. |
| PolicyCache.PolicyCache.GetPolicyInfo | magick/policy.c:266-333 | Answers and reorders as `Lookup` says, and keeps every cached string within `size_t`. |
| PolicyCache.PolicyCache.IsRightsAuthorized | magick/policy.c:617-665 | The answer is `Decision` over the cache. |
| PolicyCache.PolicyCache.GetPolicyInfoList | magick/policy.c:362-406 | Empty cache: no list. Otherwise a fresh list sized for the whole cache holds the listed policies in order and a null after them; the count is their number. |
| PolicyCache.PolicyCache.GetPolicyList | magick/policy.c:458-502 | The same listing, holding copies of the names. |
| PolicyCache.PolicyCache.GetPolicyValue | magick/policy.c:526-549 | Reorders as the lookup does. Null when no policy is found or its value is null or empty; otherwise a fresh copy of the value. |
| PolicyCache.PolicyCache.SetMagickSecurityPolicy | magick/policy.c:1096-1123 | A null policy, or a cache whose first policy has a domain, is refused with the cache unchanged. Otherwise the loaded policies are appended, and the result is the load status and then the resource genesis. Every cached string stays within `size_t`. |
| StringSearch.StringLocateSubstring | magick/string-private.h:42-79 | Null arguments give null. A result is the first position where the needle matches ignoring case, and null means it matches nowhere. |
| StringSearch.MatchIgnoresCase | magick/string-private.h:65-71 | A match does not depend on the case of the needle's letters. |
| StringSearch.LengthHaystackWraps | magick/string-private.h:58-60 | The bound as written is the number of start positions when the needle is at most one longer than the haystack, and wraps past the haystack when it is longer by two or more. |
| StringSearch.EmptyHaystackOverRead | magick/string-private.h:58-60 | For the empty haystack and the needle "ab", the bound as written is 2^64 - 1. |

## Left out

- QuantumExport.ExportQuantumPixels: the writes it promises are the corrected ones in four places, not the routines' own: the last word of a 10-bit gray row of `3g + 1` pixels, the left-over pixels of the 1-bit gray-alpha and index-alpha rows, and the 4-bit alpha of nearly opaque pixels (15, not 0). The first four rows under "## Findings" give each, with the as-written member beside it.
- ViffReader.ReadSamples: packed bitmap bytes read without a map are not rescaled, where viff.c:569-570 rescales them (fifth row under "## Findings").
- ViffReader.ReadVIFFImage: it reads bitmaps through `ReadSamples`, so it returns the corrected bitmap, not the rescaled one.
- ViffSamples.ConvertSamples: the rescale `(value - min_value) * scale_factor` is computed in exact arithmetic, where viff.c:604-631 computes it in double precision and truncates the result to a quantum. For some spans the build places the greatest sample just below `QuantumRange`, one level lower. For example, a 2-byte plane from 0 to 13 can give 65534, stored as 254 where the model stores 255. The same holds for `ViffReader.ReadSamples`, which converts through this member.
- ScaledSpan: it holds in exact arithmetic. In the build's doubles the greatest sample of some spans maps just below `QuantumRange` (see the `ViffSamples.ConvertSamples` line).
- ScaledConstant: it holds in exact arithmetic. In the build's doubles a constant plane of some values, 13 for one, can rescale to just below `QuantumRange` and so truncate to 65534.
- ExportGray10: a row of `3g + 1` pixels keeps its last pixel in slot 0 of a last word, where quantum-export.c:2059-2068 writes the word 0 (second row under "## Findings").
- ExportFields: the 1-bit gray-alpha and index-alpha rows write every left-over pixel, where quantum-export.c:2254-2266 and quantum-export.c:2710-2722 drop some (third and fourth rows under "## Findings").
- PackMonochrome: each pixel's own luma is tested, where viff.c:1217-1222 tests the first pixel's luma for every bit (sixth row under "## Findings").
- FillGray: it stores `ScaleQuantumToChar` of the clamped luma, where viff.c:1253 keeps the quantum's low byte (seventh row under "## Findings").
- ViffWriter.WriteVIFFImage: the bitmap raster tests each pixel's own luma, and the gray raster stores `ScaleQuantumToChar` of the luma, where viff.c:1217-1222 and viff.c:1253 do otherwise (sixth and seventh rows under "## Findings").

- Floating-point sample formats (half, single and double precision export) are not modelled. The model has no `format` field, so every depth uses the integer scalings.
- Luma is an input per pixel (`Texel.luma`, `SourceImage.luma`). The colorspace-dependent luma computation is not part of this model.
- QuantumTypes.ScaleQuantumToAny: the rounding is exact, where the build rounds a double-precision quotient. The two agree for sample depths up to 32 bits. The model's `Pack` path accepts any depth. For deeper samples the build's result may differ from the exact rounding, and a full-scale 64-bit sample overflows the build's cast. The model captures neither.
- `quantum.h` and `quantum-private.h` are not part of this model. The scalings (`ScaleQuantumToChar`, `ScaleQuantumToAny`, `ClampToQuantum`, ...) are given Q16 non-HDRI definitions, with `QuantumRange` 65535. `PopCharPixel`, `PopShortPixel` and `PopLongPixel` are modelled from their use.
- The pixel cache, cache views, `GetQuantumExtent` and blob I/O are not modelled. A row and an index row are sequences, the extent is a parameter, and a blob is a byte sequence read from an offset.
- `ExportQuantumPixels`: the pixel buffer is the caller's; the default buffer from `GetQuantumPixels` is not modelled.
- VIFF reader: colourspace changes, ping and scene-count limits, progress monitors and `SyncImage` are not modelled. The pixels the bitmap loop writes before `SyncImage` replaces them from the indexes are not modelled either.
- VIFF reader: the colormap lookup in the direct-colour loop is not modelled. That loop runs only without a map and with three or four bands, where the image has no colours.
- VIFF reader and writer: allocation failures and heap-overflow checks (`MemoryAllocationFailed`) are not modelled, because the model never runs out of memory.
- VIFF writer: `TransformImageColorspace`, `SetImageGray` and the colour count are inputs (`direct`, `gray`, `colormap`).
- ViffSamples.Decode: float and double samples are decoded by a `RealCodec` parameter, since IEEE formats are not modelled.
- Policy cache loading (`AcquirePolicyCache`, `LoadPolicyCache`, the built-in policy map, `PolicyComponentGenesis` and `PolicyComponentTerminus`) is not modelled. The cache is a parameter of the constructor, and `SetMagickSecurityPolicy` takes the policies a load would append, its status and the resource genesis result as parameters.
- `IsPolicyCacheInstantiated` is not a separate member. A cache that cannot be acquired throws a fatal exception, so the model treats the cache as always present.
- `ListPolicyInfo` is not modelled, because it prints to a file.
- Semaphores and the linked-list iterator are not modelled, because the model is single-threaded.
- `GlobExpression` and `ParseCommandOption` are parameters (`glob`, `parse`), because their source is not part of this model.
- The policy fields `path`, `exempt`, `debug`, `semaphore` and `signature` are not modelled, because no modelled operation reads them.
- PolicyCache.AcquirePolicyString: requires `pad >= 1`, which every caller passes, so that the terminator fits. A failed allocation is the `UnableToAcquireString` error.
- StringSearch.StringLocateSubstring: the `strcasestr` branch is not modelled. The model is the fallback loop with the corrected bound. The as-written bound is `LengthHaystackAsWritten`.
- StringSearch.Upper: only the ASCII letters change case, as in the C locale; other locales are not modelled.
- The other helpers of `magick/string-private.h` are not part of this model.

## Findings

| source | as written | input that shows it | evidently intended | confidence | as-written member | corrected member |
|---|---|---|---|---|---|---|
| magick/quantum-export.c:2279-2281 | The 4-bit alpha is `(unsigned char)(16*alpha/QuantumRange+0.5) & 0xf`. | Any alpha of at least 63488, such as a fully opaque pixel: 16 masks to 0, so the pixel becomes transparent. | The same rounding held at 15 for opaque; below 63488 the values agree (`QuantumFindings.AlphaNibbleAgrees`). | not executed | QuantumFindings.AlphaNibbleWraps | QuantumProperties.AlphaNibbleRange |
| magick/quantum-export.c:2059-2068 | The tail of the 10-bit gray row tests `x++ < n-1` for slot 1 and `x++ < n` for slot 0. | A row of 4 pixels: the last pixel fails both tests, and its word is 0. | The one or two left-over pixels fill slots 0 and 1. | not executed | QuantumFindings.Gray10LastPixelLost | QuantumProperties.Gray10Keeps |
| magick/quantum-export.c:2254-2266 | The gray-alpha tail loop runs `for (bit=0; bit <= n%4; bit+=2)`. | Three pixels, the third opaque and bright: the byte is 0x00. | Every left-over pixel written (0x04). | not executed | QuantumFindings.GrayAlphaThirdPixelLost | QuantumProperties.BitFieldsRowKeeps |
| magick/quantum-export.c:2710-2722 | The index-alpha tail loop runs `for (bit=3; bit >= 4-n%4; bit-=2)`. | Two pixels, the second transparent: the byte is 0x00. | Every left-over pixel written (0x10). | not executed | QuantumFindings.IndexAlphaSecondPixelLost | QuantumProperties.BitFieldsRowKeeps |
| coders/viff.c:569-570 | Every storage type but one byte is rescaled when there is no map, bit storage included. | A 16-pixel bitmap with only the first pixel dark (bytes 0x01 0x00): 0x01 becomes 0xFF. | Packed bitmap bytes are left alone. | not executed | ViffFindings.BitmapRescaled | ViffRoundTrip.BitmapReadBack |
| coders/viff.c:1217-1222 | The monochrome loop never advances `p`, so every pixel tests the row's first luma. | A black-then-white row packs as 0x03. | Each pixel's own luma (0x01). | not executed | ViffFindings.SecondPixelLost | ViffRoundTrip.BitmapReadBack |
| coders/viff.c:1253 | A gray pixel is stored as `(unsigned char) ClampToQuantum(luma)`, the low byte of a 16-bit quantum. | Mid-gray (32768) is stored as 0. | `ScaleQuantumToChar`, giving 128. | not executed | ViffFindings.MidGrayDarkened | ViffRoundTrip.RasterReadBack |
| magick/string-private.h:58-60 | `length_haystack = strlen(haystack) - length_needle + 1` in `size_t`. | The haystack "" and the needle "ab": the bound is 2^64 - 1, and the search reads past the haystack's terminator. | No start position when the needle is longer than the haystack. | not executed | StringSearch.EmptyHaystackOverRead | StringSearch.StringLocateSubstring |
