# IconLib core, modelled in Dafny

This project models the core of IconLib, a C# library that reads, builds and
writes Windows icons. It covers the following parts of the library.

- **Icon library.** A `MultiIcon` is a library of named icons. Names are looked
  up without regard to case, and the library holds the index of the icon that
  is selected for saving.
- **Icon.** A `SingleIcon` is a named list of sub-images. No two sub-images
  share a size and a depth. `CreateFrom` builds the standard set of sub-images
  from one 32 bpp bitmap, chosen by `IconOutputFormat` flags.
- **Sub-image.** An `IconImage` is one sub-image. It is stored as a DIB: a
  BITMAPINFOHEADER, a colour table of RGBQUADs, an XOR (colour) plane and an
  AND (transparency) plane. `Set` builds it from a bitmap. When no mask is
  given, `Set` derives the AND plane from the pixels that have the
  transparent colour.
- **Encoders.** `ImageEncoder` holds those four parts. `BmpEncoder` reads and
  writes them as a headerless DIB.
- **Octree quantizer.** `OctreeQuantizer` builds a palette of at most
  `maxColors` colours. It uses an octree whose deepest nodes are folded
  together while the tree has too many leaves.
- **Euclidean quantizer.** `EuclideanQuantizer` maps every pixel to the nearest
  palette entry. It caches the answer per colour key and packs the indices at
  1, 4 or 8 bits per pixel.

There is one Dafny module per source file:

| Module | Source file |
|---|---|
| `Enums` | `Enums.cs` |
| `ImageEncoder` | `ImageEncoder.cs` |
| `BmpEncoder` | `BMPEncoder.cs` |
| `IconImages` | `IconImage.cs`, except the AND-plane derivation |
| `AndMask` | the AND-plane derivation of `IconImage.Set` |
| `SingleIcons` | `SingleIcon.cs` |
| `MultiIcons` | `MultiIcon.cs` |
| `OctreeQuantizer` | `OctreeQuantizer.cs` |
| `EuclideanQuantizer` | `EuclideanQuantizer.cs` |

Three small modules support the others:

- `Bytes`: bytes, little-endian fields, and C#'s integer casts.
- `Drawing`: the System.Drawing values the library works with, and the DIB
  row stride.
- `Wrappers`: `Option` and `Result`.

Code that changes objects in place keeps that form:

- The encoder, the sub-image, the icon, its enumerator, the icon library, the
  octree and the quantizer's colour cache are classes with `modifies`
  clauses.
- The derivation of the AND plane and the packing of indices work on arrays,
  with loop invariants.
- Each such method is proved against a specification function. The
  properties are proved about that function.

## Behaviour modelled as written

Some of the library's behaviour is surprising. The model keeps each case as
the code does it, and a lemma shows the consequence.

- **Directory entries.** The sub-image's own directory entries write the low
  byte of the full `biHeight` into `bHeight`. The one-image icon that the
  encoder's `Icon` getter builds halves it. See `IconImages.DirEntryHeight`.
- **24 bpp transparency test.** The derivation builds a colour from the three
  bytes of a 24 bpp pixel in stored order (blue, green, red), taking them as
  red, green and blue, and compares that colour with the transparent colour.
  `AndMask.Matches` keeps that order.
- **`SelectedIndex`.** The setter accepts any index below the count, negative
  ones included. `Remove` leaves the selected index alone, even when it now
  points past the end. `Save` refuses only an index of -1.
- **`IconOutputFormat.All`.** It is 127, so it leaves out `Win30` and
  `Win30Unpopular` (`Enums.AllValue`).
- **Masks in `CreateFrom`.** Each reduced sub-image takes the mask of the
  latest 32 bpp sub-image added before it. With no Windows XP flag there is
  none: the mask is read from a null reference (`SingleIcons.MissingMask`).
  Without `WinXPUnpopular`, the 24-pixel reduced sub-image takes the mask of
  the 32-pixel one, whose size `Set` rejects (`SingleIcons.StaleMask`).
- **Early exits of `CreateFrom`.** The icon is cleared first, and the first
  `Add` that throws ends the call, keeping the sub-images added before it
  (`SingleIcons.CreateFromPlan`, `SingleIcons.CleanRun`). With Vista, a
  source over 256 pixels leaves the icon empty. A square source of a size
  that is also resized (48, 32 or 16 pixels under the default flags) makes
  that resized `Add` throw ImageAlreadyExistsException
  (`SingleIcons.DefaultPlan`).
- **Octree shift counts.** `GetRightShiftCount` and `GetLeftShiftCount` are
  stubs that return -1 and 8.
  - C# uses only the low five bits of a shift count, so the 32-bit and 16-bit
    samples are shifted right by 31. Every channel is then 0:
    `OctreeQuantizer.SampleAt`.
  - Only 24 bpp images are sampled with their real colours.
- **Octree palette.** `GetPaletteColors` only looks at the root. It writes one
  colour when the root is a leaf and none otherwise. The clearing loop then
  starts one entry after the last entry written, so entry 1 (or entry 0)
  keeps the stock palette's colour (`OctreeQuantizer.EmitPalette`).
  - The tree's root is a leaf only when the tree has been folded down to at
    most eight leaves. With the 16 and 256 colours that the Euclidean
    quantizer asks for, that never happens. Its 4 and 8 bpp palettes are
    therefore the stock palette's entry 0 followed by transparent black
    (`OctreeQuantizer.CreatePalette`, `EuclideanQuantizer.ChoosePalette`).
    Every pixel then gets index 0 or 1 (`EuclideanQuantizer.QuantizedIndex`).
- **Octree sums.** A node's red, green and blue sums are `uint` fields, so
  they wrap at 2^32. `GetPaletteColors` divides the wrapped sum by the pixel
  count. Up to 16843009 samples (255 times that is 2^32 - 1) no sum wraps,
  and a leaf's colour is the average of its samples. Past that the colour
  can be far off: a white image of 16851024 pixels with one black pixel
  averages 254 in each channel, but its leaf colour is black
  (`OctreeQuantizer.WrappedSumTurnsBlack`).
- **1 bpp packing.** The Euclidean quantizer's 1 bpp packing shifts the mask
  by `(x - 1) & 7`, and it moves to the next byte after pixel `x` when
  `x % 8 == 0 && x != 0`.
  - Pixel `x >= 1` lands one bit position to the left of where a packed
    monochrome row keeps it (`EuclideanQuantizer.Pack1Reads`).
  - Pixel 0 goes to the lowest bit of byte 0. Pixel 8 overwrites that bit, so
    pixel 0 survives only in rows of at most eight pixels
    (`EuclideanQuantizer.Pack1LosesFirstPixel`,
    `EuclideanQuantizer.Converted1First`).
- **Mask table.** The mask `0x80 >> (x & 7)` is written as a table of its
  eight values (`AndMask.Mask`).
- **`Drawing.Area`.** Strides and plane sizes are products. `Drawing.Area`
  spells them out as repeated additions, and `Drawing.AreaIsProduct` proves
  that this is the product.

## Model

Source paths are relative to the repository root.

| member | source | states |
|---|---|---|
| Enums.BasicFlagsArePowersOfTwo | src/IconLib/Enums.cs:95-107 | the nine single flags are bits 0 to 8 in declaration order, so no two share a bit |
| Enums.CompositeValues | src/IconLib/Enums.cs:108-111 | FromWinXP, FromWin95, FromWin31 and FromWin30 are 3, 11, 43 and 171, and each contains every flag of the next newer one |
| Enums.AllValue | src/IconLib/Enums.cs:112 | All is 127: it has every flag of Windows 95 and later and neither Win30 flag |
| Enums.Code | src/IconLib/Enums.cs:64-74 | every IconImageFormat value fits in a byte |
| Enums.FromCode | src/IconLib/Enums.cs:64-74 | a numeric value that names a member names the member whose value it is |
| Enums.CodesRoundTrip | src/IconLib/Enums.cs:64-74 | every member is recovered from its numeric value, so BMP, PNG and UNKNOWN have distinct values |
| Drawing.StrideIsLeastDwordRow | src/IconLib/BitmapEncoders/BMPEncoder.cs:42 | the DIB row size is the least multiple of four bytes that holds the row's pixels |
| ImageEncoder.HeaderBytes | src/IconLib/BitmapEncoders/BMPEncoder.cs:55 | a written BITMAPINFOHEADER takes 40 bytes |
| ImageEncoder.HeaderRoundTrip | src/IconLib/BitmapEncoders/BMPEncoder.cs:31 | a header written out and read back, whatever follows it, is the same header |
| ImageEncoder.QuadBytes | src/IconLib/BitmapEncoders/BMPEncoder.cs:58-62 | a colour table takes four bytes per entry |
| ImageEncoder.ReadQuads | src/IconLib/BitmapEncoders/BMPEncoder.cs:34-39 | a buffer reads as one entry per four bytes |
| ImageEncoder.QuadsRoundTrip | src/IconLib/BitmapEncoders/BMPEncoder.cs:34-39 | a colour table written out and read back is the same table |
| ImageEncoder.ColorsInPalette | src/IconLib/BitmapEncoders/ImageEncoder.cs:112-116 | biClrUsed when set (negative once it reaches 2^31, as the int cast reads it), else 2^biBitCount up to 8 bits, else 0 |
| ImageEncoder.ImageSize | src/IconLib/BitmapEncoders/ImageEncoder.cs:118 | header, colour table and both planes in bytes, whenever the int sum does not overflow |
| ImageEncoder.PaletteByteCount | src/IconLib/BitmapEncoders/ImageEncoder.cs:64 | four bytes per colour in the palette, whenever the int product does not overflow |
| ImageEncoder.PaletteBytes | src/IconLib/BitmapEncoders/ImageEncoder.cs:64-68 | the copied colour table is exactly the announced byte count long |
| ImageEncoder.DibBytes | src/IconLib/BitmapEncoders/BMPEncoder.cs:52-69 | the DIB is the 40 header bytes, the colour-table bytes and both planes |
| ImageEncoder.DibLengthIsImageSize | src/IconLib/BitmapEncoders/ImageEncoder.cs:118 | without overflow the recorded ImageSize is the number of bytes the DIB occupies |
| ImageEncoder.LowByte | src/IconLib/BitmapEncoders/ImageEncoder.cs:46-49 | a (byte) cast keeps the value modulo 256 |
| ImageEncoder.IconHeadBytes | src/IconLib/BitmapEncoders/ImageEncoder.cs:38-57 | the ICONDIR and its one entry take 22 bytes |
| ImageEncoder.IconBytes | src/IconLib/BitmapEncoders/ImageEncoder.cs:32-82 | the one-image icon exists exactly when the colour-table byte count is not negative |
| ImageEncoder.IconLayout | src/IconLib/BitmapEncoders/ImageEncoder.cs:36-74 | the icon file holds an ICONDIR of type 1 and count 1, then an entry with the low bytes of width, half height and colour count, ImageSize as byte count and offset 22, then the DIB at offset 22 |
| ImageEncoder.EntryValues | src/IconLib/BitmapEncoders/ImageEncoder.cs:44-56 | the entry's field values, with biHeight halved and the byte count equal to ImageSize |
| ImageEncoder.Encoder.constructor | src/IconLib/BitmapEncoders/ImageEncoder.cs:25-30 | a new encoder has a zero header, no colours and empty planes |
| ImageEncoder.Encoder.SetHeader | src/IconLib/BitmapEncoders/ImageEncoder.cs:84-88 | replaces the header and nothing else |
| ImageEncoder.Encoder.SetColors | src/IconLib/BitmapEncoders/ImageEncoder.cs:90-94 | replaces the colour table and nothing else |
| ImageEncoder.Encoder.SetXor | src/IconLib/BitmapEncoders/ImageEncoder.cs:96-104 | installs the XOR plane and records its length as biSizeImage |
| ImageEncoder.Encoder.SetAnd | src/IconLib/BitmapEncoders/ImageEncoder.cs:106-110 | replaces the AND plane and nothing else |
| ImageEncoder.Encoder.CopyFrom | src/IconLib/BitmapEncoders/ImageEncoder.cs:128-134 | takes over the other encoder's header, colours and plane arrays, sharing the arrays |
| BmpEncoder.RowStride | src/IconLib/BitmapEncoders/BMPEncoder.cs:41-46 | whenever the wrapped product fits an int, the reader's row size is the DWORD-aligned DIB stride |
| BmpEncoder.FillBytes | src/IconLib/BitmapEncoders/BMPEncoder.cs:44 | each byte of a read buffer is the stream's byte at that place, or zero past the stream's end |
| BmpEncoder.Parse | src/IconLib/BitmapEncoders/BMPEncoder.cs:28-50 | a loaded sub-image has ColorsInPalette entries and planes of the lengths the header's size and depth give |
| BmpEncoder.ShortXorTail | src/IconLib/BitmapEncoders/BMPEncoder.cs:43-44 | on a short stream the missing tail of the XOR plane reads as zeros |
| BmpEncoder.RoundTrip | src/IconLib/BitmapEncoders/BMPEncoder.cs:28-69 | what Write emits, followed by anything, is read back as the same header, colour table and planes |
| BmpEncoder.Read | src/IconLib/BitmapEncoders/BMPEncoder.cs:28-50 | fails exactly when Parse fails, with the same fault, and otherwise leaves the parsed sub-image in fresh arrays |
| BmpEncoder.Write | src/IconLib/BitmapEncoders/BMPEncoder.cs:52-69 | writes the sub-image's DIB, and fails exactly when the colour-table byte count is negative |
| IconImages.SizeOf | src/IconLib/IconImage.cs:56 | width as an int, and half of biHeight, which counts the rows of both planes |
| IconImages.PixelFormatOf | src/IconLib/IconImage.cs:58-80 | undefined exactly for a depth other than 1, 4, 8, 16, 24 and 32; otherwise a format of that depth |
| IconImages.PixelFormatOfBits | src/IconLib/IconImage.cs:58-80 | each format reads back as itself, except 16 bpp as RGB 565 and the other 32 bpp formats as ARGB |
| IconImages.DirEntryOf | src/IconLib/IconImage.cs:191-208 | the ICONDIRENTRY differs from the one-image icon's entry only in the height byte and the offset, which is 0 |
| IconImages.GroupEntryOf | src/IconLib/IconImage.cs:210-225 | the GRPICONDIRENTRY agrees with the ICONDIRENTRY on every field the two share |
| IconImages.EntriesAgree | src/IconLib/IconImage.cs:191-225 | the byte count of both entries is ImageSize, which is the DIB length without overflow; reserved byte, offset and id are 0 |
| IconImages.DirEntryHeight | src/IconLib/IconImage.cs:191-208 | for an even biHeight the entry's height byte is twice the one-image icon's, modulo 256 |
| IconImages.GetIconImageFormat | src/IconLib/IconImage.cs:445-472 | BMP exactly when the first byte is 40; PNG exactly when the stream starts 0x89 'P' 'N'; the end of the stream exactly when those bytes are missing |
| IconImages.PngProbesAsPng | src/IconLib/IconImage.cs:457-461 | a stream that starts with the PNG signature probes as PNG |
| IconImages.DibProbesAsBmp | src/IconLib/IconImage.cs:455-456 | a stored DIB whose biSize is 40 probes as BMP |
| IconImages.SetHeaderOf | src/IconLib/IconImage.cs:263-275 | the header Set writes reads back as the bitmap's size and, for a non-empty table, its colour count |
| IconImages.SetHeaderReadsBack | src/IconLib/IconImage.cs:263-275 | the header Set writes reads back as the bitmap's depth, with one plane, BI_RGB and no important colours |
| IconImages.BuiltOf | src/IconLib/IconImage.cs:278-397 | the sub-image carries the header Set writes, with biSizeImage set to the XOR length, and the bitmap's colour table |
| IconImages.DeriveAnd | src/IconLib/IconImage.cs:291-387 | the AND plane starts as zeros and the derivation leaves the planes its specification gives, failing with NotSupported exactly at 16 bpp |
| IconImages.IconImage.constructor | src/IconLib/IconImage.cs:38-41 | a new sub-image holds an empty BMP encoder |
| IconImages.IconImage.SetFormat | src/IconLib/IconImage.cs:152-181 | UNKNOWN is rejected; the current format changes nothing; any other format gets a new encoder of that kind holding the same sub-image |
| IconImages.IconImage.Set | src/IconLib/IconImage.cs:231-411 | a mask of the wrong size or depth is rejected with nothing changed; otherwise header, colours and pixels are installed, and the AND plane is the mask or is derived from the pixels |
| IconImages.SetImageFramed | src/IconLib/IconImage.cs:263-397 | a sub-image built with a mask, at any depth with a colour table or above 8 bpp, has the plane lengths its header announces |
| IconImages.SetImageRoundTrip | src/IconLib/IconImage.cs:388-397 | a sub-image built with a mask, at any depth with a colour table or above 8 bpp, is written and read back unchanged by the BMP encoder and probes as BMP |
| IconImages.DerivedImageRoundTrip | src/IconLib/IconImage.cs:291-397 | the same for a sub-image whose AND plane Set derived in full |
| AndMask.XorKept | src/IconLib/IconImage.cs:318-382 | at 1, 16 and 24 bpp, and at 32 bpp with Color.Transparent, the XOR row is never rewritten |
| AndMask.Xor4Step | src/IconLib/IconImage.cs:323-332 | a matching 4 bpp pixel clears its nibble and nothing else |
| AndMask.Xor8Step | src/IconLib/IconImage.cs:333-342 | a matching 8 bpp pixel clears its byte and nothing else |
| AndMask.Xor32Step | src/IconLib/IconImage.cs:364-379 | a matching 32 bpp pixel clears blue, green and red; any other pixel gets alpha 255 |
| AndMask.And1Step | src/IconLib/IconImage.cs:320-322 | at 1 bpp a pixel copies its XOR byte into its AND byte |
| AndMask.AndBitStep | src/IconLib/IconImage.cs:323-370 | at other depths a matching pixel sets its bit of its AND byte and nothing else |
| AndMask.MaskBitsBit | src/IconLib/IconImage.cs:328 | bit j of an AND byte is set exactly when pixel j of that byte has been seen and matches |
| AndMask.AndRowBits | src/IconLib/IconImage.cs:314-383 | in a derived AND row, bit j of byte k is set exactly when pixel 8k+j exists and has the transparent colour |
| AndMask.AndRowCopy | src/IconLib/IconImage.cs:320-322 | at 1 bpp the derived AND row is the XOR bytes that hold pixels, and zero after them |
| AndMask.Xor4Pixel | src/IconLib/IconImage.cs:323-332 | in a derived 4 bpp row a transparent pixel reads as index 0 and any other keeps its index |
| AndMask.Xor8Pixel | src/IconLib/IconImage.cs:333-342 | in a derived 8 bpp row a transparent pixel reads as index 0 and any other keeps its index |
| AndMask.Xor32Pixel | src/IconLib/IconImage.cs:364-379 | in a derived 32 bpp row a transparent pixel has black colour and keeps its alpha, and any other keeps its colour with alpha 255 |
| AndMask.XorRowsRow | src/IconLib/IconImage.cs:310-313 | row y of the derived XOR plane, at offset strideC * y, is row y derived |
| AndMask.AndRowsRow | src/IconLib/IconImage.cs:310-313 | row y of the derived AND plane, at offset strideB * y, is derived from row y of the XOR plane |
| AndMask.RowFaultIs | src/IconLib/IconImage.cs:314-344 | the left-to-right scan finds exactly the first pixel of a row that throws, or none |
| AndMask.FirstFaultIs | src/IconLib/IconImage.cs:310-384 | the row-by-row scan finds exactly the place where the derivation stops |
| AndMask.StopsUnique | src/IconLib/IconImage.cs:310-384 | the derivation stops in at most one place |
| AndMask.Pixel1 | src/IconLib/IconImage.cs:320-322 | one 1 bpp pixel keeps the planes as the row specification gives them |
| AndMask.Pixel4 | src/IconLib/IconImage.cs:323-332 | one 4 bpp pixel throws exactly when its index is past the colour table, changing nothing; otherwise the planes follow the row specification |
| AndMask.Pixel8 | src/IconLib/IconImage.cs:333-342 | the same for one 8 bpp pixel |
| AndMask.Pixel24 | src/IconLib/IconImage.cs:345-355 | one 24 bpp pixel keeps the planes as the row specification gives them |
| AndMask.Pixel32Alpha | src/IconLib/IconImage.cs:357-363 | one 32 bpp pixel with Color.Transparent keeps the planes as the row specification gives them |
| AndMask.Pixel32Key | src/IconLib/IconImage.cs:364-379 | one 32 bpp pixel with any other colour keeps the planes as the row specification gives them |
| AndMask.DerivePixel | src/IconLib/IconImage.cs:316-382 | one pixel, by depth, throws exactly when the specification says and then changes nothing |
| AndMask.DeriveRow | src/IconLib/IconImage.cs:314-383 | a row is derived in full when no pixel throws, and otherwise up to its first pixel that throws |
| AndMask.Derive | src/IconLib/IconImage.cs:310-384 | the derivation stops at the first pixel that throws, if any, and leaves the planes Planes gives |
| SingleIcons.BuiltKey | src/IconLib/SingleIcon.cs:424-435 | the sub-image built from a bitmap reports the bitmap's size and depth |
| SingleIcons.RuleFor | src/IconLib/SingleIcon.cs:165-176 | the alpha channel is the transparent colour exactly for 32 bpp ARGB and PARGB bitmaps, else the top-left pixel's colour |
| SingleIcons.AppendDistinct | src/IconLib/SingleIcon.cs:424-436 | appending a sub-image with a new key keeps the keys distinct |
| SingleIcons.Build | src/IconLib/SingleIcon.cs:434-435 | a fresh BMP sub-image, built as Set builds it when nothing throws |
| SingleIcons.SingleIcon.constructor | src/IconLib/SingleIcon.cs:42-45 | a new icon has the name and no sub-images |
| SingleIcons.SingleIcon.IndexOf | src/IconLib/SingleIcon.cs:441-452 | the first sub-image with the size and depth, or -1 exactly when none has them |
| SingleIcons.SingleIcon.Add | src/IconLib/SingleIcon.cs:417-439 | refuses a taken key first, then a side over 256; otherwise appends the built sub-image; every failure leaves the list unchanged and keys stay distinct |
| SingleIcons.SingleIcon.Append | src/IconLib/SingleIcon.cs:434-438 | appends the sub-image once Set succeeded, keeping keys distinct |
| SingleIcons.SingleIcon.AddBitmap | src/IconLib/SingleIcon.cs:158-177 | adds with the colour RuleFor chooses; a 32 bpp ARGB bitmap from a PNG file is stored as PNG |
| SingleIcons.SingleIcon.RemoveAt | src/IconLib/SingleIcon.cs:85-97 | an index outside the list returns nothing and changes nothing; otherwise that sub-image is removed and returned, the others keeping their order |
| SingleIcons.SingleIcon.Clear | src/IconLib/SingleIcon.cs:80-83 | no sub-images remain and the name is kept |
| SingleIcons.Enumerator.constructor | src/IconLib/SingleIcon.cs:492-497 | the cursor starts before the first sub-image with no current one |
| SingleIcons.Enumerator.MoveNext | src/IconLib/SingleIcon.cs:513-525 | hands out the next sub-image and advances, or at the end clears Current and parks the cursor one past the count; what was handed out stays the list's prefix |
| SingleIcons.Enumerator.Reset | src/IconLib/SingleIcon.cs:529-533 | back before the first sub-image with no current one |
| SingleIcons.Rules | src/IconLib/SingleIcon.cs:300-395 | CreateFrom has sixteen conditional adds after the Vista one |
| SingleIcons.StepsMasks | src/IconLib/SingleIcon.cs:305-395 | each reduced sub-image takes the mask of the latest resized sub-image before it |
| SingleIcons.PlanMasks | src/IconLib/SingleIcon.cs:285-398 | in CreateFrom's plan each reduced sub-image takes the latest resized sub-image's mask, and none when none was resized yet |
| SingleIcons.StepsTargets | src/IconLib/SingleIcon.cs:305-395 | a size and depth are added exactly when a rule with its flag set names them |
| SingleIcons.RunFrom | src/IconLib/SingleIcon.cs:298-397 | the steps run in order until one throws; the icon keeps a prefix of them, and all of them exactly when none threw |
| SingleIcons.CreateFromPlan | src/IconLib/SingleIcon.cs:285-398 | InvalidPixelFormatException, before the icon is cleared, exactly when the source is not 32 bpp ARGB; otherwise the icon holds a prefix of the plan, the whole plan exactly when no Add threw |
| SingleIcons.RunStops | src/IconLib/SingleIcon.cs:298-397 | every sub-image CreateFrom added was accepted after the ones before it, and the exception that ends it is that of the next step |
| SingleIcons.FirstFault | src/IconLib/SingleIcon.cs:298-397 | when step n is the first that throws, the icon holds the first n steps and that step's exception escapes |
| SingleIcons.RunsThrough | src/IconLib/SingleIcon.cs:298-397 | CreateFrom ends without an exception exactly when every step is accepted in turn |
| SingleIcons.RulesDistinct | src/IconLib/SingleIcon.cs:305-395 | no two conditional Adds name the same size and depth, and none is over 256 pixels |
| SingleIcons.StepsDistinct | src/IconLib/SingleIcon.cs:305-395 | the resized and reduced sub-images have distinct sizes and depths, each a rule's, and only the resized ones are 32 bpp |
| SingleIcons.SourceFirst | src/IconLib/SingleIcon.cs:298-303 | the source bitmap is added first, and only for Vista |
| SingleIcons.ResizedIsSelected | src/IconLib/SingleIcon.cs:305-395 | every resized sub-image of the plan comes from a selected 32 bpp rule |
| SingleIcons.SelectedIsResized | src/IconLib/SingleIcon.cs:305-395 | a selected 32 bpp rule puts the resized sub-image of its size in the plan |
| SingleIcons.PlanKeys | src/IconLib/SingleIcon.cs:424-432 | before a resized or reduced step only the source added for Vista can hold its key, exactly when the source is a square of the step's size; no such step is over 256 pixels |
| SingleIcons.PlanStepFault | src/IconLib/SingleIcon.cs:417-435 | the exception each step throws: ImageTooBig for a source over 256 pixels, ImageAlreadyExists for a resized image of the Vista source's square size, a null mask, or a mask of another size that Set rejects |
| SingleIcons.PlanAccepted | src/IconLib/SingleIcon.cs:298-397 | every step is accepted in turn exactly when the source fits and each reduced sub-image has the mask of its own size |
| SingleIcons.CleanRun | src/IconLib/SingleIcon.cs:285-398 | on a 32 bpp ARGB source CreateFrom adds the whole plan exactly when, for Vista, the source is at most 256 pixels and not a square of a resized size, and every reduced sub-image has the mask of its own size |
| SingleIcons.PlanTargets | src/IconLib/SingleIcon.cs:285-398 | in the plan a size and depth are added exactly when a selected flag's rule names them; CreateFrom adds only such images, and all of them when no Add throws |
| SingleIcons.DefaultSteps | src/IconLib/SingleIcon.cs:280-398 | FromWin95 plans the source, then 32 bpp and 8 bpp images at 48, 32 and 16 pixels, each 8 bpp one with the mask of the 32 bpp one beside it |
| SingleIcons.DefaultPlan | src/IconLib/SingleIcon.cs:280-398 | the FromWin95 plan, and what CreateFrom leaves for every source size: nothing for a source over 256 pixels, the prefix before the clashing resized image for a 48, 32 or 16 pixel square, else all seven images |
| SingleIcons.MissingMaskSteps | src/IconLib/SingleIcon.cs:298-321 | Vista and Win95 without WinXP plan reduced images whose mask comes from no sub-image |
| SingleIcons.MissingMask | src/IconLib/SingleIcon.cs:298-321 | Vista and Win95 without WinXP: CreateFrom stops at the first reduced image on its null mask, leaving only the source, or nothing when the source is over 256 pixels |
| SingleIcons.StaleMaskSteps | src/IconLib/SingleIcon.cs:305-380 | without WinXPUnpopular the 24-pixel reduced image takes the 32-pixel image's mask |
| SingleIcons.StaleMask | src/IconLib/SingleIcon.cs:305-380 | with WinXP and Win95Unpopular CreateFrom adds the 48 and 32 pixel images and stops when Set rejects the 32-pixel mask of the 24-pixel image |
| MultiIcons.ToLower | src/IconLib/MultiIcon.cs:188-194 | folding keeps the length and folds each letter |
| MultiIcons.ToLowerIdempotent | src/IconLib/MultiIcon.cs:188-194 | folding twice is folding once |
| MultiIcons.FoldedIsSameName | src/IconLib/MultiIcon.cs:188-194 | a name and its folded form are the same name |
| MultiIcons.FindName | src/IconLib/MultiIcon.cs:180-197 | the first position whose name matches up to case, or -1 exactly when none does |
| MultiIcons.FoundIsOnly | src/IconLib/MultiIcon.cs:180-197 | in a list without duplicate names the found position is the only match |
| MultiIcons.FoundIsFirst | src/IconLib/MultiIcon.cs:180-197 | a match with no match before it is the position found |
| MultiIcons.RemoveUnique | src/IconLib/MultiIcon.cs:152-167 | removing an entry keeps the names free of duplicates |
| MultiIcons.RemoveFound | src/IconLib/MultiIcon.cs:152-167 | removing the found entry leaves no entry of that name |
| MultiIcons.MultiIcon.constructor | src/IconLib/MultiIcon.cs:29-37 | a new library is empty with selected index -1 |
| MultiIcons.MultiIcon.FromIcon | src/IconLib/MultiIcon.cs:44-48 | a library of the one icon, selected |
| MultiIcons.MultiIcon.IndexOf | src/IconLib/MultiIcon.cs:180-197 | the first icon whose name matches up to case, or -1 |
| MultiIcons.MultiIcon.Contains | src/IconLib/MultiIcon.cs:169-178 | true exactly when some icon's name matches up to case |
| MultiIcons.MultiIcon.Add | src/IconLib/MultiIcon.cs:137-150 | a name in use is refused with nothing changed; otherwise a new empty icon of that name is appended; names stay unique |
| MultiIcons.MultiIcon.Remove | src/IconLib/MultiIcon.cs:152-167 | removes the first matching icon, or nothing; the selection is kept; no icon of that name remains in a unique list |
| MultiIcons.MultiIcon.SetSelectedIndex | src/IconLib/MultiIcon.cs:54-66 | an index at or past the count throws with nothing changed; any other, negative ones included, is taken |
| MultiIcons.MultiIcon.SelectedName | src/IconLib/MultiIcon.cs:68-78 | the selected icon's name, or nothing exactly when the index is outside the list |
| MultiIcons.MultiIcon.SetSelectedName | src/IconLib/MultiIcon.cs:79-96 | selects the first icon whose name matches up to case, or throws with the selection kept when none does |
| MultiIcons.MultiIcon.SaveError | src/IconLib/MultiIcon.cs:258-266 | Save refuses exactly an index of -1 |
| OctreeQuantizer.ChildIndexBits | src/IconLib/ColorProcessing/OctreeQuantizer.cs:299-302 | the child slot at a level is bit 7 - level of red, green and blue, as bits 2, 1 and 0 |
| OctreeQuantizer.ReduceLevelIsDeepest | src/IconLib/ColorProcessing/OctreeQuantizer.cs:248-252 | the search finds the deepest level below the leaf level with a reducible node, or 0 |
| OctreeQuantizer.ChildrenOfDeepestAreLeaves | src/IconLib/ColorProcessing/OctreeQuantizer.cs:254-271 | the node picked for reduction is an inner node whose children are all leaves |
| OctreeQuantizer.FoldTotals | src/IconLib/ColorProcessing/OctreeQuantizer.cs:258-277 | folding keeps the pixel count and the colour sums of the tree; the leaf count loses the children and gains their parent |
| OctreeQuantizer.ReduceStep | src/IconLib/ColorProcessing/OctreeQuantizer.cs:243-278 | a reduction keeps the octree invariant and the tree's totals, and pops one stack entry |
| OctreeQuantizer.NoReducibleMeansOneLeaf | src/IconLib/ColorProcessing/OctreeQuantizer.cs:248-256 | with no reducible node at level 0 the tree has at most one leaf |
| OctreeQuantizer.ReduceCanProceed | src/IconLib/ColorProcessing/OctreeQuantizer.cs:243-256 | with two or more leaves the search finds a reducible node |
| OctreeQuantizer.AddedKeepsValid | src/IconLib/ColorProcessing/OctreeQuantizer.cs:280-305 | AddColor keeps the octree invariant and counts a new leaf exactly when the sample lands in one |
| OctreeQuantizer.AddedTotals | src/IconLib/ColorProcessing/OctreeQuantizer.cs:288-295 | AddColor adds one pixel and the sample's channels to the tree's totals |
| OctreeQuantizer.LandingOnColorPath | src/IconLib/ColorProcessing/OctreeQuantizer.cs:296-304 | the sample is counted in a leaf on its own colour path |
| OctreeQuantizer.AddedChangesOnlyLanding | src/IconLib/ColorProcessing/OctreeQuantizer.cs:280-305 | the landing leaf is the only existing node AddColor changes |
| OctreeQuantizer.Octree.constructor | src/IconLib/ColorProcessing/OctreeQuantizer.cs:39-58 | an empty tree, empty stacks and no leaves |
| OctreeQuantizer.Octree.CreateNode | src/IconLib/ColorProcessing/OctreeQuantizer.cs:307-326 | a node is a leaf exactly at the leaf level; a leaf is counted and an inner node is pushed on its level's stack |
| OctreeQuantizer.Octree.AddColor | src/IconLib/ColorProcessing/OctreeQuantizer.cs:280-305 | the tree, stacks and leaf count become those of the specification Added |
| OctreeQuantizer.Octree.ReduceTree | src/IconLib/ColorProcessing/OctreeQuantizer.cs:243-278 | faults exactly when no level is searched or the found stack is empty, changing nothing; otherwise pops the deepest level's newest node and folds its children into it |
| OctreeQuantizer.Octree.FoldChildren | src/IconLib/ColorProcessing/OctreeQuantizer.cs:258-277 | the node becomes a leaf holding its children's sums and pixels, and the count of removed children is returned |
| OctreeQuantizer.ShiftStubCounts | src/IconLib/ColorProcessing/OctreeQuantizer.cs:212-223 | the stub counts are applied as shifts by 31 and 8 |
| OctreeQuantizer.Channel16IsZero | src/IconLib/ColorProcessing/OctreeQuantizer.cs:89-92 | every 16-bit channel comes out as 0 |
| OctreeQuantizer.Channel32IsZero | src/IconLib/ColorProcessing/OctreeQuantizer.cs:146-149 | every 32-bit channel comes out as 0 |
| OctreeQuantizer.SampleAt | src/IconLib/ColorProcessing/OctreeQuantizer.cs:68-166 | every sample of a 16 or 32 bpp image is black |
| OctreeQuantizer.WideAndNarrowPixelsAreBlack | src/IconLib/ColorProcessing/OctreeQuantizer.cs:89-92 | the 16-bit and 32-bit pixel decoders give black for every pixel word |
| OctreeQuantizer.MeanIsQuotient | src/IconLib/ColorProcessing/OctreeQuantizer.cs:231-234 | an average of byte values fits a byte, so the (byte) cast keeps the quotient |
| OctreeQuantizer.MeanOfWrapped | src/IconLib/ColorProcessing/OctreeQuantizer.cs:231-234 | the byte cast keeps the quotient of a wrapped channel sum, and up to 16843009 samples the sum does not wrap |
| OctreeQuantizer.MeanColorIsAverage | src/IconLib/ColorProcessing/OctreeQuantizer.cs:231-234 | each channel of a leaf colour is its samples' sum modulo 2^32 divided by their count, which is their integer average up to 16843009 samples |
| OctreeQuantizer.WrappedSumTurnsBlack | src/IconLib/ColorProcessing/OctreeQuantizer.cs:335-338 | a white image of 16851024 pixels plus one black pixel averages 254 per channel but gets a black leaf colour |
| OctreeQuantizer.RootLeafHoldsAll | src/IconLib/ColorProcessing/OctreeQuantizer.cs:229-235 | a root leaf holds every sample, so its colour is the colour of their wrapped sums |
| OctreeQuantizer.GetPaletteColors | src/IconLib/ColorProcessing/OctreeQuantizer.cs:225-241 | faults exactly on an empty leaf root; a leaf root writes its colour, taken from the wrapped sums, at entry 0 and moves the index to 1; an inner root writes nothing |
| OctreeQuantizer.FillTransparent | src/IconLib/ColorProcessing/OctreeQuantizer.cs:194-199 | entries from the start index on are transparent black, the others unchanged |
| OctreeQuantizer.EmitPalette | src/IconLib/ColorProcessing/OctreeQuantizer.cs:188-199 | the palette after the tree is built: leaf colour, then the stock entry 1, then transparent black; or the stock entry 0, then transparent black |
| OctreeQuantizer.AddSample | src/IconLib/ColorProcessing/OctreeQuantizer.cs:94-99 | adding a sample and reducing keeps the invariant, adds the sample to the totals, and ends with at most maxColors leaves unless maxColors is below one; with maxColors at least 8 an inner root stays inner |
| OctreeQuantizer.ReduceWhileOver | src/IconLib/ColorProcessing/OctreeQuantizer.cs:96-99 | reductions end with at most maxColors leaves and unchanged totals, and fault exactly when maxColors is below one; with maxColors at least 8 an inner root stays inner |
| OctreeQuantizer.RootFoldNeedsFewLeaves | src/IconLib/ColorProcessing/OctreeQuantizer.cs:248-271 | when the root is the node to fold the tree has at most eight leaves |
| OctreeQuantizer.ReduceRound | src/IconLib/ColorProcessing/OctreeQuantizer.cs:243-278 | one round of the reduction loop keeps the octree invariant and the totals, shrinks the stacks, and keeps an inner root while more than maxColors >= 8 leaves remain |
| OctreeQuantizer.ReduceKeepsRootInner | src/IconLib/ColorProcessing/OctreeQuantizer.cs:243-278 | a reduction made while there are more than maxColors >= 8 leaves does not make the root a leaf |
| OctreeQuantizer.AddedKeepsAbove | src/IconLib/ColorProcessing/OctreeQuantizer.cs:280-305 | AddColor from a slot leaves every node above that slot unchanged |
| OctreeQuantizer.AddedKeepsRootInner | src/IconLib/ColorProcessing/OctreeQuantizer.cs:280-305 | AddColor at depth 1 or more leaves an inner root, creating one in an empty tree |
| OctreeQuantizer.ScanRow | src/IconLib/ColorProcessing/OctreeQuantizer.cs:110-127 | feeds a row's samples left to right, keeping the totals equal to the samples seen and, with maxColors at least 8, the root inner |
| OctreeQuantizer.ScanImage | src/IconLib/ColorProcessing/OctreeQuantizer.cs:68-166 | feeds every sample in scan order; faults exactly when the image has pixels and maxColors is below one; with maxColors at least 8 the root ends inner |
| OctreeQuantizer.CreatePalette | src/IconLib/ColorProcessing/OctreeQuantizer.cs:33-210 | the exception, null and fault cases exactly; otherwise a palette from a tree of at most maxColors leaves holding all samples, with the leaf colour first for a leaf root; with maxColors at least 8 the root stays inner and the palette is the stock entry 0, then transparent black |
| EuclideanQuantizer.NearestIsLowestArgmin | src/IconLib/ColorProcessing/EuclideanQuantizer.cs:164-185 | the answer is an entry of least squared distance and the lowest such index, or 0 for an empty palette |
| EuclideanQuantizer.FindNearestColor | src/IconLib/ColorProcessing/EuclideanQuantizer.cs:164-185 | the loop computes the lowest nearest index |
| EuclideanQuantizer.DistanceSquared | src/IconLib/ColorProcessing/EuclideanQuantizer.cs:164-176 | every squared distance is below the loop's starting minimum 195076, so a non-empty palette always yields a best entry |
| EuclideanQuantizer.IndexByteIsNearest | src/IconLib/ColorProcessing/EuclideanQuantizer.cs:114 | with at most 256 entries the byte cast keeps a nearest entry's index |
| EuclideanQuantizer.MonochromeIndex | src/IconLib/ColorProcessing/EuclideanQuantizer.cs:62-69 | over black and white the index is 1 exactly when white is strictly nearer |
| EuclideanQuantizer.MonochromePixel | src/IconLib/ColorProcessing/EuclideanQuantizer.cs:62-69 | a pixel's 1 bpp index is 1 exactly when white is strictly nearer to it than black |
| EuclideanQuantizer.KeyDeterminesColor | src/IconLib/ColorProcessing/EuclideanQuantizer.cs:187-214 | a pixel's cache key determines its channels, so caching by key is sound |
| EuclideanQuantizer.Key16 | src/IconLib/ColorProcessing/EuclideanQuantizer.cs:192-198 | a 16-bit pixel's channels are a function of its cache key, the pixel word |
| EuclideanQuantizer.Key24 | src/IconLib/ColorProcessing/EuclideanQuantizer.cs:199-205 | a 24-bit pixel's channels are bytes 2, 1 and 0 of its cache key |
| EuclideanQuantizer.Key32 | src/IconLib/ColorProcessing/EuclideanQuantizer.cs:206-212 | a 32-bit pixel's channels are bytes 2, 1 and 0 of its cache key, the whole pixel word |
| EuclideanQuantizer.Channels16 | src/IconLib/ColorProcessing/EuclideanQuantizer.cs:192-198 | a 16-bit pixel yields channels that are multiples of 8 up to 248, keyed by its word |
| EuclideanQuantizer.CursorInRow | src/IconLib/ColorProcessing/EuclideanQuantizer.cs:119-137 | the write position stays inside the row while pixels remain |
| EuclideanQuantizer.PackStep | src/IconLib/ColorProcessing/EuclideanQuantizer.cs:119-137 | writing one pixel changes only the byte under the cursor, as the packed-row specification says |
| EuclideanQuantizer.Pack8Reads | src/IconLib/ColorProcessing/EuclideanQuantizer.cs:134-137 | an 8 bpp row is the indices followed by zeros |
| EuclideanQuantizer.Pack4Reads | src/IconLib/ColorProcessing/EuclideanQuantizer.cs:130-133 | at 4 bpp an even pixel is the high nibble and an odd one the low nibble of its byte |
| EuclideanQuantizer.Pack1Reads | src/IconLib/ColorProcessing/EuclideanQuantizer.cs:121-129 | at 1 bpp pixel x >= 1 sets bit (x - 1) & 7 of byte (x - 1) / 8 exactly when its index is 1 |
| EuclideanQuantizer.Pack1FirstPixel | src/IconLib/ColorProcessing/EuclideanQuantizer.cs:121-129 | in a row of at most eight pixels, pixel 0 is the lowest bit of byte 0 |
| EuclideanQuantizer.Pack1LosesFirstPixel | src/IconLib/ColorProcessing/EuclideanQuantizer.cs:121-129 | in a longer row the target does not depend on pixel 0 |
| EuclideanQuantizer.RowsSlice | src/IconLib/ColorProcessing/EuclideanQuantizer.cs:101-104 | target row y, at offset stride * y, is row y's indices packed |
| EuclideanQuantizer.PixelNearest | src/IconLib/ColorProcessing/EuclideanQuantizer.cs:106-116 | every pixel's index names a nearest palette entry |
| EuclideanQuantizer.Converted8 | src/IconLib/ColorProcessing/EuclideanQuantizer.cs:101-138 | at 8 bpp target byte x of row y names a palette entry nearest to source pixel (x, y) |
| EuclideanQuantizer.Converted4 | src/IconLib/ColorProcessing/EuclideanQuantizer.cs:101-138 | at 4 bpp pixel (x, y)'s nibble names a nearest entry of a palette of at most 16 colours |
| EuclideanQuantizer.Converted1 | src/IconLib/ColorProcessing/EuclideanQuantizer.cs:101-138 | at 1 bpp pixel (x, y) with x >= 1 sets its shifted bit exactly when white is nearer than black |
| EuclideanQuantizer.Converted1First | src/IconLib/ColorProcessing/EuclideanQuantizer.cs:101-138 | pixel 0 reaches the 1 bpp target only in rows of at most eight pixels |
| EuclideanQuantizer.WritePixel | src/IconLib/ColorProcessing/EuclideanQuantizer.cs:119-138 | writes one byte under the cursor as the packing specification says and advances the cursor |
| EuclideanQuantizer.SetBit1 | src/IconLib/ColorProcessing/EuclideanQuantizer.cs:121-127 | sets or clears the pixel's 1 bpp bit |
| EuclideanQuantizer.SetNibble | src/IconLib/ColorProcessing/EuclideanQuantizer.cs:130-133 | ORs the index into the pixel's nibble |
| EuclideanQuantizer.ChoosePalette | src/IconLib/ColorProcessing/EuclideanQuantizer.cs:59-78 | black and white at 1 bpp; otherwise the octree palette, absent exactly when the source depth is not sampled, and at 4 and 8 bpp the stock entry 0 followed by transparent black |
| EuclideanQuantizer.NearestOfRepeats | src/IconLib/ColorProcessing/EuclideanQuantizer.cs:164-185 | over entries that repeat from index 1 on, the nearest index is 0 or 1, and 0 exactly when entry 0 is at least as near |
| EuclideanQuantizer.QuantizedIndex | src/IconLib/ColorProcessing/EuclideanQuantizer.cs:106-116 | over the 4 and 8 bpp palette a colour's index is 1 exactly when transparent black is strictly nearer than entry 0, and never when entry 0 is black |
| EuclideanQuantizer.QuantizedPixel | src/IconLib/ColorProcessing/EuclideanQuantizer.cs:101-116 | every pixel of a 4 or 8 bpp target over that palette has index 0 or 1, by the same rule |
| EuclideanQuantizer.EuclideanQuantizer.constructor | src/IconLib/ColorProcessing/EuclideanQuantizer.cs:35-43 | a quantizer with an empty colour cache |
| EuclideanQuantizer.EuclideanQuantizer.Lookup | src/IconLib/ColorProcessing/EuclideanQuantizer.cs:112-116 | answers the byte of the nearest index, from the cache or computed and cached, keeping the cache sound |
| EuclideanQuantizer.EuclideanQuantizer.ReadIndex | src/IconLib/ColorProcessing/EuclideanQuantizer.cs:108-116 | the index of pixel (x, y) is the row specification's |
| EuclideanQuantizer.EuclideanQuantizer.ConvertRow | src/IconLib/ColorProcessing/EuclideanQuantizer.cs:106-143 | the row loop writes exactly row y's packed indices |
| EuclideanQuantizer.EuclideanQuantizer.ConvertRows | src/IconLib/ColorProcessing/EuclideanQuantizer.cs:101-144 | the target becomes every row's packed indices |
| EuclideanQuantizer.EuclideanQuantizer.Convert | src/IconLib/ColorProcessing/EuclideanQuantizer.cs:47-162 | each exception case exactly; otherwise an indexed bitmap of the source size whose rows are the packed nearest indices, over the stock entry 0 and transparent black at 4 and 8 bpp |

## Left out

- Streams, files, GDI and GDI+ calls (`LockBits`, `RotateFlip`, `CreateDIBSection`, `Icon` construction, bitmap resizing) are not modelled. Bitmaps are values holding their stride, scan bytes and palette; streams are the byte sequence from the current position on.
- The flip of the bitmap and mask in `IconImage.Set` (`RotateFlip`, `Tools.FlipYBitmap`): `Set` takes rows already in stored order. Tools.cs is not part of this model.
- `Tools.RGBQUADFromColorArray`: the colour table is a parameter of `Set`.
- `Tools.CompareRGBQUADToColor` and `Tools.BitsFromPixelFormat` are taken to compare red, green and blue and to give the format's bit count (`AndMask.SameRgb`, `Drawing.BitsOf`).
- `Bitmap.GetPixel(0, 0)` in `Add(Bitmap)` is a parameter (`topLeft`), and so is whether the bitmap came from a PNG file.
- The `IconImage` getters `Icon`, `Transparent`, `Image` and `Mask`, which call GDI.
- `IconImage.Read` and `IconImage.Write` only dispatch to an encoder. The PNG encoder is not part of this model; `SetFormat` records a PNG encoder as the kind of encoder it is.
- `SingleIcon` `Load`, `Save`, `Icon`, `CopyFrom`, `ToString`, the indexer and the `Add(Icon)` overload, which go through streams, GDI or the file format classes.
- `SingleIcon.Add(Bitmap, Color)` and `Add(Bitmap, Bitmap)` only forward to the private `Add` (`SingleIcons.SingleIcon.Add`).
- `SingleIcons.CreateFromPlan`: `CreateFrom` is modelled by the sub-images it adds, in order, and the exception that stops it, not by running the resizing and the quantizer. The model assumes that the resized and quantized bitmaps, and a mask read from a sub-image, pass `Set`'s other checks, with the mask 1 bpp at its sub-image's size.
- `MultiIcon` `Load`, `Save(string)`, `Save(Stream)` beyond its selection check, `CopyFrom`, `IconNames`, the name indexer and the constructor from a collection.
- The `ArgumentNullException` checks for null names and bitmaps: strings and bitmaps are never null here.
- `MultiIcons.ToLower` folds the ASCII letters only; .NET's culture-aware `ToLower` folds other letters too.
- `EuclideanQuantizer.EuclideanQuantizer.Convert`: dithering is not modelled. The Floyd-Steinberg dithering that `Convert` calls after each pixel is not part of this model, so the model is `Convert` with no dithering. The timing and debug output are left out.
- `OctreeQuantizer.CreatePalette`: `bitsPerPixel` is a natural number; negative depths are not modelled.
- `OctreeQuantizer.CreatePalette`: a node's `nPixelCount` is a C# `int`; the model does not wrap it, so images of 2^31 or more pixels are not modelled as the code would count them.
- The enums `LoadLibraryFlags`, `ResourceType`, `ResourceMemoryType` and `PatBltTypes`, which only the Win32 and resource-file code uses.
- `BmpEncoder.Write` requires the colour table to hold the bytes the header announces. With a shorter table the C# copy reads past the array, and the outcome is undefined.
- The BITMAPINFOHEADER, ICONDIR and ICONDIRENTRY `Read`/`Write` methods are not part of this model. They are modelled as their fields in little-endian order, at the widths of the Win32 structures.
