# hcscrgen in Dafny

hcscrgen turns an image into a text screen for a home computer: the Commodore 64, the
Robotron KC 87, the Sharp MZ-700 or the Robotron Z 1013. This project models its core
and proves properties of the model. The core is organised as follows.

- It cuts the image into character-sized tiles, row by row.
- It picks for each tile the glyph with the smallest mean per-channel distance. The
  glyph comes from the profile's charsets or from a charset generated for the image.
- It maps the chosen characters to character RAM and colour RAM.
- It composes a preview image from the chosen glyphs.
- Generating a charset clusters the tiles with k-means. The clusters are seeded with
  random black-and-white glyphs. Empty clusters are refilled from the
  worst-approximated members of crowded clusters.
- A charset becomes C64 memory by packing each 8x8 glyph row into one byte.
- A companion tool cuts a charset out of a charset sheet, and stores it back as a
  16x16 sheet.
- A small script writes a KC 87 program (a COM file) to a KC-TAPE file: a signature, a
  header record, and numbered 128-byte data records.

Modules:

- `Common`: Option/Result, bytes, decimal formatting.
- `Pixels`: rasters, cropping and placing.
- `Screen`: tiles and preview composition.
- `Distance`: `image_diff`.
- `Search` and `Matching`: the first-strict-minimum scans.
- `Layout`: `load_matrix_charset`.
- `Profiles`: the four machine profiles.
- `Conversion`: the size check and its message.
- `ScreenConverter`: `convert` and `Converter` in `src/lib.rs`.
- `Kc87` and `SharpMz`: the two older per-machine converters.
- `Kmeans` and `Charset`: charset generation and C64 packing.
- `CharsetSheet`: the sheet tool.
- `KcTape`: the tape writer.

An image is a `seq<seq<Rgb>>`, indexed `[y][x]`. Decoding image files, the random
generator and the iteration callback are parameters: `decode`, `coin` and the k-means
`Context`.

Facts about the code that the model follows:

- `load_matrix_charset` cuts 255 glyphs (codes 0 to 0xFE), not 256.
- The per-machine matchers scan codes 0 to 0xFE only.
- `src/lib.rs` imports a `load_charset` that `src/utils.rs` does not define. The stock
  charsets are modelled as loaded by `load_matrix_charset` with the profile's charset
  definition.
- `src/charset.rs` calls `kmeans::optimize`, while `src/kmeans.rs` names that function
  `kmeans`. `Kmeans.Optimize` models the function in `src/kmeans.rs`.
- `src/profiles/kc87.rs` and `src/profiles/sharpmz.rs` implement a `Converter` trait
  that `src/lib.rs` no longer declares. They are modelled as standalone converters
  over their own constants.

## Model

| member | source | states |
|---|---|---|
| Common.NatToString | src/lib.rs:85-88 | the decimal text of a number is non-empty and all digits |
| Common.NatToStringRoundTrip | src/lib.rs:85-88 | reading the formatted decimal text back gives the number again |
| Search.FirstMinimumUnique | src/profiles/kc87.rs:72-84 | at most one position is the first strict minimum of a list of distances |
| Search.ScanFrom | src/profiles/kc87.rs:75-82 | continuing the `diff < best_diff` scan from any consistent intermediate state ends at the first minimum |
| Search.FirstMinimum | src/profiles/kc87.rs:72-84 | the scan that starts at `u32::MAX` returns the first position of the smallest distance |
| Pixels.Filled | src/lib.rs:142 | a fresh image has the requested size and every pixel is the fill colour |
| Pixels.Crop | src/lib.rs:95-102 | a crop has the requested size and pixel (i, j) is the source pixel at (x + i, y + j) |
| Pixels.Place | src/lib.rs:147-153 | pasting a glyph keeps the canvas size, writes the glyph where it covers, and leaves every other pixel unchanged |
| Pixels.PlaceAll | src/lib.rs:141-157 | pasting a list of glyphs keeps the canvas size |
| Pixels.PlaceAllCovered | src/lib.rs:141-157 | with pairwise-apart placements, a pixel covered by glyph k shows glyph k's pixel |
| Pixels.PlaceAllUncovered | src/lib.rs:141-157 | a pixel covered by no glyph keeps the canvas colour |
| Pixels.CropPlaced | src/lib.rs:141-157 | cropping the composite at a glyph's place gives that glyph back |
| Screen.RowOf | src/lib.rs:144 | no ensures of its own: the row of cell index i; Screen.IndexRoundTrip states its contract |
| Screen.ColumnOf | src/lib.rs:145 | no ensures of its own: the column of cell index i; Screen.IndexRoundTrip states its contract |
| Screen.IndexRoundTrip | src/lib.rs:143-145 | the preview's row and column computed from index `row * columns + column` are that row and column |
| Screen.CellInScreen | src/lib.rs:143-145 | every index below lines*columns lies in the screen and maps back to itself |
| Screen.CellFits | src/lib.rs:93-101 | every tile rectangle lies inside the screen area |
| Screen.TileAt | src/lib.rs:95-102 | a tile is character-sized |
| Screen.TilesUpTo | src/lib.rs:93-105 | the first `rows` rows of tiles, in row-major order, each equal to the crop at its cell |
| Screen.Tiles | src/lib.rs:91-105 | one character-sized tile per cell; the tile for (row, column) sits at index row*columns + column and is the crop at that cell |
| Screen.Placements | src/lib.rs:143-152 | glyph i is pasted at the pixel origin of cell i |
| Screen.CellOrder | src/lib.rs:93-94 | a larger index is a later row, or a later column in the same row |
| Screen.CellsApart | src/lib.rs:147-152 | glyphs pasted at two different cells never overlap |
| Screen.CompositeWellFormed | src/lib.rs:141-157 | every preview placement fits the black screen canvas, and the placements are pairwise apart |
| Screen.Composite | src/lib.rs:141-157 | the preview has screen size |
| Screen.TilesOfComposite | src/lib.rs:141-157 | cutting the preview back into tiles gives exactly the glyphs that were pasted |
| Distance.PixelDiff | src/utils.rs:12-15 | the summed per-channel absolute difference of two pixels is at most 765 |
| Distance.TotalDiffBound | src/utils.rs:8-17 | the accumulated difference over m columns is at most 765 per pixel |
| Distance.ColumnSumBound | src/utils.rs:9-16 | the accumulated difference down one column is at most 765 per pixel |
| Distance.Mean | src/utils.rs:19 | the mean is at most 765 when the total is bounded, and it is 0 exactly when the total is below the pixel count |
| Distance.ImageDiff | src/utils.rs:3-20 | the mean per-pixel difference of two same-sized images is at most 765 |
| Distance.ComputeImageDiff | src/utils.rs:3-20 | the nested x-then-y loop computes the reference `ImageDiff` |
| Distance.TotalDiffSelf | src/kmeans.rs:11-13 | an image differs from itself by nothing over any number of columns |
| Distance.ColumnSumSelf | src/kmeans.rs:11-13 | an image differs from itself by nothing down any column |
| Distance.ImageDiffSelf | src/kmeans.rs:11-13 | the distance from an image to itself is 0 |
| Distance.TotalDiffSymmetric | src/utils.rs:12-15 | the column-wise total is the same with the images swapped |
| Distance.ColumnSumSymmetric | src/utils.rs:12-15 | the one-column total is the same with the images swapped |
| Distance.ImageDiffSymmetric | src/utils.rs:3-20 | the distance does not depend on argument order |
| Distance.ImageDiffZero | src/utils.rs:19 | the distance is 0 exactly when the total difference is below the pixel count, so a 0 distance does not mean equal images |
| Layout.CellOf | src/utils.rs:48-54 | the sheet cell of a code is in the 16x16 grid, and the sheet order maps that cell back to the code |
| Layout.CellOfCodeAt | src/utils.rs:48-54 | reading a grid cell as a code and placing the code again gives the same cell |
| Layout.CellOfInjective | src/utils.rs:48-54 | two different codes never share a sheet cell |
| Layout.CropFits | src/utils.rs:55-58 | when the sheet is large enough, every glyph rectangle lies inside it |
| Layout.GlyphAt | src/utils.rs:55-58 | a cut glyph has the character size |
| Layout.LoadMatrixCharset | src/utils.rs:39-61 | 0xFF glyphs, glyph `code` being the crop at the code's sheet cell |
| Layout.OriginX | src/utils.rs:55 | no ensures of its own: the left edge of a glyph cell; Layout.LoadedGlyphPixels and Layout.CropFits state its contract |
| Layout.OriginY | src/utils.rs:56 | no ensures of its own: the top edge of a glyph cell; Layout.LoadedGlyphPixels and Layout.CropFits state its contract |
| Layout.LoadedGlyphPixels | src/utils.rs:47-59 | pixel (x, y) of glyph `code` is the sheet pixel at offset + cell * (size + spacing) + (x, y) |
| Matching.Diff | src/lib.rs:127 | the distance between a tile and a charset glyph is at most 765 |
| Matching.BeforeTotal | src/lib.rs:125-126 | of two different characters, one comes first in the scan order |
| Matching.IsBestUnique | src/lib.rs:119-139 | only one character is the earliest glyph at the smallest distance |
| Matching.VisitStep | src/lib.rs:127-134 | visiting one glyph keeps the scan's invariant: the best so far is the earliest minimum among the glyphs seen |
| Matching.NextCharset | src/lib.rs:125-136 | finishing a charset carries the invariant into the next one |
| Matching.EndOfScan | src/lib.rs:136-138 | after the last charset the best distance is still `u32::MAX` only when there is no glyph; otherwise the best character is the best match |
| Matching.ScanFrom | src/lib.rs:125-136 | the scan returns the best match, or character (0, 0) when there is no glyph at all |
| Matching.BestMatch | src/lib.rs:119-139 | `get_best_matching_character` returns the earliest glyph at the smallest distance, or (0, 0) when no charset has a glyph |
| Matching.ExactGlyphWins | src/lib.rs:127-134 | a tile equal to some glyph is matched at distance 0, by that glyph or an earlier one |
| Profiles.Identifiers | src/lib.rs:36-38 | the identifier list has one entry per profile, in order |
| Profiles.AvailableIdentifiers | src/profiles.rs:31-36 | the registry is c64, kc87, sharpmz, z1013, and its identifiers are distinct |
| Profiles.IdentifierListing | src/lib.rs:36-40 | the identifiers joined with ", " are "c64, kc87, sharpmz, z1013" |
| Profiles.FindProfile | src/lib.rs:22-23 | the first profile whose identifier matches, or none exactly when no profile matches |
| Profiles.ProfileFacts | src/profiles.rs:31-136 | every profile maps a character to its code; colour RAM is 0x01 (C64), 0x70 (KC 87), 0x07/0x87 by charset (Sharp MZ) and absent (Z 1013); the screen sizes; only Sharp MZ has two charsets |
| Conversion.Undersized | src/lib.rs:84 | no ensures of its own: the size check; Conversion.LargeEnoughCovers and ScreenConverter.ConvertImage state its contract |
| Conversion.SizeMessage | src/lib.rs:85-88 | no ensures of its own: the size error text; Conversion.SizeMessageNamesSize states its contract |
| Conversion.LargeEnoughCovers | src/lib.rs:84 | an image that passes the size check contains the whole screen |
| Conversion.SizeMessageNamesSize | src/lib.rs:85-88 | the size error names the screen width and height in pixels, in decimal |
| ScreenConverter.NewConverter | src/lib.rs:57-81 | a custom charset is the only charset searched; otherwise one charset per charset file of the profile, in order, each loaded by `load_matrix_charset` |
| ScreenConverter.RegisteredProfilesReady | src/lib.rs:57-72 | a converter built for a registered profile, from its files or from a 256-glyph custom charset, has character-sized, byte-addressable charsets |
| ScreenConverter.TilesComparable | src/lib.rs:95-103 | every tile of a covered image can be compared with every glyph of the converter |
| ScreenConverter.Characters | src/lib.rs:91-105 | one valid character per cell, the one at (row, column) being the best match of that cell's tile |
| ScreenConverter.GlyphsOf | src/lib.rs:149 | the glyphs that the characters name are all character-sized |
| ScreenConverter.Preview | src/lib.rs:141-157 | the preview has screen size |
| ScreenConverter.PreviewShowsCharacters | src/lib.rs:141-157 | the preview's tile i is the glyph of character i |
| ScreenConverter.MapCharacterRam | src/lib.rs:159-164 | one byte per character, given by the profile's character mapping |
| ScreenConverter.MapColorRam | src/lib.rs:166-171 | colour RAM exists exactly when the profile has a colour mapping, with one mapped byte per character |
| ScreenConverter.ConvertImage | src/lib.rs:83-117 | fails with the size message exactly when the image is smaller than the screen; otherwise character RAM, colour RAM and preview come from the matched characters, and the packed charset is present exactly for a custom charset |
| ScreenConverter.RegisteredRamLayout | src/lib.rs:107-110 | for a registered profile, character RAM holds each matched character's code, and colour RAM, when present, is as long as character RAM |
| ScreenConverter.UnknownProfileMessage | src/lib.rs:36-45 | no ensures of its own: the unknown-identifier error; ScreenConverter.UnknownProfileListing states its contract |
| ScreenConverter.UnknownProfileListing | src/lib.rs:36-45 | the unknown-profile error quotes the identifier and lists "c64, kc87, sharpmz, z1013" |
| ScreenConverter.GeneratedCharsetFits | src/lib.rs:24-27 | a charset generated for a registered profile has 256 glyphs of the profile's character size |
| ScreenConverter.ConvertWithProfile | src/lib.rs:23-32 | fails only on an undersized image, with the size message; a charset is returned exactly when one was generated; character RAM has one byte per cell; colour RAM is present exactly when the profile has a colour mapping |
| ScreenConverter.Convert | src/lib.rs:17-46 | an unknown identifier gives the listing error; a known one behaves as `ConvertWithProfile` on the first matching profile |
| Kc87.NewKc87 | src/profiles/kc87.rs:23-37 | 0xFF 8x8 glyphs from the KC 87 sheet layout |
| Kc87.CodeDiffs | src/profiles/kc87.rs:76-77 | one distance per scanned code, each below `u32::MAX` |
| Kc87.GetMatchingCode | src/profiles/kc87.rs:72-84 | the code is below 0xFF and is the first code at the smallest distance |
| Kc87.SameDiffs | src/profiles/kc87.rs:76-77 | the KC 87 distances are the generic matcher's distances over a single charset |
| Kc87.AgreesWithGenericMatcher | src/profiles/kc87.rs:72-84 | the KC 87 matcher picks the same character as the generic best match over its one charset |
| Kc87.Codes | src/profiles/kc87.rs:49-61 | 960 codes in row-major order, each the matching code of its 8x8 tile |
| Kc87.Preview | src/profiles/kc87.rs:86-103 | the preview is 320x192 |
| Kc87.PreviewShowsCodes | src/profiles/kc87.rs:86-103 | the preview's tile i is the glyph of code i |
| Kc87.Convert | src/profiles/kc87.rs:39-69 | fails with the size message exactly when the image is under 320x192; otherwise 960 RAM bytes, the matched codes, no colour RAM |
| Kc87.Kc87SizeMessage | src/profiles/kc87.rs:41-46 | the message reads "... at least 320x192 pixels." |
| SharpMz.NewSharpMz | src/profiles/sharpmz.rs:27-45 | two charsets of 0xFF 8x8 glyphs from the Sharp MZ sheet layout |
| SharpMz.Scanned | src/profiles/sharpmz.rs:78-95 | the standard charset is scanned before the extended one, 0xFF glyphs each |
| SharpMz.Unpack | src/profiles/sharpmz.rs:103-109 | no ensures of its own: charset from bit 15, code from the low byte; SharpMz.PackUnpack and SharpMz.UnpackedCode state its contract |
| SharpMz.Pack | src/profiles/sharpmz.rs:85-96 | no ensures of its own: a scan winner's code with bit 15 set for the extended charset, then or-ed with 0x0700; SharpMz.PackUnpack and SharpMz.GetMatchingCode state its contract |
| SharpMz.PackUnpack | src/profiles/sharpmz.rs:85-96 | a character packed into a code (flag 0x8000, foreground 0x0700, low byte) unpacks to itself |
| SharpMz.GetMatchingCode | src/profiles/sharpmz.rs:78-97 | the code carries foreground 7 and a low byte below 0xFF, names the best match over both charsets, and has the 0x8000 flag exactly for an extended glyph |
| SharpMz.LowByte | src/profiles/sharpmz.rs:125 | the byte equals the code's low eight bits |
| SharpMz.HighByte | src/profiles/sharpmz.rs:129 | the byte equals the code's high eight bits |
| SharpMz.GetCharacterRam | src/profiles/sharpmz.rs:124-126 | one byte per code, its low byte |
| SharpMz.GetColorRam | src/profiles/sharpmz.rs:128-130 | one byte per code, its high byte |
| SharpMz.RamRecombines | src/profiles/sharpmz.rs:124-130 | the colour byte shifted up, or-ed with the character byte, gives the code back |
| SharpMz.MatchedColour | src/profiles/sharpmz.rs:92-96 | a matched code's colour byte is 0x87 for an extended glyph and 0x07 otherwise, agreeing with the Sharp MZ profile's colour mapping |
| SharpMz.Codes | src/profiles/sharpmz.rs:55-67 | 1000 codes in row-major order, each the matching code of its tile |
| SharpMz.PreviewGlyph | src/profiles/sharpmz.rs:104-109 | the glyph drawn for a code is 8x8 |
| SharpMz.UnpackedCode | src/profiles/sharpmz.rs:109 | the character code of an unpacked value is its low byte |
| SharpMz.PreviewGlyphIsNamed | src/profiles/sharpmz.rs:103-113 | the preview draws the glyph of the character the code names, from the charset its flag selects |
| SharpMz.Preview | src/profiles/sharpmz.rs:99-122 | the preview is 320x200 |
| SharpMz.PreviewShowsMatches | src/profiles/sharpmz.rs:99-122 | the preview's tile i is the glyph of the character matched for tile i |
| SharpMz.Convert | src/profiles/sharpmz.rs:47-74 | fails with the size message exactly when the image is under 320x200; otherwise 1000 character bytes and the colour bytes of the matched codes |
| SharpMz.SharpMzSizeMessage | src/profiles/sharpmz.rs:48-53 | the message reads "... at least 320x200 pixels." |
| Charset.BitsDetermineByte | src/charset.rs:36-44 | two bytes with the same eight bits are equal |
| Charset.PackRow | src/charset.rs:36-44 | no ensures of its own: one packed row byte; Charset.PackRowBits states its contract |
| Charset.PackRowBits | src/charset.rs:37-42 | bit 7 - x of a packed row is set exactly when pixel x is lit, meaning its channel average is above 0x80 |
| Charset.OrBits | src/charset.rs:41 | or-ing in `1 << k` sets bit k and leaves the other bits unchanged |
| Charset.GlyphBytes | src/charset.rs:35-45 | eight bytes per glyph, one packed row each |
| Charset.PackGlyphs | src/charset.rs:33-46 | eight bytes per glyph, glyph by glyph, each its packed row |
| Charset.ConvertCharset | src/charset.rs:30-48 | 2048 bytes; bit 7 - x of byte 8g + y is set exactly when pixel (x, y) of glyph g is lit |
| Charset.AllRowBits | src/charset.rs:35-45 | every bit of the packed data reflects its pixel |
| Charset.UnpackGlyph | src/charset.rs:37-42 | the inverse reading gives an 8x8 glyph |
| Charset.UnpackCharset | src/charset.rs:30-48 | 2048 bytes read back give 256 8x8 glyphs |
| Charset.UnpackConvert | src/charset.rs:30-48 | packing a pure black-and-white charset and reading it back gives the same charset |
| Charset.ConvertUnpack | src/charset.rs:30-48 | any 2048 bytes read as a charset and packed again give the same bytes |
| Charset.ChannelSumBounds | src/charset.rs:105-109 | the channel sum over n elements lies between n*lo and n*hi |
| Charset.DetermineColoredCentroid | src/charset.rs:100-125 | the centroid has the element size, and each channel is the truncated mean of that channel over the elements |
| Charset.ColoredCentroidBounds | src/charset.rs:105-120 | a centroid channel lies between the smallest and largest value the elements have there |
| Charset.ColoredCentroidOfCopies | src/charset.rs:100-125 | the centroid of identical elements is that element |
| Charset.LitCount | src/charset.rs:84-90 | the number of lit elements at a pixel is at most n: n when all are lit, 0 when none is |
| Charset.DetermineMonochromeCentroid | src/charset.rs:80-98 | a black-and-white glyph whose pixel is white exactly when more than half the elements are lit there |
| Charset.MonochromeUnanimous | src/charset.rs:91-93 | a pixel lit in every element is white; a pixel lit in none is black |
| Charset.InitializeCentroid | src/charset.rs:129-139 | a black-and-white glyph of the character size, white exactly where the coin says so |
| Charset.FromMachineProfile | src/charset.rs:164-174 | the screen profile copies lines, columns and character size, and asks for 0x100 glyphs |
| Charset.GenerateKeepsGlyphSize | src/charset.rs:9-27 | every centroid the optimisation produces keeps the character size |
| Charset.GeneratorDiffIsImageDiff | src/charset.rs:9-27 | two rasters of a positive character size are compared by `image_diff`, so the generator's fallback distance is never used on glyphs |
| Charset.GenerateCharset | src/charset.rs:9-27 | as many glyphs as the profile asks for, each of the character size |
| CharsetSheet.ParseMode | src/bin/hcscrgen-charset-converter.rs:51-55 | "tb" is top-to-bottom, "lr" left-to-right, and anything else is refused |
| CharsetSheet.DefaultModeIsLeftRight | src/bin/hcscrgen-charset-converter.rs:26 | the default mode parses as left-to-right |
| CharsetSheet.ImportCharset | src/bin/hcscrgen-charset-converter.rs:50-78 | refused exactly for an invalid mode; otherwise 0x100 glyphs of the requested size |
| CharsetSheet.ImportedPixels | src/bin/hcscrgen-charset-converter.rs:65-74 | pixel (x, y) of glyph `code` is the sheet pixel at the code's cell in the chosen order |
| CharsetSheet.StorePlacements | src/bin/hcscrgen-charset-converter.rs:87-94 | glyph i goes to cell (i / 16, i % 16) of the output grid |
| CharsetSheet.StoredGlyphFits | src/bin/hcscrgen-charset-converter.rs:81-94 | each of the 256 cells lies strictly inside the output image |
| CharsetSheet.StoredGlyphsApart | src/bin/hcscrgen-charset-converter.rs:87-94 | two stored glyphs never overlap |
| CharsetSheet.StoreWellFormed | src/bin/hcscrgen-charset-converter.rs:80-95 | the gray canvas has the output size, every placement fits, and the placements are pairwise apart |
| CharsetSheet.StoreCharset | src/bin/hcscrgen-charset-converter.rs:80-100 | the output is (1 + (w + 1) * 16) by (1 + (h + 1) * 16) |
| CharsetSheet.StoredGlyphRecoverable | src/bin/hcscrgen-charset-converter.rs:80-95 | cropping the output at glyph i's cell gives glyph i |
| CharsetSheet.GapsStayGray | src/bin/hcscrgen-charset-converter.rs:81-85 | the one-pixel grid lines between cells stay gray |
| CharsetSheet.StoreImportRoundTrip | src/bin/hcscrgen-charset-converter.rs:50-100 | importing a stored 256-glyph sheet with offset 1, spacing 1 and mode "lr" gives the charset back |
| Kmeans.InitializeClusters | src/kmeans.rs:61-71 | k clusters, cluster i with the i-th initial centroid and no members |
| Kmeans.ResetAssignments | src/kmeans.rs:73-77 | every cluster keeps its centroid and loses its members |
| Kmeans.Diffs | src/kmeans.rs:87-88 | one distance per cluster, each below `u32::MAX` |
| Kmeans.Nearest | src/kmeans.rs:85-93 | the chosen cluster exists |
| Kmeans.NearestIsFirstNearest | src/kmeans.rs:85-93 | the chosen cluster has the smallest distance, and every earlier cluster is strictly farther |
| Kmeans.NearestDependsOnCentroids | src/kmeans.rs:79-101 | the nearest cluster depends only on the centroids, not on current members |
| Kmeans.Reassign | src/kmeans.rs:79-101 | reassignment keeps every centroid |
| Kmeans.ReassignSpec | src/kmeans.rs:84-100 | cluster c's members are its old members followed by the elements whose nearest cluster is c, in element order |
| Kmeans.AssignedMembership | src/kmeans.rs:84-100 | an assignment belongs to cluster c exactly when its element's nearest cluster is c, with that distance |
| Kmeans.AssignedAscending | src/kmeans.rs:84-100 | a cluster's new members are in ascending element order and index real elements |
| Kmeans.Partition | src/kmeans.rs:79-101 | after reset and reassignment, element i is a member of cluster c exactly when c is its nearest cluster |
| Kmeans.Members | src/kmeans.rs:120-123 | one element per assignment, the one it indexes |
| Kmeans.RecalculateCentroid | src/kmeans.rs:115-125 | no ensures of its own: the centroid of a cluster's members; Kmeans.RecalculateCentroids states its contract |
| Kmeans.RecalculateCentroids | src/kmeans.rs:103-113 | members stay; an empty cluster keeps its centroid; any other cluster gets the centroid of its members |
| Kmeans.Peak | src/kmeans.rs:167-171 | no ensures of its own: a cluster's largest deviation; Kmeans.PeakPosition and Kmeans.DonorsInClusterOrder state its contract |
| Kmeans.PeakPosition | src/kmeans.rs:167-171 | the position of the largest deviation, the last one on ties |
| Kmeans.Donors | src/kmeans.rs:160-176 | one deviation per cluster with at least two members |
| Kmeans.DonorsInClusterOrder | src/kmeans.rs:163-176 | the donors follow cluster order, and a crowded cluster contributes its peak |
| Kmeans.DonorsAreMembers | src/kmeans.rs:163-176 | every donated index belongs to a cluster with at least two members |
| Kmeans.Insert | src/kmeans.rs:178 | insertion adds exactly one deviation |
| Kmeans.InsertDescending | src/kmeans.rs:178 | inserting into a descending list keeps it descending, and deviations of equal size keep their order |
| Kmeans.SortDescending | src/kmeans.rs:178 | sorting permutes the deviations |
| Kmeans.SortDescendingSpec | src/kmeans.rs:178 | the sort is descending and stable |
| Kmeans.HighestDeviations | src/kmeans.rs:160-181 | the donors' peaks, sorted descending by a stable sort |
| Kmeans.HighestDeviationsAreMembers | src/kmeans.rs:160-181 | every listed index belongs to a crowded cluster |
| Kmeans.FillFrom | src/kmeans.rs:143-155 | clusters before c are unchanged; from c on, each cluster is refilled from the donors still left |
| Kmeans.FillEmptyClusters | src/kmeans.rs:128-158 | a repair is "perfect" exactly when the largest listed deviation is 0, and then nothing changes; otherwise the empty clusters, in order, take the smallest remaining deviations until the list is used up |
| Kmeans.SeededCount | src/kmeans.rs:143-155 | the number of clusters seeded is the smaller of the number of empty clusters and the number of donors |
| Kmeans.DonatedElementStays | src/kmeans.rs:150-154 | a seeded cluster holds one element at distance 0, and that element is still a member of its donor cluster |
| Kmeans.Regroup | src/kmeans.rs:45-47 | a reset, reassign and recalculate round keeps the cluster count and indexes real elements |
| Kmeans.RepairsOn | src/kmeans.rs:48 | no ensures of its own: the repair test; Kmeans.Step, Kmeans.Iterate and Kmeans.Continue state its contract |
| Kmeans.Step | src/kmeans.rs:44-53 | an iteration keeps the cluster count; on an iteration divisible by the interval it reports a perfect fit exactly when the regrouped clusters' largest deviation is 0; any other iteration skips the fill and keeps the regrouped clusters |
| Kmeans.Iterate | src/kmeans.rs:36-59 | the loop keeps the cluster count and runs at most the maximum number of iterations, all of them unless it stops early; an early "perfect" stop happens only on a repair iteration whose clusters have largest deviation 0, and a "callback" stop only when the callback answered true for the final clusters |
| Kmeans.IterateUnrolls | src/kmeans.rs:43-57 | iteration i ends the run with its clusters when its repair is perfect, else when the callback answers true; otherwise the run continues from iteration i + 1 with those clusters |
| Kmeans.Continue | src/kmeans.rs:48-56 | after iteration i: a perfect repair ends the run after i + 1 iterations with those clusters; otherwise a true callback does the same; a perfect stop has largest deviation 0; never past the maximum |
| Kmeans.OptimizeRun | src/kmeans.rs:36-59 | k clusters after at most the maximum number of iterations; with no iterations, the initial clusters |
| Kmeans.Optimize | src/kmeans.rs:36-59 | the optimisation returns k clusters |
| Kmeans.Centroids | src/charset.rs:23-26 | the centroids of the clusters, in order |
| Kmeans.RegroupKeeps | src/kmeans.rs:45-47 | a property that every initial and recomputed centroid has survives a regroup round |
| Kmeans.RefilledKeeps | src/kmeans.rs:143-155 | a cluster that is refilled keeps the property: it either stays as it was or takes the centroid of the one element it is seeded with |
| Kmeans.FillKeeps | src/kmeans.rs:128-158 | the property survives refilling empty clusters |
| Kmeans.IterateKeeps | src/kmeans.rs:44-57 | the property survives the iteration loop |
| Kmeans.OptimizeKeeps | src/kmeans.rs:36-59 | every final centroid has the property |
| KcTape.MagicSpellsSignature | doc/examples/kc87/kc87com2tap.py:35 | the file starts with 0xC3 followed by "KC-TAPE by AF. " |
| KcTape.Zeros | doc/examples/kc87/kc87com2tap.py:42-43 | n zero bytes |
| KcTape.Pad | doc/examples/kc87/kc87com2tap.py:40 | a fixed-width field is the string cut to size and then zero-padded |
| KcTape.Int16LE | doc/examples/kc87/kc87com2tap.py:45-47 | a 16-bit field takes two bytes |
| KcTape.Int16RoundTrip | doc/examples/kc87/kc87com2tap.py:45-47 | reading the two little-endian bytes as a signed 16-bit value gives the address back |
| KcTape.SignedByte | doc/examples/kc87/kc87com2tap.py:38 | the header's block byte, read as signed, is the block number |
| KcTape.Header | doc/examples/kc87/kc87com2tap.py:38-49 | 129 bytes: block, 8-byte name, "COM", five zero bytes, 0x03, load/end/start addresses, 105 zero bytes |
| KcTape.Record | doc/examples/kc87/kc87com2tap.py:58-59 | a data record is 129 bytes |
| KcTape.ChunkIndex | doc/examples/kc87/kc87com2tap.py:52-56 | read j returns data exactly when j is below the record count, and it is the last full read exactly for the last record |
| KcTape.DataRecords | doc/examples/kc87/kc87com2tap.py:52-61 | no ensures of its own: the data loop with the last-record test corrected (see Findings); KcTape.DataRecordsSucceeds and KcTape.DataRecordsContent state its contract |
| KcTape.DataRecordsAsWritten | doc/examples/kc87/kc87com2tap.py:52-61 | no ensures of its own: the data loop as written, with the py:56 test; KcTape.AsWrittenAgreesFromOne and KcTape.AsWrittenMissesLastRecord state its contract |
| KcTape.WriteTapFrom | doc/examples/kc87/kc87com2tap.py:25-61 | no ensures of its own: `write_tap` with the corrected last-record test; KcTape.TapeSucceeds, KcTape.TapeContent and KcTape.PayloadRoundTrip state its contract |
| KcTape.WriteTapFromAsWritten | doc/examples/kc87/kc87com2tap.py:25-61 | no ensures of its own: `write_tap` as written; KcTape.AsWrittenDefaultBlock and KcTape.AsWrittenMissesLastRecord state its contract |
| KcTape.WriteTap | doc/examples/kc87/kc87com2tap.py:17-23 | no ensures of its own: the call with the default header block 0; KcTape.DefaultTape states its contract |
| KcTape.DataRecordsSucceeds | doc/examples/kc87/kc87com2tap.py:52-61 | the data loop fails exactly when a record number other than the last falls outside 0..255 (the corrected writer: for header block 0 it equals `write_tap` as written, by KcTape.AsWrittenDefaultBlock) |
| KcTape.DataRecordsContent | doc/examples/kc87/kc87com2tap.py:52-61 | the data records are 129-byte records numbered block + 1, block + 2, ... and 0xFF for the last, each with its zero-padded 128-byte piece (the corrected writer: for header block 0 it equals `write_tap` as written, by KcTape.AsWrittenDefaultBlock) |
| KcTape.TapeSucceeds | doc/examples/kc87/kc87com2tap.py:25-61 | writing fails exactly when the block byte, an address or a record number does not fit its field (the corrected writer: for header block 0 it equals `write_tap` as written, by KcTape.AsWrittenDefaultBlock) |
| KcTape.TapeContent | doc/examples/kc87/kc87com2tap.py:25-61 | the tape is the signature, the header with end = load + size - 1, and the numbered data records (the corrected writer: for header block 0 it equals `write_tap` as written, by KcTape.AsWrittenDefaultBlock) |
| KcTape.DefaultTape | doc/examples/kc87/kc87com2tap.py:25-61 | with block 0: success exactly when the addresses fit and there are at most 256 records; 145 + 129n bytes, records numbered 1, 2, ... and 0xFF last |
| KcTape.EmptyProgram | doc/examples/kc87/kc87com2tap.py:52-55 | an empty program gives only the signature and a header whose end address is load - 1 |
| KcTape.ReadPayload | doc/examples/kc87/kc87com2tap.py:59 | reading the records back gives 128 bytes per record, each piece the record's body |
| KcTape.PayloadRoundTrip | doc/examples/kc87/kc87com2tap.py:52-61 | the bodies read back start with the program and are zero after it (the corrected writer: for header block 0 it equals `write_tap` as written, by KcTape.AsWrittenDefaultBlock) |
| KcTape.AsWrittenAgreesFromOne | doc/examples/kc87/kc87com2tap.py:56 | the last-record test as written agrees with the corrected one when the numbering starts at 1 |
| KcTape.AsWrittenDefaultBlock | doc/examples/kc87/kc87com2tap.py:56-57 | with the default block 0, the tape as written equals the corrected tape |
| KcTape.AsWrittenMissesLastRecord | doc/examples/kc87/kc87com2tap.py:56-57 | with block 1 and a one-byte program, the record as written is numbered 2 where 0xFF is meant |

## Left out

- Reading and writing image files: `decode` stands for reading a charset file, and images are given as pixel arrays. `main.rs` and the command-line parsing are not part of this model.
- Randomness: `random::<bool>()` becomes the `coin` parameter of `Charset.InitializeCentroid`.
- Printing: the `println!` calls ("Max diff", "No more diffs?!") and `_draw_approximation` are not modelled, because they only produce output.
- The k-means iteration callback is a parameter of the model. The charset generator's callback always answers false, so generation always runs all 50 iterations unless a repair is perfect.
- `crop_imm` clamps rectangles that stick out of the image. The model requires the rectangle to fit: `SheetFits` for charset sheets, `CoversScreen` for tiles. The size check guarantees the latter.
- ScreenConverter.Convert: with `autogenerate_charset` the source generates the charset before the size check, so an undersized image panics there. The model requires the image to cover the screen in that case.
- Distance.ImageDiff: does not model `u32` overflow of the running sum. The sum stays below 765 * width * height, far from overflowing for character-sized images.
- Matching.BestMatch: the `code as u8` truncation is not modelled for charsets longer than 256 glyphs. The model requires every charset to be byte-addressable, which all loaded and generated charsets are.
- Charset.ConvertCharset: the source asserts 256 glyphs of 8x8. The model turns those asserts into preconditions. The capacity hint `255 * 8` has no effect on the result and is left out.
- Kmeans.Nearest: the `expect("No cluster found!?")` panic for an empty cluster list is excluded by requiring at least one cluster, which `optimize` always has (`chars` is 0x100).
- Kmeans.Nearest: the same panic when every distance is `u32::MAX` is not modelled. Distances are typed strictly below `u32::MAX`, so the strict `<` always picks a cluster. The charset generator's distance is at most 765.
- Kmeans.Iterate: the `i % 0` panic of a zero repair interval is not modelled. The model requires a positive interval; the charset generator uses 5.
- Kmeans.Step: the same zero-interval panic is excluded by requiring a positive interval.
- Kmeans.Continue: the same zero-interval panic is excluded by requiring a positive interval.
- Kmeans.OptimizeRun: the same zero-interval panic is excluded by requiring a positive interval.
- Kmeans.Optimize: the same zero-interval panic is excluded by requiring a positive interval.
- Charset.GenerateCharset: a zero character size makes `image_diff` divide by zero (src/utils.rs:19). The model requires a positive character size, which every registered profile has (8x8).
- KcTape.TapeContent: opening, sizing and reading the input file, and writing the output file, are left out. A `struct.error` is modelled as `None`, and the bytes already written before that error are not modelled.
- KcTape.Header: `struct.pack('h', …)` is taken as little-endian, the byte order of the hosts the script runs on.

## Findings

| source | as written | input that shows it | evidently intended | confidence | as-written member | corrected member |
|---|---|---|---|---|---|---|
| doc/examples/kc87/kc87com2tap.py:56 | the last record is detected by `128 * (block - 1) + len(data) == size`, where `block` is the running record number | `write_tap(..., block=1)` with a one-byte program: the only record is numbered 2 | the record holding the program's last byte is numbered 0xFF whatever the first block number | not executed | KcTape.AsWrittenMissesLastRecord | KcTape.TapeContent |
