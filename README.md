# Integer image-processing engine of the resistor-band vision system

This project models the integer core of `vc.c`, the image-processing
library behind the resistor-band video analyser, together with the
`IVC` image record, the `OVC` blob record and the `MAX_VC`/`MIN_VC`
macros of `vc.h`. Every operation walks a flat buffer of
`width * height * channels` bytes. It reads one image and writes another,
or it rewrites an image in place.

The model is imperative where the C is. An `IVC` is a class `Image` whose
samples live in an `array<byte>`. The label table, histogram, CDF, median
window and packed bit buffer are arrays as well. Each operation is a
method whose loops follow the C loops. Its `ensures` tie the new buffer to
a specification function of the old one: `Filtered`, `Medianed`,
`Equalized`, `Negated`, `ChannelGray`, `Diff`, `Thresholded`, `Packed`,
`Unpacked`, `WithCross` and `WithBox`. Lemmas then prove what the library
promises about those functions.

Modules, one per file:

- `VcTypes`: `byte`, `Image`, `Blob`, `Max`/`Min`, `vc_image_new`.
- `Grid`: flat-index arithmetic.
- `Samples`, `Ranks`: folds, counts, minima/maxima, ranks.
- `Window`, `WindowOps`: the border-clamped square window and the scans
  over it.
- `Morphology`, `MorphologyLaws`: grey and binary erosion, dilation,
  opening and closing, and their laws.
- `Filters`, `Median`: the mean filter, the median filter and the
  midpoint and Bernsen thresholds.
- `PixelOps`: negatives, channel extraction, subtraction, global
  thresholds, area counts.
- `Equalize`: histogram equalisation.
- `LabelTable`, `Labelling`, `BlobInfo`: blob labelling and blob
  measurements.
- `Draw`: the two overlay writers.
- `NetpbmToken`, `BitPack`: the Netpbm header tokeniser and the PBM
  bit packer and unpacker.

Where the code and the design description of the system disagree, the
model follows the code:

- Labelling uses 8-connectivity: the up-left, up, up-right and left
  neighbours.
- The label table is a flat equivalence table, rewritten on every merge.
  There is no union-find forest and no proximity-merge pass.
- The compacted blobs keep their representative labels. They are not
  renumbered from 0 or 1.
- Provisional labels run up to 255, so the bound is 255, not 254.
- `vc_gray_lowpass_min_filter` computes the window mean, not a minimum.

## Model

| member | source | states |
|---|---|---|
| VcTypes.Max | vc.h:11 | `MAX_VC` returns one of its arguments and is at least both |
| VcTypes.Min | vc.h:12 | `MIN_VC` returns one of its arguments and is at most both |
| VcTypes.ToByte | vc.c:1067 | storing an int into an `unsigned char` keeps it modulo 256, exactly when it is already in 0..255 |
| VcTypes.CDiv | vc.c:1034-1035 | C's `/` truncates toward zero: it agrees with Euclidean division on non-negative operands and its remainder has the dividend's sign |
| VcTypes.Offset | vc.c:1132 | `(kernel - 1) / 2` is the half-width of an odd kernel, and is rounded toward zero otherwise |
| VcTypes.Image.constructor | vc.h:18-25 | a new image has the given metadata, `bytesperline == width * channels` and a fresh buffer of `width * height * channels` samples |
| VcTypes.ImageNew | vc.c:2279-2301 | the result is null exactly when `levels` is outside 1..255 or a dimension is negative; otherwise it is a fresh valid image with `bytesperline == width * channels` |
| VcTypes.FreshBlob | vc.c:944-950 | a blob from `calloc` carries its label, with area and perimeter zero |
| Grid.Coord | vc.c:994-996 | a flat offset `y * w + x` gives back its row and column |
| Grid.InRange | vc.c:994 | the offset of an in-image pixel lies in the buffer |
| Grid.Scaled | vc.c:659 | `y * bytesperline + x * channels` is pixel `(y * w + x)`'s first sample, and its samples lie in the buffer |
| Samples.MinOfIsLeast | vc.c:1151-1177 | the window minimum is at most every window sample and is one of them |
| Samples.MaxOfIsGreatest | vc.c:1206-1233 | the window maximum is at least every window sample and is one of them |
| Samples.OrOfBounds | vc.c:1356-1380 | the bitwise OR of a window is at least each sample, and is zero exactly when every sample is zero |
| Samples.OrOfBinary | vc.c:1356-1380 | the OR of a 0/255 window is 0/255, and is 255 exactly when a sample is 255 |
| Samples.HasZeroIn | vc.c:1298-1320 | the binary erosion's zero test finds a zero exactly when the window holds one |
| Samples.SumBetween | vc.c:73-90 | a window sum lies between `count * min` and `count * max` |
| Samples.CountBelowPermutation | vc.c:165-177 | reordering the window does not change how many samples lie below a value |
| Ranks.RankUnique | vc.c:165-180 | the k-th smallest value of the window is determined by counts alone |
| Ranks.SortedRank | vc.c:165-180 | in a sorted window, position k holds the k-th smallest value |
| Ranks.RankPermutation | vc.c:165-180 | the k-th smallest value does not depend on the window's order |
| Ranks.RankIn | vc.c:165-180 | the k-th smallest value is a window sample between the window's minimum and maximum |
| Window.NeighbourhoodContains | vc.c:1151-1177 | a value is in the clamped window of (x, y) exactly when an in-image pixel within `off` of (x, y) holds it |
| Window.WindowFoldSeq | vc.c:1151-1177 | folding the nested window loops equals folding the window's sample sequence |
| WindowOps.FilteredAt | vc.c:1127-1180 | the filtered image holds, at every pixel, the window operator applied at that pixel |
| WindowOps.WindowMin | vc.c:1151-1177 | the nested y/x loops leave the minimum of the clamped window |
| WindowOps.WindowMax | vc.c:1206-1233 | the nested loops leave the maximum of the clamped window |
| WindowOps.WindowOr | vc.c:1356-1380 | the nested loops leave the OR of the clamped window |
| WindowOps.WindowErodes | vc.c:1282-1327 | the nested loops decide erosion exactly when the window holds a zero |
| WindowOps.WindowSum | vc.c:70-86 | the nested loops leave the sum and the number of in-image samples of the window |
| WindowOps.WindowMinMax | vc.c:1492-1512 | the nested loops leave the window minimum and maximum |
| WindowOps.ErodedPixel | vc.c:1282-1327 | the binary erosion writes 255 only when the centre is 255 and no window sample is 0 |
| WindowOps.MeanPixel | vc.c:69-90 | the mean filter writes the integer mean of the window |
| WindowOps.MidpointPixel | vc.c:1571-1605 | the midpoint threshold writes 255 exactly when the centre exceeds the mean of the window's minimum and maximum |
| WindowOps.BernsenPixel | vc.c:1492-1526 | the Bernsen threshold compares against `levels / 2` in a low-contrast window and against the midpoint otherwise |
| WindowOps.FilterInto | vc.c:1127-1180 | the pixel loops write the filtered image into dst and leave the rest of dst unchanged |
| Morphology.GrayErode | vc.c:1127-1180 | succeeds exactly on a non-empty grey src and dst; then dst holds the window minimum at every pixel; otherwise dst is untouched |
| Morphology.GrayDilate | vc.c:1182-1236 | likewise with the window maximum |
| Morphology.BinaryErode | vc.c:1258-1330 | likewise with binary erosion (255 where the centre is 255 and the window holds no 0) |
| Morphology.BinaryDilate | vc.c:1332-1382 | likewise with the bitwise OR of the window |
| Morphology.GrayOpen | vc.c:1073-1098 | dst is the dilation of the erosion of src |
| Morphology.GrayClose | vc.c:1100-1125 | dst is the erosion of the dilation of src |
| Morphology.BinaryOpen | vc.c:1238-1246 | dst is the binary dilation (second kernel) of the binary erosion (first kernel) of src, and the call returns 1 |
| Morphology.BinaryClose | vc.c:1248-1256 | dst is the binary erosion of the binary dilation of src, and the call returns 1 |
| MorphologyLaws.ErosionBelowDilation | vc.c:1127-1236 | `erode[p] <= src[p] <= dilate[p]` |
| MorphologyLaws.GrayOpenAntiExtensive | vc.c:1073-1098 | grey opening never brightens a pixel |
| MorphologyLaws.GrayCloseExtensive | vc.c:1100-1125 | grey closing never darkens a pixel |
| MorphologyLaws.GrayDuality | vc.c:1127-1236 | erosion is the negative of the dilation of the negative |
| MorphologyLaws.BinaryDilationBinary | vc.c:1332-1382 | binary dilation of a 0/255 image is 0/255, and 255 exactly where some window pixel is 255 |
| MorphologyLaws.BinaryErosionWhite | vc.c:1282-1327 | binary erosion writes 0/255, and 255 exactly where the centre is 255 and no window pixel is 0 |
| MorphologyLaws.BinaryDuality | vc.c:1258-1382 | on a 0/255 image, binary erosion is the negative of the binary dilation of the negative |
| MorphologyLaws.BinaryOpenAntiExtensive | vc.c:1238-1246 | binary opening never brightens a 0/255 pixel when the second kernel is no larger than the first |
| MorphologyLaws.BinaryCloseExtensive | vc.c:1248-1256 | binary closing never darkens a 0/255 pixel under the same condition |
| Filters.ZeroFill | vc.c:62 | `memset` clears the first n samples and leaves the rest |
| Filters.LowpassMean | vc.c:25-95 | succeeds exactly on a non-empty grey image with an odd kernel of at least 3; then dst is the window-mean image; otherwise dst is untouched |
| Filters.GrayToBinaryMidpoint | vc.c:1533-1610 | succeeds exactly when src and dst have the same size and are grey; then dst is the midpoint-thresholded image |
| Filters.GrayToBinaryBernsen | vc.c:1454-1531 | succeeds under the same checks; then dst is the Bernsen-thresholded image |
| Filters.MeanBetweenErodeDilate | vc.c:25-95 | the mean filter lies between the erosion and the dilation at every pixel |
| Filters.MeanFlat | vc.c:25-95 | the mean filter leaves a flat image unchanged |
| Filters.MidpointExtremes | vc.c:1594-1605 | a window maximum above the minimum becomes 255; a window minimum becomes 0 |
| Filters.BernsenContrast | vc.c:1515-1526 | in a window whose contrast exceeds `cMin`, Bernsen agrees with the midpoint threshold |
| Filters.BernsenFlat | vc.c:1515-1526 | with `cMin >= 255`, Bernsen is the global threshold at `levels / 2` |
| Filters.ThresholdsBinary | vc.c:1454-1610 | both local thresholds produce a 0/255 image |
| Median.MedianFilter | vc.c:97-189 | succeeds exactly on a non-empty grey image with an odd kernel of at least 3; then dst is the median image with 0 where the window does not fit; otherwise dst is untouched |
| Median.SortWindow | vc.c:165-180 | the exchange sort leaves the window sorted and a permutation of itself, and the middle element is written |
| Median.Exchange | vc.c:169-175 | the swap exchanges two entries and keeps the rest |
| Median.MedianedRows | vc.c:135-182 | every row of the median image holds the window median where the window fits and 0 in the `off` columns at either end |
| Median.MedianedOutside | vc.c:135-149 | the first and last `off` rows of the median image are 0 |
| Median.MedianBetweenErodeDilate | vc.c:146-182 | wherever the window fits, the median lies between the erosion and the dilation |
| Median.MedianBinary | vc.c:135-182 | the median of a 0/255 image is 0/255 |
| Median.MedianFlat | vc.c:146-182 | the median filter keeps a flat image wherever the window fits |
| PixelOps.NegatedInvolution | vc.c:2223-2276 | negating twice gives back the image |
| PixelOps.GrayNegative | vc.c:2252-2276 | succeeds exactly on a non-empty grey image, which it negates; otherwise nothing changes |
| PixelOps.RgbNegative | vc.c:2223-2249 | succeeds exactly on a non-empty RGB image, which it negates sample by sample; otherwise nothing changes |
| PixelOps.ChannelGrayIsGray | vc.c:2139-2164 | after extraction, all three samples of a pixel hold the chosen channel's old value |
| PixelOps.ChannelGrayIdempotent | vc.c:2139-2220 | extracting a channel twice is extracting it once |
| PixelOps.CopyChannel | vc.c:2148-2160 | the pixel loop copies channel c into the other two channels of every pixel |
| PixelOps.RgbGetRedGray | vc.c:2139-2164 | succeeds exactly on a non-empty RGB image, which it turns into the grey image of its red channel; otherwise nothing changes |
| PixelOps.RgbGetGreenGray | vc.c:2167-2192 | likewise for the green channel |
| PixelOps.RgbGetBlueGray | vc.c:2195-2220 | likewise for the blue channel |
| PixelOps.Subtract | vc.c:1041-1071 | succeeds exactly when src is non-empty and src and dst are grey; then dst holds `src - src2` modulo 256 |
| PixelOps.DiffThenAdd | vc.c:1067 | adding src2 back to the difference, modulo 256, gives src |
| PixelOps.DiffExact | vc.c:1067 | the difference is exact when src2 is not greater, and an image minus itself is black |
| PixelOps.GrayToBinary | vc.c:1673-1715 | succeeds exactly when src and dst have the same size and are grey; then dst is 255 above the threshold and 0 elsewhere |
| PixelOps.ThresholdedArea | vc.c:1673-1715 | a thresholded image is 0/255, and its black pixels are exactly those at or below the threshold |
| PixelOps.GrayToBinaryGlobalMean | vc.c:1613-1670 | under the same checks, dst is thresholded at the integer mean of src |
| PixelOps.MeanThresholdHasBackground | vc.c:1613-1670 | the mean lies between the minimum and maximum, so at least one pixel becomes 0 |
| PixelOps.SegmentationArea | vc.c:1718-1754 | counts the non-zero samples of a grey image, and returns 0 for any other |
| PixelOps.BinaryArea | vc.c:1757-1793 | counts the samples below 11 of a grey image, and returns 0 for any other |
| PixelOps.AreasOfBinary | vc.c:1718-1793 | on a 0/255 image the two area counts add up to the pixel count |
| Equalize.CountDifference | vc.c:536-547 | a histogram bin is the difference of two consecutive cumulative counts |
| Equalize.Histogram | vc.c:536-547 | the histogram loops count every value's occurrences |
| Equalize.Cumulate | vc.c:549-551 | `cdf[i]` is the number of samples at most i |
| Equalize.Normalise | vc.c:554-559 | `cdf[i]` becomes `(cdf[i] - cdf[0]) * (levels - 1) / (total - cdf[0])`, in 32-bit unsigned arithmetic |
| Equalize.Map | vc.c:561-569 | every dst sample is the normalised cdf of the src sample |
| Equalize.EqualizeImage | vc.c:511-572 | succeeds exactly on a non-empty grey image; then dst is the equalised image; otherwise dst is untouched |
| Equalize.LevelExact | vc.c:554-559 | without 32-bit wrap-around, the normalised value lies in 0..levels-1 and fits a byte |
| Equalize.LevelMonotone | vc.c:554-567 | equalisation keeps the order of grey values |
| Equalize.EqualizedOrder | vc.c:554-567 | every output is at most `levels - 1`, black stays black, and the order of pixels is kept |
| Equalize.EqualizedTop | vc.c:554-567 | the brightest pixels become `levels - 1` |
| LabelTable.Union | vc.c:842-893 | merging rewrites every table entry of the absorbed class to the surviving representative and leaves the rest |
| LabelTable.UnionOk | vc.c:842-893 | the table invariant `t[t[a]] == t[a] <= a` survives a merge into a smaller representative |
| LabelTable.RemoveRepeats | vc.c:917-923 | the duplicate-removal loops keep each representative's first entry and clear the later duplicates |
| LabelTable.RootsHas | vc.c:917-934 | the compacted list holds exactly the representatives |
| LabelTable.RootsIncreasing | vc.c:917-934 | the compacted representatives are strictly increasing |
| LabelTable.Compact | vc.c:925-934 | compaction counts the representatives and packs them at the front of the table |
| Labelling.Prepare | vc.c:770-794 | dst is src normalised to 0/255 with its border rows and columns cleared |
| Labelling.ClearSides | vc.c:784-788 | the first and last column become 0 |
| Labelling.ClearEdges | vc.c:790-794 | the first and last row become 0 |
| Labelling.SmallestClass | vc.c:814-835 | the new label is the smallest class among the marked A/B/C/D neighbours |
| Labelling.MergeNeighbours | vc.c:842-893 | after the merges, all four neighbours' classes are the pixel's class and the table invariant holds |
| Labelling.LabelRows | vc.c:797-897 | the raster pass labels every marked interior pixel, consistently with its earlier neighbours, with fewer than 256 labels |
| Labelling.RelabelRows | vc.c:899-911 | the second pass rewrites every pixel to its representative |
| Labelling.LabellingOutcome | vc.c:797-934 | a pixel is labelled exactly when it is interior foreground; every foreground pixel shares its label with its A/B/C/D neighbours; the representatives are exactly the labels in the image |
| Labelling.EightNeighboursAgree | vc.c:805-911 | any two 8-adjacent interior foreground pixels get the same label |
| Labelling.IncreasingCard | vc.c:925-934 | distinct increasing labels are as many as their count |
| Labelling.CountBlobs | vc.c:925-953 | `nlabels` is the number of representatives, and the blob array is null exactly when it is 0 |
| Labelling.MakeBlobs | vc.c:943-950 | blob i is a zeroed blob carrying representative i |
| Labelling.BlobLabelling | vc.c:742-957 | fails, leaving dst and `*nlabels` alone, on an empty image, a size or channel mismatch, or several channels; otherwise dst marks exactly the interior foreground, 8-neighbours agree, `nlabels` is the number of distinct labels, and the blobs carry them in increasing order |
| BlobInfo.Measure | vc.c:978-1036 | one blob's scan stores `Info` of the blob, whose area, box, centroid and perimeter the `Info` lemmas below characterise; the other blobs are unchanged |
| BlobInfo.BlobInfo | vc.c:959-1039 | fails, changing nothing, on an empty or multi-channel image; otherwise blobs `0..nblobs-1` are measured and the rest kept |
| BlobInfo.CentroidIn | vc.c:1034-1035 | a truncated mean of coordinates between lo and hi lies between lo and hi |
| BlobInfo.InfoOutcome | vc.c:978-1036 | the area is the number of interior pixels carrying the label; the box contains all of them; a non-empty blob's centroid lies in its box; an empty blob gets the box from (w-1, h-1) with width `2 - w` and height `2 - h`, and centroid (0, 0); the perimeter grows by at most the area |
| BlobInfo.InfoBox | vc.c:1005-1029 | for a non-empty blob, each side of the box passes through one of its interior pixels; with InfoOutcome the box spans exactly the minimum to maximum column and row of those pixels |
| BlobInfo.InfoCentroid | vc.c:1001-1035 | the centroid is the sum of the blob's interior pixels' columns (rows), divided by their number (at least 1) with truncation |
| BlobInfo.InfoPerimeter | vc.c:1015-1020 | the perimeter grows by exactly the number of the blob's interior pixels with a left, right, upper or lower neighbour that does not carry the label |
| Draw.Locate | vc.c:659 | sample `y * bytesperline + x * channels + c` belongs to pixel (x, y) and channel c |
| Draw.PaintPixel | vc.c:657-660 | the channel loop sets every sample of one pixel and nothing else |
| Draw.DrawOfGravity | vc.c:650-673 | the samples of the 5 + 5 pixel cross through the centroid become 0, the rest are unchanged, and the call returns 1 |
| Draw.CrossSamples | vc.c:650-673 | in C addressing, every channel of a cross pixel is 0 and every other sample is unchanged |
| Draw.CrossIdempotent | vc.c:650-673 | drawing the cross twice is drawing it once |
| Draw.MarkPairAsWritten | vc.c:681-685 | one pass of the channel loop as written stores 255 only at sample 0 of the two pixels |
| Draw.DrawBorderBoxAsWritten | vc.c:675-698 | as written, only sample 0 of each outline pixel becomes 255 |
| Draw.BoxAsWrittenSamples | vc.c:675-698 | as written, channels above 0 of the outline keep their old values |
| Draw.BoxAsWrittenWitness | vc.c:675-698 | as written, a one-pixel black RGB box becomes (255, 0, 0); corrected, it becomes (255, 255, 255) |
| Draw.DrawBorderBox | vc.c:675-698 | corrected: every sample of every outline pixel becomes 255, the rest are unchanged, and the call returns 1 |
| Draw.BoxSamples | vc.c:675-698 | corrected, in C addressing: every channel of an outline pixel is 255 |
| Draw.BoxIdempotent | vc.c:675-698 | drawing the box twice is drawing it once |
| NetpbmToken.LineEnd | vc.c:2335-2338 | a comment ends past its first newline, or at the end of the file |
| NetpbmToken.TokenStart | vc.c:2330-2341 | the token starts at a character that is neither whitespace nor `#`, or at the end of the file |
| NetpbmToken.TokenEnd | vc.c:2345-2351 | the copy stops at whitespace, `#`, EOF or a full buffer, and copies no stopping character |
| NetpbmToken.SkipSpace | vc.c:2332 | the whitespace loop stops at the first non-blank character or at EOF |
| NetpbmToken.SkipComment | vc.c:2335-2338 | the comment loop stops after a newline or at EOF |
| NetpbmToken.CopyToken | vc.c:2345-2355 | the copy loop returns the characters up to the stop, and pushes back a `#` |
| NetpbmToken.GetToken | vc.c:2325-2360 | returns the empty token at EOF; otherwise it returns the next token after blanks and comments, and the cursor just past its stop (before a `#`) |
| NetpbmToken.TokenOutcome | vc.c:2325-2360 | a token has 1 to `len - 1` characters, none blank or `#`; a short token ends at a stop or EOF; the cursor advances |
| BitPack.RowBytes | vc.c:2393-2397 | each row of w pixels packs into `ceil(w / 8)` bytes |
| BitPack.MaskShift | vc.c:2389 | the bit for position i is `1 << (7 - i)` |
| BitPack.SetBitShift | vc.c:2389 | the packer's update is `*p \|= (pixel == 0) << (8 - countbits)` |
| BitPack.PackBitsAt | vc.c:2373-2399 | bit i of a packed byte is set exactly when pixel i of its group is 0 |
| BitPack.Pack | vc.c:2362-2404 | returns `height * ceil(width / 8)`, writes the packed rows, leaves the byte after them 0 and the rest unchanged |
| BitPack.Unpack | vc.c:2406-2442 | writes, for every pixel, 0 where its bit is set and 1 where it is clear, and leaves the rest unchanged |
| BitPack.RoundTrip | vc.c:2362-2442 | unpacking a packed image gives 1 where a pixel was non-zero and 0 where it was zero |

## Left out

- main.cpp: video capture, display, key handling and timing are outside the engine.
- Floating-point code is not modelled: `vc_rgb_to_hsv`, `vc_hsv_to_rgb`, `hsv_to_rgb`, `vc_hsv_segmentation`, `vc_rgb_to_gray`, `vc_gray_to_rgb`, `vc_gray_gaussian_filter`, `vc_gray_highpass_laplacian_filter`, `vc_gray_edge_prewitt`, `vc_gray_to_binary_niblack` and `vc_color_equalize_image`.
- `vc_gray_histogram_show` prints to the console and draws a chart; it is not modelled.
- `vc_blob_gray_coloring` is not modelled; it is an output-only colouring of the labelled image.
- `vc_read_image` and `vc_write_image` are file I/O. Only their tokeniser and bit packer are modelled; the file becomes a character sequence with a cursor.
- `vc_image_free` and every allocation failure are left out. Allocation always succeeds, and null data pointers cannot occur, because Dafny arrays are never null.
- VcTypes.ImageNew: returns null for any negative dimension. The C returns null only when `malloc` fails on the size `width * height * channels`, computed in `int` and converted to `size_t`. When that product is negative, the converted size is huge and `malloc` fails. When the product is non-negative, for example with two negative dimensions or a zero and a negative one, the C returns an image with those dimensions, and the model does not.
- Aliasing: the operations of `Morphology`, `Filters`, `Median`, `WindowOps.FilterInto`, `Equalize`, `Labelling.BlobLabelling` and `BitPack` require distinct source and destination buffers, so their in-place calls (`src == dst`) are not modelled. `PixelOps.Subtract`, `PixelOps.GrayToBinary` and `PixelOps.GrayToBinaryGlobalMean` do not require distinct buffers and also model the in-place call.
- Morphology.BinaryOpen: the C ignores the result of the first step. When src is not single-channel, the erosion refuses and the uninitialised auxiliary image is dilated into dst. The model states dst only when src and dst are single-channel; the same holds for Morphology.BinaryClose.
- PixelOps.GrayToBinaryGlobalMean: requires a non-empty image, where the C divides by zero, and a sample sum that fits a 32-bit `int`, beyond which the C overflows.
- Filters.LowpassMean: the window always holds its centre, so the division by the window count never divides by zero. The model relies on that rather than on a guard in the C.
- Equalize.EqualizeImage: requires at least one non-zero sample. The C divides by zero when every sample is 0.
- Equalize.LevelExact: the bounds and order of the equalised values are proved only when `total * (levels - 1)` fits 32 bits. Beyond that, the C's unsigned arithmetic wraps, and the model computes that wrapped value but proves nothing about it.
- Equalize.Histogram: the counts are unbounded integers; the C's 32-bit histogram would overflow only past 2^32 pixels.
- Labelling.BlobLabelling: requires at most 255 provisional labels. Beyond that the C indexes `labeltable` out of range, and the 8-bit labels wrap.
- Labelling.BlobLabelling: the converse of connectivity is not proved. Two pixels that share a final label are not shown to be joined by a path of foreground 8-neighbours.
- Draw.DrawOfGravity: requires the cross to lie inside the image and at least one channel. The C does no bounds check and writes into neighbouring rows or outside the buffer.
- Draw.DrawBorderBox: requires a non-empty box inside the image and at least one channel, for the same reason.
- BitPack.Pack: requires non-negative width and height, a packed buffer longer than the packed size (the C clears the byte after the last row), and distinct buffers.
- BitPack.Unpack: requires non-negative width and height and distinct buffers.
- NetpbmToken.GetToken: requires a buffer of at least 2 bytes. With one byte the C has no room for a character and the terminator, and writes out of bounds.
- NetpbmToken.GetToken: when a token fills the buffer, the C has already read the next character. That character is lost unless it is `#`, which is pushed back. The model keeps that behaviour, and does not state it as a fault.

## Findings

| source | as written | input that shows it | evidently intended | confidence | as-written member | corrected member |
|---|---|---|---|---|---|---|
| vc.c:681-694 | the channel loops store 255 at `y * bytesperline + x * channels` on every pass, so only channel 0 of the outline is painted | a 1 x 1 RGB image holding (0, 0, 0) with a box on its one pixel becomes (255, 0, 0) | every channel is painted, at `... + x * channels + c`, so the outline is white (255, 255, 255) | not executed | Draw.BoxAsWrittenWitness | Draw.DrawBorderBox |
