# Image transformer core, modelled in Dafny

This project models the integer image-processing core of a small Go image
service. The service holds one source image and three images derived from
it, and reports a 256-bucket brightness histogram of each:

- the **negative** (NegativeTransformer): R, G and B complemented, alpha kept;
- the **median-filtered** image (MedianImageFilter): each pixel's R, G and B
  come from the sorted samples of a square mask around it, with mask
  positions outside the image clamped onto the border;
- the **improved** image (brightness/contrast): only the nil guard and the
  clamping of the two percentages are modelled. The per-pixel colour map is
  a parameter.

Files:

- `wrappers.dfy`: `Option` (Go's nil), `Result` and the error kinds.
- `images.dfy`: Go's `image.RGBA` as a bounds rectangle plus a raster-order
  pixel sequence. Also `At` (zero colour outside the bounds), `MapImage`, and
  the offset/coordinate correspondence.
- `intsort.dfy`: `sort.Ints` as an in-place sort of an `array<int>`, proved
  to produce `SortSeq` of the old contents. `SortSeq` is a functional
  insertion sort, proved sorted, a permutation, and the only sorted
  permutation.
- `negative.dfy`: NegativeTransformer.
- `median.dfy`:
  - the construction guard of NewMedianImageFilter;
  - the sampling, sorting and picking of `MedianImageFilter.GetColor`, as a
    class over the three mutable sample buffers;
  - `FilteredImage`, the image FilterImage builds.
- `histogram.dfy`: `getHistogram` as a loop over a 256-entry array, proved to
  produce `HistogramOf` of the pixels.
- `pipeline.dfy`: the `ImageTransformer` class with its four optional images
  and its operations.

Go's integer conversions are written out:

- `uint8(int)` keeps the low 8 bits (`% 256`);
- `^v` on a `uint8` flips eight bits;
- `Color.RGBA()` widens a channel to 16 bits as `v * 0x101`;
- the histogram sum is `uint32` arithmetic, divided by
  `histogramRatio = 65536 / 256 * 3 = 768`.

The mask bound `float64(maskSize) > minSide * 0.1` is modelled as the
integer test `10 * maskSize > minSide`.

`sort.Ints` is not an insertion sort. The sorted rearrangement of a sequence
is unique, though (`IntSort.SortedPermutationIsSortSeq`), so the model's
result does not depend on the algorithm.

A mask may be at most a tenth of the smaller image side, so a 3 × 3 mask on
a 4 × 4 image is rejected (10 · 3 > 4). `Median.AcceptedMask` states that an
accepted image is at least 30 pixels on each side.

The median pick is kept as written. The index is `n / 2 + 1`, one place
above the middle of the sorted samples. `Median.MedianPickRank` states which
rank this is, and `Median.PickAboveMedian` shows that it differs from the
median. Whether the offset is intended cannot be told from the code, so it is
modelled, not corrected.

## Model

| member | source | states |
|---|---|---|
| Images.ToUint8 | MedianImageFilter.go:78-80 | the uint8 conversion keeps a value already in 0..255 and always differs from its argument by a multiple of 256 |
| Images.At | MedianImageFilter.go:56 | a coordinate outside the bounds reads as the zero colour |
| Images.MapImage | ImageTransformer.go:78-79 | the image built by a per-pixel map has the source bounds |
| Images.MapImageAt | ImageTransformer.go:83-90 | pixel (x, y) of the mapped image is the map of source pixel (x, y) |
| Images.RowAt | ImageTransformer.go:178-179 | row y of an image is the run of Dx pixels from offset (y - minY) * Dx, inside the pixel sequence |
| Images.PixelOfOffset | ImageTransformer.go:178-179 | the coordinates recovered from the offset of (x, y) are (x, y) |
| Images.OffsetOfPixel | ImageTransformer.go:178-179 | every offset below Dx * Dy is the offset of a coordinate inside the bounds |
| Negative.FlipBits | NegativeTransformer.go:16-18 | flipping all bits of a width-bit number v gives 2^width - 1 - v |
| Negative.Complement | NegativeTransformer.go:16-18 | ^v on a uint8 is 255 - v |
| Negative.GetColor | NegativeTransformer.go:13-21 | never fails; each of R, G, B becomes 255 minus itself and alpha is unchanged |
| Negative.Apply | ImageTransformer.go:85-88 | the colour stored for a pixel: each of R, G, B and its source channel add up to 255, and alpha is unchanged |
| Negative.Involution | NegativeTransformer.go:13-21 | negating a colour twice gives it back |
| Negative.MidGrey | NegativeTransformer.go:16-18 | (128, 128, 128, 255) becomes (127, 127, 127, 255) |
| Negative.ImageInvolution | ImageTransformer.go:83-90 | the negative of the negative image is the image |
| IntSort.SortSeqSorted | MedianImageFilter.go:69-71 | the reference sort is ascending, keeps the length and is a permutation |
| IntSort.SortedUnique | MedianImageFilter.go:69-71 | two ascending sequences with the same elements are equal |
| IntSort.SortedPermutationIsSortSeq | MedianImageFilter.go:69-71 | any ascending permutation of s is the reference sort of s, whatever algorithm produced it |
| IntSort.InsertSorted | MedianImageFilter.go:69-71 | inserting into an ascending sequence keeps it ascending and adds exactly the one element |
| IntSort.SortInts | MedianImageFilter.go:69-71 | sorting in place leaves exactly the reference sort of the old array contents |
| IntSort.SinkInto | MedianImageFilter.go:69-71 | one pass extends the sorted prefix by one element and permutes the array |
| IntSort.SortSeqCounts | MedianImageFilter.go:69-71 | sorting keeps how many elements lie below, or at most at, any value |
| IntSort.SortedRankBelow | MedianImageFilter.go:75 | in an ascending sequence at most k elements lie strictly below anything not above element k |
| IntSort.SortedRankAtMost | MedianImageFilter.go:75 | in an ascending sequence at least k + 1 elements are at most anything not below element k |
| Median.MaskSizeRejected | MedianImageFilter.go:31 | a mask that passes the guard is odd, 2 * (maskSize / 2) + 1 with maskSize / 2 >= 1, and at most a tenth of each side |
| Median.MinSide | MedianImageFilter.go:29 | the smaller of the two image sides |
| Median.CheckFilter | MedianImageFilter.go:24-33 | success exactly when the source is non-nil and the mask is odd, at least 3, and at most a tenth of both sides; a nil source gives the missing-source error, any other failure the mask-size error |
| Median.AcceptedMask | MedianImageFilter.go:31-41 | an accepted mask is 2 * maskEdge + 1 with maskEdge >= 1, and the image is at least 30 pixels on each side |
| Median.BoundaryAccepted | MedianImageFilter.go:31 | a mask of exactly a tenth of the smaller side is accepted, the next odd size is not |
| Median.Clamp | MedianImageFilter.go:51-54 | the clamped coordinate lies in the range, equals the coordinate inside it and the nearest end outside it |
| Median.SamplePoint | MedianImageFilter.go:48-54 | the k-th mask position, counted row by row from the top-left corner, each coordinate clamped; always inside the image |
| Median.Samples | MedianImageFilter.go:48-63 | one channel's samples: maskSize * maskSize values, each in 0..255 |
| Median.MedianPickRank | MedianImageFilter.go:69-80 | the picked value is a sample; at most n / 2 + 1 samples lie below it and at least n / 2 + 2 are at most it |
| Median.MedianIndexValid | MedianImageFilter.go:75 | for every accepted mask the index n / 2 + 1 lies inside the n-sample buffer |
| Median.FilterColorAt | MedianImageFilter.go:44-85 | the colour GetColor returns for (px, py); its alpha is the unclamped centre pixel's, its channels are described by FilterColorFromWindow and MedianPickRank |
| Median.FilterColorFromWindow | MedianImageFilter.go:77-82 | each channel of the output is one of that channel's samples; alpha is the unclamped centre pixel's |
| Median.UniformWindow | MedianImageFilter.go:44-85 | a window whose samples all share c's colour channels gives those channels back |
| Median.PickAboveMedian | MedianImageFilter.go:75 | with five samples lo and four samples hi the pick is hi, not the median lo |
| Median.FilteredImage | ImageTransformer.go:56-68 | the image FilterImage builds has the source bounds; its pixels are described by FilteredImageAt and FilteredImageUnique |
| Median.FilteredImageAt | ImageTransformer.go:56-66 | pixel (x, y) of the filtered image is the filter's colour for (x, y) |
| Median.FilteredImageUnique | ImageTransformer.go:56-66 | an image with the source bounds and the filter's colour at every coordinate is the filtered image |
| Median.UniformImageUnchanged | ImageTransformer.go:49-71 | filtering an image of one colour gives the same image back |
| Median.MedianBuffer.constructor | MedianImageFilter.go:35-39 | three fresh, distinct buffers of n samples each |
| Median.MedianImageFilter.constructor | MedianImageFilter.go:41 | the filter holds the given source, maskEdge, bounds and buffer |
| Median.MedianImageFilter.GetColor | MedianImageFilter.go:44-85 | never fails; returns the filter's colour for the point and leaves each buffer holding the sorted samples of its channel |
| Median.MedianImageFilter.SampleWindow | MedianImageFilter.go:46-65 | the two mask loops fill each buffer with its channel's samples in raster order |
| Median.MedianImageFilter.SampleRow | MedianImageFilter.go:49-63 | one mask row extends the filled buffer prefix by maskSize samples |
| Median.NewMedianImageFilter | MedianImageFilter.go:24-42 | fails exactly when the check does, with its error; otherwise a valid filter on the source with maskEdge = maskSize / 2 and fresh buffers of maskSize * maskSize samples |
| Histogram.Widen | ImageTransformer.go:180 | the 16-bit channel is in 0..65535 and is the 8-bit value times 257 |
| Histogram.ChannelSum | ImageTransformer.go:180-181 | the sum of the three 16-bit channels is at most 3 * 65535, so the uint32 addition never wraps |
| Histogram.Bucket | ImageTransformer.go:174-181 | the bucket index is in 0..255 and is the channel sum divided by 768 |
| Histogram.BucketExtremes | ImageTransformer.go:174-181 | black falls in bucket 0 and white in bucket 255, whatever the alpha |
| Histogram.BucketMonotone | ImageTransformer.go:181 | a pixel brighter in every channel never falls in a lower bucket |
| Histogram.CountInBucket | ImageTransformer.go:182 | the number of pixels whose brightness falls in bucket k, which `hist[brightness]++` builds; never more than the number of pixels |
| Histogram.HistogramOf | ImageTransformer.go:178-184 | the histogram has 256 buckets |
| Histogram.HistogramSnoc | ImageTransformer.go:182 | one more pixel adds one to its own bucket and leaves the others alone |
| Histogram.HistogramTotal | ImageTransformer.go:178-184 | the bucket counts add up to the number of pixels |
| Histogram.ImageHistogramTotal | ImageTransformer.go:176-184 | for an image the counts add up to width * height |
| Histogram.GetHistogram | ImageTransformer.go:169-187 | a nil image gives the missing-image error and 256 zero counts; otherwise no error and the histogram of the image's pixels |
| Histogram.CountRow | ImageTransformer.go:179-183 | one row adds its pixels to the counts of the rows before it |
| Histogram.CountPixel | ImageTransformer.go:180-182 | one pixel is counted into its bucket |
| Histogram.CountStep | ImageTransformer.go:182 | the count of one more pixel grows by one in its own bucket and nowhere else |
| Pipeline.ClampPercentage | ImageTransformer.go:102-108 | the percentage clamped to -100..100, which is what clamping brightness / 100 to [-1, 1] and (100 + contrast) / 200 to [0, 1] depends on |
| Pipeline.ApplyPixelTransformer | ImageTransformer.go:111-123 | on success an image with the source bounds whose every pixel is the transformer's colour for the source pixel; on failure the error of the first failing pixel in raster order |
| Pipeline.TransformRow | ImageTransformer.go:84-89 | one row is transformed, or the first error in it is reported |
| Pipeline.FilterPixels | ImageTransformer.go:56-68 | the image built by calling GetColor at every coordinate is the filtered image |
| Pipeline.FilterRows | ImageTransformer.go:59-66 | the row loop stores the filter's colour for every coordinate |
| Pipeline.FilterRow | ImageTransformer.go:60-65 | one row of filter colours is stored after the rows before it |
| Pipeline.FilterPixel | ImageTransformer.go:61-64 | the colour for one coordinate is stored at its offset |
| Pipeline.FilterColor | ImageTransformer.go:27-29 | the call through ImageFilterInterface yields the filter's colour for the point |
| Pipeline.DumpImage | ImageTransformer.go:146-151 | a nil image gives the missing-target error; otherwise the encoder's outcome |
| Pipeline.ImageTransformer.constructor | ImageTransformer.go:20-25 | every image starts nil |
| Pipeline.ImageTransformer.LoadSourceImage | ImageTransformer.go:35-47 | the source becomes the decoded image, nil on a decode error, which is returned; nothing else changes |
| Pipeline.ImageTransformer.TransformImage | ImageTransformer.go:73-95 | a nil source gives the missing-source error and no change; otherwise the transformed image is the negative of the source |
| Pipeline.ImageTransformer.FilterImage | ImageTransformer.go:49-71 | the error is the filter check's; on error nothing changes, otherwise the filtered image is the median filter of the source with maskEdge = maskSize / 2 |
| Pipeline.ImageTransformer.ImproveImage | ImageTransformer.go:97-128 | a nil source gives the missing-source error; an error is the error of the first failing pixel in raster order and leaves the improved image unchanged; success stores the per-pixel map of the clamped percentages applied to the source |
| Pipeline.ImageTransformer.GetSourceHistogram | ImageTransformer.go:153-155 | the histogram of the source, or the missing-image error with 256 zero counts |
| Pipeline.ImageTransformer.GetTransformedHistogram | ImageTransformer.go:157-159 | the histogram of the negative, or the missing-image error with 256 zero counts |
| Pipeline.ImageTransformer.GetFilteredHistogram | ImageTransformer.go:161-163 | the histogram of the filtered image, or the missing-image error with 256 zero counts |
| Pipeline.ImageTransformer.GetImprovedHistogram | ImageTransformer.go:165-167 | the histogram of the improved image, or the missing-image error with 256 zero counts |

## Left out

- Image decoding and encoding: the decoder's outcome is a parameter of `LoadSourceImage` and the encoder a parameter of `DumpImage`. The four `Dump*Image` wrappers are left out; each only passes one field to `DumpImage`.
- Colour conversion (`color.RGBAModel.Convert`): every image is an `image.RGBA` of 8-bit channels, so conversion is the identity. A decoded image of another colour model is not modelled.
- Pipeline.ImageTransformer.ImproveImage: the BrightnessContrastTransformer and its floating-point ratios are left out. The per-pixel map is the parameter `transformerFor`, applied to the two clamped percentages. The float clamping of the ratios is represented by `ClampPercentage`.
- Median.MedianImageFilter.GetColor: it can never return an error, so the error branch of FilterImage's loop is not modelled.
- Pipeline.ImageTransformer.TransformImage: NegativeTransformer never fails either, so its loop's error return is proved never taken rather than modelled as a state.
- Logging of the image format is left out.
- The HTTP service (WebService.go) and the entry point (main.go) are left out. WebService.go only serves a static page, and neither file uses the transformer; the model treats each operation as running alone.
