/**
 * ImageTransformer: holds a source image and the images derived from it
 * (negative, median-filtered, brightness/contrast-improved) and reports the
 * histogram of each.
 */
module Pipeline {
  import opened Images
  import opened Wrappers
  import Negative
  import Median
  import Histogram

  /**
   * ImproveImage's clamping of a percentage: brightness / 100 clamped to
   * [-1, 1] and (100 + contrast) / 200 clamped to [0, 1] both depend only on
   * the percentage clamped to [-100, 100].
   */
  function ClampPercentage(p: int): (r: int)
    ensures -100 <= r <= 100
    ensures -100 <= p <= 100 ==> r == p
    ensures p < -100 ==> r == -100
    ensures 100 < p ==> r == 100
  {
    if p < -100 then -100 else if p > 100 then 100 else p
  }

  /**
   * The raster loop of TransformImage and ImproveImage: a new image with the
   * source bounds whose pixel (x, y) is the transformer's colour for the
   * source pixel (x, y), visited row by row; the first error stops the loop.
   */
  method ApplyPixelTransformer(src: Image, pixelTransformer: Color -> Result<Color>) returns (res: Result<Image>)
    ensures res.Ok? ==> res.value.bounds == src.bounds
    ensures res.Ok? ==> forall i :: 0 <= i < |src.pix| ==> pixelTransformer(src.pix[i]) == Ok(res.value.pix[i])
    ensures res.Err? ==> exists i :: 0 <= i < |src.pix| && pixelTransformer(src.pix[i]) == Err(res.error)
                                     && forall j :: 0 <= j < i ==> pixelTransformer(src.pix[j]).Ok?
  {
    var b := src.bounds;
    var w := b.Dx();
    var result := new Color[|src.pix|](_ => Transparent);
    var y := b.minY;
    var rowStart := 0;
    while y < b.maxY
      invariant b.minY <= y <= b.maxY
      invariant rowStart == (y - b.minY) * w
      invariant forall p :: 0 <= p < rowStart ==> pixelTransformer(src.pix[p]) == Ok(result[p])
    {
      RowAt(src, y, rowStart);
      var err := TransformRow(src, pixelTransformer, result, y, rowStart);
      if err.Some? {
        return Err(err.value);
      }
      NextRow(b, y);
      rowStart := rowStart + w;
      y := y + 1;
    }
    assert rowStart == |src.pix|;
    return Ok(RGBA(b, result[..]));
  }

  /** The inner loop of ApplyPixelTransformer: row y, stored from rowStart on. */
  method TransformRow(src: Image, pixelTransformer: Color -> Result<Color>, result: array<Color>, y: int, rowStart: int)
    returns (err: Option<Error>)
    requires result.Length == |src.pix|
    requires src.bounds.minY <= y < src.bounds.maxY
    requires 0 <= rowStart && rowStart + src.bounds.Dx() <= |src.pix|
    requires forall x :: src.bounds.minX <= x < src.bounds.maxX ==> At(src, x, y) == src.pix[rowStart + (x - src.bounds.minX)]
    requires forall p :: 0 <= p < rowStart ==> pixelTransformer(src.pix[p]) == Ok(result[p])
    modifies result
    ensures err.None? ==> forall p :: 0 <= p < rowStart + src.bounds.Dx() ==> pixelTransformer(src.pix[p]) == Ok(result[p])
    ensures err.Some? ==> exists i :: 0 <= i < |src.pix| && pixelTransformer(src.pix[i]) == Err(err.value)
                                      && forall j :: 0 <= j < i ==> pixelTransformer(src.pix[j]).Ok?
  {
    var b := src.bounds;
    var x := b.minX;
    var p := rowStart;
    while x < b.maxX
      invariant b.minX <= x <= b.maxX
      invariant p == rowStart + (x - b.minX)
      invariant forall q :: 0 <= q < p ==> pixelTransformer(src.pix[q]) == Ok(result[q])
    {
      var original := At(src, x, y);
      assert original == src.pix[p];
      var c := pixelTransformer(original);
      if c.Err? {
        return Some(c.error);
      }
      result[p] := c.value;
      x := x + 1;
      p := p + 1;
    }
    return None;
  }

  /** FilterImage: the filter's colour at every coordinate of the source bounds. */
  method FilterPixels(filter: Median.MedianImageFilter) returns (res: Image)
    requires filter.Valid()
    modifies filter.buffer.R, filter.buffer.G, filter.buffer.B
    ensures res == Median.FilteredImage(filter.sourceImage, filter.maskEdge)
  {
    var src := filter.sourceImage;
    ghost var target := Median.FilteredTarget(src, filter.maskEdge);
    var result := FilterRows(filter, target);
    res := RGBA(src.bounds, result);
    assert res == target;
    Median.FilteredImageUnique(src, filter.maskEdge, res);
  }

  /** The raster loop of FilterImage: GetColor at every coordinate, row by row. */
  method FilterRows(filter: Median.MedianImageFilter, ghost target: Image) returns (result: seq<Color>)
    requires filter.Valid() && target.bounds == filter.bounds
    requires forall x, y :: filter.bounds.Contains(x, y) ==>
               At(target, x, y) == Median.FilterColorAt(filter.sourceImage, filter.maskEdge, x, y)
    modifies filter.buffer.R, filter.buffer.G, filter.buffer.B
    ensures result == target.pix
  {
    var b := filter.bounds;
    var w := b.Dx();
    var pixels := new Color[|filter.sourceImage.pix|](_ => Transparent);
    assert pixels.Length == |target.pix|;
    var y := b.minY;
    var rowStart := 0;
    while y < b.maxY
      invariant b.minY <= y <= b.maxY
      invariant rowStart == (y - b.minY) * w
      invariant 0 <= rowStart <= |target.pix|
      invariant pixels[..rowStart] == target.pix[..rowStart]
    {
      RowAt(target, y, rowStart);
      FilterRow(filter, pixels, y, rowStart, target);
      NextRow(b, y);
      rowStart := rowStart + w;
      y := y + 1;
    }
    assert rowStart == |target.pix|;
    assert pixels[..] == pixels[..rowStart];
    assert target.pix == target.pix[..rowStart];
    result := pixels[..];
  }

  /** The inner loop of FilterImage: row y of target, stored from rowStart on. */
  method FilterRow(filter: Median.MedianImageFilter, result: array<Color>, y: int, rowStart: int, ghost target: Image)
    requires filter.Valid() && target.bounds == filter.bounds
    requires result.Length == |target.pix|
    requires target.bounds.minY <= y < target.bounds.maxY
    requires 0 <= rowStart && rowStart + target.bounds.Dx() <= |target.pix|
    requires forall x :: target.bounds.minX <= x < target.bounds.maxX ==> At(target, x, y) == target.pix[rowStart + (x - target.bounds.minX)]
    requires forall x, y :: filter.bounds.Contains(x, y) ==>
               At(target, x, y) == Median.FilterColorAt(filter.sourceImage, filter.maskEdge, x, y)
    requires result[..rowStart] == target.pix[..rowStart]
    modifies result, filter.buffer.R, filter.buffer.G, filter.buffer.B
    ensures result[..rowStart + filter.bounds.Dx()] == target.pix[..rowStart + filter.bounds.Dx()]
  {
    var b := filter.bounds;
    var x := b.minX;
    var p := rowStart;
    while x < b.maxX
      invariant b.minX <= x <= b.maxX
      invariant p == rowStart + (x - b.minX)
      invariant result[..p] == target.pix[..p]
    {
      FilterPixel(filter, result, x, y, p, target);
      x := x + 1;
      p := p + 1;
    }
  }

  /** One step of the inner loop: the filter's colour for (x, y) is stored at offset p. */
  method FilterPixel(filter: Median.MedianImageFilter, result: array<Color>, x: int, y: int, p: int, ghost target: Image)
    requires filter.Valid()
    requires result.Length == |target.pix| && 0 <= p < result.Length
    requires filter.bounds.Contains(x, y) && At(target, x, y) == target.pix[p]
    requires forall x, y :: filter.bounds.Contains(x, y) ==>
               At(target, x, y) == Median.FilterColorAt(filter.sourceImage, filter.maskEdge, x, y)
    requires result[..p] == target.pix[..p]
    modifies result, filter.buffer.R, filter.buffer.G, filter.buffer.B
    ensures result[..p + 1] == target.pix[..p + 1]
  {
    var c := FilterColor(filter, x, y);
    result[p] := c;
    PrefixSnoc(result[..], target.pix, p);
  }

  /** Two sequences that agree below p and at p agree below p + 1. */
  lemma PrefixSnoc<T>(a: seq<T>, b: seq<T>, p: int)
    requires 0 <= p < |a| && p < |b|
    requires a[..p] == b[..p] && a[p] == b[p]
    ensures a[..p + 1] == b[..p + 1]
  {
    assert a[..p + 1] == a[..p] + [a[p]];
    assert b[..p + 1] == b[..p] + [b[p]];
  }

  /**
   * FilterImage calls GetColor through ImageFilterInterface, which exposes only
   * the colour; the error GetColor returns is always nil.
   */
  method FilterColor(filter: Median.MedianImageFilter, x: int, y: int) returns (c: Color)
    requires filter.Valid()
    modifies filter.buffer.R, filter.buffer.G, filter.buffer.B
    ensures c == Median.FilterColorAt(filter.sourceImage, filter.maskEdge, x, y)
  {
    var err;
    c, err := filter.GetColor(x, y);
  }

  /** Go's DumpImage guard: a nil image is an error; otherwise the encoder's outcome. */
  function DumpImage(targetImage: Option<Image>, encode: Image -> Option<Error>): (err: Option<Error>)
    ensures targetImage.None? ==> err == Some(TargetNotInitialized)
    ensures targetImage.Some? ==> err == encode(targetImage.value)
  {
    if targetImage.None? then Some(TargetNotInitialized) else encode(targetImage.value)
  }

  class ImageTransformer {
    var sourceImage: Option<Image>
    var transformedImage: Option<Image>
    var filteredImage: Option<Image>
    var improvedImage: Option<Image>

    /** The zero ImageTransformer{}: every image nil. */
    constructor ()
      ensures sourceImage == None && transformedImage == None
      ensures filteredImage == None && improvedImage == None
    {
      sourceImage, transformedImage, filteredImage, improvedImage := None, None, None, None;
    }

    /**
     * LoadSourceImage, with the outcome of image.Decode as a parameter:
     * the source becomes the decoded image, or nil when decoding failed.
     */
    method LoadSourceImage(decoded: Option<Image>) returns (err: Option<Error>)
      modifies this
      ensures sourceImage == decoded
      ensures err == if decoded.None? then Some(DecodeFailed) else None
      ensures transformedImage == old(transformedImage) && filteredImage == old(filteredImage)
      ensures improvedImage == old(improvedImage)
    {
      sourceImage := decoded;
      if decoded.None? {
        return Some(DecodeFailed);
      }
      return None;
    }

    /** TransformImage: the negative of the source, or an error when there is no source. */
    method TransformImage() returns (err: Option<Error>)
      modifies this
      ensures sourceImage == old(sourceImage) && filteredImage == old(filteredImage)
      ensures improvedImage == old(improvedImage)
      ensures sourceImage.None? ==> err == Some(SourceNotInitialized)
                                    && transformedImage == old(transformedImage)
      ensures sourceImage.Some? ==> err == None
                                    && transformedImage == Some(MapImage(sourceImage.value, Negative.Apply))
    {
      if sourceImage.None? {
        return Some(SourceNotInitialized);
      }
      var src := sourceImage.value;
      var res := ApplyPixelTransformer(src, Negative.GetColor);
      // NegativeTransformer.GetColor never fails, so the loop's error return is never taken.
      assert res.Ok?;
      var negative := MapImage(src, Negative.Apply);
      assert res.value.pix == negative.pix;
      transformedImage := Some(res.value);
      return None;
    }

    /**
     * FilterImage: the median-filtered source, or the construction error of
     * the filter, in which case nothing changes.
     */
    method FilterImage(maskSize: int) returns (err: Option<Error>)
      modifies this
      ensures sourceImage == old(sourceImage) && transformedImage == old(transformedImage)
      ensures improvedImage == old(improvedImage)
      ensures err == Median.CheckFilter(sourceImage, maskSize)
      ensures err.Some? ==> filteredImage == old(filteredImage)
      ensures err.None? ==> filteredImage == Some(Median.FilteredImage(sourceImage.value, maskSize / 2))
    {
      var r := Median.NewMedianImageFilter(sourceImage, maskSize);
      if r.Err? {
        return Some(r.error);
      }
      var filter := r.value;
      var res := FilterPixels(filter);
      filteredImage := Some(res);
      return None;
    }

    /**
     * ImproveImage: an error when there is no source; otherwise the pixel
     * transformer built for the clamped percentages is applied to every
     * pixel, and its first error leaves improvedImage as it was.
     */
    method ImproveImage(brightnessPercentage: int, contrastPercentage: int,
                        transformerFor: (int, int) -> (Color -> Result<Color>))
      returns (err: Option<Error>)
      modifies this
      ensures sourceImage == old(sourceImage) && transformedImage == old(transformedImage)
      ensures filteredImage == old(filteredImage)
      ensures sourceImage.None? ==> err == Some(SourceNotInitialized) && improvedImage == old(improvedImage)
      ensures sourceImage.Some? && err.Some? ==> improvedImage == old(improvedImage)
      ensures sourceImage.Some? && err.Some? ==>
                var t := transformerFor(ClampPercentage(brightnessPercentage), ClampPercentage(contrastPercentage));
                var src := sourceImage.value;
                exists i :: 0 <= i < |src.pix| && t(src.pix[i]) == Err(err.value)
                            && forall j :: 0 <= j < i ==> t(src.pix[j]).Ok?
      ensures sourceImage.Some? && err.None? ==>
                var t := transformerFor(ClampPercentage(brightnessPercentage), ClampPercentage(contrastPercentage));
                var src := sourceImage.value;
                improvedImage.Some? && improvedImage.value.bounds == src.bounds
                && forall i :: 0 <= i < |src.pix| ==> t(src.pix[i]) == Ok(improvedImage.value.pix[i])
    {
      if sourceImage.None? {
        return Some(SourceNotInitialized);
      }
      var pixelTransformer := transformerFor(ClampPercentage(brightnessPercentage), ClampPercentage(contrastPercentage));
      var res := ApplyPixelTransformer(sourceImage.value, pixelTransformer);
      if res.Err? {
        return Some(res.error);
      }
      improvedImage := Some(res.value);
      return None;
    }

    method GetSourceHistogram() returns (hist: seq<int>, err: Option<Error>)
      ensures |hist| == Histogram.HistogramWidth
      ensures sourceImage.None? ==> (err == Some(ImageNotInitialized)
                                && forall k :: 0 <= k < Histogram.HistogramWidth ==> hist[k] == 0)
      ensures sourceImage.Some? ==> err == None && hist == Histogram.HistogramOf(sourceImage.value.pix)
    {
      hist, err := Histogram.GetHistogram(sourceImage);
    }

    method GetTransformedHistogram() returns (hist: seq<int>, err: Option<Error>)
      ensures |hist| == Histogram.HistogramWidth
      ensures transformedImage.None? ==> (err == Some(ImageNotInitialized)
                                && forall k :: 0 <= k < Histogram.HistogramWidth ==> hist[k] == 0)
      ensures transformedImage.Some? ==> err == None && hist == Histogram.HistogramOf(transformedImage.value.pix)
    {
      hist, err := Histogram.GetHistogram(transformedImage);
    }

    method GetFilteredHistogram() returns (hist: seq<int>, err: Option<Error>)
      ensures |hist| == Histogram.HistogramWidth
      ensures filteredImage.None? ==> (err == Some(ImageNotInitialized)
                                && forall k :: 0 <= k < Histogram.HistogramWidth ==> hist[k] == 0)
      ensures filteredImage.Some? ==> err == None && hist == Histogram.HistogramOf(filteredImage.value.pix)
    {
      hist, err := Histogram.GetHistogram(filteredImage);
    }

    method GetImprovedHistogram() returns (hist: seq<int>, err: Option<Error>)
      ensures |hist| == Histogram.HistogramWidth
      ensures improvedImage.None? ==> (err == Some(ImageNotInitialized)
                                && forall k :: 0 <= k < Histogram.HistogramWidth ==> hist[k] == 0)
      ensures improvedImage.Some? ==> err == None && hist == Histogram.HistogramOf(improvedImage.value.pix)
    {
      hist, err := Histogram.GetHistogram(improvedImage);
    }
  }
}
