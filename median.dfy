/**
 * MedianImageFilter: a spatial filter that gives each pixel a colour taken
 * from the sorted R, G and B samples of the square mask around it, with
 * out-of-image mask positions clamped to the nearest border pixel.
 */
module Median {
  import opened Images
  import opened IntSort
  import opened Wrappers

  /** math.Min of the two sides of the image. */
  function MinSide(b: Rect): (s: int)
    ensures s <= b.Dx() && s <= b.Dy()
    ensures s == b.Dx() || s == b.Dy()
  {
    if b.Dx() < b.Dy() then b.Dx() else b.Dy()
  }

  /**
   * The rejection guard of NewMedianImageFilter: an even mask, one below 3,
   * or one above FILTER_MASK_RATIO (0.1) times the smaller side. The float
   * test float64(maskSize) > minSide * 0.1 is the integer test below.
   */
  predicate MaskSizeRejected(b: Rect, maskSize: int): (rejected: bool)
    ensures !rejected ==> maskSize == MaskSide(maskSize / 2) && maskSize / 2 >= 1
    ensures !rejected ==> 10 * maskSize <= b.Dx() && 10 * maskSize <= b.Dy()
  {
    maskSize % 2 == 0 || maskSize < 3 || 10 * maskSize > MinSide(b)
  }

  /** Construction outcome: an error exactly when the source is nil or the mask is rejected. */
  function CheckFilter(sourceImage: Option<Image>, maskSize: int): (err: Option<Error>)
    ensures err.None? <==>
              sourceImage.Some? && maskSize % 2 == 1 && 3 <= maskSize
              && 10 * maskSize <= sourceImage.value.bounds.Dx()
              && 10 * maskSize <= sourceImage.value.bounds.Dy()
    ensures sourceImage.None? ==> err == Some(SourceNotInitialized)
    ensures sourceImage.Some? && err.Some? ==> err == Some(InvalidMaskSize)
  {
    if sourceImage.None? then Some(SourceNotInitialized)
    else if MaskSizeRejected(sourceImage.value.bounds, maskSize) then Some(InvalidMaskSize)
    else None
  }

  /** An accepted mask is odd, so it is 2 * maskEdge + 1 with maskEdge = maskSize / 2 >= 1, and the image is at least 30 pixels on each side. */
  lemma AcceptedMask(m: Image, maskSize: int)
    requires CheckFilter(Some(m), maskSize).None?
    ensures maskSize == 2 * (maskSize / 2) + 1 && maskSize / 2 >= 1
    ensures m.bounds.Dx() >= 30 && m.bounds.Dy() >= 30
  {
  }

  /** The mask bound is inclusive: an odd mask of exactly a tenth of the smaller side, at least 3, is accepted. */
  lemma {:induction false} BoundaryAccepted(m: Image, maskSize: int)
    requires maskSize % 2 == 1 && maskSize >= 3 && 10 * maskSize == MinSide(m.bounds)
    ensures CheckFilter(Some(m), maskSize).None?
    ensures CheckFilter(Some(m), maskSize + 2).Some?
  {
  }

  /** math.Max followed by math.Min, as GetColor clamps each mask coordinate. */
  function Clamp(v: int, lo: int, hi: int): (r: int)
    ensures lo <= hi ==> lo <= r <= hi
    ensures lo <= v <= hi ==> r == v
    ensures v < lo && lo <= hi ==> r == lo
    ensures hi < v ==> r == hi
  {
    var atLeast := if v < lo then lo else v;
    if atLeast < hi then atLeast else hi
  }

  /** Side length of the mask of a filter with the given maskEdge. */
  function MaskSide(edge: int): int {
    2 * edge + 1
  }

  /**
   * The clamped coordinate the k-th mask position around (px, py) reads:
   * positions are counted row by row, left to right, from the top-left corner.
   */
  function SamplePoint(b: Rect, edge: nat, px: int, py: int, k: nat): (p: (int, int))
    requires b.Dx() > 0 && b.Dy() > 0
    ensures b.Contains(p.0, p.1)
    ensures p.0 == Clamp(px - edge + k % MaskSide(edge), b.minX, b.maxX - 1)
    ensures p.1 == Clamp(py - edge + k / MaskSide(edge), b.minY, b.maxY - 1)
  {
    var side := MaskSide(edge);
    (Clamp(px - edge + k % side, b.minX, b.maxX - 1), Clamp(py - edge + k / side, b.minY, b.maxY - 1))
  }

  /** The colour of the k-th mask position around (px, py). */
  function WindowColor(m: Image, edge: nat, px: int, py: int, k: nat): Color
    requires m.bounds.Dx() > 0 && m.bounds.Dy() > 0
  {
    var p := SamplePoint(m.bounds, edge, px, py, k);
    At(m, p.0, p.1)
  }

  datatype Channel = Red | Green | Blue

  function ChannelOf(c: Color, ch: Channel): int {
    match ch
    case Red => c.r as int
    case Green => c.g as int
    case Blue => c.b as int
  }

  /** The maskSize * maskSize samples of one channel that GetColor writes into the buffer. */
  function Samples(m: Image, edge: nat, px: int, py: int, ch: Channel): (s: seq<int>)
    requires m.bounds.Dx() > 0 && m.bounds.Dy() > 0
    ensures |s| == MaskSide(edge) * MaskSide(edge)
    ensures forall k :: 0 <= k < |s| ==> 0 <= s[k] < 256
  {
    seq(MaskSide(edge) * MaskSide(edge), k requires 0 <= k => ChannelOf(WindowColor(m, edge, px, py, k), ch))
  }

  /** The element at index n / 2 + 1 of the ascending rearrangement of the n samples (medianIndex). */
  function MedianPick(s: seq<int>): int
    requires |s| >= 3
  {
    SortSeq(s)[|s| / 2 + 1]
  }

  /**
   * The pick is a sample; at most n / 2 + 1 samples lie strictly below it and
   * at least n / 2 + 2 are at most it: it is the (n / 2 + 2)-th smallest
   * sample, one place above the middle one.
   */
  lemma MedianPickRank(s: seq<int>)
    requires |s| >= 3
    ensures MedianPick(s) in s
    ensures CountBelow(s, MedianPick(s)) <= |s| / 2 + 1
    ensures CountAtMost(s, MedianPick(s)) >= |s| / 2 + 2
  {
    var t, k := SortSeq(s), |s| / 2 + 1;
    SortSeqSorted(s);
    PickIsSample(s, t, k);
    SortSeqCounts(s, t[k]);
    SortedRankBelow(t, k, t[k]);
    SortedRankAtMost(t, k, t[k]);
  }

  /** Every element of a rearrangement of s is an element of s. */
  lemma PickIsSample(s: seq<int>, t: seq<int>, k: int)
    requires multiset(t) == multiset(s) && 0 <= k < |t|
    ensures t[k] in s
  {
    assert t[k] in multiset(t);
  }

  /** n = maskSize * maskSize >= 9 for every mask with maskEdge >= 1, so n / 2 + 1 < n. */
  lemma {:induction false} MedianIndexValid(edge: int)
    requires edge >= 1
    ensures MaskSide(edge) * MaskSide(edge) >= 9
    ensures MaskSide(edge) * MaskSide(edge) / 2 + 1 < MaskSide(edge) * MaskSide(edge)
  {
    var side := MaskSide(edge);
    MulMonotone(3, side, side);
    MulMonotone(3, side, 3);
  }

  /** The colour GetColor returns for (px, py): the picks of the three channels, and the alpha of the unclamped centre pixel. */
  function FilterColorAt(m: Image, edge: nat, px: int, py: int): (c: Color)
    requires edge >= 1 && m.bounds.Dx() > 0 && m.bounds.Dy() > 0
    ensures c.a == At(m, px, py).a
  {
    MedianIndexValid(edge);
    Color(ToUint8(MedianPick(Samples(m, edge, px, py, Red))),
          ToUint8(MedianPick(Samples(m, edge, px, py, Green))),
          ToUint8(MedianPick(Samples(m, edge, px, py, Blue))),
          At(m, px, py).a)
  }

  /** Each output channel is one of the samples of that channel; alpha is the centre pixel's. */
  lemma FilterColorFromWindow(m: Image, edge: nat, px: int, py: int)
    requires edge >= 1 && m.bounds.Dx() > 0 && m.bounds.Dy() > 0
    ensures FilterColorAt(m, edge, px, py).r as int in Samples(m, edge, px, py, Red)
    ensures FilterColorAt(m, edge, px, py).g as int in Samples(m, edge, px, py, Green)
    ensures FilterColorAt(m, edge, px, py).b as int in Samples(m, edge, px, py, Blue)
  {
    MedianIndexValid(edge);
    MedianPickRank(Samples(m, edge, px, py, Red));
    MedianPickRank(Samples(m, edge, px, py, Green));
    MedianPickRank(Samples(m, edge, px, py, Blue));
  }

  /** A window whose samples all have the colour channels of c gives those channels back. */
  lemma UniformWindow(m: Image, edge: nat, px: int, py: int, c: Color)
    requires edge >= 1 && m.bounds.Dx() > 0 && m.bounds.Dy() > 0
    requires forall k :: 0 <= k < MaskSide(edge) * MaskSide(edge) ==>
               var w := WindowColor(m, edge, px, py, k); w.r == c.r && w.g == c.g && w.b == c.b
    ensures var f := FilterColorAt(m, edge, px, py); f.r == c.r && f.g == c.g && f.b == c.b
  {
    FilterColorFromWindow(m, edge, px, py);
  }

  /**
   * The index n / 2 + 1 is not the median: in a 3 x 3 window holding five
   * samples lo and four samples hi the true median is lo, yet the pick is hi.
   */
  lemma PickAboveMedian(s: seq<int>, lo: int, hi: int)
    requires lo <= hi && |s| == 9
    requires forall i :: 0 <= i < 5 ==> s[i] == lo
    requires forall i :: 5 <= i < 9 ==> s[i] == hi
    ensures MedianPick(s) == hi
  {
    assert Sorted(s);
    SortedPermutationIsSortSeq(s, s);
  }

  /** The image FilterImage builds: FilterColorAt at every coordinate of the source bounds. */
  function FilteredImage(m: Image, edge: nat): (r: Image)
    requires edge >= 1 && m.bounds.Dx() > 0 && m.bounds.Dy() > 0
    ensures r.bounds == m.bounds
  {
    RGBA(m.bounds, seq(|m.pix|, p requires 0 <= p < |m.pix| =>
      FilterColorAt(m, edge, PixelX(m.bounds, p), PixelY(m.bounds, p))))
  }

  /** Each pixel (x, y) of the filtered image is the filter's colour for (x, y). */
  lemma FilteredImageAt(m: Image, edge: nat, x: int, y: int)
    requires edge >= 1 && m.bounds.Contains(x, y)
    ensures At(FilteredImage(m, edge), x, y) == FilterColorAt(m, edge, x, y)
  {
    OffsetInRange(m.bounds, x, y);
    PixelOfOffset(m.bounds, x, y);
  }

  /** The filtered image is the only image with the source bounds and the filter's colour at every coordinate. */
  lemma FilteredImageUnique(m: Image, edge: nat, r: Image)
    requires edge >= 1 && m.bounds.Dx() > 0 && m.bounds.Dy() > 0 && r.bounds == m.bounds
    requires forall x, y :: m.bounds.Contains(x, y) ==> At(r, x, y) == FilterColorAt(m, edge, x, y)
    ensures r == FilteredImage(m, edge)
  {
    var b, f := m.bounds, FilteredImage(m, edge);
    forall p | 0 <= p < |r.pix| ensures r.pix[p] == f.pix[p] {
      OffsetOfPixel(b, p);
      var x, y := PixelX(b, p), PixelY(b, p);
      assert At(r, x, y) == r.pix[p];
    }
    assert r.pix == f.pix;
  }

  /** An image known only by its bounds and its colour at every coordinate; it is FilteredImage(m, edge). */
  lemma FilteredTarget(m: Image, edge: nat) returns (t: Image)
    requires edge >= 1 && m.bounds.Dx() > 0 && m.bounds.Dy() > 0
    ensures t.bounds == m.bounds
    ensures forall x, y :: m.bounds.Contains(x, y) ==> At(t, x, y) == FilterColorAt(m, edge, x, y)
  {
    t := FilteredImage(m, edge);
    forall x, y | m.bounds.Contains(x, y) ensures At(t, x, y) == FilterColorAt(m, edge, x, y) {
      FilteredImageAt(m, edge, x, y);
    }
  }

  /** Filtering an image of one colour gives the same image back. */
  lemma {:induction false} UniformImageUnchanged(m: Image, edge: nat, c: Color)
    requires edge >= 1 && m.bounds.Dx() > 0 && m.bounds.Dy() > 0
    requires forall i :: 0 <= i < |m.pix| ==> m.pix[i] == c
    ensures FilteredImage(m, edge) == m
  {
    var b := m.bounds;
    forall x, y | b.Contains(x, y) ensures At(m, x, y) == c {
      OffsetInRange(b, x, y);
    }
    var f := FilteredImage(m, edge);
    forall p | 0 <= p < |m.pix| ensures f.pix[p] == m.pix[p] {
      OffsetOfPixel(b, p);
      var x, y := PixelX(b, p), PixelY(b, p);
      UniformWindow(m, edge, x, y, c);
    }
  }

  /** MedianBuffer: the three sample slices of one filter. */
  class MedianBuffer {
    const R: array<int>
    const G: array<int>
    const B: array<int>

    /** make([]int, n) three times. */
    constructor (n: nat)
      ensures R.Length == n && G.Length == n && B.Length == n
      ensures fresh(R) && fresh(G) && fresh(B)
      ensures R != G && R != B && G != B
    {
      R := new int[n];
      G := new int[n];
      B := new int[n];
    }
  }

  class MedianImageFilter {
    const sourceImage: Image
    const maskEdge: int
    const bounds: Rect
    const buffer: MedianBuffer

    /** The filter NewMedianImageFilter builds: buffers of maskSize * maskSize samples, maskSize = 2 * maskEdge + 1. */
    ghost predicate Valid() {
      maskEdge >= 1 && bounds == sourceImage.bounds
      && bounds.Dx() > 0 && bounds.Dy() > 0
      && buffer.R.Length == MaskSide(maskEdge) * MaskSide(maskEdge)
      && buffer.G.Length == buffer.R.Length && buffer.B.Length == buffer.R.Length
      && buffer.R != buffer.G && buffer.R != buffer.B && buffer.G != buffer.B
    }

    constructor (sourceImage: Image, maskEdge: int, bounds: Rect, buffer: MedianBuffer)
      ensures this.sourceImage == sourceImage && this.maskEdge == maskEdge
      ensures this.bounds == bounds && this.buffer == buffer
    {
      this.sourceImage := sourceImage;
      this.maskEdge := maskEdge;
      this.bounds := bounds;
      this.buffer := buffer;
    }

    /** The first n buffer slots hold the first n mask samples around (px, py). */
    ghost predicate SampledUpTo(n: int, px: int, py: int)
      requires Valid()
      reads buffer.R, buffer.G, buffer.B
    {
      0 <= n <= buffer.R.Length
      && forall k :: 0 <= k < n ==>
           buffer.R[k] == ChannelOf(WindowColor(sourceImage, maskEdge, px, py, k), Red)
           && buffer.G[k] == ChannelOf(WindowColor(sourceImage, maskEdge, px, py, k), Green)
           && buffer.B[k] == ChannelOf(WindowColor(sourceImage, maskEdge, px, py, k), Blue)
    }

    /**
     * MedianImageFilter.GetColor: samples the clamped mask around the point
     * into the buffers, sorts them in place and picks index n / 2 + 1.
     * The error result is always nil.
     */
    method GetColor(pointX: int, pointY: int) returns (result: Color, err: Option<Error>)
      requires Valid()
      modifies buffer.R, buffer.G, buffer.B
      ensures err == None
      ensures result == FilterColorAt(sourceImage, maskEdge, pointX, pointY)
      ensures buffer.R[..] == SortSeq(Samples(sourceImage, maskEdge, pointX, pointY, Red))
      ensures buffer.G[..] == SortSeq(Samples(sourceImage, maskEdge, pointX, pointY, Green))
      ensures buffer.B[..] == SortSeq(Samples(sourceImage, maskEdge, pointX, pointY, Blue))
    {
      SampleWindow(pointX, pointY);
      ghost var red := Samples(sourceImage, maskEdge, pointX, pointY, Red);
      ghost var green := Samples(sourceImage, maskEdge, pointX, pointY, Green);
      ghost var blue := Samples(sourceImage, maskEdge, pointX, pointY, Blue);

      var centre := At(sourceImage, pointX, pointY);

      SortInts(buffer.R);
      SortInts(buffer.G);
      SortInts(buffer.B);
      assert buffer.R[..] == SortSeq(red) && buffer.G[..] == SortSeq(green) && buffer.B[..] == SortSeq(blue);

      MedianIndexValid(maskEdge);
      var medianIndex := buffer.R.Length / 2 + 1;
      assert buffer.R[medianIndex] == MedianPick(red);
      assert buffer.G[medianIndex] == MedianPick(green);
      assert buffer.B[medianIndex] == MedianPick(blue);
      result := Color(ToUint8(buffer.R[medianIndex]), ToUint8(buffer.G[medianIndex]),
                      ToUint8(buffer.B[medianIndex]), centre.a);
      err := None;
    }

    /** The two loops of GetColor: every mask sample around the point, written to the buffers in raster order. */
    method SampleWindow(pointX: int, pointY: int)
      requires Valid()
      modifies buffer.R, buffer.G, buffer.B
      ensures buffer.R[..] == Samples(sourceImage, maskEdge, pointX, pointY, Red)
      ensures buffer.G[..] == Samples(sourceImage, maskEdge, pointX, pointY, Green)
      ensures buffer.B[..] == Samples(sourceImage, maskEdge, pointX, pointY, Blue)
    {
      var side := MaskSide(maskEdge);
      var i := 0;
      var y := pointY - maskEdge;
      while y <= pointY + maskEdge
        invariant pointY - maskEdge <= y <= pointY + maskEdge + 1
        invariant i == (y - (pointY - maskEdge)) * side
        invariant SampledUpTo(i, pointX, pointY)
      {
        MulMonotone(y - (pointY - maskEdge) + 1, side, side);
        SampleRow(pointX, pointY, y, i);
        i := i + side;
        y := y + 1;
      }
      assert i == buffer.R.Length;
      SampledAll(pointX, pointY);
    }

    lemma SampledAll(px: int, py: int)
      requires Valid() && SampledUpTo(buffer.R.Length, px, py)
      ensures buffer.R[..] == Samples(sourceImage, maskEdge, px, py, Red)
      ensures buffer.G[..] == Samples(sourceImage, maskEdge, px, py, Green)
      ensures buffer.B[..] == Samples(sourceImage, maskEdge, px, py, Blue)
    {
    }

    /** The inner loop of GetColor: the mask row y, written from slot i on. */
    method SampleRow(pointX: int, pointY: int, y: int, i: int)
      requires Valid()
      requires pointY - maskEdge <= y <= pointY + maskEdge
      requires i == (y - (pointY - maskEdge)) * MaskSide(maskEdge)
      requires i + MaskSide(maskEdge) <= buffer.R.Length
      requires SampledUpTo(i, pointX, pointY)
      modifies buffer.R, buffer.G, buffer.B
      ensures SampledUpTo(i + MaskSide(maskEdge), pointX, pointY)
    {
      var side := MaskSide(maskEdge);
      var x0 := pointX - maskEdge;
      var j := i;
      var x := x0;
      while x <= pointX + maskEdge
        invariant x0 <= x <= pointX + maskEdge + 1
        invariant j == i + (x - x0)
        invariant SampledUpTo(j, pointX, pointY)
      {
        var realX := if x < bounds.minX then bounds.minX else x;
        realX := if realX < bounds.maxX - 1 then realX else bounds.maxX - 1;
        var realY := if y < bounds.minY then bounds.minY else y;
        realY := if realY < bounds.maxY - 1 then realY else bounds.maxY - 1;
        var c := At(sourceImage, realX, realY);
        DivModUnique(j, side, y - (pointY - maskEdge), x - x0);
        assert c == WindowColor(sourceImage, maskEdge, pointX, pointY, j);
        buffer.R[j] := c.r as int;
        buffer.G[j] := c.g as int;
        buffer.B[j] := c.b as int;
        j := j + 1;
        x := x + 1;
      }
    }
  }

  /**
   * NewMedianImageFilter: fails when the source is nil or the mask size is
   * rejected; otherwise a filter with maskEdge = maskSize / 2 and three fresh
   * buffers of maskSize * maskSize samples.
   */
  method NewMedianImageFilter(sourceImage: Option<Image>, maskSize: int) returns (r: Result<MedianImageFilter>)
    ensures r.Err? <==> CheckFilter(sourceImage, maskSize).Some?
    ensures r.Err? ==> Some(r.error) == CheckFilter(sourceImage, maskSize)
    ensures r.Ok? ==> r.value.Valid() && r.value.sourceImage == sourceImage.value
                      && r.value.bounds == sourceImage.value.bounds && r.value.maskEdge == maskSize / 2
    ensures r.Ok? ==> r.value.buffer.R.Length == maskSize * maskSize
    ensures r.Ok? ==> fresh(r.value.buffer.R) && fresh(r.value.buffer.G) && fresh(r.value.buffer.B)
  {
    var check := CheckFilter(sourceImage, maskSize);
    if check.Some? {
      return Err(check.value);
    }
    var m := sourceImage.value;
    AcceptedMask(m, maskSize);
    var buffer := new MedianBuffer(maskSize * maskSize);
    var filter := new MedianImageFilter(m, maskSize / 2, m.bounds, buffer);
    r := Ok(filter);
  }
}
