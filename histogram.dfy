/**
 * The brightness histogram of ImageTransformer.getHistogram: every pixel is
 * put in one of 256 buckets by the sum of its 16-bit R, G and B values.
 */
module Histogram {
  import opened Images
  import opened Wrappers

  /** HISTOGRAM_WIDTH: number of buckets. */
  const HistogramWidth: int := 256

  /** histogramRatio = 1 << 16 / HISTOGRAM_WIDTH * 3, evaluated left to right as Go does. */
  const HistogramRatio: int := 65536 / HistogramWidth * 3

  /** The uint32 channel Color.RGBA() reports for an 8-bit channel v: v | v << 8, i.e. v * 0x101. */
  function Widen(v: byte): (w: int)
    ensures 0 <= w <= 65535
    ensures w / 257 == v as int && w % 257 == 0
  {
    v as int * 0x100 + v as int
  }

  /** Go's uint32 addition wraps modulo 2^32. */
  function Wrap32(v: int): (r: int)
    ensures 0 <= v < 0x1_0000_0000 ==> r == v
  {
    v % 0x1_0000_0000
  }

  /** The sum of the three 16-bit colour channels, which never reaches 2^32. */
  function ChannelSum(c: Color): (s: int)
    ensures 0 <= s <= 3 * 65535
  {
    Widen(c.r) + Widen(c.g) + Widen(c.b)
  }

  /** The bucket of a pixel: int((r + g + b) / histogramRatio) in uint32 arithmetic. */
  function Bucket(c: Color): (k: int)
    ensures 0 <= k < HistogramWidth
    ensures k == ChannelSum(c) / HistogramRatio
  {
    Wrap32(Widen(c.r) + Widen(c.g) + Widen(c.b)) / HistogramRatio
  }

  /** Black falls in bucket 0 and white in bucket 255, whatever the alpha. */
  lemma BucketExtremes(a: byte)
    ensures Bucket(Color(0, 0, 0, a)) == 0
    ensures Bucket(Color(255, 255, 255, a)) == HistogramWidth - 1
  {
  }

  /** A brighter pixel never falls in a lower bucket. */
  lemma BucketMonotone(c: Color, d: Color)
    requires c.r <= d.r && c.g <= d.g && c.b <= d.b
    ensures Bucket(c) <= Bucket(d)
  {
    var s, t := ChannelSum(c), ChannelSum(d);
    assert s <= t;
    assert s / 768 <= t / 768;
  }

  /** The number of pixels of pix in bucket k. */
  function CountInBucket(pix: seq<Color>, k: int): (n: nat)
    ensures n <= |pix|
  {
    if pix == [] then 0
    else CountInBucket(pix[..|pix| - 1], k) + (if Bucket(pix[|pix| - 1]) == k then 1 else 0)
  }

  /** The histogram of a pixel sequence: the count of every bucket. */
  function HistogramOf(pix: seq<Color>): (h: seq<int>)
    ensures |h| == HistogramWidth
  {
    seq(HistogramWidth, k => CountInBucket(pix, k))
  }

  function Sum(s: seq<int>): int {
    if s == [] then 0 else Sum(s[..|s| - 1]) + s[|s| - 1]
  }

  /** One more pixel adds one to its own bucket and leaves the others alone. */
  lemma HistogramSnoc(pix: seq<Color>, c: Color)
    ensures HistogramOf(pix + [c]) == HistogramOf(pix)[Bucket(c) := HistogramOf(pix)[Bucket(c)] + 1]
  {
    assert (pix + [c])[..|pix|] == pix;
  }

  lemma {:induction false} SumPrefixSnoc(pix: seq<Color>, c: Color, n: nat)
    requires n <= HistogramWidth
    ensures Sum(HistogramOf(pix + [c])[..n]) == Sum(HistogramOf(pix)[..n]) + (if Bucket(c) < n then 1 else 0)
  {
    if n > 0 {
      var h, h' := HistogramOf(pix), HistogramOf(pix + [c]);
      SumPrefixSnoc(pix, c, n - 1);
      assert h[..n][..n - 1] == h[..n - 1];
      assert h'[..n][..n - 1] == h'[..n - 1];
      assert (pix + [c])[..|pix|] == pix;
    }
  }

  /** The counts of a histogram add up to the number of pixels. */
  lemma {:induction false} HistogramTotal(pix: seq<Color>)
    ensures Sum(HistogramOf(pix)) == |pix|
  {
    var h := HistogramOf(pix);
    assert h[..HistogramWidth] == h;
    if pix == [] {
      SumOfZeros(h, HistogramWidth);
    } else {
      var init, last := pix[..|pix| - 1], pix[|pix| - 1];
      assert init + [last] == pix;
      HistogramTotal(init);
      SumPrefixSnoc(init, last, HistogramWidth);
      assert HistogramOf(init)[..HistogramWidth] == HistogramOf(init);
    }
  }

  lemma {:induction false} SumOfZeros(h: seq<int>, n: nat)
    requires n <= |h| && forall k :: 0 <= k < |h| ==> h[k] == 0
    ensures Sum(h[..n]) == 0
  {
    if n > 0 {
      assert h[..n][..n - 1] == h[..n - 1];
      SumOfZeros(h, n - 1);
    }
  }

  /** For an image, the counts add up to width * height. */
  lemma ImageHistogramTotal(m: Image)
    ensures Sum(HistogramOf(m.pix)) == m.bounds.Dx() * m.bounds.Dy()
  {
    HistogramTotal(m.pix);
  }

  /**
   * getHistogram: an error on a nil image, otherwise the count of every
   * bucket over all pixels of the image, visited in raster order.
   */
  method GetHistogram(targetImage: Option<Image>) returns (hist: seq<int>, err: Option<Error>)
    ensures |hist| == HistogramWidth
    ensures targetImage.None? ==> err == Some(ImageNotInitialized)
                                  && forall k :: 0 <= k < HistogramWidth ==> hist[k] == 0
    ensures targetImage.Some? ==> err == None && hist == HistogramOf(targetImage.value.pix)
  {
    var h := new int[HistogramWidth](_ => 0);
    if targetImage.None? {
      return h[..], Some(ImageNotInitialized);
    }
    var m := targetImage.value;
    var b := m.bounds;
    var w := b.Dx();
    assert |m.pix| == b.Dy() * w;
    var y := b.minY;
    var rowStart := 0;
    while y < b.maxY
      invariant b.minY <= y <= b.maxY
      invariant rowStart == (y - b.minY) * w
      invariant forall k :: 0 <= k < HistogramWidth ==> h[k] == CountInBucket(m.pix[..rowStart], k)
    {
      RowAt(m, y, rowStart);
      CountRow(h, m, y, rowStart);
      NextRow(b, y);
      rowStart := rowStart + w;
      y := y + 1;
    }
    assert m.pix[..rowStart] == m.pix;
    return h[..], None;
  }

  /** The inner loop of getHistogram: counts row y, stored from rowStart on, into h. */
  method CountRow(h: array<int>, m: Image, y: int, rowStart: int)
    requires h.Length == HistogramWidth
    requires m.bounds.minY <= y < m.bounds.maxY
    requires 0 <= rowStart && rowStart + m.bounds.Dx() <= |m.pix|
    requires forall x :: m.bounds.minX <= x < m.bounds.maxX ==> At(m, x, y) == m.pix[rowStart + (x - m.bounds.minX)]
    requires forall k :: 0 <= k < HistogramWidth ==> h[k] == CountInBucket(m.pix[..rowStart], k)
    modifies h
    ensures forall k :: 0 <= k < HistogramWidth ==> h[k] == CountInBucket(m.pix[..rowStart + m.bounds.Dx()], k)
  {
    var b := m.bounds;
    var x := b.minX;
    var p := rowStart;
    while x < b.maxX
      invariant b.minX <= x <= b.maxX
      invariant p == rowStart + (x - b.minX)
      invariant forall k :: 0 <= k < HistogramWidth ==> h[k] == CountInBucket(m.pix[..p], k)
    {
      var c := At(m, x, y);
      assert c == m.pix[p];
      CountPixel(h, m.pix, p, c);
      x := x + 1;
      p := p + 1;
    }
  }

  /** One step of the inner loop: pixel p, whose colour is c, is counted into its bucket. */
  method CountPixel(h: array<int>, pix: seq<Color>, p: nat, c: Color)
    requires h.Length == HistogramWidth && p < |pix| && c == pix[p]
    requires forall k :: 0 <= k < HistogramWidth ==> h[k] == CountInBucket(pix[..p], k)
    modifies h
    ensures forall k :: 0 <= k < HistogramWidth ==> h[k] == CountInBucket(pix[..p + 1], k)
  {
    var brightness := Bucket(c);
    CountStep(pix, p);
    h[brightness] := h[brightness] + 1;
  }

  /** Counting pixel p adds one to its own bucket and leaves the others alone. */
  lemma CountStep(pix: seq<Color>, p: nat)
    requires p < |pix|
    ensures forall k :: CountInBucket(pix[..p + 1], k) == CountInBucket(pix[..p], k) + (if Bucket(pix[p]) == k then 1 else 0)
  {
    assert pix[..p + 1][..p] == pix[..p];
  }
}
