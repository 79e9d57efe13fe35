/**
 * The part of Go's `image` and `image/color` packages the core relies on:
 * 8-bit RGBA colours, half-open rectangles and an in-memory RGBA image
 * whose pixels are stored row by row, the way `image.RGBA` stores `Pix`.
 */
module Images {

  /** An 8-bit channel value (Go's uint8). */
  newtype byte = x: int | 0 <= x < 256

  /** Go's uint8(v) conversion of an int: it keeps the low eight bits. */
  function ToUint8(v: int): (r: byte)
    ensures 0 <= v < 256 ==> r as int == v
    ensures (r as int - v) % 256 == 0
  {
    (v % 256) as byte
  }

  /** color.RGBA: red, green, blue and alpha, each a byte. */
  datatype Color = Color(r: byte, g: byte, b: byte, a: byte)

  /** The zero color.RGBA, which image.RGBA.At answers outside its bounds. */
  const Transparent: Color := Color(0, 0, 0, 0)

  /** image.Rectangle: Min is inclusive, Max exclusive. */
  datatype Rect = Rect(minX: int, minY: int, maxX: int, maxY: int) {
    predicate WellFormed() { minX <= maxX && minY <= maxY }
    function Dx(): int { maxX - minX }
    function Dy(): int { maxY - minY }
    predicate Contains(x: int, y: int) { minX <= x < maxX && minY <= y < maxY }
  }

  /** The raw layout of an image.RGBA: bounds and one colour per pixel in raster order. */
  datatype RGBA = RGBA(bounds: Rect, pix: seq<Color>) {
    predicate Valid() {
      bounds.WellFormed() && |pix| == bounds.Dx() * bounds.Dy()
    }
  }

  /** An image as the pipeline sees it: well-formed bounds and exactly Dx*Dy pixels. */
  type Image = m: RGBA | m.Valid() witness EmptyImage()

  function EmptyImage(): (m: RGBA)
    ensures m.Valid()
  {
    var b := Rect(0, 0, 0, 0);
    assert b.Dx() == 0;
    RGBA(b, [])
  }

  /** Position of pixel (x, y) in `pix` (Go's PixOffset, counted in pixels). */
  function PixOffset(b: Rect, x: int, y: int): int {
    (y - b.minY) * b.Dx() + (x - b.minX)
  }

  lemma OffsetInRange(b: Rect, x: int, y: int)
    requires b.Contains(x, y)
    ensures 0 <= PixOffset(b, x, y) < b.Dx() * b.Dy()
  {
    var dx, dy, w, h := x - b.minX, y - b.minY, b.Dx(), b.Dy();
    assert dy * w <= (h - 1) * w by { MulMonotone(dy, h - 1, w); }
  }

  /** Row y + 1 starts one row width after row y. */
  lemma NextRow(b: Rect, y: int)
    ensures (y + 1 - b.minY) * b.Dx() == (y - b.minY) * b.Dx() + b.Dx()
  {
  }

  /** Rows before the last one end inside the image. */
  lemma RowInside(b: Rect, y: int)
    requires b.WellFormed() && b.minY <= y < b.maxY
    ensures (y - b.minY) * b.Dx() + b.Dx() <= b.Dx() * b.Dy()
  {
    MulMonotone(y - b.minY + 1, b.Dy(), b.Dx());
  }

  lemma MulMonotone(a: int, b: int, c: nat)
    requires a <= b
    ensures a * c <= b * c
  {
  }

  /** X coordinate of the pixel stored at position p. */
  function PixelX(b: Rect, p: int): int
    requires b.Dx() > 0
  {
    b.minX + p % b.Dx()
  }

  /** Y coordinate of the pixel stored at position p. */
  function PixelY(b: Rect, p: int): int
    requires b.Dx() > 0
  {
    b.minY + p / b.Dx()
  }

  /** Positions and coordinates are two views of the same raster order. */
  lemma {:induction false} PixelOfOffset(b: Rect, x: int, y: int)
    requires b.Contains(x, y)
    ensures b.Dx() > 0
    ensures PixelX(b, PixOffset(b, x, y)) == x && PixelY(b, PixOffset(b, x, y)) == y
  {
    var dx, dy, w := x - b.minX, y - b.minY, b.Dx();
    DivModUnique(dy * w + dx, w, dy, dx);
  }

  lemma {:induction false} OffsetOfPixel(b: Rect, p: int)
    requires b.WellFormed() && 0 <= p < b.Dx() * b.Dy()
    ensures b.Dx() > 0
    ensures b.Contains(PixelX(b, p), PixelY(b, p))
    ensures PixOffset(b, PixelX(b, p), PixelY(b, p)) == p
  {
    var w, h := b.Dx(), b.Dy();
    assert w > 0;
    var q, r := p / w, p % w;
    assert p == q * w + r;
    if q >= h {
      MulMonotone(h, q, w);
      assert false;
    }
  }

  lemma {:induction false} DivModUnique(n: int, d: int, q: int, r: int)
    requires d > 0 && 0 <= r < d && n == q * d + r
    ensures n / d == q && n % d == r
  {
    var q', r' := n / d, n % d;
    assert n == q' * d + r';
    if q' < q {
      MulMonotone(q' + 1, q, d);
      assert false;
    } else if q < q' {
      MulMonotone(q + 1, q', d);
      assert false;
    }
  }

  /** image.RGBA.At: the stored colour inside the bounds, the zero colour outside. */
  function At(m: Image, x: int, y: int): (c: Color)
    ensures !m.bounds.Contains(x, y) ==> c == Transparent
  {
    if m.bounds.Contains(x, y) then
      OffsetInRange(m.bounds, x, y);
      m.pix[PixOffset(m.bounds, x, y)]
    else
      Transparent
  }

  /** The image a per-pixel colour map produces: same bounds, f applied to every pixel. */
  function MapImage(m: Image, f: Color -> Color): (r: Image)
    ensures r.bounds == m.bounds
  {
    RGBA(m.bounds, seq(|m.pix|, i requires 0 <= i < |m.pix| => f(m.pix[i])))
  }

  /** Row y of m is the slice of Dx pixels starting at offset rowStart = (y - minY) * Dx. */
  lemma RowAt(m: Image, y: int, rowStart: int)
    requires m.bounds.minY <= y < m.bounds.maxY
    requires rowStart == (y - m.bounds.minY) * m.bounds.Dx()
    ensures 0 <= rowStart && rowStart + m.bounds.Dx() <= |m.pix|
    ensures forall x :: m.bounds.minX <= x < m.bounds.maxX ==> At(m, x, y) == m.pix[rowStart + (x - m.bounds.minX)]
  {
    RowInside(m.bounds, y);
    MulMonotone(0, y - m.bounds.minY, m.bounds.Dx());
  }

  /** Each pixel of MapImage(m, f) is f of the pixel of m at the same coordinate. */
  lemma MapImageAt(m: Image, f: Color -> Color, x: int, y: int)
    requires m.bounds.Contains(x, y)
    ensures At(MapImage(m, f), x, y) == f(At(m, x, y))
  {
    OffsetInRange(m.bounds, x, y);
  }

}
