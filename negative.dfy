/**
 * NegativeTransformer: a stateless pixel transformer that inverts the colour
 * channels of a pixel and keeps its alpha.
 */
module Negative {
  import opened Images
  import opened Wrappers

  function Pow2(n: nat): (p: nat)
    ensures p >= 1
  {
    if n == 0 then 1 else 2 * Pow2(n - 1)
  }

  /** v of the given bit width with every bit flipped, least significant bit first. */
  function FlipBits(v: nat, width: nat): (r: nat)
    requires v < Pow2(width)
    ensures r == Pow2(width) - 1 - v
  {
    if width == 0 then 0 else (1 - v % 2) + 2 * FlipBits(v / 2, width - 1)
  }

  /** Go's unary ^ on a uint8: every one of the eight bits flipped. */
  function Complement(v: byte): (r: byte)
    ensures r as int == 255 - v as int
  {
    assert Pow2(8) == 256;
    FlipBits(v as nat, 8) as byte
  }

  /** NegativeTransformer.GetColor: never fails; R, G and B complemented, alpha kept. */
  function GetColor(c: Color): (r: Result<Color>)
    ensures r.Ok?
    ensures r.value.r as int == 255 - c.r as int
    ensures r.value.g as int == 255 - c.g as int
    ensures r.value.b as int == 255 - c.b as int
    ensures r.value.a == c.a
  {
    Ok(Color(Complement(c.r), Complement(c.g), Complement(c.b), c.a))
  }

  /** The colour map the pipeline applies: the colour GetColor returns. */
  function Apply(c: Color): (r: Color)
    ensures r.r as int + c.r as int == 255 && r.g as int + c.g as int == 255 && r.b as int + c.b as int == 255
    ensures r.a == c.a
  {
    GetColor(c).value
  }

  /** Negating twice gives the original colour back. */
  lemma Involution(c: Color)
    ensures Apply(Apply(c)) == c
  {
  }

  /** Mid grey (128, 128, 128) becomes (127, 127, 127); alpha 255 is kept. */
  lemma MidGrey()
    ensures GetColor(Color(128, 128, 128, 255)) == Ok(Color(127, 127, 127, 255))
  {
  }

  /** Negating a whole image twice gives the original image back. */
  lemma {:induction false} ImageInvolution(m: Image)
    ensures MapImage(MapImage(m, Apply), Apply) == m
  {
    var twice := MapImage(MapImage(m, Apply), Apply);
    assert |twice.pix| == |m.pix|;
    forall i | 0 <= i < |m.pix| ensures twice.pix[i] == m.pix[i] {
      Involution(m.pix[i]);
    }
  }
}
