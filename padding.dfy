/** The integer part of `prepare_image` in wdv3tagger.py: where the image is
    pasted on the white square canvas. */
module Padding {

  /** The canvas edge and the offsets at which the image is pasted. */
  datatype Placement = Placement(maxDim: nat, padLeft: int, padTop: int)

  /** `max_dim = max(image.size)`, `pad_left = (max_dim - width) // 2`,
      `pad_top = (max_dim - height) // 2`; both differences are non-negative,
      so Python's floor division agrees with Dafny's. */
  function Place(width: nat, height: nat): (p: Placement)
    ensures p.maxDim >= width && p.maxDim >= height
    ensures p.maxDim == width || p.maxDim == height
    ensures 0 <= p.padLeft && p.padLeft + width <= p.maxDim
    ensures 0 <= p.padTop && p.padTop + height <= p.maxDim
    // the padding left over on the right (bottom) is the left (top) share or one more
    ensures var right := p.maxDim - width - p.padLeft;
      p.padLeft <= right <= p.padLeft + 1
    ensures var bottom := p.maxDim - height - p.padTop;
      p.padTop <= bottom <= p.padTop + 1
    // the longer side is not padded
    ensures p.padLeft == 0 || p.padTop == 0
  {
    var maxDim := if width >= height then width else height;
    Placement(maxDim, (maxDim - width) / 2, (maxDim - height) / 2)
  }

  /** A square image is pasted at the origin of a canvas of its own size. */
  lemma SquareUnpadded(n: nat)
    ensures Place(n, n) == Placement(n, 0, 0)
  {
  }
}
