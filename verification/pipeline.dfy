/**
 * How the size chosen in the settings form meets the result view: the
 * thresholded image is scaled to the target size and then read back as
 * Braille lines. The scaling itself belongs to the image library and is
 * not modelled; these lemmas hold for any image of the chosen size.
 */
module Pipeline {
  import opened Sizing
  import opened Braille

  /** The image handed to the result view has the chosen target size. */
  predicate HasTargetSize(img: Image, p: Preset, cropWidth: nat, cropHeight: nat) {
    var size := TargetSize(p, cropWidth, cropHeight);
    img.width == size.width && img.height == size.height
  }

  /**
   * Every chosen size is made of whole cells, so the result has exactly
   * height / 4 lines of width / 2 characters: 16 lines of 30 for the Twitch
   * preset, 6 lines of 30 for the YouTube one.
   */
  lemma TargetSizeGridShape(img: Image, p: Preset, cropWidth: nat, cropHeight: nat)
    requires HasTargetSize(img, p, cropWidth, cropHeight)
    ensures |Grid(img)| == img.height / 4
    ensures forall r :: 0 <= r < |Grid(img)| ==> |Grid(img)[r]| == img.width / 2
    ensures p == Twitch ==> |Grid(img)| == 16 && forall r :: 0 <= r < 16 ==> |Grid(img)[r]| == 30
    ensures p == Youtube ==> |Grid(img)| == 6 && forall r :: 0 <= r < 6 ==> |Grid(img)[r]| == 30
    ensures p == Custom ==>
      |Grid(img)| == cropHeight / 4 && forall r :: 0 <= r < |Grid(img)| ==> |Grid(img)[r]| == cropWidth / 2
  {
    GridOfWholeCells(img);
  }

  /**
   * A custom crop narrower than 2 pixels or shorter than 4 gives a zero
   * target side, and the result then holds no character at all.
   */
  lemma SmallCropEmptyGrid(img: Image, cropWidth: nat, cropHeight: nat)
    requires HasTargetSize(img, Custom, cropWidth, cropHeight)
    requires cropWidth < 2 || cropHeight < 4
    ensures forall r :: 0 <= r < |Grid(img)| ==> Grid(img)[r] == []
    ensures cropHeight < 4 ==> Grid(img) == []
  {
    SmallCropGivesZeroSide(cropWidth, cropHeight);
    GridOfWholeCells(img);
  }

  /**
   * A 2 by 4 image whose red bytes are all 0 (an opaque black image, say)
   * becomes the single character U+28FF (all eight dots); one whose red
   * bytes all hold one non-zero value becomes the blank pattern U+2800.
   * Green, blue and alpha may hold anything.
   */
  lemma UniformCellGlyph(img: Image, red: byte)
    requires WellFormed(img) && img.width == 2 && img.height == 4
    requires forall p :: 0 <= p < |img.data| && p % 4 == 0 ==> img.data[p] == red
    ensures |Grid(img)| == 1 && |Grid(img)[0]| == 1
    ensures red == 0 ==> Grid(img)[0][0] as int == 0x28FF
    ensures red != 0 ==> Grid(img)[0][0] as int == 0x2800
  {
    SingleCellGrid(img);
    UniformCellDots(img, red);
  }

  /** A 2 by 4 image is one line holding the character of its only cell. */
  lemma SingleCellGrid(img: Image)
    requires img.width == 2 && img.height == 4
    ensures |Grid(img)| == 1 && |Grid(img)[0]| == 1
    ensures Grid(img)[0][0] as int == CodeAt(img, 0, 0)
  {
    GridAt(img, 0, 0);
  }

  /** The eight dots of a 2 by 4 image with a uniform red channel, as facts about the cell at (0, 0). */
  lemma UniformCellDots(img: Image, red: byte)
    requires WellFormed(img) && img.width == 2 && img.height == 4
    requires forall p :: 0 <= p < |img.data| && p % 4 == 0 ==> img.data[p] == red
    ensures red == 0 ==> CodeAt(img, 0, 0) == 0x28FF
    ensures red != 0 ==> CodeAt(img, 0, 0) == 0x2800
  {
    UniformDot(img, red, 0, 0);
    UniformDot(img, red, 0, 1);
    UniformDot(img, red, 0, 2);
    UniformDot(img, red, 1, 0);
    UniformDot(img, red, 1, 1);
    UniformDot(img, red, 1, 2);
    UniformDot(img, red, 0, 3);
    UniformDot(img, red, 1, 3);
  }

  lemma UniformDot(img: Image, red: byte, x: nat, y: nat)
    requires WellFormed(img) && img.width == 2 && img.height == 4
    requires forall p :: 0 <= p < |img.data| && p % 4 == 0 ==> img.data[p] == red
    requires x < 2 && y < 4
    ensures red == 0 ==> At(img, x, y) == 1
    ensures red != 0 ==> At(img, x, y) == 0
  {
    assert PixelIndex(2, x, y) < 32;
    RedIndexIsMultipleOfFour(2, x, y);
  }
}
