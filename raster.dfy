/**
 * Decoded raster images as the matcher receives them: a width, a height and a
 * row-major pixel buffer holding four 8-bit channels (red, green, blue, alpha)
 * per pixel.
 */
module Raster {

  /** One 8-bit unsigned channel value. */
  type Byte = b: int | 0 <= b < 256

  /** Number of channels stored per pixel. */
  const ChannelCount: nat := 4

  datatype Image = Image(width: nat, height: nat, pixels: seq<Byte>)
  {
    /**
     * The buffer holds an RGBA quadruple for every pixel. Bytes past
     * width * height * 4 are never read.
     */
    predicate WellFormed()
    {
      |pixels| >= width * height * ChannelCount
    }
  }

  /** Offset of the first channel of pixel (px, py) in a row-major RGBA buffer. */
  function PixelIndex(width: nat, px: nat, py: nat): nat
  {
    (py * width + px) * ChannelCount
  }

  /**
   * Every index the matcher computes, for a pixel inside the image and a
   * channel offset 0..3, lies inside a buffer of width * height * 4 bytes.
   */
  lemma PixelIndexInBounds(width: nat, height: nat, px: nat, py: nat, c: nat)
    requires px < width && py < height && c < ChannelCount
    ensures PixelIndex(width, px, py) + c < width * height * ChannelCount
  {
    assert py * width + px < (py + 1) * width;
    assert (py + 1) * width <= height * width by {
      assert py + 1 <= height;
    }
    assert (py * width + px) * ChannelCount + c < (py * width + px + 1) * ChannelCount;
    assert (py * width + px + 1) * ChannelCount <= height * width * ChannelCount;
  }

  /** The byte at offset PixelIndex + c, read for channel c of pixel (px, py), lies inside the buffer. */
  lemma ChannelInBuffer(img: Image, px: nat, py: nat, c: nat)
    requires img.WellFormed() && px < img.width && py < img.height && c < ChannelCount
    ensures PixelIndex(img.width, px, py) + c < |img.pixels|
  {
    PixelIndexInBounds(img.width, img.height, px, py, c);
  }

  /** Channel c of pixel (px, py). */
  function Channel(img: Image, px: nat, py: nat, c: nat): Byte
    requires img.WellFormed() && px < img.width && py < img.height && c < ChannelCount
  {
    PixelIndexInBounds(img.width, img.height, px, py, c);
    img.pixels[PixelIndex(img.width, px, py) + c]
  }
}
