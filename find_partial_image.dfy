/**
 * The matching loops of findPartialImage: a brute-force sliding-window scan of
 * a decoded screenshot for a decoded partial image.
 */
module PartialImageSearch {
  import opened Wrappers
  import opened Raster
  import opened Matching
  import MatchingProperties

  /**
   * Scans windows in row-major order (y outer, x inner) and returns the first
   * window whose mismatch percentage is at most threshold * 100, or None when
   * every window fails or none fits.
   */
  method FindPartialImage(screenshot: Image, partial: Image, threshold: real)
    returns (r: Option<Position>)
    requires screenshot.WellFormed() && partial.WellFormed()
    requires partial.width > 0 && partial.height > 0
    ensures IsFirstMatch(Query(screenshot, partial, threshold), r)
    ensures r == FirstMatch(Query(screenshot, partial, threshold))
    ensures partial.width > screenshot.width || partial.height > screenshot.height ==> r == None
  {
    ghost var q := Query(screenshot, partial, threshold);
    assert q.Valid();
    MatchingProperties.FirstMatchCorrect(q);
    var screenWidth: int, screenHeight: int := screenshot.width, screenshot.height;
    var partialImageWidth: int, partialImageHeight: int := partial.width, partial.height;

    var y: nat := 0;
    while y <= screenHeight - partialImageHeight
      invariant ScanFrom(q, 0, y) == FirstMatch(q)
      decreases screenHeight - partialImageHeight - y
    {
      var x: nat := 0;
      while x <= screenWidth - partialImageWidth
        invariant ScanFrom(q, x, y) == FirstMatch(q)
        decreases screenWidth - partialImageWidth - x
      {
        var mismatchedPixels: nat := 0;

        var py: nat := 0;
        while py < partialImageHeight
          invariant py <= partialImageHeight
          invariant mismatchedPixels == WindowMismatches(q, x, y, py)
        {
          var px: nat := 0;
          while px < partialImageWidth
            invariant px <= partialImageWidth
            invariant mismatchedPixels == WindowMismatches(q, x, y, py) + RowMismatches(q, x, y, py, px)
          {
            var screenshotIndex := ((y + py) * screenWidth + (x + px)) * 4;
            var partialIndex := (py * partialImageWidth + px) * 4;
            assert screenshotIndex == PixelIndex(screenshot.width, x + px, y + py);
            assert partialIndex == PixelIndex(partial.width, px, py);
            ghost var before := mismatchedPixels;

            var i: nat := 0;
            while i < 4
              invariant i <= 4
              invariant mismatchedPixels == before
              invariant forall c: nat :: c < i ==> !ChannelMismatch(q, x, y, px, py, c)
            {
              ChannelInBuffer(screenshot, x + px, y + py, i);
              ChannelInBuffer(partial, px, py, i);
              var diff := AbsDiff(screenshot.pixels[screenshotIndex + i], partial.pixels[partialIndex + i]);
              if diff as real > 255.0 * threshold {
                assert ChannelMismatch(q, x, y, px, py, i);
                mismatchedPixels := mismatchedPixels + 1;
                break;
              }
              i := i + 1;
            }
            assert mismatchedPixels == before + (if PixelMismatch(q, x, y, px, py) then 1 else 0);
            px := px + 1;
          }
          py := py + 1;
        }

        PercentageTestIsWithinThreshold(q, mismatchedPixels);
        var mismatchPercentage := MismatchPercentage(mismatchedPixels, partialImageWidth * partialImageHeight);
        if mismatchPercentage <= threshold * 100.0 {
          return Some(Position(x, y));
        }
        x := x + 1;
      }
      y := y + 1;
    }
    return None;
  }
}
