/**
 * The meaning of a sub-image search: when a pixel, a window and a search
 * outcome count as a mismatch, an acceptance and the first match.
 *
 * A window is a needle-sized region of the screenshot whose top-left corner is
 * (x, y). Windows are scanned in row-major order: y outer, x inner, both
 * ascending. The single threshold plays two roles: a channel differs when its
 * absolute difference exceeds 255 * threshold, and a window is accepted when
 * its percentage of mismatched pixels is at most threshold * 100.
 */
module Matching {
  import opened Wrappers
  import opened Raster

  /** The inputs of one search: screenshot (haystack), partial image (needle), threshold. */
  datatype Query = Query(screenshot: Image, partial: Image, threshold: real)
  {
    /** Both buffers are decoded RGBA and the needle has a positive area. */
    predicate Valid()
    {
      screenshot.WellFormed() && partial.WellFormed() && partial.width > 0 && partial.height > 0
    }

    /** (x, y) is a top-left corner the scan visits. */
    predicate InRange(x: nat, y: nat)
    {
      x <= screenshot.width - partial.width && y <= screenshot.height - partial.height
    }

    /** The needle's area, the denominator of the mismatch percentage. */
    function Area(): real
    {
      partial.width as real * partial.height as real
    }
  }

  /** Top-left corner of a matching window. */
  datatype Position = Position(x: nat, y: nat)

  /** (x1, y1) is scanned strictly before (x2, y2) in row-major order. */
  predicate Before(x1: int, y1: int, x2: int, y2: int)
  {
    y1 < y2 || (y1 == y2 && x1 < x2)
  }

  /** Needle pixel (px, py) of the window at (x, y). */
  predicate InWindow(q: Query, x: nat, y: nat, px: nat, py: nat)
  {
    q.Valid() && q.InRange(x, y) && px < q.partial.width && py < q.partial.height
  }

  function AbsDiff(a: int, b: int): nat
  {
    if a >= b then a - b else b - a
  }

  /** Channel c of needle pixel (px, py) differs from the screenshot by more than 255 * threshold. */
  predicate ChannelMismatch(q: Query, x: nat, y: nat, px: nat, py: nat, c: nat)
    requires InWindow(q, x, y, px, py) && c < ChannelCount
  {
    AbsDiff(Channel(q.screenshot, x + px, y + py, c), Channel(q.partial, px, py, c)) as real
      > 255.0 * q.threshold
  }

  /** A pixel is mismatched when at least one of its four channels differs. */
  predicate PixelMismatch(q: Query, x: nat, y: nat, px: nat, py: nat)
    requires InWindow(q, x, y, px, py)
  {
    exists c: nat :: c < ChannelCount && ChannelMismatch(q, x, y, px, py, c)
  }

  /** Mismatched pixels among the first n pixels of needle row py; each pixel adds 0 or 1. */
  function RowMismatches(q: Query, x: nat, y: nat, py: nat, n: nat): (count: nat)
    requires q.Valid() && q.InRange(x, y) && py < q.partial.height && n <= q.partial.width
    ensures count <= n
    decreases n
  {
    if n == 0 then 0
    else RowMismatches(q, x, y, py, n - 1) + (if PixelMismatch(q, x, y, n - 1, py) then 1 else 0)
  }

  /** Mismatched pixels among the first m rows of the needle. */
  function WindowMismatches(q: Query, x: nat, y: nat, m: nat): nat
    requires q.Valid() && q.InRange(x, y) && m <= q.partial.height
    decreases m
  {
    if m == 0 then 0
    else WindowMismatches(q, x, y, m - 1) + RowMismatches(q, x, y, m - 1, q.partial.width)
  }

  /** Mismatched pixels over the whole window at (x, y). */
  function MismatchCount(q: Query, x: nat, y: nat): nat
    requires q.Valid() && q.InRange(x, y)
  {
    WindowMismatches(q, x, y, q.partial.height)
  }

  /** The share of count mismatched pixels in a window of area pixels, in percent. */
  function MismatchPercentage(count: nat, area: nat): real
    requires area > 0
  {
    (count as real / area as real) * 100.0
  }

  /** A window with count mismatched pixels passes: at most threshold * area of its pixels mismatch. */
  predicate WithinThreshold(q: Query, count: nat)
  {
    count as real <= q.threshold * q.Area()
  }

  /** The window at (x, y) is accepted. */
  predicate Accepted(q: Query, x: nat, y: nat)
    requires q.Valid() && q.InRange(x, y)
  {
    WithinThreshold(q, MismatchCount(q, x, y))
  }

  /**
   * The acceptance test as written, "mismatch percentage <= threshold * 100",
   * is exactly "mismatched pixels <= threshold * area".
   */
  lemma PercentageTestIsWithinThreshold(q: Query, count: nat)
    requires q.Valid()
    ensures q.partial.width * q.partial.height > 0
    ensures MismatchPercentage(count, q.partial.width * q.partial.height) <= q.threshold * 100.0
            <==> WithinThreshold(q, count)
  {
    assert q.Area() > 0.0;
    assert (q.partial.width * q.partial.height) as real == q.Area();
    ScaledComparison(count as real, q.Area(), q.threshold);
  }

  /** For a positive area a: (c / a) * 100 <= t * 100 exactly when c <= t * a. */
  lemma ScaledComparison(c: real, a: real, t: real)
    requires a > 0.0
    ensures (c / a) * 100.0 <= t * 100.0 <==> c <= t * a
  {
    assert (c / a) * 100.0 <= t * 100.0 <==> c / a <= t;
    assert c / a <= t <==> c <= t * a by {
      assert c == (c / a) * a;
    }
  }

  /**
   * The scan from (x, y) onwards: the first accepted window at or after (x, y)
   * in row-major order; past the end of a row it continues at the start of the
   * next one.
   */
  function ScanFrom(q: Query, x: nat, y: nat): Option<Position>
    requires q.Valid()
    decreases q.screenshot.height - q.partial.height + 1 - y,
              q.screenshot.width - q.partial.width + 1 - x
  {
    if y > q.screenshot.height - q.partial.height then None
    else if x > q.screenshot.width - q.partial.width then ScanFrom(q, 0, y + 1)
    else if Accepted(q, x, y) then Some(Position(x, y))
    else ScanFrom(q, x + 1, y)
  }

  /** The outcome of the whole search. */
  function FirstMatch(q: Query): Option<Position>
    requires q.Valid()
  {
    ScanFrom(q, 0, 0)
  }

  /**
   * The declarative meaning of a search outcome: "found at p" means p is a
   * visited, accepted window and every window scanned before it fails;
   * "not found" means every visited window fails.
   */
  ghost predicate IsFirstMatch(q: Query, r: Option<Position>)
    requires q.Valid()
  {
    match r
    case Some(p) =>
      q.InRange(p.x, p.y) && Accepted(q, p.x, p.y) &&
      forall x: nat, y: nat :: q.InRange(x, y) && Before(x, y, p.x, p.y) ==> !Accepted(q, x, y)
    case None =>
      forall x: nat, y: nat :: q.InRange(x, y) ==> !Accepted(q, x, y)
  }
}
