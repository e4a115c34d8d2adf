/**
 * Properties of the sub-image search defined in Matching: the scan finds the
 * first accepted window, the count is a count of mismatched pixels, and a
 * larger threshold never loses a match.
 */
module MatchingProperties {
  import opened Wrappers
  import opened Raster
  import opened Matching

  // ---------------------------------------------------------------------
  // The scan and its declarative meaning

  /**
   * The scan from (x, y) returns the first accepted window at or after (x, y),
   * or nothing when no visited window at or after (x, y) is accepted.
   */
  lemma {:induction false} ScanFromCorrect(q: Query, x: nat, y: nat)
    requires q.Valid()
    ensures match ScanFrom(q, x, y)
      case Some(p) =>
        q.InRange(p.x, p.y) && Accepted(q, p.x, p.y) && !Before(p.x, p.y, x, y) &&
        forall x': nat, y': nat :: q.InRange(x', y') && !Before(x', y', x, y) && Before(x', y', p.x, p.y)
          ==> !Accepted(q, x', y')
      case None =>
        forall x': nat, y': nat :: q.InRange(x', y') && !Before(x', y', x, y) ==> !Accepted(q, x', y')
    decreases q.screenshot.height - q.partial.height + 1 - y,
              q.screenshot.width - q.partial.width + 1 - x
  {
    if y > q.screenshot.height - q.partial.height {
    } else if x > q.screenshot.width - q.partial.width {
      ScanFromCorrect(q, 0, y + 1);
    } else if Accepted(q, x, y) {
    } else {
      ScanFromCorrect(q, x + 1, y);
    }
  }

  /** The search outcome has the declarative meaning of a first match. */
  lemma FirstMatchCorrect(q: Query)
    requires q.Valid()
    ensures IsFirstMatch(q, FirstMatch(q))
  {
    ScanFromCorrect(q, 0, 0);
  }

  /** The declarative meaning determines the outcome: at most one result is a first match. */
  lemma FirstMatchUnique(q: Query, r: Option<Position>)
    requires q.Valid() && IsFirstMatch(q, r)
    ensures r == FirstMatch(q)
  {
    FirstMatchCorrect(q);
  }

  /** A needle wider or taller than the screenshot leaves nothing to scan: not found. */
  lemma OversizedNeedleNotFound(q: Query)
    requires q.Valid()
    requires q.partial.width > q.screenshot.width || q.partial.height > q.screenshot.height
    ensures FirstMatch(q) == None
  {
    FirstMatchCorrect(q);
  }

  // ---------------------------------------------------------------------
  // The mismatch count

  /** The needle pixels of rows [0, m) that mismatch, as (px, py) pairs. */
  ghost function MismatchedPixels(q: Query, x: nat, y: nat, m: nat): set<(nat, nat)>
    requires q.Valid() && q.InRange(x, y) && m <= q.partial.height
  {
    set px: nat, py: nat | px < q.partial.width && py < m && PixelMismatch(q, x, y, px, py) :: (px, py)
  }

  /** The mismatched pixels of the first n pixels of row py. */
  ghost function MismatchedInRow(q: Query, x: nat, y: nat, py: nat, n: nat): set<(nat, nat)>
    requires q.Valid() && q.InRange(x, y) && py < q.partial.height && n <= q.partial.width
  {
    set px: nat | px < n && PixelMismatch(q, x, y, px, py) :: (px, py)
  }

  lemma {:induction false} RowMismatchesIsCardinality(q: Query, x: nat, y: nat, py: nat, n: nat)
    requires q.Valid() && q.InRange(x, y) && py < q.partial.height && n <= q.partial.width
    ensures RowMismatches(q, x, y, py, n) == |MismatchedInRow(q, x, y, py, n)|
  {
    if n > 0 {
      RowMismatchesIsCardinality(q, x, y, py, n - 1);
      var prev := MismatchedInRow(q, x, y, py, n - 1);
      var all := MismatchedInRow(q, x, y, py, n);
      if PixelMismatch(q, x, y, n - 1, py) {
        forall p | p in all ensures p in prev + {(n - 1, py)} {
          if p.0 < n - 1 { assert p in prev; }
        }
        assert all == prev + {(n - 1, py)};
        assert (n - 1, py) !in prev;
      } else {
        forall p | p in all ensures p in prev {
          assert p.0 < n - 1;
        }
        assert all == prev;
      }
    }
  }

  /**
   * The window's mismatch count is the number of needle pixels that satisfy
   * the per-pixel mismatch predicate.
   */
  lemma {:induction false} WindowMismatchesIsCardinality(q: Query, x: nat, y: nat, m: nat)
    requires q.Valid() && q.InRange(x, y) && m <= q.partial.height
    ensures WindowMismatches(q, x, y, m) == |MismatchedPixels(q, x, y, m)|
  {
    if m > 0 {
      WindowMismatchesIsCardinality(q, x, y, m - 1);
      RowMismatchesIsCardinality(q, x, y, m - 1, q.partial.width);
      var prev := MismatchedPixels(q, x, y, m - 1);
      var row := MismatchedInRow(q, x, y, m - 1, q.partial.width);
      var all := MismatchedPixels(q, x, y, m);
      forall p | p in all ensures p in prev + row {
        if p.1 < m - 1 { assert p in prev; } else { assert p in row; }
      }
      forall p | p in prev + row ensures p in all {
        if p in prev { assert p.1 < m - 1; } else { assert p.1 == m - 1; }
      }
      assert all == prev + row;
      assert prev * row == {} by {
        forall p | p in prev ensures p !in row { assert p.1 < m - 1; }
      }
    }
  }

  /** The first m needle rows hold at most m * w mismatched pixels. */
  lemma {:induction false} WindowMismatchesBound(q: Query, x: nat, y: nat, m: nat)
    requires q.Valid() && q.InRange(x, y) && m <= q.partial.height
    ensures WindowMismatches(q, x, y, m) <= m * q.partial.width
  {
    if m > 0 {
      WindowMismatchesBound(q, x, y, m - 1);
      assert (m - 1) * q.partial.width + q.partial.width == m * q.partial.width;
    }
  }

  /** The count over the whole window, with its bounds 0 and w * h. */
  lemma MismatchCountIsCardinality(q: Query, x: nat, y: nat)
    requires q.Valid() && q.InRange(x, y)
    ensures MismatchCount(q, x, y) == |MismatchedPixels(q, x, y, q.partial.height)|
    ensures 0 <= MismatchCount(q, x, y) <= q.partial.width * q.partial.height
  {
    WindowMismatchesIsCardinality(q, x, y, q.partial.height);
    WindowMismatchesBound(q, x, y, q.partial.height);
  }

  // ---------------------------------------------------------------------
  // Raising the threshold

  /** A pixel that still mismatches under a larger threshold mismatches under the smaller one. */
  lemma PixelMismatchAntitone(q: Query, t: real, x: nat, y: nat, px: nat, py: nat)
    requires InWindow(q, x, y, px, py) && q.threshold <= t
    ensures PixelMismatch(q.(threshold := t), x, y, px, py) ==> PixelMismatch(q, x, y, px, py)
  {
    var q' := q.(threshold := t);
    if PixelMismatch(q', x, y, px, py) {
      var c: nat :| c < ChannelCount && ChannelMismatch(q', x, y, px, py, c);
      assert ChannelMismatch(q, x, y, px, py, c);
    }
  }

  lemma {:induction false} RowMismatchesAntitone(q: Query, t: real, x: nat, y: nat, py: nat, n: nat)
    requires q.Valid() && q.InRange(x, y) && py < q.partial.height && n <= q.partial.width
    requires q.threshold <= t
    ensures RowMismatches(q.(threshold := t), x, y, py, n) <= RowMismatches(q, x, y, py, n)
  {
    if n > 0 {
      RowMismatchesAntitone(q, t, x, y, py, n - 1);
      PixelMismatchAntitone(q, t, x, y, n - 1, py);
    }
  }

  lemma {:induction false} WindowMismatchesAntitone(q: Query, t: real, x: nat, y: nat, m: nat)
    requires q.Valid() && q.InRange(x, y) && m <= q.partial.height
    requires q.threshold <= t
    ensures WindowMismatches(q.(threshold := t), x, y, m) <= WindowMismatches(q, x, y, m)
  {
    if m > 0 {
      WindowMismatchesAntitone(q, t, x, y, m - 1);
      RowMismatchesAntitone(q, t, x, y, m - 1, q.partial.width);
    }
  }

  /** Raising the threshold never increases a window's mismatch count. */
  lemma MismatchCountAntitone(q: Query, t: real, x: nat, y: nat)
    requires q.Valid() && q.InRange(x, y) && q.threshold <= t
    ensures MismatchCount(q.(threshold := t), x, y) <= MismatchCount(q, x, y)
  {
    WindowMismatchesAntitone(q, t, x, y, q.partial.height);
  }

  /** A count that passes a threshold, or any smaller count, passes every larger threshold. */
  lemma WithinThresholdMonotone(q: Query, t: real, c': nat, c: nat)
    requires q.threshold <= t && c' <= c && WithinThreshold(q, c)
    ensures WithinThreshold(q.(threshold := t), c')
  {
    assert q.Area() >= 0.0;
    assert (t - q.threshold) * q.Area() >= 0.0;
  }

  /** Raising the threshold never rejects a window that was accepted. */
  lemma AcceptedMonotone(q: Query, t: real, x: nat, y: nat)
    requires q.Valid() && q.InRange(x, y) && q.threshold <= t
    requires Accepted(q, x, y)
    ensures Accepted(q.(threshold := t), x, y)
  {
    MismatchCountAntitone(q, t, x, y);
    WithinThresholdMonotone(q, t, MismatchCount(q.(threshold := t), x, y), MismatchCount(q, x, y));
  }

  /**
   * Raising the threshold never turns "found" into "not found", and the match
   * it finds is the same window or one scanned earlier.
   */
  lemma FirstMatchMonotone(q: Query, t: real)
    requires q.Valid() && q.threshold <= t
    requires FirstMatch(q).Some?
    ensures FirstMatch(q.(threshold := t)).Some?
    ensures !Before(FirstMatch(q).value.x, FirstMatch(q).value.y,
                    FirstMatch(q.(threshold := t)).value.x, FirstMatch(q.(threshold := t)).value.y)
  {
    var q' := q.(threshold := t);
    FirstMatchCorrect(q);
    FirstMatchCorrect(q');
    var p := FirstMatch(q).value;
    AcceptedMonotone(q, t, p.x, p.y);
  }

  // ---------------------------------------------------------------------
  // A needle cut out of the screenshot

  /** The needle equals the screenshot's window at (x0, y0), channel for channel. */
  ghost predicate CropAt(q: Query, x0: nat, y0: nat)
    requires q.Valid() && q.InRange(x0, y0)
  {
    forall px: nat, py: nat, c: nat :: px < q.partial.width && py < q.partial.height && c < ChannelCount ==>
      Channel(q.partial, px, py, c) == Channel(q.screenshot, x0 + px, y0 + py, c)
  }

  /**
   * With a non-negative threshold, a needle cropped verbatim from (x0, y0) is
   * found, at (x0, y0) or at a window scanned before it.
   */
  lemma CroppedNeedleFound(q: Query, x0: nat, y0: nat)
    requires q.Valid() && q.InRange(x0, y0) && CropAt(q, x0, y0)
    requires q.threshold >= 0.0
    ensures FirstMatch(q).Some?
    ensures !Before(x0, y0, FirstMatch(q).value.x, FirstMatch(q).value.y)
  {
    MismatchCountIsCardinality(q, x0, y0);
    assert MismatchedPixels(q, x0, y0, q.partial.height) == {} by {
      forall px: nat, py: nat | px < q.partial.width && py < q.partial.height
        ensures !PixelMismatch(q, x0, y0, px, py)
      {
        forall c: nat | c < ChannelCount
          ensures !ChannelMismatch(q, x0, y0, px, py, c)
        {
          assert Channel(q.partial, px, py, c) == Channel(q.screenshot, x0 + px, y0 + py, c);
        }
      }
    }
    assert Accepted(q, x0, y0);
    FirstMatchCorrect(q);
  }

  /**
   * A needle cropped from the top-left corner is found exactly there: the
   * first window scanned is accepted.
   */
  lemma CroppedAtOriginFoundAtOrigin(q: Query)
    requires q.Valid() && q.InRange(0, 0) && CropAt(q, 0, 0)
    requires q.threshold >= 0.0
    ensures FirstMatch(q) == Some(Position(0, 0))
  {
    CroppedNeedleFound(q, 0, 0);
  }
}
