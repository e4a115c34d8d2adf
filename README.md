# findPartialImage: a verified model of the sub-image matcher

This project models the matching core of `findPartialImage` in the FileComp
repository. The function looks for a partial image (the needle) inside a page
screenshot (the haystack). It does a brute-force sliding-window comparison of
two row-major RGBA byte buffers:

- Candidate top-left corners `(x, y)` are scanned with `y` outer and `x`
  inner, both ascending, for `0 <= x <= W - w` and `0 <= y <= H - h`.
- For each window, it counts the needle pixels that have at least one channel
  whose absolute difference from the screenshot exceeds `255 * threshold`. The
  channel loop `break`s at the first such channel, so a pixel adds 0 or 1.
- The first window whose mismatch percentage `count / (w * h) * 100` is at most
  `threshold * 100` is accepted. If no window is accepted, the result is "not found".

Files and modules:

- `wrappers.dfy` (`Wrappers`): the `Option` result type.
- `raster.dfy` (`Raster`): decoded images (`Image`: width, height, RGBA bytes),
  the row-major index `(py * width + px) * 4` and its bounds.
- `matching.dfy` (`Matching`): the pure meaning of a search.
  - `ChannelMismatch`, `PixelMismatch`, `RowMismatches`, `WindowMismatches` and
    `MismatchCount` define the per-channel, per-pixel and per-window mismatch.
  - `MismatchPercentage`, `WithinThreshold` and `Accepted` define the acceptance test.
  - `ScanFrom` and `FirstMatch` give the row-major scan as a function.
  - `IsFirstMatch` is its declarative meaning.
- `matching_properties.dfy` (`MatchingProperties`): lemmas about that meaning.
  They cover correctness and uniqueness of the scan, the count as a set
  cardinality, its bounds, monotonicity in the threshold, and cropped needles.
- `find_partial_image.dfy` (`PartialImageSearch`): `FindPartialImage`, the
  five nested loops of the source as one imperative method. It is proved to
  return `FirstMatch` and to satisfy `IsFirstMatch`.

Modelling choices:

- The threshold is an exact `real`. It is not restricted to `[0, 1]`, because
  the code accepts any number. The per-channel test is `diff > 255 * threshold`,
  computed exactly.
- The acceptance test is computed as the source computes it:
  `MismatchPercentage(count, w * h) <= threshold * 100`.
  `PercentageTestIsWithinThreshold` proves this equals `count <= threshold * w * h`.
  `Accepted` is defined by the second form.
- The source returns `true`/`false` and logs the position it found. The model
  returns `Option<Position>`: `Some(Position(x, y))` for "found at (x, y)" and
  `None` for "not found".
- The images are already decoded. The caller supplies each image's width,
  height and a buffer of at least `width * height * 4` bytes. Bytes past that
  length are never read, so a longer buffer behaves like an exact one.

A needle cropped verbatim from a known location need not be found at exactly
that location. The code returns the first accepted window in row-major order,
and that window can come before the cropped location when the same content
appears earlier. The model follows the
code. `CroppedNeedleFound` proves the match is at the cropped location or
before it. `CroppedAtOriginFoundAtOrigin` proves the exact location for a crop
taken at (0, 0).

## Model

| member | source | states |
|---|---|---|
| `Raster.PixelIndexInBounds` | tests/findPartialImage.test.js:30-31 | For a pixel inside a `width` x `height` image and a channel offset 0..3, the index `(py * width + px) * 4 + c` is below `width * height * 4`. So every read at line 35 is in bounds. |
| `Raster.ChannelInBuffer` | tests/findPartialImage.test.js:30-35 | The byte the loop reads at `screenshotIndex + i` (or `partialIndex + i`) is inside the buffer. |
| `Matching.RowMismatches` | tests/findPartialImage.test.js:29-41 | The first `n` pixels of a needle row add at most `n` mismatches. That each pixel adds 0 or 1 is proved by the channel-loop assertion in `FindPartialImage` and by `RowMismatchesIsCardinality`. |
| `Matching.PercentageTestIsWithinThreshold` | tests/findPartialImage.test.js:45-46 | The test `count / (w * h) * 100 <= threshold * 100` holds exactly when `count <= threshold * w * h`, given `w * h > 0`. |
| `Matching.ScaledComparison` | tests/findPartialImage.test.js:45-46 | For a positive area `a`: `(c / a) * 100 <= t * 100` exactly when `c <= t * a`. |
| `MatchingProperties.ScanFromCorrect` | tests/findPartialImage.test.js:23-49 | Scanning from `(x, y)` gives one of two results. It returns an in-range, accepted window at or after `(x, y)`, and every in-range window between `(x, y)` and it fails. Or it returns nothing, and every in-range window at or after `(x, y)` fails. |
| `MatchingProperties.FirstMatchCorrect` | tests/findPartialImage.test.js:23-54 | The search result is a first match. "Found at p": p is in range, p is accepted, and every window earlier in row-major order fails. "Not found": every in-range window fails. |
| `MatchingProperties.FirstMatchUnique` | tests/findPartialImage.test.js:23-54 | Any result that has the first-match meaning equals the search result, so that meaning determines the outcome. |
| `MatchingProperties.OversizedNeedleNotFound` | tests/findPartialImage.test.js:23-24 | If the needle is wider or taller than the screenshot, the result is "not found". |
| `MatchingProperties.RowMismatchesIsCardinality` | tests/findPartialImage.test.js:29-41 | The count over the first `n` pixels of a row equals the number of those pixels that satisfy the per-pixel mismatch predicate. |
| `MatchingProperties.WindowMismatchesIsCardinality` | tests/findPartialImage.test.js:28-42 | The count over the first `m` rows equals the number of `(px, py)` pixels in them that satisfy the per-pixel mismatch predicate. |
| `MatchingProperties.WindowMismatchesBound` | tests/findPartialImage.test.js:28-42 | The first `m` rows hold at most `m * w` mismatched pixels. |
| `MatchingProperties.MismatchCountIsCardinality` | tests/findPartialImage.test.js:25-42 | A window's mismatch count is the number of needle pixels with some channel differing by more than `255 * threshold`, and it lies between 0 and `w * h`. |
| `MatchingProperties.PixelMismatchAntitone` | tests/findPartialImage.test.js:34-39 | A pixel that mismatches under a larger threshold also mismatches under a smaller one. |
| `MatchingProperties.RowMismatchesAntitone` | tests/findPartialImage.test.js:29-41 | Raising the threshold never increases a row's mismatch count. |
| `MatchingProperties.WindowMismatchesAntitone` | tests/findPartialImage.test.js:28-42 | Raising the threshold never increases the mismatch count of the first `m` rows. |
| `MatchingProperties.MismatchCountAntitone` | tests/findPartialImage.test.js:36 | Raising the threshold never increases a window's mismatch count. |
| `MatchingProperties.WithinThresholdMonotone` | tests/findPartialImage.test.js:46 | If a count passes the window test at threshold t, then that count and any smaller count pass at every larger threshold. |
| `MatchingProperties.AcceptedMonotone` | tests/findPartialImage.test.js:36-46 | A window accepted at threshold t is accepted at every larger threshold. |
| `MatchingProperties.FirstMatchMonotone` | tests/findPartialImage.test.js:23-49 | If the search finds a match at threshold t, it also finds one at every larger threshold, and that match is at the same window or an earlier one. |
| `MatchingProperties.CroppedNeedleFound` | tests/findPartialImage.test.js:23-48 | If the needle equals the screenshot's window at `(x0, y0)` and the threshold is `>= 0`, the search finds a match at `(x0, y0)` or earlier. |
| `MatchingProperties.CroppedAtOriginFoundAtOrigin` | tests/findPartialImage.test.js:23-48 | If the needle equals the screenshot's top-left window and the threshold is `>= 0`, the match is exactly at (0, 0). |
| `PartialImageSearch.FindPartialImage` | tests/findPartialImage.test.js:22-54 | The five nested loops, with the `break` and the early return. The result is `FirstMatch`, has the first-match meaning, and is "not found" when the needle does not fit. |

## Left out

- Image decoding through `sharp` (tests/findPartialImage.test.js:8-20) is a foreign library. The model takes decoded RGBA buffers plus widths and heights. As written, `toBuffer()` without `.raw()` yields the encoded file bytes rather than RGBA pixels; that call is not part of this model.
- Each buffer is required to hold at least `width * height * 4` bytes. A shorter buffer is excluded. There, JavaScript's out-of-range read gives `undefined`, and that never counts as a mismatch. That path is not modelled.
- The default argument `threshold = 0.1` (tests/findPartialImage.test.js:7) is not modelled. `FindPartialImage` always takes the threshold explicitly, as the only caller (line 68) passes it.
- The Playwright test (tests/findPartialImage.test.js:57-71) is not modelled: navigation, screenshot capture, file paths and `expect` are browser and file I/O.
- `console.log` and `toFixed(2)` (lines 47, 53) are logging. The found position is returned in the `Option` instead. The logged percentage is not returned, but `MismatchPercentage` defines it.
- IEEE-754 rounding of `255 * threshold` and of the percentage division (lines 36, 45) is not modelled. Both are exact `real` arithmetic.
- A needle of zero area, where line 45 divides by zero and the result is `NaN`, is excluded by `requires partial.width > 0 && partial.height > 0`.
- `async`/`await` is not modelled. The matching loops contain no suspension point.
