/**
 * Thumbnail-strip geometry of `VideoPreviewer._addThumbnails`: the spacing of
 * thumbnails in nanoseconds, quantized up to a whole number of periods, and the
 * times at which thumbnails are placed.
 */
module Geometry {

  /** `thumb_period`: one second in nanoseconds. */
  const ThumbPeriod: nat := 1_000_000_000

  /** `thumb_margin` and `EXPANDED_SIZE`, which fix the thumbnail height. */
  const ThumbMargin: nat := 5
  const ExpandedSize: nat := 65
  const ThumbHeight: nat := ExpandedSize - 2 * ThumbMargin

  /**
   * Rounds the unquantized per-thumbnail duration up to a multiple of
   * `period`, never below one period.
   */
  function QuantizeThumbDuration(unquantized: nat, period: nat): (d: nat)
    requires period > 0
    ensures d >= period
  {
    var floored := (unquantized / period) * period;
    var roundedUp := if floored < unquantized then floored + period else floored;
    if roundedUp < period then period else roundedUp
  }

  lemma MulMonotone(x: int, y: int, b: nat)
    ensures x <= y ==> x * b <= y * b
  {
    assert y * b - x * b == (y - x) * b;
  }

  lemma MulStrictMonotone(x: int, y: int, b: nat)
    ensures x < y ==> x * b + b <= y * b
  {
    MulMonotone(x + 1, y, b);
    assert (x + 1) * b == x * b + b;
  }

  lemma NextMultiple(i: int, d: int)
    ensures (i + 1) * d == i * d + d
  {
  }

  /** Integer division is determined by quotient and remainder. */
  lemma DivModUnique(a: int, b: nat, q: int, r: int)
    requires b > 0 && 0 <= r < b && a == q * b + r
    ensures a / b == q && a % b == r
  {
    var q0, r0 := a / b, a % b;
    MulStrictMonotone(q0, q, b);
    MulStrictMonotone(q, q0, b);
  }

  lemma MultipleOfPeriod(k: nat, period: nat)
    requires period > 0
    ensures (k * period) % period == 0 && (k * period) / period == k
  {
    DivModUnique(k * period, period, k, 0);
  }

  /** The multiple of `period` at or below `u`, and the next one above it. */
  lemma FloorMultiple(u: nat, period: nat)
    requires period > 0
    ensures (u / period) * period <= u < (u / period) * period + period
    ensures ((u / period) * period) % period == 0
    ensures ((u / period) * period + period) % period == 0
  {
    var q := u / period;
    MultipleOfPeriod(q, period);
    MultipleOfPeriod(q + 1, period);
    NextMultiple(q, period);
  }

  /** The quantized duration is a multiple of the period covering both the period and the unquantized duration. */
  lemma QuantizeCovers(unquantized: nat, period: nat)
    requires period > 0
    ensures var d := QuantizeThumbDuration(unquantized, period);
      d % period == 0 && d >= period && d >= unquantized
  {
    FloorMultiple(unquantized, period);
    MultipleOfPeriod(1, period);
  }

  /** No multiple of the period that covers both the period and the unquantized duration is smaller. */
  lemma QuantizeIsLeast(unquantized: nat, period: nat, m: nat)
    requires period > 0
    requires m % period == 0 && m >= period && m >= unquantized
    ensures QuantizeThumbDuration(unquantized, period) <= m
  {
    var q := unquantized / period;
    var k := m / period;
    FloorMultiple(unquantized, period);
    assert m == k * period;
    MulMonotone(k, q, period);
    MulMonotone(q + 1, k, period);
    NextMultiple(q, period);
  }

  /**
   * The times `_addThumbnails` places thumbnails at: `0, d, 2d, ...`, one for
   * each of the `duration / d` whole buckets (integer division).
   */
  function ThumbTimes(duration: nat, d: nat): (ts: seq<nat>)
    requires d > 0
    ensures |ts| == duration / d
    ensures forall i :: 0 <= i < |ts| ==> ts[i] == i * d
  {
    seq(duration / d, i requires 0 <= i => i * d)
  }

  /**
   * A time carries a thumbnail exactly when it is a multiple of the spacing
   * whose whole bucket `[t, t + d)` lies inside the clip: a trailing partial
   * bucket gets none.
   */
  lemma ThumbTimesExactly(duration: nat, d: nat, t: int)
    requires d > 0
    ensures t in ThumbTimes(duration, d) <==> 0 <= t && t % d == 0 && t + d <= duration
  {
    var ts := ThumbTimes(duration, d);
    var n := duration / d;
    assert n * d <= duration;
    if t in ts {
      var i :| 0 <= i < |ts| && ts[i] == t;
      MultipleOfPeriod(i, d);
      MulStrictMonotone(i, n, d);
    }
    if 0 <= t && t % d == 0 && t + d <= duration {
      var i := t / d;
      assert t == i * d;
      MulStrictMonotone(n, i, d);
      assert ts[i] == t;
    }
  }

  /** Thumbnail times are strictly increasing, so the keys built from them are distinct. */
  lemma ThumbTimesIncreasing(duration: nat, d: nat)
    requires d > 0
    ensures var ts := ThumbTimes(duration, d);
      forall i, j :: 0 <= i < j < |ts| ==> ts[i] < ts[j]
  {
    var ts := ThumbTimes(duration, d);
    forall i, j | 0 <= i < j < |ts| ensures ts[i] < ts[j] {
      assert ts[j] - ts[i] == (j - i) * d;
    }
  }

  /**
   * A 30-second clip with a 4-second spacing gets thumbnails at 0, 4, ..., 24
   * seconds: 28 s starts a partial bucket and is not requested.
   */
  lemma ThirtySecondClipEveryFourSeconds()
    ensures ThumbTimes(30 * ThumbPeriod, 4 * ThumbPeriod) == seq(7, i requires 0 <= i => i * 4 * ThumbPeriod)
    ensures 28 * ThumbPeriod !in ThumbTimes(30 * ThumbPeriod, 4 * ThumbPeriod)
  {
    assert (30 * ThumbPeriod) / (4 * ThumbPeriod) == 7;
    ThumbTimesExactly(30 * ThumbPeriod, 4 * ThumbPeriod, 28 * ThumbPeriod);
  }
}
