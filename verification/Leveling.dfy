/** Levels from cumulative bytes: exponential thresholds and a search corrected by two nudge loops.
    Floats are exact reals here, and the logarithm's estimate is any integer at all. */
module Leveling {
  import opened Wrappers

  const LEVEL_BASE_BYTES := 1024 * 1024 * 1024
  const LEVEL_GROWTH := 1.4
  const UPLOAD_LEVEL_WEIGHT := 1.5

  /** Rounds to the nearest integer, ties to the even one, as Python's round does. */
  function RoundHalfEven(x: real): int {
    var below := x.Floor;
    var over := x - below as real;
    if over < 0.5 || (over == 0.5 && below % 2 == 0) then below else below + 1
  }

  function Growth(n: nat): real {
    if n == 0 then 1.0 else LEVEL_GROWTH * Growth(n - 1)
  }

  /** The cumulative bytes `level` needs. */
  function Threshold(level: int): int {
    if level <= 0 then 0 else RoundHalfEven(LEVEL_BASE_BYTES as real * Growth(level - 1))
  }

  // ------------------------------------------------------------------ rounding

  lemma RoundingIsClose(x: real)
    ensures x - 0.5 <= RoundHalfEven(x) as real <= x + 0.5
  {
  }

  lemma RoundingIsMonotone(x: real, y: real)
    requires x <= y
    ensures RoundHalfEven(x) <= RoundHalfEven(y)
  {
    assert x.Floor <= y.Floor;
  }

  lemma RoundingIsExact(n: int)
    ensures RoundHalfEven(n as real) == n
  {
  }

  /** The rounded value is nearer than half, or exactly half away and even. */
  lemma RoundsToNearest(x: real, n: int)
    ensures RoundHalfEven(x) == n <==>
            n as real - 0.5 < x < n as real + 0.5
            || ((x == n as real - 0.5 || x == n as real + 0.5) && n % 2 == 0)
  {
  }

  // ------------------------------------------------------------------ thresholds

  lemma {:induction false} GrowthAtLeastOne(n: nat)
    ensures Growth(n) >= 1.0
  {
    if n == 0 {
    } else {
      GrowthAtLeastOne(n - 1);
    }
  }

  function Power(base: nat, n: nat): nat {
    if n == 0 then 1 else base * Power(base, n - 1)
  }

  lemma {:induction false} GrowthIsSevenFifths(n: nat)
    ensures Growth(n) * Power(5, n) as real == Power(7, n) as real && Power(5, n) > 0
  {
    if n == 0 {
    } else {
      GrowthIsSevenFifths(n - 1);
      GrowthStep(Growth(n - 1), Power(5, n - 1), Power(7, n - 1));
    }
  }

  lemma GrowthStep(growth: real, fives: nat, sevens: nat)
    requires growth * fives as real == sevens as real
    ensures (1.4 * growth) * (5 * fives) as real == (7 * sevens) as real
  {
    assert (1.4 * growth) * (5.0 * fives as real) == 7.0 * (growth * fives as real);
  }

  /** n is an integer nearest to part / whole. */
  predicate Nearest(n: int, part: int, whole: int) {
    2 * (n * whole - part) <= whole && 2 * (part - n * whole) <= whole
  }

  /** A threshold is an integer nearest to 2^30 * (7/5)^n, in whole numbers. */
  lemma ThresholdIsNearest(n: nat)
    ensures Nearest(Threshold(n + 1), 1_073_741_824 * Power(7, n), Power(5, n))
  {
    GrowthIsSevenFifths(n);
    NearestOfRounded(Growth(n), Power(5, n), Power(7, n));
  }

  lemma NearestOfRounded(growth: real, fives: nat, sevens: nat)
    requires growth * fives as real == sevens as real
    ensures Nearest(RoundHalfEven(LEVEL_BASE_BYTES as real * growth), 1_073_741_824 * sevens, fives)
  {
    RoundingIsClose(LEVEL_BASE_BYTES as real * growth);
    NearestOfQuotient(RoundHalfEven(LEVEL_BASE_BYTES as real * growth), growth, fives, sevens);
  }

  lemma NearestOfQuotient(t: int, growth: real, fives: nat, sevens: nat)
    requires 1_073_741_824.0 * growth - 0.5 <= t as real <= 1_073_741_824.0 * growth + 0.5
    requires growth * fives as real == sevens as real
    ensures Nearest(t, 1_073_741_824 * sevens, fives)
  {
    var f, x := fives as real, 1_073_741_824.0 * growth;
    NotNegative(t as real - x + 0.5, f);
    NotNegative(x + 0.5 - t as real, f);
    assert x * f == 1_073_741_824.0 * (growth * f);
    assert (t as real - x + 0.5) * f == t as real * f - x * f + 0.5 * f;
    assert (x + 0.5 - t as real) * f == x * f + 0.5 * f - t as real * f;
    assert (t * fives) as real == t as real * f;
    assert (1_073_741_824 * sevens) as real == 1_073_741_824.0 * sevens as real;
  }

  lemma NotNegative(a: real, b: real)
    requires a >= 0.0 && b >= 0.0
    ensures a * b >= 0.0
  {
  }

  /** Rounding never closes the gap to the next threshold. */
  lemma NextThreshold(n: int)
    requires n >= 0
    ensures Threshold(n + 1) > Threshold(n) + 400_000_000
  {
    if n == 0 {
      RoundingIsExact(LEVEL_BASE_BYTES);
    } else {
      GrowthAtLeastOne(n - 1);
      var x := LEVEL_BASE_BYTES as real * Growth(n - 1);
      assert Growth(n) == LEVEL_GROWTH * Growth(n - 1);
      assert LEVEL_BASE_BYTES as real * Growth(n) == LEVEL_GROWTH * x;
      RoundingIsClose(x);
      RoundingIsClose(LEVEL_GROWTH * x);
    }
  }

  lemma {:induction false} ThresholdsIncrease(m: int, n: int)
    requires 0 <= m < n
    ensures Threshold(m) + (n - m) <= Threshold(n)
    decreases n
  {
    NextThreshold(n - 1);
    if m == n - 1 {
    } else {
      ThresholdsIncrease(m, n - 1);
    }
  }

  lemma ThresholdAtLeast(n: int)
    ensures n <= Threshold(n) && 0 <= Threshold(n)
  {
    if n > 0 {
      ThresholdsIncrease(0, n);
    }
  }

  // ------------------------------------------------------------------ levels

  /** The level by definition: the last one whose threshold is met. */
  ghost predicate IsLevel(total: int, n: int) {
    n >= 0 && Threshold(n) <= total < Threshold(n + 1)
  }

  lemma LevelIsUnique(total: int, m: int, n: int)
    requires IsLevel(total, m) && IsLevel(total, n)
    ensures m == n
  {
    if m < n {
      ThresholdsBelow(m + 1, n);
    } else if n < m {
      ThresholdsBelow(n + 1, m);
    }
  }

  lemma ThresholdsBelow(m: int, n: int)
    requires 0 <= m <= n
    ensures Threshold(m) <= Threshold(n)
  {
    if m < n {
      ThresholdsIncrease(m, n);
    }
  }

  function LevelFrom(total: int, n: nat): (level: nat)
    requires Threshold(n) <= total
    ensures IsLevel(total, level)
    decreases total - n
  {
    ThresholdAtLeast(n + 1);
    if Threshold(n + 1) <= total then LevelFrom(total, n + 1) else n
  }

  /** The level of any total; below the first threshold, also for a negative total, it is 0. */
  function Level(total: int): (level: nat)
    ensures total >= 0 ==> IsLevel(total, level)
    ensures total < 0 ==> level == 0
  {
    if total < 0 then 0 else LevelFrom(total, 0)
  }

  /** Levels and thresholds are two sides of one relation. */
  lemma LevelReached(total: int, n: nat)
    requires total >= 0
    ensures n <= Level(total) <==> Threshold(n) <= total
  {
    if n <= Level(total) {
      ThresholdsBelow(n, Level(total));
    } else {
      ThresholdsBelow(Level(total) + 1, n);
    }
  }

  /** Each threshold is met exactly at its level, and one byte short of it is the level before. */
  lemma LevelAtThreshold(n: nat)
    ensures Level(Threshold(n)) == n
    ensures n > 0 ==> Level(Threshold(n) - 1) == n - 1
  {
    ThresholdAtLeast(n);
    NextThreshold(n);
    LevelIsUnique(Threshold(n), Level(Threshold(n)), n);
    if n > 0 {
      NextThreshold(n - 1);
      ThresholdAtLeast(n - 1);
      LevelIsUnique(Threshold(n) - 1, Level(Threshold(n) - 1), n - 1);
    }
  }

  lemma LevelIsMonotone(a: int, b: int)
    requires a <= b
    ensures Level(a) <= Level(b)
  {
    if a >= 0 {
      LevelReached(b, Level(a));
    }
  }

  /** From any estimate the two loops end on the level. */
  method LevelForTotalBytes(total: int, estimate0: int) returns (estimate: int)
    ensures estimate == Level(total)
  {
    NextThreshold(0);
    NextThreshold(1);
    if total < LEVEL_BASE_BYTES {
      ghost var level := Level(total);
      if level > 0 {
        FirstThreshold(level);
      }
      return 0;
    }
    estimate := estimate0;
    while Threshold(estimate + 1) <= total
      invariant estimate >= estimate0
      decreases total - estimate
    {
      ThresholdAtLeast(estimate + 1);
      estimate := estimate + 1;
    }
    while estimate > 0 && Threshold(estimate) > total
      invariant total < Threshold(estimate + 1)
    {
      estimate := estimate - 1;
    }
    LevelIsUnique(total, estimate, Level(total));
  }

  lemma FirstThreshold(n: int)
    requires n >= 1
    ensures LEVEL_BASE_BYTES == Threshold(1) <= Threshold(n)
  {
    RoundingIsExact(LEVEL_BASE_BYTES);
    assert LEVEL_BASE_BYTES as real * Growth(0) == LEVEL_BASE_BYTES as real;
    ThresholdsBelow(1, n);
  }

  // ------------------------------------------------------------------ progress

  function Share(part: int, whole: int): real
    requires whole > 0
  {
    part as real / whole as real
  }

  function Clamp01(x: real): real { if x < 0.0 then 0.0 else if x > 1.0 then 1.0 else x }

  /** The share of the way to the next level. The code's guard against an empty level never fires, and
      its upper clamp never binds. */
  function Progress(total: int): (p: real)
    ensures 0.0 <= p < 1.0
    ensures p == 0.0 <==> total <= 0 || exists n: nat :: total == Threshold(n)
  {
    var level := Level(total);
    var lower, upper := Threshold(level), Threshold(level + 1);
    NextThreshold(level);
    ShareIsInRange(total - lower, upper - lower);
    ProgressZeroAtThreshold(total);
    if upper <= lower then 1.0 else Clamp01(Share(total - lower, upper - lower))
  }

  /** The total lies between the two thresholds, and p is its share of the way. */
  predicate OnTheWay(p: real, total: int, lower: int, upper: int) {
    lower <= total < upper && p * (upper - lower) as real == (total - lower) as real
  }

  /** The lower threshold and that share of the gap make up the total. */
  lemma ProgressMakesUpTotal(total: nat)
    ensures OnTheWay(Progress(total), total, Threshold(Level(total)), Threshold(Level(total) + 1))
  {
    var lower, upper := Threshold(Level(total)), Threshold(Level(total) + 1);
    ProgressIsShare(total, lower, upper);
    ShareMakesUp(Progress(total), total, lower, upper);
  }

  lemma ProgressIsShare(total: nat, lower: int, upper: int)
    requires lower == Threshold(Level(total)) && upper == Threshold(Level(total) + 1)
    ensures lower <= total < upper && Progress(total) == Share(total - lower, upper - lower)
  {
    assert IsLevel(total, Level(total));
    ShareIsInRange(total - lower, upper - lower);
    ShareOfWhole(total - lower, upper - lower);
  }

  lemma ShareMakesUp(p: real, total: int, lower: int, upper: int)
    requires lower <= total < upper && p == Share(total - lower, upper - lower)
    ensures OnTheWay(p, total, lower, upper)
  {
    ShareOfWhole(total - lower, upper - lower);
  }

  lemma ShareOfWhole(part: int, whole: int)
    requires whole > 0
    ensures Share(part, whole) * whole as real == part as real
    ensures part >= 0 ==> Share(part, whole) >= 0.0
  {
  }

  lemma ShareIsInRange(part: int, whole: int)
    requires part < whole && whole > 0
    ensures Share(part, whole) < 1.0
    ensures Share(part, whole) <= 0.0 <==> part <= 0
  {
  }

  lemma ProgressZeroAtThreshold(total: int)
    ensures total <= Threshold(Level(total)) <==> total <= 0 || exists n: nat :: total == Threshold(n)
  {
    if n: nat :| total == Threshold(n) {
      LevelAtThreshold(n);
    }
    ThresholdAtLeast(Level(total));
  }

  // ------------------------------------------------------------------ weighting and themes

  function WeightedTotal(down: int, up: int, downFactor: real, upFactor: real): int {
    Weighted(down, downFactor) + Weighted(up, upFactor)
  }

  function Weighted(bytes: int, factor: real): int { RoundHalfEven(Scaled(bytes, factor)) }

  function Scaled(bytes: int, factor: real): real { bytes as real * factor }

  /** The weighted total is the exact one but for the rounding of its two parts. */
  lemma WeightedTotalIsClose(down: int, up: int, downFactor: real, upFactor: real)
    ensures var exact := down as real * downFactor + up as real * upFactor;
            exact - 1.0 <= WeightedTotal(down, up, downFactor, upFactor) as real <= exact + 1.0
  {
    RoundingIsClose(down as real * downFactor);
    RoundingIsClose(up as real * upFactor);
  }

  /** Each factor weighs its own direction. */
  lemma FactorsStayApart(bytes: int, factor: real, other: real)
    ensures WeightedTotal(bytes, 0, factor, other) == RoundHalfEven(bytes as real * factor)
    ensures WeightedTotal(0, bytes, other, factor) == RoundHalfEven(bytes as real * factor)
  {
    RoundingIsExact(0);
    assert 0 as real * other == 0.0;
  }

  lemma WeightedIsMonotone(a: nat, b: nat, f: real, g: real)
    requires a <= b && 0.0 <= f <= g
    ensures Weighted(a, f) <= Weighted(b, g)
  {
    ScaledIsMonotone(a, b, f, g);
    RoundingIsMonotone(Scaled(a, f), Scaled(b, g));
  }

  lemma ScaledIsMonotone(a: nat, b: nat, f: real, g: real)
    requires a <= b && 0.0 <= f <= g
    ensures Scaled(a, f) <= Scaled(b, g)
  {
    ProductIsMonotone(a as real, b as real, f, g);
  }

  lemma ProductIsMonotone(a: real, b: real, f: real, g: real)
    requires 0.0 <= a <= b && 0.0 <= f <= g
    ensures a * f <= b * g
  {
    assert a * f <= b * f by { assert (b - a) * f >= 0.0; }
    assert b * f <= b * g by { assert b * (g - f) >= 0.0; }
  }

  /** More bytes at no smaller factors never lower the level. */
  lemma LevelGrowsWithBytes(d1: nat, u1: nat, f1: real, g1: real, d2: nat, u2: nat, f2: real, g2: real)
    requires d1 <= d2 && u1 <= u2 && 0.0 <= f1 <= f2 && 0.0 <= g1 <= g2
    ensures WeightedTotal(d1, u1, f1, g1) <= WeightedTotal(d2, u2, f2, g2)
    ensures Level(WeightedTotal(d1, u1, f1, g1)) <= Level(WeightedTotal(d2, u2, f2, g2))
  {
    WeightedIsMonotone(d1, d2, f1, f2);
    WeightedIsMonotone(u1, u2, g1, g2);
    LevelIsMonotone(WeightedTotal(d1, u1, f1, g1), WeightedTotal(d2, u2, f2, g2));
  }

  const MACOS_THEME_ID := "macos_modern"
  const CCCP_THEME_ID := "cccp_soviet"

  /** (download factor, upload factor); no theme, and any theme not listed, uses the baseline. */
  function ScoreFactorsFor(theme: Option<string>): (real, real) {
    if theme == Some(MACOS_THEME_ID) then (0.5, UPLOAD_LEVEL_WEIGHT * 0.5)
    else if theme == Some(CCCP_THEME_ID) then (1.0, 3.0)
    else (1.0, UPLOAD_LEVEL_WEIGHT)
  }

  /** On any totals, no theme ranks below the macOS one or above the CCCP one. */
  lemma ThemesAreOrdered(down: nat, up: nat, theme: Option<string>)
    ensures var (d, u) := ScoreFactorsFor(theme);
            var (md, mu) := ScoreFactorsFor(Some(MACOS_THEME_ID));
            var (cd, cu) := ScoreFactorsFor(Some(CCCP_THEME_ID));
            Level(WeightedTotal(down, up, md, mu)) <= Level(WeightedTotal(down, up, d, u))
            <= Level(WeightedTotal(down, up, cd, cu))
  {
    var (d, u) := ScoreFactorsFor(theme);
    var (md, mu) := ScoreFactorsFor(Some(MACOS_THEME_ID));
    var (cd, cu) := ScoreFactorsFor(Some(CCCP_THEME_ID));
    LevelGrowsWithBytes(down, up, md, mu, down, up, d, u);
    LevelGrowsWithBytes(down, up, d, u, down, up, cd, cu);
  }

  /** One gibibyte uploaded counts as one and a half downloaded; the macOS theme halves both, and under the
      CCCP theme an uploaded byte counts three times. */
  lemma ThemesWeigh(bytes: int)
    ensures var (d, u) := ScoreFactorsFor(None);
            WeightedTotal(2 * bytes, 0, d, u) == 2 * bytes && WeightedTotal(0, 2 * bytes, d, u) == 3 * bytes
    ensures var (d, u) := ScoreFactorsFor(Some("macos_modern"));
            WeightedTotal(2 * bytes, 0, d, u) == bytes && WeightedTotal(0, 4 * bytes, d, u) == 3 * bytes
    ensures var (d, u) := ScoreFactorsFor(Some("cccp_soviet"));
            WeightedTotal(bytes, 0, d, u) == bytes && WeightedTotal(0, bytes, d, u) == 3 * bytes
  {
    WeighsExactly(2 * bytes, 1.0, 2 * bytes);
    WeighsExactly(2 * bytes, 1.5, 3 * bytes);
    WeighsExactly(2 * bytes, 0.5, bytes);
    WeighsExactly(4 * bytes, 0.75, 3 * bytes);
    WeighsExactly(bytes, 1.0, bytes);
    WeighsExactly(bytes, 3.0, 3 * bytes);
  }

  lemma WeighsExactly(bytes: int, factor: real, weight: int)
    requires bytes as real * factor == weight as real
    ensures forall other :: WeightedTotal(bytes, 0, factor, other) == WeightedTotal(0, bytes, other, factor) == weight
  {
    RoundingIsExact(weight);
    forall other ensures WeightedTotal(bytes, 0, factor, other) == WeightedTotal(0, bytes, other, factor) == weight {
      FactorsStayApart(bytes, factor, other);
    }
  }

  datatype StatsSnapshot = StatsSnapshot(
    totalDownloaded: int, totalUploaded: int, level: int, progressToNext: real,
    currentThreshold: int, nextThreshold: int)

  /** The raw totals with the level of the weighted one, which lies between the two thresholds shown. */
  method Snapshot(down: int, up: int, downFactor: real, upFactor: real, estimate: int) returns (s: StatsSnapshot)
    ensures s.totalDownloaded == down && s.totalUploaded == up
    ensures var total := WeightedTotal(down, up, downFactor, upFactor);
            && s.level == Level(total) && s.progressToNext == Progress(total)
            && (total >= 0 ==> s.currentThreshold <= total < s.nextThreshold)
            && s.currentThreshold == Threshold(s.level) && s.nextThreshold == Threshold(s.level + 1)
  {
    var total := WeightedTotal(down, up, downFactor, upFactor);
    var level := LevelForTotalBytes(total, estimate);
    s := StatsSnapshot(down, up, level, Progress(total), Threshold(level), Threshold(level + 1));
  }
}
