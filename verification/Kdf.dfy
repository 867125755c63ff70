// Choosing how many passes of the key derivation take about half a second.
module Kdf {
  import opened Results

  const TARGET_NANOS: nat := 500_000_000
  const MAX_ITERATIONS: nat := 1_000
  const U64_MAX: nat := 0xFFFF_FFFF_FFFF_FFFF
  const U128_MAX: nat := 0xFFFF_FFFF_FFFF_FFFF_FFFF_FFFF_FFFF_FFFF

  function Saturated(n: nat): nat {
    if n <= U128_MAX then n else U128_MAX
  }

  function Clamp(n: nat): nat {
    if n < 1 then 1 else if n > MAX_ITERATIONS then MAX_ITERATIONS else n
  }

  function Div(n: nat, d: nat): nat
    requires d > 0
  {
    n / d
  }

  // The program's arithmetic: 128-bit and saturating.
  function ScaleIterations(current: nat, elapsed: nat): (r: nat)
    ensures 1 <= r <= MAX_ITERATIONS
  {
    if elapsed == 0 then MAX_ITERATIONS
    else
      var numerator := Saturated(current * TARGET_NANOS);
      var rounded := Div(Saturated(numerator + Div(elapsed, 2)), elapsed);
      Clamp(if rounded <= U64_MAX then rounded else MAX_ITERATIONS)
  }

  function Abs(n: int): nat {
    if n < 0 then -n else n
  }

  // How far `m` passes miss the target, scaled by the sample: |target * current - m * elapsed|.
  function Miss(m: int, current: nat, elapsed: nat): nat {
    Abs(TARGET_NANOS * current - m * elapsed)
  }

  lemma DivBounds(n: nat, d: nat)
    requires d > 0
    ensures Div(n, d) * d <= n < Div(n, d) * d + d
  {
  }

  lemma Nonnegative(a: nat, b: nat)
    ensures a * b >= 0
  {
  }

  lemma StepBelow(q: int, m: int, d: nat)
    ensures m < q ==> m * d <= q * d - d
    ensures m > q ==> m * d >= q * d + d
  {
    if m < q {
      assert (q - m - 1) * d == q * d - m * d - d;
      Nonnegative(q - m - 1, d);
    } else if m > q {
      assert (m - q - 1) * d == m * d - q * d - d;
      Nonnegative(m - q - 1, d);
    }
  }

  // Rounding half up gives a nearest integer.
  lemma RoundedIsNearest(current: nat, elapsed: nat, m: int)
    requires elapsed > 0
    ensures Miss(Div(current * TARGET_NANOS + Div(elapsed, 2), elapsed), current, elapsed) <= Miss(m, current, elapsed)
    ensures var q := Div(current * TARGET_NANOS + Div(elapsed, 2), elapsed);
            m > q ==> Miss(q, current, elapsed) < Miss(m, current, elapsed)
  {
    var n := current * TARGET_NANOS;
    var q := Div(n + Div(elapsed, 2), elapsed);
    DivBounds(n + Div(elapsed, 2), elapsed);
    StepBelow(q, m, elapsed);
  }

  // On 64-bit counts and measurable durations nothing saturates.
  lemma NothingSaturates(current: nat, elapsed: nat)
    requires current <= U64_MAX && 0 < elapsed <= U64_MAX * 1_000_000_000 + 999_999_999
    ensures ScaleIterations(current, elapsed) == Clamp(Div(current * TARGET_NANOS + Div(elapsed, 2), elapsed))
  {
    var q := Div(current * TARGET_NANOS + Div(elapsed, 2), elapsed);
    assert current * TARGET_NANOS <= U64_MAX * TARGET_NANOS;
    assert current * TARGET_NANOS + Div(elapsed, 2) <= U128_MAX;
  }

  lemma Monotone(m: int, k: int, d: nat)
    requires m <= k
    ensures m * d <= k * d
  {
    assert (k - m) * d == k * d - m * d;
    Nonnegative(k - m, d);
  }

  // Past a nearest integer the miss only grows.
  lemma MissGrows(q: int, m: int, k: int, current: nat, elapsed: nat)
    requires q < m <= k || k <= m < q
    requires 2 * Abs(TARGET_NANOS * current - q * elapsed) <= elapsed
    ensures Miss(m, current, elapsed) <= Miss(k, current, elapsed)
    ensures elapsed > 0 && m < k ==> Miss(m, current, elapsed) < Miss(k, current, elapsed)
  {
    StepBelow(q, m, elapsed);
    StepBelow(m, k, elapsed);
    if m <= k {
      Monotone(m, k, elapsed);
    } else {
      Monotone(k, m, elapsed);
    }
  }

  // The result is nearest to target * current / elapsed among the allowed pass counts, and the
  // larger one of two that are equally near.
  lemma ScaleIsNearest(current: nat, elapsed: nat, k: nat)
    requires current <= U64_MAX && 0 < elapsed <= U64_MAX * 1_000_000_000 + 999_999_999
    requires 1 <= k <= MAX_ITERATIONS
    ensures Miss(ScaleIterations(current, elapsed), current, elapsed) <= Miss(k, current, elapsed)
    ensures k > ScaleIterations(current, elapsed) ==>
              Miss(ScaleIterations(current, elapsed), current, elapsed) < Miss(k, current, elapsed)
  {
    NothingSaturates(current, elapsed);
    var n := current * TARGET_NANOS;
    var q := Div(n + Div(elapsed, 2), elapsed);
    DivBounds(n + Div(elapsed, 2), elapsed);
    RoundedIsNearest(current, elapsed, k);
    if q < 1 {
      MissGrows(q, 1, k, current, elapsed);
    } else if q > MAX_ITERATIONS {
      MissGrows(q, MAX_ITERATIONS, k, current, elapsed);
    }
  }

  // ---- calibration ----------------------------------------------------------------

  // One sample, and a second one at the estimate when that is more than a single pass.
  function CalibrateIterations(measure: nat -> Result<nat>): Result<nat> {
    match measure(1)
    case Err(e) => Err(e)
    case Ok(onePass) =>
      var estimate := ScaleIterations(1, onePass);
      if estimate == 1 then Ok(1)
      else match measure(estimate)
        case Err(e) => Err(e)
        case Ok(elapsed) => Ok(ScaleIterations(estimate, elapsed))
  }

  // A duration of the program's clock, in nanoseconds.
  predicate Representable(elapsed: nat) {
    elapsed <= U64_MAX * 1_000_000_000 + 999_999_999
  }

  // Whatever the cost: the count is the nearest to half a second by the second sample, taken at
  // the nearest count by the first one, unless that is a single pass. A sample that fails is
  // the outcome, and one that takes no time gives the largest count.
  lemma CalibrationMeaning(measure: nat -> Result<nat>) returns (estimate: nat)
    requires forall n: nat :: measure(n).Ok? ==> Representable(measure(n).value)
    ensures var r := CalibrateIterations(measure);
            match measure(1)
            case Err(e) => r == Err(e)
            case Ok(onePass) =>
              && 1 <= estimate <= 1_000 && (onePass == 0 ==> estimate == 1_000)
              && (forall k | 1 <= k <= 1_000 :: Nearer(estimate, k, 1, onePass))
              && (estimate == 1 ==> r == Ok(1))
              && (estimate > 1 ==>
                    match measure(estimate)
                    case Err(e) => r == Err(e)
                    case Ok(elapsed) =>
                      && r.Ok? && 1 <= r.value <= 1_000 && (elapsed == 0 ==> r.value == 1_000)
                      && forall k | 1 <= k <= 1_000 :: Nearer(r.value, k, estimate, elapsed))
  {
    hide ScaleIterations, Nearer;
    estimate := 1;
    if measure(1).Ok? {
      estimate := ScaleIterations(1, measure(1).value);
      ScaleIsNearer(1, measure(1).value);
      if estimate > 1 && measure(estimate).Ok? {
        ScaleIsNearer(estimate, measure(estimate).value);
      }
    }
  }

  // With `current` passes in `elapsed` nanoseconds, `m` passes come closer to half a second than
  // `k` do, or as close and are no fewer.
  predicate Nearer(m: nat, k: nat, current: nat, elapsed: nat) {
    && Abs(500_000_000 * current - m * elapsed) <= Abs(500_000_000 * current - k * elapsed)
    && (Abs(500_000_000 * current - m * elapsed) == Abs(500_000_000 * current - k * elapsed) ==> m >= k)
  }

  lemma ScaleIsNearer(current: nat, elapsed: nat)
    requires 1 <= current <= MAX_ITERATIONS && Representable(elapsed)
    ensures elapsed == 0 ==> ScaleIterations(current, elapsed) == 1_000
    ensures forall k | 1 <= k <= 1_000 :: Nearer(ScaleIterations(current, elapsed), k, current, elapsed)
  {
    forall k | 1 <= k <= 1_000 ensures Nearer(ScaleIterations(current, elapsed), k, current, elapsed) {
      if elapsed > 0 {
        ScaleIsNearest(current, elapsed, k);
        hide ScaleIterations;
      }
    }
  }

  lemma HalfOfMultiple(j: nat, cost: nat)
    requires j > 0 && cost > 0
    ensures Div(j * TARGET_NANOS + Div(j * cost, 2), j * cost) == Div(TARGET_NANOS + Div(cost, 2), cost)
  {
    var q := Div(TARGET_NANOS + Div(cost, 2), cost);
    DivBounds(TARGET_NANOS + Div(cost, 2), cost);
    // q * cost <= TARGET + cost / 2 < q * cost + cost, doubled to get rid of the half.
    assert 2 * (q * cost) <= 2 * TARGET_NANOS + cost;
    assert 2 * TARGET_NANOS + cost < 2 * (q * cost) + 2 * cost;
    Scaled(j, 2 * (q * cost), 2 * TARGET_NANOS + cost, 2 * (q * cost) + 2 * cost);
    var n := j * TARGET_NANOS + Div(j * cost, 2);
    assert j * (2 * (q * cost)) == 2 * (q * (j * cost));
    assert j * (2 * TARGET_NANOS + cost) == 2 * (j * TARGET_NANOS) + j * cost;
    assert j * (2 * (q * cost) + 2 * cost) == 2 * (q * (j * cost)) + 2 * (j * cost);
    assert q * (j * cost) <= n < q * (j * cost) + j * cost;
    Quotient(n, j * cost, q);
  }

  lemma Scaled(j: nat, a: int, b: int, c: int)
    requires j > 0 && a <= b < c
    ensures j * a <= j * b < j * c
  {
    assert j * (b - a) >= 0 && j * (c - b) > 0;
  }

  lemma Quotient(n: nat, d: nat, q: int)
    requires d > 0 && q * d <= n < q * d + d
    ensures Div(n, d) == q
  {
    DivBounds(n, d);
    StepBelow(q, Div(n, d), d);
  }

  // Proportional cost: the sample size does not matter.
  lemma SampleSizeIrrelevant(j: nat, cost: nat)
    requires 0 < j <= MAX_ITERATIONS && cost <= U64_MAX * 1_000_000
    ensures ScaleIterations(j, j * cost) == ScaleIterations(1, cost)
  {
    if cost > 0 {
      assert j * cost <= MAX_ITERATIONS * cost;
      assert j * cost > 0;
      NothingSaturates(j, j * cost);
      NothingSaturates(1, cost);
      HalfOfMultiple(j, cost);
    }
  }

  // So the correction sample changes nothing there, and the answer is nearest to the target.
  lemma ProportionalCalibration(measure: nat -> Result<nat>, cost: nat, k: nat)
    requires cost <= U64_MAX * 1_000_000
    requires forall n: nat :: measure(n) == Ok(n * cost)
    requires 1 <= k <= MAX_ITERATIONS
    ensures CalibrateIterations(measure) == Ok(ScaleIterations(1, cost))
    ensures cost > 0 ==> Miss(ScaleIterations(1, cost), 1, cost) <= Miss(k, 1, cost)
  {
    assert measure(1) == Ok(cost);
    SampleSizeIrrelevant(ScaleIterations(1, cost), cost);
    if cost > 0 {
      ScaleIsNearest(1, cost, k);
    }
  }
}
