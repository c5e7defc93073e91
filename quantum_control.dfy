/** The bounded step control of the cost calculator (QuantumControl): a numeric
    value with min, max and step, a bar of twelve segments derived from the value,
    and the + and - buttons. Values are modelled as unbounded integers; the
    division and rounding of the segment count are done over exact reals. */
module QuantumControl {

  import opened MathUtil

  /** Number of segments in the bar. */
  const TotalSegments: nat := 12

  function Clamp(x: int, lo: int, hi: int): (r: int)
    requires lo <= hi
  {
    if x < lo then lo else if x > hi then hi else x
  }

  /** Math.round: the nearest integer, halves rounded up, i.e. floor(x + 1/2). */
  function Round(x: real): (r: int)
    ensures r as real - 0.5 <= x < r as real + 0.5
  {
    (x + 0.5).Floor
  }

  lemma RoundMonotone(x: real, y: real)
    requires x <= y
    ensures Round(x) <= Round(y)
  {
  }

  /** (value - min) / (max - min) over the reals. */
  function Ratio(value: int, min: int, max: int): (q: real)
    requires min != max
  {
    (value - min) as real / (max - min) as real
  }

  lemma RatioBounds(value: int, min: int, max: int)
    requires min < max && min <= value <= max
    ensures 0.0 <= Ratio(value, min, max) <= 1.0
    ensures value == min ==> Ratio(value, min, max) == 0.0
    ensures value == max ==> Ratio(value, min, max) == 1.0
  {
    var a, d := (value - min) as real, (max - min) as real;
    assert Ratio(value, min, max) * d == a;
  }

  lemma RatioMonotone(v1: int, v2: int, min: int, max: int)
    requires min < max && v1 <= v2
    ensures Ratio(v1, min, max) <= Ratio(v2, min, max)
  {
    var d := (max - min) as real;
    var q1, q2 := Ratio(v1, min, max), Ratio(v2, min, max);
    assert q1 * d == (v1 - min) as real;
    assert q2 * d == (v2 - min) as real;
    assert (q2 - q1) * d == (v2 - v1) as real;
  }

  /** activeSegments: Math.round((value - min) / (max - min) * 12). For a value
      within a proper range it is a segment count, 0 at min and 12 at max. */
  function ActiveSegments(value: int, min: int, max: int): (n: int)
    requires min != max
    ensures min < max && min <= value <= max ==> 0 <= n <= TotalSegments
    ensures min < max && value == min ==> n == 0
    ensures min < max && value == max ==> n == TotalSegments
  {
    if min < max && min <= value <= max then RatioBounds(value, min, max); Round(Ratio(value, min, max) * TotalSegments as real)
    else Round(Ratio(value, min, max) * TotalSegments as real)
  }

  /** The segment count never decreases when the value grows. */
  lemma ActiveSegmentsMonotone(v1: int, v2: int, min: int, max: int)
    requires min < max && v1 <= v2
    ensures ActiveSegments(v1, min, max) <= ActiveSegments(v2, min, max)
  {
    RatioMonotone(v1, v2, min, max);
    var q1, q2 := Ratio(v1, min, max), Ratio(v2, min, max);
    assert q1 * TotalSegments as real <= q2 * TotalSegments as real;
    RoundMonotone(q1 * TotalSegments as real, q2 * TotalSegments as real);
  }

  /** The rendered bar: segment i is lit when i < active. */
  function Bar(total: nat, active: int): (bar: seq<bool>)
    ensures |bar| == total
    ensures forall i :: 0 <= i < total ==> (bar[i] <==> i < active)
  {
    seq(total, i => i < active)
  }

  /** Number of lit segments in a bar. */
  function CountLit(bar: seq<bool>): (c: nat)
    ensures c <= |bar|
  {
    if bar == [] then 0
    else CountLit(bar[..|bar| - 1]) + (if bar[|bar| - 1] then 1 else 0)
  }

  /** A bar of `total` segments shows `active` clamped into [0, total] lit segments. */
  lemma {:induction false} BarCount(total: nat, active: int)
    ensures CountLit(Bar(total, active)) == Clamp(active, 0, total)
  {
    if total > 0 {
      var bar := Bar(total, active);
      assert bar[..total - 1] == Bar(total - 1, active);
      BarCount(total - 1, active);
    }
  }

  /** For a value in range the twelve-segment bar lights exactly activeSegments segments. */
  lemma RenderedSegments(value: int, min: int, max: int)
    requires min < max && min <= value <= max
    ensures CountLit(Bar(TotalSegments, ActiveSegments(value, min, max))) == ActiveSegments(value, min, max)
  {
    BarCount(TotalSegments, ActiveSegments(value, min, max));
  }

  /** handleIncrement: value + step is published only when it stays within max;
      otherwise nothing is published and the value is left as it was (it is not
      clamped to max). */
  function Increment(value: int, max: int, step: int): (r: int)
    ensures value + step <= max ==> r == value + step
    ensures value + step > max ==> r == value
    ensures value <= max ==> r <= max
    ensures step >= 0 ==> value <= r
  {
    if value + step <= max then value + step else value
  }

  /** handleDecrement: the mirror case, guarded by min. */
  function Decrement(value: int, min: int, step: int): (r: int)
    ensures value - step >= min ==> r == value - step
    ensures value - step < min ==> r == value
    ensures value >= min ==> r >= min
    ensures step >= 0 ==> r <= value
  {
    if value - step >= min then value - step else value
  }

  /** Neither button takes an in-range value out of [min, max]. */
  lemma ButtonsKeepRange(value: int, min: int, max: int, step: int)
    requires min <= value <= max && step >= 0
    ensures min <= Increment(value, max, step) <= max
    ensures min <= Decrement(value, min, step) <= max
  {
  }

  /** An increment that changed the value is undone by a decrement. */
  lemma DecrementUndoesIncrement(value: int, min: int, max: int, step: int)
    requires min <= value && Increment(value, max, step) != value
    ensures Decrement(Increment(value, max, step), min, step) == value
  {
  }

  /** A decrement that changed the value is undone by an increment. */
  lemma IncrementUndoesDecrement(value: int, min: int, max: int, step: int)
    requires value <= max && Decrement(value, min, step) != value
    ensures Increment(Decrement(value, min, step), max, step) == value
  {
  }

  /** k presses of the + button. */
  function Increments(value: int, max: int, step: int, k: nat): (r: int)
    decreases k
  {
    if k == 0 then value else Increments(Increment(value, max, step), max, step, k - 1)
  }

  /** k presses of the - button. */
  function Decrements(value: int, min: int, step: int, k: nat): (r: int)
    decreases k
  {
    if k == 0 then value else Decrements(Decrement(value, min, step), min, step, k - 1)
  }

  lemma MulDistrib(a: int, m: int)
    ensures a * (m + 1) == a * m + a
  {
  }

  lemma MulAtLeast(c: int, b: int)
    requires c >= 1 && b > 0
    ensures c * b >= b
  {
    MulDistrib(b, c - 1);
    assert b * (c - 1) >= 0;
  }

  /** Euclidean division has a unique quotient. */
  lemma DivUnique(x: int, b: int, q: int, r: int)
    requires b > 0 && x == q * b + r && 0 <= r < b
    ensures x / b == q
  {
    var q', r' := x / b, x % b;
    assert x == q' * b + r' && 0 <= r' < b;
    assert (q - q') * b == q * b - q' * b;
    if q > q' {
      MulAtLeast(q - q', b);
    } else if q < q' {
      MulAtLeast(q' - q, b);
    }
  }

  lemma DivStep(a: int, b: int)
    requires a >= b > 0
    ensures (a - b) / b == a / b - 1
  {
    var q, r := a / b, a % b;
    assert a == q * b + r && 0 <= r < b;
    assert (q - 1) * b == q * b - b;
    DivUnique(a - b, b, q - 1, r);
  }

  /** After k presses of + the value has moved up by whole steps, as many as fit
      below max: it reaches max exactly only when step divides max - value. */
  lemma {:induction false} IncrementsClosedForm(value: int, max: int, step: int, k: nat)
    requires value <= max && step > 0
    ensures Increments(value, max, step, k) == value + step * Min(k, (max - value) / step)
    decreases k
  {
    if k > 0 {
      var q := (max - value) / step;
      if value + step <= max {
        IncrementsClosedForm(value + step, max, step, k - 1);
        DivStep(max - value, step);
        var m := Min(k - 1, q - 1);
        assert Min(k, q) == m + 1;
        MulDistrib(step, m);
      } else {
        IncrementsClosedForm(value, max, step, k - 1);
        DivUnique(max - value, step, 0, max - value);
      }
    }
  }

  /** The mirror of IncrementsClosedForm for the - button. */
  lemma {:induction false} DecrementsClosedForm(value: int, min: int, step: int, k: nat)
    requires min <= value && step > 0
    ensures Decrements(value, min, step, k) == value - step * Min(k, (value - min) / step)
    decreases k
  {
    if k > 0 {
      var q := (value - min) / step;
      if value - step >= min {
        DecrementsClosedForm(value - step, min, step, k - 1);
        DivStep(value - min, step);
        var m := Min(k - 1, q - 1);
        assert Min(k, q) == m + 1;
        MulDistrib(step, m);
      } else {
        DecrementsClosedForm(value, min, step, k - 1);
        DivUnique(value - min, step, 0, value - min);
      }
    }
  }

  /** Pressing + any number of times stops at max - (max - value) % step and never
      passes max: the value reaches max itself only when the step divides the gap. */
  lemma IncrementsSettle(value: int, max: int, step: int, k: nat)
    requires value <= max && step > 0
    ensures Increments(value, max, step, k) <= max
    ensures k >= (max - value) / step ==> Increments(value, max, step, k) == max - (max - value) % step
  {
    IncrementsClosedForm(value, max, step, k);
    var q, r := (max - value) / step, (max - value) % step;
    SettleArithmetic(value, max, step, k, q, r, Increments(value, max, step, k));
  }

  /** The arithmetic behind IncrementsSettle, with quotient and remainder given. */
  lemma SettleArithmetic(value: int, max: int, step: int, k: nat, q: int, r: int, v: int)
    requires step > 0 && max - value == step * q + r && 0 <= r < step
    requires v == value + step * Min(k, q)
    ensures v <= max
    ensures k >= q ==> v == max - r
  {
    if k < q {
      MulMonotone(step, k, q);
    }
  }

  lemma MulMonotone(a: int, x: int, y: int)
    requires a > 0 && x <= y
    ensures a * x <= a * y
  {
    assert a * y - a * x == a * (y - x);
  }

  /** The frequency control (min 1, max 50, step 1) from 10: three presses of +
      give 13, which lights round(144 / 49) = 3 segments. */
  lemma FrequencyScenario()
    ensures Increments(10, 50, 1, 3) == 13
    ensures ActiveSegments(13, 1, 50) == 3
  {
    assert Ratio(13, 1, 50) == 12.0 / 49.0;
  }
}
