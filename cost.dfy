/** The calculator's derived figure: money lost per month, from how often a task
    is done per week, how many minutes it takes and the hourly rate. Modelled over
    exact reals; the page's floating point is not. */
module CostStats {

  /** Weeks per month used by the calculator. */
  const WeeksPerMonth: real := 4.33

  /** Minutes per hour. */
  const MinutesPerHour: real := 60.0

  /** stats.moneyMonthly: weekly hours (frequency * duration / 60) times 4.33
      weeks, times the hourly rate. */
  function MonthlyCost(frequency: real, duration: real, rate: real): (money: real)
    ensures money == frequency * duration * WeeksPerMonth * rate / MinutesPerHour
    ensures frequency >= 0.0 && duration >= 0.0 && rate >= 0.0 ==> money >= 0.0
  {
    var hoursWeekly := frequency * duration / MinutesPerHour;
    var hoursMonthly := hoursWeekly * WeeksPerMonth;
    ProductNonnegative(frequency, duration, rate);
    hoursMonthly * rate
  }

  lemma ProductNonnegative(a: real, b: real, c: real)
    ensures a >= 0.0 && b >= 0.0 && c >= 0.0 ==> a * b * WeeksPerMonth * c >= 0.0
  {
    if a >= 0.0 && b >= 0.0 && c >= 0.0 {
      assert a * b >= 0.0;
      assert a * b * WeeksPerMonth >= 0.0;
    }
  }

  lemma MulMonotone(a: real, b: real, c: real, d: real)
    requires 0.0 <= a <= b && 0.0 <= c <= d
    ensures a * c <= b * d
  {
    assert a * c <= b * c;
    assert b * c <= b * d;
  }

  /** For non-negative inputs the monthly cost does not decrease when any input grows. */
  lemma MonthlyCostMonotone(f1: real, d1: real, r1: real, f2: real, d2: real, r2: real)
    requires 0.0 <= f1 <= f2 && 0.0 <= d1 <= d2 && 0.0 <= r1 <= r2
    ensures MonthlyCost(f1, d1, r1) <= MonthlyCost(f2, d2, r2)
  {
    MulMonotone(f1, f2, d1, d2);
    var w1, w2 := f1 * d1 / MinutesPerHour, f2 * d2 / MinutesPerHour;
    assert w1 <= w2;
    var m1, m2 := w1 * WeeksPerMonth, w2 * WeeksPerMonth;
    assert 0.0 <= m1 <= m2;
    MulMonotone(m1, m2, r1, r2);
  }

  /** The three controls range over frequency 1..50 per week, duration 5..120
      minutes and rate 10..150 per hour; every setting of them yields a monthly
      cost between the cost of the lowest and of the highest setting. */
  lemma MonthlyCostWithinControlRanges(frequency: real, duration: real, rate: real)
    requires 1.0 <= frequency <= 50.0 && 5.0 <= duration <= 120.0 && 10.0 <= rate <= 150.0
    ensures MonthlyCost(1.0, 5.0, 10.0) <= MonthlyCost(frequency, duration, rate) <= MonthlyCost(50.0, 120.0, 150.0)
    ensures MonthlyCost(50.0, 120.0, 150.0) == 64950.0
  {
    MonthlyCostMonotone(1.0, 5.0, 10.0, frequency, duration, rate);
    MonthlyCostMonotone(frequency, duration, rate, 50.0, 120.0, 150.0);
  }

  /** The initial settings (10 per week, 30 minutes, 25 per hour) cost 541.25 a month. */
  lemma InitialSettingsCost()
    ensures MonthlyCost(10.0, 30.0, 25.0) == 541.25
  {
  }
}
