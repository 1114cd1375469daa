/**
 * The part of the period algebra the core relies on. Instants are day
 * ordinals; a period keeps its unit and its first and last day. Calendar
 * arithmetic (month and year lengths, `base`, `offset` by months or years)
 * belongs to the periods module, which is not part of this model: where the
 * core needs it, the caller supplies the resulting period.
 */
module Periods {
  import opened Base

  /** A calendar day, as a day ordinal. */
  type Instant = int

  datatype Unit = Day | Month | Year

  /** A run of days from `start` to `stop` inclusive, labelled by its unit. */
  datatype Period = Period(unit: Unit, start: Instant, stop: Instant)

  predicate InPeriod(p: Period, d: Instant) {
    p.start <= d <= p.stop
  }

  /** `d` respects an optional lower bound. */
  predicate NotBefore(lo: Option<Instant>, d: Instant) {
    lo.None? || lo.value <= d
  }

  /** `d` respects an optional upper bound. */
  predicate NotAfter(hi: Option<Instant>, d: Instant) {
    hi.None? || d <= hi.value
  }

  /**
   * `periods.intersection(period, lower, upper)`: the days of `p` between the
   * optional bounds, or `None` when there are none. The clipped period keeps
   * the unit of `p`.
   */
  function Intersect(p: Period, lo: Option<Instant>, hi: Option<Instant>): (r: Option<Period>)
    ensures r.None? <==> forall d :: !(InPeriod(p, d) && NotBefore(lo, d) && NotAfter(hi, d))
    ensures r.Some? ==> r.value.unit == p.unit
    ensures r.Some? ==>
      forall d :: InPeriod(r.value, d) <==> InPeriod(p, d) && NotBefore(lo, d) && NotAfter(hi, d)
  {
    var start := if lo.Some? && lo.value > p.start then lo.value else p.start;
    var stop := if hi.Some? && hi.value < p.stop then hi.value else p.stop;
    if start <= stop then
      assert InPeriod(p, start) && NotBefore(lo, start) && NotAfter(hi, start);
      Some(Period(p.unit, start, stop))
    else
      assert forall d :: !(InPeriod(p, d) && NotBefore(lo, d) && NotAfter(hi, d));
      None
  }
}
