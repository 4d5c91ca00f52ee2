/**
 * The overlap finder with its third time clause compared against the
 * window's end (`f.end >= :end`) instead of the row's own end: the clause
 * then says "the shift covers the whole window", and the three clauses
 * together say exactly "the shift and the window share an instant".
 */
module OverlapIntended {
  import opened Wrappers
  import opened Sql
  import opened Domain
  import opened ShiftRepository

  /** The overlap WHERE clause with `f.end >= :end` as the last comparison. */
  function IntendedOverlapWhere(f: Shift, car: Option<CarId>, safetyDriver: Option<DriverId>, start: int, end: int): (t: Truth)
    ensures t == True <==> OnResource(f, car, safetyDriver) && IntendedTime(f, start, end)
    ensures t == Unknown ==> f.car.None? || car.None? || f.safetyDriver.None? || safetyDriver.None?
  {
    And(
      Or(Eq(f.car, car), Eq(f.safetyDriver, safetyDriver)),
      Or(
        Or(Between(f.start, start, end), Between(f.end, start, end)),
        And(Of(f.start <= start), Of(f.end >= end))))
  }

  /** The shift starts or ends inside the window, or covers it. */
  predicate IntendedTime(f: Shift, start: int, end: int)
  {
    StartsWithin(f, start, end) || EndsWithin(f, start, end) || (f.start <= start && f.end >= end)
  }

  /** The corrected overlap finder: the stored shifts on the resource that satisfy `IntendedTime`. */
  function FindOverlappingIntended(store: seq<Shift>, car: Option<CarId>, safetyDriver: Option<DriverId>, start: int, end: int): (r: seq<Shift>)
    ensures forall f :: f in r <==> f in store && OnResource(f, car, safetyDriver) && IntendedTime(f, start, end)
    ensures forall f :: multiset(r)[f] ==
                        if OnResource(f, car, safetyDriver) && IntendedTime(f, start, end) then multiset(store)[f] else 0
  {
    Select(store, f => IntendedOverlapWhere(f, car, safetyDriver, start, end))
  }

  /**
   * For a well-formed shift and window, the corrected time condition holds
   * exactly when the two closed intervals intersect.
   */
  lemma IntendedTimeIsIntersection(f: Shift, start: int, end: int)
    requires WellFormed(f) && start <= end
    ensures IntendedTime(f, start, end) <==> Intersects(f.start, f.end, start, end)
  {
  }

  /**
   * The corrected finder reports exactly the stored shifts on the resource
   * that intersect the window, when shifts and window are well-formed.
   */
  lemma IntendedReportIsExact(store: seq<Shift>, car: Option<CarId>, safetyDriver: Option<DriverId>, start: int, end: int)
    requires forall f :: f in store ==> WellFormed(f)
    requires start <= end
    ensures forall f :: f in FindOverlappingIntended(store, car, safetyDriver, start, end) <==>
      f in store && OnResource(f, car, safetyDriver) && Intersects(f.start, f.end, start, end)
  {
    forall f | f in store
      ensures IntendedTime(f, start, end) <==> Intersects(f.start, f.end, start, end)
    {
      IntendedTimeIsIntersection(f, start, end);
    }
  }

  /**
   * As written, the finder reports a shift that ended before the window
   * began: A over [100, 200] conflicts with the window [300, 400]. The
   * corrected finder reports nothing for that window.
   */
  lemma FinishedShiftIsReportedAsWritten()
    ensures var a := Shift(1, Some(1), None, 100, 200);
      var b := Shift(2, Some(1), None, 150, 250);
      && a.end < 300
      && FindOverlapping([a, b], Some(1), None, 300, 400) == [a, b]
      && FindOverlappingIntended([a, b], Some(1), None, 300, 400) == []
  {
  }

  /** The corrected finder reports no shift that ends before the window starts or starts after it ends. */
  lemma IntendedExcludesDisjointShifts(store: seq<Shift>, car: Option<CarId>, safetyDriver: Option<DriverId>, start: int, end: int, f: Shift)
    requires WellFormed(f) && start <= end
    requires f.end < start || f.start > end
    ensures f !in FindOverlappingIntended(store, car, safetyDriver, start, end)
  {
  }
}
