/**
 * What the literal overlap finder of ShiftRepository.java:24-25 does and
 * does not guarantee.
 */
module OverlapProperties {
  import opened Wrappers
  import opened Domain
  import opened ShiftRepository

  /** Every reported shift is stored and assigned to the given car or safety driver. */
  lemma ReportedShiftsAreOnResource(store: seq<Shift>, car: Option<CarId>, safetyDriver: Option<DriverId>, start: int, end: int)
    ensures forall f :: f in FindOverlapping(store, car, safetyDriver, start, end) ==>
      f in store && ((car.Some? && f.car == car) || (safetyDriver.Some? && f.safetyDriver == safetyDriver))
  {
  }

  /** With neither a car nor a safety driver given, nothing is reported. */
  lemma NullReferencesMatchNothing(store: seq<Shift>, start: int, end: int)
    ensures FindOverlapping(store, None, None, start, end) == []
  {
  }

  /** A car and safety driver with no shifts in the store have no conflicts, whatever the window. */
  lemma NoShiftsNoConflicts(store: seq<Shift>, car: Option<CarId>, safetyDriver: Option<DriverId>, start: int, end: int)
    requires forall f :: f in store ==> !OnResource(f, car, safetyDriver)
    ensures FindOverlapping(store, car, safetyDriver, start, end) == []
  {
  }

  /**
   * Because `f.end >= f.end` always holds, a shift on the resource that
   * starts no later than the window is reported, even one that ended
   * before the window began.
   */
  lemma StartBeforeWindowIsReported(store: seq<Shift>, car: Option<CarId>, safetyDriver: Option<DriverId>, start: int, end: int, f: Shift)
    requires f in store && OnResource(f, car, safetyDriver)
    requires f.start <= start
    ensures f in FindOverlapping(store, car, safetyDriver, start, end)
  {
  }

  /** BETWEEN is inclusive: a shift starting exactly at the window's end is reported. */
  lemma StartAtWindowEndIsReported(store: seq<Shift>, car: Option<CarId>, safetyDriver: Option<DriverId>, start: int, end: int, f: Shift)
    requires f in store && OnResource(f, car, safetyDriver)
    requires start <= end && f.start == end
    ensures f in FindOverlapping(store, car, safetyDriver, start, end)
  {
  }

  /** BETWEEN is inclusive: a shift ending exactly at the window's start is reported. */
  lemma EndAtWindowStartIsReported(store: seq<Shift>, car: Option<CarId>, safetyDriver: Option<DriverId>, start: int, end: int, f: Shift)
    requires f in store && OnResource(f, car, safetyDriver)
    requires start <= end && f.end == start
    ensures f in FindOverlapping(store, car, safetyDriver, start, end)
  {
  }

  /** Any shift starting no later than the window ends satisfies the time condition; no well-formedness is needed. */
  lemma StartNotAfterEndIsReportedTime(f: Shift, start: int, end: int)
    requires f.start <= end
    ensures ReportedTime(f, start, end)
  {
  }

  /**
   * Completeness: a shift on the resource whose closed interval shares an
   * instant with the closed window is reported.
   */
  lemma IntersectingShiftIsReported(store: seq<Shift>, car: Option<CarId>, safetyDriver: Option<DriverId>, start: int, end: int, f: Shift)
    requires f in store && OnResource(f, car, safetyDriver)
    requires Intersects(f.start, f.end, start, end)
    ensures f in FindOverlapping(store, car, safetyDriver, start, end)
  {
    assert f.start <= Max(f.start, start) <= Min(f.end, end) <= end;
    StartNotAfterEndIsReportedTime(f, start, end);
  }

  /**
   * For a well-formed shift and window the three-clause time condition is
   * just "the shift starts no later than the window ends".
   */
  lemma TimeConditionCollapses(f: Shift, start: int, end: int)
    requires WellFormed(f) && start <= end
    ensures ReportedTime(f, start, end) <==> f.start <= end
  {
  }

  /**
   * On a table of well-formed shifts and a well-formed window the finder
   * reports exactly the stored shifts on the resource that start no later
   * than the window ends; in particular none that starts after it.
   */
  lemma WellFormedReport(store: seq<Shift>, car: Option<CarId>, safetyDriver: Option<DriverId>, start: int, end: int)
    requires forall f :: f in store ==> WellFormed(f)
    requires start <= end
    ensures forall f :: f in FindOverlapping(store, car, safetyDriver, start, end) <==>
      f in store && OnResource(f, car, safetyDriver) && f.start <= end
  {
    forall f | f in store
      ensures ReportedTime(f, start, end) <==> f.start <= end
    {
      TimeConditionCollapses(f, start, end);
    }
  }

  /** The collapse needs a well-formed window: with start > end a shift beginning after `end` is still reported. */
  lemma ReversedWindowReportsLaterShift()
    ensures var f := Shift(1, Some(7), None, 7, 8);
      WellFormed(f) && f.start > 5 && f in FindOverlapping([f], Some(7), None, 10, 5)
  {
  }

  /** The collapse needs a well-formed shift: a reversed shift ending inside the window is reported although it starts after it. */
  lemma ReversedShiftIsReported()
    ensures var f := Shift(1, Some(7), None, 9, 3);
      !WellFormed(f) && f.start > 5 && f in FindOverlapping([f], Some(7), None, 0, 5)
  {
  }

  /**
   * Two shifts of the same car whose windows properly overlap each appear
   * in the other's conflict report.
   */
  lemma OverlappingShiftsConflictMutually(store: seq<Shift>, a: Shift, b: Shift, safetyDriver: Option<DriverId>)
    requires a in store && b in store
    requires a.car.Some? && a.car == b.car
    requires a.start < b.end && b.start < a.end
    ensures b in FindOverlapping(store, a.car, safetyDriver, a.start, a.end)
    ensures a in FindOverlapping(store, b.car, safetyDriver, b.start, b.end)
  {
    StartNotAfterEndIsReportedTime(b, a.start, a.end);
    StartNotAfterEndIsReportedTime(a, b.start, b.end);
  }

  /** Two shifts of car 1: A over [100, 200] and B over [150, 250]. */
  const SHIFT_A := Shift(1, Some(1), None, 100, 200)
  const SHIFT_B := Shift(2, Some(1), None, 150, 250)

  /** A window inside both shifts reports both. */
  lemma ExampleOverlappingWindow()
    ensures FindOverlapping([SHIFT_A, SHIFT_B], Some(1), None, 120, 160) == [SHIFT_A, SHIFT_B]
  {
  }
}
