/**
 * What the derived next-shift lookup of ShiftRepository.java:22 does and
 * does not guarantee.
 */
module NextShiftProperties {
  import opened Wrappers
  import opened Sql
  import opened Domain
  import opened ShiftRepository

  /** A present result is a stored shift of the given safety driver starting at or after the bound. */
  lemma PresentResultIsCandidate(store: seq<Shift>, safetyDriver: Option<DriverId>, bound: int)
    requires FindNextShift(store, safetyDriver, bound).One?
    ensures var s := FindNextShift(store, safetyDriver, bound).value;
      s in store && s.safetyDriver == safetyDriver && s.start >= bound
  {
  }

  /**
   * Whenever the lookup answers with a shift, that shift has the smallest
   * start among the driver's shifts from the bound on, as the ordering
   * promises.
   */
  lemma PresentResultIsEarliest(store: seq<Shift>, safetyDriver: Option<DriverId>, bound: int, g: Shift)
    requires FindNextShift(store, safetyDriver, bound).One?
    requires g in store && IsNextShiftCandidate(g, safetyDriver, bound)
    ensures FindNextShift(store, safetyDriver, bound).value.start <= g.start
  {
  }

  /** Exactly one matching row gives that row. */
  lemma SingleCandidateIsFound(store: seq<Shift>, safetyDriver: Option<DriverId>, bound: int, k: nat)
    requires k < |store| && IsNextShiftCandidate(store[k], safetyDriver, bound)
    requires forall i :: 0 <= i < |store| && i != k ==> !IsNextShiftCandidate(store[i], safetyDriver, bound)
    ensures FindNextShift(store, safetyDriver, bound) == One(store[k])
  {
  }

  /**
   * Two upcoming shifts of one driver make the lookup fail instead of
   * returning the earlier one.
   */
  lemma TwoUpcomingShiftsAreTooMany()
    ensures var early := Shift(1, None, Some(3), 10, 20);
      var late := Shift(2, None, Some(3), 30, 40);
      FindNextShift([late, early], Some(3), 0) == TooMany
  {
  }

  /** A NULL safety driver looks up the shifts that have no safety driver. */
  lemma NullDriverFindsUnassignedShift()
    ensures var f := Shift(1, Some(1), None, 5, 6);
      FindNextShift([f, Shift(2, Some(1), Some(4), 7, 8)], None, 0) == One(f)
  {
  }

  /** No shift of the driver from the bound on: the result is empty, not an error. */
  lemma LaterBoundFindsNothing()
    ensures FindNextShift([Shift(1, None, Some(3), 10, 20)], Some(3), 11) == NoResult
  {
  }
}
