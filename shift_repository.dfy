/**
 * ShiftRepository: the two custom read-only queries of the Spring Data
 * repository for Shift, as functions over the table, modelled as the
 * sequence of its rows. Neither query changes the table.
 */
module ShiftRepository {
  import opened Wrappers
  import opened Sql
  import opened Domain

  // ---------------------------------------------------------------------
  // Row selection
  // ---------------------------------------------------------------------

  /**
   * The rows of `store` for which the WHERE clause `where` evaluates to
   * True, in table order; rows for which it is False or Unknown are dropped.
   */
  function Select(store: seq<Shift>, where: Shift -> Truth): (r: seq<Shift>)
    ensures |r| <= |store|
    ensures forall f :: f in r <==> f in store && where(f) == True
    ensures forall f :: multiset(r)[f] == if where(f) == True then multiset(store)[f] else 0
  {
    if store == [] then []
    else
      assert store == [store[0]] + store[1..];
      var rest := Select(store[1..], where);
      if where(store[0]) == True then [store[0]] + rest else rest
  }

  /** `Select` on a non-empty table: the first row, when it is kept, followed by the selection from the rest. */
  lemma SelectUnfold(store: seq<Shift>, where: Shift -> Truth)
    requires store != []
    ensures Select(store, where) ==
      (if where(store[0]) == True then [store[0]] else []) + Select(store[1..], where)
  {
  }

  /** `Select` keeps some row exactly when some row satisfies `where`. */
  lemma SelectNonEmpty(store: seq<Shift>, where: Shift -> Truth)
    ensures Select(store, where) != [] <==> exists k :: 0 <= k < |store| && where(store[k]) == True
  {
    if Select(store, where) != [] {
      var x := Select(store, where)[0];
      var k :| 0 <= k < |store| && store[k] == x;
    }
  }

  /** `Select` keeps at least two rows exactly when two distinct rows satisfy `where`. */
  lemma {:induction false} SelectAtLeastTwo(store: seq<Shift>, where: Shift -> Truth)
    ensures |Select(store, where)| >= 2 <==>
      exists i, j :: 0 <= i < j < |store| && where(store[i]) == True && where(store[j]) == True
  {
    if store != [] {
      var tail := store[1..];
      SelectUnfold(store, where);
      SelectAtLeastTwo(tail, where);
      SelectNonEmpty(tail, where);
      if |Select(store, where)| >= 2 {
        if where(store[0]) == True {
          var k :| 0 <= k < |tail| && where(tail[k]) == True;
          assert store[k + 1] == tail[k];
        } else {
          var i, j :| 0 <= i < j < |tail| && where(tail[i]) == True && where(tail[j]) == True;
          assert store[i + 1] == tail[i] && store[j + 1] == tail[j];
        }
      }
      if exists i, j :: 0 <= i < j < |store| && where(store[i]) == True && where(store[j]) == True {
        var i, j :| 0 <= i < j < |store| && where(store[i]) == True && where(store[j]) == True;
        assert store[j] == tail[j - 1];
        if i > 0 {
          assert store[i] == tail[i - 1];
        }
      }
    }
  }

  // ---------------------------------------------------------------------
  // Overlap finder (ShiftRepository.java:24-25)
  // ---------------------------------------------------------------------

  /**
   * The JPQL WHERE clause of the overlap finder, evaluated literally:
   *   (f.car = :car or f.safetyDriver = :safetyDriver)
   *   and ((f.start between :start and :end)
   *        or (f.end between :start and :end)
   *        or (f.start <= :start and f.end >= f.end))
   * The last comparison is between the row's end and itself.
   */
  function OverlapWhere(f: Shift, car: Option<CarId>, safetyDriver: Option<DriverId>, start: int, end: int): (t: Truth)
    ensures t == True <==> OnResource(f, car, safetyDriver) && ReportedTime(f, start, end)
    ensures t == Unknown ==> f.car.None? || car.None? || f.safetyDriver.None? || safetyDriver.None?
  {
    And(
      Or(Eq(f.car, car), Eq(f.safetyDriver, safetyDriver)),
      Or(
        Or(Between(f.start, start, end), Between(f.end, start, end)),
        And(Of(f.start <= start), Of(f.end >= f.end))))
  }

  /** The shift is assigned to the given car or to the given safety driver; a NULL argument matches nothing. */
  predicate OnResource(f: Shift, car: Option<CarId>, safetyDriver: Option<DriverId>)
  {
    (car.Some? && f.car == car) || (safetyDriver.Some? && f.safetyDriver == safetyDriver)
  }

  predicate StartsWithin(f: Shift, start: int, end: int) { start <= f.start <= end }

  predicate EndsWithin(f: Shift, start: int, end: int) { start <= f.end <= end }

  /**
   * What the time part of the clause means: the shift starts or ends inside
   * the closed window, or starts no later than the window does (whatever
   * its end is).
   */
  predicate ReportedTime(f: Shift, start: int, end: int)
  {
    StartsWithin(f, start, end) || EndsWithin(f, start, end) || f.start <= start
  }

  /**
   * The overlap finder. The result holds exactly the stored shifts that are
   * on the given car or safety driver and whose time satisfies
   * `ReportedTime`, each as often as it is stored.
   */
  function FindOverlapping(store: seq<Shift>, car: Option<CarId>, safetyDriver: Option<DriverId>, start: int, end: int): (r: seq<Shift>)
    ensures forall f :: f in r <==> f in store && OnResource(f, car, safetyDriver) && ReportedTime(f, start, end)
    ensures forall f :: multiset(r)[f] ==
                        if OnResource(f, car, safetyDriver) && ReportedTime(f, start, end) then multiset(store)[f] else 0
  {
    Select(store, f => OverlapWhere(f, car, safetyDriver, start, end))
  }

  // ---------------------------------------------------------------------
  // Next-shift lookup (ShiftRepository.java:22)
  // ---------------------------------------------------------------------

  /**
   * The WHERE clause Spring Data derives from
   * `findOneBySafetyDriverAndStartGreaterThanEqualOrderByStartAsc`:
   * `safetyDriver = ?1 and start >= ?2`, where a NULL first argument turns
   * the equality into `safetyDriver is null`.
   */
  function NextShiftWhere(f: Shift, safetyDriver: Option<DriverId>, bound: int): (t: Truth)
    ensures t == True <==> IsNextShiftCandidate(f, safetyDriver, bound)
    ensures t == Unknown ==> safetyDriver.Some? && f.safetyDriver.None?
  {
    And(
      if safetyDriver.None? then IsNull(f.safetyDriver) else Eq(f.safetyDriver, safetyDriver),
      Of(f.start >= bound))
  }

  /** The shift is the given safety driver's (or unassigned, for a NULL driver) and starts at or after `bound`. */
  predicate IsNextShiftCandidate(f: Shift, safetyDriver: Option<DriverId>, bound: int)
  {
    f.safetyDriver == safetyDriver && f.start >= bound
  }

  predicate SortedByStart(rows: seq<Shift>)
  {
    forall i, j :: 0 <= i < j < |rows| ==> rows[i].start <= rows[j].start
  }

  /** In rows ordered by start, no row starts before the first one. */
  lemma HeadStartsFirst(rows: seq<Shift>)
    requires SortedByStart(rows) && rows != []
    ensures forall x :: x in rows ==> rows[0].start <= x.start
  {
  }

  /** A row starting no later than any of an ordered sequence can go in front of it. */
  lemma PrependKeepsSorted(head: Shift, rows: seq<Shift>)
    requires SortedByStart(rows)
    requires forall x :: x in rows ==> head.start <= x.start
    ensures SortedByStart([head] + rows)
  {
    forall i, j | 0 <= i < j < |[head] + rows|
      ensures ([head] + rows)[i].start <= ([head] + rows)[j].start
    {
      if i == 0 {
        assert ([head] + rows)[j] == rows[j - 1];
      }
    }
  }

  /** Inserts `f` before the first row that does not start earlier than it. */
  function InsertByStart(f: Shift, rows: seq<Shift>): (r: seq<Shift>)
    requires SortedByStart(rows)
    ensures SortedByStart(r)
    ensures forall x :: x in r <==> x == f || x in rows
    ensures multiset(r) == multiset(rows) + multiset{f}
  {
    if rows == [] || f.start <= rows[0].start then [f] + rows
    else
      var rest := InsertByStart(f, rows[1..]);
      HeadStartsFirst(rows);
      assert rows == [rows[0]] + rows[1..];
      PrependKeepsSorted(rows[0], rest);
      [rows[0]] + rest
  }

  /** `ORDER BY start ASC`: the rows rearranged so that start times ascend. */
  function SortByStart(rows: seq<Shift>): (r: seq<Shift>)
    ensures SortedByStart(r)
    ensures multiset(r) == multiset(rows)
  {
    if rows == [] then []
    else
      assert rows == [rows[0]] + rows[1..];
      InsertByStart(rows[0], SortByStart(rows[1..]))
  }

  /**
   * Ordering the rows never changes a single-result answer: it keeps the
   * number of rows, and a lone row stays itself.
   */
  lemma OrderingKeepsSingleResult(rows: seq<Shift>)
    ensures SingleResult(SortByStart(rows)) == SingleResult(rows)
  {
    var ordered := SortByStart(rows);
    assert |ordered| == |multiset(ordered)| == |multiset(rows)| == |rows|;
    if |rows| == 1 {
      assert rows == [rows[0]];
      assert ordered[0] in multiset(ordered);
    }
  }

  /**
   * The next-shift lookup. The rows the derived query selects, ordered by
   * start, feed a single-result execution: "One" in the method name is not
   * a limiting keyword, so two or more matching rows are an error rather
   * than the earliest one.
   */
  function FindNextShift(store: seq<Shift>, safetyDriver: Option<DriverId>, bound: int): (r: Single<Shift>)
    ensures r.NoResult? <==> forall f :: f in store ==> !IsNextShiftCandidate(f, safetyDriver, bound)
    ensures r.One? ==>
      && r.value in store
      && IsNextShiftCandidate(r.value, safetyDriver, bound)
      && multiset(store)[r.value] == 1
      && forall g :: g in store && IsNextShiftCandidate(g, safetyDriver, bound) ==> g == r.value
    ensures r.TooMany? <==>
      exists i, j :: 0 <= i < j < |store|
        && IsNextShiftCandidate(store[i], safetyDriver, bound)
        && IsNextShiftCandidate(store[j], safetyDriver, bound)
  {
    var where := f => NextShiftWhere(f, safetyDriver, bound);
    var rows := Select(store, where);
    assert forall f :: where(f) == True <==> IsNextShiftCandidate(f, safetyDriver, bound);
    SelectAtLeastTwo(store, where);
    OrderingKeepsSingleResult(rows);
    assert |rows| == 1 ==> rows == [rows[0]] && multiset(rows)[rows[0]] == 1;
    SingleResult(SortByStart(rows))
  }
}
