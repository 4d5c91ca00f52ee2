# Shift conflict queries of the cp18 backend, in Dafny

The backend schedules shifts: periods during which a car and/or a safety
driver is booked. Its Spring Data repository for shifts
(`src/main/java/com/cpdaimler/repository/ShiftRepository.java`) declares two
custom read-only queries, and this project models both as pure functions over
the shift table, represented as the sequence of its rows:

- the **overlap finder** (a JPQL `@Query`), which lists the shifts of a given
  car or safety driver that conflict with a time window;
- the **next-shift lookup** (a query Spring Data derives from the method name
  `findOneBySafetyDriverAndStartGreaterThanEqualOrderByStartAsc`), which looks
  up a safety driver's shift starting at or after a given time.

Modules, one per concern:

- `Wrappers` (`wrappers.dfy`): `Option`, for nullable references.
- `Sql` (`sql.dfy`): SQL's three-valued logic (a comparison with NULL is
  Unknown; a WHERE clause keeps a row only when it is True), `BETWEEN`
  (inclusive at both ends), and JPA's single-result execution as the datatype
  `Single` = `NoResult | One(value) | TooMany`.
- `Domain` (`domain.dfy`): the `Shift` row (id, nullable car and safety driver
  references by primary key, start and end timestamps), well-formedness
  (`start <= end`) and closed-interval intersection.
- `ShiftRepository` (`shift_repository.dfy`): both queries. Each WHERE clause
  is written down literally and evaluated in three-valued logic over every
  row; the postconditions state what the selected rows are in ordinary
  two-valued terms.
- `OverlapProperties`, `NextShiftProperties`: what the two queries guarantee
  and what they do not.
- `OverlapIntended` (`overlap_intended.dfy`): the overlap finder with its third
  time clause corrected (see Findings).

What the overlap finder actually does: its last time clause,
`f.start <= :start and f.end >= f.end`, compares the row's end with itself,
which is always true, so the clause reduces to `f.start <= :start`. A shift on
the car or driver is therefore reported when it starts inside the window, ends
inside it, or starts no later than the window does, even if it ended long
before. For well-formed shifts and windows this is the same as "starts no
later than the window ends": complete for real overlaps, but over-reporting
finished shifts. A NULL car or driver argument matches nothing.

What the next-shift lookup actually does: `One` is not a limiting keyword in
Spring Data (unlike `First` or `Top`), so the query runs as a single-result
query. No matching row gives an empty `Optional`; one matching row gives that
row; two or more raise an incorrect-result-size error instead of returning the
earliest. The ordering by start therefore never changes the answer
(`OrderingKeepsSingleResult`). For a derived query Spring Data turns a NULL
argument of an equality into `IS NULL`, so a NULL safety driver looks up the
shifts that have no safety driver. This differs from the overlap finder, where
`= NULL` matches nothing.

## Model

| member | source | states |
|---|---|---|
| `Sql.And` | src/main/java/com/cpdaimler/repository/ShiftRepository.java:24 | JPQL `and` keeps a row only when both sides are True, and is False when either side is False |
| `Sql.Or` | src/main/java/com/cpdaimler/repository/ShiftRepository.java:24 | JPQL `or` is True when either side is True, and is False only when both sides are False |
| `Sql.Eq` | src/main/java/com/cpdaimler/repository/ShiftRepository.java:24 | `f.car = :car` is Unknown, so never selects, when either reference is NULL, and True exactly for the same non-null reference |
| `Sql.Between` | src/main/java/com/cpdaimler/repository/ShiftRepository.java:24 | `x between lo and hi` on timestamps is True exactly when `lo <= x <= hi`, both ends inclusive |
| `Sql.IsNull` | src/main/java/com/cpdaimler/repository/ShiftRepository.java:22 | the `is null` test a NULL driver argument turns into is never Unknown and holds exactly for a missing reference |
| `Sql.SingleResult` | src/main/java/com/cpdaimler/repository/ShiftRepository.java:22 | a single-result query answers NoResult exactly for no rows, One exactly for one row (that row), and TooMany otherwise, JPA's NonUniqueResultException |
| `ShiftRepository.OverlapWhere` | src/main/java/com/cpdaimler/repository/ShiftRepository.java:24 | the literal JPQL clause, `f.end >= f.end` included, is True exactly when the shift is on the given non-null car or driver and starts in the window, ends in it, or starts no later than `:start`; it is Unknown only when a reference or argument is NULL |
| `ShiftRepository.NextShiftWhere` | src/main/java/com/cpdaimler/repository/ShiftRepository.java:22 | the derived clause (`safetyDriver = ?1`, or `safetyDriver is null` for a NULL argument, and `start >= ?2`) is True exactly for a shift of that driver starting at or after the bound; it is Unknown only for a non-null argument against a shift with no driver |
| `ShiftRepository.Select` | src/main/java/com/cpdaimler/repository/ShiftRepository.java:24-25 | a query returns exactly the stored rows whose WHERE clause is True, each as often as stored, never more rows than the table |
| `ShiftRepository.SelectAtLeastTwo` | src/main/java/com/cpdaimler/repository/ShiftRepository.java:22 | a query selects two or more rows exactly when two distinct table rows satisfy its WHERE clause |
| `ShiftRepository.FindOverlapping` | src/main/java/com/cpdaimler/repository/ShiftRepository.java:24-25 | the literal clause, evaluated with NULL semantics, returns exactly the stored shifts on the given car or driver that start in the window, end in it, or start no later than `:start` (the self-comparison `f.end >= f.end` drops out), with their multiplicities |
| `ShiftRepository.InsertByStart` | src/main/java/com/cpdaimler/repository/ShiftRepository.java:22 | inserting a row into rows ordered by start keeps them ordered and adds exactly that row |
| `ShiftRepository.SortByStart` | src/main/java/com/cpdaimler/repository/ShiftRepository.java:22 | `OrderByStartAsc` yields the same rows with ascending start times |
| `ShiftRepository.OrderingKeepsSingleResult` | src/main/java/com/cpdaimler/repository/ShiftRepository.java:22 | the ordering never changes a single-result answer |
| `ShiftRepository.FindNextShift` | src/main/java/com/cpdaimler/repository/ShiftRepository.java:22 | empty exactly when no stored shift of the driver starts at or after the bound; a single result is such a shift, stored once, and the only one; an error exactly when two distinct rows match |
| `OverlapProperties.ReportedShiftsAreOnResource` | src/main/java/com/cpdaimler/repository/ShiftRepository.java:24 | every reported shift is stored and is on the given car or on the given safety driver |
| `OverlapProperties.NullReferencesMatchNothing` | src/main/java/com/cpdaimler/repository/ShiftRepository.java:24 | with NULL car and NULL driver the result is empty |
| `OverlapProperties.NoShiftsNoConflicts` | src/main/java/com/cpdaimler/repository/ShiftRepository.java:24-25 | when no stored shift is on the given car or driver (a NULL argument counting as no resource) the result is empty for any window |
| `OverlapProperties.StartBeforeWindowIsReported` | src/main/java/com/cpdaimler/repository/ShiftRepository.java:24 | any shift on the resource with `start <= :start` is reported, whatever its end |
| `OverlapProperties.StartAtWindowEndIsReported` | src/main/java/com/cpdaimler/repository/ShiftRepository.java:24 | a shift starting exactly at `:end` is reported (inclusive BETWEEN) |
| `OverlapProperties.EndAtWindowStartIsReported` | src/main/java/com/cpdaimler/repository/ShiftRepository.java:24 | a shift ending exactly at `:start` is reported (inclusive BETWEEN) |
| `OverlapProperties.StartNotAfterEndIsReportedTime` | src/main/java/com/cpdaimler/repository/ShiftRepository.java:24 | a shift starting no later than `:end` satisfies the time clauses, with no assumption on either window |
| `OverlapProperties.IntersectingShiftIsReported` | src/main/java/com/cpdaimler/repository/ShiftRepository.java:24 | completeness: a shift on the resource whose closed interval meets the closed window is reported |
| `OverlapProperties.TimeConditionCollapses` | src/main/java/com/cpdaimler/repository/ShiftRepository.java:24 | for `f.start <= f.end` and `:start <= :end`, the three time clauses hold exactly when `f.start <= :end` |
| `OverlapProperties.WellFormedReport` | src/main/java/com/cpdaimler/repository/ShiftRepository.java:24-25 | on well-formed data the result is exactly the shifts on the resource starting no later than `:end`, so none starting after it |
| `OverlapProperties.ReversedWindowReportsLaterShift` | src/main/java/com/cpdaimler/repository/ShiftRepository.java:24 | with `:start > :end` a shift starting after `:end` is reported, so the collapse needs a well-formed window |
| `OverlapProperties.ReversedShiftIsReported` | src/main/java/com/cpdaimler/repository/ShiftRepository.java:24 | a reversed shift ending in the window is reported though it starts after it, so the collapse needs well-formed shifts |
| `OverlapProperties.OverlappingShiftsConflictMutually` | src/main/java/com/cpdaimler/repository/ShiftRepository.java:24 | two shifts of one car whose windows properly overlap appear in each other's conflict report |
| `OverlapProperties.ExampleOverlappingWindow` | src/main/java/com/cpdaimler/repository/ShiftRepository.java:24 | shifts [100, 200] and [150, 250] of car 1 both conflict with the window [120, 160] |
| `NextShiftProperties.PresentResultIsCandidate` | src/main/java/com/cpdaimler/repository/ShiftRepository.java:22 | a present result is a stored shift of the given driver with `start >= bound` |
| `NextShiftProperties.PresentResultIsEarliest` | src/main/java/com/cpdaimler/repository/ShiftRepository.java:22 | a present result has the smallest start among the driver's shifts from the bound on |
| `NextShiftProperties.SingleCandidateIsFound` | src/main/java/com/cpdaimler/repository/ShiftRepository.java:22 | when exactly one row matches, the lookup returns that row |
| `NextShiftProperties.TwoUpcomingShiftsAreTooMany` | src/main/java/com/cpdaimler/repository/ShiftRepository.java:22 | example: two upcoming shifts of one driver make the lookup fail rather than return the earlier; the general fact is the TooMany clause of `FindNextShift` |
| `NextShiftProperties.NullDriverFindsUnassignedShift` | src/main/java/com/cpdaimler/repository/ShiftRepository.java:22 | example: a NULL driver argument finds the one shift with no safety driver; the general fact is `NextShiftWhere`'s ensures |
| `NextShiftProperties.LaterBoundFindsNothing` | src/main/java/com/cpdaimler/repository/ShiftRepository.java:22 | example: no shift of the driver from the bound on gives an empty result, not an error; the general fact is the NoResult clause of `FindNextShift` |
| `OverlapIntended.IntendedOverlapWhere` | src/main/java/com/cpdaimler/repository/ShiftRepository.java:24 | the clause with `f.end >= :end` is True exactly when the shift is on the resource and starts in, ends in, or covers the window |
| `OverlapIntended.FindOverlappingIntended` | src/main/java/com/cpdaimler/repository/ShiftRepository.java:24-25 | the corrected finder returns exactly the stored shifts on the resource that start in, end in, or cover the window, each as often as stored |
| `OverlapIntended.IntendedTimeIsIntersection` | src/main/java/com/cpdaimler/repository/ShiftRepository.java:24 | for well-formed data the corrected time clauses hold exactly when shift and window intersect |
| `OverlapIntended.IntendedReportIsExact` | src/main/java/com/cpdaimler/repository/ShiftRepository.java:24-25 | the corrected finder reports exactly the intersecting shifts on the resource |
| `OverlapIntended.FinishedShiftIsReportedAsWritten` | src/main/java/com/cpdaimler/repository/ShiftRepository.java:24 | as written, shift [100, 200] conflicts with window [300, 400]; corrected, nothing does |
| `OverlapIntended.IntendedExcludesDisjointShifts` | src/main/java/com/cpdaimler/repository/ShiftRepository.java:24 | the corrected finder never reports a well-formed shift disjoint from a well-formed window |

## Left out

- `src/main/java/com/cpdaimler/web/rest/ShiftResource.java` and `CarLicenceResource.java`: REST controllers that delegate to JPA `save`, `findAll`, `findById`, `deleteById` and to the Elasticsearch mirror. Those are framework and foreign persistence calls with no logic of their own; the id-present/id-absent guards only decide whether `save` is called.
- `src/main/webapp/app/entities/chat/chat.service.ts`: websocket and STOMP client code, HTTP user lookups and wall-clock timestamps. This is asynchronous I/O.
- The dual write to the database and the search mirror, and its non-atomicity: foreign persistence.
- Two concurrent shift creations that both pass a conflict check: a race between requests, outside a sequential model.
- The Shift entity class (`com.cpdaimler.domain.Shift`) is not part of this model. Timestamps are modelled as non-null integers, so NULL `start`/`end` columns or arguments are not modelled. Under SQL they would make the comparisons Unknown, and the row would not be selected. Comparisons are the only operations on timestamps, so Java's 64-bit `Long` needs no wrap-around.
- Car and safety-driver references are compared by primary key; JPA entity identity beyond that is not modelled.
- `ShiftRepository.FindOverlapping`: returns the rows in table order. The JPQL query has no `ORDER BY`, so the database's actual order is unspecified and is not modelled.

## Findings

| source | as written | input that shows it | evidently intended | confidence | as-written member | corrected member |
|---|---|---|---|---|---|---|
| src/main/java/com/cpdaimler/repository/ShiftRepository.java:24 | third time clause `f.start <= :start and f.end >= f.end` compares the row's end with itself, so it reduces to `f.start <= :start` | shift (car 1, 100 to 200), query car 1 over [300, 400]: reported as a conflict although it ended before the window | `f.start <= :start and f.end >= :end`: the shift covers the window | likely; not executed | `OverlapIntended.FinishedShiftIsReportedAsWritten` | `OverlapIntended.FindOverlappingIntended` |

The application code shown does not call the overlap finder, so the corrected finder sits beside the as-written one and is not substituted into any caller.
