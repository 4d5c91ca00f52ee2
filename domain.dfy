/** The Shift entity as the repository queries see it. */
module Domain {
  import opened Wrappers

  /** Cars and safety drivers are referenced by their primary keys. */
  type CarId = int
  type DriverId = int

  /**
   * One scheduled work period. `car` and `safetyDriver` are nullable
   * references; `start` and `end` are epoch-like timestamps.
   */
  datatype Shift = Shift(
    id: int,
    car: Option<CarId>,
    safetyDriver: Option<DriverId>,
    start: int,
    end: int)

  /** A shift whose window is not reversed; nothing in the system enforces it. */
  predicate WellFormed(f: Shift)
  {
    f.start <= f.end
  }

  /** The smallest and largest of two timestamps. */
  function Max(a: int, b: int): (m: int) { if a < b then b else a }
  function Min(a: int, b: int): (m: int) { if a < b then a else b }

  /** The closed intervals [s1, e1] and [s2, e2] have a common instant. */
  predicate Intersects(s1: int, e1: int, s2: int, e2: int)
  {
    Max(s1, s2) <= Min(e1, e2)
  }
}
