/** Alias records, their instants, and the overlap test applied before a record is stored. */
module Intervals {

  /** Instants are microseconds since 0001-01-01 00:00:00, the range of a Python `datetime`;
      the only arithmetic the store does on them is a one-microsecond step. */
  const MaxInstant: int := 315_537_897_599_999_999

  type Instant = t: int | 0 <= t <= MaxInstant

  /** A slug, kept only as an opaque identifier compared by equality. */
  type TargetId = nat

  /** One row of the alias table: `alias` resolves to `target` during [start, end). */
  datatype Alias = Alias(alias: string, target: TargetId, start: Instant, end: Instant)

  datatype Error =
    | MissingStart      // no start instant was given
    | EmptyInterval     // start >= end once an omitted end is normalised
    | DateOverlap       // a stored record with the same alias string collides
    | CutoverOutside    // the replace instant is not strictly inside the record

  datatype Option<T> = None | Some(value: T)

  datatype Result<T> = Ok(value: T) | Err(error: Error)

  /** An omitted end means "open-ended": the largest instant. */
  function NormalEnd(end: Option<Instant>): (e: Instant) {
    if end.None? then MaxInstant else end.value
  }

  predicate WellFormed(x: Alias) {
    x.start < x.end
  }

  /** The half-open intervals [s1, e1) and [s2, e2) share at least one instant. */
  predicate Overlap(s1: int, e1: int, s2: int, e2: int) {
    s1 < e2 && s2 < e1
  }

  /** Stored record `x` strictly contains the candidate [s, e). */
  predicate Surrounds(x: Alias, s: int, e: int) {
    x.start < s && x.end > e
  }

  /** `x.start` lies in the closed range [s, e] but is not equal to e. */
  predicate StartInside(x: Alias, s: int, e: int) {
    s <= x.start <= e && x.start != e
  }

  /** `x.end` lies in the closed range [s, e] but is not equal to s. */
  predicate EndInside(x: Alias, s: int, e: int) {
    s <= x.end <= e && x.end != s
  }

  /** The three ad hoc tests by which a stored record rejects the candidate [s, e). */
  predicate Collides(x: Alias, s: int, e: int) {
    Surrounds(x, s, e) || StartInside(x, s, e) || EndInside(x, s, e)
  }

  /** Some stored record with alias string `a` collides with the candidate [s, e). */
  predicate Conflicts(records: seq<Alias>, a: string, s: int, e: int) {
    exists i :: 0 <= i < |records| && records[i].alias == a && Collides(records[i], s, e)
  }

  /** Invariants I1 and I2: every interval is non-empty, and two distinct records with the
      same alias string never share an instant. */
  predicate Consistent(records: seq<Alias>) {
    (forall i :: 0 <= i < |records| ==> WellFormed(records[i])) &&
    (forall i, j ::
       0 <= i < |records| && 0 <= j < |records| && i != j && records[i].alias == records[j].alias
       ==> !Overlap(records[i].start, records[i].end, records[j].start, records[j].end))
  }

  /** For a well-formed stored record and a non-empty candidate, the three collision tests
      together are exactly the half-open overlap test. */
  lemma CollisionIsOverlap(x: Alias, s: int, e: int)
    requires WellFormed(x) && s < e
    ensures Collides(x, s, e) <==> Overlap(x.start, x.end, s, e)
  {
    if Overlap(x.start, x.end, s, e) && !Surrounds(x, s, e) {
      if s <= x.start {
        assert StartInside(x, s, e);
      } else {
        assert EndInside(x, s, e);
      }
    }
  }

  /** Appending a well-formed record keeps the table consistent exactly when no stored
      record with the same alias string collides with it. */
  lemma AppendConsistentIffNoConflict(records: seq<Alias>, x: Alias)
    requires Consistent(records) && WellFormed(x)
    ensures Consistent(records + [x]) <==> !Conflicts(records, x.alias, x.start, x.end)
  {
    var after := records + [x];
    var n := |records|;
    if Conflicts(records, x.alias, x.start, x.end) {
      var i :| 0 <= i < n && records[i].alias == x.alias && Collides(records[i], x.start, x.end);
      CollisionIsOverlap(records[i], x.start, x.end);
      assert after[i] == records[i] && after[n] == x;
    } else {
      forall i, j | 0 <= i < |after| && 0 <= j < |after| && i != j && after[i].alias == after[j].alias
        ensures !Overlap(after[i].start, after[i].end, after[j].start, after[j].end)
      {
        if i == n {
          CollisionIsOverlap(records[j], x.start, x.end);
        } else if j == n {
          CollisionIsOverlap(records[i], x.start, x.end);
        } else {
          assert after[i] == records[i] && after[j] == records[j];
        }
      }
    }
  }
}
