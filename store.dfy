/** The alias table: validation on save, the retire-and-create replace transaction, and
    the table object whose two write operations keep invariants I1 and I2. */
module Store {
  import opened Intervals

  /** What saving a new record does to its fields before writing it: an omitted end is
      normalised, then the start and the overlap checks of `clean` decide. */
  function CleanOutcome(records: seq<Alias>, a: string, target: TargetId,
                        start: Option<Instant>, end: Option<Instant>): (r: Result<Alias>)
    ensures r.Ok? ==> WellFormed(r.value) && r.value.alias == a && r.value.target == target
    ensures r.Ok? ==> start == Some(r.value.start) && r.value.end == NormalEnd(end)
    ensures start.None? ==> r == Err(MissingStart)
    ensures start.Some? && start.value >= NormalEnd(end) ==> r == Err(EmptyInterval)
    ensures start.Some? && start.value < NormalEnd(end) ==>
              (r == Err(DateOverlap) <==> Conflicts(records, a, start.value, NormalEnd(end)))
    ensures r.Ok? <==>
              start.Some? && start.value < NormalEnd(end) && !Conflicts(records, a, start.value, NormalEnd(end))
    ensures r.Ok? && end.None? ==> r.value.end == MaxInstant
  {
    var e := NormalEnd(end);
    if start.None? then Err(MissingStart)
    else if start.value >= e then Err(EmptyInterval)
    else if Conflicts(records, a, start.value, e) then Err(DateOverlap)
    else Ok(Alias(a, target, start.value, e))
  }

  /** Against a table of well-formed records, a record is accepted exactly when its start is present,
      its interval is non-empty and no stored record with the same alias string shares an
      instant with it; touching intervals and other alias strings never reject. */
  lemma CleanAcceptsExactlyDisjoint(records: seq<Alias>, a: string, target: TargetId,
                                    start: Option<Instant>, end: Option<Instant>)
    requires forall i :: 0 <= i < |records| ==> WellFormed(records[i])
    ensures CleanOutcome(records, a, target, start, end).Ok? <==>
              start.Some? && start.value < NormalEnd(end) &&
              forall i :: 0 <= i < |records| && records[i].alias == a ==>
                !Overlap(records[i].start, records[i].end, start.value, NormalEnd(end))
  {
    if start.Some? && start.value < NormalEnd(end) {
      var s, e := start.value, NormalEnd(end);
      forall i | 0 <= i < |records| && records[i].alias == a
        ensures Collides(records[i], s, e) <==> Overlap(records[i].start, records[i].end, s, e)
      {
        CollisionIsOverlap(records[i], s, e);
      }
    }
  }

  /** `Alias.save` followed by `Alias.clean`: the end is normalised, the start is checked,
      then every stored record with the same alias string is tested for a collision. */
  method Clean(records: seq<Alias>, a: string, target: TargetId,
               start: Option<Instant>, end: Option<Instant>) returns (r: Result<Alias>)
    ensures r == CleanOutcome(records, a, target, start, end)
  {
    var e := NormalEnd(end);
    if start.None? {
      return Err(MissingStart);
    }
    var s := start.value;
    if s >= e {
      return Err(EmptyInterval);
    }
    var collision := false;
    for i := 0 to |records|
      invariant collision <==>
        exists k :: 0 <= k < i && records[k].alias == a && Collides(records[k], s, e)
    {
      var x := records[i];
      if x.alias == a && (Surrounds(x, s, e) || StartInside(x, s, e) || EndInside(x, s, e)) {
        collision := true;
      }
    }
    if collision {
      return Err(DateOverlap);
    }
    return Ok(Alias(a, target, s, e));
  }

  /** The row filter of the end update in `alias_replace`: same alias string, same target,
      same start as the caller's copy of the existing record. */
  predicate Matches(x: Alias, ex: Alias) {
    x.alias == ex.alias && x.target == ex.target && x.start == ex.start
  }

  /** One row after the unvalidated end update. */
  function Retire(x: Alias, ex: Alias, t: Instant): (y: Alias) {
    if Matches(x, ex) then x.(end := t) else x
  }

  /** The table after the unvalidated end update. */
  function Shorten(records: seq<Alias>, ex: Alias, t: Instant): (after: seq<Alias>) {
    seq(|records|, i requires 0 <= i < |records| => Retire(records[i], ex, t))
  }

  /** Some stored row that the end update would touch already ends at or before `t`, so
      the update would lengthen it or leave it empty instead of shortening it. */
  predicate Stale(records: seq<Alias>, ex: Alias, t: Instant) {
    exists k :: 0 <= k < |records| && Matches(records[k], ex) && records[k].end <= t
  }

  /** `alias_replace` as written: the cutover is checked against the caller's copy `ex`
      only, the matching rows get end `t` without validation, and the successor is created
      (and validated) against the updated table; any failure leaves the table unchanged. */
  function ReplaceAsWritten(records: seq<Alias>, ex: Alias, t: Instant, v: string): (r: Result<seq<Alias>>)
    ensures !(ex.start < t < ex.end) ==> r == Err(CutoverOutside)
    ensures r.Ok? ==> |r.value| == |records| + 1 && r.value[|records|] == Alias(v, ex.target, t, MaxInstant)
    ensures r.Ok? ==> r.value[..|records|] == Shorten(records, ex, t)
    ensures ex.start < t < ex.end ==> (r.Ok? <==> !Conflicts(Shorten(records, ex, t), v, t, MaxInstant))
    ensures r.Err? ==> r.error in {CutoverOutside, DateOverlap}
    ensures ex.start < t < ex.end && r.Err? ==> r.error == DateOverlap
  {
    if !(ex.start < t < ex.end) then Err(CutoverOutside)
    else
      var shortened := Shorten(records, ex, t);
      match CleanOutcome(shortened, v, ex.target, Some(t), None)
      case Ok(x) => Ok(shortened + [x])
      case Err(err) => Err(err)
  }

  /** The replace transaction with the cutover also checked against the stored rows it
      updates, so that the update can only shorten them. */
  function ReplaceChecked(records: seq<Alias>, ex: Alias, t: Instant, v: string): (r: Result<seq<Alias>>)
    ensures !(ex.start < t < ex.end) || Stale(records, ex, t) ==> r == Err(CutoverOutside)
    ensures !Stale(records, ex, t) ==> r == ReplaceAsWritten(records, ex, t, v)
  {
    if ex.start < t < ex.end && Stale(records, ex, t) then Err(CutoverOutside)
    else ReplaceAsWritten(records, ex, t, v)
  }

  /** When the caller's copy is a stored row of a consistent table, the check the correction
      adds never fires: the corrected and the as-written transaction agree. */
  lemma CurrentCopyAgrees(records: seq<Alias>, ex: Alias, t: Instant, v: string)
    requires Consistent(records) && ex in records
    ensures ReplaceChecked(records, ex, t, v) == ReplaceAsWritten(records, ex, t, v)
  {
    if ex.start < t < ex.end {
      var m :| 0 <= m < |records| && records[m] == ex;
      forall k | 0 <= k < |records| && Matches(records[k], ex)
        ensures t < records[k].end
      {
        assert k == m;
      }
    }
  }

  /** Shortening the rows that end after `t` to end at `t` keeps the table consistent. */
  lemma ShortenKeepsConsistent(records: seq<Alias>, ex: Alias, t: Instant)
    requires Consistent(records) && ex.start < t && !Stale(records, ex, t)
    ensures Consistent(Shorten(records, ex, t))
  {
    var after := Shorten(records, ex, t);
    forall i | 0 <= i < |after|
      ensures WellFormed(after[i])
      ensures after[i].alias == records[i].alias
      ensures records[i].start == after[i].start && after[i].end <= records[i].end
    {
    }
  }

  /** Every successful replace keeps invariants I1 and I2. */
  lemma ReplaceKeepsConsistent(records: seq<Alias>, ex: Alias, t: Instant, v: string)
    requires Consistent(records) && ReplaceChecked(records, ex, t, v).Ok?
    ensures Consistent(ReplaceChecked(records, ex, t, v).value)
  {
    var shortened := Shorten(records, ex, t);
    ShortenKeepsConsistent(records, ex, t);
    var x := Alias(v, ex.target, t, MaxInstant);
    assert CleanOutcome(shortened, v, ex.target, Some(t), None) == Ok(x);
    AppendConsistentIffNoConflict(shortened, x);
  }

  /** A replace whose caller's copy is out of date breaks invariant I2: the row [0, 10) of
      alias "a", already retired at 10 and followed by [10, 20), is stretched to [0, 30). */
  lemma StaleReplaceBreaksConsistency()
    ensures var records := [Alias("a", 1, 0, 10), Alias("b", 1, 10, MaxInstant), Alias("a", 1, 10, 20)];
            var stale := Alias("a", 1, 0, MaxInstant);
            Consistent(records) &&
            ReplaceAsWritten(records, stale, 30, "c").Ok? &&
            !Consistent(ReplaceAsWritten(records, stale, 30, "c").value) &&
            ReplaceChecked(records, stale, 30, "c") == Err(CutoverOutside)
  {
    var records := [Alias("a", 1, 0, 10), Alias("b", 1, 10, MaxInstant), Alias("a", 1, 10, 20)];
    var stale := Alias("a", 1, 0, MaxInstant);
    var shortened := Shorten(records, stale, 30);
    assert shortened == [Alias("a", 1, 0, 30), Alias("b", 1, 10, MaxInstant), Alias("a", 1, 10, 20)];
    assert !Conflicts(shortened, "c", 30, MaxInstant) by {
      assert "a" != "c" && "b" != "c";
    }
    var after := shortened + [Alias("c", 1, 30, MaxInstant)];
    assert ReplaceAsWritten(records, stale, 30, "c") == Ok(after);
    assert after[0].alias == after[2].alias && Overlap(after[0].start, after[0].end, after[2].start, after[2].end);
    assert Matches(records[0], stale) && records[0].end <= 30;
  }

  /** The alias table. Only `Insert` and `Replace` write to it. */
  class AliasTable {
    var records: seq<Alias>

    ghost predicate Valid()
      reads this
    {
      Consistent(records)
    }

    constructor ()
      ensures Valid() && records == []
    {
      records := [];
    }

    /** `Alias.save`: validate against the stored rows, then append. */
    method Insert(a: string, target: TargetId, start: Option<Instant>, end: Option<Instant>)
      returns (r: Result<Alias>)
      modifies this
      ensures r == CleanOutcome(old(records), a, target, start, end)
      ensures records == if r.Ok? then old(records) + [r.value] else old(records)
      ensures old(Valid()) ==> Valid()
    {
      r := Clean(records, a, target, start, end);
      if r.Ok? {
        if Valid() {
          AppendConsistentIffNoConflict(records, r.value);
        }
        records := records + [r.value];
      }
    }

    /** `alias_replace`, atomic: the end update and the creation of the successor are
        staged, and written only when both succeed. */
    method Replace(ex: Alias, t: Instant, v: string) returns (r: Result<Alias>)
      modifies this
      ensures r.Ok? ==> ReplaceChecked(old(records), ex, t, v) == Ok(records) &&
                        r.value == Alias(v, ex.target, t, MaxInstant)
      ensures r.Err? ==> ReplaceChecked(old(records), ex, t, v) == Err(r.error) &&
                         records == old(records)
      ensures old(Valid()) ==> Valid()
    {
      if !(ex.start < t < ex.end) {
        return Err(CutoverOutside);
      }
      var shortened: seq<Alias> := [];
      var stale := false;
      for i := 0 to |records|
        invariant |shortened| == i
        invariant forall k :: 0 <= k < i ==> shortened[k] == Retire(records[k], ex, t)
        invariant stale <==> exists k :: 0 <= k < i && Matches(records[k], ex) && records[k].end <= t
      {
        var x := records[i];
        if Matches(x, ex) {
          if x.end <= t {
            stale := true;
          }
          x := x.(end := t);
        }
        shortened := shortened + [x];
      }
      assert shortened == Shorten(records, ex, t);
      if stale {
        return Err(CutoverOutside);
      }
      r := Clean(shortened, v, ex.target, Some(t), None);
      if r.Ok? {
        if Valid() {
          ReplaceKeepsConsistent(records, ex, t, v);
        }
        records := shortened + [r.value];
      }
    }
  }
}
