/** The scenarios of the repository's test suite, replayed against the alias table. `now` is
    the caller's clock; the windows are one day either side of it and one microsecond is the
    smallest step. */
module Scenarios {
  import opened Intervals
  import opened Store
  import opened Queries

  const Day: int := 86_400_000_000

  /** An open-ended alias started fifty days ago resolves, now, to its target. */
  method ResolveOpenEndedScenario(now: Instant) returns (found: Lookup)
    requires 50 * Day <= now < MaxInstant
    ensures found == Found(Alias("Test1", 0, now - 50 * Day, MaxInstant))
  {
    var table := new AliasTable();
    var created := table.Insert("Test1", 0, Some(now - 50 * Day), None);
    found := ResolveAt(table.records, "Test1", now);
    ResolveFindsActive(table.records, 0, now);
  }

  /** Against [now - Day, now + Day), a shifted-right, a shifted-left, a superset and a subset
      candidate of the same alias string are all rejected, and the table keeps one record. */
  method OverlapCasesScenario(now: Instant) returns (outcomes: seq<Result<Alias>>, size: nat)
    requires Day < now < MaxInstant - Day
    ensures outcomes == [Err(DateOverlap), Err(DateOverlap), Err(DateOverlap), Err(DateOverlap)]
    ensures size == 1
  {
    var ts, te := now - Day, now + Day;
    var table := new AliasTable();
    var first := table.Insert("case1", 0, Some(ts), Some(te));
    var stored := table.records;
    assert stored[0] == Alias("case1", 0, ts, te);
    assert Collides(stored[0], ts + 1, te + 1) && Collides(stored[0], ts - 1, te - 1);
    assert Collides(stored[0], ts - 1, te + 1) && Collides(stored[0], ts + 1, te - 1);
    var r1 := table.Insert("case1", 0, Some(ts + 1), Some(te + 1));
    var r2 := table.Insert("case1", 0, Some(ts - 1), Some(te - 1));
    var r3 := table.Insert("case1", 0, Some(ts - 1), Some(te + 1));
    var r4 := table.Insert("case1", 0, Some(ts + 1), Some(te - 1));
    outcomes := [r1, r2, r3, r4];
    size := |table.records|;
  }

  /** Records that only touch [now - Day, now + Day) at one end are accepted: the table then
      holds three records. */
  method BoundaryCasesScenario(now: Instant) returns (size: nat)
    requires Day < now < MaxInstant - Day
    ensures size == 3
  {
    var ts, te := now - Day, now + Day;
    var table := new AliasTable();
    var first := table.Insert("case1", 0, Some(ts), Some(te));
    var after := table.Insert("case1", 0, Some(te), Some(te + 1));
    var before := table.Insert("case1", 0, Some(ts - 1), Some(ts));
    size := |table.records|;
  }

  /** Four back-to-back day-long records around [now - Day, now + Day]: the listing holds the
      two that lie inside the window, which are exactly those starting at or after its
      beginning and ending at or before its end. */
  method ListInRangeScenario(now: Instant) returns (listed: seq<Alias>)
    requires 2 * Day <= now <= MaxInstant - 2 * Day
    ensures listed == [Alias("case1", 0, now - Day, now), Alias("case1", 0, now, now + Day)]
    ensures forall x :: x in listed <==> x in ListInRangeTable(now) && now - Day <= x.start && x.end <= now + Day
  {
    var table := BuildListInRangeTable(now);
    ListInRangeListing(now);
    ListInRangeContained(now);
    listed := GetAliases(table.records, 0, now - Day, now + Day);
  }

  /** Saves the range scenario's four records one after the other; none collides with the
      ones before it, so all four are stored. */
  method BuildListInRangeTable(now: Instant) returns (table: AliasTable)
    requires 2 * Day <= now <= MaxInstant - 2 * Day
    ensures table.records == ListInRangeTable(now)
  {
    var rows := ListInRangeTable(now);
    table := new AliasTable();
    var r1 := table.Insert("case1", 0, Some(rows[0].start), Some(rows[0].end));
    assert table.records == rows[..1];
    assert !Conflicts(rows[..1], "case1", rows[1].start, rows[1].end);
    var r2 := table.Insert("case1", 0, Some(rows[1].start), Some(rows[1].end));
    assert table.records == rows[..2];
    assert !Conflicts(rows[..2], "case1", rows[2].start, rows[2].end);
    var r3 := table.Insert("case1", 0, Some(rows[2].start), Some(rows[2].end));
    assert table.records == rows[..3];
    assert !Conflicts(rows[..3], "case1", rows[3].start, rows[3].end);
    var r4 := table.Insert("case1", 0, Some(rows[3].start), Some(rows[3].end));
    assert table.records == rows;
  }

  /** The listing of the range scenario's table over [now - Day, now + Day]. */
  lemma ListInRangeListing(now: Instant)
    requires 2 * Day <= now <= MaxInstant - 2 * Day
    ensures GetAliases(ListInRangeTable(now), 0, now - Day, now + Day) ==
              [Alias("case1", 0, now - Day, now), Alias("case1", 0, now, now + Day)]
  {
    var rows, ts, te := ListInRangeTable(now), now - Day, now + Day;
    assert !Listed(rows[0], 0, ts, te) && Listed(rows[1], 0, ts, te);
    assert Listed(rows[2], 0, ts, te) && !Listed(rows[3], 0, ts, te);
    assert rows[3..][1..] == [] && rows[2..][1..] == rows[3..] && rows[1..][1..] == rows[2..];
    assert GetAliases(rows[3..], 0, ts, te) == [];
    assert GetAliases(rows[2..], 0, ts, te) == [rows[2]];
    assert GetAliases(rows[1..], 0, ts, te) == [rows[1], rows[2]];
  }

  /** The two rows listed in the range scenario are exactly the rows of its table that start
      and end inside the window, the rows the test's reference query selects. */
  lemma ListInRangeContained(now: Instant)
    requires 2 * Day <= now <= MaxInstant - 2 * Day
    ensures forall x :: x in [Alias("case1", 0, now - Day, now), Alias("case1", 0, now, now + Day)] <==>
              x in ListInRangeTable(now) && now - Day <= x.start && x.end <= now + Day
  {
    var rows := ListInRangeTable(now);
    forall x | x in rows && now - Day <= x.start && x.end <= now + Day
      ensures x == rows[1] || x == rows[2]
    {
    }
  }

  /** The table the range scenario builds. */
  function ListInRangeTable(now: Instant): (rows: seq<Alias>)
    requires 2 * Day <= now <= MaxInstant - 2 * Day
  {
    [Alias("case1", 0, now - 2 * Day, now - Day), Alias("case1", 0, now - Day, now),
     Alias("case1", 0, now, now + Day), Alias("case1", 0, now + Day, now + 2 * Day)]
  }

  /** An open-ended alias is replaced at `now - Day`; replacing it again through the same,
      now out-of-date, copy before or at its start is refused and changes nothing. */
  method ReplaceScenario(now: Instant) returns (first: Result<Alias>, early: Result<Alias>,
                                               atStart: Result<Alias>, rows: seq<Alias>)
    requires 3 * Day <= now < MaxInstant
    ensures first == Ok(Alias("qwerty", 0, now - Day, MaxInstant))
    ensures early == Err(CutoverOutside) && atStart == Err(CutoverOutside)
    ensures rows == [Alias("case1", 0, now - 2 * Day, now - Day), Alias("qwerty", 0, now - Day, MaxInstant)]
  {
    var ts := now - Day;
    var table := new AliasTable();
    var created := table.Insert("case1", 0, Some(ts - Day), None);
    var existing := Alias("case1", 0, ts - Day, MaxInstant);
    first := table.Replace(existing, ts, "qwerty");
    early := table.Replace(existing, ts - 2 * Day, "qwerty1");
    atStart := table.Replace(existing, ts - Day, "qwerty2");
    rows := table.records;
  }
}
