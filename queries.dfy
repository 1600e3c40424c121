/** Read-only queries over the alias table: the range listing of one target and the
    point-in-time lookup of one alias string. */
module Queries {
  import opened Intervals
  import opened Store

  /** The filter of `get_aliases`: same target, and either the start lies in the closed range
      [since, to - 1] or the end lies in the closed range [since + 1, to], one microsecond
      being the step between the two bounds. */
  predicate Listed(x: Alias, target: TargetId, since: Instant, to: Instant) {
    x.target == target &&
    ((since <= x.start <= to - 1) || (since + 1 <= x.end <= to))
  }

  /** The records of `target` that `get_aliases` lists for the window [since, to], in table order. */
  function GetAliases(records: seq<Alias>, target: TargetId, since: Instant, to: Instant): (r: seq<Alias>)
    ensures |r| <= |records|
    ensures forall x :: x in r ==> x in records && Listed(x, target, since, to)
    ensures forall i :: 0 <= i < |records| && Listed(records[i], target, since, to) ==> records[i] in r
    ensures forall x :: multiset(r)[x] == if Listed(x, target, since, to) then multiset(records)[x] else 0
  {
    if records == [] then []
    else
      assert records == [records[0]] + records[1..];
      var rest := GetAliases(records[1..], target, since, to);
      if Listed(records[0], target, since, to) then [records[0]] + rest else rest
  }

  /** For a well-formed record, `get_aliases` lists it exactly when it shares an instant with
      the half-open window [since, to) and does not reach past both ends of that window: a
      record that starts before `since` and ends after `to` is active throughout the window
      but is not listed. */
  lemma ListedIffOverlapNotSpanning(x: Alias, target: TargetId, since: Instant, to: Instant)
    requires WellFormed(x)
    ensures Listed(x, target, since, to) <==>
              x.target == target && Overlap(x.start, x.end, since, to) &&
              !(x.start < since && to < x.end)
  {
  }

  /** Every record listed by `get_aliases` is active at some instant of [since, to), and every
      well-formed record of the target that starts and ends inside the window is listed. */
  lemma GetAliasesSoundAndContained(records: seq<Alias>, target: TargetId, since: Instant, to: Instant)
    requires forall i :: 0 <= i < |records| ==> WellFormed(records[i])
    ensures forall x :: x in GetAliases(records, target, since, to) ==>
              x.target == target && Overlap(x.start, x.end, since, to)
    ensures forall i ::
              0 <= i < |records| && records[i].target == target && since <= records[i].start && records[i].end <= to
              ==> records[i] in GetAliases(records, target, since, to)
  {
    var r := GetAliases(records, target, since, to);
    forall x | x in r
      ensures x.target == target && Overlap(x.start, x.end, since, to)
    {
      var i :| 0 <= i < |records| && records[i] == x;
      ListedIffOverlapNotSpanning(x, target, since, to);
    }
  }

  /** Record `x` carries alias string `a` and is active at instant `t`. */
  predicate ActiveAt(x: Alias, a: string, t: int) {
    x.alias == a && x.start <= t < x.end
  }

  /** The records of alias string `a` active at `t`, in table order. */
  function ActiveRecords(records: seq<Alias>, a: string, t: int): (r: seq<Alias>)
    ensures forall x :: x in r ==> x in records && ActiveAt(x, a, t)
    ensures |r| == 0 <==> forall i :: 0 <= i < |records| ==> !ActiveAt(records[i], a, t)
    ensures |r| >= 2 <==>
              exists i, j :: 0 <= i < j < |records| && ActiveAt(records[i], a, t) && ActiveAt(records[j], a, t)
  {
    if records == [] then []
    else
      var rest := ActiveRecords(records[1..], a, t);
      if ActiveAt(records[0], a, t) then
        [records[0]] + rest
      else rest
  }

  /** The rows `ActiveRecords` returns are exactly the active rows of the table, each as many
      times as it occurs there. */
  lemma {:induction false} ActiveRecordsExact(records: seq<Alias>, a: string, t: int)
    ensures forall x :: multiset(ActiveRecords(records, a, t))[x] ==
              if ActiveAt(x, a, t) then multiset(records)[x] else 0
  {
    if records != [] {
      assert records == [records[0]] + records[1..];
      ActiveRecordsExact(records[1..], a, t);
    }
  }

  /** Outcome of a point-in-time lookup: Django's `get` finds one row, none, or several. */
  datatype Lookup = Found(record: Alias) | NotFound | MultipleFound

  /** The lookup `Alias.objects.get(alias=a, start__lte=t, end__gt=t)`. */
  function ResolveAt(records: seq<Alias>, a: string, t: int): (r: Lookup)
    ensures r.NotFound? <==> forall i :: 0 <= i < |records| ==> !ActiveAt(records[i], a, t)
    ensures r.MultipleFound? <==>
              exists i, j :: 0 <= i < j < |records| && ActiveAt(records[i], a, t) && ActiveAt(records[j], a, t)
    ensures r.Found? ==> r.record in records && ActiveAt(r.record, a, t)
  {
    var m := ActiveRecords(records, a, t);
    if |m| == 0 then NotFound
    else if |m| == 1 then Found(m[0])
    else MultipleFound
  }

  /** In a consistent table at most one record of an alias string is active at any instant:
      the lookup never finds several, and what it finds is the only active record. */
  lemma ConsistentResolvesUniquely(records: seq<Alias>, a: string, t: int)
    requires Consistent(records)
    ensures !ResolveAt(records, a, t).MultipleFound?
    ensures ResolveAt(records, a, t).Found? ==>
              forall i :: 0 <= i < |records| && ActiveAt(records[i], a, t) ==>
                records[i] == ResolveAt(records, a, t).record
  {
    var r := ResolveAt(records, a, t);
    if r.MultipleFound? {
      var i, j :| 0 <= i < j < |records| && ActiveAt(records[i], a, t) && ActiveAt(records[j], a, t);
      assert Overlap(records[i].start, records[i].end, records[j].start, records[j].end);
    }
    if r.Found? {
      var k :| 0 <= k < |records| && records[k] == r.record;
      forall i | 0 <= i < |records| && ActiveAt(records[i], a, t)
        ensures records[i] == r.record
      {
      }
    }
  }

  /** A record active at `t` in a consistent table is what the lookup finds. */
  lemma ResolveFindsActive(records: seq<Alias>, k: nat, t: int)
    requires Consistent(records) && k < |records| && ActiveAt(records[k], records[k].alias, t)
    ensures ResolveAt(records, records[k].alias, t) == Found(records[k])
  {
    ConsistentResolvesUniquely(records, records[k].alias, t);
  }

  /** The table after a successful checked replace: every old row, retired where it matches,
      then the successor. */
  lemma ReplaceShape(records: seq<Alias>, ex: Alias, t: Instant, v: string)
    requires ReplaceChecked(records, ex, t, v).Ok?
    ensures var after := ReplaceChecked(records, ex, t, v).value;
            |after| == |records| + 1 && after[|records|] == Alias(v, ex.target, t, MaxInstant) &&
            forall i :: 0 <= i < |records| ==> after[i] == Retire(records[i], ex, t)
  {
    var after := ReplaceChecked(records, ex, t, v).value;
    var n := |records|;
    assert after[..n] == Shorten(records, ex, t);
    forall i | 0 <= i < n
      ensures after[i] == Retire(records[i], ex, t)
    {
      assert after[i] == after[..n][i];
    }
  }

  /** Lookups in a consistent table made from `records` by retiring the stored row
      `records[m]` at `t` and appending its successor `succ`. */
  lemma LookupsAfterRetire(records: seq<Alias>, m: nat, t: Instant, succ: Alias, after: seq<Alias>)
    requires Consistent(records) && Consistent(after)
    requires m < |records| && records[m].start < t < records[m].end
    requires succ.start == t < succ.end
    requires |after| == |records| + 1 && after[|records|] == succ
    requires forall i :: 0 <= i < |records| ==> after[i] == Retire(records[i], records[m], t)
    ensures ResolveAt(after, succ.alias, t) == Found(succ)
    ensures ResolveAt(after, records[m].alias, t - 1) == Found(records[m].(end := t))
    ensures succ.alias != records[m].alias ==> ResolveAt(after, records[m].alias, t).NotFound?
  {
    var ex, n := records[m], |records|;
    ResolveFindsActive(after, n, t);
    assert after[m] == ex.(end := t);
    ResolveFindsActive(after, m, t - 1);
    if succ.alias != ex.alias {
      forall i | 0 <= i < |after|
        ensures !ActiveAt(after[i], ex.alias, t)
      {
        if i < n && i != m && !Matches(records[i], ex) && ActiveAt(records[i], ex.alias, t) {
          assert Overlap(records[i].start, records[i].end, records[m].start, records[m].end);
        }
      }
    }
  }

  /** The cut-over round trip on a consistent table holding the replaced record `ex`: at `t`
      the new alias string resolves to the successor, just before `t` the old alias string
      still resolves to the shortened original, and at `t` the old alias string no longer
      resolves to anything unless it is the new one. */
  lemma ReplaceRoundTrip(records: seq<Alias>, ex: Alias, t: Instant, v: string)
    requires Consistent(records) && ex in records
    requires ReplaceChecked(records, ex, t, v).Ok?
    ensures var after := ReplaceChecked(records, ex, t, v).value;
            ResolveAt(after, v, t) == Found(Alias(v, ex.target, t, MaxInstant)) &&
            ResolveAt(after, ex.alias, t - 1) == Found(ex.(end := t)) &&
            (v != ex.alias ==> ResolveAt(after, ex.alias, t).NotFound?)
  {
    ReplaceShape(records, ex, t, v);
    ReplaceKeepsConsistent(records, ex, t, v);
    var m :| 0 <= m < |records| && records[m] == ex;
    LookupsAfterRetire(records, m, t, Alias(v, ex.target, t, MaxInstant), ReplaceChecked(records, ex, t, v).value);
  }
}
