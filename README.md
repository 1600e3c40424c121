# Time-scoped aliases: a verified model of the alias interval store

The repository maps short names ("slugs") to arbitrary entities. It also keeps a table of
*aliases*: alternate names that point at a slug during a half-open time window
`[start, end)`. Its core, `alias/models.py`, has four operations on that table:

- saving a new alias. `Alias.save` fills in an omitted end with `datetime.max`. `Alias.clean`
  then requires a start, requires `start < end`, and rejects the record when a stored record
  with the same alias string collides with it.
- `get_aliases`, the range listing of one target.
- `alias_replace`, an atomic transaction. It retires a record at a cut-over instant and
  creates an open-ended successor.
- the point-in-time lookup `Alias.objects.get(alias=…, start__lte=t, end__gt=t)`, used by the
  tests.

This Dafny project models that table and these operations. It proves the following:

- the three ad hoc collision tests of `clean` are exactly the half-open overlap test, for
  well-formed records;
- every insert and every (checked) replace keeps invariants I1 and I2. I1: each interval is
  non-empty. I2: two records with the same alias string never share an instant;
- in a consistent table the lookup finds at most one record;
- the range listing is characterised exactly;
- replace has a cut-over round trip;
- the test suite's scenarios hold.

Modules:

- `Intervals` (`intervals.dfy`): instants, the `Alias` record, and the collision and overlap
  predicates. It also defines `Consistent`, which is I1 and I2.
- `Store` (`store.dfy`): the validation run on save, both as a function and as a method with
  the loop of `clean`. It also holds the replace transaction and the `AliasTable` class. The
  class has a `seq` of rows, plus `Insert` and `Replace` methods that modify it.
- `Queries` (`queries.dfy`): `GetAliases` and `ResolveAt`, with their lemmas.
- `Scenarios` (`scenarios.dfy`): the scenarios of `alias/tests.py`, replayed against
  `AliasTable`.

Instants are integers counting microseconds since 0001-01-01 00:00:00. They range from 0 to
`MaxInstant` = 315537897599999999, which is `datetime.max`, the open-ended sentinel. The code
does no arithmetic on instants except the one-microsecond step of `get_aliases`, so integers
are exact here. A slug is an opaque `nat` compared by equality.

Three behaviours of the code are worth stating up front:

- `alias_replace` changes a stored end with `.update()` (alias/models.py:126), which runs no
  validation. `Alias.save()` on a row that is already stored (alias/models.py:91-96) does
  validate. However, `clean()` selects the rows to compare by the new alias string
  (alias/models.py:78). When the save keeps the alias string unchanged, that includes the
  row's own stored version, so such a save is accepted only when it moves the row to an
  interval disjoint from its old one, and shortening a row through `save()` while keeping
  its alias string always fails. A save that also changes the alias string is compared only
  with the rows of the new string. The model keeps saving insert-only; see "## Left out".
- `get_aliases` leaves out rows that start before `since` and end after `to`, even though
  they are active throughout the window (`ListedIffOverlapNotSpanning`).
- `get_aliases` imposes no order; only its test orders the result. `GetAliases` returns the
  rows in table order.

## Model

| member | source | states |
|---|---|---|
| `Intervals.CollisionIsOverlap` | alias/models.py:79-85 | for a well-formed stored record and a candidate with `s < e`, the three tests (strict containment, start in `[s, e)`, end in `(s, e]`) hold exactly when `x.start < e && s < x.end` |
| `Intervals.AppendConsistentIffNoConflict` | alias/models.py:77-96 | appending a well-formed record to a consistent table keeps I1 and I2 exactly when no same-alias record collides with it, so `clean` rejects nothing that would keep the table consistent and accepts nothing that would break it |
| `Store.CleanOutcome` | alias/models.py:66-96 | validation on save: no start gives `MissingStart`; `start >= end` after normalisation gives `EmptyInterval`; otherwise `DateOverlap` exactly when a same-alias record collides; a save is accepted exactly when the start is present, `start < end` and no same-alias record collides; an accepted record is well-formed, carries the given fields and the normalised end, and an omitted end is stored as `MaxInstant` (open-ended) |
| `Store.CleanAcceptsExactlyDisjoint` | alias/models.py:78-89 | against any table of well-formed records (consistent or not) a save succeeds exactly when the start is present, `start < end`, and no record with the same alias string shares an instant with `[start, end)`; touching intervals and other alias strings never reject |
| `Store.Clean` | alias/models.py:66-89 | the loop over the same-alias records that raises the collision flag computes exactly the validation outcome |
| `Store.ReplaceAsWritten` | alias/models.py:114-127 | the replace transaction as written: a cut-over not strictly inside the caller's copy is refused; on success the table is the old one with the matching rows' end set to the cut-over, followed by the open-ended successor `(v, ex.target, t, MaxInstant)`; an in-range cut-over succeeds exactly when no record of the new alias string in the shortened table collides with `[t, MaxInstant)`; the only errors are `CutoverOutside` and `DateOverlap`, an in-range refusal is always `DateOverlap`, and any failure leaves the table unchanged |
| `Store.ReplaceChecked` | alias/models.py:124-127 | the replace transaction with the cut-over also checked against the stored rows it updates; a cut-over outside the caller's copy or not before a stored matching end is refused; otherwise it is the transaction as written |
| `Store.CurrentCopyAgrees` | alias/models.py:123-127 | when the caller's copy is a stored row of a consistent table, the corrected transaction equals the transaction as written, so the correction changes the outcome only for an out-of-date copy; together with `ReplaceKeepsConsistent`, the replace as written keeps I1 and I2 when used on a stored copy |
| `Store.ShortenKeepsConsistent` | alias/models.py:126 | setting the end of the matching rows to a cut-over that lies after their start and before their end keeps I1 and I2 |
| `Store.ReplaceKeepsConsistent` | alias/models.py:114-127 | every successful (checked) replace on a consistent table leaves a consistent table |
| `Store.StaleReplaceBreaksConsistency` | alias/models.py:123-126 | a consistent table and an out-of-date copy of a retired record for which the replace as written succeeds and leaves two overlapping records of one alias string; the checked replace refuses it |
| `Store.AliasTable.Insert` | alias/models.py:91-96 | the result is the validation outcome; on success the record is appended, on failure the table is unchanged; a consistent table stays consistent |
| `Store.AliasTable.Replace` | alias/models.py:114-127 | all or nothing: on success the table is the checked transaction's result and the successor is returned; on failure the error is the transaction's and the table is unchanged; a consistent table stays consistent |
| `Queries.GetAliases` | alias/models.py:99-111 | lists exactly the rows of `target` whose start lies in `[since, to - 1]` or whose end lies in `[since + 1, to]`, and no others, each as many times as it occurs in the table |
| `Queries.ListedIffOverlapNotSpanning` | alias/models.py:108-110 | a well-formed record is listed exactly when it belongs to the target, shares an instant with `[since, to)`, and does not start before `since` and end after `to` |
| `Queries.GetAliasesSoundAndContained` | alias/models.py:108-110 | in any table of well-formed records, every listed record is active somewhere in `[since, to)`; every record of the target lying inside the window is listed |
| `Queries.ActiveRecords` | alias/tests.py:81 | the rows of an alias string active at `t`: none exactly when no row is active, two or more exactly when two distinct rows are; which rows, and how often each, is stated by `ActiveRecordsExact` |
| `Queries.ActiveRecordsExact` | alias/tests.py:81 | the rows the lookup's filter returns are exactly the rows of the alias string active at `t`, each as many times as it occurs in the table |
| `Queries.ResolveAt` | alias/tests.py:81-82 | the lookup reports not-found exactly when no row of the alias string is active at `t`, and several exactly when two rows are; a found record is a stored, active row |
| `Queries.ConsistentResolvesUniquely` | alias/tests.py:81 | in a consistent table the lookup never finds several rows, and the row it finds is the only active one |
| `Queries.ResolveFindsActive` | alias/tests.py:81-82 | in a consistent table, a row active at `t` is what the lookup of its alias string at `t` finds |
| `Queries.ReplaceShape` | alias/models.py:126-127 | after a successful replace the table is every old row, with the matching rows' end set to the cut-over, followed by the open-ended successor |
| `Queries.LookupsAfterRetire` | alias/models.py:126-127 | in the consistent table left by retiring a stored row at `t` and appending a successor starting at `t`, the successor is found at `t`, the shortened row is found at `t - 1`, and the old alias string finds nothing at `t` unless the successor carries it |
| `Queries.ReplaceRoundTrip` | alias/models.py:114-127 | after a replace at `t` of a stored record in a consistent table, the new alias string resolves at `t` to the successor; the old one resolves just before `t` to the shortened record; at `t` the old one resolves to nothing unless it equals the new one |
| `Scenarios.ResolveOpenEndedScenario` | alias/tests.py:77-82 | an open-ended alias saved fifty days ago resolves now to its record and target |
| `Scenarios.OverlapCasesScenario` | alias/tests.py:84-106 | a shifted-right, a shifted-left, a superset and a subset candidate are all rejected with an overlap error, and the table keeps one row |
| `Scenarios.BoundaryCasesScenario` | alias/tests.py:108-121 | candidates touching the stored interval at its end and at its start are both accepted, leaving three rows |
| `Scenarios.ListInRangeScenario` | alias/tests.py:123-132 | with four back-to-back day-long rows, the listing over the window returns the two inside it, exactly those with `start >= since` and `end <= to` |
| `Scenarios.BuildListInRangeTable` | alias/tests.py:125-128 | the four back-to-back day-long records are each accepted, so the table holds exactly those four rows in insertion order |
| `Scenarios.ListInRangeListing` | alias/tests.py:130 | the listing of that four-row table over the window is its second and third rows |
| `Scenarios.ListInRangeContained` | alias/tests.py:131 | those two rows are exactly the rows of the table with `start >= since` and `end <= to` |
| `Scenarios.ReplaceScenario` | alias/tests.py:134-144 | replacing an open-ended alias succeeds and leaves the shortened row and its open-ended successor; replacing again through the same copy before or at its start is refused and changes nothing |

## Findings

| source | as written | input that shows it | evidently intended | confidence | as-written member | corrected member |
|---|---|---|---|---|---|---|
| alias/models.py:123-126 | `alias_replace` checks `start < replace_at < end` on the caller's copy of the record only, then sets `end = replace_at` on every stored row with the same alias, target and start, with no validation | table `a:[0,10)`, `b:[10,max)`, `a:[10,20)` (reached by saving `a:[0,max)`, replacing it at 10 with `b`, then saving `a:[10,20)`); calling the replace again with the old copy `a:[0,max)` at 30 stretches the first row to `a:[0,30)`, which overlaps `a:[10,20)` | the update only shortens the record it retires, so the cut-over must also lie before the stored end | medium; not executed | `Store.StaleReplaceBreaksConsistency` (about `Store.ReplaceAsWritten`) | `Store.ReplaceChecked`, proved by `Store.ReplaceKeepsConsistent`, equal to the as-written transaction on a stored copy by `Store.CurrentCopyAgrees`, used by `Store.AliasTable.Replace` |

## Left out

- Slugs: `Slug.clean`, `Slug.save`, and the content-type and generic-relation lookups that
  validate them (alias/models.py:15-39) are resolved by framework reflection. A target is
  modelled as an opaque id.
- `ISlag` and `TestModel` (alias/models.py:42-54) are test fixtures without logic. The
  `__str__` methods only format values.
- The `SlugField` character and length validators run by `full_clean`. These are framework
  validators; any alias string is accepted.
- Persistence and query-set machinery: the table is an in-memory sequence. `.update()` and
  `.create()` are sequence edits.
- Concurrency and isolation of `transaction.atomic`: only its all-or-nothing effect on
  failure is modelled.
- Time zones: `timezone.make_aware(datetime.max)` is modelled as the plain maximum instant,
  so any shift a non-UTC zone would apply is left out. Instants are integers, not `datetime`
  objects.
- Queries.GetAliases: the `OverflowError` that Python raises when `since` is the largest
  instant or `to` the smallest is not modelled; the bounds are compared as unbounded integers.
- Queries.GetAliases: the result is in table order; the ordering the tests apply with
  `order_by('start')` is not modelled.
- Saving an already-stored row again (`Alias.save()` on a row with a primary key,
  alias/models.py:91-96) is not modelled; the table is insert-only. When the alias string is
  unchanged, such a save is validated against the row's own stored version too, so it can
  only move the row to a disjoint interval; when the alias string changes, it is validated
  only against the rows of the new string and can shorten or lengthen the row. No code in
  the core does that.
