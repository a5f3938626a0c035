/** `process_data` (app.py:104-116): keep the records whose source and
    metric type were selected, group them by (person, source) in ascending
    key order, and emit one `[Name, Violations, Source]` row per group whose
    Violations cell is the group's `value_counts()` summary. */
module Report {
  import opened Wrappers
  import opened Sequences
  import Text
  import opened Tallies

  /** The person column, spelled with its trailing space (app.py:105). */
  const PERSON_COLUMN := "Delivery Associate "
  const SOURCE_COLUMN := "Source"
  const METRIC_COLUMN := "Metric Type"

  /** The uploaded table as read: column names and rows of text cells. */
  datatype Frame = Frame(columns: seq<string>, cells: seq<seq<string>>)

  /** Every row has one cell per column, as in any data frame. */
  predicate Rectangular(f: Frame)
  {
    forall i :: 0 <= i < |f.cells| ==> |f.cells[i]| == |f.columns|
  }

  /** The three fields of an input row the report uses. */
  datatype Record = Record(name: string, source: string, metric: string)

  /** One output row: `[Name, Violations, Source]`. */
  datatype Row = Row(name: string, violations: string, source: string)

  /** The `KeyError` pandas raises for a column the table lacks. */
  datatype SchemaError = MissingColumn(column: string)

  /** A group key: (person name, source). */
  type Key = (string, string)

  // ------------------------------------------------------------------
  // Reading the three columns
  // ------------------------------------------------------------------

  /** The records of `f`, or the first missing column in the order the
      program touches them: `Source` and `Metric Type` in the filter
      (app.py:106), then the person column in the groupby (app.py:107). */
  function ReadRecords(f: Frame): (r: Result<seq<Record>, SchemaError>)
    requires Rectangular(f)
    ensures r == Failure(MissingColumn(SOURCE_COLUMN)) <==> SOURCE_COLUMN !in f.columns
    ensures r == Failure(MissingColumn(METRIC_COLUMN))
        <==> SOURCE_COLUMN in f.columns && METRIC_COLUMN !in f.columns
    ensures r == Failure(MissingColumn(PERSON_COLUMN))
        <==> SOURCE_COLUMN in f.columns && METRIC_COLUMN in f.columns && PERSON_COLUMN !in f.columns
    ensures r.Success? <==> SOURCE_COLUMN in f.columns && METRIC_COLUMN in f.columns && PERSON_COLUMN in f.columns
    ensures r.Success? ==> |r.value| == |f.cells|
    ensures r.Success? ==> forall i :: 0 <= i < |f.cells| ==>
      && (exists j :: 0 <= j < |f.columns| && f.columns[j] == PERSON_COLUMN && r.value[i].name == f.cells[i][j])
      && (exists j :: 0 <= j < |f.columns| && f.columns[j] == SOURCE_COLUMN && r.value[i].source == f.cells[i][j])
      && (exists j :: 0 <= j < |f.columns| && f.columns[j] == METRIC_COLUMN && r.value[i].metric == f.cells[i][j])
  {
    var s := FirstIndex(f.columns, SOURCE_COLUMN);
    var m := FirstIndex(f.columns, METRIC_COLUMN);
    var p := FirstIndex(f.columns, PERSON_COLUMN);
    if s == |f.columns| then Failure(MissingColumn(SOURCE_COLUMN))
    else if m == |f.columns| then Failure(MissingColumn(METRIC_COLUMN))
    else if p == |f.columns| then Failure(MissingColumn(PERSON_COLUMN))
    else
      Success(seq(|f.cells|, i requires 0 <= i < |f.cells| => Record(f.cells[i][p], f.cells[i][s], f.cells[i][m])))
  }

  // ------------------------------------------------------------------
  // The filter mask (app.py:106)
  // ------------------------------------------------------------------

  /** The filter mask: the record's source is one of the selected sources
      and its metric type one of the selected metric types. */
  predicate Selected(r: Record, sources: seq<string>, violations: seq<string>)
  {
    r.source in sources && r.metric in violations
  }

  /** The selected records, in input order. */
  function Filter(recs: seq<Record>, sources: seq<string>, violations: seq<string>): (kept: seq<Record>)
    ensures forall r :: r in kept <==> r in recs && Selected(r, sources, violations)
  {
    if recs == [] then []
    else
      assert recs == [recs[0]] + recs[1..];
      (if Selected(recs[0], sources, violations) then [recs[0]] else [])
        + Filter(recs[1..], sources, violations)
  }

  /** A selected record survives as often as it occurs in the input; any
      other record not at all. */
  lemma {:induction false} FilterCounts(recs: seq<Record>, sources: seq<string>, violations: seq<string>)
    ensures forall r :: multiset(Filter(recs, sources, violations))[r]
                     == (if Selected(r, sources, violations) then multiset(recs)[r] else 0)
  {
    if recs != [] {
      FilterCounts(recs[1..], sources, violations);
      assert recs == [recs[0]] + recs[1..];
    }
  }

  /** Filtering distributes over concatenation: the survivors keep their
      input order. */
  lemma {:induction false} FilterAppend(a: seq<Record>, b: seq<Record>, sources: seq<string>, violations: seq<string>)
    ensures Filter(a + b, sources, violations) == Filter(a, sources, violations) + Filter(b, sources, violations)
  {
    if a != [] {
      var own := if Selected(a[0], sources, violations) then [a[0]] else [];
      assert (a + b)[0] == a[0] && (a + b)[1..] == a[1..] + b;
      calc {
        Filter(a + b, sources, violations);
        own + Filter(a[1..] + b, sources, violations);
        { FilterAppend(a[1..], b, sources, violations); }
        own + (Filter(a[1..], sources, violations) + Filter(b, sources, violations));
        (own + Filter(a[1..], sources, violations)) + Filter(b, sources, violations);
      }
    } else {
      assert a + b == b;
    }
  }

  // ------------------------------------------------------------------
  // The groupby (app.py:107, 110)
  // ------------------------------------------------------------------

  function KeyOf(r: Record): Key
  {
    (r.name, r.source)
  }

  /** The key of each record, in order. */
  function KeysOf(recs: seq<Record>): seq<Key>
  {
    if recs == [] then [] else [KeyOf(recs[0])] + KeysOf(recs[1..])
  }

  /** Python's ordering of `(name, source)` tuples. */
  predicate KeyLess(a: Key, b: Key)
  {
    Text.Less(a.0, b.0) || (a.0 == b.0 && Text.Less(a.1, b.1))
  }

  lemma KeyLessIrreflexive(a: Key)
    ensures !KeyLess(a, a)
  {
    Text.LessIrreflexive(a.0);
    Text.LessIrreflexive(a.1);
  }

  lemma KeyLessTransitive(a: Key, b: Key, c: Key)
    requires KeyLess(a, b) && KeyLess(b, c)
    ensures KeyLess(a, c)
  {
    if Text.Less(a.0, b.0) && Text.Less(b.0, c.0) {
      Text.LessTransitive(a.0, b.0, c.0);
    } else if a.0 == b.0 == c.0 {
      Text.LessTransitive(a.1, b.1, c.1);
    }
  }

  lemma KeyLessTotal(a: Key, b: Key)
    ensures a == b || KeyLess(a, b) || KeyLess(b, a)
  {
    Text.LessTotal(a.0, b.0);
    Text.LessTotal(a.1, b.1);
  }

  predicate StrictlyAscending(ks: seq<Key>)
  {
    forall i, j :: 0 <= i < j < |ks| ==> KeyLess(ks[i], ks[j])
  }

  /** Adds `k` to an ascending list of distinct keys, at its place. */
  function InsertKey(ks: seq<Key>, k: Key): (r: seq<Key>)
    requires StrictlyAscending(ks)
    ensures StrictlyAscending(r)
    ensures forall x :: x in r <==> x in ks || x == k
  {
    if ks == [] then [k]
    else if ks[0] == k then ks
    else if KeyLess(k, ks[0]) then
      forall j | 0 < j < |ks|
        ensures KeyLess(k, ks[j])
      {
        KeyLessTransitive(k, ks[0], ks[j]);
      }
      [k] + ks
    else
      KeyLessTotal(k, ks[0]);
      var rest := InsertKey(ks[1..], k);
      assert ks == [ks[0]] + ks[1..];
      forall j | 0 <= j < |rest|
        ensures KeyLess(ks[0], rest[j])
      {
        assert rest[j] in rest;
      }
      [ks[0]] + rest
  }

  /** The keys `groupby` iterates over: each key present exactly once, in
      ascending order. */
  function GroupKeys(recs: seq<Record>): (ks: seq<Key>)
    ensures StrictlyAscending(ks)
    ensures forall k :: k in ks <==> k in KeysOf(recs)
  {
    if recs == [] then [] else InsertKey(GroupKeys(recs[1..]), KeyOf(recs[0]))
  }

  /** The `Metric Type` column of the group with key `k`, in input order. */
  function GroupMetrics(recs: seq<Record>, k: Key): seq<string>
  {
    if recs == [] then []
    else (if KeyOf(recs[0]) == k then [recs[0].metric] else []) + GroupMetrics(recs[1..], k)
  }

  /** The group's `Metric Type` column keeps the records' input order:
      the column of a concatenation is the concatenation of the columns. */
  lemma {:induction false} GroupMetricsAppend(a: seq<Record>, b: seq<Record>, k: Key)
    ensures GroupMetrics(a + b, k) == GroupMetrics(a, k) + GroupMetrics(b, k)
  {
    if a != [] {
      var own := if KeyOf(a[0]) == k then [a[0].metric] else [];
      assert (a + b)[0] == a[0] && (a + b)[1..] == a[1..] + b;
      calc {
        GroupMetrics(a + b, k);
        own + GroupMetrics(a[1..] + b, k);
        { GroupMetricsAppend(a[1..], b, k); }
        own + (GroupMetrics(a[1..], k) + GroupMetrics(b, k));
        (own + GroupMetrics(a[1..], k)) + GroupMetrics(b, k);
      }
    } else {
      assert a + b == b;
    }
  }

  /** The group of `k` holds one metric type per record with key `k`:
      each metric type as often as the record with that person, source and
      metric type occurs. */
  lemma GroupMetricsCounts(recs: seq<Record>, k: Key)
    ensures |GroupMetrics(recs, k)| == multiset(KeysOf(recs))[k]
    ensures forall m :: multiset(GroupMetrics(recs, k))[m] == multiset(recs)[Record(k.0, k.1, m)]
  {
    GroupMetricsSize(recs, k);
    GroupMetricsOccurrences(recs, k);
  }

  /** The group of `k` has one entry per record with key `k`. */
  lemma {:induction false} GroupMetricsSize(recs: seq<Record>, k: Key)
    ensures |GroupMetrics(recs, k)| == multiset(KeysOf(recs))[k]
  {
    if recs != [] {
      GroupMetricsSize(recs[1..], k);
    }
  }

  /** Each metric type occurs in the group of `k` as often as the record
      with that key and type occurs in the input. */
  lemma {:induction false} GroupMetricsOccurrences(recs: seq<Record>, k: Key)
    ensures forall m :: multiset(GroupMetrics(recs, k))[m] == multiset(recs)[Record(k.0, k.1, m)]
  {
    if recs != [] {
      GroupMetricsOccurrences(recs[1..], k);
      assert recs == [recs[0]] + recs[1..];
    }
  }

  // ------------------------------------------------------------------
  // The rows (app.py:110-115)
  // ------------------------------------------------------------------

  /** The `value_counts()` of the group with key `k` (app.py:111). */
  function GroupCounts(filtered: seq<Record>, k: Key): seq<Tally>
  {
    ValueCounts(GroupMetrics(filtered, k))
  }

  /** The row of the group with key `k`. */
  function RowOf(filtered: seq<Record>, k: Key): Row
  {
    Row(k.0, Summary(GroupCounts(filtered, k)), k.1)
  }

  function RowKey(row: Row): Key
  {
    (row.name, row.source)
  }

  /** The rows of the groups `ks`, in that order. */
  function RowsOf(filtered: seq<Record>, ks: seq<Key>): seq<Row>
  {
    seq(|ks|, i requires 0 <= i < |ks| => RowOf(filtered, ks[i]))
  }

  /** The table `process_data` returns for the filtered records: one row
      per group, in group order. */
  function Tabulate(filtered: seq<Record>): seq<Row>
  {
    RowsOf(filtered, GroupKeys(filtered))
  }

  /** One more group, one more row at the end. */
  lemma RowsOfSnoc(filtered: seq<Record>, ks: seq<Key>, k: Key)
    ensures RowsOf(filtered, ks + [k]) == RowsOf(filtered, ks) + [RowOf(filtered, k)]
  {
  }

  /** The loop at app.py:110-113 over the groups `grouped` of `filtered`. */
  method TabulateGroups(filtered: seq<Record>, grouped: seq<Key>) returns (rows: seq<Row>)
    ensures rows == RowsOf(filtered, grouped)
  {
    rows := [];
    var i := 0;
    while i < |grouped|
      invariant 0 <= i <= |grouped|
      invariant rows == RowsOf(filtered, grouped[..i])
    {
      var row := RowOf(filtered, grouped[i]);
      RowsOfSnoc(filtered, grouped[..i], grouped[i]);
      assert grouped[..i + 1] == grouped[..i] + [grouped[i]];
      rows := rows + [row];
      i := i + 1;
    }
    assert grouped[..i] == grouped;
  }

  /** `process_data`: check the columns, filter, group and tabulate. */
  method ProcessData(frame: Frame, sources: seq<string>, violations: seq<string>)
    returns (result: Result<seq<Row>, SchemaError>)
    requires Rectangular(frame)
    ensures ReadRecords(frame).Failure? ==> result == Failure(ReadRecords(frame).error)
    ensures ReadRecords(frame).Success? ==>
      result == Success(Tabulate(Filter(ReadRecords(frame).value, sources, violations)))
  {
    var read := ReadRecords(frame);
    if read.Failure? {
      return Failure(read.error);
    }
    var filtered := Filter(read.value, sources, violations);
    var rows := TabulateGroups(filtered, GroupKeys(filtered));
    return Success(rows);
  }

  // ------------------------------------------------------------------
  // What the table says about the input
  // ------------------------------------------------------------------

  lemma {:induction false} KeysOfMembers(recs: seq<Record>, k: Key)
    ensures k in KeysOf(recs) <==> exists r :: r in recs && KeyOf(r) == k
  {
    if recs != [] {
      KeysOfMembers(recs[1..], k);
      assert recs == [recs[0]] + recs[1..];
      if k in KeysOf(recs[1..]) {
        var r :| r in recs[1..] && KeyOf(r) == k;
        assert r in recs;
      }
    }
  }

  /** The table has exactly one row per (person, source) pair among the
      selected records, and no other row; its rows are in ascending key
      order. */
  lemma {:induction false} RowsAreGroups(recs: seq<Record>, sources: seq<string>, violations: seq<string>, rows: seq<Row>)
    requires rows == Tabulate(Filter(recs, sources, violations))
    ensures forall i, j :: 0 <= i < j < |rows| ==> KeyLess(RowKey(rows[i]), RowKey(rows[j]))
    ensures forall i, j :: 0 <= i < |rows| && 0 <= j < |rows| && i != j ==> RowKey(rows[i]) != RowKey(rows[j])
    ensures forall i :: 0 <= i < |rows| ==>
      exists r :: r in recs && Selected(r, sources, violations) && KeyOf(r) == RowKey(rows[i])
    ensures forall r :: r in recs && Selected(r, sources, violations) ==>
      exists i :: 0 <= i < |rows| && RowKey(rows[i]) == KeyOf(r)
  {
    var filtered := Filter(recs, sources, violations);
    var ks := GroupKeys(filtered);
    assert |rows| == |ks|;
    assert forall i :: 0 <= i < |rows| ==> RowKey(rows[i]) == ks[i];
    forall i, j | 0 <= i < |rows| && 0 <= j < |rows| && i != j
      ensures RowKey(rows[i]) != RowKey(rows[j])
    {
      if i < j {
        KeyLessIrreflexive(ks[i]);
      } else {
        KeyLessIrreflexive(ks[j]);
      }
    }
    forall i | 0 <= i < |rows|
      ensures exists r :: r in recs && Selected(r, sources, violations) && KeyOf(r) == RowKey(rows[i])
    {
      KeysOfMembers(filtered, ks[i]);
      var r :| r in filtered && KeyOf(r) == ks[i];
      assert r in recs && Selected(r, sources, violations);
    }
    forall r | r in recs && Selected(r, sources, violations)
      ensures exists i :: 0 <= i < |rows| && RowKey(rows[i]) == KeyOf(r)
    {
      assert r in filtered;
      KeysOfMembers(filtered, KeyOf(r));
      var i :| 0 <= i < |ks| && ks[i] == KeyOf(r);
      assert RowKey(rows[i]) == KeyOf(r);
    }
  }

  /** The table is empty exactly when no record was selected. */
  lemma {:induction false} EmptyTable(recs: seq<Record>, sources: seq<string>, violations: seq<string>)
    ensures Tabulate(Filter(recs, sources, violations)) == []
        <==> forall r :: r in recs ==> !Selected(r, sources, violations)
  {
    var filtered := Filter(recs, sources, violations);
    if filtered != [] {
      assert filtered[0] in filtered;
      KeysOfMembers(filtered, KeyOf(filtered[0]));
      assert KeyOf(filtered[0]) in GroupKeys(filtered);
    }
  }

  /** What the summary of a group counts: each metric type listed was
      selected and appears with the number of input records that have that
      person, source and metric type; every selected metric type the pair
      has is listed, once, ranked by `RanksBefore`. */
  lemma {:induction false} GroupCountsFromInput(recs: seq<Record>, sources: seq<string>, violations: seq<string>, k: Key, ts: seq<Tally>)
    requires k.1 in sources
    requires ts == GroupCounts(Filter(recs, sources, violations), k)
    ensures forall i :: 0 <= i < |ts| ==>
      ts[i].metric in violations && ts[i].count == multiset(recs)[Record(k.0, k.1, ts[i].metric)]
    ensures forall m :: m in violations && Record(k.0, k.1, m) in recs ==> m in Metrics(ts)
    ensures forall i :: 0 <= i < |ts| ==> ts[i].count >= 1
    ensures DistinctMetrics(ts)
    ensures Ranked(GroupMetrics(Filter(recs, sources, violations), k), ts)
    ensures Total(ts) == multiset(KeysOf(Filter(recs, sources, violations)))[k]
  {
    var ms := GroupMetrics(Filter(recs, sources, violations), k);
    GroupMetricsSize(Filter(recs, sources, violations), k);
    forall i | 0 <= i < |ts|
      ensures ts[i].metric in violations
      ensures ts[i].count == multiset(recs)[Record(k.0, k.1, ts[i].metric)]
    {
      GroupMetricCount(recs, sources, violations, k, ts[i].metric);
    }
    forall m | m in violations && Record(k.0, k.1, m) in recs
      ensures m in Metrics(ts)
    {
      GroupMetricCount(recs, sources, violations, k, m);
      assert m in ms;
    }
  }

  /** How often a metric type occurs in a group of a selected source: as
      often as the matching input record if the type was selected, else
      never. */
  lemma {:induction false} GroupMetricCount(recs: seq<Record>, sources: seq<string>, violations: seq<string>, k: Key, m: string)
    requires k.1 in sources
    ensures multiset(GroupMetrics(Filter(recs, sources, violations), k))[m]
         == if m in violations then multiset(recs)[Record(k.0, k.1, m)] else 0
  {
    FilterCounts(recs, sources, violations);
    GroupMetricsCounts(Filter(recs, sources, violations), k);
  }

  /** A Violations cell reads back as the tallies it was built from, when
      no selected metric type contains a comma. */
  lemma {:induction false} RowViolationsDecode(recs: seq<Record>, sources: seq<string>, violations: seq<string>, rows: seq<Row>, i: nat)
    requires forall v :: v in violations ==> ',' !in v
    requires rows == Tabulate(Filter(recs, sources, violations))
    requires i < |rows|
    ensures DecodeSummary(rows[i].violations) == Some(GroupCounts(Filter(recs, sources, violations), RowKey(rows[i])))
  {
    var filtered := Filter(recs, sources, violations);
    var k := GroupKeys(filtered)[i];
    var ms := GroupMetrics(filtered, k);
    GroupMetricsCounts(filtered, k);
    var ts := GroupCounts(filtered, k);
    assert RowKey(rows[i]) == k && rows[i].violations == Summary(ts);
    forall j | 0 <= j < |ts|
      ensures ',' !in ts[j].metric
    {
      assert multiset(ms)[ts[j].metric] > 0;
      assert Record(k.0, k.1, ts[j].metric) in filtered;
    }
    SummaryRoundTrip(ts);
  }

  lemma {:induction false} SingleGroupKeys(recs: seq<Record>, k: Key)
    requires |recs| == 3 && forall i :: 0 <= i < 3 ==> KeyOf(recs[i]) == k
    ensures GroupKeys(recs) == [k]
  {
    KeyLessIrreflexive(k);
    assert GroupKeys(recs[2..][1..]) == [];
    assert GroupKeys(recs[2..]) == [k];
    assert recs[1..][1..] == recs[2..];
    assert GroupKeys(recs[1..]) == [k];
  }

  lemma {:induction false} SingleGroupMetrics(recs: seq<Record>, k: Key)
    requires |recs| == 3 && forall i :: 0 <= i < 3 ==> KeyOf(recs[i]) == k
    ensures GroupMetrics(recs, k) == [recs[0].metric, recs[1].metric, recs[2].metric]
  {
    assert GroupMetrics(recs[2..][1..], k) == [];
    assert GroupMetrics(recs[2..], k) == [recs[2].metric];
    assert recs[1..][1..] == recs[2..];
    assert GroupMetrics(recs[1..], k) == [recs[1].metric, recs[2].metric];
  }

  lemma SingleRow(filtered: seq<Record>, k: Key)
    ensures RowsOf(filtered, [k]) == [RowOf(filtered, k)]
  {
  }

  /** One person and source with two records of `a` and one of `b`: a
      single row whose summary lists `a` (2) before `b` (1). */
  lemma {:induction false} SingleGroupExample(name: string, source: string, a: string, b: string)
    requires a != b
    ensures Tabulate([Record(name, source, a), Record(name, source, b), Record(name, source, a)])
         == [Row(name, Summary([Tally(a, 2), Tally(b, 1)]), source)]
  {
    var recs := [Record(name, source, a), Record(name, source, b), Record(name, source, a)];
    var k := (name, source);
    SingleGroupKeys(recs, k);
    SingleGroupMetrics(recs, k);
    MoreFrequentFirst(a, b);
    var ts := [Tally(a, 2), Tally(b, 1)];
    assert GroupCounts(recs, k) == ts;
    assert RowOf(recs, k) == Row(name, Summary(ts), source);
    SingleRow(recs, k);
  }
}
