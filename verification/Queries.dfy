// The SQL of queryReadings, CountReadings and StreamReadings in
// backend/internal/server/store_adapter.go, and what it means.

module Queries {
  import opened Options
  import opened Sequences
  import opened Sorting
  import opened Tables
  import opened Text

  const MINUTE: int := 60_000_000_000
  const HOUR: int := 60 * MINUTE
  const DAY: int := 24 * HOUR

  /** One readings request; times are nanoseconds. */
  datatype Request = Request(device: string, fields: seq<string>, from: int, to: int)

  /** WHERE device_id = $1 AND field_name = ANY($2) AND ts > $3 AND ts < $4. */
  function Selected(q: Request): Reading -> bool {
    (r: Reading) => r.device == q.device && r.field in q.fields && q.from < r.ts < q.to
  }

  function Matching(t: Tables, q: Request): seq<Reading> {
    Filter(Selected(q), t.readings)
  }

  // The LEFT JOIN on renames ---------------------------------------------------------------------

  datatype Joined = Joined(reading: Reading, rename: Option<Rename>)

  function Renames(r: Reading): Rename -> bool {
    (m: Rename) => m.device == r.device && m.rawField == r.field
  }

  function Pair(r: Reading): Rename -> Joined {
    (m: Rename) => Joined(r, Some(m))
  }

  function JoinOne(r: Reading, renames: seq<Rename>): seq<Joined> {
    var partners := Filter(Renames(r), renames);
    if partners == [] then [Joined(r, None)] else Map(Pair(r), partners)
  }

  function LeftJoin(rs: seq<Reading>, renames: seq<Rename>): seq<Joined> {
    if rs == [] then [] else JoinOne(rs[0], renames) + LeftJoin(rs[1..], renames)
  }

  /** A reading with its rename, if it has one. */
  function Label(renames: seq<Rename>): Reading -> Joined {
    (r: Reading) =>
      var partners := Filter(Renames(r), renames);
      Joined(r, if partners == [] then None else Some(partners[0]))
  }

  /** Renames are unique per device and field, so a reading joins at most one of them. */
  lemma JoinOneLabels(r: Reading, renames: seq<Rename>)
    requires Distinct(RenameKey, renames)
    ensures JoinOne(r, renames) == [Label(renames)(r)]
  {
    var partners := Filter(Renames(r), renames);
    if |partners| > 1 {
      FilterMember(Renames(r), renames, partners[0]);
      FilterMember(Renames(r), renames, partners[1]);
      assert RenameKey(partners[0]) == RenameKey(partners[1]);
      FilterDistinct(RenameKey, Renames(r), renames);
    }
  }

  /** The join neither drops nor multiplies readings. */
  lemma {:induction false} LeftJoinLabels(rs: seq<Reading>, renames: seq<Rename>)
    requires Distinct(RenameKey, renames)
    ensures LeftJoin(rs, renames) == Map(Label(renames), rs)
  {
    if rs == [] {
    } else {
      var paired := Label(renames);
      LeftJoinLabels(rs[1..], renames);
      JoinOneLabels(rs[0], renames);
      assert Map(paired, rs) == [paired(rs[0])] + Map(paired, rs[1..]);
    }
  }

  function DisplayName(j: Joined): Option<string> {
    if j.rename.Some? then j.rename.value.displayName else None
  }

  function Unit(j: Joined): Option<string> {
    if j.rename.Some? then j.rename.value.unit else None
  }

  // Counting and streaming -----------------------------------------------------------------------

  datatype StreamRow = StreamRow(ts: int, field: string, value: real, displayName: string, unit: string)

  function ToStreamRow(j: Joined): StreamRow {
    StreamRow(j.reading.ts, j.reading.field, j.reading.value,
              DisplayName(j).GetOr(j.reading.field), Unit(j).GetOr(""))
  }

  /** ORDER BY ts, field_name. */
  predicate StreamLe(a: StreamRow, b: StreamRow) {
    a.ts < b.ts || (a.ts == b.ts && TextLe(a.field, b.field))
  }

  function CountReadings(t: Tables, q: Request): nat {
    |Matching(t, q)|
  }

  /** Readings of one field at one instant may come in any order; this takes the table's. */
  function StreamReadings(t: Tables, q: Request): seq<StreamRow> {
    Sort(StreamLe, Map(ToStreamRow, LeftJoin(Matching(t, q), t.renames)))
  }

  function StreamedRow(renames: seq<Rename>): Reading -> StreamRow {
    (r: Reading) => ToStreamRow(Label(renames)(r))
  }

  /** The stream delivers each matching reading once, under its display name, ordered by time and
      field; so it delivers exactly as many rows as the count says. */
  lemma StreamIsMatching(t: Tables, q: Request)
    requires Distinct(RenameKey, t.renames)
    ensures |StreamReadings(t, q)| == CountReadings(t, q)
    ensures multiset(StreamReadings(t, q)) == multiset(Map(StreamedRow(t.renames), Matching(t, q)))
    ensures Sorted(StreamLe, StreamReadings(t, q))
  {
    LeftJoinLabels(Matching(t, q), t.renames);
    var rows := Map(ToStreamRow, LeftJoin(Matching(t, q), t.renames));
    assert rows == Map(StreamedRow(t.renames), Matching(t, q));
    SortPermutes(StreamLe, rows);
    TextLeOrder();
    SortSorts(StreamLe, rows);
  }

  // Downsampling ---------------------------------------------------------------------------------

  /** The bucket width queryReadings picks for the requested duration. */
  function BucketWidth(from: int, to: int): (width: int)
    ensures width > 0
  {
    if to - from < DAY then 15 * MINUTE
    else if to - from < 7 * DAY then HOUR
    else DAY
  }

  /** time_bucket: the start of the bucket that holds a time, for the width of the request. */
  function BucketStart(q: Request): int -> int {
    var width := BucketWidth(q.from, q.to);
    (ts: int) => ts / width * width
  }

  datatype GroupingKey = GroupingKey(bucket: int, field: string, displayName: Option<string>, unit: Option<string>)

  datatype ResultRow = ResultRow(
    bucket: int, field: string, value: real, minValue: real, maxValue: real, displayName: string, unit: string)

  /** GROUP BY bucket, r.field_name, fr.display_name, fr.unit. */
  function GroupingOf(bucketOf: int -> int): Joined -> GroupingKey {
    (j: Joined) => GroupingKey(bucketOf(j.reading.ts), j.reading.field, DisplayName(j), Unit(j))
  }

  function InGroup(bucketOf: int -> int, k: GroupingKey): Joined -> bool {
    (j: Joined) => GroupingOf(bucketOf)(j) == k
  }

  function Value(r: Reading): real { r.value }

  function JoinedValue(j: Joined): real { j.reading.value }

  function Average(xs: seq<real>): real {
    if xs == [] then 0.0 else Sum(xs) / (|xs| as real)
  }

  function Minimum(xs: seq<real>): (m: real)
    ensures xs != [] ==> m in xs
    ensures forall x :: x in xs ==> m <= x
  {
    if |xs| <= 1 then (if xs == [] then 0.0 else xs[0])
    else
      var rest := Minimum(xs[1..]);
      assert xs == [xs[0]] + xs[1..];
      if xs[0] <= rest then xs[0] else rest
  }

  function Maximum(xs: seq<real>): (m: real)
    ensures xs != [] ==> m in xs
    ensures forall x :: x in xs ==> x <= m
  {
    if |xs| <= 1 then (if xs == [] then 0.0 else xs[0])
    else
      var rest := Maximum(xs[1..]);
      assert xs == [xs[0]] + xs[1..];
      if xs[0] >= rest then xs[0] else rest
  }

  function Summary(k: GroupingKey, values: seq<real>): ResultRow {
    ResultRow(k.bucket, k.field, Average(values), Minimum(values), Maximum(values),
              k.displayName.GetOr(k.field), k.unit.GetOr(""))
  }

  function RowOf(bucketOf: int -> int, js: seq<Joined>): GroupingKey -> ResultRow {
    (k: GroupingKey) => Summary(k, Map(JoinedValue, Filter(InGroup(bucketOf, k), js)))
  }

  /** ORDER BY bucket, field_name. */
  predicate ResultLe(a: ResultRow, b: ResultRow) {
    a.bucket < b.bucket || (a.bucket == b.bucket && TextLe(a.field, b.field))
  }

  predicate ResultLt(a: ResultRow, b: ResultRow) {
    ResultLe(a, b) && CellKey(a) != CellKey(b)
  }

  /** The grouping query for any way of cutting time into buckets. */
  function GroupedQuery(t: Tables, q: Request, bucketOf: int -> int): seq<ResultRow> {
    var js := LeftJoin(Matching(t, q), t.renames);
    Sort(ResultLe, Map(RowOf(bucketOf, js), Distincts(Map(GroupingOf(bucketOf), js))))
  }

  function QueryReadings(t: Tables, q: Request): seq<ResultRow> {
    GroupedQuery(t, q, BucketStart(q))
  }

  // What the downsampled rows are ----------------------------------------------------------------

  /** A reading of this field in this bucket. */
  function InCell(q: Request, bucketOf: int -> int, bucket: int, field: string): Reading -> bool {
    (r: Reading) => Selected(q)(r) && bucketOf(r.ts) == bucket && r.field == field
  }

  /** The readings of one field in one bucket, straight from the table. */
  function Cell(t: Tables, q: Request, bucketOf: int -> int, bucket: int, field: string): seq<Reading> {
    Filter(InCell(q, bucketOf, bucket, field), t.readings)
  }

  function CellKey(row: ResultRow): (int, string) { (row.bucket, row.field) }

  /** A row gives the mean, the least and the greatest of these values. */
  ghost predicate Aggregates(row: ResultRow, values: seq<real>) {
    && values != []
    && row.value * (|values| as real) == Sum(values)
    && row.minValue in values && row.maxValue in values
    && forall v :: v in values ==> row.minValue <= v <= row.maxValue
  }

  /** A row summarises its cell, under the labels of the rename of its readings. */
  ghost predicate Summarises(t: Tables, q: Request, bucketOf: int -> int, row: ResultRow) {
    var cell := Cell(t, q, bucketOf, row.bucket, row.field);
    && Aggregates(row, Map(Value, cell))
    && forall r :: r in cell ==>
         row.displayName == DisplayName(Label(t.renames)(r)).GetOr(row.field) &&
         row.unit == Unit(Label(t.renames)(r)).GetOr("")
  }

  /** Within one request the field decides the rename. */
  lemma LabelByField(renames: seq<Rename>, a: Reading, b: Reading)
    requires a.device == b.device && a.field == b.field
    ensures Label(renames)(a).rename == Label(renames)(b).rename
  {
    FilterAgrees(Renames(a), Renames(b), renames);
  }

  lemma MatchingMember(t: Tables, q: Request, r: Reading)
    ensures r in Matching(t, q) <==> r in t.readings && Selected(q)(r)
  {
    FilterMember(Selected(q), t.readings, r);
  }

  lemma CellMember(t: Tables, q: Request, bucketOf: int -> int, bucket: int, field: string, r: Reading)
    ensures r in Cell(t, q, bucketOf, bucket, field) <==> r in Matching(t, q) && bucketOf(r.ts) == bucket && r.field == field
  {
    MatchingMember(t, q, r);
    FilterMember(InCell(q, bucketOf, bucket, field), t.readings, r);
  }

  function KeyOf(t: Tables, bucketOf: int -> int, r: Reading): GroupingKey {
    GroupingOf(bucketOf)(Label(t.renames)(r))
  }

  /** Two matching readings are grouped together exactly when they share the cell. */
  lemma SameGroupSameCell(t: Tables, q: Request, bucketOf: int -> int, a: Reading, b: Reading)
    requires a in Matching(t, q) && b in Matching(t, q)
    ensures KeyOf(t, bucketOf, a) == KeyOf(t, bucketOf, b) <==> bucketOf(a.ts) == bucketOf(b.ts) && a.field == b.field
  {
    MatchingMember(t, q, a);
    MatchingMember(t, q, b);
    if a.field == b.field {
      LabelByField(t.renames, a, b);
    }
  }

  /** The group of a reading's key holds exactly the readings of its cell. */
  lemma GroupIsCell(t: Tables, q: Request, bucketOf: int -> int, r: Reading)
    requires r in Matching(t, q)
    ensures Filter(InGroup(bucketOf, KeyOf(t, bucketOf, r)), Map(Label(t.renames), Matching(t, q))) ==
            Map(Label(t.renames), Cell(t, q, bucketOf, bucketOf(r.ts), r.field))
  {
    var k := KeyOf(t, bucketOf, r);
    var inCell := InCell(q, bucketOf, bucketOf(r.ts), r.field);
    forall x | x in Matching(t, q)
      ensures inCell(x) == InGroup(bucketOf, k)(Label(t.renames)(x))
    {
      MatchingMember(t, q, x);
      SameGroupSameCell(t, q, bucketOf, x, r);
    }
    FilterMap(InGroup(bucketOf, k), inCell, Label(t.renames), Matching(t, q));
    FilterTwice(inCell, Selected(q), inCell, t.readings);
  }

  lemma SummaryAggregates(k: GroupingKey, values: seq<real>)
    requires values != []
    ensures Aggregates(Summary(k, values), values)
  {
  }

  /** The row built for the group of `r` summarises the cell of `r`. */
  lemma RowSummarises(t: Tables, q: Request, bucketOf: int -> int, r: Reading)
    requires r in Matching(t, q)
    ensures var row := RowOf(bucketOf, Map(Label(t.renames), Matching(t, q)))(KeyOf(t, bucketOf, r));
            CellKey(row) == (bucketOf(r.ts), r.field) && Summarises(t, q, bucketOf, row)
  {
    var js := Map(Label(t.renames), Matching(t, q));
    var k := KeyOf(t, bucketOf, r);
    var cell := Cell(t, q, bucketOf, bucketOf(r.ts), r.field);
    GroupIsCell(t, q, bucketOf, r);
    var values := Map(JoinedValue, Filter(InGroup(bucketOf, k), js));
    assert values == Map(Value, cell);
    CellMember(t, q, bucketOf, bucketOf(r.ts), r.field, r);
    SummaryAggregates(k, values);
    forall x | x in cell
      ensures DisplayName(Label(t.renames)(x)) == k.displayName && Unit(Label(t.renames)(x)) == k.unit
    {
      CellMember(t, q, bucketOf, bucketOf(r.ts), r.field, x);
      SameGroupSameCell(t, q, bucketOf, x, r);
    }
  }

  /** Every grouping key is the key of some matching reading. */
  lemma KeyHasReading(t: Tables, q: Request, bucketOf: int -> int, k: GroupingKey) returns (r: Reading)
    requires k in Map(GroupingOf(bucketOf), Map(Label(t.renames), Matching(t, q)))
    ensures r in Matching(t, q) && KeyOf(t, bucketOf, r) == k
  {
    var all := Map(GroupingOf(bucketOf), Map(Label(t.renames), Matching(t, q)));
    var m :| 0 <= m < |all| && all[m] == k;
    r := Matching(t, q)[m];
  }

  /** Rows as they stand before sorting. */
  function UnsortedRows(t: Tables, q: Request, bucketOf: int -> int): seq<ResultRow> {
    var js := Map(Label(t.renames), Matching(t, q));
    Map(RowOf(bucketOf, js), Distincts(Map(GroupingOf(bucketOf), js)))
  }

  /** Each row summarises its cell, and no two rows share a cell. */
  lemma RowsAreCells(t: Tables, q: Request, bucketOf: int -> int)
    ensures var rows := UnsortedRows(t, q, bucketOf);
            (forall i :: 0 <= i < |rows| ==> Summarises(t, q, bucketOf, rows[i])) && Distinct(CellKey, rows)
  {
    var rows := UnsortedRows(t, q, bucketOf);
    var keys := Distincts(Map(GroupingOf(bucketOf), Map(Label(t.renames), Matching(t, q))));
    forall i | 0 <= i < |rows|
      ensures Summarises(t, q, bucketOf, rows[i])
    {
      assert keys[i] in keys;
      var r := KeyHasReading(t, q, bucketOf, keys[i]);
      RowSummarises(t, q, bucketOf, r);
    }
    forall i, j | 0 <= i < j < |rows|
      ensures CellKey(rows[i]) != CellKey(rows[j])
    {
      assert keys[i] in keys && keys[j] in keys;
      var a := KeyHasReading(t, q, bucketOf, keys[i]);
      var b := KeyHasReading(t, q, bucketOf, keys[j]);
      SameGroupSameCell(t, q, bucketOf, a, b);
      RowSummarises(t, q, bucketOf, a);
      RowSummarises(t, q, bucketOf, b);
    }
  }

  /** No matching reading is missed. */
  lemma ReadingHasRow(t: Tables, q: Request, bucketOf: int -> int, r: Reading, rows: seq<ResultRow>)
    requires r in Matching(t, q)
    requires forall row :: row in UnsortedRows(t, q, bucketOf) ==> row in rows
    ensures HasRow(rows, bucketOf(r.ts), r.field)
  {
    var unsorted := UnsortedRows(t, q, bucketOf);
    var all := Map(GroupingOf(bucketOf), Map(Label(t.renames), Matching(t, q)));
    var keys := Distincts(all);
    var m :| 0 <= m < |Matching(t, q)| && Matching(t, q)[m] == r;
    assert all[m] == KeyOf(t, bucketOf, r) && all[m] in all && all[m] in keys;
    var i :| 0 <= i < |keys| && keys[i] == all[m];
    RowSummarises(t, q, bucketOf, r);
    assert unsorted[i] in unsorted && CellKey(unsorted[i]) == (bucketOf(r.ts), r.field);
  }

  /** The result for any bucketing: strictly ordered, one summary per cell, one cell per reading. */
  lemma GroupedQueryRows(t: Tables, q: Request, bucketOf: int -> int)
    requires Distinct(RenameKey, t.renames)
    ensures var rows := GroupedQuery(t, q, bucketOf);
            && (forall i, j :: 0 <= i < j < |rows| ==> ResultLt(rows[i], rows[j]))
            && (forall i :: 0 <= i < |rows| ==> Summarises(t, q, bucketOf, rows[i]))
            && (forall r :: r in Matching(t, q) ==> HasRow(rows, bucketOf(r.ts), r.field))
  {
    var unsorted := UnsortedRows(t, q, bucketOf);
    var rows := GroupedQuery(t, q, bucketOf);
    LeftJoinLabels(Matching(t, q), t.renames);
    RowsAreCells(t, q, bucketOf);
    SortedRows(unsorted);
    SameMembers(rows, unsorted);
    forall i | 0 <= i < |rows|
      ensures Summarises(t, q, bucketOf, rows[i])
    {
      assert rows[i] in unsorted;
    }
    forall r | r in Matching(t, q)
      ensures HasRow(rows, bucketOf(r.ts), r.field)
    {
      ReadingHasRow(t, q, bucketOf, r, rows);
    }
  }

  ghost predicate HasRow(rows: seq<ResultRow>, bucket: int, field: string) {
    exists i :: 0 <= i < |rows| && CellKey(rows[i]) == (bucket, field)
  }

  lemma SortedRows(unsorted: seq<ResultRow>)
    requires Distinct(CellKey, unsorted)
    ensures var rows := Sort(ResultLe, unsorted);
            multiset(rows) == multiset(unsorted) && forall i, j :: 0 <= i < j < |rows| ==> ResultLt(rows[i], rows[j])
  {
    SortPermutes(ResultLe, unsorted);
    TextLeOrder();
    SortSorts(ResultLe, unsorted);
    DistinctPermuted(CellKey, unsorted, Sort(ResultLe, unsorted));
  }

  /** Downsampling, exactly: the rows are strictly ordered by bucket and field, each summarises its
      cell, and there is one for every matching reading. */
  lemma QueryIsDownsampling(t: Tables, q: Request)
    requires Distinct(RenameKey, t.renames)
    ensures var rows := QueryReadings(t, q);
            && (forall i, j :: 0 <= i < j < |rows| ==> ResultLt(rows[i], rows[j]))
            && (forall i :: 0 <= i < |rows| ==> Summarises(t, q, BucketStart(q), rows[i]))
            && (forall r :: r in Matching(t, q) ==> HasRow(rows, BucketStart(q)(r.ts), r.field))
  {
    GroupedQueryRows(t, q, BucketStart(q));
  }

  /** Each matching reading lies in the cell of exactly one row. */
  lemma CountedOnce(t: Tables, q: Request, bucketOf: int -> int, r: Reading) returns (i: nat)
    requires Distinct(RenameKey, t.renames) && r in Matching(t, q)
    ensures var rows := GroupedQuery(t, q, bucketOf);
            i < |rows| && forall j :: 0 <= j < |rows| ==>
              (r in Cell(t, q, bucketOf, rows[j].bucket, rows[j].field) <==> j == i)
  {
    GroupedQueryRows(t, q, bucketOf);
    var rows := GroupedQuery(t, q, bucketOf);
    assert HasRow(rows, bucketOf(r.ts), r.field);
    i :| 0 <= i < |rows| && CellKey(rows[i]) == (bucketOf(r.ts), r.field);
    forall j | 0 <= j < |rows|
      ensures r in Cell(t, q, bucketOf, rows[j].bucket, rows[j].field) <==> j == i
    {
      CellMember(t, q, bucketOf, rows[j].bucket, rows[j].field, r);
      if j < i {
        assert ResultLt(rows[j], rows[i]);
      } else if i < j {
        assert ResultLt(rows[i], rows[j]);
      }
    }
  }

  lemma AggregatesUnique(a: ResultRow, b: ResultRow, values: seq<real>)
    requires Aggregates(a, values) && Aggregates(b, values)
    ensures a.value == b.value && a.minValue == b.minValue && a.maxValue == b.maxValue
  {
    QuotientUnique(a.value, b.value, |values| as real, Sum(values));
  }

  /** Values and labels decide a row. */
  lemma SummaryUnique(t: Tables, q: Request, bucketOf: int -> int, a: ResultRow, b: ResultRow)
    requires Summarises(t, q, bucketOf, a) && Summarises(t, q, bucketOf, b) && CellKey(a) == CellKey(b)
    ensures a == b
  {
    var cell := Cell(t, q, bucketOf, a.bucket, a.field);
    AggregatesUnique(a, b, Map(Value, cell));
    assert cell[0] in cell;
  }

  lemma QuotientUnique(x: real, y: real, n: real, sum: real)
    requires n > 0.0 && x * n == sum && y * n == sum
    ensures x == y
  {
    DivideBounds(x, y, x, n, sum);
  }

  /** The result holds exactly the rows that summarise their own cells. */
  lemma RowIsItsCell(t: Tables, q: Request, row: ResultRow)
    requires Distinct(RenameKey, t.renames)
    ensures row in QueryReadings(t, q) <==> Summarises(t, q, BucketStart(q), row)
  {
    var rows := QueryReadings(t, q);
    QueryIsDownsampling(t, q);
    if Summarises(t, q, BucketStart(q), row) {
      var r := Cell(t, q, BucketStart(q), row.bucket, row.field)[0];
      CellMember(t, q, BucketStart(q), row.bucket, row.field, r);
      assert HasRow(rows, row.bucket, row.field);
      var i :| 0 <= i < |rows| && CellKey(rows[i]) == (row.bucket, row.field);
      SummaryUnique(t, q, BucketStart(q), rows[i], row);
    }
  }

  /** The mean lies between the extremes. */
  lemma MeanBetweenExtremes(row: ResultRow, values: seq<real>)
    requires Aggregates(row, values)
    ensures row.minValue <= row.value <= row.maxValue
  {
    forall i | 0 <= i < |values|
      ensures row.minValue <= values[i] <= row.maxValue
    {
      assert values[i] in values;
    }
    SumBounds(values, row.minValue, row.maxValue);
    DivideBounds(row.minValue, row.value, row.maxValue, |values| as real, Sum(values));
  }

  lemma {:induction false} SumBounds(xs: seq<real>, lo: real, hi: real)
    requires forall i :: 0 <= i < |xs| ==> lo <= xs[i] <= hi
    ensures lo * (|xs| as real) <= Sum(xs) <= hi * (|xs| as real)
  {
    if xs == [] {
    } else {
      SumBounds(xs[1..], lo, hi);
      var n := |xs[1..]| as real;
      assert |xs| as real == n + 1.0;
      assert lo * (n + 1.0) == lo * n + lo;
      assert hi * (n + 1.0) == hi * n + hi;
    }
  }

  lemma DivideBounds(lo: real, x: real, hi: real, n: real, sum: real)
    requires n > 0.0 && x * n == sum && lo * n <= sum && sum <= hi * n
    ensures lo <= x <= hi
  {
    if x < lo {
      ProductPositive(lo - x, n);
    }
    if hi < x {
      ProductPositive(x - hi, n);
    }
  }

  lemma ProductPositive(a: real, b: real)
    requires a > 0.0 && b > 0.0
    ensures a * b > 0.0
  {
  }

  // How many rows a field gets -------------------------------------------------------------------

  function OfField(field: string): ResultRow -> bool {
    (row: ResultRow) => row.field == field
  }

  /** Increasing multiples of the width need room. */
  lemma {:induction false} MultiplesSpread(width: int, buckets: seq<int>)
    requires width > 0 && buckets != []
    requires forall i :: 0 <= i < |buckets| ==> buckets[i] % width == 0
    requires forall i, j :: 0 <= i < j < |buckets| ==> buckets[i] < buckets[j]
    ensures buckets[|buckets| - 1] - buckets[0] >= (|buckets| - 1) * width
  {
    if |buckets| == 1 {
    } else {
      var n := |buckets| - 1;
      MultiplesSpread(width, buckets[..n]);
      NextMultiple(width, buckets[n - 1], buckets[n]);
      assert n * width == (n - 1) * width + width;
    }
  }

  lemma NextMultiple(width: int, a: int, b: int)
    requires width > 0 && a % width == 0 && b % width == 0 && a < b
    ensures b - a >= width
  {
    var x, y := a / width, b / width;
    assert a == x * width && b == y * width;
    if y <= x {
      TimesMonotone(y, x, width);
    }
    TimesMonotone(x + 1, y, width);
    assert (x + 1) * width == x * width + width;
  }

  lemma TimesMonotone(a: int, b: int, width: int)
    requires a <= b && width > 0
    ensures a * width <= b * width
  {
    assert (b - a) * width >= 0;
  }

  lemma BucketBounds(q: Request, ts: int)
    ensures var width := BucketWidth(q.from, q.to);
            BucketStart(q)(ts) % width == 0 && ts - width < BucketStart(q)(ts) <= ts
  {
    MultipleMod(ts / BucketWidth(q.from, q.to), BucketWidth(q.from, q.to));
  }

  lemma MultipleMod(k: int, width: int)
    requires width > 0
    ensures k * width % width == 0
  {
    var m := k * width;
    assert (k - m / width) * width == m % width;
    var d := k - m / width;
    if d >= 1 {
      TimesMonotone(1, d, width);
    } else if d <= -1 {
      TimesMonotone(d, -1, width);
    }
  }

  /** The bucket of a row holds a time strictly inside the requested range. */
  lemma RowInRange(t: Tables, q: Request, row: ResultRow)
    requires Summarises(t, q, BucketStart(q), row)
    ensures var width := BucketWidth(q.from, q.to);
            row.bucket % width == 0 && q.from - width < row.bucket < q.to
  {
    var cell := Cell(t, q, BucketStart(q), row.bucket, row.field);
    CellMember(t, q, BucketStart(q), row.bucket, row.field, cell[0]);
    MatchingMember(t, q, cell[0]);
    BucketBounds(q, cell[0].ts);
  }

  function StartOf(row: ResultRow): int { row.bucket }

  /** Increasing bucket starts that a range can touch. */
  ghost predicate Touched(from: int, to: int, buckets: seq<int>) {
    && (forall i, j :: 0 <= i < j < |buckets| ==> buckets[i] < buckets[j])
    && (forall i :: 0 <= i < |buckets| ==>
          buckets[i] % BucketWidth(from, to) == 0 && from - BucketWidth(from, to) < buckets[i] < to)
  }

  /** One field of one result: each row starts another bucket touched by the range. */
  lemma FieldBuckets(t: Tables, q: Request, field: string)
    requires Distinct(RenameKey, t.renames)
    ensures Touched(q.from, q.to, Map(StartOf, Filter(OfField(field), QueryReadings(t, q))))
  {
    var all := QueryReadings(t, q);
    var rows := Filter(OfField(field), all);
    QueryIsDownsampling(t, q);
    FilterKeepsOrder(ResultLt, OfField(field), all);
    forall i | 0 <= i < |rows|
      ensures rows[i].field == field
      ensures var width := BucketWidth(q.from, q.to);
              rows[i].bucket % width == 0 && q.from - width < rows[i].bucket < q.to
    {
      FilterMember(OfField(field), all, rows[i]);
      RowInRange(t, q, rows[i]);
    }
  }

  /** 97 buckets below 24 hours, 169 from there up to 7 days, and from 7 days on one more than the
      started days. */
  predicate WithinRowLimit(duration: int, n: nat) {
    if duration < DAY then n <= 97
    else if duration < 7 * DAY then n <= 169
    else n <= (duration + DAY - 1) / DAY + 1
  }

  lemma MultiplesFit(from: int, to: int, n: nat)
    requires n >= 1 && (n - 1) * BucketWidth(from, to) < to - from + BucketWidth(from, to)
    ensures WithinRowLimit(to - from, n)
  {
  }

  /** How many buckets a range can touch. */
  lemma TouchedWithinLimit(from: int, to: int, buckets: seq<int>, n: nat)
    requires Touched(from, to, buckets) && n == |buckets|
    ensures WithinRowLimit(to - from, n)
  {
    if buckets != [] {
      MultiplesSpread(BucketWidth(from, to), buckets);
      MultiplesFit(from, to, n);
    }
  }

  /** A field never gets more rows than its range can touch buckets. */
  lemma RowsPerFieldBounded(t: Tables, q: Request, field: string)
    requires Distinct(RenameKey, t.renames)
    ensures WithinRowLimit(q.to - q.from, |Filter(OfField(field), QueryReadings(t, q))|)
  {
    FieldBuckets(t, q, field);
    var rows := Filter(OfField(field), QueryReadings(t, q));
    TouchedWithinLimit(q.from, q.to, Map(StartOf, rows), |rows|);
  }
}
