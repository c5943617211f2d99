// What the queries of backend/internal/server/store_adapter.go return, read off the stored rows and the
// request alone.

module QueryResults {
  import opened Options
  import opened Queries
  import opened Sequences
  import opened Sorting
  import opened Tables
  import opened Text

  /** A reading the request asks for: one of its fields, strictly between its times. */
  predicate Asked(q: Request, r: Reading) {
    r.device == q.device && r.field in q.fields && q.from < r.ts && r.ts < q.to
  }

  /** The name and unit shown for a reading: those of the rename of its field on its device, with the raw
      field name and no unit for what is not set. */
  ghost predicate Labels(t: Tables, r: Reading, name: string, unit: string) {
    if exists m :: m in t.renames && m.device == r.device && m.rawField == r.field then
      exists m :: m in t.renames && m.device == r.device && m.rawField == r.field &&
                  (m.displayName == Some(name) || (m.displayName == None && name == r.field)) &&
                  (m.unit == Some(unit) || (m.unit == None && unit == ""))
    else name == r.field && unit == ""
  }

  lemma SelectedIsAsked(q: Request, r: Reading)
    ensures Selected(q)(r) <==> Asked(q, r)
  {
  }

  lemma LabelIsLabels(t: Tables, r: Reading)
    ensures Labels(t, r, DisplayName(Label(t.renames)(r)).GetOr(r.field), Unit(Label(t.renames)(r)).GetOr(""))
  {
    var partners := Filter(Renames(r), t.renames);
    FilterMembers(Renames(r), t.renames);
    if partners == [] {
      forall m | m in t.renames
        ensures !(m.device == r.device && m.rawField == r.field)
      {
        assert m !in partners;
      }
    } else {
      assert partners[0] in partners;
    }
  }

  // Streaming ------------------------------------------------------------------------------------

  ghost predicate ShowsReading(t: Tables, row: StreamRow, r: Reading) {
    row.ts == r.ts && row.field == r.field && row.value == r.value && Labels(t, r, row.displayName, row.unit)
  }

  lemma StreamedRowShows(t: Tables, r: Reading)
    ensures ShowsReading(t, StreamedRow(t.renames)(r), r)
  {
    LabelIsLabels(t, r);
  }

  /** The stream shows each reading asked for exactly once, ordered by time and then field name; the
      count is the number of those readings. */
  lemma StreamIsExact(t: Tables, q: Request) returns (places: seq<nat>)
    requires Distinct(RenameKey, t.renames)
    ensures |places| == |StreamReadings(t, q)| == CountReadings(t, q)
    ensures forall k, l :: 0 <= k < l < |places| ==> places[k] != places[l]
    ensures forall i: nat :: i in places <==> i < |t.readings| && Asked(q, t.readings[i])
    ensures forall k :: 0 <= k < |places| ==>
              places[k] < |t.readings| && ShowsReading(t, StreamReadings(t, q)[k], t.readings[places[k]])
    ensures var rows := StreamReadings(t, q);
            forall k, l :: 0 <= k < l < |rows| ==>
              rows[k].ts < rows[l].ts || (rows[k].ts == rows[l].ts && TextLe(rows[k].field, rows[l].field))
  {
    var matching := Matching(t, q);
    var shown := Map(StreamedRow(t.renames), matching);
    StreamIsMatching(t, q);
    var kept := KeptPlaces(Selected(q), t.readings);
    var order := MatchedPlaces(StreamReadings(t, q), shown);
    places := Composed(kept, order);
    forall i: nat
      ensures i in places <==> i < |t.readings| && Asked(q, t.readings[i])
    {
      ComposedMember(kept, order, i);
    }
    forall k | 0 <= k < |places|
      ensures places[k] < |t.readings| && ShowsReading(t, StreamReadings(t, q)[k], t.readings[places[k]])
    {
      StreamedRowShows(t, matching[order[k]]);
    }
  }

  function Composed(kept: seq<nat>, order: seq<nat>): (places: seq<nat>)
    requires forall k :: 0 <= k < |order| ==> order[k] < |kept|
    ensures |places| == |order| && forall k :: 0 <= k < |order| ==> places[k] == kept[order[k]]
  {
    seq(|order|, k requires 0 <= k < |order| => kept[order[k]])
  }

  /** Reordering all places misses none. */
  lemma ComposedMember(kept: seq<nat>, order: seq<nat>, i: nat)
    requires |order| == |kept| && forall k :: 0 <= k < |order| ==> order[k] < |kept|
    requires forall k, l :: 0 <= k < l < |order| ==> order[k] != order[l]
    ensures i in Composed(kept, order) <==> i in kept
  {
    if i in kept {
      var p :| 0 <= p < |kept| && kept[p] == i;
      EveryPlaceOccurs(order, |kept|, p);
      var k :| 0 <= k < |order| && order[k] == p;
      assert Composed(kept, order)[k] == i;
    }
  }

  /** As many different numbers below `n` as there are, so each occurs. */
  lemma EveryPlaceOccurs(order: seq<nat>, n: nat, p: nat)
    requires |order| == n && (forall k :: 0 <= k < |order| ==> order[k] < n) && p < n
    requires forall k, l :: 0 <= k < l < |order| ==> order[k] != order[l]
    ensures p in order
  {
    if p !in order {
      TooMany(order, Below(n) - {p});
    }
  }

  function Below(n: nat): (numbers: set<nat>)
    ensures |numbers| == n && forall i: nat :: i in numbers <==> i < n
  {
    if n == 0 then {} else Below(n - 1) + {n - 1}
  }

  lemma {:induction false} TooMany(order: seq<nat>, among: set<nat>)
    requires (forall k :: 0 <= k < |order| ==> order[k] in among) && forall k, l :: 0 <= k < l < |order| ==> order[k] != order[l]
    ensures |order| <= |among|
    decreases |order|
  {
    if order != [] {
      TooMany(order[1..], among - {order[0]});
    }
  }

  // Downsampling ---------------------------------------------------------------------------------

  /** Quarter hours below 24 hours, hours below seven days, and days from there on. */
  function Width(q: Request): int {
    if q.to - q.from < 86_400_000_000_000 then 900_000_000_000
    else if q.to - q.from < 604_800_000_000_000 then 3_600_000_000_000
    else 86_400_000_000_000
  }

  /** The bucket starts on a multiple of the width and holds the time. */
  predicate InBucket(q: Request, bucket: int, ts: int) {
    bucket % Width(q) == 0 && bucket <= ts < bucket + Width(q)
  }

  lemma BucketHolds(q: Request, bucket: int, ts: int)
    ensures BucketStart(q)(ts) == bucket <==> InBucket(q, bucket, ts)
  {
    var start := BucketStart(q)(ts);
    BucketBounds(q, ts);
    assert BucketWidth(q.from, q.to) == Width(q);
    if InBucket(q, bucket, ts) && start != bucket {
      if start < bucket {
        NextMultiple(Width(q), start, bucket);
      } else {
        NextMultiple(Width(q), bucket, start);
      }
    }
  }

  /** These are the places of the readings asked for in the bucket and field of the row. */
  ghost predicate PlacesOf(t: Tables, q: Request, row: ResultRow, places: seq<nat>) {
    && places != [] && (forall k, l :: 0 <= k < l < |places| ==> places[k] < places[l])
    && (forall i: nat :: i in places <==>
          i < |t.readings| && Asked(q, t.readings[i]) && t.readings[i].field == row.field && InBucket(q, row.bucket, t.readings[i].ts))
    && (forall k :: 0 <= k < |places| ==> places[k] < |t.readings|)
  }

  function ValuesAt(t: Tables, places: seq<nat>): (values: seq<real>)
    requires forall k :: 0 <= k < |places| ==> places[k] < |t.readings|
  {
    seq(|places|, k requires 0 <= k < |places| => t.readings[places[k]].value)
  }

  /** The row gives the mean, the least and the greatest value of the readings at these places. */
  ghost predicate Averages(t: Tables, row: ResultRow, places: seq<nat>)
    requires forall k :: 0 <= k < |places| ==> places[k] < |t.readings|
  {
    var values := ValuesAt(t, places);
    && row.value * (|places| as real) == Sum(values)
    && row.minValue in values && row.maxValue in values
    && (forall k :: 0 <= k < |values| ==> row.minValue <= values[k] <= row.maxValue)
  }

  lemma CellPlaces(t: Tables, q: Request, row: ResultRow) returns (places: seq<nat>)
    requires Cell(t, q, BucketStart(q), row.bucket, row.field) != []
    ensures PlacesOf(t, q, row, places)
    ensures var cell := Cell(t, q, BucketStart(q), row.bucket, row.field);
            |places| == |cell| && forall k :: 0 <= k < |places| ==> cell[k] == t.readings[places[k]]
  {
    var inCell := InCell(q, BucketStart(q), row.bucket, row.field);
    places := KeptPlaces(inCell, t.readings);
    forall i: nat | i < |t.readings|
      ensures inCell(t.readings[i]) <==>
              Asked(q, t.readings[i]) && t.readings[i].field == row.field && InBucket(q, row.bucket, t.readings[i].ts)
    {
      BucketHolds(q, row.bucket, t.readings[i].ts);
    }
  }

  lemma SummaryAverages(t: Tables, q: Request, row: ResultRow) returns (places: seq<nat>)
    requires Summarises(t, q, BucketStart(q), row)
    ensures PlacesOf(t, q, row, places) && Averages(t, row, places)
  {
    var cell := Cell(t, q, BucketStart(q), row.bucket, row.field);
    places := CellPlaces(t, q, row);
    CellAverages(t, row, cell, places);
  }

  lemma CellAverages(t: Tables, row: ResultRow, cell: seq<Reading>, places: seq<nat>)
    requires Aggregates(row, Map(Value, cell))
    requires |places| == |cell| && forall k :: 0 <= k < |places| ==> places[k] < |t.readings| && cell[k] == t.readings[places[k]]
    ensures Averages(t, row, places)
  {
    SameValues(t, cell, places);
    AggregateValues(row, ValuesAt(t, places));
  }

  lemma SameValues(t: Tables, cell: seq<Reading>, places: seq<nat>)
    requires |places| == |cell| && forall k :: 0 <= k < |places| ==> places[k] < |t.readings| && cell[k] == t.readings[places[k]]
    ensures Map(Value, cell) == ValuesAt(t, places)
  {
  }

  /** The row carries the labels of every reading it stands for. */
  lemma SummaryLabels(t: Tables, q: Request, row: ResultRow, r: Reading)
    requires Summarises(t, q, BucketStart(q), row)
    requires r in t.readings && Asked(q, r) && r.field == row.field && InBucket(q, row.bucket, r.ts)
    ensures Labels(t, r, row.displayName, row.unit)
  {
    BucketHolds(q, row.bucket, r.ts);
    MatchingMember(t, q, r);
    CellMember(t, q, BucketStart(q), row.bucket, row.field, r);
    LabelIsLabels(t, r);
  }

  lemma AggregateValues(row: ResultRow, values: seq<real>)
    requires Aggregates(row, values)
    ensures row.value * (|values| as real) == Sum(values) && row.minValue in values && row.maxValue in values
    ensures forall k :: 0 <= k < |values| ==> row.minValue <= values[k] <= row.maxValue
  {
    forall k | 0 <= k < |values|
      ensures row.minValue <= values[k] <= row.maxValue
    {
      assert values[k] in values;
    }
  }

  lemma AskedHasRow(t: Tables, q: Request, r: Reading)
    requires Distinct(RenameKey, t.renames) && r in t.readings && Asked(q, r)
    ensures exists row :: row in QueryReadings(t, q) && row.field == r.field && InBucket(q, row.bucket, r.ts)
  {
    var rows := QueryReadings(t, q);
    QueryIsDownsampling(t, q);
    MatchingMember(t, q, r);
    assert HasRow(rows, BucketStart(q)(r.ts), r.field);
    var i :| 0 <= i < |rows| && CellKey(rows[i]) == (BucketStart(q)(r.ts), r.field);
    BucketHolds(q, rows[i].bucket, r.ts);
    assert rows[i] in rows;
  }

  lemma RowsAscend(t: Tables, q: Request)
    requires Distinct(RenameKey, t.renames)
    ensures var rows := QueryReadings(t, q);
            forall i, j :: 0 <= i < j < |rows| ==>
              rows[i].bucket < rows[j].bucket ||
              (rows[i].bucket == rows[j].bucket && rows[i].field != rows[j].field && TextLe(rows[i].field, rows[j].field))
  {
    var rows := QueryReadings(t, q);
    QueryIsDownsampling(t, q);
    forall i, j | 0 <= i < j < |rows|
      ensures rows[i].bucket < rows[j].bucket ||
              (rows[i].bucket == rows[j].bucket && rows[i].field != rows[j].field && TextLe(rows[i].field, rows[j].field))
    {
      assert ResultLt(rows[i], rows[j]);
    }
  }

  /** Every reading asked for has its row, every row has such a reading and averages all of them under
      their labels, and the rows are strictly ordered by bucket and then field name. */
  lemma QueryIsExact(t: Tables, q: Request)
    requires Distinct(RenameKey, t.renames)
    ensures forall r :: r in t.readings && Asked(q, r) ==>
              exists row :: row in QueryReadings(t, q) && row.field == r.field && InBucket(q, row.bucket, r.ts)
    ensures forall row :: row in QueryReadings(t, q) ==>
              row.field in q.fields && exists places :: PlacesOf(t, q, row, places) && Averages(t, row, places)
    ensures forall row, r :: row in QueryReadings(t, q) && r in t.readings && Asked(q, r) && r.field == row.field && InBucket(q, row.bucket, r.ts) ==>
              Labels(t, r, row.displayName, row.unit)
    ensures var rows := QueryReadings(t, q);
            forall i, j :: 0 <= i < j < |rows| ==>
              rows[i].bucket < rows[j].bucket ||
              (rows[i].bucket == rows[j].bucket && rows[i].field != rows[j].field && TextLe(rows[i].field, rows[j].field))
  {
    RowsAscend(t, q);
    forall r | r in t.readings && Asked(q, r)
      ensures exists row :: row in QueryReadings(t, q) && row.field == r.field && InBucket(q, row.bucket, r.ts)
    {
      AskedHasRow(t, q, r);
    }
    forall row | row in QueryReadings(t, q)
      ensures row.field in q.fields && exists places :: PlacesOf(t, q, row, places) && Averages(t, row, places)
      ensures Summarises(t, q, BucketStart(q), row)
    {
      RowIsItsCell(t, q, row);
      var places := SummaryAverages(t, q, row);
      assert places[0] in places;
    }
    forall row, r | row in QueryReadings(t, q) && r in t.readings && Asked(q, r) && r.field == row.field && InBucket(q, row.bucket, r.ts)
      ensures Labels(t, r, row.displayName, row.unit)
    {
      SummaryLabels(t, q, row, r);
    }
  }

  /** A field has at most 97 rows below 24 hours, 169 below seven days, and from there on one more than
      the days begun. */
  lemma FieldRowsBounded(t: Tables, q: Request, field: string, places: seq<nat>)
    requires Distinct(RenameKey, t.renames)
    requires forall k, l :: 0 <= k < l < |places| ==> places[k] < places[l]
    requires forall k :: 0 <= k < |places| ==> places[k] < |QueryReadings(t, q)| && QueryReadings(t, q)[places[k]].field == field
    ensures if q.to - q.from < 86_400_000_000_000 then |places| <= 97
            else if q.to - q.from < 604_800_000_000_000 then |places| <= 169
            else |places| <= (q.to - q.from + 86_399_999_999_999) / 86_400_000_000_000 + 1
  {
    var rows := QueryReadings(t, q);
    QueryIsDownsampling(t, q);
    var buckets := seq(|places|, k requires 0 <= k < |places| => rows[places[k]].bucket);
    forall k, l | 0 <= k < l < |places|
      ensures buckets[k] < buckets[l]
    {
      assert ResultLt(rows[places[k]], rows[places[l]]);
    }
    forall k | 0 <= k < |places|
      ensures var width := BucketWidth(q.from, q.to);
              buckets[k] % width == 0 && q.from - width < buckets[k] < q.to
    {
      RowInRange(t, q, rows[places[k]]);
    }
    TouchedWithinLimit(q.from, q.to, buckets, |places|);
  }
}
