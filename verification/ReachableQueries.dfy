// What the queries of backend/internal/server/store_adapter.go answer on every database state that
// transactions can reach: renames stay unique there, so nothing is left to assume.

module ReachableQueries {
  import opened Consistency
  import opened Export
  import opened Queries
  import opened Sequences
  import opened Sorting
  import opened Tables

  ghost predicate AllWellFormed(ops: seq<Op>) {
    forall i :: 0 <= i < |ops| ==> WellFormed(ops[i])
  }

  /** After any transactions, the stream delivers each matching reading once, in order, and as many
      rows as the count says. */
  lemma ReachableStreamIsMatching(ops: seq<Op>, q: Request)
    requires AllWellFormed(ops)
    ensures var t := After(ops);
            && |StreamReadings(t, q)| == CountReadings(t, q)
            && multiset(StreamReadings(t, q)) == multiset(Map(StreamedRow(t.renames), Matching(t, q)))
            && Sorted(StreamLe, StreamReadings(t, q))
  {
    ReachableConsistent(ops);
    StreamIsMatching(After(ops), q);
  }

  /** After any transactions, the downsampled rows are exactly the summaries of the non-empty cells,
      strictly ordered, and each field stays within its limit. */
  lemma ReachableDownsampling(ops: seq<Op>, q: Request)
    requires AllWellFormed(ops)
    ensures var rows := QueryReadings(After(ops), q);
            && (forall i, j :: 0 <= i < j < |rows| ==> ResultLt(rows[i], rows[j]))
            && (forall row :: row in rows <==> Summarises(After(ops), q, BucketStart(q), row))
            && (forall field :: WithinRowLimit(q.to - q.from, |Filter(OfField(field), rows)|))
  {
    var t := After(ops);
    ReachableConsistent(ops);
    QueryIsDownsampling(t, q);
    forall row
      ensures row in QueryReadings(t, q) <==> Summarises(t, q, BucketStart(q), row)
    {
      RowIsItsCell(t, q, row);
    }
    forall field
      ensures WithinRowLimit(q.to - q.from, |Filter(OfField(field), QueryReadings(t, q))|)
    {
      RowsPerFieldBounded(t, q, field);
    }
  }

  /** After any transactions, an accepted export that nothing interrupts carries each matching reading
      once, at most 500,000 in all, ordered by time and field. */
  lemma ReachableExportBounded(ops: seq<Op>, p: Params)
    requires AllWellFormed(ops) && Valid(p) && CountReadings(After(ops), RequestOf(p)) <= 500_000
    ensures var t := After(ops);
            var rows := RowsIn(Document(p.format, StreamReadings(t, RequestOf(p))));
            |rows| == CountReadings(t, RequestOf(p)) <= 500_000 && Sorted(StreamLe, rows) &&
            multiset(rows) == multiset(Map(StreamedRow(t.renames), Matching(t, RequestOf(p))))
  {
    ReachableConsistent(ops);
    AcceptedExportBounded(p, After(ops));
  }
}
