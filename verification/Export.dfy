// The export handler of backend/internal/handlers/export.go: guards, the row cap, then streaming.

module Export {
  import opened FieldLists
  import opened Queries
  import opened Sequences
  import opened Sorting
  import opened Tables

  const MAX_EXPORT_ROWS: nat := 500_000
  const MAX_EXPORT_RANGE: int := 365 * DAY

  /** A from or to parameter after parsing. */
  datatype TimeParam = Missing | Malformed | At(time: int)

  datatype Params = Params(device: string, fields: string, from: TimeParam, to: TimeParam, format: string)

  datatype Status = BadRequest | CountFailed | TooManyRows | Interrupted | Complete

  /** What is written: the CSV header, or the brackets and separators of the JSON array, and rows. */
  datatype Token = Header | Open | FirstSeparator | Separator | Row(row: StreamRow) | Close

  /** The request passes every check on its parameters. */
  predicate Acceptable(p: Params) {
    && FieldList(p.fields) != []
    && p.from.At? && p.to.At? && p.from.time < p.to.time && p.to.time - p.from.time <= MAX_EXPORT_RANGE
    && p.format in {"", "csv", "json"}
  }

  function RequestOf(p: Params): Request
    requires p.from.At? && p.to.At?
  {
    Request(p.device, FieldList(p.fields), p.from.time, p.to.time)
  }

  /** The rows as JSON array elements: a separator before each but the first. */
  function Elements(rows: seq<StreamRow>): seq<Token> {
    if rows == [] then []
    else Elements(rows[..|rows| - 1]) +
         [if |rows| == 1 then FirstSeparator else Separator, Row(rows[|rows| - 1])]
  }

  function Lines(rows: seq<StreamRow>): seq<Token> {
    seq(|rows|, i requires 0 <= i < |rows| => Row(rows[i]))
  }

  function Document(format: string, rows: seq<StreamRow>): seq<Token> {
    if format == "json" then [Open] + Elements(rows) + [Close] else [Header] + Lines(rows)
  }

  /** How reading and writing go: the database fails after `delivered` rows unless that is more than
      there are, and `writable` writes succeed. A JSON document takes one write a token; a CSV document
      too, and one more for the final flush. */
  datatype Fate = Fate(delivered: nat, writable: nat)

  predicate Finishes(format: string, rows: seq<StreamRow>, fate: Fate) {
    fate.delivered > |rows| && fate.writable >= |Document(format, rows)| + if format == "json" then 0 else 1
  }

  function Min(a: nat, b: nat): nat {
    if a <= b then a else b
  }

  /** How many tokens are written: all that come before the first failure. */
  function Cut(format: string, rows: seq<StreamRow>, fate: Fate): nat {
    var read := if format == "json" then 1 + 2 * fate.delivered else 1 + fate.delivered;
    Min(fate.writable, if fate.delivered > |rows| then |Document(format, rows)| else read)
  }

  /** What is written of the document, whole or cut off. */
  function Written(format: string, rows: seq<StreamRow>, fate: Fate): seq<Token> {
    var document := Document(format, rows);
    document[..Min(|document|, Cut(format, rows, fate))]
  }

  /** Some field is named, both times are given and at most 365 days apart in this order, and the format
      is CSV, JSON or left out. */
  predicate Valid(p: Params) {
    && (exists i :: 0 <= i < |p.fields| && p.fields[i] != ',')
    && p.from.At? && p.to.At? && 0 < p.to.time - p.from.time <= 31_536_000_000_000_000
    && (p.format == "" || p.format == "csv" || p.format == "json")
  }

  lemma AcceptableIsValid(p: Params)
    ensures Acceptable(p) <==> Valid(p)
  {
    SomeName(p.fields);
  }

  /** `counted` and `streamed` are the tables the two queries see. `out` fixes one of the orders the
      database may deliver. */
  method Export(p: Params, counted: Tables, countFails: bool, streamed: Tables, fate: Fate)
    returns (status: Status, out: seq<Token>)
    ensures status.BadRequest? <==> !Valid(p)
    ensures status.CountFailed? <==> Valid(p) && countFails
    ensures Valid(p) && !countFails ==>
              var q := Request(p.device, FieldList(p.fields), p.from.time, p.to.time);
              var rows := StreamReadings(streamed, q);
              if CountReadings(counted, q) > 500_000 then status.TooManyRows?
              else if fate.delivered > |rows| && fate.writable >= (if p.format == "json" then 2 * |rows| + 2 else |rows| + 2)
              then status.Complete? && out == Document(p.format, rows)
              else status.Interrupted? && out == Written(p.format, rows, fate)
    ensures !status.Complete? && !status.Interrupted? ==> out == []
    ensures Distinct(RenameKey, streamed.renames) && counted == streamed && status.Complete? ==>
              |StreamReadings(streamed, RequestOf(p))| == CountReadings(counted, RequestOf(p)) <= 500_000
  {
    AcceptableIsValid(p);
    out := [];
    var fields := SplitFields(p.fields);
    if |fields| == 0 || !p.from.At? || !p.to.At? {
      return BadRequest, out;
    }
    if p.to.time <= p.from.time || p.to.time - p.from.time > MAX_EXPORT_RANGE {
      return BadRequest, out;
    }
    var format := if p.format == "" then "csv" else p.format;
    if format != "csv" && format != "json" {
      return BadRequest, out;
    }
    var q := Request(p.device, fields, p.from.time, p.to.time);
    if countFails {
      return CountFailed, out;
    }
    var count := CountReadings(counted, q);
    if count > MAX_EXPORT_ROWS {
      return TooManyRows, out;
    }
    if Distinct(RenameKey, streamed.renames) {
      StreamIsMatching(streamed, q);
    }
    var rows := StreamReadings(streamed, q);
    JsonEnds(rows);
    var ok: bool;
    if format == "json" {
      ok, out := StreamJson(rows, fate);
    } else {
      ok, out := StreamCsv(rows, fate);
    }
    return if ok then Complete else Interrupted, out;
  }

  method StreamCsv(rows: seq<StreamRow>, fate: Fate) returns (ok: bool, out: seq<Token>)
    ensures ok <==> Finishes("csv", rows, fate)
    ensures out == if ok then Document("csv", rows) else Written("csv", rows, fate)
  {
    ghost var document := Document("csv", rows);
    if fate.writable == 0 {
      return false, [];
    }
    out := [Header];
    for i := 0 to |rows|
      invariant i <= fate.delivered && i + 1 <= fate.writable
      invariant out == document[..i + 1]
    {
      if i == fate.delivered || i + 1 == fate.writable {
        return false, out;
      }
      out := out + [Row(rows[i])];
    }
    assert document[..|rows| + 1] == document;
    return fate.delivered > |rows| && fate.writable > |rows| + 1, out;
  }

  /** The elements come two tokens a row. */
  lemma {:induction false} ElementsAt(rows: seq<StreamRow>, i: nat)
    requires i < |rows|
    ensures |Elements(rows)| == 2 * |rows|
    ensures Elements(rows)[2 * i] == if i == 0 then FirstSeparator else Separator
    ensures Elements(rows)[2 * i + 1] == Row(rows[i])
    decreases |rows|
  {
    var n := |rows| - 1;
    if n == 0 {
      assert rows[..0] == [];
    } else {
      ElementsAt(rows[..n], if i < n then i else 0);
    }
  }

  lemma JsonAt(rows: seq<StreamRow>, i: nat)
    requires i < |rows|
    ensures var document := Document("json", rows);
            && |document| == 2 * |rows| + 2
            && document[2 * i + 1] == (if i == 0 then FirstSeparator else Separator) && document[2 * i + 2] == Row(rows[i])
  {
    ElementsAt(rows, i);
  }

  lemma JsonEnds(rows: seq<StreamRow>)
    ensures var document := Document("json", rows);
            |document| == 2 * |rows| + 2 && document[0] == Open && document[2 * |rows| + 1] == Close
  {
    if rows != [] {
      ElementsAt(rows, 0);
    }
  }

  method StreamJson(rows: seq<StreamRow>, fate: Fate) returns (ok: bool, out: seq<Token>)
    ensures ok <==> Finishes("json", rows, fate)
    ensures out == if ok then Document("json", rows) else Written("json", rows, fate)
  {
    ghost var document := Document("json", rows);
    JsonEnds(rows);
    if fate.writable == 0 {
      return false, [];
    }
    out := [Open];
    var first := true;
    for i := 0 to |rows|
      invariant i <= fate.delivered && 2 * i + 1 <= fate.writable
      invariant first <==> i == 0
      invariant out == document[..2 * i + 1]
    {
      JsonAt(rows, i);
      if i == fate.delivered || 2 * i + 1 == fate.writable {
        return false, out;
      }
      var prefix := Separator;
      if first {
        prefix := FirstSeparator;
        first := false;
      }
      out := out + [prefix];
      if 2 * i + 2 == fate.writable {
        return false, out;
      }
      out := out + [Row(rows[i])];
    }
    if fate.delivered == |rows| || fate.writable == |out| {
      return false, out;
    }
    out := out + [Close];
    assert out == document;
    return true, out;
  }

  /** The row is the document's element `i`, behind its separator. */
  predicate SeparatedRow(json: seq<Token>, i: nat, row: StreamRow) {
    2 * i + 2 < |json| && json[2 * i + 1] == (if i == 0 then FirstSeparator else Separator) && json[2 * i + 2] == Row(row)
  }

  /** A JSON document is an opening bracket, for each row a separator and the row, and a closing
      bracket. */
  lemma JsonShape(rows: seq<StreamRow>)
    ensures var json := Document("json", rows);
            && |json| == 2 * |rows| + 2 && json[0] == Open && json[2 * |rows| + 1] == Close
            && forall i :: 0 <= i < |rows| ==> SeparatedRow(json, i, rows[i])
  {
    JsonEnds(rows);
    forall i | 0 <= i < |rows|
      ensures SeparatedRow(Document("json", rows), i, rows[i])
    {
      JsonAt(rows, i);
    }
  }

  /** A CSV document is a header and a line for each row. */
  lemma CsvShape(format: string, rows: seq<StreamRow>)
    requires format != "json"
    ensures var csv := Document(format, rows);
            |csv| == |rows| + 1 && csv[0] == Header && forall i :: 0 < i < |csv| ==> csv[i] == Row(rows[i - 1])
  {
  }

  /** An interrupted document stops at the first write that fails, or behind the last row delivered. */
  lemma WrittenStops(format: string, rows: seq<StreamRow>, fate: Fate)
    ensures var document := Document(format, rows);
            var behindRows := if format == "json" then 1 + 2 * fate.delivered else 1 + fate.delivered;
            var out := Written(format, rows, fate);
            && |out| <= |document| && out == document[..|out|]
            && |out| == if fate.delivered <= |rows| && behindRows <= fate.writable then behindRows
                        else if fate.writable <= |document| then fate.writable
                        else |document|
  {
    JsonEnds(rows);
  }

  function RowsIn(out: seq<Token>): seq<StreamRow> {
    if out == [] then []
    else RowsIn(out[..|out| - 1]) + if out[|out| - 1].Row? then [out[|out| - 1].row] else []
  }

  lemma RowsInSnoc(out: seq<Token>, token: Token)
    ensures RowsIn(out + [token]) == RowsIn(out) + if token.Row? then [token.row] else []
  {
    assert (out + [token])[..|out|] == out;
  }

  lemma {:induction false} RowsOfElements(rows: seq<StreamRow>)
    ensures RowsIn([Open] + Elements(rows)) == rows
    decreases |rows|
  {
    if rows == [] {
      RowsInSnoc([], Open);
    } else {
      var n := |rows| - 1;
      var front := [Open] + Elements(rows[..n]);
      var separator := if |rows| == 1 then FirstSeparator else Separator;
      RowsOfElements(rows[..n]);
      RowsInSnoc(front, separator);
      RowsInSnoc(front + [separator], Row(rows[n]));
      assert [Open] + Elements(rows) == front + [separator] + [Row(rows[n])];
    }
  }

  lemma {:induction false} RowsOfLines(rows: seq<StreamRow>)
    ensures RowsIn([Header] + Lines(rows)) == rows
    decreases |rows|
  {
    if rows == [] {
      RowsInSnoc([], Header);
    } else {
      var n := |rows| - 1;
      RowsOfLines(rows[..n]);
      RowsInSnoc([Header] + Lines(rows[..n]), Row(rows[n]));
      assert [Header] + Lines(rows) == [Header] + Lines(rows[..n]) + [Row(rows[n])];
    }
  }

  /** Either document carries exactly the streamed rows, in order. */
  lemma DocumentCarriesRows(format: string, rows: seq<StreamRow>)
    ensures RowsIn(Document(format, rows)) == rows
  {
    if format == "json" {
      RowsOfElements(rows);
      var out := Document(format, rows);
      assert out[..|out| - 1] == [Open] + Elements(rows);
    } else {
      RowsOfLines(rows);
    }
  }

  /** Cutting tokens off the end takes rows off the end. */
  lemma {:induction false} RowsOfCut(out: seq<Token>, cut: nat)
    requires cut <= |out|
    ensures |RowsIn(out[..cut])| <= |RowsIn(out)| && RowsIn(out[..cut]) == RowsIn(out)[..|RowsIn(out[..cut])|]
    decreases |out|
  {
    if cut == |out| {
      assert out[..cut] == out;
    } else {
      RowsOfCut(out[..|out| - 1], cut);
      assert out[..|out| - 1][..cut] == out[..cut];
    }
  }

  /** An interrupted export carries the first rows of the complete one, in order. */
  lemma InterruptedCarriesPrefix(format: string, rows: seq<StreamRow>, fate: Fate)
    ensures var carried := RowsIn(Written(format, rows, fate));
            |carried| <= |rows| && carried == rows[..|carried|]
  {
    DocumentCarriesRows(format, rows);
    var document := Document(format, rows);
    RowsOfCut(document, Min(|document|, Cut(format, rows, fate)));
  }

  /** An accepted export of unchanged tables delivers each matching reading once, at most 500,000 in
      all, ordered by time and field. */
  lemma AcceptedExportBounded(p: Params, t: Tables)
    requires Valid(p) && Distinct(RenameKey, t.renames) && CountReadings(t, RequestOf(p)) <= 500_000
    ensures var rows := RowsIn(Document(p.format, StreamReadings(t, RequestOf(p))));
            |rows| == CountReadings(t, RequestOf(p)) <= 500_000 && Sorted(StreamLe, rows) &&
            multiset(rows) == multiset(Map(StreamedRow(t.renames), Matching(t, RequestOf(p))))
  {
    StreamIsMatching(t, RequestOf(p));
    DocumentCarriesRows(p.format, StreamReadings(t, RequestOf(p)));
  }
}
