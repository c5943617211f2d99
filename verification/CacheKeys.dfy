// The cache key of backend/internal/server/readings_cache.go: how much of a request it determines.

module CacheKeys {
  import opened FieldLists
  import opened Queries
  import opened Sequences
  import opened Tables
  import opened Text

  const NUL: char := '\0'

  /** A time format, applied to whole minutes. */
  type MinuteFormat = int -> string

  /** What section 5.6 of RFC 3339 gives: different minutes look different, and no NUL appears. */
  ghost predicate Faithful(format: MinuteFormat) {
    && (forall m, n :: format(m) == format(n) ==> m == n)
    && (forall m :: NUL !in format(m))
  }

  /** Truncation to the minute. */
  function Minute(t: int): int {
    t / MINUTE
  }

  /** What comes before the two times. */
  function Subject(q: Request): string {
    q.device + [NUL] + Join(q.fields, ',')
  }

  function CacheKey(format: MinuteFormat, q: Request): string {
    Subject(q) + [NUL] + format(Minute(q.from)) + [NUL] + format(Minute(q.to))
  }

  /** What a key keeps of a request. */
  predicate SameUpToMinutes(p: Request, q: Request) {
    && p.device == q.device && p.fields == q.fields
    && Minute(p.from) == Minute(q.from) && Minute(p.to) == Minute(q.to)
  }

  predicate NulFree(names: seq<string>) {
    forall i :: 0 <= i < |names| ==> NUL !in names[i]
  }

  /** No NUL in the device or in a field name. */
  predicate Clean(q: Request) {
    NUL !in q.device && NulFree(q.fields)
  }

  /** The part after the last separator is determined by the whole. */
  lemma LastPart(a: string, x: string, b: string, y: string, sep: char)
    requires a + [sep] + x == b + [sep] + y
    requires sep !in x && sep !in y
    ensures a == b && x == y
  {
    var s := a + [sep] + x;
    assert s == b + [sep] + y;
    NoLaterSeparator(a, x, sep);
    NoLaterSeparator(b, y, sep);
    assert s[|a|] == sep && s[|b|] == sep;
    assert s[..|a|] == a && s[..|b|] == b;
    assert s[|a| + 1..] == x && s[|b| + 1..] == y;
  }

  lemma NoLaterSeparator(a: string, x: string, sep: char)
    requires sep !in x
    ensures var s := a + [sep] + x; forall k :: |a| < k < |s| ==> s[k] != sep
  {
  }

  lemma {:induction false} JoinNulFree(names: seq<string>)
    requires NulFree(names)
    ensures NUL !in Join(names, ',')
  {
    if |names| > 1 {
      JoinNulFree(names[1..]);
    }
  }

  /** Requests with the same key have the same minutes; the rest of the key is the subject. */
  lemma SameKeySameSubject(format: MinuteFormat, p: Request, q: Request)
    requires Faithful(format)
    ensures CacheKey(format, p) == CacheKey(format, q) <==>
            Subject(p) == Subject(q) && Minute(p.from) == Minute(q.from) && Minute(p.to) == Minute(q.to)
  {
    if CacheKey(format, p) == CacheKey(format, q) {
      var a, b := Subject(p) + [NUL] + format(Minute(p.from)), Subject(q) + [NUL] + format(Minute(q.from));
      LastPart(a, format(Minute(p.to)), b, format(Minute(q.to)), NUL);
      LastPart(Subject(p), format(Minute(p.from)), Subject(q), format(Minute(q.from)), NUL);
    }
  }

  /** Cache keys are injective up to the minute when field names are non-empty, comma-free and
      NUL-free. The device id may hold any character. */
  lemma KeyDeterminesRequest(format: MinuteFormat, p: Request, q: Request)
    requires Faithful(format)
    requires FieldNames(p.fields) && FieldNames(q.fields) && NulFree(p.fields) && NulFree(q.fields)
    ensures CacheKey(format, p) == CacheKey(format, q) <==> SameUpToMinutes(p, q)
    ensures CacheKey(format, p) == CacheKey(format, q) <==>
            p.device == q.device && p.fields == q.fields &&
            p.from / 60_000_000_000 == q.from / 60_000_000_000 && p.to / 60_000_000_000 == q.to / 60_000_000_000
  {
    SameKeySameSubject(format, p, q);
    if Subject(p) == Subject(q) {
      JoinNulFree(p.fields);
      JoinNulFree(q.fields);
      LastPart(p.device, Join(p.fields, ','), q.device, Join(q.fields, ','), NUL);
      FieldListOfJoin(p.fields);
      FieldListOfJoin(q.fields);
    }
  }

  /** Field lists the handler parses meet the first two conditions; only a NUL is left to exclude. */
  lemma ParsedFieldsDetermined(format: MinuteFormat, p: Request, q: Request, pList: string, qList: string)
    requires Faithful(format) && p.fields == FieldList(pList) && q.fields == FieldList(qList)
    requires NUL !in pList && NUL !in qList
    ensures CacheKey(format, p) == CacheKey(format, q) <==> SameUpToMinutes(p, q)
  {
    FieldListIsFieldNames(pList);
    FieldListIsFieldNames(qList);
    FieldListNulFree(pList);
    FieldListNulFree(qList);
    KeyDeterminesRequest(format, p, q);
  }

  lemma FieldListNulFree(s: string)
    requires NUL !in s
    ensures NulFree(FieldList(s))
  {
    PiecesNulFree(s);
    var fields := FieldList(s);
    forall i | 0 <= i < |fields|
      ensures NUL !in fields[i]
    {
      FilterMember(NonEmpty, Split(s, ','), fields[i]);
    }
  }

  lemma {:induction false} PiecesNulFree(s: string)
    requires NUL !in s
    ensures NulFree(Split(s, ','))
  {
    if s == "" {
    } else {
      PiecesNulFree(s[1..]);
    }
  }

  /** A NUL inside a field name breaks the key: the device id and the field list run together. */
  lemma NulCollides(format: MinuteFormat, from: int, to: int)
    ensures CacheKey(format, Request("a", ["b\0c"], from, to)) == CacheKey(format, Request("a\0b", ["c"], from, to))
  {
  }

  // How close two requests with one key are ------------------------------------------------------

  /** Requests that share device, fields and minutes: each end differs by less than a minute, the
      durations by less than two. */
  lemma SameMinutesAreClose(p: Request, q: Request)
    requires SameUpToMinutes(p, q)
    ensures -MINUTE < p.from - q.from < MINUTE && -MINUTE < p.to - q.to < MINUTE
    ensures -2 * MINUTE < (p.to - p.from) - (q.to - q.from) < 2 * MINUTE
  {
    MinuteBounds(p.from);
    MinuteBounds(q.from);
    MinuteBounds(p.to);
    MinuteBounds(q.to);
  }

  lemma MinuteBounds(t: int)
    ensures Minute(t) * MINUTE <= t < Minute(t) * MINUTE + MINUTE
  {
  }

  /** Whole minutes between the ends of a request. */
  function MinutesApart(q: Request): int {
    Minute(q.to) - Minute(q.from)
  }

  const MINUTES_PER_DAY: int := 1440

  /** The minutes of a request fix its bucket width exactly when they are not 24 hours or 7 days apart:
      only then can two requests with the same minutes use different widths. */
  lemma MinutesDecideWidth(p: Request)
    ensures (forall q :: SameUpToMinutes(p, q) ==> BucketWidth(q.from, q.to) == BucketWidth(p.from, p.to)) <==>
            MinutesApart(p) != MINUTES_PER_DAY && MinutesApart(p) != 7 * MINUTES_PER_DAY
  {
    var apart := MinutesApart(p);
    if apart == MINUTES_PER_DAY || apart == 7 * MINUTES_PER_DAY {
      var wide := p.(from := Minute(p.from) * MINUTE, to := Minute(p.to) * MINUTE);
      var narrow := p.(from := Minute(p.from) * MINUTE + MINUTE - 1, to := Minute(p.to) * MINUTE);
      assert SameUpToMinutes(p, wide) && SameUpToMinutes(p, narrow);
      assert wide.to - wide.from == apart * MINUTE;
      assert BucketWidth(wide.from, wide.to) != BucketWidth(narrow.from, narrow.to);
    } else {
      forall q | SameUpToMinutes(p, q)
        ensures BucketWidth(q.from, q.to) == BucketWidth(p.from, p.to)
      {
        DurationNearMinutes(p);
        DurationNearMinutes(q);
      }
    }
  }

  lemma DurationNearMinutes(q: Request)
    ensures (MinutesApart(q) - 1) * MINUTE < q.to - q.from < (MinutesApart(q) + 1) * MINUTE
  {
    MinuteBounds(q.from);
    MinuteBounds(q.to);
  }

  predicate AMinuteFrom(duration: int, edge: int) {
    duration <= edge - MINUTE || duration >= edge + MINUTE
  }

  /** So a requested duration one minute or more away from 24 hours and from 7 days is safe. */
  lemma FarFromSwitchKeepsWidth(p: Request, q: Request)
    requires SameUpToMinutes(p, q)
    requires AMinuteFrom(q.to - q.from, DAY) && AMinuteFrom(q.to - q.from, 7 * DAY)
    ensures BucketWidth(p.from, p.to) == BucketWidth(q.from, q.to)
  {
  }

  // What the two answers have in common ----------------------------------------------------------

  /** The bucket lies at least a minute inside the requested range. */
  predicate WellInside(q: Request, bucket: int) {
    q.from + MINUTE <= bucket && bucket + BucketWidth(q.from, q.to) + MINUTE <= q.to
  }

  /** Two requests with the same minutes and the same width see the same readings well inside. */
  lemma InnerCellsAgree(t: Tables, p: Request, q: Request, bucket: int, field: string)
    requires SameUpToMinutes(p, q) && BucketWidth(p.from, p.to) == BucketWidth(q.from, q.to)
    requires WellInside(q, bucket)
    ensures Cell(t, p, BucketStart(p), bucket, field) == Cell(t, q, BucketStart(q), bucket, field)
  {
    SameMinutesAreClose(p, q);
    forall r | r in t.readings
      ensures InCell(p, BucketStart(p), bucket, field)(r) == InCell(q, BucketStart(q), bucket, field)(r)
    {
      BucketBounds(p, r.ts);
      BucketBounds(q, r.ts);
    }
    FilterAgrees(InCell(p, BucketStart(p), bucket, field), InCell(q, BucketStart(q), bucket, field), t.readings);
  }

  /** So they get the same rows there, down to mean, extremes and labels. */
  lemma InnerRowsAgree(t: Tables, p: Request, q: Request, row: ResultRow)
    requires Distinct(RenameKey, t.renames)
    requires SameUpToMinutes(p, q) && BucketWidth(p.from, p.to) == BucketWidth(q.from, q.to)
    requires WellInside(q, row.bucket)
    ensures row in QueryReadings(t, p) <==> row in QueryReadings(t, q)
  {
    InnerCellsAgree(t, p, q, row.bucket, row.field);
    RowIsItsCell(t, p, row);
    RowIsItsCell(t, q, row);
  }
}
