// GetReadings of backend/internal/server/store_adapter.go: the cached query, called by any number of
// handlers at once. The cache's mutex makes each lookup and each write one step; the query between
// them runs unlocked, while other callers and database writers go on.

module GetReadings {
  import opened CacheKeys
  import opened Consistency
  import opened FieldLists
  import opened KeyCollisions
  import opened Options
  import opened Queries
  import opened ReadingsCache
  import opened Sequences
  import opened Tables

  type Rows = seq<ResultRow>

  /** One caller, without interference. */
  class StoreAdapter {
    const cache: Cache<Rows>
    const format: MinuteFormat

    constructor (ttl: int, max: int, format: MinuteFormat)
      ensures fresh(cache) && cache.ttl == ttl && cache.max == max && cache.entries == map[]
      ensures this.format == format
    {
      cache := new Cache(ttl, max);
      this.format := format;
    }

    /** The query fails when the database says so, and for a NUL in a parameter, which is no TEXT. */
    method GetReadings(t: Tables, q: Request, lookupAt: int, storeAt: int, queryFails: bool) returns (r: Result<Rows>)
      modifies cache
      ensures var k := CacheKey(format, q);
              var before := old(cache.entries);
              match Lookup(before, cache.ttl, k, lookupAt)
              case Some(hit) => r == Ok(hit) && cache.entries == before
              case None =>
                var missed := AfterGet(before, cache.ttl, k, lookupAt);
                if queryFails || '\0' in q.device || exists i :: 0 <= i < |q.fields| && '\0' in q.fields[i] then r == Err && cache.entries == missed
                else r == Ok(QueryReadings(t, q)) &&
                     SetStep(missed, cache.ttl, cache.max, k, QueryReadings(t, q), storeAt, cache.entries)
    {
      var k := CacheKey(format, q);
      var hit := cache.Get(k, lookupAt);
      if hit.Some? {
        return Ok(hit.value);
      }
      if queryFails || !Clean(q) {
        return Err;
      }
      var results := Collect(QueryReadings(t, q));
      cache.Set(k, results, storeAt);
      return Ok(results);
    }
  }

  /** Appends the rows the database returns one by one. */
  method Collect(rows: Rows) returns (results: Rows)
    ensures results == rows
  {
    results := [];
    for i := 0 to |rows|
      invariant results == rows[..i]
    {
      results := results + [rows[i]];
    }
  }

  // Interleaved callers --------------------------------------------------------------------------

  /** A caller that returned rows found them in the cache at some time, or ran its own query. */
  datatype Source = Hit(at: int) | Own

  datatype Caller =
    | Arrived(q: Request)
    | Missed(q: Request)
    | Holding(q: Request, call: Call)
    | Returned(q: Request, rows: Rows, source: Source)
    | Failed(q: Request)

  /** A queryReadings call that returned, with the tables it saw. */
  datatype Call = Call(q: Request, seen: Tables, rows: Rows)

  /** The rows of a call, offered to the cache at a time. */
  datatype Offer = Offer(call: Call, at: int)

  datatype State = State(cache: Entries<Rows>, callers: seq<Caller>, calls: seq<Call>, offers: seq<Offer>, tables: Tables)

  /** `query` is what the database answers: QueryReadings. */
  datatype Config = Config(ttl: int, max: int, format: MinuteFormat, query: (Tables, Request) -> Rows)

  ghost predicate Init(s: State) {
    s.cache == map[] && s.callers == [] && s.calls == [] && s.offers == [] && s.tables == EMPTY
  }

  /** The handler passes on what it parsed from the field list; any text may come. */
  ghost predicate Arrives(s: State, q: Request, s': State) {
    FieldNames(q.fields) && s' == s.(callers := s.callers + [Arrived(q)])
  }

  ghost predicate LooksUp(c: Config, s: State, i: nat, now: int, s': State) {
    && i < |s.callers| && s.callers[i].Arrived?
    && var q := s.callers[i].q;
       var k := CacheKey(c.format, q);
       s' == s.(cache := AfterGet(s.cache, c.ttl, k, now),
                callers := s.callers[i := match Lookup(s.cache, c.ttl, k, now)
                                          case Some(rows) => Returned(q, rows, Hit(now))
                                          case None => Missed(q)])
  }

  /** The columns are TEXT, which holds no NUL: a query with a NUL in a parameter only fails. */
  ghost predicate RunsQuery(c: Config, s: State, i: nat, s': State) {
    && i < |s.callers| && s.callers[i].Missed? && Clean(s.callers[i].q)
    && var q := s.callers[i].q;
       var call := Call(q, s.tables, c.query(s.tables, q));
       s' == s.(callers := s.callers[i := Holding(q, call)], calls := s.calls + [call])
  }

  ghost predicate QueryFails(s: State, i: nat, s': State) {
    && i < |s.callers| && s.callers[i].Missed?
    && s' == s.(callers := s.callers[i := Failed(s.callers[i].q)])
  }

  ghost predicate Stores(c: Config, s: State, i: nat, now: int, s': State) {
    && i < |s.callers| && s.callers[i].Holding?
    && var q, call := s.callers[i].q, s.callers[i].call;
    && SetStep(s.cache, c.ttl, c.max, CacheKey(c.format, q), call.rows, now, s'.cache)
    && s' == s.(cache := s'.cache, callers := s.callers[i := Returned(q, call.rows, Own)], offers := s.offers + [Offer(call, now)])
  }

  /** Any transaction commits or fails, at any moment. */
  ghost predicate TablesChange(s: State, op: Op, s': State) {
    WellFormed(op) && s' == s.(tables := Apply(s.tables, op))
  }

  ghost predicate Next(c: Config, s: State, s': State) {
    || (exists q :: Arrives(s, q, s'))
    || (exists i: nat, now :: LooksUp(c, s, i, now, s'))
    || (exists i: nat :: RunsQuery(c, s, i, s'))
    || (exists i: nat :: QueryFails(s, i, s'))
    || (exists i: nat, now :: Stores(c, s, i, now, s'))
    || (exists op :: TablesChange(s, op, s'))
  }

  ghost predicate Execution(c: Config, run: seq<State>) {
    run != [] && Init(run[0]) && forall i :: 0 <= i < |run| - 1 ==> Next(c, run[i], run[i + 1])
  }

  // What every step keeps ------------------------------------------------------------------------

  /** A call that some caller's query made: it answers a NUL-free request on consistent tables. */
  ghost predicate Genuine(c: Config, call: Call) {
    call.rows == c.query(call.seen, call.q) && FieldNames(call.q.fields) && Clean(call.q) && Consistent(call.seen)
  }

  /** The entry is what was offered under this key at that time. */
  ghost predicate Offered(c: Config, offers: seq<Offer>, k: string, e: CacheEntry<Rows>) {
    exists o :: o in offers && CacheKey(c.format, o.call.q) == k && o.call.rows == e.results && o.at == e.inserted
  }

  /** Rows under this key were offered at most the time to live before `now`. */
  ghost predicate RecentlyOffered(c: Config, offers: seq<Offer>, k: string, rows: Rows, now: int) {
    exists o :: o in offers && CacheKey(c.format, o.call.q) == k && o.call.rows == rows && now - o.at <= c.ttl
  }

  ghost predicate Asked(calls: seq<Call>, q: Request, rows: Rows) {
    exists call :: call in calls && call.q == q && call.rows == rows
  }

  ghost predicate CallerInv(c: Config, s: State, caller: Caller) {
    && FieldNames(caller.q.fields)
    && (caller.Holding? ==> caller.call in s.calls && caller.call.q == caller.q)
    && (caller.Returned? ==>
          match caller.source
          case Hit(now) => RecentlyOffered(c, s.offers, CacheKey(c.format, caller.q), caller.rows, now)
          case Own => Asked(s.calls, caller.q, caller.rows))
  }

  ghost predicate Inv(c: Config, s: State) {
    && Consistent(s.tables)
    && (forall call :: call in s.calls ==> Genuine(c, call))
    && (forall o :: o in s.offers ==> o.call in s.calls)
    && (forall k :: k in s.cache ==> Offered(c, s.offers, k, s.cache[k]))
    && (forall i :: 0 <= i < |s.callers| ==> CallerInv(c, s, s.callers[i]))
  }

  /** A write adds nothing but the entry it writes. */
  lemma SetStepAddsOne<V>(m: Entries<V>, ttl: int, max: int, k: string, results: V, now: int, m': Entries<V>)
    requires SetStep(m, ttl, max, k, results, now, m')
    ensures forall j :: j in m' ==> (j == k && m'[j] == CacheEntry(results, now)) || (j in m && m'[j] == m[j])
  {
  }

  /** More calls and offers take nothing away. */
  lemma MoreHistory(c: Config, s: State, s': State, caller: Caller)
    requires CallerInv(c, s, caller)
    requires (forall call :: call in s.calls ==> call in s'.calls) && (forall o :: o in s.offers ==> o in s'.offers)
    ensures CallerInv(c, s', caller)
  {
  }

  /** The callers other than `i` are as they were. */
  ghost predicate OthersStay(s: State, i: nat, s': State) {
    && |s'.callers| == |s.callers|
    && (forall j :: 0 <= j < |s.callers| && j != i ==> s'.callers[j] == s.callers[j])
    && (forall call :: call in s.calls ==> call in s'.calls) && (forall o :: o in s.offers ==> o in s'.offers)
  }

  lemma OthersKeepInv(c: Config, s: State, i: nat, s': State)
    requires Inv(c, s) && OthersStay(s, i, s')
    ensures forall j :: 0 <= j < |s.callers| && j != i ==> CallerInv(c, s', s'.callers[j])
  {
    forall j | 0 <= j < |s.callers| && j != i
      ensures CallerInv(c, s', s'.callers[j])
    {
      MoreHistory(c, s, s', s.callers[j]);
    }
  }

  lemma LooksUpKeepsInv(c: Config, s: State, i: nat, now: int, s': State)
    requires Inv(c, s) && LooksUp(c, s, i, now, s')
    ensures Inv(c, s')
  {
    OthersKeepInv(c, s, i, s');
    var k := CacheKey(c.format, s.callers[i].q);
    if Lookup(s.cache, c.ttl, k, now).Some? {
      assert Offered(c, s.offers, k, s.cache[k]);
      assert RecentlyOffered(c, s'.offers, k, s.cache[k].results, now);
    }
    assert CallerInv(c, s', s'.callers[i]);
  }

  lemma RunsQueryKeepsInv(c: Config, s: State, i: nat, s': State)
    requires Inv(c, s) && RunsQuery(c, s, i, s')
    ensures Inv(c, s')
  {
    OthersKeepInv(c, s, i, s');
    assert CallerInv(c, s', s'.callers[i]);
  }

  lemma StoresKeepsInv(c: Config, s: State, i: nat, now: int, s': State)
    requires Inv(c, s) && Stores(c, s, i, now, s')
    ensures Inv(c, s')
  {
    OthersKeepInv(c, s, i, s');
    var call := s.callers[i].call;
    var k := CacheKey(c.format, s.callers[i].q);
    SetStepAddsOne(s.cache, c.ttl, c.max, k, call.rows, now, s'.cache);
    assert Offer(call, now) in s'.offers;
    assert Offered(c, s'.offers, k, CacheEntry(call.rows, now));
    forall j | j in s'.cache
      ensures Offered(c, s'.offers, j, s'.cache[j])
    {
      if j in s.cache && s'.cache[j] == s.cache[j] {
        assert Offered(c, s.offers, j, s.cache[j]);
      }
    }
    assert Asked(s'.calls, call.q, call.rows);
    assert CallerInv(c, s', s'.callers[i]);
  }

  lemma QueryFailsKeepsInv(c: Config, s: State, i: nat, s': State)
    requires Inv(c, s) && QueryFails(s, i, s')
    ensures Inv(c, s')
  {
    OthersKeepInv(c, s, i, s');
  }

  lemma ArrivesKeepsInv(c: Config, s: State, q: Request, s': State)
    requires Inv(c, s) && Arrives(s, q, s')
    ensures Inv(c, s')
  {
    forall j | 0 <= j < |s.callers|
      ensures CallerInv(c, s', s'.callers[j])
    {
      MoreHistory(c, s, s', s.callers[j]);
    }
  }

  lemma TablesChangeKeepsInv(c: Config, s: State, op: Op, s': State)
    requires Inv(c, s) && TablesChange(s, op, s')
    ensures Inv(c, s')
  {
    ApplyConsistent(s.tables, op);
    forall j | 0 <= j < |s.callers|
      ensures CallerInv(c, s', s'.callers[j])
    {
      MoreHistory(c, s, s', s.callers[j]);
    }
  }

  lemma NextKeepsInv(c: Config, s: State, s': State)
    requires Inv(c, s) && Next(c, s, s')
    ensures Inv(c, s')
  {
    if i: nat, now :| LooksUp(c, s, i, now, s') {
      LooksUpKeepsInv(c, s, i, now, s');
    } else if i: nat :| RunsQuery(c, s, i, s') {
      RunsQueryKeepsInv(c, s, i, s');
    } else if i: nat, now :| Stores(c, s, i, now, s') {
      StoresKeepsInv(c, s, i, now, s');
    } else if i: nat :| QueryFails(s, i, s') {
      QueryFailsKeepsInv(c, s, i, s');
    } else if q :| Arrives(s, q, s') {
      ArrivesKeepsInv(c, s, q, s');
    } else {
      var op :| TablesChange(s, op, s');
      TablesChangeKeepsInv(c, s, op, s');
    }
  }

  lemma {:induction false} ExecutionKeepsInv(c: Config, run: seq<State>)
    requires Execution(c, run)
    ensures Inv(c, run[|run| - 1])
    decreases |run|
  {
    if |run| > 1 {
      var n := |run| - 1;
      ExecutionKeepsInv(c, run[..n]);
      assert Next(c, run[n - 1], run[n]);
      NextKeepsInv(c, run[n - 1], run[n]);
    }
  }

  // What a caller gets ---------------------------------------------------------------------------

  /** Whatever the interleaving, the rows a caller returns are the answer of a queryReadings call for
      the same device, the same fields and the same minutes; a request with a NUL gets no rows. */
  lemma ReturnedRowsAnswerTheSameMinutes(c: Config, run: seq<State>, i: nat) returns (call: Call)
    requires Execution(c, run) && Faithful(c.format)
    requires i < |run[|run| - 1].callers| && run[|run| - 1].callers[i].Returned?
    ensures var s := run[|run| - 1];
            && call in s.calls && Consistent(call.seen)
            && s.callers[i].rows == c.query(call.seen, call.q)
            && SameUpToMinutes(call.q, s.callers[i].q)
            && call.q.device == s.callers[i].q.device && call.q.fields == s.callers[i].q.fields
            && call.q.from / 60_000_000_000 == s.callers[i].q.from / 60_000_000_000
            && call.q.to / 60_000_000_000 == s.callers[i].q.to / 60_000_000_000
            && Clean(s.callers[i].q)
  {
    var s := run[|run| - 1];
    var caller := s.callers[i];
    ExecutionKeepsInv(c, run);
    if caller.source.Hit? {
      var o := HitsAreRecent(c, run, i);
      call := o.call;
    } else {
      call :| call in s.calls && call.q == caller.q && call.rows == caller.rows;
    }
    assert Genuine(c, call);
  }

  /** Rows found in the cache were offered to it at most the time to live before, by a call for the same
      device, fields and minutes. */
  lemma HitsAreRecent(c: Config, run: seq<State>, i: nat) returns (o: Offer)
    requires Execution(c, run) && Faithful(c.format)
    requires i < |run[|run| - 1].callers| && run[|run| - 1].callers[i].Returned? && run[|run| - 1].callers[i].source.Hit?
    ensures var s := run[|run| - 1];
            && o in s.offers && o.call in s.calls && s.callers[i].rows == o.call.rows
            && SameUpToMinutes(o.call.q, s.callers[i].q)
            && o.at >= s.callers[i].source.at - c.ttl
  {
    var s := run[|run| - 1];
    var caller := s.callers[i];
    ExecutionKeepsInv(c, run);
    assert CallerInv(c, s, caller);
    o :| o in s.offers && CacheKey(c.format, o.call.q) == CacheKey(c.format, caller.q) && o.call.rows == caller.rows &&
         caller.source.at - o.at <= c.ttl;
    assert Genuine(c, o.call);
    CleanKeyDeterminesRequest(c.format, o.call.q, caller.q);
  }

  /** Rows that were not found in the cache answer the request itself. */
  lemma MissesAreExact(c: Config, run: seq<State>, i: nat) returns (call: Call)
    requires Execution(c, run)
    requires i < |run[|run| - 1].callers| && run[|run| - 1].callers[i].Returned? && run[|run| - 1].callers[i].source.Own?
    ensures var s := run[|run| - 1];
            call in s.calls && call.q == s.callers[i].q && s.callers[i].rows == c.query(call.seen, call.q)
  {
    var s := run[|run| - 1];
    ExecutionKeepsInv(c, run);
    assert CallerInv(c, s, s.callers[i]);
    call :| call in s.calls && call.q == s.callers[i].q && call.rows == s.callers[i].rows;
    assert Genuine(c, call);
  }

  /** So the cached answer covers nearly the requested time, in buckets of the requested width. */
  lemma ReturnedRowsAreCloseToFresh(c: Config, run: seq<State>, i: nat) returns (call: Call)
    requires Execution(c, run) && Faithful(c.format)
    requires i < |run[|run| - 1].callers| && run[|run| - 1].callers[i].Returned?
    ensures var s := run[|run| - 1];
            var q := s.callers[i].q;
            && call in s.calls
            && s.callers[i].rows == c.query(call.seen, call.q)
            && -2 * MINUTE < (call.q.to - call.q.from) - (q.to - q.from) < 2 * MINUTE
            && (AMinuteFrom(q.to - q.from, DAY) && AMinuteFrom(q.to - q.from, 7 * DAY) ==>
                  BucketWidth(call.q.from, call.q.to) == BucketWidth(q.from, q.to))
  {
    call := ReturnedRowsAnswerTheSameMinutes(c, run, i);
    var q := run[|run| - 1].callers[i].q;
    SameMinutesAreClose(call.q, q);
    if AMinuteFrom(q.to - q.from, DAY) && AMinuteFrom(q.to - q.from, 7 * DAY) {
      FarFromSwitchKeepsWidth(call.q, q);
    }
  }

  /** Well inside the requested range a cached answer holds exactly the rows of a fresh one, for the
      tables its query saw. */
  lemma ReturnedInnerRowsAreFresh(c: Config, run: seq<State>, i: nat) returns (call: Call)
    requires Execution(c, run) && Faithful(c.format)
    requires forall t, q :: c.query(t, q) == QueryReadings(t, q)
    requires i < |run[|run| - 1].callers| && run[|run| - 1].callers[i].Returned?
    ensures var s := run[|run| - 1];
            var q := s.callers[i].q;
            && call in s.calls
            && (BucketWidth(call.q.from, call.q.to) == BucketWidth(q.from, q.to) ==>
                  forall row: ResultRow :: WellInside(q, row.bucket) ==>
                    (row in s.callers[i].rows <==> row in QueryReadings(call.seen, q)))
  {
    call := ReturnedRowsAnswerTheSameMinutes(c, run, i);
    var q := run[|run| - 1].callers[i].q;
    if BucketWidth(call.q.from, call.q.to) == BucketWidth(q.from, q.to) {
      forall row: ResultRow | WellInside(q, row.bucket)
        ensures row in QueryReadings(call.seen, call.q) <==> row in QueryReadings(call.seen, q)
      {
        InnerRowsAgree(call.seen, call.q, q, row);
      }
    }
  }
}
