// The bounded time-to-live cache of backend/internal/server/readings_cache.go and its refinement of an
// unbounded memo.

module ReadingsCache {
  import opened Options

  datatype CacheEntry<+V> = CacheEntry(results: V, inserted: int)

  type Entries<V> = map<string, CacheEntry<V>>

  predicate Expired<V>(e: CacheEntry<V>, ttl: int, now: int) {
    now - e.inserted > ttl
  }

  /** The entries a write keeps before it makes room. */
  function Live<V>(m: Entries<V>, ttl: int, now: int): Entries<V> {
    map k | k in m && !Expired(m[k], ttl, now) :: m[k]
  }

  predicate IsOldest<V>(m: Entries<V>, k: string) {
    k in m && forall j :: j in m ==> m[k].inserted <= m[j].inserted
  }

  function Lookup<V>(m: Entries<V>, ttl: int, k: string, now: int): (hit: Option<V>)
    ensures hit == if k in m && now - m[k].inserted <= ttl then Some(m[k].results) else None
  {
    if k in m && !Expired(m[k], ttl, now) then Some(m[k].results) else None
  }

  /** A read drops the entry it finds expired. */
  function AfterGet<V>(m: Entries<V>, ttl: int, k: string, now: int): Entries<V> {
    if k in m && Expired(m[k], ttl, now) then m - {k} else m
  }

  /** A write drops expired entries, then one oldest entry when the cache is full. Among several
      oldest entries Go's map order decides, so any of them may go. */
  ghost predicate SetStep<V>(m: Entries<V>, ttl: int, max: int, k: string, results: V, now: int, m': Entries<V>) {
    var live := Live(m, ttl, now);
    var entry := CacheEntry(results, now);
    if ttl <= 0 then m' == m
    else if |live| < max || live == map[] then m' == live[k := entry]
    else exists oldest :: IsOldest(live, oldest) && m' == (live - {oldest})[k := entry]
  }

  class Cache<V> {
    const ttl: int
    const max: int
    var entries: Entries<V>

    constructor (ttl: int, max: int)
      ensures this.ttl == ttl && this.max == max && entries == map[]
    {
      this.ttl, this.max, entries := ttl, max, map[];
    }

    method Get(k: string, now: int) returns (hit: Option<V>)
      modifies this
      ensures hit == Lookup(old(entries), ttl, k, now)
      ensures entries == AfterGet(old(entries), ttl, k, now)
      ensures hit.Some? <==> k in old(entries) && now - old(entries)[k].inserted <= ttl
      ensures hit.Some? ==> hit.value == old(entries)[k].results
      ensures entries == if hit.Some? then old(entries) else old(entries) - {k}
    {
      if k !in entries {
        return None;
      }
      var e := entries[k];
      if now - e.inserted > ttl {
        entries := entries - {k};
        return None;
      }
      return Some(e.results);
    }

    method DropExpired(now: int)
      modifies this
      ensures entries == Live(old(entries), ttl, now)
    {
      var pending := entries.Keys;
      while pending != {}
        invariant pending <= entries.Keys <= old(entries).Keys
        invariant forall k :: k in entries ==> entries[k] == old(entries)[k]
        invariant forall k :: k in old(entries) && k !in pending ==>
                                (k in entries <==> !Expired(old(entries)[k], ttl, now))
        decreases |pending|
      {
        var k :| k in pending;
        if now - entries[k].inserted > ttl {
          entries := entries - {k};
        }
        pending := pending - {k};
      }
    }

    method FindOldest() returns (oldestKey: string)
      ensures entries != map[] ==> IsOldest(entries, oldestKey)
      ensures entries == map[] ==> oldestKey == ""
    {
      oldestKey := "";
      var oldest := 0;
      var first := true;
      var pending := entries.Keys;
      while pending != {}
        invariant pending <= entries.Keys
        invariant first <==> pending == entries.Keys
        invariant first ==> oldestKey == ""
        invariant !first ==> oldestKey in entries && oldest == entries[oldestKey].inserted
        invariant !first ==> forall k :: k in entries && k !in pending ==> oldest <= entries[k].inserted
        decreases |pending|
      {
        var k :| k in pending;
        if first || entries[k].inserted < oldest {
          oldestKey, oldest, first := k, entries[k].inserted, false;
        }
        pending := pending - {k};
      }
      assert entries != map[] ==> entries.Keys != {} by {
        if entries.Keys == {} {
          assert entries == map[];
        }
      }
    }

    method Set(k: string, results: V, now: int)
      modifies this
      ensures SetStep(old(entries), ttl, max, k, results, now, entries)
      ensures ttl <= 0 ==> entries == old(entries)
      ensures ttl > 0 ==>
                && k in entries && entries[k] == CacheEntry(results, now)
                && (forall j :: j in entries && j != k ==>
                      j in old(entries) && entries[j] == old(entries)[j] && now - old(entries)[j].inserted <= ttl)
    {
      if ttl <= 0 {
        return;
      }
      DropExpired(now);
      ghost var live := entries;
      if |entries| >= max {
        var oldestKey := FindOldest();
        entries := entries - {oldestKey};
        assert live == map[] ==> entries == live;
      }
      entries := entries[k := CacheEntry(results, now)];
    }
  }

  // ---------------------------------------------------------------------------------------------
  // Runs of the cache beside the memo
  // ---------------------------------------------------------------------------------------------

  datatype CacheOp<+V> = Get(key: string, now: int) | Set(key: string, results: V, now: int)

  ghost predicate Step<V>(ttl: int, max: int, m: Entries<V>, op: CacheOp<V>, m': Entries<V>) {
    match op
    case Get(k, now) => m' == AfterGet(m, ttl, k, now)
    case Set(k, results, now) => SetStep(m, ttl, max, k, results, now, m')
  }

  /** `states[i]` is what the cache holds before operation `i`. */
  ghost predicate Run<V>(ttl: int, max: int, ops: seq<CacheOp<V>>, states: seq<Entries<V>>) {
    && |states| == |ops| + 1
    && states[0] == map[]
    && forall i :: 0 <= i < |ops| ==> Step(ttl, max, states[i], ops[i], states[i + 1])
  }

  /** The memo remembers the latest write of every key for ever. */
  function Memo<V>(ttl: int, ops: seq<CacheOp<V>>): Entries<V> {
    if ops == [] then map[]
    else
      var before := Memo(ttl, ops[..|ops| - 1]);
      match ops[|ops| - 1]
      case Get(_, _) => before
      case Set(k, results, now) => if ttl <= 0 then before else before[k := CacheEntry(results, now)]
  }

  /** How many writes followed the latest write of `k`. */
  function SetsSince<V>(ops: seq<CacheOp<V>>, k: string): nat {
    if ops == [] then 0
    else
      var before := SetsSince(ops[..|ops| - 1], k);
      match ops[|ops| - 1]
      case Get(_, _) => before
      case Set(j, _, _) => if j == k then 0 else before + 1
  }

  /** The clock never goes back, and no two writes happen at the same instant. */
  ghost predicate Clocked<V>(ops: seq<CacheOp<V>>) {
    forall i, j :: 0 <= i < j < |ops| ==>
      ops[i].now <= ops[j].now && (ops[i].Set? && ops[j].Set? ==> ops[i].now < ops[j].now)
  }

  /** Everything cached is what the memo holds. */
  lemma {:induction false} CacheWithinMemo<V>(ttl: int, max: int, ops: seq<CacheOp<V>>, states: seq<Entries<V>>)
    requires Run(ttl, max, ops, states)
    ensures forall k :: k in states[|ops|] ==> k in Memo(ttl, ops) && states[|ops|][k] == Memo(ttl, ops)[k]
    decreases |ops|
  {
    if ops == [] {
    } else {
      var n := |ops| - 1;
      CacheWithinMemo(ttl, max, ops[..n], states[..n + 1]);
      assert Step(ttl, max, states[n], ops[n], states[n + 1]);
    }
  }

  /** The cache never holds more than `max` entries, or one entry when `max` is not positive. */
  lemma {:induction false} CacheBounded<V>(ttl: int, max: int, ops: seq<CacheOp<V>>, states: seq<Entries<V>>)
    requires Run(ttl, max, ops, states)
    ensures |states[|ops|]| <= if max < 1 then 1 else max
    decreases |ops|
  {
    if ops == [] {
    } else {
      var n := |ops| - 1;
      CacheBounded(ttl, max, ops[..n], states[..n + 1]);
      StepBounded(ttl, max, states[n], ops[n], states[n + 1]);
    }
  }

  lemma SubmapSize<V>(small: Entries<V>, big: Entries<V>)
    requires small.Keys <= big.Keys
    ensures |small| <= |big|
  {
    KeysSize(small.Keys, big.Keys);
    assert |small| == |small.Keys| && |big| == |big.Keys|;
  }

  lemma {:induction false} KeysSize(small: set<string>, big: set<string>)
    requires small <= big
    ensures |small| <= |big|
    decreases small
  {
    if small == {} {
    } else {
      var k :| k in small;
      KeysSize(small - {k}, big - {k});
    }
  }

  lemma StepBounded<V>(ttl: int, max: int, m: Entries<V>, op: CacheOp<V>, m': Entries<V>)
    requires Step(ttl, max, m, op, m')
    requires |m| <= if max < 1 then 1 else max
    ensures |m'| <= if max < 1 then 1 else max
  {
    match op
    case Get(k, now) => SubmapSize(m', m);
    case Set(k, results, now) =>
      if ttl > 0 {
        var live := Live(m, ttl, now);
        SubmapSize(live, m);
        var entry := CacheEntry(results, now);
        if |live| < max || live == map[] {
          AddSize(live, k, entry);
        } else {
          var oldest :| IsOldest(live, oldest) && m' == (live - {oldest})[k := entry];
          assert (live - {oldest}).Keys == live.Keys - {oldest};
          assert |live.Keys| == |live|;
          AddSize(live - {oldest}, k, entry);
        }
      }
  }

  lemma AddSize<V>(m: Entries<V>, k: string, e: CacheEntry<V>)
    ensures |m[k := e]| <= |m| + 1
  {
  }

  /** A hit returns the results of the latest write of that key, made at most `ttl` ago. */
  lemma HitComesFromMemo<V>(ttl: int, max: int, ops: seq<CacheOp<V>>, states: seq<Entries<V>>, k: string, now: int)
    requires Run(ttl, max, ops, states)
    requires Lookup(states[|ops|], ttl, k, now).Some?
    ensures Lookup(states[|ops|], ttl, k, now) == Lookup(Memo(ttl, ops), ttl, k, now)
    ensures now - Memo(ttl, ops)[k].inserted <= ttl
  {
    CacheWithinMemo(ttl, max, ops, states);
  }

  /** Some write happened at time `t`. */
  ghost predicate WrittenAt<V>(ops: seq<CacheOp<V>>, t: int) {
    exists i :: 0 <= i < |ops| && ops[i].Set? && ops[i].now == t
  }

  lemma EarlierWrite<V>(ops: seq<CacheOp<V>>, t: int)
    requires ops != [] && Clocked(ops) && WrittenAt(ops[..|ops| - 1], t)
    ensures WrittenAt(ops, t)
    ensures ops[|ops| - 1].Set? ==> t < ops[|ops| - 1].now
  {
  }

  /** Every entry was written, and no two at the same time. */
  ghost predicate DistinctWrites<V>(ops: seq<CacheOp<V>>, memo: Entries<V>) {
    && (forall k :: k in memo ==> WrittenAt(ops, memo[k].inserted))
    && (forall j, k :: j in memo && k in memo && j != k ==> memo[j].inserted != memo[k].inserted)
  }

  /** Memo entries carry the times of distinct writes. */
  lemma {:induction false} MemoTimes<V>(ttl: int, ops: seq<CacheOp<V>>)
    requires Clocked(ops)
    ensures DistinctWrites(ops, Memo(ttl, ops))
    ensures ttl <= 0 ==> Memo(ttl, ops) == map[]
    decreases |ops|
  {
    if ops == [] {
    } else {
      var n := |ops| - 1;
      MemoTimes(ttl, ops[..n]);
      var before := Memo(ttl, ops[..n]);
      forall k | k in before
        ensures WrittenAt(ops, before[k].inserted)
        ensures ops[n].Set? ==> before[k].inserted < ops[n].now
      {
        EarlierWrite(ops, before[k].inserted);
      }
    }
  }

  function YoungerKeys<V>(memo: Entries<V>, k: string): set<string>
    requires k in memo
  {
    set j | j in memo && memo[j].inserted > memo[k].inserted
  }

  /** Every younger key was written after `k`. */
  lemma {:induction false} YoungerKeysCounted<V>(ttl: int, ops: seq<CacheOp<V>>, k: string)
    requires Clocked(ops) && k in Memo(ttl, ops)
    ensures |YoungerKeys(Memo(ttl, ops), k)| <= SetsSince(ops, k)
    decreases |ops|
  {
    var n := |ops| - 1;
    var before, memo := Memo(ttl, ops[..n]), Memo(ttl, ops);
    MemoTimes(ttl, ops[..n]);
    match ops[n]
    case Get(_, _) => YoungerKeysCounted(ttl, ops[..n], k);
    case Set(j, results, now) =>
      forall i | i in before
        ensures before[i].inserted < now
      {
        EarlierWrite(ops, before[i].inserted);
      }
      if j == k {
        assert YoungerKeys(memo, k) == {};
      } else {
        YoungerKeysCounted(ttl, ops[..n], k);
        assert YoungerKeys(memo, k) <= YoungerKeys(before, k) + {j};
        KeysSize(YoungerKeys(memo, k), YoungerKeys(before, k) + {j});
      }
  }

  /** A live key stays cached until `max` writes have followed its own. */
  lemma {:induction false} LiveKeyStays<V>(ttl: int, max: int, ops: seq<CacheOp<V>>, states: seq<Entries<V>>, k: string, now: int)
    requires Run(ttl, max, ops, states) && Clocked(ops)
    requires forall i :: 0 <= i < |ops| ==> ops[i].now <= now
    requires k in Memo(ttl, ops) && now - Memo(ttl, ops)[k].inserted <= ttl
    requires SetsSince(ops, k) < max
    ensures k in states[|ops|]
    decreases |ops|
  {
    var n := |ops| - 1;
    var prefix := ops[..n];
    var m, m' := states[n], states[n + 1];
    assert Step(ttl, max, m, ops[n], m');
    MemoTimes(ttl, ops);
    if ops[n].Set? && ops[n].key == k {
    } else {
      LiveKeyStays(ttl, max, prefix, states[..n + 1], k, now);
      CacheWithinMemo(ttl, max, prefix, states[..n + 1]);
      if ops[n].Set? && ttl > 0 {
        var live := Live(m, ttl, ops[n].now);
        assert k in live;
        if !(|live| < max || live == map[]) && IsOldest(live, k) {
          OthersAreYounger(ttl, prefix, live, k);
        }
      }
    }
  }

  /** When `k` is the oldest entry, all the others were written after it. */
  lemma OthersAreYounger<V>(ttl: int, ops: seq<CacheOp<V>>, live: Entries<V>, k: string)
    requires Clocked(ops) && k in Memo(ttl, ops) && IsOldest(live, k)
    requires forall j :: j in live ==> j in Memo(ttl, ops) && live[j] == Memo(ttl, ops)[j]
    ensures |live| <= SetsSince(ops, k) + 1
  {
    MemoTimes(ttl, ops);
    YoungerKeysCounted(ttl, ops, k);
    assert live.Keys - {k} <= YoungerKeys(Memo(ttl, ops), k);
    KeysSize(live.Keys - {k}, YoungerKeys(Memo(ttl, ops), k));
    assert |live.Keys| == |live|;
  }

  /** Below `max` later writes, the bounded cache answers exactly like the unbounded memo. */
  lemma CacheAgreesWithMemo<V>(ttl: int, max: int, ops: seq<CacheOp<V>>, states: seq<Entries<V>>, k: string, now: int)
    requires Run(ttl, max, ops, states) && Clocked(ops)
    requires forall i :: 0 <= i < |ops| ==> ops[i].now <= now
    requires SetsSince(ops, k) < max
    ensures Lookup(states[|ops|], ttl, k, now) == Lookup(Memo(ttl, ops), ttl, k, now)
  {
    CacheWithinMemo(ttl, max, ops, states);
    if k in Memo(ttl, ops) && !Expired(Memo(ttl, ops)[k], ttl, now) {
      LiveKeyStays(ttl, max, ops, states, k, now);
    }
  }

  /** Operation `i` wrote `k`, and no later one did. */
  predicate LastWrites<V>(ops: seq<CacheOp<V>>, i: nat, k: string) {
    i < |ops| && ops[i].Set? && ops[i].key == k && forall j :: i < j < |ops| && ops[j].Set? ==> ops[j].key != k
  }

  /** The memo holds exactly the last write of each key. */
  lemma {:induction false} MemoIsLastWrite<V>(ttl: int, ops: seq<CacheOp<V>>, k: string)
    requires ttl > 0
    ensures k in Memo(ttl, ops) <==> exists i: nat :: LastWrites(ops, i, k)
    ensures forall i: nat :: LastWrites(ops, i, k) ==>
              k in Memo(ttl, ops) && Memo(ttl, ops)[k] == CacheEntry(ops[i].results, ops[i].now)
    decreases |ops|
  {
    if ops != [] {
      var n := |ops| - 1;
      MemoIsLastWrite(ttl, ops[..n], k);
      forall i: nat | LastWrites(ops, i, k)
        ensures k in Memo(ttl, ops) && Memo(ttl, ops)[k] == CacheEntry(ops[i].results, ops[i].now)
      {
        if i < n {
          LastWritesBefore(ops, i, k);
        }
      }
      if k in Memo(ttl, ops) {
        if ops[n].Set? && ops[n].key == k {
          assert LastWrites(ops, n, k);
        } else {
          var i: nat :| LastWrites(ops[..n], i, k);
          assert LastWrites(ops, i, k);
        }
      }
    }
  }

  lemma LastWritesBefore<V>(ops: seq<CacheOp<V>>, i: nat, k: string)
    requires LastWrites(ops, i, k) && i < |ops| - 1
    ensures LastWrites(ops[..|ops| - 1], i, k)
    ensures ops[|ops| - 1].Set? ==> ops[|ops| - 1].key != k
  {
    assert forall j :: 0 <= j < |ops| - 1 ==> ops[..|ops| - 1][j] == ops[j];
  }

  /** How many of the operations from place `i` on are writes. */
  function WritesFrom<V>(ops: seq<CacheOp<V>>, i: nat): nat
    requires i <= |ops|
    decreases |ops| - i
  {
    if i == |ops| then 0 else (if ops[i].Set? then 1 else 0) + WritesFrom(ops, i + 1)
  }

  lemma {:induction false} WritesFromSnoc<V>(ops: seq<CacheOp<V>>, i: nat)
    requires i < |ops|
    ensures WritesFrom(ops, i) == WritesFrom(ops[..|ops| - 1], i) + if ops[|ops| - 1].Set? then 1 else 0
    decreases |ops| - i
  {
    if i < |ops| - 1 {
      WritesFromSnoc(ops, i + 1);
    }
  }

  lemma {:induction false} SetsSinceLastWrite<V>(ops: seq<CacheOp<V>>, i: nat, k: string)
    requires LastWrites(ops, i, k)
    ensures SetsSince(ops, k) == WritesFrom(ops, i + 1)
    decreases |ops|
  {
    if i < |ops| - 1 {
      LastWritesBefore(ops, i, k);
      SetsSinceLastWrite(ops[..|ops| - 1], i, k);
      WritesFromSnoc(ops, i + 1);
    }
  }

  /** What a read finds, told by the writes: results of the last write of the key, at most the time to
      live old. And with write times that increase, such results are found unless `max` writes followed. */
  lemma ReadFindsLastWrite<V>(ttl: int, max: int, ops: seq<CacheOp<V>>, states: seq<Entries<V>>, k: string, now: int)
    requires ttl > 0 && Run(ttl, max, ops, states)
    ensures Lookup(states[|ops|], ttl, k, now).Some? ==>
              exists i: nat :: LastWrites(ops, i, k) && now - ops[i].now <= ttl &&
                               Lookup(states[|ops|], ttl, k, now) == Some(ops[i].results)
    ensures Clocked(ops) && (forall i :: 0 <= i < |ops| ==> ops[i].now <= now) ==>
              forall i: nat :: LastWrites(ops, i, k) && now - ops[i].now <= ttl && WritesFrom(ops, i + 1) < max ==>
                Lookup(states[|ops|], ttl, k, now) == Some(ops[i].results)
  {
    MemoIsLastWrite(ttl, ops, k);
    if Lookup(states[|ops|], ttl, k, now).Some? {
      HitComesFromMemo(ttl, max, ops, states, k, now);
      var i: nat :| LastWrites(ops, i, k);
      assert now - ops[i].now <= ttl;
    }
    if Clocked(ops) && forall i :: 0 <= i < |ops| ==> ops[i].now <= now {
      forall i: nat | LastWrites(ops, i, k) && now - ops[i].now <= ttl && WritesFrom(ops, i + 1) < max
        ensures Lookup(states[|ops|], ttl, k, now) == Some(ops[i].results)
      {
        SetsSinceLastWrite(ops, i, k);
        CacheAgreesWithMemo(ttl, max, ops, states, k, now);
      }
    }
  }

  /** The count is tight: `max` other live keys, each written less than `max` writes ago, fill the
      cache and leave no room for `k`. */
  lemma FullTurnoverEvicts<V>(ttl: int, max: int, ops: seq<CacheOp<V>>, states: seq<Entries<V>>, others: set<string>, k: string, now: int)
    requires max >= 1 && Run(ttl, max, ops, states) && Clocked(ops)
    requires forall i :: 0 <= i < |ops| ==> ops[i].now <= now
    requires |others| >= max && k !in others
    requires forall j :: j in others ==>
               j in Memo(ttl, ops) && now - Memo(ttl, ops)[j].inserted <= ttl && SetsSince(ops, j) < max
    ensures k !in states[|ops|]
  {
    var m := states[|ops|];
    forall j | j in others
      ensures j in m
    {
      LiveKeyStays(ttl, max, ops, states, j, now);
    }
    CacheBounded(ttl, max, ops, states);
    if k in m {
      KeysSize(others + {k}, m.Keys);
    }
  }

  /** Writing a key that is already cached still makes room: at capacity another entry goes, and the
      cache ends up with one entry less than before. */
  lemma OverwriteAtCapacityEvicts<V>(m: Entries<V>, ttl: int, max: int, k: string, results: V, now: int, m': Entries<V>)
    requires ttl > 0 && SetStep(m, ttl, max, k, results, now, m')
    requires k in Live(m, ttl, now)
    ensures var live := Live(m, ttl, now);
            if live.Keys <= m'.Keys then m'.Keys == live.Keys
            else |m'| == |live| - 1 && |live| >= max && exists j :: j != k && IsOldest(live, j) && m'.Keys == live.Keys - {j}
  {
    var live := Live(m, ttl, now);
    if |live| >= max {
      var oldest :| IsOldest(live, oldest) && m' == (live - {oldest})[k := CacheEntry(results, now)];
      TradedKeys(live, oldest, k, CacheEntry(results, now));
    }
  }

  lemma TradedKeys<V>(live: Entries<V>, oldest: string, k: string, entry: CacheEntry<V>)
    requires k in live && oldest in live
    ensures var m' := (live - {oldest})[k := entry];
            if oldest == k then m'.Keys == live.Keys else m'.Keys == live.Keys - {oldest} && |m'| == |live| - 1
  {
    var m' := (live - {oldest})[k := entry];
    assert m'.Keys == live.Keys - {oldest} + {k};
    assert |m'.Keys| == |m'| && |live.Keys| == |live|;
    if oldest != k {
      assert m'.Keys == live.Keys - {oldest};
    }
  }

  /** Rewriting a live key is sure to keep all live keys exactly when there is room or every other live
      entry is younger than its own. Among equally old entries map order may pick another one. */
  lemma OverwriteKeepsOthersExactlyWhen<V>(m: Entries<V>, ttl: int, max: int, k: string, results: V, now: int)
    requires ttl > 0 && k in Live(m, ttl, now)
    ensures (forall m' :: SetStep(m, ttl, max, k, results, now, m') ==> Live(m, ttl, now).Keys <= m'.Keys) <==>
            |Live(m, ttl, now)| < max || forall j :: j in Live(m, ttl, now) && IsOldest(Live(m, ttl, now), j) ==> j == k
  {
    var live := Live(m, ttl, now);
    var entry := CacheEntry(results, now);
    if |live| >= max && exists j :: j in live && IsOldest(live, j) && j != k {
      var j :| j in live && IsOldest(live, j) && j != k;
      var m' := (live - {j})[k := entry];
      assert SetStep(m, ttl, max, k, results, now, m');
      assert j !in m'.Keys;
    }
  }

  /** A run that gets there: two keys fill the cache, the second is rewritten, and the first is gone
      although it is alive and the memo has it. */
  lemma OverwriteLosesAnotherKey<V>(first: V, second: V, third: V) returns (ops: seq<CacheOp<V>>, states: seq<Entries<V>>)
    ensures ops == [Set("a", first, 0), Set("b", second, 1), Set("b", third, 2)]
    ensures Run(10, 2, ops, states) && Clocked(ops)
    ensures Lookup(states[2], 10, "a", 2) == Some(first) && Lookup(states[3], 10, "a", 2) == None
    ensures Lookup(Memo(10, ops), 10, "a", 2) == Some(first)
  {
    ops := [Set("a", first, 0), Set("b", second, 1), Set("b", third, 2)];
    var a, b, b' := CacheEntry(first, 0), CacheEntry(second, 1), CacheEntry(third, 2);
    states := [map[], map["a" := a], map["a" := a, "b" := b], map["b" := b']];
    assert Live(states[0], 10, 0) == map[];
    assert Live(states[1], 10, 1) == states[1];
    assert Live(states[2], 10, 2) == states[2];
    assert IsOldest(states[2], "a");
    assert states[3] == (states[2] - {"a"})["b" := b'];
    assert Step(10, 2, states[2], ops[2], states[3]);
    assert ops[..2] == [ops[0], ops[1]] && ops[..2][..1] == [ops[0]];
    assert Memo(10, [ops[0]]) == map["a" := a];
    assert Memo(10, ops[..2]) == map["a" := a, "b" := b];
  }
}
