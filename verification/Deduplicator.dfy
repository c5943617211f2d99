// The circular duplicate detector of backend/internal/mqtt/dedup.go, proved to refine a plain log of
// the messages accepted since the latest reset, and what that log means over whole runs.

module Dedup {
  import opened Fnv

  /** A ring slot. The zero value marks an empty slot; a key of zero never matches. */
  datatype Entry = Entry(key: uint64, at: int)

  const EMPTY := Entry(0, 0)

  datatype Event = Arrive(key: uint64, at: int) | Reset

  // ---------------------------------------------------------------------------------------------
  // The log the ring refines
  // ---------------------------------------------------------------------------------------------

  /** An entry that makes a message with key `key` at time `now` a duplicate. */
  predicate Matches(e: Entry, ttl: int, key: uint64, now: int) {
    e.key != 0 && e.key == key && now - e.at < ttl
  }

  /** Index of the oldest log entry among the last `size`. */
  function WindowStart(size: nat, log: seq<Entry>): (start: nat)
    ensures start <= |log|
  {
    if |log| < size then 0 else |log| - size
  }

  /** One of the last `size` accepted messages has this key and is younger than `ttl`. */
  ghost predicate Seen(size: nat, ttl: int, log: seq<Entry>, key: uint64, now: int) {
    exists p :: WindowStart(size, log) <= p < |log| && Matches(log[p], ttl, key, now)
  }

  /** A rule that tells from the log whether a message is a duplicate. */
  type Rule = (seq<Entry>, uint64, int) -> bool

  /** The rule of this detector. */
  ghost function Window(size: nat, ttl: int): Rule {
    (log: seq<Entry>, key: uint64, now: int) => Seen(size, ttl, log, key, now)
  }

  /** The log after one event: a reset forgets everything, a message is appended unless seen. */
  ghost function Next(rule: Rule, log: seq<Entry>, event: Event): seq<Entry> {
    match event
    case Reset => []
    case Arrive(key, at) => if rule(log, key, at) then log else log + [Entry(key, at)]
  }

  // ---------------------------------------------------------------------------------------------
  // The ring
  // ---------------------------------------------------------------------------------------------

  /** The position `steps` moves forward from `cursor` on a ring of `size` slots. */
  function Forward(size: nat, cursor: nat, steps: nat): (slot: nat)
    requires cursor < size && steps < size
    ensures slot < size
  {
    if cursor + steps < size then cursor + steps else cursor + steps - size
  }

  /** What the slot `steps` ahead of the cursor holds: the log's last `size` entries, oldest first,
      behind as many empty slots as are missing. */
  function WindowAt(size: nat, log: seq<Entry>, steps: nat): Entry
    requires steps < size
  {
    if |log| + steps >= size then log[|log| + steps - size] else EMPTY
  }

  class Deduplicator {
    const maxSize: nat
    const ttl: int
    var slots: array<Entry>
    var cursor: nat
    ghost var log: seq<Entry>

    ghost predicate Valid()
      reads this, slots
    {
      && slots.Length == maxSize
      && cursor < maxSize
      && forall steps :: 0 <= steps < maxSize ==>
           slots[Forward(maxSize, cursor, steps)] == WindowAt(maxSize, log, steps)
    }

    constructor (maxSize: nat, ttl: int)
      requires maxSize >= 1
      ensures Valid() && fresh(slots)
      ensures this.maxSize == maxSize && this.ttl == ttl && log == []
    {
      this.maxSize, this.ttl := maxSize, ttl;
      slots := new Entry[maxSize](_ => EMPTY);
      cursor, log := 0, [];
    }

    /** Reports whether the message was seen recently and records it when it was not. */
    method IsDuplicate(device: Bytes, payload: Bytes, now: int) returns (duplicate: bool)
      requires Valid()
      modifies this, slots
      ensures Valid() && slots == old(slots)
      ensures duplicate <==> Seen(maxSize, ttl, old(log), Key(device, payload), now)
      ensures log == Next(Window(maxSize, ttl), old(log), Arrive(Key(device, payload), now))
      ensures var key := Key(device, payload);
              && (duplicate <==>
                    key != 0 &&
                    exists p :: 0 <= p < |old(log)| && p >= |old(log)| - maxSize && old(log)[p].key == key && now - old(log)[p].at < ttl)
              && log == if duplicate then old(log) else old(log) + [Entry(key, now)]
      ensures !duplicate ==>
                old(slots[cursor]) ==
                if |old(log)| < maxSize then EMPTY else old(log)[|old(log)| - maxSize]
    {
      var key := Key(device, payload);
      var current := cursor;
      for i := 0 to maxSize
        invariant i < maxSize ==> current == Forward(maxSize, cursor, i)
        invariant forall j :: 0 <= j < i ==> !Matches(slots[Forward(maxSize, cursor, j)], ttl, key, now)
      {
        assert slots[current] == WindowAt(maxSize, log, i);
        if Matches(slots[current], ttl, key, now) {
          assert Matches(log[|log| + i - maxSize], ttl, key, now);
          return true;
        }
        current := if current + 1 == maxSize then 0 else current + 1;
      }
      assert !Seen(maxSize, ttl, log, key, now) by {
        forall p | WindowStart(maxSize, log) <= p < |log|
          ensures !Matches(log[p], ttl, key, now)
        {
          var steps := p + maxSize - |log|;
          assert slots[Forward(maxSize, cursor, steps)] == WindowAt(maxSize, log, steps) == log[p];
        }
      }
      assert slots[Forward(maxSize, cursor, 0)] == WindowAt(maxSize, log, 0);
      Insert(Entry(key, now));
      duplicate := false;
    }

    /** Overwrites the slot under the cursor and moves the cursor on. */
    method Insert(entry: Entry)
      requires Valid()
      modifies this, slots
      ensures Valid() && slots == old(slots)
      ensures log == old(log) + [entry]
    {
      slots[cursor] := entry;
      ghost var before := cursor;
      cursor := if cursor + 1 == maxSize then 0 else cursor + 1;
      log := log + [entry];
      forall steps | 0 <= steps < maxSize
        ensures slots[Forward(maxSize, cursor, steps)] == WindowAt(maxSize, log, steps)
      {
        if steps + 1 < maxSize {
          assert Forward(maxSize, cursor, steps) == Forward(maxSize, before, steps + 1);
          assert old(slots[Forward(maxSize, cursor, steps + 1)]) == WindowAt(maxSize, old(log), steps + 1);
        } else {
          assert Forward(maxSize, cursor, steps) == before;
        }
      }
    }

    /** Empties every slot. The cursor stays where it is. */
    method Reset()
      requires Valid()
      modifies this, slots
      ensures Valid() && slots == old(slots) && cursor == old(cursor)
      ensures log == []
      ensures forall i :: 0 <= i < maxSize ==> slots[i] == Entry(0, 0)
    {
      var current := cursor;
      for i := 0 to maxSize
        invariant slots == old(slots) && cursor == old(cursor) && slots.Length == maxSize
        invariant i < maxSize ==> current == Forward(maxSize, cursor, i)
        invariant forall j :: 0 <= j < i ==> slots[Forward(maxSize, cursor, j)] == EMPTY
      {
        slots[current] := EMPTY;
        current := if current + 1 == maxSize then 0 else current + 1;
      }
      log := [];
      forall i | 0 <= i < maxSize
        ensures slots[i] == EMPTY
      {
        var steps := if i >= cursor then i - cursor else i + maxSize - cursor;
        assert Forward(maxSize, cursor, steps) == i;
      }
    }
  }

  /** Read backwards from its cursor, the ring shows the latest accepted messages first and then
      empty slots. */
  lemma ReadBackwards(d: Deduplicator, k: nat)
    requires d.Valid() && k < d.maxSize
    ensures d.slots[if k < d.cursor then d.cursor - 1 - k else d.cursor + d.maxSize - 1 - k] ==
            if k < |d.log| then d.log[|d.log| - 1 - k] else EMPTY
  {
    assert d.slots[Forward(d.maxSize, d.cursor, d.maxSize - 1 - k)] == WindowAt(d.maxSize, d.log, d.maxSize - 1 - k);
  }

  // ---------------------------------------------------------------------------------------------
  // Whole runs
  // ---------------------------------------------------------------------------------------------

  /** The log after the first `n` events. */
  ghost function LogAfter(rule: Rule, events: seq<Event>, n: nat): seq<Entry>
    requires n <= |events|
  {
    if n == 0 then [] else Next(rule, LogAfter(rule, events, n - 1), events[n - 1])
  }

  /** Event `i` is a message that was not reported as a duplicate. */
  ghost predicate Accepted(rule: Rule, events: seq<Event>, i: nat)
    requires i < |events|
  {
    events[i].Arrive? && !rule(LogAfter(rule, events, i), events[i].key, events[i].at)
  }

  /** How many messages were accepted among the events from `lo` up to `hi`. */
  ghost function AcceptedBetween(rule: Rule, events: seq<Event>, lo: nat, hi: nat): nat
    requires lo <= hi <= |events|
  {
    if lo == hi then 0
    else AcceptedBetween(rule, events, lo, hi - 1) +
         (if Accepted(rule, events, hi - 1) then 1 else 0)
  }

  predicate ResetBetween(events: seq<Event>, lo: nat, hi: nat)
    requires hi <= |events|
  {
    exists k :: lo <= k < hi && events[k].Reset?
  }

  /** Event times never go back. */
  ghost predicate Monotone(events: seq<Event>) {
    forall i, j :: 0 <= i < j < |events| && events[i].Arrive? && events[j].Arrive? ==> events[i].at <= events[j].at
  }

  /** What one event of a run does to the log. */
  lemma OneEvent(rule: Rule, events: seq<Event>, n: nat)
    requires n < |events|
    ensures var before := LogAfter(rule, events, n);
            LogAfter(rule, events, n + 1) ==
            if events[n].Reset? then []
            else if Accepted(rule, events, n) then before + [Entry(events[n].key, events[n].at)]
            else before
  {
  }

  /** An accepted message not followed by a reset sits in the log, as far from its end as messages
      were accepted since. */
  lemma {:induction false} AcceptedIsLogged(rule: Rule, events: seq<Event>, i: nat, n: nat)
    requires i < n <= |events| && Accepted(rule, events, i) && !ResetBetween(events, i + 1, n)
    ensures var log := LogAfter(rule, events, n);
            var since := AcceptedBetween(rule, events, i + 1, n);
            since < |log| && log[|log| - 1 - since] == Entry(events[i].key, events[i].at)
    decreases n
  {
    OneEvent(rule, events, n - 1);
    if i < n - 1 {
      assert !events[n - 1].Reset?;
      AcceptedIsLogged(rule, events, i, n - 1);
    }
  }

  /** Every log entry comes from an accepted message not followed by a reset. */
  lemma {:induction false} LoggedWasAccepted(rule: Rule, events: seq<Event>, n: nat, p: nat) returns (i: nat)
    requires n <= |events| && p < |LogAfter(rule, events, n)|
    ensures i < n && Accepted(rule, events, i) && !ResetBetween(events, i + 1, n)
    ensures LogAfter(rule, events, n)[p] == Entry(events[i].key, events[i].at)
    ensures AcceptedBetween(rule, events, i + 1, n) == |LogAfter(rule, events, n)| - 1 - p
    decreases n
  {
    OneEvent(rule, events, n - 1);
    if p == |LogAfter(rule, events, n - 1)| {
      i := n - 1;
    } else {
      i := LoggedWasAccepted(rule, events, n - 1, p);
    }
  }

  lemma {:induction false} AcceptedAdds(rule: Rule, events: seq<Event>, lo: nat, mid: nat, hi: nat)
    requires lo <= mid <= hi <= |events|
    ensures AcceptedBetween(rule, events, lo, hi) ==
            AcceptedBetween(rule, events, lo, mid) + AcceptedBetween(rule, events, mid, hi)
    decreases hi
  {
    if mid == hi {
    } else {
      AcceptedAdds(rule, events, lo, mid, hi - 1);
    }
  }

  /** Fewer messages were accepted after a later event. */
  lemma AcceptedSplits(rule: Rule, events: seq<Event>, i: nat, j: nat)
    requires i < |events| && j < |events|
    requires AcceptedBetween(rule, events, i + 1, |events|) > AcceptedBetween(rule, events, j + 1, |events|)
    ensures i < j
  {
    if j < i {
      AcceptedAdds(rule, events, j + 1, i + 1, |events|);
    }
  }

  /** Later events change nothing about the earlier ones. */
  lemma {:induction false} LogUnchangedByLater(rule: Rule, events: seq<Event>, more: seq<Event>, n: nat)
    requires n <= |events|
    ensures LogAfter(rule, events + more, n) == LogAfter(rule, events, n)
  {
    if n == 0 {
    } else {
      LogUnchangedByLater(rule, events, more, n - 1);
    }
  }

  /** Nothing links message `i` to the later message `j`: a reset, the time to live, or `size`
      accepted messages lie between them. */
  ghost predicate Separated(size: nat, ttl: int, events: seq<Event>, i: nat, j: nat)
    requires i < j < |events| && events[i].Arrive? && events[j].Arrive?
  {
    || ResetBetween(events, i + 1, j)
    || events[j].at - events[i].at >= ttl
    || AcceptedBetween(Window(size, ttl), events, i + 1, j) >= size
  }

  /** An earlier accepted message with the same key that is not separated makes a duplicate. */
  lemma UnseparatedIsSeen(size: nat, ttl: int, events: seq<Event>, i: nat, j: nat)
    requires i < j < |events| && events[j].Arrive? && Accepted(Window(size, ttl), events, i)
    requires events[i].key == events[j].key != 0 && !Separated(size, ttl, events, i, j)
    ensures !Accepted(Window(size, ttl), events, j)
  {
    var log := LogAfter(Window(size, ttl), events, j);
    AcceptedIsLogged(Window(size, ttl), events, i, j);
    assert Matches(log[|log| - 1 - AcceptedBetween(Window(size, ttl), events, i + 1, j)], ttl, events[j].key, events[j].at);
  }

  /** A duplicate has an earlier accepted message with the same key that is not separated. */
  lemma SeenIsUnseparated(size: nat, ttl: int, events: seq<Event>, j: nat) returns (i: nat)
    requires j < |events| && events[j].Arrive? && !Accepted(Window(size, ttl), events, j)
    ensures i < j && Accepted(Window(size, ttl), events, i) && events[i].key == events[j].key != 0
    ensures !Separated(size, ttl, events, i, j)
  {
    var log := LogAfter(Window(size, ttl), events, j);
    var p :| WindowStart(size, log) <= p < |log| && Matches(log[p], ttl, events[j].key, events[j].at);
    i := LoggedWasAccepted(Window(size, ttl), events, j, p);
  }

  /** The exact history condition: a message is accepted if and only if its key is zero or it is
      separated from every earlier accepted message with the same key. */
  lemma AcceptedExactlyWhenSeparated(size: nat, ttl: int, events: seq<Event>, j: nat)
    requires j < |events| && events[j].Arrive?
    ensures Accepted(Window(size, ttl), events, j) <==>
            events[j].key == 0 ||
            forall i :: 0 <= i < j && Accepted(Window(size, ttl), events, i) && events[i].key == events[j].key ==>
              || (exists k :: i < k < j && events[k].Reset?)
              || events[j].at - events[i].at >= ttl
              || AcceptedBetween(Window(size, ttl), events, i + 1, j) >= size
  {
    if Accepted(Window(size, ttl), events, j) && events[j].key != 0 {
      forall i | 0 <= i < j && Accepted(Window(size, ttl), events, i) && events[i].key == events[j].key
        ensures Separated(size, ttl, events, i, j)
      {
        if !Separated(size, ttl, events, i, j) {
          UnseparatedIsSeen(size, ttl, events, i, j);
        }
      }
    } else if !Accepted(Window(size, ttl), events, j) {
      var i := SeenIsUnseparated(size, ttl, events, j);
    }
  }

  /** With a clock that never goes back, at most one entry per nonzero key is ever alive in the ring. */
  lemma OneLiveEntryPerKey(size: nat, ttl: int, events: seq<Event>, p: nat, q: nat, key: uint64, now: int)
    requires Monotone(events)
    requires forall i :: 0 <= i < |events| && events[i].Arrive? ==> events[i].at <= now
    requires var log := LogAfter(Window(size, ttl), events, |events|);
             WindowStart(size, log) <= p < |log| && WindowStart(size, log) <= q < |log| &&
             Matches(log[p], ttl, key, now) && Matches(log[q], ttl, key, now)
    ensures p == q
  {
    if p < q {
      EarlierTwinIsExpired(size, ttl, events, p, q, now);
    } else if q < p {
      EarlierTwinIsExpired(size, ttl, events, q, p, now);
    }
  }

  lemma EarlierTwinIsExpired(size: nat, ttl: int, events: seq<Event>, p: nat, q: nat, now: int)
    requires Monotone(events)
    requires forall i :: 0 <= i < |events| && events[i].Arrive? ==> events[i].at <= now
    requires var log := LogAfter(Window(size, ttl), events, |events|);
             WindowStart(size, log) <= p < q < |log| && log[p].key == log[q].key != 0
    ensures now - LogAfter(Window(size, ttl), events, |events|)[p].at >= ttl
  {
    var i, j := LoggedInOrder(Window(size, ttl), events, p, q);
    TwinsAreTtlApart(size, ttl, events, i, j);
  }

  /** Two log entries come from two messages in the same order, with fewer messages accepted between
      them than sit behind the first. */
  lemma LoggedInOrder(rule: Rule, events: seq<Event>, p: nat, q: nat) returns (i: nat, j: nat)
    requires p < q < |LogAfter(rule, events, |events|)|
    ensures i < j < |events| && Accepted(rule, events, i) && Accepted(rule, events, j) && !ResetBetween(events, i + 1, j)
    ensures var log := LogAfter(rule, events, |events|);
            && log[p] == Entry(events[i].key, events[i].at) && log[q] == Entry(events[j].key, events[j].at)
            && AcceptedBetween(rule, events, i + 1, j) < |log| - p
  {
    i := LoggedWasAccepted(rule, events, |events|, p);
    j := LoggedWasAccepted(rule, events, |events|, q);
    AcceptedSplits(rule, events, i, j);
    AcceptedAdds(rule, events, i + 1, j, |events|);
  }

  /** Accepted twins that neither a reset nor a full window separates are `ttl` apart. */
  lemma TwinsAreTtlApart(size: nat, ttl: int, events: seq<Event>, i: nat, j: nat)
    requires i < j < |events| && Accepted(Window(size, ttl), events, i) && Accepted(Window(size, ttl), events, j)
    requires events[i].key == events[j].key != 0 && !ResetBetween(events, i + 1, j)
    requires AcceptedBetween(Window(size, ttl), events, i + 1, j) < size
    ensures events[j].at - events[i].at >= ttl
  {
    if events[j].at - events[i].at < ttl {
      UnseparatedIsSeen(size, ttl, events, i, j);
    }
  }
}
