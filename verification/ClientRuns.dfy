// Any number of message handlers of one client in flight at once (backend/internal/mqtt/client.go).
// The counters are atomic and the detector's check holds its mutex, so a run interleaves these steps.

module ClientRuns {
  import opened Fnv
  import opened Dedup
  import opened Client

  /** Where a handler stands; `Dropping` and `Failing` are before the counter goes up. */
  datatype Phase = Received | Dropping | Dropped | Handling | Failing | Errored | Completed

  /** A message with the device id found for it. */
  datatype Arrival = Arrival(device: string, raw: string)

  function KeyOf(m: Arrival): uint64 {
    Key(BytesOf(m.device), BytesOf(m.raw))
  }

  /** `events` records the detector's checks and resets; message `i` was checked as event
      `checkedAs[i]`. */
  datatype State = State(
    arrivals: seq<Arrival>, phases: seq<Phase>, checkedAs: seq<int>, events: seq<Event>,
    received: nat, dropped: nat, errors: nat)

  datatype Config = Config(size: nat, ttl: int)

  ghost predicate Init(s: State) {
    s == State([], [], [], [], 0, 0, 0)
  }

  ghost predicate Arrives(s: State, m: Arrival, s': State) {
    s' == s.(arrivals := s.arrivals + [m], phases := s.phases + [Received], checkedAs := s.checkedAs + [-1],
             received := s.received + 1)
  }

  ghost predicate InPhase(s: State, i: nat, p: Phase) {
    i < |s.arrivals| == |s.phases| == |s.checkedAs| && s.phases[i] == p
  }

  ghost predicate LacksId(s: State, i: nat, s': State) {
    InPhase(s, i, Received) && s.arrivals[i].device == "" && s' == s.(phases := s.phases[i := Dropping])
  }

  /** The detector's check, at a time not before any earlier check. */
  ghost predicate Checks(c: Config, s: State, i: nat, now: int, s': State) {
    && InPhase(s, i, Received) && s.arrivals[i].device != ""
    && (forall k :: 0 <= k < |s.events| && s.events[k].Arrive? ==> s.events[k].at <= now)
    && var seen := Seen(c.size, c.ttl, LogAfter(Window(c.size, c.ttl), s.events, |s.events|), KeyOf(s.arrivals[i]), now);
       s' == s.(phases := s.phases[i := if seen then Dropping else Handling],
                checkedAs := s.checkedAs[i := |s.events|],
                events := s.events + [Arrive(KeyOf(s.arrivals[i]), now)])
  }

  ghost predicate CountsDrop(s: State, i: nat, s': State) {
    InPhase(s, i, Dropping) && s' == s.(phases := s.phases[i := Dropped], dropped := s.dropped + 1)
  }

  /** HandleMessage returns, with or without an error. */
  ghost predicate Returns(s: State, i: nat, ok: bool, s': State) {
    InPhase(s, i, Handling) && s' == s.(phases := s.phases[i := if ok then Completed else Failing])
  }

  ghost predicate CountsError(s: State, i: nat, s': State) {
    InPhase(s, i, Failing) && s' == s.(phases := s.phases[i := Errored], errors := s.errors + 1)
  }

  ghost predicate Reconnects(s: State, s': State) {
    s' == s.(events := s.events + [Reset])
  }

  ghost predicate Next(c: Config, s: State, s': State) {
    || (exists m :: Arrives(s, m, s'))
    || (exists i: nat :: LacksId(s, i, s'))
    || (exists i: nat, now :: Checks(c, s, i, now, s'))
    || (exists i: nat :: CountsDrop(s, i, s'))
    || (exists i: nat, ok :: Returns(s, i, ok, s'))
    || (exists i: nat :: CountsError(s, i, s'))
    || Reconnects(s, s')
  }

  ghost predicate Execution(c: Config, run: seq<State>) {
    run != [] && Init(run[0]) && forall i :: 0 <= i < |run| - 1 ==> Next(c, run[i], run[i + 1])
  }

  // Conservation ---------------------------------------------------------------------------------

  function CountIn(phases: seq<Phase>, p: Phase): nat {
    if phases == [] then 0
    else CountIn(phases[..|phases| - 1], p) + if phases[|phases| - 1] == p then 1 else 0
  }

  function Count(s: State, p: Phase): nat {
    CountIn(s.phases, p)
  }

  function InFlight(s: State): nat {
    Count(s, Received) + Count(s, Dropping) + Count(s, Handling) + Count(s, Failing)
  }

  ghost predicate Counted(s: State) {
    && |s.arrivals| == |s.phases| == |s.checkedAs| == s.received
    && s.dropped == Count(s, Dropped) && s.errors == Count(s, Errored)
  }

  /** Moving one handler takes it out of one phase and into another. */
  lemma {:induction false} CountMoved(phases: seq<Phase>, i: nat, to: Phase, p: Phase)
    requires i < |phases|
    ensures CountIn(phases[i := to], p) + (if phases[i] == p then 1 else 0) ==
            CountIn(phases, p) + (if to == p then 1 else 0)
    decreases |phases|
  {
    var n := |phases| - 1;
    if i < n {
      CountMoved(phases[..n], i, to, p);
      assert phases[i := to][..n] == phases[..n][i := to];
    } else {
      assert phases[i := to][..n] == phases[..n];
    }
  }

  lemma MoveCounts(s: State, i: nat, to: Phase)
    requires i < |s.phases|
    ensures CountIn(s.phases[i := to], Dropped) ==
            Count(s, Dropped) + (if to == Dropped then 1 else 0) - (if s.phases[i] == Dropped then 1 else 0)
    ensures CountIn(s.phases[i := to], Errored) ==
            Count(s, Errored) + (if to == Errored then 1 else 0) - (if s.phases[i] == Errored then 1 else 0)
  {
    CountMoved(s.phases, i, to, Dropped);
    CountMoved(s.phases, i, to, Errored);
  }

  lemma NextCounts(c: Config, s: State, s': State)
    requires Counted(s) && Next(c, s, s')
    ensures Counted(s')
  {
    if i: nat, now :| Checks(c, s, i, now, s') {
      MoveCounts(s, i, s'.phases[i]);
    } else if m :| Arrives(s, m, s') {
      assert s'.phases[..|s.phases|] == s.phases;
    } else if Reconnects(s, s') {
    } else if i: nat :| LacksId(s, i, s') {
      MoveCounts(s, i, Dropping);
    } else if i: nat :| CountsDrop(s, i, s') {
      MoveCounts(s, i, Dropped);
    } else if i: nat, ok :| Returns(s, i, ok, s') {
      MoveCounts(s, i, s'.phases[i]);
    } else {
      var i: nat :| CountsError(s, i, s');
      MoveCounts(s, i, Errored);
    }
  }

  lemma {:induction false} PhasesAddUp(phases: seq<Phase>)
    ensures |phases| == CountIn(phases, Received) + CountIn(phases, Dropping) + CountIn(phases, Dropped) +
                        CountIn(phases, Handling) + CountIn(phases, Failing) + CountIn(phases, Errored) +
                        CountIn(phases, Completed)
  {
    if phases == [] {
    } else {
      PhasesAddUp(phases[..|phases| - 1]);
    }
  }

  lemma {:induction false} ExecutionCounts(c: Config, run: seq<State>)
    requires Execution(c, run)
    ensures Counted(run[|run| - 1])
    decreases |run|
  {
    if |run| > 1 {
      var n := |run| - 1;
      ExecutionCounts(c, run[..n]);
      assert Next(c, run[n - 1], run[n]);
      NextCounts(c, run[n - 1], run[n]);
    }
  }

  /** Every received message is dropped, an error, completed, or still in flight. */
  lemma MessagesConserved(c: Config, run: seq<State>)
    requires Execution(c, run)
    ensures var s := run[|run| - 1];
            && s.received == s.dropped + s.errors + Count(s, Completed) + InFlight(s)
            && (InFlight(s) == 0 ==> s.received == s.dropped + s.errors + Count(s, Completed))
  {
    ExecutionCounts(c, run);
    PhasesAddUp(run[|run| - 1].phases);
  }

  // Separation -----------------------------------------------------------------------------------

  /** The message got past the detector to HandleMessage. */
  ghost predicate ReachedHandler(s: State, i: nat) {
    i < |s.phases| && s.phases[i] in {Handling, Failing, Errored, Completed}
  }

  ghost predicate Checked(c: Config, s: State, i: nat)
    requires i < |s.arrivals| == |s.phases| == |s.checkedAs|
  {
    var e := s.checkedAs[i];
    && e < |s.events|
    && (e >= 0 ==> s.events[e].Arrive? && s.events[e].key == KeyOf(s.arrivals[i]))
    && (ReachedHandler(s, i) ==> e >= 0 && Accepted(Window(c.size, c.ttl), s.events, e))
  }

  ghost predicate Inv(c: Config, s: State) {
    && |s.arrivals| == |s.phases| == |s.checkedAs|
    && Monotone(s.events)
    && (forall i :: 0 <= i < |s.arrivals| ==> Checked(c, s, i))
    && (forall i, j :: 0 <= i < j < |s.arrivals| && s.checkedAs[i] >= 0 ==> s.checkedAs[i] != s.checkedAs[j])
    && (forall i :: 0 <= i < |s.arrivals| && s.phases[i] == Received ==> s.checkedAs[i] < 0)
  }

  /** A further event changes nothing about the earlier ones. */
  lemma LaterEvent(c: Config, events: seq<Event>, e: Event, i: nat)
    requires i < |events|
    ensures Accepted(Window(c.size, c.ttl), events + [e], i) <==> Accepted(Window(c.size, c.ttl), events, i)
  {
    LogUnchangedByLater(Window(c.size, c.ttl), events, [e], i);
  }

  lemma ChecksKeepsInv(c: Config, s: State, i: nat, now: int, s': State)
    requires Inv(c, s) && Checks(c, s, i, now, s')
    ensures Inv(c, s')
  {
    var e := Arrive(KeyOf(s.arrivals[i]), now);
    LogUnchangedByLater(Window(c.size, c.ttl), s.events, [e], |s.events|);
    forall k | 0 <= k < |s.arrivals|
      ensures s.checkedAs[k] < |s.events|
    {
      assert Checked(c, s, k);
    }
    forall k | 0 <= k < |s'.arrivals|
      ensures Checked(c, s', k)
    {
      if k != i {
        assert Checked(c, s, k);
        if s.checkedAs[k] >= 0 {
          LaterEvent(c, s.events, e, s.checkedAs[k]);
        }
      }
    }
  }

  lemma ReconnectsKeepsInv(c: Config, s: State, s': State)
    requires Inv(c, s) && Reconnects(s, s')
    ensures Inv(c, s')
  {
    forall k | 0 <= k < |s'.arrivals|
      ensures Checked(c, s', k)
    {
      assert Checked(c, s, k);
      if s.checkedAs[k] >= 0 {
        LaterEvent(c, s.events, Reset, s.checkedAs[k]);
      }
    }
  }

  /** Steps that only move one handler on. */
  lemma MovesKeepsInv(c: Config, s: State, i: nat, s': State)
    requires Inv(c, s) && i < |s.phases| == |s'.phases|
    requires s'.arrivals == s.arrivals && s'.checkedAs == s.checkedAs && s'.events == s.events
    requires s'.phases == s.phases[i := s'.phases[i]] && s'.phases[i] != Received
    requires ReachedHandler(s', i) ==> ReachedHandler(s, i)
    ensures Inv(c, s')
  {
    forall k | 0 <= k < |s'.arrivals|
      ensures Checked(c, s', k)
    {
      assert Checked(c, s, k);
    }
  }

  lemma ArrivesKeepsInv(c: Config, s: State, m: Arrival, s': State)
    requires Inv(c, s) && Arrives(s, m, s')
    ensures Inv(c, s')
  {
    forall k | 0 <= k < |s'.arrivals|
      ensures Checked(c, s', k)
    {
      if k < |s.arrivals| {
        assert Checked(c, s, k);
      }
    }
  }

  lemma NextKeepsInv(c: Config, s: State, s': State)
    requires Inv(c, s) && Next(c, s, s')
    ensures Inv(c, s')
  {
    if i: nat, now :| Checks(c, s, i, now, s') {
      ChecksKeepsInv(c, s, i, now, s');
    } else if m :| Arrives(s, m, s') {
      ArrivesKeepsInv(c, s, m, s');
    } else if Reconnects(s, s') {
      ReconnectsKeepsInv(c, s, s');
    } else if i: nat :| LacksId(s, i, s') {
      MovesKeepsInv(c, s, i, s');
    } else if i: nat :| CountsDrop(s, i, s') {
      MovesKeepsInv(c, s, i, s');
    } else if i: nat, ok :| Returns(s, i, ok, s') {
      MovesKeepsInv(c, s, i, s');
    } else {
      var i: nat :| CountsError(s, i, s');
      MovesKeepsInv(c, s, i, s');
    }
  }

  lemma {:induction false} ExecutionKeepsInv(c: Config, run: seq<State>)
    requires Execution(c, run)
    ensures Inv(c, run[|run| - 1])
    decreases |run|
  {
    if |run| > 1 {
      var n := |run| - 1;
      ExecutionKeepsInv(c, run[..n]);
      assert Next(c, run[n - 1], run[n]);
      NextKeepsInv(c, run[n - 1], run[n]);
    }
  }

  /** Two messages with the same nonzero key that both reached HandleMessage. */
  ghost predicate HandledTwins(s: State, i: nat, j: nat) {
    && i < |s.arrivals| && j < |s.arrivals| && i != j
    && ReachedHandler(s, i) && ReachedHandler(s, j)
    && KeyOf(s.arrivals[i]) == KeyOf(s.arrivals[j]) != 0
  }

  /** On one client, two messages with the same nonzero key both reach HandleMessage only if a reset,
      the time to live, or `size` accepted messages lie between their checks. */
  lemma HandledTwinsAreSeparated(c: Config, run: seq<State>, i: nat, j: nat)
    requires Execution(c, run) && HandledTwins(run[|run| - 1], i, j)
    ensures var s := run[|run| - 1];
            |s.checkedAs| == |s.arrivals| &&
            var a, b := s.checkedAs[i], s.checkedAs[j];
            && 0 <= a < |s.events| && 0 <= b < |s.events|
            && s.events[a].Arrive? && s.events[b].Arrive?
            && (if a < b then Separated(c.size, c.ttl, s.events, a, b)
                else b < a && Separated(c.size, c.ttl, s.events, b, a))
  {
    ExecutionKeepsInv(c, run);
    var s := run[|run| - 1];
    var a, b := s.checkedAs[i], s.checkedAs[j];
    assert Checked(c, s, i) && Checked(c, s, j);
    assert a != b by {
      if i < j {
        assert s.checkedAs[i] != s.checkedAs[j];
      }
    }
    AcceptedExactlyWhenSeparated(c.size, c.ttl, s.events, a);
    AcceptedExactlyWhenSeparated(c.size, c.ttl, s.events, b);
  }
}
