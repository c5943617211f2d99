// ConnectAll of backend/internal/mqtt/manager.go, goroutine by goroutine, and the retry loop of
// backend/cmd/api-server/main.go around it.

module Connect {
  import opened Options
  import opened Sequences

  /** Broker names, and which of them fail to connect this time. */
  datatype Config = Config(names: seq<string>, fails: seq<bool>)

  predicate Proper(c: Config) {
    |c.names| == |c.fails|
  }

  /** Where a goroutine stands. Appending to the shared list is a read of the slice and a write of the
      longer one, so that only the mutex keeps two goroutines from losing a name. */
  datatype Pc = Dialling | WantsLock | Locked | Appending(snapshot: seq<string>) | Unlocking | Finishing | Done

  /** `waitGroup` is the WaitGroup's counter; `order` remembers who appended when. */
  datatype State = State(
    pcs: seq<Pc>, holder: Option<nat>, failed: seq<string>, waitGroup: int, returned: bool, order: seq<nat>)

  const INIT := State([], None, [], 0, false, [])

  /** The main goroutine. */
  const MAIN: int := -1

  predicate Enabled(c: Config, s: State, actor: int) {
    if actor == MAIN then !s.returned && (|s.pcs| < |c.names| || s.waitGroup == 0)
    else 0 <= actor < |s.pcs| && !s.pcs[actor].Done? && (s.pcs[actor].WantsLock? ==> s.holder == None)
  }

  /** One step. The main goroutine starts the next connection, then waits and returns. */
  function Step(c: Config, s: State, actor: int): State
    requires Proper(c) && |s.pcs| <= |c.names| && Enabled(c, s, actor)
  {
    if actor == MAIN then
      if |s.pcs| < |c.names| then s.(pcs := s.pcs + [Dialling], waitGroup := s.waitGroup + 1)
      else s.(returned := true)
    else
      match s.pcs[actor]
      case Dialling => s.(pcs := s.pcs[actor := if c.fails[actor] then WantsLock else Finishing])
      case WantsLock => s.(pcs := s.pcs[actor := Locked], holder := Some(actor))
      case Locked => s.(pcs := s.pcs[actor := Appending(s.failed)])
      case Appending(snapshot) =>
        s.(pcs := s.pcs[actor := Unlocking], failed := snapshot + [c.names[actor]], order := s.order + [actor])
      case Unlocking => s.(pcs := s.pcs[actor := Finishing], holder := None)
      case Finishing => s.(pcs := s.pcs[actor := Done], waitGroup := s.waitGroup - 1)
  }

  // Invariants -----------------------------------------------------------------------------------

  predicate InCriticalSection(pc: Pc) {
    pc.Locked? || pc.Appending? || pc.Unlocking?
  }

  /** The goroutine has put its name on the list. */
  predicate Recorded(c: Config, pcs: seq<Pc>, i: nat)
    requires Proper(c) && i < |pcs| <= |c.names|
  {
    pcs[i].Unlocking? || (c.fails[i] && (pcs[i].Finishing? || pcs[i].Done?))
  }

  function Running(pcs: seq<Pc>): nat {
    if pcs == [] then 0 else Running(pcs[..|pcs| - 1]) + if pcs[|pcs| - 1].Done? then 0 else 1
  }

  ghost predicate Inv(c: Config, s: State)
    requires Proper(c)
  {
    |s.pcs| <= |c.names| && WaitInv(c, s) && MutexInv(c, s) && ListInv(c, s)
  }

  /** The WaitGroup counts the goroutines that are not done. */
  ghost predicate WaitInv(c: Config, s: State) {
    s.waitGroup == Running(s.pcs) && (s.returned ==> |s.pcs| == |c.names| && s.waitGroup == 0)
  }

  /** Mutual exclusion: only failures come near the list, one at a time, so that nobody changes the
      list between another's read and write. */
  ghost predicate MutexInv(c: Config, s: State)
    requires Proper(c) && |s.pcs| <= |c.names|
  {
    && (forall i :: 0 <= i < |s.pcs| ==> (InCriticalSection(s.pcs[i]) <==> s.holder == Some(i)))
    && (s.holder.Some? ==> s.holder.value < |s.pcs|)
    && (forall i :: 0 <= i < |s.pcs| && (InCriticalSection(s.pcs[i]) || s.pcs[i].WantsLock?) ==> c.fails[i])
    && (forall i :: 0 <= i < |s.pcs| && s.pcs[i].Appending? ==> s.pcs[i].snapshot == s.failed)
  }

  /** The list names exactly the recorded goroutines, each once. */
  ghost predicate ListInv(c: Config, s: State)
    requires Proper(c) && |s.pcs| <= |c.names|
  {
    && |s.failed| == |s.order|
    && (forall k :: 0 <= k < |s.order| ==> s.order[k] < |s.pcs| && s.failed[k] == c.names[s.order[k]])
    && (forall k, l :: 0 <= k < l < |s.order| ==> s.order[k] != s.order[l])
    && (forall i: nat :: i in s.order <==> i < |s.pcs| && Recorded(c, s.pcs, i))
  }

  lemma {:induction false} RunningMoved(pcs: seq<Pc>, i: nat, pc: Pc)
    requires i < |pcs|
    ensures Running(pcs[i := pc]) + (if pcs[i].Done? then 0 else 1) == Running(pcs) + (if pc.Done? then 0 else 1)
    decreases |pcs|
  {
    var n := |pcs| - 1;
    if i < n {
      RunningMoved(pcs[..n], i, pc);
      assert pcs[i := pc][..n] == pcs[..n][i := pc];
    } else {
      assert pcs[i := pc][..n] == pcs[..n];
    }
  }

  lemma StepKeepsInv(c: Config, s: State, actor: int)
    requires Proper(c) && Inv(c, s) && Enabled(c, s, actor)
    ensures Inv(c, Step(c, s, actor))
  {
    if actor == MAIN {
      MainStep(c, s);
    } else {
      WaitStep(c, s, actor);
      MutexStep(c, s, actor);
      ListStep(c, s, actor);
    }
  }

  lemma MainStep(c: Config, s: State)
    requires Proper(c) && Inv(c, s) && Enabled(c, s, MAIN)
    ensures Inv(c, Step(c, s, MAIN))
  {
  }

  lemma WaitStep(c: Config, s: State, actor: int)
    requires Proper(c) && |s.pcs| <= |c.names| && WaitInv(c, s) && Enabled(c, s, actor) && actor != MAIN
    ensures WaitInv(c, Step(c, s, actor))
  {
    RunningMoved(s.pcs, actor, Step(c, s, actor).pcs[actor]);
  }

  lemma MutexStep(c: Config, s: State, actor: int)
    requires Proper(c) && |s.pcs| <= |c.names| && MutexInv(c, s) && Enabled(c, s, actor) && actor != MAIN
    ensures |Step(c, s, actor).pcs| == |s.pcs| && MutexInv(c, Step(c, s, actor))
  {
  }

  /** Only the goroutine that takes the step can become recorded. */
  lemma OthersStayRecorded(c: Config, s: State, actor: int, i: nat)
    requires Proper(c) && |s.pcs| <= |c.names| && Enabled(c, s, actor) && actor != MAIN
    requires i < |s.pcs| && i != actor
    ensures Recorded(c, Step(c, s, actor).pcs, i) <==> Recorded(c, s.pcs, i)
  {
  }

  lemma AppendStep(c: Config, s: State, actor: int)
    requires Proper(c) && |s.pcs| <= |c.names| && MutexInv(c, s) && ListInv(c, s) && Enabled(c, s, actor) && actor != MAIN
    requires s.pcs[actor].Appending?
    ensures |Step(c, s, actor).pcs| == |s.pcs| && ListInv(c, Step(c, s, actor))
  {
    var s' := Step(c, s, actor);
    forall i: nat | i < |s.pcs| && i != actor
      ensures Recorded(c, s'.pcs, i) <==> Recorded(c, s.pcs, i)
    {
      OthersStayRecorded(c, s, actor, i);
    }
    assert !Recorded(c, s.pcs, actor);
    assert forall i: nat :: i in s'.order <==> i in s.order || i == actor;
  }

  lemma ListStep(c: Config, s: State, actor: int)
    requires Proper(c) && |s.pcs| <= |c.names| && MutexInv(c, s) && ListInv(c, s) && Enabled(c, s, actor) && actor != MAIN
    ensures |Step(c, s, actor).pcs| == |s.pcs| && ListInv(c, Step(c, s, actor))
  {
    var s' := Step(c, s, actor);
    if s.pcs[actor].Appending? {
      AppendStep(c, s, actor);
    } else {
      forall i: nat | i < |s.pcs| && i != actor
        ensures Recorded(c, s'.pcs, i) <==> Recorded(c, s.pcs, i)
      {
        OthersStayRecorded(c, s, actor, i);
      }
      assert Recorded(c, s'.pcs, actor) <==> Recorded(c, s.pcs, actor);
    }
  }

  // All executions -------------------------------------------------------------------------------

  ghost predicate Next(c: Config, s: State, s': State)
    requires Proper(c)
  {
    |s.pcs| <= |c.names| && exists actor :: Enabled(c, s, actor) && s' == Step(c, s, actor)
  }

  ghost predicate Execution(c: Config, run: seq<State>)
    requires Proper(c)
  {
    run != [] && run[0] == INIT && forall i :: 0 <= i < |run| - 1 ==> Next(c, run[i], run[i + 1])
  }

  lemma {:induction false} ExecutionKeepsInv(c: Config, run: seq<State>)
    requires Proper(c) && Execution(c, run)
    ensures Inv(c, run[|run| - 1])
    decreases |run|
  {
    if |run| > 1 {
      var n := |run| - 1;
      ExecutionKeepsInv(c, run[..n]);
      assert Next(c, run[n - 1], run[n]);
      var actor :| Enabled(c, run[n - 1], actor) && run[n] == Step(c, run[n - 1], actor);
      StepKeepsInv(c, run[n - 1], actor);
    }
  }

  /** Positions of the failing clients, in configuration order. */
  function FailingPositions(fails: seq<bool>): seq<nat> {
    if fails == [] then []
    else FailingPositions(fails[..|fails| - 1]) + if fails[|fails| - 1] then [|fails| - 1] else []
  }

  lemma {:induction false} FailingPositionsMembers(fails: seq<bool>)
    ensures forall i: nat :: i in FailingPositions(fails) <==> i < |fails| && fails[i]
    decreases |fails|
  {
    if fails == [] {
    } else {
      FailingPositionsMembers(fails[..|fails| - 1]);
    }
  }

  function Position(i: nat): nat { i }

  lemma {:induction false} FailingPositionsDistinct(fails: seq<bool>)
    ensures Distinct(Position, FailingPositions(fails))
    decreases |fails|
  {
    if fails == [] {
    } else {
      var before := FailingPositions(fails[..|fails| - 1]);
      FailingPositionsDistinct(fails[..|fails| - 1]);
      FailingPositionsMembers(fails[..|fails| - 1]);
      forall k | 0 <= k < |before|
        ensures before[k] < |fails| - 1
      {
        assert before[k] in before;
      }
    }
  }

  function NameOf(c: Config): nat -> string {
    (i: nat) => if i < |c.names| then c.names[i] else ""
  }

  /** The names of the clients whose Connect fails. */
  function FailedNames(c: Config): seq<string> {
    Map(NameOf(c), FailingPositions(c.fails))
  }

  lemma {:induction false} AllDone(pcs: seq<Pc>, i: nat)
    requires Running(pcs) == 0 && i < |pcs|
    ensures pcs[i].Done?
    decreases |pcs|
  {
    if i < |pcs| - 1 {
      AllDone(pcs[..|pcs| - 1], i);
    }
  }

  lemma ReturnedList(c: Config, s: State)
    requires Proper(c) && Inv(c, s) && s.returned
    ensures multiset(s.failed) == multiset(FailedNames(c))
  {
    forall i: nat | i < |s.pcs|
      ensures s.pcs[i].Done?
    {
      AllDone(s.pcs, i);
    }
    var ps := FailingPositions(c.fails);
    FailingPositionsMembers(c.fails);
    FailingPositionsDistinct(c.fails);
    assert forall k, l :: 0 <= k < l < |ps| ==> Position(ps[k]) != Position(ps[l]);
    assert forall i: nat :: i in s.order <==> i in ps;
    SameMembersPermuted(s.order, ps);
    MapPermuted(NameOf(c), s.order, ps);
    assert s.failed == Map(NameOf(c), s.order);
  }

  /** Under every interleaving, when ConnectAll returns its list holds exactly the names of the clients
      whose Connect failed, each as often as it failed. */
  lemma ReturnedListExact(c: Config, run: seq<State>)
    requires Proper(c) && Execution(c, run) && run[|run| - 1].returned
    ensures multiset(run[|run| - 1].failed) == multiset(FailedNames(c))
    ensures var failed := run[|run| - 1].failed;
            forall x :: multiset(failed)[x] == |set i: nat | i < |c.names| && c.fails[i] && c.names[i] == x|
  {
    FailedNamesCounted(c);
    ExecutionKeepsInv(c, run);
    ReturnedList(c, run[|run| - 1]);
  }

  // Progress -------------------------------------------------------------------------------------

  function StepsLeft(pc: Pc): nat {
    match pc
    case Dialling => 6
    case WantsLock => 5
    case Locked => 4
    case Appending(_) => 3
    case Unlocking => 2
    case Finishing => 1
    case Done => 0
  }

  function TotalLeft(pcs: seq<Pc>): nat {
    if pcs == [] then 0 else TotalLeft(pcs[..|pcs| - 1]) + StepsLeft(pcs[|pcs| - 1])
  }

  /** An upper bound on the steps still to come. */
  function Measure(c: Config, s: State): nat
    requires |s.pcs| <= |c.names|
  {
    7 * (|c.names| - |s.pcs|) + TotalLeft(s.pcs) + if s.returned then 0 else 1
  }

  lemma {:induction false} TotalMoved(pcs: seq<Pc>, i: nat, pc: Pc)
    requires i < |pcs|
    ensures TotalLeft(pcs[i := pc]) + StepsLeft(pcs[i]) == TotalLeft(pcs) + StepsLeft(pc)
    decreases |pcs|
  {
    var n := |pcs| - 1;
    if i < n {
      TotalMoved(pcs[..n], i, pc);
      assert pcs[i := pc][..n] == pcs[..n][i := pc];
    } else {
      assert pcs[i := pc][..n] == pcs[..n];
    }
  }

  lemma StepMakesProgress(c: Config, s: State, actor: int)
    requires Proper(c) && |s.pcs| <= |c.names| && Enabled(c, s, actor)
    ensures var s' := Step(c, s, actor);
            |s'.pcs| <= |c.names| && Measure(c, s') < Measure(c, s)
  {
    var s' := Step(c, s, actor);
    if actor == MAIN {
      if |s.pcs| < |c.names| {
        assert s'.pcs[..|s.pcs|] == s.pcs;
      }
    } else {
      TotalMoved(s.pcs, actor, s'.pcs[actor]);
    }
  }

  lemma {:induction false} SomeoneRuns(pcs: seq<Pc>) returns (i: nat)
    requires Running(pcs) > 0
    ensures i < |pcs| && !pcs[i].Done?
    decreases |pcs|
  {
    var n := |pcs| - 1;
    if pcs[n].Done? {
      i := SomeoneRuns(pcs[..n]);
    } else {
      i := n;
    }
  }

  /** No deadlock: until ConnectAll returns, some goroutine can move. */
  lemma NeverStuck(c: Config, s: State) returns (actor: int)
    requires Proper(c) && Inv(c, s) && !s.returned
    ensures -1 <= actor < |s.pcs| && Enabled(c, s, actor)
  {
    if |s.pcs| < |c.names| || s.waitGroup == 0 {
      actor := MAIN;
    } else if s.holder.Some? {
      actor := s.holder.value;
    } else {
      actor := SomeoneRuns(s.pcs);
    }
  }

  /** Every run ends: no interleaving takes more than 7n + 1 steps for n brokers. */
  lemma {:induction false} RunsAreBounded(c: Config, run: seq<State>)
    requires Proper(c) && Execution(c, run)
    ensures var s := run[|run| - 1];
            |s.pcs| <= |c.names| && |run| - 1 + Measure(c, s) <= 7 * |c.names| + 1
    decreases |run|
  {
    if |run| > 1 {
      var n := |run| - 1;
      RunsAreBounded(c, run[..n]);
      assert Next(c, run[n - 1], run[n]);
      var actor :| Enabled(c, run[n - 1], actor) && run[n] == Step(c, run[n - 1], actor);
      StepMakesProgress(c, run[n - 1], actor);
    }
  }

  /** ConnectAll under an arbitrary scheduler. */
  method ConnectAll(c: Config) returns (failed: seq<string>)
    requires Proper(c)
    ensures multiset(failed) == multiset(FailedNames(c))
    ensures forall x :: multiset(failed)[x] == |set i: nat | i < |c.names| && c.fails[i] && c.names[i] == x|
    ensures |failed| == |FailingPositions(c.fails)|
  {
    var s := INIT;
    while !s.returned
      invariant Inv(c, s)
      decreases Measure(c, s)
    {
      ghost var someone := NeverStuck(c, s);
      var actor :| -1 <= actor < |s.pcs| && Enabled(c, s, actor);
      StepKeepsInv(c, s, actor);
      StepMakesProgress(c, s, actor);
      s := Step(c, s, actor);
    }
    ReturnedList(c, s);
    FailedNamesCounted(c);
    assert |multiset(s.failed)| == |s.failed| && |multiset(FailedNames(c))| == |FailedNames(c)|;
    return s.failed;
  }

  /** Those of the first `n` clients that failed and have this name. */
  function FailedAs(nameOf: nat -> string, fails: seq<bool>, n: nat, x: string): set<nat>
    requires n <= |fails|
  {
    set i: nat | i < n && fails[i] && nameOf(i) == x
  }

  lemma FailedAsStep(nameOf: nat -> string, fails: seq<bool>, n: nat, x: string)
    requires n < |fails|
    ensures |FailedAs(nameOf, fails, n + 1, x)| == |FailedAs(nameOf, fails, n, x)| + if fails[n] && nameOf(n) == x then 1 else 0
  {
    assert FailedAs(nameOf, fails, n + 1, x) == FailedAs(nameOf, fails, n, x) + if fails[n] && nameOf(n) == x then {n} else {};
  }

  lemma MapSnocCounts(f: nat -> string, xs: seq<nat>, i: nat, x: string)
    ensures multiset(Map(f, xs + [i]))[x] == multiset(Map(f, xs))[x] + if f(i) == x then 1 else 0
  {
    MapConcat(f, xs, [i]);
  }

  /** How many of these clients failed and have this name. */
  function CountAs(nameOf: nat -> string, fails: seq<bool>, x: string): nat {
    if fails == [] then 0
    else
      var n := |fails| - 1;
      CountAs(nameOf, fails[..n], x) + if fails[n] && nameOf(n) == x then 1 else 0
  }

  lemma {:induction false} SetCounts(nameOf: nat -> string, fails: seq<bool>, n: nat, x: string)
    requires n <= |fails|
    ensures |FailedAs(nameOf, fails, n, x)| == CountAs(nameOf, fails[..n], x)
  {
    if n > 0 {
      SetCounts(nameOf, fails, n - 1, x);
      FailedAsStep(nameOf, fails, n - 1, x);
      assert fails[..n][..n - 1] == fails[..n - 1];
    }
  }

  lemma {:induction false} ListCounts(nameOf: nat -> string, fails: seq<bool>, x: string)
    ensures multiset(Map(nameOf, FailingPositions(fails)))[x] == CountAs(nameOf, fails, x)
    decreases |fails|
  {
    if fails == [] {
    } else {
      var n := |fails| - 1;
      var before := FailingPositions(fails[..n]);
      ListCounts(nameOf, fails[..n], x);
      if fails[n] {
        MapSnocCounts(nameOf, before, n, x);
        assert FailingPositions(fails) == before + [n];
      } else {
        assert FailingPositions(fails) == before;
      }
    }
  }

  lemma FailedNamesCounted(c: Config)
    requires Proper(c)
    ensures forall x :: multiset(FailedNames(c))[x] == |set i: nat | i < |c.names| && c.fails[i] && c.names[i] == x|
  {
    assert c.fails[..|c.names|] == c.fails;
    forall x
      ensures multiset(FailedNames(c))[x] == |set i: nat | i < |c.names| && c.fails[i] && c.names[i] == x|
    {
      ListCounts(NameOf(c), c.fails, x);
      SetCounts(NameOf(c), c.fails, |c.names|, x);
      assert FailedAs(NameOf(c), c.fails, |c.names|, x) == set i: nat | i < |c.names| && c.fails[i] && c.names[i] == x;
    }
  }

  // The retry loop -------------------------------------------------------------------------------

  const MAX_ATTEMPTS: nat := 10

  predicate AllFail(fails: seq<bool>) {
    forall i :: 0 <= i < |fails| ==> fails[i]
  }

  lemma {:induction false} CountFailing(fails: seq<bool>)
    ensures |FailingPositions(fails)| <= |fails|
    ensures |FailingPositions(fails)| == |fails| <==> AllFail(fails)
    decreases |fails|
  {
    if fails == [] {
    } else {
      var n := |fails| - 1;
      CountFailing(fails[..n]);
      assert AllFail(fails) <==> AllFail(fails[..n]) && fails[n];
    }
  }

  /** `outcomes[r][i]` says whether client `i` would fail in round `r`. The loop stops after the first
      round in which somebody connects, and after ten rounds at the latest; so a client that connected
      is never connected again, and one that failed beside it is not tried again either. */
  method RetryLoop(names: seq<string>, outcomes: seq<seq<bool>>) returns (rounds: nat, connected: bool)
    requires names != [] && |outcomes| == 10
    requires forall r :: 0 <= r < |outcomes| ==> |outcomes[r]| == |names|
    ensures 1 <= rounds <= 10
    ensures connected <==> var last := outcomes[rounds - 1]; exists i :: 0 <= i < |last| && !last[i]
    ensures !connected ==> rounds == 10
    ensures forall r, i :: 0 <= r < rounds && 0 <= i < |names| && !outcomes[r][i] ==> r == rounds - 1
  {
    var attempt := 1;
    while attempt <= MAX_ATTEMPTS
      invariant 1 <= attempt <= MAX_ATTEMPTS + 1
      invariant forall r :: 0 <= r < attempt - 1 ==> AllFail(outcomes[r])
    {
      var failed := ConnectAll(Config(names, outcomes[attempt - 1]));
      CountFailing(outcomes[attempt - 1]);
      if |failed| < |names| {
        return attempt, true;
      }
      attempt := attempt + 1;
    }
    return MAX_ATTEMPTS, false;
  }
}
