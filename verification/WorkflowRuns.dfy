/**
 * Workflow status tables: rank-guarded upserts and updates that tolerate redelivered
 * and reordered events.
 */
module WorkflowRuns {
  import opened Json

  // ----- status ladders -----

  datatype RunStatus =
    | Started
    | Rendering
    | Diffing
    | PolicyChecking
    | WaitingForApproval
    | Applying
    | RolloutWaiting
    | RunSucceeded
    | RunFailed
    | OtherRunStatus(text: string)

  datatype StepStatus = Pending | Running | StepSucceeded | StepFailed | StepSkipped | OtherStepStatus(text: string)

  // Ranks of the statuses, with the terminal ones; any other stored text has rank 0.
  datatype Ladder<!S> = Ladder(rank: S -> nat, terminal: S -> bool)

  function RunRank(status: RunStatus): nat {
    match status
    case Started => 1
    case Rendering => 2
    case Diffing => 3
    case PolicyChecking => 4
    case WaitingForApproval => 5
    case Applying => 6
    case RolloutWaiting => 7
    case RunSucceeded => 8
    case RunFailed => 8
    case OtherRunStatus(_) => 0
  }

  function StepRank(status: StepStatus): nat {
    match status
    case Pending => 1
    case Running => 2
    case StepSucceeded => 3
    case StepFailed => 3
    case StepSkipped => 3
    case OtherStepStatus(_) => 0
  }

  const RUNS: Ladder<RunStatus> := Ladder(RunRank, (s: RunStatus) => s.RunSucceeded? || s.RunFailed?)

  const STEPS: Ladder<StepStatus> := Ladder(StepRank, (s: StepStatus) => s.StepSucceeded? || s.StepFailed? || s.StepSkipped?)

  function Rank<S>(ladder: Ladder<S>, status: S): nat {
    ladder.rank(status)
  }

  predicate Known<S>(ladder: Ladder<S>, status: S) {
    ladder.rank(status) > 0
  }

  predicate Terminal<S>(ladder: Ladder<S>, status: S) {
    ladder.terminal(status)
  }

  // Distinct ranks below the top, and exactly the terminal statuses at the top.
  ghost predicate WellRanked<S(!new)>(ladder: Ladder<S>, top: nat) {
    && top > 0
    && (forall s :: Rank(ladder, s) <= top && (Rank(ladder, s) == top <==> Terminal(ladder, s)))
    && (forall s, t :: 0 < Rank(ladder, s) == Rank(ladder, t) < top ==> s == t)
  }

  lemma LaddersWellRanked()
    ensures WellRanked(RUNS, 8) && WellRanked(STEPS, 3)
  {
  }

  // The transition guard together with the replay check of every statement.
  predicate Guard<S(==)>(ladder: Ladder<S>, current: S, next: S) {
    !Terminal(ladder, current) && Rank(ladder, current) <= Rank(ladder, next) && current != next
  }

  function Advance<S(==)>(ladder: Ladder<S>, current: S, next: S): S {
    if Guard(ladder, current, next) then next else current
  }

  // From a known status, an applied mutation reaches a known status of strictly higher rank.
  lemma AdvanceRaises<S(!new)>(ladder: Ladder<S>, top: nat, current: S, next: S)
    requires WellRanked(ladder, top) && Known(ladder, current) && Guard(ladder, current, next)
    ensures Known(ladder, next) && Rank(ladder, next) > Rank(ladder, current)
  {
  }

  // ----- whole delivery histories -----

  function Final<S(==)>(ladder: Ladder<S>, start: S, deliveries: seq<S>): S {
    if deliveries == [] then start
    else Advance(ladder, Final(ladder, start, deliveries[..|deliveries| - 1]), deliveries[|deliveries| - 1])
  }

  function Applied<S(==)>(ladder: Ladder<S>, start: S, deliveries: seq<S>): nat {
    if deliveries == [] then 0
    else
      var front, last := deliveries[..|deliveries| - 1], deliveries[|deliveries| - 1];
      Applied(ladder, start, front) + if Guard(ladder, Final(ladder, start, front), last) then 1 else 0
  }

  // Every applied mutation costs at least one rank, so few can apply.
  lemma {:induction false} AppliedBounded<S(!new)>(ladder: Ladder<S>, top: nat, start: S, deliveries: seq<S>)
    requires WellRanked(ladder, top) && Known(ladder, start)
    ensures Known(ladder, Final(ladder, start, deliveries))
    ensures Rank(ladder, start) + Applied(ladder, start, deliveries) <= Rank(ladder, Final(ladder, start, deliveries)) <= top
    decreases |deliveries|
  {
    if deliveries != [] {
      var front, last := deliveries[..|deliveries| - 1], deliveries[|deliveries| - 1];
      AppliedBounded(ladder, top, start, front);
      if Guard(ladder, Final(ladder, start, front), last) {
        AdvanceRaises(ladder, top, Final(ladder, start, front), last);
      }
    }
  }

  lemma {:induction false} TerminalNeverChanges<S(!new)>(ladder: Ladder<S>, start: S, deliveries: seq<S>)
    requires Terminal(ladder, start)
    ensures Final(ladder, start, deliveries) == start
    decreases |deliveries|
  {
    if deliveries != [] {
      TerminalNeverChanges(ladder, start, deliveries[..|deliveries| - 1]);
    }
  }

  function FirstTerminal<S>(ladder: Ladder<S>, deliveries: seq<S>): (first: Option<S>)
    ensures first.Some? ==> Terminal(ladder, first.value) && first.value in deliveries
    ensures first.None? ==> forall d :: d in deliveries ==> !Terminal(ladder, d)
  {
    if deliveries == [] then None
    else
      var front, last := FirstTerminal(ladder, deliveries[..|deliveries| - 1]), deliveries[|deliveries| - 1];
      if front.Some? then front else if Terminal(ladder, last) then Some(last) else None
  }

  // `best` is one of the statuses and none of them ranks higher.
  predicate Highest<S(==)>(ladder: Ladder<S>, best: S, start: S, deliveries: seq<S>) {
    (best == start || best in deliveries) && Rank(ladder, best) >= Rank(ladder, start) &&
    forall d :: d in deliveries ==> Rank(ladder, best) >= Rank(ladder, d)
  }

  // The outcome of any history from a known status: a terminal start stays; otherwise the
  // first terminal status delivered; otherwise the highest-ranked status seen.
  lemma {:induction false} Outcome<S(!new)>(ladder: Ladder<S>, top: nat, start: S, deliveries: seq<S>)
    requires WellRanked(ladder, top) && Known(ladder, start)
    ensures var final, first := Final(ladder, start, deliveries), FirstTerminal(ladder, deliveries);
            && Highest(ladder, final, start, deliveries)
            && (Terminal(ladder, start) ==> final == start)
            && (!Terminal(ladder, start) && first.Some? ==> final == first.value)
    decreases |deliveries|
  {
    if deliveries != [] {
      var front, last := deliveries[..|deliveries| - 1], deliveries[|deliveries| - 1];
      Outcome(ladder, top, start, front);
      AppliedBounded(ladder, top, start, front);
      assert forall d :: d in deliveries <==> d in front || d == last by {
        assert deliveries == front + [last];
      }
      var before := Final(ladder, start, front);
      if Guard(ladder, before, last) {
        AdvanceRaises(ladder, top, before, last);
      }
    }
  }

  ghost predicate OneTerminal<S(!new)>(ladder: Ladder<S>, start: S, deliveries: seq<S>) {
    forall a, b ::
      (a == start || a in deliveries) && (b == start || b in deliveries) && Terminal(ladder, a) && Terminal(ladder, b) ==> a == b
  }

  // With at most one terminal status around, the outcome depends only on which statuses
  // occur: any order and any duplication end in the same highest-ranked status.
  lemma Confluence<S(!new)>(ladder: Ladder<S>, top: nat, start: S, one: seq<S>, other: seq<S>)
    requires WellRanked(ladder, top) && Known(ladder, start) && OneTerminal(ladder, start, one)
    requires forall d :: d in one <==> d in other
    requires forall d :: d in one ==> Known(ladder, d)
    ensures Final(ladder, start, one) == Final(ladder, start, other)
    ensures Highest(ladder, Final(ladder, start, one), start, one)
  {
    Outcome(ladder, top, start, one);
    Outcome(ladder, top, start, other);
    AppliedBounded(ladder, top, start, one);
    AppliedBounded(ladder, top, start, other);
    var a, b := Final(ladder, start, one), Final(ladder, start, other);
    assert Rank(ladder, a) == Rank(ladder, b);
  }

  // Two different terminal deliveries race: each can be made to win by reordering.
  lemma RaceDecidedByOrder<S(!new)>(ladder: Ladder<S>, top: nat, start: S, deliveries: seq<S>, winner: S)
    requires WellRanked(ladder, top) && Known(ladder, start) && !Terminal(ladder, start)
    requires winner in deliveries && Terminal(ladder, winner)
    ensures exists reordered :: multiset(reordered) == multiset(deliveries) && Final(ladder, start, reordered) == winner
  {
    var i :| 0 <= i < |deliveries| && deliveries[i] == winner;
    var others := deliveries[..i] + deliveries[i + 1..];
    MovedFirst(deliveries, i);
    FirstTerminalOfCons(ladder, winner, others);
    Outcome(ladder, top, start, [winner] + others);
  }

  lemma MovedFirst<S>(xs: seq<S>, i: nat)
    requires i < |xs|
    ensures multiset([xs[i]] + (xs[..i] + xs[i + 1..])) == multiset(xs)
  {
    assert xs == xs[..i] + [xs[i]] + xs[i + 1..];
  }

  lemma {:induction false} FirstTerminalOfCons<S(!new)>(ladder: Ladder<S>, first: S, rest: seq<S>)
    requires Terminal(ladder, first)
    ensures FirstTerminal(ladder, [first] + rest) == Some(first)
    decreases |rest|
  {
    var whole := [first] + rest;
    if rest == [] {
      assert whole == [first] && whole[..0] == [];
    } else {
      assert whole[..|whole| - 1] == [first] + rest[..|rest| - 1];
      FirstTerminalOfCons(ladder, first, rest[..|rest| - 1]);
    }
  }

  // Reordering cannot change the outcome exactly when the start is terminal or at most one
  // terminal status is delivered.
  lemma OrderIrrelevantIff<S(!new)>(ladder: Ladder<S>, top: nat, start: S, deliveries: seq<S>)
    requires WellRanked(ladder, top) && Known(ladder, start) && forall d :: d in deliveries ==> Known(ladder, d)
    ensures (forall reordered :: multiset(reordered) == multiset(deliveries) ==>
                                 Final(ladder, start, reordered) == Final(ladder, start, deliveries))
        <==> Terminal(ladder, start) || OneTerminal(ladder, start, deliveries)
  {
    if Terminal(ladder, start) {
      forall reordered
        ensures Final(ladder, start, reordered) == Final(ladder, start, deliveries)
      {
        TerminalNeverChanges(ladder, start, reordered);
        TerminalNeverChanges(ladder, start, deliveries);
      }
    } else if OneTerminal(ladder, start, deliveries) {
      forall reordered | multiset(reordered) == multiset(deliveries)
        ensures Final(ladder, start, reordered) == Final(ladder, start, deliveries)
      {
        assert forall d :: d in deliveries <==> d in multiset(deliveries);
        assert forall d :: d in reordered <==> d in multiset(reordered);
        Confluence(ladder, top, start, deliveries, reordered);
      }
    } else {
      var a, b :| a in deliveries && b in deliveries && Terminal(ladder, a) && Terminal(ladder, b) && a != b;
      RaceDecidedByOrder(ladder, top, start, deliveries, a);
      RaceDecidedByOrder(ladder, top, start, deliveries, b);
    }
  }

  // ----- the statuses a row goes through -----

  // Every step of the trace stays or passes the guard.
  predicate Guarded<S(==)>(ladder: Ladder<S>, trace: seq<S>) {
    forall i :: 0 <= i < |trace| - 1 ==> trace[i + 1] == trace[i] || Guard(ladder, trace[i], trace[i + 1])
  }

  function Moves<S(==)>(trace: seq<S>): nat {
    if |trace| < 2 then 0
    else Moves(trace[..|trace| - 1]) + if trace[|trace| - 1] != trace[|trace| - 2] then 1 else 0
  }

  // Each move raises the rank, so the last status is as many ranks up as there were moves.
  lemma {:induction false} MovesRaise<S(!new)>(ladder: Ladder<S>, top: nat, trace: seq<S>)
    requires WellRanked(ladder, top) && trace != [] && Guarded(ladder, trace) && Known(ladder, trace[0])
    ensures Known(ladder, trace[|trace| - 1])
    ensures Rank(ladder, trace[0]) + Moves(trace) <= Rank(ladder, trace[|trace| - 1]) <= top
    ensures Terminal(ladder, trace[0]) ==> trace[|trace| - 1] == trace[0]
    decreases |trace|
  {
    if |trace| > 1 {
      var front := trace[..|trace| - 1];
      MovesRaise(ladder, top, front);
      var i := |trace| - 2;
      assert trace[i + 1] == trace[i] || Guard(ladder, trace[i], trace[i + 1]);
      if trace[i + 1] != trace[i] {
        AdvanceRaises(ladder, top, trace[i], trace[i + 1]);
      }
    }
  }
}
