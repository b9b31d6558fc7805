/**
 * The workflow tables themselves: each statement of the repository as one atomic step on
 * a table, and what holds of every row over any history of statements.
 */
module WorkflowStore {
  import opened Json
  import opened WorkflowRuns

  // `identity` stands for the columns that only the first insert writes.
  datatype Run = Run(
    identity: Json,
    status: RunStatus,
    currentStep: string,
    summary: Json,
    commandId: Option<string>,
    metadata: Json)

  datatype Step = Step(identity: Json, status: StepStatus, message: Json, details: Json)

  // The columns present in an update payload.
  datatype Patch = Patch(
    status: Option<RunStatus>,
    currentStep: Option<string>,
    summary: Option<Json>,
    commandId: Option<Option<string>>,
    metadata: Option<Json>)

  type Runs = map<string, Run>
  type Steps = map<(string, string), Step>

  function Or<T>(patch: Option<T>, current: T): T {
    if patch.Some? then patch.value else current
  }

  function Patched(run: Run, patch: Patch): Run {
    Run(run.identity, Or(patch.status, run.status), Or(patch.currentStep, run.currentStep),
        Or(patch.summary, run.summary), Or(patch.commandId, run.commandId), Or(patch.metadata, run.metadata))
  }

  // A status change must pass the guard; an update without a status is unguarded.
  predicate Allowed(run: Run, patch: Patch) {
    patch.status.Some? ==> Guard(RUNS, run.status, patch.status.value)
  }

  // INSERT ... ON CONFLICT DO UPDATE ... WHERE guard
  function AfterStart(runs: Runs, id: string, row: Run): Runs {
    if id !in runs then runs[id := row]
    else if Guard(RUNS, runs[id].status, row.status) then runs[id := row.(identity := runs[id].identity)]
    else runs
  }

  function AfterUpdate(runs: Runs, id: string, patch: Patch): Runs {
    if id in runs && Allowed(runs[id], patch) then runs[id := Patched(runs[id], patch)] else runs
  }

  function AfterCommandUpdate(runs: Runs, commandId: string, patch: Patch): Runs {
    map id | id in runs ::
      if runs[id].commandId == Some(commandId) && Allowed(runs[id], patch)
      then Patched(runs[id], patch.(commandId := None))
      else runs[id]
  }

  function AfterStep(steps: Steps, key: (string, string), row: Step): Steps {
    if key !in steps then steps[key := row]
    else if Guard(STEPS, steps[key].status, row.status) then steps[key := row.(identity := steps[key].identity)]
    else steps
  }

  // The rows of a command that allow the payload.
  function ChangedBy(runs: Runs, commandId: string, patch: Patch): set<string> {
    set id | id in runs && runs[id].commandId == Some(commandId) && Allowed(runs[id], patch)
  }

  // The outcome of a statement by command: several changed rows raise.
  datatype Mutation = NotApplied | Applied(id: string) | Ambiguous

  class Store {
    var runs: Runs
    var steps: Steps

    constructor ()
      ensures runs == map[] && steps == map[]
    {
      runs, steps := map[], map[];
    }

    // start_workflow_run
    method StartWorkflowRun(id: string, row: Run) returns (applied: bool)
      modifies this`runs
      ensures runs == AfterStart(old(runs), id, row)
      ensures applied <==> id !in old(runs) || Guard(RUNS, old(runs)[id].status, row.status)
      ensures applied ==> runs[id].status == row.status
      ensures !applied ==> runs == old(runs)
    {
      if id !in runs {
        runs := runs[id := row];
        return true;
      }
      var current := runs[id];
      if Terminal(RUNS, current.status) || Rank(RUNS, current.status) > Rank(RUNS, row.status) || current.status == row.status {
        return false;
      }
      runs := runs[id := row.(identity := current.identity)];
      return true;
    }

    // update_workflow_run
    method UpdateWorkflowRun(id: string, patch: Patch) returns (applied: bool)
      modifies this`runs
      ensures runs == AfterUpdate(old(runs), id, patch)
      ensures applied <==> id in old(runs) && Allowed(old(runs)[id], patch)
      ensures runs.Keys == old(runs).Keys
    {
      if id !in runs {
        return false;
      }
      if patch.status.Some? && !Guard(RUNS, runs[id].status, patch.status.value) {
        return false;
      }
      runs := runs[id := Patched(runs[id], patch)];
      return true;
    }

    // update_workflow_run_for_command: the statement visits the rows of the command, and its
    // result names the row it changed, none, or raises when it changed several. Raising undoes the
    // changes inside a unit of work, and comes after the commit outside one.
    method UpdateWorkflowRunForCommand(commandId: string, patch: Patch, inUnit: bool) returns (result: Mutation)
      modifies this`runs
      ensures runs == if inUnit && result.Ambiguous? then old(runs) else AfterCommandUpdate(old(runs), commandId, patch)
      ensures result.NotApplied? <==> ChangedBy(old(runs), commandId, patch) == {}
      ensures result.Applied? ==> ChangedBy(old(runs), commandId, patch) == {result.id}
      ensures result.Ambiguous? ==>
        exists a, b :: a != b && a in ChangedBy(old(runs), commandId, patch) && b in ChangedBy(old(runs), commandId, patch)
      ensures result.NotApplied? ==> runs == old(runs)
    {
      var rest, changed, updated := runs.Keys, {}, runs;
      while rest != {}
        invariant rest <= runs.Keys && updated.Keys == runs.Keys
        invariant changed == ChangedBy(runs, commandId, patch) - rest
        invariant forall id :: id in runs ==> updated[id] == if id in rest then runs[id] else AfterCommandUpdate(runs, commandId, patch)[id]
        decreases rest
      {
        var id :| id in rest;
        if runs[id].commandId == Some(commandId) && Allowed(runs[id], patch) {
          updated := updated[id := Patched(runs[id], patch.(commandId := None))];
          changed := changed + {id};
        }
        rest := rest - {id};
      }
      var before := runs;
      runs := updated;
      if changed == {} {
        return NotApplied;
      }
      var id :| id in changed;
      if changed == {id} {
        return Applied(id);
      }
      ghost var other :| other in changed && other != id;
      if inUnit {
        runs := before;
      }
      return Ambiguous;
    }

    // record_workflow_step
    method RecordWorkflowStep(key: (string, string), row: Step) returns (applied: bool)
      modifies this`steps
      ensures steps == AfterStep(old(steps), key, row)
      ensures applied <==> key !in old(steps) || Guard(STEPS, old(steps)[key].status, row.status)
      ensures !applied ==> steps == old(steps)
    {
      if key !in steps {
        steps := steps[key := row];
        return true;
      }
      var current := steps[key];
      if !Guard(STEPS, current.status, row.status) {
        return false;
      }
      steps := steps[key := row.(identity := current.identity)];
      return true;
    }
  }

  // ----- histories of committed statements -----

  datatype Statement =
    | Start(id: string, row: Run)
    | Update(id: string, patch: Patch)
    | ForCommand(commandId: string, patch: Patch)

  function Execute(runs: Runs, s: Statement): Runs {
    match s
    case Start(id, row) => AfterStart(runs, id, row)
    case Update(id, patch) => AfterUpdate(runs, id, patch)
    case ForCommand(commandId, patch) => AfterCommandUpdate(runs, commandId, patch)
  }

  function ExecuteAll(runs: Runs, history: seq<Statement>): Runs {
    if history == [] then runs else Execute(ExecuteAll(runs, history[..|history| - 1]), history[|history| - 1])
  }

  // Any statement on any row either leaves its status or advances it through the guard.
  lemma OneStatement(runs: Runs, s: Statement, id: string)
    requires id in runs
    ensures id in Execute(runs, s) && Execute(runs, s)[id].identity == runs[id].identity
    ensures Execute(runs, s)[id].status == runs[id].status || Guard(RUNS, runs[id].status, Execute(runs, s)[id].status)
  {
  }

  // Whether a statement addresses a row: by its id, or through its command.
  predicate Addresses(runs: Runs, s: Statement, id: string) {
    match s
    case Start(i, _) => i == id
    case Update(i, _) => i == id
    case ForCommand(commandId, _) => id in runs && runs[id].commandId == Some(commandId)
  }

  // A statement leaves every row it does not address alone, and creates no other row.
  lemma StatementFrame(runs: Runs, s: Statement, id: string)
    requires !Addresses(runs, s, id)
    ensures id in Execute(runs, s) <==> id in runs
    ensures id in runs ==> Execute(runs, s)[id] == runs[id]
  {
  }

  // A statement that carries a status and leaves the row's status leaves the whole row.
  lemma RefusedChangesNothing(runs: Runs, s: Statement, id: string)
    requires id in runs && Execute(runs, s)[id].status == runs[id].status
    requires s.Start? || s.patch.status.Some?
    ensures Execute(runs, s)[id] == runs[id]
  {
  }

  // Over every history of statements, of any kind and on any rows, an existing row keeps its
  // identity, never falls in rank, and never leaves a terminal status.
  lemma {:induction false} RowsNeverRegress(runs: Runs, history: seq<Statement>, id: string)
    requires id in runs && Known(RUNS, runs[id].status)
    ensures id in ExecuteAll(runs, history)
    ensures var row := ExecuteAll(runs, history)[id];
            && row.identity == runs[id].identity
            && Known(RUNS, row.status) && Rank(RUNS, row.status) >= Rank(RUNS, runs[id].status)
            && (Terminal(RUNS, runs[id].status) ==> row.status == runs[id].status)
            && (row.status != runs[id].status ==> Rank(RUNS, row.status) > Rank(RUNS, runs[id].status))
    decreases |history|
  {
    if history != [] {
      var before := ExecuteAll(runs, history[..|history| - 1]);
      RowsNeverRegress(runs, history[..|history| - 1], id);
      OneStatement(before, history[|history| - 1], id);
      LaddersWellRanked();
      var now := Execute(before, history[|history| - 1])[id].status;
      if Guard(RUNS, before[id].status, now) {
        AdvanceRaises(RUNS, 8, before[id].status, now);
      }
    }
  }

  // The statuses one statement delivers to a row of the table it meets: none, or one.
  function Delivered(runs: Runs, s: Statement, id: string): seq<RunStatus> {
    match s
    case Start(i, row) => if i == id then [row.status] else []
    case Update(i, patch) => if i == id && patch.status.Some? then [patch.status.value] else []
    case ForCommand(_, patch) => if Addresses(runs, s, id) && patch.status.Some? then [patch.status.value] else []
  }

  // The statuses a history delivers to one row, by its id or through its command.
  function Statuses(runs: Runs, history: seq<Statement>, id: string): seq<RunStatus> {
    if history == [] then []
    else
      var front, last := history[..|history| - 1], history[|history| - 1];
      Statuses(runs, front, id) + Delivered(ExecuteAll(runs, front), last, id)
  }

  // One statement acts on a row's status as its deliveries do.
  lemma OneDelivery(runs: Runs, s: Statement, id: string)
    requires id in runs
    ensures id in Execute(runs, s)
    ensures Delivered(runs, s, id) == [] ==> Execute(runs, s)[id].status == runs[id].status
    ensures Delivered(runs, s, id) != [] ==>
              Delivered(runs, s, id) == [Delivered(runs, s, id)[0]] &&
              Execute(runs, s)[id].status == Advance(RUNS, runs[id].status, Delivered(runs, s, id)[0])
  {
  }

  lemma FinalSnoc<S(!new)>(ladder: Ladder<S>, start: S, deliveries: seq<S>, next: S)
    ensures Final(ladder, start, deliveries + [next]) == Advance(ladder, Final(ladder, start, deliveries), next)
  {
    assert (deliveries + [next])[..|deliveries|] == deliveries;
  }

  // A row's status after any history, of all three kinds of statements, is the delivery fold of
  // the statuses delivered to it.
  lemma {:induction false} StatusIsFinal(runs: Runs, history: seq<Statement>, id: string)
    requires id in runs
    ensures id in ExecuteAll(runs, history)
    ensures ExecuteAll(runs, history)[id].status == Final(RUNS, runs[id].status, Statuses(runs, history, id))
    decreases |history|
  {
    if history != [] {
      var front, last := history[..|history| - 1], history[|history| - 1];
      StatusIsFinal(runs, front, id);
      var table, before := ExecuteAll(runs, front), Statuses(runs, front, id);
      OneDelivery(table, last, id);
      if Delivered(table, last, id) == [] {
        assert before + [] == before;
      } else {
        FinalSnoc(RUNS, runs[id].status, before, Delivered(table, last, id)[0]);
      }
    }
  }

  // Two histories that deliver the same statuses to a row, in any order and number and by any
  // kind of statement, with at most one terminal status around, leave it in the same status.
  lemma DeliveryOrderIrrelevant(runs: Runs, one: seq<Statement>, other: seq<Statement>, id: string)
    requires id in runs && Known(RUNS, runs[id].status)
    requires forall st :: st in Statuses(runs, one, id) <==> st in Statuses(runs, other, id)
    requires forall st :: st in Statuses(runs, one, id) ==> Known(RUNS, st)
    requires OneTerminal(RUNS, runs[id].status, Statuses(runs, one, id))
    ensures id in ExecuteAll(runs, one) && id in ExecuteAll(runs, other)
    ensures ExecuteAll(runs, one)[id].status == ExecuteAll(runs, other)[id].status
  {
    StatusIsFinal(runs, one, id);
    StatusIsFinal(runs, other, id);
    LaddersWellRanked();
    Confluence(RUNS, 8, runs[id].status, Statuses(runs, one, id), Statuses(runs, other, id));
  }

  // The statuses of a row before and after every statement of a history.
  function Trace(runs: Runs, history: seq<Statement>, id: string): seq<RunStatus>
    requires id in runs
  {
    if history == [] then [runs[id].status]
    else
      var now := ExecuteAll(runs, history);
      Trace(runs, history[..|history| - 1], id) + if id in now then [now[id].status] else []
  }

  lemma {:induction false} TraceGuarded(runs: Runs, history: seq<Statement>, id: string)
    requires id in runs
    ensures |Trace(runs, history, id)| == |history| + 1 && Trace(runs, history, id)[0] == runs[id].status
    ensures id in ExecuteAll(runs, history) && Trace(runs, history, id)[|history|] == ExecuteAll(runs, history)[id].status
    ensures Guarded(RUNS, Trace(runs, history, id))
    decreases |history|
  {
    if history != [] {
      var front, last := history[..|history| - 1], history[|history| - 1];
      TraceGuarded(runs, front, id);
      OneStatement(ExecuteAll(runs, front), last, id);
    }
  }

  // Over every history of statements of any kind, the status of an existing row changes at most
  // seven times.
  lemma FewStatusChanges(runs: Runs, history: seq<Statement>, id: string)
    requires id in runs && Known(RUNS, runs[id].status)
    ensures Moves(Trace(runs, history, id)) <= 7
  {
    LaddersWellRanked();
    TraceGuarded(runs, history, id);
    MovesRaise(RUNS, 8, Trace(runs, history, id));
  }

  // ----- histories of steps -----

  datatype Recording = Recording(key: (string, string), row: Step)

  function RecordAll(steps: Steps, history: seq<Recording>): Steps {
    if history == [] then steps
    else AfterStep(RecordAll(steps, history[..|history| - 1]), history[|history| - 1].key, history[|history| - 1].row)
  }

  function StepStatuses(history: seq<Recording>, key: (string, string)): seq<StepStatus> {
    if history == [] then []
    else
      var last := history[|history| - 1];
      StepStatuses(history[..|history| - 1], key) + if last.key == key then [last.row.status] else []
  }

  // A step's status after any recordings is the delivery fold of the statuses recorded for it;
  // its identity columns stay, and recordings of other steps do not matter.
  lemma {:induction false} StepStatusIsFinal(steps: Steps, history: seq<Recording>, key: (string, string))
    requires key in steps
    ensures key in RecordAll(steps, history) && RecordAll(steps, history)[key].identity == steps[key].identity
    ensures RecordAll(steps, history)[key].status == Final(STEPS, steps[key].status, StepStatuses(history, key))
    decreases |history|
  {
    if history != [] {
      var front, last := history[..|history| - 1], history[|history| - 1];
      StepStatusIsFinal(steps, front, key);
      var before := StepStatuses(front, key);
      if last.key == key {
        FinalSnoc(STEPS, steps[key].status, before, last.row.status);
      } else {
        assert before + [] == before;
      }
    }
  }

  lemma StepOrderIrrelevant(steps: Steps, one: seq<Recording>, other: seq<Recording>, key: (string, string))
    requires key in steps && Known(STEPS, steps[key].status)
    requires forall st :: st in StepStatuses(one, key) <==> st in StepStatuses(other, key)
    requires forall st :: st in StepStatuses(one, key) ==> Known(STEPS, st)
    requires OneTerminal(STEPS, steps[key].status, StepStatuses(one, key))
    ensures key in RecordAll(steps, one) && key in RecordAll(steps, other)
    ensures RecordAll(steps, one)[key].status == RecordAll(steps, other)[key].status
  {
    StepStatusIsFinal(steps, one, key);
    StepStatusIsFinal(steps, other, key);
    LaddersWellRanked();
    Confluence(STEPS, 3, steps[key].status, StepStatuses(one, key), StepStatuses(other, key));
  }

  function StepTrace(steps: Steps, history: seq<Recording>, key: (string, string)): seq<StepStatus>
    requires key in steps
  {
    if history == [] then [steps[key].status]
    else
      var now := RecordAll(steps, history);
      StepTrace(steps, history[..|history| - 1], key) + if key in now then [now[key].status] else []
  }

  lemma {:induction false} StepTraceGuarded(steps: Steps, history: seq<Recording>, key: (string, string))
    requires key in steps
    ensures |StepTrace(steps, history, key)| == |history| + 1 && StepTrace(steps, history, key)[0] == steps[key].status
    ensures key in RecordAll(steps, history) && StepTrace(steps, history, key)[|history|] == RecordAll(steps, history)[key].status
    ensures Guarded(STEPS, StepTrace(steps, history, key))
    decreases |history|
  {
    if history != [] {
      StepTraceGuarded(steps, history[..|history| - 1], key);
    }
  }

  // Over every history a step never falls in rank, never leaves a terminal status, and changes
  // its status at most twice.
  lemma StepsNeverRegress(steps: Steps, history: seq<Recording>, key: (string, string))
    requires key in steps && Known(STEPS, steps[key].status)
    ensures key in RecordAll(steps, history) && Moves(StepTrace(steps, history, key)) <= 2
    ensures Rank(STEPS, steps[key].status) <= Rank(STEPS, RecordAll(steps, history)[key].status)
    ensures Terminal(STEPS, steps[key].status) ==> RecordAll(steps, history)[key].status == steps[key].status
  {
    LaddersWellRanked();
    StepTraceGuarded(steps, history, key);
    MovesRaise(STEPS, 3, StepTrace(steps, history, key));
  }
}
