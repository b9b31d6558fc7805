/**
 * Approved resource snapshots: recorded for a workflow all together or not at all, and
 * kept per resource by a completion-time guard on every upsert.
 */
module Snapshots {
  import opened Json
  import opened Sets

  // ----- rows -----

  datatype Key = Key(
    workspace: string,
    binding: string,
    cluster: string,
    namespace: string,
    kind: string,
    name: string)

  datatype Snapshot = Snapshot(
    run: string,
    command: string,
    commit: string,
    digest: string,
    fields: map<string, Json>,
    completedAt: int)

  type Table = map<Key, Snapshot>

  datatype Entry = Entry(key: Key, snapshot: Snapshot)

  datatype RunRow = RunRow(workspace: string, binding: string, cluster: string, commit: string)

  // What the field extractor reads off a manifest; the resource name is split at its first slash.
  datatype Observed = Observed(kind: string, name: string, namespace: string, fields: map<string, Json>)

  // The parts of a command's diff that are compared; `manifest` is absent when the stored
  // desired manifest is missing or empty.
  datatype Diff = Diff(
    manifest: Option<Observed>,
    resource: string,
    namespace: string,
    run: string,
    workspace: string,
    binding: string,
    cluster: string,
    digest: string)

  datatype Command = Command(
    id: string,
    completed: bool,
    result: Json,
    approvalRef: string,
    diff: Option<Diff>,
    completedAt: Option<int>)

  // ----- the promotion gate of a command result -----

  function Get(j: Json, key: string): Json {
    if j.Obj? && key in j.fields then j.fields[key] else Null
  }

  function Lower(c: char): char {
    if 'A' <= c <= 'Z' then (c as int + 32) as char else c
  }

  predicate SaysFailed(j: Json) {
    j.Str? && |j.s| == 6 && seq(|j.s|, i requires 0 <= i < |j.s| => Lower(j.s[i])) == "failed"
  }

  predicate FailedResource(item: Json) {
    item.Obj? && (Get(item, "applied") == Bool(false) || SaysFailed(Get(item, "status")))
  }

  predicate Eligible(result: Json) {
    && Get(result, "status") == Str("completed")
    && Get(result, "applied") != Bool(false)
    && (Get(result, "resources").List? ==> forall item :: item in Get(result, "resources").items ==> !FailedResource(item))
    && Get(Get(result, "rollout"), "ready") != Bool(false)
  }

  // ----- preparing the snapshots of a workflow -----

  // A command's diff is of this run, on its own resource.
  predicate Valid(fold: string -> string, run: string, row: RunRow, c: Command) {
    && c.diff.Some? && c.diff.value.manifest.Some?
    && var d, m := c.diff.value, c.diff.value.manifest.value;
      && fold(m.kind + "/" + m.name) == fold(d.resource) && m.namespace == d.namespace
      && d.run == run && d.workspace == row.workspace && d.binding == row.binding && d.cluster == row.cluster
  }

  function Prepared(run: string, row: RunRow, now: int, c: Command): Entry
    requires c.diff.Some? && c.diff.value.manifest.Some?
  {
    var d, m := c.diff.value, c.diff.value.manifest.value;
    Entry(
      Key(row.workspace, row.binding, row.cluster, m.namespace, m.kind, m.name),
      Snapshot(run, c.id, row.commit, d.digest, m.fields, if c.completedAt.Some? then c.completedAt.value else now))
  }

  predicate AllValid(fold: string -> string, run: string, row: RunRow, commands: seq<Command>) {
    forall c :: c in commands ==> Valid(fold, run, row, c)
  }

  // One entry per command whose kind has managed fields, in order.
  function Entries(fold: string -> string, run: string, row: RunRow, now: int, commands: seq<Command>): seq<Entry>
    requires AllValid(fold, run, row, commands)
  {
    if commands == [] then []
    else
      var front, last := commands[..|commands| - 1], commands[|commands| - 1];
      assert last in commands;
      Entries(fold, run, row, now, front) +
      if last.diff.value.manifest.value.fields == map[] then [] else [Prepared(run, row, now, last)]
  }

  // prepare_approved_resource_snapshots
  method Prepare(fold: string -> string, run: string, row: RunRow, now: int, commands: seq<Command>) returns (entries: Option<seq<Entry>>)
    ensures entries.Some? <==> AllValid(fold, run, row, commands)
    ensures entries.Some? ==> entries.value == Entries(fold, run, row, now, commands)
  {
    var prepared: seq<Entry> := [];
    for i := 0 to |commands|
      invariant AllValid(fold, run, row, commands[..i])
      invariant prepared == Entries(fold, run, row, now, commands[..i])
    {
      var c := commands[i];
      assert c in commands && commands[..i + 1][..i] == commands[..i];
      if !Valid(fold, run, row, c) {
        return None;
      }
      if c.diff.value.manifest.value.fields != map[] {
        prepared := prepared + [Prepared(run, row, now, c)];
      }
    }
    assert commands[..|commands|] == commands;
    return Some(prepared);
  }

  predicate OfCommand(fold: string -> string, e: Entry, c: Command)
    requires c.diff.Some? && c.diff.value.manifest.Some?
  {
    && e.snapshot.command == c.id && e.snapshot.fields == c.diff.value.manifest.value.fields
    && e.key.namespace == c.diff.value.namespace && fold(e.key.kind + "/" + e.key.name) == fold(c.diff.value.resource)
    && (c.completedAt.Some? ==> e.snapshot.completedAt == c.completedAt.value)
  }

  // Every entry is keyed within the run's own workspace, binding and cluster by the resource its
  // command's diff names, and carries that command's fields.
  lemma {:induction false} EntriesOwned(fold: string -> string, run: string, row: RunRow, now: int, commands: seq<Command>, e: Entry)
    requires AllValid(fold, run, row, commands) && e in Entries(fold, run, row, now, commands)
    ensures e.key.workspace == row.workspace && e.key.binding == row.binding && e.key.cluster == row.cluster
    ensures e.snapshot.run == run && e.snapshot.commit == row.commit && e.snapshot.fields != map[]
    ensures exists c :: c in commands && c.diff.Some? && c.diff.value.manifest.Some? && OfCommand(fold, e, c)
    decreases |commands|
  {
    var front, last := commands[..|commands| - 1], commands[|commands| - 1];
    assert last in commands;
    if e in Entries(fold, run, row, now, front) {
      EntriesOwned(fold, run, row, now, front, e);
    }
  }

  // ----- the completion-time guarded upsert -----

  function Upsert(table: Table, e: Entry): Table {
    if e.key in table && table[e.key].completedAt > e.snapshot.completedAt then table else table[e.key := e.snapshot]
  }

  function UpsertAll(table: Table, entries: seq<Entry>): Table {
    if entries == [] then table else Upsert(UpsertAll(table, entries[..|entries| - 1]), entries[|entries| - 1])
  }

  // The snapshots that were ever there for a key: the stored one and the processed ones.
  ghost predicate Offered(table: Table, entries: seq<Entry>, key: Key, s: Snapshot) {
    (key in table && table[key] == s) || Entry(key, s) in entries
  }

  // After any upserts a key holds one of the snapshots offered for it, of the latest time.
  lemma {:induction false} HoldsLatest(table: Table, entries: seq<Entry>, key: Key)
    ensures key in UpsertAll(table, entries) ==> Offered(table, entries, key, UpsertAll(table, entries)[key])
    ensures forall s :: Offered(table, entries, key, s) ==>
      key in UpsertAll(table, entries) && s.completedAt <= UpsertAll(table, entries)[key].completedAt
    decreases |entries|
  {
    if entries != [] {
      var front, last := entries[..|entries| - 1], entries[|entries| - 1];
      HoldsLatest(table, front, key);
      forall s
        ensures Offered(table, entries, key, s) <==> Offered(table, front, key, s) || Entry(key, s) == last
      {
        assert entries == front + [last];
      }
    }
  }

  // No two different snapshots of one key completed at the same time.
  ghost predicate DistinctTimes(table: Table, entries: seq<Entry>) {
    forall key, s, t :: Offered(table, entries, key, s) && Offered(table, entries, key, t) && s.completedAt == t.completedAt ==> s == t
  }

  // With distinct completion times the processing order does not matter.
  lemma OrderIrrelevant(table: Table, one: seq<Entry>, other: seq<Entry>)
    requires DistinctTimes(table, one) && forall e :: e in one <==> e in other
    ensures UpsertAll(table, one) == UpsertAll(table, other)
  {
    forall key
      ensures key in UpsertAll(table, one) <==> key in UpsertAll(table, other)
      ensures key in UpsertAll(table, one) ==> UpsertAll(table, one)[key] == UpsertAll(table, other)[key]
    {
      HoldsLatest(table, one, key);
      HoldsLatest(table, other, key);
      assert forall s :: Offered(table, one, key, s) <==> Offered(table, other, key, s);
    }
  }

  // Two upserts of one key may be swapped exactly when their times differ, they are the same,
  // or a later snapshot is already stored: on a tie the last one processed stays.
  lemma SwapIff(table: Table, key: Key, a: Snapshot, b: Snapshot)
    ensures Upsert(Upsert(table, Entry(key, a)), Entry(key, b)) == Upsert(Upsert(table, Entry(key, b)), Entry(key, a)) <==>
      a.completedAt != b.completedAt || a == b || (key in table && table[key].completedAt > a.completedAt)
  {
    assert Upsert(Upsert(table, Entry(key, a)), Entry(key, b))[key] == Upsert(Upsert(table, Entry(key, b)), Entry(key, a))[key] <==>
      a.completedAt != b.completedAt || a == b || (key in table && table[key].completedAt > a.completedAt);
  }

  // ----- recording a workflow -----

  datatype Workflow = Workflow(
    run: string,
    row: Option<RunRow>,
    approvals: map<string, bool>,
    commands: seq<Command>,
    now: int)

  // Every approval is granted and has a command, and every command is completed, eligible and valid.
  ghost predicate Complete(fold: string -> string, w: Workflow) {
    w.row.Some? && Approved(w.approvals, w.commands) && Finished(w.commands) && AllValid(fold, w.run, w.row.value, w.commands)
  }

  ghost predicate Approved(approvals: map<string, bool>, commands: seq<Command>) {
    forall id :: id in approvals ==> approvals[id] && HasCommand(commands, id)
  }

  ghost predicate HasCommand(commands: seq<Command>, approval: string) {
    exists c :: c in commands && c.approvalRef == approval
  }

  ghost predicate Finished(commands: seq<Command>) {
    commands != [] && forall c :: c in commands ==> c.completed && Eligible(c.result)
  }

  // What a workflow writes: all of its entries, or none.
  ghost function Writes(fold: string -> string, w: Workflow): seq<Entry> {
    if Complete(fold, w) then Entries(fold, w.run, w.row.value, w.now, w.commands) else []
  }

  // As many granted approvals as approvals: all are granted.
  lemma AllGrantedIff(approvals: map<string, bool>, granted: set<string>)
    requires granted == set id | id in approvals && approvals[id]
    ensures |granted| == |approvals| <==> forall id :: id in approvals ==> approvals[id]
  {
    assert granted <= approvals.Keys && |approvals| == |approvals.Keys|;
    if |granted| == |approvals| {
      SubsetOfSameSize(granted, approvals.Keys);
    } else if granted == approvals.Keys {
      assert false;
    }
  }

  // The approval checks: as many granted approvals as approvals, each referenced by a command.
  method ApprovalsMet(approvals: map<string, bool>, commands: seq<Command>) returns (met: bool)
    ensures met <==> Approved(approvals, commands)
  {
    var granted := set id | id in approvals && approvals[id];
    AllGrantedIff(approvals, granted);
    if approvals != map[] && |granted| != |approvals| {
      return false;
    }
    var referenced := set c | c in commands :: c.approvalRef;
    assert forall id :: id in referenced <==> HasCommand(commands, id);
    return granted == {} || granted <= referenced;
  }

  class SnapshotStore {
    var table: Table

    constructor ()
      ensures table == map[]
    {
      table := map[];
    }

    method UpsertEach(entries: seq<Entry>)
      modifies this
      ensures table == UpsertAll(old(table), entries)
    {
      for i := 0 to |entries|
        invariant table == UpsertAll(old(table), entries[..i])
      {
        var e := entries[i];
        assert entries[..i + 1][..i] == entries[..i];
        if e.key !in table || table[e.key].completedAt <= e.snapshot.completedAt {
          table := table[e.key := e.snapshot];
        }
      }
      assert entries[..|entries|] == entries;
    }

    // record_approved_workflow_snapshots
    method Record(fold: string -> string, w: Workflow) returns (handled: nat)
      modifies this
      ensures table == UpsertAll(old(table), Writes(fold, w))
      ensures handled == if Complete(fold, w) then |w.commands| else 0
    {
      if w.row.None? {
        return 0;
      }
      var approved := ApprovalsMet(w.approvals, w.commands);
      if !approved {
        return 0;
      }
      if w.commands == [] || exists c :: c in w.commands && (!c.completed || !Eligible(c.result)) {
        return 0;
      }
      var entries := Prepare(fold, w.run, w.row.value, w.now, w.commands);
      if entries.None? {
        return 0;
      }
      UpsertEach(entries.value);
      return |w.commands|;
    }
  }

  // ----- any processing order of workflows -----

  ghost function RecordAll(fold: string -> string, table: Table, ws: seq<Workflow>): Table {
    if ws == [] then table else UpsertAll(RecordAll(fold, table, ws[..|ws| - 1]), Writes(fold, ws[|ws| - 1]))
  }

  ghost function AllWrites(fold: string -> string, ws: seq<Workflow>): seq<Entry> {
    if ws == [] then [] else AllWrites(fold, ws[..|ws| - 1]) + Writes(fold, ws[|ws| - 1])
  }

  lemma {:induction false} UpsertConcat(table: Table, a: seq<Entry>, b: seq<Entry>)
    ensures UpsertAll(table, a + b) == UpsertAll(UpsertAll(table, a), b)
    decreases |b|
  {
    if b == [] {
      assert a + b == a;
    } else {
      assert (a + b)[..|a + b| - 1] == a + b[..|b| - 1];
      UpsertConcat(table, a, b[..|b| - 1]);
    }
  }

  lemma {:induction false} RecordAllIsUpserts(fold: string -> string, table: Table, ws: seq<Workflow>)
    ensures RecordAll(fold, table, ws) == UpsertAll(table, AllWrites(fold, ws))
    decreases |ws|
  {
    if ws != [] {
      RecordAllIsUpserts(fold, table, ws[..|ws| - 1]);
      UpsertConcat(table, AllWrites(fold, ws[..|ws| - 1]), Writes(fold, ws[|ws| - 1]));
    }
  }

  lemma {:induction false} WrittenBySome(fold: string -> string, ws: seq<Workflow>, e: Entry)
    ensures e in AllWrites(fold, ws) <==> exists w :: w in ws && e in Writes(fold, w)
    decreases |ws|
  {
    if ws != [] {
      var front, last := ws[..|ws| - 1], ws[|ws| - 1];
      WrittenBySome(fold, front, e);
      assert ws == front + [last];
      assert last in ws;
    }
  }

  // Any two processing orders of the same workflows, duplicates included, leave the same table,
  // which holds for every resource the latest-completed snapshot of a complete workflow.
  lemma WorkflowOrderIrrelevant(fold: string -> string, table: Table, one: seq<Workflow>, other: seq<Workflow>)
    requires forall w :: w in one <==> w in other
    requires DistinctTimes(table, AllWrites(fold, one))
    ensures RecordAll(fold, table, one) == RecordAll(fold, table, other)
  {
    RecordAllIsUpserts(fold, table, one);
    RecordAllIsUpserts(fold, table, other);
    forall e
      ensures e in AllWrites(fold, one) <==> e in AllWrites(fold, other)
    {
      WrittenBySome(fold, one, e);
      WrittenBySome(fold, other, e);
    }
    OrderIrrelevant(table, AllWrites(fold, one), AllWrites(fold, other));
  }

  lemma LatestOfWorkflows(fold: string -> string, table: Table, ws: seq<Workflow>, key: Key)
    requires key in RecordAll(fold, table, ws)
    ensures var s := RecordAll(fold, table, ws)[key];
            && ((key in table && table[key] == s) || exists w :: w in ws && Entry(key, s) in Writes(fold, w))
            && (key in table ==> table[key].completedAt <= s.completedAt)
            && forall w, t :: w in ws && Entry(key, t) in Writes(fold, w) ==> t.completedAt <= s.completedAt
  {
    RecordAllIsUpserts(fold, table, ws);
    var s := RecordAll(fold, table, ws)[key];
    HoldsLatest(table, AllWrites(fold, ws), key);
    WrittenBySome(fold, ws, Entry(key, s));
    forall w, t | w in ws && Entry(key, t) in Writes(fold, w)
      ensures t.completedAt <= s.completedAt
    {
      WrittenBySome(fold, ws, Entry(key, t));
      assert Offered(table, AllWrites(fold, ws), key, t);
    }
  }
}
