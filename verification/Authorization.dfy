/**
 * `recovery_diff_matches_approved_scope`: accepting a whole recovery diff, and the
 * guarantee that composes the field comparison with the acceptance.
 */
module Authorization {
  import opened Json
  import opened Text
  import opened FieldPath
  import opened Location
  import opened ObjectPath
  import opened Replacements
  import opened PatchPlan
  import opened Projection
  import opened Diffing
  import opened RecoveryMerge

  // str() of a value that is not a string, and str.casefold().
  datatype Python = Python(str: Json -> string, casefold: string -> string)

  datatype Target = Target(namespace: string, kind: string, name: string)

  datatype Diff = Diff(
    resource: string,
    namespace: string,
    desired: Json,
    hasChanges: bool,
    status: string,
    changes: seq<Change>)

  predicate Falsy(j: Json) {
    match j
    case Null => true
    case Bool(b) => !b
    case Int(i) => i == 0
    case Float(r) => r == 0.0
    case Str(s) => s == ""
    case List(xs) => xs == []
    case Obj(m) => m == map[]
  }

  function TextOf(py: Python, j: Json): string {
    if Falsy(j) then "" else if j.Str? then Strip(j.s) else Strip(py.str(j))
  }

  // mapping(value).get(key)
  function Entry(j: Json, key: string): Json {
    if j.Obj? && key in j.fields then j.fields[key] else Null
  }

  function FirstSlash(s: string): (i: Option<nat>)
    ensures i.Some? ==> i.value < |s| && s[i.value] == '/' && '/' !in s[..i.value]
    ensures i.None? ==> '/' !in s
  {
    if s == "" then None
    else if s[0] == '/' then Some(0)
    else
      var more := FirstSlash(s[1..]);
      if more.None? then None else Some(more.value + 1)
  }

  // The diff and the rendered manifest both name the approved resource.
  predicate SameResource(py: Python, target: Target, diff: Diff) {
    var namespace, kind, name := Strip(target.namespace), Strip(target.kind), Strip(target.name);
    var resource := Strip(diff.resource);
    var slash := FirstSlash(resource);
    var metadata := Entry(diff.desired, "metadata");
    && namespace != "" && kind != "" && name != ""
    && diff.namespace == namespace
    && slash.Some?
    && py.casefold(resource[..slash.value]) == py.casefold(kind)
    && resource[slash.value + 1..] == name
    && py.casefold(TextOf(py, Entry(diff.desired, "kind"))) == py.casefold(kind)
    && TextOf(py, Entry(metadata, "name")) == name
    && TextOf(py, Entry(metadata, "namespace")) in {"", namespace}
  }

  function Mapping(j: Json): Json {
    if j.Obj? then j else Obj(map[])
  }

  // The rendered manifest holds every approved value.
  predicate Holds(desired: Json, field: ScalarField) {
    var read := Get(Mapping(desired), Segments(field.path));
    read.Some? && SameScalar(read.value, field.desired)
  }

  predicate HoldsAll(desired: Json, approved: seq<ScalarField>) {
    forall f :: f in approved ==> Holds(desired, f)
  }

  predicate Converged(changes: seq<Change>) {
    forall change :: change in changes ==> change.class_.AlreadyConverged?
  }

  predicate Touches(change: Change, f: ScalarField) {
    InScope(Strip(change.path), f.path)
  }

  // Every change is explained, something is intended, and every approval is used.
  ghost predicate Explained(changes: seq<Change>, approved: seq<ScalarField>) {
    && (forall change :: change in changes ==> Explains(change, approved))
    && (exists change :: change in changes && Intends(change, approved))
    && (forall f :: f in approved ==> exists change :: change in changes && Touches(change, f))
  }

  ghost predicate Accepts(py: Python, target: Target, approved: seq<ScalarField>, diff: Diff) {
    && SameResource(py, target, diff)
    && HoldsAll(diff.desired, approved)
    && if diff.hasChanges then Explained(diff.changes, approved)
       else diff.status in {"already_converged", "no_change"} && Converged(diff.changes)
  }

  // ----- the loop of the source -----

  ghost predicate AllExplained(changes: seq<Change>, approved: seq<ScalarField>) {
    changes == [] || (AllExplained(changes[..|changes| - 1], approved) && Explains(changes[|changes| - 1], approved))
  }

  function Covered(changes: seq<Change>, approved: seq<ScalarField>): set<string> {
    if changes == [] then {}
    else Covered(changes[..|changes| - 1], approved) + Scope(Strip(changes[|changes| - 1].path), approved)
  }

  predicate Intends(change: Change, approved: seq<ScalarField>) {
    change.class_.IntendedChange? && Scope(Strip(change.path), approved) != {}
  }

  function IntendedCount(changes: seq<Change>, approved: seq<ScalarField>): nat {
    if changes == [] then 0
    else IntendedCount(changes[..|changes| - 1], approved) + if Intends(changes[|changes| - 1], approved) then 1 else 0
  }

  lemma {:induction false} AllExplainedIff(changes: seq<Change>, approved: seq<ScalarField>)
    ensures AllExplained(changes, approved) <==> forall change :: change in changes ==> Explains(change, approved)
    decreases |changes|
  {
    if changes != [] {
      var front, last := changes[..|changes| - 1], changes[|changes| - 1];
      AllExplainedIff(front, approved);
      assert forall c :: c in changes <==> c in front || c == last by {
        assert changes == front + [last];
      }
    }
  }

  lemma {:induction false} IntendedCountIff(changes: seq<Change>, approved: seq<ScalarField>)
    ensures IntendedCount(changes, approved) > 0 <==> exists change :: change in changes && Intends(change, approved)
    decreases |changes|
  {
    if changes != [] {
      var front, last := changes[..|changes| - 1], changes[|changes| - 1];
      IntendedCountIff(front, approved);
      assert forall c :: c in changes <==> c in front || c == last by {
        assert changes == front + [last];
      }
    }
  }

  lemma {:induction false} CoveredIff(changes: seq<Change>, approved: seq<ScalarField>, path: string)
    ensures path in Covered(changes, approved) <==>
              exists change :: change in changes && path in Scope(Strip(change.path), approved)
    decreases |changes|
  {
    if changes != [] {
      var front, last := changes[..|changes| - 1], changes[|changes| - 1];
      CoveredIff(front, approved, path);
      assert forall c :: c in changes <==> c in front || c == last by {
        assert changes == front + [last];
      }
    }
  }

  function Paths(approved: seq<ScalarField>): set<string> {
    set f | f in approved :: f.path
  }

  lemma CoverageMeaning(changes: seq<Change>, approved: seq<ScalarField>)
    ensures Covered(changes, approved) == Paths(approved)
        <==> forall f :: f in approved ==> exists change :: change in changes && Touches(change, f)
  {
    var covered, paths := Covered(changes, approved), Paths(approved);
    forall path | path in covered
      ensures path in paths
    {
      CoveredIff(changes, approved, path);
    }
    forall f | f in approved
      ensures f.path in covered <==> exists change :: change in changes && Touches(change, f)
    {
      CoveredIff(changes, approved, f.path);
      if exists change :: change in changes && Touches(change, f) {
        var change :| change in changes && Touches(change, f);
        assert f.path in Scope(Strip(change.path), approved);
      }
    }
  }

  lemma ExplainedIff(changes: seq<Change>, approved: seq<ScalarField>)
    ensures Explained(changes, approved) <==>
              AllExplained(changes, approved) && IntendedCount(changes, approved) > 0 && Covered(changes, approved) == Paths(approved)
  {
    AllExplainedIff(changes, approved);
    IntendedCountIff(changes, approved);
    CoverageMeaning(changes, approved);
  }

  lemma {:induction false} AllExplainedPrefix(changes: seq<Change>, approved: seq<ScalarField>, n: nat)
    requires n <= |changes| && AllExplained(changes, approved)
    ensures AllExplained(changes[..n], approved)
    decreases |changes|
  {
    if n == |changes| {
      assert changes[..n] == changes;
    } else {
      assert changes[..|changes| - 1][..n] == changes[..n];
      AllExplainedPrefix(changes[..|changes| - 1], approved, n);
    }
  }

  // One more change: all must be explained, and the two accumulators grow by its share.
  lemma ExplainNext(changes: seq<Change>, approved: seq<ScalarField>, n: nat)
    requires n < |changes| && AllExplained(changes[..n], approved)
    ensures Explains(changes[n], approved) ==> AllExplained(changes[..n + 1], approved)
    ensures !Explains(changes[n], approved) ==> !AllExplained(changes, approved)
    ensures Covered(changes[..n + 1], approved) == Covered(changes[..n], approved) + Scope(Strip(changes[n].path), approved)
    ensures IntendedCount(changes[..n + 1], approved) ==
            IntendedCount(changes[..n], approved) + if Intends(changes[n], approved) then 1 else 0
  {
    assert changes[..n + 1][..n] == changes[..n] && changes[..n + 1][n] == changes[n];
    if AllExplained(changes, approved) {
      AllExplainedPrefix(changes, approved, n + 1);
    }
  }

  // An approved value that the rendered manifest holds never renames its own item away: the
  // manifest could not be read by that path any more.
  lemma HeldNeverRenames(desired: Json, f: ScalarField)
    requires GoodField(f) && Holds(desired, f)
    ensures !RenamesAway(Parsed(f))
  {
    if RenamesSelected(Segments(f.path)) {
      var read := Get(Mapping(desired), Segments(f.path)).value;
      ScalarsSame(read, f.desired);
      ScalarTargetPlain(Mapping(desired), Segments(f.path));
      RenamedPathReads(Mapping(desired), Segments(f.path));
    }
  }

  lemma HeldNoRenames(desired: Json, approved: seq<ScalarField>)
    requires ValidApproved(approved) && HoldsAll(desired, approved)
    ensures NoRenames(approved)
  {
    forall f | f in approved
      ensures !RenamesAway(Parsed(f))
    {
      HeldNeverRenames(desired, f);
    }
  }

  // The loop over the changes, which comes after the test that the manifest holds the approved
  // values; so whatever order the sets are iterated in, it accepts exactly the explained diffs.
  method ExplainAll(desired: Json, changes: seq<Change>, approved: seq<ScalarField>) returns (ok: bool)
    requires ValidApproved(approved) && HoldsAll(desired, approved)
    ensures ok <==> Explained(changes, approved)
  {
    HeldNoRenames(desired, approved);
    var covered: set<string> := {};
    var intended := 0;
    ExplainedIff(changes, approved);
    for n := 0 to |changes|
      invariant AllExplained(changes[..n], approved)
      invariant covered == Covered(changes[..n], approved)
      invariant intended == IntendedCount(changes[..n], approved)
    {
      ExplainNext(changes, approved, n);
      var matched := ApprovedChangeMatchesDiff(changes[n], approved);
      if matched.None? {
        return false;
      }
      if matched.value != {} && changes[n].class_.IntendedChange? {
        intended := intended + 1;
      }
      covered := covered + matched.value;
    }
    assert changes[..|changes|] == changes;
    ok := intended > 0 && covered == Paths(approved);
  }

  // recovery_diff_matches_approved_scope
  method RecoveryDiffMatches(py: Python, target: Target, raw: Option<seq<RawChange>>, diff: Diff) returns (ok: bool)
    ensures ok <==> exists approved :: Contracts(raw, approved) && Accepts(py, target, approved, diff)
  {
    var contract := ApprovedChangeContract(raw);
    if contract.None? {
      return false;
    }
    var approved := contract.value;
    assert forall other :: Contracts(raw, other) ==> other == approved;
    if !SameResource(py, target, diff) || !HoldsAll(diff.desired, approved) {
      return false;
    }
    if !diff.hasChanges {
      return diff.status in {"already_converged", "no_change"} && Converged(diff.changes);
    }
    ok := ExplainAll(diff.desired, diff.changes, approved);
  }

  // ----- what an accepted diff can change -----

  // `result` is `live` with exactly the approved scalars of the field replaced.
  ghost predicate Replaces(live: Json, field: string, approved: seq<ScalarField>, result: Json) {
    (exists f :: f in approved && f.path == field && live == f.current && result == f.desired) ||
    (exists order, replaced :: Enumerates(order, field, approved) &&
       Project(live, Relative(field, order)) == Some(replaced) && PyEq(replaced, result))
  }

  lemma LeafReplaces(change: Change, approved: seq<ScalarField>, f: ScalarField)
    requires f in approved && GoodField(f) && change.class_.IntendedChange? && ExplainsLeaf(change, f)
    ensures Replaces(change.live, f.path, approved, change.newDesired)
  {
    assert change.live == f.current && change.newDesired == f.desired;
  }

  lemma ParentReplaces(change: Change, field: string, approved: seq<ScalarField>, order: seq<ScalarField>)
    requires Enumerates(order, field, approved) && change.class_.IntendedChange? && ExplainsParent(change, field, order)
    ensures Replaces(change.live, field, approved, change.newDesired)
  {
    var projected := Project(change.live, Relative(field, order));
    assert projected == Some(projected.value) && PyEq(projected.value, change.newDesired);
  }

  lemma ExplainedChange(change: Change, approved: seq<ScalarField>)
    requires ValidApproved(approved) && Explains(change, approved)
    requires change.class_ == Classify(change.oldDesired, change.live, change.newDesired)
    ensures Matches(change.newDesired, change.live) || Replaces(change.live, Strip(change.path), approved, change.newDesired)
  {
    var field := Strip(change.path);
    if change.class_.IntendedChange? {
      if Scope(field, approved) == {field} {
        var f :| f in approved && f.path == field && ExplainsLeaf(change, f);
        assert GoodField(f);
        LeafReplaces(change, approved, f);
      } else {
        var order :| Enumerates(order, field, approved) && ExplainsParent(change, field, order);
        ParentReplaces(change, field, approved, order);
      }
    }
  }

  // A change of an accepted diff that is classified by the comparison.
  lemma AcceptedChange(py: Python, target: Target, approved: seq<ScalarField>, diff: Diff, change: Change)
    requires ValidApproved(approved) && Accepts(py, target, approved, diff) && change in diff.changes
    requires change.class_ == Classify(change.oldDesired, change.live, change.newDesired) && !change.class_.NoChange?
    ensures Matches(change.newDesired, change.live) || Replaces(change.live, Strip(change.path), approved, change.newDesired)
  {
    if diff.hasChanges {
      ExplainedChange(change, approved);
    }
  }

  // End to end: when the changes come from the managed-field comparison and the diff is
  // accepted, every governed field's new desired value is already satisfied by live, or is
  // the live value with exactly the approved scalars of that field replaced.
  lemma AuthorizationSound(py: Python, target: Target, approved: seq<ScalarField>, diff: Diff,
                           oldDesired: Option<Fields>, live: Fields, newDesired: Fields, policy: Policy, path: string)
    requires ValidApproved(approved) && Accepts(py, target, approved, diff)
    requires ChangesOf(oldDesired, live, newDesired, policy, diff.changes)
    requires path in GovernedPaths(oldDesired, live, newDesired, policy)
    ensures var change := ChangeAt(oldDesired, live, newDesired, policy, path);
            Matches(change.newDesired, change.live) || Replaces(change.live, Strip(path), approved, change.newDesired)
  {
    var change := ChangeAt(oldDesired, live, newDesired, policy, path);
    if !change.class_.NoChange? {
      AcceptedChange(py, target, approved, diff, change);
    }
  }

  lemma NothingBelowScalar(root: Json, p: seq<Segment>, q: seq<Segment>)
    requires Get(root, p).Some? && IsScalar(Get(root, p).value) && q != []
    ensures Get(root, p + q).None?
  {
    GetConcat(root, p, q);
    GetUnfolds(Get(root, p).value, q);
  }

  // An accepted diff never approves both a field and something below it.
  lemma ApprovalsNotNested(py: Python, target: Target, approved: seq<ScalarField>, diff: Diff, f: ScalarField, g: ScalarField)
    requires ValidApproved(approved) && Accepts(py, target, approved, diff)
    requires f in approved && g in approved
    ensures !StartsWith(g.path, f.path + ".")
  {
    assert GoodField(f) && GoodField(g);
    assert Holds(diff.desired, f) && Holds(diff.desired, g);
    HeldNotNested(diff.desired, f, g);
  }

  lemma HeldNotNested(desired: Json, f: ScalarField, g: ScalarField)
    requires GoodField(f) && GoodField(g) && Holds(desired, f) && Holds(desired, g)
    ensures !StartsWith(g.path, f.path + ".")
  {
    if StartsWith(g.path, f.path + ".") {
      var relative := g.path[|f.path| + 1..];
      assert g.path == f.path + "." + relative;
      RemainderParses(f.path, relative);
      SegmentsOfDotted(f.path, relative);
      NothingBelowScalar(Mapping(desired), Segments(f.path), Segments(relative));
    }
  }

  // ----- exactly the approved scalars -----

  // The approved change below the field read its current value there and reads its desired one
  // in the result, at the same place.
  predicate Swapped(live: Json, field: string, f: ScalarField, result: Json)
    requires StartsWith(f.path, field + ".")
  {
    var rep := Remainder(field, f);
    Reads(live, rep) && Get(result, rep.segs) == Some(f.desired) && Resolve(result, rep.segs) == Resolve(live, rep.segs)
  }

  // A scalar of the field's live value that no approved change targets.
  predicate Untargeted(live: Json, field: string, approved: seq<ScalarField>, l: Loc) {
    && At(live, l).Some? && IsScalar(At(live, l).value)
    && forall f :: f in approved && StartsWith(f.path, field + ".") ==> Resolve(live, Remainder(field, f).segs) != Some(l)
  }

  // The result is the live value with the approved scalars below the field swapped, every other
  // scalar as it was, and no place added or removed.
  ghost predicate ExactlyReplaced(live: Json, field: string, approved: seq<ScalarField>, result: Json) {
    && (forall f :: f in approved && StartsWith(f.path, field + ".") ==> Swapped(live, field, f, result))
    && (forall l :: Untargeted(live, field, approved, l) ==> At(result, l) == At(live, l))
    && (forall l :: At(result, l).Some? <==> At(live, l).Some?)
  }

  // No approved change below the field renames its own item away.
  predicate KeepsNames(field: string, approved: seq<ScalarField>) {
    forall f :: f in approved && StartsWith(f.path, field + ".") ==> !RenamesAway(Remainder(field, f))
  }

  lemma NoRenamesKeepsNames(field: string, approved: seq<ScalarField>)
    requires ValidApproved(approved) && NoRenames(approved)
    ensures KeepsNames(field, approved)
  {
    forall f | f in approved && StartsWith(f.path, field + ".") && Remainder(field, f).segs != []
      ensures !RenamesAway(Remainder(field, f))
    {
      RemainderScalar(field, f);
    }
  }

  // A swapped scalar did not rename its item: by its path it could not be read any more.
  lemma SwappedKeepsName(live: Json, field: string, f: ScalarField, result: Json)
    requires GoodField(f) && StartsWith(f.path, field + ".") && Swapped(live, field, f, result)
    ensures !RenamesAway(Remainder(field, f))
  {
    var segs := Remainder(field, f).segs;
    if RenamesSelected(segs) {
      ScalarTargetPlain(result, segs);
      RenamedPathReads(result, segs);
    }
  }

  // A projection that succeeds under a valid contract without renames is a plain application.
  lemma ProjectedIsApplied(live: Json, field: string, approved: seq<ScalarField>, order: seq<ScalarField>)
    requires ValidApproved(approved) && KeepsNames(field, approved) && Enumerates(order, field, approved)
    requires Project(live, Relative(field, order)).Some?
    ensures var reps := Relative(field, order);
            && ScalarReplacements(reps) && !Renames(reps) && ReadsAll(live, reps)
            && Project(live, reps) == Apply(live, reps)
  {
    var reps := Relative(field, order);
    if exists rep :: rep in reps && rep.segs == [] {
      ProjectRefusesUnparsed(live, reps);
    }
    RelativeScalar(field, order);
    if rep :| rep in reps && RenamesSelected(rep.segs) {
      RelativeMember(field, order, rep);
      ProjectRefusesRename(live, reps, rep);
    }
    if !live.Obj? {
      ProjectNeedsObject(live, reps);
    }
    ProjectIsApply(live, reps);
    AppliedReads(live, reps);
  }

  lemma AppliedExactly(live: Json, field: string, approved: seq<ScalarField>, order: seq<ScalarField>, replaced: Json)
    requires ValidApproved(approved) && KeepsNames(field, approved) && Enumerates(order, field, approved)
    requires Project(live, Relative(field, order)) == Some(replaced)
    ensures ExactlyReplaced(live, field, approved, replaced)
  {
    var reps := Relative(field, order);
    ProjectedIsApplied(live, field, approved, order);
    forall f | f in approved && StartsWith(f.path, field + ".")
      ensures Remainder(field, f) in reps && Swapped(live, field, f, replaced)
    {
      RelativeMember(field, order, Remainder(field, f));
      AppliedValue(live, reps, Remainder(field, f));
    }
    forall l | Untargeted(live, field, approved, l)
      ensures At(replaced, l) == At(live, l)
    {
      forall rep | rep in reps
        ensures Resolve(live, rep.segs) != Some(l)
      {
        RelativeMember(field, order, rep);
      }
      Untouched(live, reps, l);
    }
    forall l
      ensures At(replaced, l).Some? <==> At(live, l).Some?
    {
      AppliedKeepsPlaces(live, reps, l);
    }
  }

  // Whatever the order, a successful projection replaces exactly the approved scalars if and
  // only if none of them renames its own item away.
  lemma ReplacedExactly(live: Json, field: string, approved: seq<ScalarField>, order: seq<ScalarField>, replaced: Json)
    requires ValidApproved(approved) && Enumerates(order, field, approved)
    requires Project(live, Relative(field, order)) == Some(replaced)
    ensures ExactlyReplaced(live, field, approved, replaced) <==> KeepsNames(field, approved)
  {
    if KeepsNames(field, approved) {
      AppliedExactly(live, field, approved, order, replaced);
    } else {
      var f :| f in approved && StartsWith(f.path, field + ".") && RenamesAway(Remainder(field, f));
      if Swapped(live, field, f, replaced) {
        SwappedKeepsName(live, field, f, replaced);
      }
    }
  }

  // The field itself is approved, and goes from its current to its desired value.
  ghost predicate LeafReplaced(live: Json, field: string, approved: seq<ScalarField>, result: Json) {
    exists f :: f in approved && f.path == field && live == f.current && result == f.desired
  }

  lemma ReplacesExactly(live: Json, field: string, approved: seq<ScalarField>, result: Json)
    requires ValidApproved(approved) && NoRenames(approved) && Replaces(live, field, approved, result)
    ensures LeafReplaced(live, field, approved, result) ||
            exists replaced :: PyEq(replaced, result) && ExactlyReplaced(live, field, approved, replaced)
  {
    if !LeafReplaced(live, field, approved, result) {
      var order, replaced :| Enumerates(order, field, approved) &&
        Project(live, Relative(field, order)) == Some(replaced) && PyEq(replaced, result);
      NoRenamesKeepsNames(field, approved);
      ReplacedExactly(live, field, approved, order, replaced);
    }
  }

  // End to end, for every contract and every accepted diff whose changes come from the
  // managed-field comparison: each governed field's new value is satisfied by live, or is the
  // approved value of that very field, or equals live with every approved path below the field
  // swapped from its current to its desired value and nothing else changed.
  lemma AuthorizationExact(py: Python, target: Target, approved: seq<ScalarField>, diff: Diff,
                           oldDesired: Option<Fields>, live: Fields, newDesired: Fields, policy: Policy, path: string)
    requires ValidApproved(approved) && Accepts(py, target, approved, diff)
    requires ChangesOf(oldDesired, live, newDesired, policy, diff.changes)
    requires path in GovernedPaths(oldDesired, live, newDesired, policy)
    ensures var change := ChangeAt(oldDesired, live, newDesired, policy, path);
            || Matches(change.newDesired, change.live)
            || LeafReplaced(change.live, Strip(path), approved, change.newDesired)
            || exists replaced :: PyEq(replaced, change.newDesired) && ExactlyReplaced(change.live, Strip(path), approved, replaced)
  {
    AuthorizationSound(py, target, approved, diff, oldDesired, live, newDesired, policy, path);
    HeldNoRenames(diff.desired, approved);
    var change := ChangeAt(oldDesired, live, newDesired, policy, path);
    if !Matches(change.newDesired, change.live) {
      ReplacesExactly(change.live, Strip(path), approved, change.newDesired);
    }
  }
}
