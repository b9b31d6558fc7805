/**
 * Merge authorization: which recovery diffs the approved scalar changes explain, and
 * what an accepted diff can ask the cluster to change.
 */
module RecoveryMerge {
  import opened Json
  import opened Text
  import opened FieldPath
  import opened Location
  import opened ObjectPath
  import opened Replacements
  import opened PatchPlan
  import opened Projection
  import opened Diffing

  // ----- the approved contract -----

  datatype RawChange = NotObject | Item(fieldPath: string, current: Json, desired: Json)

  function FieldOf(raw: RawChange): ScalarField
    requires raw.Item?
  {
    ScalarField(Strip(raw.fieldPath), raw.current, raw.desired)
  }

  predicate GoodField(field: ScalarField) {
    && field.path != "" && Segments(field.path) != []
    && IsScalar(field.current) && IsScalar(field.desired) && !SameScalar(field.current, field.desired)
  }

  predicate ValidApproved(approved: seq<ScalarField>) {
    1 <= |approved| <= 4 && DistinctFields(approved) && forall field :: field in approved ==> GoodField(field)
  }

  // The stored changes are exactly a valid contract.
  predicate Contracts(raw: Option<seq<RawChange>>, approved: seq<ScalarField>) {
    && raw.Some? && |raw.value| == |approved|
    && (forall i :: 0 <= i < |approved| ==> raw.value[i].Item? && approved[i] == FieldOf(raw.value[i]))
    && ValidApproved(approved)
  }

  predicate Listed(fields: seq<ScalarField>, path: string) {
    exists f :: f in fields && f.path == path
  }

  // What the loop has collected from the first stored changes.
  predicate Collected(items: seq<RawChange>, n: nat, approved: seq<ScalarField>) {
    && |approved| == n <= |items| && DistinctFields(approved)
    && (forall i :: 0 <= i < n ==> items[i].Item? && approved[i] == FieldOf(items[i]))
    && EachGood(approved)
  }

  predicate EachGood(fields: seq<ScalarField>) {
    forall f :: f in fields ==> GoodField(f)
  }

  lemma EachGoodSnoc(front: seq<ScalarField>, last: ScalarField)
    requires EachGood(front) && GoodField(last)
    ensures EachGood(front + [last])
  {
  }

  lemma DistinctSnoc(front: seq<ScalarField>, last: ScalarField)
    requires DistinctFields(front) && !Listed(front, last.path)
    ensures DistinctFields(front + [last])
  {
    assert forall i :: 0 <= i < |front| ==> front[i] in front;
  }

  // A stored change that joins the changes collected before it.
  predicate Joins(item: RawChange, approved: seq<ScalarField>) {
    item.Item? && GoodField(FieldOf(item)) && !Listed(approved, FieldOf(item).path)
  }

  lemma CollectedNext(items: seq<RawChange>, n: nat, approved: seq<ScalarField>)
    requires n < |items| && Collected(items, n, approved) && Joins(items[n], approved)
    ensures Collected(items, n + 1, approved + [FieldOf(items[n])])
  {
    DistinctSnoc(approved, FieldOf(items[n]));
    EachGoodSnoc(approved, FieldOf(items[n]));
  }

  // A stored change that does not join leaves no contract at all.
  lemma NoContract(raw: Option<seq<RawChange>>, n: nat, approved: seq<ScalarField>, other: seq<ScalarField>)
    requires raw.Some? && n < |raw.value| && Collected(raw.value, n, approved) && Contracts(raw, other)
    ensures Joins(raw.value[n], approved)
  {
    assert other[n] in other;
    assert forall i :: 0 <= i < n ==> approved[i] == other[i] && other[i].path != other[n].path;
  }

  method ApprovedChangeContract(raw: Option<seq<RawChange>>) returns (result: Option<seq<ScalarField>>)
    ensures result.Some? ==> Contracts(raw, result.value)
    ensures result.None? ==> forall approved :: !Contracts(raw, approved)
  {
    if raw.None? || !(1 <= |raw.value| <= 4) {
      return None;
    }
    var items := raw.value;
    var approved: seq<ScalarField> := [];
    for n := 0 to |items|
      invariant Collected(items, n, approved)
    {
      forall other | Contracts(raw, other)
        ensures Joins(items[n], approved)
      {
        NoContract(raw, n, approved, other);
      }
      if items[n].NotObject? {
        return None;
      }
      var field := FieldOf(items[n]);
      var segs := FieldPathSegments(field.path);
      if field.path == "" || Listed(approved, field.path) || segs == [] ||
         !IsScalar(field.current) || !IsScalar(field.desired) || SameScalar(field.current, field.desired) {
        return None;
      }
      CollectedNext(items, n, approved);
      approved := approved + [field];
    }
    result := Some(approved);
  }

  // ----- one change against the contract -----

  predicate InScope(field: string, path: string) {
    path == field || StartsWith(path, field + ".")
  }

  function Scope(field: string, approved: seq<ScalarField>): set<string> {
    set f | f in approved && InScope(field, f.path) :: f.path
  }

  // An iteration order of the approved changes in a field's scope; the source iterates a
  // set, so any order may occur.
  ghost predicate Enumerates(order: seq<ScalarField>, field: string, approved: seq<ScalarField>) {
    DistinctFields(order) && forall f :: f in order <==> f in approved && InScope(field, f.path)
  }

  // The change is one approved scalar at the field itself.
  predicate ExplainsLeaf(change: Change, f: ScalarField) {
    if change.class_.IntendedChange? then
      SameScalar(change.oldDesired, f.current) && SameScalar(change.live, f.current) && SameScalar(change.newDesired, f.desired)
    else
      SameScalar(change.oldDesired, f.current) && SameScalar(change.live, f.desired) && SameScalar(change.newDesired, f.desired)
  }

  // The change is what the approved scalars below the field make of the object there.
  predicate ExplainsParent(change: Change, field: string, order: seq<ScalarField>) {
    var reps := Relative(field, order);
    if change.class_.IntendedChange? then
      var projected := Project(change.live, reps);
      PyEq(change.oldDesired, change.live) && projected.Some? && PyEq(projected.value, change.newDesired)
    else
      var projected := Project(change.oldDesired, reps);
      projected.Some? && PyEq(projected.value, change.live) && PyEq(change.live, change.newDesired)
  }

  // approved_change_matches_diff accepts the change when it iterates in this order.
  ghost predicate ExplainsIn(change: Change, approved: seq<ScalarField>, order: seq<ScalarField>) {
    var field := Strip(change.path);
    var matched := Scope(field, approved);
    if matched == {} then change.class_.AlreadyConverged?
    else if !change.class_.IntendedChange? && !change.class_.AlreadyConverged? then false
    else if matched == {field} then exists f :: f in approved && f.path == field && ExplainsLeaf(change, f)
    else ExplainsParent(change, field, order)
  }

  // It accepts the change in some order.
  ghost predicate Explains(change: Change, approved: seq<ScalarField>) {
    exists order :: Enumerates(order, Strip(change.path), approved) && ExplainsIn(change, approved, order)
  }

  method ScopeInSomeOrder(field: string, approved: seq<ScalarField>) returns (order: seq<ScalarField>)
    requires DistinctFields(approved)
    ensures Enumerates(order, field, approved)
  {
    order := [];
    var rest := set f | f in approved && InScope(field, f.path);
    ghost var all := rest;
    while rest != {}
      invariant rest <= all
      invariant forall f :: f in order <==> f in all && f !in rest
      invariant DistinctFields(order)
      decreases rest
    {
      var f :| f in rest;
      forall i | 0 <= i < |order|
        ensures order[i].path != f.path
      {
        assert order[i] in order;
        SamePathSameField(approved, order[i], f);
      }
      order := order + [f];
      rest := rest - {f};
    }
  }

  lemma SamePathSameField(fields: seq<ScalarField>, a: ScalarField, b: ScalarField)
    requires DistinctFields(fields) && a in fields && b in fields
    ensures a.path == b.path ==> a == b
  {
  }

  // No approved change renames the item its path selects, away from the selected name.
  predicate NoRenames(approved: seq<ScalarField>) {
    forall f :: f in approved ==> !RenamesAway(Parsed(f))
  }

  // ----- order does not decide acceptance -----

  lemma {:induction false} RelativeMember(parent: string, order: seq<ScalarField>, rep: Replacement)
    ensures rep in Relative(parent, order) <==>
              exists f :: f in order && StartsWith(f.path, parent + ".") && rep == Remainder(parent, f)
    decreases |order|
  {
    if order != [] {
      var front, last := order[..|order| - 1], order[|order| - 1];
      RelativeMember(parent, front, rep);
      assert forall f :: f in order <==> f in front || f == last by {
        assert order == front + [last];
      }
    }
  }

  // An approved path below a parent, whose remainder parses, is the parent's path
  // followed by the remainder's.
  lemma BelowParent(parent: string, f: ScalarField)
    requires StartsWith(f.path, parent + ".") && Segments(f.path) != []
    ensures var relative := Segments(f.path[|parent| + 1..]);
            relative != [] ==> Segments(parent) != [] && Segments(f.path) == Segments(parent) + relative
  {
    var relative := f.path[|parent| + 1..];
    assert f.path == parent + "." + relative;
    if Segments(relative) != [] {
      SegmentsOfDotted(parent, relative);
    }
  }

  lemma {:induction false} ProjectRefusesUnparsed(source: Json, reps: seq<Replacement>)
    requires exists rep :: rep in reps && rep.segs == []
    ensures Project(source, reps).None?
    decreases |reps|
  {
    var front, last := reps[..|reps| - 1], reps[|reps| - 1];
    var rep :| rep in reps && rep.segs == [];
    if last.segs != [] {
      assert rep in front by {
        assert reps == front + [last];
      }
      ProjectRefusesUnparsed(source, front);
    }
  }

  function Remainder(parent: string, f: ScalarField): Replacement
    requires StartsWith(f.path, parent + ".")
  {
    Replacement(Segments(f.path[|parent| + 1..]), f.current, f.desired)
  }

  lemma RemaindersDiffer(parent: string, f: ScalarField, g: ScalarField)
    requires StartsWith(f.path, parent + ".") && StartsWith(g.path, parent + ".") && f.path != g.path
    requires Remainder(parent, g).segs != []
    ensures Remainder(parent, f).segs != Remainder(parent, g).segs
  {
    var a, b := f.path[|parent| + 1..], g.path[|parent| + 1..];
    assert f.path == parent + "." + a && g.path == parent + "." + b;
    if Segments(a) == Segments(b) {
      SegmentsInjective(a, b);
    }
  }

  lemma {:induction false} RelativeDistinct(parent: string, order: seq<ScalarField>)
    requires DistinctFields(order) && forall rep :: rep in Relative(parent, order) ==> rep.segs != []
    ensures DistinctPaths(Relative(parent, order))
    decreases |order|
  {
    if order != [] {
      var front, last := order[..|order| - 1], order[|order| - 1];
      var reps := Relative(parent, front);
      assert forall rep :: rep in reps ==> rep in Relative(parent, order);
      RelativeDistinct(parent, front);
      if StartsWith(last.path, parent + ".") {
        assert Relative(parent, order) == reps + [Remainder(parent, last)];
        assert Remainder(parent, last) in Relative(parent, order);
        forall i | 0 <= i < |reps|
          ensures reps[i].segs != Remainder(parent, last).segs
        {
          RelativeMember(parent, front, reps[i]);
          var f :| f in front && StartsWith(f.path, parent + ".") && reps[i] == Remainder(parent, f);
          RemaindersDiffer(parent, f, last);
        }
      }
    }
  }

  // The remainder of an approved path is a scalar replacement, and renames away only if the
  // whole path does.
  lemma RemainderScalar(parent: string, f: ScalarField)
    requires GoodField(f) && StartsWith(f.path, parent + ".") && Remainder(parent, f).segs != []
    ensures ScalarReplacement(Remainder(parent, f))
    ensures RenamesSelected(Remainder(parent, f).segs) ==> RenamesSelected(Segments(f.path))
    ensures RenamesAway(Remainder(parent, f)) ==> RenamesAway(Parsed(f))
  {
    BelowParent(parent, f);
    LongerRenames(Segments(parent), Remainder(parent, f));
  }

  lemma LongerRenames(above: seq<Segment>, rep: Replacement)
    requires rep.segs != []
    ensures RenamesSelected(rep.segs) ==> RenamesSelected(above + rep.segs)
    ensures RenamesAway(rep) ==> RenamesAway(rep.(segs := above + rep.segs))
  {
  }

  lemma RelativeScalar(parent: string, order: seq<ScalarField>)
    requires DistinctFields(order) && forall f :: f in order ==> GoodField(f)
    requires forall rep :: rep in Relative(parent, order) ==> rep.segs != []
    ensures ScalarReplacements(Relative(parent, order))
  {
    RelativeDistinct(parent, order);
    forall rep | rep in Relative(parent, order)
      ensures ScalarReplacement(rep)
    {
      RelativeMember(parent, order, rep);
      var f :| f in order && StartsWith(f.path, parent + ".") && rep == Remainder(parent, f);
      RemainderScalar(parent, f);
    }
  }

  // A relative path that reaches a selected item's name is refused, in any order.
  lemma RelativeRefusesRename(source: Json, parent: string, order: seq<ScalarField>, rep: Replacement)
    requires forall f :: f in order ==> GoodField(f) && !RenamesAway(Parsed(f))
    requires rep in Relative(parent, order) && RenamesSelected(rep.segs)
    ensures Project(source, Relative(parent, order)).None?
  {
    RelativeMember(parent, order, rep);
    var f :| f in order && StartsWith(f.path, parent + ".") && rep == Remainder(parent, f);
    RemainderScalar(parent, f);
    ProjectRefusesRename(source, Relative(parent, order), rep);
  }

  // Two orders of the same approved changes project alike.
  lemma AnyOrderProjects(source: Json, parent: string, a: seq<ScalarField>, b: seq<ScalarField>)
    requires DistinctFields(a) && DistinctFields(b) && forall f :: f in a <==> f in b
    requires forall f :: f in a ==> GoodField(f) && !RenamesAway(Parsed(f))
    ensures Project(source, Relative(parent, a)) == Project(source, Relative(parent, b))
  {
    var ra, rb := Relative(parent, a), Relative(parent, b);
    forall rep
      ensures rep in ra <==> rep in rb
    {
      RelativeMember(parent, a, rep);
      RelativeMember(parent, b, rep);
    }
    if exists rep :: rep in ra && rep.segs == [] {
      ProjectRefusesUnparsed(source, ra);
      ProjectRefusesUnparsed(source, rb);
    } else if rep :| rep in ra && RenamesSelected(rep.segs) {
      RelativeRefusesRename(source, parent, a, rep);
      RelativeRefusesRename(source, parent, b, rep);
    } else {
      RelativeScalar(parent, a);
      RelativeScalar(parent, b);
      ProjectOrderIrrelevant(source, ra, rb);
    }
  }

  lemma AnyOrderExplains(change: Change, field: string, approved: seq<ScalarField>, a: seq<ScalarField>, b: seq<ScalarField>)
    requires ValidApproved(approved) && NoRenames(approved)
    requires Enumerates(a, field, approved) && Enumerates(b, field, approved)
    ensures ExplainsParent(change, field, a) <==> ExplainsParent(change, field, b)
  {
    AnyOrderProjects(change.live, field, a, b);
    AnyOrderProjects(change.oldDesired, field, a, b);
  }

  // approved_change_matches_diff: it answers as some iteration order of the matched set does, and
  // all orders answer alike unless an approved change renames its own item away.
  method ApprovedChangeMatchesDiff(change: Change, approved: seq<ScalarField>) returns (matched: Option<set<string>>)
    requires ValidApproved(approved)
    ensures exists order :: Enumerates(order, Strip(change.path), approved) &&
              matched == if ExplainsIn(change, approved, order) then Some(Scope(Strip(change.path), approved)) else None
    ensures NoRenames(approved) ==> (matched.Some? <==> Explains(change, approved))
  {
    var field := Strip(change.path);
    var scope := Scope(field, approved);
    var order := ScopeInSomeOrder(field, approved);
    forall other | NoRenames(approved) && Enumerates(other, field, approved)
      ensures ExplainsIn(change, approved, other) <==> ExplainsIn(change, approved, order)
    {
      AnyOrderExplains(change, field, approved, order, other);
    }
    if scope == {} {
      return if change.class_.AlreadyConverged? then Some({}) else None;
    }
    if !change.class_.IntendedChange? && !change.class_.AlreadyConverged? {
      return None;
    }
    if scope == {field} {
      assert field in scope;
      var f :| f in approved && f.path == field;
      forall g | g in approved && g.path == field
        ensures g == f
      {
        SamePathSameField(approved, g, f);
      }
      return if ExplainsLeaf(change, f) then Some(scope) else None;
    }
    if change.class_.IntendedChange? {
      if !PyEq(change.oldDesired, change.live) {
        return None;
      }
      var projected := ProjectedParentValue(change.live, field, order);
      return if projected.Some? && PyEq(projected.value, change.newDesired) then Some(scope) else None;
    }
    var projected := ProjectedParentValue(change.oldDesired, field, order);
    return if projected.Some? && PyEq(projected.value, change.live) && PyEq(change.live, change.newDesired)
      then Some(scope) else None;
  }

  // ----- the projection, stated on full approved paths -----

  // The approved changes strictly below the field, with their full paths.
  function Beneath(field: string, order: seq<ScalarField>): seq<ScalarField> {
    if order == [] then []
    else
      var front, last := Beneath(field, order[..|order| - 1]), order[|order| - 1];
      if StartsWith(last.path, field + ".") then front + [last] else front
  }

  lemma {:induction false} BeneathMember(field: string, order: seq<ScalarField>, f: ScalarField)
    ensures f in Beneath(field, order) <==> f in order && StartsWith(f.path, field + ".")
    decreases |order|
  {
    if order != [] {
      var front, last := order[..|order| - 1], order[|order| - 1];
      BeneathMember(field, front, f);
      assert f in order <==> f in front || f == last by {
        assert order == front + [last];
      }
    }
  }

  lemma {:induction false} BeneathDistinct(field: string, order: seq<ScalarField>)
    requires DistinctFields(order)
    ensures DistinctFields(Beneath(field, order))
    decreases |order|
  {
    if order != [] {
      var front, last := order[..|order| - 1], order[|order| - 1];
      BeneathDistinct(field, front);
      forall f | f in Beneath(field, front)
        ensures f.path != last.path
      {
        BeneathMember(field, front, f);
      }
      if StartsWith(last.path, field + ".") {
        DistinctSnoc(Beneath(field, front), last);
      }
    }
  }

  lemma FullPath(field: string, f: ScalarField)
    requires Segments(field) != [] && StartsWith(f.path, field + ".")
    ensures Parsed(f).segs == [] <==> Remainder(field, f).segs == []
    ensures Remainder(field, f).segs != [] ==> Under(Segments(field), Remainder(field, f)) == Parsed(f)
  {
    var relative := f.path[|field| + 1..];
    assert f.path == field + "." + relative;
    if Segments(relative) != [] {
      SegmentsOfDotted(field, relative);
    } else if Segments(f.path) != [] {
      RemainderParses(field, relative);
    }
  }

  lemma ParsedSnoc(front: seq<ScalarField>, f: ScalarField)
    ensures ParsedAll(front + [f]) == ParsedAll(front) + [Parsed(f)]
  {
  }

  lemma {:induction false} FullPaths(field: string, order: seq<ScalarField>)
    requires Segments(field) != [] && AllParse(Relative(field, order))
    ensures AllUnder(Segments(field), Relative(field, order)) == ParsedAll(Beneath(field, order))
    decreases |order|
  {
    if order != [] {
      var front, last := order[..|order| - 1], order[|order| - 1];
      var reps := Relative(field, front);
      if StartsWith(last.path, field + ".") {
        assert Relative(field, order) == reps + [Remainder(field, last)];
        assert Remainder(field, last) in Relative(field, order);
        assert forall rep :: rep in reps ==> rep in Relative(field, order);
        FullPaths(field, front);
        FullPath(field, last);
        ListSnoc(Segments(field), reps, Remainder(field, last));
        ParsedSnoc(Beneath(field, front), last);
      } else {
        FullPaths(field, front);
      }
    }
  }

  // A remainder that is no path makes both the projection and the update fail.
  lemma UnparsedRefused(source: Json, manifest: Json, field: string, order: seq<ScalarField>, rep: Replacement)
    requires Segments(field) != [] && rep in Relative(field, order) && rep.segs == []
    ensures Project(source, Relative(field, order)).None? && Project(manifest, ParsedAll(Beneath(field, order))).None?
  {
    ProjectRefusesUnparsed(source, Relative(field, order));
    RelativeMember(field, order, rep);
    var f :| f in order && StartsWith(f.path, field + ".") && rep == Remainder(field, f);
    FullPath(field, f);
    BeneathMember(field, order, f);
    ParsedMember(Beneath(field, order), Parsed(f));
    ProjectRefusesUnparsed(manifest, ParsedAll(Beneath(field, order)));
  }

  // Projecting approved changes onto a field's object gives what the field holds after the
  // same changes are made, by their full paths, in the whole manifest: they never succeed where
  // the projection fails, and where it succeeds they agree with it exactly if none of them
  // renames the item that the field's own path selects.
  lemma ApprovedProjectionCommutes(manifest: Json, field: string, order: seq<ScalarField>)
    requires Segments(field) != [] && Get(manifest, Segments(field)).Some?
    ensures var source, reps := Get(manifest, Segments(field)).value, Relative(field, order);
            var projected, updated := Project(source, reps), Project(manifest, ParsedAll(Beneath(field, order)));
            && (projected.None? ==> !source.Obj? || updated.None?)
            && (projected.Some? ==>
                  (updated.Some? && Get(updated.value, Segments(field)) == projected <==> KeepsParent(Segments(field), reps)))
  {
    var reps := Relative(field, order);
    if rep :| rep in reps && rep.segs == [] {
      UnparsedRefused(Get(manifest, Segments(field)).value, manifest, field, order, rep);
    } else {
      FullPaths(field, order);
      ProjectionCommutes(manifest, Segments(field), reps);
    }
  }

  // Where no approved change reaches a selected item's name, updating one after another is
  // applying them all, each read in the original manifest.
  lemma ApprovedUpdateIsApplied(manifest: Json, field: string, order: seq<ScalarField>)
    requires manifest.Obj? && DistinctFields(order)
    requires forall f :: f in order ==> GoodField(f) && !RenamesSelected(Segments(f.path))
    ensures Project(manifest, ParsedAll(Beneath(field, order))) == Apply(manifest, ParsedAll(Beneath(field, order)))
  {
    var fields := Beneath(field, order);
    BeneathDistinct(field, order);
    forall f | f in fields
      ensures GoodField(f) && !RenamesSelected(Segments(f.path))
    {
      BeneathMember(field, order, f);
    }
    DistinctParsed(fields);
    forall rep | rep in ParsedAll(fields)
      ensures ScalarReplacement(rep) && !RenamesSelected(rep.segs)
    {
      ParsedMember(fields, rep);
    }
    ProjectIsApply(manifest, ParsedAll(fields));
  }
}
