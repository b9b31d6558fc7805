/**
 * Projecting approved scalar changes onto the subtree of one managed field:
 * `projected_parent_value`, and its agreement with updating the whole manifest.
 */
module Projection {
  import opened Json
  import opened Text
  import opened FieldPath
  import opened Location
  import opened ObjectPath
  import opened Replacements
  import opened PatchPlan

  // The replacements of a projection, each checked against the value projected so far.
  function Project(source: Json, reps: seq<Replacement>): Option<Json> {
    if reps == [] then if source.Obj? then Some(source) else None
    else
      var rep := reps[|reps| - 1];
      var before := Project(source, reps[..|reps| - 1]);
      if before.None? || rep.segs == [] then None
      else
        var read := Get(before.value, rep.segs);
        if read.None? || !SameScalar(read.value, rep.current) then None
        else SetValue(before.value, rep.segs, rep.desired)
  }

  // The approved changes strictly below `parent`, with paths relative to it.
  function Relative(parent: string, approved: seq<ScalarField>): seq<Replacement> {
    if approved == [] then []
    else
      var front, field := Relative(parent, approved[..|approved| - 1]), approved[|approved| - 1];
      if StartsWith(field.path, parent + ".")
      then front + [Replacement(Segments(field.path[|parent| + 1..]), field.current, field.desired)]
      else front
  }

  lemma TurnSkips(parent: string, approved: seq<ScalarField>, n: nat)
    requires n < |approved| && !StartsWith(approved[n].path, parent + ".")
    ensures Relative(parent, approved[..n + 1]) == Relative(parent, approved[..n])
  {
    assert approved[..n + 1][..n] == approved[..n];
  }

  // One turn of the projection loop, for an approved change below the parent.
  lemma TurnTakes(source: Json, parent: string, approved: seq<ScalarField>, n: nat, current: Json)
    requires n < |approved| && Project(source, Relative(parent, approved[..n])) == Some(current)
    requires StartsWith(approved[n].path, parent + ".")
    ensures var field := approved[n];
            var segs := Segments(field.path[|parent| + 1..]);
            var read := Get(current, segs);
            var written := SetValue(current, segs, field.desired);
            if segs == [] || read.None? || !SameScalar(read.value, field.current) || written.None? then
              Project(source, Relative(parent, approved)).None?
            else
              Project(source, Relative(parent, approved[..n + 1])) == written
  {
    var front, upto := Relative(parent, approved[..n]), Relative(parent, approved[..n + 1]);
    assert approved[..n + 1][..n] == approved[..n];
    assert upto[..|upto| - 1] == front;
    RelativePrefix(parent, approved, n + 1);
    ProjectPrefix(source, Relative(parent, approved), |upto|);
    assert Relative(parent, approved)[..|upto|] == upto;
  }

  method ProjectedParentValue(source: Json, parent: string, approved: seq<ScalarField>) returns (projected: Option<Json>)
    ensures projected == Project(source, Relative(parent, approved))
  {
    if !source.Obj? {
      ProjectNeedsObject(source, Relative(parent, approved));
      return None;
    }
    var current := source;
    var prefix := parent + ".";
    for n := 0 to |approved|
      invariant Project(source, Relative(parent, approved[..n])) == Some(current)
    {
      var field := approved[n];
      if !StartsWith(field.path, prefix) {
        TurnSkips(parent, approved, n);
        continue;
      }
      TurnTakes(source, parent, approved, n, current);
      var segs := FieldPathSegments(field.path[|prefix|..]);
      if segs == [] {
        return None;
      }
      var read := ObjectValueAt(current, segs);
      if read.None? || !SameScalar(read.value, field.current) {
        return None;
      }
      var written := SetValue(current, segs, field.desired);
      if written.None? {
        return None;
      }
      current := written.value;
    }
    assert approved[..|approved|] == approved;
    projected := Some(current);
  }

  lemma {:induction false} ProjectNeedsObject(source: Json, reps: seq<Replacement>)
    requires !source.Obj?
    ensures Project(source, reps).None?
    decreases |reps|
  {
    if reps != [] {
      ProjectNeedsObject(source, reps[..|reps| - 1]);
    }
  }

  lemma {:induction false} ProjectPrefix(source: Json, reps: seq<Replacement>, n: nat)
    requires n <= |reps|
    ensures Project(source, reps[..n]).None? ==> Project(source, reps).None?
    decreases |reps|
  {
    if n == |reps| {
      assert reps[..n] == reps;
    } else {
      assert reps[..|reps| - 1][..n] == reps[..n];
      ProjectPrefix(source, reps[..|reps| - 1], n);
    }
  }

  lemma {:induction false} RelativePrefix(parent: string, approved: seq<ScalarField>, n: nat)
    requires n <= |approved|
    ensures Relative(parent, approved[..n]) <= Relative(parent, approved)
    decreases |approved|
  {
    if n == |approved| {
      assert approved[..n] == approved;
    } else {
      assert approved[..|approved| - 1][..n] == approved[..n];
      RelativePrefix(parent, approved[..|approved| - 1], n);
    }
  }

  // ----- the projection is the simultaneous replacement -----

  // Reading another path gives the same answer before and after the replacements.
  lemma ReadsThrough(source: Json, reps: seq<Replacement>, rep: Replacement)
    requires ScalarReplacements(reps) && !Renames(reps) && ReadsAll(source, reps)
    requires ScalarReplacement(rep) && forall r :: r in reps ==> r.segs != rep.segs
    ensures Apply(source, reps).Some?
    ensures Reads(Apply(source, reps).value, rep) <==> Reads(source, rep)
  {
    ApplyIsOverlay(source, reps, rep.segs);
    var l, edits := Resolve(source, rep.segs), Edits(source, reps);
    var after := Overlay(source, [], edits);
    if l.Some? && (Reads(source, rep) || Reads(after, rep)) {
      forall e | e in edits
        ensures Apart(e, l.value)
      {
        EditsKeys(source, reps, e);
        var r :| r in reps && Target(source, r) == e;
        LeafApart(source, reps, r, rep, after);
      }
      assert [] + l.value == l.value;
      AtOverlay(source, [], edits, l.value);
      NotEdited(edits, l.value);
      ShallowOverlay(At(source, l.value).value, l.value, edits);
    }
  }

  lemma NotEdited(edits: map<Loc, Json>, l: Loc)
    requires forall e :: e in edits ==> Apart(e, l)
    ensures l !in edits
  {
  }

  // A location outside the edits is a scalar before the edits exactly when it is one after.
  lemma ShallowOverlay(j: Json, here: Loc, edits: map<Loc, Json>)
    requires here !in edits
    ensures IsScalar(Overlay(j, here, edits)) <==> IsScalar(j)
    ensures IsScalar(j) ==> Overlay(j, here, edits) == j
  {
  }

  lemma LeafApart(source: Json, reps: seq<Replacement>, r: Replacement, rep: Replacement, after: Json)
    requires ScalarReplacements(reps) && !Renames(reps) && ReadsAll(source, reps) && r in reps
    requires Apply(source, reps) == Some(after)
    requires ScalarReplacement(rep) && r.segs != rep.segs
    requires Resolve(source, rep.segs).Some? && Resolve(after, rep.segs) == Resolve(source, rep.segs)
    requires Reads(source, rep) || Reads(after, rep)
    ensures Apart(Target(source, r), Resolve(source, rep.segs).value)
  {
    var a, l := Target(source, r), Resolve(source, rep.segs).value;
    if a == l {
      ResolveInjective(source, r.segs, rep.segs);
    }
    if Reads(source, rep) {
      ScalarsApart(source, a, l);
    } else {
      AppliedValue(source, reps, r);
      ScalarsApart(after, a, l);
    }
  }

  // A scalar of the document that no replacement targets.
  predicate OtherScalar(original: Json, reps: seq<Replacement>, l: Loc) {
    At(original, l).Some? && IsScalar(At(original, l).value) &&
    forall rep :: rep in reps ==> Resolve(original, rep.segs) != Some(l)
  }

  lemma Untouched(original: Json, reps: seq<Replacement>, l: Loc)
    requires ScalarReplacements(reps) && !Renames(reps) && ReadsAll(original, reps)
    requires OtherScalar(original, reps, l)
    ensures Apply(original, reps).Some? && At(Apply(original, reps).value, l) == At(original, l)
  {
    var edits := Edits(original, reps);
    ApplyIsOverlay(original, reps, []);
    forall e | e in edits
      ensures Apart(e, l)
    {
      EditsKeys(original, reps, e);
      var rep :| rep in reps && Target(original, rep) == e;
      ScalarsApart(original, e, l);
    }
    assert [] + l == l;
    AtOverlay(original, [], edits, l);
    NotEdited(edits, l);
  }

  // Replacing scalars adds and removes no place of the document.
  lemma AppliedKeepsPlaces(live: Json, reps: seq<Replacement>, l: Loc)
    requires ScalarReplacements(reps) && !Renames(reps) && ReadsAll(live, reps)
    ensures Apply(live, reps).Some? && (At(Apply(live, reps).value, l).Some? <==> At(live, l).Some?)
  {
    var edits := Edits(live, reps);
    ApplyIsOverlay(live, reps, []);
    forall e: Loc | [] + e in edits
      ensures At(live, e).Some? && IsScalar(At(live, e).value) && IsScalar(edits[[] + e])
    {
      assert [] + e == e;
      EditsKeys(live, reps, e);
      var rep :| rep in reps && Target(live, rep) == e;
      EditsValues(live, reps, rep);
    }
    OverlayKeepsPlaces(live, [], edits, l);
  }

  // Checking values as they are projected is the same as checking them all up front.
  lemma {:induction false} ProjectIsApply(source: Json, reps: seq<Replacement>)
    requires source.Obj? && ScalarReplacements(reps) && !Renames(reps)
    ensures Project(source, reps) == Apply(source, reps)
    decreases |reps|
  {
    if reps != [] {
      var front, rep := reps[..|reps| - 1], reps[|reps| - 1];
      ReadsFront(source, reps);
      ProjectIsApply(source, front);
      if Apply(source, front).Some? {
        AppliedReads(source, front);
        forall r | r in front
          ensures r.segs != rep.segs
        {
          var i :| 0 <= i < |front| && front[i] == r;
          assert reps[i] == r;
        }
        ReadsThrough(source, front, rep);
        SameScalarReads(source, rep);
        SameScalarReads(Apply(source, front).value, rep);
      }
    }
  }

  lemma SameScalarReads(j: Json, rep: Replacement)
    requires IsScalar(rep.current)
    ensures Get(j, rep.segs).Some? && SameScalar(Get(j, rep.segs).value, rep.current) <==> Reads(j, rep)
  {
  }

  // The order in which approved changes are projected is irrelevant.
  lemma ProjectOrderIrrelevant(source: Json, a: seq<Replacement>, b: seq<Replacement>)
    requires ScalarReplacements(a) && ScalarReplacements(b) && !Renames(a) && SameReplacements(a, b)
    ensures Project(source, a) == Project(source, b)
  {
    if source.Obj? {
      ProjectIsApply(source, a);
      ProjectIsApply(source, b);
      ApplyOrderIrrelevant(source, a, b);
    } else {
      ProjectNeedsObject(source, a);
      ProjectNeedsObject(source, b);
    }
  }

  // ----- renames -----

  // The replacement would rename the item its path selects, away from the selected name.
  predicate RenamesAway(rep: Replacement) {
    RenamesSelected(rep.segs) && rep.current == Str(rep.segs[|rep.segs| - 2].selected.value)
  }

  // A path to a selected item's name only ever reads the selected name.
  lemma RenameReads(j: Json, rep: Replacement)
    requires RenamesSelected(rep.segs) && IsScalar(rep.current) && !RenamesAway(rep)
    ensures Get(j, rep.segs).Some? ==> !SameScalar(Get(j, rep.segs).value, rep.current)
  {
    if Get(j, rep.segs).Some? && SameScalar(Get(j, rep.segs).value, rep.current) {
      ScalarsSame(Get(j, rep.segs).value, rep.current);
      ScalarTargetPlain(j, rep.segs);
      RenamedPathReads(j, rep.segs);
    }
  }

  // So a rename that does not start from the selected name is refused wherever it comes.
  lemma {:induction false} ProjectRefusesRename(source: Json, reps: seq<Replacement>, rep: Replacement)
    requires rep in reps && RenamesSelected(rep.segs) && IsScalar(rep.current) && !RenamesAway(rep)
    ensures Project(source, reps).None?
    decreases |reps|
  {
    var front, last := reps[..|reps| - 1], reps[|reps| - 1];
    if rep == last {
      if Project(source, front).Some? {
        RenameReads(Project(source, front).value, rep);
      }
    } else {
      assert rep in front by {
        assert reps == front + [last];
      }
      ProjectRefusesRename(source, front, rep);
    }
  }

  // ----- the projection commutes with updating the whole manifest -----

  function Under(parent: seq<Segment>, rep: Replacement): Replacement {
    Replacement(parent + rep.segs, rep.current, rep.desired)
  }

  function AllUnder(parent: seq<Segment>, reps: seq<Replacement>): (full: seq<Replacement>)
    ensures |full| == |reps| && forall i :: 0 <= i < |reps| ==> full[i] == Under(parent, reps[i])
  {
    seq(|reps|, i requires 0 <= i < |reps| => Under(parent, reps[i]))
  }

  lemma {:induction false} GetConcat(root: Json, p: seq<Segment>, q: seq<Segment>)
    ensures Get(root, p + q) == if Get(root, p).None? then None else Get(Get(root, p).value, q)
    decreases p
  {
    if p == [] {
      assert p + q == q;
    } else {
      assert (p + q)[0] == p[0] && (p + q)[1..] == p[1..] + q;
      GetUnfolds(root, p);
      GetUnfolds(root, p + q);
      if Enter(root, p[0]).Some? {
        EnterExists(root, p[0]);
        GetConcat(At(root, Enter(root, p[0]).value).value, p[1..], q);
      }
    }
  }

  // Writing below a resolved path is writing inside its subtree.
  lemma {:induction false} SetConcat(root: Json, p: seq<Segment>, q: seq<Segment>, v: Json)
    requires q != [] && Resolve(root, p).Some?
    ensures var l := Resolve(root, p).value;
            var below := SetValue(At(root, l).value, q, v);
            SetValue(root, p + q, v) == if below.None? then None else Some(Put(root, l, below.value))
    decreases p
  {
    if p == [] {
      assert p + q == q;
    } else {
      assert (p + q)[0] == p[0] && (p + q)[1..] == p[1..] + q;
      EnterExists(root, p[0]);
      var steps := Enter(root, p[0]).value;
      var inner := At(root, steps).value;
      var more := Resolve(inner, p[1..]).value;
      AtConcat(root, steps, more);
      SetConcat(inner, p[1..], q, v);
      var below := SetValue(At(inner, more).value, q, v);
      if below.Some? {
        PutConcat(root, steps, more, below.value);
      }
    }
  }

  // The replacement writes another name over the one by which the parent path selects its item.
  predicate RenamesParent(parent: seq<Segment>, rep: Replacement) {
    && parent != [] && parent[|parent| - 1].selected.Some?
    && |rep.segs| == 1 && rep.segs[0].key == NAME
    && rep.desired != Str(parent[|parent| - 1].selected.value)
  }

  predicate KeepsParent(parent: seq<Segment>, reps: seq<Replacement>) {
    forall rep :: rep in reps ==> !RenamesParent(parent, rep)
  }

  predicate AllParse(reps: seq<Replacement>) {
    forall rep :: rep in reps ==> rep.segs != []
  }

  lemma ListSnoc(parent: seq<Segment>, front: seq<Replacement>, rep: Replacement)
    ensures KeepsParent(parent, front + [rep]) <==> KeepsParent(parent, front) && !RenamesParent(parent, rep)
    ensures AllParse(front + [rep]) <==> AllParse(front) && rep.segs != []
    ensures AllUnder(parent, front + [rep]) == AllUnder(parent, front) + [Under(parent, rep)]
  {
    assert rep in front + [rep] && forall r :: r in front ==> r in front + [rep];
  }

  // A value below a selected item's name would need the name to be a container.
  lemma PutKeepsName(item: Json, segs: seq<Segment>, x: Json, name: string)
    requires Named(item, name) && segs != [] && Resolve(item, segs).Some? && !At(item, Resolve(item, segs).value).value.Str?
    ensures Named(Put(item, Resolve(item, segs).value, x), name)
  {
    var l := Resolve(item, segs).value;
    EnterExists(item, segs[0]);
    assert l[0] == Enter(item, segs[0]).value[0] == Key(segs[0].key);
  }

  // After the value at a path was replaced, the path reads the new value, unless it ends by
  // selecting and the new value does not have the selected name.
  lemma {:induction false} GetAfterPut(root: Json, p: seq<Segment>, x: Json)
    requires Resolve(root, p).Some? && !At(root, Resolve(root, p).value).value.Str?
    ensures Get(Put(root, Resolve(root, p).value, x), p) ==
            if p == [] || (p[|p| - 1].selected.Some? ==> Named(x, p[|p| - 1].selected.value)) then Some(x) else None
    decreases p
  {
    if p != [] {
      var steps := Enter(root, p[0]).value;
      EnterExists(root, p[0]);
      var inner := At(root, steps).value;
      var more := Resolve(inner, p[1..]).value;
      AtConcat(root, steps, more);
      PutConcat(root, steps, more, x);
      var inner' := Put(inner, more, x);
      GetAfterPut(inner, p[1..], x);
      EnterAfterPut(root, p[0], inner');
      GetUnfolds(Put(root, steps, inner'), p);
      if |p| > 1 && p[0].selected.Some? {
        PutKeepsName(inner, p[1..], x, p[0].selected.value);
      }
    }
  }

  // The item a path ends by selecting has the selected name.
  lemma {:induction false} SelectedIsNamed(root: Json, p: seq<Segment>)
    requires p != [] && p[|p| - 1].selected.Some? && Get(root, p).Some?
    ensures Named(Get(root, p).value, p[|p| - 1].selected.value)
    decreases p
  {
    GetUnfolds(root, p);
    EnterExists(root, p[0]);
    if |p| > 1 {
      SelectedIsNamed(At(root, Enter(root, p[0]).value).value, p[1..]);
    } else {
      assert p[1..] == [];
    }
  }

  // One write under the parent path: it succeeds with the write inside the parent's value, and
  // the parent path then reads that value unless it was the parent's own name.
  lemma WriteCommutes(before: Json, parent: seq<Segment>, rep: Replacement)
    requires Get(before, parent).Some? && Get(before, parent).value.Obj? && rep.segs != []
    ensures var below := SetValue(Get(before, parent).value, rep.segs, rep.desired);
            var updated := SetValue(before, parent + rep.segs, rep.desired);
            && (below.Some? <==> updated.Some?)
            && (updated.Some? ==> Get(updated.value, parent) == if RenamesParent(parent, rep) then None else below)
  {
    var l := Resolve(before, parent).value;
    SetConcat(before, parent, rep.segs, rep.desired);
    var inside := At(before, l).value;
    var below := SetValue(inside, rep.segs, rep.desired);
    if below.Some? {
      GetAfterPut(before, parent, below.value);
      if parent != [] && parent[|parent| - 1].selected.Some? {
        SelectedIsNamed(before, parent);
        SetKeepsName(inside, rep.segs, rep.desired, parent[|parent| - 1].selected.value);
      }
    }
  }

  // What the parent path reads after the updates by full path.
  predicate Follows(projected: Option<Json>, updated: Option<Json>, parent: seq<Segment>, kept: bool) {
    && (updated.Some? ==> projected.Some? && Get(updated.value, parent) == if kept then projected else None)
    && (kept && projected.Some? ==> updated.Some?)
  }

  lemma ProjectLast(source: Json, front: seq<Replacement>, rep: Replacement)
    ensures var before := Project(source, front);
            Project(source, front + [rep]) ==
              if before.None? || rep.segs == [] || Get(before.value, rep.segs).None? ||
                 !SameScalar(Get(before.value, rep.segs).value, rep.current)
              then None
              else SetValue(before.value, rep.segs, rep.desired)
  {
    assert (front + [rep])[..|front|] == front;
  }

  lemma {:induction false} ProjectYieldsObject(source: Json, reps: seq<Replacement>)
    requires Project(source, reps).Some?
    ensures Project(source, reps).value.Obj?
    decreases |reps|
  {
    if reps != [] {
      ProjectYieldsObject(source, reps[..|reps| - 1]);
    }
  }

  // One more replacement.
  lemma FollowStep(source: Json, manifest: Json, parent: seq<Segment>, front: seq<Replacement>, rep: Replacement)
    requires rep.segs != []
    requires Follows(Project(source, front), Project(manifest, AllUnder(parent, front)), parent, KeepsParent(parent, front))
    ensures Follows(Project(source, front + [rep]), Project(manifest, AllUnder(parent, front) + [Under(parent, rep)]), parent,
                    KeepsParent(parent, front) && !RenamesParent(parent, rep))
  {
    ProjectLast(source, front, rep);
    ProjectLast(manifest, AllUnder(parent, front), Under(parent, rep));
    var before := Project(manifest, AllUnder(parent, front));
    if before.Some? {
      GetConcat(before.value, parent, rep.segs);
      ProjectYieldsObject(source, front);
      if KeepsParent(parent, front) {
        WriteCommutes(before.value, parent, rep);
      }
    }
  }

  lemma {:induction false} ProjectionFollows(manifest: Json, parent: seq<Segment>, reps: seq<Replacement>)
    requires Get(manifest, parent).Some? && Get(manifest, parent).value.Obj? && AllParse(reps)
    ensures Follows(Project(Get(manifest, parent).value, reps), Project(manifest, AllUnder(parent, reps)), parent, KeepsParent(parent, reps))
    decreases |reps|
  {
    if reps == [] {
      assert AllUnder(parent, reps) == [];
      RootIsObject(manifest, parent);
    } else {
      var front, rep := reps[..|reps| - 1], reps[|reps| - 1];
      assert reps == front + [rep];
      ListSnoc(parent, front, rep);
      ProjectionFollows(manifest, parent, front);
      FollowStep(Get(manifest, parent).value, manifest, parent, front, rep);
    }
  }

  lemma RootIsObject(manifest: Json, parent: seq<Segment>)
    requires Get(manifest, parent).Some? && Get(manifest, parent).value.Obj?
    ensures manifest.Obj?
  {
    if parent == [] {
      assert Resolve(manifest, parent) == Some([]);
    }
  }

  // Updating the whole manifest by full paths, then reading the parent, is projecting the same
  // replacements onto the parent's subtree: the updates never succeed where the projection
  // fails, and where it succeeds they agree with it exactly if none of them renames the item
  // that the parent path itself selects.
  lemma ProjectionCommutes(manifest: Json, parent: seq<Segment>, reps: seq<Replacement>)
    requires Get(manifest, parent).Some? && AllParse(reps)
    ensures var source := Get(manifest, parent).value;
            var projected, updated := Project(source, reps), Project(manifest, AllUnder(parent, reps));
            && (projected.None? ==> !source.Obj? || updated.None?)
            && (projected.Some? ==>
                  (updated.Some? && Get(updated.value, parent) == projected <==> KeepsParent(parent, reps)))
  {
    if Get(manifest, parent).value.Obj? {
      ProjectionFollows(manifest, parent, reps);
    } else {
      ProjectNeedsObject(Get(manifest, parent).value, reps);
    }
  }

  // The condition can fail: renaming the item that the parent path selects succeeds both ways,
  // and the parent path then reads nothing.
  lemma OwnRenameLosesParent(manifest: Json, parent: seq<Segment>, name: string)
    requires parent != [] && parent[|parent| - 1].selected.Some? && Get(manifest, parent).Some?
    requires name != parent[|parent| - 1].selected.value
    ensures var rep := Replacement([Segment(NAME, None)], Str(parent[|parent| - 1].selected.value), Str(name));
            var updated := Project(manifest, [Under(parent, rep)]);
            Project(Get(manifest, parent).value, [rep]).Some? && updated.Some? && Get(updated.value, parent).None?
  {
    var item, own := Get(manifest, parent).value, parent[|parent| - 1].selected.value;
    var rep := Replacement([Segment(NAME, None)], Str(own), Str(name));
    SelectedIsNamed(manifest, parent);
    RootIsObject(manifest, parent);
    NameReads(item, own);
    GetConcat(manifest, parent, rep.segs);
    WriteCommutes(manifest, parent, rep);
    ProjectOne(item, rep);
    ProjectOne(manifest, Under(parent, rep));
  }

  lemma NameReads(item: Json, name: string)
    requires Named(item, name)
    ensures Get(item, [Segment(NAME, None)]) == Some(Str(name))
  {
    var seg := Segment(NAME, None);
    GetUnfolds(item, [seg]);
    EnterExists(item, seg);
    assert [seg][1..] == [];
  }

  // ----- where the order does decide -----

  // Writing another name over a selected item's name hides the item from its path.
  lemma {:induction false} RenameHides(root: Json, segs: seq<Segment>, v: Json)
    requires RenamesSelected(segs) && SetValue(root, segs, v).Some? && v != Str(segs[|segs| - 2].selected.value)
    ensures Get(SetValue(root, segs, v).value, segs[..|segs| - 1]).None?
    decreases segs
  {
    var root', front := SetValue(root, segs, v).value, segs[..|segs| - 1];
    GetUnfolds(root', front);
    EnterExists(root, segs[0]);
    var inner := At(root, Enter(root, segs[0]).value).value;
    var inner' := SetValue(inner, segs[1..], v).value;
    EnterAfterPut(root, segs[0], inner');
    assert front[1..] == segs[1..][..|segs| - 2];
    if |segs| == 2 {
      assert segs[1..] == [segs[1]];
    } else {
      RenameHides(inner, segs[1..], v);
    }
  }

  lemma ProjectOne(source: Json, rep: Replacement)
    requires source.Obj? && ScalarReplacement(rep) && Reads(source, rep)
    ensures Project(source, [rep]) == SetValue(source, rep.segs, rep.desired)
  {
    assert [rep][..0] == [];
    SameScalarReads(source, rep);
  }

  lemma ProjectNext(source: Json, first: Replacement, second: Replacement)
    requires Project(source, [first]).Some? && ScalarReplacement(second)
    ensures var before := Project(source, [first]).value;
            Project(source, [first, second]) == if Reads(before, second) then SetValue(before, second.segs, second.desired) else None
  {
    assert [first, second][..1] == [first];
    SameScalarReads(Project(source, [first]).value, second);
  }

  // A rename and any other change of the same item, both readable in the source: the rename can
  // come last and cannot come first.
  lemma RenameOrderDecides(source: Json, rename: Replacement, other: Replacement, rest: seq<Segment>)
    requires source.Obj? && ScalarReplacement(rename) && ScalarReplacement(other) && Reads(source, rename) && Reads(source, other)
    requires RenamesSelected(rename.segs) && !RenamesSelected(other.segs) && rename.segs != other.segs
    requires other.segs == rename.segs[..|rename.segs| - 1] + rest
    ensures Project(source, [other, rename]).Some? && Project(source, [rename, other]).None?
  {
    RenameLast(source, rename, other);
    RenameFirst(source, rename, other, rest);
  }

  lemma WritableWhereRead(source: Json, rep: Replacement)
    requires ScalarReplacement(rep) && Reads(source, rep)
    ensures SetValue(source, rep.segs, rep.desired).Some?
  {
    ScalarTargetPlain(source, rep.segs);
    SetIsPut(source, rep.segs, rep.desired);
  }

  lemma RenameLast(source: Json, rename: Replacement, other: Replacement)
    requires source.Obj? && ScalarReplacement(rename) && ScalarReplacement(other) && Reads(source, rename) && Reads(source, other)
    requires !RenamesSelected(other.segs) && rename.segs != other.segs
    ensures Project(source, [other, rename]).Some?
  {
    ProjectIsApply(source, [other]);
    ReadsThrough(source, [other], rename);
    WritableWhereRead(Project(source, [other]).value, rename);
    ProjectNext(source, other, rename);
  }

  lemma RenameFirst(source: Json, rename: Replacement, other: Replacement, rest: seq<Segment>)
    requires source.Obj? && ScalarReplacement(rename) && Reads(source, rename) && RenamesSelected(rename.segs)
    requires ScalarReplacement(other) && other.segs == rename.segs[..|rename.segs| - 1] + rest
    ensures Project(source, [rename, other]).None?
  {
    ScalarTargetPlain(source, rename.segs);
    RenamedPathReads(source, rename.segs);
    ProjectOne(source, rename);
    WritableWhereRead(source, rename);
    RenameHides(source, rename.segs, rename.desired);
    var after := SetValue(source, rename.segs, rename.desired).value;
    GetConcat(after, rename.segs[..|rename.segs| - 1], rest);
    ProjectNext(source, rename, other);
  }
}
