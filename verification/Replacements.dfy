/**
 * Lists of scalar replacements applied to a manifest: the object half of
 * `_materialize_scalar_replacements`, which reads every current value from the
 * original document and writes every desired value into a growing copy.
 */
module Replacements {
  import opened Json
  import opened FieldPath
  import opened Location
  import opened ObjectPath
  import opened Sets

  // A replacement with its path already parsed.
  datatype Replacement = Replacement(segs: seq<Segment>, current: Json, desired: Json)

  function Apply(original: Json, reps: seq<Replacement>): Option<Json> {
    if reps == [] then Some(original)
    else
      var rep := reps[|reps| - 1];
      var before := Apply(original, reps[..|reps| - 1]);
      var read := Get(original, rep.segs);
      if before.None? || read.None? || !SameScalar(read.value, rep.current) then None
      else SetValue(before.value, rep.segs, rep.desired)
  }

  // What the plan checks guarantee of a replacement.
  predicate ScalarReplacement(rep: Replacement) {
    rep.segs != [] && IsScalar(rep.current) && IsScalar(rep.desired) && rep.current != rep.desired
  }

  predicate DistinctPaths(reps: seq<Replacement>) {
    forall i, j :: 0 <= i < j < |reps| ==> reps[i].segs != reps[j].segs
  }

  predicate ScalarReplacements(reps: seq<Replacement>) {
    (forall rep :: rep in reps ==> ScalarReplacement(rep)) && DistinctPaths(reps)
  }

  predicate Reads(original: Json, rep: Replacement) {
    Get(original, rep.segs) == Some(rep.current)
  }

  predicate ReadsAll(original: Json, reps: seq<Replacement>) {
    forall rep :: rep in reps ==> Reads(original, rep)
  }

  predicate Renames(reps: seq<Replacement>) {
    exists rep :: rep in reps && RenamesSelected(rep.segs)
  }

  function Target(original: Json, rep: Replacement): Loc
    requires Reads(original, rep)
  {
    Resolve(original, rep.segs).value
  }

  lemma ReadsFront(original: Json, reps: seq<Replacement>)
    requires reps != []
    ensures var front, rep := reps[..|reps| - 1], reps[|reps| - 1];
            && (ReadsAll(original, reps) <==> ReadsAll(original, front) && Reads(original, rep))
            && (ScalarReplacements(reps) ==> ScalarReplacements(front) && ScalarReplacement(rep))
            && (Renames(reps) <==> Renames(front) || RenamesSelected(rep.segs))
  {
  }

  // The places a replacement list writes, with their new values.
  function Edits(original: Json, reps: seq<Replacement>): map<Loc, Json>
    requires ReadsAll(original, reps)
  {
    if reps == [] then map[]
    else
      var front, rep := reps[..|reps| - 1], reps[|reps| - 1];
      Edits(original, front)[Target(original, rep) := rep.desired]
  }

  lemma TargetsApart(original: Json, a: Replacement, b: Replacement)
    requires Reads(original, a) && Reads(original, b) && ScalarReplacement(a) && ScalarReplacement(b)
    requires a.segs != b.segs
    ensures Apart(Target(original, a), Target(original, b))
  {
    if Target(original, a) == Target(original, b) {
      ResolveInjective(original, a.segs, b.segs);
    }
    ScalarsApart(original, Target(original, a), Target(original, b));
  }

  lemma SamePathSameReplacement(reps: seq<Replacement>, a: Replacement, b: Replacement)
    requires DistinctPaths(reps) && a in reps && b in reps && a.segs == b.segs
    ensures a == b
  {
  }

  lemma EditsUnfold(original: Json, reps: seq<Replacement>)
    requires reps != [] && ReadsAll(original, reps)
    ensures ReadsAll(original, reps[..|reps| - 1]) && Reads(original, reps[|reps| - 1])
    ensures Edits(original, reps)
         == Edits(original, reps[..|reps| - 1])[Target(original, reps[|reps| - 1]) := reps[|reps| - 1].desired]
  {
  }

  lemma {:induction false} EditsKeys(original: Json, reps: seq<Replacement>, l: Loc)
    requires ReadsAll(original, reps)
    ensures l in Edits(original, reps) <==> exists rep :: rep in reps && Target(original, rep) == l
    decreases |reps|
  {
    if reps != [] {
      var front, rep := reps[..|reps| - 1], reps[|reps| - 1];
      EditsUnfold(original, reps);
      EditsKeys(original, front, l);
      assert forall r :: r in reps <==> r in front || r == rep by {
        assert reps == front + [rep];
      }
    }
  }

  lemma ScalarFront(reps: seq<Replacement>)
    requires reps != [] && ScalarReplacements(reps)
    ensures ScalarReplacements(reps[..|reps| - 1])
  {
  }

  // Each replacement's own place holds its desired value; every other place is apart.
  lemma {:induction false} EditsValues(original: Json, reps: seq<Replacement>, rep: Replacement)
    requires ScalarReplacements(reps) && ReadsAll(original, reps) && rep in reps
    ensures Target(original, rep) in Edits(original, reps)
    ensures Edits(original, reps)[Target(original, rep)] == rep.desired
    decreases |reps|
  {
    var front, last := reps[..|reps| - 1], reps[|reps| - 1];
    ScalarFront(reps);
    EditsUnfold(original, reps);
    if rep != last {
      assert rep in front by {
        assert reps == front + [last];
      }
      EditsValues(original, front, rep);
      TargetsDiffer(original, reps, rep, last);
    }
  }

  lemma TargetsDiffer(original: Json, reps: seq<Replacement>, a: Replacement, b: Replacement)
    requires ScalarReplacements(reps) && ReadsAll(original, reps) && a in reps && b in reps && a != b
    ensures Target(original, a) != Target(original, b)
  {
    if a.segs == b.segs {
      SamePathSameReplacement(reps, a, b);
    } else {
      TargetsApart(original, a, b);
      assert Target(original, a) <= Target(original, a);
    }
  }

  lemma EditsApart(original: Json, reps: seq<Replacement>, rep: Replacement, l: Loc)
    requires forall r :: r in reps ==> ScalarReplacement(r)
    requires ReadsAll(original, reps) && Reads(original, rep) && ScalarReplacement(rep)
    requires forall r :: r in reps && r.segs == rep.segs ==> r == rep
    requires l in Edits(original, reps) && l != Target(original, rep)
    ensures Apart(l, Target(original, rep))
  {
    EditsKeys(original, reps, l);
    var r :| r in reps && Target(original, r) == l;
    TargetsApart(original, r, rep);
  }

  lemma NewEditApart(original: Json, reps: seq<Replacement>)
    requires reps != [] && ScalarReplacements(reps) && ReadsAll(original, reps)
    ensures var front, rep := reps[..|reps| - 1], reps[|reps| - 1];
            forall l :: l in Edits(original, front) ==> Apart(l, Target(original, rep))
  {
    var front, rep := reps[..|reps| - 1], reps[|reps| - 1];
    ReadsFront(original, reps);
    forall l | l in Edits(original, front)
      ensures Apart(l, Target(original, rep))
    {
      EditsKeys(original, front, l);
      var r :| r in front && Target(original, r) == l;
      TargetsApart(original, r, rep);
    }
  }

  // One more write into a substituted document substitutes one more place.
  lemma WriteIsPut(original: Json, edits: map<Loc, Json>, rep: Replacement)
    requires ScalarReplacement(rep) && Reads(original, rep)
    requires forall l :: l in edits ==> Apart(l, Target(original, rep))
    requires Resolve(Overlay(original, [], edits), rep.segs) == Resolve(original, rep.segs)
    ensures var before, l := Overlay(original, [], edits), Target(original, rep);
            && At(before, l) == Some(rep.current)
            && Put(before, l, rep.desired) == Overlay(original, [], edits[l := rep.desired])
            && SetValue(before, rep.segs, rep.desired) == Some(Put(before, l, rep.desired))
  {
    var l := Target(original, rep);
    PlaceOfNewEdit(original, edits, l, rep.desired);
    ScalarTargetPlain(original, rep.segs);
    SetIsPut(Overlay(original, [], edits), rep.segs, rep.desired);
  }

  // A scalar place apart from all edits still holds its value, and writing it is one more edit.
  lemma PlaceOfNewEdit(original: Json, edits: map<Loc, Json>, l: Loc, v: Json)
    requires At(original, l).Some? && IsScalar(At(original, l).value) && forall e :: e in edits ==> Apart(e, l)
    ensures At(Overlay(original, [], edits), l) == At(original, l)
    ensures Put(Overlay(original, [], edits), l, v) == Overlay(original, [], edits[l := v])
  {
    assert [] + l == l;
    AtOverlay(original, [], edits, l);
    assert l !in edits by {
      assert l <= l;
    }
    PutExtendsOverlay(original, [], edits, l, v);
  }

  lemma WriteExtends(original: Json, edits: map<Loc, Json>, rep: Replacement, q: seq<Segment>)
    requires ScalarReplacement(rep) && !RenamesSelected(rep.segs) && Reads(original, rep)
    requires forall l :: l in edits ==> Apart(l, Target(original, rep))
    requires Resolve(Overlay(original, [], edits), rep.segs) == Resolve(original, rep.segs)
    requires Resolve(Overlay(original, [], edits), q) == Resolve(original, q)
    ensures var after := Overlay(original, [], edits[Target(original, rep) := rep.desired]);
            SetValue(Overlay(original, [], edits), rep.segs, rep.desired) == Some(after) &&
            Resolve(after, q) == Resolve(original, q)
  {
    WriteIsPut(original, edits, rep);
    ScalarTargetPlain(original, rep.segs);
    RenamesIsNameOfItem(original, rep.segs);
    ResolveStable(Overlay(original, [], edits), Target(original, rep), rep.desired, q);
  }

  // Successive writes are one simultaneous substitution, and no path moves.
  lemma {:induction false} ApplyIsOverlay(original: Json, reps: seq<Replacement>, q: seq<Segment>)
    requires ScalarReplacements(reps) && !Renames(reps) && ReadsAll(original, reps)
    ensures Apply(original, reps) == Some(Overlay(original, [], Edits(original, reps)))
    ensures Resolve(Overlay(original, [], Edits(original, reps)), q) == Resolve(original, q)
    decreases |reps|
  {
    if reps == [] {
      OverlayIdentityAtRoot(original, map[]);
    } else {
      var front, rep := reps[..|reps| - 1], reps[|reps| - 1];
      ReadsFront(original, reps);
      ApplyIsOverlay(original, front, rep.segs);
      ApplyIsOverlay(original, front, q);
      NewEditApart(original, reps);
      WriteExtends(original, Edits(original, front), rep, q);
    }
  }

  lemma AppliedLast(original: Json, reps: seq<Replacement>)
    requires reps != [] && ScalarReplacement(reps[|reps| - 1]) && Apply(original, reps).Some?
    ensures Apply(original, reps[..|reps| - 1]).Some? && Reads(original, reps[|reps| - 1])
  {
    ScalarsSame(Get(original, reps[|reps| - 1].segs).value, reps[|reps| - 1].current);
  }

  // On scalars the type-exact comparison is equality.
  lemma ScalarsSame(a: Json, b: Json)
    requires SameScalar(a, b) && IsScalar(b)
    ensures a == b
  {
  }

  lemma {:induction false} AppliedReads(original: Json, reps: seq<Replacement>)
    requires ScalarReplacements(reps) && Apply(original, reps).Some?
    ensures ReadsAll(original, reps)
    decreases |reps|
  {
    if reps != [] {
      ReadsFront(original, reps);
      AppliedLast(original, reps);
      AppliedReads(original, reps[..|reps| - 1]);
    }
  }

  // A list without renames applies exactly when every replacement reads its
  // current value in the original.
  lemma AppliesIffReads(original: Json, reps: seq<Replacement>)
    requires ScalarReplacements(reps) && !Renames(reps)
    ensures Apply(original, reps).Some? <==> ReadsAll(original, reps)
  {
    if Apply(original, reps).Some? {
      AppliedReads(original, reps);
    } else if ReadsAll(original, reps) {
      ApplyIsOverlay(original, reps, []);
    }
  }

  lemma {:induction false} OverlayAtEdit(j: Json, here: Loc, edits: map<Loc, Json>, l: Loc)
    requires At(j, l).Some? && here + l in edits
    requires forall e :: e in edits && e != here + l ==> Apart(e, here + l)
    ensures At(Overlay(j, here, edits), l) == Some(edits[here + l])
    decreases l
  {
    if l == [] {
      assert here + l == here;
    } else {
      assert here <= here + l && here != here + l;
      assert here !in edits;
      assert here + [l[0]] + l[1..] == here + l;
      OverlayAtEdit(Child(j, l[0]).value, here + [l[0]], edits, l[1..]);
    }
  }

  // Every replaced path holds its desired value afterwards, at the same place.
  lemma AppliedValue(original: Json, reps: seq<Replacement>, rep: Replacement)
    requires ScalarReplacements(reps) && !Renames(reps) && ReadsAll(original, reps) && rep in reps
    ensures Apply(original, reps).Some?
    ensures Resolve(Apply(original, reps).value, rep.segs) == Resolve(original, rep.segs)
    ensures Get(Apply(original, reps).value, rep.segs) == Some(rep.desired)
  {
    var l, edits := Target(original, rep), Edits(original, reps);
    ApplyIsOverlay(original, reps, rep.segs);
    EditsValues(original, reps, rep);
    forall e | e in edits && e != l
      ensures Apart(e, l)
    {
      forall r | r in reps && r.segs == rep.segs
        ensures r == rep
      {
        SamePathSameReplacement(reps, r, rep);
      }
      EditsApart(original, reps, rep, e);
    }
    assert [] + l == l;
    OverlayAtEdit(original, [], edits, l);
  }

  // ----- order does not matter -----

  ghost predicate SameReplacements(a: seq<Replacement>, b: seq<Replacement>) {
    forall rep :: rep in a <==> rep in b
  }

  lemma EditsOfSameReplacements(original: Json, a: seq<Replacement>, b: seq<Replacement>)
    requires ScalarReplacements(a) && ScalarReplacements(b) && ReadsAll(original, a) && ReadsAll(original, b)
    requires SameReplacements(a, b)
    ensures Edits(original, a) == Edits(original, b)
  {
    var ea, eb := Edits(original, a), Edits(original, b);
    forall l
      ensures l in ea <==> l in eb
      ensures l in ea ==> ea[l] == eb[l]
    {
      EditsKeys(original, a, l);
      EditsKeys(original, b, l);
      if l in ea {
        var rep :| rep in a && Target(original, rep) == l;
        EditsValues(original, a, rep);
        EditsValues(original, b, rep);
      }
    }
  }

  // Any reordering of the same replacements gives the same document.
  lemma ApplyOrderIrrelevant(original: Json, a: seq<Replacement>, b: seq<Replacement>)
    requires ScalarReplacements(a) && ScalarReplacements(b) && !Renames(a)
    requires SameReplacements(a, b)
    ensures Apply(original, a) == Apply(original, b)
  {
    AppliesIffReads(original, a);
    AppliesIffReads(original, b);
    if ReadsAll(original, a) {
      EditsOfSameReplacements(original, a, b);
      ApplyIsOverlay(original, a, []);
      ApplyIsOverlay(original, b, []);
    }
  }

  // ----- exact inverse -----

  function Inverse(rep: Replacement): Replacement {
    Replacement(rep.segs, rep.desired, rep.current)
  }

  // `back` undoes `reps` path by path, in any order.
  predicate Inverts(reps: seq<Replacement>, back: seq<Replacement>) {
    |back| == |reps| && DistinctPaths(back) && forall rep :: rep in reps ==> Inverse(rep) in back
  }

  lemma InvertedBy(reps: seq<Replacement>, back: seq<Replacement>, b: Replacement)
    requires ScalarReplacements(reps) && Inverts(reps, back) && b in back
    ensures Inverse(b) in reps
  {
    var paths := set rep | rep in reps :: rep.segs;
    var backPaths := set b | b in back :: b.segs;
    PathCount(reps);
    PathCount(back);
    forall p | p in paths
      ensures p in backPaths
    {
      var rep :| rep in reps && rep.segs == p;
      assert Inverse(rep) in back;
    }
    SubsetOfSameSize(paths, backPaths);
    assert b.segs in backPaths;
    var rep :| rep in reps && rep.segs == b.segs;
    SamePathSameReplacement(back, b, Inverse(rep));
  }

  lemma InverseScalar(reps: seq<Replacement>, back: seq<Replacement>)
    requires ScalarReplacements(reps) && Inverts(reps, back)
    ensures ScalarReplacements(back)
  {
    forall b | b in back
      ensures ScalarReplacement(b)
    {
      InvertedBy(reps, back, b);
    }
  }

  lemma {:induction false} PathCount(reps: seq<Replacement>)
    requires DistinctPaths(reps)
    ensures |set rep | rep in reps :: rep.segs| == |reps|
  {
    if reps != [] {
      var n := |reps| - 1;
      PathCount(reps[..n]);
      assert reps == reps[..n] + [reps[n]];
      assert (set rep | rep in reps :: rep.segs) == (set rep | rep in reps[..n] :: rep.segs) + {reps[n].segs};
    }
  }

  // A path that selects an item by name and then reads that name can only read the
  // selected name.
  lemma {:induction false} RenamedPathReads(root: Json, segs: seq<Segment>)
    requires RenamesSelected(segs) && segs[|segs| - 1].selected.None? && Get(root, segs).Some?
    ensures Get(root, segs).value == Str(segs[|segs| - 2].selected.value)
    decreases segs
  {
    GetUnfolds(root, segs);
    EnterExists(root, segs[0]);
    var inner := At(root, Enter(root, segs[0]).value).value;
    if |segs| == 2 {
      GetUnfolds(inner, segs[1..]);
      EnterExists(inner, segs[1]);
      assert segs[1..][1..] == [];
    } else {
      RenamedPathReads(inner, segs[1..]);
    }
  }

  lemma RenamedNotReadable(original: Json, patched: Json, rep: Replacement)
    requires Reads(original, rep) && ScalarReplacement(rep) && RenamesSelected(rep.segs)
    ensures !Reads(patched, Inverse(rep))
  {
    ScalarTargetPlain(original, rep.segs);
    RenamedPathReads(original, rep.segs);
    if Get(patched, rep.segs).Some? {
      RenamedPathReads(patched, rep.segs);
    }
  }

  // After applying `reps`, the inverse list reads its values where the original did.
  predicate Undoable(original: Json, reps: seq<Replacement>, patched: Json, back: seq<Replacement>) {
    forall b :: b in back ==>
      && Reads(patched, b) && Reads(original, Inverse(b)) && Inverse(b) in reps
      && !RenamesSelected(b.segs) && Resolve(patched, b.segs) == Resolve(original, b.segs)
  }

  lemma BackReads(original: Json, reps: seq<Replacement>, patched: Json, back: seq<Replacement>)
    requires ScalarReplacements(reps) && ReadsAll(original, reps) && !Renames(reps) && Inverts(reps, back)
    requires Apply(original, reps) == Some(patched)
    ensures Undoable(original, reps, patched, back)
  {
    forall b | b in back
      ensures Reads(patched, b) && Reads(original, Inverse(b)) && Inverse(b) in reps
      ensures !RenamesSelected(b.segs) && Resolve(patched, b.segs) == Resolve(original, b.segs)
    {
      InvertedBy(reps, back, b);
      AppliedValue(original, reps, Inverse(b));
    }
  }

  // The inverse list writes the same places,
  lemma BackKeys(original: Json, reps: seq<Replacement>, patched: Json, back: seq<Replacement>, l: Loc)
    requires ReadsAll(original, reps) && ReadsAll(patched, back) && Inverts(reps, back)
    requires Undoable(original, reps, patched, back)
    ensures l in Edits(patched, back) <==> l in Edits(original, reps)
  {
    EditsKeys(original, reps, l);
    EditsKeys(patched, back, l);
    if l in Edits(original, reps) {
      var rep :| rep in reps && Target(original, rep) == l;
      SameTarget(original, reps, patched, back, Inverse(rep));
    }
    if l in Edits(patched, back) {
      var b :| b in back && Target(patched, b) == l;
      SameTarget(original, reps, patched, back, b);
    }
  }

  lemma SameTarget(original: Json, reps: seq<Replacement>, patched: Json, back: seq<Replacement>, b: Replacement)
    requires Undoable(original, reps, patched, back) && b in back
    ensures Reads(patched, b) && Inverse(b) in reps && Reads(original, Inverse(b))
    ensures Target(patched, b) == Target(original, Inverse(b))
  {
  }

  // with the original values.
  lemma BackValues(original: Json, reps: seq<Replacement>, patched: Json, back: seq<Replacement>, l: Loc)
    requires ReadsAll(original, reps) && ReadsAll(patched, back) && ScalarReplacements(back)
    requires Undoable(original, reps, patched, back) && l in Edits(patched, back)
    ensures At(original, l) == Some(Edits(patched, back)[l])
  {
    EditsKeys(patched, back, l);
    var b :| b in back && Target(patched, b) == l;
    assert Reads(original, Inverse(b)) && Target(original, Inverse(b)) == l;
    EditsValues(patched, back, b);
  }

  lemma RollbackWithoutRenames(original: Json, reps: seq<Replacement>, patched: Json, back: seq<Replacement>)
    requires ScalarReplacements(reps) && ReadsAll(original, reps) && !Renames(reps) && Inverts(reps, back)
    requires Apply(original, reps) == Some(patched)
    ensures Apply(patched, back) == Some(original)
  {
    InverseScalar(reps, back);
    BackReads(original, reps, patched, back);
    var edits, backEdits := Edits(original, reps), Edits(patched, back);
    forall l
      ensures l in backEdits <==> l in edits
      ensures l in backEdits ==> At(original, l) == Some(backEdits[l])
    {
      BackKeys(original, reps, patched, back, l);
      if l in backEdits {
        BackValues(original, reps, patched, back, l);
      }
    }
    ApplyIsOverlay(original, reps, []);
    ApplyIsOverlay(patched, back, []);
    OverlayTwice(original, [], edits, backEdits);
    OverlayIdentityAtRoot(original, backEdits);
  }

  // Applying the inverse list to the patched document restores the original exactly
  // when no replacement rewrites the name its own path selects by; otherwise the
  // inverse list is refused.
  lemma RollbackRestores(original: Json, reps: seq<Replacement>, back: seq<Replacement>)
    requires ScalarReplacements(reps) && Inverts(reps, back)
    requires Apply(original, reps).Some?
    ensures !Renames(reps) ==> Apply(Apply(original, reps).value, back) == Some(original)
    ensures Renames(reps) ==> Apply(Apply(original, reps).value, back).None?
  {
    var patched := Apply(original, reps).value;
    AppliedReads(original, reps);
    InverseScalar(reps, back);
    if Renames(reps) {
      var rep :| rep in reps && RenamesSelected(rep.segs);
      RenamedNotReadable(original, patched, rep);
      assert Inverse(rep) in back;
      if Apply(patched, back).Some? {
        AppliedReads(patched, back);
      }
    } else {
      RollbackWithoutRenames(original, reps, patched, back);
    }
  }
}
