/**
 * Materialising a patch in the manifest's own text: `_materialize_scalar_replacements`
 * as one operation over the loaded object, the node tree and the source characters.
 */
module Materialize {
  import opened Json
  import opened Text
  import opened FieldPath
  import opened Location
  import opened ObjectPath
  import opened Replacements
  import opened PatchPlan
  import opened NodeTree
  import opened Splice

  // The foreign YAML library and digest, as total functions of their input.
  datatype Yaml = Yaml(
    load: string -> Option<Json>,
    compose: string -> Option<Node>,
    aliased: string -> bool,
    digest: Json -> string,
    encode: (Node, Json) -> Option<string>)

  // The source is the approved Deployment and has one patchable root mapping.
  predicate Opens(yaml: Yaml, source: string, digest: string) {
    && yaml.load(source).Some? && IsDeployment(yaml.load(source).value)
    && yaml.digest(yaml.load(source).value) == digest
    && !yaml.aliased(source)
    && yaml.compose(source).Some? && yaml.compose(source).value.Mapping?
  }

  // The span of one replacement's leaf with its encoded new text.
  function SpanOf(yaml: Yaml, root: Node, rep: Replacement): Option<Span> {
    var node := NodeValueAt(root, rep.segs);
    if node.None? || !node.value.Scalar? then None
    else
      var text := yaml.encode(node.value, rep.desired);
      if text.None? then None else Some(Span(node.value.start, node.value.end, text.value))
  }

  function SpansOf(yaml: Yaml, root: Node, reps: seq<Replacement>): Option<seq<Span>> {
    if reps == [] then Some([])
    else
      var front := SpansOf(yaml, root, reps[..|reps| - 1]);
      var last := SpanOf(yaml, root, reps[|reps| - 1]);
      if front.None? || last.None? then None else Some(front.value + [last.value])
  }

  predicate DistinctBounds(spans: seq<Span>) {
    forall i, j :: 0 <= i < j < |spans| ==> spans[i].start != spans[j].start || spans[i].end != spans[j].end
  }

  // Everything is in place for the splice.
  predicate Ready(yaml: Yaml, source: string, digest: string, reps: seq<Replacement>) {
    && Opens(yaml, source, digest)
    && Apply(yaml.load(source).value, reps).Some?
    && SpansOf(yaml, yaml.compose(source).value, reps).Some?
    && DistinctBounds(SpansOf(yaml, yaml.compose(source).value, reps).value)
  }

  // `patched` is the right-to-left splice of the replacements' spans.
  ghost predicate Spliced(yaml: Yaml, source: string, reps: seq<Replacement>, patched: string)
    requires yaml.compose(source).Some? && SpansOf(yaml, yaml.compose(source).value, reps).Some?
  {
    exists asc ::
      && multiset(asc) == multiset(SpansOf(yaml, yaml.compose(source).value, reps).value)
      && Splice.Ascending(asc) && patched == CutAll(source, asc)
  }

  // The re-read of the patched text is the document with exactly the approved values replaced.
  predicate Reparses(yaml: Yaml, source: string, reps: seq<Replacement>, patched: string)
    requires yaml.load(source).Some? && Apply(yaml.load(source).value, reps).Some?
  {
    yaml.load(patched).Some? && PyEq(yaml.load(patched).value, Apply(yaml.load(source).value, reps).value)
  }

  ghost predicate Materialized(yaml: Yaml, source: string, digest: string, reps: seq<Replacement>, patched: string) {
    && Ready(yaml, source, digest, reps)
    && Spliced(yaml, source, reps, patched)
    && Reparses(yaml, source, reps, patched)
  }

  lemma {:induction false} ApplyPrefix(original: Json, reps: seq<Replacement>, n: nat)
    requires n <= |reps| && Apply(original, reps).Some?
    ensures Apply(original, reps[..n]).Some?
    decreases |reps|
  {
    if n == |reps| {
      assert reps[..n] == reps;
    } else {
      assert reps[..|reps| - 1][..n] == reps[..n];
      ApplyPrefix(original, reps[..|reps| - 1], n);
    }
  }

  lemma {:induction false} SpansPrefix(yaml: Yaml, root: Node, reps: seq<Replacement>, n: nat)
    requires n <= |reps| && SpansOf(yaml, root, reps).Some?
    ensures SpansOf(yaml, root, reps[..n]).Some?
    decreases |reps|
  {
    if n == |reps| {
      assert reps[..n] == reps;
    } else {
      assert reps[..|reps| - 1][..n] == reps[..n];
      SpansPrefix(yaml, root, reps[..|reps| - 1], n);
    }
  }

  method DistinctPairs(spans: seq<Span>) returns (ok: bool)
    ensures ok == DistinctBounds(spans)
  {
    var seen: set<(nat, nat)> := {};
    for n := 0 to |spans|
      invariant seen == set i | 0 <= i < n :: (spans[i].start, spans[i].end)
      invariant DistinctBounds(spans[..n])
    {
      var pair := (spans[n].start, spans[n].end);
      if pair in seen {
        var i :| 0 <= i < n && (spans[i].start, spans[i].end) == pair;
        return false;
      }
      seen := seen + {pair};
      assert forall i :: 0 <= i < n ==> (spans[i].start, spans[i].end) in seen;
    }
    assert spans[..|spans|] == spans;
    ok := true;
  }

  // One turn of the loop: it goes on exactly when the next replacement reads, has a
  // leaf and can be written, and stopping there means the whole list fails.
  lemma Turn(yaml: Yaml, original: Json, root: Node, reps: seq<Replacement>, n: nat, expected: Json, spans: seq<Span>)
    requires n < |reps|
    requires Apply(original, reps[..n]) == Some(expected) && SpansOf(yaml, root, reps[..n]) == Some(spans)
    ensures var rep := reps[n];
            var read := Get(original, rep.segs);
            var span := SpanOf(yaml, root, rep);
            var written := SetValue(expected, rep.segs, rep.desired);
            if read.Some? && SameScalar(read.value, rep.current) && span.Some? && written.Some? then
              Apply(original, reps[..n + 1]) == written && SpansOf(yaml, root, reps[..n + 1]) == Some(spans + [span.value])
            else
              Apply(original, reps).None? || SpansOf(yaml, root, reps).None?
  {
    var upto := reps[..n + 1];
    assert upto[..n] == reps[..n] && upto[n] == reps[n];
    if Apply(original, upto).None? || SpansOf(yaml, root, upto).None? {
      if Apply(original, reps).Some? && SpansOf(yaml, root, reps).Some? {
        ApplyPrefix(original, reps, n + 1);
        SpansPrefix(yaml, root, reps, n + 1);
      }
    }
  }

  // One replacement: the document with it written, and the span to rewrite.
  method CollectSpan(yaml: Yaml, original: Json, root: Node, field: ScalarField, expected: Json)
    returns (written: Option<Json>, span: Span)
    ensures var rep := Parsed(field);
            var read := Get(original, rep.segs);
            if read.Some? && SameScalar(read.value, rep.current) && SpanOf(yaml, root, rep).Some?
            then written == SetValue(expected, rep.segs, rep.desired) && Some(span) == SpanOf(yaml, root, rep)
            else written.None?
  {
    span := Span(0, 0, "");
    var segs := FieldPathSegments(field.path);
    var current := ObjectValueAt(original, segs);
    if current.None? || !SameScalar(current.value, field.current) {
      return None, span;
    }
    var node := WalkNodes(root, segs);
    if node.None? || !node.value.Scalar? {
      return None, span;
    }
    var text := yaml.encode(node.value, field.desired);
    if text.None? {
      return None, span;
    }
    written := SetValue(expected, segs, field.desired);
    span := Span(node.value.start, node.value.end, text.value);
  }

  // The loop over the replacements: the expected document and the spans to rewrite.
  method CollectSpans(yaml: Yaml, original: Json, root: Node, fields: seq<ScalarField>)
    returns (ok: bool, expected: Json, spans: seq<Span>)
    ensures ok <==> Apply(original, ParsedAll(fields)).Some? && SpansOf(yaml, root, ParsedAll(fields)).Some?
    ensures ok ==> Apply(original, ParsedAll(fields)) == Some(expected)
    ensures ok ==> SpansOf(yaml, root, ParsedAll(fields)) == Some(spans)
  {
    ghost var reps := ParsedAll(fields);
    ok, expected, spans := false, original, [];
    for n := 0 to |fields|
      invariant Apply(original, reps[..n]) == Some(expected)
      invariant SpansOf(yaml, root, reps[..n]) == Some(spans)
    {
      Turn(yaml, original, root, reps, n, expected, spans);
      var written, span := CollectSpan(yaml, original, root, fields[n], expected);
      if written.None? {
        return;
      }
      spans := spans + [span];
      expected := written.value;
    }
    assert reps[..|fields|] == reps;
    ok := true;
  }

  // _materialize_scalar_replacements. It fails unless everything is in place, and
  // then returns the splice exactly when the splice re-reads as the expected document.
  method MaterializeReplacements(yaml: Yaml, source: string, digest: string, fields: seq<ScalarField>)
    returns (result: Option<string>)
    ensures !Ready(yaml, source, digest, ParsedAll(fields)) ==> result.None?
    ensures Ready(yaml, source, digest, ParsedAll(fields)) ==>
              exists patched :: Spliced(yaml, source, ParsedAll(fields), patched) &&
                result == if Reparses(yaml, source, ParsedAll(fields), patched) then Some(patched) else None
  {
    var loaded := yaml.load(source);
    if loaded.None? || !IsDeployment(loaded.value) || yaml.digest(loaded.value) != digest {
      return None;
    }
    var composed := yaml.compose(source);
    if yaml.aliased(source) || composed.None? || !composed.value.Mapping? {
      return None;
    }
    var ok, expected, spans := CollectSpans(yaml, loaded.value, composed.value, fields);
    if !ok {
      return None;
    }
    var distinct := DistinctPairs(spans);
    if !distinct {
      return None;
    }
    var patched := SpliceSpans(source, spans);
    assert Spliced(yaml, source, ParsedAll(fields), patched);
    var reread := yaml.load(patched);
    if reread.None? || !PyEq(reread.value, expected) {
      return None;
    }
    result := Some(patched);
  }

  // ----- the patched text differs from the source only in the approved leaves -----

  // The loader's node tree and object describe the same document.
  predicate Coherent(yaml: Yaml, source: string) {
    yaml.load(source).Some? && yaml.compose(source).Some? &&
    var root := yaml.compose(source).value;
    Plain(root) && WellSpanned(root) && root.end <= |source| && Construct(root) == yaml.load(source).value
  }

  lemma {:induction false} SpansAre(yaml: Yaml, root: Node, reps: seq<Replacement>)
    requires SpansOf(yaml, root, reps).Some?
    ensures |SpansOf(yaml, root, reps).value| == |reps|
    ensures forall i :: 0 <= i < |reps| ==> SpanOf(yaml, root, reps[i]) == Some(SpansOf(yaml, root, reps).value[i])
    decreases |reps|
  {
    if reps != [] {
      var front := reps[..|reps| - 1];
      SpansAre(yaml, root, front);
      assert forall i :: 0 <= i < |front| ==> front[i] == reps[i];
    }
  }

  // On a coherent document the spans of different paths lie in the source, apart from each other
  // and with different bounds, so the overlap test never refuses a replacement list there.
  lemma SpansFit(yaml: Yaml, source: string, reps: seq<Replacement>)
    requires Coherent(yaml, source) && DistinctPaths(reps)
    requires SpansOf(yaml, yaml.compose(source).value, reps).Some?
    ensures DistinctBounds(SpansOf(yaml, yaml.compose(source).value, reps).value)
    ensures SpansOk(source, SpansOf(yaml, yaml.compose(source).value, reps).value)
  {
    var root := yaml.compose(source).value;
    var spans := SpansOf(yaml, root, reps).value;
    SpansAre(yaml, root, reps);
    forall i | 0 <= i < |spans|
      ensures Fits(source, spans[i])
    {
      assert SpanOf(yaml, root, reps[i]) == Some(spans[i]);
      WalksAgree(root, reps[i].segs);
      SpanInside(root, Resolve(Construct(root), reps[i].segs).value);
    }
    forall i, j | 0 <= i < j < |spans|
      ensures Disjoint(spans[i], spans[j]) && (spans[i].start != spans[j].start || spans[i].end != spans[j].end)
    {
      assert SpanOf(yaml, root, reps[i]) == Some(spans[i]) && SpanOf(yaml, root, reps[j]) == Some(spans[j]);
      ScalarSpansDisjoint(root, reps[i].segs, reps[j].segs);
    }
  }

  // A materialised patch is the source with the leaf of each replaced path, and
  // nothing else, rewritten.
  lemma MaterializedIsSubstitution(yaml: Yaml, source: string, digest: string, reps: seq<Replacement>, patched: string)
    requires Coherent(yaml, source) && DistinctPaths(reps)
    requires Materialized(yaml, source, digest, reps, patched)
    ensures exists asc ::
              && multiset(asc) == multiset(SpansOf(yaml, yaml.compose(source).value, reps).value)
              && Chain(source, 0, asc) && patched == Substitute(source, 0, asc)
  {
    var spans := SpansOf(yaml, yaml.compose(source).value, reps).value;
    SpansFit(yaml, source, reps);
    var asc :| multiset(asc) == multiset(spans) && Splice.Ascending(asc) && patched == CutAll(source, asc);
    OkPermuted(source, spans, asc);
    OkChain(source, 0, asc);
    CutAllIsSubstitute(source, asc);
  }

  // On a coherent document every replacement that reads its current value has a
  // scalar leaf, so only the encoder can still refuse it.
  lemma ReadableHasLeaf(yaml: Yaml, source: string, rep: Replacement)
    requires Coherent(yaml, source) && Reads(yaml.load(source).value, rep) && IsScalar(rep.current)
    ensures var node := NodeValueAt(yaml.compose(source).value, rep.segs);
            node.Some? && node.value.Scalar? && node.value.value == rep.current
  {
    WalkSimulates(yaml.compose(source).value, rep.segs);
  }

  // ----- patch and rollback through the text -----

  lemma {:induction false} NamedOfNorm(item: Json, name: string)
    ensures Named(Norm(item), name) <==> Named(item, name)
  {
  }

  lemma EnterOfNorm(j: Json, seg: Segment)
    ensures Enter(Norm(j), seg) == Enter(j, seg)
    ensures Enter(j, seg).Some? ==>
              var steps := Enter(j, seg).value;
              At(j, steps).Some? && At(Norm(j), steps) == Some(Norm(At(j, steps).value))
  {
    if j.Obj? && seg.key in j.fields {
      var value := j.fields[seg.key];
      assert Norm(j).fields[seg.key] == Norm(value);
      if value.List? && seg.selected.Some? {
        forall i | 0 <= i < |value.items|
          ensures Named(Norm(value).items[i], seg.selected.value) <==> Named(value.items[i], seg.selected.value)
        {
          NamedOfNorm(value.items[i], seg.selected.value);
        }
        FindOnlyPointwise(Norm(value).items, value.items, seg.selected.value);
      }
      if Enter(j, seg).Some? {
        EnterExists(j, seg);
        EnterExists(Norm(j), seg);
      }
    }
  }

  lemma {:induction false} PutOfNorm(j: Json, l: Loc, v: Json)
    requires At(j, l).Some?
    ensures At(Norm(j), l).Some? && Norm(Put(j, l, v)) == Put(Norm(j), l, Norm(v))
    decreases l
  {
    if l != [] {
      var c := Child(j, l[0]).value;
      PutOfNorm(c, l[1..], v);
      var c' := Put(c, l[1..], v);
      match j
      case Obj(m) =>
        assert Norm(Obj(m[l[0].k := c'])).fields == Norm(j).fields[l[0].k := Norm(c')];
      case List(xs) =>
        assert Norm(List(xs[l[0].i := c'])).items == Norm(j).items[l[0].i := Norm(c')];
    }
  }

  lemma {:induction false} SetOfNorm(j: Json, segs: seq<Segment>, v: Json)
    requires SetValue(j, segs, v).Some?
    ensures SetValue(Norm(j), segs, Norm(v)) == Some(Norm(SetValue(j, segs, v).value))
    decreases segs
  {
    if |segs| == 1 {
      assert Norm(Obj(j.fields[segs[0].key := v])).fields == Norm(j).fields[segs[0].key := Norm(v)];
    } else {
      EnterOfNorm(j, segs[0]);
      var steps := Enter(j, segs[0]).value;
      EnterExists(j, segs[0]);
      EnterExists(Norm(j), segs[0]);
      var inner := At(j, steps).value;
      SetOfNorm(inner, segs[1..], v);
      PutOfNorm(j, steps, SetValue(inner, segs[1..], v).value);
    }
  }

  // Equal documents, in Python's sense, stay equal under the same replacements.
  lemma {:induction false} ApplyRespectsEq(a: Json, b: Json, reps: seq<Replacement>)
    requires PyEq(a, b) && Apply(a, reps).Some? && Apply(b, reps).Some?
    ensures PyEq(Apply(a, reps).value, Apply(b, reps).value)
    decreases |reps|
  {
    if reps != [] {
      var front, rep := reps[..|reps| - 1], reps[|reps| - 1];
      ApplyRespectsEq(a, b, front);
      var x, y := Apply(a, front).value, Apply(b, front).value;
      SetOfNorm(x, rep.segs, rep.desired);
      SetOfNorm(y, rep.segs, rep.desired);
      PyEqIsNormEquality(x, y);
      PyEqIsNormEquality(Apply(a, reps).value, Apply(b, reps).value);
    }
  }

  // Patching a source and rolling the result back, when both succeed, ends in a text
  // that loads as the original manifest, for every valid plan and any library behaviour.
  lemma PatchThenRollback(yaml: Yaml, plan: Plan, source: string, patched: string, digest: string, restored: string)
    requires ValidPlan(plan)
    requires Materialized(yaml, source, plan.sourceDigest, ParsedAll(plan.replacements), patched)
    requires Materialized(yaml, patched, digest, ParsedAll(plan.rollback), restored)
    ensures yaml.load(restored).Some? && PyEq(yaml.load(restored).value, yaml.load(source).value)
  {
    var reps, back := ParsedAll(plan.replacements), ParsedAll(plan.rollback);
    var o1, o2, o3 := yaml.load(source).value, yaml.load(patched).value, yaml.load(restored).value;
    var expected := Apply(o1, reps).value;
    ValidPlanScalar(plan);
    ValidPlanInverts(plan);
    InverseScalar(reps, back);
    RollbackRestores(o1, reps, back);
    AppliedReads(o1, reps);
    AppliedReads(o2, back);
    if Renames(reps) {
      var rep :| rep in reps && RenamesSelected(rep.segs);
      assert Inverse(rep) in back;
      RenamedNotReadable(o1, o2, rep);
    } else {
      ApplyRespectsEq(o2, expected, back);
      PyEqEquivalence(o3, Apply(o2, back).value, o1);
    }
  }
}
