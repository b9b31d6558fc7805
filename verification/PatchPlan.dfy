/**
 * Scalar patch plans: the forward replacements approved for a manifest and the
 * rollback replacements stored beside them, with the checks of
 * `validate_scalar_patch_plan` and `action_allows_replacement`.
 */
module PatchPlan {
  import opened Json
  import opened Text
  import opened FieldPath
  import opened Location
  import opened ObjectPath
  import opened Replacements
  import opened Sets

  datatype ScalarField = ScalarField(path: string, current: Json, desired: Json)

  datatype Plan = Plan(
    actionType: string,
    sourceType: string,
    sourceDigest: string,
    baseSha: string,
    manifestPath: string,
    replacements: seq<ScalarField>,
    rollback: seq<ScalarField>)

  const RAW_YAML := "raw-yaml"
  const ACTIONS := {"oom_memory", "image_rollback", "image_tag_fix", "replica_scale", "probe_fix", "selector_fix"}
  const SELECTOR_FIX := "selector_fix"

  function Parsed(field: ScalarField): Replacement {
    Replacement(Segments(field.path), field.current, field.desired)
  }

  function ParsedAll(fields: seq<ScalarField>): (reps: seq<Replacement>)
    ensures |reps| == |fields| && forall i :: 0 <= i < |fields| ==> reps[i] == Parsed(fields[i])
  {
    seq(|fields|, i requires 0 <= i < |fields| => Parsed(fields[i]))
  }

  // ----- field checks -----

  predicate HexText(s: string) {
    forall i :: 0 <= i < |s| ==> '0' <= s[i] <= '9' || 'a' <= s[i] <= 'f'
  }

  predicate IsDigest(s: string) {
    StartsWith(s, "sha256:") && |s| == 71 && HexText(s[7..])
  }

  predicate IsCommit(s: string) {
    40 <= |s| <= 64 && HexText(s)
  }

  // A `..` between slashes, or at either end.
  predicate HasParentPart(s: string) {
    exists i :: 0 <= i <= |s| - 2 && s[i] == '.' && s[i + 1] == '.' &&
                (i == 0 || s[i - 1] == '/') && (i + 2 == |s| || s[i + 2] == '/')
  }

  predicate SafeManifestPath(s: string) {
    s != "" && !StartsWith(s, "/") && '\\' !in s && !HasParentPart(s)
  }

  predicate NonBlankText(j: Json) {
    j.Str? && Strip(j.s) != ""
  }

  function DigitsValue(s: string): Option<nat> {
    if s == "" then None
    else
      var last := s[|s| - 1];
      if !('0' <= last <= '9') then None
      else
        var digit := (last - '0') as nat;
        if |s| == 1 then Some(digit)
        else
          var front := DigitsValue(s[..|s| - 1]);
          if front.None? then None else Some(10 * front.value + digit)
  }

  function MemoryBytes(j: Json): Option<nat> {
    if !j.Str? || |j.s| < 3 then None
    else
      var unit, digits := j.s[|j.s| - 2..], DigitsValue(j.s[..|j.s| - 2]);
      var factor := if unit == "Ki" then 1024 else if unit == "Mi" then 1048576 else if unit == "Gi" then 1073741824 else 0;
      if digits.None? || factor == 0 then None else Some(digits.value * factor)
  }

  predicate MemoryIncreases(current: Json, desired: Json) {
    var a, b := MemoryBytes(current), MemoryBytes(desired);
    a.Some? && b.Some? && a.value < b.value <= 4 * 1073741824
  }

  predicate IntBetween(low: int, current: Json, desired: Json, high: int) {
    current.Int? && desired.Int? && low <= current.i < desired.i <= high
  }

  predicate ActionAllows(action: string, field: ScalarField) {
    var path, current, desired := field.path, field.current, field.desired;
    if action == "image_rollback" || action == "image_tag_fix" then
      EndsWith(path, ".image") && NonBlankText(current) && NonBlankText(desired)
    else if action == "replica_scale" then
      path == "spec.replicas" && IntBetween(1, current, desired, 10)
    else if action == "oom_memory" then
      (EndsWith(path, ".resources.requests.memory") || EndsWith(path, ".resources.limits.memory")) &&
      MemoryIncreases(current, desired)
    else if action == "probe_fix" then
      if EndsWith(path, ".timeoutSeconds") then IntBetween(1, current, desired, 30)
      else if EndsWith(path, ".httpGet.port") then desired.Int? && 1 <= desired.i <= 65535
      else if EndsWith(path, ".httpGet.path") then desired.Str? && StartsWith(desired.s, "/")
      else false
    else if action == SELECTOR_FIX then
      (StartsWith(path, "spec.selector.matchLabels.") || StartsWith(path, "spec.template.metadata.labels.")) &&
      NonBlankText(current) && NonBlankText(desired)
    else false
  }

  predicate DistinctFields(fields: seq<ScalarField>) {
    forall i, j :: 0 <= i < j < |fields| ==> fields[i].path != fields[j].path
  }

  // One replacement, checked against the rollback entry stored for its path.
  predicate FieldValid(plan: Plan, field: ScalarField) {
    && Segments(field.path) != []
    && IsScalar(field.current) && IsScalar(field.desired)
    && !SameScalar(field.current, field.desired)
    && (exists back :: back in plan.rollback && back.path == field.path &&
          SameScalar(back.current, field.desired) && SameScalar(back.desired, field.current))
    && ActionAllows(plan.actionType, field)
  }

  predicate ValidPlan(plan: Plan) {
    && plan.actionType in ACTIONS
    && plan.sourceType == RAW_YAML
    && IsDigest(plan.sourceDigest) && IsCommit(plan.baseSha) && SafeManifestPath(plan.manifestPath)
    && 1 <= |plan.replacements| <= 4 && |plan.rollback| == |plan.replacements|
    && DistinctFields(plan.replacements) && DistinctFields(plan.rollback)
    && forall field :: field in plan.replacements ==> FieldValid(plan, field)
  }

  // ----- a valid plan is a pair of mutually inverse replacement lists -----

  lemma DistinctParsed(fields: seq<ScalarField>)
    requires DistinctFields(fields) && forall field :: field in fields ==> Segments(field.path) != []
    ensures DistinctPaths(ParsedAll(fields))
  {
    forall i, j | 0 <= i < j < |fields|
      ensures Segments(fields[i].path) != Segments(fields[j].path)
    {
      assert fields[i] in fields && fields[i].path != fields[j].path;
      if Segments(fields[i].path) == Segments(fields[j].path) {
        SegmentsInjective(fields[i].path, fields[j].path);
      }
    }
  }

  lemma ParsedMember(fields: seq<ScalarField>, rep: Replacement)
    ensures rep in ParsedAll(fields) <==> exists field :: field in fields && Parsed(field) == rep
  {
  }

  lemma ValidPlanScalar(plan: Plan)
    requires ValidPlan(plan)
    ensures ScalarReplacements(ParsedAll(plan.replacements))
  {
    DistinctParsed(plan.replacements);
    forall rep | rep in ParsedAll(plan.replacements)
      ensures ScalarReplacement(rep)
    {
      ParsedMember(plan.replacements, rep);
      var field :| field in plan.replacements && Parsed(field) == rep;
      assert FieldValid(plan, field);
    }
  }

  lemma {:induction false} FieldCount(fields: seq<ScalarField>)
    requires DistinctFields(fields)
    ensures |set field | field in fields :: field.path| == |fields|
  {
    if fields != [] {
      var n := |fields| - 1;
      FieldCount(fields[..n]);
      assert fields == fields[..n] + [fields[n]];
      assert (set field | field in fields :: field.path) == (set field | field in fields[..n] :: field.path) + {fields[n].path};
    }
  }

  // Rollback entries cover exactly the replaced paths.
  lemma RollbackPathsParse(plan: Plan, back: ScalarField)
    requires ValidPlan(plan) && back in plan.rollback
    ensures Segments(back.path) != []
  {
    var paths := set field | field in plan.replacements :: field.path;
    var backPaths := set b | b in plan.rollback :: b.path;
    FieldCount(plan.replacements);
    FieldCount(plan.rollback);
    forall p | p in paths
      ensures p in backPaths
    {
      var field :| field in plan.replacements && field.path == p;
      assert FieldValid(plan, field);
    }
    SubsetOfSameSize(paths, backPaths);
    assert back.path in backPaths;
    var field :| field in plan.replacements && field.path == back.path;
    assert FieldValid(plan, field);
  }

  lemma InverseListed(plan: Plan, field: ScalarField)
    requires FieldValid(plan, field)
    ensures Inverse(Parsed(field)) in ParsedAll(plan.rollback)
  {
    var back :| back in plan.rollback && back.path == field.path &&
      SameScalar(back.current, field.desired) && SameScalar(back.desired, field.current);
    ScalarsSame(back.current, field.desired);
    ScalarsSame(back.desired, field.current);
    ParsedMember(plan.rollback, Parsed(back));
  }

  lemma ValidPlanInverts(plan: Plan)
    requires ValidPlan(plan)
    ensures Inverts(ParsedAll(plan.replacements), ParsedAll(plan.rollback))
  {
    forall back | back in plan.rollback
      ensures Segments(back.path) != []
    {
      RollbackPathsParse(plan, back);
    }
    DistinctParsed(plan.rollback);
    forall rep | rep in ParsedAll(plan.replacements)
      ensures Inverse(rep) in ParsedAll(plan.rollback)
    {
      ParsedMember(plan.replacements, rep);
      var field :| field in plan.replacements && Parsed(field) == rep;
      InverseListed(plan, field);
    }
  }

  // ----- which actions can rename a selected item -----

  // A path that can rename its item ends in `]` or in `me`.
  lemma RenamingPathEnding(path: string)
    requires RenamesSelected(Segments(path))
    ensures |path| >= 2 && (path[|path| - 1] == ']' || (path[|path| - 2] == 'm' && path[|path| - 1] == 'e'))
  {
    var last := Segments(path)[|Segments(path)| - 1];
    PathEnding(path);
    var text := PrintPart(last);
    assert path[|path| - |text|..] == text;
    if last.selected.Some? {
      assert path[|path| - 1] == text[|text| - 1];
    } else {
      assert text == NAME;
      assert path[|path| - 1] == text[3] && path[|path| - 2] == text[2];
    }
  }

  lemma EndingChars(path: string, suffix: string)
    requires EndsWith(path, suffix) && |suffix| >= 2
    ensures path[|path| - 1] == suffix[|suffix| - 1] && path[|path| - 2] == suffix[|suffix| - 2]
  {
  }

  // Every action but `selector_fix` only reaches keys other than `name`.
  lemma AllowedPathNeverRenames(action: string, field: ScalarField)
    requires ActionAllows(action, field) && Segments(field.path) != [] && action != SELECTOR_FIX
    ensures !RenamesSelected(Segments(field.path))
  {
    var path := field.path;
    if RenamesSelected(Segments(path)) {
      RenamingPathEnding(path);
      if action == "image_rollback" || action == "image_tag_fix" {
        EndingChars(path, ".image");
      } else if action == "oom_memory" {
        EndingChars(path, if EndsWith(path, ".resources.requests.memory")
                          then ".resources.requests.memory" else ".resources.limits.memory");
      } else if action == "probe_fix" {
        EndingChars(path, if EndsWith(path, ".timeoutSeconds") then ".timeoutSeconds"
                          else if EndsWith(path, ".httpGet.port") then ".httpGet.port" else ".httpGet.path");
      }
    }
  }

  // The exact-inverse promise: whenever a valid plan of any action but `selector_fix`
  // applies, its rollback applies to the result and restores the manifest.
  lemma PlanRollbackExact(plan: Plan, original: Json)
    requires ValidPlan(plan) && plan.actionType != SELECTOR_FIX
    requires Apply(original, ParsedAll(plan.replacements)).Some?
    ensures Apply(Apply(original, ParsedAll(plan.replacements)).value, ParsedAll(plan.rollback)) == Some(original)
  {
    var reps := ParsedAll(plan.replacements);
    ValidPlanScalar(plan);
    ValidPlanInverts(plan);
    forall rep | rep in reps
      ensures !RenamesSelected(rep.segs)
    {
      ParsedMember(plan.replacements, rep);
      var field :| field in plan.replacements && Parsed(field) == rep;
      assert FieldValid(plan, field);
      AllowedPathNeverRenames(plan.actionType, field);
    }
    RollbackRestores(original, reps, ParsedAll(plan.rollback));
  }

  // For every action, the rollback restores the manifest exactly when no replacement
  // rewrites the `name` its own path selects by, and is refused otherwise.
  lemma PlanRollbackIff(plan: Plan, original: Json)
    requires ValidPlan(plan) && Apply(original, ParsedAll(plan.replacements)).Some?
    ensures var restored := Apply(Apply(original, ParsedAll(plan.replacements)).value, ParsedAll(plan.rollback));
            restored == if Renames(ParsedAll(plan.replacements)) then None else Some(original)
  {
    ValidPlanScalar(plan);
    ValidPlanInverts(plan);
    RollbackRestores(original, ParsedAll(plan.replacements), ParsedAll(plan.rollback));
  }

  // The only manifests a scalar patch applies to.
  predicate IsDeployment(j: Json) {
    j.Obj? && "kind" in j.fields && j.fields["kind"] == Str("Deployment")
  }

  // ----- a `selector_fix` plan that its own rollback cannot undo -----

  function RenamingSegments(): seq<Segment> {
    [Segment("spec", None), Segment("selector", None), Segment("matchLabels", None), Segment("x", Some("a")), Segment(NAME, None)]
  }

  function RenamingManifest(): Json {
    var item := Obj(map[NAME := Str("a")]);
    var labels := Obj(map["x" := List([item])]);
    Obj(map["kind" := Str("Deployment"), "spec" := Obj(map["selector" := Obj(map["matchLabels" := labels])])])
  }

  lemma LetterNotBlank(c: char)
    requires !IsSpace(c)
    ensures Strip([c]) == [c]
  {
  }

  lemma RenamingWellFormed()
    ensures WellFormed(RenamingSegments())
  {
    LetterNotBlank('a');
    assert "a" == ['a'];
    assert IsKey("spec") && IsKey("selector") && IsKey("matchLabels") && IsKey("x") && IsKey(NAME);
  }

  function RenamingPath(): string {
    Print(RenamingSegments())
  }

  lemma RenamingPathPrefix()
    ensures StartsWith(RenamingPath(), "spec.selector.matchLabels.")
  {
    var more := [Segment("x", Some("a")), Segment(NAME, None)];
    PrintThree("spec", "selector", "matchLabels", more);
    assert RenamingSegments() == [Segment("spec", None), Segment("selector", None), Segment("matchLabels", None)] + more;
    assert "spec" + "." + "selector" + "." + "matchLabels" + "." == "spec.selector.matchLabels.";
  }

  lemma PrintThree(a: string, b: string, c: string, more: seq<Segment>)
    requires more != []
    ensures StartsWith(Print([Segment(a, None), Segment(b, None), Segment(c, None)] + more), a + "." + b + "." + c + ".")
  {
    var segs := [Segment(a, None), Segment(b, None), Segment(c, None)] + more;
    assert a + "" == a && b + "" == b && c + "" == c;
    assert PrintParts(segs) == [a, b, c] + PrintParts(more);
    JoinThree(a, b, c, PrintParts(more));
  }

  lemma JoinThree(a: string, b: string, c: string, more: seq<string>)
    requires more != []
    ensures StartsWith(Join([a, b, c] + more), a + "." + b + "." + c + ".")
  {
    assert ([a, b, c] + more)[1..] == [b, c] + more && ([b, c] + more)[1..] == [c] + more && ([c] + more)[1..] == more;
    var whole, last := Join([a, b, c] + more), Join(more);
    assert Join([c] + more) == c + "." + last;
    assert Join([b, c] + more) == b + "." + (c + "." + last);
    assert whole == a + "." + (b + "." + (c + "." + last));
    assert whole == a + "." + b + "." + c + "." + last;
  }

  lemma RenamingRead()
    ensures Get(RenamingManifest(), RenamingSegments()) == Some(Str("a"))
  {
    var segs := RenamingSegments();
    var item := Obj(map[NAME := Str("a")]);
    var labels := Obj(map["x" := List([item])]);
    var selector := Obj(map["matchLabels" := labels]);
    var spec := Obj(map["selector" := selector]);
    var root := RenamingManifest();
    assert OnlyNamed([item], "a", 0);
    OnlyNamedUnique([item], "a", 0);
    forall current, i | 0 <= i < 5
      ensures Enter(current, segs[i]).Some? ==> At(current, Enter(current, segs[i]).value).Some?
    {
      if Enter(current, segs[i]).Some? {
        EnterExists(current, segs[i]);
      }
    }
    EnterExists(root, segs[0]);
    EnterExists(spec, segs[1]);
    EnterExists(selector, segs[2]);
    EnterExists(labels, segs[3]);
    EnterExists(item, segs[4]);
    GetUnfolds(root, segs);
    GetUnfolds(spec, segs[1..]);
    assert segs[1..][1..] == segs[2..] && segs[2..][1..] == segs[3..] && segs[3..][1..] == segs[4..] && segs[4..][1..] == [];
    GetUnfolds(selector, segs[2..]);
    GetUnfolds(labels, segs[3..]);
    GetUnfolds(item, segs[4..]);
  }

  function RenamingPlan(): Plan {
    var hex := seq(64, i => 'a');
    Plan(SELECTOR_FIX, RAW_YAML, "sha256:" + hex, hex, "deploy",
         [ScalarField(RenamingPath(), Str("a"), Str("b"))], [ScalarField(RenamingPath(), Str("b"), Str("a"))])
  }

  lemma RenamingFieldValid()
    ensures FieldValid(RenamingPlan(), RenamingPlan().replacements[0])
  {
    var plan := RenamingPlan();
    var field, back := plan.replacements[0], plan.rollback[0];
    RenamingPathPrefix();
    RenamingWellFormed();
    SegmentsOfPrint(RenamingSegments());
    LetterNotBlank('a');
    LetterNotBlank('b');
    assert NonBlankText(Str(['a'])) && NonBlankText(Str(['b']));
    assert back in plan.rollback && back.path == field.path;
  }

  lemma HexDigest(hex: string)
    requires |hex| == 64 && HexText(hex)
    ensures IsDigest("sha256:" + hex) && IsCommit(hex)
  {
  }

  lemma PlainPathSafe(s: string)
    requires s != "" && '.' !in s && '/' !in s && '\\' !in s
    ensures SafeManifestPath(s)
  {
    assert "/"[0] == '/';
  }

  lemma RenamingPlanValid()
    ensures ValidPlan(RenamingPlan())
  {
    var plan := RenamingPlan();
    HexDigest(plan.baseSha);
    PlainPathSafe(plan.manifestPath);
    RenamingFieldValid();
    assert plan.replacements == [plan.replacements[0]];
  }

  lemma RenamingPlanApplies()
    ensures ParsedAll(RenamingPlan().replacements) == [Replacement(RenamingSegments(), Str("a"), Str("b"))]
    ensures Apply(RenamingManifest(), ParsedAll(RenamingPlan().replacements)).Some?
  {
    RenamingWellFormed();
    SegmentsOfPrint(RenamingSegments());
    var rep := Replacement(RenamingSegments(), Str("a"), Str("b"));
    var reps := ParsedAll(RenamingPlan().replacements);
    assert reps == [rep] && reps[..0] == [];
    RenamingRead();
    SetIsPut(RenamingManifest(), RenamingSegments(), Str("b"));
    assert Apply(RenamingManifest(), []) == Some(RenamingManifest());
  }

  // The hypothesis of the exact inverse is not idle: this valid `selector_fix` plan
  // applies, and its stored rollback is then refused.
  lemma SelectorFixCanRename()
    ensures ValidPlan(RenamingPlan()) && RenamingPlan().actionType == SELECTOR_FIX && IsDeployment(RenamingManifest())
    ensures var patched := Apply(RenamingManifest(), ParsedAll(RenamingPlan().replacements));
            patched.Some? && Apply(patched.value, ParsedAll(RenamingPlan().rollback)) == None
  {
    RenamingPlanValid();
    RenamingPlanApplies();
    var rep := Replacement(RenamingSegments(), Str("a"), Str("b"));
    assert rep in ParsedAll(RenamingPlan().replacements) && RenamesSelected(rep.segs);
    PlanRollbackIff(RenamingPlan(), RenamingManifest());
  }
}