/**
 * The three-way managed-field diff: when a live value satisfies a declared one, how
 * one field is classified, and the comparison of whole field maps.
 */
module Diffing {
  import opened Json
  import Text

  type Fields = map<string, Json>

  // The marker for an absent field is an ordinary string value.
  const MISSING: Json := Str("<missing>")

  datatype Classification =
    | NoChange
    | AlreadyConverged
    | AdoptionRequired
    | IntendedChange
    | Drift
    | ConflictOrManualChange

  datatype Change = Change(path: string, class_: Classification, oldDesired: Json, live: Json, newDesired: Json)

  // _declared_value_matches_live: the live value may carry extra keys in objects,
  // but list membership is exact.
  predicate Matches(declared: Json, live: Json) {
    match declared
    case Obj(m) => live.Obj? && forall k :: k in m ==> k in live.fields && Matches(m[k], live.fields[k])
    case List(xs) => live.List? && |xs| == |live.items| && forall i :: 0 <= i < |xs| ==> Matches(xs[i], live.items[i])
    case _ => PyEq(declared, live)
  }

  // classify_field_change
  function Classify(oldDesired: Json, live: Json, newDesired: Json): Classification {
    if oldDesired == MISSING then
      if Matches(newDesired, live) then AlreadyConverged else AdoptionRequired
    else
      var oldMatches, newMatches, sameDesired := Matches(oldDesired, live), Matches(newDesired, live), PyEq(oldDesired, newDesired);
      if oldMatches && newMatches && sameDesired then NoChange
      else if newMatches then AlreadyConverged
      else if oldMatches then IntendedChange
      else if sameDesired then Drift
      else ConflictOrManualChange
  }

  // ----- satisfaction is a partial order up to equality -----

  lemma {:induction false} EqualMatches(a: Json, b: Json)
    requires PyEq(a, b)
    ensures Matches(a, b)
  {
    match a
    case Obj(m) =>
      forall k | k in m
        ensures Matches(m[k], b.fields[k])
      {
        EqualMatches(m[k], b.fields[k]);
      }
    case List(xs) =>
      forall i | 0 <= i < |xs|
        ensures Matches(xs[i], b.items[i])
      {
        EqualMatches(xs[i], b.items[i]);
      }
    case _ =>
  }

  lemma {:induction false} MatchesTransitive(a: Json, b: Json, c: Json)
    requires Matches(a, b) && Matches(b, c)
    ensures Matches(a, c)
  {
    match a
    case Obj(m) =>
      forall k | k in m
        ensures k in c.fields && Matches(m[k], c.fields[k])
      {
        MatchesTransitive(m[k], b.fields[k], c.fields[k]);
      }
    case List(xs) =>
      forall i | 0 <= i < |xs|
        ensures Matches(xs[i], c.items[i])
      {
        MatchesTransitive(xs[i], b.items[i], c.items[i]);
      }
    case _ =>
      PyEqEquivalence(a, b, c);
  }

  lemma {:induction false} MatchesAntisymmetric(a: Json, b: Json)
    requires Matches(a, b) && Matches(b, a)
    ensures PyEq(a, b)
  {
    match a
    case Obj(m) =>
      forall k | k in m
        ensures PyEq(m[k], b.fields[k])
      {
        MatchesAntisymmetric(m[k], b.fields[k]);
      }
      assert m.Keys == b.fields.Keys;
    case List(xs) =>
      forall i | 0 <= i < |xs|
        ensures PyEq(xs[i], b.items[i])
      {
        MatchesAntisymmetric(xs[i], b.items[i]);
      }
    case _ =>
  }

  // Reflexive, transitive, and antisymmetric with exactly `==` as its kernel.
  lemma MatchesIsPartialOrder(a: Json, b: Json, c: Json)
    ensures Matches(a, a)
    ensures Matches(a, b) && Matches(b, c) ==> Matches(a, c)
    ensures Matches(a, b) && Matches(b, a) <==> PyEq(a, b)
  {
    PyEqEquivalence(a, b, c);
    EqualMatches(a, a);
    if Matches(a, b) && Matches(b, c) {
      MatchesTransitive(a, b, c);
    }
    if PyEq(a, b) {
      EqualMatches(a, b);
      EqualMatches(b, a);
    } else if Matches(a, b) && Matches(b, a) {
      MatchesAntisymmetric(a, b);
    }
  }

  // ----- comparing field maps -----

  datatype Policy = Policy(managed: Option<set<string>>, ignored: set<string>)

  predicate Governs(policy: Policy, path: string) {
    (policy.managed.None? || path in policy.managed.value) && path !in policy.ignored
  }

  // apply_field_policy
  function Governed(fields: Fields, policy: Policy): Fields {
    map path | path in fields && Governs(policy, path) :: fields[path]
  }

  function ValueOrMissing(fields: Fields, path: string): Json {
    if path in fields then fields[path] else MISSING
  }

  function FieldsOf(oldDesired: Option<Fields>): Fields {
    if oldDesired.Some? then oldDesired.value else map[]
  }

  function ChangeAt(oldDesired: Option<Fields>, live: Fields, newDesired: Fields, policy: Policy, path: string): Change {
    var o := ValueOrMissing(Governed(FieldsOf(oldDesired), policy), path);
    var l := ValueOrMissing(Governed(live, policy), path);
    var n := ValueOrMissing(Governed(newDesired, policy), path);
    Change(path, Classify(o, l, n), o, l, n)
  }

  function GovernedPaths(oldDesired: Option<Fields>, live: Fields, newDesired: Fields, policy: Policy): set<string> {
    Governed(FieldsOf(oldDesired), policy).Keys + Governed(live, policy).Keys + Governed(newDesired, policy).Keys
  }

  // The changes are exactly the governed paths whose classification is not `no_change`.
  ghost predicate ChangesOf(oldDesired: Option<Fields>, live: Fields, newDesired: Fields, policy: Policy, changes: seq<Change>) {
    forall change :: change in changes <==>
      && change.path in GovernedPaths(oldDesired, live, newDesired, policy)
      && change == ChangeAt(oldDesired, live, newDesired, policy, change.path)
      && !change.class_.NoChange?
  }

  predicate InOrder(changes: seq<Change>) {
    forall i, j :: 0 <= i < j < |changes| ==> Text.Less(changes[i].path, changes[j].path)
  }

  function Collect(oldDesired: Option<Fields>, live: Fields, newDesired: Fields, policy: Policy, paths: seq<string>): seq<Change> {
    if paths == [] then []
    else
      var front, change := Collect(oldDesired, live, newDesired, policy, paths[..|paths| - 1]),
                           ChangeAt(oldDesired, live, newDesired, policy, paths[|paths| - 1]);
      if change.class_.NoChange? then front else front + [change]
  }

  lemma {:induction false} Collected(oldDesired: Option<Fields>, live: Fields, newDesired: Fields, policy: Policy, paths: seq<string>)
    ensures forall change :: change in Collect(oldDesired, live, newDesired, policy, paths) <==>
              && change.path in paths
              && change == ChangeAt(oldDesired, live, newDesired, policy, change.path)
              && !change.class_.NoChange?
    decreases |paths|
  {
    if paths != [] {
      var front, last := paths[..|paths| - 1], paths[|paths| - 1];
      Collected(oldDesired, live, newDesired, policy, front);
      assert forall path :: path in paths <==> path in front || path == last by {
        assert paths == front + [last];
      }
    }
  }

  lemma {:induction false} CollectedInOrder(oldDesired: Option<Fields>, live: Fields, newDesired: Fields, policy: Policy,
                                            paths: seq<string>)
    requires Text.Ascending(paths)
    ensures InOrder(Collect(oldDesired, live, newDesired, policy, paths))
    decreases |paths|
  {
    if paths != [] {
      var front, last := paths[..|paths| - 1], paths[|paths| - 1];
      var changes := Collect(oldDesired, live, newDesired, policy, front);
      CollectedInOrder(oldDesired, live, newDesired, policy, front);
      Collected(oldDesired, live, newDesired, policy, front);
      forall i | 0 <= i < |changes|
        ensures Text.Less(changes[i].path, last)
      {
        assert changes[i] in changes;
        var k :| 0 <= k < |front| && front[k] == changes[i].path;
        assert paths[k] == front[k];
      }
      assert InOrder(changes);
    }
  }

  lemma CollectNext(oldDesired: Option<Fields>, live: Fields, newDesired: Fields, policy: Policy, paths: seq<string>, n: nat)
    requires n < |paths|
    ensures var change := ChangeAt(oldDesired, live, newDesired, policy, paths[n]);
            Collect(oldDesired, live, newDesired, policy, paths[..n + 1]) ==
              Collect(oldDesired, live, newDesired, policy, paths[..n]) + if change.class_.NoChange? then [] else [change]
  {
    assert paths[..n + 1][..n] == paths[..n];
    var front := Collect(oldDesired, live, newDesired, policy, paths[..n]);
    assert front + [] == front;
  }

  method CompareManagedFields(oldDesired: Option<Fields>, live: Fields, newDesired: Fields, policy: Policy)
    returns (changes: seq<Change>)
    ensures ChangesOf(oldDesired, live, newDesired, policy, changes)
    ensures InOrder(changes)
  {
    var governedOld := Governed(FieldsOf(oldDesired), policy);
    var governedLive, governedNew := Governed(live, policy), Governed(newDesired, policy);
    var fields := Text.Sorted(governedOld.Keys + governedLive.Keys + governedNew.Keys);
    changes := [];
    for n := 0 to |fields|
      invariant changes == Collect(oldDesired, live, newDesired, policy, fields[..n])
    {
      var path := fields[n];
      var oldValue, liveValue, newValue :=
        ValueOrMissing(governedOld, path), ValueOrMissing(governedLive, path), ValueOrMissing(governedNew, path);
      var class_ := Classify(oldValue, liveValue, newValue);
      CollectNext(oldDesired, live, newDesired, policy, fields, n);
      if class_.NoChange? {
        continue;
      }
      changes := changes + [Change(path, class_, oldValue, liveValue, newValue)];
    }
    assert fields[..|fields|] == fields;
    Collected(oldDesired, live, newDesired, policy, fields);
    CollectedInOrder(oldDesired, live, newDesired, policy, fields);
  }

  // Old, live and new desired state agree on a field that really is declared.
  predicate Settled(oldDesired: Fields, live: Fields, newDesired: Fields, path: string) {
    && path in oldDesired && path in live && path in newDesired
    && oldDesired[path] != MISSING
    && PyEq(oldDesired[path], newDesired[path])
    && Matches(newDesired[path], live[path])
  }

  lemma NoChangeIff(oldDesired: Fields, live: Fields, newDesired: Fields, path: string)
    requires path in oldDesired.Keys + live.Keys + newDesired.Keys
    ensures Classify(ValueOrMissing(oldDesired, path), ValueOrMissing(live, path), ValueOrMissing(newDesired, path)).NoChange?
        <==> Settled(oldDesired, live, newDesired, path)
  {
    var o, l, n := ValueOrMissing(oldDesired, path), ValueOrMissing(live, path), ValueOrMissing(newDesired, path);
    if o != MISSING && PyEq(o, n) && Matches(n, l) {
      EqualMatches(o, n);
      MatchesTransitive(o, n, l);
      PyEqEquivalence(o, n, MISSING);
    }
  }

  // No change is reported exactly when the governed maps have the same paths, old equals
  // new and new is satisfied by live, and no declared value is the absence marker itself.
  lemma NoChangesIff(oldDesired: Option<Fields>, live: Fields, newDesired: Fields, policy: Policy, changes: seq<Change>)
    requires ChangesOf(oldDesired, live, newDesired, policy, changes)
    ensures changes == [] <==>
              var o, l, n := Governed(FieldsOf(oldDesired), policy), Governed(live, policy), Governed(newDesired, policy);
              o.Keys == l.Keys == n.Keys && forall path :: path in o ==> Settled(o, l, n, path)
  {
    var o, l, n := Governed(FieldsOf(oldDesired), policy), Governed(live, policy), Governed(newDesired, policy);
    forall path | path in GovernedPaths(oldDesired, live, newDesired, policy)
      ensures ChangeAt(oldDesired, live, newDesired, policy, path) !in changes <==> Settled(o, l, n, path)
    {
      NoChangeIff(o, l, n, path);
    }
    if changes == [] {
      assert forall path :: path in o.Keys + l.Keys + n.Keys ==> Settled(o, l, n, path);
    } else {
      var change := changes[0];
      assert change in changes;
      assert ChangeAt(oldDesired, live, newDesired, policy, change.path) in changes;
    }
  }

  // Server defaulting of live on the same paths keeps a diff empty.
  lemma DefaultingKeepsNoChanges(oldDesired: Option<Fields>, live: Fields, defaulted: Fields, newDesired: Fields, policy: Policy,
                                 changes: seq<Change>, later: seq<Change>)
    requires ChangesOf(oldDesired, live, newDesired, policy, changes) && changes == []
    requires ChangesOf(oldDesired, defaulted, newDesired, policy, later)
    requires defaulted.Keys == live.Keys && forall path :: path in live ==> Matches(live[path], defaulted[path])
    ensures later == []
  {
    var o, l, n := Governed(FieldsOf(oldDesired), policy), Governed(live, policy), Governed(newDesired, policy);
    var d := Governed(defaulted, policy);
    NoChangesIff(oldDesired, live, newDesired, policy, changes);
    NoChangesIff(oldDesired, defaulted, newDesired, policy, later);
    assert d.Keys == l.Keys;
    forall path | path in o
      ensures Settled(o, d, n, path)
    {
      assert Settled(o, l, n, path);
      MatchesTransitive(n[path], l[path], d[path]);
    }
  }

  // ----- classification over successive states -----

  // Once live satisfies the new desired value, however the server defaulted it, the field needs
  // nothing more; and with that value recorded as the old one it reports no change at all.
  lemma ApplyingConverges(oldDesired: Json, applied: Json, newDesired: Json)
    requires Matches(newDesired, applied)
    ensures Classify(oldDesired, applied, newDesired) in {NoChange, AlreadyConverged}
    ensures newDesired != MISSING ==> Classify(newDesired, applied, newDesired) == NoChange
  {
    MatchesIsPartialOrder(newDesired, newDesired, newDesired);
  }

  // Server defaulting of live never turns a settled or an intended field into anything worse.
  lemma DefaultingKeepsClass(oldDesired: Json, live: Json, defaulted: Json, newDesired: Json)
    requires Matches(live, defaulted)
    ensures Classify(oldDesired, live, newDesired).NoChange? ==> Classify(oldDesired, defaulted, newDesired).NoChange?
    ensures Classify(oldDesired, live, newDesired).AlreadyConverged? ==>
              Classify(oldDesired, defaulted, newDesired) in {NoChange, AlreadyConverged}
    ensures Classify(oldDesired, live, newDesired).IntendedChange? ==>
              Classify(oldDesired, defaulted, newDesired) in {NoChange, IntendedChange, AlreadyConverged}
  {
    if Matches(oldDesired, live) {
      MatchesTransitive(oldDesired, live, defaulted);
    }
    if Matches(newDesired, live) {
      MatchesTransitive(newDesired, live, defaulted);
    }
  }

  // An unchanged declaration is drift exactly when live does not satisfy it, and never an
  // intended change or a conflict.
  lemma UnchangedDeclaration(declared: Json, live: Json)
    requires declared != MISSING
    ensures Classify(declared, live, declared) == if Matches(declared, live) then NoChange else Drift
  {
    MatchesIsPartialOrder(declared, declared, declared);
  }
}
