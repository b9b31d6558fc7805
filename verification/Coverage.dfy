/**
 * Collection coverage: when absence from a snapshot proves that a resource was deleted.
 */
module Coverage {
  import opened Json
  import opened Text

  datatype Collection =
    | Pods
    | Nodes
    | Workloads
    | WorkloadRevisions
    | Services
    | Ingresses
    | ResourceQuotas
    | Endpoints
    | Events
    | CustomResources
    | OtherCollection(text: string)

  datatype ResourceType =
    | Pod
    | Node
    | Workload
    | WorkloadRevision
    | Service
    | Ingress
    | ResourceQuota
    | Endpoint
    | Event
    | CustomResource
    | OtherType(text: string)

  const NAMESPACED: seq<Collection> :=
    [Pods, Workloads, WorkloadRevisions, Services, Ingresses, ResourceQuotas, Endpoints, Events]

  const CLUSTER: seq<Collection> := [Nodes]

  predicate DeleteSafe(c: Collection) {
    !c.Events? && !c.CustomResources? && !c.OtherCollection?
  }

  // The one resource type of each known collection.
  function TypeOf(c: Collection): Option<ResourceType> {
    match c
    case Pods => Some(Pod)
    case Nodes => Some(Node)
    case Workloads => Some(Workload)
    case WorkloadRevisions => Some(WorkloadRevision)
    case Services => Some(Service)
    case Ingresses => Some(Ingress)
    case ResourceQuotas => Some(ResourceQuota)
    case Endpoints => Some(Endpoint)
    case Events => Some(Event)
    case CustomResources => Some(CustomResource)
    case OtherCollection(_) => None
  }

  // ----- the evidence payload -----

  // A collection scope as stated: a namespace and a label selector, possibly blank.
  datatype Scope = Scope(namespace: string, labelSelector: string)

  // Which collections are lists, which are reported unobserved or truncated, and the reason
  // codes reported for each.
  datatype Payload = Payload(
    scopes: seq<Scope>,
    listed: set<Collection>,
    unobserved: set<Collection>,
    truncated: set<Collection>,
    reported: map<Collection, seq<string>>)

  predicate Observed(p: Payload, c: Collection) {
    c !in p.unobserved && c in p.listed
  }

  // A reason code: a reported text, or one of the codes the projection adds.
  datatype Reason = Reported(text: string) | NotObserved | NoNamespace | LabelSelected | Truncated | NotAuthoritative

  function ReasonText(r: Reason): string {
    match r
    case Reported(text) => text
    case NotObserved => "collection_not_observed"
    case NoNamespace => "namespace_scope_unavailable"
    case LabelSelected => "label_selector_scope"
    case Truncated => "collection_truncated"
    case NotAuthoritative => "collection_not_delete_authoritative"
  }

  // _reason_codes keeps the stripped non-blank codes.
  function Codes(raw: seq<string>): set<Reason> {
    set r | r in raw && Strip(r) != "" :: Reported(Strip(r))
  }

  function ReportedCodes(p: Payload, c: Collection): set<Reason> {
    if c in p.reported then Codes(p.reported[c]) else {}
  }

  // ----- coverage entries -----

  datatype Level = AtNamespace | AtCluster | OtherLevel(text: string)

  // A flag of a stored entry: the tests are for the exact Boolean values.
  datatype Flag = Yes | No | OtherFlag

  datatype Entry = Entry(
    collection: Collection,
    level: Level,
    namespace: string,
    labelSelector: string,
    observed: Flag,
    complete: Flag,
    deleteSafe: Flag,
    truncated: Flag,
    codes: seq<string>)

  function FlagOf(b: bool): Flag {
    if b then Yes else No
  }

  // What an entry is about: its collection, and the level, namespace and selector of its scope.
  datatype Subject = Subject(collection: Collection, level: Level, namespace: string, labelSelector: string)

  // Which codes keep a subject from being delete-authoritative.
  ghost predicate Applies(p: Payload, s: Subject, r: Reason) {
    match r
    case Reported(_) => r in ReportedCodes(p, s.collection)
    case NotObserved => !Observed(p, s.collection)
    case NoNamespace => s.level.AtNamespace? && s.namespace == ""
    case LabelSelected => s.labelSelector != ""
    case Truncated => s.collection in p.truncated
    case NotAuthoritative => !DeleteSafe(s.collection)
  }

  // The whole collection within the subject's scope was seen.
  ghost predicate Complete(p: Payload, s: Subject) {
    && Observed(p, s.collection) && s.collection !in p.truncated && ReportedCodes(p, s.collection) == {}
    && s.labelSelector == "" && (s.level.AtNamespace? ==> s.namespace != "")
  }

  ghost predicate IsEntry(p: Payload, s: Subject, e: Entry) {
    && e.collection == s.collection && e.level == s.level && e.namespace == s.namespace && e.labelSelector == s.labelSelector
    && e.observed == FlagOf(Observed(p, s.collection)) && e.truncated == FlagOf(s.collection in p.truncated)
    && e.complete == FlagOf(Complete(p, s)) && e.deleteSafe == FlagOf(Complete(p, s) && DeleteSafe(s.collection))
    && Ascending(e.codes) && forall code :: code in e.codes <==> Coded(p, s, code)
  }

  // Some applying reason has that code.
  ghost predicate Coded(p: Payload, s: Subject, code: string) {
    exists r :: Applies(p, s, r) && ReasonText(r) == code
  }

  // The coverage reasons, and with the delete reason.
  method Reasons(p: Payload, s: Subject) returns (reasons: set<Reason>, deletes: set<Reason>)
    ensures forall r :: r in deletes <==> Applies(p, s, r)
    ensures reasons == {} <==> Complete(p, s)
    ensures deletes == {} <==> Complete(p, s) && DeleteSafe(s.collection)
  {
    reasons := ReportedCodes(p, s.collection);
    if !Observed(p, s.collection) {
      reasons := reasons + {NotObserved};
    }
    if s.level.AtNamespace? && s.namespace == "" {
      reasons := reasons + {NoNamespace};
    }
    if s.labelSelector != "" {
      reasons := reasons + {LabelSelected};
    }
    if s.collection in p.truncated {
      reasons := reasons + {Truncated};
    }
    deletes := reasons;
    if !DeleteSafe(s.collection) {
      deletes := deletes + {NotAuthoritative};
    }
  }

  // _coverage_entry
  method CoverageEntry(p: Payload, s: Subject) returns (e: Entry)
    ensures IsEntry(p, s, e)
  {
    var reasons, deletes := Reasons(p, s);
    var texts := set r | r in deletes :: ReasonText(r);
    assert forall code :: code in texts <==> Coded(p, s, code);
    var codes := Sorted(texts);
    e := Entry(s.collection, s.level, s.namespace, s.labelSelector, FlagOf(Observed(p, s.collection)),
               FlagOf(reasons == {}), FlagOf(deletes == {}), FlagOf(s.collection in p.truncated), codes);
  }

  // ----- projecting coverage -----

  function ScopeSubject(s: Scope, c: Collection): Subject {
    Subject(c, AtNamespace, Strip(s.namespace), Strip(s.labelSelector))
  }

  function ClusterSubject(c: Collection): Subject {
    Subject(c, AtCluster, "", "")
  }

  // The subjects in the order of the two nested loops and the final loop.
  function ScopeSubjects(s: Scope, cs: seq<Collection>): seq<Subject> {
    if cs == [] then [] else ScopeSubjects(s, cs[..|cs| - 1]) + [ScopeSubject(s, cs[|cs| - 1])]
  }

  function AllScopeSubjects(scopes: seq<Scope>): seq<Subject> {
    if scopes == [] then [] else AllScopeSubjects(scopes[..|scopes| - 1]) + ScopeSubjects(scopes[|scopes| - 1], NAMESPACED)
  }

  function Subjects(p: Payload): seq<Subject> {
    if p.scopes == [] then [] else AllScopeSubjects(p.scopes) + [ClusterSubject(Nodes)]
  }

  // The i-th entry is the entry of the i-th subject.
  ghost predicate AreEntries(p: Payload, subjects: seq<Subject>, entries: seq<Entry>) {
    |entries| == |subjects| && forall i :: 0 <= i < |entries| ==> IsEntry(p, subjects[i], entries[i])
  }

  lemma EntriesConcat(p: Payload, s: seq<Subject>, e: seq<Entry>, s': seq<Subject>, e': seq<Entry>)
    requires AreEntries(p, s, e) && AreEntries(p, s', e')
    ensures AreEntries(p, s + s', e + e')
  {
  }

  // The inner loop: the entries of one scope.
  method ScopeCoverage(p: Payload, s: Scope) returns (entries: seq<Entry>)
    ensures AreEntries(p, ScopeSubjects(s, NAMESPACED), entries)
  {
    entries := [];
    for k := 0 to |NAMESPACED|
      invariant AreEntries(p, ScopeSubjects(s, NAMESPACED[..k]), entries)
    {
      assert NAMESPACED[..k + 1][..k] == NAMESPACED[..k];
      var e := CoverageEntry(p, ScopeSubject(s, NAMESPACED[k]));
      EntriesConcat(p, ScopeSubjects(s, NAMESPACED[..k]), entries, [ScopeSubject(s, NAMESPACED[k])], [e]);
      entries := entries + [e];
    }
    assert NAMESPACED[..|NAMESPACED|] == NAMESPACED;
  }

  // kubernetes_collection_coverage
  method CollectionCoverage(p: Payload) returns (entries: seq<Entry>)
    ensures AreEntries(p, Subjects(p), entries)
  {
    entries := [];
    if p.scopes == [] {
      return;
    }
    for i := 0 to |p.scopes|
      invariant AreEntries(p, AllScopeSubjects(p.scopes[..i]), entries)
    {
      assert p.scopes[..i + 1][..i] == p.scopes[..i];
      var more := ScopeCoverage(p, p.scopes[i]);
      EntriesConcat(p, AllScopeSubjects(p.scopes[..i]), entries, ScopeSubjects(p.scopes[i], NAMESPACED), more);
      entries := entries + more;
    }
    assert p.scopes[..|p.scopes|] == p.scopes;
    var e := CoverageEntry(p, ClusterSubject(Nodes));
    EntriesConcat(p, AllScopeSubjects(p.scopes), entries, [ClusterSubject(Nodes)], [e]);
    entries := entries + [e];
  }

  // ----- deletion scopes -----

  datatype DeleteScope = DeleteScope(kind: ResourceType, namespace: Option<string>)

  // A stored coverage entry: anything that is not a mapping is skipped.
  datatype RawEntry = NotMapping | Mapping(entry: Entry)

  predicate Blank(code: string) {
    Strip(code) == ""
  }

  // _delete_authoritative_entry
  predicate Authoritative(e: Entry) {
    && e.complete.Yes? && e.deleteSafe.Yes? && e.observed.Yes? && !e.truncated.Yes?
    && Strip(e.labelSelector) == "" && forall r :: r in e.codes ==> Blank(r)
  }

  // The scope an entry gives authority over, if any.
  function ScopeOf(e: Entry): Option<DeleteScope> {
    if !DeleteSafe(e.collection) || TypeOf(e.collection).None? || !Authoritative(e) then None
    else if e.collection in NAMESPACED && e.level.AtNamespace? && Strip(e.namespace) != "" then
      Some(DeleteScope(TypeOf(e.collection).value, Some(Strip(e.namespace))))
    else if e.collection in CLUSTER && e.level.AtCluster? then Some(DeleteScope(TypeOf(e.collection).value, None))
    else None
  }

  ghost predicate Gives(raw: seq<RawEntry>, d: DeleteScope) {
    exists e :: Mapping(e) in raw && ScopeOf(e) == Some(d)
  }

  lemma GivesSnoc(front: seq<RawEntry>, last: RawEntry, d: DeleteScope)
    ensures Gives(front + [last], d) <==> Gives(front, d) || (last.Mapping? && ScopeOf(last.entry) == Some(d))
  {
  }

  // ----- the order of the returned scopes -----

  function TypeText(kind: ResourceType): string {
    match kind
    case Pod => "pod"
    case Node => "node"
    case Workload => "workload"
    case WorkloadRevision => "workload_revision"
    case Service => "service"
    case Ingress => "ingress"
    case ResourceQuota => "resourcequota"
    case Endpoint => "endpoint"
    case Event => "event"
    case CustomResource => "custom_resource"
    case OtherType(text) => text
  }

  // By type, then by namespace, a missing one as the empty text.
  predicate AtMost(a: DeleteScope, b: DeleteScope) {
    var s, t := TypeText(a.kind), TypeText(b.kind);
    Less(s, t) || (s == t && !Less(NamespaceText(b), NamespaceText(a)))
  }

  function NamespaceText(d: DeleteScope): string {
    if d.namespace.Some? then d.namespace.value else ""
  }

  lemma AtMostTotal(a: DeleteScope, b: DeleteScope)
    ensures AtMost(a, b) || AtMost(b, a)
  {
    LessTotal(TypeText(a.kind), TypeText(b.kind));
    LessTotal(NamespaceText(a), NamespaceText(b));
  }

  lemma AtMostTransitive(a: DeleteScope, b: DeleteScope, c: DeleteScope)
    requires AtMost(a, b) && AtMost(b, c)
    ensures AtMost(a, c)
  {
    LessChain(TypeText(a.kind), TypeText(b.kind), TypeText(c.kind));
    LessChain(NamespaceText(c), NamespaceText(b), NamespaceText(a));
    LessTotal(NamespaceText(a), NamespaceText(b));
    LessTotal(NamespaceText(b), NamespaceText(c));
    LessTotal(NamespaceText(a), NamespaceText(c));
    LessChain(NamespaceText(a), NamespaceText(b), NamespaceText(c));
  }

  lemma LessChain(a: string, b: string, c: string)
    ensures Less(a, b) && Less(b, c) ==> Less(a, c)
  {
    if Less(a, b) && Less(b, c) {
      LessTransitive(a, b, c);
    }
  }

  ghost predicate InOrder(xs: seq<DeleteScope>) {
    forall i, j :: 0 <= i < j < |xs| ==> AtMost(xs[i], xs[j])
  }

  method InsertScope(xs: seq<DeleteScope>, x: DeleteScope) returns (ys: seq<DeleteScope>)
    requires InOrder(xs)
    ensures InOrder(ys) && multiset(ys) == multiset(xs) + multiset{x}
  {
    var k := |xs|;
    while k > 0 && !AtMost(xs[k - 1], x)
      invariant 0 <= k <= |xs| && forall j :: k <= j < |xs| ==> AtMost(x, xs[j])
    {
      AtMostTotal(xs[k - 1], x);
      k := k - 1;
    }
    forall i | 0 <= i < k
      ensures AtMost(xs[i], x)
    {
      if i < k - 1 {
        AtMostTransitive(xs[i], xs[k - 1], x);
      }
    }
    ys := xs[..k] + [x] + xs[k..];
    assert xs == xs[..k] + xs[k..];
    InsertedInOrder(xs, x, k);
  }

  lemma InsertedInOrder(xs: seq<DeleteScope>, x: DeleteScope, k: nat)
    requires InOrder(xs) && k <= |xs|
    requires (forall i :: 0 <= i < k ==> AtMost(xs[i], x)) && (forall i :: k <= i < |xs| ==> AtMost(x, xs[i]))
    ensures InOrder(xs[..k] + [x] + xs[k..])
  {
    var ys := xs[..k] + [x] + xs[k..];
    assert ys[k] == x && (forall i :: 0 <= i < k ==> ys[i] == xs[i]) && (forall i :: k < i < |ys| ==> ys[i] == xs[i - 1]);
  }

  // The scopes of a set in order, each once.
  method SortedScopes(all: set<DeleteScope>) returns (xs: seq<DeleteScope>)
    ensures InOrder(xs) && multiset(xs) == multiset(all)
  {
    xs := [];
    var rest := all;
    while rest != {}
      invariant rest <= all && InOrder(xs) && multiset(xs) == multiset(all - rest)
      decreases rest
    {
      var x :| x in rest;
      xs := InsertScope(xs, x);
      assert all - (rest - {x}) == (all - rest) + {x};
      rest := rest - {x};
    }
    assert all - rest == all;
  }

  // inventory_deletion_scopes
  method InventoryDeletionScopes(live: bool, raw: seq<RawEntry>) returns (sorted: seq<DeleteScope>)
    ensures forall d :: d in sorted <==> live && Gives(raw, d)
    ensures InOrder(sorted) && forall i, j :: 0 <= i < j < |sorted| ==> sorted[i] != sorted[j]
  {
    sorted := [];
    if !live {
      return;
    }
    var scopes := CollectScopes(raw);
    sorted := SortedScopes(scopes);
    OnceEach(sorted, scopes);
  }

  lemma OnceEach(xs: seq<DeleteScope>, all: set<DeleteScope>)
    requires multiset(xs) == multiset(all)
    ensures forall d :: d in xs <==> d in all
    ensures forall i, j :: 0 <= i < j < |xs| ==> xs[i] != xs[j]
  {
    forall d
      ensures d in xs <==> d in all
    {
      assert d in xs <==> d in multiset(xs);
    }
    forall i, j | 0 <= i < j < |xs|
      ensures xs[i] != xs[j]
    {
      assert xs == xs[..j] + [xs[j]] + xs[j + 1..];
      assert multiset(xs)[xs[j]] == 1;
      assert xs[j] !in multiset(xs[..j]);
      assert xs[..j][i] == xs[i];
    }
  }

  // The loop over the stored entries.
  method CollectScopes(raw: seq<RawEntry>) returns (scopes: set<DeleteScope>)
    ensures forall d :: d in scopes <==> Gives(raw, d)
  {
    scopes := {};
    for i := 0 to |raw|
      invariant forall d :: d in scopes <==> Gives(raw[..i], d)
    {
      assert raw[..i + 1] == raw[..i] + [raw[i]];
      forall d ensures Gives(raw[..i + 1], d) <==> Gives(raw[..i], d) || (raw[i].Mapping? && ScopeOf(raw[i].entry) == Some(d)) {
        GivesSnoc(raw[..i], raw[i], d);
      }
      if raw[i].Mapping? {
        var scope := ScopeOf(raw[i].entry);
        if scope.Some? {
          scopes := scopes + {scope.value};
        }
      }
    }
    assert raw[..|raw|] == raw;
  }

  // ----- the authority is exact -----

  // The collection of that type was observed whole, by a scope that names the namespace without
  // a label selector; for nodes, by any scope at all.
  ghost predicate Proves(p: Payload, c: Collection, d: DeleteScope) {
    && TypeOf(c) == Some(d.kind) && DeleteSafe(c)
    && Observed(p, c) && c !in p.truncated && ReportedCodes(p, c) == {}
    && match d.namespace
       case Some(ns) => c in NAMESPACED && ns != "" && exists s :: s in p.scopes && Strip(s.namespace) == ns && Strip(s.labelSelector) == ""
       case None => c == Nodes && p.scopes != []
  }

  ghost predicate InScope(s: Scope, cs: seq<Collection>, x: Subject) {
    exists c :: c in cs && x == ScopeSubject(s, c)
  }

  lemma {:induction false} InScopeSubjects(s: Scope, cs: seq<Collection>, x: Subject)
    ensures x in ScopeSubjects(s, cs) <==> InScope(s, cs, x)
    decreases |cs|
  {
    if cs != [] {
      InScopeSubjects(s, cs[..|cs| - 1], x);
      assert cs == cs[..|cs| - 1] + [cs[|cs| - 1]];
    }
  }

  ghost predicate InSome(scopes: seq<Scope>, x: Subject) {
    exists s :: s in scopes && InScope(s, NAMESPACED, x)
  }

  lemma InSomeSnoc(front: seq<Scope>, last: Scope, x: Subject)
    ensures InSome(front + [last], x) <==> InSome(front, x) || InScope(last, NAMESPACED, x)
  {
    assert forall s :: s in front + [last] <==> s in front || s == last;
  }

  lemma {:induction false} InSomeScope(scopes: seq<Scope>, x: Subject)
    ensures x in AllScopeSubjects(scopes) <==> InSome(scopes, x)
    decreases |scopes|
  {
    if scopes != [] {
      var front, last := scopes[..|scopes| - 1], scopes[|scopes| - 1];
      InSomeScope(front, x);
      InScopeSubjects(last, NAMESPACED, x);
      InSomeSnoc(front, last, x);
      assert front + [last] == scopes;
    }
  }

  lemma InAllScopeSubjects(scopes: seq<Scope>, x: Subject)
    ensures x in AllScopeSubjects(scopes) <==> exists s, c :: s in scopes && c in NAMESPACED && x == ScopeSubject(s, c)
  {
    InSomeScope(scopes, x);
  }

  // A projected entry is authoritative exactly when its subject is complete and delete-safe.
  lemma EntryAuthority(p: Payload, s: Subject, e: Entry)
    requires IsEntry(p, s, e)
    ensures Authoritative(e) <==> Complete(p, s) && DeleteSafe(s.collection)
  {
  }

  lemma ScopeOfEntry(p: Payload, s: Scope, c: Collection, e: Entry, d: DeleteScope)
    requires c in NAMESPACED && s in p.scopes && IsEntry(p, ScopeSubject(s, c), e)
    ensures ScopeOf(e) == Some(d) <==>
            && Complete(p, ScopeSubject(s, c)) && DeleteSafe(c) && TypeOf(c) == Some(d.kind)
            && d.namespace == Some(Strip(s.namespace))
  {
    EntryAuthority(p, ScopeSubject(s, c), e);
    StripIdempotent(s.namespace);
  }

  lemma ScopeOfCluster(p: Payload, e: Entry, d: DeleteScope)
    requires IsEntry(p, ClusterSubject(Nodes), e)
    ensures ScopeOf(e) == Some(d) <==> Complete(p, ClusterSubject(Nodes)) && d == DeleteScope(Node, None)
  {
  }

  lemma GivenIsProved(p: Payload, e: Entry, x: Subject, d: DeleteScope)
    requires x in Subjects(p) && IsEntry(p, x, e) && ScopeOf(e) == Some(d)
    ensures exists c :: Proves(p, c, d)
  {
    if x == ClusterSubject(Nodes) {
      ScopeOfCluster(p, e, d);
      assert Proves(p, Nodes, d);
    } else {
      InAllScopeSubjects(p.scopes, x);
      var s, c :| s in p.scopes && c in NAMESPACED && x == ScopeSubject(s, c);
      ScopeOfEntry(p, s, c, e, d);
      assert Proves(p, c, d);
    }
  }

  lemma ProvedIsGiven(p: Payload, entries: seq<Entry>, c: Collection, d: DeleteScope)
    requires AreEntries(p, Subjects(p), entries) && Proves(p, c, d)
    ensures exists e :: e in entries && ScopeOf(e) == Some(d)
  {
    if d.namespace.None? {
      var e := entries[|entries| - 1];
      assert IsEntry(p, Subjects(p)[|entries| - 1], e);
      ScopeOfCluster(p, e, d);
      assert e in entries;
    } else {
      var s :| s in p.scopes && Strip(s.namespace) == d.namespace.value && Strip(s.labelSelector) == "";
      InAllScopeSubjects(p.scopes, ScopeSubject(s, c));
      assert ScopeSubject(s, c) in Subjects(p);
      var i :| 0 <= i < |entries| && Subjects(p)[i] == ScopeSubject(s, c);
      assert IsEntry(p, Subjects(p)[i], entries[i]);
      ScopeOfEntry(p, s, c, entries[i], d);
      assert entries[i] in entries;
    }
  }

  // The entries as stored in the snapshot summary.
  ghost predicate Stored(entries: seq<Entry>, raw: seq<RawEntry>) {
    |raw| == |entries| && forall i :: 0 <= i < |raw| ==> raw[i] == Mapping(entries[i])
  }

  lemma GivesStored(entries: seq<Entry>, raw: seq<RawEntry>, d: DeleteScope)
    requires Stored(entries, raw)
    ensures Gives(raw, d) <==> exists e :: e in entries && ScopeOf(e) == Some(d)
  {
  }

  // The scopes a live snapshot with the projected coverage gives authority over are exactly the
  // proved ones.
  lemma DeletionExact(p: Payload, entries: seq<Entry>, raw: seq<RawEntry>, d: DeleteScope)
    requires AreEntries(p, Subjects(p), entries) && Stored(entries, raw)
    ensures Gives(raw, d) <==> exists c :: Proves(p, c, d)
  {
    GivesStored(entries, raw, d);
    if e :| e in entries && ScopeOf(e) == Some(d) {
      var i :| 0 <= i < |entries| && entries[i] == e;
      assert Subjects(p)[i] in Subjects(p);
      GivenIsProved(p, e, Subjects(p)[i], d);
    }
    if c :| Proves(p, c, d) {
      ProvedIsGiven(p, entries, c, d);
    }
  }

  // ----- rows -----

  datatype Row = Row(kind: ResourceType, namespace: Option<string>)

  // inventory_row_in_deletion_scopes
  predicate InScopes(row: Row, scopes: seq<DeleteScope>) {
    exists d :: d in scopes && d.kind == row.kind && d.namespace == row.namespace
  }

  // A stored row missing from a live snapshot may be deleted exactly when the snapshot proves
  // its own (type, namespace); in particular never an event or a custom resource.
  lemma RowDeletableIff(p: Payload, entries: seq<Entry>, raw: seq<RawEntry>, scopes: seq<DeleteScope>, row: Row)
    requires AreEntries(p, Subjects(p), entries) && Stored(entries, raw)
    requires forall d :: d in scopes <==> Gives(raw, d)
    ensures InScopes(row, scopes) <==> exists c :: Proves(p, c, DeleteScope(row.kind, row.namespace))
    ensures row.kind.Event? || row.kind.CustomResource? ==> !InScopes(row, scopes)
  {
    var d := DeleteScope(row.kind, row.namespace);
    DeletionExact(p, entries, raw, d);
    assert InScopes(row, scopes) <==> d in scopes;
  }
}
