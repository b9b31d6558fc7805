/**
 * The whole ownership test of `kustomize_edit_source.py` on a patch's content, and what
 * merging a mapping payload into a resource does to a field. Objects merge member by member and
 * null deletes (section 2 of RFC 7396). Lists merge by their items' names where the schema says
 * so, as in a strategic merge; every other list strategy is left open.
 */
module MergeOwnership {
  import opened Json
  import opened Text
  import opened FieldPath
  import opened ObjectPath
  import opened PatchOwnership

  // ----- merging -----

  // How the list at a key path merges: item by item with the same name, or in some other way,
  // given the value there and the list of the patch.
  datatype Lists = Lists(byName: seq<string> -> bool, other: (seq<string>, Json, seq<Json>) -> seq<Json>)

  function MergePatch(lists: Lists, at: seq<string>, target: Json, patch: Json): Json
    decreases patch, if patch.List? then |patch.items| + 1 else 0
  {
    match patch
    case Obj(fields) =>
      var base := Members(target);
      Obj(map k | k in base.Keys + fields.Keys && !(k in fields && fields[k].Null?) ::
        if k !in fields then base[k]
        else MergePatch(lists, at + [k], if k in base then base[k] else Null, fields[k]))
    case List(items) =>
      if lists.byName(at) then List(MergeItems(lists, at, if target.List? then target.items else [], patch, 0))
      else List(lists.other(at, target, items))
    case _ => patch
  }

  // The items of the patch from the n-th on, one after another.
  function MergeItems(lists: Lists, at: seq<string>, items: seq<Json>, patch: Json, n: nat): seq<Json>
    requires patch.List? && n <= |patch.items|
    decreases patch, |patch.items| - n
  {
    if n == |patch.items| then items
    else
      MergeItems(lists, at, MergeItem(lists, at, items, patch.items[n]), patch, n + 1)
  }

  // One item of the patch: merged into the first item of its name, or appended.
  function MergeItem(lists: Lists, at: seq<string>, items: seq<Json>, patch: Json): seq<Json>
    decreases patch, if patch.List? then |patch.items| + 2 else 1
  {
    var i := FirstMatch(items, patch);
    if i.Some? then items[i.value := MergePatch(lists, at, items[i.value], patch)]
    else items + [MergePatch(lists, at, Null, patch)]
  }

  predicate SameName(item: Json, patch: Json) {
    patch.Obj? && NAME in patch.fields && patch.fields[NAME].Str? && Named(item, patch.fields[NAME].s)
  }

  // The first item with the name of the patch.
  function FirstMatch(items: seq<Json>, patch: Json): (i: Option<nat>)
    ensures i.Some? ==> i.value < |items| && SameName(items[i.value], patch)
    ensures i.None? ==> forall k :: 0 <= k < |items| ==> !SameName(items[k], patch)
  {
    if items == [] then None
    else
      var last := |items| - 1;
      var front := FirstMatch(items[..last], patch);
      if front.Some? then front else if SameName(items[last], patch) then Some(last) else None
  }

  function Members(j: Json): map<string, Json> {
    if j.Obj? then j.fields else map[]
  }

  function Member(j: Json, k: string): Option<Json> {
    if k in Members(j) then Some(Members(j)[k]) else None
  }

  function OrNull(j: Option<Json>): Json {
    if j.Some? then j.value else Null
  }

  // What merging makes of one member: null deletes it.
  function Merged(lists: Lists, at: seq<string>, before: Option<Json>, patch: Json): Option<Json> {
    if patch.Null? then None else Some(MergePatch(lists, at, OrNull(before), patch))
  }

  lemma MemberOfMerge(lists: Lists, at: seq<string>, target: Json, patch: Json, k: string)
    requires patch.Obj?
    ensures Member(MergePatch(lists, at, target, patch), k) ==
            if k in patch.fields then Merged(lists, at + [k], Member(target, k), patch.fields[k]) else Member(target, k)
  {
  }

  // The value already is what the patch asks for.
  predicate Satisfied(lists: Lists, at: seq<string>, before: Option<Json>, patch: Json)
    decreases patch
  {
    match patch
    case Null => before.None?
    case Obj(fields) =>
      before.Some? && before.value.Obj? &&
      forall k :: k in fields ==> Satisfied(lists, at + [k], Member(before.value, k), fields[k])
    case List(_) => before.Some? && MergePatch(lists, at, before.value, patch) == before.value
    case _ => before == Some(patch)
  }

  // Merging leaves a value as it was exactly when it already satisfied the patch.
  lemma {:induction false} MergeFixesIff(lists: Lists, at: seq<string>, before: Option<Json>, patch: Json)
    ensures Merged(lists, at, before, patch) == before <==> Satisfied(lists, at, before, patch)
    decreases patch
  {
    if patch.Obj? && before.Some? && before.value.Obj? {
      var after := MergePatch(lists, at, before.value, patch);
      forall k
        ensures k !in patch.fields ==> Member(after, k) == Member(before.value, k)
        ensures k in patch.fields ==>
          (Member(after, k) == Member(before.value, k) <==> Satisfied(lists, at + [k], Member(before.value, k), patch.fields[k]))
      {
        MemberOfMerge(lists, at, before.value, patch, k);
        if k in patch.fields {
          MergeFixesIff(lists, at + [k], Member(before.value, k), patch.fields[k]);
        }
      }
      SameMembers(after, before.value);
    }
  }

  lemma SameMembers(a: Json, b: Json)
    requires a.Obj? && b.Obj?
    ensures a == b <==> forall k :: Member(a, k) == Member(b, k)
  {
    if forall k :: Member(a, k) == Member(b, k) {
      forall k
        ensures k in a.fields <==> k in b.fields
        ensures k in a.fields ==> a.fields[k] == b.fields[k]
      {
        assert Member(a, k) == Member(b, k);
      }
      assert a.fields == b.fields;
    }
  }

  // ----- lists merged by name -----

  predicate Single(items: seq<Json>, name: string) {
    forall i, j :: 0 <= i < |items| && 0 <= j < |items| && Named(items[i], name) && Named(items[j], name) ==> i == j
  }

  // The one item of a name, if there is one.
  function Item(items: seq<Json>, name: string): Option<Json> {
    var hit := FindOnly(items, name);
    if hit.None? then None else Some(items[hit.value])
  }

  lemma ItemIs(items: seq<Json>, name: string, i: nat)
    requires Single(items, name) && i < |items| && Named(items[i], name)
    ensures Item(items, name) == Some(items[i])
  {
    OnlyNamedUnique(items, name, i);
  }

  lemma NoItem(items: seq<Json>, name: string)
    requires Single(items, name)
    ensures Item(items, name).None? <==> forall i :: 0 <= i < |items| ==> !Named(items[i], name)
  {
    if i :| 0 <= i < |items| && Named(items[i], name) {
      ItemIs(items, name, i);
    }
  }

  // An item merged with a patch of its name, or a patch appended, has the patch's name.
  lemma MergedName(lists: Lists, at: seq<string>, item: Json, patch: Json, name: string)
    requires item.Null? || SameName(item, patch)
    ensures Named(MergePatch(lists, at, item, patch), name) <==> Named(patch, name)
  {
    if patch.Obj? {
      MemberOfMerge(lists, at, item, patch, NAME);
      assert Member(Null, NAME).None?;
    }
  }

  lemma ItemAfter(lists: Lists, at: seq<string>, items: seq<Json>, patch: Json, name: string)
    requires Single(items, name)
    ensures var next := MergeItem(lists, at, items, patch);
            && Single(next, name)
            && Item(next, name) == if Named(patch, name) then Some(MergePatch(lists, at, OrNull(Item(items, name)), patch)) else Item(items, name)
  {
    var i, next := FirstMatch(items, patch), MergeItem(lists, at, items, patch);
    NoItem(items, name);
    if i.Some? {
      MergedName(lists, at, items[i.value], patch, name);
      assert forall k :: 0 <= k < |items| && k != i.value ==> next[k] == items[k];
      assert Named(items[i.value], name) <==> Named(patch, name);
      if Named(patch, name) {
        ItemIs(items, name, i.value);
        ItemIs(next, name, i.value);
      } else if k :| 0 <= k < |items| && Named(items[k], name) {
        ItemIs(items, name, k);
        ItemIs(next, name, k);
      } else {
        NoItem(next, name);
      }
    } else {
      MergedName(lists, at, Null, patch, name);
      AppendedItem(items, MergePatch(lists, at, Null, patch), name);
    }
  }

  lemma AppendedItem(items: seq<Json>, last: Json, name: string)
    requires Single(items, name) && (Named(last, name) ==> Item(items, name).None?)
    ensures Single(items + [last], name)
    ensures Item(items + [last], name) == if Named(last, name) then Some(last) else Item(items, name)
  {
    var all := items + [last];
    NoItem(items, name);
    assert forall k :: 0 <= k < |items| ==> all[k] == items[k];
    if Named(last, name) {
      ItemIs(all, name, |items|);
    } else if k :| 0 <= k < |items| && Named(items[k], name) {
      ItemIs(items, name, k);
      ItemIs(all, name, k);
    } else {
      NoItem(all, name);
    }
  }

  lemma SingleRest(p: Json, rest: seq<Json>, name: string)
    requires Single([p] + rest, name)
    ensures Single(rest, name)
    ensures Named(p, name) ==> forall k :: 0 <= k < |rest| ==> !Named(rest[k], name)
  {
    assert ([p] + rest)[0] == p;
    assert forall k :: 0 <= k < |rest| ==> ([p] + rest)[k + 1] == rest[k];
  }

  lemma ItemLater(p: Json, rest: seq<Json>, name: string, k: nat)
    requires Single([p] + rest, name) && Single(rest, name) && k < |rest| && Named(rest[k], name)
    ensures Item([p] + rest, name) == Item(rest, name)
  {
    assert ([p] + rest)[k + 1] == rest[k];
    ItemIs(rest, name, k);
    ItemIs([p] + rest, name, k + 1);
  }

  lemma ItemOfRest(p: Json, rest: seq<Json>, name: string)
    requires Single([p] + rest, name)
    ensures Single(rest, name)
    ensures Item([p] + rest, name) == if Named(p, name) then Some(p) else Item(rest, name)
    ensures Named(p, name) ==> Item(rest, name).None?
  {
    SingleRest(p, rest, name);
    NoItem(rest, name);
    if Named(p, name) {
      ItemIs([p] + rest, name, 0);
    } else if k :| 0 <= k < |rest| && Named(rest[k], name) {
      ItemLater(p, rest, name, k);
    } else {
      NoItem([p] + rest, name);
    }
  }

  // The item of a name after a list was merged by name.
  lemma {:induction false} ItemsAfter(lists: Lists, at: seq<string>, items: seq<Json>, patch: Json, n: nat, name: string)
    requires patch.List? && n <= |patch.items| && Single(items, name) && Single(patch.items[n..], name)
    ensures var merged, later := MergeItems(lists, at, items, patch, n), Item(patch.items[n..], name);
            && Single(merged, name)
            && Item(merged, name) ==
               if later.Some? then Some(MergePatch(lists, at, OrNull(Item(items, name)), later.value)) else Item(items, name)
    decreases |patch.items| - n
  {
    if n == |patch.items| {
      NoItem(patch.items[n..], name);
    } else {
      var p, rest := patch.items[n], patch.items[n + 1..];
      assert patch.items[n..] == [p] + rest;
      ItemOfRest(p, rest, name);
      ItemAfter(lists, at, items, p, name);
      ItemsAfter(lists, at, MergeItem(lists, at, items, p), patch, n + 1, name);
    }
  }

  // ----- the field of a merged document -----

  // The patch replaces or deletes a container above the field.
  predicate Overwrites(patch: Json, segs: seq<Segment>)
    decreases segs
  {
    segs != [] &&
    (!patch.Obj? ||
     (segs[0].key in patch.fields &&
      var below := patch.fields[segs[0].key];
      if segs[0].selected.None? then Overwrites(below, segs[1..])
      else if !below.List? then true
      else
        var item := Item(below.items, segs[0].selected.value);
        item.Some? && Overwrites(item.value, segs[1..])))
  }

  // Every selector of the path selects from a list that merges by name.
  predicate KeyedSelectors(lists: Lists, at: seq<string>, segs: seq<Segment>)
    decreases segs
  {
    segs != [] ==>
      && (segs[0].selected.Some? ==> lists.byName(at + [segs[0].key]))
      && KeyedSelectors(lists, at + [segs[0].key], segs[1..])
  }

  // No list on the way of the path holds two items of the selected name.
  predicate Unambiguous(doc: Json, segs: seq<Segment>)
    decreases segs
  {
    segs != [] && Member(doc, segs[0].key).Some? ==>
      var below := Member(doc, segs[0].key).value;
      if segs[0].selected.None? then Unambiguous(below, segs[1..])
      else below.List? ==>
        && Single(below.items, segs[0].selected.value)
        && (Item(below.items, segs[0].selected.value).Some? ==>
              Unambiguous(Item(below.items, segs[0].selected.value).value, segs[1..]))
  }

  // What one segment reaches.
  function Reached(doc: Json, seg: Segment): Option<Json> {
    var below := Member(doc, seg.key);
    if below.None? || seg.selected.None? then below
    else if !below.value.List? then None
    else Item(below.value.items, seg.selected.value)
  }

  lemma GetReaches(doc: Json, segs: seq<Segment>)
    requires segs != []
    ensures Get(doc, segs) == if Reached(doc, segs[0]).None? then None else Get(Reached(doc, segs[0]).value, segs[1..])
  {
    GetUnfolds(doc, segs);
    if Enter(doc, segs[0]).Some? {
      EnterExists(doc, segs[0]);
    }
  }

  lemma UnambiguousBelow(doc: Json, segs: seq<Segment>)
    requires segs != [] && Unambiguous(doc, segs)
    ensures Reached(doc, segs[0]).Some? ==> Unambiguous(Reached(doc, segs[0]).value, segs[1..])
  {
  }

  // One segment of a merged document: what the patch reaches is merged into what the target
  // reaches; where it reaches nothing, the target's stays unless its container was replaced.
  lemma ReachedAfter(lists: Lists, at: seq<string>, target: Json, patch: Json, segs: seq<Segment>)
    requires segs != [] && patch.Obj? && KeyedSelectors(lists, at, segs) && Unambiguous(target, segs) && Unambiguous(patch, segs)
    ensures var seg := segs[0];
            var was, asked := Reached(target, seg), Reached(patch, seg);
            Reached(MergePatch(lists, at, target, patch), seg) ==
              if asked.Some? then Merged(lists, at + [seg.key], was, asked.value)
              else if seg.selected.Some? && seg.key in patch.fields && !patch.fields[seg.key].List? then None
              else was
  {
    var seg := segs[0];
    MemberOfMerge(lists, at, target, patch, seg.key);
    if seg.selected.Some? && seg.key in patch.fields && patch.fields[seg.key].List? {
      NamedAfter(lists, at + [seg.key], Member(target, seg.key), patch.fields[seg.key], seg.selected.value);
    }
  }

  function ItemsOf(j: Option<Json>): seq<Json> {
    if j.Some? && j.value.List? then j.value.items else []
  }

  // The item of a name in the list that merging by name makes.
  lemma NamedAfter(lists: Lists, at: seq<string>, before: Option<Json>, patch: Json, name: string)
    requires patch.List? && lists.byName(at) && Single(ItemsOf(before), name) && Single(patch.items, name)
    ensures var merged, was, asked := Merged(lists, at, before, patch), Item(ItemsOf(before), name), Item(patch.items, name);
            && merged.Some? && merged.value.List?
            && Item(merged.value.items, name) == if asked.Some? then Merged(lists, at, was, asked.value) else was
  {
    assert patch.items[0..] == patch.items;
    ItemsAfter(lists, at, ItemsOf(before), patch, 0, name);
  }

  function PathKeys(segs: seq<Segment>): seq<string> {
    if segs == [] then [] else [segs[0].key] + PathKeys(segs[1..])
  }

  // The value at any path after any merge: the declared value merged into it, nothing if a
  // container above it was overwritten, and the old value otherwise.
  lemma {:induction false} MergedFieldIs(lists: Lists, at: seq<string>, target: Json, patch: Json, segs: seq<Segment>)
    requires segs != [] && KeyedSelectors(lists, at, segs) && Unambiguous(target, segs) && Unambiguous(patch, segs)
    ensures Get(MergePatch(lists, at, target, patch), segs) ==
            if Get(patch, segs).Some? then Merged(lists, at + PathKeys(segs), Get(target, segs), Get(patch, segs).value)
            else if Overwrites(patch, segs) then None
            else Get(target, segs)
    decreases segs, 0
  {
    var merged := MergePatch(lists, at, target, patch);
    GetReaches(merged, segs);
    GetReaches(target, segs);
    GetReaches(patch, segs);
    if patch.Obj? {
      ReachedAfter(lists, at, target, patch, segs);
      var was, asked := Reached(target, segs[0]), Reached(patch, segs[0]);
      if asked.Some? {
        UnambiguousBelow(target, segs);
        UnambiguousBelow(patch, segs);
        FieldBelow(lists, at + [segs[0].key], was, asked.value, segs[1..]);
        assert at + [segs[0].key] + PathKeys(segs[1..]) == at + PathKeys(segs);
      }
    }
  }

  lemma {:induction false} FieldBelow(lists: Lists, at: seq<string>, was: Option<Json>, asked: Json, segs: seq<Segment>)
    requires KeyedSelectors(lists, at, segs) && Unambiguous(OrNull(was), segs) && Unambiguous(asked, segs)
    ensures var merged, before := Merged(lists, at, was, asked), if was.None? then None else Get(was.value, segs);
            (if merged.None? then None else Get(merged.value, segs)) ==
            if Get(asked, segs).Some? then Merged(lists, at + PathKeys(segs), before, Get(asked, segs).value)
            else if Overwrites(asked, segs) then None
            else before
    decreases segs, 1
  {
    if segs == [] {
      assert at + PathKeys(segs) == at;
      assert was.Some? ==> Get(was.value, segs) == was;
    } else {
      GetReaches(Null, segs);
      if asked.Null? {
        GetReaches(asked, segs);
      } else {
        MergedFieldIs(lists, at, OrNull(was), asked, segs);
      }
    }
  }

  // What the merge needs in order to keep the field.
  predicate MergeKeeps(lists: Lists, target: Json, patch: Json, segs: seq<Segment>) {
    if Get(patch, segs).Some? then Satisfied(lists, PathKeys(segs), Get(target, segs), Get(patch, segs).value)
    else !Overwrites(patch, segs) || Get(target, segs).None?
  }

  lemma MergeKeepsIff(lists: Lists, target: Json, patch: Json, segs: seq<Segment>)
    requires segs != [] && KeyedSelectors(lists, [], segs) && Unambiguous(target, segs) && Unambiguous(patch, segs)
    ensures Get(MergePatch(lists, [], target, patch), segs) == Get(target, segs) <==> MergeKeeps(lists, target, patch, segs)
  {
    MergedFieldIs(lists, [], target, patch, segs);
    assert [] + PathKeys(segs) == PathKeys(segs);
    if Get(patch, segs).Some? {
      MergeFixesIff(lists, PathKeys(segs), Get(target, segs), Get(patch, segs).value);
    }
  }

  // ----- the ownership test -----

  datatype Identity = Identity(apiVersion: string, kind: string, name: string, namespace: Option<string>)

  // str() of values that are not text, and casefold().
  datatype Library = Library(str: Json -> string, casefold: string -> string)

  predicate NonBlank(j: Option<Json>) {
    j.Some? && j.value.Str? && Strip(j.value.s) != ""
  }

  // manifest_identity: the identity a manifest states, if it states one.
  function ManifestIdentity(resource: Json): Option<Identity> {
    var metadata := OrNull(Member(resource, "metadata"));
    var apiVersion, kind, name := Member(resource, "apiVersion"), Member(resource, "kind"), Member(metadata, NAME);
    var namespace := OrNull(Member(metadata, "namespace"));
    if !metadata.Obj? || !NonBlank(apiVersion) || !NonBlank(kind) || !NonBlank(name) || !(namespace.Null? || namespace.Str?) then None
    else Some(Identity(apiVersion.value.s, kind.value.s, name.value.s, if namespace.Null? then None else Some(namespace.s)))
  }

  // identity_matches_selected
  predicate SameIdentity(lib: Library, id: Identity, selected: Identity) {
    && id.apiVersion == selected.apiVersion && lib.casefold(id.kind) == lib.casefold(selected.kind)
    && id.name == selected.name && (id.namespace == selected.namespace || id.namespace.None?)
  }

  // mapping_declares_field
  predicate DeclaresField(payload: Json, field: string) {
    Segments(field) == [] || Get(payload, Segments(field)).Some?
  }

  // patch_content_owns_field; the content is absent when it does not parse.
  predicate ContentOwns(lib: Library, content: Option<Json>, selected: Identity, fields: seq<string>, targetDeclared: bool) {
    if content.None? then true
    else if content.value.List? then ListOwns(lib.str, content.value.items, fields)
    else if !content.value.Obj? then true
    else
      var id := ManifestIdentity(content.value);
      if id.None? && !targetDeclared then true
      else if id.Some? && !SameIdentity(lib, id.value, selected) then false
      else exists field :: field in fields && DeclaresField(content.value, field)
  }

  // Whether a mapping payload is merged into the selected resource: through its target, or else
  // by its own identity.
  predicate Reaches(lib: Library, payload: Json, selected: Identity, targetDeclared: bool) {
    targetDeclared || (ManifestIdentity(payload).Some? && SameIdentity(lib, ManifestIdentity(payload).value, selected))
  }

  function Patched(lib: Library, lists: Lists, target: Json, payload: Json, selected: Identity, targetDeclared: bool): Json {
    if Reaches(lib, payload, selected, targetDeclared) then MergePatch(lists, [], target, payload) else target
  }

  // The payload states no identity, or the selected one.
  predicate OwnIdentity(lib: Library, payload: Json, selected: Identity) {
    ManifestIdentity(payload).Some? ==> SameIdentity(lib, ManifestIdentity(payload).value, selected)
  }

  // A mapping payload reported as not owning keeps a protected field exactly when it does not
  // reach the resource; or states the identity of another one and its merge keeps the field; or
  // overwrites no container above the field, or there was nothing to lose.
  lemma NonOwningMappingKeepsIff(lib: Library, lists: Lists, target: Json, payload: Json, selected: Identity, fields: seq<string>,
                                 targetDeclared: bool, field: string)
    requires payload.Obj? && !ContentOwns(lib, Some(payload), selected, fields, targetDeclared)
    requires field in fields && KeyedSelectors(lists, [], Segments(field))
    requires Unambiguous(target, Segments(field)) && Unambiguous(payload, Segments(field)) && Segments(field) != []
    ensures var segs := Segments(field);
            Get(Patched(lib, lists, target, payload, selected, targetDeclared), segs) == Get(target, segs) <==>
            || !Reaches(lib, payload, selected, targetDeclared)
            || (!OwnIdentity(lib, payload, selected) && MergeKeeps(lists, target, payload, segs))
            || (OwnIdentity(lib, payload, selected) && (!Overwrites(payload, segs) || Get(target, segs).None?))
  {
    MergeKeepsIff(lists, target, payload, Segments(field));
    if OwnIdentity(lib, payload, selected) {
      OwnIdentityUndeclared(lib, payload, selected, fields, targetDeclared, field);
    }
  }

  // Where the payload's own identity is the selected one or none is stated, "not owning" means
  // that it declares no protected field.
  lemma OwnIdentityUndeclared(lib: Library, payload: Json, selected: Identity, fields: seq<string>, targetDeclared: bool, field: string)
    requires payload.Obj? && !ContentOwns(lib, Some(payload), selected, fields, targetDeclared)
    requires field in fields && OwnIdentity(lib, payload, selected)
    ensures Segments(field) != [] && Get(payload, Segments(field)).None?
  {
    assert !DeclaresField(payload, field);
  }

  // ----- failing inputs -----

  predicate ProperIdentity(id: Identity) {
    Strip(id.apiVersion) != "" && Strip(id.kind) != "" && Strip(id.name) != ""
  }

  // A manifest of that identity.
  function Manifest(id: Identity, spec: Json): Json {
    var names := map[NAME := Str(id.name)];
    var metadata := if id.namespace.Some? then names["namespace" := Str(id.namespace.value)] else names;
    Obj(map["apiVersion" := Str(id.apiVersion), "kind" := Str(id.kind), "metadata" := Obj(metadata), "spec" := spec])
  }

  lemma IdentityOfManifest(id: Identity, spec: Json)
    requires ProperIdentity(id)
    ensures ManifestIdentity(Manifest(id, spec)) == Some(id)
  {
  }

  const REPLICAS: seq<Segment> := [Segment("spec", None), Segment("replicas", None)]

  // The field path "spec.replicas".
  function ReplicasField(): string {
    Print(REPLICAS)
  }

  lemma ReplicasFieldParses()
    ensures Segments(ReplicasField()) == REPLICAS
  {
    assert IsKey("spec") && IsKey("replicas");
    SegmentsOfPrint(REPLICAS);
  }

  function Spec(replicas: Json): Json {
    Obj(map["replicas" := replicas])
  }

  // The field of a document is the `replicas` of its `spec`.
  lemma ReplicasOf(doc: Json)
    ensures Get(doc, REPLICAS) == if Member(doc, "spec").None? then None else Member(Member(doc, "spec").value, "replicas")
    ensures Overwrites(doc, REPLICAS) <==> !doc.Obj? || (Member(doc, "spec").Some? && !Member(doc, "spec").value.Obj?)
    ensures Unambiguous(doc, REPLICAS)
  {
    assert REPLICAS[1..] == [REPLICAS[1]] && [REPLICAS[1]][1..] == [];
    GetReaches(doc, REPLICAS);
    if Member(doc, "spec").Some? {
      GetReaches(Member(doc, "spec").value, REPLICAS[1..]);
    }
  }

  lemma ReplicasKeyed(lists: Lists, at: seq<string>)
    ensures KeyedSelectors(lists, at, REPLICAS)
  {
    assert REPLICAS[1..] == [REPLICAS[1]] && [REPLICAS[1]][1..] == [];
  }

  lemma NullSpecDeletes(lists: Lists, target: Json, payload: Json)
    requires Member(payload, "spec") == Some(Null)
    ensures Get(payload, REPLICAS).None? && Get(MergePatch(lists, [], target, payload), REPLICAS).None?
  {
    ReplicasOf(target);
    ReplicasOf(payload);
    ReplicasKeyed(lists, []);
    MergedFieldIs(lists, [], target, payload, REPLICAS);
  }

  // What states the selected identity, or none under a declared target, owns only what it declares.
  lemma UndeclaredNotOwned(lib: Library, payload: Json, selected: Identity, targetDeclared: bool)
    requires payload.Obj? && OwnIdentity(lib, payload, selected) && Reaches(lib, payload, selected, targetDeclared)
    requires Get(payload, REPLICAS).None?
    ensures !ContentOwns(lib, Some(payload), selected, [ReplicasField()], targetDeclared)
  {
    ReplicasFieldParses();
  }

  // A manifest of the selected resource with `spec: null` does not own `spec.replicas`, yet deletes it.
  lemma NullParentDeletes(lib: Library, lists: Lists, selected: Identity, replicas: Json, targetDeclared: bool)
    requires ProperIdentity(selected)
    ensures var target, payload := Manifest(selected, Spec(replicas)), Manifest(selected, Null);
            && Get(target, REPLICAS) == Some(replicas)
            && !ContentOwns(lib, Some(payload), selected, [ReplicasField()], targetDeclared)
            && Get(Patched(lib, lists, target, payload, selected, targetDeclared), REPLICAS) == None
  {
    var target, payload := Manifest(selected, Spec(replicas)), Manifest(selected, Null);
    IdentityOfManifest(selected, Null);
    ReplicasOf(target);
    NullSpecDeletes(lists, target, payload);
    UndeclaredNotOwned(lib, payload, selected, targetDeclared);
  }

  // So does `spec: null` without an identity, under a declared target.
  lemma BareNullParentDeletes(lib: Library, lists: Lists, selected: Identity, replicas: Json)
    ensures var target, payload := Manifest(selected, Spec(replicas)), Obj(map["spec" := Null]);
            && Get(target, REPLICAS) == Some(replicas)
            && !ContentOwns(lib, Some(payload), selected, [ReplicasField()], true)
            && Get(Patched(lib, lists, target, payload, selected, true), REPLICAS) == None
  {
    var target, payload := Manifest(selected, Spec(replicas)), Obj(map["spec" := Null]);
    ReplicasOf(target);
    NullSpecDeletes(lists, target, payload);
    UndeclaredNotOwned(lib, payload, selected, true);
  }

  // A manifest that states another identity does not own anything, yet through a declared target
  // it sets the field.
  lemma ForeignIdentitySets(lib: Library, lists: Lists, selected: Identity, other: Identity, before: Json, after: Json)
    requires ProperIdentity(other) && !SameIdentity(lib, other, selected)
    requires before != after && IsScalar(after) && !after.Null?
    ensures var target, payload := Manifest(selected, Spec(before)), Manifest(other, Spec(after));
            && !ContentOwns(lib, Some(payload), selected, [ReplicasField()], true)
            && Get(target, REPLICAS) == Some(before)
            && Get(Patched(lib, lists, target, payload, selected, true), REPLICAS) == Some(after)
  {
    var target, payload := Manifest(selected, Spec(before)), Manifest(other, Spec(after));
    IdentityOfManifest(other, Spec(after));
    ReplicasOf(target);
    ReplicasOf(payload);
    ReplicasKeyed(lists, []);
    MergedFieldIs(lists, [], target, payload, REPLICAS);
  }
}
