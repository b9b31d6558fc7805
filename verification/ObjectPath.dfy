/**
 * Reading and writing a manifest through a field path: the object walk and the
 * object write of `source_patch.py`, and the locations they act on.
 */
module ObjectPath {
  import opened Json
  import opened FieldPath
  import opened Location

  const NAME := "name"

  predicate Named(item: Json, name: string) {
    item.Obj? && NAME in item.fields && item.fields[NAME] == Str(name)
  }

  predicate OnlyNamed(items: seq<Json>, name: string, i: nat) {
    i < |items| && Named(items[i], name) && forall k :: 0 <= k < |items| && k != i ==> !Named(items[k], name)
  }

  // The indices of the list items whose `name` is the selected one.
  function Selected(items: seq<Json>, name: string): seq<nat> {
    if items == [] then []
    else
      var last := |items| - 1;
      Selected(items[..last], name) + if Named(items[last], name) then [last] else []
  }

  lemma {:induction false} SelectedSpec(items: seq<Json>, name: string)
    ensures forall i :: i in Selected(items, name) <==> 0 <= i < |items| && Named(items[i], name)
    ensures forall a, b :: 0 <= a < b < |Selected(items, name)| ==> Selected(items, name)[a] != Selected(items, name)[b]
  {
    if items != [] {
      var last := |items| - 1;
      var front := Selected(items[..last], name);
      SelectedSpec(items[..last], name);
      assert forall a :: 0 <= a < |front| ==> front[a] in front;
      assert forall i :: 0 <= i < last ==> items[..last][i] == items[i];
    }
  }

  // The single item with the selected name, when there is exactly one.
  function FindOnly(items: seq<Json>, name: string): (r: Option<nat>)
    ensures r.Some? ==> OnlyNamed(items, name, r.value)
    ensures r.None? ==> forall i :: !OnlyNamed(items, name, i)
  {
    var hits := Selected(items, name);
    SelectedSpec(items, name);
    OnlyHit(items, name);
    if |hits| == 1 then Some(hits[0]) else None
  }

  lemma OnlyHit(items: seq<Json>, name: string)
    ensures var hits := Selected(items, name);
            if |hits| == 1 then OnlyNamed(items, name, hits[0]) else forall i :: !OnlyNamed(items, name, i)
  {
    var hits := Selected(items, name);
    SelectedSpec(items, name);
    if |hits| == 1 {
      assert hits[0] in hits;
    } else if hits != [] {
      assert hits[0] in hits && hits[1] in hits && hits[0] != hits[1];
    }
  }

  lemma OnlyNamedUnique(items: seq<Json>, name: string, i: nat)
    requires OnlyNamed(items, name, i)
    ensures FindOnly(items, name) == Some(i)
  {
  }

  // One segment of the walk: the steps it takes, or nothing when the target is
  // missing or not unique.
  function Enter(current: Json, seg: Segment): Option<Loc> {
    if !current.Obj? || seg.key !in current.fields then None
    else if seg.selected.None? then Some([Key(seg.key)])
    else
      var value := current.fields[seg.key];
      if !value.List? then None
      else
        var hit := FindOnly(value.items, seg.selected.value);
        if hit.None? then None else Some([Key(seg.key), Index(hit.value)])
  }

  lemma EnterExists(current: Json, seg: Segment)
    requires Enter(current, seg).Some?
    ensures At(current, Enter(current, seg).value).Some?
    ensures var value := current.fields[seg.key];
            At(current, Enter(current, seg).value).value ==
              if seg.selected.None? then value
              else value.items[FindOnly(value.items, seg.selected.value).value]
  {
    var steps := Enter(current, seg).value;
    if seg.selected.Some? {
      var value := current.fields[seg.key];
      assert steps[1..] == [steps[1]] && [steps[1]][1..] == [];
      assert At(value, [steps[1]]) == At(value.items[steps[1].i], []);
    } else {
      assert steps[1..] == [];
    }
  }

  // The location a path denotes in a document.
  function Resolve(root: Json, segs: seq<Segment>): (l: Option<Loc>)
    ensures l.Some? ==> At(root, l.value).Some?
    decreases segs
  {
    if segs == [] then Some([])
    else
      var steps := Enter(root, segs[0]);
      if steps.None? then None
      else
        EnterExists(root, segs[0]);
        var more := Resolve(At(root, steps.value).value, segs[1..]);
        if more.None? then None
        else
          AtConcat(root, steps.value, more.value);
          Some(steps.value + more.value)
  }

  // object_value_at
  function Get(root: Json, segs: seq<Segment>): Option<Json> {
    var l := Resolve(root, segs);
    if l.None? then None else At(root, l.value)
  }

  // set_object_value; it only looks at the containers above the last key, and so
  // may also create that key.
  function SetValue(root: Json, segs: seq<Segment>, v: Json): Option<Json>
    decreases segs
  {
    if segs == [] || !root.Obj? then None
    else if |segs| == 1 then
      if segs[0].selected.Some? then None else Some(Obj(root.fields[segs[0].key := v]))
    else
      var steps := Enter(root, segs[0]);
      if steps.None? then None
      else
        EnterExists(root, segs[0]);
        var below := SetValue(At(root, steps.value).value, segs[1..], v);
        if below.None? then None else Some(Put(root, steps.value, below.value))
  }

  // The path's last key is the `name` by which its list item was selected.
  predicate RenamesSelected(segs: seq<Segment>) {
    |segs| >= 2 && segs[|segs| - 1].key == NAME && segs[|segs| - 2].selected.Some?
  }

  // The location is the `name` entry of a list item.
  predicate NameOfItem(l: Loc) {
    |l| >= 2 && l[|l| - 1] == Key(NAME) && l[|l| - 2].Index?
  }

  // ----- the loop of the source -----

  lemma GetUnfolds(current: Json, segs: seq<Segment>)
    requires segs != []
    ensures var steps := Enter(current, segs[0]);
            Get(current, segs) ==
              if steps.None? || At(current, steps.value).None? then None
              else Get(At(current, steps.value).value, segs[1..])
  {
    var steps := Enter(current, segs[0]);
    if steps.Some? {
      EnterExists(current, segs[0]);
      var more := Resolve(At(current, steps.value).value, segs[1..]);
      if more.Some? {
        AtConcat(current, steps.value, more.value);
      }
    }
  }

  method ObjectValueAt(root: Json, segs: seq<Segment>) returns (value: Option<Json>)
    ensures value == Get(root, segs)
  {
    var current := root;
    assert segs[0..] == segs;
    for i := 0 to |segs|
      invariant Get(root, segs) == Get(current, segs[i..])
    {
      var seg := segs[i];
      assert segs[i..][0] == seg && segs[i..][1..] == segs[i + 1..];
      GetUnfolds(current, segs[i..]);
      if Enter(current, seg).Some? {
        EnterExists(current, seg);
      }
      if !current.Obj? || seg.key !in current.fields {
        return None;
      }
      current := current.fields[seg.key];
      if seg.selected.Some? {
        if !current.List? {
          return None;
        }
        var matches := Selected(current.items, seg.selected.value);
        OnlyHit(current.items, seg.selected.value);
        if |matches| != 1 {
          return None;
        }
        current := current.items[matches[0]];
      }
    }
    value := Some(current);
  }

  // ----- writing is writing at the resolved location -----

  lemma {:induction false} PutConcat(j: Json, a: Loc, b: Loc, v: Json)
    requires At(j, a).Some? && At(At(j, a).value, b).Some?
    ensures At(j, a + b).Some?
    ensures Put(j, a + b, v) == Put(j, a, Put(At(j, a).value, b, v))
    decreases a
  {
    AtConcat(j, a, b);
    if a == [] {
      assert a + b == b;
    } else {
      assert (a + b)[0] == a[0] && (a + b)[1..] == a[1..] + b;
      PutConcat(Child(j, a[0]).value, a[1..], b, v);
    }
  }

  lemma {:induction false} SetIsPut(root: Json, segs: seq<Segment>, v: Json)
    requires segs != [] && Resolve(root, segs).Some?
    ensures SetValue(root, segs, v)
         == if segs[|segs| - 1].selected.Some? then None else Some(Put(root, Resolve(root, segs).value, v))
    decreases segs
  {
    var steps := Enter(root, segs[0]).value;
    EnterExists(root, segs[0]);
    var inner := At(root, steps).value;
    var l := Resolve(inner, segs[1..]).value;
    PutConcat(root, steps, l, v);
    if |segs| == 1 {
      assert segs[1..] == [] && steps + l == steps;
      assert steps[1..] == [] || segs[0].selected.Some?;
    } else {
      SetIsPut(inner, segs[1..], v);
    }
  }

  // A scalar target is never reached by a final selector.
  lemma {:induction false} ScalarTargetPlain(root: Json, segs: seq<Segment>)
    requires segs != [] && Get(root, segs).Some? && IsScalar(Get(root, segs).value)
    ensures segs[|segs| - 1].selected.None?
    decreases segs
  {
    var steps := Enter(root, segs[0]).value;
    EnterExists(root, segs[0]);
    var inner := At(root, steps).value;
    AtConcat(root, steps, Resolve(inner, segs[1..]).value);
    if |segs| > 1 {
      ScalarTargetPlain(inner, segs[1..]);
    }
  }

  // ----- paths and locations correspond one to one -----

  // The steps one segment takes: a key, then possibly an index.
  predicate OneSegment(steps: Loc) {
    1 <= |steps| <= 2 && steps[0].Key? && (|steps| == 2 ==> steps[1].Index?)
  }

  predicate StartsWithKey(l: Loc) {
    l != [] ==> l[0].Key?
  }

  // Where a location's first segment ends can be read off the location.
  lemma StepsAgree(a: Loc, la: Loc, b: Loc, lb: Loc)
    requires OneSegment(a) && OneSegment(b) && StartsWithKey(la) && StartsWithKey(lb) && a + la == b + lb
    ensures a == b && la == lb
  {
    var l := a + la;
    assert a[0] == l[0] && b[0] == l[0];
    assert |a| == 2 ==> l[1] == a[1];
    assert |b| == 2 ==> l[1] == b[1];
    assert |a| == 1 && la != [] ==> l[1] == la[0];
    assert |b| == 1 && lb != [] ==> l[1] == lb[0];
    assert |a| == |b|;
    assert la == l[|a|..] && lb == l[|b|..];
  }

  // The step of a segment determines the segment.
  lemma EnterInjective(root: Json, p: Segment, q: Segment)
    requires Enter(root, p).Some? && Enter(root, p) == Enter(root, q)
    ensures p == q && OneSegment(Enter(root, p).value)
  {
  }

  lemma {:induction false} ResolveInjective(root: Json, p: seq<Segment>, q: seq<Segment>)
    requires Resolve(root, p).Some? && Resolve(root, p) == Resolve(root, q)
    ensures p == q
    decreases p
  {
    if p != [] && q != [] {
      var a, b := Enter(root, p[0]).value, Enter(root, q[0]).value;
      EnterExists(root, p[0]);
      EnterExists(root, q[0]);
      var la := Resolve(At(root, a).value, p[1..]).value;
      var lb := Resolve(At(root, b).value, q[1..]).value;
      ResolveStartsWithKey(At(root, a).value, p[1..]);
      ResolveStartsWithKey(At(root, b).value, q[1..]);
      StepsAgree(a, la, b, lb);
      EnterInjective(root, p[0], q[0]);
      ResolveInjective(At(root, a).value, p[1..], q[1..]);
      assert p == [p[0]] + p[1..] && q == [q[0]] + q[1..];
    }
  }

  lemma ResolveStartsWithKey(root: Json, segs: seq<Segment>)
    ensures Resolve(root, segs).Some? && Resolve(root, segs).value != [] ==> Resolve(root, segs).value[0].Key?
  {
  }

  lemma {:induction false} RenamesIsNameOfItem(root: Json, segs: seq<Segment>)
    requires segs != [] && Resolve(root, segs).Some? && segs[|segs| - 1].selected.None?
    ensures NameOfItem(Resolve(root, segs).value) <==> RenamesSelected(segs)
    decreases segs
  {
    var steps := Enter(root, segs[0]).value;
    EnterExists(root, segs[0]);
    var inner := At(root, steps).value;
    var more := Resolve(inner, segs[1..]).value;
    if |segs| == 1 {
      assert steps + more == steps;
    } else {
      RenamesIsNameOfItem(inner, segs[1..]);
      ResolveStartsWithKey(inner, segs[1..]);
      if |segs| == 2 {
        assert segs[1..][1..] == [] && more == [Key(segs[1].key)];
      } else {
        var inner2 := Enter(inner, segs[1]).value;
        assert more[..1] == inner2[..1];
        EnterExists(inner, segs[1]);
        ResolveLong(inner, segs[1..]);
      }
    }
  }

  lemma {:induction false} ResolveLong(root: Json, segs: seq<Segment>)
    requires Resolve(root, segs).Some?
    ensures |Resolve(root, segs).value| >= |segs|
    decreases segs
  {
    if segs != [] {
      EnterExists(root, segs[0]);
      ResolveLong(At(root, Enter(root, segs[0]).value).value, segs[1..]);
    }
  }

  // ----- scalar writes do not move other paths -----

  lemma FindOnlyPointwise(xs: seq<Json>, ys: seq<Json>, name: string)
    requires |xs| == |ys| && forall i :: 0 <= i < |xs| ==> (Named(xs[i], name) <==> Named(ys[i], name))
    ensures FindOnly(xs, name) == FindOnly(ys, name)
  {
    assert forall i :: OnlyNamed(xs, name, i) <==> OnlyNamed(ys, name, i);
  }

  // Writing a scalar over a scalar keeps every path's location, unless the written
  // place is the `name` of a list item.
  lemma {:induction false} ResolveStable(j: Json, l: Loc, v: Json, segs: seq<Segment>)
    requires At(j, l).Some? && IsScalar(At(j, l).value) && IsScalar(v) && !NameOfItem(l)
    ensures Resolve(Put(j, l, v), segs) == Resolve(j, segs)
    decreases segs
  {
    if segs != [] {
      var seg, j' := segs[0], Put(j, l, v);
      EnterStable(j, l, v, seg);
      if Enter(j, seg).Some? {
        EnterExists(j, seg);
        EnterExists(j', seg);
        var a, steps := At(j, Enter(j, seg).value).value, Enter(j, seg).value;
        if steps <= l {
          PutAbove(j, l, v, steps);
          assert !NameOfItem(l[|steps|..]);
          ResolveStable(a, l[|steps|..], v, segs[1..]);
        } else {
          NotBelowScalar(j, l, steps);
          PutApart(j, l, v, steps);
        }
      }
    }
  }

  // A scalar write below a list changes one item, and no item's name.
  lemma ListStable(child: Json, l: Loc, v: Json, name: string)
    requires child.List? && |l| >= 2 && At(child, l[1..]).Some? && IsScalar(At(child, l[1..]).value) && IsScalar(v) && !NameOfItem(l)
    ensures l[1].Index? && 0 <= l[1].i < |child.items|
    ensures Put(child, l[1..], v).List? && FindOnly(Put(child, l[1..], v).items, name) == FindOnly(child.items, name)
    ensures var items := Put(child, l[1..], v).items;
            |items| == |child.items| && forall k :: 0 <= k < |items| && k != l[1].i ==> items[k] == child.items[k]
  {
    var i, rest := l[1].i, l[2..];
    assert l[1..][1..] == rest;
    ItemNameStable(child.items[i], rest, v, name, l);
    FindOnlyPointwise(child.items, Put(child, l[1..], v).items, name);
  }

  // What exists and does not lead to a scalar is apart from it.
  lemma NotBelowScalar(j: Json, l: Loc, steps: Loc)
    requires At(j, l).Some? && IsScalar(At(j, l).value) && At(j, steps).Some? && !(steps <= l)
    ensures Apart(l, steps)
  {
  }

  lemma SelectStable(child: Json, l: Loc, v: Json, name: string)
    requires l != [] && At(child, l[1..]).Some? && IsScalar(At(child, l[1..]).value) && IsScalar(v) && !NameOfItem(l)
    ensures child.List? <==> Put(child, l[1..], v).List?
    ensures child.List? ==> |l| >= 2 && FindOnly(Put(child, l[1..], v).items, name) == FindOnly(child.items, name)
  {
    if child.List? && |l| >= 2 {
      ListStable(child, l, v, name);
    }
  }

  // Entering by one segment reaches the same place.
  lemma EnterStable(j: Json, l: Loc, v: Json, seg: Segment)
    requires At(j, l).Some? && IsScalar(At(j, l).value) && IsScalar(v) && !NameOfItem(l)
    ensures Enter(Put(j, l, v), seg) == Enter(j, seg)
  {
    if l != [] {
      var below := Put(Child(j, l[0]).value, l[1..], v);
      ChildOfPut(j, l[0], below, Key(seg.key));
      if l[0] == Key(seg.key) && j.Obj? && seg.key in j.fields && seg.selected.Some? {
        SelectStable(j.fields[seg.key], l, v, seg.selected.value);
      }
    }
  }

  lemma ItemNameStable(item: Json, rest: Loc, v: Json, name: string, whole: Loc)
    requires At(item, rest).Some? && IsScalar(At(item, rest).value) && IsScalar(v)
    requires |whole| >= 2 && whole[1].Index? && rest == whole[2..] && !NameOfItem(whole)
    ensures Named(Put(item, rest, v), name) <==> Named(item, name)
  {
  }

  // ----- lens laws -----

  lemma FindOnlyUpdated(items: seq<Json>, i: nat, item: Json, name: string)
    requires OnlyNamed(items, name, i)
    ensures FindOnly(items[i := item], name) == if Named(item, name) then Some(i) else None
  {
    if Named(item, name) {
      OnlyNamedUnique(items[i := item], name, i);
    } else {
      var updated := items[i := item];
      assert forall k :: 0 <= k < |updated| ==> !Named(updated[k], name);
    }
  }

  // A nested write keeps the name of the item it passes through; a write of the
  // name itself replaces it.
  lemma SetKeepsName(item: Json, segs: seq<Segment>, v: Json, name: string)
    requires Named(item, name) && SetValue(item, segs, v).Some?
    ensures Named(SetValue(item, segs, v).value, name)
        <==> (|segs| == 1 && segs[0].key == NAME ==> v == Str(name))
  {
    if |segs| > 1 {
      var steps := Enter(item, segs[0]).value;
      EnterExists(item, segs[0]);
      assert steps[0] == Key(segs[0].key);
    }
  }

  // Entering again after the reached value was replaced: a selector now finds the new value
  // exactly when that still has the selected name.
  lemma EnterAfterPut(root: Json, seg: Segment, item': Json)
    requires Enter(root, seg).Some? && At(root, Enter(root, seg).value).Some?
    ensures var root' := Put(root, Enter(root, seg).value, item');
            && (Enter(root', seg).Some? <==> (seg.selected.Some? ==> Named(item', seg.selected.value)))
            && (Enter(root', seg).Some? ==> At(root', Enter(root', seg).value) == Some(item'))
  {
    var steps := Enter(root, seg).value;
    var root' := Put(root, steps, item');
    if seg.selected.None? {
      assert steps[1..] == [] && Put(root.fields[seg.key], [], item') == item';
      assert root'.fields[seg.key] == item';
    } else {
      var items, i := root.fields[seg.key].items, steps[1].i;
      var step := [Index(i)];
      assert steps[1..] == step && step[1..] == [];
      assert Put(List(items), step, item') == List(items[i := Put(items[i], [], item')]);
      assert root'.fields[seg.key] == List(items[i := item']);
      FindOnlyUpdated(items, i, item', seg.selected.value);
    }
    if Enter(root', seg).Some? {
      EnterExists(root', seg);
    }
  }

  // Reading back a written path gives the written value, exactly unless the write
  // renames the list item the path selects.
  lemma {:induction false} GetAfterSet(root: Json, segs: seq<Segment>, v: Json)
    requires SetValue(root, segs, v).Some?
    ensures Get(SetValue(root, segs, v).value, segs) == Some(v)
        <==> (RenamesSelected(segs) ==> v == Str(segs[|segs| - 2].selected.value))
    decreases segs
  {
    var root' := SetValue(root, segs, v).value;
    GetUnfolds(root', segs);
    if |segs| == 1 {
      assert segs[1..] == [] && Enter(root', segs[0]).value[1..] == [];
    } else {
      EnterExists(root, segs[0]);
      var inner := At(root, Enter(root, segs[0]).value).value;
      var inner' := SetValue(inner, segs[1..], v).value;
      GetAfterSet(inner, segs[1..], v);
      EnterAfterPut(root, segs[0], inner');
      if segs[0].selected.Some? {
        SetKeepsName(inner, segs[1..], v, segs[0].selected.value);
      }
    }
  }

  // Writing one scalar leaves every other scalar path's value alone.
  lemma SetFrame(root: Json, p: seq<Segment>, v: Json, q: seq<Segment>)
    requires p != [] && Get(root, p).Some? && IsScalar(Get(root, p).value) && IsScalar(v)
    requires Get(root, q).Some? && IsScalar(Get(root, q).value)
    requires p != q && !RenamesSelected(p)
    ensures SetValue(root, p, v).Some? && Get(SetValue(root, p, v).value, q) == Get(root, q)
  {
    var l, m := Resolve(root, p).value, Resolve(root, q).value;
    ScalarTargetPlain(root, p);
    SetIsPut(root, p, v);
    RenamesIsNameOfItem(root, p);
    ResolveStable(root, l, v, q);
    if l == m {
      ResolveInjective(root, p, q);
    }
    ScalarsApart(root, l, m);
    PutApart(root, l, v, m);
  }
}
