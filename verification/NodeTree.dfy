/**
 * The YAML node tree: positions in the source text beside the values the loader
 * constructs, and the node walk that runs in parallel with the object walk.
 */
module NodeTree {
  import opened Json
  import opened FieldPath
  import opened Location
  import opened ObjectPath

  // `value` is what the loader constructs for the scalar; `text` is its raw content.
  datatype Node =
    | Scalar(start: nat, end: nat, text: string, style: Option<char>, value: Json)
    | Mapping(start: nat, end: nat, entries: seq<Entry>)
    | Sequence(start: nat, end: nat, items: seq<Node>)

  datatype Entry = Entry(key: Node, value: Node)

  // ----- the constructed document -----

  function Construct(n: Node): Json
    decreases n, 1
  {
    match n
    case Scalar(_, _, _, _, value) => value
    case Mapping(_, _, entries) => Obj(ConstructEntries(entries))
    case Sequence(_, _, items) => List(ConstructItems(items))
  }

  function ConstructEntry(e: Entry): Json
    decreases e, 0
  {
    Construct(e.value)
  }

  // Later entries win, as in the loader.
  function ConstructEntries(entries: seq<Entry>): map<string, Json>
    decreases entries, 0
  {
    if entries == [] then map[]
    else
      var more := ConstructEntries(entries[1..]);
      var e := entries[0];
      if e.key.Scalar? && e.key.value.Str? && e.key.value.s !in more
      then more[e.key.value.s := ConstructEntry(entries[0])]
      else more
  }

  function ConstructItems(items: seq<Node>): (js: seq<Json>)
    ensures |js| == |items|
    decreases items, 0
  {
    if items == [] then [] else [Construct(items[0])] + ConstructItems(items[1..])
  }

  lemma {:induction false} ConstructItemAt(items: seq<Node>, i: nat)
    requires i < |items|
    ensures ConstructItems(items)[i] == Construct(items[i])
  {
    if i > 0 {
      ConstructItemAt(items[1..], i - 1);
    }
  }

  // ----- the node walk -----

  // mapping_value: the first entry with this key.
  function Lookup(entries: seq<Entry>, key: string): (i: Option<nat>)
    ensures i.Some? ==> i.value < |entries| && entries[i.value].key.Scalar? && entries[i.value].key.text == key
    ensures i.Some? ==> forall k :: 0 <= k < i.value ==> !(entries[k].key.Scalar? && entries[k].key.text == key)
    ensures i.None? ==> forall k :: 0 <= k < |entries| ==> !(entries[k].key.Scalar? && entries[k].key.text == key)
  {
    if entries == [] then None
    else if entries[0].key.Scalar? && entries[0].key.text == key then Some(0)
    else
      var more := Lookup(entries[1..], key);
      if more.None? then None else Some(more.value + 1)
  }

  function NodeChild(n: Node, s: Step): Option<Node> {
    match (n, s)
    case (Mapping(_, _, entries), Key(k)) =>
      var i := Lookup(entries, k);
      if i.None? then None else Some(entries[i.value].value)
    case (Sequence(_, _, items), Index(i)) => if i < |items| then Some(items[i]) else None
    case _ => None
  }

  function NodeAt(n: Node, l: Loc): Option<Node>
    decreases l
  {
    if l == [] then Some(n)
    else
      var c := NodeChild(n, l[0]);
      if c.None? then None else NodeAt(c.value, l[1..])
  }

  predicate NodeNamed(item: Node, name: string) {
    item.Mapping? &&
    var found := NodeChild(item, Key(NAME));
    found.Some? && found.value.Scalar? && found.value.text == name
  }

  predicate OnlyNodeNamed(items: seq<Node>, name: string, i: nat) {
    i < |items| && NodeNamed(items[i], name) && forall k :: 0 <= k < |items| && k != i ==> !NodeNamed(items[k], name)
  }

  function NodeSelected(items: seq<Node>, name: string): seq<nat> {
    if items == [] then []
    else
      var last := |items| - 1;
      NodeSelected(items[..last], name) + if NodeNamed(items[last], name) then [last] else []
  }

  lemma {:induction false} NodeSelectedSpec(items: seq<Node>, name: string)
    ensures forall i :: i in NodeSelected(items, name) <==> 0 <= i < |items| && NodeNamed(items[i], name)
    ensures forall a, b :: 0 <= a < b < |NodeSelected(items, name)| ==> NodeSelected(items, name)[a] != NodeSelected(items, name)[b]
  {
    if items != [] {
      var last := |items| - 1;
      var front := NodeSelected(items[..last], name);
      NodeSelectedSpec(items[..last], name);
      assert forall a :: 0 <= a < |front| ==> front[a] in front;
      assert forall i :: 0 <= i < last ==> items[..last][i] == items[i];
    }
  }

  function FindOnlyNode(items: seq<Node>, name: string): (r: Option<nat>)
    ensures r.Some? ==> OnlyNodeNamed(items, name, r.value)
    ensures r.None? ==> forall i :: !OnlyNodeNamed(items, name, i)
  {
    var hits := NodeSelected(items, name);
    OnlyNodeHit(items, name);
    if |hits| == 1 then Some(hits[0]) else None
  }

  lemma OnlyNodeHit(items: seq<Node>, name: string)
    ensures var hits := NodeSelected(items, name);
            if |hits| == 1 then OnlyNodeNamed(items, name, hits[0]) else forall i :: !OnlyNodeNamed(items, name, i)
  {
    var hits := NodeSelected(items, name);
    NodeSelectedSpec(items, name);
    if |hits| == 1 {
      assert hits[0] in hits;
    } else if hits != [] {
      assert hits[0] in hits && hits[1] in hits && hits[0] != hits[1];
    }
  }

  function NodeEnter(current: Node, seg: Segment): Option<Loc> {
    var value := NodeChild(current, Key(seg.key));
    if !current.Mapping? || value.None? then None
    else if seg.selected.None? then Some([Key(seg.key)])
    else if !value.value.Sequence? then None
    else
      var hit := FindOnlyNode(value.value.items, seg.selected.value);
      if hit.None? then None else Some([Key(seg.key), Index(hit.value)])
  }

  lemma NodeEnterExists(current: Node, seg: Segment)
    requires NodeEnter(current, seg).Some?
    ensures NodeAt(current, NodeEnter(current, seg).value).Some?
    ensures var value := NodeChild(current, Key(seg.key)).value;
            NodeAt(current, NodeEnter(current, seg).value).value ==
              if seg.selected.None? then value
              else value.items[FindOnlyNode(value.items, seg.selected.value).value]
  {
    var steps := NodeEnter(current, seg).value;
    if seg.selected.Some? {
      var value := NodeChild(current, Key(seg.key)).value;
      assert steps[1..] == [steps[1]] && [steps[1]][1..] == [];
      assert NodeAt(value, [steps[1]]) == NodeAt(value.items[steps[1].i], []);
    } else {
      assert steps[1..] == [];
    }
  }

  // node_value_at
  function NodeValueAt(root: Node, segs: seq<Segment>): Option<Node>
    decreases segs
  {
    if segs == [] then Some(root)
    else
      var steps := NodeEnter(root, segs[0]);
      if steps.None? then None
      else
        NodeEnterExists(root, segs[0]);
        NodeValueAt(NodeAt(root, steps.value).value, segs[1..])
  }

  method WalkNodes(root: Node, segs: seq<Segment>) returns (node: Option<Node>)
    ensures node == NodeValueAt(root, segs)
  {
    var current := root;
    assert segs[0..] == segs;
    for i := 0 to |segs|
      invariant NodeValueAt(root, segs) == NodeValueAt(current, segs[i..])
    {
      var seg := segs[i];
      assert segs[i..][0] == seg && segs[i..][1..] == segs[i + 1..];
      if NodeEnter(current, seg).Some? {
        NodeEnterExists(current, seg);
      }
      if !current.Mapping? {
        return None;
      }
      var value := NodeChild(current, Key(seg.key));
      if value.None? {
        return None;
      }
      current := value.value;
      if seg.selected.Some? {
        if !current.Sequence? {
          return None;
        }
        var matches := NodeSelected(current.items, seg.selected.value);
        OnlyNodeHit(current.items, seg.selected.value);
        if |matches| != 1 {
          return None;
        }
        current := current.items[matches[0]];
      }
    }
    node := Some(current);
  }

  // ----- documents on which both walks agree -----

  // Keys are distinct scalars loaded as the strings they are written as.
  predicate StringKeys(entries: seq<Entry>) {
    (forall i :: 0 <= i < |entries| ==> entries[i].key.Scalar? && entries[i].key.value == Str(entries[i].key.text)) &&
    forall i, j :: 0 <= i < j < |entries| ==> entries[i].key.text != entries[j].key.text
  }

  // A list item's scalar `name` is loaded as the string it is written as.
  predicate StringName(item: Node) {
    item.Mapping? ==>
      var found := NodeChild(item, Key(NAME));
      found.Some? && found.value.Scalar? ==> found.value.value == Str(found.value.text)
  }

  predicate Plain(n: Node) {
    match n
    case Scalar(_, _, _, _, value) => IsScalar(value)
    case Mapping(_, _, entries) => StringKeys(entries) && forall i :: 0 <= i < |entries| ==> Plain(entries[i].value)
    case Sequence(_, _, items) => forall i :: 0 <= i < |items| ==> Plain(items[i]) && StringName(items[i])
  }

  lemma {:induction false} ConstructedEntry(entries: seq<Entry>, key: string)
    requires StringKeys(entries)
    ensures key in ConstructEntries(entries) <==> Lookup(entries, key).Some?
    ensures key in ConstructEntries(entries) ==>
              ConstructEntries(entries)[key] == Construct(entries[Lookup(entries, key).value].value)
  {
    if entries != [] {
      ConstructedEntry(entries[1..], key);
      ConstructedEntry(entries[1..], entries[0].key.text);
    }
  }

  // Both walks see the same children.
  lemma ChildOfConstruct(n: Node, s: Step)
    requires Plain(n)
    ensures NodeChild(n, s).Some? <==> Child(Construct(n), s).Some?
    ensures NodeChild(n, s).Some? ==> Child(Construct(n), s).value == Construct(NodeChild(n, s).value) && Plain(NodeChild(n, s).value)
  {
    match (n, s)
    case (Mapping(_, _, entries), Key(k)) => ConstructedEntry(entries, k);
    case (Sequence(_, _, items), Index(i)) =>
      if i < |items| {
        ConstructItemAt(items, i);
      }
    case _ =>
  }

  lemma {:induction false} AtOfConstruct(n: Node, l: Loc)
    requires Plain(n)
    ensures NodeAt(n, l).Some? <==> At(Construct(n), l).Some?
    ensures NodeAt(n, l).Some? ==> At(Construct(n), l).value == Construct(NodeAt(n, l).value) && Plain(NodeAt(n, l).value)
    decreases l
  {
    if l != [] {
      ChildOfConstruct(n, l[0]);
      if NodeChild(n, l[0]).Some? {
        AtOfConstruct(NodeChild(n, l[0]).value, l[1..]);
      }
    }
  }

  lemma NamedOfConstruct(item: Node, name: string)
    requires Plain(item) && StringName(item)
    ensures NodeNamed(item, name) <==> Named(Construct(item), name)
  {
    if item.Mapping? {
      ChildOfConstruct(item, Key(NAME));
    }
  }

  lemma FindOnlyOfConstruct(items: seq<Node>, name: string)
    requires forall i :: 0 <= i < |items| ==> Plain(items[i]) && StringName(items[i])
    ensures FindOnlyNode(items, name) == FindOnly(ConstructItems(items), name)
  {
    var js := ConstructItems(items);
    forall i | 0 <= i < |items|
      ensures NodeNamed(items[i], name) <==> Named(js[i], name)
    {
      ConstructItemAt(items, i);
      NamedOfConstruct(items[i], name);
    }
    assert forall i :: OnlyNodeNamed(items, name, i) <==> OnlyNamed(js, name, i);
  }

  lemma EnterOfConstruct(n: Node, seg: Segment)
    requires Plain(n)
    ensures NodeEnter(n, seg) == Enter(Construct(n), seg)
  {
    ChildOfConstruct(n, Key(seg.key));
    var value := NodeChild(n, Key(seg.key));
    if value.Some? && value.value.Sequence? && seg.selected.Some? {
      FindOnlyOfConstruct(value.value.items, seg.selected.value);
    }
  }

  // The node walk succeeds exactly when the object walk does, and ends at the node of
  // the same location.
  lemma {:induction false} WalksAgree(n: Node, segs: seq<Segment>)
    requires Plain(n)
    ensures NodeValueAt(n, segs).Some? <==> Resolve(Construct(n), segs).Some?
    ensures NodeValueAt(n, segs).Some? ==> NodeValueAt(n, segs) == NodeAt(n, Resolve(Construct(n), segs).value)
    decreases segs
  {
    if segs != [] {
      EnterOfConstruct(n, segs[0]);
      var steps := NodeEnter(n, segs[0]);
      if steps.Some? {
        NodeEnterExists(n, segs[0]);
        AtOfConstruct(n, steps.value);
        WalksAgree(NodeAt(n, steps.value).value, segs[1..]);
        var more := Resolve(At(Construct(n), steps.value).value, segs[1..]);
        if more.Some? {
          NodeAtConcat(n, steps.value, more.value);
        }
      }
    }
  }

  lemma {:induction false} NodeAtConcat(n: Node, a: Loc, b: Loc)
    requires NodeAt(n, a).Some?
    ensures NodeAt(n, a + b) == NodeAt(NodeAt(n, a).value, b)
    decreases a
  {
    if a == [] {
      assert a + b == b;
    } else {
      assert (a + b)[0] == a[0] && (a + b)[1..] == a[1..] + b;
      NodeAtConcat(NodeChild(n, a[0]).value, a[1..], b);
    }
  }

  // The node selected by a path constructs to the value the object walk reads.
  lemma WalkSimulates(n: Node, segs: seq<Segment>)
    requires Plain(n)
    ensures NodeValueAt(n, segs).Some? <==> Get(Construct(n), segs).Some?
    ensures NodeValueAt(n, segs).Some? ==> Get(Construct(n), segs) == Some(Construct(NodeValueAt(n, segs).value))
  {
    WalksAgree(n, segs);
    var l := Resolve(Construct(n), segs);
    if l.Some? {
      AtOfConstruct(n, l.value);
    }
  }

  // ----- spans -----

  // Children lie inside their parent, in the order they are written; a key, a dash or a comma
  // stands between two of them.
  predicate WellSpanned(n: Node) {
    n.start <= n.end &&
    match n
    case Scalar(_, _, _, _, _) => true
    case Mapping(_, _, entries) =>
      && (forall i :: 0 <= i < |entries| ==>
            && WellSpanned(entries[i].value)
            && n.start <= entries[i].value.start && entries[i].value.end <= n.end)
      && (forall i, j :: 0 <= i < j < |entries| ==> entries[i].value.end < entries[j].value.start)
    case Sequence(_, _, items) =>
      && (forall i :: 0 <= i < |items| ==> WellSpanned(items[i]) && n.start <= items[i].start && items[i].end <= n.end)
      && (forall i, j :: 0 <= i < j < |items| ==> items[i].end < items[j].start)
  }

  lemma {:induction false} SpanInside(n: Node, l: Loc)
    requires WellSpanned(n) && NodeAt(n, l).Some?
    ensures n.start <= NodeAt(n, l).value.start <= NodeAt(n, l).value.end <= n.end
    ensures WellSpanned(NodeAt(n, l).value)
    decreases l
  {
    if l != [] {
      var c := NodeChild(n, l[0]).value;
      assert WellSpanned(c) && n.start <= c.start && c.end <= n.end;
      SpanInside(c, l[1..]);
    }
  }

  predicate SpansDisjoint(a: Node, b: Node) {
    a.end < b.start || b.end < a.start
  }

  lemma ChildrenDisjoint(n: Node, s: Step, t: Step)
    requires WellSpanned(n) && s != t && NodeChild(n, s).Some? && NodeChild(n, t).Some?
    ensures SpansDisjoint(NodeChild(n, s).value, NodeChild(n, t).value)
  {
  }

  // Locations apart from each other have disjoint spans.
  lemma {:induction false} ApartSpans(n: Node, a: Loc, b: Loc)
    requires WellSpanned(n) && NodeAt(n, a).Some? && NodeAt(n, b).Some? && Apart(a, b)
    ensures SpansDisjoint(NodeAt(n, a).value, NodeAt(n, b).value)
    decreases a
  {
    var s, t := NodeChild(n, a[0]).value, NodeChild(n, b[0]).value;
    assert WellSpanned(s) && WellSpanned(t);
    if a[0] == b[0] {
      assert a == [a[0]] + a[1..] && b == [b[0]] + b[1..];
      ApartSpans(s, a[1..], b[1..]);
    } else {
      ChildrenDisjoint(n, a[0], b[0]);
      SpanInside(s, a[1..]);
      SpanInside(t, b[1..]);
    }
  }

  // Different paths to scalars select different leaves, with disjoint spans.
  lemma ScalarSpansDisjoint(n: Node, p: seq<Segment>, q: seq<Segment>)
    requires Plain(n) && WellSpanned(n) && p != q
    requires NodeValueAt(n, p).Some? && NodeValueAt(n, p).value.Scalar?
    requires NodeValueAt(n, q).Some? && NodeValueAt(n, q).value.Scalar?
    ensures SpansDisjoint(NodeValueAt(n, p).value, NodeValueAt(n, q).value)
  {
    var root := Construct(n);
    WalksAgree(n, p);
    WalksAgree(n, q);
    var a, b := Resolve(root, p).value, Resolve(root, q).value;
    AtOfConstruct(n, a);
    AtOfConstruct(n, b);
    if a == b {
      ResolveInjective(root, p, q);
    }
    ScalarsApart(root, a, b);
    ApartSpans(n, a, b);
  }

  // ----- names that are not text -----

  // The entry the loader keeps for a key: the last one whose key loads as that text.
  function LastLoaded(entries: seq<Entry>, key: string): (i: Option<nat>)
    ensures i.Some? ==> i.value < |entries| && LoadsKey(entries[i.value], key)
    ensures i.None? ==> forall k :: 0 <= k < |entries| ==> !LoadsKey(entries[k], key)
  {
    if entries == [] then None
    else
      var more := LastLoaded(entries[1..], key);
      if more.Some? then Some(more.value + 1) else if LoadsKey(entries[0], key) then Some(0) else None
  }

  predicate LoadsKey(e: Entry, key: string) {
    e.key.Scalar? && e.key.value == Str(key)
  }

  lemma {:induction false} LoadedEntry(entries: seq<Entry>, key: string)
    ensures key in ConstructEntries(entries) <==> LastLoaded(entries, key).Some?
    ensures key in ConstructEntries(entries) ==>
              ConstructEntries(entries)[key] == Construct(entries[LastLoaded(entries, key).value].value)
  {
    if entries != [] {
      LoadedEntry(entries[1..], key);
    }
  }

  // The item's `name` loads as the text, whatever it is written as.
  predicate NameLoadsAs(item: Node, text: string) {
    && item.Mapping? && LastLoaded(item.entries, NAME).Some?
    && Construct(item.entries[LastLoaded(item.entries, NAME).value].value) == Str(text)
  }

  predicate OnlyNameLoadsAs(items: seq<Node>, text: string, i: nat) {
    i < |items| && NameLoadsAs(items[i], text) && forall k :: 0 <= k < |items| && k != i ==> !NameLoadsAs(items[k], text)
  }

  // The loader builds scalars from scalar nodes.
  predicate ScalarsLoad(items: seq<Node>) {
    forall i :: 0 <= i < |items| && items[i].Scalar? ==> IsScalar(items[i].value)
  }

  lemma NamedIffLoads(item: Node, text: string)
    requires item.Scalar? ==> IsScalar(item.value)
    ensures Named(Construct(item), text) <==> NameLoadsAs(item, text)
  {
    if item.Mapping? {
      LoadedEntry(item.entries, NAME);
    }
  }

  lemma OnlyNamedIffLoads(items: seq<Node>, text: string, i: nat)
    requires ScalarsLoad(items)
    ensures OnlyNamed(ConstructItems(items), text, i) <==> OnlyNameLoadsAs(items, text, i)
  {
    forall k | 0 <= k < |items|
      ensures Named(ConstructItems(items)[k], text) <==> NameLoadsAs(items[k], text)
    {
      ConstructItemAt(items, k);
      NamedIffLoads(items[k], text);
    }
  }

  // For any list and any selector: both walks single out the same item, or neither singles one
  // out, exactly when being the only item written with that name and being the only item loaded
  // with it coincide.
  lemma SelectionsAgreeIff(items: seq<Node>, text: string)
    requires ScalarsLoad(items)
    ensures FindOnlyNode(items, text) == FindOnly(ConstructItems(items), text) <==>
            forall i :: OnlyNodeNamed(items, text, i) <==> OnlyNameLoadsAs(items, text, i)
  {
    forall i: nat
      ensures OnlyNamed(ConstructItems(items), text, i) <==> OnlyNameLoadsAs(items, text, i)
    {
      OnlyNamedIffLoads(items, text, i);
    }
    var written, loaded := FindOnlyNode(items, text), FindOnly(ConstructItems(items), text);
    if forall i :: OnlyNodeNamed(items, text, i) <==> OnlyNameLoadsAs(items, text, i) {
      if written.Some? {
        assert OnlyNameLoadsAs(items, text, written.value);
        assert OnlyNamed(ConstructItems(items), text, written.value);
      }
    } else {
      var i: nat :| OnlyNodeNamed(items, text, i) != OnlyNameLoadsAs(items, text, i);
      assert written == Some(i) || loaded == Some(i);
    }
  }

  // Hence for a selecting segment at any mapping with string keys.
  lemma SelectorsAgreeIff(n: Node, key: string, text: string)
    requires n.Mapping? && StringKeys(n.entries) && Lookup(n.entries, key).Some?
    requires var list := n.entries[Lookup(n.entries, key).value].value; list.Sequence? && ScalarsLoad(list.items)
    ensures var items, seg := n.entries[Lookup(n.entries, key).value].value.items, Segment(key, Some(text));
            NodeEnter(n, seg) == Enter(Construct(n), seg) <==>
            forall i :: OnlyNodeNamed(items, text, i) <==> OnlyNameLoadsAs(items, text, i)
  {
    ConstructedEntry(n.entries, key);
    SelectionsAgreeIff(n.entries[Lookup(n.entries, key).value].value.items, text);
  }

  function Text(s: string): Node {
    Scalar(0, 0, s, None, Str(s))
  }

  // A list of one item whose `name` reads as the given text and loads as the given value.
  function OneItem(text: string, value: Json): Node {
    Mapping(0, 0, [Entry(Text("x"), Sequence(0, 0, [Mapping(0, 0, [Entry(Text(NAME), Scalar(0, 0, text, None, value))])]))])
  }

  // The condition can fail: for a `name` that loads as anything but its own text, such as a
  // number, the node walk enters the item and the object walk does not.
  lemma NumericNameDiffers(text: string, value: Json)
    requires IsScalar(value) && value != Str(text)
    ensures NodeEnter(OneItem(text, value), Segment("x", Some(text))).Some?
    ensures Enter(Construct(OneItem(text, value)), Segment("x", Some(text))).None?
  {
    var n := OneItem(text, value);
    var items := n.entries[0].value.items;
    assert Lookup(n.entries, "x") == Some(0) && Lookup(items[0].entries, NAME) == Some(0);
    assert OnlyNodeNamed(items, text, 0);
    assert LastLoaded(items[0].entries, NAME) == Some(0);
    assert forall i :: !OnlyNameLoadsAs(items, text, i);
    ConstructedEntry(n.entries, "x");
    forall i: nat
      ensures !OnlyNamed(ConstructItems(items), text, i)
    {
      OnlyNamedIffLoads(items, text, i);
    }
  }
}
