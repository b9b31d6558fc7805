/**
 * JSON Patch (section 4 of RFC 6902) with pointers (section 4 of RFC 6901), and which pointers
 * can change the value that a field path reads.
 */
module JsonPatch {
  import opened Json
  import opened FieldPath
  import opened ObjectPath
  import PatchPlan

  // ----- pointers as token lists -----

  predicate SlashFree(s: string) {
    '/' !in s
  }

  predicate AllSlashFree(tokens: seq<string>) {
    forall t :: t in tokens ==> SlashFree(t)
  }

  // "/a/b" for ["a", "b"]
  function Slashed(tokens: seq<string>): string {
    if tokens == [] then "" else "/" + tokens[0] + Slashed(tokens[1..])
  }

  function TakeToken(s: string): (n: nat)
    ensures n <= |s| && SlashFree(s[..n]) && (n < |s| ==> s[n] == '/')
  {
    if s == "" || s[0] == '/' then 0 else 1 + TakeToken(s[1..])
  }

  // The raw tokens of a pointer; only the empty text and text with a leading slash are pointers.
  function RawTokens(pointer: string): (tokens: Option<seq<string>>)
    ensures tokens.Some? ==> Slashed(tokens.value) == pointer && AllSlashFree(tokens.value)
    decreases |pointer|
  {
    if pointer == "" then Some([])
    else if pointer[0] != '/' then None
    else
      var rest := pointer[1..];
      var n := TakeToken(rest);
      var more := RawTokens(rest[n..]);
      if more.None? then None
      else
        assert pointer == "/" + rest[..n] + rest[n..];
        Some([rest[..n]] + more.value)
  }

  lemma {:induction false} PointerParses(pointer: string)
    requires pointer != "" ==> pointer[0] == '/'
    ensures RawTokens(pointer).Some?
    decreases |pointer|
  {
    if pointer != "" {
      var rest := pointer[1..];
      PointerParses(rest[TakeToken(rest)..]);
    }
  }

  // A token ends exactly where its slash begins.
  lemma TokenPrefix(a: string, x: string, b: string, y: string)
    requires SlashFree(a) && SlashFree(b) && x != "" && x[0] == '/' && y != "" && y[0] == '/'
    requires a + x <= b + y
    ensures a == b && x <= y
  {
    var n := if |a| < |b| then |a| else |b|;
    var c, d := (a + x)[n], (b + y)[n];
    assert c == d;
    assert (n < |a| ==> c in a) && (n == |a| ==> c == x[0]);
    assert (n < |b| ==> d in b) && (n == |b| ==> d == y[0]);
    assert |a| == |b|;
    assert a == (a + x)[..|a|] == (b + y)[..|a|] == b;
    assert x == (a + x)[|a|..] && y == (b + y)[|a|..];
  }

  lemma SlashedUnfold(tokens: seq<string>)
    requires tokens != []
    ensures Slashed(tokens) + "/" == "/" + (tokens[0] + (Slashed(tokens[1..]) + "/"))
  {
  }

  lemma LeadingSlash(x: string, y: string)
    ensures "/" + x <= "/" + y <==> x <= y
  {
    assert ("/" + x)[1..] == x && ("/" + y)[1..] == y;
  }

  lemma SlashedStarts(tokens: seq<string>)
    ensures (Slashed(tokens) + "/")[0] == '/'
  {
  }

  lemma TokensPrefix(a: seq<string>, b: seq<string>)
    requires a != [] && b != []
    ensures a <= b <==> a[0] == b[0] && a[1..] <= b[1..]
  {
  }

  // On slash-terminated texts, being a prefix is being a prefix token by token.
  lemma {:induction false} SlashedPrefix(a: seq<string>, b: seq<string>)
    requires AllSlashFree(a) && AllSlashFree(b)
    ensures Slashed(a) + "/" <= Slashed(b) + "/" <==> a <= b
    decreases a
  {
    if a == [] {
      SlashedStarts(b);
    } else if b == [] {
      assert |Slashed(a)| > 0;
    } else {
      var x, y := Slashed(a[1..]) + "/", Slashed(b[1..]) + "/";
      assert a[0] in a && b[0] in b;
      SlashedPrefix(a[1..], b[1..]);
      SlashedUnfold(a);
      SlashedUnfold(b);
      SlashedStarts(a[1..]);
      SlashedStarts(b[1..]);
      LeadingSlash(a[0] + x, b[0] + y);
      TokensPrefix(a, b);
      if a[0] + x <= b[0] + y {
        TokenPrefix(a[0], x, b[0], y);
      }
    }
  }

  lemma SlashedInjective(a: seq<string>, b: seq<string>)
    requires AllSlashFree(a) && AllSlashFree(b) && Slashed(a) == Slashed(b)
    ensures a == b
  {
    SlashedPrefix(a, b);
    SlashedPrefix(b, a);
  }

  lemma SlashedHead(tokens: seq<string>)
    ensures Slashed(tokens) != "" ==> Slashed(tokens)[0] == '/'
  {
  }

  // Splitting a pointer text recovers its tokens.
  lemma TokensOfSlashed(tokens: seq<string>)
    requires AllSlashFree(tokens)
    ensures RawTokens(Slashed(tokens)) == Some(tokens)
  {
    SlashedHead(tokens);
    PointerParses(Slashed(tokens));
    SlashedInjective(RawTokens(Slashed(tokens)).value, tokens);
  }

  // ----- pointer evaluation -----

  // `~1` stands for a slash and `~0` for a tilde; any other use of `~` is an error.
  function Unescape(token: string): Option<string> {
    if token == "" then Some("")
    else if token[0] != '~' then
      var more := Unescape(token[1..]);
      if more.None? then None else Some([token[0]] + more.value)
    else if |token| >= 2 && (token[1] == '0' || token[1] == '1') then
      var more := Unescape(token[2..]);
      if more.None? then None else Some([if token[1] == '0' then '~' else '/'] + more.value)
    else None
  }

  // A token that denotes a plain key is written without escapes.
  lemma {:induction false} PlainKeyUnescaped(token: string)
    requires Unescape(token).Some? && '~' !in Unescape(token).value && '/' !in Unescape(token).value
    ensures Unescape(token).value == token
  {
    if token != "" {
      var text := Unescape(token).value;
      assert text[0] in text;
      if token[0] != '~' {
        assert text[1..] == Unescape(token[1..]).value;
        assert forall c :: c in text[1..] ==> c in text;
        PlainKeyUnescaped(token[1..]);
      }
    }
  }

  function UnescapeAll(raw: seq<string>): (tokens: Option<seq<string>>)
    ensures tokens.Some? ==> |tokens.value| == |raw| && forall i :: 0 <= i < |raw| ==> Unescape(raw[i]) == Some(tokens.value[i])
  {
    if raw == [] then Some([])
    else
      var first, more := Unescape(raw[0]), UnescapeAll(raw[1..]);
      if first.None? || more.None? then None else Some([first.value] + more.value)
  }

  function Pointer(text: string): Option<seq<string>> {
    var raw := RawTokens(text);
    if raw.None? then None else UnescapeAll(raw.value)
  }

  function ArrayIndex(token: string): Option<nat> {
    if |token| > 1 && token[0] == '0' then None else PatchPlan.DigitsValue(token)
  }

  function Step(doc: Json, token: string): Option<Json> {
    match doc
    case Obj(m) => if token in m then Some(m[token]) else None
    case List(xs) =>
      var i := ArrayIndex(token);
      if i.Some? && i.value < |xs| then Some(xs[i.value]) else None
    case _ => None
  }

  function LookupAt(doc: Json, tokens: seq<string>): Option<Json>
    decreases tokens
  {
    if tokens == [] then Some(doc)
    else
      var c := Step(doc, tokens[0]);
      if c.None? then None else LookupAt(c.value, tokens[1..])
  }

  // ----- patch operations -----

  datatype Leaf = Add(v: Json) | Remove | Replace(v: Json)

  function EditLeaf(doc: Json, token: string, leaf: Leaf): Option<Json> {
    match doc
    case Obj(m) =>
      if leaf.Add? then Some(Obj(m[token := leaf.v]))
      else if token !in m then None
      else if leaf.Remove? then Some(Obj(m - {token}))
      else Some(Obj(m[token := leaf.v]))
    case List(xs) =>
      if leaf.Add? && token == "-" then Some(List(xs + [leaf.v]))
      else
        var i := ArrayIndex(token);
        if i.None? || i.value > |xs| || (i.value == |xs| && !leaf.Add?) then None
        else if leaf.Add? then Some(List(xs[..i.value] + [leaf.v] + xs[i.value..]))
        else if leaf.Remove? then Some(List(xs[..i.value] + xs[i.value + 1..]))
        else Some(List(xs[i.value := leaf.v]))
    case _ => None
  }

  function EditAt(doc: Json, tokens: seq<string>, leaf: Leaf): Option<Json>
    decreases tokens
  {
    if tokens == [] then if leaf.Remove? then None else Some(leaf.v)
    else if |tokens| == 1 then EditLeaf(doc, tokens[0], leaf)
    else
      var child := Step(doc, tokens[0]);
      if child.None? then None
      else
        var edited := EditAt(child.value, tokens[1..], leaf);
        if edited.None? then None
        else match doc
          case Obj(m) => Some(Obj(m[tokens[0] := edited.value]))
          case List(xs) => Some(List(xs[ArrayIndex(tokens[0]).value := edited.value]))
  }

  datatype Op =
    | OpAdd(path: string, value: Json)
    | OpRemove(path: string)
    | OpReplace(path: string, value: Json)
    | OpMove(from: string, path: string)
    | OpCopy(from: string, path: string)
    | OpTest(path: string, value: Json)

  function EditText(doc: Json, path: string, leaf: Leaf): Option<Json> {
    var tokens := Pointer(path);
    if tokens.None? then None else EditAt(doc, tokens.value, leaf)
  }

  function LookupText(doc: Json, path: string): Option<Json> {
    var tokens := Pointer(path);
    if tokens.None? then None else LookupAt(doc, tokens.value)
  }

  function ApplyOp(doc: Json, op: Op): Option<Json> {
    match op
    case OpAdd(path, v) => EditText(doc, path, Add(v))
    case OpRemove(path) => EditText(doc, path, Remove)
    case OpReplace(path, v) => if LookupText(doc, path).None? then None else EditText(doc, path, Replace(v))
    case OpMove(from, path) =>
      var v, removed := LookupText(doc, from), EditText(doc, from, Remove);
      if v.None? || removed.None? then None else EditText(removed.value, path, Add(v.value))
    case OpCopy(from, path) =>
      var v := LookupText(doc, from);
      if v.None? then None else EditText(doc, path, Add(v.value))
    case OpTest(path, v) =>
      var found := LookupText(doc, path);
      if found.Some? && PyEq(found.value, v) then Some(doc) else None
  }

  function TextEntry(item: Json, key: string): Option<string> {
    if item.Obj? && key in item.fields && item.fields[key].Str? then Some(item.fields[key].s) else None
  }

  // One element of a patch list; anything that is not a well-formed operation is an error.
  function Decode(item: Json): Option<Op> {
    var op, path, from := TextEntry(item, "op"), TextEntry(item, "path"), TextEntry(item, "from");
    if op.None? || path.None? then None
    else if op.value == "remove" then Some(OpRemove(path.value))
    else if op.value == "move" then if from.None? then None else Some(OpMove(from.value, path.value))
    else if op.value == "copy" then if from.None? then None else Some(OpCopy(from.value, path.value))
    else if "value" !in item.fields then None
    else if op.value == "add" then Some(OpAdd(path.value, item.fields["value"]))
    else if op.value == "replace" then Some(OpReplace(path.value, item.fields["value"]))
    else if op.value == "test" then Some(OpTest(path.value, item.fields["value"]))
    else None
  }

  // Operations run in order; the first error fails the whole patch.
  function ApplyPatch(doc: Json, items: seq<Json>): Option<Json> {
    if items == [] then Some(doc)
    else
      var before, op := ApplyPatch(doc, items[..|items| - 1]), Decode(items[|items| - 1]);
      if before.None? || op.None? then None else ApplyOp(before.value, op.value)
  }

  // ----- edits that leave a path alone -----

  // An edit at the pointer can change the value at the path: it is above, at or below it, or it
  // replaces, adds or removes an item of a list the path selects from, or renames one.
  predicate Touches(tokens: seq<string>, segs: seq<Segment>)
    decreases segs
  {
    tokens == [] || segs == [] ||
    (tokens[0] == segs[0].key &&
     if segs[0].selected.None? then Touches(tokens[1..], segs[1..])
     else if |tokens| == 1 then true
     else if ArrayIndex(tokens[1]).None? then tokens[1] == "-" && |tokens| == 2
     else if |tokens| > 2 && tokens[2] != NAME then Touches(tokens[2..], segs[1..])
     else |tokens| <= 3)
  }

  // Editing below an object's member.
  lemma EditMember(doc: Json, tokens: seq<string>, leaf: Leaf)
    requires doc.Obj? && |tokens| > 1 && EditAt(doc, tokens, leaf).Some?
    ensures tokens[0] in doc.fields && EditAt(doc.fields[tokens[0]], tokens[1..], leaf).Some?
    ensures EditAt(doc, tokens, leaf) == Some(Obj(doc.fields[tokens[0] := EditAt(doc.fields[tokens[0]], tokens[1..], leaf).value]))
  {
  }

  // Editing inside a list's item.
  lemma EditItem(list: Json, tokens: seq<string>, leaf: Leaf)
    requires |tokens| > 1 && list.List? && EditAt(list, tokens, leaf).Some?
    ensures ArrayIndex(tokens[0]).Some? && ArrayIndex(tokens[0]).value < |list.items|
    ensures var i := ArrayIndex(tokens[0]).value;
            && EditAt(list.items[i], tokens[1..], leaf).Some?
            && EditAt(list, tokens, leaf) == Some(List(list.items[i := EditAt(list.items[i], tokens[1..], leaf).value]))
  {
  }

  // An edit inside an item that is not at its name leaves the name alone.
  lemma EditKeepsName(item: Json, tokens: seq<string>, leaf: Leaf, name: string)
    requires tokens != [] && tokens != [NAME] && EditAt(item, tokens, leaf).Some?
    ensures Named(EditAt(item, tokens, leaf).value, name) <==> Named(item, name)
  {
    if |tokens| > 1 && item.Obj? {
      EditMember(item, tokens, leaf);
      EditKeepsKind(item.fields[tokens[0]], tokens[1..], leaf);
    } else if |tokens| == 1 {
      assert tokens == [tokens[0]];
    }
  }

  // Containers stay what they are when edited inside.
  lemma EditKeepsKind(doc: Json, tokens: seq<string>, leaf: Leaf)
    requires tokens != [] && EditAt(doc, tokens, leaf).Some?
    ensures var after := EditAt(doc, tokens, leaf).value;
            (doc.Obj? && after.Obj?) || (doc.List? && after.List?)
  {
  }

  lemma {:induction false} EditFrame(doc: Json, tokens: seq<string>, leaf: Leaf, segs: seq<Segment>)
    requires EditAt(doc, tokens, leaf).Some? && !Touches(tokens, segs)
    ensures Get(EditAt(doc, tokens, leaf).value, segs) == Get(doc, segs)
    decreases segs
  {
    var after := EditAt(doc, tokens, leaf).value;
    EditKeepsKind(doc, tokens, leaf);
    GetMember(doc, segs);
    GetMember(after, segs);
    if doc.Obj? && tokens[0] == segs[0].key {
      EditMember(doc, tokens, leaf);
      var below := doc.fields[tokens[0]];
      if segs[0].selected.None? {
        EditFrame(below, tokens[1..], leaf, segs[1..]);
      } else {
        EditKeepsKind(below, tokens[1..], leaf);
        if below.List? && |tokens| > 2 {
          ItemFrame(below, tokens[1..], leaf, segs);
        }
      }
    }
  }

  // What a path reads through its first key.
  function InMember(below: Json, segs: seq<Segment>): Option<Json>
    requires segs != []
  {
    if segs[0].selected.None? then Get(below, segs[1..])
    else if !below.List? then None
    else
      var hit := FindOnly(below.items, segs[0].selected.value);
      if hit.None? then None else Get(below.items[hit.value], segs[1..])
  }

  lemma GetMember(doc: Json, segs: seq<Segment>)
    requires segs != []
    ensures Get(doc, segs) == if !doc.Obj? || segs[0].key !in doc.fields then None else InMember(doc.fields[segs[0].key], segs)
  {
    GetUnfolds(doc, segs);
    if Enter(doc, segs[0]).Some? {
      EnterExists(doc, segs[0]);
    }
  }

  lemma {:induction false} ItemFrame(list: Json, tokens: seq<string>, leaf: Leaf, segs: seq<Segment>)
    requires list.List? && |tokens| > 1 && EditAt(list, tokens, leaf).Some? && EditAt(list, tokens, leaf).value.List?
    requires segs != [] && segs[0].selected.Some? && tokens[1..] != [NAME]
    requires tokens[1] != NAME ==> !Touches(tokens[1..], segs[1..])
    ensures InMember(EditAt(list, tokens, leaf).value, segs) == InMember(list, segs)
    decreases segs, 0
  {
    EditItem(list, tokens, leaf);
    var xs, i, name := list.items, ArrayIndex(tokens[0]).value, segs[0].selected.value;
    var item := EditAt(xs[i], tokens[1..], leaf).value;
    EditKeepsName(xs[i], tokens[1..], leaf, name);
    FindOnlyPointwise(xs, xs[i := item], name);
    if tokens[1] != NAME {
      EditFrame(xs[i], tokens[1..], leaf, segs[1..]);
    }
  }

  // ----- a touching edit can change the value -----

  // Some document holds the field: an item's name is text, so nothing lies below it.
  predicate Readable(segs: seq<Segment>) {
    segs != [] ==>
      && (segs[0].selected.Some? && |segs| > 1 && segs[1].key == NAME ==> |segs| == 2 && segs[1].selected.None?)
      && Readable(segs[1..])
  }

  function WithName(item: Json, name: string): Json
    requires item.Obj?
  {
    Obj(item.fields[NAME := Str(name)])
  }

  // A document that holds the path,
  function Holder(segs: seq<Segment>): (doc: Json)
    ensures doc.Obj?
  {
    if segs == [] then Obj(map[])
    else if segs[0].selected.None? then Obj(map[segs[0].key := Holder(segs[1..])])
    else Obj(map[segs[0].key := List([WithName(Holder(segs[1..]), segs[0].selected.value)])])
  }

  // a document that holds the pointer,
  function Nest(tokens: seq<string>): (doc: Json)
    ensures doc.Obj?
  {
    if tokens == [] then Obj(map[]) else Obj(map[tokens[0] := Nest(tokens[1..])])
  }

  function Padded(i: nat, item: Json): (items: seq<Json>)
    ensures |items| == i + 1 && items[i] == item && forall k :: 0 <= k < i ==> items[k] == Null
  {
    seq(i, _ => Null) + [item]
  }

  // and one that holds both, with the edit that changes the value at the path.
  function Witness(tokens: seq<string>, segs: seq<Segment>): (doc: Json)
    requires Touches(tokens, segs)
    ensures doc.Obj?
    decreases segs
  {
    if tokens == [] then Holder(segs)
    else if segs == [] then Nest(tokens)
    else if segs[0].selected.None? then Obj(map[segs[0].key := Witness(tokens[1..], segs[1..])])
    else if |tokens| == 1 || ArrayIndex(tokens[1]).None? then Holder(segs)
    else
      var item := if |tokens| == 2 || tokens[2] == NAME then Holder(segs[1..]) else Witness(tokens[2..], segs[1..]);
      Obj(map[segs[0].key := List(Padded(ArrayIndex(tokens[1]).value, WithName(item, segs[0].selected.value)))])
  }

  function Change(tokens: seq<string>, segs: seq<Segment>): (leaf: Leaf)
    requires Touches(tokens, segs)
    ensures !leaf.Remove?
    decreases segs
  {
    if tokens == [] || segs == [] then Replace(Null)
    else if segs[0].selected.None? then Change(tokens[1..], segs[1..])
    else if |tokens| == 2 && ArrayIndex(tokens[1]).None? then Add(WithName(Obj(map[]), segs[0].selected.value))
    else if |tokens| <= 2 || tokens[2] == NAME then Replace(Null)
    else Change(tokens[2..], segs[1..])
  }

  // The edit applies to the document and changes what it holds at the path.
  predicate Alters(doc: Json, tokens: seq<string>, leaf: Leaf, segs: seq<Segment>) {
    && Get(doc, segs).Some? && EditAt(doc, tokens, leaf).Some?
    && Get(EditAt(doc, tokens, leaf).value, segs) != Get(doc, segs)
  }

  lemma {:induction false} HolderHolds(segs: seq<Segment>)
    requires Readable(segs)
    ensures Get(Holder(segs), segs).Some?
  {
    if segs != [] {
      HolderHolds(segs[1..]);
      GetMember(Holder(segs), segs);
      if segs[0].selected.Some? {
        NamedHolds(Holder(segs[1..]), segs);
        OnlyItem(WithName(Holder(segs[1..]), segs[0].selected.value), 0, segs[0].selected.value);
        assert Padded(0, WithName(Holder(segs[1..]), segs[0].selected.value)) == [WithName(Holder(segs[1..]), segs[0].selected.value)];
      }
    }
  }

  // Naming an item does not hide the rest of the path.
  lemma {:induction false} NamedHolds(item: Json, segs: seq<Segment>)
    requires segs != [] && segs[0].selected.Some? && Readable(segs) && item.Obj? && Get(item, segs[1..]).Some?
    ensures var named := WithName(item, segs[0].selected.value);
            && Get(named, segs[1..]).Some?
            && (|segs| > 1 && segs[1].key != NAME ==> Get(named, segs[1..]) == Get(item, segs[1..]))
  {
    if |segs| > 1 {
      GetMember(item, segs[1..]);
      GetMember(WithName(item, segs[0].selected.value), segs[1..]);
      assert segs[1..][0] == segs[1];
      if segs[1].key == NAME {
        assert segs[1..][1..] == [];
      }
    }
  }

  lemma {:induction false} OnlyItem(item: Json, i: nat, name: string)
    requires Named(item, name)
    ensures FindOnly(Padded(i, item), name) == Some(i)
  {
    OnlyNamedUnique(Padded(i, item), name, i);
  }

  lemma {:induction false} NestAltered(tokens: seq<string>)
    ensures EditAt(Nest(tokens), tokens, Replace(Null)).Some?
    ensures EditAt(Nest(tokens), tokens, Replace(Null)).value != Nest(tokens)
  {
    if |tokens| > 1 {
      NestAltered(tokens[1..]);
    } else if |tokens| == 1 {
      assert tokens[1..] == [];
    }
  }

  lemma {:induction false} TouchAlters(tokens: seq<string>, segs: seq<Segment>)
    requires Touches(tokens, segs) && Readable(segs)
    ensures Alters(Witness(tokens, segs), tokens, Change(tokens, segs), segs)
    decreases segs
  {
    if tokens == [] {
      HolderHolds(segs);
      if segs != [] {
        GetMember(Null, segs);
      }
    } else if segs == [] {
      NestAltered(tokens);
    } else if segs[0].selected.None? {
      TouchAlters(tokens[1..], segs[1..]);
      MemberAlters(Witness(tokens[1..], segs[1..]), tokens, Change(tokens, segs), segs);
    } else if |tokens| == 1 {
      HolderHolds(segs);
      GetMember(EditAt(Holder(segs), tokens, Replace(Null)).value, segs);
    } else if ArrayIndex(tokens[1]).None? {
      AppendAlters(tokens, segs);
    } else {
      if |tokens| > 2 && tokens[2] != NAME {
        TouchAlters(tokens[2..], segs[1..]);
      }
      ItemAlters(tokens, segs);
    }
  }

  lemma {:induction false} HeldIsReadable(doc: Json, segs: seq<Segment>)
    requires Get(doc, segs).Some?
    ensures Readable(segs)
    decreases segs
  {
    if segs != [] {
      GetMember(doc, segs);
      var below := doc.fields[segs[0].key];
      if segs[0].selected.None? {
        HeldIsReadable(below, segs[1..]);
      } else {
        var item := below.items[FindOnly(below.items, segs[0].selected.value).value];
        HeldIsReadable(item, segs[1..]);
        if |segs| > 1 {
          GetMember(item, segs[1..]);
          assert segs[1..][0] == segs[1] && segs[1..][1..] == segs[2..];
          if segs[1].key == NAME && |segs| > 2 && segs[1].selected.None? {
            GetMember(item.fields[NAME], segs[2..]);
          }
        }
      }
    }
  }

  // An edit at the pointer can change the value at the path exactly if the pointer touches a path
  // that some document holds.
  lemma TouchesIff(tokens: seq<string>, segs: seq<Segment>)
    ensures Touches(tokens, segs) && Readable(segs) <==> exists doc, leaf :: Alters(doc, tokens, leaf, segs)
  {
    if Touches(tokens, segs) && Readable(segs) {
      TouchAlters(tokens, segs);
    }
    forall doc, leaf | Alters(doc, tokens, leaf, segs)
      ensures Touches(tokens, segs) && Readable(segs)
    {
      HeldIsReadable(doc, segs);
      if !Touches(tokens, segs) {
        EditFrame(doc, tokens, leaf, segs);
      }
    }
  }

  // An edit that alters a member's value alters the document.
  lemma {:induction false} MemberAlters(below: Json, tokens: seq<string>, leaf: Leaf, segs: seq<Segment>)
    requires tokens != [] && segs != [] && tokens[0] == segs[0].key && segs[0].selected.None?
    requires Alters(below, tokens[1..], leaf, segs[1..]) && (leaf.Remove? ==> |tokens| > 1)
    ensures Alters(Obj(map[segs[0].key := below]), tokens, leaf, segs)
  {
    var doc := Obj(map[segs[0].key := below]);
    if |tokens| == 1 {
      assert tokens[1..] == [];
    }
    GetMember(doc, segs);
    GetMember(EditAt(doc, tokens, leaf).value, segs);
  }

  // A second item of the selected name hides the first.
  lemma {:induction false} AppendAlters(tokens: seq<string>, segs: seq<Segment>)
    requires segs != [] && segs[0].selected.Some? && |tokens| == 2 && tokens[0] == segs[0].key && tokens[1] == "-" && Readable(segs)
    ensures Alters(Holder(segs), tokens, Add(WithName(Obj(map[]), segs[0].selected.value)), segs)
  {
    var name := segs[0].selected.value;
    var leaf := Add(WithName(Obj(map[]), name));
    HolderHolds(segs);
    var list := [WithName(Holder(segs[1..]), name)];
    var items := list + [leaf.v];
    assert tokens[1..] == ["-"] && EditAt(List(list), ["-"], leaf) == Some(List(items));
    assert Step(Holder(segs), tokens[0]) == Some(List(list));
    assert Named(items[0], name) && Named(items[1], name);
    GetMember(EditAt(Holder(segs), tokens, leaf).value, segs);
  }

  // The list of a witness document, with its one item at the index of the pointer.
  lemma {:induction false} ListAlters(item: Json, i: nat, token: string, tokens: seq<string>, leaf: Leaf, segs: seq<Segment>)
    requires segs != [] && segs[0].selected.Some? && ArrayIndex(token) == Some(i)
    requires Named(item, segs[0].selected.value) && Get(item, segs[1..]).Some?
    requires tokens == [] ==> leaf == Replace(Null)
    requires EditAt(item, tokens, leaf).Some?
    requires var after := EditAt(item, tokens, leaf).value;
             Named(after, segs[0].selected.value) ==> Get(after, segs[1..]) != Get(item, segs[1..])
    ensures Alters(Obj(map[segs[0].key := List(Padded(i, item))]), [segs[0].key, token] + tokens, leaf, segs)
  {
    var key, name, list, path := segs[0].key, segs[0].selected.value, Padded(i, item), [segs[0].key, token] + tokens;
    var doc, after := Obj(map[key := List(list)]), EditAt(item, tokens, leaf).value;
    assert path[1..] == [token] + tokens && path[1..][1..] == tokens;
    assert EditAt(List(list), path[1..], leaf) == Some(List(list[i := after]));
    assert Step(doc, key) == Some(List(list)) && EditAt(doc, path, leaf) == Some(Obj(doc.fields[key := List(list[i := after])]));
    OnlyItem(item, i, name);
    FindOnlyUpdated(list, i, after, name);
    GetMember(doc, segs);
    GetMember(EditAt(doc, path, leaf).value, segs);
  }

  // An edit at or inside the selected item, or of its name.
  lemma {:induction false} ItemAlters(tokens: seq<string>, segs: seq<Segment>)
    requires segs != [] && segs[0].selected.Some? && |tokens| >= 2 && ArrayIndex(tokens[1]).Some?
    requires Touches(tokens, segs) && Readable(segs)
    requires |tokens| > 2 && tokens[2] != NAME ==>
               Alters(Witness(tokens[2..], segs[1..]), tokens[2..], Change(tokens[2..], segs[1..]), segs[1..])
    ensures Alters(Witness(tokens, segs), tokens, Change(tokens, segs), segs)
  {
    var i, name, more := ArrayIndex(tokens[1]).value, segs[0].selected.value, tokens[2..];
    assert tokens == [segs[0].key, tokens[1]] + more;
    if |tokens| == 2 || tokens[2] == NAME {
      var item := Holder(segs[1..]);
      HolderHolds(segs[1..]);
      NamedHolds(item, segs);
      if |tokens| == 3 {
        assert more == [NAME];
        assert EditAt(WithName(item, name), more, Replace(Null)) == Some(Obj(WithName(item, name).fields[NAME := Null]));
      }
      ListAlters(WithName(item, name), i, tokens[1], more, Replace(Null), segs);
    } else {
      var item, leaf := Witness(more, segs[1..]), Change(more, segs[1..]);
      NamedHolds(item, segs);
      NamedAlters(item, more, leaf, segs);
      ListAlters(WithName(item, name), i, tokens[1], more, leaf, segs);
    }
  }

  // An edit that alters the rest of the path in an item still does when the item is named.
  lemma {:induction false} NamedAlters(item: Json, tokens: seq<string>, leaf: Leaf, segs: seq<Segment>)
    requires segs != [] && segs[0].selected.Some? && Readable(segs) && item.Obj? && Alters(item, tokens, leaf, segs[1..])
    requires tokens != [] && tokens[0] != NAME && Touches(tokens, segs[1..])
    ensures var named := WithName(item, segs[0].selected.value);
            && EditAt(named, tokens, leaf).Some?
            && Get(EditAt(named, tokens, leaf).value, segs[1..]) != Get(named, segs[1..])
  {
    var name := segs[0].selected.value;
    var named, after := WithName(item, name), EditAt(item, tokens, leaf).value;
    EditOfNamed(item, tokens, leaf, name);
    EditElsewhere(item, tokens, leaf);
    if |segs| == 1 {
      assert segs[1..] == [];
      if WithName(after, name) == named {
        SameBesides(after.fields, item.fields, tokens[0], name);
      }
    } else {
      assert segs[1..][0] == segs[1];
      GetMember(item, segs[1..]);
      GetMember(named, segs[1..]);
      GetMember(after, segs[1..]);
      GetMember(EditAt(named, tokens, leaf).value, segs[1..]);
    }
  }

  lemma EditElsewhere(item: Json, tokens: seq<string>, leaf: Leaf)
    requires item.Obj? && tokens != [] && EditAt(item, tokens, leaf).Some?
    ensures EditAt(item, tokens, leaf).value.Obj?
    ensures EditAt(item, tokens, leaf).value.fields - {tokens[0]} == item.fields - {tokens[0]}
  {
  }

  lemma SameBesides(m: map<string, Json>, n: map<string, Json>, key: string, name: string)
    requires key != NAME && m - {key} == n - {key} && m[NAME := Str(name)] == n[NAME := Str(name)]
    ensures m == n
  {
    forall k
      ensures k in m <==> k in n
      ensures k in m ==> m[k] == n[k]
    {
      assert k in m[NAME := Str(name)] <==> k in n[NAME := Str(name)];
      assert k in m - {key} <==> k in n - {key};
      if k == NAME && k in m {
        assert (m - {key})[k] == (n - {key})[k];
      } else if k in m {
        assert m[NAME := Str(name)][k] == n[NAME := Str(name)][k];
      }
    }
  }

  lemma {:induction false} EditOfNamed(item: Json, tokens: seq<string>, leaf: Leaf, name: string)
    requires item.Obj? && tokens != [] && tokens[0] != NAME && EditAt(item, tokens, leaf).Some?
    ensures EditAt(item, tokens, leaf).value.Obj?
    ensures EditAt(WithName(item, name), tokens, leaf) == Some(WithName(EditAt(item, tokens, leaf).value, name))
  {
    var after := EditAt(item, tokens, leaf).value;
    assert EditAt(WithName(item, name), tokens, leaf).Some?;
    assert EditAt(WithName(item, name), tokens, leaf).value.fields == after.fields[NAME := Str(name)];
  }

  // A value that can be replaced can be found.
  lemma {:induction false} ReplacedIsFound(doc: Json, tokens: seq<string>, v: Json)
    requires EditAt(doc, tokens, Replace(v)).Some?
    ensures LookupAt(doc, tokens).Some?
    decreases tokens
  {
    if |tokens| == 1 {
      assert tokens[1..] == [];
    } else if tokens != [] {
      ReplacedIsFound(Step(doc, tokens[0]).value, tokens[1..], v);
    }
  }

  // ----- patches that leave a path alone -----

  // The pointers through which an operation can change the document.
  function Writes(op: Op): seq<string> {
    match op
    case OpMove(from, path) => [from, path]
    case OpTest(_, _) => []
    case _ => [op.path]
  }

  predicate PointerTouches(path: string, segs: seq<Segment>) {
    Pointer(path).Some? && Touches(Pointer(path).value, segs)
  }

  lemma TextFrame(doc: Json, path: string, leaf: Leaf, segs: seq<Segment>)
    requires EditText(doc, path, leaf).Some? && !PointerTouches(path, segs)
    ensures Get(EditText(doc, path, leaf).value, segs) == Get(doc, segs)
  {
    EditFrame(doc, Pointer(path).value, leaf, segs);
  }

  // Some pointer through which the operation writes touches the path.
  predicate OpTouches(op: Op, segs: seq<Segment>) {
    exists path :: path in Writes(op) && PointerTouches(path, segs)
  }

  lemma OpFrame(doc: Json, op: Op, segs: seq<Segment>)
    requires ApplyOp(doc, op).Some? && !OpTouches(op, segs)
    ensures Get(ApplyOp(doc, op).value, segs) == Get(doc, segs)
  {
    assert !op.OpTest? ==> op.path in Writes(op);
    match op
    case OpAdd(path, v) => TextFrame(doc, path, Add(v), segs);
    case OpRemove(path) => TextFrame(doc, path, Remove, segs);
    case OpReplace(path, v) => TextFrame(doc, path, Replace(v), segs);
    case OpMove(from, path) =>
      assert from in Writes(op);
      TextFrame(doc, from, Remove, segs);
      TextFrame(EditText(doc, from, Remove).value, path, Add(LookupText(doc, from).value), segs);
    case OpCopy(from, path) => TextFrame(doc, path, Add(LookupText(doc, from).value), segs);
    case OpTest(_, _) =>
  }

  predicate ItemTouches(item: Json, segs: seq<Segment>) {
    Decode(item).Some? && OpTouches(Decode(item).value, segs)
  }

  // A JSON Patch list none of whose writes touches a field leaves its value exactly as it was,
  // present or absent.
  lemma {:induction false} UntouchedKeepsField(doc: Json, items: seq<Json>, segs: seq<Segment>)
    requires ApplyPatch(doc, items).Some? && forall item :: item in items ==> !ItemTouches(item, segs)
    ensures Get(ApplyPatch(doc, items).value, segs) == Get(doc, segs)
    decreases |items|
  {
    if items != [] {
      var front, last := items[..|items| - 1], items[|items| - 1];
      assert last in items && forall item :: item in front ==> item in items;
      UntouchedKeepsField(doc, front, segs);
      OpFrame(ApplyPatch(doc, front).value, Decode(last).value, segs);
    }
  }

  // ----- patch elements -----

  // The element that makes an edit other than a removal.
  function Element(path: string, leaf: Leaf): Json
    requires !leaf.Remove?
  {
    Obj(map["op" := Str(if leaf.Add? then "add" else "replace"), "path" := Str(path), "value" := leaf.v])
  }

  lemma ElementDecodes(path: string, leaf: Leaf)
    requires !leaf.Remove?
    ensures Decode(Element(path, leaf)) == Some(if leaf.Add? then OpAdd(path, leaf.v) else OpReplace(path, leaf.v))
  {
  }

  lemma ElementEdits(doc: Json, path: string, leaf: Leaf)
    requires !leaf.Remove? && EditText(doc, path, leaf).Some?
    ensures ApplyPatch(doc, [Element(path, leaf)]) == EditText(doc, path, leaf)
  {
    var item := Element(path, leaf);
    ElementDecodes(path, leaf);
    if leaf.Replace? {
      ReplacedIsFound(doc, Pointer(path).value, leaf.v);
    }
    assert [item][..0] == [] && ApplyPatch(doc, []) == Some(doc);
    assert [item][|[item]| - 1] == item;
  }

  // ----- pointers without escapes -----

  predicate PlainToken(token: string) {
    '~' !in token && SlashFree(token)
  }

  lemma {:induction false} PlainTokenUnescapes(token: string)
    requires '~' !in token
    ensures Unescape(token) == Some(token)
  {
    if token != "" {
      PlainTokenUnescapes(token[1..]);
      assert [token[0]] + token[1..] == token;
    }
  }

  lemma {:induction false} PlainTokensUnescape(tokens: seq<string>)
    requires forall t :: t in tokens ==> PlainToken(t)
    ensures UnescapeAll(tokens) == Some(tokens)
  {
    if tokens != [] {
      assert PlainToken(tokens[0]);
      PlainTokenUnescapes(tokens[0]);
      PlainTokensUnescape(tokens[1..]);
      assert [tokens[0]] + tokens[1..] == tokens;
    }
  }

  lemma PointerOfTokens(tokens: seq<string>)
    requires forall t :: t in tokens ==> PlainToken(t)
    ensures Pointer(Slashed(tokens)) == Some(tokens)
  {
    TokensOfSlashed(tokens);
    PlainTokensUnescape(tokens);
  }
}
