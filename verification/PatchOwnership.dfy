/**
 * Which patches own a protected field: the ownership test of `kustomize_edit_source.py` on a list
 * payload, against the application of that list as a JSON Patch.
 */
module PatchOwnership {
  import opened Json
  import opened Text
  import opened FieldPath
  import opened ObjectPath
  import opened JsonPatch

  // ----- the pointer test -----

  lemma TerminatedPrefix(a: string, b: string)
    ensures a + "/" <= b + "/" <==> a == b || a + "/" <= b
  {
    if a + "/" <= b + "/" && |a| < |b| {
      assert (a + "/") == (b + "/")[..|a| + 1] == b[..|a| + 1];
    }
    if a + "/" <= b + "/" && |a| == |b| {
      assert a == (a + "/")[..|a|] == (b + "/")[..|a|] == b;
    }
    if a + "/" <= b {
      assert b <= b + "/";
    }
  }

  // json_pointer_overlaps_field, on the slash form of the protected field.
  predicate PointerOverlaps(pointer: string, protected: string) {
    pointer == protected || protected + "/" <= pointer || pointer + "/" <= protected
  }

  // The text test is exactly: one token list is a prefix of the other.
  lemma OverlapIsPrefix(raw: seq<string>, keys: seq<string>)
    requires AllSlashFree(raw) && AllSlashFree(keys)
    ensures PointerOverlaps(Slashed(raw), Slashed(keys)) <==> raw <= keys || keys <= raw
  {
    SlashedPrefix(raw, keys);
    SlashedPrefix(keys, raw);
    TerminatedPrefix(Slashed(raw), Slashed(keys));
    TerminatedPrefix(Slashed(keys), Slashed(raw));
  }

  // ----- the protected field -----

  function DotsToSlashes(s: string): (r: string)
    ensures |r| == |s|
  {
    if s == "" then "" else [if s[0] == '.' then '/' else s[0]] + DotsToSlashes(s[1..])
  }

  function ProtectedPointer(field: string): string {
    "/" + DotsToSlashes(field)
  }

  lemma {:induction false} DotsToSlashesConcat(a: string, b: string)
    ensures DotsToSlashes(a + b) == DotsToSlashes(a) + DotsToSlashes(b)
    decreases a
  {
    if a == "" {
      assert a + b == b;
    } else {
      assert (a + b)[1..] == a[1..] + b;
      DotsToSlashesConcat(a[1..], b);
    }
  }

  lemma {:induction false} DotFreeUnchanged(s: string)
    requires '.' !in s
    ensures DotsToSlashes(s) == s
  {
    if s != "" {
      DotFreeUnchanged(s[1..]);
    }
  }

  predicate Selects(segs: seq<Segment>) {
    exists seg :: seg in segs && seg.selected.Some?
  }

  // The keys down to the list of the first selecting segment; all keys if none selects.
  function ListKeys(segs: seq<Segment>): seq<string> {
    if segs == [] then []
    else [segs[0].key] + if segs[0].selected.Some? then [] else ListKeys(segs[1..])
  }

  lemma {:induction false} ListKeysPlain(segs: seq<Segment>)
    requires forall seg :: seg in segs ==> IsKey(seg.key)
    ensures forall key :: key in ListKeys(segs) ==> IsKey(key) && SlashFree(key)
  {
    if segs != [] {
      ListKeysPlain(segs[1..]);
    }
  }

  lemma SelectsUnfolds(segs: seq<Segment>)
    requires segs != []
    ensures Selects(segs) <==> segs[0].selected.Some? || Selects(segs[1..])
  {
    assert segs == [segs[0]] + segs[1..];
    assert forall seg :: seg in segs <==> seg == segs[0] || seg in segs[1..];
  }

  // The rest of a protected text after the pointer to the list: empty, or the bracket.
  predicate Continues(text: string, keys: seq<string>, selects: bool) {
    && Slashed(keys) <= text
    && (if selects then |Slashed(keys)| < |text| && text[|Slashed(keys)|] == '[' else text == Slashed(keys))
  }

  lemma DotsOfKey(key: string, more: string)
    requires IsKey(key)
    ensures DotsToSlashes(key + more) == key + DotsToSlashes(more)
  {
    DotFreeUnchanged(key);
    DotsToSlashesConcat(key, more);
  }

  lemma PrintUnfolds(segs: seq<Segment>)
    requires |segs| > 1
    ensures Print(segs) == PrintPart(segs[0]) + "." + Print(segs[1..])
  {
    assert PrintParts(segs)[1..] == PrintParts(segs[1..]);
  }

  // What follows the first key in the text of a path.
  lemma PrintAfterKey(segs: seq<Segment>) returns (more: string)
    requires segs != []
    ensures Print(segs) == segs[0].key + more
    ensures segs[0].selected.Some? ==> more != "" && more[0] == '['
    ensures segs[0].selected.None? ==> more == if |segs| == 1 then "" else "." + Print(segs[1..])
  {
    var bracket := if segs[0].selected.Some? then SELECTOR_OPEN + segs[0].selected.value + "]" else "";
    if |segs| == 1 {
      more := bracket;
    } else {
      PrintUnfolds(segs);
      more := bracket + "." + Print(segs[1..]);
    }
  }

  lemma {:induction false} ProtectedText(segs: seq<Segment>)
    requires WellFormed(segs)
    ensures Continues("/" + DotsToSlashes(Print(segs)), ListKeys(segs), Selects(segs))
  {
    var key := segs[0].key;
    assert WellFormedSegment(segs[0]);
    var more := PrintAfterKey(segs);
    SelectsUnfolds(segs);
    DotsOfKey(key, more);
    if segs[0].selected.Some? {
      assert Slashed([key]) == "/" + key;
    } else if |segs| == 1 {
      assert ListKeys(segs) == [key] && Slashed([key]) == "/" + key;
    } else {
      ProtectedText(segs[1..]);
      var below := "/" + DotsToSlashes(Print(segs[1..]));
      assert more[1..] == Print(segs[1..]) && DotsToSlashes(more) == below;
      ContinuesBelow(key, below, ListKeys(segs[1..]), Selects(segs[1..]));
    }
  }

  lemma ContinuesBelow(key: string, below: string, keys: seq<string>, selects: bool)
    requires Continues(below, keys, selects)
    ensures Continues("/" + (key + below), [key] + keys, selects)
  {
    var at := "/" + key;
    assert ([key] + keys)[1..] == keys;
    assert Slashed([key] + keys) == at + Slashed(keys);
    assert "/" + (key + below) == at + below;
  }

  // The protected pointer of a field is the pointer to its keys, down to the first list it
  // selects from; there it goes on with the bracket.
  lemma ProtectedPointerIs(field: string)
    requires Segments(field) != []
    ensures Continues(ProtectedPointer(field), ListKeys(Segments(field)), Selects(Segments(field)))
    ensures forall key :: key in ListKeys(Segments(field)) ==> IsKey(key) && SlashFree(key)
  {
    PrintOfSegments(field);
    ProtectedText(Segments(field));
    ListKeysPlain(Segments(field));
  }

  // Of the pointers above, at and below the list that a field selects from, the text test reports
  // exactly those strictly above it; of a field that selects nothing, all.
  lemma OverlapOfField(field: string, raw: seq<string>)
    requires Segments(field) != [] && AllSlashFree(raw)
    requires raw <= ListKeys(Segments(field)) || ListKeys(Segments(field)) <= raw
    ensures PointerOverlaps(Slashed(raw), ProtectedPointer(field)) <==>
            !Selects(Segments(field)) || |raw| < |ListKeys(Segments(field))|
  {
    var segs, text := Segments(field), ProtectedPointer(field);
    var keys := ListKeys(segs);
    ProtectedPointerIs(field);
    if !Selects(segs) {
      OverlapIsPrefix(raw, keys);
    } else if |raw| < |keys| {
      SlashedPrefix(raw, keys);
      SlashedPrefix(keys, raw);
      TerminatedPrefix(Slashed(raw), Slashed(keys));
      PrefixTransitive(Slashed(raw) + "/", Slashed(keys), text);
    } else {
      SlashedExtends(keys, raw);
      BracketApart(Slashed(keys), Slashed(raw), text);
    }
  }

  lemma PrefixTransitive(a: string, b: string, c: string)
    requires a <= b && b <= c
    ensures a <= c
  {
  }

  // Below a token list a pointer text ends or goes on with a slash.
  lemma {:induction false} SlashedExtends(keys: seq<string>, raw: seq<string>)
    requires keys <= raw
    ensures Slashed(keys) <= Slashed(raw) && (|Slashed(keys)| < |Slashed(raw)| ==> Slashed(raw)[|Slashed(keys)|] == '/')
    decreases keys
  {
    if keys != [] {
      TokensPrefix(keys, raw);
      SlashedExtends(keys[1..], raw[1..]);
      var at := "/" + keys[0];
      assert Slashed(keys) == at + Slashed(keys[1..]) && Slashed(raw) == at + Slashed(raw[1..]);
    }
  }

  // So it differs there from a text that goes on with a bracket.
  lemma BracketApart(prefix: string, pointer: string, text: string)
    requires prefix <= text && |prefix| < |text| && text[|prefix|] == '['
    requires prefix <= pointer && (|prefix| < |pointer| ==> pointer[|prefix|] == '/')
    ensures !PointerOverlaps(pointer, text)
  {
    var n := |prefix|;
    assert (pointer + "/")[n] == '/' && (text + "/")[n] == '[';
  }

  // ----- the ownership test -----

  // str(item.get(key) or ""), given str() for values that are not text.
  function RawText(str: Json -> string, item: Json, key: string): string {
    if !item.Obj? || key !in item.fields then ""
    else match item.fields[key]
      case Str(s) => s
      case Null => ""
      case Bool(false) => ""
      case other => if other == Int(0) || other == Float(0.0) || other == List([]) || other == Obj(map[]) then "" else str(other)
  }

  predicate Mutates(item: Json) {
    item.Obj? && "op" in item.fields &&
    item.fields["op"] in {Str("add"), Str("copy"), Str("move"), Str("remove"), Str("replace")}
  }

  predicate ItemOwns(str: Json -> string, item: Json, field: string) {
    Mutates(item) &&
    (PointerOverlaps(RawText(str, item, "path"), ProtectedPointer(field)) ||
     (item.fields["op"] in {Str("copy"), Str("move")} && PointerOverlaps(RawText(str, item, "from"), ProtectedPointer(field))))
  }

  // patch_content_owns_field on a list payload.
  predicate ListOwns(str: Json -> string, items: seq<Json>, fields: seq<string>) {
    exists item, field :: item in items && field in fields && ItemOwns(str, item, field)
  }

  // ----- what a non-owning patch leaves alone -----

  lemma PrefixOfKeys(raw: seq<string>, tokens: seq<string>, keys: seq<string>)
    requires UnescapeAll(raw) == Some(tokens) && forall i :: 0 <= i < |keys| ==> IsKey(keys[i])
    ensures tokens <= keys || keys <= tokens ==> raw <= keys || keys <= raw
  {
    forall i | 0 <= i < |raw| && i < |keys| && tokens[i] == keys[i]
      ensures raw[i] == keys[i]
    {
      assert '~' !in tokens[i] && '/' !in tokens[i];
      PlainKeyUnescaped(raw[i]);
    }
  }

  lemma UnownedWrites(str: Json -> string, item: Json, field: string, path: string)
    requires !ItemOwns(str, item, field) && Decode(item).Some? && path in Writes(Decode(item).value)
    ensures !PointerOverlaps(path, ProtectedPointer(field))
  {
  }

  // A touching pointer is above, at or below the list from which the path first selects.
  lemma {:induction false} TouchesComparable(tokens: seq<string>, segs: seq<Segment>)
    requires Touches(tokens, segs)
    ensures tokens <= ListKeys(segs) || ListKeys(segs) <= tokens
    decreases segs
  {
    if tokens != [] && segs != [] {
      var keys := ListKeys(segs);
      TokensPrefix(tokens, keys);
      TokensPrefix(keys, tokens);
      if segs[0].selected.None? {
        TouchesComparable(tokens[1..], segs[1..]);
        assert keys[1..] == ListKeys(segs[1..]);
      } else {
        assert keys[1..] == [];
      }
    }
  }

  // The pointer is the list from which the path first selects, or below it.
  predicate InList(path: string, segs: seq<Segment>) {
    Selects(segs) && Pointer(path).Some? && ListKeys(segs) <= Pointer(path).value
  }

  // Of the touching pointers, the test reports exactly those that are not in the list.
  lemma TouchReportedIff(path: string, field: string)
    requires Segments(field) != [] && PointerTouches(path, Segments(field))
    ensures PointerOverlaps(path, ProtectedPointer(field)) <==> !InList(path, Segments(field))
  {
    var segs := Segments(field);
    var raw, keys := RawTokens(path).value, ListKeys(segs);
    var tokens := UnescapeAll(raw).value;
    ProtectedPointerIs(field);
    assert forall i :: 0 <= i < |keys| ==> keys[i] in keys;
    TouchesComparable(tokens, segs);
    PrefixOfKeys(raw, tokens, keys);
    OverlapOfField(field, raw);
  }

  // Hence exactly which writes the test misses: those that can change the field, by touching it
  // inside the list from which it first selects.
  lemma MissedWriteIff(path: string, field: string)
    requires Segments(field) != [] && Pointer(path).Some?
    ensures var segs := Segments(field);
            !PointerOverlaps(path, ProtectedPointer(field)) && (exists doc, leaf :: Alters(doc, Pointer(path).value, leaf, segs)) <==>
            PointerTouches(path, segs) && Readable(segs) && InList(path, segs)
  {
    TouchesIff(Pointer(path).value, Segments(field));
    if PointerTouches(path, Segments(field)) {
      TouchReportedIff(path, field);
    }
  }

  // A write of the patch element touches the path inside the list from which it first selects.
  predicate TouchesInList(item: Json, segs: seq<Segment>) {
    Decode(item).Some? && exists path :: path in Writes(Decode(item).value) && PointerTouches(path, segs) && InList(path, segs)
  }

  lemma UnownedTouch(str: Json -> string, item: Json, field: string)
    requires Segments(field) != [] && !ItemOwns(str, item, field) && !TouchesInList(item, Segments(field))
    ensures !ItemTouches(item, Segments(field))
  {
    if ItemTouches(item, Segments(field)) {
      var path :| path in Writes(Decode(item).value) && PointerTouches(path, Segments(field));
      UnownedWrites(str, item, field, path);
      TouchReportedIff(path, field);
    }
  }

  // So a JSON Patch list reported as not owning leaves the value at every protected field exactly
  // as it was, present or absent, unless it touches the field inside the list it selects from.
  lemma NonOwningPatchKeepsField(str: Json -> string, doc: Json, items: seq<Json>, fields: seq<string>, field: string)
    requires !ListOwns(str, items, fields) && field in fields && Segments(field) != [] && ApplyPatch(doc, items).Some?
    requires forall item :: item in items ==> !TouchesInList(item, Segments(field))
    ensures Get(ApplyPatch(doc, items).value, Segments(field)) == Get(doc, Segments(field))
  {
    forall item | item in items
      ensures !ItemTouches(item, Segments(field))
    {
      assert !ItemOwns(str, item, field);
      UnownedTouch(str, item, field);
    }
    UntouchedKeepsField(doc, items, Segments(field));
  }

  // ----- what the test does not see -----

  lemma UnreportedElement(str: Json -> string, path: string, leaf: Leaf, field: string)
    requires !leaf.Remove? && !PointerOverlaps(path, ProtectedPointer(field))
    ensures !ListOwns(str, [Element(path, leaf)], [field])
  {
    var item := Element(path, leaf);
    assert RawText(str, item, "path") == path;
    assert item.fields["op"] == Str("add") || item.fields["op"] == Str("replace");
    assert !ItemOwns(str, item, field);
  }

  // Each missed write is made by a patch that the test reports as not owning the field, and that
  // changes what a document holds there.
  lemma MissedPatch(str: Json -> string, path: string, field: string)
    requires PointerTouches(path, Segments(field)) && Readable(Segments(field)) && InList(path, Segments(field))
    ensures var segs, tokens := Segments(field), Pointer(path).value;
            var doc, items := Witness(tokens, segs), [Element(path, Change(tokens, segs))];
            && !ListOwns(str, items, [field])
            && ApplyPatch(doc, items).Some? && Get(doc, segs).Some? && Get(ApplyPatch(doc, items).value, segs) != Get(doc, segs)
  {
    var segs, tokens := Segments(field), Pointer(path).value;
    TouchAlters(tokens, segs);
    ElementEdits(Witness(tokens, segs), path, Change(tokens, segs));
    TouchReportedIff(path, field);
    UnreportedElement(str, path, Change(tokens, segs), field);
  }

  // And every field that selects has one: the list itself.
  lemma ListIsMissed(field: string)
    requires Selects(Segments(field))
    ensures var path := Slashed(ListKeys(Segments(field)));
            PointerTouches(path, Segments(field)) && InList(path, Segments(field))
  {
    var keys := ListKeys(Segments(field));
    ProtectedPointerIs(field);
    assert forall key :: key in keys ==> PlainToken(key);
    PointerOfTokens(keys);
    ListTouches(Segments(field));
  }

  lemma {:induction false} ListTouches(segs: seq<Segment>)
    requires Selects(segs)
    ensures Touches(ListKeys(segs), segs)
  {
    SelectsUnfolds(segs);
    if segs[0].selected.None? {
      ListTouches(segs[1..]);
      assert ListKeys(segs)[1..] == ListKeys(segs[1..]);
    }
  }

  // ----- dotted field paths of replacements -----

  // semantic_fields_overlap
  predicate FieldsOverlap(left: string, right: string) {
    left == right || StartsWith(left, right + ".") || StartsWith(right, left + ".")
  }

  lemma DottedExtends(parent: string, path: string)
    requires Segments(parent) != [] && Segments(path) != [] && StartsWith(path, parent + ".")
    ensures Segments(parent) <= Segments(path)
  {
    var relative := path[|parent| + 1..];
    assert path == parent + "." + relative;
    RemainderParses(parent, relative);
    SegmentsOfDotted(parent, relative);
  }

  lemma ExtendsDotted(parent: string, path: string)
    requires Segments(parent) != [] && Segments(parent) < Segments(path)
    ensures StartsWith(path, parent + ".")
  {
    PrintOfSegments(parent);
    PrintOfSegments(path);
    PrintExtends(Segments(parent), Segments(path));
  }

  lemma PrintExtends(a: seq<Segment>, whole: seq<Segment>)
    requires a != [] && a < whole
    ensures StartsWith(Print(whole), Print(a) + ".")
  {
    var more := whole[|a|..];
    PrintPartsConcat(a, more, whole);
    JoinConcat(PrintParts(a), PrintParts(more));
  }

  lemma PrintPartsConcat(a: seq<Segment>, more: seq<Segment>, whole: seq<Segment>)
    requires whole == a + more
    ensures PrintParts(whole) == PrintParts(a) + PrintParts(more)
  {
  }

  // On accepted paths the text test is exactly: one segment list is a prefix of the other.
  lemma FieldsOverlapIsPrefix(left: string, right: string)
    requires Segments(left) != [] && Segments(right) != []
    ensures FieldsOverlap(left, right) <==> Segments(left) <= Segments(right) || Segments(right) <= Segments(left)
  {
    if StartsWith(left, right + ".") {
      DottedExtends(right, left);
    }
    if StartsWith(right, left + ".") {
      DottedExtends(left, right);
    }
    if Segments(left) == Segments(right) {
      SegmentsInjective(left, right);
    } else if Segments(left) <= Segments(right) {
      ExtendsDotted(left, right);
    } else if Segments(right) <= Segments(left) {
      ExtendsDotted(right, left);
    }
  }
}
