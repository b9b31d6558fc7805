/**
 * Dotted field paths with `[name=...]` selectors: the scanner and the segment
 * pattern of `source_patch.py`, and the printer that undoes them.
 */
module FieldPath {
  import opened Json
  import opened Text

  datatype Segment = Segment(key: string, selected: Option<string>)

  predicate KeyChar(c: char) {
    'A' <= c <= 'Z' || 'a' <= c <= 'z' || '0' <= c <= '9' || c == '_' || c == '-'
  }

  predicate IsKey(s: string) {
    s != "" && forall i :: 0 <= i < |s| ==> KeyChar(s[i])
  }

  predicate BracketFree(s: string) {
    '[' !in s && ']' !in s
  }

  // What every accepted path consists of.
  predicate WellFormedSegment(seg: Segment) {
    IsKey(seg.key) &&
    (seg.selected.Some? ==> Strip(seg.selected.value) != "" && BracketFree(seg.selected.value))
  }

  predicate WellFormed(segs: seq<Segment>) {
    segs != [] && forall i :: 0 <= i < |segs| ==> WellFormedSegment(segs[i])
  }

  // ----- splitting at top-level dots -----

  // The parts of `cur + rest`, where `cur` is the part read so far at bracket depth `depth`.
  function Scan(rest: string, cur: string, depth: nat): Option<seq<string>>
    decreases rest
  {
    if rest == "" then
      if depth == 0 then Some([cur]) else None
    else if rest[0] == '[' then
      Scan(rest[1..], cur + [rest[0]], depth + 1)
    else if rest[0] == ']' then
      if depth == 0 then None else Scan(rest[1..], cur + [rest[0]], depth - 1)
    else if rest[0] == '.' && depth == 0 then
      var more := Scan(rest[1..], "", 0);
      if more.None? then None else Some([cur] + more.value)
    else
      Scan(rest[1..], cur + [rest[0]], depth)
  }

  // Empty both for rejected text, as in the source, and never for accepted text.
  function Parts(value: string): seq<string> {
    var scanned := Scan(value, "", 0);
    if scanned.None? then [] else scanned.value
  }

  // The bracket depth after walking `s` from `depth`, provided no bracket closes
  // early and no dot sits outside brackets.
  function DepthAfter(s: string, depth: nat): Option<nat> {
    if s == "" then Some(depth)
    else if s[0] == '[' then DepthAfter(s[1..], depth + 1)
    else if s[0] == ']' then if depth == 0 then None else DepthAfter(s[1..], depth - 1)
    else if s[0] == '.' && depth == 0 then None
    else DepthAfter(s[1..], depth)
  }

  predicate Atomic(part: string) {
    DepthAfter(part, 0) == Some(0)
  }

  function NetDepth(s: string): int {
    if s == "" then 0
    else (if s[0] == '[' then 1 else if s[0] == ']' then -1 else 0) + NetDepth(s[1..])
  }

  function Join(parts: seq<string>): string
    requires parts != []
  {
    if |parts| == 1 then parts[0] else parts[0] + "." + Join(parts[1..])
  }

  lemma {:induction false} ScanWalks(s: string, rest: string, cur: string, depth: nat)
    requires DepthAfter(s, depth).Some?
    ensures Scan(s + rest, cur, depth) == Scan(rest, cur + s, DepthAfter(s, depth).value)
    decreases s
  {
    if s == "" {
      assert s + rest == rest && cur + s == cur;
    } else {
      assert (s + rest)[1..] == s[1..] + rest;
      assert cur + [s[0]] + s[1..] == cur + s;
      ScanWalks(s[1..], rest, cur + [s[0]],
                if s[0] == '[' then depth + 1 else if s[0] == ']' then depth - 1 else depth);
    }
  }

  // Joining atomic parts and scanning gives the parts back.
  lemma {:induction false} ScanOfJoin(parts: seq<string>)
    requires parts != [] && forall i :: 0 <= i < |parts| ==> Atomic(parts[i])
    ensures Scan(Join(parts), "", 0) == Some(parts)
  {
    var p := parts[0];
    if |parts| == 1 {
      ScanWalks(p, "", "", 0);
      assert p + "" == p && "" + p == p && parts == [p];
    } else {
      var tail := "." + Join(parts[1..]);
      ScanWalks(p, tail, "", 0);
      assert p + "." + Join(parts[1..]) == p + tail && "" + p == p;
      assert tail[1..] == Join(parts[1..]);
      ScanOfJoin(parts[1..]);
      assert [p] + parts[1..] == parts;
    }
  }

  function StepDepth(c: char, depth: nat): nat
    requires c == ']' ==> depth > 0
  {
    if c == '[' then depth + 1 else if c == ']' then depth - 1 else depth
  }

  // Scanning reads one more character of the current part,
  lemma ScanStep(rest: string, cur: string, depth: nat)
    requires rest != "" && !(rest[0] == '.' && depth == 0) && Scan(rest, cur, depth).Some?
    ensures rest[0] == ']' ==> depth > 0
    ensures Scan(rest, cur, depth) == Scan(rest[1..], cur + [rest[0]], StepDepth(rest[0], depth))
  {
  }

  // or ends it at a top-level dot.
  lemma ScanDot(rest: string, cur: string)
    requires rest != "" && rest[0] == '.' && Scan(rest, cur, 0).Some?
    ensures Scan(rest[1..], "", 0).Some? && Scan(rest, cur, 0).value == [cur] + Scan(rest[1..], "", 0).value
  {
  }

  lemma {:induction false} ScanJoins(rest: string, cur: string, depth: nat)
    requires Scan(rest, cur, depth).Some?
    ensures Scan(rest, cur, depth).value != [] && Join(Scan(rest, cur, depth).value) == cur + rest
    decreases rest
  {
    if rest == "" {
      assert cur + rest == cur;
    } else if rest[0] == '.' && depth == 0 {
      ScanDot(rest, cur);
      var more := Scan(rest[1..], "", 0).value;
      ScanJoins(rest[1..], "", 0);
      JoinCons(cur, more);
      Carried(cur, rest);
      assert "" + rest[1..] == rest[1..];
    } else {
      ScanStep(rest, cur, depth);
      ScanJoins(rest[1..], cur + [rest[0]], StepDepth(rest[0], depth));
      Carried(cur, rest);
    }
  }

  lemma Carried(cur: string, rest: string)
    requires rest != ""
    ensures cur + [rest[0]] + rest[1..] == cur + rest
  {
    assert rest == [rest[0]] + rest[1..];
  }

  lemma JoinCons(first: string, more: seq<string>)
    requires more != []
    ensures Join([first] + more) == first + "." + Join(more)
  {
    assert ([first] + more)[1..] == more;
  }

  // What follows the characters read so far in the first part.
  predicate Completes(part: string, cur: string, depth: nat) {
    cur <= part && DepthAfter(part[|cur|..], depth) == Some(0)
  }

  // A part that continues with one more walked character.
  lemma WalkedOne(part: string, cur: string, c: char, depth: nat)
    requires (c == ']' ==> depth > 0) && !(c == '.' && depth == 0)
    requires Completes(part, cur + [c], StepDepth(c, depth))
    ensures Completes(part, cur, depth)
  {
    var tail := part[|cur|..];
    assert (cur + [c])[|cur|] == c && part[|cur|] == c;
    assert tail[0] == c && tail[1..] == part[|cur| + 1..];
  }

  lemma {:induction false} ScanFirst(rest: string, cur: string, depth: nat)
    requires Scan(rest, cur, depth).Some?
    ensures Scan(rest, cur, depth).value != [] && Completes(Scan(rest, cur, depth).value[0], cur, depth)
    decreases rest
  {
    if rest == "" || (rest[0] == '.' && depth == 0) {
      assert cur[|cur|..] == "";
    } else {
      ScanStep(rest, cur, depth);
      ScanFirst(rest[1..], cur + [rest[0]], StepDepth(rest[0], depth));
      WalkedOne(Scan(rest, cur, depth).value[0], cur, rest[0], depth);
    }
  }

  lemma {:induction false} ScanLater(rest: string, cur: string, depth: nat, i: nat)
    requires Scan(rest, cur, depth).Some? && 1 <= i < |Scan(rest, cur, depth).value|
    ensures Atomic(Scan(rest, cur, depth).value[i])
    decreases rest
  {
    if rest != "" && rest[0] == '.' && depth == 0 {
      ScanDot(rest, cur);
      ScanFirst(rest[1..], "", 0);
      var more := Scan(rest[1..], "", 0).value;
      assert Scan(rest, cur, 0).value[i] == more[i - 1];
      if i == 1 {
        assert more[0][|""|..] == more[0];
      } else {
        ScanLater(rest[1..], "", 0, i - 1);
      }
    } else if rest != "" {
      ScanStep(rest, cur, depth);
      ScanLater(rest[1..], cur + [rest[0]], StepDepth(rest[0], depth), i);
    }
  }

  // The parts of accepted text are atomic and join back to the text.
  lemma PartsSound(value: string)
    requires Parts(value) != []
    ensures Join(Parts(value)) == value
    ensures forall i :: 0 <= i < |Parts(value)| ==> Atomic(Parts(value)[i])
  {
    var ps := Parts(value);
    ScanJoins(value, "", 0);
    assert "" + value == value;
    forall i | 0 <= i < |ps|
      ensures Atomic(ps[i])
    {
      if i == 0 {
        ScanFirst(value, "", 0);
        assert ps[0][|""|..] == ps[0];
      } else {
        ScanLater(value, "", 0, i);
      }
    }
  }

  lemma {:induction false} ScanBalances(rest: string, cur: string, depth: nat)
    requires Scan(rest, cur, depth).Some?
    ensures depth + NetDepth(rest) == 0
    decreases rest
  {
    if rest == "" {
    } else if rest[0] == '.' && depth == 0 {
      ScanBalances(rest[1..], "", 0);
    } else {
      ScanBalances(rest[1..], cur + [rest[0]],
                   if rest[0] == '[' then depth + 1 else if rest[0] == ']' then depth - 1 else depth);
    }
  }

  // When the text after a dot is accepted on its own, that dot is a top-level one.
  lemma {:induction false} ScanSplits(front: string, back: string, cur: string, depth: nat)
    requires Scan(front + "." + back, cur, depth).Some? && Scan(back, "", 0).Some?
    ensures Scan(front, cur, depth).Some?
    ensures Scan(front + "." + back, cur, depth).value == Scan(front, cur, depth).value + Scan(back, "", 0).value
    decreases front
  {
    var whole := front + "." + back;
    if front == "" {
      assert whole == "." + back && whole[1..] == back;
      if depth != 0 {
        ScanBalances(back, cur + ['.'], depth);
        ScanBalances(back, "", 0);
      }
    } else {
      assert whole[1..] == front[1..] + "." + back;
      if front[0] == '.' && depth == 0 {
        ScanSplits(front[1..], back, "", 0);
        assert [cur] + (Scan(front[1..], "", 0).value + Scan(back, "", 0).value)
            == ([cur] + Scan(front[1..], "", 0).value) + Scan(back, "", 0).value;
      } else {
        ScanSplits(front[1..], back, cur + [front[0]],
                   if front[0] == '[' then depth + 1 else if front[0] == ']' then depth - 1 else depth);
      }
    }
  }

  // Likewise when the text before the dot is accepted on its own.
  lemma {:induction false} ScanSplitsFront(front: string, back: string, cur: string, depth: nat)
    requires Scan(front + "." + back, cur, depth).Some? && Scan(front, cur, depth).Some?
    ensures Scan(back, "", 0).Some?
    decreases front
  {
    var whole := front + "." + back;
    if front == "" {
      assert whole == "." + back && whole[1..] == back;
    } else {
      assert whole[1..] == front[1..] + "." + back;
      if front[0] == '.' && depth == 0 {
        ScanSplitsFront(front[1..], back, "", 0);
      } else {
        ScanSplitsFront(front[1..], back, cur + [front[0]],
                        if front[0] == '[' then depth + 1 else if front[0] == ']' then depth - 1 else depth);
      }
    }
  }

  // ----- one segment -----

  function KeyLength(s: string): (n: nat)
    ensures n <= |s| && (forall i :: 0 <= i < n ==> KeyChar(s[i])) && (n < |s| ==> !KeyChar(s[n]))
  {
    if s != "" && KeyChar(s[0]) then 1 + KeyLength(s[1..]) else 0
  }

  const SELECTOR_OPEN := "[name="

  // The segment pattern: a key, then optionally `[name=` text without `]` and a final `]`.
  function ParsePart(raw: string): Option<Segment> {
    var n := KeyLength(raw);
    var key, rest := raw[..n], raw[n..];
    if n == 0 then None
    else if rest == "" then Some(Segment(key, None))
    else if StartsWith(rest, SELECTOR_OPEN) && EndsWith(rest, "]") && |rest| > |SELECTOR_OPEN| + 1 then
      var name := rest[|SELECTOR_OPEN|..|rest| - 1];
      if ']' in name || Strip(name) == "" then None else Some(Segment(key, Some(name)))
    else None
  }

  function PrintPart(seg: Segment): string {
    seg.key + if seg.selected.Some? then SELECTOR_OPEN + seg.selected.value + "]" else ""
  }

  lemma PrintOfParsedPart(raw: string)
    requires ParsePart(raw).Some?
    ensures PrintPart(ParsePart(raw).value) == raw
    ensures IsKey(ParsePart(raw).value.key)
  {
    var n := KeyLength(raw);
    var rest := raw[n..];
    assert raw == raw[..n] + rest;
    assert forall i :: 0 <= i < n ==> raw[..n][i] == raw[i] && KeyChar(raw[i]);
    if rest != "" {
      SelectorText(rest);
    }
  }

  lemma SelectorText(rest: string)
    requires StartsWith(rest, SELECTOR_OPEN) && EndsWith(rest, "]") && |rest| > |SELECTOR_OPEN| + 1
    ensures SELECTOR_OPEN + rest[|SELECTOR_OPEN|..|rest| - 1] + "]" == rest
  {
  }

  lemma {:induction false} KeyLengthOf(key: string, rest: string)
    requires IsKey(key) && (rest != "" ==> !KeyChar(rest[0]))
    ensures KeyLength(key + rest) == |key|
  {
    assert (key + rest)[1..] == key[1..] + rest;
    if |key| == 1 {
      assert key[1..] + rest == rest;
    } else {
      KeyLengthOf(key[1..], rest);
    }
  }

  lemma ParseOfPrintedPart(seg: Segment)
    requires WellFormedSegment(seg)
    ensures ParsePart(PrintPart(seg)) == Some(seg)
  {
    var rest := if seg.selected.Some? then SELECTOR_OPEN + seg.selected.value + "]" else "";
    KeyLengthOf(seg.key, rest);
    var raw := seg.key + rest;
    assert raw[..|seg.key|] == seg.key && raw[|seg.key|..] == rest;
    if seg.selected.Some? {
      assert rest[..|SELECTOR_OPEN|] == SELECTOR_OPEN;
      assert rest[|rest| - 1..] == "]";
      assert rest[|SELECTOR_OPEN|..|rest| - 1] == seg.selected.value;
    }
  }

  lemma {:induction false} DepthAfterPlain(s: string, depth: nat)
    requires BracketFree(s) && ('.' !in s || depth > 0)
    ensures DepthAfter(s, depth) == Some(depth)
  {
    if s != "" {
      DepthAfterPlain(s[1..], depth);
    }
  }

  lemma {:induction false} DepthAfterConcat(a: string, b: string, depth: nat)
    requires DepthAfter(a, depth).Some?
    ensures DepthAfter(a + b, depth) == DepthAfter(b, DepthAfter(a, depth).value)
    decreases a
  {
    if a == "" {
      assert a + b == b;
    } else {
      assert (a + b)[1..] == a[1..] + b;
      DepthAfterConcat(a[1..], b, if a[0] == '[' then depth + 1 else if a[0] == ']' then depth - 1 else depth);
    }
  }

  lemma PrintedPartAtomic(seg: Segment)
    requires WellFormedSegment(seg)
    ensures Atomic(PrintPart(seg))
  {
    DepthAfterPlain(seg.key, 0);
    if seg.selected.Some? {
      var name := seg.selected.value;
      DepthAfterPlain("name=", 1);
      assert SELECTOR_OPEN == "[" + "name=";
      assert SELECTOR_OPEN[1..] == "name=";
      DepthAfterPlain(name, 1);
      DepthAfterConcat(SELECTOR_OPEN, name + "]", 0);
      DepthAfterConcat(name, "]", 1);
      assert SELECTOR_OPEN + name + "]" == SELECTOR_OPEN + (name + "]");
      assert "]"[1..] == "";
      assert DepthAfter("]", 1) == DepthAfter("", 0);
      DepthAfterConcat(seg.key, SELECTOR_OPEN + name + "]", 0);
    } else {
      assert PrintPart(seg) == seg.key;
    }
  }

  lemma {:induction false} DepthAfterOpensOnly(s: string, depth: nat)
    requires depth > 0 && ']' !in s
    ensures DepthAfter(s, depth).Some?
    ensures '[' in s ==> DepthAfter(s, depth).value > depth
    ensures DepthAfter(s, depth).value >= depth
  {
    if s != "" {
      DepthAfterOpensOnly(s[1..], if s[0] == '[' then depth + 1 else depth);
      assert s == [s[0]] + s[1..];
    }
  }

  // A selector inside an accepted path never contains an opening bracket, although
  // the segment pattern alone would allow one.
  lemma AtomicPartWellFormed(raw: string)
    requires Atomic(raw) && ParsePart(raw).Some?
    ensures WellFormedSegment(ParsePart(raw).value)
  {
    PrintOfParsedPart(raw);
    var seg := ParsePart(raw).value;
    if seg.selected.Some? {
      var name := seg.selected.value;
      DepthAfterPlain(seg.key, 0);
      assert raw == seg.key + (SELECTOR_OPEN + name + "]");
      DepthAfterConcat(seg.key, SELECTOR_OPEN + name + "]", 0);
      assert SELECTOR_OPEN + name + "]" == SELECTOR_OPEN + (name + "]");
      assert SELECTOR_OPEN[1..] == "name=";
      DepthAfterPlain("name=", 1);
      DepthAfterConcat(SELECTOR_OPEN, name + "]", 0);
      DepthAfterOpensOnly(name, 1);
      DepthAfterConcat(name, "]", 1);
      assert "]"[1..] == "";
      var d := DepthAfter(name, 1).value;
      assert DepthAfter("]", d) == DepthAfter("", d - 1);
    }
  }

  // ----- whole paths -----

  function ParseParts(parts: seq<string>): Option<seq<Segment>> {
    if parts == [] then Some([])
    else
      var first, more := ParsePart(parts[0]), ParseParts(parts[1..]);
      if first.None? || more.None? then None else Some([first.value] + more.value)
  }

  // field_path_segments: the empty sequence stands for a rejected path.
  function Segments(value: string): seq<Segment> {
    var parsed := ParseParts(Parts(value));
    if parsed.None? then [] else parsed.value
  }

  function PrintParts(segs: seq<Segment>): (parts: seq<string>)
    ensures |parts| == |segs| && forall i :: 0 <= i < |segs| ==> parts[i] == PrintPart(segs[i])
  {
    seq(|segs|, i requires 0 <= i < |segs| => PrintPart(segs[i]))
  }

  function Print(segs: seq<Segment>): string
    requires segs != []
  {
    Join(PrintParts(segs))
  }

  predicate PartByPart(parts: seq<string>, segs: seq<Segment>) {
    |segs| == |parts| && forall i :: 0 <= i < |parts| ==> ParsePart(parts[i]) == Some(segs[i])
  }

  lemma PartByPartCons(part: string, parts: seq<string>, seg: Segment, segs: seq<Segment>)
    ensures PartByPart([part] + parts, [seg] + segs) <==> ParsePart(part) == Some(seg) && PartByPart(parts, segs)
  {
    var all, read := [part] + parts, [seg] + segs;
    assert all[0] == part && read[0] == seg;
    assert forall i :: 0 <= i < |parts| ==> all[i + 1] == parts[i];
    assert forall i :: 0 <= i < |segs| ==> read[i + 1] == segs[i];
    if ParsePart(part) == Some(seg) && PartByPart(parts, segs) {
      assert forall i :: 1 <= i < |all| ==> all[i] == parts[i - 1] && read[i] == segs[i - 1];
    }
  }

  lemma {:induction false} ParsePartsPointwise(parts: seq<string>, segs: seq<Segment>)
    ensures ParseParts(parts) == Some(segs) <==> PartByPart(parts, segs)
  {
    if parts != [] && segs != [] {
      ParsePartsPointwise(parts[1..], segs[1..]);
      assert parts == [parts[0]] + parts[1..] && segs == [segs[0]] + segs[1..];
      PartByPartCons(parts[0], parts[1..], segs[0], segs[1..]);
      if ParseParts(parts) == Some(segs) {
        assert ParseParts(parts).value[1..] == ParseParts(parts[1..]).value;
      }
    }
  }

  // Printing an accepted path's segments gives the path back.
  lemma PrintOfSegments(path: string)
    requires Segments(path) != []
    ensures WellFormed(Segments(path)) && Print(Segments(path)) == path
  {
    var parts, segs := Parts(path), Segments(path);
    ParsePartsPointwise(parts, segs);
    PartsSound(path);
    forall i | 0 <= i < |segs|
      ensures WellFormedSegment(segs[i]) && PrintPart(segs[i]) == parts[i]
    {
      AtomicPartWellFormed(parts[i]);
      PrintOfParsedPart(parts[i]);
    }
    assert PrintParts(segs) == parts;
  }

  // Parsing a printed segment list gives the list back.
  lemma SegmentsOfPrint(segs: seq<Segment>)
    requires WellFormed(segs)
    ensures Segments(Print(segs)) == segs
  {
    var parts := PrintParts(segs);
    forall i | 0 <= i < |segs|
      ensures Atomic(parts[i]) && ParsePart(parts[i]) == Some(segs[i])
    {
      PrintedPartAtomic(segs[i]);
      ParseOfPrintedPart(segs[i]);
    }
    ScanOfJoin(parts);
    ParsePartsPointwise(parts, segs);
  }

  lemma SegmentsInjective(a: string, b: string)
    requires Segments(a) != [] && Segments(a) == Segments(b)
    ensures a == b
  {
    PrintOfSegments(a);
    PrintOfSegments(b);
  }

  function Combine(a: Option<seq<Segment>>, b: Option<seq<Segment>>): Option<seq<Segment>> {
    if a.None? || b.None? then None else Some(a.value + b.value)
  }

  function One(first: Option<Segment>): Option<seq<Segment>> {
    if first.None? then None else Some([first.value])
  }

  lemma ParsePartsCons(first: string, more: seq<string>)
    ensures ParseParts([first] + more) == Combine(One(ParsePart(first)), ParseParts(more))
  {
  }

  lemma CombineAssociates(a: Option<seq<Segment>>, b: Option<seq<Segment>>, c: Option<seq<Segment>>)
    ensures Combine(Combine(a, b), c) == Combine(a, Combine(b, c))
  {
    if a.Some? && b.Some? && c.Some? {
      assert a.value + b.value + c.value == a.value + (b.value + c.value);
    }
  }

  lemma {:induction false} ParsePartsConcat(a: seq<string>, b: seq<string>)
    ensures ParseParts(a + b) == Combine(ParseParts(a), ParseParts(b))
    decreases a
  {
    if a == [] {
      assert a + b == b;
      assert ParseParts(b).Some? ==> [] + ParseParts(b).value == ParseParts(b).value;
    } else {
      var first, more := a[0], a[1..];
      assert a == [first] + more;
      assert a + b == [first] + (more + b);
      ParsePartsCons(first, more);
      ParsePartsCons(first, more + b);
      ParsePartsConcat(more, b);
      CombineAssociates(One(ParsePart(first)), ParseParts(more), ParseParts(b));
    }
  }

  // Parsing distributes over a dot whenever the right side is itself a path: then
  // the whole is accepted exactly when the left side is.
  lemma SegmentsOfDotted(parent: string, relative: string)
    requires Segments(relative) != []
    ensures Segments(parent + "." + relative) != [] <==> Segments(parent) != []
    ensures Segments(parent) != [] ==> Segments(parent + "." + relative) == Segments(parent) + Segments(relative)
  {
    var whole := parent + "." + relative;
    if Segments(whole) != [] {
      ScanSplits(parent, relative, "", 0);
      ScanJoins(parent, "", 0);
      ParsePartsConcat(Parts(parent), Parts(relative));
      ParsePartsPointwise(Parts(parent), ParseParts(Parts(parent)).value);
    }
    if Segments(parent) != [] {
      PartsSound(parent);
      PartsSound(relative);
      ParsePartsConcat(Parts(parent), Parts(relative));
      JoinConcat(Parts(parent), Parts(relative));
      ScanOfJoin(Parts(parent) + Parts(relative));
    }
  }

  // An accepted path below an accepted path has an accepted remainder.
  lemma RemainderParses(parent: string, relative: string)
    requires Segments(parent) != [] && Segments(parent + "." + relative) != []
    ensures Segments(relative) != []
  {
    ScanSplitsFront(parent, relative, "", 0);
    ScanSplits(parent, relative, "", 0);
    ScanJoins(relative, "", 0);
    ParsePartsConcat(Parts(parent), Parts(relative));
    ParsePartsPointwise(Parts(relative), ParseParts(Parts(relative)).value);
  }

  lemma {:induction false} JoinConcat(a: seq<string>, b: seq<string>)
    requires a != [] && b != []
    ensures Join(a + b) == Join(a) + "." + Join(b)
  {
    if |a| == 1 {
      assert (a + b)[1..] == b;
    } else {
      assert (a + b)[1..] == a[1..] + b;
      JoinConcat(a[1..], b);
      assert a[0] + "." + (Join(a[1..]) + "." + Join(b)) == (a[0] + "." + Join(a[1..])) + "." + Join(b);
    }
  }

  lemma {:induction false} JoinEnding(parts: seq<string>)
    requires parts != []
    ensures EndsWith(Join(parts), parts[|parts| - 1])
  {
    if |parts| > 1 {
      JoinEnding(parts[1..]);
      var tail := Join(parts[1..]);
      assert Join(parts) == (parts[0] + ".") + tail;
      assert Join(parts)[|Join(parts)| - |tail|..] == tail;
    }
  }

  // An accepted path ends in the text of its last segment.
  lemma PathEnding(path: string)
    requires Segments(path) != []
    ensures EndsWith(path, PrintPart(Segments(path)[|Segments(path)| - 1]))
  {
    PrintOfSegments(path);
    JoinEnding(PrintParts(Segments(path)));
  }

  // ----- the loops of the source -----

  function Prepend(parts: seq<string>, more: Option<seq<string>>): Option<seq<string>> {
    if more.None? then None else Some(parts + more.value)
  }

  method FieldPathParts(value: string) returns (parts: seq<string>)
    ensures parts == Parts(value)
  {
    parts := [];
    var start, depth := 0, 0;
    ghost var whole := Scan(value, "", 0);
    assert value[0..] == value && value[0..0] == "" && (whole.Some? ==> [] + whole.value == whole.value);
    for index := 0 to |value|
      invariant 0 <= start <= index && depth >= 0
      invariant whole == Prepend(parts, Scan(value[index..], value[start..index], depth))
    {
      assert value[index..][1..] == value[index + 1..];
      assert value[start..index] + [value[index]] == value[start..index + 1];
      if value[index] == '[' {
        depth := depth + 1;
      } else if value[index] == ']' {
        depth := depth - 1;
        if depth < 0 {
          return [];
        }
      } else if value[index] == '.' && depth == 0 {
        var more := Scan(value[index + 1..], "", 0);
        assert more.Some? ==> parts + ([value[start..index]] + more.value) == parts + [value[start..index]] + more.value;
        parts := parts + [value[start..index]];
        start := index + 1;
        assert value[start..index + 1] == "";
      }
    }
    if depth != 0 {
      return [];
    }
    assert value[|value|..] == "" && value[start..|value|] == value[start..];
    parts := parts + [value[start..]];
  }

  lemma ParsePartsSnoc(front: seq<string>, last: string)
    ensures ParseParts(front + [last]) == Combine(ParseParts(front), One(ParsePart(last)))
  {
    ParsePartsConcat(front, [last]);
    ParsePartsSingle(last);
  }

  // A rejected part rejects the whole path.
  lemma ParsePartsReject(parts: seq<string>, i: nat)
    requires i < |parts| && ParsePart(parts[i]).None?
    ensures ParseParts(parts).None?
  {
    if ParseParts(parts).Some? {
      ParsePartsPointwise(parts, ParseParts(parts).value);
    }
  }

  lemma ParsePartsSingle(part: string)
    ensures ParseParts([part]) == One(ParsePart(part))
  {
    assert [part][1..] == [];
    assert ParsePart(part).Some? ==> [ParsePart(part).value] + [] == [ParsePart(part).value];
  }

  method FieldPathSegments(value: string) returns (segs: seq<Segment>)
    ensures segs == Segments(value)
  {
    segs := [];
    var parts := FieldPathParts(value);
    for i := 0 to |parts|
      invariant ParseParts(parts[..i]) == Some(segs)
    {
      assert parts[..i + 1] == parts[..i] + [parts[i]];
      ParsePartsSnoc(parts[..i], parts[i]);
      var match_ := ParsePart(parts[i]);
      if match_.None? {
        ParsePartsReject(parts, i);
        return [];
      }
      segs := segs + [match_.value];
    }
    assert parts[..|parts|] == parts;
  }
}
