/**
 * Text splicing: the loop that rewrites spans of the source from right to left,
 * and the simultaneous substitution it amounts to when the spans are disjoint.
 */
module Splice {
  datatype Span = Span(start: nat, end: nat, text: string)

  predicate Fits(source: string, s: Span) {
    s.start <= s.end <= |source|
  }

  predicate Disjoint(a: Span, b: Span) {
    a.end <= b.start || b.end <= a.start
  }

  // Pairwise disjoint spans of the source; empty spans are allowed, but no two
  // spans have the same boundaries.
  predicate SpansOk(source: string, spans: seq<Span>) {
    (forall i :: 0 <= i < |spans| ==> Fits(source, spans[i])) &&
    forall i, j :: 0 <= i < j < |spans| ==>
      Disjoint(spans[i], spans[j]) && (spans[i].start != spans[j].start || spans[i].end != spans[j].end)
  }

  // The order of Python's sorted() on (start, end, text) tuples, up to equal boundaries.
  predicate Before(a: Span, b: Span) {
    a.start < b.start || (a.start == b.start && a.end <= b.end)
  }

  predicate Ascending(spans: seq<Span>) {
    forall i, j :: 0 <= i < j < |spans| ==> Before(spans[i], spans[j])
  }

  lemma InsertedAscending(asc: seq<Span>, k: nat, s: Span)
    requires Ascending(asc) && k <= |asc|
    requires forall i :: 0 <= i < k ==> Before(asc[i], s)
    requires forall j :: k <= j < |asc| ==> Before(s, asc[j])
    ensures Ascending(asc[..k] + [s] + asc[k..])
  {
  }

  method Insert(asc: seq<Span>, s: Span) returns (more: seq<Span>)
    requires Ascending(asc)
    ensures multiset(more) == multiset(asc) + multiset{s} && Ascending(more)
  {
    var k := |asc|;
    while k > 0 && !Before(asc[k - 1], s)
      invariant 0 <= k <= |asc|
      invariant forall j :: k <= j < |asc| ==> Before(s, asc[j])
    {
      k := k - 1;
    }
    forall i | 0 <= i < k
      ensures Before(asc[i], s)
    {
      assert i < k - 1 ==> Before(asc[i], asc[k - 1]);
    }
    InsertedAscending(asc, k, s);
    assert asc == asc[..k] + asc[k..];
    more := asc[..k] + [s] + asc[k..];
  }

  method Sorted(spans: seq<Span>) returns (asc: seq<Span>)
    ensures multiset(asc) == multiset(spans) && Ascending(asc)
  {
    asc := [];
    for n := 0 to |spans|
      invariant multiset(asc) == multiset(spans[..n]) && Ascending(asc)
    {
      assert spans[..n + 1] == spans[..n] + [spans[n]];
      asc := Insert(asc, spans[n]);
    }
    assert spans[..|spans|] == spans;
  }

  function Min(a: nat, b: nat): nat {
    if a < b then a else b
  }

  // patched[:start] + text + patched[end:], with Python's clamping of slice bounds.
  function Cut(patched: string, s: Span): string {
    patched[..Min(s.start, |patched|)] + s.text + patched[Min(s.end, |patched|)..]
  }

  // The loop: later spans of the ascending list are cut first.
  function CutAll(source: string, asc: seq<Span>): string {
    if asc == [] then source else Cut(CutAll(source, asc[1..]), asc[0])
  }

  // Spans in ascending order, each ending before the next begins.
  predicate Chain(source: string, from: nat, asc: seq<Span>)
    decreases asc
  {
    if asc == [] then from <= |source|
    else from <= asc[0].start && Fits(source, asc[0]) && Chain(source, asc[0].end, asc[1..])
  }

  // The source from `from` on, with every span replaced by its text.
  function Substitute(source: string, from: nat, asc: seq<Span>): string
    requires Chain(source, from, asc)
    decreases asc
  {
    if asc == [] then source[from..]
    else source[from..asc[0].start] + asc[0].text + Substitute(source, asc[0].end, asc[1..])
  }

  lemma {:induction false} ChainEarlier(source: string, from: nat, earlier: nat, asc: seq<Span>)
    requires Chain(source, from, asc) && earlier <= from
    ensures Chain(source, earlier, asc)
    ensures from <= |source|
    ensures Substitute(source, earlier, asc) == source[earlier..from] + Substitute(source, from, asc)
  {
    if asc == [] {
      assert source[earlier..] == source[earlier..from] + source[from..];
    } else {
      var first, below := asc[0], Substitute(source, asc[0].end, asc[1..]);
      ChainInside(source, first.end, asc[1..]);
      assert source[earlier..first.start] == source[earlier..from] + source[from..first.start];
      assert source[earlier..from] + source[from..first.start] + first.text + below
          == source[earlier..from] + (source[from..first.start] + first.text + below);
    }
  }

  lemma ChainInside(source: string, from: nat, asc: seq<Span>)
    requires Chain(source, from, asc)
    ensures from <= |source|
  {
  }

  // Cutting from right to left is the simultaneous substitution.
  lemma {:induction false} CutAllIsSubstitute(source: string, asc: seq<Span>)
    requires Chain(source, 0, asc)
    ensures CutAll(source, asc) == Substitute(source, 0, asc)
  {
    if asc != [] {
      var s, rest := asc[0], asc[1..];
      ChainEarlier(source, s.end, 0, rest);
      CutAllIsSubstitute(source, rest);
      var patched := Substitute(source, 0, rest);
      assert patched == source[0..s.end] + Substitute(source, s.end, rest);
      assert patched[..s.start] == source[0..s.start];
      assert patched[s.end..] == Substitute(source, s.end, rest);
    }
  }

  lemma OkInOrder(source: string, a: Span, b: Span)
    requires Fits(source, a) && Fits(source, b) && Disjoint(a, b) && Before(a, b)
    requires a.start != b.start || a.end != b.end
    ensures a.end <= b.start
  {
  }

  function Without<T>(s: seq<T>, k: nat): seq<T>
    requires k < |s|
  {
    s[..k] + s[k + 1..]
  }

  lemma WithoutMultiset<T>(s: seq<T>, k: nat)
    requires k < |s|
    ensures multiset(s) == multiset(Without(s, k)) + multiset{s[k]}
  {
    assert s == s[..k] + [s[k]] + s[k + 1..];
  }

  lemma WithoutAt<T>(s: seq<T>, k: nat, y: T) returns (q: nat)
    requires k < |s| && y in Without(s, k)
    ensures q < |s| && q != k && s[q] == y
  {
    var i :| 0 <= i < |Without(s, k)| && Without(s, k)[i] == y;
    q := if i < k then i else i + 1;
  }

  lemma MultisetMember<T>(a: seq<T>, b: seq<T>, i: nat, j: nat)
    requires multiset(a) == multiset(b) && i < j < |a|
    ensures exists p, q :: 0 <= p < |b| && 0 <= q < |b| && p != q && b[p] == a[i] && b[q] == a[j]
  {
    assert a[i] in multiset(b);
    var p :| 0 <= p < |b| && b[p] == a[i];
    WithoutMultiset(a, i);
    WithoutMultiset(b, p);
    assert Without(a, i)[j - 1] == a[j];
    assert a[j] in multiset(Without(a, i));
    assert multiset(Without(a, i)) == multiset(Without(b, p)) by {
      assert multiset(Without(a, i)) == multiset(a) - multiset{a[i]};
      assert multiset(Without(b, p)) == multiset(b) - multiset{a[i]};
    }
    var q := WithoutAt(b, p, a[j]);
  }

  lemma OkPermuted(source: string, spans: seq<Span>, asc: seq<Span>)
    requires SpansOk(source, spans) && multiset(asc) == multiset(spans)
    ensures SpansOk(source, asc)
  {
    forall i | 0 <= i < |asc|
      ensures Fits(source, asc[i])
    {
      assert asc[i] in multiset(asc);
      assert asc[i] in spans;
    }
    forall i, j | 0 <= i < j < |asc|
      ensures Disjoint(asc[i], asc[j]) && (asc[i].start != asc[j].start || asc[i].end != asc[j].end)
    {
      MultisetMember(asc, spans, i, j);
    }
  }

  lemma {:induction false} OkChain(source: string, from: nat, asc: seq<Span>)
    requires SpansOk(source, asc) && Ascending(asc) && from <= |source|
    requires asc != [] ==> from <= asc[0].start
    ensures Chain(source, from, asc)
    decreases asc
  {
    if asc != [] {
      if |asc| > 1 {
        OkInOrder(source, asc[0], asc[1]);
      }
      OkChain(source, asc[0].end, asc[1..]);
    }
  }

  // The text with the sorted spans cut in; for well-placed spans, the simultaneous substitution.
  ghost predicate SplicedBy(source: string, spans: seq<Span>, asc: seq<Span>, patched: string) {
    && multiset(asc) == multiset(spans) && Ascending(asc)
    && patched == CutAll(source, asc)
    && (SpansOk(source, spans) ==> Chain(source, 0, asc) && patched == Substitute(source, 0, asc))
  }

  // The splice of the source. Whatever the spans, it is the right-to-left loop; for
  // well-placed spans that loop is the simultaneous substitution.
  method SpliceSpans(source: string, spans: seq<Span>) returns (patched: string)
    ensures exists asc :: SplicedBy(source, spans, asc, patched)
  {
    var order := Sorted(spans);
    patched := source;
    var k := |order|;
    while k > 0
      invariant 0 <= k <= |order|
      invariant patched == CutAll(source, order[k..])
    {
      k := k - 1;
      assert order[k..][1..] == order[k + 1..];
      patched := patched[..Min(order[k].start, |patched|)] + order[k].text + patched[Min(order[k].end, |patched|)..];
    }
    assert order[0..] == order;
    if SpansOk(source, spans) {
      OkPermuted(source, spans, order);
      OkChain(source, 0, order);
      CutAllIsSubstitute(source, order);
    }
    assert SplicedBy(source, spans, order, patched);
  }

  // ----- what the substitution keeps -----

  // How far the text after the first `n` spans has moved.
  function Growth(asc: seq<Span>, n: nat): int
    requires n <= |asc|
  {
    if n == 0 then 0 else Growth(asc, n - 1) + |asc[n - 1].text| - (asc[n - 1].end - asc[n - 1].start)
  }

  lemma {:induction false} GrowthShift(asc: seq<Span>, n: nat)
    requires asc != [] && 1 <= n <= |asc|
    ensures Growth(asc, n) == |asc[0].text| - (asc[0].end - asc[0].start) + Growth(asc[1..], n - 1)
  {
    if n > 1 {
      GrowthShift(asc, n - 1);
    }
  }

  lemma {:induction false} SubstituteLength(source: string, from: nat, asc: seq<Span>)
    requires Chain(source, from, asc)
    ensures from <= |source|
    ensures |Substitute(source, from, asc)| == |source| - from + Growth(asc, |asc|)
    decreases asc
  {
    if asc != [] {
      SubstituteLength(source, asc[0].end, asc[1..]);
      GrowthShift(asc, |asc|);
    }
  }

  // A character after the first `n` spans and before the rest stays, moved by the
  // growth of those `n` spans.
  lemma {:induction false} SubstituteOutside(source: string, from: nat, asc: seq<Span>, n: nat, i: nat)
    requires Chain(source, from, asc) && n <= |asc| && from <= i < |source|
    requires n > 0 ==> asc[n - 1].end <= i
    requires n < |asc| ==> i < asc[n].start
    ensures 0 <= i - from + Growth(asc, n) < |Substitute(source, from, asc)|
    ensures Substitute(source, from, asc)[i - from + Growth(asc, n)] == source[i]
    decreases asc
  {
    if asc == [] {
      assert source[from..][i - from] == source[i];
    } else {
      SubstituteUnfolds(source, from, asc);
      var kept, below := source[from..asc[0].start], Substitute(source, asc[0].end, asc[1..]);
      if n == 0 {
        assert kept[i - from] == source[i];
      } else {
        ChainBounds(source, from, asc, n - 1);
        SubstituteOutside(source, asc[0].end, asc[1..], n - 1, i);
        GrowthShift(asc, n);
        CharBelow(kept, asc[0].text, below, i - asc[0].end + Growth(asc[1..], n - 1));
      }
    }
  }

  lemma CharBelow(kept: string, first: string, below: string, at: nat)
    requires at < |below|
    ensures (kept + (first + below))[|kept| + |first| + at] == below[at]
  {
  }

  lemma {:induction false} ChainBounds(source: string, from: nat, asc: seq<Span>, n: nat)
    requires Chain(source, from, asc) && n < |asc|
    ensures from <= asc[0].end <= asc[n].end
    decreases n
  {
    if n > 0 {
      ChainBounds(source, asc[0].end, asc[1..], n - 1);
    }
  }

  predicate Stands(whole: string, at: int, text: string) {
    0 <= at && at + |text| <= |whole| && whole[at..at + |text|] == text
  }

  lemma SubstituteUnfolds(source: string, from: nat, asc: seq<Span>)
    requires Chain(source, from, asc) && asc != []
    ensures Chain(source, asc[0].end, asc[1..])
    ensures Substitute(source, from, asc) == source[from..asc[0].start] + (asc[0].text + Substitute(source, asc[0].end, asc[1..]))
  {
  }

  // Each span's text stands where the span was, moved by the growth before it.
  lemma {:induction false} SubstituteInside(source: string, from: nat, asc: seq<Span>, n: nat)
    requires Chain(source, from, asc) && n < |asc|
    ensures Stands(Substitute(source, from, asc), asc[n].start - from + Growth(asc, n), asc[n].text)
    decreases asc
  {
    SubstituteUnfolds(source, from, asc);
    var kept, first, below := source[from..asc[0].start], asc[0], Substitute(source, asc[0].end, asc[1..]);
    if n == 0 {
      FirstStands(kept, first.text, below);
    } else {
      SubstituteInside(source, first.end, asc[1..], n - 1);
      var at := asc[1..][n - 1].start - first.end + Growth(asc[1..], n - 1);
      LaterStands(kept, first.text, below, at, asc[1..][n - 1].text);
      GrowthShift(asc, n);
      assert |kept| + |first.text| + at == asc[n].start - from + Growth(asc, n);
    }
  }

  lemma FirstStands(kept: string, first: string, below: string)
    ensures Stands(kept + (first + below), |kept|, first)
  {
  }

  lemma LaterStands(kept: string, first: string, below: string, at: nat, text: string)
    requires Stands(below, at, text)
    ensures Stands(kept + (first + below), |kept| + |first| + at, text)
  {
    assert (kept + (first + below))[|kept| + |first|..] == below;
  }
}
