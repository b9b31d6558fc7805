/**
 * The string operations the program relies on: Python's whitespace, `strip`,
 * prefix and suffix tests, and the code-point order used by `sorted`.
 */
module Text {
  // str.isspace for one character.
  predicate IsSpace(c: char) {
    '\t' <= c <= '\r' || '\U{1C}' <= c <= ' ' || c == '\U{85}' || c == '\U{A0}' ||
    c == '\U{1680}' || '\U{2000}' <= c <= '\U{200A}' || c == '\U{2028}' || c == '\U{2029}' ||
    c == '\U{202F}' || c == '\U{205F}' || c == '\U{3000}'
  }

  predicate StartsWith(s: string, prefix: string) {
    prefix <= s
  }

  predicate EndsWith(s: string, suffix: string) {
    |suffix| <= |s| && s[|s| - |suffix|..] == suffix
  }

  function LStrip(s: string): string {
    if s != "" && IsSpace(s[0]) then LStrip(s[1..]) else s
  }

  function RStrip(s: string): string {
    if s != "" && IsSpace(s[|s| - 1]) then RStrip(s[..|s| - 1]) else s
  }

  function Strip(s: string): string {
    LStrip(RStrip(s))
  }

  lemma {:induction false} RStripNoTrailingSpace(s: string)
    ensures RStrip(s) != "" ==> !IsSpace(RStrip(s)[|RStrip(s)| - 1])
  {
    if s != "" && IsSpace(s[|s| - 1]) {
      RStripNoTrailingSpace(s[..|s| - 1]);
    }
  }

  lemma {:induction false} LStripKeepsEnd(s: string)
    requires s != "" ==> !IsSpace(s[|s| - 1])
    ensures LStrip(s) != "" ==> !IsSpace(LStrip(s)[|LStrip(s)| - 1]) && !IsSpace(LStrip(s)[0])
    ensures s != "" ==> LStrip(s) != ""
  {
    if s != "" && IsSpace(s[0]) {
      LStripKeepsEnd(s[1..]);
    }
  }

  // Stripped text neither starts nor ends with whitespace, so stripping twice changes nothing.
  lemma StripIdempotent(s: string)
    ensures Strip(Strip(s)) == Strip(s)
  {
    RStripNoTrailingSpace(s);
    LStripKeepsEnd(RStrip(s));
  }

  // The order of Python's `sorted` on strings: lexicographic by code point.
  predicate Less(a: string, b: string) {
    b != "" && (a == "" || a[0] < b[0] || (a[0] == b[0] && Less(a[1..], b[1..])))
  }

  lemma {:induction false} LessTotal(a: string, b: string)
    ensures a == b || Less(a, b) || Less(b, a)
    ensures !(Less(a, b) && Less(b, a)) && !Less(a, a)
  {
    if a != "" && b != "" {
      LessTotal(a[1..], b[1..]);
      assert a[1..] == b[1..] && a[0] == b[0] ==> a == b by {
        assert a == [a[0]] + a[1..] && b == [b[0]] + b[1..];
      }
    }
    if a != "" {
      LessTotal(a[1..], a[1..]);
    }
  }

  lemma {:induction false} LessTransitive(a: string, b: string, c: string)
    requires Less(a, b) && Less(b, c)
    ensures Less(a, c)
  {
    if a != "" && a[0] == b[0] == c[0] {
      LessTransitive(a[1..], b[1..], c[1..]);
    }
  }

  predicate Ascending(xs: seq<string>) {
    forall i, j :: 0 <= i < j < |xs| ==> Less(xs[i], xs[j])
  }

  lemma InsertedAscending(xs: seq<string>, x: string, k: nat)
    requires Ascending(xs) && k <= |xs|
    requires (forall i :: 0 <= i < k ==> Less(xs[i], x)) && (forall i :: k <= i < |xs| ==> Less(x, xs[i]))
    ensures Ascending(xs[..k] + [x] + xs[k..])
  {
  }

  // Where x goes: every earlier text is below it, every later one above.
  lemma BelowInserted(xs: seq<string>, x: string, k: nat)
    requires Ascending(xs) && x !in xs && k <= |xs| && (k > 0 ==> !Less(x, xs[k - 1]))
    ensures forall i :: 0 <= i < k ==> Less(xs[i], x)
  {
    forall i | 0 <= i < k
      ensures Less(xs[i], x)
    {
      LessTotal(xs[k - 1], x);
      assert xs[k - 1] in xs;
      if i < k - 1 {
        LessTransitive(xs[i], xs[k - 1], x);
      }
    }
  }

  method Insert(xs: seq<string>, x: string) returns (ys: seq<string>)
    requires Ascending(xs) && x !in xs
    ensures Ascending(ys)
    ensures forall y :: y in ys <==> y == x || y in xs
  {
    var k := |xs|;
    while k > 0 && Less(x, xs[k - 1])
      invariant 0 <= k <= |xs|
      invariant forall j :: k <= j < |xs| ==> Less(x, xs[j])
    {
      k := k - 1;
    }
    BelowInserted(xs, x, k);
    InsertedAscending(xs, x, k);
    ys := xs[..k] + [x] + xs[k..];
    assert xs == xs[..k] + xs[k..];
  }

  // sorted(s)
  method Sorted(s: set<string>) returns (xs: seq<string>)
    ensures Ascending(xs)
    ensures forall x :: x in xs <==> x in s
  {
    xs := [];
    var rest := s;
    while rest != {}
      invariant rest <= s
      invariant Ascending(xs)
      invariant forall x :: x in xs <==> x in s - rest
      decreases rest
    {
      var x :| x in rest;
      xs := Insert(xs, x);
      rest := rest - {x};
    }
  }
}
