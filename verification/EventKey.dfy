/**
 * The canonical source key of a Kubernetes Event observation: its text determines the
 * uid, the count and the instant, whatever characters the uid holds.
 */
module EventKey {

  // ----- decimal text -----

  function Digit(n: nat): char
    requires n < 10
  {
    (n + '0' as int) as char
  }

  predicate IsDigit(c: char) {
    '0' <= c <= '9'
  }

  // str(n)
  function Decimal(n: nat): (s: string)
    ensures s != "" && forall c :: c in s ==> IsDigit(c)
  {
    if n < 10 then [Digit(n)] else Decimal(n / 10) + [Digit(n % 10)]
  }

  lemma {:induction false} DecimalInjective(m: nat, n: nat)
    requires Decimal(m) == Decimal(n)
    ensures m == n
  {
    var s, t := Decimal(m), Decimal(n);
    assert s[|s| - 1] == Digit(m % 10) && t[|t| - 1] == Digit(n % 10);
    if m >= 10 && n >= 10 {
      assert s[..|s| - 1] == Decimal(m / 10) && t[..|t| - 1] == Decimal(n / 10);
      DecimalInjective(m / 10, n / 10);
    }
  }

  // ----- instants -----

  // An instant by its UTC calendar fields.
  datatype Instant = Instant(year: nat, month: nat, day: nat, hour: nat, minute: nat, second: nat, micro: nat)

  predicate Valid(t: Instant) {
    && 1 <= t.year <= 9999 && 1 <= t.month <= 12 && 1 <= t.day <= 31
    && t.hour < 24 && t.minute < 60 && t.second < 60 && t.micro < 1000000
  }

  // Zero-padded decimal text of a fixed width.
  function Padded(n: nat, width: nat): (s: string)
    ensures |s| == width && forall c :: c in s ==> IsDigit(c)
    decreases width
  {
    if width == 0 then "" else Padded(n / 10, width - 1) + [Digit(n % 10)]
  }

  function Power(width: nat): (p: nat)
    ensures p > 0
  {
    if width == 0 then 1 else 10 * Power(width - 1)
  }

  lemma {:induction false} PaddedInjective(m: nat, n: nat, width: nat)
    requires Padded(m, width) == Padded(n, width) && m < Power(width) && n < Power(width)
    ensures m == n
    decreases width
  {
    if width > 0 {
      var s, t := Padded(m, width), Padded(n, width);
      assert s[|s| - 1] == Digit(m % 10) && t[|t| - 1] == Digit(n % 10);
      assert s[..|s| - 1] == Padded(m / 10, width - 1) && t[..|t| - 1] == Padded(n / 10, width - 1);
      PaddedInjective(m / 10, n / 10, width - 1);
    }
  }

  function Date(t: Instant): (s: string)
    ensures |s| == 10
  {
    Padded(t.year, 4) + "-" + Padded(t.month, 2) + "-" + Padded(t.day, 2)
  }

  function Clock(t: Instant): (s: string)
    ensures |s| == 8
  {
    Padded(t.hour, 2) + ":" + Padded(t.minute, 2) + ":" + Padded(t.second, 2)
  }

  // timestamp_wire_value: ISO 8601 in UTC, with the microseconds only when they are not zero.
  function Wire(t: Instant): string {
    Date(t) + "T" + Clock(t) + if t.micro == 0 then "Z" else "." + Padded(t.micro, 6) + "Z"
  }

  lemma DateInjective(t: Instant, u: Instant)
    requires Valid(t) && Valid(u) && Date(t) == Date(u)
    ensures t.year == u.year && t.month == u.month && t.day == u.day
  {
    assert Padded(t.year, 4) == Date(t)[..4] == Padded(u.year, 4);
    assert Padded(t.month, 2) == Date(t)[5..7] == Padded(u.month, 2);
    assert Padded(t.day, 2) == Date(t)[8..10] == Padded(u.day, 2);
    assert Power(2) == 100 && Power(4) == 10000;
    PaddedInjective(t.year, u.year, 4);
    PaddedInjective(t.month, u.month, 2);
    PaddedInjective(t.day, u.day, 2);
  }

  lemma ClockInjective(t: Instant, u: Instant)
    requires Valid(t) && Valid(u) && Clock(t) == Clock(u)
    ensures t.hour == u.hour && t.minute == u.minute && t.second == u.second
  {
    assert Padded(t.hour, 2) == Clock(t)[..2] == Padded(u.hour, 2);
    assert Padded(t.minute, 2) == Clock(t)[3..5] == Padded(u.minute, 2);
    assert Padded(t.second, 2) == Clock(t)[6..8] == Padded(u.second, 2);
    assert Power(2) == 100;
    PaddedInjective(t.hour, u.hour, 2);
    PaddedInjective(t.minute, u.minute, 2);
    PaddedInjective(t.second, u.second, 2);
  }

  // The eighth character from the end tells the two forms apart.
  lemma WireForm(t: Instant)
    requires Valid(t)
    ensures |Wire(t)| == if t.micro == 0 then 20 else 27
    ensures Wire(t)[|Wire(t)| - 8] == '.' <==> t.micro != 0
    ensures Wire(t)[..10] == Date(t) && Wire(t)[11..19] == Clock(t)
    ensures t.micro != 0 ==> Wire(t)[20..26] == Padded(t.micro, 6)
  {
  }

  lemma WireInjective(t: Instant, u: Instant)
    requires Valid(t) && Valid(u) && Wire(t) == Wire(u)
    ensures t == u
  {
    WireForm(t);
    WireForm(u);
    DateInjective(t, u);
    ClockInjective(t, u);
    if t.micro != 0 {
      assert Power(6) == 1000000 by {
        assert Power(3) == 1000;
        assert Power(5) == 100 * Power(3);
      }
      PaddedInjective(t.micro, u.micro, 6);
    }
  }

  // One text cannot end in the wire forms of two instants.
  lemma WireSuffix(a: string, b: string, t: Instant, u: Instant)
    requires Valid(t) && Valid(u) && a + Wire(t) == b + Wire(u)
    ensures a == b && t == u
  {
    WireForm(t);
    WireForm(u);
    var s := a + Wire(t);
    assert s[|s| - 8] == Wire(t)[|Wire(t)| - 8] && s[|s| - 8] == Wire(u)[|Wire(u)| - 8];
    assert |a| == |b|;
    assert a == s[..|a|] == b && Wire(t) == s[|a|..] == Wire(u);
    WireInjective(t, u);
  }

  // ----- the key -----

  const PREFIX: string := "kubernetes_event:"

  function SourceKey(uid: string, count: nat, at: Instant): string {
    PREFIX + uid + ":" + Decimal(count) + ":" + Wire(at)
  }

  lemma LastColon(a: string, n: nat)
    ensures var s := a + ":" + Decimal(n); s[|a|] == ':' && forall x :: |a| < x < |s| ==> s[x] != ':'
  {
    var s := a + ":" + Decimal(n);
    forall x | |a| < x < |s|
      ensures s[x] != ':'
    {
      assert s[x] == Decimal(n)[x - |a| - 1];
      assert Decimal(n)[x - |a| - 1] in Decimal(n);
    }
  }

  // A count never holds a colon, so the last colon before it ends the uid.
  lemma CountSuffix(a: string, b: string, m: nat, n: nat)
    requires a + ":" + Decimal(m) == b + ":" + Decimal(n)
    ensures a == b && m == n
  {
    var s, i, k := a + ":" + Decimal(m), |a|, |b|;
    assert s[i] == ':' && s[k] == ':';
    assert s[i + 1..] == Decimal(m) && s[k + 1..] == Decimal(n);
    LastColon(a, m);
    LastColon(b, n);
    assert a == s[..i] && b == s[..k];
    DecimalInjective(m, n);
  }

  lemma SourceKeyInjective(uid: string, count: nat, at: Instant, uid': string, count': nat, at': Instant)
    requires Valid(at) && Valid(at') && SourceKey(uid, count, at) == SourceKey(uid', count', at')
    ensures uid == uid' && count == count' && at == at'
  {
    var a, a' := PREFIX + uid + ":" + Decimal(count), PREFIX + uid' + ":" + Decimal(count');
    assert SourceKey(uid, count, at) == (a + ":") + Wire(at) && SourceKey(uid', count', at') == (a' + ":") + Wire(at');
    WireSuffix(a + ":", a' + ":", at, at');
    assert a == (a + ":")[..|a|] && a' == (a' + ":")[..|a'|];
    CountSuffix(PREFIX + uid, PREFIX + uid', count, count');
    assert uid == (PREFIX + uid)[|PREFIX|..] && uid' == (PREFIX + uid')[|PREFIX|..];
  }

  // ----- the order of instants -----

  // The fields as one mixed-radix number: comparing it compares the instants.
  function Stamp(t: Instant): nat {
    Mixed(Mixed(Mixed(Mixed(Mixed(Mixed(t.year, t.month, 13), t.day, 32), t.hour, 24), t.minute, 60), t.second, 60), t.micro, 1000000)
  }

  function Mixed(high: nat, low: nat, radix: nat): nat {
    high * radix + low
  }

  lemma {:induction false} MixedInjective(high: nat, low: nat, high': nat, low': nat, radix: nat)
    requires low < radix && low' < radix && Mixed(high, low, radix) == Mixed(high', low', radix)
    ensures high == high' && low == low'
  {
    assert high > 0 ==> high * radix == (high - 1) * radix + radix;
    assert high' > 0 ==> high' * radix == (high' - 1) * radix + radix;
    if high > 0 && high' > 0 {
      MixedInjective(high - 1, low, high' - 1, low', radix);
    }
  }

  lemma StampInjective(t: Instant, u: Instant)
    requires Valid(t) && Valid(u) && Stamp(t) == Stamp(u)
    ensures t == u
  {
    var m, m' := Mixed(t.year, t.month, 13), Mixed(u.year, u.month, 13);
    var d, d' := Mixed(m, t.day, 32), Mixed(m', u.day, 32);
    var h, h' := Mixed(d, t.hour, 24), Mixed(d', u.hour, 24);
    var n, n' := Mixed(h, t.minute, 60), Mixed(h', u.minute, 60);
    var s, s' := Mixed(n, t.second, 60), Mixed(n', u.second, 60);
    MixedInjective(s, t.micro, s', u.micro, 1000000);
    MixedInjective(n, t.second, n', u.second, 60);
    MixedInjective(h, t.minute, h', u.minute, 60);
    MixedInjective(d, t.hour, d', u.hour, 24);
    MixedInjective(m, t.day, m', u.day, 32);
    MixedInjective(t.year, t.month, u.year, u.month, 13);
  }
}
