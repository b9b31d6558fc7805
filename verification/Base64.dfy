/**
 * Base64 text with the URL-safe alphabet of section 5 of RFC 4648, its padding stripped on
 * encoding and restored on decoding (section 3.2 of RFC 4648).
 */
module Base64 {
  import opened Json

  type Byte = x: int | 0 <= x < 256

  type Sextet = x: int | 0 <= x < 64

  function Symbol(v: Sextet): char {
    if v < 26 then ('A' as int + v) as char
    else if v < 52 then ('a' as int + v - 26) as char
    else if v < 62 then ('0' as int + v - 52) as char
    else if v == 62 then '-'
    else '_'
  }

  // The decoder first maps the URL-safe symbols to the standard ones, and takes both.
  function Value(c: char): Option<Sextet> {
    if 'A' <= c <= 'Z' then Some(c as int - 'A' as int)
    else if 'a' <= c <= 'z' then Some(c as int - 'a' as int + 26)
    else if '0' <= c <= '9' then Some(c as int - '0' as int + 52)
    else if c == '-' || c == '+' then Some(62)
    else if c == '_' || c == '/' then Some(63)
    else None
  }

  lemma ValueOfSymbol(v: Sextet)
    ensures Value(Symbol(v)) == Some(v) && Symbol(v) != '=' && Symbol(v) != '.'
  {
  }

  // ----- encoding -----

  function Quad(a: Byte, b: Byte, c: Byte): string {
    [Symbol(a / 4), Symbol(a % 4 * 16 + b / 16), Symbol(b % 16 * 4 + c / 64), Symbol(c % 64)]
  }

  // urlsafe_b64encode, with its padding.
  function PaddedText(bs: seq<Byte>): string {
    if |bs| == 0 then ""
    else if |bs| == 1 then [Symbol(bs[0] / 4), Symbol(bs[0] % 4 * 16), '=', '=']
    else if |bs| == 2 then [Symbol(bs[0] / 4), Symbol(bs[0] % 4 * 16 + bs[1] / 16), Symbol(bs[1] % 16 * 4), '=']
    else Quad(bs[0], bs[1], bs[2]) + PaddedText(bs[3..])
  }

  // rstrip("=")
  function Unpadded(s: string): string {
    if s != "" && s[|s| - 1] == '=' then Unpadded(s[..|s| - 1]) else s
  }

  // _encode
  function Encode(bs: seq<Byte>): string {
    Unpadded(PaddedText(bs))
  }

  // ----- decoding -----

  function Fill(n: nat): string {
    seq(n, i => '=')
  }

  // The padding _decode appends: -len(value) % 4 signs.
  function Padded(s: string): string {
    s + Fill((-|s|) % 4)
  }

  // One group of four characters that is not padded.
  function Triple(s: string): Option<seq<Byte>>
    requires |s| == 4
  {
    var w, x, y, z := Value(s[0]), Value(s[1]), Value(s[2]), Value(s[3]);
    if w.None? || x.None? || y.None? || z.None? then None
    else Some([w.value * 4 + x.value / 16, x.value % 16 * 16 + y.value / 4, y.value % 4 * 64 + z.value])
  }

  // The last group of four characters, possibly padded.
  function LastGroup(s: string): Option<seq<Byte>>
    requires |s| == 4
  {
    var w, x, y := Value(s[0]), Value(s[1]), Value(s[2]);
    if s[3] != '=' then Triple(s)
    else if w.None? || x.None? then None
    else if s[2] == '=' then Some([w.value * 4 + x.value / 16])
    else if y.None? then None
    else Some([w.value * 4 + x.value / 16, x.value % 16 * 16 + y.value / 4])
  }

  // b64decode with validation: whole groups, padding only at the end.
  function Groups(s: string): Option<seq<Byte>> {
    if s == "" then Some([])
    else if |s| < 4 then None
    else if |s| == 4 then LastGroup(s)
    else
      var first, rest := Triple(s[..4]), Groups(s[4..]);
      if first.None? || rest.None? then None else Some(first.value + rest.value)
  }

  // _decode
  function Decode(s: string): Option<seq<Byte>> {
    Groups(Padded(s))
  }

  // ----- the padding is restored -----

  lemma {:induction false} UnpaddedAfter(g: string, t: string)
    requires g != "" && g[|g| - 1] != '='
    ensures Unpadded(g + t) == g + Unpadded(t)
    decreases |t|
  {
    if t == "" {
      assert g + t == g;
    } else if t[|t| - 1] == '=' {
      assert (g + t)[..|g + t| - 1] == g + t[..|t| - 1];
      UnpaddedAfter(g, t[..|t| - 1]);
    }
  }

  lemma UnpaddedShort(a: char, b: char, c: char)
    requires a != '=' && b != '=' && c != '='
    ensures Unpadded([a, b, '=', '=']) == [a, b] && Unpadded([a, b, c, '=']) == [a, b, c]
  {
    assert Unpadded([a, b]) == [a, b] && Unpadded([a, b, c]) == [a, b, c];
    assert [a, b, '=', '='][..3] == [a, b, '='] && [a, b, '='][..2] == [a, b];
    assert [a, b, c, '='][..3] == [a, b, c];
  }

  // For every byte string the stripped padding comes back.
  lemma {:induction false} PaddingRestored(bs: seq<Byte>)
    ensures Padded(Encode(bs)) == PaddedText(bs)
    decreases |bs|
  {
    if |bs| == 0 {
      assert Fill(0) == "";
    } else if |bs| == 1 {
      ValueOfSymbol(bs[0] / 4);
      ValueOfSymbol(bs[0] % 4 * 16);
      UnpaddedShort(Symbol(bs[0] / 4), Symbol(bs[0] % 4 * 16), 'A');
      assert Fill(2) == "==";
    } else if |bs| == 2 {
      ValueOfSymbol(bs[0] / 4);
      ValueOfSymbol(bs[0] % 4 * 16 + bs[1] / 16);
      ValueOfSymbol(bs[1] % 16 * 4);
      UnpaddedShort(Symbol(bs[0] / 4), Symbol(bs[0] % 4 * 16 + bs[1] / 16), Symbol(bs[1] % 16 * 4));
      assert Fill(1) == "=";
    } else {
      var g, t := Quad(bs[0], bs[1], bs[2]), PaddedText(bs[3..]);
      ValueOfSymbol(bs[2] % 64);
      UnpaddedAfter(g, t);
      PaddingRestored(bs[3..]);
      LongerByFour(Encode(bs[3..]), g);
    }
  }

  lemma LongerByFour(s: string, g: string)
    requires |g| == 4
    ensures Padded(g + s) == g + Padded(s)
  {
  }

  // ----- the round trip -----

  lemma Bits(a: Byte, b: Byte, c: Byte)
    ensures a / 4 * 4 + (a % 4 * 16 + b / 16) / 16 == a
    ensures (a % 4 * 16 + b / 16) % 16 * 16 + (b % 16 * 4 + c / 64) / 4 == b
    ensures (b % 16 * 4 + c / 64) % 4 * 64 + c % 64 == c
  {
  }

  lemma TripleOfValues(s: string, w: Sextet, x: Sextet, y: Sextet, z: Sextet)
    requires |s| == 4 && Value(s[0]) == Some(w) && Value(s[1]) == Some(x) && Value(s[2]) == Some(y) && Value(s[3]) == Some(z)
    ensures Triple(s) == Some([w * 4 + x / 16, x % 16 * 16 + y / 4, y % 4 * 64 + z])
  {
  }

  lemma QuadIsTriple(a: Byte, b: Byte, c: Byte)
    ensures Triple(Quad(a, b, c)) == Some([a, b, c])
  {
    var w, x, y, z := a / 4, a % 4 * 16 + b / 16, b % 16 * 4 + c / 64, c % 64;
    ValueOfSymbol(w);
    ValueOfSymbol(x);
    ValueOfSymbol(y);
    ValueOfSymbol(z);
    TripleOfValues(Quad(a, b, c), w, x, y, z);
    Bits(a, b, c);
  }

  lemma LastOfTwo(s: string, w: Sextet, x: Sextet, y: Sextet)
    requires |s| == 4 && Value(s[0]) == Some(w) && Value(s[1]) == Some(x) && Value(s[2]) == Some(y) && s[2] != '=' && s[3] == '='
    ensures LastGroup(s) == Some([w * 4 + x / 16, x % 16 * 16 + y / 4])
  {
  }

  lemma OneByte(a: Byte)
    ensures LastGroup(PaddedText([a])) == Some([a])
  {
  }

  lemma TwoBytes(a: Byte, b: Byte)
    ensures LastGroup(PaddedText([a, b])) == Some([a, b])
  {
    ValueOfSymbol(a / 4);
    ValueOfSymbol(a % 4 * 16 + b / 16);
    ValueOfSymbol(b % 16 * 4);
    LastOfTwo(PaddedText([a, b]), a / 4, a % 4 * 16 + b / 16, b % 16 * 4);
    Bits(a, b, 0);
  }

  lemma GroupsFollow(g: string, t: string)
    requires |g| == 4 && g[3] != '=' && Triple(g).Some? && Groups(t).Some?
    ensures Groups(g + t) == Some(Triple(g).value + Groups(t).value)
  {
    if t == "" {
      assert g + t == g && Triple(g).value + [] == Triple(g).value;
    } else {
      assert (g + t)[..4] == g && (g + t)[4..] == t;
    }
  }

  lemma {:induction false} GroupsOfText(bs: seq<Byte>)
    ensures Groups(PaddedText(bs)) == Some(bs)
    decreases |bs|
  {
    if |bs| == 1 {
      OneByte(bs[0]);
      assert bs == [bs[0]];
    } else if |bs| == 2 {
      TwoBytes(bs[0], bs[1]);
      assert bs == [bs[0], bs[1]];
    } else if |bs| > 2 {
      var g, t := Quad(bs[0], bs[1], bs[2]), PaddedText(bs[3..]);
      QuadIsTriple(bs[0], bs[1], bs[2]);
      GroupsOfText(bs[3..]);
      ValueOfSymbol(bs[2] % 64);
      GroupsFollow(g, t);
      assert bs == [bs[0], bs[1], bs[2]] + bs[3..];
    }
  }

  // Decoding undoes encoding on every byte string.
  lemma DecodeOfEncode(bs: seq<Byte>)
    ensures Decode(Encode(bs)) == Some(bs)
  {
    PaddingRestored(bs);
    GroupsOfText(bs);
  }

  lemma {:induction false} UnpaddedKeeps(s: string, c: char)
    requires c in Unpadded(s)
    ensures c in s
    decreases |s|
  {
    if s != "" && s[|s| - 1] == '=' {
      UnpaddedKeeps(s[..|s| - 1], c);
    }
  }

  lemma {:induction false} TextHasNoDot(bs: seq<Byte>)
    ensures '.' !in PaddedText(bs)
    decreases |bs|
  {
    forall v: Sextet ensures Symbol(v) != '.' { ValueOfSymbol(v); }
    if |bs| > 2 {
      TextHasNoDot(bs[3..]);
    }
  }

  // Encoded text never holds the separator of a token.
  lemma EncodedHasNoDot(bs: seq<Byte>)
    ensures '.' !in Encode(bs)
  {
    TextHasNoDot(bs);
    if '.' in Encode(bs) {
      UnpaddedKeeps(PaddedText(bs), '.');
    }
  }
}
