/** String helpers shared by the models: splitting, joining, decimal and hexadecimal text. */
module Text {
  import opened Base64

  /** First position of c in s, or -1, as String.prototype.indexOf. */
  function IndexOf(s: string, c: char): (i: int)
    ensures i == -1 ==> c !in s
    ensures i != -1 ==> 0 <= i < |s| && s[i] == c && c !in s[..i]
  {
    if s == [] then -1
    else if s[0] == c then 0
    else
      var i := IndexOf(s[1..], c);
      if i == -1 then -1
      else
        assert s[..i + 1] == [s[0]] + s[1..][..i];
        i + 1
  }

  function Join(parts: seq<string>, c: char): string {
    if parts == [] then ""
    else if |parts| == 1 then parts[0]
    else parts[0] + [c] + Join(parts[1..], c)
  }

  ghost predicate Free(parts: seq<string>, c: char) {
    forall i :: 0 <= i < |parts| ==> c !in parts[i]
  }

  /** String.prototype.split by one character: always at least one part, none holding the separator. */
  function Split(s: string, c: char): (parts: seq<string>)
    ensures |parts| >= 1 && Free(parts, c)
    ensures Join(parts, c) == s
    decreases |s|
  {
    var i := IndexOf(s, c);
    if i == -1 then [s]
    else
      assert s == s[..i] + [c] + s[i + 1..];
      [s[..i]] + Split(s[i + 1..], c)
  }

  lemma HeadCut(a: string, x: string, b: string, y: string, c: char)
    requires c !in a && c !in b
    requires a + [c] + x == b + [c] + y
    ensures a == b && x == y
  {
    var s, t := a + [c] + x, b + [c] + y;
    assert s[|a|] == c && t[|b|] == c;
    assert forall i :: 0 <= i < |a| ==> s[i] == a[i] != c;
    assert forall i :: 0 <= i < |b| ==> t[i] == b[i] != c;
    assert a == s[..|a|] && b == t[..|b|];
    assert x == s[|a| + 1..] && y == t[|b| + 1..];
  }

  lemma SeparatorInJoin(parts: seq<string>, c: char)
    requires parts != [] && Free(parts, c)
    ensures c in Join(parts, c) <==> |parts| > 1
  {
    if |parts| > 1 {
      assert Join(parts, c)[|parts[0]|] == c;
    }
  }

  /** Joining separator-free parts loses nothing. */
  lemma {:induction false} JoinInjective(xs: seq<string>, ys: seq<string>, c: char)
    requires xs != [] && ys != [] && Free(xs, c) && Free(ys, c)
    requires Join(xs, c) == Join(ys, c)
    ensures xs == ys
  {
    SeparatorInJoin(xs, c);
    SeparatorInJoin(ys, c);
    if |xs| > 1 {
      HeadCut(xs[0], Join(xs[1..], c), ys[0], Join(ys[1..], c), c);
      JoinInjective(xs[1..], ys[1..], c);
      assert xs == [xs[0]] + xs[1..] && ys == [ys[0]] + ys[1..];
    }
  }

  lemma SplitJoin(parts: seq<string>, c: char)
    requires parts != [] && Free(parts, c)
    ensures Split(Join(parts, c), c) == parts
  {
    JoinInjective(Split(Join(parts, c), c), parts, c);
  }

  // ----- Digits -----

  function Digit(d: nat): (c: char)
    requires d < 10
    ensures '0' <= c <= '9'
  {
    ('0' as int + d) as char
  }

  function Decimal(n: nat): (s: string)
    ensures |s| >= 1 && forall i :: 0 <= i < |s| ==> '0' <= s[i] <= '9'
  {
    if n < 10 then [Digit(n)] else Decimal(n / 10) + [Digit(n % 10)]
  }

  function ReadDecimal(s: string): nat
    requires forall i :: 0 <= i < |s| ==> '0' <= s[i] <= '9'
  {
    if s == [] then 0
    else 10 * ReadDecimal(s[..|s| - 1]) + (s[|s| - 1] as int - '0' as int)
  }

  lemma {:induction false} DecimalRoundTrip(n: nat)
    ensures ReadDecimal(Decimal(n)) == n
  {
    var s := Decimal(n);
    if n >= 10 {
      DecimalRoundTrip(n / 10);
      assert s[..|s| - 1] == Decimal(n / 10);
    } else {
      assert s[..0] == [];
      assert ReadDecimal(s) == 10 * ReadDecimal(s[..0]) + n;
    }
  }

  function HexDigit(d: nat): (c: char)
    requires d < 16
    ensures '0' <= c <= '9' || 'a' <= c <= 'f'
  {
    if d < 10 then Digit(d) else ('a' as int + d - 10) as char
  }

  /** Two lower-case hexadecimal digits a byte. */
  function BytesToHex(value: seq<Byte>): (s: string)
    ensures |s| == 2 * |value|
    ensures forall i :: 0 <= i < |s| ==> '0' <= s[i] <= '9' || 'a' <= s[i] <= 'f'
  {
    if value == [] then ""
    else [HexDigit(value[0] / 16), HexDigit(value[0] % 16)] + BytesToHex(value[1..])
  }

  lemma {:induction false} HexAt(value: seq<Byte>, i: nat)
    requires i < |value|
    ensures BytesToHex(value)[2 * i] == "0123456789abcdef"[value[i] / 16]
    ensures BytesToHex(value)[2 * i + 1] == "0123456789abcdef"[value[i] % 16]
  {
    if i > 0 {
      HexAt(value[1..], i - 1);
    }
  }

  lemma {:induction false} HexInjective(x: seq<Byte>, y: seq<Byte>)
    requires BytesToHex(x) == BytesToHex(y)
    ensures x == y
  {
    var s, t := BytesToHex(x), BytesToHex(y);
    assert |x| == |y|;
    if x == [] {
    } else {
      assert s[0] == t[0] && s[1] == t[1];
      assert x[0] == x[0] / 16 * 16 + x[0] % 16 && y[0] == y[0] / 16 * 16 + y[0] % 16;
      assert s[2..] == BytesToHex(x[1..]) && t[2..] == BytesToHex(y[1..]);
      HexInjective(x[1..], y[1..]);
      assert x == [x[0]] + x[1..] && y == [y[0]] + y[1..];
    }
  }
}
