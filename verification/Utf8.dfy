/** UTF-8 as TextEncoder writes it and a fatal TextDecoder reads it. */
module Utf8 {
  import opened Base64
  import opened Options
  import opened Sequences

  function EncodeChar(c: char): (b: seq<Byte>)
    ensures 1 <= |b| <= 4
  {
    var n := c as int;
    if n < 0x80 then [n]
    else if n < 0x800 then [0xC0 + n / 0x40, 0x80 + n % 0x40]
    else if n < 0x10000 then [0xE0 + n / 0x1000, 0x80 + n / 0x40 % 0x40, 0x80 + n % 0x40]
    else [0xF0 + n / 0x40000, 0x80 + n / 0x1000 % 0x40, 0x80 + n / 0x40 % 0x40, 0x80 + n % 0x40]
  }

  function Encode(s: string): seq<Byte> {
    if s == [] then [] else EncodeChar(s[0]) + Encode(s[1..])
  }

  predicate Continuation(b: Byte) {
    0x80 <= b < 0xC0
  }

  /** Six more bits from a continuation byte. */
  function More(n: nat, b: Byte): nat
    requires Continuation(b)
  {
    n * 0x40 + (b - 0x80)
  }

  /** The character at the start of b and its length; overlong forms and surrogates are errors. */
  function DecodeChar(b: seq<Byte>): (r: Option<(char, nat)>)
    requires b != []
    ensures r.Some? ==> 0 < r.value.1 <= |b|
  {
    if b[0] < 0x80 then Some((b[0] as char, 1))
    else if 0xC0 <= b[0] < 0xE0 && |b| >= 2 && Continuation(b[1]) then
      var n := More(b[0] - 0xC0, b[1]);
      if n < 0x80 then None else Some((n as char, 2))
    else if 0xE0 <= b[0] < 0xF0 && |b| >= 3 && Continuation(b[1]) && Continuation(b[2]) then
      var n := More(More(b[0] - 0xE0, b[1]), b[2]);
      if n < 0x800 || 0xD800 <= n < 0xE000 then None else Some((n as char, 3))
    else if 0xF0 <= b[0] < 0xF8 && |b| >= 4 && Continuation(b[1]) && Continuation(b[2]) && Continuation(b[3]) then
      var n := More(More(More(b[0] - 0xF0, b[1]), b[2]), b[3]);
      if n < 0x10000 || n >= 0x110000 then None else Some((n as char, 4))
    else None
  }

  function Decode(b: seq<Byte>): Option<string>
    decreases |b|
  {
    if b == [] then Some("")
    else
      match DecodeChar(b)
      case None => None
      case Some((c, n)) =>
        match Decode(b[n..])
        case None => None
        case Some(s) => Some([c] + s)
  }

  /** A fatal decoder that drops a leading byte order mark. */
  function DecodeText(b: seq<Byte>): Option<string> {
    Decode(if [0xEF, 0xBB, 0xBF] <= b then b[3..] else b)
  }

  lemma DecodeEncodedChar(c: char, rest: seq<Byte>)
    ensures DecodeChar(EncodeChar(c) + rest) == Some((c, |EncodeChar(c)|))
  {
    var n := c as int;
    assert n / 0x40 == n / 0x1000 * 0x40 + n / 0x40 % 0x40;
    assert n / 0x1000 == n / 0x40000 * 0x40 + n / 0x1000 % 0x40;
    assert n == n / 0x40 * 0x40 + n % 0x40;
  }

  lemma {:induction false} DecodeEncode(s: string)
    ensures Decode(Encode(s)) == Some(s)
  {
    if s == [] {
    } else {
      DecodeEncode(s[1..]);
      DecodeEncodedChar(s[0], Encode(s[1..]));
      assert Encode(s)[|EncodeChar(s[0])|..] == Encode(s[1..]);
      assert s == [s[0]] + s[1..];
    }
  }

  lemma EncodeDecodedChar(b: seq<Byte>)
    requires b != [] && DecodeChar(b).Some?
    ensures var (c, n) := DecodeChar(b).value; EncodeChar(c) == b[..n]
  {
    hide More;
    if b[0] >= 0xE0 {
      if b[0] < 0xF0 {
        ThreeBytes(b[0], b[1], b[2]);
      } else {
        FourBytes(b[0], b[1], b[2], b[3]);
      }
    } else if b[0] >= 0x80 {
      TwoBytes(b[0], b[1]);
    }
  }

  lemma TwoBytes(a: Byte, b: Byte)
    requires 0xC0 <= a < 0xE0 && Continuation(b)
    ensures var n := More(a - 0xC0, b); n < 0x800 && a == 0xC0 + n / 0x40 && b == 0x80 + n % 0x40
  {
  }

  lemma ThreeBytes(a: Byte, b: Byte, c: Byte)
    requires 0xE0 <= a < 0xF0 && Continuation(b) && Continuation(c)
    ensures var n := More(More(a - 0xE0, b), c);
            n < 0x10000 && a == 0xE0 + n / 0x1000 && b == 0x80 + n / 0x40 % 0x40 && c == 0x80 + n % 0x40
  {
    var n := More(More(a - 0xE0, b), c);
    assert n / 0x40 == More(a - 0xE0, b);
    assert n / 0x1000 == a - 0xE0;
  }

  lemma FourBytes(a: Byte, b: Byte, c: Byte, d: Byte)
    requires 0xF0 <= a < 0xF8 && Continuation(b) && Continuation(c) && Continuation(d)
    ensures var n := More(More(More(a - 0xF0, b), c), d);
            && a == 0xF0 + n / 0x40000 && b == 0x80 + n / 0x1000 % 0x40
            && c == 0x80 + n / 0x40 % 0x40 && d == 0x80 + n % 0x40
  {
    var n := More(More(More(a - 0xF0, b), c), d);
    assert n / 0x40 == More(More(a - 0xF0, b), c);
    assert n / 0x1000 == More(a - 0xF0, b);
    assert n / 0x40000 == a - 0xF0;
  }

  lemma {:induction false} EncodeDecode(b: seq<Byte>)
    requires Decode(b).Some?
    ensures Encode(Decode(b).value) == b
    decreases |b|
  {
    hide DecodeChar, EncodeChar;
    if b == [] {
    } else {
      var (c, n) := DecodeChar(b).value;
      EncodeDecodedChar(b);
      EncodeDecode(b[n..]);
      Cut(b, n);
      Rest(c, Decode(b[n..]).value);
    }
  }

  /** Strict decoding accepts exactly the encodings of texts. */
  lemma DecodeIff(b: seq<Byte>, s: string)
    ensures Decode(b) == Some(s) <==> b == Encode(s)
  {
    if Decode(b).Some? {
      EncodeDecode(b);
    }
    DecodeEncode(s);
  }

  /** Only a text that starts with U+FEFF has an encoding that starts with the byte order mark. */
  lemma MarkIff(s: string)
    ensures [0xEF, 0xBB, 0xBF] <= Encode(s) <==> s != [] && s[0] == 0xFEFF as char
  {
    if s != [] {
      var c := s[0];
      MarkChar(c);
      var b := Encode(s);
      if |EncodeChar(c)| >= 3 {
        assert b[..3] == EncodeChar(c)[..3];
      } else {
        assert b[0] == EncodeChar(c)[0];
      }
    }
  }

  lemma MarkChar(c: char)
    ensures |EncodeChar(c)| < 3 ==> EncodeChar(c)[0] != 0xEF
    ensures |EncodeChar(c)| >= 3 ==> (EncodeChar(c)[..3] == [0xEF, 0xBB, 0xBF] <==> c == 0xFEFF as char)
  {
    var n := c as int;
    if 0x800 <= n < 0x10000 {
      assert EncodeChar(c)[..3] == EncodeChar(c);
      assert n == (n / 0x1000) * 0x1000 + (n / 0x40 % 0x40) * 0x40 + n % 0x40;
    } else if n >= 0x10000 {
      assert EncodeChar(c)[..3][0] == 0xF0 + n / 0x40000;
      assert [0xEF, 0xBB, 0xBF][0] == 0xEF;
    }
  }

  /** The bytes of a text, as they are or after a byte order mark. */
  predicate Spells(b: seq<Byte>, s: string) {
    || b == [0xEF, 0xBB, 0xBF] + Encode(s)
    || (b == Encode(s) && (s != [] ==> s[0] != 0xFEFF as char))
  }

  lemma TextIff(b: seq<Byte>, s: string)
    ensures DecodeText(b) == Some(s) <==> Spells(b, s)
  {
    hide Encode, Decode;
    MarkIff(s);
    if [0xEF, 0xBB, 0xBF] <= b {
      DecodeIff(b[3..], s);
      Cut(b, 3);
    } else {
      DecodeIff(b, s);
    }
  }

  lemma DecodeTextEncode(s: string)
    requires s != [] && s[0] as int < 0x80
    ensures DecodeText(Encode(s)) == Some(s) && Encode(s) != []
  {
    DecodeEncode(s);
    assert Encode(s)[0] == s[0] as int;
  }

  lemma {:induction false} EncodeAppend(s: string, t: string)
    ensures Encode(s + t) == Encode(s) + Encode(t)
  {
    hide EncodeChar;
    if s == [] {
      AppendNothing(t);
      AppendNothing(Encode(t));
    } else {
      EncodeAppend(s[1..], t);
      Uncons(s);
      Associate([s[0]], s[1..], t);
      Rest(s[0], s[1..] + t);
      Associate(EncodeChar(s[0]), Encode(s[1..]), Encode(t));
    }
  }
}
