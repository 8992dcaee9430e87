/**
  How JSON texts are written (sections 2, 3, 6 and 7 of RFC 8259): blanks, string pieces, the parts
  of a number and the three words, put together from what they mean; and that the lexer and parser
  read exactly these texts, to that meaning.
*/
module JsonSpelling {
  import opened Json
  import opened JsonText
  import opened Options
  import opened Sequences

  // ----- Strings -----

  /** One character of a string, and how it is written; each hexadecimal digit has its own case. */
  datatype Piece = Plain(c: char) | Short(letter: char) | Code(unit: Unit, upper: seq<bool>)

  predicate GoodPiece(p: Piece) {
    match p
    case Plain(c) => c >= 0x20 as char && c != '"' && c != '\\'
    case Short(letter) => letter in "\"\\/bfnrt"
    case Code(_, upper) => |upper| == 4
  }

  function HexText(v: nat, upper: bool): char
    requires v < 16
  {
    if v < 10 then "0123456789"[v] else if upper then "ABCDEF"[v - 10] else "abcdef"[v - 10]
  }

  function WritePiece(p: Piece): (s: string)
    requires GoodPiece(p)
    ensures s != []
  {
    match p
    case Plain(c) => [c]
    case Short(letter) => ['\\', letter]
    case Code(u, upper) =>
      ['\\', 'u', HexText(u / 4096, upper[0]), HexText(u / 256 % 16, upper[1]),
       HexText(u / 16 % 16, upper[2]), HexText(u % 16, upper[3])]
  }

  function PieceUnits(p: Piece): Utf16 {
    match p
    case Plain(c) => UnitsOf(c)
    case Short(letter) =>
      [if letter == 'b' then 0x08 else if letter == 't' then 0x09 else if letter == 'n' then 0x0A
       else if letter == 'f' then 0x0C else if letter == 'r' then 0x0D else if letter == '"' then 0x22
       else if letter == '/' then 0x2F else 0x5C]
    case Code(u, _) => [u]
  }

  predicate GoodPieces(pieces: seq<Piece>) {
    pieces == [] || (GoodPiece(pieces[0]) && GoodPieces(pieces[1..]))
  }

  function WritePieces(pieces: seq<Piece>): string
    requires GoodPieces(pieces)
  {
    if pieces == [] then [] else WritePiece(pieces[0]) + WritePieces(pieces[1..])
  }

  function PiecesUnits(pieces: seq<Piece>): Utf16 {
    if pieces == [] then [] else PieceUnits(pieces[0]) + PiecesUnits(pieces[1..])
  }

  lemma HexWritten(v: nat, upper: bool)
    requires v < 16
    ensures IsHex(HexText(v, upper)) && HexValue(HexText(v, upper)) == v
  {
  }

  lemma HexRead(c: char)
    requires IsHex(c)
    ensures HexText(HexValue(c), 'A' <= c <= 'F') == c
  {
  }

  lemma HexParts(a: nat, b: nat, c: nat, d: nat)
    requires a < 16 && b < 16 && c < 16 && d < 16
    ensures var u := ((a * 16 + b) * 16 + c) * 16 + d;
            u < 0x10000 && u / 4096 == a && u / 256 % 16 == b && u / 16 % 16 == c && u % 16 == d
  {
    var u := ((a * 16 + b) * 16 + c) * 16 + d;
    assert u / 16 == (a * 16 + b) * 16 + c;
    assert u / 256 == a * 16 + b;
  }

  lemma UnitParts(u: Unit)
    ensures u / 4096 < 16
    ensures ((u / 4096 * 16 + u / 256 % 16) * 16 + u / 16 % 16) * 16 + u % 16 == u
  {
    assert u / 256 == u / 4096 * 16 + u / 256 % 16;
    assert u / 16 == u / 256 * 16 + u / 16 % 16;
  }

  /** A piece is one unit of a body, and stands for its meaning. */
  lemma PieceWritten(p: Piece, rest: string)
    requires GoodPiece(p)
    ensures WritePiece(p)[0] != '"'
    ensures CharLength(WritePiece(p) + rest) == |WritePiece(p)|
    ensures Unescape(WritePiece(p) + rest) == PieceUnits(p) + Unescape(rest)
  {
    var s := WritePiece(p) + rest;
    match p
    case Plain(c) =>
      assert s[0] == c && s[1..] == rest;
    case Short(letter) =>
      assert s[0] == '\\' && s[1] == letter && s[2..] == rest;
      assert SimpleEscape(letter) && !UnicodeEscape(s);
    case Code(u, upper) =>
      CodePiece(u, upper, rest);
  }

  lemma CodePiece(u: Unit, upper: seq<bool>, rest: string)
    requires |upper| == 4
    ensures var s := WritePiece(Code(u, upper)) + rest;
            s[0] == '\\' && CharLength(s) == 6 && Unescape(s) == [u] + Unescape(rest)
  {
    hide HexText, IsHex, HexValue;
    var a, b, c, d := u / 4096, u / 256 % 16, u / 16 % 16, u % 16;
    UnitParts(u);
    HexWritten(a, upper[0]);
    HexWritten(b, upper[1]);
    HexWritten(c, upper[2]);
    HexWritten(d, upper[3]);
    CodeWritten(u, a, b, c, d, upper);
    CodeMeans(HexText(a, upper[0]), HexText(b, upper[1]), HexText(c, upper[2]), HexText(d, upper[3]), rest);
  }

  lemma CodeMeans(a: char, b: char, c: char, d: char, rest: string)
    requires IsHex(a) && IsHex(b) && IsHex(c) && IsHex(d)
    ensures var s := ['\\', 'u', a, b, c, d] + rest;
            && s[0] == '\\' && CharLength(s) == 6
            && Unescape(s)
               == [((HexValue(a) * 16 + HexValue(b)) * 16 + HexValue(c)) * 16 + HexValue(d)] + Unescape(rest)
  {
    hide IsHex, HexValue;
    var s := ['\\', 'u', a, b, c, d] + rest;
    Back(['\\', 'u', a, b, c, d], rest);
    assert UnicodeEscape(s) && !SimpleEscape('u');
  }

  lemma PieceRead(s: string)
    requires CharLength(s) > 0
    ensures exists p :: GoodPiece(p) && WritePiece(p) == s[..CharLength(s)]
  {
    if s[0] != '\\' {
      assert WritePiece(Plain(s[0])) == s[..1];
    } else if |s| >= 2 && SimpleEscape(s[1]) {
      assert WritePiece(Short(s[1])) == s[..2];
    } else {
      CodeRead(s);
    }
  }

  lemma CodeRead(s: string)
    requires UnicodeEscape(s)
    ensures exists p :: GoodPiece(p) && WritePiece(p) == s[..6]
  {
    hide HexText, HexValue, IsHex;
    HexRead(s[2]);
    HexRead(s[3]);
    HexRead(s[4]);
    HexRead(s[5]);
    var a, b, c, d := HexValue(s[2]), HexValue(s[3]), HexValue(s[4]), HexValue(s[5]);
    var u := ((a * 16 + b) * 16 + c) * 16 + d;
    var upper := ['A' <= s[2] <= 'F', 'A' <= s[3] <= 'F', 'A' <= s[4] <= 'F', 'A' <= s[5] <= 'F'];
    HexParts(a, b, c, d);
    CodeWritten(u, a, b, c, d, upper);
    assert WritePiece(Code(u, upper)) == s[..6];
  }

  lemma CodeWritten(u: Unit, a: nat, b: nat, c: nat, d: nat, upper: seq<bool>)
    requires a < 16 && b < 16 && c < 16 && d < 16 && |upper| == 4
    requires u / 4096 == a && u / 256 % 16 == b && u / 16 % 16 == c && u % 16 == d
    ensures WritePiece(Code(u, upper))
         == ['\\', 'u', HexText(a, upper[0]), HexText(b, upper[1]), HexText(c, upper[2]), HexText(d, upper[3])]
  {
    hide HexText;
  }

  lemma {:induction false} BodyWritten(pieces: seq<Piece>, rest: string)
    requires GoodPieces(pieces)
    ensures BodyLength(WritePieces(pieces) + ['"'] + rest) == Some(|WritePieces(pieces)|)
  {
    hide CharLength, WritePiece, GoodPiece, PieceUnits, Unescape, BodyLength;
    if pieces == [] {
      QuoteEnds(rest);
    } else {
      var head, more := WritePiece(pieces[0]), WritePieces(pieces[1..]) + ['"'] + rest;
      BodyWritten(pieces[1..], rest);
      PieceWritten(pieces[0], more);
      FirstOf(head, more);
      BodyStep(head, more);
      Extend(head, WritePieces(pieces[1..]), ['"'], rest);
    }
  }

  lemma FirstOf(a: string, b: string)
    requires a != []
    ensures (a + b)[0] == a[0]
  {
  }

  lemma {:induction false} BodyRead(s: string)
    requires BodyLength(s).Some?
    ensures exists pieces :: GoodPieces(pieces) && WritePieces(pieces) == s[..BodyLength(s).value]
    decreases |s|
  {
    hide CharLength, WritePiece, GoodPiece;
    if s[0] == '"' {
      assert WritePieces([]) == s[..0];
    } else {
      var n := CharLength(s);
      PieceRead(s);
      var p :| GoodPiece(p) && WritePiece(p) == s[..n];
      BodyRead(s[n..]);
      var more :| GoodPieces(more) && WritePieces(more) == s[n..][..BodyLength(s[n..]).value];
      Rest(p, more);
      assert s[..BodyLength(s).value] == s[..n] + s[n..][..BodyLength(s[n..]).value];
      assert WritePieces([p] + more) == s[..BodyLength(s).value];
    }
  }

  /** A string body is valid exactly when it is written in pieces. */
  lemma BodyIff(body: string)
    ensures GoodBody(body) <==> exists pieces :: GoodPieces(pieces) && WritePieces(pieces) == body
  {
    hide WritePieces, BodyLength;
    if GoodBody(body) {
      BodyRead(body + ['"']);
      Back(body, ['"']);
    }
    forall pieces | GoodPieces(pieces) && WritePieces(pieces) == body
      ensures GoodBody(body)
    {
      BodyWritten(pieces, []);
      AppendNothing(body + ['"']);
    }
  }

  /** A string stands for the concatenation of its pieces. */
  lemma {:induction false} UnescapePieces(pieces: seq<Piece>)
    requires GoodPieces(pieces)
    ensures Unescape(WritePieces(pieces)) == PiecesUnits(pieces)
  {
    hide WritePiece, PieceUnits, GoodPiece;
    if pieces == [] {
    } else {
      PieceWritten(pieces[0], WritePieces(pieces[1..]));
      UnescapePieces(pieces[1..]);
    }
  }

  // ----- Numbers -----

  datatype Exponent = NoExponent | Exponent(mark: char, sign: string, digits: string)

  /** The parts of a number; an empty fraction is none at all. */
  datatype Number = Number(negative: bool, whole: string, fraction: string, exponent: Exponent)

  predicate AllDigits(s: string) {
    forall i :: 0 <= i < |s| ==> '0' <= s[i] <= '9'
  }

  predicate GoodNumber(n: Number) {
    && n.whole != "" && AllDigits(n.whole) && (n.whole[0] == '0' ==> |n.whole| == 1)
    && AllDigits(n.fraction)
    && match n.exponent
       case NoExponent => true
       case Exponent(mark, sign, digits) =>
         (mark == 'e' || mark == 'E') && (sign == "" || sign == "+" || sign == "-") && digits != "" && AllDigits(digits)
  }

  function WriteFraction(fraction: string): string {
    if fraction == "" then "" else "." + fraction
  }

  function WriteExponent(e: Exponent): string {
    match e
    case NoExponent => ""
    case Exponent(mark, sign, digits) => [mark] + sign + digits
  }

  function WriteNumber(n: Number): string {
    (if n.negative then "-" else "") + n.whole + WriteFraction(n.fraction) + WriteExponent(n.exponent)
  }

  predicate Blank(c: char) {
    c == 0x20 as char || c == 0x09 as char || c == 0x0A as char || c == 0x0D as char
  }

  predicate Punctuator(c: char) {
    c in "{}[]:,"
  }

  /** Nothing, or something that cannot be part of a number or a word. */
  predicate Delimited(rest: string) {
    rest != [] ==> Blank(rest[0]) || Punctuator(rest[0])
  }

  lemma {:induction false} DigitsWritten(digits: string, rest: string)
    requires AllDigits(digits) && (rest != [] ==> !('0' <= rest[0] <= '9'))
    ensures Digits(digits + rest) == |digits|
  {
    if digits == [] {
      AppendNothing(rest);
    } else {
      DigitsWritten(digits[1..], rest);
      assert (digits + rest)[1..] == digits[1..] + rest;
    }
  }

  lemma ExponentWritten(e: Exponent, rest: string)
    requires GoodNumber(Number(false, "0", "", e)) && Delimited(rest)
    ensures ExponentLength(WriteExponent(e) + rest) == |WriteExponent(e)|
    ensures var s := WriteExponent(e) + rest; s != [] ==> s[0] != '.' && !('0' <= s[0] <= '9')
  {
    match e
    case NoExponent =>
      AppendNothing(rest);
    case Exponent(mark, sign, digits) =>
      DigitsWritten(digits, rest);
      if sign == "" {
        UnsignedExponent(mark, digits, rest);
      } else {
        SignedExponent(mark, sign[0], digits, rest);
        assert sign == [sign[0]];
      }
  }

  lemma UnsignedExponent(mark: char, digits: string, rest: string)
    requires (mark == 'e' || mark == 'E') && digits != "" && IsDigit(digits[0])
    requires Digits(digits + rest) == |digits|
    ensures [mark] + "" + digits == [mark] + digits
    ensures var s := [mark] + digits + rest; ExponentLength(s) == 1 + |digits| && s[0] == mark
  {
    hide Digits;
    assert [mark] + digits + rest == [mark] + (digits + rest);
    Rest(mark, digits + rest);
    assert ([mark] + (digits + rest))[1] == digits[0];
  }

  lemma SignedExponent(mark: char, sign: char, digits: string, rest: string)
    requires (mark == 'e' || mark == 'E') && (sign == '+' || sign == '-') && digits != ""
    requires Digits(digits + rest) == |digits|
    ensures var s := [mark] + [sign] + digits + rest; ExponentLength(s) == 2 + |digits| && s[0] == mark
  {
    hide Digits;
    var s := [mark] + [sign] + digits + rest;
    assert s == [mark, sign] + (digits + rest);
    Back([mark, sign], digits + rest);
    assert s[2..] == digits + rest && s[1] == sign;
  }

  lemma FractionWritten(fraction: string, rest: string)
    requires AllDigits(fraction) && (rest != [] ==> rest[0] != '.' && !('0' <= rest[0] <= '9'))
    ensures FractionLength(WriteFraction(fraction) + rest) == |WriteFraction(fraction)|
    ensures var s := WriteFraction(fraction) + rest; s != [] ==> !('0' <= s[0] <= '9')
  {
    if fraction == "" {
      AppendNothing(rest);
    } else {
      DigitsWritten(fraction, rest);
      hide Digits, AllDigits;
      PointWritten(fraction, rest);
    }
  }

  lemma PointWritten(fraction: string, rest: string)
    ensures "." + fraction + rest == ['.'] + (fraction + rest)
    ensures var s := "." + fraction + rest; s != [] && s[0] == '.' && s[1..] == fraction + rest
  {
  }

  /** A written number is read whole. */
  lemma NumberWritten(n: Number, rest: string)
    requires GoodNumber(n) && Delimited(rest)
    ensures NumberLength(WriteNumber(n) + rest) == |WriteNumber(n)| > 0
    ensures WriteNumber(n)[0] == '-' || '0' <= WriteNumber(n)[0] <= '9'
  {
    hide Digits, FractionLength, ExponentLength, WriteFraction, WriteExponent, NumberLength;
    var sign := if n.negative then "-" else "";
    var f, e := WriteFraction(n.fraction), WriteExponent(n.exponent);
    ExponentWritten(n.exponent, rest);
    FractionWritten(n.fraction, e + rest);
    DigitsWritten(n.whole, f + (e + rest));
    NumberParts(n, rest);
    hide WriteNumber, AllDigits, Delimited;
    UnsignedLength(n.whole, f, e, rest);
    SignedLength(n.negative, n.whole, f + (e + rest));
  }

  lemma NumberParts(n: Number, rest: string)
    requires n.whole != "" && AllDigits(n.whole)
    ensures var sign, f, e := if n.negative then "-" else "", WriteFraction(n.fraction), WriteExponent(n.exponent);
            && WriteNumber(n) + rest == sign + (n.whole + (f + (e + rest)))
            && |WriteNumber(n)| == |sign| + |n.whole| + |f| + |e|
    ensures WriteNumber(n)[0] == '-' || '0' <= WriteNumber(n)[0] <= '9'
  {
    hide WriteFraction, WriteExponent;
    var sign := if n.negative then "-" else "";
    Regroup(sign, n.whole, WriteFraction(n.fraction), WriteExponent(n.exponent), rest);
  }

  /** The length of a number without its sign. */
  lemma UnsignedLength(whole: string, f: string, e: string, rest: string)
    requires whole != "" && AllDigits(whole) && (whole[0] == '0' ==> |whole| == 1)
    requires Digits(whole + (f + (e + rest))) == |whole|
    requires FractionLength(f + (e + rest)) == |f| && ExponentLength(e + rest) == |e|
    ensures NumberLength(whole + (f + (e + rest))) == |whole| + |f| + |e|
  {
    hide Digits, FractionLength, ExponentLength;
    var s := whole + (f + (e + rest));
    assert s[0] == whole[0];
    assert s[0..] == s;
    Back(whole, f + (e + rest));
    assert s == (whole + f) + (e + rest);
    Back(whole + f, e + rest);
  }

  lemma SignedLength(negative: bool, whole: string, rest: string)
    requires whole != "" && AllDigits(whole)
    ensures var sign := if negative then "-" else "";
            NumberLength(sign + (whole + rest)) == |sign| + NumberLength(whole + rest)
  {
    hide Digits, FractionLength, ExponentLength;
    var s := whole + rest;
    assert s[0] == whole[0] && s[0..] == s;
    if negative {
      assert forall n :: 0 <= n <= |s| ==> ("-" + s)[1 + n..] == s[n..];
      assert ("-" + s)[1..] == s && ("-" + s)[1] == s[0];
    } else {
      AppendNothing(s);
    }
  }

  predicate GoodExponent(e: Exponent) {
    GoodNumber(Number(false, "0", "", e))
  }

  lemma ExponentRead(s: string)
    ensures exists e :: GoodExponent(e) && WriteExponent(e) == s[..ExponentLength(s)]
  {
    if ExponentLength(s) == 0 {
      assert GoodExponent(NoExponent) && WriteExponent(NoExponent) == s[..0];
    } else {
      var sign := if |s| >= 2 && (s[1] == '+' || s[1] == '-') then 2 else 1;
      var n := Digits(s[sign..]);
      var e := Exponent(s[0], s[1..sign], s[sign..][..n]);
      assert s[..sign + n] == [s[0]] + s[1..sign] + s[sign..][..n];
      assert sign == 2 ==> s[1..2] == [s[1]];
      assert GoodExponent(e) && WriteExponent(e) == s[..sign + n];
    }
  }

  lemma FractionRead(s: string)
    ensures exists fraction :: AllDigits(fraction) && WriteFraction(fraction) == s[..FractionLength(s)]
  {
    if FractionLength(s) == 0 {
      assert AllDigits("") && WriteFraction("") == s[..0];
    } else {
      var n := Digits(s[1..]);
      assert WriteFraction(s[1..][..n]) == s[..n + 1];
    }
  }

  lemma NumberRead(s: string)
    requires NumberLength(s) > 0
    ensures exists n :: GoodNumber(n) && WriteNumber(n) == s[..NumberLength(s)]
  {
    hide FractionLength, ExponentLength, WriteFraction, WriteExponent;
    var sign := if s[0] == '-' then 1 else 0;
    var digits := if s[sign] == '0' then 1 else Digits(s[sign..]);
    var whole := sign + digits;
    FractionRead(s[whole..]);
    var fraction :| AllDigits(fraction) && WriteFraction(fraction) == s[whole..][..FractionLength(s[whole..])];
    var f := whole + FractionLength(s[whole..]);
    ExponentRead(s[f..]);
    var e :| GoodExponent(e) && WriteExponent(e) == s[f..][..ExponentLength(s[f..])];
    var n := Number(sign == 1, s[sign..][..digits], fraction, e);
    assert s[sign..][0] == s[sign];
    assert GoodNumber(n);
    NumberPut(s, n, sign, digits, f - whole, ExponentLength(s[f..]));
  }

  lemma NumberPut(s: string, n: Number, a: nat, b: nat, c: nat, d: nat)
    requires a + b + c + d <= |s| && a == (if n.negative then 1 else 0) && (n.negative ==> s[0] == '-')
    requires n.whole == s[a..][..b] && WriteFraction(n.fraction) == s[a + b..][..c]
    requires WriteExponent(n.exponent) == s[a + b + c..][..d]
    ensures WriteNumber(n) == s[..a + b + c + d]
  {
    hide WriteFraction, WriteExponent;
    FourParts(s, a, b, c, d);
    assert n.negative ==> s[..1] == "-";
  }

  lemma FourParts(s: string, a: nat, b: nat, c: nat, d: nat)
    requires a + b + c + d <= |s|
    ensures s[..a + b + c + d] == s[..a] + s[a..][..b] + s[a + b..][..c] + s[a + b + c..][..d]
  {
    TwoPieces(s, a, b);
    TwoPieces(s, a + b, c);
    TwoPieces(s, a + b + c, d);
  }

  lemma TwoPieces(s: string, a: nat, b: nat)
    requires a + b <= |s|
    ensures s[..a + b] == s[..a] + s[a..][..b]
  {
  }

  // ----- Lexemes -----

  datatype Lexeme = Punct(c: char) | Text(pieces: seq<Piece>) | Numeral(n: Number) | Word(w: string)

  predicate GoodLexeme(x: Lexeme) {
    match x
    case Punct(c) => Punctuator(c)
    case Text(pieces) => GoodPieces(pieces)
    case Numeral(n) => GoodNumber(n)
    case Word(w) => w == "true" || w == "false" || w == "null"
  }

  function WriteLexeme(x: Lexeme): string
    requires GoodLexeme(x)
  {
    match x
    case Punct(c) => [c]
    case Text(pieces) => ['"'] + WritePieces(pieces) + ['"']
    case Numeral(n) => WriteNumber(n)
    case Word(w) => w
  }

  function TokenOf(x: Lexeme): Token
    requires GoodLexeme(x)
  {
    match x
    case Punct(c) =>
      if c == '{' then LBrace else if c == '}' then RBrace else if c == '[' then LBracket
      else if c == ']' then RBracket else if c == ':' then Colon else Comma
    case Text(pieces) => Quoted(WritePieces(pieces))
    case Numeral(n) => Scalar(WriteNumber(n))
    case Word(w) => Scalar(w)
  }

  /** Lexemes, each after its blanks, and the blanks at the end. */
  datatype Spelling = End(blanks: string) | Next(blanks: string, lexeme: Lexeme, rest: Spelling)

  predicate Blanks(s: string) {
    forall i :: 0 <= i < |s| ==> Blank(s[i])
  }

  /** What may follow a number or a word at once: blanks, a punctuator, or nothing. */
  predicate Apart(sp: Spelling) {
    sp.blanks != "" || sp.End? || sp.lexeme.Punct?
  }

  predicate GoodSpelling(sp: Spelling) {
    && Blanks(sp.blanks)
    && (sp.Next? ==> GoodLexeme(sp.lexeme) && GoodSpelling(sp.rest)
                     && (sp.lexeme.Numeral? || sp.lexeme.Word? ==> Apart(sp.rest)))
  }

  function Write(sp: Spelling): string
    requires GoodSpelling(sp)
  {
    match sp
    case End(blanks) => blanks
    case Next(blanks, x, rest) => blanks + (WriteLexeme(x) + Write(rest))
  }

  function Tokens(sp: Spelling): seq<Token>
    requires GoodSpelling(sp)
  {
    match sp
    case End(_) => []
    case Next(_, x, rest) => [TokenOf(x)] + Tokens(rest)
  }

  lemma LexemeWritten(x: Lexeme, more: string)
    requires GoodLexeme(x) && (x.Numeral? || x.Word? ==> Delimited(more))
    ensures WriteLexeme(x) != [] && !IsSpace(WriteLexeme(x)[0])
    ensures FirstToken(WriteLexeme(x) + more) == Some((TokenOf(x), |WriteLexeme(x)|))
  {
    match x
    case Punct(c) =>
    case Text(pieces) =>
      TextWritten(pieces, more);
    case Numeral(n) =>
      NumeralWritten(n, more);
    case Word(w) =>
      WordWritten(w, more);
  }

  lemma TextWritten(pieces: seq<Piece>, more: string)
    requires GoodPieces(pieces)
    ensures var s := WritePieces(pieces);
            FirstToken(['"'] + s + ['"'] + more) == Some((Quoted(s), |s| + 2))
  {
    hide BodyLength, NumberLength, WritePieces, CharLength;
    BodyWritten(pieces, more);
    var body := WritePieces(pieces);
    var s := ['"'] + body + ['"'] + more;
    assert s == ['"'] + (body + ['"'] + more);
    Rest('"', body + ['"'] + more);
    assert s[1..|body| + 1] == body;
  }

  lemma NumeralWritten(n: Number, more: string)
    requires GoodNumber(n) && Delimited(more)
    ensures WriteNumber(n) != [] && !IsSpace(WriteNumber(n)[0])
    ensures FirstToken(WriteNumber(n) + more) == Some((Scalar(WriteNumber(n)), |WriteNumber(n)|))
  {
    hide BodyLength, NumberLength, WriteNumber, GoodNumber;
    NumberWritten(n, more);
    var s := WriteNumber(n) + more;
    assert s[0] == WriteNumber(n)[0];
    Back(WriteNumber(n), more);
  }

  lemma WordWritten(w: string, more: string)
    requires w == "true" || w == "false" || w == "null"
    ensures !IsSpace(w[0]) && FirstToken(w + more) == Some((Scalar(w), |w|))
  {
    hide BodyLength, NumberLength;
    var s := w + more;
    Back(w, more);
    assert s[0] == w[0];
    assert "true"[0] == 't' && "false"[0] == 'f' && "null"[0] == 'n';
  }

  lemma ApartWritten(sp: Spelling)
    requires GoodSpelling(sp) && Apart(sp)
    ensures Delimited(Write(sp))
  {
  }

  lemma {:induction false} LexBlanks(blanks: string, s: string)
    requires Blanks(blanks)
    ensures Lex(blanks + s) == Lex(s)
  {
    hide FirstToken;
    if blanks == [] {
      AppendNothing(s);
    } else {
      LexBlanks(blanks[1..], s);
      Uncons(blanks);
      Associate([blanks[0]], blanks[1..], s);
      Rest(blanks[0], blanks[1..] + s);
    }
  }

  lemma LexOne(s: string, token: Token, n: nat)
    requires s != [] && !IsSpace(s[0]) && FirstToken(s) == Some((token, n)) && Lex(s[n..]).Some?
    ensures Lex(s) == Some([token] + Lex(s[n..]).value)
  {
    hide FirstToken, IsSpace;
  }

  lemma {:induction false} LexWritten(sp: Spelling)
    requires GoodSpelling(sp)
    ensures Lex(Write(sp)) == Some(Tokens(sp))
  {
    hide Lex, WriteLexeme, TokenOf, IsSpace, FirstToken, GoodLexeme;
    match sp
    case End(blanks) =>
      LexBlanks(blanks, []);
      AppendNothing(blanks);
      NothingSpelled();
    case Next(blanks, x, rest) =>
      if x.Numeral? || x.Word? {
        ApartWritten(rest);
      }
      var s := WriteLexeme(x) + Write(rest);
      LexemeWritten(x, Write(rest));
      LexBlanks(blanks, s);
      LexWritten(rest);
      Back(WriteLexeme(x), Write(rest));
      LexOne(s, TokenOf(x), |WriteLexeme(x)|);
  }

  /** The lexeme writes a text and stands for a token. */
  ghost predicate Reads(x: Lexeme, s: string, token: Token) {
    && GoodLexeme(x) && WriteLexeme(x) == s && TokenOf(x) == token
    && (x.Numeral? || x.Word? <==> token.Scalar?) && (x.Punct? <==> Punctuation(token))
  }

  lemma LexemeRead(s: string)
    requires s != [] && FirstToken(s).Some?
    ensures var (token, n) := FirstToken(s).value; exists x :: Reads(x, s[..n], token)
  {
    hide BodyLength, NumberLength, WritePieces, WriteNumber;
    var (token, n) := FirstToken(s).value;
    if IsStructural(s[0]) {
      assert Reads(Punct(s[0]), s[..1], token);
    } else if s[0] == '"' {
      BodyRead(s[1..]);
      assert s[1..][..n - 2] == s[1..n - 1];
      var pieces :| GoodPieces(pieces) && WritePieces(pieces) == s[1..n - 1];
      assert s[..n] == ['"'] + s[1..n - 1] + ['"'];
      assert Reads(Text(pieces), s[..n], token);
    } else if "true" <= s || "null" <= s || "false" <= s {
      assert Reads(Word(s[..n]), s[..n], token);
    } else {
      NumberRead(s);
      var number :| GoodNumber(number) && WriteNumber(number) == s[..n];
      assert Reads(Numeral(number), s[..n], token);
    }
  }

  /** No number or word stands directly before another value. */
  predicate Separated(ts: seq<Token>) {
    ts == [] || ((ts[0].Scalar? && |ts| > 1 ==> Punctuation(ts[1])) && Separated(ts[1..]))
  }

  /** A spelling of a text with these tokens, which starts with a punctuator when they do. */
  ghost predicate SpelledBy(sp: Spelling, s: string, ts: seq<Token>) {
    && GoodSpelling(sp) && Write(sp) == s && Tokens(sp) == ts
    && (sp.Next? && sp.lexeme.Punct? <==> ts != [] && Punctuation(ts[0]))
  }

  lemma {:induction false} SpellingRead(s: string)
    requires Lex(s).Some? && Separated(Lex(s).value)
    ensures exists sp :: SpelledBy(sp, s, Lex(s).value)
    decreases |s|
  {
    hide FirstToken, WriteLexeme, TokenOf, GoodLexeme, SpelledBy;
    if s == [] {
      NothingSpelled();
    } else if IsSpace(s[0]) {
      SpellingRead(s[1..]);
      var sp :| SpelledBy(sp, s[1..], Lex(s).value);
      BlankBefore(sp, s, Lex(s).value);
    } else {
      var (token, n) := FirstToken(s).value;
      LexemeRead(s);
      var x :| Reads(x, s[..n], token);
      Rest(token, Lex(s[n..]).value);
      SpellingRead(s[n..]);
      var rest :| SpelledBy(rest, s[n..], Lex(s[n..]).value);
      LexemeBefore(x, rest, s, n, token, Lex(s[n..]).value);
    }
  }

  lemma NothingSpelled()
    ensures Lex([]) == Some([]) && SpelledBy(End(""), [], [])
  {
  }

  lemma BlankBefore(sp: Spelling, s: string, ts: seq<Token>)
    requires s != [] && IsSpace(s[0]) && SpelledBy(sp, s[1..], ts)
    ensures exists more :: SpelledBy(more, s, ts)
  {
    hide WriteLexeme, TokenOf, GoodLexeme;
    var blanks := [s[0]] + sp.blanks;
    Uncons(s);
    match sp
    case End(b) =>
      assert SpelledBy(End(blanks), s, ts);
    case Next(b, x, rest) =>
      Associate([s[0]], b, WriteLexeme(x) + Write(rest));
      assert SpelledBy(Next(blanks, x, rest), s, ts);
  }

  lemma LexemeBefore(x: Lexeme, rest: Spelling, s: string, n: nat, token: Token, ts: seq<Token>)
    requires n <= |s| && Reads(x, s[..n], token) && SpelledBy(rest, s[n..], ts) && Separated([token] + ts)
    ensures exists sp :: SpelledBy(sp, s, [token] + ts)
  {
    hide WriteLexeme, TokenOf, GoodLexeme;
    Rest(token, ts);
    Cut(s, n);
    AppendNothing(s);
    assert SpelledBy(Next("", x, rest), s, [token] + ts);
  }

  // ----- Whole texts -----

  lemma {:induction false} SeparatedFlat(t: Tree, rest: seq<Token>)
    requires Separated(rest) && (rest != [] ==> Punctuation(rest[0]))
    ensures Separated(Flat(t) + rest)
    decreases t, 0
  {
    match t
    case Str(body) =>
      Rest(Quoted(body), rest);
    case Atom(text) =>
      Rest(Scalar(text), rest);
    case Arr(items) =>
      SeparatedItems(items, rest);
      Associate([LBracket], FlatItems(items), rest);
      Rest(LBracket, FlatItems(items) + rest);
    case Obj(members) =>
      SeparatedMembers(members, rest);
      Associate([LBrace], FlatMembers(members), rest);
      Rest(LBrace, FlatMembers(members) + rest);
  }

  lemma {:induction false} SeparatedItems(items: Items, rest: seq<Token>)
    requires Separated(rest) && (rest != [] ==> Punctuation(rest[0]))
    ensures Separated(FlatItems(items) + rest)
    decreases items, 1
  {
    hide Flat;
    Rest(RBracket, rest);
    if items.Item? {
      var more := if items.tail == NoItems then [RBracket] + rest else [Comma] + (FlatItems(items.tail) + rest);
      if items.tail != NoItems {
        SeparatedItems(items.tail, rest);
        Rest(Comma, FlatItems(items.tail) + rest);
      }
      SeparatedFlat(items.head, more);
      assert FlatItems(items) + rest == Flat(items.head) + more;
    }
  }

  lemma {:induction false} SeparatedMembers(members: Members, rest: seq<Token>)
    requires Separated(rest) && (rest != [] ==> Punctuation(rest[0]))
    ensures Separated(FlatMembers(members) + rest)
    decreases members, 1
  {
    hide Flat;
    Rest(RBrace, rest);
    if members.Member? {
      var more := if members.rest == NoMembers then [RBrace] + rest else [Comma] + (FlatMembers(members.rest) + rest);
      if members.rest != NoMembers {
        SeparatedMembers(members.rest, rest);
        Rest(Comma, FlatMembers(members.rest) + rest);
      }
      SeparatedFlat(members.value, more);
      var all := [Quoted(members.key), Colon] + (Flat(members.value) + more);
      assert FlatMembers(members) + rest == all;
      assert all[1..] == [Colon] + (Flat(members.value) + more);
      Rest(Colon, Flat(members.value) + more);
    }
  }

  /** A text writes a tree: its tokens, spelled in any way and with any blanks, are the tree's. */
  ghost predicate Denotes(s: string, t: Tree) {
    exists sp :: GoodSpelling(sp) && Write(sp) == s && Tokens(sp) == Flat(t)
  }

  /** JSON.parse accepts exactly the texts that write a tree, and reads that tree. */
  lemma JsonIff(s: string, t: Tree)
    ensures Parse(s) == Some(t) <==> Denotes(s, t)
  {
    hide Parse, Lex, Flat, Write, Tokens, GoodSpelling, Separated;
    ParseIff(s, t);
    if Parse(s) == Some(t) {
      SeparatedNothing();
      SeparatedFlat(t, []);
      AppendNothing(Flat(t));
      SpellingRead(s);
      var sp :| SpelledBy(sp, s, Lex(s).value);
      assert GoodSpelling(sp) && Write(sp) == s && Tokens(sp) == Flat(t);
    }
    forall sp | GoodSpelling(sp) && Write(sp) == s && Tokens(sp) == Flat(t)
      ensures Parse(s) == Some(t)
    {
      LexWritten(sp);
    }
  }

  lemma SeparatedNothing()
    ensures Separated([])
  {
  }

  // ----- Values -----

  function ItemsOf(items: Items): seq<Tree> {
    match items
    case NoItems => []
    case Item(head, tail) => [head] + ItemsOf(tail)
  }

  function Listed(members: Members): seq<(Utf16, Tree)> {
    match members
    case NoMembers => []
    case Member(key, value, rest) => [(Unescape(key), value)] + Listed(rest)
  }

  /** The last member of a name: it is there, and no later one has the name. */
  ghost predicate LastNamed(list: seq<(Utf16, Tree)>, name: Utf16, i: nat) {
    i < |list| && list[i].0 == name && forall j :: i < j < |list| ==> list[j].0 != name
  }

  lemma WordValues(text: string)
    ensures ToValue(Atom("true")) == Bool(true) && ToValue(Atom("false")) == Bool(false)
    ensures ToValue(Atom("null")) == Null
    ensures text !in ["true", "false", "null"] ==> ToValue(Atom(text)) == Num(text)
  {
    assert "true"[0] == 't' && "false"[0] == 'f' && "null"[0] == 'n';
  }

  /** The i-th value of an array is that of its i-th item. */
  lemma {:induction false} ItemValues(items: Items)
    ensures |ToValues(items)| == |ItemsOf(items)|
    ensures forall i :: 0 <= i < |ItemsOf(items)| ==> ToValues(items)[i] == ToValue(ItemsOf(items)[i])
  {
    hide ToValue;
    if items == NoItems {
    } else {
      ItemValues(items.tail);
    }
  }

  predicate Named(list: seq<(Utf16, Tree)>, name: Utf16) {
    exists i :: 0 <= i < |list| && list[i].0 == name
  }

  /** An object has exactly the names of its members. */
  lemma {:induction false} FieldNames(members: Members, name: Utf16)
    ensures name in ToFields(members) <==> Named(Listed(members), name)
  {
    hide ToValue, Unescape;
    if members == NoMembers {
    } else {
      FieldNames(members.rest, name);
      NamedCons((Unescape(members.key), members.value), Listed(members.rest), name);
    }
  }

  lemma NamedCons(first: (Utf16, Tree), rest: seq<(Utf16, Tree)>, name: Utf16)
    ensures Named([first] + rest, name) <==> first.0 == name || Named(rest, name)
  {
    var all := [first] + rest;
    assert all[0] == first;
    assert forall j :: 0 <= j < |rest| ==> all[j + 1] == rest[j];
    assert forall j :: 0 < j < |all| ==> all[j] == rest[j - 1];
  }

  /** Each name has the value of its last member. */
  lemma {:induction false} FieldValues(members: Members, name: Utf16, i: nat)
    requires LastNamed(Listed(members), name, i)
    ensures name in ToFields(members) && ToFields(members)[name] == ToValue(Listed(members)[i].1)
  {
    hide ToValue, Unescape;
    if members.Member? {
      var first, rest := (Unescape(members.key), members.value), Listed(members.rest);
      if i > 0 {
        LastShift(first, rest, name, i - 1);
        FieldValues(members.rest, name, i - 1);
      } else {
        FieldNames(members.rest, name);
        assert forall j :: 0 <= j < |rest| ==> ([first] + rest)[j + 1] == rest[j];
      }
    }
  }

  lemma LastShift(first: (Utf16, Tree), rest: seq<(Utf16, Tree)>, name: Utf16, i: nat)
    ensures LastNamed([first] + rest, name, i + 1) <==> LastNamed(rest, name, i)
  {
    var all := [first] + rest;
    assert forall j :: 0 <= j < |rest| ==> all[j + 1] == rest[j];
    assert forall j :: 0 < j < |all| ==> all[j] == rest[j - 1];
  }
}
