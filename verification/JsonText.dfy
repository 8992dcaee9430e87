/** String escapes, values, and the compact printer: JSON.stringify and the values JSON.parse builds. */
module JsonText {
  import opened Json
  import opened Options
  import opened Sequences

  // ----- UTF-16 -----

  predicate HighSurrogate(u: Unit) {
    0xD800 <= u < 0xDC00
  }

  predicate LowSurrogate(u: Unit) {
    0xDC00 <= u < 0xE000
  }

  function UnitsOf(c: char): (u: Utf16)
    ensures |u| >= 1
  {
    var n := c as int;
    if n < 0x10000 then [n] else [0xD800 + (n - 0x10000) / 0x400, 0xDC00 + (n - 0x10000) % 0x400]
  }

  function ToUtf16(s: string): Utf16 {
    if s == [] then [] else UnitsOf(s[0]) + ToUtf16(s[1..])
  }

  function PairToChar(high: Unit, low: Unit): (c: char)
    requires HighSurrogate(high) && LowSurrogate(low)
    ensures UnitsOf(c) == [high, low] && c >= 0x10000 as char
  {
    (0x10000 + (high - 0xD800) * 0x400 + (low - 0xDC00)) as char
  }

  predicate StartsWithPair(t: Utf16) {
    |t| >= 2 && HighSurrogate(t[0]) && LowSurrogate(t[1])
  }

  // ----- Escapes -----

  function HexValue(c: char): (n: nat)
    ensures n < 16
  {
    if '0' <= c <= '9' then c as int - '0' as int
    else if 'a' <= c <= 'f' then c as int - 'a' as int + 10
    else if 'A' <= c <= 'F' then c as int - 'A' as int + 10
    else 0
  }

  function HexChar(n: nat): (c: char)
    requires n < 16
    ensures IsHex(c) && HexValue(c) == n
  {
    if n < 10 then ('0' as int + n) as char else ('a' as int + (n - 10)) as char
  }

  function SimpleEscapeUnit(c: char): Unit {
    match c
    case 'b' => 8
    case 't' => 9
    case 'n' => 10
    case 'f' => 12
    case 'r' => 13
    case _ => if c < 0x10000 as char then c as int else 0
  }

  /** The value of a valid string body. */
  function Unescape(body: string): Utf16
    decreases |body|
  {
    if body == [] then []
    else if body[0] != '\\' then UnitsOf(body[0]) + Unescape(body[1..])
    else if UnicodeEscape(body) then
      [((HexValue(body[2]) * 16 + HexValue(body[3])) * 16 + HexValue(body[4])) * 16 + HexValue(body[5])]
      + Unescape(body[6..])
    else if |body| >= 2 then [SimpleEscapeUnit(body[1])] + Unescape(body[2..])
    else []
  }

  function UnicodeEscapeOf(u: Unit): (s: string)
    ensures UnicodeEscape(s) && |s| == 6
  {
    ['\\', 'u', HexChar(u / 0x1000), HexChar(u / 0x100 % 16), HexChar(u / 16 % 16), HexChar(u % 16)]
  }

  /** One code unit that is not half of a pair, as QuoteJSONString writes it. */
  function EscapeUnit(u: Unit): (s: string)
    ensures s != []
  {
    if u == 8 then "\\b"
    else if u == 9 then "\\t"
    else if u == 10 then "\\n"
    else if u == 12 then "\\f"
    else if u == 13 then "\\r"
    else if u == 0x22 then "\\\""
    else if u == 0x5C then "\\\\"
    else if u < 0x20 || HighSurrogate(u) || LowSurrogate(u) then UnicodeEscapeOf(u)
    else [u as char]
  }

  function Escape(t: Utf16): string {
    if t == [] then ""
    else if StartsWithPair(t) then [PairToChar(t[0], t[1])] + Escape(t[2..])
    else EscapeUnit(t[0]) + Escape(t[1..])
  }

  lemma UnescapeUnit(u: Unit, rest: string)
    ensures Unescape(EscapeUnit(u) + rest) == [u] + Unescape(rest)
  {
    var s := EscapeUnit(u) + rest;
    assert s[|EscapeUnit(u)|..] == rest;
    if |EscapeUnit(u)| == 6 {
      assert UnicodeEscape(s) && s[6..] == rest;
      HexDigitsOf(u);
    } else if |EscapeUnit(u)| == 2 {
      assert !UnicodeEscape(s) && s[2..] == rest;
    } else {
      assert s[1..] == rest;
    }
  }

  lemma HexDigitsOf(u: Unit)
    ensures ((u / 0x1000 * 16 + u / 0x100 % 16) * 16 + u / 16 % 16) * 16 + u % 16 == u
  {
    assert u / 0x100 == u / 0x1000 * 16 + u / 0x100 % 16;
    assert u / 16 == u / 0x100 * 16 + u / 16 % 16;
  }

  /** Reading an escaped string gives the string back, lone surrogates included. */
  lemma {:induction false} UnescapeEscape(t: Utf16)
    ensures Unescape(Escape(t)) == t
  {
    if t == [] {
    } else {
      if StartsWithPair(t) {
        UnescapeEscape(t[2..]);
        assert Escape(t)[1..] == Escape(t[2..]);
        assert t == [t[0], t[1]] + t[2..];
      } else {
        UnescapeEscape(t[1..]);
        UnescapeUnit(t[0], Escape(t[1..]));
        assert t == [t[0]] + t[1..];
      }
    }
  }

  lemma EscapeUnitLength(u: Unit, rest: string)
    ensures CharLength(EscapeUnit(u) + rest) == |EscapeUnit(u)| && (EscapeUnit(u) + rest)[0] != '"'
  {
    var s := EscapeUnit(u) + rest;
    if |EscapeUnit(u)| == 6 {
      assert UnicodeEscape(s);
    }
  }

  lemma QuoteEnds(rest: string)
    ensures BodyLength([] + ['"'] + rest) == Some(0)
  {
    assert ([] + ['"'] + rest)[0] == '"';
  }

  lemma PairLength(high: Unit, low: Unit, rest: string)
    requires HighSurrogate(high) && LowSurrogate(low)
    ensures var c := PairToChar(high, low);
            CharLength([c] + rest) == 1 && c != '"'
  {
  }

  /** An escaped string is a valid string body up to the quote that follows it. */
  lemma {:induction false} EscapeBody(t: Utf16, rest: string)
    ensures BodyLength(Escape(t) + ['"'] + rest) == Some(|Escape(t)|)
  {
    hide BodyLength, CharLength, EscapeUnit;
    if t == [] {
      QuoteEnds(rest);
    } else if StartsWithPair(t) {
      EscapeBody(t[2..], rest);
      var tail := Escape(t[2..]) + ['"'] + rest;
      PairLength(t[0], t[1], tail);
      BodyStep([PairToChar(t[0], t[1])], tail);
      Extend([PairToChar(t[0], t[1])], Escape(t[2..]), ['"'], rest);
    } else {
      EscapeBody(t[1..], rest);
      var tail := Escape(t[1..]) + ['"'] + rest;
      EscapeUnitLength(t[0], tail);
      BodyStep(EscapeUnit(t[0]), tail);
      Extend(EscapeUnit(t[0]), Escape(t[1..]), ['"'], rest);
    }
  }

  lemma BodyStep(head: string, tail: string)
    requires head != [] && head[0] != '"' && CharLength(head + tail) == |head|
    requires BodyLength(tail).Some?
    ensures BodyLength(head + tail) == Some(|head| + BodyLength(tail).value)
  {
    assert (head + tail)[|head|..] == tail;
  }

  // ----- Values -----

  datatype Value =
    | Null
    | Bool(b: bool)
    | Num(text: string)
    | String(units: Utf16)
    | Array(items: seq<Value>)
    | Object(fields: map<Utf16, Value>)

  /** The value JSON.parse builds: of equal member names, the last one wins. */
  function ToValue(t: Tree): Value {
    match t
    case Str(body) => String(Unescape(body))
    case Atom(text) =>
      if text == "null" then Null
      else if text == "true" then Bool(true)
      else if text == "false" then Bool(false)
      else Num(text)
    case Arr(items) => Array(ToValues(items))
    case Obj(members) => Object(ToFields(members))
  }

  function ToValues(items: Items): seq<Value> {
    match items
    case NoItems => []
    case Item(head, tail) => [ToValue(head)] + ToValues(tail)
  }

  function ToFields(members: Members): map<Utf16, Value> {
    match members
    case NoMembers => map[]
    case Member(key, value, rest) => map[Unescape(key) := ToValue(value)] + ToFields(rest)
  }

  // ----- The compact printer -----

  function Show(t: Token): (s: string)
    ensures s != [] || (t.Scalar? && t.text == [])
  {
    match t
    case LBrace => "{"
    case RBrace => "}"
    case LBracket => "["
    case RBracket => "]"
    case Colon => ":"
    case Comma => ","
    case Quoted(body) => ['"'] + body + ['"']
    case Scalar(text) => text
  }

  function Print(ts: seq<Token>): string {
    if ts == [] then "" else Show(ts[0]) + Print(ts[1..])
  }

  ghost predicate GoodBody(body: string) {
    BodyLength(body + ['"']) == Some(|body|)
  }

  predicate PlainInteger(s: string) {
    && s != [] && (forall i :: 0 <= i < |s| ==> IsDigit(s[i]))
    && (s[0] == '0' ==> |s| == 1)
  }

  predicate PlainScalar(s: string) {
    s == "null" || s == "true" || s == "false" || PlainInteger(s)
    || (|s| > 1 && s[0] == '-' && PlainInteger(s[1..]))
  }

  predicate Punctuation(t: Token) {
    !t.Quoted? && !t.Scalar?
  }

  ghost predicate Printable(ts: seq<Token>) {
    ts != [] ==>
      && (ts[0].Quoted? ==> GoodBody(ts[0].body))
      && (ts[0].Scalar? ==> PlainScalar(ts[0].text) && (|ts| > 1 ==> Punctuation(ts[1])))
      && Printable(ts[1..])
  }

  lemma {:induction false} BodyLengthExtends(s: string, rest: string)
    requires BodyLength(s).Some?
    ensures BodyLength(s + rest) == BodyLength(s)
    decreases |s|
  {
    if s[0] != '"' {
      var n := CharLength(s);
      assert (s + rest)[0] == s[0] && (|s| >= 2 ==> (s + rest)[1] == s[1]);
      assert UnicodeEscape(s) ==> UnicodeEscape(s + rest);
      assert UnicodeEscape(s + rest) && |s| >= 2 ==> !SimpleEscape(s[1]);
      assert CharLength(s + rest) == n;
      assert (s + rest)[n..] == s[n..] + rest;
      BodyLengthExtends(s[n..], rest);
    }
  }

  lemma {:induction false} DigitsOf(s: string, rest: string)
    requires forall i :: 0 <= i < |s| ==> IsDigit(s[i])
    requires rest == [] || !IsDigit(rest[0])
    ensures Digits(s + rest) == |s|
  {
    if s == [] {
      assert s + rest == rest;
    } else {
      assert (s + rest)[1..] == s[1..] + rest;
      DigitsOf(s[1..], rest);
    }
  }

  lemma PlainScalarLength(s: string, rest: string)
    requires PlainScalar(s)
    requires rest == [] || IsStructural(rest[0])
    ensures ScalarLength(s + rest) == |s|
  {
    var t := s + rest;
    Back(s, rest);
    assert t[0] == s[0];
    if PlainInteger(s) || s[0] == '-' {
      PlainNumberLength(s, rest);
    } else {
      assert "true" <= t <==> s == "true";
    }
  }

  lemma PlainNumberLength(s: string, rest: string)
    requires PlainInteger(s) || (|s| > 1 && s[0] == '-' && PlainInteger(s[1..]))
    requires rest == [] || IsStructural(rest[0])
    ensures NumberLength(s + rest) == |s|
  {
    hide Digits;
    var t, sign := s + rest, if s[0] == '-' then 1 else 0;
    Back(s, rest);
    assert t[sign..] == s[sign..] + rest;
    DigitsOf(s[sign..], rest);
  }

  lemma FirstQuoted(body: string, more: string)
    requires GoodBody(body)
    ensures FirstToken(['"'] + body + ['"'] + more) == Some((Quoted(body), |body| + 2))
  {
    hide BodyLength, ScalarLength;
    var s := ['"'] + body + ['"'] + more;
    assert s[1..] == body + ['"'] + more;
    BodyLengthExtends(body + ['"'], more);
    assert s[1..|body| + 1] == body;
  }

  lemma FirstScalar(text: string, more: string)
    requires PlainScalar(text) && (more == [] || IsStructural(more[0]))
    ensures text != [] && !IsSpace(text[0]) && FirstToken(text + more) == Some((Scalar(text), |text|))
  {
    hide BodyLength, ScalarLength;
    PlainScalarLength(text, more);
    Back(text, more);
    assert (text + more)[0] == text[0];
  }

  lemma FirstShown(t: Token, more: string)
    requires t.Quoted? ==> GoodBody(t.body)
    requires t.Scalar? ==> PlainScalar(t.text) && (more == [] || IsStructural(more[0]))
    ensures Show(t) != [] && !IsSpace((Show(t) + more)[0])
    ensures FirstToken(Show(t) + more) == Some((t, |Show(t)|))
  {
    hide BodyLength, ScalarLength;
    if t.Quoted? {
      FirstQuoted(t.body, more);
    } else if t.Scalar? {
      FirstScalar(t.text, more);
    }
  }

  lemma PrintStart(ts: seq<Token>)
    ensures ts == [] ==> Print(ts) == []
    ensures ts != [] && Punctuation(ts[0]) ==> Print(ts) != [] && IsStructural(Print(ts)[0])
  {
  }

  /** Printing tokens without blanks and reading them back changes nothing. */
  lemma {:induction false} LexPrint(ts: seq<Token>)
    requires Printable(ts)
    ensures Lex(Print(ts)) == Some(ts)
  {
    if ts == [] {
    } else {
      var more := Print(ts[1..]);
      LexPrint(ts[1..]);
      PrintStart(ts[1..]);
      FirstShown(ts[0], more);
      hide FirstToken, Show, IsSpace, IsStructural, Printable;
      assert Print(ts)[|Show(ts[0])|..] == more;
      assert ts == [ts[0]] + ts[1..];
    }
  }

  /** String bodies and numbers of the kinds the printer produces, throughout a tree. */
  ghost predicate GoodTree(t: Tree) {
    match t
    case Str(body) => GoodBody(body)
    case Atom(text) => PlainScalar(text)
    case Arr(items) => GoodItems(items)
    case Obj(members) => GoodMembers(members)
  }

  ghost predicate GoodItems(items: Items) {
    items.Item? ==> GoodTree(items.head) && GoodItems(items.tail)
  }

  ghost predicate GoodMembers(members: Members) {
    members.Member? ==> GoodBody(members.key) && GoodTree(members.value) && GoodMembers(members.rest)
  }

  ghost predicate PrintableTail(ts: seq<Token>) {
    Printable(ts) && (ts != [] ==> Punctuation(ts[0]))
  }

  lemma {:induction false} PrintableFlat(t: Tree, rest: seq<Token>)
    requires GoodTree(t) && PrintableTail(rest)
    ensures Printable(Flat(t) + rest)
  {
    assert (Flat(t) + rest)[1..] == Flat(t)[1..] + rest;
    match t
    case Str(body) =>
      assert Flat(t)[1..] + rest == rest;
    case Atom(text) =>
      assert Flat(t)[1..] + rest == rest;
    case Arr(items) =>
      PrintableItems(items, rest);
    case Obj(members) =>
      PrintableMembers(members, rest);
  }

  lemma PrintableCons(t: Token, ts: seq<Token>)
    requires Printable(ts) && Punctuation(t)
    ensures PrintableTail([t] + ts)
  {
    assert ([t] + ts)[1..] == ts;
  }

  lemma {:induction false} PrintableItems(items: Items, rest: seq<Token>)
    requires GoodItems(items) && PrintableTail(rest)
    ensures Printable(FlatItems(items) + rest)
  {
    PrintableCons(RBracket, rest);
    if items.Item? {
      if items.tail == NoItems {
        assert FlatItems(items) + rest == Flat(items.head) + ([RBracket] + rest);
        PrintableFlat(items.head, [RBracket] + rest);
      } else {
        PrintableItems(items.tail, rest);
        PrintableCons(Comma, FlatItems(items.tail) + rest);
        var tail := [Comma] + (FlatItems(items.tail) + rest);
        assert FlatItems(items) + rest == Flat(items.head) + tail;
        PrintableFlat(items.head, tail);
      }
    }
  }

  lemma {:induction false} PrintableMembers(members: Members, rest: seq<Token>)
    requires GoodMembers(members) && PrintableTail(rest)
    ensures Printable(FlatMembers(members) + rest)
  {
    hide Printable, GoodBody, GoodTree, Flat;
    PrintableCons(RBrace, rest);
    if members.Member? {
      var tail := if members.rest == NoMembers then [RBrace] + rest else [Comma] + (FlatMembers(members.rest) + rest);
      if members.rest != NoMembers {
        PrintableMembers(members.rest, rest);
        PrintableCons(Comma, FlatMembers(members.rest) + rest);
      }
      PrintableFlat(members.value, tail);
      PrintableKey(members.key, Flat(members.value) + tail);
      assert FlatMembers(members) + rest == [Quoted(members.key), Colon] + (Flat(members.value) + tail);
    }
  }

  lemma PrintableKey(key: string, ts: seq<Token>)
    requires GoodBody(key) && Printable(ts)
    ensures Printable([Quoted(key), Colon] + ts)
  {
    var all := [Quoted(key), Colon] + ts;
    assert all[1..] == [Colon] + ts;
    PrintableCons(Colon, ts);
  }

  /** JSON.stringify without indentation. */
  function Stringify(t: Tree): string {
    Print(Flat(t))
  }

  /** What is printed parses back to the tree it was printed from. */
  lemma ParseStringify(t: Tree)
    requires GoodTree(t)
    ensures Parse(Stringify(t)) == Some(t)
  {
    PrintableFlat(t, []);
    assert Flat(t) + [] == Flat(t);
    LexPrint(Flat(t));
    ParseIff(Stringify(t), t);
  }
}
