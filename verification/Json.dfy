/**
  JSON texts (RFC 8259): tokens, the parse tree with its raw member names in order, string escapes,
  and the compact printer. Raw texts are Unicode strings; string values are UTF-16 code units, so
  that escaped lone surrogates have a value, as they do in JavaScript.
*/
module Json {
  import opened Options

  type Unit = n: nat | n < 0x10000
  type Utf16 = seq<Unit>

  datatype Token =
    | LBrace | RBrace | LBracket | RBracket | Colon | Comma
    | Quoted(body: string)    // a string literal, without its quotes
    | Scalar(text: string)    // a number, true, false or null

  datatype Tree =
    | Str(body: string)
    | Atom(text: string)
    | Arr(items: Items)
    | Obj(members: Members)
  datatype Items = NoItems | Item(head: Tree, tail: Items)
  datatype Members = NoMembers | Member(key: string, value: Tree, rest: Members)

  // ----- Lexical grammar -----

  predicate IsSpace(c: char) {
    c == ' ' || c == '\t' || c == '\n' || c == '\r'
  }

  predicate IsDigit(c: char) {
    '0' <= c <= '9'
  }

  predicate IsHex(c: char) {
    '0' <= c <= '9' || 'a' <= c <= 'f' || 'A' <= c <= 'F'
  }

  predicate IsStructural(c: char) {
    c == '{' || c == '}' || c == '[' || c == ']' || c == ':' || c == ','
  }

  predicate SimpleEscape(c: char) {
    c == '"' || c == '\\' || c == '/' || c == 'b' || c == 'f' || c == 'n' || c == 'r' || c == 't'
  }

  predicate UnicodeEscape(s: string) {
    |s| >= 6 && s[0] == '\\' && s[1] == 'u' && IsHex(s[2]) && IsHex(s[3]) && IsHex(s[4]) && IsHex(s[5])
  }

  /** Characters of s that make up one unit of a string body, or 0 if none does. */
  function CharLength(s: string): (n: nat)
    ensures n <= |s|
  {
    if s == [] || s[0] == '"' then 0
    else if s[0] == '\\' then
      if |s| >= 2 && SimpleEscape(s[1]) then 2 else if UnicodeEscape(s) then 6 else 0
    else if s[0] < ' ' then 0 else 1
  }

  /** Position of the quote that closes a string body starting at s, if the body is valid. */
  function BodyLength(s: string): (r: Option<nat>)
    ensures r.Some? ==> r.value < |s| && s[r.value] == '"'
    decreases |s|
  {
    if s == [] then None
    else if s[0] == '"' then Some(0)
    else
      var n := CharLength(s);
      if n == 0 then None
      else
        match BodyLength(s[n..])
        case None => None
        case Some(m) => Some(n + m)
  }

  function Digits(s: string): (n: nat)
    ensures n <= |s| && forall i :: 0 <= i < n ==> IsDigit(s[i])
    ensures n < |s| ==> !IsDigit(s[n])
  {
    if s == [] || !IsDigit(s[0]) then 0 else 1 + Digits(s[1..])
  }

  predicate NumberChar(c: char) {
    IsDigit(c) || c == '-' || c == '+' || c == '.' || c == 'e' || c == 'E'
  }

  function FractionLength(s: string): (n: nat)
    ensures n <= |s| && forall i :: 0 <= i < n ==> NumberChar(s[i])
  {
    if s != [] && s[0] == '.' && Digits(s[1..]) > 0 then 1 + Digits(s[1..]) else 0
  }

  function ExponentLength(s: string): (n: nat)
    ensures n <= |s| && forall i :: 0 <= i < n ==> NumberChar(s[i])
  {
    if s != [] && (s[0] == 'e' || s[0] == 'E') then
      var sign := if |s| >= 2 && (s[1] == '+' || s[1] == '-') then 2 else 1;
      if Digits(s[sign..]) > 0 then sign + Digits(s[sign..]) else 0
    else 0
  }

  /** Length of the longest number at the start of s, or 0. */
  function NumberLength(s: string): (n: nat)
    ensures n <= |s| && forall i :: 0 <= i < n ==> NumberChar(s[i])
  {
    var sign := if s != [] && s[0] == '-' then 1 else 0;
    var digits := if sign < |s| && s[sign] == '0' then 1 else Digits(s[sign..]);
    if digits == 0 then 0
    else
      var whole := sign + digits;
      var fraction := whole + FractionLength(s[whole..]);
      fraction + ExponentLength(s[fraction..])
  }

  function StructuralToken(c: char): Token
    requires IsStructural(c)
  {
    match c
    case '{' => LBrace
    case '}' => RBrace
    case '[' => LBracket
    case ']' => RBracket
    case ':' => Colon
    case _ => Comma
  }

  /** Length of the true, false, null or number at the start of s, or 0. */
  function ScalarLength(s: string): (n: nat)
    ensures n <= |s| && forall i :: 0 <= i < n ==> !IsStructural(s[i]) && s[i] != '"'
  {
    if "true" <= s || "null" <= s then 4
    else if "false" <= s then 5
    else NumberLength(s)
  }

  /** The token at the start of s, with its length. */
  function FirstToken(s: string): (r: Option<(Token, nat)>)
    requires s != []
    ensures r.Some? ==> 0 < r.value.1 <= |s|
  {
    if IsStructural(s[0]) then Some((StructuralToken(s[0]), 1))
    else if s[0] == '"' then
      match BodyLength(s[1..])
      case None => None
      case Some(n) => Some((Quoted(s[1..n + 1]), n + 2))
    else
      var n := ScalarLength(s);
      if n == 0 then None else Some((Scalar(s[..n]), n))
  }

  function Lex(s: string): Option<seq<Token>>
    decreases |s|
  {
    if s == [] then Some([])
    else if IsSpace(s[0]) then Lex(s[1..])
    else
      match FirstToken(s)
      case None => None
      case Some((token, n)) =>
        match Lex(s[n..])
        case None => None
        case Some(tokens) => Some([token] + tokens)
  }

  // ----- Grammar over tokens -----

  function Flat(t: Tree): (ts: seq<Token>)
    ensures ts != []
  {
    match t
    case Str(body) => [Quoted(body)]
    case Atom(text) => [Scalar(text)]
    case Arr(items) => [LBracket] + FlatItems(items)
    case Obj(members) => [LBrace] + FlatMembers(members)
  }

  /** The items of an array and its closing bracket. */
  function FlatItems(items: Items): (ts: seq<Token>)
    ensures ts != []
  {
    match items
    case NoItems => [RBracket]
    case Item(head, NoItems) => Flat(head) + [RBracket]
    case Item(head, tail) => Flat(head) + ([Comma] + FlatItems(tail))
  }

  function FlatMembers(members: Members): (ts: seq<Token>)
    ensures ts != []
  {
    match members
    case NoMembers => [RBrace]
    case Member(key, value, NoMembers) => [Quoted(key), Colon] + (Flat(value) + [RBrace])
    case Member(key, value, rest) => [Quoted(key), Colon] + (Flat(value) + ([Comma] + FlatMembers(rest)))
  }

  /** A value at the start of the tokens, and the tokens after it. */
  function ParseValue(ts: seq<Token>): (r: Option<(Tree, seq<Token>)>)
    ensures r.Some? ==> ts == Flat(r.value.0) + r.value.1
    decreases |ts|, 0
  {
    if ts == [] then None
    else
      match ts[0]
      case Quoted(body) => Some((Str(body), ts[1..]))
      case Scalar(text) => Some((Atom(text), ts[1..]))
      case LBracket =>
        if |ts| > 1 && ts[1] == RBracket then
          assert ts == [LBracket, RBracket] + ts[2..];
          Some((Arr(NoItems), ts[2..]))
        else
          (match ParseItems(ts[1..])
           case None => None
           case Some((items, rest)) =>
             assert ts == [LBracket] + (FlatItems(items) + rest);
             assert [LBracket] + (FlatItems(items) + rest) == [LBracket] + FlatItems(items) + rest;
             Some((Arr(items), rest)))
      case LBrace =>
        if |ts| > 1 && ts[1] == RBrace then
          assert ts == [LBrace, RBrace] + ts[2..];
          Some((Obj(NoMembers), ts[2..]))
        else
          (match ParseMembers(ts[1..])
           case None => None
           case Some((members, rest)) =>
             assert ts == [LBrace] + (FlatMembers(members) + rest);
             assert [LBrace] + (FlatMembers(members) + rest) == [LBrace] + FlatMembers(members) + rest;
             Some((Obj(members), rest)))
      case _ => None
  }

  /** One or more items and the closing bracket. */
  function ParseItems(ts: seq<Token>): (r: Option<(Items, seq<Token>)>)
    ensures r.Some? ==> r.value.0.Item? && ts == FlatItems(r.value.0) + r.value.1
    decreases |ts|, 1
  {
    match ParseValue(ts)
    case None => None
    case Some((head, more)) =>
      assert |more| < |ts|;
      if more != [] && more[0] == RBracket then
        assert ts == Flat(head) + [RBracket] + more[1..];
        Some((Item(head, NoItems), more[1..]))
      else if more != [] && more[0] == Comma then
        (match ParseItems(more[1..])
         case None => None
         case Some((tail, rest)) =>
           assert more == [Comma] + FlatItems(tail) + rest;
           assert ts == Flat(head) + ([Comma] + FlatItems(tail)) + rest;
           Some((Item(head, tail), rest)))
      else None
  }

  /** One or more members and the closing brace. */
  function ParseMembers(ts: seq<Token>): (r: Option<(Members, seq<Token>)>)
    ensures r.Some? ==> r.value.0.Member? && ts == FlatMembers(r.value.0) + r.value.1
    decreases |ts|, 1
  {
    if |ts| < 2 || !ts[0].Quoted? || ts[1] != Colon then None
    else
      match ParseValue(ts[2..])
      case None => None
      case Some((value, more)) =>
        var key := ts[0].body;
        assert ts == [Quoted(key), Colon] + (Flat(value) + more);
        assert |more| < |ts|;
        if more != [] && more[0] == RBrace then
          assert more == [RBrace] + more[1..];
          assert ts == [Quoted(key), Colon] + (Flat(value) + [RBrace]) + more[1..];
          Some((Member(key, value, NoMembers), more[1..]))
        else if more != [] && more[0] == Comma then
          (match ParseMembers(more[1..])
           case None => None
           case Some((tail, rest)) =>
             assert more == [Comma] + FlatMembers(tail) + rest;
             assert ts == [Quoted(key), Colon] + (Flat(value) + ([Comma] + FlatMembers(tail))) + rest;
             Some((Member(key, value, tail), rest)))
        else None
  }

  /** The whole text is one value: what JSON.parse accepts. */
  function Parse(s: string): (r: Option<Tree>) {
    match Lex(s)
    case None => None
    case Some(ts) =>
      match ParseValue(ts)
      case None => None
      case Some((tree, rest)) => if rest == [] then Some(tree) else None
  }

  // ----- The parser accepts exactly the flattened trees -----

  lemma {:induction false} ParseFlat(t: Tree, rest: seq<Token>)
    ensures ParseValue(Flat(t) + rest) == Some((t, rest))
    decreases t, 0
  {
    var ts := Flat(t) + rest;
    match t
    case Str(body) =>
      assert ts[1..] == rest;
    case Atom(text) =>
      assert ts[1..] == rest;
    case Arr(items) =>
      assert ts[1..] == FlatItems(items) + rest;
      if items == NoItems {
        assert ts[2..] == rest;
      } else {
        FlatStart(items.head);
        ParseFlatItems(items, rest);
      }
    case Obj(members) =>
      assert ts[1..] == FlatMembers(members) + rest;
      if members == NoMembers {
        assert ts[2..] == rest;
      } else {
        ParseFlatMembers(members, rest);
      }
  }

  lemma FlatStart(t: Tree)
    ensures Flat(t)[0] != RBracket && Flat(t)[0] != RBrace && Flat(t)[0] != Colon && Flat(t)[0] != Comma
  {
  }

  lemma {:induction false} ParseFlatItems(items: Items, rest: seq<Token>)
    requires items.Item?
    ensures ParseItems(FlatItems(items) + rest) == Some((items, rest))
    decreases items, 1
  {
    var ts := FlatItems(items) + rest;
    var more := if items.tail == NoItems then [RBracket] + rest else [Comma] + (FlatItems(items.tail) + rest);
    assert ts == Flat(items.head) + more;
    ParseFlat(items.head, more);
    assert more[1..] == if items.tail == NoItems then rest else FlatItems(items.tail) + rest;
    if items.tail != NoItems {
      ParseFlatItems(items.tail, rest);
    }
  }

  lemma {:induction false} ParseFlatMembers(members: Members, rest: seq<Token>)
    requires members.Member?
    ensures ParseMembers(FlatMembers(members) + rest) == Some((members, rest))
    decreases members, 1
  {
    var ts := FlatMembers(members) + rest;
    var more := if members.rest == NoMembers then [RBrace] + rest else [Comma] + (FlatMembers(members.rest) + rest);
    assert ts == [Quoted(members.key), Colon] + (Flat(members.value) + more);
    assert ts[2..] == Flat(members.value) + more;
    ParseFlat(members.value, more);
    assert more[1..] == if members.rest == NoMembers then rest else FlatMembers(members.rest) + rest;
    if members.rest != NoMembers {
      ParseFlatMembers(members.rest, rest);
    }
  }

  /** A text parses to a tree exactly when its tokens are that tree written out. */
  lemma ParseIff(s: string, t: Tree)
    ensures Parse(s) == Some(t) <==> Lex(s) == Some(Flat(t))
  {
    hide ParseValue, Lex, Flat;
    ParseFlat(t, []);
    assert Flat(t) + [] == Flat(t);
    if Parse(s) == Some(t) {
      assert Lex(s).value == Flat(t) + [];
    }
  }
}
