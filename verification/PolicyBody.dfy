/**
  The duplicate-key check of src/organization-policy-routes.ts: a flat scan of the raw text by one
  regular expression, with a depth counter, against the parse tree it never builds.
*/
module PolicyBody {
  import opened Base64
  import opened Json
  import opened JsonText
  import opened Options
  import opened Sequences
  import JsonSpelling
  import Utf8
  import Text

  const MAXIMUM_BYTES := 4096

  // ----- What the check is for -----

  function MemberNames(members: Members): seq<Utf16> {
    match members
    case NoMembers => []
    case Member(key, _, rest) => [Unescape(key)] + MemberNames(rest)
  }

  /** The member names of a top-level object, in order, duplicates included. */
  function TopNames(t: Tree): seq<Utf16> {
    match t
    case Obj(members) => MemberNames(members)
    case _ => []
  }

  ghost predicate Distinct(names: seq<Utf16>, lower: Utf16 -> Utf16) {
    forall i, j :: 0 <= i < j < |names| ==> lower(names[i]) != lower(names[j])
  }

  // ----- The regular expression /"(?:\\.|[^"\\])*"|[{}[\]:,]/gu -----

  predicate LineTerminator(c: char) {
    c == '\n' || c == '\r' || c == 0x2028 as char || c == 0x2029 as char
  }

  /** Position of the quote that ends the string match starting after an opening quote. */
  function MatchBody(s: string): (r: Option<nat>)
    ensures r.Some? ==> r.value < |s| && s[r.value] == '"'
    decreases |s|
  {
    if s == [] then None
    else if s[0] == '"' then Some(0)
    else
      var n := if s[0] == '\\' then 2 else 1;
      if n == 2 && (|s| < 2 || LineTerminator(s[1])) then None
      else
        match MatchBody(s[n..])
        case None => None
        case Some(m) => Some(n + m)
  }

  /** All matches, left to right; text between matches is skipped a character at a time. */
  function Matches(s: string): (tokens: seq<string>)
    ensures forall i :: 0 <= i < |tokens| ==> tokens[i] != []
    decreases |s|
  {
    if s == [] then []
    else if IsStructural(s[0]) then [[s[0]]] + Matches(s[1..])
    else if s[0] == '"' && MatchBody(s[1..]).Some? then
      var n := MatchBody(s[1..]).value + 2;
      [s[..n]] + Matches(s[n..])
    else Matches(s[1..])
  }

  // ----- The regular expression finds exactly the tokens of a JSON text -----

  lemma {:induction false} MatchesBody(s: string)
    requires BodyLength(s).Some?
    ensures MatchBody(s) == BodyLength(s)
    decreases |s|
  {
    if s[0] != '"' {
      var n := CharLength(s);
      MatchesBody(s[n..]);
      if n == 6 {
        assert s[2..][4..] == s[6..];
        PlainRun(s[2..], 4);
      }
    }
  }

  lemma PlainOne(s: string)
    requires s != [] && s[0] != '"' && s[0] != '\\' && MatchBody(s[1..]).Some?
    ensures MatchBody(s) == Some(1 + MatchBody(s[1..]).value)
  {
  }

  /** Characters that are neither quotes nor backslashes are matched one by one. */
  lemma {:induction false} PlainRun(s: string, n: nat)
    requires n <= |s| && forall i :: 0 <= i < n ==> s[i] != '"' && s[i] != '\\'
    requires MatchBody(s[n..]).Some?
    ensures MatchBody(s) == Some(n + MatchBody(s[n..]).value)
  {
    if n > 0 {
      Drop(s, n);
      PlainRun(s[1..], n - 1);
      PlainOne(s);
    } else {
      assert s[0..] == s;
    }
  }

  /** The tokens a scan sees: all but numbers, true, false and null, as text. */
  function Visible(ts: seq<Token>): seq<string> {
    if ts == [] then []
    else if ts[0].Scalar? then Visible(ts[1..])
    else [Show(ts[0])] + Visible(ts[1..])
  }

  lemma {:induction false} SkipRun(s: string, n: nat)
    requires n <= |s| && forall i :: 0 <= i < n ==> !IsStructural(s[i]) && s[i] != '"'
    ensures Matches(s) == Matches(s[n..])
  {
    if n > 0 {
      assert s[1..][n - 1..] == s[n..];
      SkipRun(s[1..], n - 1);
    } else {
      assert s[0..] == s;
    }
  }

  lemma QuotedMatch(s: string)
    requires s != [] && s[0] == '"' && FirstToken(s).Some?
    ensures var (token, n) := FirstToken(s).value;
            token.Quoted? && Matches(s) == [Show(token)] + Matches(s[n..])
  {
    hide BodyLength, ScalarLength, MatchBody;
    var (token, n) := FirstToken(s).value;
    MatchesBody(s[1..]);
    assert s[..n] == Show(token);
  }

  lemma ScalarRun(s: string)
    requires s != [] && s[0] != '"' && !IsStructural(s[0]) && !IsSpace(s[0]) && FirstToken(s).Some?
    ensures var (token, n) := FirstToken(s).value;
            token.Scalar? && Matches(s) == Matches(s[n..])
  {
    hide Matches;
    SkipRun(s, FirstToken(s).value.1);
  }

  /** The first token of a text is the first match, unless it is invisible to the scan. */
  lemma FirstMatch(s: string)
    requires s != [] && !IsSpace(s[0]) && FirstToken(s).Some?
    ensures var (token, n) := FirstToken(s).value;
            Matches(s) == if token.Scalar? then Matches(s[n..]) else [Show(token)] + Matches(s[n..])
  {
    hide BodyLength, ScalarLength, MatchBody;
    var (token, n) := FirstToken(s).value;
    if s[0] == '"' {
      QuotedMatch(s);
    } else if !IsStructural(s[0]) {
      ScalarRun(s);
    }
  }

  lemma SkipSpace(s: string)
    requires s != [] && IsSpace(s[0])
    ensures Matches(s) == Matches(s[1..])
  {
  }

  lemma {:induction false} MatchesLex(s: string)
    requires Lex(s).Some?
    ensures Matches(s) == Visible(Lex(s).value)
    decreases |s|
  {
    if s == [] {
      assert Matches(s) == [];
    }
    hide FirstToken, Matches, Show, IsSpace;
    if s != [] {
      if IsSpace(s[0]) {
        SkipSpace(s);
        MatchesLex(s[1..]);
      } else {
        var (token, n) := FirstToken(s).value;
        MatchesLex(s[n..]);
        FirstMatch(s);
        Rest(token, Lex(s[n..]).value);
      }
    }
  }

  // ----- The scan over tokens -----

  predicate IsOpen(token: string) {
    token == "{" || token == "["
  }

  predicate IsClose(token: string) {
    token == "}" || token == "]"
  }

  /** The scan's test for a top-level member name: a string match at depth 1 with a colon next. */
  predicate KeyPosition(tokens: seq<string>, index: nat, depth: int)
    requires index < |tokens|
  {
    && depth == 1 && tokens[index] != [] && tokens[index][0] == '"'
    && index + 1 < |tokens| && tokens[index + 1] == ":"
  }

  function DepthAfter(token: string, depth: int): int {
    if IsOpen(token) then depth + 1 else if IsClose(token) then depth - 1 else depth
  }

  /** The tokens the scan takes for top-level member names. */
  function ScanKeys(tokens: seq<string>, depth: int): seq<string> {
    if tokens == [] then []
    else
      var rest := ScanKeys(tokens[1..], DepthAfter(tokens[0], depth));
      if KeyPosition(tokens, 0, depth) then [tokens[0]] + rest else rest
  }

  lemma {:induction false} VisibleAppend(a: seq<Token>, b: seq<Token>)
    ensures Visible(a + b) == Visible(a) + Visible(b)
  {
    if a == [] {
      assert a + b == b;
    } else {
      assert (a + b)[1..] == a[1..] + b;
      VisibleAppend(a[1..], b);
    }
  }

  lemma ScanStep(token: string, rest: seq<string>, depth: int)
    requires !(depth == 1 && token != [] && token[0] == '"' && rest != [] && rest[0] == ":")
    ensures ScanKeys([token] + rest, depth) == ScanKeys(rest, DepthAfter(token, depth))
  {
    assert ([token] + rest)[1..] == rest;
  }

  lemma ScanKey(key: string, rest: seq<string>)
    ensures ScanKeys([['"'] + key + ['"'], ":"] + rest, 1) == [['"'] + key + ['"']] + ScanKeys(rest, 1)
  {
    var tokens := [['"'] + key + ['"'], ":"] + rest;
    assert tokens[1..] == [":"] + rest;
    ScanStep(":", rest, 1);
  }

  ghost predicate NotColon(rest: seq<string>) {
    rest != [] ==> rest[0] != ":"
  }

  lemma NothingVisible(text: string)
    ensures Visible([Scalar(text)]) == []
  {
  }

  /** A nested value contributes no key and leaves the depth as it found it. */
  lemma {:induction false} ScanNested(t: Tree, rest: seq<string>, depth: int)
    requires depth >= 1 && NotColon(rest)
    ensures ScanKeys(Visible(Flat(t)) + rest, depth) == ScanKeys(rest, depth)
    decreases t, 0
  {
    hide ScanKeys, Visible, FlatItems, FlatMembers;
    match t
    case Atom(text) =>
      NothingVisible(text);
      AppendNothing(rest);
    case Str(body) =>
      VisibleOne(Quoted(body));
      ScanStep(Show(Quoted(body)), rest, depth);
    case Arr(items) =>
      VisibleOne(LBracket);
      VisibleAppend([LBracket], FlatItems(items));
      Associate(["["], Visible(FlatItems(items)), rest);
      ScanStep("[", Visible(FlatItems(items)) + rest, depth);
      ScanItems(items, rest, depth + 1);
    case Obj(members) =>
      VisibleOne(LBrace);
      VisibleAppend([LBrace], FlatMembers(members));
      Associate(["{"], Visible(FlatMembers(members)), rest);
      ScanStep("{", Visible(FlatMembers(members)) + rest, depth);
      ScanMembers(members, rest, depth + 1);
  }

  lemma {:induction false} ScanItems(items: Items, rest: seq<string>, depth: int)
    requires depth >= 1
    ensures ScanKeys(Visible(FlatItems(items)) + rest, depth) == ScanKeys(rest, depth - 1)
    decreases items, 1
  {
    hide Flat, Visible, ScanKeys;
    match items
    case NoItems =>
      VisibleOne(RBracket);
      ScanStep("]", rest, depth);
    case Item(head, tail) =>
      var more := if tail == NoItems then [RBracket] else [Comma] + FlatItems(tail);
      assert FlatItems(items) == Flat(head) + more;
      VisibleAppend(Flat(head), more);
      var after := Visible(more) + rest;
      Associate(Visible(Flat(head)), Visible(more), rest);
      if tail == NoItems {
        VisibleOne(RBracket);
        ScanStep("]", rest, depth);
      } else {
        VisibleOne(Comma);
        VisibleAppend([Comma], FlatItems(tail));
        Associate([","], Visible(FlatItems(tail)), rest);
        ScanStep(",", Visible(FlatItems(tail)) + rest, depth);
        ScanItems(tail, rest, depth);
      }
      ScanNested(head, after, depth);
  }

  /** What follows the name and colon of a first member, as the scan sees it. */
  ghost function AfterValue(members: Members, rest: seq<string>): seq<string>
    requires members.Member?
  {
    if members.rest == NoMembers then ["}"] + rest else [","] + (Visible(FlatMembers(members.rest)) + rest)
  }

  ghost function AfterTokens(members: Members): seq<Token>
    requires members.Member?
  {
    if members.rest == NoMembers then [RBrace] else [Comma] + FlatMembers(members.rest)
  }

  lemma VisibleAfter(members: Members, rest: seq<string>)
    requires members.Member?
    ensures Visible(AfterTokens(members)) + rest == AfterValue(members, rest)
  {
    VisibleOne(RBrace);
    VisibleOne(Comma);
    VisibleAppend([Comma], FlatMembers(members.rest));
  }

  lemma MemberTokens(members: Members)
    requires members.Member?
    ensures FlatMembers(members) == [Quoted(members.key), Colon] + (Flat(members.value) + AfterTokens(members))
  {
    hide Flat;
    Associate([Quoted(members.key), Colon], Flat(members.value), AfterTokens(members));
  }

  lemma VisibleMember(members: Members, rest: seq<string>)
    requires members.Member?
    ensures Visible(FlatMembers(members)) + rest
         == [Show(Quoted(members.key)), ":"] + (Visible(Flat(members.value)) + AfterValue(members, rest))
  {
    hide Visible, Flat, Show;
    var head, value, more := [Quoted(members.key), Colon], Flat(members.value), AfterTokens(members);
    MemberTokens(members);
    VisiblePair(members.key);
    VisibleAfter(members, rest);
    hide FlatMembers, AfterValue, AfterTokens;
    VisibleAppend(head, value + more);
    VisibleAppend(value, more);
    Nest(Visible(head), Visible(value), Visible(more), rest);
  }

  lemma VisibleOne(t: Token)
    requires !t.Scalar?
    ensures Visible([t]) == [Show(t)]
  {
  }

  lemma VisiblePair(key: string)
    ensures Visible([Quoted(key), Colon]) == [Show(Quoted(key)), ":"]
  {
    VisibleOne(Quoted(key));
    VisibleOne(Colon);
    VisibleAppend([Quoted(key)], [Colon]);
    assert [Quoted(key), Colon] == [Quoted(key)] + [Colon];
  }

  lemma {:induction false} ScanMembers(members: Members, rest: seq<string>, depth: int)
    requires depth >= 2
    ensures ScanKeys(Visible(FlatMembers(members)) + rest, depth) == ScanKeys(rest, depth - 1)
    decreases members, 1
  {
    hide Flat, Visible, ScanKeys;
    match members
    case NoMembers =>
      VisibleOne(RBrace);
      ScanStep("}", rest, depth);
    case Member(key, value, tail) =>
      VisibleMember(members, rest);
      var after := AfterValue(members, rest);
      var inner := Visible(Flat(value)) + after;
      ScanStep(Show(Quoted(key)), [":"] + inner, depth);
      ScanStep(":", inner, depth);
      assert [Show(Quoted(key)), ":"] + inner == [Show(Quoted(key))] + ([":"] + inner);
      ScanNested(value, after, depth);
      if tail == NoMembers {
        ScanStep("}", rest, depth);
      } else {
        ScanStep(",", Visible(FlatMembers(tail)) + rest, depth);
        ScanMembers(tail, rest, depth);
      }
  }

  function KeyTexts(members: Members): seq<string> {
    match members
    case NoMembers => []
    case Member(key, _, rest) => [['"'] + key + ['"']] + KeyTexts(rest)
  }

  function TopKeyTexts(t: Tree): seq<string> {
    match t
    case Obj(members) => KeyTexts(members)
    case _ => []
  }

  lemma {:induction false} ScanTopMembers(members: Members)
    ensures ScanKeys(Visible(FlatMembers(members)), 1) == KeyTexts(members)
  {
    var all := Visible(FlatMembers(members));
    assert all + [] == all;
    match members
    case NoMembers =>
      VisibleOne(RBrace);
      ScanStep("}", [], 1);
    case Member(key, value, tail) =>
      VisibleMember(members, []);
      var after := AfterValue(members, []);
      ScanKey(key, Visible(Flat(value)) + after);
      ScanNested(value, after, 1);
      if tail == NoMembers {
        ScanStep("}", [], 1);
      } else {
        var next := Visible(FlatMembers(tail));
        assert next + [] == next;
        ScanStep(",", next, 1);
        ScanTopMembers(tail);
      }
  }

  /** On the tokens of any JSON value, the scan takes exactly the top-level member names. */
  lemma ScanTop(t: Tree)
    ensures ScanKeys(Visible(Flat(t)), 0) == TopKeyTexts(t)
  {
    match t
    case Atom(_) =>
    case Str(body) =>
      assert Visible(Flat(t)) == [Show(Quoted(body))];
      ScanStep(Show(Quoted(body)), [], 0);
    case Arr(items) =>
      VisibleAppend([LBracket], FlatItems(items));
      var inner := Visible(FlatItems(items));
      assert inner + [] == inner && Visible(Flat(t)) == ["["] + inner;
      ScanStep("[", inner, 0);
      ScanItems(items, [], 1);
    case Obj(members) =>
      VisibleAppend([LBrace], FlatMembers(members));
      assert Visible(Flat(t)) == ["{"] + Visible(FlatMembers(members));
      ScanStep("{", Visible(FlatMembers(members)), 0);
      ScanTopMembers(members);
  }

  // ----- Reading a key token back with JSON.parse -----

  function KeyOf(token: string): Option<Utf16> {
    match Parse(token)
    case Some(Str(body)) => Some(Unescape(body))
    case _ => None
  }

  lemma KeyOfGood(key: string)
    requires GoodBody(key)
    ensures KeyOf(['"'] + key + ['"']) == Some(Unescape(key))
  {
    var ts := [Quoted(key)];
    assert ts[1..] == [];
    LexPrint(ts);
    assert Print(ts) == ['"'] + key + ['"'];
    ParseIff(Print(ts), Str(key));
  }

  ghost predicate GoodQuotes(ts: seq<Token>) {
    forall i :: 0 <= i < |ts| && ts[i].Quoted? ==> GoodBody(ts[i].body)
  }

  lemma {:induction false} BodyPrefix(s: string)
    requires BodyLength(s).Some?
    ensures BodyLength(s[..BodyLength(s).value + 1]) == BodyLength(s)
    decreases |s|
  {
    var m := BodyLength(s).value;
    var t := s[..m + 1];
    if s[0] != '"' {
      var n := CharLength(s);
      BodyPrefix(s[n..]);
      assert t[n..] == s[n..][..m - n + 1];
      assert CharLength(t) == n;
    }
  }

  lemma FirstGood(s: string)
    requires s != [] && !IsSpace(s[0]) && FirstToken(s).Some? && FirstToken(s).value.0.Quoted?
    ensures GoodBody(FirstToken(s).value.0.body)
  {
    var (token, n) := FirstToken(s).value;
    BodyPrefix(s[1..]);
    assert s[1..][..n - 1] == token.body + ['"'];
  }

  lemma {:induction false} LexGood(s: string)
    requires Lex(s).Some?
    ensures GoodQuotes(Lex(s).value)
    decreases |s|
  {
    hide FirstToken, BodyLength, GoodBody;
    if s == [] {
    } else {
      if IsSpace(s[0]) {
        LexGood(s[1..]);
      } else {
        if FirstToken(s).value.0.Quoted? {
          FirstGood(s);
        }
        LexGood(s[FirstToken(s).value.1..]);
      }
    }
  }

  /** The first name is a good body, and so are the later names. */
  lemma TailGood(members: Members)
    requires members.Member? && GoodQuotes(FlatMembers(members))
    ensures GoodBody(members.key) && GoodQuotes(FlatMembers(members.rest))
  {
    hide GoodBody, Flat;
    var ts := FlatMembers(members);
    assert ts[0] == Quoted(members.key);
    if members.rest != NoMembers {
      var tail := FlatMembers(members.rest);
      var skip := |ts| - |tail|;
      assert ts[skip..] == tail;
      assert forall i :: 0 <= i < |tail| ==> tail[i] == ts[skip + i];
    } else {
      assert FlatMembers(members.rest) == [RBrace];
    }
  }

  lemma {:induction false} KeysGood(members: Members)
    requires GoodQuotes(FlatMembers(members))
    ensures |KeyTexts(members)| == |MemberNames(members)|
    ensures forall i :: 0 <= i < |KeyTexts(members)| ==> KeyOf(KeyTexts(members)[i]) == Some(MemberNames(members)[i])
  {
    hide GoodBody, KeyOf, Flat, Unescape;
    if members.Member? {
      TailGood(members);
      KeyOfGood(members.key);
      KeysGood(members.rest);
    }
  }

  /**
    For every JSON text, the flat scan yields the top-level member names and nothing else: nested
    values and strings full of braces, colons or escaped quotes contribute none.
  */
  lemma ScanText(raw: string)
    requires Parse(raw).Some?
    ensures var names, keys := TopNames(Parse(raw).value), ScanKeys(Matches(raw), 0);
            && |keys| == |names|
            && forall i :: 0 <= i < |keys| ==> KeyOf(keys[i]) == Some(names[i])
  {
    var t := Parse(raw).value;
    ParseIff(raw, t);
    MatchesLex(raw);
    LexGood(raw);
    ScanTop(t);
    if t.Obj? {
      assert forall i :: 0 <= i < |FlatMembers(t.members)| ==> FlatMembers(t.members)[i] == Flat(t)[i + 1];
      KeysGood(t.members);
    }
  }

  // ----- readPolicyBody -----

  function Concat(chunks: seq<seq<Byte>>): seq<Byte> {
    if chunks == [] then [] else Concat(chunks[..|chunks| - 1]) + chunks[|chunks| - 1]
  }

  /** A Content-Length header, when there is one, must be digits naming at most the limit. */
  predicate LengthAllowed(contentLength: Option<string>) {
    contentLength.Some? ==>
      var text := contentLength.value;
      && text != [] && (forall i :: 0 <= i < |text| ==> IsDigit(text[i]))
      && Text.ReadDecimal(text) <= MAXIMUM_BYTES
  }

  /** The text of the body, if every check before the scan lets it through. */
  function BodyText(body: Option<seq<seq<Byte>>>, contentLength: Option<string>): Option<string> {
    if body.None? || !LengthAllowed(contentLength) || |Concat(body.value)| > MAXIMUM_BYTES then None
    else Utf8.DecodeText(Concat(body.value))
  }

  /**
    What a caller must send for t: a body of at most 4096 bytes, by its header too if there is one, that
    writes t as JSON in UTF-8, and no two top-level names equal when lower-cased.
  */
  ghost predicate Accepts(body: Option<seq<seq<Byte>>>, contentLength: Option<string>, lower: Utf16 -> Utf16, t: Tree) {
    && body.Some? && LengthAllowed(contentLength) && |Concat(body.value)| <= 4096
    && (exists raw :: Utf8.Spells(Concat(body.value), raw) && JsonSpelling.Denotes(raw, t))
    && Distinct(TopNames(t), lower)
  }

  lemma AcceptsIff(body: Option<seq<seq<Byte>>>, contentLength: Option<string>, lower: Utf16 -> Utf16, t: Tree)
    ensures Accepts(body, contentLength, lower, t) <==>
              && BodyText(body, contentLength).Some?
              && Parse(BodyText(body, contentLength).value) == Some(t)
              && Distinct(TopNames(t), lower)
  {
    hide Parse, Utf8.DecodeText, Utf8.Spells, JsonSpelling.Denotes, Distinct, TopNames;
    var text := BodyText(body, contentLength);
    if text.Some? {
      Utf8.TextIff(Concat(body.value), text.value);
      JsonSpelling.JsonIff(text.value, t);
    }
    if Accepts(body, contentLength, lower, t) {
      var raw :| Utf8.Spells(Concat(body.value), raw) && JsonSpelling.Denotes(raw, t);
      Utf8.TextIff(Concat(body.value), raw);
    }
  }

  /**
    The body as JSON, refused when two top-level member names are equal after unescaping and
    lower-casing. The streamed chunks are decoded as one text.
  */
  method ReadPolicyBody(body: Option<seq<seq<Byte>>>, contentLength: Option<string>, lower: Utf16 -> Utf16)
    returns (r: Option<Tree>)
    ensures forall t :: r == Some(t) <==> Accepts(body, contentLength, lower, t)
  {
    hide Parse, Distinct, TopNames, Accepts, Utf8.DecodeText;
    r := None;
    forall t ensures Accepts(body, contentLength, lower, t) <==>
                       && BodyText(body, contentLength).Some?
                       && Parse(BodyText(body, contentLength).value) == Some(t)
                       && Distinct(TopNames(t), lower)
    {
      AcceptsIff(body, contentLength, lower, t);
    }
    if body.None? || !LengthAllowed(contentLength) {
      return;
    }
    var chunks, received, receivedBytes := body.value, [], 0;
    for i := 0 to |chunks|
      invariant received == Concat(chunks[..i]) && receivedBytes == |received| <= MAXIMUM_BYTES
    {
      assert chunks[..i + 1][..i] == chunks[..i];
      receivedBytes := receivedBytes + |chunks[i]|;
      if receivedBytes > MAXIMUM_BYTES {
        ConcatMonotone(chunks, i + 1);
        return;
      }
      received := received + chunks[i];
    }
    assert chunks[..|chunks|] == chunks;
    var text := Utf8.DecodeText(received);
    if text.None? {
      return;
    }
    var value := Parse(text.value);
    if value.None? {
      return;
    }
    var duplicate := HasDuplicateKey(text.value, lower);
    if !duplicate {
      r := value;
    }
  }

  lemma {:induction false} ConcatMonotone(chunks: seq<seq<Byte>>, n: nat)
    requires n <= |chunks|
    ensures |Concat(chunks[..n])| <= |Concat(chunks)|
    decreases |chunks| - n
  {
    if n == |chunks| {
      assert chunks[..n] == chunks;
    } else {
      ConcatMonotone(chunks, n + 1);
      assert chunks[..n + 1][..n] == chunks[..n];
    }
  }

  /** The scan itself: a depth counter and a set of keys, one pass over the matches. */
  method HasDuplicateKey(raw: string, lower: Utf16 -> Utf16) returns (duplicate: bool)
    requires Parse(raw).Some?
    ensures duplicate <==> !Distinct(TopNames(Parse(raw).value), lower)
  {
    var tokens := Matches(raw);
    var depth, keys := 0, {};
    ghost var names, found, k := TopNames(Parse(raw).value), ScanKeys(tokens, 0), 0;
    ScanText(raw);
    hide Matches, Parse, TopNames, KeyOf, IsOpen, IsClose, KeyPosition;
    assert tokens[0..] == tokens;
    for index := 0 to |tokens|
      invariant k <= |found| == |names| && found[k..] == ScanKeys(tokens[index..], depth)
      invariant keys == set i | 0 <= i < k :: lower(names[i])
      invariant Distinct(names[..k], lower)
    {
      var token := tokens[index];
      DropOne(tokens, index);
      ScanUnfold(tokens[index..], depth);
      KeyPositionShift(tokens, index, depth);
      if IsOpen(token) {
        depth := depth + 1;
      } else if IsClose(token) {
        depth := depth - 1;
      } else if KeyPosition(tokens, index, depth) {
        NextKey(found, k, token, ScanKeys(tokens[index + 1..], depth));
        var key := lower(KeyOf(token).value);
        DistinctMore(names, k, lower);
        if key in keys {
          assert !Distinct(names[..k + 1], lower);
          return true;
        }
        keys := keys + {key};
        k := k + 1;
      }
    }
    assert tokens[|tokens|..] == [] && names[..k] == names;
    return false;
  }

  lemma DistinctMore(names: seq<Utf16>, k: nat, lower: Utf16 -> Utf16)
    requires k < |names| && Distinct(names[..k], lower)
    ensures Distinct(names[..k + 1], lower) <==> lower(names[k]) !in set i | 0 <= i < k :: lower(names[i])
    ensures (set i | 0 <= i < k + 1 :: lower(names[i])) == (set i | 0 <= i < k :: lower(names[i])) + {lower(names[k])}
  {
    var some, more := names[..k], names[..k + 1];
    assert more == some + [names[k]];
    if lower(names[k]) in set i | 0 <= i < k :: lower(names[i]) {
      var i :| 0 <= i < k && lower(names[i]) == lower(names[k]);
      assert more[i] == names[i] && more[k] == names[k];
    } else {
      assert forall i :: 0 <= i < k ==> lower(some[i]) == lower(names[i]) != lower(names[k]);
    }
  }

  lemma NextKey(found: seq<string>, k: nat, token: string, later: seq<string>)
    requires k <= |found| && found[k..] == [token] + later
    ensures k < |found| && found[k] == token && found[k + 1..] == later
  {
    DropOne(found, k);
    Rest(token, later);
  }

  lemma KeyPositionShift(tokens: seq<string>, index: nat, depth: int)
    requires index < |tokens|
    ensures KeyPosition(tokens[index..], 0, depth) == KeyPosition(tokens, index, depth)
  {
  }

  lemma ScanUnfold(tokens: seq<string>, depth: int)
    requires tokens != []
    ensures IsOpen(tokens[0]) ==> ScanKeys(tokens, depth) == ScanKeys(tokens[1..], depth + 1)
    ensures IsClose(tokens[0]) ==> ScanKeys(tokens, depth) == ScanKeys(tokens[1..], depth - 1)
    ensures !IsOpen(tokens[0]) && !IsClose(tokens[0]) && KeyPosition(tokens, 0, depth) ==>
              ScanKeys(tokens, depth) == [tokens[0]] + ScanKeys(tokens[1..], depth)
    ensures !IsOpen(tokens[0]) && !IsClose(tokens[0]) && !KeyPosition(tokens, 0, depth) ==>
              ScanKeys(tokens, depth) == ScanKeys(tokens[1..], depth)
    ensures ScanKeys([], depth) == []
  {
  }
}
