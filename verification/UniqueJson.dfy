/**
  parseUniqueJson of src/domain/email-verification.ts: the same flat matches as the policy check, read
  with a stack of name sets, so that no object at any depth may repeat a member name.
*/
module UniqueJson {
  import opened Json
  import opened JsonText
  import opened Options
  import opened PolicyBody
  import opened Sequences
  import JsonSpelling

  // ----- What the check is for -----

  predicate NoRepeats(names: seq<Utf16>) {
    names == [] || (names[0] !in names[1..] && NoRepeats(names[1..]))
  }

  /** No object in a tree, at any depth, has two equal member names. */
  predicate Unique(t: Tree) {
    match t
    case Arr(items) => UniqueItems(items)
    case Obj(members) => NoRepeats(MemberNames(members)) && UniqueMembers(members)
    case _ => true
  }

  predicate UniqueItems(items: Items) {
    items.Item? ==> Unique(items.head) && UniqueItems(items.tail)
  }

  predicate UniqueMembers(members: Members) {
    members.Member? ==> Unique(members.value) && UniqueMembers(members.rest)
  }

  // ----- The scan -----

  /** The names seen in each open object; an open array has none. */
  type Stack = seq<Option<set<Utf16>>>

  function Pop(stack: Stack): Stack {
    if stack == [] then [] else stack[..|stack| - 1]
  }

  predicate IsName(token: string, rest: seq<string>) {
    token != [] && token[0] == '"' && rest != [] && rest[0] == ":"
  }

  /** The stack after a name, or None if the name is refused. */
  function AddName(stack: Stack, token: string): Option<Stack> {
    if KeyOf(token).None? || stack == [] || stack[|stack| - 1].None? then None
    else
      var names := stack[|stack| - 1].value;
      var name := KeyOf(token).value;
      if name in names then None else Some(Pop(stack) + [Some(names + {name})])
  }

  /** Whether the rest of a scan refuses nothing. */
  predicate Passes(tokens: seq<string>, stack: Stack) {
    if tokens == [] then true
    else
      var token, rest := tokens[0], tokens[1..];
      if token == "{" then Passes(rest, stack + [Some({})])
      else if token == "[" then Passes(rest, stack + [None])
      else if IsClose(token) then Passes(rest, Pop(stack))
      else if IsName(token, rest) then AddName(stack, token).Some? && Passes(rest, AddName(stack, token).value)
      else Passes(rest, stack)
  }

  // ----- One token at a time -----

  lemma PassOpen(rest: seq<string>, stack: Stack)
    ensures Passes(["{"] + rest, stack) == Passes(rest, stack + [Some({})])
    ensures Passes(["["] + rest, stack) == Passes(rest, stack + [None])
  {
    Rest("{", rest);
    Rest("[", rest);
  }

  lemma PassClose(rest: seq<string>, stack: Stack, top: Option<set<Utf16>>)
    ensures Passes(["}"] + rest, stack + [top]) == Passes(rest, stack)
    ensures Passes(["]"] + rest, stack + [top]) == Passes(rest, stack)
  {
    Rest("}", rest);
    Rest("]", rest);
    Back(stack, [top]);
  }

  lemma PassPlain(token: string, rest: seq<string>, stack: Stack)
    requires !IsOpen(token) && !IsClose(token) && !IsName(token, rest)
    ensures Passes([token] + rest, stack) == Passes(rest, stack)
  {
    Rest(token, rest);
  }

  lemma PassName(key: string, rest: seq<string>, stack: Stack, names: set<Utf16>)
    requires GoodBody(key)
    ensures Passes([Show(Quoted(key)), ":"] + rest, stack + [Some(names)])
         == (Unescape(key) !in names && Passes(rest, stack + [Some(names + {Unescape(key)})]))
  {
    hide KeyOf, GoodBody, Unescape;
    var token, open := Show(Quoted(key)), stack + [Some(names)];
    KeyOfGood(key);
    Back(stack, [Some(names)]);
    assert [token, ":"] + rest == [token] + ([":"] + rest);
    Rest(token, [":"] + rest);
    Rest(":", rest);
    if Unescape(key) !in names {
      PassPlain(":", rest, stack + [Some(names + {Unescape(key)})]);
    }
  }

  // ----- The scan against the tree -----

  lemma GoodParts(a: seq<Token>, b: seq<Token>)
    ensures GoodQuotes(a + b) <==> GoodQuotes(a) && GoodQuotes(b)
  {
    hide GoodBody;
    var ts := a + b;
    if GoodQuotes(ts) {
      assert forall i :: 0 <= i < |a| ==> a[i] == ts[i];
      assert forall i :: 0 <= i < |b| ==> b[i] == ts[|a| + i];
    }
  }

  /** A value is passed exactly when it is unique, and leaves the stack as it found it. */
  lemma {:induction false} PassValue(t: Tree, rest: seq<string>, stack: Stack)
    requires NotColon(rest) && GoodQuotes(Flat(t))
    ensures Passes(Visible(Flat(t)) + rest, stack) == (Unique(t) && Passes(rest, stack))
    decreases t, 0
  {
    hide Passes, Visible, FlatItems, FlatMembers, GoodQuotes, NoRepeats, UniqueMembers, UniqueItems, MemberNames;
    match t
    case Atom(text) =>
      NothingVisible(text);
      AppendNothing(rest);
    case Str(body) =>
      VisibleOne(Quoted(body));
      PassPlain(Show(Quoted(body)), rest, stack);
    case Arr(items) =>
      GoodParts([LBracket], FlatItems(items));
      VisibleOne(LBracket);
      VisibleAppend([LBracket], FlatItems(items));
      Associate(["["], Visible(FlatItems(items)), rest);
      PassOpen(Visible(FlatItems(items)) + rest, stack);
      PassItems(items, rest, stack);
    case Obj(members) =>
      GoodParts([LBrace], FlatMembers(members));
      VisibleOne(LBrace);
      VisibleAppend([LBrace], FlatMembers(members));
      Associate(["{"], Visible(FlatMembers(members)), rest);
      PassOpen(Visible(FlatMembers(members)) + rest, stack);
      PassMembers(members, rest, stack, {});
      FreshFromNone(members);
  }

  lemma {:induction false} PassItems(items: Items, rest: seq<string>, stack: Stack)
    requires GoodQuotes(FlatItems(items))
    ensures Passes(Visible(FlatItems(items)) + rest, stack + [None]) == (UniqueItems(items) && Passes(rest, stack))
    decreases items, 1
  {
    hide Passes, Visible, Flat, GoodQuotes, Unique;
    match items
    case NoItems =>
      VisibleOne(RBracket);
      PassClose(rest, stack, None);
    case Item(head, tail) =>
      var more := if tail == NoItems then [RBracket] else [Comma] + FlatItems(tail);
      assert FlatItems(items) == Flat(head) + more;
      GoodParts(Flat(head), more);
      VisibleAppend(Flat(head), more);
      var after := Visible(more) + rest;
      Associate(Visible(Flat(head)), Visible(more), rest);
      if tail == NoItems {
        VisibleOne(RBracket);
        PassClose(rest, stack, None);
      } else {
        VisibleOne(Comma);
        GoodParts([Comma], FlatItems(tail));
        VisibleAppend([Comma], FlatItems(tail));
        Associate([","], Visible(FlatItems(tail)), rest);
        PassPlain(",", Visible(FlatItems(tail)) + rest, stack + [None]);
        PassItems(tail, rest, stack);
      }
      PassValue(head, after, stack + [None]);
  }

  /** Members whose names are new to a set, one after another, with unique values. */
  predicate Fresh(members: Members, names: set<Utf16>) {
    members.Member? ==>
      && Unescape(members.key) !in names && Unique(members.value)
      && Fresh(members.rest, names + {Unescape(members.key)})
  }

  lemma {:induction false} PassMembers(members: Members, rest: seq<string>, stack: Stack, names: set<Utf16>)
    requires GoodQuotes(FlatMembers(members))
    ensures Passes(Visible(FlatMembers(members)) + rest, stack + [Some(names)])
         == (Fresh(members, names) && Passes(rest, stack))
    decreases members, 1
  {
    hide Passes, Visible, Flat, GoodQuotes, Unique, Unescape;
    match members
    case NoMembers =>
      VisibleOne(RBrace);
      PassClose(rest, stack, Some(names));
    case Member(key, value, tail) =>
      MemberGood(members);
      VisibleMember(members, rest);
      var after, more := AfterValue(members, rest), names + {Unescape(key)};
      PassName(key, Visible(Flat(value)) + after, stack, names);
      PassValue(value, after, stack + [Some(more)]);
      if tail == NoMembers {
        PassClose(rest, stack, Some(more));
      } else {
        PassPlain(",", Visible(FlatMembers(tail)) + rest, stack + [Some(more)]);
        PassMembers(tail, rest, stack, more);
      }
  }

  lemma MemberGood(members: Members)
    requires members.Member? && GoodQuotes(FlatMembers(members))
    ensures GoodBody(members.key) && GoodQuotes(Flat(members.value)) && GoodQuotes(FlatMembers(members.rest))
  {
    hide GoodBody, Flat;
    TailGood(members);
    MemberTokens(members);
    hide GoodQuotes, AfterTokens, FlatMembers;
    GoodParts([Quoted(members.key), Colon], Flat(members.value) + AfterTokens(members));
    GoodParts(Flat(members.value), AfterTokens(members));
  }

  lemma {:induction false} FreshIff(members: Members, names: set<Utf16>)
    ensures Fresh(members, names) <==>
              && NoRepeats(MemberNames(members)) && UniqueMembers(members)
              && forall name :: name in MemberNames(members) ==> name !in names
  {
    hide Unescape, Unique;
    if members.NoMembers? {
    } else {
      FreshIff(members.rest, names + {Unescape(members.key)});
      Rest(Unescape(members.key), MemberNames(members.rest));
    }
  }

  lemma FreshFromNone(members: Members)
    ensures Fresh(members, {}) <==> NoRepeats(MemberNames(members)) && UniqueMembers(members)
  {
    FreshIff(members, {});
  }

  /** On every JSON text the scan passes exactly when no object at any depth repeats a member name. */
  lemma ScanIff(raw: string)
    requires Parse(raw).Some?
    ensures Passes(Matches(raw), []) <==> Unique(Parse(raw).value)
  {
    hide Matches, Passes, Flat, Visible, Unique, GoodQuotes;
    var t := Parse(raw).value;
    ParseIff(raw, t);
    MatchesLex(raw);
    LexGood(raw);
    PassValue(t, [], []);
    NothingLeft();
    AppendNothing(Visible(Flat(t)));
  }

  lemma NothingLeft()
    ensures Passes([], [])
  {
  }

  /**
    The parser: null, as for the text null, when the text is no JSON or some object in it repeats a
    name, and the parsed value otherwise.
  */
  method ParseUniqueJson(raw: string) returns (value: Value)
    ensures forall t :: JsonSpelling.Denotes(raw, t) && Unique(t) ==> value == ToValue(t)
    ensures (forall t :: JsonSpelling.Denotes(raw, t) ==> !Unique(t)) ==> value == Null
  {
    hide Parse, Matches, ToValue, Unique, KeyOf, JsonSpelling.Denotes;
    var parsed := Parse(raw);
    forall t ensures JsonSpelling.Denotes(raw, t) <==> parsed == Some(t) {
      JsonSpelling.JsonIff(raw, t);
    }
    if parsed.None? {
      return Null;
    }
    ScanIff(raw);
    var tokens := Matches(raw);
    var stack: Stack := [];
    assert tokens[0..] == tokens;
    for index := 0 to |tokens|
      invariant Passes(tokens, []) == Passes(tokens[index..], stack)
    {
      var token := tokens[index];
      DropOne(tokens, index);
      if token == "{" {
        stack := stack + [Some({})];
      } else if token == "[" {
        stack := stack + [None];
      } else if token == "}" || token == "]" {
        stack := if stack == [] then [] else stack[..|stack| - 1];
      } else if token[0] == '"' && index + 1 < |tokens| && tokens[index + 1] == ":" {
        var names := if stack == [] then None else stack[|stack| - 1];
        var name := KeyOf(token);
        if name.None? || names.None? || name.value in names.value {
          return Null;
        }
        stack := stack[..|stack| - 1] + [Some(names.value + {name.value})];
      }
    }
    assert tokens[|tokens|..] == [];
    return ToValue(parsed.value);
  }
}
