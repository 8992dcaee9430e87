/**
  The presentation form of DNS TXT data read by readTxtChunks in src/email-verification.ts, after
  section 5.1 of RFC 1035: quoted chunks, escapes, and blanks between the chunks.
*/
module TxtRecord {
  import opened Json
  import opened Options
  import opened Sequences

  const QUOTE: Unit := 0x22
  const BACKSLASH: Unit := 0x5C

  // ----- The grammar -----

  /** One character of a chunk, and how it is written. */
  datatype Piece =
    | Plain(unit: Unit)
    | EscapedQuote
    | EscapedBackslash
    | Decimal(hundreds: Unit, tens: Unit, ones: Unit)

  /** Chunks, each after its blanks, and the blanks at the end. */
  datatype Record = End(blanks: Utf16) | Chunk(blanks: Utf16, pieces: seq<Piece>, rest: Record)

  predicate IsBlank(u: Unit) {
    u == 0x20 || u == 0x09
  }

  predicate Blanks(s: Utf16) {
    s == [] || (IsBlank(s[0]) && Blanks(s[1..]))
  }

  predicate IsDigitUnit(u: Unit) {
    0x30 <= u <= 0x39
  }

  predicate GoodPiece(p: Piece) {
    match p
    case Plain(u) => u != QUOTE && u != BACKSLASH
    case Decimal(h, t, o) => IsDigitUnit(h) && IsDigitUnit(t) && IsDigitUnit(o)
    case _ => true
  }

  predicate GoodPieces(pieces: seq<Piece>) {
    pieces == [] || (GoodPiece(pieces[0]) && GoodPieces(pieces[1..]))
  }

  /** Blanks may lead and trail; between two chunks there is at least one. */
  predicate GoodRecord(r: Record) {
    match r
    case End(blanks) => Blanks(blanks)
    case Chunk(blanks, pieces, rest) =>
      Blanks(blanks) && GoodPieces(pieces) && GoodRecord(rest) && (rest.Chunk? ==> rest.blanks != [])
  }

  function PrintPiece(p: Piece): (s: Utf16)
    ensures s != []
  {
    match p
    case Plain(u) => [u]
    case EscapedQuote => [BACKSLASH, QUOTE]
    case EscapedBackslash => [BACKSLASH, BACKSLASH]
    case Decimal(h, t, o) => [BACKSLASH, h, t, o]
  }

  function PrintPieces(pieces: seq<Piece>): Utf16 {
    if pieces == [] then [] else PrintPiece(pieces[0]) + PrintPieces(pieces[1..])
  }

  function Print(r: Record): Utf16 {
    match r
    case End(blanks) => blanks
    case Chunk(blanks, pieces, rest) => blanks + [QUOTE] + PrintPieces(pieces) + [QUOTE] + Print(rest)
  }

  /** The character a piece stands for; three digits are a code from 0 to 999. */
  function PieceMeaning(p: Piece): Unit
    requires GoodPiece(p)
  {
    match p
    case Plain(u) => u
    case EscapedQuote => QUOTE
    case EscapedBackslash => BACKSLASH
    case Decimal(h, t, o) => 100 * (h - 0x30) + 10 * (t - 0x30) + (o - 0x30)
  }

  function PiecesMeaning(pieces: seq<Piece>): (s: Utf16)
    requires GoodPieces(pieces)
    ensures |s| == |pieces|
  {
    if pieces == [] then [] else [PieceMeaning(pieces[0])] + PiecesMeaning(pieces[1..])
  }

  /** The concatenation of the chunks. */
  function Meaning(r: Record): Utf16
    requires GoodRecord(r)
  {
    match r
    case End(_) => []
    case Chunk(_, pieces, rest) => PiecesMeaning(pieces) + Meaning(rest)
  }

  // ----- Reading -----

  predicate StartsQuoteEscape(s: Utf16) {
    |s| >= 2 && s[0] == BACKSLASH && (s[1] == QUOTE || s[1] == BACKSLASH)
  }

  predicate StartsDecimal(s: Utf16) {
    |s| >= 4 && s[0] == BACKSLASH && IsDigitUnit(s[1]) && IsDigitUnit(s[2]) && IsDigitUnit(s[3])
  }

  /** The piece at the start of an unread text, if there is one. */
  function FirstPiece(s: Utf16): (r: Option<Piece>)
    ensures r.Some? ==> GoodPiece(r.value) && |PrintPiece(r.value)| <= |s|
    ensures r.Some? ==> s[..|PrintPiece(r.value)|] == PrintPiece(r.value)
  {
    if s == [] || s[0] == QUOTE then None
    else if s[0] != BACKSLASH then Some(Plain(s[0]))
    else if StartsQuoteEscape(s) then Some(if s[1] == QUOTE then EscapedQuote else EscapedBackslash)
    else if StartsDecimal(s) then Some(Decimal(s[1], s[2], s[3]))
    else None
  }

  /** The inside of a chunk and its closing quote: what it means, and what follows. */
  function ReadBody(s: Utf16): (r: Option<(Utf16, Utf16)>)
    ensures r.Some? ==> |r.value.1| < |s|
    decreases |s|
  {
    if s != [] && s[0] == QUOTE then Some(([], s[1..]))
    else if FirstPiece(s).None? then None
    else
      var p := FirstPiece(s).value;
      var next := ReadBody(s[|PrintPiece(p)|..]);
      if next.None? then None else Some(([PieceMeaning(p)] + next.value.0, next.value.1))
  }

  function SkipBlanks(s: Utf16): (r: Utf16)
    ensures |r| <= |s|
    ensures r != [] ==> !IsBlank(r[0])
  {
    if s != [] && IsBlank(s[0]) then SkipBlanks(s[1..]) else s
  }

  /** The chunks from here on. */
  function ReadChunks(s: Utf16): Option<Utf16>
    decreases |s|
  {
    var t := SkipBlanks(s);
    if t == [] then Some([])
    else if t[0] != QUOTE then None
    else
      var body := ReadBody(t[1..]);
      if body.None? || (body.value.1 != [] && !IsBlank(body.value.1[0])) then None
      else Prepend(body.value.0, ReadChunks(body.value.1))
  }

  function Prepend(s: Utf16, r: Option<Utf16>): Option<Utf16> {
    if r.None? then None else Some(s + r.value)
  }

  function Read(raw: Utf16): Option<Utf16> {
    if SkipBlanks(raw) == [] then None else ReadChunks(raw)
  }

  // ----- Reading undoes printing, and accepts nothing else -----

  lemma FirstOfPrinted(p: Piece, rest: Utf16)
    requires GoodPiece(p)
    ensures FirstPiece(PrintPiece(p) + rest) == Some(p)
    ensures (PrintPiece(p) + rest)[|PrintPiece(p)|..] == rest
  {
  }

  lemma {:induction false} BodyOfPrinted(pieces: seq<Piece>, rest: Utf16)
    requires GoodPieces(pieces)
    ensures ReadBody(PrintPieces(pieces) + [QUOTE] + rest) == Some((PiecesMeaning(pieces), rest))
  {
    var s := PrintPieces(pieces) + [QUOTE] + rest;
    if pieces == [] {
      assert s == [QUOTE] + rest && s[1..] == rest;
    } else {
      var more := PrintPieces(pieces[1..]) + [QUOTE] + rest;
      assert s == PrintPiece(pieces[0]) + more;
      FirstOfPrinted(pieces[0], more);
      BodyOfPrinted(pieces[1..], rest);
    }
  }

  lemma {:induction false} SkipPrinted(blanks: Utf16, rest: Utf16)
    requires Blanks(blanks) && (rest != [] ==> !IsBlank(rest[0]))
    ensures SkipBlanks(blanks + rest) == rest
  {
    if blanks == [] {
      assert blanks + rest == rest;
    } else {
      assert (blanks + rest)[1..] == blanks[1..] + rest;
      SkipPrinted(blanks[1..], rest);
    }
  }

  lemma PrintedStart(r: Record)
    requires GoodRecord(r) && (r.Chunk? ==> r.blanks != [])
    ensures Print(r) == [] || IsBlank(Print(r)[0])
  {
  }

  /** One chunk after its blanks, read. */
  lemma ReadOneChunk(s: Utf16, body: Utf16, text: Utf16, rest: Utf16)
    requires SkipBlanks(s) == [QUOTE] + body && ReadBody(body) == Some((text, rest))
    requires rest == [] || IsBlank(rest[0])
    ensures |rest| < |s| && ReadChunks(s) == Prepend(text, ReadChunks(rest))
  {
    hide ReadBody, SkipBlanks;
    assert ([QUOTE] + body)[1..] == body;
  }

  lemma ReadNothing(s: Utf16)
    requires SkipBlanks(s) == []
    ensures ReadChunks(s) == Some([])
  {
  }

  /** What is not a chunk, cannot be read, or is not followed by a blank, ends the reading. */
  lemma ReadStops(s: Utf16)
    requires SkipBlanks(s) != []
    requires SkipBlanks(s)[0] == QUOTE ==>
               var body := ReadBody(SkipBlanks(s)[1..]);
               body.None? || (body.value.1 != [] && !IsBlank(body.value.1[0]))
    ensures ReadChunks(s).None?
  {
    hide ReadBody, SkipBlanks;
  }

  /** The parts of a text that is read. */
  lemma ReadParts(s: Utf16)
    requires ReadChunks(s).Some?
    ensures SkipBlanks(s) == [] ==> ReadChunks(s).value == []
    ensures SkipBlanks(s) != [] ==>
              && SkipBlanks(s)[0] == QUOTE
              && ReadBody(SkipBlanks(s)[1..]).Some?
              && var body := ReadBody(SkipBlanks(s)[1..]).value;
              && |body.1| < |s| && (body.1 == [] || IsBlank(body.1[0]))
              && ReadChunks(body.1).Some? && ReadChunks(s).value == body.0 + ReadChunks(body.1).value
  {
    hide ReadBody, SkipBlanks;
    if SkipBlanks(s) != [] {
      var body := ReadBody(SkipBlanks(s)[1..]);
      assert body.Some? && ReadChunks(s) == Prepend(body.value.0, ReadChunks(body.value.1));
    }
  }

  lemma {:induction false} ReadPrinted(r: Record)
    requires GoodRecord(r)
    ensures ReadChunks(Print(r)) == Some(Meaning(r))
    ensures SkipBlanks(Print(r)) == [] <==> r.End?
  {
    hide ReadBody, SkipBlanks, PrintPieces, Blanks, GoodPieces;
    match r
    case End(blanks) =>
      SkipPrinted(blanks, []);
      assert blanks + [] == blanks;
    case Chunk(blanks, pieces, rest) =>
      var body := PrintPieces(pieces) + [QUOTE] + Print(rest);
      assert Print(r) == blanks + ([QUOTE] + body);
      SkipPrinted(blanks, [QUOTE] + body);
      BodyOfPrinted(pieces, Print(rest));
      PrintedStart(rest);
      ReadOneChunk(Print(r), body, PiecesMeaning(pieces), Print(rest));
      ReadPrinted(rest);
  }

  /** The pieces write a body up to its closing quote, and what they mean. */
  ghost predicate WritesBody(pieces: seq<Piece>, s: Utf16, t: Utf16, rest: Utf16) {
    GoodPieces(pieces) && PiecesMeaning(pieces) == t && s == PrintPieces(pieces) + [QUOTE] + rest
  }

  lemma {:induction false} PiecesOfBody(s: Utf16)
    requires ReadBody(s).Some?
    ensures exists pieces :: WritesBody(pieces, s, ReadBody(s).value.0, ReadBody(s).value.1)
    decreases |s|
  {
    var (t, rest) := ReadBody(s).value;
    if s[0] == QUOTE {
      Uncons(s);
      AppendNothing([QUOTE]);
      assert WritesBody([], s, t, rest);
    } else {
      var p := FirstPiece(s).value;
      var n := |PrintPiece(p)|;
      PiecesOfBody(s[n..]);
      var more :| WritesBody(more, s[n..], ReadBody(s[n..]).value.0, rest);
      Rest(p, more);
      Cut(s, n);
      Extend(s[..n], PrintPieces(more), [QUOTE], rest);
      assert WritesBody([p] + more, s, t, rest);
    }
  }

  lemma {:induction false} BlanksOf(s: Utf16) returns (blanks: Utf16)
    ensures Blanks(blanks) && s == blanks + SkipBlanks(s)
    ensures s != [] && IsBlank(s[0]) ==> blanks != []
  {
    if s != [] && IsBlank(s[0]) {
      var more := BlanksOf(s[1..]);
      blanks := [s[0]] + more;
      Uncons(s);
      Rest(s[0], more);
      Associate([s[0]], more, SkipBlanks(s));
    } else {
      blanks := [];
      AppendNothing(s);
    }
  }

  /** The record writes s and means t; its blanks start with those of s. */
  ghost predicate WritesRecord(r: Record, s: Utf16, t: Utf16) {
    && GoodRecord(r) && Print(r) == s && Meaning(r) == t && (r.End? <==> SkipBlanks(s) == [])
    && (s != [] && IsBlank(s[0]) ==> r.blanks != [])
  }

  lemma {:induction false} RecordOf(s: Utf16)
    requires ReadChunks(s).Some?
    ensures exists r :: WritesRecord(r, s, ReadChunks(s).value)
    decreases |s|
  {
    hide ReadBody, SkipBlanks, PrintPieces, Blanks, GoodPieces, ReadChunks;
    ReadParts(s);
    var blanks := BlanksOf(s);
    var t := SkipBlanks(s);
    if t == [] {
      assert s == blanks;
      assert WritesRecord(End(blanks), s, ReadChunks(s).value);
    } else {
      var rest := ReadBody(t[1..]).value.1;
      PiecesOfBody(t[1..]);
      var pieces :| WritesBody(pieces, t[1..], ReadBody(t[1..]).value.0, rest);
      RecordOf(rest);
      var more :| WritesRecord(more, rest, ReadChunks(rest).value);
      Uncons(t);
      Regroup(blanks, [QUOTE], PrintPieces(pieces), [QUOTE], rest);
      assert WritesRecord(Chunk(blanks, pieces, more), s, ReadChunks(s).value);
    }
  }

  /** A text is read as t exactly when it writes a record of at least one chunk that means t. */
  lemma ReadIff(raw: Utf16, t: Utf16)
    ensures Read(raw) == Some(t) <==>
              exists r: Record :: r.Chunk? && GoodRecord(r) && Print(r) == raw && Meaning(r) == t
  {
    if Read(raw) == Some(t) {
      RecordOf(raw);
      var r :| WritesRecord(r, raw, t);
      assert r.Chunk? && GoodRecord(r) && Print(r) == raw && Meaning(r) == t;
    }
    forall r: Record | r.Chunk? && GoodRecord(r) && Print(r) == raw && Meaning(r) == t
      ensures Read(raw) == Some(t)
    {
      ReadPrinted(r);
    }
  }

  // ----- The cursor -----

  /** raw[cursor], which is undefined past the end. */
  function At(raw: Utf16, cursor: nat): Option<Unit> {
    if cursor < |raw| then Some(raw[cursor]) else None
  }

  lemma PrependPrepend(s: Utf16, t: Utf16, r: Option<Utf16>)
    ensures Prepend(s, Prepend(t, r)) == Prepend(s + t, r)
  {
    if r.Some? {
      Associate(s, t, r.value);
    }
  }

  lemma PrependNothing(r: Option<Utf16>)
    ensures Prepend([], r) == r
  {
    if r.Some? {
      AppendNothing(r.value);
    }
  }

  lemma EmptyFirst(r: Option<(Utf16, Utf16)>)
    ensures r.Some? ==> r.value == ([] + r.value.0, r.value.1)
  {
    if r.Some? {
      AppendNothing(r.value.0);
    }
  }

  /** Reading a piece and then the rest of the chunk. */
  lemma ReadOnePiece(s: Utf16, p: Piece, before: Utf16, rest: Utf16)
    requires FirstPiece(s) == Some(p) && s[|PrintPiece(p)|..] == rest
    ensures ReadBody(s).None? <==> ReadBody(rest).None?
    ensures ReadBody(s).Some? ==>
              && ReadBody(s).value.1 == ReadBody(rest).value.1
              && before + ReadBody(s).value.0 == before + [PieceMeaning(p)] + ReadBody(rest).value.0
  {
    if ReadBody(rest).Some? {
      Associate(before, [PieceMeaning(p)], ReadBody(rest).value.0);
    }
  }

  /** The piece that starts with a backslash, if it is one. */
  lemma FirstEscape(s: Utf16)
    requires s != [] && s[0] == BACKSLASH
    ensures StartsQuoteEscape(s) ==> FirstPiece(s) == Some(if s[1] == QUOTE then EscapedQuote else EscapedBackslash)
    ensures !StartsQuoteEscape(s) && StartsDecimal(s) ==> FirstPiece(s) == Some(Decimal(s[1], s[2], s[3]))
    ensures !StartsQuoteEscape(s) && !StartsDecimal(s) ==> FirstPiece(s) == None && ReadBody(s) == None
  {
  }

  lemma FirstPlain(s: Utf16)
    requires s != [] && s[0] != QUOTE && s[0] != BACKSLASH
    ensures FirstPiece(s) == Some(Plain(s[0]))
  {
  }

  /** The end of a chunk: its closing quote, or the end of the text. */
  lemma ReadQuote(s: Utf16)
    requires s != [] ==> s[0] == QUOTE
    ensures ReadBody(s) == if s == [] then None else Some(([], s[1..]))
  {
  }

  /** The character loop of one chunk, from after its opening quote to after its closing one. */
  method ReadChunk(raw: Utf16, start: nat) returns (ok: bool, text: Utf16, cursor: nat)
    requires start <= |raw|
    ensures ok <==> ReadBody(raw[start..]).Some?
    ensures ok ==> start < cursor <= |raw| && ReadBody(raw[start..]).value == (text, raw[cursor..])
  {
    hide ReadBody, FirstPiece;
    cursor, text := start, [];
    EmptyFirst(ReadBody(raw[start..]));
    while cursor < |raw| && raw[cursor] != QUOTE
      invariant start <= cursor <= |raw|
      invariant ReadBody(raw[start..]).None? <==> ReadBody(raw[cursor..]).None?
      invariant ReadBody(raw[cursor..]).Some? ==>
                  ReadBody(raw[start..]).value ==
                    (text + ReadBody(raw[cursor..]).value.0, ReadBody(raw[cursor..]).value.1)
      decreases |raw| - cursor
    {
      ghost var s, piece := raw[cursor..], Plain(raw[cursor]);
      var character := raw[cursor];
      cursor := cursor + 1;
      if character == BACKSLASH {
        FirstEscape(s);
        var escaped := At(raw, cursor);
        cursor := cursor + 1;
        if escaped == Some(QUOTE) || escaped == Some(BACKSLASH) {
          character := escaped.value;
          piece := if character == QUOTE then EscapedQuote else EscapedBackslash;
        } else if escaped.Some? && IsDigitUnit(escaped.value)
                  && cursor + 2 <= |raw| && IsDigitUnit(raw[cursor]) && IsDigitUnit(raw[cursor + 1]) {
          character := 100 * (escaped.value - 0x30) + 10 * (raw[cursor] - 0x30) + (raw[cursor + 1] - 0x30);
          piece := Decimal(s[1], s[2], s[3]);
          cursor := cursor + 2;
        } else {
          return false, [], cursor;
        }
      } else {
        FirstPlain(s);
      }
      ReadOnePiece(s, piece, text, raw[cursor..]);
      text := text + [character];
    }
    ok := At(raw, cursor) == Some(QUOTE);
    cursor := cursor + 1;
    if ok {
      DropOne(raw, cursor - 1);
      ReadQuote(raw[cursor - 1..]);
      AppendNothing(text);
    } else {
      ReadQuote(raw[cursor - 1..]);
    }
  }

  /** The blanks before a chunk, or at the end. */
  method PassBlanks(raw: Utf16, start: nat) returns (cursor: nat)
    requires start <= |raw|
    ensures start <= cursor <= |raw| && SkipBlanks(raw[start..]) == raw[cursor..]
  {
    cursor := start;
    while cursor < |raw| && IsBlank(raw[cursor])
      invariant start <= cursor <= |raw| && SkipBlanks(raw[start..]) == SkipBlanks(raw[cursor..])
      decreases |raw| - cursor
    {
      DropOne(raw, cursor);
      cursor := cursor + 1;
    }
  }

  /** The parser. The cursor strictly advances, and what it has passed is never read again. */
  method ReadTxtChunks(raw: Utf16) returns (r: Option<Utf16>)
    ensures r == Read(raw)
  {
    hide ReadBody, ReadChunks, SkipBlanks;
    var cursor: nat, result: Utf16, chunks := 0, [], 0;
    assert raw[0..] == raw;
    PrependNothing(ReadChunks(raw));
    while cursor < |raw|
      invariant cursor <= |raw|
      invariant ReadChunks(raw) == Prepend(result, ReadChunks(raw[cursor..]))
      invariant if chunks == 0 then cursor == 0 else SkipBlanks(raw) != []
      decreases |raw| - cursor
    {
      ghost var s := raw[cursor..];
      cursor := PassBlanks(raw, cursor);
      if cursor == |raw| {
        ReadNothing(s);
        break;
      }
      DropOne(raw, cursor);
      if raw[cursor] != QUOTE {
        ReadStops(s);
        return None;
      }
      var ok, text, next := ReadChunk(raw, cursor + 1);
      if !ok {
        ReadStops(s);
        return None;
      }
      if next < |raw| && !IsBlank(raw[next]) {
        DropOne(raw, next);
        ReadStops(s);
        return None;
      }
      Uncons(SkipBlanks(s));
      ReadOneChunk(s, SkipBlanks(s)[1..], text, raw[next..]);
      PrependPrepend(result, text, ReadChunks(raw[next..]));
      result := result + text;
      cursor, chunks := next, chunks + 1;
    }
    ReadNothing([]);
    AppendNothing(result);
    return if chunks > 0 then Some(result) else None;
  }
}
