/** Canonical EncStrings and the wrapper fingerprint text of src/domain/account-credentials.ts. */
module EncString {
  import opened Base64
  import opened Options
  import opened Text

  /** An encrypted value: its type (0 to 7) and its decoded parts. */
  datatype EncString = EncString(encryptionType: string, parts: seq<seq<Byte>>)

  function PartCount(encryptionType: string): Option<nat> {
    if encryptionType in {"3", "4", "7"} then Some(1)
    else if encryptionType in {"0", "5", "6"} then Some(2)
    else if encryptionType in {"1", "2"} then Some(3)
    else None
  }

  /** All parts decoded, or None if one of them cannot be. */
  function DecodeAll(encoded: seq<string>): (r: Option<seq<seq<Byte>>>)
    ensures r.Some? <==> forall i :: 0 <= i < |encoded| ==> Accepted(encoded[i])
    ensures r.Some? ==> |r.value| == |encoded|
    ensures r.Some? ==> forall i :: 0 <= i < |encoded| ==> Some(r.value[i]) == Decoded(encoded[i])
  {
    var parts := seq(|encoded|, i requires 0 <= i < |encoded| => Decoded(encoded[i]));
    assert forall i :: 0 <= i < |encoded| ==> parts[i] == Decoded(encoded[i]);
    All(parts)
  }

  function WithType(encryptionType: string, encoded: seq<string>): Option<EncString> {
    if PartCount(encryptionType) != Some(|encoded|) || DecodeAll(encoded).None? then None
    else Some(EncString(encryptionType, DecodeAll(encoded).value))
  }

  /** What a wrapper text denotes, if it is an EncString at all. */
  function Parse(value: string): Option<EncString> {
    var separator := IndexOf(value, '.');
    if separator == -1 then
      var encoded := Split(value, '|');
      if |encoded| == 2 then WithType("0", encoded)
      else if |encoded| == 3 then WithType("1", encoded)
      else None
    else if separator == 0 || IndexOf(value[separator + 1..], '.') != -1 then None
    else WithType(value[..separator], Split(value[separator + 1..], '|'))
  }

  /** The "length:hex" fields of the parts, flattened. */
  function Fields(parts: seq<seq<Byte>>): (fields: seq<string>)
    ensures |fields| == 2 * |parts|
  {
    if parts == [] then []
    else [Decimal(|parts[0]|), BytesToHex(parts[0])] + Fields(parts[1..])
  }

  function Canonical(e: EncString): string {
    Join([e.encryptionType] + PartTexts(e.parts), ':')
  }

  function PartTexts(parts: seq<seq<Byte>>): seq<string> {
    if parts == [] then []
    else [Decimal(|parts[0]|) + [':'] + BytesToHex(parts[0])] + PartTexts(parts[1..])
  }

  function CanonicalizeEncString(value: string): Option<string> {
    match Parse(value)
    case None => None
    case Some(e) => Some(Canonical(e))
  }

  function FingerprintInput(value: string): string {
    match CanonicalizeEncString(value)
    case None => "opaque-v1:" + value
    case Some(canonical) => "enc-string-v1:" + canonical
  }

  lemma {:induction false} JoinFlat(head: string, parts: seq<seq<Byte>>)
    ensures Join([head] + PartTexts(parts), ':') == Join([head] + Fields(parts), ':')
    decreases parts
  {
    var texts, fields := PartTexts(parts), Fields(parts);
    if parts == [] {
    } else {
      var len, hex := Decimal(|parts[0]|), BytesToHex(parts[0]);
      var moreTexts, moreFields := PartTexts(parts[1..]), Fields(parts[1..]);
      JoinFlat(hex, parts[1..]);
      assert ([head] + texts)[1..] == [len + [':'] + hex] + moreTexts;
      assert ([head] + fields)[1..] == [len] + ([hex] + moreFields);
      assert ([len] + ([hex] + moreFields))[1..] == [hex] + moreFields;
      JoinHead(len + [':'], hex, moreTexts);
    }
  }

  lemma JoinHead(prefix: string, head: string, rest: seq<string>)
    ensures Join([prefix + head] + rest, ':') == prefix + Join([head] + rest, ':')
  {
    assert ([prefix + head] + rest)[1..] == rest == ([head] + rest)[1..];
    if rest != [] {
      assert prefix + head + [':'] + Join(rest, ':') == prefix + (head + [':'] + Join(rest, ':'));
    }
  }

  lemma {:induction false} FieldsAt(parts: seq<seq<Byte>>, i: nat)
    requires i < |parts|
    ensures Fields(parts)[2 * i] == Decimal(|parts[i]|) && Fields(parts)[2 * i + 1] == BytesToHex(parts[i])
  {
    if i > 0 {
      FieldsAt(parts[1..], i - 1);
    }
  }

  /** The canonical text: the type, then each part's length and bytes in hexadecimal, between colons. */
  lemma CanonicalIs(e: EncString)
    ensures exists fields ::
              && |fields| == 1 + 2 * |e.parts| && Canonical(e) == Join(fields, ':') && fields[0] == e.encryptionType
              && forall i :: 0 <= i < |e.parts| ==>
                   fields[2 * i + 1] == Decimal(|e.parts[i]|) && fields[2 * i + 2] == BytesToHex(e.parts[i])
  {
    hide Join, Decimal, BytesToHex, Fields, PartTexts;
    JoinFlat(e.encryptionType, e.parts);
    var fields := [e.encryptionType] + Fields(e.parts);
    forall i | 0 <= i < |e.parts|
      ensures fields[2 * i + 1] == Decimal(|e.parts[i]|) && fields[2 * i + 2] == BytesToHex(e.parts[i])
    {
      FieldsAt(e.parts, i);
    }
  }

  lemma {:induction false} FieldsInjective(xs: seq<seq<Byte>>, ys: seq<seq<Byte>>)
    requires Fields(xs) == Fields(ys)
    ensures xs == ys
  {
    assert |xs| == |ys|;
    if xs == [] {
    } else {
      assert Fields(xs)[1] == BytesToHex(xs[0]) && Fields(ys)[1] == BytesToHex(ys[0]);
      HexInjective(xs[0], ys[0]);
      assert Fields(xs)[2..] == Fields(xs[1..]) && Fields(ys)[2..] == Fields(ys[1..]);
      FieldsInjective(xs[1..], ys[1..]);
      assert xs == [xs[0]] + xs[1..] && ys == [ys[0]] + ys[1..];
    }
  }

  lemma {:induction false} FieldsColonFree(parts: seq<seq<Byte>>)
    ensures Free(Fields(parts), ':')
  {
    if parts == [] {
    } else {
      FieldsColonFree(parts[1..]);
    }
  }

  /** Two EncStrings print alike only if they are the same. */
  lemma CanonicalInjective(x: EncString, y: EncString)
    requires ':' !in x.encryptionType && ':' !in y.encryptionType
    requires Canonical(x) == Canonical(y)
    ensures x == y
  {
    JoinFlat(x.encryptionType, x.parts);
    JoinFlat(y.encryptionType, y.parts);
    FieldsColonFree(x.parts);
    FieldsColonFree(y.parts);
    var xs, ys := [x.encryptionType] + Fields(x.parts), [y.encryptionType] + Fields(y.parts);
    JoinInjective(xs, ys, ':');
    assert xs[0] == ys[0] && xs[1..] == Fields(x.parts) && ys[1..] == Fields(y.parts);
    FieldsInjective(x.parts, y.parts);
  }

  lemma PartCountShape(encryptionType: string)
    requires PartCount(encryptionType).Some?
    ensures encryptionType != "" && '.' !in encryptionType && ':' !in encryptionType
    ensures PartCount(encryptionType).value >= 1
  {
  }

  lemma TypedShape(encryptionType: string, encoded: seq<string>)
    ensures WithType(encryptionType, encoded).Some? ==>
              var e := WithType(encryptionType, encoded).value;
              ':' !in e.encryptionType && PartCount(e.encryptionType) == Some(|e.parts|)
  {
    hide PartCount;
    if WithType(encryptionType, encoded).Some? {
      PartCountShape(encryptionType);
    }
  }

  lemma ParseType(value: string)
    ensures Parse(value).Some? ==>
              var e := Parse(value).value;
              ':' !in e.encryptionType && PartCount(e.encryptionType) == Some(|e.parts|)
  {
    hide IndexOf, Split, WithType, PartCount;
    var separator := IndexOf(value, '.');
    if separator == -1 {
      TypedShape("0", Split(value, '|'));
      TypedShape("1", Split(value, '|'));
    } else {
      TypedShape(value[..separator], Split(value[separator + 1..], '|'));
    }
  }

  /**
    The fingerprint input is a complete invariant: two wrappers share it exactly when they are the
    same text, or both are EncStrings of the same type with the same decoded parts.
  */
  lemma FingerprintIff(a: string, b: string)
    ensures FingerprintInput(a) == FingerprintInput(b)
       <==> (a == b || (Parse(a).Some? && Parse(a) == Parse(b)))
  {
    var f, g := FingerprintInput(a), FingerprintInput(b);
    ParseType(a);
    ParseType(b);
    if f == g {
      assert Parse(a).Some? ==> f[0] == 'e';
      assert Parse(a).None? ==> f[0] == 'o';
      assert Parse(b).Some? ==> g[0] == 'e';
      assert Parse(b).None? ==> g[0] == 'o';
      if Parse(a).None? {
        assert a == f[10..] && b == g[10..];
      } else {
        assert Canonical(Parse(a).value) == f[14..] && Canonical(Parse(b).value) == g[14..];
        CanonicalInjective(Parse(a).value, Parse(b).value);
      }
    }
  }

  /** The untyped two- and three-part forms mean types 0 and 1. */
  lemma UntypedForms(value: string)
    requires '.' !in value
    ensures |Split(value, '|')| == 2 ==> Parse(value) == Parse("0." + value)
    ensures |Split(value, '|')| == 3 ==> Parse(value) == Parse("1." + value)
    ensures |Split(value, '|')| != 2 && |Split(value, '|')| != 3 ==> Parse(value).None?
  {
    hide WithType, Split, IndexOf, PartCount, DecodeAll, Join;
    assert "0." == "0" + "." && "1." == "1" + ".";
    TypedForm("0", value);
    TypedForm("1", value);
  }

  /** A typed form with one dot is read as its type and its parts. */
  lemma TypedForm(encryptionType: string, body: string)
    requires encryptionType != "" && '.' !in encryptionType && '.' !in body
    ensures Parse(encryptionType + "." + body) == WithType(encryptionType, Split(body, '|'))
  {
    var value := encryptionType + "." + body;
    var i := IndexOf(value, '.');
    assert value[|encryptionType|] == '.';
    assert value == value[..i] + "." + value[i + 1..];
    HeadCut(value[..i], value[i + 1..], encryptionType, body, '.');
  }

  /** Same type, and every part spelled in some way that gives the same bytes. */
  ghost predicate SameWrapper(s: seq<string>, t: seq<string>) {
    && |s| == |t|
    && forall i :: 0 <= i < |s| ==>
         Accepted(s[i]) && Accepted(t[i])
         && SameUsedBits(Sextets(StripPadding(s[i])), Sextets(StripPadding(t[i])))
  }

  /**
    Spelled out on the texts: typed wrappers that parse share a fingerprint exactly when the type is
    the same and the parts differ at most in padding and in the unused low bits of a last character.
  */
  lemma TypedFingerprintIff(type0: string, s: seq<string>, type1: string, t: seq<string>)
    requires PartCount(type0) == Some(|s|) && PartCount(type1) == Some(|t|)
    requires Free(s, '|') && Free(t, '|') && Free(s, '.') && Free(t, '.')
    requires DecodeAll(s).Some? && DecodeAll(t).Some?
    ensures FingerprintInput(type0 + "." + Join(s, '|')) == FingerprintInput(type1 + "." + Join(t, '|'))
       <==> (type0 == type1 && SameWrapper(s, t))
  {
    PartCountShape(type0);
    PartCountShape(type1);
    hide PartCount, DecodeAll, SameWrapper, IndexOf;
    var a, b := type0 + "." + Join(s, '|'), type1 + "." + Join(t, '|');
    JoinFree(s, '|', '.');
    JoinFree(t, '|', '.');
    TypedForm(type0, Join(s, '|'));
    TypedForm(type1, Join(t, '|'));
    SplitJoin(s, '|');
    SplitJoin(t, '|');
    FingerprintIff(a, b);
    SameDecodedParts(s, t);
    assert Parse(a) == Some(EncString(type0, DecodeAll(s).value));
    assert Parse(b) == Some(EncString(type1, DecodeAll(t).value));
  }

  lemma SameDecodedParts(s: seq<string>, t: seq<string>)
    requires DecodeAll(s).Some? && DecodeAll(t).Some?
    ensures DecodeAll(s) == DecodeAll(t) <==> SameWrapper(s, t)
  {
    var d, e := DecodeAll(s).value, DecodeAll(t).value;
    forall i | 0 <= i < |s| && i < |t|
      ensures d[i] == e[i] <==> SameUsedBits(Sextets(StripPadding(s[i])), Sextets(StripPadding(t[i])))
    {
      DecodeEqualIff(Sextets(StripPadding(s[i])), Sextets(StripPadding(t[i])));
    }
    hide SameUsedBits, Sextets, BytesOf;
    if SameWrapper(s, t) {
      assert d == e;
    }
  }

  lemma {:induction false} JoinFree(parts: seq<string>, c: char, d: char)
    requires c != d && Free(parts, d)
    ensures d !in Join(parts, c)
  {
    if |parts| > 1 {
      JoinFree(parts[1..], c, d);
    }
  }

  // ----- Which texts are wrappers -----

  predicate TypeFor(encryptionType: string, count: nat) {
    |encryptionType| == 1 &&
    if encryptionType[0] in "347" then count == 1
    else if encryptionType[0] in "056" then count == 2
    else encryptionType[0] in "12" && count == 3
  }

  ghost predicate SpellsParts(encoded: seq<string>, parts: seq<seq<Byte>>) {
    |encoded| == |parts| && forall i :: 0 <= i < |parts| ==> Spells(encoded[i], parts[i])
  }

  /** A text of type and parts, each part spelled in any way; types 0 and 1 may go unnamed. */
  ghost predicate SpellsWrapper(value: string, encryptionType: string, parts: seq<seq<Byte>>) {
    && TypeFor(encryptionType, |parts|)
    && exists encoded :: SpellsParts(encoded, parts) &&
         (value == encryptionType + "." + Join(encoded, '|')
          || ((encryptionType == "0" || encryptionType == "1") && value == Join(encoded, '|')))
  }

  lemma TypeForIs(encryptionType: string, count: nat)
    ensures TypeFor(encryptionType, count) <==> PartCount(encryptionType) == Some(count)
    ensures TypeFor(encryptionType, count) ==> 1 <= count <= 3 && '.' !in encryptionType
    ensures TypeFor("0", count) <==> count == 2
    ensures TypeFor("1", count) <==> count == 3
  {
    if |encryptionType| == 1 {
      assert encryptionType == [encryptionType[0]];
    }
  }

  lemma DecodeAllIff(encoded: seq<string>, parts: seq<seq<Byte>>)
    ensures DecodeAll(encoded) == Some(parts) <==> SpellsParts(encoded, parts)
  {
    hide Spells, Accepted, Decoded;
    forall i | 0 <= i < |encoded| && i < |parts|
      ensures Decoded(encoded[i]) == Some(parts[i]) <==> Spells(encoded[i], parts[i])
    {
      DecodedIff(encoded[i], parts[i]);
    }
    forall i | 0 <= i < |encoded|
      ensures Accepted(encoded[i]) <==> Decoded(encoded[i]).Some?
    {
      AcceptedIs(encoded[i]);
    }
    if SpellsParts(encoded, parts) {
      assert forall i :: 0 <= i < |parts| ==> Spells(encoded[i], parts[i]);
      assert DecodeAll(encoded).Some?;
      assert DecodeAll(encoded).value == parts;
    }
  }

  lemma AcceptedIs(value: string)
    ensures Accepted(value) <==> Decoded(value).Some?
  {
  }

  lemma PlainParts(encoded: seq<string>, parts: seq<seq<Byte>>)
    requires SpellsParts(encoded, parts)
    ensures Free(encoded, '|') && Free(encoded, '.')
  {
    hide BytesOf;
    forall i | 0 <= i < |encoded|
      ensures '|' !in encoded[i] && '.' !in encoded[i]
    {
      PlainSpelling(encoded[i], parts[i]);
    }
  }

  lemma PlainSpelling(value: string, bytes: seq<Byte>)
    ensures Spells(value, bytes) ==> '|' !in value && '.' !in value
  {
    hide BytesOf;
    if s: seq<Sextet>, n: nat :|
      |s| % 4 != 1 && value == StandardText(s) + Repeat('=', n) && bytes == BytesOf(s) {
      assert forall i :: 0 <= i < |value| ==> IsBase64Char(value[i]) || value[i] == '=';
    }
  }

  /** A text is an EncString of a type and parts exactly when it spells them. */
  lemma WrapperIff(value: string, encryptionType: string, parts: seq<seq<Byte>>)
    ensures Parse(value) == Some(EncString(encryptionType, parts)) <==> SpellsWrapper(value, encryptionType, parts)
  {
    hide Parse, DecodeAll, SpellsParts, PartCount, TypeFor, Split, Join;
    TypeForIs(encryptionType, |parts|);
    if Parse(value) == Some(EncString(encryptionType, parts)) {
      Spelling(value, encryptionType, parts);
    }
    forall encoded | SpellsParts(encoded, parts) && TypeFor(encryptionType, |parts|)
      ensures Parse(encryptionType + "." + Join(encoded, '|')) == Some(EncString(encryptionType, parts))
      ensures encryptionType == "0" || encryptionType == "1" ==>
                Parse(Join(encoded, '|')) == Some(EncString(encryptionType, parts))
    {
      Spelled(encryptionType, parts, encoded);
    }
  }

  lemma Spelled(encryptionType: string, parts: seq<seq<Byte>>, encoded: seq<string>)
    requires SpellsParts(encoded, parts) && TypeFor(encryptionType, |parts|)
    ensures Parse(encryptionType + "." + Join(encoded, '|')) == Some(EncString(encryptionType, parts))
    ensures encryptionType == "0" || encryptionType == "1" ==>
              Parse(Join(encoded, '|')) == Some(EncString(encryptionType, parts))
  {
    hide Parse, DecodeAll, Spells, PartCount, TypeFor, Split, Join;
    TypeForIs(encryptionType, |parts|);
    PartCountShape(encryptionType);
    PlainParts(encoded, parts);
    JoinFree(encoded, '|', '.');
    SplitJoin(encoded, '|');
    TypedForm(encryptionType, Join(encoded, '|'));
    DecodeAllIff(encoded, parts);
    UntypedForms(Join(encoded, '|'));
    assert "0." == "0" + "." && "1." == "1" + ".";
  }

  lemma Spelling(value: string, encryptionType: string, parts: seq<seq<Byte>>)
    requires Parse(value) == Some(EncString(encryptionType, parts))
    ensures SpellsWrapper(value, encryptionType, parts)
  {
    hide Parse, WithType, SpellsWrapper, Split, Join, IndexOf;
    if IndexOf(value, '.') == -1 {
      var encoded := Split(value, '|');
      ParseUntyped(value);
      UntypedSpells(if |encoded| == 2 then "0" else "1", encoded, encryptionType, parts);
    } else {
      var i := IndexOf(value, '.');
      ParseTyped(value);
      TypedSpells(value[..i], Split(value[i + 1..], '|'), encryptionType, parts);
    }
  }

  lemma ParseUntyped(value: string)
    requires Parse(value).Some? && IndexOf(value, '.') == -1
    ensures var encoded := Split(value, '|');
            Parse(value) == WithType(if |encoded| == 2 then "0" else "1", encoded)
  {
    hide WithType, Split, IndexOf;
  }

  lemma ParseTyped(value: string)
    requires Parse(value).Some? && IndexOf(value, '.') != -1
    ensures var i := IndexOf(value, '.');
            && Parse(value) == WithType(value[..i], Split(value[i + 1..], '|'))
            && value == value[..i] + "." + value[i + 1..]
  {
    hide WithType, Split, IndexOf;
    Separated(value, IndexOf(value, '.'), '.');
  }

  lemma UntypedSpells(named: string, encoded: seq<string>, encryptionType: string, parts: seq<seq<Byte>>)
    requires WithType(named, encoded) == Some(EncString(encryptionType, parts)) && (named == "0" || named == "1")
    ensures SpellsWrapper(Join(encoded, '|'), encryptionType, parts)
  {
    hide WithType, SpellsParts, TypeFor, Join;
    WithTypeSpells(named, encoded, encryptionType, parts);
  }

  lemma TypedSpells(named: string, encoded: seq<string>, encryptionType: string, parts: seq<seq<Byte>>)
    requires WithType(named, encoded) == Some(EncString(encryptionType, parts))
    ensures SpellsWrapper(named + "." + Join(encoded, '|'), encryptionType, parts)
  {
    hide WithType, SpellsParts, TypeFor, Join;
    WithTypeSpells(named, encoded, encryptionType, parts);
  }

  lemma Separated(value: string, i: nat, c: char)
    requires i < |value| && value[i] == c
    ensures value == value[..i] + [c] + value[i + 1..]
  {
  }

  lemma WithTypeSpells(named: string, encoded: seq<string>, encryptionType: string, parts: seq<seq<Byte>>)
    requires WithType(named, encoded) == Some(EncString(encryptionType, parts))
    ensures named == encryptionType && TypeFor(named, |parts|) && SpellsParts(encoded, parts)
  {
    hide DecodeAll, PartCount, TypeFor;
    TypeForIs(named, |parts|);
    DecodeAllIff(encoded, parts);
  }

  /** However its parts are spelled, a wrapper has the fingerprint of its type and bytes. */
  lemma FingerprintOf(value: string, encryptionType: string, parts: seq<seq<Byte>>)
    ensures SpellsWrapper(value, encryptionType, parts) ==>
              FingerprintInput(value) == "enc-string-v1:" + Canonical(EncString(encryptionType, parts))
  {
    hide Parse, Canonical, SpellsWrapper;
    WrapperIff(value, encryptionType, parts);
  }

  /** Fingerprints agree exactly on equal texts and on spellings of one wrapper. */
  lemma FingerprintsAgreeIff(a: string, b: string)
    ensures FingerprintInput(a) == FingerprintInput(b) <==>
              || a == b
              || exists encryptionType, parts ::
                   SpellsWrapper(a, encryptionType, parts) && SpellsWrapper(b, encryptionType, parts)
  {
    hide Parse, FingerprintInput, SpellsWrapper;
    FingerprintIff(a, b);
    if Parse(a).Some? && Parse(a) == Parse(b) {
      var e := Parse(a).value;
      WrapperIff(a, e.encryptionType, e.parts);
      WrapperIff(b, e.encryptionType, e.parts);
    }
    forall encryptionType, parts
      | SpellsWrapper(a, encryptionType, parts) && SpellsWrapper(b, encryptionType, parts)
      ensures Parse(a).Some? && Parse(a) == Parse(b)
    {
      WrapperIff(a, encryptionType, parts);
      WrapperIff(b, encryptionType, parts);
    }
  }
}
