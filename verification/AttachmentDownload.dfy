/**
  Download tickets (src/domain/attachment-download.ts): a JSON payload and its MAC in canonical
  base64url, checked against a rotating key ring and a lifetime of two minutes.
*/
module AttachmentDownload {
  import opened Base64
  import opened Base64Url
  import opened Json
  import opened JsonNames
  import JsonSpelling
  import opened JsonText
  import opened Options
  import opened Sequences
  import opened Text
  import Utf8

  const TTL_SECONDS := 120
  const MAX_TOKEN := 8192
  const MAX_FIELD := 512
  const DOMAIN := "honowarden:attachment-download:v1\0"

  // ----- What the platform provides -----

  /**
    HMAC under a secret the platform accepts, a lenient UTF-8 decoder, and the safe integer that a
    number of a JSON text denotes, if it denotes one.
  */
  datatype Platform = Platform(
    usable: Utf16 -> bool,
    hmac: (Utf16, seq<Byte>) -> seq<Byte>,
    decodeText: seq<Byte> -> string,
    number: string -> Option<int>)
  {
    ghost predicate Lawful() {
      && (forall secret, message {:trigger hmac(secret, message)} :: hmac(secret, message) != [])
      && (forall s {:trigger Utf8.Encode(s)} :: s != [] && s[0] as int < 0x80 ==> decodeText(Utf8.Encode(s)) == s)
      && (forall n {:trigger IntegerText(n)} :: number(IntegerText(n)) == if Safe(n) then Some(n) else None)
    }
  }

  predicate Safe(n: int) {
    -9007199254740991 <= n <= 9007199254740991
  }

  function IntegerText(n: int): (s: string) {
    if n < 0 then "-" + Decimal(-n) else Decimal(n)
  }

  // ----- Tickets -----

  datatype Scope = Scope(
    userId: Utf16, deviceIdentifier: Utf16, sessionId: Utf16, securityStamp: Utf16,
    cipherId: Utf16, attachmentId: Utf16, revisionDate: Utf16, origin: Utf16)

  datatype Ticket = Ticket(scope: Scope, kid: Option<Utf16>, iat: int, exp: int)

  const SCOPE_NAMES := [
    "userId", "deviceIdentifier", "sessionId", "securityStamp", "cipherId", "attachmentId", "revisionDate", "origin"]

  function ScopeValues(s: Scope): (values: seq<Utf16>)
    ensures |values| == |SCOPE_NAMES|
  {
    [s.userId, s.deviceIdentifier, s.sessionId, s.securityStamp, s.cipherId, s.attachmentId, s.revisionDate, s.origin]
  }

  function ScopeOf(values: seq<Utf16>): (s: Scope)
    requires |values| == |SCOPE_NAMES|
    ensures ScopeValues(s) == values
  {
    Scope(values[0], values[1], values[2], values[3], values[4], values[5], values[6], values[7])
  }

  /** A signing key, or the bare secret that was used before keys had identifiers. */
  datatype Signer = Bare(secret: Utf16) | Keyed(id: Utf16, secret: Utf16) {
    function Kid(): Option<Utf16> {
      if Bare? then None else Some(id)
    }
  }

  datatype Key = Key(id: Utf16, secret: Utf16)

  datatype Verifier = Single(secret: Utf16) | Ring(active: Key, previous: seq<Key>, legacySecrets: seq<Utf16>)

  // ----- Signing -----

  function KidTree(kid: Option<Utf16>): Tree {
    if kid.None? then Atom("null") else Str(Escape(kid.value))
  }

  /** The members of a ticket, in the order in which they are written. */
  function TicketFields(t: Ticket): seq<(string, Tree)> {
    seq(|SCOPE_NAMES|, i requires 0 <= i < |SCOPE_NAMES| => (SCOPE_NAMES[i], Str(Escape(ScopeValues(t.scope)[i]))))
    + [("kid", KidTree(t.kid)), ("iat", Atom(IntegerText(t.iat))), ("exp", Atom(IntegerText(t.exp)))]
  }

  function MembersOf(fields: seq<(string, Tree)>): Members {
    if fields == [] then NoMembers else Member(fields[0].0, fields[0].1, MembersOf(fields[1..]))
  }

  function TicketText(t: Ticket): string {
    Stringify(Obj(MembersOf(TicketFields(t))))
  }

  function Message(payload: string): seq<Byte> {
    Utf8.Encode(DOMAIN + payload)
  }

  function TicketFor(signer: Signer, scope: Scope, now: int): Ticket {
    Ticket(scope, signer.Kid(), now, now + TTL_SECONDS)
  }

  function Payload(t: Ticket): string {
    Encode(Utf8.Encode(TicketText(t)))
  }

  function Sign(p: Platform, signer: Signer, scope: Scope, now: int): string
    requires p.usable(signer.secret)
  {
    var payload := Payload(TicketFor(signer, scope, now));
    payload + "." + Encode(p.hmac(signer.secret, Message(payload)))
  }

  // ----- Verifying -----

  /** A property of a parsed value; None where JavaScript has undefined. */
  function FieldOf(v: Value, name: string): Option<Value> {
    if v.Object? && ToUtf16(name) in v.fields then Some(v.fields[ToUtf16(name)]) else None
  }

  predicate TextField(v: Value, name: string) {
    var f := FieldOf(v, name);
    f.Some? && f.value.String? && 0 < |f.value.units| <= MAX_FIELD
  }

  function IntegerField(p: Platform, v: Value, name: string): Option<int> {
    match FieldOf(v, name)
    case Some(Num(text)) => p.number(text)
    case _ => None
  }

  predicate IsTicket(p: Platform, v: Value) {
    && v.Object?
    && (forall i :: 0 <= i < |SCOPE_NAMES| ==> TextField(v, SCOPE_NAMES[i]))
    && FieldOf(v, "kid").Some? && (FieldOf(v, "kid").value.Null? || FieldOf(v, "kid").value.String?)
    && IntegerField(p, v, "iat").Some? && IntegerField(p, v, "exp").Some?
  }

  function TextsUnder(v: Value, names: seq<string>): (texts: seq<Utf16>)
    requires forall i :: 0 <= i < |names| ==> TextField(v, names[i])
    ensures |texts| == |names|
  {
    if names == [] then []
    else
      assert TextField(v, names[0]);
      [FieldOf(v, names[0]).value.units] + TextsUnder(v, names[1..])
  }

  function ReadTicket(p: Platform, v: Value): Ticket
    requires IsTicket(p, v)
  {
    var kid := FieldOf(v, "kid").value;
    Ticket(ScopeOf(TextsUnder(v, SCOPE_NAMES)),
           if kid.Null? then None else Some(kid.units),
           IntegerField(p, v, "iat").value, IntegerField(p, v, "exp").value)
  }

  /** The ticket a payload carries, before its time and its MAC are looked at. */
  function ParsePayload(p: Platform, payload: string): Option<Ticket> {
    match DecodeStrict(payload)
    case None => None
    case Some(bytes) =>
      match Parse(p.decodeText(bytes))
      case None => None
      case Some(tree) => if IsTicket(p, ToValue(tree)) then Some(ReadTicket(p, ToValue(tree))) else None
  }

  predicate Timely(t: Ticket, now: int) {
    t.iat <= now < t.exp && t.exp - t.iat == TTL_SECONDS
  }

  function SecretsOf(keys: seq<Key>, id: Utf16): seq<Utf16> {
    if keys == [] then []
    else (if keys[0].id == id then [keys[0].secret] else []) + SecretsOf(keys[1..], id)
  }

  function Candidates(verifier: Verifier, kid: Option<Utf16>): seq<Utf16> {
    match verifier
    case Single(secret) => if kid.None? then [secret] else []
    case Ring(active, previous, legacySecrets) =>
      if kid.None? then legacySecrets else SecretsOf([active] + previous, kid.value)
  }

  /** The candidates are tried in turn; a secret or a signature that cannot be used ends the search. */
  predicate SomeVerifies(p: Platform, candidates: seq<Utf16>, signature: string, message: seq<Byte>) {
    && candidates != []
    && p.usable(candidates[0])
    && DecodeStrict(signature).Some?
    && (DecodeStrict(signature).value == p.hmac(candidates[0], message)
        || SomeVerifies(p, candidates[1..], signature, message))
  }

  function Verify(p: Platform, verifier: Verifier, token: string, now: int): Option<Ticket> {
    if |ToUtf16(token)| > MAX_TOKEN then None
    else
      var parts := Split(token, '.');
      if |parts| != 2 || parts[0] == "" || parts[1] == "" then None
      else
        match ParsePayload(p, parts[0])
        case None => None
        case Some(t) =>
          if Timely(t, now) && SomeVerifies(p, Candidates(verifier, t.kid), parts[1], Message(parts[0])) then Some(t)
          else None
  }

  // ----- Objects with many distinct fields -----

  ghost predicate DistinctNames(fields: seq<(string, Tree)>) {
    && (forall i :: 0 <= i < |fields| ==> PlainText(fields[i].0))
    && (forall i, j :: 0 <= i < j < |fields| ==> fields[i].0 != fields[j].0)
  }

  lemma NameMeans(name: string)
    requires PlainText(name)
    ensures GoodBody(name) && Unescape(name) == ToUtf16(name) && AsString(ToUtf16(name)) == name
  {
    KeyOfName(name);
    AsciiUnits(name);
  }

  /** Every field of an object with distinct plain names is found under its name. */
  lemma {:induction false} FieldFound(fields: seq<(string, Tree)>, i: nat)
    requires DistinctNames(fields) && i < |fields|
    ensures ToUtf16(fields[i].0) in ToFields(MembersOf(fields))
    ensures ToFields(MembersOf(fields))[ToUtf16(fields[i].0)] == ToValue(fields[i].1)
  {
    hide PlainText, Unescape, ToUtf16, AsString, GoodBody, ToValue;
    NameMeans(fields[0].0);
    if i == 0 {
      NameAbsent(fields[1..], fields[0].0);
    } else {
      FieldFound(fields[1..], i - 1);
      assert fields[1..][i - 1] == fields[i];
    }
  }

  lemma {:induction false} NameAbsent(fields: seq<(string, Tree)>, name: string)
    requires DistinctNames(fields) && PlainText(name)
    requires forall i :: 0 <= i < |fields| ==> fields[i].0 != name
    ensures ToUtf16(name) !in ToFields(MembersOf(fields))
  {
    hide PlainText, Unescape, ToUtf16, AsString, GoodBody, ToValue;
    if fields == [] {
    } else {
      NameMeans(name);
      NameMeans(fields[0].0);
      NameAbsent(fields[1..], name);
    }
  }

  lemma {:induction false} GoodFields(fields: seq<(string, Tree)>)
    requires DistinctNames(fields) && forall i :: 0 <= i < |fields| ==> GoodTree(fields[i].1)
    ensures GoodMembers(MembersOf(fields))
  {
    hide PlainText, Unescape, ToUtf16, AsString, GoodBody;
    if fields == [] {
    } else {
      NameMeans(fields[0].0);
      GoodFields(fields[1..]);
    }
  }

  lemma ScopeNamesPlain()
    ensures forall i :: 0 <= i < |SCOPE_NAMES| ==> PlainText(SCOPE_NAMES[i])
  {
  }

  lemma ScopeNamesDistinct()
    ensures forall i, j :: 0 <= i < j < |SCOPE_NAMES| ==> SCOPE_NAMES[i] != SCOPE_NAMES[j]
    ensures forall i :: 0 <= i < |SCOPE_NAMES| ==> |SCOPE_NAMES[i]| > 3
  {
    assert SCOPE_NAMES[0][0] == 'u' && SCOPE_NAMES[7][0] == 'o';
    assert SCOPE_NAMES[5][0] == 'a' && SCOPE_NAMES[6][0] == 'r';
  }

  lemma TicketNames(t: Ticket)
    ensures DistinctNames(TicketFields(t))
  {
    ScopeNamesPlain();
    LastNamesPlain();
    ScopeNamesDistinct();
    hide PlainText;
    var fields, n := TicketFields(t), |SCOPE_NAMES|;
    assert forall i :: 0 <= i < n ==> fields[i].0 == SCOPE_NAMES[i];
    assert fields[n].0 == "kid" && fields[n + 1].0 == "iat" && fields[n + 2].0 == "exp";
  }

  lemma LastNamesPlain()
    ensures PlainText("kid") && PlainText("iat") && PlainText("exp")
    ensures "kid" != "iat" && "kid" != "exp" && "iat" != "exp"
  {
    assert "kid"[0] == 'k' && "iat"[0] == 'i' && "exp"[0] == 'e';
  }

  // ----- Numbers -----

  lemma {:induction false} DecimalPlain(n: nat)
    ensures PlainInteger(Decimal(n)) && (n > 0 ==> Decimal(n)[0] != '0')
  {
    if n >= 10 {
      DecimalPlain(n / 10);
    }
  }

  lemma IntegerPlain(n: int)
    ensures PlainScalar(IntegerText(n)) && IntegerText(n) !in {"null", "true", "false"}
  {
    DecimalPlain(if n < 0 then -n else n);
    if n < 0 {
      assert IntegerText(n)[1..] == Decimal(-n);
    }
    assert "null"[0] == 'n' && "true"[0] == 't' && "false"[0] == 'f';
  }

  // ----- What was signed is read back -----

  /** The tickets whose fields the verifier accepts. */
  ghost predicate Presentable(t: Ticket) {
    && (forall i :: 0 <= i < |SCOPE_NAMES| ==> 0 < |ScopeValues(t.scope)[i]| <= MAX_FIELD)
    && Safe(t.iat) && Safe(t.exp)
  }

  function TicketValue(t: Ticket): Value {
    ToValue(Obj(MembersOf(TicketFields(t))))
  }

  lemma FieldAt(t: Ticket, i: nat)
    requires i < |TicketFields(t)|
    ensures FieldOf(TicketValue(t), TicketFields(t)[i].0) == Some(ToValue(TicketFields(t)[i].1))
  {
    TicketNames(t);
    hide TicketFields, DistinctNames, ToUtf16, MembersOf;
    FieldFound(TicketFields(t), i);
  }

  lemma ScopeFields(t: Ticket, i: nat)
    requires i < |SCOPE_NAMES|
    ensures FieldOf(TicketValue(t), SCOPE_NAMES[i]) == Some(String(ScopeValues(t.scope)[i]))
  {
    hide FieldOf, TicketValue, Unescape, Escape;
    FieldAt(t, i);
    UnescapeEscape(ScopeValues(t.scope)[i]);
  }

  lemma OtherFields(t: Ticket)
    ensures FieldOf(TicketValue(t), "kid") == Some(if t.kid.None? then Null else String(t.kid.value))
    ensures FieldOf(TicketValue(t), "iat") == Some(Num(IntegerText(t.iat)))
    ensures FieldOf(TicketValue(t), "exp") == Some(Num(IntegerText(t.exp)))
  {
    hide FieldOf, TicketValue, Unescape, Escape, IntegerText, PlainScalar;
    FieldAt(t, 8);
    FieldAt(t, 9);
    FieldAt(t, 10);
    IntegerPlain(t.iat);
    IntegerPlain(t.exp);
    if t.kid.Some? {
      UnescapeEscape(t.kid.value);
    }
  }

  lemma IntegersRead(p: Platform, t: Ticket)
    requires p.Lawful()
    ensures IntegerField(p, TicketValue(t), "iat") == if Safe(t.iat) then Some(t.iat) else None
    ensures IntegerField(p, TicketValue(t), "exp") == if Safe(t.exp) then Some(t.exp) else None
  {
    hide FieldOf, TicketValue, IntegerText;
    OtherFields(t);
  }

  lemma {:induction false} TextsAre(v: Value, names: seq<string>, texts: seq<Utf16>)
    requires |names| == |texts| && forall i :: 0 <= i < |names| ==> TextField(v, names[i])
    requires forall i :: 0 <= i < |names| ==> FieldOf(v, names[i]) == Some(String(texts[i]))
    ensures TextsUnder(v, names) == texts
  {
    hide FieldOf;
    if names == [] {
    } else {
      TextsAre(v, names[1..], texts[1..]);
      Uncons(texts);
    }
  }

  lemma ScopeRead(s: Scope)
    ensures ScopeOf(ScopeValues(s)) == s
  {
  }

  lemma IsObject(t: Ticket)
    ensures TicketValue(t).Object?
  {
    hide MembersOf, TicketFields;
  }

  /** The parsed ticket passes the verifier's shape check exactly when it is presentable. */
  lemma TicketRead(p: Platform, t: Ticket)
    requires p.Lawful()
    ensures IsTicket(p, TicketValue(t)) <==> Presentable(t)
    ensures Presentable(t) ==> ReadTicket(p, TicketValue(t)) == t
  {
    hide FieldOf, TicketValue, IntegerField, IntegerText, ReadTicket, ScopeValues, Safe, Has, HasInteger;
    var v := TicketValue(t);
    IsObject(t);
    forall i | 0 <= i < |SCOPE_NAMES|
      ensures FieldOf(v, SCOPE_NAMES[i]) == Some(String(ScopeValues(t.scope)[i]))
      ensures Has(v, SCOPE_NAMES[i], String(ScopeValues(t.scope)[i]))
      ensures TextField(v, SCOPE_NAMES[i]) <==> 0 < |ScopeValues(t.scope)[i]| <= MAX_FIELD
    {
      ScopeFields(t, i);
      HasIs(v, SCOPE_NAMES[i], String(ScopeValues(t.scope)[i]));
    }
    OtherFields(t);
    IntegersRead(p, t);
    HasIs(v, "kid", if t.kid.None? then Null else String(t.kid.value));
    HasIntegerIs(p, v, "iat", t.iat);
    HasIntegerIs(p, v, "exp", t.exp);
    PresentsIff(p, v, t);
  }

  lemma GoodTicket(t: Ticket)
    ensures GoodTree(Obj(MembersOf(TicketFields(t))))
  {
    TicketNames(t);
    IntegerPlain(t.iat);
    IntegerPlain(t.exp);
    assert PlainScalar("null");
    hide IntegerText, PlainScalar, DistinctNames, GoodBody, Escape;
    var fields := TicketFields(t);
    forall i | 0 <= i < |fields|
      ensures GoodTree(fields[i].1)
    {
      if i < |SCOPE_NAMES| {
        EscapedBody(ScopeValues(t.scope)[i]);
      } else if i == |SCOPE_NAMES| && t.kid.Some? {
        EscapedBody(t.kid.value);
      }
    }
    GoodFields(fields);
  }

  lemma TextStart(t: Ticket)
    ensures TicketText(t) != [] && TicketText(t)[0] == '{' && Utf8.Encode(TicketText(t)) != []
  {
    hide TicketFields, MembersOf;
  }

  lemma PayloadRead(p: Platform, t: Ticket)
    requires p.Lawful()
    ensures ParsePayload(p, Payload(t)) == if Presentable(t) then Some(t) else None
  {
    var tree := Obj(MembersOf(TicketFields(t)));
    GoodTicket(t);
    TextStart(t);
    TicketRead(p, t);
    hide GoodTree, Presentable, IsTicket, ReadTicket, TicketFields, Encode, DecodeStrict, Utf8.Encode, Stringify, Parse;
    ParseStringify(tree);
    StrictIff(Payload(t), Utf8.Encode(TicketText(t)));
  }

  lemma EncodedPart(bytes: seq<Byte>)
    requires bytes != []
    ensures Encode(bytes) != "" && '.' !in Encode(bytes) && Ascii(Encode(bytes))
  {
    hide Encode;
    EncodeIs(bytes);
  }

  /** The two parts of a signed token, and its length. */
  lemma TokenParts(p: Platform, signer: Signer, scope: Scope, now: int)
    requires p.Lawful() && p.usable(signer.secret)
    ensures var payload := Payload(TicketFor(signer, scope, now));
            var signature := Encode(p.hmac(signer.secret, Message(payload)));
            && Split(Sign(p, signer, scope, now), '.') == [payload, signature] && payload != "" && signature != ""
            && |ToUtf16(Sign(p, signer, scope, now))| == |Sign(p, signer, scope, now)|
            && DecodeStrict(signature) == Some(p.hmac(signer.secret, Message(payload)))
  {
    var t := TicketFor(signer, scope, now);
    TextStart(t);
    hide Encode, TicketText, DecodeStrict, Message, TicketFor;
    EncodedPart(Utf8.Encode(TicketText(t)));
    var payload := Payload(t);
    var mac := p.hmac(signer.secret, Message(payload));
    EncodedPart(mac);
    StrictIff(Encode(mac), mac);
    var parts := [payload, Encode(mac)];
    assert parts[1..] == [Encode(mac)];
    assert Join(parts, '.') == payload + ['.'] + Encode(mac);
    SplitJoin(parts, '.');
    AsciiUnits(Sign(p, signer, scope, now));
  }

  /** The candidate at i yields the MAC, and it and those before it are usable. */
  ghost predicate AdmitsAt(p: Platform, candidates: seq<Utf16>, mac: seq<Byte>, message: seq<Byte>, i: nat) {
    i < |candidates| && p.hmac(candidates[i], message) == mac && forall j :: 0 <= j <= i ==> p.usable(candidates[j])
  }

  ghost predicate Admits(p: Platform, candidates: seq<Utf16>, mac: seq<Byte>, message: seq<Byte>) {
    exists i: nat :: AdmitsAt(p, candidates, mac, message, i)
  }

  lemma AdmitsShift(p: Platform, secret: Utf16, rest: seq<Utf16>, mac: seq<Byte>, message: seq<Byte>, i: nat)
    ensures AdmitsAt(p, [secret] + rest, mac, message, i + 1)
       <==> p.usable(secret) && AdmitsAt(p, rest, mac, message, i)
  {
    var all := [secret] + rest;
    assert forall j :: 0 <= j < |rest| ==> all[j + 1] == rest[j];
    assert forall j :: 0 < j < |all| ==> all[j] == rest[j - 1];
    assert all[0] == secret;
  }

  lemma AdmitsCons(p: Platform, secret: Utf16, rest: seq<Utf16>, mac: seq<Byte>, message: seq<Byte>)
    ensures Admits(p, [secret] + rest, mac, message)
       <==> p.usable(secret) && (p.hmac(secret, message) == mac || Admits(p, rest, mac, message))
  {
    var all := [secret] + rest;
    assert AdmitsAt(p, all, mac, message, 0) <==> p.hmac(secret, message) == mac && p.usable(secret);
    hide AdmitsAt;
    if i: nat :| AdmitsAt(p, rest, mac, message, i) {
      AdmitsShift(p, secret, rest, mac, message, i);
    }
    if i: nat :| AdmitsAt(p, all, mac, message, i) {
      FirstUsable(p, all, mac, message, i);
      if i > 0 {
        AdmitsShift(p, secret, rest, mac, message, i - 1);
      }
    }
  }

  lemma FirstUsable(p: Platform, candidates: seq<Utf16>, mac: seq<Byte>, message: seq<Byte>, i: nat)
    requires AdmitsAt(p, candidates, mac, message, i)
    ensures p.usable(candidates[0])
  {
  }

  /** The search succeeds exactly for the text of a MAC that some candidate yields. */
  lemma SomeVerifiesIff(p: Platform, candidates: seq<Utf16>, signature: string, message: seq<Byte>)
    ensures SomeVerifies(p, candidates, signature, message) <==>
              exists mac :: mac != [] && signature == Encode(mac) && Admits(p, candidates, mac, message)
  {
    hide DecodeStrict, Encode, Admits;
    if SomeVerifies(p, candidates, signature, message) {
      var mac := DecodeStrict(signature).value;
      StrictIff(signature, mac);
      SomeVerifiesMac(p, candidates, signature, mac, message);
    }
    forall mac | mac != [] && signature == Encode(mac) && Admits(p, candidates, mac, message)
      ensures SomeVerifies(p, candidates, signature, message)
    {
      StrictIff(signature, mac);
      SomeVerifiesMac(p, candidates, signature, mac, message);
    }
  }

  lemma {:induction false} SomeVerifiesMac(p: Platform, candidates: seq<Utf16>, signature: string, mac: seq<Byte>,
                                           message: seq<Byte>)
    requires DecodeStrict(signature) == Some(mac)
    ensures SomeVerifies(p, candidates, signature, message) <==> Admits(p, candidates, mac, message)
  {
    hide DecodeStrict;
    if candidates == [] {
    } else {
      hide Admits;
      SomeVerifiesMac(p, candidates[1..], signature, mac, message);
      Uncons(candidates);
      AdmitsCons(p, candidates[0], candidates[1..], mac, message);
    }
  }

  /**
    A signed ticket verifies exactly when the token is short enough, its fields are acceptable, the
    time is in [signed, signed + 120), and one of the verifier's keys for its key id yields the same
    MAC; and then it verifies to the very scope that was signed.
  */
  lemma VerifyIff(p: Platform, signer: Signer, scope: Scope, signedAt: int, verifier: Verifier, now: int)
    requires p.Lawful() && p.usable(signer.secret)
    ensures var t := TicketFor(signer, scope, signedAt);
            var message := Message(Payload(t));
            Verify(p, verifier, Sign(p, signer, scope, signedAt), now)
            == if && |Sign(p, signer, scope, signedAt)| <= MAX_TOKEN && Presentable(t)
                  && signedAt <= now < signedAt + TTL_SECONDS
                  && Admits(p, Candidates(verifier, signer.Kid()), p.hmac(signer.secret, message), message)
               then Some(t) else None
  {
    hide Encode, DecodeStrict, Message, Split, Presentable, ParsePayload, Payload, Sign, SomeVerifies, Admits, ToUtf16;
    var t := TicketFor(signer, scope, signedAt);
    TokenParts(p, signer, scope, signedAt);
    PayloadRead(p, t);
    var message := Message(Payload(t));
    var mac := p.hmac(signer.secret, message);
    SomeVerifiesMac(p, Candidates(verifier, signer.Kid()), Encode(mac), mac, message);
  }

  // ----- Every token that verifies -----

  ghost predicate Has(v: Value, name: string, field: Value) {
    v.Object? && ToUtf16(name) in v.fields && v.fields[ToUtf16(name)] == field
  }

  /** The scope's fields under their names. */
  lemma ScopeNamed(v: Value, s: Scope)
    ensures (forall i :: 0 <= i < |SCOPE_NAMES| ==> Has(v, SCOPE_NAMES[i], String(ScopeValues(s)[i]))) <==>
              && Has(v, "userId", String(s.userId)) && Has(v, "deviceIdentifier", String(s.deviceIdentifier))
              && Has(v, "sessionId", String(s.sessionId)) && Has(v, "securityStamp", String(s.securityStamp))
              && Has(v, "cipherId", String(s.cipherId)) && Has(v, "attachmentId", String(s.attachmentId))
              && Has(v, "revisionDate", String(s.revisionDate)) && Has(v, "origin", String(s.origin))
  {
    hide Has;
    if forall i :: 0 <= i < |SCOPE_NAMES| ==> Has(v, SCOPE_NAMES[i], String(ScopeValues(s)[i])) {
      assert Has(v, SCOPE_NAMES[0], String(s.userId)) && Has(v, SCOPE_NAMES[1], String(s.deviceIdentifier));
      assert Has(v, SCOPE_NAMES[2], String(s.sessionId)) && Has(v, SCOPE_NAMES[3], String(s.securityStamp));
      assert Has(v, SCOPE_NAMES[4], String(s.cipherId)) && Has(v, SCOPE_NAMES[5], String(s.attachmentId));
      assert Has(v, SCOPE_NAMES[6], String(s.revisionDate)) && Has(v, SCOPE_NAMES[7], String(s.origin));
    }
  }

  /** A number field that denotes n. */
  ghost predicate HasInteger(p: Platform, v: Value, name: string, n: int) {
    exists text :: Has(v, name, Num(text)) && p.number(text) == Some(n)
  }

  /** A value with the eleven fields of t, its texts of 1 to 512 units. */
  ghost predicate Presents(p: Platform, v: Value, t: Ticket) {
    && (forall i :: 0 <= i < |SCOPE_NAMES| ==>
          var text := ScopeValues(t.scope)[i]; 1 <= |text| <= 512 && Has(v, SCOPE_NAMES[i], String(text)))
    && Has(v, "kid", if t.kid.None? then Null else String(t.kid.value))
    && HasInteger(p, v, "iat", t.iat) && HasInteger(p, v, "exp", t.exp)
  }

  /** The canonical base64url of bytes that decode to JSON of such a value. */
  ghost predicate Writes(p: Platform, payload: string, t: Ticket) {
    exists bytes, tree ::
      && bytes != [] && payload == Encode(bytes)
      && JsonSpelling.Denotes(p.decodeText(bytes), tree) && Presents(p, ToValue(tree), t)
  }

  /**
    A key under the ticket's key id, or for a ticket without one a bare secret, yields the MAC, and
    no such key before it is one the platform refuses.
  */
  ghost predicate Signs(p: Platform, verifier: Verifier, kid: Option<Utf16>, mac: seq<Byte>, message: seq<Byte>) {
    match verifier
    case Single(secret) => kid.None? && p.usable(secret) && p.hmac(secret, message) == mac
    case Ring(active, previous, legacySecrets) =>
      match kid
      case None => Admits(p, legacySecrets, mac, message)
      case Some(id) => KeyAdmits(p, [active] + previous, id, mac, message)
  }

  ghost predicate KeyAdmits(p: Platform, keys: seq<Key>, id: Utf16, mac: seq<Byte>, message: seq<Byte>) {
    exists i: nat :: KeyAdmitsAt(p, keys, id, mac, message, i)
  }

  ghost predicate KeyAdmitsAt(p: Platform, keys: seq<Key>, id: Utf16, mac: seq<Byte>, message: seq<Byte>, i: nat) {
    && i < |keys| && keys[i].id == id && p.hmac(keys[i].secret, message) == mac
    && forall j :: 0 <= j <= i && keys[j].id == id ==> p.usable(keys[j].secret)
  }

  /** Everything there is to a valid token. */
  ghost predicate Genuine(p: Platform, verifier: Verifier, token: string, now: int, t: Ticket) {
    && |ToUtf16(token)| <= 8192
    && t.iat <= now < t.exp == t.iat + 120
    && exists payload, mac ::
         && token == payload + "." + Encode(mac) && mac != []
         && Writes(p, payload, t)
         && Signs(p, verifier, t.kid, mac, Utf8.Encode("honowarden:attachment-download:v1\0" + payload))
  }

  lemma KeyAdmitsShift(p: Platform, key: Key, rest: seq<Key>, id: Utf16, mac: seq<Byte>, message: seq<Byte>, i: nat)
    ensures KeyAdmitsAt(p, [key] + rest, id, mac, message, i + 1)
       <==> (key.id == id ==> p.usable(key.secret)) && KeyAdmitsAt(p, rest, id, mac, message, i)
  {
    var all := [key] + rest;
    assert forall j :: 0 <= j < |rest| ==> all[j + 1] == rest[j];
    assert forall j :: 0 < j < |all| ==> all[j] == rest[j - 1];
    assert all[0] == key;
  }

  lemma KeyAdmitsCons(p: Platform, key: Key, rest: seq<Key>, id: Utf16, mac: seq<Byte>, message: seq<Byte>)
    ensures key.id != id ==> (KeyAdmits(p, [key] + rest, id, mac, message) <==> KeyAdmits(p, rest, id, mac, message))
    ensures key.id == id ==>
              (KeyAdmits(p, [key] + rest, id, mac, message)
               <==> && p.usable(key.secret)
                    && (p.hmac(key.secret, message) == mac || KeyAdmits(p, rest, id, mac, message)))
  {
    var all := [key] + rest;
    assert KeyAdmitsAt(p, all, id, mac, message, 0)
      <==> key.id == id && p.hmac(key.secret, message) == mac && p.usable(key.secret);
    hide KeyAdmitsAt;
    if i: nat :| KeyAdmitsAt(p, rest, id, mac, message, i) {
      KeyAdmitsShift(p, key, rest, id, mac, message, i);
    }
    if i: nat :| KeyAdmitsAt(p, all, id, mac, message, i) {
      KeyUsable(p, all, id, mac, message, i);
      if i > 0 {
        KeyAdmitsShift(p, key, rest, id, mac, message, i - 1);
      }
    }
  }

  lemma KeyUsable(p: Platform, keys: seq<Key>, id: Utf16, mac: seq<Byte>, message: seq<Byte>, i: nat)
    requires KeyAdmitsAt(p, keys, id, mac, message, i)
    ensures keys[0].id == id ==> p.usable(keys[0].secret)
  {
  }

  lemma {:induction false} KeysAdmit(p: Platform, keys: seq<Key>, id: Utf16, mac: seq<Byte>, message: seq<Byte>)
    ensures Admits(p, SecretsOf(keys, id), mac, message) <==> KeyAdmits(p, keys, id, mac, message)
  {
    hide Admits, KeyAdmits;
    if keys == [] {
      NoneAdmits(p, id, mac, message);
    } else {
      var rest := SecretsOf(keys[1..], id);
      Uncons(keys);
      KeysAdmit(p, keys[1..], id, mac, message);
      AdmitsCons(p, keys[0].secret, rest, mac, message);
      KeyAdmitsCons(p, keys[0], keys[1..], id, mac, message);
      AppendNothing(rest);
    }
  }

  lemma NoneAdmits(p: Platform, id: Utf16, mac: seq<Byte>, message: seq<Byte>)
    ensures !Admits(p, [], mac, message) && !KeyAdmits(p, [], id, mac, message)
  {
  }

  lemma SignsIff(p: Platform, verifier: Verifier, kid: Option<Utf16>, mac: seq<Byte>, message: seq<Byte>)
    ensures Signs(p, verifier, kid, mac, message) <==> Admits(p, Candidates(verifier, kid), mac, message)
  {
    hide Admits, KeyAdmits;
    match verifier
    case Single(secret) =>
      AdmitsCons(p, secret, [], mac, message);
      NoneAdmits(p, [], mac, message);
      AppendNothing([secret]);
    case Ring(active, previous, _) =>
      if kid.Some? {
        KeysAdmit(p, [active] + previous, kid.value, mac, message);
      }
  }

  lemma TextsAt(v: Value, names: seq<string>, i: nat)
    requires (forall j :: 0 <= j < |names| ==> TextField(v, names[j])) && i < |names|
    ensures FieldOf(v, names[i]) == Some(String(TextsUnder(v, names)[i]))
  {
    hide FieldOf;
    if i > 0 {
      TextsAt(v, names[1..], i - 1);
    }
  }

  lemma HasIs(v: Value, name: string, field: Value)
    ensures Has(v, name, field) <==> FieldOf(v, name) == Some(field)
    ensures Has(v, name, field) ==> v.Object?
  {
  }

  lemma HasIntegerIs(p: Platform, v: Value, name: string, n: int)
    ensures HasInteger(p, v, name, n) <==> IntegerField(p, v, name) == Some(n)
  {
    hide FieldOf, Has;
    forall text ensures Has(v, name, Num(text)) <==> FieldOf(v, name) == Some(Num(text)) {
      HasIs(v, name, Num(text));
    }
  }

  /** The shape check accepts exactly the values that present a ticket, and reads that one. */
  lemma PresentsIff(p: Platform, v: Value, t: Ticket)
    ensures IsTicket(p, v) && ReadTicket(p, v) == t <==> Presents(p, v, t)
  {
    hide FieldOf, Has, HasInteger, IntegerField, ScopeValues, TextsUnder, ScopeOf;
    forall i | 0 <= i < |SCOPE_NAMES|
      ensures Has(v, SCOPE_NAMES[i], String(ScopeValues(t.scope)[i]))
         <==> FieldOf(v, SCOPE_NAMES[i]) == Some(String(ScopeValues(t.scope)[i]))
    {
      HasIs(v, SCOPE_NAMES[i], String(ScopeValues(t.scope)[i]));
    }
    HasIs(v, "kid", if t.kid.None? then Null else String(t.kid.value));
    HasIntegerIs(p, v, "iat", t.iat);
    HasIntegerIs(p, v, "exp", t.exp);
    if IsTicket(p, v) && ReadTicket(p, v) == t {
      TicketPresents(p, v);
    }
    if Presents(p, v, t) {
      PresentedScope(v, t.scope);
    }
  }

  lemma TicketPresents(p: Platform, v: Value)
    requires IsTicket(p, v)
    ensures forall i :: 0 <= i < |SCOPE_NAMES| ==>
              var text := ScopeValues(ReadTicket(p, v).scope)[i];
              1 <= |text| <= 512 && FieldOf(v, SCOPE_NAMES[i]) == Some(String(text))
  {
    hide FieldOf, ScopeValues, TextsUnder, IntegerField, ScopeOf;
    forall i | 0 <= i < |SCOPE_NAMES|
      ensures FieldOf(v, SCOPE_NAMES[i]) == Some(String(TextsUnder(v, SCOPE_NAMES)[i]))
    {
      TextsAt(v, SCOPE_NAMES, i);
    }
    assert forall i :: 0 <= i < |SCOPE_NAMES| ==> TextField(v, SCOPE_NAMES[i]);
  }

  lemma PresentedScope(v: Value, scope: Scope)
    requires forall i :: 0 <= i < |SCOPE_NAMES| ==>
               var text := ScopeValues(scope)[i];
               1 <= |text| <= 512 && FieldOf(v, SCOPE_NAMES[i]) == Some(String(text))
    ensures forall i :: 0 <= i < |SCOPE_NAMES| ==> TextField(v, SCOPE_NAMES[i])
    ensures ScopeOf(TextsUnder(v, SCOPE_NAMES)) == scope
  {
    hide FieldOf, ScopeValues, TextsUnder, ScopeOf;
    TextsAre(v, SCOPE_NAMES, ScopeValues(scope));
    ScopeRead(scope);
  }

  /** A payload parses to exactly the ticket it writes. */
  lemma PayloadIff(p: Platform, payload: string, t: Ticket)
    ensures ParsePayload(p, payload) == Some(t) <==> Writes(p, payload, t)
  {
    hide DecodeStrict, Encode, Parse, IsTicket, ReadTicket, Presents, JsonSpelling.Denotes, ToValue;
    if ParsePayload(p, payload) == Some(t) {
      var bytes := DecodeStrict(payload).value;
      var tree := Parse(p.decodeText(bytes)).value;
      StrictIff(payload, bytes);
      JsonSpelling.JsonIff(p.decodeText(bytes), tree);
      PresentsIff(p, ToValue(tree), t);
    }
    forall bytes, tree
      | bytes != [] && payload == Encode(bytes) && JsonSpelling.Denotes(p.decodeText(bytes), tree)
        && Presents(p, ToValue(tree), t)
      ensures ParsePayload(p, payload) == Some(t)
    {
      StrictIff(payload, bytes);
      JsonSpelling.JsonIff(p.decodeText(bytes), tree);
      PresentsIff(p, ToValue(tree), t);
    }
  }

  lemma WritesPart(p: Platform, payload: string, t: Ticket)
    ensures Writes(p, payload, t) ==> payload != "" && '.' !in payload
  {
    hide Encode, Presents, JsonSpelling.Denotes, ToValue;
    if bytes, tree :|
      bytes != [] && payload == Encode(bytes) && JsonSpelling.Denotes(p.decodeText(bytes), tree)
      && Presents(p, ToValue(tree), t) {
      EncodedPart(bytes);
    }
  }

  lemma TwoParts(token: string, payload: string, signature: string)
    ensures Split(token, '.') == [payload, signature]
       <==> token == payload + "." + signature && '.' !in payload && '.' !in signature
  {
    hide Split;
    var parts := [payload, signature];
    assert parts[1..] == [signature];
    assert Join(parts, '.') == payload + ['.'] + signature;
    if Split(token, '.') == parts {
      assert '.' !in parts[0] && '.' !in parts[1];
    } else if token == payload + "." + signature && '.' !in payload && '.' !in signature {
      SplitJoin(parts, '.');
    }
  }

  /** What the verifier returns is genuine, and everything genuine is returned, for every token. */
  lemma TokenIff(p: Platform, verifier: Verifier, token: string, now: int, t: Ticket)
    ensures Verify(p, verifier, token, now) == Some(t) <==> Genuine(p, verifier, token, now, t)
  {
    hide Encode, Split, ParsePayload, SomeVerifies, Admits, Writes, Signs, Candidates, ToUtf16, Message;
    if Verify(p, verifier, token, now) == Some(t) {
      var payload, signature := Split(token, '.')[0], Split(token, '.')[1];
      assert Split(token, '.') == [payload, signature];
      TwoParts(token, payload, signature);
      PayloadIff(p, payload, t);
      SomeVerifiesIff(p, Candidates(verifier, t.kid), signature, Message(payload));
      var mac :| mac != [] && signature == Encode(mac) && Admits(p, Candidates(verifier, t.kid), mac, Message(payload));
      SignsIff(p, verifier, t.kid, mac, Message(payload));
      MessageIs(payload);
    }
    forall payload, mac
      | && |ToUtf16(token)| <= 8192 && t.iat <= now < t.exp == t.iat + 120
        && token == payload + "." + Encode(mac) && mac != [] && Writes(p, payload, t)
        && Signs(p, verifier, t.kid, mac, Utf8.Encode("honowarden:attachment-download:v1\0" + payload))
      ensures Verify(p, verifier, token, now) == Some(t)
    {
      WritesPart(p, payload, t);
      EncodedPart(mac);
      TwoParts(token, payload, Encode(mac));
      PayloadIff(p, payload, t);
      MessageIs(payload);
      SignsIff(p, verifier, t.kid, mac, Message(payload));
      SomeVerifiesIff(p, Candidates(verifier, t.kid), Encode(mac), Message(payload));
    }
  }

  lemma MessageIs(payload: string)
    ensures Message(payload) == Utf8.Encode("honowarden:attachment-download:v1\0" + payload)
  {
    hide Utf8.Encode;
  }

  /** The verifier still holds the signer's key under its id, and every key it tries can be used. */
  ghost predicate StillHolds(p: Platform, verifier: Verifier, signer: Signer) {
    && (forall s :: s in Candidates(verifier, signer.Kid()) ==> p.usable(s))
    && match signer
       case Bare(secret) =>
         (verifier.Single? && verifier.secret == secret) || (verifier.Ring? && secret in verifier.legacySecrets)
       case Keyed(id, secret) =>
         verifier.Ring? && (verifier.active == Key(id, secret) || Key(id, secret) in verifier.previous)
  }

  lemma {:induction false} SecretsHeld(keys: seq<Key>, id: Utf16, secret: Utf16)
    requires Key(id, secret) in keys
    ensures secret in SecretsOf(keys, id)
  {
    if keys[0] != Key(id, secret) {
      SecretsHeld(keys[1..], id, secret);
    }
  }

  /** Key rotation: while the key is active or previous, the ticket verifies for its whole lifetime. */
  lemma RotationKeepsTickets(p: Platform, signer: Signer, scope: Scope, signedAt: int, verifier: Verifier, now: int)
    requires p.Lawful() && p.usable(signer.secret) && StillHolds(p, verifier, signer)
    requires |Sign(p, signer, scope, signedAt)| <= MAX_TOKEN && Presentable(TicketFor(signer, scope, signedAt))
    ensures var r := Verify(p, verifier, Sign(p, signer, scope, signedAt), now);
            && (r.Some? <==> signedAt <= now < signedAt + TTL_SECONDS)
            && (r.Some? ==> r.value.scope == scope)
  {
    hide Sign, Verify, Message, Payload, Presentable;
    VerifyIff(p, signer, scope, signedAt, verifier, now);
    var candidates := Candidates(verifier, signer.Kid());
    if signer.Keyed? {
      SecretsHeld([verifier.active] + verifier.previous, signer.id, signer.secret);
    }
    assert signer.secret in candidates;
    var i :| 0 <= i < |candidates| && candidates[i] == signer.secret;
    var message := Message(Payload(TicketFor(signer, scope, signedAt)));
    assert AdmitsAt(p, candidates, p.hmac(signer.secret, message), message, i);
  }

  lemma {:induction false} NoSecrets(keys: seq<Key>, id: Utf16)
    requires forall k :: k in keys ==> k.id != id
    ensures SecretsOf(keys, id) == []
  {
    if keys == [] {
    } else {
      NoSecrets(keys[1..], id);
    }
  }

  /** Once its key has left the ring no ticket verifies, nor does one whose kind of signer is not accepted. */
  lemma RetiredKeyRefused(p: Platform, signer: Signer, scope: Scope, signedAt: int, verifier: Verifier, now: int)
    requires p.Lawful() && p.usable(signer.secret)
    requires match signer
             case Bare(_) => verifier.Ring? && verifier.legacySecrets == []
             case Keyed(id, _) =>
               verifier.Ring? ==> verifier.active.id != id && forall k :: k in verifier.previous ==> k.id != id
    ensures Verify(p, verifier, Sign(p, signer, scope, signedAt), now) == None
  {
    hide Sign, Verify, Message, Payload, Presentable;
    VerifyIff(p, signer, scope, signedAt, verifier, now);
    if signer.Keyed? && verifier.Ring? {
      NoSecrets([verifier.active] + verifier.previous, signer.id);
    }
  }

  /** What a ticket's MAC covers is never what an access token's MAC covers. */
  lemma DomainSeparated(payload: string, header: string, claims: string)
    requires AllUrl(header) && AllUrl(claims)
    ensures Message(payload) != Utf8.Encode(header + "." + claims)
  {
    hide Utf8.Encode;
    var ticket, token := DOMAIN + payload, header + "." + claims;
    Utf8.DecodeEncode(ticket);
    Utf8.DecodeEncode(token);
    assert DOMAIN[10] == ':' && ticket[10] == DOMAIN[10];
    assert forall i :: 0 <= i < |token| ==> token[i] == '.' || IsUrlChar(token[i]);
  }
}
