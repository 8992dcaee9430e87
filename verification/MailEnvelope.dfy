/**
  The account-mail envelope of src/account-lifecycle-mail-envelope.ts: a JSON payload in a padded
  2048-byte block, sealed, base64url-encoded, and opened again under strict shape checks.
*/
module MailEnvelope {
  import opened Base64
  import opened Base64Url
  import opened Json
  import opened JsonNames
  import opened JsonText
  import opened Options
  import opened Sequences
  import JsonSpelling
  import Utf8

  const BLOCK_BYTES := 2048
  /** Largest time value of a JavaScript date, and the years written with four digits. */
  const MAX_TIME := 8640000000000000
  const FIRST_FOUR_DIGIT := -62167219200000
  const LAST_FOUR_DIGIT := 253402300799999

  // ----- What the platform provides -----

  /** toISOString and Date.parse on integer milliseconds. */
  datatype Calendar = Calendar(iso: int -> Utf16, parse: Utf16 -> Option<int>) {
    ghost predicate Lawful() {
      && (forall ms {:trigger iso(ms)} :: InRange(ms) ==>
            && parse(iso(ms)) == Some(ms) && PlainUnits(iso(ms))
            && |iso(ms)| == if FourDigit(ms) then 24 else 27)
      && (forall t {:trigger parse(t)} :: parse(t).Some? ==> InRange(parse(t).value))
    }
  }

  predicate InRange(ms: int) {
    -MAX_TIME <= ms <= MAX_TIME
  }

  predicate FourDigit(ms: int) {
    FIRST_FOUR_DIGIT <= ms <= LAST_FOUR_DIGIT
  }

  /** AES-GCM: authenticated encryption that adds a 16-byte tag and that decryption undoes. */
  datatype Aead = Aead(
    encrypt: (seq<Byte>, seq<Byte>, seq<Byte>, seq<Byte>) -> seq<Byte>,
    decrypt: (seq<Byte>, seq<Byte>, seq<Byte>, seq<Byte>) -> Option<seq<Byte>>)
  {
    ghost predicate Lawful() {
      forall key, iv, aad, plain {:trigger encrypt(key, iv, aad, plain)} ::
        && |encrypt(key, iv, aad, plain)| == |plain| + 16
        && decrypt(key, iv, aad, encrypt(key, iv, aad, plain)) == Some(plain)
    }
  }

  // ----- Deliveries -----

  datatype Disposition = Deliver | Suppress
  datatype Purpose = EmailVerify | EmailChange | AccountDelete

  datatype Delivery = Delivery(
    disposition: Disposition, purpose: Purpose, recipientEmail: Utf16,
    token: Utf16, userId: Utf16, expiresAt: Utf16)

  function DispositionText(d: Disposition): string {
    match d
    case Deliver => "deliver"
    case Suppress => "suppress"
  }

  function PurposeText(p: Purpose): string {
    match p
    case EmailVerify => "email_verify"
    case EmailChange => "email_change"
    case AccountDelete => "account_delete"
  }

  function ReadDisposition(v: Value): Option<Disposition> {
    if v == String(ToUtf16("deliver")) then Some(Deliver)
    else if v == String(ToUtf16("suppress")) then Some(Suppress)
    else None
  }

  function ReadPurpose(v: Value): Option<Purpose> {
    if v == String(ToUtf16("email_verify")) then Some(EmailVerify)
    else if v == String(ToUtf16("email_change")) then Some(EmailChange)
    else if v == String(ToUtf16("account_delete")) then Some(AccountDelete)
    else None
  }

  function TokenTtl(p: Purpose): int {
    match p
    case EmailVerify => 24 * 60 * 60 * 1000
    case _ => 15 * 60 * 1000
  }

  /** accountLifecycleTokenExpiresAt, or None where it throws. */
  function TokenExpiresAt(calendar: Calendar, p: Purpose, now: Utf16): Option<Utf16> {
    match calendar.parse(now)
    case None => None
    case Some(ms) => if InRange(ms + TokenTtl(p)) then Some(calendar.iso(ms + TokenTtl(p))) else None
  }

  predicate IdPattern(t: Utf16, longest: nat) {
    1 <= |t| <= longest && AllUrl(AsString(t))
  }

  /** The white space that trim and the class \s know. */
  predicate IsSpaceUnit(u: Unit) {
    || 9 <= u <= 13 || u == 0x20 || u == 0xA0 || u == 0x1680 || 0x2000 <= u <= 0x200A
    || u == 0x2028 || u == 0x2029 || u == 0x202F || u == 0x205F || u == 0x3000 || u == 0xFEFF
  }

  predicate IsControlUnit(u: Unit) {
    u <= 31 || u == 127
  }

  function CountUnit(t: Utf16, u: Unit): nat {
    if t == [] then 0 else (if t[0] == u then 1 else 0) + CountUnit(t[1..], u)
  }

  /** parseAccountDeletionRecoveryBody on a string: bounded, no blanks or controls, one inner @. */
  predicate EmailAccepted(t: Utf16) {
    && 1 <= |t| <= 256
    && (forall i :: 0 <= i < |t| ==> !IsSpaceUnit(t[i]) && !IsControlUnit(t[i]))
    && CountUnit(t, 0x40) == 1 && t[0] != 0x40 && t[|t| - 1] != 0x40
  }

  /** Bytes TextEncoder writes for a text; a lone surrogate becomes the replacement character. */
  function Utf8Length(t: Utf16): nat {
    if t == [] then 0
    else if StartsWithPair(t) then 4 + Utf8Length(t[2..])
    else (if t[0] < 0x80 then 1 else if t[0] < 0x800 then 2 else 3) + Utf8Length(t[1..])
  }

  predicate CanonicalTimestamp(calendar: Calendar, v: Value) {
    && v.String? && |v.units| == 24 && calendar.parse(v.units).Some?
    && calendar.iso(calendar.parse(v.units).value) == v.units
  }

  predicate ValidDelivery(calendar: Calendar, d: Delivery) {
    && EmailAccepted(d.recipientEmail) && Utf8Length(d.recipientEmail) <= 254
    && TokenPattern(AsString(d.token))
    && IdPattern(d.userId, 128)
    && CanonicalTimestamp(calendar, String(d.expiresAt))
  }

  function ParseDelivery(calendar: Calendar, v: Value): Option<Delivery> {
    if !ObjectWithFields(v, 6, {"disposition", "purpose", "recipientEmail", "token", "userId", "expiresAt"}) then None
    else
      var disposition, purpose := ReadDisposition(Field(v, "disposition")), ReadPurpose(Field(v, "purpose"));
      var email, token := Field(v, "recipientEmail"), Field(v, "token");
      var userId, expiresAt := Field(v, "userId"), Field(v, "expiresAt");
      if disposition.None? || purpose.None?
         || !email.String? || !token.String? || !userId.String? || !expiresAt.String? then None
      else
        var d := Delivery(disposition.value, purpose.value, email.units, token.units, userId.units, expiresAt.units);
        if ValidDelivery(calendar, d) then Some(d) else None
  }

  // ----- The payload -----

  function DeliveryMembers(d: Delivery): Members {
    Member("disposition", Str(DispositionText(d.disposition)),
    Member("purpose", Str(PurposeText(d.purpose)),
    Member("recipientEmail", Str(Escape(d.recipientEmail)), TailMembers(d))))
  }

  function TailMembers(d: Delivery): Members {
    Member("token", Str(Escape(d.token)),
    Member("userId", Str(Escape(d.userId)),
    Member("expiresAt", Str(Escape(d.expiresAt)), NoMembers)))
  }

  function PayloadTree(d: Delivery, queuedAt: Utf16): Tree {
    Obj(Member("delivery", Obj(DeliveryMembers(d)), Member("queuedAt", Str(Escape(queuedAt)), NoMembers)))
  }

  function Payload(d: Delivery, queuedAt: Utf16): seq<Byte> {
    Utf8.Encode(Stringify(PayloadTree(d, queuedAt)))
  }

  /** Random bytes overwritten by a big-endian length and the payload. */
  function Block(payload: seq<Byte>, noise: seq<Byte>): (block: seq<Byte>)
    requires |noise| == BLOCK_BYTES && |payload| <= BLOCK_BYTES - 2
    ensures |block| == BLOCK_BYTES
  {
    [|payload| / 256, |payload| % 256] + payload + noise[|payload| + 2..]
  }

  // ----- Sealing and opening -----

  datatype Codec = Codec(activeKeyId: Utf16, keys: map<Utf16, seq<Byte>>) {
    predicate Valid() {
      IdPattern(activeKeyId, 32) && activeKeyId in keys
    }
  }

  function Aad(keyId: Utf16): seq<Byte> {
    Utf8.Encode("honowarden:account-lifecycle-mail:v1:" + AsString(keyId))
  }

  function Sealed(keyId: Utf16, iv: seq<Byte>, ciphertext: seq<Byte>): Value {
    Object(map[
      Key("version") := Num("1"),
      Key("keyId") := String(keyId),
      Key("iv") := String(ToUtf16(Base64Url.Encode(iv))),
      Key("ciphertext") := String(ToUtf16(Base64Url.Encode(ciphertext)))])
  }

  /** A mail may be queued before its expiry and not earlier than its purpose's lifetime allows. */
  function InWindow(calendar: Calendar, d: Delivery, queuedAt: Utf16): bool {
    var expires, queued := calendar.parse(d.expiresAt), calendar.parse(queuedAt);
    var latest := TokenExpiresAt(calendar, d.purpose, queuedAt);
    && expires.Some? && queued.Some? && latest.Some? && calendar.parse(latest.value).Some?
    && queued.value < expires.value <= calendar.parse(latest.value).value
  }

  /** The delivery a seal request names, if its checks pass. */
  function SealRequest(calendar: Calendar, v: Value, now: int): Option<Delivery> {
    match ParseDelivery(calendar, v)
    case None => None
    case Some(d) => if InRange(now) && InWindow(calendar, d, calendar.iso(now)) then Some(d) else None
  }

  /** What sealing returns; None where it throws. */
  function SealResult(codec: Codec, calendar: Calendar, aead: Aead, v: Value, now: int,
                      noise: seq<Byte>, iv: seq<Byte>): Option<Value>
    requires codec.Valid() && |noise| == BLOCK_BYTES
  {
    match SealRequest(calendar, v, now)
    case None => None
    case Some(d) =>
      var payload := Payload(d, calendar.iso(now));
      if |payload| > BLOCK_BYTES - 2 then None
      else
        var key := codec.keys[codec.activeKeyId];
        Some(Sealed(codec.activeKeyId, iv, aead.encrypt(key, iv, Aad(codec.activeKeyId), Block(payload, noise))))
  }

  datatype OpenMail =
    | Decoded(delivery: Delivery, queuedAt: Utf16)
    | Invalid
    | UnknownKey
    | Unreadable

  /** The opener's shape checks on the envelope value. */
  predicate EnvelopeShape(v: Value) {
    && ObjectWithFields(v, 4, {"version", "keyId", "iv", "ciphertext"})
    && Field(v, "version") == Num("1")
    && Field(v, "keyId").String? && IdPattern(Field(v, "keyId").units, 32)
    && Field(v, "iv").String? && |Field(v, "iv").units| == 16
    && AllUrl(AsString(Field(v, "iv").units))
    && Field(v, "ciphertext").String? && |Field(v, "ciphertext").units| == 2752
    && AllUrl(AsString(Field(v, "ciphertext").units))
  }

  function Open(codec: Codec, calendar: Calendar, aead: Aead, v: Value): OpenMail {
    if !EnvelopeShape(v) then Invalid
    else
      var keyId := Field(v, "keyId").units;
      if keyId !in codec.keys then UnknownKey
      else
        var iv := DecodeLoose(AsString(Field(v, "iv").units));
        var ciphertext := DecodeLoose(AsString(Field(v, "ciphertext").units));
        if iv.None? || ciphertext.None? then Unreadable
        else
          match aead.decrypt(codec.keys[keyId], iv.value, Aad(keyId), ciphertext.value)
          case None => Unreadable
          case Some(plaintext) => OpenBlock(calendar, plaintext)
  }

  function OpenBlock(calendar: Calendar, plaintext: seq<Byte>): OpenMail {
    if |plaintext| != BLOCK_BYTES then Invalid
    else
      var length: nat := plaintext[0] as nat * 256 + plaintext[1] as nat;
      if length < 1 || length > BLOCK_BYTES - 2 then Invalid
      else
        match Utf8.DecodeText(plaintext[2..length + 2])
        case None => Invalid
        case Some(text) =>
          match Parse(text)
          case None => Invalid
          case Some(tree) => OpenPayload(calendar, ToValue(tree))
  }

  function OpenPayload(calendar: Calendar, payload: Value): OpenMail {
    if !ObjectWithFields(payload, 2, {"delivery", "queuedAt"}) then Invalid
    else
      var queuedAt := Field(payload, "queuedAt");
      if !CanonicalTimestamp(calendar, queuedAt) then Invalid
      else
        match ParseDelivery(calendar, Field(payload, "delivery"))
        case None => Invalid
        case Some(d) =>
          if InWindow(calendar, d, queuedAt.units) then Decoded(d, queuedAt.units) else Invalid
  }

  // ----- The payload read back -----

  lemma DispositionRead(d: Disposition)
    ensures GoodName(DispositionText(d)) && |DispositionText(d)| <= 8
    ensures ReadDisposition(String(Unescape(DispositionText(d)))) == Some(d)
  {
    hide Unescape, ToUtf16, GoodBody, Utf8.Encode;
    KeyOfName("deliver");
    KeyOfName("suppress");
  }

  lemma PurposeRead(p: Purpose)
    ensures GoodName(PurposeText(p)) && |PurposeText(p)| <= 14
    ensures ReadPurpose(String(Unescape(PurposeText(p)))) == Some(p)
  {
    hide Unescape, ToUtf16, GoodBody, Utf8.Encode;
    KeyOfName("email_verify");
    KeyOfName("email_change");
    KeyOfName("account_delete");
    assert Key("email_verify")[6] == 'v' as int && Key("email_change")[6] == 'c' as int;
  }

  /** Names of the payload need no escape and are pairwise different. */
  lemma Names()
    ensures GoodName("disposition") && GoodName("purpose") && GoodName("recipientEmail")
    ensures GoodName("token") && GoodName("userId") && GoodName("expiresAt")
    ensures GoodName("delivery") && GoodName("queuedAt") && Key("delivery") != Key("queuedAt")
  {
    hide GoodName, ToUtf16;
    OuterNames();
    KeyOfName("disposition");
    KeyOfName("purpose");
    KeyOfName("recipientEmail");
    KeyOfName("token");
    KeyOfName("userId");
    KeyOfName("expiresAt");
  }

  lemma OuterNames()
    ensures GoodName("delivery") && GoodName("queuedAt") && Key("delivery") != Key("queuedAt")
  {
    hide GoodName, ToUtf16;
    KeyOfName("delivery");
    KeyOfName("queuedAt");
    assert Key("delivery")[0] == 'd' as int && Key("queuedAt")[0] == 'q' as int;
  }

  lemma KeyLengths()
    ensures |Key("disposition")| == 11 && |Key("purpose")| == 7 && |Key("recipientEmail")| == 14
    ensures |Key("token")| == 5 && |Key("userId")| == 6 && |Key("expiresAt")| == 9
  {
    Names();
    hide GoodBody, Unescape, ToUtf16, Utf8.Encode;
  }

  lemma TailFields(d: Delivery)
    ensures ToFields(TailMembers(d)) == Three(
              Key("token"), Key("userId"), Key("expiresAt"),
              String(d.token), String(d.userId), String(d.expiresAt))
  {
    Names();
    UnescapeEscape(d.token);
    UnescapeEscape(d.userId);
    UnescapeEscape(d.expiresAt);
    hide Escape, Unescape, Key, GoodName;
    StringField("token", Escape(d.token), TailMembers(d).rest);
    StringField("userId", Escape(d.userId), TailMembers(d).rest.rest);
    StringField("expiresAt", Escape(d.expiresAt), NoMembers);
    assert ToFields(NoMembers) == map[];
  }

  /** The fields of a serialized delivery, read back. */
  lemma DeliveryFields(d: Delivery)
    ensures ToFields(DeliveryMembers(d)) ==
              map[Key("disposition") := String(Key(DispositionText(d.disposition)))]
            + (map[Key("purpose") := String(Key(PurposeText(d.purpose)))]
            + (map[Key("recipientEmail") := String(d.recipientEmail)]
            + Three(Key("token"), Key("userId"), Key("expiresAt"),
                    String(d.token), String(d.userId), String(d.expiresAt))))
  {
    Names();
    DispositionRead(d.disposition);
    PurposeRead(d.purpose);
    UnescapeEscape(d.recipientEmail);
    TailFields(d);
    GoodNameMeans(DispositionText(d.disposition));
    GoodNameMeans(PurposeText(d.purpose));
    hide Escape, Unescape, DispositionText, PurposeText, Key, GoodName, TailMembers, Three, ReadDisposition,
      ReadPurpose;
    StringField("recipientEmail", Escape(d.recipientEmail), TailMembers(d));
    StringField("purpose", PurposeText(d.purpose), DeliveryMembers(d).rest.rest);
    StringField("disposition", DispositionText(d.disposition), DeliveryMembers(d).rest);
  }

  lemma DeliveryValue(d: Delivery)
    ensures var v := ToValue(Obj(DeliveryMembers(d)));
            && ObjectWithFields(v, 6, {"disposition", "purpose", "recipientEmail", "token", "userId", "expiresAt"})
            && Field(v, "disposition") == String(Key(DispositionText(d.disposition)))
            && Field(v, "purpose") == String(Key(PurposeText(d.purpose)))
            && Field(v, "recipientEmail") == String(d.recipientEmail)
            && Field(v, "token") == String(d.token)
            && Field(v, "userId") == String(d.userId)
            && Field(v, "expiresAt") == String(d.expiresAt)
  {
    KeyLengths();
    DeliveryFields(d);
    hide ToFields, Key, DispositionText, PurposeText, DeliveryMembers, Three;
    SixFields(ToFields(DeliveryMembers(d)), Key("disposition"), Key("purpose"), Key("recipientEmail"),
      Key("token"), Key("userId"), Key("expiresAt"),
      String(Key(DispositionText(d.disposition))), String(Key(PurposeText(d.purpose))), String(d.recipientEmail),
      String(d.token), String(d.userId), String(d.expiresAt));
  }

  /** Reading a serialized delivery gives it back. */
  lemma ParseSerialized(calendar: Calendar, d: Delivery)
    requires ValidDelivery(calendar, d)
    ensures ParseDelivery(calendar, ToValue(Obj(DeliveryMembers(d)))) == Some(d)
  {
    hide ValidDelivery, ToValue, ObjectWithFields, Field, Key, ReadDisposition, ReadPurpose, DispositionText,
      PurposeText, GoodName, DeliveryMembers, Unescape;
    DeliveryValue(d);
    DispositionRead(d.disposition);
    PurposeRead(d.purpose);
    GoodNameMeans(DispositionText(d.disposition));
    GoodNameMeans(PurposeText(d.purpose));
  }

  lemma PayloadMap(d: Delivery, queuedAt: Utf16)
    ensures ToValue(PayloadTree(d, queuedAt)) == Object(
              map[Key("delivery") := ToValue(Obj(DeliveryMembers(d)))]
              + (map[Key("queuedAt") := String(queuedAt)] + map[]))
  {
    hide Escape, Unescape, Key, GoodName, DeliveryMembers;
    Names();
    UnescapeEscape(queuedAt);
    GoodNameMeans("delivery");
    StringField("queuedAt", Escape(queuedAt), NoMembers);
    var last := Member("queuedAt", Str(Escape(queuedAt)), NoMembers);
    assert ToFields(last) == map[Key("queuedAt") := String(queuedAt)] + map[];
    assert ToFields(Member("delivery", Obj(DeliveryMembers(d)), last))
        == map[Key("delivery") := ToValue(Obj(DeliveryMembers(d)))] + ToFields(last);
  }

  lemma PayloadFields(d: Delivery, queuedAt: Utf16)
    ensures var v := ToValue(PayloadTree(d, queuedAt));
            && ObjectWithFields(v, 2, {"delivery", "queuedAt"})
            && Field(v, "delivery") == ToValue(Obj(DeliveryMembers(d)))
            && Field(v, "queuedAt") == String(queuedAt)
  {
    Names();
    PayloadMap(d, queuedAt);
    hide Key, GoodName, DeliveryMembers, ToValue, PayloadTree;
    TwoFields(ToValue(PayloadTree(d, queuedAt)).fields, Key("delivery"), Key("queuedAt"),
      ToValue(Obj(DeliveryMembers(d))), String(queuedAt));
  }

  lemma GoodPayload(d: Delivery, queuedAt: Utf16)
    ensures GoodTree(PayloadTree(d, queuedAt))
  {
    Names();
    DispositionRead(d.disposition);
    PurposeRead(d.purpose);
    EscapedBody(d.recipientEmail);
    EscapedBody(d.token);
    EscapedBody(d.userId);
    EscapedBody(d.expiresAt);
    EscapedBody(queuedAt);
    hide GoodBody, Escape, Unescape, DispositionText, PurposeText, ToUtf16, Key, Utf8.Encode, ReadDisposition,
      ReadPurpose;
    GoodMember("expiresAt", Escape(d.expiresAt), NoMembers);
    GoodMember("userId", Escape(d.userId), TailMembers(d).rest.rest);
    GoodMember("token", Escape(d.token), TailMembers(d).rest);
    GoodMember("recipientEmail", Escape(d.recipientEmail), TailMembers(d));
    GoodMember("purpose", PurposeText(d.purpose), DeliveryMembers(d).rest.rest);
    GoodMember("disposition", DispositionText(d.disposition), DeliveryMembers(d).rest);
    GoodMember("queuedAt", Escape(queuedAt), NoMembers);
    hide GoodName, DeliveryMembers, TailMembers;
    var tail := Member("queuedAt", Str(Escape(queuedAt)), NoMembers);
    assert GoodTree(Obj(DeliveryMembers(d)));
    assert GoodBody("delivery") by { GoodNameMeans("delivery"); }
    assert GoodMembers(Member("delivery", Obj(DeliveryMembers(d)), tail));
  }

  /** What the opener makes of a block holding this payload. */
  lemma OpenPayloadBlock(calendar: Calendar, d: Delivery, queuedAt: Utf16, noise: seq<Byte>)
    requires |noise| == BLOCK_BYTES && |Payload(d, queuedAt)| <= BLOCK_BYTES - 2
    ensures OpenBlock(calendar, Block(Payload(d, queuedAt), noise))
         == OpenPayload(calendar, ToValue(PayloadTree(d, queuedAt)))
  {
    var tree, payload := PayloadTree(d, queuedAt), Payload(d, queuedAt);
    GoodPayload(d, queuedAt);
    hide GoodTree, PayloadTree, OpenPayload, Parse, ToValue;
    ParseStringify(tree);
    assert Stringify(tree) != [] && Stringify(tree)[0] == '{' by {
      StartsWithBrace(d, queuedAt);
    }
    Utf8.DecodeTextEncode(Stringify(tree));
    var block := Block(payload, noise);
    assert block[0] as nat * 256 + block[1] as nat == |payload|;
    assert block[2..|payload| + 2] == payload;
  }

  lemma StartsWithBrace(d: Delivery, queuedAt: Utf16)
    ensures Stringify(PayloadTree(d, queuedAt)) != [] && Stringify(PayloadTree(d, queuedAt))[0] == '{'
  {
  }

  // ----- The size guard -----

  function Bytes(ts: seq<Token>): nat {
    if ts == [] then 0 else |Utf8.Encode(Show(ts[0]))| + Bytes(ts[1..])
  }

  lemma {:induction false} BytesPrint(ts: seq<Token>)
    ensures |Utf8.Encode(Print(ts))| == Bytes(ts)
  {
    if ts == [] {
    } else {
      BytesPrint(ts[1..]);
      Utf8.EncodeAppend(Show(ts[0]), Print(ts[1..]));
    }
  }

  lemma {:induction false} BytesAppend(a: seq<Token>, b: seq<Token>)
    ensures Bytes(a + b) == Bytes(a) + Bytes(b)
  {
    if a == [] {
      assert a + b == b;
    } else {
      BytesAppend(a[1..], b);
      assert (a + b)[1..] == a[1..] + b;
    }
  }

  lemma TokenBytes(t: Token)
    ensures Bytes([t]) == |Utf8.Encode(Show(t))|
    ensures Punctuation(t) ==> Bytes([t]) == 1
    ensures t.Quoted? ==> Bytes([t]) == |Utf8.Encode(t.body)| + 2
  {
    assert [t][1..] == [];
    if t.Quoted? {
      Utf8.EncodeAppend(['"'] + t.body, ['"']);
      Utf8.EncodeAppend(['"'], t.body);
      QuoteByte();
    }
  }

  lemma QuoteByte()
    ensures |Utf8.Encode(['"'])| == 1
  {
    assert ['"'][1..] == [];
  }

  /** A member costs its name, its value, a colon and the punctuation after it. */
  lemma MemberBytes(name: string, value: Tree, rest: Members)
    ensures Bytes(FlatMembers(Member(name, value, rest)))
         == |Utf8.Encode(name)| + 4 + Bytes(Flat(value)) + (if rest == NoMembers then 0 else Bytes(FlatMembers(rest)))
  {
    hide Utf8.Encode, Bytes;
    TokenBytes(Quoted(name));
    TokenBytes(Colon);
    TokenBytes(Comma);
    TokenBytes(RBrace);
    var after := if rest == NoMembers then [RBrace] else [Comma] + FlatMembers(rest);
    var ts := FlatMembers(Member(name, value, rest));
    assert [Quoted(name), Colon] == [Quoted(name)] + [Colon];
    Associate([Quoted(name)], [Colon], Flat(value) + after);
    BytesAppend([Quoted(name)], [Colon] + (Flat(value) + after));
    BytesAppend([Colon], Flat(value) + after);
    BytesAppend(Flat(value), after);
    if rest != NoMembers {
      BytesAppend([Comma], FlatMembers(rest));
    }
  }

  lemma StringMemberBytes(name: string, body: string, rest: Members)
    requires GoodName(name)
    ensures Bytes(FlatMembers(Member(name, Str(body), rest)))
         == |name| + 6 + |Utf8.Encode(body)| + (if rest == NoMembers then 0 else Bytes(FlatMembers(rest)))
  {
    hide Bytes, Unescape, ToUtf16, GoodBody;
    MemberBytes(name, Str(body), rest);
    TokenBytes(Quoted(body));
  }

  lemma CharBytes(c: char)
    ensures |Utf8.Encode([c])| == |Utf8.EncodeChar(c)|
  {
    assert [c][1..] == [];
  }

  lemma EscapeUnitBytes(u: Unit)
    ensures |Utf8.Encode(EscapeUnit(u))| <= 6
    ensures u >= 0x20 ==>
              |Utf8.Encode(EscapeUnit(u))| <= 2 * (if u < 0x80 then 1 else if u < 0x800 then 2 else 3)
  {
    var s := EscapeUnit(u);
    if |s| == 1 {
      CharBytes(s[0]);
      assert s == [s[0]];
    } else {
      assert Ascii(s);
      AsciiBytes(s);
    }
  }

  lemma {:induction false} AsciiBytes(s: string)
    requires Ascii(s)
    ensures |Utf8.Encode(s)| == |s|
  {
    if s == [] {
    } else {
      AsciiBytes(s[1..]);
    }
  }

  /** Escaping at most doubles the bytes of a text without control characters. */
  lemma {:induction false} EscapeBytes(t: Utf16)
    ensures |Utf8.Encode(Escape(t))| <= 6 * |t|
    ensures (forall i :: 0 <= i < |t| ==> t[i] >= 0x20) ==> |Utf8.Encode(Escape(t))| <= 2 * Utf8Length(t)
  {
    if t == [] {
    } else {
      if StartsWithPair(t) {
        EscapeBytes(t[2..]);
        var c := PairToChar(t[0], t[1]);
        CharBytes(c);
        Utf8.EncodeAppend([c], Escape(t[2..]));
      } else {
        EscapeBytes(t[1..]);
        EscapeUnitBytes(t[0]);
        Utf8.EncodeAppend(EscapeUnit(t[0]), Escape(t[1..]));
      }
    }
  }

  lemma TailBytes(d: Delivery)
    requires |d.token| == 43 && |d.userId| <= 128 && |d.expiresAt| == 24
    ensures Bytes(FlatMembers(TailMembers(d))) <= 20 + 18 + 6 * (43 + 128 + 24)
  {
    hide GoodName, Escape, Bytes, Utf8.Encode;
    Names();
    EscapeBytes(d.token);
    EscapeBytes(d.userId);
    EscapeBytes(d.expiresAt);
    var last := Member("expiresAt", Str(Escape(d.expiresAt)), NoMembers);
    StringMemberBytes("expiresAt", Escape(d.expiresAt), NoMembers);
    StringMemberBytes("userId", Escape(d.userId), last);
    StringMemberBytes("token", Escape(d.token), Member("userId", Str(Escape(d.userId)), last));
  }

  lemma MembersBytes(d: Delivery)
    requires |d.token| == 43 && |d.userId| <= 128 && |d.expiresAt| == 24
    requires EmailAccepted(d.recipientEmail) && Utf8Length(d.recipientEmail) <= 254
    ensures Bytes(FlatMembers(DeliveryMembers(d))) <= 1208 + 52 + 30 + 508
  {
    hide GoodName, Escape, Bytes, Utf8.Encode, DispositionText, PurposeText;
    Names();
    EscapeBytes(d.recipientEmail);
    TailBytes(d);
    NameBytes(d);
    StringMemberBytes("recipientEmail", Escape(d.recipientEmail), TailMembers(d));
    StringMemberBytes("purpose", PurposeText(d.purpose), DeliveryMembers(d).rest.rest);
    StringMemberBytes("disposition", DispositionText(d.disposition), DeliveryMembers(d).rest);
  }

  lemma NameBytes(d: Delivery)
    ensures |Utf8.Encode(DispositionText(d.disposition))| <= 8
    ensures |Utf8.Encode(PurposeText(d.purpose))| <= 14
  {
    DispositionRead(d.disposition);
    PurposeRead(d.purpose);
  }

  /**
    Every accepted delivery, with any time stamp, serializes to at most 2046 bytes, whatever its
    address needs in escapes: the size guard of seal cannot fire.
  */
  lemma SizeGuardUnreachable(calendar: Calendar, d: Delivery, queuedAt: Utf16)
    requires ValidDelivery(calendar, d) && |queuedAt| <= 27
    ensures 1 <= |Payload(d, queuedAt)| <= BLOCK_BYTES - 2
  {
    hide Escape, Bytes, Utf8.Encode, GoodName, DeliveryMembers;
    var tree := PayloadTree(d, queuedAt);
    var last := Member("queuedAt", Str(Escape(queuedAt)), NoMembers);
    var inner := Obj(DeliveryMembers(d));
    Names();
    MembersBytes(d);
    EscapeBytes(queuedAt);
    BytesPrint(Flat(tree));
    StringMemberBytes("queuedAt", Escape(queuedAt), NoMembers);
    MemberBytes("delivery", inner, last);
    GoodNameBytes("delivery");
    TokenBytes(LBrace);
    BytesAppend([LBrace], FlatMembers(tree.members));
    BytesAppend([LBrace], FlatMembers(DeliveryMembers(d)));
    assert Bytes(Flat(inner)) == 1 + Bytes(FlatMembers(DeliveryMembers(d)));
    assert Bytes(Flat(tree)) == 1 + Bytes(FlatMembers(tree.members));
  }

  lemma GoodNameBytes(name: string)
    requires GoodName(name)
    ensures |Utf8.Encode(name)| == |name|
  {
  }

  // ----- Sealing into a buffer -----

  /** seal: random bytes, a big-endian length, the payload over them, encryption, and a wiped buffer. */
  method Seal(codec: Codec, calendar: Calendar, aead: Aead, v: Value, now: int, noise: seq<Byte>, iv: seq<Byte>)
    returns (r: Option<Value>)
    requires codec.Valid() && |noise| == BLOCK_BYTES
    ensures r == SealResult(codec, calendar, aead, v, now, noise, iv)
  {
    hide SealRequest, Payload, Sealed, Aad, IdPattern;
    var request := SealRequest(calendar, v, now);
    if request.None? {
      return None;
    }
    var payload := Payload(request.value, calendar.iso(now));
    if |payload| > BLOCK_BYTES - 2 {
      return None;
    }
    var plaintext := new Byte[BLOCK_BYTES](i requires 0 <= i < BLOCK_BYTES => noise[i]);
    plaintext[0], plaintext[1] := |payload| / 256, |payload| % 256;
    forall i | 0 <= i < |payload| {
      plaintext[i + 2] := payload[i];
    }
    assert plaintext[..] == Block(payload, noise);
    var key := codec.keys[codec.activeKeyId];
    var ciphertext := aead.encrypt(key, iv, Aad(codec.activeKeyId), plaintext[..]);
    r := Some(Sealed(codec.activeKeyId, iv, ciphertext));
    forall i | 0 <= i < BLOCK_BYTES {
      plaintext[i] := 0;
    }
  }

  // ----- Opening what was sealed -----

  lemma EnvelopeKeys()
    ensures |Key("version")| == 7 && |Key("keyId")| == 5 && |Key("iv")| == 2 && |Key("ciphertext")| == 10
  {
    hide GoodName, ToUtf16;
    KeyOfName("version");
    KeyOfName("keyId");
    KeyOfName("iv");
    KeyOfName("ciphertext");
  }

  lemma FourFields<K, V>(a: K, b: K, c: K, d: K, w: V, x: V, y: V, z: V)
    requires a != b && a != c && a != d && b != c && b != d && c != d
    ensures var m := map[a := w, b := x, c := y, d := z];
            |m| == 4 && m[a] == w && m[b] == x && m[c] == y && m[d] == z
  {
    var m := map[a := w, b := x, c := y, d := z];
    assert m.Keys == {a, b, c, d};
  }

  lemma EncodedText(bytes: seq<Byte>)
    ensures AsString(ToUtf16(Base64Url.Encode(bytes))) == Base64Url.Encode(bytes)
    ensures |ToUtf16(Base64Url.Encode(bytes))| == SextetCount(|bytes|)
    ensures AllUrl(Base64Url.Encode(bytes)) && DecodeLoose(Base64Url.Encode(bytes)) == Some(bytes)
  {
    EncodeIs(bytes);
    LooseOfEncode(bytes);
    AsciiUnits(Base64Url.Encode(bytes));
  }

  lemma SealedFields(keyId: Utf16, iv: seq<Byte>, ciphertext: seq<Byte>)
    ensures var v := Sealed(keyId, iv, ciphertext);
            && ObjectWithFields(v, 4, {"version", "keyId", "iv", "ciphertext"})
            && Field(v, "version") == Num("1") && Field(v, "keyId") == String(keyId)
            && Field(v, "iv") == String(ToUtf16(Base64Url.Encode(iv)))
            && Field(v, "ciphertext") == String(ToUtf16(Base64Url.Encode(ciphertext)))
  {
    hide Key, ToUtf16, Base64Url.Encode;
    EnvelopeKeys();
    FourFields(Key("version"), Key("keyId"), Key("iv"), Key("ciphertext"), Num("1"), String(keyId),
      String(ToUtf16(Base64Url.Encode(iv))), String(ToUtf16(Base64Url.Encode(ciphertext))));
  }

  lemma SealedShape(keyId: Utf16, iv: seq<Byte>, ciphertext: seq<Byte>)
    requires IdPattern(keyId, 32) && |iv| == 12 && |ciphertext| == 2064
    ensures EnvelopeShape(Sealed(keyId, iv, ciphertext))
  {
    hide Sealed, ObjectWithFields, Field, ToUtf16, Base64Url.Encode, DecodeLoose, IdPattern, AllUrl;
    SealedFields(keyId, iv, ciphertext);
    EncodedText(iv);
    EncodedText(ciphertext);
  }

  /** An opener with the sealing key recovers the block of any envelope. */
  lemma OpenSealedBlock(codec: Codec, calendar: Calendar, aead: Aead, keyId: Utf16, iv: seq<Byte>, block: seq<Byte>)
    requires aead.Lawful() && IdPattern(keyId, 32) && keyId in codec.keys && |iv| == 12 && |block| == BLOCK_BYTES
    ensures Open(codec, calendar, aead, Sealed(keyId, iv, aead.encrypt(codec.keys[keyId], iv, Aad(keyId), block)))
         == OpenBlock(calendar, block)
  {
    hide Sealed, ObjectWithFields, Field, ToUtf16, Base64Url.Encode, DecodeLoose, IdPattern, AllUrl, EnvelopeShape,
      OpenBlock, Aad;
    var ciphertext := aead.encrypt(codec.keys[keyId], iv, Aad(keyId), block);
    assert |ciphertext| == 2064;
    SealedShape(keyId, iv, ciphertext);
    SealedFields(keyId, iv, ciphertext);
    EncodedText(iv);
    EncodedText(ciphertext);
  }

  lemma SealRequestFacts(calendar: Calendar, v: Value, now: int)
    requires calendar.Lawful()
    ensures SealRequest(calendar, v, now).Some? ==>
              var d := SealRequest(calendar, v, now).value;
              && ParseDelivery(calendar, v) == Some(d) && ValidDelivery(calendar, d) && InRange(now)
              && InWindow(calendar, d, calendar.iso(now)) && now < LAST_FOUR_DIGIT
              && |calendar.iso(now)| <= 27
  {
    hide ValidDelivery;
    if SealRequest(calendar, v, now).Some? {
      var d := SealRequest(calendar, v, now).value;
      ExpiryFourDigit(calendar, d);
      assert calendar.parse(calendar.iso(now)) == Some(now);
    }
  }

  lemma ExpiryFourDigit(calendar: Calendar, d: Delivery)
    requires calendar.Lawful() && ValidDelivery(calendar, d)
    ensures calendar.parse(d.expiresAt).Some? && FourDigit(calendar.parse(d.expiresAt).value)
  {
    var ms := calendar.parse(d.expiresAt).value;
    assert |calendar.iso(ms)| == 24;
  }

  /**
    A sealed mail opens, under any key set that still holds the sealing key, to the delivery that
    was sealed, queued at the sealing time; and it opens so exactly when that time has a year the
    24-character stamp can write. Before the year 0 the seal succeeds and the opener refuses it.
  */
  lemma OpenSealed(sealer: Codec, opener: Codec, calendar: Calendar, aead: Aead, v: Value, now: int,
                   noise: seq<Byte>, iv: seq<Byte>)
    requires calendar.Lawful() && aead.Lawful() && sealer.Valid() && |noise| == BLOCK_BYTES && |iv| == 12
    requires sealer.activeKeyId in opener.keys
    requires opener.keys[sealer.activeKeyId] == sealer.keys[sealer.activeKeyId]
    ensures SealResult(sealer, calendar, aead, v, now, noise, iv).Some? <==> SealRequest(calendar, v, now).Some?
    ensures SealResult(sealer, calendar, aead, v, now, noise, iv).Some? ==>
              var envelope := SealResult(sealer, calendar, aead, v, now, noise, iv).value;
              && ParseDelivery(calendar, v).Some?
              && Open(opener, calendar, aead, envelope)
                 == if now >= FIRST_FOUR_DIGIT
                    then Decoded(ParseDelivery(calendar, v).value, calendar.iso(now))
                    else Invalid
  {
    hide ValidDelivery, InWindow, Sealed, Block, Payload, ParseDelivery, OpenBlock, OpenPayload, EnvelopeShape, Aad;
    SealRequestFacts(calendar, v, now);
    if SealRequest(calendar, v, now).Some? {
      var d, queuedAt := SealRequest(calendar, v, now).value, calendar.iso(now);
      SizeGuardUnreachable(calendar, d, queuedAt);
      OpenSealedBlock(opener, calendar, aead, sealer.activeKeyId, iv, Block(Payload(d, queuedAt), noise));
      OpenPayloadBlock(calendar, d, queuedAt, noise);
      OpenSerialized(calendar, d, now);
    }
  }

  /** Without a key of its name, an envelope has an unknown key, whoever sealed it. */
  lemma OpenWithoutKey(sealer: Codec, opener: Codec, calendar: Calendar, aead: Aead, v: Value, now: int,
                       noise: seq<Byte>, iv: seq<Byte>)
    requires aead.Lawful() && sealer.Valid() && |noise| == BLOCK_BYTES && |iv| == 12
    requires sealer.activeKeyId !in opener.keys
    ensures SealResult(sealer, calendar, aead, v, now, noise, iv).Some? ==>
              Open(opener, calendar, aead, SealResult(sealer, calendar, aead, v, now, noise, iv).value) == UnknownKey
  {
    hide Sealed, ObjectWithFields, EnvelopeShape, Field, IdPattern, Payload, Aad, SealRequest;
    if SealResult(sealer, calendar, aead, v, now, noise, iv).Some? {
      var d, key := SealRequest(calendar, v, now).value, sealer.keys[sealer.activeKeyId];
      var block := Block(Payload(d, calendar.iso(now)), noise);
      var ciphertext := aead.encrypt(key, iv, Aad(sealer.activeKeyId), block);
      assert |ciphertext| == 2064;
      SealedShape(sealer.activeKeyId, iv, ciphertext);
      SealedFields(sealer.activeKeyId, iv, ciphertext);
    }
  }

  lemma OpenSerialized(calendar: Calendar, d: Delivery, now: int)
    requires calendar.Lawful() && InRange(now) && now < LAST_FOUR_DIGIT
    requires ValidDelivery(calendar, d) && InWindow(calendar, d, calendar.iso(now))
    ensures OpenPayload(calendar, ToValue(PayloadTree(d, calendar.iso(now))))
         == if now >= FIRST_FOUR_DIGIT then Decoded(d, calendar.iso(now)) else Invalid
  {
    hide ValidDelivery, InWindow, ToValue, PayloadTree, DeliveryMembers, ObjectWithFields, Field, ParseDelivery;
    PayloadFields(d, calendar.iso(now));
    ParseSerialized(calendar, d);
    assert calendar.parse(calendar.iso(now)) == Some(now);
  }

  /** A delivery to a@b that expires at the first instant of the year 0. */
  function FirstInstant(calendar: Calendar): Delivery {
    Delivery(Deliver, EmailVerify, [0x61, 0x40, 0x62], ToUtf16(Repeat('A', 43)), [0x75], calendar.iso(FIRST_FOUR_DIGIT))
  }

  lemma FirstInstantValid(calendar: Calendar)
    requires calendar.Lawful()
    ensures ValidDelivery(calendar, FirstInstant(calendar))
  {
    hide EmailAccepted, Utf8Length, ToUtf16, Repeat;
    var d := FirstInstant(calendar);
    ShortEmail();
    AsciiUnits(Repeat('A', 43));
    assert TokenPattern(Repeat('A', 43));
    assert AsString([0x75]) == ['u'];
    assert calendar.parse(calendar.iso(FIRST_FOUR_DIGIT)) == Some(FIRST_FOUR_DIGIT);
  }

  lemma ShortEmail()
    ensures EmailAccepted([0x61, 0x40, 0x62]) && Utf8Length([0x61, 0x40, 0x62]) <= 254
  {
    var e := [0x61, 0x40, 0x62];
    assert e[1..] == [0x40, 0x62] && e[1..][1..] == [0x62] && e[1..][1..][1..] == [];
    assert CountUnit(e, 0x40) == 1;
  }

  lemma FirstInstantWindow(calendar: Calendar)
    requires calendar.Lawful()
    ensures InWindow(calendar, FirstInstant(calendar), calendar.iso(FIRST_FOUR_DIGIT - 1))
  {
    hide ToUtf16;
    var now := FIRST_FOUR_DIGIT - 1;
    assert calendar.parse(calendar.iso(now)) == Some(now);
    var latest := now + TokenTtl(EmailVerify);
    assert calendar.parse(calendar.iso(latest)) == Some(latest);
  }

  /** The year 0 gap is real: a mail that expires at its first instant, sealed a millisecond before. */
  lemma SealBeforeYearZero(codec: Codec, calendar: Calendar, aead: Aead, noise: seq<Byte>, iv: seq<Byte>)
    requires calendar.Lawful() && aead.Lawful() && codec.Valid() && |noise| == BLOCK_BYTES && |iv| == 12
    ensures var v := ToValue(Obj(DeliveryMembers(FirstInstant(calendar))));
            var sealed := SealResult(codec, calendar, aead, v, FIRST_FOUR_DIGIT - 1, noise, iv);
            sealed.Some? && Open(codec, calendar, aead, sealed.value) == Invalid
  {
    hide ValidDelivery, InWindow, DeliveryMembers, ToValue, SealResult, Open, FirstInstant, ParseDelivery;
    FirstInstantValid(calendar);
    FirstInstantWindow(calendar);
    var d := FirstInstant(calendar);
    ParseSerialized(calendar, d);
    OpenSealed(codec, codec, calendar, aead, ToValue(Obj(DeliveryMembers(d))), FIRST_FOUR_DIGIT - 1, noise, iv);
  }

  // ----- Which values are deliveries, requests and envelopes -----

  /** The lifetimes of tokens: a day to verify an address, a quarter of an hour for anything else. */
  function Lifetime(p: Purpose): int {
    if p == EmailVerify then 86_400_000 else 900_000
  }

  function DispositionName(d: Disposition): string {
    if d == Deliver then "deliver" else "suppress"
  }

  function PurposeName(p: Purpose): string {
    if p == EmailVerify then "email_verify" else if p == EmailChange then "email_change" else "account_delete"
  }

  function SixFieldsOf(disposition: Value, purpose: Value, email: Value, token: Value, userId: Value,
                       expiresAt: Value): map<Utf16, Value> {
    map[Key("disposition") := disposition, Key("purpose") := purpose, Key("recipientEmail") := email,
        Key("token") := token, Key("userId") := userId, Key("expiresAt") := expiresAt]
  }

  function DeliveryFieldsOf(d: Delivery): map<Utf16, Value> {
    SixFieldsOf(String(Key(DispositionName(d.disposition))), String(Key(PurposeName(d.purpose))),
      String(d.recipientEmail), String(d.token), String(d.userId), String(d.expiresAt))
  }

  lemma ExactlySix<K, V>(m: map<K, V>, a: K, b: K, c: K, d: K, e: K, f: K, u: V, v: V, w: V, x: V, y: V, z: V)
    requires a != b && a != c && a != d && a != e && a != f && b != c && b != d && b != e && b != f
    requires c != d && c != e && c != f && d != e && d != f && e != f
    ensures m == map[a := u, b := v, c := w, d := x, e := y, f := z] <==>
              && |m| == 6 && a in m && b in m && c in m && d in m && e in m && f in m
              && m[a] == u && m[b] == v && m[c] == w && m[d] == x && m[e] == y && m[f] == z
  {
    var keys, all := {a, b, c, d, e, f}, map[a := u, b := v, c := w, d := x, e := y, f := z];
    assert |keys| == 6 && all.Keys == keys;
    if |m| == 6 && keys <= m.Keys {
      SameSize(keys, m.Keys);
      if m[a] == u && m[b] == v && m[c] == w && m[d] == x && m[e] == y && m[f] == z {
        assert m == all;
      }
    }
  }

  lemma ExactlyFour<K, V>(m: map<K, V>, a: K, b: K, c: K, d: K)
    requires a != b && a != c && a != d && b != c && b != d && c != d
    ensures |m| == 4 && a in m && b in m && c in m && d in m <==> m.Keys == {a, b, c, d}
  {
    var keys := {a, b, c, d};
    assert |keys| == 4;
    if |m| == 4 && keys <= m.Keys {
      SameSize(keys, m.Keys);
    }
  }

  lemma ExactlyTwo<K, V>(m: map<K, V>, a: K, b: K, x: V, y: V)
    requires a != b
    ensures m == map[a := x, b := y] <==> |m| == 2 && a in m && b in m && m[a] == x && m[b] == y
  {
    var keys, all := {a, b}, map[a := x, b := y];
    assert |keys| == 2 && all.Keys == keys;
    if |m| == 2 && keys <= m.Keys {
      SameSize(keys, m.Keys);
      if m[a] == x && m[b] == y {
        assert m == all;
      }
    }
  }

  lemma SameSize<T>(some: set<T>, all: set<T>)
    requires some <= all && |some| == |all|
    ensures some == all
  {
    assert all == some + (all - some);
    assert |all - some| == 0;
  }

  /** Six fields and no other are looked up to what the object holds. */
  lemma SixFieldsIff(v: Value, disposition: Value, purpose: Value, email: Value, token: Value, userId: Value,
                     expiresAt: Value)
    ensures v == Object(SixFieldsOf(disposition, purpose, email, token, userId, expiresAt)) <==>
              && ObjectWithFields(v, 6, {"disposition", "purpose", "recipientEmail", "token", "userId", "expiresAt"})
              && Field(v, "disposition") == disposition && Field(v, "purpose") == purpose
              && Field(v, "recipientEmail") == email && Field(v, "token") == token
              && Field(v, "userId") == userId && Field(v, "expiresAt") == expiresAt
  {
    KeyLengths();
    hide Key, Field, ObjectWithFields;
    FieldsAre(v);
    SixPresent(v);
    if v.Object? {
      ExactlySix(v.fields, Key("disposition"), Key("purpose"), Key("recipientEmail"), Key("token"), Key("userId"),
        Key("expiresAt"), disposition, purpose, email, token, userId, expiresAt);
    }
  }

  lemma SixPresent(v: Value)
    ensures ObjectWithFields(v, 6, {"disposition", "purpose", "recipientEmail", "token", "userId", "expiresAt"}) <==>
              && v.Object? && |v.fields| == 6
              && Key("disposition") in v.fields && Key("purpose") in v.fields && Key("recipientEmail") in v.fields
              && Key("token") in v.fields && Key("userId") in v.fields && Key("expiresAt") in v.fields
  {
    hide Key;
  }

  lemma FieldsAre(v: Value)
    ensures forall name :: v.Object? && Key(name) in v.fields ==> Field(v, name) == v.fields[Key(name)]
  {
  }

  lemma NamesRead(v: Value, d: Disposition, p: Purpose)
    ensures ReadDisposition(v) == Some(d) <==> v == String(Key(DispositionName(d)))
    ensures ReadPurpose(v) == Some(p) <==> v == String(Key(PurposeName(p)))
  {
    PurposesDiffer();
    hide ToUtf16;
  }

  /** A value is read as a delivery exactly when it has those six fields and no other, all acceptable. */
  lemma DeliveryIff(calendar: Calendar, v: Value, d: Delivery)
    ensures ParseDelivery(calendar, v) == Some(d) <==> v == Object(DeliveryFieldsOf(d)) && ValidDelivery(calendar, d)
  {
    hide Key, ValidDelivery, SixFieldsOf, ObjectWithFields, Field, ReadDisposition, ReadPurpose, DispositionName,
      PurposeName;
    NamesRead(Field(v, "disposition"), d.disposition, d.purpose);
    NamesRead(Field(v, "purpose"), d.disposition, d.purpose);
    SixFieldsIff(v, String(Key(DispositionName(d.disposition))), String(Key(PurposeName(d.purpose))),
      String(d.recipientEmail), String(d.token), String(d.userId), String(d.expiresAt));
  }

  lemma PurposesDiffer()
    ensures Key("deliver") != Key("suppress")
    ensures Key("email_verify") != Key("email_change") && Key("email_verify") != Key("account_delete")
    ensures Key("email_change") != Key("account_delete")
  {
    hide GoodName, ToUtf16;
    KeyOfName("deliver");
    KeyOfName("suppress");
    KeyOfName("email_verify");
    KeyOfName("email_change");
    KeyOfName("account_delete");
    assert Key("email_verify")[6] == 'v' as int && Key("email_change")[6] == 'c' as int;
  }

  /** A mail is queued before its expiry, and at most the lifetime of its purpose before it. */
  lemma WindowIff(calendar: Calendar, d: Delivery, queuedAt: Utf16)
    requires calendar.Lawful() && ValidDelivery(calendar, d)
    ensures InWindow(calendar, d, queuedAt) <==>
              && calendar.parse(queuedAt).Some?
              && var now, expiry := calendar.parse(queuedAt).value, calendar.parse(d.expiresAt).value;
                 now < expiry <= now + Lifetime(d.purpose)
  {
    hide EmailAccepted, Utf8Length, TokenPattern, IdPattern, AsString;
    ExpiryFourDigit(calendar, d);
    if calendar.parse(queuedAt).Some? {
      var latest := calendar.parse(queuedAt).value + Lifetime(d.purpose);
      assert InRange(latest) ==> calendar.parse(calendar.iso(latest)) == Some(latest);
    }
  }

  /** A request is sealed exactly when it is a delivery in its window; no other time is refused. */
  lemma SealIff(calendar: Calendar, v: Value, now: int, d: Delivery)
    requires calendar.Lawful()
    ensures SealRequest(calendar, v, now) == Some(d) <==>
              && v == Object(DeliveryFieldsOf(d)) && ValidDelivery(calendar, d)
              && now < calendar.parse(d.expiresAt).value <= now + Lifetime(d.purpose)
  {
    hide InWindow, ParseDelivery, ValidDelivery, DeliveryFieldsOf;
    DeliveryIff(calendar, v, d);
    if ValidDelivery(calendar, d) {
      ExpiryFourDigit(calendar, d);
      if InRange(now) {
        WindowIff(calendar, d, calendar.iso(now));
        assert calendar.parse(calendar.iso(now)) == Some(now);
      }
    }
  }

  /** A delivery minted at some time, with the expiry of its purpose, is sealed from then until it expires. */
  lemma MintedIsSealed(calendar: Calendar, d: Delivery, minted: int, now: int)
    requires calendar.Lawful() && InRange(minted) && ValidDelivery(calendar, d)
    requires TokenExpiresAt(calendar, d.purpose, calendar.iso(minted)) == Some(d.expiresAt)
    ensures SealRequest(calendar, Object(DeliveryFieldsOf(d)), now) == Some(d)
       <==> minted <= now < minted + Lifetime(d.purpose)
  {
    hide ValidDelivery, SealRequest, DeliveryFieldsOf;
    SealIff(calendar, Object(DeliveryFieldsOf(d)), now, d);
    var expiry := minted + Lifetime(d.purpose);
    assert calendar.parse(calendar.iso(minted)) == Some(minted);
    assert InRange(expiry) ==> calendar.parse(calendar.iso(expiry)) == Some(expiry);
  }

  // ----- What the checks on a delivery's texts accept -----

  ghost predicate AddressPart(t: Utf16) {
    t != [] && forall u :: u in t ==> u != 0x40 && !IsSpaceUnit(u) && !IsControlUnit(u)
  }

  /** Two parts around one @, neither empty, of at most 256 units. */
  ghost predicate Address(t: Utf16) {
    |t| <= 256 && exists local, domain :: AddressPart(local) && AddressPart(domain) && t == local + [0x40] + domain
  }

  lemma {:induction false} CountAppend(a: Utf16, b: Utf16, u: Unit)
    ensures CountUnit(a + b, u) == CountUnit(a, u) + CountUnit(b, u)
  {
    if a == [] {
      AppendNothing(b);
    } else {
      CountAppend(a[1..], b, u);
      Uncons(a);
      Associate([a[0]], a[1..], b);
      Rest(a[0], a[1..] + b);
    }
  }

  lemma {:induction false} CountNone(t: Utf16, u: Unit)
    ensures CountUnit(t, u) == 0 <==> u !in t
  {
    if t == [] {
    } else {
      CountNone(t[1..], u);
      Uncons(t);
    }
  }

  /** One occurrence parts a text. */
  lemma CountParts(local: Utf16, domain: Utf16, u: Unit)
    ensures CountUnit(local + [u] + domain, u) == 1 <==> u !in local && u !in domain
  {
    CountAppend(local + [u], domain, u);
    CountAppend(local, [u], u);
    CountNone(local, u);
    CountNone(domain, u);
  }

  lemma AddressIff(t: Utf16)
    ensures EmailAccepted(t) <==> Address(t)
  {
    hide CountUnit, IsSpaceUnit, IsControlUnit;
    if EmailAccepted(t) {
      CountNone(t, 0x40);
      var i :| 0 <= i < |t| && t[i] == 0x40;
      var local, domain := t[..i], t[i + 1..];
      assert t == local + [0x40] + domain;
      CountParts(local, domain, 0x40);
      assert AddressPart(local) && AddressPart(domain);
    }
    forall local, domain | AddressPart(local) && AddressPart(domain) && t == local + [0x40] + domain && |t| <= 256
      ensures EmailAccepted(t)
    {
      CountParts(local, domain, 0x40);
      SignPlain();
      assert forall i :: 0 <= i < |t| ==> t[i] in local || t[i] == 0x40 || t[i] in domain;
      assert t[0] == local[0] && t[|t| - 1] == domain[|domain| - 1];
    }
  }

  lemma SignPlain()
    ensures !IsSpaceUnit(0x40) && !IsControlUnit(0x40)
  {
  }

  /** On a text without lone surrogates the byte count is that of its encoding. */
  lemma {:induction false} Utf8LengthIs(s: string)
    ensures Utf8Length(ToUtf16(s)) == |Utf8.Encode(s)|
  {
    if s == [] {
    } else {
      Utf8LengthIs(s[1..]);
      var u, rest := UnitsOf(s[0]), ToUtf16(s[1..]);
      if |u| == 2 {
        assert (u + rest)[2..] == rest;
      } else {
        assert (u + rest)[1..] == rest;
      }
    }
  }

  /** The encoding of 32 bytes. */
  ghost predicate IsToken(t: Utf16) {
    exists bytes :: |bytes| == 32 && t == ToUtf16(Base64Url.Encode(bytes))
  }

  lemma TokenIff(t: Utf16)
    ensures TokenPattern(AsString(t)) <==> IsToken(t)
  {
    hide AllUrl, Base64Url.Encode, ToUtf16, AsString;
    TokenPatternIff(AsString(t));
    if TokenPattern(AsString(t)) {
      UrlUnits(t);
    }
    forall bytes | |bytes| == 32 && t == ToUtf16(Base64Url.Encode(bytes))
      ensures TokenPattern(AsString(t))
    {
      EncodedText(bytes);
    }
  }

  /** The text of a time with a year of four digits. */
  ghost predicate IsTimestamp(calendar: Calendar, t: Utf16) {
    exists ms :: FIRST_FOUR_DIGIT <= ms <= LAST_FOUR_DIGIT && t == calendar.iso(ms)
  }

  lemma TimestampIff(calendar: Calendar, t: Utf16)
    requires calendar.Lawful()
    ensures CanonicalTimestamp(calendar, String(t)) <==> IsTimestamp(calendar, t)
  {
    if CanonicalTimestamp(calendar, String(t)) {
      var ms := calendar.parse(t).value;
      assert t == calendar.iso(ms) && |calendar.iso(ms)| == 24;
    }
  }

  /** Which deliveries are valid, text by text. */
  lemma ValidIff(calendar: Calendar, d: Delivery)
    requires calendar.Lawful()
    ensures ValidDelivery(calendar, d) <==>
              && Address(d.recipientEmail) && Utf8Length(d.recipientEmail) <= 254
              && IsToken(d.token)
              && 1 <= |d.userId| <= 128 && (forall c :: c in AsString(d.userId) ==> IsUrlChar(c))
              && IsTimestamp(calendar, d.expiresAt)
  {
    hide EmailAccepted, Address, TokenPattern, IsToken, CanonicalTimestamp, IsTimestamp, AsString, Utf8Length;
    AddressIff(d.recipientEmail);
    TokenIff(d.token);
    TimestampIff(calendar, d.expiresAt);
  }

  lemma UrlUnits(t: Utf16)
    requires AllUrl(AsString(t))
    ensures ToUtf16(AsString(t)) == t
  {
    var s := AsString(t);
    forall i | 0 <= i < |t|
      ensures s[i] as int == t[i] < 0x80
    {
      assert IsUrlChar(s[i]);
    }
    AsciiUnits(s);
  }

  lemma WholeIsCanonical(s: seq<Sextet>)
    requires |s| % 4 == 0
    ensures CanonicalTail(s) && 6 * |s| / 8 == |s| / 4 * 3
  {
  }

  /** A text of whole groups of four characters is the encoding of its bytes. */
  lemma WholeGroups(t: Utf16)
    requires AllUrl(AsString(t)) && |t| % 4 == 0
    ensures exists bytes :: |bytes| == |t| / 4 * 3 && t == ToUtf16(Base64Url.Encode(bytes))
  {
    hide AllUrl, AsString, ToUtf16, BytesOf, Base64Url.Encode;
    var value := AsString(t);
    var s := Sextets(ToStandard(value));
    UrlUnits(t);
    EncodingIff(value);
    SpreadBytesOf(s);
    WholeIsCanonical(s);
    hide CanonicalTail;
    assert |BytesOf(s)| == |t| / 4 * 3 && t == ToUtf16(Base64Url.Encode(BytesOf(s)));
  }

  ghost predicate IsSealed(v: Value, keyId: Utf16, iv: seq<Byte>, ciphertext: seq<Byte>) {
    && IdPattern(keyId, 32) && |iv| == 12 && |ciphertext| == 2064
    && v == Object(map[
         Key("version") := Num("1"), Key("keyId") := String(keyId),
         Key("iv") := String(ToUtf16(Base64Url.Encode(iv))),
         Key("ciphertext") := String(ToUtf16(Base64Url.Encode(ciphertext)))])
  }

  /** The shape checks pass exactly what sealing writes for some key id, twelve bytes and 2064 bytes. */
  lemma EnvelopeIff(v: Value)
    ensures EnvelopeShape(v) <==> exists keyId, iv, ciphertext :: IsSealed(v, keyId, iv, ciphertext)
  {
    hide IdPattern, AllUrl, AsString, ToUtf16, Base64Url.Encode;
    if EnvelopeShape(v) {
      hide Sealed, ObjectWithFields, Field;
      WholeGroups(Field(v, "iv").units);
      WholeGroups(Field(v, "ciphertext").units);
      var iv :| |iv| == 12 && Field(v, "iv").units == ToUtf16(Base64Url.Encode(iv));
      var ciphertext :| |ciphertext| == 2064 && Field(v, "ciphertext").units == ToUtf16(Base64Url.Encode(ciphertext));
      SealedIs(v, iv, ciphertext);
      assert IsSealed(v, Field(v, "keyId").units, iv, ciphertext);
    }
    forall keyId, iv, ciphertext | IsSealed(v, keyId, iv, ciphertext)
      ensures EnvelopeShape(v)
    {
      SealedShape(keyId, iv, ciphertext);
    }
  }

  lemma SealedIs(v: Value, iv: seq<Byte>, ciphertext: seq<Byte>)
    requires ObjectWithFields(v, 4, {"version", "keyId", "iv", "ciphertext"})
    requires Field(v, "version") == Num("1") && Field(v, "keyId").String?
    requires Field(v, "iv") == String(ToUtf16(Base64Url.Encode(iv)))
    requires Field(v, "ciphertext") == String(ToUtf16(Base64Url.Encode(ciphertext)))
    ensures v == Sealed(Field(v, "keyId").units, iv, ciphertext)
  {
    hide ToUtf16, Key, Base64Url.Encode;
    EnvelopeKeys();
    ExactlyFour(v.fields, Key("version"), Key("keyId"), Key("iv"), Key("ciphertext"));
    assert v.fields == Sealed(Field(v, "keyId").units, iv, ciphertext).fields;
  }

  lemma SealedValue(v: Value, keyId: Utf16, iv: seq<Byte>, ciphertext: seq<Byte>)
    ensures IsSealed(v, keyId, iv, ciphertext) ==>
              v == Sealed(keyId, iv, ciphertext) && IdPattern(keyId, 32) && |iv| == 12 && |ciphertext| == 2064
  {
  }

  /** What becomes of an envelope: its key is missing, it does not decrypt, or its block is read. */
  lemma OpenIs(codec: Codec, calendar: Calendar, aead: Aead, v: Value, keyId: Utf16, iv: seq<Byte>,
               ciphertext: seq<Byte>)
    ensures IsSealed(v, keyId, iv, ciphertext) ==>
              Open(codec, calendar, aead, v) ==
              if keyId !in codec.keys then UnknownKey
              else
                match aead.decrypt(codec.keys[keyId], iv, Aad(keyId), ciphertext)
                case None => Unreadable
                case Some(plaintext) => OpenBlock(calendar, plaintext)
  {
    hide Sealed, ObjectWithFields, Field, ToUtf16, Base64Url.Encode, DecodeLoose, IdPattern, AllUrl, EnvelopeShape,
      OpenBlock, Aad, IsSealed;
    SealedValue(v, keyId, iv, ciphertext);
    if IsSealed(v, keyId, iv, ciphertext) {
      SealedShape(keyId, iv, ciphertext);
      SealedFields(keyId, iv, ciphertext);
      EncodedText(iv);
      EncodedText(ciphertext);
    }
  }

  ghost function PayloadFieldsOf(delivery: Value, queuedAt: Utf16): map<Utf16, Value> {
    map[Key("delivery") := delivery, Key("queuedAt") := String(queuedAt)]
  }

  /** A payload of exactly a delivery and the time it was queued at, a canonical one in its window. */
  ghost predicate IsPayload(calendar: Calendar, v: Value, d: Delivery, queuedAt: Utf16) {
    && v == Object(PayloadFieldsOf(Object(DeliveryFieldsOf(d)), queuedAt))
    && ValidDelivery(calendar, d) && CanonicalTimestamp(calendar, String(queuedAt))
    && var now, expiry := calendar.parse(queuedAt).value, calendar.parse(d.expiresAt).value;
       now < expiry <= now + Lifetime(d.purpose)
  }

  lemma TwoFieldsIff(v: Value, delivery: Value, queuedAt: Utf16)
    ensures v == Object(PayloadFieldsOf(delivery, queuedAt)) <==>
              && ObjectWithFields(v, 2, {"delivery", "queuedAt"})
              && Field(v, "delivery") == delivery && Field(v, "queuedAt") == String(queuedAt)
  {
    hide Key, GoodName;
    OuterNames();
    if v.Object? {
      ExactlyTwo(v.fields, Key("delivery"), Key("queuedAt"), delivery, String(queuedAt));
    }
  }

  lemma PayloadIff(calendar: Calendar, v: Value, d: Delivery, queuedAt: Utf16)
    requires calendar.Lawful()
    ensures OpenPayload(calendar, v) == Decoded(d, queuedAt) <==> IsPayload(calendar, v, d, queuedAt)
    ensures OpenPayload(calendar, v).Decoded? || OpenPayload(calendar, v).Invalid?
  {
    hide Key, ValidDelivery, InWindow, ParseDelivery, DeliveryFieldsOf, PayloadFieldsOf, ObjectWithFields, Field;
    DeliveryIff(calendar, Field(v, "delivery"), d);
    TwoFieldsIff(v, Object(DeliveryFieldsOf(d)), queuedAt);
    if ValidDelivery(calendar, d) {
      WindowIff(calendar, d, queuedAt);
      ExpiryFourDigit(calendar, d);
    }
  }

  /** A block of 2048 bytes whose first two count the payload after them, which is JSON in UTF-8. */
  ghost predicate IsBlock(calendar: Calendar, block: seq<Byte>, d: Delivery, queuedAt: Utf16) {
    && |block| == 2048
    && var length := block[0] as nat * 256 + block[1] as nat;
       && 1 <= length <= 2046
       && exists text, tree ::
            && Utf8.Spells(block[2..length + 2], text) && JsonSpelling.Denotes(text, tree)
            && IsPayload(calendar, ToValue(tree), d, queuedAt)
  }

  lemma BlockIff(calendar: Calendar, block: seq<Byte>, d: Delivery, queuedAt: Utf16)
    requires calendar.Lawful()
    ensures OpenBlock(calendar, block) == Decoded(d, queuedAt) <==> IsBlock(calendar, block, d, queuedAt)
    ensures OpenBlock(calendar, block).Decoded? || OpenBlock(calendar, block).Invalid?
  {
    hide Parse, ToValue, OpenPayload, IsPayload, Utf8.DecodeText, Utf8.Spells, JsonSpelling.Denotes;
    if |block| == 2048 && 1 <= block[0] as nat * 256 + block[1] as nat <= 2046 {
      var bytes := block[2..block[0] as nat * 256 + block[1] as nat + 2];
      forall text, tree
        ensures Utf8.Spells(bytes, text) <==> Utf8.DecodeText(bytes) == Some(text)
        ensures JsonSpelling.Denotes(text, tree) <==> Parse(text) == Some(tree)
        ensures OpenPayload(calendar, ToValue(tree)) == Decoded(d, queuedAt)
           <==> IsPayload(calendar, ToValue(tree), d, queuedAt)
        ensures OpenPayload(calendar, ToValue(tree)).Decoded? || OpenPayload(calendar, ToValue(tree)).Invalid?
      {
        Utf8.TextIff(bytes, text);
        JsonSpelling.JsonIff(text, tree);
        PayloadIff(calendar, ToValue(tree), d, queuedAt);
      }
    }
  }

  /** Everything an opener accepts: what some key it holds sealed, or might have, around such a block. */
  lemma OpenIff(codec: Codec, calendar: Calendar, aead: Aead, v: Value, d: Delivery, queuedAt: Utf16)
    requires calendar.Lawful()
    ensures Open(codec, calendar, aead, v) == Decoded(d, queuedAt) <==>
              exists keyId, iv, ciphertext ::
                && IsSealed(v, keyId, iv, ciphertext) && keyId in codec.keys
                && var context := Utf8.Encode("honowarden:account-lifecycle-mail:v1:" + AsString(keyId));
                   var block := aead.decrypt(codec.keys[keyId], iv, context, ciphertext);
                   block.Some? && IsBlock(calendar, block.value, d, queuedAt)
  {
    hide Open, OpenBlock, IsSealed, IsBlock, EnvelopeShape;
    EnvelopeIff(v);
    ShapelessInvalid(codec, calendar, aead, v);
    forall keyId, iv, ciphertext | IsSealed(v, keyId, iv, ciphertext)
      ensures Open(codec, calendar, aead, v) == Decoded(d, queuedAt) <==>
                && keyId in codec.keys
                && var block := aead.decrypt(codec.keys[keyId], iv, Aad(keyId), ciphertext);
                   block.Some? && IsBlock(calendar, block.value, d, queuedAt)
    {
      OpenIs(codec, calendar, aead, v, keyId, iv, ciphertext);
      if keyId in codec.keys {
        var block := aead.decrypt(codec.keys[keyId], iv, Aad(keyId), ciphertext);
        if block.Some? {
          BlockIff(calendar, block.value, d, queuedAt);
        }
      }
    }
  }

  lemma ShapelessInvalid(codec: Codec, calendar: Calendar, aead: Aead, v: Value)
    ensures !EnvelopeShape(v) ==> Open(codec, calendar, aead, v) == Invalid
  {
    hide EnvelopeShape;
  }

  // ----- The key set -----

  /** One entry of the key configuration. */
  predicate KeyEntry(keyId: Utf16, material: Value) {
    IdPattern(keyId, 32) && material.String? && TokenPattern(AsString(material.units))
  }

  /** The configured keys, or None where the configuration is refused. */
  ghost predicate KeysConfigured(activeKeyId: Utf16, keysJson: string, fields: map<Utf16, Value>) {
    && IdPattern(activeKeyId, 32) && |ToUtf16(keysJson)| <= 512
    && Parse(keysJson).Some? && ToValue(Parse(keysJson).value) == Object(fields)
    && 1 <= |fields| <= 3 && (forall k :: k in fields ==> KeyEntry(k, fields[k]))
    && activeKeyId in fields
  }

  /** readKeys: its own re-encoding guard never refuses a key the pattern let through. */
  method ReadKeys(activeKeyId: Utf16, keysJson: string) returns (r: Option<Codec>)
    ensures r.Some? <==> exists fields :: KeysConfigured(activeKeyId, keysJson, fields)
    ensures r.Some? ==> r.value.Valid() && r.value.activeKeyId == activeKeyId
    ensures r.Some? ==>
              var fields := ToValue(Parse(keysJson).value).fields;
              && r.value.keys.Keys == fields.Keys
              && forall k :: k in fields ==>
                   && |r.value.keys[k]| == 32
                   && AsString(fields[k].units) == Base64Url.Encode(r.value.keys[k])
  {
    hide IdPattern, TokenPattern, Base64Url.Encode, DecodeLoose, ToValue, AsString, Parse, ToUtf16;
    r := None;
    if !IdPattern(activeKeyId, 32) || |ToUtf16(keysJson)| > 512 {
      return;
    }
    var parsed := Parse(keysJson);
    if parsed.None? || !ToValue(parsed.value).Object? {
      return;
    }
    var entries := ToValue(parsed.value).fields;
    assert forall fields :: KeysConfigured(activeKeyId, keysJson, fields) ==> fields == entries;
    if |entries| < 1 || |entries| > 3 {
      return;
    }
    var keys: map<Utf16, seq<Byte>>, rest := map[], entries.Keys;
    while rest != {}
      invariant rest <= entries.Keys && keys.Keys == entries.Keys - rest
      invariant forall k :: k in keys ==>
                  && KeyEntry(k, entries[k]) && |keys[k]| == 32
                  && AsString(entries[k].units) == Base64Url.Encode(keys[k])
      decreases rest
    {
      var keyId :| keyId in rest;
      rest := rest - {keyId};
      var material := entries[keyId];
      if !KeyEntry(keyId, material) {
        return;
      }
      TokenPatternIff(AsString(material.units));
      var decoded := DecodeLoose(AsString(material.units));
      if decoded.None? || |decoded.value| != 32 || Base64Url.Encode(decoded.value) != AsString(material.units) {
        assert false;
        return;
      }
      keys := keys[keyId := decoded.value];
    }
    if activeKeyId in keys {
      assert KeysConfigured(activeKeyId, keysJson, entries);
      r := Some(Codec(activeKeyId, keys));
    }
  }
}
