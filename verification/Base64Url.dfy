/** Unpadded base64url (RFC 4648 section 5) as the ticket and mail codecs build it from btoa and atob. */
module Base64Url {
  import opened Base64
  import opened Options
  import opened Sequences

  /** btoa of the bytes as a binary string: RFC 4648 section 4 with padding. */
  function Btoa(bytes: seq<Byte>): string {
    StandardText(SextetsOf(bytes)) + Repeat('=', FillBits(|bytes|) / 2)
  }

  function ReplaceAll(s: string, from: char, to: char): (t: string)
    ensures |t| == |s| && forall i :: 0 <= i < |s| ==> t[i] == if s[i] == from then to else s[i]
  {
    seq(|s|, i requires 0 <= i < |s| => if s[i] == from then to else s[i])
  }

  function Encode(bytes: seq<Byte>): string {
    StripPadding(ReplaceAll(ReplaceAll(Btoa(bytes), '+', '-'), '/', '_'))
  }

  predicate IsAsciiSpace(c: char) {
    c == ' ' || c == '\t' || c == '\n' || c == 12 as char || c == '\r'
  }

  function DropSpace(s: string): string {
    if s == [] then []
    else if IsAsciiSpace(s[0]) then DropSpace(s[1..]) else [s[0]] + DropSpace(s[1..])
  }

  /** A text whose length is a multiple of four loses one or two padding characters. */
  function DropPadding(data: string): string {
    if |data| % 4 != 0 then data
    else if |data| >= 2 && data[|data| - 2] == '=' && data[|data| - 1] == '=' then data[..|data| - 2]
    else if |data| >= 1 && data[|data| - 1] == '=' then data[..|data| - 1]
    else data
  }

  /** atob: the forgiving-base64 decode algorithm of the WHATWG Infra standard. */
  function Atob(text: string): (r: Option<seq<Byte>>) {
    var body := DropPadding(DropSpace(text));
    if |body| % 4 == 1 || !AllBase64(body) then None else Some(BytesOf(Sextets(body)))
  }

  predicate IsUrlChar(c: char) {
    'A' <= c <= 'Z' || 'a' <= c <= 'z' || '0' <= c <= '9' || c == '_' || c == '-'
  }

  predicate AllUrl(s: string) {
    forall i :: 0 <= i < |s| ==> IsUrlChar(s[i])
  }

  function ToStandard(value: string): string {
    ReplaceAll(ReplaceAll(value, '-', '+'), '_', '/')
  }

  /** The strict ticket decoder: non-empty, and the text must be what its bytes encode to. */
  function DecodeStrict(value: string): (r: Option<seq<Byte>>) {
    if value == [] || !AllUrl(value) then None
    else
      match Atob(ToStandard(value))
      case None => None
      case Some(bytes) => if Encode(bytes) == value then Some(bytes) else None
  }

  function PadEnd(s: string, length: nat): string {
    if |s| >= length then s else s + Repeat('=', length - |s|)
  }

  /** The mail codec's decoder, which pads and does not check canonicity. */
  function DecodeLoose(value: string): (r: Option<seq<Byte>>) {
    Atob(PadEnd(ToStandard(value), (|value| + 3) / 4 * 4))
  }

  // ----- What these compositions amount to -----

  function UrlChar(s: Sextet): (c: char) {
    if s == 62 then '-' else if s == 63 then '_' else StandardChar(s)
  }

  function UrlText(s: seq<Sextet>): (t: string)
    ensures |t| == |s| && forall i :: 0 <= i < |s| ==> t[i] == UrlChar(s[i])
  {
    seq(|s|, i requires 0 <= i < |s| => UrlChar(s[i]))
  }

  /** Encoding is the url alphabet over the RFC's sextets; the padding is gone. */
  lemma EncodeIs(bytes: seq<Byte>)
    ensures Encode(bytes) == UrlText(SextetsOf(bytes))
    ensures AllUrl(Encode(bytes)) && |Encode(bytes)| == SextetCount(|bytes|)
  {
    hide SextetsOf, BytesOf;
    var s, n := SextetsOf(bytes), FillBits(|bytes|) / 2;
    SpreadSextetsOf(bytes);
    assert ReplaceAll(ReplaceAll(Btoa(bytes), '+', '-'), '/', '_') == UrlText(s) + Repeat('=', n);
    StripRepeat(UrlText(s), n);
  }

  lemma {:induction false} DropSpaceId(s: string)
    requires forall i :: 0 <= i < |s| ==> !IsAsciiSpace(s[i])
    ensures DropSpace(s) == s
  {
    if s == [] {
    } else {
      DropSpaceId(s[1..]);
      Uncons(s);
    }
  }

  lemma DropPaddingOf(body: string, pad: nat)
    requires AllBase64(body) && pad < 4 && (pad > 0 ==> (|body| + pad) % 4 == 0)
    ensures pad < 3 ==> DropPadding(body + Repeat('=', pad)) == body
    ensures pad == 3 ==> !AllBase64(DropPadding(body + Repeat('=', pad)))
  {
    hide AllBase64, DropPadding;
    if pad == 0 {
      AppendNothing(body);
      PaddingKept(body);
    } else if pad == 1 {
      OneDropped(body);
    } else {
      TwoDropped(body, pad);
    }
  }

  lemma OneDropped(body: string)
    requires AllBase64(body) && (|body| + 1) % 4 == 0
    ensures DropPadding(body + Repeat('=', 1)) == body
  {
    Back(body, Repeat('=', 1));
    assert IsBase64Char(body[|body| - 1]);
  }

  lemma TwoDropped(body: string, pad: nat)
    requires AllBase64(body) && 2 <= pad < 4 && (|body| + pad) % 4 == 0
    ensures DropPadding(body + Repeat('=', pad)) == body + Repeat('=', pad - 2)
    ensures pad == 2 ==> body + Repeat('=', pad - 2) == body
    ensures pad == 3 ==> !AllBase64(body + Repeat('=', pad - 2))
  {
    var data := body + Repeat('=', pad);
    assert data[|data| - 1] == '=' && data[|data| - 2] == '=';
    assert data[..|data| - 2] == body + Repeat('=', pad - 2);
    if pad == 3 {
      assert (body + Repeat('=', 1))[|body|] == '=';
    } else {
      AppendNothing(body);
    }
  }

  lemma PaddingKept(body: string)
    requires AllBase64(body)
    ensures DropPadding(body) == body
  {
    if body != [] {
      assert IsBase64Char(body[|body| - 1]);
    }
  }

  lemma AtobUrl(value: string, pad: nat)
    requires AllUrl(value) && pad < 4
    requires pad > 0 ==> (|value| + pad) % 4 == 0
    ensures Atob(ToStandard(value) + Repeat('=', pad))
         == if |value| % 4 == 1 then None else Some(BytesOf(Sextets(ToStandard(value))))
  {
    hide BytesOf, DropPadding;
    var body := ToStandard(value);
    DropSpaceId(body + Repeat('=', pad));
    DropPaddingOf(body, pad);
  }

  lemma UrlTextInjective(s: seq<Sextet>, t: seq<Sextet>)
    requires UrlText(s) == UrlText(t)
    ensures s == t
  {
    forall i | 0 <= i < |s|
      ensures |s| == |t| && s[i] == t[i]
    {
      assert UrlText(s)[i] == UrlText(t)[i];
      assert Base64Sextet(StandardChar(s[i]) as int) == s[i];
      assert Base64Sextet(StandardChar(t[i]) as int) == t[i];
    }
    assert |s| == |UrlText(s)| == |t|;
  }

  lemma SextetsOfUrl(value: string)
    requires AllUrl(value)
    ensures UrlText(Sextets(ToStandard(value))) == value
  {
    var s := Sextets(ToStandard(value));
    forall i | 0 <= i < |value|
      ensures UrlChar(s[i]) == value[i]
    {
    }
  }

  /** Which texts of the alphabet are encodings: the right length and no stray unused bits. */
  lemma EncodingIff(value: string)
    requires AllUrl(value) && |value| % 4 != 1
    ensures var s := Sextets(ToStandard(value));
            Encode(BytesOf(s)) == value <==> CanonicalTail(s)
  {
    hide BytesOf, SextetsOf, CanonicalTail;
    var s := Sextets(ToStandard(value));
    EncodeIs(BytesOf(s));
    SextetsOfUrl(value);
    EncodeDecode(s);
    if Encode(BytesOf(s)) == value {
      UrlTextInjective(SextetsOf(BytesOf(s)), s);
    }
  }

  lemma DecodeOfEncode(bytes: seq<Byte>)
    ensures var v := Encode(bytes);
            |v| % 4 != 1 && BytesOf(Sextets(ToStandard(v))) == bytes
  {
    hide BytesOf, SextetsOf;
    EncodeIs(bytes);
    var v := Encode(bytes);
    SextetsOfUrl(v);
    UrlTextInjective(Sextets(ToStandard(v)), SextetsOf(bytes));
    DecodeEncode(bytes);
  }

  /** The strict codec is a bijection between non-empty byte sequences and accepted texts. */
  lemma StrictIff(value: string, bytes: seq<Byte>)
    ensures DecodeStrict(value) == Some(bytes) <==> (bytes != [] && value == Encode(bytes))
  {
    hide BytesOf, SextetsOf, Atob, Encode;
    EncodeIs(bytes);
    DecodeOfEncode(bytes);
    if AllUrl(value) {
      AtobUrl(value, 0);
      assert ToStandard(value) + Repeat('=', 0) == ToStandard(value);
    }
    if DecodeStrict(value) == Some(bytes) {
      assert |value| == SextetCount(|bytes|);
    }
  }

  /** The loose decoder also undoes the encoder. */
  lemma LooseOfEncode(bytes: seq<Byte>)
    ensures DecodeLoose(Encode(bytes)) == Some(bytes)
  {
    EncodeIs(bytes);
    DecodeOfEncode(bytes);
    LooseIs(Encode(bytes));
  }

  lemma LooseIs(value: string)
    requires AllUrl(value)
    ensures DecodeLoose(value) == if |value| % 4 == 1 then None else Some(BytesOf(Sextets(ToStandard(value))))
  {
    hide BytesOf, Atob;
    var pad := (|value| + 3) / 4 * 4 - |value|;
    AtobUrl(value, pad);
    assert PadEnd(ToStandard(value), (|value| + 3) / 4 * 4) == ToStandard(value) + Repeat('=', pad);
  }

  /** /^[A-Za-z0-9_-]{42}[AEIMQUYcgkosw048]$/ */
  predicate TokenPattern(value: string) {
    |value| == 43 && AllUrl(value) && value[42] in "AEIMQUYcgkosw048"
  }

  lemma LastTokenChar(c: char)
    requires IsUrlChar(c)
    ensures var s := Base64Sextet((if c == '-' then '+' else if c == '_' then '/' else c) as int);
            c in "AEIMQUYcgkosw048" <==> s % 4 == 0
  {
  }

  /** The pattern matches exactly the encodings of 32-byte values. */
  lemma TokenPatternIff(value: string)
    ensures TokenPattern(value) <==> exists bytes :: |bytes| == 32 && value == Encode(bytes)
    ensures TokenPattern(value) ==>
              && DecodeLoose(value).Some? && |DecodeLoose(value).value| == 32
              && Encode(DecodeLoose(value).value) == value
  {
    hide BytesOf, SextetsOf, Encode, Atob, DecodeLoose;
    if |value| == 43 && AllUrl(value) {
      var s := Sextets(ToStandard(value));
      LastTokenChar(value[42]);
      EncodingIff(value);
      SpreadBytesOf(s);
      LooseIs(value);
      assert TokenPattern(value) <==> CanonicalTail(s);
      if !TokenPattern(value) && exists bytes :: |bytes| == 32 && value == Encode(bytes) {
        var bytes :| |bytes| == 32 && value == Encode(bytes);
        DecodeOfEncode(bytes);
        assert false;
      }
    } else if exists bytes :: |bytes| == 32 && value == Encode(bytes) {
      var bytes :| |bytes| == 32 && value == Encode(bytes);
      EncodeIs(bytes);
      assert false;
    }
  }
}
