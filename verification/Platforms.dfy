/**
  The laws assumed of the platform can be met: for each of them there are functions that keep it, so
  what is proved under them is not empty.
*/
module Platforms {
  import opened Base64
  import opened Json
  import opened Options
  import opened Sequences
  import AttachmentDownload
  import MailEnvelope
  import Text
  import Utf8

  // ----- A calendar -----

  /** The w last digits of n. */
  function Digits(n: nat, w: nat): (t: Utf16)
    ensures |t| == w && forall i :: 0 <= i < w ==> 0x30 <= t[i] <= 0x39
  {
    if w == 0 then [] else Digits(n / 10, w - 1) + [0x30 + n % 10]
  }

  function Value(t: Utf16): int {
    if t == [] then 0 else 10 * Value(t[..|t| - 1]) + t[|t| - 1] as int - 0x30
  }

  function Power(w: nat): nat {
    if w == 0 then 1 else 10 * Power(w - 1)
  }

  lemma {:induction false} DigitsValue(n: nat, w: nat)
    requires n < Power(w)
    ensures Value(Digits(n, w)) == n
  {
    if w == 0 {
    } else {
      DigitsValue(n / 10, w - 1);
      Front(Digits(n / 10, w - 1), [0x30 + n % 10]);
      AppendNothing(Digits(n / 10, w - 1));
    }
  }

  lemma PowerEnough()
    ensures Power(24) > 2 * MailEnvelope.MAX_TIME && Power(27) > 2 * MailEnvelope.MAX_TIME
  {
    assert Power(6) == 1_000_000;
    assert Power(12) == 1_000_000_000_000;
    assert Power(18) == 1_000_000_000_000_000_000;
    assert Power(24) == 1_000_000_000_000_000_000_000_000;
  }

  function Iso(ms: int): Utf16 {
    if !MailEnvelope.InRange(ms) then []
    else Digits(ms + MailEnvelope.MAX_TIME, if MailEnvelope.FourDigit(ms) then 24 else 27)
  }

  function ParseIso(t: Utf16): Option<int> {
    var ms := Value(t) - MailEnvelope.MAX_TIME;
    if MailEnvelope.InRange(ms) then Some(ms) else None
  }

  lemma IsoParses(ms: int)
    requires MailEnvelope.InRange(ms)
    ensures ParseIso(Iso(ms)) == Some(ms)
  {
    PowerEnough();
    hide Power, Digits, Value;
    DigitsValue(ms + MailEnvelope.MAX_TIME, if MailEnvelope.FourDigit(ms) then 24 else 27);
  }

  lemma CalendarExists()
    ensures MailEnvelope.Calendar(Iso, ParseIso).Lawful()
  {
    hide ParseIso;
    forall ms | MailEnvelope.InRange(ms)
      ensures ParseIso(Iso(ms)) == Some(ms)
    {
      IsoParses(ms);
    }
    forall t | ParseIso(t).Some?
      ensures MailEnvelope.InRange(ParseIso(t).value)
    {
      ParsedInRange(t);
    }
  }

  lemma ParsedInRange(t: Utf16)
    ensures ParseIso(t).Some? ==> MailEnvelope.InRange(ParseIso(t).value)
  {
  }

  // ----- A cipher -----

  const TAG := [0, 0, 0, 0, 0, 0, 0, 0, 0, 0, 0, 0, 0, 0, 0, 0]

  function Encrypt(key: seq<Byte>, iv: seq<Byte>, aad: seq<Byte>, plain: seq<Byte>): seq<Byte> {
    plain + TAG
  }

  function Decrypt(key: seq<Byte>, iv: seq<Byte>, aad: seq<Byte>, cipher: seq<Byte>): Option<seq<Byte>> {
    if |cipher| < |TAG| then None else Some(cipher[..|cipher| - |TAG|])
  }

  lemma CipherExists()
    ensures MailEnvelope.Aead(Encrypt, Decrypt).Lawful()
  {
    forall key: seq<Byte>, iv: seq<Byte>, aad: seq<Byte>, plain: seq<Byte>
      ensures Decrypt(key, iv, aad, Encrypt(key, iv, aad, plain)) == Some(plain)
    {
      Back(plain, TAG);
    }
  }

  // ----- The tickets' platform -----

  function DecodeLeniently(b: seq<Byte>): string {
    match Utf8.Decode(b)
    case None => ""
    case Some(s) => s
  }

  predicate AllDigits(s: string) {
    forall i :: 0 <= i < |s| ==> '0' <= s[i] <= '9'
  }

  function SafeInteger(text: string): Option<int> {
    var n: int := if text != [] && text[0] == '-' && AllDigits(text[1..]) then 0 - Text.ReadDecimal(text[1..]) as int
                  else if AllDigits(text) then Text.ReadDecimal(text) else 0;
    if AttachmentDownload.Safe(n) then Some(n) else None
  }

  lemma SafeIntegerOf(n: int)
    ensures SafeInteger(AttachmentDownload.IntegerText(n)) == if AttachmentDownload.Safe(n) then Some(n) else None
  {
    if n < 0 {
      Text.DecimalRoundTrip(-n);
      Rest('-', Text.Decimal(-n));
      hide Text.Decimal, Text.ReadDecimal;
      assert AttachmentDownload.IntegerText(n) == ['-'] + Text.Decimal(-n);
    } else {
      Text.DecimalRoundTrip(n);
      hide Text.Decimal, Text.ReadDecimal;
      assert Text.Decimal(n)[0] != '-';
    }
  }

  lemma TicketPlatformExists()
    ensures AttachmentDownload.Platform(secret => true, (secret, message) => [0], DecodeLeniently, SafeInteger).Lawful()
  {
    hide SafeInteger;
    forall n
      ensures SafeInteger(AttachmentDownload.IntegerText(n)) == if AttachmentDownload.Safe(n) then Some(n) else None
    {
      SafeIntegerOf(n);
    }
    forall s: string
      ensures DecodeLeniently(Utf8.Encode(s)) == s
    {
      Utf8.DecodeEncode(s);
    }
  }
}
