/**
  Base64 as the server uses it: the permissive bit-accumulator decoder for EncString parts,
  checked against RFC 4648 section 4 read as a regrouping of one bit string.
*/
module Base64 {
  import opened Bits
  import opened Options
  import opened Sequences

  type Byte = n: nat | n < 256
  type Sextet = n: nat | n < 64

  lemma Powers()
    ensures Pow2(0) == 1 && Pow2(2) == 4 && Pow2(4) == 16 && Pow2(6) == 64 && Pow2(8) == 256
  {
    assert Pow2(1) == 2 && Pow2(3) == 8 && Pow2(5) == 32 && Pow2(7) == 128;
  }

  /** RFC 4648 section 4, decoding: the 6-bit groups form one bit string, which is read in bytes. */
  function BytesOf(s: seq<Sextet>): (bytes: seq<Byte>) {
    Powers();
    Group(Spread(s, 6), 8)
  }

  function Zeros(n: nat): (b: seq<bool>)
    ensures |b| == n
  {
    seq(n, _ => false)
  }

  /** Zero bits appended by the encoder to fill the last 6-bit group. */
  function FillBits(byteCount: nat): nat {
    if byteCount % 3 == 0 then 0 else if byteCount % 3 == 1 then 4 else 2
  }

  /** RFC 4648 section 4, encoding: zero-fill to a multiple of six bits and read sextets. */
  function SextetsOf(bytes: seq<Byte>): (s: seq<Sextet>) {
    Powers();
    Group(Spread(bytes, 8) + Zeros(FillBits(|bytes|)), 6)
  }

  /** Low bits of the last sextet that a decoder never looks at. */
  function UnusedBits(sextetCount: nat): nat {
    6 * sextetCount % 8
  }

  lemma SpreadBytesOf(s: seq<Sextet>)
    ensures |BytesOf(s)| == 6 * |s| / 8
    ensures Spread(BytesOf(s), 8) == Spread(s, 6)[..8 * (6 * |s| / 8)]
  {
    SpreadGroup(Spread(s, 6), 8, 6 * |s| / 8);
  }

  lemma SpreadSextetsOf(bytes: seq<Byte>)
    ensures 6 * |SextetsOf(bytes)| == 8 * |bytes| + FillBits(|bytes|)
    ensures Spread(SextetsOf(bytes), 6) == Spread(bytes, 8) + Zeros(FillBits(|bytes|))
  {
    var n := |bytes|;
    var k := 4 * (n / 3) + (if n % 3 == 0 then 0 else n % 3 + 1);
    assert 6 * k == 8 * n + FillBits(n);
    SpreadGroup(Spread(bytes, 8) + Zeros(FillBits(n)), 6, k);
  }

  lemma FitsSextets(s: seq<Sextet>)
    ensures Fits(s, 6)
  {
    Powers();
  }

  lemma FitsBytes(s: seq<Byte>)
    ensures Fits(s, 8)
  {
    Powers();
  }

  lemma DecodeEncode(bytes: seq<Byte>)
    ensures BytesOf(SextetsOf(bytes)) == bytes
  {
    SpreadSextetsOf(bytes);
    FitsBytes(bytes);
    GroupSpread(bytes, Zeros(FillBits(|bytes|)), 8);
  }

  /** A number without its low bits (0, 2 or 4 of them), and those low bits. */
  function High(n: nat, low: nat): nat {
    if low == 0 then n else if low == 2 then n / 4 else n / 16
  }

  function Low(n: nat, low: nat): nat {
    if low == 0 then 0 else if low == 2 then n % 4 else n % 16
  }

  lemma HighLowSum(n: nat, low: nat)
    requires low in {0, 2, 4} && Pow2(low) == if low == 0 then 1 else if low == 2 then 4 else 16
    ensures High(n, low) * Pow2(low) + Low(n, low) == n && Low(n, low) < Pow2(low)
  {
    hide Pow2;
    var p := Pow2(low);
    if low == 2 {
      assert High(n, 2) * p == n / 4 * 4;
    } else if low == 4 {
      assert High(n, 4) * p == n / 16 * 16;
    }
  }

  lemma HighLow(n: nat, hi: nat, low: nat)
    requires low in {0, 2, 4}
    ensures ToBits(n, hi + low) == ToBits(High(n, low), hi) + ToBits(Low(n, low), low)
    ensures Low(n, low) < Pow2(low)
  {
    hide ToBits;
    Powers();
    assert High(n, low) * Pow2(low) + Low(n, low) == n by { HighLowSum(n, low); }
    ToBitsJoin(High(n, low), Low(n, low), hi, low);
  }

  /** The bits of s up to the last sextet, its used bits, and its unused bits. */
  lemma LastSextet(s: seq<Sextet>, r: nat)
    requires s != [] && r in {0, 2, 4}
    ensures var x := s[|s| - 1];
            && Spread(s, 6) == Spread(s[..|s| - 1], 6)
                               + ToBits(High(x, r), 6 - r) + ToBits(Low(x, r), r)
            && High(x, r) < Pow2(6 - r) && Low(x, r) < Pow2(r)
  {
    Powers();
    var x := s[|s| - 1];
    HighLow(x, 6 - r, r);
    assert Spread(s, 6) == Spread(s[..|s| - 1], 6) + ToBits(x, 6);
    assert ToBits(x, 6) == ToBits(High(x, r), 6 - r) + ToBits(Low(x, r), r);
  }

  lemma {:induction false} ZeroBits(n: nat, w: nat)
    requires n < Pow2(w)
    ensures ToBits(n, w) == Zeros(w) <==> n == 0
  {
    ZerosAreZero(w);
    if ToBits(n, w) == Zeros(w) {
      FromToBits(n, w);
      FromToBits(0, w);
    }
  }

  lemma {:induction false} ZerosAreZero(w: nat)
    ensures ToBits(0, w) == Zeros(w)
  {
    if w == 0 {
    } else {
      ZerosAreZero(w - 1);
      assert ToBits(0, w) == ToBits(0, w - 1) + [false];
    }
  }

  predicate CanonicalTail(s: seq<Sextet>) {
    s == [] || Low(s[|s| - 1], UnusedBits(|s|)) == 0
  }

  lemma SuffixCancel<T>(a: seq<T>, b: seq<T>, x: seq<T>, y: seq<T>)
    requires |a| == |b| && a + x == b + y
    ensures a == b && x == y
  {
    assert a == (a + x)[..|a|] && b == (b + y)[..|a|];
    assert x == (a + x)[|a|..] && y == (b + y)[|a|..];
  }

  /** RFC 4648 section 3.5: only zero pad bits make an encoding the one its bytes encode to. */
  lemma EncodeDecode(s: seq<Sextet>)
    requires |s| % 4 != 1
    ensures SextetsOf(BytesOf(s)) == s <==> CanonicalTail(s)
  {
    var r, d := UnusedBits(|s|), BytesOf(s);
    SpreadSextetsOf(d);
    FitsSextets(s);
    FitsSextets(SextetsOf(d));
    if s != [] {
      var x := s[|s| - 1];
      var high, low := Spread(d, 8), ToBits(Low(x, r), r);
      UsedBitsOf(s);
      ZeroBits(Low(x, r), r);
      if CanonicalTail(s) {
        SpreadInjective(SextetsOf(d), s, 6);
      } else if SextetsOf(d) == s {
        SuffixCancel(high, high, low, Zeros(r));
      }
    }
  }

  /** s and t differ at most in the low bits of the last sextet that no byte is made of. */
  predicate SameUsedBits(s: seq<Sextet>, t: seq<Sextet>) {
    && |s| == |t|
    && (s != [] ==>
          var n, r := |s|, UnusedBits(|s|);
          s[..n - 1] == t[..n - 1] && High(s[n - 1], r) == High(t[n - 1], r))
  }

  function SextetCount(byteCount: nat): nat {
    4 * (byteCount / 3) + (if byteCount % 3 == 0 then 0 else byteCount % 3 + 1)
  }

  /** Bytes, used bits and unused bits of n sextets, by the remainder of n. */
  lemma Lengths(n: nat)
    requires n % 4 != 1
    ensures 8 * (6 * n / 8) + UnusedBits(n) == 6 * n
    ensures FillBits(6 * n / 8) == UnusedBits(n) == if n % 4 == 0 then 0 else if n % 4 == 2 then 4 else 2
    ensures n == SextetCount(6 * n / 8)
  {
    var q, c := n / 4, n % 4;
    assert 6 * n == 8 * (3 * q) + 6 * c;
  }

  /** The bytes of s are exactly its used bits; the encoder's fill bits stand for its unused ones. */
  lemma UsedBitsOf(s: seq<Sextet>)
    requires |s| % 4 != 1 && s != []
    ensures var x, r := s[|s| - 1], UnusedBits(|s|);
            && r in {0, 2, 4} && FillBits(|BytesOf(s)|) == r
            && High(x, r) < Pow2(6 - r) && Low(x, r) < Pow2(r)
            && Spread(BytesOf(s), 8) == Spread(s[..|s| - 1], 6) + ToBits(High(x, r), 6 - r)
            && Spread(s, 6) == Spread(BytesOf(s), 8) + ToBits(Low(x, r), r)
  {
    var r, n := UnusedBits(|s|), |s|;
    Lengths(n);
    LastSextet(s, r);
    SpreadBytesOf(s);
    var high := Spread(s[..n - 1], 6) + ToBits(High(s[n - 1], r), 6 - r);
    assert |high| == 6 * n - r;
    assert Spread(s, 6)[..|high|] == high;
  }

  /** Exactly which inputs of the permissive decoder denote the same bytes. */
  lemma DecodeEqualIff(s: seq<Sextet>, t: seq<Sextet>)
    requires |s| % 4 != 1 && |t| % 4 != 1
    ensures BytesOf(s) == BytesOf(t) <==> SameUsedBits(s, t)
  {
    hide BytesOf, SameUsedBits;
    if BytesOf(s) == BytesOf(t) {
      SameBytesSameBits(s, t);
    }
    if SameUsedBits(s, t) {
      SameBitsSameBytes(s, t);
    }
  }

  lemma SameBitsSameBytes(s: seq<Sextet>, t: seq<Sextet>)
    requires |s| % 4 != 1 && |t| % 4 != 1 && SameUsedBits(s, t)
    ensures BytesOf(s) == BytesOf(t)
  {
    hide BytesOf, Spread, ToBits, High, Low;
    if s != [] {
      UsedBitsOf(s);
      UsedBitsOf(t);
      FitsBytes(BytesOf(s));
      FitsBytes(BytesOf(t));
      SpreadInjective(BytesOf(s), BytesOf(t), 8);
    } else {
      assert s == t;
    }
  }

  lemma SameBytesSameBits(s: seq<Sextet>, t: seq<Sextet>)
    requires |s| % 4 != 1 && |t| % 4 != 1
    requires BytesOf(s) == BytesOf(t)
    ensures SameUsedBits(s, t)
  {
    hide BytesOf, Spread, ToBits, FromBits, High, Low;
    assert |s| == |t| by {
      SpreadBytesOf(s);
      SpreadBytesOf(t);
      Lengths(|s|);
      Lengths(|t|);
    }
    var n, r := |s|, UnusedBits(|s|);
    if n > 0 {
      UsedBitsOf(s);
      UsedBitsOf(t);
      var hs, ht := High(s[n - 1], r), High(t[n - 1], r);
      SuffixCancel(Spread(s[..n - 1], 6), Spread(t[..n - 1], 6), ToBits(hs, 6 - r), ToBits(ht, 6 - r));
      FitsSextets(s[..n - 1]);
      FitsSextets(t[..n - 1]);
      SpreadInjective(s[..n - 1], t[..n - 1], 6);
      FromToBits(hs, 6 - r);
      FromToBits(ht, 6 - r);
    }
  }

  // ----- The decoder of src/domain/account-credentials.ts -----

  function Base64Sextet(codePoint: int): (s: Sextet) {
    if 65 <= codePoint <= 90 then codePoint - 65
    else if 97 <= codePoint <= 122 then codePoint - 71
    else if 48 <= codePoint <= 57 then codePoint + 4
    else if codePoint == 43 then 62 else 63
  }

  predicate IsBase64Char(c: char) {
    'A' <= c <= 'Z' || 'a' <= c <= 'z' || '0' <= c <= '9' || c == '+' || c == '/'
  }

  predicate AllBase64(s: string) {
    forall i :: 0 <= i < |s| ==> IsBase64Char(s[i])
  }

  /** The value without its longest run of trailing padding characters. */
  function StripPadding(s: string): (r: string)
    ensures r <= s && (r == [] || r[|r| - 1] != '=')
    ensures forall i :: |r| <= i < |s| ==> s[i] == '='
  {
    if s != [] && s[|s| - 1] == '=' then StripPadding(s[..|s| - 1]) else s
  }

  function Sextets(s: string): (r: seq<Sextet>)
    ensures |r| == |s|
  {
    seq(|s|, i requires 0 <= i < |s| => Base64Sextet(s[i] as int))
  }

  predicate Accepted(value: string) {
    var unpadded := StripPadding(value);
    '=' !in unpadded && |unpadded| % 4 != 1 && AllBase64(unpadded)
  }

  /** What the decoder returns, by RFC 4648 rather than by its loop. */
  function Decoded(value: string): (r: Option<seq<Byte>>) {
    if Accepted(value) then Some(BytesOf(Sextets(StripPadding(value)))) else None
  }

  // ----- Which texts it decodes -----

  function StandardChar(s: Sextet): (c: char)
    ensures IsBase64Char(c) && Base64Sextet(c as int) == s
  {
    if s < 26 then ('A' as int + s) as char
    else if s < 52 then ('a' as int + (s - 26)) as char
    else if s < 62 then ('0' as int + (s - 52)) as char
    else if s == 62 then '+' else '/'
  }

  function StandardText(s: seq<Sextet>): (t: string)
    ensures |t| == |s| && forall i :: 0 <= i < |s| ==> t[i] == StandardChar(s[i])
  {
    seq(|s|, i requires 0 <= i < |s| => StandardChar(s[i]))
  }

  function Repeat(c: char, n: nat): (t: string)
    ensures |t| == n && forall i :: 0 <= i < n ==> t[i] == c
  {
    seq(n, _ => c)
  }

  lemma Alphabet(s: Sextet)
    ensures s < 26 ==> StandardChar(s) == "ABCDEFGHIJKLMNOPQRSTUVWXYZ"[s]
    ensures 26 <= s < 52 ==> StandardChar(s) == "abcdefghijklmnopqrstuvwxyz"[s - 26]
    ensures 52 <= s ==> StandardChar(s) == "0123456789+/"[s - 52]
  {
    if s < 26 {
      assert StandardChar(s) == "ABCDEFGHIJKLMNOPQRSTUVWXYZ"[s];
    } else if s < 52 {
      assert StandardChar(s) == "abcdefghijklmnopqrstuvwxyz"[s - 26];
    }
  }

  lemma {:induction false} StripRepeat(s: string, n: nat)
    requires s == [] || s[|s| - 1] != '='
    ensures StripPadding(s + Repeat('=', n)) == s
  {
    if n == 0 {
      assert s + Repeat('=', 0) == s;
    } else {
      var t := s + Repeat('=', n);
      assert t[..|t| - 1] == s + Repeat('=', n - 1);
      StripRepeat(s, n - 1);
    }
  }

  /** The sextets of some bytes, and perhaps stray low bits in the last, in RFC 4648's alphabet, however padded. */
  ghost predicate Spells(value: string, bytes: seq<Byte>) {
    exists s: seq<Sextet>, n: nat ::
      |s| % 4 != 1 && value == StandardText(s) + Repeat('=', n) && bytes == BytesOf(s)
  }

  lemma StandardSextets(s: seq<Sextet>)
    ensures Sextets(StandardText(s)) == s && AllBase64(StandardText(s)) && '=' !in StandardText(s)
  {
  }

  lemma SextetsStandard(text: string)
    requires AllBase64(text)
    ensures StandardText(Sextets(text)) == text
  {
    forall i | 0 <= i < |text|
      ensures StandardChar(Base64Sextet(text[i] as int)) == text[i]
    {
    }
  }

  lemma Stripped(s: seq<Sextet>, n: nat)
    ensures StripPadding(StandardText(s) + Repeat('=', n)) == StandardText(s)
  {
    StandardSextets(s);
    StripRepeat(StandardText(s), n);
  }

  /** The decoder accepts exactly those texts, and returns exactly those bytes. */
  lemma DecodedIff(value: string, bytes: seq<Byte>)
    ensures Decoded(value) == Some(bytes) <==> Spells(value, bytes)
  {
    hide BytesOf;
    if Decoded(value) == Some(bytes) {
      var text := StripPadding(value);
      SextetsStandard(text);
      assert value == text + Repeat('=', |value| - |text|);
    }
    forall s: seq<Sextet>, n: nat
      | |s| % 4 != 1 && value == StandardText(s) + Repeat('=', n) && bytes == BytesOf(s)
      ensures Decoded(value) == Some(bytes)
    {
      Stripped(s, n);
      StandardSextets(s);
    }
  }

  /** Every byte string is decoded from its standard encoding, with any amount of padding. */
  lemma EncodingSpells(bytes: seq<Byte>, n: nat)
    ensures Spells(StandardText(SextetsOf(bytes)) + Repeat('=', n), bytes)
  {
    hide BytesOf, SextetsOf;
    var s := SextetsOf(bytes);
    SpreadSextetsOf(bytes);
    DecodeEncode(bytes);
  }

  // ----- 32-bit accumulator arithmetic -----

  lemma {:induction false} SextetAsBv(s: nat) returns (x: bv32)
    requires s < 64
    ensures x < 64 && x as int == s
  {
    if s == 0 {
      x := 0;
    } else {
      var y := SextetAsBv(s - 1);
      BvSuccessor(y);
      x := y + 1;
    }
  }

  lemma BvSuccessor(y: bv32)
    requires y as int < 63 && y < 64
    ensures y + 1 < 64 && (y + 1) as int == y as int + 1
  {
  }

  lemma BvThereAndBack(x: bv32)
    requires x < 64
    ensures x as int as bv32 == x
  {
  }

  lemma JoinSextet(a: bv32, x: bv32)
    requires a < 64 && x < 64
    ensures (a << 6) | x < 4096 && ((a << 6) | x) as int == a as int * 64 + x as int
  {
  }

  lemma ShiftIn(a: bv32, s: Sextet)
    requires a < 64
    ensures (a << 6) | (s as bv32) < 4096
    ensures ((a << 6) | (s as bv32)) as int == a as int * 64 + s
  {
    var x := SextetAsBv(s);
    BvThereAndBack(x);
    JoinSextet(a, x);
  }

  lemma JoinBv2(h: bv32, l: bv32)
    requires h < 1024 && l < 4
    ensures ((h << 2) | l) as int == h as int * 4 + l as int && l as int < 4
  {
  }

  lemma JoinBv4(h: bv32, l: bv32)
    requires h < 256 && l < 16
    ensures ((h << 4) | l) as int == h as int * 16 + l as int && l as int < 16
  {
  }

  lemma BvSmall(x: bv32)
    requires x as int < 256
    ensures x < 256
  {
  }

  lemma BvBelow1024(x: bv32)
    requires x as int < 1024
    ensures x < 1024
  {
  }

  lemma SplitBv0(x: bv32)
    requires x < 256
    ensures (x >> 0) & 0xff == x && x & ((1 << 0) - 1) == 0
  {
  }

  lemma SplitBv2(x: bv32) returns (h: bv32, l: bv32)
    requires x < 1024
    ensures h == (x >> 2) & 0xff && l == x & ((1 << 2) - 1)
    ensures h < 1024 && l < 4 && x == (h << 2) | l
  {
    h, l := (x >> 2) & 0xff, x & ((1 << 2) - 1);
  }

  lemma SplitBv4(x: bv32) returns (h: bv32, l: bv32)
    requires x < 4096
    ensures h == (x >> 4) & 0xff && l == x & ((1 << 4) - 1)
    ensures h < 256 && l < 16 && x == (h << 4) | l
  {
    h, l := (x >> 4) & 0xff, x & ((1 << 4) - 1);
  }

  lemma CutByte2(x: bv32)
    requires x as int < 1024
    ensures ((x >> 2) & 0xff) as int == High(x as int, 2)
    ensures x & ((1 << 2) - 1) < 64 && (x & ((1 << 2) - 1)) as int == Low(x as int, 2)
  {
    BvBelow1024(x);
    var h, l := SplitBv2(x);
    JoinBv2(h, l);
  }

  lemma CutByte4(x: bv32)
    requires x < 4096
    ensures ((x >> 4) & 0xff) as int == High(x as int, 4)
    ensures x & ((1 << 4) - 1) < 64 && (x & ((1 << 4) - 1)) as int == Low(x as int, 4)
  {
    var h, l := SplitBv4(x);
    JoinBv4(h, l);
  }

  /** What fits under a byte and the given number of pending bits. */
  function Limit(bits: nat): nat {
    if bits == 0 then 256 else if bits == 2 then 1024 else 4096
  }

  /** Taking a byte off an accumulator of bits + 8 bits, as the decoder does. */
  lemma CutByte(x: bv32, bits: nat)
    requires bits in {0, 2, 4} && x < 4096 && x as int < Limit(bits)
    ensures ((x >> bits) & 0xff) as int == High(x as int, bits) < 256
    ensures x & ((1 << bits) - 1) < 64
    ensures (x & ((1 << bits) - 1)) as int == Low(x as int, bits)
  {
    if bits == 0 {
      BvSmall(x);
      SplitBv0(x);
    } else if bits == 2 {
      CutByte2(x);
    } else {
      CutByte4(x);
    }
  }

  // ----- The loop -----

  lemma ShiftedBits(acc: nat, bits: nat, s: Sextet)
    ensures ToBits(acc * 64 + s, bits + 6) == ToBits(acc, bits) + ToBits(s, 6)
  {
    assert Pow2(6) == 64 by { Powers(); }
    ToBitsJoin(acc, s, bits, 6);
  }

  /** Shifting a sextet in appends its six bits. */
  lemma AppendSextet(done: seq<Byte>, acc: nat, bits: nat, prefix: seq<Sextet>, s: Sextet)
    requires Spread(done, 8) + ToBits(acc, bits) == Spread(prefix, 6)
    ensures Spread(done, 8) + ToBits(acc * 64 + s, bits + 6) == Spread(prefix + [s], 6)
  {
    ShiftedBits(acc, bits, s);
    SpreadSnoc(prefix, s, 6);
    Associate(Spread(done, 8), ToBits(acc, bits), ToBits(s, 6));
  }

  /** Taking the top eight bits off appends a byte. */
  lemma AppendByte(done: seq<Byte>, n: nat, bits: nat, b: seq<bool>)
    requires bits in {0, 2, 4} && n < Limit(bits)
    requires Spread(done, 8) + ToBits(n, bits + 8) == b
    ensures High(n, bits) < 256 && Low(n, bits) < Pow2(bits)
    ensures Spread(done + [High(n, bits)], 8) + ToBits(Low(n, bits), bits) == b
  {
    HighLow(n, 8, bits);
    HighBound(n, bits);
    SpreadSnoc(done, High(n, bits), 8);
    Associate(Spread(done, 8), ToBits(High(n, bits), 8), ToBits(Low(n, bits), bits));
  }

  lemma HighBound(n: nat, bits: nat)
    requires bits in {0, 2, 4} && n < Limit(bits)
    ensures High(n, bits) < 256
  {
  }

  lemma ShiftBound(acc: nat, bits: nat, s: Sextet)
    requires acc < Pow2(bits) && bits in {0, 2, 4, 6}
    ensures if bits == 0 then acc * 64 + s < 64 else acc * 64 + s < Limit(bits - 2)
  {
    Powers();
  }

  /** Everything read is either written out or still pending in the accumulator. */
  ghost predicate Balanced(written: seq<Byte>, accumulator: nat, bitCount: nat, read: seq<Sextet>) {
    && (bitCount == 0 || bitCount == 2 || bitCount == 4 || bitCount == 6) && accumulator < Pow2(bitCount)
    && 8 * |written| + bitCount == 6 * |read|
    && Spread(written, 8) + ToBits(accumulator, bitCount) == Spread(read, 6)
  }

  lemma BalancedStart()
    ensures Balanced([], 0, 0, [])
  {
  }

  /** A pass through the loop body that completes no byte. */
  lemma AbsorbHeld(done: seq<Byte>, acc: nat, bits: nat, prefix: seq<Sextet>, s: Sextet)
    requires Balanced(done, acc, bits, prefix)
    ensures acc < 64
    ensures bits == 0 ==> Balanced(done, acc * 64 + s, 6, prefix + [s])
    ensures bits != 0 ==> bits in {2, 4, 6} && acc * 64 + s < Limit(bits - 2)
  {
    AppendSextet(done, acc, bits, prefix, s);
    ShiftBound(acc, bits, s);
    Powers();
  }

  /** A pass through the loop body that completes a byte. */
  lemma AbsorbWritten(done: seq<Byte>, acc: nat, bits: nat, prefix: seq<Sextet>, s: Sextet, byte: Byte, rest: nat)
    requires Balanced(done, acc, bits, prefix) && bits != 0
    requires byte == High(acc * 64 + s, bits - 2) && rest == Low(acc * 64 + s, bits - 2)
    ensures Balanced(done + [byte], rest, bits - 2, prefix + [s])
  {
    hide ToBits, Spread, High, Low, Pow2;
    var n, next := acc * 64 + s, prefix + [s];
    AppendSextet(done, acc, bits, prefix, s);
    ShiftBound(acc, bits, s);
    assert bits - 2 + 8 == bits + 6;
    AppendByte(done, n, bits - 2, Spread(next, 6));
    assert 8 * |done + [byte]| + (bits - 2) == 6 * |next|;
  }

  /** When fewer than eight bits are left over, what was written is the RFC's reading. */
  lemma BalancedEnd(written: seq<Byte>, accumulator: nat, bitCount: nat, read: seq<Sextet>)
    requires Balanced(written, accumulator, bitCount, read)
    ensures written == BytesOf(read)
  {
    FitsBytes(written);
    GroupSpread(written, ToBits(accumulator, bitCount), 8);
  }

  lemma BvBelow64(x: bv32)
    requires x as int < 64
    ensures x < 64
  {
  }

  lemma BvBelow4096(x: bv32)
    requires x as int < 4096
    ensures x < 4096
  {
  }

  /** The loop's (accumulator << 6) | sextet, on an accumulator of at most six bits. */
  method ShiftSextet(accumulator: bv32, sextet: Sextet) returns (next: bv32)
    requires accumulator as int < 64
    ensures next as int == accumulator as int * 64 + sextet < 4096
  {
    BvBelow64(accumulator);
    ShiftIn(accumulator, sextet);
    next := (accumulator << 6) | (sextet as bv32);
  }

  /** The loop's (accumulator >> bitCount) & 0xff and accumulator & ((1 << bitCount) - 1). */
  method TakeByte(accumulator: bv32, bitCount: nat) returns (byte: Byte, rest: bv32)
    requires bitCount in {0, 2, 4} && accumulator as int < Limit(bitCount)
    ensures byte == High(accumulator as int, bitCount)
    ensures rest as int == Low(accumulator as int, bitCount)
  {
    BvBelow4096(accumulator);
    CutByte(accumulator, bitCount);
    byte := ((accumulator >> bitCount) & 0xff) as int;
    rest := accumulator & ((1 << bitCount) - 1);
  }

  /**
    The decoder's loop. Its result is the RFC's reading of the unpadded value, and the ghost
    result records the indices written: each one once, in order, until the array is full.
  */
  method DecodeEncStringBase64(value: string) returns (decoded: array?<Byte>, ghost written: seq<nat>)
    ensures decoded == null <==> forall bytes :: !Spells(value, bytes)
    ensures decoded != null ==> fresh(decoded) && forall bytes :: Spells(value, bytes) <==> bytes == decoded[..]
    ensures decoded != null ==> written == seq(decoded.Length, i => i)
  {
    hide Balanced, BytesOf, High, Low, Limit, AllBase64, StripPadding, Base64Sextet, Spells;
    decoded, written := null, [];
    forall bytes ensures Spells(value, bytes) <==> Decoded(value) == Some(bytes) {
      DecodedIff(value, bytes);
    }
    var unpadded := StripPadding(value);
    if '=' in unpadded || |unpadded| % 4 == 1 || !AllBase64(unpadded) {
      return;
    }
    var output := new Byte[|unpadded| * 6 / 8](_ => 0);
    var accumulator: bv32 := 0;
    var bitCount, outputIndex := 0, 0;
    ghost var read: seq<Sextet>, done: seq<Byte> := [], [];
    BalancedStart();
    for i := 0 to |unpadded|
      invariant |read| == i && forall k :: 0 <= k < i ==> read[k] == Base64Sextet(unpadded[k] as int)
      invariant |done| == outputIndex <= output.Length && done == output[..outputIndex]
      invariant 8 * outputIndex + bitCount == 6 * i && bitCount < 8
      invariant Balanced(done, accumulator as int, bitCount, read)
      invariant written == seq(outputIndex, k => k)
    {
      var sextet := Base64Sextet(unpadded[i] as int);
      AbsorbHeld(done, accumulator as int, bitCount, read, sextet);
      ghost var held, pending := accumulator as int, bitCount;
      accumulator := ShiftSextet(accumulator, sextet);
      bitCount := bitCount + 6;
      if bitCount >= 8 {
        bitCount := bitCount - 8;
        var byte;
        byte, accumulator := TakeByte(accumulator, bitCount);
        output[outputIndex] := byte;
        AbsorbWritten(done, held, pending, read, sextet, byte, accumulator as int);
        done := done + [byte];
        written := written + [outputIndex];
        outputIndex := outputIndex + 1;
      }
      read := read + [sextet];
    }
    assert read == Sextets(unpadded);
    BalancedEnd(done, accumulator as int, bitCount, read);
    assert output[..outputIndex] == output[..];
    decoded := output;
    assert Spells(value, decoded[..]);
  }
}
