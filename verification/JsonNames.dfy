/** Objects with plain member names: building them, looking their fields up, and counting them. */
module JsonNames {
  import opened Json
  import opened JsonText
  import Utf8

  predicate PlainUnits(t: Utf16) {
    forall i :: 0 <= i < |t| ==> 0x20 <= t[i] < 0x7F && t[i] != 0x22 && t[i] != 0x5C
  }

  /** A text seen by an ASCII pattern: units outside the plane of characters never match. */
  function AsString(t: Utf16): (s: string)
    ensures |s| == |t|
  {
    seq(|t|, i requires 0 <= i < |t| =>
      if HighSurrogate(t[i]) || LowSurrogate(t[i]) then 0xFFFD as char else t[i] as char)
  }

  function Key(s: string): Utf16 {
    ToUtf16(s)
  }

  /** An object with as many fields as names, every one of them present. */
  predicate ObjectWithFields(v: Value, count: nat, names: set<string>) {
    v.Object? && |v.fields| == count && forall name :: name in names ==> Key(name) in v.fields
  }

  /** A field's value; an absent field reads as null, which no check below accepts. */
  function Field(v: Value, name: string): Value {
    if v.Object? && Key(name) in v.fields then v.fields[Key(name)] else Null
  }

  predicate Ascii(s: string) {
    forall i :: 0 <= i < |s| ==> s[i] as int < 0x80
  }

  lemma {:induction false} AsciiUnits(s: string)
    requires Ascii(s)
    ensures |ToUtf16(s)| == |s| && forall i :: 0 <= i < |s| ==> ToUtf16(s)[i] == s[i] as int
    ensures AsString(ToUtf16(s)) == s
  {
    if s == [] {
    } else {
      AsciiUnits(s[1..]);
      var u := ToUtf16(s[1..]);
      assert ToUtf16(s) == [s[0] as int] + u;
    }
  }

  /** Printable ASCII needs no escape. */
  predicate PlainText(s: string) {
    forall i :: 0 <= i < |s| ==> ' ' <= s[i] <= '~' && s[i] != '"' && s[i] != '\\'
  }

  lemma {:induction false} PlainBody(s: string)
    requires PlainText(s)
    ensures GoodBody(s) && Unescape(s) == ToUtf16(s) && |Utf8.Encode(s)| == |s|
  {
    if s != [] {
      PlainBody(s[1..]);
      assert (s + ['"'])[1..] == s[1..] + ['"'];
    } else {
      assert s + ['"'] == ['"'];
    }
  }

  lemma EscapedBody(t: Utf16)
    ensures GoodBody(Escape(t)) && Unescape(Escape(t)) == t
  {
    EscapeBody(t, []);
    UnescapeEscape(t);
    assert Escape(t) + ['"'] + [] == Escape(t) + ['"'];
  }

  /** A name that needs no escape: a valid body, of one byte a character, that means itself. */
  ghost predicate GoodName(name: string) {
    GoodBody(name) && Unescape(name) == Key(name) && |Utf8.Encode(name)| == |name| == |Key(name)|
  }

  lemma KeyOfName(name: string)
    requires PlainText(name)
    ensures GoodName(name) && |Key(name)| == |name|
    ensures forall i :: 0 <= i < |name| ==> Key(name)[i] == name[i] as int
  {
    PlainBody(name);
    AsciiUnits(name);
  }

  lemma MapCount<K, V>(m: map<K, V>, k: K, v: V)
    requires k !in m
    ensures |map[k := v] + m| == |m| + 1
  {
    assert (map[k := v] + m).Keys == m.Keys + {k};
  }

  ghost function Three<K, V>(a: K, b: K, c: K, x: V, y: V, z: V): map<K, V> {
    map[a := x] + (map[b := y] + (map[c := z] + map[]))
  }

  lemma ThreeCount<K, V>(a: K, b: K, c: K, x: V, y: V, z: V)
    requires a != b && a != c && b != c
    ensures |Three(a, b, c, x, y, z)| == 3
  {
    MapCount(map[], c, z);
    MapCount(map[c := z] + map[], b, y);
    MapCount(map[b := y] + (map[c := z] + map[]), a, x);
  }

  lemma SixCount<K, V>(m: map<K, V>, a: K, b: K, c: K, x: V, y: V, z: V)
    requires a != b && a != c && b != c && a !in m && b !in m && c !in m
    ensures |map[a := x] + (map[b := y] + (map[c := z] + m))| == |m| + 3
  {
    MapCount(m, c, z);
    MapCount(map[c := z] + m, b, y);
    MapCount(map[b := y] + (map[c := z] + m), a, x);
  }

  lemma StringField(name: string, body: string, rest: Members)
    requires GoodName(name)
    ensures ToFields(Member(name, Str(body), rest)) == map[Key(name) := String(Unescape(body))] + ToFields(rest)
  {
  }

  lemma GoodNameMeans(name: string)
    requires GoodName(name)
    ensures Unescape(name) == Key(name) && GoodBody(name)
  {
  }

  /** Looking six different keys up in a map built of them. */
  lemma SixFields<K, V>(m: map<K, V>, a: K, b: K, c: K, d: K, e: K, f: K, u: V, v: V, w: V, x: V, y: V, z: V)
    requires a != b && a != c && a != d && a != e && a != f && b != c && b != d && b != e && b != f
    requires c != d && c != e && c != f && d != e && d != f && e != f
    requires m == map[a := u] + (map[b := v] + (map[c := w] + Three(d, e, f, x, y, z)))
    ensures |m| == 6 && a in m && b in m && c in m && d in m && e in m && f in m
    ensures m[a] == u && m[b] == v && m[c] == w && m[d] == x && m[e] == y && m[f] == z
  {
    ThreeCount(d, e, f, x, y, z);
    SixCount(Three(d, e, f, x, y, z), a, b, c, u, v, w);
  }

  lemma TwoFields<K, V>(m: map<K, V>, a: K, b: K, x: V, y: V)
    requires a != b && m == map[a := x] + (map[b := y] + map[])
    ensures |m| == 2 && a in m && b in m && m[a] == x && m[b] == y
  {
    MapCount(map[], b, y);
    MapCount(map[b := y] + map[], a, x);
  }

  lemma GoodMember(name: string, body: string, rest: Members)
    requires GoodName(name) && GoodBody(body) && GoodMembers(rest)
    ensures GoodMembers(Member(name, Str(body), rest))
  {
  }
}
