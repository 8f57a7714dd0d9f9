/** UTF-8 encoding of passwords and the 72-byte cut that `create_user` applies before
    hashing: `password.encode('utf-8')[:72].decode('utf-8', errors='ignore')` keeps the
    longest prefix of whole characters that fits in 72 bytes. */
module Utf8 {

  newtype byte = x: int | 0 <= x < 256

  /** The number of bytes UTF-8 uses for c. */
  function Width(c: char): (n: nat)
    ensures 1 <= n <= 4
  {
    if c as int < 0x80 then 1
    else if c as int < 0x800 then 2
    else if c as int < 0x10000 then 3
    else 4
  }

  /** The width a leading byte announces; 0 for a continuation byte 10xxxxxx. */
  function LeadWidth(b: byte): nat
  {
    if b < 0x80 then 1
    else if b < 0xC0 then 0
    else if b < 0xE0 then 2
    else if b < 0xF0 then 3
    else 4
  }

  /** The UTF-8 encoding of one character: a leading byte that announces the width,
      followed by continuation bytes. */
  function EncodeChar(c: char): (b: seq<byte>)
    ensures |b| == Width(c)
    ensures LeadWidth(b[0]) == |b|
    ensures forall i :: 1 <= i < |b| ==> LeadWidth(b[i]) == 0
  {
    var v := c as int;
    if v < 0x80 then [v as byte]
    else if v < 0x800 then [(0xC0 + v / 64) as byte, (0x80 + v % 64) as byte]
    else if v < 0x10000 then
      [(0xE0 + v / 4096) as byte, (0x80 + v / 64 % 64) as byte, (0x80 + v % 64) as byte]
    else
      [(0xF0 + v / 262144) as byte, (0x80 + v / 4096 % 64) as byte,
       (0x80 + v / 64 % 64) as byte, (0x80 + v % 64) as byte]
  }

  /** `s.encode('utf-8')`. */
  function Encode(s: string): (b: seq<byte>)
    ensures s == [] <==> b == []
  {
    if s == [] then [] else EncodeChar(s[0]) + Encode(s[1..])
  }

  lemma EncodeCons(c: char, s: string)
    ensures Encode([c] + s) == EncodeChar(c) + Encode(s)
  {
    assert ([c] + s)[0] == c && ([c] + s)[1..] == s;
  }

  /** Encoding is a homomorphism from strings to byte strings. */
  lemma {:induction false} EncodeAppend(s: string, t: string)
    ensures Encode(s + t) == Encode(s) + Encode(t)
  {
    if s != [] {
      var c, s' := s[0], s[1..];
      assert s + t == [c] + (s' + t);
      assert s == [c] + s';
      EncodeCons(c, s' + t);
      EncodeCons(c, s');
      EncodeAppend(s', t);
      var a, b, d := EncodeChar(c), Encode(s'), Encode(t);
      assert a + (b + d) == (a + b) + d;
    } else {
      assert s + t == t;
    }
  }

  /** The longest prefix of s whose encoding fits in `budget` bytes. */
  function FitPrefix(s: string, budget: nat): (r: string)
    ensures r <= s
    ensures |Encode(r)| <= budget
    ensures r != s ==> |Encode(r)| + Width(s[|r|]) > budget
  {
    if s == [] || Width(s[0]) > budget then []
    else
      var rest := FitPrefix(s[1..], budget - Width(s[0]));
      EncodeCons(s[0], rest);
      assert s == [s[0]] + s[1..];
      [s[0]] + rest
  }

  /** The byte limit of the password hash. */
  const PASSWORD_BYTES: nat := 72

  /** The password that is hashed: the original when its encoding has at most 72 bytes,
      otherwise the longest prefix of whole characters within 72 bytes. The bytes of the
      72-byte cut beyond that prefix are the start of the next character's encoding,
      shorter than the width its leading byte announces, so the lenient decode drops them. */
  function TruncatePassword(p: string): (r: string)
    ensures r <= p
    ensures |Encode(r)| <= PASSWORD_BYTES
    ensures |Encode(p)| <= PASSWORD_BYTES ==> r == p
    ensures |Encode(p)| > PASSWORD_BYTES ==>
      && r < p
      && Encode(r) <= Encode(p)
      && var cut := Encode(p)[|Encode(r)|..PASSWORD_BYTES];
         |cut| < Width(p[|r|]) && cut == EncodeChar(p[|r|])[..|cut|]
  {
    if |Encode(p)| > PASSWORD_BYTES then
      var r := FitPrefix(p, PASSWORD_BYTES);
      CutShape(p, r);
      r
    else p
  }

  lemma PrefixEncode(r: string, p: string)
    requires r <= p
    ensures Encode(p) == Encode(r) + Encode(p[|r|..])
  {
    assert p == r + p[|r|..];
    EncodeAppend(r, p[|r|..]);
  }

  lemma CutShape(p: string, r: string)
    requires r <= p && |Encode(r)| <= PASSWORD_BYTES < |Encode(p)|
    requires r != p ==> |Encode(r)| + Width(p[|r|]) > PASSWORD_BYTES
    ensures r < p
    ensures Encode(r) <= Encode(p)
    ensures var cut := Encode(p)[|Encode(r)|..PASSWORD_BYTES];
      |cut| < Width(p[|r|]) && cut == EncodeChar(p[|r|])[..|cut|]
  {
    PrefixEncode(r, p);
    var rest := p[|r|..];
    var e, er := Encode(p), Encode(r);
    assert e == er + Encode(rest);
    assert r != p;
    var c := p[|r|];
    NextCharEncode(rest, c);
    var ec := EncodeChar(c);
    CutOfConcat(er, ec, Encode(rest[1..]), PASSWORD_BYTES);
  }

  /** The encoding of a non-empty text starts with the encoding of its first character. */
  lemma NextCharEncode(rest: string, c: char)
    requires rest != [] && rest[0] == c
    ensures Encode(rest) == EncodeChar(c) + Encode(rest[1..])
  {
  }

  /** Cutting a + (b + t) at a position inside b leaves a start of b. */
  lemma CutOfConcat(a: seq<byte>, b: seq<byte>, t: seq<byte>, n: int)
    requires |a| <= n < |a| + |b|
    ensures n <= |a + (b + t)|
    ensures (a + (b + t))[|a|..n] == b[..n - |a|]
  {
    var e := a + (b + t);
    forall i | 0 <= i < n - |a| ensures e[|a|..n][i] == b[i] {
      assert e[|a|..n][i] == e[|a| + i];
    }
  }

  /** No longer prefix of the password fits in 72 bytes. */
  lemma TruncationIsLongest(p: string, n: nat)
    requires |Encode(p)| > PASSWORD_BYTES
    requires |TruncatePassword(p)| < n <= |p|
    ensures |Encode(p[..n])| > PASSWORD_BYTES
  {
    var r := TruncatePassword(p);
    var c := p[|r|];
    assert p[..n] == r + ([c] + p[|r| + 1..n]);
    EncodeAppend(r, [c] + p[|r| + 1..n]);
    EncodeCons(c, p[|r| + 1..n]);
  }

  /** A character outside ASCII takes several bytes, so 72 bytes may hold fewer than 72
      characters: 30 three-byte characters are cut to 24. */
  lemma ThirtyWideCharacters(p: string)
    requires |p| == 30 && forall i :: 0 <= i < |p| ==> p[i] == '密'
    ensures |TruncatePassword(p)| == 24
  {
    var r := TruncatePassword(p);
    EncodeWidthThree(p);
    EncodeWidthThree(r);
  }

  lemma {:induction false} EncodeWidthThree(s: string)
    requires forall i :: 0 <= i < |s| ==> s[i] == '密'
    ensures |Encode(s)| == 3 * |s|
  {
    if s != [] {
      EncodeWidthThree(s[1..]);
    }
  }
}
