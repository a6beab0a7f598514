/**
 * HTML entities: the byte-indexed decoder of crates/aivory-mail-api/src/mcp_reply.rs against a decoder of characters.
 */
module Entities {
  import opened Text

  // ---- UTF-8 (section 3 of RFC 3629) ---------------------------------------

  function Utf8Char(c: char): (b: seq<byte>)
    ensures 1 <= |b| <= 4
  {
    var v := c as int;
    if v < 0x80 then [v]
    else if v < 0x800 then [0xC0 + v / 64, 0x80 + v % 64]
    else if v < 0x1_0000 then [0xE0 + v / 4096, 0x80 + v / 64 % 64, 0x80 + v % 64]
    else [0xF0 + v / 0x4_0000, 0x80 + v / 4096 % 64, 0x80 + v / 64 % 64, 0x80 + v % 64]
  }

  function Utf8(t: string): seq<byte> {
    if t == "" then [] else Utf8Char(t[0]) + Utf8(t[1..])
  }

  /** `utf8_char_len`: the masks 0x80, 0xE0 and 0xF0 select the top one, three and four bits. */
  function CharLength(b: byte): nat {
    if b / 128 == 0 then 1 else if b / 32 == 6 then 2 else if b / 16 == 14 then 3 else 4
  }

  lemma FirstByteTellsLength(c: char)
    ensures var b := Utf8Char(c);
            && CharLength(b[0]) == |b|
            && (c as int < 0x80 ==> b == [c as int])
            && (c as int >= 0x80 ==> forall i | 0 <= i < |b| :: b[i] >= 0x80)
  {
  }

  lemma {:induction false} Utf8Append(a: string, b: string)
    ensures Utf8(a + b) == Utf8(a) + Utf8(b)
  {
    if a == "" {
      assert a + b == b;
    } else {
      hide Utf8Char;
      assert (a + b)[1..] == a[1..] + b;
      Utf8Append(a[1..], b);
    }
  }

  /** The code point that a character's bytes spell. */
  function Spelled(b: seq<int>): int {
    if |b| == 1 then b[0]
    else if |b| == 2 then 64 * (b[0] - 0xC0) + (b[1] - 0x80)
    else if |b| == 3 then 4096 * (b[0] - 0xE0) + 64 * (b[1] - 0x80) + (b[2] - 0x80)
    else if |b| == 4 then 0x4_0000 * (b[0] - 0xF0) + 4096 * (b[1] - 0x80) + 64 * (b[2] - 0x80) + (b[3] - 0x80)
    else -1
  }

  lemma SixBits(v: nat)
    ensures v == 64 * (v / 64) + v % 64
    ensures v == 4096 * (v / 4096) + 64 * (v / 64 % 64) + v % 64
    ensures v == 0x4_0000 * (v / 0x4_0000) + 4096 * (v / 4096 % 64) + 64 * (v / 64 % 64) + v % 64
  {
    assert v / 64 / 64 == v / 4096 && v / 4096 / 64 == v / 0x4_0000;
  }

  lemma SpelledChar(c: char)
    ensures Spelled(Utf8Char(c)) == c as int
  {
    var v := c as int;
    var b := Utf8Char(c);
    SixBits(v);
    if |b| == 1 {
      assert b == [v];
    } else if |b| == 2 {
      assert b[0] == 0xC0 + v / 64 && b[1] == 0x80 + v % 64;
    } else if |b| == 3 {
      assert b[0] == 0xE0 + v / 4096 && b[1] == 0x80 + v / 64 % 64 && b[2] == 0x80 + v % 64;
    } else {
      assert b[0] == 0xF0 + v / 0x4_0000 && b[1] == 0x80 + v / 4096 % 64;
      assert b[2] == 0x80 + v / 64 % 64 && b[3] == 0x80 + v % 64;
    }
  }

  lemma Utf8CharInjective(c: char, d: char)
    requires Utf8Char(c) == Utf8Char(d)
    ensures c == d
  {
    SpelledChar(c);
    SpelledChar(d);
  }

  /** A byte sequence encodes at most one text. */
  lemma {:induction false} Utf8Injective(a: string, b: string)
    requires Utf8(a) == Utf8(b)
    ensures a == b
  {
    if a != "" && b != "" {
      FirstByteTellsLength(a[0]);
      FirstByteTellsLength(b[0]);
      hide Utf8Char;
      var n := |Utf8Char(a[0])|;
      assert Utf8(a)[..n] == Utf8Char(a[0]) && Utf8(b)[..n] == Utf8Char(b[0]);
      assert Utf8(a)[n..] == Utf8(a[1..]) && Utf8(b)[n..] == Utf8(b[1..]);
      Utf8CharInjective(a[0], b[0]);
      Utf8Injective(a[1..], b[1..]);
      assert a == [a[0]] + a[1..] && b == [b[0]] + b[1..];
    }
  }

  /** An ASCII byte is found exactly where its character is. */
  lemma {:induction false} FindAscii(t: string, c: char)
    requires c as int < 0x80
    ensures IndexOf(Utf8(t), c as int) == |Utf8(t[..IndexOf(t, c)])|
  {
    if t != "" {
      FirstByteTellsLength(t[0]);
      hide Utf8Char;
      var b, rest := Utf8Char(t[0]), Utf8(t[1..]);
      FindAscii(t[1..], c);
      if t[0] != c {
        var k := IndexOf(t[1..], c);
        PrefixBytes(t, k);
        assert IndexOf(t, c) == k + 1;
        hide IndexOf, Utf8;
        assert forall i | 0 <= i < |b| :: b[i] != c as int;
        IndexBehind(b, rest, c as int);
      }
    }
  }

  lemma PrefixBytes(t: string, k: nat)
    requires k < |t|
    ensures |Utf8(t[..k + 1])| == |Utf8Char(t[0])| + |Utf8(t[1..][..k])|
  {
    hide Utf8Char;
    assert t[..k + 1][1..] == t[1..][..k];
  }

  lemma IndexBehind(a: seq<int>, b: seq<int>, c: int)
    requires forall i | 0 <= i < |a| :: a[i] != c
    ensures IndexOf(a + b, c) == |a| + IndexOf(b, c)
  {
    var r := IndexOf(b, c);
    hide IndexOf;
    assert forall i | 0 <= i < |a| + r :: (a + b)[i] == if i < |a| then a[i] else b[i - |a|];
    IndexOfUnique(a + b, c, |a| + r);
  }

  // ---- what one entity names -----------------------------------------------

  function Codes(t: string): seq<int> {
    seq(|t|, i requires 0 <= i < |t| => t[i] as int)
  }

  function Digit(code: int, radix: int): Option<nat> {
    if 48 <= code <= 57 then (if code - 48 < radix then Some(code - 48) else None)
    else if 97 <= code <= 102 && radix == 16 then Some(code - 87)
    else if 65 <= code <= 70 && radix == 16 then Some(code - 55)
    else None
  }

  function Digits(codes: seq<int>, radix: nat): Option<nat> {
    if codes == [] then Some(0)
    else
      var high, low := Digits(codes[..|codes| - 1], radix), Digit(codes[|codes| - 1], radix);
      if high.Some? && low.Some? then Some(high.value * radix + low.value) else None
  }

  /** `u32::from_str_radix`, which takes one leading '+'. */
  function ParseU32(codes: seq<int>, radix: nat): Option<nat> {
    var digits := if codes != [] && codes[0] == 43 then codes[1..] else codes;
    var n := Digits(digits, radix);
    if digits != [] && n.Some? && n.value < 0x1_0000_0000 then n else None
  }

  /** `char::from_u32`. */
  function Scalar(n: nat): Option<char> {
    if n < 0xD800 || 0xE000 <= n < 0x11_0000 then Some(n as char) else None
  }

  /** The character that the text between '&' and ';' names; works on bytes and on characters alike. */
  function Entity(body: seq<int>): Option<char> {
    if body == Codes("amp") then Some('&')
    else if body == Codes("lt") then Some('<')
    else if body == Codes("gt") then Some('>')
    else if body == Codes("quot") then Some('"')
    else if body == Codes("apos") then Some('\'')
    else if body == Codes("nbsp") then Some(' ')
    else if |body| >= 2 && body[0] == 35 && (body[1] == 120 || body[1] == 88) then
      var n := ParseU32(body[2..], 16);
      if n.Some? then Scalar(n.value) else None
    else if |body| >= 1 && body[0] == 35 then
      var n := ParseU32(body[1..], 10);
      if n.Some? then Scalar(n.value) else None
    else None
  }

  lemma {:induction false} DigitsAscii(codes: seq<int>, radix: nat, i: nat)
    requires i < |codes| && codes[i] >= 0x80
    ensures Digits(codes, radix).None?
  {
    if i < |codes| - 1 {
      DigitsAscii(codes[..|codes| - 1], radix, i);
    }
  }

  lemma NamesAscii(body: seq<int>, i: nat)
    requires i < |body| && body[i] >= 0x80
    ensures body != Codes("amp") && body != Codes("lt") && body != Codes("gt")
    ensures body != Codes("quot") && body != Codes("apos") && body != Codes("nbsp")
  {
    assert |body| == 3 ==> body[i] != Codes("amp")[i];
    assert |body| == 2 ==> body[i] != Codes("lt")[i] && body[i] != Codes("gt")[i];
    assert |body| == 4 ==> body[i] != Codes("quot")[i] && body[i] != Codes("apos")[i] && body[i] != Codes("nbsp")[i];
  }

  lemma ParseAscii(codes: seq<int>, radix: nat, i: nat)
    requires i < |codes| && codes[i] >= 0x80
    ensures ParseU32(codes, radix).None?
  {
    if codes[0] == 43 {
      DigitsAscii(codes[1..], radix, i - 1);
    } else {
      DigitsAscii(codes, radix, i);
    }
  }

  lemma EntityAscii(body: seq<int>, i: nat)
    requires i < |body| && body[i] >= 0x80
    ensures Entity(body).None?
  {
    NamesAscii(body, i);
    hide Codes, ParseU32, Scalar;
    if |body| >= 2 && body[0] == 35 && (body[1] == 120 || body[1] == 88) {
      ParseAscii(body[2..], 16, i - 2);
    } else if body[0] == 35 {
      ParseAscii(body[1..], 10, i - 1);
    }
  }

  lemma {:induction false} Utf8Ascii(t: string)
    requires forall i | 0 <= i < |t| :: t[i] as int < 0x80
    ensures Utf8(t) == Codes(t)
  {
    if t != "" {
      Utf8Ascii(t[1..]);
      assert Codes(t) == [t[0] as int] + Codes(t[1..]);
    }
  }

  /** Whether an entity is recognised, and as what, does not depend on looking at bytes or at characters. */
  lemma EntityOfBytes(t: string)
    ensures Entity(Utf8(t)) == Entity(Codes(t))
  {
    if i :| 0 <= i < |t| && t[i] as int >= 0x80 {
      assert |Codes(t)| == |t| && Codes(t)[i] >= 0x80;
      hide *;
      EntityAscii(Codes(t), i);
      var k := HighByte(t, i);
      EntityAscii(Utf8(t), k);
    } else {
      Utf8Ascii(t);
    }
  }

  lemma HighByte(t: string, i: nat) returns (k: nat)
    requires i < |t| && t[i] as int >= 0x80
    ensures k < |Utf8(t)| && Utf8(t)[k] >= 0x80
  {
    var a, b := t[..i], t[i..];
    FirstByteTellsLength(t[i]);
    hide Utf8Char;
    assert Utf8(b) == Utf8Char(t[i]) + Utf8(b[1..]);
    hide Utf8;
    assert t == a + b;
    Utf8Append(a, b);
    k := |Utf8(a)|;
    assert Utf8(t)[k] == Utf8(b)[0];
  }

  // ---- the decoder ---------------------------------------------------------

  /** Decoding one character at a time. */
  function Decoded(t: string): string
    decreases |t|
  {
    if t == "" then ""
    else if t[0] != '&' then [t[0]] + Decoded(t[1..])
    else
      var e := IndexOf(t, ';');
      var c := if 0 < e < |t| then Entity(Codes(t[1..e])) else None;
      if c.Some? then [c.value] + Decoded(t[e + 1..]) else "&" + Decoded(t[1..])
  }

  /** Byte position `i` lies between two characters of `t`. */
  ghost predicate Boundary(t: string, i: nat) {
    exists k: nat | k <= |t| :: i == |Utf8(t[..k])|
  }

  lemma BoundaryBetween(a: string, b: string)
    ensures Boundary(a + b, |Utf8(a)|)
  {
    assert (a + b)[..|a|] == a;
  }

  /** The first character in the bytes of a text. */
  lemma FirstChar(u: string)
    requires u != ""
    ensures var s := Utf8(u);
            var n := CharLength(s[0]);
            && n <= |s| && s[..n] == Utf8Char(u[0]) && s[n..] == Utf8(u[1..])
            && (s[0] == 38 <==> u[0] == '&')
  {
    FirstByteTellsLength(u[0]);
    hide Utf8Char, CharLength;
  }

  lemma PlainFirst(t: string)
    requires t != "" && t[0] != '&'
    ensures Decoded(t) == [t[0]] + Decoded(t[1..])
  {
  }

  lemma {:induction false} DecodedPlain(a: string, b: string)
    requires '&' !in a
    ensures Decoded(a + b) == a + Decoded(b)
  {
    if a == "" {
      assert a + b == b;
    } else {
      hide *;
      assert a[0] in a;
      PlainFirst(a + b);
      assert (a + b)[1..] == a[1..] + b;
      DecodedPlain(a[1..], b);
      assert a == [a[0]] + a[1..];
    }
  }

  /** Skips to the next '&', one whole character after the other. */
  method SkipText(s: seq<byte>, i: nat, ghost rest: string) returns (j: nat, ghost piece: string, ghost after: string)
    requires i <= |s| && s[i..] == Utf8(rest)
    ensures i <= j <= |s| && rest == piece + after && '&' !in piece
    ensures s[i..j] == Utf8(piece) && s[j..] == Utf8(after)
    ensures i < |s| && s[i] != 38 ==> j > i
  {
    j, piece, after := i, "", rest;
    assert Utf8("") == [];
    hide Utf8Char, CharLength, Utf8;
    while j < |s| && s[j] != 38
      invariant i <= j <= |s| && rest == piece + after && '&' !in piece
      invariant s[i..j] == Utf8(piece) && s[j..] == Utf8(after)
      invariant j == i ==> after == rest
      decreases |s| - j
    {
      var n := CharLength(s[j]);
      SkipOne(s, i, j, piece, after);
      j, piece, after := j + n, piece + [after[0]], after[1..];
    }
  }

  lemma SkipOne(s: seq<byte>, i: nat, j: nat, piece: string, after: string)
    requires i <= j < |s| && s[j] != 38 && s[i..j] == Utf8(piece) && s[j..] == Utf8(after)
    ensures after != "" && after[0] != '&' && piece + [after[0]] + after[1..] == piece + after
    ensures var n := CharLength(s[j]);
            && 0 < n && j + n <= |s|
            && s[i..j + n] == Utf8(piece + [after[0]]) && s[j + n..] == Utf8(after[1..])
  {
    TextLeft(after);
    hide *;
    FirstChar(after);
    OneMore(piece, after[0]);
    assert after == [after[0]] + after[1..];
    BytesMove(s, i, j, CharLength(s[j]));
  }

  lemma BytesMove(s: seq<byte>, i: nat, j: nat, n: nat)
    requires i <= j < |s| && n <= |s[j..]|
    ensures s[j..][0] == s[j] && s[j..][n..] == s[j + n..] && s[i..j + n] == s[i..j] + s[j..][..n]
  {
  }

  lemma TextLeft(u: string)
    ensures Utf8(u) == [] <==> u == ""
  {
  }

  lemma OneMore(piece: string, c: char)
    ensures Utf8(piece + [c]) == Utf8(piece) + Utf8Char(c)
  {
    Utf8Append(piece, [c]);
    hide Utf8Char;
    assert Utf8([c]) == Utf8Char(c) + Utf8([]);
  }

  /** The byte search for ';' from an '&' finds the first ';' of the text. */
  lemma BodyFound(rest: string) returns (body: string, after: string)
    requires rest != "" && rest[0] == '&' && IndexOf(Utf8(rest), 59) < |Utf8(rest)|
    ensures rest == "&" + body + ";" + after && ';' !in body
    ensures var s, p := Utf8(rest), IndexOf(Utf8(rest), 59);
            0 < p && s[1..p] == Utf8(body) && s[p + 1..] == Utf8(after)
  {
    var e := IndexOf(rest, ';');
    FindAscii(rest, ';');
    assert rest[..|rest|] == rest;
    hide Utf8, IndexOf;
    body, after := rest[1..e], rest[e + 1..];
    BodyBytes(rest, body, after, e);
    hide *;
    Surrounded(Utf8(rest), Utf8(body), Utf8(after), IndexOf(Utf8(rest), 59));
  }

  lemma Surrounded(s: seq<byte>, body: seq<byte>, after: seq<byte>, p: nat)
    requires s == [38] + body + [59] + after && p == 1 + |body|
    ensures s[1..p] == body && s[p + 1..] == after
  {
  }

  lemma BodyBytes(rest: string, body: string, after: string, e: nat)
    requires 0 < e < |rest| && rest[0] == '&' && rest[e] == ';' && body == rest[1..e] && after == rest[e + 1..]
    ensures rest == "&" + body + ";" + after
    ensures Utf8(rest) == [38] + Utf8(body) + [59] + Utf8(after)
    ensures |Utf8(rest[..e])| == 1 + |Utf8(body)|
  {
    assert Utf8("&") == [38] && Utf8(";") == [59];
    hide Utf8;
    assert rest == "&" + body + ";" + after && rest[..e] == "&" + body;
    Utf8Append("&" + body + ";", after);
    Utf8Append("&" + body, ";");
    Utf8Append("&", body);
  }

  lemma NoBody(rest: string)
    requires rest != "" && rest[0] == '&' && IndexOf(Utf8(rest), 59) == |Utf8(rest)|
    ensures Decoded(rest) == "&" + Decoded(rest[1..])
  {
    var e := IndexOf(rest, ';');
    FindAscii(rest, ';');
    if e < |rest| {
      BodyBytes(rest, rest[1..e], rest[e + 1..], e);
    }
  }

  lemma DecodedBody(body: string, after: string)
    requires ';' !in body
    ensures var c := Entity(Codes(body));
            Decoded("&" + body + ";" + after) == if c.Some? then [c.value] + Decoded(after)
                                                 else "&" + Decoded(body + ";" + after)
  {
    hide Entity, Codes;
    var t := "&" + body + ";" + after;
    assert forall i | 0 <= i < |body| + 1 :: t[i] == if i == 0 then '&' else body[i - 1];
    IndexOfUnique(t, ';', |body| + 1);
    assert t[1..|body| + 1] == body && t[|body| + 2..] == after && t[1..] == body + ";" + after;
  }

  /** What the decoder needs to know about an '&' that a ';' follows, in bytes. */
  lemma AmpWithBody(rest: string, s: seq<byte>, p: nat) returns (body: string, after: string)
    requires s == Utf8(rest) && rest != "" && rest[0] == '&' && p == IndexOf(s, 59) < |s|
    ensures rest == "&" + body + ";" + after && 0 < p
    ensures |Utf8("&" + body + ";")| == p + 1 && s[p + 1..] == Utf8(after)
    ensures var c := Entity(s[1..p]);
            Utf8(Decoded(rest)) == if c.Some? then Utf8Char(c.value) + Utf8(Decoded(after))
                                   else [38] + Utf8(Decoded(rest[1..]))
    ensures Boundary(rest, 0) && Boundary(rest, 1) && Boundary(rest, p)
  {
    hide *;
    body, after := BodyFound(rest);
    EntityOfBytes(body);
    BodyCuts(body, after);
    assert body + ";" + after == rest[1..];
    BodyEmits(body, after);
  }

  lemma BodyEmits(body: string, after: string)
    requires ';' !in body
    ensures var c := Entity(Codes(body));
            Utf8(Decoded("&" + body + ";" + after)) ==
            if c.Some? then Utf8Char(c.value) + Utf8(Decoded(after))
            else [38] + Utf8(Decoded(body + ";" + after))
  {
    assert Utf8Char('&') == [38];
    hide *;
    DecodedBody(body, after);
    var c := Entity(Codes(body));
    OneFirst(if c.Some? then c.value else '&', if c.Some? then Decoded(after) else Decoded(body + ";" + after));
  }

  /** And about one that no ';' follows. */
  lemma AmpWithoutBody(rest: string, s: seq<byte>)
    requires s == Utf8(rest) && rest != "" && rest[0] == '&' && IndexOf(s, 59) == |s|
    ensures Utf8(Decoded(rest)) == [38] + Utf8(Decoded(rest[1..]))
  {
    NoBody(rest);
    assert Utf8Char('&') == [38];
    hide *;
    OneFirst('&', Decoded(rest[1..]));
  }

  /** `&s[i..j]`, which panics unless both ends are character boundaries. */
  method Slice(s: seq<byte>, i: nat, j: nat, ghost t: string) returns (r: seq<byte>)
    requires s == Utf8(t) && i <= j <= |s|
    requires Boundary(t, i) && Boundary(t, j)
    ensures r == s[i..j]
  {
    r := s[i..j];
  }

  /** One step at an '&', `done` behind it: the bytes to emit, and where to go on. */
  method DecodeAmp(s: seq<byte>, i: nat, ghost t: string, ghost done: string, ghost rest: string)
    returns (piece: seq<byte>, j: nat, ghost taken: string, ghost after: string)
    requires s == Utf8(t) && t == done + rest && i == |Utf8(done)|
    requires i < |s| && s[i] == 38 && s[i..] == Utf8(rest)
    ensures i < j <= |s| && rest == taken + after
    ensures j == i + |Utf8(taken)| && s[j..] == Utf8(after)
    ensures Utf8(Decoded(rest)) == piece + Utf8(Decoded(after))
  {
    hide *;
    EndsAreBoundaries(s, t, done, rest);
    FirstAmp(rest, s[i..]);
    var tail := Slice(s, i, |s|, t);
    assert tail == s[i..];
    var p := IndexOf(tail, 59);
    if i + p < |s| {
      var end := i + p;
      ghost var body, behind := AmpWithBody(rest, tail, p);
      BoundaryBehind(done, rest, 1);
      BoundaryBehind(done, rest, p);
      var inner := Slice(s, i + 1, end, t);
      var decoded := Entity(inner);
      assert tail[1..p] == inner && tail[p + 1..] == s[end + 1..];
      if decoded.Some? {
        piece, j, taken, after := Utf8Char(decoded.value), end + 1, "&" + body + ";", behind;
        return;
      }
    } else {
      AmpWithoutBody(rest, tail);
    }
    piece, j, taken, after := [38], i + 1, "&", rest[1..];
    assert tail[1..] == s[j..];
  }

  lemma EndsAreBoundaries(s: seq<byte>, t: string, done: string, rest: string)
    requires s == Utf8(t) && t == done + rest
    ensures Boundary(t, |Utf8(done)|) && Boundary(t, |s|)
  {
    hide *;
    BoundaryBetween(done, rest);
    BoundaryBetween(t, "");
    assert t + "" == t;
  }

  lemma FirstAmp(rest: string, s: seq<byte>)
    requires s == Utf8(rest) && s != [] && s[0] == 38
    ensures rest != "" && rest[0] == '&' && rest == "&" + rest[1..]
    ensures s[1..] == Utf8(rest[1..]) && Utf8Char('&') == [38] && |Utf8("&")| == 1
  {
    FirstChar(rest);
    assert Utf8Char('&') == [38] && Utf8("&") == [38];
  }

  lemma BodyCuts(body: string, after: string)
    ensures var rest := "&" + body + ";" + after;
            && Boundary(rest, 0) && Boundary(rest, 1) && Boundary(rest, 1 + |Utf8(body)|)
            && |Utf8("&" + body + ";")| == 2 + |Utf8(body)|
  {
    BodyLengths(body);
    hide *;
    BodyPrefixes(body, after, "&" + body + ";" + after);
    CutAt("", "&" + body + ";" + after);
    CutAt("&", "&" + body + ";" + after);
    CutAt("&" + body, "&" + body + ";" + after);
  }

  lemma BodyPrefixes(body: string, after: string, t: string)
    requires t == "&" + body + ";" + after
    ensures "" <= t && "&" <= t && "&" + body <= t
  {
  }

  lemma CutAt(a: string, t: string)
    requires a <= t
    ensures Boundary(t, |Utf8(a)|)
  {
    hide Utf8;
    assert t == a + t[|a|..];
    BoundaryBetween(a, t[|a|..]);
  }

  lemma BodyLengths(body: string)
    ensures |Utf8("")| == 0 && |Utf8("&")| == 1
    ensures |Utf8("&" + body)| == 1 + |Utf8(body)| && |Utf8("&" + body + ";")| == 2 + |Utf8(body)|
  {
    assert Utf8("") == [] && Utf8("&") == [38] && Utf8(";") == [59];
    hide Utf8;
    Utf8Append("&", body);
    Utf8Append("&" + body, ";");
  }

  /** A boundary of the rest of a text is one of the text. */
  lemma BoundaryBehind(done: string, rest: string, i: nat)
    requires Boundary(rest, i)
    ensures Boundary(done + rest, |Utf8(done)| + i)
  {
    var k: nat :| k <= |rest| && i == |Utf8(rest[..k])|;
    hide *;
    Utf8Append(done, rest[..k]);
    assert (done + rest)[..|done| + k] == done + rest[..k];
  }

  /**
   * The byte-indexed decoder on any UTF-8 text `t`: it computes the per-character decoding, and takes every slice
   * between character boundaries, as Slice requires.
   */
  method DecodeEntities(s: seq<byte>, ghost t: string) returns (out: seq<byte>)
    requires s == Utf8(t)
    ensures out == Utf8(Decoded(t))
  {
    out := [];
    var i: nat := 0;
    ghost var done, rest := "", t;
    assert Utf8("") == [] && "" + t == t && Decoded("") == "";
    hide *;
    while i < |s|
      invariant i <= |s| && t == done + rest && i == |Utf8(done)| && s[i..] == Utf8(rest)
      invariant out + Utf8(Decoded(rest)) == Utf8(Decoded(t))
      decreases |s| - i
    {
      var start := i;
      ghost var taken, after;
      var piece;
      if s[i] != 38 {
        i, taken, after := SkipText(s, i, rest);
        Moved(t, done, rest, taken, after);
        EndsAreBoundaries(s, t, done, rest);
        piece := Slice(s, start, i, t);
        PlainStep(taken, after);
      } else {
        piece, i, taken, after := DecodeAmp(s, i, t, done, rest);
        Moved(t, done, rest, taken, after);
      }
      Emitted(out, piece, Utf8(Decoded(rest)), Utf8(Decoded(after)), Utf8(Decoded(t)));
      out, done, rest := out + piece, done + taken, after;
    }
    TextLeft(rest);
  }

  lemma PlainStep(taken: string, after: string)
    requires '&' !in taken
    ensures Utf8(Decoded(taken + after)) == Utf8(taken) + Utf8(Decoded(after))
  {
    hide *;
    DecodedPlain(taken, after);
    Utf8Append(taken, Decoded(after));
  }

  lemma Emitted(out: seq<byte>, piece: seq<byte>, before: seq<byte>, after: seq<byte>, total: seq<byte>)
    requires out + before == total && before == piece + after
    ensures out + piece + after == total
  {
  }

  lemma Moved(t: string, done: string, rest: string, taken: string, after: string)
    requires t == done + rest && rest == taken + after
    ensures t == done + taken + after && |Utf8(done + taken)| == |Utf8(done)| + |Utf8(taken)|
    ensures Boundary(t, |Utf8(done + taken)|)
  {
    hide *;
    Utf8Append(done, taken);
    assert done + taken + after == t;
    BoundaryBetween(done + taken, after);
  }

  lemma OneFirst(c: char, rest: string)
    ensures Utf8([c] + rest) == Utf8Char(c) + Utf8(rest)
  {
    assert ([c] + rest)[1..] == rest;
  }

  /** Decoding never makes a text longer, in bytes or in characters. */
  lemma {:induction false} DecodedNotLonger(t: string)
    ensures |Decoded(t)| <= |t| && |Utf8(Decoded(t))| <= |Utf8(t)|
    decreases |t|
  {
    if t != "" {
      DecodedNotLonger(t[1..]);
      var e := IndexOf(t, ';');
      if t[0] == '&' && 0 < e < |t| && Entity(Codes(t[1..e])).Some? {
        EntityBodyLength(Codes(t[1..e]));
        DecodedNotLonger(t[e + 1..]);
        EntityLength(t, e);
        OneFirst(Entity(Codes(t[1..e])).value, Decoded(t[e + 1..]));
      } else {
        OneFirst(t[0], Decoded(t[1..]));
      }
    }
  }

  lemma EntityBodyLength(body: seq<int>)
    requires Entity(body).Some?
    ensures |body| >= 2
  {
    hide Digits, Scalar;
    assert |Codes("lt")| == 2 && |Codes("gt")| == 2;
  }

  lemma {:induction false} AtLeastOneByteEach(t: string)
    ensures |Utf8(t)| >= |t|
  {
    if t != "" { hide Utf8Char; AtLeastOneByteEach(t[1..]); }
  }

  lemma EntityLength(t: string, e: nat)
    requires 3 <= e < |t|
    ensures |Utf8(t)| >= 4 + |Utf8(t[e + 1..])|
  {
    assert t == t[..e + 1] + t[e + 1..];
    Utf8Append(t[..e + 1], t[e + 1..]);
    AtLeastOneByteEach(t[..e + 1]);
  }
}
