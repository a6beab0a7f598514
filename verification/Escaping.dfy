/**
 * `strip_tags` of crates/aivory-mail-api/src/mcp_reply.rs and `escapeHtml` of web/components/ComposeModal.tsx: the one
 * undoes the other.
 */
module Escaping {
  import opened Text
  import opened Entities

  /** Text outside tags, as `strip_tags` keeps it before decoding. */
  function Untagged(html: string, inTag: bool): string {
    if html == "" then ""
    else if html[0] == '<' then Untagged(html[1..], true)
    else if html[0] == '>' then Untagged(html[1..], false)
    else if inTag then Untagged(html[1..], inTag)
    else [html[0]] + Untagged(html[1..], inTag)
  }

  function Stripped(html: string): string {
    Decoded(Untagged(html, false))
  }

  method StripTags(html: string) returns (r: string)
    ensures r == Stripped(html)
  {
    var out := "";
    var inTag := false;
    for i := 0 to |html|
      invariant out + Untagged(html[i..], inTag) == Untagged(html, false)
    {
      var c := html[i];
      assert html[i..][1..] == html[i + 1..];
      if c == '<' {
        inTag := true;
      } else if c == '>' {
        inTag := false;
      } else if !inTag {
        out := out + [c];
      }
    }
    assert out + "" == out;
    r := Decoded(out);
  }

  /** Position `i` is inside a tag: the last angle bracket before it is a '<'. */
  predicate InTag(html: string, i: nat)
    requires i <= |html|
  {
    exists j | 0 <= j < i :: html[j] == '<' && forall k | j < k < i :: html[k] != '>'
  }

  /** The characters before `n` that are no angle brackets and in no tag. */
  function Outside(html: string, n: nat): string
    requires n <= |html|
  {
    if n == 0 then ""
    else Outside(html, n - 1)
         + if html[n - 1] != '<' && html[n - 1] != '>' && !InTag(html, n - 1) then [html[n - 1]] else ""
  }

  lemma InTagStep(html: string, n: nat)
    requires n < |html|
    ensures InTag(html, n + 1) <==> html[n] == '<' || (html[n] != '>' && InTag(html, n))
  {
    if html[n] != '>' && InTag(html, n) {
      var j :| 0 <= j < n && html[j] == '<' && forall k | j < k < n :: html[k] != '>';
      assert forall k | j < k < n + 1 :: html[k] != '>';
    }
  }

  lemma {:induction false} UntaggedFrom(html: string, n: nat)
    requires n <= |html|
    ensures Outside(html, n) + Untagged(html[n..], InTag(html, n)) == Untagged(html, false)
  {
    if n == 0 {
      assert html[0..] == html && !InTag(html, 0);
    } else {
      UntaggedFrom(html, n - 1);
      InTagStep(html, n - 1);
      hide InTag;
      assert html[n - 1..][1..] == html[n..] && html[n - 1..][0] == html[n - 1];
    }
  }

  /** Stripping keeps, decoded, exactly the text outside tags, tags that do not close included, and no bracket. */
  lemma StrippedIs(html: string)
    ensures Stripped(html) == Decoded(Outside(html, |html|))
  {
    UntaggedFrom(html, |html|);
    hide Decoded, Outside, InTag;
    assert html[|html|..] == "" && Outside(html, |html|) + "" == Outside(html, |html|);
  }

  function EscapeHtml(s: string): string {
    Replace(Replace(Replace(s, "&", "&amp;"), "<", "&lt;"), ">", "&gt;")
  }

  function EscapedChar(c: char): string {
    if c == '&' then "&amp;" else if c == '<' then "&lt;" else if c == '>' then "&gt;" else [c]
  }

  function Escaped(s: string): string {
    if s == "" then "" else EscapedChar(s[0]) + Escaped(s[1..])
  }

  lemma {:induction false} ReplaceCharAppend(a: string, b: string, p: string, r: string)
    requires |p| == 1
    ensures Replace(a + b, p, r) == Replace(a, p, r) + Replace(b, p, r)
  {
    if a == "" {
      assert a + b == b;
    } else {
      ReplaceCharAppend(a[1..], b, p, r);
      ReplaceFirst(a, p, r);
      ReplaceFirst(a + b, p, r);
      hide *;
      assert (a + b)[1..] == a[1..] + b && (a + b)[0] == a[0];
      Associate(if a[0] == p[0] then r else [a[0]], Replace(a[1..], p, r), Replace(b, p, r));
    }
  }

  lemma Associate(a: string, b: string, c: string)
    ensures a + (b + c) == a + b + c
  {
  }

  lemma ReplaceFirst(s: string, p: string, r: string)
    requires s != "" && |p| == 1
    ensures Replace(s, p, r) == (if s[0] == p[0] then r else [s[0]]) + Replace(s[1..], p, r)
  {
    assert p <= s <==> s[0] == p[0];
  }

  lemma {:induction false} ReplaceAbsent(s: string, c: char, r: string)
    requires c !in s
    ensures Replace(s, [c], r) == s
  {
    if s != "" {
      assert s[0] in s;
      ReplaceAbsent(s[1..], c, r);
    }
  }

  lemma ReplaceOnly(c: char, r: string)
    ensures Replace([c], [c], r) == r
  {
    assert [c][1..] == "" && r + "" == r;
  }

  lemma EscapeOne(c: char)
    ensures EscapeHtml([c]) == EscapedChar(c)
  {
    if c == '&' {
      ReplaceOnly(c, "&amp;");
      ReplaceAbsent("&amp;", '<', "&lt;");
      ReplaceAbsent("&amp;", '>', "&gt;");
    } else if c == '<' {
      ReplaceAbsent([c], '&', "&amp;");
      ReplaceOnly(c, "&lt;");
      ReplaceAbsent("&lt;", '>', "&gt;");
    } else {
      ReplaceAbsent([c], '&', "&amp;");
      ReplaceAbsent([c], '<', "&lt;");
      if c == '>' { ReplaceOnly(c, "&gt;"); } else { ReplaceAbsent([c], '>', "&gt;"); }
    }
  }

  /** The three global replacements, one after the other, escape each character once. */
  lemma {:induction false} EscapeIsPerChar(s: string)
    ensures EscapeHtml(s) == Escaped(s)
  {
    if s != "" {
      EscapeIsPerChar(s[1..]);
      EscapeOne(s[0]);
      hide EscapedChar;
      assert s == [s[0]] + s[1..];
      var amp := Replace([s[0]], "&", "&amp;");
      ReplaceCharAppend([s[0]], s[1..], "&", "&amp;");
      ReplaceCharAppend(amp, Replace(s[1..], "&", "&amp;"), "<", "&lt;");
      ReplaceCharAppend(Replace(amp, "<", "&lt;"), Replace(Replace(s[1..], "&", "&amp;"), "<", "&lt;"), ">", "&gt;");
    }
  }

  lemma {:induction false} UntaggedPlain(s: string)
    requires '<' !in s && '>' !in s
    ensures Untagged(s, false) == s
  {
    if s != "" {
      assert s[0] in s;
      UntaggedPlain(s[1..]);
    }
  }

  lemma EscapedHasNoTags(s: string)
    ensures '<' !in Escaped(s) && '>' !in Escaped(s)
  {
  }

  /** What the three escapes name. */
  lemma EscapesDecode()
    ensures Entity(Codes("amp")) == Some('&') && Entity(Codes("lt")) == Some('<') && Entity(Codes("gt")) == Some('>')
  {
    assert Codes("amp") != Codes("lt") && Codes("amp") != Codes("gt") by { assert |Codes("amp")| == 3; }
    assert Codes("lt") != Codes("gt") by { assert Codes("lt")[0] == 108 && Codes("gt")[0] == 103; }
  }

  lemma EscapedCharDecodes(c: char, rest: string)
    ensures Decoded(EscapedChar(c) + rest) == [c] + Decoded(rest)
  {
    EscapesDecode();
    hide Entity, Codes;
    if c == '&' {
      assert "&amp;" == "&" + "amp" + ";";
      DecodedBody("amp", rest);
    } else if c == '<' {
      assert "&lt;" == "&" + "lt" + ";";
      DecodedBody("lt", rest);
    } else if c == '>' {
      assert "&gt;" == "&" + "gt" + ";";
      DecodedBody("gt", rest);
    } else {
      assert ([c] + rest)[1..] == rest;
    }
  }

  lemma {:induction false} DecodedEscaped(s: string)
    ensures Decoded(Escaped(s)) == s
  {
    if s != "" {
      DecodedEscaped(s[1..]);
      EscapedCharDecodes(s[0], Escaped(s[1..]));
      hide Decoded, EscapedChar;
      assert s == [s[0]] + s[1..];
    }
  }

  /** Stripping tags from escaped text gives the text back. */
  lemma StripEscaped(s: string)
    ensures Stripped(EscapeHtml(s)) == s
  {
    EscapeIsPerChar(s);
    EscapedHasNoTags(s);
    UntaggedPlain(Escaped(s));
    DecodedEscaped(s);
  }
}
