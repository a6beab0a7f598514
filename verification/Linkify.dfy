/**
 * Linkification of bare URLs in an HTML body (crates/aivory-mail-core/src/parser.rs).
 * `alnum` stands for Unicode's `char::is_alphanumeric`.
 */
module Linkify {
  import opened Text

  // ---- what the scanner recognises -----------------------------------------

  /** Length of the tag at the front of `s`, including '>' when there is one. */
  function TagLength(s: string): (n: nat)
    requires s != ""
    ensures 0 < n <= |s|
  {
    var j := 1 + IndexOf(s[1..], '>');
    if j < |s| then j + 1 else |s|
  }

  function TagText(s: string): string
    requires s != ""
  {
    s[1..][..IndexOf(s[1..], '>')]
  }

  function WithoutSlashes(s: string): string {
    if s != "" && s[0] == '/' then WithoutSlashes(s[1..]) else s
  }

  function FirstWord(s: string): string {
    if s == "" || IsSpace(s[0]) || s[0] == '/' then "" else [s[0]] + FirstWord(s[1..])
  }

  /** How many anchors are open after a tag. */
  function DepthAfter(tag: string, depth: nat): nat {
    var lc := Lower(TrimStart(tag));
    if FirstWord(WithoutSlashes(lc)) != "a" then depth
    else if "/" <= lc then (if depth == 0 then 0 else depth - 1)
    else if EndsWith(lc, "/") then depth
    else depth + 1
  }

  predicate StartsUrl(s: string, alnum: char -> bool) {
    || "http://" <= s || "https://" <= s
    || ("www." <= s && |s| > 4 && (s[4] == '.' || alnum(s[4]) || s[4] == '-' || s[4] == '_'))
  }

  predicate IsStop(c: char) {
    c == '<' || c == '"' || c == '\'' || c == ')' || c == ']' || c == ' ' || c == '\t' || c == '\n' || c == '\r'
  }

  predicate IsTrailing(c: char) {
    c == '.' || c == ',' || c == ';' || c == ':' || c == '!' || c == '?'
  }

  function ScanLength(s: string): (n: nat)
    ensures n <= |s| && forall i | 0 <= i < n :: !IsStop(s[i])
    ensures n < |s| ==> IsStop(s[n])
  {
    if s == "" || IsStop(s[0]) then 0 else 1 + ScanLength(s[1..])
  }

  function TrimmedLength(s: string, n: nat): (r: nat)
    requires n <= |s|
    ensures r <= n && (r > 0 ==> !IsTrailing(s[r - 1]))
    ensures forall i | r <= i < n :: IsTrailing(s[i])
  {
    if n > 0 && IsTrailing(s[n - 1]) then TrimmedLength(s, n - 1) else n
  }

  function UrlLength(s: string): (n: nat)
    ensures n <= |s|
  {
    TrimmedLength(s, ScanLength(s))
  }

  // ---- segments ------------------------------------------------------------

  datatype Segment = Tag(tag: string) | Plain(c: char) | Url(url: string)

  function Segments(s: string, depth: nat, alnum: char -> bool): seq<Segment>
    decreases |s|
  {
    if s == "" then []
    else if s[0] == '<' then
      [Tag(s[..TagLength(s)])] + Segments(s[TagLength(s)..], DepthAfter(TagText(s), depth), alnum)
    else if depth == 0 && StartsUrl(s, alnum) && UrlLength(s) > 0 then
      [Url(s[..UrlLength(s)])] + Segments(s[UrlLength(s)..], depth, alnum)
    else
      [Plain(s[0])] + Segments(s[1..], depth, alnum)
  }

  function OpenText(): string { "a href=\"" }

  function AnchorOpen(): string { "<" + OpenText() }

  function Attributes(): string { "\" target=\"_blank\" rel=\"noopener noreferrer\"" }

  function AnchorClose(): string { "</a>" }

  function Href(url: string): string {
    var href := Replace(url, "&amp;", "&");
    Replace(if "www." <= href then "https://" + href else href, "\"", "%22")
  }

  function Anchor(url: string): string {
    AnchorOpen() + Href(url) + Attributes() + ">" + url + AnchorClose()
  }

  function Source(seg: Segment): string {
    match seg
    case Tag(tag) => tag
    case Plain(c) => [c]
    case Url(url) => url
  }

  function Rendered(seg: Segment): string {
    match seg
    case Tag(tag) => tag
    case Plain(c) => [c]
    case Url(url) => Anchor(url)
  }

  function SourceAll(segs: seq<Segment>): string {
    if segs == [] then "" else Source(segs[0]) + SourceAll(segs[1..])
  }

  function RenderAll(segs: seq<Segment>): string {
    if segs == [] then "" else Rendered(segs[0]) + RenderAll(segs[1..])
  }

  /** The linkified form of `s` when `depth` anchors are open before it. */
  function Linkified(s: string, depth: nat, alnum: char -> bool): string {
    RenderAll(Segments(s, depth, alnum))
  }

  /** The inner loops: where the bare URL starting at `i` ends. */
  method UrlEnd(html: string, i: nat) returns (j: nat)
    requires i < |html|
    ensures i <= j <= |html| && j - i == UrlLength(html[i..])
  {
    hide IsStop, IsTrailing, ScanLength, TrimmedLength;
    var s := html[i..];
    j := i;
    while j < |html| && !IsStop(html[j])
      invariant i <= j <= |html|
      invariant forall x | i <= x < j :: !IsStop(html[x])
    {
      j := j + 1;
    }
    assert forall x | 0 <= x < j - i :: s[x] == html[i + x];
    ScanLengthIs(s, j - i);
    while j > i && IsTrailing(html[j - 1])
      invariant i <= j <= |html| && j - i <= ScanLength(s)
      invariant TrimmedLength(s, j - i) == UrlLength(s)
    {
      TrimmedStep(s, j - i);
      j := j - 1;
    }
    TrimmedStep(s, j - i);
    var k := i;
    var depth := 0;
    while k < j
      invariant i <= k && depth >= 0
    {
      assert html[k] == s[k - i];
      NotParenthesis(html[k]);
      if html[k] == '(' {
        depth := depth + 1;
      } else if html[k] == ')' {
        depth := depth - 1;
      }
      k := k + 1;
    }
    if depth < 0 {
      // Dropping an unbalanced ')' never happens: ')' already stopped the scan.
      assert false;
    }
  }

  lemma TrimmedStep(s: string, n: nat)
    requires n <= |s|
    ensures TrimmedLength(s, n) == if n > 0 && IsTrailing(s[n - 1]) then TrimmedLength(s, n - 1) else n
  {
  }

  method LinkifyBareUrls(html: string, alnum: char -> bool) returns (out: string)
    ensures out == Linkified(html, 0, alnum)
  {
    hide StartsUrl, DepthAfter, Anchor, Linkified, TagLength, TagText, UrlLength;
    out := "";
    var i := 0;
    var inAnchor: nat := 0;
    LinkifiedEmpty(alnum);
    assert html[0..] == html && out + Linkified(html, 0, alnum) == Linkified(html, 0, alnum);
    while i < |html|
      invariant i <= |html|
      invariant out + Linkified(html[i..], inAnchor, alnum) == Linkified(html, 0, alnum)
      decreases |html| - i
    {
      var s := html[i..];
      if html[i] == '<' {
        var j := i + 1;
        while j < |html| && html[j] != '>'
          invariant i < j <= |html|
          invariant '>' !in html[i + 1..j]
        {
          j := j + 1;
        }
        TagAt(html, i, j);
        var tag := html[i + 1..j];
        var end := if j + 1 < |html| then j + 1 else |html|;
        LinkifiedTag(s, inAnchor, alnum);
        Advance(html, i, end, out, html[i..end], Linkified(html[end..], DepthAfter(tag, inAnchor), alnum));
        out := out + html[i..end];
        inAnchor := DepthAfter(tag, inAnchor);
        i := end;
        continue;
      }
      if inAnchor == 0 && StartsUrl(s, alnum) {
        var j := UrlEnd(html, i);
        if j > i {
          var url := html[i..j];
          LinkifiedUrl(s, alnum);
          Advance(html, i, j, out, Anchor(url), Linkified(html[j..], 0, alnum));
          out := out + Anchor(url);
          i := j;
          continue;
        }
      }
      LinkifiedPlain(s, inAnchor, alnum);
      Advance(html, i, i + 1, out, [html[i]], Linkified(html[i + 1..], inAnchor, alnum));
      out := out + [html[i]];
      i := i + 1;
    }
    assert html[i..] == "" && out + "" == out;
  }

  lemma Advance(html: string, i: nat, j: nat, out: string, piece: string, rest: string)
    requires i <= j <= |html|
    ensures html[i..][..j - i] == html[i..j] && html[i..][j - i..] == html[j..]
    ensures out + piece + rest == out + (piece + rest)
  {
  }

  lemma LinkifiedEmpty(alnum: char -> bool)
    ensures forall depth: nat :: Linkified("", depth, alnum) == ""
  {
  }

  lemma TagAt(html: string, i: nat, j: nat)
    requires i < j <= |html| && '>' !in html[i + 1..j] && (j < |html| ==> html[j] == '>')
    ensures TagText(html[i..]) == html[i + 1..j]
    ensures TagLength(html[i..]) == (if j + 1 < |html| then j + 1 else |html|) - i
  {
    var s := html[i..];
    assert s[1..][..j - i - 1] == html[i + 1..j];
    IndexOfUnique(s[1..], '>', j - i - 1);
  }

  lemma NotParenthesis(c: char)
    ensures !IsStop(c) ==> c != ')'
  {
  }

  lemma ScanLengthIs(s: string, n: nat)
    requires n <= |s| && (forall i | 0 <= i < n :: !IsStop(s[i])) && (n < |s| ==> IsStop(s[n]))
    ensures ScanLength(s) == n
  {
    hide IsStop;
    if n > 0 {
      assert !IsStop(s[0]) && s != "";
      ScanLengthIs(s[1..], n - 1);
    }
  }

  // ---- one step of the linkified form --------------------------------------

  lemma RenderCons(seg: Segment, rest: seq<Segment>)
    ensures RenderAll([seg] + rest) == Rendered(seg) + RenderAll(rest)
  {
    assert ([seg] + rest)[1..] == rest;
  }

  lemma LinkifiedTag(s: string, depth: nat, alnum: char -> bool)
    requires s != "" && s[0] == '<'
    ensures Linkified(s, depth, alnum)
         == s[..TagLength(s)] + Linkified(s[TagLength(s)..], DepthAfter(TagText(s), depth), alnum)
  {
    hide DepthAfter, StartsUrl, TagLength, TagText, UrlLength;
    RenderCons(Tag(s[..TagLength(s)]), Segments(s[TagLength(s)..], DepthAfter(TagText(s), depth), alnum));
  }

  lemma LinkifiedUrl(s: string, alnum: char -> bool)
    requires s != "" && s[0] != '<' && StartsUrl(s, alnum) && UrlLength(s) > 0
    ensures Linkified(s, 0, alnum) == Anchor(s[..UrlLength(s)]) + Linkified(s[UrlLength(s)..], 0, alnum)
  {
    hide DepthAfter, StartsUrl, TagLength, TagText, UrlLength, Anchor;
    RenderCons(Url(s[..UrlLength(s)]), Segments(s[UrlLength(s)..], 0, alnum));
  }

  lemma LinkifiedPlain(s: string, depth: nat, alnum: char -> bool)
    requires s != "" && s[0] != '<' && !(depth == 0 && StartsUrl(s, alnum) && UrlLength(s) > 0)
    ensures Linkified(s, depth, alnum) == [s[0]] + Linkified(s[1..], depth, alnum)
  {
    hide DepthAfter, StartsUrl, TagLength, TagText, UrlLength, Anchor;
    RenderCons(Plain(s[0]), Segments(s[1..], depth, alnum));
  }

  // ---- only wrapping -------------------------------------------------------

  predicate UrlText(u: string) {
    && u != "" && !IsTrailing(u[|u| - 1])
    && forall i | 0 <= i < |u| :: !IsStop(u[i])
  }

  lemma ScannedUrl(s: string)
    requires UrlLength(s) > 0
    ensures UrlText(s[..UrlLength(s)])
  {
    hide IsStop, IsTrailing;
  }

  lemma FirstSegment(s: string, depth: nat, alnum: char -> bool) returns (first: Segment, rest: string, d: nat)
    requires s != ""
    ensures s == Source(first) + rest && |rest| < |s|
    ensures Segments(s, depth, alnum) == [first] + Segments(rest, d, alnum)
    ensures first.Url? ==> UrlText(first.url)
  {
    hide StartsUrl, DepthAfter, UrlText, UrlLength, TagLength;
    first, rest, d := Plain(s[0]), s[1..], depth;
    if s[0] == '<' {
      first, rest, d := Tag(s[..TagLength(s)]), s[TagLength(s)..], DepthAfter(TagText(s), depth);
    } else if depth == 0 && StartsUrl(s, alnum) && UrlLength(s) > 0 {
      ScannedUrl(s);
      first, rest := Url(s[..UrlLength(s)]), s[UrlLength(s)..];
    }
  }

  /**
   * Input and output are the same segments: everything but a bare URL is copied, and each bare URL, which
   * is never empty and holds no stop character, is wrapped in one anchor.
   */
  lemma {:induction false} OnlyWraps(s: string, depth: nat, alnum: char -> bool)
    ensures SourceAll(Segments(s, depth, alnum)) == s
    ensures forall seg | seg in Segments(s, depth, alnum) :: seg.Url? ==> UrlText(seg.url)
    decreases |s|
  {
    if s != "" {
      var first, rest, d := FirstSegment(s, depth, alnum);
      hide Segments, UrlText;
      OnlyWraps(rest, d, alnum);
      SourceCons(first, Segments(rest, d, alnum));
    }
  }

  lemma SourceCons(seg: Segment, rest: seq<Segment>)
    ensures SourceAll([seg] + rest) == Source(seg) + SourceAll(rest)
  {
    assert ([seg] + rest)[1..] == rest;
  }

  /** A recognised start always yields a URL, so the scanner's index moves on. */
  lemma UrlStartAdvances(s: string, alnum: char -> bool)
    requires StartsUrl(s, alnum)
    ensures UrlLength(s) >= 3
    ensures s[0] != '<'
  {
    var k := if "http://" <= s then 7 else if "https://" <= s then 8 else 3;
    assert forall i | 0 <= i < k :: s[i] == s[..k][i];
    assert s[..k] == "http://" || s[..k] == "https://" || s[..k] == "www";
    assert forall i | 0 <= i < k :: !IsStop(s[i]);
    assert ScanLength(s) >= k;
    assert !IsTrailing(s[k - 1]);
    assert UrlLength(s) >= k;
  }

  // ---- reading the output again --------------------------------------------

  /** Characters other than '<' at the front of the output come from the front of the input. */
  lemma {:induction false} OutputStart(s: string, depth: nat, alnum: char -> bool, w: string)
    requires w <= Linkified(s, depth, alnum) && '<' !in w
    ensures w <= s
    decreases |s|
  {
    assert w != "" ==> w[0] == Linkified(s, depth, alnum)[0];
    if s != "" && s[0] == '<' {
      LinkifiedTag(s, depth, alnum);
    } else if s != "" && depth == 0 && StartsUrl(s, alnum) && UrlLength(s) > 0 {
      LinkifiedUrl(s, alnum);
      assert Linkified(s, depth, alnum)[0] == '<';
    } else if s != "" && w != "" {
      LinkifiedPlain(s, depth, alnum);
      hide StartsUrl, DepthAfter, Linkified;
      var out := Linkified(s, depth, alnum);
      assert w[1..] <= Linkified(s[1..], depth, alnum) by { assert out[1..] == Linkified(s[1..], depth, alnum); }
      OutputStart(s[1..], depth, alnum, w[1..]);
      assert w == [w[0]] + w[1..] && s == [s[0]] + s[1..];
    }
  }

  /** A plain character does not become the start of a URL because of what was wrapped behind it. */
  lemma NoStraddlingStart(s: string, alnum: char -> bool)
    requires !alnum('<')
    ensures StartsUrl(Linkified(s, 0, alnum), alnum) ==> StartsUrl(s, alnum)
  {
    hide Linkified;
    var out := Linkified(s, 0, alnum);
    assert '<' !in "http://" && '<' !in "https://" && '<' !in "www.";
    if "http://" <= out {
      OutputStart(s, 0, alnum, "http://");
    } else if "https://" <= out {
      OutputStart(s, 0, alnum, "https://");
    } else if "www." <= out && |out| > 4 && out[4] != '<' {
      OutputStart(s, 0, alnum, out[..5]) by { FivesFront(out); }
      assert out[..5][..4] == out[..4];
      PrefixPieces(s, out[..5]);
    }
  }

  lemma FivesFront(out: string)
    requires |out| > 4 && out[4] != '<' && '<' !in out[..4]
    ensures '<' !in out[..5]
  {
    assert out[..5] == out[..4] + [out[4]];
  }

  lemma PrefixPieces(s: string, w: string)
    requires w <= s && |w| == 5
    ensures s[..4] == w[..4] && s[4] == w[4]
  {
  }

  /** A run without '<' inside an anchor is copied. */
  lemma {:induction false} AnchorContentsCopied(w: string, rest: string, depth: nat, alnum: char -> bool)
    requires '<' !in w && depth > 0
    ensures Linkified(w + rest, depth, alnum) == w + Linkified(rest, depth, alnum)
  {
    hide Linkified, StartsUrl, UrlLength;
    if w == "" {
      assert w + rest == rest;
    } else {
      LinkifiedPlain(w + rest, depth, alnum);
      assert (w + rest)[1..] == w[1..] + rest;
      AnchorContentsCopied(w[1..], rest, depth, alnum);
      assert w == [w[0]] + w[1..];
    }
  }

  /** The first '>' of `u` comes right after a '/'. */
  predicate SlashBeforeGt(u: string) {
    var k := IndexOf(u, '>');
    0 < k < |u| && u[k - 1] == '/'
  }

  lemma {:induction false} SlashBehindPrefix(p: string, u: string)
    requires '>' !in p && (u == "" || u[0] != '>')
    ensures SlashBeforeGt(p + u) == SlashBeforeGt(u)
  {
    var k := IndexOf(u, '>');
    assert forall i | 0 <= i < |p| + k :: (p + u)[i] == if i < |p| then p[i] else u[..k][i - |p|];
    IndexOfUnique(p + u, '>', |p| + k);
  }

  /** Unescaping "&amp;" does not move a '/' to the first '>' or away from it. */
  lemma {:induction false} SlashSurvivesUnescape(u: string)
    ensures var h := Replace(u, "&amp;", "&");
            && SlashBeforeGt(h) == SlashBeforeGt(u)
            && (h == "" <==> u == "") && (u != "" ==> h[0] == u[0])
    decreases |u|
  {
    if u != "" {
      var escaped := "&amp;" <= u;
      var n := if escaped then 5 else 1;
      var u', h' := u[n..], Replace(u[n..], "&amp;", "&");
      SlashSurvivesUnescape(u');
      var h := Replace(u, "&amp;", "&");
      assert u == u[..n] + u';
      assert h == [u[0]] + h';
      SlashStep(u[..n], u');
      SlashStep([u[0]], h');
      if escaped {
        assert u[..n] == "&amp;";
      }
    }
  }

  /** How `SlashBeforeGt` depends on a front part without an inner '>'. */
  lemma SlashStep(p: string, u: string)
    requires p != "" && '>' !in p[1..] && (|p| > 1 ==> p[0] != '>')
    ensures SlashBeforeGt(p + u)
         == (p[0] != '>' && if u != "" && u[0] == '>' then p[|p| - 1] == '/' else SlashBeforeGt(u))
  {
    if p[0] == '>' {
      IndexOfUnique(p + u, '>', 0);
    } else {
      assert '>' !in p by { assert p == [p[0]] + p[1..]; }
      if u != "" && u[0] == '>' {
        assert (p + u)[..|p|] == p;
        IndexOfUnique(p + u, '>', |p|);
      } else {
        SlashBehindPrefix(p, u);
      }
    }
  }

  lemma {:induction false} UnescapeAddsNone(u: string, c: char)
    requires c !in u && c != '&'
    ensures c !in Replace(u, "&amp;", "&")
    decreases |u|
  {
    if u != "" {
      UnescapeAddsNone(u[if "&amp;" <= u then 5 else 1..], c);
    }
  }

  lemma {:induction false} NoQuoteReplace(s: string)
    requires '"' !in s
    ensures Replace(s, "\"", "%22") == s
  {
    if s != "" {
      assert s[0] in s;
      NoQuoteReplace(s[1..]);
    }
  }

  lemma AttributesText()
    ensures '<' !in Attributes() && '>' !in Attributes()
    ensures Attributes() != "" && Attributes()[|Attributes()| - 1] == '"'
  {
  }

  lemma OpenTextFacts()
    ensures '>' !in OpenText() && |OpenText()| > 2
    ensures OpenText()[0] == 'a' && OpenText()[1] == ' ' && OpenText()[|OpenText()| - 1] == '"'
  {
  }

  lemma HrefFacts(u: string)
    requires u != "" && '<' !in u && '"' !in u && u[0] != '>'
    ensures '<' !in Href(u) && SlashBeforeGt(Href(u)) == SlashBeforeGt(u)
  {
    SlashSurvivesUnescape(u);
    UnescapeAddsNone(u, '<');
    UnescapeAddsNone(u, '"');
    var h := Replace(u, "&amp;", "&");
    var p := "https://";
    assert '"' !in p && '<' !in p && '>' !in p;
    hide SlashBeforeGt, Replace;
    SlashBehindPrefix(p, h);
    NoQuoteReplace(p + h);
    NoQuoteReplace(h);
  }

  lemma UrlHasNoMarkup(u: string)
    requires UrlText(u)
    ensures '<' !in u && '"' !in u
  {
  }

  /** A tag that ends at its first '>'. */
  lemma TagParts(text: string, rest: string, depth: nat, alnum: char -> bool)
    requires '>' !in text
    ensures Linkified("<" + text + ">" + rest, depth, alnum)
         == "<" + text + ">" + Linkified(rest, DepthAfter(text, depth), alnum)
  {
    hide DepthAfter, Linkified;
    var s := "<" + text + ">" + rest;
    var t := s[1..];
    assert t == text + ">" + rest;
    assert forall i | 0 <= i < |text| :: t[i] == text[i];
    IndexOfUnique(t, '>', |text|);
    assert t[..|text|] == text;
    assert TagText(s) == text && TagLength(s) == |text| + 2;
    assert s[..|text| + 2] == "<" + text + ">" && s[|text| + 2..] == rest;
    LinkifiedTag(s, depth, alnum);
  }

  /** An inserted anchor cut at its first '>': `front` ends its opening tag, `back` ends with the URL. */
  lemma AnchorCut(u: string) returns (front: string, back: string)
    requires UrlText(u) && u[0] != '>'
    ensures Anchor(u) == "<" + (OpenText() + front) + ">" + (back + AnchorClose())
    ensures '>' !in front && '<' !in back && EndsWith(back, u)
    ensures SlashBeforeGt(u) <==> front != "" && front[|front| - 1] == '/'
  {
    UrlHasNoMarkup(u);
    AttributesText();
    HrefFacts(u);
    hide Href, Attributes, OpenText, AnchorClose, SlashBeforeGt;
    front, back := CutInside(Href(u), Attributes(), u);
    Regroup(OpenText(), Href(u), Attributes(), u, AnchorClose(), front, back);
  }

  lemma Regroup(o: string, h: string, a: string, u: string, c: string, front: string, back: string)
    requires h + a + ">" + u == front + ">" + back
    ensures ("<" + o) + h + a + ">" + u + c == "<" + (o + front) + ">" + (back + c)
  {
    calc {
      ("<" + o) + h + a + ">" + u + c;
      ("<" + o) + (h + a + ">" + u) + c;
      ("<" + o) + (front + ">" + back) + c;
      "<" + (o + front) + ">" + (back + c);
    }
  }

  lemma CutInside(h: string, a: string, u: string) returns (front: string, back: string)
    requires '>' !in a && a != "" && a[|a| - 1] == '"'
    requires '<' !in h && '<' !in a && '<' !in u
    ensures h + a + ">" + u == front + ">" + back
    ensures '>' !in front && '<' !in back && EndsWith(back, u)
    ensures SlashBeforeGt(h) <==> front != "" && front[|front| - 1] == '/'
  {
    var k := IndexOf(h, '>');
    hide IndexOf;
    if k < |h| {
      front, back := h[..k], h[k + 1..] + a + ">" + u;
      assert h == front + ">" + h[k + 1..];
    } else {
      front, back := h + a, u;
    }
  }

  lemma OpeningDepth(text: string)
    requires |text| > 2 && text[0] == 'a' && text[1] == ' '
    ensures DepthAfter(text, 0) == if text[|text| - 1] == '/' then 0 else 1
  {
    assert !IsSpace('a') && IsSpace(' ');
    assert TrimStart(text) == text;
    var lc := Lower(text);
    assert lc[0] == 'a' && lc[1] == ' ' && lc[|lc| - 1] == LowerChar(text[|text| - 1]);
    hide Lower, IsSpace, TrimStart;
    assert FirstWord(lc) == "a" by { assert FirstWord(lc[1..]) == ""; }
    assert WithoutSlashes(lc) == lc && !("/" <= lc);
    LastIsSlash(lc);
  }

  lemma LastIsSlash(s: string)
    ensures EndsWith(s, "/") <==> s != "" && s[|s| - 1] == '/'
  {
  }

  lemma ClosingTag(rest: string, alnum: char -> bool)
    ensures Linkified(AnchorClose() + rest, 1, alnum) == AnchorClose() + Linkified(rest, 0, alnum)
  {
    var s := AnchorClose() + rest;
    assert s[1..][..2] == "/a" && s[3] == '>' && '>' !in "/a";
    IndexOfUnique(s[1..], '>', 2);
    assert TagText(s) == "/a" && TagLength(s) == 4 && s[0] == '<';
    ClosingDepth();
    assert s[..4] == AnchorClose() && s[4..] == rest;
    hide TagText, TagLength, DepthAfter, AnchorClose, Linkified;
    LinkifiedTag(s, 1, alnum);
  }

  lemma ClosingDepth()
    ensures DepthAfter("/a", 1) == 0
  {
    assert !IsSpace('/') && !IsSpace('a');
    hide IsSpace;
    assert TrimStart("/a") == "/a" && Lower("/a") == "/a";
    assert WithoutSlashes("/a") == "a" by { assert "/a"[1..] == "a"; }
    assert FirstWord("a") == "a" by { assert "a"[1..] == ""; }
  }

  /** The opening tag of an inserted anchor, read again, ends at the first '>' and counts unless a '/' precedes it. */
  lemma AnchorReread(u: string, rest: string, alnum: char -> bool) returns (tag: string, back: string)
    requires UrlText(u) && u[0] != '>'
    ensures Anchor(u) == tag + (back + AnchorClose())
    ensures '<' !in back && EndsWith(back, u)
    ensures Linkified(Anchor(u) + rest, 0, alnum)
         == tag + Linkified(back + (AnchorClose() + rest), if SlashBeforeGt(u) then 0 else 1, alnum)
  {
    OpenTextFacts();
    hide Anchor, UrlText, AnchorOpen, AnchorClose, OpenText, Attributes, SlashBeforeGt, DepthAfter, Linkified;
    var front: string;
    front, back := AnchorCut(u);
    var text := OpenText() + front;
    tag := "<" + text + ">";
    OpeningDepth(text);
    assert tag + (back + AnchorClose()) + rest == tag + (back + (AnchorClose() + rest));
    TagParts(text, back + (AnchorClose() + rest), 0, alnum);
  }

  /** An inserted anchor is read again as one balanced anchor, unless a '/' closes its tag early. */
  lemma GoodAnchorStands(u: string, rest: string, alnum: char -> bool)
    requires UrlText(u) && u[0] != '>' && !SlashBeforeGt(u)
    ensures Linkified(Anchor(u) + rest, 0, alnum) == Anchor(u) + Linkified(rest, 0, alnum)
  {
    hide Anchor, Linkified, UrlText, AnchorClose, SlashBeforeGt;
    var tag, back := AnchorReread(u, rest, alnum);
    AnchorContentsCopied(back, AnchorClose() + rest, 1, alnum);
    ClosingTag(rest, alnum);
    assert tag + (back + (AnchorClose() + Linkified(rest, 0, alnum)))
        == tag + (back + AnchorClose()) + Linkified(rest, 0, alnum);
  }

  ghost predicate HasUrl(segs: seq<Segment>) {
    exists seg :: seg in segs && seg.Url?
  }

  /** A URL start at depth 0 behind a run without '<' yields some URL segment. */
  lemma {:induction false} UrlFound(p: string, q: string, alnum: char -> bool)
    requires '<' !in p && StartsUrl(q, alnum)
    ensures HasUrl(Segments(p + q, 0, alnum))
  {
    var s := p + q;
    var segs := Segments(s, 0, alnum);
    if StartsUrl(s, alnum) {
      UrlStartAdvances(s, alnum);
      assert segs[0] in segs && segs[0].Url?;
    } else {
      assert p == "" ==> s == q;
      hide StartsUrl;
      assert s[1..] == p[1..] + q;
      UrlFound(p[1..], q, alnum);
      assert segs == [Plain(s[0])] + Segments(s[1..], 0, alnum);
    }
  }

  lemma AnchorLonger(u: string)
    ensures |Anchor(u)| > |u|
  {
  }

  /** Linkifying never shortens, and lengthens exactly when something is wrapped. */
  lemma {:induction false} LengthGrows(segs: seq<Segment>)
    ensures |RenderAll(segs)| >= |SourceAll(segs)|
    ensures HasUrl(segs) ==> |RenderAll(segs)| > |SourceAll(segs)|
  {
    if segs != [] {
      LengthGrows(segs[1..]);
      if segs[0].Url? { AnchorLonger(segs[0].url); }
      assert segs == [segs[0]] + segs[1..];
    }
  }

  /** A URL in which '/' meets '>' keeps its start when followed by something else. */
  lemma BadUrlStart(s: string, alnum: char -> bool, rest: string)
    requires StartsUrl(s, alnum)
    requires SlashBeforeGt(s[..UrlLength(s)])
    ensures StartsUrl(s[..UrlLength(s)] + rest, alnum)
  {
    var u := s[..UrlLength(s)];
    var k := IndexOf(u, '>');
    var p := if "http://" <= s then "http://" else if "https://" <= s then "https://" else "www.";
    assert forall i | 0 <= i < |p| :: s[i] == p[i];
    assert '>' !in p;
    assert forall i | 0 <= i < |p| :: p[i] != '>';
    assert k >= |p|;
    assert p == "www." ==> k - 1 != 3;
    assert p <= u + rest;
    assert p == "www." ==> |u| > 5 && (u + rest)[4] == s[4];
  }

  /** Wrapping such a URL lets the next run wrap again. */
  lemma BadAnchorGrows(s: string, rest: string, alnum: char -> bool)
    requires s != "" && StartsUrl(s, alnum) && UrlLength(s) > 0
    requires SlashBeforeGt(s[..UrlLength(s)])
    ensures |Linkified(Anchor(s[..UrlLength(s)]) + rest, 0, alnum)| > |Anchor(s[..UrlLength(s)]) + rest|
  {
    var u := s[..UrlLength(s)];
    var tail := AnchorClose() + rest;
    ScannedUrl(s);
    StartNotGt(s, alnum);
    BadUrlStart(s, alnum, tail);
    hide Anchor, Linkified, UrlText, StartsUrl, UrlLength, Segments, SlashBeforeGt, AnchorClose;
    var tag, back := AnchorReread(u, rest, alnum);
    BehindTag(back, u, tail, alnum);
    assert |Anchor(u) + rest| == |tag| + |back + tail|;
  }

  lemma BehindTag(back: string, u: string, tail: string, alnum: char -> bool)
    requires '<' !in back && EndsWith(back, u) && StartsUrl(u + tail, alnum)
    ensures |Linkified(back + tail, 0, alnum)| > |back + tail|
  {
    hide StartsUrl, Segments, Linkified;
    var p := back[..|back| - |u|];
    assert back == p + u && '<' !in p;
    assert p + u + tail == p + (u + tail);
    UrlFound(p, u + tail, alnum);
    GrowsIfFound(p + (u + tail), alnum);
  }

  lemma StartNotGt(s: string, alnum: char -> bool)
    requires StartsUrl(s, alnum)
    ensures s[0] == 'h' || s[0] == 'w'
  {
  }

  lemma GrowsIfFound(s: string, alnum: char -> bool)
    ensures |Linkified(s, 0, alnum)| >= |s|
    ensures HasUrl(Segments(s, 0, alnum)) ==> |Linkified(s, 0, alnum)| > |s|
  {
    OnlyWraps(s, 0, alnum);
    LengthGrows(Segments(s, 0, alnum));
  }

  /** No bare URL of `s` has a '/' right before its first '>'. */
  ghost predicate Stable(s: string, depth: nat, alnum: char -> bool) {
    forall seg | seg in Segments(s, depth, alnum) :: seg.Url? ==> !SlashBeforeGt(seg.url)
  }

  /** Linkifying a linkified text changes it exactly when some bare URL lets '/' close the inserted tag. */
  lemma {:induction false} LinkifyTwice(s: string, depth: nat, alnum: char -> bool)
    requires !alnum('<')
    ensures var once := Linkified(s, depth, alnum);
            var twice := Linkified(once, depth, alnum);
            && (Stable(s, depth, alnum) ==> twice == once)
            && |twice| >= |once|
            && (!Stable(s, depth, alnum) ==> |twice| > |once|)
    decreases |s|
  {
    if s == "" {
    } else if s[0] == '<' {
      TagTwice(s, depth, alnum);
    } else if depth == 0 && StartsUrl(s, alnum) && UrlLength(s) > 0 {
      UrlTwice(s, alnum);
    } else {
      PlainTwice(s, depth, alnum);
    }
  }

  lemma StableStep(s: string, depth: nat, alnum: char -> bool, first: Segment, rest: string, d: nat)
    requires Segments(s, depth, alnum) == [first] + Segments(rest, d, alnum)
    ensures Stable(s, depth, alnum) <==> (first.Url? ==> !SlashBeforeGt(first.url)) && Stable(rest, d, alnum)
  {
    hide SlashBeforeGt, Segments;
    var segs := Segments(s, depth, alnum);
    assert first in segs;
    assert forall seg :: seg in segs <==> seg == first || seg in Segments(rest, d, alnum);
  }

  lemma {:induction false} TagTwice(s: string, depth: nat, alnum: char -> bool)
    requires !alnum('<') && s != "" && s[0] == '<'
    ensures var once := Linkified(s, depth, alnum);
            var twice := Linkified(once, depth, alnum);
            && (Stable(s, depth, alnum) ==> twice == once)
            && |twice| >= |once|
            && (!Stable(s, depth, alnum) ==> |twice| > |once|)
    decreases |s|, 0
  {
    var n := TagLength(s);
    var tag, rest, d := s[..n], s[n..], DepthAfter(TagText(s), depth);
    StableStep(s, depth, alnum, Tag(tag), rest, d);
    LinkifiedTag(s, depth, alnum);
    var tail := Linkified(rest, d, alnum);
    SameTag(s, tail, rest == "" ==> tail == "");
    hide Segments, DepthAfter, Stable, TagLength, TagText;
    LinkifiedTag(tag + tail, depth, alnum);
    LinkifyTwice(rest, d, alnum);
    hide Linkified;
    assert (tag + tail)[..n] == tag && (tag + tail)[n..] == tail;
  }

  /** A tag followed by other text is read as the same tag. */
  lemma SameTag(s: string, tail: string, ended: bool)
    requires s != "" && s[0] == '<'
    requires ended && (s[TagLength(s)..] == "" ==> tail == "")
    ensures var s' := s[..TagLength(s)] + tail;
            s' != "" && s'[0] == '<' && TagLength(s') == TagLength(s) && TagText(s') == TagText(s)
  {
    var n := TagLength(s);
    var s' := s[..n] + tail;
    var j := IndexOf(s[1..], '>');
    if j + 1 < |s| {
      assert s'[1..][..j] == s[1..][..j];
      IndexOfUnique(s'[1..], '>', j);
    } else {
      assert s' == s by { assert s[n..] == ""; }
    }
  }

  lemma {:induction false} UrlTwice(s: string, alnum: char -> bool)
    requires !alnum('<') && s != "" && s[0] != '<' && StartsUrl(s, alnum) && UrlLength(s) > 0
    ensures var once := Linkified(s, 0, alnum);
            var twice := Linkified(once, 0, alnum);
            && (Stable(s, 0, alnum) ==> twice == once)
            && |twice| >= |once|
            && (!Stable(s, 0, alnum) ==> |twice| > |once|)
    decreases |s|, 0
  {
    var n := UrlLength(s);
    var u, rest := s[..n], s[n..];
    StableStep(s, 0, alnum, Url(u), rest, 0);
    LinkifiedUrl(s, alnum);
    ScannedUrl(s);
    StartNotGt(s, alnum);
    hide StartsUrl, UrlLength, UrlText, Segments, Stable, Linkified, Anchor, SlashBeforeGt;
    var tail := Linkified(rest, 0, alnum);
    if SlashBeforeGt(u) {
      BadAnchorGrows(s, tail, alnum);
    } else {
      GoodAnchorStands(u, tail, alnum);
      LinkifyTwice(rest, 0, alnum);
    }
  }

  lemma {:induction false} PlainTwice(s: string, depth: nat, alnum: char -> bool)
    requires !alnum('<') && s != "" && s[0] != '<' && !(depth == 0 && StartsUrl(s, alnum) && UrlLength(s) > 0)
    ensures var once := Linkified(s, depth, alnum);
            var twice := Linkified(once, depth, alnum);
            && (Stable(s, depth, alnum) ==> twice == once)
            && |twice| >= |once|
            && (!Stable(s, depth, alnum) ==> |twice| > |once|)
    decreases |s|, 0
  {
    var rest := s[1..];
    StableStep(s, depth, alnum, Plain(s[0]), rest, depth);
    LinkifiedPlain(s, depth, alnum);
    var tail := Linkified(rest, depth, alnum);
    var once := Linkified(s, depth, alnum);
    if depth == 0 {
      NoStraddlingStart(s, alnum);
      if StartsUrl(s, alnum) { UrlStartAdvances(s, alnum); }
    }
    hide Segments, Stable, StartsUrl;
    LinkifiedPlain(once, depth, alnum);
    hide Linkified;
    assert once[1..] == tail;
    LinkifyTwice(rest, depth, alnum);
  }

  /** Linkification is idempotent on exactly the stable texts. */
  lemma LinkifyIdempotentIff(s: string, alnum: char -> bool)
    requires !alnum('<')
    ensures Linkified(Linkified(s, 0, alnum), 0, alnum) == Linkified(s, 0, alnum) <==> Stable(s, 0, alnum)
  {
    hide Linkified, Stable;
    LinkifyTwice(s, 0, alnum);
  }

  lemma OneUrlNotStable(s: string, alnum: char -> bool)
    requires StartsUrl(s, alnum) && UrlText(s) && SlashBeforeGt(s)
    ensures !Stable(s, 0, alnum)
  {
    ScanLengthIs(s, |s|);
    assert UrlLength(s) == |s| && s[..|s|] == s && s[0] != '<' by { UrlStartAdvances(s, alnum); }
    hide StartsUrl, UrlText, UrlLength, SlashBeforeGt;
    assert Segments(s, 0, alnum)[0] == Url(s);
    assert Url(s) in Segments(s, 0, alnum);
  }

  lemma ShortestBadUrl(alnum: char -> bool)
    ensures var s := "http://>"; StartsUrl(s, alnum) && UrlText(s) && SlashBeforeGt(s)
  {
    var s := "http://>";
    IndexOfUnique(s, '>', 7);
  }

  /** A text on which it is not: the bare URL "http://>". */
  lemma LinkifyNotIdempotent(alnum: char -> bool)
    requires !alnum('<')
    ensures var s := "http://>"; Linkified(Linkified(s, 0, alnum), 0, alnum) != Linkified(s, 0, alnum)
  {
    var s := "http://>";
    ShortestBadUrl(alnum);
    hide StartsUrl, UrlText, SlashBeforeGt, Stable, Linkified;
    OneUrlNotStable(s, alnum);
    LinkifyIdempotentIff(s, alnum);
  }
}
