/**
 * What linkification writes for each kind of input, down to the characters: where a link starts and ends, where it
 * leads, and which tags open and close anchors.
 */
module LinkifyLaws {
  import opened Text
  import opened Linkify

  // ---- links ---------------------------------------------------------------

  /** The text with every "&amp;" read as "&". */
  function Ampersands(u: string): string {
    if |u| >= 5 && u[0] == '&' && u[1] == 'a' && u[2] == 'm' && u[3] == 'p' && u[4] == ';' then "&" + Ampersands(u[5..])
    else if u == "" then ""
    else [u[0]] + Ampersands(u[1..])
  }

  lemma {:induction false} AmpersandsIs(u: string)
    ensures Replace(u, "&amp;", "&") == Ampersands(u)
    decreases |u|
  {
    if u != "" {
      assert "&amp;" <= u <==> |u| >= 5 && u[0] == '&' && u[1] == 'a' && u[2] == 'm' && u[3] == 'p' && u[4] == ';';
      AmpersandsIs(u[if "&amp;" <= u then 5 else 1..]);
    }
  }

  /** A bare URL starts here. */
  predicate AtUrl(s: string, alnum: char -> bool) {
    || (|s| >= 7 && s[..7] == "http://") || (|s| >= 8 && s[..8] == "https://")
    || (|s| >= 5 && s[..4] == "www." && (alnum(s[4]) || s[4] in ".-_"))
  }

  /** A URL ends after `n` characters: behind it up to `m` only punctuation, and there the text or a stopping one. */
  predicate EndsAt(s: string, n: nat, m: nat) {
    && 0 < n <= m <= |s| && s[n - 1] !in ".,;:!?"
    && (forall i | 0 <= i < m :: s[i] !in "<\"')] \t\n\r")
    && (forall i | n <= i < m :: s[i] in ".,;:!?")
    && (m < |s| ==> s[m] in "<\"')] \t\n\r")
  }

  /** Where a link leads: nothing is put in front of a scheme, "https://" in front of "www.". */
  function Target(url: string): string {
    (if |url| >= 4 && url[..4] == "www." then "https://" else "") + Ampersands(url)
  }

  lemma StopsAre(c: char)
    ensures IsStop(c) <==> c in "<\"')] \t\n\r"
    ensures IsTrailing(c) <==> c in ".,;:!?"
  {
  }

  lemma AtUrlIs(s: string, alnum: char -> bool)
    ensures StartsUrl(s, alnum) <==> AtUrl(s, alnum)
  {
    assert |s| >= 7 ==> ("http://" <= s <==> s[..7] == "http://");
    assert |s| >= 8 ==> ("https://" <= s <==> s[..8] == "https://");
    assert |s| >= 4 ==> ("www." <= s <==> s[..4] == "www.");
  }

  lemma EndIs(s: string)
    requires UrlLength(s) > 0
    ensures EndsAt(s, UrlLength(s), ScanLength(s))
  {
    forall c ensures (IsStop(c) <==> c in "<\"')] \t\n\r") && (IsTrailing(c) <==> c in ".,;:!?") { StopsAre(c); }
    hide IsStop, IsTrailing;
  }

  lemma HrefIs(url: string)
    requires UrlText(url)
    ensures Href(url) == Target(url)
  {
    UrlHasNoMarkup(url);
    AmpersandsIs(url);
    UnescapeAddsNone(url, '"');
    WwwStays(url);
    var h := Replace(url, "&amp;", "&");
    assert "www." <= h <==> |url| >= 4 && url[..4] == "www.";
    assert '"' !in "https://" + h;
    hide Replace, Ampersands, UrlText;
    NoQuoteReplace(h);
    NoQuoteReplace("https://" + h);
    assert "" + h == h;
  }

  lemma AnchorIs(url: string)
    requires UrlText(url)
    ensures Anchor(url)
            == "<a href=\"" + Target(url) + "\" target=\"_blank\" rel=\"noopener noreferrer\">" + url + "</a>"
  {
    HrefIs(url);
    hide Href, Target, UrlText;
    assert AnchorOpen() == "<a href=\"";
    var h := Target(url);
    assert AnchorOpen() + h + Attributes() + ">" + url + AnchorClose()
           == "<a href=\"" + h + ("\" target=\"_blank\" rel=\"noopener noreferrer\"" + ">") + url + "</a>";
    assert "\" target=\"_blank\" rel=\"noopener noreferrer\"" + ">"
           == "\" target=\"_blank\" rel=\"noopener noreferrer\">";
  }

  lemma WwwStays(url: string)
    ensures "www." <= Replace(url, "&amp;", "&") <==> |url| >= 4 && url[..4] == "www."
  {
    assert "www." <= url <==> |url| >= 4 && url[..4] == "www.";
    if "www." <= url {
      assert url[..4] == "www.";
      ReplaceCopies(url, 4);
    }
    if "www." <= Replace(url, "&amp;", "&") {
      ReplaceKeepsPrefix(url, "&amp;", "&", "www.");
    }
  }

  lemma {:induction false} ReplaceCopies(u: string, k: nat)
    requires k <= |u| && '&' !in u[..k]
    ensures u[..k] <= Replace(u, "&amp;", "&")
    decreases k
  {
    if k > 0 {
      assert u[0] == u[..k][0] && u[1..][..k - 1] == u[..k][1..];
      ReplaceCopies(u[1..], k - 1);
      assert u[..k] == [u[0]] + u[1..][..k - 1];
    }
  }

  /** What comes of a bare URL outside anchors: one anchor, around the URL as it is, and the scan goes on behind it. */
  lemma LinkIs(s: string, alnum: char -> bool) returns (n: nat, m: nat)
    requires AtUrl(s, alnum)
    ensures EndsAt(s, n, m)
    ensures Linkified(s, 0, alnum)
            == "<a href=\"" + Target(s[..n]) + "\" target=\"_blank\" rel=\"noopener noreferrer\">" + s[..n] + "</a>"
               + Linkified(s[n..], 0, alnum)
    ensures ("http://" <= Target(s[..n]) || "https://" <= Target(s[..n])) <==> s[..n] != "www"
  {
    AtUrlIs(s, alnum);
    UrlStartAdvances(s, alnum);
    n, m := UrlLength(s), ScanLength(s);
    EndIs(s);
    ScannedUrl(s);
    hide *;
    LinkifiedUrl(s, alnum);
    AnchorIs(s[..n]);
    TargetHasScheme(s, n, m, alnum);
  }

  /** A link has a scheme, unless the URL is only "www": then all behind it is trailing punctuation. */
  lemma TargetHasScheme(s: string, n: nat, m: nat, alnum: char -> bool)
    requires AtUrl(s, alnum) && EndsAt(s, n, m)
    ensures ("http://" <= Target(s[..n]) || "https://" <= Target(s[..n])) <==> s[..n] != "www"
  {
    var u := s[..n];
    var k := StartLength(s, alnum);
    LongEnough(s, n, m, k, alnum);
    hide AtUrl, EndsAt;
    if k == 3 {
      if n == 3 {
        assert u == "www";
        WwwHasNone(u);
      } else {
        WwwWithDot(s, n);
      }
    } else {
      assert u[..k] == s[..k];
      SchemeKept(u, k);
      assert u != "www" by { assert u[0] == 'h'; }
    }
  }

  /** How many characters of a start cannot be trimmed away. */
  lemma StartLength(s: string, alnum: char -> bool) returns (k: nat)
    requires AtUrl(s, alnum)
    ensures k <= |s| && (k == 3 || k == 7 || k == 8)
    ensures s[..k] == if k == 7 then "http://" else if k == 8 then "https://" else "www"
    ensures k == 3 ==> |s| > 4 && s[3] == '.'
  {
    if s[..4] == "www." {
      assert s[3] == s[..4][3] && s[..3] == s[..4][..3];
      k := 3;
    } else if |s| >= 8 && s[..8] == "https://" {
      k := 8;
    } else {
      k := 7;
    }
  }

  lemma LongEnough(s: string, n: nat, m: nat, k: nat, alnum: char -> bool)
    requires EndsAt(s, n, m) && 0 < k <= |s|
    requires s[..k] == "http://" || s[..k] == "https://" || s[..k] == "www"
    ensures n >= k && (k == 3 && |s| > 4 && s[3] == '.' ==> n == 3 || n > 4)
  {
    assert forall i | 0 <= i < k :: s[i] == s[..k][i];
    assert forall i | 0 <= i < k :: s[..k][i] !in "<\"')] \t\n\r";
    assert m >= k;
    assert s[k - 1] !in ".,;:!?";
  }

  lemma WwwHasNone(u: string)
    requires u == "www"
    ensures !("http://" <= Target(u)) && !("https://" <= Target(u))
  {
    assert Ampersands(u) == ['w'] + Ampersands(u[1..]);
    assert Target(u)[0] == 'w';
  }

  lemma WwwWithDot(s: string, n: nat)
    requires 4 < n <= |s| && s[..3] == "www" && s[3] == '.'
    ensures "https://" <= Target(s[..n]) && s[..n] != "www"
  {
    var u := s[..n];
    assert u[..4] == "www." by { assert u[..3] == s[..3] && u[3] == '.'; }
    hide Ampersands;
    assert Target(u) == "https://" + Ampersands(u);
  }

  lemma SchemeKept(u: string, k: nat)
    requires k <= |u| && (u[..k] == "http://" || u[..k] == "https://")
    ensures u[..k] <= Target(u) && u[0] == 'h'
  {
    assert u[0] == u[..k][0] == 'h';
    assert |u| >= 4 ==> u[..4][0] == 'h';
    assert '&' !in u[..k];
    hide Target;
    CopiedPart(u, k);
    assert Target(u) == Ampersands(u) by { TargetOfScheme(u); }
  }

  lemma TargetOfScheme(u: string)
    requires u != "" && u[0] == 'h'
    ensures Target(u) == Ampersands(u)
  {
    assert |u| >= 4 ==> u[..4][0] == 'h';
    hide Ampersands;
    assert "" + Ampersands(u) == Ampersands(u);
  }

  lemma {:induction false} CopiedPart(u: string, k: nat)
    requires k <= |u| && '&' !in u[..k]
    ensures u[..k] <= Ampersands(u)
  {
    if k > 0 {
      assert u[0] == u[..k][0] && u[1..][..k - 1] == u[..k][1..];
      CopiedPart(u[1..], k - 1);
      assert u[..k] == [u[0]] + u[1..][..k - 1];
    }
  }

  /** Such a URL: the link's target is the relative "www". */
  lemma NoScheme(alnum: char -> bool)
    ensures Linkified("www..", 0, alnum)
            == "<a href=\"" + "www" + "\" target=\"_blank\" rel=\"noopener noreferrer\">" + "www" + "</a>"
               + Linkified("..", 0, alnum)
  {
    var s := "www..";
    assert s[..4] == "www." && s[4] in ".-_";
    var n, m := LinkIs(s, alnum);
    assert n == 3 by { hide Linkified; }
    assert s[..3] == "www" && s[3..] == "..";
    hide *;
    TargetOfWww();
  }

  lemma TargetOfWww()
    ensures Target("www") == "www"
  {
    var u := "www";
    assert u[1..] == "ww" && u[1..][1..] == "w" && u[1..][1..][1..] == "";
    assert Ampersands(u[1..][1..]) == "w";
    assert Ampersands(u[1..]) == "ww";
    assert Ampersands(u) == "www";
    assert "" + "www" == "www";
  }

  /** Anything else outside tags is copied. */
  lemma OthersCopied(s: string, depth: nat, alnum: char -> bool)
    requires s != "" && s[0] != '<' && (depth > 0 || !AtUrl(s, alnum))
    ensures Linkified(s, depth, alnum) == [s[0]] + Linkified(s[1..], depth, alnum)
  {
    AtUrlIs(s, alnum);
    hide StartsUrl, AtUrl, Linkified;
    LinkifiedPlain(s, depth, alnum);
  }

  // ---- tags ----------------------------------------------------------------

  /** The name of a tag: what comes before its first space or slash. */
  predicate NameAt(name: string, attributes: string) {
    && (forall i | 0 <= i < |name| :: !IsSpace(name[i]) && name[i] != '/')
    && (attributes != "" ==> IsSpace(attributes[0]) || attributes[0] == '/')
  }

  lemma {:induction false} FirstWordIs(name: string, attributes: string)
    requires NameAt(name, attributes)
    ensures FirstWord(Lower(name + attributes)) == Lower(name)
  {
    hide IsSpace;
    var lc := Lower(name + attributes);
    if name == "" {
      assert name + attributes == attributes;
      if attributes != "" { LowerSpace(attributes[0]); }
    } else {
      assert (name + attributes)[1..] == name[1..] + attributes;
      LowerSpace(name[0]);
      assert lc[1..] == Lower(name[1..] + attributes) && Lower(name) == [LowerChar(name[0])] + Lower(name[1..]);
      FirstWordIs(name[1..], attributes);
    }
  }

  lemma LowerSpace(c: char)
    ensures IsSpace(LowerChar(c)) == IsSpace(c) && (LowerChar(c) == '/' <==> c == '/')
  {
  }

  lemma LowerIsA(name: string)
    ensures Lower(name) == "a" <==> name == "a" || name == "A"
  {
    if Lower(name) == "a" {
      assert |name| == 1 && LowerChar(name[0]) == Lower(name)[0] == 'a';
    }
  }

  lemma TrimLead(lead: string, t: string)
    requires Blank(lead) && (t == "" || !IsSpace(t[0]))
    ensures TrimStart(lead + t) == t
  {
    var s := lead + t;
    var r := TrimStart(s);
    hide IsSpace, TrimStart;
    var n := |s| - |r|;
    assert n < |s| ==> r[0] == s[n];
    assert forall i | 0 <= i < n :: s[..n][i] == s[i];
    assert forall i | 0 <= i < |lead| :: s[i] == lead[i];
    assert t != "" ==> s[|lead|] == t[0];
    assert n == |lead|;
  }

  /** An opening tag counts if its name is "a" in either case and it does not end in '/'. */
  lemma OpeningCounts(lead: string, name: string, attributes: string, depth: nat)
    requires Blank(lead) && name != "" && NameAt(name, attributes)
    ensures DepthAfter(lead + name + attributes, depth)
            == if (name == "a" || name == "A") && !(attributes != "" && attributes[|attributes| - 1] == '/')
               then depth + 1 else depth
  {
    var t := name + attributes;
    var lc := Lower(t);
    assert lead + name + attributes == lead + t;
    FirstWordIs(name, attributes);
    LowerIsA(name);
    LowerSpace(name[0]);
    hide IsSpace;
    TrimLead(lead, t);
    assert lc[0] == LowerChar(name[0]) && WithoutSlashes(lc) == lc && !("/" <= lc);
    LowerSpace(t[|t| - 1]);
    LastIsSlash(lc);
    hide Lower, LowerChar, FirstWord, TrimStart, WithoutSlashes;
    if attributes == "" { assert t == name; }
  }

  /** A closing one closes an anchor, if one is open, if its name is "a" in either case. */
  lemma ClosingCounts(lead: string, name: string, attributes: string, depth: nat)
    requires Blank(lead) && NameAt(name, attributes) && !(name == "" && attributes != "" && attributes[0] == '/')
    ensures DepthAfter(lead + "/" + name + attributes, depth)
            == if (name == "a" || name == "A") && depth > 0 then depth - 1 else depth
  {
    var t := name + attributes;
    var lc := Lower("/" + t);
    assert lead + "/" + name + attributes == lead + ("/" + t);
    assert !IsSpace('/');
    SlashInFront(t);
    NoSlashFirst(name, attributes);
    hide IsSpace, Lower, LowerChar, TrimStart, WithoutSlashes, FirstWord, NameAt, Blank;
    FirstWordIs(name, attributes);
    LowerIsA(name);
    TrimLead(lead, "/" + t);
  }

  lemma SlashInFront(t: string)
    requires t == "" || t[0] != '/'
    ensures var lc := Lower("/" + t); "/" <= lc && WithoutSlashes(lc) == Lower(t)
  {
    var lc := Lower("/" + t);
    assert lc[0] == '/' && lc[1..] == Lower(t);
    if t != "" { LowerSpace(t[0]); }
    assert WithoutSlashes(lc[1..]) == lc[1..] by { assert t != "" ==> lc[1..][0] == LowerChar(t[0]); }
  }

  lemma NoSlashFirst(name: string, attributes: string)
    requires NameAt(name, attributes) && !(name == "" && attributes != "" && attributes[0] == '/')
    ensures var t := name + attributes; t == "" || t[0] != '/'
  {
    hide IsSpace;
  }

  /** A tag is copied whole; what it does to the number of open anchors shows behind it. */
  lemma TagIs(text: string, rest: string, depth: nat, alnum: char -> bool)
    ensures '>' !in text ==>
              Linkified("<" + text + ">" + rest, depth, alnum)
              == "<" + text + ">" + Linkified(rest, DepthAfter(text, depth), alnum)
    ensures '>' !in text ==> Linkified("<" + text, depth, alnum) == "<" + text
  {
    if '>' !in text {
      hide DepthAfter, Linkified;
      TagParts(text, rest, depth, alnum);
      var s := "<" + text;
      assert s[1..] == text;
      IndexOfUnique(text, '>', |text|);
      assert text[..|text|] == text && s[..|s|] == s && s[|s|..] == "";
      assert TagLength(s) == |s| && TagText(s) == text;
      LinkifiedTag(s, depth, alnum);
      LinkifiedEmpty(alnum);
      assert s + "" == s;
    }
  }

  /**
   * An anchor of the sender's, in either case and with any attributes, stands as it is with everything in it, and
   * what follows it is linkified as if it were not there.
   */
  lemma AnchorStands(a: string, attributes: string, text: string, b: string, rest: string, alnum: char -> bool)
    requires (a == "a" || a == "A") && (b == "a" || b == "A") && '>' !in attributes && '<' !in text
    requires attributes != "" ==> IsSpace(attributes[0]) && attributes[|attributes| - 1] != '/'
    ensures Linkified("<" + (a + attributes) + ">" + (text + ("<" + ("/" + b) + ">" + rest)), 0, alnum)
            == "<" + (a + attributes) + ">" + (text + ("<" + ("/" + b) + ">" + Linkified(rest, 0, alnum)))
  {
    AnchorDepths(a, attributes, b);
    hide *;
    var behind := "<" + ("/" + b) + ">" + rest;
    TagIs(a + attributes, text + behind, 0, alnum);
    AnchorContentsCopied(text, behind, 1, alnum);
    TagIs("/" + b, rest, 1, alnum);
  }

  lemma AnchorDepths(a: string, attributes: string, b: string)
    requires (a == "a" || a == "A") && (b == "a" || b == "A") && '>' !in attributes
    requires attributes != "" ==> IsSpace(attributes[0]) && attributes[|attributes| - 1] != '/'
    ensures DepthAfter(a + attributes, 0) == 1 && DepthAfter("/" + b, 1) == 0
    ensures '>' !in a + attributes && '>' !in "/" + b
  {
    AIsName(a, attributes);
    AIsName(b, "");
    hide *;
    SenderOpens(a, attributes);
    SenderCloses(b);
  }

  lemma SenderOpens(a: string, attributes: string)
    requires (a == "a" || a == "A") && Blank("") && NameAt(a, attributes)
    requires attributes != "" ==> attributes[|attributes| - 1] != '/'
    ensures DepthAfter(a + attributes, 0) == 1
  {
    hide *;
    OpeningCounts("", a, attributes, 0);
    assert "" + a + attributes == a + attributes;
  }

  lemma SenderCloses(b: string)
    requires (b == "a" || b == "A") && Blank("") && NameAt(b, "")
    ensures DepthAfter("/" + b, 1) == 0
  {
    hide *;
    ClosingCounts("", b, "", 1);
    assert "" + "/" + b + "" == "/" + b;
  }

  lemma AIsName(a: string, attributes: string)
    requires (a == "a" || a == "A") && (attributes != "" ==> IsSpace(attributes[0]))
    ensures NameAt(a, attributes) && Blank("") && '>' !in "/" + a && ('>' !in attributes ==> '>' !in a + attributes)
  {
    assert !IsSpace('a') && !IsSpace('A');
    hide IsSpace;
  }
}
