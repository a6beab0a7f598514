/** Which lines of a message count as its own, and what stands where in the conversation block. */
module DraftingLaws {
  import opened Text
  import opened Drafting

  // ---- lines that are kept -------------------------------------------------

  /** The first character that is no space is '>'. */
  predicate Marked(line: string) {
    exists k | 0 <= k < |line| :: line[k] == '>' && Blank(line[..k])
  }

  /** The same character, where a lower-case letter also stands for its capital. */
  predicate Like(c: char, p: char) {
    c == p || ('a' <= p <= 'z' && c as int + 32 == p as int)
  }

  predicate StartsLike(t: string, p: string) {
    |p| <= |t| && forall i | 0 <= i < |p| :: Like(t[i], p[i])
  }

  predicate LikeAt(t: string, p: string, at: nat)
    requires at + |p| <= |t|
  {
    forall i | 0 <= i < |p| :: Like(t[at + i], p[i])
  }

  /** Up to space at the end. */
  predicate EndsLike(t: string, p: string) {
    exists at | 0 <= at <= |t| - |p| :: LikeAt(t, p, at) && Blank(t[at + |p|..])
  }

  /** A line that opens a quotation; a "From:" line does so only behind a blank line. */
  predicate Quotes(line: string, blankBefore: bool) {
    var t := TrimStart(line);
    || (StartsLike(t, "on ") && EndsLike(t, "wrote:"))
    || (StartsLike(t, "pada ") && EndsLike(t, "menulis:"))
    || StartsLike(t, "-----original message-----")
    || (StartsLike(t, "from:") && blankBefore)
  }

  predicate BlankAmong(lines: seq<string>, n: nat)
    requires n <= |lines|
  {
    exists i | 0 <= i < n :: Blank(lines[i])
  }

  /** The first `n` lines without the marked ones. */
  function Own(lines: seq<string>, n: nat): seq<string>
    requires n <= |lines|
  {
    if n == 0 then [] else Own(lines, n - 1) + if Marked(lines[n - 1]) then [] else [lines[n - 1]]
  }

  lemma MarkedIs(line: string)
    ensures IsQuoted(TrimStart(line)) <==> Marked(line)
  {
    var t := TrimStart(line);
    var n := |line| - |t|;
    assert !IsSpace('>');
    hide TrimStart, IsSpace;
    if IsQuoted(t) { assert line[n] == t[0] == '>'; }
    if Marked(line) {
      var k :| 0 <= k < |line| && line[k] == '>' && Blank(line[..k]);
      if k < n {
        assert line[..n][k] == line[k];
      } else if k > n {
        assert line[..k][n] == line[n] && line[n] == t[0];
      }
    }
  }

  lemma StartsLikeIs(t: string, p: string)
    requires forall i | 0 <= i < |p| :: !('A' <= p[i] <= 'Z')
    ensures p <= Lower(t) <==> StartsLike(t, p)
  {
    assert forall i | 0 <= i < |t| && i < |p| :: Lower(t)[i] == p[i] <==> Like(t[i], p[i]);
    hide Like, LowerChar;
    if p <= Lower(t) { assert forall i | 0 <= i < |p| :: Lower(t)[i] == p[i]; }
  }

  lemma LowerFacts(t: string)
    ensures forall e | 0 <= e <= |t| :: Blank(Lower(t)[e..]) <==> Blank(t[e..])
  {
    var l := Lower(t);
    assert forall c :: IsSpace(LowerChar(c)) == IsSpace(c);
    assert forall i | 0 <= i < |t| :: l[i] == LowerChar(t[i]);
    hide IsSpace, LowerChar, Lower;
    forall e | 0 <= e <= |t| ensures Blank(l[e..]) <==> Blank(t[e..]) {
      assert forall i | 0 <= i < |t| - e :: l[e..][i] == LowerChar(t[e..][i]);
    }
  }

  lemma PartIs(t: string, p: string, at: nat)
    requires at + |p| <= |t| && forall i | 0 <= i < |p| :: !('A' <= p[i] <= 'Z')
    ensures Lower(t)[at..at + |p|] == p <==> LikeAt(t, p, at)
  {
    var l := Lower(t)[at..at + |p|];
    assert forall i | 0 <= i < |p| :: l[i] == p[i] <==> Like(t[at + i], p[i]);
    hide Like, Lower;
  }

  lemma EndsLikeIs(t: string, p: string)
    requires p != "" && !IsSpace(p[|p| - 1]) && forall i | 0 <= i < |p| :: !('A' <= p[i] <= 'Z')
    ensures EndsWith(TrimEnd(Lower(t)), p) <==> EndsLike(t, p)
  {
    LowerFacts(t);
    var l := Lower(t);
    var r := TrimEnd(l);
    hide IsSpace, LikeAt, Lower, TrimEnd, Blank;
    if EndsWith(r, p) {
      var at := |r| - |p|;
      assert r == l[..|r|] && r[at..] == l[at..|r|];
      PartIs(t, p, at);
      assert LikeAt(t, p, at) && Blank(t[at + |p|..]);
    }
    if EndsLike(t, p) {
      var at: nat :| at <= |t| - |p| && LikeAt(t, p, at) && Blank(t[at + |p|..]);
      PartIs(t, p, at);
      hide EndsLike;
      SolidPart(l, p, at);
    }
  }

  /** Text that ends in `p`, with space behind it. */
  lemma SolidPart(l: string, p: string, at: nat)
    requires at + |p| <= |l| && p != "" && !IsSpace(p[|p| - 1])
    requires l[at..at + |p|] == p && Blank(l[at + |p|..])
    ensures EndsWith(TrimEnd(l), p)
  {
    hide IsSpace, Blank;
    var front := l[..at + |p|];
    assert l == front + l[at + |p|..] && front[at..] == p;
    assert front[|front| - 1] == l[at..at + |p|][|p| - 1];
    SolidEnd(front);
    TrimEndIgnoresBlank(front, l[at + |p|..]);
  }

  lemma SolidEnd(s: string)
    requires s != "" && !IsSpace(s[|s| - 1])
    ensures TrimEnd(s) == s
  {
  }

  lemma OpeningsAre(t: string)
    ensures "on " <= Lower(t) <==> StartsLike(t, "on ")
    ensures "pada " <= Lower(t) <==> StartsLike(t, "pada ")
    ensures "-----original message-----" <= Lower(t) <==> StartsLike(t, "-----original message-----")
    ensures "from:" <= Lower(t) <==> StartsLike(t, "from:")
  {
    hide StartsLike, Lower;
    StartsLikeIs(t, "on ");
    StartsLikeIs(t, "pada ");
    StartsLikeIs(t, "-----original message-----");
    StartsLikeIs(t, "from:");
  }

  lemma EndingsAre(t: string)
    ensures EndsWith(TrimEnd(Lower(t)), "wrote:") <==> EndsLike(t, "wrote:")
    ensures EndsWith(TrimEnd(Lower(t)), "menulis:") <==> EndsLike(t, "menulis:")
  {
    assert !IsSpace(':');
    hide EndsLike, EndsWith, TrimEnd, Lower, IsSpace;
    EndsLikeIs(t, "wrote:");
    EndsLikeIs(t, "menulis:");
  }

  lemma QuotesIs(line: string, kept: seq<string>)
    ensures IsAttribution(TrimStart(line), kept) <==> Quotes(line, HasBlank(kept))
  {
    hide Lower, TrimStart, TrimEnd, StartsLike, EndsLike, EndsWith, Blank;
    OpeningsAre(TrimStart(line));
    EndingsAre(TrimStart(line));
    assert HasBlank(kept) ==> kept != [];
  }

  lemma BlankIsOwn(line: string)
    ensures Blank(line) ==> !Marked(line)
  {
    assert !IsSpace('>');
  }

  lemma {:induction false} BlankKept(lines: seq<string>, n: nat)
    requires n <= |lines|
    ensures HasBlank(Own(lines, n)) <==> BlankAmong(lines, n)
  {
    if n > 0 {
      BlankKept(lines, n - 1);
      BlankIsOwn(lines[n - 1]);
      var before, kept := Own(lines, n - 1), Own(lines, n);
      hide Marked, Blank;
      if kept != before {
        assert kept[|kept| - 1] == lines[n - 1] && forall i | 0 <= i < |before| :: kept[i] == before[i];
      }
    }
  }

  lemma {:induction false} ScanFrom(lines: seq<string>, i: nat) returns (n: nat)
    requires i <= |lines|
    ensures i <= n <= |lines| && ScanLines(lines[i..], Own(lines, i)).kept == Own(lines, n)
    ensures forall j | i <= j < n :: Marked(lines[j]) || !Quotes(lines[j], BlankAmong(lines, j))
    ensures n < |lines| ==> !Marked(lines[n]) && Quotes(lines[n], BlankAmong(lines, n))
    decreases |lines| - i
  {
    hide Marked, Quotes, BlankAmong, IsQuoted, IsAttribution, TrimStart;
    if i == |lines| {
      n := i;
    } else {
      assert lines[i..][0] == lines[i] && lines[i..][1..] == lines[i + 1..];
      MarkedIs(lines[i]);
      QuotesIs(lines[i], Own(lines, i));
      BlankKept(lines, i);
      assert Own(lines, i) + [] == Own(lines, i);
      if !Marked(lines[i]) && Quotes(lines[i], BlankAmong(lines, i)) {
        n := i;
      } else {
        n := ScanFrom(lines, i + 1);
      }
    }
  }

  /**
   * What a message contributes: its lines up to the first one that opens a quotation, without those marked with '>',
   * joined and trimmed.
   */
  lemma KeptLines(body: string) returns (n: nat)
    ensures var lines := Lines(Replace(body, "\r\n", "\n"));
            && n <= |lines| && Unquoted(body) == Trim(Join(Own(lines, n), "\n"))
            && (forall i | 0 <= i < n :: Marked(lines[i]) || !Quotes(lines[i], BlankAmong(lines, i)))
            && (n < |lines| ==> !Marked(lines[n]) && Quotes(lines[n], BlankAmong(lines, n)))
  {
    var lines := Lines(Replace(body, "\r\n", "\n"));
    n := ScanFrom(lines, 0);
    assert lines[0..] == lines && Own(lines, 0) == [];
    hide ScanLines, Lines, Replace, Trim, Join, Marked, Quotes, BlankAmong;
  }

  // ---- the conversation block ----------------------------------------------

  /** The text with a space put before the '>' of each fence tag. */
  function Defused(t: string): string
    decreases |t|
  {
    if t == "" then ""
    else if |t| >= 14 && t[..14] == "<conversation>" then "<conversation >" + Defused(t[14..])
    else if |t| >= 15 && t[..15] == "</conversation>" then "</conversation >" + Defused(t[15..])
    else [t[0]] + Defused(t[1..])
  }

  /** A text without the pattern's first character is passed over. */
  lemma {:induction false} PassesOver(a: string, rest: string, p: string, r: string)
    requires p != "" && p[0] !in a
    ensures Replace(a + rest, p, r) == a + Replace(rest, p, r)
  {
    if a == "" {
      assert a + rest == rest;
    } else {
      assert (a + rest)[1..] == a[1..] + rest && (a + rest)[0] == a[0] && a[0] in a;
      PassesOver(a[1..], rest, p, r);
      assert a == [a[0]] + a[1..];
    }
  }

  lemma TagPassesOver(rest: string)
    ensures Replace("<conversation >" + rest, CLOSE, "</conversation >")
            == "<conversation >" + Replace(rest, CLOSE, "</conversation >")
  {
    var a := "conversation >";
    var t := "<conversation >" + rest;
    assert "<conversation >" == ['<'] + a && t[1] == 'c' && CLOSE[1] == '/' && CLOSE[0] == '<' && '<' !in a;
    assert t[1..] == a + rest && t[0] == '<';
    assert !(CLOSE <= t);
    assert Replace(t, CLOSE, "</conversation >") == [t[0]] + Replace(t[1..], CLOSE, "</conversation >");
    hide Replace;
    PassesOver(a, rest, CLOSE, "</conversation >");
  }

  lemma CopiedFirst(t: string)
    requires t != "" && !(OPEN <= t)
    ensures Replace(t, OPEN, "<conversation >") == [t[0]] + Replace(t[1..], OPEN, "<conversation >")
  {
  }

  lemma ClosesAlready(t: string)
    requires t != "" && !(OPEN <= t) && CLOSE <= Replace(t, OPEN, "<conversation >")
    ensures CLOSE <= t
  {
    CopiedFirst(t);
    var rest := Replace(t[1..], OPEN, "<conversation >");
    var name := CLOSE[1..];
    assert '<' !in name && CLOSE == [CLOSE[0]] + name;
    assert name <= rest by { assert ([t[0]] + rest)[1..] == rest; }
    ReplaceKeepsPrefix(t[1..], OPEN, "<conversation >", name);
    hide Replace;
    assert t == [t[0]] + t[1..] && ([t[0]] + rest)[0] == t[0];
  }

  lemma ClosesStill(t: string)
    requires CLOSE <= t && !(OPEN <= t)
    ensures Replace(t, OPEN, "<conversation >") == CLOSE + Replace(t[|CLOSE|..], OPEN, "<conversation >")
  {
    assert '<' !in CLOSE[1..] && OPEN[0] == '<' && |CLOSE| > 0;
    hide Replace;
    CopiedFirst(t);
    FirstApart(CLOSE, t[|CLOSE|..]);
    FirstApart(CLOSE, Replace(t[|CLOSE|..], OPEN, "<conversation >"));
    assert t == CLOSE + t[|CLOSE|..];
    PassesOver(CLOSE[1..], t[|CLOSE|..], OPEN, "<conversation >");
  }

  lemma FirstApart(p: string, rest: string)
    requires p != ""
    ensures (p + rest)[0] == p[0] && (p + rest)[1..] == p[1..] + rest && [p[0]] + (p[1..] + rest) == p + rest
  {
  }

  /** The other tag is found after the first replacement where it was before it. */
  lemma StillCloses(t: string)
    requires t != "" && !(OPEN <= t)
    ensures CLOSE <= t <==> CLOSE <= Replace(t, OPEN, "<conversation >")
    ensures CLOSE <= t ==>
              Replace(t, OPEN, "<conversation >")[|CLOSE|..] == Replace(t[|CLOSE|..], OPEN, "<conversation >")
  {
    hide Replace;
    if CLOSE <= Replace(t, OPEN, "<conversation >") { ClosesAlready(t); }
    if CLOSE <= t { ClosesStill(t); }
  }

  /** Both replacements together are one pass. */
  lemma {:induction false} FenceIs(t: string)
    ensures Fence(t) == Defused(t)
    decreases |t|
  {
    assert |OPEN| == 14 && |CLOSE| == 15;
    assert |t| >= 14 ==> (OPEN <= t <==> t[..14] == "<conversation>");
    assert |t| >= 15 ==> (CLOSE <= t <==> t[..15] == "</conversation>");
    if t == "" {
    } else if OPEN <= t {
      FenceIs(t[14..]);
      TagPassesOver(Replace(t[14..], OPEN, "<conversation >"));
    } else {
      StillCloses(t);
      var once := Replace(t, OPEN, "<conversation >");
      CopiedFirst(t);
      if CLOSE <= t {
        FenceIs(t[15..]);
      } else {
        assert once[1..] == Replace(t[1..], OPEN, "<conversation >") && once[0] == t[0];
        FenceIs(t[1..]);
      }
    }
  }

  /** At most 2500 characters of a body, with a mark if there were more. */
  function Cut(body: string): string {
    if |body| <= 2500 then body else body[..2500] + " […]"
  }

  /** A message in the block: sender, date and its own lines, each without fence tags; the owner is "You (address)". */
  lemma BlockIs(m: Message)
    ensures Block(m) == "From: " + Defused(if m.fromOwner then "You (" + m.from + ")" else m.from)
                        + "\nDate: " + Defused(m.date) + "\n\n" + Defused(Cut(Unquoted(m.body)))
  {
    var who := if m.fromOwner then "You (" + m.from + ")" else m.from;
    FenceIs(who);
    FenceIs(m.date);
    FenceIs(Cut(Unquoted(m.body)));
    assert TruncateChars(Unquoted(m.body), MAX_BODY_CHARS) == Cut(Unquoted(m.body)) by { hide Unquoted; }
    hide Fence, Defused, Unquoted, TruncateChars, Cut;
  }

  /** The messages from `first` on, rendered. */
  function From(messages: seq<Message>, first: nat): seq<string>
    requires first <= |messages|
  {
    seq(|messages| - first, i requires 0 <= i < |messages| - first => Block(messages[first + i]))
  }

  /**
   * The transcript is the newest messages, eight at most, in order between rulers: as many as come to 12000 characters,
   * but always the newest.
   */
  lemma TranscriptIs(messages: seq<Message>, k: nat) returns (first: nat)
    requires messages != [] && NewestWithinBudget(Blocks(messages), k)
    ensures first < |messages| <= first + 8
    ensures Join(Blocks(messages)[k..], SEPARATOR) == Join(From(messages, first), "\n\n---\n\n")
    ensures Total(From(messages, first)) <= 12000 || first == |messages| - 1
    ensures first > 0 && |messages| < first + 8 ==> Total(From(messages, first - 1)) > 12000
  {
    var start := if |messages| <= MAX_MESSAGES then 0 else |messages| - MAX_MESSAGES;
    first := start + k;
    assert |Blocks(messages)| == |messages| - start by { hide Block; }
    BlocksFrom(messages, k, start);
    if k > 0 { BlocksFrom(messages, k - 1, start); }
    hide Block, Blocks, From, Total, Join;
  }

  lemma BlocksFrom(messages: seq<Message>, k: nat, start: nat)
    requires start == (if |messages| <= MAX_MESSAGES then 0 else |messages| - MAX_MESSAGES) && start + k <= |messages|
    ensures k <= |Blocks(messages)| && Blocks(messages)[k..] == From(messages, start + k)
  {
    hide Block;
  }
}
