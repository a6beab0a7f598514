/**
 * Quoting (mcp_reply.rs) and dropping quotes (drafting.rs) undo each other: what a reply contributes to
 * a conversation is what its author wrote, whatever it quotes.
 */
module QuoteLaws {
  import opened Text
  import Drafting
  import Reply

  function Normal(s: string): string {
    Replace(s, "\r\n", "\n")
  }

  predicate EndsSolid(s: string) {
    s != "" && !IsSpace(s[|s| - 1])
  }

  predicate AllBlank(lines: seq<string>) {
    forall i | 0 <= i < |lines| :: Blank(lines[i])
  }

  // ---- line ends -----------------------------------------------------------

  lemma {:induction false} NormalAppend(a: string, b: string)
    requires a == "" || a[|a| - 1] != '\r'
    ensures Normal(a + b) == Normal(a) + Normal(b)
    decreases |a|
  {
    if a == "" {
      assert a + b == b;
    } else {
      var k := if "\r\n" <= a then 2 else 1;
      assert (a + b)[k..] == a[k..] + b;
      assert "\r\n" <= a + b <==> "\r\n" <= a;
      NormalAppend(a[k..], b);
    }
  }

  lemma {:induction false} NormalSolid(s: string)
    requires EndsSolid(s)
    ensures EndsSolid(Normal(s))
    decreases |s|
  {
    var k := if "\r\n" <= s then 2 else 1;
    if |s| > k {
      NormalSolid(s[k..]);
    } else {
      assert Replace(s[k..], "\r\n", "\n") == "";
    }
  }

  lemma {:induction false} NormalBlank(w: string)
    requires Blank(w)
    ensures Blank(Normal(w))
    decreases |w|
  {
    if w != "" {
      NormalBlank(w[if "\r\n" <= w then 2 else 1..]);
    }
  }

  lemma {:induction false} NormalOneLine(s: string)
    requires '\n' !in s
    ensures Normal(s) == s
  {
    if s != "" {
      assert |s| > 1 ==> s[1] != '\n';
      NormalOneLine(s[1..]);
    }
  }

  lemma NormalNewline(s: string)
    ensures Normal("\n" + s) == "\n" + Normal(s)
  {
    assert ("\n" + s)[1..] == s && ("\n" + s)[0] == '\n';
  }

  // ---- lines of a text with something after it -----------------------------

  lemma {:induction false} LinesBlank(w: string)
    requires Blank(w)
    ensures AllBlank(Lines(w))
    decreases |w|
  {
    hide IsSpace, IndexOf, WithoutCr, AllBlank, Blank;
    var e := IndexOf(w, '\n');
    if w == "" {
      BlankCons([], []);
    } else if e < |w| {
      BlankParts(w, e);
      LinesBlank(w[e + 1..]);
      BlankCons([WithoutCr(w[..e])], Lines(w[e + 1..]));
    } else {
      BlankCons([w], []);
    }
  }

  lemma BlankCons(line: seq<string>, rest: seq<string>)
    requires |line| <= 1 && (rest == [] || AllBlank(rest)) && (line != [] ==> Blank(line[0]))
    ensures AllBlank(line + rest) && AllBlank(line)
  {
    hide Blank;
  }

  lemma BlankParts(w: string, e: nat)
    requires Blank(w) && e < |w|
    ensures Blank(WithoutCr(w[..e])) && Blank(w[e + 1..])
  {
    hide IsSpace;
    assert forall i | 0 <= i < |WithoutCr(w[..e])| :: WithoutCr(w[..e])[i] == w[i];
  }

  /** The only line of a text without newlines, and the first line of any other. */
  lemma FirstLine(s: string) returns (head: string, tail: string)
    requires EndsSolid(s)
    ensures '\n' !in s ==> Lines(s) == [s] && WithoutCr(s) == s
    ensures '\n' in s ==> '\n' !in head && EndsSolid(tail) && s == head + "\n" + tail && |tail| < |s|
  {
    assert s[|s| - 1] != '\n' && s[|s| - 1] != '\r';
    hide IsSpace;
    var e := IndexOf(s, '\n');
    head, tail := s[..e], if e < |s| then s[e + 1..] else "";
    if '\n' !in s {
      IndexOfUnique(s, '\n', |s|);
    } else {
      assert '\n' in s[..|s|];
      assert s == head + "\n" + tail;
    }
  }

  /** A newline after a text that does not end in space just separates its lines from the rest. */
  lemma {:induction false} LinesFollowed(s: string, rest: string)
    requires EndsSolid(s)
    ensures Lines(s + "\n" + rest) == Lines(s) + Lines(rest)
    decreases |s|
  {
    hide EndsSolid, Lines, WithoutCr;
    var head, tail := FirstLine(s);
    if '\n' !in s {
      LinesCons(s, rest);
    } else {
      LinesFollowed(tail, rest);
      LinesCons(head, tail);
      LinesCons(head, tail + "\n" + rest);
      assert s + "\n" + rest == head + "\n" + (tail + "\n" + rest);
    }
  }

  lemma OneLineTrailing(s: string, w: string) returns (u: string, blanks: seq<string>)
    requires EndsSolid(s) && '\n' !in s && Blank(w)
    ensures Blank(u) && AllBlank(blanks)
    ensures Lines(s + w) == [s + u] + blanks
  {
    hide IsSpace, WithoutCr, IndexOf;
    var f := IndexOf(w, '\n');
    if f == |w| {
      u, blanks := w, [];
      assert forall i | 0 <= i < |s + w| :: (s + w)[i] == if i < |s| then s[i] else w[i - |s|];
      IndexOfUnique(s + w, '\n', |s + w|);
    } else {
      var line := s + w[..f];
      u := WithoutCr(w[..f]);
      blanks := Lines(w[f + 1..]);
      BlankParts(w, f);
      LinesBlank(w[f + 1..]);
      assert s + w == line + "\n" + w[f + 1..];
      LinesCons(line, w[f + 1..]);
      WithoutCrAfter(s, w[..f]);
    }
  }

  lemma WithoutCrAfter(s: string, v: string)
    requires EndsSolid(s)
    ensures WithoutCr(s + v) == s + WithoutCr(v)
  {
    assert s[|s| - 1] != '\r';
    if v == "" { assert s + v == s; }
  }

  /** Space after such a text lengthens its last line and adds blank ones. */
  lemma {:induction false} LinesTrailing(s: string, w: string) returns (u: string, blanks: seq<string>)
    requires EndsSolid(s) && Blank(w)
    ensures Blank(u) && AllBlank(blanks)
    ensures var ls := Lines(s);
            && ls != [] && EndsSolid(ls[|ls| - 1])
            && Lines(s + w) == ls[..|ls| - 1] + ([ls[|ls| - 1] + u] + blanks)
    decreases |s|
  {
    hide EndsSolid, Lines, WithoutCr, Blank;
    var head, tail := FirstLine(s);
    if '\n' !in s {
      u, blanks := OneLineTrailing(s, w);
    } else {
      u, blanks := LinesTrailing(tail, w);
      LinesCons(head, tail);
      LinesCons(head, tail + w);
      assert s + w == head + "\n" + (tail + w);
    }
  }

  // ---- the laws ------------------------------------------------------------

  function Attribution(date: string, who: string): string {
    "On " + date + ", " + who + " wrote:"
  }

  lemma LowerAppend(a: string, b: string)
    ensures Lower(a + b) == Lower(a) + Lower(b)
  {
    hide LowerChar;
  }

  lemma Bracketed(p: string, m: string, q: string)
    requires q != "" && !IsSpace(q[|q| - 1])
    ensures var l := p + m + q; p <= l && TrimEnd(l) == l && EndsWith(l, q)
  {
    hide IsSpace;
    var l := p + m + q;
    assert l[|l| - |q|..] == q && l[|l| - 1] == q[|q| - 1];
  }

  lemma AttributionKeywords(date: string, who: string)
    ensures var l := Lower(Attribution(date, who)); "on " <= l && EndsWith(TrimEnd(l), "wrote:")
  {
    var m := date + ", " + who + " ";
    assert Attribution(date, who) == "On " + m + "wrote:";
    assert Lower("On ") == "on " && Lower("wrote:") == "wrote:" && !IsSpace(':');
    hide Lower, LowerChar, IsSpace, TrimEnd, EndsWith, Attribution;
    LowerAppend("On " + m, "wrote:");
    LowerAppend("On ", m);
    Bracketed("on ", Lower(m), "wrote:");
  }

  lemma AttributionShape(date: string, who: string)
    ensures var line := Attribution(date, who);
            && line != "" && line[0] == 'O' && line[|line| - 1] == ':'
            && ('\n' !in date && '\n' !in who ==> '\n' !in line)
  {
  }

  /** The line a reply puts above the quote is always recognised. */
  lemma AttributionIsRecognised(date: string, who: string, kept: seq<string>)
    ensures var line := Attribution(date, who);
            && TrimStart(line) == line
            && !Drafting.IsQuoted(line) && Drafting.IsAttribution(line, kept)
  {
    AttributionShape(date, who);
    assert !IsSpace('O');
    hide Attribution, Lower, TrimEnd, EndsWith, IsSpace;
    AttributionKeywords(date, who);
  }

  /** Scanning from the last written line on: what follows the text does not matter. */
  lemma LastLine(last: string, u: string, blanks: seq<string>, line: string, quote: seq<string>, kept: seq<string>)
    requires EndsSolid(last) && Blank(u) && AllBlank(blanks)
    requires TrimStart(line) == line && !Drafting.IsQuoted(line) && forall k :: Drafting.IsAttribution(line, k)
    ensures TrimEnd(Join(Drafting.ScanLines([last + u] + blanks, kept).kept, "\n"))
         == TrimEnd(Join(Drafting.ScanLines([last, "", line] + quote, kept).kept, "\n"))
  {
    hide IsSpace, Drafting.IsAttribution, Drafting.IsQuoted, Drafting.ScanLines, Join, TrimEnd, TrimStart;
    var t := TrimStart(last);
    TrimStartAppend(last, u);
    Drafting.AttributionIgnoresTrailingSpace(t, u, kept);
    Drafting.ScanFirst(last + u, blanks, kept);
    Drafting.ScanFirst(last, ["", line] + quote, kept);
    assert [last, "", line] == [last] + ["", line];
    assert [last] + ["", line] + quote == [last] + (["", line] + quote);
    if Drafting.IsQuoted(t) || !Drafting.IsAttribution(t, kept) {
      var a := if Drafting.IsQuoted(t) then kept else kept + [last + u];
      var b := if Drafting.IsQuoted(t) then kept else kept + [last];
      Drafting.ScanBlank(blanks, a);
      BlankThenStop(line, quote, b);
      Drafting.TrimJoinIgnoresBlanks(a, blanks);
      Drafting.TrimJoinIgnoresBlanks(b, [""]);
      JoinLongerLast(kept, last, u);
    }
  }

  lemma BlankThenStop(line: string, quote: seq<string>, kept: seq<string>)
    requires TrimStart(line) == line && !Drafting.IsQuoted(line) && forall k :: Drafting.IsAttribution(line, k)
    ensures Drafting.ScanLines(["", line] + quote, kept) == Drafting.Scan(kept + [""], true)
  {
    assert (["", line] + quote)[1..] == [line] + quote;
    Drafting.ScanBlank([""], kept);
    assert Drafting.ScanLines(["", line] + quote, kept) == Drafting.ScanLines([line] + quote, kept + [""]);
  }

  lemma JoinLongerLast(kept: seq<string>, last: string, u: string)
    requires Blank(u)
    ensures TrimEnd(Join(kept + [last + u], "\n")) == TrimEnd(Join(kept + [last], "\n"))
  {
    hide IsSpace;
    if kept == [] {
      assert kept + [last + u] == [last + u] && kept + [last] == [last];
      TrimEndIgnoresBlank(last, u);
    } else {
      JoinSnoc(kept, "\n", last + u);
      JoinSnoc(kept, "\n", last);
      var j := Join(kept, "\n") + "\n" + last;
      assert Join(kept, "\n") + "\n" + (last + u) == j + u;
      TrimEndIgnoresBlank(j, u);
    }
  }

  lemma NormalTail(line: string, body: string)
    requires '\n' !in line && line != "" && line[|line| - 1] != '\r'
    ensures Normal("\n" + ("\n" + (line + ("\n" + body)))) == "\n" + ("\n" + (line + ("\n" + Normal(body))))
  {
    hide Normal;
    NormalNewline(body);
    NormalOneLine(line);
    NormalAppend(line, "\n" + body);
    NormalNewline(line + ("\n" + body));
    NormalNewline("\n" + (line + ("\n" + body)));
  }

  lemma LinesNewline(s: string)
    ensures Lines("\n" + s) == [""] + Lines(s)
  {
    assert WithoutCr("") == "" && "" + "\n" + s == "\n" + s;
    hide Lines, WithoutCr;
    LinesCons("", s);
  }

  lemma LinesTail(line: string, body: string)
    requires '\n' !in line && line != "" && line[|line| - 1] != '\r'
    ensures Lines("\n" + (line + ("\n" + body))) == ["", line] + Lines(body)
  {
    assert WithoutCr(line) == line;
    hide Lines, WithoutCr;
    assert line + "\n" + body == line + ("\n" + body);
    LinesCons(line, body);
    LinesNewline(line + ("\n" + body));
    TwoInFront("", line, Lines(body));
  }

  lemma TwoInFront<T>(a: T, b: T, rest: seq<T>)
    ensures [a] + ([b] + rest) == [a, b] + rest
  {
  }

  lemma ReplyLines(written: string, line: string, body: string)
    requires written == "" || EndsSolid(written)
    requires '\n' !in line && line != "" && line[|line| - 1] != '\r'
    ensures Lines(Normal(written + "\n\n" + line + "\n" + body))
            == (if written == "" then [""] else Lines(Normal(written))) + (["", line] + Lines(Normal(body)))
  {
    NotCr(written);
    hide EndsSolid, Lines, Normal;
    var after := "\n" + ("\n" + (line + ("\n" + body)));
    assert written + "\n\n" + line + "\n" + body == written + after;
    NormalAppend(written, after);
    NormalTail(line, body);
    SplitTail(written, "\n" + (line + ("\n" + Normal(body))));
    LinesTail(line, Normal(body));
  }

  lemma SplitTail(written: string, tail: string)
    requires written == "" || EndsSolid(written)
    ensures Lines(Normal(written) + ("\n" + tail))
            == (if written == "" then [""] else Lines(Normal(written))) + Lines(tail)
  {
    assert WithoutCr("") == "";
    assert written == "" ==> Normal(written) == "";
    hide Lines, Normal, WithoutCr;
    if written == "" {
      LinesCons("", tail);
      assert "" + ("\n" + tail) == "" + "\n" + tail;
    } else {
      NormalSolid(written);
      LinesFollowed(Normal(written), tail);
      assert Normal(written) + ("\n" + tail) == Normal(written) + "\n" + tail;
    }
  }

  lemma NotCr(s: string)
    requires s == "" || EndsSolid(s)
    ensures s == "" || s[|s| - 1] != '\r'
  {
  }

  /** Dropping quotes from a reply leaves what dropping quotes from its own text leaves. */
  lemma UnquotedReply(text: string, date: string, who: string, body: string)
    requires '\n' !in date && '\n' !in who
    ensures Drafting.Unquoted(Reply.ReplyText(text, date, who, body)) == Drafting.Unquoted(text)
  {
    var written := TrimEnd(text);
    var w := text[|written|..];
    var line := Attribution(date, who);
    var block := Reply.QuoteBlock(body);
    assert text == written + w;
    ReplyShape(text, date, who, body);
    AttributionShape(date, who);
    hide Attribution, Reply.ReplyText, Reply.QuoteBlock, IsSpace, Join, TrimEnd, TrimStart, Lines, Replace;
    hide Drafting.IsAttribution, Drafting.IsQuoted, Drafting.ScanLines;
    forall k ensures TrimStart(line) == line && !Drafting.IsQuoted(line) && Drafting.IsAttribution(line, k) {
      AttributionIsRecognised(date, who, k);
    }
    ContributionOf(written, w, line, block);
  }

  lemma ReplyShape(text: string, date: string, who: string, body: string)
    ensures Reply.ReplyText(text, date, who, body)
         == TrimEnd(text) + "\n\n" + Attribution(date, who) + "\n" + Reply.QuoteBlock(body)
  {
    hide TrimEnd, Reply.QuoteBlock;
    var t, q := TrimEnd(text), Reply.QuoteBlock(body);
    assert t + "\n\nOn " == t + "\n\n" + "On ";
    assert " wrote:\n" == " wrote:" + "\n";
  }

  /** What a body contributes, before the final trim. */
  function Contribution(body: string): string {
    TrimEnd(Join(Drafting.ScanLines(Lines(Normal(body)), []).kept, "\n"))
  }

  lemma ContributionOf(written: string, w: string, line: string, block: string)
    requires (written == "" || EndsSolid(written)) && Blank(w)
    requires '\n' !in line && line != "" && line[|line| - 1] != '\r'
    requires TrimStart(line) == line && !Drafting.IsQuoted(line) && forall k :: Drafting.IsAttribution(line, k)
    ensures Contribution(written + w) == Contribution(written + "\n\n" + line + "\n" + block)
  {
    NotCr(written);
    assert written == "" ==> Normal(written) == "";
    hide EndsSolid, Blank, Normal, Lines, Join, TrimEnd, Drafting.ScanLines, Drafting.IsAttribution, Drafting.IsQuoted;
    ReplyLines(written, line, block);
    NormalAppend(written, w);
    NormalBlank(w);
    var quote := Lines(Normal(block));
    if written == "" {
      assert "" + Normal(w) == Normal(w);
      EmptyReply(Normal(w), line, quote);
    } else {
      NormalSolid(written);
      WrittenReply(Normal(written), Normal(w), line, quote);
    }
  }

  lemma EmptyReply(w: string, line: string, quote: seq<string>)
    requires Blank(w)
    requires TrimStart(line) == line && !Drafting.IsQuoted(line) && forall k :: Drafting.IsAttribution(line, k)
    ensures TrimEnd(Join(Drafting.ScanLines(Lines(w), []).kept, "\n"))
         == TrimEnd(Join(Drafting.ScanLines([""] + (["", line] + quote), []).kept, "\n"))
  {
    hide IsSpace, Drafting.IsAttribution, Drafting.IsQuoted, Lines, Join, TrimEnd, TrimStart, Drafting.ScanLines;
    LinesBlank(w);
    var blanks := Lines(w);
    assert [] + blanks == blanks && [] + [""] == [""] && [""] + [""] == ["", ""] && [] + ["", ""] == ["", ""];
    Drafting.ScanBlank(blanks, []);
    Drafting.ScanBlank([""], []);
    Drafting.ScanAppend([""], ["", line] + quote, []);
    BlankThenStop(line, quote, [""]);
    Drafting.TrimJoinIgnoresBlanks([], blanks);
    Drafting.TrimJoinIgnoresBlanks([], ["", ""]);
  }

  lemma WrittenReply(n: string, w: string, line: string, quote: seq<string>)
    requires EndsSolid(n) && Blank(w)
    requires TrimStart(line) == line && !Drafting.IsQuoted(line) && forall k :: Drafting.IsAttribution(line, k)
    ensures TrimEnd(Join(Drafting.ScanLines(Lines(n + w), []).kept, "\n"))
         == TrimEnd(Join(Drafting.ScanLines(Lines(n) + (["", line] + quote), []).kept, "\n"))
  {
    hide *;
    var u, blanks := LinesTrailing(n, w);
    WrittenLines(Lines(n), u, blanks, line, quote);
  }

  lemma WrittenLines(ls: seq<string>, u: string, blanks: seq<string>, line: string, quote: seq<string>)
    requires ls != [] && EndsSolid(ls[|ls| - 1]) && Blank(u) && AllBlank(blanks)
    requires TrimStart(line) == line && !Drafting.IsQuoted(line) && forall k :: Drafting.IsAttribution(line, k)
    ensures TrimEnd(Join(Drafting.ScanLines(ls[..|ls| - 1] + ([ls[|ls| - 1] + u] + blanks), []).kept, "\n"))
         == TrimEnd(Join(Drafting.ScanLines(ls + (["", line] + quote), []).kept, "\n"))
  {
    hide *;
    var first, last := ls[..|ls| - 1], ls[|ls| - 1];
    ThreeInFront(ls, line, quote);
    Drafting.ScanAppend(first, [last + u] + blanks, []);
    Drafting.ScanAppend(first, [last, "", line] + quote, []);
    LastLine(last, u, blanks, line, quote, Drafting.ScanLines(first, []).kept);
  }

  lemma ThreeInFront(ls: seq<string>, line: string, quote: seq<string>)
    requires ls != []
    ensures ls + (["", line] + quote) == ls[..|ls| - 1] + ([ls[|ls| - 1], "", line] + quote)
  {
  }

  datatype Turn = Turn(text: string, date: string, who: string)

  /** Message bodies of a conversation in which every message replies to the one before. */
  function Conversation(original: string, turns: seq<Turn>): (bodies: seq<string>)
    ensures |bodies| == |turns| + 1
  {
    if turns == [] then [original]
    else
      var before := Conversation(original, turns[..|turns| - 1]);
      var t := turns[|turns| - 1];
      before + [Reply.ReplyText(t.text, t.date, t.who, before[|before| - 1])]
  }

  /** However long the chain and however deep the quotes, each message contributes its author's words. */
  lemma {:induction false} ConversationContributions(original: string, turns: seq<Turn>, i: nat)
    requires i < |turns|
    requires forall t | t in turns :: '\n' !in t.date && '\n' !in t.who
    ensures Drafting.Unquoted(Conversation(original, turns)[i + 1]) == Drafting.Unquoted(turns[i].text)
    decreases |turns|
  {
    var earlier := turns[..|turns| - 1];
    var before := Conversation(original, earlier);
    if i == |turns| - 1 {
      assert turns[i] in turns;
      UnquotedReply(turns[i].text, turns[i].date, turns[i].who, before[|before| - 1]);
    } else {
      assert forall t | t in earlier :: t in turns;
      ConversationContributions(original, earlier, i);
    }
  }
}
