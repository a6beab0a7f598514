/** Switching signatures in a plain-text draft: web/components/ComposeModal.tsx, lines 278-342. */
module Signature {
  import opened Text

  // ---- JavaScript's view of text -------------------------------------------

  function SkipSpace(s: string): nat {
    if s != "" && JsSpace(s[0]) then 1 + SkipSpace(s[1..]) else 0
  }

  /** Length of a match of `<br\s*\/?>` (any case) at the start, or 0. */
  function BreakTag(s: string): (n: nat)
    ensures n <= |s|
  {
    if |s| >= 4 && Lower(s[..3]) == "<br" then
      SkipSpaceFits(s[3..]);
      var k := 3 + SkipSpace(s[3..]);
      if k < |s| && s[k] == '>' then k + 1
      else if k + 1 < |s| && s[k] == '/' && s[k + 1] == '>' then k + 2
      else 0
    else 0
  }

  lemma {:induction false} SkipSpaceFits(s: string)
    ensures SkipSpace(s) <= |s|
  {
    if s != "" { SkipSpaceFits(s[1..]); }
  }

  function PlainBreaks(s: string): string {
    if s == "" then ""
    else if BreakTag(s) > 0 then "<br>" + PlainBreaks(s[BreakTag(s)..])
    else [s[0]] + PlainBreaks(s[1..])
  }

  function PlainSpaces(s: string): string {
    if s == "" then ""
    else if s[0] == '\U{00A0}' then " " + PlainSpaces(s[1..])
    else if "&nbsp;" <= s then " " + PlainSpaces(s[6..])
    else [s[0]] + PlainSpaces(s[1..])
  }

  function Flat(s: string): string {
    PlainSpaces(PlainBreaks(s))
  }

  // ---- blocks, quotes, stripping and appending -----------------------------

  function Delimiter(): string {
    "\n\n-- \n"
  }

  /** `sigBlocks(s).text` for a signature whose trimmed text is `t`. */
  function Block(t: string): string {
    if t == "" then "" else Delimiter() + t
  }

  /** `/\n\nOn [^\n]+ wrote:\n/` matches at the start. */
  predicate Attribution(s: string) {
    && "\n\nOn " <= s
    && var e := IndexOf(s[5..], '\n');
       e < |s[5..]| && e >= 8 && EndsWith(s[5..][..e], " wrote:")
  }

  /** `b.search(…)`, with |b| for no match. */
  function QuoteStart(b: string): (q: nat)
    ensures q <= |b| && (q < |b| ==> Attribution(b[q..])) && forall i | 0 <= i < q :: !Attribution(b[i..])
  {
    if b == "" then 0
    else if Attribution(b) then assert b[0..] == b; 0
    else
      var q := QuoteStart(b[1..]);
      assert forall i | 0 < i <= |b| :: b[1..][i - 1..] == b[i..];
      assert b[0..] == b;
      q + 1
  }

  function StripBaked(b: string, block: string): string {
    if block == "" then b
    else if EndsWith(b, block) then b[..|b| - |block|]
    else
      var at := Find(b, block);
      if at >= 0 then b[..at] + b[at + |block|..]
      else
        var nb, kb := Flat(b), Flat(block);
        var at2 := Find(nb, kb);
        if at2 >= 0 then nb[..at2] + nb[at2 + |kb|..]
        else
          var nt, kt := JsTrimEnd(nb), JsTrimEnd(kb);
          if kt != "" && EndsWith(nt, kt) then nt[..|nt| - |kt|] else b
  }

  /** `appendSigBlock`; a block only ever loses "\n\n" in front, in an empty draft. */
  function AppendBlock(base: string, block: string): string {
    var q := QuoteStart(base);
    if q < |base| then base[..q] + block + base[q..]
    else if base != "" then base + block
    else if "\n\n" <= block then block[2..]
    else block
  }

  /** The draft and the block baked into it. None: nothing baked yet. */
  datatype Draft = Draft(body: string, baked: Option<string>)

  /** `pickSig`; None is the choice "none". */
  function Pick(d: Draft, next: Option<string>): Draft {
    var b := if d.baked.Some? then StripBaked(d.body, d.baked.value) else d.body;
    if next.None? then Draft(b, Some("")) else Draft(AppendBlock(b, Block(next.value)), Some(Block(next.value)))
  }

  class Editor {
    var body: string
    var baked: Option<string>

    constructor (text: string)
      ensures body == text && baked.None?
    {
      body, baked := text, None;
    }

    method PickSig(next: Option<string>)
      modifies this
      ensures Draft(body, baked) == Pick(Draft(old(body), old(baked)), next)
    {
      var b := body;
      if baked.Some? {
        b := StripBaked(b, baked.value);
      }
      if next.None? {
        body, baked := b, Some("");
      } else {
        body, baked := AppendBlock(b, Block(next.value)), Some(Block(next.value));
      }
    }
  }

  // ---- what is put where ---------------------------------------------------

  /** A quotation begins with an empty line and "On … wrote:" on a line of its own, with something in between. */
  lemma AttributionIff(s: string)
    ensures Attribution(s) <==>
              exists what: string, rest: string ::
                what != "" && '\n' !in what && s == "\n\nOn " + what + " wrote:\n" + rest
  {
    if Attribution(s) {
      var e := IndexOf(s[5..], '\n');
      var line := s[5..][..e];
      var what := line[..e - 7];
      assert line == what + " wrote:";
      assert s == "\n\nOn " + (what + " wrote:") + "\n" + s[5 + e + 1..];
      assert forall i | 0 <= i < |what| :: what[i] == s[5..][i];
      AttributionText(what, s[5 + e + 1..]);
    }
    if what: string, rest: string :| what != "" && '\n' !in what && s == "\n\nOn " + what + " wrote:\n" + rest {
      AttributionText(what, rest);
      IsAttribution(what, rest);
    }
  }

  lemma AttributionText(what: string, rest: string)
    ensures "\n\nOn " + what + " wrote:\n" + rest == "\n\nOn " + (what + " wrote:") + "\n" + rest
  {
    assert " wrote:\n" == " wrote:" + "\n";
  }

  lemma IsAttribution(what: string, rest: string)
    requires what != "" && '\n' !in what
    ensures Attribution("\n\nOn " + (what + " wrote:") + "\n" + rest)
  {
    var line := what + " wrote:";
    var s := "\n\nOn " + line + "\n" + rest;
    var tail := s[5..];
    assert '\n' !in " wrote:" && |" wrote:"| == 7;
    assert tail == line + "\n" + rest && "\n\nOn " <= s;
    assert forall i | 0 <= i < |line| :: tail[i] == line[i] && line[i] != '\n';
    IndexOfUnique(tail, '\n', |line|);
    assert tail[..|line|] == line && line[|line| - 7..] == " wrote:";
  }

  /**
   * The first pick puts the delimiter line and the signature at the end of the draft, or in front of the quotation if
   * there is one; in an empty draft without the two line breaks. An empty signature adds nothing.
   */
  lemma FirstPickPuts(text: string, t: string)
    ensures var d := Pick(Draft(text, None), Some(t));
            var q := QuoteStart(text);
            && d.baked == Some(if t == "" then "" else "\n\n-- \n" + t)
            && d.body == (if t == "" then text
                          else if text == "" then "-- \n" + t
                          else if q < |text| then text[..q] + ("\n\n-- \n" + t) + text[q..]
                          else text + ("\n\n-- \n" + t))
  {
    AttributionShort();
    NothingAppended(text);
    NoBlock();
    hide Attribution, QuoteStart;
    BlockText(t);
    hide Block;
  }

  lemma BlockText(t: string)
    ensures t != "" ==>
              var block := "\n\n-- \n" + t;
              Block(t) == block && "\n\n" <= block && block[2..] == "-- \n" + t
  {
  }

  lemma AttributionShort()
    ensures QuoteStart("") == 0
  {
  }

  // ---- when removing undoes inserting --------------------------------------

  /**
   * The draft is not empty, and if it quotes a message: the quote does not end in the block, and the text from the
   * block's first occurrence to the inserted one, if there is any, can change places with the block: the two are
   * repetitions of one text.
   */
  predicate Restores(d: string, block: string) {
    var q := QuoteStart(d);
    && d != ""
    && (q < |d| ==>
          var own, quote := d[..q], d[q..];
          var p := Find(own + block, block);
          !EndsWith(block + quote, block) && 0 <= p <= |own| && own[p..] + block == block + own[p..])
  }

  /** Exactly when removing the block after inserting it gives the draft back. */
  lemma StripUndoesAppendIff(d: string, t: string)
    requires t != ""
    ensures StripBaked(AppendBlock(d, Block(t)), Block(t)) == d <==> Restores(d, Block(t))
  {
    hide *;
    BlockShape(t);
    AppendCases(d, Block(t));
    RestoresCases(d, Block(t));
    if d == "" {
      EmptyDraftStays(t);
    } else if QuoteStart(d) < |d| {
      QuotedShape(d[QuoteStart(d)..]);
      QuotedDraftIff(d[..QuoteStart(d)], d[QuoteStart(d)..], Block(t));
    } else {
      PlainDraft(d, Block(t));
    }
  }

  lemma AppendCases(d: string, block: string)
    ensures var q := QuoteStart(d);
            && d == d[..q] + d[q..]
            && (q < |d| ==> AppendBlock(d, block) == d[..q] + block + d[q..] && d != "")
            && (q == |d| && d != "" ==> AppendBlock(d, block) == d + block)
  {
    hide QuoteStart, Attribution;
    NothingBetween(d, QuoteStart(d));
  }

  lemma RestoresCases(d: string, block: string)
    ensures d == "" ==> !Restores(d, block)
    ensures var q := QuoteStart(d);
            && (d != "" && q == |d| ==> Restores(d, block))
            && (q < |d| ==>
                  var own, quote := d[..q], d[q..];
                  var p := Find(own + block, block);
                  Restores(d, block) <==>
                    !EndsWith(block + quote, block) && 0 <= p <= |own| && own[p..] + block == block + own[p..])
  {
    hide QuoteStart, Attribution, Find, EndsWith;
  }

  lemma PlainDraft(d: string, block: string)
    requires block != ""
    ensures StripBaked(d + block, block) == d
  {
    hide Find, Flat, JsTrimEnd;
    assert EndsWith(d + block, block);
    assert (d + block)[..|d|] == d;
  }

  lemma BlockShape(t: string)
    requires t != ""
    ensures |Block(t)| >= 6 && Block(t)[0] == '\n' && Block(t)[2] == '-' && Block(t) == "\n\n" + Block(t)[2..]
    ensures Block(t)[2..][0] == '-'
  {
  }

  lemma QuotedShape(s: string)
    requires Attribution(s)
    ensures |s| >= 14 && s[0] == s[1] == '\n' && s[2] == 'O'
  {
    assert "\n\nOn "[2] == 'O';
  }

  lemma QuotedDraftIff(own: string, quote: string, block: string)
    requires |block| >= 6 && block[2] == '-' && |quote| >= 3 && quote[2] == 'O'
    ensures var p := Find(own + block, block);
            StripBaked(own + block + quote, block) == own + quote
            <==> !EndsWith(block + quote, block) && 0 <= p <= |own| && own[p..] + block == block + own[p..]
  {
    hide *;
    Reassociate(own, block, quote);
    SameEnding(own, block + quote, block);
    if EndsWith(own + block + quote, block) {
      assert (block + quote)[2] != (quote + block)[2];
      CutEnd(own, block, quote);
      StripAtEnd(own + block + quote, block);
    } else {
      FirstStays(own, block, quote);
      CutFirst(own, block, quote, Find(own + block, block));
      StripInside(own + block + quote, block);
    }
  }

  lemma Reassociate(a: string, b: string, c: string)
    ensures a + b + c == a + (b + c)
  {
  }

  lemma StripAtEnd(b: string, block: string)
    requires block != "" && EndsWith(b, block)
    ensures StripBaked(b, block) == b[..|b| - |block|]
  {
    hide Flat, JsTrimEnd, Find;
  }

  lemma StripInside(b: string, block: string)
    requires block != "" && !EndsWith(b, block) && Find(b, block) >= 0
    ensures StripBaked(b, block) == b[..Find(b, block)] + b[Find(b, block) + |block|..]
  {
    hide Flat, JsTrimEnd, Find;
  }

  lemma SameEnding(a: string, b: string, p: string)
    requires |p| <= |b|
    ensures EndsWith(a + b, p) == EndsWith(b, p)
  {
    assert (a + b)[|a + b| - |p|..] == b[|b| - |p|..];
  }

  /** Cutting the wrong block off the end never gives the draft. */
  lemma CutEnd(own: string, block: string, quote: string)
    requires block + quote != quote + block && EndsWith(own + block + quote, block)
    ensures (own + block + quote)[..|own| + |quote|] != own + quote
  {
    var b := own + block + quote;
    assert b == b[..|own| + |quote|] + block by { assert b[|own| + |quote|..] == block; }
    assert b == own + (block + quote) && own + quote + block == own + (quote + block);
    CancelLeft(own, block + quote, quote + block);
  }

  lemma FirstStays(own: string, block: string, quote: string)
    ensures 0 <= Find(own + block, block) <= |own| && Find(own + block + quote, block) == Find(own + block, block)
  {
    hide Find;
    assert (own + block)[|own|..|own| + |block|] == block;
    assert OccursAt(own + block, block, |own|);
    FindInPrefix(own + block, quote, block);
  }

  /** Cutting out the first block gives the draft exactly when what lies between commutes with it. */
  lemma CutFirst(own: string, block: string, quote: string, p: nat)
    requires p <= |own| && OccursAt(own + block, block, p)
    ensures var b := own + block + quote;
            b[..p] + b[p + |block|..] == own + quote <==> own[p..] + block == block + own[p..]
  {
    var b := own + block + quote;
    var between, rest := own[p..], (own + block)[p + |block|..];
    assert between + block == block + rest by {
      assert (own + block)[p..] == between + block;
      assert (own + block)[p..] == (own + block)[p..p + |block|] + rest;
    }
    assert b[..p] == own[..p] && b[p + |block|..] == rest + quote;
    assert own[..p] + (between + quote) == own + quote;
    hide OccursAt;
    Cancel(own[..p], rest, between, quote);
    CancelLeft(block, rest, between);
  }

  lemma Cancel(a: string, x: string, y: string, c: string)
    requires |x| == |y|
    ensures a + (x + c) == a + (y + c) <==> x == y
  {
    if a + (x + c) == a + (y + c) {
      assert (a + (x + c))[|a|..|a| + |x|] == x;
      assert (a + (y + c))[|a|..|a| + |y|] == y;
    }
  }

  lemma CancelLeft(a: string, x: string, y: string)
    ensures a + x == a + y <==> x == y
  {
    if a + x == a + y {
      assert (a + x)[|a|..] == x && (a + y)[|a|..] == y;
    }
  }

  function Repeat(w: string, n: nat): string {
    if n == 0 then "" else w + Repeat(w, n - 1)
  }

  lemma {:induction false} RepeatAdd(w: string, m: nat, n: nat)
    ensures Repeat(w, m + n) == Repeat(w, m) + Repeat(w, n)
  {
    if m > 0 { RepeatAdd(w, m - 1, n); }
  }

  /** Texts that can change places repeat one text: what `Restores` allows before the block. */
  lemma {:induction false} CommutingRepeat(u: string, v: string) returns (w: string, i: nat, j: nat)
    requires u + v == v + u
    ensures u == Repeat(w, i) && v == Repeat(w, j)
    decreases |u| + |v|
  {
    if u == "" || v == "" {
      w := u + v;
      assert Repeat(w, 1) == w + "" == w;
      i, j := if u == "" then 0 else 1, if v == "" then 0 else 1;
    } else if |u| <= |v| {
      w, i, j := CommutingStep(u, v);
    } else {
      w, j, i := CommutingStep(v, u);
    }
  }

  lemma {:induction false} CommutingStep(u: string, v: string) returns (w: string, i: nat, j: nat)
    requires u != "" && |u| <= |v| && u + v == v + u
    ensures u == Repeat(w, i) && v == Repeat(w, j)
    decreases |u| + |v|, 0
  {
    var rest := v[|u|..];
    assert v == u + rest by { assert (u + v)[..|u|] == u && (v + u)[..|u|] == v[..|u|]; }
    assert u + (u + rest) == u + (rest + u);
    CancelLeft(u, u + rest, rest + u);
    var k;
    w, i, k := CommutingRepeat(u, rest);
    RepeatAdd(w, i, k);
    j := i + k;
  }

  // ---- the empty draft -----------------------------------------------------

  lemma NotATag(s: string)
    requires s != "" && s[0] != '<'
    ensures PlainBreaks(s) == [s[0]] + PlainBreaks(s[1..])
  {
    assert |s| >= 4 ==> Lower(s[..3])[0] == LowerChar(s[0]);
    assert LowerChar(s[0]) != '<';
    assert BreakTag(s) == 0 by { hide SkipSpace; }
    hide BreakTag;
  }

  lemma NotASpace(s: string)
    requires s != "" && s[0] != '&' && s[0] != '\U{00A0}'
    ensures PlainSpaces(s) == [s[0]] + PlainSpaces(s[1..])
  {
    assert "&nbsp;"[0] == '&';
  }

  /** A character that neither replacement looks at stays in front. */
  lemma FlatFirst(s: string)
    requires s != "" && s[0] != '<' && s[0] != '&' && s[0] != '\U{00A0}'
    ensures Flat(s) == [s[0]] + Flat(s[1..])
  {
    hide PlainBreaks, PlainSpaces;
    NotATag(s);
    var f := PlainBreaks(s[1..]);
    NotASpace([s[0]] + f);
    assert ([s[0]] + f)[1..] == f;
  }

  lemma FlatBehindNewlines(s: string)
    ensures Flat("\n\n" + s) == "\n\n" + Flat(s)
  {
    hide Flat;
    FlatFirst("\n\n" + s);
    FlatFirst("\n" + s);
    assert ("\n\n" + s)[1..] == "\n" + s && ("\n" + s)[1..] == s;
  }

  lemma {:induction false} TrimBehind(a: string, s: string)
    requires JsTrimEnd(s) != ""
    ensures JsTrimEnd(a + s) == a + JsTrimEnd(s)
    decreases |s|
  {
    hide JsSpace;
    if JsSpace(s[|s| - 1]) {
      assert (a + s)[..|a + s| - 1] == a + s[..|s| - 1];
      TrimBehind(a, s[..|s| - 1]);
    }
  }

  lemma {:induction false} FirstStops(s: string)
    requires s != "" && !JsSpace(s[0])
    ensures JsTrimEnd(s) != ""
    decreases |s|
  {
    hide JsSpace;
    if JsSpace(s[|s| - 1]) {
      FirstStops(s[..|s| - 1]);
    }
  }

  lemma TooLong(s: string, p: string)
    requires |p| > |s|
    ensures Find(s, p) == -1 && !EndsWith(s, p)
  {
  }

  /** An empty draft loses the newlines in front of the block, and the block is then not found again. */
  lemma EmptyDraftStays(t: string)
    requires t != ""
    ensures AppendBlock("", Block(t)) == Block(t)[2..]
    ensures StripBaked(Block(t)[2..], Block(t)) == Block(t)[2..] != ""
  {
    BlockShape(t);
    var b := Block(t)[2..];
    hide Block, Flat, JsTrimEnd, Find;
    FlatBehindNewlines(b);
    FlatFirst(b);
    FirstStops(Flat(b));
    TrimBehind("\n\n", Flat(b));
    TooLong(b, Block(t));
    TooLong(Flat(b), Flat(Block(t)));
    TooLong(JsTrimEnd(Flat(b)), JsTrimEnd(Flat(Block(t))));
  }

  // ---- a block that the editor rewrote -------------------------------------

  /** Every space as a no-break space. */
  function NoBreaks(s: string): (r: string)
    ensures |r| == |s|
  {
    seq(|s|, i requires 0 <= i < |s| => if s[i] == ' ' then '\U{00A0}' else s[i])
  }

  /** Nothing in here that an editor writes for a space or a line break. */
  predicate Unmarked(s: string) {
    '<' !in s && '&' !in s && '\U{00A0}' !in s
  }

  lemma {:induction false} NoBreakTags(s: string)
    requires '<' !in s
    ensures PlainBreaks(s) == s
  {
    if s != "" {
      assert s[0] in s;
      assert BreakTag(s) == 0 by {
        if |s| >= 4 { assert Lower(s[..3])[0] == LowerChar(s[0]); }
        hide SkipSpace;
      }
      hide BreakTag;
      NoBreakTags(s[1..]);
    }
  }

  lemma {:induction false} SpacesBack(s: string, rewritten: string)
    requires Unmarked(s) && |rewritten| == |s|
    requires forall i | 0 <= i < |s| :: rewritten[i] == s[i] || (s[i] == ' ' && rewritten[i] == '\U{00A0}')
    ensures PlainSpaces(rewritten) == s
  {
    if s != "" {
      assert s[0] in s && rewritten[0] != '&';
      SpacesBack(s[1..], rewritten[1..]);
      assert s == [s[0]] + s[1..];
    }
  }

  /**
   * A block whose spaces the editor turned into no-break spaces is still taken out, and nothing else, wherever it
   * stands: if the block as it was is nowhere in the draft, and would not have occurred earlier.
   */
  lemma NoBreakSpacesFound(own: string, t: string, rest: string)
    requires t != "" && Unmarked(own) && Unmarked(t) && Unmarked(rest)
    requires Find(own + NoBreaks(Block(t)) + rest, Block(t)) < 0
    requires Find(own + Block(t) + rest, Block(t)) == |own|
    ensures StripBaked(own + NoBreaks(Block(t)) + rest, Block(t)) == own + rest
  {
    var block, b := Block(t), own + NoBreaks(Block(t)) + rest;
    BlockUnmarked(t);
    NotFound(b, block);
    hide *;
    FlattenedBack(own, block, rest);
    assert own + block + rest == own + (block + rest) by { Reassociate(own, block, rest); }
    StripFlat(b, block);
    CutOutBlock(own, block, rest);
  }

  lemma CutOutBlock(own: string, block: string, rest: string)
    ensures var s := own + block + rest; s[..|own|] == own && s[|own| + |block|..] == rest
  {
  }

  lemma FlattenedBack(own: string, block: string, rest: string)
    requires Unmarked(own) && Unmarked(block) && Unmarked(rest)
    ensures Flat(own + NoBreaks(block) + rest) == own + block + rest && Flat(block) == block
  {
    var b, s := own + NoBreaks(block) + rest, own + block + rest;
    assert '<' !in NoBreaks(block);
    NoBreakTags(b);
    NoBreakTags(block);
    hide PlainBreaks, PlainSpaces;
    SpacesBack(s, b);
    SpacesBack(block, block);
  }

  /** What is not there as it is, is looked for with breaks and spaces made alike. */
  lemma StripFlat(b: string, block: string)
    requires block != "" && !EndsWith(b, block) && Find(b, block) < 0 && Find(Flat(b), Flat(block)) >= 0
    ensures var at := Find(Flat(b), Flat(block));
            StripBaked(b, block) == Flat(b)[..at] + Flat(b)[at + |Flat(block)|..]
  {
    hide Flat, Find, EndsWith, JsTrimEnd;
  }

  lemma BlockUnmarked(t: string)
    requires t != "" && Unmarked(t)
    ensures Unmarked(Block(t)) && Block(t) != ""
  {
    assert Unmarked(Delimiter());
  }

  lemma NotFound(b: string, block: string)
    requires Find(b, block) < 0
    ensures !EndsWith(b, block)
  {
    if EndsWith(b, block) { assert OccursAt(b, block, |b| - |block|); }
  }

  lemma FlatUnmarked(s: string)
    requires Unmarked(s)
    ensures Flat(s) == s
  {
    NoBreakTags(s);
    hide PlainBreaks, PlainSpaces;
    SpacesBack(s, s);
  }

  lemma SolidStays(s: string)
    requires s != "" ==> !JsSpace(s[|s| - 1])
    ensures JsTrimEnd(s) == s
  {
  }

  /** A draft without the block stays as it is. */
  lemma AbsentStays(b: string, block: string)
    requires Unmarked(b) && Unmarked(block) && Find(b, block) < 0
    requires block != "" ==> !JsSpace(block[|block| - 1])
    ensures StripBaked(b, block) == b
  {
    FlatUnmarked(b);
    FlatUnmarked(block);
    NotFound(b, block);
    SolidStays(block);
    hide Flat, Find, JsTrimEnd, Unmarked, JsSpace;
    if EndsWith(JsTrimEnd(b), block) { EndsBefore(b, block); }
  }

  lemma EndsBefore(b: string, block: string)
    requires EndsWith(JsTrimEnd(b), block)
    ensures Find(b, block) >= 0
  {
    hide Find, JsSpace;
    var nt := JsTrimEnd(b);
    TrimsTail(b);
    assert b[|nt| - |block|..|nt|] == nt[|nt| - |block|..];
    assert OccursAt(b, block, |nt| - |block|);
  }

  lemma {:induction false} TrimsTail(s: string)
    ensures JsTrimEnd(s) <= s
  {
    hide JsSpace;
    if s != "" && JsSpace(s[|s| - 1]) { TrimsTail(s[..|s| - 1]); }
  }

  lemma {:induction false} TailDropped(core: string, w: string)
    requires (core != "" ==> !JsSpace(core[|core| - 1])) && forall i | 0 <= i < |w| :: JsSpace(w[i])
    ensures JsTrimEnd(core + w) == core
    decreases |w|
  {
    if w == "" {
      SolidStays(core);
      assert core + w == core;
    } else {
      hide JsSpace;
      assert (core + w)[..|core + w| - 1] == core + w[..|w| - 1];
      TailDropped(core, w[..|w| - 1]);
    }
  }

  /** A block at the end of the draft is taken out even if white space at its end got lost. */
  lemma TrailingSpaceForgiven(own: string, core: string, w: string)
    requires Unmarked(own) && Unmarked(core + w) && core != "" && !JsSpace(core[|core| - 1])
    requires forall i | 0 <= i < |w| :: JsSpace(w[i])
    requires Find(own + core, core + w) < 0
    ensures StripBaked(own + core, core + w) == own
  {
    hide *;
    var b, block := own + core, core + w;
    BothUnmarked(own, core, w);
    FlatUnmarked(b);
    FlatUnmarked(block);
    NotFound(b, block);
    LastOf(own, core);
    SolidStays(b);
    TailDropped(core, w);
    StripTail(b, block, core);
  }

  lemma BothUnmarked(own: string, core: string, w: string)
    requires Unmarked(own) && Unmarked(core + w)
    ensures Unmarked(own + core)
  {
    assert forall c | c in core :: c in core + w;
  }

  lemma LastOf(own: string, core: string)
    requires core != ""
    ensures var b := own + core;
            b[|b| - 1] == core[|core| - 1] && EndsWith(b, core) && b[..|b| - |core|] == own
  {
  }

  /** With nothing found, only white space at the ends is left to ignore. */
  lemma StripTail(b: string, block: string, core: string)
    requires block != "" && core != "" && !EndsWith(b, block) && Find(b, block) < 0 && EndsWith(b, core)
    requires Flat(b) == b && Flat(block) == block && JsTrimEnd(b) == b && JsTrimEnd(block) == core
    ensures StripBaked(b, block) == b[..|b| - |core|]
  {
    hide Flat, Find, JsTrimEnd, EndsWith;
  }

  // ---- any sequence of picks -----------------------------------------------

  function Picks(d: Draft, choices: seq<Option<string>>): Draft
    decreases |choices|
  {
    if choices == [] then d else Picks(Pick(d, choices[0]), choices[1..])
  }

  /** The draft with one signature in it. */
  function Signed(text: string, choice: Option<string>): Draft {
    if choice.None? then Draft(text, Some(""))
    else Draft(AppendBlock(text, Block(choice.value)), Some(Block(choice.value)))
  }

  /** This choice can be taken out of the draft again. */
  predicate Removable(text: string, choice: Option<string>) {
    choice.Some? && choice.value != "" ==> Restores(text, Block(choice.value))
  }

  lemma PickReplaces(text: string, before: Option<string>, next: Option<string>)
    requires Removable(text, before)
    ensures Pick(Signed(text, before), next) == Signed(text, next)
  {
    hide *;
    assert Block("") == "" by { NoBlock(); }
    if before.Some? && before.value != "" {
      RestoresIt(text, before);
      StripUndoesAppendIff(text, before.value);
    }
    NothingAppended(text);
    PickCases(text, before, next);
  }

  lemma NoBlock()
    ensures Block("") == ""
  {
  }

  lemma RestoresIt(text: string, choice: Option<string>)
    requires Removable(text, choice) && choice.Some? && choice.value != ""
    ensures Restores(text, Block(choice.value))
  {
    hide Restores;
  }

  lemma NothingAppended(text: string)
    ensures AppendBlock(text, "") == text && StripBaked(text, "") == text
  {
    hide Find, EndsWith, Flat, JsTrimEnd, QuoteStart, Attribution;
    NothingBetween(text, QuoteStart(text));
  }

  lemma NothingBetween(s: string, q: nat)
    requires q <= |s|
    ensures s[..q] + "" + s[q..] == s && s + "" == s && s[..q] + s[q..] == s
  {
  }

  lemma PickCases(text: string, before: Option<string>, next: Option<string>)
    requires Block("") == "" && AppendBlock(text, "") == text && StripBaked(text, "") == text
    requires before.Some? && before.value != "" ==>
               StripBaked(AppendBlock(text, Block(before.value)), Block(before.value)) == text
    ensures Pick(Signed(text, before), next) == Signed(text, next)
  {
    hide StripBaked, AppendBlock, Block;
  }

  /** After any sequence of picks the body is the original draft with the last signature only. */
  lemma {:induction false} PicksLeaveLast(text: string, before: Option<string>, choices: seq<Option<string>>)
    requires choices != [] ==> Removable(text, before)
    requires forall i | 0 <= i < |choices| - 1 :: Removable(text, choices[i])
    ensures Picks(Signed(text, before), choices)
            == Signed(text, if choices == [] then before else choices[|choices| - 1])
    decreases |choices|
  {
    hide Removable, Signed, Pick;
    if choices != [] {
      PickReplaces(text, before, choices[0]);
      PicksLeaveLast(text, choices[0], choices[1..]);
    }
  }

  lemma FirstPick(text: string, choice: Option<string>)
    ensures Pick(Draft(text, None), choice) == Signed(text, choice)
  {
    hide AppendBlock, Block;
  }

  lemma FirstThenRest(d: Draft, choices: seq<Option<string>>)
    requires choices != []
    ensures Picks(d, choices) == Picks(Pick(d, choices[0]), choices[1..])
  {
    hide Pick;
  }

  /** The first pick in a fresh editor, and all later ones: only those picked over have to be taken out again. */
  lemma PicksFromStart(text: string, choices: seq<Option<string>>)
    requires choices != [] && forall i | 0 <= i < |choices| - 1 :: Removable(text, choices[i])
    ensures Picks(Draft(text, None), choices) == Signed(text, choices[|choices| - 1])
  {
    hide *;
    FirstThenRest(Draft(text, None), choices);
    FirstPick(text, choices[0]);
    PicksLeaveLast(text, choices[0], choices[1..]);
  }

  // ---- drafts without the delimiter ----------------------------------------

  /** Two newlines in a row open the block only. */
  lemma OneOpening(t: string, i: nat)
    requires t != "" && !JsSpace(t[0]) && 1 <= i <= 5
    ensures |Block(t)| >= 7 && !(Block(t)[i] == '\n' && Block(t)[i + 1] == '\n')
  {
    assert Block(t)[6] == t[0];
    var d := Delimiter();
    assert d[1] == '\n' && d[2] == '-' && d[3] == '-' && d[4] == ' ' && d[5] == '\n';
    assert forall k | 0 <= k < 6 :: Block(t)[k] == d[k];
  }

  /** The block cannot start `i` characters before text that begins like the block. */
  lemma NoOverlap(s: string, p: nat, i: nat, t: string)
    requires t != "" && !JsSpace(t[0]) && 1 <= i && p + i + 1 < |s| && s[p + i] == s[p + i + 1] == '\n'
    requires OccursAt(s, Block(t), p)
    ensures i >= 6
  {
    BlockOpens(t);
    var m := |Block(t)|;
    assert i <= 5 ==> s[p..p + m][i] == s[p + i] && s[p..p + m][i + 1] == s[p + i + 1];
    hide Block, JsSpace;
    if i <= 5 { OneOpening(t, i); }
  }

  lemma BlockOpens(t: string)
    requires t != ""
    ensures Block(t)[..6] == Delimiter() && |Delimiter()| == 6 && Block(t)[6..] == t
    ensures Block(t)[0] == Block(t)[1] == '\n'
  {
  }

  lemma PartOccurs(s: string, lo: nat, hi: nat, p: string, k: nat)
    requires lo <= k && k + |p| <= hi <= |s| && s[k..k + |p|] == p
    ensures Contains(s[lo..hi], p)
  {
    var part := s[lo..hi];
    var found := part[k - lo..k - lo + |p|];
    forall i | 0 <= i < |p| ensures found[i] == p[i] {
      assert found[i] == part[k - lo + i] && part[k - lo + i] == s[k + i] && s[k + i] == s[k..k + |p|][i];
    }
    assert found == p;
    assert OccursAt(s[lo..hi], p, k - lo);
  }

  /** The block is not found before the place where it is put. */
  lemma FoundInPlace(own: string, t: string)
    requires t != "" && !JsSpace(t[0]) && !Contains(own, Delimiter())
    ensures Find(own + Block(t), Block(t)) == |own|
  {
    BlockOpens(t);
    hide *;
    AtEnd(own, Block(t));
    var p := Find(own + Block(t), Block(t));
    if p < |own| {
      NoOverlap(own + Block(t), p, |own| - p, t);
      DelimiterAt(own + Block(t), p, t);
      assert own == (own + Block(t))[0..|own|];
      PartOccurs(own + Block(t), 0, |own|, Delimiter(), p);
    }
  }

  lemma AtEnd(own: string, block: string)
    requires |block| >= 2 && block[0] == block[1] == '\n'
    ensures OccursAt(own + block, block, |own|)
    ensures (own + block)[|own|] == (own + block)[|own| + 1] == '\n'
  {
    assert (own + block)[|own|..|own| + |block|] == block;
  }

  lemma DelimiterAt(s: string, p: nat, t: string)
    requires t != "" && OccursAt(s, Block(t), p)
    ensures p + 6 <= |s| && s[p..p + 6] == Delimiter()
  {
    BlockOpens(t);
    hide Block;
    assert s[p..p + 6] == s[p..p + |Block(t)|][..6];
  }

  /** A quote without the delimiter does not end the way the block does. */
  lemma QuoteEndsOtherwise(quote: string, t: string)
    requires t != "" && !JsSpace(t[0]) && !Contains(quote, Delimiter()) && !Contains(t, Delimiter())
    requires |quote| >= 14 && quote[0] == quote[1] == '\n'
    ensures !EndsWith(Block(t) + quote, Block(t))
  {
    var block, k := Block(t), |quote|;
    BlockOpens(t);
    hide *;
    if EndsWith(block + quote, block) {
      AtTail(block, quote, block);
      DelimiterAt(block + quote, k, t);
      Parts(block, quote, t);
      if k >= |block| {
        PartOccurs(block + quote, |block|, |block| + k, Delimiter(), k);
      } else {
        NoOverlap(block + quote, k, |block| - k, t);
        PartOccurs(block + quote, 6, |block|, Delimiter(), k);
      }
    }
  }

  lemma AtTail(a: string, b: string, p: string)
    requires EndsWith(a + b, p) && |p| == |a|
    ensures OccursAt(a + b, p, |b|)
  {
  }

  lemma Parts(block: string, quote: string, t: string)
    requires |block| >= 6 && block[6..] == t && |quote| >= 2 && quote[0] == quote[1] == '\n'
    ensures (block + quote)[|block|..|block| + |quote|] == quote && (block + quote)[6..|block|] == t
    ensures (block + quote)[|block|] == (block + quote)[|block| + 1] == '\n'
  {
  }

  /** A draft and a trimmed signature without the delimiter: removing always undoes inserting. */
  lemma DelimiterFreeRestores(d: string, t: string)
    requires d != "" && t != "" && !JsSpace(t[0])
    requires !Contains(d, Delimiter()) && !Contains(t, Delimiter())
    ensures Restores(d, Block(t))
  {
    var q := QuoteStart(d);
    if q < |d| {
      QuotedShape(d[q..]);
      Halves(d, q);
      FoundInPlace(d[..q], t);
      QuoteEndsOtherwise(d[q..], t);
      hide Find, EndsWith, Block, QuoteStart, Contains;
      assert d[..q][q..] == "" && "" + Block(t) == Block(t) + "";
    }
  }

  lemma Halves(d: string, q: nat)
    requires q <= |d| && !Contains(d, Delimiter())
    ensures !Contains(d[..q], Delimiter()) && !Contains(d[q..], Delimiter())
  {
    hide Delimiter;
    forall k: int ensures !OccursAt(d[..q], Delimiter(), k) {
      if 0 <= k && k + |Delimiter()| <= q {
        assert d[..q][k..k + |Delimiter()|] == d[k..k + |Delimiter()|];
        assert !OccursAt(d, Delimiter(), k);
      }
    }
    forall k: int ensures !OccursAt(d[q..], Delimiter(), k) {
      if 0 <= k && k + |Delimiter()| <= |d| - q {
        assert d[q..][k..k + |Delimiter()|] == d[q + k..q + k + |Delimiter()|];
        assert !OccursAt(d, Delimiter(), q + k);
      }
    }
  }

  // ---- two drafts that are not restored ------------------------------------

  /**
   * Picking two signatures in an empty draft stacks them: the first is not found again, because it lost its
   * newlines.
   */
  lemma EmptyDraftStacks(t: string, u: string)
    requires t != "" && u != "" && QuoteStart(Block(t)[2..]) == |Block(t)[2..]|
    ensures Picks(Draft("", None), [Some(t), Some(u)]).body == Block(t)[2..] + Block(u)
  {
    EmptyDraftStays(t);
    hide StripBaked, Find, Flat, JsTrimEnd, QuoteStart, Block;
    var d := Pick(Draft("", None), Some(t));
    assert d == Draft(Block(t)[2..], Some(Block(t)));
    assert [Some(t), Some(u)][1..] == [Some(u)] && [Some(u)][1..] == [];
    assert Picks(Draft("", None), [Some(t), Some(u)]) == Picks(d, [Some(u)]) == Picks(Pick(d, Some(u)), []);
  }

  /** A quote that ends with the signature being picked loses its own copy instead. */
  lemma QuotedCopyIsLost(own: string, quote: string, t: string)
    requires t != "" && Attribution(quote) && EndsWith(quote, Block(t)) && QuoteStart(own + quote) == |own|
    ensures StripBaked(AppendBlock(own + quote, Block(t)), Block(t)) != own + quote
  {
    var d := own + quote;
    assert d[..|own|] == own && d[|own|..] == quote;
    SameEnding(Block(t), quote, Block(t));
    StripUndoesAppendIff(d, t);
    hide StripBaked, AppendBlock, Find, Block, QuoteStart, EndsWith;
  }

  /** An instance: nothing but a quote that ends with the signature "x". */
  lemma QuotedCopyInstance()
    ensures var quote := "\n\nOn x wrote:\n" + Block("x");
            && Attribution(quote) && EndsWith(quote, Block("x")) && QuoteStart("" + quote) == 0
            && StripBaked(AppendBlock("" + quote, Block("x")), Block("x")) != "" + quote
  {
    var quote := "\n\nOn x wrote:\n" + Block("x");
    var line := "x wrote:";
    AttributionHolds(quote, line, Block("x"));
    assert quote[|quote| - |Block("x")|..] == Block("x");
    assert "" + quote == quote;
    hide Block, StripBaked, AppendBlock;
    QuotedCopyIsLost("", quote, "x");
  }

  lemma AttributionHolds(s: string, line: string, rest: string)
    requires s == "\n\nOn " + line + "\n" + rest && '\n' !in line && |line| >= 8 && EndsWith(line, " wrote:")
    ensures Attribution(s)
  {
    var after := s[5..];
    assert after == line + "\n" + rest;
    assert forall i | 0 <= i < |line| :: after[i] == line[i];
    IndexOfUnique(after, '\n', |line|);
    assert after[..|line|] == line;
  }
}
