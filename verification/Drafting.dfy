/**
 * The prompt side of "Draft reply" (crates/aivory-mail-core/src/drafting.rs): what a message
 * contributes once its quoted history is dropped, and the fenced conversation block.
 */
module Drafting {
  import opened Text

  // ---- dropping quoted history ---------------------------------------------

  predicate HasBlank(kept: seq<string>) {
    exists i | 0 <= i < |kept| :: Blank(kept[i])
  }

  /** `t` is a line without leading space; `kept` holds the lines accepted before it. */
  predicate IsAttribution(t: string, kept: seq<string>) {
    var lower := Lower(t);
    || ("on " <= lower && EndsWith(TrimEnd(lower), "wrote:"))
    || ("pada " <= lower && EndsWith(TrimEnd(lower), "menulis:"))
    || "-----original message-----" <= lower
    || ("from:" <= lower && kept != [] && HasBlank(kept))
  }

  predicate IsQuoted(t: string) {
    ">" <= t
  }

  datatype Scan = Scan(kept: seq<string>, stopped: bool)

  /** Reads lines until an attribution, leaving out the quoted ones. */
  function ScanLines(lines: seq<string>, kept: seq<string>): Scan {
    if lines == [] then Scan(kept, false)
    else
      var t := TrimStart(lines[0]);
      if IsQuoted(t) then ScanLines(lines[1..], kept)
      else if IsAttribution(t, kept) then Scan(kept, true)
      else ScanLines(lines[1..], kept + [lines[0]])
  }

  /** What is new in a message body. */
  function Unquoted(body: string): string {
    Trim(Join(ScanLines(Lines(Replace(body, "\r\n", "\n")), []).kept, "\n"))
  }

  method StripQuoted(body: string) returns (r: string)
    ensures r == Unquoted(body)
  {
    hide IsAttribution, IsQuoted, TrimStart, Lines, Replace, Join, Trim;
    var kept: seq<string> := [];
    var lines := Lines(Replace(body, "\r\n", "\n"));
    var i := 0;
    while i < |lines|
      invariant i <= |lines|
      invariant ScanLines(lines, []).kept == ScanLines(lines[i..], kept).kept
    {
      var line := lines[i];
      var t := TrimStart(line);
      assert lines[i..][1..] == lines[i + 1..];
      i := i + 1;
      if IsQuoted(t) {
        continue;
      }
      if IsAttribution(t, kept) {
        r := Trim(Join(kept, "\n"));
        return;
      }
      kept := kept + [line];
    }
    r := Trim(Join(kept, "\n"));
  }

  lemma ScanFirst(line: string, rest: seq<string>, kept: seq<string>)
    ensures var t := TrimStart(line);
            ScanLines([line] + rest, kept)
            == if IsQuoted(t) then ScanLines(rest, kept)
               else if IsAttribution(t, kept) then Scan(kept, true)
               else ScanLines(rest, kept + [line])
  {
    assert ([line] + rest)[1..] == rest;
  }

  lemma {:induction false} ScanAppend(a: seq<string>, b: seq<string>, kept: seq<string>)
    ensures var s := ScanLines(a, kept);
            ScanLines(a + b, kept) == if s.stopped then s else ScanLines(b, s.kept)
  {
    if a == [] {
      assert a + b == b;
    } else {
      assert (a + b)[1..] == a[1..] + b;
      var t := TrimStart(a[0]);
      if IsQuoted(t) {
        ScanAppend(a[1..], b, kept);
      } else if !IsAttribution(t, kept) {
        ScanAppend(a[1..], b, kept + [a[0]]);
      }
    }
  }

  lemma TrimStartBlank(w: string)
    requires Blank(w)
    ensures TrimStart(w) == ""
  {
    if w != "" { TrimStartBlank(w[1..]); }
  }

  lemma {:induction false} ScanBlank(blanks: seq<string>, kept: seq<string>)
    requires forall i | 0 <= i < |blanks| :: Blank(blanks[i])
    ensures ScanLines(blanks, kept) == Scan(kept + blanks, false)
  {
    if blanks == [] {
      assert kept + blanks == kept;
    } else {
      TrimStartBlank(blanks[0]);
      ScanBlank(blanks[1..], kept + [blanks[0]]);
      assert kept + [blanks[0]] + blanks[1..] == kept + blanks;
    }
  }

  lemma TrimJoinIgnoresBlank(kept: seq<string>, b: string)
    requires Blank(b)
    ensures TrimEnd(Join(kept + [b], "\n")) == TrimEnd(Join(kept, "\n"))
  {
    if kept == [] {
      assert kept + [b] == [b] && "" + b == b;
      TrimEndIgnoresBlank("", b);
    } else {
      JoinSnoc(kept, "\n", b);
      var j := Join(kept, "\n");
      assert j + "\n" + b == j + (['\n'] + b);
      TrimEndIgnoresBlank(j, ['\n'] + b);
    }
  }

  lemma {:induction false} TrimJoinIgnoresBlanks(kept: seq<string>, blanks: seq<string>)
    requires forall i | 0 <= i < |blanks| :: Blank(blanks[i])
    ensures TrimEnd(Join(kept + blanks, "\n")) == TrimEnd(Join(kept, "\n"))
    decreases |blanks|
  {
    hide IsSpace;
    if blanks == [] {
      assert kept + blanks == kept;
    } else {
      TrimJoinIgnoresBlank(kept, blanks[0]);
      TrimJoinIgnoresBlanks(kept + [blanks[0]], blanks[1..]);
      assert kept + [blanks[0]] + blanks[1..] == kept + blanks;
    }
  }

  lemma LowerKeepsSpace(t: string, u: string)
    requires t != "" && !IsSpace(t[|t| - 1]) && Blank(u)
    ensures Blank(Lower(u)) && !IsSpace(Lower(t)[|t| - 1])
  {
    assert forall c | IsSpace(c) :: LowerChar(c) == c;
  }

  /** Trailing space cannot turn a line into an attribution, nor hide one. */
  lemma AttributionIgnoresTrailingSpace(t: string, u: string, kept: seq<string>)
    requires t != "" && !IsSpace(t[|t| - 1]) && Blank(u)
    ensures IsAttribution(t + u, kept) == IsAttribution(t, kept)
    ensures IsQuoted(t + u) == IsQuoted(t)
  {
    var l, m := Lower(t), Lower(u);
    assert Lower(t + u) == l + m;
    LowerKeepsSpace(t, u);
    hide IsSpace, LowerChar, TrimEnd;
    MarkersIgnoreTrailingSpace("on ", "wrote:", l, m);
    MarkersIgnoreTrailingSpace("pada ", "menulis:", l, m);
    PrefixIgnoresTrailingSpace("-----original message-----", l, m);
    PrefixIgnoresTrailingSpace("from:", l, m);
    PrefixIgnoresTrailingSpace(">", t, u);
  }

  lemma MarkersIgnoreTrailingSpace(p: string, q: string, l: string, m: string)
    requires |p| <= |q| && l != "" && !IsSpace(l[|l| - 1]) && Blank(m)
    ensures (p <= l + m && EndsWith(TrimEnd(l + m), q)) <==> (p <= l && EndsWith(TrimEnd(l), q))
  {
    TrimEndIgnoresBlank(l, m);
    assert TrimEnd(l) == l;
    hide IsSpace;
    if |p| <= |l| { assert (l + m)[..|p|] == l[..|p|]; }
  }

  lemma PrefixIgnoresTrailingSpace(p: string, l: string, m: string)
    requires p != "" && !IsSpace(p[|p| - 1]) && Blank(m)
    ensures p <= l + m <==> p <= l
  {
    if |l| < |p| <= |l + m| {
      assert (l + m)[|p| - 1] == m[|p| - 1 - |l|];
    }
  }

  // ---- the fenced transcript -----------------------------------------------

  const MAX_MESSAGES: nat := 8
  const MAX_BODY_CHARS: nat := 2500
  const MAX_TRANSCRIPT_CHARS: nat := 12000
  const OPEN: string := "<conversation>"
  const CLOSE: string := "</conversation>"
  const SEPARATOR: string := "\n\n---\n\n"

  datatype Message = Message(from: string, date: string, fromOwner: bool, body: string)

  function TruncateChars(text: string, max: nat): string {
    if |text| <= max then text else text[..max] + " […]"
  }

  function Fence(t: string): string {
    Replace(Replace(t, OPEN, "<conversation >"), CLOSE, "</conversation >")
  }

  function Block(m: Message): string {
    var who := if m.fromOwner then "You (" + m.from + ")" else m.from;
    var body := TruncateChars(Unquoted(m.body), MAX_BODY_CHARS);
    "From: " + Fence(who) + "\nDate: " + Fence(m.date) + "\n\n" + Fence(body)
  }

  function Blocks(messages: seq<Message>): seq<string> {
    var start := if |messages| <= MAX_MESSAGES then 0 else |messages| - MAX_MESSAGES;
    seq(|messages| - start, i requires 0 <= i < |messages| - start => Block(messages[start + i]))
  }

  function Total(blocks: seq<string>): nat {
    if blocks == [] then 0 else |blocks[0]| + Total(blocks[1..])
  }

  /** `k` is where the longest run of newest blocks within the budget starts; the newest block always stays. */
  ghost predicate NewestWithinBudget(blocks: seq<string>, k: nat) {
    && k <= |blocks|
    && (blocks != [] ==> k < |blocks|)
    && (Total(blocks[k..]) <= MAX_TRANSCRIPT_CHARS || k == |blocks| - 1)
    && forall j | 0 <= j < k :: Total(blocks[j..]) > MAX_TRANSCRIPT_CHARS
  }

  method RenderTranscript(messages: seq<Message>) returns (r: string)
    ensures exists k: nat :: NewestWithinBudget(Blocks(messages), k) && r == Join(Blocks(messages)[k..], SEPARATOR)
  {
    var rendered := Blocks(messages);
    var kept: seq<string> := [];
    var used := 0;
    var i: nat := |rendered|;
    while i > 0
      invariant i <= |rendered|
      invariant kept == rendered[i..] && used == Total(kept)
      invariant used <= MAX_TRANSCRIPT_CHARS || i == |rendered| - 1
    {
      var block := rendered[i - 1];
      if used + |block| > MAX_TRANSCRIPT_CHARS && kept != [] {
        break;
      }
      used := used + |block|;
      kept := [block] + kept;
      i := i - 1;
    }
    forall j | 0 <= j < i ensures Total(rendered[j..]) > MAX_TRANSCRIPT_CHARS {
      assert rendered[i - 1..] == [rendered[i - 1]] + rendered[i..];
      TotalMonotone(rendered, j, i - 1);
    }
    assert NewestWithinBudget(rendered, i);
    r := Join(kept, SEPARATOR);
  }

  lemma TotalMonotone(blocks: seq<string>, j: nat, i: nat)
    requires j <= i <= |blocks|
    ensures Total(blocks[j..]) >= Total(blocks[i..])
    decreases i - j
  {
    if j < i {
      assert blocks[j..][1..] == blocks[j + 1..];
      TotalMonotone(blocks, j + 1, i);
    }
  }

  /** Only one suffix meets the packing rule, so the transcript is determined by the messages. */
  lemma PackingIsUnique(blocks: seq<string>, k: nat, l: nat)
    requires NewestWithinBudget(blocks, k) && NewestWithinBudget(blocks, l)
    ensures k == l
  {
    if k < l {
      TotalMonotone(blocks, k, l);
    } else {
      TotalMonotone(blocks, l, k);
    }
  }

  ghost predicate NoFence(s: string) {
    !Contains(s, OPEN) && !Contains(s, CLOSE)
  }

  /** Text copied by a replacement starts with `q` only if the source does. */
  lemma CopyKeepsStart(s: string, p: string, r: string, q: string)
    requires p != "" && s != "" && !(p <= s)
    requires r != "" && q != "" && r[0] !in q[1..]
    ensures q <= Replace(s, p, r) ==> q <= s
  {
    var rest := Replace(s[1..], p, r);
    if q <= Replace(s, p, r) {
      assert q[1..] <= rest by { assert Replace(s, p, r)[1..] == rest; }
      ReplaceKeepsPrefix(s[1..], p, r, q[1..]);
      assert s == [s[0]] + s[1..] && q == [q[0]] + q[1..];
    }
  }

  /**
   * Replacing `p` by `r` leaves no `q` behind, where `q` is `p` itself or a text `s` did not hold,
   * and `r` differs from `q` at position `i` and overlaps it nowhere else.
   */
  lemma {:induction false} ReplaceLeavesNone(s: string, p: string, r: string, q: string, i: nat)
    requires p != "" && i < |r| && i < |q| && r[i] != q[i]
    requires r[0] !in q[1..] && q[0] !in r[1..]
    requires q == p || !Contains(s, q)
    ensures !Contains(Replace(s, p, r), q)
    decreases |s|
  {
    var out := Replace(s, p, r);
    if s == "" {
    } else if p <= s {
      var rest := Replace(s[|p|..], p, r);
      if q != p { ContainsSuffix(s, |p|, q); }
      ReplaceLeavesNone(s[|p|..], p, r, q, i);
      NoOccurrenceAfterPrefix(r[1..], rest, q);
      assert out[1..] == r[1..] + rest && out[i] == r[i];
      NotAtStart(out, r[1..] + rest, q);
    } else {
      if q != p { ContainsSuffix(s, 1, q); }
      ReplaceLeavesNone(s[1..], p, r, q, i);
      CopyKeepsStart(s, p, r, q);
      assert q <= s ==> OccursAt(s, q, 0);
      NotAtStart(out, Replace(s[1..], p, r), q);
    }
  }

  lemma ContainsSuffix(s: string, k: nat, p: string)
    requires k <= |s| && !Contains(s, p)
    ensures !Contains(s[k..], p)
  {
    forall j: int ensures !OccursAt(s[k..], p, j) {
      if 0 <= j && j + |p| <= |s| - k {
        assert s[k..][j..j + |p|] == s[k + j..k + j + |p|];
        assert !OccursAt(s, p, k + j);
      }
    }
  }

  lemma NotAtStart(s: string, tail: string, p: string)
    requires s != "" && s[1..] == tail && !Contains(tail, p)
    requires !(p <= s)
    ensures !Contains(s, p)
  {
    forall k: int ensures !OccursAt(s, p, k) {
      if 0 < k && k + |p| <= |s| {
        assert s[k..k + |p|] == tail[k - 1..k - 1 + |p|];
        assert !OccursAt(tail, p, k - 1);
      } else if k == 0 && |p| <= |s| {
        assert s[0..|p|] == s[..|p|];
      }
    }
  }

  /** Fenced text holds neither tag. */
  lemma FenceRemovesTags(t: string)
    ensures NoFence(Fence(t))
  {
    var halfway := Replace(t, OPEN, "<conversation >");
    ReplaceLeavesNone(t, OPEN, "<conversation >", OPEN, 13);
    ReplaceLeavesNone(halfway, CLOSE, "</conversation >", OPEN, 1);
    ReplaceLeavesNone(halfway, CLOSE, "</conversation >", CLOSE, 14);
  }

  /** A tag: it opens with '<' and keeps to one line. */
  predicate TagLike(p: string) {
    p != "" && p[0] == '<' && '\n' !in p
  }

  lemma NoneJoined(a: string, between: string, b: string, p: string)
    requires TagLike(p) && !Contains(a, p) && !Contains(b, p)
    requires between != "" && between[0] == '\n' && '<' !in between
    ensures !Contains(a + between + b, p)
  {
    NoOccurrenceAfterPrefix(between[1..], b, p);
    NoOccurrenceAcross(a, '\n', between[1..] + b, p);
    assert a + between + b == a + ['\n'] + (between[1..] + b);
  }

  lemma BlockHasNone(m: Message, p: string)
    requires TagLike(p) && forall t :: !Contains(Fence(t), p)
    ensures !Contains(Block(m), p)
  {
    hide Fence, Unquoted, TruncateChars, Contains;
    var who := if m.fromOwner then "You (" + m.from + ")" else m.from;
    var body := TruncateChars(Unquoted(m.body), MAX_BODY_CHARS);
    var head, dated, date := "From: " + Fence(who), "\nDate: ", Fence(m.date);
    NoOccurrenceAfterPrefix("From: ", Fence(who), p);
    NoneJoined(head, dated, date, p);
    NoneJoined(head + dated + date, "\n\n", Fence(body), p);
  }

  lemma {:induction false} JoinHasNone(blocks: seq<string>, p: string)
    requires TagLike(p) && forall i | 0 <= i < |blocks| :: !Contains(blocks[i], p)
    ensures !Contains(Join(blocks, SEPARATOR), p)
  {
    if |blocks| > 1 {
      JoinHasNone(blocks[1..], p);
      NoneJoined(blocks[0], SEPARATOR, Join(blocks[1..], SEPARATOR), p);
    } else if blocks == [] {
      assert forall k: int :: !OccursAt("", p, k);
    }
  }

  /** Whatever the senders wrote, the rendered transcript contains neither fence tag. */
  lemma TranscriptHasNoFence(messages: seq<Message>, k: nat)
    requires k <= |Blocks(messages)|
    ensures NoFence(Join(Blocks(messages)[k..], SEPARATOR))
  {
    forall t ensures NoFence(Fence(t)) { FenceRemovesTags(t); }
    assert TagLike(OPEN) && TagLike(CLOSE);
    TranscriptHasNone(messages, k, OPEN);
    TranscriptHasNone(messages, k, CLOSE);
  }

  lemma TranscriptHasNone(messages: seq<Message>, k: nat, p: string)
    requires k <= |Blocks(messages)|
    requires TagLike(p) && forall t :: !Contains(Fence(t), p)
    ensures !Contains(Join(Blocks(messages)[k..], SEPARATOR), p)
  {
    hide TagLike, Fence, Contains, Block, Join;
    var start := if |messages| <= MAX_MESSAGES then 0 else |messages| - MAX_MESSAGES;
    var blocks := Blocks(messages)[k..];
    forall i | 0 <= i < |blocks| ensures !Contains(blocks[i], p) {
      BlockHasNone(messages[start + k + i], p);
    }
    JoinHasNone(blocks, p);
  }

  /** The user turn of the prompt; `after` is the fixed request and the owner's note. */
  function UserTurn(transcript: string, after: string): string {
    OPEN + "\n" + transcript + "\n" + CLOSE + after
  }

  /** Around a text without `p`, an occurrence of `p` starts in the opening part or in the closing one. */
  lemma OnlyOutside(before: string, text: string, after: string, p: string, j: int)
    requires TagLike(p) && !Contains(text, p)
    requires OccursAt(Framed(before, text, after), p, j)
    ensures j + |p| <= |before| || j > |before| + 1 + |text|
  {
    var s := Framed(before, text, after);
    var at := |before| + 1 + |text|;
    assert s[|before|] == '\n' && s[at] == '\n';
    forall i | j <= i < j + |p| ensures s[i] != '\n' {
      assert s[i] == p[i - j];
    }
    if |before| < j && j + |p| <= at {
      assert s[j..j + |p|] == text[j - |before| - 1..j - |before| - 1 + |p|];
      assert OccursAt(text, p, j - |before| - 1);
    }
  }

  /** No sender can close the fence: the first closing tag is the prompt's own, and nothing reopens it. */
  lemma FenceClosesOnce(messages: seq<Message>, k: nat, after: string)
    requires k <= |Blocks(messages)|
    ensures var transcript := Join(Blocks(messages)[k..], SEPARATOR);
            var user := UserTurn(transcript, after);
            && Find(user, CLOSE) == |OPEN| + 1 + |transcript| + 1
            && forall j :: OccursAt(user, OPEN, j) ==> j == 0 || j > Find(user, CLOSE)
  {
    var transcript := Join(Blocks(messages)[k..], SEPARATOR);
    TranscriptHasNoFence(messages, k);
    FenceClosesAround(OPEN, transcript, CLOSE, after);
  }

  lemma FenceClosesAround(open: string, transcript: string, close: string, after: string)
    requires TagLike(open) && TagLike(close) && |open| > 1 && |close| > 1 && open[1] != close[1]
    requires !Contains(transcript, open) && !Contains(transcript, close)
    requires '<' !in open[1..]
    ensures var user := open + "\n" + transcript + "\n" + close + after;
            && Find(user, close) == |open| + 1 + |transcript| + 1
            && forall j :: OccursAt(user, open, j) ==> j == 0 || j > Find(user, close)
  {
    hide *;
    FramedClose(open, transcript, close, after);
    FramedClosesOnce(open, transcript, close, after);
  }

  lemma FramedClosesOnce(open: string, text: string, close: string, after: string)
    requires TagLike(open) && TagLike(close) && |open| > 1 && |close| > 1 && open[1] != close[1]
    requires !Contains(text, open) && !Contains(text, close)
    requires '<' !in open[1..]
    ensures var user := Framed(open, text, close + after);
            var at := |open| + 1 + |text| + 1;
            Find(user, close) == at && forall j :: OccursAt(user, open, j) ==> j == 0 || j > at
  {
    hide *;
    FramedClose(open, text, close, after);
    var at := |open| + 1 + |text| + 1;
    forall j | OccursAt(Framed(open, text, close + after), close, j) ensures j >= at {
      StartsOutside(open, text, close + after, close, j);
    }
    forall j | OccursAt(Framed(open, text, close + after), open, j) ensures j == 0 || j > at {
      StartsOutside(open, text, close + after, open, j);
      OccurrenceStart(Framed(open, text, close + after), open, j);
    }
  }

  lemma FramedClose(open: string, text: string, close: string, after: string)
    requires |close| > 1
    ensures var user := Framed(open, text, close + after);
            var at := |open| + 1 + |text| + 1;
            && open + "\n" + text + "\n" + close + after == user
            && OccursAt(user, close, at) && user[at] == close[0] && user[at + 1] == close[1]
  {
    hide Contains;
    var at := |open| + 1 + |text| + 1;
    var user := Framed(open, text, close + after);
    assert open + "\n" + text + "\n" + close + after == user;
    assert user[at..at + |close|] == close;
  }

  function Framed(before: string, text: string, after: string): string {
    before + ['\n'] + text + ['\n'] + after
  }

  lemma StartsOutside(open: string, text: string, after: string, p: string, j: int)
    requires TagLike(p) && |p| > 1 && !Contains(text, p)
    requires open != "" && '<' !in open[1..]
    requires OccursAt(Framed(open, text, after), p, j)
    ensures j == 0 || j >= |open| + 1 + |text| + 1
    ensures j == 0 && |open| > 1 ==> p[1] == open[1]
  {
    OnlyOutside(open, text, after, p, j);
    OccurrenceStart(Framed(open, text, after), p, j);
    assert forall i | 0 < i < |open| :: Framed(open, text, after)[i] == open[1..][i - 1];
  }

  lemma OccurrenceStart(s: string, p: string, j: int)
    requires OccursAt(s, p, j) && |p| > 1
    ensures s[j] == p[0] && s[j + 1] == p[1]
  {
    assert s[j..j + |p|][0] == s[j] && s[j..j + |p|][1] == s[j + 1];
  }
}
