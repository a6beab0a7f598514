/**
 * New-mail announcements: the poll of web/components/useNewMailNotifications.ts and the pop-ups of
 * web/components/newMailNotify.ts.
 */
module NewMail {
  import opened Text

  datatype Item = Item(id: string, sender: string, preview: string)

  const PAGE := 10
  const MAX_INDIVIDUAL := 3

  // ---- one poll ------------------------------------------------------------

  function FindId(list: seq<Item>, id: string): (k: nat)
    ensures k <= |list| && (forall i | 0 <= i < k :: list[i].id != id) && (k < |list| ==> list[k].id == id)
  {
    if list == [] || list[0].id == id then 0 else 1 + FindId(list[1..], id)
  }

  function PickNewMessages(list: seq<Item>, lastSeen: Option<string>): seq<Item> {
    if lastSeen.None? || lastSeen.value == "" then [] else list[..FindId(list, lastSeen.value)]
  }

  /** The two refs: whether a baseline was taken, and the newest message seen. */
  datatype Seen = Seen(baselined: bool, lastSeen: Option<string>)

  /** One poll: None is a failed request. The result is the batch to announce, newest first. */
  function Poll(s: Seen, page: Option<seq<Item>>): (Seen, seq<Item>) {
    if page.None? || page.value == [] || page.value[0].id == "" then (s, [])
    else
      var top := Some(page.value[0].id);
      if !s.baselined then (Seen(true, top), [])
      else if top == s.lastSeen then (s, [])
      else (s.(lastSeen := top), PickNewMessages(page.value, s.lastSeen))
  }

  class Notifier {
    var baselined: bool
    var lastSeen: Option<string>

    /** Mounting, or switching mailboxes. */
    constructor ()
      ensures Seen(baselined, lastSeen) == Seen(false, None)
    {
      baselined, lastSeen := false, None;
    }

    method OnPoll(page: Option<seq<Item>>) returns (batch: seq<Item>)
      modifies this
      ensures (Seen(baselined, lastSeen), batch) == Poll(Seen(old(baselined), old(lastSeen)), page)
    {
      if page.None? || page.value == [] || page.value[0].id == "" {
        return [];
      }
      var top := page.value[0].id;
      if !baselined {
        baselined := true;
        lastSeen := Some(top);
        return [];
      }
      if Some(top) == lastSeen {
        return [];
      }
      batch := PickNewMessages(page.value, lastSeen);
      lastSeen := Some(top);
    }
  }

  // ---- an inbox that only grows --------------------------------------------

  /** The first page when `n` messages have arrived, newest first. */
  function Page(arrivals: seq<Item>, n: nat): seq<Item>
    requires n <= |arrivals|
  {
    Newest(arrivals, n, if n < PAGE then n else PAGE)
  }

  /** The last `k` of the first `n` arrivals, newest first. */
  function Newest(arrivals: seq<Item>, n: nat, k: nat): seq<Item>
    requires k <= n <= |arrivals|
  {
    seq(k, i requires 0 <= i < k => arrivals[n - 1 - i])
  }

  /** Every message has an id of its own. */
  predicate UniqueIds(arrivals: seq<Item>) {
    && (forall i | 0 <= i < |arrivals| :: arrivals[i].id != "")
    && (forall i, j | 0 <= i < j < |arrivals| :: arrivals[i].id != arrivals[j].id)
  }

  /** One poll of a run: how many messages had arrived, and whether the request succeeded. */
  datatype Tick = Tick(n: nat, ok: bool)

  predicate Timeline(arrivals: seq<Item>, ticks: seq<Tick>) {
    && (forall i | 0 <= i < |ticks| :: ticks[i].n <= |arrivals|)
    && (forall i, j | 0 <= i < j < |ticks| :: ticks[i].n <= ticks[j].n)
  }

  function Response(arrivals: seq<Item>, t: Tick): Option<seq<Item>>
    requires t.n <= |arrivals|
  {
    if t.ok then Some(Page(arrivals, t.n)) else None
  }

  /** The state after a run of polls, and everything it announced, each batch oldest first. */
  function Run(arrivals: seq<Item>, ticks: seq<Tick>): (Seen, seq<Item>)
    requires Timeline(arrivals, ticks)
  {
    if ticks == [] then (Seen(false, None), [])
    else
      var (s, announced) := Run(arrivals, ticks[..|ticks| - 1]);
      var (s1, batch) := Poll(s, Response(arrivals, ticks[|ticks| - 1]));
      (s1, announced + Reversed(batch))
  }

  function Reversed(s: seq<Item>): seq<Item> {
    seq(|s|, i requires 0 <= i < |s| => s[|s| - 1 - i])
  }

  /** Arrivals up to the last poll that saw any; 0 before. */
  function SeenUpTo(ticks: seq<Tick>): nat {
    if ticks == [] then 0
    else if ticks[|ticks| - 1].ok && ticks[|ticks| - 1].n > 0 then ticks[|ticks| - 1].n
    else SeenUpTo(ticks[..|ticks| - 1])
  }

  /** Arrivals at the first poll that saw any: the baseline, never announced. */
  function Baseline(ticks: seq<Tick>): nat {
    if ticks == [] then 0
    else
      var before := Baseline(ticks[..|ticks| - 1]);
      if before > 0 then before else if ticks[|ticks| - 1].ok then ticks[|ticks| - 1].n else 0
  }

  /** What a poll announces when `m` arrivals had been seen and there are `n`: the newest ten of the rest. */
  function FreshCount(m: nat, n: nat): nat {
    if n <= m then 0 else if n - m < PAGE then n - m else PAGE
  }

  function Range(lo: nat, hi: nat): seq<nat>
    requires lo <= hi
  {
    seq(hi - lo, i requires 0 <= i < hi - lo => lo + i)
  }

  /** The arrivals that the last poll of a run announces. */
  function More(ticks: seq<Tick>): seq<nat>
    requires ticks != []
  {
    var m, t := SeenUpTo(ticks[..|ticks| - 1]), ticks[|ticks| - 1];
    if m > 0 && t.ok then Range(t.n - FreshCount(m, t.n), t.n) else []
  }

  /** Specification: which arrivals a run announces, by number and in order. */
  function Positions(ticks: seq<Tick>): seq<nat> {
    if ticks == [] then [] else Positions(ticks[..|ticks| - 1]) + More(ticks)
  }

  predicate Within(positions: seq<nat>, bound: nat) {
    forall i | 0 <= i < |positions| :: positions[i] < bound
  }

  function At(arrivals: seq<Item>, positions: seq<nat>): seq<Item>
    requires Within(positions, |arrivals|)
  {
    seq(|positions|, i requires 0 <= i < |positions| => arrivals[positions[i]])
  }

  /** With `m` seen, a page holds exactly the fresh messages before the one last seen. */
  lemma FreshOnPage(arrivals: seq<Item>, m: nat, n: nat)
    requires UniqueIds(arrivals) && 0 < m < n <= |arrivals|
    ensures FindId(Page(arrivals, n), arrivals[m - 1].id) == FreshCount(m, n)
  {
    var page := Page(arrivals, n);
    var id := arrivals[m - 1].id;
    var k := FindId(page, id);
    if n - m < |page| {
      assert page[n - m] == arrivals[m - 1];
    }
    if k < |page| {
      assert page[k] == arrivals[n - 1 - k];
      assert n - 1 - k == m - 1;
    }
  }

  /** The state when the first `m` arrivals have been seen. */
  function Mark(arrivals: seq<Item>, m: nat): Seen
    requires m <= |arrivals|
  {
    if m == 0 then Seen(false, None) else Seen(true, Some(arrivals[m - 1].id))
  }

  lemma PollAnnounces(arrivals: seq<Item>, m: nat, t: Tick)
    requires UniqueIds(arrivals) && m <= t.n <= |arrivals|
    ensures var (s1, batch) := Poll(Mark(arrivals, m), Response(arrivals, t));
            && s1 == Mark(arrivals, if t.ok && t.n > 0 then t.n else m)
            && Reversed(batch) == At(arrivals, if m > 0 && t.ok then Range(t.n - FreshCount(m, t.n), t.n) else [])
  {
    assert t.n == 0 ==> Page(arrivals, t.n) == [];
    hide Page, Mark, UniqueIds, Poll;
    if t.ok && t.n > 0 {
      PollSome(arrivals, m, t.n);
    } else {
      PollNothing(Mark(arrivals, m), Response(arrivals, t));
    }
  }

  lemma PollNothing(s: Seen, page: Option<seq<Item>>)
    requires page.None? || page.value == []
    ensures Poll(s, page) == (s, [])
  {
  }

  lemma PollSome(arrivals: seq<Item>, m: nat, n: nat)
    requires UniqueIds(arrivals) && 0 < n && m <= n <= |arrivals|
    ensures var (s1, batch) := Poll(Mark(arrivals, m), Some(Page(arrivals, n)));
            && s1 == Mark(arrivals, n)
            && Reversed(batch) == At(arrivals, if m > 0 then Range(n - FreshCount(m, n), n) else [])
  {
    var page := Page(arrivals, n);
    assert page[0] == arrivals[n - 1] && page[0].id != "";
    if 0 < m < n {
      assert arrivals[m - 1].id != "" && arrivals[m - 1].id != arrivals[n - 1].id;
      FreshOnPage(arrivals, m, n);
      PageReversed(arrivals, n, FreshCount(m, n));
    } else {
      assert m == n ==> FreshCount(m, n) == 0 && arrivals[n - 1] == page[0];
    }
    hide Page, FindId, FreshCount, UniqueIds;
  }

  lemma PageReversed(arrivals: seq<Item>, n: nat, k: nat)
    requires n <= |arrivals| && k <= |Page(arrivals, n)|
    ensures Reversed(Page(arrivals, n)[..k]) == At(arrivals, Range(n - k, n))
  {
  }

  lemma {:induction false} SeenUpToMonotone(ticks: seq<Tick>, bound: nat)
    requires forall i | 0 <= i < |ticks| :: ticks[i].n <= bound
    ensures SeenUpTo(ticks) <= bound && (SeenUpTo(ticks) > 0 <==> Baseline(ticks) > 0)
    ensures Baseline(ticks) <= bound
  {
    if ticks != [] { SeenUpToMonotone(ticks[..|ticks| - 1], bound); }
  }

  /** Positions go up, from the baseline to the newest seen: nothing is announced twice. */
  lemma {:induction false} PositionsIncrease(ticks: seq<Tick>, bound: nat)
    requires forall i | 0 <= i < |ticks| :: ticks[i].n <= bound
    requires forall i, j | 0 <= i < j < |ticks| :: ticks[i].n <= ticks[j].n
    ensures var p := Positions(ticks);
            && (forall i, j | 0 <= i < j < |p| :: p[i] < p[j])
            && (forall i | 0 <= i < |p| :: Baseline(ticks) <= p[i] < SeenUpTo(ticks) <= bound)
            && Within(p, bound)
  {
    SeenUpToMonotone(ticks, bound);
    hide FreshCount;
    if ticks != [] {
      var before, t := ticks[..|ticks| - 1], ticks[|ticks| - 1];
      SeenUpToMonotone(before, t.n);
      PositionsIncrease(before, t.n);
      BaselineFirst(before);
      SpecSnoc(ticks);
      assert Baseline(ticks) == if Baseline(before) > 0 then Baseline(before) else if t.ok then t.n else 0;
      MoreIsAbove(ticks);
      hide *;
      var p, q := Positions(before), More(ticks);
      assert Positions(ticks) == p + q;
      if q != [] { assert SeenUpTo(before) > 0 && SeenUpTo(ticks) == t.n; }
      WithinAll(p + q, bound);
    }
  }

  lemma MoreIsAbove(ticks: seq<Tick>)
    requires ticks != [] && SeenUpTo(ticks[..|ticks| - 1]) <= ticks[|ticks| - 1].n
    ensures var m, n, q := SeenUpTo(ticks[..|ticks| - 1]), ticks[|ticks| - 1].n, More(ticks);
            && (q != [] ==> m > 0 && ticks[|ticks| - 1].ok && n > 0)
            && (forall i | 0 <= i < |q| :: m <= q[i] < n)
            && (forall i, j | 0 <= i < j < |q| :: q[i] < q[j])
  {
    hide SeenUpTo;
  }

  lemma WithinAll(p: seq<nat>, bound: nat)
    ensures (forall i | 0 <= i < |p| :: p[i] < bound) ==> Within(p, bound)
  {
  }

  lemma {:induction false} BaselineFirst(ticks: seq<Tick>)
    requires forall i, j | 0 <= i < j < |ticks| :: ticks[i].n <= ticks[j].n
    ensures Baseline(ticks) <= SeenUpTo(ticks)
  {
    if ticks != [] {
      var before, t := ticks[..|ticks| - 1], ticks[|ticks| - 1];
      BaselineFirst(before);
      SeenUpToMonotone(before, t.n);
    }
  }

  /** What the polls announce is what the specification says, and the last seen id is that of the newest seen. */
  lemma {:induction false} RunAnnounces(arrivals: seq<Item>, ticks: seq<Tick>)
    requires UniqueIds(arrivals) && Timeline(arrivals, ticks)
    ensures SeenUpTo(ticks) <= |arrivals| && Within(Positions(ticks), |arrivals|)
    ensures Run(arrivals, ticks) == (Mark(arrivals, SeenUpTo(ticks)), At(arrivals, Positions(ticks)))
  {
    if ticks == [] {
      assert Positions(ticks) == [] && At(arrivals, []) == [];
    } else {
      hide *;
      RunSnoc(arrivals, ticks);
      RunAnnounces(arrivals, ticks[..|ticks| - 1]);
      InRange(arrivals, ticks);
      OneMorePoll(arrivals, ticks);
    }
  }

  lemma InRange(arrivals: seq<Item>, ticks: seq<Tick>)
    requires Timeline(arrivals, ticks)
    ensures SeenUpTo(ticks) <= |arrivals| && Within(Positions(ticks), |arrivals|)
    ensures ticks != [] ==> Within(More(ticks), |arrivals|) && SeenUpTo(ticks[..|ticks| - 1]) <= ticks[|ticks| - 1].n
  {
    TimelineGrows(arrivals, ticks);
    hide *;
    PositionsIncrease(ticks, |arrivals|);
    SeenUpToMonotone(ticks, |arrivals|);
    if ticks != [] {
      SpecSnoc(ticks);
      SuffixWithin(Positions(ticks[..|ticks| - 1]), More(ticks), |arrivals|);
    }
  }

  lemma SuffixWithin(p: seq<nat>, q: seq<nat>, bound: nat)
    requires Within(p + q, bound)
    ensures Within(q, bound)
  {
    assert forall i | 0 <= i < |q| :: (p + q)[|p| + i] == q[i];
  }

  lemma OneMorePoll(arrivals: seq<Item>, ticks: seq<Tick>)
    requires UniqueIds(arrivals) && Timeline(arrivals, ticks) && ticks != []
    requires var before := ticks[..|ticks| - 1];
             && Timeline(arrivals, before) && SeenUpTo(before) <= |arrivals| && Within(Positions(before), |arrivals|)
             && Run(arrivals, before) == (Mark(arrivals, SeenUpTo(before)), At(arrivals, Positions(before)))
    requires SeenUpTo(ticks) <= |arrivals| && Within(Positions(ticks), |arrivals|) && Within(More(ticks), |arrivals|)
    requires SeenUpTo(ticks[..|ticks| - 1]) <= ticks[|ticks| - 1].n
    ensures Run(arrivals, ticks) == (Mark(arrivals, SeenUpTo(ticks)), At(arrivals, Positions(ticks)))
  {
    TimelineGrows(arrivals, ticks);
    hide *;
    RunSnoc(arrivals, ticks);
    SpecSnoc(ticks);
    PollAnnounces(arrivals, SeenUpTo(ticks[..|ticks| - 1]), ticks[|ticks| - 1]);
    AtAppend(arrivals, Positions(ticks[..|ticks| - 1]), More(ticks));
  }

  lemma TimelineGrows(arrivals: seq<Item>, ticks: seq<Tick>)
    requires Timeline(arrivals, ticks)
    ensures forall i, j | 0 <= i < j < |ticks| :: ticks[i].n <= ticks[j].n
    ensures forall i | 0 <= i < |ticks| :: ticks[i].n <= |arrivals|
  {
  }

  lemma SpecSnoc(ticks: seq<Tick>)
    requires ticks != [] && forall i, j | 0 <= i < j < |ticks| :: ticks[i].n <= ticks[j].n
    ensures var before, t := ticks[..|ticks| - 1], ticks[|ticks| - 1];
            var m := SeenUpTo(before);
            && m <= t.n && Positions(ticks) == Positions(before) + More(ticks)
            && SeenUpTo(ticks) == (if t.ok && t.n > 0 then t.n else m)
            && More(ticks) == (if m > 0 && t.ok then Range(t.n - FreshCount(m, t.n), t.n) else [])
  {
    SeenUpToMonotone(ticks[..|ticks| - 1], ticks[|ticks| - 1].n);
    hide FreshCount;
  }

  lemma RunSnoc(arrivals: seq<Item>, ticks: seq<Tick>)
    requires Timeline(arrivals, ticks) && ticks != []
    ensures Timeline(arrivals, ticks[..|ticks| - 1]) && ticks[|ticks| - 1].n <= |arrivals|
    ensures var (s, announced) := Run(arrivals, ticks[..|ticks| - 1]);
            var (s1, batch) := Poll(s, Response(arrivals, ticks[|ticks| - 1]));
            Run(arrivals, ticks) == (s1, announced + Reversed(batch))
  {
    assert Timeline(arrivals, ticks[..|ticks| - 1]) && ticks[|ticks| - 1].n <= |arrivals| by { hide Run; }
    hide Poll, Response, Timeline;
  }

  lemma AtAppend(arrivals: seq<Item>, p: seq<nat>, q: seq<nat>)
    requires Within(p, |arrivals|) && Within(q, |arrivals|)
    ensures Within(p + q, |arrivals|)
    ensures At(arrivals, p + q) == At(arrivals, p) + At(arrivals, q)
  {
  }

  /** Never more than a page of ten between two polls that got through. */
  predicate SmallGaps(ticks: seq<Tick>) {
    ticks != [] ==>
      var m, t := SeenUpTo(ticks[..|ticks| - 1]), ticks[|ticks| - 1];
      SmallGaps(ticks[..|ticks| - 1]) && (m > 0 && t.ok ==> t.n - m <= 10)
  }

  lemma {:induction false} PositionsComplete(ticks: seq<Tick>)
    requires forall i, j | 0 <= i < j < |ticks| :: ticks[i].n <= ticks[j].n
    ensures Baseline(ticks) <= SeenUpTo(ticks) && |Positions(ticks)| <= SeenUpTo(ticks) - Baseline(ticks)
    ensures Positions(ticks) == Range(Baseline(ticks), SeenUpTo(ticks)) <==> SmallGaps(ticks)
    ensures !SmallGaps(ticks) ==> |Positions(ticks)| < SeenUpTo(ticks) - Baseline(ticks)
  {
    BaselineFirst(ticks);
    if ticks != [] {
      var before, t := ticks[..|ticks| - 1], ticks[|ticks| - 1];
      PositionsComplete(before);
      SpecSnoc(ticks);
      var m, lo := SeenUpTo(before), Baseline(before);
      assert Baseline(ticks) == if lo > 0 then lo else if t.ok then t.n else 0;
      assert SmallGaps(ticks) <==> SmallGaps(before) && (m > 0 && t.ok ==> t.n - m <= 10);
      SeenUpToMonotone(before, t.n);
      assert |More(ticks)| <= t.n - m;
      assert More(ticks) == (if m > 0 && t.ok && t.n - m <= PAGE then Range(m, t.n) else More(ticks));
      assert m > 0 && t.ok && t.n - m > PAGE ==> |More(ticks)| < t.n - m;
      hide SeenUpTo, Baseline, More, SmallGaps, Positions;
      if m > 0 && t.ok {
        RangesJoin(lo, m, t.n);
      }
    }
  }

  lemma RangesJoin(a: nat, b: nat, c: nat)
    requires a <= b <= c
    ensures Range(a, b) + Range(b, c) == Range(a, c)
  {
  }

  /**
   * On an inbox that only grows, over any run of polls, failed ones included: no message is announced twice, none up
   * to the baseline, and all after it exactly if no more than ten arrive between polls that get through.
   */
  lemma AnnouncedOnce(arrivals: seq<Item>, ticks: seq<Tick>)
    requires UniqueIds(arrivals) && Timeline(arrivals, ticks)
    ensures var announced := Run(arrivals, ticks).1;
            && (forall i, j | 0 <= i < j < |announced| :: announced[i].id != announced[j].id)
            && Baseline(ticks) <= SeenUpTo(ticks) <= |arrivals|
            && (announced == arrivals[Baseline(ticks)..SeenUpTo(ticks)] <==> SmallGaps(ticks))
  {
    RunAnnounces(arrivals, ticks);
    PositionsIncrease(ticks, |arrivals|);
    PositionsComplete(ticks);
    IncreasingIsUnique(arrivals, Positions(ticks));
    hide *;
    RangeIsSlice(arrivals, Baseline(ticks), SeenUpTo(ticks));
  }

  lemma IncreasingIsUnique(arrivals: seq<Item>, p: seq<nat>)
    requires UniqueIds(arrivals) && Within(p, |arrivals|)
    requires forall i, j | 0 <= i < j < |p| :: p[i] < p[j]
    ensures var r := At(arrivals, p); forall i, j | 0 <= i < j < |r| :: r[i].id != r[j].id
  {
  }

  lemma RangeIsSlice(arrivals: seq<Item>, lo: nat, hi: nat)
    requires lo <= hi <= |arrivals|
    ensures At(arrivals, Range(lo, hi)) == arrivals[lo..hi]
  {
  }

  // ---- pop-ups -------------------------------------------------------------

  datatype PopUp = ForMessage(title: string, body: string, id: string) | Summary(more: nat)

  function Individual(m: Item): (p: PopUp)
    ensures p.ForMessage? && p.id == m.id
    ensures p.title != "" && p.body != ""
  {
    hide JsTrim;
    ForMessage(if JsTrim(m.sender) == "" then "New message" else JsTrim(m.sender),
               if JsTrim(m.preview) == "" then "You have new mail" else JsTrim(m.preview), m.id)
  }

  /** `s` without the white space around it. */
  predicate Trimmed(s: string, t: string) {
    exists i, j | 0 <= i <= j <= |s| ::
      && t == s[i..j] && (t != "" ==> !JsSpace(t[0]) && !JsSpace(t[|t| - 1]))
      && (forall k | 0 <= k < i :: JsSpace(s[k])) && (forall k | j <= k < |s| :: JsSpace(s[k]))
  }

  lemma {:induction false} TrimsEnd(s: string)
    ensures var e := JsTrimEnd(s);
            e <= s && (e != "" ==> !JsSpace(e[|e| - 1])) && forall k | |e| <= k < |s| :: JsSpace(s[k])
  {
    hide JsSpace;
    if s != "" { TrimsEnd(s[..|s| - 1]); }
  }

  lemma {:induction false} TrimsStart(s: string)
    ensures var t := JsTrimStart(s);
            && |t| <= |s| && t == s[|s| - |t|..] && (t != "" ==> !JsSpace(t[0]))
            && forall k | 0 <= k < |s| - |t| :: JsSpace(s[k])
  {
    hide JsSpace;
    if s != "" && JsSpace(s[0]) {
      TrimsStart(s[1..]);
      assert forall k | 0 < k < |s| :: s[k] == s[1..][k - 1];
    }
  }

  lemma TrimIs(s: string)
    ensures Trimmed(s, JsTrim(s))
  {
    var e := JsTrimEnd(s);
    var t := JsTrimStart(e);
    TrimsEnd(s);
    TrimsStart(e);
    hide JsSpace, JsTrimEnd, JsTrimStart;
    assert s[|e| - |t|..|e|] == t;
  }

  /** A pop-up says who wrote and what about, or stands in for what is blank. */
  lemma PopUpSays(m: Item) returns (sender: string, preview: string)
    ensures Trimmed(m.sender, sender) && Trimmed(m.preview, preview)
    ensures Individual(m) == ForMessage(if sender == "" then "New message" else sender,
                                        if preview == "" then "You have new mail" else preview, m.id)
  {
    sender, preview := JsTrim(m.sender), JsTrim(m.preview);
    TrimIs(m.sender);
    TrimIs(m.preview);
    hide JsTrim, Trimmed;
  }

  /** How many messages these pop-ups stand for. */
  function Counted(popUps: seq<PopUp>): nat {
    if popUps == [] then 0
    else (if popUps[0].Summary? then popUps[0].more else 1) + Counted(popUps[1..])
  }

  /** One pop-up each, oldest first. */
  function Individuals(shown: seq<Item>): (r: seq<PopUp>)
    ensures |r| == |shown|
  {
    if shown == [] then [] else Individuals(shown[1..]) + [Individual(shown[0])]
  }

  lemma {:induction false} IndividualAt(shown: seq<Item>, i: nat)
    requires i < |shown|
    ensures Individuals(shown)[|shown| - 1 - i] == Individual(shown[i])
  {
    hide Individual;
    if i > 0 { IndividualAt(shown[1..], i - 1); }
  }

  lemma {:induction false} CountedAppend(a: seq<PopUp>, b: seq<PopUp>)
    ensures Counted(a + b) == Counted(a) + Counted(b)
  {
    if a == [] {
      assert a + b == b;
    } else {
      assert (a + b)[1..] == a[1..] + b;
      CountedAppend(a[1..], b);
    }
  }

  lemma {:induction false} CountedIndividuals(shown: seq<Item>)
    ensures Counted(Individuals(shown)) == |shown|
  {
    if shown != [] {
      CountedIndividuals(shown[1..]);
      CountedAppend(Individuals(shown[1..]), [Individual(shown[0])]);
      hide Individual;
    }
  }

  /** The first few of a batch that is newest first. */
  function NewestFew(batch: seq<Item>): seq<Item> {
    if |batch| <= MAX_INDIVIDUAL then batch else batch[..MAX_INDIVIDUAL]
  }

  /**
   * The pop-ups of a batch (newest first): a summary of the rest, then the newest three, oldest of them first, so
   * that the newest ends on top. Together they stand for the whole batch.
   */
  method BuildPopUps(batch: seq<Item>) returns (popUps: seq<PopUp>)
    ensures popUps == (if |batch| > 3 then [Summary(|batch| - 3)] else []) + Individuals(NewestFew(batch))
    ensures Counted(popUps) == |batch|
  {
    var shown := NewestFew(batch);
    hide Individuals, Counted;
    popUps := Individuals(shown);
    CountedIndividuals(shown);
    var rest := |batch| - |shown|;
    if rest > 0 {
      CountedHeaded(rest, popUps);
      popUps := [Summary(rest)] + popUps;
    } else {
      assert [] + popUps == popUps;
    }
  }

  lemma CountedHeaded(rest: nat, popUps: seq<PopUp>)
    ensures Counted([Summary(rest)] + popUps) == rest + Counted(popUps)
  {
    assert ([Summary(rest)] + popUps)[1..] == popUps;
  }

  lemma FewAt(batch: seq<Item>, i: nat)
    requires i < |batch| && i < 3
    ensures i < |NewestFew(batch)| && NewestFew(batch)[i] == batch[i]
  {
  }

  /** The newest message's pop-up comes last, the one before it next to last, and so on. */
  lemma NewestOnTop(batch: seq<Item>, i: nat)
    requires i < |batch| && i < 3
    ensures var shown := NewestFew(batch); i < |shown| && Individuals(shown)[|shown| - 1 - i] == Individual(batch[i])
  {
    hide *;
    FewAt(batch, i);
    IndividualAt(NewestFew(batch), i);
  }
}
