/**
 * New-mail announcements (NewMail.dfy) on an inbox that also loses messages: moved, deleted or archived ones do not
 * come back.
 */
module NewMailRemovals {
  import opened Text
  import opened NewMail

  /** One poll: how many messages had arrived, which of them were gone, and whether the request succeeded. */
  datatype Look = Look(n: nat, gone: set<nat>, ok: bool)

  predicate History(arrivals: seq<Item>, looks: seq<Look>) {
    && (forall i | 0 <= i < |looks| :: looks[i].n <= |arrivals|)
    && (forall i, j | 0 <= i < j < |looks| :: looks[i].n <= looks[j].n && looks[i].gone <= looks[j].gone)
  }

  /** The numbers of the messages left, newest first. */
  function Left(n: nat, gone: set<nat>): seq<nat> {
    if n == 0 then [] else (if n - 1 in gone then [] else [n - 1]) + Left(n - 1, gone)
  }

  function Inbox(l: Look): seq<nat> {
    Left(l.n, l.gone)
  }

  function FirstPage(l: Look): seq<nat> {
    if |Inbox(l)| < PAGE then Inbox(l) else Inbox(l)[..PAGE]
  }

  predicate Down(s: seq<nat>) {
    forall i, j | 0 <= i < j < |s| :: s[i] > s[j]
  }

  lemma {:induction false} LeftIs(n: nat, gone: set<nat>)
    ensures Down(Left(n, gone)) && Within(Left(n, gone), n)
    ensures forall k: nat :: k in Left(n, gone) <==> k < n && k !in gone
  {
    if n > 0 { LeftIs(n - 1, gone); }
  }

  lemma FirstPageIs(l: Look)
    ensures Down(FirstPage(l)) && Within(FirstPage(l), l.n)
    ensures FirstPage(l) <= Inbox(l) && (FirstPage(l) == [] <==> Inbox(l) == [])
    ensures forall k: nat | k in FirstPage(l) :: k < l.n && k !in l.gone
  {
    LeftIs(l.n, l.gone);
    assert forall k | k in FirstPage(l) :: k in Inbox(l);
  }

  function Answer(arrivals: seq<Item>, l: Look): Option<seq<Item>>
    requires l.n <= |arrivals|
  {
    FirstPageIs(l);
    if l.ok then Some(At(arrivals, FirstPage(l))) else None
  }

  /** The state after a run of polls. */
  function StateAfter(arrivals: seq<Item>, looks: seq<Look>): Seen
    requires History(arrivals, looks)
  {
    if looks == [] then Seen(false, None)
    else Poll(StateAfter(arrivals, looks[..|looks| - 1]), Answer(arrivals, looks[|looks| - 1])).0
  }

  /** The last poll that found a message. */
  function LastFound(looks: seq<Look>): (last: Option<Look>)
    ensures last.Some? ==> last.value.ok && Inbox(last.value) != [] && last.value in looks
  {
    if looks == [] then None
    else
      var l := looks[|looks| - 1];
      if l.ok && Inbox(l) != [] then Some(l) else LastFound(looks[..|looks| - 1])
  }

  /** The number of the newest message seen. */
  function MarkOf(last: Look): nat
    requires Inbox(last) != []
  {
    Inbox(last)[0]
  }

  function StateOf(arrivals: seq<Item>, last: Option<Look>): Seen
    requires last.Some? ==> last.value.n <= |arrivals| && Inbox(last.value) != []
  {
    if last.None? then Seen(false, None)
    else
      LeftIs(last.value.n, last.value.gone);
      Seen(true, Some(arrivals[MarkOf(last.value)].id))
  }

  /** The numbers of what a poll announces: the page up to the mark, all of it if the mark is not there. */
  function Fresh(last: Option<Look>, l: Look): seq<nat>
    requires last.Some? ==> Inbox(last.value) != []
  {
    if last.None? || !l.ok then [] else FirstPage(l)[..IndexOf(FirstPage(l), MarkOf(last.value))]
  }

  lemma {:induction false} FindsMark(arrivals: seq<Item>, page: seq<nat>, mark: nat)
    requires UniqueIds(arrivals) && Within(page, |arrivals|) && mark < |arrivals|
    ensures FindId(At(arrivals, page), arrivals[mark].id) == IndexOf(page, mark)
  {
    if page != [] {
      assert At(arrivals, page)[1..] == At(arrivals, page[1..]);
      FindsMark(arrivals, page[1..], mark);
    }
  }

  lemma AtPrefix(arrivals: seq<Item>, page: seq<nat>, k: nat)
    requires Within(page, |arrivals|) && k <= |page|
    ensures Within(page[..k], |arrivals|) && At(arrivals, page)[..k] == At(arrivals, page[..k])
  {
  }

  /** One poll, in numbers. */
  lemma PollIs(arrivals: seq<Item>, last: Option<Look>, l: Look)
    requires UniqueIds(arrivals) && l.n <= |arrivals|
    requires last.Some? ==> last.value.n <= |arrivals| && Inbox(last.value) != []
    ensures Within(Fresh(last, l), |arrivals|)
    ensures Poll(StateOf(arrivals, last), Answer(arrivals, l))
            == (StateOf(arrivals, if l.ok && Inbox(l) != [] then Some(l) else last), At(arrivals, Fresh(last, l)))
  {
    FirstPageIs(l);
    assert At(arrivals, []) == [];
    if !l.ok || Inbox(l) == [] {
      assert l.ok ==> FirstPage(l) == [];
      hide Left, FirstPage, StateOf;
    } else if last.None? {
      assert FirstPage(l)[0] == Inbox(l)[0];
      hide Left, FirstPage;
    } else {
      PollFindsMark(arrivals, last.value, l);
    }
  }

  lemma PollFindsMark(arrivals: seq<Item>, last: Look, l: Look)
    requires UniqueIds(arrivals) && l.n <= |arrivals| && l.ok && Inbox(l) != []
    requires last.n <= |arrivals| && Inbox(last) != []
    ensures Within(Fresh(Some(last), l), |arrivals|)
    ensures Poll(StateOf(arrivals, Some(last)), Answer(arrivals, l))
            == (StateOf(arrivals, Some(l)), At(arrivals, Fresh(Some(last), l)))
  {
    FirstPageIs(l);
    LeftIs(last.n, last.gone);
    var page, mark := FirstPage(l), MarkOf(last);
    var items := At(arrivals, page);
    FindsMark(arrivals, page, mark);
    AtPrefix(arrivals, page, IndexOf(page, mark));
    assert page[0] == Inbox(l)[0] && items[0] == arrivals[page[0]] && items[0].id != "";
    assert items[0].id == arrivals[mark].id <==> page[0] == mark;
    assert page[0] == mark ==> IndexOf(page, mark) == 0 && At(arrivals, page[..0]) == [];
    hide FindId, IndexOf, Left, FirstPage, At;
  }

  lemma {:induction false} StateIs(arrivals: seq<Item>, looks: seq<Look>)
    requires UniqueIds(arrivals) && History(arrivals, looks)
    ensures var last := LastFound(looks);
            && (last.Some? ==> last.value.n <= |arrivals|)
            && StateAfter(arrivals, looks) == StateOf(arrivals, last)
  {
    if looks != [] {
      StateIs(arrivals, looks[..|looks| - 1]);
      PollIs(arrivals, LastFound(looks[..|looks| - 1]), looks[|looks| - 1]);
      hide Poll, Answer, StateOf, Fresh;
    }
  }

  /** The newest seen message is off the page, while one that was there with it is on it. */
  predicate MarkLost(last: Look, l: Look)
    requires Inbox(last) != []
  {
    MarkOf(last) !in FirstPage(l) && exists i | 0 <= i < |FirstPage(l)| :: FirstPage(l)[i] in Inbox(last)
  }

  /** What was there before is no newer than the mark, and what is no newer was there before. */
  lemma NoNewerThanMark(last: Look, l: Look, k: nat)
    requires last.n <= l.n && last.gone <= l.gone && Inbox(last) != [] && k in FirstPage(l)
    ensures k in Inbox(last) <==> k <= MarkOf(last)
  {
    LeftIs(last.n, last.gone);
    FirstPageIs(l);
    hide Left, FirstPage;
    var inbox := Inbox(last);
    assert MarkOf(last) in inbox && k !in last.gone;
    if k in inbox {
      var i :| 0 <= i < |inbox| && inbox[i] == k;
    }
  }

  lemma FreshRepeatsIff(last: Look, l: Look)
    requires last.n <= l.n && last.gone <= l.gone && Inbox(last) != [] && l.ok
    ensures (exists k :: k in Fresh(Some(last), l) && k in Inbox(last)) <==> MarkLost(last, l)
  {
    var page, mark := FirstPage(l), MarkOf(last);
    var at := IndexOf(page, mark);
    FirstPageIs(l);
    var news := Fresh(Some(last), l);
    hide IndexOf, Left, FirstPage;
    assert news == page[..at];
    if mark in page {
      forall k | k in news ensures k !in Inbox(last) {
        var i :| 0 <= i < at && page[i] == k;
        assert at < |page| && page[i] > page[at];
        NoNewerThanMark(last, l, k);
      }
    } else {
      assert news == page;
    }
  }

  /**
   * On an inbox that loses messages, a poll announces something that was in the inbox at the poll before exactly if
   * the newest message of that poll is off the page and another one from it is still there.
   */
  lemma RepeatsIff(arrivals: seq<Item>, looks: seq<Look>, l: Look)
    requires UniqueIds(arrivals) && History(arrivals, looks + [l])
    ensures History(arrivals, looks) && l.n <= |arrivals|
    ensures var batch := Poll(StateAfter(arrivals, looks), Answer(arrivals, l)).1;
            var last := LastFound(looks);
            (last.Some? && exists k: nat | k < |arrivals| :: k in Inbox(last.value) && arrivals[k] in batch)
            <==> last.Some? && l.ok && MarkLost(last.value, l)
  {
    Earlier(arrivals, looks, l);
    StateIs(arrivals, looks);
    var last := LastFound(looks);
    PollIs(arrivals, last, l);
    hide *;
    if last.Some? {
      ItemsOf(arrivals, Fresh(last, l), Inbox(last.value));
      if l.ok { FreshRepeatsIff(last.value, l); } else { NothingFresh(last, l); }
    }
  }

  lemma NothingFresh(last: Option<Look>, l: Look)
    requires !l.ok && (last.Some? ==> Inbox(last.value) != [])
    ensures Fresh(last, l) == []
  {
  }

  lemma Earlier(arrivals: seq<Item>, looks: seq<Look>, l: Look)
    requires History(arrivals, looks + [l])
    ensures History(arrivals, looks) && l.n <= |arrivals|
    ensures LastFound(looks).Some? ==> LastFound(looks).value.n <= l.n && LastFound(looks).value.gone <= l.gone
  {
    var all := looks + [l];
    assert forall i | 0 <= i < |looks| :: all[i] == looks[i];
    assert all[|looks|] == l;
    if LastFound(looks).Some? {
      var i :| 0 <= i < |looks| && looks[i] == LastFound(looks).value;
      assert all[i] == looks[i];
    }
  }

  lemma ItemsOf(arrivals: seq<Item>, news: seq<nat>, inbox: seq<nat>)
    requires UniqueIds(arrivals) && Within(news, |arrivals|)
    ensures (exists k: nat | k < |arrivals| :: k in inbox && arrivals[k] in At(arrivals, news))
            <==> exists k :: k in news && k in inbox
  {
    var batch := At(arrivals, news);
    if k :| k in news && k in inbox {
      var i :| 0 <= i < |news| && news[i] == k;
      assert batch[i] == arrivals[k];
    }
    if k: nat :| k < |arrivals| && k in inbox && arrivals[k] in batch {
      var i :| 0 <= i < |batch| && batch[i] == arrivals[k];
      assert news[i] == k;
    }
  }

  // ---- over a whole run ----------------------------------------------------

  /** Everything a run announces, batch by batch. */
  function AnnouncedBy(arrivals: seq<Item>, looks: seq<Look>): seq<Item>
    requires History(arrivals, looks)
  {
    if looks == [] then []
    else
      var before := looks[..|looks| - 1];
      AnnouncedBy(arrivals, before) + Poll(StateAfter(arrivals, before), Answer(arrivals, looks[|looks| - 1])).1
  }

  /** Its numbers. */
  function AllFresh(looks: seq<Look>): seq<nat> {
    if looks == [] then []
    else AllFresh(looks[..|looks| - 1]) + Fresh(LastFound(looks[..|looks| - 1]), looks[|looks| - 1])
  }

  lemma {:induction false} AnnouncedNumbers(arrivals: seq<Item>, looks: seq<Look>)
    requires UniqueIds(arrivals) && History(arrivals, looks)
    ensures Within(AllFresh(looks), |arrivals|) && AnnouncedBy(arrivals, looks) == At(arrivals, AllFresh(looks))
  {
    if looks == [] {
      assert At(arrivals, []) == [];
    } else {
      var before, l := looks[..|looks| - 1], looks[|looks| - 1];
      AnnouncedNumbers(arrivals, before);
      StateIs(arrivals, before);
      PollIs(arrivals, LastFound(before), l);
      hide Poll, Answer, StateOf, Fresh, StateAfter, LastFound;
      AtAppend(arrivals, AllFresh(before), Fresh(LastFound(before), l));
    }
  }

  /** At no poll of the run was the mark lost. */
  predicate MarkKept(looks: seq<Look>) {
    looks != [] ==>
      var before, l := looks[..|looks| - 1], looks[|looks| - 1];
      MarkKept(before) && (LastFound(before).Some? && l.ok ==> !MarkLost(LastFound(before).value, l))
  }

  lemma FreshIs(last: Option<Look>, l: Look)
    requires last.Some? ==> Inbox(last.value) != []
    ensures var news := Fresh(last, l);
            && Down(news) && (news != [] ==> last.Some? && l.ok && Inbox(l) != [])
            && forall k | k in news :: k < l.n && k !in l.gone
  {
    FirstPageIs(l);
    var page := FirstPage(l);
    hide FirstPage, Left;
    if last.Some? {
      var at := IndexOf(page, MarkOf(last.value));
      assert forall k | k in page[..at] :: k in page;
    }
  }

  predicate Distinct(s: seq<nat>) {
    forall i, j | 0 <= i < j < |s| :: s[i] != s[j]
  }

  lemma SameAsNumbers(arrivals: seq<Item>, looks: seq<Look>)
    requires UniqueIds(arrivals) && History(arrivals, looks)
    ensures var all := AnnouncedBy(arrivals, looks);
            Distinct(AllFresh(looks)) <==> forall i, j | 0 <= i < j < |all| :: all[i].id != all[j].id
  {
    AnnouncedNumbers(arrivals, looks);
    hide AnnouncedBy, AllFresh, History;
    var numbers, all := AllFresh(looks), AnnouncedBy(arrivals, looks);
    assert |all| == |numbers|;
    forall i, j | 0 <= i < j < |all| ensures all[i].id == all[j].id <==> numbers[i] == numbers[j] {
      assert all[i] == arrivals[numbers[i]] && all[j] == arrivals[numbers[j]];
    }
  }

  // ---- announced twice -----------------------------------------------------

  /** The mark is off the page, and something announced before is on it. */
  predicate AnnouncesAgain(before: seq<Look>, l: Look) {
    && l.ok && LastFound(before).Some? && MarkOf(LastFound(before).value) !in FirstPage(l)
    && exists i | 0 <= i < |FirstPage(l)| :: FirstPage(l)[i] in AllFresh(before)
  }

  predicate NeverAgain(looks: seq<Look>) {
    looks != [] ==> NeverAgain(looks[..|looks| - 1]) && !AnnouncesAgain(looks[..|looks| - 1], looks[|looks| - 1])
  }

  /** What was announced had arrived by the last poll that found a message. */
  lemma {:induction false} AnnouncedHadArrived(arrivals: seq<Item>, looks: seq<Look>)
    requires History(arrivals, looks)
    ensures var all := AllFresh(looks);
            all != [] ==> LastFound(looks).Some? && Within(all, LastFound(looks).value.n)
  {
    if looks != [] {
      var before, l := looks[..|looks| - 1], looks[|looks| - 1];
      assert looks == before + [l];
      Earlier(arrivals, before, l);
      AnnouncedHadArrived(arrivals, before);
      var last := LastFound(before);
      FreshIs(last, l);
      assert LastFound(looks) == if l.ok && Inbox(l) != [] then Some(l) else last;
      assert AllFresh(looks) == AllFresh(before) + Fresh(last, l);
      hide Fresh, LastFound, History, AllFresh;
      assert Fresh(last, l) == [] ==> AllFresh(looks) == AllFresh(before);
      if Fresh(last, l) != [] { JoinWithin(AllFresh(before), Fresh(last, l), l.n); }
    }
  }

  lemma JoinWithin(a: seq<nat>, b: seq<nat>, n: nat)
    requires (forall k | k in b :: k < n) && (a == [] || Within(a, n))
    ensures Within(a + b, n)
  {
    forall i | 0 <= i < |a + b| ensures (a + b)[i] < n {
      if i >= |a| { assert b[i - |a|] in b; }
    }
  }

  /** A poll repeats a number announced before exactly if the mark is lost and that number is on the page. */
  lemma RepeatedNumber(all: seq<nat>, last: Look, l: Look)
    requires last.n <= l.n && last.gone <= l.gone && Inbox(last) != [] && l.ok && (all == [] || Within(all, last.n))
    ensures (exists k :: k in Fresh(Some(last), l) && k in all)
            <==> MarkOf(last) !in FirstPage(l) && exists i | 0 <= i < |FirstPage(l)| :: FirstPage(l)[i] in all
  {
    FreshIs(Some(last), l);
    FreshRepeatsIff(last, l);
    LeftIs(last.n, last.gone);
    var news, page, mark := Fresh(Some(last), l), FirstPage(l), MarkOf(last);
    assert news == page[..IndexOf(page, mark)];
    hide Fresh, Left, FirstPage, IndexOf;
    forall k | k in news && k in all ensures k in Inbox(last) {
      assert k !in last.gone;
    }
    if mark !in page {
      assert news == page;
    }
  }

  lemma DistinctJoin(a: seq<nat>, b: seq<nat>)
    requires Down(b)
    ensures Distinct(a + b) <==> Distinct(a) && forall k | k in b :: k !in a
  {
    var both := a + b;
    if Distinct(both) {
      forall i, j | 0 <= i < j < |a| ensures a[i] != a[j] {
        assert both[i] == a[i] && both[j] == a[j];
      }
      forall k | k in b ensures k !in a {
        var j :| 0 <= j < |b| && b[j] == k;
        assert both[|a| + j] == k;
        assert forall i | 0 <= i < |a| :: both[i] == a[i];
      }
    }
    if Distinct(a) && forall k | k in b :: k !in a {
      forall i, j | 0 <= i < j < |both| ensures both[i] != both[j] {
        if i < |a| <= j {
          assert b[j - |a|] in b && a[i] in a;
        }
      }
    }
  }

  lemma AfterOneMore(before: seq<Look>, l: Look)
    ensures AllFresh(before + [l]) == AllFresh(before) + Fresh(LastFound(before), l)
    ensures NeverAgain(before + [l]) <==> NeverAgain(before) && !AnnouncesAgain(before, l)
  {
    assert (before + [l])[..|before|] == before;
    hide Fresh, LastFound, AnnouncesAgain;
  }

  lemma {:induction false} NumbersTwiceIff(arrivals: seq<Item>, looks: seq<Look>)
    requires History(arrivals, looks)
    ensures Distinct(AllFresh(looks)) <==> NeverAgain(looks)
  {
    if looks != [] {
      var before, l := looks[..|looks| - 1], looks[|looks| - 1];
      assert looks == before + [l];
      var last := LastFound(before);
      hide Fresh, LastFound, History, AllFresh, Distinct, NeverAgain, FirstPage;
      Earlier(arrivals, before, l);
      NumbersTwiceIff(arrivals, before);
      AnnouncedHadArrived(arrivals, before);
      FreshIs(last, l);
      DistinctJoin(AllFresh(before), Fresh(last, l));
      AfterOneMore(before, l);
      if last.Some? && l.ok { RepeatedNumber(AllFresh(before), last.value, l); }
    }
  }

  /**
   * A run announces something twice exactly if at some poll the mark was off the page while the page held something
   * announced before.
   */
  lemma AnnouncedTwiceIff(arrivals: seq<Item>, looks: seq<Look>)
    requires UniqueIds(arrivals) && History(arrivals, looks)
    ensures var all := AnnouncedBy(arrivals, looks);
            (exists i, j | 0 <= i < j < |all| :: all[i].id == all[j].id) <==> !NeverAgain(looks)
  {
    NumbersTwiceIff(arrivals, looks);
    SameAsNumbers(arrivals, looks);
    hide *;
  }

  lemma LostThen(before: seq<Look>, l: Look)
    requires AnnouncesAgain(before, l)
    requires var last := LastFound(before).value;
             last.n <= l.n && last.gone <= l.gone && Within(AllFresh(before), last.n)
    ensures MarkLost(LastFound(before).value, l)
  {
    var last := LastFound(before).value;
    FirstPageIs(l);
    LeftIs(last.n, last.gone);
    var i :| 0 <= i < |FirstPage(l)| && FirstPage(l)[i] in AllFresh(before);
    assert FirstPage(l)[i] in FirstPage(l);
    hide FirstPage, Left, AllFresh, LastFound;
  }

  lemma {:induction false} KeptNeverAgain(arrivals: seq<Item>, looks: seq<Look>)
    requires History(arrivals, looks) && MarkKept(looks)
    ensures NeverAgain(looks)
  {
    if looks != [] {
      var before, l := looks[..|looks| - 1], looks[|looks| - 1];
      assert looks == before + [l];
      Earlier(arrivals, before, l);
      KeptNeverAgain(arrivals, before);
      AnnouncedHadArrived(arrivals, before);
      if AnnouncesAgain(before, l) { LostThen(before, l); }
    }
  }

  /** Runs that never lose the mark announce nothing twice. */
  lemma NothingTwice(arrivals: seq<Item>, looks: seq<Look>)
    requires UniqueIds(arrivals) && History(arrivals, looks) && MarkKept(looks)
    ensures var all := AnnouncedBy(arrivals, looks); forall i, j | 0 <= i < j < |all| :: all[i].id != all[j].id
  {
    hide *;
    KeptNeverAgain(arrivals, looks);
    AnnouncedTwiceIff(arrivals, looks);
  }

  // ---- two runs ------------------------------------------------------------

  lemma SmallInboxes()
    ensures Inbox(Look(1, {}, true)) == [0] && Inbox(Look(2, {}, true)) == [1, 0] && Inbox(Look(2, {1}, true)) == [0]
    ensures Inbox(Look(3, {}, true)) == [2, 1, 0] && Inbox(Look(3, {2}, true)) == [1, 0]
  {
    assert Left(1, {}) == [0] + Left(0, {}) && Left(2, {}) == [1] + Left(1, {}) && Left(3, {}) == [2] + Left(2, {});
    assert Left(2, {1}) == [] + Left(1, {1}) && Left(1, {1}) == [0] + Left(0, {1});
    assert Left(3, {2}) == [] + Left(2, {2}) && Left(2, {2}) == [1] + Left(1, {2});
    assert Left(1, {2}) == [0] + Left(0, {2});
  }

  /** The numbers announced by runs of two and of three polls that find messages. */
  lemma TwoPolls(a: Look, b: Look)
    requires a.ok && b.ok && Inbox(a) != [] && Inbox(b) != []
    ensures AllFresh([a]) == [] && LastFound([a]) == Some(a) && LastFound([a, b]) == Some(b)
    ensures AllFresh([a, b]) == Fresh(Some(a), b)
  {
    assert [a][..0] == [] && [a, b][..1] == [a];
    hide Inbox, FirstPage;
    assert AllFresh([a]) == [] + Fresh(None, a);
    assert AllFresh([a, b]) == AllFresh([a]) + Fresh(Some(a), b);
    hide Fresh;
    assert [] + Fresh(Some(a), b) == Fresh(Some(a), b);
  }

  lemma ThreePolls(a: Look, b: Look, c: Look)
    requires a.ok && b.ok && c.ok && Inbox(a) != [] && Inbox(b) != [] && Inbox(c) != []
    ensures AllFresh([a, b, c]) == Fresh(Some(a), b) + Fresh(Some(b), c)
  {
    TwoPolls(a, b);
    assert [a, b, c][..2] == [a, b];
    hide Inbox, FirstPage, Fresh, LastFound;
  }

  /** The newest of two leaves. */
  lemma LostAtOnce(a: Look, b: Look)
    requires b.ok && Inbox(a) == [1, 0] && Inbox(b) == [0] && LastFound([a]) == Some(a)
    ensures Fresh(Some(a), b) == [0] && !MarkKept([a, b])
  {
    var page := FirstPage(b);
    assert page == [0];
    hide Inbox, FirstPage;
    assert MarkOf(a) == 1 && page[0] == 0 && Inbox(a)[1] == 0;
    assert MarkLost(a, b) && [a, b][..1] == [a];
  }

  /**
   * The mark is lost, but nothing is announced twice: two messages are there at the baseline, the newer one leaves, and
   * the older one, never announced, is.
   */
  lemma {:induction false} BaselineIsAnnounced(arrivals: seq<Item>)
    requires UniqueIds(arrivals) && |arrivals| == 2
    ensures var looks := [Look(2, {}, true), Look(2, {1}, true)];
            && History(arrivals, looks) && !MarkKept(looks) && NeverAgain(looks)
            && AnnouncedBy(arrivals, looks) == [arrivals[0]]
  {
    var a, b := Look(2, {}, true), Look(2, {1}, true);
    assert History(arrivals, [a, b]);
    hide *;
    SmallInboxes();
    TwoPolls(a, b);
    LostAtOnce(a, b);
    OneIsDistinct(0);
    NumbersTwiceIff(arrivals, [a, b]);
    AnnouncedNumbers(arrivals, [a, b]);
    AtOne(arrivals, 0);
  }

  lemma OneIsDistinct(k: nat)
    ensures Distinct([k])
  {
  }

  lemma AtOne(arrivals: seq<Item>, k: nat)
    requires k < |arrivals|
    ensures Within([k], |arrivals|) && At(arrivals, [k]) == [arrivals[k]]
  {
  }

  /** What a poll announces after one whose newest message is still on the page, and after one whose newest is not. */
  lemma FreshAbove(a: Look, b: Look)
    requires b.ok && Inbox(a) == [0] && Inbox(b) == [2, 1, 0]
    ensures Fresh(Some(a), b) == [2, 1]
  {
    var page: seq<nat> := [2, 1, 0];
    assert FirstPage(b) == page && page[1..] == [1, 0] && page[1..][1..] == [0];
    assert IndexOf(page, 0) == 1 + IndexOf(page[1..], 0) == 2 + IndexOf(page[1..][1..], 0) == 2;
    hide Inbox, FirstPage, IndexOf;
  }

  lemma FreshAll(b: Look, c: Look)
    requires c.ok && Inbox(b) == [2, 1, 0] && Inbox(c) == [1, 0]
    ensures Fresh(Some(b), c) == [1, 0]
  {
    assert FirstPage(c) == [1, 0];
    assert IndexOf(FirstPage(c), 2) == 2;
    hide Inbox, FirstPage, IndexOf;
  }

  lemma {:induction false} NumbersAgain()
    ensures AllFresh([Look(1, {}, true), Look(3, {}, true), Look(3, {2}, true)]) == [2, 1, 1, 0]
  {
    hide *;
    var a, b, c := Look(1, {}, true), Look(3, {}, true), Look(3, {2}, true);
    SmallInboxes();
    FreshAbove(a, b);
    FreshAll(b, c);
    ThreePolls(a, b, c);
  }

  /** The mark is lost and the message before it is announced a second time. */
  lemma {:induction false} AnnouncedAgain(arrivals: seq<Item>)
    requires UniqueIds(arrivals) && |arrivals| == 3
    ensures var looks := [Look(1, {}, true), Look(3, {}, true), Look(3, {2}, true)];
            && History(arrivals, looks) && !NeverAgain(looks)
            && AnnouncedBy(arrivals, looks) == [arrivals[2], arrivals[1], arrivals[1], arrivals[0]]
  {
    var looks := [Look(1, {}, true), Look(3, {}, true), Look(3, {2}, true)];
    assert History(arrivals, looks);
    hide *;
    NumbersAgain();
    NumbersTwiceIff(arrivals, looks);
    AnnouncedNumbers(arrivals, looks);
    AtFour(arrivals);
  }

  lemma AtFour(arrivals: seq<Item>)
    requires |arrivals| == 3
    ensures var n: seq<nat> := [2, 1, 1, 0];
            && Within(n, 3) && !Distinct(n) && At(arrivals, n) == [arrivals[2], arrivals[1], arrivals[1], arrivals[0]]
  {
    var n: seq<nat> := [2, 1, 1, 0];
    assert n[1] == n[2];
  }
}
