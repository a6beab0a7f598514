/** Whatever `sync_account` does, finished or not, is a run of the steps of CalendarSync.dfy. */
module CalendarPasses {
  import opened Text
  import opened CalendarStore
  import opened CalendarSync

  // ---- pulling -------------------------------------------------------------

  /** How a pull ends: with the last page and its token, with a 410, or with an error. */
  datatype Ending = Whole(next: Option<nat>) | AtGone | AtError

  /** The entries of all pages up to the end, and the end. */
  function Listing(responses: seq<Response>, next: Option<nat>): (seq<Item>, Ending) {
    if responses == [] then ([], AtError)
    else
      match responses[0]
      case Gone => ([], AtGone)
      case Failed => ([], AtError)
      case Body(items, token, more) =>
        var latest := if token.Some? then token else next;
        if !more then (items, Whole(latest))
        else
          var (rest, ending) := Listing(responses[1..], latest);
          (items + rest, ending)
  }

  function PullResult(applied: Db, ending: Ending): (Db, Pulled) {
    match ending
    case Whole(next) => (applied, Listed(next))
    case AtGone => (applied.(token := None), Listed(None))
    case AtError => (applied, Broken)
  }

  lemma {:induction false} ApplyAllAppend(db: Db, a: seq<Item>, b: seq<Item>)
    ensures ApplyAll(db, a + b) == ApplyAll(ApplyAll(db, a), b)
  {
    hide Upsert;
    if b == [] {
      assert a + b == a;
    } else {
      assert (a + b)[..|a + b| - 1] == a + b[..|b| - 1];
      ApplyAllAppend(db, a, b[..|b| - 1]);
    }
  }

  /** Pages do not matter: a pull applies all entries up to its end in order. */
  lemma {:induction false} PullIs(db: Db, responses: seq<Response>, next: Option<nat>)
    ensures var (items, ending) := Listing(responses, next);
            Pull(db, responses, next) == PullResult(ApplyAll(db, items), ending)
    decreases |responses|
  {
    assert ApplyAll(db, []) == db;
    hide ApplyAll;
    if responses != [] && responses[0].Body? && responses[0].more {
      var first := responses[0];
      var latest := if first.nextSyncToken.Some? then first.nextSyncToken else next;
      PullIs(ApplyAll(db, first.items), responses[1..], latest);
      ApplyAllAppend(db, first.items, Listing(responses[1..], latest).0);
    }
  }

  lemma {:induction false} RunAppend(s: System, a: seq<Action>, b: seq<Action>)
    ensures Run(s, a + b) == Run(Run(s, a), b)
    decreases |a|
  {
    hide Step;
    if a == [] {
      assert a + b == b;
    } else {
      assert (a + b)[1..] == a[1..] + b;
      RunAppend(Step(s, a[0]), a[1..], b);
    }
  }

  lemma RunOne(s: System, a: Action)
    ensures Run(s, [a]) == Step(s, a)
  {
    hide Step;
    assert [a][1..] == [];
  }

  /** Google's answer to this pass: reported ids, in the version of the moment the pass started. */
  predicate Lists(s: System, items: seq<Item>) {
    forall i | 0 <= i < |items| ::
      CanApply(s, items[i].id) && Latest(s.history[..s.pass.snapshot], items[i].id) == Some(items[i])
  }

  function Ids(items: seq<Item>): set<string> {
    set i | 0 <= i < |items| :: items[i].id
  }

  function Applies(items: seq<Item>): seq<Action> {
    if items == [] then [] else Applies(items[..|items| - 1]) + [Apply(items[|items| - 1].id)]
  }

  lemma {:induction false} PullRefines(s: System, items: seq<Item>)
    requires s.pass.Pulling? && Lists(s, items)
    ensures var t := Run(s, Applies(items));
            && t.db == ApplyAll(s.db, items) && t.history == s.history
            && t.pass == s.pass.(applied := s.pass.applied + Ids(items))
  {
    if items == [] {
      assert s.pass.applied + Ids(items) == s.pass.applied;
    } else {
      var n := |items| - 1;
      var last := items[n];
      PullRefines(s, items[..n]);
      assert Ids(items) == Ids(items[..n]) + {last.id};
      hide Upsert, Latest, Ids;
      var t := Run(s, Applies(items[..n]));
      RunAppend(s, Applies(items[..n]), [Apply(last.id)]);
      RunOne(t, Apply(last.id));
    }
  }

  // ---- pushing -------------------------------------------------------------

  /** What a post made at Google, answered or not. */
  function Made(a: Posted): Option<string> {
    match a
    case Created(id) => Some(id)
    case NotCreated => None
    case Lost(behind) => behind
  }

  /** Google makes events under new ids, and only with a start. */
  predicate Plausible(h: History, rows: seq<Row>, answers: seq<Posted>) {
    && (forall i | 0 <= i < |rows| && i < |answers| && Made(answers[i]).Some? ::
          Made(answers[i]).value != "" && Made(answers[i]).value !in ChangedIds(h, 0) && rows[i].fields.start != "")
    && (forall i, j | 0 <= i < j < |answers| && Made(answers[i]).Some? && Made(answers[j]).Some? ::
          Made(answers[i]) != Made(answers[j]))
  }

  /** The rows still to be posted in this pass, all of them. */
  predicate ToPost(s: System, rows: seq<Row>) {
    && s.pass.Pushing?
    && (forall l | l in s.pass.rows :: exists i | 0 <= i < |rows| :: rows[i].id == l)
    && (forall i | 0 <= i < |rows| ::
          rows[i].id in s.pass.rows && s.pass.rows[rows[i].id] == rows[i].fields && rows[i].id in s.db.events)
    && (forall i, j | 0 <= i < j < |rows| :: rows[i].id != rows[j].id)
  }

  /** The steps of a push: to the commit, or to the post that nobody answers. */
  function PushSteps(rows: seq<Row>, answers: seq<Posted>): seq<Action> {
    if rows == [] then [CommitToken]
    else if answers == [] then [Cut]
    else
      match answers[0]
      case Created(g) => [PushEvent(rows[0].id, g)] + PushSteps(rows[1..], answers[1..])
      case NotCreated => [PushRefused(rows[0].id)] + PushSteps(rows[1..], answers[1..])
      case Lost(behind) => [if behind.Some? then PushUnrecorded(rows[0].id, behind.value) else Cut]
  }

  lemma FreshIdFits(s: System, l: nat, g: string)
    requires Orderly(s) && CanPush(s, l, g) && l in s.db.events
    ensures LinkFits(s.db, l, g)
  {
    forall a | a in s.db.links ensures s.db.links[a] != g {
      assert s.db.links[a] in ChangedIds(s.history, 0);
    }
    hide ChangedIds;
    assert forall a :: !LinkedTo(s.db, a, g);
  }

  lemma FirstIsPushed(s: System, rows: seq<Row>, answers: seq<Posted>)
    requires ToPost(s, rows) && Plausible(s.history, rows, answers)
    requires rows != [] && answers != [] && Made(answers[0]).Some?
    ensures CanPush(s, rows[0].id, Made(answers[0]).value) && rows[0].id in s.db.events
  {
  }

  lemma OneLessToPost(s: System, t: System, rows: seq<Row>)
    requires ToPost(s, rows) && rows != [] && t.pass.Pushing? && t.pass.rows == s.pass.rows - {rows[0].id}
    requires t.db.events == s.db.events
    ensures ToPost(t, rows[1..])
  {
    forall l | l in t.pass.rows ensures exists i | 0 <= i < |rows[1..]| :: rows[1..][i].id == l {
      var i :| 0 <= i < |rows| && rows[i].id == l;
      assert rows[1..][i - 1].id == l;
    }
  }

  lemma RestToPost(s: System, rows: seq<Row>, answers: seq<Posted>)
    requires ToPost(s, rows) && Plausible(s.history, rows, answers) && rows != [] && answers != []
    ensures Plausible(s.history, rows[1..], answers[1..])
    ensures var t := Step(s, PushRefused(rows[0].id));
            ToPost(t, rows[1..]) && t.db == s.db && t.history == s.history && t.pass.next == s.pass.next
    ensures answers[0].Created? ==>
              var t := Step(s, PushEvent(rows[0].id, answers[0].id));
              && ToPost(t, rows[1..]) && Plausible(t.history, rows[1..], answers[1..])
              && t.db == SetLink(s.db, rows[0].id, answers[0].id) && t.pass.next == s.pass.next
  {
    assert s.pass.Pushing?;
    var u := Step(s, PushRefused(rows[0].id));
    OneLessToPost(s, u, rows);
    hide ChangedIds, ToPost;
    assert Plausible(s.history, rows[1..], answers[1..]);
    if answers[0].Created? { CreatedFirst(s, rows, answers); }
  }

  lemma CreatedFirst(s: System, rows: seq<Row>, answers: seq<Posted>)
    requires ToPost(s, rows) && Plausible(s.history, rows, answers) && rows != [] && answers != []
    requires Plausible(s.history, rows[1..], answers[1..]) && answers[0].Created?
    ensures var t := Step(s, PushEvent(rows[0].id, answers[0].id));
            && ToPost(t, rows[1..]) && Plausible(t.history, rows[1..], answers[1..])
            && t.db == SetLink(s.db, rows[0].id, answers[0].id) && t.pass.next == s.pass.next
  {
    FirstIsPushed(s, rows, answers);
    FirstRow(s, rows);
    var item := Posting(rows[0].fields, answers[0].id);
    HistoryGrows(s.history, item);
    var t := Step(s, PushEvent(rows[0].id, answers[0].id));
    assert t.history == s.history + [item] && t.pass.Pushing? && t.pass.next == s.pass.next;
    assert t.db == SetLink(s.db, rows[0].id, answers[0].id) && t.pass.rows == s.pass.rows - {rows[0].id};
    hide Step, CanPush, ChangedIds, ToPost;
    OneLessToPost(s, t, rows);
  }

  lemma FirstRow(s: System, rows: seq<Row>)
    requires ToPost(s, rows) && rows != []
    ensures s.pass.Pushing? && rows[0].id in s.pass.rows && s.pass.rows[rows[0].id] == rows[0].fields
  {
  }

  lemma {:induction false} PushRefines(s: System, rows: seq<Row>, answers: seq<Posted>)
    requires Orderly(s) && ToPost(s, rows) && Plausible(s.history, rows, answers)
    ensures var t := Run(s, PushSteps(rows, answers));
            var p := Push(s.db, rows, answers);
            t.db == (if p.ok then MarkSynced(p.db, s.pass.next) else p.db) && t.pass.Idle?
    decreases |rows|
  {
    hide Orderly, ToPost, Plausible, LinkFits, MarkSynced;
    assert ToPost(s, rows) ==> s.pass.Pushing? by { PushingNow(s, rows); }
    if rows == [] {
      NoRowsLeft(s);
      RunOne(s, CommitToken);
    } else if answers == [] {
      RunOne(s, Cut);
    } else if answers[0].Lost? {
      if answers[0].behind.Some? {
        FirstIsPushed(s, rows, answers);
        RunOne(s, PushUnrecorded(rows[0].id, answers[0].behind.value));
      } else {
        RunOne(s, Cut);
      }
    } else {
      RestToPost(s, rows, answers);
      if answers[0].Created? {
        var a := PushEvent(rows[0].id, answers[0].id);
        FirstIsPushed(s, rows, answers);
        FreshIdFits(s, rows[0].id, answers[0].id);
        OrderlyStep(s, a);
        hide Step, CanPush;
        PushRefines(Step(s, a), rows[1..], answers[1..]);
        RunAppend(s, [a], PushSteps(rows[1..], answers[1..]));
        RunOne(s, a);
      } else {
        var a := PushRefused(rows[0].id);
        OrderlyStep(s, a);
        hide Step, CanPush;
        PushRefines(Step(s, a), rows[1..], answers[1..]);
        RunAppend(s, [a], PushSteps(rows[1..], answers[1..]));
        RunOne(s, a);
      }
    }
  }

  lemma NoRowsLeft(s: System)
    requires ToPost(s, [])
    ensures s.pass.Pushing? && s.pass.rows == map[]
  {
  }

  lemma PushingNow(s: System, rows: seq<Row>)
    requires ToPost(s, rows)
    ensures s.pass.Pushing?
  {
  }

  // ---- the whole pass ------------------------------------------------------

  /** The steps of one pass. */
  function PassSteps(listed: set<string>, items: seq<Item>, ending: Ending, rows: seq<Row>, answers: seq<Posted>)
    : seq<Action>
  {
    [StartPass(listed)] + (Applies(items) +
      match ending
      case AtError => [Cut]
      case AtGone => [TokenGone] + PushSteps(rows, answers)
      case Whole(next) => [AllApplied(next.Some?)] + PushSteps(rows, answers))
  }

  /** What Google answers to a listing that starts now. */
  ghost predicate Truthful(s: System, listed: set<string>, items: seq<Item>, ending: Ending)
    requires s.pass.Idle?
  {
    var started := Step(s, StartPass(listed));
    && Lists(started, items)
    && (ending.Whole? ==> ending.next == None || ending.next == Some(|s.history|))
    && (ending.Whole? ==> started.pass.Pulling? && started.pass.reported <= Ids(items))
  }

  lemma SelectedAreToPost(s: System, rows: seq<Row>)
    requires s.pass.Pushing? && s.pass.rows == Rows(s.db) && Selects(s.db, rows)
    ensures ToPost(s, rows)
  {
  }

  /** From the end of the pull on. */
  lemma TailRefines(s: System, a: Action, rows: seq<Row>, answers: seq<Posted>)
    requires Orderly(s) && OfPass(a)
    requires var t := Step(s, a);
             && t.pass.Pushing? && t.pass.rows == Rows(t.db) && t.history == s.history
             && Selects(t.db, rows) && Plausible(s.history, rows, answers)
    ensures var t := Step(s, a);
            var p := Push(t.db, rows, answers);
            var u := Run(s, [a] + PushSteps(rows, answers));
            u.db == (if p.ok then MarkSynced(p.db, t.pass.next) else p.db) && u.pass.Idle?
  {
    hide *;
    OrderlyStep(s, a);
    SelectedAreToPost(Step(s, a), rows);
    PushRefines(Step(s, a), rows, answers);
    RunAppend(s, [a], PushSteps(rows, answers));
    RunOne(s, a);
  }

  lemma PassBegins(s: System, listed: set<string>)
    requires s.pass.Idle?
    ensures var t := Step(s, StartPass(listed));
            && t.pass.Pulling? && t.pass.snapshot == |s.history| && t.pass.applied == {}
            && t.db == s.db && t.history == s.history
  {
  }

  lemma PullEnds(s: System, next: Option<nat>)
    requires s.pass.Pulling? && s.pass.reported <= s.pass.applied && s.pass.snapshot == |s.history|
    requires next == None || next == Some(|s.history|)
    ensures var t := Step(s, AllApplied(next.Some?));
            && t.pass.Pushing? && t.pass.next == next && t.db == s.db && t.history == s.history
            && t.pass.rows == Rows(t.db)
  {
    hide Missed;
  }

  lemma PullGone(s: System)
    requires s.pass.Pulling?
    ensures var t := Step(s, TokenGone);
            && t.pass.Pushing? && t.pass.next == None && t.db == s.db.(token := None) && t.history == s.history
            && t.pass.rows == Rows(t.db)
  {
    assert forall l :: Unlinked(s.db.(token := None), l) == Unlinked(s.db, l);
  }

  /** Up to the end of the pull. */
  lemma PullPart(s: System, listed: set<string>, items: seq<Item>, tail: seq<Action>) returns (s2: System)
    requires Orderly(s) && s.pass.Idle? && Lists(Step(s, StartPass(listed)), items)
    ensures Run(s, [StartPass(listed)] + (Applies(items) + tail)) == Run(s2, tail)
    ensures Orderly(s2) && s2.db == ApplyAll(s.db, items) && s2.history == s.history
    ensures Step(s, StartPass(listed)).pass.Pulling?
    ensures s2.pass == Step(s, StartPass(listed)).pass.(applied := Ids(items)) && s2.pass.snapshot == |s.history|
  {
    hide *;
    var s1 := Step(s, StartPass(listed));
    PassBegins(s, listed);
    OrderlyStep(s, StartPass(listed));
    PullRefines(s1, items);
    OrderlyRun(s1, Applies(items));
    s2 := Run(s1, Applies(items));
    RunAppend(s, [StartPass(listed)], Applies(items) + tail);
    RunOne(s, StartPass(listed));
    RunAppend(s1, Applies(items), tail);
    assert {} + Ids(items) == Ids(items);
  }

  lemma BrokenPull(s: System, listed: set<string>, items: seq<Item>, answers: seq<Posted>)
    requires Orderly(s) && s.pass.Idle? && Lists(Step(s, StartPass(listed)), items)
    ensures var t := Run(s, PassSteps(listed, items, AtError, [], answers));
            t.db == ApplyAll(s.db, items) && t.pass.Idle?
  {
    hide Run, Step, Orderly, Lists, ApplyAll, Applies;
    var s2 := PullPart(s, listed, items, [Cut]);
    RunOne(s2, Cut);
    CutOnly(s2);
  }

  lemma CutOnly(s: System)
    ensures Step(s, Cut).db == s.db && Step(s, Cut).pass.Idle?
  {
  }

  /** A pull that got to its end, and the push after it. */
  lemma FinishedPull(s: System, listed: set<string>, items: seq<Item>, ending: Ending,
                     rows: seq<Row>, answers: seq<Posted>)
    requires Orderly(s) && s.pass.Idle? && !ending.AtError? && Truthful(s, listed, items, ending)
    requires var (pulled, result) := PullResult(ApplyAll(s.db, items), ending);
             Selects(pulled, rows) && Plausible(s.history, rows, answers)
    ensures var (pulled, result) := PullResult(ApplyAll(s.db, items), ending);
            var p := Push(pulled, rows, answers);
            var t := Run(s, PassSteps(listed, items, ending, rows, answers));
            result.Listed? && t.db == (if p.ok then MarkSynced(p.db, result.next) else p.db) && t.pass.Idle?
  {
    hide Run, Step, Orderly, Lists, ApplyAll, Applies, PushSteps, Push, Selects, Plausible, MarkSynced, Rows;
    var a := if ending.AtGone? then TokenGone else AllApplied(ending.next.Some?);
    var s2 := PullPart(s, listed, items, [a] + PushSteps(rows, answers));
    if ending.AtGone? { PullGone(s2); } else { PullEnds(s2, ending.next); }
    TailRefines(s2, a, rows, answers);
  }

  /**
   * Whatever a pass does to the tables, however its pull and its push end, a run of the steps does; so what the runs
   * keep, every pass keeps. Google is asked to list truthfully and to make events under new ids.
   */
  lemma SyncRefines(s: System, listed: set<string>, responses: seq<Response>, answers: seq<Posted>, after: Db, ok: bool)
    requires Orderly(s) && s.pass.Idle?
    requires var (items, ending) := Listing(responses, None); Truthful(s, listed, items, ending)
    requires forall rows | Selects(Pull(s.db, responses, None).0, rows) :: Plausible(s.history, rows, answers)
    requires Synced(s.db, responses, answers, after, ok)
    ensures var (items, ending) := Listing(responses, None);
            exists rows ::
              var t := Run(s, PassSteps(listed, items, ending, rows, answers)); t.db == after && t.pass.Idle?
  {
    var (items, ending) := Listing(responses, None);
    PullIs(s.db, responses, None);
    var (pulled, result) := Pull(s.db, responses, None);
    var rows: seq<Row> := [];
    if ending.AtError? {
      BrokenPull(s, listed, items, answers);
    } else {
      rows :| Selects(pulled, rows) && PushedTo(pulled, rows, answers, result.next, after, ok);
      FinishedPull(s, listed, items, ending, rows, answers);
    }
    hide Listing, Pull, Truthful, Selects, Plausible, Push, Orderly, ApplyAll, Run, PassSteps;
    assert Run(s, PassSteps(listed, items, ending, rows, answers)).db == after;
  }
}
