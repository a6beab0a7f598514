/** What requests are answered in every run of SendProtocol.dfy: retries, other messages under a key, new keys. */
module SendLaws {
  import opened Text
  import opened SendProtocol

  /** Request `n` arrives and is answered at once: nothing is stored, started or sent because of it. */
  predicate OnlyAnswered(s: System, t: System, n: nat, answer: Answer) {
    && n in t.answers && t.answers[n] == answer
    && t.table == s.table && t.tasks == s.tasks && t.outbox == s.outbox && t.client == s.client
  }

  /** Request `n` arrives and starts a task; it has no answer yet. */
  predicate OnlyStarted(s: System, t: System, n: nat) {
    && n in t.tasks && t.tasks[n] == Started && t.tasks - {n} == s.tasks - {n}
    && t.answers == s.answers && t.outbox == s.outbox && t.client == s.client
  }

  /** `n` has not arrived and carries this key. */
  predicate Coming(s: System, n: nat, key: nat) {
    n < |s.posts| && n !in s.arrived && s.posts[n].key == key
  }

  /** The attempt of this key, with no task under it. */
  predicate AtRest(s: System, key: nat, attempt: Attempt)
    requires Numbered(s)
  {
    && key in s.table && s.table[key] == attempt
    && forall m | m in s.tasks :: s.posts[m].key != key
  }

  /** What an arrival meets. */
  lemma Meets(s: System, n: nat, late: bool, key: nat)
    requires Coming(s, n, key)
    ensures var t := Step(s, Arrives(n, late));
            if key !in s.table then OnlyStarted(s, t, n)
            else
              var a := s.table[key];
              if a.content != s.posts[n].submission.content then OnlyAnswered(s, t, n, Failure(Conflict))
              else
                match a.status
                case Sent => OnlyAnswered(s, t, n, Success)
                case Failed => OnlyStarted(s, t, n)
                case Pending => OnlyAnswered(s, t, n, Failure(if late then OutcomeUnknown else InProgress))
  {
  }

  lemma PostsStay(s: System, e: Event)
    ensures s.posts <= Step(s, e).posts
  {
    OutboxGrows(s, e);
  }

  lemma {:induction false} PostsStayRun(s: System, events: seq<Event>)
    ensures s.posts <= Run(s, events).posts
    decreases |events|
  {
    hide Step;
    if events != [] {
      PostsStay(s, events[0]);
      PostsStayRun(Step(s, events[0]), events[1..]);
    }
  }

  /** An attempt at rest stays as it is, a failed one until a request under its key arrives. */
  lemma RestStays(s: System, e: Event, key: nat, a: Attempt)
    requires Inv(s) && Numbered(s) && AtRest(s, key, a)
    requires a.status == Failed && e.Arrives? && e.n < |s.posts| ==> s.posts[e.n].key != key
    ensures Numbered(Step(s, e)) && AtRest(Step(s, e), key, a)
  {
    NumberedStep(s, e);
    PostsStay(s, e);
    hide Inv;
    if e.Arrives? && e.n < |s.posts| && e.n !in s.arrived {
      Meets(s, e.n, e.late, s.posts[e.n].key);
    }
  }

  lemma {:induction false} RestStaysRun(s: System, events: seq<Event>, key: nat, a: Attempt)
    requires Inv(s) && Numbered(s) && AtRest(s, key, a)
    requires a.status == Failed ==> NoneArrives(Run(s, events), events, key)
    ensures var t := Run(s, events); Inv(t) && Numbered(t) && AtRest(t, key, a) && s.posts <= t.posts
    decreases |events|
  {
    if events != [] {
      var t := Step(s, events[0]);
      PostsStay(s, events[0]);
      PostsStayRun(t, events[1..]);
      assert a.status == Failed && events[0].Arrives? && events[0].n < |s.posts| ==> s.posts[events[0].n].key != key;
      InvStep(s, events[0]);
      hide Inv, AtRest, Step, Numbered;
      RestStays(s, events[0], key, a);
      assert a.status == Failed ==> NoneArrives(Run(t, events[1..]), events[1..], key) by {
        assert forall e | e in events[1..] :: e in events;
      }
      RestStaysRun(t, events[1..], key, a);
    }
  }

  /** None of these events brings a request under this key. */
  predicate NoneArrives(end: System, events: seq<Event>, key: nat) {
    forall e | e in events :: e.Arrives? && e.n < |end.posts| ==> end.posts[e.n].key != key
  }

  /** How a task that ends leaves its attempt. */
  lemma TaskEnds(s: System, m: nat, e: Event)
    requires Inv(s) && m in s.tasks
    requires || (e.Finish? && e.n == m && e.ok == (s.tasks[m] == Dispatched)) || (e.TaskDies? && e.n == m)
    ensures var t := Step(s, e);
            && m < |s.posts| && Inv(t) && Numbered(t) && t.posts == s.posts
            && AtRest(t, s.posts[m].key,
                      Attempt(s.posts[m].submission.content,
                              if e.TaskDies? || !e.recorded then Pending else if e.ok then Sent else Failed))
  {
    InvStep(s, e);
    InvParts(s);
    NumberedStep(s, e);
    hide Inv, LeftOnce, SuccessIsTrue, CancelHolds, KeysSettled, OneOnWire;
    assert KeyOf(s, m) in s.table && s.table[KeyOf(s, m)] == Attempt(ContentOf(s, m), Pending);
  }

  /**
   * A task sends its message once, and when it ends its request is answered: with success exactly if the message has
   * left by it, with a failure if it was not sent or the task died.
   */
  lemma TaskAnswers(s: System, m: nat, recorded: bool)
    requires Inv(s) && m in s.tasks
    ensures s.tasks[m] == Started ==>
              var t := Step(s, Dispatch(m)); t.outbox == s.outbox + [m] && m in t.tasks && t.tasks[m] == Dispatched
    ensures s.tasks[m] == Dispatched ==> Step(s, Dispatch(m)) == s && m in s.outbox
    ensures var t := Step(s, Finish(m, s.tasks[m] == Dispatched, recorded));
            && m !in t.tasks && t.outbox == s.outbox && m in t.answers
            && t.answers[m] == if m in s.outbox then Success else Failure(OtherFailure)
    ensures var t := Step(s, TaskDies(m, true));
            m !in t.tasks && t.outbox == s.outbox && m in t.answers && t.answers[m] == Failure(OtherFailure)
  {
    InvParts(s);
    hide Inv, SuccessIsTrue, CancelHolds, KeysSettled, OneOnWire;
    assert KeyOf(s, m) in s.table;
    if m in s.outbox {
      var i :| 0 <= i < |s.outbox| && s.outbox[i] == m;
    }
  }

  /**
   * Once a message has left and its task recorded that, every later request under its key, in whatever run, is
   * answered with success if it is the same message and with a conflict if it is another, and nothing more leaves.
   */
  lemma RetryIsReplayed(before: seq<Event>, m: nat, after: seq<Event>, n: nat, late: bool)
    requires var s := Run(INITIAL, before); m in s.tasks && s.tasks[m] == Dispatched && m < |s.posts|
    requires var s := Run(INITIAL, before);
             Coming(Run(Step(s, Finish(m, true, true)), after), n, s.posts[m].key)
    ensures var s := Run(INITIAL, before);
            var t := Run(Step(s, Finish(m, true, true)), after);
            OnlyAnswered(t, Step(t, Arrives(n, late)), n,
                         if t.posts[n].submission.content == s.posts[m].submission.content then Success
                         else Failure(Conflict))
  {
    var s := Run(INITIAL, before);
    Reachable(before);
    var e := Finish(m, true, true);
    TaskEnds(s, m, e);
    hide *;
    var a := Attempt(s.posts[m].submission.content, Sent);
    RestStaysRun(Step(s, e), after, s.posts[m].key, a);
    AnsweredFrom(Run(Step(s, e), after), n, late, s.posts[m].key, a);
  }

  lemma AnsweredFrom(t: System, n: nat, late: bool, key: nat, a: Attempt)
    requires Numbered(t) && AtRest(t, key, a) && Coming(t, n, key)
    ensures var u := Step(t, Arrives(n, late));
            if a.content != t.posts[n].submission.content then OnlyAnswered(t, u, n, Failure(Conflict))
            else
              match a.status
              case Sent => OnlyAnswered(t, u, n, Success)
              case Failed => OnlyStarted(t, u, n)
              case Pending => OnlyAnswered(t, u, n, Failure(if late then OutcomeUnknown else InProgress))
  {
    Meets(t, n, late, key);
    hide Step, OnlyAnswered, OnlyStarted;
  }

  /** A recorded failure lets the next request under its key start a task, if it is the same message. */
  lemma FailureIsRetried(before: seq<Event>, m: nat, after: seq<Event>, n: nat, late: bool)
    requires var s := Run(INITIAL, before); m in s.tasks && s.tasks[m] == Started && m < |s.posts|
    requires var s := Run(INITIAL, before);
             var t := Run(Step(s, Finish(m, false, true)), after);
             Coming(t, n, s.posts[m].key) && NoneArrives(t, after, s.posts[m].key)
    ensures var s := Run(INITIAL, before);
            var t := Run(Step(s, Finish(m, false, true)), after);
            var u := Step(t, Arrives(n, late));
            if t.posts[n].submission.content == s.posts[m].submission.content then OnlyStarted(t, u, n)
            else OnlyAnswered(t, u, n, Failure(Conflict))
  {
    var s := Run(INITIAL, before);
    Reachable(before);
    var e := Finish(m, false, true);
    TaskEnds(s, m, e);
    hide *;
    var a := Attempt(s.posts[m].submission.content, Failed);
    RestStaysRun(Step(s, e), after, s.posts[m].key, a);
    AnsweredFrom(Run(Step(s, e), after), n, late, s.posts[m].key, a);
  }

  /**
   * While a task runs, and for ever after it died or failed to record its end, requests for the same message are told
   * that the send is in progress, or that its outcome is unknown once the lease is over.
   */
  lemma PendingIsRefused(before: seq<Event>, m: nat, end: Option<Event>, after: seq<Event>, n: nat, late: bool)
    requires var s := Run(INITIAL, before); m in s.tasks && m < |s.posts|
    requires end.None? ==> after == []
    requires end.Some? ==> var s := Run(INITIAL, before);
                           || end.value == Finish(m, s.tasks[m] == Dispatched, false)
                           || (end.value.TaskDies? && end.value.n == m)
    requires var s := Run(INITIAL, before);
             var t := if end.Some? then Run(Step(s, end.value), after) else s;
             Coming(t, n, s.posts[m].key)
    ensures var s := Run(INITIAL, before);
            var t := if end.Some? then Run(Step(s, end.value), after) else s;
            OnlyAnswered(t, Step(t, Arrives(n, late)), n,
                         if t.posts[n].submission.content != s.posts[m].submission.content then Failure(Conflict)
                         else Failure(if late then OutcomeUnknown else InProgress))
  {
    var s := Run(INITIAL, before);
    Reachable(before);
    var a := Attempt(s.posts[m].submission.content, Pending);
    if end.Some? {
      TaskEnds(s, m, end.value);
      hide *;
      RestStaysRun(Step(s, end.value), after, s.posts[m].key, a);
      AnsweredFrom(Run(Step(s, end.value), after), n, late, s.posts[m].key, a);
    } else {
      TaskHolds(s, m);
      hide *;
      Meets(s, n, late, s.posts[m].key);
    }
  }

  lemma TaskHolds(s: System, m: nat)
    requires Inv(s) && m in s.tasks && m < |s.posts|
    ensures s.posts[m].key in s.table && s.table[s.posts[m].key] == Attempt(s.posts[m].submission.content, Pending)
  {
    InvParts(s);
    hide Inv, LeftOnce, SuccessIsTrue, CancelHolds, KeysSettled, OneOnWire;
    assert KeyOf(s, m) in s.table;
  }

  // ---- new keys ------------------------------------------------------------

  /** Only keys under which a request arrived are in the table. */
  predicate KnownKeys(s: System) {
    forall k | k in s.table :: exists n | 0 <= n < |s.posts| :: n in s.arrived && s.posts[n].key == k
  }

  /** What one event adds to the table and to the arrived requests. */
  lemma KeysGrow(s: System, e: Event)
    ensures var t := Step(s, e);
            && s.arrived <= t.arrived
            && forall k | k in t.table ::
                 k in s.table || (e.Arrives? && e.n < |s.posts| && e.n in t.arrived && k == s.posts[e.n].key)
  {
    hide Fire, Settle, DecideExisting;
  }

  lemma KnownKeysStep(s: System, e: Event)
    requires KnownKeys(s)
    ensures KnownKeys(Step(s, e))
  {
    var t := Step(s, e);
    PostsStay(s, e);
    KeysGrow(s, e);
    hide Step;
    forall k | k in t.table ensures exists n | 0 <= n < |t.posts| :: n in t.arrived && t.posts[n].key == k {
      if k in s.table {
        var n :| 0 <= n < |s.posts| && n in s.arrived && s.posts[n].key == k;
        assert t.posts[n] == s.posts[n];
      } else {
        assert t.posts[e.n] == s.posts[e.n];
      }
    }
  }

  lemma {:induction false} KnownKeysRun(s: System, events: seq<Event>)
    requires KnownKeys(s)
    ensures KnownKeys(Run(s, events))
    decreases |events|
  {
    hide KnownKeys, Step;
    if events != [] {
      KnownKeysStep(s, events[0]);
      KnownKeysRun(Step(s, events[0]), events[1..]);
    }
  }

  /** The first request to arrive under a key starts a task. */
  lemma FirstStarts(events: seq<Event>, n: nat, late: bool, key: nat)
    requires var s := Run(INITIAL, events);
             Coming(s, n, key) && forall m | 0 <= m < |s.posts| && m in s.arrived :: s.posts[m].key != key
    ensures var s := Run(INITIAL, events); OnlyStarted(s, Step(s, Arrives(n, late)), n)
  {
    KnownKeysRun(INITIAL, events);
    hide Run, OnlyStarted, OnlyAnswered;
    Meets(Run(INITIAL, events), n, late, key);
  }

  // ---- the page ------------------------------------------------------------

  /**
   * What an answer does to the page: it may send again, under the same key if the send is in progress or no answer
   * came at all, under a new one after anything else.
   */
  lemma AnswerFreesPage(s: System, n: nat)
    requires Inv(s) && n in s.open
    ensures var t := Step(s, AnswerLost(n));
            !t.client.inFlight && t.client.pending.None? && t.client.sendKey == Some(s.posts[|s.posts| - 1].key)
            && t.open == {}
    ensures n in s.answers ==>
              var t := Step(s, AnswerComes(n));
              && !t.client.inFlight && t.client.pending.None? && t.open == {}
              && t.client.sendKey == (if s.answers[n] == Failure(InProgress) then Some(s.posts[|s.posts| - 1].key)
                                      else None)
  {
    InvParts(s);
    hide Inv, TasksClaimed, LeftOnce, SuccessIsTrue, CancelHolds, KeysSettled;
    assert n == |s.posts| - 1;
  }

  /** Undo takes the pending message back; if it was not posted yet it counts as cancelled. */
  lemma UndoTakesBack(s: System)
    ensures var t := Step(s, Undo);
            && t.client.pending.None? && t.posts == s.posts && t.client.sendKey == s.client.sendKey
            && (s.client.pending.Some? && !WasPosted(s, s.client.pending.value.id) ==>
                  s.client.pending.value.id in t.cancelled)
            && Step(t, TimerFires).posts == s.posts
  {
  }

  /** What the page posts next: the message just submitted, under the key kept or else one never used. */
  lemma NextPost(s: System, content: string)
    requires Inv(s) && !s.client.inFlight
    ensures var t := Step(Step(s, Submit(content)), TimerFires);
            && |t.posts| == |s.posts| + 1 && t.posts[..|s.posts|] == s.posts
            && t.posts[|s.posts|].submission.content == content && |s.posts| in t.open && t.client.inFlight
            && (if s.client.sendKey.Some? then t.posts[|s.posts|].key == s.client.sendKey.value
                else forall i | 0 <= i < |s.posts| :: s.posts[i].key != t.posts[|s.posts|].key)
  {
    InvParts(s);
    hide Inv, TasksClaimed, LeftOnce, SuccessIsTrue, CancelHolds, OneOnWire;
  }

  /**
   * One run: the first answer is lost while the message leaves and that is recorded; the retry gets success, and the
   * message has left once.
   */
  lemma LostAnswerRetried(content: string)
    ensures exists s :: Reaches(s) && |s.posts| == 2 && s.outbox == [0] && 1 in s.answers && s.answers[1] == Success
                        && s.client == Client(None, false, None) && s.settled == [0] && s.refused == {}
  {
    var s4 := FirstDispatched(content);
    hide Run, Reaches;
    ReachesStep(s4, AnswerLost(0));
    var s5 := Step(s4, AnswerLost(0));
    assert s5.open == {} && s5.client == Client(Some(0), false, None);
    ReachesStep(s5, Finish(0, true, true));
    var s6 := Step(s5, Finish(0, true, true));
    assert s6.table == map[0 := Attempt(content, Sent)] && s6.tasks == map[] && s6.outbox == [0];
    ReachesStep(s6, Submit(content));
    var s7 := Step(s6, Submit(content));
    ReachesStep(s7, TimerFires);
    var s8 := Step(s7, TimerFires);
    assert |s8.posts| == 2 && s8.posts[1] == Request(0, Submission(1, content)) && s8.open == {1};
    Replayed(s8, content);
  }

  lemma Replayed(s8: System, content: string)
    requires Reaches(s8) && s8.client.sendKey == Some(0) && s8.client.inFlight && |s8.posts| == 2
    requires s8.posts[1] == Request(0, Submission(1, content)) && s8.open == {1} && 1 !in s8.arrived
    requires s8.table == map[0 := Attempt(content, Sent)] && s8.outbox == [0] && s8.settled == [] && s8.refused == {}
    ensures exists s :: Reaches(s) && |s.posts| == 2 && s.outbox == [0] && 1 in s.answers && s.answers[1] == Success
                        && s.client == Client(None, false, None) && s.settled == [0] && s.refused == {}
  {
    hide Run, Reaches;
    ReachesStep(s8, Arrives(1, false));
    var s9 := Step(s8, Arrives(1, false));
    assert s9.answers[1] == Success && s9.outbox == [0];
    ReachesStep(s9, AnswerComes(1));
    var s10 := Step(s9, AnswerComes(1));
    assert s10.settled == [0] && s10.client == Client(None, false, None);
  }
}
