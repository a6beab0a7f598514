/**
 * Sending one message at most once: the refs of web/components/ComposeModal.tsx (`sendKey`, `inFlight`,
 * `pendingPayload`) against the idempotency table of crates/aivory-mail-api/src/mail/send_guard.rs.
 */
module SendProtocol {
  import opened Text

  // ---- the page ------------------------------------------------------------

  /** What the user asked to send; the number only tells submissions apart. */
  datatype Submission = Submission(id: nat, content: string)

  datatype Request = Request(key: nat, submission: Submission)

  datatype Code = Conflict | InProgress | OutcomeUnknown | OtherFailure

  datatype Answer = Success | Failure(code: Code)

  datatype Client = Client(sendKey: Option<nat>, inFlight: bool, pending: Option<Submission>)

  /** `actuallySend` up to its `await`; `newKey` is what `newSendKey` would return. */
  function Fire(c: Client, newKey: nat): (Client, Option<Request>) {
    if c.inFlight || c.pending.None? then (c, None)
    else
      var key := if c.sendKey.Some? then c.sendKey.value else newKey;
      (Client(Some(key), true, c.pending), Some(Request(key, c.pending.value)))
  }

  /** The server has said how this key ended. */
  predicate Definitive(a: Answer) {
    a != Failure(InProgress)
  }

  /** `actuallySend` after its `await`; None is a network error or a timeout. */
  function Settle(c: Client, answer: Option<Answer>): Client {
    Client(if answer.Some? && Definitive(answer.value) then None else c.sendKey, false, None)
  }

  class Compose {
    var sendKey: Option<nat>
    var inFlight: bool
    var pendingPayload: Option<Submission>

    function State(): Client
      reads this
    {
      Client(sendKey, inFlight, pendingPayload)
    }

    constructor ()
      ensures State() == Client(None, false, None)
    {
      sendKey, inFlight, pendingPayload := None, false, None;
    }

    /** `send` and `scheduleAt`, once the form is valid; the countdown is the caller's. */
    method Submit(payload: Submission)
      modifies this
      ensures State() == old(State()).(pending := Some(payload))
    {
      pendingPayload := Some(payload);
    }

    method CancelPending()
      modifies this
      ensures State() == old(State()).(pending := None)
    {
      pendingPayload := None;
    }

    method ActuallySend(newKey: nat) returns (post: Option<Request>)
      modifies this
      ensures (State(), post) == Fire(old(State()), newKey)
    {
      if inFlight || pendingPayload.None? {
        return None;
      }
      inFlight := true;
      if sendKey.None? {
        sendKey := Some(newKey);
      }
      post := Some(Request(sendKey.value, pendingPayload.value));
    }

    method Settled(answer: Option<Answer>)
      modifies this
      ensures State() == Settle(old(State()), answer)
    {
      if answer.Some? {
        if answer.value.Failure? {
          if answer.value.code != InProgress {
            sendKey := None;
          }
        } else {
          sendKey := None;
        }
      }
      inFlight := false;
      pendingPayload := None;
    }
  }

  // ---- the idempotency table -----------------------------------------------

  datatype Status = Pending | Sent | Failed

  datatype Attempt = Attempt(content: string, status: Status)

  datatype Claim = Claimed | Replay | Refused(code: Code)

  /** `decide_existing`; `late` is whether the attempt is older than the lease. None: take the failed one over. */
  function DecideExisting(a: Attempt, content: string, late: bool): Option<Claim> {
    if a.content != content then Some(Refused(Conflict))
    else
      match a.status
      case Sent => Some(Replay)
      case Failed => None
      case Pending => Some(Refused(if late then OutcomeUnknown else InProgress))
  }

  function ClaimOn(table: map<nat, Attempt>, key: nat, content: string, late: bool): (map<nat, Attempt>, Claim) {
    if key !in table then (table[key := Attempt(content, Pending)], Claimed)
    else
      var decision := DecideExisting(table[key], content, late);
      if decision.Some? then (table, decision.value)
      else (table[key := table[key].(status := Pending)], Claimed)
  }

  class SendGuard {
    var attempts: map<nat, Attempt>

    constructor ()
      ensures attempts == map[]
    {
      attempts := map[];
    }

    method ClaimSend(key: nat, content: string, late: bool) returns (claim: Claim)
      modifies this
      ensures (attempts, claim) == ClaimOn(old(attempts), key, content, late)
    {
      if key !in attempts {
        attempts := attempts[key := Attempt(content, Pending)];
        return Claimed;
      }
      var decision := DecideExisting(attempts[key], content, late);
      if decision.Some? {
        return decision.value;
      }
      // the conditional UPDATE that lets one retry take a failed attempt over
      if attempts[key].status == Failed {
        attempts := attempts[key := attempts[key].(status := Pending)];
        return Claimed;
      }
      return Refused(InProgress);
    }

    method FinishSend(key: nat, ok: bool)
      modifies this
      ensures attempts == if key in old(attempts)
                          then old(attempts)[key := old(attempts)[key].(status := if ok then Sent else Failed)]
                          else old(attempts)
    {
      if key in attempts {
        attempts := attempts[key := attempts[key].(status := if ok then Sent else Failed)];
      }
    }
  }

  // ---- page, network and server together -----------------------------------

  datatype Stage = Started | Dispatched

  /**
   * `posts` numbers every request ever posted; `open` are those the page still waits for. A request may arrive
   * long after the page gave up on it, or never. `tasks` are the detached dispatches, by request. `settled` are the
   * keys that a definitive answer ended, `refused` those among them that a failure ended.
   */
  datatype System = System(
    client: Client, minted: nat, submissions: nat, cancelled: set<nat>,
    posts: seq<Request>, open: set<nat>, arrived: set<nat>, answers: map<nat, Answer>,
    table: map<nat, Attempt>, tasks: map<nat, Stage>, outbox: seq<nat>,
    settled: seq<nat>, refused: set<nat>)

  datatype Event =
    | Submit(content: string)
    | TimerFires                        // any number of times
    | Undo
    | AnswerComes(n: nat)
    | AnswerLost(n: nat)                // network error or timeout
    | Arrives(n: nat, late: bool)
    | Turned(n: nat)                    // refused before the claim: validation, sender, database
    | Dispatch(n: nat)                  // the message leaves
    | Finish(n: nat, ok: bool, recorded: bool)
    | TaskDies(n: nat, answered: bool)  // panic or restart: nothing recorded

  const INITIAL := System(Client(None, false, None), 0, 0, {}, [], {}, {}, map[], map[], map[], [], [], {})

  predicate WasPosted(s: System, id: nat) {
    exists i | 0 <= i < |s.posts| :: s.posts[i].submission.id == id
  }

  function Post(s: System): System {
    var (c, post) := Fire(s.client, s.minted);
    if post.None? then s.(client := c)
    else
      s.(client := c, minted := if post.value.key == s.minted then s.minted + 1 else s.minted,
         posts := s.posts + [post.value], open := s.open + {|s.posts|})
  }

  function Arrive(s: System, n: nat, late: bool): System
    requires n < |s.posts|
  {
    var r := s.posts[n];
    var (table, claim) := ClaimOn(s.table, r.key, r.submission.content, late);
    var s1 := s.(arrived := s.arrived + {n}, table := table);
    match claim
    case Claimed => s1.(tasks := s.tasks[n := Started])
    case Replay => s1.(answers := s.answers[n := Success])
    case Refused(code) => s1.(answers := s.answers[n := Failure(code)])
  }

  function Finished(s: System, n: nat, ok: bool, recorded: bool): System
    requires n < |s.posts| && s.posts[n].key in s.table
  {
    var key := s.posts[n].key;
    s.(tasks := s.tasks - {n},
       table := if recorded then s.table[key := s.table[key].(status := if ok then Sent else Failed)] else s.table,
       answers := s.answers[n := if ok then Success else Failure(OtherFailure)])
  }

  /** One event; an event that cannot happen now changes nothing. */
  function Step(s: System, e: Event): System {
    match e
    case Submit(content) =>
      s.(client := s.client.(pending := Some(Submission(s.submissions, content))), submissions := s.submissions + 1)
    case TimerFires => Post(s)
    case Undo =>
      s.(client := s.client.(pending := None),
         cancelled := if s.client.pending.Some? && !WasPosted(s, s.client.pending.value.id)
                      then s.cancelled + {s.client.pending.value.id} else s.cancelled)
    case AnswerComes(n) =>
      if n !in s.open || n !in s.answers || n >= |s.posts| then s
      else
        s.(client := Settle(s.client, Some(s.answers[n])), open := s.open - {n},
           settled := if Definitive(s.answers[n]) then s.settled + [s.posts[n].key] else s.settled,
           refused := if Definitive(s.answers[n]) && s.answers[n] != Success then s.refused + {s.posts[n].key}
                      else s.refused)
    case AnswerLost(n) =>
      if n !in s.open then s else s.(client := Settle(s.client, None), open := s.open - {n})
    case Arrives(n, late) =>
      if n >= |s.posts| || n in s.arrived then s else Arrive(s, n, late)
    case Turned(n) =>
      if n >= |s.posts| || n in s.arrived then s
      else s.(arrived := s.arrived + {n}, answers := s.answers[n := Failure(OtherFailure)])
    case Dispatch(n) =>
      if n !in s.tasks || s.tasks[n] != Started then s
      else s.(tasks := s.tasks[n := Dispatched], outbox := s.outbox + [n])
    case Finish(n, ok, recorded) =>
      if n !in s.tasks || n >= |s.posts| || s.posts[n].key !in s.table || ok != (s.tasks[n] == Dispatched) then s
      else Finished(s, n, ok, recorded)
    case TaskDies(n, answered) =>
      if n !in s.tasks then s
      else s.(tasks := s.tasks - {n}, answers := if answered then s.answers[n := Failure(OtherFailure)] else s.answers)
  }

  function Run(s: System, events: seq<Event>): System
    decreases |events|
  {
    if events == [] then s else Run(Step(s, events[0]), events[1..])
  }

  // ---- what every run keeps ------------------------------------------------

  /** At most one request is on the wire, and it is the one the page waits for. */
  predicate OneOnWire(s: System) {
    && (if s.client.inFlight then s.posts != [] && s.open == {|s.posts| - 1} else s.open == {})
    && (s.client.inFlight ==> s.client.sendKey == Some(s.posts[|s.posts| - 1].key))
  }

  /** Keys are numbered as they are minted: all but the current one were answered definitively, in order. */
  predicate KeysSettled(s: System) {
    && s.minted == |s.settled| + (if s.client.sendKey.Some? then 1 else 0)
    && (s.client.sendKey.Some? ==> s.client.sendKey.value == |s.settled|)
    && (forall i | 0 <= i < |s.settled| :: s.settled[i] == i)
    && (forall i | 0 <= i < |s.posts| :: s.posts[i].key < s.minted)
  }

  /** No cancelled submission has been posted, and none is about to be. */
  predicate CancelHolds(s: System) {
    && (s.client.pending.Some? ==> s.client.pending.value.id < s.submissions)
    && (s.client.pending.Some? ==> s.client.pending.value.id !in s.cancelled)
    && (s.client.pending.Some? && !s.client.inFlight ==>
          forall i | 0 <= i < |s.posts| :: s.posts[i].submission.id != s.client.pending.value.id)
    && (forall i | 0 <= i < |s.posts| :: s.posts[i].submission.id < s.submissions)
    && (forall i | 0 <= i < |s.posts| :: s.posts[i].submission.id !in s.cancelled)
    && (forall id | id in s.cancelled :: id < s.submissions)
  }

  predicate Numbered(s: System) {
    && (forall n | n in s.arrived :: n < |s.posts|)
    && (forall n | n in s.tasks :: n in s.arrived)
    && (forall n | n in s.answers :: n in s.arrived)
    && (forall i | 0 <= i < |s.outbox| :: s.outbox[i] in s.arrived)
  }

  function KeyOf(s: System, n: nat): nat
    requires n < |s.posts|
  {
    s.posts[n].key
  }

  function ContentOf(s: System, n: nat): string
    requires n < |s.posts|
  {
    s.posts[n].submission.content
  }

  /** One dispatch per key at a time, and only while its attempt is pending. */
  predicate TasksClaimed(s: System)
    requires Numbered(s)
  {
    && (forall n | n in s.tasks :: KeyOf(s, n) in s.table && s.table[KeyOf(s, n)] == Attempt(ContentOf(s, n), Pending))
    && (forall n, m | n in s.tasks && m in s.tasks && KeyOf(s, n) == KeyOf(s, m) :: n == m)
  }

  /** Each key has left at most once, and what left is what its attempt says. */
  predicate LeftByKey(s: System)
    requires Numbered(s)
  {
    && (forall i, j | 0 <= i < j < |s.outbox| :: KeyOf(s, s.outbox[i]) != KeyOf(s, s.outbox[j]))
    && (forall i | 0 <= i < |s.outbox| ::
          KeyOf(s, s.outbox[i]) in s.table
          && s.table[KeyOf(s, s.outbox[i])].content == ContentOf(s, s.outbox[i])
          && s.table[KeyOf(s, s.outbox[i])].status != Failed)
  }

  /** A task whose key has left is the one that sent it, and has dispatched. */
  predicate LeftByTask(s: System)
    requires Numbered(s)
  {
    && (forall i, m | 0 <= i < |s.outbox| && m in s.tasks && KeyOf(s, m) == KeyOf(s, s.outbox[i]) ::
          s.outbox[i] == m && s.tasks[m] == Dispatched)
    && (forall m | m in s.tasks && s.tasks[m] == Dispatched :: m in s.outbox)
  }

  predicate LeftOnce(s: System)
    requires Numbered(s)
  {
    LeftByKey(s) && LeftByTask(s)
  }

  /** The message with this key and content has left. */
  predicate HasLeft(s: System, key: nat, content: string)
    requires Numbered(s)
  {
    exists i | 0 <= i < |s.outbox| :: KeyOf(s, s.outbox[i]) == key && ContentOf(s, s.outbox[i]) == content
  }

  /** "sent" in the table and success in an answer are true. */
  predicate SuccessIsTrue(s: System)
    requires Numbered(s)
  {
    && (forall k | k in s.table && s.table[k].status == Sent :: HasLeft(s, k, s.table[k].content))
    && (forall n | n in s.answers && s.answers[n] == Success :: HasLeft(s, KeyOf(s, n), ContentOf(s, n)))
  }

  predicate Inv(s: System) {
    && OneOnWire(s) && KeysSettled(s) && CancelHolds(s)
    && Numbered(s) && TasksClaimed(s) && LeftOnce(s) && SuccessIsTrue(s)
  }

  lemma WireStep(s: System, e: Event)
    requires OneOnWire(s) && Numbered(s)
    ensures OneOnWire(Step(s, e))
  {
    hide ClaimOn;
  }

  lemma KeysStep(s: System, e: Event)
    requires OneOnWire(s) && KeysSettled(s)
    ensures KeysSettled(Step(s, e))
  {
    hide ClaimOn;
  }

  lemma CancelStep(s: System, e: Event)
    requires OneOnWire(s) && CancelHolds(s)
    ensures CancelHolds(Step(s, e))
  {
    hide ClaimOn, Definitive;
  }

  lemma ClientStep(s: System, e: Event)
    requires Inv(s)
    ensures var t := Step(s, e); OneOnWire(t) && KeysSettled(t) && CancelHolds(t)
  {
    hide *;
    assert OneOnWire(s) && KeysSettled(s) && CancelHolds(s) && Numbered(s) by { InvParts(s); }
    WireStep(s, e);
    KeysStep(s, e);
    CancelStep(s, e);
  }

  lemma InvParts(s: System)
    requires Inv(s)
    ensures OneOnWire(s) && KeysSettled(s) && CancelHolds(s)
    ensures Numbered(s) && TasksClaimed(s) && LeftOnce(s) && SuccessIsTrue(s)
  {
    hide OneOnWire, KeysSettled, CancelHolds, TasksClaimed, LeftOnce, SuccessIsTrue;
  }

  lemma NumberedStep(s: System, e: Event)
    requires Inv(s)
    ensures Numbered(Step(s, e))
  {
    hide ClaimOn, TasksClaimed, LeftOnce, SuccessIsTrue, CancelHolds, KeysSettled;
  }

  /** Requests keep their numbers. */
  lemma PostsGrow(s: System, e: Event)
    ensures s.posts <= Step(s, e).posts
  {
    hide ClaimOn;
  }

  /** The page's own steps leave the server alone. */
  predicate OnPage(e: Event) {
    e.Submit? || e.TimerFires? || e.Undo? || e.AnswerComes? || e.AnswerLost?
  }

  /** What has left stays left. */
  lemma LeftGrows(s: System, t: System)
    requires Numbered(s) && Numbered(t) && s.posts <= t.posts && s.outbox <= t.outbox
    ensures forall k, c | HasLeft(s, k, c) :: HasLeft(t, k, c)
  {
    forall k, c | HasLeft(s, k, c) ensures HasLeft(t, k, c) {
      var i :| 0 <= i < |s.outbox| && KeyOf(s, s.outbox[i]) == k && ContentOf(s, s.outbox[i]) == c;
      assert KeyOf(t, t.outbox[i]) == k && ContentOf(t, t.outbox[i]) == c;
    }
  }

  /** The page's steps, seen from the server: at most one more post. */
  lemma ServerUntouched(s: System, t: System)
    requires Numbered(s) && TasksClaimed(s) && LeftOnce(s) && SuccessIsTrue(s) && Numbered(t) && s.posts <= t.posts
    requires t.table == s.table && t.tasks == s.tasks && t.outbox == s.outbox && t.answers == s.answers
    ensures TasksClaimed(t) && LeftOnce(t) && SuccessIsTrue(t)
  {
    hide *;
    SameNumbers(s, t);
    SameTasks(s, t);
    SameOutbox(s, t);
    SameAnswers(s, t);
  }

  lemma SameNumbers(s: System, t: System)
    requires s.posts <= t.posts
    ensures forall n: nat | n < |s.posts| :: KeyOf(t, n) == KeyOf(s, n) && ContentOf(t, n) == ContentOf(s, n)
  {
  }

  lemma SameTasks(s: System, t: System)
    requires Numbered(s) && Numbered(t) && TasksClaimed(s) && s.posts <= t.posts
    requires t.table == s.table && t.tasks == s.tasks
    ensures TasksClaimed(t)
  {
    SameNumbers(s, t);
    hide KeyOf, ContentOf;
  }

  lemma SameOutbox(s: System, t: System)
    requires Numbered(s) && Numbered(t) && LeftOnce(s) && s.posts <= t.posts
    requires t.table == s.table && t.tasks == s.tasks && t.outbox == s.outbox
    ensures LeftOnce(t)
  {
    SameNumbers(s, t);
    hide KeyOf, ContentOf;
  }

  lemma SameAnswers(s: System, t: System)
    requires Numbered(s) && Numbered(t) && SuccessIsTrue(s) && s.posts <= t.posts
    requires t.table == s.table && s.outbox <= t.outbox && t.answers == s.answers
    ensures SuccessIsTrue(t)
  {
    SameNumbers(s, t);
    LeftGrows(s, t);
    hide KeyOf, ContentOf, HasLeft;
  }

  lemma PageStep(s: System, e: Event)
    requires Inv(s) && OnPage(e)
    ensures var t := Step(s, e); Numbered(t) && TasksClaimed(t) && LeftOnce(t) && SuccessIsTrue(t)
  {
    hide *;
    InvParts(s);
    NumberedStep(s, e);
    PostsGrow(s, e);
    OnPageOnly(s, e);
    ServerUntouched(s, Step(s, e));
  }

  lemma OnPageOnly(s: System, e: Event)
    requires OnPage(e)
    ensures var t := Step(s, e);
            t.table == s.table && t.tasks == s.tasks && t.outbox == s.outbox && t.answers == s.answers
  {
    hide Settle, Definitive;
  }

  /** Only the attempt of `key` may change, and it only becomes (or stays) pending. */
  predicate Reopened(s: System, t: System, key: nat) {
    && (forall k | k in s.table :: k in t.table && t.table[k].content == s.table[k].content)
    && (forall k | k in t.table && k != key :: k in s.table && t.table[k] == s.table[k])
    && (key in s.table && s.table[key].status != Failed ==> t.table[key] == s.table[key])
    && (key in t.table ==> t.table[key].status == Pending || (key in s.table && t.table[key] == s.table[key]))
  }

  lemma ArriveTable(s: System, n: nat, late: bool)
    requires n < |s.posts|
    ensures var t := Arrive(s, n, late);
            var key := KeyOf(s, n);
            && Reopened(s, t, key) && t.posts == s.posts && t.outbox == s.outbox
            && key in t.table
            && (t.tasks == s.tasks
                || (t.tasks == s.tasks[n := Started] && t.table[key] == Attempt(ContentOf(s, n), Pending)
                    && (key in s.table ==> s.table[key].status == Failed)))
            && (t.answers == s.answers || t.answers == s.answers[n := t.answers[n]])
            && (t.answers != s.answers && t.answers[n] == Success ==>
                  key in s.table && s.table[key] == Attempt(ContentOf(s, n), Sent))
  {
  }

  lemma ArriveStep(s: System, n: nat, late: bool)
    requires Inv(s) && n < |s.posts| && n !in s.arrived
    ensures var t := Arrive(s, n, late); Numbered(t) && TasksClaimed(t) && LeftOnce(t) && SuccessIsTrue(t)
  {
    ArriveTable(s, n, late);
    ArriveNumbered(s, n, late);
    InvParts(s);
    hide *;
    var t := Arrive(s, n, late);
    ArriveTasks(s, t, n);
    ArriveLeft(s, t, n);
    ArriveSuccess(s, t, n);
  }

  lemma ArriveNumbered(s: System, n: nat, late: bool)
    requires Inv(s) && n < |s.posts| && n !in s.arrived
    ensures Numbered(Arrive(s, n, late)) && n !in s.tasks && n !in s.answers
  {
    hide OneOnWire, KeysSettled, CancelHolds, TasksClaimed, LeftOnce, SuccessIsTrue, ClaimOn;
  }

  lemma ArriveTasks(s: System, t: System, n: nat)
    requires Numbered(s) && Numbered(t) && TasksClaimed(s) && t.posts == s.posts && n < |s.posts|
    requires Reopened(s, t, KeyOf(s, n))
    requires t.tasks == s.tasks
      || (t.tasks == s.tasks[n := Started] && KeyOf(s, n) in t.table
          && t.table[KeyOf(s, n)] == Attempt(ContentOf(s, n), Pending)
          && (KeyOf(s, n) in s.table ==> s.table[KeyOf(s, n)].status == Failed))
    ensures TasksClaimed(t)
  {
    assert forall m: nat | m < |s.posts| :: KeyOf(t, m) == KeyOf(s, m) && ContentOf(t, m) == ContentOf(s, m);
    hide KeyOf, ContentOf, Numbered;
  }

  lemma ArriveLeft(s: System, t: System, n: nat)
    requires Numbered(s) && Numbered(t) && LeftOnce(s) && t.posts == s.posts && t.outbox == s.outbox && n < |s.posts|
    requires Reopened(s, t, KeyOf(s, n))
    requires t.tasks == s.tasks
      || (t.tasks == s.tasks[n := Started] && n !in s.tasks
          && (KeyOf(s, n) in s.table ==> s.table[KeyOf(s, n)].status == Failed))
    ensures LeftOnce(t)
  {
    assert forall m: nat | m < |s.posts| :: KeyOf(t, m) == KeyOf(s, m) && ContentOf(t, m) == ContentOf(s, m);
    hide KeyOf, ContentOf, Numbered;
  }

  lemma ArriveSuccess(s: System, t: System, n: nat)
    requires Numbered(s) && Numbered(t) && SuccessIsTrue(s) && n < |s.posts|
    requires t.posts == s.posts && t.outbox == s.outbox
    requires Reopened(s, t, KeyOf(s, n))
    requires t.answers == s.answers || (n in t.answers && t.answers == s.answers[n := t.answers[n]])
    requires t.answers != s.answers && t.answers[n] == Success ==>
               KeyOf(s, n) in s.table && s.table[KeyOf(s, n)] == Attempt(ContentOf(s, n), Sent)
    ensures SuccessIsTrue(t)
  {
    assert forall m: nat | m < |s.posts| :: KeyOf(t, m) == KeyOf(s, m) && ContentOf(t, m) == ContentOf(s, m);
    LeftGrows(s, t);
    hide KeyOf, ContentOf, Numbered, HasLeft;
  }

  lemma DispatchStep(s: System, n: nat)
    requires Inv(s) && n in s.tasks && s.tasks[n] == Started
    ensures var t := Step(s, Dispatch(n)); Numbered(t) && TasksClaimed(t) && LeftOnce(t) && SuccessIsTrue(t)
  {
    InvParts(s);
    NumberedStep(s, Dispatch(n));
    var t := Step(s, Dispatch(n));
    assert t == s.(tasks := s.tasks[n := Dispatched], outbox := s.outbox + [n]);
    hide *;
    DispatchLeft(s, t, n);
    DispatchTasks(s, t, n);
    SameAnswers(s, t);
  }

  lemma DispatchTasks(s: System, t: System, n: nat)
    requires Numbered(s) && Numbered(t) && TasksClaimed(s) && n in s.tasks
    requires t.posts == s.posts && t.table == s.table && t.tasks == s.tasks[n := Dispatched]
    ensures TasksClaimed(t)
  {
    assert forall m: nat | m < |s.posts| :: KeyOf(t, m) == KeyOf(s, m) && ContentOf(t, m) == ContentOf(s, m);
    hide KeyOf, ContentOf, Numbered;
  }

  /** Nothing has left under the key of a task that has not dispatched. */
  lemma NothingLeftYet(s: System, n: nat)
    requires Numbered(s) && LeftOnce(s) && n in s.tasks && s.tasks[n] == Started
    ensures forall i | 0 <= i < |s.outbox| :: KeyOf(s, s.outbox[i]) != KeyOf(s, n)
  {
    hide KeyOf, ContentOf;
  }

  lemma DispatchLeft(s: System, t: System, n: nat)
    requires Numbered(s) && Numbered(t) && TasksClaimed(s) && LeftOnce(s) && n in s.tasks && s.tasks[n] == Started
    requires t.posts == s.posts && t.table == s.table
    requires t.tasks == s.tasks[n := Dispatched] && t.outbox == s.outbox + [n]
    ensures LeftOnce(t)
  {
    NothingLeftYet(s, n);
    SameNumbers(s, t);
    assert KeyOf(s, n) in s.table && s.table[KeyOf(s, n)] == Attempt(ContentOf(s, n), Pending);
    assert forall i | 0 <= i < |t.outbox| :: t.outbox[i] == if i < |s.outbox| then s.outbox[i] else n;
    hide KeyOf, ContentOf, Numbered, TasksClaimed;
    assert LeftByKey(t) by { hide LeftByTask; }
    assert t.outbox[|s.outbox|] == n;
    hide LeftByKey;
    forall i, m | 0 <= i < |t.outbox| && m in t.tasks && KeyOf(t, m) == KeyOf(t, t.outbox[i])
      ensures t.outbox[i] == m && t.tasks[m] == Dispatched
    {
      assert m in s.tasks;
      SameTask(s, m, n);
    }
  }

  lemma SameTask(s: System, m: nat, n: nat)
    requires Numbered(s) && TasksClaimed(s) && m in s.tasks && n in s.tasks
    ensures KeyOf(s, m) == KeyOf(s, n) ==> m == n
  {
  }

  lemma FinishStep(s: System, n: nat, ok: bool, recorded: bool)
    requires Inv(s) && n in s.tasks && ok == (s.tasks[n] == Dispatched)
    ensures var t := Finished(s, n, ok, recorded);
            Numbered(t) && TasksClaimed(t) && LeftOnce(t) && SuccessIsTrue(t)
  {
    var t := Finished(s, n, ok, recorded);
    var key := KeyOf(s, n);
    hide OneOnWire, KeysSettled, CancelHolds;
    if ok { TaskHasLeft(s, n); }
    assert Numbered(t);
    Concluded(s, t, n, key);
    FinishSuccess(s, t, n, key);
  }

  lemma TaskHasLeft(s: System, n: nat)
    requires Numbered(s) && LeftOnce(s) && n in s.tasks && s.tasks[n] == Dispatched
    ensures HasLeft(s, KeyOf(s, n), ContentOf(s, n))
  {
    var i :| 0 <= i < |s.outbox| && s.outbox[i] == n;
    assert KeyOf(s, s.outbox[i]) == KeyOf(s, n);
  }

  /** A task has ended, and at most its own attempt was closed, as failed only if nothing left. */
  lemma Concluded(s: System, t: System, n: nat, key: nat)
    requires Numbered(s) && Numbered(t) && TasksClaimed(s) && LeftOnce(s) && n in s.tasks && key == KeyOf(s, n)
    requires t.posts == s.posts && t.outbox == s.outbox && t.tasks == s.tasks - {n}
    requires t.table.Keys == s.table.Keys && (forall k | k in s.table && k != key :: t.table[k] == s.table[k])
    requires key in t.table && t.table[key].content == s.table[key].content
    requires s.tasks[n] == Dispatched ==> t.table[key].status != Failed
    ensures TasksClaimed(t) && LeftOnce(t)
  {
    assert forall m: nat | m < |s.posts| :: KeyOf(t, m) == KeyOf(s, m) && ContentOf(t, m) == ContentOf(s, m);
    hide KeyOf, ContentOf, Numbered;
  }

  lemma FinishSuccess(s: System, t: System, n: nat, key: nat)
    requires Numbered(s) && Numbered(t) && SuccessIsTrue(s) && n < |s.posts| && key == KeyOf(s, n)
    requires t.posts == s.posts && t.outbox == s.outbox
    requires t.table.Keys == s.table.Keys && (forall k | k in s.table && k != key :: t.table[k] == s.table[k])
    requires key in t.table && t.table[key].content == s.table[key].content == ContentOf(s, n)
    requires t.table[key] != s.table[key] && t.table[key].status == Sent ==> HasLeft(s, key, ContentOf(s, n))
    requires n in t.answers && t.answers == s.answers[n := t.answers[n]]
    requires t.answers[n] == Success ==> HasLeft(s, key, ContentOf(s, n))
    ensures SuccessIsTrue(t)
  {
    assert forall m: nat | m < |s.posts| :: KeyOf(t, m) == KeyOf(s, m) && ContentOf(t, m) == ContentOf(s, m);
    LeftGrows(s, t);
    hide KeyOf, ContentOf, Numbered, HasLeft;
  }

  /** Refusals before the claim and dying tasks take away tasks and add failures, nothing else. */
  lemma OtherStep(s: System, e: Event)
    requires Inv(s) && (e.Turned? || e.TaskDies?)
    ensures var t := Step(s, e); Numbered(t) && TasksClaimed(t) && LeftOnce(t) && SuccessIsTrue(t)
  {
    hide *;
    InvParts(s);
    NumberedStep(s, e);
    OnlyFailures(s, e);
    FewerTasks(s, Step(s, e));
    NoNewSuccess(s, Step(s, e));
  }

  lemma OnlyFailures(s: System, e: Event)
    requires e.Turned? || e.TaskDies?
    ensures var t := Step(s, e);
            && t.posts == s.posts && t.table == s.table && t.outbox == s.outbox
            && (forall n | n in t.tasks :: n in s.tasks && t.tasks[n] == s.tasks[n])
            && (forall n | n in t.answers && t.answers[n] == Success :: n in s.answers && s.answers[n] == Success)
  {
  }

  lemma FewerTasks(s: System, t: System)
    requires Numbered(s) && Numbered(t) && TasksClaimed(s) && LeftOnce(s)
    requires t.posts == s.posts && t.outbox == s.outbox && t.table == s.table
    requires forall n | n in t.tasks :: n in s.tasks && t.tasks[n] == s.tasks[n]
    ensures TasksClaimed(t) && LeftOnce(t)
  {
    assert forall m: nat | m < |s.posts| :: KeyOf(t, m) == KeyOf(s, m) && ContentOf(t, m) == ContentOf(s, m);
    hide KeyOf, ContentOf, Numbered;
  }

  lemma NoNewSuccess(s: System, t: System)
    requires Numbered(s) && Numbered(t) && SuccessIsTrue(s)
    requires t.posts == s.posts && t.outbox == s.outbox && t.table == s.table
    requires forall n | n in t.answers && t.answers[n] == Success :: n in s.answers && s.answers[n] == Success
    ensures SuccessIsTrue(t)
  {
    assert forall m: nat | m < |s.posts| :: KeyOf(t, m) == KeyOf(s, m) && ContentOf(t, m) == ContentOf(s, m);
    LeftGrows(s, t);
    hide KeyOf, ContentOf, Numbered, HasLeft;
  }

  lemma ServerStep(s: System, e: Event)
    requires Inv(s)
    ensures var t := Step(s, e); Numbered(t) && TasksClaimed(t) && LeftOnce(t) && SuccessIsTrue(t)
  {
    hide TasksClaimed, LeftOnce, SuccessIsTrue, Arrive, Finished, OneOnWire, KeysSettled, CancelHolds;
    match e
    case Arrives(n, late) => if n < |s.posts| && n !in s.arrived { ArriveStep(s, n, late); }
    case Dispatch(n) => if n in s.tasks && s.tasks[n] == Started { DispatchStep(s, n); }
    case Finish(n, ok, recorded) =>
      if n in s.tasks && ok == (s.tasks[n] == Dispatched) { FinishStep(s, n, ok, recorded); }
    case Turned(n) => OtherStep(s, e);
    case TaskDies(n, answered) => OtherStep(s, e);
    case _ => PageStep(s, e);
  }

  lemma InvStep(s: System, e: Event)
    requires Inv(s)
    ensures Inv(Step(s, e))
  {
    ClientStep(s, e);
    ServerStep(s, e);
  }

  lemma {:induction false} InvRun(s: System, events: seq<Event>)
    requires Inv(s)
    ensures Inv(Run(s, events))
    decreases |events|
  {
    hide Inv, Step;
    if events != [] {
      InvStep(s, events[0]);
      InvRun(Step(s, events[0]), events[1..]);
    }
  }

  // ---- the guarantees, for every interleaving ------------------------------

  lemma Reachable(events: seq<Event>)
    ensures Inv(Run(INITIAL, events))
  {
    assert Inv(INITIAL);
    InvRun(INITIAL, events);
  }

  /** Distinct numbers below `bound` are at most `bound` many. */
  lemma {:induction false} Pigeons(keys: seq<nat>, bound: nat)
    requires forall i, j | 0 <= i < j < |keys| :: keys[i] != keys[j]
    requires forall i | 0 <= i < |keys| :: keys[i] < bound
    ensures |keys| <= bound
    decreases bound
  {
    if keys != [] {
      assert keys[0] < bound;
      if k :| 0 <= k < |keys| && keys[k] == bound - 1 {
        Pigeons(keys[..k] + keys[k + 1..], bound - 1);
      } else {
        Pigeons(keys, bound - 1);
      }
    }
  }

  /** At most one request is on the wire, and keys are minted one per definitive answer. */
  lemma OneRequestAtATime(events: seq<Event>)
    ensures var s := Run(INITIAL, events);
            && |s.open| <= 1 && (s.open != {} <==> s.client.inFlight)
            && s.minted <= |s.settled| + 1 && s.settled == seq(|s.settled|, i requires 0 <= i < |s.settled| => i)
  {
    Reachable(events);
    var s := Run(INITIAL, events);
    hide Run, TasksClaimed, LeftOnce, SuccessIsTrue, CancelHolds;
  }

  /** A new key appears only when every earlier one has been answered definitively. */
  lemma NewKeyNeedsAnswer(events: seq<Event>, e: Event)
    ensures var s := Run(INITIAL, events);
            Step(s, e).minted > s.minted ==> s.client.sendKey.None? && |s.settled| == s.minted
  {
    Reachable(events);
    hide Run, TasksClaimed, LeftOnce, SuccessIsTrue, CancelHolds, OneOnWire, ClaimOn;
  }

  /** What the user takes back before it is posted is never posted, hence never leaves. */
  lemma CancelledNeverSent(events: seq<Event>)
    ensures var s := Run(INITIAL, events);
            && (forall i | 0 <= i < |s.posts| :: s.posts[i].submission.id !in s.cancelled)
            && (forall i | 0 <= i < |s.outbox| :: s.outbox[i] < |s.posts|)
  {
    Reachable(events);
    hide Run, TasksClaimed, LeftOnce, SuccessIsTrue, KeysSettled, OneOnWire;
  }

  /** Under one key a message leaves at most once; in all, at most one more time than there were definitive answers. */
  lemma DeliveriesBounded(events: seq<Event>)
    ensures var s := Run(INITIAL, events);
            && |s.outbox| <= |s.settled| + 1
            && Numbered(s) && LeftOnce(s) && SuccessIsTrue(s)
  {
    Reachable(events);
    var s := Run(INITIAL, events);
    hide Run, TasksClaimed, SuccessIsTrue, CancelHolds, OneOnWire;
    var keys := seq(|s.outbox|, i requires 0 <= i < |s.outbox| => KeyOf(s, s.outbox[i]));
    Pigeons(keys, s.minted);
  }

  // ---- when something leaves more often than it is accepted ----------------

  /** A message has left under this key. */
  predicate KeyLeft(s: System, key: nat)
    requires Numbered(s)
  {
    exists i | 0 <= i < |s.outbox| :: KeyOf(s, s.outbox[i]) == key
  }

  /** Keys that ended in success have left. */
  predicate AcceptedLeft(s: System)
    requires Numbered(s)
  {
    && (forall k | k in s.refused :: k < |s.settled|)
    && (forall k: nat | k < |s.settled| && k !in s.refused :: KeyLeft(s, k))
  }

  lemma OutboxGrows(s: System, e: Event)
    ensures s.outbox <= Step(s, e).outbox && s.posts <= Step(s, e).posts
  {
    hide ClaimOn;
  }

  lemma KeyStaysLeft(s: System, e: Event, k: nat)
    requires Numbered(s) && Numbered(Step(s, e)) && KeyLeft(s, k)
    ensures KeyLeft(Step(s, e), k)
  {
    OutboxGrows(s, e);
    hide Step;
    var t := Step(s, e);
    var i :| 0 <= i < |s.outbox| && KeyOf(s, s.outbox[i]) == k;
    assert KeyOf(t, t.outbox[i]) == k;
  }

  lemma OnlyAnswersSettle(s: System, e: Event)
    requires !e.AnswerComes? || Step(s, e).settled == s.settled
    ensures Step(s, e).settled == s.settled && Step(s, e).refused == s.refused
  {
    hide ClaimOn;
  }

  lemma AcceptedStep(s: System, e: Event)
    requires Inv(s) && AcceptedLeft(s)
    ensures Numbered(Step(s, e)) && AcceptedLeft(Step(s, e))
  {
    InvParts(s);
    NumberedStep(s, e);
    hide Step, KeyLeft, Inv, TasksClaimed, LeftOnce, SuccessIsTrue, CancelHolds, Numbered;
    forall k: nat | KeyLeft(s, k) ensures KeyLeft(Step(s, e), k) {
      KeyStaysLeft(s, e, k);
    }
    if e.AnswerComes? && Step(s, e).settled != s.settled {
      SettledKey(s, e.n);
    } else {
      OnlyAnswersSettle(s, e);
    }
  }

  /** A definitive answer ends the next key, and a success says that it has left. */
  lemma SettledKey(s: System, n: nat)
    requires Inv(s) && Step(s, AnswerComes(n)).settled != s.settled
    ensures var t := Step(s, AnswerComes(n));
            && t.settled == s.settled + [|s.settled|]
            && (t.refused == s.refused + {|s.settled|} || (t.refused == s.refused && KeyLeft(s, |s.settled|)))
  {
    hide TasksClaimed, LeftOnce, CancelHolds;
    assert s.posts[n].key == |s.settled|;
    if s.answers[n] == Success {
      assert HasLeft(s, KeyOf(s, n), ContentOf(s, n));
    }
  }

  lemma {:induction false} AcceptedRun(s: System, events: seq<Event>)
    requires Inv(s) && AcceptedLeft(s)
    ensures Inv(Run(s, events)) && AcceptedLeft(Run(s, events))
    decreases |events|
  {
    hide Inv, Step, AcceptedLeft, Numbered;
    if events == [] {
      assert Numbered(s) by { InvParts(s); }
    } else {
      AcceptedStep(s, events[0]);
      InvStep(s, events[0]);
      AcceptedRun(Step(s, events[0]), events[1..]);
    }
  }

  /** The keys under which something has left. */
  function LeftKeys(s: System): set<nat>
    requires Numbered(s)
  {
    set i | 0 <= i < |s.outbox| :: KeyOf(s, s.outbox[i])
  }

  function Below(n: nat): (r: set<nat>)
    ensures |r| == n && forall k: nat :: k in r <==> k < n
  {
    if n == 0 then {} else Below(n - 1) + {n - 1}
  }

  lemma {:induction false} DistinctCount(keys: seq<nat>)
    requires forall i, j | 0 <= i < j < |keys| :: keys[i] != keys[j]
    ensures |set i | 0 <= i < |keys| :: keys[i]| == |keys|
  {
    var all := set i | 0 <= i < |keys| :: keys[i];
    if keys == [] {
      assert all == {};
    } else {
      var last := |keys| - 1;
      DistinctCount(keys[..last]);
      var before := set i | 0 <= i < last :: keys[..last][i];
      assert all == before + {keys[last]};
    }
  }

  /** The open key, if it has left. */
  function OpenLeft(s: System): nat
    requires Numbered(s)
  {
    if s.client.sendKey.Some? && KeyLeft(s, s.client.sendKey.value) then 1 else 0
  }

  lemma LeftKeysCount(s: System)
    requires Inv(s)
    ensures Numbered(s) && |LeftKeys(s)| == |s.outbox|
  {
    InvParts(s);
    var keys := seq(|s.outbox|, i requires 0 <= i < |s.outbox| => KeyOf(s, s.outbox[i]));
    hide Inv, LeftByTask;
    DistinctCount(keys);
    var all := set i | 0 <= i < |keys| :: keys[i];
    forall k: nat ensures k in LeftKeys(s) <==> k in all {
      if k in LeftKeys(s) {
        var i :| 0 <= i < |s.outbox| && KeyOf(s, s.outbox[i]) == k;
        assert keys[i] == k;
      }
      if k in all {
        var i :| 0 <= i < |keys| && keys[i] == k;
        assert KeyOf(s, s.outbox[i]) == k;
      }
    }
    assert LeftKeys(s) == all;
  }

  lemma InLeftKeys(s: System, k: nat)
    requires Numbered(s)
    ensures k in LeftKeys(s) <==> KeyLeft(s, k)
  {
    if KeyLeft(s, k) {
      var i :| 0 <= i < |s.outbox| && KeyOf(s, s.outbox[i]) == k;
      assert KeyOf(s, s.outbox[i]) in LeftKeys(s);
    }
  }

  /** Only minted keys leave. */
  lemma LeftIsMinted(s: System, k: nat)
    requires Inv(s) && Numbered(s) && KeyLeft(s, k)
    ensures k < |s.settled| || s.client.sendKey == Some(k)
  {
    InvParts(s);
    var i :| 0 <= i < |s.outbox| && KeyOf(s, s.outbox[i]) == k;
    assert s.posts[s.outbox[i]].key < s.minted;
  }

  lemma KeyPlace(s: System, k: nat)
    requires Inv(s) && Numbered(s) && AcceptedLeft(s)
    ensures s.client.sendKey.Some? ==> s.client.sendKey.value == |s.settled|
    ensures KeyLeft(s, k) <==>
              (k < |s.settled| && k !in s.refused) || (k in s.refused && KeyLeft(s, k))
              || (OpenLeft(s) == 1 && k == |s.settled|)
  {
    assert KeysSettled(s) by { InvParts(s); }
    hide Inv, KeyLeft, Numbered;
    if KeyLeft(s, k) { LeftIsMinted(s, k); }
  }

  lemma LeftKeysAre(s: System)
    requires Inv(s) && Numbered(s) && AcceptedLeft(s)
    ensures LeftKeys(s) == (Below(|s.settled|) - s.refused) + (s.refused * LeftKeys(s))
                           + (if OpenLeft(s) == 1 then {|s.settled|} else {})
  {
    hide *;
    var open: set<nat> := if OpenLeft(s) == 1 then {|s.settled|} else {};
    forall k: nat
      ensures k in LeftKeys(s) <==> k in (Below(|s.settled|) - s.refused) + (s.refused * LeftKeys(s)) + open
    {
      InLeftKeys(s, k);
      KeyPlace(s, k);
    }
  }

  /**
   * In every run: what has left is one message for each accepted key, one for the open key if it has left, and one for
   * each refused key that left all the same.
   */
  lemma DeliveriesAre(events: seq<Event>)
    ensures var s := Run(INITIAL, events);
            && Numbered(s) && s.refused <= Below(|s.settled|)
            && |s.outbox| == |s.settled| - |s.refused| + |s.refused * LeftKeys(s)| + OpenLeft(s)
  {
    assert Inv(INITIAL) && AcceptedLeft(INITIAL);
    AcceptedRun(INITIAL, events);
    hide *;
    CountLeft(Run(INITIAL, events));
  }

  lemma CountLeft(s: System)
    requires Inv(s) && Numbered(s) && AcceptedLeft(s)
    ensures s.refused <= Below(|s.settled|)
    ensures |s.outbox| == |s.settled| - |s.refused| + |s.refused * LeftKeys(s)| + OpenLeft(s)
  {
    assert s.refused <= Below(|s.settled|);
    hide Inv, Numbered, KeyLeft, LeftKeys;
    LeftKeysCount(s);
    LeftKeysAre(s);
    var n := |s.settled|;
    CountParts(LeftKeys(s), Below(n), s.refused, s.refused * LeftKeys(s), n, OpenLeft(s));
  }

  lemma CountParts(left: set<nat>, below: set<nat>, refused: set<nat>, extra: set<nat>, n: nat, open: nat)
    requires |below| == n && n !in below && refused <= below && extra <= refused && open <= 1
    requires left == (below - refused) + extra + (if open == 1 then {n} else {})
    ensures |left| == n - |refused| + |extra| + open
  {
    assert below * refused == refused && |below - refused| == n - |refused|;
    assert (below - refused) !! extra && |(below - refused) + extra| == |below - refused| + |extra|;
  }

  /** So nothing leaves beyond what is accepted or open if and only if no refused key has left. */
  lemma NoExtraDeliveryIff(events: seq<Event>)
    ensures var s := Run(INITIAL, events);
            && Numbered(s)
            && (|s.outbox| <= |s.settled| - |s.refused| + OpenLeft(s) <==> forall k | k in s.refused :: !KeyLeft(s, k))
  {
    DeliveriesAre(events);
    hide *;
    var s := Run(INITIAL, events);
    var extra := s.refused * LeftKeys(s);
    forall k | k in s.refused ensures k in extra <==> KeyLeft(s, k) {
      InLeftKeys(s, k);
    }
    if extra != {} {
      var k :| k in extra;
      assert |extra| > 0 by { assert |extra - {k}| == |extra| - 1; }
    }
  }

  lemma {:induction false} RunSnoc(s: System, events: seq<Event>, e: Event)
    ensures Run(s, events + [e]) == Step(Run(s, events), e)
    decreases |events|
  {
    hide Step;
    if events == [] {
      assert ([e])[1..] == [] && [] + [e] == [e];
    } else {
      assert (events + [e])[1..] == events[1..] + [e];
      RunSnoc(Step(s, events[0]), events[1..], e);
    }
  }

  /** A run that ends in this state. */
  ghost predicate Reaches(t: System) {
    exists events :: Run(INITIAL, events) == t
  }

  lemma ReachesStep(s: System, e: Event)
    requires Reaches(s)
    ensures Reaches(Step(s, e))
  {
    hide Run, Step;
    var events :| Run(INITIAL, events) == s;
    RunSnoc(INITIAL, events, e);
  }

  lemma StartIsReached()
    ensures Reaches(INITIAL)
  {
    assert Run(INITIAL, []) == INITIAL;
  }

  /** A message has been posted once and has left; its task still runs. */
  lemma FirstDispatched(content: string) returns (s: System)
    ensures Reaches(s) && s.client == Client(Some(0), true, Some(Submission(0, content))) && s.minted == 1
    ensures s.submissions == 1 && s.posts == [Request(0, Submission(0, content))] && s.open == {0} && s.arrived == {0}
    ensures s.answers == map[] && s.table == map[0 := Attempt(content, Pending)] && s.tasks == map[0 := Dispatched]
    ensures s.outbox == [0] && s.settled == [] && s.refused == {}
  {
    hide Run, Reaches;
    StartIsReached();
    ReachesStep(INITIAL, Submit(content));
    var s1 := Step(INITIAL, Submit(content));
    ReachesStep(s1, TimerFires);
    var s2 := Step(s1, TimerFires);
    assert s2.posts == [Request(0, Submission(0, content))] && s2.open == {0};
    ReachesStep(s2, Arrives(0, false));
    var s3 := Step(s2, Arrives(0, false));
    assert s3.tasks == map[0 := Started] && s3.table == map[0 := Attempt(content, Pending)];
    ReachesStep(s3, Dispatch(0));
    s := Step(s3, Dispatch(0));
    assert s.tasks == map[0 := Dispatched] && s.outbox == [0];
  }

  /** One text has left twice, the first time under a key that was then refused. */
  predicate LeftTwice(s: System, content: string) {
    && Numbered(s) && s.settled == [0] && s.refused == {0} && |s.outbox| == 2 && KeyOf(s, s.outbox[0]) == 0
    && ContentOf(s, s.outbox[0]) == ContentOf(s, s.outbox[1]) == content
  }

  /**
   * An instance: the first answer is lost, and the retry gets "send_outcome_unknown", a definitive answer to the page.
   * A third try gets a new key and leaves again, which meets the bound of DeliveriesBounded.
   */
  lemma BoundIsTight(content: string)
    ensures exists s :: Reaches(s) && LeftTwice(s, content)
  {
    var s4 := FirstDispatched(content);
    hide Run, Reaches;
    ReachesStep(s4, AnswerLost(0));
    var s5 := Step(s4, AnswerLost(0));
    assert s5.open == {};
    ReachesStep(s5, Submit(content));
    var s6 := Step(s5, Submit(content));
    ReachesStep(s6, TimerFires);
    var s7 := Step(s6, TimerFires);
    assert |s7.posts| == 2 && s7.posts[1] == Request(0, Submission(1, content)) && s7.open == {1};
    UnknownOutcome(s7, content);
  }

  lemma UnknownOutcome(s7: System, content: string)
    requires Reaches(s7) && s7.client.sendKey == Some(0) && s7.client.inFlight && s7.minted == 1 && |s7.posts| == 2
    requires s7.posts[0].submission.content == content && s7.posts[0].key == s7.posts[1].key == 0
    requires s7.posts[1].submission.content == content && s7.open == {1} && s7.arrived == {0} && s7.answers == map[]
    requires s7.table == map[0 := Attempt(content, Pending)] && s7.tasks == map[0 := Dispatched]
    requires s7.outbox == [0] && s7.settled == [] && s7.refused == {}
    ensures exists s :: Reaches(s) && LeftTwice(s, content)
  {
    hide Run, Reaches;
    ReachesStep(s7, Arrives(1, true));
    var s8 := Step(s7, Arrives(1, true));
    assert s8.answers == map[1 := Failure(OutcomeUnknown)] && s8.tasks == map[0 := Dispatched];
    ReachesStep(s8, AnswerComes(1));
    var s9 := Step(s8, AnswerComes(1));
    assert s9.client.sendKey.None? && s9.settled == [0] && s9.open == {};
    AnotherKey(s9, content);
  }

  /** Another instance, with no answer lost: the task dies behind its dispatch, and the page is told of a failure. */
  lemma DeathLeavesTwice(content: string)
    ensures exists s :: Reaches(s) && LeftTwice(s, content)
  {
    var s4 := FirstDispatched(content);
    hide Run, Reaches;
    ReachesStep(s4, TaskDies(0, true));
    var s5 := Step(s4, TaskDies(0, true));
    assert s5.answers == map[0 := Failure(OtherFailure)] && s5.tasks == map[];
    ReachesStep(s5, AnswerComes(0));
    var s6 := Step(s5, AnswerComes(0));
    assert s6.client.sendKey.None? && s6.settled == [0] && s6.open == {};
    AnotherKey(s6, content);
  }

  lemma AnotherKey(s: System, content: string)
    requires Reaches(s) && s.client == Client(None, false, None) && s.minted == 1 && s.posts != []
    requires s.posts[0].submission.content == content && s.posts[0].key == 0
    requires Numbered(s) && s.outbox == [0] && s.settled == [0] && s.refused == {0} && 1 !in s.table
    ensures exists t :: Reaches(t) && LeftTwice(t, content)
  {
    hide Run, Reaches;
    var n := |s.posts|;
    ReachesStep(s, Submit(content));
    var s1 := Step(s, Submit(content));
    ReachesStep(s1, TimerFires);
    var s2 := Step(s1, TimerFires);
    assert |s2.posts| == n + 1 && s2.posts[n].key == 1 && s2.posts[n].submission.content == content;
    ReachesStep(s2, Arrives(n, false));
    var s3 := Step(s2, Arrives(n, false));
    assert n in s3.tasks && s3.tasks[n] == Started && Numbered(s3);
    ReachesStep(s3, Dispatch(n));
    var s4 := Step(s3, Dispatch(n));
    assert s4.outbox == [0, n] && Numbered(s4) && LeftTwice(s4, content);
  }
}
