/** What every ingress session of Smtp.dfy does, however the peer behaves and however its bytes are split. */
module SmtpLaws {
  import opened Text
  import opened Smtp

  // ---- DATA ----------------------------------------------------------------

  function Bytes(input: seq<Read>): seq<byte> {
    if input == [] then [] else input[0].chunk + Bytes(input[1..])
  }

  predicate NoEndOfStream(input: seq<Read>) {
    forall i | 0 <= i < |input| :: input[i].chunk != []
  }

  /**
   * After a 354, for every split of the bytes into reads: nothing is sent before the first CRLF "." CRLF of their
   * concatenation is complete, and then exactly the bytes in front of it are forwarded, with one reply.
   */
  lemma {:induction false} DataIgnoresChunks(s: Session, input: seq<Read>)
    requires s.mode.Open? && s.dataMode && NoEndOfStream(input) && Find(s.raw, Terminator()) < 0
    ensures var data := s.raw + Bytes(input);
            var pos := Find(data, Terminator());
            var (last, log) := Run(s, input);
            if pos < 0 then last == s.(raw := data) && log == []
            else
              && |log| >= 2 && log[0].Forwarded? && log[0].from == s.from && log[0].rcpt == s.to
              && log[0].message == data[..pos] && log[1] == Wrote(if log[0].stored then Queued else TryAgain)
    decreases |input|
  {
    hide Find, Terminator;
    if input == [] {
      assert s.raw + [] == s.raw;
    } else {
      var raw := s.raw + input[0].chunk;
      assert s.raw + Bytes(input) == raw + Bytes(input[1..]);
      if Find(raw, Terminator()) < 0 {
        DataIgnoresChunks(s.(raw := raw), input[1..]);
      } else {
        FindInPrefix(raw, Bytes(input[1..]), Terminator());
        assert raw[..Find(raw, Terminator())] == (raw + Bytes(input[1..]))[..Find(raw, Terminator())];
      }
    }
  }

  /** Two splits of the same bytes forward the same message. */
  lemma SplitsAgree(s: Session, one: seq<Read>, other: seq<Read>)
    requires s.mode.Open? && s.dataMode && s.raw == [] && Bytes(one) == Bytes(other)
    requires NoEndOfStream(one) && NoEndOfStream(other)
    ensures var (lastOne, logOne) := Run(s, one);
            var (lastOther, logOther) := Run(s, other);
            if Find(Bytes(one), Terminator()) < 0 then lastOne == lastOther && logOne == logOther == []
            else logOne != [] && logOther != [] && logOne[0].Forwarded? && logOther[0].Forwarded?
                 && logOne[0].message == logOther[0].message == Bytes(one)[..Find(Bytes(one), Terminator())]
  {
    hide Find, Run;
    assert s.raw + Bytes(one) == Bytes(one);
    NothingToFind();
    DataIgnoresChunks(s, one);
    DataIgnoresChunks(s, other);
  }

  lemma NothingToFind()
    ensures Find([], Terminator()) < 0
  {
  }

  /**
   * Section 4.1.1.4 of RFC 5321 lets the CRLF that ends the DATA line open the terminator, so the end of data is
   * the first occurrence in CRLF + data. The session sees the same end unless the data begins with "." CRLF.
   */
  lemma EndOfDataIff(data: seq<byte>)
    ensures var rfc := Find([13, 10] + data, Terminator());
            var here := Find(data, Terminator());
            if [46, 13, 10] <= data then rfc == 0 else rfc == if here < 0 then -1 else here + 2
  {
    var line: seq<byte> := [13, 10] + data;
    var t := Terminator();
    forall k: int ensures OccursAt(line, t, k + 2) && k >= 0 <==> OccursAt(data, t, k) {
      if k >= 0 && k + 5 <= |data| {
        assert line[k + 2..k + 2 + 5] == data[k..k + 5];
      }
    }
    assert !OccursAt(line, t, 1) by { assert |line| >= 6 ==> line[1..6][0] == 10; }
    assert OccursAt(line, t, 0) <==> [46, 13, 10] <= data by {
      if |data| >= 3 {
        assert line[0..5] == [13, 10] + data[..3];
        assert line[0..5][2..] == data[..3] && t[2..] == [46, 13, 10];
      }
    }
    assert forall k :: OccursAt(line, t, k) ==> k >= 0;
    hide Find, OccursAt, Terminator;
  }

  // ---- safety over whole runs ----------------------------------------------

  /** What the session has asked, forwarded and acknowledged so far. */
  predicate Safe(s: Session, log: seq<Event>) {
    && (s.dataMode ==> s.to != "")
    && (s.to != "" ==> Asked(s.to, true) in log)
    && (forall i | 0 <= i < |log| && log[i].Forwarded? :: log[i].rcpt != "" && Asked(log[i].rcpt, true) in log[..i])
    && (forall i | 0 <= i < |log| && log[i].Forwarded? ::
          i + 1 < |log| && log[i + 1] == Wrote(if log[i].stored then Queued else TryAgain))
    && (forall i | 0 <= i < |log| && log[i] == Wrote(Queued) :: i > 0 && log[i - 1].Forwarded? && log[i - 1].stored)
    && (forall i | 0 <= i < |log| && log[i].Asked? ::
          i + 1 < |log| && log[i + 1] == Wrote(if log[i].accept then Okay else UserUnknown))
    && log != [] && (s.dataMode <==> log[|log| - 1] == Wrote(StartData))
  }

  /** What a step may add to the log. */
  predicate Fitting(s: Session, s1: Session, events: seq<Event>) {
    && (s1.dataMode ==> s1.to != "")
    && (s1.to != "" ==> s1.to == s.to || Asked(s1.to, true) in events)
    && (forall i | 0 <= i < |events| && events[i].Forwarded? ::
          s.to != "" && events[i].rcpt == s.to && i + 1 < |events|
          && events[i + 1] == Wrote(if events[i].stored then Queued else TryAgain))
    && (forall i | 0 <= i < |events| && events[i] == Wrote(Queued) ::
          i > 0 && events[i - 1].Forwarded? && events[i - 1].stored)
    && (forall i | 0 <= i < |events| && events[i].Asked? ::
          i + 1 < |events| && events[i + 1] == Wrote(if events[i].accept then Okay else UserUnknown))
    && (if events == [] then s1.dataMode == s.dataMode else s1.dataMode <==> events[|events| - 1] == Wrote(StartData))
  }

  lemma DataFits(s: Session, r: Read)
    requires s.dataMode && s.to != ""
    ensures Fitting(s, DataStep(s, r).0, DataStep(s, r).1)
  {
    hide Find, Terminator;
  }

  lemma CommandFits(s: Session, c: Command, accepts: bool)
    requires !s.dataMode
    ensures Fitting(s, CommandStep(s, c, accepts).0, CommandStep(s, c, accepts).1)
  {
    var events := CommandStep(s, c, accepts).1;
    assert |events| == 2 ==> events[0].Asked? && events[0] in events;
  }

  lemma SafeStep(s: Session, r: Read, log: seq<Event>)
    requires Safe(s, log)
    ensures Safe(Step(s, r).0, log + Step(s, r).1)
  {
    assert s.dataMode ==> s.to != "";
    hide Find, Terminator, Parse, Safe, DataStep, CommandStep;
    if s.dataMode { DataFits(s, r); } else { CommandFits(s, Parse(r.line), r.accepts); }
    assert Fitting(s, Step(s, r).0, Step(s, r).1);
    hide *;
    SafeAppend(s, Step(s, r).0, Step(s, r).1, log);
  }

  /** The events of one step keep the log safe. */
  lemma SafeAppend(s: Session, s1: Session, events: seq<Event>, log: seq<Event>)
    requires Safe(s, log) && Fitting(s, s1, events)
    ensures Safe(s1, log + events)
  {
    var all := log + events;
    forall i | 0 <= i < |all| && all[i].Forwarded?
      ensures all[i].rcpt != "" && Asked(all[i].rcpt, true) in all[..i]
    {
      if i < |log| {
        assert all[..i] == log[..i];
      } else {
        assert events[i - |log|].Forwarded?;
        var k :| 0 <= k < |log| && log[k] == Asked(s.to, true);
        assert all[..i][k] == log[k];
      }
    }
    forall i | 0 <= i < |all| && all[i].Forwarded?
      ensures i + 1 < |all| && all[i + 1] == Wrote(if all[i].stored then Queued else TryAgain)
    {
      if i >= |log| {
        assert events[i - |log|].Forwarded?;
      }
    }
    forall i | 0 <= i < |all| && all[i].Asked?
      ensures i + 1 < |all| && all[i + 1] == Wrote(if all[i].accept then Okay else UserUnknown)
    {
      if i >= |log| {
        assert events[i - |log|].Asked?;
      }
    }
    forall i | 0 <= i < |all| && all[i] == Wrote(Queued) ensures i > 0 && all[i - 1].Forwarded? && all[i - 1].stored {
      if i >= |log| {
        assert events[i - |log|] == Wrote(Queued);
      }
    }
  }

  /**
   * In every run: data mode means that 354 was the last thing said and that the recipient is one that the resolver
   * accepted; every forward goes to such a recipient and is answered at once; "250 OK queued" only follows a stored
   * message; the resolver's answer to an RCPT is what the peer is told.
   */
  lemma {:induction false} SafeRun(s: Session, log: seq<Event>, input: seq<Read>)
    requires Safe(s, log)
    ensures Safe(Run(s, input).0, log + Run(s, input).1)
    decreases |input|
  {
    if input == [] {
      assert log + [] == log;
    } else {
      OneIteration(s, input, log);
      hide *;
      SafeStep(s, input[0], log);
      SafeRun(Step(s, input[0]).0, log + Step(s, input[0]).1, input[1..]);
    }
  }

  lemma SessionIsSafe(input: seq<Read>)
    ensures Safe(Run(START, input).0, [Wrote(Greeting)] + Run(START, input).1)
  {
    assert Safe(START, [Wrote(Greeting)]);
    hide Safe;
    SafeRun(START, [Wrote(Greeting)], input);
  }

  // ---- one reply each ------------------------------------------------------

  function Replies(log: seq<Event>): nat {
    if log == [] then 0 else (if log[0].Wrote? then 1 else 0) + Replies(log[1..])
  }

  /** This read is a command, or completes a message. */
  predicate Turn(s: Session, r: Read) {
    s.mode.Open? && r.chunk != [] && (s.dataMode ==> Find(s.raw + r.chunk, Terminator()) >= 0)
  }

  function Turns(s: Session, input: seq<Read>): nat
    decreases |input|
  {
    if input == [] then 0 else (if Turn(s, input[0]) then 1 else 0) + Turns(Step(s, input[0]).0, input[1..])
  }

  /** A path whose first '>' comes before its first '<'. */
  predicate Inverted(line: string) {
    IndexOf(line, '>') < IndexOf(line, '<') < |line|
  }

  /** Exactly these lines make the address slice panic and take the session down. */
  lemma PanicIff(line: string)
    ensures Parse(line).Panic? <==> (StartsWith(line, "MAIL FROM:") || StartsWith(line, "RCPT TO:")) && Inverted(line)
  {
    hide Trim, TrimAngles, SecondField, IndexOf;
    FirstLetter(line, "EHLO");
    FirstLetter(line, "HELO");
    FirstLetter(line, "MAIL FROM:");
    FirstLetter(line, "RCPT TO:");
    hide StartsWith;
  }

  lemma FirstLetter(line: string, verb: string)
    requires verb != ""
    ensures StartsWith(line, verb) ==> line != "" && UpperChar(line[0]) == verb[0]
  {
  }

  lemma OneReplyPerTurn(s: Session, r: Read)
    ensures var (s1, events) := Step(s, r);
            && Replies(events) == (if Turn(s, r) && (s1.mode.Crashed? ==> !s.mode.Open?) then 1 else 0)
            && (s1.mode.Crashed? && s.mode.Open? ==> Turn(s, r) && !s.dataMode && Parse(r.line).Panic?)
            && (events != [] ==> events[|events| - 1].Wrote?)
  {
    hide Find, Terminator, Parse;
    var (s1, events) := Step(s, r);
    SmallLog(events);
  }

  lemma SmallLog(log: seq<Event>)
    ensures |log| == 1 ==> Replies(log) == if log[0].Wrote? then 1 else 0
    ensures |log| == 2 ==> Replies(log) == (if log[0].Wrote? then 1 else 0) + (if log[1].Wrote? then 1 else 0)
  {
    if |log| == 2 {
      assert log[1..] == [log[1]] && log[1..][1..] == [];
    }
  }

  lemma {:induction false} RepliesAppend(a: seq<Event>, b: seq<Event>)
    ensures Replies(a + b) == Replies(a) + Replies(b)
  {
    if a == [] {
      assert a + b == b;
    } else {
      assert (a + b)[1..] == a[1..] + b;
      RepliesAppend(a[1..], b);
    }
  }

  /** Each command and each completed message gets exactly one reply, except a command that panics. */
  lemma {:induction false} OneReplyEach(s: Session, input: seq<Read>)
    requires s.mode.Open?
    ensures var (last, log) := Run(s, input);
            Replies(log) + (if last.mode.Crashed? then 1 else 0) == Turns(s, input)
    decreases |input|
  {
    if input != [] {
      var (s1, events) := Step(s, input[0]);
      OneReplyPerTurn(s, input[0]);
      hide Step, Turn;
      RepliesAppend(events, Run(s1, input[1..]).1);
      if s1.mode.Open? {
        OneReplyEach(s1, input[1..]);
      } else {
        StoppedRun(s1, input[1..]);
        NoTurns(s1, input[1..]);
      }
    }
  }

  lemma {:induction false} NoTurns(s: Session, input: seq<Read>)
    requires !s.mode.Open?
    ensures Turns(s, input) == 0
    decreases |input|
  {
    if input != [] {
      NoTurns(s, input[1..]);
    }
  }

  // ---- the envelope --------------------------------------------------------

  /** The command that a read is, if it is one. */
  function CommandRead(s: Session, r: Read): seq<(Command, bool)> {
    if s.mode.Open? && !s.dataMode && r.chunk != [] then [(Parse(r.line), r.accepts)] else []
  }

  /** The commands that a run handled, with the resolver's answer to each. */
  function Handled(s: Session, input: seq<Read>): seq<(Command, bool)>
    decreases |input|
  {
    if input == [] then []
    else
      CommandRead(s, input[0]) + Handled(Step(s, input[0]).0, input[1..])
  }

  /** The address of the last MAIL since the last RSET. */
  function LastMail(commands: seq<(Command, bool)>): string {
    if commands == [] then ""
    else
      match commands[|commands| - 1].0
      case Rset => ""
      case Mail(addr) => addr
      case _ => LastMail(commands[..|commands| - 1])
  }

  /** The address of the last RCPT since the last RSET, if the resolver accepted it. */
  function LastRcpt(commands: seq<(Command, bool)>): string {
    if commands == [] then ""
    else
      match commands[|commands| - 1].0
      case Rset => ""
      case Rcpt(addr) => if commands[|commands| - 1].1 then addr else ""
      case _ => LastRcpt(commands[..|commands| - 1])
  }

  lemma LastSnoc(commands: seq<(Command, bool)>, c: Command, accepted: bool)
    ensures LastMail(commands + [(c, accepted)])
            == if c.Rset? then "" else if c.Mail? then c.addr else LastMail(commands)
    ensures LastRcpt(commands + [(c, accepted)])
            == if c.Rset? then "" else if c.Rcpt? then (if accepted then c.addr else "") else LastRcpt(commands)
  {
    assert (commands + [(c, accepted)])[..|commands|] == commands;
  }

  lemma EnvelopeStep(s: Session, r: Read, commands: seq<(Command, bool)>)
    requires s.from == LastMail(commands) && s.to == LastRcpt(commands)
    ensures var s1 := Step(s, r).0;
            var more := CommandRead(s, r);
            s1.from == LastMail(commands + more) && s1.to == LastRcpt(commands + more)
  {
    hide Find, Terminator, Parse, LastMail, LastRcpt;
    if CommandRead(s, r) == [] {
      assert commands + [] == commands;
      assert Step(s, r).0.from == s.from && Step(s, r).0.to == s.to;
    } else {
      var c := Parse(r.line);
      LastSnoc(commands, c, r.accepts);
      assert Step(s, r) == CommandStep(s, c, r.accepts);
    }
  }

  /** A message sent now would carry the last MAIL and RCPT since the last RSET, delivered messages or not. */
  lemma {:induction false} EnvelopeIsLast(s: Session, before: seq<(Command, bool)>, input: seq<Read>)
    requires s.from == LastMail(before) && s.to == LastRcpt(before)
    ensures var last := Run(s, input).0;
            var commands := before + Handled(s, input);
            last.from == LastMail(commands) && last.to == LastRcpt(commands)
    decreases |input|
  {
    if input == [] {
      assert before + [] == before;
    } else {
      HandledFirst(s, input, before);
      OneIteration(s, input, []);
      hide *;
      EnvelopeStep(s, input[0], before);
      EnvelopeIsLast(Step(s, input[0]).0, before + CommandRead(s, input[0]), input[1..]);
    }
  }

  lemma HandledFirst(s: Session, input: seq<Read>, before: seq<(Command, bool)>)
    requires input != []
    ensures before + Handled(s, input) ==
            before + CommandRead(s, input[0]) + Handled(Step(s, input[0]).0, input[1..])
  {
    hide Step;
  }

  lemma SessionEnvelope(input: seq<Read>)
    ensures var s := Run(START, input).0;
            s.from == LastMail(Handled(START, input)) && s.to == LastRcpt(Handled(START, input))
  {
    EnvelopeIsLast(START, [], input);
    assert [] + Handled(START, input) == Handled(START, input);
  }

  /**
   * RFC 5321 has the end of data clear the reverse and forward paths; here they stay, so a second DATA needs no
   * MAIL or RCPT.
   */
  lemma EnvelopeSurvivesMessage(s: Session, data: Read, again: Read)
    requires s.mode.Open? && s.dataMode && s.to != "" && Turn(s, data) && again.chunk != []
    requires Parse(again.line).Data?
    ensures var (s2, log) := Run(s, [data, again]);
            log[|log| - 1..] == [Wrote(StartData)] && s2.dataMode && s2.from == s.from && s2.to == s.to
  {
    hide Find, Terminator, Parse;
    var s1 := Step(s, data).0;
    assert [data, again][1..] == [again];
    assert Run(s1, [again]) == (Step(s1, again).0, Step(s1, again).1 + []);
  }
}
