/**
 * The ingress session of crates/aivory-mail-smtp/src/main.rs: one loop over the chunks that the socket yields.
 * The HTTP calls (`recipient_accepted`, `forward_raw`) and the lossy UTF-8 decoding are oracles.
 */
module Smtp {
  import opened Text

  datatype Reply =
    | Greeting       // 220
    | Hello          // 250-aivory.mail, 250 STARTTLS
    | Okay           // 250 OK
    | Queued         // 250 OK queued
    | TryAgain       // 451 4.3.0
    | UserUnknown    // 550 5.1.1
    | NoRecipient    // 503 5.5.1
    | StartData      // 354
    | Bye            // 221

  /** What a session does to the world, in order. */
  datatype Event =
    | Wrote(reply: Reply)
    | Asked(rcpt: string, accept: bool)
    | Forwarded(from: string, rcpt: string, message: seq<byte>, stored: bool)

  datatype Mode = Open | Closed | Crashed

  /** The loop's variables. */
  datatype Session = Session(from: string, to: string, dataMode: bool, raw: seq<byte>, mode: Mode)

  /**
   * One `read` (empty at end of stream), its lossy decoding, and what the API would answer during the iteration
   * that it starts.
   */
  datatype Read = Read(chunk: seq<byte>, line: string, accepts: bool, stores: bool)

  // ---- command lines -------------------------------------------------------

  function UpperChar(c: char): char {
    if 'a' <= c <= 'z' then (c as int - 32) as char else c
  }

  /** `line.to_uppercase().starts_with(verb)`, for ASCII. */
  predicate StartsWith(line: string, verb: string) {
    |verb| <= |line| && forall i | 0 <= i < |verb| :: UpperChar(line[i]) == verb[i]
  }

  predicate Angle(c: char) {
    c == '<' || c == '>'
  }

  /** `trim_matches` for angle brackets. */
  function TrimAngles(s: string): string {
    if s != "" && Angle(s[0]) then TrimAngles(s[1..])
    else if s != "" && Angle(s[|s| - 1]) then TrimAngles(s[..|s| - 1])
    else s
  }

  /** `line.split(':').nth(1).unwrap_or("")` */
  function SecondField(line: string): string {
    var a := IndexOf(line, ':');
    if a == |line| then "" else line[a + 1..][..IndexOf(line[a + 1..], ':')]
  }

  /** `extract_addr`; None is the panic of a slice that ends before it starts. */
  function ExtractAddr(line: string): Option<string> {
    var open, close := IndexOf(line, '<'), IndexOf(line, '>');
    if open < |line| && close < |line| then
      if close < open then None else Some(Trim(line[open + 1..close]))
    else Some(TrimAngles(Trim(SecondField(line))))
  }

  datatype Command = Helo | Mail(addr: string) | Rcpt(addr: string) | Data | Quit | Rset | Other | Panic

  function Parse(line: string): Command {
    if StartsWith(line, "EHLO") || StartsWith(line, "HELO") then Helo
    else if StartsWith(line, "MAIL FROM:") then
      var addr := ExtractAddr(line);
      if addr.Some? then Mail(addr.value) else Panic
    else if StartsWith(line, "RCPT TO:") then
      var addr := ExtractAddr(line);
      if addr.Some? then Rcpt(addr.value) else Panic
    else if StartsWith(line, "DATA") then Data
    else if StartsWith(line, "QUIT") then Quit
    else if StartsWith(line, "RSET") then Rset
    else Other
  }

  predicate NoAngles(s: string) {
    forall i | 0 <= i < |s| :: !Angle(s[i])
  }

  /** A well-formed path gives the address between the brackets. */
  lemma PathIsRead(verb: string, addr: string, rest: string)
    requires NoAngles(verb) && NoAngles(addr)
    ensures ExtractAddr(verb + "<" + addr + ">" + rest) == Some(Trim(addr))
  {
    hide *;
    NoneIn(verb);
    NoneIn(addr);
    OpenFound(verb, addr, rest);
    CloseFound(verb, addr, rest);
    Middle(verb, "<", addr, ">", rest);
    Brackets(verb + "<" + addr + ">" + rest, |verb|, |verb| + 1 + |addr|, addr);
  }

  lemma NoneIn(s: string)
    requires NoAngles(s)
    ensures '<' !in s && '>' !in s
  {
  }

  lemma OpenFound(verb: string, addr: string, rest: string)
    requires '<' !in verb
    ensures IndexOf(verb + "<" + addr + ">" + rest, '<') == |verb|
  {
    hide *;
    Middle(verb, "<", addr, ">", rest);
    FirstBracket(verb, "<", addr + ">" + rest);
  }

  lemma CloseFound(verb: string, addr: string, rest: string)
    requires '>' !in verb && '>' !in addr
    ensures IndexOf(verb + "<" + addr + ">" + rest, '>') == |verb| + 1 + |addr|
  {
    hide *;
    assert '>' !in verb + "<" + addr;
    FirstBracket(verb + "<" + addr, ">", rest);
  }

  lemma Middle(a: string, left: string, b: string, right: string, c: string)
    requires |left| == |right| == 1
    ensures a + left + b + right + c == a + left + (b + right + c)
    ensures |a + left + b + right + c| > |a| + 1 + |b|
    ensures (a + left + b + right + c)[|a| + 1..|a| + 1 + |b|] == b
  {
  }

  lemma FirstBracket(before: string, bracket: string, after: string)
    requires |bracket| == 1 && bracket[0] !in before
    ensures IndexOf(before + bracket + after, bracket[0]) == |before|
  {
    hide *;
    var line := before + bracket + after;
    assert line[|before|] == bracket[0];
    forall i | 0 <= i < |before| ensures line[i] != bracket[0] {
      assert line[i] == before[i];
    }
    IndexOfUnique(line, bracket[0], |before|);
  }

  lemma Brackets(line: string, open: nat, close: nat, addr: string)
    requires open < close < |line| && IndexOf(line, '<') == open && IndexOf(line, '>') == close
    requires line[open + 1..close] == addr
    ensures ExtractAddr(line) == Some(Trim(addr))
  {
    hide IndexOf, Trim, TrimAngles, SecondField;
  }

  // ---- one iteration -------------------------------------------------------

  function Terminator(): seq<byte> {
    [13, 10, 46, 13, 10]
  }

  function DataStep(s: Session, r: Read): (Session, seq<Event>) {
    var raw := s.raw + r.chunk;
    var pos := Find(raw, Terminator());
    if pos < 0 then (s.(raw := raw), [])
    else (s.(raw := [], dataMode := false),
          [Forwarded(s.from, s.to, raw[..pos], r.stores), Wrote(if r.stores then Queued else TryAgain)])
  }

  function CommandStep(s: Session, c: Command, accepts: bool): (Session, seq<Event>) {
    match c
    case Helo => (s, [Wrote(Hello)])
    case Mail(addr) => (s.(from := addr), [Wrote(Okay)])
    case Rcpt(addr) =>
      if addr == "" then (s.(to := ""), [Wrote(UserUnknown)])
      else if accepts then (s.(to := addr), [Asked(addr, true), Wrote(Okay)])
      else (s.(to := ""), [Asked(addr, false), Wrote(UserUnknown)])
    case Data =>
      if s.to == "" then (s, [Wrote(NoRecipient)])
      else (s.(dataMode := true, raw := []), [Wrote(StartData)])
    case Quit => (s.(mode := Closed), [Wrote(Bye)])
    case Rset => (Session("", "", false, [], Open), [Wrote(Okay)])
    case Other => (s, [Wrote(Okay)])
    case Panic => (s.(mode := Crashed), [])
  }

  function Step(s: Session, r: Read): (Session, seq<Event>) {
    if !s.mode.Open? then (s, [])
    else if r.chunk == [] then (s.(mode := Closed), [])
    else if s.dataMode then DataStep(s, r)
    else CommandStep(s, Parse(r.line), r.accepts)
  }

  function Run(s: Session, input: seq<Read>): (Session, seq<Event>)
    decreases |input|
  {
    if input == [] then (s, [])
    else
      var (s1, events) := Step(s, input[0]);
      var (s2, more) := Run(s1, input[1..]);
      (s2, events + more)
  }

  const START := Session("", "", false, [], Open)

  // ---- the loop ------------------------------------------------------------

  method ReadAddr(line: string) returns (addr: Option<string>)
    ensures addr == ExtractAddr(line)
  {
    hide IndexOf, Trim, TrimAngles, SecondField;
    var open, close := IndexOf(line, '<'), IndexOf(line, '>');
    if open < |line| && close < |line| {
      if close < open {
        return None;
      }
      return Some(Trim(line[open + 1..close]));
    }
    return Some(TrimAngles(Trim(SecondField(line))));
  }

  /** `handle_smtp`: everything it writes, asks and forwards is what the run from the start does. */
  method HandleSmtp(input: seq<Read>) returns (log: seq<Event>, mode: Mode)
    ensures log == [Wrote(Greeting)] + Run(START, input).1
    ensures mode == Run(START, input).0.mode
  {
    log := [Wrote(Greeting)];
    var from, to := "", "";
    var dataMode := false;
    var raw: seq<byte> := [];
    mode := Open;
    var i := 0;
    hide StartsWith, ExtractAddr, Find, Terminator, Run;
    while i < |input| && mode.Open?
      invariant 0 <= i <= |input|
      invariant var (last, more) := Run(Session(from, to, dataMode, raw, mode), input[i..]);
                && log + more == [Wrote(Greeting)] + Run(START, input).1
                && last.mode == Run(START, input).0.mode
    {
      var r := input[i];
      ghost var before, logBefore := Session(from, to, dataMode, raw, mode), log;
      if r.chunk == [] {
        mode := Closed;
      } else if dataMode {
        raw := raw + r.chunk;
        var pos := Find(raw, Terminator());
        if pos >= 0 {
          raw := raw[..pos];
          log := log + [Forwarded(from, to, raw, r.stores)];
          if r.stores {
            log := log + [Wrote(Queued)];
          } else {
            log := log + [Wrote(TryAgain)];
          }
          raw := [];
          dataMode := false;
        }
        assert Session(from, to, dataMode, raw, mode) == DataStep(before, r).0;
        assert log == logBefore + DataStep(before, r).1;
      } else {
        var line := r.line;
        ghost var command := Parse(line);
        if StartsWith(line, "EHLO") || StartsWith(line, "HELO") {
          log := log + [Wrote(Hello)];
        } else if StartsWith(line, "MAIL FROM:") {
          var addr := ReadAddr(line);
          if addr.Some? {
            from := addr.value;
            log := log + [Wrote(Okay)];
          } else {
            mode := Crashed;
          }
        } else if StartsWith(line, "RCPT TO:") {
          var addr := ReadAddr(line);
          if addr.Some? {
            to := addr.value;
            var accepted := false;
            if to != "" {
              accepted := r.accepts;
              log := log + [Asked(to, accepted)];
            }
            if accepted {
              log := log + [Wrote(Okay)];
            } else {
              log := log + [Wrote(UserUnknown)];
              to := "";
            }
          } else {
            mode := Crashed;
          }
        } else if StartsWith(line, "DATA") {
          if to == "" {
            log := log + [Wrote(NoRecipient)];
          } else {
            log := log + [Wrote(StartData)];
            dataMode := true;
            raw := [];
          }
        } else if StartsWith(line, "QUIT") {
          log := log + [Wrote(Bye)];
          mode := Closed;
        } else if StartsWith(line, "RSET") {
          from, to, raw, dataMode := "", "", [], false;
          log := log + [Wrote(Okay)];
        } else {
          log := log + [Wrote(Okay)];
        }
        assert Session(from, to, dataMode, raw, mode) == CommandStep(before, command, r.accepts).0;
        assert log == logBefore + CommandStep(before, command, r.accepts).1;
      }
      OneIteration(before, input[i..], logBefore);
      i := i + 1;
    }
    StoppedRun(Session(from, to, dataMode, raw, mode), input[i..]);
  }

  lemma OneIteration(s: Session, input: seq<Read>, log: seq<Event>)
    requires input != []
    ensures var (s1, events) := Step(s, input[0]);
            && Run(s, input).0 == Run(s1, input[1..]).0
            && log + Run(s, input).1 == log + events + Run(s1, input[1..]).1
  {
    hide Step;
  }

  /** A session that is not open reads no more. */
  lemma {:induction false} StoppedRun(s: Session, input: seq<Read>)
    requires input == [] || !s.mode.Open?
    ensures Run(s, input) == (s, [])
  {
    if input == [] {
      assert Run(s, input) == (s, []);
    } else {
      var step := Step(s, input[0]);
      assert step.0 == s && step.1 == [];
      StoppedRun(s, input[1..]);
      hide Step;
      assert step.1 + Run(s, input[1..]).1 == [];
    }
  }
}
