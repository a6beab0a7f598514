/** Sessions of Smtp.dfy read off the lines that the peer sends: what each verb does, and whose addresses are used. */
module SmtpLines {
  import opened Text
  import opened Smtp
  import opened SmtpLaws

  // ---- lines ---------------------------------------------------------------

  /** The line begins with this verb, in any case of its letters. */
  predicate Says(line: string, verb: string) {
    |verb| <= |line| && forall i | 0 <= i < |verb| ::
      line[i] == verb[i] || ('A' <= verb[i] <= 'Z' && line[i] as int == verb[i] as int + 32)
  }

  lemma SaysIs(line: string, verb: string)
    requires forall i | 0 <= i < |verb| :: !('a' <= verb[i] <= 'z')
    ensures StartsWith(line, verb) <==> Says(line, verb)
  {
  }

  /** The text between the first '<' and the first '>'. */
  predicate Bracketed(line: string, inner: string) {
    exists o, c | 0 <= o < c < |line| :: BracketedFrom(line, inner, o, c)
  }

  predicate BracketedFrom(line: string, inner: string, o: nat, c: nat)
    requires o < c < |line|
  {
    && line[o] == '<' && (forall i | 0 <= i < o :: line[i] != '<')
    && line[c] == '>' && (forall i | 0 <= i < c :: line[i] != '>')
    && inner == line[o + 1..c]
  }

  /** The text between the first ':' and the next one or the end; empty without one. */
  predicate Field(line: string, field: string) {
    (':' !in line && field == "") || exists a, b | 0 <= a < b <= |line| :: FieldFrom(line, field, a, b)
  }

  predicate FieldFrom(line: string, field: string, a: nat, b: nat)
    requires a < b <= |line|
  {
    && line[a] == ':' && (forall i | 0 <= i < a :: line[i] != ':')
    && (forall i | a < i < b :: line[i] != ':') && (b < |line| ==> line[b] == ':')
    && field == line[a + 1..b]
  }

  /** `inner` without the angle brackets at its ends. */
  predicate Unangled(inner: string, addr: string) {
    exists i, j | 0 <= i <= j <= |inner| :: UnangledFrom(inner, addr, i, j)
  }

  predicate UnangledFrom(inner: string, addr: string, i: nat, j: nat)
    requires i <= j <= |inner|
  {
    && addr == inner[i..j]
    && (forall k | 0 <= k < i :: inner[k] == '<' || inner[k] == '>')
    && (forall k | j <= k < |inner| :: inner[k] == '<' || inner[k] == '>')
    && (addr != "" ==> addr[0] !in "<>" && addr[|addr| - 1] !in "<>")
  }

  /** The address that a MAIL or RCPT line gives. */
  ghost predicate Path(line: string, addr: string) {
    if '<' in line && '>' in line then exists inner :: Bracketed(line, inner) && addr == Trim(inner)
    else exists field :: Field(line, field) && Unangled(Trim(field), addr)
  }

  lemma FieldIs(line: string)
    ensures Field(line, SecondField(line))
  {
    var a := IndexOf(line, ':');
    if a < |line| {
      var behind := line[a + 1..];
      var b := a + 1 + IndexOf(behind, ':');
      FieldEnds(line, a, b);
      FieldAt(line, a, b);
    } else {
      assert ':' !in line && SecondField(line) == "";
      hide IndexOf;
    }
    hide *;
  }

  lemma FieldEnds(line: string, a: nat, b: nat)
    requires a < |line| && a == IndexOf(line, ':') && b == a + 1 + IndexOf(line[a + 1..], ':')
    ensures a < b <= |line| && line[a] == ':' && (forall i | 0 <= i < a :: line[i] != ':')
    ensures (forall i | a < i < b :: line[i] != ':') && (b < |line| ==> line[b] == ':')
    ensures SecondField(line) == line[a + 1..b]
  {
    hide IndexOf;
    var behind := line[a + 1..];
    assert SecondField(line) == behind[..b - a - 1];
    hide SecondField;
    assert forall i | a < i < b :: line[i] == behind[i - a - 1];
    assert b < |line| ==> line[b] == behind[b - a - 1];
    assert behind[..b - a - 1] == line[a + 1..b];
  }

  lemma FieldAt(line: string, a: nat, b: nat)
    requires a < b <= |line| && line[a] == ':' && (forall i | 0 <= i < a :: line[i] != ':')
    requires (forall i | a < i < b :: line[i] != ':') && (b < |line| ==> line[b] == ':')
    ensures Field(line, line[a + 1..b])
  {
    assert FieldFrom(line, line[a + 1..b], a, b);
  }

  lemma {:induction false} UnangledIs(s: string)
    ensures Unangled(s, TrimAngles(s))
    decreases |s|
  {
    hide Unangled;
    if s != "" && Angle(s[0]) {
      UnangledIs(s[1..]);
      assert s[1..|s|] == s[1..];
      UnangledLonger(s, 1, |s|, TrimAngles(s[1..]));
    } else if s != "" && Angle(s[|s| - 1]) {
      UnangledIs(s[..|s| - 1]);
      assert s[0..|s| - 1] == s[..|s| - 1];
      UnangledLonger(s, 0, |s| - 1, TrimAngles(s[..|s| - 1]));
    } else {
      NoneToDrop(s);
    }
  }

  lemma NoneToDrop(s: string)
    requires s != "" ==> !Angle(s[0]) && !Angle(s[|s| - 1])
    ensures Unangled(s, s)
  {
    assert s[0..|s|] == s;
    assert UnangledFrom(s, s, 0, |s|);
  }

  lemma UnangledLonger(s: string, lo: nat, hi: nat, addr: string)
    requires lo <= hi <= |s| && Unangled(s[lo..hi], addr)
    requires (forall k | 0 <= k < lo :: Angle(s[k])) && (forall k | hi <= k < |s| :: Angle(s[k]))
    ensures Unangled(s, addr)
  {
    var t := s[lo..hi];
    var i: nat, j: nat :| i <= j <= |t| && UnangledFrom(t, addr, i, j);
    assert forall k | lo <= k < hi :: s[k] == t[k - lo];
    assert s[lo + i..lo + j] == addr;
    assert UnangledFrom(s, addr, lo + i, lo + j);
  }

  /** The path of a line is read as this, unless its brackets are the wrong way round. */
  lemma PathIs(line: string)
    ensures ExtractAddr(line).None? <==> Inverted(line)
    ensures ExtractAddr(line).Some? ==> Path(line, ExtractAddr(line).value)
  {
    var o, c := IndexOf(line, '<'), IndexOf(line, '>');
    FieldIs(line);
    UnangledIs(Trim(SecondField(line)));
    hide IndexOf, Trim, TrimAngles, SecondField, Field, Unangled;
    assert o < |line| <==> '<' in line;
    assert c < |line| <==> '>' in line;
    if o < c < |line| {
      assert BracketedFrom(line, line[o + 1..c], o, c);
      assert Bracketed(line, line[o + 1..c]);
    } else if o < |line| && c < |line| {
      assert o != c;
    }
  }

  // ---- what each verb does -------------------------------------------------

  /** The line is read as a command. */
  predicate ReadsCommand(s: Session, r: Read) {
    s.mode.Open? && !s.dataMode && r.chunk != []
  }

  lemma VerbsApart(line: string)
    ensures Says(line, "EHLO") ==> line[0] == 'E' || line[0] == 'e'
    ensures Says(line, "HELO") ==> line[0] == 'H' || line[0] == 'h'
    ensures Says(line, "MAIL FROM:") ==> line[0] == 'M' || line[0] == 'm'
    ensures Says(line, "DATA") ==> line[0] == 'D' || line[0] == 'd'
    ensures Says(line, "QUIT") ==> line[0] == 'Q' || line[0] == 'q'
    ensures Says(line, "RCPT TO:") ==> (line[0] == 'R' || line[0] == 'r') && (line[1] == 'C' || line[1] == 'c')
    ensures Says(line, "RSET") ==> (line[0] == 'R' || line[0] == 'r') && (line[1] == 'S' || line[1] == 's')
  {
  }

  lemma VerbsAre(line: string)
    ensures StartsWith(line, "EHLO") == Says(line, "EHLO") && StartsWith(line, "HELO") == Says(line, "HELO")
    ensures StartsWith(line, "MAIL FROM:") == Says(line, "MAIL FROM:")
    ensures StartsWith(line, "RCPT TO:") == Says(line, "RCPT TO:")
    ensures StartsWith(line, "DATA") == Says(line, "DATA") && StartsWith(line, "QUIT") == Says(line, "QUIT")
    ensures StartsWith(line, "RSET") == Says(line, "RSET")
  {
    hide StartsWith, Says;
    SaysIs(line, "EHLO");
    SaysIs(line, "HELO");
    SaysIs(line, "MAIL FROM:");
    SaysIs(line, "RCPT TO:");
    SaysIs(line, "DATA");
    SaysIs(line, "QUIT");
    SaysIs(line, "RSET");
  }

  /** Lines with an address. */
  lemma AddressLines(s: Session, r: Read)
    requires ReadsCommand(s, r) && (Says(r.line, "MAIL FROM:") || Says(r.line, "RCPT TO:"))
    ensures var (t, out) := Step(s, r);
            if Inverted(r.line) then t == s.(mode := Crashed) && out == []
            else if Says(r.line, "MAIL FROM:") then
              Path(r.line, t.from) && t == s.(from := t.from) && out == [Wrote(Okay)]
            else exists addr | Path(r.line, addr) ::
                   if addr == "" then t == s.(to := "") && out == [Wrote(UserUnknown)]
                   else if r.accepts then t == s.(to := addr) && out == [Asked(addr, true), Wrote(Okay)]
                   else t == s.(to := "") && out == [Asked(addr, false), Wrote(UserUnknown)]
  {
    VerbsApart(r.line);
    VerbsAre(r.line);
    PathIs(r.line);
    hide Says, StartsWith, ExtractAddr, Path, Inverted, DataStep;
  }

  /** All other lines. */
  lemma PlainLines(s: Session, r: Read)
    requires ReadsCommand(s, r) && !Says(r.line, "MAIL FROM:") && !Says(r.line, "RCPT TO:")
    ensures var (t, out) := Step(s, r);
            if Says(r.line, "EHLO") || Says(r.line, "HELO") then t == s && out == [Wrote(Hello)]
            else if Says(r.line, "DATA") then
              if s.to == "" then t == s && out == [Wrote(NoRecipient)]
              else t == s.(dataMode := true, raw := []) && out == [Wrote(StartData)]
            else if Says(r.line, "QUIT") then t == s.(mode := Closed) && out == [Wrote(Bye)]
            else if Says(r.line, "RSET") then t == Session("", "", false, [], Open) && out == [Wrote(Okay)]
            else t == s && out == [Wrote(Okay)]
  {
    VerbsApart(r.line);
    VerbsAre(r.line);
    hide Says, StartsWith, ExtractAddr, DataStep;
  }

  /** Anything but a command leaves the addresses alone and asks nothing. */
  lemma NoCommand(s: Session, r: Read)
    requires !ReadsCommand(s, r)
    ensures var (t, out) := Step(s, r);
            && t.from == s.from && t.to == s.to && (t.mode.Crashed? <==> s.mode.Crashed?)
            && (forall e | e in out :: !e.Asked? && (e.Forwarded? ==> e.from == s.from && e.rcpt == s.to))
  {
    hide Find, Terminator;
  }

  // ---- the envelope of a session -------------------------------------------

  /** The reads that a session takes as commands. */
  function Heard(s: Session, input: seq<Read>): seq<Read>
    decreases |input|
  {
    if input == [] then []
    else (if ReadsCommand(s, input[0]) then [input[0]] else []) + Heard(Step(s, input[0]).0, input[1..])
  }

  /** The address on the last MAIL line since the last RSET line; empty if there is none. */
  ghost predicate MailIs(heard: seq<Read>, from: string) {
    if heard == [] then from == ""
    else
      var last := heard[|heard| - 1];
      if Says(last.line, "RSET") then from == ""
      else if Says(last.line, "MAIL FROM:") then Path(last.line, from)
      else MailIs(heard[..|heard| - 1], from)
  }

  /** The address on the last RCPT line since the last RSET line; empty if there is none or it was not accepted. */
  ghost predicate RcptIs(heard: seq<Read>, rcpt: string) {
    if heard == [] then rcpt == ""
    else
      var last := heard[|heard| - 1];
      if Says(last.line, "RSET") then rcpt == ""
      else if Says(last.line, "RCPT TO:") then (if last.accepts then Path(last.line, rcpt) else rcpt == "")
      else RcptIs(heard[..|heard| - 1], rcpt)
  }

  ghost predicate EnvelopeIs(heard: seq<Read>, s: Session) {
    !s.mode.Crashed? ==> MailIs(heard, s.from) && RcptIs(heard, s.to)
  }

  lemma MailSnoc(heard: seq<Read>, r: Read, from: string)
    ensures MailIs(heard + [r], from)
            <==> if Says(r.line, "RSET") then from == "" else if Says(r.line, "MAIL FROM:") then Path(r.line, from)
                 else MailIs(heard, from)
    ensures RcptIs(heard + [r], from)
            <==> if Says(r.line, "RSET") then from == ""
                 else if Says(r.line, "RCPT TO:") then (if r.accepts then Path(r.line, from) else from == "")
                 else RcptIs(heard, from)
  {
    assert (heard + [r])[..|heard|] == heard;
    hide Says, Path;
  }

  lemma HeardStep(s: Session, r: Read, heard: seq<Read>)
    requires EnvelopeIs(heard, s)
    ensures EnvelopeIs(if ReadsCommand(s, r) then heard + [r] else heard, Step(s, r).0)
  {
    var t := Step(s, r).0;
    if !ReadsCommand(s, r) {
      NoCommand(s, r);
      hide MailIs, RcptIs, Step;
    } else {
      MailSnoc(heard, r, t.from);
      MailSnoc(heard, r, t.to);
      VerbsApart(r.line);
      hide MailIs, RcptIs, Step, Says, Inverted, Path;
      if Says(r.line, "MAIL FROM:") || Says(r.line, "RCPT TO:") {
        AddressLines(s, r);
        NoMoreThanOne(r.line);
      } else {
        PlainLines(s, r);
      }
    }
  }

  lemma NoMoreThanOne(line: string)
    ensures Says(line, "MAIL FROM:") ==> !Says(line, "RSET") && !Says(line, "RCPT TO:")
    ensures Says(line, "RCPT TO:") ==> !Says(line, "RSET")
  {
    VerbsApart(line);
    hide Says;
  }

  lemma RunFirst(s: Session, input: seq<Read>)
    requires input != []
    ensures var (s1, events) := Step(s, input[0]);
            Run(s, input) == (Run(s1, input[1..]).0, events + Run(s1, input[1..]).1)
    ensures Heard(s, input)
            == (if ReadsCommand(s, input[0]) then [input[0]] else []) + Heard(Step(s, input[0]).0, input[1..])
  {
    hide Step, ReadsCommand;
  }

  lemma RunNothing(s: Session)
    ensures Run(s, []) == (s, []) && Heard(s, []) == []
  {
  }

  lemma {:induction false} RunSnoc(s: Session, input: seq<Read>, r: Read)
    ensures Run(s, input + [r]) == (Step(Run(s, input).0, r).0, Run(s, input).1 + Step(Run(s, input).0, r).1)
    ensures Heard(s, input + [r]) == Heard(s, input) + if ReadsCommand(Run(s, input).0, r) then [r] else []
    decreases |input|
  {
    hide *;
    RunFirst(s, input + [r]);
    if input == [] {
      RunNothing(s);
      RunNothing(Step(s, r).0);
      assert [] + [r] == [r] && [r][1..] == [];
      assert Step(s, r).1 + [] == Step(s, r).1 && [] + Step(s, r).1 == Step(s, r).1;
      assert Heard(s, [r]) == if ReadsCommand(s, r) then [r] else [];
    } else {
      RunFirst(s, input);
      var rest := input[1..];
      assert (input + [r])[1..] == rest + [r] && (input + [r])[0] == input[0];
      var s1, events := Step(s, input[0]).0, Step(s, input[0]).1;
      RunSnoc(s1, rest, r);
      var last := Run(s1, rest).0;
      assert events + (Run(s1, rest).1 + Step(last, r).1) == events + Run(s1, rest).1 + Step(last, r).1;
    }
  }

  /** What one read sends and asks. */
  lemma EventsOfStep(s: Session, r: Read, e: Event)
    requires e in Step(s, r).1
    ensures e.Forwarded? ==> e.from == s.from && e.rcpt == s.to && !s.mode.Crashed?
    ensures e.Asked? ==> ReadsCommand(s, r) && Says(r.line, "RCPT TO:") && Path(r.line, e.rcpt)
                         && e.rcpt != "" && e.accept == r.accepts
  {
    if !ReadsCommand(s, r) {
      NoCommand(s, r);
      assert s.mode.Crashed? ==> Step(s, r).1 == [];
    } else {
      hide Step, Says, Inverted, Path;
      if Says(r.line, "MAIL FROM:") || Says(r.line, "RCPT TO:") {
        AddressLines(s, r);
        NoMoreThanOne(r.line);
      } else {
        PlainLines(s, r);
      }
    }
  }

  /** Some part of the input leaves these addresses in the session. */
  ghost predicate ForwardedAsHeard(input: seq<Read>, from: string, rcpt: string) {
    exists k | 0 <= k < |input| :: MailIs(Heard(START, input[..k]), from) && RcptIs(Heard(START, input[..k]), rcpt)
  }

  /** Some line heard is an RCPT line with this address, and this was the resolver's answer. */
  ghost predicate AskedAsHeard(input: seq<Read>, rcpt: string, accept: bool) {
    exists r | r in Heard(START, input) ::
      Says(r.line, "RCPT TO:") && Path(r.line, rcpt) && rcpt != "" && accept == r.accepts
  }

  lemma HeardLater(before: seq<Read>, r: Read)
    ensures forall from, rcpt | ForwardedAsHeard(before, from, rcpt) :: ForwardedAsHeard(before + [r], from, rcpt)
    ensures forall rcpt, accept | AskedAsHeard(before, rcpt, accept) :: AskedAsHeard(before + [r], rcpt, accept)
  {
    var input := before + [r];
    RunSnoc(START, before, r);
    hide Heard, MailIs, RcptIs, Says, Path, Run;
    forall from, rcpt | ForwardedAsHeard(before, from, rcpt) ensures ForwardedAsHeard(input, from, rcpt) {
      var k :| && 0 <= k < |before| && MailIs(Heard(START, before[..k]), from)
               && RcptIs(Heard(START, before[..k]), rcpt);
      assert input[..k] == before[..k];
    }
  }

  lemma LogOfStep(before: seq<Read>, r: Read, e: Event)
    requires var s := Run(START, before).0; EnvelopeIs(Heard(START, before), s) && e in Step(s, r).1
    ensures e.Forwarded? ==> ForwardedAsHeard(before + [r], e.from, e.rcpt)
    ensures e.Asked? ==> AskedAsHeard(before + [r], e.rcpt, e.accept)
  {
    var input := before + [r];
    assert input[..|before|] == before;
    RunSnoc(START, before, r);
    EventsOfStep(Run(START, before).0, r, e);
    hide Heard, MailIs, RcptIs, Says, Path, Run, Step, ReadsCommand;
    assert ReadsCommand(Run(START, before).0, r) ==> r in Heard(START, input);
  }

  /**
   * In every session, as long as it has not crashed: the addresses held are those on the last MAIL line and the last
   * RCPT line, if it was accepted, since the last RSET line. A message is forwarded from and to the addresses held at
   * that moment, and the resolver is asked about the address on an RCPT line.
   */
  lemma {:induction false} SessionFromLines(input: seq<Read>)
    ensures EnvelopeIs(Heard(START, input), Run(START, input).0)
    ensures forall e | e in Run(START, input).1 :: e.Forwarded? ==> ForwardedAsHeard(input, e.from, e.rcpt)
    ensures forall e | e in Run(START, input).1 :: e.Asked? ==> AskedAsHeard(input, e.rcpt, e.accept)
  {
    if input == [] {
      assert Heard(START, input) == [] && Run(START, input) == (START, []);
    } else {
      var before, r := input[..|input| - 1], input[|input| - 1];
      var s := Run(START, before).0;
      assert input == before + [r];
      hide *;
      SessionFromLines(before);
      RunSnoc(START, before, r);
      HeardStep(s, r, Heard(START, before));
      assert Heard(START, before) + [] == Heard(START, before);
      HeardLater(before, r);
      forall e | e in Step(s, r).1
        ensures e.Forwarded? ==> ForwardedAsHeard(input, e.from, e.rcpt)
        ensures e.Asked? ==> AskedAsHeard(input, e.rcpt, e.accept)
      {
        LogOfStep(before, r, e);
      }
    }
  }
}
