/**
 * Replies and forwards derived from a stored message (crates/aivory-mail-api/src/mcp_reply.rs):
 * recipients, subject and quoted text.
 */
module Reply {
  import opened Text

  // ---- addresses -----------------------------------------------------------

  /** The last position of `c` in `s`, or -1. */
  function LastIndexOf(s: string, c: char): (r: int)
    ensures -1 <= r < |s|
    ensures r >= 0 ==> s[r] == c
    ensures forall i | r < i < |s| :: s[i] != c
  {
    if s == "" then -1
    else if s[|s| - 1] == c then |s| - 1
    else LastIndexOf(s[..|s| - 1], c)
  }

  function BareAddress(raw: string): string {
    var trimmed := Trim(raw);
    var opening, closing := LastIndexOf(trimmed, '<'), LastIndexOf(trimmed, '>');
    var inner := if 0 <= opening < closing then trimmed[opening + 1..closing] else trimmed;
    Lower(Trim(inner))
  }

  /** First occurrences in order, leaving out what `seen` already holds. */
  function Dedup(list: seq<string>, seen: set<string>): seq<string> {
    if list == [] then []
    else if list[0] in seen then Dedup(list[1..], seen)
    else [list[0]] + Dedup(list[1..], seen + {list[0]})
  }

  method DedupExcluding(list: seq<string>, exclude: set<string>) returns (r: seq<string>)
    ensures r == Dedup(list, exclude)
  {
    r := [];
    var seen := exclude;
    for i := 0 to |list|
      invariant r + Dedup(list[i..], seen) == Dedup(list, exclude)
    {
      assert list[i..][1..] == list[i + 1..];
      if list[i] !in seen {
        seen := seen + {list[i]};
        r := r + [list[i]];
      }
    }
    assert r + [] == r;
  }

  ghost predicate NoDuplicates(s: seq<string>) {
    forall i, j | 0 <= i < j < |s| :: s[i] != s[j]
  }

  /** Everything `Dedup` promises; the order clause leaves one possible result. */
  lemma {:induction false} DedupCharacterised(list: seq<string>, seen: set<string>)
    ensures var r := Dedup(list, seen);
            && NoDuplicates(r)
            && (forall a :: a in r <==> a in list && a !in seen)
            && (forall i, j | 0 <= i < j < |r| :: IndexOf(list, r[i]) < IndexOf(list, r[j]))
  {
    if list != [] {
      var h, rest := list[0], list[1..];
      var seen' := if h in seen then seen else seen + {h};
      DedupCharacterised(rest, seen');
      var tail := Dedup(rest, seen');
      assert list == [h] + rest;
      forall i | 0 <= i < |tail| ensures tail[i] != h && IndexOf(list, tail[i]) == 1 + IndexOf(rest, tail[i]) {
        assert tail[i] in tail;
      }
      assert IndexOf(list, h) == 0;
    }
  }

  lemma {:induction false} DedupAppend(a: seq<string>, b: seq<string>, seen: set<string>)
    ensures Dedup(a + b, seen) == Dedup(a, seen) + Dedup(b, seen + set x | x in a)
  {
    if a == [] {
      assert a + b == b && seen + (set x | x in a) == seen;
    } else {
      var seen' := if a[0] in seen then seen else seen + {a[0]};
      assert (a + b)[1..] == a[1..] + b;
      DedupAppend(a[1..], b, seen');
      assert seen' + (set x | x in a[1..]) == seen + set x | x in a by {
        assert forall x :: x in a <==> x == a[0] || x in a[1..];
      }
    }
  }

  /** Leaving out of a list what is already excluded changes nothing. */
  lemma {:induction false} DedupIgnoresSeen(list: seq<string>, seen: set<string>, a: string)
    requires a in seen
    ensures Dedup(Without(list, a), seen) == Dedup(list, seen)
  {
    if list != [] {
      var seen' := if list[0] in seen then seen else seen + {list[0]};
      DedupIgnoresSeen(list[1..], seen', a);
      if list[0] != a {
        assert ([list[0]] + Without(list[1..], a))[1..] == Without(list[1..], a);
      }
    }
  }

  /** `Vec::retain(|x| x != a)`. */
  function Without(list: seq<string>, a: string): seq<string> {
    if list == [] then []
    else if list[0] == a then Without(list[1..], a)
    else [list[0]] + Without(list[1..], a)
  }

  // ---- subject and text ----------------------------------------------------

  /** `trimmed` is a subject without space around it. */
  function WithPrefix(trimmed: string, prefix: string): string {
    if Lower(prefix) <= Lower(trimmed) then trimmed
    else if trimmed == "" then prefix + " (no subject)"
    else prefix + " " + trimmed
  }

  function PrefixedSubject(subject: string, prefix: string): string {
    WithPrefix(Trim(subject), prefix)
  }

  lemma TrimEnds(s: string)
    ensures var t := Trim(s); t == "" || (!IsSpace(t[0]) && !IsSpace(t[|t| - 1]))
  {
  }

  lemma TrimFixed(t: string)
    requires t == "" || (!IsSpace(t[0]) && !IsSpace(t[|t| - 1]))
    ensures Trim(t) == t
  {
  }

  lemma WithPrefixStands(trimmed: string, prefix: string)
    requires trimmed == "" || (!IsSpace(trimmed[0]) && !IsSpace(trimmed[|trimmed| - 1]))
    requires prefix != "" && !IsSpace(prefix[0])
    ensures var once := WithPrefix(trimmed, prefix);
            Trim(once) == once && Lower(prefix) <= Lower(once)
  {
    assert !IsSpace(')');
    hide IsSpace, Trim, Lower, LowerChar;
    var once := WithPrefix(trimmed, prefix);
    if Lower(prefix) <= Lower(trimmed) {
      TrimFixed(trimmed);
    } else if trimmed == "" {
      LowerStart(prefix, " (no subject)");
      TrimFixed(once);
    } else {
      assert once == prefix + (" " + trimmed);
      LowerStart(prefix, " " + trimmed);
      TrimFixed(once);
    }
  }

  /** Replying to a reply does not stack prefixes. */
  lemma PrefixIsNotDoubled(subject: string, prefix: string)
    requires prefix != "" && !IsSpace(prefix[0])
    ensures var once := PrefixedSubject(subject, prefix);
            PrefixedSubject(once, prefix) == once && Lower(prefix) <= Lower(once)
  {
    hide IsSpace, Trim, Lower;
    TrimEnds(subject);
    WithPrefixStands(Trim(subject), prefix);
  }

  lemma LowerStart(a: string, b: string)
    ensures Lower(a) <= Lower(a + b)
  {
    hide LowerChar;
  }

  function Quoted(lines: seq<string>): seq<string> {
    seq(|lines|, i requires 0 <= i < |lines| => "> " + lines[i])
  }

  function QuoteBlock(body: string): string {
    Join(Quoted(Lines(body)), "\n")
  }

  datatype Source = Source(
    threadId: Option<string>, messageId: string, fromAddr: string, fromName: Option<string>,
    to: seq<string>, cc: seq<string>, subject: string, bodyText: string, createdAt: string)

  function SenderLabel(src: Source): string {
    if src.fromName.Some? && Trim(src.fromName.value) != ""
    then Trim(src.fromName.value) + " <" + BareAddress(src.fromAddr) + ">"
    else BareAddress(src.fromAddr)
  }

  function ReplyText(text: string, date: string, who: string, body: string): string {
    TrimEnd(text) + "\n\nOn " + date + ", " + who + " wrote:\n" + QuoteBlock(body)
  }

  function ForwardText(src: Source, note: string): string {
    var header := "---------- Forwarded message ----------\nFrom: " + SenderLabel(src)
                  + "\nDate: " + src.createdAt + "\nSubject: " + src.subject + "\nTo: " + Join(src.to, ", ")
                  + (if src.cc == [] then "" else "\nCc: " + Join(src.cc, ", "));
    if Trim(note) == "" then header + "\n\n" + src.bodyText
    else TrimEnd(note) + "\n\n" + header + "\n\n" + src.bodyText
  }

  // ---- what these texts are ------------------------------------------------

  lemma LastIndexIs(s: string, c: char, k: nat)
    requires k < |s| && s[k] == c && c !in s[k + 1..]
    ensures LastIndexOf(s, c) == k
  {
    hide LastIndexOf;
    assert forall i | k < i < |s| :: s[i] == s[k + 1..][i - k - 1];
  }

  /** "Name <address>" gives the address in lower case, spaces dropped; so does a text that is all address. */
  lemma AddressIs(name: string, address: string)
    requires '<' !in address && '>' !in address
    ensures (name == "" || !IsSpace(name[0])) ==> BareAddress(name + "<" + address + ">") == Lower(Trim(address))
    ensures BareAddress(address) == Lower(Trim(address))
  {
    if name == "" || !IsSpace(name[0]) { NamedAddress(name, address); }
    PlainAddress(address);
    hide *;
  }

  lemma NamedAddress(name: string, address: string)
    requires '<' !in address && '>' !in address && (name == "" || !IsSpace(name[0]))
    ensures BareAddress(name + "<" + address + ">") == Lower(Trim(address))
  {
    hide *;
    NamedIsSolid(name, address);
    TrimFixed(name + "<" + address + ">");
    BracketsAt(name, address);
    AddressBetween(name + "<" + address + ">", |name|, |name| + 1 + |address|);
  }

  lemma NamedIsSolid(name: string, address: string)
    requires name == "" || !IsSpace(name[0])
    ensures var raw := name + "<" + address + ">"; !IsSpace(raw[0]) && !IsSpace(raw[|raw| - 1])
  {
    assert !IsSpace('<') && !IsSpace('>');
    hide IsSpace;
  }

  lemma AddressBetween(raw: string, opening: nat, closing: nat)
    requires Trim(raw) == raw && opening < closing < |raw|
    requires LastIndexOf(raw, '<') == opening && LastIndexOf(raw, '>') == closing
    ensures BareAddress(raw) == Lower(Trim(raw[opening + 1..closing]))
  {
    hide Trim, LastIndexOf, Lower;
  }

  lemma BracketsAt(name: string, address: string)
    requires '<' !in address && '>' !in address
    ensures var raw := name + "<" + address + ">";
            && LastIndexOf(raw, '<') == |name| && LastIndexOf(raw, '>') == |name| + 1 + |address|
            && raw[|name| + 1..|name| + 1 + |address|] == address
  {
    hide LastIndexOf;
    var raw := name + "<" + address + ">";
    assert raw[|name| + 1..] == address + ">" && raw[|name| + 2 + |address|..] == "";
    LastIndexIs(raw, '<', |name|);
    LastIndexIs(raw, '>', |name| + 1 + |address|);
  }

  lemma PlainAddress(address: string)
    requires '<' !in address && '>' !in address
    ensures BareAddress(address) == Lower(Trim(address))
  {
    TrimmedPart(address);
    TrimEnds(address);
    TrimFixed(Trim(address));
    hide Trim, Lower, IsSpace;
    var t := Trim(address);
    assert LastIndexOf(t, '<') < 0 by { hide LastIndexOf; }
    hide LastIndexOf;
  }

  lemma TrimmedPart(s: string)
    ensures forall c | c in Trim(s) :: c in s
  {
    var e := TrimEnd(s);
    var t := TrimStart(e);
    hide TrimEnd, TrimStart;
    forall c | c in t ensures c in s {
      var i :| 0 <= i < |t| && t[i] == c;
      assert e[|e| - |t| + i] == c && s[|e| - |t| + i] == c;
    }
  }

  /** A prefix is put in front unless the subject has it already, in any case; an empty subject gets a text. */
  lemma SubjectIs(subject: string, prefix: string)
    requires |prefix| > 0
    ensures var t := Trim(subject);
            var r := PrefixedSubject(subject, prefix);
            if |prefix| <= |t| && Lower(t[..|prefix|]) == Lower(prefix) then r == t
            else if t == "" then r == prefix + " (no subject)"
            else r == prefix + " " + t
  {
    var t := Trim(subject);
    hide Trim, LowerChar;
    if |prefix| <= |t| {
      assert Lower(t)[..|prefix|] == Lower(t[..|prefix|]);
    }
  }

  /** The quoted original of a reply: every line of it behind "> ". */
  lemma ReplyIs(text: string, src: Source)
    ensures exists quoted: seq<string> ::
              && |quoted| == |Lines(src.bodyText)|
              && (forall i | 0 <= i < |quoted| :: quoted[i] == "> " + Lines(src.bodyText)[i])
              && ReplyText(text, src.createdAt, SenderLabel(src), src.bodyText)
                 == TrimEnd(text) + "\n\nOn " + src.createdAt + ", " + SenderLabel(src) + " wrote:\n"
                    + Join(quoted, "\n")
  {
    hide Lines, Join, TrimEnd, SenderLabel;
    assert QuoteBlock(src.bodyText) == Join(Quoted(Lines(src.bodyText)), "\n");
  }

  /** The sender by name and address, or by address alone if the name is blank. */
  lemma LabelIs(src: Source)
    ensures src.fromName.None? || Trim(src.fromName.value) == "" ==> SenderLabel(src) == BareAddress(src.fromAddr)
    ensures src.fromName.Some? && Trim(src.fromName.value) != "" ==>
              SenderLabel(src) == Trim(src.fromName.value) + " <" + BareAddress(src.fromAddr) + ">"
  {
    hide Trim, BareAddress;
  }

  /** A forward carries the note, if any, then the header fields of the original in this order, then its body. */
  lemma ForwardIs(src: Source, note: string)
    ensures var fields := ["---------- Forwarded message ----------", "From: " + SenderLabel(src),
                           "Date: " + src.createdAt, "Subject: " + src.subject, "To: " + Join(src.to, ", ")]
                          + if src.cc == [] then [] else ["Cc: " + Join(src.cc, ", ")];
            var original := Join(fields, "\n") + "\n\n" + src.bodyText;
            ForwardText(src, note) == if Trim(note) == "" then original else TrimEnd(note) + "\n\n" + original
  {
    var a, b, c, d, e, f := "---------- Forwarded message ----------", "From: " + SenderLabel(src),
      "Date: " + src.createdAt, "Subject: " + src.subject, "To: " + Join(src.to, ", "), "Cc: " + Join(src.cc, ", ");
    JoinFields(a, b, c, d, e, f);
    FieldTexts(SenderLabel(src), src.createdAt, src.subject, Join(src.to, ", "), Join(src.cc, ", "));
    hide SenderLabel, Trim, TrimEnd, Join;
    var header := Join([a, b, c, d, e] + if src.cc == [] then [] else [f], "\n");
    assert src.cc == [] ==> [a, b, c, d, e] + [] == [a, b, c, d, e];
    var five := a + "\n" + b + "\n" + c + "\n" + d + "\n" + e;
    assert header == five + if src.cc == [] then "" else "\nCc: " + Join(src.cc, ", ");
    Onward(TrimEnd(note), header, src.bodyText);
  }

  lemma Onward(note: string, header: string, body: string)
    ensures note + "\n\n" + header + "\n\n" + body == note + "\n\n" + (header + "\n\n" + body)
  {
  }

  lemma FieldTexts(sender: string, date: string, subject: string, to: string, cc: string)
    ensures "---------- Forwarded message ----------\nFrom: " + sender + "\nDate: " + date + "\nSubject: " + subject
            + "\nTo: " + to
            == "---------- Forwarded message ----------" + "\n" + ("From: " + sender) + "\n" + ("Date: " + date) + "\n"
               + ("Subject: " + subject) + "\n" + ("To: " + to)
    ensures forall x :: x + ("\nCc: " + cc) == x + "\n" + ("Cc: " + cc)
  {
    var head := "---------- Forwarded message ----------";
    assert head + "\nFrom: " == "---------- Forwarded message ----------\nFrom: ";
    assert "\nFrom: " == "\n" + "From: " && "\nDate: " == "\n" + "Date: " && "\nSubject: " == "\n" + "Subject: ";
    assert "\nTo: " == "\n" + "To: " && "\nCc: " == "\n" + "Cc: ";
    Onto(head, "From: ", sender);
    var a := head + "\n" + ("From: " + sender);
    Onto(a, "Date: ", date);
    var b := a + "\n" + ("Date: " + date);
    Onto(b, "Subject: ", subject);
    Onto(b + "\n" + ("Subject: " + subject), "To: ", to);
    forall x ensures x + ("\nCc: " + cc) == x + "\n" + ("Cc: " + cc) {
      Onto(x, "Cc: ", cc);
      assert x + ("\n" + "Cc: ") + cc == x + ("\n" + "Cc: " + cc);
    }
  }

  lemma Onto(x: string, field: string, value: string)
    ensures x + ("\n" + field) + value == x + "\n" + (field + value)
  {
  }

  lemma JoinFields(a: string, b: string, c: string, d: string, e: string, f: string)
    ensures Join([a, b, c, d, e], "\n") == a + "\n" + b + "\n" + c + "\n" + d + "\n" + e
    ensures Join([a, b, c, d, e] + [f], "\n") == a + "\n" + b + "\n" + c + "\n" + d + "\n" + e + "\n" + f
  {
    assert Join([a], "\n") == a;
    hide Join;
    JoinSnoc([a], "\n", b);
    JoinSnoc([a, b], "\n", c);
    JoinSnoc([a, b, c], "\n", d);
    JoinSnoc([a, b, c, d], "\n", e);
    JoinSnoc([a, b, c, d, e], "\n", f);
    assert [a] + [b] == [a, b] && [a, b] + [c] == [a, b, c] && [a, b, c] + [d] == [a, b, c, d];
    assert [a, b, c, d] + [e] == [a, b, c, d, e];
  }

  // ---- the outgoing request ------------------------------------------------

  datatype Request = Request(
    from: string, to: seq<string>, cc: Option<seq<string>>, bcc: Option<seq<string>>,
    subject: string, text: string, html: Option<string>, attachments: Option<seq<string>>,
    threadId: Option<string>, inReplyTo: Option<string>)
  {
    function Cc(): seq<string> { if cc.Some? then cc.value else [] }
    function Bcc(): seq<string> { if bcc.Some? then bcc.value else [] }
  }

  datatype Outcome = Built(request: Request) | NoRecipient

  function NonEmpty<T>(s: seq<T>): Option<seq<T>> {
    if s == [] then None else Some(s)
  }

  /** No address appears twice anywhere, and the own address nowhere. */
  ghost predicate CleanRecipients(r: Request, own: string) {
    NoDuplicates(r.to + r.Cc() + r.Bcc()) && own !in r.to + r.Cc() + r.Bcc()
  }

  /** Who a reply addresses before anyone is left out, in order of preference. */
  function Wanted(src: Source, own: string, replyAll: bool, extraCc: seq<string>): seq<string> {
    var sender := BareAddress(src.fromAddr);
    if replyAll then [sender] + src.to + src.cc + extraCc
    else (if sender == own then src.to else [sender]) + extraCc
  }

  /**
   * Who sees a reply: the sender, or the recipients of one's own message; with "reply all" everyone the original was
   * sent to; and those added, but never oneself.
   */
  predicate Addressed(src: Source, own: string, replyAll: bool, extraCc: seq<string>, a: string) {
    var sender := BareAddress(src.fromAddr);
    && a != own
    && (a == sender || a in extraCc || (a in src.to && (replyAll || sender == own)) || (a in src.cc && replyAll))
  }

  lemma WhoIsHidden(to: seq<string>, cc: seq<string>, bcc: seq<string>, own: string)
    ensures var taken := {own} + (set a | a in to) + set a | a in cc;
            forall a :: a in Dedup(bcc, taken) <==> a in bcc && a != own && a !in to + cc
  {
    DedupCharacterised(bcc, {own} + (set a | a in to) + set a | a in cc);
    hide Dedup, NoDuplicates;
  }

  lemma WhoIsAddressed(src: Source, own: string, replyAll: bool, extraCc: seq<string>)
    ensures forall a :: a in Dedup(Wanted(src, own, replyAll, extraCc), {own}) <==>
                        Addressed(src, own, replyAll, extraCc, a)
  {
    hide BareAddress, Dedup;
    DedupCharacterised(Wanted(src, own, replyAll, extraCc), {own});
  }

  method BuildReply(src: Source, own: string, replyAll: bool, text: string, html: Option<string>,
                    extraCc: seq<string>, bcc: seq<string>)
    returns (r: Outcome)
    ensures r.NoRecipient? <==> BareAddress(src.fromAddr) == own && forall a | a in src.to :: a == own
    ensures r.Built? ==>
              var q := r.request;
              && q.to != [] && CleanRecipients(q, own)
              && q.to + q.Cc() == Dedup(Wanted(src, own, replyAll, extraCc), {own})
              && q.to == Dedup(if BareAddress(src.fromAddr) == own then src.to else [BareAddress(src.fromAddr)], {own})
              && q.to + q.Cc() + q.Bcc() == Dedup(q.to + q.Cc() + bcc, {own})
              && q.subject == PrefixedSubject(src.subject, "Re:")
              && q.text == ReplyText(text, src.createdAt, SenderLabel(src), src.bodyText)
              && q.from == own && q.html == html && q.attachments == None && q.threadId == src.threadId
              && q.inReplyTo == (if Trim(src.messageId) != "" then Some(src.messageId) else None)
              && q.cc != Some([]) && q.bcc != Some([])
              && (forall a :: a in q.to + q.Cc() <==> Addressed(src, own, replyAll, extraCc, a))
              && (forall a :: a in q.Bcc() <==> a in bcc && a != own && a !in q.to + q.Cc())
  {
    hide Dedup, BareAddress, Trim, NoDuplicates, Addressed, PrefixedSubject, ReplyText, SenderLabel, Without;
    var sender := BareAddress(src.fromAddr);
    var to := if sender == own then src.to else [sender];
    ghost var to0 := to;
    to := DedupExcluding(to, {own});
    var cc: seq<string> := [];
    if replyAll {
      cc := cc + src.to;
      cc := cc + src.cc;
      if sender != own {
        cc := Without(cc, sender);
      }
    }
    cc := cc + extraCc;
    var taken := {own} + set a | a in to;
    ghost var cc0 := cc;
    ghost var all := src.to + src.cc;
    assert [] + src.to + src.cc == all && [] + extraCc == extraCc;
    assert cc0 == (if !replyAll then [] else if sender == own then all else Without(all, sender)) + extraCc;
    cc := DedupExcluding(cc, taken);
    DedupCharacterised(to0, {own});
    if to == [] {
      assert sender != own ==> sender in to0;
      assert forall a | a in to0 :: a == own;
      r := NoRecipient;
      return;
    }
    assert to[0] in to0 && to[0] != own by { assert to[0] in to; }
    var takenBcc := {own} + (set a | a in to) + set a | a in cc;
    var hidden := DedupExcluding(bcc, takenBcc);
    VisibleRecipients(src, own, replyAll, extraCc);
    ThreeLists(to0, cc0, bcc, own);
    r := Built(Request(own, to, NonEmpty(cc), NonEmpty(hidden), PrefixedSubject(src.subject, "Re:"),
                       ReplyText(text, src.createdAt, SenderLabel(src), src.bodyText), html, None,
                       src.threadId, if Trim(src.messageId) != "" then Some(src.messageId) else None));
    assert r.request.Cc() == cc && r.request.Bcc() == hidden;
    WhoIsAddressed(src, own, replyAll, extraCc);
    WhoIsHidden(to, cc, bcc, own);
  }

  method BuildForward(src: Source, own: string, to: seq<string>, cc: seq<string>, bcc: seq<string>,
                      note: string, html: Option<string>, attachments: seq<string>)
    returns (r: Outcome)
    ensures r.NoRecipient? <==> forall a | a in to :: a == own
    ensures r.Built? ==>
              var q := r.request;
              && q.to != [] && CleanRecipients(q, own)
              && q.to == Dedup(to, {own})
              && q.to + q.Cc() == Dedup(to + cc, {own})
              && q.to + q.Cc() + q.Bcc() == Dedup(to + cc + bcc, {own})
              && q.subject == PrefixedSubject(src.subject, "Fwd:")
              && q.text == ForwardText(src, note)
              && q.from == own && q.html == html
              && q.attachments == (if attachments == [] then None else Some(attachments))
              && q.threadId == None && q.inReplyTo == None && q.cc != Some([]) && q.bcc != Some([])
  {
    var sendTo := DedupExcluding(to, {own});
    DedupCharacterised(to, {own});
    if sendTo == [] {
      assert forall a | a in to :: a == own;
      r := NoRecipient;
      return;
    }
    var taken := {own} + set a | a in sendTo;
    var copyTo := DedupExcluding(cc, taken);
    taken := taken + set a | a in copyTo;
    var hidden := DedupExcluding(bcc, taken);
    ThreeLists(to, cc, bcc, own);
    r := Built(Request(own, sendTo, NonEmpty(copyTo), NonEmpty(hidden), PrefixedSubject(src.subject, "Fwd:"),
                       ForwardText(src, note), html, NonEmpty(attachments), None, None));
  }

  /** Excluding what a deduplicated list kept is excluding the whole list. */
  lemma SameSeen(list: seq<string>, own: string)
    ensures {own} + (set a | a in Dedup(list, {own})) == {own} + set a | a in list
  {
    DedupCharacterised(list, {own});
  }

  /** Layering three deduplications equals one deduplication of the three lists. */
  lemma ThreeLists(to: seq<string>, cc: seq<string>, bcc: seq<string>, own: string)
    ensures var t := Dedup(to, {own});
            var c := Dedup(cc, {own} + set a | a in t);
            var b := Dedup(bcc, {own} + (set a | a in t) + set a | a in c);
            && t + c == Dedup(to + cc, {own})
            && t + c + b == Dedup(to + cc + bcc, {own}) == Dedup(t + c + bcc, {own})
            && NoDuplicates(t + c + b) && own !in t + c + b
  {
    var t := Dedup(to, {own});
    SameSeen(to, own);
    DedupAppend(to, cc, {own});
    var c := Dedup(cc, {own} + set a | a in t);
    assert t + c == Dedup(to + cc, {own});
    SameSeen(to + cc, own);
    assert {own} + (set a | a in t) + (set a | a in c) == {own} + set a | a in t + c;
    DedupAppend(to + cc, bcc, {own});
    DedupCharacterised(to + cc + bcc, {own});
    DedupAppend(t + c, bcc, {own});
    DedupFixed(t + c, {own}) by { DedupCharacterised(to + cc, {own}); }
  }

  lemma {:induction false} DedupFixed(list: seq<string>, seen: set<string>)
    requires NoDuplicates(list) && forall a | a in list :: a !in seen
    ensures Dedup(list, seen) == list
  {
    if list != [] {
      DedupFixed(list[1..], seen + {list[0]});
    }
  }

  lemma VisibleRecipients(src: Source, own: string, replyAll: bool, extraCc: seq<string>)
    ensures var sender := BareAddress(src.fromAddr);
            var to := if sender == own then src.to else [sender];
            var all := src.to + src.cc;
            var cc := (if !replyAll then [] else if sender == own then all else Without(all, sender)) + extraCc;
            Dedup(to + cc, {own}) == Dedup(Wanted(src, own, replyAll, extraCc), {own})
  {
    hide Dedup, BareAddress;
    var sender := BareAddress(src.fromAddr);
    if replyAll && sender != own {
      FirstThenOthers(sender, src.to + src.cc, extraCc, own);
      assert [sender] + (src.to + src.cc + extraCc) == [sender] + src.to + src.cc + extraCc;
    } else if replyAll {
      OwnMessage(src.to, src.cc, extraCc, own);
    } else {
      assert [] + extraCc == extraCc;
    }
  }

  lemma FirstThenOthers(sender: string, all: seq<string>, extra: seq<string>, own: string)
    requires sender != own
    ensures Dedup([sender] + (Without(all, sender) + extra), {own}) == Dedup([sender] + (all + extra), {own})
  {
    var seen := {own} + set a | a in [sender];
    DedupAppend([sender], Without(all, sender) + extra, {own});
    DedupAppend([sender], all + extra, {own});
    WithoutSeen(all, extra, seen, sender);
  }

  /** Writing to one's own message: its recipients head the list and the own address is dropped. */
  lemma OwnMessage(to: seq<string>, cc: seq<string>, extra: seq<string>, own: string)
    ensures Dedup(to + (to + cc + extra), {own}) == Dedup([own] + to + cc + extra, {own})
  {
    var seen := {own} + set a | a in to;
    var rest := to + cc + extra;
    DedupAppend(to, rest, {own});
    DedupAppend(to, cc + extra, {own});
    assert to + (cc + extra) == rest;
    DedupRepeats(to, cc + extra, seen);
    assert ([own] + to + cc + extra)[1..] == rest;
  }

  lemma WithoutSeen(list: seq<string>, rest: seq<string>, seen: set<string>, a: string)
    requires a in seen
    ensures Dedup(Without(list, a) + rest, seen) == Dedup(list + rest, seen)
  {
    DedupIgnoresSeen(list, seen, a);
    DedupAppend(list, rest, seen);
    DedupAppend(Without(list, a), rest, seen);
    assert forall x :: x in Without(list, a) <==> x in list && x != a by { WithoutMembers(list, a); }
    assert seen + (set x | x in Without(list, a)) == seen + set x | x in list;
  }

  lemma WithoutMembers(list: seq<string>, a: string)
    ensures forall x :: x in Without(list, a) <==> x in list && x != a
  {
  }

  lemma {:induction false} DedupRepeats(list: seq<string>, rest: seq<string>, seen: set<string>)
    requires forall a | a in list :: a in seen
    ensures Dedup(list + rest, seen) == Dedup(rest, seen)
  {
    if list == [] {
      assert list + rest == rest;
    } else {
      assert (list + rest)[1..] == list[1..] + rest;
      DedupRepeats(list[1..], rest, seen);
    }
  }
}
