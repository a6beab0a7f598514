# Aivory Mail: verified models

Aivory Mail is a mail server and web client. This project models the parts of it whose behaviour is spread over loops,
states and several files, and proves what they keep: the Google Calendar replication, the mail text transformers, the
SMTP ingress session, the compose-and-send protocol, signature switching, key sequences, new-mail announcements, inbox
filters and reply recipients. Code that works step by step is a method or a class here, proved against a function or a
relation; the laws are lemmas about those. Where a law that one would expect does not hold, the code is kept as it is,
the exact condition under which the law holds is proved, and a witness shows a failure.

| file | models |
|---|---|
| Text.dfy | string operations that the others share |
| Linkify.dfy, LinkifyLaws.dfy | `linkify_bare_urls` |
| Entities.dfy, Escaping.dfy, SigText.dfy, SigTwins.dfy, Numerals.dfy | UTF-8, the two entity decoders, `strip_tags`, `escapeHtml` |
| Drafting.dfy, DraftingLaws.dfy, QuoteLaws.dfy | `strip_quoted`, `render_transcript`; quoting and unquoting across crates |
| Reply.dfy | `build_reply`, `build_forward` |
| Smtp.dfy, SmtpLaws.dfy, SmtpLines.dfy | `handle_smtp` |
| SendProtocol.dfy, SendLaws.dfy | `actuallySend`, `cancelPending`, `send` with `claim_send`, `finish_send` |
| Signature.dfy | `stripBaked`, `appendSigBlock`, `quoteStart`, `pickSig` (plain text) |
| KeySequences.dfy | `advanceSequence` |
| NewMail.dfy, NewMailRemovals.dfy | the inbox poll, `pickNewMessages`, `buildPopUps` |
| Filters.dfy | `matches`, `resolve_folder`, `resolve_action` |
| CalendarStore.dfy, CalendarSync.dfy, CalendarPasses.dfy | events, links and sync token; whole runs of sync passes; every `sync_account` as such a run |

What turned out not to hold as one would expect:

- Linkifying twice changes a text exactly if some bare URL in it has a '/' right before its first '>': the anchor's
  opening tag then ends in '/', and is not counted as open (`LinkifyIdempotentIff`, `LinkifyNotIdempotent`).
- A link always has a scheme, "https://" being put before "www.", except where the URL is only "www" and punctuation is
  all that follows: its link is relative (`LinkIs`, `NoScheme`).
- The Rust and the TypeScript entity decoders differ on names in capitals, on numerals with '+', on numerals that are no
  Unicode scalar value, and on `&constructor;`, which the table of names inherits from Object.prototype so that the text
  of a function is written (`SameEntityIff`, `TwinsDiffer`). They agree on a text exactly if it holds none of these
  (`TwinsAgreeIff`).
- An address with '>' before '<' ends an SMTP session without a reply (`PanicIff`); an empty message is not seen to end
  (`EndOfDataIff`); MAIL and RCPT outlive a delivered message (`EnvelopeSurvivesMessage`).
- A message can leave twice. Deliveries stay within the successful answers and the open request exactly if no key has
  left that the page was given a definitive failure for (`NoExtraDeliveryIff`); "send_outcome_unknown" and the 500 of
  a send task that dies after dispatching are such failures (`BoundIsTight`, `DeathLeavesTwice`).
- Switching signatures stacks them in an empty draft, and takes out the wrong copy if the quote ends with the same
  signature (`StripUndoesAppendIff`, `EmptyDraftStacks`, `QuotedCopyIsLost`).
- Key sequences can be typed in time and missed, unless all have one key, or all have more, none is a proper prefix of
  another and first keys occur nowhere later (`NoneMissedIff`, `OverlapIsMissed`).
- More than ten arrivals between polls are announced only in part (`AnnouncedOnce`). A run announces something twice
  exactly if at some poll the newest message seen is off the page while something announced before is on it
  (`AnnouncedTwiceIff`, `AnnouncedAgain`); where nothing there was announced before, it announces for the first time
  what was in the baseline or skipped (`RepeatsIff`, `BaselineIsAnnounced`).
- Without a 410 and local edits of linked events every cancellation arrives (`TokenPassesConverge`); one that is not
  applied when the calendar token expires is lost until Google changes the event again or the user deletes it
  (`ExpiredTokenMisses`). A pass cut between its two inserts leaves a copy (`CutLeavesCopy`), and what the user edits
  between the push query and the next pull is set back to what was posted (`PushedComesBack`).
  migrations/031_calendar_google_sync.sql says that edits of imported events push back to Google; no code does that.

## Model

| member | source | states |
|---|---|---|
| Linkify.LinkifyBareUrls | crates/aivory-mail-core/src/parser.rs:74-149 | the index loop writes, for any HTML, the rendering of its segments: tags, anchor contents and plain characters as they are, each other piece as one anchor |
| Linkify.UrlEnd | crates/aivory-mail-core/src/parser.rs:108-129 | scanning, trimming and counting parentheses stop at the same place as scanning and trimming alone: the branch for an unbalanced ')' never acts |
| Linkify.OnlyWraps | crates/aivory-mail-core/src/parser.rs:70-73 | the segments put together are the input, and every linked piece is a non-empty URL text without stop characters or trailing punctuation |
| Linkify.UrlStartAdvances | crates/aivory-mail-core/src/parser.rs:107-144 | wherever a URL starts, at least three characters are consumed |
| Linkify.AnchorContentsCopied | crates/aivory-mail-core/src/parser.rs:70-73 | text inside an anchor is copied whatever it looks like |
| Linkify.LinkifyIdempotentIff | crates/aivory-mail-core/src/parser.rs:74-162 | linkifying twice equals linkifying once if and only if no linked URL has '/' right before its first '>' |
| Linkify.LinkifyNotIdempotent | crates/aivory-mail-core/src/parser.rs:95-101 | `http://>` is such a URL, and linkifying it twice differs |
| LinkifyLaws.LinkIs | crates/aivory-mail-core/src/parser.rs:107-142 | wherever a bare URL starts outside anchors one anchor comes of it: where it ends, character by character; its target is the URL with "&amp;" read as "&", behind "https://" if it begins with "www."; its attributes; the URL itself as its text; and the target has a scheme if and only if the URL is not "www" |
| LinkifyLaws.NoScheme | crates/aivory-mail-core/src/parser.rs:114-135 | such a URL: "www.." links to the relative "www" |
| LinkifyLaws.OthersCopied | crates/aivory-mail-core/src/parser.rs:143-146 | everything else outside tags is copied |
| LinkifyLaws.OpeningCounts | crates/aivory-mail-core/src/parser.rs:88-101 | an opening tag opens an anchor exactly if its name is "a" in either case and it does not end in a slash |
| LinkifyLaws.ClosingCounts | crates/aivory-mail-core/src/parser.rs:88-101 | a closing tag closes one exactly if its name is "a" in either case |
| LinkifyLaws.AnchorStands | crates/aivory-mail-core/src/parser.rs:70-73 | a whole anchor of the sender stays as it is, and what follows is linkified as if it were not there |
| Entities.DecodeEntities | crates/aivory-mail-api/src/mcp_reply.rs:147-187 | on the UTF-8 bytes of any text the byte loop ends and yields the bytes of the per-character decoding; every slice goes through Slice, which may only be called at character boundaries |
| Entities.DecodeAmp | crates/aivory-mail-api/src/mcp_reply.rs:161-186 | at an '&' it takes whole characters off the text and emits what makes the decoding of the text from the decoding of the rest |
| Entities.SkipText | crates/aivory-mail-api/src/mcp_reply.rs:152-160 | stepping by the length in the first byte passes over whole characters up to the next '&' |
| Entities.EntityOfBytes | crates/aivory-mail-api/src/mcp_reply.rs:161-176 | an entity body means the same read as bytes or as characters, non-ASCII bodies included |
| Entities.FirstByteTellsLength | crates/aivory-mail-api/src/mcp_reply.rs:189-191 | the first byte of every character gives its length, and only ASCII characters have bytes below 128 |
| Entities.DecodedNotLonger | crates/aivory-mail-api/src/mcp_reply.rs:147-187 | decoding never lengthens a text, in characters or in bytes |
| Entities.Utf8Injective | crates/aivory-mail-api/src/mcp_reply.rs:147-160 | one byte sequence is the encoding of at most one text |
| Numerals.NumeralIsRead | crates/aivory-mail-api/src/mcp_reply.rs:170-174 | both decoders read a numeral as the sum of its figures times the powers of ten or sixteen, figures in either case; without such a character Rust keeps it as it is |
| Numerals.CharacterRoundTrip | crates/aivory-mail-api/src/mcp_reply.rs:170-174 | every character written as a decimal or hexadecimal reference is decoded to itself, by both decoders |
| Numerals.NamesAreRead | crates/aivory-mail-api/src/mcp_reply.rs:163-169 | the six names and what each stands for, in lower case for Rust and any case for TypeScript; Rust knows no others |
| Escaping.StripTags | crates/aivory-mail-api/src/mcp_reply.rs:193-205 | the loop decodes exactly the text outside tags |
| Escaping.StrippedIs | crates/aivory-mail-api/src/mcp_reply.rs:193-205 | what is kept is exactly the characters that are no angle brackets and whose last bracket before them, if any, is a closing one |
| Escaping.EscapeIsPerChar | web/components/ComposeModal.tsx:189-191 | three global replacements in a row escape each character once |
| Escaping.StripEscaped | crates/aivory-mail-api/src/mcp_reply.rs:193-205 | `strip_tags` gives back any text that `escapeHtml` escaped |
| SigText.SameEntityIff | web/components/sigText.ts:12-23 | body by body, the TypeScript decoder does what the Rust one does unless it is a name not in lower case, the inherited name "constructor" in any case, a numeral with '+', or a numeral that is no scalar value |
| SigTwins.TwinsAgreeIff | web/components/sigText.ts:15-23 | the two decoders agree on a text if and only if it holds no such body: two differences never cancel out |
| SigText.TwinsDiffer | web/components/sigText.ts:12-23 | each of the four exceptions occurs |
| SigText.DecodeUndoesEscape | web/components/sigText.ts:15-23 | the TypeScript decoder undoes `escapeHtml` on every text |
| Drafting.StripQuoted | crates/aivory-mail-core/src/drafting.rs:50-68 | the loop with its break keeps the lines of the recursive scan |
| DraftingLaws.KeptLines | crates/aivory-mail-core/src/drafting.rs:50-68 | the lines up to the first that opens a quotation in one of the four ways, any case, without those that begin with '>' behind any space |
| Drafting.AttributionIgnoresTrailingSpace | crates/aivory-mail-core/src/drafting.rs:50-66 | space at the end of a line does not change whether it is an attribution or a quote |
| Drafting.RenderTranscript | crates/aivory-mail-core/src/drafting.rs:71-96 | the result joins the longest run of newest blocks that fits the budget, and at least one block |
| DraftingLaws.TranscriptIs | crates/aivory-mail-core/src/drafting.rs:71-96 | it is the newest messages, at most eight, in order between rulers: as many as fit 12000 characters, always the newest |
| DraftingLaws.BlockIs | crates/aivory-mail-core/src/drafting.rs:73-82 | each with sender, date and at most 2500 characters of its own lines at their places, fence tags defused in one pass |
| Drafting.PackingIsUnique | crates/aivory-mail-core/src/drafting.rs:83-95 | there is only one such run |
| Drafting.ReplaceLeavesNone | crates/aivory-mail-core/src/drafting.rs:79-80 | a replacement leaves no occurrence of its pattern and makes none of the other tag |
| Drafting.TranscriptHasNoFence | crates/aivory-mail-core/src/drafting.rs:71-96 | no sender, date or body puts a conversation tag into the transcript, across block boundaries either |
| Drafting.FenceClosesOnce | crates/aivory-mail-core/src/drafting.rs:118-121 | in the user turn the first closing tag is the one that the code wrote, and nothing opens another before it |
| QuoteLaws.UnquotedReply | crates/aivory-mail-api/src/mcp_reply.rs:249-255 | for every reply text and original, `strip_quoted` of the built reply is `strip_quoted` of the reply text alone, given date and sender label without line breaks |
| QuoteLaws.ConversationContributions | crates/aivory-mail-core/src/drafting.rs:50-68 | hence along any chain of replies each message contributes its own text only |
| Reply.DedupExcluding | crates/aivory-mail-api/src/mcp_reply.rs:129-133 | the loop drops exclusions and repeats |
| Reply.DedupCharacterised | crates/aivory-mail-api/src/mcp_reply.rs:129-133 | exactly the elements that are not excluded, each once, in the order of their first appearance |
| Reply.BuildReply | crates/aivory-mail-api/src/mcp_reply.rs:216-268 | fails exactly if To would be empty; To, Cc and Bcc together have no repeats and never the own address; To plus Cc is sender, original To and Cc and extra Cc in first-seen order, address by address who is among them and who in Bcc |
| Reply.BuildForward | crates/aivory-mail-api/src/mcp_reply.rs:271-315 | fails exactly if no recipient but the own address is given; the three lists together are the given ones without repeats and own |
| Reply.VisibleRecipients | crates/aivory-mail-api/src/mcp_reply.rs:225-240 | retaining, extending and deduplicating in layers equals deduplicating the wanted list once |
| Reply.PrefixIsNotDoubled | crates/aivory-mail-api/src/mcp_reply.rs:118-127 | a prefixed subject carries the prefix, and prefixing it again changes nothing |
| Reply.AddressIs | crates/aivory-mail-api/src/mcp_reply.rs:77-85 | "Name <address>" and a bare address both give the address in lower case without space |
| Reply.SubjectIs | crates/aivory-mail-api/src/mcp_reply.rs:118-127 | the prefix is added unless there in any case; an empty subject gets a text |
| Reply.ReplyIs | crates/aivory-mail-api/src/mcp_reply.rs:249-255 | text, attribution with date and sender, and every line of the original behind "> " |
| Reply.LabelIs | crates/aivory-mail-api/src/mcp_reply.rs:207-212 | the sender by name and address, or by address if the name is blank |
| Reply.ForwardIs | crates/aivory-mail-api/src/mcp_reply.rs:293-305 | note, header fields in order, Cc only if there is one, and the body |
| Smtp.HandleSmtp | crates/aivory-mail-smtp/src/main.rs:28-98 | the read loop writes, asks and forwards what the step machine does, from the greeting on |
| Smtp.PathIsRead | crates/aivory-mail-smtp/src/main.rs:100-106 | a well-formed path gives the trimmed address between its brackets |
| SmtpLines.PathIs | crates/aivory-mail-smtp/src/main.rs:100-106 | with or without brackets: the trimmed text between the first two brackets, or else the field behind the first colon without brackets at its ends |
| SmtpLines.AddressLines | crates/aivory-mail-smtp/src/main.rs:67-78 | a line that begins with MAIL FROM: or RCPT TO: in any case sets the sender, or asks about the recipient and sets it or clears it, with its reply |
| SmtpLines.PlainLines | crates/aivory-mail-smtp/src/main.rs:65-95 | what every other line does and is answered: EHLO, HELO, DATA, QUIT, RSET, in any case, and all else |
| SmtpLines.SessionFromLines | crates/aivory-mail-smtp/src/main.rs:36-95 | in every session every message is forwarded from the address on the last MAIL line and to that on the last accepted RCPT line since the last RSET line, and the resolver is asked about RCPT lines only |
| SmtpLaws.DataIgnoresChunks | crates/aivory-mail-smtp/src/main.rs:40-62 | after 354, for every split into reads: nothing happens before the first CRLF "." CRLF of the whole, then the bytes before it are forwarded with the session's envelope and answered |
| SmtpLaws.SplitsAgree | crates/aivory-mail-smtp/src/main.rs:40-62 | two splits of the same bytes forward the same message |
| SmtpLaws.EndOfDataIff | crates/aivory-mail-smtp/src/main.rs:42-46 | this is the end of data of section 4.1.1.4 of RFC 5321 unless the data begins with "." CRLF |
| SmtpLaws.SessionIsSafe | crates/aivory-mail-smtp/src/main.rs:36-95 | in every session data mode means that 354 was said last to an accepted non-empty recipient, every forward goes to one and is answered next, "250 OK queued" directly follows a stored message, and RCPT is answered as the resolver decided |
| SmtpLaws.OneReplyEach | crates/aivory-mail-smtp/src/main.rs:36-95 | replies number the commands and completed messages, less one exactly if the session panicked |
| SmtpLaws.PanicIff | crates/aivory-mail-smtp/src/main.rs:100-106 | it panics exactly on MAIL FROM or RCPT TO lines whose first '>' precedes their first '<' |
| SmtpLaws.SessionEnvelope | crates/aivory-mail-smtp/src/main.rs:67-92 | the envelope is the last MAIL and the last RCPT since the last RSET, the latter only if accepted |
| SmtpLaws.EnvelopeSurvivesMessage | crates/aivory-mail-smtp/src/main.rs:57-86 | after a message, DATA alone is accepted again |
| SendProtocol.Compose.ActuallySend | web/components/ComposeModal.tsx:558-567 | posts nothing while a request is open or nothing is pending, else the pending payload under the kept key or a new one |
| SendProtocol.Compose.Settled | web/components/ComposeModal.tsx:568-584 | the key is dropped exactly on success or a failure other than send_in_progress |
| SendProtocol.SendGuard.ClaimSend | crates/aivory-mail-api/src/mail/send_guard.rs:143-234 | claims, replays or refuses as the stored attempt says |
| SendLaws.RetryIsReplayed | crates/aivory-mail-api/src/mail/send_guard.rs:121-125 | once a message left and that was recorded, in every later run a request under its key gets success if it is the same message, a conflict if not, and changes nothing |
| SendLaws.FailureIsRetried | crates/aivory-mail-api/src/mail/send_guard.rs:126-127 | after a recorded failure the next request for the message starts a task |
| SendLaws.PendingIsRefused | crates/aivory-mail-api/src/mail/send_guard.rs:128-137 | while a task runs, and for ever after one that ended unrecorded, requests are told "in progress" or, late, "outcome unknown" |
| SendLaws.FirstStarts | crates/aivory-mail-api/src/mail/send_guard.rs:153-179 | the first request under a key starts a task |
| SendLaws.TaskAnswers | crates/aivory-mail-api/src/api/send.rs:52-72 | a task answers success exactly if the message left by it |
| SendLaws.AnswerFreesPage | web/components/ComposeModal.tsx:568-584 | after any answer or none the page may send again, under the same key only after "in progress" or no answer |
| SendLaws.UndoTakesBack | web/components/ComposeModal.tsx:551-556 | what is pending is taken back: the timer then posts nothing, and it counts as cancelled if it was not posted |
| SendLaws.NextPost | web/components/ComposeModal.tsx:558-567 | it then posts the message just submitted, under the key kept or one never used |
| SendLaws.LostAnswerRetried | web/components/ComposeModal.tsx:568-584 | a run: the first answer is lost, the retry succeeds, and the message left once |
| SendProtocol.InvRun | web/components/ComposeModal.tsx:551-585 | the invariants below hold along every interleaving of page, network and server |
| SendProtocol.OneRequestAtATime | web/components/ComposeModal.tsx:559-564 | at most one request is open, exactly while `inFlight`, and all keys but the current were answered definitively, in order |
| SendProtocol.NewKeyNeedsAnswer | web/components/ComposeModal.tsx:395-398 | a new key is minted only when every earlier one has been answered definitively |
| SendProtocol.CancelledNeverSent | web/components/ComposeModal.tsx:551-556 | what is taken back before it is posted is never posted |
| SendProtocol.DeliveriesBounded | crates/aivory-mail-api/src/mail/send_guard.rs:113-234 | under one key a message leaves at most once, success answers are true, and deliveries are at most definitive answers plus one |
| SendProtocol.DeliveriesAre | crates/aivory-mail-api/src/mail/send_guard.rs:143-234 | in every run deliveries number the keys that were answered definitively, less those refused, plus the refused ones that left, plus one if the open key has left |
| SendProtocol.NoExtraDeliveryIff | web/components/ComposeModal.tsx:568-584 | in every run nothing leaves beyond the accepted keys and the open one if and only if no key has left that was answered with a definitive failure |
| SendProtocol.BoundIsTight | web/components/ComposeModal.tsx:568-571 | an instance, which meets that bound: the first answer is lost, the retry gets "send_outcome_unknown", and a third try leaves again |
| SendProtocol.DeathLeavesTwice | crates/aivory-mail-api/src/api/send.rs:52-72 | another: the send task dies after dispatching, the page gets its 500 and sends again |
| Signature.Editor.PickSig | web/components/ComposeModal.tsx:323-342 | strips the baked block, appends the chosen one and remembers it |
| Signature.FirstPickPuts | web/components/ComposeModal.tsx:312-321 | where the first pick puts the delimiter line and the signature, in all four cases |
| Signature.AttributionIff | web/components/ComposeModal.tsx:291-294 | which texts open a quotation |
| Signature.NoBreakSpacesFound | web/components/ComposeModal.tsx:301-306 | a block whose spaces became no-break spaces is still taken out, and nothing else |
| Signature.TrailingSpaceForgiven | web/components/ComposeModal.tsx:307-309 | a block at the end is taken out even if white space at its own end got lost |
| Signature.AbsentStays | web/components/ComposeModal.tsx:295-310 | a draft without the block stays as it is |
| Signature.StripUndoesAppendIff | web/components/ComposeModal.tsx:295-321 | removing after inserting restores the draft if and only if it is not empty and, where it quotes, the quote does not end in the block and the text from the block's first occurrence to the inserted one commutes with the block |
| Signature.CommutingRepeat | web/components/ComposeModal.tsx:298-300 | such text and the block are repetitions of one text |
| Signature.DelimiterFreeRestores | web/components/ComposeModal.tsx:295-321 | non-empty drafts and trimmed signatures without the delimiter are always restored |
| Signature.PicksFromStart | web/components/ComposeModal.tsx:323-342 | after any sequence of picks the body is the original draft with only the last signature |
| Signature.EmptyDraftStacks | web/components/ComposeModal.tsx:319-320 | two picks in an empty draft leave both signatures |
| Signature.QuotedCopyIsLost | web/components/ComposeModal.tsx:295-297 | a quote ending with the same signature is cut instead |
| Signature.QuotedCopyInstance | web/components/ComposeModal.tsx:295-297 | such a quote, letter by letter |
| KeySequences.Sound | web/components/commandSearch.ts:87-104 | in every run the buffer is empty or the latest unused presses, in time and a proper prefix of a sequence, and each firing is spelled by presses that no earlier firing used |
| KeySequences.PairFiresIff | web/components/commandSearch.ts:87-104 | with sequences of two, a press fires exactly if it completes an unused pair in time |
| KeySequences.NoneMissedIff | web/components/commandSearch.ts:87-104 | every sequence spelled in time, also with presses that an earlier firing used, fires in every run if and only if all sequences have one key, or all have more, none is a proper prefix of another and no first key occurs later in any |
| KeySequences.AlwaysInBuffer | web/components/commandSearch.ts:94-99 | what always fires is in the buffer, but for its last key, whatever was typed before it |
| KeySequences.SpelledFires | web/components/commandSearch.ts:87-104 | on such sets each firing is the spelled sequence, on its last key |
| KeySequences.OverlapIsMissed | web/components/commandSearch.ts:100-103 | an instance: x x y after an x does not fire |
| NewMail.Notifier.OnPoll | web/components/useNewMailNotifications.ts:191-212 | one poll updates the two refs and yields the fresh batch |
| NewMail.RunAnnounces | web/components/useNewMailNotifications.ts:191-212 | on an inbox that only grows a run announces, oldest first, the newest ten of what arrived between polls that got through |
| NewMail.AnnouncedOnce | web/components/newMailNotify.ts:31-35 | nothing is announced twice or up to the baseline, and everything after it if and only if at most ten arrive between such polls |
| NewMailRemovals.RepeatsIff | web/components/useNewMailNotifications.ts:208-212 | on an inbox that loses messages, a poll announces something that was in the inbox at the poll before exactly if that poll's newest message is off the page and another one from it is on it |
| NewMailRemovals.AnnouncedTwiceIff | web/components/newMailNotify.ts:26-35 | a run announces a message twice if and only if at some poll the newest seen one is off the page and one announced before is on it |
| NewMailRemovals.NothingTwice | web/components/newMailNotify.ts:26-35 | a run in which the newest seen message never leaves the page before the others announces nothing twice |
| NewMailRemovals.AnnouncedAgain | web/components/newMailNotify.ts:26-35 | a run of three polls in which a message is announced twice |
| NewMailRemovals.BaselineIsAnnounced | web/components/useNewMailNotifications.ts:208-212 | a run that loses the mark and announces a message of the baseline, but nothing twice |
| NewMail.BuildPopUps | web/components/newMailNotify.ts:50-71 | a summary of the rest, then the newest three; together they count the whole batch |
| NewMail.NewestOnTop | web/components/newMailNotify.ts:50-61 | the newest message's pop-up comes last |
| NewMail.PopUpSays | web/components/newMailNotify.ts:37-43 | a pop-up shows the trimmed sender and preview, or stands in for what is blank |
| Filters.CriterionNarrows | crates/aivory-mail-core/src/filters.rs:19-36 | a rule matches exactly if each of its criteria holds, so one more only narrows it |
| Filters.CaseIgnored | crates/aivory-mail-core/src/filters.rs:34 | the case of letters changes no match |
| Filters.CriteriaRead | crates/aivory-mail-core/src/filters.rs:19-36 | which part of the mail each criterion reads, case apart, and which criteria ask nothing |
| Filters.ResolveFolder | crates/aivory-mail-core/src/filters.rs:40-60 | the folder of the matching, decisive rule with least (priority, position), none if no rule decides |
| Filters.ResolveAction | crates/aivory-mail-core/src/filters.rs:62-86 | the same for actions |
| Filters.FolderIs | crates/aivory-mail-core/src/filters.rs:46-57 | which folder an action names, legacy strings included |
| Filters.ActionIs | crates/aivory-mail-core/src/filters.rs:68-84 | which of several entries of an action counts |
| Filters.LowestDecides | crates/aivory-mail-core/src/filters.rs:38-43 | the rule that decides has the lowest priority number, the first of equals |
| Filters.SortedIsInOrder | crates/aivory-mail-core/src/filters.rs:42-43 | the stable sort lists every rule once, by (priority, position) |
| Filters.DecisionIsUnique | crates/aivory-mail-core/src/filters.rs:38-40 | there is only one such decision |
| Filters.TiesDecide | crates/aivory-mail-core/src/filters.rs:41-43 | rearranging rules without swapping equal priorities changes no decision |
| Filters.SameDecisionIff | crates/aivory-mail-core/src/filters.rs:46-57 | exactly which actions the two resolvers read alike |
| Filters.OnlyMovesAreAlike | crates/aivory-mail-core/src/filters.rs:46-57 | actions with only move and folder are among those |
| Filters.ResolversAgree | crates/aivory-mail-core/src/filters.rs:40-86 | on such rules they resolve alike |
| CalendarStore.Store.UpsertFromGoogle | crates/aivory-mail-api/src/calendar_google.rs:350-394 | one entry is passed over, deletes the linked pair, updates the linked event, or inserts a pair |
| CalendarStore.EntryIsStored | crates/aivory-mail-api/src/calendar_google.rs:362-391 | a live entry becomes an event with its fields one by one, their defaults included, under its link, and nothing else changes |
| CalendarStore.Store.PullGoogleEvents | crates/aivory-mail-api/src/calendar_google.rs:277-321 | pages are applied in order until the last, a 410 or an error; the last token wins |
| CalendarStore.Store.PushLocalEvents | crates/aivory-mail-api/src/calendar_google.rs:486-539 | exactly the unlinked local events are read, posted one after the other and linked if created; what was sent is part of the result, and after a push whose posts were all created no event of the user is without link |
| CalendarStore.SentAreRows | crates/aivory-mail-api/src/calendar_google.rs:518-525 | the payloads sent are the fields of the rows as read, in order and each once, all of them if no post fails |
| CalendarStore.PushPosts | crates/aivory-mail-api/src/calendar_google.rs:486-539 | a push posts the fields of the user's events without a link, each once and no others |
| CalendarStore.PushLinksAll | crates/aivory-mail-api/src/calendar_google.rs:518-537 | if it gets through and all posts are created, each of the user's events has a link |
| CalendarStore.PushGetsThrough | crates/aivory-mail-api/src/calendar_google.rs:518-537 | it gets through if every post is created under a new id |
| CalendarStore.PushSound | crates/aivory-mail-api/src/calendar_google.rs:457-480 | links stay one-to-one and belong to events |
| CalendarStore.Store.SyncAccount | crates/aivory-mail-api/src/calendar_google.rs:266-271 | pull, push, then the token; an error stops it there |
| CalendarStore.BatchReflected | crates/aivory-mail-api/src/calendar_google.rs:350-394 | after a batch with distinct ids the tables say what every entry of it says |
| CalendarStore.BatchIdempotent | crates/aivory-mail-api/src/calendar_google.rs:350-394 | applying such a batch again changes nothing |
| CalendarSync.AlwaysOrderly | crates/aivory-mail-api/src/calendar_google.rs:457-539 | in every run links are one-to-one and belong to events, nothing pulled is posted, nothing is posted again once recorded, and an event from Google is without link exactly if a pass was cut between its two inserts |
| CalendarSync.Converges | crates/aivory-mail-api/src/calendar_google.rs:266-321 | in every run, for every id that is not excused and unchanged since the stored token: one linked event with Google's latest fields if live, none otherwise |
| CalendarSync.CompletedPass | crates/aivory-mail-api/src/calendar_google.rs:251-271 | a pass that completes stores the point where it started |
| CalendarSync.CompletedPushLinks | crates/aivory-mail-api/src/calendar_google.rs:486-539 | in every run from the push query on, if no post is refused the pass completes only when each of the user's events that was there at the query, and still is, has a link |
| CalendarSync.ExcusedOnlyBy | crates/aivory-mail-api/src/calendar_google.rs:283-293 | only user changes to linked events and ids that a full listing leaves out are ever excused |
| CalendarSync.TokenPassesConverge | crates/aivory-mail-api/src/calendar_google.rs:266-321 | without a 410 and user changes to linked events nothing becomes excused: every run of passes with a token, cut or not, mirrors every id unchanged since it |
| CalendarSync.PushedComesBack | crates/aivory-mail-api/src/calendar_google.rs:383-386 | a pushed event reported back finds its original and sets it to what was posted, which changes nothing exactly if the user has not edited it since the push query |
| CalendarPasses.PullIs | crates/aivory-mail-api/src/calendar_google.rs:294-320 | a pull applies the entries of all pages up to its end in order, however they are split, and then keeps the token, clears it at a 410, or breaks off |
| CalendarPasses.SyncRefines | crates/aivory-mail-api/src/calendar_google.rs:266-271 | whatever a pass does, ended by its last page, a 410, an error or a lost answer to a post, the tables are those of a run of the steps |
| CalendarSync.ExpiredTokenMisses | crates/aivory-mail-api/src/calendar_google.rs:297-301 | a linked event that is not live at Google when the token expires stays, linked and unpromised, through every later run, until Google changes it again or the user deletes it |
| CalendarSync.CutLeavesCopy | crates/aivory-mail-api/src/calendar_google.rs:387-391 | after a cut between the two inserts in any state, in every run after it, the event stays as it is without link until the user touches it, and what mirrors the entry is another event |

## Left out

- Letter case is folded for ASCII only, here and in the comparisons with TypeScript; Unicode lower-casing, which can
  change the length of a text, is not modelled.
- Linkify.LinkifyIdempotentIff: takes `char::is_alphanumeric` as a parameter of which it needs only that '<' is not in
  it.
- SigTwins.TwinsAgreeIff: `Number.isFinite` is a parameter that holds for all code points; a result with a lone
  surrogate is not text here. The text of the inherited function is spelled as V8 spells it.
- Reply.BuildReply: message rows, attachments' contents and the JSON shape of stored address lists are not modelled.
- Smtp.HandleSmtp: lossy UTF-8 decoding, `recipient_accepted` and `forward_raw` are given with each read; failing writes
  to the socket and the size of the read buffer are not modelled. Dot-stuffing is not undone by the code, and not here.
- SendProtocol.DeliveriesBounded: here and in `DeliveriesAre` an error of the dispatch means that nothing left; the two
  statements of a claim are one step, as the conditional UPDATE makes them; keys are never minted twice; one page, one
  caller, no scheduled clock.
- Signature.PicksFromStart: rich-text drafts, and typing between two picks, are not modelled; the rule that chooses the
  first signature is not either.
- KeySequences.Sound: which key events reach the matcher is not modelled.
- KeySequences.NoneMissedIff: counts presses that an earlier firing used, so pairs such as "g i" and "i s" fail it
  although `PairFiresIff` shows that no unused pair is missed.
- NewMail.AnnouncedOnce: polls are answered in order, and nothing leaves the inbox; sounds, permissions and hidden tabs
  are not modelled.
- NewMailRemovals.RepeatsIff: messages that left the inbox do not come back to it.
- Filters.ResolveFolder: parsing the stored JSON is not modelled.
- CalendarSync.Converges: one account and one pass at a time, so the interval and "sync now" do not overlap; the tables
  follow the Postgres constraints, not SQLite's INSERT OR REPLACE; a token is a position in Google's history, a listing
  reports the versions of the moment it started, live entries have a start, and posted fields come back as posted.
- CalendarPasses.SyncRefines: within one pass Google and the user do nothing; in the runs of CalendarSync they do,
  between any two steps.
- CalendarSync.AlwaysOrderly: local ids are always new. `create` in crates/aivory-mail-api/src/api/calendar_events.rs
  takes an id from the client, so the id of a deleted event can return and be posted again.
- The window of a full listing is any subset of the live ids.
- OAuth, vaults, hashing, MIME parsing, MCP dispatch, classification, limits and user interface: thin or finite code, or
  code whose substance is in libraries that are not part of this model.
- `truncate_chars`, `snippet_from_body`, `tokenScore`, `filterCommands`, `parseRecipients`, `clean_output`: single loops
  or expressions whose laws would be easy.
