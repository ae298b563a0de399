# EduLanka: verified models

This project models the parts of the EduLanka platform where several functions, or several requests,
have to agree, and proves what they promise each other. Each model follows its source file branch by
branch; loops and updates in place are Dafny methods and classes that are proved equal to specification
functions, and the lemmas reason about those functions.

`dafny verify dfyconfig.toml` checks everything.

| files | what they model |
|---|---|
| `SyncStream.dfy` | the per-tenant event stream: gapless numbering, idempotency keys, the retention purge, cursor pulls |
| `Attendance.dfy`, `AttendanceMerge.dfy` | attendance rows and their conflict log, written by offline devices and online roll calls |
| `Delivery.dfy`, `DeliveryOnce.dfy`, `Materialised.dfy` | at-least-once delivery of offline events, with crashes between append, row and applied mark; the rows they become, told by the payload |
| `UrlCheck.dfy`, `NoticeSanitizer.dfy`, `SanitizedLanguage.dfy`, `SanitizerIdempotence.dfy`, `LinkStability.dfy`, `StableOutput.dfy`, `NoticeText.dfy` | the notice sanitiser: scanners, link check, escaping, output language, a second run, the plain-text projection |
| `LinkVerdicts.dfy`, `SanitizerEffects.dfy`, `TextEffects.dfy` | which links pass, and what becomes of elements, attributes, comments and entities, told by the text alone |
| `BlogList.dfy`, `BlogDiscourse.dfy` | batched, filtered paging of blogs; comment threads and reactions |
| `ChatHistory.dfy` | chat history read backwards, and the list the web client keeps |
| `NoticeAudience.dfy` | who is notified of a notice and who can read it |
| `Billing.dfy`, `BillingRuns.dfy`, `BillingTerms.dfy`, `Sponsorship.dfy` | invoices, the cached account lock, what tenants are charged, owe and are locked for, and the sponsorship ledger |
| `Wrappers.dfy`, `Lists.dfy`, `Text.dfy` | options, selections from sequences, JavaScript string functions |

Tables are sequences and maps, each query or statement is one atomic step, and the clock is an argument.
Where a request reads first and writes later, the two halves are separate steps if a property depends on
what comes between.

## Where the code does not do what is promised

The models follow the code. Where a promised property fails, the lemmas named here say exactly when it
holds, and most give an input for which it does not.

- "Retries never duplicate" (README.md:71). A retry after the purge is appended again (`SyncStream.ResendIff`).
  A roll call dated more than a minute ahead, or not dated, moves its row with each retry
  (`DeliveryOnce.RepeatIff`). A chat message whose first delivery stops between stream and row is never
  inserted, since `append_sync_event` stores its event as applied (`DeliveryOnce.MessageOnce`). The order in
  which roll calls arrive matters once some are dated ahead of the server's clock, even if no two share a time
  (`AttendanceMerge.ClockDecides`); `AttendanceMerge.OrderIff` says exactly when.
- The retention purge goes by creation time, which is a transaction's start and not the order of numbering;
  clients then miss events silently (`SyncStream.PurgeIff`, `SyncStream.HoleUnnoticed`). So do clients that
  took their snapshot of an empty tenant (`SyncStream.ZeroCursorIff`).
- The sanitiser is not idempotent (`StableOutput.NotIdempotent`), because escaping splits a reference
  that decoding had joined; `StableOutput.SanitizeTwiceIff` says for which inputs it is, by their links alone.
- A student named twice in an online roll call makes the save fail after its conflict entries are written,
  so the log no longer explains the rows (`AttendanceMerge.RestExplains`).
- Blogs beyond ten batches are never listed (`BlogList.ReachesAllIff`), and a client that asks for more than a
  hundred at a time and moves on by as many skips blogs (`BlogList.PagesTileIff`); messages that share a time
  are skipped by paging (`ChatHistory.NoGapIff`); more than a poll's worth of missed messages leave a gap, and a message synced
  under an earlier time is listed out of order (`ChatHistory.PollIff`, `ChatHistory.BackdatedLast`).
- Comments nest at most twice when they are created in the blog, but a synced one can name any parent: the tree
  shows it wherever it is, unless it is its own ancestor, and then nowhere (`BlogDiscourse.SyncKeepsIff`,
  `BlogDiscourse.WholeTreeIff`, `BlogDiscourse.SelfParentLost`).
- A roll call that names a student who is not found is marked applied, so it is lost even if the student is
  enrolled before the next attempt (`DeliveryOnce.EarlyThenLater`).
- The notice list ignores the medium that the notification respects (`NoticeAudience.SeenNotifiedIff`,
  `NoticeAudience.OtherMediumSees`), and shows a student or teacher with two rows no targeted notice
  (`NoticeAudience.StudentSeesIff`, `NoticeAudience.TeacherSeesIff`).
- Reaction counts are counted and stored in two queries, so a race leaves a stale one
  (`BlogDiscourse.StoredRightIff`, `BlogDiscourse.StaleCount`).
- The grace period runs from the creation of the oldest unpaid invoice, although the comment at
  billing.service.ts:293 counts from its becoming overdue. The overdue job can undo a payment
  (`BillingRuns.PaymentUndone`), and a status check can cache a lock past the last payment
  (`BillingRuns.LockOutlivesPayment`).
- The comment at sponsorship.service.ts:75 speaks of recalculating a pool, but the previous amount is not
  read, so every calculation is credited in full (`Sponsorship.AmountIff`). Overlapping awards and revocations
  unbalance the pool exactly as `Sponsorship.OverlapIff` says.

## Model

| member | source | states |
|---|---|---|
| SyncStream.SafeLimit | apps/api/src/modules/mobile/mobile-sync.service.ts:849 | the page size lies between 1 and 200 and is the requested one whenever that does |
| SyncStream.AppendHolds | supabase/migrations/20261007000000_phase3_sync_events_and_push.sql:148-247 | appending numbers events without gap: a known key with the same contents changes nothing, a known key with other contents is refused, a new key gets the next number; the stream stays the tail of its full history |
| SyncStream.ResendIff | supabase/migrations/20261007000000_phase3_sync_events_and_push.sql:165-191 | sending a draft again returns its event and changes nothing if and only if the event is still retained; after a purge it is appended a second time |
| SyncStream.PurgeIff | supabase/migrations/20261007000000_phase3_sync_events_and_push.sql:576-591 | the purge leaves a tail of the history if and only if no event that stays precedes one that goes |
| SyncStream.ExactWhenDated | supabase/migrations/20261007000000_phase3_sync_events_and_push.sql:576-591 | when creation times follow the numbering, every purge of a run removes a prefix, so delivery is exact but for pulls at cursor zero |
| SyncStream.RefusedIff | apps/api/src/modules/mobile/mobile-sync.service.ts:853-883 | for every positive cursor the retention check refuses exactly the cursors whose next event is purged, whichever of its two queries decides |
| SyncStream.ReadExact | apps/api/src/modules/mobile/mobile-sync.service.ts:885-900 | what a read returns for any cursor, limit and purge: rows, the has-more flag and the latest sequence |
| SyncStream.RaceIff | apps/api/src/modules/mobile/mobile-sync.service.ts:853-900 | check and read are two queries: the page continues the cursor without a gap if and only if no purge has passed the cursor in between, or nothing was left |
| SyncStream.ZeroCursorIff | apps/api/src/modules/mobile/mobile-sync.service.ts:853 | the check is skipped at cursor zero: a pull from there is without gap if and only if nothing or everything has been purged |
| SyncStream.HoleUnnoticed | supabase/migrations/20261007000000_phase3_sync_events_and_push.sql:576-591 | a purge that is no prefix makes a client miss an event without being told: two events whose creation times are out of order |
| SyncStream.ExactDelivery | apps/api/src/modules/mobile/mobile-sync.service.ts:845-1100 | over every interleaving of appends, purges, pulls and snapshots a client is handed exactly the visible events between its start and its cursor, in order, without gap or repeat |
| SyncStream.AfterSnapshot | apps/api/src/modules/mobile/mobile-sync.service.ts:1235-1247 | a client that takes a snapshot is handed from then on exactly the visible events numbered after it |
| SyncStream.Drains | apps/api/src/modules/mobile/mobile-sync.service.ts:898-900 | after n pulls of an unchanging stream the cursor is n pages further or at the end, and has-more is true exactly if the next page does not reach the end; visibility plays no part |
| SyncStream.DrainEnds | apps/api/src/modules/mobile/mobile-sync.service.ts:898-900 | draining ends within as many pulls as the remaining events fill pages |
| Attendance.AttendanceBook.ApplySync | apps/api/src/modules/mobile/mobile-sync.service.ts:526-593 | the attendance writes of a synced event: clamped time, conflict entry before the row, later mark wins; both writes may fail |
| Attendance.RosterKeys | apps/api/src/modules/attendance/attendance.service.ts:201-206 | a roll call knows a student by the record or the user identifier and by nothing else, and maps either to the user |
| Attendance.AttendanceBook.RecordAttendance | apps/api/src/modules/attendance/attendance.service.ts:178-293 | a bulk roll call is refused as a whole or saved as a whole, with its conflict entries written before the rows; a student named twice makes the upsert fail after the entries are written |
| Materialised.BulkWrites | apps/api/src/modules/attendance/attendance.service.ts:201-282 | told by the tables: a bulk roll call gives each student it names, by either identifier, the row of class, user, date and period with the status and the time of the save, and changes no other row |
| AttendanceMerge.LastWriterWins | apps/api/src/modules/mobile/mobile-sync.service.ts:526-593 | after any synced events on one cell the row is the first of those with the greatest clamped time; no other row changes |
| AttendanceMerge.Converges | apps/api/src/modules/mobile/mobile-sync.service.ts:526-593 | the same claims lead to the same row in every order and with any repetitions, if none is dated more than a minute ahead and no two statuses bear one time |
| AttendanceMerge.OrderIff | apps/api/src/modules/mobile/mobile-sync.service.ts:526-593 | while the server's clock runs as it does, every order in which the same claims arrive leaves the same row if and only if the claims that can reach the greatest time of any order bear one status and, if there are k of them, the clock is within a minute of that time at the k-th arrival |
| AttendanceMerge.OrderIffNoneAhead | apps/api/src/modules/mobile/mobile-sync.service.ts:526-593 | so while no claim is dated more than a minute ahead of the first arrival, the order matters exactly if claims with different statuses share the latest time |
| AttendanceMerge.ClockDecides | apps/api/src/modules/mobile/mobile-sync.service.ts:528 | an input on which the order matters though no two claims share a time: of a claim dated far ahead and one dated five milliseconds beyond the minute, ten milliseconds apart, the one that arrives second stays |
| AttendanceMerge.AheadDiverges | apps/api/src/modules/mobile/mobile-sync.service.ts:528 | another: two claims dated beyond the minute that arrive at one time are taken in order of arrival, though their times differ |
| AttendanceMerge.StepTimes | apps/api/src/modules/mobile/mobile-sync.service.ts:528-577 | a mark is never more than a minute ahead of the server; a synced write never takes a row back in time, an online one by a minute at most |
| AttendanceMerge.TimesBounded | apps/api/src/modules/attendance/attendance.service.ts:216-282 | so over every run of both kinds of writes |
| AttendanceMerge.SyncExplains | apps/api/src/modules/mobile/mobile-sync.service.ts:541-577 | a synced event keeps the conflict log an explanation of the rows if and only if a winning entry and its row are written together |
| AttendanceMerge.RestExplains | apps/api/src/modules/attendance/attendance.service.ts:240-282 | a bulk save does so if and only if its entries and its rows are written together, or it has no conflict |
| AttendanceMerge.LogExplainsRun | apps/api/src/modules/attendance/attendance.service.ts:230-282 | over every such run, replaying the client wins from the first statuses yields the current ones, every entry names the status held just before it, and none names a missing row |
| AttendanceMerge.ServerWinKeeps | apps/api/src/modules/mobile/mobile-sync.service.ts:546-556 | a server win is only ever logged by a synced event that leaves its row as it was |
| Delivery.MobileSyncService.AppendRpc | supabase/migrations/20261007000000_phase3_sync_events_and_push.sql:148-247 | the database function on the service's tables, with the applied flag it sets for everything but attendance |
| Delivery.MobileSyncService.WriteAttendance | apps/api/src/modules/mobile/mobile-sync.service.ts:526-593 | the attendance writes of one attempt, which may end after the log or after the row |
| Delivery.MobileSyncService.Append | apps/api/src/modules/mobile/mobile-sync.service.ts:465-657 | one delivery attempt, ending anywhere between stream append, row write and applied mark |
| Materialised.RollCallWrites | apps/api/src/modules/mobile/mobile-sync.service.ts:493-593 | told by the payload and the students: the only row that an offline roll call can change is that of its class, the user of the student it names, its date and its period or 1; it bears the status sent, or PRESENT, and the time sent, but at most a minute ahead, unless a later mark is there; without such a student in that class it changes none |
| Materialised.OneRow | apps/api/src/modules/mobile/mobile-sync.service.ts:502-582 | across the two services: an offline and an online roll call of one enrolled student, each under either identifier, meet in one row |
| Materialised.MessageWrites | apps/api/src/modules/mobile/mobile-sync.service.ts:365-383 | told by the payload: how a message is stored in the stream, and the row it becomes, under which identifier and with which time |
| Materialised.MessageMarked | apps/api/src/modules/mobile/mobile-sync.service.ts:608-657 | every attempt at a message that goes through leaves its event marked, row or no row |
| Materialised.OthersCarried | supabase/migrations/20261007000000_phase3_sync_events_and_push.sql:148-247 | every other event is appended as it was sent, marked at once, and writes no row |
| Delivery.MobileSyncService.PurgeOldSyncEvents | supabase/migrations/20261007000000_phase3_sync_events_and_push.sql:576-591 | the purge on the service's tables |
| Delivery.MobileSyncService.GetSyncEvents | apps/api/src/modules/mobile/mobile-sync.service.ts:845-900 | the check and the page before the visibility filter |
| DeliveryOnce.DeliverStream | apps/api/src/modules/mobile/mobile-sync.service.ts:474-491 | an attempt appends its event at most once and disturbs no other key |
| DeliveryOnce.ExactlyOnce | apps/api/src/modules/mobile/mobile-sync.service.ts:465-603 | a roll call has its effect exactly once if its first attempt completed or found no such student, or if it is dated at most a minute ahead and every further attempt finds the student in the same place or not at all: however often it is sent again and whatever is delivered besides, stream, rows and messages end as if the first attempt that wrote its row had completed and none had followed |
| DeliveryOnce.EarlyThenLater | apps/api/src/modules/mobile/mobile-sync.service.ts:503-603 | after a roll call's attempt that ended before its row, the next attempt does to rows and messages what it would have done as the first; but if the early one went on and found no such student, the event is marked applied and no attempt writes a row |
| DeliveryOnce.RepeatIff | apps/api/src/modules/mobile/mobile-sync.service.ts:502-528 | while the student is found where it was, repeating a roll call can never move its row if and only if it was dated and not more than a minute ahead when the row was written |
| DeliveryOnce.SavedBetween | apps/api/src/modules/attendance/attendance.service.ts:216-282 | an online save between a row and its repeat survives the repeat if and only if the roll call is not dated after it |
| DeliveryOnce.FirstDelivered | apps/api/src/modules/mobile/mobile-sync.service.ts:474-657 | what the first delivery of a message writes: one event, its applied mark, and the payload's row, dated by the client or else at that moment, if it comes that far and the identifier is free |
| DeliveryOnce.MessageOnce | apps/api/src/modules/mobile/mobile-sync.service.ts:465-657 | however often a message is sent again and whatever is delivered besides, the whole state ends as if only its first delivery had been made; that one equals a completed delivery if and only if it came as far as the row or the identifier was taken |
| DeliveryOnce.MessageIff | apps/api/src/modules/mobile/mobile-sync.service.ts:608-657 | so a message becomes a row, bearing its payload and its time of creation for good, if and only if its very first delivery came as far as the row, or its identifier was taken: the event is stored as applied, so no retry inserts it |
| DeliveryOnce.MessagesKept | apps/api/src/modules/mobile/mobile-sync.service.ts:616-627 | no message row is ever overwritten |
| DeliveryOnce.ResentMessageRefusedIff | apps/api/src/modules/mobile/mobile-sync.service.ts:365-383 | sending a message again is refused if and only if the conversation's participants, in the order they are queried, or the class stored with the message have changed since |
| UrlCheck.EscapeIsOnePass | apps/api/src/common/utils/sanitize-html.ts:86-92 | the four successive replacements of an attribute value equal one pass over it |
| UrlCheck.EscapeYieldsEscaped | apps/api/src/common/utils/sanitize-html.ts:86-92 | an escaped value holds no quote or angle bracket, and every ampersand heads a complete entity |
| UrlCheck.EscapeIdempotent | apps/api/src/common/utils/sanitize-html.ts:86-92 | escaping twice is escaping once |
| LinkVerdicts.SchemeVerdict | apps/api/src/common/utils/sanitize-html.ts:77-84 | of the links without references, those that begin with a name and a colon pass if and only if the name, in lower case, is http, https, mailto or tel |
| LinkVerdicts.NoiseIgnored | apps/api/src/common/utils/sanitize-html.ts:55-73 | a control character or white space anywhere in a link changes no verdict |
| LinkVerdicts.NoColonVerdict | apps/api/src/common/utils/sanitize-html.ts:77-84 | a link without a colon passes unless it is nothing but those |
| LinkVerdicts.PathVerdict | apps/api/src/common/utils/sanitize-html.ts:80-83 | a colon after a slash, a question mark or a hash names no scheme |
| LinkVerdicts.KelvinVerdict | apps/api/src/common/utils/sanitize-html.ts:74 | the Kelvin sign is a letter in lower case, so a link that begins with it and a colon is refused |
| LinkVerdicts.DecimalIgnored | apps/api/src/common/utils/sanitize-html.ts:66-68 | writing any character of a link as a decimal reference changes no verdict |
| LinkVerdicts.HexadecimalIgnored | apps/api/src/common/utils/sanitize-html.ts:63-65 | nor does a hexadecimal one, in either case of its digits |
| LinkVerdicts.NamedIgnored | apps/api/src/common/utils/sanitize-html.ts:69-71 | the named references of a colon, a tab and a new line are read as these, in any case |
| LinkVerdicts.AmpersandEffect | apps/api/src/common/utils/sanitize-html.ts:47 | an ampersand stays if a character's name or number of limited length and a semicolon follow, and is escaped otherwise |
| LinkVerdicts.OthersEscape | apps/api/src/common/utils/sanitize-html.ts:86-92 | quotes, angle brackets and ampersands without a semicolon are escaped, nothing else is |
| NoticeSanitizer.BuildAttributes | apps/api/src/common/utils/sanitize-html.ts:99-123 | the attribute loop equals keeping, cleaning and rendering the scanned attributes; None where a character reference raises |
| NoticeSanitizer.StripMarkup | apps/api/src/common/utils/sanitize-html.ts:134-142 | comments, declarations and dangerous subtrees are removed in turn |
| NoticeSanitizer.SanitizeNoticeHtml | apps/api/src/common/utils/sanitize-html.ts:131-163 | the tag loop equals rendering the nodes read from the stripped text and trimming |
| SanitizerEffects.ElementEffect | apps/api/src/common/utils/sanitize-html.ts:17-41 | told by the tag's name in lower case: formatting stays, fifteen dangerous elements go with their contents, of all others the contents stay; white space in the tags makes no difference |
| SanitizerEffects.SourceScanned | apps/api/src/common/utils/sanitize-html.ts:44 | an attribute is read as it is written, quoted or not, whatever follows: an unquoted value ends at white space, a quote or a bracket |
| SanitizerEffects.BrokenName | apps/api/src/common/utils/sanitize-html.ts:44 | a word that neither an equals sign nor white space follows is no attribute, and names begin anew after it |
| SanitizerEffects.NoNameBegins | apps/api/src/common/utils/sanitize-html.ts:44 | no attribute's name begins with anything but a letter, an underscore or a colon |
| SanitizerEffects.AttrEffect | apps/api/src/common/utils/sanitize-html.ts:99-123 | a formatting tag keeps exactly href and title on a link and the two spans on a table cell, a link only if it passes, which is then given its fixed target; the value is escaped |
| TextEffects.ForbiddenAnchor | apps/api/src/common/utils/sanitize-html.ts:82 | a link whose name before the colon is none of the four is taken off its tag, of which the text stays |
| TextEffects.AllowedAnchor | apps/api/src/common/utils/sanitize-html.ts:99-123 | a link to one of the four stays, with its target |
| TextEffects.CommentEffect | apps/api/src/common/utils/sanitize-html.ts:134-135 | a comment goes up to its first end |
| TextEffects.OpenCommentEffect | apps/api/src/common/utils/sanitize-html.ts:134-135 | a comment that is not ended goes with all that follows |
| TextEffects.DeclarationEffect | apps/api/src/common/utils/sanitize-html.ts:134-135 | a declaration goes up to its bracket |
| TextEffects.StrayEffect | apps/api/src/common/utils/sanitize-html.ts:95-97 | a bracket that begins nothing is escaped |
| TextEffects.ScriptEffect | apps/api/src/common/utils/sanitize-html.ts:137-142 | a script goes up to its closing tag with all the tags in it |
| TextEffects.UnclosedEffect | apps/api/src/common/utils/sanitize-html.ts:137-142 | a script that is never closed takes the rest of the notice with it |
| SanitizedLanguage.NodesFit | apps/api/src/common/utils/sanitize-html.ts:144-161 | every node that is written belongs to a fixed language: allowed tags, attributes allowed on that tag, escaped values, links that passed the scheme check |
| SanitizedLanguage.OutputInLanguage | apps/api/src/common/utils/sanitize-html.ts:131-163 | every output renders nodes of that language |
| SanitizerIdempotence.StrippedLeaves | apps/api/src/common/utils/sanitize-html.ts:134-142 | the passes before the tag loop find nothing in an output |
| SanitizerIdempotence.OpenFound | apps/api/src/common/utils/sanitize-html.ts:43 | a written opening tag is found again exactly as it was written |
| SanitizerIdempotence.AttrsFound | apps/api/src/common/utils/sanitize-html.ts:44 | so are its attributes, all and only they |
| SanitizerIdempotence.RereadNodes | apps/api/src/common/utils/sanitize-html.ts:144-161 | reading a rendered sequence back yields it node by node |
| SanitizerIdempotence.SanitizeOutput | apps/api/src/common/utils/sanitize-html.ts:131-163 | what sanitising makes of any text of the language |
| SanitizerIdempotence.SanitizeTwice | apps/api/src/common/utils/sanitize-html.ts:131-163 | sanitising an output again changes nothing if and only if every link that was emitted still passes the check as it was escaped |
| LinkStability.EscapeRaisesNothing | apps/api/src/common/utils/sanitize-html.ts:61-92 | escaping introduces no character reference that raises |
| LinkStability.EscapedVerdict | apps/api/src/common/utils/sanitize-html.ts:61-92 | the verdict on the escaped form of any link that does not raise is the verdict on the scheme of its part before the first character that escaping replaces |
| LinkStability.SafeAfterEscapingIff | apps/api/src/common/utils/sanitize-html.ts:61-92 | a safe link stays safe after escaping if and only if nothing in it is replaced or that part names no forbidden scheme |
| LinkStability.SafeAfterEscaping | apps/api/src/common/utils/sanitize-html.ts:61-92 | so it does if that part holds no hexadecimal reference |
| StableOutput.SanitizeTwiceIff | apps/api/src/common/utils/sanitize-html.ts:77-163 | sanitising any input twice is sanitising it once if and only if, for every link of the input that the first run keeps, nothing is replaced or the part before the first replaced character names no forbidden scheme |
| StableOutput.SanitizeStable | apps/api/src/common/utils/sanitize-html.ts:131-163 | so an output without hexadecimal reference is left alone by a second run |
| StableOutput.LinkTwice | apps/api/src/common/utils/sanitize-html.ts:77-92 | for an input that is one safe link the same, stated on the link |
| StableOutput.NotIdempotent | apps/api/src/common/utils/sanitize-html.ts:61-92 | a link that the first run keeps and the second drops: idempotence fails |
| NoticeText.Fuse | apps/api/src/common/utils/sanitize-html.ts:171-176 | two successive rounds of entity replacement, the first inert, are one round with all rules |
| NoticeText.DecodesOnce | apps/api/src/common/utils/sanitize-html.ts:171-176 | the six ordered replacements decode every entity once and none twice, on every text |
| NoticeText.DecodeUndoesEscape | apps/api/src/common/utils/sanitize-html.ts:171-176 | decoding undoes escaping, for every text |
| NoticeText.TextRoundTrip | apps/api/src/common/utils/sanitize-html.ts:166-178 | projecting an escaped plain text gives it with white space collapsed and ends trimmed |
| TextEffects.ElementProjected | apps/api/src/common/utils/sanitize-html.ts:166-178 | the projection of an element, told by its tag's name: a line break and the ends of paragraphs, headings, list items and table rows are read as a space, every other tag as nothing |
| TextEffects.EntityProjected | apps/api/src/common/utils/sanitize-html.ts:171-177 | each of the seven entities is read as its character, in the cases the code gives, and any other stays |
| TextEffects.WhiteSpaceTrimmed | apps/api/src/common/utils/sanitize-html.ts:162 | the white space of every kind is trimmed |
| NoticeText.LettersAreScanned | apps/api/src/common/utils/sanitize-html.ts:149-161 | the characters outside the written tags are the escaped text between the scanned tags |
| NoticeText.TagsDeleted | apps/api/src/common/utils/sanitize-html.ts:170 | deleting whatever looks like a tag deletes exactly the tags of an output |
| NoticeText.DeletingTagsLeavesText | apps/api/src/common/utils/sanitize-html.ts:144-170 | deleting the tags of an output leaves the escaped text between the tags of the input, but for white space at the ends |
| BlogList.PushDownExact | apps/api/src/modules/blog/blog.service.ts:309-391 | for every role and option the conditions pushed into the query leave out only what the caller did not ask for or may not see |
| BlogList.NothingLost | apps/api/src/modules/blog/blog.service.ts:309-391 | so on whole tables the checks keep the same blogs with or without the pushed-down conditions |
| BlogList.StandingInBatch | apps/api/src/modules/blog/blog.service.ts:412-440 | looking up only a batch's authors and schools decides its rows as a full lookup would |
| BlogList.ScanBatch | apps/api/src/modules/blog/blog.service.ts:412-457 | one batch extends the page by what it keeps, after the offset and up to the limit |
| BlogList.ScanBlogs | apps/api/src/modules/blog/blog.service.ts:393-464 | the batch loop returns the page of the kept rows among the first ten batches, or among those answered before a query fails |
| BlogList.ListBlogs | apps/api/src/modules/blog/blog.service.ts:268-464 | the whole listing with its refusals and early empty answers |
| BlogList.ListsAsked | apps/api/src/modules/blog/blog.service.ts:268-464 | while ten batches cover the answer, the listing is the page of all published blogs that were asked for and are allowed |
| BlogList.ListedIff | apps/api/src/modules/blog/blog.service.ts:268-464 | told by the rows: while ten batches cover the table, a listing is the page, in the order of the table, of the blogs that are published, neither deleted nor taken down, asked for, and open to the caller by scope, school, class and standing |
| BlogList.TenBatches | apps/api/src/modules/blog/blog.service.ts:395-464 | what lies beyond ten batches is listed at no offset, even to an administrator of the platform |
| BlogList.PagesTile | apps/api/src/modules/blog/blog.service.ts:300-464 | for a limit of one to a hundred, the listings at offsets that are multiples of the limit tile the allowed blogs of the scanned window without overlap or gap |
| BlogList.PagesTileIff | apps/api/src/modules/blog/blog.service.ts:300-464 | for every positive limit they do so if and only if the limit is within a hundred or all of those blogs fit the first page: the page is clamped, the offset is not |
| BlogList.FirstPageAgain | apps/api/src/modules/blog/blog.service.ts:300-301 | without a positive limit every page is the first |
| BlogList.ReachesAllIff | apps/api/src/modules/blog/blog.service.ts:395-464 | enough pages list every published blog that was asked for and is allowed if and only if none of these lies beyond the scanned window |
| BlogDiscourse.NeverDeeper | apps/api/src/modules/blog/blog.service.ts:865-881 | however comments are created, hidden and deleted through the blog service, a parent never has a parent |
| BlogDiscourse.CreatedIff | apps/api/src/modules/blog/blog.service.ts:865-905 | a comment is created if and only if it answers nothing or a comment on the same blog that is neither deleted nor an answer |
| BlogDiscourse.SyncWrites | apps/api/src/modules/mobile/mobile-sync.service.ts:660-675 | a synced comment is written if and only if its parent is itself or there; a new one is neither hidden nor deleted, and one that is there stays so if it was |
| BlogDiscourse.SyncKeepsIff | apps/api/src/modules/mobile/mobile-sync.service.ts:660-675 | a comment upserted by the sync service keeps that if and only if its parent is another comment of its blog without a parent, and it is no reply itself where it has replies, all on its blog |
| BlogDiscourse.VisibleIff | apps/api/src/modules/blog/blog.service.ts:522-557 | a caller is shown what is not deleted, and what is hidden as its author or a moderator alone, in order |
| BlogDiscourse.BuildTree | apps/api/src/modules/blog/blog.service.ts:541-557 | the two passes over the comments give the top comments and each comment's replies, in list order |
| BlogDiscourse.OnePlace | apps/api/src/modules/blog/blog.service.ts:541-557 | every comment of any list has exactly one place: at the top if its parent is not listed, otherwise among its parent's replies |
| BlogDiscourse.EachOnceIff | apps/api/src/modules/blog/blog.service.ts:541-557 | read from the top down to any level, the nested tree shows no comment twice, and shows every comment if and only if every line of parents ends within that many levels |
| BlogDiscourse.WholeTreeIff | apps/api/src/modules/blog/blog.service.ts:541-557 | the whole tree shows every comment exactly once if and only if no comment is its own ancestor in the list |
| BlogDiscourse.VisibleOnceIff | apps/api/src/modules/blog/blog.service.ts:522-557 | so what a caller may see is shown exactly once, replies to invisible comments at the top, if and only if none of it is its own ancestor |
| BlogDiscourse.VisibleOnce | apps/api/src/modules/blog/blog.service.ts:522-557 | comments nested at most twice are all shown exactly once within two levels, whatever is hidden or deleted |
| BlogDiscourse.SelfParentLost | apps/api/src/modules/mobile/mobile-sync.service.ts:660-675 | a synced comment that names itself as its parent is stored and shown nowhere |
| BlogDiscourse.ReactionBoard.UpdateReactionCount | apps/api/src/modules/blog/blog.service.ts:1173-1190 | the stored count becomes the number of rows |
| BlogDiscourse.ReactionBoard.ToggleReaction | apps/api/src/modules/blog/blog.service.ts:1092-1171 | toggling deletes the caller's only row or inserts one, and recounts |
| BlogDiscourse.ReactionBoard.RemoveReaction | apps/api/src/modules/blog/blog.service.ts:1195-1245 | removing deletes the caller's only row, if any, and recounts |
| BlogDiscourse.StaysSound | apps/api/src/modules/blog/blog.service.ts:1092-1245 | after every act all stored counts are right and nobody has two reactions to one target |
| BlogDiscourse.ToggledTwice | apps/api/src/modules/blog/blog.service.ts:1092-1171 | two toggles by one user restore the number of rows and the count, whatever kinds are clicked |
| BlogDiscourse.TogglesOffIff | apps/api/src/modules/blog/blog.service.ts:1109-1125 | a toggle takes a reaction away if and only if the user has one row: with several it never does |
| BlogDiscourse.StoredRightIff | apps/api/src/modules/blog/blog.service.ts:1173-1190 | counting and storing are two queries: what a request stores after anything else has happened is right if and only if as many rows of the target were inserted as deleted in between |
| BlogDiscourse.StoredRight | apps/api/src/modules/blog/blog.service.ts:1173-1190 | so it is right whenever no row of the target changes in between |
| BlogDiscourse.StaleCount | apps/api/src/modules/blog/blog.service.ts:1173-1190 | the race: two users react at once and a stale count stays |
| ChatHistory.ReadersAre | apps/api/src/modules/chat/chat.service.ts:731-736 | the readers of a message are exactly those with a receipt for it |
| ChatHistory.ReadIff | apps/api/src/modules/chat/chat.service.ts:731-749 | a message counts as read if and only if somebody but its sender has a receipt for it |
| ChatHistory.GetMessages | apps/api/src/modules/chat/chat.service.ts:685-753 | a page is the newest messages before the cursor, oldest first, each with its readers; has-more exactly if it is full |
| ChatHistory.MergePage | apps/web/src/hooks/useRealtimeChat.ts:115-121 | the polling loop merges a page into the list message by message |
| ChatHistory.UpsertIds | apps/web/src/hooks/useRealtimeChat.ts:45-51 | merging a message keeps every position and appends an unknown one |
| ChatHistory.UpsertKnown | apps/web/src/hooks/useRealtimeChat.ts:45-51 | a message that is held is brought up to date in its place, and keeps what was known of its readers where the newer copy is silent |
| ChatHistory.MarkedRead | apps/web/src/hooks/useRealtimeChat.ts:188-206 | a receipt marks its message alone and names the reader once |
| ChatHistory.NothingLost | apps/web/src/hooks/useRealtimeChat.ts:115-290 | whatever arrives over the socket, by polling, by sending or from older pages: identifiers stay unique, and what was held stays, side by side and in its order |
| ChatHistory.NoGapIff | apps/api/src/modules/chat/chat.service.ts:697-704 | a step back loads exactly the page before what is held if and only if no message just before it bears the time of the oldest held |
| ChatHistory.WalkExact | apps/api/src/modules/chat/chat.service.ts:695-740 | with distinct times every walk back holds an unbroken end of the conversation in ascending order |
| ChatHistory.WalkEnds | apps/web/src/hooks/useRealtimeChat.ts:268-284 | when no more is said to be left the whole conversation is held, within as many steps as it has pages |
| ChatHistory.PollPlaced | apps/web/src/hooks/useRealtimeChat.ts:107-121 | in any order of times, the list after a poll is an unbroken end of the conversation if and only if what was held stands side by side in it, at most a poll of messages follows, and the poll does not reach beyond what was held unless that was the beginning |
| ChatHistory.PollIff | apps/web/src/hooks/useRealtimeChat.ts:107-121 | messages may arrive under any time: the list stays an unbroken end if and only if nothing was held, or no arrival is dated between what was held, at most a poll of messages is newer, and the poll reaches back to nothing older |
| ChatHistory.PollAppended | apps/web/src/hooks/useRealtimeChat.ts:107-121 | if all that has come is newer than what was held, it stays one if and only if no more has come than a poll returns |
| ChatHistory.BackdatedLast | apps/api/src/modules/mobile/mobile-sync.service.ts:636 | a message synced under an earlier time is put after the newer one that was held |
| NoticeAudience.RecipientCovers | apps/api/src/modules/notices/notices.service.ts:273-319 | a targeted notice reaches a user only through one of the targeted classes, which the user's list covers |
| NoticeAudience.RecipientsIff | apps/api/src/modules/notices/notices.service.ts:237-320 | who is notified, by quantifiers over the tables, for every notice: the active users, or with a medium the active staff and the families of that medium; for a targeted notice the families and the teachers of its classes |
| NoticeAudience.WideSeenNotified | apps/api/src/modules/notices/notices.service.ts:243-271 | every caller sees a live notice to the whole school; without a medium the active users are notified, with one exactly the active staff and those behind a student of it |
| NoticeAudience.OthersSee | apps/api/src/modules/notices/notices.service.ts:459-608 | nobody sees an archived or expired notice, administrators see every other, and other callers the wide ones alone |
| NoticeAudience.RecipientsSee | apps/api/src/modules/notices/notices.service.ts:237-320 | everyone who is notified of a live notice finds it in the list |
| NoticeAudience.SeesIff | apps/api/src/modules/notices/notices.service.ts:483-608 | students, parents and teachers see exactly the live targeted notices they would be notified of if these named no medium |
| NoticeAudience.ChildrenSets | apps/api/src/modules/notices/notices.service.ts:517-532 | the two sets filled for a parent are the children's classes and their grades |
| NoticeAudience.StudentSeesIff | apps/api/src/modules/notices/notices.service.ts:483-512 | a student with a row in a targeted class is notified, and sees the notice if and only if that row is the only one |
| NoticeAudience.TeacherSeesIff | apps/api/src/modules/notices/notices.service.ts:560-608 | a teacher with an assignment in a targeted class is notified, and sees the notice if and only if the teacher has one row |
| NoticeAudience.TwoRowsSeeNothing | apps/api/src/modules/notices/notices.service.ts:487-491 | the concrete failure: a student with two rows is notified and does not see the notice |
| NoticeAudience.SeenNotifiedIff | apps/api/src/modules/notices/notices.service.ts:287-319 | a student, parent or teacher who sees a targeted notice is notified of it if and only if the user is a teacher or some student behind the user in a targeted class is in its medium |
| NoticeAudience.OtherMediumSees | apps/api/src/modules/notices/notices.service.ts:287-296 | the concrete failure: a student of another medium sees the notice and is not notified |
| Billing.BillingService.GenerateBillingSnapshots | apps/api/src/modules/billing/billing.service.ts:63-268 | generation writes, tenant by tenant, what the month's inputs give, and overwrites drafts only |
| BillingTerms.DraftsBear | apps/api/src/modules/billing/billing.service.ts:168-265 | told by the inputs: a draft's total is the plan's base fee, the fee for its students and the price of the segments beyond its quota or beyond what the plan grants, an unknown plan counting nothing; without SMS it is the first two |
| BillingTerms.OneMoreStudent | apps/api/src/modules/billing/billing.service.ts:168-200 | a further student changes the total by the difference of the fees and of the overage, which does not grow |
| BillingTerms.LogCounts | apps/api/src/modules/billing/billing.service.ts:128-143 | one more log adds its segments, or one if it names none, to its own tenant's draft |
| BillingTerms.LogsInAnyOrder | apps/api/src/modules/billing/billing.service.ts:128-143 | the drafts do not depend on the order of the logs |
| Billing.OneMoreSegment | apps/api/src/modules/billing/billing.service.ts:180-195 | one more SMS segment costs the overage price exactly if the allowance is used up, and nothing otherwise |
| Billing.FetchAllRows | apps/api/src/modules/billing/billing.service.ts:35-54 | paging by thousands returns the whole table for every row count, or fails exactly if a needed page fails |
| Billing.BillingService.CheckTenantInvoiceStatus | apps/api/src/modules/billing/billing.service.ts:299-356 | a cached status while it lasts, otherwise the assessment of the unpaid invoices, cached for a minute |
| BillingTerms.FreshCheck | apps/api/src/modules/billing/billing.service.ts:299-356 | told by the table: an account is locked if and only if an issued or overdue invoice of it is older than fourteen days; it owes the sum of these, and the days left are those until the first will be |
| BillingTerms.DecisionIff | apps/api/src/modules/billing/billing.service.ts:299-356 | the same over every run, with the cache, at an instant less than a minute back |
| BillingTerms.IssuePay | apps/api/src/modules/billing/billing.service.ts:361-438 | issuing a draft raises what its tenant owes by its total, paying lowers it by as much, and neither touches another tenant's account |
| BillingTerms.OverdueKeepsLocks | apps/api/src/modules/billing/billing.service.ts:443-477 | the overdue job changes nobody's lock, amount or days left as long as what it moves is still issued |
| Billing.BillingService.IssueInvoice | apps/api/src/modules/billing/billing.service.ts:361-394 | a draft is issued and the tenant's cached status evicted; anything else is refused |
| Billing.BillingService.MarkInvoicePaid | apps/api/src/modules/billing/billing.service.ts:400-438 | an issued or overdue invoice is paid and the cached status evicted; a draft is refused |
| Billing.BillingService.FetchOverdue | apps/api/src/modules/billing/billing.service.ts:443-453 | the overdue job reads exactly the issued invoices not updated for fourteen days |
| Billing.BillingService.MoveToOverdue | apps/api/src/modules/billing/billing.service.ts:459-477 | it then moves what it read by key alone and clears the cache |
| BillingRuns.Frozen | apps/api/src/modules/billing/billing.service.ts:203-224 | whatever is interleaved with whatever, the bill of an invoice that is no draft never changes and it never becomes a draft again |
| BillingRuns.ConstraintIdle | apps/api/src/modules/billing/billing.service.ts:154-265 | generation that nothing interrupts never meets the unique constraint: what it read beforehand is enough to keep one snapshot for each tenant and month |
| BillingRuns.StepMoves | apps/api/src/modules/billing/billing.service.ts:361-477 | every step moves every invoice forward except that the second half of an overdue job takes back one paid since its first half |
| BillingRuns.NeverBack | apps/api/src/modules/billing/billing.service.ts:361-477 | so no status ever goes back in runs without that race |
| BillingRuns.PaymentUndone | apps/api/src/modules/billing/billing.service.ts:443-468 | the race: an expired invoice paid between the two halves of the job ends as overdue |
| BillingRuns.Idempotent | apps/api/src/modules/billing/billing.service.ts:168-265 | generating again from the same inputs changes nothing but update times of drafts |
| BillingRuns.StepCache | apps/api/src/modules/billing/billing.service.ts:299-356 | every step keeps each cached status what the current invoices give at its moment, except that a check which reads before a change and caches after it does so exactly if the status is still the same |
| BillingRuns.DecisionFresh | apps/api/src/modules/billing/billing.service.ts:299-356 | over every run a decision is the assessment of the current invoices at an instant of the last minute; its lock differs from a fresh one exactly if the grace period ended in between; no tenant without unpaid invoices is locked |
| BillingRuns.LockOutlivesPayment | apps/api/src/modules/billing/billing.service.ts:304-354 | the race: a check that straddles the last payment locks the tenant although nothing is unpaid |
| Sponsorship.SponsorshipService.CalculateMonthlyPool | apps/api/src/modules/billing/sponsorship.service.ts:58-109 | creating or recalculating a pool |
| Sponsorship.SponsorshipService.AwardGrant | apps/api/src/modules/billing/sponsorship.service.ts:125-193 | an award debits its pool and then inserts the grant, or is refused |
| Sponsorship.SponsorshipService.RevokeGrant | apps/api/src/modules/billing/sponsorship.service.ts:212-242 | a revocation ends an active grant and then refunds it |
| Sponsorship.SponsorshipService.ProcessExpiredGrants | apps/api/src/modules/billing/sponsorship.service.ts:285-309 | expiry ends the active grants that are due and refunds nothing |
| Sponsorship.TenthCredited | apps/api/src/modules/billing/sponsorship.service.ts:58-109 | a calculation credits a tenth of the profit, nothing for a loss, and touches no other pool |
| Sponsorship.GrantedIff | apps/api/src/modules/billing/sponsorship.service.ts:125-193 | an award is granted if and only if it ends in the future, its beneficiary exists, and its pool, if it draws on one, exists and covers it; a refusal names what is missing and changes nothing |
| Sponsorship.RevokedIff | apps/api/src/modules/billing/sponsorship.service.ts:212-242 | a revocation ends an active grant alone and gives its cost back to its pool alone |
| Sponsorship.ExpiredIff | apps/api/src/modules/billing/sponsorship.service.ts:285-309 | the nightly job ends exactly the active grants whose time has passed |
| Sponsorship.Conserved | apps/api/src/modules/billing/sponsorship.service.ts:94-309 | over every run, whatever second writes fail: remaining, held by grants and lost make up what was credited, no balance is negative |
| Sponsorship.AmountIff | apps/api/src/modules/billing/sponsorship.service.ts:66-104 | when every write succeeds a pool's amount is that of the last calculation, remaining and held make up all calculations of the month, and they make up the amount if and only if no calculation but the last found a profit |
| Sponsorship.CalculatedOnce | apps/api/src/modules/billing/sponsorship.service.ts:94-104 | so with one calculation for a month, remaining and held make up the pool's amount over every run |
| Sponsorship.ShortByLoss | apps/api/src/modules/billing/sponsorship.service.ts:150-242 | failed second writes leave pools and grants short by exactly the loss, never over |
| Sponsorship.CalculatedTwice | apps/api/src/modules/billing/sponsorship.service.ts:76 | a second profitable calculation makes a pool exceed its amount |
| Sponsorship.RefundedOnce | apps/api/src/modules/billing/sponsorship.service.ts:212-242 | no grant is refunded twice, and only revoked ones are |
| Sponsorship.EndedStays | apps/api/src/modules/billing/sponsorship.service.ts:285-309 | an ended grant stays as it ended, and an expired one is never refunded |
| Sponsorship.AwardRaceIff | apps/api/src/modules/billing/sponsorship.service.ts:150-169 | an award that read the balance earlier keeps the books if and only if the balance is still that |
| Sponsorship.RevokeRaceIff | apps/api/src/modules/billing/sponsorship.service.ts:215-242 | a revocation that found the grant active earlier keeps the books if and only if none was faster |
| Sponsorship.OverlapIff | apps/api/src/modules/billing/sponsorship.service.ts:125-242 | over every run of whole and overlapping requests the books balance at every moment if and only if every award wrote from a balance still current and no revocation refunded a grant that another had revoked |

## Left out

- Supabase, Redis, queues, push, SMS and media services, tokens, logging and the controllers: only table contents and the stated database functions are kept.
- Input checks (identifier formats, payload size, profanity) and role checks: they decide whether a step happens at all. In pulls the role is the visibility predicate, which stays fixed over a run.
- Blog posts and reactions inside the sync service, and the platform broadcast: they run detached and do not look at the applied flag. Of blog comments there, the upserted row is modelled.
- Device activity, licences, the snapshot's contents, the scrubbing of personal data from the stream, and the placeholder text of hidden comments in pulls.
- SyncStream.ExactDelivery: purges that are no prefix and pulls at cursor zero after a purge are excluded from its runs; SyncStream.PurgeIff and SyncStream.ZeroCursorIff say exactly what they do.
- DeliveryOnce.ExactlyOnce: covers synced deliveries without a purge; online saves in between are the subject of DeliveryOnce.SavedBetween. The conflict log is not compared, since a repeated attempt may log again.
- Dates that do not parse, periods that are no number and statuses the table refuses: a refused row is a failed write.
- NoticeSanitizer.SanitizeNoticeHtml: inputs that are no string give the empty string in the code. Strings are sequences of code points; a reference to half a surrogate pair stands as U+FFFD, and lower case is modelled for A to Z and the two other characters whose lower case begins with a letter of that range.
- SanitizedLanguage.FitsAttr: says that a link passed the code's own scheme check. How a browser decodes and reads a link, in particular a reference written with an upper-case X, which that check does not decode, is not part of this model.
- TextEffects.ElementProjected: is about one element between plain texts; how elements combine rests on the model of the function.
- BlogList.ListBlogs: ties in the order of blogs, which separate range queries may break differently, and the reactions added to the page.
- BlogDiscourse: the author's name, the events emitted after each change, and reports.
- BlogDiscourse.StaysSound: acts are atomic here; BlogDiscourse.StoredRightIff takes counting and storing apart, and two rows of one user, which a race between two toggles can leave, are the subject of BlogDiscourse.TogglesOffIff.
- ChatHistory.NothingLost: the first load and a change of tenant replace the list as a whole and start a new run; typing indicators and pinning are not modelled.
- NoticeAudience: the explicit class and grade filters of the list, the switch that includes archived notices, and read marks.
- Billing.BillingService.GenerateBillingSnapshots: failed writes and the returned records; the volume discount is a parameter.
- BillingRuns.OneSnapshot: over interleaved runs uniqueness rests on the database's constraint on tenant and month, which is part of the insert.
- BillingRuns.DecisionFresh: each server process has its own cache, and the model is of one.
- Sponsorship: rounding to two decimals, audit events, and two pools for one month.
- Login, rate limits, analytics, school policy, media retention, the mobile app and the user interface.
