# Verified models of slimTS: substring search, base64, job queue, macros

This project models four pieces of slimTS in Dafny and proves what they promise.

- **Substring search** (`include/nbytes.h`). `SearchString` builds a search object that starts with a
  linear scan, upgrades itself to Boyer-Moore-Horspool and then to Boyer-Moore while a search is under way,
  and never goes back. The model keeps the object as a class with its three tables filled in place. Every
  strategy, every hand-off and every sequence of searches on one object is proved to answer as the naive
  search does, for one-byte and two-byte characters of either byte order, forward and backward, for needles
  of any length, including those of which only the last 250 characters are covered by tables. The border
  table and the good-suffix table are proved exact, and work counters in the loops give linear bounds
  for all that is read before Boyer-Moore takes over.
- **Base64 decoder** (`include/nbytes.h`). The packed fast path and the junk-skipping slow path together
  are proved equal to one definition: cut the six-bit values before the first `=` into bytes, as a bit stream,
  and stop where the buffer stops. Which units are values is said by their positions, and what the bytes are
  is also said in numbers, so `Decode` promises its result without naming a step of the decoder. The result of the inner decoder is exact for every buffer and every
  announced size. Encodings by RFC 4648, section 4 (padded) and section 5 (unpadded), come back whole.
- **Job queue** (`src/slim_queue.cpp`, `include/slim/queue/queue.h`, `src/plugins/queue/queue.cpp`). Each
  locked region is an atomic step; any interleaving of any number of submitting and consuming threads is a
  sequence of steps. A consumer completes a job as the plugin does: it looks up its ticket with `find_job` in
  one region and writes through the pointer it got in another. Tickets of jobs that were never handed out are
  arbitrary numbers. For all such runs it is proved that queues keep their shape, that no queue entry dangles,
  that jobs are served in the order of their submission and none twice while it lives. When a removal, a lookup
  or a completion hits precisely its own job, and when nobody drops out of the line, is stated by exact
  conditions; runs in which stale tickets are not positive meet them all. The locked regions are also given as code and proved to
  be those steps.
- **Macros** (`src/slim_macros.cpp`). The in-place replacement loop and the line loop. The number of lines is
  kept exactly when a condition on the path and the lines holds, which a caller can check beforehand.

Files: `Matching` (what a search must return), `Vector` (directed views, raw bytes, first-character search),
`BadCharacter` and `GoodSuffix` (the two rules and their tables), `StringSearch` (the object),
`SearchString` (the entry point), `Base64Bits`, `Base64`, `JobQueue` (steps and their invariant), `JobTickets`
(removal and lookup by ticket), `JobPointers` (from lookup to completion), `JobOrder` (who is served when),
`JobServer` (the regions as code), `Macros`, `Wrappers` (an optional value).
`dafny verify dfyconfig.toml` checks them all.

## What stale tickets do

`include/slim/queue/queue.h:28` declares `ticket_id` without an initializer, so a job that was never handed
out carries whatever number its memory held. Both the erase loop of `submit` and `find_job` compare tickets
only. Hence neither is exact in general. These runs show some of what goes wrong:

- `JobTickets.StaleTicketLosesJob`: a job waits with a stale ticket that equals an issued one, and the removal
  of the finished job takes it out of the queue as well.
- `JobTickets.StaleTicketTakesCompletion`: such a job arrives before the other one is completed, and the lookup
  finds it instead. Its submitter returns although its job was never handed out, and removes the job that was
  handed out.
- `JobPointers.CompletionMayDangle`: two consumers hold a pointer to one job, the second by an exact lookup. The
  first completes it, its submitter returns and deletes it, and the second is left with a pointer to a deleted job,
  through which the source then writes. In `JobPointers.CompletionMayHitNewJob` a new job has taken its place,
  and the write completes that one before it is even submitted.

In the first two runs the job that vanished is lost: `JobTickets.LostForEver` proves that no continuation
completes it, so its submitter waits for ever. The exact conditions are these:

- `JobTickets.RemovalExact`: a removal takes precisely the own job if and only if no other entry of the queue
  carries its ticket; when the own job was handed out, only waiting entries can.
- `JobTickets.LookupExact`: a lookup finds precisely the own job if and only if that job is still in the queue
  under its ticket and no waiting entry of the queue carries the same number. The first half is needed, because
  the second run above takes a handed-out job out of its queue.
- `JobPointers.CompletionExact`: that is not enough for the completion, which comes in a later region. After a
  lookup, the pointer is to the own job in every continuation up to the completion if and only if the condition
  of the lookup holds, the job is not completed, and no other consumer holds a pointer to it. `PointerExact` says
  the same of any later moment.
- `JobOrder.FirstComeFirstServed`: what is handed out and what still waits is, in this order, all that was
  waiting or submitted if and only if no removal carried the ticket of an unserved job, and otherwise a
  subsequence of it.

`JobTickets.CleanRunsAreExact`, `JobPointers.CleanPointersStay` and `JobOrder.CleanRunsServeAll` show that these
conditions hold throughout every run in which stale tickets are zero or less.

## What a newline in the path does

The replacements for `__dirname` and `__filename` are not searched for newlines, and a `__filename` that comes
in with the directory name is replaced in turn. `Macros.NewlineInPathSplitsLine` gives an input on which the
numbering of the output no longer agrees with its lines. `Macros.LineCountExact` says for which inputs it does.

## Model

| member | source | states |
|---|---|---|
| `Matching.FirstMatchExact` | include/nbytes.h:778-787 | the answer every forward search owes: the least match position not below the start, or the subject length exactly when there is none |
| `Matching.LastMatchExact` | include/nbytes.h:795-818 | the answer a backward search owes: the greatest match position not above the start, or the length exactly when there is none |
| `Matching.FoundIsNotSentinel` | include/nbytes.h:813-817 | a found position never equals the not-found sentinel, in either direction |
| `Vectors.ReverseAt` | include/nbytes.h:269-272 | a back-to-front view is the reversed memory |
| `Vectors.HighestValueByte` | include/nbytes.h:407-412 | one of the two bytes of the character, and not smaller than either |
| `Vectors.MemrchrFill` | include/nbytes.h:417-430 | the portable backward byte loop returns the last such byte of the range, or null exactly when there is none; empty ranges included; it reads from the end to the hit, or all |
| `Vectors.NextCandidate` | include/nbytes.h:445-464 | one byte search with its alignment, in either direction: the wanted character does not occur before the position found, or not at all; at most two bytes read for every character passed |
| `Vectors.FindFirstCharacterTwoByte` | include/nbytes.h:434-473 | searching raw bytes for the larger byte, aligning down and rechecking returns what a plain scan for the whole character returns, in both directions and both byte orders; it terminates; however many byte searches it takes, they read at most two bytes, and one recheck is made, for every character passed |
| `Vectors.FindFirstCharacterOneByte` | include/nbytes.h:477-498 | the one-call specialisation returns what a plain scan returns, in both directions, reading each character passed once |
| `BadCharacter.LastOccurrenceExact` | include/nbytes.h:709-734 | the bad-character entry of a class modulo 256 is its last index in the covered part without the last character, or start - 1 if there is none |
| `BadCharacter.BadCharSkip` | include/nbytes.h:558-565 | after a mismatch the bad-character shift skips no match although characters share classes, and at the last position it is at least 1 |
| `GoodSuffix.BorderFromExact` | include/nbytes.h:616-641 | border-table values are the first border start not below a position, so the table holds longest proper borders |
| `GoodSuffix.NextBorder` | include/nbytes.h:622-627 | following the border table from one border to the next passes over no border |
| `GoodSuffix.WalkStep` | include/nbytes.h:622-627 | a border that the next character does not extend can be left behind without losing the longest border |
| `GoodSuffix.WalkEnds` | include/nbytes.h:628 | where the walk stops, one less is the longest border of the suffix one longer |
| `GoodSuffix.OnlyEmptyBorder` | include/nbytes.h:629-640 | the shortcut: with only the empty border, comparing with the last character alone gives the next entry |
| `GoodSuffix.EntryExact` | include/nbytes.h:623-625 | an entry set during the border walk is the least shift that keeps the mismatch inside, and it never equals the sentinel |
| `GoodSuffix.BehindStop` | include/nbytes.h:622-627 | borders the walk does not reach were already given an entry that is at least as small |
| `GoodSuffix.ShiftFromExact` | include/nbytes.h:286-315 | the least good shift: allowed by the strong good-suffix rule, and no smaller positive shift is |
| `GoodSuffix.SettledShift` | include/nbytes.h:643-653 | after the last pass each entry is the least shift of the strong rule: the inner one if set, else the least border of the covered part at or behind it |
| `GoodSuffix.MatchIsGoodShift` | include/nbytes.h:577-585 | any later match, seen from a mismatch, is a shift the strong rule allows |
| `GoodSuffix.GoodSuffixSkip` | include/nbytes.h:577-585 | hence shifting by the least good shift skips no match, and the shift is positive |
| `StringSearches.StringSearch.constructor` | include/nbytes.h:323-339 | the fresh object is valid: strategy and covered part fit the pattern length |
| `StringSearches.StringSearch.EntriesBounded` | include/nbytes.h:309-315 | in every valid object the entries a search reads lie between -1 and the pattern length |
| `StringSearches.StringSearch.PopulateBoyerMooreHorspoolTable` | include/nbytes.h:709-734 | fills the whole table with the last occurrences of all 256 classes |
| `StringSearches.StringSearch.ExtendSuffix` | include/nbytes.h:620-628 | one walk along the borders yields the next longest border and brings every shift entry up to date |
| `StringSearches.StringSearch.PassOtherCharacters` | include/nbytes.h:629-636 | the shortcut loop keeps both tables, while only the empty border is left, until the last character comes up again or the covered part ends |
| `StringSearches.StringSearch.FindSuffixes` | include/nbytes.h:616-642 | the nested loops, with the shortcut, fill the border table of the covered part and all inner shifts; they terminate; the assignment guarded by the sentinel at the pattern length is dead |
| `StringSearches.StringSearch.BuildShifts` | include/nbytes.h:643-653 | the last pass turns every entry into the least good shift |
| `StringSearches.StringSearch.PopulateBoyerMooreTable` | include/nbytes.h:591-654 | good-suffix table exact for every index strictly inside the covered part, 1 at the pattern length; border table exact for every index; both inside 251 entries |
| `StringSearches.StringSearch.SkipShift` | include/nbytes.h:559-565 | one bad-character shift at the last position is positive and passes no match |
| `StringSearches.StringSearch.SkipToLastChar` | include/nbytes.h:559-565 | the skip loop passes no match, ends exactly where the bad-character rule leads (agreeing last characters, or beyond the subject), and saves the characters passed less those read that did not agree; every character read is counted |
| `StringSearches.StringSearch.CompareBackwards` | include/nbytes.h:566-571 | finds the last mismatching pattern position, or that there is none; counts every character it reads |
| `StringSearches.StringSearch.ShiftAfterMismatch` | include/nbytes.h:572-585 | the shift is the better of the least good-suffix shift and the bad-character shift, or the Horspool shift when more matched than the tables cover; positive, and it skips no match |
| `StringSearches.StringSearch.BoyerMooreSearch` | include/nbytes.h:542-589 | the naive answer, also when more matched than the tables cover |
| `StringSearches.StringSearch.BoyerMooreHorspoolSearch` | include/nbytes.h:660-707 | the naive answer, also when it gives up midway and Boyer-Moore goes on from the current index; characters inspected are at most twice the pattern length plus the distance advanced, and it upgrades only after inspecting more than the pattern length plus that distance |
| `StringSearches.StringSearch.CompareRest` | include/nbytes.h:524-530 | finds the first mismatching pattern position behind the first character, or that there is none; counts every comparison |
| `StringSearches.StringSearch.LinearSearch` | include/nbytes.h:514-536 | the naive answer; at most 6 comparisons and 3 reads of the first-character searches for every character of the subject from the start |
| `StringSearches.StringSearch.SingleCharSearch` | include/nbytes.h:504-508 | the naive answer for one character, for starts up to the subject length; at most 3 reads for every character from the start |
| `StringSearches.StringSearch.InitialSearch` | include/nbytes.h:742-776 | the naive answer, across the upgrade; fewer than 10 + 5 * pattern length comparisons before it returns or upgrades, at most 3 reads of the first-character searches for every character from the start, and a linear bound on the Horspool phase after it; it upgrades only when positions tried and comparisons exceed 10 + 4 * pattern length |
| `StringSearches.StringSearch.Search` | include/nbytes.h:341-355 | one call: naive answer, tables stay valid for the strategy, strategy never goes back; comparisons and first-character reads of a linear search bounded as there, and at most twice the pattern length plus what was left of the subject inspected in the Horspool phase |
| `StringSearches.StringSearch.SearchAll` | include/nbytes.h:778-787 | any sequence of calls on one object: every answer is the naive one, and every call keeps to all work bounds |
| `SearchStrings.Reflection` | include/nbytes.h:795-801 | matches of the reversed strings are the matches, reflected |
| `SearchStrings.FirstOfReverseIsLast` | include/nbytes.h:802-817 | the first match of the reversed views from the relative start is the last match not above the start |
| `SearchStrings.SearchString` | include/nbytes.h:790-818 | least match going forward, greatest going backward, length if none; needles longer than the haystack included; all work bounds over needle and haystack length |
| `Base64Bits.DecodedOfEncoded` | include/nbytes.h:111-135 | cutting a byte string into six-bit values and back is the identity |
| `Base64Bits.GroupBytes` | include/nbytes.h:129-132 | the three formulas of the slow path are the first three bytes of the bit stream of the values |
| `Base64Bits.DecodedByteExact` | include/nbytes.h:129-132 | every byte of the bit stream in numbers, from the values by multiplication, division and remainder |
| `Base64Bits.MaskFindsIllegal` | include/nbytes.h:191-193 | the mask test is true exactly when one of the four entries has its top bit set |
| `Base64Bits.PackedIsGroup` | include/nbytes.h:197-199 | the 32-bit extraction agrees bit for bit with the group formulas |
| `Base64Bits.DecodedByteShift` | include/nbytes.h:204-207 | decoding what is left after whole groups continues the decoding of the whole |
| `Base64.LegalValuesExact` | include/nbytes.h:117-124 | the values that are read are the table's values, in order, at exactly the positions with a table value below 64 and no `=` in front of them, whatever stands between |
| `Base64.FindLegalUnits` | include/nbytes.h:117-124 | every text has such positions |
| `Base64.NextLegal` | include/nbytes.h:117-124 | reads on to the next legal unit, passing only illegal ones that are not `=`, and yields its value; fails exactly at an `=` or at the end, with no legal unit passed |
| `Base64.DecodeGroupSlow` | include/nbytes.h:111-135 | writes the group's bytes that input and buffer allow, touches nothing else, and continues only after a full group with input and room left |
| `Base64.LastGroup` | include/nbytes.h:204-207 | after the loop, one more slow group at most completes the result |
| `Base64.DecodeFast` | include/nbytes.h:170-208 | for every buffer and every announced size: exact length, exact bytes, nothing behind them changed; all accesses in bounds |
| `Base64.Decode` | include/nbytes.h:210-215 | the result has 3/4 as many bytes, rounded down, as there are legal units in front of the first `=`, or fills the buffer; each byte is the stated combination of two neighbouring values; no other byte is touched; the computed size is never too small |
| `Base64.SizeSuffices` | include/nbytes.h:158-168 | the size computed from length and trailing `=` is at least the decoded length, for any input |
| `Base64.DecodedSizeFastExact` | include/nbytes.h:146-150 | three bytes for four units, rounded down, and one more when one unit is left over, except for a lone one |
| `Base64.DecodedSizeExact` | include/nbytes.h:158-168 | the same over the length without trailing `=`, of which at most two are taken off |
| `Base64.SizeOvershoot` | include/nbytes.h:158-168 | for legal units and padding only, the computed size is over by one exactly when one unit is left over, and else exact |
| `Base64.EncodedSizeExact` | include/nbytes.h:139-144 | whole groups of four, the least that suffice; without padding the least number of units that suffices |
| `Base64.UnpaddedSizeInverts` | include/nbytes.h:139-150 | the fast decoded size of the unpadded encoded size of n is n |
| `Base64.TextSizes` | include/nbytes.h:139-168 | encoded texts have the announced encoded size, and their computed decoded size is the original length |
| `Base64.FastSizeCountsPadding` | include/nbytes.h:146-150 | for encoded texts the size that does not check padding is over by exactly the number of `=`, at most two |
| `Base64.RoundTrip` | include/nbytes.h:210-215 | any byte string, encoded with or without padding under any alphabet the table inverts, decodes to itself |
| `Base64.DecodeEncoded` | include/nbytes.h:210-215 | decoding an encoded byte string into any buffer at least that long returns its length, leaves it at the front of the buffer and changes no other byte |
| `JobQueue.RunKeepsInv` | src/slim_queue.cpp:28-91 | every interleaving, with any stale tickets and whatever the lookups find, keeps every queue a row of distinct live jobs, handed-out ones first with increasing tickets, tickets distinct across queues |
| `JobQueue.NoDanglingEntry` | src/slim_queue.cpp:85-89 | after any run every entry points to a live job whose submitter is still waiting, so deleting a job after submit leaves no freed pointer in any queue; pointers that consumers hold are the matter of `JobPointers` |
| `JobQueue.EraseTicketKeeps` | src/slim_queue.cpp:86-89 | erasing keeps the order of the others and drops exactly the entries with the ticket |
| `JobTickets.RemovalExact` | src/slim_queue.cpp:86-89 | for any owner, handed out or not, present or not: the erase loop removes precisely the own job if and only if no other entry carries its ticket; for a handed-out owner if and only if no waiting entry does |
| `JobTickets.FindLast` | src/slim_queue.cpp:57-61 | lookup returns the last entry with the ticket, none exactly when there is no such entry |
| `JobTickets.LookupExact` | src/slim_queue.cpp:53-66 | find_job, called with what a consumer holds, returns the job it was handed if and only if that job is still queued under its ticket and no waiting entry of the queue carries that number |
| `JobPointers.StepKeepsAlone` | src/plugins/queue/queue.cpp:27-35 | whatever happens between lookup and completion leaves an uncompleted job to the one consumer that holds a pointer to it |
| `JobPointers.AloneStaysGood` | src/plugins/queue/queue.cpp:27-35 | then, in every continuation up to its completion, the pointer is good: the completion hits the own job, whose submitter still waits |
| `JobPointers.OwnCanVanish` | src/slim_queue.cpp:73-91 | otherwise there is a continuation in which the job is gone before the completion |
| `JobPointers.PointerExact` | src/plugins/queue/queue.cpp:27-35 | a pointer to the own job stays one, in every continuation up to the completion, if and only if the job is not completed and no other consumer holds a pointer to it |
| `JobPointers.CompletionExact` | src/plugins/queue/queue.cpp:27-35 | the same, told at the lookup: if and only if the lookup is exact, the job is not completed and no other consumer holds a pointer to it |
| `JobPointers.CompletionMayDangle` | src/plugins/queue/queue.cpp:32-35 | a concrete run with an exact lookup after which the pointer is to a deleted job |
| `JobPointers.CompletionMayHitNewJob` | src/plugins/queue/queue.cpp:32-35 | a concrete run with the same lookup in which the completion hits a new job that was never submitted |
| `JobPointers.CleanPointersStay` | src/plugins/queue/queue.cpp:27-35 | while stale tickets are not positive, every pointer from a lookup stays good up to the completion |
| `JobTickets.LostForEver` | src/slim_queue.cpp:73-84 | an uncompleted job that is in no queue, handed out or not, and to which no consumer holds a pointer, is never completed in any continuation, so its submitter never leaves the waiting loop |
| `JobTickets.StaleTicketLosesJob` | src/slim_queue.cpp:86-89 | a concrete run in which every lookup hits its own job and a removal still loses a waiting job |
| `JobTickets.StaleTicketTakesCompletion` | src/plugins/queue/queue.cpp:27-35 | a concrete run in which the lookup for a handed-out job completes another one: that one's submitter returns unserved, and the handed-out job is lost |
| `JobTickets.CleanLookup` | src/slim_queue.cpp:57-61 | while stale tickets are not positive, a consumer's lookup finds its own job |
| `JobTickets.CleanRemoval` | src/slim_queue.cpp:86-89 | while stale tickets are not positive, a removal takes its own job only, and no other job alive has its ticket |
| `JobTickets.CleanRunsAreExact` | src/slim_queue.cpp:53-91 | if stale tickets are never positive, then in every run each lookup and completion hits its own, live job, each removal is exact, and every job whose submitter waits is in its queue |
| `JobOrder.LineExact` | src/slim_queue.cpp:34-35 | in every reachable state the line of a queue is its part behind the handed-out jobs, complete and in order |
| `JobOrder.HandOutExact` | src/slim_queue.cpp:34-43 | get_job takes the head of the line, and finds nothing if and only if the line is empty |
| `JobOrder.EveryGetJobServes` | src/slim_queue.cpp:32-49 | in every run each attempt of get_job serves the head of the line, unless the line is empty at that moment |
| `JobOrder.AttemptsServe` | src/slim_queue.cpp:32-49 | in a run that takes nobody out of the line, the attempts serve as many jobs as there are attempts, or at least all that waited at the start |
| `JobOrder.StepServes` | src/slim_queue.cpp:34-43 | over every step: served now, then the line after, is a subsequence of the line before, then submitted now; equally long if and only if the step is no removal with the ticket of an unserved job |
| `JobOrder.FirstComeFirstServed` | src/slim_queue.cpp:28-91 | over every run: jobs handed out, then jobs still waiting, are a subsequence of jobs waiting before, then jobs submitted; nobody is missing if and only if no removal carried the ticket of an unserved job |
| `JobOrder.ServedInOrder` | src/slim_queue.cpp:28-72 | over every run from the start, jobs are handed out in the order of their submission |
| `JobOrder.NoneServedTwice` | src/slim_queue.cpp:35-39 | over every run, a job that was handed out is not handed out again, from any queue, before it is deleted |
| `JobOrder.TicketsCount` | src/slim_queue.cpp:38 | over every run the ticket counter grows by the number of jobs handed out from all queues |
| `JobOrder.TicketsInOrder` | src/slim_queue.cpp:38-40 | over every run the n-th job handed out gets the n-th ticket, and its consumer holds it until it completes |
| `JobOrder.ConsumerStays` | src/plugins/queue/queue.cpp:27-35 | over every run a consumer, and the pointer it found, stay until its own completion |
| `JobOrder.CompletesOnce` | src/plugins/queue/queue.cpp:27-35 | over every run there is no lookup or completion under a ticket after its completion |
| `JobOrder.WaitingTime` | src/slim_queue.cpp:34-43 | in a run that takes nobody out of the line, a job with w unserved jobs ahead is served as number w + 1, and is served if there are more than w attempts |
| `JobOrder.CleanRunsKeepLine` | src/slim_queue.cpp:86-89 | if stale tickets are never positive, no removal of any run takes an unserved job |
| `JobOrder.CleanRunsServeAll` | src/slim_queue.cpp:28-91 | if stale tickets are never positive, the jobs handed out are a prefix of the jobs submitted and the rest is the line |
| `JobServers.JobServer.SubmitEnqueue` | src/slim_queue.cpp:69-72 | the first locked region of submit is the enqueue step: the job is put at the end of its queue and is ready, and nothing else changes |
| `JobServers.JobServer.TryGetJob` | src/slim_queue.cpp:33-45 | one attempt of get_job is the hand-out step: it returns nothing, and changes no job, if and only if every entry of the queue was handed out; else it returns the first entry that was not, submitted under the next ticket |
| `JobServers.JobServer.FindJob` | src/slim_queue.cpp:56-61 | the scan of find_job returns the last entry with the ticket, nothing if and only if there is none |
| `JobServers.JobServer.ConsumerLookup` | src/plugins/queue/queue.cpp:27 | looking up by ticket and queue name is the lookup step |
| `JobServers.JobServer.ConsumerComplete` | src/plugins/queue/queue.cpp:32-35 | the write through the pointer that was found is the completion step: that job is completed and nothing else changes |
| `JobServers.JobServer.EraseEntries` | src/slim_queue.cpp:86-89 | the erase loop, whose iterator stays put on a hit, leaves the entries with other tickets in order |
| `JobServers.JobServer.SubmitErase` | src/slim_queue.cpp:85-89 | the last locked region of submit is the removal step: exactly the entries with the ticket leave that queue, and no other queue changes |
| `Macros.ReplaceToken` | src/slim_macros.cpp:11-24 | the in-place loop ends with the pieces between the leftmost tokens of the original line, joined with the replacement, which text is given double quotes; also when the replacement contains the token; it terminates |
| `Macros.CutIsLeftmost` | src/slim_macros.cpp:14 | every line is cut at its leftmost tokens into pieces that join back to it |
| `Macros.ReplaceIsRejoin` | src/slim_macros.cpp:14-21 | replacing the tokens is joining those pieces with the replacement, for any such cutting |
| `Macros.ReplaceByCuts` | src/slim_macros.cpp:14-21 | the same for a replacement with or without quotes, told by its length and characters |
| `Macros.PathParts` | src/slim_macros.cpp:34-36 | directory and file name are the path cut at its last slash, or both the path if it has none |
| `Macros.Decimal` | src/slim_macros.cpp:45 | the digits inserted stand for the line number, without leading zero |
| `Macros.DecimalExact` | src/slim_macros.cpp:45 | no other string of digits without leading zero stands for the number |
| `Macros.GetLine` | src/slim_macros.cpp:40 | one getline call takes the first of the remaining lines |
| `Macros.ExpandExact` | src/slim_macros.cpp:43-45 | a line expands to the one text in which the quoted directory, then the quoted file name, then the line number replace their tokens at the leftmost cuts, each in the result of the one before |
| `Macros.ApplyStream` | src/slim_macros.cpp:32-53 | the line loop appends the expansion of each line in turn |
| `Macros.Apply` | src/slim_macros.cpp:32-53 | the output is one expanded line for each line of the text, each followed by a newline; line k is expanded with number k, counted from 1; and getline reads those lines back if no expansion brings in a newline |
| `Macros.LinesOfPrefix` | src/slim_macros.cpp:40-46 | a text with k newlines in front of a terminator reads as k + 1 lines |
| `Macros.LastLine` | src/slim_macros.cpp:40 | an unterminated last line is read like any other |
| `Macros.LinesOfOutput` | src/slim_macros.cpp:39-47 | no line is lost; none is split if and only if no expansion holds a newline, and then the output reads back as the expanded lines |
| `Macros.NoOverlap` | src/slim_macros.cpp:43-44 | in no text do the two path tokens overlap |
| `Macros.FileNameAfterDirectory` | src/slim_macros.cpp:43-44 | after the first replacement a line asks for the file name if and only if it did before, or it asked for a directory whose name holds that token |
| `Macros.CharAfterReplace` | src/slim_macros.cpp:14-21 | a character that the token lacks is in the result if and only if it was in the line, or it is in the replacement and the line holds the token |
| `Macros.ExpandStaysOneLine` | src/slim_macros.cpp:43-46 | the three replacements bring a newline into a line if and only if the condition on path and line fails |
| `Macros.LineCountExact` | src/slim_macros.cpp:32-53 | for every text and path: the number of lines is kept if and only if no line asks for a directory with a newline or, itself or through its directory name, for a file name with one; the output then reads back as the expanded lines |
| `Macros.NewlineInPathSplitsLine` | src/slim_macros.cpp:34-47 | a path with a newline in its directory, and a text, for which the output has more lines than the text |
| `Macros.ApplyKeepsLines` | src/slim_macros.cpp:39-47 | for a path without a newline every text keeps its lines |

## Left out

- Byte alignment of the base address: `AlignDown` is rounding to a whole character counted from the start of the buffer.
- Integer widths in the search: indices, table entries and `badness` are mathematical integers; the entries a search reads stay between -1 and the pattern length, so they fit `int` for any pattern that does.
- Empty needles: the source demands a needle of at least one character.
- A single-character forward search that starts beyond the subject: the source's `max_n - index` would wrap, so such a start is excluded there and only there.
- `memchr`: its result is a function with the usual meaning; `memrchr` is the portable loop the file provides.
- `std::ceil` over `double` in the URL size is the integer ceiling; sizes where the conversion is inexact are not modelled.
- `unbase64_table` is a parameter, because only its declaration is in the header: entries are below 64 or negative, and `=` is negative.
- Base64 encoding has no body in the header; the encoder is RFC 4648's own definition over bits.
- JobServers.JobServer.FindJob: when no entry carries the ticket the source leaves its result pointer unset; the model returns None.
- The waiting loops of `get_job` and `submit` with their sleeps, log output, and fairness of the scheduler: repeated attempts are repeated steps.
- A consumer looks up the ticket and queue name of a job it was handed, once, and completes once; a lookup without a hit and a write through a pointer to a deleted job are undefined and no steps.
- A script that passes a queue name or ticket it was not given is not modelled, nor is the conversion of the ticket to `int`.
- Job results, error lists, file names, and the job fields that `listen` copies outside the lock.
- The work counters of a search: characters that Boyer-Moore inspects are not counted, nor the work of filling the tables.
- Positions and line numbers beyond the range of `int` in the macro code.
- `HexDecode`, `RoundUp` and the byte-swapping and hex declarations, which would add only easy members.
- Everything that embeds V8 or does I/O: plugins, module resolution, networking, metrics, logging, path and file fetching.
