# Lounge: a verified model of its state machines

Lounge is a desktop control room for software agents. Agents talk over a message bus, workers
pick up tasks from it, and what was learned is kept as *experiences* that people review. This
project models the parts of it that hold state or rewrite data, and proves what they keep over
all inputs, all runs and all interleavings.

| file | what it models |
|---|---|
| `StableSort.dfy`, `Sequences.dfy` | JavaScript's stable array sort, and list vocabulary |
| `EventFeed.dfy`, `Clock.dfy` | the capped event buffer, its sort key, the clock text of an event |
| `MessageMeter.dfy` | the 60-second message window with lazy pruning |
| `Whisper.dfy` | merging the experiences a context whisper carries into the list on screen |
| `ExperienceStore.dfy`, `ExperienceRules.dfy`, `ExperienceLaws.dfy` | the experience commands, listings, counts and review queues |
| `LoungeProvider.dfy` | the provider's state slots and the refresh / load-more paging |
| `QuotaFold.dfy`, `Efficiency.dfy`, `Windows.dfy` | quota folding, the failure report, pager and virtual list |
| `VaultPages.dfy`, `VaultRules.dfy` | the vault's page total, page query and appending page view |
| `PathMask.dfy`, `PathMaskScan.dfy` | the home-path masker, and one of its passes character by character |
| `PathMaskRegex.dfy`, `PathMaskHomes.dfy` | its regular expressions written out, and which home paths become a tilde |
| `PathMaskRoots.dfy`, `PathMaskLeaks.dfy`, `PathMaskTwice.dfy` | which home paths survive masking, and when masking twice is masking once |
| `PathMaskWords.dfy`, `PathMaskTexts.dfy`, `PathMaskExamples.dfy` | masking word by word, ordinary texts, and the texts that are not hidden |
| `Journal.dfy` | the hash-chained event journal and its verification |
| `TaskStore.dfy`, `TaskRules.dfy`, `TaskLaws.dfy`, `TaskTable.dfy` | the kernel's task table: admission, claims, results, cancellation |
| `WorkerProtocol.dfy`, `WorkerLaws.dfy`, `BotWorker.dfy` | the worker's session and its concurrent handlers |

Code that updates state step by step is modelled by methods and classes (`Store`, `Provider`,
`PageView`, `Worker`, `Journal`, `Table`, and the loops of the meter, the merges, the fold, the report and
the masker). Each of these is proved against a specification function or a state machine, and the
laws are proved about that.

## Conventions

- Time stamps and other sort keys are integers; `localeCompare` on ISO stamps is the integer order.
  What `Date.parse` makes of a text is a field (`isoMs`) or a parameter (`parsed`), None for NaN.
- Text is a sequence of characters; case folding is ASCII.
- A JavaScript `Map` that is read back in insertion order is its list of entries; the whisper
  merge also carries the keyed map, tied to that list by `MapValues`.
- `Array.prototype.sort` is `StableSort.Sort`. `SortIsDetermined` shows that any sorted
  rearrangement that keeps ties in input order is this one, so no algorithm is assumed wherever
  the comparator is a total preorder.
- A limit and an offset are natural numbers, and the project id of a listing is already trimmed.
- The display comparator subtracts `Number(is_pinned)`. For an undefined flag that is NaN, which a
  sort reads as a tie (`DisplayLe`). The store always sends the flag; rows that arrive by whisper
  always lack it. `ConsistentExactlyWithFlags` says when the comparator is consistent, and
  `OrderIsDetermined` that the order is then fixed. On other screens the language leaves the order
  to the engine; what is proved there, but for `WhisperLosesPinnedFirst`, is which rows are shown.
- A worker's publish either reaches the bus or raises; connecting, subscribing, draining and the
  task code may each succeed or fail at every step; schema validation accepts or rejects freely.
  One action is one stretch of code between two `await` points, and a run is any list of actions.
  The worker's own loops are written out against a script of what the world does at each `await`;
  every such execution is proved to be a run of the actions.
- The journal's hash is a parameter of which nothing is assumed, but in `HeadFixesJournal` that a
  hash has no `|` in it and is not the word for "no row before", as hexadecimal digits have none
  and are not. A change that goes unnoticed because two texts have one hash is stated as that pair
  of texts. Scrubbing and trimming come before. The number of a row is its key in the table.
- The task table is a map from ids to rows, as its primary keys make it. One step is one SQL
  statement or one transaction of one of any number of calls under way; in `TaskTable` a call runs
  as a whole, as under the kernel's lock. Keys, sessions and targets are already trimmed.
- The vault query is already trimmed and lower-cased, and its comparator is a parameter.

## What the proofs found

- The masker's comment promises that `/Users/<n>`, `/home/<n>` and `X:\Users\<n>` are masked at
  every boundary. `MaskingLeavesNoHome` says for every text exactly when that is so: when no root,
  whatever its slashes, is copied by all three passes. Roots spelled with backslashes can be
  (`BackslashRootsLeak`), and so can a drive path that starts inside another one which stays
  because a letter stands before it (`ShieldedRootsLeak`). A path that is spared as part of a URL
  can lose that URL to a match just before it, within one pass (`SwallowedUrlLeaks`).
- Masking twice is masking once exactly when the masked text starts with "~/" or every match that
  a pass meets in it stays (`MaskingTwice`); it is whenever the masked text shows no home path.
- Masking splits at white space unless just one of the two parts starts with "~/" (`MaskingSplits`):
  a text that starts with "~/" is taken for masked as a whole, however many words follow.
- The journal joins its texts with an unescaped `|`. A row's hash determines its texts exactly when
  none of them contains one (`AmbiguousExactlyWithPipes`); otherwise the row can be rewritten and
  still verifies (`PipedRowCanBeRewritten`). A missing id and an empty one hash alike. Apart from
  that and from explicit hash collisions, every change or deletion before the head is reported, at
  the row, the one after it, or the front of the table when its number sorts it there; the head
  itself is not protected.
- The fold of quota rows is documented to fold subscription rows only, but it drops every row
  that shares an id with a folded one. `OthersUntouched` gives the exact condition.
- Bulk reject followed by undo restores the store exactly if every rejected row was literally
  `"active"` with null archive fields; an absent status comes back as `"active"`, and an archived
  row comes back active (`RejectThenUndo`).
- The original of a row is the first text that is not empty among those that edits overwrote
  (`OriginalIsFirstText`), so an empty first text is forgotten.
- If only the count command fails, load-more never fetches again (`CountFailureStopsPaging`).
- A whisper that adds rows to the screen moves the next page by as many; the rows passed over are
  on screen afterwards exactly if the whisper brought them itself (`WhisperLeavesNoGap`). Otherwise
  no later load-more fetches them: one whispered row is enough to hide the next row of the listing
  until a refresh (`WhisperHidesTheNextRow`).
- A whispered row has no pin flag, so it ties with every other row, and keeping ties in order leaves
  the list as it is (`FlaglessRowFreezesOrder`). A load-more that follows does not put pinned rows
  first again (`WhisperLosesPinnedFirst`).
- The task table promises that a terminal row is never overwritten. Under the lock that holds for
  every admission, claim, yield, cancellation and bus report run as a whole
  (`WholeCallsKeepSettled`). A bus report, however, checks under one lock and writes under another:
  a yield in between is accepted as completed and ends as failed (`BusReportOverwritesYield`).
- The virtual list keeps its height exactly while the window starts within the list
  (`HeightIsConserved`); every row that meets the viewport is rendered at any scroll offset.
- Printed clocks order two instants less than a day apart exactly when no midnight lies between
  them (`PrintedOrder`), so fixtures without a time stamp sort wrongly across midnight.

## Model

| member | source | states |
|---|---|---|
| `StableSort.SortIsDetermined` | src/lib/lounge.ts:364-372 | a sorted rearrangement that keeps ties in input order is unique: whatever sort routine is used, its result is this one |
| `StableSort.FilterSort` | src/lib/lounge.ts:363-372 | stability in full: sorting commutes with every filter, so rows of equal key keep their relative order |
| `StableSort.GroupedSort` | e2e/harness/tauri-mock.ts:281-289 | a two-level comparator (group first, then order) yields the sorted group followed by the sorted rest |
| `EventFeed.SortEventsIsStable` | src/lib/lounge.ts:364-372 | the sort on (event, index) pairs is newest-first and leaves events of equal key in their given order |
| `EventFeed.IngestTruncates` | src/components/lounge-provider.tsx:528-533 | ingesting into the first 500 of the past gives the first 500 of past plus message: cutting early loses nothing |
| `EventFeed.BufferIsOfflineSort` | src/components/lounge-provider.tsx:526-533 | after any run, repeats included, the buffer is the first 500 of the stable newest-first sort of all admitted messages, later arrivals first among equal keys |
| `EventFeed.DistinctArrivalsAreAdmitted` | src/components/lounge-provider.tsx:529-531 | when no id repeats over a run, no message is ever dropped as a repeat |
| `EventFeed.DistinctArrivalsAreAllKept` | src/components/lounge-provider.tsx:526-533 | when no id repeats, the buffer is the first 500 of the stable sort of everything ever ingested |
| `EventFeed.IngestKeepsBufferValid` | src/components/lounge-provider.tsx:528-533 | with any ids, one message keeps the buffer sorted, duplicate-free and at most 500 long |
| `EventFeed.EveryRunKeepsBufferValid` | src/components/lounge-provider.tsx:526-533 | the same after every run from the empty buffer |
| `EventFeed.KeyIsTime` | src/lib/lounge.ts:350-361 | the key of an event is its time stamp, without one the clock its text shows, without that what Date.parse says, and otherwise 0 |
| `EventFeed.KeyOfPrintedClock` | src/lib/lounge.ts:345-361 | an event that shows a printed clock counts as the millisecond of its day |
| `EventFeed.NewestAreKept` | src/components/lounge-provider.tsx:526-533 | of time-stamped arrivals with different ids the buffer holds the 500 newest: its stamps never increase, and nothing dropped is newer than anything kept |
| `Clock.PrintParse` | src/lib/lounge.ts:1444-1449 | the sort key reads back from the printed HH:mm:ss.mmm text the exact millisecond of the day |
| `Clock.ParseIsPattern` | src/lib/lounge.ts:354-360 | a text is read as a clock if and only if it is one or two digits, ":mm", and optionally ":ss" and a fraction of up to three digits; then as that number of milliseconds |
| `Clock.PrintIsClockText` | src/lib/lounge.ts:1444-1449 | the printed text: hours, minutes, seconds and milliseconds in two, two, two and three digits between ":", ":" and "." |
| `Clock.PrintedOrder` | src/lib/lounge.ts:345-361 | keys of two printed clocks less than a day apart order them correctly if and only if both lie in the same day |
| `Clock.MidnightSwapsOrder` | src/lib/lounge.ts:345-361 | the last millisecond of a day gets a greater key than the first of the next |
| `MessageMeter.PruneMsgWindow` | src/lib/lounge.ts:1085-1097 | the loop with its seen-set returns the in-window ticks in order, each id at its first in-window occurrence |
| `MessageMeter.RecordMsgTick` | src/lib/lounge.ts:1099-1105 | prunes, then appends the tick unless its id is empty or already in the window |
| `MessageMeter.PrunedIsDistinct` | src/lib/lounge.ts:1085-1097 | pruning any list leaves no id twice and keeps a tick for every id that has one in the window |
| `MessageMeter.TimerShortcutIsSound` | src/components/lounge-provider.tsx:1094-1099 | keeping the old list when the pruned one is equally long is the same as pruning |
| `MessageMeter.CountedDistinctInWindow` | src/lib/lounge.ts:1099-1105 | with a nondecreasing clock no two messages of one id count within the same 60 seconds |
| `MessageMeter.WindowIsExact` | src/lib/lounge.ts:1085-1105 | with a nondecreasing clock, whatever timer prunes are interleaved and whatever ids repeat, the window holds exactly the counted arrivals of the last 60 000 ms in arrival order |
| `MessageMeter.FreshIdsAllCount` | src/lib/lounge.ts:1099-1105 | when ids are non-empty and never repeat, every arrival counts |
| `MessageMeter.FreshIdsWindowIsArrivals` | src/lib/lounge.ts:1085-1105 | for such ids the window is exactly the arrivals of the last 60 000 ms in arrival order |
| `MessageMeter.IdsStayUnique` | src/lib/lounge.ts:1099-1105 | with any clock and any ids the window never holds an id twice |
| `MessageMeter.WindowIsAMinute` | src/lib/lounge.ts:1085-1105 | with a nondecreasing clock a tick is in the window if and only if it was counted and is at most 60 000 ms old |
| `MessageMeter.CountedIsDecided` | src/lib/lounge.ts:1099-1105 | a message counts if and only if its id is not empty and no tick of it counted in the 60 000 ms before |
| `WhisperMerge.IndexById` | src/lib/lounge.ts:826-826 | building the map from the rows gives each id once, at its first place, with its last row |
| `WhisperMerge.SetMissing` | src/lib/lounge.ts:827-831 | the loop adds exactly the rows whose id the map lacks when they are reached, in order |
| `WhisperMerge.MergeWhisperedExperiences` | src/lib/lounge.ts:819-843 | the map loops and the sort compute the merge the next three rows speak of |
| `WhisperMerge.MergeIsUnionById` | src/lib/lounge.ts:819-843 | for rows with unique ids: no existing row is lost or altered, every id of list and whisper appears exactly once, new rows come from the whisper |
| `WhisperMerge.MergePutsWhisperedFirst` | src/lib/lounge.ts:832-842 | whispered rows first, both groups newest first with ties in order |
| `WhisperMerge.MergeOrder` | src/lib/lounge.ts:832-842 | of two rows in a merge the earlier one is whispered and the other is not, or else it is at least as new |
| `WhisperMerge.MergeIsIdempotent` | src/lib/lounge.ts:819-843 | merging the same whisper again changes nothing, for any list and any whisper |
| `ExperienceStore.Store.UpdateExperience` | e2e/harness/tauri-mock.ts:308-332 | patches the first row with the id, saving the summary as original if there is none; an unknown id is an error that changes nothing |
| `ExperienceStore.Store.ArchiveExperience` | e2e/harness/tauri-mock.ts:333-343 | archives the first row with the id as "user", every other row unchanged |
| `ExperienceStore.Store.UnarchiveExperience` | e2e/harness/tauri-mock.ts:344-354 | makes that row active and clears its archive fields |
| `ExperienceStore.Store.PinExperience` | e2e/harness/tauri-mock.ts:355-364 | sets that row's pin flag and nothing else |
| `ExperienceStore.Store.MarkExperienceReviewed` | e2e/harness/tauri-mock.ts:365-374 | marks that row reviewed whatever its status |
| `ExperienceStore.Store.MarkAllExperiencesReviewed` | e2e/harness/tauri-mock.ts:375-385 | the loop marks exactly the pending rows and answers with their previous number |
| `ExperienceStore.Store.MarkExperiencesReviewed` | e2e/harness/tauri-mock.ts:386-399 | the loop marks, id by id, the first row with the id if pending, and counts those |
| `ExperienceStore.Store.RejectExperience` | e2e/harness/tauri-mock.ts:400-410 | archives the first row with the id as "rejected" |
| `ExperienceStore.Store.RejectExperiences` | e2e/harness/tauri-mock.ts:411-425 | the loop rejects each id that is found and counts every hit, repeats included |
| `ExperienceStore.Store.UndoRejectExperience` | e2e/harness/tauri-mock.ts:426-436 | reactivates a rejected row; anything else is an error that changes nothing |
| `ExperienceRules.UpdateRule` | e2e/harness/tauri-mock.ts:308-332 | an edit writes each field that it brings and the time into the first row with the id, and keeps the text before the first edit as the original; an unknown id is an error |
| `ExperienceRules.FieldRules` | e2e/harness/tauri-mock.ts:333-410 | what archiving, rejecting, reactivating, pinning and marking write into the row they name, and that an unknown id is an error that changes nothing |
| `ExperienceRules.UndoRule` | e2e/harness/tauri-mock.ts:426-436 | undo reactivates a row rejected before, and is an error for any other |
| `ExperienceRules.MarkAllRule` | e2e/harness/tauri-mock.ts:375-385 | mark-all marks exactly the active rows that await review and answers with their number |
| `ExperienceRules.RejectManyCount` | e2e/harness/tauri-mock.ts:411-425 | bulk reject answers with the number of ids in its list that some row has, repeats included |
| `ExperienceRules.ListingRule` | e2e/harness/tauri-mock.ts:270-303 | a listing is the window of the rows seen (archived ones only if asked for, one project if given), pinned first and newer before older with ties in order; the count is their number |
| `ExperienceRules.QueueRule` | e2e/harness/tauri-mock.ts:508-571 | a row of a review queue is one of the store that its stat selects and its filters let through, without its original; the limit holds |
| `ExperienceRules.QueueShowsAll` | e2e/harness/tauri-mock.ts:508-571 | with room enough every such row is in the queue |
| `ExperienceRules.QueueOrder` | e2e/harness/tauri-mock.ts:524-551 | the pending queue puts rows that need hygiene first, and both it and the hygiene queue are newest first |
| `ExperienceRules.CountRule` | e2e/harness/tauri-mock.ts:437-487 | the badge and the stats count exactly the rows that the queues select |
| `ExperienceLaws.RejectListPointwise` | e2e/harness/tauri-mock.ts:411-425 | bulk reject archives exactly the rows its ids look up and leaves every other row alone |
| `ExperienceLaws.UndoListPointwise` | e2e/harness/tauri-mock.ts:426-436 | undoing a list of ids reactivates exactly the rejected rows its ids look up |
| `ExperienceLaws.RejectThenUndo` | e2e/harness/tauri-mock.ts:411-436 | bulk reject then undo of the same ids, in any order and with repeats, restores the store if and only if every row looked up was "active" with no archive fields |
| `ExperienceLaws.MarkManyReturnsTheDrop` | e2e/harness/tauri-mock.ts:386-399 | for any id list, repeats and unknown ids included, the answer is exactly the drop in the unreviewed count |
| `ExperienceLaws.MarkManyLeavesNoneListed` | e2e/harness/tauri-mock.ts:386-399 | each listed pending row becomes reviewed, every other row is unchanged |
| `ExperienceLaws.MarkAllClearsTheCount` | e2e/harness/tauri-mock.ts:375-385 | mark-all answers with the previous unreviewed count and leaves it at zero |
| `ExperienceLaws.UnreviewedIsPendingStat` | e2e/harness/tauri-mock.ts:437-487 | a remark: in every store the unreviewed count equals the pending stat, as both select the same rows |
| `ExperienceLaws.QueueLengthIsStat` | e2e/harness/tauri-mock.ts:488-571 | each review queue without further filters has min(limit, its stat) rows |
| `ExperienceLaws.PendingQueueStartsWithHygiene` | e2e/harness/tauri-mock.ts:524-543 | the pending order is the hygiene queue followed by the other pending rows newest first: the two sorts agree |
| `ExperienceLaws.HygieneOnlyIsHygieneQueue` | e2e/harness/tauri-mock.ts:524-571 | the pending queue narrowed to hygiene is the hygiene queue, at every limit |
| `ExperienceLaws.ApplyKeepsRow` | e2e/harness/tauri-mock.ts:308-436 | every command keeps each row's identity, archive bookkeeping, reviewed mark and first non-empty summary |
| `ExperienceLaws.RunKeepsRow` | e2e/harness/tauri-mock.ts:308-436 | so does every run of commands |
| `ExperienceLaws.RunKeepsConsistent` | e2e/harness/tauri-mock.ts:308-436 | from a consistent store every run keeps: archived if and only if both archive fields are set, and "rejected" implies archived |
| `ExperienceLaws.RevertRestoresFirst` | src/components/experience-drawer.tsx:389-398 | after any run on a row with a non-empty summary and no original, either the summary never changed or reverting is offered and restores the very first text |
| `ExperienceLaws.OriginalIsFirstText` | e2e/harness/tauri-mock.ts:315-320 | after any run the original is the one the row had, or else the first non-empty text that an edit of the run overwrote |
| `ExperienceLaws.AbsentStatusIsNotRestored` | e2e/harness/tauri-mock.ts:426-436 | a row without a status does not come back from reject and undo as it was |
| `ExperiencePaging.RefreshShowsFirstPage` | src/components/lounge-provider.tsx:252-263 | a refresh shows the first 100 rows of the backend's pinned-then-newest order; sorting for display moves nothing |
| `ExperiencePaging.NextPageIsUnseen` | src/components/lounge-provider.tsx:302-309 | for unique ids the duplicate check drops no row of the page after a prefix |
| `ExperiencePaging.LoadMoreExtendsPrefix` | src/components/lounge-provider.tsx:287-317 | one load-more extends a prefix of the backend's order by the next 100 rows: no repeat, no gap, nothing moved |
| `ExperiencePaging.Loads` | src/components/lounge-provider.tsx:245-317 | after a refresh and k load-more calls on a frozen store the screen is exactly the first 100(k+1) rows of the backend's order |
| `ExperiencePaging.LoadStep` | src/components/panels.tsx:766-811 | the induction step, for any scope, the panel's project scope included |
| `ExperiencePaging.LoadsReachEverything` | src/components/lounge-provider.tsx:287-317 | min(100(k+1), total) rows are held, and the whole listing if and only if it fits |
| `ExperiencePaging.LoadMoreProgress` | src/components/lounge-provider.tsx:291-293 | load-more does nothing if and only if all rows are held; otherwise total minus length goes down and stays non-negative |
| `ExperiencePaging.LoadedMoreShowsScreen` | src/components/lounge-provider.tsx:287-317 | on any screen, whispered rows included, load-more shows in some order the current rows and the unseen rows of the page at their number, also when it does not fetch |
| `ExperiencePaging.ConsistentExactlyWithFlags` | src/lib/experience.ts:70-78 | on given rows the display comparator is transitive if and only if every row has a pin flag or the rows that have one all tie |
| `ExperiencePaging.OrderIsDetermined` | src/lib/experience.ts:70-78 | then any sorted rearrangement that keeps ties in order is the one displayed |
| `ExperiencePaging.DisplayOrder` | src/lib/experience.ts:70-78 | with a flag on every row the display shows all rows, pinned ones first and newer before older |
| `ExperiencePaging.FlaglessRowTies` | src/lib/experience.ts:70-78 | a row without a flag ties with every other row |
| `ExperiencePaging.FlaglessRowFreezesOrder` | src/lib/experience.ts:70-78 | with a row without a flag among them, the only rearrangement that keeps ties in order is the list as it was |
| `ExperiencePaging.WhisperLeavesNoGap` | src/components/lounge-provider.tsx:287-317 | load-more after a whisper shows every listed row up to the end of the fetched page if and only if the whisper brought each row the page passed over |
| `ExperiencePaging.WhisperHidesTheNextRow` | src/components/lounge-provider.tsx:287-317 | while rows are missing, whispering one row that is neither on screen nor the next listed one hides that next one from every number of later load-mores |
| `ExperiencePaging.PassedOverStaysAway` | src/components/lounge-provider.tsx:297-311 | a listed row that the offset has passed while it was not on screen is not fetched by any later load-more |
| `ExperiencePaging.WhisperLosesPinnedFirst` | src/lib/experience.ts:70-78 | after a whisper about an unpinned row on screen and an older new one, load-more leaves the unpinned row in front of the pinned ones |
| `ExperiencePaging.CountFailureStopsPaging` | src/components/lounge-provider.tsx:260-263 | when only the count failed, load-more changes nothing, and all rows are held if and only if at most 100 are listed |
| `ExperiencePaging.CountFailureHidesARow` | src/components/lounge-provider.tsx:260-263 | with 101 listed rows and a failed count one of them is not shown |
| `LoungeProvider.Provider.IngestBusMessage` | src/components/lounge-provider.tsx:526-534 | the event buffer and the meter after a message are those of the two models; a whisper the message carries is merged into the experiences |
| `LoungeProvider.Provider.PruneMeter` | src/components/lounge-provider.tsx:1094-1099 | the timer's update of the meter; no other slot changes |
| `LoungeProvider.Provider.RefreshExperiences` | src/components/lounge-provider.tsx:245-269 | first page and count, the page's length when only the count fails, an empty list when the list command fails |
| `LoungeProvider.Provider.LoadMoreExperiences` | src/components/lounge-provider.tsx:287-317 | the loop with its seen-set appends the unseen rows of the next page and sorts; a failure changes nothing |
| `WorkerProtocol.SessionStepKeepsInv` | workers/bot_template.py:285-333 | every stretch of the session, with any outcome, keeps the log lawful and the phase in agreement with it |
| `WorkerProtocol.StepKeepsInv` | workers/bot_template.py:233-333 | so does every action: signals, heartbeats, deliveries and handler steps |
| `WorkerProtocol.EveryRunIsLawful` | workers/bot_template.py:233-333 | every run's log is lawful, entry by entry |
| `WorkerLaws.RegisterBeforeSubscribe` | workers/bot_template.py:320-322 | a subscription directly follows its session's registration, and a run has at most one |
| `WorkerLaws.RegisterAfterConnect` | workers/bot_template.py:285-322 | between a registration and the last connect call before it there are only retry waits |
| `WorkerLaws.OneHeartbeatLoop` | workers/bot_template.py:233-242 | at most one heartbeat loop is live, and it beats only after the subscription and before the farewell |
| `WorkerLaws.UnregisterOnceAfterRegister` | workers/bot_template.py:226-231 | unregister is published at most once, never before a register, and only task messages can follow it |
| `WorkerLaws.WaitsBackOff` | workers/bot_template.py:285-305 | each retry wait is the n-th of its connect call, n from zero, and lasts min(2^n, 30) seconds |
| `WorkerLaws.TasksFollowSubscription` | workers/bot_template.py:322-322 | nothing is published for a task before the subscription |
| `WorkerLaws.StoppedStepDescends` | workers/bot_template.py:307-333 | once stop is set no action climbs and every session stretch comes strictly closer to the end |
| `WorkerLaws.StopEndsTheRun` | workers/bot_template.py:307-333 | once stop is set, eight more session stretches, with any outcomes and anything in between, end the run |
| `WorkerLaws.StopMeansSignal` | workers/bot_template.py:307-313 | after any run the worker is stopping if and only if a signal has come |
| `WorkerLaws.SignalEndsTheRun` | workers/bot_template.py:307-333 | a signal ends every run in which the session task runs eight more stretches |
| `WorkerLaws.DeliveryStartsHandler` | workers/bot_template.py:322-322 | a delivered message gets its own handler if and only if the worker has subscribed and not ended |
| `WorkerLaws.WorkEnds` | workers/bot_template.py:262-277 | work that returns a result goes on to report it; a bad result or an exception is reported as failed only for a task of type "task" |
| `WorkerLaws.HeartbeatWhileServing` | workers/bot_template.py:233-242 | a heartbeat is published if and only if the worker serves, no signal has come and the publish succeeds |
| `WorkerLaws.FarewellIsItsOutcome` | workers/bot_template.py:226-231 | once the session is past its farewell, the farewell is in the log if and only if its publish succeeded |
| `WorkerLaws.SilentAfterEnd` | workers/bot_template.py:327-333 | after the end nothing more is published, by handlers still at work either |
| `WorkerLaws.HandlerStepKeepsInv` | workers/bot_template.py:256-283 | every handler step keeps what its trace may be at its program point, whatever fails |
| `WorkerLaws.EveryRunKeepsHandlers` | workers/bot_template.py:256-283 | the same for all handlers at once, under every interleaving |
| `WorkerLaws.AtMostOneVerdict` | workers/bot_template.py:256-283 | each message gets at most one completed or failed, and nothing is published for it afterwards |
| `WorkerLaws.CompletedAfterStartedAndAck` | workers/bot_template.py:262-270 | completed comes only after started, and after the acknowledgement when the task id is not empty |
| `WorkerLaws.FailedOnlyForTasks` | workers/bot_template.py:273-277 | failed is published only for a message that carries a task of type "task" |
| `WorkerLaws.ExactlyOneVerdict` | workers/bot_template.py:256-283 | a finished handler none of whose publishes was lost, on a task of type "task", published exactly one verdict |
| `BotWorker.HandleMessage` | workers/bot_template.py:256-283 | what the handler publishes, spelled out for any outcomes: acknowledgement, start, reports and one verdict; the trace is open or closed by that verdict |
| `BotWorker.Worker.Connect` | workers/bot_template.py:285-305 | the retry loop, whatever the world answers and does meanwhile: it logs exactly its connect and its waits of min(2^n, 30) seconds, ends at the first acceptance or at a stop, and leaves the worker where a run of the protocol ends |
| `BotWorker.Worker.Session` | workers/bot_template.py:320-328 | register, subscribe, serve until stop, say farewell, drain: steps of the protocol that end in its end or, after a failure, in its pause |
| `BotWorker.Worker.Sessions` | workers/bot_template.py:318-333 | the session loop ends with the run ended, or waits for ever for an answer |
| `BotWorker.Worker.Run` | workers/bot_template.py:307-333 | whatever the script of the world, the log is that of the one protocol run the script amounts to, and lawful; the run returns if and only if that run has ended, and always when a signal has come and eight turns follow |
| `BotWorker.SignalFinishes` | workers/bot_template.py:307-333 | a signal in one turn of a script, with that turn and seven more to go, ends the run |
| `BotWorker.GoodDay` | workers/bot_template.py:307-333 | when everything succeeds the worker subscribes, serves until the first signal, publishes its farewell and ends |
| `QuotaFold.MergeClaudeQuotaRows` | src/lib/lounge.ts:1171-1237 | the loop with its inserted flag computes the fold the next rows speak of |
| `QuotaFold.WorstToneIsWorst` | src/lib/lounge.ts:1203-1207 | the reduction gives amber if any row is amber or exhausted, else warn if any is, else the first row's tone |
| `QuotaFold.MaxPercentIsMax` | src/lib/lounge.ts:1208-1212 | the reduction gives a percent some row has and none exceeds, and none only when no row has one |
| `QuotaFold.CardSummarises` | src/lib/lounge.ts:1203-1222 | when two or more fold, the card is in the result with the maximal percent, exhausted if any is, and the worst tone |
| `QuotaFold.AtMostOneClaudeRow` | src/lib/lounge.ts:1171-1237 | whatever the list, exactly min(1, number before) Claude subscription rows are left |
| `QuotaFold.FoldIsIdempotent` | src/lib/lounge.ts:1171-1237 | folding twice is folding once, for every list |
| `QuotaFold.OthersUntouched` | src/lib/lounge.ts:1224-1236 | all other rows survive unchanged and in order if and only if nothing is folded together or none shares an id with a Claude row |
| `QuotaFold.SharedIdIsDropped` | src/lib/lounge.ts:1224-1236 | a local row that shares its id with one of two Claude rows is gone after the fold |
| `QuotaFold.ClaudeRows` | src/lib/lounge.ts:1172-1191 | which rows fold: subscription rows of the three hosts, or named after the desktop or command-line tool |
| `QuotaFold.LoneRow` | src/lib/lounge.ts:1193-1201 | a lone row of Claude gets its name and host unless it is a plugin; any other row is left as it is |
| `QuotaFold.PairBecomesCard` | src/lib/lounge.ts:1203-1236 | two such rows become one card, field by field |
| `QuotaFold.CardTakesFirstPlace` | src/lib/lounge.ts:1224-1236 | with distinct ids the card stands exactly where the first Claude row stood, everything else in order around it |
| `Efficiency.CountFailingEvents` | src/lib/lounge.ts:2167-2172 | the loop over events tallies one failure per failing event, charged to its sender |
| `Efficiency.CountFailures` | src/lib/lounge.ts:2173-2180 | the loop over experiences adds one per failure within project and week |
| `Efficiency.BuildFailures` | src/lib/lounge.ts:2167-2223 | rows and total of the report are the sorted tally and its sum |
| `Efficiency.TallyIsExact` | src/lib/lounge.ts:2167-2180 | one entry per agent, with that agent's exact count, summing to the number charged |
| `Efficiency.FailuresAreConserved` | src/lib/lounge.ts:2167-2223 | the total is failing events plus in-scope failures; one row per agent with its exact count, in non-increasing order |
| `Efficiency.ReportIsExact` | src/lib/lounge.ts:2167-2180 | each agent is charged with exactly the events whose subject holds "task.failed" or whose state is "error", and the failed experiences in project and week, that name it; nobody means "unknown" |
| `Efficiency.RowsAreCounts` | src/lib/lounge.ts:2181-2223 | the rows carry these numbers, one per agent, most failures first |
| `VaultPages.PageTotal` | e2e/harness/vault-mock.ts:27-41 | the set built by the two loops has as many paths as there are among all pages |
| `VaultPages.GatherPages` | e2e/harness/vault-mock.ts:123-143 | generated pages, with each node's page put in front of them |
| `VaultPages.FilterSeen` | e2e/harness/vault-mock.ts:144-149 | the seen-set filter keeps the first page of every path |
| `VaultPages.ListPages` | e2e/harness/vault-mock.ts:112-172 | the window of the sorted, matched, de-duplicated pages, and their number |
| `VaultPages.FirstPerPathIsExact` | e2e/harness/vault-mock.ts:144-149 | de-duplication leaves every path exactly once and invents no page |
| `VaultPages.TotalsAgree` | e2e/harness/vault-mock.ts:27-41 | for every project the set-based total is the total of the unfiltered list query, under any sort |
| `VaultPages.ListingIsDistinct` | e2e/harness/vault-mock.ts:144-164 | no listing shows a path twice |
| `VaultRules.GeneratedNames` | e2e/harness/vault-mock.ts:123-126 | page i is prefix/page_NNN.rs with at least three digits, and no two pages have the same path |
| `VaultRules.TitleOfNode` | e2e/harness/vault-mock.ts:135-143 | the title of a node is the last segment of its file, with either slash and any number of slashes at the end |
| `VaultRules.FirstIsKept` | e2e/harness/vault-mock.ts:144-149 | de-duplication keeps exactly the first page of every path |
| `VaultRules.NodeIsShown` | e2e/harness/vault-mock.ts:133-149 | the last node of a file stands for that path, with its title, name and reference count |
| `VaultRules.GeneratedIsShown` | e2e/harness/vault-mock.ts:123-149 | a generated page is shown, with its fields, unless a node has its path |
| `VaultRules.ListingIs` | e2e/harness/vault-mock.ts:150-164 | a listing holds exactly the de-duplicated pages with the text in path, title or snippet, in the order of the query |
| `VaultPages.PagingIsPrefix` | src/components/panels.tsx:569-639 | with a fixed query and sort, after k successful and any failed load-more calls the view is exactly the first 200(k+1) pages of the listing |
| `VaultPages.LoadMoreStopsAtTotal` | src/components/panels.tsx:619-639 | load-more changes nothing if and only if the listing is held or the fetch fails; otherwise pages are gained |
| `VaultPages.PageView.FetchProjectPages` | src/components/panels.tsx:569-609 | appends or replaces the window; a failed first fetch clears the view, a failed append leaves it |
| `VaultPages.PageView.HandlePageSearch` | src/components/panels.tsx:611-617 | a search replaces the query and what is held by the first 200 pages and the length of its listing, or by nothing when it fails |
| `VaultPages.PageView.HandleLoadMorePages` | src/components/panels.tsx:619-639 | asks for the window at the current length, and only while pages are missing |
| `Windows.PageCount` | src/lib/lounge.ts:1107-1109 | the least positive number of pages that holds all items |
| `Windows.PagesPartitionTheList` | src/lib/lounge.ts:1107-1116 | the slices of all pages concatenate to the list, every page but the last is full, the last is not empty unless the list is |
| `Windows.OutOfRangePages` | src/lib/lounge.ts:1111-1116 | a page number below the range shows the first page, one above it the last |
| `Windows.ViewportIsCovered` | src/components/dead-symbols-panel.tsx:157-159 | every row that meets the viewport is rendered, at any row height above 0, offset, viewport and length |
| `Windows.HeightIsConserved` | src/components/dead-symbols-panel.tsx:157-161 | top pad, rendered rows and bottom pad add up to the full height if and only if the window starts within the list |
| `Windows.SkippedAbove` | src/components/dead-symbols-panel.tsx:157-158 | a row above the viewport is skipped if and only if eight more rows fit in between |
| `Windows.SkippedBelow` | src/components/dead-symbols-panel.tsx:157-159 | of a scrolled list seven more rows below the viewport are rendered, and none that eight rows keep from it |
| `Windows.StaleScrollLeavesPad` | src/components/dead-symbols-panel.tsx:157-161 | an empty list still scrolled to nine rows keeps one row of pad |
| `PathMask.MaskHomePathForUi` | src/lib/health-agents.ts:90-117 | the loop over the three patterns and the normalisation compute the rewrite that all members below speak of |
| `PathMaskRegex.DriveIsRegex` | src/lib/health-agents.ts:97-97 | the drive scanner matches exactly what the regular expression does, and as much of it, character classes written out |
| `PathMaskRegex.PosixIsRegex` | src/lib/health-agents.ts:98-99 | so do the scanners of the two POSIX patterns |
| `PathMaskRegex.UrlIsRegex` | src/lib/health-agents.ts:73-77 | a match is spared as part of a URL if and only if the text before it ends as the expression says |
| `PathMaskRegex.BoundaryIsRegex` | src/lib/health-agents.ts:79-83 | a match may be replaced if and only if it is at the start or right after white space or one of the six characters |
| `PathMaskHomes.HomeIsMasked` | src/lib/health-agents.ts:85-117 | a home path of any spelling with any plain user name, at the start or after a character that may precede a path, and followed by nothing, white space, a quote, or slashes and more path, becomes a tilde, and nothing else is hidden |
| `PathMaskHomes.HomeIsSpared` | src/lib/health-agents.ts:79-83 | after any other character the path stays, whatever its name |
| `PathMaskHomes.MaskedAlready` | src/lib/health-agents.ts:90-94 | an empty text, a lone tilde and a text that starts with "~/" only get their backslashes turned |
| `PathMaskRoots.RootAfterCopy` | src/lib/health-agents.ts:102-110 | where a pass copies, its output starts with a root exactly if its input does, unless a match right after the colon of a drive is replaced |
| `PathMaskRoots.MarksAreCarried` | src/lib/health-agents.ts:102-110 | the roots at boundaries of what a pass puts out are those of what it was given, less the ones it replaces, cuts, or leaves right behind a tilde; no pass creates one |
| `PathMaskRoots.NothingThrough` | src/lib/health-agents.ts:102-110 | a text without roots at boundaries is still without after a pass |
| `PathMaskRoots.BodyShowsSurvivors` | src/lib/health-agents.ts:100-116 | the rewritten text shows a root if and only if some root of the text is copied by all three passes: the slash and tilde steps neither hide nor create one |
| `PathMaskLeaks.MaskingLeavesNoHome` | src/lib/health-agents.ts:73-117 | for every text, URLs included: no home path of the three patterns stands at a boundary of the masked text if and only if no root of the text survives the passes; for a text that starts with "~/", if and only if it has no root at a boundary |
| `PathMaskLeaks.DriveRootsDoNotSurvive` | src/lib/health-agents.ts:96-110 | without "://" no drive root survives when none starts at a boundary inside a drive match that is not at one |
| `PathMaskLeaks.DriveTextsAreMasked` | src/lib/health-agents.ts:73-117 | when the drive pass copies no root, the masked text shows no home path |
| `PathMaskTwice.RewriteIsFixed` | src/lib/health-agents.ts:100-116 | a normalised text is its own rewrite if and only if every match that a pass meets in it stays |
| `PathMaskTwice.MaskingTwice` | src/lib/health-agents.ts:90-117 | for every text, masking twice is masking once if and only if the masked text starts with "~/" or every match that a pass meets in it stays |
| `PathMaskTwice.LeakFreeIsStable` | src/lib/health-agents.ts:90-117 | a masked text that shows no home path is not changed by masking |
| `PathMaskWords.MaskByWords` | src/lib/health-agents.ts:90-117 | for every text with white space in it: what masking makes of it, from its two parts |
| `PathMaskWords.MaskingSplits` | src/lib/health-agents.ts:90-117 | masking splits at white space if and only if both parts or neither start with "~/", or the rewrite would only turn the slashes of the second |
| `PathMaskWords.UnchangedByPass` | src/lib/health-agents.ts:102-110 | a pass leaves a text alone if no match of its pattern passes the boundary and URL rules |
| `PathMaskWords.UrlIsKept` | src/lib/health-agents.ts:74-77 | a URL without white space, backslash or tilde is left exactly as it is if and only if its scheme is not a single letter that reads as a drive |
| `PathMaskTexts.PosixIsSettled` | src/lib/health-agents.ts:102-110 | for the two POSIX patterns, "every match that the pass meets stays" means that every match in the text is guarded |
| `PathMaskTexts.ForwardRootsDoNotSurvive` | src/lib/health-agents.ts:73-117 | without backslashes and "://" no POSIX root survives, doubled slashes included |
| `PathMaskTexts.PlainTextsAreMasked` | src/lib/health-agents.ts:73-117 | for every text with no backslash and no "//", masking is idempotent, and unless the text starts with "~/" no home path of any pattern is left |
| `PathMaskTexts.TextsWithoutUrls` | src/lib/health-agents.ts:73-117 | without "://", and with no shielded drive root and no surviving POSIX root, nothing is shown and masking is idempotent, whether backslashes are single or doubled |
| `PathMaskTexts.RunningTextIsMasked` | src/lib/health-agents.ts:85-117 | running text that does not start with "~/" is masked word by word: URLs come out as they are, and a word shows no home path if and only if no root of it survives |
| `PathMaskExamples.DrivePathIsMasked` | src/lib/health-agents.ts:97-97 | the drive spelling of a home, for any drive letter, any slashes and any plain name, becomes "~" |
| `PathMaskExamples.UsersPathIsMasked` | src/lib/health-agents.ts:98-98 | the POSIX spelling, for any plain name, becomes "~" |
| `PathMaskExamples.BackslashRootsLeak` | src/lib/health-agents.ts:112-112 | for every plain name, backslash-Users-backslash-name comes out as a visible /Users/name, and a second masking hides it |
| `PathMaskExamples.ShieldedRootsLeak` | src/lib/health-agents.ts:102-110 | a drive path inside the user name of one that stays comes out visible, for any number of backslashes |
| `PathMaskExamples.SwallowedUrlLeaks` | src/lib/health-agents.ts:102-110 | a concrete text in which one pass spares a path for its URL and removes that URL |
| `EventJournal.Journal.Append` | src-tauri/src/db/journal.rs:321-395 | the new row carries the entry itself, the next number, the head hash and its own hash, and the rows before it stay; an empty action type, a used event id or an exhausted number changes nothing |
| `EventJournal.JournalHoldsEntries` | src-tauri/src/db/journal.rs:321-395 | after any run of appends the rows hold exactly the entries that have an action and an event id of their own, unaltered and in order, numbered from 1 |
| `EventJournal.FreshEntriesAreKept` | src-tauri/src/db/journal.rs:305-395 | with actions and fresh event ids throughout that is every entry |
| `EventJournal.ChainSpelled` | src-tauri/src/db/journal.rs:212-235 | each row of a chain carries the hash of the row before it, or GENESIS, and the hash of its nine fields joined by the separator |
| `EventJournal.SignedSpelled` | src-tauri/src/db/journal.rs:212-225 | a number is hashed in decimal, with a minus sign in front if it is negative |
| `EventJournal.ReportSpelled` | src-tauri/src/db/journal.rs:453-531 | a report field by field: all rows and the last hash, or the first row that breaks the chain, the rows read, the hash before it, and the reason |
| `EventJournal.Journal.Verify` | src-tauri/src/db/journal.rs:453-531 | the report is valid exactly for a chain, and otherwise names the first faulty row, its fault and the head before it |
| `EventJournal.EveryJournalVerifies` | src-tauri/src/db/journal.rs:321-531 | after every run of appends, refused ones included, verification is valid down to the last row |
| `EventJournal.ReportIsDetermined` | src-tauri/src/db/journal.rs:453-531 | a table has exactly one report |
| `EventJournal.AmbiguousExactlyWithPipes` | src-tauri/src/db/journal.rs:212-225 | another entry has the same hashed text if and only if one of the entry's texts contains the separator |
| `EventJournal.ChangeIsReported` | src-tauri/src/db/journal.rs:453-531 | for any hash, and in the order in which the changed table is read: changing a row before the head keeps the chain if and only if the row looks the same to the hash or is an explicit collision of it; otherwise the first fault is at that row, at the next if its hash was recomputed, or at the front if its number is below 1 |
| `EventJournal.DeletionIsReported` | src-tauri/src/db/journal.rs:473-485 | deleting a row before the head is reported as a gap at the row that takes its place in the listing |
| `EventJournal.HeadFixesJournal` | src-tauri/src/db/journal.rs:453-531 | for any hash in hexadecimal: two tables that verify and have the same head hash have the same rows, but for how a separator inside a text is read, or between them hold two texts with one hash |
| `EventJournal.HeadIsNotProtected` | src-tauri/src/db/journal.rs:453-531 | rows cut off at the head, or a rewritten head, still verify |
| `EventJournal.PipedRowCanBeRewritten` | src-tauri/src/db/journal.rs:212-225 | under any hash, a row with a separator in one of its texts, the head included, can be given other texts and the table still verifies |
| `TaskLaws.StepKeepsInv` | src-tauri/src/db/a2a.rs:637-1073 | every statement of every call keeps the invariant below, the origin of every row, and every claim |
| `TaskLaws.EveryRunKeepsInv` | src-tauri/src/db/a2a.rs:637-1073 | over every interleaving of the statements of any number of calls: chains are placed right, keys and tasks match, calls and answers rely only on what still holds |
| `TaskLaws.OneTaskPerKey` | src-tauri/src/db/a2a.rs:637-735 | however admissions, retries, releases and collections interleave, of the tasks admitted under one key all but at most one have given it back, and that one holds it |
| `TaskLaws.ReplayNamesItsTask` | src-tauri/src/db/a2a.rs:654-717 | an answer "replay" names a task that was admitted under the very scope, project and key asked for |
| `TaskLaws.KeysComeFree` | src-tauri/src/db/a2a.rs:813-820 | once no call is under way, a task that was cancelled or yielded as failed holds no key: the request can be made again |
| `TaskLaws.FirstClaimWins` | src-tauri/src/db/a2a.rs:864-896 | over a whole run at most one session claims a task, and it stays the owner |
| `TaskLaws.OnlyTheClaimantYields` | src-tauri/src/db/a2a.rs:932-984 | a result was yielded by the one session that claimed the task |
| `TaskLaws.YieldsAreBounded` | src-tauri/src/db/a2a.rs:936-984 | a task gets at most one result by yield, and one more each time the kernel reopens it |
| `TaskLaws.EveryChainEndsAtRoot` | src-tauri/src/db/a2a.rs:550-616 | the hop count of a task is its exact distance from its root, below 64; the root exists and has no parent, whatever the client claimed |
| `TaskLaws.ChainEndsAtRoot` | src-tauri/src/db/a2a.rs:550-616 | all tasks on the way have the same root and project and one hop less each |
| `TaskLaws.SettledIsOverwrittenExactly` | src-tauri/src/db/a2a.rs:864-1134 | at statement level: which statements change the status of a settled task, for each statement of the model if and only if; admission, claims and yields never do |
| `TaskLaws.WholeCallsKeepSettled` | src-tauri/src/db/a2a.rs:1900-2133 | with each call run as a whole under the lock, only unguarded writes of the kernel change status or result of a settled task |
| `TaskLaws.WholeAdmit` | src-tauri/src/db/a2a.rs:637-735 | a whole admission adds row and key if and only if the parent allows it and neither id nor key is taken |
| `TaskLaws.WholeClaim` | src-tauri/src/db/a2a.rs:864-896 | a whole claim takes the task if and only if it exists unclaimed |
| `TaskLaws.WholeYield` | src-tauri/src/db/a2a.rs:932-1015 | a whole yield sets status, owner and result, and releases the key of a failure, if and only if the status is a verdict, the task is yieldable, and the session owns it or, unclaimed, is bound to its target |
| `TaskLaws.WholeCancel` | src-tauri/src/db/a2a.rs:1059-1072 | a whole cancellation settles the task and releases its key if and only if the session is its own and it is not settled |
| `TaskRules.AdmissionRule` | src-tauri/src/db/a2a.rs:550-735 | a request is admitted if and only if its parent exists in its project, has not ended otherwise than completed and leaves room below the limit, and neither id nor key is taken; the row it becomes, and its key |
| `TaskRules.ClaimRule` | src-tauri/src/db/a2a.rs:864-896 | a claim takes an existing task without owner and changes nothing else |
| `TaskRules.YieldRule` | src-tauri/src/db/a2a.rs:932-1015 | a yield is accepted if and only if it says completed or failed, the task is queued, dispatched, executing or in the background, and the session is its owner or, without one, recorded as the agent that is its target; what it writes |
| `TaskRules.CancelRule` | src-tauri/src/db/a2a.rs:1059-1072 | a session cancels its own task unless that has ended, and the key comes free |
| `TaskRules.BusRule` | src-tauri/src/kernel/dispatcher.rs:578-681 | a bus report run as a whole ends a task on its way whose target it does not contradict; what it writes |
| `TaskRules.AckRule` | src-tauri/src/db/a2a.rs:1875-1890 | only the acknowledgement of its target starts a task, and only a dispatched one |
| `TaskRules.WaitRule` | src-tauri/src/db/a2a.rs:2134-2157 | which tasks go to the background when a wait is over |
| `TaskRules.KernelRule` | src-tauri/src/db/a2a.rs:1127-1164 | the kernel sets any status; abandoning keeps a result that is there |
| `TaskRules.ReopenedMeans` | src-tauri/src/db/a2a.rs:1127-1164 | a task counts as reopened exactly when the kernel takes it out of one of the five statuses in which tasks end |
| `TaskRules.KeyRule` | src-tauri/src/db/a2a.rs:813-829 | released and collected keys are gone, and no others |
| `TaskRules.ConnectRule` | src-tauri/src/db/a2a.rs:1445-1482 | a session that is known keeps its agent |
| `TaskRules.PruneRule` | src-tauri/src/db/a2a.rs:1485-1515 | deleting an old session changes neither tasks nor keys |
| `TaskRules.EndedTasksStay` | src-tauri/src/db/a2a.rs:1900-2133 | of whole calls only the kernel's own change status or result of a completed, failed, expired, timed out or cancelled task |
| `TaskRules.YieldersServeTheTarget` | src-tauri/src/db/a2a.rs:910-984 | over every run, a session that claimed a task in order to yield had connected as the agent that the task is for |
| `TaskLaws.BusReportOverwritesYield` | src-tauri/src/kernel/dispatcher.rs:578-681 | from any state with a claimed task: bus report checked, yield accepted as completed, bus report written; the task is failed and has lost its key |
| `TaskTable.Table.AdmitTaskAtomic` | src-tauri/src/db/a2a.rs:637-735 | in source order: the table becomes what the uninterrupted statements make of it, and the outcome says which case of `AdmissionRule` it is |
| `TaskTable.Table.ClaimTask` | src-tauri/src/db/a2a.rs:865-896 | the same for a claim; true exactly if the session owns the task afterwards |
| `TaskTable.Table.YieldTaskResult` | src-tauri/src/db/a2a.rs:936-1015 | the same for a yield with the claim inside it; accepted exactly if `YieldRule` allows it, with the status, owner and result it then has |
| `TaskTable.Table.CancelTask` | src-tauri/src/db/a2a.rs:1060-1072 | the same for a cancellation; an error exactly if the task is not the session's own |

## Left out

- PathMaskLeaks.MaskingLeavesNoHome: a path at a boundary counts as shown also where the masked text has it inside a URL, which the program spares on purpose.
- PathMaskTwice.MaskingTwice: the condition speaks of the masked text; what a drive pass meets in it is not traced back to the raw text beyond `TextsWithoutUrls`.
- ExperiencePaging.WhisperLosesPinnedFirst: on a screen with an inconsistent comparator the order is one that the language allows, not the only one; `FlaglessRowFreezesOrder` is what holds for all.
- ExperiencePaging.LoadMoreExtendsPrefix: the store does not change between two pages; a row inserted or removed in between moves the offset as a whisper does.
- LoungeProvider.Provider.IngestBusMessage: telemetry, engine status, security and quota alerts, the delayed refresh and the parsing of a whisper are not part of this model.
- WorkerLaws.StopEndsTheRun: counts session stretches, not seconds; a `connect` or `drain` that never returns is not modelled.
- BotWorker.HandleMessage: `handle_task` may return, raise or publish progress, but not publish results of its own; `publish_result` is called without an experience, as the handler does.
- BotWorker.Worker.Session: the hook `on_registered` may fail but its own publishes are not recorded; task cancellation and signal delivery in the middle of a stretch are not modelled.
- EventJournal.Journal.Append: scrubbing, id normalisation, default ids and clock, transactions and savepoints are not modelled; a table is listed in the order of its numbers.
- TaskLaws.EveryRunKeepsInv: the queries that only read, quotas for `must_deliver`, tokens, time stamps, payload copies and journal entries are not modelled; which rows a watchdog sweep picks and which sessions are pruned is arbitrary.
- TaskLaws.SettledIsOverwrittenExactly: storage errors and a crash between two statements of one call are not modelled.
- Efficiency.BuildFailures: whisper hits, dead-symbol figures, labels and the markdown text of the report are independent counts without interplay.
- ExperienceStore.Store.UpdateExperience: fields no command reads or orders by are not in the row.
- QuotaFold.MergeClaudeQuotaRows: an undefined `exhausted` counts as false, and fields the fold only copies are one field.
- The switches that make the mock commands fail on purpose, `search_experiences`, the destructive-action queue, `listProjects`, `listFileSymbols`: lookups and one-line filters.
- `filterDeadSymbolsUi`, `countDeadByCategory`, label and tone mappings in `src/lib/lounge.ts`: one-branch functions.
- Regular-expression engines, `Date.parse`, `Intl` time zones: the three patterns are scanners, and parsed times are inputs; the clock text is modelled from the millisecond of the local day on.
- The TypeScript call sites' loading flags, error texts and re-render order: the guard against two loads at once is the assumption that calls come one after another.
- The Rust kernel but for its journal and task table, Tauri command wrappers, file export, NATS itself, notifications and all rendering.
