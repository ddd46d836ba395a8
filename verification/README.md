# Verified model of the Endless Library book pipeline

Endless Library walks a queue of wanted books: it searches shadow-library scrapers, downloads and converts a
file, and delivers it to a Kindle by Send-to-Kindle (STK) or by SMTP. This project models the parts whose
correctness is not visible in any single function, and proves what they guarantee.

## The queue and its lease

`BookRows` holds the `books` table and the UPDATE statements that change it; `QueueProtocol` lets any number
of overlapping ticks (process job, retry job, manual run) sweep, snapshot, claim, work and settle in any
order, with a clock. Ownership turns out to be a lease: it is exclusive as long as no owner lets
`zombie_stale_minutes` pass between two writes to its row, and the zombie sweep is the only step that can
break it. The retry budget is a bound in the number of overlapping ticks, and that bound is reached.
`Worker`, `Pipeline`, `Settling` and `TickRun` are the imperative code of one book, one serial pass, the
settling of a batch and one whole tick; `Bridge` and `TickProtocol` show that the UPDATEs of that code are steps
of the protocol, those of one worker and those of a whole tick that holds many books at once. Statuses and
transitions are those the pipeline performs; the `_LEGAL` table in `domain/state_machine.py` is never enforced and
disagrees with them (it has no `kindled`, and resuming goes from `searching` straight to `sending`).

## Delivery

`Packing` is the next-fit packer with its worst-case bound, `Quota` the event log, exact up to the moments of its
entries, and the rolling 24 h caps over it, `Router` the delivery of one book, `BatchDelivery` the delivery of
many, and `BatchAccounting` reads a whole batch delivery book by book. Log, rows and channels are audited against
each other: a tick adds exactly one send event per kindled book, of the channel on its row. `CapRuns` follows the
caps over whole runs of ticks: settings may change and a log may already be over its cap, and still no window that
a run adds to passes the larger of the cap and `cap - 1 + n` for ticks of n books; a run that reaches
`cap - 1 + n` is given. What Amazon and the mail server answer is nondeterministic.

## The other hard pieces

* `Utf8` and `SafeFilename`: truncating a name by bytes without splitting a code point (RFC 3629, section 3).
* `ComposeSplice` and `Upgrade`: the in-place replacement of one image reference in `compose.yml`, and the
  upgrade that applies it and undoes it.
* `RateLimit`: a pruned deque that stands in for the history of all grants.
* `ProofOfWork`: the byte-and-mask test of the Anubis solver and the least nonce that passes it.
* `Stores` and `Migration`: two blob stores seen as one overlay map, and the resumable copy between stores.
* `PyText`, `EnvFile` and `EnvStore`: the `.env` file, read three ways and written two ways.
* `SearchChain`: the quality-gated chain of scrapers.

`Prelude` has the small shared definitions.

## Where the code differs from its own documentation

The model follows the code. The differences are theorems where they concern the modelled behaviour.

* The module comment of `bookorbit/upgrade.py` promises to restore the database on rollback; `_rollback`
  restores the image only.
* The rolling caps count events, and the uploads of a batch session that breaks later have none, so acceptances
  by Amazon may exceed the cap by as many (`BatchAccounting.AcceptedOrRecorded`).
* `process_one` says that a resumed book with a converted file skips the conversion. It never does
  (`Worker.ResumedNeverReuses`), because the recorded file is then the `.epub` itself. The skip strikes only after
  a fresh download of a convertible file, and then the old `.epub`, for instance an empty one, is sent in place of the
  file just downloaded (`Worker.HandedOverIsRecorded`).
* `_swap_compose_image` replaces text below the image line when that line holds nothing but spaces after the
  colon, because its pattern for spaces crosses line ends (`ComposeSplice.OnImageLine` says exactly when, and
  `ComposeSplice.PortsOverwritten` is a file that loses a key). The rollback restores the file exactly if and
  only if the version holds no space (`ComposeSplice.RestoresExactly`, `Upgrade.RestoredText`). The versions
  that the caller lets through never leave a changed file, although one of them may end in a line feed, which
  makes the swap raise (`Upgrade.AcceptedVersionRestores`).
* `safe_filename` counts the extension in characters, so a non-ASCII extension, or any limit below eleven
  bytes, can break the byte limit (`SafeFilename.LimitExactly`), and a second application is not always the
  identity (`SafeFilename.FixedPoints`, `SafeFilename.ReapplyingCut`).
* `_write_env` says that it does not disturb other keys; a key assigned twice loads differently afterwards
  (`EnvStore.OtherKeysUndisturbed`, `EnvStore.DuplicatesAreDisturbed`).
* `HybridStore` says that reads always come from the primary; `get` and `exists` fall back to the backup.
* `TokenBucket` promises at most `capacity` requests per period. That holds for every run in which no call is
  told to wait (`RateLimit.PromiseWithoutWaits`) and fails from every run in which one is: a call that waits is
  never recorded, so `capacity` more calls at that moment leave together with it
  (`RateLimit.PromiseBreaksAfterWait`), and so do any number of them (`RateLimit.DelayedCallsAreUnbounded`).
* `migrate_all` reports `copied`, `skipped_existing` and `failed` beside `total`. When the progress callback or
  the removal of the staging file fails after a copy, that key counts as copied and as failed, and is reported
  although the destination has it (`Migration.TallyBalances`, `Migration.LateFailureUnbalances`). The callback
  of the command line prints, so a closed pipe is enough.
* Loading a `.env` raises when it gets to a non-empty value of the empty key or to a value that holds a NUL,
  unless the process already has the key (`EnvFile.RaisesWhen`); neither updater refuses such a pair (`EnvStore.UpdateRoundTrip`).
* `smtp_rate.py` speaks of `kind="send"` events; the query counts `send-smtp`.

## Model

| member | source | states |
|---|---|---|
| BookRows.BookRepo.ClaimForProcessing | src/endless_library/db/books.py:332-350 | The claim is atomic: it succeeds exactly when the row exists and is queued, failed or needs_review; then the row is in `searching` with everything else as before, and otherwise no row changes |
| BookRows.BookRepo.ResetZombies | src/endless_library/db/books.py:420-443 | The sweep requeues exactly the in-flight rows whose last write is older than the limit, returns how many, and leaves attempts and stage stamps alone |
| BookRows.BookRepo.Pending | src/endless_library/db/books.py:352-363 | The snapshot lists exactly the queued and failed rows with attempts left, each once, oldest first |
| BookRows.BookRepo.Issue | src/endless_library/db/books.py:182-323 | Every UPDATE of a worker is one atomic step on one row, stamps `updated_at`, and matches no row for a missing id |
| QueueProtocol.StepKeepsExclusive | src/endless_library/db/books.py:332-350 | Every step other than a sweep keeps "one owner per book, owned books in flight"; a sweep keeps it if the lease is kept |
| QueueProtocol.LeaseExclusion | src/endless_library/pipeline.py:680-704 | In every interleaving of ticks, workers and sweeps at most one worker runs a book, and an owned book is in an in-flight status, if no owner pauses longer than the stale limit |
| QueueProtocol.SweepBreaksExactlyLapsedLeases | src/endless_library/db/books.py:420-443 | A sweep preserves exclusion if and only if no lease has lapsed |
| QueueProtocol.LapsedLeaseLosesExclusion | src/endless_library/db/books.py:420-443 | In every configuration with a retry there is a run with a lapsed lease that ends with two owners of one book |
| QueueProtocol.LapsedLeaseLosesKindled | src/endless_library/db/books.py:270-308 | That run extends to one in which a kindled book ends up failed |
| QueueProtocol.TerminalRowsAreFrozen | src/endless_library/db/books.py:332-350 | No step of any tick, worker or sweep changes a kindled, skipped or sent row |
| QueueProtocol.TerminalForGood | src/endless_library/db/books.py:420-443 | Once kindled, a row keeps every column for the rest of any run |
| QueueProtocol.KindledAtMostOnce | src/endless_library/db/books.py:270-290 | Over a whole run with the lease kept, each book is marked kindled at most once |
| QueueProtocol.SnapshotKeepsRoom | src/endless_library/db/books.py:352-363 | A snapshot takes a book only while it has attempts left, so all overlapping ticks may still fail it once within the bound |
| QueueProtocol.SettlingFreesAHolder | src/endless_library/db/books.py:292-308 | Handing a book back costs at most one attempt and removes one tick that could cost another |
| QueueProtocol.StepKeepsBudget | src/endless_library/db/books.py:292-308 | Attempts plus the ticks that may still burn one stay within `max_attempts + overlap - 1` under every step |
| QueueProtocol.RetryBudget | src/endless_library/scheduler.py:43-50 | With at most J overlapping ticks no book is tried more than `max_attempts + J - 1` times; one tick at a time gives the exact budget |
| QueueProtocol.RetryBudgetIsTight | src/endless_library/pipeline.py:1239-1252 | For every budget and every overlap some run reaches that bound, because the claim does not recheck attempts |
| Bridge.WorkerFollowsProtocol | src/endless_library/pipeline.py:680-855 | The writes of a worker that won its claim are a run of the protocol in which the book is its own until the last write, the only one that can kindle it |
| Bridge.UndisturbedByOthers | src/endless_library/pipeline.py:680-704 | Whatever other ticks do between two writes of a worker, its next write stays enabled and its row is as it left it |
| TickProtocol.TickIsRun | src/endless_library/pipeline.py:1204-1297 | A tick is a run of the protocol: time passes, it begins, sweeps, takes its snapshot, and every later UPDATE, whichever of its many books it is for, is an enabled step; at the end it holds nothing |
| TickProtocol.ProcessQueueIsRun | src/endless_library/pipeline.py:1204-1297 | Every call of the modelled `process_queue`, in either mode, is such a run and ends in the protocol's rows; the kindles it adds are the pending books now kindled, each exactly once |
| Worker.SearchFailOrSkip | src/endless_library/pipeline.py:628-646 | A fruitless round parks the book as skipped exactly when it is the last allowed one, and burns an attempt otherwise |
| Worker.ResolveAndDownload | src/endless_library/pipeline.py:482-626 | A download leaves the file recorded on the row, a duplicate ends the book as skipped with its digest, anything else leaves the row in flight |
| Worker.ConvertIfNeeded | src/endless_library/pipeline.py:864-898 | Conversion is skipped in favour of the file the snapshot records exactly when that is an existing `.epub` with a conversion stamp; otherwise it keeps the row in flight or fails the book; which file goes on and which one the row records follow from that |
| Worker.HandedOverIsRecorded | src/endless_library/pipeline.py:858-1027 | The file handed to delivery is the one the row records, except exactly when a fresh download that needs conversion meets an old `.epub` of the snapshot and nothing is compressed: then the old file goes out |
| Worker.ResumedNeverReuses | src/endless_library/pipeline.py:864-877 | A resumed book never skips its conversion |
| Worker.Prepare | src/endless_library/pipeline.py:899-1027 | Rescue and compression keep the row in flight; a file too large for SMTP goes to needs_review only when STK is not configured |
| Worker.ProcessFromDownloaded | src/endless_library/pipeline.py:858-1110 | From a file on, the book ends as the decision table says; sent means exactly one channel accepted it; nothing is searched or downloaded again |
| Worker.SearchAndDownload | src/endless_library/pipeline.py:680-855 | The fresh search ends each of its eight ways with the row settled accordingly, or with a file and the row in flight |
| Worker.SendNow | src/endless_library/pipeline.py:1089-1110 | The immediate delivery kindles the book exactly when one channel took it, marks the row with that channel, and records exactly one send event of that channel then and none otherwise; every 24 h window stays within the cap or as it was, whatever the log held before |
| Worker.ProcessOne | src/endless_library/pipeline.py:680-855 | The claim is the first write and the only gate; the last write settles the row as the verdict says; a resumed book is neither searched nor downloaded; a fetched file stays recorded however conversion and delivery end; a book held by others is untouched; the log gains a send event exactly for a kindled book, of the channel on its row |
| Pipeline.RunOne | src/endless_library/pipeline.py:1132-1138 | A crash of the worker becomes a failed attempt of that book and of no other |
| Pipeline.HandledNext | src/endless_library/pipeline.py:1130-1140 | What was done for earlier books of the pass survives the next one |
| Pipeline.RunBooks | src/endless_library/pipeline.py:1129-1140 | The serial pass gives one verdict per book in order, changes no other row, adds exactly one send event per kindled book, and each acceptance by a channel has its event and each event its acceptance |
| Settling.SettleAll | src/endless_library/pipeline.py:1267-1286 | Each waiting book is marked kindled or failed by its own result and with its own channel; the log gains exactly one SMTP event per book that SMTP delivered, in order, and nothing else |
| Settling.DeliverWaiting | src/endless_library/pipeline.py:1242-1286 | In batch mode every verdict ends final; the send events added are exactly those of the kindled books; each is backed by an acceptance; and any 24 h window that grows ends below cap plus the books of the call, whatever the log held before |
| Settling.BatchIsAudited | src/endless_library/pipeline.py:1242-1286 | What the batch call records for Send-to-Kindle and what its caller records for SMTP add up to one send event per kindled book, of the channel on its row, and none for any other book |
| TickRun.TallyTellsTheTruth | src/endless_library/pipeline.py:1225-1297 | The number tallied for a status is the number of pending books now in that status |
| TickRun.ProcessQueue | src/endless_library/pipeline.py:1204-1297 | In both modes a tick advances every pending book once and no other row; its tally sums to the pending books; every book is handed back; the send events it adds are exactly one per kindled book, of the channel on its row; SMTP acceptances and SMTP events agree book by book, and so do Send-to-Kindle ones in serial mode, while in batch mode no event lacks an acceptance; a window that grows ends below cap plus the books sent after one check |
| TickRun.KindledIsBacked | src/endless_library/pipeline.py:1204-1297 | A book kindled by a tick was accepted during it by the channel on its row |
| TickRun.TickProgress | src/endless_library/pipeline.py:1204-1297 | One serial tick moves a pending book out of the queue or gives it one attempt, and leaves a settled row alone |
| TickRun.QueueDrains | src/endless_library/pipeline.py:1204-1297 | After `max_attempts` serial ticks no book of the start is pending, however many are enrolled meanwhile |
| Packing.PackBatches | src/endless_library/kindle_router.py:207-241 | The batches in order are the input without the oversized files, `oversized` is the rest in order, every batch is within both limits, and none is closed early |
| Packing.EveryBatchWithinLimits | src/endless_library/kindle_stk/service.py:326-342 | A packed batch is non-empty and within both limits, so the overflow checks of a session do not fire on it |
| Packing.NextFitWeight | src/endless_library/kindle_router.py:230-236 | Two neighbouring batches fill one by count or overflow one by bytes; the weighted sum over all batches |
| Packing.NextFitBound | src/endless_library/kindle_router.py:207-241 | k batches of n files and S bytes satisfy (k-1)·F·M <= n·M + 2·S·F |
| Packing.LegalCapacity | src/endless_library/kindle_router.py:207-241 | Any legal packing holds at most F files and M bytes per batch |
| Packing.AtMostThreeTimesOptimal | src/endless_library/kindle_router.py:207-241 | Next-fit uses at most 3·OPT + 1 batches against every legal packing of the same files in any order |
| Quota.LateRecordKeepsCap | src/endless_library/stk_rate.py:24-40 | A check that passed covers a send recorded at any later moment: each 24 h window is as before or within the cap, whatever the log held |
| Quota.OneCheckManySends | src/endless_library/kindle_router.py:279-285 | One check before n sends: each 24 h window is as before or within `cap - 1 + n`, whatever the log held |
| Quota.GrowthKeepsBound | src/endless_library/stk_rate.py:24-40 | Whatever bound at or above the reach every window kept before, it keeps afterwards |
| Quota.LoggedGrows | src/endless_library/stk_rate.py:24-40 | The entries added to a log and the moments they were added between bound the growth of every window |
| Quota.GateStaysPassed | src/endless_library/smtp_rate.py:48-59 | An SMTP gate that let a send through is still open later if nothing was recorded |
| CapRuns.CapsOverRun | src/endless_library/pipeline.py:1204-1297 | Over every run of ticks that do not overlap, with settings that change and ticks of at most n books in either mode, each 24 h window is as it was at the start or within max(cap, cap - 1 + n), for both channels |
| CapRuns.CapsRespectedOverRun | src/endless_library/stk_rate.py:24-40 | A log that starts within that bound stays within it for the whole run |
| CapRuns.RunTicks | src/endless_library/pipeline.py:1204-1297 | Calling the tick again and again produces such a run; a batch tick sends at most as many books after its check as there are rows, a serial tick one |
| CapRuns.RunWithinCaps | src/endless_library/pipeline.py:1204-1297 | However often the modelled code ticks, in whatever modes, with settings that change and whatever the outcomes: no window grows beyond max(cap, cap - 1 + n), where n is the number of rows if some tick uses batch mode and one otherwise, and a log within that bound stays within it |
| CapRuns.OvershootIsReached | src/endless_library/kindle_router.py:279-285 | For every cap and batch size the calls of the delivery code reach `cap - 1 + n` sends in one window |
| Router.SmtpDeliver | src/endless_library/kindle_router.py:446-492 | SMTP is called exactly when the rolling count is below the cap or the cap is off |
| Router.TryStk | src/endless_library/kindle_router.py:107-162 | Up to `max_attempts` calls, stopping at the first success or expired login; the log gains exactly one send event on success and nothing otherwise |
| Router.Deliver | src/endless_library/kindle_router.py:61-184 | At most one channel accepts the book and exactly when the result says so; STK is tried only if configured and under the cap; one audit event; a 24 h window that grows ends within the cap although check and record are apart, whatever the log held before |
| BatchDelivery.Overflows | src/endless_library/kindle_stk/service.py:326-342 | The preflight refuses exactly when all files together exceed the limit |
| BatchDelivery.SendFiles | src/endless_library/kindle_stk/service.py:296-374 | A session delivers a prefix of its files, all of them exactly when it succeeds, and nothing when the preflight refuses |
| BatchDelivery.RecordWhole | src/endless_library/kindle_router.py:380-409 | A whole batch adds exactly one batch event and then one send event per book in order, and gives one STK result per book |
| BatchDelivery.FallBack | src/endless_library/kindle_router.py:410-432 | After a failed session every book of the batch goes to SMTP, each result says what SMTP answered, and the log gains one failure per book in order |
| BatchDelivery.SendAllBatches | src/endless_library/kindle_router.py:338-438 | Over all batches, acceptances, results and the entries of the log are exactly those of the batches, in order |
| BatchDelivery.DeliverBatch | src/endless_library/kindle_router.py:249-438 | One result per file in input order; the entries added to the log are exactly the refusals and then those of the batches, between the start and the end of the call; one quota check, so a window that grows ends below cap plus the files, whatever the log held before; SMTP sends only past an open gate |
| BatchAccounting.Present | src/endless_library/kindle_router.py:338-438 | For distinct books, the counts of acceptances and the reported result of each batched book |
| BatchAccounting.Absent | src/endless_library/kindle_router.py:315-336 | A book in no batch is accepted by nobody, and its refusal is not overwritten |
| BatchAccounting.EachBookAccounted | src/endless_library/kindle_router.py:249-438 | No book is dropped; ok means some channel accepted it; failed means SMTP did not; a book is accepted at most twice, and twice exactly when the session broke later in its own batch and SMTP took it; oversized books are refused |
| BatchAccounting.SendsAreRecorded | src/endless_library/kindle_router.py:380-432 | A batch call adds exactly one send event for each book it reports as sent by Send-to-Kindle, none for any other book, and no SMTP event |
| BatchAccounting.AcceptedOrRecorded | src/endless_library/kindle_router.py:351-432 | Book by book and in total, Send-to-Kindle acceptances exceed the send events by exactly the uploads of sessions that broke later |
| BatchAccounting.AcceptedBeyondLog | src/endless_library/kindle_router.py:351-432 | The acceptances of a batch call are its send events and the uploads of its broken sessions |
| Utf8.DecodeEncoded | src/endless_library/download.py:117-126 | Decoding what was encoded, with an ill-formed tail, gives the code points and then what the tail alone gives |
| Utf8.CutShape | src/endless_library/download.py:117-126 | The first k bytes are all code points that fit, then the start of the next one |
| Utf8.TruncationKeepsPrefix | src/endless_library/download.py:114-126 | Slicing bytes, trimming continuation bytes and decoding leniently leaves a code-point prefix |
| Utf8.KeptIsNearlyLongest | src/endless_library/download.py:114-126 | That prefix fits and is at most one code point shorter than the longest that fits |
| SafeFilename.MakeSafeFilename | src/endless_library/download.py:88-126 | Working on bytes gives exactly the code-point result: nothing is ever split |
| SafeFilename.CutBytes | src/endless_library/download.py:114-126 | The byte cut of a stem or of a whole name is its code-point cut, also for a negative share |
| SafeFilename.SanitisedIsClean | src/endless_library/download.py:100-106 | A sanitised name has no hostile character, no run of blanks or underscores, and nothing to strip |
| SafeFilename.CleanIsFixed | src/endless_library/download.py:100-106 | Sanitising a clean name changes nothing |
| SafeFilename.StemIsNearlyLongest | src/endless_library/download.py:111-118 | The truncated stem is a prefix of the stem in whole code points and loses at most one beyond what fits |
| SafeFilename.WithinLimit | src/endless_library/download.py:107-126 | With room for four bytes beside the extension, the result is within the limit, up to the extra bytes of a non-ASCII extension |
| SafeFilename.LimitExactly | src/endless_library/download.py:111-121 | For which extensions the limit is kept whatever the stem: if and only if the extension is ASCII and leaves at least four bytes and a dot |
| SafeFilename.CleanFixedPoints | src/endless_library/download.py:107-126 | A clean name is left alone exactly when it fits, or when the stem that truncation leaves is its own |
| SafeFilename.FixedPoints | src/endless_library/download.py:88-126 | For every name and every limit: applying the function changes nothing if and only if the name is clean and fits, or its stem survives truncation |
| SafeFilename.ReapplyingCut | src/endless_library/download.py:123-126 | A result that was cut without an extension is stable exactly when the cut left nothing to strip |
| SafeFilename.ReapplyingKept | src/endless_library/download.py:88-126 | A result that was not cut, or kept an ASCII extension, is stable |
| ComposeSplice.FirstImageLine | src/endless_library/bookorbit/upgrade.py:572-575 | The lazy part of the pattern stops at the first indented line below the header that carries a reference |
| ComposeSplice.Located | src/endless_library/bookorbit/upgrade.py:572-575 | The replaced span belongs to the leftmost bookorbit header that has an image line; other services' image lines and failing headers are passed |
| ComposeSplice.NotLocated | src/endless_library/bookorbit/upgrade.py:576-577 | The search fails only if no header has an image line with a reference |
| ComposeSplice.OnImageLine | src/endless_library/bookorbit/upgrade.py:572-575 | For every text in which the search finds a place: the replaced span is on the image line if that line, last in the file or not, holds a non-space after the colon, and below the line otherwise |
| ComposeSplice.OverwritesNextKey | src/endless_library/bookorbit/upgrade.py:572-580 | With an empty image line the swap replaces the word on the next line, whatever the word and the new reference |
| ComposeSplice.PortsOverwritten | src/endless_library/bookorbit/upgrade.py:572-580 | A compose file in which the swap replaces the `ports:` key |
| ComposeSplice.FindsReplacement | src/endless_library/bookorbit/upgrade.py:572-580 | Any text that keeps everything before the span and starts a token there is matched at the same place |
| ComposeSplice.GetPut | src/endless_library/bookorbit/upgrade.py:547-581 | Writing back the reference that was read changes nothing |
| ComposeSplice.PutGet | src/endless_library/bookorbit/upgrade.py:547-581 | A second swap reads exactly what the first wrote if and only if that was non-empty and free of whitespace |
| ComposeSplice.PutPut | src/endless_library/bookorbit/upgrade.py:547-581 | A second swap leaves no trace of the first |
| ComposeSplice.Restores | src/endless_library/bookorbit/upgrade.py:679-686 | After a swap to a text that starts with a token, swapping back always finds the place again, and restores the whole text if and only if no whitespace was written |
| ComposeSplice.RestoresExactly | src/endless_library/bookorbit/upgrade.py:547-581 | For every reference, swapping the old one back restores the whole text if and only if the new one was non-empty and free of whitespace |
| Upgrade.Attempt.BackUp | src/endless_library/bookorbit/upgrade.py:625-664 | A dump is kept exactly when it succeeded with at least 1024 bytes; otherwise it is removed |
| Upgrade.Attempt.RollBack | src/endless_library/bookorbit/upgrade.py:679-704 | The rollback splices the old reference back, restarts, and reports the restart |
| Upgrade.Attempt.PollHealth | src/endless_library/bookorbit/upgrade.py:717-737 | Healthy exactly when some poll before the deadline was |
| Upgrade.Attempt.BringUp | src/endless_library/bookorbit/upgrade.py:706-773 | Restart, health and version run in order up to the first failure |
| Upgrade.Attempt.SwapAndVerify | src/endless_library/bookorbit/upgrade.py:666-778 | After the swap either the new version runs or the rollback has run, with steps and host effects exactly accounted for |
| Upgrade.FinishedLedger | src/endless_library/bookorbit/upgrade.py:610-778 | Steps run in order and stop at the first failure; success is all six ok; a rollback occurs exactly after a failure past the swap, once, last |
| Upgrade.RestoredText | src/endless_library/bookorbit/upgrade.py:679-686 | After a rollback that could write, the file is the original if and only if the version holds no space |
| Upgrade.AcceptedVersionRestores | src/endless_library/bookorbit/upgrade.py:44-56 | For every version the validation accepts, a failed upgrade leaves the original text; the swap raises exactly for a version that ends in a line feed |
| Upgrade.Attempt.Apply | src/endless_library/bookorbit/upgrade.py:584-778 | On every returning path: success exactly when all went well, and then the file holds the new image; failure leaves the original text; nothing is written before a large enough dump exists |
| RateLimit.TokenBucket.Acquire | src/endless_library/scrapers/rate_limit.py:17-32 | Each call is decided as if every grant to that host were remembered; other hosts are untouched |
| RateLimit.DequeIsRecent | src/endless_library/scrapers/rate_limit.py:22-27 | For non-decreasing times the pruned deque is exactly the immediate grants younger than the period |
| RateLimit.DequeIsYoungGrants | src/endless_library/scrapers/rate_limit.py:22-27 | With a positive period so is the deque as stored |
| RateLimit.RateHolds | src/endless_library/scrapers/rate_limit.py:8-9 | Every stretch of one period, wherever it starts, holds at most `capacity` immediate grants |
| RateLimit.WaitingPays | src/endless_library/scrapers/rate_limit.py:28-32 | A caller that waits as long as told, and is not overtaken, is granted |
| RateLimit.CrashesWithoutCapacity | src/endless_library/scrapers/rate_limit.py:28-29 | A call answers with an `IndexError` if and only if the bucket has no capacity |
| RateLimit.DeparturesAreGrants | src/endless_library/scrapers/annas_curl.py:127-132 | While no call is told to wait, requests leave exactly at the grants |
| RateLimit.PromiseWithoutWaits | src/endless_library/scrapers/rate_limit.py:8-9 | If no call is told to wait, at most `capacity` requests leave in any stretch of one period |
| RateLimit.PromiseBreaksAfterWait | src/endless_library/scrapers/rate_limit.py:28-32 | From any run after which a call is told to wait, that call and `capacity` more at the same moment leave within one period, more than promised |
| RateLimit.DelayedCallsAreUnbounded | src/endless_library/scrapers/annas_curl.py:127-132 | From any such run any number of calls at that moment leave within one period, as long as their jitters are less than a period apart |
| RateLimit.BurstBreaksPromise | src/endless_library/scrapers/rate_limit.py:8-9 | For every capacity and period a burst from the start is such a run |
| ProofOfWork.CheckIsExact | src/endless_library/scrapers/anubis.py:21-30 | For difficulties 1 to 256 the byte-and-mask test accepts a digest exactly when its big-endian value is below 2^(256 - difficulty) |
| ProofOfWork.CheckBeyondDigest | src/endless_library/scrapers/anubis.py:21-30 | Above 256 only the zero digest is left: whole bytes accept it, a rest raises `IndexError` |
| ProofOfWork.Solve | src/endless_library/scrapers/anubis.py:17-31 | The result is the least accepted nonce; difficulty zero or less gives 0 |
| Stores.HybridStore.Put | src/endless_library/storage/hybrid.py:44-59 | In either mode and whatever the backup does, a put that returns updates the one map; a put that raises changes nothing |
| Stores.HybridStore.Get | src/endless_library/storage/hybrid.py:61-71 | A get reads the one map, and fails exactly when the primary fails or lacks the key while the backup fails |
| Stores.HybridStore.Exists | src/endless_library/storage/hybrid.py:73-77 | Exists is membership in the one map |
| Stores.HybridStore.Delete | src/endless_library/storage/hybrid.py:79-97 | The one map loses the key exactly when no failing side held it; a failing backup makes its copy reappear without an error |
| Stores.HybridStore.List | src/endless_library/storage/hybrid.py:99-108 | The sorted, duplicate-free keys of the one map; at least those of the primary if the backup breaks off |
| Stores.SortedIsUnique | src/endless_library/storage/hybrid.py:108 | There is only one such listing of a set of keys |
| Migration.MigrateAll | src/endless_library/storage/migrate.py:32-77 | The destination and the counters are those of the reference run over the listed keys, also when a question to the destination raises or a failure comes after the copy; the counters balance if and only if no trouble strikes late at a key that is copied; without overwrite no value changes; a run without failures has copied every listed key, and a rerun then copies nothing |
| Migration.TallyBalances | src/endless_library/storage/migrate.py:50-77 | One error per failure; the counters exceed the total by the keys that a trouble strikes after they were copied, so total = copied + skipped + failed if and only if no such trouble strikes a key that is in the source and not skipped |
| Migration.LateFailureUnbalances | src/endless_library/storage/migrate.py:63-74 | A key whose progress report fails is counted as copied and as failed, and reported although the destination has it |
| Migration.NothingIsOverwritten | src/endless_library/storage/migrate.py:54-57 | Without overwrite no existing value changes, and only values of the source are added |
| Migration.ErrorsAreWhatIsMissing | src/endless_library/storage/migrate.py:71-74 | The reported errors are exactly the keys the destination still lacks and those that failed after their copy |
| Migration.RerunCopiesNothing | src/endless_library/storage/migrate.py:3-5 | After a run without failures a rerun copies nothing and changes nothing |
| Migration.SmoothRunCompletes | src/endless_library/storage/migrate.py:50-77 | A run without trouble copies every key that is due |
| Migration.ResumesCleanly | src/endless_library/storage/migrate.py:3-5 | However a run was interrupted, the next one leaves what one uninterrupted run would have left |
| EnvFile.ReadersAgree | src/endless_library/config.py:408-418 | The loader, the updater and the writer see the same assignments with the same keys and values in every line |
| EnvFile.ReadIsClean | src/endless_library/config.py:408-418 | Whatever is read is trimmed and free of line breaks |
| EnvFile.AssignmentReadsBack | src/endless_library/bookorbit/service.py:378-384 | A written assignment reads back exactly |
| EnvFile.LoadLines | src/endless_library/config.py:408-418 | The loop raises exactly when some key's first non-empty value is one the process environment refuses; otherwise non-empty process values win, then the first non-empty value in the file |
| EnvFile.RaisesWhen | src/endless_library/config.py:408-418 | Loading raises if and only if some key is blocked: not set in the process, and its first non-empty value in the file is not settable |
| EnvFile.LoadedValue | src/endless_library/config.py:408-418 | A load that does not raise gives each key its process value or the first non-empty one of the file |
| EnvFile.UpdateReads | src/endless_library/bookorbit/service.py:363-385 | The updated lines give the old map overridden by the new pairs, even with duplicate keys |
| EnvFile.OtherLinesSurvive | src/endless_library/bookorbit/service.py:371-381 | All other lines survive verbatim and in order, and nothing else is added |
| EnvFile.UpdateIsIdempotent | src/endless_library/bookorbit/service.py:363-385 | A second update of the lines changes nothing |
| EnvStore.DotEnv.Update | src/endless_library/bookorbit/service.py:363-385 | The loop with its set of seen keys writes exactly the specified lines |
| EnvStore.DotEnv.Write | src/endless_library/config.py:424-439 | The file holds the old dictionary with the updates, printed in order |
| EnvStore.DotEnv.Load | src/endless_library/config.py:408-418 | Loading gives, for every key, the process value or what the file says, and raises exactly when some key is blocked |
| EnvStore.UpdatedTextLoads | src/endless_library/bookorbit/service.py:363-385 | Loading the updated file gives the new pairs and leaves every other key as it was |
| EnvStore.UpdateParses | src/endless_library/bookorbit/service.py:363-385 | All new pairs parse back if and only if their values are trimmed and free of line breaks |
| EnvStore.UpdateRoundTrip | src/endless_library/bookorbit/service.py:363-385 | All new pairs load back without an exception if and only if their values are trimmed, free of line breaks and of NUL, and no other key of the file is blocked |
| EnvStore.UpdatedTextTwice | src/endless_library/bookorbit/service.py:364-365 | The update is idempotent on the text of the file |
| EnvStore.PrintParse | src/endless_library/config.py:424-439 | What is printed parses back to the same dictionary in the same order |
| EnvStore.WriteRoundTrip | src/endless_library/config.py:424-439 | A written file reads as the old dictionary with the updates |
| EnvStore.WrittenTextLoads | src/endless_library/config.py:424-439 | Loading a written file gives the update, or else the last value the file had |
| EnvStore.OtherKeysUndisturbed | src/endless_library/config.py:424-425 | A key that is not written is undisturbed if and only if its last value is its first non-empty one |
| EnvStore.DuplicatesAreDisturbed | src/endless_library/config.py:424-425 | Every key assigned two different values loads differently after an unrelated write |
| SearchChain.PeekTop | src/endless_library/pipeline.py:269-289 | The probe reaches a positive floor exactly when some candidate that is no hard skip does |
| SearchChain.Search | src/endless_library/pipeline.py:371-437 | The pool is what the shortest prefix of the chain whose last answer has something new at or above the floor, or else the whole chain, offers, without the files that an earlier scraper of the chain had offered; duplicates inside one answer stay |
| SearchChain.SearchBook | src/endless_library/pipeline.py:340-369 | A book whose source names its page skips the chain |
| SearchChain.SeenGrows | src/endless_library/pipeline.py:399-403 | Remembering only what was added amounts to remembering everything offered |
| SearchChain.NoReentry | src/endless_library/pipeline.py:399-403 | A file an earlier scraper offered never enters again from a later one |
| SearchChain.PoolCovers | src/endless_library/pipeline.py:399-403 | Of every file offered in the prefix the pool has a candidate, and every candidate without an md5 |
| SearchChain.EarlyStopIsPickable | src/endless_library/pipeline.py:328-334 | Stopping early means the pool holds a candidate at or above the auto-pick threshold |
| SearchChain.ExhaustedIsBelowFloor | src/endless_library/pipeline.py:425-437 | A chain that never stops has nothing at or above the floor in its pool |

## Left out

- HTTP, browsers, SMTP and Amazon calls, subprocesses, HTML and regex scraping: each is an outcome that may go either way.
- SQLite: every UPDATE or INSERT is one atomic step on a map of rows; timestamps are integers of one clock.
- User actions on rows: the retry, redownload and dashboard edits (`reset_for_research`, `reset_for_redownload`) are not steps of the protocol.
- The process-pool path of `_run_books`: its timeout marks a book failed while its worker may still run, and its crash handler reports failed without touching the row, so the drain and tally theorems are about the serial path.
- Database errors: the quota checks, the audit events and the marks after a delivery are taken to succeed.
- Restoring the database on rollback: the code does not do it.
- Newline translation of `read_text` and `write_text`, and file modes and renames.
- `domain/scoring.py`, NFC normalisation and SHA-256: arbitrary functions, or inputs taken as already normalised.
- `decide_auto_pick`, format routing, mirror rotation and counters: one-branch logic that would only add easy members.
- Web UI, CLI, BookOrbit client, setup and doctor, notifier, metadata lookups.
- Titles, authors, error messages and step details: no decision depends on them.
- Router.Deliver: the lengths of the pauses (interval, backoff, retry-after) are not modelled; any time may pass.
- Router.TryStk: an exception of a type the loop does not catch is not modelled.
- Worker.SendNow: the delivery of a single book takes the file as it is handed over; what a channel does with it is not modelled. In batch mode the verdict names the file.
- Worker.HandedOverIsRecorded: what a suffix means is an arbitrary function of the path, except that `.epub` is native.
- Worker.ProcessOne: an exception after the book was marked kindled is not modelled; it would turn a sent book into a failed attempt.
- QueueProtocol.LeaseExclusion: the lease condition cannot be dropped, as `QueueProtocol.LapsedLeaseLosesExclusion` shows.
- TickRun.QueueDrains: ticks do not overlap, and nobody but the ticks changes rows that are already there.
- Packing.NextFitBound: the limits are positive (the defaults are 200 MiB and 25 files); `Packing.PackBatches` itself is specified for all limits.
- RateLimit.RateHolds: the bound is about immediate grants, since a delayed call is not recorded; `RateLimit.PromiseBreaksAfterWait` is about all requests. The further random pause after a grant is not part of a departure.
- RateLimit.TokenBucket.Acquire: times are real numbers, not floats.
- ProofOfWork.Solve: requires that some nonce is accepted; otherwise the source loops for ever.
- Upgrade.Attempt.Apply: exceptions other than a line break in the version and a failing write of the compose file are not modelled, nor are other writers of that file; which characters are digits is a parameter.
- Stores.Backend.Put: a failing backend call leaves the backend unchanged; a torn object is not modelled.
- Migration.MigrateKey: reading the source and writing the destination fail alike, and nobody else changes the stores meanwhile.
- CapRuns.OvershootIsReached: `instant` and `reliable` only fix what is otherwise open, that no time passes and nothing fails; every other result is for all logs and channels.
- CapRuns.CapsOverRun: both caps are on in every tick; a cap that is off bounds nothing.
- TickProtocol.ProcessQueueIsRun: one tick alone; how ticks interleave is `QueueProtocol`'s subject.
- EnvStore.UpdateRoundTrip: keys are well formed (not empty, trimmed, one line, no `=`, no NUL, no leading `#`), as all keys the system writes are; characters the file or the environment cannot encode are not modelled.
