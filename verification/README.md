# Verification of the download node's state machines

The repository is the Go node of a download CDN. This project models the parts of it that keep
state over long runs, or that several goroutines change at once, and proves what those parts
promise. Each Dafny module follows one component.

| component | modules |
|---|---|
| traffic ledger (`notify/stat.go`) | `Calendar`, `Ledger`, `LedgerUpdates`, `LedgerExact`, `LedgerTotals`, `LedgerLosses`, `Stats` |
| crash-safe statistics files (`notify/stat.go`) | `SafeFile`, `SubLedgers` |
| presence check, download pipeline, commit, garbage collection (`sync.go`, `limited/util.go`, `utils/util.go`) | `Presence`, `BufSlots`, `SyncPipeline`, `SyncFailures`, `SyncCopies`, `SyncGc`, `SyncEffect`, `GcRace` |
| on-demand downloads (`sync.go`) | `SingleFlight` |
| request quota (`limited/api_rate.go`) | `Quota`, `QuotaLedger`, `QuotaRace`, `QuotaOverGrant`, `QuotaAlone` |
| bandwidth limits (`limited/limited_conn.go`) | `WriteBudget`, `LimitedConn`, `ReadBudget` |
| range headers (`internal/gosrc/httprange.go`, `handler.go`, `storage/storage_mount.go`) | `Text`, `HttpRange` |
| daily reports (`database/db.go`, `notify/`) | `DailyReport`, `ReportPolls` |
| keep-alive accounting (`cluster.go`, `handler.go`) | `KeepAlive`, `KeepAliveRequests` |
| storage choice (`util.go`) | `WeightedChoice` |
| WebDAV walk (`storage/storage_webdav.go`) | `WalkDir` |
| access-log rotation (`log/logger.go`) | `AccessLogs` |
| dashboard ring buffer (`dashboard/src/utils/ring.ts`) | `RingBuffer` |

`Common` holds options, wrapping counters and small sets that several modules share.

## How to read the models

Objects whose methods change fields are classes (`StatData`, `NodeStats`, `Files`, `SlotChannel`,
`LimitSet`, `RateController`, `Conn`, `ReadController`, `Cluster`, `Manager`, `Logger`, `Ring`); each
method is tied to a function of the old state, and the lemmas are about runs of those functions.
Go's fixed arrays are values that an assignment copies, so they are sequences in fields; the ring
buffer, which overwrites cells in place, keeps its array. Goroutines are state machines: a state, a
step per atomic section, and invariants over every run. Clocks, the network and the outcome of I/O are
parameters or free choices of a step.

## What the proofs found

Where the code departs from its evident intent, the project keeps the code and proves for all inputs when
the property holds and when it does not. Each item names the theorem with that condition and, where it is
another one, the lemma that shows a case.

* The ledger equals the summed event log after every update if and only if no calendar month passes
  without an event (`LedgerExact.LedgerRefinesLog`). On every run, with skipped months or not, its buckets
  together hold the log's total less an explicit sum of what updates overwrite or clear; no hit is counted
  twice, and none is lost exactly if nothing with hits is so dropped (`LedgerLosses.GrandTotalIsLogLessDrops`,
  `LedgerLosses.HitsConservedExactly`). A storage that is idle for a month loses exactness
  although the node's own ledger does not (`Stats.IdleStorageIsInexact`).
* A load of the statistics fails exactly when no save has ever been completed, some file is there and the
  last save has not written its whole buffer under the name itself (`SafeFile.LoadFailsExactly`). The node
  goes on, and its next complete save repairs the files (`SafeFile.SaveRepairs`). Saving before loading
  loses both copies exactly when the file itself does not parse (`SafeFile.SaveBeforeLoadLoses`).
* The ledgers of the storages are found by scanning a directory. Over all histories, after a crash a
  committed one is loaded exactly if its own file exists and the load has not failed at a file before it
  (`SubLedgers.SubLedgerSurvivesExactly`). One whose file was only renamed is lost for good with a whole copy
  still there (`SubLedgers.MissedIsLost`); a save of what was not loaded takes the value exactly if the file
  itself does not parse (`SubLedgers.PassedLosesExactly`).
* A temporary file that does not open sends no report. The sync waits forever exactly when this happens
  without a cancellation (`SyncPipeline.SyncEndsExactlyWithoutLostReports`,
  `SyncPipeline.LostReportBlocksSync`).
* A sync returns success, and commits, files that it could not fetch. Which storages lack a file
  afterwards, and when it is nowhere, is exact (`SyncEffect.SyncLeavesExactlyFailures`,
  `SyncEffect.CommittedFileIsNowhere`, `SyncEffect.UnfetchedFileIsCommitted`).
* A hash that the file list names several times is counted several times in its target list. It hides a
  file that some storage holds exactly if its entries times the storages that lack it reach the number of
  storages (`SyncGc.RepeatedHashHidesExactly`, `SyncGc.RepeatedHashIsHidden`).
* A garbage collection is harmless if no sync begins between its flag test, look-up and removal of a file,
  whichever collection (`GcRace.CalmRunKeepsCommitted`); otherwise such a sync can commit the file and then lose
  it, from every such state (`GcRace.OvertakenRemovalLosesFile`, `GcRace.SyncIsSafeExactlyWhenQuiet`).
* With only the per-minute limit set, exhausting it uses a nil counter (`QuotaLedger.PanicExactly`). The
  packed epoch can be 0, which reads as a rejection (`QuotaLedger.EpochZeroRejects`), but never on the
  ticker's schedule of one hour clean in 61 (`QuotaLedger.ScheduleAvoidsEpochZero`).
* A request reads the epoch a second time when it creates its minute counter. This step breaks the books
  exactly if an hour clean came in between (`QuotaRace.BooksKeptExactlyWithoutRace`), and from every
  reachable state before it, with enough requests to come, more than the hour's limit can then be granted
  (`QuotaOverGrant.RacyRequestCanOverGrant`).
* The read reservation is negative exactly when reads that the window had not charged gave back more than
  the others hold (`ReadBudget.ReservationsBalance`). That takes a read that outlives its window or, within
  one window, a minimum read that comes back short (`ReadBudget.ReservationsMayTurnNegative`).
* The size of a ranged response is the smaller of size and sum exactly if the 64-bit sum fits or is not
  smaller (`HttpRange.CorrectedSizeIsMin`); it can be negative (`HttpRange.SizeMayTurnNegative`).
* A keep-alive reports a negative number exactly when it takes off, for requests it does not have in its
  count, more than it has of the others (`KeepAliveRequests.ReportByRequests`,
  `KeepAliveRequests.ReportMayBeNegative`).
* A daily report comes exactly once a day at its time for all polls with gaps up to the schedule's window,
  and for arbitrary polls no larger gap will do (`DailyReport.OncePerDayExactly`). For the polls that the
  keep-alive makes, which stay close to quarters of an hour, it fails on a run exactly for a subscriber that
  was there at the node's first poll, had its report then, and has a schedule after 23:30 that no poll of the
  next day hits: one after 23:45, or one whose polls keep to full and half hours
  (`ReportPolls.ReportsOnceADayExactly`). So the schedules up to 23:30 are the ones that are safe on every run
  (`ReportPolls.KeepAliveReportsOnceADay`). With a later schedule a first report comes, after the node's first
  poll, only at the poll of a quarter to midnight, and from 23:46 on never (`ReportPolls.LateFirstReport`).
* A walker that fails leaves a WebDAV worker blocked with its dialer slot exactly if that worker has a file
  left (`WalkDir.LeftoverBlocksWorker`, `WalkDir.FailedWalkLeavesWorker`); a slot is lost for each such worker,
  and all of them exactly if these are no fewer than the slots (`WalkDir.SlotsLostExactly`).
* A bulk push into the ring buffer that wraps while the end is behind the start keeps too few items
  (`RingBuffer.PushIsExactUnlessOverrun`); a run keeps the last of everything exactly as long as none does
  (`RingBuffer.RunKeepsLast`).

## Model

| member | source | states |
|---|---|---|
| Calendar.LastDayMeetsFirst | notify/stat.go:62-64 | across a month boundary, "day 0 and the last update was on a last day" holds exactly when the update is on the calendar day after the last one, with leap years and new year |
| Ledger.SumFirst | notify/stat.go:109-121 | the summing loops add up the first n buckets |
| Ledger.ClearBetween | notify/stat.go:163-166 | the clean-up loops zero the buckets strictly between two indices and no others, also when the range is empty |
| Ledger.StatData.Update | notify/stat.go:101-217 | an update leaves exactly the state of the roll-over rules: close the year, month or day or clear skipped hours, then add the hit and move the date |
| Ledger.StatData.CloseYear | notify/stat.go:105-150 | the year change stores the year's total, moves or clears the previous-period copies and starts empty buckets |
| Ledger.StatData.SumYear | notify/stat.go:106-122 | the stored year total includes the open days only into the next year and the open hours only from December to January |
| Ledger.StatData.CloseMonth | notify/stat.go:151-186 | the month change stores the month's total, clears skipped months and copies the days; a skipped month drops the open hours' share |
| Ledger.StatData.SumMonth | notify/stat.go:152-162 | the month total is the closed days, plus the open hours only when the next month follows directly |
| Ledger.StatData.CloseDay | notify/stat.go:187-206 | the day change stores the day's total, clears skipped days and copies the hours if the days are adjacent |
| Ledger.StatData.CopyHours | notify/stat.go:198-205 | the previous hours become the current ones with the stale tail zeroed, or all zero |
| Ledger.StatData.constructor | notify/stat.go:78-85 | a new ledger has no date and only empty buckets |
| LedgerUpdates.SameDayUpdate | notify/stat.go:207-217 | on the same day an update adds to its hour, clears the hours in between, and changes nothing else, whatever the ledger held |
| LedgerUpdates.NextDayUpdate | notify/stat.go:187-206 | later in the month the old day gets its hours' sum, days in between are cleared, the hours start anew, and the previous hours are yesterday's up to the last one or nothing |
| LedgerUpdates.NextMonthUpdate | notify/stat.go:151-186 | in the next month the old one gets its days and last hours, hours and days start anew, and the previous days are the old ones up to the last |
| LedgerUpdates.SkippedMonthUpdate | notify/stat.go:151-186 | after a skipped month the previous days are all zero, the previous hours and months are untouched, and the old day's hours stay under the new day |
| LedgerUpdates.NewYearUpdate | notify/stat.go:105-141 | from December to January the year gets months, days and hours, everything starts anew, and the previous copies are hours, days and all months |
| LedgerUpdates.LaterInNextYearUpdate | notify/stat.go:105-149 | in a later month of the next year the year gets months and days, the hours stay, the previous days are all zero and the previous months are the old ones up to the last |
| LedgerUpdates.SkippedYearUpdate | notify/stat.go:105-149 | after a skipped year the old one gets its closed months, the previous months are all zero, and days and hours stay |
| LedgerExact.PeriodIsSumOfParts | notify/stat.go:101-217 | the log's total of a period is the sum over its parts once no event lies beyond them |
| LedgerExact.OpenDayTotal | notify/stat.go:188-192 | an exact ledger's hours add up to the log's events of its day |
| LedgerExact.OpenMonthTotal | notify/stat.go:153-162 | its days and hours add up to the log's events of its month |
| LedgerExact.OpenYearTotal | notify/stat.go:108-122 | an exact ledger's months, days and hours of the open year add up to the log's events of that year |
| LedgerExact.StepExact | notify/stat.go:101-217 | an update that skips no month keeps the current and all previous-period buckets exact, in all four roll-over cases |
| LedgerExact.StepBroken | notify/stat.go:105-186 | an update that skips a month makes an exact ledger inexact, always |
| LedgerExact.LedgerRefinesLog | notify/stat.go:101-217 | over every run the ledger is the filtered and summed event log after each update if and only if no month is skipped |
| LedgerExact.RunExact | notify/stat.go:101-217 | so every reachable ledger of a month-contiguous run is exact |
| LedgerTotals.PreviousMonthTotal | notify/stat.go:153-182 | the events of the month before are the previous days' sum plus the last active day, which the copy omits |
| LedgerTotals.PreviousYearTotal | notify/stat.go:108-149 | the events of the year before are the previous months' sum plus December, which the copy omits |
| LedgerTotals.GrandTotalConserved | notify/stat.go:101-217 | years, months, days and hours together hold every logged hit and byte exactly once |
| LedgerLosses.UpdateDrops | notify/stat.go:101-217 | an update changes what all buckets together hold by its own hits and bytes less the buckets it overwrites or clears without adding them up |
| LedgerLosses.GrandTotalIsLogLessDrops | notify/stat.go:101-217 | over every run the buckets together hold the log's total less everything so dropped |
| LedgerLosses.HitsConservedExactly | notify/stat.go:101-217 | no run counts a hit twice, and all hits are there exactly if no update dropped any |
| LedgerLosses.ContiguousRunDropsNoHits | notify/stat.go:101-217 | a run that skips no month drops none |
| Stats.NodeStats.AddHits | notify/stat.go:325-350 | one call updates the node's ledger and, for a named storage, only that storage's ledger, creating it if it is missing |
| Stats.SubLedgerRunsAlone | notify/stat.go:335-349 | a storage's ledger is the run over its own calls, whatever other storages do in between |
| Stats.IdleStorageIsInexact | notify/stat.go:335-349 | a storage idle for a month loses exactness while the node's ledger keeps it |
| SafeFile.CommittedSurvives | notify/stat.go:352-391 | after any saves, torn writes, crashes, recoveries and failed loads after which the node goes on, a restart finds the last committed value or the one being written |
| SafeFile.LoadsReturnCommittedOrPending | notify/stat.go:352-391 | a load that completes returns one of those two, and none fails or starts empty |
| SafeFile.RecoveryIsRepeatable | notify/stat.go:352-374 | a crash at any step of a recovery does not change what the next one finds |
| SafeFile.LoadFailsExactly | notify/stat.go:352-391 | a load fails exactly when nothing is committed, some file is there and the last save has not written its whole buffer under the name itself |
| SafeFile.FailedLoadGoesOn | cluster.go:250-253 | a failed load is followed by a crash or by going on with nothing, and by nothing else |
| SafeFile.SaveRepairs | cluster.go:250-253 | after a failed load the node goes on, and the first save that ends leaves a committed value |
| SafeFile.SaveBeforeLoadLoses | notify/stat.go:376-391 | a save before the load loses every value exactly when the file itself does not parse |
| SafeFile.Files.WriteFileWithOld | notify/stat.go:376-391 | an undisturbed save moves the file aside and writes both copies, through states of the crash machine |
| SafeFile.Files.MoveAside | notify/stat.go:377-383 | the old copy goes and the file takes its name, each as one step of the machine |
| SafeFile.Files.CreatePath | notify/stat.go:384-386 | creating and filling the file passes only through torn prefixes |
| SafeFile.Files.CreateOld | notify/stat.go:387-389 | so does the second copy, while the file itself stays whole |
| SafeFile.Files.ParseFileOrOld | notify/stat.go:352-374 | an undisturbed load returns the file, or else the old copy and restores the file from it; it fails only if neither parses and one exists |
| SubLedgers.Load | notify/stat.go:268-292 | the load takes the node's ledger, then the storages' ledgers in the order of their directory, stops at the first that fails and does not see one that has only its old copy |
| SubLedgers.FailsExactly | notify/stat.go:352-374 | the load of a ledger fails exactly if one of its files is there and neither can be parsed |
| SubLedgers.ScanFromDown | notify/stat.go:278-289 | at the start of a life a ledger can be passed over, and can be loaded exactly if its file is there under the name itself |
| SubLedgers.SubLedgerSurvivesExactly | notify/stat.go:268-292 | over all histories, also with scans that missed or did not reach the files, after a crash a committed ledger of a storage is loaded exactly if its own file exists and no load before it failed, with the committed value or the one being saved; the file is missing exactly between rename and creation |
| SubLedgers.ScanKeepsInv | notify/stat.go:268-319 | every step of saves, crashes, recoveries and scans keeps each file a prefix of something saved and a committed value recoverable |
| SubLedgers.MissedIsLost | notify/stat.go:278-289 | from a crash that left only the old copy, no continuation ever loads it, and the next save removes it before it writes anything |
| SubLedgers.PassedLosesExactly | notify/stat.go:376-383 | after a scan that did not load a ledger, the first step of its next save leaves its value exactly if the file under the name itself parses, and otherwise none |
| SubLedgers.UnreachedStays | notify/stat.go:376-391 | if it parses, its value is found at every step of the next save until the new one is whole in its place |
| BufSlots.TakeHead | limited/util.go:59-61 | taking the head of the channel keeps every slot free or held exactly once |
| BufSlots.GiveBack | limited/util.go:62-64 | returning a held slot keeps that, and the channel has room for it |
| BufSlots.AllFree | limited/util.go:38-49 | when nobody holds a slot all are in the channel |
| BufSlots.SlotChannel.constructor | limited/util.go:38-49 | a new channel holds every slot once |
| BufSlots.SlotChannel.Alloc | limited/util.go:59-68 | an allocation takes the head slot under a fresh ticket |
| BufSlots.SlotChannel.Free | limited/util.go:62-64 | the first free puts the slot back, every further one does nothing |
| SyncPipeline.StepKeepsInv | sync.go:522-632 | every step of fetchers, writers and collector, with or without cancellation, keeps slots, channels and reports consistent |
| SyncPipeline.LocalSlots | sync.go:572-597 | a step of one file's goroutines takes or returns at most one slot and keeps every slot free or held once |
| SyncPipeline.LocalReports | sync.go:565-603 | and keeps the reports one per file, each true of what was stored |
| SyncPipeline.GivenUpAtLastTry | sync.go:671-756 | the fetch of a file is given up only at its last try or after a cancellation |
| SyncPipeline.CancelledCanStop | sync.go:565-606 | after a cancellation every goroutine that waits can stop |
| SyncPipeline.StuckOnlyWhenOverOrLost | sync.go:553-632 | a state without a step has all goroutines over and all slots back, and the collector waits only if a report was lost |
| SyncPipeline.StepLowersRank | sync.go:553-632 | every step leaves strictly less to do |
| SyncPipeline.RunsEnd | sync.go:553-756 | so no run is longer than the measure of its start |
| SyncPipeline.CompleteRunReportsEachFileOnce | sync.go:565-632 | when the sync returns success each missing file has reported exactly once and each target of a fetched file is stored, failed or skipped |
| SyncPipeline.SyncEndsExactlyWithoutLostReports | sync.go:581-583 | the sync hangs exactly when nothing was cancelled and a report was lost |
| SyncPipeline.LostReportBlocksSync | sync.go:581-583 | a temporary file that does not open blocks the sync forever |
| SyncFailures.GivesUpExactly | sync.go:611-632 | a report makes the sync fail exactly if the storages named as failed so far are all of them and it added one, and succeed exactly if it is the last and they are not |
| SyncFailures.SucceedsExactly | sync.go:608-640 | a run to its end without cancellation and lost report returns success exactly if the storages named as failed are fewer than all |
| Presence.StepKeepsInv | sync.go:219-376 | every step of the concurrent scans keeps each storage listed for a hash as often as it has found it lacking |
| Presence.StepKeepsBooked | sync.go:226-239 | a step of one storage's scan leaves the account of every other storage and hash as it was |
| Presence.After | sync.go:378-421 | every schedule of the goroutines leads to a state in which those accounts hold |
| Presence.CheckCountsLacking | sync.go:219-421 | for any order of the goroutines, any list and any failed walks, the final target list names a storage as often as a listed file of the hash is lacking from it |
| Presence.CheckIsExact | sync.go:219-421 | with distinct hashes the targets of each file are exactly the walked storages that do not hold it or hold it at another size, each once; an empty file has none, and nothing else is reported |
| Presence.StepAdds | utils/util.go:69-84 | get-or-set with its second look-up under the lock adds the storage to the entry exactly once and changes no other entry |
| SyncGc.Cluster.SetFilesetByExists | sync.go:424-446 | the file set becomes the list entries not missing from all storages; a failed check changes nothing |
| SyncGc.Cluster.SyncFiles | sync.go:191-211 | a second sync does nothing, a failed one commits nothing, a successful one adds the whole list; the flag is cleared on every path |
| SyncGc.Cluster.GcFor | sync.go:648-669 | a collection removes from its storage exactly what it visits and the file set does not name, until a flag test meets a sync |
| SyncGc.Cluster.Gc | sync.go:642-646 | so does the collection of all storages, each with its own tests |
| SyncGc.CollectionKeepsNamed | sync.go:648-669 | an interrupted collection takes nothing that the file set names, and one that visits all and meets no sync leaves exactly that |
| SyncGc.FilesetIsWhatExists | sync.go:403-446 | with distinct hashes the file set names exactly the files some storage holds at the listed size, a failed walk counting as holding all; if every walk failed it stays as it was |
| SyncGc.FilesetExactly | sync.go:403-446 | for every list, a hash is in the file set exactly if it is listed and lacking less often, over all storages and its entries, than there are storages, unless every walk failed |
| SyncGc.RepeatedHashHidesExactly | sync.go:434-438 | a file that some storage holds is hidden exactly if its entries times the storages that lack it are no fewer than the storages |
| SyncGc.RepeatedHashIsHidden | sync.go:434-438 | two entries hide a file that one of two storages holds |
| SyncCopies.StoredExactly | sync.go:553-632 | when the pipeline has returned success, a storage has got a file exactly if it was a target and neither the fetch nor its copy failed or was skipped |
| SyncEffect.FaultFreeSyncFills | sync.go:191-211 | after a fault-free sync no storage whose walk succeeded lacks a listed file |
| SyncEffect.SyncLeavesExactlyFailures | sync.go:191-211 | after check and pipeline a storage lacks a file exactly if it lacked it before and its walk, the fetch or that copy failed |
| SyncEffect.CommittedFileIsNowhere | sync.go:200-208 | a sync that returns success commits every listed file, and one is on no storage exactly if none had it and the fetch or every copy to a walked storage failed |
| SyncEffect.CheckSyncGcAgree | sync.go:191-211 | after a fault-free sync, its commit and a garbage collection every storage holds every listed file, and a second check in any order finds nothing |
| SyncEffect.UnfetchedFileIsCommitted | sync.go:200-208 | a sync whose fetches all fail still returns success and commits the file |
| GcRace.CalmRunKeepsCommitted | sync.go:648-657 | if no sync begins between the flag test, the look-up and the removal of a file, three separate steps, no committed file ever leaves the storage, for any interleaving and any number of collections |
| GcRace.StepKeepsInv | sync.go:648-657 | every other step keeps committed and pending files on the storage and no named file up for removal |
| GcRace.LookDecides | sync.go:650-655 | a test and a look-up take a file up for removal exactly if no sync runs and the file set does not name it, and change nothing on the storage |
| GcRace.RemoveTakes | sync.go:655 | a removal that was decided takes its file and nothing else |
| GcRace.SyncCommits | sync.go:191-211 | a sync left alone names and keeps what it has found and stored, names its list, and ends |
| GcRace.OneSyncAtATime | sync.go:193-196 | a second sync does not begin while one is running |
| GcRace.OvertakenRemovalLosesFile | sync.go:650-657 | otherwise, from every such state and whether or not the file is still there, a sync can store and commit it and the removal then takes it |
| GcRace.SyncIsSafeExactlyWhenQuiet | sync.go:648-657 | so a sync may begin without danger exactly when no collection is under way with a file that the file set does not name |
| SingleFlight.OneWorkerPerHash | sync.go:853-971 | under every interleaving at most one worker per hash is live, it deletes its own item, and its done channel is closed once, after its result is set |
| SingleFlight.StepKeepsInv | sync.go:853-971 | every look-up, insertion, finish and deletion keeps one registered item per hash and one result per item |
| SingleFlight.WaitersSeeTheirWorker | sync.go:874-971 | a request gets the result of the worker it joined, and without an error its file is in the file set |
| SingleFlight.AnswersTellWhatHappened | sync.go:880-971 | a request gets no error exactly if the worker it joined stored the file, and the error e exactly if that worker failed with e |
| SingleFlight.OnlyLeavingGivesUp | sync.go:959-967 | a request ends without an answer exactly by giving up itself |
| SingleFlight.NoDeadlock | sync.go:874-971 | when nobody can move, every request is answered or gave up and no download is registered |
| SingleFlight.StepsEnd | sync.go:874-971 | every step lowers a measure |
| Quota.PartsAreMasks | limited/api_rate.go:133-164 | the two halves of the integer epoch are the masks 0xffff and 0xff0000 of the code |
| Quota.LimitSet.Try | limited/api_rate.go:57-131 | the mutable try, with its creation of counters and its undo, returns and leaves what the specification function says |
| Quota.LimitSet.Release | limited/api_rate.go:133-155 | a release changes a counter only if its half of the epoch still matches |
| Quota.LimitSet.Clean | limited/api_rate.go:157-167 | a clean empties the minute counters, an hour clean both, and advances the packed epoch |
| QuotaLedger.SamePart | limited/api_rate.go:137-164 | two packed epochs agree in a half exactly when the numbers of cleans are congruent modulo 2^16, or of hour cleans modulo 2^8 |
| QuotaLedger.TryMeetsSpec | limited/api_rate.go:75-130 | a try grants exactly when both counters are below their limits, reports what is left, and a rejected one changes no count |
| QuotaLedger.TryCreates | limited/api_rate.go:82-113 | a try creates exactly the counters it looks up |
| QuotaLedger.NoLimitNoReject | limited/api_rate.go:65-68 | without limits every request is let through, nothing is counted and nothing will be given back |
| QuotaLedger.RejectedAnswer | limited/api_rate.go:102-128 | a request turned away is told no hour left if the hour's limit did it and otherwise the hour's rest, and no minute left; its epoch gives nothing back |
| QuotaLedger.TryKeepsBooks | limited/api_rate.go:57-131 | a try keeps every id's counters equal to its unreleased grants |
| QuotaLedger.CleanKeepsBooks | limited/api_rate.go:157-167 | so does a clean |
| QuotaLedger.PanicExactly | limited/api_rate.go:121-128 | the nil counter is used exactly when only the minute limit is set and it is exhausted |
| QuotaLedger.ReleaseKeepsBooks | limited/api_rate.go:133-155 | a release takes back the units of its own epoch; a stale one is a no-op within the range of the epoch |
| QuotaLedger.WrappedReleaseBreaksBooks | limited/api_rate.go:137-155 | beyond that range the release takes a unit that some other request holds |
| QuotaLedger.CountersAreUnreleasedGrants | limited/api_rate.go:57-167 | over every run with the hour limit on, each id's counters equal its unreleased grants since the last minute and hour clean and stay within [0, limit] |
| QuotaLedger.EpochZeroRejects | limited/api_rate.go:161-164 | a request within both limits is turned away exactly when the packed epoch has wrapped to 0 |
| QuotaLedger.ScheduleAvoidsEpochZero | limited/api_rate.go:187-196 | on the ticker's schedule the packed epoch is never 0 |
| QuotaRace.StepKeepsInv | limited/api_rate.go:75-129 | every step of the split try, of release and of clean, except the late re-read, keeps each counter equal to the units held or to be undone |
| QuotaRace.NoOverGrant | limited/api_rate.go:75-129 | whatever the interleaving, requests holding a unit of the present hour or minute never exceed the limit, and the raw counter exceeds it by no more than the undos under way |
| QuotaRace.BooksKeptExactlyWithoutRace | limited/api_rate.go:111-129 | a step from any reachable state without a race keeps the books exactly if it is not the re-read after an hour clean |
| QuotaOverGrant.RacyRequestCanOverGrant | limited/api_rate.go:111-129 | from every such state with a request before its re-read and enough others to come, an hour clean and that re-read can be followed by more grants of the hour than the limit |
| QuotaRace.RacyStepOverGrants | limited/api_rate.go:112-120 | the re-read of the epoch after an hour clean lets two requests hold one unit |
| QuotaAlone.AloneMeetsTry | limited/api_rate.go:57-131 | a request that nobody interrupts is granted exactly if both counters are below their limits and adds one to each, and is otherwise rejected with both as they were, as in one undivided step |
| QuotaAlone.ReleaseGivesBack | limited/api_rate.go:133-155 | a release gives its units back to the counters of its own epochs and to no others |
| WriteBudget.WindowBudget | limited/limited_conn.go:178-208 | over every run one window grants at most 2R-1 bytes plus the minimum once for each connection that found it spent |
| WriteBudget.GrantExactly | limited/limited_conn.go:189-207 | a request in a new or unspent window gets min(n, rate) and waits a second exactly if it asked for more; in a spent one it gets the minimum and waits for its end |
| WriteBudget.WindowServes | limited/limited_conn.go:178-208 | over every run a window grants at least what is asked for in it, up to the rate |
| WriteBudget.StepKeepsInv | limited/limited_conn.go:178-208 | every request keeps the window's count equal to what was charged in it, and the bound of every window |
| WriteBudget.IntervalBudget | limited/limited_conn.go:178-208 | any T seconds grant at most (T+1)(2R-1) bytes plus the minimum once for each connection in each of those T+1 windows in which it found the budget spent |
| WriteBudget.SameWindow | limited/limited_conn.go:188-197 | a connection that found the budget spent cannot ask again before the window ends |
| LimitedConn.RateController.PreWrite | limited/limited_conn.go:178-208 | the controller's fields follow the budget model; within the budget a write gets its bytes, up to the rate, without a wait, in a spent window the minimum and the wait to its end, and without a rate everything |
| LimitedConn.Conn.Write | limited/limited_conn.go:465-501 | a write hands over a prefix of its buffer in order and nothing that the controller has not granted to the connection; all of it unless the deadline or an error of the wrapped connection ends it |
| LimitedConn.Conn.WaitTurn | limited/limited_conn.go:471-484 | before each piece the connection sleeps out its own wait, or gives up at its deadline exactly if its turn has not come and the deadline is before it |
| LimitedConn.Conn.WritePiece | limited/limited_conn.go:485-498 | one piece asks exactly once, for all that is left, hands on the bytes granted, all of them unless the connection fails, and keeps the wait |
| ReadBudget.ReadController.PreRead | limited/limited_conn.go:100-136 | preRead leaves the window state and grant of the model: share per connection, new window, minimum when spent |
| ReadBudget.ReadController.AfterRead | limited/limited_conn.go:138-176 | afterRead gives back what was not read, or opens a window, and returns the wait |
| ReadBudget.ShareIs | limited/limited_conn.go:112-115 | a connection's share is the rate divided evenly among the connections counted |
| ReadBudget.ReserveExactly | limited/limited_conn.go:112-135 | a read reserves what it asks for up to its share, or gets the minimum when the budget is spent |
| ReadBudget.WaitExactly | limited/limited_conn.go:147-175 | after its whole share a connection waits a second, otherwise to the end of the window exactly if the bytes read in it reach the rate |
| ReadBudget.EveryReadMayEnd | limited/limited_conn.go:290-306 | a read may end at any later time with any number of the bytes that it was allowed |
| ReadBudget.WindowReads | limited/limited_conn.go:100-176 | over every run the reads that end in a window take at most 2R-1 bytes and what was allowed to late reads and minimum reads |
| ReadBudget.AskKeepsInv | limited/limited_conn.go:100-136 | a reservation keeps the count equal to what is held less what was given back astray |
| ReadBudget.FinishKeepsInv | limited/limited_conn.go:138-176 | so does the end of a read, in the same window or a later one |
| ReadBudget.ReservationsBalance | limited/limited_conn.go:100-176 | over every run the count is what the reads of the window hold less what was given back by reads that it had not charged, negative exactly if these gave back more; they hold at most 2R-1 bytes plus that |
| ReadBudget.ReservationsMayTurnNegative | limited/limited_conn.go:128-165 | a read that outlives its window can make the count negative at any rate; without one this can happen exactly if the minimum is positive |
| Text.SplitOfJoin | internal/gosrc/httprange.go:35 | splitting what was joined gives the parts back |
| Text.TrimThenCut | handler.go:547-564 | trimming a part and then what precedes its dash is trimming what precedes the dash |
| Text.TrimIs | internal/gosrc/httprange.go:37 | trimming takes off blanks at both ends, and all of them |
| Text.ParseOfItoa | internal/gosrc/httprange.go:53-76 | a printed number of at most 63 bits parses to itself |
| Text.SignedParses | internal/gosrc/httprange.go:53-76 | a number with a sign parses to itself or its negative exactly within 64 bits of two's complement |
| Text.OnlyDigitsParse | internal/gosrc/httprange.go:53-76 | anything with another character than digits after its first is no number |
| HttpRange.ParseRange | internal/gosrc/httprange.go:25-97 | the loop with its early returns gives the answer defined over the list elements: malformed anywhere is an error, only ranges beyond the content are no overlap |
| HttpRange.SuffixElement | internal/gosrc/httprange.go:46-63 | a suffix range is the last n bytes of the content, or all of it |
| HttpRange.OpenElement | internal/gosrc/httprange.go:64-78 | a range without an end goes on to the end of the content, or does not overlap |
| HttpRange.ClosedElement | internal/gosrc/httprange.go:64-88 | a range with both ends is cut to the content; it is malformed if it ends before it starts, unless it starts beyond the content |
| HttpRange.ElementErrors | internal/gosrc/httprange.go:36-84 | exactly which elements are skipped, malformed or beyond the content |
| HttpRange.ErrorsExactly | internal/gosrc/httprange.go:29-96 | a header is rejected exactly if it begins wrongly or an element is malformed, and does not overlap exactly if none is, one is beyond the content and none is a range of it |
| HttpRange.OpenHeader | internal/gosrc/httprange.go:64-96 | "bytes=i-" gives the rest of the content from i on, or no overlap if i is its size or more |
| HttpRange.RangesAreInside | internal/gosrc/httprange.go:35-91 | every range lies inside the content, and an empty one starts at its end |
| HttpRange.RoundTrip | internal/gosrc/httprange.go:25-97 | printing any list of non-empty ranges of the content and parsing it gives the list back |
| HttpRange.FastFormRefines | handler.go:547-564 | on every header the parser accepts, the fast form answers the first range's start, -1 for a suffix, a start beyond the content, or nothing for a blank first element |
| HttpRange.CorrectedSize | storage/storage_mount.go:228-240 | the size sent on is the smaller of the size and the 64-bit sum of the lengths; without ranges it is unchanged |
| HttpRange.CorrectedSizeIsMin | storage/storage_mount.go:228-240 | it is the smaller of size and true sum exactly if the sum fits or the wrapped sum is not smaller, and then within [0, size] |
| HttpRange.SizeMayTurnNegative | storage/storage_mount.go:232-238 | asking twice for a content of 2^62 bytes gives -2^63 |
| DailyReport.ReadyInWindow | database/db.go:283-299 | a report is due after a day, or after 12 hours inside the window from the scheduled minute to the start of the third hour after it, within the day; the first one only in the window |
| DailyReport.SlackSuffices | database/db.go:283-299 | gaps up to the slack suffice for one report a day at its time |
| DailyReport.ReportsAreSpaced | notify/webpush/webpush.go:392-411 | two reports are at least 12 hours apart, and the last is never older than a day and a poll gap |
| DailyReport.OncePerDayExactly | notify/webpush/webpush.go:392-411 | for every schedule and arbitrary polls, "after the first report exactly one a day, at the first poll at or after the scheduled minute" holds exactly for poll gaps up to the window (one nanosecond more before 21:00) |
| ReportPolls.Manager.OnReportStatus | notify/manager.go:201-205 | a call polls exactly if the stored time has come, and stores the next time |
| ReportPolls.NextAfter | notify/manager.go:205 | the next poll is due on a quarter of an hour in (now + 23 min, now + 38 min] |
| ReportPolls.PollsOnGrid | notify/manager.go:201-205 | with calls up to c apart, at most 7 min, every poll after the first comes less than c after its mark, and the marks are half-hourly quarters |
| ReportPolls.ReportsOnceADayExactly | notify/manager.go:201-205 | on every run of calls up to a minute apart with polls for a day, a subscriber there from a given poll on gets "after the first report exactly one a day at its time" unless that is the node's first poll, which falls in the window of its schedule while no poll of the next day does |
| ReportPolls.KeepAliveReportsOnceADay | notify/manager.go:201-205 | for calls up to c apart, any c up to 7 min, that holds on all such runs exactly for the schedules up to 23:30 |
| ReportPolls.LateFirstReport | notify/manager.go:201-205 | a subscriber with a later schedule gets a first report, after the node's first poll, exactly at a poll of a quarter to midnight and if it opens by 23:45 |
| KeepAlive.StepKeepsInv | cluster.go:588-635 | every single read and write of a keep-alive, between any requests, keeps acknowledged reports equal to what the counters have given up |
| KeepAlive.AcknowledgedPlusOwed | cluster.go:588-635 | over every interleaving with failed and successful keep-alives, acknowledged plus owed equals all hits less all stat-only hits, and the same for bytes |
| KeepAlive.UninterruptedKeepAliveSettles | cluster.go:588-635 | an undisturbed keep-alive reports exactly what is owed and leaves nothing owed |
| KeepAliveRequests.MetersOk | handler.go:474-477 | over every interleaving of requests and keep-alives each counter and each value read is a sum over the requests by how far they had come |
| KeepAliveRequests.ReportByRequests | cluster.go:588-635 | a report is what it has of requests it takes nothing off for, less what it takes off for requests it does not have, all of them stat-only; it is negative exactly if the second is more |
| KeepAliveRequests.ReportMayBeNegative | handler.go:508-514 | a request whose hit is reported before it is marked makes the next report negative |
| KeepAlive.WrappedReportIsExact | cluster.go:589-592 | counters that have wrapped report exactly what is owed as long as that fits the width |
| WeightedChoice.ForEachFromRandomIndexWithPossibility | util.go:120-148 | the loops try a prefix of one round from the drawn storage and return true exactly if some storage serves |
| WeightedChoice.ForEachFromRandomIndex | util.go:102-118 | without weights the round begins at the draw |
| WeightedChoice.TryFrom | util.go:137-147 | the two loops try the round from the start index up to the first storage that serves |
| WeightedChoice.StartsByWeight | util.go:128-136 | exactly weight[i] of the draws start at storage i |
| WeightedChoice.RoundVisitsAll | util.go:137-147 | a round visits every storage exactly once |
| WeightedChoice.TriedIsPrefix | util.go:137-147 | the storages tried are a prefix of the round, only the last may serve, and all are tried if none does |
| WeightedChoice.SpareComesAfterFailure | README.MD:299-301 | a storage of weight 0 is tried only after its cyclic predecessor was tried and failed |
| WalkDir.StepKeepsInv | storage/storage_webdav.go:282-321 | every step keeps the tokens of the barrier equal to pushes less finished workers, and every file sent delivered once |
| WalkDir.SlotsMove | storage/storage_webdav.go:287-291 | a worker takes a dialer slot when it begins and gives it back when it leaves, after its token, and no other step moves one |
| WalkDir.NilMeansAllDelivered | storage/storage_webdav.go:282-321 | when the walk returns nil every worker is past its last file and the walker has seen each listed file exactly once |
| WalkDir.FailsExactlyWithWalker | storage/storage_webdav.go:306-320 | the walk returns an error exactly if the walker has returned one |
| WalkDir.WalkIsNeverStuck | storage/storage_webdav.go:282-321 | until it returns some step is possible, for any number of dialer slots |
| WalkDir.StepLowersRank | storage/storage_webdav.go:282-321 | every step leaves strictly less to do |
| WalkDir.RunsEnd | storage/storage_webdav.go:282-321 | and it returns, after no more steps than a measure of its listings |
| WalkDir.LeftoverBlocksWorker | storage/storage_webdav.go:298-304 | after the walk has returned, a worker ends exactly if it has no file left; otherwise no step moves it |
| WalkDir.SlotsLostExactly | storage/storage_webdav.go:298-318 | when nothing moves any more after the return, one dialer slot is held for good for each worker that had files left, all of them exactly if these workers are no fewer than the slots |
| WalkDir.FailedWalkLeavesWorker | storage/storage_webdav.go:315-318 | a walker that fails on the first of two files leaves the worker holding its dialer slot |
| AccessLogs.Logger.MoveAccessLogs | log/logger.go:351-388 | the recursion ends and moves the unbroken run of logs up by one slot, compressing into slot 2, overwriting in the right order |
| AccessLogs.Logger.Rotate | log/logger.go:402-405 | a log that has grown too long is moved away with all that is in its way |
| AccessLogs.RotationKeepsTexts | log/logger.go:351-388 | each log of the run keeps its text one slot up, what is behind a gap is untouched, and only a full directory loses its last log |
| AccessLogs.SlotsHoldNewest | log/logger.go:351-388 | after any number of rotations the slots, however many are configured, hold exactly the newest logs, newest first |
| RingBuffer.Ring.Push | dashboard/src/utils/ring.ts:49-73 | the contents become the last of the old contents and the new items, as many as there is room for, or fewer when the push overruns |
| RingBuffer.PushIsExactUnlessOverrun | dashboard/src/utils/ring.ts:64-71 | that is the last `size` of them exactly when the push does not wrap while the end is behind the start |
| RingBuffer.SinglePushNeverOverruns | dashboard/src/utils/ring.ts:49-73 | a push of one item never does |
| RingBuffer.RunKeepsLast | dashboard/src/utils/ring.ts:49-73 | every state of a run of pushes holds the last of everything pushed before it exactly as long as no push overruns |
| RingBuffer.Ring.Avaliable | dashboard/src/utils/ring.ts:34-39 | the available count is the length of the contents and at most the size |
| RingBuffer.Ring.At | dashboard/src/utils/ring.ts:41-43 | the i-th entry is the i-th of the contents |
| RingBuffer.Ring.Set | dashboard/src/utils/ring.ts:45-47 | setting the i-th entry changes exactly that one of the contents |
| RingBuffer.Ring.constructor | dashboard/src/utils/ring.ts:5-9 | a new ring is empty and has one place more than its size |
| RingBuffer.Ring.Keys | dashboard/src/utils/ring.ts:75-91 | the keys are the places of the contents, in order |

## Left out

- Hit counts are unbounded integers in the ledger; the wrap of its 32-bit counts is not modelled (the keep-alive's is).
- Years are keyed by number, not by their decimal string, and events are assumed to come in the order of the clock.
- The JSON encoding of the statistics file is any parser that rejects every proper prefix of what is saved; the order in which a file system makes writes durable beyond the order of the calls is not modelled.
- SafeFile.CommittedSurvives: file calls do not fail except by a crash.
- The heavy check (hashing each file) runs in goroutines the check does not wait for (sync.go:334-358); only the light check is modelled.
- Presence.CheckIsExact: the contents of the storages do not change while the check runs, and a cancelled check is the outcome "nothing" of the file-set operations.
- SyncEffect.SyncLeavesExactlyFailures: a fetched file is taken to have its listed size; the download checks the hash, which is abstract here.
- SyncGc.Cluster.SyncFiles: the outcome of check and pipeline is a parameter, because they are state machines of their own; the sort of the list and the progress bars are left out.
- SyncGc.Cluster.GcFor: the file set does not change during the walk; what happens when it does is the subject of `GcRace`.
- GcRace.CalmRunKeepsCommitted: on-demand downloads, which add to the file set after they create the file, do not run at the same time.
- QuotaRace.NoOverGrant: the hour limit is on, epochs are unbounded numbers rather than packed ones, and one id is considered because the counters of others are separate.
- QuotaLedger.CountersAreUnreleasedGrants: a grant is released at most once, which utils/http.go:63-75 ensures, and the limits do not change during the run.
- LimitedConn.Conn.Write: the zero-copy readFrom path and closing are left out, the requests of other connections come between calls rather than between pieces (the budget theorems cover every interleaving), and the minimum rate is positive, without which the loop need not end.
- ReadBudget.ReservationsBalance: the rates do not change during the run; the sleeping of a connection's reads is left out because the bound does not need it.
- Text.ParseOfItoa: strings are sequences of characters; the range parser is not about encodings.
- ReportPolls.ReportsOnceADayExactly: the node does not restart, which would make a new first poll.
- DailyReport.OncePerDayExactly: the polls with larger gaps are arbitrary ones, not the manager's; `ReportPolls` is about those.
- DailyReport.ReportsAreSpaced: writing the time of the report to the database does not fail, and one subscriber is considered.
- WeightedChoice.StartsByWeight: the draw is any number below the total; the slight bias of taking a 31-bit random number modulo the total is not modelled.
- WalkDir.WalkIsNeverStuck: only this walk uses the dialer slots; another that never returned one could hold it up.
- WalkDir.NilMeansAllDelivered: a directory that cannot be read lists nothing, as in the code, which does not report it.
- AccessLogs.Logger.MoveAccessLogs: file operations do not fail, and compression is abstract.
- RingBuffer.Ring.Push: the proxy that gives the buffer its index syntax is left out.
- The channels behind Enable, Disable and WaitForEnable (cluster.go), the working/last-check state of storages, heavy-check scheduling and the semaphore's waiting are left out; they would add simpler members of the same kind.
- HTTP handlers, TLS, log streaming, login, databases, web push and mail transport, configuration and the rest of the dashboard are not part of this model.
