# Verified model of the activity sync service

The service copies activity data (videos, live rooms) from a spreadsheet and a manual
table into a Feishu base, mirrors the keys into an audit table, reads reviewed results
back, and runs all of this as workflows that several instances schedule over one
PostgreSQL database. This project models that logic and proves what it is relied on for.

| file | what it models |
|---|---|
| Wrappers, Json, Text, Numbers | options and results; JSON values; trimming, cleaning, name and key normalisation, string order; integer texts |
| CellValues | plain text, business keys, the comparison form, field rules, write values, lookup by name |
| SourceRows, MergedRows | parsing the sheet and the manual records; marking and merging the two sources |
| TargetTable, TableIndex | the target table with its batch writers; the index by business key |
| Upsert, MainPlan | plans of updates and creates; the diff of a source row against a record |
| Convergence | any number of interrupted runs and one complete run, for any list of wishes |
| MainSync, AuditTable | the main table and the audit table as instances |
| SyncSources, OtherKeys | where the rows come from and which belong to the spreadsheet; what a plan leaves alone |
| TableRuns, AuditRuns | whole runs over both tables, each deciding anew which rows it syncs; convergence of the main and of the audit table |
| SyncExample | a source, tables and settings that meet all assumptions of these theorems |
| TableSync | the pipeline steps in their order, as a class |
| WorkflowLedger, WorkflowProtocol | the lease row, the run and step ledgers; every interleaving of many workers |
| NotificationGuard, QueryCache | the notification guard; the revision-versioned cache of several instances |
| ActivityRetry, BatchOutcome | the retry loop of one activity; collecting the activities of a run |
| AuditResults, SheetColumns, DataSync | reviewed results; column names; report rows and page tokens |

## How to read it

Code that changes things step by step is a method with loops, or a class whose methods
update fields; its `ensures` tie it to a specification function or predicate, and the
lemmas say what that specification means. A *wish* is what one source row asks of the
table: the fields of a new record, and the change to the record that already has its
key. `Convergence` is proved once for wishes; `MainSync` and `AuditTable` show that source
rows and audit rows are wishes that settle.

## What the sync theorems rely on

* No two columns of the target table are spellings of one name under
  `normalize_field_name`, and rows only name columns of the table (`SettingOk`, `RowOk`).
  Without it the exact condition is `SpellingsSettleExactly`, with a failing pair of
  names in `SpellingsOfA` and `TwoSpellingsNeverSettle`.
* A cell that a row writes reads back as an equal value, and in the key column as the
  same key (`FieldsReadBack`). Text read back as one segment does
  (`OneSegmentStoreReadsBack`); `StoredSettlesExactly` shows that equality is exactly what
  is needed, and `CutAtBlankNeverSettles` gives a text in two segments that is written
  again by every run.
* Every cell that was written is there when the record is read again: a written cell that
  the table does not return, as it may an empty text, is not covered (`CellStore`).
* The key column is a text column, and the data-source column is another column
  (src/pipeline/video.rs:60-61, src/pipeline/live.rs:60-61).
* A write request of at most 1000 records is taken whole or not at all.
* For the audit table in manual-only mode, the manual mark reads back as the same text and
  does not clash with the spreadsheet's.
* The approval text of the audit is non-empty and a fixed point of `clean_text`;
  `ApprovalSettlesExactly` shows that otherwise every run writes it again.

Each SQL statement or transaction is one step. In the protocol models the clock, crashes,
lost answers, evictions and every interleaving are steps too.

## Findings

* A run's finish functions overwrite the status unconditionally, so a closed status is not
  final: a worker that stalls past its lease and the recovery age can turn a recovered run
  from failed to succeeded (`RecoveredRunSucceeds`). A worker finds its run closed exactly
  if recovery closed it before (`FinishFindsRecovered`), and the status changes exactly if
  its finish then writes another one (`ClosedStatusChanges`); nothing else changes it,
  and no run returns to `running` (`RunNeverRunsAgain`).
* Manual-only runs can lose keys for the audit table for good. If the manual mark reads as
  the spreadsheet's, which the configuration allows, a run that stops between the main and
  the audit table leaves rows that the next run takes for the spreadsheet's (`ClashLosesKey`,
  `LostForGood`). `AuditedExactly` says for which rows: those whose mark has to be written.
  The main table converges either way (`MainTableConverges`).
* Two sends of one payload can be closer than the cooldown when the row is cleared
  between the first claim and its mark (`ClearedClaimSendsTwice`), or when a sender outlives
  its five-minute reservation (`LateSenderSendsTwice`). `SentAgainExactly` says when a sent
  payload can be claimed again within the cooldown, and `RefusedExactly` when any claim is
  refused, over every history.
* A text object whose text is a number or blank never compares equal to the same text as a
  string (`TextObjectEqualsString`), so the comparison form is not idempotent exactly where a
  value leads to such a cell (`NormalFormsSettle`, with the cell in `NumberSegment`).
* A text column turns an object with a blank text into an empty string, which preparing
  again turns into nothing; no other cell changes when it is prepared twice
  (`WriteValueStable`, with the cell in `BlankSegment`).
* A number column trims again after dropping commas and the comparison does not. They
  disagree exactly about texts that, without their commas, are a number with blanks at an
  end, such as ", 5" (`WrittenNumberAgrees`, `CommaBeforeBlank`).
* Trimming and replacing line breaks in `clean_text` is redundant: splitting at whitespace
  does both (`CleanTextJoinsWords`).
* The first test of `is_retryable_workflow_error` on the original message is implied by the
  second on the lowered one (`RetryIgnoresCase`).

## Model

| member | source | states |
|---|---|---|
| Text.CleanTextFixedPoints | src/pipeline/sync.rs:654-660 | the texts `clean_text` leaves alone are exactly those with no outer whitespace and only single inner spaces; cleaning twice is cleaning once; what it keeps of other texts is stated by the next rows |
| Text.CleanTextByChar | src/pipeline/sync.rs:654-660 | what cleaning keeps, for every text, one character after the other: whitespace adds nothing, characters next to each other stay so, and characters with whitespace between them are set off by exactly one blank |
| Text.CleanTextDetermined | src/pipeline/sync.rs:654-660 | no other function on texts does that |
| Text.CleanTextKeepsCharacters | src/pipeline/sync.rs:654-660 | the characters of a cleaned text that are no whitespace are exactly those of the text, in their order |
| Text.CleanTextJoinsWords | src/pipeline/sync.rs:654-660 | the trim and the replacement of line breaks change nothing, given the split at whitespace that follows |
| Text.KeyTextOfClean | src/pipeline/sync.rs:613-619 | a key taken from cleaned text has no whitespace, and taking the key of a key changes nothing |
| Text.KeyTextOfText | src/pipeline/sync.rs:606-619 | the key in the cleaned form of any text is exactly its characters without the whitespace |
| Text.NormalizeFieldNameIdempotent | src/pipeline/sync.rs:624-628 | a normalised field name is its own normal form |
| Text.NormalizeFieldNameKeeps | src/pipeline/sync.rs:624-628 | outer whitespace and inner spaces, line breaks and ideographic spaces make no difference; every other character stays, capitals as small letters |
| Text.FirstDifferenceDecides | src/pipeline/sync.rs:491-494 | names are ordered by their first different character, and before their continuations |
| Numbers.IntTextRoundTrip | src/pipeline/sync.rs:694-696 | printing an integer and parsing the text gives it back, for any integer range |
| Numbers.ParseIntExactly | src/pipeline/sync.rs:694-696 | a text is read as an integer exactly when it is digits, with at most one sign before them, of that value within the bounds |
| Numbers.DigitsValueByDigit | src/pipeline/sync.rs:694-696 | one more digit multiplies the value by ten and adds the digit |
| CellValues.PlainStringIsClean | src/pipeline/sync.rs:563-604 | the plain text of any JSON value is a fixed point of `clean_text` |
| CellValues.ObjectReadsAs | src/pipeline/sync.rs:583-602 | an object reads as the first text under `text`, `link`, `name`, whatever else it holds; without one as what is under `value` |
| CellValues.KeyStringStable | src/pipeline/sync.rs:606-619 | a business key has no whitespace, and a cell holding the key as text has that key |
| CellValues.KeyOfText | src/pipeline/sync.rs:606-619 | the key in a text cell is its text without the whitespace |
| CellValues.KeySurvivesSegments | src/pipeline/sync.rs:523-619 | the segments of a text carry its key wherever the text was cut, also at a blank |
| CellValues.TextsCompareExactly | src/pipeline/sync.rs:497-541 | two texts are equal for the comparison exactly when both read as the same integer, or both as the same float, or neither is a number and they are the same when cleaned |
| CellValues.ValueEqualsText | src/pipeline/sync.rs:497-541 | an integer or a float equals exactly the texts that read as it, null exactly the blank ones, a truth value none |
| CellValues.DropCommasByChar | src/pipeline/sync.rs:686-687 | dropping commas drops these and keeps every other character in order |
| CellValues.ObjectComparesAs | src/pipeline/sync.rs:542-559 | an object compares by the first text under `link`, `text`, cleaned and never as a number; without one as what is under `value`, else as it is |
| CellValues.ArrayActsAsItsText | src/pipeline/sync.rs:523-541 | an array compares and reads as the joined plain text of its items |
| CellValues.OneSegmentReadsBack | src/pipeline/sync.rs:497-541 | a text read back as a one-segment array equals the string and has the same plain text |
| CellValues.CleanSegmentsReadBack | src/pipeline/sync.rs:497-541 | so does a text cut into segments that are clean one by one |
| CellValues.BlankAtBorderDiffers | src/pipeline/sync.rs:523-541 | a text cut after a blank does not equal the whole text |
| CellValues.TextObjectEqualsString | src/pipeline/sync.rs:511-550 | a text object equals its text as a string exactly when the text is neither blank nor a number |
| CellValues.IntegerEqualsItsText | src/pipeline/sync.rs:511-519 | an integer equals its text, with or without thousands separators |
| CellValues.LinkCells | src/pipeline/sync.rs:542-591 | link cells compare by their links alone but read as their texts |
| CellValues.NormalFormsSettle | src/pipeline/sync.rs:505-560 | a comparison form is its own comparison form exactly unless the value leads, through its envelopes, to a text or link cell whose text is blank or a number |
| CellValues.NumberSegment | src/pipeline/sync.rs:542-550 | such a cell: the text segment of any integer compares as a text, and that text as the integer |
| CellValues.WriteValueStable | src/pipeline/sync.rs:131-157 | preparing a prepared value again changes nothing, exactly unless the column is a text column and the cell an object whose text is blank |
| CellValues.BlankSegment | src/pipeline/sync.rs:131-157 | such a cell: a segment of one blank becomes an empty text in a text column, and that becomes nothing |
| CellValues.WrittenText | src/pipeline/sync.rs:131-157 | a blank text writes nothing; text columns get the cleaned text, link columns get it as text and link, date columns get an integer or nothing |
| CellValues.WrittenNumber | src/pipeline/sync.rs:662-703 | a number column writes for a text the integer, or else the float, that is read from it without commas and outer whitespace, and nothing if there is none |
| CellValues.WrittenDate | src/pipeline/sync.rs:713-749 | a date column writes for a text the integer, or else the date, that is read from it, and nothing if there is none |
| CellValues.WrittenOther | src/pipeline/sync.rs:131-157 | for cells that are no text: link and text columns write the plain text, number columns 1 and 0 for truth values, all else stays |
| CellValues.KindsExactly | src/pipeline/sync.rs:110-129 | a column's kind depends on its name up to spelling; in several lists it is a link column, else a date column, else a number column, else a text column |
| CellValues.WrittenNumberAgrees | src/pipeline/sync.rs:662-703 | for every text, a number column writes what the comparison takes it for exactly when dropping the commas leaves no blank at either end, or what is left without these blanks is no number |
| CellValues.WrittenNumberEqualsText | src/pipeline/sync.rs:497-519 | and a number written so equals its text for the comparison |
| CellValues.CommaBeforeBlank | src/pipeline/sync.rs:662-703 | the text ", 5" is written as 5 but does not compare equal to it |
| CellValues.KeyWriteValue | src/pipeline/sync.rs:407-410 | a key prepared for a text column is written unchanged |
| CellValues.FindOnlyAlias | src/pipeline/sync.rs:485-495 | with names that are not spellings of each other, lookup by any spelling finds the one field |
| SourceRows.ParseHeaders | src/pipeline/sync.rs:421-435 | succeeds exactly when every header is a non-blank text, returns them trimmed in order, and otherwise names a bad column |
| SourceRows.RowCellsExactly | src/pipeline/sync.rs:218-229 | a row has a field exactly when a column of that header has a value to write, and it is the value of the last such column |
| SourceRows.RowCellsByColumn | src/pipeline/sync.rs:218-229 | with different headers each column has its own field: there exactly when the column is not skipped and its cell has a value to write, which it holds |
| SourceRows.EmptyRowExactly | src/pipeline/sync.rs:437-444 | a row counts as empty exactly when it has nothing but nulls and texts of whitespace |
| SourceRows.CollectCells | src/pipeline/sync.rs:216-229 | the column loop collects exactly those fields |
| SourceRows.ParseOneRow | src/pipeline/sync.rs:209-239 | a row is skipped exactly when it has nothing but empty cells and whitespace; otherwise it lacks its key, or is keyed by the key its own fields carry |
| SourceRows.KeyedRowsInOrder | src/pipeline/sync.rs:209-256 | the rows come in the order of the sheet |
| SourceRows.ParseDataRows | src/pipeline/sync.rs:209-256 | succeeds exactly when no non-blank row lacks a key and no key repeats, returns the keyed rows in order, and otherwise names one offending row or two rows of one key by their sheet numbers |
| SourceRows.ParseSheetRows | src/pipeline/sync.rs:186-257 | the same for a whole sheet, with the errors for an empty sheet, a bad header and a missing key column |
| SourceRows.CollectWriteFields | src/pipeline/sync.rs:276-288 | the field loop collects the non-null write values of the fields that are not skipped |
| SourceRows.ParseBitableRecordsAsSourceRows | src/pipeline/sync.rs:263-312 | succeeds exactly when no key repeats, skips records without a key, keeps the order, and otherwise names two records of one key |
| SourceRows.KeyedSheetRowsOk | src/pipeline/sync.rs:231-254 | parsed sheet rows carry their own keys, and no key twice |
| SourceRows.KeyedRecordsOk | src/pipeline/sync.rs:290-308 | parsed manual records carry their own keys, and no key twice |
| MergedRows.AttachDataSource | src/pipeline/table_sync.rs:272-279 | marks every row in place and changes nothing else |
| MergedRows.WithSourceKeepsKey | src/pipeline/table_sync.rs:272-279 | marking keeps the key as long as the mark goes to another column |
| MergedRows.MergeSourceRows | src/pipeline/table_sync.rs:286-312 | the loop with the map from keys to positions computes the merge that scans for each key |
| MergedRows.MergeIsNaive | src/pipeline/table_sync.rs:281-312 | for distinct keys the merge is the sheet rows in order, each replaced by its manual row exactly when overriding is on, then the manual-only rows in order |
| MergedRows.MergedRowsOk | src/pipeline/table_sync.rs:281-312 | merged keys are distinct, sheet order comes first, and which row of a shared key survives is decided exactly by the override flag |
| TargetTable.Bitable.RequestUpdate | src/pipeline/bitable.rs:134-147 | one update request changes the named cells of the named records or nothing at all |
| TargetTable.Bitable.RequestCreate | src/pipeline/bitable.rs:237-250 | one create request appends its records under fresh ids or does nothing |
| TargetTable.Bitable.BatchUpdateRecords | src/pipeline/bitable.rs:114-161 | the table gets exactly the items of the requests before the first rejected one, which is a whole number of batches of 1000; succeeds exactly when nothing is missing and no request is rejected; an unknown column stops it before the first write |
| TargetTable.Bitable.BatchCreateRecords | src/pipeline/bitable.rs:217-264 | the same for creates |
| TableIndex.IndexExistingRecords | src/pipeline/sync.rs:315-354 | succeeds exactly when no key repeats; the index then holds every key of the table with its record, and otherwise two records of one key are named |
| MainPlan.DiffFields | src/pipeline/sync.rs:457-482 | the field loop leaves out a field exactly when its name is to be skipped or the record has an equal value under the first spelling of the name, and writes every other field as wanted; `CellValues.TextsCompareExactly` says which texts are equal |
| MainPlan.BuildUpsertPlan | src/pipeline/sync.rs:359-387 | the row loop computes the plan of the rows' wishes, updates and creates in row order |
| Upsert.UpdateComesFromWish | src/pipeline/sync.rs:367-377 | every update of a plan is the one some row asks for |
| Upsert.WishGivesUpdate | src/pipeline/sync.rs:367-377 | and no update a row asks for is left out |
| Upsert.UpdateIdsDistinct | src/pipeline/sync.rs:367-377 | two rows never write to the same record |
| Upsert.CreatesAreNewWishes | src/pipeline/sync.rs:379 | the creates are, in order, exactly the rows whose keys the table does not have |
| Upsert.PlanKeepsOrder | src/pipeline/sync.rs:367-379 | creates and updates come in the order of their rows |
| Convergence.UpdatedCells | src/pipeline/bitable.rs:134-147 | a plan's updates write to each record just the named cells of the one update with its id; all other cells, and records without an update, stay |
| Convergence.RunStaysBetween | src/pipeline/table_sync.rs:548-573 | continuing from any interrupted state, every record is as at the very start or as the sync wants it, no key is held twice, and a complete run finishes |
| Convergence.FinishedOutcome | src/pipeline/sync.rs:359-387 | a finished sync leaves under every key exactly what the starting table and the wishes determine |
| Convergence.FinishedTable | src/pipeline/sync.rs:359-387 | its keys are the old ones and the source's; records of other keys and records without a key are unchanged |
| Convergence.FinishedPlanIsEmpty | src/pipeline/sync.rs:359-387 | planning again on a finished table finds nothing to do |
| Convergence.InterruptedRunsStayBetween | src/pipeline/bitable.rs:132-158 | through any number of runs stopped between any two writes, no key is ever held by two records |
| Convergence.RetryIsAccepted | src/pipeline/table_sync.rs:424-452 | wherever earlier runs stopped, the next one passes the checks of the load and can be carried through |
| Convergence.CrashRetryConverges | src/pipeline/table_sync.rs:548-573 | after any number of interrupted runs one complete run ends in the outcome of an undisturbed run and leaves an empty plan |
| MainSync.UpdatedIsSettled | src/pipeline/sync.rs:457-503 | a record that took over a row's differences has no difference left |
| MainSync.StoredSettlesExactly | src/pipeline/sync.rs:457-503 | a record created from a row has no difference left exactly when every cell reads back as an equal value |
| MainSync.UpdatedKeepsKey | src/pipeline/sync.rs:231-239 | an update keeps the record's business key |
| MainSync.StoredCarriesKey | src/pipeline/sync.rs:231-239 | a record created from a row is found under the row's key |
| MainSync.RowWishesOk | src/pipeline/sync.rs:359-387 | source rows that carry their keys and read back are wishes that settle |
| MainSync.SpellingsSettleExactly | src/pipeline/sync.rs:485-495 | without the assumption on names, a created record settles exactly when each name of its row finds an equal value among its spellings |
| MainSync.TwoSpellingsNeverSettle | src/pipeline/sync.rs:485-495 | a row with two spellings of one column and different values is written again by every run |
| MainSync.SpellingsOfA | src/pipeline/sync.rs:624-628 | such a pair of names exists |
| MainSync.OneSegmentStoreReadsBack | src/pipeline/sync.rs:453-456 | under a store that hands text back as one segment every row reads back |
| MainSync.CutAtBlankNeverSettles | src/pipeline/sync.rs:523-541 | under a store that cuts a text after a blank the record is written again by every run |
| AuditTable.CollectAuditSourceRows | src/pipeline/table_sync.rs:317-339 | every source key once, in order, with the data source of its row |
| AuditTable.BuildAuditSyncRecords | src/pipeline/table_sync.rs:669-712 | the loop computes the plan of the audit rows' wishes: missing keys are created, auto-approved ones get the approval unless they read as approved, nothing else is written |
| AuditTable.ApprovalReads | src/pipeline/table_sync.rs:722-744 | a written approval reads as approved exactly when its text is non-empty and a fixed point of `clean_text` |
| AuditTable.ApprovedByMark | src/pipeline/table_sync.rs:669-719 | a row is approved at once exactly when approval is switched on and its mark is not blank and cleans to the manual mark |
| AuditTable.ApprovalSettlesExactly | src/pipeline/table_sync.rs:684-692 | nothing is left to write after the approval exactly under that condition |
| AuditTable.AuditWishesOk | src/pipeline/table_sync.rs:669-712 | audit rows are wishes that settle and are found again under their own keys |
| AuditTable.AuditSynced | src/pipeline/table_sync.rs:669-744 | after a sync every source key is found under itself; with approval switched on, rows of the manual source read as approved; any other row leaves an existing record as it was and a new one with the key alone; no cell but the result of an existing record changes |
| SyncSources.ManualMarkRecognised | src/pipeline/table_sync.rs:715-719 | a row marked as manual is taken for manual exactly when the mark is non-empty and a fixed point of `clean_text` |
| SyncSources.MarkRecognised | src/pipeline/table_sync.rs:492-513 | a record that a mark was written to is taken for the spreadsheet's exactly when the mark is not blank and cleans to what the spreadsheet's mark trims to |
| OtherKeys.OtherKeysUntouched | src/pipeline/table_sync.rs:477-481 | no part of a plan changes a record of a key the plan has no row for |
| OtherKeys.CreatesAvoidKeys | src/pipeline/table_sync.rs:477-481 | nor creates one for it |
| OtherKeys.InterruptedRunLeavesKeys | src/pipeline/table_sync.rs:477-481 | so, wherever a run stops, records of such keys are unchanged and every appended record is stored for another key |
| SyncSources.MergedOk | src/pipeline/table_sync.rs:211-255 | the merged rows have distinct keys and still carry them |
| SyncSources.MergedTakesRows | src/pipeline/table_sync.rs:211-312 | under a key of both sources stands the manual row with the manual mark if manual rows override, otherwise the sheet's row with the spreadsheet mark; a key of one source has that source's row with its mark; no other row is there and no key twice |
| TableSync.TableSyncRun.ParseSources | src/pipeline/table_sync.rs:152-201 | succeeds exactly when what it needs is readable and parses, and then yields what the parsers make of it; a manual-only run needs no sheet |
| TableSync.TableSyncRun.BuildSourceRows | src/pipeline/table_sync.rs:211-255 | marks both sources and merges them so that each key has the row that the override flag decides, with the mark of its source, and notes the audit rows |
| TableSync.TableSyncRun.LoadExistingMainRecords | src/pipeline/table_sync.rs:424-452 | reads and indexes the main table once; stops on unreadable tables, repeated keys, and tables in which no key is recognised |
| TableSync.TableSyncRun.PreserveExistingSpreadsheetRows | src/pipeline/table_sync.rs:462-489 | in manual-only mode drops, from both lists, exactly the rows of keys the main table marks as the spreadsheet's |
| TableSync.TableSyncRun.BuildMainUpsertPlan | src/pipeline/table_sync.rs:523-537 | plans from the rows and the index and uses both up |
| TableSync.TableSyncRun.ApplyMainUpsertPlan | src/pipeline/table_sync.rs:548-573 | the table holds a prefix of the updates, and creates only after all of them; success means all were written |
| TableSync.TableSyncRun.SyncAuditTable | src/pipeline/table_sync.rs:585-661 | the audit table is left alone or holds such a prefix of the plan for its own rows; unreadable tables, repeated keys and tables without a recognised key each stop it, exactly then, with their own error |
| TableSync.TableSyncRun.PrepareRows | src/pipeline/table_sync.rs:138-146 | the steps before the first write: the rows to sync are the merged ones, all of them unless the run is manual-only, and then exactly those of keys the main table does not mark as the spreadsheet's |
| TableSync.TableSyncRun.WriteTables | src/pipeline/table_sync.rs:138-150 | the writing steps write a part of the main plan, and of the audit plan only once the main plan is through; both wholly on success |
| TableSync.TableSyncRun.Run | src/pipeline/table_sync.rs:137-150 | a whole run is a run of its source with the rows it takes from the main table as it finds it; in manual-only mode, in both tables, no record of a spreadsheet key is changed and none is appended for one, whatever the override flag and wherever it stops |
| TableRuns.ManualOnlyLeavesSpreadsheet | src/pipeline/table_sync.rs:454-490 | the same as a fact about every run |
| TableRuns.LaterPlanIsTheSame | src/pipeline/table_sync.rs:462-489 | after interrupted runs a run that leaves out more rows plans exactly what the first would, because the rows it leaves out are settled |
| TableRuns.MainTableConverges | src/pipeline/table_sync.rs:454-573 | for any interrupted runs of one source and a complete one, each taking its rows anew from the main table: the outcome of one undisturbed run for every key, old keys plus source keys, other records unchanged, no key twice, an empty next plan |
| AuditRuns.AuditTableConverges | src/pipeline/table_sync.rs:454-744 | the same for the audit table, unless the marks clash in manual-only mode: approvals read as approved, other results are untouched |
| AuditRuns.RetryNeverRefused | src/pipeline/table_sync.rs:424-452 | wherever earlier runs stopped, the next one is refused by neither table and can go through |
| AuditRuns.AuditedExactly | src/pipeline/table_sync.rs:454-513 | a row the audit table does not have is sure to reach it, however often runs stop, if and only if it is not the case that the run is manual-only, the configured marks clash, and the row's mark has to be written: it is new to the main table or the source cell of its record differs |
| AuditRuns.UpdatedIsOwned | src/pipeline/table_sync.rs:492-513 | a record that a marked row is written to is the spreadsheet's afterwards exactly when its source cell needed the mark and the marks clash, or it did not and the record was before |
| AuditRuns.ClashLosesKey | src/pipeline/table_sync.rs:454-513 | the failing history: a run that stops between the main and the audit table, then one that goes through without the key |
| AuditRuns.LostForGood | src/pipeline/table_sync.rs:454-513 | a key the main table marks as the spreadsheet's stays so marked through every later manual-only run and never reaches the audit table by one |
| AuditRuns.EqualMarksClash | src/pipeline/table_sync.rs:492-513 | giving both sources the same mark is a clash |
| SyncExample.AssumptionsCanBeMet | src/pipeline/table_sync.rs:137-150 | the assumptions of these theorems can be met together, with a row to sync, both with clashing and with other marks |
| WorkflowLedger.ReconciledExactly | src/workflow_run.rs:605-677 | recovery fails exactly the runs that are running, have not beaten for longer than the age and do not hold an unexpired lease themselves, and exactly their running steps, whoever else holds the lease; the lease changes only if it has run out |
| WorkflowLedger.WorkflowRunRepository.StartRun | src/workflow_run.rs:69-92 | a new run under a fresh id, running, beaten now |
| WorkflowLedger.WorkflowRunRepository.TryAcquireRunLease | src/workflow_run.rs:133-149 | granted exactly when no run holds the lease; then this run and no other holds it, for 60 seconds; otherwise nothing changes |
| WorkflowLedger.WorkflowRunRepository.HeartbeatRun | src/workflow_run.rs:98-131 | a live answer means the run holds the lease, still runs, has beaten now and is no orphan for any age; the holder's lease is renewed even if its run was closed; whoever is not the holder changes nothing; other runs are untouched |
| WorkflowLedger.WorkflowRunRepository.ReleaseRunLease | src/workflow_run.rs:151-163 | the run no longer holds the lease, any run can take it if it did, and other runs hold it exactly if they did |
| WorkflowLedger.WorkflowRunRepository.FinishRun | src/workflow_run.rs:183-226 | the run has the status whatever it had before, no recovery takes it any more, and other runs are untouched |
| WorkflowLedger.WorkflowRunRepository.FinishRunFailure | src/workflow_run.rs:228-258 | fails the run's running steps, so that none is left, and sets the status |
| WorkflowLedger.WorkflowRunRepository.StartStep | src/workflow_run.rs:260-286 | the running step has a row of its own run, period and name: the one there is if the period is given, otherwise a new one; no other row changes; keeps the unique constraint |
| WorkflowLedger.WorkflowRunRepository.FinishStep | src/workflow_run.rs:288-308 | the step is closed, its run, period and name stay, and no other step changes |
| WorkflowLedger.WorkflowRunRepository.FailRunningStepsForActivity | src/workflow_run.rs:310-331 | fails exactly the running steps of the run and period; steps of other runs, other periods and no period are untouched |
| WorkflowLedger.WorkflowRunRepository.ReconcileOrphanedRunsIfIdle | src/workflow_run.rs:605-677 | the same of the whole call, for any age in seconds, capped at the largest i32, whether or not the first statement finds a candidate |
| WorkflowLedger.BeginExclusiveRun | src/workflow.rs:969-1005 | goes ahead exactly when the answer arrives and no run held the lease, with a fresh running run that holds it; otherwise its run is closed; only an answer lost after the commit leaves the lease with a closed run |
| WorkflowLedger.TrackedStep | src/workflow.rs:911-940 | undisturbed, the step is closed with the operation's outcome and nothing else changes |
| WorkflowLedger.EndRun | src/workflow.rs:291-327 | the run is closed and does not hold the lease; a failed one leaves no step of its own running; other runs keep what they had |
| WorkflowProtocol.InvAlways | src/workflow.rs:270-334 | in every reachable state unexpired grants are the lease row, ledger and workers agree, and each running step is accounted for |
| WorkflowProtocol.LeaseExclusion | src/workflow_run.rs:98-163 | over every interleaving, stall and crash, a run granted or renewed less than 60 seconds ago and not released holds the lease row, and no two runs do |
| WorkflowProtocol.BeatOpensWindow | src/workflow.rs:942-967 | a worker that is told to go on holds the lease and its run still runs |
| WorkflowProtocol.FinishedRunHasNoRunningStep | src/workflow.rs:285-334 | once a worker's own finish call has returned, none of its run's steps is running, whatever became of its activities, and even if the worker goes before it gives the lease back |
| WorkflowProtocol.BeginStepStartsStep | src/workflow.rs:911-940 | the protocol's step action is the ledger's `start_step` |
| WorkflowProtocol.RunNeverRunsAgain | src/workflow_run.rs:183-258 | a run that has left `running` never comes back to it |
| WorkflowProtocol.ClosedStatusChanges | src/workflow_run.rs:183-258 | over every history, the status of a closed run changes exactly at its own worker's finish with a status other than failed, and at that finish it is still as recovery left it |
| WorkflowProtocol.FinishFindsRecovered | src/workflow_run.rs:183-258 | at its own finish a worker finds its run closed exactly if recovery has closed it at some earlier step |
| WorkflowProtocol.ClosedByRecovery | src/workflow_run.rs:605-677 | a run closed before its worker finished it was closed by recovery and still is as recovery left it |
| WorkflowProtocol.RecoveredRunSucceeds | src/workflow_run.rs:183-192 | the history in which a recovered run goes from `failed` to `succeeded` |
| WorkflowProtocol.RecoveryTakesOnlyStale | src/workflow_run.rs:605-677 | recovery takes only running runs with an old heartbeat, and never one inside its granted window |
| WorkflowProtocol.RecoveryTakesEveryStale | src/workflow_run.rs:605-677 | and over every history takes every such run: at a recovery exactly the running runs with an old heartbeat and without an unexpired lease of their own are failed, none of their steps is left running, and every other run keeps its row and steps |
| WorkflowProtocol.BeatIsRemembered | src/workflow_run.rs:98-131 | after a beat the heartbeat is at no later state older than it |
| WorkflowProtocol.BeatingRunIsNeverRecovered | src/workflow.rs:942-967 | a run that beats within the age before every recovery, and is not finished by its worker, stays running |
| NotificationGuard.GuardTable.ClaimNotification | src/workflow_run.rs:516-558 | a claim succeeds exactly when there is no row, or no reservation stands and the payload is new, unsent or sent at least the cooldown ago, in the caller's seconds up to the largest i32; only then the row changes, reserved for five minutes |
| NotificationGuard.GuardTable.MarkNotificationSent | src/workflow_run.rs:560-573 | if the row is there, its payload can be claimed exactly from the end of the cooldown on, in the caller's seconds up to the largest i32, and any other can at once; rows of other keys are untouched |
| NotificationGuard.GuardTable.ReleaseNotification | src/workflow_run.rs:575-588 | if the row is there, from now on only a remembered send of the payload within its cooldown stands in the way of a claim; payload, memory and other rows are untouched |
| NotificationGuard.ReleaseUndoesClaim | src/workflow_run.rs:516-588 | what could be claimed can be claimed again after a claim and its release |
| NotificationGuard.GuardTable.ClearNotification | src/workflow_run.rs:590-599 | afterwards anything can be claimed for the key; rows of other keys are untouched |
| NotificationGuard.ClaimsAreApart | src/workflow_run.rs:516-599 | two successful claims within five minutes have a mark, a release or a clear between them |
| NotificationGuard.SendsAreApart | src/workflow.rs:1172-1261 | a payload that was sent is not claimed again, and so not sent again, within the cooldown of its mark, unless another payload was claimed in between or the row was cleared after the first claim |
| NotificationGuard.SentAgainExactly | src/workflow_run.rs:516-599 | after a send, until the next mark, a claim of the payload within the cooldown that no reservation stands against succeeds exactly when such a claim or clear has happened |
| NotificationGuard.RefusedExactly | src/workflow_run.rs:516-599 | at every claim that no reservation stands against, over every history: it is refused exactly when the row had the payload at some mark within the cooldown and neither a clear nor a claim of another payload came after |
| NotificationGuard.RefusedForCooldown | src/workflow_run.rs:516-573 | in the caller's seconds: after the last mark that the row remembers, a claim that no reservation stands against is refused until the cooldown, or the largest i32 if less, has passed, and granted from then on |
| NotificationGuard.ClearedClaimSendsTwice | src/workflow_run.rs:560-599 | a clear between a claim and its mark lets the payload be sent twice at once |
| NotificationGuard.LateSenderSendsTwice | src/workflow_run.rs:560-573 | a sender outliving its reservation sends a second time within the cooldown |
| QueryCache.VersionedKeyInjective | src/server/cache.rs:43-44 | no two pairs of revision and key share a versioned key |
| QueryCache.Cache.GetOrTryInsert | src/server/cache.rs:37-68 | undisturbed, returns a readable entry of the current revision and this key, else the loader's result, storing it if it can be encoded |
| QueryCache.CallIsSteps | src/server/cache.rs:37-68 | such a call is a run of the interleaved protocol's steps: begin, read the revision, hit; or miss, drop, load, insert |
| QueryCache.Cache.InvalidateAllShared | src/server/cache.rs:74-83 | after success no entry of an earlier revision answers a read any more, on any instance and for any key; after failure nothing has changed |
| QueryCache.Cache.InvalidateAfterWrite | src/server/cache.rs:104-122 | success means that the write succeeded and earlier entries are hidden; a failed write hides them too if the bump succeeds, and its own error is returned |
| QueryCache.LaterRevisionHides | src/server/cache.rs:43-45 | no cache of entries up to one revision answers a read of a later one |
| QueryCache.InvAlways | src/server/cache.rs:37-83 | in every reachable state each cached entry includes all writes bumped up to its revision, and each read in flight will |
| QueryCache.ReadIsFresh | src/server/cache.rs:37-90 | over every interleaving of instances, a read returns a database state that includes every write whose bump had finished when it began |
| ActivityRetry.RetryIgnoresCase | src/workflow.rs:1536-1557 | whether an error is retried does not depend on the case of ASCII letters, and the lowered message alone decides |
| ActivityRetry.PermanentExactly | src/workflow.rs:1536-1557 | an error is not retried exactly when its message, whatever the case of its letters, has one of twelve parts somewhere in it |
| ActivityRetry.RetryDelayMonotone | src/workflow.rs:1526-1534 | delays never shrink and never pass 300 seconds |
| ActivityRetry.RetryDelayDoubles | src/workflow.rs:1526-1534 | the first delay is the base, the next eight double, capped at 300 seconds, and then they stay |
| ActivityRetry.RunWithRetry | src/workflow.rs:392-517 | at most the allowed attempts, none after a permanent error, each starts before the deadline, each sleep ends before it, the loop ends by it; which outcome occurs exactly when; with at most five attempts total sleep is at most min(15 × base, 1200) seconds |
| BatchOutcome.AggregateActivityOutcomes | src/workflow.rs:1564-1649 | every counter is its sum over the processed activities, lists are joined in order, failures keep their scope |
| BatchOutcome.SummaryOfOne | src/workflow.rs:1564-1649 | the summary of one activity that went well has each of its numbers in its place |
| BatchOutcome.SummaryOfFailure | src/workflow.rs:1564-1649 | the summary of one that failed has its scope and the start of its error, and no numbers |
| BatchOutcome.SummaryOfBoth | src/workflow.rs:1564-1649 | the summary of two lists, one after the other, is the sum of their summaries, in their order |
| BatchOutcome.OutcomesSplit | src/workflow.rs:1580-1612 | every outcome ends up in exactly one of the processed and failed lists |
| BatchOutcome.ScopesSplit | src/workflow.rs:1580-1612 | and for distinct periods every scope does: its period among the processed exactly if it succeeded, itself among the failed exactly if it did not |
| BatchOutcome.SortSorts | src/workflow.rs:387 | sorting by period orders the outcomes and loses none |
| BatchOutcome.CompletionOrderDoesNotMatter | src/workflow.rs:362-388 | for distinct periods every completion order is sorted into the same list |
| BatchOutcome.CollectOutcomes | src/workflow.rs:362-388 | so every completion order gives the same result |
| BatchOutcome.FinishReflectsOutcomes | src/workflow.rs:291-320 | a run is closed as succeeded exactly when every activity succeeded, and as failed exactly when there were some and none did |
| AuditResults.NormalizeExtraIsPlain | src/pipeline/audit_result_sync.rs:167-200 | the result is never a numeric envelope, a text segment or an array of segments, so normalising twice is normalising once |
| AuditResults.NormalizeExtraKeeps | src/pipeline/audit_result_sync.rs:167-200 | of a segment its text is kept, of an array of segments their texts joined and uncleaned, of a numeric envelope what it holds, and any other value as it is |
| AuditResults.ExtraNameOf | src/pipeline/audit_result_sync.rs:139-152 | a field is extra exactly when its name, without outer whitespace, begins with the prefix, and is named by what follows without outer whitespace |
| AuditResults.TrimmedTextIsPlain | src/pipeline/audit_result_sync.rs:94-113 | key, result and label are the plain texts of their cells, and blank ones count as missing |
| AuditResults.CollectAuditExtra | src/pipeline/audit_result_sync.rs:139-165 | succeeds exactly when no extra field is nameless and fields of one name agree; then holds each extra name with its normalised value |
| AuditResults.ReviewOf | src/pipeline/audit_result_sync.rs:91-120 | skips records without a key or a result, and otherwise yields their one update or reports the illegal extras of that key |
| AuditResults.CollectReviewedAuditResults | src/pipeline/audit_result_sync.rs:84-137 | fails exactly when a reviewed record has illegal extras or two reviewed records of one key disagree; otherwise one update per key, in key order, and no other |
| AuditResults.FailureOrderDoesNotMatter | src/pipeline/audit_result_sync.rs:84-137 | whether it fails does not depend on the order of the records |
| AuditResults.RecordOrderDoesNotMatter | src/pipeline/audit_result_sync.rs:84-137 | nor does what it returns |
| SheetColumns.ColumnNumberToName | src/lark/sheets/mod.rs:12-33 | for every positive i32 the name is inverted by bijective base-26 decoding |
| SheetColumns.NamesAndNumbersAgree | src/lark/sheets/mod.rs:12-33 | decoding is one to one, and numbers are ordered exactly as names are by length, then letters |
| SheetColumns.BuildA1Range | src/lark/sheets/mod.rs:35-45 | the range ends in the last column's name and the row count |
| SheetColumns.RangeReadsBack | src/lark/sheets/mod.rs:35-45 | a range names one rectangle only |
| DataSync.PageTokenRoundTrip | src/server/data_sync.rs:788-796 | a token made from an offset is read back as that offset |
| DataSync.PageOffset | src/server/data_sync.rs:788-796 | no token, an empty one or one that is no text starts at the first row; otherwise the prefix and a number of rows are needed, and the page starts behind them |
| DataSync.PageSizeAsked | src/server/data_sync.rs:335-341 | the size asked for is used from 1 to 1000, taken as 1 below and as 1000 above, and as 100 if it is missing or no unsigned integer |
| DataSync.PageContinues | src/server/data_sync.rs:235-272 | a page continues the rows without gap or overlap, leads on exactly while rows are left, and is empty past the end |
| DataSync.FollowTokens | src/server/data_sync.rs:235-351 | following the tokens with any page sizes returns every row exactly once and in order, and ends, in no more requests than rows and no fewer than one per thousand |
| DataSync.DailyReport | src/server/data_sync.rs:841-896 | succeeds exactly when the video days are the live days and the day before; each row has the day's totals and growth |
| DataSync.IncrementsAddUp | src/server/data_sync.rs:864-878 | the daily increments of any first days add up to the growth of the total |

## Left out

- HTTP routing, handlers, DTOs, the admin UI, reporting queries and the browser extension: plumbing without state of their own.
- Calls to Feishu and Xingtu appear as accepted or rejected requests and readable or unreadable tables; read retries and response paging are not modelled.
- A read of the manual table that fails for want of data counts as an empty table before it reaches the model.
- The pre-check of columns is one comparison of names; a table whose columns cannot be read is not checked, as in the code.
- Persisting merged rows to the business database is only a step that succeeds or fails; its mapping in `data_import` is not part of this model.
- Reading a text as a finite f64 and reading a date in Asia/Shanghai are parameters (`Host`); floats are their canonical texts, so the equality of 0.0 and -0.0 is not modelled.
- `to_lowercase` is modelled for ASCII letters; full Unicode case mapping is not.
- JSON objects are maps; where the order of names matters, it is string order, as `serde_json` keeps it without `preserve_order`.
- The payload of a notification stands for its SHA-1 hash, which is taken to be injective; compression and encoding in the cache are a flag for success.
- NotificationGuard.SendsAreApart: a message that was delivered but whose mark is lost is not a send here; the row does not remember it.
- A written cell that the table does not hand back lies outside the convergence theorems.
- Eviction and expiry in the cache are arbitrary removals of entries.
- Run ids in the lease row are not cleared by deleting runs: no code deletes runs.
- Timestamps other than heartbeats, summaries, error texts and idempotency keys of the ledger have no influence on the protocol and are not modelled.
- A statement on a step takes effect or its worker is gone: a step statement that fails while its worker goes on is not modelled.
- A request of a cancelled activity that is already on its way does not reach the database after the statement that closes its steps: dropping a future is taken to drop its request.
- The advisory lock and `finish_serializable_run` are not part of the protocol modelled here.
- ActivityRetry.RunWithRetry: time passes only in attempts and sleeps, in nanoseconds; delays in the sub-second part of the base are dropped as in the code.
- BatchOutcome.SortSorts: a stable insertion sort stands for the library's `sort_by_key`.
- QueryCache.Cache.GetOrTryInsert: states what one undisturbed call does; interleaved calls are the steps of the `QueryCache` protocol.
- DataSync.DailyReport: carries the fields that the loop computes or aligns; counters that are only copied and the rounding of averages are not modelled.
- DataSync.FollowTokens: the client is a loop of ours; it sends the tokens it is given, and any JSON value as page size.
