/** Runs seen from the audit table: it converges too, and which rows reach it, when the
    marks of the two sources can be confused (src/pipeline/table_sync.rs). */
module AuditRuns {
  import opened Wrappers
  import opened Text
  import opened Json
  import opened CellValues
  import opened TargetTable
  import opened TableIndex
  import opened Upsert
  import opened MainPlan
  import opened MergedRows
  import opened Convergence
  import opened MainSync
  import opened AuditTable
  import opened SyncSources
  import opened OtherKeys
  import opened TableRuns

  // ----------------------------------------------------- marks of the two sources

  /** The manual mark, as it is written, is taken for the spreadsheet's. */
  predicate MarksClash(c: SyncConfig) {
    CleanText(c.rule.manualSource) != [] && CleanText(c.rule.manualSource) == Trim(c.rule.spreadsheetSource)
  }

  /** Giving both sources the same mark is enough. */
  lemma EqualMarksClash(c: SyncConfig)
    requires c.rule.manualSource == c.rule.spreadsheetSource && IsPlainText(c.rule.manualSource)
    ensures MarksClash(c)
  {
    CleanTextFixedPoints(c.rule.manualSource);
    TrimFixedPoint(c.rule.manualSource);
  }

  predicate MarkReadsBack(c: SyncConfig, s: Setting) {
    PlainString(s.store(c.rule.dataSourceField, Str(c.rule.manualSource))) == PlainString(Str(c.rule.manualSource))
  }

  predicate IsMarked(c: SyncConfig, row: SourceRow) {
    c.rule.dataSourceField in row.fields && row.fields[c.rule.dataSourceField] == Str(c.rule.manualSource)
  }

  lemma {:induction false} MergeMembers(sheet: seq<SourceRow>, manual: seq<SourceRow>, overrides: bool)
    ensures forall row :: row in MergeAll(sheet, manual, overrides) ==> row in sheet || row in manual
  {
    if manual != [] {
      MergeMembers(sheet, manual[..|manual| - 1], overrides);
    }
  }

  /** In manual-only mode every row carries the manual mark. */
  lemma {:induction false} ManualRowsMarked(c: SyncConfig, p: ParsedSources, records: seq<Record>)
    requires c.mode.ManualOnly? && SourcesOk(c, p)
    ensures forall row :: row in RowsToSync(c, p, records) ==> IsMarked(c, row)
  {
    hide WithoutRows, OwnedIn, MergeAll, CarriesKey;
    var marked := AllWithSource(p.fromManual, c.rule.dataSourceField, c.rule.manualSource);
    assert AllWithSource(p.fromSheet, c.rule.dataSourceField, c.rule.spreadsheetSource) == [];
    MergeMembers([], marked, c.rule.manualOverrides);
    WithoutRowsMembers(Merged(c, p), OwnedIn(c, records));
    forall row | row in marked ensures IsMarked(c, row) {
      var n :| 0 <= n < |marked| && marked[n] == row;
    }
  }

  /** A record created from a marked row is the spreadsheet's exactly when the marks
      clash. */
  lemma {:induction false} CreatedIsOwned(c: SyncConfig, s: Setting, row: SourceRow, r: Record)
    requires s.keyField == c.keyField && SettingOk(s) && RowOk(c.h, s, row) && IsMarked(c, row) && MarkReadsBack(c, s)
    requires r.fields == Obj(StoreFields(s.store, row.fields))
    ensures SpreadsheetOwned(c, r) <==> MarksClash(c)
  {
    hide CleanText, Trim, SourceIs, FieldKey, SettingOk, FieldsReadBack, CarriesKey;
    StoredCarriesKey(c.h, s, row);
    MarkRecognised(s, FieldsOf(r), c.rule.dataSourceField, c.rule.manualSource, c.rule.spreadsheetSource);
  }

  /** A record that a marked row is written to is the spreadsheet's afterwards exactly when
      the mark is written and clashes, or it is not written and the record was before. */
  lemma {:induction false} UpdatedIsOwned(c: SyncConfig, s: Setting, row: SourceRow, current: Fields)
    requires SettingOk(s) && RowOk(c.h, s, row) && IsMarked(c, row) && MarkReadsBack(c, s) && current.Keys <= s.columns
    ensures SourceIs(Updated(c.h, c.rules, s.store, current, row.fields), c.rule.dataSourceField,
            c.rule.spreadsheetSource)
       <==> if MarkDiffers(c, current) then MarksClash(c)
            else SourceIs(current, c.rule.dataSourceField, c.rule.spreadsheetSource)
  {
    hide CleanText, Trim, FindField, PlainString, FieldsReadBack, CarriesKey, NormalizeFieldName, NeedsWrite;
    var field := c.rule.dataSourceField;
    var after := Updated(c.h, c.rules, s.store, current, row.fields);
    if MarkDiffers(c, current) {
      assert field in Diff(c.h, c.rules, current, row.fields);
      MarkRecognised(s, after, field, c.rule.manualSource, c.rule.spreadsheetSource);
    } else {
      assert field !in Diff(c.h, c.rules, current, row.fields);
      FindInColumns(s, current, field);
      FindInColumns(s, after, field);
    }
  }

  /** The source cell of a record with these fields needs the manual mark. */
  predicate MarkDiffers(c: SyncConfig, current: Fields) {
    NeedsWrite(c.h, c.rules, current, c.rule.dataSourceField, Str(c.rule.manualSource))
  }

  /** The manual mark is written for the key: it has no record yet, or the source cell of
      its record needs the mark. */
  predicate WritesMark(c: SyncConfig, records: seq<Record>, key: string) {
    var current := FieldsAt(c.keyField, records, key);
    current.None? || MarkDiffers(c, current.value)
  }

  /** What a complete run makes of a record that is not the spreadsheet's. */
  lemma {:induction false} TargetIsOwned(c: SyncConfig, s: Setting, rows: seq<SourceRow>, row: SourceRow, r: Record)
    requires s.keyField == c.keyField && SettingOk(s) && RowsOk(c.h, s, rows) && MarkReadsBack(c, s)
    requires row in rows && IsMarked(c, row) && FieldsOf(r).Keys <= s.columns
    requires KeyOf(s.keyField, r) == Some(row.key) && !SpreadsheetOwned(c, r)
    ensures SpreadsheetOwned(c, Target(s, WishesOf(c.h, c.rules, rows), r))
            <==> MarksClash(c) && MarkDiffers(c, FieldsOf(r))
  {
    hide KeyOf, SourceIs, WishesOf, WishFor, RowOk, SettingOk, MarkReadsBack, MarksClash, IsMarked, Diff, WishOk,
      MarkDiffers;
    var wishes := WishesOf(c.h, c.rules, rows);
    RowWishesOk(c.h, c.rules, s, rows);
    TargetKeepsKey(s, wishes, r);
    WishForRow(c.h, c.rules, rows, row);
    var n :| 0 <= n < |rows| && rows[n] == row;
    UpdatedIsOwned(c, s, row, FieldsOf(r));
  }

  lemma {:induction false} CreatedForIsOwned(c: SyncConfig, s: Setting, rows: seq<SourceRow>, known: set<string>,
      r: Record)
    requires s.keyField == c.keyField && SettingOk(s) && RowsOk(c.h, s, rows) && MarkReadsBack(c, s)
    requires (forall row :: row in rows ==> IsMarked(c, row)) && IsCreatedFor(s, WishesOf(c.h, c.rules, rows), known, r)
    ensures SpreadsheetOwned(c, r) <==> MarksClash(c)
  {
    hide KeyOf, WishesOf, WishFor, RowOk, SettingOk, MarkReadsBack, MarksClash, IsMarked, Diff, SpreadsheetOwned,
      StoreFields;
    var row := RowOfWish(c.h, c.rules, rows, KeyOf(s.keyField, r).value);
    var n :| 0 <= n < |rows| && rows[n] == row;
    CreatedIsOwned(c, s, row, r);
  }

  lemma {:induction false} RowOfWish(h: Host, rules: FieldValueRules, rows: seq<SourceRow>, key: string)
      returns (row: SourceRow)
    requires WishFor(WishesOf(h, rules, rows), key).Some?
    ensures row in rows && WishFor(WishesOf(h, rules, rows), key) == Some(WishOf(h, rules, row)) && row.key == key
  {
    hide WishesOf, WishFor, Diff;
    var wishes := WishesOf(h, rules, rows);
    var n :| 0 <= n < |wishes| && wishes[n] == WishFor(wishes, key).value;
    WishesOfAt(h, rules, rows, n);
    row := rows[n];
  }

  /** What the rows of a manual-only run do to the key of one of them in the main table. */
  lemma {:induction false} OwnedOnlyByMark(c: SyncConfig, p: ParsedSources, s: Setting, start: TableState,
      records: seq<Record>, row: SourceRow)
    requires c.mode.ManualOnly? && MainOk(c, p, s, start) && MarkReadsBack(c, s)
    requires Between(s, WishesOf(c.h, c.rules, RowsToSync(c, p, start.records)), start.records, records)
    requires row in RowsToSync(c, p, start.records) && row.key in OwnedIn(c, records)
    ensures MarksClash(c) && WritesMark(c, start.records, row.key)
  {
    hide KeyOf, SourceIs, RowsToSync, WishesOf, WishFor, Target, RowOk, SettingOk, SourcesOk, RowsReadBack,
      HasOwnSourceColumn,
      MarkReadsBack, MarksClash, IsMarked, MarkDiffers, FieldsAt, StoreFields;
    var rows, keys := RowsToSync(c, p, start.records), KeysOf(s.keyField, start.records);
    MainRowsOk(c, p, s, start);
    RowWishesOk(c.h, c.rules, s, rows);
    ManualRowsMarked(c, p, start.records);
    RowsAvoidLeftOut(c, p, start.records);
    OwnedMembers(c, start.records);
    BetweenKeepsKeys(s, WishesOf(c.h, c.rules, rows), start.records, records, start.nextId);
    var i :| 0 <= i < |records| && SpreadsheetOwned(c, records[i]) && KeyOf(c.keyField, records[i]).value == row.key;
    if i < |start.records| {
      FieldsAtRecord(s.keyField, start.records, i);
      TargetIsOwned(c, s, rows, row, start.records[i]);
    } else {
      FieldsAtMissing(s.keyField, start.records, row.key);
      CreatedForIsOwned(c, s, rows, KeySet(keys), records[i]);
    }
  }

  lemma {:induction false} MarkMakesOwned(c: SyncConfig, p: ParsedSources, s: Setting, start: TableState,
      done: TableState,
      row: SourceRow)
    requires c.mode.ManualOnly? && MainOk(c, p, s, start) && MarkReadsBack(c, s)
    requires CompleteRun(s, WishesOf(c.h, c.rules, RowsToSync(c, p, start.records)), start, done)
    requires row in RowsToSync(c, p, start.records) && MarksClash(c) && WritesMark(c, start.records, row.key)
    ensures row.key in OwnedIn(c, done.records) && TableOk(s, done.records, done.nextId)
    ensures Between(s, WishesOf(c.h, c.rules, RowsToSync(c, p, start.records)), start.records, done.records)
  {
    hide KeyOf, SourceIs, RowsToSync, WishesOf, WishFor, Target, RowOk, SettingOk, SourcesOk, RowsReadBack,
      HasOwnSourceColumn,
      MarkReadsBack, MarksClash, IsMarked, MarkDiffers, FieldsAt, StoreFields, CompleteRun, WishOk, Diff;
    var rows, keys, keys' := RowsToSync(c, p, start.records), KeysOf(s.keyField, start.records),
      KeysOf(s.keyField, done.records);
    var wishes := WishesOf(c.h, c.rules, rows);
    MainRowsOk(c, p, s, start);
    RowWishesOk(c.h, c.rules, s, rows);
    CrashRetryConverges(s, wishes, [start], done);
    ManualRowsMarked(c, p, start.records);
    RowsAvoidLeftOut(c, p, start.records);
    OwnedMembers(c, start.records);
    OwnedMembers(c, done.records);
    BetweenKeepsKeys(s, wishes, start.records, done.records, start.nextId);
    RowInWishes(c.h, c.rules, rows, row);
    var i :| 0 <= i < |keys'| && keys'[i] == Some(row.key);
    if i < |start.records| {
      FieldsAtRecord(s.keyField, start.records, i);
      TargetIsOwned(c, s, rows, row, start.records[i]);
    } else {
      CreatedForIsOwned(c, s, rows, KeySet(keys), done.records[i]);
    }
  }

  lemma {:induction false} RowInWishes(h: Host, rules: FieldValueRules, rows: seq<SourceRow>, row: SourceRow)
    requires row in rows
    ensures exists n :: 0 <= n < |rows| && WishesOf(h, rules, rows)[n].key == row.key
  {
    hide WishesOf, Diff;
    var n :| 0 <= n < |rows| && rows[n] == row;
    WishesOfAt(h, rules, rows, n);
  }

  /** A run of a retry leaves out no row whose mark it has not confused with the
      spreadsheet's. */
  lemma {:induction false} RowStays(c: SyncConfig, p: ParsedSources, s: Setting, start: TableState,
      records: seq<Record>,
      row: SourceRow)
    requires MainOk(c, p, s, start) && (c.mode.ManualOnly? ==> MarkReadsBack(c, s))
    requires Between(s, WishesOf(c.h, c.rules, RowsToSync(c, p, start.records)), start.records, records)
    requires row in RowsToSync(c, p, start.records)
    requires !(c.mode.ManualOnly? && MarksClash(c) && WritesMark(c, start.records, row.key))
    ensures row in RowsToSync(c, p, records)
  {
    hide RowsToSync, WishesOf, Between, MainOk, MarkReadsBack, MarksClash, WritesMark, Merged, WithoutRows, OwnedIn;
    RowsAvoidLeftOut(c, p, start.records);
    RowsAvoidLeftOut(c, p, records);
    WithoutRowsMembers(Merged(c, p), LeftOut(c, start.records));
    WithoutRowsMembers(Merged(c, p), LeftOut(c, records));
    if c.mode.ManualOnly? && row.key in OwnedIn(c, records) {
      OwnedOnlyByMark(c, p, s, start, records, row);
    }
  }

  /** Without a clash every run of a retry takes the same rows. */
  lemma {:induction false} RowsStayTheSame(c: SyncConfig, p: ParsedSources, s: Setting, start: TableState,
      records: seq<Record>)
    requires MainOk(c, p, s, start) && (c.mode.ManualOnly? ==> MarkReadsBack(c, s) && !MarksClash(c))
    requires Between(s, WishesOf(c.h, c.rules, RowsToSync(c, p, start.records)), start.records, records)
    ensures RowsToSync(c, p, records) == RowsToSync(c, p, start.records)
  {
    hide RowsToSync, WishesOf, Between, MainOk, MarkReadsBack, MarksClash, Merged, WithoutRows, LeftOut, WritesMark;
    RowsAvoidLeftOut(c, p, start.records);
    RowsAvoidLeftOut(c, p, records);
    KeyFieldOf(c, p, s, start);
    LeftOutGrows(c, p, s, start.records, records);
    WithoutMoreRows(Merged(c, p), LeftOut(c, start.records), LeftOut(c, records));
    var rows := RowsToSync(c, p, start.records);
    forall row | row in rows ensures row.key !in LeftOut(c, records) {
      RowStays(c, p, s, start, records, row);
    }
    NothingDropped(rows, LeftOut(c, records));
  }

  lemma KeyFieldOf(c: SyncConfig, p: ParsedSources, s: Setting, start: TableState)
    requires MainOk(c, p, s, start)
    ensures s.keyField == c.keyField
  {
  }

  lemma {:induction false} NothingDropped(rows: seq<SourceRow>, keys: set<string>)
    requires forall row :: row in rows ==> row.key !in keys
    ensures WithoutRows(rows, keys) == rows
  {
    if rows != [] {
      assert rows == rows[..|rows| - 1] + [rows[|rows| - 1]];
      NothingDropped(rows[..|rows| - 1], keys);
    }
  }

  // --------------------------------------------------------------- the audit table

  /** What the audit table is to hold for a row. */
  ghost predicate AuditedAs(c: SyncConfig, t: Setting, row: SourceRow, before: seq<Record>, after: seq<Record>) {
    var source := AuditRowOf(c.rule.dataSourceField, row).dataSource;
    var approve := c.rule.manualAutoApprove && source.Some? && Trim(source.value) == c.rule.manualSource;
    var was, now := FieldsAt(t.keyField, before, row.key), FieldsAt(t.keyField, after, row.key);
    && now.Some?
    && (approve ==> IsApproved(c.rule, now.value))
    && (!approve && was.Some? ==> now == was)
    && (!approve && was.None? ==> now.value.Keys == {t.keyField})
    && (was.Some? ==> forall name :: name != c.rule.auditResultField ==> SameCell(was.value, now.value, name))
  }

  predicate AuditOk(c: SyncConfig, t: Setting) {
    && t.keyField == c.keyField && AuditSettingOk(c.rules, t, c.rule)
    && (IsPlainText(c.rule.approveResult) || !c.rule.manualAutoApprove)
  }

  predicate KeysReadBack(t: Setting, rows: seq<SourceRow>) {
    forall row :: row in rows ==> KeyReadsBack(t, row.key)
  }

  /** Rows that carry their keys, which the audit table reads back. */
  predicate AuditRowsFit(c: SyncConfig, t: Setting, rows: seq<SourceRow>) {
    RowKeysDistinct(rows) && forall row :: row in rows ==> CarriesKey(c.keyField, row) && KeyReadsBack(t, row.key)
  }

  lemma {:induction false} RowsFit(c: SyncConfig, p: ParsedSources, t: Setting, records: seq<Record>)
    requires SourcesOk(c, p) && HasOwnSourceColumn(c) && KeysReadBack(t, RowsToSync(c, p, records))
    ensures AuditRowsFit(c, t, RowsToSync(c, p, records))
  {
    hide RowsToSync, SourcesOk, CarriesKey, NormalizeFieldName, KeyReadsBack, Merged, OwnedIn;
    RowsToSyncOk(c, p, records);
  }

  /** The rows of a later run are among those of the first. */
  lemma {:induction false} LaterRowsFit(c: SyncConfig, p: ParsedSources, s: Setting, t: Setting, start: seq<Record>,
      records: seq<Record>)
    requires s.keyField == c.keyField && SourcesOk(c, p) && HasOwnSourceColumn(c)
    requires KeysReadBack(t, RowsToSync(c, p, start))
    requires Between(s, WishesOf(c.h, c.rules, RowsToSync(c, p, start)), start, records)
    ensures KeysReadBack(t, RowsToSync(c, p, records)) && AuditRowsFit(c, t, RowsToSync(c, p, records))
  {
    hide RowsToSync, WishesOf, Between, KeyReadsBack, LeftOut, Merged, WithoutRows, SourcesOk, HasOwnSourceColumn,
      AuditRowsFit;
    RowsAvoidLeftOut(c, p, start);
    RowsAvoidLeftOut(c, p, records);
    LeftOutGrows(c, p, s, start, records);
    WithoutMoreRows(Merged(c, p), LeftOut(c, start), LeftOut(c, records));
    WithoutRowsMembers(RowsToSync(c, p, start), LeftOut(c, records));
    RowsFit(c, p, t, records);
  }

  lemma {:induction false} AuditRowsOk(c: SyncConfig, t: Setting, rows: seq<SourceRow>)
    requires AuditOk(c, t) && AuditRowsFit(c, t, rows)
    ensures AuditRunOk(c.rules, t, c.rule, AuditRowsOf(c.rule.dataSourceField, rows))
    ensures WishesOk(t, AuditWishesFor(c, rows))
    ensures |AuditWishesFor(c, rows)| == |rows|
    ensures forall n :: 0 <= n < |rows| ==> AuditWishesFor(c, rows)[n].key == rows[n].key
  {
    hide FindField, KeyString, PlainString, IsPlainText, AuditSettingOk, KeyReadsBack, WishesOk, AuditWishes;
    var audited := AuditRowsOf(c.rule.dataSourceField, rows);
    forall n | 0 <= n < |rows|
      ensures audited[n].key == rows[n].key && IsKey(rows[n].key) && KeyReadsBack(t, rows[n].key)
    {
      assert rows[n] in rows && CarriesKey(c.keyField, rows[n]);
    }
    AuditWishesOk(c.h, c.rules, t, c.rule, audited);
    forall n | 0 <= n < |rows| ensures AuditWishesFor(c, rows)[n].key == rows[n].key {
      AuditWishesAt(c.h, c.rules, c.keyField, c.rule, audited, n);
    }
  }

  lemma {:induction false} NoRowsNoRun(c: SyncConfig, t: Setting, a: TableState)
    requires KeysDistinct(KeysOf(t.keyField, a.records))
    ensures CompleteRun(t, AuditWishesFor(c, []), a, a)
  {
    hide KeyOf, IsIndexOf;
    var index := IndexExists(KeysOf(t.keyField, a.records), a.records);
    assert AuditWishesFor(c, []) == [];
    assert PlanFor(index, []) == Plan([], []);
    assert AfterWrites(t, a.records, a.nextId, Plan([], []), 0, 0) == a.records;
    assert IsRunPart(t, [], a, a, index, |PlanFor(index, []).updates|, |PlanFor(index, []).creates|);
  }

  lemma {:induction false} AuditPartOfRun(c: SyncConfig, p: ParsedSources, s: Setting, t: Setting, a: Tables, b: Tables,
      complete: bool)
    requires IsRun(c, p, s, t, a, b, complete)
    ensures var wishes := AuditWishesFor(c, RowsToSync(c, p, a.main.records));
            && (!complete ==> InterruptedRun(t, wishes, a.audit, b.audit))
            && (complete && c.hasAuditTable && KeysDistinct(KeysOf(t.keyField, a.audit.records)) ==>
                 CompleteRun(t, wishes, a.audit, b.audit))
  {
    hide CompleteRun, AuditWishesFor, WishesOf, RowsToSync, SourcesOk, IsRunPart, KeyOf;
    if complete && RowsToSync(c, p, a.main.records) == [] && KeysDistinct(KeysOf(t.keyField, a.audit.records)) {
      NoRowsNoRun(c, t, a.audit);
    }
  }

  /** A complete run is one of the ways to stop. */
  lemma {:induction false} CompleteRunIsRun(c: SyncConfig, p: ParsedSources, s: Setting, t: Setting, a: Tables,
      b: Tables)
    requires IsRun(c, p, s, t, a, b, true)
    ensures IsRun(c, p, s, t, a, b, false)
  {
    hide CompleteRun, AuditWishesFor, WishesOf, RowsToSync, SourcesOk, IsRunPart;
    var rows := RowsToSync(c, p, a.main.records);
    CompleteIsInterrupted(s, WishesOf(c.h, c.rules, rows), a.main, b.main);
    if CompleteRun(t, AuditWishesFor(c, rows), a.audit, b.audit) {
      CompleteIsInterrupted(t, AuditWishesFor(c, rows), a.audit, b.audit);
    }
  }

  lemma {:induction false} EveryRunTakesTheSameRows(c: SyncConfig, p: ParsedSources, s: Setting, t: Setting,
      states: seq<Tables>, n: nat)
    requires n < |states| && MainOk(c, p, s, states[0].main)
    requires forall k :: 0 <= k < |states| - 1 ==> IsRun(c, p, s, t, states[k], states[k + 1], false)
    requires c.mode.ManualOnly? ==> MarkReadsBack(c, s) && !MarksClash(c)
    ensures RowsToSync(c, p, states[n].main.records) == RowsToSync(c, p, states[0].main.records)
  {
    hide RowsToSync, WishesOf, Between, TableOk, MainOk, InterruptedRun, IsRun, WishesOk, MarkReadsBack, MarksClash;
    MainRunsAreOfOneList(c, p, s, t, states, n);
    RowsStayTheSame(c, p, s, states[0].main, states[n].main.records);
  }

  function AuditStates(states: seq<Tables>): (r: seq<TableState>)
    ensures |r| == |states| && forall k :: 0 <= k < |states| ==> r[k] == states[k].audit
  {
    seq(|states|, k requires 0 <= k < |states| => states[k].audit)
  }

  ghost predicate AuditConverged(c: SyncConfig, p: ParsedSources, t: Setting, rows: seq<SourceRow>, start: Tables,
      last: Tables) {
    && (forall n :: 0 <= n < |rows| ==> AuditedAs(c, t, rows[n], start.audit.records, last.audit.records))
    && KeysDistinct(KeysOf(t.keyField, last.audit.records))
    && (forall index :: IsIndexOf(index, KeysOf(t.keyField, last.audit.records), last.audit.records) ==>
          PlanFor(index, AuditWishesFor(c, RowsToSync(c, p, last.main.records))) == Plan([], []))
  }

  /** Crash and retry for the audit table, unless the marks clash in manual-only mode:
      every source key is there under itself, rows approved at once read as approved, the
      others keep what they had, and the next run has nothing to write. */
  lemma {:induction false} AuditTableConverges(c: SyncConfig, p: ParsedSources, s: Setting, t: Setting,
      states: seq<Tables>,
      last: Tables)
    requires IsRetry(c, p, s, t, states, last) && c.hasAuditTable && MainOk(c, p, s, states[0].main)
    requires AuditOk(c, t) && KeysReadBack(t, RowsToSync(c, p, states[0].main.records))
    requires TableOk(t, states[0].audit.records, states[0].audit.nextId)
    requires c.mode.ManualOnly? ==> MarkReadsBack(c, s) && !MarksClash(c)
    ensures AuditConverged(c, p, t, RowsToSync(c, p, states[0].main.records), states[0], last)
  {
    hide RowsToSync, WishesOf, RowsReadBack, SettingOk, InterruptedRun, CompleteRun, IsRun, WishesOk, KeyOf, FieldsAt,
      Outcome, AuditWishesFor, PlanFor, IsIndexOf, Finished, AuditOk, AuditRowsFit, MarkReadsBack, MarksClash,
        AuditRunOk,
      AutoApproves, IsApproved, SourcesOk, HasOwnSourceColumn, KeysReadBack;
    RowsFit(c, p, t, states[0].main.records);
    var rows, all := RowsToSync(c, p, states[0].main.records), states + [last];
    var wishes, audits := AuditWishesFor(c, rows), AuditStates(states);
    var audited := AuditRowsOf(c.rule.dataSourceField, rows);
    CompleteRunIsRun(c, p, s, t, states[|states| - 1], last);
    forall k | 0 <= k < |all| - 1 ensures IsRun(c, p, s, t, all[k], all[k + 1], false) {
      assert k < |states| - 1 ==> all[k + 1] == states[k + 1];
    }
    EveryRunTakesTheSameRows(c, p, s, t, all, |states|);
    AuditRowsOk(c, t, rows);
    forall k | 0 <= k < |states| - 1 ensures InterruptedRun(t, wishes, audits[k], audits[k + 1]) {
      EveryRunTakesTheSameRows(c, p, s, t, all, k);
      AuditPartOfRun(c, p, s, t, states[k], states[k + 1], false);
    }
    assert audits[0] == states[0].audit;
    InterruptedRunsStayBetween(t, wishes, audits, |audits| - 1);
    EveryRunTakesTheSameRows(c, p, s, t, all, |states| - 1);
    AuditPartOfRun(c, p, s, t, states[|states| - 1], last, true);
    CrashRetryConverges(t, wishes, audits, last.audit);
    forall n | 0 <= n < |rows| ensures AuditedAs(c, t, rows[n], states[0].audit.records, last.audit.records) {
      AuditedRow(c, t, rows, states[0].audit, last.audit, n);
    }
  }

  lemma {:induction false} AuditedRow(c: SyncConfig, t: Setting, rows: seq<SourceRow>, start: TableState,
      last: TableState, n: nat)
    requires AuditOk(c, t) && AuditRowsFit(c, t, rows) && n < |rows|
    requires TableOk(t, start.records, start.nextId) && TableOk(t, last.records, last.nextId)
    requires Finished(t, AuditWishesFor(c, rows), start.records, last.records)
    ensures AuditedAs(c, t, rows[n], start.records, last.records)
  {
    hide TableOk, Finished, FieldsAt, AuditWishes, AuditRunOk, AutoApproves, IsApproved, AuditRowsFit, AuditSettingOk,
      WishesOk, SameCell, Trim, AuditRowOf;
    AuditRowsOk(c, t, rows);
    AuditSynced(c.h, c.rules, t, c.rule, AuditRowsOf(c.rule.dataSourceField, rows), start.records, start.nextId,
      last.records, last.nextId, n);
    AuditRowKeepsKey(c.rule.dataSourceField, rows[n]);
    assert AuditRowsOf(c.rule.dataSourceField, rows)[n] == AuditRowOf(c.rule.dataSourceField, rows[n]);
    assert t.keyField == c.keyField;
  }

  // --------------------------------------------------- from one run to the next

  /** The audit table through the runs of a retry: its keys stay distinct, none is lost,
      and it stays one that the next run accepts. */
  lemma {:induction false} AuditStays(c: SyncConfig, p: ParsedSources, s: Setting, t: Setting, states: seq<Tables>,
      n: nat)
    requires n < |states| && MainOk(c, p, s, states[0].main)
    requires forall k :: 0 <= k < |states| - 1 ==> IsRun(c, p, s, t, states[k], states[k + 1], false)
    requires AuditOk(c, t) && KeysReadBack(t, RowsToSync(c, p, states[0].main.records))
    requires TableOk(t, states[0].audit.records, states[0].audit.nextId)
    ensures TableOk(t, states[n].audit.records, states[n].audit.nextId)
    ensures AuditRowsFit(c, t, RowsToSync(c, p, states[n].main.records))
    ensures Accepted(t, states[0].audit.records) ==> Accepted(t, states[n].audit.records)
  {
    hide RowsToSync, WishesOf, AuditWishesFor, Between, TableOk, InterruptedRun, IsRun, WishesOk, AuditOk,
      AuditRowsFit, SettingOk,
      SourcesOk, HasOwnSourceColumn, KeysReadBack, RowsReadBack, Accepted, AuditRunOk;
    MainRunsAreOfOneList(c, p, s, t, states, n);
    LaterRowsFit(c, p, s, t, states[0].main.records, states[n].main.records);
    if n > 0 {
      AuditStays(c, p, s, t, states, n - 1);
      var a, b := states[n - 1], states[n];
      var wishes := AuditWishesFor(c, RowsToSync(c, p, a.main.records));
      assert IsRun(c, p, s, t, states[n - 1], states[n - 1 + 1], false);
      AuditPartOfRun(c, p, s, t, a, b, false);
      AuditRowsOk(c, t, RowsToSync(c, p, a.main.records));
      InterruptedRunKeys(t, wishes, a.audit, b.audit);
      if Accepted(t, a.audit.records) {
        RetryIsAccepted(t, wishes, [a.audit, b.audit], 1);
      }
    }
  }

  /** Retrying never gets stuck: wherever the runs before stopped, the next one is
      refused by neither table and can go through. */
  lemma {:induction false} RetryNeverRefused(c: SyncConfig, p: ParsedSources, s: Setting, t: Setting,
      states: seq<Tables>, n: nat)
    returns (last: Tables)
    requires n < |states| && MainOk(c, p, s, states[0].main) && Accepted(s, states[0].main.records)
    requires forall k :: 0 <= k < |states| - 1 ==> IsRun(c, p, s, t, states[k], states[k + 1], false)
    requires AuditOk(c, t) && KeysReadBack(t, RowsToSync(c, p, states[0].main.records))
    requires TableOk(t, states[0].audit.records, states[0].audit.nextId) && Accepted(t, states[0].audit.records)
    ensures Accepted(s, states[n].main.records) && Accepted(t, states[n].audit.records)
    ensures IsRun(c, p, s, t, states[n], last, true)
  {
    hide RowsToSync, WishesOf, AuditWishesFor, Between, TableOk, InterruptedRun, CompleteRun, IsRun, WishesOk, AuditOk,
      AuditRowsFit, SettingOk, SourcesOk, HasOwnSourceColumn, KeysReadBack, RowsReadBack, KeyOf, KeySet;
    MainRunsAreOfOneList(c, p, s, t, states, n);
    AuditStays(c, p, s, t, states, n);
    var mains := MainStates(states[..n + 1]);
    forall k | 0 <= k < |mains| - 1
      ensures InterruptedRun(s, WishesOf(c.h, c.rules, RowsToSync(c, p, states[0].main.records)), mains[k],
              mains[k + 1])
    {
      assert mains[k] == states[k].main && mains[k + 1] == states[k + 1].main;
    }
    RetryIsAccepted(s, WishesOf(c.h, c.rules, RowsToSync(c, p, states[0].main.records)), mains, n);
    last := RunExists(c, p, s, t, states[n]);
  }

  lemma {:induction false} RunExists(c: SyncConfig, p: ParsedSources, s: Setting, t: Setting, a: Tables)
      returns (b: Tables)
    requires SourcesOk(c, p)
    requires KeysDistinct(KeysOf(s.keyField, a.main.records)) && KeysDistinct(KeysOf(t.keyField, a.audit.records))
    ensures IsRun(c, p, s, t, a, b, true)
  {
    hide RowsToSync, WishesOf, AuditWishesFor, CompleteRun, SourcesOk, KeyOf;
    var rows := RowsToSync(c, p, a.main.records);
    var main := CompleteRunExists(s, WishesOf(c.h, c.rules, rows), a.main);
    var audit := a.audit;
    if c.hasAuditTable && rows != [] { audit := CompleteRunExists(t, AuditWishesFor(c, rows), a.audit); }
    b := Tables(main, audit);
  }

  // ------------------------------------------------------------- when the marks clash

  /** What the main table marks as the spreadsheet's stays marked, and its keys never
      reach the audit table again. */
  lemma {:induction false} LostForGood(c: SyncConfig, p: ParsedSources, s: Setting, t: Setting, a: Tables, b: Tables,
      complete: bool, key: string)
    requires c.mode.ManualOnly? && IsRun(c, p, s, t, a, b, complete)
    requires s.keyField == c.keyField && IdsDistinct(a.main.records, a.main.nextId)
    requires SourcesOk(c, p) && HasOwnSourceColumn(c) && AuditOk(c, t)
             && KeysReadBack(t, RowsToSync(c, p, a.main.records))
    requires TableOk(t, a.audit.records, a.audit.nextId)
    requires key in OwnedIn(c, a.main.records)
    ensures key in OwnedIn(c, b.main.records)
    ensures key !in KeySet(KeysOf(t.keyField, a.audit.records)) ==> key !in KeySet(KeysOf(t.keyField, b.audit.records))
    ensures TableOk(t, b.audit.records, b.audit.nextId)
  {
    hide RowsToSync, WishesOf, AuditWishesFor, IsRun, AuditOk, KeyOf, SourceIs, KeySet, IsAppendAvoiding, SourcesOk,
      HasOwnSourceColumn, KeysReadBack, AuditRowsFit;
    RowsFit(c, p, t, a.main.records);
    ManualOnlyLeavesSpreadsheet(c, p, s, t, a, b, complete);
    OwnedMembers(c, b.main.records);
    var i :| 0 <= i < |a.main.records| && SpreadsheetOwned(c, a.main.records[i])
      && KeyOf(c.keyField, a.main.records[i]).value == key;
    assert b.main.records[i] == a.main.records[i];
    AuditRunGainsNoKey(c, p, s, t, a, b, complete, key);
  }

  lemma {:induction false} AuditRunGainsNoKey(c: SyncConfig, p: ParsedSources, s: Setting, t: Setting, a: Tables,
      b: Tables,
      complete: bool, key: string)
    requires c.mode.ManualOnly? && IsRun(c, p, s, t, a, b, complete) && key in OwnedIn(c, a.main.records)
    requires AuditOk(c, t) && AuditRowsFit(c, t, RowsToSync(c, p, a.main.records))
             && TableOk(t, a.audit.records, a.audit.nextId)
    ensures key !in KeySet(KeysOf(t.keyField, a.audit.records)) ==> key !in KeySet(KeysOf(t.keyField, b.audit.records))
    ensures TableOk(t, b.audit.records, b.audit.nextId)
  {
    hide RowsToSync, AuditWishesFor, IsRun, InterruptedRun, TableOk, AuditOk, OwnedIn, AuditRowsFit, AuditRunOk,
      WishesOk, KeySet, KeysOf,
      SourceKeys, Between, CompleteRun;
    var rows := RowsToSync(c, p, a.main.records);
    RowsAvoidLeftOut(c, p, a.main.records);
    AuditRowsOk(c, t, rows);
    if complete { CompleteRunIsRun(c, p, s, t, a, b); }
    AuditPartOfRun(c, p, s, t, a, b, false);
    InterruptedRunKeys(t, AuditWishesFor(c, rows), a.audit, b.audit);
    KeyNotAsked(AuditWishesFor(c, rows), rows, key);
  }

  lemma KeyNotAsked(wishes: seq<Wish>, rows: seq<SourceRow>, key: string)
    requires |wishes| == |rows| && forall n :: 0 <= n < |rows| ==> wishes[n].key == rows[n].key
    requires forall row :: row in rows ==> row.key != key
    ensures key !in SourceKeys(wishes)
  {
    forall n | 0 <= n < |wishes| ensures wishes[n].key != key { assert rows[n] in rows; }
  }

  /** When the marks clash, a first run that stops before the audit and a second that goes
      through leave the key of a row out of the audit table whose mark the first writes. */
  lemma {:induction false} ClashLosesKey(c: SyncConfig, p: ParsedSources, s: Setting, t: Setting, a: Tables,
      row: SourceRow)
    returns (states: seq<Tables>, last: Tables)
    requires c.mode.ManualOnly? && MainOk(c, p, s, a.main) && MarkReadsBack(c, s) && MarksClash(c)
    requires AuditOk(c, t) && KeysReadBack(t, RowsToSync(c, p, a.main.records))
    requires TableOk(t, a.audit.records, a.audit.nextId)
    requires row in RowsToSync(c, p, a.main.records) && WritesMark(c, a.main.records, row.key)
    requires row.key !in KeySet(KeysOf(t.keyField, a.audit.records))
    ensures IsRetry(c, p, s, t, states, last) && states[0] == a && |states| == 2
    ensures row.key !in KeySet(KeysOf(t.keyField, last.audit.records))
  {
    hide RowsToSync, WishesOf, AuditWishesFor, CompleteRun, KeyOf, SettingOk, RowsReadBack, HasOwnSourceColumn,
      KeysReadBack,
      MarkReadsBack, MarksClash, SourcesOk, AuditOk, AuditRowsFit, OwnedIn, KeySet, IsRunPart, WritesMark;
    var wishes := WishesOf(c.h, c.rules, RowsToSync(c, p, a.main.records));
    var done := CompleteRunExists(s, wishes, a.main);
    var b := Tables(done, a.audit);
    CompleteIsInterrupted(s, wishes, a.main, done);
    MarkMakesOwned(c, p, s, a.main, done, row);
    LaterRowsFit(c, p, s, t, a.main.records, done.records);
    states := [a, b];
    last := RunExists(c, p, s, t, b);
    AuditRunGainsNoKey(c, p, s, t, b, last, true, row.key);
  }

  ghost predicate IsRetryFrom(c: SyncConfig, p: ParsedSources, s: Setting, t: Setting, a: Tables, states: seq<Tables>,
      last: Tables) {
    IsRetry(c, p, s, t, states, last) && states[0] == a
  }

  /** Whatever runs stop, the key reaches the audit table with the first that does not. */
  ghost predicate AlwaysAudited(c: SyncConfig, p: ParsedSources, s: Setting, t: Setting, a: Tables, key: string) {
    forall states: seq<Tables>, last :: IsRetryFrom(c, p, s, t, a, states, last) ==>
      key in KeySet(KeysOf(t.keyField, last.audit.records))
  }

  /** A row that the audit table does not have yet is sure to reach it exactly unless, in
      manual-only mode, the configured marks clash and its mark has to be written: it is
      new to the main table, or the source cell of its record differs. */
  lemma {:induction false} AuditedExactly(c: SyncConfig, p: ParsedSources, s: Setting, t: Setting, a: Tables,
      row: SourceRow)
    requires c.hasAuditTable && MainOk(c, p, s, a.main) && (c.mode.ManualOnly? ==> MarkReadsBack(c, s))
    requires AuditOk(c, t) && KeysReadBack(t, RowsToSync(c, p, a.main.records))
    requires TableOk(t, a.audit.records, a.audit.nextId)
    requires row in RowsToSync(c, p, a.main.records) && row.key !in KeySet(KeysOf(t.keyField, a.audit.records))
    ensures AlwaysAudited(c, p, s, t, a, row.key)
       <==> !(c.mode.ManualOnly? && MarksClash(c) && WritesMark(c, a.main.records, row.key))
  {
    hide RowsToSync, MainOk, MarkReadsBack, MarksClash, WritesMark, AuditOk, KeysReadBack, IsRun, KeySet, TableOk;
    if c.mode.ManualOnly? && MarksClash(c) && WritesMark(c, a.main.records, row.key) {
      var states, last := ClashLosesKey(c, p, s, t, a, row);
      assert IsRetryFrom(c, p, s, t, a, states, last);
    } else {
      forall states: seq<Tables>, last | IsRetryFrom(c, p, s, t, a, states, last)
        ensures row.key in KeySet(KeysOf(t.keyField, last.audit.records))
      {
        StayingRowIsAudited(c, p, s, t, states, last, row);
      }
    }
  }

  lemma {:induction false} StayingRowIsAudited(c: SyncConfig, p: ParsedSources, s: Setting, t: Setting,
      states: seq<Tables>,
      last: Tables, row: SourceRow)
    requires IsRetry(c, p, s, t, states, last) && c.hasAuditTable && MainOk(c, p, s, states[0].main)
    requires (c.mode.ManualOnly? ==> MarkReadsBack(c, s))
    requires AuditOk(c, t) && KeysReadBack(t, RowsToSync(c, p, states[0].main.records))
    requires TableOk(t, states[0].audit.records, states[0].audit.nextId)
    requires row in RowsToSync(c, p, states[0].main.records)
    requires !(c.mode.ManualOnly? && MarksClash(c) && WritesMark(c, states[0].main.records, row.key))
    ensures row.key in KeySet(KeysOf(t.keyField, last.audit.records))
  {
    hide RowsToSync, MainOk, MarkReadsBack, MarksClash, WritesMark, AuditOk, KeysReadBack, IsRun, KeySet, AuditRowsFit,
      WishesOf,
      AuditWishesFor, CompleteRun, WishesOk, Between, KeyOf, AuditRunOk;
    var a := states[|states| - 1];
    var rows := RowsToSync(c, p, a.main.records);
    MainRunsAreOfOneList(c, p, s, t, states, |states| - 1);
    AuditStays(c, p, s, t, states, |states| - 1);
    RowStays(c, p, s, states[0].main, a.main.records, row);
    AuditRowsOk(c, t, rows);
    AuditPartOfRun(c, p, s, t, a, last, true);
    CrashRetryConverges(t, AuditWishesFor(c, rows), [a.audit], last.audit);
    var n :| 0 <= n < |rows| && rows[n] == row;
    assert AuditWishesFor(c, rows)[n].key == row.key;
  }
}
