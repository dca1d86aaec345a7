/** The steps of one table sync, in their order (src/pipeline/table_sync.rs). */
module TableSync {
  import opened Wrappers
  import opened Text
  import opened Json
  import opened CellValues
  import opened TargetTable
  import opened TableIndex
  import opened Upsert
  import opened MainPlan
  import opened SourceRows
  import opened MergedRows
  import opened Convergence
  import opened AuditTable
  import opened SyncSources
  import opened OtherKeys
  import opened TableRuns

  datatype SyncError =
    | ReadFailed
    | Unparsable(parse: ParseError)
    | DuplicateTarget(duplicate: IndexError)
    | NoKeyMatched
    | PersistFailed
    | WriteFailed(write: WriteError)

  lemma {:induction false} SheetRowsOk(h: Host, rules: FieldValueRules, keyField: string, rows: seq<seq<Value>>)
    requires SheetParses(h, rules, rows, keyField)
    ensures var parsed := KeyedRows(ParseAll(h, rules, HeaderNames(rows[0]), keyField, rows[1..]));
            RowKeysDistinct(parsed) && forall row :: row in parsed ==> CarriesKey(keyField, row)
  {
    hide CarriesKey, ParseAll, ParsedDistinct, NoKeyless, KeyedRows, HasKeyColumn;
    KeyedSheetRowsOk(h, rules, HeaderNames(rows[0]), keyField, rows[1..]);
  }

  class TableSyncRun {
    const config: SyncConfig
    const main: Bitable
    const audit: Bitable
    var sourceRows: seq<SourceRow>
    var auditSourceRows: seq<AuditRow>
    var existingMainLoaded: bool
    var existingIndex: map<string, IndexItem>
    var upsertPlan: Plan

    ghost predicate Valid() reads this, main, audit {
      main != audit && main.Valid() && audit.Valid()
    }

    /** The index in the context is that of the main table. */
    ghost predicate Indexed() reads this, main {
      var keys := KeysOf(config.keyField, main.records);
      KeysDistinct(keys) && IsIndexOf(existingIndex, keys, main.records)
    }

    constructor (config: SyncConfig, main: Bitable, audit: Bitable)
      requires main != audit && main.Valid() && audit.Valid()
      ensures Valid() && this.config == config && this.main == main && this.audit == audit
      ensures sourceRows == [] && auditSourceRows == [] && !existingMainLoaded && upsertPlan == Plan([], [])
    {
      this.config := config;
      this.main := main;
      this.audit := audit;
      sourceRows := [];
      auditSourceRows := [];
      existingMainLoaded := false;
      existingIndex := map[];
      upsertPlan := Plan([], []);
    }

    /** A manual-only run needs no sheet, and a run without a manual table no records. */
    predicate ReadFails(o: Outside) {
      (config.mode.SpreadsheetAndManual? && o.sheet.None?) || (config.hasManualTable && o.manual.None?)
    }

    predicate Parses(o: Outside)
      requires !ReadFails(o)
    {
      && (config.mode.SpreadsheetAndManual? ==> SheetParses(config.h, config.rules, o.sheet.value, config.keyField))
      && ParsedDistinct(ParseRecords(config.h, config.rules, config.keyField,
         if config.hasManualTable then o.manual.value else []))
    }

    /** The rows of the sheet, which a manual-only run leaves out, and those of the manual
        table if there is one. */
    ghost predicate ParsedFrom(o: Outside, p: ParsedSources) {
      && (config.mode.ManualOnly? ==> p.fromSheet == [])
      && (config.mode.SpreadsheetAndManual? ==>
            && o.sheet.Some? && o.sheet.value != []
            && var rows := o.sheet.value;
            p.fromSheet
            == KeyedRows(ParseAll(config.h, config.rules, HeaderNames(rows[0]), config.keyField, rows[1..])))
      && (!config.hasManualTable ==> p.fromManual == [])
      && (config.hasManualTable ==>
            o.manual.Some?
            && p.fromManual == KeyedRows(ParseRecords(config.h, config.rules, config.keyField, o.manual.value)))
    }

    /** Steps `read_source_sheet` and `read_manual_records` with the parsing of
        `build_source_rows`. */
    method ParseSources(o: Outside) returns (r: Result<ParsedSources, SyncError>)
      ensures r.Ok? ==> SourcesOk(config, r.value) && r.value == SourcesIn(config, o)
      ensures r.Ok? ==> ParsedFrom(o, r.value)
      ensures r == Err(ReadFailed) <==> ReadFails(o)
      ensures r.Ok? <==> !ReadFails(o) && Parses(o)
      ensures r.Err? ==> r.error.ReadFailed? || r.error.Unparsable?
    {
      hide CarriesKey, ParseAll, ParseRecords, ParsedDistinct, KeyedRows, SheetParses;
      var fromSheet: seq<SourceRow> := [];
      if config.mode.SpreadsheetAndManual? && o.sheet.None? { return Err(ReadFailed); }
      if config.hasManualTable && o.manual.None? { return Err(ReadFailed); }
      if config.mode.SpreadsheetAndManual? {
        var parsed := ParseSheetRows(config.h, config.rules, o.sheet.value, config.keyField);
        if parsed.Err? { return Err(Unparsable(parsed.error)); }
        fromSheet := parsed.value;
        SheetRowsOk(config.h, config.rules, config.keyField, o.sheet.value);
      }
      var records := if config.hasManualTable then o.manual.value else [];
      var parsed := ParseBitableRecordsAsSourceRows(config.h, config.rules, records, config.keyField);
      if parsed.Err? { return Err(Unparsable(parsed.error)); }
      KeyedRecordsOk(config.h, config.rules, config.keyField, records);
      NothingParsed();
      assert records == [] ==> ParseRecords(config.h, config.rules, config.keyField, records) == [];
      r := Ok(ParsedSources(fromSheet, parsed.value));
    }

    /** Step `build_source_rows`: mark, merge, and note the rows for the audit. */
    method BuildSourceRows(p: ParsedSources)
      requires SourcesOk(config, p)
      modifies this`sourceRows, this`auditSourceRows
      ensures sourceRows == Merged(config, p) && TakesRows(config, p, sourceRows)
      ensures auditSourceRows == AuditRowsOf(config.rule.dataSourceField, sourceRows)
    {
      var field := config.rule.dataSourceField;
      var sheet := new SourceRow[|p.fromSheet|](i requires 0 <= i < |p.fromSheet| => p.fromSheet[i]);
      assert sheet[..] == p.fromSheet;
      AttachDataSource(sheet, field, config.rule.spreadsheetSource);
      var manual := new SourceRow[|p.fromManual|](i requires 0 <= i < |p.fromManual| => p.fromManual[i]);
      assert manual[..] == p.fromManual;
      AttachDataSource(manual, field, config.rule.manualSource);
      sourceRows := MergeSourceRows(sheet[..], manual[..], config.rule.manualOverrides);
      MergedOk(config, p);
      MergedTakesRows(config, p);
      auditSourceRows := CollectAuditSourceRows(sourceRows, field);
    }

    /** `load_existing_main_records`: read and index once. */
    method LoadExistingMainRecords(readable: bool) returns (r: Result<(), SyncError>)
      requires existingMainLoaded ==> Indexed()
      modifies this`existingMainLoaded, this`existingIndex
      ensures r.Ok? ==> existingMainLoaded && Indexed()
      ensures r.Ok? && !old(existingMainLoaded) ==> readable && (main.records == [] || existingIndex != map[])
      ensures old(existingMainLoaded) ==> existingIndex == old(existingIndex)
      ensures r.Err? ==>
                && !old(existingMainLoaded)
                && (r.error.ReadFailed? || r.error.DuplicateTarget? || r.error.NoKeyMatched?)
                && (r.error.ReadFailed? <==> !readable)
                && (r.error.DuplicateTarget? ==> !Indexes(main.records))
                && (r.error.NoKeyMatched? ==> Indexes(main.records) && NoKeyIn(main.records))
    {
      hide KeyOf;
      if existingMainLoaded { return Ok(()); }
      if !readable { return Err(ReadFailed); }
      existingMainLoaded := true;
      var indexed := IndexExistingRecords(main.records, config.keyField);
      if indexed.Err? { return Err(DuplicateTarget(indexed.error)); }
      existingIndex := indexed.value;
      if main.records != [] && existingIndex == map[] {
        return Err(NoKeyMatched);
      }
      r := Ok(());
    }

    /** Step `preserve_existing_spreadsheet_rows`: both row lists lose the rows the
        main table marks as the spreadsheet's. */
    method PreserveExistingSpreadsheetRows()
      modifies this`sourceRows, this`auditSourceRows
      ensures var owned := if config.mode.ManualOnly? then OwnedKeys(existingIndex, config.rule.dataSourceField,
              config.rule.spreadsheetSource) else {};
              && sourceRows == WithoutRows(old(sourceRows), owned)
              && auditSourceRows == WithoutAuditRows(old(auditSourceRows), owned)
    {
      var owned: set<string> := {};
      if config.mode.ManualOnly? {
        owned := OwnedKeys(existingIndex, config.rule.dataSourceField, config.rule.spreadsheetSource);
      }
      RetainRows(owned);
      RetainAuditRows(owned);
    }

    method RetainRows(owned: set<string>)
      modifies this`sourceRows
      ensures sourceRows == WithoutRows(old(sourceRows), owned)
    {
      var kept: seq<SourceRow> := [];
      for n := 0 to |sourceRows|
        invariant kept == WithoutRows(sourceRows[..n], owned)
      {
        assert sourceRows[..n + 1][..n] == sourceRows[..n];
        if sourceRows[n].key !in owned { kept := kept + [sourceRows[n]]; }
      }
      assert sourceRows[..|sourceRows|] == sourceRows;
      sourceRows := kept;
    }

    method RetainAuditRows(owned: set<string>)
      modifies this`auditSourceRows
      ensures auditSourceRows == WithoutAuditRows(old(auditSourceRows), owned)
    {
      var kept: seq<AuditRow> := [];
      for n := 0 to |auditSourceRows|
        invariant kept == WithoutAuditRows(auditSourceRows[..n], owned)
      {
        assert auditSourceRows[..n + 1][..n] == auditSourceRows[..n];
        if auditSourceRows[n].key !in owned { kept := kept + [auditSourceRows[n]]; }
      }
      assert auditSourceRows[..|auditSourceRows|] == auditSourceRows;
      auditSourceRows := kept;
    }

    /** Step `build_main_upsert_plan`; it uses the rows and the index up. */
    method BuildMainUpsertPlan()
      modifies this`upsertPlan, this`sourceRows, this`existingIndex
      ensures upsertPlan == PlanFor(old(existingIndex), WishesOf(config.h, config.rules, old(sourceRows)))
      ensures sourceRows == [] && existingIndex == map[]
    {
      var rows, index := sourceRows, existingIndex;
      sourceRows, existingIndex := [], map[];
      upsertPlan := BuildUpsertPlan(config.h, config.rules, index, rows);
    }

    /** Step `apply_main_upsert_plan`: all updates, then the creates. */
    method ApplyMainUpsertPlan(o: Outside) returns (r: Result<(), SyncError>, ghost m: nat, ghost c: nat)
      requires Valid()
      modifies main
      ensures Valid()
      ensures WritesOf(main, old(main.records), old(main.nextId), upsertPlan, m, c)
      ensures r.Ok? ==> m == |upsertPlan.updates| && c == |upsertPlan.creates|
    {
      r, m, c := WritePlan(main, upsertPlan, o.mainColumns, o.mainUpdates, o.mainCreates);
    }

    /** What a table holds after the first `m` updates and `c` creates of a plan. */
    ghost predicate WritesOf(table: Bitable, records: seq<Record>, nextId: nat, plan: Plan, m: nat, c: nat)
      reads table
    {
      && m <= |plan.updates| && c <= |plan.creates| && (c > 0 ==> m == |plan.updates|)
      && table.records
         == ApplyUpdates(table.store, records, plan.updates[..m]) + Created(table.store, nextId, plan.creates[..c])
      && table.nextId == nextId + c
    }

    method WritePlan(table: Bitable, plan: Plan, columns: Option<set<string>>, updates: nat -> bool,
        creates: nat -> bool)
      returns (r: Result<(), SyncError>, ghost m: nat, ghost c: nat)
      requires table.Valid()
      modifies table
      ensures table.Valid()
      ensures r.Err? ==> r.error.WriteFailed?
      ensures WritesOf(table, old(table.records), old(table.nextId), plan, m, c)
      ensures r.Ok? ==> m == |plan.updates| && c == |plan.creates|
    {
      hide ApplyUpdates, StoreFields, MissingNames, ItemNames, StoppedAfter;
      var result, written := table.BatchUpdateRecords(plan.updates, columns, updates);
      m, c := written, 0;
      if result.Err? {
        assert Created(table.store, old(table.nextId), plan.creates[..0]) == [];
        return Err(WriteFailed(result.error)), m, 0;
      }
      result, written := table.BatchCreateRecords(plan.creates, columns, creates);
      c := written;
      r := if result.Err? then Err(WriteFailed(result.error)) else Ok(());
    }

    ghost predicate Indexes(records: seq<Record>) {
      KeysDistinct(KeysOf(config.keyField, records))
    }

    /** There are records, and no key is recognised in any. */
    ghost predicate NoKeyIn(records: seq<Record>) {
      records != [] && KeySet(KeysOf(config.keyField, records)) == {}
    }

    /** Step `sync_audit_table`. */
    method SyncAuditTable(o: Outside)
        returns (r: Result<(), SyncError>, ghost index: map<string, IndexItem>, ghost m: nat, ghost c: nat)
      requires Valid()
      modifies this`auditSourceRows, audit
      ensures Valid()
      ensures var keys := KeysOf(config.keyField, old(audit.records));
              var plan := PlanFor(index,
                AuditWishes(config.h, config.rules, config.keyField, config.rule, old(auditSourceRows)));
              || (audit.records == old(audit.records) && audit.nextId == old(audit.nextId)
                  && (r.Ok? ==> !config.hasAuditTable || old(auditSourceRows) == []))
              || (KeysDistinct(keys) && IsIndexOf(index, keys, old(audit.records))
                  && WritesOf(audit, old(audit.records), old(audit.nextId), plan, m, c)
                  && (r.Ok? ==> m == |plan.updates| && c == |plan.creates|))
      ensures var active := config.hasAuditTable && old(auditSourceRows) != [];
              && (!active ==> r.Ok? && audit.records == old(audit.records) && audit.nextId == old(audit.nextId))
              && (r == Err(ReadFailed) <==> active && !o.auditReadable)
              && (r.Err? && r.error.DuplicateTarget? <==> active && o.auditReadable && !Indexes(old(audit.records)))
              && (r == Err(NoKeyMatched) <==>
                    active && o.auditReadable && Indexes(old(audit.records)) && NoKeyIn(old(audit.records)))
              && (r.Err? && r.error.WriteFailed? ==> active)
              && (r.Err? ==>
                   r.error.ReadFailed? || r.error.DuplicateTarget? || r.error.NoKeyMatched? || r.error.WriteFailed?)
    {
      hide ApplyUpdates, Created, AuditWishes, KeyOf, KeysDistinct;
      index, m, c := map[], 0, 0;
      if !config.hasAuditTable || auditSourceRows == [] { return Ok(()), index, m, c; }
      if !o.auditReadable { return Err(ReadFailed), index, m, c; }
      var indexed := IndexExistingRecords(audit.records, config.keyField);
      if indexed.Err? { return Err(DuplicateTarget(indexed.error)), index, m, c; }
      if audit.records != [] && indexed.value == map[] { return Err(NoKeyMatched), index, m, c; }
      index := indexed.value;
      var rows := auditSourceRows;
      auditSourceRows := [];
      var plan := BuildAuditSyncRecords(config.h, config.rules, config.keyField, config.rule, indexed.value, rows);
      r, m, c := WritePlan(audit, plan, o.auditColumns, o.auditUpdates, o.auditCreates);
    }

    ghost function MainSetting(columns: set<string>): Setting {
      Setting(config.keyField, columns, main.store)
    }

    ghost function AuditSetting(columns: set<string>): Setting {
      Setting(config.keyField, columns, audit.store)
    }

    ghost function StateOf(table: Bitable): TableState reads table {
      TableState(table.records, table.nextId)
    }

    ghost function Both(): Tables reads main, audit {
      Tables(StateOf(main), StateOf(audit))
    }

    /** What `prepare` hands over to the writing steps. */
    ghost predicate Prepared(o: Outside) reads this, main {
      && SourcesOk(config, SourcesIn(config, o))
      && sourceRows == RowsToSync(config, SourcesIn(config, o), main.records)
      && auditSourceRows == AuditRowsOf(config.rule.dataSourceField, sourceRows)
      && (existingMainLoaded ==> Indexed())
    }

    /** The steps up to `persist_merged_records`: they write to no table. */
    method PrepareRows(o: Outside) returns (r: Result<(), SyncError>)
      requires Valid() && !existingMainLoaded
      modifies this
      ensures Valid()
      ensures r.Ok? ==> Prepared(o)
      ensures r.Ok? && config.mode.SpreadsheetAndManual? ==> TakesRows(config, SourcesIn(config, o), sourceRows)
      ensures r.Ok? && config.mode.ManualOnly? ==> forall row :: row in sourceRows <==>
                row in Merged(config, SourcesIn(config, o)) && row.key !in OwnedIn(config, main.records)
    {
      hide KeyOf, NormalizeFieldName, Merged, IsIndexOf, KeysDistinct, OwnedIn, SourceIs, AuditRowOf, WithoutRows,
        WithoutAuditRows,
        OwnedKeys, SourcesOk, SourcesIn, CarriesKey, TakesRows, ParsedFrom;
      var parsed := ParseSources(o);
      if parsed.Err? { return Err(parsed.error); }
      BuildSourceRows(parsed.value);
      ghost var owned: set<string> := {};
      if config.mode.ManualOnly? {
        var early := LoadExistingMainRecords(o.mainReadable);
        if early.Err? { return Err(early.error); }
        OwnedKeysAreOwned(config, existingIndex, main.records);
        owned := OwnedIn(config, main.records);
      }
      WithoutCommutes(config.rule.dataSourceField, sourceRows, owned);
      WithoutRowsMembers(sourceRows, owned);
      WithoutNoRows(sourceRows);
      PreserveExistingSpreadsheetRows();
      r := if o.persists then Ok(()) else Err(PersistFailed);
    }

    /** The main table's part of a run. */
    method SyncMainTable(o: Outside, ghost columns: set<string>) returns (r: Result<(), SyncError>)
      requires Valid() && Indexed()
      modifies this`upsertPlan, this`sourceRows, this`existingIndex, main
      ensures Valid()
      ensures Effect(MainSetting(columns), WishesOf(config.h, config.rules, old(sourceRows)), old(StateOf(main)),
              StateOf(main), r.Ok?)
    {
      hide KeyOf, WishesOf, PlanUpdates, PlanCreates, ApplyUpdates, Created, IsIndexOf, KeysDistinct;
      ghost var index, wishes := existingIndex, WishesOf(config.h, config.rules, sourceRows);
      BuildMainUpsertPlan();
      ghost var m, c;
      r, m, c := ApplyMainUpsertPlan(o);
      assert IsRunPart(MainSetting(columns), wishes, old(StateOf(main)), StateOf(main), index, m, c);
    }

    /** The steps from the load of the main table on. */
    method WriteTables(o: Outside, ghost columns: set<string>) returns (r: Result<(), SyncError>)
      requires Valid() && (existingMainLoaded ==> Indexed())
      requires auditSourceRows == AuditRowsOf(config.rule.dataSourceField, sourceRows)
      modifies this, main, audit
      ensures Valid()
      ensures (r.Err? && Both() == old(Both()))
           || Wrote(config, old(sourceRows), MainSetting(columns), AuditSetting(columns), old(Both()), Both(), r.Ok?)
    {
      hide KeyOf, WishesOf, AuditWishes, PlanUpdates, PlanCreates, ApplyUpdates, Created, IsIndexOf, KeysDistinct,
        AuditRowOf;
      ghost var rows, before := sourceRows, Both();
      r := LoadExistingMainRecords(o.mainReadable);
      if r.Err? { return r; }
      r := SyncMainTable(o, columns);
      if r.Err? { return r; }
      ghost var middle := StateOf(main);
      CompleteIsInterrupted(MainSetting(columns), WishesOf(config.h, config.rules, rows), before.main, middle);
      ghost var index, m, c;
      r, index, m, c := SyncAuditTable(o);
      assert StateOf(audit) == before.audit ||
        IsRunPart(AuditSetting(columns), AuditWishesFor(config, rows), before.audit, StateOf(audit), index, m, c);
    }

    /** The whole run is a run of its source; in manual-only mode it leaves alone, in
        both tables, the keys that the main table marks as the spreadsheet's. */
    method Run(o: Outside, ghost columns: set<string>) returns (r: Result<(), SyncError>)
      requires Valid() && !existingMainLoaded
      modifies this, main, audit
      ensures Valid()
      ensures IsRun(config, SourcesIn(config, o), MainSetting(columns), AuditSetting(columns), old(Both()), Both(),
              r.Ok?)
      ensures config.mode.ManualOnly? ==>
                var rows, owned := RowsToSync(config, SourcesIn(config, o), old(main.records)),
                  OwnedIn(config, old(main.records));
                && LeavesKeys(MainSetting(columns), WishesOf(config.h, config.rules, rows), owned, old(StateOf(main)),
                   StateOf(main))
                && LeavesKeys(AuditSetting(columns), AuditWishesFor(config, rows), owned, old(StateOf(audit)),
                   StateOf(audit))
    {
      hide RowsToSync, SourcesOk, Wrote, LeavesKeys, OwnedIn, AuditRowOf, IsIndexOf, KeysDistinct, KeyOf;
      ghost var before, s, t := Both(), MainSetting(columns), AuditSetting(columns);
      r := PrepareRows(o);
      if r.Ok? {
        r := WriteTables(o, columns);
      }
      if config.mode.ManualOnly? {
        ManualOnlyLeavesSpreadsheet(config, SourcesIn(config, o), s, t, before, Both(), r.Ok?);
      }
    }
  }
}
