/** Where the rows of a table sync come from, and which of them belong to the
    spreadsheet (src/pipeline/table_sync.rs). */
module SyncSources {
  import opened Wrappers
  import opened Text
  import opened Json
  import opened CellValues
  import opened TargetTable
  import opened TableIndex
  import opened MainPlan
  import opened SourceRows
  import opened MergedRows
  import opened Convergence
  import opened MainSync
  import opened AuditTable

  datatype SourceMode = SpreadsheetAndManual | ManualOnly

  datatype SyncConfig = SyncConfig(
    h: Host,
    rules: FieldValueRules,
    keyField: string,
    mode: SourceMode,
    rule: SyncRule,
    hasManualTable: bool,
    hasAuditTable: bool)

  /** Everything a run meets outside: what the reads return, whether the database
      takes the rows, the columns of the tables if they can be read, and which
      write requests are accepted. */
  datatype Outside = Outside(
    sheet: Option<seq<seq<Value>>>,
    manual: Option<seq<Record>>,
    mainReadable: bool,
    persists: bool,
    mainColumns: Option<set<string>>,
    mainUpdates: nat -> bool,
    mainCreates: nat -> bool,
    auditReadable: bool,
    auditColumns: Option<set<string>>,
    auditUpdates: nat -> bool,
    auditCreates: nat -> bool)

  // --------------------------------------------------------------- spreadsheet rows

  predicate SourceIs(fields: Fields, field: string, value: string) {
    var found := FindField(fields, field);
    && found.Some? && PlainString(found.value).Some?
    && Trim(PlainString(found.value).value) == Trim(value)
  }

  /** `spreadsheet_owned_keys` */
  function OwnedKeys(index: map<string, IndexItem>, field: string, value: string): set<string> {
    set key | key in index && SourceIs(index[key].fields, field, value)
  }

  function WithoutRows(rows: seq<SourceRow>, keys: set<string>): seq<SourceRow> {
    if rows == [] then []
    else WithoutRows(rows[..|rows| - 1], keys) + if rows[|rows| - 1].key in keys then [] else [rows[|rows| - 1]]
  }

  function WithoutAuditRows(rows: seq<AuditRow>, keys: set<string>): seq<AuditRow> {
    if rows == [] then []
    else WithoutAuditRows(rows[..|rows| - 1], keys) + if rows[|rows| - 1].key in keys then [] else [rows[|rows| - 1]]
  }

  lemma {:induction false} WithoutRowsMembers(rows: seq<SourceRow>, keys: set<string>)
    ensures forall row :: row in WithoutRows(rows, keys) <==> row in rows && row.key !in keys
  {
    if rows != [] {
      WithoutRowsMembers(rows[..|rows| - 1], keys);
      assert rows == rows[..|rows| - 1] + [rows[|rows| - 1]];
    }
  }

  lemma {:induction false} WithoutNoRows(rows: seq<SourceRow>)
    ensures WithoutRows(rows, {}) == rows
  {
    if rows != [] {
      WithoutNoRows(rows[..|rows| - 1]);
    }
  }

  lemma {:induction false} WithoutRowsDistinct(rows: seq<SourceRow>, keys: set<string>)
    requires RowKeysDistinct(rows)
    ensures RowKeysDistinct(WithoutRows(rows, keys))
  {
    if rows != [] {
      var front, last := rows[..|rows| - 1], rows[|rows| - 1];
      var kept := WithoutRows(front, keys);
      WithoutRowsDistinct(front, keys);
      WithoutRowsMembers(front, keys);
      forall i | 0 <= i < |kept| ensures kept[i].key != last.key {
        assert kept[i] in kept;
        var n :| 0 <= n < |front| && front[n] == kept[i];
        assert rows[n] == front[n];
      }
    }
  }

  /** Dropping the rows of some keys and then those of more keys drops the latter. */
  lemma {:induction false} WithoutMoreRows(rows: seq<SourceRow>, fewer: set<string>, more: set<string>)
    requires fewer <= more
    ensures WithoutRows(WithoutRows(rows, fewer), more) == WithoutRows(rows, more)
  {
    if rows != [] {
      var front, last := rows[..|rows| - 1], rows[|rows| - 1];
      WithoutMoreRows(front, fewer, more);
      assert WithoutRows(front, fewer) + [] == WithoutRows(front, fewer);
      assert WithoutRows(front, more) + [] == WithoutRows(front, more);
      if last.key !in fewer {
        assert (WithoutRows(front, fewer) + [last])[..|WithoutRows(front, fewer)|] == WithoutRows(front, fewer);
      }
    }
  }

  /** A row marked as manual is recognised as manual by the audit exactly when the
      mark reads as itself. */
  lemma {:induction false} ManualMarkRecognised(row: SourceRow, field: string, source: string)
    ensures IsManual(AuditRowOf(field, WithSource(row, field, source)).dataSource, source) <==> IsPlainText(source)
  {
    hide CleanText, IsClean, Trim;
    CleanTextIsClean(source);
    CleanTextFixedPoints(source);
    CleanEnds(CleanText(source));
    TrimFixedPoint(CleanText(source));
  }

  /** A record that a mark was written to is recognised as of a source exactly when
      the mark is not blank and cleaning it gives what trimming the source gives. */
  lemma {:induction false} MarkRecognised(s: Setting, fields: Fields, field: string, mark: string, source: string)
    requires SettingOk(s) && PlainString(s.store(field, Str(mark))) == PlainString(Str(mark))
    requires fields.Keys <= s.columns && field in fields
    requires fields[field] == s.store(field, Str(mark))
    ensures SourceIs(fields, field, source) <==> CleanText(mark) != [] && CleanText(mark) == Trim(source)
  {
    hide CleanText, IsClean, Trim, FindField, NormalizeFieldName, SemanticEqual;
    FindInColumns(s, fields, field);
    CleanTextIsClean(mark);
    CleanEnds(CleanText(mark));
    TrimFixedPoint(CleanText(mark));
  }

  // ----------------------------------------------------------------- the rows to sync

  /** The rows a run has parsed, before they are merged. */
  datatype ParsedSources = ParsedSources(fromSheet: seq<SourceRow>, fromManual: seq<SourceRow>)

  /** What the parsers make of what the reads return. */
  function SourcesIn(c: SyncConfig, o: Outside): ParsedSources {
    var manual := if c.hasManualTable && o.manual.Some? then o.manual.value else [];
    ParsedSources(
      if c.mode.SpreadsheetAndManual? && o.sheet.Some? && o.sheet.value != [] then SheetSource(c, o.sheet.value)
        else [],
      KeyedRows(ParseRecords(c.h, c.rules, c.keyField, manual)))
  }

  function SheetSource(c: SyncConfig, rows: seq<seq<Value>>): seq<SourceRow>
    requires rows != []
  {
    KeyedRows(ParseAll(c.h, c.rules, HeaderNames(rows[0]), c.keyField, rows[1..]))
  }

  /** The rows that reach the tables: the merged ones, in manual-only mode without
      those that the main table marks as the spreadsheet's. */
  ghost function RowsToSync(c: SyncConfig, p: ParsedSources, records: seq<Record>): seq<SourceRow> {
    WithoutRows(Merged(c, p), if c.mode.ManualOnly? then OwnedIn(c, records) else {})
  }

  function Merged(c: SyncConfig, p: ParsedSources): seq<SourceRow> {
    MergeAll(AllWithSource(p.fromSheet, c.rule.dataSourceField, c.rule.spreadsheetSource),
             AllWithSource(p.fromManual, c.rule.dataSourceField, c.rule.manualSource),
             c.rule.manualOverrides)
  }

  ghost predicate SourcesOk(c: SyncConfig, p: ParsedSources) {
    && RowKeysDistinct(p.fromSheet) && RowKeysDistinct(p.fromManual)
    && (forall row :: row in p.fromSheet ==> CarriesKey(c.keyField, row))
    && (forall row :: row in p.fromManual ==> CarriesKey(c.keyField, row))
    && (c.mode.ManualOnly? ==> p.fromSheet == [])
  }

  lemma {:induction false} MergedOk(c: SyncConfig, p: ParsedSources)
    requires SourcesOk(c, p)
    ensures RowKeysDistinct(Merged(c, p))
    ensures NormalizeFieldName(c.rule.dataSourceField) != NormalizeFieldName(c.keyField) ==>
              forall row :: row in Merged(c, p) ==> CarriesKey(c.keyField, row)
  {
    hide CarriesKey, NormalizeFieldName, MergeAll, RowFor, WithSource;
    var field := c.rule.dataSourceField;
    var sheet := AllWithSource(p.fromSheet, field, c.rule.spreadsheetSource);
    var manual := AllWithSource(p.fromManual, field, c.rule.manualSource);
    AllWithSourceKeepsKeys(p.fromSheet, field, c.rule.spreadsheetSource);
    AllWithSourceKeepsKeys(p.fromManual, field, c.rule.manualSource);
    MergedRowsOk(sheet, manual, c.rule.manualOverrides);
    if NormalizeFieldName(field) != NormalizeFieldName(c.keyField) {
      MarkedRowsCarryKey(c.keyField, p.fromSheet, field, c.rule.spreadsheetSource);
      MarkedRowsCarryKey(c.keyField, p.fromManual, field, c.rule.manualSource);
    }
  }

  predicate HasKey(rows: seq<SourceRow>, key: string) {
    exists n :: 0 <= n < |rows| && rows[n].key == key
  }

  /** Which row stands under each key: where both sources have one, the manual row if
      manual rows override and the sheet's otherwise; where one source has one, that. Every
      row has the mark of the source it comes from in place of any it had. */
  ghost predicate TakesRows(c: SyncConfig, p: ParsedSources, rows: seq<SourceRow>) {
    && RowKeysDistinct(rows)
    && (forall row :: row in rows ==> HasKey(p.fromSheet, row.key) || HasKey(p.fromManual, row.key))
    && (forall a :: a in p.fromSheet && (!c.rule.manualOverrides || !HasKey(p.fromManual, a.key)) ==>
          SourceRow(a.key, a.fields[c.rule.dataSourceField := Str(c.rule.spreadsheetSource)]) in rows)
    && (forall a :: a in p.fromManual && (c.rule.manualOverrides || !HasKey(p.fromSheet, a.key)) ==>
          SourceRow(a.key, a.fields[c.rule.dataSourceField := Str(c.rule.manualSource)]) in rows)
  }

  lemma {:induction false} MergedTakesRows(c: SyncConfig, p: ParsedSources)
    requires SourcesOk(c, p)
    ensures TakesRows(c, p, Merged(c, p))
  {
    hide CarriesKey, MergeAll, RowFor, RowKeysDistinct;
    var field := c.rule.dataSourceField;
    var sheet := AllWithSource(p.fromSheet, field, c.rule.spreadsheetSource);
    var manual := AllWithSource(p.fromManual, field, c.rule.manualSource);
    AllWithSourceKeepsKeys(p.fromSheet, field, c.rule.spreadsheetSource);
    AllWithSourceKeepsKeys(p.fromManual, field, c.rule.manualSource);
    MergedRowsOk(sheet, manual, c.rule.manualOverrides);
    MarkedMembers(p.fromSheet, field, c.rule.spreadsheetSource);
    MarkedMembers(p.fromManual, field, c.rule.manualSource);
    forall a | a in sheet && !HasKey(p.fromManual, a.key) ensures RowFor(manual, a.key).None? {
      RowForSome(manual, a.key);
    }
    forall a | a in manual && !HasKey(p.fromSheet, a.key) ensures RowFor(sheet, a.key).None? {
      RowForSome(sheet, a.key);
    }
  }

  lemma {:induction false} MarkedMembers(rows: seq<SourceRow>, field: string, source: string)
    ensures forall row :: row in rows ==>
              SourceRow(row.key, row.fields[field := Str(source)]) in AllWithSource(rows, field, source)
    ensures forall row :: row in AllWithSource(rows, field, source) ==> HasKey(rows, row.key)
  {
    var marked := AllWithSource(rows, field, source);
    forall row | row in rows ensures SourceRow(row.key, row.fields[field := Str(source)]) in marked {
      var n :| 0 <= n < |rows| && rows[n] == row;
      assert marked[n] == SourceRow(row.key, row.fields[field := Str(source)]);
    }
    forall row | row in marked ensures HasKey(rows, row.key) {
      var n :| 0 <= n < |marked| && marked[n] == row;
      assert rows[n].key == row.key;
    }
  }

  lemma {:induction false} MarkedRowsCarryKey(keyField: string, rows: seq<SourceRow>, field: string, source: string)
    requires forall row :: row in rows ==> CarriesKey(keyField, row)
    requires NormalizeFieldName(field) != NormalizeFieldName(keyField)
    ensures forall row :: row in AllWithSource(rows, field, source) ==> CarriesKey(keyField, row)
  {
    hide CarriesKey, NormalizeFieldName, WithSource;
    var marked := AllWithSource(rows, field, source);
    forall n | 0 <= n < |marked| ensures CarriesKey(keyField, marked[n]) {
      assert rows[n] in rows;
      WithSourceKeepsKey(keyField, rows[n], field, source);
    }
  }

  /** Which of the rows belong to the spreadsheet, judged by the main table. */
  ghost predicate SpreadsheetOwned(c: SyncConfig, r: Record) {
    KeyOf(c.keyField, r).Some? && SourceIs(FieldsOf(r), c.rule.dataSourceField, c.rule.spreadsheetSource)
  }

  lemma {:induction false} OwnedKeysOf(c: SyncConfig, index: map<string, IndexItem>, records: seq<Record>, i: nat)
    requires IsIndexOf(index, KeysOf(c.keyField, records), records) && i < |records|
    requires SpreadsheetOwned(c, records[i])
    ensures KeyOf(c.keyField, records[i]).value in OwnedKeys(index, c.rule.dataSourceField, c.rule.spreadsheetSource)
  {
    hide KeyOf, SourceIs;
    var keys := KeysOf(c.keyField, records);
    assert keys[i].value in KeySet(keys);
  }

  /** The keys that the main table marks as the spreadsheet's. */
  ghost function OwnedIn(c: SyncConfig, records: seq<Record>): set<string> {
    set i | 0 <= i < |records| && SpreadsheetOwned(c, records[i]) :: KeyOf(c.keyField, records[i]).value
  }

  lemma {:induction false} OwnedKeysAreOwned(c: SyncConfig, index: map<string, IndexItem>, records: seq<Record>)
    requires KeysDistinct(KeysOf(c.keyField, records)) && IsIndexOf(index, KeysOf(c.keyField, records), records)
    ensures OwnedKeys(index, c.rule.dataSourceField, c.rule.spreadsheetSource) == OwnedIn(c, records)
  {
    hide KeyOf, SourceIs;
    var keys := KeysOf(c.keyField, records);
    forall key | key in OwnedKeys(index, c.rule.dataSourceField, c.rule.spreadsheetSource)
      ensures key in OwnedIn(c, records) {
      var i :| 0 <= i < |keys| && keys[i] == Some(key);
      assert SpreadsheetOwned(c, records[i]);
    }
    forall i | 0 <= i < |records| && SpreadsheetOwned(c, records[i])
      ensures keys[i].value in OwnedKeys(index, c.rule.dataSourceField, c.rule.spreadsheetSource)
    {
      OwnedKeysOf(c, index, records, i);
    }
  }

  lemma {:induction false} WithoutCommutes(field: string, rows: seq<SourceRow>, keys: set<string>)
    ensures WithoutAuditRows(AuditRowsOf(field, rows), keys) == AuditRowsOf(field, WithoutRows(rows, keys))
  {
    hide AuditRowOf;
    if rows != [] {
      var front, last := rows[..|rows| - 1], rows[|rows| - 1];
      WithoutCommutes(field, front, keys);
      assert AuditRowsOf(field, rows)[..|rows| - 1] == AuditRowsOf(field, front);
      assert AuditRowOf(field, last).key == last.key by { AuditRowKeepsKey(field, last); }
      assert AuditRowsOf(field, [last]) == [AuditRowOf(field, last)];
    }
  }

  lemma AuditRowKeepsKey(field: string, row: SourceRow)
    ensures AuditRowOf(field, row).key == row.key
  {
  }
}
