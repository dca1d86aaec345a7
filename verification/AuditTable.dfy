/** The audit table: which rows it needs, which of them are approved at once, and
    its sync as an instance of the convergent upsert (src/pipeline/table_sync.rs). */
module AuditTable {
  import opened Wrappers
  import opened Text
  import opened Json
  import opened CellValues
  import opened TargetTable
  import opened TableIndex
  import opened Upsert
  import opened MainPlan
  import opened Convergence
  import opened MainSync

  /** `ActivityTableSyncRuleConfig` */
  datatype SyncRule = SyncRule(
    dataSourceField: string,
    spreadsheetSource: string,
    manualSource: string,
    manualOverrides: bool,
    manualAutoApprove: bool,
    approveResult: string,
    auditResultField: string)

  datatype AuditRow = AuditRow(key: string, dataSource: Option<string>)

  // --------------------------------------------------------------------- audit rows

  function AuditRowOf(field: string, row: SourceRow): AuditRow {
    AuditRow(row.key, if field in row.fields then PlainString(row.fields[field]) else None)
  }

  function AuditRowsOf(field: string, rows: seq<SourceRow>): (r: seq<AuditRow>)
    ensures |r| == |rows|
    ensures forall i :: 0 <= i < |rows| ==> r[i] == AuditRowOf(field, rows[i])
  {
    seq(|rows|, i requires 0 <= i < |rows| => AuditRowOf(field, rows[i]))
  }

  /** `collect_audit_source_rows`; merged rows have distinct keys, so every row
      gives one. */
  method CollectAuditSourceRows(rows: seq<SourceRow>, field: string) returns (r: seq<AuditRow>)
    ensures forall row :: row in rows ==> exists i :: 0 <= i < |r| && r[i].key == row.key
    ensures forall i, j :: 0 <= i < j < |r| ==> r[i].key != r[j].key
    ensures RowKeysDistinct(rows) ==> r == AuditRowsOf(field, rows)
  {
    r := [];
    var seen: set<string> := {};
    for n := 0 to |rows|
      invariant seen == set i | 0 <= i < |r| :: r[i].key
      invariant forall i :: 0 <= i < n ==> rows[i].key in seen
      invariant forall key :: key in seen ==> exists i :: 0 <= i < n && rows[i].key == key
      invariant forall i, j :: 0 <= i < j < |r| ==> r[i].key != r[j].key
      invariant RowKeysDistinct(rows) ==> r == AuditRowsOf(field, rows[..n])
    {
      if rows[n].key in seen { continue; }
      ghost var before := r;
      seen := seen + {rows[n].key};
      r := r + [AuditRowOf(field, rows[n])];
      assert r[..|before|] == before && r[|before|].key == rows[n].key;
    }
    assert rows[..|rows|] == rows;
  }

  /** `is_manual_data_source` */
  predicate IsManual(dataSource: Option<string>, manualSource: string) {
    dataSource.Some? && Trim(dataSource.value) == manualSource
  }

  predicate AutoApproves(rule: SyncRule, row: AuditRow) {
    IsManual(row.dataSource, rule.manualSource) && rule.manualAutoApprove
  }

  /** Which rows of the sync are approved at once: with approval switched on, those whose mark
      reads as the manual one. */
  lemma {:induction false} ApprovedByMark(rule: SyncRule, row: SourceRow, mark: string)
    requires rule.dataSourceField in row.fields && row.fields[rule.dataSourceField] == Str(mark)
    ensures AutoApproves(rule, AuditRowOf(rule.dataSourceField, row)) <==>
              rule.manualAutoApprove && CleanText(mark) != [] && CleanText(mark) == rule.manualSource
  {
    hide CleanText, IsClean, Trim;
    CleanTextIsClean(mark);
    CleanEnds(CleanText(mark));
    TrimFixedPoint(CleanText(mark));
  }

  /** `audit_result_is_approved` */
  predicate IsApproved(rule: SyncRule, fields: Fields) {
    var found := FindField(fields, rule.auditResultField);
    found.Some? && PlainString(found.value) == Some(rule.approveResult)
  }

  function ApprovedFields(rule: SyncRule): Fields {
    map[rule.auditResultField := Str(rule.approveResult)]
  }

  /** The fields a new audit record is created with. */
  function AuditCreateFields(h: Host, rules: FieldValueRules, keyField: string, rule: SyncRule, row: AuditRow): Fields {
    var base: Fields := map[keyField := ToWriteValue(h, rules, keyField, Str(row.key))];
    if AutoApproves(rule, row) then base + ApprovedFields(rule) else base
  }

  /** A row asks an existing audit record for the approval, and for nothing else. */
  function AuditChange(rule: SyncRule, row: AuditRow, current: Fields): Fields {
    if AutoApproves(rule, row) && !IsApproved(rule, current) then ApprovedFields(rule) else map[]
  }

  function AuditWish(h: Host, rules: FieldValueRules, keyField: string, rule: SyncRule, row: AuditRow): Wish {
    Wish(row.key, AuditCreateFields(h, rules, keyField, rule, row), current => AuditChange(rule, row, current))
  }

  function AuditWishes(h: Host, rules: FieldValueRules, keyField: string, rule: SyncRule,
      rows: seq<AuditRow>): (wishes: seq<Wish>)
    ensures |wishes| == |rows|
  {
    if rows == [] then []
    else
      AuditWishes(h, rules, keyField, rule, rows[..|rows| - 1])
      + [AuditWish(h, rules, keyField, rule, rows[|rows| - 1])]
  }

  lemma {:induction false} AuditWishesAt(h: Host, rules: FieldValueRules, keyField: string, rule: SyncRule,
      rows: seq<AuditRow>, n: nat)
    requires n < |rows|
    ensures AuditWishes(h, rules, keyField, rule, rows)[n] == AuditWish(h, rules, keyField, rule, rows[n])
  {
    if n < |rows| - 1 { AuditWishesAt(h, rules, keyField, rule, rows[..|rows| - 1], n); }
  }

  lemma AuditWishesFirst(h: Host, rules: FieldValueRules, keyField: string, rule: SyncRule, rows: seq<AuditRow>, n: nat)
    requires n < |rows|
    ensures AuditWishes(h, rules, keyField, rule, rows[..n + 1])
         == AuditWishes(h, rules, keyField, rule, rows[..n]) + [AuditWish(h, rules, keyField, rule, rows[n])]
  {
    assert rows[..n + 1][..n] == rows[..n];
  }

  lemma NoAuditWishes(h: Host, rules: FieldValueRules, keyField: string, rule: SyncRule, index: map<string, IndexItem>)
    ensures AuditWishes(h, rules, keyField, rule, []) == [] && PlanUpdates(index, []) == []
            && PlanCreates(index, []) == []
  {
  }

  /** `build_audit_sync_records` */
  method BuildAuditSyncRecords(h: Host, rules: FieldValueRules, keyField: string, rule: SyncRule,
      index: map<string, IndexItem>, rows: seq<AuditRow>) returns (plan: Plan)
    ensures plan == PlanFor(index, AuditWishes(h, rules, keyField, rule, rows))
  {
    hide PlanUpdates, PlanCreates, AuditWishes, IsApproved, ToWriteValue, IsManual;
    NoAuditWishes(h, rules, keyField, rule, index);
    var creates: seq<CreateItem> := [];
    var updates: seq<UpdateItem> := [];
    for n := 0 to |rows|
      invariant creates == PlanCreates(index, AuditWishes(h, rules, keyField, rule, rows[..n]))
      invariant updates == PlanUpdates(index, AuditWishes(h, rules, keyField, rule, rows[..n]))
    {
      var row := rows[n];
      AuditWishesFirst(h, rules, keyField, rule, rows, n);
      PlanStep(index, AuditWishes(h, rules, keyField, rule, rows[..n]), AuditWish(h, rules, keyField, rule, row));
      var approve := IsManual(row.dataSource, rule.manualSource) && rule.manualAutoApprove;
      if row.key in index {
        var existing := index[row.key];
        if approve && !IsApproved(rule, existing.fields) {
          assert rule.auditResultField in ApprovedFields(rule);
          updates := updates + [UpdateItem(existing.id, ApprovedFields(rule))];
        }
      } else {
        var fields: Fields := map[keyField := ToWriteValue(h, rules, keyField, Str(row.key))];
        if approve {
          fields := fields + ApprovedFields(rule);
        }
        creates := creates + [CreateItem(fields)];
      }
    }
    assert rows[..|rows|] == rows;
    plan := Plan(creates, updates);
  }

  // ------------------------------------------------------------- when approval sticks

  /** Texts that the table reads back as they are. */
  predicate IsPlainText(s: string) {
    s != [] && IsClean(s)
  }

  lemma PlainTextReadsItself(s: string)
    ensures PlainString(Str(s)) == Some(s) <==> IsPlainText(s)
  {
    CleanTextFixedPoints(s);
  }

  /** What the audit sync relies on: the key column is a text column, and the
      approval goes to another column and reads back as the same text. */
  predicate AuditSettingOk(rules: FieldValueRules, s: Setting, rule: SyncRule) {
    && SettingOk(s)
    && ApprovalReadsBack(s, rule)
    && s.keyField in s.columns && rule.auditResultField in s.columns && s.keyField != rule.auditResultField
    && rules.ValueKind(s.keyField) == FieldValueKind.Text
  }

  predicate ApprovalReadsBack(s: Setting, rule: SyncRule) {
    PlainString(s.store(rule.auditResultField, Str(rule.approveResult))) == PlainString(Str(rule.approveResult))
  }

  predicate KeyReadsBack(s: Setting, key: string) {
    KeyString(s.store(s.keyField, Str(key))) == KeyString(Str(key))
  }

  /** Keys as `value_to_key_string` makes them. */
  ghost predicate IsKey(key: string) {
    exists v :: KeyString(v) == Some(key)
  }

  lemma {:induction false} KeyIsItsOwnText(h: Host, rules: FieldValueRules, name: string, key: string)
    requires IsKey(key) && rules.ValueKind(name) == FieldValueKind.Text
    ensures ToWriteValue(h, rules, name, Str(key)) == Str(key) && KeyString(Str(key)) == Some(key)
  {
    hide KeyString, ToWriteValue;
    var v :| KeyString(v) == Some(key);
    KeyStringStable(v);
    KeyWriteValue(h, rules, name, v);
  }

  /** The approval reads as approved exactly when its text is a fixed point of
      `clean_text` and not empty. */
  lemma {:induction false} ApprovalReads(s: Setting, rule: SyncRule, fields: Fields)
    requires SettingOk(s) && ApprovalReadsBack(s, rule) && fields.Keys <= s.columns && rule.auditResultField in fields
    requires fields[rule.auditResultField] == s.store(rule.auditResultField, Str(rule.approveResult))
    ensures IsApproved(rule, fields) <==> IsPlainText(rule.approveResult)
  {
    hide FindField, NormalizeFieldName, SemanticEqual, PlainString, IsPlainText;
    FindInColumns(s, fields, rule.auditResultField);
    PlainTextReadsItself(rule.approveResult);
  }

  /** After the approval is written, nothing is left to write exactly when its text
      reads as itself; otherwise every run writes it again. */
  lemma {:induction false} ApprovalSettlesExactly(s: Setting, rule: SyncRule, row: AuditRow, current: Fields)
    requires SettingOk(s) && ApprovalReadsBack(s, rule) && current.Keys <= s.columns
             && rule.auditResultField in s.columns
    requires AutoApproves(rule, row) && !IsApproved(rule, current)
    ensures AuditChange(rule, row, MergeFields(s.store, current, AuditChange(rule, row, current))) == map[]
       <==> IsPlainText(rule.approveResult)
  {
    hide IsApproved, IsPlainText, SettingOk, IsManual, ApprovalReadsBack;
    var after := MergeFields(s.store, current, ApprovedFields(rule));
    ApprovalReads(s, rule, after);
    assert rule.auditResultField in ApprovedFields(rule);
  }

  lemma {:induction false} AuditChangeSettles(h: Host, rules: FieldValueRules, s: Setting, rule: SyncRule,
      row: AuditRow, current: Fields)
    requires AuditSettingOk(rules, s, rule) && current.Keys <= s.columns
    requires AutoApproves(rule, row) ==> IsPlainText(rule.approveResult)
    ensures ChangesOk(s, AuditWish(h, rules, s.keyField, rule, row), current)
  {
    hide IsApproved, IsPlainText, SettingOk, IsManual, ToWriteValue, FieldKey, ApprovalReadsBack;
    var w := AuditWish(h, rules, s.keyField, rule, row);
    if AuditChange(rule, row, current) == map[] {
      NothingToChange(s, current, w);
    } else {
      ApprovalSettlesExactly(s, rule, row, current);
      ApprovalKeepsKey(rules, s, rule, current);
    }
  }

  lemma {:induction false} ApprovalKeepsKey(rules: FieldValueRules, s: Setting, rule: SyncRule, current: Fields)
    requires AuditSettingOk(rules, s, rule) && current.Keys <= s.columns
    ensures FieldKey(s.keyField, MergeFields(s.store, current, ApprovedFields(rule))) == FieldKey(s.keyField, current)
  {
    hide FindField, NormalizeFieldName, SemanticEqual, PlainString;
    var after := MergeFields(s.store, current, ApprovedFields(rule));
    FindInColumns(s, current, s.keyField);
    FindInColumns(s, after, s.keyField);
  }

  lemma {:induction false} AuditCreatedOk(h: Host, rules: FieldValueRules, s: Setting, rule: SyncRule, row: AuditRow)
    requires AuditSettingOk(rules, s, rule) && IsKey(row.key) && KeyReadsBack(s, row.key)
    requires AutoApproves(rule, row) ==> IsPlainText(rule.approveResult)
    ensures var stored := StoreFields(s.store, AuditCreateFields(h, rules, s.keyField, rule, row));
            && FieldKey(s.keyField, stored) == Some(row.key)
            && AuditChange(rule, row, stored) == map[]
  {
    hide FindField, NormalizeFieldName, SemanticEqual, PlainString, ToWriteValue, KeyString, IsPlainText, IsManual,
      IsKey, IsApproved;
    var stored := StoreFields(s.store, AuditCreateFields(h, rules, s.keyField, rule, row));
    KeyIsItsOwnText(h, rules, s.keyField, row.key);
    FindInColumns(s, stored, s.keyField);
    if AutoApproves(rule, row) {
      ApprovalReads(s, rule, stored);
    }
  }

  /** So audit rows are wishes that settle. */
  lemma {:induction false} AuditWishesOk(h: Host, rules: FieldValueRules, s: Setting, rule: SyncRule,
      rows: seq<AuditRow>)
    requires AuditSettingOk(rules, s, rule)
    requires forall i, j :: 0 <= i < j < |rows| ==> rows[i].key != rows[j].key
    requires forall i :: 0 <= i < |rows| ==> IsKey(rows[i].key) && KeyReadsBack(s, rows[i].key)
    requires IsPlainText(rule.approveResult) || forall i :: 0 <= i < |rows| ==> !AutoApproves(rule, rows[i])
    ensures WishesOk(s, AuditWishes(h, rules, s.keyField, rule, rows))
  {
    hide ChangesOk, IsPlainText, AuditSettingOk, AuditWishes, AutoApproves, IsKey, FieldKey, AuditChange, KeyReadsBack;
    var wishes := AuditWishes(h, rules, s.keyField, rule, rows);
    forall n | 0 <= n < |wishes| ensures WishOk(s, wishes[n]) && wishes[n].key == rows[n].key {
      AuditWishesAt(h, rules, s.keyField, rule, rows, n);
      AuditCreatedOk(h, rules, s, rule, rows[n]);
      AuditCreateColumns(h, rules, s, rule, rows[n]);
      forall current: Fields | current.Keys <= s.columns ensures ChangesOk(s, wishes[n], current) {
        AuditChangeSettles(h, rules, s, rule, rows[n], current);
      }
    }
  }

  lemma {:induction false} AuditCreateColumns(h: Host, rules: FieldValueRules, s: Setting, rule: SyncRule,
      row: AuditRow)
    requires AuditSettingOk(rules, s, rule)
    ensures AuditCreateFields(h, rules, s.keyField, rule, row).Keys <= s.columns
  {
    hide ToWriteValue, IsManual, SettingOk, ApprovalReadsBack;
  }

  // -------------------------------------------------------------------- main results

  ghost predicate AuditRunOk(rules: FieldValueRules, s: Setting, rule: SyncRule, rows: seq<AuditRow>) {
    && AuditSettingOk(rules, s, rule)
    && (forall i, j :: 0 <= i < j < |rows| ==> rows[i].key != rows[j].key)
    && (forall i :: 0 <= i < |rows| ==> IsKey(rows[i].key) && KeyReadsBack(s, rows[i].key))
    && (IsPlainText(rule.approveResult) || forall i :: 0 <= i < |rows| ==> !AutoApproves(rule, rows[i]))
  }

  lemma {:induction false} AuditRowSynced(h: Host, rules: FieldValueRules, s: Setting, rule: SyncRule,
      rows: seq<AuditRow>, start: seq<Record>, startId: nat, records: seq<Record>, nextId: nat, n: nat)
    requires AuditRunOk(rules, s, rule, rows) && n < |rows|
    requires TableOk(s, start, startId) && TableOk(s, records, nextId)
    requires Finished(s, AuditWishes(h, rules, s.keyField, rule, rows), start, records)
    ensures var before, after := FieldsAt(s.keyField, start, rows[n].key), FieldsAt(s.keyField, records, rows[n].key);
            && after.Some?
            && (AutoApproves(rule, rows[n]) ==> IsApproved(rule, after.value))
            && (!AutoApproves(rule, rows[n]) && before.Some? ==> after == before)
            && (!AutoApproves(rule, rows[n]) && before.None? ==> after.value.Keys == {s.keyField})
            && (before.Some? ==> after.value == Synced(s, before.value, AuditWish(h, rules, s.keyField, rule, rows[n])))
  {
    hide TableOk, Finished, AuditSettingOk, WishOk, FieldsAt, WishFor, AutoApproves, IsApproved, IsPlainText, IsKey,
      KeyReadsBack, StoreFields, MergeFields, AuditCreateFields;
    var wishes := AuditWishes(h, rules, s.keyField, rule, rows);
    var key := rows[n].key;
    AuditWishesOk(h, rules, s, rule, rows);
    AuditWishesAt(h, rules, s.keyField, rule, rows, n);
    WishForOwnKey(wishes, n);
    FinishedOutcome(s, wishes, start, startId, records, nextId, key);
    match FieldsAt(s.keyField, start, key)
    case None =>
      AuditCreatedOk(h, rules, s, rule, rows[n]);
      ApprovedFieldsNotEmpty(rule);
      KeyAloneCreated(h, rules, s, rule, rows[n]);
    case Some(current) =>
      FieldsAtColumns(s, start, startId, key);
      AuditChangeApproves(h, rules, s, rule, rows[n], current);
  }

  /** After a finished audit sync every source key is in the table under itself; with
      approval switched on, a row of the manual source reads as approved; any other row
      leaves an existing record as it was, and a new one with the key alone; and no cell of
      an existing record changes but the result. */
  lemma {:induction false} AuditSynced(h: Host, rules: FieldValueRules, s: Setting, rule: SyncRule, rows: seq<AuditRow>,
      start: seq<Record>, startId: nat, records: seq<Record>, nextId: nat, n: nat)
    requires AuditRunOk(rules, s, rule, rows) && n < |rows|
    requires TableOk(s, start, startId) && TableOk(s, records, nextId)
    requires Finished(s, AuditWishes(h, rules, s.keyField, rule, rows), start, records)
    ensures var before, after := FieldsAt(s.keyField, start, rows[n].key), FieldsAt(s.keyField, records, rows[n].key);
            var approved := && rule.manualAutoApprove && rows[n].dataSource.Some?
                            && Trim(rows[n].dataSource.value) == rule.manualSource;
            && after.Some?
            && (approved ==> IsApproved(rule, after.value))
            && (!approved && before.Some? ==> after == before)
            && (!approved && before.None? ==> after.value.Keys == {s.keyField})
            && (before.Some? ==> forall name :: name != rule.auditResultField ==>
                 SameCell(before.value, after.value, name))
  {
    hide TableOk, Finished, FieldsAt, IsApproved, AutoApproves, Synced, AuditWish, SameCell, Trim, AuditRunOk;
    AuditRowSynced(h, rules, s, rule, rows, start, startId, records, nextId, n);
    ApprovesExactly(rule, rows[n]);
    var before := FieldsAt(s.keyField, start, rows[n].key);
    if before.Some? { OnlyResultChanges(h, rules, s, rule, rows[n], before.value); }
  }

  predicate SameCell(a: Fields, b: Fields, name: string) {
    (name in a <==> name in b) && (name in a ==> a[name] == b[name])
  }

  lemma {:induction false} ApprovesExactly(rule: SyncRule, row: AuditRow)
    ensures AutoApproves(rule, row) <==>
              rule.manualAutoApprove && row.dataSource.Some? && Trim(row.dataSource.value) == rule.manualSource
  {
    hide Trim;
  }

  lemma {:induction false} OnlyResultChanges(h: Host, rules: FieldValueRules, s: Setting, rule: SyncRule,
      row: AuditRow, current: Fields)
    ensures forall name :: name != rule.auditResultField ==>
              SameCell(current, Synced(s, current, AuditWish(h, rules, s.keyField, rule, row)), name)
  {
    hide IsApproved, AutoApproves, ToWriteValue;
  }

  lemma {:induction false} KeyAloneCreated(h: Host, rules: FieldValueRules, s: Setting, rule: SyncRule, row: AuditRow)
    ensures !AutoApproves(rule, row) ==>
            StoreFields(s.store, AuditCreateFields(h, rules, s.keyField, rule, row)).Keys == {s.keyField}
  {
    hide ToWriteValue, IsManual;
  }

  lemma ApprovedFieldsNotEmpty(rule: SyncRule)
    ensures ApprovedFields(rule) != map[]
  {
    assert rule.auditResultField in ApprovedFields(rule);
  }

  lemma {:induction false} AuditChangeApproves(h: Host, rules: FieldValueRules, s: Setting, rule: SyncRule,
      row: AuditRow, current: Fields)
    requires AuditSettingOk(rules, s, rule) && current.Keys <= s.columns
    requires AutoApproves(rule, row) ==> IsPlainText(rule.approveResult)
    ensures AutoApproves(rule, row) ==> IsApproved(rule, Synced(s, current, AuditWish(h, rules, s.keyField, rule, row)))
    ensures !AutoApproves(rule, row) ==> Synced(s, current, AuditWish(h, rules, s.keyField, rule, row)) == current
  {
    hide IsApproved, IsPlainText, SettingOk, IsManual, ToWriteValue, FieldKey, ApprovalReadsBack;
    var w := AuditWish(h, rules, s.keyField, rule, row);
    if w.change(current) == map[] {
      ApprovedFieldsNotEmpty(rule);
      NothingToChange(s, current, w);
    } else {
      ApprovalReads(s, rule, Synced(s, current, w));
    }
  }

  lemma {:induction false} FieldsAtColumns(s: Setting, records: seq<Record>, nextId: nat, key: string)
    requires TableOk(s, records, nextId)
    ensures FieldsAt(s.keyField, records, key).Some? ==> FieldsAt(s.keyField, records, key).value.Keys <= s.columns
  {
    hide KeyOf;
    if records != [] {
      assert KeysOf(s.keyField, records[1..]) == KeysOf(s.keyField, records)[1..];
      FieldsAtColumns(s, records[1..], nextId, key);
    }
  }
}
