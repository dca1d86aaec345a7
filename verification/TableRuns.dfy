/** Whole runs of one source over the main and the audit table, each of them deciding
    anew which rows it syncs. */
module TableRuns {
  import opened Wrappers
  import opened Text
  import opened Json
  import opened CellValues
  import opened TargetTable
  import opened TableIndex
  import opened Upsert
  import opened MainPlan
  import opened Convergence
  import opened MainSync
  import opened AuditTable
  import opened SyncSources
  import opened OtherKeys

  datatype Tables = Tables(main: TableState, audit: TableState)

  function AuditWishesFor(c: SyncConfig, rows: seq<SourceRow>): seq<Wish> {
    AuditWishes(c.h, c.rules, c.keyField, c.rule, AuditRowsOf(c.rule.dataSourceField, rows))
  }

  /** What a run with these rows does: a part of the main plan; once that is through, a
      part of the audit plan; both wholly if it succeeds. */
  ghost predicate Wrote(c: SyncConfig, rows: seq<SourceRow>, s: Setting, t: Setting, a: Tables, b: Tables,
      complete: bool) {
    && Effect(s, WishesOf(c.h, c.rules, rows), a.main, b.main, complete)
    && (a.audit != b.audit ==> CompleteRun(s, WishesOf(c.h, c.rules, rows), a.main, b.main))
    && (if complete && (!c.hasAuditTable || rows == []) then a.audit == b.audit
        else Effect(t, AuditWishesFor(c, rows), a.audit, b.audit, complete))
  }

  /** A run of a source: it fails before it writes, or it writes for the rows that it
      takes from the source and the main table as it finds it. */
  ghost predicate IsRun(c: SyncConfig, p: ParsedSources, s: Setting, t: Setting, a: Tables, b: Tables, complete: bool) {
    || (a == b && !complete)
    || (SourcesOk(c, p) && Wrote(c, RowsToSync(c, p, a.main.records), s, t, a, b, complete))
  }

  /** Runs that stopped somewhere, one after the other, and then one that went through. */
  ghost predicate IsRetry(c: SyncConfig, p: ParsedSources, s: Setting, t: Setting, states: seq<Tables>, last: Tables) {
    && states != []
    && (forall k :: 0 <= k < |states| - 1 ==> IsRun(c, p, s, t, states[k], states[k + 1], false))
    && IsRun(c, p, s, t, states[|states| - 1], last, true)
  }

  lemma {:induction false} CompleteIsInterrupted(s: Setting, wishes: seq<Wish>, a: TableState, b: TableState)
    requires CompleteRun(s, wishes, a, b)
    ensures InterruptedRun(s, wishes, a, b)
  {
    hide IsRunPart;
    var index :| IsRunPart(s, wishes, a, b, index, |PlanFor(index, wishes).updates|, |PlanFor(index, wishes).creates|);
  }

  lemma {:induction false} MainPartOfRun(c: SyncConfig, p: ParsedSources, s: Setting, t: Setting, a: Tables, b: Tables,
      complete: bool)
    requires IsRun(c, p, s, t, a, b, complete)
    ensures InterruptedRun(s, WishesOf(c.h, c.rules, RowsToSync(c, p, a.main.records)), a.main, b.main)
    ensures complete ==> CompleteRun(s, WishesOf(c.h, c.rules, RowsToSync(c, p, a.main.records)), a.main, b.main)
  {
    hide CompleteRun, WishesOf, RowsToSync, SourcesOk, IsRunPart;
    var wishes := WishesOf(c.h, c.rules, RowsToSync(c, p, a.main.records));
    if CompleteRun(s, wishes, a.main, b.main) { CompleteIsInterrupted(s, wishes, a.main, b.main); }
  }

  // --------------------------------------------------------------- manual-only runs

  lemma {:induction false} RowsWishesAvoid(c: SyncConfig, rows: seq<SourceRow>, keys: set<string>)
    requires RowKeysDistinct(rows) && forall row :: row in rows ==> row.key !in keys
    ensures AvoidsKeys(WishesOf(c.h, c.rules, rows), keys) && WishKeysDistinct(WishesOf(c.h, c.rules, rows))
    ensures AvoidsKeys(AuditWishesFor(c, rows), keys) && WishKeysDistinct(AuditWishesFor(c, rows))
  {
    hide WishesOf, Diff, AuditWishes, AuditCreateFields, AuditChange, AuditRowOf;
    var audited := AuditRowsOf(c.rule.dataSourceField, rows);
    forall n | 0 <= n < |rows|
      ensures WishesOf(c.h, c.rules, rows)[n].key == rows[n].key
      ensures AuditWishesFor(c, rows)[n].key == rows[n].key && rows[n].key !in keys
    {
      WishesOfAt(c.h, c.rules, rows, n);
      AuditWishesAt(c.h, c.rules, c.keyField, c.rule, audited, n);
      AuditRowKeepsKey(c.rule.dataSourceField, rows[n]);
      assert rows[n] in rows;
    }
  }

  lemma {:induction false} RowsToSyncOk(c: SyncConfig, p: ParsedSources, records: seq<Record>)
    requires SourcesOk(c, p)
    ensures RowKeysDistinct(RowsToSync(c, p, records))
    ensures forall row :: row in RowsToSync(c, p, records) ==> row in Merged(c, p)
    ensures c.mode.ManualOnly? ==> forall row :: row in RowsToSync(c, p, records) ==> row.key !in OwnedIn(c, records)
    ensures NormalizeFieldName(c.rule.dataSourceField) != NormalizeFieldName(c.keyField) ==>
              forall row :: row in RowsToSync(c, p, records) ==> CarriesKey(c.keyField, row)
  {
    hide Merged, OwnedIn, CarriesKey, NormalizeFieldName, SourcesOk, WithoutRows, RowKeysDistinct;
    var dropped := if c.mode.ManualOnly? then OwnedIn(c, records) else {};
    MergedOk(c, p);
    WithoutRowsMembers(Merged(c, p), dropped);
    WithoutRowsDistinct(Merged(c, p), dropped);
  }

  /** In manual-only mode a run, wherever it stops and whatever the override flag says,
      changes no record of a key that the main table marks as the spreadsheet's, in
      neither table, and appends records only for other keys. */
  lemma {:induction false} ManualOnlyLeavesSpreadsheet(c: SyncConfig, p: ParsedSources, s: Setting, t: Setting,
      a: Tables,
      b: Tables, complete: bool)
    requires c.mode.ManualOnly? && IsRun(c, p, s, t, a, b, complete)
    requires IdsDistinct(a.main.records, a.main.nextId) && IdsDistinct(a.audit.records, a.audit.nextId)
    ensures var rows, owned := RowsToSync(c, p, a.main.records), OwnedIn(c, a.main.records);
            && LeavesKeys(s, WishesOf(c.h, c.rules, rows), owned, a.main, b.main)
            && LeavesKeys(t, AuditWishesFor(c, rows), owned, a.audit, b.audit)
  {
    hide SourcesOk, RowsToSync, OwnedIn, WishesOf, AuditWishesFor, AvoidsKeys, WishKeysDistinct, IdsDistinct,
      InterruptedRun, CompleteRun, LeavesKeys, RowKeysDistinct, CarriesKey, NormalizeFieldName, Merged;
    var rows, owned := RowsToSync(c, p, a.main.records), OwnedIn(c, a.main.records);
    if a == b && !complete {
      SameLeavesKeys(s, WishesOf(c.h, c.rules, rows), owned, a.main);
      SameLeavesKeys(t, AuditWishesFor(c, rows), owned, a.audit);
    } else {
      RowsToSyncOk(c, p, a.main.records);
      RowsWishesAvoid(c, rows, owned);
      MainPartOfRun(c, p, s, t, a, b, complete);
      InterruptedRunLeavesKeys(s, WishesOf(c.h, c.rules, rows), owned, a.main, b.main);
      if a.audit == b.audit {
        SameLeavesKeys(t, AuditWishesFor(c, rows), owned, a.audit);
      } else {
        if complete { CompleteIsInterrupted(t, AuditWishesFor(c, rows), a.audit, b.audit); }
        InterruptedRunLeavesKeys(t, AuditWishesFor(c, rows), owned, a.audit, b.audit);
      }
    }
  }

  lemma SameLeavesKeys(s: Setting, wishes: seq<Wish>, keys: set<string>, a: TableState)
    ensures LeavesKeys(s, wishes, keys, a, a)
  {
  }

  // ------------------------------------------------------- rows that are settled already

  lemma {:induction false} LastWish(h: Host, rules: FieldValueRules, index: map<string, IndexItem>,
      front: seq<SourceRow>, last: SourceRow)
    ensures PlanUpdates(index, WishesOf(h, rules, front + [last]))
         == PlanUpdates(index, WishesOf(h, rules, front)) + UpdateFor(index, WishOf(h, rules, last))
    ensures PlanCreates(index, WishesOf(h, rules, front + [last]))
         == PlanCreates(index, WishesOf(h, rules, front)) + CreateFor(index, WishOf(h, rules, last))
  {
    hide WishesOf, PlanUpdates, PlanCreates, WishOf;
    var rows := front + [last];
    WishesOfFirst(h, rules, rows, |front|);
    assert rows[..|front|] == front && rows[..|front| + 1] == rows;
    PlanStep(index, WishesOf(h, rules, front), WishOf(h, rules, last));
  }

  /** Rows whose records have nothing left to take over add nothing to a plan. */
  lemma {:induction false} PlanWithoutSettled(h: Host, rules: FieldValueRules, index: map<string, IndexItem>,
      rows: seq<SourceRow>, keys: set<string>)
    requires forall row :: row in rows && row.key in keys ==>
               row.key in index && Diff(h, rules, index[row.key].fields, row.fields) == map[]
    ensures PlanFor(index, WishesOf(h, rules, WithoutRows(rows, keys))) == PlanFor(index, WishesOf(h, rules, rows))
  {
    hide Diff, WishesOf, PlanUpdates, PlanCreates, WishOf, UpdateFor, CreateFor;
    if rows != [] {
      var front, last := rows[..|rows| - 1], rows[|rows| - 1];
      assert rows == front + [last];
      PlanWithoutSettled(h, rules, index, front, keys);
      LastWish(h, rules, index, front, last);
      if last.key in keys {
        SettledAsksNothing(h, rules, index, last);
        assert WithoutRows(rows, keys) == WithoutRows(front, keys);
      } else {
        LastWish(h, rules, index, WithoutRows(front, keys), last);
      }
    }
  }

  lemma SettledAsksNothing(h: Host, rules: FieldValueRules, index: map<string, IndexItem>, row: SourceRow)
    requires row.key in index && Diff(h, rules, index[row.key].fields, row.fields) == map[]
    ensures UpdateFor(index, WishOf(h, rules, row)) == [] && CreateFor(index, WishOf(h, rules, row)) == []
  {
  }

  lemma {:induction false} WishForRow(h: Host, rules: FieldValueRules, rows: seq<SourceRow>, row: SourceRow)
    requires RowKeysDistinct(rows) && row in rows
    ensures WishFor(WishesOf(h, rules, rows), row.key) == Some(WishOf(h, rules, row))
  {
    hide Diff, WishesOf, WishFor;
    var wishes := WishesOf(h, rules, rows);
    forall n | 0 <= n < |rows| ensures wishes[n].key == rows[n].key { WishesOfAt(h, rules, rows, n); }
    var n :| 0 <= n < |rows| && rows[n] == row;
    WishesOfAt(h, rules, rows, n);
    WishForOwnKey(wishes, n);
  }

  lemma {:induction false} NoWishForKey(h: Host, rules: FieldValueRules, rows: seq<SourceRow>, key: string)
    requires forall row :: row in rows ==> row.key != key
    ensures WishFor(WishesOf(h, rules, rows), key).None?
  {
    hide Diff, WishesOf, WishFor;
    var wishes := WishesOf(h, rules, rows);
    WishForSourceKey(wishes, key);
    forall n | 0 <= n < |rows| ensures wishes[n].key != key {
      WishesOfAt(h, rules, rows, n);
      assert rows[n] in rows;
    }
  }

  // --------------------------------------------- what a later run makes of the rows

  /** The keys that the rows leave out when the table holds these records. */
  ghost function LeftOut(c: SyncConfig, records: seq<Record>): set<string> {
    if c.mode.ManualOnly? then OwnedIn(c, records) else {}
  }

  lemma {:induction false} RowsAvoidLeftOut(c: SyncConfig, p: ParsedSources, records: seq<Record>)
    ensures RowsToSync(c, p, records) == WithoutRows(Merged(c, p), LeftOut(c, records))
    ensures forall row :: row in RowsToSync(c, p, records) ==> row.key !in LeftOut(c, records)
  {
    hide Merged, OwnedIn, WithoutRows;
    WithoutRowsMembers(Merged(c, p), LeftOut(c, records));
  }

  /** A key left out at the start is left out by every run after interrupted ones. */
  lemma {:induction false} LeftOutGrows(c: SyncConfig, p: ParsedSources, s: Setting, start: seq<Record>,
      records: seq<Record>)
    requires s.keyField == c.keyField
    requires Between(s, WishesOf(c.h, c.rules, RowsToSync(c, p, start)), start, records)
    ensures LeftOut(c, start) <= LeftOut(c, records)
  {
    hide KeyOf, SourceIs, RowsToSync, WishesOf, Synced, WishFor, IsCreatedFor;
    var rows := RowsToSync(c, p, start);
    RowsAvoidLeftOut(c, p, start);
    if c.mode.ManualOnly? {
      forall i | 0 <= i < |start| && SpreadsheetOwned(c, start[i]) ensures records[i] == start[i] {
        NoWishForKey(c.h, c.rules, rows, KeyOf(c.keyField, start[i]).value);
      }
    }
  }

  lemma OwnedMembers(c: SyncConfig, records: seq<Record>)
    ensures forall i :: 0 <= i < |records| && SpreadsheetOwned(c, records[i]) ==>
            KeyOf(c.keyField, records[i]).value in OwnedIn(c, records)
  {
  }

  /** A row that a later run leaves out has been settled by an earlier one. */
  lemma {:induction false} LeftOutIsSettled(c: SyncConfig, p: ParsedSources, s: Setting, start: seq<Record>,
      startId: nat,
      records: seq<Record>, nextId: nat, index: map<string, IndexItem>,
      row: SourceRow)
    requires s.keyField == c.keyField && SettingOk(s) && RowsOk(c.h, s, RowsToSync(c, p, start))
    requires TableOk(s, start, startId) && TableOk(s, records, nextId)
    requires Between(s, WishesOf(c.h, c.rules, RowsToSync(c, p, start)), start, records)
    requires IsIndexOf(index, KeysOf(s.keyField, records), records)
    requires row in RowsToSync(c, p, start) && row.key in LeftOut(c, records)
    ensures row.key in index && Diff(c.h, c.rules, index[row.key].fields, row.fields) == map[]
  {
    hide KeyOf, SourceIs, RowsToSync, WishesOf, WishFor, IsCreatedFor, RowOk, WishOk, SettingOk, Diff, Target;
    var rows, keys := RowsToSync(c, p, start), KeysOf(s.keyField, records);
    var wishes := WishesOf(c.h, c.rules, rows);
    RowsAvoidLeftOut(c, p, start);
    RowWishesOk(c.h, c.rules, s, rows);
    WishForRow(c.h, c.rules, rows, row);
    var i :| 0 <= i < |records| && SpreadsheetOwned(c, records[i]) && KeyOf(c.keyField, records[i]).value == row.key;
    assert keys[i] == Some(row.key) && row.key in KeySet(keys);
    OwnedMembers(c, start);
    if i < |start| {
      TargetIdempotent(s, wishes, start[i]);
    } else {
      CreatedIsTarget(s, wishes, KeySet(KeysOf(s.keyField, start)), records[i]);
    }
    SettledRecord(s, wishes, WishOf(c.h, c.rules, row), records[i]);
  }

  lemma {:induction false} SettledRecord(s: Setting, wishes: seq<Wish>, w: Wish, r: Record)
    requires WishesOk(s, wishes) && FieldsOf(r).Keys <= s.columns && Target(s, wishes, r) == r
    requires KeyOf(s.keyField, r) == Some(w.key) && WishFor(wishes, w.key) == Some(w)
    ensures w.change(FieldsOf(r)) == map[]
  {
    hide KeyOf, WishOk, ChangesOk, Synced, WishFor;
    KeyedIsObject(s.keyField, r);
    UnchangedMeansSettled(s, FieldsOf(r), w);
  }

  /** So a later run plans as if it had taken the rows of the first one. */
  lemma {:induction false} LaterPlanIsTheSame(c: SyncConfig, p: ParsedSources, s: Setting, start: seq<Record>,
      startId: nat,
      records: seq<Record>, nextId: nat, index: map<string, IndexItem>)
    requires s.keyField == c.keyField && SettingOk(s) && RowsOk(c.h, s, RowsToSync(c, p, start))
    requires TableOk(s, start, startId) && TableOk(s, records, nextId)
    requires Between(s, WishesOf(c.h, c.rules, RowsToSync(c, p, start)), start, records)
    requires IsIndexOf(index, KeysOf(s.keyField, records), records)
    ensures PlanFor(index, WishesOf(c.h, c.rules, RowsToSync(c, p, records)))
         == PlanFor(index, WishesOf(c.h, c.rules, RowsToSync(c, p, start)))
  {
    hide KeyOf, RowsToSync, WishesOf, PlanFor, Between, TableOk, RowsOk, SettingOk, IsIndexOf, Diff, LeftOut, Merged;
    RowsAvoidLeftOut(c, p, start);
    RowsAvoidLeftOut(c, p, records);
    LeftOutGrows(c, p, s, start, records);
    WithoutMoreRows(Merged(c, p), LeftOut(c, start), LeftOut(c, records));
    var rows, dropped := RowsToSync(c, p, start), LeftOut(c, records);
    forall row | row in rows && row.key in dropped
      ensures row.key in index && Diff(c.h, c.rules, index[row.key].fields, row.fields) == map[]
    {
      LeftOutIsSettled(c, p, s, start, startId, records, nextId, index, row);
    }
    PlanWithoutSettled(c.h, c.rules, index, rows, dropped);
  }

  lemma {:induction false} LaterRunIsTheSame(c: SyncConfig, p: ParsedSources, s: Setting, start: TableState,
      a: TableState,
      b: TableState)
    requires s.keyField == c.keyField && SettingOk(s) && RowsOk(c.h, s, RowsToSync(c, p, start.records))
    requires TableOk(s, start.records, start.nextId) && TableOk(s, a.records, a.nextId)
    requires Between(s, WishesOf(c.h, c.rules, RowsToSync(c, p, start.records)), start.records, a.records)
    ensures var now, first := WishesOf(c.h, c.rules, RowsToSync(c, p, a.records)),
            WishesOf(c.h, c.rules, RowsToSync(c, p, start.records));
            && (InterruptedRun(s, now, a, b) ==> InterruptedRun(s, first, a, b))
            && (CompleteRun(s, now, a, b) ==> CompleteRun(s, first, a, b))
  {
    hide RowsToSync, WishesOf, PlanFor, Between, TableOk, RowsOk, SettingOk, IsIndexOf, KeysDistinct, KeyOf,
      AfterWrites;
    var now, first := WishesOf(c.h, c.rules, RowsToSync(c, p, a.records)),
      WishesOf(c.h, c.rules, RowsToSync(c, p, start.records));
    forall index, m, n | IsRunPart(s, now, a, b, index, m, n) ensures IsRunPart(s, first, a, b, index, m, n) {
      LaterPlanIsTheSame(c, p, s, start.records, start.nextId, a.records, a.nextId, index);
    }
    if CompleteRun(s, now, a, b) {
      var index :| IsRunPart(s, now, a, b, index, |PlanFor(index, now).updates|, |PlanFor(index, now).creates|);
      LaterPlanIsTheSame(c, p, s, start.records, start.nextId, a.records, a.nextId, index);
      assert IsRunPart(s, first, a, b, index, |PlanFor(index, first).updates|, |PlanFor(index, first).creates|);
    }
  }

  // ---------------------------------------------------------------- the main table

  /** The source column is not the key column. */
  predicate HasOwnSourceColumn(c: SyncConfig) {
    NormalizeFieldName(c.rule.dataSourceField) != NormalizeFieldName(c.keyField)
  }

  /** Rows that stay within the columns and read back. */
  predicate RowsReadBack(h: Host, s: Setting, rows: seq<SourceRow>) {
    forall row :: row in rows ==> row.fields.Keys <= s.columns && FieldsReadBack(h, s, row.fields)
  }

  /** The source has been parsed, and the first run finds a table it can sync. */
  ghost predicate MainOk(c: SyncConfig, p: ParsedSources, s: Setting, start: TableState) {
    && s.keyField == c.keyField && SettingOk(s) && SourcesOk(c, p) && HasOwnSourceColumn(c)
    && RowsReadBack(c.h, s, RowsToSync(c, p, start.records)) && TableOk(s, start.records, start.nextId)
  }

  lemma {:induction false} MainRowsOk(c: SyncConfig, p: ParsedSources, s: Setting, start: TableState)
    requires MainOk(c, p, s, start)
    ensures RowsOk(c.h, s, RowsToSync(c, p, start.records))
  {
    hide RowsToSync, SourcesOk, CarriesKey, FieldsReadBack, NormalizeFieldName, SettingOk, TableOk, Merged, OwnedIn;
    var rows := RowsToSync(c, p, start.records);
    RowsToSyncOk(c, p, start.records);
    forall n | 0 <= n < |rows| ensures RowOk(c.h, s, rows[n]) {
      assert rows[n] in rows;
    }
  }

  function MainStates(states: seq<Tables>): (r: seq<TableState>)
    ensures |r| == |states| && forall k :: 0 <= k < |states| ==> r[k] == states[k].main
  {
    seq(|states|, k requires 0 <= k < |states| => states[k].main)
  }

  /** The runs of a retry, seen from the main table, are runs with the rows of the
      first. */
  lemma {:induction false} MainRunsAreOfOneList(c: SyncConfig, p: ParsedSources, s: Setting, t: Setting,
      states: seq<Tables>,
      n: nat)
    requires n < |states|
    requires forall k :: 0 <= k < |states| - 1 ==> IsRun(c, p, s, t, states[k], states[k + 1], false)
    requires MainOk(c, p, s, states[0].main)
    ensures var wishes := WishesOf(c.h, c.rules, RowsToSync(c, p, states[0].main.records));
            && WishesOk(s, wishes)
            && (forall k :: 0 <= k < n ==> InterruptedRun(s, wishes, states[k].main, states[k + 1].main))
            && TableOk(s, states[n].main.records, states[n].main.nextId)
            && Between(s, wishes, states[0].main.records, states[n].main.records)
  {
    hide RowsToSync, WishesOf, Between, TableOk, RowsOk, SettingOk, InterruptedRun, IsRun, WishesOk, SourcesOk,
      RowsReadBack, HasOwnSourceColumn;
    var rows := RowsToSync(c, p, states[0].main.records);
    var wishes := WishesOf(c.h, c.rules, rows);
    MainRowsOk(c, p, s, states[0].main);
    RowWishesOk(c.h, c.rules, s, rows);
    if n == 0 {
      StartIsBetween(s, wishes, states[0].main.records);
    } else {
      MainRunsAreOfOneList(c, p, s, t, states, n - 1);
      assert IsRun(c, p, s, t, states[n - 1], states[n - 1 + 1], false);
      MainPartOfRun(c, p, s, t, states[n - 1], states[n], false);
      LaterRunIsTheSame(c, p, s, states[0].main, states[n - 1].main, states[n].main);
      var mains := MainStates(states[..n + 1]);
      forall k | 0 <= k < n ensures InterruptedRun(s, wishes, mains[k], mains[k + 1]) {
        assert mains[k] == states[k].main && mains[k + 1] == states[k + 1].main;
      }
      InterruptedRunsStayBetween(s, wishes, mains, n);
    }
  }

  /** Crash and retry for the main table, whichever rows each run takes from it: the
      outcome is that of one undisturbed run, records of other keys are as they were, no
      key is held twice, and the next run has nothing to write. */
  lemma {:induction false} MainTableConverges(c: SyncConfig, p: ParsedSources, s: Setting, t: Setting,
      states: seq<Tables>,
      last: Tables)
    requires IsRetry(c, p, s, t, states, last) && MainOk(c, p, s, states[0].main)
    ensures var wishes := WishesOf(c.h, c.rules, RowsToSync(c, p, states[0].main.records));
            MainConverged(c, p, s, wishes, states[0].main, last.main)
  {
    hide RowsToSync, WishesOf, Between, RowsOk, SettingOk, InterruptedRun, CompleteRun, IsRun, WishesOk, KeyOf,
      FieldsAt, Outcome, PlanFor, IsIndexOf, Finished, KeySet, IsSourceKey, SourcesOk, RowsReadBack, HasOwnSourceColumn;
    MainRowsOk(c, p, s, states[0].main);
    var start, a := states[0].main, states[|states| - 1].main;
    var rows := RowsToSync(c, p, start.records);
    var wishes := WishesOf(c.h, c.rules, rows);
    MainRunsAreOfOneList(c, p, s, t, states, |states| - 1);
    MainPartOfRun(c, p, s, t, states[|states| - 1], last, true);
    LaterRunIsTheSame(c, p, s, start, a, last.main);
    var mains := MainStates(states);
    assert mains[0] == start && mains[|mains| - 1] == a;
    CrashRetryConverges(s, wishes, mains, last.main);
    FinishedTable(s, wishes, start.records, start.nextId, last.main.records);
    FinishedIsBetween(s, wishes, start.records, last.main.records);
    forall index | IsIndexOf(index, KeysOf(s.keyField, last.main.records), last.main.records)
      ensures PlanFor(index, WishesOf(c.h, c.rules, RowsToSync(c, p, last.main.records))) == Plan([], [])
    {
      LaterPlanIsTheSame(c, p, s, start.records, start.nextId, last.main.records, last.main.nextId, index);
    }
  }

  lemma FinishedIsBetween(s: Setting, wishes: seq<Wish>, start: seq<Record>, records: seq<Record>)
    requires Finished(s, wishes, start, records)
    ensures Between(s, wishes, start, records)
  {
  }

  ghost predicate MainConverged(c: SyncConfig, p: ParsedSources, s: Setting, wishes: seq<Wish>, start: TableState,
      last: TableState) {
    && (forall key :: FieldsAt(s.keyField, last.records, key) == Outcome(s, wishes, start.records, key))
    && KeysDistinct(KeysOf(s.keyField, last.records))
    && KeySet(KeysOf(s.keyField, last.records)) == KeySet(KeysOf(s.keyField, start.records)) + SourceKeys(wishes)
    && |start.records| <= |last.records|
    && (forall i :: 0 <= i < |start.records| && !IsSourceKey(wishes, KeyOf(s.keyField, start.records[i])) ==>
          last.records[i] == start.records[i])
    && (forall index :: IsIndexOf(index, KeysOf(s.keyField, last.records), last.records) ==>
          PlanFor(index, WishesOf(c.h, c.rules, RowsToSync(c, p, last.records))) == Plan([], []))
  }
}
