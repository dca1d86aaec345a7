/** Source rows and the plan that brings the main table to them
    (src/pipeline/sync.rs). */
module MainPlan {
  import opened Wrappers
  import opened Text
  import opened Json
  import opened CellValues
  import opened TargetTable
  import opened TableIndex
  import opened Upsert

  datatype SourceRow = SourceRow(key: string, fields: Fields)

  predicate RowKeysDistinct(rows: seq<SourceRow>) {
    forall i, j :: 0 <= i < j < |rows| ==> rows[i].key != rows[j].key
  }

  /** The key of a row is the one its own fields carry. */
  predicate CarriesKey(keyField: string, row: SourceRow) {
    FindField(row.fields, keyField).Some?
    && KeyString(FindField(row.fields, keyField).value) == Some(row.key)
  }

  function RowFor(rows: seq<SourceRow>, key: string): (row: Option<SourceRow>)
    ensures row.Some? ==> row.value in rows && row.value.key == key
  {
    if rows == [] then None
    else if rows[0].key == key then Some(rows[0])
    else RowFor(rows[1..], key)
  }

  lemma {:induction false} RowForOwnKey(rows: seq<SourceRow>, n: nat)
    requires RowKeysDistinct(rows) && n < |rows|
    ensures RowFor(rows, rows[n].key) == Some(rows[n])
  {
    if n > 0 {
      assert rows[0].key != rows[n].key;
      assert RowKeysDistinct(rows[1..]);
      RowForOwnKey(rows[1..], n - 1);
    }
  }

  // ------------------------------------------------------------------- the diff

  /** Whether writing `v` under `name` would change the record. */
  predicate Differs(h: Host, current: Fields, name: string, v: Value) {
    var found := FindField(current, name);
    found.None? || !SemanticEqual(h, found.value, v)
  }

  predicate NeedsWrite(h: Host, rules: FieldValueRules, current: Fields, name: string, v: Value) {
    !rules.ShouldSkip(name) && Differs(h, current, name, v)
  }

  function Keep(fields: Fields, names: set<string>, keep: string -> bool): Fields {
    map n | n in names && n in fields && keep(n) :: fields[n]
  }

  function ChangeTest(h: Host, rules: FieldValueRules, current: Fields, wanted: Fields): string -> bool {
    n => n in wanted && NeedsWrite(h, rules, current, n, wanted[n])
  }

  /** The fields an update has to write. */
  function Diff(h: Host, rules: FieldValueRules, current: Fields, wanted: Fields): (changed: Fields)
    ensures forall n :: n in changed <==> n in wanted && NeedsWrite(h, rules, current, n, wanted[n])
    ensures forall n :: n in changed ==> changed[n] == wanted[n]
  {
    Keep(wanted, wanted.Keys, ChangeTest(h, rules, current, wanted))
  }

  lemma KeepNone(fields: Fields, keep: string -> bool)
    ensures Keep(fields, {}, keep) == map[]
  {
  }

  lemma KeepOne(fields: Fields, names: set<string>, keep: string -> bool, name: string)
    requires name in fields && name !in names
    ensures Keep(fields, names + {name}, keep)
         == if keep(name) then Keep(fields, names, keep)[name := fields[name]] else Keep(fields, names, keep)
  {
  }

  /** A field is left out of an update exactly when it is to be skipped or the record has
      an equal value under the first spelling of its name. */
  lemma {:induction false} WriteNeeded(h: Host, rules: FieldValueRules, current: Fields, name: string, v: Value)
    ensures !NeedsWrite(h, rules, current, name, v) <==>
              || NormalizeFieldName(name) in rules.skipFields
              || (Aliases(current, name) != {}
                  && SemanticEqual(h, current[Least(Aliases(current, name))], v))
  {
    hide NormalizeFieldName, SemanticEqual;
  }

  /** `diff_fields` */
  method DiffFields(h: Host, rules: FieldValueRules, current: Fields, wanted: Fields) returns (changed: Fields)
    ensures changed == Diff(h, rules, current, wanted)
    ensures forall n :: n in changed ==> n in wanted && changed[n] == wanted[n]
    ensures forall n :: n in wanted ==>
              (n !in changed <==>
                || NormalizeFieldName(n) in rules.skipFields
                || (Aliases(current, n) != {}
                    && SemanticEqual(h, current[Least(Aliases(current, n))], wanted[n])))
  {
    hide NeedsWrite, Keep, NormalizeFieldName, SemanticEqual;
    changed := map[];
    KeepNone(wanted, ChangeTest(h, rules, current, wanted));
    var left := wanted.Keys;
    ghost var done: set<string> := {};
    ghost var keep := ChangeTest(h, rules, current, wanted);
    while left != {}
      invariant left + done == wanted.Keys && left !! done
      invariant changed == Keep(wanted, done, keep)
      decreases left
    {
      var name :| name in left;
      KeepOne(wanted, done, keep, name);
      left, done := left - {name}, done + {name};
      if NeedsWrite(h, rules, current, name, wanted[name]) {
        changed := changed[name := wanted[name]];
      }
    }
    assert done == wanted.Keys;
    forall n | n in wanted { WriteNeeded(h, rules, current, n, wanted[n]); }
  }

  // ------------------------------------------------------------------- the plan

  /** A row asks its record to take over the fields that differ. */
  function WishOf(h: Host, rules: FieldValueRules, row: SourceRow): Wish {
    Wish(row.key, row.fields, current => Diff(h, rules, current, row.fields))
  }

  function WishesOf(h: Host, rules: FieldValueRules, rows: seq<SourceRow>): (wishes: seq<Wish>)
    ensures |wishes| == |rows|
  {
    if rows == [] then [] else WishesOf(h, rules, rows[..|rows| - 1]) + [WishOf(h, rules, rows[|rows| - 1])]
  }

  lemma {:induction false} WishesOfAt(h: Host, rules: FieldValueRules, rows: seq<SourceRow>, n: nat)
    requires n < |rows|
    ensures WishesOf(h, rules, rows)[n] == WishOf(h, rules, rows[n])
  {
    if n < |rows| - 1 { WishesOfAt(h, rules, rows[..|rows| - 1], n); }
  }

  lemma WishesOfFirst(h: Host, rules: FieldValueRules, rows: seq<SourceRow>, n: nat)
    requires n < |rows|
    ensures WishesOf(h, rules, rows[..n + 1]) == WishesOf(h, rules, rows[..n]) + [WishOf(h, rules, rows[n])]
  {
    assert rows[..n + 1][..n] == rows[..n];
  }

  lemma NoWishes(index: map<string, IndexItem>, h: Host, rules: FieldValueRules)
    ensures WishesOf(h, rules, []) == [] && PlanUpdates(index, []) == [] && PlanCreates(index, []) == []
  {
  }

  /** `build_upsert_plan` */
  method BuildUpsertPlan(h: Host, rules: FieldValueRules, index: map<string, IndexItem>, rows: seq<SourceRow>)
    returns (plan: Plan)
    ensures plan == PlanFor(index, WishesOf(h, rules, rows))
  {
    hide Diff, PlanUpdates, PlanCreates, WishesOf;
    NoWishes(index, h, rules);
    var creates: seq<CreateItem> := [];
    var updates: seq<UpdateItem> := [];
    for n := 0 to |rows|
      invariant creates == PlanCreates(index, WishesOf(h, rules, rows[..n]))
      invariant updates == PlanUpdates(index, WishesOf(h, rules, rows[..n]))
    {
      var row := rows[n];
      WishesOfFirst(h, rules, rows, n);
      PlanStep(index, WishesOf(h, rules, rows[..n]), WishOf(h, rules, row));
      if row.key in index {
        var existing := index[row.key];
        var changed := DiffFields(h, rules, existing.fields, row.fields);
        if changed != map[] {
          updates := updates + [UpdateItem(existing.id, changed)];
        }
      } else {
        creates := creates + [CreateItem(row.fields)];
      }
    }
    assert rows[..|rows|] == rows;
    plan := Plan(creates, updates);
  }
}
