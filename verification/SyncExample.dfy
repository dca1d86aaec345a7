/** A source, tables and settings that meet every assumption of the convergence theorems,
    whatever the manual mark is. */
module SyncExample {
  import opened Wrappers
  import opened Text
  import opened Json
  import opened CellValues
  import opened TableIndex
  import opened MainPlan
  import opened MergedRows
  import opened Convergence
  import opened MainSync
  import opened AuditTable
  import opened SyncSources
  import opened TableRuns
  import opened AuditRuns

  /** A store that hands back what was written. */
  function SameStore(name: string, v: Value): Value {
    v
  }

  function ExampleRules(): FieldValueRules {
    FieldValueRules({}, {"k"}, {}, {}, {})
  }

  /** A manual-only sync of the key column "k", with the source in "d" and the result of the
      audit in "r"; the spreadsheet's mark is "s". */
  function ExampleConfig(h: Host, mark: string): SyncConfig {
    SyncConfig(h, ExampleRules(), "k", ManualOnly, SyncRule("d", "s", mark, true, true, "ok", "r"), true, true)
  }

  function ExampleRow(): SourceRow {
    SourceRow("1", map["k" := Str("1")])
  }

  function MainExample(): Setting {
    Setting("k", {"k", "d"}, SameStore)
  }

  function AuditExample(): Setting {
    Setting("k", {"k", "r"}, SameStore)
  }

  lemma {:induction false} LetterIsNormal(c: char)
    requires 'a' <= c <= 'z'
    ensures NormalizeFieldName([c]) == [c]
  {
    TrimFixedPoint([c]);
    assert DropFillers([c]) == [c];
    assert Lower([c]) == [c];
  }

  lemma OneIsItsKey()
    ensures KeyString(Str("1")) == Some("1")
  {
    UnspacedTextIsClean("1");
    TrimFixedPoint("1");
    assert DropFillers("1") == "1";
  }

  lemma ExampleNames()
    ensures NormalizeFieldName("k") == "k" && NormalizeFieldName("d") == "d" && NormalizeFieldName("r") == "r"
  {
    LetterIsNormal('k');
    LetterIsNormal('d');
    LetterIsNormal('r');
  }

  lemma {:induction false} ExampleRowCarriesKey()
    ensures CarriesKey("k", ExampleRow())
  {
    hide NormalizeFieldName, KeyString;
    ExampleNames();
    OneIsItsKey();
    assert NamesInjective({"k"});
    assert ExampleRow().fields.Keys == {"k"};
    FindOnlyAlias(ExampleRow().fields, "k", "k");
  }

  /** The only row of a run on an empty main table. */
  lemma {:induction false} ExampleRows(h: Host, mark: string)
    ensures var c, p := ExampleConfig(h, mark), ParsedSources([], [ExampleRow()]);
            RowsToSync(c, p, []) == [WithSource(ExampleRow(), "d", mark)]
  {
    hide KeyOf, SourceIs;
    var c, p := ExampleConfig(h, mark), ParsedSources([], [ExampleRow()]);
    var row := WithSource(ExampleRow(), "d", mark);
    assert AllWithSource([ExampleRow()], "d", mark) == [row];
    assert AllWithSource([], "d", "s") == [];
    assert [row][..0] == [] && MergeAll([], [], true) == [] && LastPosition([], "1").None?;
    assert MergeAll([], [row], true) == [row];
    assert Merged(c, p) == [row];
    assert OwnedIn(c, []) == {};
    assert WithoutRows([row], {}) == [row];
  }

  lemma {:induction false} ExampleReadsBack(h: Host, fields: Fields)
    ensures FieldsReadBack(h, MainExample(), fields)
  {
    hide SemanticEqual, KeyString, NormalizeFieldName;
    forall n | n in fields ensures CellReadsBack(h, MainExample(), n, fields[n]) {
      SemanticEqualReflexive(h, fields[n]);
    }
  }

  lemma {:induction false} ExampleMainOk(h: Host, mark: string)
    ensures MainOk(ExampleConfig(h, mark), ParsedSources([], [ExampleRow()]), MainExample(), TableState([], 0))
    ensures MarkReadsBack(ExampleConfig(h, mark), MainExample())
  {
    hide NormalizeFieldName, PlainString, CarriesKey, RowsToSync, FieldsReadBack, KeyOf;
    ExampleNames();
    ExampleRowCarriesKey();
    ExampleRows(h, mark);
    ExampleReadsBack(h, WithSource(ExampleRow(), "d", mark).fields);
    assert SettingOk(MainExample());
  }

  lemma {:induction false} ExampleAuditOk(h: Host, mark: string)
    ensures AuditOk(ExampleConfig(h, mark), AuditExample()) && TableOk(AuditExample(), [], 0)
  {
    hide NormalizeFieldName, PlainString, IsPlainText, KeyOf;
    ExampleNames();
    OkIsPlain();
    assert SettingOk(AuditExample());
    assert ExampleRules().ValueKind("k") == FieldValueKind.Text;
  }

  /** The assumptions can be met together, with a row to sync, both when the marks clash and
      when they do not. */
  lemma {:induction false} AssumptionsCanBeMet(h: Host, mark: string)
    ensures var c, p := ExampleConfig(h, mark), ParsedSources([], [ExampleRow()]);
            && MainOk(c, p, MainExample(), TableState([], 0)) && MarkReadsBack(c, MainExample())
            && AuditOk(c, AuditExample()) && KeysReadBack(AuditExample(), RowsToSync(c, p, []))
            && TableOk(AuditExample(), [], 0) && Accepted(MainExample(), []) && Accepted(AuditExample(), [])
            && RowsToSync(c, p, []) != []
    ensures mark == "s" ==> MarksClash(ExampleConfig(h, mark))
    ensures mark == "m" ==> !MarksClash(ExampleConfig(h, mark))
  {
    hide KeyOf, KeyString, RowsToSync, MainOk, AuditOk, MarkReadsBack, MarksClash;
    ExampleMainOk(h, mark);
    ExampleAuditOk(h, mark);
    ExampleRows(h, mark);
    ExampleClashes(h, mark);
  }

  lemma OkIsPlain()
    ensures IsPlainText("ok")
  {
    UnspacedTextIsClean("ok");
  }

  lemma ExampleClashes(h: Host, mark: string)
    ensures mark == "s" ==> MarksClash(ExampleConfig(h, mark))
    ensures mark == "m" ==> !MarksClash(ExampleConfig(h, mark))
  {
    UnspacedTextIsClean("s");
    UnspacedTextIsClean("m");
    TrimFixedPoint("s");
  }
}
