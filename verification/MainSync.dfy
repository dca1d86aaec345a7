/** The main table sync converges: source rows are wishes that settle. */
module MainSync {
  import opened Wrappers
  import opened Text
  import opened Json
  import opened CellValues
  import opened TargetTable
  import opened TableIndex
  import opened MainPlan
  import opened Convergence

  /** No two columns of the table are spellings of one name. */
  predicate SettingOk(s: Setting) {
    NamesInjective(s.columns)
  }

  /** What was written reads back as an equal value, and in the key column as the
      same key. */
  predicate CellReadsBack(h: Host, s: Setting, name: string, v: Value) {
    && SemanticEqual(h, s.store(name, v), v)
    && (NormalizeFieldName(name) == NormalizeFieldName(s.keyField) ==> KeyString(s.store(name, v)) == KeyString(v))
  }

  predicate FieldsReadBack(h: Host, s: Setting, fields: Fields) {
    forall n :: n in fields ==> CellReadsBack(h, s, n, fields[n])
  }

  /** A row that carries its key, stays within the columns and reads back. */
  predicate RowOk(h: Host, s: Setting, row: SourceRow) {
    CarriesKey(s.keyField, row) && row.fields.Keys <= s.columns && FieldsReadBack(h, s, row.fields)
  }

  predicate RowsOk(h: Host, s: Setting, rows: seq<SourceRow>) {
    RowKeysDistinct(rows) && forall n :: 0 <= n < |rows| ==> RowOk(h, s, rows[n])
  }

  // ----------------------------------------------------------- one record, one row

  function Updated(h: Host, rules: FieldValueRules, store: CellStore, current: Fields, wanted: Fields): Fields {
    MergeFields(store, current, Diff(h, rules, current, wanted))
  }

  /** After an update the row's fields have nothing left to write. */
  lemma {:induction false} UpdatedNeedsNoWrite(h: Host, rules: FieldValueRules, s: Setting, current: Fields,
      wanted: Fields, n: string)
    requires SettingOk(s) && current.Keys <= s.columns && wanted.Keys <= s.columns
    requires FieldsReadBack(h, s, wanted) && n in wanted
    ensures !NeedsWrite(h, rules, Updated(h, rules, s.store, current, wanted), n, wanted[n])
  {
    hide FindField, NormalizeFieldName, SemanticEqual, KeyString;
    var changed := Diff(h, rules, current, wanted);
    var after := Updated(h, rules, s.store, current, wanted);
    FindInColumns(s, current, n);
    FindInColumns(s, after, n);
    if n in changed {
      assert CellReadsBack(h, s, n, wanted[n]);
    }
  }

  /** Among the columns of the table a name is found only as itself. */
  lemma {:induction false} FindInColumns(s: Setting, fields: Fields, n: string)
    requires NamesInjective(s.columns) && fields.Keys <= s.columns && n in s.columns
    ensures FindField(fields, n) == if n in fields then Some(fields[n]) else None
  {
    hide NormalizeFieldName;
    if n in fields {
      FindOnlyAlias(fields, n, n);
    }
  }

  lemma {:induction false} UpdatedIsSettled(h: Host, rules: FieldValueRules, s: Setting, current: Fields,
      wanted: Fields)
    requires SettingOk(s) && current.Keys <= s.columns && wanted.Keys <= s.columns && FieldsReadBack(h, s, wanted)
    ensures Diff(h, rules, Updated(h, rules, s.store, current, wanted), wanted) == map[]
  {
    hide NeedsWrite, SettingOk, Updated, FieldsReadBack;
    forall n | n in wanted ensures !NeedsWrite(h, rules, Updated(h, rules, s.store, current, wanted), n, wanted[n]) {
      UpdatedNeedsNoWrite(h, rules, s, current, wanted, n);
    }
  }

  /** A created record has nothing left to write exactly when its cells read back as
      equal values; a cell that does not is written again by every run. */
  lemma {:induction false} StoredSettlesExactly(h: Host, rules: FieldValueRules, s: Setting, wanted: Fields)
    requires SettingOk(s) && wanted.Keys <= s.columns
    ensures Diff(h, rules, StoreFields(s.store, wanted), wanted) == map[]
       <==> forall n :: n in wanted && !rules.ShouldSkip(n) ==> SemanticEqual(h, s.store(n, wanted[n]), wanted[n])
  {
    hide FindField, NormalizeFieldName, SemanticEqual;
    var after := StoreFields(s.store, wanted);
    var changed := Diff(h, rules, after, wanted);
    forall n | n in wanted
      ensures n in changed <==> !rules.ShouldSkip(n) && !SemanticEqual(h, s.store(n, wanted[n]), wanted[n])
    {
      FindInColumns(s, after, n);
    }
    assert changed == map[] <==> forall n :: n !in changed;
  }

  /** The column in which fields with a key keep it. */
  lemma KeyColumn(s: Setting, fields: Fields) returns (alias: string)
    requires FindField(fields, s.keyField).Some?
    ensures alias in fields && NormalizeFieldName(alias) == NormalizeFieldName(s.keyField)
    ensures FindField(fields, s.keyField) == Some(fields[alias])
  {
    alias := Least(Aliases(fields, s.keyField));
  }

  /** An update keeps the key, a created record has it. */
  lemma {:induction false} UpdatedKeepsKey(h: Host, rules: FieldValueRules, s: Setting, current: Fields, row: SourceRow)
    requires SettingOk(s) && current.Keys <= s.columns && RowOk(h, s, row)
    requires FieldKey(s.keyField, current) == Some(row.key)
    ensures FieldKey(s.keyField, Updated(h, rules, s.store, current, row.fields)) == Some(row.key)
  {
    hide NormalizeFieldName, SemanticEqual, Diff, KeyString, FindField;
    var after := Updated(h, rules, s.store, current, row.fields);
    var a := KeyColumn(s, current);
    var b := KeyColumn(s, row.fields);
    assert a == b;
    FindOnlyAlias(after, s.keyField, a);
    assert CellReadsBack(h, s, a, row.fields[a]);
  }

  lemma {:induction false} StoredCarriesKey(h: Host, s: Setting, row: SourceRow)
    requires SettingOk(s) && RowOk(h, s, row)
    ensures FieldKey(s.keyField, StoreFields(s.store, row.fields)) == Some(row.key)
  {
    hide NormalizeFieldName, SemanticEqual, KeyString, FindField;
    var a := KeyColumn(s, row.fields);
    FindOnlyAlias(StoreFields(s.store, row.fields), s.keyField, a);
    assert CellReadsBack(h, s, a, row.fields[a]);
  }

  /** So every well-formed row is a wish that settles. */
  lemma {:induction false} RowWishOk(h: Host, rules: FieldValueRules, s: Setting, row: SourceRow)
    requires SettingOk(s) && RowOk(h, s, row)
    ensures WishOk(s, WishOf(h, rules, row))
  {
    hide FieldKey, CarriesKey, Diff, SettingOk, SemanticEqual, KeyString, NormalizeFieldName;
    var w := WishOf(h, rules, row);
    StoredSettlesExactly(h, rules, s, row.fields);
    assert forall n :: n in row.fields ==> CellReadsBack(h, s, n, row.fields[n]);
    StoredCarriesKey(h, s, row);
    forall current: Fields | current.Keys <= s.columns ensures ChangesOk(s, w, current) {
      UpdatedIsSettled(h, rules, s, current, row.fields);
      if FieldKey(s.keyField, current) == Some(row.key) {
        UpdatedKeepsKey(h, rules, s, current, row);
      }
    }
  }

  lemma {:induction false} RowWishesOk(h: Host, rules: FieldValueRules, s: Setting, rows: seq<SourceRow>)
    requires SettingOk(s) && RowsOk(h, s, rows)
    ensures WishesOk(s, WishesOf(h, rules, rows))
  {
    hide WishOk, RowOk, SettingOk, WishesOf;
    var wishes := WishesOf(h, rules, rows);
    forall n | 0 <= n < |wishes| ensures WishOk(s, wishes[n]) && wishes[n].key == rows[n].key {
      WishesOfAt(h, rules, rows, n);
      RowWishOk(h, rules, s, rows[n]);
    }
  }

  // -------------------------------------------------------- when names are not unique

  /** Each name of the row finds, first among its spellings in the row itself,
      an equal value. */
  predicate AgreesWithItself(h: Host, rules: FieldValueRules, wanted: Fields) {
    forall n :: n in wanted ==> !NeedsWrite(h, rules, wanted, n, wanted[n])
  }

  /** Without the assumption on names, a created record that reads back has nothing
      left to write exactly when its row agrees with itself. */
  lemma SpellingsSettleExactly(h: Host, rules: FieldValueRules, s: Setting, wanted: Fields)
    requires FieldsReadBack(h, s, wanted)
    ensures Diff(h, rules, StoreFields(s.store, wanted), wanted) == map[] <==> AgreesWithItself(h, rules, wanted)
  {
    var after := StoreFields(s.store, wanted);
    forall n | n in wanted
      ensures NeedsWrite(h, rules, after, n, wanted[n]) == NeedsWrite(h, rules, wanted, n, wanted[n])
    {
      assert Aliases(after, n) == Aliases(wanted, n);
      if Aliases(wanted, n) != {} {
        var first := Least(Aliases(wanted, n));
        assert CellReadsBack(h, s, first, wanted[first]);
      }
    }
    var changed := Diff(h, rules, after, wanted);
    assert changed == map[] <==> forall n :: n !in changed;
  }

  /** A row with two spellings of one column and different values is never
      settled: every run writes the record again. */
  lemma {:induction false} TwoSpellingsNeverSettle(h: Host, rules: FieldValueRules, s: Setting,
      first: string, second: string, v: Value, w: Value)
    requires FieldsReadBack(h, s, map[first := v, second := w]) && !rules.ShouldSkip(second)
    requires first != second && NormalizeFieldName(first) == NormalizeFieldName(second)
    requires LessEq(first, second) && !SemanticEqual(h, v, w)
    ensures Diff(h, rules, StoreFields(s.store, map[first := v, second := w]), map[first := v, second := w]) != map[]
  {
    hide FindField, StoreFields, SemanticEqual, NormalizeFieldName, FieldsReadBack;
    var wanted: Fields := map[first := v, second := w];
    SpellingsSettleExactly(h, rules, s, wanted);
    FirstSpellingFound(first, second, v, w);
    assert NeedsWrite(h, rules, wanted, second, wanted[second]);
  }

  lemma {:induction false} FirstSpellingFound(first: string, second: string, v: Value, w: Value)
    requires first != second && NormalizeFieldName(first) == NormalizeFieldName(second)
    requires LessEq(first, second)
    ensures FindField(map[first := v, second := w], second) == Some(v)
  {
    hide NormalizeFieldName, LessEq;
    var wanted: Fields := map[first := v, second := w];
    assert Aliases(wanted, second) == {first, second};
    LessEqReflexive(first);
    assert IsLeast(first, {first, second});
    LeastUnique({first, second});
  }

  /** Such a pair of names exists. */
  lemma SpellingsOfA()
    ensures "A" != "a" && NormalizeFieldName("A") == NormalizeFieldName("a") && LessEq("A", "a")
  {
    TrimFixedPoint("A");
    TrimFixedPoint("a");
    assert DropFillers("A") == "A" && DropFillers("a") == "a";
    assert Lower("A") == "a" && Lower("a") == "a";
  }

  // ------------------------------------------------------------- how cells read back

  /** Text that Feishu hands back as one text segment, everything else as it is. */
  function TextSegmentStore(name: string, v: Value): Value {
    if v.Str? then Arr([TextSegment(v.s)]) else v
  }

  /** Then every row reads back. */
  lemma {:induction false} OneSegmentStoreReadsBack(h: Host, s: Setting, fields: Fields)
    requires s.store == TextSegmentStore
    ensures FieldsReadBack(h, s, fields)
  {
    hide SemanticEqual, PlainString, TextSegment, NormalizeFieldName;
    forall n | n in fields ensures CellReadsBack(h, s, n, fields[n]) {
      if fields[n].Str? {
        OneSegmentReadsBack(h, fields[n].s);
      } else {
        SemanticEqualReflexive(h, fields[n]);
      }
    }
  }

  lemma SemanticEqualReflexive(h: Host, v: Value)
    ensures SemanticEqual(h, v, v)
  {
  }

  /** Text handed back in two segments, cut after a blank, does not read back: every
      run writes it again. */
  lemma {:induction false} CutAtBlankNeverSettles(h: Host, rules: FieldValueRules, s: Setting, name: string, a: string,
      b: string)
    requires SettingOk(s) && name in s.columns && !rules.ShouldSkip(name)
    requires a != [] && b != [] && IsClean(a + b) && IsClean(a + " " + b)
    requires ParseNumber(h, a + b).None? && ParseNumber(h, a + " " + b).None?
    requires s.store(name, Str(a + " " + b)) == Arr([TextSegment(a + " "), TextSegment(b)])
    ensures var wanted: Fields := map[name := Str(a + " " + b)];
            Diff(h, rules, StoreFields(s.store, wanted), wanted) != map[]
  {
    hide SemanticEqual, TextSegment, IsClean, ParseNumber, Diff, StoreFields, SettingOk, NormalizeFieldName;
    var wanted: Fields := map[name := Str(a + " " + b)];
    BlankAtBorderDiffers(h, a, b);
    StoredSettlesExactly(h, rules, s, wanted);
    assert name in wanted && !SemanticEqual(h, s.store(name, wanted[name]), wanted[name]);
  }
}
