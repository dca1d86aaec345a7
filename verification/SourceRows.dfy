/** From sheet rows and manual records to source rows (src/pipeline/sync.rs). */
module SourceRows {
  import opened Wrappers
  import opened Text
  import opened Json
  import opened CellValues
  import opened TargetTable
  import opened TableIndex
  import opened MainPlan

  datatype ParseError =
    | EmptySheet
    | BadHeader(column: nat)
    | NoKeyColumn
    | MissingKey(row: nat)
    | DuplicateRow(key: string, firstRow: nat, secondRow: nat)
    | DuplicateRecord(key: string, firstId: nat, secondId: nat)

  // -------------------------------------------------------------------- sheet rows

  function HeaderOf(v: Value): Option<string> {
    if v.Str? then NonEmpty(Trim(v.s)) else None
  }

  /** `parse_headers` */
  method ParseHeaders(header: seq<Value>) returns (r: Result<seq<string>, ParseError>)
    ensures r.Ok? <==> forall c :: 0 <= c < |header| ==> header[c].Str? && Trim(header[c].s) != []
    ensures r.Ok? ==> |r.value| == |header| && forall c :: 0 <= c < |header| ==> r.value[c] == Trim(header[c].s)
    ensures r.Ok? <==> forall c :: 0 <= c < |header| ==> HeaderOf(header[c]).Some?
    ensures r.Ok? ==> |r.value| == |header| && forall c :: 0 <= c < |header| ==> HeaderOf(header[c]) == Some(r.value[c])
    ensures r.Err? ==> exists c :: 0 <= c < |header| && HeaderOf(header[c]).None? && r.error == BadHeader(c + 1)
  {
    hide Trim;
    var headers: seq<string> := [];
    for c := 0 to |header|
      invariant |headers| == c
      invariant forall d :: 0 <= d < c ==> HeaderOf(header[d]) == Some(headers[d])
    {
      var name := HeaderOf(header[c]);
      if name.None? { return Err(BadHeader(c + 1)); }
      headers := headers + [name.value];
    }
    r := Ok(headers);
  }

  /** `is_empty_row` */
  predicate IsEmptyRow(row: seq<Value>) {
    forall c :: 0 <= c < |row| ==> row[c].Null? || (row[c].Str? && Trim(row[c].s) == [])
  }

  /** Nothing but empty cells and whitespace. */
  predicate IsBlankCell(v: Value) {
    v.Null? || (v.Str? && forall i :: 0 <= i < |v.s| ==> IsWhitespace(v.s[i]))
  }

  /** A row is skipped exactly when all its cells are like that. */
  lemma {:induction false} EmptyRowExactly(row: seq<Value>)
    ensures IsEmptyRow(row) <==> forall c :: 0 <= c < |row| ==> IsBlankCell(row[c])
  {
    hide Trim, IsWhitespace;
    forall c | 0 <= c < |row| && row[c].Str?
      ensures Trim(row[c].s) == [] <==> forall i :: 0 <= i < |row[c].s| ==> IsWhitespace(row[c].s[i])
    {
      TrimOfBlank(row[c].s);
    }
  }

  /** What column `c` of a row has to write: null for a skipped column, a missing or
      an empty cell. */
  function CellAt(h: Host, rules: FieldValueRules, headers: seq<string>, row: seq<Value>, c: nat): Value
    requires c < |headers|
  {
    if rules.ShouldSkip(headers[c]) then Null
    else ToWriteValue(h, rules, headers[c], if c < |row| then row[c] else Null)
  }

  /** The fields of the first `n` columns. */
  function RowCells(h: Host, rules: FieldValueRules, headers: seq<string>, row: seq<Value>, n: nat): Fields
    requires n <= |headers|
  {
    if n == 0 then map[]
    else
      var before := RowCells(h, rules, headers, row, n - 1);
      var cell := CellAt(h, rules, headers, row, n - 1);
      if cell.Null? then before else before[headers[n - 1] := cell]
  }

  predicate IsLastCell(h: Host, rules: FieldValueRules, headers: seq<string>, row: seq<Value>, n: nat, name: string,
      c: nat)
    requires c < n <= |headers|
  {
    && headers[c] == name && !CellAt(h, rules, headers, row, c).Null?
    && forall d :: c < d < n && headers[d] == name ==> CellAt(h, rules, headers, row, d).Null?
  }

  /** A field is there exactly when a column of that header has a value, and it has
      the value of the last such column. */
  lemma {:induction false} RowCellsExactly(h: Host, rules: FieldValueRules, headers: seq<string>, row: seq<Value>,
      n: nat, name: string)
    requires n <= |headers|
    ensures var cells := RowCells(h, rules, headers, row, n);
            && (name in cells <==> exists c ::
                 0 <= c < n && headers[c] == name && !CellAt(h, rules, headers, row, c).Null?)
            && (forall c :: 0 <= c < n && IsLastCell(h, rules, headers, row, n, name, c) ==>
                 cells[name] == CellAt(h, rules, headers, row, c))
  {
    hide CellAt;
    if n > 0 {
      RowCellsExactly(h, rules, headers, row, n - 1, name);
    }
  }

  /** With headers that differ, each column has its own field: there exactly when the column
      is not skipped and its cell has a value to write, which the field then holds. */
  lemma {:induction false} RowCellsByColumn(h: Host, rules: FieldValueRules, headers: seq<string>, row: seq<Value>,
      c: nat)
    requires c < |headers| && forall i, j :: 0 <= i < j < |headers| ==> headers[i] != headers[j]
    ensures var cells, name := RowCells(h, rules, headers, row, |headers|), headers[c];
            && (name in cells <==> NormalizeFieldName(name) !in rules.skipFields && c < |row|
                                   && ToWriteValue(h, rules, name, row[c]) != Null)
            && (name in cells ==> cells[name] == ToWriteValue(h, rules, name, row[c]))
  {
    hide RowCells, ToWriteValue, NormalizeFieldName;
    RowCellsExactly(h, rules, headers, row, |headers|, headers[c]);
    NothingToWrite(h, rules, headers[c]);
    assert forall d :: 0 <= d < |headers| && headers[d] == headers[c] ==> d == c;
  }

  lemma {:induction false} NothingToWrite(h: Host, rules: FieldValueRules, name: string)
    ensures ToWriteValue(h, rules, name, Null) == Null
  {
    hide NormalizeFieldName;
  }

  /** The column loop of `parse_sheet_rows`. */
  method CollectCells(h: Host, rules: FieldValueRules, headers: seq<string>, row: seq<Value>) returns (fields: Fields)
    ensures fields == RowCells(h, rules, headers, row, |headers|)
  {
    hide ToWriteValue, NormalizeFieldName;
    fields := map[];
    for c := 0 to |headers|
      invariant fields == RowCells(h, rules, headers, row, c)
    {
      if rules.ShouldSkip(headers[c]) { continue; }
      var raw := if c < |row| then row[c] else Null;
      var cell := ToWriteValue(h, rules, headers[c], raw);
      if !cell.Null? {
        fields := fields[headers[c] := cell];
      }
    }
  }

  /** What a data row stands for: nothing if it is blank, otherwise its fields
      and the key found in them. */
  datatype Parsed = Blank | Keyless | Keyed(row: SourceRow)

  function ParseRow(h: Host, rules: FieldValueRules, headers: seq<string>, keyField: string,
      row: seq<Value>): (p: Parsed)
    ensures p.Keyed? ==> CarriesKey(keyField, p.row)
  {
    if IsEmptyRow(row) then Blank
    else
      var fields := RowCells(h, rules, headers, row, |headers|);
      match FieldKey(keyField, fields)
      case Some(key) => Keyed(SourceRow(key, fields))
      case None => Keyless
  }

  method ParseOneRow(h: Host, rules: FieldValueRules, headers: seq<string>, keyField: string, row: seq<Value>)
      returns (p: Parsed)
    ensures p == ParseRow(h, rules, headers, keyField, row)
    ensures p.Blank? <==> forall c :: 0 <= c < |row| ==> IsBlankCell(row[c])
    ensures p.Keyless? ==> FieldKey(keyField, RowCells(h, rules, headers, row, |headers|)).None?
    ensures p.Keyed? ==> CarriesKey(keyField, p.row) && p.row.fields == RowCells(h, rules, headers, row, |headers|)
  {
    hide RowCells, FindField, KeyString, IsEmptyRow, IsBlankCell;
    EmptyRowExactly(row);
    if IsEmptyRow(row) { return Blank; }
    var fields := CollectCells(h, rules, headers, row);
    var key := FieldKey(keyField, fields);
    p := if key.Some? then Keyed(SourceRow(key.value, fields)) else Keyless;
  }

  /** The keyed ones, in order. */
  function KeyedRows(parsed: seq<Parsed>): seq<SourceRow> {
    if parsed == [] then []
    else
      KeyedRows(parsed[..|parsed| - 1]) + if parsed[|parsed| - 1].Keyed? then [parsed[|parsed| - 1].row] else []
  }

  function ParseAll(h: Host, rules: FieldValueRules, headers: seq<string>, keyField: string,
      data: seq<seq<Value>>): (p: seq<Parsed>)
    ensures |p| == |data|
    ensures forall i :: 0 <= i < |data| ==> p[i] == ParseRow(h, rules, headers, keyField, data[i])
  {
    seq(|data|, i requires 0 <= i < |data| => ParseRow(h, rules, headers, keyField, data[i]))
  }

  predicate NoKeyless(parsed: seq<Parsed>) {
    forall i :: 0 <= i < |parsed| ==> !parsed[i].Keyless?
  }

  predicate SameKey(a: Parsed, b: Parsed, key: string) {
    a.Keyed? && b.Keyed? && a.row.key == b.row.key == key
  }

  /** No two of them are keyed alike. */
  predicate ParsedDistinct(parsed: seq<Parsed>) {
    forall i, j :: 0 <= i < j < |parsed| && parsed[i].Keyed? ==> !SameKey(parsed[i], parsed[j], parsed[i].row.key)
  }

  lemma {:induction false} KeyedRowsOf(parsed: seq<Parsed>)
    ensures forall row :: row in KeyedRows(parsed) <==> Keyed(row) in parsed
    ensures RowKeysDistinct(KeyedRows(parsed)) <==> ParsedDistinct(parsed)
  {
    if parsed != [] {
      var front, last := parsed[..|parsed| - 1], parsed[|parsed| - 1];
      var before := KeyedRows(front);
      KeyedRowsOf(front);
      assert parsed == front + [last];
      assert ParsedDistinct(parsed) <==> ParsedDistinct(front) && !Repeats(front, last);
      assert RowKeysDistinct(KeyedRows(parsed)) <==> RowKeysDistinct(before) && !Repeats(front, last) by {
        LastRowDistinct(before, last, front);
      }
    }
  }

  /** The keyed rows come in the order in which they were parsed. */
  lemma {:induction false} KeyedRowsInOrder(parsed: seq<Parsed>, i: nat, j: nat)
    requires i < j < |parsed| && parsed[i].Keyed? && parsed[j].Keyed?
    ensures InOrder(KeyedRows(parsed), parsed[i].row, parsed[j].row)
  {
    var front, last := parsed[..|parsed| - 1], parsed[|parsed| - 1];
    var before := KeyedRows(front);
    if j < |front| {
      KeyedRowsInOrder(front, i, j);
      StaysInOrder(before, if last.Keyed? then [last.row] else [], parsed[i].row, parsed[j].row);
    } else {
      KeyedRowsOf(front);
      assert front[i] in front && front[i] == Keyed(front[i].row);
      AppendedInOrder(before, [last.row], parsed[i].row);
    }
  }

  /** `p` is keyed like one of `front`. */
  predicate Repeats(front: seq<Parsed>, p: Parsed) {
    p.Keyed? && exists i :: 0 <= i < |front| && SameKey(front[i], p, p.row.key)
  }

  lemma LastRowDistinct(before: seq<SourceRow>, last: Parsed, front: seq<Parsed>)
    requires forall row :: row in before <==> Keyed(row) in front
    ensures RowKeysDistinct(before + if last.Keyed? then [last.row] else [])
       <==> RowKeysDistinct(before) && !Repeats(front, last)
  {
    var all := before + if last.Keyed? then [last.row] else [];
    assert all[..|before|] == before;
    if Repeats(front, last) {
      var i :| 0 <= i < |front| && SameKey(front[i], last, last.row.key);
      assert front[i] == Keyed(front[i].row) && front[i].row in before;
      var n :| 0 <= n < |before| && before[n] == front[i].row;
      assert all[n].key == all[|before|].key;
    } else if RowKeysDistinct(before) && last.Keyed? {
      forall n | 0 <= n < |before| ensures before[n].key != last.row.key {
        assert before[n] in before;
        var i :| 0 <= i < |front| && front[i] == Keyed(before[n]);
        assert !SameKey(front[i], last, last.row.key);
      }
    } else if RowKeysDistinct(all) {
      forall i, j | 0 <= i < j < |before| ensures before[i].key != before[j].key {
        assert all[i] == before[i] && all[j] == before[j];
      }
    }
  }

  /** Numbers as the sheet shows them: the header is row 1. */
  predicate ReportsRow(parsed: seq<Parsed>, e: ParseError) {
    match e
    case MissingKey(row) => 2 <= row < |parsed| + 2 && parsed[row - 2].Keyless?
    case DuplicateRow(key, a, b) => 2 <= a < b < |parsed| + 2 && SameKey(parsed[a - 2], parsed[b - 2], key)
    case _ => false
  }

  predicate HasKeyColumn(headers: seq<string>, keyField: string) {
    exists c :: 0 <= c < |headers| && NormalizeFieldName(headers[c]) == NormalizeFieldName(keyField)
  }

  ghost predicate HeadersOf(header: seq<Value>, headers: seq<string>) {
    |headers| == |header| && forall c :: 0 <= c < |header| ==> HeaderOf(header[c]) == Some(headers[c])
  }

  function HeaderNames(header: seq<Value>): (names: seq<string>)
    ensures |names| == |header|
    ensures forall headers :: HeadersOf(header, headers) ==> headers == names
  {
    seq(|header|, c requires 0 <= c < |header| => if HeaderOf(header[c]).Some? then HeaderOf(header[c]).value else [])
  }

  /** The row loop of `parse_sheet_rows`. */
  method ParseDataRows(h: Host, rules: FieldValueRules, headers: seq<string>, keyField: string, data: seq<seq<Value>>)
    returns (r: Result<seq<SourceRow>, ParseError>)
    ensures var parsed := ParseAll(h, rules, headers, keyField, data);
            && (r.Ok? <==> NoKeyless(parsed) && ParsedDistinct(parsed))
            && (r.Ok? ==> r.value == KeyedRows(parsed))
            && (r.Err? ==> ReportsRow(parsed, r.error))
  {
    hide ParseRow, CarriesKey, IsFirstRowMap, ParsedDistinct, NoKeyless, SameKey, KeyedRows, IsBlankCell, RowCells,
      FieldKey;
    ghost var parsed := ParseAll(h, rules, headers, keyField, data);
    var result: seq<SourceRow> := [];
    var firstRow: map<string, nat> := map[];
    var n := 0;
    NothingParsed();
    while n < |data|
      invariant n <= |data|
      invariant NoKeyless(parsed[..n]) && ParsedDistinct(parsed[..n])
      invariant result == KeyedRows(parsed[..n])
      invariant IsFirstRowMap(firstRow, parsed[..n])
    {
      var p := ParseOneRow(h, rules, headers, keyField, data[n]);
      assert p == parsed[n];
      if p.Keyless? {
        KeylessFound(parsed, n);
        return Err(MissingKey(n + 2));
      }
      if p.Keyed? && p.row.key in firstRow {
        DuplicateKeyFound(firstRow, parsed, n);
        return Err(DuplicateRow(p.row.key, firstRow[p.row.key], n + 2));
      }
      FirstRowMapGrows(firstRow, parsed[..n], p);
      assert parsed[..n + 1] == parsed[..n] + [p];
      if p.Keyed? {
        firstRow := firstRow[p.row.key := n + 2];
        result := result + [p.row];
      }
      n := n + 1;
    }
    assert parsed[..n] == parsed;
    r := Ok(result);
  }

  /** `first_row_by_key` holds, for each key so far, a row that carries it. */
  ghost predicate IsFirstRowMap(firstRow: map<string, nat>, parsed: seq<Parsed>) {
    && (forall i :: 0 <= i < |parsed| && parsed[i].Keyed? ==> parsed[i].row.key in firstRow)
    && (forall key :: key in firstRow ==>
          2 <= firstRow[key] < |parsed| + 2 && parsed[firstRow[key] - 2].Keyed?
            && parsed[firstRow[key] - 2].row.key == key)
  }

  lemma {:induction false} FirstRowMapGrows(firstRow: map<string, nat>, parsed: seq<Parsed>, p: Parsed)
    requires IsFirstRowMap(firstRow, parsed) && ParsedDistinct(parsed) && NoKeyless(parsed)
    requires !p.Keyless? && (p.Keyed? ==> p.row.key !in firstRow)
    ensures IsFirstRowMap(if p.Keyed? then firstRow[p.row.key := |parsed| + 2] else firstRow, parsed + [p])
    ensures ParsedDistinct(parsed + [p]) && NoKeyless(parsed + [p])
    ensures KeyedRows(parsed + [p]) == KeyedRows(parsed) + if p.Keyed? then [p.row] else []
  {
    hide KeyedRows, ParsedDistinct, IsFirstRowMap;
    NewKeyStaysDistinct(firstRow, parsed, p);
    KeyedRowsStep(parsed, p);
    MapStep(firstRow, parsed, p);
  }

  lemma MapStep(firstRow: map<string, nat>, parsed: seq<Parsed>, p: Parsed)
    requires IsFirstRowMap(firstRow, parsed) && (p.Keyed? ==> p.row.key !in firstRow)
    ensures IsFirstRowMap(if p.Keyed? then firstRow[p.row.key := |parsed| + 2] else firstRow, parsed + [p])
  {
    var more := parsed + [p];
    var longer := if p.Keyed? then firstRow[p.row.key := |parsed| + 2] else firstRow;
    forall key | key in longer
      ensures 2 <= longer[key] < |more| + 2 && more[longer[key] - 2].Keyed? && more[longer[key] - 2].row.key == key
    {
      if key in firstRow { assert more[longer[key] - 2] == parsed[firstRow[key] - 2]; }
    }
    forall i | 0 <= i < |more| && more[i].Keyed? ensures more[i].row.key in longer {
      if i < |parsed| { assert more[i] == parsed[i]; }
    }
  }

  lemma NewKeyStaysDistinct(firstRow: map<string, nat>, parsed: seq<Parsed>, p: Parsed)
    requires IsFirstRowMap(firstRow, parsed) && ParsedDistinct(parsed)
    requires p.Keyed? ==> p.row.key !in firstRow
    ensures ParsedDistinct(parsed + [p])
  {
    var more := parsed + [p];
    forall i, j | 0 <= i < j < |more| && more[i].Keyed? ensures !SameKey(more[i], more[j], more[i].row.key) {
      assert more[i] == parsed[i];
      if j < |parsed| {
        assert more[j] == parsed[j];
      } else {
        assert parsed[i].row.key in firstRow;
      }
    }
  }

  lemma KeyedRowsStep(parsed: seq<Parsed>, p: Parsed)
    ensures KeyedRows(parsed + [p]) == KeyedRows(parsed) + if p.Keyed? then [p.row] else []
  {
    assert (parsed + [p])[..|parsed|] == parsed;
  }

  lemma NothingParsed()
    ensures IsFirstRowMap(map[], []) && ParsedDistinct([]) && NoKeyless([]) && KeyedRows([]) == []
  {
  }

  lemma KeylessFound(parsed: seq<Parsed>, n: nat)
    requires n < |parsed| && parsed[n].Keyless?
    ensures !NoKeyless(parsed)
  {
  }

  /** A key already in the map makes the row a duplicate of the one noted there. */
  lemma DuplicateKeyFound(firstRow: map<string, nat>, parsed: seq<Parsed>, n: nat)
    requires n < |parsed| && parsed[n].Keyed? && parsed[n].row.key in firstRow
    requires IsFirstRowMap(firstRow, parsed[..n])
    ensures 2 <= firstRow[parsed[n].row.key] < n + 2
    ensures parsed[firstRow[parsed[n].row.key] - 2].Keyed?
    ensures SameKey(parsed[firstRow[parsed[n].row.key] - 2], parsed[n], parsed[n].row.key)
    ensures parsed[firstRow[parsed[n].row.key] - 2].row.key == parsed[n].row.key
    ensures !ParsedDistinct(parsed)
  {
    var i := firstRow[parsed[n].row.key] - 2;
    assert parsed[..n][i] == parsed[i];
    assert SameKey(parsed[i], parsed[n], parsed[i].row.key);
  }

  /** When a sheet can be parsed. */
  predicate SheetParses(h: Host, rules: FieldValueRules, rows: seq<seq<Value>>, keyField: string) {
    && rows != [] && (forall c :: 0 <= c < |rows[0]| ==> HeaderOf(rows[0][c]).Some?)
    && HasKeyColumn(HeaderNames(rows[0]), keyField)
    && var parsed := ParseAll(h, rules, HeaderNames(rows[0]), keyField, rows[1..]);
    NoKeyless(parsed) && ParsedDistinct(parsed)
  }

  /** What a legal header names, and whether the key column is among it. */
  lemma {:induction false} HeaderNamesTrimmed(header: seq<Value>, keyField: string)
    requires forall c :: 0 <= c < |header| ==> HeaderOf(header[c]).Some?
    ensures forall c :: 0 <= c < |header| ==> header[c].Str?
    ensures HasKeyColumn(HeaderNames(header), keyField) <==> exists c ::
              0 <= c < |header| && NormalizeFieldName(Trim(header[c].s)) == NormalizeFieldName(keyField)
  {
    hide Trim, NormalizeFieldName;
    var names := HeaderNames(header);
    assert forall c :: 0 <= c < |header| ==> names[c] == Trim(header[c].s);
    if HasKeyColumn(names, keyField) {
      var c :| 0 <= c < |names| && NormalizeFieldName(names[c]) == NormalizeFieldName(keyField);
      assert NormalizeFieldName(Trim(header[c].s)) == NormalizeFieldName(keyField);
    }
    if c :| 0 <= c < |header| && NormalizeFieldName(Trim(header[c].s)) == NormalizeFieldName(keyField) {
      assert NormalizeFieldName(names[c]) == NormalizeFieldName(keyField);
    }
  }

  /** `parse_sheet_rows` */
  method ParseSheetRows(h: Host, rules: FieldValueRules, rows: seq<seq<Value>>, keyField: string)
    returns (r: Result<seq<SourceRow>, ParseError>)
    ensures r.Ok? <==> SheetParses(h, rules, rows, keyField)
    ensures rows == [] <==> r == Err(EmptySheet)
    ensures rows != [] && (r.Ok? || r == Err(NoKeyColumn)) ==>
              && (forall c :: 0 <= c < |rows[0]| ==> rows[0][c].Str?)
              && (r.Ok? <==> exists c ::
                   0 <= c < |rows[0]| && NormalizeFieldName(Trim(rows[0][c].s)) == NormalizeFieldName(keyField))
    ensures r.Ok? ==> r.value == KeyedRows(ParseAll(h, rules, HeaderNames(rows[0]), keyField, rows[1..]))
    ensures r.Err? && rows != [] ==>
              || (exists c :: 0 <= c < |rows[0]| && HeaderOf(rows[0][c]).None? && r.error == BadHeader(c + 1))
              || (!HasKeyColumn(HeaderNames(rows[0]), keyField) && r.error == NoKeyColumn)
              || ReportsRow(ParseAll(h, rules, HeaderNames(rows[0]), keyField, rows[1..]), r.error)
  {
    hide ParseAll, KeyedRows, NoKeyless, ParsedDistinct, SameKey, HeaderOf, HasKeyColumn, Trim, NormalizeFieldName;
    if rows == [] { return Err(EmptySheet); }
    var headers := ParseHeaders(rows[0]);
    if headers.Err? { return Err(headers.error); }
    assert HeadersOf(rows[0], headers.value);
    HeaderNamesTrimmed(rows[0], keyField);
    if !HasKeyColumn(headers.value, keyField) { return Err(NoKeyColumn); }
    r := ParseDataRows(h, rules, headers.value, keyField, rows[1..]);
  }

  // ---------------------------------------------------------------- manual records

  /** The non-null write values of the fields that are not skipped. */
  function WriteFields(h: Host, rules: FieldValueRules, raw: Fields): Fields {
    map n | n in raw && !rules.ShouldSkip(n) && !ToWriteValue(h, rules, n, raw[n]).Null? ::
      ToWriteValue(h, rules, n, raw[n])
  }

  lemma {:induction false} OneMoreField(h: Host, rules: FieldValueRules, done: Fields, name: string, v: Value)
    requires name !in done
    ensures WriteFields(h, rules, done[name := v])
         == if rules.ShouldSkip(name) || ToWriteValue(h, rules, name, v).Null? then WriteFields(h, rules, done)
            else WriteFields(h, rules, done)[name := ToWriteValue(h, rules, name, v)]
  {
    hide ToWriteValue, NormalizeFieldName;
  }

  /** The field loop of `parse_bitable_records_as_source_rows`. */
  method CollectWriteFields(h: Host, rules: FieldValueRules, raw: Fields) returns (fields: Fields)
    ensures fields == WriteFields(h, rules, raw)
    ensures forall n :: n in fields <==>
              n in raw && NormalizeFieldName(n) !in rules.skipFields && ToWriteValue(h, rules, n, raw[n]) != Null
    ensures forall n :: n in fields ==> fields[n] == ToWriteValue(h, rules, n, raw[n])
  {
    hide ToWriteValue, NormalizeFieldName, WriteFields;
    fields := map[];
    var left := raw.Keys;
    ghost var done: Fields := map[];
    NoFields(h, rules);
    while left != {}
      invariant left <= raw.Keys && left !! done.Keys && left + done.Keys == raw.Keys
      invariant forall n :: n in done ==> done[n] == raw[n]
      invariant fields == WriteFields(h, rules, done)
      decreases left
    {
      var name := Least(left);
      OneMoreField(h, rules, done, name, raw[name]);
      left, done := left - {name}, done[name := raw[name]];
      if rules.ShouldSkip(name) { continue; }
      var value := ToWriteValue(h, rules, name, raw[name]);
      if !value.Null? {
        fields := fields[name := value];
      }
    }
    assert done == raw;
    WriteFieldsExactly(h, rules, raw);
  }

  lemma {:induction false} WriteFieldsExactly(h: Host, rules: FieldValueRules, raw: Fields)
    ensures var fields := WriteFields(h, rules, raw);
            && (forall n :: n in fields <==>
                 n in raw && NormalizeFieldName(n) !in rules.skipFields && ToWriteValue(h, rules, n, raw[n]) != Null)
            && (forall n :: n in fields ==> fields[n] == ToWriteValue(h, rules, n, raw[n]))
  {
    hide ToWriteValue, NormalizeFieldName;
  }

  lemma NoFields(h: Host, rules: FieldValueRules)
    ensures WriteFields(h, rules, map[]) == map[]
  {
  }

  function ParseRecord(h: Host, rules: FieldValueRules, keyField: string, r: Record): (p: Parsed)
    ensures p.Keyed? ==> CarriesKey(keyField, p.row)
    ensures !p.Keyless?
  {
    if !r.fields.Obj? then Blank
    else
      var fields := WriteFields(h, rules, r.fields.fields);
      match FieldKey(keyField, fields)
      case Some(key) => Keyed(SourceRow(key, fields))
      case None => Blank
  }

  method ParseOneRecord(h: Host, rules: FieldValueRules, keyField: string, r: Record) returns (p: Parsed)
    ensures p == ParseRecord(h, rules, keyField, r)
    ensures p.Keyed? <==> r.fields.Obj? && FieldKey(keyField, WriteFields(h, rules, r.fields.fields)).Some?
    ensures p.Keyed? ==> CarriesKey(keyField, p.row) && p.row.fields == WriteFields(h, rules, r.fields.fields)
    ensures !p.Keyless?
  {
    hide WriteFields, FindField, KeyString;
    if !r.fields.Obj? { return Blank; }
    var fields := CollectWriteFields(h, rules, r.fields.fields);
    var key := FieldKey(keyField, fields);
    p := if key.Some? then Keyed(SourceRow(key.value, fields)) else Blank;
  }

  function ParseRecords(h: Host, rules: FieldValueRules, keyField: string, records: seq<Record>): (p: seq<Parsed>)
    ensures |p| == |records|
    ensures forall i :: 0 <= i < |records| ==> p[i] == ParseRecord(h, rules, keyField, records[i])
  {
    seq(|records|, i requires 0 <= i < |records| => ParseRecord(h, rules, keyField, records[i]))
  }

  /** `parse_bitable_records_as_source_rows` */
  method ParseBitableRecordsAsSourceRows(h: Host, rules: FieldValueRules, records: seq<Record>, keyField: string)
    returns (r: Result<seq<SourceRow>, ParseError>)
    ensures var parsed := ParseRecords(h, rules, keyField, records);
            && (r.Ok? <==> ParsedDistinct(parsed))
            && (r.Ok? ==> r.value == KeyedRows(parsed))
            && (r.Err? ==> exists i, j ::
                 0 <= i < j < |parsed| && parsed[i].Keyed? && SameKey(parsed[i], parsed[j], parsed[i].row.key)
                             && r.error == DuplicateRecord(parsed[i].row.key, records[i].id, records[j].id))
  {
    hide ParseRecord, CarriesKey, IsFirstRowMap, ParsedDistinct, NoKeyless, SameKey, KeyedRows, WriteFields, FieldKey;
    ghost var parsed := ParseRecords(h, rules, keyField, records);
    var result: seq<SourceRow> := [];
    var firstRecord: map<string, nat> := map[];
    ghost var firstRow: map<string, nat> := map[];
    var n := 0;
    NothingParsed();
    while n < |records|
      invariant n <= |records|
      invariant NoKeyless(parsed[..n]) && ParsedDistinct(parsed[..n])
      invariant result == KeyedRows(parsed[..n])
      invariant IsFirstRowMap(firstRow, parsed[..n])
      invariant firstRecord.Keys == firstRow.Keys
      invariant forall key :: key in firstRecord ==>
                  2 <= firstRow[key] < n + 2 && firstRecord[key] == records[firstRow[key] - 2].id
    {
      var p := ParseOneRecord(h, rules, keyField, records[n]);
      assert p == parsed[n];
      if p.Keyed? && p.row.key in firstRecord {
        DuplicateKeyFound(firstRow, parsed, n);
        return Err(DuplicateRecord(p.row.key, firstRecord[p.row.key], records[n].id));
      }
      FirstRowMapGrows(firstRow, parsed[..n], p);
      assert parsed[..n + 1] == parsed[..n] + [p];
      if p.Keyed? {
        firstRecord := firstRecord[p.row.key := records[n].id];
        firstRow := firstRow[p.row.key := n + 2];
        result := result + [p.row];
      }
      n := n + 1;
    }
    assert parsed[..n] == parsed;
    r := Ok(result);
  }

  // ------------------------------------------------------------------ parsed rows

  /** Rows that either parser hands out carry their keys, and no key twice. */
  lemma {:induction false} KeyedSheetRowsOk(h: Host, rules: FieldValueRules, headers: seq<string>, keyField: string,
      data: seq<seq<Value>>)
    ensures var parsed := ParseAll(h, rules, headers, keyField, data);
            && (forall row :: row in KeyedRows(parsed) ==> CarriesKey(keyField, row))
            && (ParsedDistinct(parsed) ==> RowKeysDistinct(KeyedRows(parsed)))
  {
    hide CarriesKey, ParseRow, KeyedRows;
    var parsed := ParseAll(h, rules, headers, keyField, data);
    KeyedRowsOf(parsed);
    forall row | row in KeyedRows(parsed) ensures CarriesKey(keyField, row) {
      var i :| 0 <= i < |parsed| && parsed[i] == Keyed(row);
    }
  }

  lemma {:induction false} KeyedRecordsOk(h: Host, rules: FieldValueRules, keyField: string, records: seq<Record>)
    ensures var parsed := ParseRecords(h, rules, keyField, records);
            && (forall row :: row in KeyedRows(parsed) ==> CarriesKey(keyField, row))
            && (ParsedDistinct(parsed) ==> RowKeysDistinct(KeyedRows(parsed)))
  {
    hide CarriesKey, ParseRecord, KeyedRows;
    var parsed := ParseRecords(h, rules, keyField, records);
    KeyedRowsOf(parsed);
    forall row | row in KeyedRows(parsed) ensures CarriesKey(keyField, row) {
      var i :| 0 <= i < |parsed| && parsed[i] == Keyed(row);
    }
  }
}
