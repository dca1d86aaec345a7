/** Marking rows with their source and merging sheet rows with manual rows
    (src/pipeline/table_sync.rs). */
module MergedRows {
  import opened Wrappers
  import opened Text
  import opened Json
  import opened CellValues
  import opened MainPlan

  // ------------------------------------------------------------------- data source

  function WithSource(row: SourceRow, field: string, source: string): SourceRow {
    row.(fields := row.fields[field := Str(source)])
  }

  function AllWithSource(rows: seq<SourceRow>, field: string, source: string): (r: seq<SourceRow>)
    ensures |r| == |rows|
    ensures forall i :: 0 <= i < |rows| ==> r[i] == WithSource(rows[i], field, source)
  {
    seq(|rows|, i requires 0 <= i < |rows| => WithSource(rows[i], field, source))
  }

  /** `attach_data_source` writes into every row of the slice. */
  method AttachDataSource(rows: array<SourceRow>, field: string, source: string)
    modifies rows
    ensures rows[..] == AllWithSource(old(rows[..]), field, source)
  {
    for i := 0 to rows.Length
      invariant forall j :: 0 <= j < i ==> rows[j] == WithSource(old(rows[j]), field, source)
      invariant forall j :: i <= j < rows.Length ==> rows[j] == old(rows[j])
    {
      rows[i] := WithSource(rows[i], field, source);
    }
  }

  /** A row keeps its key as long as the source column is not the key column. */
  lemma WithSourceKeepsKey(keyField: string, row: SourceRow, field: string, source: string)
    requires CarriesKey(keyField, row)
    requires NormalizeFieldName(field) != NormalizeFieldName(keyField)
    ensures CarriesKey(keyField, WithSource(row, field, source))
  {
    assert Aliases(WithSource(row, field, source).fields, keyField) == Aliases(row.fields, keyField);
  }

  lemma AllWithSourceKeepsKeys(rows: seq<SourceRow>, field: string, source: string)
    ensures RowKeysDistinct(rows) ==> RowKeysDistinct(AllWithSource(rows, field, source))
  {
  }

  // ------------------------------------------------------------------------- merge

  /** The last position with the key, or none. */
  function LastPosition(rows: seq<SourceRow>, key: string): (p: Option<nat>)
    ensures p.Some? ==> p.value < |rows| && rows[p.value].key == key
    ensures p.None? ==> forall i :: 0 <= i < |rows| ==> rows[i].key != key
  {
    if rows == [] then None
    else if rows[|rows| - 1].key == key then Some(|rows| - 1)
    else LastPosition(rows[..|rows| - 1], key)
  }

  function MergeStep(merged: seq<SourceRow>, row: SourceRow, overrides: bool): seq<SourceRow> {
    match LastPosition(merged, row.key)
    case Some(p) => if overrides then merged[p := row] else merged
    case None => merged + [row]
  }

  /** The merge by scanning. */
  function MergeAll(sheet: seq<SourceRow>, manual: seq<SourceRow>, overrides: bool): seq<SourceRow> {
    if manual == [] then sheet
    else MergeStep(MergeAll(sheet, manual[..|manual| - 1], overrides), manual[|manual| - 1], overrides)
  }

  ghost predicate IsPositionMap(positions: map<string, nat>, rows: seq<SourceRow>) {
    forall key :: LastPosition(rows, key) == if key in positions then Some(positions[key]) else None
  }

  lemma {:induction false} PositionsAfterReplace(rows: seq<SourceRow>, p: nat, row: SourceRow, key: string)
    requires p < |rows| && rows[p].key == row.key
    ensures LastPosition(rows[p := row], key) == LastPosition(rows, key)
  {
    var n := |rows| - 1;
    if p < n {
      assert rows[p := row][..n] == rows[..n][p := row];
      PositionsAfterReplace(rows[..n], p, row, key);
    } else {
      assert rows[p := row][..n] == rows[..n];
    }
  }

  lemma PositionsAfterPush(rows: seq<SourceRow>, row: SourceRow, key: string)
    ensures LastPosition(rows + [row], key) == if key == row.key then Some(|rows|) else LastPosition(rows, key)
  {
    assert (rows + [row])[..|rows|] == rows;
  }

  /** `merge_source_rows`, with its map from keys to positions. */
  method MergeSourceRows(sheet: seq<SourceRow>, manual: seq<SourceRow>, overrides: bool)
      returns (merged: seq<SourceRow>)
    ensures merged == MergeAll(sheet, manual, overrides)
  {
    merged := [];
    var keyToIndex: map<string, nat> := map[];
    for n := 0 to |sheet|
      invariant merged == sheet[..n]
      invariant IsPositionMap(keyToIndex, merged)
    {
      forall key { PositionsAfterPush(merged, sheet[n], key); }
      keyToIndex := keyToIndex[sheet[n].key := |merged|];
      merged := merged + [sheet[n]];
    }
    for n := 0 to |manual|
      invariant merged == MergeAll(sheet, manual[..n], overrides)
      invariant IsPositionMap(keyToIndex, merged)
    {
      assert manual[..n + 1][..n] == manual[..n];
      var row := manual[n];
      if row.key in keyToIndex {
        var existing := keyToIndex[row.key];
        assert LastPosition(merged, row.key) == Some(existing);
        if overrides {
          forall key { PositionsAfterReplace(merged, existing, row, key); }
          merged := merged[existing := row];
        }
        continue;
      }
      forall key { PositionsAfterPush(merged, row, key); }
      keyToIndex := keyToIndex[row.key := |merged|];
      merged := merged + [row];
    }
    assert manual[..|manual|] == manual;
  }

  // ------------------------------------------------------------- what the merge is

  /** The naive description: the sheet's rows in their order, each replaced by the
      manual row of its key exactly when overriding is on, then the manual rows of
      other keys in theirs. */
  function Overlay(sheet: seq<SourceRow>, manual: seq<SourceRow>, overrides: bool): (r: seq<SourceRow>)
    ensures |r| == |sheet|
  {
    seq(|sheet|, i requires 0 <= i < |sheet| =>
      if overrides && RowFor(manual, sheet[i].key).Some? then RowFor(manual, sheet[i].key).value else sheet[i])
  }

  function OnlyManual(sheet: seq<SourceRow>, manual: seq<SourceRow>): seq<SourceRow> {
    if manual == [] then []
    else
      var row := manual[|manual| - 1];
      OnlyManual(sheet, manual[..|manual| - 1]) + if RowFor(sheet, row.key).Some? then [] else [row]
  }

  lemma {:induction false} RowForLast(rows: seq<SourceRow>, row: SourceRow, key: string)
    ensures RowFor(rows + [row], key)
         == if RowFor(rows, key).Some? then RowFor(rows, key) else if row.key == key then Some(row) else None
  {
    if rows == [] {
      assert rows + [row] == [row];
      assert [row][1..] == [];
    } else {
      assert (rows + [row])[1..] == rows[1..] + [row];
      RowForLast(rows[1..], row, key);
    }
  }

  lemma {:induction false} RowForSome(rows: seq<SourceRow>, key: string)
    ensures RowFor(rows, key).Some? <==> exists n :: 0 <= n < |rows| && rows[n].key == key
  {
    if rows != [] {
      RowForSome(rows[1..], key);
      if n :| 0 <= n < |rows| && rows[n].key == key {
        if n > 0 { assert rows[1..][n - 1].key == key; }
      }
    }
  }

  lemma {:induction false} OnlyManualRows(sheet: seq<SourceRow>, manual: seq<SourceRow>)
    requires RowKeysDistinct(manual)
    ensures forall row :: row in OnlyManual(sheet, manual) <==> row in manual && RowFor(sheet, row.key).None?
    ensures RowKeysDistinct(OnlyManual(sheet, manual))
  {
    if manual != [] {
      var front, last := manual[..|manual| - 1], manual[|manual| - 1];
      OnlyManualRows(sheet, front);
      assert manual == front + [last];
      forall row | row in front ensures row.key != last.key {
        var n :| 0 <= n < |front| && manual[n] == row;
      }
    }
  }

  /** One more manual row replaces at most the sheet row of its key. */
  lemma {:induction false} OverlayStep(sheet: seq<SourceRow>, manual: seq<SourceRow>, row: SourceRow, overrides: bool,
      p: nat)
    requires RowKeysDistinct(sheet) && RowKeysDistinct(manual + [row])
    requires p < |sheet| ==> sheet[p].key == row.key
    requires p >= |sheet| ==> RowFor(sheet, row.key).None?
    ensures Overlay(sheet, manual + [row], overrides)
         == if p < |sheet| && overrides then Overlay(sheet, manual, overrides)[p := row]
           else Overlay(sheet, manual, overrides)
  {
    hide RowFor;
    var more := manual + [row];
    assert forall n :: 0 <= n < |manual| ==> more[n] == manual[n] && manual[n].key != more[|manual|].key;
    RowForSome(manual, row.key);
    RowForSome(sheet, row.key);
    forall i | 0 <= i < |sheet|
      ensures RowFor(more, sheet[i].key) == if sheet[i].key == row.key then Some(row) else RowFor(manual, sheet[i].key)
      ensures sheet[i].key == row.key <==> i == p
    {
      RowForLast(manual, row, sheet[i].key);
    }
  }

  /** One more manual row: the naive merge changes as the scanning merge does. */
  lemma {:induction false} NaiveStep(sheet: seq<SourceRow>, manual: seq<SourceRow>, row: SourceRow, overrides: bool)
    requires RowKeysDistinct(sheet) && RowKeysDistinct(manual + [row])
    ensures MergeStep(Overlay(sheet, manual, overrides) + OnlyManual(sheet, manual), row, overrides)
         == Overlay(sheet, manual + [row], overrides) + OnlyManual(sheet, manual + [row])
  {
    hide RowFor, Overlay, LastPosition;
    assert (manual + [row])[..|manual|] == manual;
    var first, rest := Overlay(sheet, manual, overrides), OnlyManual(sheet, manual);
    RowForSome(sheet, row.key);
    ManualKeysStayNew(sheet, manual, row);
    OverlayKeys(sheet, manual, overrides);
    if RowFor(sheet, row.key).Some? {
      var p :| 0 <= p < |sheet| && sheet[p].key == row.key;
      OverlayStep(sheet, manual, row, overrides, p);
      LastPositionUnique(first + rest, p, row.key);
      assert (first + rest)[p := row] == first[p := row] + rest;
    } else {
      OverlayStep(sheet, manual, row, overrides, |sheet|);
      assert first + rest + [row] == first + (rest + [row]);
    }
  }

  lemma ManualKeysStayNew(sheet: seq<SourceRow>, manual: seq<SourceRow>, row: SourceRow)
    requires RowKeysDistinct(manual + [row])
    ensures forall j :: 0 <= j < |OnlyManual(sheet, manual)| ==> OnlyManual(sheet, manual)[j].key != row.key
  {
    var more := manual + [row];
    assert forall n :: 0 <= n < |manual| ==> more[n] == manual[n] && manual[n].key != more[|manual|].key;
    OnlyManualRows(sheet, manual);
    forall j | 0 <= j < |OnlyManual(sheet, manual)| ensures OnlyManual(sheet, manual)[j].key != row.key {
      assert OnlyManual(sheet, manual)[j] in manual;
    }
  }

  lemma {:induction false} OverlayKeys(sheet: seq<SourceRow>, manual: seq<SourceRow>, overrides: bool)
    ensures forall i :: 0 <= i < |sheet| ==> Overlay(sheet, manual, overrides)[i].key == sheet[i].key
  {
    hide RowFor;
  }

  lemma {:induction false} LastPositionUnique(rows: seq<SourceRow>, p: nat, key: string)
    requires p < |rows| && rows[p].key == key
    requires forall i :: 0 <= i < |rows| && i != p ==> rows[i].key != key
    ensures LastPosition(rows, key) == Some(p)
  {
    if p < |rows| - 1 {
      LastPositionUnique(rows[..|rows| - 1], p, key);
    }
  }

  /** The merge with the position map is the naive merge when both parsers have
      rejected repeated keys. */
  lemma {:induction false} MergeIsNaive(sheet: seq<SourceRow>, manual: seq<SourceRow>, overrides: bool)
    requires RowKeysDistinct(sheet) && RowKeysDistinct(manual)
    ensures MergeAll(sheet, manual, overrides) == Overlay(sheet, manual, overrides) + OnlyManual(sheet, manual)
  {
    if manual == [] {
      assert Overlay(sheet, [], overrides) == sheet;
    } else {
      var front := manual[..|manual| - 1];
      assert manual == front + [manual[|manual| - 1]];
      MergeIsNaive(sheet, front, overrides);
      NaiveStep(sheet, front, manual[|manual| - 1], overrides);
    }
  }

  /** Merged keys stay distinct; sheet order first; each shared key has the manual
      row exactly when overriding is on; no row of either source is invented. */
  lemma MergedRowsOk(sheet: seq<SourceRow>, manual: seq<SourceRow>, overrides: bool)
    requires RowKeysDistinct(sheet) && RowKeysDistinct(manual)
    ensures var merged := MergeAll(sheet, manual, overrides);
            && RowKeysDistinct(merged)
            && (forall i :: 0 <= i < |sheet| ==> |merged| > i && merged[i].key == sheet[i].key)
            && (forall row :: row in merged ==> row in sheet || row in manual)
            && (forall row :: row in manual ==>
                 (row in merged <==> overrides || RowFor(sheet, row.key).None? || row in sheet))
            && (forall row :: row in sheet ==>
                 (row in merged <==> !overrides || RowFor(manual, row.key).None? || row in manual))
  {
    var merged := MergeAll(sheet, manual, overrides);
    var first, rest := Overlay(sheet, manual, overrides), OnlyManual(sheet, manual);
    MergeIsNaive(sheet, manual, overrides);
    OnlyManualRows(sheet, manual);
    OverlayKeys(sheet, manual, overrides);
    assert merged == first + rest;
    forall i, j | 0 <= i < |sheet| && 0 <= j < |rest| ensures first[i].key != rest[j].key {
      assert rest[j] in rest;
      RowForSome(sheet, rest[j].key);
    }
    forall row | row in manual
      ensures row in merged <==> overrides || RowFor(sheet, row.key).None? || row in sheet
    {
      ManualRowMerged(sheet, manual, overrides, row);
    }
    forall row | row in sheet
      ensures row in merged <==> !overrides || RowFor(manual, row.key).None? || row in manual
    {
      SheetRowMerged(sheet, manual, overrides, row);
    }
  }

  lemma ManualRowMerged(sheet: seq<SourceRow>, manual: seq<SourceRow>, overrides: bool, row: SourceRow)
    requires RowKeysDistinct(sheet) && RowKeysDistinct(manual) && row in manual
    ensures row in Overlay(sheet, manual, overrides) + OnlyManual(sheet, manual)
       <==> overrides || RowFor(sheet, row.key).None? || row in sheet
  {
    var first := Overlay(sheet, manual, overrides);
    OnlyManualRows(sheet, manual);
    OverlayKeys(sheet, manual, overrides);
    RowForSome(sheet, row.key);
    var n :| 0 <= n < |manual| && manual[n] == row;
    RowForOwnKey(manual, n);
    if RowFor(sheet, row.key).Some? {
      var i :| 0 <= i < |sheet| && sheet[i].key == row.key;
      assert row in first <==> first[i] == row by {
        if row in first {
          var j :| 0 <= j < |first| && first[j] == row;
          assert sheet[j].key == sheet[i].key;
        }
      }
      if row in sheet {
        var j :| 0 <= j < |sheet| && sheet[j] == row;
        assert sheet[j].key == sheet[i].key;
      }
    }
  }

  lemma SheetRowMerged(sheet: seq<SourceRow>, manual: seq<SourceRow>, overrides: bool, row: SourceRow)
    requires RowKeysDistinct(sheet) && RowKeysDistinct(manual) && row in sheet
    ensures row in Overlay(sheet, manual, overrides) + OnlyManual(sheet, manual)
       <==> !overrides || RowFor(manual, row.key).None? || row in manual
  {
    var first := Overlay(sheet, manual, overrides);
    OnlyManualRows(sheet, manual);
    OverlayKeys(sheet, manual, overrides);
    var i :| 0 <= i < |sheet| && sheet[i] == row;
    RowForSome(sheet, row.key);
    RowForSome(manual, row.key);
    assert row in first <==> first[i] == row by {
      if row in first {
        var j :| 0 <= j < |first| && first[j] == row;
        assert sheet[j].key == sheet[i].key;
      }
    }
    if row in manual {
      var n :| 0 <= n < |manual| && manual[n] == row;
      RowForOwnKey(manual, n);
    }
  }
}
