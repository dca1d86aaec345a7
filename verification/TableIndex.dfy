/** Indexing a table by business key (src/pipeline/sync.rs). */
module TableIndex {
  import opened Wrappers
  import opened Json
  import opened CellValues
  import opened TargetTable

  datatype IndexItem = IndexItem(id: nat, fields: Fields)

  datatype IndexError = DuplicateKey(key: string, first: nat, second: nat)

  /** The business key that a set of fields carries, if any. */
  function FieldKey(keyField: string, fields: Fields): Option<string> {
    match FindField(fields, keyField)
    case Some(v) => KeyString(v)
    case None => None
  }

  /** The business key of a record; drafts and records without one have none. */
  function KeyOf(keyField: string, r: Record): Option<string> {
    if r.fields.Obj? then FieldKey(keyField, r.fields.fields) else None
  }

  lemma KeyedIsObject(keyField: string, r: Record)
    ensures KeyOf(keyField, r).Some? ==>
            r.fields == Obj(FieldsOf(r)) && KeyOf(keyField, r) == FieldKey(keyField, FieldsOf(r))
  {
  }

  function KeysOf(keyField: string, records: seq<Record>): (keys: seq<Option<string>>)
    ensures |keys| == |records|
    ensures forall i :: 0 <= i < |records| ==> keys[i] == KeyOf(keyField, records[i])
  {
    seq(|records|, i requires 0 <= i < |records| => KeyOf(keyField, records[i]))
  }

  predicate KeysDistinct(keys: seq<Option<string>>) {
    forall i, j :: 0 <= i < j < |keys| && keys[i].Some? ==> keys[i] != keys[j]
  }

  function KeySet(keys: seq<Option<string>>): set<string> {
    set i | 0 <= i < |keys| && keys[i].Some? :: keys[i].value
  }

  /** `index` maps every key of the table to a record that carries it. */
  ghost predicate IsIndexOf(index: map<string, IndexItem>, keys: seq<Option<string>>, records: seq<Record>)
    requires |keys| == |records|
  {
    && index.Keys == KeySet(keys)
    && forall i :: 0 <= i < |records| && keys[i].Some? ==>
         index[keys[i].value] == IndexItem(records[i].id, FieldsOf(records[i]))
  }

  /** The error names two records that carry one key. */
  predicate ReportsDuplicate(keys: seq<Option<string>>, records: seq<Record>, e: IndexError)
    requires |keys| == |records|
  {
    exists i, j :: 0 <= i < j < |records|
                && keys[i] == keys[j] == Some(e.key) && records[i].id == e.first && records[j].id == e.second
  }

  lemma IndexGrows(index: map<string, IndexItem>, keys: seq<Option<string>>, records: seq<Record>, key: Option<string>,
      r: Record)
    requires |keys| == |records| && KeysDistinct(keys) && IsIndexOf(index, keys, records)
    requires key.Some? ==> key.value !in index
    ensures KeysDistinct(keys + [key])
    ensures IsIndexOf(if key.Some? then index[key.value := IndexItem(r.id, FieldsOf(r))]
            else index, keys + [key], records + [r])
  {
    forall i | 0 <= i < |keys| && keys[i].Some? ensures keys[i] != key {
      assert keys[i].value in KeySet(keys);
    }
    assert (keys + [key])[|keys|] == key;
    assert forall i :: 0 <= i < |keys| ==> (keys + [key])[i] == keys[i];
    assert KeySet(keys + [key]) == KeySet(keys) + if key.Some? then {key.value} else {};
  }

  /** A table without repeated keys has an index. */
  lemma {:induction false} IndexExists(keys: seq<Option<string>>, records: seq<Record>)
      returns (index: map<string, IndexItem>)
    requires |keys| == |records| && KeysDistinct(keys)
    ensures IsIndexOf(index, keys, records)
  {
    if keys == [] {
      index := map[];
    } else {
      var n := |keys| - 1;
      var before := IndexExists(keys[..n], records[..n]);
      assert keys == keys[..n] + [keys[n]] && records == records[..n] + [records[n]];
      assert keys[n].Some? ==> keys[n].value !in KeySet(keys[..n]);
      IndexGrows(before, keys[..n], records[..n], keys[n], records[n]);
      index := if keys[n].Some? then before[keys[n].value := IndexItem(records[n].id, FieldsOf(records[n]))]
        else before;
    }
  }

  lemma DuplicateFound(keys: seq<Option<string>>, records: seq<Record>, index: map<string, IndexItem>, n: nat)
    requires n < |keys| == |records| && keys[n].Some?
    requires IsIndexOf(index, keys[..n], records[..n]) && keys[n].value in index
    ensures !KeysDistinct(keys)
    ensures ReportsDuplicate(keys, records, DuplicateKey(keys[n].value, index[keys[n].value].id, records[n].id))
  {
    var i :| 0 <= i < n && keys[..n][i] == keys[n];
    assert keys[i] == keys[n] && records[..n][i] == records[i];
  }

  /** `index_existing_records` */
  method IndexExistingRecords(records: seq<Record>, keyField: string)
    returns (r: Result<map<string, IndexItem>, IndexError>)
    ensures r.Ok? <==> KeysDistinct(KeysOf(keyField, records))
    ensures r.Ok? ==> IsIndexOf(r.value, KeysOf(keyField, records), records)
    ensures r.Err? ==> ReportsDuplicate(KeysOf(keyField, records), records, r.error)
  {
    hide KeyOf;
    var index: map<string, IndexItem> := map[];
    ghost var keys := KeysOf(keyField, records);
    var n := 0;
    while n < |records|
      invariant n <= |records|
      invariant KeysDistinct(keys[..n])
      invariant IsIndexOf(index, keys[..n], records[..n])
    {
      var key := KeyOf(keyField, records[n]);
      assert key == keys[n];
      if key.Some? && key.value in index {
        DuplicateFound(keys, records, index, n);
        return Err(DuplicateKey(key.value, index[key.value].id, records[n].id));
      }
      IndexGrows(index, keys[..n], records[..n], key, records[n]);
      assert keys[..n + 1] == keys[..n] + [key] && records[..n + 1] == records[..n] + [records[n]];
      if key.Some? {
        index := index[key.value := IndexItem(records[n].id, FieldsOf(records[n]))];
      }
      n := n + 1;
    }
    assert keys[..n] == keys && records[..n] == records;
    r := Ok(index);
  }
}
