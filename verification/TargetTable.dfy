/** The target table and its batch writers (src/pipeline/bitable.rs). */
module TargetTable {
  import opened Wrappers
  import opened Json

  datatype Record = Record(id: nat, fields: Value)

  datatype UpdateItem = UpdateItem(id: nat, fields: Fields)

  datatype CreateItem = CreateItem(fields: Fields)

  /** How a written cell is read back; it may depend on the column. */
  type CellStore = (string, Value) -> Value

  const BATCH_SIZE: nat := 1000

  // ---------------------------------------------------- what a write request does

  function StoreFields(store: CellStore, fields: Fields): Fields {
    map n | n in fields :: store(n, fields[n])
  }

  function MergeFields(store: CellStore, current: Fields, changed: Fields): Fields {
    map n | n in current.Keys + changed.Keys :: if n in changed then store(n, changed[n]) else current[n]
  }

  function FieldsOf(r: Record): Fields {
    if r.fields.Obj? then r.fields.fields else map[]
  }

  /** An update request sets the named cells and leaves the others. */
  function UpdateRecord(store: CellStore, r: Record, changed: Fields): Record {
    Record(r.id, Obj(MergeFields(store, FieldsOf(r), changed)))
  }

  function UpdateOne(store: CellStore, records: seq<Record>, item: UpdateItem): (r: seq<Record>)
    ensures |r| == |records|
  {
    seq(|records|, i requires 0 <= i < |records| =>
      if records[i].id == item.id then UpdateRecord(store, records[i], item.fields) else records[i])
  }

  function ApplyUpdates(store: CellStore, records: seq<Record>, items: seq<UpdateItem>): (r: seq<Record>)
    ensures |r| == |records|
  {
    if items == [] then records
    else UpdateOne(store, ApplyUpdates(store, records, items[..|items| - 1]), items[|items| - 1])
  }

  /** New records take fresh ids, counted up from `nextId`. */
  function Created(store: CellStore, nextId: nat, items: seq<CreateItem>): (r: seq<Record>)
    ensures |r| == |items|
  {
    seq(|items|, j requires 0 <= j < |items| => Record(nextId + j, Obj(StoreFields(store, items[j].fields))))
  }

  predicate IdsDistinct(records: seq<Record>, nextId: nat) {
    && (forall i :: 0 <= i < |records| ==> records[i].id < nextId)
    && (forall i, j :: 0 <= i < j < |records| ==> records[i].id != records[j].id)
  }

  lemma {:induction false} ApplyUpdatesInParts(store: CellStore, records: seq<Record>,
      a: seq<UpdateItem>, b: seq<UpdateItem>)
    ensures ApplyUpdates(store, ApplyUpdates(store, records, a), b) == ApplyUpdates(store, records, a + b)
  {
    if b == [] {
      assert a + b == a;
    } else {
      var n := |b| - 1;
      assert (a + b)[..|a + b| - 1] == a + b[..n];
      ApplyUpdatesInParts(store, records, a, b[..n]);
    }
  }

  lemma NoUpdatesYet(store: CellStore, records: seq<Record>)
    ensures ApplyUpdates(store, records, []) == records
  {
  }

  lemma CreatedInParts(store: CellStore, nextId: nat, a: seq<CreateItem>, b: seq<CreateItem>)
    ensures Created(store, nextId, a + b) == Created(store, nextId, a) + Created(store, nextId + |a|, b)
  {
  }

  lemma {:induction false} UpdatesKeepIds(store: CellStore, records: seq<Record>, items: seq<UpdateItem>)
    ensures forall i :: 0 <= i < |records| ==> ApplyUpdates(store, records, items)[i].id == records[i].id
  {
    if items != [] {
      UpdatesKeepIds(store, records, items[..|items| - 1]);
    }
  }

  // -------------------------------------------------------------- batch writers

  datatype WriteError =
    | MissingColumns(names: set<string>)
    | BatchFailed(number: nat)

  function ItemNames(items: seq<Fields>): set<string> {
    set i, n | 0 <= i < |items| && n in items[i] :: n
  }

  function UpdateFields(items: seq<UpdateItem>): (r: seq<Fields>)
    ensures |r| == |items|
  {
    seq(|items|, i requires 0 <= i < |items| => items[i].fields)
  }

  function CreateFields(items: seq<CreateItem>): (r: seq<Fields>)
    ensures |r| == |items|
  {
    seq(|items|, i requires 0 <= i < |items| => items[i].fields)
  }

  /** `validate_bitable_write_fields`: a table whose columns cannot be read is
      not checked. */
  function MissingNames(written: set<string>, columns: Option<set<string>>): set<string> {
    if columns.None? then {} else written - columns.value
  }

  lemma {:induction false} MissingInUpdates(items: seq<UpdateItem>, columns: Option<set<string>>)
    ensures var missing := MissingNames(ItemNames(UpdateFields(items)), columns);
            && (missing == {} <==>
                 !(columns.Some? && exists i, n :: 0 <= i < |items| && n in items[i].fields && n !in columns.value))
            && (missing != {} ==> forall n :: n in missing <==>
                 n !in columns.value && exists i :: 0 <= i < |items| && n in items[i].fields)
  {
    var names, missing := ItemNames(UpdateFields(items)), MissingNames(ItemNames(UpdateFields(items)), columns);
    forall n ensures n in names <==> exists i :: 0 <= i < |items| && n in items[i].fields {
      if i :| 0 <= i < |items| && n in items[i].fields { assert n in UpdateFields(items)[i]; }
    }
    forall i, n | columns.Some? && 0 <= i < |items| && n in items[i].fields && n !in columns.value
      ensures n in missing {
      assert n in names;
    }
    if missing != {} {
      var n :| n in missing;
      var i :| 0 <= i < |items| && n in items[i].fields;
    }
  }

  lemma {:induction false} MissingInCreates(items: seq<CreateItem>, columns: Option<set<string>>)
    ensures var missing := MissingNames(ItemNames(CreateFields(items)), columns);
            && (missing == {} <==>
                 !(columns.Some? && exists i, n :: 0 <= i < |items| && n in items[i].fields && n !in columns.value))
            && (missing != {} ==> forall n :: n in missing <==>
                 n !in columns.value && exists i :: 0 <= i < |items| && n in items[i].fields)
  {
    var names, missing := ItemNames(CreateFields(items)), MissingNames(ItemNames(CreateFields(items)), columns);
    forall n ensures n in names <==> exists i :: 0 <= i < |items| && n in items[i].fields {
      if i :| 0 <= i < |items| && n in items[i].fields { assert n in CreateFields(items)[i]; }
    }
    forall i, n | columns.Some? && 0 <= i < |items| && n in items[i].fields && n !in columns.value
      ensures n in missing {
      assert n in names;
    }
    if missing != {} {
      var n :| n in missing;
      var i :| 0 <= i < |items| && n in items[i].fields;
    }
  }

  function Min(a: nat, b: nat): nat { if a < b then a else b }

  /** How many of `total` items are in the table after the requests up to the
      first rejected one. */
  ghost predicate StoppedAfter(written: nat, total: nat, accepted: nat -> bool) {
    && written <= total
    && (forall b: nat :: b * BATCH_SIZE < written ==> accepted(b))
    && (written < total ==> written % BATCH_SIZE == 0 && !accepted(written / BATCH_SIZE))
  }

  ghost predicate AllAccepted(missing: set<string>, total: nat, accepted: nat -> bool) {
    missing == {} && StoppedAfter(total, total, accepted)
  }

  class Bitable {
    var records: seq<Record>
    var nextId: nat
    const store: CellStore

    ghost predicate Valid() reads this {
      IdsDistinct(records, nextId)
    }

    constructor (records: seq<Record>, nextId: nat, store: CellStore)
      requires IdsDistinct(records, nextId)
      ensures Valid()
      ensures this.records == records && this.nextId == nextId && this.store == store
    {
      this.records := records;
      this.nextId := nextId;
      this.store := store;
    }

    /** One request of at most a thousand records: all of it or nothing. */
    method RequestUpdate(chunk: seq<UpdateItem>, accepted: bool) returns (ok: bool)
      requires Valid()
      modifies this`records
      ensures Valid()
      ensures ok == accepted
      ensures records == if accepted then ApplyUpdates(store, old(records), chunk) else old(records)
    {
      if accepted {
        var i := 0;
        var current := records;
        while i < |chunk|
          invariant 0 <= i <= |chunk|
          invariant current == ApplyUpdates(store, old(records), chunk[..i])
        {
          current := UpdateOne(store, current, chunk[i]);
          assert chunk[..i + 1][..i] == chunk[..i];
          i := i + 1;
        }
        assert chunk[..|chunk|] == chunk;
        UpdatesKeepIds(store, records, chunk);
        records := current;
      }
      ok := accepted;
    }

    method RequestCreate(chunk: seq<CreateItem>, accepted: bool) returns (ok: bool)
      requires Valid()
      modifies this
      ensures Valid()
      ensures ok == accepted
      ensures records == if accepted then old(records) + Created(store, old(nextId), chunk) else old(records)
      ensures nextId == old(nextId) + if accepted then |chunk| else 0
    {
      if accepted {
        records := records + Created(store, nextId, chunk);
        nextId := nextId + |chunk|;
      }
      ok := accepted;
    }

    /** `batch_update_records` */
    method BatchUpdateRecords(items: seq<UpdateItem>, columns: Option<set<string>>, accepted: nat -> bool)
      returns (r: Result<(), WriteError>, written: nat)
      requires Valid()
      modifies this`records
      ensures Valid() && written <= |items|
      ensures records == ApplyUpdates(store, old(records), items[..written])
      ensures r.Ok? ==> written == |items|
      ensures r.Ok?
              <==> items == [] || AllAccepted(MissingNames(ItemNames(UpdateFields(items)), columns), |items|, accepted)
      ensures r.Err? && r.error.MissingColumns? <==>
                columns.Some? && exists i, n :: 0 <= i < |items| && n in items[i].fields && n !in columns.value
      ensures r.Err? && r.error.MissingColumns? ==>
                written == 0 && forall n :: n in r.error.names <==>
                  n !in columns.value && exists i :: 0 <= i < |items| && n in items[i].fields
      ensures r.Err? && r.error.MissingColumns? ==>
                written == 0 && r.error.names == MissingNames(ItemNames(UpdateFields(items)), columns) != {}
      ensures r.Err? && r.error.BatchFailed? ==>
                written < |items| && StoppedAfter(written, |items|, accepted)
                  && written % 1000 == 0 && r.error.number == written / 1000 + 1
    {
      hide ApplyUpdates, ItemNames, UpdateFields, MissingNames;
      written := 0;
      NoUpdatesYet(store, records);
      assert items[..0] == [];
      if items == [] { return Ok(()), 0; }
      var missing := MissingNames(ItemNames(UpdateFields(items)), columns);
      MissingInUpdates(items, columns);
      if missing != {} { return Err(MissingColumns(missing)), 0; }
      var index := 0;
      while written < |items|
        invariant Valid() && written == Min(index * BATCH_SIZE, |items|)
        invariant forall b: nat :: b < index ==> accepted(b)
        invariant index > 0 ==> (index - 1) * BATCH_SIZE < |items|
        invariant records == ApplyUpdates(store, old(records), items[..written])
      {
        var end := Min((index + 1) * BATCH_SIZE, |items|);
        var ok := RequestUpdate(items[written..end], accepted(index));
        if !ok {
          return Err(BatchFailed(index + 1)), written;
        }
        ApplyUpdatesInParts(store, old(records), items[..written], items[written..end]);
        assert items[..written] + items[written..end] == items[..end];
        index := index + 1;
        written := end;
      }
      r := Ok(());
    }

    /** `batch_create_records` */
    method BatchCreateRecords(items: seq<CreateItem>, columns: Option<set<string>>, accepted: nat -> bool)
      returns (r: Result<(), WriteError>, written: nat)
      requires Valid()
      modifies this
      ensures Valid() && written <= |items|
      ensures records == old(records) + Created(store, old(nextId), items[..written])
      ensures nextId == old(nextId) + written
      ensures r.Ok? ==> written == |items|
      ensures r.Ok?
              <==> items == [] || AllAccepted(MissingNames(ItemNames(CreateFields(items)), columns), |items|, accepted)
      ensures r.Err? && r.error.MissingColumns? <==>
                columns.Some? && exists i, n :: 0 <= i < |items| && n in items[i].fields && n !in columns.value
      ensures r.Err? && r.error.MissingColumns? ==>
                written == 0 && forall n :: n in r.error.names <==>
                  n !in columns.value && exists i :: 0 <= i < |items| && n in items[i].fields
      ensures r.Err? && r.error.MissingColumns? ==>
                written == 0 && r.error.names == MissingNames(ItemNames(CreateFields(items)), columns) != {}
      ensures r.Err? && r.error.BatchFailed? ==>
                written < |items| && StoppedAfter(written, |items|, accepted)
                  && written % 1000 == 0 && r.error.number == written / 1000 + 1
    {
      hide Created, ItemNames, CreateFields, MissingNames;
      written := 0;
      if items == [] { return Ok(()), 0; }
      var missing := MissingNames(ItemNames(CreateFields(items)), columns);
      MissingInCreates(items, columns);
      if missing != {} { return Err(MissingColumns(missing)), 0; }
      var index := 0;
      while written < |items|
        invariant Valid() && written == Min(index * BATCH_SIZE, |items|)
        invariant forall b: nat :: b < index ==> accepted(b)
        invariant index > 0 ==> (index - 1) * BATCH_SIZE < |items|
        invariant records == old(records) + Created(store, old(nextId), items[..written])
        invariant nextId == old(nextId) + written
      {
        var end := Min((index + 1) * BATCH_SIZE, |items|);
        var ok := RequestCreate(items[written..end], accepted(index));
        if !ok {
          return Err(BatchFailed(index + 1)), written;
        }
        CreatedInParts(store, old(nextId), items[..written], items[written..end]);
        assert items[..written] + items[written..end] == items[..end];
        index := index + 1;
        written := end;
      }
      r := Ok(());
    }
  }
}
