/** Convergence of an upsert into the target table: running a plan, stopping
    between writes and running again always ends in the same table, and then
    nothing is left to do. The main table and the audit table are instances. */
module Convergence {
  import opened Wrappers
  import opened Json
  import opened TargetTable
  import opened TableIndex
  import opened Upsert

  /** What stays fixed while one source is synced into one table. */
  datatype Setting = Setting(keyField: string, columns: set<string>, store: CellStore)

  // -------------------------------------------------------------------------- wishes

  function Synced(s: Setting, current: Fields, w: Wish): Fields {
    MergeFields(s.store, current, w.change(current))
  }

  /** What a wish may do to fields of the table's columns: stay within the columns,
      ask for nothing more once its changes are stored, and keep its key. */
  ghost predicate ChangesOk(s: Setting, w: Wish, current: Fields) {
    && w.change(current).Keys <= s.columns
    && w.change(Synced(s, current, w)) == map[]
    && (FieldKey(s.keyField, current) == Some(w.key) ==> FieldKey(s.keyField, Synced(s, current, w)) == Some(w.key))
  }

  /** And a record created for it carries its key and leaves nothing to ask. */
  ghost predicate WishOk(s: Setting, w: Wish) {
    && w.created.Keys <= s.columns
    && FieldKey(s.keyField, StoreFields(s.store, w.created)) == Some(w.key)
    && w.change(StoreFields(s.store, w.created)) == map[]
    && forall current: Fields :: current.Keys <= s.columns ==> ChangesOk(s, w, current)
  }

  ghost predicate WishesOk(s: Setting, wishes: seq<Wish>) {
    WishKeysDistinct(wishes) && forall n :: 0 <= n < |wishes| ==> WishOk(s, wishes[n])
  }

  lemma {:induction false} WishSettles(s: Setting, w: Wish, current: Fields)
    requires WishOk(s, w) && current.Keys <= s.columns
    ensures Synced(s, current, w).Keys <= s.columns
    ensures Synced(s, Synced(s, current, w), w) == Synced(s, current, w)
    ensures FieldKey(s.keyField, current) == Some(w.key) ==> FieldKey(s.keyField, Synced(s, current, w)) == Some(w.key)
  {
    hide FieldKey;
    assert ChangesOk(s, w, current);
    NothingToChange(s, Synced(s, current, w), w);
  }

  lemma NothingToChange(s: Setting, current: Fields, w: Wish)
    requires w.change(current) == map[]
    ensures Synced(s, current, w) == current
  {
  }

  lemma {:induction false} CreatedSettles(s: Setting, w: Wish)
    requires WishOk(s, w)
    ensures StoreFields(s.store, w.created).Keys <= s.columns
    ensures Synced(s, StoreFields(s.store, w.created), w) == StoreFields(s.store, w.created)
    ensures FieldKey(s.keyField, StoreFields(s.store, w.created)) == Some(w.key)
  {
    hide FieldKey, ChangesOk;
    NothingToChange(s, StoreFields(s.store, w.created), w);
  }

  /** Where nothing changes any more, nothing is left to ask for. */
  lemma {:induction false} UnchangedMeansSettled(s: Setting, current: Fields, w: Wish)
    requires WishOk(s, w) && current.Keys <= s.columns && Synced(s, current, w) == current
    ensures w.change(current) == map[]
  {
    hide FieldKey;
    assert ChangesOk(s, w, current);
  }

  // ---------------------------------------------------------------- tables and wishes

  ghost predicate TableOk(s: Setting, records: seq<Record>, nextId: nat) {
    && IdsDistinct(records, nextId)
    && KeysDistinct(KeysOf(s.keyField, records))
    && forall i :: 0 <= i < |records| ==> FieldsOf(records[i]).Keys <= s.columns
  }

  /** The record a complete run makes of `r`. */
  function Target(s: Setting, wishes: seq<Wish>, r: Record): Record {
    var key := KeyOf(s.keyField, r);
    if key.None? || WishFor(wishes, key.value).None? then r
    else Record(r.id, Obj(Synced(s, FieldsOf(r), WishFor(wishes, key.value).value)))
  }

  lemma {:induction false} TargetKeepsKey(s: Setting, wishes: seq<Wish>, r: Record)
    requires WishesOk(s, wishes) && FieldsOf(r).Keys <= s.columns
    ensures KeyOf(s.keyField, Target(s, wishes, r)) == KeyOf(s.keyField, r)
    ensures Target(s, wishes, r).id == r.id && FieldsOf(Target(s, wishes, r)).Keys <= s.columns
  {
    hide WishFor, WishOk, ChangesOk, Synced, FieldKey;
    var key := KeyOf(s.keyField, r);
    if key.Some? && WishFor(wishes, key.value).Some? {
      WishSettles(s, WishFor(wishes, key.value).value, FieldsOf(r));
    }
  }

  /** A record that is up to date stays as it is. */
  lemma {:induction false} TargetIdempotent(s: Setting, wishes: seq<Wish>, r: Record)
    requires WishesOk(s, wishes) && FieldsOf(r).Keys <= s.columns
    ensures Target(s, wishes, Target(s, wishes, r)) == Target(s, wishes, r)
  {
    hide KeyOf, WishFor, WishOk, ChangesOk, Synced, FieldKey;
    TargetKeepsKey(s, wishes, r);
    var key := KeyOf(s.keyField, r);
    if key.Some? && WishFor(wishes, key.value).Some? {
      var w := WishFor(wishes, key.value).value;
      KeyedIsObject(s.keyField, r);
      WishSettles(s, w, FieldsOf(r));
    }
  }

  /** A record created for a wish whose key was missing from the table. */
  predicate IsCreatedFor(s: Setting, wishes: seq<Wish>, known: set<string>, r: Record) {
    var key := KeyOf(s.keyField, r);
    && key.Some? && key.value !in known
    && WishFor(wishes, key.value).Some?
    && r.fields == Obj(StoreFields(s.store, WishFor(wishes, key.value).value.created))
  }

  lemma {:induction false} CreatedIsTarget(s: Setting, wishes: seq<Wish>, known: set<string>, r: Record)
    requires WishesOk(s, wishes) && IsCreatedFor(s, wishes, known, r)
    ensures Target(s, wishes, r) == r && FieldsOf(r).Keys <= s.columns
  {
    hide KeyOf, WishFor, WishOk, ChangesOk, Synced, FieldKey, StoreFields;
    var w := WishFor(wishes, KeyOf(s.keyField, r).value).value;
    CreatedSettles(s, w);
  }

  // ------------------------------------------------------------- what a plan does

  function ItemFor(items: seq<UpdateItem>, id: nat): Option<Fields> {
    if items == [] then None
    else if items[|items| - 1].id == id then Some(items[|items| - 1].fields)
    else ItemFor(items[..|items| - 1], id)
  }

  lemma {:induction false} ItemForMember(items: seq<UpdateItem>, id: nat)
    ensures ItemFor(items, id).Some? ==> UpdateItem(id, ItemFor(items, id).value) in items
    ensures ItemFor(items, id).None? ==> forall item :: item in items ==> item.id != id
  {
    if items != [] {
      ItemForMember(items[..|items| - 1], id);
    }
  }

  predicate ItemIdsDistinct(items: seq<UpdateItem>) {
    forall i, j :: 0 <= i < j < |items| ==> items[i].id != items[j].id
  }

  /** Each record sees only the update with its own id. */
  lemma {:induction false} UpdatesAt(store: CellStore, records: seq<Record>, items: seq<UpdateItem>, i: nat)
    requires i < |records| && ItemIdsDistinct(items)
    ensures ApplyUpdates(store, records, items)[i]
         == match ItemFor(items, records[i].id)
            case None => records[i]
            case Some(changed) => UpdateRecord(store, records[i], changed)
  {
    if items != [] {
      var front, last := items[..|items| - 1], items[|items| - 1];
      UpdatesAt(store, records, front, i);
      ItemForMember(front, records[i].id);
    }
  }

  /** What the updates of a plan do to a record: the one with its id writes the cells it
      names, and the record keeps its id and all other cells; without one it stays. */
  lemma {:induction false} UpdatedCells(store: CellStore, records: seq<Record>, items: seq<UpdateItem>, i: nat,
      item: UpdateItem)
    requires i < |records| && ItemIdsDistinct(items)
    ensures var before, after := records[i], ApplyUpdates(store, records, items)[i];
            && after.id == before.id
            && ((forall other :: other in items ==> other.id != before.id) ==> after == before)
            && (item in items && item.id == before.id ==>
                  && after.fields.Obj?
                  && (forall n :: n in item.fields ==>
                        n in after.fields.fields && after.fields.fields[n] == store(n, item.fields[n]))
                  && (forall n :: n !in item.fields ==>
                        && (n in after.fields.fields <==> before.fields.Obj? && n in before.fields.fields)
                        && (n in after.fields.fields ==> after.fields.fields[n] == before.fields.fields[n])))
  {
    hide ApplyUpdates, ItemFor;
    UpdatesAt(store, records, items, i);
    ItemForMember(items, records[i].id);
    if item in items && item.id == records[i].id {
      var other := UpdateItem(records[i].id, ItemFor(items, records[i].id).value);
      var a :| 0 <= a < |items| && items[a] == item;
      var b :| 0 <= b < |items| && items[b] == other;
      assert a == b;
    }
  }

  /** The record an update of the plan is for is the one whose key its wish has. */
  lemma {:induction false} UpdateIsTarget(s: Setting, wishes: seq<Wish>, records: seq<Record>, nextId: nat,
      index: map<string, IndexItem>, i: nat, changed: Fields)
    requires WishesOk(s, wishes) && TableOk(s, records, nextId)
    requires IsIndexOf(index, KeysOf(s.keyField, records), records)
    requires i < |records| && UpdateItem(records[i].id, changed) in PlanUpdates(index, wishes)
    ensures UpdateRecord(s.store, records[i], changed) == Target(s, wishes, records[i])
  {
    hide KeyOf, WishFor, WishOk, ChangesOk, MergeFields;
    var keys := KeysOf(s.keyField, records);
    var n := UpdateComesFromWish(index, wishes, UpdateItem(records[i].id, changed));
    var key := wishes[n].key;
    assert key in KeySet(keys);
    var j :| 0 <= j < |records| && keys[j] == Some(key);
    assert index[key] == IndexItem(records[j].id, FieldsOf(records[j]));
    assert i == j;
    WishForOwnKey(wishes, n);
  }

  /** A record no update is for is already what it should be. */
  lemma {:induction false} NoUpdateIsTarget(s: Setting, wishes: seq<Wish>, records: seq<Record>, nextId: nat,
      index: map<string, IndexItem>, i: nat)
    requires WishesOk(s, wishes) && TableOk(s, records, nextId)
    requires IsIndexOf(index, KeysOf(s.keyField, records), records)
    requires i < |records|
    requires forall item :: item in PlanUpdates(index, wishes) ==> item.id != records[i].id
    ensures Target(s, wishes, records[i]) == records[i]
  {
    hide KeyOf, WishFor, WishOk, ChangesOk, MergeFields;
    var keys := KeysOf(s.keyField, records);
    var r := records[i];
    KeyedIsObject(s.keyField, r);
    if keys[i].Some? && WishFor(wishes, keys[i].value).Some? {
      var w := WishFor(wishes, keys[i].value).value;
      var n :| 0 <= n < |wishes| && wishes[n] == w;
      WishGivesUpdate(index, wishes, n);
      assert keys[i].value in KeySet(keys);
      assert index[w.key] == IndexItem(r.id, FieldsOf(r));
      var changed := w.change(FieldsOf(r));
      assert UpdateFor(index, w) == if changed == map[] then [] else [UpdateItem(r.id, changed)];
      assert changed == map[];
      NothingToChange(s, FieldsOf(r), w);
    }
  }

  /** The table after the first `m` updates and the first `c` creates of a plan. */
  function AfterWrites(s: Setting, records: seq<Record>, nextId: nat, plan: Plan, m: nat, c: nat): (r: seq<Record>)
    requires m <= |plan.updates| && c <= |plan.creates|
    ensures |r| == |records| + c
  {
    ApplyUpdates(s.store, records, plan.updates[..m]) + Created(s.store, nextId, plan.creates[..c])
  }

  ghost predicate RunOk(s: Setting, wishes: seq<Wish>, records: seq<Record>, nextId: nat,
      index: map<string, IndexItem>) {
    && WishesOk(s, wishes) && TableOk(s, records, nextId)
    && IsIndexOf(index, KeysOf(s.keyField, records), records)
  }

  /** Every record is either as it was or as the wish with its key wants it, and
      after all updates it is the latter. */
  lemma {:induction false} UpdatedRecord(s: Setting, wishes: seq<Wish>, records: seq<Record>, nextId: nat,
      index: map<string, IndexItem>, m: nat, i: nat)
    requires RunOk(s, wishes, records, nextId, index) && i < |records|
    requires m <= |PlanUpdates(index, wishes)|
    ensures var after := ApplyUpdates(s.store, records, PlanUpdates(index, wishes)[..m])[i];
            && (after == records[i] || after == Target(s, wishes, records[i]))
            && (m == |PlanUpdates(index, wishes)| ==> after == Target(s, wishes, records[i]))
  {
    hide KeyOf, Target, PlanUpdates, UpdateRecord;
    var all := PlanUpdates(index, wishes);
    var items := all[..m];
    IndexIdsAreDistinct(KeysOf(s.keyField, records), records, nextId, index);
    UpdateIdsDistinct(index, wishes);
    UpdatesAt(s.store, records, items, i);
    ItemForMember(items, records[i].id);
    match ItemFor(items, records[i].id)
    case Some(changed) =>
      UpdateIsTarget(s, wishes, records, nextId, index, i, changed);
    case None =>
      if m == |all| {
        assert items == all;
        NoUpdateIsTarget(s, wishes, records, nextId, index, i);
      }
  }

  /** Every created record carries the key of its own new wish. */
  lemma {:induction false} CreatedRecord(s: Setting, wishes: seq<Wish>, index: map<string, IndexItem>,
      known: set<string>, nextId: nat, c: nat, j: nat)
    requires WishesOk(s, wishes) && index.Keys == known
    requires j < c <= |PlanCreates(index, wishes)| == |NewWishes(index, wishes)|
    ensures var r := Created(s.store, nextId, PlanCreates(index, wishes)[..c])[j];
            && KeyOf(s.keyField, r) == Some(NewWishes(index, wishes)[j].key)
            && IsCreatedFor(s, wishes, known, r) && r.id == nextId + j
  {
    hide WishOk, ChangesOk, WishFor, PlanCreates, NewWishes, StoreFields, FieldKey;
    CreatesAreNewWishes(index, wishes);
    NewWishesAreNew(index, wishes);
    var w := NewWishes(index, wishes)[j];
    assert w in wishes && w.key !in known;
    var n :| 0 <= n < |wishes| && wishes[n] == w;
    assert WishOk(s, w);
    CreatedSettles(s, w);
    WishForOwnKey(wishes, n);
  }

  // --------------------------------------------------------------- interrupted runs

  lemma {:induction false} RunAt(s: Setting, wishes: seq<Wish>, records: seq<Record>, nextId: nat,
      index: map<string, IndexItem>, m: nat, c: nat, i: nat)
    requires RunOk(s, wishes, records, nextId, index)
    requires m <= |PlanFor(index, wishes).updates|
             && c <= |PlanFor(index, wishes).creates| == |NewWishes(index, wishes)|
    requires i < |records| + c
    ensures var r := AfterWrites(s, records, nextId, PlanFor(index, wishes), m, c)[i];
            if i < |records| then
              && (r == records[i] || r == Target(s, wishes, records[i]))
              && (m == |PlanFor(index, wishes).updates| ==> r == Target(s, wishes, records[i]))
              && r.id == records[i].id && KeyOf(s.keyField, r) == KeyOf(s.keyField, records[i])
              && FieldsOf(r).Keys <= s.columns
            else
              && IsCreatedFor(s, wishes, KeySet(KeysOf(s.keyField, records)), r)
              && r.id == nextId + i - |records|
              && KeyOf(s.keyField, r) == Some(NewWishes(index, wishes)[i - |records|].key)
              && FieldsOf(r).Keys <= s.columns
  {
    hide KeyOf, Target, WishFor, PlanUpdates, PlanCreates, NewWishes, IsCreatedFor, ApplyUpdates, Created;
    if i < |records| {
      UpdatedRecord(s, wishes, records, nextId, index, m, i);
      TargetKeepsKey(s, wishes, records[i]);
    } else {
      var known := KeySet(KeysOf(s.keyField, records));
      var r := Created(s.store, nextId, PlanCreates(index, wishes)[..c])[i - |records|];
      CreatedRecord(s, wishes, index, known, nextId, c, i - |records|);
      CreatedIsTarget(s, wishes, known, r);
    }
  }

  /** Any part of a run leaves a table that can be indexed again. */
  lemma {:induction false} RunKeepsTableOk(s: Setting, wishes: seq<Wish>, records: seq<Record>, nextId: nat,
      index: map<string, IndexItem>, m: nat, c: nat)
    requires RunOk(s, wishes, records, nextId, index)
    requires m <= |PlanFor(index, wishes).updates| && c <= |PlanFor(index, wishes).creates|
    ensures TableOk(s, AfterWrites(s, records, nextId, PlanFor(index, wishes), m, c), nextId + c)
  {
    hide KeyOf, Target, IsCreatedFor, AfterWrites, NewWishes, PlanCreates, PlanUpdates, WishOk, KeySet;
    var after := AfterWrites(s, records, nextId, PlanFor(index, wishes), m, c);
    var keys, keys' := KeysOf(s.keyField, records), KeysOf(s.keyField, after);
    var fresh_ := NewWishes(index, wishes);
    CreatesAreNewWishes(index, wishes);
    NewWishesAreNew(index, wishes);
    forall i | 0 <= i < |after|
      ensures FieldsOf(after[i]).Keys <= s.columns
      ensures after[i].id == if i < |records| then records[i].id else nextId + i - |records|
      ensures keys'[i] == if i < |records| then keys[i] else Some(fresh_[i - |records|].key)
    {
      RunAt(s, wishes, records, nextId, index, m, c, i);
    }
    ExtendedKeysDistinct(keys, fresh_, keys');
  }

  lemma ExtendedKeysDistinct(keys: seq<Option<string>>, added: seq<Wish>, all: seq<Option<string>>)
    requires KeysDistinct(keys) && WishKeysDistinct(added) && |keys| <= |all| <= |keys| + |added|
    requires forall n :: 0 <= n < |added| ==> added[n].key !in KeySet(keys)
    requires forall i :: 0 <= i < |all| ==> all[i] == if i < |keys| then keys[i] else Some(added[i - |keys|].key)
    ensures KeysDistinct(all)
  {
    forall i, j | 0 <= i < j < |all| && all[i].Some? ensures all[i] != all[j] {
      if i < |keys| {
        assert keys[i].value in KeySet(keys);
      }
    }
  }

  /** `records` is `start` with some updates and creates of the sync done. */
  ghost predicate Between(s: Setting, wishes: seq<Wish>, start: seq<Record>, records: seq<Record>) {
    && |start| <= |records|
    && (forall i :: 0 <= i < |start| ==> records[i] == start[i] || records[i] == Target(s, wishes, start[i]))
    && (forall i :: |start| <= i < |records| ==> IsCreatedFor(s, wishes, KeySet(KeysOf(s.keyField, start)), records[i]))
  }

  /** All of it is done. */
  ghost predicate Finished(s: Setting, wishes: seq<Wish>, start: seq<Record>, records: seq<Record>) {
    && Between(s, wishes, start, records)
    && (forall i :: 0 <= i < |start| ==> records[i] == Target(s, wishes, start[i]))
    && (forall n :: 0 <= n < |wishes| ==> wishes[n].key in KeySet(KeysOf(s.keyField, records)))
  }

  lemma {:induction false} BetweenKeepsKeys(s: Setting, wishes: seq<Wish>, start: seq<Record>, records: seq<Record>,
      nextId: nat)
    requires WishesOk(s, wishes) && TableOk(s, start, nextId) && Between(s, wishes, start, records)
    ensures forall i :: 0 <= i < |start| ==> KeysOf(s.keyField, records)[i] == KeysOf(s.keyField, start)[i]
    ensures KeySet(KeysOf(s.keyField, start)) <= KeySet(KeysOf(s.keyField, records))
  {
    hide KeyOf, Target, WishFor, IsCreatedFor;
    var keys, keys' := KeysOf(s.keyField, start), KeysOf(s.keyField, records);
    forall i | 0 <= i < |start| ensures keys'[i] == keys[i] {
      TargetKeepsKey(s, wishes, start[i]);
    }
    forall key | key in KeySet(keys) ensures key in KeySet(keys') {
      var i :| 0 <= i < |keys| && keys[i] == Some(key);
      assert keys'[i] == Some(key);
    }
  }

  /** One record of an interrupted run, measured against the start of all runs. */
  lemma {:induction false} RunAtFromStart(s: Setting, wishes: seq<Wish>, start: seq<Record>, startId: nat,
      records: seq<Record>, nextId: nat,
      index: map<string, IndexItem>, m: nat, c: nat, i: nat)
    requires RunOk(s, wishes, records, nextId, index)
    requires TableOk(s, start, startId) && Between(s, wishes, start, records)
    requires m <= |PlanFor(index, wishes).updates| && c <= |PlanFor(index, wishes).creates|
    requires i < |records| + c
    ensures var r := AfterWrites(s, records, nextId, PlanFor(index, wishes), m, c)[i];
            if i < |start| then
              && (r == start[i] || r == Target(s, wishes, start[i]))
              && (m == |PlanFor(index, wishes).updates| ==> r == Target(s, wishes, start[i]))
            else IsCreatedFor(s, wishes, KeySet(KeysOf(s.keyField, start)), r)
  {
    hide KeyOf, Target, WishFor, AfterWrites, NewWishes, PlanCreates, PlanUpdates, KeySet, StoreFields;
    CreatesAreNewWishes(index, wishes);
    RunAt(s, wishes, records, nextId, index, m, c, i);
    if i < |start| {
      TargetIdempotent(s, wishes, start[i]);
    } else if i < |records| {
      CreatedIsTarget(s, wishes, KeySet(KeysOf(s.keyField, start)), records[i]);
    } else {
      BetweenKeepsKeys(s, wishes, start, records, startId);
    }
  }

  /** Resuming from any interrupted state stays between the start and the end,
      and a complete run reaches the end. */
  lemma {:induction false} RunStaysBetween(s: Setting, wishes: seq<Wish>, start: seq<Record>, startId: nat,
      records: seq<Record>, nextId: nat,
      index: map<string, IndexItem>, m: nat, c: nat)
    requires RunOk(s, wishes, records, nextId, index)
    requires TableOk(s, start, startId) && Between(s, wishes, start, records)
    requires m <= |PlanFor(index, wishes).updates| && c <= |PlanFor(index, wishes).creates|
    ensures var after := AfterWrites(s, records, nextId, PlanFor(index, wishes), m, c);
            && TableOk(s, after, nextId + c)
            && Between(s, wishes, start, after)
            && (m == |PlanFor(index, wishes).updates| && c == |PlanFor(index, wishes).creates| ==>
                 Finished(s, wishes, start, after))
  {
    hide KeyOf, Target, IsCreatedFor, AfterWrites, NewWishes, PlanCreates, PlanUpdates, TableOk;
    var after := AfterWrites(s, records, nextId, PlanFor(index, wishes), m, c);
    RunKeepsTableOk(s, wishes, records, nextId, index, m, c);
    forall i | 0 <= i < |after|
      ensures i < |start| ==> after[i] == start[i] || after[i] == Target(s, wishes, start[i])
      ensures i < |start| && m == |PlanFor(index, wishes).updates| ==> after[i] == Target(s, wishes, start[i])
      ensures i >= |start| ==> IsCreatedFor(s, wishes, KeySet(KeysOf(s.keyField, start)), after[i])
    {
      RunAtFromStart(s, wishes, start, startId, records, nextId, index, m, c, i);
    }
    if c == |PlanFor(index, wishes).creates| {
      AllKeysPresent(s, wishes, records, nextId, index, m);
    }
  }

  /** After all creates every source key is in the table. */
  lemma {:induction false} AllKeysPresent(s: Setting, wishes: seq<Wish>, records: seq<Record>, nextId: nat,
      index: map<string, IndexItem>, m: nat)
    requires RunOk(s, wishes, records, nextId, index)
    requires m <= |PlanFor(index, wishes).updates|
    ensures var after := AfterWrites(s, records, nextId, PlanFor(index, wishes), m, |PlanFor(index, wishes).creates|);
            forall n :: 0 <= n < |wishes| ==> wishes[n].key in KeySet(KeysOf(s.keyField, after))
  {
    hide KeyOf, Target, IsCreatedFor, AfterWrites, NewWishes, PlanCreates, PlanUpdates, WishOk;
    var c := |PlanFor(index, wishes).creates|;
    var after := AfterWrites(s, records, nextId, PlanFor(index, wishes), m, c);
    var keys, keys' := KeysOf(s.keyField, records), KeysOf(s.keyField, after);
    CreatesAreNewWishes(index, wishes);
    NewWishesAreNew(index, wishes);
    forall n | 0 <= n < |wishes| ensures wishes[n].key in KeySet(keys') {
      if wishes[n].key in index {
        var i :| 0 <= i < |keys| && keys[i] == Some(wishes[n].key);
        RunAt(s, wishes, records, nextId, index, m, c, i);
        assert keys'[i] == Some(wishes[n].key);
      } else {
        assert wishes[n] in NewWishes(index, wishes);
        var j :| 0 <= j < c && NewWishes(index, wishes)[j] == wishes[n];
        RunAt(s, wishes, records, nextId, index, m, c, |records| + j);
        assert keys'[|records| + j] == Some(wishes[n].key);
      }
    }
  }

  // -------------------------------------------------------------------- main results

  function FieldsAt(keyField: string, records: seq<Record>, key: string): Option<Fields> {
    if records == [] then None
    else if KeyOf(keyField, records[0]) == Some(key) then Some(FieldsOf(records[0]))
    else FieldsAt(keyField, records[1..], key)
  }

  /** What the sync is to leave under a key: the old record brought up to date,
      or the wish as it is stored. */
  function Outcome(s: Setting, wishes: seq<Wish>, start: seq<Record>, key: string): Option<Fields> {
    match (FieldsAt(s.keyField, start, key), WishFor(wishes, key))
    case (Some(current), Some(w)) => Some(Synced(s, current, w))
    case (Some(current), None) => Some(current)
    case (None, Some(w)) => Some(StoreFields(s.store, w.created))
    case (None, None) => None
  }

  lemma {:induction false} FieldsAtRecord(keyField: string, records: seq<Record>, i: nat)
    requires i < |records| && KeysDistinct(KeysOf(keyField, records)) && KeyOf(keyField, records[i]).Some?
    ensures FieldsAt(keyField, records, KeyOf(keyField, records[i]).value) == Some(FieldsOf(records[i]))
  {
    hide KeyOf;
    var keys := KeysOf(keyField, records);
    if i > 0 {
      assert keys[0] != keys[i];
      assert KeysOf(keyField, records[1..]) == keys[1..];
      FieldsAtRecord(keyField, records[1..], i - 1);
    }
  }

  lemma {:induction false} FieldsAtMissing(keyField: string, records: seq<Record>, key: string)
    requires key !in KeySet(KeysOf(keyField, records))
    ensures FieldsAt(keyField, records, key).None?
  {
    hide KeyOf;
    var keys := KeysOf(keyField, records);
    if records != [] {
      assert keys[0] != Some(key);
      assert KeysOf(keyField, records[1..]) == keys[1..];
      assert key !in KeySet(keys[1..]);
      FieldsAtMissing(keyField, records[1..], key);
    }
  }

  /** A finished sync leaves under every key exactly the outcome that the
      wishes and the starting table determine; so it does not matter how often and
      where earlier runs stopped. */
  lemma {:induction false} FinishedOutcome(s: Setting, wishes: seq<Wish>, start: seq<Record>, startId: nat,
      records: seq<Record>, nextId: nat, key: string)
    requires WishesOk(s, wishes)
    requires TableOk(s, start, startId) && TableOk(s, records, nextId) && Finished(s, wishes, start, records)
    ensures FieldsAt(s.keyField, records, key) == Outcome(s, wishes, start, key)
  {
    hide KeyOf, FieldsAt, WishFor, Synced, StoreFields;
    var keys, keys' := KeysOf(s.keyField, start), KeysOf(s.keyField, records);
    BetweenKeepsKeys(s, wishes, start, records, startId);
    if key in KeySet(keys) {
      var i :| 0 <= i < |start| && keys[i] == Some(key);
      FieldsAtRecord(s.keyField, start, i);
      FieldsAtRecord(s.keyField, records, i);
    } else {
      FieldsAtMissing(s.keyField, start, key);
      if key in KeySet(keys') {
        var i :| 0 <= i < |records| && keys'[i] == Some(key);
        FieldsAtRecord(s.keyField, records, i);
      } else {
        FieldsAtMissing(s.keyField, records, key);
        WishForSourceKey(wishes, key);
      }
    }
  }

  /** The keys of the finished table are the old ones and the source's, and
      records of other keys or without a key are as they were. */
  lemma {:induction false} FinishedTable(s: Setting, wishes: seq<Wish>, start: seq<Record>, startId: nat,
      records: seq<Record>)
    requires WishesOk(s, wishes) && TableOk(s, start, startId) && Finished(s, wishes, start, records)
    ensures KeySet(KeysOf(s.keyField, records)) == KeySet(KeysOf(s.keyField, start)) + SourceKeys(wishes)
    ensures |start| <= |records|
    ensures forall i :: 0 <= i < |start| && !IsSourceKey(wishes, KeyOf(s.keyField, start[i])) ==> records[i] == start[i]
    ensures forall i :: |start| <= i < |records| ==> IsSourceKey(wishes, KeyOf(s.keyField, records[i]))
  {
    hide KeyOf, WishFor, Synced, StoreFields;
    var keys, keys' := KeysOf(s.keyField, start), KeysOf(s.keyField, records);
    BetweenKeepsKeys(s, wishes, start, records, startId);
    forall i | |start| <= i < |records| ensures IsSourceKey(wishes, keys'[i]) {
      var w := WishFor(wishes, keys'[i].value).value;
      var n :| 0 <= n < |wishes| && wishes[n] == w;
    }
    assert forall i :: 0 <= i < |start| && keys'[i].Some? ==> keys[i] == keys'[i] && keys'[i].value in KeySet(keys);
    forall key | key in KeySet(keys') && key !in KeySet(keys) ensures IsSourceKey(wishes, Some(key)) {
      var i :| 0 <= i < |records| && keys'[i] == Some(key);
    }
  }

  function SourceKeys(wishes: seq<Wish>): set<string> {
    set n | 0 <= n < |wishes| :: wishes[n].key
  }

  predicate IsSourceKey(wishes: seq<Wish>, key: Option<string>) {
    exists n :: 0 <= n < |wishes| && Some(wishes[n].key) == key
  }

  /** Planning again on a finished table finds nothing to do. */
  lemma {:induction false} FinishedPlanIsEmpty(s: Setting, wishes: seq<Wish>, start: seq<Record>, startId: nat,
      records: seq<Record>, nextId: nat,
      index: map<string, IndexItem>)
    requires RunOk(s, wishes, records, nextId, index)
    requires TableOk(s, start, startId) && Finished(s, wishes, start, records)
    ensures PlanFor(index, wishes) == Plan([], [])
  {
    hide KeyOf, WishFor, Target, PlanCreates, PlanUpdates, NewWishes, IsCreatedFor;
    CreatesAreNewWishes(index, wishes);
    NewWishesAreNew(index, wishes);
    FirstIsMember(NewWishes(index, wishes));
    var updates := PlanUpdates(index, wishes);
    FirstIsMember(updates);
    forall item ensures item !in updates {
      NothingLeftFor(s, wishes, start, startId, records, nextId, index, item);
    }
  }

  lemma FirstIsMember<T>(xs: seq<T>)
    ensures xs != [] ==> xs[0] in xs
  {
  }

  lemma {:induction false} NothingLeftFor(s: Setting, wishes: seq<Wish>, start: seq<Record>, startId: nat,
      records: seq<Record>, nextId: nat,
      index: map<string, IndexItem>, item: UpdateItem)
    requires RunOk(s, wishes, records, nextId, index)
    requires TableOk(s, start, startId) && Finished(s, wishes, start, records)
    ensures item !in PlanUpdates(index, wishes)
  {
    hide KeyOf, WishFor, WishOk, ChangesOk, MergeFields, IsCreatedFor, Synced;
    if item in PlanUpdates(index, wishes) {
      var n := UpdateComesFromWish(index, wishes, item);
      var keys := KeysOf(s.keyField, records);
      var i :| 0 <= i < |records| && keys[i] == Some(wishes[n].key);
      if i < |start| {
        TargetIdempotent(s, wishes, start[i]);
      } else {
        CreatedIsTarget(s, wishes, KeySet(KeysOf(s.keyField, start)), records[i]);
      }
      WishForOwnKey(wishes, n);
      KeyedIsObject(s.keyField, records[i]);
      UnchangedMeansSettled(s, FieldsOf(records[i]), wishes[n]);
    }
  }

  // ------------------------------------------------------- whole histories of runs

  datatype TableState = TableState(records: seq<Record>, nextId: nat)

  /** A run that indexes `a`, plans, and stops after `m` updates and `c` creates;
      creates start only when all updates are through. */
  ghost predicate IsRunPart(s: Setting, wishes: seq<Wish>, a: TableState, b: TableState,
      index: map<string, IndexItem>, m: nat, c: nat) {
    && KeysDistinct(KeysOf(s.keyField, a.records))
    && IsIndexOf(index, KeysOf(s.keyField, a.records), a.records)
    && var plan := PlanFor(index, wishes);
    && m <= |plan.updates| && c <= |plan.creates| && (c > 0 ==> m == |plan.updates|)
    && b == TableState(AfterWrites(s, a.records, a.nextId, plan, m, c), a.nextId + c)
  }

  /** A run that stopped somewhere, perhaps before its first write. */
  ghost predicate InterruptedRun(s: Setting, wishes: seq<Wish>, a: TableState, b: TableState) {
    a == b || exists index, m, c :: IsRunPart(s, wishes, a, b, index, m, c)
  }

  ghost predicate CompleteRun(s: Setting, wishes: seq<Wish>, a: TableState, b: TableState) {
    exists index ::
      IsRunPart(s, wishes, a, b, index, |PlanFor(index, wishes).updates|, |PlanFor(index, wishes).creates|)
  }

  lemma StartIsBetween(s: Setting, wishes: seq<Wish>, start: seq<Record>)
    ensures Between(s, wishes, start, start)
  {
  }

  /** Through any number of interrupted runs of one source, no key is ever held
      by two records and every record is either old or done. */
  lemma {:induction false} InterruptedRunsStayBetween(s: Setting, wishes: seq<Wish>, states: seq<TableState>, n: nat)
    requires WishesOk(s, wishes)
    requires n < |states| && TableOk(s, states[0].records, states[0].nextId)
    requires forall k :: 0 <= k < |states| - 1 ==> InterruptedRun(s, wishes, states[k], states[k + 1])
    ensures TableOk(s, states[n].records, states[n].nextId)
    ensures Between(s, wishes, states[0].records, states[n].records)
  {
    hide KeyOf, AfterWrites, Target, IsCreatedFor, PlanFor, TableOk, WishesOk;
    if n == 0 {
      StartIsBetween(s, wishes, states[0].records);
    } else {
      InterruptedRunsStayBetween(s, wishes, states, n - 1);
      var a := states[n - 1];
      assert InterruptedRun(s, wishes, states[n - 1], states[n - 1 + 1]);
      if a == states[n] { return; }
      var index, m, c :| IsRunPart(s, wishes, a, states[n], index, m, c);
      RunStaysBetween(s, wishes, states[0].records, states[0].nextId, a.records, a.nextId, index, m, c);
    }
  }

  /** A table on which a run is not refused: no key is held twice, and if there are
      records then some key is recognised. */
  ghost predicate Accepted(s: Setting, records: seq<Record>) {
    KeysDistinct(KeysOf(s.keyField, records)) && (records == [] || KeySet(KeysOf(s.keyField, records)) != {})
  }

  /** From a table without repeated keys a complete run is possible. */
  lemma {:induction false} CompleteRunExists(s: Setting, wishes: seq<Wish>, a: TableState) returns (b: TableState)
    requires KeysDistinct(KeysOf(s.keyField, a.records))
    ensures CompleteRun(s, wishes, a, b)
  {
    hide KeyOf, AfterWrites, PlanFor, IsIndexOf;
    var index := IndexExists(KeysOf(s.keyField, a.records), a.records);
    var plan := PlanFor(index, wishes);
    b := TableState(AfterWrites(s, a.records, a.nextId, plan, |plan.updates|, |plan.creates|),
      a.nextId + |plan.creates|);
    assert IsRunPart(s, wishes, a, b, index, |PlanFor(index, wishes).updates|, |PlanFor(index, wishes).creates|);
  }

  /** Any part of a run leaves a table that can be indexed, whose keys are old ones or
      the source's. */
  lemma {:induction false} InterruptedRunKeys(s: Setting, wishes: seq<Wish>, a: TableState, b: TableState)
    requires WishesOk(s, wishes) && TableOk(s, a.records, a.nextId) && InterruptedRun(s, wishes, a, b)
    ensures TableOk(s, b.records, b.nextId) && Between(s, wishes, a.records, b.records)
    ensures KeySet(KeysOf(s.keyField, b.records)) <= KeySet(KeysOf(s.keyField, a.records)) + SourceKeys(wishes)
    ensures KeySet(KeysOf(s.keyField, a.records)) <= KeySet(KeysOf(s.keyField, b.records))
  {
    hide KeyOf, WishesOk, WishFor, Target, AfterWrites, PlanFor, IsIndexOf, TableOk, StoreFields;
    assert [a, b][0] == a && [a, b][1] == b;
    InterruptedRunsStayBetween(s, wishes, [a, b], 1);
    BetweenKeepsKeys(s, wishes, a.records, b.records, a.nextId);
    var keys, keys' := KeysOf(s.keyField, a.records), KeysOf(s.keyField, b.records);
    forall key | key in KeySet(keys') ensures key in KeySet(keys) + SourceKeys(wishes) {
      var i :| 0 <= i < |keys'| && keys'[i] == Some(key);
      if i < |keys| {
        assert keys[i] == Some(key);
      } else {
        WishForSourceKey(wishes, key);
      }
    }
  }

  /** A run that stopped somewhere, or one that went through. */
  ghost predicate Effect(s: Setting, wishes: seq<Wish>, a: TableState, b: TableState, complete: bool) {
    if complete then CompleteRun(s, wishes, a, b) else InterruptedRun(s, wishes, a, b)
  }

  /** Retrying never gets stuck: wherever the runs before it stopped, the next run is
      accepted and can be carried through. */
  lemma {:induction false} RetryIsAccepted(s: Setting, wishes: seq<Wish>, states: seq<TableState>, n: nat)
    requires WishesOk(s, wishes)
    requires n < |states| && TableOk(s, states[0].records, states[0].nextId) && Accepted(s, states[0].records)
    requires forall k :: 0 <= k < |states| - 1 ==> InterruptedRun(s, wishes, states[k], states[k + 1])
    ensures Accepted(s, states[n].records)
    ensures exists last :: CompleteRun(s, wishes, states[n], last)
  {
    hide KeyOf, WishesOk, WishFor, Target, AfterWrites, PlanFor, IsIndexOf;
    var start, now := states[0], states[n];
    InterruptedRunsStayBetween(s, wishes, states, n);
    BetweenKeepsKeys(s, wishes, start.records, now.records, start.nextId);
    var keys := KeysOf(s.keyField, now.records);
    if start.records == [] && now.records != [] {
      assert keys[0].value in KeySet(keys);
    }
    var last := CompleteRunExists(s, wishes, now);
  }

  /** Crash and retry: after any number of interrupted runs, one complete run
      leaves under every key what the starting table and the wishes determine,
      holds no key twice, and leaves nothing to plan. */
  lemma {:induction false} CrashRetryConverges(s: Setting, wishes: seq<Wish>, states: seq<TableState>, last: TableState)
    requires WishesOk(s, wishes)
    requires states != [] && TableOk(s, states[0].records, states[0].nextId)
    requires forall k :: 0 <= k < |states| - 1 ==> InterruptedRun(s, wishes, states[k], states[k + 1])
    requires CompleteRun(s, wishes, states[|states| - 1], last)
    ensures TableOk(s, last.records, last.nextId)
    ensures Finished(s, wishes, states[0].records, last.records)
    ensures forall key :: FieldsAt(s.keyField, last.records, key) == Outcome(s, wishes, states[0].records, key)
    ensures forall index :: IsIndexOf(index, KeysOf(s.keyField, last.records), last.records) ==>
              PlanFor(index, wishes) == Plan([], [])
  {
    hide KeyOf, AfterWrites, Target, IsCreatedFor, PlanFor, TableOk, WishesOk, Between, Finished, IsIndexOf;
    var start, a := states[0], states[|states| - 1];
    InterruptedRunsStayBetween(s, wishes, states, |states| - 1);
    var index :| IsRunPart(s, wishes, a, last, index, |PlanFor(index, wishes).updates|,
      |PlanFor(index, wishes).creates|);
    RunStaysBetween(s, wishes, start.records, start.nextId, a.records, a.nextId, index,
                    |PlanFor(index, wishes).updates|, |PlanFor(index, wishes).creates|);
    forall key ensures FieldsAt(s.keyField, last.records, key) == Outcome(s, wishes, start.records, key) {
      FinishedOutcome(s, wishes, start.records, start.nextId, last.records, last.nextId, key);
    }
    forall index | IsIndexOf(index, KeysOf(s.keyField, last.records), last.records)
      ensures PlanFor(index, wishes) == Plan([], [])
    {
      FinishedPlanIsEmpty(s, wishes, start.records, start.nextId, last.records, last.nextId, index);
    }
  }
}
