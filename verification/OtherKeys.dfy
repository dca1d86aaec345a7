/** What a run leaves alone: the records of keys that its plan has no row for. */
module OtherKeys {
  import opened Wrappers
  import opened Json
  import opened TargetTable
  import opened TableIndex
  import opened Upsert
  import opened Convergence

  ghost predicate AvoidsKeys(wishes: seq<Wish>, keys: set<string>) {
    forall n :: 0 <= n < |wishes| ==> wishes[n].key !in keys
  }

  /** A plan for other keys leaves the records of these keys as they are. */
  lemma {:induction false} OtherKeysUntouched(s: Setting, wishes: seq<Wish>, keys: set<string>,
      records: seq<Record>, nextId: nat,
      index: map<string, IndexItem>, m: nat, i: nat)
    requires AvoidsKeys(wishes, keys) && WishKeysDistinct(wishes) && IdsDistinct(records, nextId)
    requires KeysDistinct(KeysOf(s.keyField, records)) && IsIndexOf(index, KeysOf(s.keyField, records), records)
    requires i < |records| && KeyOf(s.keyField, records[i]).Some? && KeyOf(s.keyField, records[i]).value in keys
    requires m <= |PlanUpdates(index, wishes)|
    ensures ApplyUpdates(s.store, records, PlanUpdates(index, wishes)[..m])[i] == records[i]
  {
    hide KeyOf, PlanUpdates;
    var all := PlanUpdates(index, wishes);
    var tableKeys := KeysOf(s.keyField, records);
    IndexIdsAreDistinct(tableKeys, records, nextId, index);
    UpdateIdsDistinct(index, wishes);
    UpdatesAt(s.store, records, all[..m], i);
    ItemForMember(all[..m], records[i].id);
    forall item | item in all ensures item.id != records[i].id {
      var n := UpdateComesFromWish(index, wishes, item);
      var key := wishes[n].key;
      assert key in KeySet(tableKeys);
      var j :| 0 <= j < |records| && tableKeys[j] == Some(key);
      assert index[key] == IndexItem(records[j].id, FieldsOf(records[j]));
    }
  }

  /** And each create is for a row of another key. */
  lemma {:induction false} CreatesAvoidKeys(wishes: seq<Wish>, keys: set<string>, index: map<string, IndexItem>, j: nat)
    requires AvoidsKeys(wishes, keys) && j < |PlanCreates(index, wishes)|
    ensures IsCreateAvoiding(wishes, keys, PlanCreates(index, wishes)[j].fields)
  {
    hide PlanCreates, NewWishes;
    CreatesAreNewWishes(index, wishes);
    NewWishesAreNew(index, wishes);
    var w := NewWishes(index, wishes)[j];
    assert w in wishes;
    var n :| 0 <= n < |wishes| && wishes[n] == w;
  }

  ghost predicate IsCreateAvoiding(wishes: seq<Wish>, keys: set<string>, created: Fields) {
    exists n :: 0 <= n < |wishes| && wishes[n].key !in keys && wishes[n].created == created
  }

  /** The records with one of these keys are the same as before, and every record
      appended is what a wish for another key is stored as. */
  ghost predicate LeavesKeys(s: Setting, wishes: seq<Wish>, keys: set<string>, a: TableState, b: TableState) {
    && |a.records| <= |b.records|
    && (forall i ::
         0 <= i < |a.records| && KeyOf(s.keyField, a.records[i]).Some?
         && KeyOf(s.keyField, a.records[i]).value in keys ==>
          b.records[i] == a.records[i])
    && (forall i :: |a.records| <= i < |b.records| ==> IsAppendAvoiding(s, wishes, keys, b.records[i]))
  }

  ghost predicate IsAppendAvoiding(s: Setting, wishes: seq<Wish>, keys: set<string>, r: Record) {
    exists created :: IsCreateAvoiding(wishes, keys, created) && r.fields == Obj(StoreFields(s.store, created))
  }

  lemma {:induction false} RunPartLeavesKeys(s: Setting, wishes: seq<Wish>, keys: set<string>, a: TableState,
      b: TableState,
      index: map<string, IndexItem>, m: nat, c: nat)
    requires IsRunPart(s, wishes, a, b, index, m, c) && AvoidsKeys(wishes, keys) && WishKeysDistinct(wishes)
    requires IdsDistinct(a.records, a.nextId)
    ensures LeavesKeys(s, wishes, keys, a, b)
  {
    hide KeyOf, PlanUpdates, PlanCreates, IsIndexOf, ApplyUpdates, StoreFields, AvoidsKeys, WishKeysDistinct,
      IsCreateAvoiding,
      IdsDistinct, KeysDistinct;
    forall i | 0 <= i < |a.records| && KeyOf(s.keyField, a.records[i]).Some?
      && KeyOf(s.keyField, a.records[i]).value in keys
      ensures b.records[i] == a.records[i]
    {
      OtherKeysUntouched(s, wishes, keys, a.records, a.nextId, index, m, i);
    }
    forall i | |a.records| <= i < |b.records| ensures IsAppendAvoiding(s, wishes, keys, b.records[i]) {
      CreatesAvoidKeys(wishes, keys, index, i - |a.records|);
    }
  }

  /** Wherever a run stops, it leaves the keys alone that it has no wish for. */
  lemma {:induction false} InterruptedRunLeavesKeys(s: Setting, wishes: seq<Wish>, keys: set<string>, a: TableState,
      b: TableState)
    requires InterruptedRun(s, wishes, a, b) && AvoidsKeys(wishes, keys) && WishKeysDistinct(wishes)
    requires IdsDistinct(a.records, a.nextId)
    ensures LeavesKeys(s, wishes, keys, a, b)
  {
    hide IsRunPart, KeyOf, AvoidsKeys, WishKeysDistinct, IdsDistinct;
    if a != b {
      var index, m, c :| IsRunPart(s, wishes, a, b, index, m, c);
      RunPartLeavesKeys(s, wishes, keys, a, b, index, m, c);
    }
  }
}
