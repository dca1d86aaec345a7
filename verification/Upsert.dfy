/** A plan of updates and creates for a list of wishes: what each source key asks
    of the record that carries it. */
module Upsert {
  import opened Wrappers
  import opened Json
  import opened TargetTable
  import opened TableIndex

  /** What one source row asks for: the fields of a new record, or the changes to
      the present fields of the record with its key. */
  datatype Wish = Wish(key: string, created: Fields, change: Fields -> Fields)

  datatype Plan = Plan(creates: seq<CreateItem>, updates: seq<UpdateItem>)

  predicate WishKeysDistinct(wishes: seq<Wish>) {
    forall i, j :: 0 <= i < j < |wishes| ==> wishes[i].key != wishes[j].key
  }

  function WishFor(wishes: seq<Wish>, key: string): (w: Option<Wish>)
    ensures w.Some? ==> w.value in wishes && w.value.key == key
  {
    if wishes == [] then None
    else if wishes[0].key == key then Some(wishes[0])
    else WishFor(wishes[1..], key)
  }

  lemma {:induction false} WishForOwnKey(wishes: seq<Wish>, n: nat)
    requires WishKeysDistinct(wishes) && n < |wishes|
    ensures WishFor(wishes, wishes[n].key) == Some(wishes[n])
  {
    if n > 0 {
      assert wishes[0].key != wishes[n].key;
      assert WishKeysDistinct(wishes[1..]);
      WishForOwnKey(wishes[1..], n - 1);
    }
  }

  lemma WishForSourceKey(wishes: seq<Wish>, key: string)
    ensures WishFor(wishes, key).Some? ==> exists n :: 0 <= n < |wishes| && wishes[n].key == key
  {
    if WishFor(wishes, key).Some? {
      var n :| 0 <= n < |wishes| && wishes[n] == WishFor(wishes, key).value;
    }
  }

  /** The update a wish asks for, if its key is known and some field differs. */
  function UpdateFor(index: map<string, IndexItem>, w: Wish): seq<UpdateItem> {
    if w.key !in index then []
    else
      var changed := w.change(index[w.key].fields);
      if changed == map[] then [] else [UpdateItem(index[w.key].id, changed)]
  }

  function CreateFor(index: map<string, IndexItem>, w: Wish): seq<CreateItem> {
    if w.key in index then [] else [CreateItem(w.created)]
  }

  function PlanUpdates(index: map<string, IndexItem>, wishes: seq<Wish>): seq<UpdateItem> {
    if wishes == [] then []
    else PlanUpdates(index, wishes[..|wishes| - 1]) + UpdateFor(index, wishes[|wishes| - 1])
  }

  function PlanCreates(index: map<string, IndexItem>, wishes: seq<Wish>): seq<CreateItem> {
    if wishes == [] then []
    else PlanCreates(index, wishes[..|wishes| - 1]) + CreateFor(index, wishes[|wishes| - 1])
  }

  function PlanFor(index: map<string, IndexItem>, wishes: seq<Wish>): Plan {
    Plan(PlanCreates(index, wishes), PlanUpdates(index, wishes))
  }

  lemma PlanStep(index: map<string, IndexItem>, wishes: seq<Wish>, w: Wish)
    ensures PlanUpdates(index, wishes + [w]) == PlanUpdates(index, wishes) + UpdateFor(index, w)
    ensures PlanCreates(index, wishes + [w]) == PlanCreates(index, wishes) + CreateFor(index, w)
  {
    assert (wishes + [w])[..|wishes|] == wishes;
  }

  // ---------------------------------------------------- what is in a plan

  /** Every update of a plan is the one its wish asks for. */
  lemma {:induction false} UpdateComesFromWish(index: map<string, IndexItem>,
      wishes: seq<Wish>, item: UpdateItem) returns (n: nat)
    requires item in PlanUpdates(index, wishes)
    ensures n < |wishes| && UpdateFor(index, wishes[n]) == [item]
  {
    if item in PlanUpdates(index, wishes[..|wishes| - 1]) {
      n := UpdateComesFromWish(index, wishes[..|wishes| - 1], item);
    } else {
      n := |wishes| - 1;
      assert item in UpdateFor(index, wishes[n]);
    }
  }

  lemma {:induction false} WishGivesUpdate(index: map<string, IndexItem>,
      wishes: seq<Wish>, n: nat)
    requires n < |wishes|
    ensures forall item :: item in UpdateFor(index, wishes[n]) ==> item in PlanUpdates(index, wishes)
  {
    if n < |wishes| - 1 {
      WishGivesUpdate(index, wishes[..|wishes| - 1], n);
    }
  }

  /** Different wishes never write to the same record. */
  lemma {:induction false} UpdateIdsDistinct(index: map<string, IndexItem>, wishes: seq<Wish>)
    requires WishKeysDistinct(wishes)
    requires IndexIdsDistinct(index)
    ensures var items := PlanUpdates(index, wishes);
            forall i, j :: 0 <= i < j < |items| ==> items[i].id != items[j].id
  {
    if wishes != [] {
      var front, last := wishes[..|wishes| - 1], wishes[|wishes| - 1];
      UpdateIdsDistinct(index, front);
      var before := PlanUpdates(index, front);
      forall i | 0 <= i < |before| && UpdateFor(index, last) != []
        ensures before[i].id != UpdateFor(index, last)[0].id
      {
        var n := UpdateComesFromWish(index, front, before[i]);
        assert wishes[n] == front[n] && wishes[n].key != last.key;
      }
    }
  }

  predicate IndexIdsDistinct(index: map<string, IndexItem>) {
    forall a, b :: a in index && b in index && a != b ==> index[a].id != index[b].id
  }

  lemma IndexIdsAreDistinct(keys: seq<Option<string>>, records: seq<Record>, nextId: nat, index: map<string, IndexItem>)
    requires |keys| == |records| && IdsDistinct(records, nextId) && IsIndexOf(index, keys, records)
    ensures IndexIdsDistinct(index)
  {
    forall a, b | a in index && b in index && a != b ensures index[a].id != index[b].id {
      var i :| 0 <= i < |keys| && keys[i] == Some(a);
      var j :| 0 <= j < |keys| && keys[j] == Some(b);
      assert index[a].id == records[i].id && index[b].id == records[j].id && i != j;
    }
  }

  /** The wishes whose key the table does not have, in order. */
  function NewWishes(index: map<string, IndexItem>, wishes: seq<Wish>): seq<Wish> {
    if wishes == [] then []
    else
      NewWishes(index, wishes[..|wishes| - 1]) + if wishes[|wishes| - 1].key in index then []
        else [wishes[|wishes| - 1]]
  }

  lemma {:induction false} CreatesAreNewWishes(index: map<string, IndexItem>, wishes: seq<Wish>)
    ensures |PlanCreates(index, wishes)| == |NewWishes(index, wishes)|
    ensures forall j :: 0 <= j < |NewWishes(index, wishes)| ==>
              PlanCreates(index, wishes)[j] == CreateItem(NewWishes(index, wishes)[j].created)
  {
    if wishes != [] {
      CreatesAreNewWishes(index, wishes[..|wishes| - 1]);
    }
  }

  lemma {:induction false} NewWishesAreNew(index: map<string, IndexItem>, wishes: seq<Wish>)
    ensures forall w :: w in NewWishes(index, wishes) <==> w in wishes && w.key !in index
    ensures WishKeysDistinct(wishes) ==> WishKeysDistinct(NewWishes(index, wishes))
  {
    if wishes != [] {
      var front, last := wishes[..|wishes| - 1], wishes[|wishes| - 1];
      NewWishesAreNew(index, front);
      assert wishes == front + [last];
      if WishKeysDistinct(wishes) {
        forall i | 0 <= i < |front| ensures front[i].key != last.key {
          assert wishes[i].key != wishes[|wishes| - 1].key;
        }
        var before := NewWishes(index, front);
        forall i | 0 <= i < |before| ensures before[i].key != last.key {
          assert before[i] in front;
        }
      }
    }
  }

  /** The creates come in the order of their wishes, and so do the updates. */
  lemma {:induction false} PlanKeepsOrder(index: map<string, IndexItem>, wishes: seq<Wish>, i: nat, j: nat)
    requires i < j < |wishes|
    ensures wishes[i].key !in index && wishes[j].key !in index ==>
              InOrder(PlanCreates(index, wishes), CreateItem(wishes[i].created), CreateItem(wishes[j].created))
    ensures UpdateFor(index, wishes[i]) != [] && UpdateFor(index, wishes[j]) != [] ==>
              InOrder(PlanUpdates(index, wishes), UpdateFor(index, wishes[i])[0], UpdateFor(index, wishes[j])[0])
  {
    hide UpdateFor, CreateFor;
    var n := |wishes| - 1;
    var front := wishes[..n];
    var c, u := CreateFor(index, wishes[n]), UpdateFor(index, wishes[n]);
    if j < n {
      PlanKeepsOrder(index, front, i, j);
      StaysInOrder(PlanCreates(index, front), c, CreateItem(wishes[i].created), CreateItem(wishes[j].created));
      if UpdateFor(index, wishes[i]) != [] && UpdateFor(index, wishes[j]) != [] {
        StaysInOrder(PlanUpdates(index, front), u, UpdateFor(index, wishes[i])[0], UpdateFor(index, wishes[j])[0]);
      }
    } else {
      WishGivesItems(index, front, i);
      if wishes[i].key !in index && wishes[j].key !in index {
        NewWishCreates(index, wishes[j]);
        AppendedInOrder(PlanCreates(index, front), c, CreateItem(wishes[i].created));
      }
      if UpdateFor(index, wishes[i]) != [] && u != [] {
        AppendedInOrder(PlanUpdates(index, front), u, UpdateFor(index, wishes[i])[0]);
      }
    }
  }

  lemma NewWishCreates(index: map<string, IndexItem>, w: Wish)
    ensures w.key !in index ==> CreateFor(index, w) == [CreateItem(w.created)]
  {
  }

  lemma {:induction false} WishGivesItems(index: map<string, IndexItem>, wishes: seq<Wish>, n: nat)
    requires n < |wishes|
    ensures wishes[n].key !in index ==> CreateItem(wishes[n].created) in PlanCreates(index, wishes)
    ensures UpdateFor(index, wishes[n]) != [] ==> UpdateFor(index, wishes[n])[0] in PlanUpdates(index, wishes)
  {
    hide UpdateFor;
    if n < |wishes| - 1 { WishGivesItems(index, wishes[..|wishes| - 1], n); }
  }
}
