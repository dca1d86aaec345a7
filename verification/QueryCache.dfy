/** The query cache of several instances over one shared revision
    (src/server/cache.rs). A database state is the number of writes it includes. */
module QueryCache {
  import opened Wrappers
  import opened Numbers

  type Snapshot = nat
  type Revision = nat

  /** A cached loader result, with the revision and key it was stored under. */
  datatype Entry = Entry(revision: Revision, key: string, data: Snapshot)

  type Inner = map<string, Entry>

  // ----------------------------------------------------------------- versioned keys

  function VersionedKey(revision: Revision, key: string): string {
    NatText(revision) + ":" + key
  }

  /** The text before the first colon is the revision, so no two pairs share a key. */
  lemma VersionedKeyInjective(r: Revision, a: string, s: Revision, b: string)
    requires VersionedKey(r, a) == VersionedKey(s, b)
    ensures r == s && a == b
  {
    var t, u := NatText(r), NatText(s);
    ColonPosition(t, a);
    ColonPosition(u, b);
    assert |t| == |u|;
    assert t == VersionedKey(r, a)[..|t|] && u == VersionedKey(s, b)[..|u|];
    assert a == VersionedKey(r, a)[|t| + 1..] && b == VersionedKey(s, b)[|u| + 1..];
    NatTextRoundTrip(r);
    NatTextRoundTrip(s);
  }

  lemma ColonPosition(digits: string, key: string)
    requires AreDigits(digits)
    ensures FirstColon(digits + ":" + key) == |digits|
  {
    FirstColonAfter(digits, ":" + key);
    assert digits + ":" + key == digits + (":" + key);
  }

  function FirstColon(s: string): nat {
    if s == [] || s[0] == ':' then 0 else 1 + FirstColon(s[1..])
  }

  lemma {:induction false} FirstColonAfter(digits: string, rest: string)
    requires forall i :: 0 <= i < |digits| ==> IsDigit(digits[i])
    requires rest != [] && rest[0] == ':'
    ensures FirstColon(digits + rest) == |digits|
  {
    if digits == [] {
      assert digits + rest == rest;
    } else {
      assert (digits + rest)[1..] == digits[1..] + rest;
      FirstColonAfter(digits[1..], rest);
    }
  }

  // -------------------------------------------------------------------- one instance

  /** The row `query_cache_revision` and the database behind the loaders. */
  class SharedDatabase {
    var revision: Revision
    var written: Snapshot

    constructor (revision: Revision)
      ensures this.revision == revision && written == 0
    {
      this.revision := revision;
      written := 0;
    }
  }

  datatype CacheError = LoadFailed | BumpFailed | WriteFailed

  class Cache {
    const shared: SharedDatabase
    var inner: Inner

    ghost predicate Valid() reads this {
      KeysMatch(inner)
    }

    constructor (shared: SharedDatabase)
      ensures Valid() && this.shared == shared && inner == map[]
    {
      this.shared := shared;
      inner := map[];
    }

    /** `get_or_try_insert` run without interruption: a readable entry of the current
        revision is returned as it is; otherwise the loader decides, and its result
        is stored if it can be encoded. */
    method GetOrTryInsert(key: string, decodes: bool, loads: bool, encodes: bool)
        returns (r: Result<Snapshot, CacheError>)
      requires Valid()
      modifies this
      ensures Valid()
      ensures r.Ok? ==> ReadDone(old(inner), shared.revision, shared.written, key, decodes, encodes, r.value, inner)
      ensures var k := VersionedKey(shared.revision, key);
              && (k in old(inner) && decodes ==>
                    r == Ok(old(inner)[k].data) && old(inner)[k].key == key && old(inner)[k].revision == shared.revision
                    && inner == old(inner))
              && (!(k in old(inner) && decodes) && !loads ==> r == Err(LoadFailed) && inner == old(inner) - {k})
              && (!(k in old(inner) && decodes) && loads ==>
                    && r == Ok(shared.written)
                    && inner == if encodes then old(inner)[k := Entry(shared.revision, key, shared.written)]
                       else old(inner) - {k})
    {
      var revision := shared.revision;
      var versionedKey := VersionedKey(revision, key);
      if versionedKey in inner {
        if decodes {
          VersionedKeyInjective(inner[versionedKey].revision, inner[versionedKey].key, revision, key);
          return Ok(inner[versionedKey].data);
        }
        inner := inner - {versionedKey};
      }
      if !loads {
        assert inner == old(inner) - {versionedKey};
        return Err(LoadFailed);
      }
      var data := shared.written;
      if encodes {
        inner := inner[versionedKey := Entry(revision, key, data)];
      }
      r := Ok(data);
    }

    method InvalidateAll()
      modifies this
      ensures inner == map[]
    {
      inner := map[];
    }

    /** After it no entry of an earlier revision is found any more, on any instance; if
        the row cannot be updated, nothing changes. */
    method InvalidateAllShared(updates: bool) returns (ok: bool)
      modifies this, shared`revision
      ensures ok ==> HidesEarlier(old(shared.revision), shared.revision)
      ensures ok ==> forall key :: VersionedKey(shared.revision, key) !in inner
      ensures !ok ==> shared.revision == old(shared.revision) && inner == old(inner)
      ensures ok == updates
      ensures shared.revision == old(shared.revision) + if updates then 1 else 0
      ensures inner == if updates then map[] else old(inner)
    {
      if updates {
        shared.revision := shared.revision + 1;
        InvalidateAll();
        LaterRevisionHides(old(shared.revision), shared.revision);
      }
      ok := updates;
    }

    /** `invalidate_after_write`: a caller that is told of success knows that the write
        succeeded and that no earlier entry is found any more; a failed write may have
        been committed in part and hides them too; its own error wins over a failed
        bump. */
    method InvalidateAfterWrite<T>(result: Result<T, CacheError>, updates: bool) returns (r: Result<T, CacheError>)
      modifies this, shared`revision
      ensures r.Ok? ==> result == r && HidesEarlier(old(shared.revision), shared.revision)
      ensures result.Err? ==> r == result
      ensures r.Err? && result.Ok? ==> r.error == BumpFailed && shared.revision == old(shared.revision)
      ensures updates ==> HidesEarlier(old(shared.revision), shared.revision)
      ensures shared.revision == old(shared.revision) + if updates then 1 else 0
      ensures r == if result.Ok? && !updates then Err(BumpFailed) else result
    {
      var ok := InvalidateAllShared(updates);
      r := if result.Ok? && !ok then Err(BumpFailed) else result;
    }
  }

  /** No cache whose entries are all of revisions up to the earlier one answers a read of
      the later one, whatever the key. */
  ghost predicate HidesEarlier(earlier: Revision, later: Revision) {
    forall cache: Inner, key :: KeysMatch(cache) && (forall k :: k in cache ==> cache[k].revision <= earlier) ==>
      VersionedKey(later, key) !in cache
  }

  lemma {:induction false} LaterRevisionHides(earlier: Revision, later: Revision)
    requires earlier < later
    ensures HidesEarlier(earlier, later)
  {
    hide VersionedKey;
    forall cache: Inner, key | KeysMatch(cache) && (forall k :: k in cache ==> cache[k].revision <= earlier)
      ensures VersionedKey(later, key) !in cache
    {
      var k := VersionedKey(later, key);
      if k in cache {
        VersionedKeyInjective(cache[k].revision, cache[k].key, later, key);
      }
    }
  }

  /** Every entry sits under its own versioned key. */
  ghost predicate KeysMatch(inner: Inner) {
    forall k :: k in inner ==> k == VersionedKey(inner[k].revision, inner[k].key)
  }

  // ----------------------------------------------------- many instances, interleaved

  type InstanceId = nat
  type ReaderId = nat
  type WriteId = nat

  /** A read in flight. `covered` are the writes whose bump had finished when the read
      began. */
  datatype Reader = Reader(instance: InstanceId, key: string, covered: set<WriteId>, stage: Stage)

  datatype Stage =
    | Begun
    | HasRevision(revision: Revision)
    | Missed(revision: Revision)
    | Loaded(revision: Revision, data: Snapshot)
    | Returned(data: Snapshot)

  /** `bumped` notes, for each write whose bump has finished, the revision it made. */
  datatype Sys = Sys(
    revision: Revision,
    written: Snapshot,
    bumped: map<WriteId, Revision>,
    caches: map<InstanceId, Inner>,
    readers: map<ReaderId, Reader>)

  datatype Action =
    | Write
    | Bump(write: WriteId)
    | Forget(instance: InstanceId)
    | Evict(instance: InstanceId, versionedKey: string)
    | Begin(reader: ReaderId, instance: InstanceId, key: string)
    | ReadRevision(reader: ReaderId)
    | Hit(reader: ReaderId)
    | Miss(reader: ReaderId)
    | Load(reader: ReaderId)
    | Insert(reader: ReaderId, encodes: bool)

  function CacheOf(sys: Sys, instance: InstanceId): Inner {
    if instance in sys.caches then sys.caches[instance] else map[]
  }

  predicate Enabled(sys: Sys, a: Action) {
    match a
    case Write => true
    case Bump(w) => w < sys.written && w !in sys.bumped
    case Forget(_) => true
    case Evict(_, _) => true
    case Begin(id, _, _) => id !in sys.readers
    case ReadRevision(id) => id in sys.readers && sys.readers[id].stage.Begun?
    case Hit(id) =>
      id in sys.readers && sys.readers[id].stage.HasRevision?
      && VersionedKey(sys.readers[id].stage.revision, sys.readers[id].key) in CacheOf(sys, sys.readers[id].instance)
    case Miss(id) => id in sys.readers && sys.readers[id].stage.HasRevision?
    case Load(id) => id in sys.readers && sys.readers[id].stage.Missed?
    case Insert(id, _) => id in sys.readers && sys.readers[id].stage.Loaded?
  }

  function SetStage(sys: Sys, id: ReaderId, stage: Stage): Sys
    requires id in sys.readers
  {
    sys.(readers := sys.readers[id := sys.readers[id].(stage := stage)])
  }

  /** Every step alone; a miss also stands for an entry that cannot be decoded. */
  function Apply(sys: Sys, a: Action): Sys
    requires Enabled(sys, a)
  {
    match a
    case Write => sys.(written := sys.written + 1)
    case Bump(w) => sys.(revision := sys.revision + 1, bumped := sys.bumped[w := sys.revision + 1])
    case Forget(i) => sys.(caches := sys.caches[i := map[]])
    case Evict(i, k) => sys.(caches := sys.caches[i := CacheOf(sys, i) - {k}])
    case Begin(id, i, key) => sys.(readers := sys.readers[id := Reader(i, key, sys.bumped.Keys, Begun)])
    case ReadRevision(id) => SetStage(sys, id, HasRevision(sys.revision))
    case Hit(id) =>
      var r := sys.readers[id];
      SetStage(sys, id, Returned(CacheOf(sys, r.instance)[VersionedKey(r.stage.revision, r.key)].data))
    case Miss(id) => SetStage(sys, id, Missed(sys.readers[id].stage.revision))
    case Load(id) => SetStage(sys, id, Loaded(sys.readers[id].stage.revision, sys.written))
    case Insert(id, encodes) =>
      var r := sys.readers[id];
      var entry := Entry(r.stage.revision, r.key, r.stage.data);
      var cache := CacheOf(sys, r.instance);
      var stored := if encodes then cache[VersionedKey(entry.revision, entry.key) := entry] else cache;
      SetStage(sys.(caches := sys.caches[r.instance := stored]), id, Returned(r.stage.data))
  }

  ghost predicate Initial(sys: Sys) {
    sys.written == 0 && sys.bumped == map[] && sys.caches == map[] && sys.readers == map[]
  }

  ghost predicate IsHistory(states: seq<Sys>, actions: seq<Action>) {
    && |states| == |actions| + 1 && Initial(states[0])
    && forall k :: 0 <= k < |actions| ==>
       Enabled(states[k], actions[k]) && states[k + 1] == Apply(states[k], actions[k])
  }

  // ----------------------------------------------------------------------- freshness

  /** A state the database has been in that includes every write whose bump made a
      revision up to this one. */
  ghost predicate Includes(sys: Sys, data: Snapshot, revision: Revision) {
    data <= sys.written && forall w :: w in sys.bumped && sys.bumped[w] <= revision ==> w < data
  }

  ghost predicate BumpsOk(sys: Sys) {
    forall w :: w in sys.bumped ==> w < sys.written && sys.bumped[w] <= sys.revision
  }

  ghost predicate EntryOk(sys: Sys, e: Entry) {
    e.revision <= sys.revision && Includes(sys, e.data, e.revision)
  }

  ghost predicate CachesOk(sys: Sys) {
    forall i :: i in sys.caches ==>
      KeysMatch(sys.caches[i]) && forall k :: k in sys.caches[i] ==> EntryOk(sys, sys.caches[i][k])
  }

  ghost predicate CoveredBy(sys: Sys, covered: set<WriteId>, revision: Revision) {
    revision <= sys.revision && forall w :: w in covered && w in sys.bumped ==> sys.bumped[w] <= revision
  }

  ghost predicate ReaderOk(sys: Sys, r: Reader) {
    && r.covered <= sys.bumped.Keys
    && match r.stage
       case Begun => true
       case HasRevision(revision) => CoveredBy(sys, r.covered, revision)
       case Missed(revision) => CoveredBy(sys, r.covered, revision)
       case Loaded(revision, data) => CoveredBy(sys, r.covered, revision) && Includes(sys, data, revision)
       case Returned(data) => data <= sys.written && forall w :: w in r.covered ==> w < data
  }

  ghost predicate ReadersOk(sys: Sys) {
    forall id :: id in sys.readers ==> ReaderOk(sys, sys.readers[id])
  }

  ghost predicate Inv(sys: Sys) {
    BumpsOk(sys) && CachesOk(sys) && ReadersOk(sys)
  }

  lemma BumpsOkKept(sys: Sys, a: Action)
    requires BumpsOk(sys) && Enabled(sys, a)
    ensures BumpsOk(Apply(sys, a))
  {
  }

  lemma {:induction false} CachesOkKept(sys: Sys, a: Action)
    requires Inv(sys) && Enabled(sys, a)
    ensures CachesOk(Apply(sys, a))
  {
    hide VersionedKey;
  }

  lemma {:induction false} ReadersOkKept(sys: Sys, a: Action)
    requires Inv(sys) && Enabled(sys, a)
    ensures ReadersOk(Apply(sys, a))
  {
    hide VersionedKey;
    if a.Hit? {
      var r := sys.readers[a.reader];
      var k := VersionedKey(r.stage.revision, r.key);
      var e := CacheOf(sys, r.instance)[k];
      VersionedKeyInjective(e.revision, e.key, r.stage.revision, r.key);
    }
  }

  lemma {:induction false} InvAlways(states: seq<Sys>, actions: seq<Action>, k: nat)
    requires IsHistory(states, actions) && k < |states|
    ensures Inv(states[k])
  {
    hide Apply, Enabled, BumpsOk, CachesOk, ReadersOk;
    if k == 0 {
      InitialInv(states[0]);
    } else {
      InvAlways(states, actions, k - 1);
      assert Enabled(states[k - 1], actions[k - 1]) && states[k - 1 + 1] == Apply(states[k - 1], actions[k - 1]);
      BumpsOkKept(states[k - 1], actions[k - 1]);
      CachesOkKept(states[k - 1], actions[k - 1]);
      ReadersOkKept(states[k - 1], actions[k - 1]);
    }
  }

  lemma InitialInv(sys: Sys)
    requires Initial(sys)
    ensures Inv(sys)
  {
  }

  /** A reader's covered writes are those bumped in the state in which it began. */
  lemma {:induction false} CoveredIsFixed(states: seq<Sys>, actions: seq<Action>, b: nat, k: nat, id: ReaderId)
    requires IsHistory(states, actions) && b < k < |states|
    requires actions[b].Begin? && actions[b].reader == id
    ensures id in states[k].readers && states[k].readers[id].covered == states[b].bumped.Keys
    ensures states[k].readers[id].key == actions[b].key
  {
    hide VersionedKey;
    assert Enabled(states[k - 1], actions[k - 1]) && states[k - 1 + 1] == Apply(states[k - 1], actions[k - 1]);
    if b < k - 1 {
      CoveredIsFixed(states, actions, b, k - 1, id);
    }
  }

  /** Freshness: whatever is cached, evicted, invalidated or still being loaded on any
      instance, a read returns a database state that includes every write whose bump
      had finished when the read began. */
  lemma {:induction false} ReadIsFresh(states: seq<Sys>, actions: seq<Action>, b: nat, k: nat, id: ReaderId, w: WriteId)
    requires IsHistory(states, actions) && b < k < |states|
    requires actions[b].Begin? && actions[b].reader == id
    requires id in states[k].readers && states[k].readers[id].stage.Returned?
    requires w in states[b].bumped
    ensures w < states[k].readers[id].stage.data <= states[k].written
  {
    hide Apply, Enabled, BumpsOk, CachesOk;
    InvAlways(states, actions, k);
    CoveredIsFixed(states, actions, b, k, id);
  }

  // ----------------------------------------------------- one call as a run of the steps

  /** What `GetOrTryInsert` promises of one undisturbed call. */
  ghost predicate ReadDone(before: Inner, revision: Revision, written: Snapshot, key: string,
      decodes: bool, encodes: bool, data: Snapshot, after: Inner) {
    var k := VersionedKey(revision, key);
    if k in before && decodes then data == before[k].data && after == before
    else data == written && after == if encodes then before[k := Entry(revision, key, written)] else before - {k}
  }

  /** The steps of such a call: it begins, reads the revision, and hits; or it misses,
      drops an entry it cannot decode, loads and inserts. */
  function CallSteps(sys: Sys, id: ReaderId, instance: InstanceId, key: string, decodes: bool,
      encodes: bool): seq<Action> {
    var k := VersionedKey(sys.revision, key);
    var start := [Begin(id, instance, key), ReadRevision(id)];
    if k in CacheOf(sys, instance) && decodes then start + [Hit(id)]
    else start + [Miss(id), Evict(instance, k), Load(id), Insert(id, encodes)]
  }

  ghost predicate Leads(from: Sys, actions: seq<Action>, to: Sys)
    decreases |actions|
  {
    if actions == [] then from == to else Enabled(from, actions[0]) && Leads(Apply(from, actions[0]), actions[1..], to)
  }

  /** How a call begins. */
  lemma {:induction false} CallBegins(sys: Sys, id: ReaderId, instance: InstanceId, key: string) returns (known: Sys)
    requires id !in sys.readers
    ensures known
            == sys.(readers := sys.readers[id := Reader(instance, key, sys.bumped.Keys, HasRevision(sys.revision))])
    ensures forall rest, to :: Leads(known, rest, to) ==>
            Leads(sys, [Begin(id, instance, key), ReadRevision(id)] + rest, to)
  {
    hide VersionedKey;
    var begun := Apply(sys, Begin(id, instance, key));
    known := Apply(begun, ReadRevision(id));
    forall rest, to | Leads(known, rest, to)
      ensures Leads(sys, [Begin(id, instance, key), ReadRevision(id)] + rest, to) {
      LeadsOn(begun, ReadRevision(id), rest, to);
      LeadsOn(sys, Begin(id, instance, key), [ReadRevision(id)] + rest, to);
      assert [Begin(id, instance, key)] + ([ReadRevision(id)] + rest)
        == [Begin(id, instance, key), ReadRevision(id)] + rest;
    }
  }

  /** An undisturbed call is a run of the protocol's steps: they are possible one after
      the other and end in the result and the cache that the call promises. */
  lemma {:induction false} CallIsSteps(sys: Sys, id: ReaderId, instance: InstanceId, key: string, decodes: bool,
      encodes: bool)
    returns (to: Sys)
    requires id !in sys.readers
    ensures Leads(sys, CallSteps(sys, id, instance, key, decodes, encodes), to)
    ensures id in to.readers && to.readers[id].stage.Returned?
    ensures ReadDone(CacheOf(sys, instance), sys.revision, sys.written, key, decodes, encodes,
                     to.readers[id].stage.data, CacheOf(to, instance))
    ensures to.revision == sys.revision && to.written == sys.written && to.bumped == sys.bumped
  {
    hide VersionedKey, Leads;
    var k := VersionedKey(sys.revision, key);
    var known := CallBegins(sys, id, instance, key);
    if k in CacheOf(sys, instance) && decodes {
      to := HitCall(known, id, instance, k);
    } else {
      to := MissCall(known, id, instance, k, encodes);
    }
  }

  lemma {:induction false} HitCall(known: Sys, id: ReaderId, instance: InstanceId, k: string) returns (to: Sys)
    requires id in known.readers && known.readers[id].instance == instance
    requires known.readers[id].stage == HasRevision(known.revision)
    requires k == VersionedKey(known.revision, known.readers[id].key) && k in CacheOf(known, instance)
    ensures Leads(known, [Hit(id)], to)
    ensures to == SetStage(known, id, Returned(CacheOf(known, instance)[k].data))
  {
    hide VersionedKey;
    to := Apply(known, Hit(id));
    LeadsOn(known, Hit(id), [], to);
  }

  lemma {:induction false} MissCall(known: Sys, id: ReaderId, instance: InstanceId, k: string, encodes: bool)
    returns (to: Sys)
    requires id in known.readers && known.readers[id].instance == instance
    requires known.readers[id].stage == HasRevision(known.revision)
    requires k == VersionedKey(known.revision, known.readers[id].key)
    ensures Leads(known, [Miss(id), Evict(instance, k), Load(id), Insert(id, encodes)], to)
    ensures id in to.readers && to.readers[id].stage == Returned(known.written)
    ensures var entry := Entry(known.revision, known.readers[id].key, known.written);
            CacheOf(to, instance) == if encodes then CacheOf(known, instance)[k := entry]
              else CacheOf(known, instance) - {k}
    ensures to.revision == known.revision && to.written == known.written && to.bumped == known.bumped
  {
    hide VersionedKey;
    to := MissedCall(Apply(known, Miss(id)), id, instance, k, encodes);
    LeadsOn(known, Miss(id), [Evict(instance, k), Load(id), Insert(id, encodes)], to);
    assert [Miss(id)] + [Evict(instance, k), Load(id), Insert(id, encodes)]
        == [Miss(id), Evict(instance, k), Load(id), Insert(id, encodes)];
  }

  lemma {:induction false} MissedCall(missed: Sys, id: ReaderId, instance: InstanceId, k: string, encodes: bool)
      returns (to: Sys)
    requires id in missed.readers && missed.readers[id].instance == instance
    requires missed.readers[id].stage == Missed(missed.revision)
             && k == VersionedKey(missed.revision, missed.readers[id].key)
    ensures Leads(missed, [Evict(instance, k), Load(id), Insert(id, encodes)], to)
    ensures id in to.readers && to.readers[id].stage == Returned(missed.written)
    ensures var entry := Entry(missed.revision, missed.readers[id].key, missed.written);
            CacheOf(to, instance) == if encodes then CacheOf(missed, instance)[k := entry]
              else CacheOf(missed, instance) - {k}
    ensures to.revision == missed.revision && to.written == missed.written && to.bumped == missed.bumped
  {
    hide VersionedKey;
    var evicted := Apply(missed, Evict(instance, k));
    var loaded := Apply(evicted, Load(id));
    to := Apply(loaded, Insert(id, encodes));
    LeadsOn(loaded, Insert(id, encodes), [], to);
    LeadsOn(evicted, Load(id), [Insert(id, encodes)], to);
    LeadsOn(missed, Evict(instance, k), [Load(id), Insert(id, encodes)], to);
    assert [Evict(instance, k), Load(id), Insert(id, encodes)]
      == [Evict(instance, k)] + [Load(id), Insert(id, encodes)];
    assert [Load(id), Insert(id, encodes)] == [Load(id)] + [Insert(id, encodes)];
  }

  lemma {:induction false} LeadsOn(from: Sys, a: Action, rest: seq<Action>, to: Sys)
    requires Enabled(from, a) && Leads(Apply(from, a), rest, to)
    ensures Leads(from, [a] + rest, to)
  {
    hide Apply, Enabled;
    assert ([a] + rest)[1..] == rest;
  }
}
