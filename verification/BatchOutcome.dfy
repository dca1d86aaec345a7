/** Collecting the activities of one workflow run, whatever order they complete in
    (src/workflow.rs). */
module BatchOutcome {
  import opened Wrappers

  datatype Scope = Scope(project: int, period: int, account: string)

  datatype PendingImport = PendingImport(
    discovered: nat, imported: nat, partialSources: nat, failed: nat, deadLettered: nat,
    persisted: nat, quarantined: nat, failures: seq<string>)

  datatype AuditTotals = AuditTotals(tables: nat, records: nat, reviewed: nat, updated: nat)

  datatype Activity = Activity(
    period: int, traced: nat, skipped: nat, results: seq<string>, pending: PendingImport,
    synced: nat, audit: Option<AuditTotals>, noticeSent: bool)

  datatype Outcome = Outcome(scope: Scope, result: Result<Activity, string>)

  datatype Failure = Failure(scope: Scope, error: string)

  datatype BatchResult = BatchResult(
    processed: seq<int>, traced: nat, skipped: nat, results: seq<string>, pending: PendingImport,
    synced: nat, audit: Option<AuditTotals>, noticeSent: bool, failed: seq<Failure>)

  const MAX_ERROR_CHARS: nat := 4000

  /** `bounded_workflow_error` */
  function Bounded(error: string): (b: string)
    ensures b <= error && |b| <= 4000 && (|b| < 4000 ==> b == error)
  {
    if |error| <= MAX_ERROR_CHARS then error else error[..MAX_ERROR_CHARS]
  }

  // --------------------------------------------------------------------- aggregation

  function Processed(outcomes: seq<Outcome>): seq<Activity> {
    if outcomes == [] then []
    else
      var last := outcomes[|outcomes| - 1];
      Processed(outcomes[..|outcomes| - 1]) + if last.result.Ok? then [last.result.value] else []
  }

  function FailedOnes(outcomes: seq<Outcome>): seq<Failure> {
    if outcomes == [] then []
    else
      var last := outcomes[|outcomes| - 1];
      FailedOnes(outcomes[..|outcomes| - 1])
        + if last.result.Err? then [Failure(last.scope, Bounded(last.result.error))] else []
  }

  /** A counter over the processed activities. */
  function Total(activities: seq<Activity>, count: Activity -> nat): nat {
    if activities == [] then 0 else Total(activities[..|activities| - 1], count) + count(activities[|activities| - 1])
  }

  function Joined(activities: seq<Activity>, items: Activity -> seq<string>): seq<string> {
    if activities == [] then [] else Joined(activities[..|activities| - 1], items) + items(activities[|activities| - 1])
  }

  function AuditOf(a: Activity): AuditTotals {
    if a.audit.Some? then a.audit.value else AuditTotals(0, 0, 0, 0)
  }

  // What is counted and joined.
  function TracedCount(a: Activity): nat { a.traced }
  function SkippedCount(a: Activity): nat { a.skipped }
  function SyncedCount(a: Activity): nat { a.synced }
  function TraceResults(a: Activity): seq<string> { a.results }
  function PendingDiscovered(a: Activity): nat { a.pending.discovered }
  function PendingImported(a: Activity): nat { a.pending.imported }
  function PendingPartialSources(a: Activity): nat { a.pending.partialSources }
  function PendingFailed(a: Activity): nat { a.pending.failed }
  function PendingDeadLettered(a: Activity): nat { a.pending.deadLettered }
  function PendingPersisted(a: Activity): nat { a.pending.persisted }
  function PendingQuarantined(a: Activity): nat { a.pending.quarantined }
  function PendingFailures(a: Activity): seq<string> { a.pending.failures }
  function AuditedTables(a: Activity): nat { AuditOf(a).tables }
  function AuditedRecords(a: Activity): nat { AuditOf(a).records }
  function AuditedReviewed(a: Activity): nat { AuditOf(a).reviewed }
  function AuditedUpdated(a: Activity): nat { AuditOf(a).updated }

  function MergePending(total: PendingImport, current: PendingImport): PendingImport {
    PendingImport(
      total.discovered + current.discovered, total.imported + current.imported,
      total.partialSources + current.partialSources, total.failed + current.failed,
      total.deadLettered + current.deadLettered, total.persisted + current.persisted,
      total.quarantined + current.quarantined, total.failures + current.failures)
  }

  function MergeAudit(total: AuditTotals, current: AuditTotals): AuditTotals {
    AuditTotals(total.tables + current.tables, total.records + current.records,
                total.reviewed + current.reviewed, total.updated + current.updated)
  }

  /** Every counter is its sum over the processed activities, lists are joined in
      order, and each outcome is either processed or failed. */
  ghost predicate Summarises(r: BatchResult, dailyFinal: bool, outcomes: seq<Outcome>) {
    var done := Processed(outcomes);
    && |r.processed| == |done| && (forall i :: 0 <= i < |done| ==> r.processed[i] == done[i].period)
    && r.failed == FailedOnes(outcomes)
    && r.traced == Total(done, TracedCount)
    && r.skipped == Total(done, SkippedCount)
    && r.synced == Total(done, SyncedCount)
    && r.results == Joined(done, TraceResults)
    && r.noticeSent == (exists i :: 0 <= i < |done| && done[i].noticeSent)
    && PendingSummarises(r.pending, done)
    && (r.audit.Some? <==> dailyFinal)
    && (dailyFinal ==> AuditSummarises(r.audit.value, done))
  }

  ghost predicate PendingSummarises(p: PendingImport, done: seq<Activity>) {
    && p.discovered == Total(done, PendingDiscovered)
    && p.imported == Total(done, PendingImported)
    && p.partialSources == Total(done, PendingPartialSources)
    && p.failed == Total(done, PendingFailed)
    && p.deadLettered == Total(done, PendingDeadLettered)
    && p.persisted == Total(done, PendingPersisted)
    && p.quarantined == Total(done, PendingQuarantined)
    && p.failures == Joined(done, PendingFailures)
  }

  ghost predicate AuditSummarises(t: AuditTotals, done: seq<Activity>) {
    && t.tables == Total(done, AuditedTables)
    && t.records == Total(done, AuditedRecords)
    && t.reviewed == Total(done, AuditedReviewed)
    && t.updated == Total(done, AuditedUpdated)
  }

  const EmptyPending := PendingImport(0, 0, 0, 0, 0, 0, 0, [])

  function EmptyResult(dailyFinal: bool): BatchResult {
    BatchResult([], 0, 0, [], EmptyPending, 0, if dailyFinal then Some(AuditTotals(0, 0, 0, 0)) else None, false, [])
  }

  /** The loop body: one more outcome. */
  function Absorbed(r: BatchResult, o: Outcome): BatchResult {
    match o.result
    case Err(error) => r.(failed := r.failed + [Failure(o.scope, Bounded(error))])
    case Ok(a) =>
      r.(processed := r.processed + [a.period],
         traced := r.traced + a.traced,
         skipped := r.skipped + a.skipped,
         results := r.results + a.results,
         pending := MergePending(r.pending, a.pending),
         synced := r.synced + a.synced,
         noticeSent := r.noticeSent || a.noticeSent,
         audit := if r.audit.Some? && a.audit.Some? then Some(MergeAudit(r.audit.value, a.audit.value)) else r.audit)
  }

  lemma ProcessedStep(outcomes: seq<Outcome>, o: Outcome)
    ensures Processed(outcomes + [o]) == Processed(outcomes) + if o.result.Ok? then [o.result.value] else []
    ensures FailedOnes(outcomes + [o])
         == FailedOnes(outcomes) + if o.result.Err? then [Failure(o.scope, Bounded(o.result.error))] else []
  {
    assert (outcomes + [o])[..|outcomes|] == outcomes;
  }

  lemma TotalStep(activities: seq<Activity>, a: Activity, count: Activity -> nat)
    ensures Total(activities + [a], count) == Total(activities, count) + count(a)
  {
    assert (activities + [a])[..|activities|] == activities;
  }

  lemma JoinedStep(activities: seq<Activity>, a: Activity, items: Activity -> seq<string>)
    ensures Joined(activities + [a], items) == Joined(activities, items) + items(a)
  {
    assert (activities + [a])[..|activities|] == activities;
  }

  lemma AnyStep(done: seq<Activity>, a: Activity)
    ensures (exists i :: 0 <= i < |done + [a]| && (done + [a])[i].noticeSent)
       <==> (exists i :: 0 <= i < |done| && done[i].noticeSent) || a.noticeSent
  {
    assert (done + [a])[|done|] == a;
    if i :| 0 <= i < |done| && done[i].noticeSent {
      assert (done + [a])[i] == done[i];
    }
  }

  lemma {:induction false} PendingStep(p: PendingImport, done: seq<Activity>, a: Activity)
    requires PendingSummarises(p, done)
    ensures PendingSummarises(MergePending(p, a.pending), done + [a])
  {
    hide Total, Joined;
    forall count: Activity -> nat { TotalStep(done, a, count); }
    JoinedStep(done, a, PendingFailures);
  }

  lemma {:induction false} AuditStep(t: AuditTotals, done: seq<Activity>, a: Activity)
    requires AuditSummarises(t, done)
    ensures AuditSummarises(MergeAudit(t, AuditOf(a)), done + [a])
  {
    hide Total;
    forall count: Activity -> nat { TotalStep(done, a, count); }
  }

  lemma {:induction false} AbsorbedSummarises(r: BatchResult, dailyFinal: bool, outcomes: seq<Outcome>, o: Outcome)
    requires Summarises(r, dailyFinal, outcomes)
    ensures Summarises(Absorbed(r, o), dailyFinal, outcomes + [o])
  {
    hide Total, Joined, Processed, FailedOnes, PendingSummarises, AuditSummarises;
    ProcessedStep(outcomes, o);
    var done := Processed(outcomes);
    if o.result.Ok? {
      var a := o.result.value;
      forall count: Activity -> nat { TotalStep(done, a, count); }
      JoinedStep(done, a, TraceResults);
      PendingStep(r.pending, done, a);
      if dailyFinal {
        AuditStep(r.audit.value, done, a);
        assert MergeAudit(r.audit.value, AuditTotals(0, 0, 0, 0)) == r.audit.value;
      }
      AnyStep(done, a);
    } else {
      assert Processed(outcomes + [o]) == done;
    }
  }

  lemma EmptySummarises(dailyFinal: bool)
    ensures Summarises(EmptyResult(dailyFinal), dailyFinal, [])
  {
  }

  /** `aggregate_activity_outcomes` */
  method AggregateActivityOutcomes(dailyFinal: bool, outcomes: seq<Outcome>) returns (r: BatchResult)
    ensures Summarises(r, dailyFinal, outcomes)
  {
    hide Summarises;
    r := EmptyResult(dailyFinal);
    EmptySummarises(dailyFinal);
    for n := 0 to |outcomes|
      invariant Summarises(r, dailyFinal, outcomes[..n])
    {
      AbsorbedSummarises(r, dailyFinal, outcomes[..n], outcomes[n]);
      assert outcomes[..n + 1] == outcomes[..n] + [outcomes[n]];
      r := Absorbed(r, outcomes[n]);
    }
    assert outcomes[..|outcomes|] == outcomes;
  }

  /** Every scope ends up in exactly one of the two lists. */
  lemma {:induction false} OutcomesSplit(outcomes: seq<Outcome>)
    ensures |Processed(outcomes)| + |FailedOnes(outcomes)| == |outcomes|
    ensures forall o :: o in outcomes && o.result.Ok? ==> o.result.value in Processed(outcomes)
    ensures forall o :: o in outcomes && o.result.Err? ==>
            Failure(o.scope, Bounded(o.result.error)) in FailedOnes(outcomes)
  {
    if outcomes != [] {
      OutcomesSplit(outcomes[..|outcomes| - 1]);
      assert outcomes == outcomes[..|outcomes| - 1] + [outcomes[|outcomes| - 1]];
    }
  }

  /** An activity that succeeds reports the period of its own scope. */
  predicate ReportsOwnPeriod(o: Outcome) {
    o.result.Ok? ==> o.result.value.period == o.scope.period
  }

  ghost predicate IsFailedScope(r: BatchResult, scope: Scope) {
    exists i :: 0 <= i < |r.failed| && r.failed[i].scope == scope
  }

  /** So for distinct periods every scope is in exactly one of the two lists: its period
      among the processed exactly if it succeeded, and itself among the failed exactly if
      it did not. */
  lemma {:induction false} ScopesSplit(r: BatchResult, dailyFinal: bool, outcomes: seq<Outcome>, n: nat)
    requires Summarises(r, dailyFinal, outcomes) && n < |outcomes| && PeriodsDistinct(outcomes)
    requires forall i :: 0 <= i < |outcomes| ==> ReportsOwnPeriod(outcomes[i])
    ensures outcomes[n].scope.period in r.processed <==> outcomes[n].result.Ok?
    ensures IsFailedScope(r, outcomes[n].scope) <==> outcomes[n].result.Err?
  {
    hide Total, Joined, PendingSummarises, AuditSummarises, Processed, FailedOnes;
    OutcomesSplit(outcomes);
    ListsComeFromOutcomes(outcomes);
    var done, o := Processed(outcomes), outcomes[n];
    assert o in outcomes;
    if o.result.Ok? {
      var i :| 0 <= i < |done| && done[i] == o.result.value;
      assert r.processed[i] == o.scope.period;
    } else {
      var f := Failure(o.scope, Bounded(o.result.error));
      var i :| 0 <= i < |r.failed| && r.failed[i] == f;
    }
    forall i | 0 <= i < |done| && r.processed[i] == o.scope.period ensures o.result.Ok? {
      assert done[i] in done;
      var m :| 0 <= m < |outcomes| && outcomes[m].result == Ok(done[i]);
      assert ReportsOwnPeriod(outcomes[m]);
      assert m == n;
    }
    forall i | 0 <= i < |r.failed| && r.failed[i].scope == o.scope ensures o.result.Err? {
      assert r.failed[i] in r.failed;
      var m :| 0 <= m < |outcomes| && outcomes[m].result.Err? && outcomes[m].scope == r.failed[i].scope;
      assert m == n;
    }
  }

  ghost predicate Succeeds(outcomes: seq<Outcome>, a: Activity) {
    exists m :: 0 <= m < |outcomes| && outcomes[m].result == Ok(a)
  }

  ghost predicate Fails(outcomes: seq<Outcome>, f: Failure) {
    exists m :: 0 <= m < |outcomes| && outcomes[m].result.Err? && outcomes[m].scope == f.scope
  }

  lemma {:induction false} ListsComeFromOutcomes(outcomes: seq<Outcome>)
    ensures forall a :: a in Processed(outcomes) ==> Succeeds(outcomes, a)
    ensures forall f :: f in FailedOnes(outcomes) ==> Fails(outcomes, f)
  {
    if outcomes != [] {
      var front, last := outcomes[..|outcomes| - 1], outcomes[|outcomes| - 1];
      ListsComeFromOutcomes(front);
      forall a | a in Processed(outcomes) ensures Succeeds(outcomes, a) {
        if a in Processed(front) {
          var m :| 0 <= m < |front| && front[m].result == Ok(a);
          assert outcomes[m] == front[m];
        } else {
          assert last.result == Ok(a);
        }
      }
      forall f | f in FailedOnes(outcomes) ensures Fails(outcomes, f) {
        if f in FailedOnes(front) {
          var m :| 0 <= m < |front| && front[m].result.Err? && front[m].scope == f.scope;
          assert outcomes[m] == front[m];
        } else {
          assert last.result.Err? && last.scope == f.scope;
        }
      }
    }
  }

  // ---------------------------------------------------------------- completion order

  function Period(o: Outcome): int { o.scope.period }

  /** `sort_by_key`: a stable insertion sort stands for it. */
  function Inserted(sorted: seq<Outcome>, o: Outcome): seq<Outcome> {
    if sorted == [] || Period(sorted[|sorted| - 1]) <= Period(o) then sorted + [o]
    else Inserted(sorted[..|sorted| - 1], o) + [sorted[|sorted| - 1]]
  }

  function SortedByPeriod(outcomes: seq<Outcome>): seq<Outcome> {
    if outcomes == [] then [] else Inserted(SortedByPeriod(outcomes[..|outcomes| - 1]), outcomes[|outcomes| - 1])
  }

  predicate Ascending(outcomes: seq<Outcome>) {
    forall i, j :: 0 <= i < j < |outcomes| ==> Period(outcomes[i]) <= Period(outcomes[j])
  }

  predicate PeriodsDistinct(outcomes: seq<Outcome>) {
    forall i, j :: 0 <= i < j < |outcomes| ==> Period(outcomes[i]) != Period(outcomes[j])
  }

  lemma {:induction false} InsertedMembers(sorted: seq<Outcome>, o: Outcome)
    ensures multiset(Inserted(sorted, o)) == multiset(sorted) + multiset{o}
    ensures forall x :: x in Inserted(sorted, o) ==> x == o || x in sorted
  {
    if sorted != [] && Period(sorted[|sorted| - 1]) > Period(o) {
      var front, last := sorted[..|sorted| - 1], sorted[|sorted| - 1];
      assert sorted == front + [last];
      InsertedMembers(front, o);
    }
  }

  lemma {:induction false} InsertedSorts(sorted: seq<Outcome>, o: Outcome)
    requires Ascending(sorted)
    ensures Ascending(Inserted(sorted, o))
    ensures multiset(Inserted(sorted, o)) == multiset(sorted) + multiset{o}
  {
    InsertedMembers(sorted, o);
    if sorted != [] && Period(sorted[|sorted| - 1]) > Period(o) {
      var front, last := sorted[..|sorted| - 1], sorted[|sorted| - 1];
      InsertedSorts(front, o);
      InsertedMembers(front, o);
      var inserted := Inserted(front, o);
      forall i | 0 <= i < |inserted| ensures Period(inserted[i]) <= Period(last) {
        assert inserted[i] in inserted;
      }
    } else if sorted != [] {
      assert forall i :: 0 <= i < |sorted| ==> Period(sorted[i]) <= Period(sorted[|sorted| - 1]);
    }
  }

  lemma {:induction false} SortSorts(outcomes: seq<Outcome>)
    ensures Ascending(SortedByPeriod(outcomes))
    ensures multiset(SortedByPeriod(outcomes)) == multiset(outcomes)
  {
    if outcomes != [] {
      var front, last := outcomes[..|outcomes| - 1], outcomes[|outcomes| - 1];
      SortSorts(front);
      InsertedSorts(SortedByPeriod(front), last);
      assert outcomes == front + [last];
    }
  }

  lemma {:induction false} SameMembers(a: seq<Outcome>, b: seq<Outcome>)
    requires multiset(a) == multiset(b)
    ensures |a| == |b| && forall o :: o in a <==> o in b
  {
    assert |multiset(a)| == |a| && |multiset(b)| == |b|;
    forall o ensures o in a <==> o in b {
      assert o in a <==> o in multiset(a);
      assert o in b <==> o in multiset(b);
    }
  }

  /** Distinct periods leave only one sorted order. */
  lemma {:induction false} SortedOrderUnique(a: seq<Outcome>, b: seq<Outcome>)
    requires multiset(a) == multiset(b) && Ascending(a) && Ascending(b)
    requires forall x, y :: x in a && y in a && Period(x) == Period(y) ==> x == y
    ensures a == b
  {
    SameMembers(a, b);
    if a != [] {
      SameFirst(a, b);
      RestOf(a);
      RestOf(b);
      SortedOrderUnique(a[1..], b[1..]);
    }
  }

  lemma {:induction false} SameFirst(a: seq<Outcome>, b: seq<Outcome>)
    requires a != [] && b != [] && (forall o :: o in a <==> o in b) && Ascending(a) && Ascending(b)
    requires forall x, y :: x in a && y in a && Period(x) == Period(y) ==> x == y
    ensures a[0] == b[0]
  {
    assert a[0] in b && b[0] in a;
    var i :| 0 <= i < |b| && b[i] == a[0];
    var j :| 0 <= j < |a| && a[j] == b[0];
    assert Period(b[0]) <= Period(b[i]) && Period(a[0]) <= Period(a[j]);
  }

  lemma RestOf(a: seq<Outcome>)
    requires a != []
    ensures a == [a[0]] + a[1..] && multiset(a[1..]) == multiset(a) - multiset{a[0]}
    ensures forall x :: x in a[1..] ==> x in a
    ensures Ascending(a) ==> Ascending(a[1..])
  {
    assert a == [a[0]] + a[1..];
  }

  lemma {:induction false} DistinctPeriodsDetermine(outcomes: seq<Outcome>)
    requires PeriodsDistinct(outcomes)
    ensures forall x, y :: x in outcomes && y in outcomes && Period(x) == Period(y) ==> x == y
  {
    forall x, y | x in outcomes && y in outcomes && Period(x) == Period(y) ensures x == y {
      var i :| 0 <= i < |outcomes| && outcomes[i] == x;
      var j :| 0 <= j < |outcomes| && outcomes[j] == y;
    }
  }

  /** The order in which concurrent activities complete does not matter: every
      permutation is sorted into the same list, and so aggregates to the same
      result. */
  lemma {:induction false} CompletionOrderDoesNotMatter(a: seq<Outcome>, b: seq<Outcome>)
    requires multiset(a) == multiset(b) && PeriodsDistinct(a)
    ensures SortedByPeriod(a) == SortedByPeriod(b)
  {
    SortSorts(a);
    SortSorts(b);
    SameMembers(a, SortedByPeriod(a));
    DistinctPeriodsDetermine(a);
    SortedOrderUnique(SortedByPeriod(a), SortedByPeriod(b));
  }

  /** A summary is determined by what it summarises. */
  lemma {:induction false} SummaryUnique(r: BatchResult, t: BatchResult, dailyFinal: bool, outcomes: seq<Outcome>)
    requires Summarises(r, dailyFinal, outcomes) && Summarises(t, dailyFinal, outcomes)
    ensures r == t
  {
    hide Total, Joined, Processed, FailedOnes;
    assert r.processed == t.processed;
  }

  lemma {:induction false} PartsOfLists(a: seq<Outcome>, b: seq<Outcome>)
    ensures Processed(a + b) == Processed(a) + Processed(b)
    ensures FailedOnes(a + b) == FailedOnes(a) + FailedOnes(b)
  {
    hide Processed, FailedOnes, Bounded;
    if b == [] {
      NoOutcomes();
      assert a + b == a;
    } else {
      var front, last := b[..|b| - 1], b[|b| - 1];
      assert b == front + [last] && a + b == a + front + [last];
      PartsOfLists(a, front);
      ProcessedStep(front, last);
      ProcessedStep(a + front, last);
    }
  }

  lemma NoOutcomes()
    ensures Processed([]) == [] && FailedOnes([]) == []
  {
  }

  lemma {:induction false} PartsOfTotals(a: seq<Activity>, b: seq<Activity>, count: Activity -> nat,
      items: Activity -> seq<string>)
    ensures Total(a + b, count) == Total(a, count) + Total(b, count)
    ensures Joined(a + b, items) == Joined(a, items) + Joined(b, items)
  {
    if b == [] {
      assert a + b == a;
    } else {
      var n := |b| - 1;
      assert (a + b)[..|a| + n] == a + b[..n];
      PartsOfTotals(a, b[..n], count, items);
    }
  }

  lemma {:induction false} PendingOfOne(p: PendingImport, a: Activity)
    requires PendingSummarises(p, [a])
    ensures p == a.pending
  {
    hide Total, Joined;
    forall count: Activity -> nat { OneActivity(a, count, PendingFailures); }
  }

  lemma {:induction false} AuditOfOne(t: AuditTotals, a: Activity)
    requires AuditSummarises(t, [a])
    ensures t == if a.audit.Some? then a.audit.value else AuditTotals(0, 0, 0, 0)
  {
    hide Total;
    forall count: Activity -> nat { OneActivity(a, count, PendingFailures); }
  }

  /** The summary of one activity that went well holds its numbers, each in its place. */
  lemma {:induction false} SummaryOfOne(r: BatchResult, dailyFinal: bool, o: Outcome)
    requires Summarises(r, dailyFinal, [o]) && o.result.Ok?
    ensures var a := o.result.value;
            && r.processed == [a.period] && r.failed == []
            && r.traced == a.traced && r.skipped == a.skipped && r.synced == a.synced
            && r.results == a.results && r.noticeSent == a.noticeSent && r.pending == a.pending
            && r.audit == if !dailyFinal then None
                          else if a.audit.Some? then a.audit else Some(AuditTotals(0, 0, 0, 0))
  {
    hide Total, Joined, Processed, FailedOnes, PendingSummarises, AuditSummarises;
    OneOutcome(o);
    var a := o.result.value;
    forall count: Activity -> nat { OneActivity(a, count, TraceResults); }
    PendingOfOne(r.pending, a);
    if dailyFinal { AuditOfOne(r.audit.value, a); }
    assert [a][0].noticeSent == a.noticeSent;
  }

  lemma OneActivity(a: Activity, count: Activity -> nat, items: Activity -> seq<string>)
    ensures Total([a], count) == count(a) && Joined([a], items) == items(a)
  {
    assert [a][..0] == [];
  }

  lemma OneOutcome(o: Outcome)
    ensures Processed([o]) == if o.result.Ok? then [o.result.value] else []
    ensures FailedOnes([o]) == if o.result.Ok? then [] else [Failure(o.scope, Bounded(o.result.error))]
  {
    assert [o][..0] == [];
  }

  /** The summary of one that failed holds its scope and nothing else. */
  lemma {:induction false} SummaryOfFailure(r: BatchResult, dailyFinal: bool, o: Outcome)
    requires Summarises(r, dailyFinal, [o]) && o.result.Err?
    ensures |r.failed| == 1 && r.failed[0].scope == o.scope && r.failed[0].error <= o.result.error
    ensures r.processed == [] && !r.noticeSent && r.results == [] && r.pending == PendingImport(0, 0, 0, 0, 0, 0, 0, [])
    ensures r.traced == 0 && r.skipped == 0 && r.synced == 0
    ensures r.audit == if dailyFinal then Some(AuditTotals(0, 0, 0, 0)) else None
  {
    OneOutcome(o);
  }

  lemma {:induction false} PendingOfBoth(p: PendingImport, q: PendingImport, t: PendingImport, x: seq<Activity>,
      y: seq<Activity>)
    requires PendingSummarises(p, x) && PendingSummarises(q, y) && PendingSummarises(t, x + y)
    ensures t == MergePending(p, q)
  {
    hide Total, Joined;
    forall count: Activity -> nat { PartsOfTotals(x, y, count, PendingFailures); }
  }

  lemma {:induction false} AuditOfBoth(p: AuditTotals, q: AuditTotals, t: AuditTotals, x: seq<Activity>,
      y: seq<Activity>)
    requires AuditSummarises(p, x) && AuditSummarises(q, y) && AuditSummarises(t, x + y)
    ensures t == MergeAudit(p, q)
  {
    hide Total;
    forall count: Activity -> nat { PartsOfTotals(x, y, count, PendingFailures); }
  }

  lemma AnyOfBoth(x: seq<Activity>, y: seq<Activity>)
    ensures (exists i :: 0 <= i < |x + y| && (x + y)[i].noticeSent)
       <==> (exists i :: 0 <= i < |x| && x[i].noticeSent) || (exists i :: 0 <= i < |y| && y[i].noticeSent)
  {
    if i :| 0 <= i < |x| && x[i].noticeSent { assert (x + y)[i].noticeSent; }
    if i :| 0 <= i < |y| && y[i].noticeSent { assert (x + y)[|x| + i].noticeSent; }
  }

  /** And the summary of two lists, one after the other, is the sum of their summaries. */
  lemma {:induction false} SummaryOfBoth(r: BatchResult, s: BatchResult, t: BatchResult, dailyFinal: bool,
      a: seq<Outcome>, b: seq<Outcome>)
    requires Summarises(r, dailyFinal, a) && Summarises(s, dailyFinal, b) && Summarises(t, dailyFinal, a + b)
    ensures t.processed == r.processed + s.processed && t.failed == r.failed + s.failed
    ensures t.traced == r.traced + s.traced && t.skipped == r.skipped + s.skipped && t.synced == r.synced + s.synced
    ensures t.results == r.results + s.results && t.noticeSent == (r.noticeSent || s.noticeSent)
    ensures t.pending == MergePending(r.pending, s.pending)
    ensures dailyFinal ==> t.audit == Some(MergeAudit(r.audit.value, s.audit.value))
  {
    hide Total, Joined, Processed, FailedOnes, PendingSummarises, AuditSummarises;
    PartsOfLists(a, b);
    var x, y := Processed(a), Processed(b);
    forall count: Activity -> nat { PartsOfTotals(x, y, count, TraceResults); }
    PendingOfBoth(r.pending, s.pending, t.pending, x, y);
    if dailyFinal { AuditOfBoth(r.audit.value, s.audit.value, t.audit.value, x, y); }
    AnyOfBoth(x, y);
  }

  /** The end of `run_workflow_inner`: sort, then aggregate. Any other order of
      completion gives the same result. */
  method CollectOutcomes(dailyFinal: bool, outcomes: seq<Outcome>) returns (r: BatchResult)
    ensures Summarises(r, dailyFinal, SortedByPeriod(outcomes))
    ensures PeriodsDistinct(outcomes) ==>
              forall other: seq<Outcome>, t: BatchResult ::
                multiset(other) == multiset(outcomes) && Summarises(t, dailyFinal, SortedByPeriod(other)) ==> t == r
  {
    hide Summarises, SortedByPeriod;
    r := AggregateActivityOutcomes(dailyFinal, SortedByPeriod(outcomes));
    if PeriodsDistinct(outcomes) {
      forall other: seq<Outcome>, t: BatchResult |
        multiset(other) == multiset(outcomes) && Summarises(t, dailyFinal, SortedByPeriod(other))
        ensures t == r
      {
        CompletionOrderDoesNotMatter(outcomes, other);
        SummaryUnique(t, r, dailyFinal, SortedByPeriod(outcomes));
      }
    }
  }

  datatype FinishedAs = AsSucceeded | AsPartialFailed | AsFailed

  /** Which finish call `run_workflow_exclusive` makes for a result. */
  function FinishedAsOf(r: BatchResult): FinishedAs {
    if r.failed == [] then AsSucceeded
    else if r.processed == [] then AsFailed
    else AsPartialFailed
  }

  /** A run succeeds exactly when every activity does, and fails exactly when there
      were some and none did. */
  lemma {:induction false} FinishReflectsOutcomes(r: BatchResult, dailyFinal: bool, outcomes: seq<Outcome>)
    requires Summarises(r, dailyFinal, outcomes)
    ensures FinishedAsOf(r) == AsSucceeded <==> forall o :: o in outcomes ==> o.result.Ok?
    ensures FinishedAsOf(r) == AsFailed <==> outcomes != [] && forall o :: o in outcomes ==> o.result.Err?
  {
    hide Total, Joined, PendingSummarises, AuditSummarises;
    OutcomesSplit(outcomes);
    OutcomesCount(outcomes);
  }

  lemma {:induction false} OutcomesCount(outcomes: seq<Outcome>)
    ensures (forall o :: o in outcomes ==> o.result.Ok?) <==> FailedOnes(outcomes) == []
    ensures (forall o :: o in outcomes ==> o.result.Err?) <==> Processed(outcomes) == []
  {
    if outcomes != [] {
      OutcomesCount(outcomes[..|outcomes| - 1]);
      assert outcomes == outcomes[..|outcomes| - 1] + [outcomes[|outcomes| - 1]];
    }
  }
}
