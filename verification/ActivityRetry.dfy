/** The deadline-bounded retry loop of one activity (src/workflow.rs). Time is in
    nanoseconds and passes only in attempts and sleeps. */
module ActivityRetry {
  import opened Wrappers
  import opened Text

  const SECOND: nat := 1_000_000_000
  const MAX_DELAY_SECONDS: nat := 300
  const U64_MAX: nat := 0xFFFF_FFFF_FFFF_FFFF

  function Min(a: nat, b: nat): nat { if a < b then a else b }

  function Pow2(n: nat): nat {
    if n == 0 then 1 else 2 * Pow2(n - 1)
  }

  /** `retry_delay_for_attempt`, in seconds. */
  function RetryDelay(base: nat, completed: nat): nat {
    var multiplier := Pow2(Min(if completed == 0 then 0 else completed - 1, 8));
    Min(Min(base * multiplier, U64_MAX), MAX_DELAY_SECONDS)
  }

  lemma {:induction false} Pow2Monotone(a: nat, b: nat)
    requires a <= b
    ensures 1 <= Pow2(a) <= Pow2(b)
  {
    if a < b {
      Pow2Monotone(a, b - 1);
    } else if a > 0 {
      Pow2Monotone(a - 1, a - 1);
    }
  }

  lemma TimesMonotone(base: nat, a: nat, b: nat)
    requires a <= b
    ensures base * a <= base * b
  {
    assert base * b == base * a + base * (b - a);
  }

  /** Delays never shrink from one attempt to the next and never pass five minutes. */
  lemma RetryDelayMonotone(base: nat, a: nat, b: nat)
    requires a <= b
    ensures RetryDelay(base, a) <= RetryDelay(base, b) <= 300
  {
    var m := Min(if a == 0 then 0 else a - 1, 8);
    var n := Min(if b == 0 then 0 else b - 1, 8);
    Pow2Monotone(m, n);
    TimesMonotone(base, Pow2(m), Pow2(n));
  }

  /** The first delay is the base; each of the next eight is twice the one before; all
      are capped at five minutes; later ones stay. */
  lemma RetryDelayDoubles(base: nat, completed: nat)
    requires completed >= 1
    ensures RetryDelay(base, 1) == Min(base, 300)
    ensures completed <= 8 ==>
            RetryDelay(base, completed + 1) == Min(2 * RetryDelay(base, completed), 300)
    ensures completed >= 9 ==> RetryDelay(base, completed + 1) == RetryDelay(base, completed)
  {
    if completed <= 8 {
      assert base * Pow2(completed) == 2 * (base * Pow2(completed - 1));
    }
  }

  // ------------------------------------------------------------- which errors retry

  predicate OccursAt(s: string, part: string, i: nat) {
    i + |part| <= |s| && s[i..i + |part|] == part
  }

  predicate Contains(s: string, part: string) {
    exists i :: 0 <= i <= |s| && OccursAt(s, part, i)
  }

  function PermanentMarkers(): seq<string> {
    ["未登录", "登录态", "登陆态", "未配置", "不能为空", "不支持", "不存在或未启用",
     "fieldnamenotfound", "permission denied", "forbidden", "cookie", "csrf"]
  }

  /** `is_retryable_workflow_error`, on the error's message. */
  predicate IsRetryable(message: string) {
    forall m :: 0 <= m < |PermanentMarkers()| ==>
      !Contains(message, PermanentMarkers()[m]) && !Contains(Lower(message), PermanentMarkers()[m])
  }

  lemma {:induction false} LowerKeepsParts(s: string, part: string)
    requires Contains(s, part) && Lower(part) == part
    ensures Contains(Lower(s), part)
  {
    var i :| 0 <= i <= |s| && OccursAt(s, part, i);
    var l, found := Lower(s), s[i..i + |part|];
    forall k | 0 <= k < |part| ensures l[i..i + |part|][k] == part[k] {
      assert l[i + k] == LowerChar(s[i + k]) && s[i + k] == found[k];
      assert Lower(part)[k] == LowerChar(part[k]);
    }
    assert OccursAt(l, part, i);
  }

  lemma {:induction false} LowerIfNoCapitals(s: string)
    requires NoCapitals(s)
    ensures Lower(s) == s
  {
    assert forall i :: 0 <= i < |s| ==> Lower(s)[i] == s[i];
  }

  predicate NoCapitals(s: string) {
    forall i :: 0 <= i < |s| ==> !('A' <= s[i] <= 'Z')
  }

  lemma MarkersAreLower()
    ensures forall m :: 0 <= m < |PermanentMarkers()| ==> NoCapitals(PermanentMarkers()[m])
  {
  }

  /** The case of ASCII letters does not matter, so looking at the lowered message is
      enough. */
  lemma {:induction false} RetryIgnoresCase(a: string, b: string)
    requires Lower(a) == Lower(b)
    ensures IsRetryable(a) == IsRetryable(b)
    ensures IsRetryable(a) <==> forall m :: 0 <= m < |PermanentMarkers()| ==> !Contains(Lower(a), PermanentMarkers()[m])
  {
    hide PermanentMarkers, Contains;
    MarkersAreLower();
    forall m | 0 <= m < |PermanentMarkers()|
      ensures Contains(a, PermanentMarkers()[m]) ==> Contains(Lower(a), PermanentMarkers()[m])
      ensures Contains(b, PermanentMarkers()[m]) ==> Contains(Lower(b), PermanentMarkers()[m])
    {
      var part := PermanentMarkers()[m];
      LowerIfNoCapitals(part);
      if Contains(a, part) { LowerKeepsParts(a, part); }
      if Contains(b, part) { LowerKeepsParts(b, part); }
    }
  }

  ghost predicate HasPart(text: string, part: string) {
    exists before, after :: text == before + part + after
  }

  lemma HasPartContains(text: string, part: string)
    ensures HasPart(text, part) <==> Contains(text, part)
  {
    if HasPart(text, part) {
      var before, after :| text == before + part + after;
      assert OccursAt(text, part, |before|);
    }
    if Contains(text, part) {
      var i :| 0 <= i <= |text| && OccursAt(text, part, i);
      assert text == text[..i] + part + text[i + |part|..];
    }
  }

  /** Which errors are not tried again: those whose message holds one of these parts,
      whatever the case of its letters. */
  lemma {:induction false} PermanentExactly(message: string)
    ensures !IsRetryable(message) <==>
              || HasPart(Lower(message), "未登录")
              || HasPart(Lower(message), "登录态")
              || HasPart(Lower(message), "登陆态")
              || HasPart(Lower(message), "未配置")
              || HasPart(Lower(message), "不能为空")
              || HasPart(Lower(message), "不支持")
              || HasPart(Lower(message), "不存在或未启用")
              || HasPart(Lower(message), "fieldnamenotfound")
              || HasPart(Lower(message), "permission denied")
              || HasPart(Lower(message), "forbidden")
              || HasPart(Lower(message), "cookie")
              || HasPart(Lower(message), "csrf")
  {
    hide Contains, HasPart, IsRetryable, PermanentMarkers, Lower;
    var t := Lower(message);
    RetryIgnoresCase(message, message);
    forall part { HasPartContains(t, part); }
    AnyMarker(t);
  }

  lemma {:induction false} AnyMarker(t: string)
    ensures (exists m :: 0 <= m < |PermanentMarkers()| && Contains(t, PermanentMarkers()[m]))
       <==> || Contains(t, "未登录")
            || Contains(t, "登录态")
            || Contains(t, "登陆态")
            || Contains(t, "未配置")
            || Contains(t, "不能为空")
            || Contains(t, "不支持")
            || Contains(t, "不存在或未启用")
            || Contains(t, "fieldnamenotfound")
            || Contains(t, "permission denied")
            || Contains(t, "forbidden")
            || Contains(t, "cookie")
            || Contains(t, "csrf")
  {
    hide Contains;
    var markers := PermanentMarkers();
    assert |markers| == 12;
    assert markers[0] == "未登录";
    assert markers[1] == "登录态";
    assert markers[2] == "登陆态";
    assert markers[3] == "未配置";
    assert markers[4] == "不能为空";
    assert markers[5] == "不支持";
    assert markers[6] == "不存在或未启用";
    assert markers[7] == "fieldnamenotfound";
    assert markers[8] == "permission denied";
    assert markers[9] == "forbidden";
    assert markers[10] == "cookie";
    assert markers[11] == "csrf";
  }

  // ---------------------------------------------------------------------- the loop

  datatype AttemptResult = Success | Retryable | Permanent

  /** What an attempt would do if nobody stopped it. */
  datatype Attempt = Attempt(duration: nat, error: Option<string>) {
    function Result(): AttemptResult {
      if error.None? then Success else if IsRetryable(error.value) then Retryable else Permanent
    }
  }

  datatype Tried = Tried(start: nat, end: nat)

  datatype Outcome = Done | TimedOut | NoBudgetLeft | GaveUp | Exhausted

  function Sum(delays: seq<nat>): nat {
    if delays == [] then 0 else Sum(delays[..|delays| - 1]) + delays[|delays| - 1]
  }

  predicate TryOk(world: nat -> Attempt, start: nat, deadline: nat, tries: seq<Tried>, sleeps: seq<nat>, i: nat)
    requires i < |tries| <= |sleeps| + 1
  {
    && tries[i].start == (if i == 0 then start else tries[i - 1].end + sleeps[i - 1] * SECOND)
    && tries[i].start < deadline
    && tries[i].end == Min(tries[i].start + world(i + 1).duration, deadline)
  }

  predicate SleepOk(world: nat -> Attempt, deadline: nat, base: nat, tries: seq<Tried>, sleeps: seq<nat>, i: nat)
    requires i < |sleeps| <= |tries|
  {
    && world(i + 1).Result().Retryable? && sleeps[i] == RetryDelay(base, i + 1)
    && tries[i].start + world(i + 1).duration <= deadline
    && tries[i].end + sleeps[i] * SECOND < deadline
  }

  /** The log of a run: attempts that start before the deadline and are cut off at it,
      and sleeps, each after a retryable error and over before the deadline. */
  ghost predicate IsLog(world: nat -> Attempt, start: nat, deadline: nat, base: nat, tries: seq<Tried>,
      sleeps: seq<nat>) {
    && |sleeps| <= |tries| <= |sleeps| + 1
    && (forall i :: 0 <= i < |tries| ==> TryOk(world, start, deadline, tries, sleeps, i))
    && (forall i :: 0 <= i < |sleeps| ==> SleepOk(world, deadline, base, tries, sleeps, i))
  }

  /** Whether the last attempt was cut off by the deadline. */
  predicate CutOff(world: nat -> Attempt, deadline: nat, tries: seq<Tried>)
    requires tries != []
  {
    tries[|tries| - 1].start + world(|tries|).duration > deadline
  }

  lemma AttemptLogged(world: nat -> Attempt, start: nat, deadline: nat, base: nat, tries: seq<Tried>, sleeps: seq<nat>,
      now: nat)
    requires IsLog(world, start, deadline, base, tries, sleeps) && |tries| == |sleeps| && now < deadline
    requires now == if tries == [] then start else tries[|tries| - 1].end + sleeps[|sleeps| - 1] * SECOND
    ensures IsLog(world, start, deadline, base, tries + [Tried(now, Min(now + world(|tries| + 1).duration, deadline))],
            sleeps)
  {
    var more := tries + [Tried(now, Min(now + world(|tries| + 1).duration, deadline))];
    forall i | 0 <= i < |tries| ensures TryOk(world, start, deadline, more, sleeps, i) {
      assert TryOk(world, start, deadline, tries, sleeps, i);
    }
    forall i | 0 <= i < |sleeps| ensures SleepOk(world, deadline, base, more, sleeps, i) {
      assert SleepOk(world, deadline, base, tries, sleeps, i);
    }
  }

  lemma {:induction false} SleepLogged(world: nat -> Attempt, start: nat, deadline: nat, base: nat, tries: seq<Tried>,
      sleeps: seq<nat>, delay: nat)
    requires IsLog(world, start, deadline, base, tries, sleeps) && |tries| == |sleeps| + 1
    requires world(|tries|).Result().Retryable? && delay == RetryDelay(base, |tries|)
    requires tries[|tries| - 1].start + world(|tries|).duration <= deadline
    requires tries[|tries| - 1].end + delay * SECOND < deadline
    ensures IsLog(world, start, deadline, base, tries, sleeps + [delay])
  {
    hide RetryDelay, IsRetryable;
    var more := sleeps + [delay];
    forall i | 0 <= i < |tries| ensures TryOk(world, start, deadline, tries, more, i) {
      assert TryOk(world, start, deadline, tries, sleeps, i);
      assert i > 0 ==> more[i - 1] == sleeps[i - 1];
    }
    forall i | 0 <= i < |sleeps| ensures SleepOk(world, deadline, base, tries, more, i) {
      assert SleepOk(world, deadline, base, tries, sleeps, i);
    }
  }

  /** A failure that is not followed by another attempt. */
  predicate IsLastTry(a: Attempt, tries: nat, maxAttempts: nat) {
    a.Result().Permanent? || (a.Result().Retryable? && tries == maxAttempts)
  }

  lemma LogStarts(world: nat -> Attempt, start: nat, deadline: nat, base: nat)
    ensures IsLog(world, start, deadline, base, [], [])
  {
  }

  /** `run_activity_workflow_with_retry` */
  method RunWithRetry(world: nat -> Attempt, start: nat, timeout: nat, maxAttempts: nat, base: nat)
    returns (outcome: Outcome, tries: seq<Tried>, sleeps: seq<nat>, finish: nat)
    ensures IsLog(world, start, start + timeout, base, tries, sleeps)
    ensures |tries| <= maxAttempts && start <= finish <= start + timeout
    ensures outcome.Exhausted? <==> maxAttempts == 0 || timeout == 0
    ensures !outcome.Exhausted? ==> |tries| == |sleeps| + 1 && finish == tries[|tries| - 1].end
    ensures !outcome.Exhausted? ==>
              var cut := CutOff(world, start + timeout, tries);
              && (outcome.TimedOut? <==> cut)
              && (outcome.Done? <==> !cut && world(|tries|).Result().Success?)
              && (outcome.GaveUp? <==> !cut && IsLastTry(world(|tries|), |tries|, maxAttempts))
              && (outcome.NoBudgetLeft? ==> finish + RetryDelay(base, |tries|) * SECOND >= start + timeout)
    ensures maxAttempts <= 5 ==> Sum(sleeps) <= Min(15 * base, 1200)
  {
    hide IsLog, RetryDelay, Sum, IsRetryable;
    var deadline := start + timeout;
    var now := start;
    LogStarts(world, start, deadline, base);
    tries, sleeps := [], [];
    var attempt := 1;
    while attempt <= maxAttempts
      invariant 1 <= attempt && |tries| == |sleeps| == attempt - 1
      invariant attempt <= maxAttempts || (maxAttempts == 0 && attempt == 1)
      invariant IsLog(world, start, deadline, base, tries, sleeps)
      invariant now == if tries == [] then start else tries[|tries| - 1].end + sleeps[|sleeps| - 1] * SECOND
      invariant start <= now <= deadline && (now < deadline || (timeout == 0 && attempt == 1))
      invariant forall i :: 0 <= i < |sleeps| ==> sleeps[i] == RetryDelay(base, i + 1)
    {
      var remaining := deadline - now;
      if remaining == 0 { break; }
      SleepsBounded(base, sleeps);
      AttemptLogged(world, start, deadline, base, tries, sleeps, now);
      var a := world(attempt);
      if a.duration > remaining {
        tries := tries + [Tried(now, deadline)];
        return TimedOut, tries, sleeps, deadline;
      }
      tries := tries + [Tried(now, now + a.duration)];
      now := now + a.duration;
      if a.error.None? { return Done, tries, sleeps, now; }
      if attempt < maxAttempts && IsRetryable(a.error.value) {
        var delay := RetryDelay(base, attempt);
        if delay * SECOND >= deadline - now { return NoBudgetLeft, tries, sleeps, now; }
        SleepLogged(world, start, deadline, base, tries, sleeps, delay);
        sleeps := sleeps + [delay];
        now := now + delay * SECOND;
      } else {
        return GaveUp, tries, sleeps, now;
      }
      attempt := attempt + 1;
    }
    SleepsBounded(base, sleeps);
    outcome, finish := Exhausted, now;
  }

  /** Four sleeps at most: the base doubled three times, each at most five minutes. */
  lemma SleepsBounded(base: nat, sleeps: seq<nat>)
    requires forall i :: 0 <= i < |sleeps| ==> sleeps[i] == RetryDelay(base, i + 1)
    ensures |sleeps| <= 4 ==> Sum(sleeps) <= Min(15 * base, 1200)
  {
    FirstDelays(base);
    if |sleeps| <= 4 {
      SumOfFour(base, sleeps);
    }
  }

  lemma FirstDelays(base: nat)
    ensures RetryDelay(base, 1) <= base && RetryDelay(base, 2) <= 2 * base
    ensures RetryDelay(base, 3) <= 4 * base && RetryDelay(base, 4) <= 8 * base
    ensures forall n :: RetryDelay(base, n) <= MAX_DELAY_SECONDS
  {
    assert Pow2(0) == 1 && Pow2(1) == 2 && Pow2(2) == 4 && Pow2(3) == 8;
  }

  lemma {:induction false} SumOfFour(base: nat, sleeps: seq<nat>)
    requires |sleeps| <= 4
    requires forall i :: 0 <= i < |sleeps| ==> sleeps[i] <= MAX_DELAY_SECONDS
    requires |sleeps| > 0 ==> sleeps[0] <= base
    requires |sleeps| > 1 ==> sleeps[1] <= 2 * base
    requires |sleeps| > 2 ==> sleeps[2] <= 4 * base
    requires |sleeps| > 3 ==> sleeps[3] <= 8 * base
    ensures Sum(sleeps) <= Min(15 * base, 1200)
  {
    hide Sum;
    SumOfNone();
    if |sleeps| > 0 { SumPrefix(sleeps, 1); }
    if |sleeps| > 1 { SumPrefix(sleeps, 2); }
    if |sleeps| > 2 { SumPrefix(sleeps, 3); }
    if |sleeps| > 3 { SumPrefix(sleeps, 4); }
    assert sleeps[..|sleeps|] == sleeps && sleeps[..0] == [];
  }

  lemma SumOfNone()
    ensures Sum([]) == 0
  {
  }

  lemma SumPrefix(s: seq<nat>, n: nat)
    requires 0 < n <= |s|
    ensures Sum(s[..n]) == Sum(s[..n - 1]) + s[n - 1]
  {
    assert s[..n][..n - 1] == s[..n - 1];
  }
}
