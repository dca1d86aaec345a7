/** The notification guard: claim, send, cool down (src/workflow_run.rs, driven by
    send_error_notice in src/workflow.rs). */
module NotificationGuard {
  import opened Wrappers

  const RESERVATION_SECONDS: int := 300
  const MAX_COOLDOWN: int := 0x7FFF_FFFF

  /** One row; the payload stands for its hash. */
  datatype GuardRow = GuardRow(payload: string, reservedUntil: int, lastSent: Option<int>)

  function CooldownSeconds(seconds: nat): int {
    if seconds <= MAX_COOLDOWN then seconds else MAX_COOLDOWN
  }

  // --------------------------------------------------------------------- statements

  predicate MayClaim(row: Option<GuardRow>, now: int, payload: string, cooldown: nat) {
    match row
    case None => true
    case Some(g) =>
      && g.reservedUntil <= now
      && (g.payload != payload || g.lastSent.None? || g.lastSent.value <= now - CooldownSeconds(cooldown))
  }

  /** The row remembers a send of the payload that is less than the cooldown ago. */
  predicate CoolsDown(g: GuardRow, now: int, payload: string, cooldown: nat) {
    g.payload == payload && g.lastSent.Some? && now < g.lastSent.value + CooldownSeconds(cooldown)
  }

  function Claimed(row: Option<GuardRow>, now: int, payload: string, cooldown: nat): Option<GuardRow> {
    if !MayClaim(row, now, payload, cooldown) then row
    else
      var lastSent := if row.Some? && row.value.payload == payload then row.value.lastSent else None;
      Some(GuardRow(payload, now + RESERVATION_SECONDS, lastSent))
  }

  function Marked(row: Option<GuardRow>, now: int): Option<GuardRow> {
    match row
    case Some(g) => Some(g.(lastSent := Some(now), reservedUntil := now))
    case None => None
  }

  function ReleasedRow(row: Option<GuardRow>, now: int): Option<GuardRow> {
    match row
    case Some(g) => Some(g.(reservedUntil := now))
    case None => None
  }

  type GuardKey = (string, string)

  function Lookup(rows: map<GuardKey, GuardRow>, key: GuardKey): Option<GuardRow> {
    if key in rows then Some(rows[key]) else None
  }

  function Stored(rows: map<GuardKey, GuardRow>, key: GuardKey, row: Option<GuardRow>): map<GuardKey, GuardRow> {
    match row
    case Some(g) => rows[key := g]
    case None => rows - {key}
  }

  /** The rows of all other keys are the same. */
  predicate OnlyRow(before: map<GuardKey, GuardRow>, after: map<GuardKey, GuardRow>, key: GuardKey) {
    before - {key} == after - {key}
  }

  /** Claiming and releasing again, when nothing was sent before, leaves the payload as
      claimable as a row that does not exist. */
  lemma ReleaseUndoesClaim(row: Option<GuardRow>, now: int, later: int, payload: string, cooldown: nat)
    requires MayClaim(row, now, payload, cooldown) && now <= later
    ensures MayClaim(ReleasedRow(Claimed(row, now, payload, cooldown), later), later, payload, cooldown)
  {
  }

  /** The table `notification_delivery_guard`, keyed by category and scope. */
  class GuardTable {
    var rows: map<GuardKey, GuardRow>

    constructor ()
      ensures rows == map[]
    {
      rows := map[];
    }

    /** A claim is granted when there is no row yet, or nobody has reserved it and it holds
        another payload, no send, or a send at least the cooldown ago; then it is reserved
        for five minutes. The cooldown is in seconds and capped at the largest i32. */
    method ClaimNotification(key: GuardKey, now: int, payload: string, cooldown: nat) returns (claimed: bool)
      modifies this
      ensures var seconds := if cooldown <= 0x7FFF_FFFF then cooldown else 0x7FFF_FFFF;
              claimed <==>
                || key !in old(rows)
                || (old(rows)[key].reservedUntil <= now
                    && (old(rows)[key].payload != payload || old(rows)[key].lastSent.None?
                        || old(rows)[key].lastSent.value + seconds <= now))
      ensures OnlyRow(old(rows), rows, key) && (!claimed ==> rows == old(rows))
      ensures claimed ==> key in rows && rows[key].payload == payload && rows[key].reservedUntil == now + 300
      ensures claimed ==>
                rows[key].lastSent
                == if key in old(rows) && old(rows)[key].payload == payload then old(rows)[key].lastSent else None
      ensures claimed == MayClaim(Lookup(old(rows), key), now, payload, cooldown)
      ensures rows == Stored(old(rows), key, Claimed(Lookup(old(rows), key), now, payload, cooldown))
    {
      if key !in rows {
        rows := rows[key := GuardRow(payload, now + RESERVATION_SECONDS, None)];
        return true;
      }
      var g := rows[key];
      var changed := g.payload != payload;
      claimed := g.reservedUntil <= now
              && (changed || g.lastSent.None? || g.lastSent.value <= now - CooldownSeconds(cooldown));
      if claimed {
        rows := rows[key := GuardRow(payload, now + RESERVATION_SECONDS, if changed then None else g.lastSent)];
      }
    }

    /** After a mark the same payload cannot be claimed within any cooldown and can from then
        on; another payload can at once. */
    method MarkNotificationSent(key: GuardKey, now: int)
      modifies this
      ensures OnlyRow(old(rows), rows, key) && (key in rows <==> key in old(rows))
      ensures key in rows ==> rows[key].payload == old(rows)[key].payload
      ensures key in rows ==> forall t, cooldown :: now <= t ==>
                var seconds := if cooldown <= 0x7FFF_FFFF then cooldown else 0x7FFF_FFFF;
                (MayClaim(Lookup(rows, key), t, rows[key].payload, cooldown) <==> now + seconds <= t)
      ensures key in rows ==> forall payload, cooldown :: payload != rows[key].payload ==>
              MayClaim(Lookup(rows, key), now, payload, cooldown)
      ensures rows == Stored(old(rows), key, Marked(Lookup(old(rows), key), now))
    {
      if key in rows {
        rows := rows[key := rows[key].(lastSent := Some(now), reservedUntil := now)];
      }
    }

    /** After a release the row stands in nobody's way: only a send it remembers counts,
        and it remembers what it did. */
    method ReleaseNotification(key: GuardKey, now: int)
      modifies this
      ensures OnlyRow(old(rows), rows, key) && (key in rows <==> key in old(rows))
      ensures key in rows ==>
              rows[key].payload == old(rows)[key].payload && rows[key].lastSent == old(rows)[key].lastSent
      ensures key in rows ==> forall t, payload, cooldown :: now <= t ==>
                (MayClaim(Lookup(rows, key), t, payload, cooldown) <==> !CoolsDown(rows[key], t, payload, cooldown))
      ensures rows == Stored(old(rows), key, ReleasedRow(Lookup(old(rows), key), now))
    {
      if key in rows {
        rows := rows[key := rows[key].(reservedUntil := now)];
      }
    }

    /** After a clear anything can be claimed. */
    method ClearNotification(key: GuardKey)
      modifies this
      ensures OnlyRow(old(rows), rows, key)
      ensures forall t, payload, cooldown :: MayClaim(Lookup(rows, key), t, payload, cooldown)
      ensures rows == Stored(old(rows), key, None)
    {
      rows := rows - {key};
    }
  }

  // ----------------------------------------------------------------------- histories

  /** What happens to one row. A mark or a release names the event that was its
      claim. */
  datatype What =
    | Claim(payload: string, cooldown: nat)
    | Mark(claim: nat)
    | Release(claim: nat)
    | Clear

  datatype Event = Event(at: int, what: What)

  function Effect(row: Option<GuardRow>, e: Event): Option<GuardRow> {
    match e.what
    case Claim(payload, cooldown) => Claimed(row, e.at, payload, cooldown)
    case Mark(_) => Marked(row, e.at)
    case Release(_) => ReleasedRow(row, e.at)
    case Clear => None
  }

  ghost predicate IsHistory(rows: seq<Option<GuardRow>>, events: seq<Event>) {
    && |rows| == |events| + 1 && rows[0] == None
    && (forall k :: 0 <= k < |events| ==> rows[k + 1] == Effect(rows[k], events[k]))
    && (forall i, j :: 0 <= i <= j < |events| ==> events[i].at <= events[j].at)
  }

  /** Event `k` is a claim that succeeds. */
  predicate Claims(rows: seq<Option<GuardRow>>, events: seq<Event>, k: nat)
    requires k < |events| <= |rows|
  {
    events[k].what.Claim? && MayClaim(rows[k], events[k].at, events[k].what.payload, events[k].what.cooldown)
  }

  predicate Ends(e: Event) {
    e.what.Mark? || e.what.Release?
  }

  /** Two successful claims within the reservation time have a mark, a release or a
      clear between them. */
  lemma {:induction false} ClaimsAreApart(rows: seq<Option<GuardRow>>, events: seq<Event>, i: nat, j: nat)
    requires IsHistory(rows, events) && i < j < |events|
    requires Claims(rows, events, i) && Claims(rows, events, j)
    requires events[j].at < events[i].at + RESERVATION_SECONDS
    ensures exists k :: i < k < j && (Ends(events[k]) || events[k].what.Clear?)
  {
    if forall k :: i < k < j ==> !Ends(events[k]) && !events[k].what.Clear? {
      ReservationStands(rows, events, i, j);
    }
  }

  lemma {:induction false} ReservationStands(rows: seq<Option<GuardRow>>, events: seq<Event>, i: nat, j: nat)
    requires IsHistory(rows, events) && i < j <= |events| && Claims(rows, events, i)
    requires forall k :: i < k < j ==> !Ends(events[k]) && !events[k].what.Clear?
    ensures rows[j].Some? && rows[j].value.reservedUntil >= events[i].at + RESERVATION_SECONDS
  {
    if j == i + 1 {
    } else {
      ReservationStands(rows, events, i, j - 1);
      assert rows[j - 1 + 1] == Effect(rows[j - 1], events[j - 1]);
    }
  }

  /** Each mark or release comes from the latest claimer, once, within its
      reservation. */
  ghost predicate Disciplined(rows: seq<Option<GuardRow>>, events: seq<Event>)
    requires IsHistory(rows, events)
  {
    forall k :: 0 <= k < |events| && Ends(events[k]) ==> OwnEnd(rows, events, events[k].what.claim, k)
  }

  ghost predicate OwnEnd(rows: seq<Option<GuardRow>>, events: seq<Event>, c: nat, k: nat)
    requires IsHistory(rows, events) && k < |events|
  {
    && c < k && Claims(rows, events, c)
    && events[k].at < events[c].at + RESERVATION_SECONDS
    && forall n :: c < n < k ==> !Claims(rows, events, n) && !Ends(events[n])
  }

  /** A send: a claim and the mark that ends it. */
  ghost predicate IsSend(rows: seq<Option<GuardRow>>, events: seq<Event>, c: nat, k: nat, payload: string) {
    && IsHistory(rows, events) && k < |events|
    && events[k].what == Mark(c) && OwnEnd(rows, events, c, k) && events[c].what.payload == payload
  }

  /** A message leaves between its claim and its mark. A payload that was sent is not
      claimed again, and so not sent again, within the cooldown of its mark, unless another
      payload was claimed in between, or the row was cleared after the first claim. */
  lemma {:induction false} SendsAreApart(rows: seq<Option<GuardRow>>, events: seq<Event>,
      c: nat, i: nat, d: nat, payload: string)
    requires IsHistory(rows, events) && IsSend(rows, events, c, i, payload)
    requires i < d < |events| && Claims(rows, events, d) && events[d].what.payload == payload
    requires events[d].at < events[i].at + CooldownSeconds(events[d].what.cooldown)
    ensures exists k ::
            c < k < d
            && (events[k].what.Clear? || (k > i && Claims(rows, events, k) && events[k].what.payload != payload))
  {
    if forall k :: c < k < d ==>
      !events[k].what.Clear? && !(k > i && Claims(rows, events, k) && events[k].what.payload != payload) {
      ClaimedRowStays(rows, events, c, i);
      SentRowStays(rows, events, i, d, payload);
    }
  }

  /** Up to its mark a claimed row keeps the payload. */
  lemma {:induction false} ClaimedRowStays(rows: seq<Option<GuardRow>>, events: seq<Event>, c: nat, k: nat)
    requires IsHistory(rows, events) && c < k <= |events| && Claims(rows, events, c)
    requires forall n :: c < n < k ==> !Claims(rows, events, n) && !Ends(events[n]) && !events[n].what.Clear?
    ensures rows[k].Some? && rows[k].value.payload == events[c].what.payload
  {
    if k == c + 1 {
    } else {
      ClaimedRowStays(rows, events, c, k - 1);
      assert rows[k - 1 + 1] == Effect(rows[k - 1], events[k - 1]);
    }
  }

  /** After a mark the row remembers a send no earlier, until it is cleared or
      claimed for another payload. */
  lemma {:induction false} SentRowStays(rows: seq<Option<GuardRow>>, events: seq<Event>, i: nat, k: nat,
      payload: string)
    requires IsHistory(rows, events) && i < k <= |events| && events[i].what.Mark?
    requires rows[i].Some? && rows[i].value.payload == payload
    requires forall n :: i < n < k ==>
             !events[n].what.Clear? && !(Claims(rows, events, n) && events[n].what.payload != payload)
    ensures rows[k].Some? && rows[k].value.payload == payload
    ensures rows[k].value.lastSent.Some? && rows[k].value.lastSent.value >= events[i].at
  {
    if k == i + 1 {
    } else {
      SentRowStays(rows, events, i, k - 1, payload);
      assert rows[k - 1 + 1] == Effect(rows[k - 1], events[k - 1]);
      assert Claims(rows, events, k - 1) || !Claims(rows, events, k - 1);
    }
  }

  // ------------------------------------------------------ exactly when it holds back

  /** What makes the row forget a send of the payload. */
  predicate Breaks(rows: seq<Option<GuardRow>>, events: seq<Event>, k: nat, payload: string)
    requires k < |events| <= |rows|
  {
    events[k].what.Clear? || (Claims(rows, events, k) && events[k].what.payload != payload)
  }

  /** The mark `m` of a send of the payload is remembered by the row at `k`. */
  ghost predicate IsRemembered(rows: seq<Option<GuardRow>>, events: seq<Event>, m: nat, k: nat, payload: string)
    requires k <= |events| <= |rows|
  {
    && m < k && events[m].what.Mark? && rows[m].Some? && rows[m].value.payload == payload
    && forall n :: m < n < k ==> !Breaks(rows, events, n, payload)
  }

  /** What a row remembers comes from such a mark. */
  lemma {:induction false} MemoryIsOfMark(rows: seq<Option<GuardRow>>, events: seq<Event>, k: nat) returns (m: nat)
    requires IsHistory(rows, events) && k <= |events|
    requires rows[k].Some? && rows[k].value.lastSent.Some?
    ensures IsRemembered(rows, events, m, k, rows[k].value.payload) && events[m].at == rows[k].value.lastSent.value
  {
    assert rows[k - 1 + 1] == Effect(rows[k - 1], events[k - 1]);
    if events[k - 1].what.Mark? {
      m := k - 1;
    } else {
      m := MemoryIsOfMark(rows, events, k - 1);
    }
  }

  /** At every claim of a row that nobody has reserved: it is refused exactly when a mark of
      the payload within the cooldown is remembered. */
  lemma {:induction false} RefusedExactly(rows: seq<Option<GuardRow>>, events: seq<Event>, d: nat)
    requires IsHistory(rows, events) && d < |events| && events[d].what.Claim?
    requires rows[d].Some? ==> rows[d].value.reservedUntil <= events[d].at
    ensures !Claims(rows, events, d) <==>
              exists m: nat :: IsRemembered(rows, events, m, d, events[d].what.payload)
                       && events[d].at < events[m].at + CooldownSeconds(events[d].what.cooldown)
  {
    var payload := events[d].what.payload;
    if !Claims(rows, events, d) {
      var m := MemoryIsOfMark(rows, events, d);
    }
    forall m: nat | IsRemembered(rows, events, m, d, payload)
               && events[d].at < events[m].at + CooldownSeconds(events[d].what.cooldown)
      ensures !Claims(rows, events, d)
    {
      RememberedRefuses(rows, events, m, d);
    }
  }

  /** In the seconds of the caller: from the last mark that the row remembers on, a claim of
      the payload that no reservation stands against is refused for the cooldown, or for the
      largest i32 if it is larger, and granted from then on. */
  lemma {:induction false} RefusedForCooldown(rows: seq<Option<GuardRow>>, events: seq<Event>, m: nat, d: nat)
    requires IsHistory(rows, events) && d < |events| && events[d].what.Claim?
    requires IsRemembered(rows, events, m, d, events[d].what.payload)
    requires forall n :: m < n < d ==> !events[n].what.Mark?
    requires rows[d].Some? ==> rows[d].value.reservedUntil <= events[d].at
    ensures events[d].what.cooldown <= 0x7FFF_FFFF ==>
              (Claims(rows, events, d) <==> events[m].at + events[d].what.cooldown <= events[d].at)
    ensures events[d].what.cooldown > 0x7FFF_FFFF ==>
              (Claims(rows, events, d) <==> events[m].at + 0x7FFF_FFFF <= events[d].at)
  {
    var payload := events[d].what.payload;
    forall n | m < n < d
      ensures !events[n].what.Clear? && !(Claims(rows, events, n) && events[n].what.payload != payload)
    {
      assert !Breaks(rows, events, n, payload);
    }
    SentRowStays(rows, events, m, d, payload);
    var last := MemoryIsOfMark(rows, events, d);
    assert last <= m;
    assert rows[d].value.lastSent == Some(events[m].at);
  }

  lemma {:induction false} RememberedRefuses(rows: seq<Option<GuardRow>>, events: seq<Event>, m: nat, d: nat)
    requires IsHistory(rows, events) && d < |events| && events[d].what.Claim?
    requires IsRemembered(rows, events, m, d, events[d].what.payload)
    requires events[d].at < events[m].at + CooldownSeconds(events[d].what.cooldown)
    ensures !Claims(rows, events, d)
  {
    forall n | m < n < d
      ensures !events[n].what.Clear? && !(Claims(rows, events, n) && events[n].what.payload != events[d].what.payload)
    {
      assert !Breaks(rows, events, n, events[d].what.payload);
    }
    SentRowStays(rows, events, m, d, events[d].what.payload);
  }

  /** A row that was not claimed meanwhile has been there before. */
  lemma {:induction false} RowWasThere(rows: seq<Option<GuardRow>>, events: seq<Event>, k: nat, n: nat)
    requires IsHistory(rows, events) && k <= n <= |events| && rows[n].Some?
    requires forall x :: k <= x < n ==> !Claims(rows, events, x)
    ensures rows[k].Some?
  {
    if k < n {
      assert rows[n - 1 + 1] == Effect(rows[n - 1], events[n - 1]);
      assert !Claims(rows, events, n - 1);
      RowWasThere(rows, events, k, n - 1);
    }
  }

  /** After a send, and until the row is marked again, a claim of the payload within the
      cooldown that no reservation stands against succeeds exactly when the row was cleared
      after the first claim, or another payload was claimed after the send. */
  lemma {:induction false} SentAgainExactly(rows: seq<Option<GuardRow>>, events: seq<Event>,
                                            c: nat, i: nat, d: nat, payload: string)
    requires IsHistory(rows, events) && IsSend(rows, events, c, i, payload)
    requires i < d < |events| && events[d].what.Claim? && events[d].what.payload == payload
    requires events[d].at < events[i].at + CooldownSeconds(events[d].what.cooldown)
    requires forall k :: i < k < d ==> !events[k].what.Mark?
    requires rows[d].Some? ==> rows[d].value.reservedUntil <= events[d].at
    ensures Claims(rows, events, d) <==>
              exists k :: c < k < d
                       && (events[k].what.Clear?
                            || (k > i && Claims(rows, events, k) && events[k].what.payload != payload))
  {
    RefusedExactly(rows, events, d);
    if Claims(rows, events, d) {
      SendsAreApart(rows, events, c, i, d, payload);
    } else {
      var m: nat :| IsRemembered(rows, events, m, d, payload)
               && events[d].at < events[m].at + CooldownSeconds(events[d].what.cooldown);
      NoBreakAfterSend(rows, events, c, i, d, m, payload);
    }
  }

  lemma {:induction false} NoBreakAfterSend(rows: seq<Option<GuardRow>>, events: seq<Event>,
                                            c: nat, i: nat, d: nat, m: nat, payload: string)
    requires IsHistory(rows, events) && IsSend(rows, events, c, i, payload) && i < d < |events|
    requires forall k :: i < k < d ==> !events[k].what.Mark?
    requires IsRemembered(rows, events, m, d, payload)
    ensures forall k :: c < k < d ==>
              !events[k].what.Clear? && !(k > i && Claims(rows, events, k) && events[k].what.payload != payload)
  {
    assert m == i || m < c;
    forall k | c < k < d
      && (events[k].what.Clear? || (k > i && Claims(rows, events, k) && events[k].what.payload != payload))
      ensures m == i && k < i
    {
      assert Breaks(rows, events, k, payload);
    }
    forall k | c < k < i && m == i ensures !events[k].what.Clear? {
      RowWasThere(rows, events, k + 1, i);
      assert rows[k + 1] == Effect(rows[k], events[k]);
    }
  }

  // -------------------------------------------------------------- where it gives way

  /** A clear between the first claim and its mark is enough: the mark then finds no
      row, and the payload can be sent again at once. */
  lemma ClearedClaimSendsTwice(payload: string, cooldown: nat) returns (rows: seq<Option<GuardRow>>, events: seq<Event>)
    requires cooldown > 0
    ensures IsHistory(rows, events) && Disciplined(rows, events) && |events| == 5
    ensures IsSend(rows, events, 0, 2, payload) && IsSend(rows, events, 3, 4, payload)
    ensures events[3].what.cooldown == cooldown && events[4].at == events[2].at
    ensures forall k :: 2 < k < 4 ==> !events[k].what.Clear? && events[k].what.payload == payload
  {
    events := [Event(0, Claim(payload, cooldown)), Event(0, Clear), Event(0, Mark(0)),
               Event(0, Claim(payload, cooldown)), Event(0, Mark(3))];
    var claimed := Some(GuardRow(payload, RESERVATION_SECONDS, None));
    rows := [None, claimed, None, None, claimed, Some(GuardRow(payload, 0, Some(0)))];
    assert OwnEnd(rows, events, 0, 2);
    assert OwnEnd(rows, events, 3, 4);
  }

  /** A sender that outlives its reservation is not kept from sending a second time
      within the cooldown. */
  lemma LateSenderSendsTwice(payload: string, cooldown: nat) returns (rows: seq<Option<GuardRow>>, events: seq<Event>)
    requires cooldown > 1
    ensures IsHistory(rows, events) && |events| == 4
    ensures Claims(rows, events, 0) && events[3].what == Mark(0) && events[0].what.payload == payload
    ensures IsSend(rows, events, 1, 2, payload)
    ensures events[3].at < events[2].at + cooldown && events[3].at >= events[0].at + RESERVATION_SECONDS
    ensures forall k :: 0 <= k < 4 ==>
            !events[k].what.Clear? && (events[k].what.Claim? ==> events[k].what.payload == payload)
  {
    events := [Event(0, Claim(payload, cooldown)), Event(300, Claim(payload, cooldown)),
               Event(301, Mark(1)), Event(302, Mark(0))];
    rows := [None, Some(GuardRow(payload, 300, None)), Some(GuardRow(payload, 600, None)),
             Some(GuardRow(payload, 301, Some(301))), Some(GuardRow(payload, 302, Some(302)))];
    assert OwnEnd(rows, events, 1, 2);
  }
}
