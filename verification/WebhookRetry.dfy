/** Bounded retry of alarm webhooks by the background task. Time is an integer number
    of seconds that the caller supplies. A tick reads the clock twice for a row: when it
    queries the due rows, and when it writes the row after the delivery attempt. */
module WebhookRetry {
  import opened Text

  /** `webhook_status` (NULL not configured, 0 success, 1 pending retry, 2 final
      failure), `webhook_retries_left` and `webhook_next_retry_at`. */
  datatype Row = Row(status: Option<int>, retriesLeft: int, nextRetry: Option<int>)

  const SUCCEEDED := Row(Some(0), 0, None)
  const FINAL_FAILED := Row(Some(2), 0, None)

  /** What the action executor stores when a first delivery fails. */
  function StartRetry(budget: int, now: int, interval: nat): Row {
    Row(Some(1), budget, Some(now + interval))
  }

  /** `query_pending_retries`. */
  predicate Due(r: Row, now: int) {
    r.status == Some(1) && r.retriesLeft > 0 && r.nextRetry.Some? && r.nextRetry.value <= now
  }

  /** One tick as one row sees it: the clock at the query and at the write. */
  datatype Tick = Tick(queriedAt: int, updatedAt: int, ok: bool)

  /** One row in one tick, without database faults: success is terminal; a failure
      takes one retry, and the last one is final. */
  function RowTick(r: Row, t: Tick, interval: nat): Row {
    if !Due(r, t.queriedAt) then r
    else if t.ok then SUCCEEDED
    else if r.retriesLeft - 1 <= 0 then FINAL_FAILED
    else r.(retriesLeft := r.retriesLeft - 1, nextRetry := Some(t.updatedAt + interval))
  }

  function Ticks(r: Row, interval: nat, ticks: seq<Tick>): Row {
    if ticks == [] then r
    else RowTick(Ticks(r, interval, ticks[..|ticks| - 1]), ticks[|ticks| - 1], interval)
  }

  /** How many of the ticks attempted a delivery. */
  function Attempts(r: Row, interval: nat, ticks: seq<Tick>): nat {
    if ticks == [] then 0
    else
      Attempts(r, interval, ticks[..|ticks| - 1])
      + (if Due(Ticks(r, interval, ticks[..|ticks| - 1]), ticks[|ticks| - 1].queriedAt) then 1 else 0)
  }

  function Failures(r: Row, interval: nat, ticks: seq<Tick>): nat {
    if ticks == [] then 0
    else
      Failures(r, interval, ticks[..|ticks| - 1])
      + (if Due(Ticks(r, interval, ticks[..|ticks| - 1]), ticks[|ticks| - 1].queriedAt) && !ticks[|ticks| - 1].ok
         then 1 else 0)
  }

  predicate Terminal(r: Row) { r == SUCCEEDED || r == FINAL_FAILED }

  /** Over any ticks at any times: failed attempts and retries left always add up to
      the budget, a pending row has budget left, a final failure has spent exactly the
      budget, and a success came before it was spent. */
  lemma {:induction false} BudgetIsConserved(budget: int, start: int, interval: nat, ticks: seq<Tick>)
    requires budget >= 1
    ensures var r0 := StartRetry(budget, start, interval);
            var r, failed := Ticks(r0, interval, ticks), Failures(r0, interval, ticks);
            && (Terminal(r) || (r.status == Some(1) && r.retriesLeft > 0 && r.nextRetry.Some?))
            && (r.status == Some(1) ==> failed + r.retriesLeft == budget
                                        && Attempts(r0, interval, ticks) == failed)
            && (r == FINAL_FAILED ==> failed == budget && Attempts(r0, interval, ticks) == failed)
            && (r == SUCCEEDED ==> failed < budget && Attempts(r0, interval, ticks) == failed + 1)
  {
    if ticks != [] { BudgetIsConserved(budget, start, interval, ticks[..|ticks| - 1]); }
  }

  /** No more deliveries are attempted than the budget allows, and a row on which that
      many were attempted is terminal. */
  lemma AttemptsAreBounded(budget: int, start: int, interval: nat, ticks: seq<Tick>)
    requires budget >= 1
    ensures var r0 := StartRetry(budget, start, interval);
            && Attempts(r0, interval, ticks) <= budget
            && (Attempts(r0, interval, ticks) == budget ==> Terminal(Ticks(r0, interval, ticks)))
  {
    BudgetIsConserved(budget, start, interval, ticks);
  }

  /** Success, final failure and a row without webhook never change again. */
  lemma {:induction false} TerminalIsAbsorbing(r: Row, interval: nat, ticks: seq<Tick>)
    requires r.status != Some(1)
    ensures Ticks(r, interval, ticks) == r
  {
    if ticks != [] { TerminalIsAbsorbing(r, interval, ticks[..|ticks| - 1]); }
  }

  // ----- How many ticks settle a row ------------------------------------------------------------

  /** Every query comes at least an interval after the write of the tick before, and not
      before `from`. */
  ghost predicate Spaced(ticks: seq<Tick>, from: int, interval: nat) {
    && (forall i | 0 <= i < |ticks| :: ticks[i].queriedAt <= ticks[i].updatedAt)
    && (ticks != [] ==> ticks[0].queriedAt >= from)
    && forall i | 0 < i < |ticks| :: ticks[i].queriedAt >= ticks[i - 1].updatedAt + interval
  }

  lemma {:induction false} SpacedTicksAreDue(budget: int, start: int, interval: nat, ticks: seq<Tick>)
    requires budget >= 1 && Spaced(ticks, start + interval, interval)
    ensures var r0 := StartRetry(budget, start, interval);
            Terminal(Ticks(r0, interval, ticks)) ||
              (Attempts(r0, interval, ticks) == |ticks| && var r := Ticks(r0, interval, ticks);
               r.nextRetry.Some? && (if ticks == [] then r.nextRetry.value == start + interval
                                     else r.nextRetry.value == ticks[|ticks| - 1].updatedAt + interval))
  {
    if ticks != [] {
      var m := |ticks| - 1;
      SpacedTicksAreDue(budget, start, interval, ticks[..m]);
      BudgetIsConserved(budget, start, interval, ticks[..m]);
      if m > 0 { assert ticks[..m][m - 1] == ticks[m - 1]; }
    }
  }

  lemma {:induction false} NoBudgetIsStuck(r: Row, interval: nat, ticks: seq<Tick>)
    requires r.status == Some(1) && r.retriesLeft <= 0
    ensures Ticks(r, interval, ticks) == r
  {
    if ticks != [] { NoBudgetIsStuck(r, interval, ticks[..|ticks| - 1]); }
  }

  /** When each query waits an interval after the last write, `n` ticks are sure to settle a
      row exactly when the budget is positive and at most `n`: a configured budget of zero or
      less leaves the row pending for ever, without a single retry. */
  lemma SettledExactlyWhen(budget: int, start: int, interval: nat, n: nat)
    ensures (forall ticks | |ticks| == n && Spaced(ticks, start + interval, interval) ::
               Terminal(Ticks(StartRetry(budget, start, interval), interval, ticks)))
            <==> 1 <= budget <= n
  {
    var r0 := StartRetry(budget, start, interval);
    if 1 <= budget <= n {
      forall ticks | |ticks| == n && Spaced(ticks, start + interval, interval)
        ensures Terminal(Ticks(r0, interval, ticks))
      {
        SpacedTicksAreDue(budget, start, interval, ticks);
        AttemptsAreBounded(budget, start, interval, ticks);
      }
    } else {
      var ticks := Refused(start + interval, interval, 0, n);
      if budget <= 0 {
        NoBudgetIsStuck(r0, interval, ticks);
      } else {
        BudgetIsConserved(budget, start, interval, ticks);
        RefusedNeverSucceeds(r0, interval, ticks);
        AttemptsFit(r0, interval, ticks);
      }
      assert !Terminal(Ticks(r0, interval, ticks));
    }
  }

  /** Refused deliveries at ticks exactly an interval apart, each taking `slow` seconds. */
  function Refused(from: int, interval: nat, slow: nat, n: nat): (ticks: seq<Tick>)
    ensures |ticks| == n && forall i | 0 <= i < n :: !ticks[i].ok && ticks[i].updatedAt == ticks[i].queriedAt + slow
    ensures ticks != [] ==> ticks[0].queriedAt == from
    ensures forall i | 0 < i < n :: ticks[i].queriedAt == ticks[i - 1].queriedAt + interval
  {
    seq(n, i requires 0 <= i => Tick(from + i * interval, from + i * interval + slow, false))
  }

  /** The ticks of the task as it is configured: the tick period is the retry interval, so a
      query comes an interval after the last query, while the attempt in between takes time,
      at most an interval. */
  ghost predicate Periodic(ticks: seq<Tick>, from: int, interval: nat) {
    && (forall i | 0 <= i < |ticks| ::
          ticks[i].queriedAt <= ticks[i].updatedAt <= ticks[i].queriedAt + interval)
    && (ticks != [] ==> ticks[0].queriedAt >= from)
    && forall i | 0 < i < |ticks| :: ticks[i].queriedAt >= ticks[i - 1].queriedAt + interval
  }

  /** A failed attempt makes the row miss at most the next tick. */
  ghost predicate EveryOtherTick(r: Row, attempts: nat, ticks: seq<Tick>, from: int, interval: nat) {
    r.nextRetry.Some? &&
    var next, n := r.nextRetry.value, |ticks|;
    if n == 0 then next <= from
    else
      var last := ticks[n - 1].queriedAt;
      || (next <= last + interval && 2 * attempts >= n)
      || (next <= last + 2 * interval && 2 * attempts >= n + 1)
  }

  lemma {:induction false} PeriodicTicksCatchUp(budget: int, start: int, interval: nat, ticks: seq<Tick>)
    requires budget >= 1 && Periodic(ticks, start + interval, interval)
    ensures var r0 := StartRetry(budget, start, interval);
            var r := Ticks(r0, interval, ticks);
            Terminal(r) || EveryOtherTick(r, Attempts(r0, interval, ticks), ticks, start + interval, interval)
  {
    if ticks != [] {
      var m := |ticks| - 1;
      PeriodicTicksCatchUp(budget, start, interval, ticks[..m]);
      BudgetIsConserved(budget, start, interval, ticks[..m]);
      if m > 0 { assert ticks[..m][m - 1] == ticks[m - 1]; }
    }
  }

  /** When every attempt takes a second, only every other tick finds the row due. */
  lemma {:induction false} SlowTicksSkip(budget: int, start: int, interval: nat, from: int, n: nat)
    requires budget >= 1 && interval >= 1 && from == start + interval
    ensures var r0 := StartRetry(budget, start, interval);
            var ticks := Refused(from, interval, 1, n);
            var attempts, r := Attempts(r0, interval, ticks), Ticks(r0, interval, ticks);
            && 2 * attempts <= n + 1
            && (n > 0 && 2 * attempts == n + 1 && r.status == Some(1) ==>
                  r.nextRetry.Some? && r.nextRetry.value > ticks[n - 1].queriedAt + interval)
  {
    if n > 0 {
      SlowTicksSkip(budget, start, interval, from, n - 1);
      var ticks := Refused(from, interval, 1, n);
      assert ticks[..n - 1] == Refused(from, interval, 1, n - 1);
    }
  }

  /** With the periodic ticks of the task, `n` ticks are sure to settle a row exactly when the
      budget is positive and `n` is at least twice the budget less one: every attempt but the
      last costs two ticks, because it is scheduled an interval after the write, which is later
      than the next query. */
  lemma PeriodicSettledExactlyWhen(budget: int, start: int, interval: nat, n: nat)
    requires interval >= 1
    ensures (forall ticks | |ticks| == n && Periodic(ticks, start + interval, interval) ::
               Terminal(Ticks(StartRetry(budget, start, interval), interval, ticks)))
            <==> 1 <= budget && 2 * budget - 1 <= n
  {
    var r0 := StartRetry(budget, start, interval);
    if 1 <= budget && 2 * budget - 1 <= n {
      forall ticks | |ticks| == n && Periodic(ticks, start + interval, interval)
        ensures Terminal(Ticks(r0, interval, ticks))
      {
        PeriodicTicksCatchUp(budget, start, interval, ticks);
        BudgetIsConserved(budget, start, interval, ticks);
      }
    } else {
      var ticks := Refused(start + interval, interval, 1, n);
      if budget <= 0 {
        NoBudgetIsStuck(r0, interval, ticks);
      } else {
        BudgetIsConserved(budget, start, interval, ticks);
        RefusedNeverSucceeds(r0, interval, ticks);
        SlowTicksSkip(budget, start, interval, start + interval, n);
      }
      assert !Terminal(Ticks(r0, interval, ticks));
    }
  }

  lemma {:induction false} RefusedNeverSucceeds(r: Row, interval: nat, ticks: seq<Tick>)
    requires r.status == Some(1) && forall i | 0 <= i < |ticks| :: !ticks[i].ok
    ensures Ticks(r, interval, ticks) != SUCCEEDED
  {
    if ticks != [] { RefusedNeverSucceeds(r, interval, ticks[..|ticks| - 1]); }
  }

  lemma {:induction false} AttemptsFit(r: Row, interval: nat, ticks: seq<Tick>)
    ensures Failures(r, interval, ticks) <= |ticks|
  {
    if ticks != [] { AttemptsFit(r, interval, ticks[..|ticks| - 1]); }
  }

  // ----- What the API shows ----------------------------------------------------------------

  function ApiStatus(r: Row): Option<string> {
    match r.status
    case None => None
    case Some(v) => Some(if v == 0 then "success" else if v == 2 then "final_failed" else "failed")
  }

  /** The API shows `failed` exactly while a retry is still to come, and
      `final_failed` exactly when every attempt of the budget has failed. */
  lemma ApiStatusMeans(budget: int, start: int, interval: nat, ticks: seq<Tick>)
    requires budget >= 1
    ensures var r0 := StartRetry(budget, start, interval);
            var r := Ticks(r0, interval, ticks);
            && (ApiStatus(r) == Some("failed") <==> exists now :: Due(r, now))
            && (ApiStatus(r) == Some("final_failed") <==> Failures(r0, interval, ticks) == budget)
  {
    var r := Ticks(StartRetry(budget, start, interval), interval, ticks);
    BudgetIsConserved(budget, start, interval, ticks);
    assert "failed" != "success" && "failed" != "final_failed" && "success" != "final_failed" by {
      assert |"failed"| == 6 && |"success"| == 7 && |"final_failed"| == 12;
    }
    if r.status == Some(1) { assert Due(r, r.nextRetry.value); }
  }

  // ----- The task --------------------------------------------------------------------------

  /** `retry_single_webhook`: the urls of the rule in order until one refuses; a rule
      that is gone or has no webhook counts as delivered. */
  method RetrySingleWebhook(urls: Option<seq<string>>, accepts: string -> bool) returns (ok: bool, posted: seq<string>)
    ensures ok <==> urls == None || forall u | u in urls.value :: accepts(u)
    ensures urls == None ==> posted == []
    ensures urls.Some? ==> posted <= urls.value
    ensures urls.Some? && ok ==> posted == urls.value
    ensures !ok ==> posted != [] && !accepts(posted[|posted| - 1])
                    && forall i | 0 <= i < |posted| - 1 :: accepts(posted[i])
  {
    posted := [];
    if urls == None { return true, posted; }
    for i := 0 to |urls.value|
      invariant posted == urls.value[..i] && forall j | 0 <= j < i :: accepts(urls.value[j])
    {
      posted := posted + [urls.value[i]];
      if !accepts(urls.value[i]) { return false, posted; }
    }
    return true, posted;
  }

  /** One tick over all rows; each row is written at its own time. */
  function TickAll(rows: map<int, Row>, ticks: int -> Tick, interval: nat): map<int, Row> {
    map id | id in rows :: RowTick(rows[id], ticks(id), interval)
  }

  class AlarmTable {
    var rows: map<int, Row>

    constructor ()
      ensures rows == map[]
    {
      rows := map[];
    }

    method MarkWebhookSuccess(id: int)
      requires id in rows
      modifies this
      ensures rows == old(rows)[id := SUCCEEDED]
    {
      rows := rows[id := SUCCEEDED];
    }

    method MarkWebhookFinalFailure(id: int)
      requires id in rows
      modifies this
      ensures rows == old(rows)[id := FINAL_FAILED]
    {
      rows := rows[id := FINAL_FAILED];
    }

    /** `decrement_retry_and_schedule_next`: the retries left, or None when there were none. */
    method DecrementRetry(id: int, now: int, interval: nat) returns (remaining: Option<int>)
      requires id in rows
      modifies this
      ensures remaining == if old(rows)[id].retriesLeft > 0 then Some(old(rows)[id].retriesLeft - 1) else None
      ensures remaining == None ==> rows == old(rows)
      ensures remaining.Some? ==>
                rows == old(rows)[id := old(rows)[id].(retriesLeft := remaining.value,
                                                       nextRetry := Some(now + interval))]
    {
      if rows[id].retriesLeft <= 0 { return None; }
      remaining := Some(rows[id].retriesLeft - 1);
      rows := rows[id := rows[id].(retriesLeft := remaining.value, nextRetry := Some(now + interval))];
    }

    /** One tick of `webhook_retry_task` over the pending rows it queried. A row is written
        when its delivery attempt is over, hence later than the attempts before it. */
    method RetryTick(pending: seq<int>, queriedAt: int, updatedAt: int -> int, interval: nat, ok: int -> bool)
      requires forall i | 0 <= i < |pending| :: pending[i] in rows && Due(rows[pending[i]], queriedAt)
      requires forall id | id in rows && Due(rows[id], queriedAt) :: id in pending
      requires forall i, j | 0 <= i < j < |pending| :: pending[i] != pending[j]
      modifies this
      ensures rows == TickAll(old(rows), id => Tick(queriedAt, updatedAt(id), ok(id)), interval)
    {
      ghost var before := rows;
      ghost var ticks := (id: int) => Tick(queriedAt, updatedAt(id), ok(id));
      for i := 0 to |pending|
        invariant rows.Keys == before.Keys
        invariant forall id | id in before ::
                    rows[id] == if id in pending[..i] then RowTick(before[id], ticks(id), interval) else before[id]
      {
        var id := pending[i];
        assert id !in pending[..i];
        if ok(id) {
          MarkWebhookSuccess(id);
        } else {
          var remaining := DecrementRetry(id, updatedAt(id), interval);
          if remaining.Some? && remaining.value <= 0 { MarkWebhookFinalFailure(id); }
        }
      }
      assert pending[..|pending|] == pending;
      forall id | id in before ensures rows[id] == RowTick(before[id], ticks(id), interval) {
        if id !in pending { assert !Due(before[id], queriedAt); }
      }
    }
  }
}
