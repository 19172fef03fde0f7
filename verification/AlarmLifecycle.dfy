/** The lifecycle of one alarm record under any number of concurrent acknowledge and
    clear calls, each split into its check and its guarded update, and the rule
    engine's unchecked clears. */
module AlarmLifecycle {
  import opened Text

  datatype AlarmStatus = StActive | StAcknowledged | StCleared

  datatype Kind = Ack | Clear

  datatype Reply = Ok | Conflict

  /** A call that passed its check and has not executed its update yet. */
  datatype Call = Call(kind: Kind, checkedAt: nat)

  /** `history` holds the status after each change, oldest first, `replies` what each
      finished call returned, and `clearedAt` the step at which the alarm was cleared. */
  datatype State = State(status: AlarmStatus, history: seq<AlarmStatus>, open: map<nat, Call>,
                         replies: map<nat, (Kind, Reply)>, clock: nat, clearedAt: Option<nat>)

  datatype Step =
    | Check(c: nat, kind: Kind)
    | Update(c: nat)
    | EngineClear                 // rule engine: guarded clear of an alarm it had listed

  const Init := State(StActive, [StActive], map[], map[], 0, None)

  /** The row guard of the check and of the UPDATE statement. */
  predicate Permits(kind: Kind, st: AlarmStatus) {
    match kind case Ack => st == StActive case Clear => st != StCleared
  }

  function Target(kind: Kind): AlarmStatus {
    match kind case Ack => StAcknowledged case Clear => StCleared
  }

  function SetTo(s: State, st: AlarmStatus): State {
    s.(status := st, history := s.history + [st],
       clearedAt := if st == StCleared then Some(s.clock) else s.clearedAt)
  }

  function Next(s0: State, step: Step): State {
    var s := s0.(clock := s0.clock + 1);
    match step
    case Check(c, kind) =>
      if c in s.open || c in s.replies then s
      else if Permits(kind, s.status) then s.(open := s.open[c := Call(kind, s.clock)])
      else s.(replies := s.replies[c := (kind, Conflict)])
    case Update(c) =>
      if c !in s.open then s else
      var kind := s.open[c].kind;
      var ok := Permits(kind, s.status);
      var s' := s.(open := s.open - {c}, replies := s.replies[c := (kind, if ok then Ok else Conflict)]);
      if ok then SetTo(s', Target(kind)) else s'
    case EngineClear => if Permits(Clear, s.status) then SetTo(s, StCleared) else s
  }

  function Run(s: State, steps: seq<Step>): State {
    if steps == [] then s else Next(Run(s, steps[..|steps| - 1]), steps[|steps| - 1])
  }

  // ----- The invariant -------------------------------------------------------------------

  function Rank(st: AlarmStatus): nat {
    match st case StActive => 0 case StAcknowledged => 1 case StCleared => 2
  }

  /** The histories that the lifecycle admits: subsequences of active, acknowledged,
      cleared that begin with active. */
  ghost predicate Admitted(h: seq<AlarmStatus>) {
    h != [] && h[0] == StActive && forall i, j | 0 <= i < j < |h| :: Rank(h[i]) < Rank(h[j])
  }

  ghost predicate Won(s: State, c: nat, kind: Kind) { c in s.replies && s.replies[c] == (kind, Ok) }

  ghost predicate AtMostOneWins(s: State, kind: Kind) {
    forall c, d | Won(s, c, kind) && Won(s, d, kind) :: c == d
  }

  ghost predicate Inv(s: State) {
    && Admitted(s.history) && s.status == s.history[|s.history| - 1]
    && (s.clearedAt.Some? <==> s.status == StCleared)
    && AtMostOneWins(s, Ack) && AtMostOneWins(s, Clear)
    && (forall c :: Won(s, c, Ack) ==> StAcknowledged in s.history)
    && (forall c :: Won(s, c, Clear) ==> s.status == StCleared)
    && s.open.Keys !! s.replies.Keys
    && (forall c | c in s.open :: s.open[c].checkedAt <= s.clock)
    && (s.clearedAt.Some? ==> s.clearedAt.value <= s.clock)
  }

  /** A call that won rules out another winner of its kind. */
  lemma WinnerBlocks(s: State, c: nat, kind: Kind)
    requires Inv(s) && Won(s, c, kind)
    ensures !Permits(kind, s.status)
  {
    if kind == Ack {
      var i :| 0 <= i < |s.history| && s.history[i] == StAcknowledged;
      assert i == |s.history| - 1 || Rank(s.history[i]) < Rank(s.history[|s.history| - 1]);
    }
  }

  lemma SameReplies(s: State, s': State)
    requires Inv(s)
    requires s'.status == s.status && s'.history == s.history && s'.clearedAt == s.clearedAt
    requires forall d, k :: Won(s', d, k) <==> Won(s, d, k)
    requires s'.open.Keys !! s'.replies.Keys && s'.clock >= s.clock
    requires forall c | c in s'.open :: s'.open[c].checkedAt <= s'.clock
    ensures Inv(s')
  {
  }

  lemma SetToInv(s: State, st: AlarmStatus, winner: nat, kind: Kind, s': State)
    requires Inv(s) && Rank(s.status) < Rank(st)
    requires s'.status == st && s'.history == s.history + [st]
    requires s'.clearedAt == if st == StCleared then Some(s'.clock) else s.clearedAt
    requires forall d, k | Won(s', d, k) :: Won(s, d, k) || (d == winner && k == kind && st == Target(kind))
    requires !exists d :: Won(s, d, kind) && st == Target(kind)
    requires s'.open.Keys !! s'.replies.Keys && s'.clock >= s.clock
    requires forall c | c in s'.open :: s'.open[c].checkedAt <= s'.clock
    ensures Inv(s')
  {
    forall i, j | 0 <= i < j < |s'.history| ensures Rank(s'.history[i]) < Rank(s'.history[j]) {
      if j == |s.history| && i < |s.history| - 1 {
        assert Rank(s.history[i]) < Rank(s.history[|s.history| - 1]);
      }
    }
    assert s'.history[|s.history|] == st;
    forall d | Won(s', d, Ack) ensures StAcknowledged in s'.history { }
  }

  lemma NextInv(s: State, step: Step)
    requires Inv(s)
    ensures Inv(Next(s, step))
  {
    var s' := Next(s, step);
    match step
    case Check(c, kind) => SameReplies(s, s');
    case Update(c) =>
      if c in s.open && Permits(s.open[c].kind, s.status) {
        var kind := s.open[c].kind;
        forall d | Won(s, d, kind) ensures false { WinnerBlocks(s, d, kind); }
        SetToInv(s, Target(kind), c, kind, s');
      } else {
        SameReplies(s, s');
      }
    case EngineClear =>
      if Permits(Clear, s.status) {
        forall d | Won(s, d, Clear) ensures false { WinnerBlocks(s, d, Clear); }
        SetToInv(s, StCleared, 0, Clear, s');
      } else {
        SameReplies(s, s');
      }
  }

  lemma {:induction false} Reachable(steps: seq<Step>)
    ensures Inv(Run(Init, steps))
  {
    if steps != [] {
      Reachable(steps[..|steps| - 1]);
      NextInv(Run(Init, steps[..|steps| - 1]), steps[|steps| - 1]);
    }
  }

  /** In every interleaving the history is a subsequence of active, acknowledged,
      cleared; at most one acknowledge and at most one clear succeed. */
  lemma LifecycleHolds(steps: seq<Step>)
    ensures var s := Run(Init, steps);
            && Admitted(s.history) && s.status == s.history[|s.history| - 1]
            && AtMostOneWins(s, Ack) && AtMostOneWins(s, Clear)
  {
    Reachable(steps);
  }

  /** In every run a check is answered at once with a conflict when the status forbids the call,
      and lets the call go on otherwise; an update that follows at once then succeeds and sets
      the status. */
  lemma CheckOpens(steps: seq<Step>, c: nat, kind: Kind)
    requires var s := Run(Init, steps); c !in s.open && c !in s.replies
    ensures var s := Run(Init, steps);
            var s1 := Next(s, Check(c, kind));
            var s2 := Next(s1, Update(c));
            if (if kind == Ack then s.status == StActive else s.status != StCleared) then
              && c in s1.open && s1.open[c].kind == kind && s1.status == s.status
              && c in s2.replies && s2.replies[c] == (kind, Ok)
              && s2.status == (if kind == Ack then StAcknowledged else StCleared)
            else
              c in s1.replies && s1.replies[c] == (kind, Conflict) && s2.status == s1.status == s.status
  {
  }

  /** The rule engine's clear always leaves the alarm cleared, once. */
  lemma EngineClears(steps: seq<Step>)
    ensures var s := Run(Init, steps);
            var s' := Next(s, EngineClear);
            && s'.status == StCleared && s'.replies == s.replies
            && s'.history == if s.status == StCleared then s.history else s.history + [StCleared]
  {
  }

  /** An acknowledge whose check came before another call's clear, and whose update
      comes after it, gets a conflict and changes nothing but its own reply. */
  lemma LateAckConflicts(steps: seq<Step>, c: nat)
    requires var s := Run(Init, steps);
             && c in s.open && s.open[c].kind == Ack
             && s.clearedAt.Some? && s.open[c].checkedAt < s.clearedAt.value
    ensures var s := Run(Init, steps);
            var s' := Next(s, Update(c));
            && s'.replies == s.replies[c := (Ack, Conflict)]
            && s'.status == s.status && s'.history == s.history && s'.clearedAt == s.clearedAt
  {
    Reachable(steps);
  }

  /** What the history decides at a call's update, whatever its check saw: an acknowledge
      succeeds exactly when nothing has happened to the alarm yet, a clear exactly when no
      one has cleared it. */
  lemma UpdateDecides(steps: seq<Step>, c: nat)
    requires c in Run(Init, steps).open
    ensures var s := Run(Init, steps);
            var reply := Next(s, Update(c)).replies[c];
            reply == (s.open[c].kind, Ok)
            <==> if s.open[c].kind == Ack then s.history == [StActive] else StCleared !in s.history
  {
    Reachable(steps);
    LastIsHighest(Run(Init, steps).history);
  }

  lemma LastIsHighest(h: seq<AlarmStatus>)
    requires Admitted(h)
    ensures var last := h[|h| - 1];
            (last == StActive <==> h == [StActive]) && (last == StCleared <==> StCleared in h)
  {
    if |h| > 1 { assert Rank(h[0]) < Rank(h[|h| - 1]); }
    forall i | 0 <= i < |h| - 1 ensures h[i] != StCleared { assert Rank(h[i]) < Rank(h[|h| - 1]); }
  }

  lemma {:induction false} RunConcat(s: State, a: seq<Step>, b: seq<Step>)
    ensures Run(s, a + b) == Run(Run(s, a), b)
  {
    if b == [] {
      assert a + b == a;
    } else {
      assert (a + b)[..|a + b| - 1] == a + b[..|b| - 1];
      RunConcat(s, a, b[..|b| - 1]);
    }
  }

  lemma ReplyStays(s: State, step: Step, c: nat)
    requires s.open.Keys !! s.replies.Keys && c in s.replies
    ensures c in Next(s, step).replies && Next(s, step).replies[c] == s.replies[c]
  {
  }

  /** A reply is given once. */
  lemma {:induction false} RepliesStay(s: State, steps: seq<Step>, c: nat)
    requires Inv(s) && c in s.replies
    ensures var s' := Run(s, steps); Inv(s') && c in s'.replies && s'.replies[c] == s.replies[c]
  {
    if steps != [] {
      var before := Run(s, steps[..|steps| - 1]);
      RepliesStay(s, steps[..|steps| - 1], c);
      NextInv(before, steps[|steps| - 1]);
      ReplyStays(before, steps[|steps| - 1], c);
    }
  }

  /** Of calls of one kind whose checks have all passed, the first update that succeeds is
      the only one: every other call gets a conflict, whatever else happens before its update. */
  lemma FirstUpdateWins(steps: seq<Step>, c: nat, d: nat, later: seq<Step>)
    requires var s := Run(Init, steps);
             && c in s.open && d in s.open && c != d && s.open[c].kind == s.open[d].kind
             && Next(s, Update(c)).replies[c].1 == Ok
    ensures var kind := Run(Init, steps).open[c].kind;
            var s' := Run(Init, steps + [Update(c)] + later);
            && c in s'.replies && s'.replies[c] == (kind, Ok)
            && (d in s'.replies ==> s'.replies[d] != (kind, Ok))
  {
    var s := Run(Init, steps);
    Reachable(steps);
    NextInv(s, Update(c));
    assert (steps + [Update(c)])[..|steps|] == steps;
    RunConcat(Init, steps + [Update(c)], later);
    RepliesStay(Next(s, Update(c)), later, c);
    OnlyWinner(Run(Init, steps + [Update(c)] + later), c, d, s.open[c].kind);
  }

  lemma OnlyWinner(s: State, c: nat, d: nat, kind: Kind)
    requires Inv(s) && Won(s, c, kind) && c != d
    ensures !Won(s, d, kind)
  {
    if kind == Ack { assert AtMostOneWins(s, Ack); } else { assert AtMostOneWins(s, Clear); }
  }

  /** A cleared alarm stays cleared, and every later acknowledge or clear conflicts. */
  lemma {:induction false} ClearedIsFinal(s: State, steps: seq<Step>, c: nat)
    requires Inv(s) && s.status == StCleared && c !in s.replies
    ensures var s' := Run(s, steps);
            && Inv(s') && s'.status == StCleared && s'.history == s.history
            && (c in s'.replies ==> s'.replies[c].1 == Conflict)
  {
    if steps != [] {
      ClearedIsFinal(s, steps[..|steps| - 1], c);
      NextInv(Run(s, steps[..|steps| - 1]), steps[|steps| - 1]);
    }
  }

  // ----- The handlers ----------------------------------------------------------------------

  /** The alarm row and the two handlers run to their end. */
  class AlarmRecord {
    var status: AlarmStatus
    var acknowledged: bool

    ghost predicate Valid()
      reads this
    {
      acknowledged <==> status != StActive
    }

    constructor ()
      ensures Valid() && status == StActive
    {
      status, acknowledged := StActive, false;
    }

    /** `UPDATE alarm SET .. WHERE id = .. AND status ..`: the number of rows affected. */
    method GuardedUpdate(kind: Kind) returns (rows: nat)
      requires Valid()
      modifies this
      ensures Valid()
      ensures rows == if (if kind == Ack then old(status) == StActive else old(status) != StCleared) then 1 else 0
      ensures status == if rows == 0 then old(status) else if kind == Ack then StAcknowledged else StCleared
    {
      if Permits(kind, status) {
        status, acknowledged := Target(kind), true;
        return 1;
      }
      return 0;
    }

    /** `ack_alarm` and `clear_alarm`; Conflict is 409. */
    method Handle(kind: Kind) returns (reply: Reply)
      requires Valid()
      modifies this
      ensures Valid()
      ensures reply == Ok <==> if kind == Ack then old(status) == StActive else old(status) != StCleared
      ensures status == if reply == Conflict then old(status) else if kind == Ack then StAcknowledged else StCleared
    {
      if !Permits(kind, status) { return Conflict; }
      var rows := GuardedUpdate(kind);
      return if rows == 0 then Conflict else Ok;
    }
  }
}
