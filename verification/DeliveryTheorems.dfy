/** What holds over every run of the delivery machine: the fate of every row, its
    lifecycle, the meaning of its status, and the order of claims. */
module DeliveryTheorems {
  import opened Text
  import opened Delivery

  // ----- Runs ------------------------------------------------------------------------

  lemma {:induction false} ReachableInv(steps: seq<Step>)
    ensures Inv(Run(Init, steps))
  {
    if steps == [] {
      InitInv();
    } else {
      ReachableInv(steps[..|steps| - 1]);
      NextInv(Run(Init, steps[..|steps| - 1]), steps[|steps| - 1]);
    }
  }

  lemma {:induction false} RunConcat(s: State, a: seq<Step>, b: seq<Step>)
    ensures Run(s, a + b) == Run(Run(s, a), b)
  {
    if b == [] {
      assert a + b == a;
    } else {
      var c := a + b;
      assert c[..|c| - 1] == a + b[..|b| - 1];
      RunConcat(s, a, b[..|b| - 1]);
    }
  }

  lemma NextLogGrows(s: State, step: Step)
    ensures s.log <= Next(s, step).log
  {
    match step
    case OpenDrain(d, table, product, device) => assert s.log <= Open(s, d, table, product, device).log;
    case ClaimNext(d) => assert s.log <= ClaimOne(s, d).log;
    case _ =>
  }

  lemma {:induction false} LogGrows(s: State, steps: seq<Step>)
    ensures s.log <= Run(s, steps).log
  {
    if steps != [] {
      LogGrows(s, steps[..|steps| - 1]);
      var t := Run(s, steps[..|steps| - 1]);
      NextLogGrows(t, steps[|steps| - 1]);
    }
  }

  // ----- The lifecycle -----------------------------------------------------------------

  /** The statuses that any number of moves can lead to. */
  predicate Leads(a: Status, b: Status) {
    a == b || a == Pending || (a == Sent && (b == Success || b == Failed))
  }

  /** Over any stretch of any run no row is lost or changes its identity, and its
      status only moves forward; Success, Failed and Deleted are final. */
  lemma {:induction false} Lifecycle(s: State, steps: seq<Step>, k: Key)
    requires Inv(s) && k in s.rows
    ensures Inv(Run(s, steps))
    ensures var rows' := Run(s, steps).rows;
            && k in rows' && rows'[k] == s.rows[k].(status := rows'[k].status)
            && Leads(s.rows[k].status, rows'[k].status)
  {
    if steps != [] {
      Lifecycle(s, steps[..|steps| - 1], k);
      NextInv(Run(s, steps[..|steps| - 1]), steps[|steps| - 1]);
    }
  }

  lemma FinalStays(s: State, steps: seq<Step>, k: Key)
    requires Inv(s) && k in s.rows
    requires s.rows[k].status == Success || s.rows[k].status == Failed || s.rows[k].status == Deleted
    ensures k in Run(s, steps).rows && Run(s, steps).rows[k] == s.rows[k]
  {
    Lifecycle(s, steps, k);
  }

  // ----- The fate of a row -------------------------------------------------------------

  datatype Fate = Waiting | Cancelled | InTransit | WasDelivered | WasUndelivered | WasDropped

  ghost predicate HasFate(s: State, k: Key, f: Fate)
    requires k in s.rows
  {
    match f
    case Waiting => s.rows[k].status == Pending
    case Cancelled => s.rows[k].status == Deleted
    case InTransit => InFlight(s, k)
    case WasDelivered => Delivered(k) in s.log
    case WasUndelivered => Undelivered(k) in s.log
    case WasDropped => exists e :: e in s.log && e.Dropped? && k in e.keys
  }

  lemma {:induction false} EndedCounts(log: seq<Event>, k: Key, i: nat)
    requires i < |log| && Ends(log[i], k)
    ensures Ended(log, k) >= 1
  {
    if i < |log| - 1 { EndedCounts(log[..|log| - 1], k, i); }
  }

  lemma {:induction false} EndedOnce(log: seq<Event>, k: Key, i: nat, j: nat)
    requires i < |log| && j < |log| && Ends(log[i], k) && Ends(log[j], k) && Ended(log, k) <= 1
    ensures i == j
  {
    var m := |log| - 1;
    if i == m && j < m {
      EndedCounts(log[..m], k, j);
    } else if j == m && i < m {
      EndedCounts(log[..m], k, i);
    } else if i < m {
      EndedOnce(log[..m], k, i, j);
    }
  }

  lemma {:induction false} EndedWitness(log: seq<Event>, k: Key) returns (i: nat)
    requires Ended(log, k) >= 1
    ensures i < |log| && Ends(log[i], k)
  {
    var m := |log| - 1;
    if Ends(log[m], k) { i := m; } else { i := EndedWitness(log[..m], k); }
  }

  lemma FateExists(s: State, k: Key) returns (f: Fate)
    requires Inv(s) && k in s.rows
    ensures HasFate(s, k, f)
  {
    assert LedgerOk(s, k);
    if s.rows[k].status == Pending {
      f := Waiting;
    } else if s.rows[k].status == Deleted {
      f := Cancelled;
    } else if InFlight(s, k) {
      f := InTransit;
    } else {
      var i := EndedWitness(s.log, k);
      f := match s.log[i] case Delivered(_) => WasDelivered case Undelivered(_) => WasUndelivered case _ => WasDropped;
      assert s.log[i] in s.log;
    }
  }

  /** The position of the closing event that a fate speaks of. */
  lemma FateEvent(s: State, k: Key, f: Fate) returns (i: nat)
    requires k in s.rows && HasFate(s, k, f)
    requires f == WasDelivered || f == WasUndelivered || f == WasDropped
    ensures i < |s.log| && Ends(s.log[i], k)
    ensures f == match s.log[i]
                 case Delivered(_) => WasDelivered
                 case Undelivered(_) => WasUndelivered
                 case _ => WasDropped
    ensures Ended(s.log, k) >= 1
  {
    if f == WasDelivered {
      i :| 0 <= i < |s.log| && s.log[i] == Delivered(k);
    } else if f == WasUndelivered {
      i :| 0 <= i < |s.log| && s.log[i] == Undelivered(k);
    } else {
      var e :| e in s.log && e.Dropped? && k in e.keys;
      i :| 0 <= i < |s.log| && s.log[i] == e;
    }
    EndedCounts(s.log, k, i);
  }

  lemma FateUnique(s: State, k: Key, f: Fate, g: Fate)
    requires Inv(s) && k in s.rows && HasFate(s, k, f) && HasFate(s, k, g)
    ensures f == g
  {
    assert LedgerOk(s, k);
    var closed := {WasDelivered, WasUndelivered, WasDropped};
    if f in closed {
      var i := FateEvent(s, k, f);
      if g in closed {
        var j := FateEvent(s, k, g);
        EndedOnce(s.log, k, i, j);
      }
    } else if g in closed {
      var j := FateEvent(s, k, g);
    }
  }

  /** In every interleaving each created row has exactly one fate. */
  lemma OneFate(steps: seq<Step>, k: Key)
    requires k in Run(Init, steps).rows
    ensures exists f :: HasFate(Run(Init, steps), k, f)
    ensures forall f, g | HasFate(Run(Init, steps), k, f) && HasFate(Run(Init, steps), k, g) :: f == g
  {
    var s := Run(Init, steps);
    ReachableInv(steps);
    var f := FateExists(s, k);
    forall f, g | HasFate(s, k, f) && HasFate(s, k, g) ensures f == g { FateUnique(s, k, f, g); }
  }

  /** Every row is claimed at most once, and its claims balance the row in flight and
      the closing events. */
  lemma Conservation(steps: seq<Step>, k: Key)
    ensures var s := Run(Init, steps);
            && ClaimCount(s.log, k) == Ended(s.log, k) + (if InFlight(s, k) then 1 else 0)
            && ClaimCount(s.log, k) <= 1
            && (k in s.rows ==>
                  (ClaimCount(s.log, k) == 0 <==> s.rows[k].status == Pending || s.rows[k].status == Deleted))
  {
    ReachableInv(steps);
    assert LedgerOk(Run(Init, steps), k);
  }

  /** A closed publication is final: whatever happens later, a row that was not
      delivered is never Pending again and no later drain delivers it. */
  lemma UndeliveredForever(before: seq<Step>, after: seq<Step>, k: Key, f: Fate)
    requires k in Run(Init, before).rows && HasFate(Run(Init, before), k, f)
    requires f == WasUndelivered || f == WasDropped
    ensures var s := Run(Init, before + after);
            && k in s.rows && IsClaimed(s.rows[k].status)
            && Delivered(k) !in s.log && !InFlight(s, k)
  {
    var s0, s := Run(Init, before), Run(Init, before + after);
    RunConcat(Init, before, after);
    ReachableInv(before);
    Lifecycle(s0, after, k);
    LogGrows(s0, after);
    assert HasFate(s, k, f) by {
      if f == WasDropped {
        var e :| e in s0.log && e.Dropped? && k in e.keys;
        assert e in s.log;
      }
    }
    var g := FateExists(s, k);
    FateUnique(s, k, f, g);
    if Delivered(k) in s.log { FateUnique(s, k, f, WasDelivered); }
    if InFlight(s, k) { FateUnique(s, k, f, InTransit); }
    if s.rows[k].status == Pending { FateUnique(s, k, f, Waiting); }
    if s.rows[k].status == Deleted { FateUnique(s, k, f, Cancelled); }
  }

  /** A drain that ends normally found nothing left to claim. From then on every row of the
      device that existed is decided, in every interleaving: the answer Sent of a create call
      says no more than that, since the row may be cancelled, settled or undelivered by then. */
  lemma EmptyClaimDecides(before: seq<Step>, later: seq<Step>, k: Key)
    requires k in Run(Init, before).rows
    requires var s := Run(Init, before); PendingKeys(s.rows, k.table, s.rows[k].product, s.rows[k].device) == {}
    ensures var s := Run(Init, before + later); k in s.rows && s.rows[k].status != Pending
  {
    var s := Run(Init, before);
    assert k !in PendingKeys(s.rows, k.table, s.rows[k].product, s.rows[k].device);
    ReachableInv(before);
    RunConcat(Init, before, later);
    Lifecycle(s, later, k);
  }

  /** What one delete does: exactly the named Pending rows become Deleted. */
  lemma DeleteMeans(s: State, keys: set<Key>, k: Key)
    ensures var s' := Next(s, Delete(keys));
            && (k in s'.rows <==> k in s.rows)
            && (k in s.rows ==>
                  s'.rows[k] == if k in keys && s.rows[k].status == Pending then s.rows[k].(status := Deleted)
                                else s.rows[k])
  {
  }

  /** In every interleaving a Pending row that a delete names is Deleted from then on, and no
      drain ever publishes it. */
  lemma DeletedForGood(before: seq<Step>, keys: set<Key>, later: seq<Step>, k: Key)
    requires k in keys && k in Run(Init, before).rows && Run(Init, before).rows[k].status == Pending
    ensures var s := Run(Init, before + [Delete(keys)] + later);
            && k in s.rows && s.rows[k] == Run(Init, before).rows[k].(status := Deleted)
            && Delivered(k) !in s.log && Undelivered(k) !in s.log && !InFlight(s, k)
  {
    var steps := before + [Delete(keys)];
    var s, t := Run(Init, steps), Run(Init, steps + later);
    assert steps[..|before|] == before;
    DeleteMeans(Run(Init, before), keys, k);
    RunConcat(Init, steps, later);
    ReachableInv(steps);
    FinalStays(s, later, k);
    ReachableInv(steps + later);
    assert HasFate(t, k, Cancelled);
    if Delivered(k) in t.log { FateUnique(t, k, Cancelled, WasDelivered); }
    if Undelivered(k) in t.log { FateUnique(t, k, Cancelled, WasUndelivered); }
    if InFlight(t, k) { FateUnique(t, k, Cancelled, InTransit); }
  }

  // ----- The meaning of a status ---------------------------------------------------------

  /** `c` is the claim that decides the row and `r` its first settlement after it. */
  ghost predicate SettledAt(log: seq<Event>, k: Key, c: nat, r: nat) {
    && c < r < |log|
    && Claims(log[c], k) && (forall j | 0 <= j < c :: !Decides(log[j], k))
    && Settles(log[r], k) && (forall j | c < j < r :: !Settles(log[j], k))
  }

  /** A reply with an HTTP code from 200 to 299. */
  predicate IsSuccessReply(e: Event) { e.Replied? && 200 <= e.code <= 299 }

  /** Replies that come too early, too late, twice, or for another row change
      nothing: in every run a row is Success exactly when the first settlement after
      its claim is a 2xx reply, and Failed exactly when it is another reply or the
      drain's own failure update. */
  lemma FirstSettlementWins(steps: seq<Step>, k: Key)
    requires k in Run(Init, steps).rows
    ensures var s := Run(Init, steps);
            var status := s.rows[k].status;
            && (status == Success <==>
                exists c: nat, r: nat :: SettledAt(s.log, k, c, r) && IsSuccessReply(s.log[r]))
            && (status == Failed <==>
                exists c: nat, r: nat :: SettledAt(s.log, k, c, r) && !IsSuccessReply(s.log[r]))
  {
    ReachableInv(steps);
    assert LedgerOk(Run(Init, steps), k);
    SettledMeans(Run(Init, steps).log, k);
  }

  lemma SettledMeans(log: seq<Event>, k: Key)
    ensures HistoryStatus(log, k) == Success <==>
            exists c: nat, r: nat :: SettledAt(log, k, c, r) && IsSuccessReply(log[r])
    ensures HistoryStatus(log, k) == Failed <==>
            exists c: nat, r: nat :: SettledAt(log, k, c, r) && !IsSuccessReply(log[r])
  {
    var d := FirstDecision(log, k);
    forall c: nat, r: nat | SettledAt(log, k, c, r)
      ensures c == d && r == FirstSettlement(log, k, d + 1)
    {
      assert c == d;
    }
    if d < |log| && Claims(log[d], k) {
      var r := FirstSettlement(log, k, d + 1);
      if r < |log| { assert SettledAt(log, k, d, r); }
    }
  }

  // ----- Order ---------------------------------------------------------------------------

  ghost predicate SameLane(s: State, a: Key, b: Key) {
    && a in s.rows && b in s.rows && a.table == b.table
    && s.rows[a].product == s.rows[b].product && s.rows[a].device == s.rows[b].device
  }

  /** What a claim of `b` after a claim of `a` needs. */
  ghost predicate LaneOk(s: State, a: Key, b: Key) {
    SameLane(s, a, b) ==>
      && (IsClaimed(s.rows[a].status) && s.rows[b].status == Pending ==> a.id < b.id)
      && (forall i, j | 0 <= i < j < |s.log| && Claims(s.log[i], a) && Claims(s.log[j], b) :: a.id < b.id)
  }

  lemma {:induction false} ClaimedCounts(log: seq<Event>, k: Key, i: nat)
    requires i < |log| && Claims(log[i], k)
    ensures ClaimCount(log, k) >= 1
  {
    if i < |log| - 1 { ClaimedCounts(log[..|log| - 1], k, i); }
  }

  lemma BeforeMeansSmallerId(s: State, a: Key, b: Key)
    requires IdsOk(s) && a in s.rows && b in s.rows && a.table == b.table && a != b
    requires Before(s.rows, a, b)
    ensures a.id < b.id
  {
  }

  /** `q` takes rows of one lane, and leaves no earlier Pending row of it behind. */
  ghost predicate TakesFirst(s: State, dr: Drain, q: seq<Key>) {
    && (forall k | k in q :: k in s.rows && Owns(s.rows[k], k, dr.table, dr.product, dr.device)
                             && s.rows[k].status == Pending)
    && (forall a, b | a in q && b in s.rows && b !in q && s.rows[b].status == Pending
          && Owns(s.rows[b], b, dr.table, dr.product, dr.device) :: a.id < b.id)
  }

  lemma ClaimLane(s: State, d: nat, dr: Drain, q: seq<Key>, a: Key, b: Key)
    requires Inv(s) && LaneOk(s, a, b) && TakesFirst(s, dr, q)
    ensures LaneOk(Claim(s, d, dr, q), a, b)
  {
    var s' := Claim(s, d, dr, q);
    if SameLane(s', a, b) {
      assert SameLane(s, a, b) && LedgerOk(s, a);
      forall i, j | 0 <= i < j < |s'.log| && Claims(s'.log[i], a) && Claims(s'.log[j], b)
        ensures a.id < b.id
      {
        ClaimedCounts(s.log, a, i);
        if j == |s.log| { assert b in q; }
      }
    }
  }

  lemma OpenLane(s: State, d: nat, table: Table, product: string, device: string, a: Key, b: Key)
    requires Inv(s) && LaneOk(s, a, b)
    ensures LaneOk(Open(s, d, table, product, device), a, b)
  {
    if d !in s.drains && table == PropertyCommand {
      var dr := Drain(table, product, device, [], None);
      var q := InOrder(s.rows, PendingKeys(s.rows, table, product, device));
      assert TakesFirst(s, dr, q);
      ClaimLane(s, d, dr, q, a, b);
    }
  }

  lemma ClaimOneLane(s: State, d: nat, a: Key, b: Key)
    requires Inv(s) && LaneOk(s, a, b)
    ensures LaneOk(ClaimOne(s, d), a, b)
  {
    if ClaimOne(s, d) != s {
      var dr := s.drains[d];
      var pending := PendingKeys(s.rows, dr.table, dr.product, dr.device);
      var k := PickEarliest(s.rows, pending);
      forall x | x in pending && x != k ensures k.id < x.id { BeforeMeansSmallerId(s, k, x); }
      assert TakesFirst(s, dr, [k]);
      ClaimLane(s, d, dr, [k], a, b);
    }
  }

  /** Steps that claim nothing: rows keep their status or move within one class. */
  lemma QuietLane(s: State, s': State, keys: set<Key>, from: Status, to: Status, a: Key, b: Key)
    requires LaneOk(s, a, b)
    requires IsClaimed(from) == IsClaimed(to) && to != Pending
    requires s'.rows == s.rows || s'.rows == SetStatus(s.rows, keys, from, to)
    requires s'.log == s.log || (|s'.log| == |s.log| + 1 && s'.log[..|s.log|] == s.log && !s'.log[|s.log|].Claimed?)
    ensures LaneOk(s', a, b)
  {
    if SameLane(s', a, b) {
      forall i, j | 0 <= i < j < |s'.log| && Claims(s'.log[i], a) && Claims(s'.log[j], b)
        ensures a.id < b.id
      {
        assert j < |s.log| && s.log[i] == s'.log[..|s.log|][i] && s.log[j] == s'.log[..|s.log|][j];
      }
    }
  }

  lemma NextLane(s: State, step: Step, a: Key, b: Key)
    requires Inv(s) && LaneOk(s, a, b)
    ensures LaneOk(Next(s, step), a, b)
  {
    match step
    case Create(_, _, _, _) => CreateLane(s, step, a, b);
    case OpenDrain(d, table, product, device) => OpenLane(s, d, table, product, device, a, b);
    case ClaimNext(d) => ClaimOneLane(s, d, a, b);
    case PublishOk(d) => QuietLane(s, Publish(s, d, true), {}, Sent, Failed, a, b);
    case PublishFail(d) => QuietLane(s, Publish(s, d, false), {}, Sent, Failed, a, b);
    case Flip(d) =>
      if d in s.drains && s.drains[d].flipping.Some? {
        QuietLane(s, FlipHead(s, d), {s.drains[d].flipping.value}, Sent, Failed, a, b);
      }
    case CloseDrain(d) => QuietLane(s, Close(s, d), {}, Sent, Failed, a, b);
    case AbortDrain(d) => QuietLane(s, Abort(s, d), {}, Sent, Failed, a, b);
    case Delete(keys) => QuietLane(s, Cancel(s, keys), keys, Pending, Deleted, a, b);
    case Reply(k, product, device, serviceType, code) =>
      QuietLane(s, HandleReply(s, k, product, device, serviceType, code), {k}, Sent,
                if IsSuccessCode(code) then Success else Failed, a, b);
    case Tick =>
  }

  lemma CreateLane(s: State, step: Step, a: Key, b: Key)
    requires Inv(s) && LaneOk(s, a, b) && step.Create?
    ensures LaneOk(Next(s, step), a, b)
  {
    var s' := Next(s, step);
    assert LedgerOk(s, a) && LedgerOk(s, b);
    forall i, j | 0 <= i < j < |s'.log| && Claims(s'.log[i], a) && Claims(s'.log[j], b)
      ensures SameLane(s', a, b) ==> a.id < b.id
    {
      ClaimedCounts(s.log, a, i);
      ClaimedCounts(s.log, b, j);
    }
  }

  lemma {:induction false} ReachableLane(steps: seq<Step>, a: Key, b: Key)
    ensures LaneOk(Run(Init, steps), a, b)
  {
    if steps != [] {
      ReachableInv(steps[..|steps| - 1]);
      ReachableLane(steps[..|steps| - 1], a, b);
      NextLane(Run(Init, steps[..|steps| - 1]), steps[|steps| - 1], a, b);
    }
  }

  /** In every interleaving, however many drains run at once, the rows of one device
      are claimed in the order in which they were created. */
  lemma ClaimOrder(steps: seq<Step>, a: Key, b: Key, i: nat, j: nat)
    requires var s := Run(Init, steps);
             && SameLane(s, a, b) && i < j < |s.log| && Claims(s.log[i], a) && Claims(s.log[j], b)
    ensures a.id < b.id
  {
    ReachableLane(steps, a, b);
  }
}
