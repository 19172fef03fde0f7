/** In which order the rows of one device are published. Claims are in creation order
    (ClaimOrder of DeliveryTheorems); publications are when no two drains of the device hold
    claimed rows at once. */
module PublicationOrder {
  import opened Text
  import opened Delivery
  import opened DeliveryTheorems

  /** The commands of one table for one device. */
  datatype Lane = Lane(table: Table, product: string, device: string)

  function LaneOf(k: Key, r: Row): Lane { Lane(k.table, r.product, r.device) }

  function DrainLane(dr: Drain): Lane { Lane(dr.table, dr.product, dr.device) }

  predicate InLane(s: State, k: Key, lane: Lane) { k in s.rows && LaneOf(k, s.rows[k]) == lane }

  predicate Publishes(e: Event, k: Key) { (e.Delivered? || e.Undelivered?) && e.key == k }

  ghost predicate WasPublished(log: seq<Event>, k: Key) { exists i :: 0 <= i < |log| && Publishes(log[i], k) }

  /** The drain has claimed rows of the lane that it has not published yet. */
  predicate Holding(s: State, d: nat, lane: Lane) {
    d in s.drains && DrainLane(s.drains[d]) == lane && s.drains[d].queue != []
  }

  ghost predicate SoleHolder(s: State, lane: Lane) {
    forall c, d | Holding(s, c, lane) && Holding(s, d, lane) :: c == d
  }

  /** So far the rows of the lane were published in the order in which they were created. */
  ghost predicate LaneInOrder(s: State, lane: Lane) {
    forall a, b, i, j | InLane(s, a, lane) && InLane(s, b, lane) && 0 <= i < j < |s.log|
                        && Publishes(s.log[i], a) && Publishes(s.log[j], b) :: a.id < b.id
  }

  /** ... and `b` is in flight only after everything published before it. */
  ghost predicate PubOk(s: State, lane: Lane, a: Key, b: Key) {
    InLane(s, a, lane) && InLane(s, b, lane) ==>
      && (WasPublished(s.log, a) && InFlight(s, b) ==> a.id < b.id)
      && (forall i, j | 0 <= i < j < |s.log| && Publishes(s.log[i], a) && Publishes(s.log[j], b) :: a.id < b.id)
  }

  // ----- Queues are sorted ---------------------------------------------------------------

  ghost predicate SortedIds(q: seq<Key>) { forall i, j | 0 <= i < j < |q| :: q[i].id < q[j].id }

  ghost predicate QueuesSorted(s: State) { forall d | d in s.drains :: SortedIds(s.drains[d].queue) }

  lemma InOrderSorted(s: State, keys: set<Key>, table: Table)
    requires IdsOk(s) && keys <= s.rows.Keys && forall k | k in keys :: k.table == table
    ensures SortedIds(InOrder(s.rows, keys))
  {
    var q := InOrder(s.rows, keys);
    forall i, j | 0 <= i < j < |q| ensures q[i].id < q[j].id {
      assert q[i] in q && q[j] in q;
      BeforeMeansSmallerId(s, q[i], q[j]);
    }
  }

  lemma NextSorted(s: State, step: Step)
    requires Inv(s) && QueuesSorted(s)
    ensures QueuesSorted(Next(s, step))
  {
    match step
    case OpenDrain(d, table, product, device) => OpenSorted(s, d, table, product, device);
    case ClaimNext(d) => ClaimOneSorted(s, d);
    case _ =>
  }

  lemma OpenSorted(s: State, d: nat, table: Table, product: string, device: string)
    requires Inv(s) && QueuesSorted(s)
    ensures QueuesSorted(Open(s, d, table, product, device))
  {
    if d !in s.drains && table == PropertyCommand {
      var keys := PendingKeys(s.rows, table, product, device);
      InOrderSorted(s, keys, table);
      assert [] + InOrder(s.rows, keys) == InOrder(s.rows, keys);
    }
  }

  lemma ClaimOneSorted(s: State, d: nat)
    requires QueuesSorted(s)
    ensures QueuesSorted(ClaimOne(s, d))
  {
  }

  lemma {:induction false} ReachableSorted(steps: seq<Step>)
    ensures QueuesSorted(Run(Init, steps))
  {
    if steps != [] {
      ReachableInv(steps[..|steps| - 1]);
      ReachableSorted(steps[..|steps| - 1]);
      NextSorted(Run(Init, steps[..|steps| - 1]), steps[|steps| - 1]);
    }
  }

  // ----- Every step with one holder keeps the order ------------------------------------------

  /** Appending an event that publishes `b` only if `b` was in flight. */
  lemma PubAppend(s: State, s': State, lane: Lane, e: Event, a: Key, b: Key)
    requires PubOk(s, lane, a, b) && s'.log == s.log + [e]
    requires InLane(s', a, lane) ==> InLane(s, a, lane)
    requires InLane(s', b, lane) ==> InLane(s, b, lane)
    requires Publishes(e, b) ==> InFlight(s, b)
    requires InLane(s', a, lane) && InLane(s', b, lane) && WasPublished(s'.log, a) && InFlight(s', b) ==> a.id < b.id
    ensures PubOk(s', lane, a, b)
  {
    if InLane(s', a, lane) && InLane(s', b, lane) {
      forall i, j | 0 <= i < j < |s'.log| && Publishes(s'.log[i], a) && Publishes(s'.log[j], b)
        ensures a.id < b.id
      {
        assert s'.log[i] == s.log[i];
        if j == |s.log| { assert WasPublished(s.log, a); } else { assert s'.log[j] == s.log[j]; }
      }
    }
  }

  /** Steps that neither claim nor publish. */
  lemma QuietPub(s: State, s': State, lane: Lane, a: Key, b: Key)
    requires PubOk(s, lane, a, b)
    requires InLane(s', a, lane) ==> InLane(s, a, lane)
    requires InLane(s', b, lane) ==> InLane(s, b, lane)
    requires forall d :: Holds(s', d, b) ==> Holds(s, d, b)
    requires s'.log == s.log
             || (s'.log != [] && s'.log == s.log + [s'.log[|s'.log| - 1]]
                 && !s'.log[|s'.log| - 1].Delivered? && !s'.log[|s'.log| - 1].Undelivered?)
    ensures PubOk(s', lane, a, b)
  {
    if s'.log != s.log {
      var e := s'.log[|s'.log| - 1];
      if WasPublished(s'.log, a) { StillPublished(s.log, e, a); }
      if InFlight(s', b) {
        var d :| Holds(s', d, b);
        assert Holds(s, d, b);
      }
      PubAppend(s, s', lane, e, a, b);
    } else if InFlight(s', b) {
      var d :| Holds(s', d, b);
      assert Holds(s, d, b);
    }
  }

  lemma StillPublished(log: seq<Event>, e: Event, k: Key)
    requires WasPublished(log + [e], k)
    ensures Publishes(e, k) || WasPublished(log, k)
  {
    var i :| 0 <= i < |log + [e]| && Publishes((log + [e])[i], k);
    if i < |log| { assert Publishes(log[i], k); }
  }

  lemma PublishedIsClaimed(s: State, k: Key)
    requires LedgerOk(s, k) && WasPublished(s.log, k)
    ensures k in s.rows && IsClaimed(s.rows[k].status) && !InFlight(s, k)
  {
    var i :| 0 <= i < |s.log| && Publishes(s.log[i], k);
    EndedCounts(s.log, k, i);
  }

  lemma ClaimPub(s: State, d: nat, dr: Drain, q: seq<Key>, lane: Lane, a: Key, b: Key)
    requires LedgerOk(s, a) && LaneOk(s, a, b) && PubOk(s, lane, a, b)
    requires d in s.drains ==> dr == s.drains[d]
    requires dr.queue == []
    requires b in q ==> b in s.rows && s.rows[b].status == Pending
    ensures PubOk(Claim(s, d, dr, q), lane, a, b)
  {
    var s' := Claim(s, d, dr, q);
    if WasPublished(s'.log, a) {
      StillPublished(s.log, Claimed(q), a);
      PublishedIsClaimed(s, a);
    }
    assert s'.drains[d].queue == q;
    if InFlight(s', b) && b !in q {
      var c :| Holds(s', c, b);
      assert Holds(s, c, b);
    }
    assert InLane(s', a, lane) && InLane(s', b, lane) ==> SameLane(s, a, b);
    PubAppend(s, s', lane, Claimed(q), a, b);
  }

  lemma PublishPub(s: State, d: nat, ok: bool, lane: Lane, a: Key, b: Key)
    requires PubOk(s, lane, a, b) && QueuesSorted(s) && SoleHolder(s, lane)
    requires forall c | c in s.drains :: DrainOk(s, c)
    ensures PubOk(Publish(s, d, ok), lane, a, b)
  {
    var s' := Publish(s, d, ok);
    if CanPublish(s, d) {
      var h := s.drains[d].queue[0];
      var e := if ok then Delivered(h) else Undelivered(h);
      assert Holds(s, d, h);
      if InFlight(s', b) && InLane(s, a, lane) && InLane(s, b, lane) {
        var c :| Holds(s', c, b);
        assert Holds(s, c, b);
        if a == h { RestComesLater(s, d, ok, c, lane, b); }
        if WasPublished(s'.log, a) { StillPublished(s.log, e, a); }
      }
      PubAppend(s, s', lane, e, a, b);
    }
  }

  /** What is still in flight after the head leaves comes after the head. */
  lemma RestComesLater(s: State, d: nat, ok: bool, c: nat, lane: Lane, b: Key)
    requires CanPublish(s, d) && Holds(Publish(s, d, ok), c, b)
    requires c in s.drains && QueuesSorted(s) && SoleHolder(s, lane) && DrainOk(s, c) && DrainOk(s, d)
    requires InLane(s, s.drains[d].queue[0], lane) && InLane(s, b, lane)
    ensures s.drains[d].queue[0].id < b.id
  {
    var q := s.drains[d].queue;
    assert q[0] in q && b in s.drains[c].queue;
    assert Holding(s, d, lane) && Holding(s, c, lane);
    assert b in q[1..];
    var i :| 0 <= i < |q[1..]| && q[1..][i] == b;
    assert q[i + 1] == b;
  }

  lemma CreatePub(s: State, table: Table, product: string, device: string, serviceType: string,
                  lane: Lane, a: Key, b: Key)
    requires Inv(s) && PubOk(s, lane, a, b)
    ensures PubOk(CreateRow(s, table, product, device, serviceType), lane, a, b)
  {
    var s' := CreateRow(s, table, product, device, serviceType);
    assert LedgerOk(s, a) && LedgerOk(s, b);
    if WasPublished(s'.log, a) && InFlight(s', b) {
      PublishedIsClaimed(s, a);
      var d :| Holds(s', d, b);
      assert Holds(s, d, b);
    }
    forall i, j | 0 <= i < j < |s'.log| && Publishes(s'.log[i], a) && Publishes(s'.log[j], b)
      ensures InLane(s', a, lane) && InLane(s', b, lane) ==> a.id < b.id
    {
      PublishedIsClaimed(s, a);
      PublishedIsClaimed(s, b);
    }
  }

  lemma OpenPub(s: State, d: nat, table: Table, product: string, device: string, lane: Lane, a: Key, b: Key)
    requires Inv(s) && LaneOk(s, a, b) && PubOk(s, lane, a, b)
    ensures PubOk(Open(s, d, table, product, device), lane, a, b)
  {
    assert LedgerOk(s, a);
    if d !in s.drains && table == PropertyCommand {
      ClaimPub(s, d, Drain(table, product, device, [], None),
               InOrder(s.rows, PendingKeys(s.rows, table, product, device)), lane, a, b);
    } else {
      QuietPub(s, Open(s, d, table, product, device), lane, a, b);
    }
  }

  lemma ClaimOnePub(s: State, d: nat, lane: Lane, a: Key, b: Key)
    requires Inv(s) && LaneOk(s, a, b) && PubOk(s, lane, a, b)
    ensures PubOk(ClaimOne(s, d), lane, a, b)
  {
    assert LedgerOk(s, a);
    if ClaimOne(s, d) != s {
      var dr := s.drains[d];
      var k := PickEarliest(s.rows, PendingKeys(s.rows, dr.table, dr.product, dr.device));
      ClaimPub(s, d, dr, [k], lane, a, b);
    }
  }

  lemma NextPub(s: State, step: Step, lane: Lane, a: Key, b: Key)
    requires Inv(s) && LaneOk(s, a, b) && PubOk(s, lane, a, b) && QueuesSorted(s) && SoleHolder(s, lane)
    ensures PubOk(Next(s, step), lane, a, b)
  {
    match step
    case Create(table, product, device, serviceType) => CreatePub(s, table, product, device, serviceType, lane, a, b);
    case OpenDrain(d, table, product, device) => OpenPub(s, d, table, product, device, lane, a, b);
    case ClaimNext(d) => ClaimOnePub(s, d, lane, a, b);
    case PublishOk(d) => PublishPub(s, d, true, lane, a, b);
    case PublishFail(d) => PublishPub(s, d, false, lane, a, b);
    case _ => OtherPub(s, step, lane, a, b);
  }

  lemma OtherPub(s: State, step: Step, lane: Lane, a: Key, b: Key)
    requires PubOk(s, lane, a, b)
    requires step.Flip? || step.CloseDrain? || step.AbortDrain? || step.Delete? || step.Reply? || step.Tick?
    ensures PubOk(Next(s, step), lane, a, b)
  {
    match step
    case Flip(d) => QuietPub(s, FlipHead(s, d), lane, a, b);
    case CloseDrain(d) => QuietPub(s, Close(s, d), lane, a, b);
    case AbortDrain(d) => QuietPub(s, Abort(s, d), lane, a, b);
    case Delete(keys) => QuietPub(s, Cancel(s, keys), lane, a, b);
    case Reply(k, product, device, serviceType, code) =>
      QuietPub(s, HandleReply(s, k, product, device, serviceType, code), lane, a, b);
    case Tick => QuietPub(s, Next(s, step), lane, a, b);
  }

  // ----- Whole runs -----------------------------------------------------------------------

  /** At no point of the run do two drains of the lane hold rows. */
  ghost predicate SoleRun(steps: seq<Step>, lane: Lane) {
    forall n | 0 <= n <= |steps| :: SoleHolder(Run(Init, steps[..n]), lane)
  }

  lemma SolePrefix(steps: seq<Step>, lane: Lane, m: nat)
    requires SoleRun(steps, lane) && m <= |steps|
    ensures SoleRun(steps[..m], lane) && SoleHolder(Run(Init, steps[..m]), lane)
  {
    forall n | 0 <= n <= m ensures SoleHolder(Run(Init, steps[..m][..n]), lane) {
      assert steps[..m][..n] == steps[..n];
    }
  }

  lemma {:induction false} ReachablePub(steps: seq<Step>, lane: Lane, a: Key, b: Key)
    requires SoleRun(steps, lane)
    ensures PubOk(Run(Init, steps), lane, a, b)
  {
    if steps != [] {
      var m := |steps| - 1;
      var before := steps[..m];
      SolePrefix(steps, lane, m);
      ReachablePub(before, lane, a, b);
      ReachableInv(before);
      ReachableLane(before, a, b);
      ReachableSorted(before);
      NextPub(Run(Init, before), steps[m], lane, a, b);
    }
  }

  /** When no two drains of a device hold rows at once, its rows are published in the order
      in which they were created (last write wins on the device). */
  lemma PublishOrder(steps: seq<Step>, lane: Lane)
    requires SoleRun(steps, lane)
    ensures LaneInOrder(Run(Init, steps), lane)
  {
    var s := Run(Init, steps);
    forall a, b, i, j | InLane(s, a, lane) && InLane(s, b, lane) && 0 <= i < j < |s.log|
                        && Publishes(s.log[i], a) && Publishes(s.log[j], b) ensures a.id < b.id
    {
      ReachablePub(steps, lane, a, b);
    }
  }

  // ----- Exactly when the order is safe --------------------------------------------------------

  /** The steps of a schedule that claims nothing: whatever is in flight is published,
      dropped or flipped, in any order, among replies, deletes and new commands. */
  predicate NoClaims(steps: seq<Step>) {
    forall i | 0 <= i < |steps| :: !steps[i].OpenDrain? && !steps[i].ClaimNext?
  }

  ghost predicate KeepsOrder(s: State, lane: Lane) {
    forall more | NoClaims(more) :: LaneInOrder(Run(s, more), lane)
  }

  ghost predicate Orderly(s: State, lane: Lane) { SoleHolder(s, lane) && forall a, b :: PubOk(s, lane, a, b) }

  lemma SoleHolderNext(s: State, step: Step, lane: Lane)
    requires SoleHolder(s, lane) && !step.OpenDrain? && !step.ClaimNext?
    ensures SoleHolder(Next(s, step), lane)
  {
    var s' := Next(s, step);
    forall d | Holding(s', d, lane) ensures Holding(s, d, lane) {
    }
  }

  lemma {:induction false} OrderlyRun(s: State, more: seq<Step>, lane: Lane)
    requires Inv(s) && QueuesSorted(s) && (forall a, b :: LaneOk(s, a, b)) && Orderly(s, lane) && NoClaims(more)
    ensures var s' := Run(s, more);
            Inv(s') && QueuesSorted(s') && (forall a, b :: LaneOk(s', a, b)) && Orderly(s', lane)
  {
    if more != [] {
      var t, step := Run(s, more[..|more| - 1]), more[|more| - 1];
      OrderlyRun(s, more[..|more| - 1], lane);
      NextInv(t, step);
      NextSorted(t, step);
      SoleHolderNext(t, step, lane);
      forall a, b ensures LaneOk(Next(t, step), a, b) && PubOk(Next(t, step), lane, a, b) {
        NextLane(t, step, a, b);
        NextPub(t, step, lane, a, b);
      }
    }
  }

  lemma OrderlyIsInOrder(s: State, lane: Lane)
    requires Orderly(s, lane)
    ensures LaneInOrder(s, lane)
  {
    forall a, b, i, j | InLane(s, a, lane) && InLane(s, b, lane) && 0 <= i < j < |s.log|
                        && Publishes(s.log[i], a) && Publishes(s.log[j], b) ensures a.id < b.id
    {
      assert PubOk(s, lane, a, b);
    }
  }

  /** The steps that publish the head of a drain's queue. */
  function HeadSteps(s: State, d: nat): seq<Step>
    requires d in s.drains
  {
    if s.drains[d].flipping.Some? then [Flip(d), PublishOk(d)] else [PublishOk(d)]
  }

  lemma RunOne(s: State, step: Step)
    ensures Run(s, [step]) == Next(s, step)
  {
    assert [step][..0] == [];
  }

  lemma HeadGoes(s: State, d: nat)
    requires d in s.drains && s.drains[d].queue != []
    ensures var steps := HeadSteps(s, d); var s' := Run(s, steps);
            && NoClaims(steps) && s.log <= s'.log && s.log != s'.log
            && s'.log[|s'.log| - 1] == Delivered(s.drains[d].queue[0])
            && (forall c | c in s.drains && c != d :: c in s'.drains && s'.drains[c] == s.drains[c])
            && (forall k, lane :: InLane(s', k, lane) <==> InLane(s, k, lane))
  {
    if s.drains[d].flipping.Some? {
      assert [Flip(d), PublishOk(d)][..1] == [Flip(d)];
      RunOne(s, Flip(d));
    } else {
      RunOne(s, PublishOk(d));
    }
  }

  lemma KeepsOrderLater(s: State, more: seq<Step>, lane: Lane)
    requires KeepsOrder(s, lane) && NoClaims(more)
    ensures KeepsOrder(Run(s, more), lane)
  {
    forall rest | NoClaims(rest) ensures LaneInOrder(Run(Run(s, more), rest), lane) {
      RunConcat(s, more, rest);
      assert NoClaims(more + rest);
    }
  }

  /** A row that was published before a smaller head is out of order. */
  lemma SmallerHeadBreaks(s: State, lane: Lane, a: Key, d: nat)
    requires InLane(s, a, lane) && WasPublished(s.log, a)
    requires Holding(s, d, lane) && InLane(s, s.drains[d].queue[0], lane) && s.drains[d].queue[0].id <= a.id
    ensures !KeepsOrder(s, lane)
  {
    var h := s.drains[d].queue[0];
    HeadGoes(s, d);
    var s' := Run(s, HeadSteps(s, d));
    var i :| 0 <= i < |s.log| && Publishes(s.log[i], a);
    var j := |s'.log| - 1;
    assert s'.log[i] == s.log[i] && Publishes(s'.log[j], h) && i < j;
    assert !LaneInOrder(s', lane);
  }

  lemma TwoHoldersBreak(s: State, lane: Lane, c: nat, d: nat)
    requires Inv(s) && Holding(s, c, lane) && Holding(s, d, lane)
    requires s.drains[d].queue[0].id <= s.drains[c].queue[0].id && c != d
    ensures !KeepsOrder(s, lane)
  {
    var a := s.drains[c].queue[0];
    assert DrainOk(s, c) && DrainOk(s, d) && a in s.drains[c].queue && s.drains[d].queue[0] in s.drains[d].queue;
    HeadGoes(s, c);
    var s' := Run(s, HeadSteps(s, c));
    assert WasPublished(s'.log, a) by { assert Publishes(s'.log[|s'.log| - 1], a); }
    SmallerHeadBreaks(s', lane, a, d);
    if KeepsOrder(s, lane) { KeepsOrderLater(s, HeadSteps(s, c), lane); }
  }

  /** So is one that was published before a smaller row in flight. */
  lemma SmallerFlightBreaks(s: State, lane: Lane, a: Key, b: Key)
    requires Inv(s) && QueuesSorted(s)
    requires InLane(s, a, lane) && InLane(s, b, lane)
    requires WasPublished(s.log, a) && InFlight(s, b) && b.id <= a.id
    ensures !KeepsOrder(s, lane)
  {
    var d :| Holds(s, d, b);
    var q := s.drains[d].queue;
    HeadIsLeast(q, b);
    assert DrainOk(s, d) && q[0] in q;
    SmallerHeadBreaks(s, lane, a, d);
  }

  lemma HeadIsLeast(q: seq<Key>, b: Key)
    requires SortedIds(q) && b in q
    ensures q[0].id <= b.id
  {
  }

  lemma DisorderBreaks(s: State, lane: Lane, a: Key, b: Key)
    requires Inv(s) && QueuesSorted(s) && !PubOk(s, lane, a, b)
    ensures !KeepsOrder(s, lane)
  {
    if WasPublished(s.log, a) && InFlight(s, b) && a.id >= b.id {
      SmallerFlightBreaks(s, lane, a, b);
    } else {
      assert !LaneInOrder(s, lane);
      assert Run(s, []) == s && NoClaims([]);
    }
  }

  /** In every reachable state: whatever order the claimed rows are published in from there,
      the lane stays in creation order exactly when at most one of its drains holds rows, the
      lane was in order so far, and what it holds comes after everything published. */
  lemma OrderKeptIff(steps: seq<Step>, lane: Lane)
    ensures KeepsOrder(Run(Init, steps), lane) <==> Orderly(Run(Init, steps), lane)
  {
    var s := Run(Init, steps);
    ReachableInv(steps);
    ReachableSorted(steps);
    if Orderly(s, lane) {
      forall a, b ensures LaneOk(s, a, b) { ReachableLane(steps, a, b); }
      forall more | NoClaims(more) ensures LaneInOrder(Run(s, more), lane) {
        OrderlyRun(s, more, lane);
        OrderlyIsInOrder(Run(s, more), lane);
      }
    } else if SoleHolder(s, lane) {
      var a, b :| !PubOk(s, lane, a, b);
      DisorderBreaks(s, lane, a, b);
    } else {
      var c, d :| Holding(s, c, lane) && Holding(s, d, lane) && c != d;
      if s.drains[d].queue[0].id <= s.drains[c].queue[0].id {
        TwoHoldersBreak(s, lane, c, d);
      } else {
        TwoHoldersBreak(s, lane, d, c);
      }
    }
  }

  /** Along a whole run: from no point of it can the scheduler break the order of the lane
      exactly when at no point two drains of the lane hold rows. */
  lemma SafeExactlyWhenSole(steps: seq<Step>, lane: Lane)
    ensures (forall n | 0 <= n <= |steps| :: KeepsOrder(Run(Init, steps[..n]), lane)) <==> SoleRun(steps, lane)
  {
    if SoleRun(steps, lane) {
      forall n | 0 <= n <= |steps| ensures KeepsOrder(Run(Init, steps[..n]), lane) {
        SolePrefix(steps, lane, n);
        forall a, b ensures PubOk(Run(Init, steps[..n]), lane, a, b) { ReachablePub(steps[..n], lane, a, b); }
        OrderKeptIff(steps[..n], lane);
      }
    } else {
      var n :| 0 <= n <= |steps| && !SoleHolder(Run(Init, steps[..n]), lane);
      OrderKeptIff(steps[..n], lane);
    }
  }

  // ----- A run that breaks it -------------------------------------------------------------------

  lemma ClaimOnly(s: State, d: nat, k: Key)
    requires d in s.drains && s.drains[d].table == ActionInvocation
    requires s.drains[d].queue == [] && s.drains[d].flipping == None
    requires PendingKeys(s.rows, ActionInvocation, s.drains[d].product, s.drains[d].device) == {k}
    ensures ClaimOne(s, d) == Claim(s, d, s.drains[d], [k])
  {
  }

  /** An action row is created and an action drain claims it. */
  ghost function CreateAndClaim(s: State, d: nat): State {
    var s1 := Next(s, Create(ActionInvocation, "p", "d", "x"));
    var s2 := Next(s1, OpenDrain(d, ActionInvocation, "p", "d"));
    Next(s2, ClaimNext(d))
  }

  lemma FreshIsOnlyPending(rows: map<Key, Row>, created: map<Key, Row>, k: Key, now: nat)
    requires PendingKeys(rows, ActionInvocation, "p", "d") == {} && k.table == ActionInvocation
    requires created == rows[k := Row("p", "d", "x", now, Pending)]
    ensures PendingKeys(created, ActionInvocation, "p", "d") == {k}
    ensures SetStatus(created, KeysOf([k]), Pending, Sent) == rows[k := Row("p", "d", "x", now, Sent)]
  {
  }

  lemma DrainReplaced(drains: map<nat, Drain>, d: nat, x: Drain, y: Drain)
    ensures drains[d := x][d := y] == drains[d := y]
  {
  }

  lemma ClaimsFreshRow(s: State, d: nat, k: Key)
    requires ActionInvocation in s.next && d !in s.drains && k == Key(ActionInvocation, s.next[ActionInvocation])
    requires PendingKeys(s.rows, ActionInvocation, "p", "d") == {}
    ensures var s' := CreateAndClaim(s, d);
            && s'.drains == s.drains[d := Drain(ActionInvocation, "p", "d", [k], None)]
            && s'.rows == s.rows[k := Row("p", "d", "x", s.clock, Sent)]
            && s'.next == s.next[ActionInvocation := k.id + 1] && s'.log == s.log + [Claimed([k])]
  {
    var idle := Drain(ActionInvocation, "p", "d", [], None);
    var s1 := CreateRow(s, ActionInvocation, "p", "d", "x");
    var s2 := s1.(drains := s1.drains[d := idle]);
    FreshIsOnlyPending(s.rows, s1.rows, k, s.clock);
    ClaimOnly(s2, d, k);
    assert CreateAndClaim(s, d) == Claim(s2, d, idle, [k]);
    assert [] + [k] == [k];
    DrainReplaced(s.drains, d, idle, idle.(queue := [k]));
  }

  /** The condition is needed: when two drains of one device overlap,
      the row that was created first can be published last. */
  lemma OverlapReorders()
    ensures var s := Next(Next(CreateAndClaim(CreateAndClaim(Init, 0), 1), PublishOk(1)), PublishOk(0));
            var a, b := Key(ActionInvocation, 1), Key(ActionInvocation, 2);
            s.log == [Claimed([a]), Claimed([b]), Delivered(b), Delivered(a)]
  {
    var a, b := Key(ActionInvocation, 1), Key(ActionInvocation, 2);
    ClaimsFreshRow(Init, 0, a);
    var s1 := CreateAndClaim(Init, 0);
    assert PendingKeys(s1.rows, ActionInvocation, "p", "d") == {};
    ClaimsFreshRow(s1, 1, b);
    var s2 := CreateAndClaim(s1, 1);
    assert Publish(Publish(s2, 1, true), 0, true).log == s2.log + [Delivered(b)] + [Delivered(a)];
  }
}
