/** Offline-queued command delivery as a machine of atomic steps.

    One step is one statement that the database executes atomically, or one outcome
    of a broker call. Any number of drains (from the admin create handler, the
    subscribe webhook and the connect webhook) run at once, and their steps
    interleave freely with creation, deletion and device replies. */
module Delivery {
  import opened Text

  datatype Status = Pending | Sent | Success | Failed | Deleted

  datatype Table = PropertyCommand | ActionInvocation

  datatype Key = Key(table: Table, id: int)

  datatype Row = Row(product: string, device: string, serviceType: string,
                     created: nat, status: Status)

  /** A running `send_property_command_to_device` or
      `send_action_invocations_to_device`: the rows it claimed and has not published
      yet (the head is being published), and the row whose publication failed and
      whose Sent -> Failed update is still to be executed. */
  datatype Drain = Drain(table: Table, product: string, device: string,
                         queue: seq<Key>, flipping: Option<Key>)

  datatype Event =
    | Claimed(keys: seq<Key>)      // Pending -> Sent, in publication order
    | Delivered(key: Key)          // publish_command returned Ok
    | Undelivered(key: Key)        // publish_command gave up after its retries
    | Dropped(keys: seq<Key>)      // the drain ended early with these rows unpublished
    | CancelAsked(named: set<Key>) // an admin delete named these rows
    | Replied(key: Key, code: int) // a reply whose identity matches the row
    | FlipFailed(key: Key)         // the drain's guarded Sent -> Failed update

  datatype State = State(rows: map<Key, Row>, next: map<Table, int>, clock: nat,
                         drains: map<nat, Drain>, log: seq<Event>)

  datatype Step =
    | Create(table: Table, product: string, device: string, serviceType: string)
    | OpenDrain(d: nat, table: Table, product: string, device: string)
    | ClaimNext(d: nat)
    | PublishOk(d: nat)
    | PublishFail(d: nat)
    | Flip(d: nat)
    | CloseDrain(d: nat)
    | AbortDrain(d: nat)           // a `?` on a database error, or the process ends
    | Delete(keys: set<Key>)
    | Reply(target: Key, product: string, device: string, serviceType: string, code: int)
    | Tick

  const Init := State(map[], map[PropertyCommand := 1, ActionInvocation := 1], 0, map[], [])

  // ----- The steps -----------------------------------------------------------------

  predicate Owns(r: Row, k: Key, table: Table, product: string, device: string) {
    k.table == table && r.product == product && r.device == device
  }

  /** The rows that the `WHERE product_id .. AND device_id .. AND status = Pending`
      clause of a claim selects. */
  function PendingKeys(rows: map<Key, Row>, table: Table, product: string, device: string): set<Key> {
    set k | k in rows && Owns(rows[k], k, table, product, device) && rows[k].status == Pending
  }

  /** `ORDER BY created_time ASC, id ASC`. */
  predicate Before(rows: map<Key, Row>, a: Key, b: Key)
    requires a in rows && b in rows
  {
    rows[a].created < rows[b].created || (rows[a].created == rows[b].created && a.id <= b.id)
  }

  ghost predicate Earliest(rows: map<Key, Row>, keys: set<Key>, k: Key)
    requires keys <= rows.Keys
  {
    k in keys && forall b | b in keys :: Before(rows, k, b)
  }

  lemma {:induction false} EarliestExists(rows: map<Key, Row>, keys: set<Key>)
    requires keys <= rows.Keys && keys != {}
    ensures exists k :: Earliest(rows, keys, k)
    decreases keys
  {
    var a :| a in keys;
    if keys == {a} {
      assert Earliest(rows, keys, a);
    } else {
      EarliestExists(rows, keys - {a});
      var b :| Earliest(rows, keys - {a}, b);
      var k := if Before(rows, a, b) then a else b;
      forall c | c in keys ensures Before(rows, k, c) {
        assert c == a || c in keys - {a};
      }
      assert Earliest(rows, keys, k);
    }
  }

  ghost function PickEarliest(rows: map<Key, Row>, keys: set<Key>): (k: Key)
    requires keys <= rows.Keys && keys != {}
    ensures Earliest(rows, keys, k)
  {
    EarliestExists(rows, keys);
    var k :| Earliest(rows, keys, k);
    k
  }

  /** The rows of a claim in publication order. */
  ghost function InOrder(rows: map<Key, Row>, keys: set<Key>): (q: seq<Key>)
    requires keys <= rows.Keys
    ensures forall k :: k in q <==> k in keys
    ensures forall i, j | 0 <= i < j < |q| :: q[i] != q[j]
    ensures forall i, j | 0 <= i < j < |q| :: q[i] in rows && q[j] in rows && Before(rows, q[i], q[j])
    decreases keys
  {
    if keys == {} then []
    else
      var k := PickEarliest(rows, keys);
      [k] + InOrder(rows, keys - {k})
  }

  function SetStatus(rows: map<Key, Row>, keys: set<Key>, from: Status, to: Status): map<Key, Row> {
    map k | k in rows :: if k in keys && rows[k].status == from then rows[k].(status := to) else rows[k]
  }

  function KeysOf(q: seq<Key>): set<Key> { set k | k in q }

  ghost function Claim(s: State, d: nat, dr: Drain, q: seq<Key>): State {
    s.(rows := SetStatus(s.rows, KeysOf(q), Pending, Sent),
       drains := s.drains[d := dr.(queue := dr.queue + q)],
       log := s.log + [Claimed(q)])
  }

  /** An i32 reply code in the HTTP 2xx range. */
  predicate IsSuccessCode(code: int) { 200 <= code <= 299 }

  predicate ReplyMatches(rows: map<Key, Row>, k: Key, product: string, device: string, serviceType: string) {
    && k in rows
    && Owns(rows[k], k, k.table, product, device)
    && (k.table == ActionInvocation ==> rows[k].serviceType == serviceType)
  }

  function CreateRow(s: State, table: Table, product: string, device: string, serviceType: string): State {
    if table !in s.next then s else
    var k := Key(table, s.next[table]);
    s.(rows := s.rows[k := Row(product, device, serviceType, s.clock, Pending)],
       next := s.next[table := k.id + 1])
  }

  /** A property drain claims every Pending row of the device at its start; an action
      drain claims one row at a time. */
  ghost function Open(s: State, d: nat, table: Table, product: string, device: string): State {
    if d in s.drains then s else
    var dr := Drain(table, product, device, [], None);
    if table == ActionInvocation then s.(drains := s.drains[d := dr])
    else Claim(s, d, dr, InOrder(s.rows, PendingKeys(s.rows, table, product, device)))
  }

  ghost function ClaimOne(s: State, d: nat): State {
    if d !in s.drains then s else
    var dr := s.drains[d];
    var pending := PendingKeys(s.rows, dr.table, dr.product, dr.device);
    if dr.table != ActionInvocation || dr.queue != [] || dr.flipping != None || pending == {} then s
    else Claim(s, d, dr, [PickEarliest(s.rows, pending)])
  }

  predicate CanPublish(s: State, d: nat) {
    d in s.drains && s.drains[d].queue != [] && s.drains[d].flipping == None
  }

  function Publish(s: State, d: nat, ok: bool): State {
    if !CanPublish(s, d) then s else
    var dr := s.drains[d];
    var h := dr.queue[0];
    s.(drains := s.drains[d := dr.(queue := dr.queue[1..], flipping := if ok then None else Some(h))],
       log := s.log + [if ok then Delivered(h) else Undelivered(h)])
  }

  function FlipHead(s: State, d: nat): State {
    if d !in s.drains || s.drains[d].flipping == None then s else
    var dr := s.drains[d];
    s.(rows := SetStatus(s.rows, {dr.flipping.value}, Sent, Failed),
       drains := s.drains[d := dr.(flipping := None)],
       log := s.log + [FlipFailed(dr.flipping.value)])
  }

  function Close(s: State, d: nat): State {
    if d !in s.drains || s.drains[d].queue != [] || s.drains[d].flipping != None then s
    else s.(drains := s.drains - {d})
  }

  function Abort(s: State, d: nat): State {
    if d !in s.drains then s
    else s.(drains := s.drains - {d}, log := s.log + [Dropped(s.drains[d].queue)])
  }

  function Cancel(s: State, keys: set<Key>): State {
    s.(rows := SetStatus(s.rows, keys, Pending, Deleted),
       log := s.log + [CancelAsked(keys * s.rows.Keys)])
  }

  function HandleReply(s: State, k: Key, product: string, device: string, serviceType: string, code: int): State {
    if !ReplyMatches(s.rows, k, product, device, serviceType) then s
    else s.(rows := SetStatus(s.rows, {k}, Sent, if IsSuccessCode(code) then Success else Failed),
            log := s.log + [Replied(k, code)])
  }

  ghost function Next(s: State, step: Step): State {
    match step
    case Create(table, product, device, serviceType) => CreateRow(s, table, product, device, serviceType)
    case OpenDrain(d, table, product, device) => Open(s, d, table, product, device)
    case ClaimNext(d) => ClaimOne(s, d)
    case PublishOk(d) => Publish(s, d, true)
    case PublishFail(d) => Publish(s, d, false)
    case Flip(d) => FlipHead(s, d)
    case CloseDrain(d) => Close(s, d)
    case AbortDrain(d) => Abort(s, d)
    case Delete(keys) => Cancel(s, keys)
    case Reply(k, product, device, serviceType, code) => HandleReply(s, k, product, device, serviceType, code)
    case Tick => s.(clock := s.clock + 1)
  }

  ghost function Run(s: State, steps: seq<Step>): State {
    if steps == [] then s else Next(Run(s, steps[..|steps| - 1]), steps[|steps| - 1])
  }

  // ----- The history of one row ----------------------------------------------------

  predicate Claims(e: Event, k: Key) { e.Claimed? && k in e.keys }

  /** The event decides whether the row is sent or cancelled. */
  predicate Decides(e: Event, k: Key) { Claims(e, k) || (e.CancelAsked? && k in e.named) }

  predicate Settles(e: Event, k: Key) { (e.Replied? || e.FlipFailed?) && e.key == k }

  /** The publication of a claimed row came to its end. */
  predicate Ends(e: Event, k: Key) {
    ((e.Delivered? || e.Undelivered?) && e.key == k) || (e.Dropped? && k in e.keys)
  }

  function FirstDecision(log: seq<Event>, k: Key, from: nat := 0): (i: nat)
    requires from <= |log|
    ensures from <= i <= |log|
    ensures i < |log| ==> Decides(log[i], k)
    ensures forall j | from <= j < i :: !Decides(log[j], k)
    decreases |log| - from
  {
    if from == |log| || Decides(log[from], k) then from else FirstDecision(log, k, from + 1)
  }

  function FirstSettlement(log: seq<Event>, k: Key, from: nat): (i: nat)
    requires from <= |log|
    ensures from <= i <= |log|
    ensures i < |log| ==> Settles(log[i], k)
    ensures forall j | from <= j < i :: !Settles(log[j], k)
    decreases |log| - from
  {
    if from == |log| || Settles(log[from], k) then from else FirstSettlement(log, k, from + 1)
  }

  /** What the history says about a row, without running the machine: the first
      decision wins, then the first settlement after it wins. */
  function HistoryStatus(log: seq<Event>, k: Key): Status {
    var d := FirstDecision(log, k);
    if d == |log| then Pending
    else if log[d].CancelAsked? then Deleted
    else
      var r := FirstSettlement(log, k, d + 1);
      if r == |log| then Sent
      else if log[r].Replied? && IsSuccessCode(log[r].code) then Success
      else Failed
  }

  function Ended(log: seq<Event>, k: Key): nat {
    if log == [] then 0
    else Ended(log[..|log| - 1], k) + (if Ends(log[|log| - 1], k) then 1 else 0)
  }

  function ClaimCount(log: seq<Event>, k: Key): nat {
    if log == [] then 0
    else ClaimCount(log[..|log| - 1], k) + (if Claims(log[|log| - 1], k) then 1 else 0)
  }

  lemma AppendCounts(log: seq<Event>, e: Event, k: Key)
    ensures Ended(log + [e], k) == Ended(log, k) + (if Ends(e, k) then 1 else 0)
    ensures ClaimCount(log + [e], k) == ClaimCount(log, k) + (if Claims(e, k) then 1 else 0)
  {
    var log' := log + [e];
    assert log'[..|log'| - 1] == log;
  }

  lemma AppendDecision(log: seq<Event>, e: Event, k: Key)
    ensures FirstDecision(log + [e], k) ==
            if FirstDecision(log, k) < |log| then FirstDecision(log, k)
            else if Decides(e, k) then |log| else |log| + 1
  {
    var log', d, d' := log + [e], FirstDecision(log, k), FirstDecision(log + [e], k);
    assert forall j | 0 <= j < |log| :: log'[j] == log[j];
    assert log'[|log|] == e;
  }

  lemma AppendSettlement(log: seq<Event>, e: Event, k: Key, from: nat)
    requires from <= |log|
    ensures FirstSettlement(log + [e], k, from) ==
            if FirstSettlement(log, k, from) < |log| then FirstSettlement(log, k, from)
            else if Settles(e, k) then |log| else |log| + 1
  {
    var log', r, r' := log + [e], FirstSettlement(log, k, from), FirstSettlement(log + [e], k, from);
    assert log'[|log|] == e;
    assert forall j | 0 <= j < |log| :: log'[j] == log[j];
  }

  /** What one event does to the status that the history tells. */
  function StatusAfter(st: Status, e: Event, k: Key): Status {
    match st
    case Pending => if Claims(e, k) then Sent else if Decides(e, k) then Deleted else Pending
    case Sent =>
      if !Settles(e, k) then Sent
      else if e.Replied? && IsSuccessCode(e.code) then Success else Failed
    case _ => st
  }

  lemma AppendStatus(log: seq<Event>, e: Event, k: Key)
    ensures HistoryStatus(log + [e], k) == StatusAfter(HistoryStatus(log, k), e, k)
  {
    AppendDecision(log, e, k);
    var log', d := log + [e], FirstDecision(log, k);
    if d < |log| {
      assert log'[d] == log[d];
      if !log[d].CancelAsked? {
        AppendSettlement(log, e, k, d + 1);
        var r := FirstSettlement(log, k, d + 1);
        if r < |log| { assert log'[r] == log[r]; }
      }
    }
  }

  lemma AppendEvent(log: seq<Event>, e: Event, k: Key)
    ensures Ended(log + [e], k) == Ended(log, k) + (if Ends(e, k) then 1 else 0)
    ensures ClaimCount(log + [e], k) == ClaimCount(log, k) + (if Claims(e, k) then 1 else 0)
    ensures HistoryStatus(log + [e], k) == StatusAfter(HistoryStatus(log, k), e, k)
  {
    AppendCounts(log, e, k);
    AppendStatus(log, e, k);
  }

  // ----- The invariant ---------------------------------------------------------------

  predicate IsClaimed(st: Status) { st == Sent || st == Success || st == Failed }

  ghost predicate Holds(s: State, d: nat, k: Key) { d in s.drains && k in s.drains[d].queue }

  /** Some drain has claimed the row and not published it yet. */
  ghost predicate InFlight(s: State, k: Key) { exists d :: Holds(s, d, k) }

  ghost predicate IdsOk(s: State) {
    && PropertyCommand in s.next && ActionInvocation in s.next
    && (forall k | k in s.rows :: k.table in s.next && k.id < s.next[k.table] && s.rows[k].created <= s.clock)
    && (forall a, b | a in s.rows && b in s.rows && a.table == b.table && a.id < b.id ::
          s.rows[a].created <= s.rows[b].created)
  }

  ghost predicate DrainOk(s: State, d: nat)
    requires d in s.drains
  {
    var dr := s.drains[d];
    && (forall k | k in dr.queue :: k in s.rows && Owns(s.rows[k], k, dr.table, dr.product, dr.device))
    && (forall i, j | 0 <= i < j < |dr.queue| :: dr.queue[i] != dr.queue[j])
  }

  /** The ledger of one row: its status is what the history says, it is claimed at
      most once, and a claimed row is either in flight with one drain or has come to
      exactly one end. */
  ghost predicate LedgerOk(s: State, k: Key) {
    && (forall d1, d2 | Holds(s, d1, k) && Holds(s, d2, k) :: d1 == d2)
    && (k in s.rows ==> s.rows[k].status == HistoryStatus(s.log, k))
    && (k !in s.rows ==> HistoryStatus(s.log, k) == Pending)
    && var claimed := IsClaimed(HistoryStatus(s.log, k));
    && ClaimCount(s.log, k) == (if claimed then 1 else 0)
    && Ended(s.log, k) == (if claimed && !InFlight(s, k) then 1 else 0)
    && (InFlight(s, k) ==> claimed)
  }

  ghost predicate Inv(s: State) {
    && IdsOk(s)
    && (forall d | d in s.drains :: DrainOk(s, d))
    && (forall k :: LedgerOk(s, k))
  }

  lemma InitInv()
    ensures Inv(Init)
  {
  }

  /** A step that moves no row between queues keeps the ledger of a row when it keeps
      the agreement of status and history. */
  lemma SameFlight(s: State, s': State, k: Key)
    requires LedgerOk(s, k)
    requires forall d :: Holds(s', d, k) <==> Holds(s, d, k)
    requires k in s'.rows ==> s'.rows[k].status == HistoryStatus(s'.log, k)
    requires k !in s'.rows ==> HistoryStatus(s'.log, k) == Pending
    requires IsClaimed(HistoryStatus(s'.log, k)) == IsClaimed(HistoryStatus(s.log, k))
    requires Ended(s'.log, k) == Ended(s.log, k) && ClaimCount(s'.log, k) == ClaimCount(s.log, k)
    ensures LedgerOk(s', k)
  {
  }

  lemma ClaimLedger(s: State, d: nat, dr: Drain, q: seq<Key>, k: Key)
    requires LedgerOk(s, k)
    requires d in s.drains ==> dr == s.drains[d]
    requires dr.queue == []
    requires k in q ==> k in s.rows && s.rows[k].status == Pending
    ensures LedgerOk(Claim(s, d, dr, q), k)
  {
    var s' := Claim(s, d, dr, q);
    AppendEvent(s.log, Claimed(q), k);
    assert s'.drains[d].queue == q;
    assert forall c :: c != d ==> (Holds(s', c, k) <==> Holds(s, c, k));
    if k in q {
      assert Holds(s', d, k);
      assert forall c | Holds(s', c, k) :: c == d;
      assert s'.rows[k].status == Sent == HistoryStatus(s'.log, k);
    } else {
      assert k in s'.rows ==> s'.rows[k] == s.rows[k];
      SameFlight(s, s', k);
    }
  }

  lemma PublishLedger(s: State, d: nat, ok: bool, k: Key)
    requires LedgerOk(s, k)
    requires d in s.drains ==> DrainOk(s, d)
    ensures LedgerOk(Publish(s, d, ok), k)
  {
    var s' := Publish(s, d, ok);
    if CanPublish(s, d) {
      var h := s.drains[d].queue[0];
      AppendEvent(s.log, if ok then Delivered(h) else Undelivered(h), k);
      assert forall c :: c != d ==> (Holds(s', c, k) <==> Holds(s, c, k));
      if k == h {
        assert Holds(s, d, h) && !Holds(s', d, h);
      } else {
        assert Holds(s', d, k) <==> Holds(s, d, k);
        SameFlight(s, s', k);
      }
    }
  }

  lemma CloseLedger(s: State, d: nat, k: Key)
    requires LedgerOk(s, k)
    ensures LedgerOk(Close(s, d), k)
  {
    SameFlight(s, Close(s, d), k);
  }

  lemma AbortLedger(s: State, d: nat, k: Key)
    requires LedgerOk(s, k)
    ensures LedgerOk(Abort(s, d), k)
  {
    var s' := Abort(s, d);
    if d in s.drains {
      AppendEvent(s.log, Dropped(s.drains[d].queue), k);
      assert forall c :: c != d ==> (Holds(s', c, k) <==> Holds(s, c, k));
      if !Holds(s, d, k) { SameFlight(s, s', k); }
    }
  }

  lemma CancelLedger(s: State, keys: set<Key>, k: Key)
    requires LedgerOk(s, k)
    ensures LedgerOk(Cancel(s, keys), k)
  {
    AppendEvent(s.log, CancelAsked(keys * s.rows.Keys), k);
    SameFlight(s, Cancel(s, keys), k);
  }

  lemma ReplyLedger(s: State, r: Key, product: string, device: string, serviceType: string, code: int, k: Key)
    requires LedgerOk(s, k)
    ensures LedgerOk(HandleReply(s, r, product, device, serviceType, code), k)
  {
    AppendEvent(s.log, Replied(r, code), k);
    SameFlight(s, HandleReply(s, r, product, device, serviceType, code), k);
  }

  lemma FlipLedger(s: State, d: nat, k: Key)
    requires LedgerOk(s, k)
    ensures LedgerOk(FlipHead(s, d), k)
  {
    if d in s.drains && s.drains[d].flipping.Some? {
      AppendEvent(s.log, FlipFailed(s.drains[d].flipping.value), k);
      SameFlight(s, FlipHead(s, d), k);
    }
  }

  lemma OpenLedger(s: State, d: nat, table: Table, product: string, device: string, k: Key)
    requires Inv(s)
    ensures LedgerOk(Open(s, d, table, product, device), k)
  {
    assert LedgerOk(s, k);
    if d !in s.drains {
      if table == ActionInvocation {
        SameFlight(s, Open(s, d, table, product, device), k);
      } else {
        ClaimLedger(s, d, Drain(table, product, device, [], None),
                    InOrder(s.rows, PendingKeys(s.rows, table, product, device)), k);
      }
    }
  }

  lemma ClaimOneLedger(s: State, d: nat, k: Key)
    requires Inv(s)
    ensures LedgerOk(ClaimOne(s, d), k)
  {
    assert LedgerOk(s, k);
    if ClaimOne(s, d) != s {
      var dr := s.drains[d];
      ClaimLedger(s, d, dr, [PickEarliest(s.rows, PendingKeys(s.rows, dr.table, dr.product, dr.device))], k);
    }
  }

  lemma NextLedger(s: State, step: Step, k: Key)
    requires Inv(s)
    ensures LedgerOk(Next(s, step), k)
  {
    assert LedgerOk(s, k);
    match step
    case Create(table, product, device, serviceType) => SameFlight(s, Next(s, step), k);
    case OpenDrain(d, table, product, device) => OpenLedger(s, d, table, product, device, k);
    case ClaimNext(d) => ClaimOneLedger(s, d, k);
    case PublishOk(d) => PublishLedger(s, d, true, k);
    case PublishFail(d) => PublishLedger(s, d, false, k);
    case Flip(d) => FlipLedger(s, d, k);
    case CloseDrain(d) => CloseLedger(s, d, k);
    case AbortDrain(d) => AbortLedger(s, d, k);
    case Delete(keys) => CancelLedger(s, keys, k);
    case Reply(r, product, device, serviceType, code) => ReplyLedger(s, r, product, device, serviceType, code, k);
    case Tick => SameFlight(s, Next(s, step), k);
  }

  /** The transitions one statement may make. */
  predicate Moves(a: Status, b: Status) {
    a == b || (a == Pending && (b == Sent || b == Deleted)) || (a == Sent && (b == Success || b == Failed))
  }

  /** Rows are never lost, keep their identity, and change status by one move. */
  ghost predicate Extends(rows: map<Key, Row>, rows': map<Key, Row>) {
    forall k | k in rows ::
      k in rows' && rows'[k] == rows[k].(status := rows'[k].status) && Moves(rows[k].status, rows'[k].status)
  }

  lemma StatusExtends(s: State, s': State, keys: set<Key>, from: Status, to: Status)
    requires IdsOk(s) && Moves(from, to)
    requires s'.rows == SetStatus(s.rows, keys, from, to)
    requires s'.next == s.next && s'.clock == s.clock
    ensures Extends(s.rows, s'.rows) && IdsOk(s')
  {
  }

  lemma CreateExtends(s: State, table: Table, product: string, device: string, serviceType: string)
    requires IdsOk(s)
    ensures Extends(s.rows, CreateRow(s, table, product, device, serviceType).rows)
    ensures IdsOk(CreateRow(s, table, product, device, serviceType))
  {
    var s' := CreateRow(s, table, product, device, serviceType);
    if table in s.next {
      var k := Key(table, s.next[table]);
      forall a, b | a in s'.rows && b in s'.rows && a.table == b.table && a.id < b.id
        ensures s'.rows[a].created <= s'.rows[b].created
      {
        assert a != k;
      }
    }
  }

  lemma SameExtends(s: State, s': State)
    requires IdsOk(s) && s'.rows == s.rows && s'.next == s.next && s'.clock >= s.clock
    ensures Extends(s.rows, s'.rows) && IdsOk(s')
  {
  }

  lemma OpenExtends(s: State, d: nat, table: Table, product: string, device: string)
    requires IdsOk(s)
    ensures Extends(s.rows, Open(s, d, table, product, device).rows)
    ensures IdsOk(Open(s, d, table, product, device))
  {
    var s' := Open(s, d, table, product, device);
    if d in s.drains || table == ActionInvocation {
      SameExtends(s, s');
    } else {
      var q := InOrder(s.rows, PendingKeys(s.rows, table, product, device));
      StatusExtends(s, s', KeysOf(q), Pending, Sent);
    }
  }

  lemma ClaimOneExtends(s: State, d: nat)
    requires IdsOk(s)
    ensures Extends(s.rows, ClaimOne(s, d).rows) && IdsOk(ClaimOne(s, d))
  {
    var s' := ClaimOne(s, d);
    if s' == s {
      SameExtends(s, s');
    } else {
      var dr := s.drains[d];
      var q := [PickEarliest(s.rows, PendingKeys(s.rows, dr.table, dr.product, dr.device))];
      StatusExtends(s, s', KeysOf(q), Pending, Sent);
    }
  }

  lemma FlipExtends(s: State, d: nat)
    requires IdsOk(s)
    ensures Extends(s.rows, FlipHead(s, d).rows) && IdsOk(FlipHead(s, d))
  {
    if d in s.drains && s.drains[d].flipping.Some? {
      StatusExtends(s, FlipHead(s, d), {s.drains[d].flipping.value}, Sent, Failed);
    } else {
      SameExtends(s, s);
    }
  }

  lemma ReplyExtends(s: State, k: Key, product: string, device: string, serviceType: string, code: int)
    requires IdsOk(s)
    ensures Extends(s.rows, HandleReply(s, k, product, device, serviceType, code).rows)
    ensures IdsOk(HandleReply(s, k, product, device, serviceType, code))
  {
    var s' := HandleReply(s, k, product, device, serviceType, code);
    if ReplyMatches(s.rows, k, product, device, serviceType) {
      StatusExtends(s, s', {k}, Sent, if IsSuccessCode(code) then Success else Failed);
    } else {
      SameExtends(s, s');
    }
  }

  lemma NextExtends(s: State, step: Step)
    requires IdsOk(s)
    ensures Extends(s.rows, Next(s, step).rows) && IdsOk(Next(s, step))
  {
    match step
    case Create(table, product, device, serviceType) =>
      CreateExtends(s, table, product, device, serviceType);
    case OpenDrain(d, table, product, device) => OpenExtends(s, d, table, product, device);
    case ClaimNext(d) => ClaimOneExtends(s, d);
    case Flip(d) => FlipExtends(s, d);
    case Delete(keys) => StatusExtends(s, Cancel(s, keys), keys, Pending, Deleted);
    case Reply(k, product, device, serviceType, code) => ReplyExtends(s, k, product, device, serviceType, code);
    case _ => DrainStepsExtend(s, step);
  }

  lemma DrainStepsExtend(s: State, step: Step)
    requires IdsOk(s)
    requires step.PublishOk? || step.PublishFail? || step.CloseDrain? || step.AbortDrain? || step.Tick?
    ensures Extends(s.rows, Next(s, step).rows) && IdsOk(Next(s, step))
  {
    SameExtends(s, Next(s, step));
  }

  lemma QueueKept(s: State, s': State, d: nat)
    requires d in s.drains && d in s'.drains && DrainOk(s, d) && Extends(s.rows, s'.rows)
    requires s'.drains[d] == s.drains[d].(queue := s'.drains[d].queue, flipping := s'.drains[d].flipping)
    requires s'.drains[d].queue == s.drains[d].queue
    ensures DrainOk(s', d)
  {
  }

  lemma ClaimDrains(s: State, d: nat, dr: Drain, q: seq<Key>, c: nat)
    requires Inv(s) && dr.queue == []
    requires forall k | k in q :: k in s.rows && Owns(s.rows[k], k, dr.table, dr.product, dr.device)
    requires forall i, j | 0 <= i < j < |q| :: q[i] != q[j]
    requires c == d || c in s.drains
    ensures DrainOk(Claim(s, d, dr, q), c)
  {
    var s' := Claim(s, d, dr, q);
    if c != d { assert DrainOk(s, c); } else { assert s'.drains[c].queue == q; }
  }

  lemma OpenDrains(s: State, d: nat, table: Table, product: string, device: string, c: nat)
    requires Inv(s) && c in Open(s, d, table, product, device).drains
    ensures DrainOk(Open(s, d, table, product, device), c)
  {
    if d !in s.drains && table == PropertyCommand {
      ClaimDrains(s, d, Drain(table, product, device, [], None),
                  InOrder(s.rows, PendingKeys(s.rows, table, product, device)), c);
    } else if c in s.drains {
      assert DrainOk(s, c);
    }
  }

  lemma ClaimOneDrains(s: State, d: nat, c: nat)
    requires Inv(s) && c in s.drains
    ensures c in ClaimOne(s, d).drains && DrainOk(ClaimOne(s, d), c)
  {
    assert DrainOk(s, c);
    if ClaimOne(s, d) != s {
      var dr := s.drains[d];
      ClaimDrains(s, d, dr, [PickEarliest(s.rows, PendingKeys(s.rows, dr.table, dr.product, dr.device))], c);
    }
  }

  lemma PublishDrains(s: State, d: nat, ok: bool, c: nat)
    requires c in s.drains && DrainOk(s, c)
    ensures c in Publish(s, d, ok).drains && DrainOk(Publish(s, d, ok), c)
  {
    if c == d && CanPublish(s, d) {
      assert Publish(s, d, ok).drains[c].queue == s.drains[c].queue[1..];
    }
  }

  lemma NextDrains(s: State, step: Step, c: nat)
    requires Inv(s) && c in Next(s, step).drains
    ensures DrainOk(Next(s, step), c)
  {
    match step
    case OpenDrain(d, table, product, device) => OpenDrains(s, d, table, product, device, c);
    case ClaimNext(d) => ClaimOneDrains(s, d, c);
    case PublishOk(d) => assert DrainOk(s, c); PublishDrains(s, d, true, c);
    case PublishFail(d) => assert DrainOk(s, c); PublishDrains(s, d, false, c);
    case _ =>
      NextExtends(s, step);
      assert DrainOk(s, c);
      QueueKept(s, Next(s, step), c);
  }

  lemma NextInv(s: State, step: Step)
    requires Inv(s)
    ensures Inv(Next(s, step)) && Extends(s.rows, Next(s, step).rows)
  {
    var s' := Next(s, step);
    NextExtends(s, step);
    forall k ensures LedgerOk(s', k) { NextLedger(s, step, k); }
    forall d | d in s'.drains ensures DrainOk(s', d) { NextDrains(s, step, d); }
  }
}
