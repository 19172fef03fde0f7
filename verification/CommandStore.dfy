/** The two command tables and the code that drives them, as imperative methods.
    Each method is proved against the steps of the delivery machine; the ghost fields
    record the running drains and the history of the machine. */
module CommandStore {
  import opened Text
  import opened Identifiers
  import opened Delivery
  import opened DeliveryTheorems
  import opened Replies

  lemma RunSnoc(s: State, steps: seq<Step>, step: Step)
    ensures Run(s, steps + [step]) == Next(Run(s, steps), step)
  {
    assert (steps + [step])[..|steps|] == steps;
  }

  lemma EarliestUnique(rows: map<Key, Row>, keys: set<Key>, a: Key, b: Key, table: Table)
    requires keys <= rows.Keys && Earliest(rows, keys, a) && Earliest(rows, keys, b)
    requires forall k | k in keys :: k.table == table
    ensures a == b
  {
    assert Before(rows, a, b) && Before(rows, b, a);
  }

  /** `ORDER BY created_time ASC, id ASC LIMIT 1` over the rows of one table. */
  method FindEarliest(rows: map<Key, Row>, keys: set<Key>, table: Table) returns (k: Key)
    requires keys <= rows.Keys && keys != {} && forall a | a in keys :: a.table == table
    ensures k == PickEarliest(rows, keys) && k in keys
    ensures forall a | a in keys ::
              rows[k].created < rows[a].created || (rows[k].created == rows[a].created && k.id <= a.id)
  {
    k :| k in keys;
    var rest, seen := keys - {k}, {k};
    while rest != {}
      invariant keys == seen + rest && k in seen
      invariant forall a | a in seen :: Before(rows, k, a)
      decreases rest
    {
      var a :| a in rest;
      if Before(rows, a, k) { k := a; }
      rest, seen := rest - {a}, seen + {a};
    }
    assert Earliest(rows, keys, k);
    EarliestUnique(rows, keys, k, PickEarliest(rows, keys), table);
  }

  lemma InOrderSnoc(rows: map<Key, Row>, keys: set<Key>, k: Key, q: seq<Key>)
    requires keys <= rows.Keys && keys != {} && k == PickEarliest(rows, keys)
    ensures q + InOrder(rows, keys) == (q + [k]) + InOrder(rows, keys - {k})
  {
    SeqAssoc(q, [k], InOrder(rows, keys - {k}));
  }

  lemma SeqAssoc<T>(a: seq<T>, b: seq<T>, c: seq<T>)
    ensures (a + b) + c == a + (b + c)
  {
  }

  lemma InOrderMeans(rows: map<Key, Row>, keys: set<Key>, table: Table)
    requires keys <= rows.Keys && forall a | a in keys :: a.table == table
    ensures var q := InOrder(rows, keys);
            forall i, j | 0 <= i < j < |q| ::
              rows[q[i]].created < rows[q[j]].created
              || (rows[q[i]].created == rows[q[j]].created && q[i].id < q[j].id)
  {
    var q := InOrder(rows, keys);
    forall i, j | 0 <= i < j < |q|
      ensures rows[q[i]].created < rows[q[j]].created
              || (rows[q[i]].created == rows[q[j]].created && q[i].id < q[j].id)
    {
      assert q[i] in q && q[j] in q && q[i] != q[j] && Before(rows, q[i], q[j]);
    }
  }

  /** `result.sort_by_key(|(id, _, created_time)| (*created_time, *id))`. */
  method SortClaimed(rows: map<Key, Row>, keys: set<Key>, table: Table) returns (q: seq<Key>)
    requires keys <= rows.Keys && forall a | a in keys :: a.table == table
    ensures q == InOrder(rows, keys) && forall k :: k in q <==> k in keys
    ensures forall i, j | 0 <= i < j < |q| ::
              rows[q[i]].created < rows[q[j]].created
              || (rows[q[i]].created == rows[q[j]].created && q[i].id < q[j].id)
  {
    q := [];
    var rest := keys;
    while rest != {}
      invariant rest <= keys
      invariant q + InOrder(rows, rest) == InOrder(rows, keys)
      decreases rest
    {
      var k := FindEarliest(rows, rest, table);
      InOrderSnoc(rows, rest, k, q);
      q := q + [k];
      rest := rest - {k};
    }
    assert q == InOrder(rows, keys);
    InOrderMeans(rows, keys, table);
  }

  /** `publish_command`: one attempt and up to `retries` more, until the broker accepts. */
  method PublishCommand(accepts: nat -> bool, retries: nat) returns (ok: bool, attempts: nat)
    ensures 1 <= attempts <= retries + 1
    ensures ok <==> exists i: nat | i <= retries :: accepts(i)
    ensures forall i: nat | i < attempts - 1 :: !accepts(i)
    ensures ok <==> accepts(attempts - 1)
    ensures !ok ==> attempts == retries + 1
  {
    attempts := 0;
    while attempts <= retries
      invariant attempts <= retries + 1
      invariant forall i: nat | i < attempts :: !accepts(i)
    {
      attempts := attempts + 1;
      if accepts(attempts - 1) { return true, attempts; }
    }
    return false, attempts;
  }

  /** A finished drain: each row it claimed is Sent or Failed by the outcome of its
      publication, and every other row is untouched. */
  ghost predicate Drained(before: map<Key, Row>, after: map<Key, Row>, claimed: set<Key>, ok: Key -> bool) {
    Partly(before, after, claimed, {}, ok)
  }

  /** A finished drain of a device: each of its Pending rows is Sent or Failed by the outcome
      of its publication, and every other row is untouched. */
  ghost predicate DrainedDevice(before: map<Key, Row>, after: map<Key, Row>, table: Table,
                                product: string, device: string, ok: Key -> bool) {
    && after.Keys == before.Keys
    && forall k | k in before ::
         after[k] == if k.table == table && before[k].product == product && before[k].device == device
                        && before[k].status == Pending
                     then before[k].(status := if ok(k) then Sent else Failed)
                     else before[k]
  }

  lemma DrainedIsDevice(before: map<Key, Row>, after: map<Key, Row>, table: Table,
                        product: string, device: string, ok: Key -> bool)
    requires Drained(before, after, PendingKeys(before, table, product, device), ok)
    ensures DrainedDevice(before, after, table, product, device, ok)
  {
  }

  /** A running drain: `sent` are claimed and not published yet, `waiting` are not
      claimed yet. */
  ghost predicate Partly(before: map<Key, Row>, after: map<Key, Row>, all: set<Key>,
                         sent: set<Key>, ok: Key -> bool, waiting: set<Key> := {}) {
    && after.Keys == before.Keys
    && forall k | k in before ::
         after[k] == if k !in all || k in waiting then before[k]
                     else before[k].(status := if k in sent || ok(k) then Sent else Failed)
  }

  lemma DistinctTail(q: seq<Key>, i: nat)
    requires i < |q| && forall a, b | 0 <= a < b < |q| :: q[a] != q[b]
    ensures KeysOf(q[i + 1..]) == KeysOf(q[i..]) - {q[i]} && q[i] in q[i..]
  {
    assert q[i..] == [q[i]] + q[i + 1..];
  }

  lemma PartlyClaimAll(before: map<Key, Row>, q: seq<Key>, all: set<Key>, ok: Key -> bool)
    requires forall k | k in all :: k in before && before[k].status == Pending
    requires KeysOf(q) == all
    ensures Partly(before, SetStatus(before, KeysOf(q), Pending, Sent), all, all, ok)
  {
  }

  lemma PartlyClaim(before: map<Key, Row>, after: map<Key, Row>, all: set<Key>,
                    ok: Key -> bool, waiting: set<Key>, k: Key)
    requires Partly(before, after, all, {}, ok, waiting) && all <= before.Keys && waiting <= all && k in waiting
    requires before[k].status == Pending
    ensures Partly(before, SetStatus(after, {k}, Pending, Sent), all, {k}, ok, waiting - {k})
  {
  }

  lemma PartlyPublish(before: map<Key, Row>, after: map<Key, Row>, all: set<Key>, sent: set<Key>,
                      ok: Key -> bool, waiting: set<Key>, k: Key)
    requires Partly(before, after, all, sent, ok, waiting) && k in sent && sent <= all <= before.Keys && k !in waiting
    ensures Partly(before, if ok(k) then after else SetStatus(after, {k}, Sent, Failed), all, sent - {k}, ok, waiting)
  {
  }

  lemma DrainMap(m: map<nat, Drain>, d: nat, x: Drain, y: Drain)
    ensures m[d := x][d := y] == m[d := y]
    ensures d !in m ==> m[d := x] - {d} == m
  {
  }

  lemma PendingAfter(before: map<Key, Row>, after: map<Key, Row>, all: set<Key>, ok: Key -> bool,
                     waiting: set<Key>, product: string, device: string)
    requires all == PendingKeys(before, ActionInvocation, product, device) && waiting <= all
    requires Partly(before, after, all, {}, ok, waiting)
    ensures PendingKeys(after, ActionInvocation, product, device) == waiting
  {
  }

  class CommandTables {
    var rows: map<Key, Row>
    var next: map<Table, int>
    var clock: nat
    ghost var drains: map<nat, Drain>
    ghost var log: seq<Event>

    ghost function View(): State
      reads this
    {
      State(rows, next, clock, drains, log)
    }

    /** Each table has an id sequence. */
    ghost predicate Valid()
      reads this
    {
      PropertyCommand in next && ActionInvocation in next
    }

    constructor ()
      ensures Valid() && View() == Init
    {
      rows, next, clock := map[], map[PropertyCommand := 1, ActionInvocation := 1], 0;
      drains, log := map[], [];
    }

    /** `insert_property_command` / `insert_action_invocation`. */
    method Insert(table: Table, product: string, device: string, serviceType: string) returns (k: Key)
      requires Valid()
      modifies this
      ensures Valid() && View() == Next(old(View()), Create(table, product, device, serviceType))
      ensures k == Key(table, old(next)[table]) && k in rows
      ensures rows[k] == Row(product, device, serviceType, clock, Pending)
    {
      k := Key(table, next[table]);
      rows := rows[k := Row(product, device, serviceType, clock, Pending)];
      next := next[table := k.id + 1];
    }

    /** `delete_property_commands` / `delete_action_invocations`. */
    method DeleteCommands(keys: set<Key>)
      modifies this
      ensures View() == Next(old(View()), Delete(keys)) && rows.Keys == old(rows).Keys
      ensures forall k | k in rows ::
                rows[k] == if k in keys && old(rows)[k].status == Pending then old(rows)[k].(status := Deleted)
                           else old(rows)[k]
    {
      log := log + [CancelAsked(keys * rows.Keys)];
      rows := map k | k in rows ::
        if k in keys && rows[k].status == Pending then rows[k].(status := Deleted) else rows[k];
    }

    /** `update_property_command_status` / `update_action_invocation_status` with
        previous status Sent. */
    method UpdateSentStatus(k: Key, product: string, device: string, serviceType: string, code: int)
      modifies this
      ensures View() == Next(old(View()), Reply(k, product, device, serviceType, code))
      ensures rows.Keys == old(rows).Keys
      ensures forall j | j in rows ::
                var r := old(rows)[j];
                rows[j] == if j == k && r.product == product && r.device == device
                              && (j.table == ActionInvocation ==> r.serviceType == serviceType) && r.status == Sent
                           then r.(status := if 200 <= code <= 299 then Success else Failed)
                           else r
    {
      if ReplyMatches(rows, k, product, device, serviceType) {
        var status := if 200 <= code <= 299 then Success else Failed;
        log := log + [Replied(k, code)];
        rows := SetStatus(rows, {k}, Sent, status);
      }
    }

    /** `service_set_reply`: true is 204 No Content, false is 400 Bad Request. */
    method ServiceSetReply(client: string, topic: string, id: string, code: int) returns (accepted: bool)
      modifies this
      ensures accepted <==> !DispatchReply(client, topic, id, code).BadRequest?
      ensures accepted <==>
                && ValidIdentifier(client) && ExtractProductId(topic).Some?
                && ValidIdentifier(ExtractProductId(topic).value) && ExtractServiceType(topic).Some?
                && SplitOnce(id, ':').Some? && ParseI64(SplitOnce(id, ':').value.1).Some?
      ensures DispatchReply(client, topic, id, code).Apply? <==>
                accepted && SplitOnce(id, ':').value.0 in {"property", "action"}
      ensures DispatchReply(client, topic, id, code).Apply? ==>
                View() == Next(old(View()), DispatchReply(client, topic, id, code).step)
      ensures !DispatchReply(client, topic, id, code).Apply? ==> View() == old(View())
    {
      var d := DispatchReply(client, topic, id, code);
      match d {
        case BadRequest => accepted := false;
        case Ignored => accepted := true;
        case Apply(step) =>
          UpdateSentStatus(step.target, step.product, step.device, step.serviceType, step.code);
          accepted := true;
      }
    }

    /** `update_pending_commands_to_sent`. */
    method ClaimAll(product: string, device: string, ghost d: nat) returns (q: seq<Key>, ghost steps: seq<Step>)
      requires d !in drains
      modifies this
      ensures q == InOrder(old(rows), PendingKeys(old(rows), PropertyCommand, product, device))
      ensures forall k :: k in q <==>
                && k in old(rows) && k.table == PropertyCommand && old(rows)[k].status == Pending
                && old(rows)[k].product == product && old(rows)[k].device == device
      ensures steps == [OpenDrain(d, PropertyCommand, product, device)] && View() == Run(old(View()), steps)
      ensures drains == old(drains)[d := Drain(PropertyCommand, product, device, q, None)]
      ensures rows == SetStatus(old(rows), KeysOf(q), Pending, Sent)
    {
      var pending := PendingKeys(rows, PropertyCommand, product, device);
      q := SortClaimed(rows, pending, PropertyCommand);
      log := log + [Claimed(q)];
      drains := drains[d := Drain(PropertyCommand, product, device, q, None)];
      rows := SetStatus(rows, KeysOf(q), Pending, Sent);
      assert [] + q == q;
      steps := [OpenDrain(d, PropertyCommand, product, device)];
      RunSnoc(old(View()), [], steps[0]);
      assert [] + [steps[0]] == steps;
    }

    /** `claim_next_pending_action`. */
    method ClaimNextAction(product: string, device: string, ghost d: nat, ghost s0: State, ghost steps: seq<Step>)
      returns (claimed: Option<Key>, ghost steps': seq<Step>)
      requires d in drains && drains[d] == Drain(ActionInvocation, product, device, [], None)
      requires View() == Run(s0, steps)
      modifies this
      ensures steps' == steps + [ClaimNext(d)] && View() == Run(s0, steps')
      ensures var pending := PendingKeys(old(rows), ActionInvocation, product, device);
              claimed == if pending == {} then None else Some(PickEarliest(old(rows), pending))
      ensures claimed == None ==> View() == old(View())
      ensures claimed == None <==>
                !exists k :: k in old(rows) && k.table == ActionInvocation && old(rows)[k].status == Pending
                             && old(rows)[k].product == product && old(rows)[k].device == device
      ensures claimed.Some? ==> claimed.value in PendingKeys(old(rows), ActionInvocation, product, device)
      ensures claimed.Some? ==> drains == old(drains)[d := old(drains)[d].(queue := [claimed.value])]
      ensures claimed.Some? ==> rows == SetStatus(old(rows), {claimed.value}, Pending, Sent)
      ensures next == old(next) && clock == old(clock)
    {
      steps' := steps + [ClaimNext(d)];
      RunSnoc(s0, steps, ClaimNext(d));
      var pending := PendingKeys(rows, ActionInvocation, product, device);
      assert forall k | k in rows && k.table == ActionInvocation && rows[k].status == Pending
               && rows[k].product == product && rows[k].device == device :: k in pending;
      if pending == {} { claimed := None; return; }
      var k := FindEarliest(rows, pending, ActionInvocation);
      log := log + [Claimed([k])];
      drains := drains[d := drains[d].(queue := [k])];
      rows := SetStatus(rows, {k}, Pending, Sent);
      assert KeysOf([k]) == {k} && [] + [k] == [k];
      claimed := Some(k);
    }

    /** The outcome of `publish_command` for the row being published. */
    method RecordPublish(k: Key, ok: bool, ghost d: nat)
      requires CanPublish(View(), d) && drains[d].queue[0] == k
      modifies this`drains, this`log
      ensures View() == Next(old(View()), if ok then PublishOk(d) else PublishFail(d))
      ensures log == old(log) + [if ok then Delivered(k) else Undelivered(k)]
    {
      log := log + [if ok then Delivered(k) else Undelivered(k)];
      drains := drains[d := drains[d].(queue := drains[d].queue[1..], flipping := if ok then None else Some(k))];
    }

    /** `update_sent_commands_to_failed`, or the action update with previous status Sent. */
    method FlipToFailed(k: Key, ghost d: nat)
      requires d in drains && drains[d].flipping == Some(k)
      modifies this
      ensures View() == Next(old(View()), Flip(d)) && rows.Keys == old(rows).Keys
      ensures forall j | j in rows ::
                rows[j] == if j == k && old(rows)[j].status == Sent then old(rows)[j].(status := Failed)
                           else old(rows)[j]
    {
      log := log + [FlipFailed(k)];
      drains := drains[d := drains[d].(flipping := None)];
      rows := SetStatus(rows, {k}, Sent, Failed);
    }

    /** The body of both drain loops for one claimed row: publish it, and on failure
        execute the guarded Sent -> Failed update. The machine has made `steps` so far. */
    method PublishRow(k: Key, ok: bool, ghost d: nat, ghost s0: State, ghost steps: seq<Step>)
      returns (ghost steps': seq<Step>)
      requires CanPublish(View(), d) && drains[d].queue[0] == k && View() == Run(s0, steps)
      modifies this
      ensures View() == Run(s0, steps')
      ensures drains == old(drains)[d := old(drains)[d].(queue := old(drains)[d].queue[1..])]
      ensures rows == if ok then old(rows) else SetStatus(old(rows), {k}, Sent, Failed)
      ensures next == old(next) && clock == old(clock)
    {
      ghost var publish := if ok then PublishOk(d) else PublishFail(d);
      RecordPublish(k, ok, d);
      steps' := steps + [publish];
      RunSnoc(s0, steps, publish);
      if !ok {
        FlipToFailed(k, d);
        RunSnoc(s0, steps', Flip(d));
        steps' := steps' + [Flip(d)];
      }
    }

    ghost method OpenActionDrain(product: string, device: string, d: nat) returns (steps: seq<Step>)
      requires d !in drains
      modifies this`drains
      ensures View() == Run(old(View()), steps)
      ensures drains == old(drains)[d := Drain(ActionInvocation, product, device, [], None)]
    {
      var open := OpenDrain(d, ActionInvocation, product, device);
      RunSnoc(View(), [], open);
      steps := [] + [open];
      drains := drains[d := Drain(ActionInvocation, product, device, [], None)];
    }

    ghost method EndDrain(d: nat, s0: State, steps: seq<Step>) returns (steps': seq<Step>)
      requires d in drains && drains[d].queue == [] && drains[d].flipping == None && View() == Run(s0, steps)
      modifies this`drains
      ensures View() == Run(s0, steps') && drains == old(drains) - {d}
    {
      RunSnoc(s0, steps, CloseDrain(d));
      steps' := steps + [CloseDrain(d)];
      drains := drains - {d};
    }

    /** `send_property_command_to_device`: claims every Pending row of the device, then
        publishes them one by one; `ok` is the outcome of each publication. */
    method SendPropertyCommands(product: string, device: string, ok: Key -> bool, ghost d: nat)
      returns (ghost steps: seq<Step>)
      requires d !in drains
      modifies this
      ensures View() == Run(old(View()), steps) && drains == old(drains)
      ensures DrainedDevice(old(rows), rows, PropertyCommand, product, device, ok)
    {
      ghost var s0 := View();
      ghost var pending := PendingKeys(rows, PropertyCommand, product, device);
      var q;
      q, steps := ClaimAll(product, device, d);
      PartlyClaimAll(s0.rows, q, pending, ok);
      steps := PublishClaimed(q, product, device, ok, d, s0, steps);
      DrainMap(s0.drains, d, drains[d], drains[d]);
      DrainedIsDevice(s0.rows, rows, PropertyCommand, product, device, ok);
      steps := EndDrain(d, s0, steps);
    }

    /** The loop of `send_property_command_to_device` over the claimed rows. */
    method PublishClaimed(q: seq<Key>, product: string, device: string, ok: Key -> bool,
                          ghost d: nat, ghost s0: State, ghost steps: seq<Step>)
      returns (ghost steps': seq<Step>)
      requires (forall a, b | 0 <= a < b < |q| :: q[a] != q[b]) && KeysOf(q) <= s0.rows.Keys && View() == Run(s0, steps)
      requires drains == s0.drains[d := Drain(PropertyCommand, product, device, q, None)]
      requires Partly(s0.rows, rows, KeysOf(q), KeysOf(q), ok)
      modifies this
      ensures View() == Run(s0, steps')
      ensures drains == s0.drains[d := Drain(PropertyCommand, product, device, [], None)]
      ensures Drained(s0.rows, rows, KeysOf(q), ok)
    {
      ghost var pending := KeysOf(q);
      steps' := steps;
      assert q[0..] == q;
      for i := 0 to |q|
        invariant View() == Run(s0, steps')
        invariant drains == s0.drains[d := Drain(PropertyCommand, product, device, q[i..], None)]
        invariant Partly(s0.rows, rows, pending, KeysOf(q[i..]), ok) && KeysOf(q[i..]) <= pending
      {
        DistinctTail(q, i);
        PartlyPublish(s0.rows, rows, pending, KeysOf(q[i..]), ok, {}, q[i]);
        DrainMap(s0.drains, d, drains[d], Drain(PropertyCommand, product, device, q[i + 1..], None));
        assert q[i..][1..] == q[i + 1..];
        steps' := PublishRow(q[i], ok(q[i]), d, s0, steps');
      }
      assert q[|q|..] == [];
    }

    /** `send_action_invocations_to_device`: claims and publishes one row at a time until
        no Pending row of the device is left. */
    method SendActionInvocations(product: string, device: string, ok: Key -> bool, ghost d: nat)
      returns (ghost steps: seq<Step>)
      requires d !in drains
      modifies this
      ensures View() == Run(old(View()), steps) && drains == old(drains)
      ensures next == old(next) && clock == old(clock)
      ensures DrainedDevice(old(rows), rows, ActionInvocation, product, device, ok)
    {
      ghost var s0 := View();
      ghost var pending := PendingKeys(rows, ActionInvocation, product, device);
      ghost var waiting, idle := pending, Drain(ActionInvocation, product, device, [], None);
      steps := OpenActionDrain(product, device, d);
      while true
        invariant View() == Run(s0, steps)
        invariant drains == s0.drains[d := idle]
        invariant next == s0.next && clock == s0.clock
        invariant waiting == PendingKeys(rows, ActionInvocation, product, device) <= pending
        invariant Partly(s0.rows, rows, pending, {}, ok, waiting)
        decreases waiting
      {
        ghost var before := rows;
        var claimed;
        claimed, steps := ClaimNextAction(product, device, d, s0, steps);
        if claimed == None { break; }
        var k := claimed.value;
        PartlyClaim(s0.rows, before, pending, ok, waiting, k);
        PartlyPublish(s0.rows, rows, pending, {k}, ok, waiting - {k}, k);
        DrainMap(s0.drains, d, idle, idle.(queue := [k]));
        DrainMap(s0.drains, d, idle.(queue := [k]), idle);
        assert [k][1..] == [];
        steps := PublishRow(k, ok(k), d, s0, steps);
        waiting := waiting - {k};
        assert {k} - {k} == {};
        PendingAfter(s0.rows, rows, pending, ok, waiting, product, device);
      }
      DrainedIsDevice(s0.rows, rows, ActionInvocation, product, device, ok);
      DrainMap(s0.drains, d, drains[d], drains[d]);
      steps := EndDrain(d, s0, steps);
    }

    /** `create_service_command`, with the answer of the subscription query. The
        response says Sent whenever the drain returned Ok, which it also does when the
        publication failed: run alone, it is accurate exactly when the row was published. */
    method CreateServiceCommand(product: string, device: string, serviceType: string, subscribed: bool,
                                ok: Key -> bool, ghost d: nat)
      returns (response: Option<(Key, Status)>)
      requires Valid() && d !in drains
      modifies this
      ensures Valid() && drains == old(drains)
      ensures response.Some? <==> ValidIdentifier(product) && ValidIdentifier(device) && ValidServiceType(serviceType)
      ensures response.None? ==> View() == old(View())
      ensures response.Some? ==>
                var (k, told) := response.value;
                && k == Key(ActionInvocation, old(next)[ActionInvocation]) && k in rows
                && rows[k].status == (if !subscribed then Pending else if ok(k) then Sent else Failed)
                && (told == rows[k].status <==> !subscribed || ok(k))
    {
      if !ValidIdentifier(product) || !ValidIdentifier(device) || !ValidServiceType(serviceType) { return None; }
      var k := Insert(ActionInvocation, product, device, serviceType);
      if subscribed {
        assert k in PendingKeys(rows, ActionInvocation, product, device);
        ghost var steps := SendActionInvocations(product, device, ok, d);
        return Some((k, Sent));
      }
      return Some((k, Pending));
    }
  }
}
