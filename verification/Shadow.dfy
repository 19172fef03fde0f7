/** The device shadow: desired documents under merge patches (the top level of
    section 2 of RFC 7396), the delta against the reported snapshot, and convergence. */
module Shadow {
  import opened Text
  import opened Json

  type Doc = map<string, Json>

  ghost predicate NoNulls(d: Doc) { forall k | k in d :: d[k] != Null }

  // ----- Merge patches -------------------------------------------------------------------

  /** A null in the patch removes the key, any other value replaces it. */
  function Merge(current: Doc, patch: Doc): Doc {
    map k | k in current.Keys + patch.Keys && (k in patch ==> patch[k] != Null) ::
      if k in patch then patch[k] else current[k]
  }

  /** `merge_desired`. */
  method MergeDesired(current: Doc, patch: Doc) returns (result: Doc)
    ensures result == Merge(current, patch)
    ensures forall k :: k in result <==> if k in patch then patch[k] != Null else k in current
    ensures forall k | k in result :: result[k] == if k in patch then patch[k] else current[k]
  {
    result := current;
    var rest := patch.Keys;
    ghost var done: Doc := map[];
    assert Merge(current, map[]) == current;
    while rest != {}
      invariant rest <= patch.Keys && done.Keys == patch.Keys - rest
      invariant forall k | k in done :: done[k] == patch[k]
      invariant result == Merge(current, done)
      decreases rest
    {
      var k :| k in rest;
      MergeOneMore(current, done, k, patch[k]);
      if patch[k] == Null {
        result := result - {k};
      } else {
        result := result[k := patch[k]];
      }
      rest, done := rest - {k}, done[k := patch[k]];
    }
    assert done == patch;
  }

  lemma MergeOneMore(current: Doc, done: Doc, k: string, v: Json)
    ensures Merge(current, done[k := v])
         == if v == Null then Merge(current, done) - {k} else Merge(current, done)[k := v]
  {
  }

  /** Applying two patches in turn is applying their composition: the later patch wins
      key by key, and a deletion stays a deletion. */
  lemma MergeCompose(d: Doc, p: Doc, q: Doc)
    ensures Merge(Merge(d, p), q) == Merge(d, p + q)
  {
  }

  function MergeAll(d: Doc, patches: seq<Doc>): Doc {
    if patches == [] then d else Merge(MergeAll(d, patches[..|patches| - 1]), patches[|patches| - 1])
  }

  function ComposeAll(patches: seq<Doc>): Doc {
    if patches == [] then map[] else ComposeAll(patches[..|patches| - 1]) + patches[|patches| - 1]
  }

  /** Any history of patches acts as the one patch it composes to, and a document that
      starts without nulls never holds one. */
  lemma {:induction false} PatchHistory(d: Doc, patches: seq<Doc>)
    requires NoNulls(d)
    ensures MergeAll(d, patches) == Merge(d, ComposeAll(patches))
    ensures NoNulls(MergeAll(d, patches))
  {
    if patches == [] {
      assert Merge(d, map[]) == d;
    } else {
      PatchHistory(d, patches[..|patches| - 1]);
      MergeCompose(d, ComposeAll(patches[..|patches| - 1]), patches[|patches| - 1]);
    }
  }

  // ----- Reports and the delta -----------------------------------------------------------

  /** The bare value of a reported property, stored as `{"value": v, "time": t}`. */
  function Reported(reported: Doc, k: string): Option<Json> {
    if k in reported then Get(reported[k], "value") else None
  }

  /** `upsert_property_latest`: the update is wrapped and laid over the snapshot. */
  function Report(reported: Doc, update: Doc, time: string): Doc {
    reported + map k | k in update :: Obj(map["value" := update[k], "time" := Str(time)])
  }

  predicate Diverges(desired: Doc, reported: Doc, k: string) {
    k in desired && desired[k] != Null && Reported(reported, k) != Some(desired[k])
  }

  function Delta(desired: Doc, reported: Doc): Doc {
    map k | k in desired && Diverges(desired, reported, k) :: desired[k]
  }

  /** `compute_delta`. */
  method ComputeDelta(desired: Doc, reported: Doc) returns (delta: Doc)
    ensures delta == Delta(desired, reported)
    ensures forall k :: k in delta <==>
              && k in desired && desired[k] != Null
              && (k !in reported || Get(reported[k], "value") != Some(desired[k]))
    ensures forall k | k in delta :: delta[k] == desired[k]
  {
    delta := map[];
    var rest := desired.Keys;
    while rest != {}
      invariant rest <= desired.Keys
      invariant forall k :: k in delta <==> k !in rest && Diverges(desired, reported, k)
      invariant forall k | k in delta :: delta[k] == desired[k]
      decreases rest
    {
      var k :| k in rest;
      if desired[k] != Null && (k !in reported || Get(reported[k], "value") != Some(desired[k])) {
        delta := delta[k := desired[k]];
      }
      rest := rest - {k};
    }
  }

  lemma ReportedAfter(reported: Doc, update: Doc, time: string, k: string)
    ensures Reported(Report(reported, update, time), k)
         == if k in update then Some(update[k]) else Reported(reported, k)
  {
  }

  /** Exactly the updates that report every entry of the delta, and nothing else that
      is desired otherwise, empty the delta: the delta is the smallest of them. */
  lemma DeltaIsLeast(desired: Doc, reported: Doc, update: Doc, time: string)
    requires NoNulls(desired)
    ensures Delta(desired, Report(reported, update, time)) == map[] <==>
            && (forall k | k in Delta(desired, reported) :: k in update)
            && (forall k | k in update && k in desired :: update[k] == desired[k])
    ensures Delta(desired, Report(reported, Delta(desired, reported), time)) == map[]
  {
    var delta := Delta(desired, reported);
    var after := Report(reported, update, time);
    forall k ensures Diverges(desired, after, k) <==>
                     if k in update then k in desired && update[k] != desired[k] else k in delta
    {
      ReportedAfter(reported, update, time, k);
    }
    if Delta(desired, after) == map[] {
      forall k ensures !Diverges(desired, after, k) {
        assert k in desired && Diverges(desired, after, k) ==> k in Delta(desired, after);
      }
    }
    forall k ensures !Diverges(desired, Report(reported, delta, time), k) {
      ReportedAfter(reported, delta, time, k);
    }
  }

  // ----- Delivery of queued deltas and convergence ---------------------------------------

  /** The device applies the queued commands in order and reports each of them. */
  function ReportAll(reported: Doc, queue: seq<Doc>, time: string): Doc {
    if queue == [] then reported
    else Report(ReportAll(reported, queue[..|queue| - 1], time), queue[|queue| - 1], time)
  }

  /** The value that the last queued command naming the key gives it. */
  function LastWrite(queue: seq<Doc>, k: string): Option<Json> {
    if queue == [] then None
    else if k in queue[|queue| - 1] then Some(queue[|queue| - 1][k])
    else LastWrite(queue[..|queue| - 1], k)
  }

  lemma {:induction false} ReportedAfterAll(reported: Doc, queue: seq<Doc>, time: string, k: string)
    ensures Reported(ReportAll(reported, queue, time), k)
         == if LastWrite(queue, k).Some? then LastWrite(queue, k) else Reported(reported, k)
  {
    if queue != [] {
      var m := |queue| - 1;
      ReportedAfterAll(reported, queue[..m], time, k);
      ReportedAfter(ReportAll(reported, queue[..m], time), queue[m], time, k);
    }
  }

  /** A queued command would move a property away from a desired value that the
      snapshot already shows. */
  ghost predicate Overtakes(queue: seq<Doc>, desired: Doc, reported: Doc, k: string) {
    && k in desired && !Diverges(desired, reported, k)
    && LastWrite(queue, k).Some? && LastWrite(queue, k).value != desired[k]
  }

  /** After a Set-Desired, delivering everything that is queued in queue order makes the
      device converge exactly when no older command overtakes a converged property. */
  lemma ConvergesExactlyWhen(desired: Doc, reported: Doc, queue: seq<Doc>, time: string)
    requires NoNulls(desired)
    ensures var delta := Delta(desired, reported);
            var queue' := if delta == map[] then queue else queue + [delta];
            Delta(desired, ReportAll(reported, queue', time)) == map[]
            <==> forall k :: !Overtakes(queue, desired, reported, k)
  {
    var delta := Delta(desired, reported);
    var queue' := if delta == map[] then queue else queue + [delta];
    var after := ReportAll(reported, queue', time);
    forall k ensures Diverges(desired, after, k) <==> Overtakes(queue, desired, reported, k) {
      ReportedAfterAll(reported, queue', time, k);
      ReportedAfterAll(reported, queue, time, k);
      if delta != map[] { assert queue'[..|queue'| - 1] == queue; }
      assert Diverges(desired, reported, k) <==> k in delta;
    }
    if Delta(desired, after) == map[] {
      forall k ensures !Diverges(desired, after, k) {
        assert k in desired && Diverges(desired, after, k) ==> k in Delta(desired, after);
      }
    }
  }

  /** `order` delivers each of the commands once. */
  ghost predicate Delivers(order: seq<Doc>, commands: seq<Doc>) { multiset(order) == multiset(commands) }

  ghost predicate ConvergesInEveryOrder(desired: Doc, reported: Doc, commands: seq<Doc>, time: string) {
    forall order | Delivers(order, commands) :: Delta(desired, ReportAll(reported, order, time)) == map[]
  }

  /** An outstanding command gives a desired property another value. */
  ghost predicate Contradicts(queue: seq<Doc>, desired: Doc, k: string) {
    exists q :: q in queue && k in q && k in desired && q[k] != desired[k]
  }

  lemma {:induction false} LastWriteIsOne(queue: seq<Doc>, k: string)
    ensures LastWrite(queue, k).Some? ==> exists q :: q in queue && k in q && q[k] == LastWrite(queue, k).value
    ensures LastWrite(queue, k).None? ==> forall q | q in queue :: k !in q
  {
    if queue != [] {
      var m := |queue| - 1;
      LastWriteIsOne(queue[..m], k);
      assert queue == queue[..m] + [queue[m]];
      if k !in queue[m] && LastWrite(queue, k).Some? {
        var q :| q in queue[..m] && k in q && q[k] == LastWrite(queue, k).value;
        assert q in queue;
      }
    }
  }

  lemma DeltaEmptyMeans(desired: Doc, reported: Doc)
    ensures Delta(desired, reported) == map[] <==> forall k :: !Diverges(desired, reported, k)
  {
    forall k ensures k in Delta(desired, reported) <==> Diverges(desired, reported, k) {
    }
  }

  /** After a Set-Desired: the device converges in whatever order its outstanding commands and
      the new delta are delivered, exactly when none of the outstanding commands gives a desired
      property another value, whether or not the new delta names it. */
  lemma ConvergesInEveryOrderIff(desired: Doc, reported: Doc, queue: seq<Doc>, time: string)
    requires NoNulls(desired)
    ensures var delta := Delta(desired, reported);
            ConvergesInEveryOrder(desired, reported, if delta == map[] then queue else queue + [delta], time)
            <==> forall k :: !Contradicts(queue, desired, k)
  {
    var delta := Delta(desired, reported);
    var commands := if delta == map[] then queue else queue + [delta];
    if k :| Contradicts(queue, desired, k) {
      var q :| q in queue && k in q && k in desired && q[k] != desired[k];
      ContradictionLast(desired, reported, commands, q, k, time);
    } else {
      forall order | Delivers(order, commands) ensures Delta(desired, ReportAll(reported, order, time)) == map[] {
        AgreeingOrder(desired, reported, queue, order, time);
      }
    }
  }

  /** The contradicting command may come last. */
  lemma ContradictionLast(desired: Doc, reported: Doc, commands: seq<Doc>, q: Doc, k: string, time: string)
    requires NoNulls(desired) && q in commands && k in q && k in desired && q[k] != desired[k]
    ensures !ConvergesInEveryOrder(desired, reported, commands, time)
  {
    var i :| 0 <= i < |commands| && commands[i] == q;
    var order := MovedLast(commands, i);
    MovedLastDelivers(commands, i);
    ReportedAfterAll(reported, order, time, k);
    DeltaEmptyMeans(desired, ReportAll(reported, order, time));
    assert Diverges(desired, ReportAll(reported, order, time), k);
  }

  function MovedLast(commands: seq<Doc>, i: nat): seq<Doc>
    requires i < |commands|
  {
    commands[..i] + commands[i + 1..] + [commands[i]]
  }

  lemma MovedLastDelivers(commands: seq<Doc>, i: nat)
    requires i < |commands|
    ensures Delivers(MovedLast(commands, i), commands)
  {
    assert commands == commands[..i] + [commands[i]] + commands[i + 1..];
  }

  lemma AgreeingOrder(desired: Doc, reported: Doc, queue: seq<Doc>, order: seq<Doc>, time: string)
    requires NoNulls(desired) && forall k :: !Contradicts(queue, desired, k)
    requires var delta := Delta(desired, reported);
             Delivers(order, if delta == map[] then queue else queue + [delta])
    ensures Delta(desired, ReportAll(reported, order, time)) == map[]
  {
    var delta := Delta(desired, reported);
    var commands := if delta == map[] then queue else queue + [delta];
    forall q ensures q in order <==> q in queue || (q == delta && delta != map[]) {
      assert q in multiset(order) <==> q in multiset(commands);
    }
    forall k | Diverges(desired, reported, k) ensures delta in order && k in delta {
      assert k in delta;
    }
    forall k ensures !Diverges(desired, ReportAll(reported, order, time), k) {
      ReportedAfterAll(reported, order, time, k);
      LastWriteIsOne(order, k);
      if LastWrite(order, k).Some? && k in desired {
        var q :| q in order && k in q && q[k] == LastWrite(order, k).value;
        assert q in queue ==> !Contradicts(queue, desired, k);
      }
    }
    DeltaEmptyMeans(desired, ReportAll(reported, order, time));
  }

  /** Queue order is not enough when two drains hold rows: 80 is outstanding, the target becomes
      60, and no command overtakes in queue order; but the 60 may be delivered first. */
  lemma NewerDeltaFirst(time: string)
    ensures var reported := Report(map[], map["b" := Num(50.0)], time);
            var older, desired := map["b" := Num(80.0)], map["b" := Num(60.0)];
            && Delta(desired, reported) == desired
            && Delta(desired, ReportAll(reported, [older, desired], time)) == map[]
            && Delta(desired, ReportAll(reported, [desired, older], time)) != map[]
  {
    var reported := Report(map[], map["b" := Num(50.0)], time);
    var older, desired := map["b" := Num(80.0)], map["b" := Num(60.0)];
    ReportedAfter(map[], map["b" := Num(50.0)], time, "b");
    assert Diverges(desired, reported, "b");
    assert Delta(desired, reported) == desired;
    assert [older, desired][..1] == [older] && [desired, older][..1] == [desired];
    ReportedAfterAll(reported, [older, desired], time, "b");
    ReportedAfterAll(reported, [desired, older], time, "b");
    DeltaEmptyMeans(desired, ReportAll(reported, [older, desired], time));
    assert Diverges(desired, ReportAll(reported, [desired, older], time), "b");
    DeltaEmptyMeans(desired, ReportAll(reported, [desired, older], time));
  }

  /** With nothing outstanding, every Set-Desired converges. */
  lemma ConvergesWhenNothingOutstanding(desired: Doc, reported: Doc, time: string)
    requires NoNulls(desired)
    ensures var delta := Delta(desired, reported);
            Delta(desired, ReportAll(reported, if delta == map[] then [] else [delta], time)) == map[]
  {
    ConvergesExactlyWhen(desired, reported, [], time);
    assert [] + [Delta(desired, reported)] == [Delta(desired, reported)];
  }

  /** The failing case: 80 is queued, then the target goes back to the reported 50. */
  lemma OlderDeltaOvertakes(time: string)
    ensures var reported := Report(map[], map["b" := Num(50.0)], time);
            var first := Delta(Merge(map[], map["b" := Num(80.0)]), reported);
            var desired := Merge(Merge(map[], map["b" := Num(80.0)]), map["b" := Num(50.0)]);
            && Delta(desired, reported) == map[]
            && Delta(desired, ReportAll(reported, [first], time)) != map[]
  {
    var reported := Report(map[], map["b" := Num(50.0)], time);
    var d1 := Merge(map[], map["b" := Num(80.0)]);
    assert d1 == map["b" := Num(80.0)];
    var first := Delta(d1, reported);
    assert first == map["b" := Num(80.0)];
    var desired := Merge(d1, map["b" := Num(50.0)]);
    assert desired == map["b" := Num(50.0)];
    ConvergesExactlyWhen(desired, reported, [first], time);
    assert [first][0] == first;
    assert Overtakes([first], desired, reported, "b");
  }

  // ----- The handlers --------------------------------------------------------------------

  datatype SetDesiredResponse = SetDesiredResponse(desired: Doc, delta: Doc, pushed: bool)

  /** The shadow of one device: its desired and reported rows and the property
      commands that wait for delivery. */
  class DeviceShadow {
    var desired: Doc
    var reported: Doc
    var queue: seq<Doc>

    ghost predicate Valid()
      reads this
    {
      NoNulls(desired)
    }

    constructor ()
      ensures Valid() && desired == map[] && reported == map[] && queue == []
    {
      desired, reported, queue := map[], map[], [];
    }

    /** `set_property_desired` after identifier validation; None is 400 Bad Request. */
    method SetDesired(patch: Doc) returns (response: Option<SetDesiredResponse>)
      requires Valid()
      modifies this
      ensures Valid() && reported == old(reported)
      ensures response.None? <==> patch == map[]
      ensures response.None? ==> desired == old(desired) && queue == old(queue)
      ensures response.Some? ==>
                var delta := Delta(desired, reported);
                && desired == Merge(old(desired), patch)
                && response.value == SetDesiredResponse(desired, delta, delta != map[])
                && queue == if delta == map[] then old(queue) else old(queue) + [delta]
    {
      if patch == map[] { return None; }
      desired := MergeDesired(desired, patch);
      var delta := ComputeDelta(desired, reported);
      if delta != map[] { queue := queue + [delta]; }
      return Some(SetDesiredResponse(desired, delta, delta != map[]));
    }

    /** The device takes the oldest queued command and reports it, as with one drain at a time. */
    method DeliverNext(time: string)
      requires Valid() && queue != []
      modifies this
      ensures Valid() && desired == old(desired) && queue == old(queue)[1..]
      ensures reported == Report(old(reported), old(queue)[0], time)
    {
      reported := Report(reported, queue[0], time);
      queue := queue[1..];
    }

    /** Delivery of the whole queue reports it in order. */
    method DeliverAll(time: string)
      requires Valid()
      modifies this
      ensures Valid() && desired == old(desired) && queue == []
      ensures reported == ReportAll(old(reported), old(queue), time)
    {
      ghost var all, n := queue, 0;
      while queue != []
        invariant Valid() && desired == old(desired)
        invariant 0 <= n <= |all| && queue == all[n..]
        invariant reported == ReportAll(old(reported), all[..n], time)
        decreases |queue|
      {
        assert all[..n + 1][..n] == all[..n];
        DeliverNext(time);
        n := n + 1;
      }
      assert all[..n] == all;
    }

    /** `get_property_shadow`: the delta of the current documents. */
    method GetDelta() returns (delta: Doc)
      ensures delta == Delta(desired, reported)
    {
      delta := ComputeDelta(desired, reported);
    }
  }
}
