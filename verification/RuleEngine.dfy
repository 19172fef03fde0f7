/** When a property rule raises an alarm: the duration and throttle state that the rule
    engine keeps for a rule and a device, against what the history of reports says. Each
    report is evaluated to its end before the next; RuleRace lets evaluations overlap. */
module RuleEngine {
  import opened Text

  /** A report that carries the rule's property: its time in seconds, whether the condition
      holds, whether the clear condition then clears active alarms, and the settings of the
      rule in force, in minutes. */
  datatype Report = Report(now: int, holds: bool, clears: bool, duration: int, throttle: int)

  /** `tracking` is when the condition began to hold, `triggered` the last trigger. */
  datatype Memory = Memory(tracking: Option<int>, triggered: Option<int>)

  const Empty := Memory(None, None)

  /** `Duration::whole_minutes`, which truncates toward zero. */
  function WholeMinutes(seconds: int): int {
    if seconds >= 0 then seconds / 60 else -((-seconds) / 60)
  }

  // ----- One report ------------------------------------------------------------------------

  /** `check_duration`: tracking starts at the first report on which the condition holds. */
  function Track(m: Memory, now: int, duration: int): Memory {
    if duration > 0 && m.tracking == None then m.(tracking := Some(now)) else m
  }

  predicate DurationMet(m: Memory, now: int, duration: int) {
    duration <= 0 || (m.tracking.Some? && WholeMinutes(now - m.tracking.value) >= duration)
  }

  /** `check_dedup`: the trigger is skipped inside the throttle window. */
  predicate Throttled(m: Memory, now: int, throttle: int) {
    throttle > 0 && m.triggered.Some? && WholeMinutes(now - m.triggered.value) < throttle
  }

  predicate Raises(m: Memory, r: Report) {
    r.holds && DurationMet(m, r.now, r.duration) && !Throttled(m, r.now, r.throttle)
  }

  /** `evaluate_and_trigger` for one rule and one report. */
  function Process(m: Memory, r: Report): Memory {
    var evaluated := if r.holds then Track(m, r.now, r.duration)
                     else if r.duration > 0 then m.(tracking := None) else m;
    var marked := if Raises(m, r) then evaluated.(triggered := Some(r.now)) else evaluated;
    if r.clears then marked.(tracking := None) else marked
  }

  function After(h: seq<Report>): Memory {
    if h == [] then Empty else Process(After(h[..|h| - 1]), h[|h| - 1])
  }

  predicate Fires(h: seq<Report>, j: nat)
    requires j < |h|
  {
    Raises(After(h[..j]), h[j])
  }

  // ----- What the history says ---------------------------------------------------------------

  ghost predicate Ordered(h: seq<Report>) { forall i, j | 0 <= i < j < |h| :: h[i].now <= h[j].now }

  /** The condition holds while the rule asks for a duration. */
  predicate Tracks(r: Report) { r.duration > 0 && r.holds }

  /** The report ends a stretch: an alarm was cleared, or the condition fails while the rule
      asks for a duration. */
  predicate Breaks(r: Report) { r.clears || (r.duration > 0 && !r.holds) }

  /** A stretch began at report `i`, and no report before `j` broke it. */
  ghost predicate Sustained(h: seq<Report>, i: nat, j: nat) {
    i < j <= |h| && Tracks(h[i]) && forall m | i <= m < j :: !Breaks(h[m])
  }

  ghost predicate LongEnough(h: seq<Report>, j: nat)
    requires j < |h|
  {
    h[j].duration > 0 ==> exists i: nat :: Sustained(h, i, j) && h[j].now - h[i].now >= 60 * h[j].duration
  }

  /** No alarm in the throttle window before report `j`. */
  ghost predicate NoRecentAlarm(h: seq<Report>, j: nat)
    requires j < |h|
  {
    h[j].throttle > 0 ==> forall k: nat | k < j && Fires(h, k) :: h[j].now - h[k].now >= 60 * h[j].throttle
  }

  // ----- The memory summarises the history ------------------------------------------------------

  /** The first report of the stretch that the history ends in. */
  function StretchStart(h: seq<Report>): (i: Option<nat>)
    ensures i.Some? ==> i.value < |h|
  {
    if h == [] then None
    else
      var n := |h| - 1;
      var before := StretchStart(h[..n]);
      if Breaks(h[n]) then None
      else if before.Some? then before
      else if Tracks(h[n]) then Some(n)
      else None
  }

  lemma {:induction false} StretchIsFirst(h: seq<Report>)
    ensures var start := StretchStart(h);
            && (start.Some? ==> Sustained(h, start.value, |h|))
            && forall i: nat | Sustained(h, i, |h|) :: start.Some? && start.value <= i
  {
    if h != [] {
      var n := |h| - 1;
      StretchIsFirst(h[..n]);
      forall i: nat | i < n && !Breaks(h[n]) ensures Sustained(h, i, |h|) <==> Sustained(h[..n], i, n) {
        assert forall m | 0 <= m < n :: h[..n][m] == h[m];
      }
    }
  }

  lemma {:induction false} TrackingMeans(h: seq<Report>)
    ensures var start := StretchStart(h);
            After(h).tracking == if start.Some? then Some(h[start.value].now) else None
  {
    if h != [] { TrackingMeans(h[..|h| - 1]); }
  }

  ghost predicate TriggeredMeans(h: seq<Report>) {
    var t := After(h).triggered;
    if t == None then forall k: nat | k < |h| :: !Fires(h, k)
    else
      && (exists k: nat :: k < |h| && Fires(h, k) && h[k].now == t.value)
      && (forall k: nat | k < |h| && Fires(h, k) :: h[k].now <= t.value)
  }

  lemma FiresInPrefix(h: seq<Report>, n: nat, k: nat)
    requires k < n <= |h|
    ensures Fires(h[..n], k) == Fires(h, k)
  {
    assert h[..n][..k] == h[..k];
  }

  lemma LastTriggers(h: seq<Report>)
    requires h != []
    ensures var n := |h| - 1;
            After(h).triggered == if Fires(h, n) then Some(h[n].now) else After(h[..n]).triggered
  {
  }

  lemma {:induction false} TriggeredIsLatest(h: seq<Report>)
    requires Ordered(h)
    ensures TriggeredMeans(h)
  {
    if h != [] {
      var n := |h| - 1;
      TriggeredIsLatest(h[..n]);
      forall k: nat | k < n ensures Fires(h[..n], k) == Fires(h, k) { FiresInPrefix(h, n, k); }
      LastTriggers(h);
      var before := After(h[..n]).triggered;
      if !Fires(h, n) && before.Some? {
        var k: nat :| k < n && Fires(h[..n], k) && h[..n][k].now == before.value;
        assert Fires(h, k) && h[k].now == before.value;
      }
    }
  }

  // ----- The exact condition of an alarm --------------------------------------------------------

  lemma DurationExact(h: seq<Report>, j: nat)
    requires Ordered(h) && j < |h|
    ensures DurationMet(After(h[..j]), h[j].now, h[j].duration) <==> LongEnough(h, j)
  {
    var before := h[..j];
    StretchIsFirst(before);
    TrackingMeans(before);
    forall i: nat ensures Sustained(h, i, j) <==> Sustained(before, i, j) {
      assert forall m | 0 <= m < j :: before[m] == h[m];
    }
    var start := StretchStart(before);
    if start.Some? { assert Sustained(h, start.value, j); }
  }

  lemma ThrottleExact(h: seq<Report>, j: nat)
    requires Ordered(h) && j < |h|
    ensures !Throttled(After(h[..j]), h[j].now, h[j].throttle) <==> NoRecentAlarm(h, j)
  {
    TriggeredIsLatest(h[..j]);
    forall k: nat | k < j ensures Fires(h[..j], k) == Fires(h, k) { FiresInPrefix(h, j, k); }
    var t := After(h[..j]).triggered;
    if t.Some? {
      var k: nat :| k < j && Fires(h[..j], k) && h[..j][k].now == t.value;
      assert Fires(h, k);
    }
  }

  /** Over every history of reports with a clock that does not go back, whatever settings
      each report meets: it raises an alarm exactly when the condition holds, a stretch as
      long as the duration leads up to it, and no alarm was raised in the throttle window
      before it. */
  lemma AlarmExactlyWhen(h: seq<Report>, j: nat)
    requires Ordered(h) && j < |h|
    ensures Fires(h, j) <==> h[j].holds && LongEnough(h, j) && NoRecentAlarm(h, j)
  {
    DurationExact(h, j);
    ThrottleExact(h, j);
  }

  /** Two alarms of a rule on a device are the throttle window in force at the later one
      apart. */
  lemma AlarmsAreSpaced(h: seq<Report>, k: nat, j: nat)
    requires Ordered(h) && k < j < |h| && Fires(h, k) && Fires(h, j)
    ensures h[j].now - h[k].now >= 60 * h[j].throttle
  {
    AlarmExactlyWhen(h, j);
  }

  /** While the rule asks for a duration, a stretch is what its name says: the condition held
      on every report from `i` to `j`, and none before `j` cleared an alarm. */
  lemma SteadyStretch(h: seq<Report>, i: nat, j: nat)
    requires i < j < |h| && forall m | i <= m <= j :: h[m].duration > 0
    ensures Sustained(h, i, j) && h[j].holds
            <==> (forall m | i <= m <= j :: h[m].holds) && (forall m | i <= m < j :: !h[m].clears)
  {
    if (forall m | i <= m <= j :: h[m].holds) && (forall m | i <= m < j :: !h[m].clears) {
      assert Tracks(h[i]);
      assert forall m | i <= m < j :: !Breaks(h[m]);
    } else if Sustained(h, i, j) && h[j].holds {
      assert forall m | i <= m < j :: !Breaks(h[m]) && h[m].holds;
    }
  }

  /** A report that meets the rule while it asks for no duration breaks no stretch: with a
      duration of ten minutes, switched off for a moment, an alarm is raised although the
      condition failed in between. */
  lemma InterruptionMissed()
    ensures Fires([Report(0, true, false, 10, 0), Report(300, false, false, 0, 0), Report(600, true, false, 10, 0)], 2)
  {
    var h := [Report(0, true, false, 10, 0), Report(300, false, false, 0, 0), Report(600, true, false, 10, 0)];
    assert Sustained(h, 0, 2);
    AlarmExactlyWhen(h, 2);
  }

  // ----- The in-memory store --------------------------------------------------------------------

  /** `format!("{}:{}", rule_id, device_id)`. */
  function StateKey(rule: int, device: string): string { FormatInt(rule) + ":" + device }

  /** The rule that an entry belongs to is read back from its key, whatever the device
      id holds: dropping rule 1 never drops rule 12. */
  lemma StateKeyRule(rule: int, device: string)
    requires I64_MIN <= rule <= I64_MAX
    ensures Split(StateKey(rule, device), ':')[0] == FormatInt(rule)
    ensures ParseI64(Split(StateKey(rule, device), ':')[0]) == Some(rule)
  {
    FormatIntChars(rule, ':');
    SplitConcat(FormatInt(rule), ':', device);
    SplitWhole(FormatInt(rule), ':');
    ParseFormat(rule, I64_MIN, I64_MAX);
  }

  lemma StateKeyInjective(rule: int, device: string, rule': int, device': string)
    requires I64_MIN <= rule <= I64_MAX && I64_MIN <= rule' <= I64_MAX
    requires rule != rule' || device != device'
    ensures StateKey(rule, device) != StateKey(rule', device')
  {
    FormatIntChars(rule, ':');
    FormatIntChars(rule', ':');
    SplitOnceUnique(FormatInt(rule), ':', device);
    SplitOnceUnique(FormatInt(rule'), ':', device');
    ParseFormat(rule, I64_MIN, I64_MAX);
    ParseFormat(rule', I64_MIN, I64_MAX);
  }

  predicate KeptKey(key: string, rules: set<int>) {
    !(exists r | r in rules :: FormatInt(r) == Split(key, ':')[0])
  }

  lemma KeptExactlyWhen(rule: int, device: string, rules: set<int>)
    requires I64_MIN <= rule <= I64_MAX && forall r | r in rules :: I64_MIN <= r <= I64_MAX
    ensures KeptKey(StateKey(rule, device), rules) <==> rule !in rules
  {
    StateKeyRule(rule, device);
    forall r | r in rules ensures FormatInt(r) == FormatInt(rule) ==> r == rule {
      ParseFormat(r, I64_MIN, I64_MAX);
    }
  }

  ghost predicate SameElse(m: map<string, int>, m': map<string, int>, key: string) { m - {key} == m' - {key} }

  lemma SameAt(m: map<string, int>, m': map<string, int>, key: string, other: string)
    requires SameElse(m, m', key) && other != key
    ensures (other in m <==> other in m') && (other in m ==> m[other] == m'[other])
  {
    assert (other in m <==> other in m - {key}) && (other in m' <==> other in m' - {key});
  }

  class InMemoryRuleStateStore {
    var dedup: map<string, int>
    var durationTracking: map<string, int>

    /** The memory of a rule and a device. */
    function MemoryOf(rule: int, device: string): Memory
      reads this
    {
      var key := StateKey(rule, device);
      Memory(if key in durationTracking then Some(durationTracking[key]) else None,
             if key in dedup then Some(dedup[key]) else None)
    }

    constructor ()
      ensures forall rule, device :: MemoryOf(rule, device) == Empty
    {
      dedup, durationTracking := map[], map[];
    }

    method CheckDuration(rule: int, device: string, duration: int, now: int) returns (met: bool)
      modifies this`durationTracking
      ensures met == DurationMet(old(MemoryOf(rule, device)), now, duration)
      ensures MemoryOf(rule, device) == Track(old(MemoryOf(rule, device)), now, duration)
      ensures SameElse(old(durationTracking), durationTracking, StateKey(rule, device))
    {
      if duration <= 0 { return true; }
      var key := StateKey(rule, device);
      if key in durationTracking {
        met := WholeMinutes(now - durationTracking[key]) >= duration;
      } else {
        durationTracking := durationTracking[key := now];
        met := false;
      }
    }

    /** The pass of `evaluate_and_trigger` over one rule: no other memory changes. */
    method Evaluate(rule: int, device: string, r: Report) returns (raised: bool)
      requires I64_MIN <= rule <= I64_MAX
      modifies this
      ensures raised == Raises(old(MemoryOf(rule, device)), r)
      ensures MemoryOf(rule, device) == Process(old(MemoryOf(rule, device)), r)
      ensures forall id, d | I64_MIN <= id <= I64_MAX && (id != rule || d != device) ::
                MemoryOf(id, d) == old(MemoryOf(id, d))
    {
      var key := StateKey(rule, device);
      raised := false;
      if !r.holds {
        if r.duration > 0 { durationTracking := durationTracking - {key}; }
      } else {
        var met := CheckDuration(rule, device, r.duration, r.now);
        if met && !(r.throttle > 0 && key in dedup && WholeMinutes(r.now - dedup[key]) < r.throttle) {
          dedup := dedup[key := r.now];
          raised := true;
        }
      }
      if r.clears { durationTracking := durationTracking - {key}; }
      assert SameElse(old(dedup), dedup, key) && SameElse(old(durationTracking), durationTracking, key);
      forall id: int, d: string | I64_MIN <= id <= I64_MAX && (id != rule || d != device)
        ensures MemoryOf(id, d) == old(MemoryOf(id, d))
      {
        StateKeyInjective(id, d, rule, device);
        SameAt(old(dedup), dedup, key, StateKey(id, d));
        SameAt(old(durationTracking), durationTracking, key, StateKey(id, d));
      }
    }

    /** `invalidate_by_rule_ids`: the named rules lose their memory on every device. */
    method InvalidateByRuleIds(rules: set<int>)
      requires forall r | r in rules :: I64_MIN <= r <= I64_MAX
      modifies this
      ensures forall rule, device | I64_MIN <= rule <= I64_MAX ::
                MemoryOf(rule, device) == if rule in rules then Empty else old(MemoryOf(rule, device))
    {
      durationTracking := map k | k in durationTracking && KeptKey(k, rules) :: durationTracking[k];
      dedup := map k | k in dedup && KeptKey(k, rules) :: dedup[k];
      forall rule: int, device: string | I64_MIN <= rule <= I64_MAX
        ensures KeptKey(StateKey(rule, device), rules) <==> rule !in rules
      {
        KeptExactlyWhen(rule, device, rules);
      }
    }
  }

  // ----- The engine and its cache of rules ----------------------------------------------------------

  /** One evaluation of a report of a device, with the enabled rules that the database then
      holds and what the report is for each of them; or a creation, update, status change or
      deletion of a rule. */
  datatype Action =
    | Evaluation(product: string, device: string, loaded: seq<int>, reports: map<int, Report>)
    | RuleChange(product: string)

  /** The rule map of the shared cache, and the memory of each rule and device. */
  datatype Engine = Engine(shared: map<string, seq<int>>, memory: (int, string) -> Memory)

  const NewEngine := Engine(map[], (rule, device) => Empty)

  function Evaluated(memory: (int, string) -> Memory, ids: seq<int>, device: string, reports: map<int, Report>)
    : (int, string) -> Memory
  {
    (rule: int, d: string) =>
      if d == device && rule in ids && rule in reports then Process(memory(rule, d), reports[rule]) else memory(rule, d)
  }

  /** `evaluate_and_trigger` gets a clone of the cache: a rule map of its own beside the same
      state store. On a miss it fills that clone. */
  function NextEngine(e: Engine, a: Action): Engine {
    match a
    case Evaluation(product, device, loaded, reports) =>
      var clone := e.shared;
      var ids := if product in clone then clone[product] else loaded;
      e.(memory := Evaluated(e.memory, ids, device, reports))
    case RuleChange(product) =>
      var ids := if product in e.shared then e.shared[product] else [];
      Engine(e.shared - {product}, (rule: int, d: string) => if rule in ids then Empty else e.memory(rule, d))
  }

  function RunEngine(actions: seq<Action>): Engine {
    if actions == [] then NewEngine else NextEngine(RunEngine(actions[..|actions| - 1]), actions[|actions| - 1])
  }

  /** The reports of a device that a rule was evaluated on. */
  function HistoryOf(actions: seq<Action>, rule: int, device: string): seq<Report> {
    if actions == [] then []
    else
      var before, last := HistoryOf(actions[..|actions| - 1], rule, device), actions[|actions| - 1];
      if last.Evaluation? && last.device == device && rule in last.loaded && rule in last.reports
      then before + [last.reports[rule]]
      else before
  }

  /** Over every run the shared rule map stays empty, because only clones are ever filled, and
      so the memory of a rule and a device is that of their whole history: rule changes drop
      nothing. */
  lemma {:induction false} EngineRemembers(actions: seq<Action>, rule: int, device: string)
    ensures RunEngine(actions).shared == map[]
    ensures RunEngine(actions).memory(rule, device) == After(HistoryOf(actions, rule, device))
  {
    if actions != [] {
      EngineRemembers(actions[..|actions| - 1], rule, device);
      var h, h' := HistoryOf(actions[..|actions| - 1], rule, device), HistoryOf(actions, rule, device);
      assert h' != h ==> h'[..|h'| - 1] == h;
    }
  }

  /** In particular a change of a rule leaves every memory as it was. */
  lemma RuleChangeDropsNothing(actions: seq<Action>, product: string, rule: int, device: string)
    ensures NextEngine(RunEngine(actions), RuleChange(product)).memory(rule, device)
         == RunEngine(actions).memory(rule, device)
  {
    EngineRemembers(actions, rule, device);
  }

  /** The evaluation that ends a run raises an alarm of the rule exactly when its history, with
      all rule changes left out of account, says so. */
  lemma RunRaisesExactlyWhen(actions: seq<Action>, last: Action, rule: int)
    requires last.Evaluation? && rule in last.loaded && rule in last.reports
    requires Ordered(HistoryOf(actions, rule, last.device) + [last.reports[rule]])
    ensures var before := HistoryOf(actions, rule, last.device);
            var h := before + [last.reports[rule]];
            Raises(RunEngine(actions).memory(rule, last.device), last.reports[rule])
            <==> last.reports[rule].holds && LongEnough(h, |before|) && NoRecentAlarm(h, |before|)
  {
    var before := HistoryOf(actions, rule, last.device);
    var h := before + [last.reports[rule]];
    EngineRemembers(actions, rule, last.device);
    assert h[..|before|] == before;
    AlarmExactlyWhen(h, |before|);
  }

  predicate RuleIds(ids: seq<int>) {
    && (forall i | 0 <= i < |ids| :: I64_MIN <= ids[i] <= I64_MAX)
    && forall i, j | 0 <= i < j < |ids| :: ids[i] != ids[j]
  }

  /** The memory that a store holds of every rule and device. */
  ghost predicate Holds(store: InMemoryRuleStateStore, memory: (int, string) -> Memory)
    reads store
  {
    forall rule, device | I64_MIN <= rule <= I64_MAX :: store.MemoryOf(rule, device) == memory(rule, device)
  }

  /** `RuleCache`: the cached rule ids of each product beside the state store. */
  class RuleCache {
    var rules: map<string, seq<int>>
    const store: InMemoryRuleStateStore

    ghost predicate Valid()
      reads this
    {
      forall product | product in rules :: RuleIds(rules[product])
    }

    constructor ()
      ensures Valid() && fresh(store) && rules == map[]
    {
      rules := map[];
      store := new InMemoryRuleStateStore();
    }

    constructor Sharing(rules: map<string, seq<int>>, store: InMemoryRuleStateStore)
      ensures this.rules == rules && this.store == store
    {
      this.rules, this.store := rules, store;
    }

    /** The derived `clone`: the map is copied, the store is shared. */
    method Clone() returns (clone: RuleCache)
      ensures fresh(clone) && clone.rules == rules && clone.store == store
    {
      clone := new RuleCache.Sharing(rules, store);
    }

    /** `invalidate_product`, which every change of a rule of the product calls. */
    method InvalidateProduct(product: string, ghost memory: (int, string) -> Memory)
      requires Valid() && Holds(store, memory)
      modifies this, store
      ensures Valid()
      ensures var e := NextEngine(Engine(old(rules), memory), RuleChange(product));
              rules == e.shared && Holds(store, e.memory)
    {
      var ids := if product in rules then rules[product] else [];
      rules := rules - {product};
      if ids != [] { store.InvalidateByRuleIds(set id | id in ids); }
    }

    /** The rules of the product, from the database when they are not cached here. */
    method RulesOf(product: string, loaded: seq<int>) returns (ids: seq<int>)
      requires Valid() && RuleIds(loaded)
      modifies this
      ensures Valid() && RuleIds(ids)
      ensures ids == if product in old(rules) then old(rules)[product] else loaded
      ensures rules == old(rules)[product := ids]
    {
      if product !in rules { rules := rules[product := loaded]; }
      ids := rules[product];
    }

    /** The loop of `evaluate_and_trigger` over the rules. */
    method EvaluateRules(ids: seq<int>, device: string, reports: map<int, Report>,
                         ghost memory: (int, string) -> Memory)
      requires RuleIds(ids) && Holds(store, memory)
      modifies store
      ensures Holds(store, Evaluated(memory, ids, device, reports))
    {
      for i := 0 to |ids|
        invariant Holds(store, Evaluated(memory, ids[..i], device, reports))
      {
        assert ids[..i + 1] == ids[..i] + [ids[i]] && ids[i] !in ids[..i];
        if ids[i] in reports {
          EvaluateOne(ids[i], device, reports[ids[i]], Evaluated(memory, ids[..i], device, reports));
        }
      }
      assert ids[..|ids|] == ids;
    }

    method EvaluateOne(rule: int, device: string, r: Report, ghost memory: (int, string) -> Memory)
      requires I64_MIN <= rule <= I64_MAX && Holds(store, memory)
      modifies store
      ensures forall id, d | I64_MIN <= id <= I64_MAX ::
                store.MemoryOf(id, d) == if id == rule && d == device then Process(memory(id, d), r) else memory(id, d)
    {
      var raised := store.Evaluate(rule, device, r);
    }

    /** The spawned task of a report: it evaluates on a clone, and this map stays as it is. */
    method Trigger(product: string, device: string, loaded: seq<int>, reports: map<int, Report>,
                   ghost memory: (int, string) -> Memory)
      requires Valid() && RuleIds(loaded) && Holds(store, memory)
      modifies store
      ensures Valid()
      ensures var e := NextEngine(Engine(rules, memory), Evaluation(product, device, loaded, reports));
              rules == e.shared && Holds(store, e.memory)
    {
      var clone := Clone();
      var ids := clone.RulesOf(product, loaded);
      clone.EvaluateRules(ids, device, reports, memory);
    }
  }
}
