/** The alarm-rule store: request validation, partial updates that fetch, check and then
    write, and what every stored rule satisfies whatever the calls interleave. */
module AlarmRules {
  import opened Text
  import opened Json
  import opened Identifiers

  datatype Rule = Rule(product: string, name: string, description: Option<string>, triggerType: string,
                       triggerConfig: Json, condition: Json, actions: Json, enabled: bool,
                       throttleMinutes: int, durationMinutes: int, clearCondition: Option<Json>)

  datatype CreateRequest = CreateRequest(product: string, name: string, description: Option<string>,
                                         triggerType: string, triggerConfig: Json, condition: Json,
                                         actions: Json, throttleMinutes: int, durationMinutes: int,
                                         clearCondition: Option<Json>)

  /** An absent field is None. The clear condition has two levels: None keeps it,
      Some(None) erases it, Some(Some(v)) replaces it. */
  datatype UpdateRequest = UpdateRequest(name: Option<string>, description: Option<string>,
                                         triggerConfig: Option<Json>, condition: Option<Json>,
                                         actions: Option<Json>, throttleMinutes: Option<int>,
                                         durationMinutes: Option<int>, clearCondition: Option<Option<Json>>)

  // ----- Validation ------------------------------------------------------------------------

  const SUPPORTED_OPERATORS: set<string> := {">", ">=", "<", "<=", "==", "!=", "between", "contains", "always"}

  predicate KnownTrigger(t: string) { t in {"property", "event", "device_online", "device_offline"} }

  predicate IsDeviceTrigger(t: string) { t == "device_online" || t == "device_offline" }

  predicate ValidCondition(c: Json) {
    GetStr(c, "operator").Some? && GetStr(c, "operator").value in SUPPORTED_OPERATORS
  }

  predicate ValidActions(a: Json) {
    a.Arr? && exists i | 0 <= i < |a.items| :: GetStr(a.items[i], "type") == Some("alarm")
  }

  predicate ValidName(config: Json, field: string) {
    GetStr(config, field).Some? && ValidIdentifier(GetStr(config, field).value)
  }

  predicate ValidTriggerConfig(t: string, config: Json) {
    && config.Obj? && KnownTrigger(t)
    && (t == "property" ==> ValidName(config, "property_name"))
    && (t == "event" ==> ValidName(config, "event_identifier"))
  }

  predicate ValidDeviceCondition(t: string, c: Json) {
    IsDeviceTrigger(t) ==> GetStr(c, "operator") == Some("always")
  }

  /** `create_alarm_rule` up to the insertion, for a product that exists. */
  predicate AcceptsCreate(r: CreateRequest) {
    && KnownTrigger(r.triggerType)
    && ValidTriggerConfig(r.triggerType, r.triggerConfig)
    && ValidCondition(r.condition) && ValidDeviceCondition(r.triggerType, r.condition)
    && (r.clearCondition.Some? ==> ValidCondition(r.clearCondition.value))
    && ValidActions(r.actions)
    && r.durationMinutes >= 0
    && !(r.triggerType != "property" && (r.durationMinutes > 0 || r.clearCondition.Some?))
  }

  /** `update_alarm_rule` up to the write, against the trigger type that was fetched. */
  predicate AcceptsUpdate(triggerType: string, r: UpdateRequest) {
    && (r.durationMinutes.Some? ==> r.durationMinutes.value >= 0)
    && !(triggerType != "property"
         && ((r.durationMinutes.Some? && r.durationMinutes.value > 0)
             || (r.clearCondition.Some? && r.clearCondition.value.Some?)))
    && (r.condition.Some? ==> ValidCondition(r.condition.value) && ValidDeviceCondition(triggerType, r.condition.value))
    && (r.actions.Some? ==> ValidActions(r.actions.value))
    && (r.clearCondition.Some? && r.clearCondition.value.Some? ==> ValidCondition(r.clearCondition.value.value))
    && (r.triggerConfig.Some? ==> ValidTriggerConfig(triggerType, r.triggerConfig.value))
  }

  /** `deserialize_double_option` on the field of a JSON body. */
  function ClearField(body: map<string, Json>): Option<Option<Json>> {
    if "clear_condition" !in body then None
    else if body["clear_condition"] == Null then Some(None)
    else Some(Some(body["clear_condition"]))
  }

  function OrElse<T>(update: Option<T>, current: T): T { if update.Some? then update.value else current }

  /** `update_rule`: only the fields present are written. */
  function ApplyUpdate(rule: Rule, r: UpdateRequest): Rule {
    rule.(name := OrElse(r.name, rule.name),
          description := if r.description.Some? then r.description else rule.description,
          triggerConfig := OrElse(r.triggerConfig, rule.triggerConfig),
          condition := OrElse(r.condition, rule.condition),
          actions := OrElse(r.actions, rule.actions),
          throttleMinutes := OrElse(r.throttleMinutes, rule.throttleMinutes),
          durationMinutes := OrElse(r.durationMinutes, rule.durationMinutes),
          clearCondition := OrElse(r.clearCondition, rule.clearCondition))
  }

  // ----- What is refused, and what is written ----------------------------------------------------

  /** A condition must be an object with one of nine operators. */
  predicate BadCondition(c: Json) {
    || !c.Obj? || GetStr(c, "operator").None?
    || GetStr(c, "operator").value !in {">", ">=", "<", "<=", "==", "!=", "between", "contains", "always"}
  }

  /** Actions must be an array with an alarm among them. */
  predicate BadActions(a: Json) {
    !a.Arr? || forall i | 0 <= i < |a.items| :: GetStr(a.items[i], "type") != Some("alarm")
  }

  /** The trigger must name its property or event. */
  predicate BadTrigger(t: string, config: Json) {
    || !config.Obj?
    || (t == "property" && (GetStr(config, "property_name").None?
                            || !ValidIdentifier(GetStr(config, "property_name").value)))
    || (t == "event" && (GetStr(config, "event_identifier").None?
                         || !ValidIdentifier(GetStr(config, "event_identifier").value)))
  }

  /** A creation is refused exactly for one of these defects. */
  lemma CreateRefusedExactlyWhen(r: CreateRequest)
    ensures !AcceptsCreate(r) <==>
            || r.triggerType !in {"property", "event", "device_online", "device_offline"}
            || BadTrigger(r.triggerType, r.triggerConfig) || BadCondition(r.condition) || BadActions(r.actions)
            || (r.triggerType in {"device_online", "device_offline"}
                && GetStr(r.condition, "operator") != Some("always"))
            || (r.clearCondition.Some? && (r.triggerType != "property" || BadCondition(r.clearCondition.value)))
            || r.durationMinutes < 0 || (r.durationMinutes > 0 && r.triggerType != "property")
  {
  }

  /** An update of a stored rule is refused exactly when a field that is present has one. */
  lemma UpdateRefusedExactlyWhen(t: string, r: UpdateRequest)
    requires t in {"property", "event", "device_online", "device_offline"}
    ensures !AcceptsUpdate(t, r) <==>
            || (r.triggerConfig.Some? && BadTrigger(t, r.triggerConfig.value))
            || (r.condition.Some? && (BadCondition(r.condition.value)
                  || (t in {"device_online", "device_offline"}
                      && GetStr(r.condition.value, "operator") != Some("always"))))
            || (r.actions.Some? && BadActions(r.actions.value))
            || (r.clearCondition.Some? && r.clearCondition.value.Some?
                && (t != "property" || BadCondition(r.clearCondition.value.value)))
            || (r.durationMinutes.Some?
                && (r.durationMinutes.value < 0 || (r.durationMinutes.value > 0 && t != "property")))
  {
  }

  /** A field that is present has the request's value, an absent one keeps its value. */
  ghost predicate Written<T>(update: Option<T>, before: T, after: T) {
    match update case Some(v) => after == v case None => after == before
  }

  /** Field by field, what an update leaves of a rule. */
  ghost predicate Updated(before: Rule, r: UpdateRequest, after: Rule) {
    && Written(r.name, before.name, after.name)
    && after.description == (if r.description.Some? then r.description else before.description)
    && Written(r.triggerConfig, before.triggerConfig, after.triggerConfig)
    && Written(r.condition, before.condition, after.condition)
    && Written(r.actions, before.actions, after.actions)
    && Written(r.throttleMinutes, before.throttleMinutes, after.throttleMinutes)
    && Written(r.durationMinutes, before.durationMinutes, after.durationMinutes)
    && Written(r.clearCondition, before.clearCondition, after.clearCondition)
    && after.product == before.product && after.triggerType == before.triggerType && after.enabled == before.enabled
  }

  // ----- The store ---------------------------------------------------------------------------

  /** A call that fetched the rule, accepted its request, and has not written yet. */
  datatype Call = Call(id: int, fetched: Rule, request: UpdateRequest)

  datatype State = State(rules: map<int, Rule>, next: int, calls: map<nat, Call>)

  datatype Step =
    | Create(request: CreateRequest, productExists: bool)
    | FetchForUpdate(c: nat, id: int, update: UpdateRequest)
    | WriteUpdate(c: nat)
    | SetEnabled(id: int, enabled: bool)
    | Delete(id: int)

  const Init := State(map[], 1, map[])

  function Next(s: State, step: Step): State {
    match step
    case Create(r, productExists) =>
      if !AcceptsCreate(r) || !productExists then s else
      s.(rules := s.rules[s.next := Rule(r.product, r.name, r.description, r.triggerType, r.triggerConfig,
                                         r.condition, r.actions, true, r.throttleMinutes, r.durationMinutes,
                                         r.clearCondition)],
         next := s.next + 1)
    case FetchForUpdate(c, id, r) =>
      if c in s.calls || id !in s.rules || !AcceptsUpdate(s.rules[id].triggerType, r) then s
      else s.(calls := s.calls[c := Call(id, s.rules[id], r)])
    case WriteUpdate(c) =>
      if c !in s.calls then s else
      var call := s.calls[c];
      var s' := s.(calls := s.calls - {c});
      if call.id in s.rules then s'.(rules := s.rules[call.id := ApplyUpdate(s.rules[call.id], call.request)]) else s'
    case SetEnabled(id, enabled) =>
      if id in s.rules then s.(rules := s.rules[id := s.rules[id].(enabled := enabled)]) else s
    case Delete(id) => s.(rules := s.rules - {id})
  }

  function Run(s: State, steps: seq<Step>): State {
    if steps == [] then s else Next(Run(s, steps[..|steps| - 1]), steps[|steps| - 1])
  }

  // ----- What every stored rule satisfies ------------------------------------------------------

  ghost predicate RuleOk(r: Rule) {
    && ValidTriggerConfig(r.triggerType, r.triggerConfig)
    && ValidCondition(r.condition) && ValidDeviceCondition(r.triggerType, r.condition)
    && ValidActions(r.actions)
    && r.durationMinutes >= 0
    && (r.clearCondition.Some? ==> ValidCondition(r.clearCondition.value))
    && (r.durationMinutes > 0 || r.clearCondition.Some? ==> r.triggerType == "property")
  }

  /** The fetched trigger type stays right: it cannot be updated, and ids are not reused. */
  ghost predicate CallOk(s: State, call: Call) {
    && call.id < s.next
    && AcceptsUpdate(call.fetched.triggerType, call.request)
    && (call.id in s.rules ==> s.rules[call.id].triggerType == call.fetched.triggerType)
  }

  ghost predicate Inv(s: State) {
    && (forall id | id in s.rules :: id < s.next && RuleOk(s.rules[id]))
    && (forall c | c in s.calls :: CallOk(s, s.calls[c]))
  }

  lemma UpdateKeepsRule(rule: Rule, r: UpdateRequest)
    requires RuleOk(rule) && AcceptsUpdate(rule.triggerType, r)
    ensures RuleOk(ApplyUpdate(rule, r)) && ApplyUpdate(rule, r).triggerType == rule.triggerType
  {
  }

  /** A step that rewrites or removes rules without changing a trigger type. */
  lemma CallsKept(s: State, s': State)
    requires Inv(s) && s'.next >= s.next
    requires forall id | id in s'.rules && id < s.next ::
               id in s.rules && s'.rules[id].triggerType == s.rules[id].triggerType
    requires forall c | c in s'.calls :: c in s.calls && s'.calls[c] == s.calls[c]
    ensures forall c | c in s'.calls :: CallOk(s', s'.calls[c])
  {
    forall c | c in s'.calls ensures CallOk(s', s'.calls[c]) { assert CallOk(s, s.calls[c]); }
  }

  lemma FetchInv(s: State, c: nat, id: int, r: UpdateRequest)
    requires Inv(s)
    ensures Inv(Next(s, FetchForUpdate(c, id, r)))
  {
    var s' := Next(s, FetchForUpdate(c, id, r));
    forall d | d in s'.calls ensures CallOk(s', s'.calls[d]) {
      if d in s.calls { assert CallOk(s, s.calls[d]); }
    }
  }

  lemma WriteInv(s: State, c: nat)
    requires Inv(s)
    ensures Inv(Next(s, WriteUpdate(c)))
  {
    if c in s.calls {
      var call := s.calls[c];
      assert CallOk(s, call);
      if call.id in s.rules { UpdateKeepsRule(s.rules[call.id], call.request); }
      CallsKept(s, Next(s, WriteUpdate(c)));
    }
  }

  lemma NextInv(s: State, step: Step)
    requires Inv(s)
    ensures Inv(Next(s, step))
  {
    match step
    case FetchForUpdate(c, id, r) => FetchInv(s, c, id, r);
    case WriteUpdate(c) => WriteInv(s, c);
    case _ => CallsKept(s, Next(s, step));
  }

  /** After any interleaving of creates, two-step partial updates, status changes and
      deletes, every stored rule is well formed. */
  lemma {:induction false} StoredRulesAreValid(steps: seq<Step>)
    ensures Inv(Run(Init, steps))
    ensures forall id | id in Run(Init, steps).rules ::
              var r := Run(Init, steps).rules[id];
              && r.triggerType in {"property", "event", "device_online", "device_offline"}
              && !BadTrigger(r.triggerType, r.triggerConfig) && !BadCondition(r.condition) && !BadActions(r.actions)
              && (r.triggerType in {"device_online", "device_offline"} ==>
                    GetStr(r.condition, "operator") == Some("always"))
              && (r.clearCondition.Some? ==> r.triggerType == "property" && !BadCondition(r.clearCondition.value))
              && r.durationMinutes >= 0 && (r.durationMinutes > 0 ==> r.triggerType == "property")
  {
    if steps != [] {
      StoredRulesAreValid(steps[..|steps| - 1]);
      NextInv(Run(Init, steps[..|steps| - 1]), steps[|steps| - 1]);
    }
  }

  /** In every run an accepted request for a stored rule becomes a call. Its write leaves the
      rule as it is stored at that moment, whatever came between fetch and write, with exactly
      the fields of the request replaced, and no other rule changes. */
  lemma WriteMeans(steps: seq<Step>, c: nat, id: int, r: UpdateRequest, between: seq<Step>)
    requires var s := Run(Init, steps); c !in s.calls && id in s.rules && AcceptsUpdate(s.rules[id].triggerType, r)
    requires forall i | 0 <= i < |between| :: !(between[i].WriteUpdate? && between[i].c == c)
    ensures var s := Run(Init, steps + [FetchForUpdate(c, id, r)] + between);
            var s' := Next(s, WriteUpdate(c));
            && s'.rules.Keys == s.rules.Keys
            && (id in s.rules ==> Updated(s.rules[id], r, s'.rules[id]))
            && forall i | i in s.rules && i != id :: s'.rules[i] == s.rules[i]
  {
    var fetched := steps + [FetchForUpdate(c, id, r)];
    assert fetched[..|steps|] == steps;
    var call := Run(Init, fetched).calls[c];
    CallStays(fetched, c, call, between);
  }

  lemma {:induction false} CallStays(steps: seq<Step>, c: nat, call: Call, between: seq<Step>)
    requires c in Run(Init, steps).calls && Run(Init, steps).calls[c] == call
    requires forall i | 0 <= i < |between| :: !(between[i].WriteUpdate? && between[i].c == c)
    ensures c in Run(Init, steps + between).calls && Run(Init, steps + between).calls[c] == call
  {
    if between == [] {
      assert steps + between == steps;
    } else {
      var m := |between| - 1;
      CallStays(steps, c, call, between[..m]);
      assert (steps + between)[..|steps + between| - 1] == steps + between[..m];
    }
  }

  /** A status change writes the switch alone, and a deletion removes the rule alone. */
  lemma OtherWritesMean(s: State, id: int, enabled: bool)
    ensures var s' := Next(s, SetEnabled(id, enabled));
            && s'.rules.Keys == s.rules.Keys
            && (id in s.rules ==> s'.rules[id] == s.rules[id].(enabled := enabled))
            && forall i | i in s.rules && i != id :: s'.rules[i] == s.rules[i]
    ensures Next(s, Delete(id)).rules == s.rules - {id}
  {
  }

  /** An absent, a null and a present clear condition keep, erase and replace it; an
      accepted non-null one only reaches property rules. */
  lemma ClearFieldMeans(steps: seq<Step>, c: nat, body: map<string, Json>)
    requires var s := Run(Init, steps);
             c in s.calls && s.calls[c].id in s.rules && s.calls[c].request.clearCondition == ClearField(body)
    ensures var s := Run(Init, steps);
            var id := s.calls[c].id;
            var before, after := s.rules[id], Next(s, WriteUpdate(c)).rules[id];
            && after.clearCondition ==
               (if "clear_condition" !in body then before.clearCondition
                else if body["clear_condition"] == Null then None
                else Some(body["clear_condition"]))
            && ("clear_condition" in body && body["clear_condition"] != Null ==> before.triggerType == "property")
  {
    StoredRulesAreValid(steps);
    assert CallOk(Run(Init, steps), Run(Init, steps).calls[c]);
  }

  // ----- What the rule engine relies on ----------------------------------------------------------

  /** `RuleEvaluator::evaluate`: the comparison behind each other operator is a parameter. */
  predicate Evaluate(condition: Json, actual: Json, compare: (string, Json, Json) -> bool) {
    match GetStr(condition, "operator")
    case None => false
    case Some(op) =>
      if op == "always" then true
      else if op in SUPPORTED_OPERATORS then compare(op, condition, actual)
      else false
  }

  /** Every stored device rule fires on the null value that device triggers carry, and
      no stored rule falls through to the unknown operator. */
  lemma DeviceRulesFire(steps: seq<Step>, id: int, compare: (string, Json, Json) -> bool)
    requires id in Run(Init, steps).rules
    ensures var r := Run(Init, steps).rules[id];
            && (IsDeviceTrigger(r.triggerType) ==> Evaluate(r.condition, Null, compare))
            && GetStr(r.condition, "operator").Some?
            && GetStr(r.condition, "operator").value in SUPPORTED_OPERATORS
            && ValidActions(r.actions)
  {
    StoredRulesAreValid(steps);
  }

  // ----- The handlers --------------------------------------------------------------------------

  class RuleTable {
    var rules: map<int, Rule>
    var next: int

    ghost predicate Valid()
      reads this
    {
      forall id | id in rules :: id < next && RuleOk(rules[id])
    }

    constructor ()
      ensures Valid() && rules == map[]
    {
      rules, next := map[], 1;
    }

    /** `create_alarm_rule`; None is 400 Bad Request. */
    method CreateRule(r: CreateRequest, productExists: bool) returns (id: Option<int>)
      requires Valid()
      modifies this
      ensures Valid()
      ensures id.Some? <==> AcceptsCreate(r) && productExists
      ensures State(rules, next, map[]) == Next(State(old(rules), old(next), map[]), Create(r, productExists))
      ensures id.None? ==> rules == old(rules)
      ensures id.Some? ==>
                && id.value !in old(rules)
                && rules == old(rules)[id.value :=
                     Rule(r.product, r.name, r.description, r.triggerType, r.triggerConfig, r.condition, r.actions,
                          true, r.throttleMinutes, r.durationMinutes, r.clearCondition)]
    {
      if !AcceptsCreate(r) || !productExists { return None; }
      id := Some(next);
      rules := rules[next := Rule(r.product, r.name, r.description, r.triggerType, r.triggerConfig, r.condition,
                                  r.actions, true, r.throttleMinutes, r.durationMinutes, r.clearCondition)];
      next := next + 1;
    }

    /** `update_alarm_rule`; false is 404 Not Found or 400 Bad Request. */
    method UpdateRule(id: int, r: UpdateRequest) returns (ok: bool)
      requires Valid()
      modifies this
      ensures Valid() && next == old(next)
      ensures ok <==> id in old(rules) && AcceptsUpdate(old(rules)[id].triggerType, r)
      ensures !ok ==> rules == old(rules)
      ensures ok ==> rules.Keys == old(rules).Keys && Updated(old(rules)[id], r, rules[id])
                     && forall i | i in rules && i != id :: rules[i] == old(rules)[i]
    {
      if id !in rules || !AcceptsUpdate(rules[id].triggerType, r) { return false; }
      UpdateKeepsRule(rules[id], r);
      rules := rules[id := ApplyUpdate(rules[id], r)];
      return true;
    }

    /** `update_alarm_rule_status`; false is 404 Not Found. */
    method SetStatus(id: int, enabled: bool) returns (ok: bool)
      requires Valid()
      modifies this
      ensures Valid() && next == old(next) && ok == (id in old(rules))
      ensures rules == if ok then old(rules)[id := old(rules)[id].(enabled := enabled)] else old(rules)
    {
      ok := id in rules;
      if ok { rules := rules[id := rules[id].(enabled := enabled)]; }
    }

    /** `delete_alarm_rule`; false is 404 Not Found. */
    method DeleteRule(id: int) returns (ok: bool)
      requires Valid()
      modifies this
      ensures Valid() && next == old(next)
      ensures ok == (id in old(rules)) && rules == old(rules) - {id}
    {
      ok := id in rules;
      rules := rules - {id};
    }
  }
}
