/** Device replies: the correlation id `{prefix}:{db_id}` and the dispatch of a
    `thing/service/{service_type}/set_reply` message to one table. */
module Replies {
  import opened Text
  import opened Identifiers
  import opened Delivery
  import opened DeliveryTheorems

  function Prefix(t: Table): string {
    match t case PropertyCommand => "property" case ActionInvocation => "action"
  }

  /** The id of the envelope that a drain publishes for a row. */
  function CorrelationId(k: Key): string { Prefix(k.table) + ":" + FormatInt(k.id) }

  datatype Dispatch = BadRequest | Ignored | Apply(step: Step)

  /** `service_set_reply`, after decoding: which step the message asks for. */
  function DispatchReply(client: string, topic: string, id: string, code: int): Dispatch {
    Route(client, ExtractProductId(topic), ExtractServiceType(topic), SplitOnce(id, ':'), code)
  }

  function Route(client: string, product: Option<string>, serviceType: Option<string>,
                 id: Option<(string, string)>, code: int): Dispatch {
    if !ValidIdentifier(client) || product == None || !ValidIdentifier(product.value) then BadRequest
    else if serviceType == None || id == None || ParseI64(id.value.1) == None then BadRequest
    else
      var n := ParseI64(id.value.1).value;
      if id.value.0 == "property" then
        Apply(Reply(Key(PropertyCommand, n), product.value, client, serviceType.value, code))
      else if id.value.0 == "action" then
        Apply(Reply(Key(ActionInvocation, n), product.value, client, serviceType.value, code))
      else Ignored
  }

  /** Encoding then parsing the correlation id is the identity on every i64 of both
      tables: a device that answers on the reply topic of its command addresses the
      row that the command came from. */
  lemma ReplyRoundTrip(k: Key, product: string, device: string, serviceType: string, code: int)
    requires I64_MIN <= k.id <= I64_MAX
    requires ValidIdentifier(product) && ValidIdentifier(device) && ValidServiceType(serviceType)
    ensures DispatchReply(device, ServiceTopic(product, device, serviceType, "set_reply"), CorrelationId(k), code)
         == Apply(Reply(k, product, device, serviceType, code))
  {
    ServiceTopicParts(product, device, serviceType, "set_reply");
    IdRoundTrip(k);
    RouteOwn(k, product, device, serviceType, code,
             ServiceTopic(product, device, serviceType, "set_reply"), CorrelationId(k), FormatInt(k.id));
  }

  lemma RouteOwn(k: Key, product: string, device: string, serviceType: string, code: int,
                 topic: string, id: string, digits: string)
    requires ValidIdentifier(product) && ValidIdentifier(device)
    requires ExtractProductId(topic) == Some(product) && ExtractServiceType(topic) == Some(serviceType)
    requires SplitOnce(id, ':') == Some((Prefix(k.table), digits)) && ParseI64(digits) == Some(k.id)
    ensures DispatchReply(device, topic, id, code) == Apply(Reply(k, product, device, serviceType, code))
  {
  }

  lemma IdRoundTrip(k: Key)
    requires I64_MIN <= k.id <= I64_MAX
    ensures SplitOnce(CorrelationId(k), ':') == Some((Prefix(k.table), FormatInt(k.id)))
    ensures ParseI64(FormatInt(k.id)) == Some(k.id)
  {
    SplitOnceUnique(Prefix(k.table), ':', FormatInt(k.id));
    ParseFormat(k.id, I64_MIN, I64_MAX);
  }

  /** A row is settled only through an id with its own table's prefix, by its own
      device, on a topic of its own product (and, for an action, of its own service
      type), and only while it is Sent. */
  lemma OnlyOwnReplySettles(s: State, client: string, topic: string, id: string, code: int, k: Key, step: Step)
    requires k in s.rows
    requires DispatchReply(client, topic, id, code) == Apply(step)
    requires Next(s, step).rows[k] != s.rows[k]
    ensures s.rows[k].status == Sent
    ensures s.rows[k].device == client && ExtractProductId(topic) == Some(s.rows[k].product)
    ensures k.table == ActionInvocation ==> ExtractServiceType(topic) == Some(s.rows[k].serviceType)
    ensures SplitOnce(id, ':').Some? && SplitOnce(id, ':').value.0 == Prefix(k.table)
    ensures ParseI64(SplitOnce(id, ':').value.1) == Some(k.id)
    ensures Next(s, step).rows[k].status == (if 200 <= code <= 299 then Success else Failed)
  {
    DispatchMeans(client, topic, id, code, step);
    assert step.target == k && ReplyMatches(s.rows, k, step.product, step.device, step.serviceType);
  }

  lemma DispatchMeans(client: string, topic: string, id: string, code: int, step: Step)
    requires DispatchReply(client, topic, id, code) == Apply(step)
    ensures step.Reply? && step.device == client && step.code == code
    ensures ExtractProductId(topic) == Some(step.product) && ExtractServiceType(topic) == Some(step.serviceType)
    ensures SplitOnce(id, ':').Some? && SplitOnce(id, ':').value.0 == Prefix(step.target.table)
    ensures ParseI64(SplitOnce(id, ':').value.1) == Some(step.target.id)
  {
  }

  lemma AnswerSettles(s: State, k: Key, code: int)
    requires k in s.rows && s.rows[k].status == Sent
    ensures var r := s.rows[k];
            var rows' := HandleReply(s, k, r.product, r.device, r.serviceType, code).rows;
            k in rows' && rows'[k] == r.(status := if 200 <= code <= 299 then Success else Failed)
  {
  }

  lemma RunThen(s: State, a: seq<Step>, step: Step, b: seq<Step>)
    ensures Run(s, a + [step] + b) == Run(Next(Run(s, a), step), b)
  {
    RunConcat(s, a + [step], b);
    assert (a + [step])[..|a|] == a;
  }

  lemma SettledForGood(steps: seq<Step>, k: Key, r: Row, code: int, later: seq<Step>)
    requires k in Run(Init, steps).rows && r == Run(Init, steps).rows[k] && r.status == Sent
    ensures var rows' := Run(Init, steps + [Reply(k, r.product, r.device, r.serviceType, code)] + later).rows;
            k in rows' && rows'[k] == r.(status := if 200 <= code <= 299 then Success else Failed)
  {
    var s := Run(Init, steps);
    var step := Reply(k, r.product, r.device, r.serviceType, code);
    ReachableInv(steps);
    RunThen(Init, steps, step, later);
    var s' := HandleReply(s, k, r.product, r.device, r.serviceType, code);
    assert Next(s, step) == s';
    NextInv(s, step);
    AnswerSettles(s, k, code);
    FinalStays(s', later, k);
  }

  /** The first answer of the right device settles a Sent row, and no later message
      of any device changes it. */
  lemma FirstAnswerIsFinal(steps: seq<Step>, k: Key, r: Row, code: int, later: seq<Step>)
    requires k in Run(Init, steps).rows && r == Run(Init, steps).rows[k] && r.status == Sent
    requires I64_MIN <= k.id <= I64_MAX
    requires ValidIdentifier(r.product) && ValidIdentifier(r.device) && ValidServiceType(r.serviceType)
    ensures var answer := DispatchReply(r.device, ServiceTopic(r.product, r.device, r.serviceType, "set_reply"),
                                        CorrelationId(k), code);
            && answer.Apply?
            && var rows' := Run(Init, steps + [answer.step] + later).rows;
            k in rows' && rows'[k] == r.(status := if 200 <= code <= 299 then Success else Failed)
  {
    ReplyRoundTrip(k, r.product, r.device, r.serviceType, code);
    SettledForGood(steps, k, r, code, later);
  }
}
