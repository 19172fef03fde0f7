/** Topic filters: the matching loop against the level-by-level definition of
    sections 4.7.1.2 and 4.7.1.3 of MQTT Version 3.1.1, and the subscription gate. */
module Topics {
  import opened Text
  import opened Identifiers

  // ----- The definition ----------------------------------------------------------------

  predicate LevelMatches(f: string, t: string) { f == "+" || f == t }

  /** The position of the first multi-level wildcard, or the number of levels. */
  function FirstHash(fs: seq<string>): (h: nat)
    ensures h <= |fs|
    ensures h < |fs| ==> fs[h] == "#"
    ensures forall i | 0 <= i < h :: fs[i] != "#"
  {
    if fs == [] || fs[0] == "#" then 0 else 1 + FirstHash(fs[1..])
  }

  /** The levels before a `#` match one by one; without a `#` there are as many levels
      on both sides; with it the topic may go on, or end at the parent level. */
  predicate Matches(fs: seq<string>, ts: seq<string>) {
    var h := FirstHash(fs);
    && (if h < |fs| then |ts| >= h else |ts| == |fs|)
    && forall i | 0 <= i < h :: LevelMatches(fs[i], ts[i])
  }

  predicate TopicMatches(filter: string, topic: string) { Matches(Levels(filter), Levels(topic)) }

  /** `#` occurs only as the last level (section 4.7.1.2). */
  predicate ValidFilter(fs: seq<string>) { forall i | 0 <= i < |fs| - 1 :: fs[i] != "#" }

  /** For a valid filter the definition is the standard's: a trailing `#` stands for
      its parent level and any number of levels below it. */
  lemma ValidFilterMeans(fs: seq<string>, ts: seq<string>)
    requires fs != [] && ValidFilter(fs)
    ensures var n := |fs| - 1;
            Matches(fs, ts) <==>
              if fs[n] == "#" then
                |ts| >= n && forall i | 0 <= i < n :: LevelMatches(fs[i], ts[i])
              else
                |ts| == |fs| && forall i | 0 <= i < |fs| :: LevelMatches(fs[i], ts[i])
  {
  }

  // ----- The loop ------------------------------------------------------------------------

  /** `mqtt_topic_matches`: two iterators advance together. */
  method MqttTopicMatches(filter: string, topic: string) returns (matched: bool)
    ensures matched <==> TopicMatches(filter, topic)
  {
    if filter == topic {
      ShortcutIsRedundant(filter);
      return true;
    }
    var fs, ts := Levels(filter), Levels(topic);
    var i := 0;
    while true
      invariant 0 <= i <= |fs| && i <= |ts|
      invariant i <= FirstHash(fs)
      invariant forall j | 0 <= j < i :: LevelMatches(fs[j], ts[j])
      decreases |fs| - i
    {
      if i < |fs| && fs[i] == "#" {
        return true;
      } else if i == |fs| && i == |ts| {
        return true;
      } else if i < |fs| && i < |ts| && (fs[i] == "+" || fs[i] == ts[i]) {
        i := i + 1;
      } else {
        return false;
      }
    }
  }

  /** Every text matches itself as a filter, so the equality test decides nothing. */
  lemma ShortcutIsRedundant(x: string)
    ensures TopicMatches(x, x)
  {
  }

  // ----- The subscription gate -----------------------------------------------------------

  /** The subscription covers the set topic of the service type. */
  predicate Covers(sub: string, product: string, client: string, serviceType: string) {
    TopicMatches(sub, ServiceTopic(product, client, serviceType, "set"))
  }

  /** Some subscription of the client does. */
  ghost predicate Gate(subs: seq<string>, product: string, client: string, serviceType: string) {
    exists i :: 0 <= i < |subs| && Covers(subs[i], product, client, serviceType)
  }

  /** `is_subscribed_to_service_action`. */
  method IsSubscribedToServiceAction(subs: seq<string>, product: string, client: string, serviceType: string)
    returns (subscribed: bool)
    ensures subscribed <==> Gate(subs, product, client, serviceType)
  {
    var topic := ServiceTopic(product, client, serviceType, "set");
    for i := 0 to |subs|
      invariant forall j | 0 <= j < i :: !Covers(subs[j], product, client, serviceType)
    {
      var m := MqttTopicMatches(subs[i], topic);
      if m {
        assert Covers(subs[i], product, client, serviceType);
        return true;
      }
    }
    return false;
  }

  /** The broker's auto-subscription `+/{clientid}/thing/service/+/set`. */
  function AutoSubscription(client: string): string { ServiceTopic("+", client, "+", "set") }

  /** The auto-subscription opens the gate of every product and service type. */
  lemma AutoSubscriptionCovers(subs: seq<string>, product: string, client: string, serviceType: string)
    requires ValidIdentifier(product) && ValidIdentifier(client) && ValidServiceType(serviceType)
    requires AutoSubscription(client) in subs
    ensures Gate(subs, product, client, serviceType)
  {
    ValidHasNoSlash(product, '/');
    ValidHasNoSlash(client, '/');
    ValidHasNoSlash(serviceType, '/');
    ServiceTopicLevels(product, client, serviceType, "set");
    ServiceTopicLevels("+", client, "+", "set");
    var i :| 0 <= i < |subs| && subs[i] == AutoSubscription(client);
    assert IdentifierChar(client[0]);
    assert FirstHash(Levels(AutoSubscription(client))) == 6;
    assert Covers(subs[i], product, client, serviceType);
  }

  /** A filter leaves the service-type level open. */
  predicate OpenAtServiceType(fs: seq<string>) { FirstHash(fs) <= 4 || (|fs| > 4 && fs[4] == "+") }

  function SetLevels(product: string, client: string, serviceType: string): seq<string> {
    [product, client, "thing", "service", serviceType, "set"]
  }

  lemma OpenFilterCovers(fs: seq<string>, product: string, client: string, from: string, to: string)
    requires Matches(fs, SetLevels(product, client, from)) && OpenAtServiceType(fs)
    ensures Matches(fs, SetLevels(product, client, to))
  {
    var ts, ts' := SetLevels(product, client, from), SetLevels(product, client, to);
    assert forall i | 0 <= i < FirstHash(fs) :: i != 4 ==> ts'[i] == ts[i];
  }

  lemma ClosedFilterNames(fs: seq<string>, product: string, client: string, serviceType: string)
    requires Matches(fs, SetLevels(product, client, serviceType)) && !OpenAtServiceType(fs)
    ensures |fs| > 4 && fs[4] == serviceType
  {
    assert LevelMatches(fs[4], SetLevels(product, client, serviceType)[4]);
  }

  lemma SetTopicLevels(product: string, client: string, serviceType: string)
    requires ValidIdentifier(product) && ValidIdentifier(client) && ValidServiceType(serviceType)
    ensures Levels(ServiceTopic(product, client, serviceType, "set")) == SetLevels(product, client, serviceType)
  {
    ValidHasNoSlash(product, '/');
    ValidHasNoSlash(client, '/');
    ValidHasNoSlash(serviceType, '/');
    ServiceTopicLevels(product, client, serviceType, "set");
  }

  lemma OpenSubCovers(sub: string, product: string, client: string, from: string, to: string)
    requires ValidIdentifier(product) && ValidIdentifier(client) && ValidServiceType(from) && ValidServiceType(to)
    requires Covers(sub, product, client, from) && OpenAtServiceType(Levels(sub))
    ensures Covers(sub, product, client, to)
  {
    SetTopicLevels(product, client, from);
    SetTopicLevels(product, client, to);
    OpenFilterCovers(Levels(sub), product, client, from, to);
  }

  lemma ClosedSubNames(sub: string, product: string, client: string, serviceType: string)
    requires ValidIdentifier(product) && ValidIdentifier(client) && ValidServiceType(serviceType)
    requires Covers(sub, product, client, serviceType) && !OpenAtServiceType(Levels(sub))
    ensures Names(sub, product, client, serviceType)
  {
    SetTopicLevels(product, client, serviceType);
    ClosedFilterNames(Levels(sub), product, client, serviceType);
  }

  /** The subscription passes the property test and leaves the service type open. */
  predicate Passes(sub: string, product: string, client: string) {
    Covers(sub, product, client, "property") && OpenAtServiceType(Levels(sub))
  }

  /** The subscription covers the service type and names it in its own level. */
  predicate Names(sub: string, product: string, client: string, serviceType: string) {
    Covers(sub, product, client, serviceType) && |Levels(sub)| > 4 && Levels(sub)[4] == serviceType
  }

  ghost predicate PassesOpenly(subs: seq<string>, product: string, client: string) {
    exists i :: 0 <= i < |subs| && Passes(subs[i], product, client)
  }

  ghost predicate Named(subs: seq<string>, product: string, client: string, serviceType: string) {
    exists i :: 0 <= i < |subs| && Names(subs[i], product, client, serviceType)
  }

  lemma OpenSubPasses(sub: string, product: string, client: string, serviceType: string)
    requires ValidIdentifier(product) && ValidIdentifier(client) && ValidServiceType(serviceType)
    requires Covers(sub, product, client, serviceType) && OpenAtServiceType(Levels(sub))
    ensures Passes(sub, product, client)
  {
    OpenSubCovers(sub, product, client, serviceType, "property");
  }

  lemma PassingSubCovers(sub: string, product: string, client: string, serviceType: string)
    requires ValidIdentifier(product) && ValidIdentifier(client) && ValidServiceType(serviceType)
    requires Passes(sub, product, client)
    ensures Covers(sub, product, client, serviceType)
  {
    OpenSubCovers(sub, product, client, "property", serviceType);
  }

  lemma ListDecides(subs: seq<string>, product: string, client: string, serviceType: string)
    requires ValidIdentifier(product) && ValidIdentifier(client) && ValidServiceType(serviceType)
    ensures PassesOpenly(subs, product, client) ==> Gate(subs, product, client, serviceType)
    ensures !PassesOpenly(subs, product, client) ==>
              (Gate(subs, product, client, serviceType) <==> Named(subs, product, client, serviceType))
  {
    if i :| 0 <= i < |subs| && Passes(subs[i], product, client) {
      PassingSubCovers(subs[i], product, client, serviceType);
    } else if i :| 0 <= i < |subs| && Covers(subs[i], product, client, serviceType) {
      if OpenAtServiceType(Levels(subs[i])) {
        OpenSubPasses(subs[i], product, client, serviceType);
      } else {
        ClosedSubNames(subs[i], product, client, serviceType);
      }
    }
  }

  /** The webhooks test only the property topic before they drain every service type. For
      every list of subscriptions this is enough exactly when one that passes the test leaves
      its service-type level open, or the list names every valid service type one by one. */
  lemma PropertyGateSuffices(subs: seq<string>, product: string, client: string)
    requires ValidIdentifier(product) && ValidIdentifier(client)
    ensures (forall serviceType | ValidServiceType(serviceType) :: Gate(subs, product, client, serviceType))
            <==> || PassesOpenly(subs, product, client)
                 || forall serviceType | ValidServiceType(serviceType) :: Named(subs, product, client, serviceType)
  {
    forall serviceType | ValidServiceType(serviceType)
      ensures PassesOpenly(subs, product, client) ==> Gate(subs, product, client, serviceType)
      ensures !PassesOpenly(subs, product, client) ==>
                (Gate(subs, product, client, serviceType) <==> Named(subs, product, client, serviceType))
    {
      ListDecides(subs, product, client, serviceType);
    }
  }

  // ----- A short list cannot name every service type ------------------------------------------------

  function XName(n: nat): string { seq(n, _ => 'x') }

  lemma {:induction false} FreshLength(used: set<int>, n: nat) returns (k: int)
    requires |used| < n
    ensures 1 <= k <= n && k !in used
  {
    if n in used { k := FreshLength(used - {n}, n - 1); } else { k := n; }
  }

  /** The lengths of the service types that the list names. */
  function NamedLengths(subs: seq<string>): (lengths: set<int>)
    ensures |lengths| <= |subs|
    ensures forall i | 0 <= i < |subs| && |Levels(subs[i])| > 4 :: |Levels(subs[i])[4]| in lengths
  {
    if subs == [] then {}
    else
      var n := |subs| - 1;
      var fs := Levels(subs[n]);
      NamedLengths(subs[..n]) + (if |fs| > 4 then {|fs[4]|} else {})
  }

  /** A device with fewer than 32 subscriptions, of which all that pass the test are closed,
      passes it and misses the commands of some service type: the usual failing case is a
      device that subscribed to its property topic alone. */
  lemma ClosedListMisses(subs: seq<string>, product: string, client: string)
    requires ValidIdentifier(product) && ValidIdentifier(client)
    requires |subs| < MAX_SERVICE_TYPE_LENGTH && !PassesOpenly(subs, product, client)
    ensures exists serviceType :: ValidServiceType(serviceType) && !Gate(subs, product, client, serviceType)
  {
    var n := FreshLength(NamedLengths(subs), MAX_SERVICE_TYPE_LENGTH);
    var serviceType := XName(n);
    assert ValidServiceType(serviceType);
    ListDecides(subs, product, client, serviceType);
  }
}
