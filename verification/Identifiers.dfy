/** Product, device and service identifiers, and the topics that carry them. */
module Identifiers {
  import opened Text

  const MAX_IDENTIFIER_LENGTH := 128
  const MAX_SERVICE_TYPE_LENGTH := 32

  predicate IdentifierChar(c: char) {
    'a' <= c <= 'z' || 'A' <= c <= 'Z' || '0' <= c <= '9' || c == '-' || c == '_'
  }

  predicate ValidIdentifier(id: string) {
    0 < |id| <= MAX_IDENTIFIER_LENGTH && forall i | 0 <= i < |id| :: IdentifierChar(id[i])
  }

  predicate ValidServiceType(id: string) {
    0 < |id| <= MAX_SERVICE_TYPE_LENGTH && forall i | 0 <= i < |id| :: IdentifierChar(id[i])
  }

  /** Length limits: one text is an identifier and a service type up to 32 bytes, an
      identifier only up to 128, and neither beyond. */
  lemma IdentifierLengths(id: string)
    requires forall i | 0 <= i < |id| :: IdentifierChar(id[i])
    ensures ValidIdentifier(id) <==> 1 <= |id| <= 128
    ensures ValidServiceType(id) <==> 1 <= |id| <= 32
  {
  }

  /** No topic separator, wildcard, key separator or placeholder character is part of one. */
  lemma NotIdentifierChars(id: string, c: char)
    requires (ValidIdentifier(id) || ValidServiceType(id)) && c in id
    ensures c !in "/+#:.${}* " && (c in "-_" || 'a' <= c <= 'z' || 'A' <= c <= 'Z' || '0' <= c <= '9')
  {
  }

  /** `trim_start_matches('/')`. */
  function TrimSlashes(s: string): (r: string)
    ensures r == "" || r[0] != '/'
  {
    if s != "" && s[0] == '/' then TrimSlashes(s[1..]) else s
  }

  function Levels(topic: string): seq<string> { Split(topic, '/') }

  function ExtractProductId(topic: string): Option<string> {
    if '/' !in topic then None
    else
      var first := Levels(TrimSlashes(topic))[0];
      if first == "" then None else Some(first)
  }

  /** `{product}/{device}/thing/service/{service_type}/..`, with or without leading slashes. */
  function ExtractServiceType(topic: string): Option<string> {
    var parts := Levels(TrimSlashes(topic));
    if |parts| >= 5 && parts[2] == "thing" && parts[3] == "service" && parts[4] != "" then Some(parts[4])
    else None
  }

  /** `{product}/{device}/thing/service/{service_type}/{verb}`. */
  function ServiceTopic(product: string, device: string, serviceType: string, verb: string): string {
    product + "/" + device + "/thing/service/" + serviceType + "/" + verb
  }

  lemma ServiceTopicLevels(product: string, device: string, serviceType: string, verb: string)
    requires '/' !in product && '/' !in device && '/' !in serviceType && '/' !in verb
    ensures Levels(ServiceTopic(product, device, serviceType, verb))
         == [product, device, "thing", "service", serviceType, verb]
  {
    var parts := [product, device, "thing", "service", serviceType, verb];
    var p1, p2, p3, p4, p5 := parts[1..], parts[2..], parts[3..], parts[4..], parts[5..];
    assert p1[1..] == p2 && p2[1..] == p3 && p3[1..] == p4 && p4[1..] == p5;
    calc {
      Join(parts, '/');
      product + ['/'] + Join(p1, '/');
      product + ['/'] + (device + ['/'] + Join(p2, '/'));
      { assert Join(p2, '/') == "thing" + ['/'] + ("service" + ['/'] + Join(p4, '/')); }
      product + "/" + (device + "/" + ("thing" + "/" + ("service" + "/" + Join(p4, '/'))));
      { assert Join(p4, '/') == serviceType + "/" + verb; }
      product + "/" + (device + "/" + ("thing" + "/" + ("service" + "/" + (serviceType + "/" + verb))));
      ServiceTopic(product, device, serviceType, verb);
    }
    SplitJoin(parts, '/');
  }

  /** Both extractors recover the parts of a service topic. */
  lemma ServiceTopicParts(product: string, device: string, serviceType: string, verb: string)
    requires ValidIdentifier(product) && ValidIdentifier(device) && ValidServiceType(serviceType) && '/' !in verb
    ensures ExtractProductId(ServiceTopic(product, device, serviceType, verb)) == Some(product)
    ensures ExtractServiceType(ServiceTopic(product, device, serviceType, verb)) == Some(serviceType)
  {
    var topic := ServiceTopic(product, device, serviceType, verb);
    ValidHasNoSlash(product, '/');
    ValidHasNoSlash(device, '/');
    ValidHasNoSlash(serviceType, '/');
    ServiceTopicLevels(product, device, serviceType, verb);
    assert topic[0] == product[0] && topic[|product|] == '/';
    assert TrimSlashes(topic) == topic;
  }

  /** Any number of leading slashes is ignored by both extractors. */
  lemma LeadingSlashIgnored(topic: string)
    requires '/' in topic
    ensures ExtractProductId("/" + topic) == ExtractProductId(topic)
    ensures ExtractServiceType("/" + topic) == ExtractServiceType(topic)
  {
    assert ("/" + topic)[1..] == topic;
  }

  lemma ValidHasNoSlash(id: string, c: char)
    requires ValidIdentifier(id) || ValidServiceType(id)
    requires !IdentifierChar(c)
    ensures c !in id
  {
  }
}
