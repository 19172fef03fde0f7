/** The access-control check of a device, and how it composes with filter matching. */
module Acl {
  import opened Text
  import opened Identifiers
  import opened Topics

  /** Strips one leading slash, as OTA topics are published with one. */
  function StripSlash(topic: string): string {
    if topic != "" && topic[0] == '/' then topic[1..] else topic
  }

  predicate AllowedFamily(p2: string, p3: string) {
    || (p2 == "thing" && (p3 == "event" || p3 == "service" || p3 == "file" || p3 == "factory-metadata"))
    || (p2 == "ota" && (p3 == "upgrade" || p3 == "version"))
  }

  predicate AllowedLevels(parts: seq<string>, username: string, client: string) {
    |parts| >= 4 && parts[1] == client && parts[0] == username && AllowedFamily(parts[2], parts[3])
  }

  /** `acl`: true is "allow". */
  predicate Allows(username: Option<string>, client: string, topic: string) {
    username.Some? && AllowedLevels(Levels(StripSlash(topic)), username.value, client)
  }

  /** Exactly which topics a device may use: with or without a leading slash, those that begin
      with its two names and one of six families. */
  lemma AllowsExactlyWhen(username: string, client: string, topic: string)
    ensures Allows(Some(username), client, topic) <==>
            var parts := Levels(StripSlash(topic));
            |parts| >= 4 && parts[..4] in {[username, client, "thing", "event"], [username, client, "thing", "service"],
                                           [username, client, "thing", "file"],
                                           [username, client, "thing", "factory-metadata"],
                                           [username, client, "ota", "upgrade"], [username, client, "ota", "version"]}
    ensures !Allows(None, client, topic)
    ensures StripSlash("/" + topic) == topic && (topic == "" || topic[0] != '/' ==> StripSlash(topic) == topic)
  {
    var parts := Levels(StripSlash(topic));
    if |parts| >= 4 {
      var four := parts[..4];
      assert four == [parts[0], parts[1], parts[2], parts[3]];
    }
  }

  predicate IsWildcard(s: string) { s == "+" || s == "#" }

  /** A leading slash is one empty first level. */
  lemma SlashLevels(topic: string)
    ensures Levels(topic) == if topic != "" && topic[0] == '/' then [""] + Levels(StripSlash(topic))
                             else Levels(StripSlash(topic))
    ensures (topic != "" && topic[0] == '/') || topic == "" || Levels(topic)[0] != ""
  {
  }

  lemma FirstLevelsKept(fs: seq<string>, ts: seq<string>, username: string, client: string)
    requires AllowedLevels(fs, username, client) && Matches(fs, ts)
    requires !IsWildcard(username) && !IsWildcard(client)
    ensures AllowedLevels(ts, username, client)
  {
    assert fs[2] != "+" && fs[3] != "+" && fs[2] != "#" && fs[3] != "#";
    assert FirstHash(fs) >= 4;
    assert forall i | 0 <= i < 4 :: LevelMatches(fs[i], ts[i]);
  }

  lemma MatchesBelow(fs: seq<string>, ts: seq<string>)
    requires Matches([""] + fs, ts)
    ensures ts != [] && ts[0] == "" && Matches(fs, ts[1..])
  {
    assert ([""] + fs)[1..] == fs;
    assert FirstHash([""] + fs) == 1 + FirstHash(fs);
    assert LevelMatches(([""] + fs)[0], ts[0]);
    forall i | 0 <= i < FirstHash(fs) ensures LevelMatches(fs[i], ts[1..][i]) {
      assert LevelMatches(([""] + fs)[i + 1], ts[i + 1]);
    }
  }

  /** Whatever an allowed filter matches is allowed too, with or without a leading
      slash on either side. */
  lemma ClosedUnderMatching(username: Option<string>, client: string, filter: string, topic: string)
    requires username.Some? ==> !IsWildcard(username.value)
    requires !IsWildcard(client)
    requires Allows(username, client, filter) && TopicMatches(filter, topic)
    ensures Allows(username, client, topic)
  {
    SlashLevels(filter);
    SlashLevels(topic);
    var fs, ts := Levels(StripSlash(filter)), Levels(topic);
    if filter[0] == '/' {
      MatchesBelow(fs, ts);
      assert topic != "";
      assert ts[1..] == Levels(StripSlash(topic));
      FirstLevelsKept(fs, ts[1..], username.value, client);
    } else {
      FirstLevelsKept(fs, ts, username.value, client);
      assert ts[0] == username.value == fs[0] != "";
    }
  }

  lemma SlashedAllowed(parts: seq<string>, username: string, client: string)
    requires |parts| == 4 && forall i | 0 <= i < 4 :: '/' !in parts[i]
    ensures var topic := "/" + Join(parts, '/');
            && Levels(topic) == [""] + parts
            && (Allows(Some(username), client, topic) <==> AllowedLevels(parts, username, client))
  {
    var topic := "/" + Join(parts, '/');
    SplitJoin(parts, '/');
    assert StripSlash(topic) == Join(parts, '/');
    SlashLevels(topic);
  }

  /** With a wildcard name, an allowed filter matches a topic of another name. */
  lemma WildcardLeaks(username: string, client: string, parts: seq<string>, other: seq<string>,
                      filter: string, topic: string)
    requires IsWildcard(username) || IsWildcard(client)
    requires parts == [username, client, "thing", "event"]
    requires other == [if IsWildcard(username) then "x" else username,
                       if IsWildcard(client) then "x" else client, "thing", "event"]
    requires Levels(filter) == [""] + parts && Levels(topic) == [""] + other
    requires Allows(Some(username), client, filter) <==> AllowedLevels(parts, username, client)
    requires Allows(Some(username), client, topic) <==> AllowedLevels(other, username, client)
    ensures Allows(Some(username), client, filter) && TopicMatches(filter, topic)
    ensures !Allows(Some(username), client, topic)
  {
    WildcardMatches(username, client, [""] + parts, [""] + other);
    assert "x"[0] == 'x' && "+"[0] == '+' && "#"[0] == '#';
  }

  lemma WildcardMatches(username: string, client: string, fs: seq<string>, ts: seq<string>)
    requires fs == ["", username, client, "thing", "event"]
    requires ts == ["", if IsWildcard(username) then "x" else username,
                    if IsWildcard(client) then "x" else client, "thing", "event"]
    ensures Matches(fs, ts)
  {
    forall i | 0 <= i < FirstHash(fs) ensures LevelMatches(fs[i], ts[i]) {
      assert fs[i] != "#";
      if i == 1 || i == 2 { assert fs[i] == "+" || ts[i] == fs[i]; }
    }
  }

  /** For slash-free names, closure under matching holds exactly when neither name is
      itself a wildcard. */
  lemma ClosedExactlyWhen(username: string, client: string)
    requires '/' !in username && '/' !in client
    ensures (forall filter, topic | Allows(Some(username), client, filter) && TopicMatches(filter, topic) ::
               Allows(Some(username), client, topic))
            <==> !IsWildcard(username) && !IsWildcard(client)
  {
    if !IsWildcard(username) && !IsWildcard(client) {
      forall filter, topic | Allows(Some(username), client, filter) && TopicMatches(filter, topic)
        ensures Allows(Some(username), client, topic)
      {
        ClosedUnderMatching(Some(username), client, filter, topic);
      }
    } else {
      var parts := [username, client, "thing", "event"];
      var other := [if IsWildcard(username) then "x" else username,
                    if IsWildcard(client) then "x" else client, "thing", "event"];
      SlashedAllowed(parts, username, client);
      SlashedAllowed(other, username, client);
      WildcardLeaks(username, client, parts, other, "/" + Join(parts, '/'), "/" + Join(other, '/'));
    }
  }

  /** No topic is allowed for two different devices. */
  lemma AllowedTopicsDisjoint(u1: Option<string>, c1: string, u2: Option<string>, c2: string, topic: string)
    requires Allows(u1, c1, topic) && Allows(u2, c2, topic)
    ensures u1 == u2 && c1 == c2
  {
  }

  /** The set topics that the platform publishes for a device are allowed for that
      device and for no other. */
  lemma ServiceTopicsAllowed(product: string, device: string, serviceType: string, verb: string,
                             username: Option<string>, client: string)
    requires ValidIdentifier(product) && ValidIdentifier(device) && ValidServiceType(serviceType) && '/' !in verb
    ensures Allows(username, client, ServiceTopic(product, device, serviceType, verb))
            <==> username == Some(product) && client == device
  {
    ValidHasNoSlash(product, '/');
    ValidHasNoSlash(device, '/');
    ValidHasNoSlash(serviceType, '/');
    ServiceTopicLevels(product, device, serviceType, verb);
    var topic := ServiceTopic(product, device, serviceType, verb);
    assert topic[0] == product[0];
    assert StripSlash(topic) == topic;
  }
}
