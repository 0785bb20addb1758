/** Topic routing of `MqttService`: the registry of topic listeners keyed by `topicFilter + topic`,
    the delivery of an inbound message to every listener whose key matches its topic, and the
    prefixing of outbound topics. The broker connection, the subscription handshake and the
    asynchronous publish are not modelled; `connected` stands for the outcome of `connect()`. */
module TopicRouting {
  import Text

  /** `topic.matches(key.replace("#", ".*"))` for a key in which `#` is the only pattern
      character: each `#` stands for any run of characters and the whole topic must match. */
  predicate Matches(key: string, topic: string)
    decreases |key| + |topic|
  {
    if key == [] then topic == []
    else if key[0] == '#' then Matches(key[1..], topic) || (topic != [] && Matches(key, topic[1..]))
    else topic != [] && topic[0] == key[0] && Matches(key[1..], topic[1..])
  }

  /** A key without `#` matches only the identical topic. */
  lemma {:induction false} LiteralKeyMatchesOnlyItself(key: string, topic: string)
    requires '#' !in key
    ensures Matches(key, topic) <==> key == topic
  {
    if key != [] && topic != [] {
      assert '#' !in key[1..] by {
        assert forall c :: c in key[1..] ==> c in key;
      }
      LiteralKeyMatchesOnlyItself(key[1..], topic[1..]);
      assert key == [key[0]] + key[1..] && topic == [topic[0]] + topic[1..];
    }
  }

  /** A lone `#` matches every topic. */
  lemma {:induction false} HashMatchesEverything(topic: string)
    ensures Matches("#", topic)
    decreases |topic|
  {
    if topic != [] {
      HashMatchesEverything(topic[1..]);
    }
  }

  /** A key `prefix + "#"` matches exactly the topics that start with the prefix. */
  lemma {:induction false} TrailingHashMatchesPrefix(prefix: string, topic: string)
    requires '#' !in prefix
    ensures Matches(prefix + "#", topic) <==> Text.StartsWith(topic, prefix)
  {
    if prefix == [] {
      assert prefix + "#" == "#";
      HashMatchesEverything(topic);
    } else {
      assert (prefix + "#")[0] == prefix[0] && (prefix + "#")[1..] == prefix[1..] + "#";
      assert '#' !in prefix[1..] by {
        assert forall c :: c in prefix[1..] ==> c in prefix;
      }
      if topic != [] {
        TrailingHashMatchesPrefix(prefix[1..], topic[1..]);
      }
    }
  }

  /** Whatever follows it, a `#`-free start of a key must start every topic the key matches. */
  lemma {:induction false} MatchKeepsLiteralStart(start: string, rest: string, topic: string)
    requires '#' !in start && Matches(start + rest, topic)
    ensures Text.StartsWith(topic, start)
  {
    if start != [] {
      assert (start + rest)[0] == start[0] && (start + rest)[1..] == start[1..] + rest;
      assert '#' !in start[1..] by {
        assert forall c :: c in start[1..] ==> c in start;
      }
      MatchKeepsLiteralStart(start[1..], rest, topic[1..]);
    }
  }

  /** The same for every topic at once. */
  lemma TrailingHashSelectsPrefixes(prefix: string)
    requires '#' !in prefix
    ensures forall topic :: Matches(prefix + "#", topic) <==> Text.StartsWith(topic, prefix)
  {
    forall topic ensures Matches(prefix + "#", topic) <==> Text.StartsWith(topic, prefix) {
      TrailingHashMatchesPrefix(prefix, topic);
    }
  }

  datatype Message = Message(topic: string, payload: string)

  /** One `listener.onMessage(topicName, payload)` call. */
  datatype Delivery = Delivery(listener: object, topicName: string, payload: string)

  /** The calls `handleMessage` makes for one inbound message, keyed by registry key: every
      matching listener receives the topic with all occurrences of the filter removed. */
  function Route(listeners: map<string, object>, topicFilter: string, topic: string, payload: string): (d: map<string, Delivery>)
    ensures d.Keys <= listeners.Keys
    ensures forall key :: key in d ==> d[key].listener == listeners[key] && d[key].payload == payload
  {
    map key | key in listeners && Matches(key, topic) :: Delivery(listeners[key], Text.RemoveAll(topic, topicFilter), payload)
  }

  /** A listener under a key without `#` is called for its identical topic and no other; one
      under `p + "#"` for exactly the topics starting with `p`. */
  lemma RouteSelectsByKey(listeners: map<string, object>, topicFilter: string, topic: string, payload: string, key: string)
    requires key in listeners
    ensures '#' !in key ==> (key in Route(listeners, topicFilter, topic, payload) <==> key == topic)
    ensures forall p :: key == p + "#" && '#' !in p ==>
              (key in Route(listeners, topicFilter, topic, payload) <==> Text.StartsWith(topic, p))
  {
    if '#' !in key {
      LiteralKeyMatchesOnlyItself(key, topic);
    }
    forall p | key == p + "#" && '#' !in p
      ensures key in Route(listeners, topicFilter, topic, payload) <==> Text.StartsWith(topic, p)
    {
      TrailingHashMatchesPrefix(p, topic);
    }
  }

  /** When every key starts with the filter and the filter has no `#`, only topics under the broker subscription
      `topicFilter + "#"` reach a listener. */
  lemma RouteStaysInSubscription(listeners: map<string, object>, topicFilter: string, topic: string, payload: string)
    requires forall key :: key in listeners ==> Text.StartsWith(key, topicFilter)
    ensures '#' !in topicFilter && Route(listeners, topicFilter, topic, payload) != map[] ==>
              Matches(topicFilter + "#", topic)
  {
    var d := Route(listeners, topicFilter, topic, payload);
    if '#' !in topicFilter && d != map[] {
      var key :| key in d;
      assert key == topicFilter + key[|topicFilter|..];
      MatchKeepsLiteralStart(topicFilter, key[|topicFilter|..], topic);
      TrailingHashMatchesPrefix(topicFilter, topic);
    }
  }

  /** A topic that holds the filter once, at its start, is delivered as the part after it. */
  lemma RouteStripsLeadingFilter(listeners: map<string, object>, topicFilter: string, rest: string, payload: string)
    requires |topicFilter| > 0 && !Text.Contains(rest, topicFilter)
    ensures forall key :: key in Route(listeners, topicFilter, topicFilter + rest, payload) ==>
              Route(listeners, topicFilter, topicFilter + rest, payload)[key].topicName == rest
  {
    Text.RemoveAllLeading(topicFilter, rest);
  }

  /** Every occurrence of the filter is removed, not only the leading one: with filter "z/" the
      topic "z/a/z/b" is delivered as "a/b". */
  lemma RouteStripsEveryOccurrence(listeners: map<string, object>, payload: string)
    ensures forall key :: key in Route(listeners, "z/", "z/a/z/b", payload) ==>
              Route(listeners, "z/", "z/a/z/b", payload)[key].topicName == "a/b"
  {
    assert Text.RemoveAll("b", "z/") == "b";
    assert Text.RemoveAll("z/b", "z/") == "b" by {
      assert "z/b"[2..] == "b";
    }
    assert Text.RemoveAll("/z/b", "z/") == "/b" by {
      assert "/z/b"[1..] == "z/b";
    }
    assert Text.RemoveAll("a/z/b", "z/") == "a/b" by {
      assert "a/z/b"[1..] == "/z/b";
    }
    assert Text.RemoveAll("z/a/z/b", "z/") == "a/b" by {
      assert "z/a/z/b"[2..] == "a/z/b";
    }
  }

  class MqttService {
    const topicFilter: string
    const connected: bool
    var topicListeners: map<string, object>
    var published: seq<Message>

    /** Every registered key was built by `addTopicListener`, so it starts with the filter. */
    ghost predicate Valid()
      reads this
    {
      forall key :: key in topicListeners ==> Text.StartsWith(key, topicFilter)
    }

    constructor (topicFilter: string, connected: bool)
      ensures Valid()
      ensures this.topicFilter == topicFilter && this.connected == connected
      ensures topicListeners == map[] && published == []
    {
      this.topicFilter := topicFilter;
      this.connected := connected;
      topicListeners := map[];
      published := [];
    }

    /** `addTopicListener`: the key `topicFilter + topic` now maps to the listener, replacing any
        earlier one; no other key changes. */
    method AddTopicListener(topic: string, listener: object)
      requires Valid()
      modifies this`topicListeners
      ensures Valid()
      ensures topicListeners == old(topicListeners)[topicFilter + topic := listener]
    {
      topicListeners := topicListeners[topicFilter + topic := listener];
    }

    /** `removeTopicListener`: only the key `topicFilter + topic` goes. */
    method RemoveTopicListener(topic: string)
      requires Valid()
      modifies this`topicListeners
      ensures Valid()
      ensures topicListeners == old(topicListeners) - {topicFilter + topic}
    {
      topicListeners := topicListeners - {topicFilter + topic};
    }

    /** The broker subscription made on connecting: everything under the filter. */
    function SubscriptionFilter(): (f: string)
      ensures '#' !in topicFilter ==> forall topic :: Matches(f, topic) <==> Text.StartsWith(topic, topicFilter)
    {
      if '#' in topicFilter then topicFilter + "#"
      else
        TrailingHashSelectsPrefixes(topicFilter);
        topicFilter + "#"
    }

    /** `handleMessage`: the listener calls one inbound message causes. */
    function HandleMessage(topic: string, payload: string): (d: map<string, Delivery>)
      requires Valid()
      reads this
      ensures '#' !in topicFilter && d != map[] ==> Matches(SubscriptionFilter(), topic)
    {
      RouteStaysInSubscription(topicListeners, topicFilter, topic, payload);
      Route(topicListeners, topicFilter, topic, payload)
    }

    /** `sendCommand`: once connected, the command is published under `topicFilter + topicName`;
        when the connection failed nothing is published. */
    method SendCommand(topicName: string, command: string)
      modifies this`published
      ensures published == old(published) + if connected then [Message(topicFilter + topicName, command)] else []
    {
      if connected {
        published := published + [Message(topicFilter + topicName, command)];
      }
    }
  }
}
