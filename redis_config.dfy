/** The connection policy of the test service's Redis client
    (backend/services/test-service/src/config/redis.ts): which topology is
    used, how the cluster node list is read, and when reconnecting stops. */
module RedisConfig {
  import opened Wrappers
  import opened JsText

  /** `REDIS_MODE`, as the environment schema admits it. */
  datatype RedisMode = StandaloneMode | ClusterMode

  /** One `{ host, port }` entry handed to the cluster client; a port of
      None is the NaN that `parseInt` yields for a missing or non-numeric
      port. */
  datatype ClusterNode = ClusterNode(host: string, port: Option<int>)

  /** The client the module builds: standalone on `REDIS_URL`, or a cluster
      client on the parsed node list. */
  datatype Connection = Standalone(url: string) | Cluster(nodes: seq<ClusterNode>)

  /** Reconnect attempts after which the client gives up. */
  const MaxRetryAttempts := 5
  /** Back-off per attempt, in milliseconds. */
  const RetryStepMs := 200
  /** Upper bound on one back-off delay, in milliseconds. */
  const MaxRetryDelayMs := 2000
  /** Options given to both clients alike. */
  const MaxRetriesPerRequest := 3
  const ConnectTimeoutMs := 10000

  /** The reconnect rule handed to the client as `retryStrategy` (standalone)
      or `clusterRetryStrategy` (cluster): None means stop retrying, otherwise
      the delay in milliseconds before attempt number `times`. */
  function RetryStrategy(connection: Connection, times: int): (delay: Option<int>)
    ensures delay.None? <==> times > MaxRetryAttempts
    ensures delay.Some? ==> delay.value == times * RetryStepMs <= MaxRetryAttempts * RetryStepMs
  {
    match connection
    case Cluster(_) =>
      if times > MaxRetryAttempts then None else Some(Min(times * RetryStepMs, MaxRetryDelayMs))
    case Standalone(_) =>
      if times > MaxRetryAttempts then None else Some(Min(times * RetryStepMs, MaxRetryDelayMs))
  }

  /** Every delay the rule hands out respects the 2000 ms cap, and for the
      attempts the client actually makes (1 to 5) it is positive. */
  lemma RetryDelayBounded(connection: Connection, times: int)
    requires RetryStrategy(connection, times).Some?
    ensures RetryStrategy(connection, times).value <= MaxRetryDelayMs
    ensures times >= 1 ==> RetryStrategy(connection, times).value >= RetryStepMs
  {
  }

  /** Both topologies follow the identical reconnect policy. */
  lemma RetryPolicyIndependentOfTopology(url: string, nodes: seq<ClusterNode>, times: int)
    ensures RetryStrategy(Standalone(url), times) == RetryStrategy(Cluster(nodes), times)
  {
  }

  /** One entry of `REDIS_CLUSTER_NODES`: trimmed, then split on ':'; the
      host is the text before the first ':', the port the base-10 `parseInt`
      of the text between the first and any second ':' (NaN when absent). */
  function ParseNode(entry: string): (node: ClusterNode)
    ensures ':' !in node.host
  {
    var parts := Split(Trim(entry), ':');
    ClusterNode(parts[0], if |parts| > 1 then ParseInt(parts[1], false) else None)
  }

  /** `REDIS_CLUSTER_NODES.split(',').map(...)`: one node per entry. */
  function ParseClusterNodes(list: string): (nodes: seq<ClusterNode>)
    ensures |nodes| == Count(list, ',') + 1
  {
    var entries := Split(list, ',');
    SplitCount(list, ',');
    seq(|entries|, i requires 0 <= i < |entries| => ParseNode(entries[i]))
  }

  /** The topology chosen at start-up: the cluster client exactly when the
      mode is 'cluster' and the node list is non-empty, the standalone client
      on `REDIS_URL` in every other case. */
  function SelectConnection(mode: RedisMode, clusterNodes: string, url: string): (c: Connection)
    ensures c.Cluster? <==> mode == ClusterMode && clusterNodes != ""
    ensures c.Standalone? ==> c.url == url
    ensures c.Cluster? ==> |c.nodes| == Count(clusterNodes, ',') + 1
  {
    if mode == ClusterMode && clusterNodes != "" then Cluster(ParseClusterNodes(clusterNodes))
    else Standalone(url)
  }

  /** A well-formed host: no ':' in it and no whitespace in front. */
  predicate WellFormedHost(host: string) {
    ':' !in host && (host == [] || !IsWhitespace(host[0]))
  }

  /** The text of one node as an operator writes it. */
  function NodeText(host: string, port: nat): string {
    host + ":" + NatToDecimal(port)
  }

  lemma DigitsHaveNo(digits: string, c: char)
    requires AllDigits(digits) && !IsDigit(c)
    ensures c !in digits
  {
    forall i | 0 <= i < |digits|
      ensures digits[i] != c
    {
      assert IsDigit(digits[i]);
    }
  }

  lemma NodeTextTrimmed(host: string, port: nat)
    requires WellFormedHost(host)
    ensures Trimmed(NodeText(host, port))
  {
    var digits := NatToDecimal(port);
    var text := NodeText(host, port);
    if host == [] {
      assert text[0] == ':';
    } else {
      assert text[0] == host[0];
    }
    assert text[|text| - 1] == digits[|digits| - 1];
    assert IsDigit(digits[|digits| - 1]);
  }

  lemma NodeTextSplit(host: string, port: nat)
    requires ':' !in host
    ensures Split(NodeText(host, port), ':') == [host, NatToDecimal(port)]
  {
    var digits := NatToDecimal(port);
    assert NodeText(host, port) == Join([host, digits], ':');
    DigitsHaveNo(digits, ':');
    SplitJoin([host, digits], ':');
  }

  /** A node written as `host:port`, with any whitespace around it, parses
      back to that host and port. */
  lemma ParseNodeText(lead: string, host: string, port: nat, trail: string)
    requires AllWhitespace(lead) && AllWhitespace(trail)
    requires WellFormedHost(host)
    ensures ParseNode(lead + NodeText(host, port) + trail) == ClusterNode(host, Some(port))
  {
    var digits := NatToDecimal(port);
    var text := NodeText(host, port);
    var entry := lead + text + trail;
    assert Trim(entry) == text by {
      NodeTextTrimmed(host, port);
      TrimPadded(lead, text, trail);
    }
    assert Split(text, ':') == [host, digits] by {
      NodeTextSplit(host, port);
    }
    assert ParseInt(digits, false) == Some(port) by {
      ParseIntDecimal([], port, [], false);
      assert [] + digits + [] == digits;
    }
    ParseNodeParts(entry, host, digits, port);
  }

  lemma ParseNodeParts(entry: string, host: string, digits: string, port: int)
    requires Split(Trim(entry), ':') == [host, digits]
    requires ParseInt(digits, false) == Some(port)
    ensures ParseNode(entry) == ClusterNode(host, Some(port))
  {
  }

  lemma NodeTextNoComma(host: string, port: nat)
    requires ',' !in host
    ensures ',' !in NodeText(host, port)
  {
    var digits := NatToDecimal(port);
    DigitsHaveNo(digits, ',');
    assert NodeText(host, port) == host + (":" + digits);
  }

  /** Parsing a join of comma-free entries parses each entry on its own. */
  lemma ParseJoinedEntries(entries: seq<string>)
    requires |entries| >= 1
    requires forall i :: 0 <= i < |entries| ==> ',' !in entries[i]
    ensures var nodes := ParseClusterNodes(Join(entries, ','));
            |nodes| == |entries| &&
            forall i :: 0 <= i < |entries| ==> nodes[i] == ParseNode(entries[i])
  {
    SplitJoin(entries, ',');
  }

  /** A node list written as `host1:port1,host2:port2,...` parses to exactly
      those nodes, in order. */
  lemma ParseNodeList(hosts: seq<string>, ports: seq<nat>)
    requires |hosts| == |ports| >= 1
    requires forall i :: 0 <= i < |hosts| ==> WellFormedHost(hosts[i]) && ',' !in hosts[i]
    ensures var nodes := ParseClusterNodes(Join(NodeTexts(hosts, ports), ','));
            |nodes| == |hosts| &&
            forall i :: 0 <= i < |hosts| ==> nodes[i] == ClusterNode(hosts[i], Some(ports[i]))
  {
    var texts := NodeTexts(hosts, ports);
    forall i | 0 <= i < |texts|
      ensures ',' !in texts[i]
    {
      NodeTextNoComma(hosts[i], ports[i]);
    }
    ParseJoinedEntries(texts);
    forall i | 0 <= i < |texts|
      ensures ParseNode(texts[i]) == ClusterNode(hosts[i], Some(ports[i]))
    {
      ParseBareNodeText(hosts[i], ports[i]);
    }
  }

  lemma ParseBareNodeText(host: string, port: nat)
    requires WellFormedHost(host)
    ensures ParseNode(NodeText(host, port)) == ClusterNode(host, Some(port))
  {
    ParseNodeText([], host, port, []);
    assert [] + NodeText(host, port) + [] == NodeText(host, port);
  }

  function NodeTexts(hosts: seq<string>, ports: seq<nat>): (texts: seq<string>)
    requires |hosts| == |ports|
    ensures |texts| == |hosts|
    ensures forall i :: 0 <= i < |hosts| ==> texts[i] == NodeText(hosts[i], ports[i])
  {
    seq(|hosts|, i requires 0 <= i < |hosts| => NodeText(hosts[i], ports[i]))
  }

  /** A trailing comma in the list adds a node with an empty host and a NaN
      port. */
  lemma TrailingCommaNode(list: string)
    ensures var nodes := ParseClusterNodes(list + ",");
            nodes[|nodes| - 1] == ClusterNode("", None)
  {
    var s := list + ",";
    var parts := Split(s, ',');
    LastPieceOfTrailingSeparator(list, ',');
    var nodes := ParseClusterNodes(s);
    assert |nodes| == |parts|;
    assert nodes[|nodes| - 1] == ParseNode(parts[|parts| - 1]);
    EmptyNode();
  }

  /** An empty entry is a node with an empty host and a NaN port. */
  lemma EmptyNode()
    ensures ParseNode("") == ClusterNode("", None)
  {
    assert TrimStart("") == "";
    assert Trim("") == "";
    assert Split("", ':') == [""];
  }

  lemma {:induction false} LastPieceOfTrailingSeparator(s: string, sep: char)
    ensures var parts := Split(s + [sep], sep); parts[|parts| - 1] == ""
    decreases |s|
  {
    var t := s + [sep];
    var i := IndexOf(t, sep);
    var rest := t[i + 1..];
    var parts, tail := Split(t, sep), Split(rest, sep);
    assert parts == [t[..i]] + tail;
    assert parts[|parts| - 1] == tail[|tail| - 1];
    if i == |s| {
      assert rest == [];
    } else {
      assert s[i] == sep;
      assert rest == s[i + 1..] + [sep];
      LastPieceOfTrailingSeparator(s[i + 1..], sep);
    }
  }
}
