/** The command layer of the resistance network: the id validator and the
    decisions `processCommand` takes before and after it calls into the
    graph. A command arrives as its whitespace-separated tokens; the integer
    parser is a parameter (`None` where `Integer.parseInt` throws), and the
    report it writes is the `Outcome` it chose. */
module Commands {
  import opened Lang
  import opened Nodes
  import opened Backdoors
  import opened Graphs

  /** A character the pattern `[A-Z0-9_]` admits. */
  predicate IdChar(c: char)
  {
    'A' <= c <= 'Z' || '0' <= c <= '9' || c == '_'
  }

  /** `isAllowed(str)`: `str` matches `[A-Z0-9_]+`, read as a matcher that
      takes one admitted character and then stops or goes on. */
  predicate IsAllowed(s: string): (allowed: bool)
    ensures allowed ==> |s| > 0 && forall i | 0 <= i < |s| :: IdChar(s[i])
  {
    |s| > 0 && IdChar(s[0]) && (|s| == 1 || IsAllowed(s[1..]))
  }

  /** An allowed id is a non-empty run of upper-case letters, digits and
      underscores, and every such run is allowed. */
  lemma {:induction false} IsAllowedIff(s: string)
    ensures IsAllowed(s) <==> |s| > 0 && forall i | 0 <= i < |s| :: IdChar(s[i])
    decreases |s|
  {
    if |s| > 1 {
      IsAllowedIff(s[1..]);
      if forall i | 0 <= i < |s| :: IdChar(s[i]) {
        assert forall i | 0 <= i < |s| - 1 :: IdChar(s[1..][i]);
      }
      if IsAllowed(s) {
        forall i | 0 <= i < |s|
          ensures IdChar(s[i])
        {
          if i > 0 {
            assert s[i] == s[1..][i - 1];
          }
        }
      }
    }
  }

  /** Two allowed ids joined make an allowed id. */
  lemma {:induction false} IsAllowedJoin(a: string, b: string)
    requires IsAllowed(a) && IsAllowed(b)
    ensures IsAllowed(a + b)
  {
    IsAllowedIff(a);
    IsAllowedIff(b);
    IsAllowedIff(a + b);
    assert forall i | 0 <= i < |a + b| :: IdChar((a + b)[i]) by {
      forall i | 0 <= i < |a + b|
        ensures IdChar((a + b)[i])
      {
        if i >= |a| {
          assert (a + b)[i] == b[i - |a|];
        }
      }
    }
  }

  /** An id holding a character outside `[A-Z0-9_]` (a lower-case letter, a
      dash) is refused wherever that character stands. */
  lemma {:induction false} IsAllowedRefuses(s: string, i: int)
    requires 0 <= i < |s| && !IdChar(s[i])
    ensures !IsAllowed(s)
  {
    IsAllowedIff(s);
  }

  /** The line `processCommand` writes for a command. */
  datatype Outcome =
    | SpawnError
    | Spawned(id: string, clearanceLevel: int)
    | LinkError
    | Linked(fromId: string, toId: string, latency: int, bandwidth: int, firewall: int)
    | SealError
    | Sealed(id1: string, id2: string)
    | Unsealed(id1: string, id2: string)
    | Scanned(connectivity: Connectivity)
    | HostBreached(host: HostBreach)
    | BackdoorBreached(backdoor: BackdoorBreach)
    | Omitted(operation: string)
    | UnknownCommand(operation: string)
    | ProcessingError

  /** What of a graph the commands read and change. */
  datatype View = View(nodes: seq<Node>, table: map<string, Node>, count: int,
                       links: seq<seq<Link>>, seals: seq<seq<Link>>)

  ghost function ViewOf(graph: Graph): View
    reads graph
  {
    View(graph.nodes, graph.nodeTable, graph.indexnumber, graph.links, graph.seals)
  }

  /** Both ids name hosts of the view. */
  ghost predicate Known(v: View, a: string, b: string)
  {
    a in v.table && b in v.table && |v.seals| == |v.links| &&
    0 <= v.table[a].index < |v.links| && 0 <= v.table[b].index < |v.links|
  }

  /** `spawn_host <id> <clearance>`: a missing token or an unparsable
      clearance is a processing error; an id `isAllowed` refuses, or one
      already taken, is reported without a change; otherwise the host is
      added with no backdoors. */
  ghost predicate SpawnsHost(parts: seq<string>, parse: string -> Option<int>, v0: View, v1: View, o: Outcome)
  {
    if |parts| < 2 then o == ProcessingError && v1 == v0
    else if !IsAllowed(parts[1]) then o == SpawnError && v1 == v0
    else if |parts| < 3 || parse(parts[2]).None? then o == ProcessingError && v1 == v0
    else if parts[1] in v0.table then o == SpawnError && v1 == v0
    else
      o == Spawned(parts[1], parse(parts[2]).value) &&
      v1.table.Keys == v0.table.Keys + {parts[1]} && v1.count == v0.count + 1 &&
      v1.table[parts[1]].index == v0.count && v1.table[parts[1]].clearanceLevel == parse(parts[2]).value &&
      v1.links == v0.links + [[]] && v1.seals == v0.seals + [[]]
  }

  /** `link_backdoor <from> <to> <latency> <bandwidth> <firewall>`: a link
      both ways between two known hosts with no backdoor, sealed or not,
      between them; anything else is reported without a change. */
  ghost predicate LinksBackdoor(parts: seq<string>, parse: string -> Option<int>, v0: View, v1: View, o: Outcome)
  {
    if |parts| < 6 || parse(parts[3]).None? || parse(parts[4]).None? || parse(parts[5]).None? then
      o == ProcessingError && v1 == v0
    else if Known(v0, parts[1], parts[2]) &&
            !HasTo(v0.links[v0.table[parts[1]].index], v0.table[parts[2]].index) &&
            !HasTo(v0.seals[v0.table[parts[1]].index], v0.table[parts[2]].index) then
      var latency, bandwidth, firewall := parse(parts[3]).value, parse(parts[4]).value, parse(parts[5]).value;
      o == Linked(parts[1], parts[2], latency, bandwidth, firewall) &&
      v1 == v0.(links := Connect(v0.links, v0.table[parts[1]].index, v0.table[parts[2]].index,
                                 latency, bandwidth, firewall))
    else
      o == LinkError && v1 == v0
  }

  /** `seal_backdoor <id1> <id2>`: result code 0 of `sealNode` is an error
      with no change, 1 a sealed backdoor and 2 an unsealed one. */
  ghost predicate SealsBackdoor(parts: seq<string>, v0: View, v1: View, o: Outcome)
  {
    if |parts| < 3 then o == ProcessingError && v1 == v0
    else if !Known(v0, parts[1], parts[2]) || parts[1] == parts[2] ||
            (!HasTo(v0.links[v0.table[parts[1]].index], v0.table[parts[2]].index) &&
             !HasTo(v0.seals[v0.table[parts[1]].index], v0.table[parts[2]].index)) then
      o == SealError && v1 == v0
    else
      var i, j := v0.table[parts[1]].index, v0.table[parts[2]].index;
      if HasTo(v0.links[i], j) then
        o == Sealed(parts[1], parts[2]) && HasTo(v0.links[j], i) &&
        v1 == v0.(links := Cut(v0.links, i, j), seals := Restore(v0.seals, v0.links, i, j))
      else
        o == Unsealed(parts[1], parts[2]) && HasTo(v0.seals[j], i) &&
        v1 == v0.(links := Restore(v0.links, v0.seals, i, j), seals := Cut(v0.seals, i, j))
  }

  /** `scan_connectivity`: the component count of the whole network. */
  ghost predicate ScansConnectivity(v0: View, v1: View, o: Outcome)
  {
    o.Scanned? && v1 == v0 &&
    (o.connectivity == FullyConnected <==> Components(v0.links, -1) == 1) &&
    (o.connectivity.Disconnected? ==> o.connectivity.components == Components(v0.links, -1))
  }

  /** `simulate_breach <id>` breaches a host and `simulate_breach <id1> <id2>`
      a backdoor; the network is as it was afterwards, up to the order of
      the links put back. */
  ghost predicate SimulatesBreach(parts: seq<string>, v0: View, v1: View, o: Outcome)
  {
    if |parts| == 2 then
      o.HostBreached? && v1 == v0 &&
      (o.host == HostError <==> parts[1] !in v0.table) &&
      (parts[1] in v0.table ==>
         (o.host == NotArticulation <==>
            Components(v0.links, v0.table[parts[1]].index) <= Components(v0.links, -1))) &&
      (o.host.Articulation? ==> o.host.components == Components(v0.links, v0.table[parts[1]].index))
    else if |parts| < 2 then o == ProcessingError && v1 == v0
    else
      o.BackdoorBreached? &&
      if Known(v0, parts[1], parts[2]) && HasTo(v0.links[v0.table[parts[1]].index], v0.table[parts[2]].index) then
        var i, j := v0.table[parts[1]].index, v0.table[parts[2]].index;
        HasTo(v0.links[j], i) &&
        v1 == v0.(links := Restore(Cut(v0.links, i, j), v0.links, i, j)) &&
        (o.backdoor == NotBridge <==> Components(Cut(v0.links, i, j), -1) == 1) &&
        (o.backdoor.Bridge? ==> o.backdoor.components == Components(Cut(v0.links, i, j), -1))
      else
        o.backdoor == BackdoorError && v1 == v0
  }

  /** The `spawn_host` case: `addNode` is called only for an id `isAllowed`
      admits. */
  method SpawnHost(graph: Graph, parts: seq<string>, parse: string -> Option<int>) returns (o: Outcome)
    requires graph.Valid()
    modifies graph
    ensures graph.Valid()
    ensures SpawnsHost(parts, parse, old(ViewOf(graph)), ViewOf(graph), o)
  {
    if |parts| < 2 {
      return ProcessingError;
    }
    if !IsAllowed(parts[1]) {
      return SpawnError;
    }
    if |parts| < 3 || parse(parts[2]).None? {
      return ProcessingError;
    }
    var num := parse(parts[2]).value;
    var added := graph.AddNode(parts[1], num);
    if !added {
      return SpawnError;
    }
    return Spawned(parts[1], num);
  }

  /** The `link_backdoor` case. */
  method LinkBackdoor(graph: Graph, parts: seq<string>, parse: string -> Option<int>) returns (o: Outcome)
    requires graph.Valid()
    modifies graph, graph.nodes
    ensures graph.Valid()
    ensures LinksBackdoor(parts, parse, old(ViewOf(graph)), ViewOf(graph), o)
  {
    if |parts| < 6 || parse(parts[3]).None? || parse(parts[4]).None? || parse(parts[5]).None? {
      return ProcessingError;
    }
    var latency, bandwidth, firewall := parse(parts[3]).value, parse(parts[4]).value, parse(parts[5]).value;
    var linked := graph.AddLink(parts[1], parts[2], latency, bandwidth, firewall);
    if !linked {
      return LinkError;
    }
    return Linked(parts[1], parts[2], latency, bandwidth, firewall);
  }

  /** The `seal_backdoor` case: the result code picks the report. */
  method SealBackdoor(graph: Graph, parts: seq<string>) returns (o: Outcome)
    requires graph.Valid()
    modifies graph, graph.nodes
    ensures graph.Valid()
    ensures SealsBackdoor(parts, old(ViewOf(graph)), ViewOf(graph), o)
  {
    if |parts| < 3 {
      return ProcessingError;
    }
    var code := graph.SealNode(parts[1], parts[2]);
    if code == 0 {
      return SealError;
    } else if code == 1 {
      return Sealed(parts[1], parts[2]);
    }
    return Unsealed(parts[1], parts[2]);
  }

  /** The `simulate_breach` case: two tokens name a host, more name the two
      ends of a backdoor. */
  method SimulateBreach(graph: Graph, parts: seq<string>) returns (o: Outcome)
    requires graph.Valid()
    modifies graph, graph.nodes
    ensures graph.Valid()
    ensures SimulatesBreach(parts, old(ViewOf(graph)), ViewOf(graph), o)
  {
    if |parts| == 2 {
      var r := graph.SimulateHostBreach(parts[1]);
      return HostBreached(r);
    }
    if |parts| < 2 {
      return ProcessingError;
    }
    var r := graph.SimulateBackDoorBreach(parts[1], parts[2]);
    return BackdoorBreached(r);
  }

  /** `processCommand`: the first token picks the case. Route tracing and
      the report are outside this model and leave the view as it was. */
  method ProcessCommand(graph: Graph, parts: seq<string>, parse: string -> Option<int>) returns (o: Outcome)
    requires graph.Valid() && |parts| >= 1
    modifies graph, graph.nodes
    ensures graph.Valid()
    ensures parts[0] == "spawn_host" ==> SpawnsHost(parts, parse, old(ViewOf(graph)), ViewOf(graph), o)
    ensures parts[0] == "link_backdoor" ==> LinksBackdoor(parts, parse, old(ViewOf(graph)), ViewOf(graph), o)
    ensures parts[0] == "seal_backdoor" ==> SealsBackdoor(parts, old(ViewOf(graph)), ViewOf(graph), o)
    ensures parts[0] == "scan_connectivity" ==> ScansConnectivity(old(ViewOf(graph)), ViewOf(graph), o)
    ensures parts[0] == "simulate_breach" ==> SimulatesBreach(parts, old(ViewOf(graph)), ViewOf(graph), o)
    ensures parts[0] == "trace_route" || parts[0] == "oracle_report" ==>
      o == Omitted(parts[0]) && ViewOf(graph) == old(ViewOf(graph))
    ensures parts[0] !in {"spawn_host", "link_backdoor", "seal_backdoor", "trace_route",
                          "scan_connectivity", "simulate_breach", "oracle_report"} ==>
      o == UnknownCommand(parts[0]) && ViewOf(graph) == old(ViewOf(graph))
  {
    var operation := parts[0];
    if operation == "spawn_host" {
      o := SpawnHost(graph, parts, parse);
    } else if operation == "link_backdoor" {
      o := LinkBackdoor(graph, parts, parse);
    } else if operation == "seal_backdoor" {
      o := SealBackdoor(graph, parts);
    } else if operation == "trace_route" || operation == "oracle_report" {
      o := Omitted(operation);
    } else if operation == "scan_connectivity" {
      var r := graph.ScanConnectivity();
      o := Scanned(r);
    } else if operation == "simulate_breach" {
      o := SimulateBreach(graph, parts);
    } else {
      o := UnknownCommand(operation);
    }
  }
}
