/** The network of hosts: `Graph` with its node list, its id table and the
    index counter, and the operations that build it, seal backdoors, count
    components and check for articulation points, bridges and cycles. */
module Graphs {
  import opened Lang
  import opened Nodes
  import opened Reachability
  import opened Backdoors

  /** What `scanConnectivityComponent` returns for a network whose unsealed
      backdoors are `g`, leaving out the node `x` (`-1`: none). */
  ghost function Components(g: seq<seq<Link>>, x: int): int
  {
    if |g| <= 1 then 1 else |Leaders(g, x, |g|)|
  }

  /** With symmetric edges and at least two nodes, the scan counts one
      component exactly when every node other than `x` reaches every other. */
  lemma {:induction false} OneComponent(g: seq<seq<Link>>, x: int)
    requires Symmetric(g, x) && |g| >= 2
    ensures Components(g, x) == 1 <==>
      forall s, t | 0 <= s < |g| && 0 <= t < |g| && s != x && t != x :: Reaches(g, x, s, t)
  {
    var n := |g|;
    var f := if x == 0 then 1 else 0;
    assert !ReachedBefore(g, x, f, f);
    assert f in Leaders(g, x, n);
    if Components(g, x) == 1 {
      assert |Leaders(g, x, n) - {f}| == 0;
      assert Leaders(g, x, n) == {f};
      forall s, t | 0 <= s < n && 0 <= t < n && s != x && t != x
        ensures Reaches(g, x, s, t)
      {
        LeaderReaches(g, x, n, s);
        LeaderReaches(g, x, n, t);
        var a :| a in Leaders(g, x, n) && Reaches(g, x, a, s);
        var b :| b in Leaders(g, x, n) && Reaches(g, x, b, t);
        ReachesBack(g, x, a, s);
        ReachesTrans(g, x, s, a, t);
      }
    }
    if forall s, t | 0 <= s < n && 0 <= t < n && s != x && t != x :: Reaches(g, x, s, t) {
      forall j | j in Leaders(g, x, n)
        ensures j == f
      {
        if j != f {
          assert Reaches(g, x, f, j);
          assert ReachedBefore(g, x, j, j);
        }
      }
      assert Leaders(g, x, n) == {f};
    }
  }

  /** The message `scanConnectivity` writes, without the text. */
  datatype Connectivity = FullyConnected | Disconnected(components: int)

  /** The message `simulateHostBreach` writes, without the text. */
  datatype HostBreach = HostError | NotArticulation | Articulation(components: int)

  /** The message `simulateBackDoorBreach` writes, without the text. */
  datatype BackdoorBreach = BackdoorError | NotBridge | Bridge(components: int)

  /** How many entries of `s` are still false. */
  function Unmarked(s: seq<bool>): nat
  {
    if s == [] then 0 else (if s[0] then 0 else 1) + Unmarked(s[1..])
  }

  /** The indices `s` marks. */
  ghost function Marked(s: seq<bool>): set<int>
  {
    set k | 0 <= k < |s| && s[k]
  }

  /** Marking a new index adds it and leaves one fewer unmarked. */
  lemma {:induction false} MarkOne(s: seq<bool>, k: int)
    requires 0 <= k < |s| && !s[k]
    ensures Unmarked(s[k := true]) == Unmarked(s) - 1
    ensures Marked(s[k := true]) == Marked(s) + {k}
  {
    if k > 0 {
      assert s[k := true][1..] == s[1..][k - 1 := true];
      MarkOne(s[1..], k - 1);
    } else {
      assert s[k := true][1..] == s[1..];
    }
  }

  /** Nothing marked yet. */
  lemma {:induction false} NoneMarked(s: seq<bool>)
    requires forall k | 0 <= k < |s| :: !s[k]
    ensures Marked(s) == {}
  {
  }

  /** No more indices are marked than `s` has entries. */
  lemma {:induction false} MarkedCard(s: seq<bool>)
    ensures |Marked(s)| <= |s|
  {
    if s != [] {
      var t := s[..|s| - 1];
      MarkedCard(t);
      if s[|s| - 1] {
        assert Marked(s) == Marked(t) + {|s| - 1};
      } else {
        assert Marked(s) == Marked(t);
      }
    }
  }

  /** Every node the search marks is explored: its edges lead to marked
      nodes, except for the nodes still in `queue` and `current`. */
  ghost predicate Explored(g: seq<seq<Link>>, x: int, v: set<int>, queue: seq<int>, current: int)
  {
    forall a, b | a in v && a !in queue && a != current && Edge(g, x, a, b) :: b in v
  }

  /** The node at position `i` has index `i`, and the table maps each
      node's id to it and nothing else. */
  ghost predicate Indexed(nodes: seq<Node>, table: map<string, Node>)
  {
    (forall i | 0 <= i < |nodes| :: nodes[i].index == i) &&
    (forall i | 0 <= i < |nodes| :: nodes[i].id in table && table[nodes[i].id] == nodes[i]) &&
    (forall id | id in table :: 0 <= table[id].index < |nodes| && nodes[table[id].index] == table[id] && table[id].id == id)
  }

  /** The state of a search from `start` that began with the nodes `v0`
      marked: what it marked since lies in the reach set of `start`, the
      queue holds reached nodes, and every marked node outside the queue
      other than `current` has all its edges into marked nodes. */
  ghost predicate Search(g: seq<seq<Link>>, x: int, v0: set<int>, start: int, vs: seq<bool>,
                         queue: seq<int>, current: int)
  {
    |vs| == |g| && v0 <= Marked(vs) <= v0 + ReachSet(g, x, start) && start in Marked(vs) &&
    (forall q | q in queue :: q in ReachSet(g, x, start)) &&
    Explored(g, x, Marked(vs), queue, current)
  }

  /** The first `k` links of `ls` lead to marked nodes or to `x`. */
  ghost predicate Checked(x: int, vs: seq<bool>, ls: seq<Link>, k: int)
  {
    forall m | 0 <= m < k && m < |ls| && ls[m].to != x :: ls[m].to in Marked(vs)
  }

  /** Marking `start` and queueing it starts a search. */
  lemma {:induction false} SearchStart(g: seq<seq<Link>>, x: int, start: int, vs: seq<bool>)
    requires |vs| == |g| && 0 <= start < |g| && !vs[start] && Closed(g, x, Marked(vs))
    ensures Search(g, x, Marked(vs), start, vs[start := true], [start], -1)
  {
    ReachesSelf(g, x, start);
    MarkOne(vs, start);
  }

  /** Taking the head of the queue. */
  lemma {:induction false} SearchPop(g: seq<seq<Link>>, x: int, v0: set<int>, start: int, vs: seq<bool>, queue: seq<int>)
    requires Search(g, x, v0, start, vs, queue, -1) && queue != []
    ensures 0 <= queue[0] < |g| && queue[0] in ReachSet(g, x, start)
    ensures Search(g, x, v0, start, vs, queue[1..], queue[0])
  {
    assert queue[0] in queue;
    assert forall q | q in queue[1..] :: q in queue;
  }

  /** Marking and queueing the unmarked target of link `k` of `current`. */
  lemma {:induction false} SearchMark(g: seq<seq<Link>>, x: int, v0: set<int>, start: int, vs: seq<bool>,
                                      queue: seq<int>, current: int, k: int)
    requires Search(g, x, v0, start, vs, queue, current)
    requires 0 <= current < |g| && current in ReachSet(g, x, start) && 0 <= k < |g[current]|
    requires Checked(x, vs, g[current], k)
    requires 0 <= g[current][k].to < |g| && g[current][k].to != x && !vs[g[current][k].to]
    ensures Search(g, x, v0, start, vs[g[current][k].to := true], queue + [g[current][k].to], current)
    ensures Checked(x, vs[g[current][k].to := true], g[current], k + 1)
    ensures Unmarked(vs[g[current][k].to := true]) == Unmarked(vs) - 1
  {
    var to := g[current][k].to;
    assert HasTo(g[current], to);
    ReachesStep(g, x, start, current, to);
    MarkOne(vs, to);
  }

  /** Passing over link `k` of `current`, whose target is `x` or marked. */
  lemma {:induction false} SearchSkip(x: int, vs: seq<bool>, ls: seq<Link>, k: int)
    requires Checked(x, vs, ls, k) && 0 <= k < |ls| && 0 <= ls[k].to < |vs|
    requires ls[k].to == x || vs[ls[k].to]
    ensures Checked(x, vs, ls, k + 1)
  {
  }

  /** Once every link of `current` is checked, `current` is explored. */
  lemma {:induction false} SearchNext(g: seq<seq<Link>>, x: int, v0: set<int>, start: int, vs: seq<bool>,
                                      queue: seq<int>, current: int)
    requires Search(g, x, v0, start, vs, queue, current) && 0 <= current < |g|
    requires Checked(x, vs, g[current], |g[current]|)
    ensures Search(g, x, v0, start, vs, queue, -1)
  {
    forall a, b | a in Marked(vs) && a !in queue && a != -1 && Edge(g, x, a, b)
      ensures b in Marked(vs)
    {
      if a == current {
        var m :| 0 <= m < |g[current]| && g[current][m].to == b;
      }
    }
  }

  /** A search whose queue is empty has marked exactly the reach set. */
  lemma {:induction false} SearchDone(g: seq<seq<Link>>, x: int, v0: set<int>, start: int, vs: seq<bool>)
    requires Search(g, x, v0, start, vs, [], -1)
    ensures Marked(vs) == v0 + ReachSet(g, x, start)
  {
    ClosedReach(g, x, Marked(vs), start);
  }

  /** A search forest over the marked nodes: `par` maps each marked node to
      the node it was first reached from (`-1` for a root) and `rank` to the
      order in which it was marked, so a parent comes before its child. */
  ghost predicate Tree(vs: seq<bool>, par: map<int, int>, rank: map<int, int>)
  {
    par.Keys == Marked(vs) && rank.Keys == par.Keys &&
    (forall a | a in rank :: 0 <= rank[a] < |rank|) &&
    (forall a | a in par :: par[a] == -1 || (par[a] in rank && rank[par[a]] < rank[a]))
  }

  /** `p` keeps every entry of `p0`. */
  ghost predicate Extends(p0: map<int, int>, p: map<int, int>)
  {
    forall a | a in p0 :: a in p && p[a] == p0[a]
  }

  /** Every edge out of a node entered into `p` after `p0`, other than
      `current`, joins the node to its parent or to one of its children. */
  ghost predicate TreeEdges(g: seq<seq<Link>>, p0: map<int, int>, p: map<int, int>, current: int)
  {
    forall a, c | a in p && a !in p0 && a != current && Edge(g, -1, a, c) :: c in p && (p[c] == a || p[a] == c)
  }

  /** The first `k` links of `current` join it to its parent or a child. */
  ghost predicate TreeLinks(current: int, ls: seq<Link>, p: map<int, int>, k: int)
  {
    current in p && forall m | 0 <= m < k && m < |ls| :: ls[m].to in p && (p[ls[m].to] == current || p[current] == ls[m].to)
  }

  /** Every edge of `g` joins a node to its parent, and parents rank below
      their children. */
  ghost predicate Forest(g: seq<seq<Link>>, par: map<int, int>, rank: map<int, int>)
  {
    (forall a | a in par :: a in rank && (par[a] == -1 || (par[a] in rank && rank[par[a]] < rank[a]))) &&
    (forall a, c | Edge(g, -1, a, c) :: a in par && c in par && (par[c] == a || par[a] == c))
  }

  /** A closed walk `p` over unsealed backdoors that never turns straight
      back: a link from a host to itself, or a ring of three or more steps. */
  ghost predicate Cycle(g: seq<seq<Link>>, p: seq<int>)
  {
    (|p| == 1 || |p| >= 3) &&
    (forall k {:trigger Around(p, k, 1)} | 0 <= k < |p| :: Edge(g, -1, p[k], Around(p, k, 1))) &&
    (|p| >= 3 ==> forall k {:trigger Around(p, k, 2)} | 0 <= k < |p| :: Around(p, k, 2) != p[k])
  }

  /** The entry `d` places after entry `k` of the closed walk `p`. */
  ghost function Around(p: seq<int>, k: int, d: nat): int
    requires 0 <= k < |p| && d <= |p|
  {
    if k + d < |p| then p[k + d] else p[k + d - |p|]
  }

  /** Some entry of `p` has the highest rank. */
  lemma {:induction false} HighestRank(p: seq<int>, rank: map<int, int>) returns (m: int)
    requires |p| >= 1 && forall k | 0 <= k < |p| :: p[k] in rank
    ensures 0 <= m < |p| && forall k | 0 <= k < |p| :: rank[p[k]] <= rank[p[m]]
  {
    if |p| == 1 {
      return 0;
    }
    var m' := HighestRank(p[..|p| - 1], rank);
    assert forall k | 0 <= k < |p| - 1 :: p[..|p| - 1][k] == p[k];
    if rank[p[|p| - 1]] <= rank[p[m']] {
      return m';
    }
    return |p| - 1;
  }

  /** In a forest every closed walk turns straight back somewhere: its
      highest ranked node has both its walk neighbours as its parent. */
  lemma {:induction false} ForestWalkTurns(g: seq<seq<Link>>, par: map<int, int>, rank: map<int, int>, p: seq<int>)
    returns (k: int)
    requires Forest(g, par, rank) && |p| >= 1
    requires forall i {:trigger Around(p, i, 1)} | 0 <= i < |p| :: Edge(g, -1, p[i], Around(p, i, 1))
    ensures |p| >= 2 && 0 <= k < |p| && Around(p, k, 2) == p[k]
  {
    var n := |p|;
    forall i | 0 <= i < n
      ensures p[i] in rank
    {
      assert Edge(g, -1, p[i], Around(p, i, 1));
    }
    var m := HighestRank(p, rank);
    if m == 0 {
      k := n - 1;
      assert Around(p, k, 1) == p[m];
    } else {
      k := m - 1;
      assert Around(p, k, 1) == p[m];
    }
    assert Edge(g, -1, p[k], p[m]) && Edge(g, -1, p[m], Around(p, m, 1));
    assert rank[p[k]] <= rank[p[m]] && rank[Around(p, m, 1)] <= rank[p[m]];
    assert par[p[m]] == p[k] && par[p[m]] == Around(p, m, 1);
    if n >= 2 {
      assert Around(p, k, 2) == Around(p, m, 1);
    }
  }

  /** A forest has no cycle. */
  lemma {:induction false} ForestNoCycle(g: seq<seq<Link>>, par: map<int, int>, rank: map<int, int>, p: seq<int>)
    requires Forest(g, par, rank)
    ensures !Cycle(g, p)
  {
    if |p| >= 1 && forall i {:trigger Around(p, i, 1)} | 0 <= i < |p| :: Edge(g, -1, p[i], Around(p, i, 1)) {
      var k := ForestWalkTurns(g, par, rank, p);
    }
  }

  /** The state of `dfsCycle` at `current`, entered from `parent`, after
      its first `k` links: `par` extends `par0` with at least `current`,
      forms a search forest over the marked nodes, and the edges out of the
      nodes entered since `par0` join parents and children, those of
      `current` so far. */
  ghost predicate Descent(g: seq<seq<Link>>, vs: seq<bool>, par0: map<int, int>, par: map<int, int>,
                          rank: map<int, int>, current: int, parent: int, ls: seq<Link>, k: int)
  {
    Tree(vs, par, rank) && Extends(par0, par) && |par| > |par0| &&
    current in par && par[current] == parent &&
    TreeEdges(g, par0, par, current) && TreeLinks(current, ls, par, k)
  }

  /** The first step of `dfsCycle`: marking `current` as a child of
      `parent`. */
  lemma {:induction false} DescentStart(g: seq<seq<Link>>, vs: seq<bool>, par0: map<int, int>, rank0: map<int, int>,
                                        current: int, parent: int, ls: seq<Link>)
    requires Tree(vs, par0, rank0) && 0 <= current < |vs| && !vs[current]
    requires parent == -1 || parent in par0
    ensures Descent(g, vs[current := true], par0, par0[current := parent], rank0[current := |rank0|], current, parent, ls, 0)
  {
    MarkOne(vs, current);
    assert current !in rank0;
  }

  /** After a search from the target of link `k` of `current` returned
      false, having made `current` the target's parent. */
  lemma {:induction false} DescentChild(g: seq<seq<Link>>, vs1: seq<bool>, vs2: seq<bool>, par0: map<int, int>,
                                        p1: map<int, int>, p2: map<int, int>, rank1: map<int, int>, rank2: map<int, int>,
                                        current: int, parent: int, ls: seq<Link>, k: int)
    requires Descent(g, vs1, par0, p1, rank1, current, parent, ls, k) && 0 <= k < |ls|
    requires Tree(vs2, p2, rank2) && Extends(p1, p2) && |p2| > |p1| && TreeEdges(g, p1, p2, -1)
    requires ls[k].to in p2 && p2[ls[k].to] == current
    ensures Descent(g, vs2, par0, p2, rank2, current, parent, ls, k + 1)
  {
  }

  /** Passing over link `k` of `current`, which leads back to its already
      marked parent. */
  lemma {:induction false} DescentParent(g: seq<seq<Link>>, vs: seq<bool>, par0: map<int, int>, par: map<int, int>,
                                         rank: map<int, int>, current: int, parent: int, ls: seq<Link>, k: int)
    requires Descent(g, vs, par0, par, rank, current, parent, ls, k) && 0 <= k < |ls|
    requires 0 <= ls[k].to < |vs| && vs[ls[k].to] && ls[k].to == parent
    ensures Descent(g, vs, par0, par, rank, current, parent, ls, k + 1)
  {
    assert ls[k].to in Marked(vs);
  }

  /** The state of the component scan before node `i`: the marked nodes are
      those the nodes before `i` reach, and `count` is the number of
      components started. */
  ghost predicate Counted(g: seq<seq<Link>>, x: int, vs: seq<bool>, count: int, i: int)
  {
    Marked(vs) == Covered(g, x, i) && count == |Leaders(g, x, i)|
  }

  /** The scan passing over `x` or a node an earlier search marked. */
  lemma {:induction false} CountSkip(g: seq<seq<Link>>, x: int, vs: seq<bool>, count: int, i: int)
    requires Counted(g, x, vs, count, i) && 0 <= i < |g| == |vs| && (i == x || vs[i])
    ensures Counted(g, x, vs, count, i + 1)
  {
    if i != x {
      assert i in Marked(vs);
    }
    ScanSkip(g, x, i);
  }

  /** The marked nodes are closed when the scan reaches an unmarked node. */
  lemma {:induction false} CountOpen(g: seq<seq<Link>>, x: int, vs: seq<bool>, count: int, i: int)
    requires Counted(g, x, vs, count, i) && InRange(g)
    ensures Closed(g, x, Marked(vs))
  {
    CoveredClosed(g, x, i);
  }

  /** The scan searching from an unmarked node `i`, which starts one more
      component. */
  lemma {:induction false} CountSearch(g: seq<seq<Link>>, x: int, vs1: seq<bool>, vs2: seq<bool>, count: int, i: int)
    requires Counted(g, x, vs1, count, i) && 0 <= i < |g| == |vs1| && i != x && !vs1[i]
    requires Marked(vs2) == Marked(vs1) + ReachSet(g, x, i)
    ensures Counted(g, x, vs2, count + 1, i + 1)
  {
    assert i !in Marked(vs1);
    ScanStart(g, x, i);
  }

  /** The state of the cycle check before node `i`: the searches so far
      built a forest of the marked nodes holding every node before `i`, and
      every edge out of it joins a node to its parent or to a child. */
  ghost predicate Scanned(g: seq<seq<Link>>, vs: seq<bool>, par: map<int, int>, rank: map<int, int>, i: int)
  {
    Tree(vs, par, rank) && (forall a | 0 <= a < i :: a in par) && TreeEdges(g, map[], par, -1)
  }

  /** The check passing over a node an earlier search marked. */
  lemma {:induction false} ScanMarked(g: seq<seq<Link>>, vs: seq<bool>, par: map<int, int>, rank: map<int, int>, i: int)
    requires Scanned(g, vs, par, rank, i) && 0 <= i < |vs| && vs[i]
    ensures Scanned(g, vs, par, rank, i + 1)
  {
    assert i in Marked(vs);
  }

  /** The check after a search from node `i` that found no cycle. */
  lemma {:induction false} ScanSearched(g: seq<seq<Link>>, vs1: seq<bool>, vs2: seq<bool>, p1: map<int, int>,
                                        p2: map<int, int>, r1: map<int, int>, r2: map<int, int>, i: int)
    requires Scanned(g, vs1, p1, r1, i) && Tree(vs2, p2, r2) && Extends(p1, p2) && i in p2
    requires TreeEdges(g, p1, p2, -1)
    ensures Scanned(g, vs2, p2, r2, i + 1)
  {
    forall a, c | a in p2 && Edge(g, -1, a, c)
      ensures c in p2 && (p2[c] == a || p2[a] == c)
    {
      if a in p1 {
        assert c in p1 && (p1[c] == a || p1[a] == c);
      }
    }
  }

  /** Once the check has passed every node, the forest holds every edge. */
  lemma {:induction false} ScanForest(g: seq<seq<Link>>, vs: seq<bool>, par: map<int, int>, rank: map<int, int>)
    requires Scanned(g, vs, par, rank, |g|)
    ensures Forest(g, par, rank)
  {
    forall a, c | Edge(g, -1, a, c)
      ensures a in par && c in par && (par[c] == a || par[a] == c)
    {
      assert a in par;
    }
  }

  /** Once every link of `current` joins it to its parent or a child, every
      edge out of the nodes entered since `par0` does. */
  lemma {:induction false} DescentDone(g: seq<seq<Link>>, vs: seq<bool>, par0: map<int, int>, par: map<int, int>,
                                       rank: map<int, int>, current: int, parent: int)
    requires 0 <= current < |g| && Descent(g, vs, par0, par, rank, current, parent, g[current], |g[current]|)
    ensures TreeEdges(g, par0, par, -1)
  {
    forall a, c | a in par && a !in par0 && Edge(g, -1, a, c)
      ensures c in par && (par[c] == a || par[a] == c)
    {
      if a == current {
        var m :| 0 <= m < |g[current]| && g[current][m].to == c;
      }
    }
  }

  class Graph {
    var nodes: seq<Node>
    var nodeTable: map<string, Node>
    var indexnumber: int
    /** The unsealed and the sealed links of every node, by index. */
    ghost var links: seq<seq<Link>>
    ghost var seals: seq<seq<Link>>

    /** The node at position `i` holds the links `links[i]` and `seals[i]`. */
    ghost predicate Holds()
      reads this, nodes
    {
      |links| == |nodes| && |seals| == |nodes| &&
      forall i | 0 <= i < |nodes| :: nodes[i].links == links[i] && nodes[i].seals == seals[i]
    }

    /** The links are mirrored, lead into the network and never double up. */
    ghost predicate Valid()
      reads this, nodes
    {
      |nodes| == indexnumber && Indexed(nodes, nodeTable) && Holds() && Network(links, seals)
    }

    /** The index of the node with id `id`. */
    ghost function IndexOf(id: string): int
      reads this
      requires id in nodeTable
    {
      nodeTable[id].index
    }

    /** `Graph()`: no nodes. */
    constructor()
      ensures Valid() && nodes == [] && nodeTable == map[] && indexnumber == 0
      ensures links == [] && seals == []
    {
      nodes := [];
      nodeTable := map[];
      indexnumber := 0;
      links := [];
      seals := [];
    }

    /** `addNode(id, clearanceLevel)`: refused for a known id; otherwise a
        node without links, numbered by the counter, is appended and
        registered. */
    method AddNode(id: string, clearanceLevel: int) returns (b: bool)
      requires Valid()
      modifies this
      ensures Valid()
      ensures b <==> id !in old(nodeTable)
      ensures !b ==> (nodes == old(nodes) && nodeTable == old(nodeTable) && indexnumber == old(indexnumber) &&
                      links == old(links) && seals == old(seals))
      ensures b ==> (|nodes| == old(|nodes|) + 1 && nodes[..old(|nodes|)] == old(nodes) &&
                     fresh(nodes[old(|nodes|)]) && nodes[old(|nodes|)].id == id &&
                     nodes[old(|nodes|)].clearanceLevel == clearanceLevel &&
                     nodes[old(|nodes|)].index == old(indexnumber) && indexnumber == old(indexnumber) + 1 &&
                     nodeTable == old(nodeTable)[id := nodes[old(|nodes|)]] &&
                     links == old(links) + [[]] && seals == old(seals) + [[]])
    {
      if id in nodeTable {
        return false;
      }
      var node := new Node(id, clearanceLevel, indexnumber);
      indexnumber := indexnumber + 1;
      nodes := nodes + [node];
      nodeTable := nodeTable[id := node];
      NetworkGrow(links, seals);
      Sync(links + [[]], seals + [[]]);
      return true;
    }

    /** `addLink(fromId, toId, ...)`: refused for an unknown id or when the
        two already share a backdoor, unsealed or sealed; otherwise each end
        gains a link to the other. */
    method AddLink(fromId: string, toId: string, latency: int, bandwidth: int, firewall: int) returns (b: bool)
      requires Valid()
      modifies this, nodes
      ensures Valid()
      ensures nodes == old(nodes) && nodeTable == old(nodeTable) && indexnumber == old(indexnumber)
      ensures seals == old(seals) && |links| == |old(links)|
      ensures b <==> (fromId in nodeTable && toId in nodeTable &&
                      !HasTo(old(links)[IndexOf(fromId)], IndexOf(toId)) &&
                      !HasTo(old(seals)[IndexOf(fromId)], IndexOf(toId)))
      ensures b ==> links == Connect(old(links), IndexOf(fromId), IndexOf(toId), latency, bandwidth, firewall)
      ensures !b ==> links == old(links)
    {
      if fromId !in nodeTable || toId !in nodeTable {
        return false;
      }
      var fromNode, toNode := nodeTable[fromId], nodeTable[toId];
      var hasLink := fromNode.HasLinkTo(toNode);
      if hasLink {
        return false;
      }
      var hasSeal := fromNode.HasSealTo(toNode);
      if hasSeal {
        return false;
      }
      Join(fromNode, toNode, latency, bandwidth, firewall);
      return true;
    }

    /** The two `links.add` calls of `addLink`. */
    method Join(fromNode: Node, toNode: Node, latency: int, bandwidth: int, firewall: int)
      requires Valid()
      requires 0 <= fromNode.index < |nodes| && nodes[fromNode.index] == fromNode
      requires 0 <= toNode.index < |nodes| && nodes[toNode.index] == toNode
      requires !HasTo(links[fromNode.index], toNode.index) && !HasTo(seals[fromNode.index], toNode.index)
      modifies this, fromNode, toNode
      ensures Valid()
      ensures nodes == old(nodes) && nodeTable == old(nodeTable) && indexnumber == old(indexnumber) && seals == old(seals)
      ensures links == Connect(old(links), fromNode.index, toNode.index, latency, bandwidth, firewall)
    {
      var i, j := fromNode.index, toNode.index;
      fromNode.AddLink(Link(i, j, latency, bandwidth, firewall));
      toNode.AddLink(Link(j, i, latency, bandwidth, firewall));
      ConnectKeeps(links, seals, i, j, latency, bandwidth, firewall);
      ConnectLists(links, i, j, latency, bandwidth, firewall);
      forall k | 0 <= k < |nodes|
        ensures nodes[k].links == Connect(links, i, j, latency, bandwidth, firewall)[k] && nodes[k].seals == seals[k]
      {
        if k != i && k != j {
          assert nodes[k] != fromNode && nodes[k] != toNode;
        }
      }
      Sync(Connect(links, i, j, latency, bandwidth, firewall), seals);
    }
  

    /** `sealNode(id1, id2)`: 0 for an unknown id, equal ids or hosts that
        share no backdoor; otherwise 1 after moving the unsealed backdoor of
        both ends to their seals, or 2 after moving the sealed one back. */
    method SealNode(id1: string, id2: string) returns (code: int)
      requires Valid()
      modifies this, nodes
      ensures Valid()
      ensures nodes == old(nodes) && nodeTable == old(nodeTable) && indexnumber == old(indexnumber)
      ensures |links| == |old(links)| && |seals| == |old(seals)|
      ensures code == 0 <==> (id1 !in nodeTable || id2 !in nodeTable || id1 == id2 ||
                              (!HasTo(old(links)[IndexOf(id1)], IndexOf(id2)) &&
                               !HasTo(old(seals)[IndexOf(id1)], IndexOf(id2))))
      ensures code == 0 ==> links == old(links) && seals == old(seals)
      ensures code == 1 ==> (HasTo(old(links)[IndexOf(id1)], IndexOf(id2)) &&
                             HasTo(old(links)[IndexOf(id2)], IndexOf(id1)) &&
                             links == Cut(old(links), IndexOf(id1), IndexOf(id2)) &&
                             seals == Restore(old(seals), old(links), IndexOf(id1), IndexOf(id2)))
      ensures code == 2 ==> (!HasTo(old(links)[IndexOf(id1)], IndexOf(id2)) &&
                             HasTo(old(seals)[IndexOf(id1)], IndexOf(id2)) &&
                             HasTo(old(seals)[IndexOf(id2)], IndexOf(id1)) &&
                             links == Restore(old(links), old(seals), IndexOf(id1), IndexOf(id2)) &&
                             seals == Cut(old(seals), IndexOf(id1), IndexOf(id2)))
      ensures 0 <= code <= 2
    {
      if id1 !in nodeTable || id2 !in nodeTable || id1 == id2 {
        return 0;
      }
      var n1, n2 := nodeTable[id1], nodeTable[id2];
      var hasLink := n1.HasLinkTo(n2);
      var hasSeal := n1.HasSealTo(n2);
      if !hasLink && !hasSeal {
        return 0;
      }
      if hasLink {
        SealPair(n1, n2);
        return 1;
      } else {
        UnsealPair(n1, n2);
        return 2;
      }
    }

    /** The seal branch of `sealNode`: each end's link to the other moves to
        its seals. */
    method SealPair(n1: Node, n2: Node)
      requires Valid() && n1 != n2
      requires 0 <= n1.index < |nodes| && nodes[n1.index] == n1
      requires 0 <= n2.index < |nodes| && nodes[n2.index] == n2
      requires HasTo(links[n1.index], n2.index)
      modifies this, n1, n2
      ensures Valid()
      ensures nodes == old(nodes) && nodeTable == old(nodeTable) && indexnumber == old(indexnumber)
      ensures HasTo(old(links)[n2.index], n1.index)
      ensures links == Cut(old(links), n1.index, n2.index)
      ensures seals == Restore(old(seals), old(links), n1.index, n2.index)
    {
      var i, j := n1.index, n2.index;
      SealKeeps(links, seals, i, j);
      CutLists(links, i, j);
      RestoreLists(seals, links, i, j);
      var l1, l2 := SealEnds(n1, n2);
      forall k | 0 <= k < |nodes|
        ensures nodes[k].links == Cut(links, i, j)[k] && nodes[k].seals == Restore(seals, links, i, j)[k]
      {
        if k != i && k != j {
          assert nodes[k] != n1 && nodes[k] != n2;
        }
      }
      Sync(Cut(links, i, j), Restore(seals, links, i, j));
    }

    /** The unseal branch of `sealNode`: each end's seal to the other moves
        back to its links. */
    method UnsealPair(n1: Node, n2: Node)
      requires Valid() && n1 != n2
      requires 0 <= n1.index < |nodes| && nodes[n1.index] == n1
      requires 0 <= n2.index < |nodes| && nodes[n2.index] == n2
      requires HasTo(seals[n1.index], n2.index)
      modifies this, n1, n2
      ensures Valid()
      ensures nodes == old(nodes) && nodeTable == old(nodeTable) && indexnumber == old(indexnumber)
      ensures HasTo(old(seals)[n2.index], n1.index)
      ensures links == Restore(old(links), old(seals), n1.index, n2.index)
      ensures seals == Cut(old(seals), n1.index, n2.index)
    {
      var i, j := n1.index, n2.index;
      UnsealKeeps(links, seals, i, j);
      CutLists(seals, i, j);
      RestoreLists(links, seals, i, j);
      var l1, l2 := UnsealEnds(n1, n2);
      forall k | 0 <= k < |nodes|
        ensures nodes[k].links == Restore(links, seals, i, j)[k] && nodes[k].seals == Cut(seals, i, j)[k]
      {
        if k != i && k != j {
          assert nodes[k] != n1 && nodes[k] != n2;
        }
      }
      Sync(Restore(links, seals, i, j), Cut(seals, i, j));
    }

    /** `bfs(start, visited)` and `bfs(start, visited, excludeNode)`: marks
        what `start` reaches over unsealed backdoors, never entering the
        excluded node `x` (`-1`: none), given that the marked nodes have no
        backdoor out of them. */
    method Bfs(start: int, visited: array<bool>, x: int)
      requires Valid() && visited.Length == |nodes| && 0 <= start < |nodes|
      requires !visited[start] && Closed(links, x, Marked(visited[..]))
      modifies visited
      ensures Marked(visited[..]) == Marked(old(visited[..])) + ReachSet(links, x, start)
    {
      ghost var v0 := Marked(visited[..]);
      SearchStart(links, x, start, visited[..]);
      visited[start] := true;
      var queue := [start];
      while queue != []
        invariant Search(links, x, v0, start, visited[..], queue, -1)
        decreases Unmarked(visited[..]), |queue|
      {
        var current := queue[0];
        SearchPop(links, x, v0, start, visited[..], queue);
        queue := queue[1..];
        ghost var u1, q1 := Unmarked(visited[..]), |queue|;
        var ls := nodes[current].links;
        for k := 0 to |ls|
          invariant Search(links, x, v0, start, visited[..], queue, current)
          invariant Checked(x, visited[..], ls, k)
          invariant Unmarked(visited[..]) + |queue| == u1 + q1 && Unmarked(visited[..]) <= u1
        {
          var to := ls[k].to;
          LinkInRange(links, current, k);
          if to != x && !visited[to] {
            SearchMark(links, x, v0, start, visited[..], queue, current, k);
            visited[to] := true;
            queue := queue + [to];
          } else {
            SearchSkip(x, visited[..], ls, k);
          }
        }
        SearchNext(links, x, v0, start, visited[..], queue, current);
      }
      SearchDone(links, x, v0, start, visited[..]);
    }

    /** `scanConnectivityComponent()` and
        `scanConnectivityComponent(excludeNode)`: the number of times the
        scan over the nodes, skipping `x`, finds a node no earlier search
        marked and searches from it. */
    method CountComponents(x: int) returns (count: int)
      requires Valid()
      ensures count == Components(links, x)
    {
      if |nodes| <= 1 {
        return 1;
      }
      var visited := new bool[indexnumber](_ => false);
      NoneMarked(visited[..]);
      ghost var g := links;
      ScanEmpty(g, x);
      count := 0;
      for i := 0 to |nodes|
        invariant Counted(g, x, visited[..], count, i)
      {
        var node := nodes[i];
        if node.index == x {
          CountSkip(g, x, visited[..], count, i);
        } else if !visited[node.index] {
          CountOpen(g, x, visited[..], count, i);
          ghost var vs1 := visited[..];
          Bfs(node.index, visited, x);
          CountSearch(g, x, vs1, visited[..], count, i);
          count := count + 1;
        } else {
          CountSkip(g, x, visited[..], count, i);
        }
      }
    }

    /** `scanConnectivity()`: the network is fully connected exactly when the
        scan counts one component. */
    method ScanConnectivity() returns (r: Connectivity)
      requires Valid()
      ensures r == FullyConnected <==> Components(links, -1) == 1
      ensures r.Disconnected? ==> r.components == Components(links, -1)
    {
      var count := CountComponents(-1);
      if count == 1 {
        return FullyConnected;
      }
      return Disconnected(count);
    }

    /** `simulateHostBreach(id)`: an error for an unknown id; otherwise the
        host is an articulation point exactly when leaving it out gives more
        components than the whole network has. */
    method SimulateHostBreach(id: string) returns (r: HostBreach)
      requires Valid()
      ensures r == HostError <==> id !in nodeTable
      ensures id in nodeTable ==>
        (r == NotArticulation <==> Components(links, IndexOf(id)) <= Components(links, -1))
      ensures r.Articulation? ==> r.components == Components(links, IndexOf(id))
    {
      if id !in nodeTable {
        return HostError;
      }
      var node := nodeTable[id];
      var before := CountComponents(-1);
      var after := CountComponents(node.index);
      var diff := after - before;
      if diff <= 0 {
        return NotArticulation;
      }
      return Articulation(after);
    }

    /** `simulateBackDoorBreach(id1, id2)`: an error for an unknown id or
        hosts without an unsealed backdoor between them; otherwise both ends
        drop their links to each other, the components are counted, and the
        links dropped first are put back at the end of the lists. The
        backdoor is a bridge exactly when more than one component remains. */
    method SimulateBackDoorBreach(id1: string, id2: string) returns (r: BackdoorBreach)
      requires Valid()
      modifies this, nodes
      ensures Valid()
      ensures nodes == old(nodes) && nodeTable == old(nodeTable) && indexnumber == old(indexnumber)
      ensures seals == old(seals) && SameTargets(links, old(links))
      ensures r == BackdoorError <==>
        (id1 !in nodeTable || id2 !in nodeTable || !HasTo(old(links)[IndexOf(id1)], IndexOf(id2)))
      ensures r == BackdoorError ==> links == old(links)
      ensures r != BackdoorError ==>
        (HasTo(old(links)[IndexOf(id2)], IndexOf(id1)) &&
         links == Restore(Cut(old(links), IndexOf(id1), IndexOf(id2)), old(links), IndexOf(id1), IndexOf(id2)) &&
         (r == NotBridge <==> Components(Cut(old(links), IndexOf(id1), IndexOf(id2)), -1) == 1) &&
         (r.Bridge? ==> r.components == Components(Cut(old(links), IndexOf(id1), IndexOf(id2)), -1)))
      ensures r != BackdoorError && id1 != id2 ==>
        forall u | 0 <= u < |links| :: multiset(links[u]) == multiset(old(links)[u])
    {
      if id1 !in nodeTable || id2 !in nodeTable {
        return BackdoorError;
      }
      var n1, n2 := nodeTable[id1], nodeTable[id2];
      var has := n1.HasLinkTo(n2);
      if !has {
        return BackdoorError;
      }
      ghost var i, j := n1.index, n2.index;
      CutRestore(links, seals, i, j);
      if i != j {
        CutRestorePermutes(links, seals, i, j);
      }
      var count := Breach(n1, n2);
      if count == 1 {
        return NotBridge;
      }
      return Bridge(count);
    }

    /** The body of `simulateBackDoorBreach` past its checks: the links
        between `n1` and `n2` are taken out, the components counted, and the
        first link of each end put back. */
    method Breach(n1: Node, n2: Node) returns (count: int)
      requires Valid()
      requires 0 <= n1.index < |nodes| && nodes[n1.index] == n1
      requires 0 <= n2.index < |nodes| && nodes[n2.index] == n2
      requires HasTo(links[n1.index], n2.index)
      modifies this, n1, n2
      ensures Valid()
      ensures nodes == old(nodes) && nodeTable == old(nodeTable) && indexnumber == old(indexnumber) && seals == old(seals)
      ensures HasTo(old(links)[n2.index], n1.index)
      ensures links == Restore(Cut(old(links), n1.index, n2.index), old(links), n1.index, n2.index)
      ensures count == Components(Cut(old(links), n1.index, n2.index), -1)
    {
      ghost var g := links;
      ghost var i, j := n1.index, n2.index;
      CutRestore(g, seals, i, j);
      FirstToIsFirst(g[i], j);
      FirstToIsFirst(g[j], i);
      var link1 := n1.GetLinkTo(n2);
      var link2 := n2.GetLinkTo(n1);
      Detach(n1, n2);
      count := CountComponents(-1);
      Reattach(n1, n2, link1.value, link2.value, g);
    }

    /** The two `removeLink` calls of `simulateBackDoorBreach`. */
    method Detach(n1: Node, n2: Node)
      requires Valid()
      requires 0 <= n1.index < |nodes| && nodes[n1.index] == n1
      requires 0 <= n2.index < |nodes| && nodes[n2.index] == n2
      modifies this, n1, n2
      ensures Valid()
      ensures nodes == old(nodes) && nodeTable == old(nodeTable) && indexnumber == old(indexnumber) && seals == old(seals)
      ensures links == Cut(old(links), n1.index, n2.index)
    {
      var i, j := n1.index, n2.index;
      CutKeeps(links, seals, i, j);
      CutLists(links, i, j);
      n1.RemoveLink(n2);
      n2.RemoveLink(n1);
      forall k | 0 <= k < |nodes|
        ensures nodes[k].links == Cut(links, i, j)[k] && nodes[k].seals == seals[k]
      {
        if k != i && k != j {
          assert nodes[k] != n1 && nodes[k] != n2;
        }
      }
      Sync(Cut(links, i, j), seals);
    }

    /** The two `addLink` calls of `simulateBackDoorBreach`, putting back the
        links `l1` and `l2` taken from the lists `g` before the cut. */
    method Reattach(n1: Node, n2: Node, l1: Link, l2: Link, ghost g: seq<seq<Link>>)
      requires Valid()
      requires 0 <= n1.index < |nodes| && nodes[n1.index] == n1
      requires 0 <= n2.index < |nodes| && nodes[n2.index] == n2
      requires |g| == |links| && HasTo(g[n1.index], n2.index) && HasTo(g[n2.index], n1.index)
      requires Some(l1) == FirstTo(g[n1.index], n2.index) && Some(l2) == FirstTo(g[n2.index], n1.index)
      requires Network(Restore(links, g, n1.index, n2.index), seals)
      modifies this, n1, n2
      ensures Valid()
      ensures nodes == old(nodes) && nodeTable == old(nodeTable) && indexnumber == old(indexnumber) && seals == old(seals)
      ensures links == Restore(old(links), g, n1.index, n2.index)
    {
      var i, j := n1.index, n2.index;
      RestoreLists(links, g, i, j);
      n1.AddLink(l1);
      n2.AddLink(l2);
      forall k | 0 <= k < |nodes|
        ensures nodes[k].links == Restore(links, g, i, j)[k] && nodes[k].seals == seals[k]
      {
        if k != i && k != j {
          assert nodes[k] != n1 && nodes[k] != n2;
        }
      }
      Sync(Restore(links, g, i, j), seals);
    }

    /** `containsCycle()`: a search from every host not yet marked. A
        result of false means the unsealed backdoors contain no cycle. */
    method ContainsCycle() returns (b: bool)
      requires Valid()
      ensures !b ==> forall p :: !Cycle(links, p)
    {
      var visited := new bool[indexnumber](_ => false);
      NoneMarked(visited[..]);
      ghost var par, rank;
      b, par, rank := SearchAll(visited, links);
      if !b {
        forall p
          ensures !Cycle(links, p)
        {
          ForestNoCycle(links, par, rank, p);
        }
      }
    }

    /** The loop of `containsCycle`: a search from every node no earlier
        search marked, stopping at the first that reports a cycle. When none
        does, the searches have built a spanning forest holding every edge. */
    method SearchAll(visited: array<bool>, ghost g: seq<seq<Link>>)
      returns (b: bool, ghost par: map<int, int>, ghost rank: map<int, int>)
      requires |g| == |nodes| == visited.Length && InRange(g)
      requires forall k | 0 <= k < |nodes| :: nodes[k].links == g[k] && nodes[k].index == k
      requires Marked(visited[..]) == {}
      modifies visited
      ensures !b ==> Forest(g, par, rank)
    {
      par, rank := map[], map[];
      for i := 0 to |nodes|
        invariant Scanned(g, visited[..], par, rank, i)
      {
        var node := nodes[i];
        if !visited[node.index] {
          ghost var vs1, p1, r1 := visited[..], par, rank;
          var found;
          found, par, rank := DfsCycle(node.index, -1, visited, g, par, rank);
          if found {
            return true, par, rank;
          }
          ScanSearched(g, vs1, visited[..], p1, par, r1, rank, i);
        } else {
          ScanMarked(g, visited[..], par, rank, i);
        }
      }
      ScanForest(g, visited[..], par, rank);
      return false, par, rank;
    }

    /** `dfsCycle(current, parent, visited)`: marks `current`, then follows
        each link to an unmarked host and reports true as soon as a link
        leads to a marked host other than `parent` (`-1`: none). A result of
        false means every edge out of the hosts this search marked joins a
        host to its parent or to a child. */
    method DfsCycle(current: int, parent: int, visited: array<bool>, ghost g: seq<seq<Link>>,
                    ghost par0: map<int, int>, ghost rank0: map<int, int>)
      returns (b: bool, ghost par: map<int, int>, ghost rank: map<int, int>)
      requires |g| == |nodes| && InRange(g) && forall i | 0 <= i < |nodes| :: nodes[i].links == g[i]
      requires visited.Length == |nodes| && 0 <= current < |nodes| && !visited[current]
      requires Tree(visited[..], par0, rank0) && (parent == -1 || parent in par0)
      modifies visited
      ensures Tree(visited[..], par, rank) && Extends(par0, par) && |par| > |par0|
      ensures current in par && par[current] == parent
      ensures !b ==> TreeEdges(g, par0, par, -1)
      decreases |nodes| - |par0|
    {
      MarkedCard(visited[..]);
      var ls := nodes[current].links;
      DescentStart(g, visited[..], par0, rank0, current, parent, ls);
      par, rank := par0[current := parent], rank0[current := |rank0|];
      visited[current] := true;
      for k := 0 to |ls|
        invariant Descent(g, visited[..], par0, par, rank, current, parent, ls, k)
      {
        var to := ls[k].to;
        LinkInRange(g, current, k);
        if !visited[to] {
          ghost var vs1, p1, rank1 := visited[..], par, rank;
          var found;
          found, par, rank := DfsCycle(to, current, visited, g, par, rank);
          if found {
            return true, par, rank;
          }
          DescentChild(g, vs1, visited[..], par0, p1, par, rank1, rank, current, parent, ls, k);
        } else if to != parent {
          return true, par, rank;
        } else {
          DescentParent(g, visited[..], par0, par, rank, current, parent, ls, k);
        }
      }
      DescentDone(g, visited[..], par0, par, rank, current, parent);
      return false, par, rank;
    }

    /** Records the link lists the nodes now hold. */
    ghost method Sync(ls: seq<seq<Link>>, ss: seq<seq<Link>>)
      requires |nodes| == indexnumber && Indexed(nodes, nodeTable) && Network(ls, ss)
      requires |ls| == |nodes| && |ss| == |nodes|
      requires forall k | 0 <= k < |nodes| :: nodes[k].links == ls[k] && nodes[k].seals == ss[k]
      modifies this
      ensures Valid() && links == ls && seals == ss
      ensures nodes == old(nodes) && nodeTable == old(nodeTable) && indexnumber == old(indexnumber)
    {
      links, seals := ls, ss;
    }

    /** The node updates of the seal branch of `sealNode`. */
    static method SealEnds(n1: Node, n2: Node) returns (l1: Link, l2: Link)
      requires n1 != n2 && HasTo(n1.links, n2.index) && HasTo(n2.links, n1.index)
      modifies n1, n2
      ensures Some(l1) == FirstTo(old(n1.links), n2.index) && Some(l2) == FirstTo(old(n2.links), n1.index)
      ensures n1.links == Without(old(n1.links), n2.index) && n1.seals == old(n1.seals) + [l1]
      ensures n2.links == Without(old(n2.links), n1.index) && n2.seals == old(n2.seals) + [l2]
    {
      FirstToIsFirst(n1.links, n2.index);
      FirstToIsFirst(n2.links, n1.index);
      var link := n1.GetLinkTo(n2);
      l1 := link.value;
      n1.RemoveLink(n2);
      n1.AddSeal(l1);
      link := n2.GetLinkTo(n1);
      l2 := link.value;
      n2.RemoveLink(n1);
      n2.AddSeal(l2);
    }

    /** The node updates of the unseal branch of `sealNode`. */
    static method UnsealEnds(n1: Node, n2: Node) returns (l1: Link, l2: Link)
      requires n1 != n2 && HasTo(n1.seals, n2.index) && HasTo(n2.seals, n1.index)
      modifies n1, n2
      ensures Some(l1) == FirstTo(old(n1.seals), n2.index) && Some(l2) == FirstTo(old(n2.seals), n1.index)
      ensures n1.seals == Without(old(n1.seals), n2.index) && n1.links == old(n1.links) + [l1]
      ensures n2.seals == Without(old(n2.seals), n1.index) && n2.links == old(n2.links) + [l2]
    {
      FirstToIsFirst(n1.seals, n2.index);
      FirstToIsFirst(n2.seals, n1.index);
      var link := n1.GetSealTo(n2);
      l1 := link.value;
      n1.RemoveSeal(n2);
      n1.AddLink(l1);
      link := n2.GetSealTo(n1);
      l2 := link.value;
      n2.RemoveSeal(n1);
      n2.AddLink(l2);
    }
  }
}
