/** Reachability over the unsealed backdoors of a network, given as the
    link list of every node: the graph `scanConnectivity`, the breach
    simulations and `bfs` work on. Links into the excluded node `x` (`-1`
    when nothing is excluded) are not followed. */
module Reachability {
  import opened Nodes

  /** An unsealed backdoor leads from `u` to `v`, and `v` is not excluded. */
  ghost predicate Edge(g: seq<seq<Link>>, x: int, u: int, v: int)
  {
    0 <= u < |g| && v != x && HasTo(g[u], v)
  }

  /** Step `k` of the walk `p` follows an edge. */
  ghost predicate Step(g: seq<seq<Link>>, x: int, p: seq<int>, k: int)
    requires 0 <= k < |p| - 1
  {
    Edge(g, x, p[k], p[k + 1])
  }

  /** `p` is a walk from `s` to `t`. */
  ghost predicate Walk(g: seq<seq<Link>>, x: int, p: seq<int>, s: int, t: int)
  {
    |p| >= 1 && p[0] == s && p[|p| - 1] == t && forall k | 0 <= k < |p| - 1 :: Step(g, x, p, k)
  }

  ghost predicate Reaches(g: seq<seq<Link>>, x: int, s: int, t: int)
  {
    exists p :: Walk(g, x, p, s, t)
  }

  /** The nodes reachable from `s`. */
  ghost function ReachSet(g: seq<seq<Link>>, x: int, s: int): set<int>
  {
    set t | 0 <= t < |g| && Reaches(g, x, s, t)
  }

  /** No edge leaves the set `c`. */
  ghost predicate Closed(g: seq<seq<Link>>, x: int, c: set<int>)
  {
    forall u, v | u in c && Edge(g, x, u, v) :: v in c
  }

  /** The nodes before `i` that no earlier node reaches: the nodes at which
      the scan starts a new component. */
  ghost function Leaders(g: seq<seq<Link>>, x: int, i: int): set<int>
  {
    set j | 0 <= j < i && j != x && !ReachedBefore(g, x, j, j)
  }

  /** Some node before `i`, other than `x`, reaches `t`. */
  ghost predicate ReachedBefore(g: seq<seq<Link>>, x: int, i: int, t: int)
  {
    exists j | 0 <= j < i && j != x :: Reaches(g, x, j, t)
  }

  /** The nodes some node before `i` reaches. */
  ghost function Covered(g: seq<seq<Link>>, x: int, i: int): set<int>
  {
    set t | 0 <= t < |g| && ReachedBefore(g, x, i, t)
  }

  /** Every link goes to a node of the graph. */
  ghost predicate InRange(g: seq<seq<Link>>)
  {
    forall u, v | 0 <= u < |g| && HasTo(g[u], v) :: 0 <= v < |g|
  }

  lemma {:induction false} ReachesSelf(g: seq<seq<Link>>, x: int, s: int)
    ensures Reaches(g, x, s, s)
  {
    assert Walk(g, x, [s], s, s);
  }

  /** One more edge extends a walk. */
  lemma {:induction false} ReachesStep(g: seq<seq<Link>>, x: int, s: int, u: int, v: int)
    requires Reaches(g, x, s, u) && Edge(g, x, u, v)
    ensures Reaches(g, x, s, v)
  {
    var p :| Walk(g, x, p, s, u);
    var q := p + [v];
    forall k | 0 <= k < |q| - 1
      ensures Step(g, x, q, k)
    {
      if k < |p| - 1 {
        assert Step(g, x, p, k);
      }
    }
    assert Walk(g, x, q, s, v);
  }

  /** Walks compose. */
  lemma {:induction false} ReachesTrans(g: seq<seq<Link>>, x: int, a: int, b: int, c: int)
    requires Reaches(g, x, a, b) && Reaches(g, x, b, c)
    ensures Reaches(g, x, a, c)
  {
    var p :| Walk(g, x, p, a, b);
    var q :| Walk(g, x, q, b, c);
    var r := p + q[1..];
    forall k | 0 <= k < |r| - 1
      ensures Step(g, x, r, k)
    {
      if k < |p| - 1 {
        assert Step(g, x, p, k);
      } else {
        assert Step(g, x, q, k - |p| + 1);
      }
    }
    assert Walk(g, x, r, a, c);
  }

  /** A closed set holding the start of a walk holds its end. */
  lemma {:induction false} ClosedWalk(g: seq<seq<Link>>, x: int, c: set<int>, p: seq<int>, s: int, t: int)
    requires Closed(g, x, c) && s in c && Walk(g, x, p, s, t)
    ensures t in c
    decreases |p|
  {
    if |p| > 1 {
      var p' := p[..|p| - 1];
      forall k | 0 <= k < |p'| - 1
        ensures Step(g, x, p', k)
      {
        assert Step(g, x, p, k);
      }
      ClosedWalk(g, x, c, p', s, p[|p| - 2]);
      assert Step(g, x, p, |p| - 2);
    }
  }

  /** A closed set holding `s` holds everything `s` reaches. */
  lemma {:induction false} ClosedReach(g: seq<seq<Link>>, x: int, c: set<int>, s: int)
    requires Closed(g, x, c) && s in c
    ensures ReachSet(g, x, s) <= c
  {
    forall t | t in ReachSet(g, x, s)
      ensures t in c
    {
      var p :| Walk(g, x, p, s, t);
      ClosedWalk(g, x, c, p, s, t);
    }
  }

  /** Everything a node reaches is reached from whatever reaches it. */
  lemma {:induction false} ReachSetTrans(g: seq<seq<Link>>, x: int, a: int, b: int)
    requires Reaches(g, x, a, b)
    ensures ReachSet(g, x, b) <= ReachSet(g, x, a)
  {
    forall t | t in ReachSet(g, x, b)
      ensures t in ReachSet(g, x, a)
    {
      ReachesTrans(g, x, a, b, t);
    }
  }

  /** A reach set is closed. */
  lemma {:induction false} ReachSetClosed(g: seq<seq<Link>>, x: int, s: int)
    requires InRange(g)
    ensures Closed(g, x, ReachSet(g, x, s))
  {
    forall u, v | u in ReachSet(g, x, s) && Edge(g, x, u, v)
      ensures v in ReachSet(g, x, s)
    {
      ReachesStep(g, x, s, u, v);
    }
  }

  /** The union of closed sets is closed. */
  lemma {:induction false} UnionClosed(g: seq<seq<Link>>, x: int, c: set<int>, d: set<int>)
    requires Closed(g, x, c) && Closed(g, x, d)
    ensures Closed(g, x, c + d)
  {
  }

  /** The scan passing over node `i`, which it skips or finds covered. */
  lemma {:induction false} ScanSkip(g: seq<seq<Link>>, x: int, i: int)
    requires 0 <= i < |g| && (i == x || i in Covered(g, x, i))
    ensures Covered(g, x, i + 1) == Covered(g, x, i)
    ensures Leaders(g, x, i + 1) == Leaders(g, x, i)
  {
    if i != x {
      var j :| 0 <= j < i && j != x && Reaches(g, x, j, i);
      forall t | t in Covered(g, x, i + 1)
        ensures t in Covered(g, x, i)
      {
        var j' :| 0 <= j' < i + 1 && j' != x && Reaches(g, x, j', t);
        if j' == i {
          ReachesTrans(g, x, j, i, t);
        }
      }
      assert i !in Leaders(g, x, i + 1);
    }
  }

  /** The scan starting a component at node `i`, which nothing before
      reaches: the component is `i`'s reach set. */
  lemma {:induction false} ScanStart(g: seq<seq<Link>>, x: int, i: int)
    requires 0 <= i < |g| && i != x && i !in Covered(g, x, i)
    ensures Covered(g, x, i + 1) == Covered(g, x, i) + ReachSet(g, x, i)
    ensures Leaders(g, x, i + 1) == Leaders(g, x, i) + {i} && i !in Leaders(g, x, i)
  {
    assert !ReachedBefore(g, x, i, i);
    assert i in Leaders(g, x, i + 1);
  }

  /** What has been covered is closed. */
  lemma {:induction false} CoveredClosed(g: seq<seq<Link>>, x: int, i: int)
    requires InRange(g)
    ensures Closed(g, x, Covered(g, x, i))
  {
    forall u, v | u in Covered(g, x, i) && Edge(g, x, u, v)
      ensures v in Covered(g, x, i)
    {
      var j :| 0 <= j < i && j != x && Reaches(g, x, j, u);
      ReachesStep(g, x, j, u, v);
    }
  }

  /** Nothing is covered before the scan starts. */
  lemma {:induction false} ScanEmpty(g: seq<seq<Link>>, x: int)
    ensures Covered(g, x, 0) == {} && Leaders(g, x, 0) == {}
  {
  }

  /** Every edge between nodes other than `x` can be taken backwards. */
  ghost predicate Symmetric(g: seq<seq<Link>>, x: int)
  {
    forall u, v | Edge(g, x, u, v) && u != x :: Edge(g, x, v, u)
  }

  /** With symmetric edges a walk from a node other than `x` can be walked
      back. */
  lemma {:induction false} WalkBack(g: seq<seq<Link>>, x: int, p: seq<int>, s: int, t: int)
    requires Symmetric(g, x) && s != x && Walk(g, x, p, s, t)
    ensures Reaches(g, x, t, s)
    decreases |p|
  {
    if |p| == 1 {
      ReachesSelf(g, x, s);
    } else {
      var p' := p[..|p| - 1];
      var u := p[|p| - 2];
      forall k | 0 <= k < |p'| - 1
        ensures Step(g, x, p', k)
      {
        assert Step(g, x, p, k);
      }
      assert Walk(g, x, p', s, u);
      if |p'| > 1 {
        assert Step(g, x, p, |p| - 3);
      }
      WalkBack(g, x, p', s, u);
      assert Step(g, x, p, |p| - 2);
      assert Edge(g, x, t, u);
      ReachesSelf(g, x, t);
      ReachesStep(g, x, t, t, u);
      ReachesTrans(g, x, t, u, s);
    }
  }

  /** Reaching is symmetric between nodes other than `x`. */
  lemma {:induction false} ReachesBack(g: seq<seq<Link>>, x: int, s: int, t: int)
    requires Symmetric(g, x) && s != x && Reaches(g, x, s, t)
    ensures Reaches(g, x, t, s)
  {
    var p :| Walk(g, x, p, s, t);
    WalkBack(g, x, p, s, t);
  }

  /** Every node before `n` other than `x` is reached by a leader. */
  lemma {:induction false} LeaderReaches(g: seq<seq<Link>>, x: int, n: int, t: int)
    requires 0 <= t < n && t != x
    ensures exists j | j in Leaders(g, x, n) :: Reaches(g, x, j, t)
    decreases t
  {
    if ReachedBefore(g, x, t, t) {
      var k :| 0 <= k < t && k != x && Reaches(g, x, k, t);
      LeaderReaches(g, x, n, k);
      var j :| j in Leaders(g, x, n) && Reaches(g, x, j, k);
      ReachesTrans(g, x, j, k, t);
    } else {
      ReachesSelf(g, x, t);
      assert t in Leaders(g, x, n);
    }
  }

  /** With symmetric edges no node is reached by two leaders: the leaders,
      and so the components the scan counts, are the connected components of
      the nodes other than `x`. */
  lemma {:induction false} LeadersApart(g: seq<seq<Link>>, x: int, n: int, a: int, b: int, t: int)
    requires Symmetric(g, x)
    requires a in Leaders(g, x, n) && b in Leaders(g, x, n)
    requires Reaches(g, x, a, t) && Reaches(g, x, b, t)
    ensures a == b
  {
    ReachesBack(g, x, b, t);
    ReachesBack(g, x, a, t);
    ReachesTrans(g, x, a, t, b);
    ReachesTrans(g, x, b, t, a);
    assert !ReachedBefore(g, x, a, a) && !ReachedBefore(g, x, b, b);
  }
}
