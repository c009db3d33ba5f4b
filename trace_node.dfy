/** The record route tracing keeps for each partial path, and its
    `compareTo`: lexicographic on total latency, then hop count, then the
    path string. */
module TraceNodes {
  import opened Lang
  import MinHeaps

  /** `TraceNode`: the host reached (by its node index), the latency summed
      along the path, the number of hops and the path written out. */
  datatype TraceNode = TraceNode(host: int, totalLatency: int, hops: int, pathString: string)

  /** `Integer.compare`: -1, 0 or 1 as `a` is below, equal to or above `b`. */
  function IntCompare(a: int, b: int): (r: int)
    ensures r == -1 <==> a < b
    ensures r == 0 <==> a == b
    ensures r == 1 <==> a > b
  {
    if a < b then -1 else if a == b then 0 else 1
  }

  /** `TraceNode.compareTo`. */
  function Compare(t: TraceNode, u: TraceNode): (r: int)
    ensures SameKey(t, u) ==> r == 0
    ensures t.totalLatency != u.totalLatency || t.hops != u.hops ==> r == -1 || r == 1
  {
    if t.totalLatency != u.totalLatency then IntCompare(t.totalLatency, u.totalLatency)
    else if t.hops != u.hops then IntCompare(t.hops, u.hops)
    else CompareStrings(t.pathString, u.pathString)
  }

  /** The same fields, the host aside. */
  predicate SameKey(t: TraceNode, u: TraceNode)
  {
    t.totalLatency == u.totalLatency && t.hops == u.hops && t.pathString == u.pathString
  }

  /** The order `compareTo` is meant to implement, written out: less latency,
      or equal latency and fewer hops, or both equal and a path string that
      is lexicographically smaller. */
  predicate Precedes(t: TraceNode, u: TraceNode)
  {
    t.totalLatency < u.totalLatency ||
    (t.totalLatency == u.totalLatency &&
      (t.hops < u.hops || (t.hops == u.hops && CompareStrings(t.pathString, u.pathString) < 0)))
  }

  /** Differing latencies decide, by their own order. */
  lemma {:induction false} CompareByLatency(t: TraceNode, u: TraceNode)
    requires t.totalLatency != u.totalLatency
    ensures Compare(t, u) == -1 <==> t.totalLatency < u.totalLatency
    ensures Compare(t, u) == 1 <==> t.totalLatency > u.totalLatency
  {
  }

  /** Equal latencies and differing hop counts: the hop counts decide. */
  lemma {:induction false} CompareByHops(t: TraceNode, u: TraceNode)
    requires t.totalLatency == u.totalLatency && t.hops != u.hops
    ensures Compare(t, u) == -1 <==> t.hops < u.hops
    ensures Compare(t, u) == 1 <==> t.hops > u.hops
  {
  }

  /** Equal latencies and hop counts: the path strings decide, and the
      result is 0 only for equal strings. */
  lemma {:induction false} CompareByPath(t: TraceNode, u: TraceNode)
    requires t.totalLatency == u.totalLatency && t.hops == u.hops
    ensures Compare(t, u) < 0 <==> CompareStrings(t.pathString, u.pathString) < 0
    ensures Compare(t, u) == 0 <==> t.pathString == u.pathString
  {
    CompareStringsZero(t.pathString, u.pathString);
  }

  /** `compareTo` is 0 exactly when all three fields agree. */
  lemma {:induction false} CompareZero(t: TraceNode, u: TraceNode)
    ensures Compare(t, u) == 0 <==> SameKey(t, u)
  {
    CompareStringsZero(t.pathString, u.pathString);
  }

  /** A negative `compareTo` means exactly that `t` precedes `u`. */
  lemma {:induction false} CompareIsPrecedes(t: TraceNode, u: TraceNode)
    ensures Compare(t, u) < 0 <==> Precedes(t, u)
  {
  }

  /** Swapping the arguments flips the sign. */
  lemma {:induction false} CompareAntisymmetric(t: TraceNode, u: TraceNode)
    ensures Compare(u, t) < 0 <==> Compare(t, u) > 0
    ensures Compare(u, t) == 0 <==> Compare(t, u) == 0
  {
    CompareStringsAntisymmetric(t.pathString, u.pathString);
  }

  /** Below is transitive. */
  lemma {:induction false} CompareTransitive(t: TraceNode, u: TraceNode, v: TraceNode)
    requires Compare(t, u) < 0 && Compare(u, v) < 0
    ensures Compare(t, v) < 0
  {
    if t.totalLatency == u.totalLatency == v.totalLatency && t.hops == u.hops == v.hops {
      CompareStringsTransitive(t.pathString, u.pathString, v.pathString);
    }
  }

  /** Not below is transitive too: `compareTo` is a total preorder. */
  lemma {:induction false} CompareNotBelowTransitive(t: TraceNode, u: TraceNode, v: TraceNode)
    requires Compare(u, t) >= 0 && Compare(v, u) >= 0
    ensures Compare(v, t) >= 0
  {
    CompareZero(u, t);
    CompareZero(v, u);
    if Compare(u, t) != 0 && Compare(v, u) != 0 {
      CompareAntisymmetric(t, u);
      CompareAntisymmetric(u, v);
      CompareTransitive(t, u, v);
      CompareAntisymmetric(t, v);
    }
  }

  /** `compareTo` is an order the min-heap can rely on. */
  lemma {:induction false} CompareIsOrder()
    ensures MinHeaps.IsOrder(Compare)
  {
    forall t, u
      ensures MinHeaps.Below(Compare, t, u)
    {
      CompareAntisymmetric(t, u);
    }
    forall t, u, v
      ensures MinHeaps.Chain(Compare, t, u, v)
    {
      if Compare(u, t) >= 0 && Compare(v, u) >= 0 {
        CompareNotBelowTransitive(t, u, v);
      }
    }
  }
}
