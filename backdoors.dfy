/** The backdoors of a network as values: for every host, by index, its list
    of unsealed links and its list of sealed ones. `addLink`, `sealNode` and
    the bridge check change these lists in a few fixed ways, written here as
    functions, with the invariant they keep and the round trips they make. */
module Backdoors {
  import opened Lang
  import opened Nodes
  import opened Reachability

  /** Backdoors are mirrored: whenever `i` has one to `j`, `j` has one to `i`. */
  ghost predicate Mirrored(g: seq<seq<Link>>)
  {
    forall i, j | 0 <= i < |g| && 0 <= j < |g| && HasTo(g[i], j) :: HasTo(g[j], i)
  }

  /** Between two distinct hosts there is at most one backdoor, unsealed or
      sealed. */
  ghost predicate Single(ls: seq<seq<Link>>, ss: seq<seq<Link>>)
    requires |ls| == |ss|
  {
    forall i, j | 0 <= i < |ls| && 0 <= j < |ls| && i != j :: CountTo(ls[i], j) + CountTo(ss[i], j) <= 1
  }

  /** The invariant `addNode`, `addLink` and `sealNode` keep. */
  ghost predicate Network(ls: seq<seq<Link>>, ss: seq<seq<Link>>)
  {
    |ls| == |ss| && InRange(ls) && InRange(ss) && Mirrored(ls) && Mirrored(ss) && Single(ls, ss)
  }

  /** `addLink(i, j, ...)`: a link from `i` to `j` appended to `i`'s list,
      then one from `j` to `i` appended to `j`'s (both to the same list when
      `i == j`). */
  function Connect(ls: seq<seq<Link>>, i: int, j: int, latency: int, bandwidth: int, firewall: int): (r: seq<seq<Link>>)
    requires 0 <= i < |ls| && 0 <= j < |ls|
    ensures |r| == |ls|
  {
    var l1 := ls[i := ls[i] + [Link(i, j, latency, bandwidth, firewall)]];
    l1[j := l1[j] + [Link(j, i, latency, bandwidth, firewall)]]
  }

  /** `removeLink`/`removeSeal` on both ends: every link from `i` to `j` and
      from `j` to `i` dropped. */
  function Cut(ls: seq<seq<Link>>, i: int, j: int): (r: seq<seq<Link>>)
    requires 0 <= i < |ls| && 0 <= j < |ls|
    ensures |r| == |ls|
  {
    var l1 := ls[i := Without(ls[i], j)];
    l1[j := Without(l1[j], i)]
  }

  /** `addLink`/`addSeal` on both ends of the first link between `i` and `j`
      that `src` holds, `i`'s first. */
  function Restore(ls: seq<seq<Link>>, src: seq<seq<Link>>, i: int, j: int): (r: seq<seq<Link>>)
    requires 0 <= i < |ls| && 0 <= j < |ls| && |src| == |ls|
    requires HasTo(src[i], j) && HasTo(src[j], i)
    ensures |r| == |ls|
  {
    FirstToIsFirst(src[i], j);
    FirstToIsFirst(src[j], i);
    var l1 := ls[i := ls[i] + [FirstTo(src[i], j).value]];
    l1[j := l1[j] + [FirstTo(src[j], i).value]]
  }

  /** Nothing else changes: the links of `a` lead where those of `b` do,
      equally often between distinct hosts. */
  ghost predicate SameTargets(a: seq<seq<Link>>, b: seq<seq<Link>>)
  {
    |a| == |b| &&
    (forall u, v | 0 <= u < |a| :: HasTo(a[u], v) <==> HasTo(b[u], v)) &&
    (forall u, v | 0 <= u < |a| && u != v :: CountTo(a[u], v) == CountTo(b[u], v))
  }

  /** A link of a list of the network leads into the network. */
  lemma {:induction false} LinkInRange(g: seq<seq<Link>>, u: int, k: int)
    requires InRange(g) && 0 <= u < |g| && 0 <= k < |g[u]|
    ensures 0 <= g[u][k].to < |g|
  {
    assert HasTo(g[u], g[u][k].to);
  }

  /** The lists after `addLink(i, j, ...)`: list `u` gains the pair's links. */
  lemma {:induction false} ConnectAt(ls: seq<seq<Link>>, i: int, j: int, latency: int, bandwidth: int, firewall: int, u: int, v: int)
    requires 0 <= i < |ls| && 0 <= j < |ls| && 0 <= u < |ls|
    ensures HasTo(Connect(ls, i, j, latency, bandwidth, firewall)[u], v) <==>
      HasTo(ls[u], v) || (u == i && v == j) || (u == j && v == i)
    ensures CountTo(Connect(ls, i, j, latency, bandwidth, firewall)[u], v) ==
      CountTo(ls[u], v) + (if u == i && v == j then 1 else 0) + (if u == j && v == i then 1 else 0)
  {
    var r := Connect(ls, i, j, latency, bandwidth, firewall);
    var li, lj := Link(i, j, latency, bandwidth, firewall), Link(j, i, latency, bandwidth, firewall);
    if u == i && u == j {
      assert r[u] == ls[u] + [li] + [lj];
      AppendTargets(ls[u], li, v);
      AppendTargets(ls[u] + [li], lj, v);
    } else if u == i {
      assert r[u] == ls[u] + [li];
      AppendTargets(ls[u], li, v);
    } else if u == j {
      assert r[u] == ls[u] + [lj];
      AppendTargets(ls[u], lj, v);
    }
  }

  /** `Connect` changes the lists of `i` and `j` only, by appending. */
  lemma {:induction false} ConnectLists(ls: seq<seq<Link>>, i: int, j: int, latency: int, bandwidth: int, firewall: int)
    requires 0 <= i < |ls| && 0 <= j < |ls|
    ensures forall k | 0 <= k < |ls| && k != i && k != j :: Connect(ls, i, j, latency, bandwidth, firewall)[k] == ls[k]
    ensures i != j ==> Connect(ls, i, j, latency, bandwidth, firewall)[i] == ls[i] + [Link(i, j, latency, bandwidth, firewall)]
    ensures Connect(ls, i, j, latency, bandwidth, firewall)[j] ==
      (if i == j then ls[i] + [Link(i, j, latency, bandwidth, firewall)] else ls[j]) + [Link(j, i, latency, bandwidth, firewall)]
  {
  }

  /** `Cut` changes the lists of `i` and `j` only. */
  lemma {:induction false} CutLists(ls: seq<seq<Link>>, i: int, j: int)
    requires 0 <= i < |ls| && 0 <= j < |ls|
    ensures forall k | 0 <= k < |ls| && k != i && k != j :: Cut(ls, i, j)[k] == ls[k]
    ensures i != j ==> Cut(ls, i, j)[i] == Without(ls[i], j)
    ensures Cut(ls, i, j)[j] == Without(if i == j then Without(ls[i], j) else ls[j], i)
  {
  }

  /** `Restore` changes the lists of `i` and `j` only, by appending. */
  lemma {:induction false} RestoreLists(ls: seq<seq<Link>>, src: seq<seq<Link>>, i: int, j: int)
    requires 0 <= i < |ls| && 0 <= j < |ls| && |src| == |ls|
    requires HasTo(src[i], j) && HasTo(src[j], i)
    ensures FirstTo(src[i], j).Some? && FirstTo(src[j], i).Some?
    ensures forall k | 0 <= k < |ls| && k != i && k != j :: Restore(ls, src, i, j)[k] == ls[k]
    ensures i != j ==> Restore(ls, src, i, j)[i] == ls[i] + [FirstTo(src[i], j).value]
    ensures Restore(ls, src, i, j)[j] ==
      (if i == j then ls[i] + [FirstTo(src[i], j).value] else ls[j]) + [FirstTo(src[j], i).value]
  {
    FirstToIsFirst(src[i], j);
    FirstToIsFirst(src[j], i);
  }

  /** Dropping the backdoor between `i` and `j` keeps the invariant. */
  lemma {:induction false} CutKeeps(ls: seq<seq<Link>>, ss: seq<seq<Link>>, i: int, j: int)
    requires Network(ls, ss) && 0 <= i < |ls| && 0 <= j < |ls|
    ensures Network(Cut(ls, i, j), ss)
  {
    var c := Cut(ls, i, j);
    forall u, v | 0 <= u < |ls|
      ensures HasTo(c[u], v) <==> HasTo(ls[u], v) && !(u == i && v == j) && !(u == j && v == i)
      ensures CountTo(c[u], v) <= CountTo(ls[u], v)
    {
      CutAt(ls, i, j, u, v);
    }
    forall u, v | 0 <= u < |c| && 0 <= v < |c| && u != v
      ensures CountTo(c[u], v) + CountTo(ss[u], v) <= 1
    {
      assert CountTo(ls[u], v) + CountTo(ss[u], v) <= 1;
    }
  }

  /** The lists after `Cut(ls, i, j)`: list `u` loses the pair's links. */
  lemma {:induction false} CutAt(ls: seq<seq<Link>>, i: int, j: int, u: int, v: int)
    requires 0 <= i < |ls| && 0 <= j < |ls| && 0 <= u < |ls|
    ensures HasTo(Cut(ls, i, j)[u], v) <==> HasTo(ls[u], v) && !(u == i && v == j) && !(u == j && v == i)
    ensures CountTo(Cut(ls, i, j)[u], v) == if (u == i && v == j) || (u == j && v == i) then 0 else CountTo(ls[u], v)
  {
    var r := Cut(ls, i, j);
    if u == i && u == j {
      assert r[u] == Without(Without(ls[u], i), i);
      WithoutTargets(ls[u], i, v);
      WithoutTargets(Without(ls[u], i), i, v);
    } else if u == i {
      assert r[u] == Without(ls[u], j);
      WithoutTargets(ls[u], j, v);
    } else if u == j {
      assert r[u] == Without(ls[u], i);
      WithoutTargets(ls[u], i, v);
    }
  }

  /** The lists after `Restore(ls, src, i, j)`: list `u` gains the pair's
      links, as with `Connect`. */
  lemma {:induction false} RestoreAt(ls: seq<seq<Link>>, src: seq<seq<Link>>, i: int, j: int, u: int, v: int)
    requires 0 <= i < |ls| && 0 <= j < |ls| && |src| == |ls| && 0 <= u < |ls|
    requires HasTo(src[i], j) && HasTo(src[j], i)
    ensures HasTo(Restore(ls, src, i, j)[u], v) <==>
      HasTo(ls[u], v) || (u == i && v == j) || (u == j && v == i)
    ensures CountTo(Restore(ls, src, i, j)[u], v) ==
      CountTo(ls[u], v) + (if u == i && v == j then 1 else 0) + (if u == j && v == i then 1 else 0)
  {
    var r := Restore(ls, src, i, j);
    FirstToIsFirst(src[i], j);
    FirstToIsFirst(src[j], i);
    var fi, fj := FirstTo(src[i], j).value, FirstTo(src[j], i).value;
    assert fi.to == j && fj.to == i;
    if u == i && u == j {
      assert r[u] == ls[u] + [fi] + [fj];
      AppendTargets(ls[u], fi, v);
      AppendTargets(ls[u] + [fi], fj, v);
    } else if u == i {
      assert r[u] == ls[u] + [fi];
      AppendTargets(ls[u], fi, v);
    } else if u == j {
      assert r[u] == ls[u] + [fj];
      AppendTargets(ls[u], fj, v);
    }
  }

  /** The empty network, and a new host without backdoors. */
  lemma {:induction false} NetworkGrow(ls: seq<seq<Link>>, ss: seq<seq<Link>>)
    requires Network(ls, ss)
    ensures Network(ls + [[]], ss + [[]])
  {
    var ls': seq<seq<Link>>, ss': seq<seq<Link>> := ls + [[]], ss + [[]];
    forall u | 0 <= u < |ls'|
      ensures ls'[u] == if u < |ls| then ls[u] else []
      ensures ss'[u] == if u < |ls| then ss[u] else []
    {
    }
    forall u, v | 0 <= u < |ls'| && 0 <= v < |ls'| && u != v
      ensures CountTo(ls'[u], v) + CountTo(ss'[u], v) <= 1
    {
      if u == |ls| {
        assert ls'[u] == [] && ss'[u] == [];
      } else if v == |ls| {
        CountToHas(ls[u], v);
        CountToHas(ss[u], v);
      }
    }
  }

  /** An unsealed and a sealed list may trade places. */
  lemma {:induction false} NetworkSwap(ls: seq<seq<Link>>, ss: seq<seq<Link>>)
    requires Network(ls, ss)
    ensures Network(ss, ls)
  {
    forall i, j | 0 <= i < |ss| && 0 <= j < |ss| && i != j
      ensures CountTo(ss[i], j) + CountTo(ls[i], j) <= 1
    {
      assert CountTo(ls[i], j) + CountTo(ss[i], j) <= 1;
    }
  }

  /** `addLink` between hosts with no backdoor yet keeps the invariant, and
      afterwards exactly the new pair is linked besides the old ones. */
  lemma {:induction false} ConnectKeeps(ls: seq<seq<Link>>, ss: seq<seq<Link>>, i: int, j: int,
                                        latency: int, bandwidth: int, firewall: int)
    requires Network(ls, ss) && 0 <= i < |ls| && 0 <= j < |ls|
    requires !HasTo(ls[i], j) && !HasTo(ss[i], j)
    ensures Network(Connect(ls, i, j, latency, bandwidth, firewall), ss)
    ensures forall u, v | 0 <= u < |ls| ::
      HasTo(Connect(ls, i, j, latency, bandwidth, firewall)[u], v) <==>
        HasTo(ls[u], v) || (u == i && v == j) || (u == j && v == i)
  {
    var r := Connect(ls, i, j, latency, bandwidth, firewall);
    forall u, v | 0 <= u < |ls|
      ensures HasTo(r[u], v) <==> HasTo(ls[u], v) || (u == i && v == j) || (u == j && v == i)
    {
      ConnectAt(ls, i, j, latency, bandwidth, firewall, u, v);
    }
    forall u, v | 0 <= u < |r| && 0 <= v < |r| && HasTo(r[u], v)
      ensures HasTo(r[v], u)
    {
      ConnectAt(ls, i, j, latency, bandwidth, firewall, v, u);
    }
    CountToHas(ls[i], j);
    CountToHas(ss[i], j);
    CountToHas(ls[j], i);
    CountToHas(ss[j], i);
    forall u, v | 0 <= u < |r| && 0 <= v < |r| && u != v
      ensures CountTo(r[u], v) + CountTo(ss[u], v) <= 1
    {
      ConnectAt(ls, i, j, latency, bandwidth, firewall, u, v);
    }
  }

  /** Taking out the backdoor between distinct `i` and `j` from `a` and
      putting it on `b` keeps the invariant: the move `sealNode` makes in
      either direction. */
  lemma {:induction false} MoveKeeps(a: seq<seq<Link>>, b: seq<seq<Link>>, i: int, j: int)
    requires Network(a, b) && 0 <= i < |a| && 0 <= j < |a| && i != j && HasTo(a[i], j)
    ensures HasTo(a[j], i)
    ensures Network(Cut(a, i, j), Restore(b, a, i, j))
    ensures !HasTo(Cut(a, i, j)[i], j) && HasTo(Restore(b, a, i, j)[i], j)
  {
    assert HasTo(a[j], i);
    var a', b' := Cut(a, i, j), Restore(b, a, i, j);
    forall u, v | 0 <= u < |a|
      ensures HasTo(a'[u], v) <==> HasTo(a[u], v) && !(u == i && v == j) && !(u == j && v == i)
      ensures HasTo(b'[u], v) <==> HasTo(b[u], v) || (u == i && v == j) || (u == j && v == i)
    {
      CutAt(a, i, j, u, v);
      RestoreAt(b, a, i, j, u, v);
    }
    CountToHas(a[i], j);
    CountToHas(a[j], i);
    CountToHas(b[i], j);
    CountToHas(b[j], i);
    forall u, v | 0 <= u < |a'| && 0 <= v < |a'| && u != v
      ensures CountTo(a'[u], v) + CountTo(b'[u], v) <= 1
    {
      CutAt(a, i, j, u, v);
      RestoreAt(b, a, i, j, u, v);
      assert CountTo(a[u], v) + CountTo(b[u], v) <= 1;
    }
  }

  /** `sealNode` on an unsealed backdoor between distinct hosts keeps the
      invariant and leaves it sealed. */
  lemma {:induction false} SealKeeps(ls: seq<seq<Link>>, ss: seq<seq<Link>>, i: int, j: int)
    requires Network(ls, ss) && 0 <= i < |ls| && 0 <= j < |ls| && i != j && HasTo(ls[i], j)
    ensures HasTo(ls[j], i)
    ensures Network(Cut(ls, i, j), Restore(ss, ls, i, j))
    ensures !HasTo(Cut(ls, i, j)[i], j) && HasTo(Restore(ss, ls, i, j)[i], j)
  {
    MoveKeeps(ls, ss, i, j);
  }

  /** `sealNode` on a sealed backdoor between distinct hosts keeps the
      invariant and leaves it unsealed. */
  lemma {:induction false} UnsealKeeps(ls: seq<seq<Link>>, ss: seq<seq<Link>>, i: int, j: int)
    requires Network(ls, ss) && 0 <= i < |ls| && 0 <= j < |ls| && i != j && HasTo(ss[i], j)
    ensures HasTo(ss[j], i)
    ensures Network(Restore(ls, ss, i, j), Cut(ss, i, j))
    ensures HasTo(Restore(ls, ss, i, j)[i], j) && !HasTo(Cut(ss, i, j)[i], j)
  {
    NetworkSwap(ls, ss);
    MoveKeeps(ss, ls, i, j);
    NetworkSwap(Cut(ss, i, j), Restore(ls, ss, i, j));
  }

  /** Lists that lead to the same places keep the invariant. */
  lemma {:induction false} NetworkSameTargets(a: seq<seq<Link>>, b: seq<seq<Link>>, ss: seq<seq<Link>>)
    requires Network(b, ss) && SameTargets(a, b)
    ensures Network(a, ss)
  {
    forall i, j | 0 <= i < |a| && 0 <= j < |a| && i != j
      ensures CountTo(a[i], j) + CountTo(ss[i], j) <= 1
    {
      assert CountTo(b[i], j) + CountTo(ss[i], j) <= 1;
    }
  }

  /** The bridge check's round trip: dropping the backdoor between `i` and
      `j` on both ends and appending the links it found first leaves every
      list leading to the same places, so the invariant holds again. */
  lemma {:induction false} CutRestore(ls: seq<seq<Link>>, ss: seq<seq<Link>>, i: int, j: int)
    requires Network(ls, ss) && 0 <= i < |ls| && 0 <= j < |ls| && HasTo(ls[i], j)
    ensures HasTo(ls[j], i)
    ensures SameTargets(Restore(Cut(ls, i, j), ls, i, j), ls)
    ensures Network(Restore(Cut(ls, i, j), ls, i, j), ss)
  {
    assert HasTo(ls[j], i);
    var c := Cut(ls, i, j);
    var r := Restore(c, ls, i, j);
    CountToHas(ls[i], j);
    CountToHas(ls[j], i);
    if i != j {
      assert CountTo(ls[i], j) + CountTo(ss[i], j) <= 1;
      assert CountTo(ls[j], i) + CountTo(ss[j], i) <= 1;
    }
    forall u, v | 0 <= u < |ls|
      ensures HasTo(r[u], v) <==> HasTo(ls[u], v)
      ensures u != v ==> CountTo(r[u], v) == CountTo(ls[u], v)
    {
      CutAt(ls, i, j, u, v);
      RestoreAt(c, ls, i, j, u, v);
    }
    NetworkSameTargets(r, ls, ss);
  }

  /** For distinct hosts the bridge check's round trip gives every list
      back the same multiset of links: only the order changes. */
  lemma {:induction false} CutRestorePermutes(ls: seq<seq<Link>>, ss: seq<seq<Link>>, i: int, j: int)
    requires Network(ls, ss) && 0 <= i < |ls| && 0 <= j < |ls| && i != j && HasTo(ls[i], j)
    ensures HasTo(ls[j], i)
    ensures forall u | 0 <= u < |ls| :: multiset(Restore(Cut(ls, i, j), ls, i, j)[u]) == multiset(ls[u])
  {
    assert HasTo(ls[j], i);
    var r := Restore(Cut(ls, i, j), ls, i, j);
    CountToHas(ls[i], j);
    CountToHas(ls[j], i);
    assert CountTo(ls[i], j) + CountTo(ss[i], j) <= 1;
    assert CountTo(ls[j], i) + CountTo(ss[j], i) <= 1;
    FirstToIsFirst(ls[i], j);
    FirstToIsFirst(ls[j], i);
    assert r[i] == Without(ls[i], j) + [FirstTo(ls[i], j).value];
    assert r[j] == Without(ls[j], i) + [FirstTo(ls[j], i).value];
    WithoutOnly(ls[i], j);
    WithoutOnly(ls[j], i);
  }

  /** A list without links to `j` that gains one finds it first, and loses
      exactly it again. */
  lemma {:induction false} AppendedOnly(s: seq<Link>, f: Link, j: int)
    requires !HasTo(s, j) && f.to == j
    ensures FirstTo(s + [f], j) == Some(f) && Without(s + [f], j) == s
  {
    FirstToAppend(s, f, j);
    WithoutAppend(s, [f], j);
    WithoutNone(s, j);
    assert Without([f], j) == [];
  }

  /** Sealing a backdoor between distinct hosts and then unsealing it gives
      every host back the same multiset of unsealed links and the same
      sealed links. */
  lemma {:induction false} SealUnseal(ls: seq<seq<Link>>, ss: seq<seq<Link>>, i: int, j: int)
    requires Network(ls, ss) && 0 <= i < |ls| && 0 <= j < |ls| && i != j && HasTo(ls[i], j)
    ensures HasTo(ls[j], i)
    ensures !HasTo(Cut(ls, i, j)[i], j) && HasTo(Restore(ss, ls, i, j)[i], j)
    ensures HasTo(Restore(ss, ls, i, j)[j], i)
    ensures forall u | 0 <= u < |ls| ::
      multiset(Restore(Cut(ls, i, j), Restore(ss, ls, i, j), i, j)[u]) == multiset(ls[u]) &&
      Cut(Restore(ss, ls, i, j), i, j)[u] == ss[u]
  {
    SealKeeps(ls, ss, i, j);
    var ls1, ss1 := Cut(ls, i, j), Restore(ss, ls, i, j);
    RestoreAt(ss, ls, i, j, j, i);
    FirstToIsFirst(ls[i], j);
    FirstToIsFirst(ls[j], i);
    var fi, fj := FirstTo(ls[i], j).value, FirstTo(ls[j], i).value;
    CountToHas(ls[i], j);
    CountToHas(ls[j], i);
    assert CountTo(ls[i], j) + CountTo(ss[i], j) <= 1;
    assert CountTo(ls[j], i) + CountTo(ss[j], i) <= 1;
    CountToHas(ss[i], j);
    CountToHas(ss[j], i);
    assert ss1[i] == ss[i] + [fi] && ss1[j] == ss[j] + [fj];
    AppendedOnly(ss[i], fi, j);
    AppendedOnly(ss[j], fj, i);
    assert Restore(ls1, ss1, i, j) == Restore(ls1, ls, i, j);
    CutRestorePermutes(ls, ss, i, j);
    assert Cut(ss1, i, j)[i] == ss[i] && Cut(ss1, i, j)[j] == ss[j];
  }

  /** With mirrored backdoors, an edge can be walked back. */
  lemma {:induction false} MirroredSymmetric(g: seq<seq<Link>>, x: int)
    requires InRange(g) && Mirrored(g)
    ensures Symmetric(g, x)
  {
    forall u, v | Edge(g, x, u, v) && u != x
      ensures Edge(g, x, v, u)
    {
      var k :| 0 <= k < |g[u]| && g[u][k].to == v;
    }
  }
}
