/** A host of the network and its backdoor lists. A link names its two ends
    by node index: within one graph a node's index identifies it, so the
    reference comparisons `link.to == other` become index comparisons. */
module Nodes {
  import opened Lang

  /** `Link`: a backdoor from one host to another, with its latency,
      bandwidth and firewall level. */
  datatype Link = Link(from: int, to: int, latency: int, bandwidth: int, firewall: int)

  /** Some link in `ls` leads to node `j`. */
  predicate HasTo(ls: seq<Link>, j: int)
  {
    exists k | 0 <= k < |ls| :: ls[k].to == j
  }

  /** How many links in `ls` lead to node `j`. */
  function CountTo(ls: seq<Link>, j: int): (c: nat)
  {
    if ls == [] then 0 else (if ls[0].to == j then 1 else 0) + CountTo(ls[1..], j)
  }

  /** The first link in `ls` that leads to node `j`, if any. */
  function FirstTo(ls: seq<Link>, j: int): Option<Link>
  {
    if ls == [] then None else if ls[0].to == j then Some(ls[0]) else FirstTo(ls[1..], j)
  }

  /** `ls` without the links that lead to node `j`, the others in order. */
  function Without(ls: seq<Link>, j: int): seq<Link>
  {
    if ls == [] then [] else (if ls[0].to == j then [] else [ls[0]]) + Without(ls[1..], j)
  }

  /** A link to `j` is found exactly when one exists, and it is the first
      such link. */
  lemma {:induction false} FirstToIsFirst(ls: seq<Link>, j: int)
    ensures FirstTo(ls, j).Some? <==> HasTo(ls, j)
    ensures FirstTo(ls, j).Some? ==>
      exists k | 0 <= k < |ls| :: (ls[k] == FirstTo(ls, j).value && ls[k].to == j &&
        forall i | 0 <= i < k :: ls[i].to != j)
  {
    if ls != [] {
      FirstToIsFirst(ls[1..], j);
      if ls[0].to != j {
        if HasTo(ls, j) {
          var k :| 0 <= k < |ls| && ls[k].to == j;
          assert ls[1..][k - 1].to == j;
        }
        if HasTo(ls[1..], j) {
          var k :| 0 <= k < |ls[1..]| && ls[1..][k].to == j;
          assert ls[k + 1].to == j;
        }
        if FirstTo(ls, j).Some? {
          var k :| 0 <= k < |ls[1..]| && ls[1..][k] == FirstTo(ls, j).value &&
            ls[1..][k].to == j && forall i | 0 <= i < k :: ls[1..][i].to != j;
          assert ls[k + 1] == FirstTo(ls, j).value;
          forall i | 0 <= i < k + 1
            ensures ls[i].to != j
          {
            if i > 0 {
              assert ls[i] == ls[1..][i - 1];
            }
          }
        }
      } else {
        assert ls[0].to == j;
      }
    }
  }

  /** A link to `j` exists exactly when the count is positive. */
  lemma {:induction false} CountToHas(ls: seq<Link>, j: int)
    ensures CountTo(ls, j) > 0 <==> HasTo(ls, j)
  {
    if ls != [] {
      CountToHas(ls[1..], j);
      if HasTo(ls, j) && ls[0].to != j {
        var k :| 0 <= k < |ls| && ls[k].to == j;
        assert ls[1..][k - 1].to == j;
      }
      if HasTo(ls[1..], j) {
        var k :| 0 <= k < |ls[1..]| && ls[1..][k].to == j;
        assert ls[k + 1].to == j;
      }
    }
  }

  /** `Without` keeps exactly the links that do not lead to `j`. */
  lemma {:induction false} WithoutMembers(ls: seq<Link>, j: int)
    ensures forall l :: l in Without(ls, j) <==> l in ls && l.to != j
  {
    if ls != [] {
      WithoutMembers(ls[1..], j);
      assert forall l :: l in ls <==> l == ls[0] || l in ls[1..];
    }
  }

  /** Without a link to `j`, `Without` changes nothing. */
  lemma {:induction false} WithoutNone(ls: seq<Link>, j: int)
    requires !HasTo(ls, j)
    ensures Without(ls, j) == ls
  {
    if ls != [] {
      assert ls[0].to != j;
      forall k | 0 <= k < |ls[1..]|
        ensures ls[1..][k].to != j
      {
        assert ls[1..][k] == ls[k + 1];
      }
      WithoutNone(ls[1..], j);
      assert ls == [ls[0]] + ls[1..];
    }
  }

  /** `Without` distributes over concatenation. */
  lemma {:induction false} WithoutAppend(a: seq<Link>, b: seq<Link>, j: int)
    ensures Without(a + b, j) == Without(a, j) + Without(b, j)
  {
    if a != [] {
      assert (a + b)[1..] == a[1..] + b;
      WithoutAppend(a[1..], b, j);
    } else {
      assert a + b == b;
    }
  }

  /** Taking out the only link to `j` and putting it back at the end keeps
      the multiset of links. */
  lemma {:induction false} WithoutOnly(ls: seq<Link>, j: int)
    requires CountTo(ls, j) == 1
    ensures FirstTo(ls, j).Some?
    ensures multiset(Without(ls, j) + [FirstTo(ls, j).value]) == multiset(ls)
  {
    assert ls != [];
    assert ls == [ls[0]] + ls[1..];
    if ls[0].to == j {
      CountToHas(ls[1..], j);
      WithoutNone(ls[1..], j);
      assert Without(ls, j) + [ls[0]] == ls[1..] + [ls[0]];
    } else {
      var rest := ls[1..];
      WithoutOnly(rest, j);
      var v := FirstTo(rest, j).value;
      assert FirstTo(ls, j) == FirstTo(rest, j);
      assert Without(ls, j) + [v] == [ls[0]] + (Without(rest, j) + [v]);
      assert multiset(Without(ls, j) + [v]) == multiset([ls[0]]) + multiset(rest);
    }
  }

  /** The other lists are unaffected by `Without`: no link to `j` remains. */
  lemma {:induction false} WithoutCount(ls: seq<Link>, j: int, i: int)
    ensures CountTo(Without(ls, j), i) == if i == j then 0 else CountTo(ls, i)
  {
    if ls != [] {
      WithoutCount(ls[1..], j, i);
      if ls[0].to == j {
        assert Without(ls, j) == Without(ls[1..], j);
      } else {
        assert Without(ls, j)[1..] == Without(ls[1..], j);
      }
    }
  }

  /** Counting over a concatenation. */
  lemma {:induction false} CountAppend(a: seq<Link>, b: seq<Link>, j: int)
    ensures CountTo(a + b, j) == CountTo(a, j) + CountTo(b, j)
  {
    if a != [] {
      assert (a + b)[1..] == a[1..] + b;
      CountAppend(a[1..], b, j);
    } else {
      assert a + b == b;
    }
  }

  /** Appending a link adds exactly its target. */
  lemma {:induction false} HasToAppend(ls: seq<Link>, l: Link, j: int)
    ensures HasTo(ls + [l], j) <==> HasTo(ls, j) || l.to == j
  {
    CountAppend(ls, [l], j);
    CountToHas(ls + [l], j);
    CountToHas(ls, j);
    assert CountTo([l], j) == (if l.to == j then 1 else 0);
  }

  /** `Without(ls, j)` leads everywhere `ls` does, except to `j`. */
  lemma {:induction false} HasToWithout(ls: seq<Link>, j: int, i: int)
    ensures HasTo(Without(ls, j), i) <==> HasTo(ls, i) && i != j
  {
    WithoutCount(ls, j, i);
    CountToHas(Without(ls, j), i);
    CountToHas(ls, i);
  }

  /** Where a list leads after appending `l`, and how often. */
  lemma {:induction false} AppendTargets(ls: seq<Link>, l: Link, v: int)
    ensures HasTo(ls + [l], v) <==> HasTo(ls, v) || l.to == v
    ensures CountTo(ls + [l], v) == CountTo(ls, v) + (if l.to == v then 1 else 0)
  {
    HasToAppend(ls, l, v);
    CountAppend(ls, [l], v);
    assert CountTo([l], v) == (if l.to == v then 1 else 0);
  }

  /** Where a list leads after dropping the links to `j`, and how often. */
  lemma {:induction false} WithoutTargets(ls: seq<Link>, j: int, v: int)
    ensures HasTo(Without(ls, j), v) <==> HasTo(ls, v) && v != j
    ensures CountTo(Without(ls, j), v) == if v == j then 0 else CountTo(ls, v)
  {
    HasToWithout(ls, j, v);
    WithoutCount(ls, j, v);
  }

  /** The first link to `j` after appending `l`. */
  lemma {:induction false} FirstToAppend(ls: seq<Link>, l: Link, j: int)
    ensures FirstTo(ls + [l], j) ==
      if HasTo(ls, j) then FirstTo(ls, j) else if l.to == j then Some(l) else None
  {
    FirstToIsFirst(ls, j);
    if ls == [] {
      assert [] + [l] == [l];
    } else {
      assert (ls + [l])[1..] == ls[1..] + [l];
      FirstToAppend(ls[1..], l, j);
      FirstToIsFirst(ls[1..], j);
      if ls[0].to != j {
        HasToAppend(ls[1..], l, j);
        CountToHas(ls, j);
        CountToHas(ls[1..], j);
      }
    }
  }

  class Node {
    /** Scratch distance of route tracing. */
    var distance: int
    const id: string
    var links: seq<Link>
    var seals: seq<Link>
    const clearanceLevel: int
    /** Position of the node in its graph. */
    const index: int

    /** `Node(id, clearanceLevel, index)`: no links, no seals, and the
        distance at `Integer.MAX_VALUE`. */
    constructor(id: string, clearanceLevel: int, index: int)
      ensures this.id == id && this.clearanceLevel == clearanceLevel && this.index == index
      ensures links == [] && seals == [] && distance == IntMax
    {
      this.id := id;
      links := [];
      seals := [];
      distance := IntMax;
      this.clearanceLevel := clearanceLevel;
      this.index := index;
    }

    /** `hasLinkTo(other)`. */
    method HasLinkTo(other: Node) returns (b: bool)
      ensures b <==> HasTo(links, other.index)
    {
      for k := 0 to |links|
        invariant forall i | 0 <= i < k :: links[i].to != other.index
      {
        if links[k].to == other.index {
          return true;
        }
      }
      return false;
    }

    /** `hasSealTo(other)`. */
    method HasSealTo(other: Node) returns (b: bool)
      ensures b <==> HasTo(seals, other.index)
    {
      for k := 0 to |seals|
        invariant forall i | 0 <= i < k :: seals[i].to != other.index
      {
        if seals[k].to == other.index {
          return true;
        }
      }
      return false;
    }

    /** `getLinkTo(other)`: the first link to `other`, `None` for null. */
    method GetLinkTo(other: Node) returns (r: Option<Link>)
      ensures r == FirstTo(links, other.index)
    {
      for k := 0 to |links|
        invariant FirstTo(links[k..], other.index) == FirstTo(links, other.index)
      {
        assert links[k..][1..] == links[k + 1..];
        if links[k].to == other.index {
          return Some(links[k]);
        }
      }
      return None;
    }

    /** `getSealTo(other)`: the first seal to `other`, `None` for null. */
    method GetSealTo(other: Node) returns (r: Option<Link>)
      ensures r == FirstTo(seals, other.index)
    {
      for k := 0 to |seals|
        invariant FirstTo(seals[k..], other.index) == FirstTo(seals, other.index)
      {
        assert seals[k..][1..] == seals[k + 1..];
        if seals[k].to == other.index {
          return Some(seals[k]);
        }
      }
      return None;
    }

    /** `removeLink(other)`: drop every link to `other`. */
    method RemoveLink(other: Node)
      modifies this
      ensures links == Without(old(links), other.index) && seals == old(seals)
      ensures distance == old(distance)
    {
      links := Without(links, other.index);
    }

    /** `removeSeal(other)`: drop every seal to `other`. */
    method RemoveSeal(other: Node)
      modifies this
      ensures seals == Without(old(seals), other.index) && links == old(links)
      ensures distance == old(distance)
    {
      seals := Without(seals, other.index);
    }

    /** `addLink(link)`. */
    method AddLink(link: Link)
      modifies this
      ensures links == old(links) + [link] && seals == old(seals)
      ensures distance == old(distance)
    {
      links := links + [link];
    }

    /** `addSeal(link)`. */
    method AddSeal(link: Link)
      modifies this
      ensures seals == old(seals) + [link] && links == old(links)
      ensures distance == old(distance)
    {
      seals := seals + [link];
    }

    /** `compareTo(node)`: by distance alone. */
    function CompareTo(node: Node): (r: int)
      reads this, node
      ensures r == -1 <==> distance < node.distance
      ensures r == 0 <==> distance == node.distance
      ensures r == 1 <==> distance > node.distance
    {
      if distance > node.distance then 1 else if distance < node.distance then -1 else 0
    }
  }
}
