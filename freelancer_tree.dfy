/** project2/src/AvlTree.java: the per-service tree of freelancers, ordered by
    `compare` (higher composite score first, then the smaller id), with a
    stored height per node and the top-k query `findBest`.

    As in the other trees of this model, a node is a value and each recursive
    helper returns the rebuilt subtree. The stored heights are fields, not
    derived values: `insert` returns early after a left descent without
    updating the height or rebalancing, so heights can go stale and the tree
    need not stay balanced. Search order is what every operation keeps. */
module FreelancerTrees {
  import opened Lang

  /** The fields of project2/src/Freelancer.java that the tree and the update
      rules of the main program read; `skills` is the `int[5]` of
      (T, C, R, E, A). */
  datatype Freelancer = Freelancer(id: string, service: string, price: int,
                                   compositeScore: int, skills: seq<int>)

  datatype Tree = Nil | Node(val: Freelancer, left: Tree, right: Tree, height: nat)

  /** `new Node(f)`: a leaf of height 0. */
  function Leaf(f: Freelancer): Tree { Node(f, Nil, Nil, 0) }

  /** The height a child contributes: -1 for a missing one. */
  function HeightOf(t: Tree): (h: int)
    ensures h >= -1 && (t.Node? ==> h >= 0)
  {
    if t.Nil? then -1 else t.height
  }

  /** `updateHeight(node)`: the four cases of the source agree with
      one more than the taller child, a missing child counting as -1. */
  function UpdateHeight(n: Tree): (r: Tree)
    requires n.Node?
    ensures r.Node? && r.val == n.val && r.left == n.left && r.right == n.right
    ensures r.height == 1 + Max(HeightOf(n.left), HeightOf(n.right))
  {
    if n.left.Nil? && n.right.Nil? then n.(height := 0)
    else if n.right.Nil? then n.(height := n.left.height + 1)
    else if n.left.Nil? then n.(height := n.right.height + 1)
    else n.(height := Max(n.left.height, n.right.height) + 1)
  }

  /** `Node.getBalance()`: the stored height of the left child minus that of
      the right one, a missing child counting as -1. */
  function GetBalance(n: Tree): (b: int)
    requires n.Node?
    ensures b == HeightOf(n.left) - HeightOf(n.right)
  {
    if n.right.Nil? && n.left.Nil? then 0
    else if n.right.Nil? then n.left.height + 1
    else if n.left.Nil? then -(n.right.height as int) - 1
    else n.left.height - n.right.height
  }

  /** `a` ranks above `b`: a higher composite score, or an equal score and
      an id that `String.compareTo` puts first. */
  predicate Above(a: Freelancer, b: Freelancer)
  {
    a.compositeScore > b.compositeScore ||
    (a.compositeScore == b.compositeScore && CompareStrings(a.id, b.id) < 0)
  }

  /** The two fields `compare` looks at. */
  predicate SameKey(a: Freelancer, b: Freelancer)
  {
    a.compositeScore == b.compositeScore && a.id == b.id
  }

  /** `compare(f1, f2)`: 1 when f1 ranks above f2, -1 when below, 0 when
      score and id are both equal. */
  function Compare(f1: Freelancer, f2: Freelancer): (c: int)
    ensures c == 1 || c == 0 || c == -1
    ensures c == 1 <==> Above(f1, f2)
    ensures c == -1 <==> Above(f2, f1)
    ensures c == 0 <==> SameKey(f1, f2)
  {
    CompareStringsZero(f1.id, f2.id);
    CompareStringsAntisymmetric(f1.id, f2.id);
    if f1.compositeScore > f2.compositeScore then 1
    else if f1.compositeScore < f2.compositeScore then -1
    else if CompareStrings(f1.id, f2.id) < 0 then 1
    else if CompareStrings(f1.id, f2.id) > 0 then -1
    else 0
  }

  /** `rightRotate(node)`: the left child becomes the root; the old root takes
      the left child's right subtree, and both heights are recomputed. */
  function RightRotate(node: Tree): (r: Tree)
    requires node.Node? && node.left.Node?
    ensures r.Node? && Contents(r) == Contents(node)
  {
    var leftChild := node.left;
    var temp := leftChild.right;
    UpdateHeight(leftChild.(right := UpdateHeight(node.(left := temp))))
  }

  /** `leftRotate(node)`: the mirror image. */
  function LeftRotate(node: Tree): (r: Tree)
    requires node.Node? && node.right.Node?
    ensures r.Node? && Contents(r) == Contents(node)
  {
    var rightChild := node.right;
    var temp := rightChild.left;
    UpdateHeight(rightChild.(left := UpdateHeight(node.(right := temp))))
  }

  /** `balance(n)`: a single or double rotation when the stored heights of
      the children differ by more than one, else n itself. */
  function Balance(n: Tree): (r: Tree)
    requires n.Node?
    ensures r.Node? && Contents(r) == Contents(n)
  {
    var balance := GetBalance(n);
    if balance > 1 then
      var n1 := if GetBalance(n.left) < 0 then n.(left := LeftRotate(n.left)) else n;
      RightRotate(n1)
    else if balance < -1 then
      var n1 := if GetBalance(n.right) > 0 then n.(right := RightRotate(n.right)) else n;
      LeftRotate(n1)
    else n
  }

  /** `insert(n, f)`, with the control flow of the source: after a left
      descent the second test fails and its `else` returns n at once, so
      only a right descent updates the height and rebalances. */
  function Insert(n: Tree, f: Freelancer): (r: Tree)
    ensures r.Node? && Contents(n) <= Contents(r) <= Contents(n) + {f}
  {
    if n.Nil? then Leaf(f)
    else if Compare(n.val, f) > 0 then n.(left := Insert(n.left, f))
    else if Compare(n.val, f) < 0 then Balance(UpdateHeight(n.(right := Insert(n.right, f))))
    else n
  }

  /** `successor(root)`: the leftmost node of a subtree. */
  function Successor(t: Tree): (s: Tree)
    requires t.Node?
    ensures s.Node? && s.left.Nil? && s.val in Contents(t)
  {
    if t.left.Node? then Successor(t.left) else t
  }

  /** `delete(n, f)`: removes the freelancer comparing equal to f. A node with
      one missing child is replaced by the other child, which is then itself
      given a fresh height and rebalanced; a node with two children takes its
      successor's freelancer. */
  function Delete(n: Tree, f: Freelancer): (r: Tree)
    ensures Contents(r) <= Contents(n)
  {
    if n.Nil? then Nil
    else
      var m :=
        if Compare(n.val, f) < 0 then n.(right := Delete(n.right, f))
        else if Compare(n.val, f) > 0 then n.(left := Delete(n.left, f))
        else if n.right.Nil? then n.left
        else if n.left.Nil? then n.right
        else
          var temp := Successor(n.right);
          n.(val := temp.val, right := Delete(n.right, temp.val));
      if m.Nil? then Nil else Balance(UpdateHeight(m))
  }

  /** The freelancers not on the blacklist, in the order given. */
  function Eligible(s: seq<Freelancer>, blacklisted: set<string>): (e: seq<Freelancer>)
    ensures |e| <= |s|
    ensures forall f :: f in e <==> f in s && f.id !in blacklisted
  {
    if s == [] then []
    else (if s[0].id in blacklisted then [] else [s[0]]) + Eligible(s[1..], blacklisted)
  }

  /** The first k elements of s (all of them when s is shorter, none when k
      is not positive). */
  function Take<T>(s: seq<T>, k: int): (p: seq<T>)
    ensures |p| == if k <= 0 then 0 else Min(k, |s|)
    ensures p == s[..|p|]
  {
    if k <= 0 then [] else if k >= |s| then s else s[..k]
  }

  /** `findBestHelper(node, n, best, blacklisted)`: the reverse in-order walk
      that appends to `best`, while it is shorter than n, every freelancer
      whose id is not blacklisted. Whatever `best` held, it gains the first
      eligible freelancers of the subtree, highest rank first. */
  method FindBestHelper(node: Tree, n: int, best: seq<Freelancer>, blacklisted: set<string>)
    returns (best': seq<Freelancer>)
    ensures best' == best + Take(Eligible(Descending(node), blacklisted), n - |best|)
    decreases node
  {
    if node.Nil? || |best| >= n {
      return best;
    }
    var afterRight := FindBestHelper(node.right, n, best, blacklisted);
    var here := afterRight;
    if |here| < n && node.val.id !in blacklisted {
      here := here + [node.val];
    }
    best' := FindBestHelper(node.left, n, here, blacklisted);
    WalkSplits(node, n, best, blacklisted, afterRight, here, best');
  }

  /** The walk's three pieces put together: the right subtree's share, the
      node itself, the left subtree's share. */
  lemma {:induction false} WalkSplits(node: Tree, n: int, best: seq<Freelancer>, bl: set<string>,
                                      afterRight: seq<Freelancer>, here: seq<Freelancer>,
                                      result: seq<Freelancer>)
    requires node.Node? && |best| < n
    requires afterRight == best + Take(Eligible(Descending(node.right), bl), n - |best|)
    requires here == if |afterRight| < n && node.val.id !in bl then afterRight + [node.val] else afterRight
    requires result == here + Take(Eligible(Descending(node.left), bl), n - |here|)
    ensures result == best + Take(Eligible(Descending(node), bl), n - |best|)
  {
    var er := Eligible(Descending(node.right), bl);
    var ev := Eligible([node.val], bl);
    var el := Eligible(Descending(node.left), bl);
    DescendingParts(node, bl);
    EligibleOne(node.val, bl);
    TakeThree(best, er, ev, el, n - |best|, afterRight, here, result);
  }

  lemma {:induction false} DescendingParts(node: Tree, bl: set<string>)
    requires node.Node?
    ensures Eligible(Descending(node), bl) ==
      Eligible(Descending(node.right), bl) + Eligible([node.val], bl) + Eligible(Descending(node.left), bl)
  {
    EligibleAppend(Descending(node.right), [node.val], bl);
    EligibleAppend(Descending(node.right) + [node.val], Descending(node.left), bl);
  }

  lemma {:induction false} EligibleOne(f: Freelancer, bl: set<string>)
    ensures Eligible([f], bl) == if f.id in bl then [] else [f]
  {
    assert [f][1..] == [];
  }

  /** The accumulator arithmetic of the walk, on plain sequences. */
  lemma {:induction false} TakeThree<T>(best: seq<T>, er: seq<T>, ev: seq<T>, el: seq<T>, k: int,
                                        afterRight: seq<T>, here: seq<T>, result: seq<T>)
    requires k > 0 && |ev| <= 1
    requires afterRight == best + Take(er, k)
    requires here == if |afterRight| < |best| + k && ev != [] then afterRight + ev else afterRight
    requires result == here + Take(el, |best| + k - |here|)
    ensures result == best + Take(er + ev + el, k)
  {
    TakeAppend(er + ev, el, k);
    TakeAppend(er, ev, k);
    if |er| >= k {
      assert Take(ev, k - |er|) == [];
      assert here == afterRight;
      assert Take(el, |best| + k - |here|) == [];
      assert Take(el, k - |er + ev|) == [];
    } else {
      assert Take(er, k) == er;
      if ev != [] {
        assert Take(ev, k - |er|) == ev;
      } else {
        assert Take(ev, k - |er|) == [];
      }
    }
  }

  lemma {:induction false} EligibleAppend(s: seq<Freelancer>, t: seq<Freelancer>, bl: set<string>)
    ensures Eligible(s + t, bl) == Eligible(s, bl) + Eligible(t, bl)
    decreases |s|
  {
    if s == [] {
      assert s + t == t;
    } else {
      assert (s + t)[1..] == s[1..] + t;
      EligibleAppend(s[1..], t, bl);
    }
  }

  lemma {:induction false} TakeAppend<T>(a: seq<T>, b: seq<T>, k: int)
    ensures Take(a + b, k) == Take(a, k) + Take(b, k - |a|)
  {
    if k <= 0 {
    } else if k >= |a| + |b| {
      assert Take(b, k - |a|) == b;
    } else if k >= |a| {
      assert (a + b)[..k] == a + b[..k - |a|];
    } else {
      assert (a + b)[..k] == a[..k];
    }
  }

  /** `AvlTree`: the object owning a service's root. Main reassigns `root`
      with the results of `insert`/`delete`; `findBest` reads it. */
  class AvlTree {
    var root: Tree

    constructor()
      ensures root == Nil
    {
      root := Nil;
    }

    /** `findBest(n, blacklisted)`: the first n non-blacklisted freelancers
        of the tree, highest rank first. */
    method FindBest(n: int, blacklisted: set<string>) returns (best: seq<Freelancer>)
      ensures best == Take(Eligible(Descending(root), blacklisted), n)
    {
      best := FindBestHelper(root, n, [], blacklisted);
    }
  }


  // ---------------------------------------------------------------------
  // The invariant

  ghost function Contents(t: Tree): set<Freelancer>
  {
    if t.Nil? then {} else Contents(t.left) + {t.val} + Contents(t.right)
  }

  /** In-order: lowest rank first. */
  ghost function InOrder(t: Tree): seq<Freelancer>
  {
    if t.Nil? then [] else InOrder(t.left) + [t.val] + InOrder(t.right)
  }

  /** Reverse in-order, the order `findBestHelper` visits: highest rank first. */
  ghost function Descending(t: Tree): seq<Freelancer>
  {
    if t.Nil? then [] else Descending(t.right) + [t.val] + Descending(t.left)
  }

  ghost predicate HasKey(t: Tree, f: Freelancer)
  {
    exists d :: d in Contents(t) && SameKey(d, f)
  }

  /** The freelancers of s other than the one comparing equal to f. */
  ghost function WithoutKey(s: set<Freelancer>, f: Freelancer): set<Freelancer>
  {
    set d | d in s && !SameKey(d, f)
  }

  ghost predicate AllBelow(s: set<Freelancer>, f: Freelancer) { forall d | d in s :: Above(f, d) }
  ghost predicate AllAbove(f: Freelancer, s: set<Freelancer>) { forall d | d in s :: Above(d, f) }

  /** Search order at every node: the left subtree ranks below the node, the
      right subtree above it. Heights are not part of it. */
  ghost predicate Ordered(t: Tree)
  {
    t.Node? ==>
      Ordered(t.left) && Ordered(t.right) &&
      AllBelow(Contents(t.left), t.val) && AllAbove(t.val, Contents(t.right))
  }

  /** Strictly increasing in rank. */
  ghost predicate Ascending(s: seq<Freelancer>)
  {
    forall i, j | 0 <= i < j < |s| :: Above(s[j], s[i])
  }

  /** Strictly decreasing in rank. */
  ghost predicate Descends(s: seq<Freelancer>)
  {
    forall i, j | 0 <= i < j < |s| :: Above(s[i], s[j])
  }


  // ---------------------------------------------------------------------
  // The ranking

  /** `compare` is a strict total order on (score, id): irreflexive,
      asymmetric, transitive, and any two freelancers with different keys
      are ranked one way or the other. */
  lemma {:induction false} AboveIsStrictOrder(a: Freelancer, b: Freelancer, c: Freelancer)
    ensures !Above(a, a)
    ensures Above(a, b) ==> !Above(b, a)
    ensures Above(a, b) && Above(b, c) ==> Above(a, c)
    ensures !SameKey(a, b) ==> Above(a, b) || Above(b, a)
  {
    CompareStringsZero(a.id, a.id);
    CompareStringsZero(a.id, b.id);
    CompareStringsAntisymmetric(a.id, b.id);
    if Above(a, b) && Above(b, c) && a.compositeScore == b.compositeScore == c.compositeScore {
      CompareStringsTransitive(a.id, b.id, c.id);
    }
  }

  /** Swapping the arguments of `compare` flips the sign. */
  lemma {:induction false} CompareAntisymmetric(f1: Freelancer, f2: Freelancer)
    ensures Compare(f2, f1) == -Compare(f1, f2)
  {
    AboveIsStrictOrder(f1, f2, f2);
  }

  lemma {:induction false} AllBelowTrans(s: set<Freelancer>, a: Freelancer, b: Freelancer)
    requires AllBelow(s, a) && Above(b, a)
    ensures AllBelow(s, b)
  {
    forall d | d in s ensures Above(b, d) {
      AboveIsStrictOrder(b, a, d);
    }
  }

  lemma {:induction false} AllAboveTrans(a: Freelancer, b: Freelancer, s: set<Freelancer>)
    requires AllAbove(a, s) && Above(a, b)
    ensures AllAbove(b, s)
  {
    forall d | d in s ensures Above(d, b) {
      AboveIsStrictOrder(d, a, b);
    }
  }


  // ---------------------------------------------------------------------
  // Order and in-order sequence

  lemma {:induction false} InOrderContents(t: Tree)
    ensures forall f :: f in InOrder(t) <==> f in Contents(t)
    ensures forall f :: f in Descending(t) <==> f in Contents(t)
  {
    if t.Node? {
      InOrderContents(t.left);
      InOrderContents(t.right);
    }
  }

  /** A tree is in search order exactly when its in-order sequence is
      strictly increasing in rank. */
  lemma {:induction false} OrderedIffAscending(t: Tree)
    ensures Ordered(t) <==> Ascending(InOrder(t))
  {
    if Ordered(t) {
      OrderedAscending(t);
    }
    if Ascending(InOrder(t)) {
      AscendingOrdered(t);
    }
  }

  lemma {:induction false} OrderedAscending(t: Tree)
    requires Ordered(t)
    ensures Ascending(InOrder(t))
  {
    if t.Node? {
      OrderedAscending(t.left);
      OrderedAscending(t.right);
      InOrderContents(t.left);
      InOrderContents(t.right);
      AscendingJoin(InOrder(t.left), t.val, InOrder(t.right));
    }
  }

  /** Two increasing runs around a pivot that ranks between them. */
  lemma {:induction false} AscendingJoin(l: seq<Freelancer>, v: Freelancer, r: seq<Freelancer>)
    requires Ascending(l) && Ascending(r)
    requires forall d | d in l :: Above(v, d)
    requires forall d | d in r :: Above(d, v)
    ensures Ascending(l + [v] + r)
  {
    var s := l + [v] + r;
    var nl := |l|;
    forall i, j | 0 <= i < j < |s| ensures Above(s[j], s[i]) {
      if j < nl {
        assert s[i] == l[i] && s[j] == l[j];
      } else if i > nl {
        assert s[i] == r[i - nl - 1] && s[j] == r[j - nl - 1];
      } else if i == nl {
        assert s[j] == r[j - nl - 1];
      } else if j == nl {
        assert s[i] == l[i];
      } else {
        assert s[i] == l[i] && s[j] == r[j - nl - 1];
        AboveIsStrictOrder(s[j], v, s[i]);
      }
    }
  }

  lemma {:induction false} AscendingOrdered(t: Tree)
    requires Ascending(InOrder(t))
    ensures Ordered(t)
  {
    if t.Node? {
      InOrderContents(t.left);
      InOrderContents(t.right);
      AscendingSplit(InOrder(t.left), t.val, InOrder(t.right));
      AscendingOrdered(t.left);
      AscendingOrdered(t.right);
    }
  }

  /** The parts of an increasing run around a pivot. */
  lemma {:induction false} AscendingSplit(l: seq<Freelancer>, v: Freelancer, r: seq<Freelancer>)
    requires Ascending(l + [v] + r)
    ensures Ascending(l) && Ascending(r)
    ensures forall d | d in l :: Above(v, d)
    ensures forall d | d in r :: Above(d, v)
  {
    var s := l + [v] + r;
    var nl := |l|;
    forall i, j | 0 <= i < j < |l| ensures Above(l[j], l[i]) {
      assert l[i] == s[i] && l[j] == s[j];
    }
    forall i, j | 0 <= i < j < |r| ensures Above(r[j], r[i]) {
      assert r[i] == s[i + nl + 1] && r[j] == s[j + nl + 1];
    }
    forall d | d in l ensures Above(v, d) {
      var i :| 0 <= i < nl && l[i] == d;
      assert s[i] == d && s[nl] == v;
    }
    forall d | d in r ensures Above(d, v) {
      var i :| 0 <= i < |r| && r[i] == d;
      assert s[i + nl + 1] == d && s[nl] == v;
    }
  }

  /** The walk order of `findBest` is strictly decreasing in rank. */
  lemma {:induction false} DescendingSorted(t: Tree)
    requires Ordered(t)
    ensures Descends(Descending(t))
  {
    if t.Node? {
      DescendingSorted(t.left);
      DescendingSorted(t.right);
      InOrderContents(t.left);
      InOrderContents(t.right);
      var l, r := Descending(t.left), Descending(t.right);
      var s := Descending(t);
      var nr := |r|;
      assert s == r + [t.val] + l;
      forall i, j | 0 <= i < j < |s| ensures Above(s[i], s[j]) {
        if j < nr {
          assert s[i] == r[i] && s[j] == r[j];
        } else if i > nr {
          assert s[i] == l[i - nr - 1] && s[j] == l[j - nr - 1];
        } else if i == nr {
          assert s[j] == l[j - nr - 1];
        } else if j == nr {
          assert s[i] == r[i];
        } else {
          assert s[i] == r[i] && s[j] == l[j - nr - 1];
          AboveIsStrictOrder(s[i], t.val, s[j]);
        }
      }
    }
  }

  /** The same in-order sequence means the same freelancers and the same
      search order. */
  lemma {:induction false} SameInOrder(t: Tree, u: Tree)
    requires InOrder(t) == InOrder(u)
    ensures Contents(t) == Contents(u)
    ensures Ordered(t) <==> Ordered(u)
  {
    InOrderContents(t);
    InOrderContents(u);
    OrderedIffAscending(t);
    OrderedIffAscending(u);
  }

  /** Recomputing a height leaves the in-order sequence alone. */
  lemma {:induction false} UpdateHeightKeepsOrder(n: Tree)
    requires n.Node?
    ensures InOrder(UpdateHeight(n)) == InOrder(n)
    ensures Contents(UpdateHeight(n)) == Contents(n)
    ensures Ordered(UpdateHeight(n)) <==> Ordered(n)
  {
  }

  /** `rightRotate` keeps the in-order sequence. */
  lemma {:induction false} RightRotateKeepsOrder(node: Tree)
    requires node.Node? && node.left.Node?
    ensures InOrder(RightRotate(node)) == InOrder(node)
  {
    var x := node.left;
    var lower := UpdateHeight(node.(left := x.right));
    assert InOrder(lower) == InOrder(x.right) + [node.val] + InOrder(node.right);
    assert InOrder(RightRotate(node)) == InOrder(x.left) + [x.val] + InOrder(lower);
    assert InOrder(node) == InOrder(x.left) + [x.val] + InOrder(x.right) + [node.val] + InOrder(node.right);
  }

  /** `leftRotate` keeps the in-order sequence. */
  lemma {:induction false} LeftRotateKeepsOrder(node: Tree)
    requires node.Node? && node.right.Node?
    ensures InOrder(LeftRotate(node)) == InOrder(node)
  {
    var y := node.right;
    var lower := UpdateHeight(node.(right := y.left));
    assert InOrder(lower) == InOrder(node.left) + [node.val] + InOrder(y.left);
    assert InOrder(LeftRotate(node)) == InOrder(lower) + [y.val] + InOrder(y.right);
    assert InOrder(node) == InOrder(node.left) + [node.val] + InOrder(y.left) + [y.val] + InOrder(y.right);
  }

  /** `balance` keeps the in-order sequence, so the freelancers and their
      order; it leaves n alone unless the stored heights of its children
      differ by more than one, and then n sinks to its lighter side. */
  lemma {:induction false} BalanceKeepsOrder(n: Tree)
    requires n.Node?
    ensures InOrder(Balance(n)) == InOrder(n)
    ensures Contents(Balance(n)) == Contents(n)
    ensures Ordered(Balance(n)) <==> Ordered(n)
    ensures -1 <= GetBalance(n) <= 1 ==> Balance(n) == n
    ensures GetBalance(n) > 1 ==> Balance(n).right.Node? && Balance(n).right.val == n.val
    ensures GetBalance(n) < -1 ==> Balance(n).left.Node? && Balance(n).left.val == n.val
  {
    var balance := GetBalance(n);
    if balance > 1 {
      if GetBalance(n.left) < 0 {
        LeftRotateKeepsOrder(n.left);
        var n1 := n.(left := LeftRotate(n.left));
        assert InOrder(n1) == InOrder(n);
        RightRotateKeepsOrder(n1);
      } else {
        RightRotateKeepsOrder(n);
      }
    } else if balance < -1 {
      if GetBalance(n.right) > 0 {
        RightRotateKeepsOrder(n.right);
        var n1 := n.(right := RightRotate(n.right));
        assert InOrder(n1) == InOrder(n);
        LeftRotateKeepsOrder(n1);
      } else {
        LeftRotateKeepsOrder(n);
      }
    }
    SameInOrder(Balance(n), n);
  }

  /** What the right-descent branch of `insert` and every branch of `delete`
      do after relinking: recompute the height and rebalance. */
  lemma {:induction false} RebuildKeepsOrder(n: Tree)
    requires n.Node?
    ensures Contents(Balance(UpdateHeight(n))) == Contents(n)
    ensures Ordered(Balance(UpdateHeight(n))) <==> Ordered(n)
  {
    UpdateHeightKeepsOrder(n);
    BalanceKeepsOrder(UpdateHeight(n));
  }


  // ---------------------------------------------------------------------
  // insert

  /** `insert` keeps search order and adds f unless a freelancer comparing
      equal to it is already there, in which case nothing changes. */
  lemma {:induction false} InsertCorrect(t: Tree, f: Freelancer)
    requires Ordered(t)
    ensures Ordered(Insert(t, f))
    ensures HasKey(t, f) ==> Contents(Insert(t, f)) == Contents(t)
    ensures !HasKey(t, f) ==> Contents(Insert(t, f)) == Contents(t) + {f}
  {
    if t.Node? {
      var c := Compare(t.val, f);
      if c > 0 {
        InsertCorrect(t.left, f);
        KeyGoesLeft(t, f);
        var l' := Insert(t.left, f);
        assert Contents(l') <= Contents(t.left) + {f};
        assert AllBelow(Contents(l'), t.val);
        if !HasKey(t, f) {
          assert Contents(Insert(t, f)) == Contents(l') + {t.val} + Contents(t.right);
        }
      } else if c < 0 {
        InsertCorrect(t.right, f);
        KeyGoesRight(t, f);
        var r' := Insert(t.right, f);
        assert Contents(r') <= Contents(t.right) + {f};
        assert AllAbove(t.val, Contents(r'));
        var m := t.(right := r');
        RebuildKeepsOrder(m);
        assert Contents(m) == Contents(t.left) + {t.val} + Contents(r');
      } else {
        assert HasKey(t, f) by { assert t.val in Contents(t) && SameKey(t.val, f); }
      }
    }
  }

  /** Below a node that ranks above f, f's key can only be in the left subtree. */
  lemma {:induction false} KeyGoesLeft(t: Tree, f: Freelancer)
    requires Ordered(t) && t.Node? && Above(t.val, f)
    ensures HasKey(t, f) <==> HasKey(t.left, f)
  {
    if HasKey(t, f) {
      var d :| d in Contents(t) && SameKey(d, f);
      if d == t.val || d in Contents(t.right) {
        AboveIsStrictOrder(t.val, f, f);
        assert false;
      }
    }
  }

  /** Below a node that ranks below f, f's key can only be in the right subtree. */
  lemma {:induction false} KeyGoesRight(t: Tree, f: Freelancer)
    requires Ordered(t) && t.Node? && Above(f, t.val)
    ensures HasKey(t, f) <==> HasKey(t.right, f)
  {
    if HasKey(t, f) {
      var d :| d in Contents(t) && SameKey(d, f);
      if d == t.val || d in Contents(t.left) {
        AboveIsStrictOrder(f, t.val, t.val);
        assert false;
      }
    }
  }

  /** The left-descent branch as written: the rebuilt left subtree is linked
      in, and the node keeps its stored height and is not rebalanced. */
  lemma {:induction false} InsertLeftSkipsRebalance(t: Tree, f: Freelancer)
    requires t.Node? && Above(t.val, f)
    ensures Insert(t, f) == t.(left := Insert(t.left, f))
    ensures Insert(t, f).height == t.height
  {
  }

  // ---------------------------------------------------------------------
  // findBest

  /** What `findBest(n, blacklisted)` returns from a tree in search order: at
      most n freelancers, none blacklisted, all from the tree, in strictly
      decreasing rank, and they are the top of the ranking: every eligible
      freelancer left out ranks below all of them. */
  lemma {:induction false} FindBestSound(t: Tree, n: int, bl: set<string>)
    requires Ordered(t)
    ensures var best := Take(Eligible(Descending(t), bl), n);
      |best| <= Max(n, 0) &&
      (forall f | f in best :: f in Contents(t) && f.id !in bl) &&
      Descends(best) &&
      (forall f, g | f in Contents(t) && f.id !in bl && f !in best && g in best :: Above(g, f))
  {
    var e := Eligible(Descending(t), bl);
    var best := Take(e, n);
    InOrderContents(t);
    DescendingSorted(t);
    EligibleDescends(Descending(t), bl);
    forall f, g | f in Contents(t) && f.id !in bl && f !in best && g in best ensures Above(g, f) {
      var i :| 0 <= i < |e| && e[i] == f;
      var j :| 0 <= j < |best| && best[j] == g;
      assert e[j] == g;
    }
  }

  /** Dropping the blacklisted freelancers keeps a decreasing run decreasing. */
  lemma {:induction false} EligibleDescends(s: seq<Freelancer>, bl: set<string>)
    requires Descends(s)
    ensures Descends(Eligible(s, bl))
    decreases |s|
  {
    if s != [] {
      var tail := s[1..];
      assert Descends(tail) by {
        forall i, j | 0 <= i < j < |tail| ensures Above(tail[i], tail[j]) {
          assert tail[i] == s[i + 1] && tail[j] == s[j + 1];
        }
      }
      EligibleDescends(tail, bl);
      var et := Eligible(tail, bl);
      if s[0].id !in bl {
        var e := [s[0]] + et;
        forall i, j | 0 <= i < j < |e| ensures Above(e[i], e[j]) {
          if i > 0 {
            assert e[i] == et[i - 1] && e[j] == et[j - 1];
          } else {
            assert e[j] == et[j - 1] && et[j - 1] in tail;
            var k :| 0 <= k < |tail| && tail[k] == e[j];
            assert s[k + 1] == e[j];
          }
        }
      }
    }
  }

  // ---------------------------------------------------------------------
  // delete

  /** The successor holds the lowest-ranked freelancer of the subtree. */
  lemma {:induction false} SuccessorIsLowest(t: Tree)
    requires Ordered(t) && t.Node?
    ensures forall d | d in Contents(t) && d != Successor(t).val :: Above(d, Successor(t).val)
  {
    if t.left.Node? {
      SuccessorIsLowest(t.left);
      var s := Successor(t.left).val;
      assert Above(t.val, s);
      AllAboveTrans(t.val, s, Contents(t.right));
    }
  }

  /** `delete` keeps search order and removes exactly the freelancer
      comparing equal to f; when there is none, the freelancers stay the
      same (the heights on the search path are still recomputed and the
      nodes rebalanced). */
  lemma {:induction false} DeleteCorrect(t: Tree, f: Freelancer)
    requires Ordered(t)
    ensures Ordered(Delete(t, f))
    ensures Contents(Delete(t, f)) == WithoutKey(Contents(t), f)
    decreases t, 1
  {
    if t.Node? {
      var c := Compare(t.val, f);
      var m :=
        if c < 0 then t.(right := Delete(t.right, f))
        else if c > 0 then t.(left := Delete(t.left, f))
        else if t.right.Nil? then t.left
        else if t.left.Nil? then t.right
        else
          var temp := Successor(t.right);
          t.(val := temp.val, right := Delete(t.right, temp.val));
      DeleteStep(t, f);
      assert Ordered(m) && Contents(m) == WithoutKey(Contents(t), f);
      if m.Node? {
        RebuildKeepsOrder(m);
      }
    }
  }

  /** One level of `delete`, before the height update and rebalance. */
  lemma {:induction false} DeleteStep(t: Tree, f: Freelancer)
    requires Ordered(t) && t.Node?
    ensures var c := Compare(t.val, f);
      var m :=
        if c < 0 then t.(right := Delete(t.right, f))
        else if c > 0 then t.(left := Delete(t.left, f))
        else if t.right.Nil? then t.left
        else if t.left.Nil? then t.right
        else
          var temp := Successor(t.right);
          t.(val := temp.val, right := Delete(t.right, temp.val));
      Ordered(m) && Contents(m) == WithoutKey(Contents(t), f)
    decreases t, 0
  {
    var c := Compare(t.val, f);
    if c < 0 {
      DeleteCorrect(t.right, f);
      DeleteRight(t, f);
    } else if c > 0 {
      DeleteCorrect(t.left, f);
      DeleteLeft(t, f);
    } else if t.right.Nil? || t.left.Nil? {
      DeleteHere(t, f);
    } else {
      DeleteCorrect(t.right, Successor(t.right).val);
      DeleteWithSuccessor(t, f);
    }
  }

  lemma {:induction false} DeleteRight(t: Tree, f: Freelancer)
    requires Ordered(t) && t.Node? && Above(f, t.val)
    requires Ordered(Delete(t.right, f)) && Contents(Delete(t.right, f)) == WithoutKey(Contents(t.right), f)
    ensures Ordered(t.(right := Delete(t.right, f)))
    ensures Contents(t.(right := Delete(t.right, f))) == WithoutKey(Contents(t), f)
  {
    var r' := Delete(t.right, f);
    assert AllAbove(t.val, Contents(r'));
    forall d | d in Contents(t.left) + {t.val} ensures !SameKey(d, f) {
      AboveIsStrictOrder(f, t.val, d);
    }
  }

  lemma {:induction false} DeleteLeft(t: Tree, f: Freelancer)
    requires Ordered(t) && t.Node? && Above(t.val, f)
    requires Ordered(Delete(t.left, f)) && Contents(Delete(t.left, f)) == WithoutKey(Contents(t.left), f)
    ensures Ordered(t.(left := Delete(t.left, f)))
    ensures Contents(t.(left := Delete(t.left, f))) == WithoutKey(Contents(t), f)
  {
    var l' := Delete(t.left, f);
    assert AllBelow(Contents(l'), t.val);
    forall d | d in {t.val} + Contents(t.right) ensures !SameKey(d, f) {
      AboveIsStrictOrder(d, t.val, f);
    }
  }

  /** The node itself compares equal to f: every other freelancer of the
      tree has another key. */
  lemma {:induction false} OnlyKeyHere(t: Tree, f: Freelancer)
    requires Ordered(t) && t.Node? && SameKey(t.val, f)
    ensures WithoutKey(Contents(t), f) == Contents(t.left) + Contents(t.right)
  {
    forall d | d in Contents(t.left) ensures !SameKey(d, f) {
      AboveIsStrictOrder(t.val, d, d);
    }
    forall d | d in Contents(t.right) ensures !SameKey(d, f) {
      AboveIsStrictOrder(d, t.val, t.val);
    }
  }

  lemma {:induction false} DeleteHere(t: Tree, f: Freelancer)
    requires Ordered(t) && t.Node? && SameKey(t.val, f) && (t.left.Nil? || t.right.Nil?)
    ensures var m := if t.right.Nil? then t.left else t.right;
      Ordered(m) && Contents(m) == WithoutKey(Contents(t), f)
  {
    OnlyKeyHere(t, f);
  }

  lemma {:induction false} DeleteWithSuccessor(t: Tree, f: Freelancer)
    requires Ordered(t) && t.Node? && SameKey(t.val, f) && t.left.Node? && t.right.Node?
    requires var s := Successor(t.right).val;
      Ordered(Delete(t.right, s)) && Contents(Delete(t.right, s)) == WithoutKey(Contents(t.right), s)
    ensures var s := Successor(t.right).val;
      var m := t.(val := s, right := Delete(t.right, s));
      Ordered(m) && Contents(m) == WithoutKey(Contents(t), f)
  {
    var s := Successor(t.right).val;
    var r' := Delete(t.right, s);
    OnlyKeyHere(t, f);
    SuccessorIsLowest(t.right);
    assert Above(s, t.val);
    AllBelowTrans(Contents(t.left), t.val, s);
    forall d | d in Contents(r') ensures Above(d, s) {
      assert d in Contents(t.right) && !SameKey(d, s);
    }
    assert WithoutKey(Contents(t.right), s) == Contents(t.right) - {s} by {
      forall d | d in Contents(t.right) && d != s ensures !SameKey(d, s) {
        AboveIsStrictOrder(d, s, s);
      }
    }
  }
}
