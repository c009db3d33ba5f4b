/** The `DiscardTree` of project1/src/CardDatabase.java: an AVL tree of the
    discarded cards ordered by missing health, ascending or descending as
    the tree's `sortAscending` flag says, with the discard time ascending
    as the tiebreaker. Nodes carry their height only.

    As in `HealthTrees`, the recursive helpers that relink nodes in place
    become functions returning the rebuilt subtree. */
module DiscardTrees {
  import opened Lang
  import opened Cards

  datatype DNode = Nil | Node(data: Card, left: DNode, right: DNode, height: nat)

  function Height(n: DNode): nat { if n.Nil? then 0 else n.height }

  /** A node over card d with the height `updateHeight` computes; with two
      empty children this is also `new Node(card)`. */
  function Mk(d: Card, l: DNode, r: DNode): DNode
  {
    Node(d, l, r, 1 + Max(Height(l), Height(r)))
  }

  function UpdateHeight(n: DNode): DNode
  {
    if n.Nil? then n else Mk(n.data, n.left, n.right)
  }

  /** `size(n)`: the number of nodes. */
  function Size(n: DNode): nat
  {
    if n.Nil? then 0 else 1 + Size(n.left) + Size(n.right)
  }

  /** The tree's key order: missing health in the tree's direction, then the
      earlier discard time. */
  predicate Before(asc: bool, a: Card, b: Card)
  {
    if asc then HMissing(a) < HMissing(b) || (HMissing(a) == HMissing(b) && a.discardTime < b.discardTime)
    else HMissing(a) > HMissing(b) || (HMissing(a) == HMissing(b) && a.discardTime < b.discardTime)
  }

  predicate SameKey(a: Card, b: Card) { HMissing(a) == HMissing(b) && a.discardTime == b.discardTime }

  /** The comparison written out in `insert` and `delete`. */
  function Compare(asc: bool, a: Card, b: Card): (cmp: int)
    ensures cmp < 0 <==> Before(asc, a, b)
    ensures cmp > 0 <==> Before(asc, b, a)
    ensures cmp == 0 <==> SameKey(a, b)
  {
    var h1 := HMissing(a);
    var h2 := HMissing(b);
    if asc && h1 < h2 then -1
    else if asc && h1 > h2 then 1
    else if !asc && h1 > h2 then -1
    else if !asc && h1 < h2 then 1
    else if a.discardTime < b.discardTime then -1
    else if a.discardTime > b.discardTime then 1
    else 0
  }

  function Balance(n: DNode): int { if n.Nil? then 0 else Height(n.left) - Height(n.right) }

  function RotateRight(y: DNode): (r: DNode)
    requires y.Node? && y.left.Node?
    ensures r.Node? && Contents(r) == Contents(y)
  {
    var x := y.left;
    UpdateHeight(x.(right := UpdateHeight(y.(left := x.right))))
  }

  function RotateLeft(x: DNode): (r: DNode)
    requires x.Node? && x.right.Node?
    ensures r.Node? && Contents(r) == Contents(x)
  {
    var y := x.right;
    UpdateHeight(y.(left := UpdateHeight(x.(right := y.left))))
  }

  /** `rebalance(n)`: the LL, LR, RR and RL fix-ups. */
  function Rebalance(n: DNode): (r: DNode)
    ensures Contents(r) == Contents(n)
    ensures n.Node? ==> r.Node?
  {
    if Balance(n) > 1 then
      var n1 := if Balance(n.left) < 0 then n.(left := RotateLeft(n.left)) else n;
      RotateRight(n1)
    else if Balance(n) < -1 then
      var n1 := if Balance(n.right) > 0 then n.(right := RotateRight(n.right)) else n;
      RotateLeft(n1)
    else n
  }

  /** `insert(n, card)`: a card whose key is already present is not added. */
  function Insert(asc: bool, n: DNode, card: Card): (r: DNode)
    ensures r.Node? && Contents(n) <= Contents(r) <= Contents(n) + {card}
  {
    if n.Nil? then Mk(card, Nil, Nil)
    else
      var cmp := Compare(asc, card, n.data);
      if cmp < 0 then Rebalance(UpdateHeight(n.(left := Insert(asc, n.left, card))))
      else if cmp > 0 then Rebalance(UpdateHeight(n.(right := Insert(asc, n.right, card))))
      else n
  }

  /** The node `findMinNode` walks to. */
  function Leftmost(n: DNode): (m: Card)
    requires n.Node?
    ensures m in Contents(n)
  {
    if n.left.Nil? then n.data else Leftmost(n.left)
  }

  /** `delete(n, card)`: removes the card with the same key; a node with two
      children takes its in-order successor's card. */
  function Delete(asc: bool, n: DNode, card: Card): (r: DNode)
    ensures Contents(r) <= Contents(n)
  {
    if n.Nil? then Nil
    else
      var cmp := Compare(asc, card, n.data);
      if cmp < 0 then Rebalance(UpdateHeight(n.(left := Delete(asc, n.left, card))))
      else if cmp > 0 then Rebalance(UpdateHeight(n.(right := Delete(asc, n.right, card))))
      else if n.left.Nil? then n.right
      else if n.right.Nil? then n.left
      else
        var s := Leftmost(n.right);
        Rebalance(UpdateHeight(n.(data := s, right := Delete(asc, n.right, s))))
  }

  /** `findMin()`, with the while loop of `findMinNode`. */
  method FindMin(t: DNode) returns (r: Option<Card>)
    ensures t.Nil? ==> r == None
    ensures t.Node? ==> r == Some(Leftmost(t))
  {
    if t.Nil? {
      return None;
    }
    var n := t;
    while n.left.Node?
      invariant n.Node? && Leftmost(n) == Leftmost(t)
      decreases n
    {
      n := n.left;
    }
    return Some(n.data);
  }

  /** `findRevivableHelper(n, healPool, result)`: the first card in tree
      order whose missing health the pool can pay. */
  function FindRevivable(n: DNode, healPool: int): (r: Option<Card>)
    ensures r.Some? ==> r.value in Contents(n) && HMissing(r.value) <= healPool
  {
    if n.Nil? then None
    else if HMissing(n.data) > healPool then FindRevivable(n.right, healPool)
    else
      var fromLeft := FindRevivable(n.left, healPool);
      if fromLeft.Some? then fromLeft else Some(n.data)
  }

  // ---------------------------------------------------------------------
  // The invariant

  ghost function Contents(t: DNode): set<Card>
  {
    if t.Nil? then {} else Contents(t.left) + {t.data} + Contents(t.right)
  }

  ghost predicate HasKey(t: DNode, c: Card)
  {
    exists d :: d in Contents(t) && SameKey(d, c)
  }

  /** The cards of s other than those with c's key. */
  ghost function WithoutKey(s: set<Card>, c: Card): set<Card>
  {
    set d | d in s && !SameKey(d, c)
  }

  ghost predicate AllBefore(asc: bool, s: set<Card>, d: Card) { forall c | c in s :: Before(asc, c, d) }
  ghost predicate AllAfter(asc: bool, d: Card, s: set<Card>) { forall c | c in s :: Before(asc, d, c) }

  /** Search order, AVL balance and the heights `updateHeight` computes, at
      every node. */
  ghost predicate Valid(asc: bool, t: DNode)
  {
    t.Node? ==>
      Valid(asc, t.left) && Valid(asc, t.right) &&
      AllBefore(asc, Contents(t.left), t.data) && AllAfter(asc, t.data, Contents(t.right)) &&
      -1 <= Height(t.left) - Height(t.right) <= 1 &&
      t == Mk(t.data, t.left, t.right)
  }

  // ---------------------------------------------------------------------
  // Lemmas

  lemma {:induction false} ValidParts(asc: bool, t: DNode)
    requires Valid(asc, t) && t.Node?
    ensures Valid(asc, t.left) && Valid(asc, t.right)
    ensures AllBefore(asc, Contents(t.left), t.data) && AllAfter(asc, t.data, Contents(t.right))
    ensures Height(t) == 1 + Max(Height(t.left), Height(t.right))
    ensures -1 <= Height(t.left) - Height(t.right) <= 1
    ensures Contents(t) == Contents(t.left) + {t.data} + Contents(t.right)
  {
  }

  /** A node built by `updateHeight` over valid, ordered, balanced parts is valid. */
  lemma {:induction false} MkValid(asc: bool, d: Card, l: DNode, r: DNode)
    requires Valid(asc, l) && Valid(asc, r) && AllBefore(asc, Contents(l), d) && AllAfter(asc, d, Contents(r))
    requires -1 <= Height(l) - Height(r) <= 1
    ensures Valid(asc, Mk(d, l, r))
    ensures Height(Mk(d, l, r)) == 1 + Max(Height(l), Height(r))
  {
  }

  /** `size()` counts the cards. */
  lemma {:induction false} SizeIsCount(asc: bool, t: DNode)
    requires Valid(asc, t)
    ensures Size(t) == |Contents(t)|
  {
    if t.Node? {
      SizeIsCount(asc, t.left);
      SizeIsCount(asc, t.right);
      forall c | c in Contents(t.left) ensures c !in Contents(t.right) && c != t.data {
        assert Before(asc, c, t.data);
      }
      assert t.data !in Contents(t.right);
      assert |Contents(t)| == |Contents(t.left)| + 1 + |Contents(t.right)|;
    }
  }

  /** In a valid tree a key names at most one card. */
  lemma {:induction false} KeysUnique(asc: bool, t: DNode, c: Card, d: Card)
    requires Valid(asc, t) && c in Contents(t) && d in Contents(t) && SameKey(c, d)
    ensures c == d
  {
    if t.Node? {
      if c in Contents(t.left) && d in Contents(t.left) {
        KeysUnique(asc, t.left, c, d);
      } else if c in Contents(t.right) && d in Contents(t.right) {
        KeysUnique(asc, t.right, c, d);
      }
    }
  }

  /** The leftmost card comes first in the tree's order. */
  lemma {:induction false} LeftmostIsMin(asc: bool, t: DNode)
    requires Valid(asc, t) && t.Node?
    ensures forall d | d in Contents(t) :: d == Leftmost(t) || Before(asc, Leftmost(t), d)
  {
    if t.left.Node? {
      LeftmostIsMin(asc, t.left);
    }
  }

  lemma {:induction false} AllBeforeTrans(asc: bool, s: set<Card>, a: Card, b: Card)
    requires AllBefore(asc, s, a) && Before(asc, a, b)
    ensures AllBefore(asc, s, b)
  {
  }

  lemma {:induction false} AllAfterTrans(asc: bool, a: Card, b: Card, s: set<Card>)
    requires Before(asc, a, b) && AllAfter(asc, b, s)
    ensures AllAfter(asc, a, s)
  {
  }

  lemma {:induction false} AllBeforeUnion(asc: bool, s: set<Card>, t: set<Card>, d: Card)
    requires AllBefore(asc, s, d) && AllBefore(asc, t, d)
    ensures AllBefore(asc, s + t, d)
  {
  }

  lemma {:induction false} AllAfterUnion(asc: bool, d: Card, s: set<Card>, t: set<Card>)
    requires AllAfter(asc, d, s) && AllAfter(asc, d, t)
    ensures AllAfter(asc, d, s + t)
  {
  }

  lemma {:induction false} AllBeforeSubset(asc: bool, s: set<Card>, s': set<Card>, d: Card)
    requires AllBefore(asc, s, d) && s' <= s
    ensures AllBefore(asc, s', d)
  {
  }

  lemma {:induction false} AllAfterSubset(asc: bool, d: Card, s: set<Card>, s': set<Card>)
    requires AllAfter(asc, d, s) && s' <= s
    ensures AllAfter(asc, d, s')
  {
  }

  /** The order facts of a node built over ordered parts. */
  lemma {:induction false} BeforeMk(asc: bool, xd: Card, a: DNode, b: DNode, k: Card)
    requires AllBefore(asc, Contents(a), xd) && Before(asc, xd, k) && AllBefore(asc, Contents(b), k)
    ensures AllBefore(asc, Contents(Mk(xd, a, b)), k)
  {
    assert Contents(Mk(xd, a, b)) == Contents(a) + {xd} + Contents(b);
    AllBeforeTrans(asc, Contents(a), xd, k);
  }

  lemma {:induction false} AfterMk(asc: bool, k: Card, yd: Card, b: DNode, c: DNode)
    requires AllAfter(asc, k, Contents(b)) && Before(asc, k, yd) && AllAfter(asc, yd, Contents(c))
    ensures AllAfter(asc, k, Contents(Mk(yd, b, c)))
  {
    assert Contents(Mk(yd, b, c)) == Contents(b) + {yd} + Contents(c);
    AllAfterTrans(asc, k, yd, Contents(c));
  }

  // ---------------------------------------------------------------------
  // Rotations and rebalance

  lemma {:induction false} RotateRightPreserves(y: DNode)
    requires y.Node? && y.left.Node?
    ensures Contents(RotateRight(y)) == Contents(y)
  {
    var x := y.left;
    assert RotateRight(y) == Mk(x.data, x.left, Mk(y.data, x.right, y.right));
  }

  lemma {:induction false} RotateLeftPreserves(x: DNode)
    requires x.Node? && x.right.Node?
    ensures Contents(RotateLeft(x)) == Contents(x)
  {
    var y := x.right;
    assert RotateLeft(x) == Mk(y.data, Mk(x.data, x.left, y.left), y.right);
  }

  /** `rebalance` keeps the cards of any node. */
  lemma {:induction false} RebalancePreserves(n: DNode)
    ensures Contents(Rebalance(n)) == Contents(n)
  {
    if Balance(n) > 1 {
      if Balance(n.left) < 0 {
        RotateLeftPreserves(n.left);
        RotateRightPreserves(n.(left := RotateLeft(n.left)));
      } else {
        RotateRightPreserves(n);
      }
    } else if Balance(n) < -1 {
      if Balance(n.right) > 0 {
        RotateRightPreserves(n.right);
        RotateLeftPreserves(n.(right := RotateRight(n.right)));
      } else {
        RotateLeftPreserves(n);
      }
    }
  }

  lemma {:induction false} RebuiltPreserves(d: Card, l: DNode, r: DNode)
    ensures Contents(Rebalance(Mk(d, l, r))) == Contents(l) + {d} + Contents(r)
  {
    RebalancePreserves(Mk(d, l, r));
  }

  /** `(x: a < xd < b) < yd < c` rotated to `a < xd < (b < yd < c)`. */
  lemma {:induction false} SingleRotation(asc: bool, xd: Card, a: DNode, b: DNode, yd: Card, c: DNode)
    requires Valid(asc, a) && Valid(asc, b) && Valid(asc, c)
    requires AllBefore(asc, Contents(a), xd) && AllAfter(asc, xd, Contents(b)) && Before(asc, xd, yd)
    requires AllBefore(asc, Contents(b), yd) && AllAfter(asc, yd, Contents(c))
    requires Height(a) == Height(c) + 1 && Height(c) <= Height(b) <= Height(c) + 1
    ensures var r := Mk(xd, a, Mk(yd, b, c)); Valid(asc, r)
    ensures var r := Mk(xd, a, Mk(yd, b, c)); Height(c) + 2 <= Height(r) <= Height(c) + 3
  {
    MkValid(asc, yd, b, c);
    AfterMk(asc, xd, yd, b, c);
    MkValid(asc, xd, a, Mk(yd, b, c));
  }

  lemma {:induction false} SingleRotationMirror(asc: bool, xd: Card, a: DNode, b: DNode, yd: Card, c: DNode)
    requires Valid(asc, a) && Valid(asc, b) && Valid(asc, c)
    requires AllBefore(asc, Contents(a), xd) && AllAfter(asc, xd, Contents(b)) && Before(asc, xd, yd)
    requires AllBefore(asc, Contents(b), yd) && AllAfter(asc, yd, Contents(c))
    requires Height(c) == Height(a) + 1 && Height(a) <= Height(b) <= Height(a) + 1
    ensures var r := Mk(yd, Mk(xd, a, b), c); Valid(asc, r)
    ensures var r := Mk(yd, Mk(xd, a, b), c); Height(a) + 2 <= Height(r) <= Height(a) + 3
  {
    MkValid(asc, xd, a, b);
    BeforeMk(asc, xd, a, b, yd);
    MkValid(asc, yd, Mk(xd, a, b), c);
  }

  /** `a < xd < b1 < zd < b2 < yd < c` rebuilt with zd at the root. */
  lemma {:induction false} DoubleRotation(asc: bool, xd: Card, a: DNode, b1: DNode, zd: Card, b2: DNode, yd: Card, c: DNode, h: nat)
    requires Valid(asc, a) && Valid(asc, b1) && Valid(asc, b2) && Valid(asc, c)
    requires AllBefore(asc, Contents(a), xd) && AllAfter(asc, xd, Contents(b1)) && Before(asc, xd, zd)
    requires AllBefore(asc, Contents(b1), zd) && AllAfter(asc, zd, Contents(b2)) && Before(asc, zd, yd)
    requires AllBefore(asc, Contents(b2), yd) && AllAfter(asc, yd, Contents(c))
    requires Height(a) == h && Height(c) == h
    requires Max(Height(b1), Height(b2)) == h && Height(b1) + 1 >= h && Height(b2) + 1 >= h
    ensures var r := Mk(zd, Mk(xd, a, b1), Mk(yd, b2, c)); Valid(asc, r)
    ensures var r := Mk(zd, Mk(xd, a, b1), Mk(yd, b2, c)); Height(r) == h + 2
  {
    MkValid(asc, xd, a, b1);
    MkValid(asc, yd, b2, c);
    BeforeMk(asc, xd, a, b1, zd);
    AfterMk(asc, zd, yd, b2, c);
    MkValid(asc, zd, Mk(xd, a, b1), Mk(yd, b2, c));
  }

  /** `rebalance` restores the AVL balance of a node whose children differ
      in height by at most 2, and leaves a balanced node as it is. */
  lemma {:induction false} RebalanceCorrect(asc: bool, d: Card, l: DNode, r: DNode)
    requires Valid(asc, l) && Valid(asc, r) && AllBefore(asc, Contents(l), d) && AllAfter(asc, d, Contents(r))
    requires -2 <= Height(l) - Height(r) <= 2
    ensures var res := Rebalance(Mk(d, l, r)); Valid(asc, res)
    ensures var res := Rebalance(Mk(d, l, r)); Max(Height(l), Height(r)) <= Height(res) <= 1 + Max(Height(l), Height(r))
    ensures var res := Rebalance(Mk(d, l, r)); (-1 <= Height(l) - Height(r) <= 1 ==> res == Mk(d, l, r))
  {
    if Height(l) - Height(r) == 2 {
      ValidParts(asc, l);
      if Balance(l) < 0 {
        RebalanceLR(asc, d, l, r);
      } else {
        RebalanceLL(asc, d, l, r);
      }
    } else if Height(l) - Height(r) == -2 {
      ValidParts(asc, r);
      if Balance(r) > 0 {
        RebalanceRL(asc, d, l, r);
      } else {
        RebalanceRR(asc, d, l, r);
      }
    } else {
      MkValid(asc, d, l, r);
    }
  }

  lemma {:induction false} RebalanceLL(asc: bool, d: Card, l: DNode, r: DNode)
    requires Valid(asc, l) && Valid(asc, r) && AllBefore(asc, Contents(l), d) && AllAfter(asc, d, Contents(r))
    requires Height(l) - Height(r) == 2 && l.Node? && Balance(l) >= 0
    ensures var res := Rebalance(Mk(d, l, r)); Valid(asc, res) && Height(l) <= Height(res) <= 1 + Height(l)
  {
    ValidParts(asc, l);
    assert l.data in Contents(l);
    assert Rebalance(Mk(d, l, r)) == Mk(l.data, l.left, Mk(d, l.right, r));
    SingleRotation(asc, l.data, l.left, l.right, d, r);
  }

  lemma {:induction false} RebalanceRR(asc: bool, d: Card, l: DNode, r: DNode)
    requires Valid(asc, l) && Valid(asc, r) && AllBefore(asc, Contents(l), d) && AllAfter(asc, d, Contents(r))
    requires Height(l) - Height(r) == -2 && r.Node? && Balance(r) <= 0
    ensures var res := Rebalance(Mk(d, l, r)); Valid(asc, res) && Height(r) <= Height(res) <= 1 + Height(r)
  {
    ValidParts(asc, r);
    assert r.data in Contents(r);
    assert Rebalance(Mk(d, l, r)) == Mk(r.data, Mk(d, l, r.left), r.right);
    SingleRotationMirror(asc, d, l, r.left, r.data, r.right);
  }

  lemma {:induction false} RebalanceLR(asc: bool, d: Card, l: DNode, r: DNode)
    requires Valid(asc, l) && Valid(asc, r) && AllBefore(asc, Contents(l), d) && AllAfter(asc, d, Contents(r))
    requires Height(l) - Height(r) == 2 && l.Node? && Balance(l) < 0
    ensures var res := Rebalance(Mk(d, l, r)); Valid(asc, res) && Height(res) == Height(l)
  {
    ValidParts(asc, l);
    var z := l.right;
    ValidParts(asc, z);
    assert z.data in Contents(l);
    assert AllBefore(asc, Contents(z.right), d);
    assert Rebalance(Mk(d, l, r)) == Mk(z.data, Mk(l.data, l.left, z.left), Mk(d, z.right, r));
    DoubleRotation(asc, l.data, l.left, z.left, z.data, z.right, d, r, Height(r));
  }

  lemma {:induction false} RebalanceRL(asc: bool, d: Card, l: DNode, r: DNode)
    requires Valid(asc, l) && Valid(asc, r) && AllBefore(asc, Contents(l), d) && AllAfter(asc, d, Contents(r))
    requires Height(l) - Height(r) == -2 && r.Node? && Balance(r) > 0
    ensures var res := Rebalance(Mk(d, l, r)); Valid(asc, res) && Height(res) == Height(r)
  {
    ValidParts(asc, r);
    var z := r.left;
    ValidParts(asc, z);
    assert z.data in Contents(r);
    assert AllAfter(asc, d, Contents(z.left));
    assert Rebalance(Mk(d, l, r)) == Mk(z.data, Mk(d, l, z.left), Mk(r.data, z.right, r.right));
    DoubleRotation(asc, d, l, z.left, z.data, z.right, r.data, r.right, Height(l));
  }

  // ---------------------------------------------------------------------
  // Where a key lives

  lemma {:induction false} KeyGoesLeft(asc: bool, t: DNode, c: Card)
    requires Valid(asc, t) && t.Node? && Before(asc, c, t.data)
    ensures HasKey(t, c) <==> HasKey(t.left, c)
    ensures WithoutKey(Contents(t), c) == WithoutKey(Contents(t.left), c) + {t.data} + Contents(t.right)
  {
    assert !SameKey(t.data, c);
    forall d | d in Contents(t.right) ensures !SameKey(d, c) {
      assert Before(asc, t.data, d);
    }
  }

  lemma {:induction false} KeyGoesRight(asc: bool, t: DNode, c: Card)
    requires Valid(asc, t) && t.Node? && Before(asc, t.data, c)
    ensures HasKey(t, c) <==> HasKey(t.right, c)
    ensures WithoutKey(Contents(t), c) == Contents(t.left) + {t.data} + WithoutKey(Contents(t.right), c)
  {
    assert !SameKey(t.data, c);
    forall d | d in Contents(t.left) ensures !SameKey(d, c) {
      assert Before(asc, d, t.data);
    }
  }

  lemma {:induction false} KeyHere(asc: bool, t: DNode, c: Card)
    requires Valid(asc, t) && t.Node? && SameKey(c, t.data)
    ensures HasKey(t, c)
    ensures WithoutKey(Contents(t), c) == Contents(t.left) + Contents(t.right)
  {
    assert t.data in Contents(t);
    forall d | d in Contents(t.left) ensures !SameKey(d, c) {
      assert Before(asc, d, t.data);
    }
    forall d | d in Contents(t.right) ensures !SameKey(d, c) {
      assert Before(asc, t.data, d);
    }
  }

  // ---------------------------------------------------------------------
  // Insert

  /** `insert` keeps the tree valid and adds the card exactly when no card
      with its `(HMissing, discardTime)` is present; otherwise the tree is
      returned unchanged. */
  lemma {:induction false} InsertCorrect(asc: bool, t: DNode, c: Card)
    requires Valid(asc, t)
    ensures var r := Insert(asc, t, c); Valid(asc, r)
    ensures var r := Insert(asc, t, c); (HasKey(t, c) ==> r == t)
    ensures var r := Insert(asc, t, c); (!HasKey(t, c) ==> Contents(r) == Contents(t) + {c})
    ensures var r := Insert(asc, t, c); Height(t) <= Height(r) <= Height(t) + 1
  {
    InsertContents(asc, t, c);
    InsertBalanced(asc, t, c);
  }

  lemma {:induction false} InsertContents(asc: bool, t: DNode, c: Card)
    requires Valid(asc, t)
    ensures var r := Insert(asc, t, c); (HasKey(t, c) ==> Contents(r) == Contents(t))
    ensures var r := Insert(asc, t, c); (!HasKey(t, c) ==> Contents(r) == Contents(t) + {c})
  {
    if t.Node? {
      ValidParts(asc, t);
      var cmp := Compare(asc, c, t.data);
      if cmp < 0 {
        KeyGoesLeft(asc, t, c);
        InsertContents(asc, t.left, c);
        RebuiltPreserves(t.data, Insert(asc, t.left, c), t.right);
        AddToLeft(Contents(t.left), {t.data}, Contents(t.right), c);
      } else if cmp > 0 {
        KeyGoesRight(asc, t, c);
        InsertContents(asc, t.right, c);
        RebuiltPreserves(t.data, t.left, Insert(asc, t.right, c));
        AddToRight(Contents(t.left), {t.data}, Contents(t.right), c);
      } else {
        KeyHere(asc, t, c);
      }
    }
  }

  lemma {:induction false} InsertBalanced(asc: bool, t: DNode, c: Card)
    requires Valid(asc, t)
    ensures var r := Insert(asc, t, c); Valid(asc, r) && (HasKey(t, c) ==> r == t)
    ensures var r := Insert(asc, t, c); Height(t) <= Height(r) <= Height(t) + 1
    decreases t, 1
  {
    if t.Node? {
      var cmp := Compare(asc, c, t.data);
      if cmp < 0 {
        InsertLeft(asc, t, c);
      } else if cmp > 0 {
        InsertRight(asc, t, c);
      } else {
        KeyHere(asc, t, c);
      }
    }
  }

  lemma {:induction false} InsertLeft(asc: bool, t: DNode, c: Card)
    requires Valid(asc, t) && t.Node? && Before(asc, c, t.data)
    ensures var r := Rebalance(Mk(t.data, Insert(asc, t.left, c), t.right)); Valid(asc, r) && (HasKey(t, c) ==> r == t)
    ensures var r := Rebalance(Mk(t.data, Insert(asc, t.left, c), t.right)); Height(t) <= Height(r) <= Height(t) + 1
    decreases t, 0
  {
    ValidParts(asc, t);
    KeyGoesLeft(asc, t, c);
    InsertBalanced(asc, t.left, c);
    InsertContents(asc, t.left, c);
    var l1 := Insert(asc, t.left, c);
    if !HasKey(t, c) {
      AllBeforeUnion(asc, Contents(t.left), {c}, t.data);
    }
    RebalanceCorrect(asc, t.data, l1, t.right);
  }

  lemma {:induction false} InsertRight(asc: bool, t: DNode, c: Card)
    requires Valid(asc, t) && t.Node? && Before(asc, t.data, c)
    ensures var r := Rebalance(Mk(t.data, t.left, Insert(asc, t.right, c))); Valid(asc, r) && (HasKey(t, c) ==> r == t)
    ensures var r := Rebalance(Mk(t.data, t.left, Insert(asc, t.right, c))); Height(t) <= Height(r) <= Height(t) + 1
    decreases t, 0
  {
    ValidParts(asc, t);
    KeyGoesRight(asc, t, c);
    InsertBalanced(asc, t.right, c);
    InsertContents(asc, t.right, c);
    var r1 := Insert(asc, t.right, c);
    if !HasKey(t, c) {
      AllAfterUnion(asc, t.data, Contents(t.right), {c});
    }
    RebalanceCorrect(asc, t.data, t.left, r1);
  }

  // ---------------------------------------------------------------------
  // Delete

  /** `delete` keeps the tree valid and removes exactly the card with the
      given `(HMissing, discardTime)`; deleting an absent key returns the
      tree unchanged. */
  lemma {:induction false} DeleteCorrect(asc: bool, t: DNode, c: Card)
    requires Valid(asc, t)
    ensures var r := Delete(asc, t, c); Valid(asc, r)
    ensures var r := Delete(asc, t, c); Contents(r) == WithoutKey(Contents(t), c)
    ensures var r := Delete(asc, t, c); (!HasKey(t, c) ==> r == t)
    ensures var r := Delete(asc, t, c); Height(t) - 1 <= Height(r) <= Height(t)
  {
    DeleteContents(asc, t, c);
    DeleteBalanced(asc, t, c);
  }

  lemma {:induction false} DeleteContents(asc: bool, t: DNode, c: Card)
    requires Valid(asc, t)
    ensures Contents(Delete(asc, t, c)) == WithoutKey(Contents(t), c)
    decreases t, 1
  {
    if t.Node? {
      ValidParts(asc, t);
      var cmp := Compare(asc, c, t.data);
      if cmp < 0 {
        KeyGoesLeft(asc, t, c);
        DeleteContents(asc, t.left, c);
        RebuiltPreserves(t.data, Delete(asc, t.left, c), t.right);
      } else if cmp > 0 {
        KeyGoesRight(asc, t, c);
        DeleteContents(asc, t.right, c);
        RebuiltPreserves(t.data, t.left, Delete(asc, t.right, c));
      } else {
        KeyHere(asc, t, c);
        if t.left.Node? && t.right.Node? {
          DeleteSuccessorContents(asc, t);
        }
      }
    }
  }

  lemma {:induction false} WithoutLeftmost(asc: bool, t: DNode)
    requires Valid(asc, t) && t.Node?
    ensures WithoutKey(Contents(t), Leftmost(t)) == Contents(t) - {Leftmost(t)}
  {
    var s := Leftmost(t);
    forall d | d in Contents(t) && SameKey(d, s) ensures d == s {
      KeysUnique(asc, t, d, s);
    }
  }

  lemma {:induction false} DeleteSuccessorContents(asc: bool, t: DNode)
    requires Valid(asc, t) && t.Node? && t.left.Node? && t.right.Node?
    ensures var s := Leftmost(t.right);
      Contents(Rebalance(Mk(s, t.left, Delete(asc, t.right, s)))) == Contents(t.left) + Contents(t.right)
    decreases t, 0
  {
    ValidParts(asc, t);
    var s := Leftmost(t.right);
    WithoutLeftmost(asc, t.right);
    DeleteContents(asc, t.right, s);
    RebuiltPreserves(s, t.left, Delete(asc, t.right, s));
  }

  lemma {:induction false} DeleteBalanced(asc: bool, t: DNode, c: Card)
    requires Valid(asc, t)
    ensures var r := Delete(asc, t, c); Valid(asc, r) && (!HasKey(t, c) ==> r == t)
    ensures var r := Delete(asc, t, c); Height(t) - 1 <= Height(r) <= Height(t)
    decreases t, 1
  {
    if t.Node? {
      var cmp := Compare(asc, c, t.data);
      if cmp < 0 {
        DeleteBalancedLeft(asc, t, c);
      } else if cmp > 0 {
        DeleteBalancedRight(asc, t, c);
      } else {
        ValidParts(asc, t);
        KeyHere(asc, t, c);
        if t.left.Node? && t.right.Node? {
          DeleteSuccessorBalanced(asc, t);
        }
      }
    }
  }

  lemma {:induction false} DeleteBalancedLeft(asc: bool, t: DNode, c: Card)
    requires Valid(asc, t) && t.Node? && Before(asc, c, t.data)
    ensures var r := Rebalance(Mk(t.data, Delete(asc, t.left, c), t.right)); Valid(asc, r) && (!HasKey(t, c) ==> r == t)
    ensures var r := Rebalance(Mk(t.data, Delete(asc, t.left, c), t.right)); Height(t) - 1 <= Height(r) <= Height(t)
    decreases t, 0
  {
    ValidParts(asc, t);
    KeyGoesLeft(asc, t, c);
    DeleteBalanced(asc, t.left, c);
    DeleteContents(asc, t.left, c);
    var l1 := Delete(asc, t.left, c);
    AllBeforeSubset(asc, Contents(t.left), Contents(l1), t.data);
    RebalanceCorrect(asc, t.data, l1, t.right);
  }

  lemma {:induction false} DeleteBalancedRight(asc: bool, t: DNode, c: Card)
    requires Valid(asc, t) && t.Node? && Before(asc, t.data, c)
    ensures var r := Rebalance(Mk(t.data, t.left, Delete(asc, t.right, c))); Valid(asc, r) && (!HasKey(t, c) ==> r == t)
    ensures var r := Rebalance(Mk(t.data, t.left, Delete(asc, t.right, c))); Height(t) - 1 <= Height(r) <= Height(t)
    decreases t, 0
  {
    ValidParts(asc, t);
    KeyGoesRight(asc, t, c);
    DeleteBalanced(asc, t.right, c);
    DeleteContents(asc, t.right, c);
    var r1 := Delete(asc, t.right, c);
    AllAfterSubset(asc, t.data, Contents(t.right), Contents(r1));
    RebalanceCorrect(asc, t.data, t.left, r1);
  }

  lemma {:induction false} DeleteSuccessorBalanced(asc: bool, t: DNode)
    requires Valid(asc, t) && t.Node? && t.left.Node? && t.right.Node?
    ensures var s := Leftmost(t.right); var r := Rebalance(Mk(s, t.left, Delete(asc, t.right, s)));
      Valid(asc, r) && Height(t) - 1 <= Height(r) <= Height(t)
    decreases t, 0
  {
    ValidParts(asc, t);
    var s := Leftmost(t.right);
    LeftmostIsMin(asc, t.right);
    WithoutLeftmost(asc, t.right);
    DeleteBalanced(asc, t.right, s);
    DeleteContents(asc, t.right, s);
    var r1 := Delete(asc, t.right, s);
    forall d | d in Contents(t.left) ensures Before(asc, d, s) {
      assert Before(asc, d, t.data) && Before(asc, t.data, s);
    }
    RebalanceCorrect(asc, s, t.left, r1);
  }

  // ---------------------------------------------------------------------
  // Searches

  /** No two cards of s share a `(HMissing, discardTime)` key. */
  ghost predicate KeysDistinct(s: set<Card>)
  {
    forall a, b | a in s && b in s && SameKey(a, b) :: a == b
  }

  lemma {:induction false} ValidKeysDistinct(asc: bool, t: DNode)
    requires Valid(asc, t)
    ensures KeysDistinct(Contents(t))
  {
    forall a, b | a in Contents(t) && b in Contents(t) && SameKey(a, b) ensures a == b {
      KeysUnique(asc, t, a, b);
    }
  }

  /** Deleting a card that is in the tree removes that card alone. */
  lemma {:induction false} WithoutPresentKey(asc: bool, t: DNode, c: Card)
    requires Valid(asc, t) && c in Contents(t)
    ensures WithoutKey(Contents(t), c) == Contents(t) - {c}
    ensures |WithoutKey(Contents(t), c)| == |Contents(t)| - 1
  {
    forall d | d in Contents(t) && SameKey(d, c) ensures d == c {
      KeysUnique(asc, t, d, c);
    }
  }

  /** m is the card of s that comes first in the tree's order. */
  ghost predicate IsFirst(asc: bool, s: set<Card>, m: Card)
  {
    m in s && forall d | d in s :: d == m || Before(asc, m, d)
  }

  /** c is the card a full revive with this pool takes from s: the largest
      missing health the pool can pay, the earliest discard time among ties. */
  ghost predicate IsRevivable(s: set<Card>, healPool: int, c: Card)
  {
    c in s && HMissing(c) <= healPool &&
    forall d {:trigger d in s} | d in s && HMissing(d) <= healPool :: d == c || Before(false, c, d)
  }

  ghost predicate FirstRevivable(s: set<Card>, healPool: int, r: Option<Card>)
  {
    (r.None? <==> forall c {:trigger c in s} | c in s :: HMissing(c) > healPool) &&
    (r.Some? ==> IsRevivable(s, healPool, r.value))
  }

  /** The tree order is a strict order, so the first card is unique. */
  lemma {:induction false} BeforeAsymmetric(asc: bool, a: Card, b: Card)
    ensures !(Before(asc, a, b) && Before(asc, b, a))
  {
  }

  lemma {:induction false} RevivableUnique(s: set<Card>, healPool: int, a: Card, b: Card)
    requires IsRevivable(s, healPool, a) && IsRevivable(s, healPool, b)
    ensures a == b
  {
    if a != b {
      BeforeAsymmetric(false, a, b);
    }
  }

  /** Among cards with distinct keys, some card can be fully revived with
      the pool exactly when a first such card exists. */
  lemma {:induction false} RevivableExists(s: set<Card>, healPool: int)
    requires KeysDistinct(s)
    requires exists c | c in s :: HMissing(c) <= healPool
    ensures exists c :: IsRevivable(s, healPool, c)
    decreases |s|
  {
    var x :| x in s && HMissing(x) <= healPool;
    var s' := s - {x};
    if exists c | c in s' :: HMissing(c) <= healPool {
      RevivableExists(s', healPool);
      var y :| IsRevivable(s', healPool, y);
      if Before(false, x, y) {
        forall d | d in s && HMissing(d) <= healPool ensures d == x || Before(false, x, d) {
          if d != x && d != y {
            assert d in s';
            assert Before(false, y, d);
          }
        }
        assert IsRevivable(s, healPool, x);
      } else {
        assert !SameKey(x, y);
        forall d | d in s && HMissing(d) <= healPool ensures d == y || Before(false, y, d) {
          if d != x {
            assert d in s';
          }
        }
        assert IsRevivable(s, healPool, y);
      }
    } else {
      assert IsRevivable(s, healPool, x);
    }
  }

  /** On the descending tree, `findRevivable` returns null exactly when no
      card's missing health is within the pool, and otherwise the card with
      the largest such missing health, the earliest discard time among ties. */
  lemma {:induction false} FindRevivableCorrect(t: DNode, healPool: int)
    requires Valid(false, t)
    ensures FirstRevivable(Contents(t), healPool, FindRevivable(t, healPool))
  {
    if t.Node? {
      ValidParts(false, t);
      var l, r := Contents(t.left), Contents(t.right);
      FindRevivableCorrect(t.left, healPool);
      FindRevivableCorrect(t.right, healPool);
      if HMissing(t.data) > healPool {
        RevivableFromRight(l, t.data, r, healPool, FindRevivable(t.right, healPool));
      } else if FindRevivable(t.left, healPool).Some? {
        RevivableFromLeft(l, t.data, r, healPool, FindRevivable(t.left, healPool).value);
      } else {
        RevivableAtRoot(l, t.data, r, healPool);
      }
    }
  }

  /** The three cases of the search at a node whose left cards come before
      `x` and whose right cards come after it. When the pool cannot pay for
      `x`, it cannot pay for any card on the left either. */
  lemma {:induction false} RevivableFromRight(l: set<Card>, x: Card, r: set<Card>, healPool: int, rr: Option<Card>)
    requires AllBefore(false, l, x) && AllAfter(false, x, r)
    requires HMissing(x) > healPool && FirstRevivable(r, healPool, rr)
    ensures FirstRevivable(l + {x} + r, healPool, rr)
  {
    var s := l + {x} + r;
    forall d | d in l ensures HMissing(d) > healPool {
      assert Before(false, d, x);
    }
    if rr.Some? {
      forall d | d in s && HMissing(d) <= healPool ensures d == rr.value || Before(false, rr.value, d) {
        assert d in r;
      }
    } else {
      forall d | d in s ensures HMissing(d) > healPool {
        if d in r {
          assert d in r;
        }
      }
    }
  }

  /** The first affordable card on the left beats the node and everything on
      its right. */
  lemma {:induction false} RevivableFromLeft(l: set<Card>, x: Card, r: set<Card>, healPool: int, c: Card)
    requires AllBefore(false, l, x) && AllAfter(false, x, r)
    requires IsRevivable(l, healPool, c)
    ensures FirstRevivable(l + {x} + r, healPool, Some(c))
  {
    var s := l + {x} + r;
    assert Before(false, c, x);
    forall d | d in s && HMissing(d) <= healPool ensures d == c || Before(false, c, d) {
      if d in l {
        assert d in l;
      } else if d in r {
        assert Before(false, x, d);
      }
    }
  }

  /** With nothing affordable on the left, an affordable node is the first. */
  lemma {:induction false} RevivableAtRoot(l: set<Card>, x: Card, r: set<Card>, healPool: int)
    requires AllBefore(false, l, x) && AllAfter(false, x, r)
    requires HMissing(x) <= healPool && FirstRevivable(l, healPool, None)
    ensures FirstRevivable(l + {x} + r, healPool, Some(x))
  {
    var s := l + {x} + r;
    forall d | d in s && HMissing(d) <= healPool ensures d == x || Before(false, x, d) {
      if d in r {
        assert Before(false, x, d);
      }
    }
  }

  /** `findMin` on either tree: null on an empty tree, otherwise the card
      that comes first in the tree's order. */
  lemma {:induction false} FindMinIsFirst(asc: bool, t: DNode)
    requires Valid(asc, t) && t.Node?
    ensures IsFirst(asc, Contents(t), Leftmost(t))
  {
    LeftmostIsMin(asc, t);
  }
}
