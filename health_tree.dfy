/** The inner `HealthTree` of project1/src/AttackTree.java: an AVL tree of the
    cards that share one attack value, ordered by `(H_cur, entryTime)` and
    augmented with the subtree's height, size, maximum and minimum health.

    The Java nodes are relinked in place by recursive helpers of the form
    `n.left = insert(n.left, card); update(n); return rebalance(n);`. Here a
    node is a value and each helper returns the rebuilt subtree. */
module HealthTrees {
  import opened Lang
  import opened Cards

  datatype HNode =
    | Nil
    | Node(data: Card, left: HNode, right: HNode, height: nat, size: nat, hMax: int, hMin: int)

  // getHeight, getSize, getMaxH, getMinH: an empty tree has height 0, size 0,
  // maximum health 0 and minimum health Integer.MAX_VALUE.
  // getSubtreeMaxHealth() and getSubtreeMinHealth() are MaxH and MinH of the root.
  function Height(n: HNode): nat { if n.Nil? then 0 else n.height }
  function Size(n: HNode): nat { if n.Nil? then 0 else n.size }
  function MaxH(n: HNode): int { if n.Nil? then 0 else n.hMax }
  function MinH(n: HNode): int { if n.Nil? then IntMax else n.hMin }

  /** `new Node(card)`: the aggregates come from the card alone. */
  function Leaf(c: Card): HNode { Node(c, Nil, Nil, 1, 1, c.hCur, c.hCur) }

  /** A node over card d and children l and r, with the fields `update` computes. */
  function Mk(d: Card, l: HNode, r: HNode): HNode
  {
    Node(d, l, r, 1 + Max(Height(l), Height(r)), 1 + Size(l) + Size(r),
         Max(d.hCur, Max(MaxH(l), MaxH(r))), Min(d.hCur, Min(MinH(l), MinH(r))))
  }

  /** `update(n)`: recomputes the node's fields from its card and its children. */
  function Update(n: HNode): HNode
  {
    if n.Nil? then n else Mk(n.data, n.left, n.right)
  }

  /** The tree's key order: health first, entry time second. */
  predicate Before(a: Card, b: Card)
  {
    a.hCur < b.hCur || (a.hCur == b.hCur && a.entryTime < b.entryTime)
  }

  predicate SameKey(a: Card, b: Card) { a.hCur == b.hCur && a.entryTime == b.entryTime }

  /** The comparison written out in `insert` and `delete`. */
  function Compare(a: Card, b: Card): (cmp: int)
    ensures cmp < 0 <==> Before(a, b)
    ensures cmp > 0 <==> Before(b, a)
    ensures cmp == 0 <==> SameKey(a, b)
  {
    if a.hCur < b.hCur then -1
    else if a.hCur > b.hCur then 1
    else if a.entryTime < b.entryTime then -1
    else if a.entryTime > b.entryTime then 1
    else 0
  }

  function Balance(n: HNode): int { if n.Nil? then 0 else Height(n.left) - Height(n.right) }

  function RotateRight(y: HNode): (r: HNode)
    requires y.Node? && y.left.Node?
    ensures r.Node? && Contents(r) == Contents(y)
  {
    var x := y.left;
    Update(x.(right := Update(y.(left := x.right))))
  }

  function RotateLeft(x: HNode): (r: HNode)
    requires x.Node? && x.right.Node?
    ensures r.Node? && Contents(r) == Contents(x)
  {
    var y := x.right;
    Update(y.(left := Update(x.(right := y.left))))
  }

  /** `rebalance(n)`: the LL, LR, RR and RL fix-ups. */
  function Rebalance(n: HNode): (r: HNode)
    ensures Contents(r) == Contents(n)
    ensures n.Node? ==> r.Node?
  {
    if Balance(n) > 1 then
      var n1 := if Balance(n.left) < 0 then n.(left := RotateLeft(n.left)) else n;
      RotateRight(n1)
    else if Balance(n) < -1 then
      var n1 := if Balance(n.right) > 0 then n.(right := RotateRight(n.right)) else n;
      RotateLeft(n1)
    else n
  }

  /** `insert(n, card)`: a card whose key is already present is not added. */
  function Insert(n: HNode, card: Card): (r: HNode)
    ensures r.Node? && Contents(n) <= Contents(r) <= Contents(n) + {card}
  {
    if n.Nil? then Leaf(card)
    else
      var cmp := Compare(card, n.data);
      if cmp < 0 then Rebalance(Update(n.(left := Insert(n.left, card))))
      else if cmp > 0 then Rebalance(Update(n.(right := Insert(n.right, card))))
      else n
  }

  /** The node `findMinNode` walks to. */
  function Leftmost(n: HNode): (m: Card)
    requires n.Node?
    ensures m in Contents(n)
  {
    if n.left.Nil? then n.data else Leftmost(n.left)
  }

  /** `delete(n, card)`: removes the card with the same `(H_cur, entryTime)`;
      a node with two children takes its in-order successor's card. */
  function Delete(n: HNode, card: Card): (r: HNode)
    ensures Contents(r) <= Contents(n)
  {
    if n.Nil? then Nil
    else
      var cmp := Compare(card, n.data);
      if cmp < 0 then Rebalance(Update(n.(left := Delete(n.left, card))))
      else if cmp > 0 then Rebalance(Update(n.(right := Delete(n.right, card))))
      else if n.left.Nil? then n.right
      else if n.right.Nil? then n.left
      else
        var s := Leftmost(n.right);
        Rebalance(Update(n.(data := s, right := Delete(n.right, s))))
  }

  /** `findMin()`, with the source's while loop. */
  method FindMin(t: HNode) returns (r: Option<Card>)
    ensures t.Nil? ==> r == None
    ensures t.Node? ==> r == Some(Leftmost(t))
  {
    if t.Nil? {
      return None;
    }
    var n := t;
    while n.left.Node?
      invariant n.Node? && Leftmost(n) == Leftmost(t)
      decreases n
    {
      n := n.left;
    }
    return Some(n.data);
  }

  /** `findMinHealth(n, hpLimit)`: the first card with `H_cur > hpLimit`,
      pruning subtrees whose maximum health is at most the limit. */
  function FindMinHealth(n: HNode, hpLimit: int): (r: Option<Card>)
    ensures r.Some? ==> r.value in Contents(n) && r.value.hCur > hpLimit
  {
    if n.Nil? then None
    else if n.hMax <= hpLimit then None
    else if n.data.hCur <= hpLimit then FindMinHealth(n.right, hpLimit)
    else
      var fromLeft := FindMinHealth(n.left, hpLimit);
      if fromLeft.Some? then fromLeft else Some(n.data)
  }

  /** `findMinHealthMax(n, hpLimit)`: the first card with `H_cur <= hpLimit`,
      pruning subtrees whose minimum health exceeds the limit. */
  function FindMinHealthMax(n: HNode, hpLimit: int): (r: Option<Card>)
    ensures r.Some? ==> r.value in Contents(n) && r.value.hCur <= hpLimit
  {
    if n.Nil? then None
    else if n.hMin > hpLimit then None
    else if n.data.hCur > hpLimit then FindMinHealthMax(n.left, hpLimit)
    else
      var fromLeft := FindMinHealthMax(n.left, hpLimit);
      if fromLeft.Some? then fromLeft else Some(n.data)
  }


  // ---------------------------------------------------------------------
  // The invariant

  ghost function Contents(t: HNode): set<Card>
  {
    if t.Nil? then {} else Contents(t.left) + {t.data} + Contents(t.right)
  }

  ghost function InOrder(t: HNode): seq<Card>
  {
    if t.Nil? then [] else InOrder(t.left) + [t.data] + InOrder(t.right)
  }

  ghost predicate HasKey(t: HNode, c: Card)
  {
    exists d :: d in Contents(t) && SameKey(d, c)
  }

  /** The cards of s other than those with c's key. */
  ghost function WithoutKey(s: set<Card>, c: Card): set<Card>
  {
    set d | d in s && !SameKey(d, c)
  }

  ghost predicate AllBefore(s: set<Card>, d: Card) { forall c | c in s :: Before(c, d) }
  ghost predicate AllAfter(d: Card, s: set<Card>) { forall c | c in s :: Before(d, c) }

  /** Search order, AVL balance and aggregates, at every node. The
      aggregates are those of `update` or, at a leaf, possibly those of
      `new Node(card)`. */
  ghost predicate Valid(t: HNode)
  {
    t.Node? ==>
      Valid(t.left) && Valid(t.right) &&
      AllBefore(Contents(t.left), t.data) && AllAfter(t.data, Contents(t.right)) &&
      -1 <= Height(t.left) - Height(t.right) <= 1 &&
      (t == Mk(t.data, t.left, t.right) || t == Leaf(t.data))
  }

  // ---------------------------------------------------------------------
  // Lemmas

  /** The in-order sequence of a valid tree is strictly increasing in
      `(H_cur, entryTime)` and lists exactly its cards. */
  lemma {:induction false} InOrderSorted(t: HNode)
    requires Valid(t)
    ensures forall i, j | 0 <= i < j < |InOrder(t)| :: Before(InOrder(t)[i], InOrder(t)[j])
    ensures forall c :: c in InOrder(t) <==> c in Contents(t)
  {
    if t.Node? {
      InOrderSorted(t.left);
      InOrderSorted(t.right);
      var s := InOrder(t);
      var nl := |InOrder(t.left)|;
      assert s == InOrder(t.left) + [t.data] + InOrder(t.right);
      forall i, j | 0 <= i < j < |s| ensures Before(s[i], s[j]) {
        if j < nl {
          assert s[i] == InOrder(t.left)[i] && s[j] == InOrder(t.left)[j];
        } else if i > nl {
          assert s[i] == InOrder(t.right)[i - nl - 1] && s[j] == InOrder(t.right)[j - nl - 1];
        } else {
          assert s[i] in Contents(t.left) || s[i] == t.data;
          assert s[j] in Contents(t.right) || s[j] == t.data;
        }
      }
    }
  }

  /** In a valid tree a key names at most one card. */
  lemma {:induction false} KeysUnique(t: HNode, c: Card, d: Card)
    requires Valid(t) && c in Contents(t) && d in Contents(t) && SameKey(c, d)
    ensures c == d
  {
    if t.Node? {
      if c in Contents(t.left) && d in Contents(t.left) {
        KeysUnique(t.left, c, d);
      } else if c in Contents(t.right) && d in Contents(t.right) {
        KeysUnique(t.right, c, d);
      }
    }
  }

  /** The health aggregates bound every card of the subtree, and each is
      either attained by a card or is the empty-subtree value (0 for the
      maximum, Integer.MAX_VALUE for the minimum); the size is the number
      of cards. */
  lemma {:induction false} AggregatesSound(t: HNode)
    requires Valid(t)
    ensures forall c | c in Contents(t) :: MinH(t) <= c.hCur <= MaxH(t)
    ensures MaxH(t) == 0 || exists c :: c in Contents(t) && c.hCur == MaxH(t)
    ensures MinH(t) == IntMax || exists c :: c in Contents(t) && c.hCur == MinH(t)
    ensures Size(t) == |Contents(t)|
  {
    HealthBounds(t);
    MaxAttained(t);
    MinAttained(t);
    SizeIsCount(t);
  }

  lemma {:induction false} HealthBounds(t: HNode)
    requires Valid(t)
    ensures forall c | c in Contents(t) :: MinH(t) <= c.hCur <= MaxH(t)
  {
    if t.Node? {
      HealthBounds(t.left);
      HealthBounds(t.right);
    }
  }

  lemma {:induction false} MaxAttained(t: HNode)
    requires Valid(t)
    ensures MaxH(t) == 0 || exists c :: c in Contents(t) && c.hCur == MaxH(t)
  {
    if t.Node? {
      MaxAttained(t.left);
      MaxAttained(t.right);
      assert t.data in Contents(t);
    }
  }

  lemma {:induction false} MinAttained(t: HNode)
    requires Valid(t)
    ensures MinH(t) == IntMax || exists c :: c in Contents(t) && c.hCur == MinH(t)
  {
    if t.Node? {
      MinAttained(t.left);
      MinAttained(t.right);
      assert t.data in Contents(t);
    }
  }

  lemma {:induction false} SizeIsCount(t: HNode)
    requires Valid(t)
    ensures Size(t) == |Contents(t)|
  {
    if t.Node? {
      SizeIsCount(t.left);
      SizeIsCount(t.right);
      forall c | c in Contents(t.left) ensures c !in Contents(t.right) && c != t.data {
        assert Before(c, t.data);
      }
      assert t.data !in Contents(t.right);
      assert |Contents(t)| == |Contents(t.left)| + 1 + |Contents(t.right)|;
    }
  }

  /** With every health in `[0, Integer.MAX_VALUE]` the aggregates of a
      non-empty tree are exactly its largest and smallest health. */
  lemma {:induction false} AggregatesExact(t: HNode)
    requires Valid(t) && t.Node?
    requires forall c | c in Contents(t) :: 0 <= c.hCur <= IntMax
    ensures exists c :: c in Contents(t) && c.hCur == MaxH(t)
    ensures exists c :: c in Contents(t) && c.hCur == MinH(t)
  {
    AggregatesSound(t);
    assert t.data in Contents(t);
  }

  lemma {:induction false} LeftmostIsMin(t: HNode)
    requires Valid(t) && t.Node?
    ensures forall d | d in Contents(t) :: d == Leftmost(t) || Before(Leftmost(t), d)
  {
    if t.left.Node? {
      LeftmostIsMin(t.left);
    }
  }

  /** The order facts of a valid node, in terms of its parts. */
  lemma {:induction false} ValidParts(t: HNode)
    requires Valid(t) && t.Node?
    ensures Valid(t.left) && Valid(t.right)
    ensures AllBefore(Contents(t.left), t.data) && AllAfter(t.data, Contents(t.right))
    ensures Height(t) == 1 + Max(Height(t.left), Height(t.right))
    ensures -1 <= Height(t.left) - Height(t.right) <= 1
    ensures Contents(t) == Contents(t.left) + {t.data} + Contents(t.right)
    ensures InOrder(t) == InOrder(t.left) + [t.data] + InOrder(t.right)
  {
  }

  /** A node built by `update` over valid, ordered, balanced parts is valid. */
  lemma {:induction false} MkValid(d: Card, l: HNode, r: HNode)
    requires Valid(l) && Valid(r) && AllBefore(Contents(l), d) && AllAfter(d, Contents(r))
    requires -1 <= Height(l) - Height(r) <= 1
    ensures Valid(Mk(d, l, r))
    ensures Height(Mk(d, l, r)) == 1 + Max(Height(l), Height(r))
  {
  }

  lemma {:induction false} AllBeforeTrans(s: set<Card>, a: Card, b: Card)
    requires AllBefore(s, a) && Before(a, b)
    ensures AllBefore(s, b)
  {
  }

  lemma {:induction false} AllAfterTrans(a: Card, b: Card, s: set<Card>)
    requires Before(a, b) && AllAfter(b, s)
    ensures AllAfter(a, s)
  {
  }

  lemma {:induction false} AllBeforeUnion(s: set<Card>, t: set<Card>, d: Card)
    requires AllBefore(s, d) && AllBefore(t, d)
    ensures AllBefore(s + t, d)
  {
  }

  lemma {:induction false} AllAfterUnion(d: Card, s: set<Card>, t: set<Card>)
    requires AllAfter(d, s) && AllAfter(d, t)
    ensures AllAfter(d, s + t)
  {
  }

  /** The single right rotation of the LL case:
      `(x: a < xd < b) < yd < c` becomes `a < xd < (b < yd < c)`. */
  lemma {:induction false} SingleRotation(xd: Card, a: HNode, b: HNode, yd: Card, c: HNode)
    requires Valid(a) && Valid(b) && Valid(c)
    requires AllBefore(Contents(a), xd) && AllAfter(xd, Contents(b)) && Before(xd, yd)
    requires AllBefore(Contents(b), yd) && AllAfter(yd, Contents(c))
    requires Height(a) == Height(c) + 1 && Height(c) <= Height(b) <= Height(c) + 1
    ensures var r := Mk(xd, a, Mk(yd, b, c)); Valid(r)
    ensures var r := Mk(xd, a, Mk(yd, b, c)); Height(c) + 2 <= Height(r) <= Height(c) + 3
  {
    MkValid(yd, b, c);
    AfterMk(xd, yd, b, c);
    MkValid(xd, a, Mk(yd, b, c));
  }

  /** The mirror image, for the RR case. */
  lemma {:induction false} SingleRotationMirror(xd: Card, a: HNode, b: HNode, yd: Card, c: HNode)
    requires Valid(a) && Valid(b) && Valid(c)
    requires AllBefore(Contents(a), xd) && AllAfter(xd, Contents(b)) && Before(xd, yd)
    requires AllBefore(Contents(b), yd) && AllAfter(yd, Contents(c))
    requires Height(c) == Height(a) + 1 && Height(a) <= Height(b) <= Height(a) + 1
    ensures var r := Mk(yd, Mk(xd, a, b), c); Valid(r)
    ensures var r := Mk(yd, Mk(xd, a, b), c); Height(a) + 2 <= Height(r) <= Height(a) + 3
  {
    MkValid(xd, a, b);
    BeforeMk(xd, a, b, yd);
    MkValid(yd, Mk(xd, a, b), c);
  }

  /** The double rotation of the LR and RL cases:
      `a < xd < b1 < zd < b2 < yd < c` rebuilt with zd at the root. */
  lemma {:induction false} DoubleRotation(xd: Card, a: HNode, b1: HNode, zd: Card, b2: HNode, yd: Card, c: HNode, h: nat)
    requires Valid(a) && Valid(b1) && Valid(b2) && Valid(c)
    requires AllBefore(Contents(a), xd) && AllAfter(xd, Contents(b1)) && Before(xd, zd)
    requires AllBefore(Contents(b1), zd) && AllAfter(zd, Contents(b2)) && Before(zd, yd)
    requires AllBefore(Contents(b2), yd) && AllAfter(yd, Contents(c))
    requires Height(a) == h && Height(c) == h
    requires Max(Height(b1), Height(b2)) == h && Height(b1) + 1 >= h && Height(b2) + 1 >= h
    ensures var r := Mk(zd, Mk(xd, a, b1), Mk(yd, b2, c)); Valid(r)
    ensures var r := Mk(zd, Mk(xd, a, b1), Mk(yd, b2, c)); Height(r) == h + 2
  {
    MkValid(xd, a, b1);
    MkValid(yd, b2, c);
    BeforeMk(xd, a, b1, zd);
    AfterMk(zd, yd, b2, c);
    MkValid(zd, Mk(xd, a, b1), Mk(yd, b2, c));
  }

  /** The order facts of a node built over ordered parts. */
  lemma {:induction false} BeforeMk(xd: Card, a: HNode, b: HNode, k: Card)
    requires AllBefore(Contents(a), xd) && Before(xd, k) && AllBefore(Contents(b), k)
    ensures AllBefore(Contents(Mk(xd, a, b)), k)
  {
    assert Contents(Mk(xd, a, b)) == Contents(a) + {xd} + Contents(b);
    AllBeforeTrans(Contents(a), xd, k);
  }

  lemma {:induction false} AfterMk(k: Card, yd: Card, b: HNode, c: HNode)
    requires AllAfter(k, Contents(b)) && Before(k, yd) && AllAfter(yd, Contents(c))
    ensures AllAfter(k, Contents(Mk(yd, b, c)))
  {
    assert Contents(Mk(yd, b, c)) == Contents(b) + {yd} + Contents(c);
    AllAfterTrans(k, yd, Contents(c));
  }

  /** The rotations keep the cards and their in-order sequence. */
  lemma {:induction false} RotateRightPreserves(y: HNode)
    requires y.Node? && y.left.Node?
    ensures Contents(RotateRight(y)) == Contents(y)
    ensures InOrder(RotateRight(y)) == InOrder(y)
  {
    var x := y.left;
    assert RotateRight(y) == Mk(x.data, x.left, Mk(y.data, x.right, y.right));
  }

  lemma {:induction false} RotateLeftPreserves(x: HNode)
    requires x.Node? && x.right.Node?
    ensures Contents(RotateLeft(x)) == Contents(x)
    ensures InOrder(RotateLeft(x)) == InOrder(x)
  {
    var y := x.right;
    assert RotateLeft(x) == Mk(y.data, Mk(x.data, x.left, y.left), y.right);
  }

  /** `rebalance` keeps the cards and their in-order sequence. */
  lemma {:induction false} RebalancePreserves(n: HNode)
    ensures Contents(Rebalance(n)) == Contents(n)
    ensures InOrder(Rebalance(n)) == InOrder(n)
  {
    if Balance(n) > 1 {
      if Balance(n.left) < 0 {
        RotateLeftPreserves(n.left);
        RotateRightPreserves(n.(left := RotateLeft(n.left)));
      } else {
        RotateRightPreserves(n);
      }
    } else if Balance(n) < -1 {
      if Balance(n.right) > 0 {
        RotateRightPreserves(n.right);
        RotateLeftPreserves(n.(right := RotateRight(n.right)));
      } else {
        RotateLeftPreserves(n);
      }
    }
  }

  /** A node rebuilt by `update` and `rebalance` holds its parts' cards. */
  lemma {:induction false} RebuiltPreserves(d: Card, l: HNode, r: HNode)
    ensures Contents(Rebalance(Mk(d, l, r))) == Contents(l) + {d} + Contents(r)
    ensures InOrder(Rebalance(Mk(d, l, r))) == InOrder(l) + [d] + InOrder(r)
  {
    RebalancePreserves(Mk(d, l, r));
  }

  /** `rebalance` restores the AVL balance of a node built by `update`
      whose children differ in height by at most 2, and leaves a balanced
      node as it is. */
  lemma {:induction false} RebalanceCorrect(d: Card, l: HNode, r: HNode)
    requires Valid(l) && Valid(r) && AllBefore(Contents(l), d) && AllAfter(d, Contents(r))
    requires -2 <= Height(l) - Height(r) <= 2
    ensures var res := Rebalance(Mk(d, l, r)); Valid(res)
    ensures var res := Rebalance(Mk(d, l, r)); Max(Height(l), Height(r)) <= Height(res) <= 1 + Max(Height(l), Height(r))
    ensures var res := Rebalance(Mk(d, l, r)); (-1 <= Height(l) - Height(r) <= 1 ==> res == Mk(d, l, r))
  {
    if Height(l) - Height(r) == 2 {
      ValidParts(l);
      if Balance(l) < 0 {
        RebalanceLR(d, l, r);
      } else {
        RebalanceLL(d, l, r);
      }
    } else if Height(l) - Height(r) == -2 {
      ValidParts(r);
      if Balance(r) > 0 {
        RebalanceRL(d, l, r);
      } else {
        RebalanceRR(d, l, r);
      }
    } else {
      MkValid(d, l, r);
    }
  }

  lemma {:induction false} RebalanceLL(d: Card, l: HNode, r: HNode)
    requires Valid(l) && Valid(r) && AllBefore(Contents(l), d) && AllAfter(d, Contents(r))
    requires Height(l) - Height(r) == 2 && l.Node? && Balance(l) >= 0
    ensures var res := Rebalance(Mk(d, l, r)); Valid(res)
    ensures var res := Rebalance(Mk(d, l, r)); Height(l) <= Height(res) <= 1 + Height(l)
  {
    ValidParts(l);
    assert l.data in Contents(l);
    assert Rebalance(Mk(d, l, r)) == Mk(l.data, l.left, Mk(d, l.right, r));
    SingleRotation(l.data, l.left, l.right, d, r);
  }

  lemma {:induction false} RebalanceRR(d: Card, l: HNode, r: HNode)
    requires Valid(l) && Valid(r) && AllBefore(Contents(l), d) && AllAfter(d, Contents(r))
    requires Height(l) - Height(r) == -2 && r.Node? && Balance(r) <= 0
    ensures var res := Rebalance(Mk(d, l, r)); Valid(res)
    ensures var res := Rebalance(Mk(d, l, r)); Height(r) <= Height(res) <= 1 + Height(r)
  {
    ValidParts(r);
    assert r.data in Contents(r);
    assert Rebalance(Mk(d, l, r)) == Mk(r.data, Mk(d, l, r.left), r.right);
    SingleRotationMirror(d, l, r.left, r.data, r.right);
  }

  lemma {:induction false} RebalanceLR(d: Card, l: HNode, r: HNode)
    requires Valid(l) && Valid(r) && AllBefore(Contents(l), d) && AllAfter(d, Contents(r))
    requires Height(l) - Height(r) == 2 && l.Node? && Balance(l) < 0
    ensures var res := Rebalance(Mk(d, l, r)); Valid(res)
    ensures var res := Rebalance(Mk(d, l, r)); Height(res) == Height(l)
  {
    ValidParts(l);
    var z := l.right;
    ValidParts(z);
    assert z.data in Contents(l);
    assert AllBefore(Contents(z.right), d);
    assert Rebalance(Mk(d, l, r)) == Mk(z.data, Mk(l.data, l.left, z.left), Mk(d, z.right, r));
    DoubleRotation(l.data, l.left, z.left, z.data, z.right, d, r, Height(r));
  }

  lemma {:induction false} RebalanceRL(d: Card, l: HNode, r: HNode)
    requires Valid(l) && Valid(r) && AllBefore(Contents(l), d) && AllAfter(d, Contents(r))
    requires Height(l) - Height(r) == -2 && r.Node? && Balance(r) > 0
    ensures var res := Rebalance(Mk(d, l, r)); Valid(res)
    ensures var res := Rebalance(Mk(d, l, r)); Height(res) == Height(r)
  {
    ValidParts(r);
    var z := r.left;
    ValidParts(z);
    assert z.data in Contents(r);
    assert AllAfter(d, Contents(z.left));
    assert Rebalance(Mk(d, l, r)) == Mk(z.data, Mk(d, l, z.left), Mk(r.data, z.right, r.right));
    DoubleRotation(d, l, z.left, z.data, z.right, r.data, r.right, Height(l));
  }

  /** Leaves built by `new Node(card)` coincide with `update`'s when the
      health lies in `[0, Integer.MAX_VALUE]`. */
  ghost predicate HealthsInRange(t: HNode)
  {
    forall d | d in Contents(t) :: 0 <= d.hCur <= IntMax
  }

  lemma {:induction false} AllBeforeSubset(s: set<Card>, s': set<Card>, d: Card)
    requires AllBefore(s, d) && s' <= s
    ensures AllBefore(s', d)
  {
  }

  lemma {:induction false} AllAfterSubset(d: Card, s: set<Card>, s': set<Card>)
    requires AllAfter(d, s) && s' <= s
    ensures AllAfter(d, s')
  {
  }

  /** A key that sorts before a node's card can only be in its left subtree. */
  lemma {:induction false} KeyGoesLeft(t: HNode, c: Card)
    requires Valid(t) && t.Node? && Before(c, t.data)
    ensures HasKey(t, c) <==> HasKey(t.left, c)
    ensures WithoutKey(Contents(t), c) == WithoutKey(Contents(t.left), c) + {t.data} + Contents(t.right)
  {
    assert !SameKey(t.data, c);
    forall d | d in Contents(t.right) ensures !SameKey(d, c) {
      assert Before(t.data, d);
    }
  }

  lemma {:induction false} KeyGoesRight(t: HNode, c: Card)
    requires Valid(t) && t.Node? && Before(t.data, c)
    ensures HasKey(t, c) <==> HasKey(t.right, c)
    ensures WithoutKey(Contents(t), c) == Contents(t.left) + {t.data} + WithoutKey(Contents(t.right), c)
  {
    assert !SameKey(t.data, c);
    forall d | d in Contents(t.left) ensures !SameKey(d, c) {
      assert Before(d, t.data);
    }
  }

  /** A key equal to a node's card names that card alone. */
  lemma {:induction false} KeyHere(t: HNode, c: Card)
    requires Valid(t) && t.Node? && SameKey(c, t.data)
    ensures HasKey(t, c)
    ensures WithoutKey(Contents(t), c) == Contents(t.left) + Contents(t.right)
  {
    assert t.data in Contents(t);
    forall d | d in Contents(t.left) ensures !SameKey(d, c) {
      assert Before(d, t.data);
    }
    forall d | d in Contents(t.right) ensures !SameKey(d, c) {
      assert Before(t.data, d);
    }
  }

  /** A valid node is its own `update` unless it is a fresh leaf whose
      health lies outside `[0, Integer.MAX_VALUE]`. */
  lemma {:induction false} SelfUpdated(t: HNode)
    requires Valid(t) && t.Node?
    requires t.left.Node? || t.right.Node? || 0 <= t.data.hCur <= IntMax
    ensures t == Mk(t.data, t.left, t.right)
  {
  }

  /** `insert` keeps the tree valid and adds the card exactly when no card
      with its `(H_cur, entryTime)` is present; otherwise the tree is
      returned unchanged. The height grows by at most one. */
  lemma {:induction false} InsertCorrect(t: HNode, c: Card)
    requires Valid(t)
    ensures var r := Insert(t, c); Valid(r)
    ensures var r := Insert(t, c); (HasKey(t, c) ==> r == t)
    ensures var r := Insert(t, c); (!HasKey(t, c) ==> Contents(r) == Contents(t) + {c})
    ensures var r := Insert(t, c); Height(t) <= Height(r) <= Height(t) + 1
  {
    InsertContents(t, c);
    InsertBalanced(t, c);
  }

  /** The cards after `insert`, for any valid tree. */
  lemma {:induction false} InsertContents(t: HNode, c: Card)
    requires Valid(t)
    ensures var r := Insert(t, c); (HasKey(t, c) ==> Contents(r) == Contents(t))
    ensures var r := Insert(t, c); (!HasKey(t, c) ==> Contents(r) == Contents(t) + {c})
  {
    if t.Node? {
      ValidParts(t);
      var cmp := Compare(c, t.data);
      if cmp < 0 {
        KeyGoesLeft(t, c);
        InsertContents(t.left, c);
        RebuiltPreserves(t.data, Insert(t.left, c), t.right);
        AddToLeft(Contents(t.left), {t.data}, Contents(t.right), c);
      } else if cmp > 0 {
        KeyGoesRight(t, c);
        InsertContents(t.right, c);
        RebuiltPreserves(t.data, t.left, Insert(t.right, c));
        AddToRight(Contents(t.left), {t.data}, Contents(t.right), c);
      } else {
        KeyHere(t, c);
      }
    }
  }

  /** Validity and height after `insert`; a present key changes nothing. */
  lemma {:induction false} InsertBalanced(t: HNode, c: Card)
    requires Valid(t)
    ensures var r := Insert(t, c); Valid(r) && (HasKey(t, c) ==> r == t)
    ensures var r := Insert(t, c); Height(t) <= Height(r) <= Height(t) + 1
    decreases t, 1
  {
    if t.Node? {
      var cmp := Compare(c, t.data);
      if cmp < 0 {
        InsertLeft(t, c);
      } else if cmp > 0 {
        InsertRight(t, c);
      } else {
        KeyHere(t, c);
      }
    }
  }

  lemma {:induction false} InsertLeft(t: HNode, c: Card)
    requires Valid(t) && t.Node? && Before(c, t.data)
    ensures var r := Rebalance(Mk(t.data, Insert(t.left, c), t.right)); Valid(r) && (HasKey(t, c) ==> r == t)
    ensures var r := Rebalance(Mk(t.data, Insert(t.left, c), t.right)); Height(t) <= Height(r) <= Height(t) + 1
    decreases t, 0
  {
    ValidParts(t);
    KeyGoesLeft(t, c);
    InsertBalanced(t.left, c);
    InsertContents(t.left, c);
    var l1 := Insert(t.left, c);
    if HasKey(t, c) {
      assert l1 == t.left && t.left.Node?;
      SelfUpdated(t);
    } else {
      AllBeforeUnion(Contents(t.left), {c}, t.data);
    }
    RebalanceCorrect(t.data, l1, t.right);
  }

  lemma {:induction false} InsertRight(t: HNode, c: Card)
    requires Valid(t) && t.Node? && Before(t.data, c)
    ensures var r := Rebalance(Mk(t.data, t.left, Insert(t.right, c))); Valid(r) && (HasKey(t, c) ==> r == t)
    ensures var r := Rebalance(Mk(t.data, t.left, Insert(t.right, c))); Height(t) <= Height(r) <= Height(t) + 1
    decreases t, 0
  {
    ValidParts(t);
    KeyGoesRight(t, c);
    InsertBalanced(t.right, c);
    InsertContents(t.right, c);
    var r1 := Insert(t.right, c);
    if HasKey(t, c) {
      assert r1 == t.right && t.right.Node?;
      SelfUpdated(t);
    } else {
      AllAfterUnion(t.data, Contents(t.right), {c});
    }
    RebalanceCorrect(t.data, t.left, r1);
  }

  /** `delete` keeps the tree valid and removes exactly the card with the
      given `(H_cur, entryTime)`. Deleting an absent key keeps the cards, or
      the whole tree when every health is in `[0, Integer.MAX_VALUE]`. The
      height shrinks by at most one. */
  lemma {:induction false} DeleteCorrect(t: HNode, c: Card)
    requires Valid(t)
    ensures var r := Delete(t, c); Valid(r)
    ensures var r := Delete(t, c); Contents(r) == WithoutKey(Contents(t), c)
    ensures var r := Delete(t, c); (!HasKey(t, c) && HealthsInRange(t) ==> r == t)
    ensures var r := Delete(t, c); Height(t) - 1 <= Height(r) <= Height(t)
  {
    DeleteContents(t, c);
    DeleteBalanced(t, c);
  }

  /** The cards after `delete`, for any valid tree. */
  lemma {:induction false} DeleteContents(t: HNode, c: Card)
    requires Valid(t)
    ensures Contents(Delete(t, c)) == WithoutKey(Contents(t), c)
    decreases t, 1
  {
    if t.Node? {
      ValidParts(t);
      var cmp := Compare(c, t.data);
      if cmp < 0 {
        KeyGoesLeft(t, c);
        DeleteContents(t.left, c);
        RebuiltPreserves(t.data, Delete(t.left, c), t.right);
      } else if cmp > 0 {
        KeyGoesRight(t, c);
        DeleteContents(t.right, c);
        RebuiltPreserves(t.data, t.left, Delete(t.right, c));
      } else {
        KeyHere(t, c);
        if t.left.Node? && t.right.Node? {
          DeleteSuccessorContents(t);
        }
      }
    }
  }

  lemma {:induction false} WithoutLeftmost(t: HNode)
    requires Valid(t) && t.Node?
    ensures WithoutKey(Contents(t), Leftmost(t)) == Contents(t) - {Leftmost(t)}
  {
    var s := Leftmost(t);
    forall d | d in Contents(t) && SameKey(d, s) ensures d == s {
      KeysUnique(t, d, s);
    }
  }

  /** The two-child case of `delete`: the in-order successor takes the
      node's place, and the cards are those of both children. */
  lemma {:induction false} DeleteSuccessorContents(t: HNode)
    requires Valid(t) && t.Node? && t.left.Node? && t.right.Node?
    ensures var s := Leftmost(t.right);
      Contents(Rebalance(Mk(s, t.left, Delete(t.right, s)))) == Contents(t.left) + Contents(t.right)
    decreases t, 0
  {
    ValidParts(t);
    var s := Leftmost(t.right);
    WithoutLeftmost(t.right);
    DeleteContents(t.right, s);
    RebuiltPreserves(s, t.left, Delete(t.right, s));
  }

  /** Validity and height after `delete`. */
  lemma {:induction false} DeleteBalanced(t: HNode, c: Card)
    requires Valid(t)
    ensures var r := Delete(t, c); Valid(r) && (!HasKey(t, c) && HealthsInRange(t) ==> r == t)
    ensures var r := Delete(t, c); Height(t) - 1 <= Height(r) <= Height(t)
    decreases t, 1
  {
    if t.Node? {
      var cmp := Compare(c, t.data);
      if cmp < 0 {
        DeleteBalancedLeft(t, c);
      } else if cmp > 0 {
        DeleteBalancedRight(t, c);
      } else {
        ValidParts(t);
        KeyHere(t, c);
        if t.left.Node? && t.right.Node? {
          DeleteSuccessorBalanced(t);
        }
      }
    }
  }

  lemma {:induction false} DeleteBalancedLeft(t: HNode, c: Card)
    requires Valid(t) && t.Node? && Before(c, t.data)
    ensures var r := Rebalance(Mk(t.data, Delete(t.left, c), t.right));
      Valid(r) && (!HasKey(t, c) && HealthsInRange(t) ==> r == t)
    ensures var r := Rebalance(Mk(t.data, Delete(t.left, c), t.right)); Height(t) - 1 <= Height(r) <= Height(t)
    decreases t, 0
  {
    ValidParts(t);
    KeyGoesLeft(t, c);
    DeleteBalanced(t.left, c);
    DeleteContents(t.left, c);
    var l1 := Delete(t.left, c);
    AllBeforeSubset(Contents(t.left), Contents(l1), t.data);
    RebalanceCorrect(t.data, l1, t.right);
    if !HasKey(t, c) && HealthsInRange(t) {
      assert t.data in Contents(t);
      assert l1 == t.left;
      SelfUpdated(t);
    }
  }

  lemma {:induction false} DeleteBalancedRight(t: HNode, c: Card)
    requires Valid(t) && t.Node? && Before(t.data, c)
    ensures var r := Rebalance(Mk(t.data, t.left, Delete(t.right, c)));
      Valid(r) && (!HasKey(t, c) && HealthsInRange(t) ==> r == t)
    ensures var r := Rebalance(Mk(t.data, t.left, Delete(t.right, c))); Height(t) - 1 <= Height(r) <= Height(t)
    decreases t, 0
  {
    ValidParts(t);
    KeyGoesRight(t, c);
    DeleteBalanced(t.right, c);
    DeleteContents(t.right, c);
    var r1 := Delete(t.right, c);
    AllAfterSubset(t.data, Contents(t.right), Contents(r1));
    RebalanceCorrect(t.data, t.left, r1);
    if !HasKey(t, c) && HealthsInRange(t) {
      assert t.data in Contents(t);
      assert r1 == t.right;
      SelfUpdated(t);
    }
  }

  lemma {:induction false} DeleteSuccessorBalanced(t: HNode)
    requires Valid(t) && t.Node? && t.left.Node? && t.right.Node?
    ensures var s := Leftmost(t.right); var r := Rebalance(Mk(s, t.left, Delete(t.right, s)));
      Valid(r) && Height(t) - 1 <= Height(r) <= Height(t)
    decreases t, 0
  {
    ValidParts(t);
    var s := Leftmost(t.right);
    LeftmostIsMin(t.right);
    WithoutLeftmost(t.right);
    DeleteBalanced(t.right, s);
    DeleteContents(t.right, s);
    var r1 := Delete(t.right, s);
    forall d | d in Contents(t.left) ensures Before(d, s) {
      assert Before(d, t.data) && Before(t.data, s);
    }
    RebalanceCorrect(s, t.left, r1);
  }

  /** `findMinHealth` returns the smallest card, in `(H_cur, entryTime)`
      order, whose health exceeds the limit, and null when there is none. */
  lemma {:induction false} FindMinHealthCorrect(t: HNode, hpLimit: int)
    requires Valid(t)
    ensures var r := FindMinHealth(t, hpLimit); (r.None? <==> forall c | c in Contents(t) :: c.hCur <= hpLimit)
    ensures var r := FindMinHealth(t, hpLimit); (r.Some? ==> forall d | d in Contents(t) && d.hCur > hpLimit :: d == r.value || Before(r.value, d))
  {
    if t.Node? {
      ValidParts(t);
      if t.hMax <= hpLimit {
        HealthBounds(t);
      } else if t.data.hCur <= hpLimit {
        FindMinHealthCorrect(t.right, hpLimit);
        forall d | d in Contents(t.left) ensures d.hCur <= hpLimit {
          assert Before(d, t.data);
        }
      } else {
        FindMinHealthCorrect(t.left, hpLimit);
        var fromLeft := FindMinHealth(t.left, hpLimit);
        if fromLeft.Some? {
          forall d | d in Contents(t.right) ensures Before(fromLeft.value, d) {
            assert Before(fromLeft.value, t.data) && Before(t.data, d);
          }
        }
      }
    }
  }

  /** `findMinHealthMax` returns the tree's smallest card when its health is
      at most the limit, and null otherwise; null means no card qualifies. */
  lemma {:induction false} FindMinHealthMaxCorrect(t: HNode, hpLimit: int)
    requires Valid(t)
    ensures var r := FindMinHealthMax(t, hpLimit); (t.Nil? ==> r.None?)
    ensures var r := FindMinHealthMax(t, hpLimit); (t.Node? ==> r == if Leftmost(t).hCur <= hpLimit then Some(Leftmost(t)) else None)
    ensures var r := FindMinHealthMax(t, hpLimit); (r.None? <==> forall c | c in Contents(t) :: c.hCur > hpLimit)
  {
    if t.Node? {
      FindMinHealthMaxLeftmost(t, hpLimit);
      LeftmostIsMin(t);
      ValidParts(t);
    }
  }

  lemma {:induction false} FindMinHealthMaxLeftmost(t: HNode, hpLimit: int)
    requires Valid(t) && t.Node?
    ensures FindMinHealthMax(t, hpLimit) == if Leftmost(t).hCur <= hpLimit then Some(Leftmost(t)) else None
  {
    ValidParts(t);
    if t.hMin > hpLimit {
      LeftmostIsMin(t);
      HealthBounds(t);
    } else if t.left.Node? {
      FindMinHealthMaxLeftmost(t.left, hpLimit);
      LeftmostIsMin(t.left);
      assert Leftmost(t) == Leftmost(t.left);
      assert Leftmost(t.left) in Contents(t.left);
    }
  }

}
