/** The outer tree of project1/src/AttackTree.java: an AVL tree keyed by
    `A_cur` whose every node owns a non-empty inner `HealthTree` holding the
    deck's cards with that attack, augmented with the subtree's maximum
    attack and maximum and minimum health.

    As in the inner tree, a node is a value and each recursive helper
    returns the rebuilt subtree; the `AttackTree` class at the end holds the
    root the source reassigns. */
module AttackTrees {
  import opened Lang
  import opened Cards
  import H = HealthTrees

  datatype ANode =
    | Nil
    | Node(key: int, inner: H.HNode, left: ANode, right: ANode,
           height: nat, aMax: int, hMax: int, hMin: int)

  // getHeight, getMaxA, getMaxH, getMinH on a possibly empty subtree.
  function Height(n: ANode): nat { if n.Nil? then 0 else n.height }
  function MaxA(n: ANode): int { if n.Nil? then 0 else n.aMax }
  function MaxH(n: ANode): int { if n.Nil? then 0 else n.hMax }
  function MinH(n: ANode): int { if n.Nil? then IntMax else n.hMin }

  /** `new AttackNode(card)`: a one-card inner tree, aggregates from the card. */
  function NewNode(c: Card): (r: ANode)
    ensures r.Node? && r.key == c.aCur && Contents(r) == {c}
  {
    assert H.Contents(H.Leaf(c)) == H.Contents(H.Nil) + {c} + H.Contents(H.Nil);
    Node(c.aCur, H.Leaf(c), Nil, Nil, 1, c.aCur, c.hCur, c.hCur)
  }

  /** A node with the fields `update` computes; the inner tree contributes
      its root aggregates (`getSubtreeMaxHealth`, `getSubtreeMinHealth`). */
  function Mk(k: int, inner: H.HNode, l: ANode, r: ANode): ANode
  {
    Node(k, inner, l, r, 1 + Max(Height(l), Height(r)),
         Max(k, Max(MaxA(l), MaxA(r))),
         Max(H.MaxH(inner), Max(MaxH(l), MaxH(r))),
         Min(H.MinH(inner), Min(MinH(l), MinH(r))))
  }

  /** `update(n)`. */
  function Update(n: ANode): ANode
  {
    if n.Nil? then n else Mk(n.key, n.inner, n.left, n.right)
  }

  function Balance(n: ANode): int { if n.Nil? then 0 else Height(n.left) - Height(n.right) }

  function RotateRight(y: ANode): (r: ANode)
    requires y.Node? && y.left.Node?
    ensures r.Node? && Contents(r) == Contents(y)
  {
    var x := y.left;
    Update(x.(right := Update(y.(left := x.right))))
  }

  function RotateLeft(x: ANode): (r: ANode)
    requires x.Node? && x.right.Node?
    ensures r.Node? && Contents(r) == Contents(x)
  {
    var y := x.right;
    Update(y.(left := Update(x.(right := y.left))))
  }

  /** `rebalance(n)` of the outer tree. */
  function Rebalance(n: ANode): (r: ANode)
    ensures Contents(r) == Contents(n)
    ensures n.Node? ==> r.Node?
  {
    if Balance(n) > 1 then
      var n1 := if Balance(n.left) < 0 then n.(left := RotateLeft(n.left)) else n;
      RotateRight(n1)
    else if Balance(n) < -1 then
      var n1 := if Balance(n.right) > 0 then n.(right := RotateRight(n.right)) else n;
      RotateLeft(n1)
    else n
  }

  /** `insert(n, card)`: a card joins the inner tree of its attack value;
      the outer tree is rebalanced only when a new attack value is added. */
  function Insert(n: ANode, card: Card): (r: ANode)
    ensures r.Node? && Contents(n) <= Contents(r) <= Contents(n) + {card}
  {
    if n.Nil? then NewNode(card)
    else if card.aCur < n.key then Rebalance(Update(n.(left := Insert(n.left, card))))
    else if card.aCur > n.key then Rebalance(Update(n.(right := Insert(n.right, card))))
    else Update(n.(inner := H.Insert(n.inner, card)))
  }

  /** The node `findMinNode` walks to. */
  function LeftmostNode(n: ANode): (m: ANode)
    requires n.Node?
    ensures m.Node? && m.left.Nil?
    ensures H.Contents(m.inner) <= Contents(n)
  {
    if n.left.Nil? then n else LeftmostNode(n.left)
  }

  /** `delete(n, card)`: removes the card from the inner tree of its attack
      value and drops the outer node once that inner tree is empty. */
  function Delete(n: ANode, card: Card): (r: ANode)
    ensures Contents(r) <= Contents(n)
  {
    if n.Nil? then Nil
    else if card.aCur < n.key then Rebalance(Update(n.(left := Delete(n.left, card))))
    else if card.aCur > n.key then Rebalance(Update(n.(right := Delete(n.right, card))))
    else
      var inner := H.Delete(n.inner, card);
      if inner.Nil? then DeleteOuterNode(n.(inner := inner), card.aCur)
      else Rebalance(Update(n.(inner := inner)))
  }

  /** `deleteOuterNode(n, attackKey)`: removes the node with that key; a node
      with two children takes over its successor's key and inner tree. */
  function DeleteOuterNode(n: ANode, attackKey: int): (r: ANode)
    ensures Contents(r) <= Contents(n)
  {
    if n.Nil? then Nil
    else if attackKey < n.key then Rebalance(Update(n.(left := DeleteOuterNode(n.left, attackKey))))
    else if attackKey > n.key then Rebalance(Update(n.(right := DeleteOuterNode(n.right, attackKey))))
    else if n.left.Nil? then n.right
    else if n.right.Nil? then n.left
    else
      var s := LeftmostNode(n.right);
      Rebalance(Update(n.(key := s.key, inner := s.inner, right := DeleteOuterNode(n.right, s.key))))
  }

  // ---------------------------------------------------------------------
  // Searches. The shared `SearchResult` holder of the source is empty on
  // entry to every helper call that can still change it, so each helper is
  // a function returning the card it would store.

  /** `findBestP1Helper`: smallest `A_cur >= strHp` with a card whose
      `H_cur > strAtt`, and the smallest such card there. */
  function FindBestP1(n: ANode, strAtt: int, strHp: int): (r: Option<Card>)
    ensures r.Some? ==> r.value in Contents(n) && r.value.hCur > strAtt
  {
    if n.Nil? then None
    else if n.aMax < strHp then None
    else if n.hMax <= strAtt then None
    else if n.key < strHp then FindBestP1(n.right, strAtt, strHp)
    else
      var fromLeft: Option<Card> := FindBestP1(n.left, strAtt, strHp);
      if fromLeft.Some? then fromLeft
      else
        var fromThis: Option<Card> := if H.MaxH(n.inner) > strAtt then H.FindMinHealth(n.inner, strAtt) else None;
        if fromThis.Some? then fromThis else FindBestP1(n.right, strAtt, strHp)
  }

  /** `findBestP2Helper_Reverse`: largest `A_cur < strHp` with a card whose
      `H_cur > strAtt`, and the smallest such card there. */
  function FindBestP2(n: ANode, strAtt: int, strHp: int): (r: Option<Card>)
    ensures r.Some? ==> r.value in Contents(n) && r.value.hCur > strAtt
  {
    if n.Nil? then None
    else if n.hMax <= strAtt then None
    else if n.key >= strHp then FindBestP2(n.left, strAtt, strHp)
    else
      var fromRight: Option<Card> := FindBestP2(n.right, strAtt, strHp);
      if fromRight.Some? then fromRight
      else
        var fromThis: Option<Card> := if H.MaxH(n.inner) > strAtt then H.FindMinHealth(n.inner, strAtt) else None;
        if fromThis.Some? then fromThis else FindBestP2(n.left, strAtt, strHp)
  }

  /** `findBestP3Helper`: smallest `A_cur >= strHp` with a card whose
      `H_cur <= strAtt`, and the smallest card there. */
  function FindBestP3(n: ANode, strAtt: int, strHp: int): (r: Option<Card>)
    ensures r.Some? ==> r.value in Contents(n) && r.value.hCur <= strAtt
  {
    if n.Nil? then None
    else if n.aMax < strHp then None
    else if n.hMin > strAtt then None
    else if n.key < strHp then FindBestP3(n.right, strAtt, strHp)
    else
      var fromLeft: Option<Card> := FindBestP3(n.left, strAtt, strHp);
      if fromLeft.Some? then fromLeft
      else
        var fromThis: Option<Card> := if H.MinH(n.inner) <= strAtt then H.FindMinHealthMax(n.inner, strAtt) else None;
        if fromThis.Some? then fromThis else FindBestP3(n.right, strAtt, strHp)
  }

  /** `findForStealHelper`: smallest `A_cur > attLimit` with a card whose
      `H_cur > hpLimit`, and the smallest such card there. */
  function FindForSteal(n: ANode, attLimit: int, hpLimit: int): (r: Option<Card>)
    ensures r.Some? ==> r.value in Contents(n) && r.value.hCur > hpLimit
  {
    if n.Nil? then None
    else if n.aMax <= attLimit then None
    else if n.hMax <= hpLimit then None
    else if n.key <= attLimit then FindForSteal(n.right, attLimit, hpLimit)
    else
      var fromLeft: Option<Card> := FindForSteal(n.left, attLimit, hpLimit);
      if fromLeft.Some? then fromLeft
      else
        var fromThis: Option<Card> := if H.MaxH(n.inner) > hpLimit then H.FindMinHealth(n.inner, hpLimit) else None;
        if fromThis.Some? then fromThis else FindForSteal(n.right, attLimit, hpLimit)
  }

  /** The node the while loop of `findBestP4_Reverse` walks to. */
  function RightmostNode(n: ANode): (m: ANode)
    requires n.Node?
    ensures m.Node? && m.right.Nil?
  {
    if n.right.Nil? then n else RightmostNode(n.right)
  }

  /** `findBestP4_Reverse()`: the smallest card of the largest attack value. */
  method FindBestP4(t: ANode) returns (r: Option<Card>)
    requires Valid(t)
    ensures r.None? <==> Contents(t) == {}
    ensures r.Some? ==> r.value in Contents(t)
    ensures r.Some? ==> forall d | d in Contents(t) :: d == r.value || MaxAttackFirst(r.value, d)
  {
    if t.Nil? {
      return None;
    }
    var n := t;
    while n.right.Node?
      invariant n.Node? && RightmostNode(n) == RightmostNode(t)
      decreases n
    {
      n := n.right;
    }
    r := H.FindMin(n.inner);
    RightmostIsMax(t);
    H.LeftmostIsMin(n.inner);
  }

  // ---------------------------------------------------------------------
  // The invariant

  ghost function Contents(t: ANode): set<Card>
  {
    if t.Nil? then {} else Contents(t.left) + H.Contents(t.inner) + Contents(t.right)
  }

  ghost function Keys(t: ANode): set<int>
  {
    if t.Nil? then {} else Keys(t.left) + {t.key} + Keys(t.right)
  }

  ghost function KeySeq(t: ANode): seq<int>
  {
    if t.Nil? then [] else KeySeq(t.left) + [t.key] + KeySeq(t.right)
  }

  ghost predicate AllBelow(s: set<int>, k: int) { forall x | x in s :: x < k }
  ghost predicate AllAbove(k: int, s: set<int>) { forall x | x in s :: k < x }

  /** An inner tree fit for the node keyed k: valid, non-empty, and holding
      only cards whose attack is k. */
  ghost predicate GoodInner(k: int, inner: H.HNode)
  {
    H.Valid(inner) && inner.Node? && forall c | c in H.Contents(inner) :: c.aCur == k
  }

  /** Search order on keys, AVL balance, good inner trees and aggregates as
      `update` or `new AttackNode(card)` leave them, at every node. */
  ghost predicate Valid(t: ANode)
  {
    t.Node? ==>
      Valid(t.left) && Valid(t.right) && GoodInner(t.key, t.inner) &&
      AllBelow(Keys(t.left), t.key) && AllAbove(t.key, Keys(t.right)) &&
      -1 <= Height(t.left) - Height(t.right) <= 1 &&
      (t == Mk(t.key, t.inner, t.left, t.right) || t == NewNode(t.inner.data))
  }

  /** The deck's card identity: attack, health and entry time. */
  predicate SameCard(a: Card, b: Card) { a.aCur == b.aCur && H.SameKey(a, b) }

  ghost predicate HasCard(t: ANode, c: Card)
  {
    exists d :: d in Contents(t) && SameCard(d, c)
  }

  ghost function WithoutCard(s: set<Card>, c: Card): set<Card>
  {
    set d | d in s && !SameCard(d, c)
  }

  ghost function WithoutAttack(s: set<Card>, k: int): set<Card>
  {
    set d | d in s && d.aCur != k
  }

  /** Orders of the brute-force specifications: smallest attack first, or
      largest attack first, then `(H_cur, entryTime)`. */
  predicate MinAttackFirst(a: Card, b: Card)
  {
    a.aCur < b.aCur || (a.aCur == b.aCur && H.Before(a, b))
  }

  predicate MaxAttackFirst(a: Card, b: Card)
  {
    a.aCur > b.aCur || (a.aCur == b.aCur && H.Before(a, b))
  }

  // ---------------------------------------------------------------------
  // Structural lemmas

  lemma {:induction false} ValidParts(t: ANode)
    requires Valid(t) && t.Node?
    ensures Valid(t.left) && Valid(t.right) && GoodInner(t.key, t.inner)
    ensures AllBelow(Keys(t.left), t.key) && AllAbove(t.key, Keys(t.right))
    ensures Height(t) == 1 + Max(Height(t.left), Height(t.right))
    ensures -1 <= Height(t.left) - Height(t.right) <= 1
  {
  }

  lemma {:induction false} MkValid(k: int, inner: H.HNode, l: ANode, r: ANode)
    requires Valid(l) && Valid(r) && GoodInner(k, inner)
    requires AllBelow(Keys(l), k) && AllAbove(k, Keys(r))
    requires -1 <= Height(l) - Height(r) <= 1
    ensures Valid(Mk(k, inner, l, r))
    ensures Height(Mk(k, inner, l, r)) == 1 + Max(Height(l), Height(r))
  {
  }

  /** Every card of a valid tree sits in the inner tree of its attack value. */
  lemma {:induction false} CardsHaveKeys(t: ANode)
    requires Valid(t)
    ensures forall c | c in Contents(t) :: c.aCur in Keys(t)
    ensures forall k | k in Keys(t) :: exists c :: c in Contents(t) && c.aCur == k
  {
    if t.Node? {
      CardsHaveKeys(t.left);
      CardsHaveKeys(t.right);
      assert t.inner.data in H.Contents(t.inner);
    }
  }

  /** The in-order attack keys of a valid tree are strictly increasing. */
  lemma {:induction false} KeySeqSorted(t: ANode)
    requires Valid(t)
    ensures forall i, j | 0 <= i < j < |KeySeq(t)| :: KeySeq(t)[i] < KeySeq(t)[j]
    ensures forall k :: k in KeySeq(t) <==> k in Keys(t)
  {
    if t.Node? {
      KeySeqSorted(t.left);
      KeySeqSorted(t.right);
      var s := KeySeq(t);
      var nl := |KeySeq(t.left)|;
      forall i, j | 0 <= i < j < |s| ensures s[i] < s[j] {
        if j < nl {
          assert s[i] == KeySeq(t.left)[i] && s[j] == KeySeq(t.left)[j];
        } else if i > nl {
          assert s[i] == KeySeq(t.right)[i - nl - 1] && s[j] == KeySeq(t.right)[j - nl - 1];
        } else {
          assert s[i] in Keys(t.left) || s[i] == t.key;
          assert s[j] in Keys(t.right) || s[j] == t.key;
        }
      }
    }
  }

  /** The cards below a node with key k have smaller, resp. larger, attack. */
  lemma {:induction false} SideAttacks(t: ANode)
    requires Valid(t) && t.Node?
    ensures forall c | c in Contents(t.left) :: c.aCur < t.key
    ensures forall c | c in Contents(t.right) :: c.aCur > t.key
    ensures forall c | c in H.Contents(t.inner) :: c.aCur == t.key
  {
    ValidParts(t);
    CardsHaveKeys(t.left);
    CardsHaveKeys(t.right);
  }

  /** A valid deck holds at most one card per `(A_cur, H_cur, entryTime)`. */
  lemma {:induction false} CardsUnique(t: ANode, c: Card, d: Card)
    requires Valid(t) && c in Contents(t) && d in Contents(t) && SameCard(c, d)
    ensures c == d
  {
    if t.Node? {
      SideAttacks(t);
      if c in Contents(t.left) && d in Contents(t.left) {
        CardsUnique(t.left, c, d);
      } else if c in Contents(t.right) && d in Contents(t.right) {
        CardsUnique(t.right, c, d);
      } else if c in H.Contents(t.inner) && d in H.Contents(t.inner) {
        H.KeysUnique(t.inner, c, d);
      }
    }
  }

  /** Removing a card of a valid deck removes that card alone. */
  lemma {:induction false} WithoutPresentCard(t: ANode, c: Card)
    requires Valid(t) && c in Contents(t)
    ensures WithoutCard(Contents(t), c) == Contents(t) - {c}
    ensures |WithoutCard(Contents(t), c)| == |Contents(t)| - 1
  {
    var s := Contents(t);
    forall d | d in s && SameCard(d, c) ensures d == c {
      CardsUnique(t, d, c);
    }
    WithoutOnlyCard(s, c);
  }

  lemma {:induction false} WithoutOnlyCard(s: set<Card>, c: Card)
    requires c in s && forall d | d in s && SameCard(d, c) :: d == c
    ensures WithoutCard(s, c) == s - {c}
    ensures |WithoutCard(s, c)| == |s| - 1
  {
    assert WithoutCard(s, c) == s - {c};
  }

  /** The outer aggregates bound every card of the subtree and are attained
      or are the empty-subtree value. */
  lemma {:induction false} AggregatesSound(t: ANode)
    requires Valid(t)
    ensures forall c | c in Contents(t) :: c.aCur <= MaxA(t) && MinH(t) <= c.hCur <= MaxH(t)
    ensures forall k | k in Keys(t) :: k <= MaxA(t)
    ensures MaxA(t) == 0 || MaxA(t) in Keys(t)
    ensures MaxH(t) == 0 || exists c :: c in Contents(t) && c.hCur == MaxH(t)
    ensures MinH(t) == IntMax || exists c :: c in Contents(t) && c.hCur == MinH(t)
  {
    AttackAggregateSound(t);
    HealthAggregatesSound(t);
    CardsHaveKeys(t);
  }

  lemma {:induction false} AttackAggregateSound(t: ANode)
    requires Valid(t)
    ensures forall k | k in Keys(t) :: k <= MaxA(t)
    ensures MaxA(t) == 0 || MaxA(t) in Keys(t)
  {
    if t.Node? {
      ValidParts(t);
      AttackAggregateSound(t.left);
      AttackAggregateSound(t.right);
    }
  }

  lemma {:induction false} HealthAggregatesSound(t: ANode)
    requires Valid(t)
    ensures forall c | c in Contents(t) :: MinH(t) <= c.hCur <= MaxH(t)
    ensures MaxH(t) == 0 || exists c :: c in Contents(t) && c.hCur == MaxH(t)
    ensures MinH(t) == IntMax || exists c :: c in Contents(t) && c.hCur == MinH(t)
  {
    HealthBounds(t);
    MaxHAttained(t);
    MinHAttained(t);
  }

  lemma {:induction false} HealthBounds(t: ANode)
    requires Valid(t)
    ensures forall c | c in Contents(t) :: MinH(t) <= c.hCur <= MaxH(t)
  {
    if t.Node? {
      ValidParts(t);
      HealthBounds(t.left);
      HealthBounds(t.right);
      H.HealthBounds(t.inner);
    }
  }

  lemma {:induction false} MaxHAttained(t: ANode)
    requires Valid(t)
    ensures MaxH(t) == 0 || exists c :: c in Contents(t) && c.hCur == MaxH(t)
  {
    if t.Node? {
      ValidParts(t);
      MaxHAttained(t.left);
      MaxHAttained(t.right);
      H.MaxAttained(t.inner);
      assert t.inner.data in H.Contents(t.inner);
    }
  }

  lemma {:induction false} MinHAttained(t: ANode)
    requires Valid(t)
    ensures MinH(t) == IntMax || exists c :: c in Contents(t) && c.hCur == MinH(t)
  {
    if t.Node? {
      ValidParts(t);
      MinHAttained(t.left);
      MinHAttained(t.right);
      H.MinAttained(t.inner);
      assert t.inner.data in H.Contents(t.inner);
    }
  }

  lemma {:induction false} RightmostIsMax(t: ANode)
    requires Valid(t) && t.Node?
    ensures GoodInner(RightmostNode(t).key, RightmostNode(t).inner)
    ensures H.Contents(RightmostNode(t).inner) <= Contents(t)
    ensures forall c | c in Contents(t) :: c.aCur <= RightmostNode(t).key
    ensures forall c | c in Contents(t) && c.aCur == RightmostNode(t).key :: c in H.Contents(RightmostNode(t).inner)
  {
    SideAttacks(t);
    if t.right.Node? {
      RightmostIsMax(t.right);
    }
  }

  // ---------------------------------------------------------------------
  // Rotations and rebalance keep the cards and the in-order keys of any
  // tree; on valid subtrees they restore the AVL balance.

  lemma {:induction false} RotateRightPreserves(y: ANode)
    requires y.Node? && y.left.Node?
    ensures Contents(RotateRight(y)) == Contents(y)
    ensures Keys(RotateRight(y)) == Keys(y)
    ensures KeySeq(RotateRight(y)) == KeySeq(y)
  {
    var x := y.left;
    assert RotateRight(y) == Mk(x.key, x.inner, x.left, Mk(y.key, y.inner, x.right, y.right));
  }

  lemma {:induction false} RotateLeftPreserves(x: ANode)
    requires x.Node? && x.right.Node?
    ensures Contents(RotateLeft(x)) == Contents(x)
    ensures Keys(RotateLeft(x)) == Keys(x)
    ensures KeySeq(RotateLeft(x)) == KeySeq(x)
  {
    var y := x.right;
    assert RotateLeft(x) == Mk(y.key, y.inner, Mk(x.key, x.inner, x.left, y.left), y.right);
  }

  /** `rebalance` keeps the cards, the keys and their in-order sequence. */
  lemma {:induction false} RebalancePreserves(n: ANode)
    ensures Contents(Rebalance(n)) == Contents(n)
    ensures Keys(Rebalance(n)) == Keys(n)
    ensures KeySeq(Rebalance(n)) == KeySeq(n)
  {
    if Balance(n) > 1 {
      if Balance(n.left) < 0 {
        RotateLeftPreserves(n.left);
        RotateRightPreserves(n.(left := RotateLeft(n.left)));
      } else {
        RotateRightPreserves(n);
      }
    } else if Balance(n) < -1 {
      if Balance(n.right) > 0 {
        RotateRightPreserves(n.right);
        RotateLeftPreserves(n.(right := RotateRight(n.right)));
      } else {
        RotateLeftPreserves(n);
      }
    }
  }

  lemma {:induction false} BelowJoin(s: set<int>, x: int, t: set<int>, k: int)
    requires AllBelow(s, x) && x < k && AllBelow(t, k)
    ensures AllBelow(s + {x} + t, k)
  {
  }

  lemma {:induction false} AboveJoin(k: int, s: set<int>, y: int, t: set<int>)
    requires AllAbove(k, s) && k < y && AllAbove(y, t)
    ensures AllAbove(k, s + {y} + t)
  {
  }

  /** The right rotation of the LL case. */
  lemma {:induction false} SingleRotation(xk: int, xi: H.HNode, a: ANode, b: ANode, yk: int, yi: H.HNode, c: ANode)
    requires Valid(a) && Valid(b) && Valid(c) && GoodInner(xk, xi) && GoodInner(yk, yi)
    requires AllBelow(Keys(a), xk) && AllAbove(xk, Keys(b)) && xk < yk
    requires AllBelow(Keys(b), yk) && AllAbove(yk, Keys(c))
    requires Height(a) == Height(c) + 1 && Height(c) <= Height(b) <= Height(c) + 1
    ensures var r := Mk(xk, xi, a, Mk(yk, yi, b, c)); Valid(r)
    ensures var r := Mk(xk, xi, a, Mk(yk, yi, b, c)); Height(c) + 2 <= Height(r) <= Height(c) + 3
  {
    MkValid(yk, yi, b, c);
    KeysAbove(xk, yk, yi, b, c);
    MkValid(xk, xi, a, Mk(yk, yi, b, c));
  }

  /** The left rotation of the RR case. */
  lemma {:induction false} SingleRotationMirror(xk: int, xi: H.HNode, a: ANode, b: ANode, yk: int, yi: H.HNode, c: ANode)
    requires Valid(a) && Valid(b) && Valid(c) && GoodInner(xk, xi) && GoodInner(yk, yi)
    requires AllBelow(Keys(a), xk) && AllAbove(xk, Keys(b)) && xk < yk
    requires AllBelow(Keys(b), yk) && AllAbove(yk, Keys(c))
    requires Height(c) == Height(a) + 1 && Height(a) <= Height(b) <= Height(a) + 1
    ensures var r := Mk(yk, yi, Mk(xk, xi, a, b), c); Valid(r)
    ensures var r := Mk(yk, yi, Mk(xk, xi, a, b), c); Height(a) + 2 <= Height(r) <= Height(a) + 3
  {
    MkValid(xk, xi, a, b);
    KeysBelow(xk, xi, a, b, yk);
    MkValid(yk, yi, Mk(xk, xi, a, b), c);
  }

  /** The double rotation of the LR and RL cases. */
  lemma {:induction false} DoubleRotation(xk: int, xi: H.HNode, a: ANode, b1: ANode, zk: int, zi: H.HNode,
                       b2: ANode, yk: int, yi: H.HNode, c: ANode, h: nat)
    requires Valid(a) && Valid(b1) && Valid(b2) && Valid(c)
    requires GoodInner(xk, xi) && GoodInner(zk, zi) && GoodInner(yk, yi)
    requires AllBelow(Keys(a), xk) && AllAbove(xk, Keys(b1)) && xk < zk
    requires AllBelow(Keys(b1), zk) && AllAbove(zk, Keys(b2)) && zk < yk
    requires AllBelow(Keys(b2), yk) && AllAbove(yk, Keys(c))
    requires Height(a) == h && Height(c) == h
    requires Max(Height(b1), Height(b2)) == h && Height(b1) + 1 >= h && Height(b2) + 1 >= h
    ensures var r := Mk(zk, zi, Mk(xk, xi, a, b1), Mk(yk, yi, b2, c)); Valid(r)
    ensures var r := Mk(zk, zi, Mk(xk, xi, a, b1), Mk(yk, yi, b2, c)); Height(r) == h + 2
  {
    MkValid(xk, xi, a, b1);
    MkValid(yk, yi, b2, c);
    KeysBelow(xk, xi, a, b1, zk);
    KeysAbove(zk, yk, yi, b2, c);
    MkValid(zk, zi, Mk(xk, xi, a, b1), Mk(yk, yi, b2, c));
  }

  lemma {:induction false} KeysBelow(xk: int, xi: H.HNode, a: ANode, b: ANode, k: int)
    requires AllBelow(Keys(a), xk) && xk < k && AllBelow(Keys(b), k)
    ensures AllBelow(Keys(Mk(xk, xi, a, b)), k)
  {
    assert Keys(Mk(xk, xi, a, b)) == Keys(a) + {xk} + Keys(b);
    BelowJoin(Keys(a), xk, Keys(b), k);
  }

  lemma {:induction false} KeysAbove(k: int, yk: int, yi: H.HNode, b: ANode, c: ANode)
    requires AllAbove(k, Keys(b)) && k < yk && AllAbove(yk, Keys(c))
    ensures AllAbove(k, Keys(Mk(yk, yi, b, c)))
  {
    assert Keys(Mk(yk, yi, b, c)) == Keys(b) + {yk} + Keys(c);
    AboveJoin(k, Keys(b), yk, Keys(c));
  }

  /** `rebalance` restores the AVL balance of a node built by `update` whose
      children differ in height by at most 2, and leaves a balanced node as
      it is. */
  lemma {:induction false} RebalanceCorrect(k: int, inner: H.HNode, l: ANode, r: ANode)
    requires Valid(l) && Valid(r) && GoodInner(k, inner)
    requires AllBelow(Keys(l), k) && AllAbove(k, Keys(r))
    requires -2 <= Height(l) - Height(r) <= 2
    ensures var res := Rebalance(Mk(k, inner, l, r)); Valid(res)
    ensures var res := Rebalance(Mk(k, inner, l, r)); Max(Height(l), Height(r)) <= Height(res) <= 1 + Max(Height(l), Height(r))
    ensures var res := Rebalance(Mk(k, inner, l, r)); (-1 <= Height(l) - Height(r) <= 1 ==> res == Mk(k, inner, l, r))
  {
    if Height(l) - Height(r) == 2 {
      ValidParts(l);
      if Balance(l) < 0 {
        RebalanceLR(k, inner, l, r);
      } else {
        RebalanceLL(k, inner, l, r);
      }
    } else if Height(l) - Height(r) == -2 {
      ValidParts(r);
      if Balance(r) > 0 {
        RebalanceRL(k, inner, l, r);
      } else {
        RebalanceRR(k, inner, l, r);
      }
    } else {
      MkValid(k, inner, l, r);
    }
  }

  lemma {:induction false} RebalanceLL(k: int, inner: H.HNode, l: ANode, r: ANode)
    requires Valid(l) && Valid(r) && GoodInner(k, inner)
    requires AllBelow(Keys(l), k) && AllAbove(k, Keys(r))
    requires Height(l) - Height(r) == 2 && l.Node? && Balance(l) >= 0
    ensures var res := Rebalance(Mk(k, inner, l, r)); Valid(res) && Height(l) <= Height(res) <= 1 + Height(l)
  {
    ValidParts(l);
    assert l.key in Keys(l);
    assert Rebalance(Mk(k, inner, l, r)) == Mk(l.key, l.inner, l.left, Mk(k, inner, l.right, r));
    SingleRotation(l.key, l.inner, l.left, l.right, k, inner, r);
  }

  lemma {:induction false} RebalanceRR(k: int, inner: H.HNode, l: ANode, r: ANode)
    requires Valid(l) && Valid(r) && GoodInner(k, inner)
    requires AllBelow(Keys(l), k) && AllAbove(k, Keys(r))
    requires Height(l) - Height(r) == -2 && r.Node? && Balance(r) <= 0
    ensures var res := Rebalance(Mk(k, inner, l, r)); Valid(res) && Height(r) <= Height(res) <= 1 + Height(r)
  {
    ValidParts(r);
    assert r.key in Keys(r);
    assert Rebalance(Mk(k, inner, l, r)) == Mk(r.key, r.inner, Mk(k, inner, l, r.left), r.right);
    SingleRotationMirror(k, inner, l, r.left, r.key, r.inner, r.right);
  }

  /** The shapes `rebalance` builds in the LR and RL cases. */
  lemma {:induction false} RebalanceLRShape(k: int, inner: H.HNode, l: ANode, r: ANode)
    requires Height(l) - Height(r) == 2 && l.Node? && Balance(l) < 0
    ensures l.right.Node?
    ensures Rebalance(Mk(k, inner, l, r)) ==
      Mk(l.right.key, l.right.inner, Mk(l.key, l.inner, l.left, l.right.left), Mk(k, inner, l.right.right, r))
  {
  }

  lemma {:induction false} RebalanceRLShape(k: int, inner: H.HNode, l: ANode, r: ANode)
    requires Height(l) - Height(r) == -2 && r.Node? && Balance(r) > 0
    ensures r.left.Node?
    ensures Rebalance(Mk(k, inner, l, r)) ==
      Mk(r.left.key, r.left.inner, Mk(k, inner, l, r.left.left), Mk(r.key, r.inner, r.left.right, r.right))
  {
  }

  lemma {:induction false} RebalanceLR(k: int, inner: H.HNode, l: ANode, r: ANode)
    requires Valid(l) && Valid(r) && GoodInner(k, inner)
    requires AllBelow(Keys(l), k) && AllAbove(k, Keys(r))
    requires Height(l) - Height(r) == 2 && l.Node? && Balance(l) < 0
    ensures var res := Rebalance(Mk(k, inner, l, r)); Valid(res) && Height(res) == Height(l)
  {
    ValidParts(l);
    var z := l.right;
    ValidParts(z);
    assert z.key in Keys(l);
    assert AllBelow(Keys(z.right), k);
    RebalanceLRShape(k, inner, l, r);
    DoubleRotation(l.key, l.inner, l.left, z.left, z.key, z.inner, z.right, k, inner, r, Height(r));
  }

  lemma {:induction false} RebalanceRL(k: int, inner: H.HNode, l: ANode, r: ANode)
    requires Valid(l) && Valid(r) && GoodInner(k, inner)
    requires AllBelow(Keys(l), k) && AllAbove(k, Keys(r))
    requires Height(l) - Height(r) == -2 && r.Node? && Balance(r) > 0
    ensures var res := Rebalance(Mk(k, inner, l, r)); Valid(res) && Height(res) == Height(r)
  {
    ValidParts(r);
    var z := r.left;
    ValidParts(z);
    assert z.key in Keys(r);
    assert AllAbove(k, Keys(z.left));
    RebalanceRLShape(k, inner, l, r);
    DoubleRotation(k, inner, l, z.left, z.key, z.inner, z.right, r.key, r.inner, r.right, Height(l));
  }

  // ---------------------------------------------------------------------
  // Set algebra for the card filters

  lemma {:induction false} WithoutAttackUnion(a: set<Card>, b: set<Card>, c: set<Card>, k: int)
    ensures WithoutAttack(a + b + c, k) == WithoutAttack(a, k) + WithoutAttack(b, k) + WithoutAttack(c, k)
  {
  }

  lemma {:induction false} WithoutAttackNone(s: set<Card>, k: int)
    requires forall d | d in s :: d.aCur != k
    ensures WithoutAttack(s, k) == s
  {
  }

  lemma {:induction false} WithoutAttackAll(s: set<Card>, k: int)
    requires forall d | d in s :: d.aCur == k
    ensures WithoutAttack(s, k) == {}
  {
  }

  lemma {:induction false} WithoutCardUnion(a: set<Card>, b: set<Card>, c: set<Card>, card: Card)
    ensures WithoutCard(a + b + c, card) == WithoutCard(a, card) + WithoutCard(b, card) + WithoutCard(c, card)
  {
  }

  lemma {:induction false} WithoutCardNone(s: set<Card>, card: Card)
    requires forall d | d in s :: d.aCur != card.aCur
    ensures WithoutCard(s, card) == s
  {
  }

  lemma {:induction false} WithoutCardInner(s: set<Card>, card: Card)
    requires forall d | d in s :: d.aCur == card.aCur
    ensures WithoutCard(s, card) == H.WithoutKey(s, card)
  {
  }

  lemma {:induction false} AboveMinimum(ks: set<int>, m: int)
    requires forall k | k in ks :: m <= k
    ensures AllAbove(m, ks - {m})
  {
  }

  lemma {:induction false} BelowAdd(ks: set<int>, x: int, k: int)
    requires AllBelow(ks, k) && x < k
    ensures AllBelow(ks + {x}, k)
  {
  }

  lemma {:induction false} AboveAdd(k: int, ks: set<int>, x: int)
    requires AllAbove(k, ks) && k < x
    ensures AllAbove(k, ks + {x})
  {
  }

  lemma {:induction false} SplitAttackLeft(cl: set<Card>, ci: set<Card>, cr: set<Card>, cs: set<Card>, k: int)
    requires cl == WithoutAttack(cl, k) + cs
    requires forall d | d in ci :: d.aCur != k
    requires forall d | d in cr :: d.aCur != k
    ensures cl + ci + cr == WithoutAttack(cl + ci + cr, k) + cs
  {
    WithoutAttackUnion(cl, ci, cr, k);
    WithoutAttackNone(ci, k);
    WithoutAttackNone(cr, k);
  }

  lemma {:induction false} SplitAttackHere(cl: set<Card>, ci: set<Card>, cr: set<Card>, k: int)
    requires cl == {}
    requires forall d | d in ci :: d.aCur == k
    requires forall d | d in cr :: d.aCur != k
    ensures cl + ci + cr == WithoutAttack(cl + ci + cr, k) + ci
  {
    WithoutAttackUnion(cl, ci, cr, k);
    WithoutAttackAll(ci, k);
    WithoutAttackNone(cr, k);
  }

  lemma {:induction false} DropAttackHere(cl: set<Card>, ci: set<Card>, cr: set<Card>, k: int)
    requires forall d | d in cl :: d.aCur != k
    requires forall d | d in ci :: d.aCur == k
    requires forall d | d in cr :: d.aCur != k
    ensures cl + cr == WithoutAttack(cl + ci + cr, k)
  {
    WithoutAttackUnion(cl, ci, cr, k);
    WithoutAttackNone(cl, k);
    WithoutAttackAll(ci, k);
    WithoutAttackNone(cr, k);
  }

  lemma {:induction false} DropKeyHere(kl: set<int>, key: int, kr: set<int>)
    requires AllBelow(kl, key) && AllAbove(key, kr)
    ensures kl + kr == (kl + {key} + kr) - {key}
  {
  }

  // ---------------------------------------------------------------------
  // Which subtree holds a card

  lemma {:induction false} HasCardHere(t: ANode, c: Card)
    requires Valid(t) && t.Node? && c.aCur == t.key
    ensures HasCard(t, c) <==> H.HasKey(t.inner, c)
  {
    SideAttacks(t);
    if HasCard(t, c) {
      var d :| d in Contents(t) && SameCard(d, c);
      assert d in H.Contents(t.inner);
    }
    if H.HasKey(t.inner, c) {
      var d :| d in H.Contents(t.inner) && H.SameKey(d, c);
      assert SameCard(d, c);
    }
  }

  lemma {:induction false} HasCardLeft(t: ANode, c: Card)
    requires Valid(t) && t.Node? && c.aCur < t.key
    ensures HasCard(t, c) <==> HasCard(t.left, c)
  {
    SideAttacks(t);
    if HasCard(t, c) {
      var d :| d in Contents(t) && SameCard(d, c);
      assert d in Contents(t.left);
    }
  }

  lemma {:induction false} HasCardRight(t: ANode, c: Card)
    requires Valid(t) && t.Node? && c.aCur > t.key
    ensures HasCard(t, c) <==> HasCard(t.right, c)
  {
    SideAttacks(t);
    if HasCard(t, c) {
      var d :| d in Contents(t) && SameCard(d, c);
      assert d in Contents(t.right);
    }
  }

  /** A key of a valid tree below, at or above the root. */
  lemma {:induction false} KeySide(t: ANode, k: int)
    requires Valid(t) && t.Node?
    ensures k in Keys(t) && k < t.key ==> k in Keys(t.left)
    ensures k in Keys(t) && k > t.key ==> k in Keys(t.right)
  {
  }

  // ---------------------------------------------------------------------
  // Insert

  /** `insert` adds the card unless one with its attack, health and entry
      time is already there; the keys gain its attack value, and when that
      value was already a key the in-order keys stay as they were. */
  lemma {:induction false} InsertContents(t: ANode, c: Card)
    requires Valid(t)
    ensures var r := Insert(t, c); (HasCard(t, c) ==> Contents(r) == Contents(t))
    ensures var r := Insert(t, c); (!HasCard(t, c) ==> Contents(r) == Contents(t) + {c})
    ensures var r := Insert(t, c); Keys(r) == Keys(t) + {c.aCur}
    ensures var r := Insert(t, c); (c.aCur in Keys(t) ==> KeySeq(r) == KeySeq(t))
    decreases t, 1
  {
    if t.Nil? {
      assert H.Contents(H.Leaf(c)) == {c};
    } else if c.aCur < t.key {
      InsertContentsLeft(t, c);
    } else if c.aCur > t.key {
      InsertContentsRight(t, c);
    } else {
      InsertContentsHere(t, c);
    }
  }

  lemma {:induction false} InsertContentsHere(t: ANode, c: Card)
    requires Valid(t) && t.Node? && c.aCur == t.key
    ensures var r := Mk(t.key, H.Insert(t.inner, c), t.left, t.right);
      (HasCard(t, c) ==> Contents(r) == Contents(t)) && (!HasCard(t, c) ==> Contents(r) == Contents(t) + {c}) &&
      Keys(r) == Keys(t) && KeySeq(r) == KeySeq(t)
  {
    ValidParts(t);
    HasCardHere(t, c);
    H.InsertContents(t.inner, c);
    AddToMiddle(Contents(t.left), H.Contents(t.inner), Contents(t.right), c);
  }

  /** The cards, keys and in-order keys of a node rebuilt by
      `rebalance(update(n))`. */
  lemma {:induction false} RebuiltPreserves(k: int, inner: H.HNode, l: ANode, r: ANode)
    ensures Contents(Rebalance(Mk(k, inner, l, r))) == Contents(l) + H.Contents(inner) + Contents(r)
    ensures Keys(Rebalance(Mk(k, inner, l, r))) == Keys(l) + {k} + Keys(r)
    ensures KeySeq(Rebalance(Mk(k, inner, l, r))) == KeySeq(l) + [k] + KeySeq(r)
  {
    RebalancePreserves(Mk(k, inner, l, r));
  }

  lemma {:induction false} InsertContentsLeft(t: ANode, c: Card)
    requires Valid(t) && t.Node? && c.aCur < t.key
    ensures var r := Rebalance(Mk(t.key, t.inner, Insert(t.left, c), t.right));
      (HasCard(t, c) ==> Contents(r) == Contents(t)) && (!HasCard(t, c) ==> Contents(r) == Contents(t) + {c}) &&
      Keys(r) == Keys(t) + {c.aCur} && (c.aCur in Keys(t) ==> KeySeq(r) == KeySeq(t))
    decreases t, 0
  {
    ValidParts(t);
    HasCardLeft(t, c);
    KeySide(t, c.aCur);
    var l := Insert(t.left, c);
    InsertContents(t.left, c);
    RebuiltPreserves(t.key, t.inner, l, t.right);
    AddToLeft(Contents(t.left), H.Contents(t.inner), Contents(t.right), c);
    AddToLeft(Keys(t.left), {t.key}, Keys(t.right), c.aCur);
  }

  lemma {:induction false} InsertContentsRight(t: ANode, c: Card)
    requires Valid(t) && t.Node? && c.aCur > t.key
    ensures var r := Rebalance(Mk(t.key, t.inner, t.left, Insert(t.right, c)));
      (HasCard(t, c) ==> Contents(r) == Contents(t)) && (!HasCard(t, c) ==> Contents(r) == Contents(t) + {c}) &&
      Keys(r) == Keys(t) + {c.aCur} && (c.aCur in Keys(t) ==> KeySeq(r) == KeySeq(t))
    decreases t, 0
  {
    ValidParts(t);
    HasCardRight(t, c);
    KeySide(t, c.aCur);
    var r := Insert(t.right, c);
    InsertContents(t.right, c);
    RebuiltPreserves(t.key, t.inner, t.left, r);
    AddToRight(Contents(t.left), H.Contents(t.inner), Contents(t.right), c);
    AddToRight(Keys(t.left), {t.key}, Keys(t.right), c.aCur);
  }

  /** `insert` keeps the tree valid; its height grows by at most one, and
      not at all when the attack value was already a key. */
  lemma {:induction false} InsertBalanced(t: ANode, c: Card)
    requires Valid(t)
    ensures var r := Insert(t, c); Valid(r)
    ensures var r := Insert(t, c); Height(t) <= Height(r) <= Height(t) + 1
    ensures var r := Insert(t, c); (c.aCur in Keys(t) ==> Height(r) == Height(t))
    decreases t, 1
  {
    if t.Nil? {
      assert H.Contents(H.Leaf(c)) == {c};
    } else if c.aCur < t.key {
      InsertBalancedLeft(t, c);
    } else if c.aCur > t.key {
      InsertBalancedRight(t, c);
    } else {
      InsertBalancedHere(t, c);
    }
  }

  lemma {:induction false} InsertBalancedHere(t: ANode, c: Card)
    requires Valid(t) && t.Node? && c.aCur == t.key
    ensures var r := Mk(t.key, H.Insert(t.inner, c), t.left, t.right); Valid(r) && Height(r) == Height(t)
  {
    ValidParts(t);
    var inner := H.Insert(t.inner, c);
    H.InsertCorrect(t.inner, c);
    assert t.inner.data in H.Contents(t.inner);
    assert GoodInner(t.key, inner);
    MkValid(t.key, inner, t.left, t.right);
  }

  lemma {:induction false} InsertBalancedLeft(t: ANode, c: Card)
    requires Valid(t) && t.Node? && c.aCur < t.key
    ensures var r := Rebalance(Mk(t.key, t.inner, Insert(t.left, c), t.right));
      Valid(r) && Height(t) <= Height(r) <= Height(t) + 1 && (c.aCur in Keys(t) ==> Height(r) == Height(t))
    decreases t, 0
  {
    ValidParts(t);
    KeySide(t, c.aCur);
    var l := Insert(t.left, c);
    InsertBalanced(t.left, c);
    InsertContents(t.left, c);
    BelowAdd(Keys(t.left), c.aCur, t.key);
    RebalanceCorrect(t.key, t.inner, l, t.right);
  }

  lemma {:induction false} InsertBalancedRight(t: ANode, c: Card)
    requires Valid(t) && t.Node? && c.aCur > t.key
    ensures var r := Rebalance(Mk(t.key, t.inner, t.left, Insert(t.right, c)));
      Valid(r) && Height(t) <= Height(r) <= Height(t) + 1 && (c.aCur in Keys(t) ==> Height(r) == Height(t))
    decreases t, 0
  {
    ValidParts(t);
    KeySide(t, c.aCur);
    var r := Insert(t.right, c);
    InsertBalanced(t.right, c);
    InsertContents(t.right, c);
    AboveAdd(t.key, Keys(t.right), c.aCur);
    RebalanceCorrect(t.key, t.inner, t.left, r);
  }

  /** `insert` in full: the tree stays a valid two-level index, gains the
      card unless its identity is already present, and a card whose attack
      value is already a key changes only that key's inner tree (the outer
      keys, their order and the height are unchanged). */
  lemma {:induction false} InsertCorrect(t: ANode, c: Card)
    requires Valid(t)
    ensures var r := Insert(t, c); Valid(r)
    ensures var r := Insert(t, c); (HasCard(t, c) ==> Contents(r) == Contents(t))
    ensures var r := Insert(t, c); (!HasCard(t, c) ==> Contents(r) == Contents(t) + {c})
    ensures var r := Insert(t, c); Keys(r) == Keys(t) + {c.aCur}
    ensures var r := Insert(t, c); (c.aCur in Keys(t) ==> KeySeq(r) == KeySeq(t) && Height(r) == Height(t))
    ensures var r := Insert(t, c); Height(t) <= Height(r) <= Height(t) + 1
  {
    InsertContents(t, c);
    InsertBalanced(t, c);
  }

  // ---------------------------------------------------------------------
  // Removing a whole attack value

  /** The node keyed by the smallest attack value, and the cards it holds. */
  lemma {:induction false} LeftmostNodeIsMin(t: ANode)
    requires Valid(t) && t.Node?
    ensures var s := LeftmostNode(t); s.key in Keys(t) && GoodInner(s.key, s.inner)
    ensures var s := LeftmostNode(t); forall k | k in Keys(t) :: s.key <= k
    ensures var s := LeftmostNode(t); Contents(t) == WithoutAttack(Contents(t), s.key) + H.Contents(s.inner)
  {
    LeftmostNodeKey(t);
    LeftmostNodeCards(t);
  }

  lemma {:induction false} LeftmostNodeKey(t: ANode)
    requires Valid(t) && t.Node?
    ensures var s := LeftmostNode(t); s.key in Keys(t) && GoodInner(s.key, s.inner)
    ensures var s := LeftmostNode(t); forall k | k in Keys(t) :: s.key <= k
  {
    LeftmostNodeIn(t);
    LeftmostNodeMin(t);
  }

  lemma {:induction false} LeftmostNodeIn(t: ANode)
    requires Valid(t) && t.Node?
    ensures var s := LeftmostNode(t); s.key in Keys(t) && GoodInner(s.key, s.inner)
  {
    if t.left.Node? {
      LeftmostNodeIn(t.left);
    }
  }

  lemma {:induction false} LeftmostNodeMin(t: ANode)
    requires Valid(t) && t.Node?
    ensures var s := LeftmostNode(t); forall k | k in Keys(t) :: s.key <= k
  {
    var s := LeftmostNode(t);
    assert AllBelow(Keys(t.left), t.key) && AllAbove(t.key, Keys(t.right));
    if t.left.Node? {
      LeftmostNodeIn(t.left);
      LeftmostNodeMin(t.left);
      LeastOfParts(Keys(t.left), t.key, Keys(t.right), s.key);
    }
  }

  lemma {:induction false} LeastOfParts(l: set<int>, k0: int, r: set<int>, m: int)
    requires m in l && (forall k | k in l :: m <= k)
    requires AllBelow(l, k0) && AllAbove(k0, r)
    ensures forall k | k in l + {k0} + r :: m <= k
  {
    forall k | k in l + {k0} + r ensures m <= k {
      if k !in l {
        assert m < k0;
      }
    }
  }

  lemma {:induction false} LeftmostNodeCards(t: ANode)
    requires Valid(t) && t.Node?
    ensures var s := LeftmostNode(t); Contents(t) == WithoutAttack(Contents(t), s.key) + H.Contents(s.inner)
  {
    ValidParts(t);
    SideAttacks(t);
    var s := LeftmostNode(t);
    if t.left.Node? {
      LeftmostNodeKey(t.left);
      LeftmostNodeCards(t.left);
      SplitAttackLeft(Contents(t.left), H.Contents(t.inner), Contents(t.right), H.Contents(s.inner), s.key);
    } else {
      SplitAttackHere(Contents(t.left), H.Contents(t.inner), Contents(t.right), s.key);
    }
  }

  /** `deleteOuterNode(n, attackKey)` removes exactly the cards with that
      attack value, and that key. */
  lemma {:induction false} DeleteOuterContents(t: ANode, k: int)
    requires Valid(t)
    ensures var r := DeleteOuterNode(t, k); Contents(r) == WithoutAttack(Contents(t), k)
    ensures var r := DeleteOuterNode(t, k); Keys(r) == Keys(t) - {k}
    decreases t, 2
  {
    if t.Node? {
      if k < t.key {
        DeleteOuterContentsLeft(t, k);
      } else if k > t.key {
        DeleteOuterContentsRight(t, k);
      } else {
        DeleteOuterContentsHere(t);
      }
    }
  }

  lemma {:induction false} DeleteOuterContentsLeft(t: ANode, k: int)
    requires Valid(t) && t.Node? && k < t.key
    ensures var r := Rebalance(Mk(t.key, t.inner, DeleteOuterNode(t.left, k), t.right));
      Contents(r) == WithoutAttack(Contents(t), k) && Keys(r) == Keys(t) - {k}
    decreases t, 0
  {
    ValidParts(t);
    SideAttacks(t);
    var l := DeleteOuterNode(t.left, k);
    DeleteOuterContents(t.left, k);
    RebuiltPreserves(t.key, t.inner, l, t.right);
    DropAttackLeft(Contents(t.left), H.Contents(t.inner), Contents(t.right), Contents(l), k);
    DropKeyLeft(Keys(t.left), t.key, Keys(t.right), Keys(l), k);
  }

  lemma {:induction false} DeleteOuterContentsRight(t: ANode, k: int)
    requires Valid(t) && t.Node? && k > t.key
    ensures var r := Rebalance(Mk(t.key, t.inner, t.left, DeleteOuterNode(t.right, k)));
      Contents(r) == WithoutAttack(Contents(t), k) && Keys(r) == Keys(t) - {k}
    decreases t, 0
  {
    ValidParts(t);
    SideAttacks(t);
    var r := DeleteOuterNode(t.right, k);
    DeleteOuterContents(t.right, k);
    RebuiltPreserves(t.key, t.inner, t.left, r);
    DropAttackRight(Contents(t.left), H.Contents(t.inner), Contents(t.right), Contents(r), k);
    DropKeyRight(Keys(t.left), t.key, Keys(t.right), Keys(r), k);
  }

  // Removing an attack value from one side of a node.

  lemma {:induction false} DropAttackLeft(cl: set<Card>, ci: set<Card>, cr: set<Card>, cl2: set<Card>, k: int)
    requires cl2 == WithoutAttack(cl, k)
    requires forall d | d in ci :: d.aCur != k
    requires forall d | d in cr :: d.aCur != k
    ensures cl2 + ci + cr == WithoutAttack(cl + ci + cr, k)
  {
    WithoutAttackUnion(cl, ci, cr, k);
    WithoutAttackNone(ci, k);
    WithoutAttackNone(cr, k);
  }

  lemma {:induction false} DropAttackRight(cl: set<Card>, ci: set<Card>, cr: set<Card>, cr2: set<Card>, k: int)
    requires cr2 == WithoutAttack(cr, k)
    requires forall d | d in cl :: d.aCur != k
    requires forall d | d in ci :: d.aCur != k
    ensures cl + ci + cr2 == WithoutAttack(cl + ci + cr, k)
  {
    WithoutAttackUnion(cl, ci, cr, k);
    WithoutAttackNone(cl, k);
    WithoutAttackNone(ci, k);
  }

  lemma {:induction false} DropKeyLeft(kl: set<int>, key: int, kr: set<int>, kl2: set<int>, k: int)
    requires kl2 == kl - {k} && k < key && AllAbove(key, kr)
    ensures kl2 + {key} + kr == (kl + {key} + kr) - {k}
  {
  }

  lemma {:induction false} DropKeyRight(kl: set<int>, key: int, kr: set<int>, kr2: set<int>, k: int)
    requires kr2 == kr - {k} && key < k && AllBelow(kl, key)
    ensures kl + {key} + kr2 == (kl + {key} + kr) - {k}
  {
  }

  lemma {:induction false} DeleteOuterContentsHere(t: ANode)
    requires Valid(t) && t.Node?
    ensures var r := DeleteOuterNode(t, t.key);
      Contents(r) == WithoutAttack(Contents(t), t.key) && Keys(r) == Keys(t) - {t.key}
    decreases t, 1
  {
    ValidParts(t);
    SideAttacks(t);
    DeleteRootContents(t);
    DropAttackHere(Contents(t.left), H.Contents(t.inner), Contents(t.right), t.key);
    DropKeyHere(Keys(t.left), t.key, Keys(t.right));
  }

  /** `deleteOuterNode` at the node holding `attackKey`, whatever its own
      inner tree: exactly its children's cards and keys remain. In the
      two-child case the successor node's key and inner tree move up. */
  lemma {:induction false} DeleteRootContents(n: ANode)
    requires n.Node? && Valid(n.left) && Valid(n.right)
    requires AllBelow(Keys(n.left), n.key) && AllAbove(n.key, Keys(n.right))
    ensures var r := DeleteOuterNode(n, n.key); Contents(r) == Contents(n.left) + Contents(n.right)
    ensures var r := DeleteOuterNode(n, n.key); Keys(r) == Keys(n.left) + Keys(n.right)
    decreases n, 0
  {
    if n.left.Node? && n.right.Node? {
      var s := LeftmostNode(n.right);
      var rest := DeleteOuterNode(n.right, s.key);
      LeftmostNodeIsMin(n.right);
      DeleteOuterContents(n.right, s.key);
      assert DeleteOuterNode(n, n.key) == Rebalance(Mk(s.key, s.inner, n.left, rest));
      RebuiltPreserves(s.key, s.inner, n.left, rest);
      PutBack(Contents(n.left), H.Contents(s.inner), Contents(rest), Contents(n.right));
      KeyBack(Keys(n.left), s.key, Keys(n.right));
    }
  }

  lemma {:induction false} KeyBack(a: set<int>, k: int, b: set<int>)
    requires k in b
    ensures a + {k} + (b - {k}) == a + b
  {
  }

  /** A part taken out of b and put back beside the rest gives b again. */
  lemma {:induction false} PutBack<T>(a: set<T>, part: set<T>, rest: set<T>, b: set<T>)
    requires b == rest + part
    ensures a + part + rest == a + b
  {
  }

  /** `deleteOuterNode` keeps the tree valid and lowers its height by at
      most one. */
  lemma {:induction false} DeleteOuterBalanced(t: ANode, k: int)
    requires Valid(t)
    ensures var r := DeleteOuterNode(t, k); Valid(r) && Height(t) - 1 <= Height(r) <= Height(t)
    decreases t, 2
  {
    if t.Node? {
      ValidParts(t);
      if k < t.key {
        DeleteOuterBalancedLeft(t, k);
      } else if k > t.key {
        DeleteOuterBalancedRight(t, k);
      } else {
        DeleteRootBalanced(t);
      }
    }
  }

  lemma {:induction false} DeleteOuterBalancedLeft(t: ANode, k: int)
    requires Valid(t) && t.Node? && k < t.key
    ensures var r := Rebalance(Mk(t.key, t.inner, DeleteOuterNode(t.left, k), t.right));
      Valid(r) && Height(t) - 1 <= Height(r) <= Height(t)
    decreases t, 0
  {
    ValidParts(t);
    var l := DeleteOuterNode(t.left, k);
    DeleteOuterBalanced(t.left, k);
    DeleteOuterContents(t.left, k);
    assert AllBelow(Keys(l), t.key);
    RebalanceCorrect(t.key, t.inner, l, t.right);
  }

  lemma {:induction false} DeleteOuterBalancedRight(t: ANode, k: int)
    requires Valid(t) && t.Node? && k > t.key
    ensures var r := Rebalance(Mk(t.key, t.inner, t.left, DeleteOuterNode(t.right, k)));
      Valid(r) && Height(t) - 1 <= Height(r) <= Height(t)
    decreases t, 0
  {
    ValidParts(t);
    var r := DeleteOuterNode(t.right, k);
    DeleteOuterBalanced(t.right, k);
    DeleteOuterContents(t.right, k);
    assert AllAbove(t.key, Keys(r));
    RebalanceCorrect(t.key, t.inner, t.left, r);
  }

  lemma {:induction false} DeleteRootBalanced(n: ANode)
    requires n.Node? && Valid(n.left) && Valid(n.right)
    requires AllBelow(Keys(n.left), n.key) && AllAbove(n.key, Keys(n.right))
    requires -1 <= Height(n.left) - Height(n.right) <= 1
    ensures var r := DeleteOuterNode(n, n.key);
      Valid(r) && Max(Height(n.left), Height(n.right)) <= Height(r) <= 1 + Max(Height(n.left), Height(n.right))
    decreases n, 1
  {
    if n.left.Node? && n.right.Node? {
      DeleteSuccessorBalanced(n);
    }
  }

  lemma {:induction false} DeleteSuccessorBalanced(n: ANode)
    requires n.Node? && Valid(n.left) && Valid(n.right) && n.left.Node? && n.right.Node?
    requires AllBelow(Keys(n.left), n.key) && AllAbove(n.key, Keys(n.right))
    requires -1 <= Height(n.left) - Height(n.right) <= 1
    ensures var s := LeftmostNode(n.right); var r := Rebalance(Mk(s.key, s.inner, n.left, DeleteOuterNode(n.right, s.key)));
      Valid(r) && Max(Height(n.left), Height(n.right)) <= Height(r) <= 1 + Max(Height(n.left), Height(n.right))
    decreases n, 0
  {
    var s := LeftmostNode(n.right);
    LeftmostNodeIsMin(n.right);
    var r := DeleteOuterNode(n.right, s.key);
    DeleteOuterBalanced(n.right, s.key);
    DeleteOuterContents(n.right, s.key);
    assert AllBelow(Keys(n.left), s.key);
    AboveMinimum(Keys(n.right), s.key);
    RebalanceCorrect(s.key, s.inner, n.left, r);
  }

  /** `deleteOuterNode` in full. */
  lemma {:induction false} DeleteOuterCorrect(t: ANode, k: int)
    requires Valid(t)
    ensures var r := DeleteOuterNode(t, k); Valid(r)
    ensures var r := DeleteOuterNode(t, k); Contents(r) == WithoutAttack(Contents(t), k)
    ensures var r := DeleteOuterNode(t, k); Keys(r) == Keys(t) - {k}
    ensures var r := DeleteOuterNode(t, k); Height(t) - 1 <= Height(r) <= Height(t)
  {
    DeleteOuterContents(t, k);
    DeleteOuterBalanced(t, k);
  }

  // ---------------------------------------------------------------------
  // Delete

  /** Attack and health values as the game produces them; under this a
      node built by `new AttackNode(card)` has the aggregates `update`
      would give it. */
  ghost predicate InRange(t: ANode)
  {
    forall d | d in Contents(t) :: 0 <= d.aCur && 0 <= d.hCur <= IntMax
  }

  lemma {:induction false} SelfUpdated(t: ANode)
    requires Valid(t) && t.Node? && InRange(t)
    ensures t == Mk(t.key, t.inner, t.left, t.right)
    ensures InRange(t.left) && InRange(t.right) && H.HealthsInRange(t.inner)
  {
    assert t.inner.data in H.Contents(t.inner);
  }

  /** `delete` removes exactly the card with the given attack, health and
      entry time. */
  lemma {:induction false} DeleteContents(t: ANode, c: Card)
    requires Valid(t)
    ensures var r := Delete(t, c); Contents(r) == WithoutCard(Contents(t), c)
    ensures var r := Delete(t, c); Keys(r) <= Keys(t)
  {
    if t.Node? {
      ValidParts(t);
      SideAttacks(t);
      WithoutCardUnion(Contents(t.left), H.Contents(t.inner), Contents(t.right), c);
      if c.aCur < t.key {
        DeleteContents(t.left, c);
        RebalancePreserves(Mk(t.key, t.inner, Delete(t.left, c), t.right));
        WithoutCardNone(H.Contents(t.inner), c);
        WithoutCardNone(Contents(t.right), c);
      } else if c.aCur > t.key {
        DeleteContents(t.right, c);
        RebalancePreserves(Mk(t.key, t.inner, t.left, Delete(t.right, c)));
        WithoutCardNone(H.Contents(t.inner), c);
        WithoutCardNone(Contents(t.left), c);
      } else {
        WithoutCardNone(Contents(t.left), c);
        WithoutCardNone(Contents(t.right), c);
        WithoutCardInner(H.Contents(t.inner), c);
        DeleteHereContents(t, c);
      }
    }
  }

  lemma {:induction false} DeleteHereContents(t: ANode, c: Card)
    requires Valid(t) && t.Node? && c.aCur == t.key
    ensures var r := Delete(t, c);
      Contents(r) == Contents(t.left) + H.WithoutKey(H.Contents(t.inner), c) + Contents(t.right) && Keys(r) <= Keys(t)
  {
    var inner := H.Delete(t.inner, c);
    H.DeleteContents(t.inner, c);
    if inner.Nil? {
      DeleteHereEmptied(t, c);
    } else {
      ValidParts(t);
      assert Delete(t, c) == Rebalance(Mk(t.key, inner, t.left, t.right));
      RebalancePreserves(Mk(t.key, inner, t.left, t.right));
    }
  }

  /** The case of `DeleteHereContents` where the inner tree empties and the
      outer node goes. */
  lemma {:induction false} DeleteHereEmptied(t: ANode, c: Card)
    requires Valid(t) && t.Node? && c.aCur == t.key && H.Delete(t.inner, c).Nil?
    ensures var r := Delete(t, c);
      Contents(r) == Contents(t.left) + Contents(t.right) && Keys(r) <= Keys(t)
  {
    ValidParts(t);
    var n := t.(inner := H.Nil);
    assert Delete(t, c) == DeleteOuterNode(n, t.key);
    DeleteRootContents(n);
  }

  /** `delete` keeps the tree valid and lowers its height by at most one. */
  lemma {:induction false} DeleteBalanced(t: ANode, c: Card)
    requires Valid(t)
    ensures var r := Delete(t, c); Valid(r) && Height(t) - 1 <= Height(r) <= Height(t)
    decreases t, 1
  {
    if t.Node? {
      if c.aCur < t.key {
        DeleteBalancedLeft(t, c);
      } else if c.aCur > t.key {
        DeleteBalancedRight(t, c);
      } else {
        DeleteBalancedHere(t, c);
      }
    }
  }

  lemma {:induction false} DeleteBalancedLeft(t: ANode, c: Card)
    requires Valid(t) && t.Node? && c.aCur < t.key
    ensures var r := Rebalance(Mk(t.key, t.inner, Delete(t.left, c), t.right));
      Valid(r) && Height(t) - 1 <= Height(r) <= Height(t)
    decreases t, 0
  {
    ValidParts(t);
    var l := Delete(t.left, c);
    DeleteBalanced(t.left, c);
    DeleteContents(t.left, c);
    assert AllBelow(Keys(l), t.key);
    RebalanceCorrect(t.key, t.inner, l, t.right);
  }

  lemma {:induction false} DeleteBalancedRight(t: ANode, c: Card)
    requires Valid(t) && t.Node? && c.aCur > t.key
    ensures var r := Rebalance(Mk(t.key, t.inner, t.left, Delete(t.right, c)));
      Valid(r) && Height(t) - 1 <= Height(r) <= Height(t)
    decreases t, 0
  {
    ValidParts(t);
    var r := Delete(t.right, c);
    DeleteBalanced(t.right, c);
    DeleteContents(t.right, c);
    assert AllAbove(t.key, Keys(r));
    RebalanceCorrect(t.key, t.inner, t.left, r);
  }

  lemma {:induction false} DeleteBalancedHere(t: ANode, c: Card)
    requires Valid(t) && t.Node? && c.aCur == t.key
    ensures var r := Delete(t, c); Valid(r) && Height(t) - 1 <= Height(r) <= Height(t)
  {
    ValidParts(t);
    var inner := H.Delete(t.inner, c);
    H.DeleteContents(t.inner, c);
    H.DeleteBalanced(t.inner, c);
    if inner.Nil? {
      assert Delete(t, c) == DeleteOuterNode(t.(inner := inner), t.key);
      DeleteRootBalanced(t.(inner := inner));
    } else {
      assert GoodInner(t.key, inner);
      assert Delete(t, c) == Rebalance(Mk(t.key, inner, t.left, t.right));
      RebalanceCorrect(t.key, inner, t.left, t.right);
    }
  }

  /** Deleting a card that is not there leaves the tree as it was. */
  lemma {:induction false} DeleteAbsent(t: ANode, c: Card)
    requires Valid(t) && InRange(t) && !HasCard(t, c)
    ensures Delete(t, c) == t
  {
    if t.Node? {
      ValidParts(t);
      SelfUpdated(t);
      if c.aCur < t.key {
        HasCardLeft(t, c);
        DeleteAbsent(t.left, c);
      } else if c.aCur > t.key {
        HasCardRight(t, c);
        DeleteAbsent(t.right, c);
      } else {
        HasCardHere(t, c);
        H.DeleteCorrect(t.inner, c);
      }
    }
  }

  /** `delete` in full: the tree stays a valid two-level index, loses
      exactly the card with the given identity (and the attack value once
      its inner tree is empty), and a tree without that card is unchanged. */
  lemma {:induction false} DeleteCorrect(t: ANode, c: Card)
    requires Valid(t)
    ensures var r := Delete(t, c); Valid(r)
    ensures var r := Delete(t, c); Contents(r) == WithoutCard(Contents(t), c)
    ensures var r := Delete(t, c); Keys(r) <= Keys(t)
    ensures var r := Delete(t, c); (!HasCard(t, c) && InRange(t) ==> r == t)
    ensures var r := Delete(t, c); Height(t) - 1 <= Height(r) <= Height(t)
  {
    DeleteContents(t, c);
    DeleteBalanced(t, c);
    if !HasCard(t, c) && InRange(t) {
      DeleteAbsent(t, c);
    }
  }

  // ---------------------------------------------------------------------
  // The searches against their brute-force specifications

  /** The cards each search looks for: one that survives the stranger's
      attack and kills it (P1), survives only (P2), kills only (P3), or
      beats the steal limits. */
  predicate FitsP1(c: Card, strAtt: int, strHp: int) { c.aCur >= strHp && c.hCur > strAtt }
  predicate FitsP2(c: Card, strAtt: int, strHp: int) { c.aCur < strHp && c.hCur > strAtt }
  predicate FitsP3(c: Card, strAtt: int, strHp: int) { c.aCur >= strHp && c.hCur <= strAtt }
  predicate FitsSteal(c: Card, attLimit: int, hpLimit: int) { c.aCur > attLimit && c.hCur > hpLimit }

  /** `r` is null exactly when no card of `s` fits, and otherwise the fitting
      card of `s` that comes first by smallest attack (P1, P3, steal) or by
      largest attack (P2), ties broken by `(H_cur, entryTime)`. */
  ghost predicate FirstP1(s: set<Card>, strAtt: int, strHp: int, r: Option<Card>)
  {
    (r.None? <==> forall c | c in s :: !FitsP1(c, strAtt, strHp)) &&
    (r.Some? ==> r.value in s && FitsP1(r.value, strAtt, strHp) &&
                 forall d | d in s && FitsP1(d, strAtt, strHp) :: d == r.value || MinAttackFirst(r.value, d))
  }

  ghost predicate FirstP2(s: set<Card>, strAtt: int, strHp: int, r: Option<Card>)
  {
    (r.None? <==> forall c | c in s :: !FitsP2(c, strAtt, strHp)) &&
    (r.Some? ==> r.value in s && FitsP2(r.value, strAtt, strHp) &&
                 forall d | d in s && FitsP2(d, strAtt, strHp) :: d == r.value || MaxAttackFirst(r.value, d))
  }

  ghost predicate FirstP3(s: set<Card>, strAtt: int, strHp: int, r: Option<Card>)
  {
    (r.None? <==> forall c | c in s :: !FitsP3(c, strAtt, strHp)) &&
    (r.Some? ==> r.value in s && FitsP3(r.value, strAtt, strHp) &&
                 forall d | d in s && FitsP3(d, strAtt, strHp) :: d == r.value || MinAttackFirst(r.value, d))
  }

  ghost predicate FirstSteal(s: set<Card>, attLimit: int, hpLimit: int, r: Option<Card>)
  {
    (r.None? <==> forall c | c in s :: !FitsSteal(c, attLimit, hpLimit)) &&
    (r.Some? ==> r.value in s && FitsSteal(r.value, attLimit, hpLimit) &&
                 forall d | d in s && FitsSteal(d, attLimit, hpLimit) :: d == r.value || MinAttackFirst(r.value, d))
  }

  /** What the inner-tree searches return: the first card by
      `(H_cur, entryTime)` with health above the limit, resp. the first card
      when its health is at most the limit. */
  ghost predicate FirstAbove(s: set<Card>, lim: int, v: Option<Card>)
  {
    (v.None? <==> forall c | c in s :: c.hCur <= lim) &&
    (v.Some? ==> v.value in s && v.value.hCur > lim &&
                 forall d | d in s && d.hCur > lim :: d == v.value || H.Before(v.value, d))
  }

  ghost predicate FirstAtMost(s: set<Card>, lim: int, v: Option<Card>)
  {
    (v.None? <==> forall c | c in s :: c.hCur > lim) &&
    (v.Some? ==> v.value in s && v.value.hCur <= lim &&
                 forall d | d in s :: d == v.value || H.Before(v.value, d))
  }

  /** Every card of a valid tree lies within the root's aggregates. */
  lemma {:induction false} CardBounds(t: ANode)
    requires Valid(t)
    ensures forall c | c in Contents(t) :: c.aCur <= MaxA(t) && MinH(t) <= c.hCur <= MaxH(t)
  {
    AttackAggregateSound(t);
    CardsHaveKeys(t);
    HealthBounds(t);
  }

  /** The inner-tree step of P1, P2 and the steal search. */
  lemma {:induction false} InnerAbove(inner: H.HNode, lim: int)
    requires H.Valid(inner)
    ensures FirstAbove(H.Contents(inner), lim, if H.MaxH(inner) > lim then H.FindMinHealth(inner, lim) else None)
  {
    H.FindMinHealthCorrect(inner, lim);
    H.HealthBounds(inner);
  }

  /** The inner-tree step of P3. */
  lemma {:induction false} InnerAtMost(inner: H.HNode, lim: int)
    requires H.Valid(inner)
    ensures FirstAtMost(H.Contents(inner), lim, if H.MinH(inner) <= lim then H.FindMinHealthMax(inner, lim) else None)
  {
    H.FindMinHealthMaxCorrect(inner, lim);
    H.HealthBounds(inner);
    if inner.Node? {
      H.LeftmostIsMin(inner);
    }
  }

  /** The three-way step shared by the searches that go left first: the
      left subtree's answer, else the node's own, else the right subtree's. */
  lemma {:induction false} ComposeP1(l: set<Card>, i: set<Card>, r: set<Card>, k: int, strAtt: int, strHp: int,
                                     fl: Option<Card>, fi: Option<Card>, fr: Option<Card>)
    requires (forall c | c in l :: c.aCur < k) && (forall c | c in i :: c.aCur == k) && (forall c | c in r :: c.aCur > k)
    requires k >= strHp
    requires FirstP1(l, strAtt, strHp, fl) && FirstAbove(i, strAtt, fi) && FirstP1(r, strAtt, strHp, fr)
    ensures FirstP1(l + i + r, strAtt, strHp, if fl.Some? then fl else if fi.Some? then fi else fr)
  {
    if fl.None? && fi.Some? {
      var v := fi.value;
      forall d | d in l + i + r && FitsP1(d, strAtt, strHp) ensures d == v || MinAttackFirst(v, d) {
        if d in i {
        } else {
          assert d in r;
        }
      }
    }
  }

  lemma {:induction false} ComposeP3(l: set<Card>, i: set<Card>, r: set<Card>, k: int, strAtt: int, strHp: int,
                                     fl: Option<Card>, fi: Option<Card>, fr: Option<Card>)
    requires (forall c | c in l :: c.aCur < k) && (forall c | c in i :: c.aCur == k) && (forall c | c in r :: c.aCur > k)
    requires k >= strHp
    requires FirstP3(l, strAtt, strHp, fl) && FirstAtMost(i, strAtt, fi) && FirstP3(r, strAtt, strHp, fr)
    ensures FirstP3(l + i + r, strAtt, strHp, if fl.Some? then fl else if fi.Some? then fi else fr)
  {
    if fl.None? && fi.Some? {
      var v := fi.value;
      forall d | d in l + i + r && FitsP3(d, strAtt, strHp) ensures d == v || MinAttackFirst(v, d) {
        if d in i {
        } else {
          assert d in r;
        }
      }
    }
  }

  lemma {:induction false} ComposeSteal(l: set<Card>, i: set<Card>, r: set<Card>, k: int, attLimit: int, hpLimit: int,
                                        fl: Option<Card>, fi: Option<Card>, fr: Option<Card>)
    requires (forall c | c in l :: c.aCur < k) && (forall c | c in i :: c.aCur == k) && (forall c | c in r :: c.aCur > k)
    requires k > attLimit
    requires FirstSteal(l, attLimit, hpLimit, fl) && FirstAbove(i, hpLimit, fi) && FirstSteal(r, attLimit, hpLimit, fr)
    ensures FirstSteal(l + i + r, attLimit, hpLimit, if fl.Some? then fl else if fi.Some? then fi else fr)
  {
    if fl.None? && fi.Some? {
      var v := fi.value;
      forall d | d in l + i + r && FitsSteal(d, attLimit, hpLimit) ensures d == v || MinAttackFirst(v, d) {
        if d in i {
        } else {
          assert d in r;
        }
      }
    }
  }

  /** The mirrored step of P2, which goes right first. */
  lemma {:induction false} ComposeP2(l: set<Card>, i: set<Card>, r: set<Card>, k: int, strAtt: int, strHp: int,
                                     fl: Option<Card>, fi: Option<Card>, fr: Option<Card>)
    requires (forall c | c in l :: c.aCur < k) && (forall c | c in i :: c.aCur == k) && (forall c | c in r :: c.aCur > k)
    requires k < strHp
    requires FirstP2(l, strAtt, strHp, fl) && FirstAbove(i, strAtt, fi) && FirstP2(r, strAtt, strHp, fr)
    ensures FirstP2(l + i + r, strAtt, strHp, if fr.Some? then fr else if fi.Some? then fi else fl)
  {
    if fr.None? && fi.Some? {
      var v := fi.value;
      forall d | d in l + i + r && FitsP2(d, strAtt, strHp) ensures d == v || MaxAttackFirst(v, d) {
        if d in i {
        } else {
          assert d in l;
        }
      }
    }
  }

  /** `findBestP1`: null exactly when no card survives and kills; otherwise
      the first such card by smallest attack, then `(H_cur, entryTime)`. */
  lemma {:induction false} FindBestP1Correct(t: ANode, strAtt: int, strHp: int)
    requires Valid(t)
    ensures FirstP1(Contents(t), strAtt, strHp, FindBestP1(t, strAtt, strHp))
  {
    if t.Node? {
      if t.aMax < strHp || t.hMax <= strAtt {
        CardBounds(t);
      } else if t.key < strHp {
        SideAttacks(t);
        FindBestP1Correct(t.right, strAtt, strHp);
      } else {
        ValidParts(t);
        SideAttacks(t);
        FindBestP1Correct(t.left, strAtt, strHp);
        InnerAbove(t.inner, strAtt);
        FindBestP1Correct(t.right, strAtt, strHp);
        ComposeP1(Contents(t.left), H.Contents(t.inner), Contents(t.right), t.key, strAtt, strHp,
                  FindBestP1(t.left, strAtt, strHp),
                  if H.MaxH(t.inner) > strAtt then H.FindMinHealth(t.inner, strAtt) else None,
                  FindBestP1(t.right, strAtt, strHp));
      }
    }
  }

  /** `findBestP2`: null exactly when no card survives with attack below
      the stranger's health; otherwise the first such card by largest
      attack, then `(H_cur, entryTime)`. */
  lemma {:induction false} FindBestP2Correct(t: ANode, strAtt: int, strHp: int)
    requires Valid(t)
    ensures FirstP2(Contents(t), strAtt, strHp, FindBestP2(t, strAtt, strHp))
  {
    if t.Node? {
      if t.hMax <= strAtt {
        CardBounds(t);
      } else if t.key >= strHp {
        SideAttacks(t);
        FindBestP2Correct(t.left, strAtt, strHp);
      } else {
        ValidParts(t);
        SideAttacks(t);
        FindBestP2Correct(t.left, strAtt, strHp);
        InnerAbove(t.inner, strAtt);
        FindBestP2Correct(t.right, strAtt, strHp);
        ComposeP2(Contents(t.left), H.Contents(t.inner), Contents(t.right), t.key, strAtt, strHp,
                  FindBestP2(t.left, strAtt, strHp),
                  if H.MaxH(t.inner) > strAtt then H.FindMinHealth(t.inner, strAtt) else None,
                  FindBestP2(t.right, strAtt, strHp));
      }
    }
  }

  /** `findBestP3`: null exactly when no card kills the stranger while
      dying; otherwise the first such card by smallest attack, then
      `(H_cur, entryTime)`. */
  lemma {:induction false} FindBestP3Correct(t: ANode, strAtt: int, strHp: int)
    requires Valid(t)
    ensures FirstP3(Contents(t), strAtt, strHp, FindBestP3(t, strAtt, strHp))
  {
    if t.Node? {
      if t.aMax < strHp || t.hMin > strAtt {
        CardBounds(t);
      } else if t.key < strHp {
        SideAttacks(t);
        FindBestP3Correct(t.right, strAtt, strHp);
      } else {
        ValidParts(t);
        SideAttacks(t);
        FindBestP3Correct(t.left, strAtt, strHp);
        InnerAtMost(t.inner, strAtt);
        FindBestP3Correct(t.right, strAtt, strHp);
        ComposeP3(Contents(t.left), H.Contents(t.inner), Contents(t.right), t.key, strAtt, strHp,
                  FindBestP3(t.left, strAtt, strHp),
                  if H.MinH(t.inner) <= strAtt then H.FindMinHealthMax(t.inner, strAtt) else None,
                  FindBestP3(t.right, strAtt, strHp));
      }
    }
  }

  /** `findForSteal`: null exactly when no card beats both limits;
      otherwise the first such card by smallest attack, then
      `(H_cur, entryTime)`. */
  lemma {:induction false} FindForStealCorrect(t: ANode, attLimit: int, hpLimit: int)
    requires Valid(t)
    ensures FirstSteal(Contents(t), attLimit, hpLimit, FindForSteal(t, attLimit, hpLimit))
  {
    if t.Node? {
      if t.aMax <= attLimit || t.hMax <= hpLimit {
        CardBounds(t);
      } else if t.key <= attLimit {
        SideAttacks(t);
        FindForStealCorrect(t.right, attLimit, hpLimit);
      } else {
        ValidParts(t);
        SideAttacks(t);
        FindForStealCorrect(t.left, attLimit, hpLimit);
        InnerAbove(t.inner, hpLimit);
        FindForStealCorrect(t.right, attLimit, hpLimit);
        ComposeSteal(Contents(t.left), H.Contents(t.inner), Contents(t.right), t.key, attLimit, hpLimit,
                     FindForSteal(t.left, attLimit, hpLimit),
                     if H.MaxH(t.inner) > hpLimit then H.FindMinHealth(t.inner, hpLimit) else None,
                     FindForSteal(t.right, attLimit, hpLimit));
      }
    }
  }
}
