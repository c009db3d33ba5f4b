/** The public face of project1/src/AttackTree.java: the object that owns
    the root of the two-level index and whose methods reassign it. The
    recursive helpers it calls are the functions of `AttackTrees`. */
module AttackTreeClass {
  import opened Lang
  import opened Cards
  import A = AttackTrees

  class AttackTree {
    var root: A.ANode

    ghost predicate Valid()
      reads this
    {
      A.Valid(root)
    }

    /** The cards of the deck. */
    ghost function Cards(): set<Card>
      reads this
    {
      A.Contents(root)
    }

    constructor()
      ensures Valid() && Cards() == {}
    {
      root := A.Nil;
    }

    /** `insert(card)`: adds the card unless a card with its
        `(A_cur, H_cur, entryTime)` is already there. */
    method Insert(card: Card)
      requires Valid()
      modifies this
      ensures Valid() && root == A.Insert(old(root), card)
      ensures A.HasCard(old(root), card) ==> Cards() == old(Cards())
      ensures !A.HasCard(old(root), card) ==> Cards() == old(Cards()) + {card}
    {
      A.InsertCorrect(root, card);
      root := A.Insert(root, card);
    }

    /** `delete(card)`: removes the card with its `(A_cur, H_cur, entryTime)`. */
    method Delete(card: Card)
      requires Valid()
      modifies this
      ensures Valid() && root == A.Delete(old(root), card)
      ensures Cards() == A.WithoutCard(old(Cards()), card)
    {
      A.DeleteCorrect(root, card);
      root := A.Delete(root, card);
    }

    /** `getDeckMaxAttack()`: the largest attack in the deck, 0 when empty. */
    method GetDeckMaxAttack() returns (m: int)
      requires Valid()
      ensures forall c | c in Cards() :: c.aCur <= m
      ensures Cards() == {} ==> m == 0
      ensures m == 0 || exists c :: c in Cards() && c.aCur == m
    {
      m := A.MaxA(root);
      A.AggregatesSound(root);
      A.CardsHaveKeys(root);
      NonEmpty();
    }

    /** `getDeckMaxHealth()`: the largest health in the deck, 0 when empty. */
    method GetDeckMaxHealth() returns (m: int)
      requires Valid()
      ensures forall c | c in Cards() :: c.hCur <= m
      ensures Cards() == {} ==> m == 0
      ensures m == 0 || exists c :: c in Cards() && c.hCur == m
    {
      m := A.MaxH(root);
      A.AggregatesSound(root);
      NonEmpty();
    }

    /** A non-empty tree holds at least the root's inner card. */
    lemma NonEmpty()
      requires Valid()
      ensures root.Node? ==> root.inner.data in Cards()
    {
    }

    method FindBestP1(strAtt: int, strHp: int) returns (r: Option<Card>)
      requires Valid()
      ensures A.FirstP1(Cards(), strAtt, strHp, r)
    {
      A.FindBestP1Correct(root, strAtt, strHp);
      r := A.FindBestP1(root, strAtt, strHp);
    }

    /** `findBestP2_Reverse`. */
    method FindBestP2(strAtt: int, strHp: int) returns (r: Option<Card>)
      requires Valid()
      ensures A.FirstP2(Cards(), strAtt, strHp, r)
    {
      A.FindBestP2Correct(root, strAtt, strHp);
      r := A.FindBestP2(root, strAtt, strHp);
    }

    method FindBestP3(strAtt: int, strHp: int) returns (r: Option<Card>)
      requires Valid()
      ensures A.FirstP3(Cards(), strAtt, strHp, r)
    {
      A.FindBestP3Correct(root, strAtt, strHp);
      r := A.FindBestP3(root, strAtt, strHp);
    }

    /** `findBestP4_Reverse`: null on an empty deck; otherwise the first
        card by largest attack, then `(H_cur, entryTime)`. */
    method FindBestP4() returns (r: Option<Card>)
      requires Valid()
      ensures r.None? <==> Cards() == {}
      ensures r.Some? ==> r.value in Cards()
      ensures r.Some? ==> forall d | d in Cards() :: d == r.value || A.MaxAttackFirst(r.value, d)
    {
      r := A.FindBestP4(root);
    }

    method FindForSteal(attLimit: int, hpLimit: int) returns (r: Option<Card>)
      requires Valid()
      ensures A.FirstSteal(Cards(), attLimit, hpLimit, r)
    {
      A.FindForStealCorrect(root, attLimit, hpLimit);
      r := A.FindForSteal(root, attLimit, hpLimit);
    }
  }
}
