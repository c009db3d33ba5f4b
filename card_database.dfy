/** project1/src/CardDatabase.java: the deck (one `AttackTree`), the discard
    pile (the same cards in a descending and an ascending `DiscardTree`),
    the counters, the battle search with its priority skipping, stealing,
    and the healing phase. */
module CardDatabases {
  import opened Lang
  import opened Cards
  import D = DiscardTrees
  import A = AttackTrees
  import opened AttackTreeClass

  /** `DiscardTree`: the object owning a discard tree's root. */
  class DiscardTree {
    var root: D.DNode
    const sortAscending: bool

    ghost predicate Valid()
      reads this
    {
      D.Valid(sortAscending, root)
    }

    ghost function Cards(): set<Card>
      reads this
    {
      D.Contents(root)
    }

    constructor(sortAscending: bool)
      ensures Valid() && Cards() == {} && this.sortAscending == sortAscending
    {
      root := D.Nil;
      this.sortAscending := sortAscending;
    }

    /** `insert(card)`: a card whose key is present is not added. */
    method Insert(card: Card)
      requires Valid()
      modifies this
      ensures Valid() && root == D.Insert(sortAscending, old(root), card)
      ensures D.HasKey(old(root), card) ==> Cards() == old(Cards())
      ensures !D.HasKey(old(root), card) ==> Cards() == old(Cards()) + {card}
    {
      D.InsertCorrect(sortAscending, root, card);
      root := D.Insert(sortAscending, root, card);
    }

    /** `delete(card)`: removes the card with the card's key. */
    method Delete(card: Card)
      requires Valid()
      modifies this
      ensures Valid() && root == D.Delete(sortAscending, old(root), card)
      ensures Cards() == D.WithoutKey(old(Cards()), card)
      ensures card in old(Cards()) ==> Cards() == old(Cards()) - {card}
    {
      D.DeleteCorrect(sortAscending, root, card);
      if card in Cards() {
        D.WithoutPresentKey(sortAscending, root, card);
      }
      root := D.Delete(sortAscending, root, card);
    }

    /** `findMin()`: null on an empty tree, otherwise its first card. */
    method FindMin() returns (r: Option<Card>)
      requires Valid()
      ensures r.None? <==> Cards() == {}
      ensures r.Some? ==> D.IsFirst(sortAscending, Cards(), r.value)
    {
      r := D.FindMin(root);
      if root.Node? {
        D.FindMinIsFirst(sortAscending, root);
      }
    }

    /** `findRevivable(healPool)`: a card the pool can fully revive, and on
        the descending tree the one the healing phase is meant to take. */
    method FindRevivable(healPool: int) returns (r: Option<Card>)
      requires Valid()
      ensures r.Some? ==> r.value in Cards() && HMissing(r.value) <= healPool
      ensures !sortAscending ==> D.FirstRevivable(Cards(), healPool, r)
    {
      if !sortAscending {
        D.FindRevivableCorrect(root, healPool);
      }
      r := D.FindRevivable(root, healPool);
    }

    /** `size()`. */
    method Size() returns (n: nat)
      requires Valid()
      ensures n == |Cards()|
    {
      D.SizeIsCount(sortAscending, root);
      n := D.Size(root);
    }
  }

  /** The form `insert` gives a card entering the deck. */
  function AsDeckCard(c: Card): (r: Card)
    ensures r.revivalProgress == 0 && r.discardTime == -1
    ensures r.(revivalProgress := c.revivalProgress, discardTime := c.discardTime) == c
  {
    c.(revivalProgress := 0, discardTime := -1)
  }

  /** The form `addToDiscard` gives a card entering the pile at time t. */
  function AsDiscarded(c: Card, t: int): (r: Card)
    ensures r.hCur == 0 && r.revivalProgress == 0 && r.discardTime == t
    ensures r.(hCur := c.hCur, revivalProgress := c.revivalProgress, discardTime := c.discardTime) == c
  {
    c.(hCur := 0, revivalProgress := 0, discardTime := t)
  }

  // ---------------------------------------------------------------------
  // The battle search, specified on the set of deck cards

  /** The best priority class the deck offers against a stranger: 1 (the card
      survives and kills), 2 (survives), 3 (kills), 4 (any card), 0 (empty deck). */
  ghost function Priority(deck: set<Card>, strAtt: int, strHp: int): (p: int)
    ensures 0 <= p <= 4
    ensures p == 0 <==> deck == {}
  {
    if exists c | c in deck :: A.FitsP1(c, strAtt, strHp) then 1
    else if exists c | c in deck :: A.FitsP2(c, strAtt, strHp) then 2
    else if exists c | c in deck :: A.FitsP3(c, strAtt, strHp) then 3
    else if deck != {} then 4
    else 0
  }

  /** A deck with no card of the first three classes offers class 4 unless empty. */
  lemma {:induction false} PriorityFallsToP4(deck: set<Card>, strAtt: int, strHp: int)
    requires forall c | c in deck :: !A.FitsP1(c, strAtt, strHp) && !A.FitsP2(c, strAtt, strHp) && !A.FitsP3(c, strAtt, strHp)
    ensures Priority(deck, strAtt, strHp) == if deck == {} then 0 else 4
  {
  }

  /** A deck with no card of the first two classes and a first card of the
      third offers class 3, and that card is the choice. */
  lemma {:induction false} PriorityIsP3(deck: set<Card>, strAtt: int, strHp: int, best: Option<Card>)
    requires forall c | c in deck :: !A.FitsP1(c, strAtt, strHp) && !A.FitsP2(c, strAtt, strHp)
    requires A.FirstP3(deck, strAtt, strHp, best) && best.Some?
    ensures BestCard(deck, strAtt, strHp, best, 3)
  {
    assert Priority(deck, strAtt, strHp) == 3;
  }

  /** A card discarded after every card of the pile shares no key with
      them, and the pile with it keeps the marks of discarded cards. */
  lemma {:induction false} PileGrows(pile: set<Card>, card: Card, counter: int)
    requires forall c {:trigger c in pile} | c in pile :: c.hCur == 0 && 0 <= c.discardTime < counter
    requires forall c {:trigger c in pile} | c in pile :: c.discardTime < card.discardTime
    requires card.hCur == 0 && 0 <= card.discardTime < counter
    ensures forall c {:trigger c in pile} | c in pile :: !D.SameKey(c, card)
    ensures card !in pile && |pile + {card}| == |pile| + 1
    ensures forall c {:trigger c in pile + {card}} | c in pile + {card} :: c.hCur == 0 && 0 <= c.discardTime < counter
  {
  }

  /** The card of the best class, chosen by that class's order. */
  ghost predicate BestCard(deck: set<Card>, strAtt: int, strHp: int, best: Option<Card>, priority: int)
  {
    priority == Priority(deck, strAtt, strHp) &&
    (best.None? <==> priority == 0) &&
    (priority == 1 ==> A.FirstP1(deck, strAtt, strHp, best)) &&
    (priority == 2 ==> A.FirstP2(deck, strAtt, strHp, best)) &&
    (priority == 3 ==> A.FirstP3(deck, strAtt, strHp, best)) &&
    (priority == 4 ==>
      best.Some? && best.value in deck && forall d | d in deck :: d == best.value || A.MaxAttackFirst(best.value, d))
  }

  lemma {:induction false} MinAttackFirstAsymmetric(a: Card, b: Card)
    ensures !(A.MinAttackFirst(a, b) && A.MinAttackFirst(b, a))
    ensures !(A.MaxAttackFirst(a, b) && A.MaxAttackFirst(b, a))
  {
  }

  /** The battle choice is a function of the deck: one card and one priority. */
  lemma {:induction false} BestCardUnique(deck: set<Card>, strAtt: int, strHp: int,
                                          b1: Option<Card>, p1: int, b2: Option<Card>, p2: int)
    requires BestCard(deck, strAtt, strHp, b1, p1) && BestCard(deck, strAtt, strHp, b2, p2)
    ensures b1 == b2 && p1 == p2
  {
    if b1.Some? && b2.Some? && b1.value != b2.value {
      MinAttackFirstAsymmetric(b1.value, b2.value);
    }
  }

  // ---------------------------------------------------------------------
  // The healing phase, specified on the set of discarded cards

  /** What the full-revive loop of `healCards` does with a pile and a pool:
      the cards it revives in order, the pool it leaves and the pile it leaves. */
  datatype HealPlan = HealPlan(revived: seq<Card>, left: int, rest: set<Card>)

  /** No card of the pile can be fully paid from the pool. */
  ghost predicate NoneAffordable(pile: set<Card>, healPool: int)
  {
    forall c {:trigger c in pile} | c in pile :: HMissing(c) > healPool
  }

  /** p is the run of the full-revive loop on the pile with the pool: while
      the pool is positive and some card is affordable, it revives the card
      `findRevivable` picks (largest missing health, then earliest discard)
      and pays its missing health. */
  ghost predicate IsPlan(pile: set<Card>, healPool: int, p: HealPlan)
    decreases |p.revived|
  {
    if healPool <= 0 || NoneAffordable(pile, healPool) then p == HealPlan([], healPool, pile)
    else
      p.revived != [] && D.IsRevivable(pile, healPool, p.revived[0]) &&
      IsPlan(pile - {p.revived[0]}, healPool - HMissing(p.revived[0]), HealPlan(p.revived[1..], p.left, p.rest))
  }

  /** The loop stops at once. */
  lemma {:induction false} PlanDone(pile: set<Card>, healPool: int)
    requires healPool <= 0 || NoneAffordable(pile, healPool)
    ensures IsPlan(pile, healPool, HealPlan([], healPool, pile))
  {
  }

  /** The loop revives c and then runs on what is left. */
  lemma {:induction false} PlanCons(pile: set<Card>, healPool: int, c: Card, p: HealPlan)
    requires healPool > 0 && D.IsRevivable(pile, healPool, c)
    requires IsPlan(pile - {c}, healPool - HMissing(c), p)
    ensures IsPlan(pile, healPool, HealPlan([c] + p.revived, p.left, p.rest))
  {
    var q := HealPlan([c] + p.revived, p.left, p.rest);
    assert !NoneAffordable(pile, healPool) by {
      assert c in pile && HMissing(c) <= healPool;
    }
    assert q.revived[0] == c && q.revived[1..] == p.revived;
  }

  /** The healing phase is determined by the pile and the pool. */
  lemma {:induction false} PlanUnique(pile: set<Card>, healPool: int, p: HealPlan, q: HealPlan)
    requires IsPlan(pile, healPool, p) && IsPlan(pile, healPool, q)
    ensures p == q
    decreases |p.revived|
  {
    if healPool > 0 && !NoneAffordable(pile, healPool) {
      D.RevivableUnique(pile, healPool, p.revived[0], q.revived[0]);
      var c := p.revived[0];
      PlanUnique(pile - {c}, healPool - HMissing(c), HealPlan(p.revived[1..], p.left, p.rest),
                 HealPlan(q.revived[1..], q.left, q.rest));
      assert p.revived == [c] + p.revived[1..];
      assert q.revived == [c] + q.revived[1..];
    }
  }

  /** On a pile with distinct keys (every discard pile) the loop always has a run. */
  lemma {:induction false} PlanExists(pile: set<Card>, healPool: int)
    requires D.KeysDistinct(pile)
    ensures exists p :: IsPlan(pile, healPool, p)
    decreases |pile|
  {
    if healPool <= 0 || NoneAffordable(pile, healPool) {
      PlanDone(pile, healPool);
    } else {
      D.RevivableExists(pile, healPool);
      var c :| D.IsRevivable(pile, healPool, c);
      assert D.KeysDistinct(pile - {c});
      PlanExists(pile - {c}, healPool - HMissing(c));
      var p :| IsPlan(pile - {c}, healPool - HMissing(c), p);
      PlanCons(pile, healPool, c, p);
    }
  }

  function SumMissing(cs: seq<Card>): int
  {
    if cs == [] then 0 else HMissing(cs[0]) + SumMissing(cs[1..])
  }

  /** The plan splits the pile into the cards it revives, each once, and
      the cards it leaves; it pays exactly the revived cards' missing health,
      never runs a positive pool negative, and stops only when the pool is
      spent or nothing left in the pile is affordable. */
  lemma {:induction false} PlanSound(pile: set<Card>, healPool: int, p: HealPlan)
    requires IsPlan(pile, healPool, p)
    ensures multiset(p.revived) + multiset(p.rest) == multiset(pile)
    ensures p.left == healPool - SumMissing(p.revived)
    ensures healPool > 0 ==> p.left >= 0
    ensures p.left <= 0 || NoneAffordable(p.rest, p.left)
    decreases |p.revived|
  {
    if healPool > 0 && !NoneAffordable(pile, healPool) {
      var c := p.revived[0];
      var next := HealPlan(p.revived[1..], p.left, p.rest);
      PlanSound(pile - {c}, healPool - HMissing(c), next);
      assert p.revived == [c] + next.revived;
      SplitCons(c, next.revived, next.rest, pile);
      if healPool - HMissing(c) <= 0 {
        assert next.left == healPool - HMissing(c);
      }
    }
  }

  /** Reviving c first and then the rest of the plan splits the pile. */
  lemma {:induction false} SplitCons(c: Card, revived: seq<Card>, rest: set<Card>, pile: set<Card>)
    requires c in pile
    requires multiset(revived) + multiset(rest) == multiset(pile - {c})
    ensures multiset([c] + revived) + multiset(rest) == multiset(pile)
  {
    assert pile == (pile - {c}) + {c};
    assert multiset(pile) == multiset(pile - {c}) + multiset{c};
    assert multiset([c] + revived) == multiset{c} + multiset(revived);
  }

  /** The part of a run after its first k revives. */
  function Suffix(p: HealPlan, k: nat): HealPlan
    requires k <= |p.revived|
  {
    HealPlan(p.revived[k..], p.left, p.rest)
  }

  /** Before the first revive the whole run is left. */
  lemma {:induction false} PlanStart(pile: set<Card>, pool: int, plan: HealPlan)
    requires IsPlan(pile, pool, plan)
    ensures IsPlan(pile, pool, Suffix(plan, 0))
  {
    assert Suffix(plan, 0) == plan;
  }

  /** After k revives of the run, the card `findRevivable` returns is the
      run's next card, and the rest of the run continues from there with the
      pool left, pool'. */
  lemma {:induction false} PlanStep(pile: set<Card>, pool: int, c: Card, plan: HealPlan, k: nat, pool': int)
    requires k <= |plan.revived| && IsPlan(pile, pool, Suffix(plan, k))
    requires pool > 0 && D.IsRevivable(pile, pool, c)
    requires pool' == pool - HMissing(c)
    ensures k < |plan.revived| && plan.revived[k] == c
    ensures IsPlan(pile - {c}, pool', Suffix(plan, k + 1))
  {
    var rem := Suffix(plan, k);
    assert !NoneAffordable(pile, pool) by {
      assert c in pile && HMissing(c) <= pool;
    }
    D.RevivableUnique(pile, pool, c, rem.revived[0]);
    assert rem.revived[1..] == plan.revived[k + 1..];
  }

  /** Once the loop stops after k revives, the run has no card left. */
  lemma {:induction false} PlanStop(pile: set<Card>, pool: int, plan: HealPlan, k: nat)
    requires k <= |plan.revived| && IsPlan(pile, pool, Suffix(plan, k))
    requires pool <= 0 || NoneAffordable(pile, pool)
    ensures k == |plan.revived| && plan.revived[..k] == plan.revived
    ensures plan.left == pool && plan.rest == pile
  {
    assert Suffix(plan, k).revived == [];
  }

  /** A card revived in the loop as it re-enters the deck with entry time t. */
  function Revived(c: Card, t: int): (r: Card)
    ensures r == AsDeckCard(ApplyFullRevive(c)).(entryTime := t)
    ensures r.hCur == r.hBase == c.hBase && r.aBase == Floor90(c.aBase) && r.entryTime == t
  {
    ApplyFullRevive(c).(entryTime := t)
  }

  /** The cards the loop puts into the deck when it revives cs in order,
      the first one with entry time `base`. */
  ghost function RevivedCards(cs: seq<Card>, base: int): set<Card>
    decreases |cs|
  {
    if cs == [] then {}
    else RevivedCards(cs[..|cs| - 1], base) + {Revived(cs[|cs| - 1], base + |cs| - 1)}
  }

  lemma {:induction false} RevivedCardsAppend(cs: seq<Card>, c: Card, base: int)
    ensures RevivedCards(cs + [c], base) == RevivedCards(cs, base) + {Revived(c, base + |cs|)}
  {
    assert (cs + [c])[..|cs|] == cs;
  }

  /** The revived cards get the entry times `base .. base + n - 1` in order,
      so there are as many of them as cards revived. */
  lemma {:induction false} RevivedCardsShape(cs: seq<Card>, base: int)
    ensures forall c | c in RevivedCards(cs, base) :: base <= c.entryTime < base + |cs|
    ensures |RevivedCards(cs, base)| == |cs|
    decreases |cs|
  {
    if cs != [] {
      var n := |cs| - 1;
      RevivedCardsShape(cs[..n], base);
      assert Revived(cs[n], base + n) !in RevivedCards(cs[..n], base);
    }
  }

  /** The cards revived after k + 1 rounds of the loop. */
  lemma {:induction false} RevivedCardsNext(revived: seq<Card>, k: nat, base: int)
    requires k < |revived|
    ensures RevivedCards(revived[..k + 1], base) == RevivedCards(revived[..k], base) + {Revived(revived[k], base + k)}
  {
    assert revived[..k + 1] == revived[..k] + [revived[k]];
    RevivedCardsAppend(revived[..k], revived[k], base);
  }

  /** Every card of the deck entered before time t. */
  ghost predicate EntriesBefore(deck: set<Card>, t: int)
  {
    forall d | d in deck :: d.entryTime < t
  }

  /** The deck after one more revive, when every earlier entry time is smaller. */
  lemma {:induction false} DeckStep(deck0: set<Card>, revived: seq<Card>, k: nat, base: int, deck1: set<Card>, deck2: set<Card>)
    requires k < |revived|
    requires EntriesBefore(deck0, base)
    requires deck1 == deck0 + RevivedCards(revived[..k], base)
    requires EntriesBefore(deck1, base + k) ==> deck2 == deck1 + {Revived(revived[k], base + k)}
    ensures EntriesBefore(deck1, base + k)
    ensures deck2 == deck0 + RevivedCards(revived[..k + 1], base)
  {
    var done := revived[..k];
    RevivedCardsShape(done, base);
    forall d | d in deck1 ensures d.entryTime < base + k {
      if d !in deck0 {
        assert d in RevivedCards(done, base);
      }
    }
    var r := Revived(revived[k], base + k);
    RevivedCardsNext(revived, k, base);
    assert deck2 == deck1 + {r};
  }

  /** `DeckStep` in the form one pass of the loop supplies it. */
  lemma {:induction false} DeckGrows(deck0: set<Card>, revived: seq<Card>, k: nat, base: int, c: Card, t: int,
                                     deck1: set<Card>, deck2: set<Card>)
    requires k < |revived| && revived[k] == c && t == base + k
    requires EntriesBefore(deck1, t) ==> deck2 == deck1 + {Revived(c, t)}
    ensures EntriesBefore(deck0, base) && deck1 == deck0 + RevivedCards(revived[..k], base) ==>
      deck2 == deck0 + RevivedCards(revived[..k + 1], base)
  {
    if EntriesBefore(deck0, base) && deck1 == deck0 + RevivedCards(revived[..k], base) {
      DeckStep(deck0, revived, k, base, deck1, deck2);
    }
  }

  /** The partial revive that ends `healCards`: the pile's first card in
      ascending order takes what is left of the pool and the discard time
      `time`. */
  ghost predicate PartialRevived(rest: set<Card>, left: int, time: int, pile: set<Card>)
  {
    exists m :: D.IsFirst(true, rest, m) &&
      pile == rest - {m} + {ApplyPartialRevive(m, left).(discardTime := time)}
  }

  /** How many partial revives end the healing phase that ran the plan: one
      when pool and pile are both left over, else none. */
  function PartialRevives(plan: HealPlan): (n: int)
    ensures n == 0 || n == 1
    ensures n == 1 <==> plan.left > 0 && plan.rest != {}
  {
    if plan.left > 0 && plan.rest != {} then 1 else 0
  }

  /** The pile after the healing phase ran the plan, with the discard-time
      counter then at `time`: the partial revive, when there is one, gave its
      card the discard time just before `time`; else the pile is the one the
      loop left. */
  ghost predicate HealedPile(plan: HealPlan, pile: set<Card>, time: int)
  {
    if PartialRevives(plan) == 1 then PartialRevived(plan.rest, plan.left, time - 1, pile)
    else pile == plan.rest
  }

  // ---------------------------------------------------------------------
  // The database

  class CardDatabase {
    const deckTree: AttackTree
    const discardTreeDesc: DiscardTree
    const discardTreeAsc: DiscardTree
    var deckCount: int
    var discardCount: int
    /** Static in the source; one database exists per game. */
    var discardTimeCounter: int

    ghost function Deck(): set<Card>
      reads deckTree
    {
      deckTree.Cards()
    }

    ghost function Pile(): set<Card>
      reads discardTreeDesc
    {
      discardTreeDesc.Cards()
    }

    /** The three trees are valid, the two discard trees hold the same
        cards in opposite orders, the discard count is the pile's size,
        deck cards carry the marks `insert` gives them, and discarded cards
        have no health and discard times below the counter. */
    ghost predicate Valid()
      reads this, deckTree, discardTreeDesc, discardTreeAsc
    {
      deckTree.Valid() && discardTreeDesc.Valid() && discardTreeAsc.Valid() &&
      !discardTreeDesc.sortAscending && discardTreeAsc.sortAscending &&
      discardTreeAsc.Cards() == discardTreeDesc.Cards() &&
      discardCount == |Pile()| &&
      (forall c {:trigger c in Deck()} | c in Deck() :: c.revivalProgress == 0 && c.discardTime == -1) &&
      discardTimeCounter >= 0 &&
      (forall c {:trigger c in Pile()} | c in Pile() :: c.hCur == 0 && 0 <= c.discardTime < discardTimeCounter)
    }

    constructor()
      ensures Valid() && Deck() == {} && Pile() == {}
      ensures deckCount == 0 && discardCount == 0 && discardTimeCounter == 0
      ensures fresh(deckTree) && fresh(discardTreeDesc) && fresh(discardTreeAsc)
    {
      deckTree := new AttackTree();
      discardTreeDesc := new DiscardTree(false);
      discardTreeAsc := new DiscardTree(true);
      deckCount := 0;
      discardCount := 0;
      discardTimeCounter := 0;
    }

    /** `insert(card)`: the card enters the deck unless a card with its
        identity is already there; the count goes up either way. */
    method Insert(card: Card)
      requires Valid()
      modifies this, deckTree
      ensures Valid()
      ensures A.HasCard(old(deckTree.root), AsDeckCard(card)) ==> Deck() == old(Deck())
      ensures !A.HasCard(old(deckTree.root), AsDeckCard(card)) ==> Deck() == old(Deck()) + {AsDeckCard(card)}
      ensures deckCount == old(deckCount) + 1
      ensures discardCount == old(discardCount) && discardTimeCounter == old(discardTimeCounter)
    {
      ghost var deck := Deck();
      var dc := AsDeckCard(card);
      InsertIntoDeck(deckTree, dc);
      forall c | c in Deck()
        ensures c.revivalProgress == 0 && c.discardTime == -1
      {
        if c != dc {
          assert c in deck;
        }
      }
      deckCount := deckCount + 1;
    }

    /** Inserts a card into the deck tree, seen as a set of cards. */
    static method InsertIntoDeck(t: AttackTree, card: Card)
      requires t.Valid()
      modifies t
      ensures t.Valid() && old(t.Cards()) <= t.Cards() <= old(t.Cards()) + {card}
      ensures A.HasCard(old(t.root), card) ==> t.Cards() == old(t.Cards())
      ensures !A.HasCard(old(t.root), card) ==> t.Cards() == old(t.Cards()) + {card}
    {
      t.Insert(card);
    }

    /** `remove(card)`: the card with the card's identity leaves the deck;
        the count goes down either way. */
    method Remove(card: Card)
      requires Valid()
      modifies this, deckTree
      ensures Valid()
      ensures Deck() == A.WithoutCard(old(Deck()), card)
      ensures card in old(Deck()) ==> Deck() == old(Deck()) - {card}
      ensures deckCount == old(deckCount) - 1
      ensures discardCount == old(discardCount) && discardTimeCounter == old(discardTimeCounter)
    {
      if card in Deck() {
        A.WithoutPresentCard(deckTree.root, card);
      }
      deckTree.Delete(card);
      deckCount := deckCount - 1;
    }

    /** Inserts into one discard tree a card sharing no key with its cards. */
    static method InsertNew(t: DiscardTree, card: Card)
      requires t.Valid() && forall c | c in t.Cards() :: !D.SameKey(c, card)
      modifies t
      ensures t.Valid() && t.Cards() == old(t.Cards()) + {card}
    {
      assert !D.HasKey(t.root, card);
      t.Insert(card);
    }

    /** Deletes a card of one discard tree. */
    static method DeletePresent(t: DiscardTree, card: Card)
      requires t.Valid() && card in t.Cards()
      modifies t
      ensures t.Valid() && t.Cards() == old(t.Cards()) - {card}
    {
      t.Delete(card);
    }

    /** Puts a card into both discard trees. */
    method AddToPile(card: Card)
      requires Valid() && card.hCur == 0 && 0 <= card.discardTime < discardTimeCounter
      requires forall c | c in Pile() :: c.discardTime < card.discardTime
      modifies this, discardTreeDesc, discardTreeAsc
      ensures Valid() && Pile() == old(Pile()) + {card} && discardCount == old(discardCount) + 1
      ensures deckCount == old(deckCount) && discardTimeCounter == old(discardTimeCounter)
    {
      ghost var pile := Pile();
      PileGrows(pile, card, discardTimeCounter);
      InsertNew(discardTreeDesc, card);
      InsertNew(discardTreeAsc, card);
      discardCount := discardCount + 1;
    }

    /** Takes a discarded card out of both discard trees. */
    method RemoveFromPile(card: Card)
      requires Valid() && card in Pile()
      modifies this, discardTreeDesc, discardTreeAsc
      ensures Valid() && Pile() == old(Pile()) - {card} && discardCount == old(discardCount) - 1
      ensures Deck() == old(Deck())
      ensures deckCount == old(deckCount) && discardTimeCounter == old(discardTimeCounter)
    {
      ghost var pile := Pile();
      DeletePresent(discardTreeDesc, card);
      DeletePresent(discardTreeAsc, card);
      discardCount := discardCount - 1;
      assert |Pile()| == |pile| - 1;
    }

    /** `addToDiscard(card)`: the card enters the pile with no health, no
        revival progress and the next discard time. */
    method AddToDiscard(card: Card)
      requires Valid()
      modifies this, discardTreeDesc, discardTreeAsc
      ensures Valid()
      ensures Pile() == old(Pile()) + {AsDiscarded(card, old(discardTimeCounter))}
      ensures discardTimeCounter == old(discardTimeCounter) + 1 && discardCount == old(discardCount) + 1
      ensures deckCount == old(deckCount)
    {
      AddAsNewest(AsDiscarded(card, discardTimeCounter));
    }

    /** Puts a card stamped with the next discard time into the pile and
        advances the counter. */
    method AddAsNewest(card: Card)
      requires Valid() && card.hCur == 0 && card.discardTime == discardTimeCounter
      modifies this, discardTreeDesc, discardTreeAsc
      ensures Valid() && Pile() == old(Pile()) + {card} && discardCount == old(discardCount) + 1
      ensures deckCount == old(deckCount) && discardTimeCounter == old(discardTimeCounter) + 1
    {
      discardTimeCounter := discardTimeCounter + 1;
      AddToPile(card);
    }

    /** The search half of `findAndRemoveBestCard`: the deck's maxima rule
        out whole classes, and the classes left are tried in order. */
    method FindBestCard(strAtt: int, strHp: int) returns (best: Option<Card>, priority: int)
      requires Valid()
      ensures BestCard(Deck(), strAtt, strHp, best, priority)
    {
      var aMax := deckTree.GetDeckMaxAttack();
      var hMax := deckTree.GetDeckMaxHealth();
      if aMax < strHp && hMax <= strAtt {
        best, priority := TryFromP4(strAtt, strHp);
      } else if aMax < strHp && hMax > strAtt {
        best, priority := TryFromP2(strAtt, strHp);
      } else if aMax >= strHp && hMax <= strAtt {
        best, priority := TryFromP3(strAtt, strHp);
      } else {
        best, priority := TryFromP1(strAtt, strHp);
      }
    }

    /** The chains of searches `findAndRemoveBestCard` falls through, each
        starting at a class no better class's card can be in. */
    method TryFromP1(strAtt: int, strHp: int) returns (best: Option<Card>, priority: int)
      requires Valid()
      ensures BestCard(Deck(), strAtt, strHp, best, priority)
    {
      best := deckTree.FindBestP1(strAtt, strHp);
      if best.Some? {
        priority := 1;
      } else {
        best, priority := TryFromP2(strAtt, strHp);
      }
    }

    method TryFromP2(strAtt: int, strHp: int) returns (best: Option<Card>, priority: int)
      requires Valid() && forall c | c in Deck() :: !A.FitsP1(c, strAtt, strHp)
      ensures BestCard(Deck(), strAtt, strHp, best, priority)
    {
      best := deckTree.FindBestP2(strAtt, strHp);
      if best.Some? {
        priority := 2;
      } else {
        best, priority := TryFromP3(strAtt, strHp);
      }
    }

    method TryFromP3(strAtt: int, strHp: int) returns (best: Option<Card>, priority: int)
      requires Valid()
      requires forall c | c in Deck() :: !A.FitsP1(c, strAtt, strHp) && !A.FitsP2(c, strAtt, strHp)
      ensures BestCard(Deck(), strAtt, strHp, best, priority)
    {
      best := deckTree.FindBestP3(strAtt, strHp);
      if best.Some? {
        priority := 3;
        PriorityIsP3(Deck(), strAtt, strHp, best);
      } else {
        best, priority := TryFromP4(strAtt, strHp);
      }
    }

    method TryFromP4(strAtt: int, strHp: int) returns (best: Option<Card>, priority: int)
      requires Valid()
      requires forall c | c in Deck() :: !A.FitsP1(c, strAtt, strHp) && !A.FitsP2(c, strAtt, strHp) && !A.FitsP3(c, strAtt, strHp)
      ensures BestCard(Deck(), strAtt, strHp, best, priority)
    {
      best := deckTree.FindBestP4();
      priority := if best.Some? then 4 else 0;
      PriorityFallsToP4(Deck(), strAtt, strHp);
    }

    /** `findAndRemoveBestCard(strAtt, strHp)`: the best card for the battle
        and its priority (0 when the deck is empty), taken out of the deck. */
    method FindAndRemoveBestCard(strAtt: int, strHp: int) returns (best: Option<Card>, priority: int)
      requires Valid()
      modifies this, deckTree
      ensures Valid()
      ensures BestCard(old(Deck()), strAtt, strHp, best, priority)
      ensures best.Some? ==> Deck() == old(Deck()) - {best.value} && deckCount == old(deckCount) - 1
      ensures best.None? ==> Deck() == old(Deck()) && deckCount == old(deckCount)
      ensures discardCount == old(discardCount) && discardTimeCounter == old(discardTimeCounter)
    {
      best, priority := FindBestCard(strAtt, strHp);
      if best.Some? {
        Remove(best.value);
      }
    }

    /** `findAndRemoveStealCard(attLimit, hpLimit)`: the steal search's card,
        taken out of the deck. */
    method FindAndRemoveStealCard(attLimit: int, hpLimit: int) returns (stolen: Option<Card>)
      requires Valid()
      modifies this, deckTree
      ensures Valid()
      ensures A.FirstSteal(old(Deck()), attLimit, hpLimit, stolen)
      ensures stolen.Some? ==> Deck() == old(Deck()) - {stolen.value} && deckCount == old(deckCount) - 1
      ensures stolen.None? ==> Deck() == old(Deck()) && deckCount == old(deckCount)
      ensures discardCount == old(discardCount) && discardTimeCounter == old(discardTimeCounter)
    {
      stolen := deckTree.FindForSteal(attLimit, hpLimit);
      if stolen.Some? {
        Remove(stolen.value);
      }
    }

    /** `healCards(healPool, baseEntryTime)`: fully revives the cards the
        loop picks (`plan`, the one run `IsPlan` allows), giving them the entry
        times from `baseEntryTime` on, then spends any pool left on the pile's
        first card in ascending order, which takes the next discard time;
        returns how many cards were fully revived. */
    method HealCards(healPool: int, baseEntryTime: int) returns (revivedCount: int, ghost plan: HealPlan)
      requires Valid()
      modifies this, deckTree, discardTreeDesc, discardTreeAsc
      ensures Valid()
      ensures IsPlan(old(Pile()), healPool, plan)
      ensures revivedCount == |plan.revived|
      ensures deckCount == old(deckCount) + revivedCount && discardCount == old(discardCount) - revivedCount
      ensures EntriesBefore(old(Deck()), baseEntryTime) ==>
        Deck() == old(Deck()) + RevivedCards(plan.revived, baseEntryTime)
      ensures HealedPile(plan, Pile(), discardTimeCounter)
      ensures discardTimeCounter == old(discardTimeCounter) + PartialRevives(plan)
    {
      if healPool <= 0 || discardCount == 0 {
        PlanDone(Pile(), healPool);
        return 0, HealPlan([], healPool, Pile());
      }
      var pool;
      revivedCount, pool, plan := ReviveAll(healPool, baseEntryTime);
      FinishHeal(pool, plan);
    }

    /** The end of `healCards`: what is left of the pool goes to a partial
        revive when the pile still holds a card. */
    method FinishHeal(pool: int, ghost plan: HealPlan)
      requires Valid() && plan.left == pool && plan.rest == Pile()
      modifies this, discardTreeDesc, discardTreeAsc
      ensures Valid()
      ensures HealedPile(plan, Pile(), discardTimeCounter)
      ensures discardTimeCounter == old(discardTimeCounter) + PartialRevives(plan)
      ensures Deck() == old(Deck()) && deckCount == old(deckCount) && discardCount == old(discardCount)
    {
      if pool > 0 && discardCount > 0 {
        PartialRevive(pool);
      }
    }

    /** The loop of `healCards`. */
    method ReviveAll(healPool: int, baseEntryTime: int) returns (revivedCount: int, pool: int, ghost plan: HealPlan)
      requires Valid()
      modifies this, deckTree, discardTreeDesc, discardTreeAsc
      ensures Valid()
      ensures IsPlan(old(Pile()), healPool, plan) && plan.left == pool && plan.rest == Pile()
      ensures revivedCount == |plan.revived|
      ensures deckCount == old(deckCount) + revivedCount && discardCount == old(discardCount) - revivedCount
      ensures EntriesBefore(old(Deck()), baseEntryTime) ==>
        Deck() == old(Deck()) + RevivedCards(plan.revived, baseEntryTime)
      ensures discardTimeCounter == old(discardTimeCounter)
    {
      D.ValidKeysDistinct(false, discardTreeDesc.root);
      PlanExists(Pile(), healPool);
      plan :| IsPlan(Pile(), healPool, plan);
      PlanStart(Pile(), healPool, plan);
      ghost var deck0 := Deck();
      revivedCount := 0;
      pool := healPool;
      var currentEntryTime := baseEntryTime;
      while pool > 0 && discardCount > 0
        invariant Valid()
        invariant 0 <= revivedCount <= |plan.revived| && IsPlan(Pile(), pool, Suffix(plan, revivedCount))
        invariant currentEntryTime == baseEntryTime + revivedCount
        invariant deckCount == old(deckCount) + revivedCount && discardCount == old(discardCount) - revivedCount
        invariant discardTimeCounter == old(discardTimeCounter)
        invariant EntriesBefore(deck0, baseEntryTime) ==>
          Deck() == deck0 + RevivedCards(plan.revived[..revivedCount], baseEntryTime)
        decreases discardCount
      {
        var found := discardTreeDesc.FindRevivable(pool);
        if found.None? {
          break;
        }
        var c := found.value;
        // The source checks the cost against the pool once more; the search
        // rules that out.
        assert HMissing(c) <= pool;
        pool, revivedCount := ReviveOne(c, currentEntryTime, pool, revivedCount, plan, deck0, baseEntryTime);
        currentEntryTime := currentEntryTime + 1;
      }
      PlanStop(Pile(), pool, plan, revivedCount);
    }

    /** One round of the loop: c, the card `findRevivable` returned, leaves
        the pile and re-enters the deck; it is the run's next card. */
    method ReviveOne(c: Card, entryTime: int, pool: int, k: int, ghost plan: HealPlan,
                     ghost deck0: set<Card>, ghost base: int) returns (pool': int, k': int)
      requires Valid() && 0 <= k <= |plan.revived| && IsPlan(Pile(), pool, Suffix(plan, k))
      requires pool > 0 && D.IsRevivable(Pile(), pool, c)
      requires entryTime == base + k
      modifies this, deckTree, discardTreeDesc, discardTreeAsc
      ensures Valid()
      ensures pool' == pool - HMissing(c) && k' == k + 1
      ensures k' <= |plan.revived| && IsPlan(Pile(), pool', Suffix(plan, k'))
      ensures deckCount == old(deckCount) + 1 && discardCount == old(discardCount) - 1
      ensures discardTimeCounter == old(discardTimeCounter)
      ensures EntriesBefore(deck0, base) && old(Deck()) == deck0 + RevivedCards(plan.revived[..k], base) ==>
        Deck() == deck0 + RevivedCards(plan.revived[..k'], base)
    {
      pool' := pool - HMissing(c);
      k' := k + 1;
      PlanStep(Pile(), pool, c, plan, k, pool');
      ghost var deck1 := Deck();
      RemoveFromPile(c);
      ReviveIntoDeck(c, entryTime);
      DeckGrows(deck0, plan.revived, k, base, c, entryTime, deck1, Deck());
    }

    /** One card of the loop back in the deck: fully revived, with the entry
        time given. */
    method ReviveIntoDeck(c: Card, entryTime: int)
      requires Valid()
      modifies this, deckTree
      ensures Valid()
      ensures EntriesBefore(old(Deck()), entryTime) ==> Deck() == old(Deck()) + {Revived(c, entryTime)}
      ensures Pile() == old(Pile())
      ensures deckCount == old(deckCount) + 1
      ensures discardCount == old(discardCount) && discardTimeCounter == old(discardTimeCounter)
    {
      var r := Revived(c, entryTime);
      Insert(r);
    }

    /** The partial revive after the loop. */
    method PartialRevive(pool: int)
      requires Valid() && Pile() != {}
      modifies this, discardTreeDesc, discardTreeAsc
      ensures Valid()
      ensures PartialRevived(old(Pile()), pool, discardTimeCounter - 1, Pile())
      ensures discardTimeCounter == old(discardTimeCounter) + 1
      ensures Deck() == old(Deck()) && deckCount == old(deckCount) && discardCount == old(discardCount)
    {
      ghost var pile0 := Pile();
      var m := discardTreeAsc.FindMin();
      var card := m.value;
      assert D.IsFirst(true, pile0, card);
      RemoveFromPile(card);
      var healed := ApplyPartialRevive(card, pool).(discardTime := discardTimeCounter);
      assert healed.hCur == card.hCur == 0;
      AddAsNewest(healed);
      assert Pile() == pile0 - {card} + {healed};
    }
  }
}
