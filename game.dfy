/** The scoring state machine of the card game (project1/src/Main.java).

    The source keeps the entry-time counter, both scores and the database in
    static fields and updates them step by step in its command handlers;
    here they are the fields of one `Game` object. Parsing the command
    lines and writing the report lines are left out: each handler returns
    what its report line would say. */
module Games {
  import opened Lang
  import opened Cards
  import A = AttackTrees
  import opened CardDatabases

  /** What a `battle` command reports: no card to play, or the played card
      (as it was found), its priority, whether it went to the discard pile,
      and in both cases the number of cards the healing phase revived. */
  datatype BattleReport =
    | NoCardToPlay(revived: int)
    | Played(priority: int, card: Card, discarded: bool, revived: int)

  /** The stranger's points for one played card: 2 when the card dies, 1 when
      it survives with less than its base health. */
  function StrangerPoints(d: DamageResult): (p: int)
    ensures 0 <= p <= 2
    ensures p == 2 <==> d.died
  {
    if d.died then 2 else if d.card.hCur < d.card.hBase then 1 else 0
  }

  /** The survivor's points for one played card, from the stranger's health
      and the card's attack: the stranger's health after the hit is their
      32-bit difference; 2 when the stranger is down, 1 when it was hurt but
      survived. */
  function SurvivorPoints(strHp: int, attack: int): (p: int)
    ensures 0 <= p <= 2
    ensures p == 2 <==> Wrap32(strHp - attack) <= 0
  {
    var after := Wrap32(strHp - attack);
    if after <= 0 then 2 else if after < strHp then 1 else 0
  }

  /** Against a positive attack, a card at health no more than its base
      always gives the stranger a point, and both of them exactly when the
      attack is at least the card's health. */
  lemma {:induction false} StrangerAlwaysScores(c: Card, strAtt: int)
    requires 0 < c.hCur <= c.hBase && 0 < strAtt && IsInt32(c.hCur - strAtt)
    ensures StrangerPoints(TakeDamage(c, strAtt)) >= 1
    ensures StrangerPoints(TakeDamage(c, strAtt)) == 2 <==> strAtt >= c.hCur
  {
    TakeDamageNoOverflow(c, strAtt);
  }

  /** A living stranger hit by a card with positive attack always gives the
      survivor a point, and both of them exactly when the attack is at least
      the stranger's health. */
  lemma {:induction false} SurvivorAlwaysScores(strHp: int, attack: int)
    requires 0 < strHp && 0 < attack && IsInt32(strHp - attack)
    ensures SurvivorPoints(strHp, attack) >= 1
    ensures SurvivorPoints(strHp, attack) == 2 <==> attack >= strHp
  {
    assert Wrap32(strHp - attack) == strHp - attack;
  }

  /** A card whose entry time is later than every deck card's is new to the
      deck, and so is every card sharing its identity. */
  lemma {:induction false} FreshEntryAbsent(t: A.ANode, c: Card)
    requires EntriesBefore(A.Contents(t), c.entryTime)
    ensures !A.HasCard(t, c) && c !in A.Contents(t)
  {
    forall d | d in A.Contents(t) ensures !A.SameCard(d, c) {
      assert d.entryTime < c.entryTime;
    }
  }

  /** A card entering at time t joins a deck of older entries as a new card,
      and the deck's entries are then older than t + 1. */
  lemma {:induction false} JoinDeck(deck: set<Card>, c: Card, t: int)
    requires EntriesBefore(deck, t) && c.entryTime == t
    ensures c !in deck && |deck + {c}| == |deck| + 1 && EntriesBefore(deck + {c}, t + 1)
  {
  }

  /** The revived cards are new to a deck whose entries are older, so the
      deck grows by their number and its entries stay older than the next
      free entry time. */
  lemma {:induction false} RevivedJoinDeck(deck: set<Card>, revived: seq<Card>, base: int)
    requires EntriesBefore(deck, base)
    ensures |deck + RevivedCards(revived, base)| == |deck| + |revived|
    ensures EntriesBefore(deck + RevivedCards(revived, base), base + |revived|)
  {
    var r := RevivedCards(revived, base);
    RevivedCardsShape(revived, base);
    forall d | d in deck ensures d !in r {
      assert d.entryTime < base;
    }
    assert deck !! r;
  }

  /** Taking a present card out of a deck lowers its size by one and keeps
      its entries older than t. */
  lemma {:induction false} LeaveDeck(deck: set<Card>, c: Card, t: int)
    requires c in deck && EntriesBefore(deck, t)
    ensures |deck - {c}| == |deck| - 1 && EntriesBefore(deck - {c}, t)
  {
  }

  /** The healing phase ran `plan` on pile0 with the pool healPool: the
      revived cards joined deck0 with entry times from `base`, making deck1,
      and the pile became pile1 with the discard-time counter at `time`. */
  ghost predicate Healed(pile0: set<Card>, healPool: int, plan: HealPlan, deck0: set<Card>, base: int,
                         deck1: set<Card>, pile1: set<Card>, time: int)
  {
    IsPlan(pile0, healPool, plan) && deck1 == deck0 + RevivedCards(plan.revived, base) &&
    HealedPile(plan, pile1, time)
  }

  /** As `Healed`, and then `back` returned to the deck, making deck1. */
  ghost predicate HealedThenReturned(pile0: set<Card>, healPool: int, plan: HealPlan, deck0: set<Card>, base: int,
                                     back: Card, deck1: set<Card>, pile1: set<Card>, time: int)
  {
    IsPlan(pile0, healPool, plan) && deck1 == deck0 + RevivedCards(plan.revived, base) + {back} &&
    HealedPile(plan, pile1, time)
  }

  class Game {
    /** `entryTimeCounter`, a `long` in the source. */
    var entryTimeCounter: int
    var survivorScore: int
    var strangerScore: int
    const db: CardDatabase

    ghost function Deck(): set<Card>
      reads db.deckTree
    {
      db.Deck()
    }

    ghost function Pile(): set<Card>
      reads db.discardTreeDesc
    {
      db.Pile()
    }

    /** The database is consistent, its deck count is the deck's size (every
        card enters with a fresh entry time, so no insert is a no-op), every
        deck card entered before the counter, and the scores are not
        negative. */
    ghost predicate Valid()
      reads this, db, db.deckTree, db.discardTreeDesc, db.discardTreeAsc
    {
      db.Valid() && db.deckCount == |Deck()| &&
      entryTimeCounter >= 0 && EntriesBefore(Deck(), entryTimeCounter) &&
      survivorScore >= 0 && strangerScore >= 0
    }

    constructor()
      ensures Valid() && Deck() == {} && Pile() == {}
      ensures entryTimeCounter == 0 && survivorScore == 0 && strangerScore == 0
    {
      db := new CardDatabase();
      entryTimeCounter := 0;
      survivorScore := 0;
      strangerScore := 0;
    }

    /** A card enters the deck with the next entry time from the counter. */
    method Enter(card: Card) returns (entered: Card)
      requires Valid()
      modifies this, db, db.deckTree
      ensures Valid()
      ensures entered == AsDeckCard(card.(entryTime := old(entryTimeCounter)))
      ensures entered !in old(Deck()) && Deck() == old(Deck()) + {entered}
      ensures entryTimeCounter == old(entryTimeCounter) + 1
      ensures Pile() == old(Pile()) && db.discardCount == old(db.discardCount)
      ensures db.discardTimeCounter == old(db.discardTimeCounter)
      ensures survivorScore == old(survivorScore) && strangerScore == old(strangerScore)
    {
      var c := card.(entryTime := entryTimeCounter);
      entered := AsDeckCard(c);
      ghost var deck := Deck();
      FreshEntryAbsent(db.deckTree.root, entered);
      JoinDeck(deck, entered, entryTimeCounter);
      entryTimeCounter := entryTimeCounter + 1;
      db.Insert(c);
      assert Deck() == deck + {entered};
    }

    /** `handleDrawCard`: a new card with the next entry time joins the deck. */
    method DrawCard(name: string, attack: int, health: int) returns (added: Card)
      requires Valid()
      modifies this, db, db.deckTree
      ensures Valid()
      ensures added == AsDeckCard(NewCard(name, attack, health, old(entryTimeCounter)))
      ensures added !in old(Deck()) && Deck() == old(Deck()) + {added}
      ensures entryTimeCounter == old(entryTimeCounter) + 1
      ensures Pile() == old(Pile())
      ensures survivorScore == old(survivorScore) && strangerScore == old(strangerScore)
    {
      added := Enter(NewCard(name, attack, health, entryTimeCounter));
    }

    /** `handleHealingPhase(healPool)`: a zero pool heals nothing; otherwise
        `healCards` runs with the counter as the first entry time, and the
        counter moves past the entry times it gave. */
    method HealingPhase(healPool: int) returns (revivedCount: int, ghost plan: HealPlan)
      requires Valid()
      modifies this, db, db.deckTree, db.discardTreeDesc, db.discardTreeAsc
      ensures Valid() && revivedCount == |plan.revived|
      ensures Healed(old(Pile()), healPool, plan, old(Deck()), old(entryTimeCounter),
                     Deck(), Pile(), db.discardTimeCounter)
      ensures db.discardTimeCounter == old(db.discardTimeCounter) + PartialRevives(plan)
      ensures entryTimeCounter == old(entryTimeCounter) + revivedCount
      ensures survivorScore == old(survivorScore) && strangerScore == old(strangerScore)
    {
      if healPool == 0 {
        PlanDone(Pile(), healPool);
        return 0, HealPlan([], healPool, Pile());
      }
      ghost var deck := Deck();
      revivedCount, plan := db.HealCards(healPool, entryTimeCounter);
      RevivedJoinDeck(deck, plan.revived, entryTimeCounter);
      Advance(revivedCount);
    }

    /** The entry-time counter moves past the n entry times just given out. */
    method Advance(n: int)
      requires db.Valid() && db.deckCount == |Deck()| && entryTimeCounter >= 0 && n >= 0
      requires EntriesBefore(Deck(), entryTimeCounter + n)
      requires survivorScore >= 0 && strangerScore >= 0
      modifies this
      ensures Valid() && entryTimeCounter == old(entryTimeCounter) + n
      ensures survivorScore == old(survivorScore) && strangerScore == old(strangerScore)
    {
      entryTimeCounter := entryTimeCounter + n;
    }

    /** The battle search of `handleBattle`, with the card taken out of the deck. */
    method Draw(strAtt: int, strHp: int) returns (best: Option<Card>, priority: int)
      requires Valid()
      modifies db, db.deckTree
      ensures Valid()
      ensures BestCard(old(Deck()), strAtt, strHp, best, priority)
      ensures best.Some? ==> Deck() == old(Deck()) - {best.value}
      ensures best.None? ==> Deck() == old(Deck())
      ensures Pile() == old(Pile()) && db.discardTimeCounter == old(db.discardTimeCounter)
    {
      ghost var deck := Deck();
      best, priority := db.FindAndRemoveBestCard(strAtt, strHp);
      if best.Some? {
        LeaveDeck(deck, best.value, entryTimeCounter);
      }
    }

    /** The scoring of one played card: the card takes the stranger's attack,
        the stranger takes the card's attack from before the hit. */
    method Score(card: Card, strAtt: int, strHp: int) returns (d: DamageResult)
      modifies this
      requires survivorScore >= 0 && strangerScore >= 0
      ensures d == TakeDamage(card, strAtt)
      ensures strangerScore == old(strangerScore) + StrangerPoints(d)
      ensures survivorScore == old(survivorScore) + SurvivorPoints(strHp, card.aCur)
      ensures entryTimeCounter == old(entryTimeCounter)
    {
      d := TakeDamage(card, strAtt);
      var strangerHealth := Wrap32(strHp - d.card.aCurBeforeDamage);
      if d.died {
        strangerScore := strangerScore + 2;
      }
      if strangerHealth <= 0 {
        survivorScore := survivorScore + 2;
      }
      if !d.died && d.card.hCur < d.card.hBase {
        strangerScore := strangerScore + 1;
      }
      if strangerHealth > 0 && strangerHealth < strHp {
        survivorScore := survivorScore + 1;
      }
    }

    /** A card that died goes to the discard pile with the next discard
        time; then the healing phase runs on the grown pile. */
    method DiscardThenHeal(card: Card, healPool: int) returns (revived: int, ghost plan: HealPlan)
      requires Valid()
      modifies this, db, db.deckTree, db.discardTreeDesc, db.discardTreeAsc
      ensures Valid() && revived == |plan.revived|
      ensures Healed(old(Pile()) + {AsDiscarded(card, old(db.discardTimeCounter))}, healPool, plan,
                     old(Deck()), old(entryTimeCounter), Deck(), Pile(), db.discardTimeCounter)
      ensures db.discardTimeCounter == old(db.discardTimeCounter) + 1 + PartialRevives(plan)
      ensures entryTimeCounter == old(entryTimeCounter) + revived
      ensures survivorScore == old(survivorScore) && strangerScore == old(strangerScore)
    {
      db.AddToDiscard(card);
      revived, plan := HealingPhase(healPool);
    }

    /** The healing phase runs first; then a card that survived returns to
        the deck with the next entry time. */
    method HealThenReturn(card: Card, healPool: int) returns (revived: int, ghost plan: HealPlan)
      requires Valid()
      modifies this, db, db.deckTree, db.discardTreeDesc, db.discardTreeAsc
      ensures Valid() && revived == |plan.revived|
      ensures HealedThenReturned(old(Pile()), healPool, plan, old(Deck()), old(entryTimeCounter),
                                 AsDeckCard(card.(entryTime := entryTimeCounter - 1)),
                                 Deck(), Pile(), db.discardTimeCounter)
      ensures db.discardTimeCounter == old(db.discardTimeCounter) + PartialRevives(plan)
      ensures entryTimeCounter == old(entryTimeCounter) + revived + 1
      ensures survivorScore == old(survivorScore) && strangerScore == old(strangerScore)
    {
      revived, plan := HealingPhase(healPool);
      ghost var deck := Deck();
      var back := Enter(card);
      assert Deck() == deck + {back};
      assert back == AsDeckCard(card.(entryTime := entryTimeCounter - 1));
    }

    /** What follows the fight: a dead card is discarded before the healing
        phase, a surviving one returns to the deck after it. */
    method Settle(d: DamageResult, healPool: int) returns (revived: int, ghost plan: HealPlan)
      requires Valid()
      modifies this, db, db.deckTree, db.discardTreeDesc, db.discardTreeAsc
      ensures Valid() && revived == |plan.revived|
      ensures d.died ==>
        Healed(old(Pile()) + {AsDiscarded(d.card, old(db.discardTimeCounter))}, healPool, plan,
               old(Deck()), old(entryTimeCounter), Deck(), Pile(), db.discardTimeCounter) &&
        db.discardTimeCounter == old(db.discardTimeCounter) + 1 + PartialRevives(plan) &&
        entryTimeCounter == old(entryTimeCounter) + revived
      ensures !d.died ==>
        HealedThenReturned(old(Pile()), healPool, plan, old(Deck()), old(entryTimeCounter),
                           AsDeckCard(d.card.(entryTime := entryTimeCounter - 1)),
                           Deck(), Pile(), db.discardTimeCounter) &&
        db.discardTimeCounter == old(db.discardTimeCounter) + PartialRevives(plan) &&
        entryTimeCounter == old(entryTimeCounter) + revived + 1
      ensures survivorScore == old(survivorScore) && strangerScore == old(strangerScore)
    {
      if d.died {
        revived, plan := DiscardThenHeal(d.card, healPool);
      } else {
        revived, plan := HealThenReturn(d.card, healPool);
      }
    }

    /** With no card to play the stranger scores 2 and the healing phase
        runs. */
    method NoCardToPlayPhase(healPool: int) returns (r: BattleReport, ghost plan: HealPlan)
      requires Valid()
      modifies this, db, db.deckTree, db.discardTreeDesc, db.discardTreeAsc
      ensures Valid() && r.NoCardToPlay? && r.revived == |plan.revived|
      ensures strangerScore == old(strangerScore) + 2 && survivorScore == old(survivorScore)
      ensures Healed(old(Pile()), healPool, plan, old(Deck()), old(entryTimeCounter),
                     Deck(), Pile(), db.discardTimeCounter)
      ensures db.discardTimeCounter == old(db.discardTimeCounter) + PartialRevives(plan)
      ensures entryTimeCounter == old(entryTimeCounter) + r.revived
    {
      strangerScore := strangerScore + 2;
      var revived;
      revived, plan := HealingPhase(healPool);
      r := NoCardToPlay(revived);
    }

    /** The drawn card fights, is scored, and is settled. */
    method Play(card: Card, priority: int, strAtt: int, strHp: int, healPool: int) returns (r: BattleReport, ghost plan: HealPlan)
      requires Valid()
      modifies this, db, db.deckTree, db.discardTreeDesc, db.discardTreeAsc
      ensures Valid() && r == Played(priority, card, TakeDamage(card, strAtt).died, r.revived)
      ensures r.revived == |plan.revived|
      ensures strangerScore == old(strangerScore) + StrangerPoints(TakeDamage(card, strAtt))
      ensures survivorScore == old(survivorScore) + SurvivorPoints(strHp, card.aCur)
      ensures r.discarded ==>
        Healed(old(Pile()) + {AsDiscarded(TakeDamage(card, strAtt).card, old(db.discardTimeCounter))}, healPool, plan,
               old(Deck()), old(entryTimeCounter), Deck(), Pile(), db.discardTimeCounter) &&
        db.discardTimeCounter == old(db.discardTimeCounter) + 1 + PartialRevives(plan) &&
        entryTimeCounter == old(entryTimeCounter) + r.revived
      ensures !r.discarded ==>
        HealedThenReturned(old(Pile()), healPool, plan, old(Deck()), old(entryTimeCounter),
                           AsDeckCard(TakeDamage(card, strAtt).card.(entryTime := entryTimeCounter - 1)),
                           Deck(), Pile(), db.discardTimeCounter) &&
        db.discardTimeCounter == old(db.discardTimeCounter) + PartialRevives(plan) &&
        entryTimeCounter == old(entryTimeCounter) + r.revived + 1
    {
      ghost var deck := Deck();
      var d := Score(card, strAtt, strHp);
      assert Deck() == deck && Pile() == old(Pile()) && db.discardTimeCounter == old(db.discardTimeCounter);
      var revived;
      revived, plan := Settle(d, healPool);
      r := Played(priority, card, d.died, revived);
    }

    /** `handleBattle(strAtt, strHp, healPool)`: with no card to play the
        stranger scores 2; otherwise the best card fights, a dead card goes
        to the discard pile and a surviving one returns to the deck after the
        healing phase with the next entry time. The healing phase runs in
        both cases, on the pile as it is after the fight. */
    method Battle(strAtt: int, strHp: int, healPool: int) returns (r: BattleReport, ghost plan: HealPlan)
      requires Valid()
      modifies this, db, db.deckTree, db.discardTreeDesc, db.discardTreeAsc
      ensures Valid() && r.revived == |plan.revived|
      ensures r.NoCardToPlay? <==> old(Deck()) == {}
      ensures r.NoCardToPlay? ==>
        strangerScore == old(strangerScore) + 2 && survivorScore == old(survivorScore) &&
        Healed(old(Pile()), healPool, plan, old(Deck()), old(entryTimeCounter),
               Deck(), Pile(), db.discardTimeCounter) &&
        db.discardTimeCounter == old(db.discardTimeCounter) + PartialRevives(plan) &&
        entryTimeCounter == old(entryTimeCounter) + r.revived
      ensures r.Played? ==>
        BestCard(old(Deck()), strAtt, strHp, Some(r.card), r.priority) &&
        r.discarded == TakeDamage(r.card, strAtt).died &&
        strangerScore == old(strangerScore) + StrangerPoints(TakeDamage(r.card, strAtt)) &&
        survivorScore == old(survivorScore) + SurvivorPoints(strHp, r.card.aCur)
    {
      var best, priority := Draw(strAtt, strHp);
      if best.None? {
        r, plan := NoCardToPlayPhase(healPool);
      } else {
        r, plan := Play(best.value, priority, strAtt, strHp, healPool);
      }
    }

    /** `handleStealCard(attLimit, hpLimit)`: the steal search's card leaves
        the deck. */
    method StealCard(attLimit: int, hpLimit: int) returns (stolen: Option<Card>)
      requires Valid()
      modifies db, db.deckTree
      ensures Valid()
      ensures A.FirstSteal(old(Deck()), attLimit, hpLimit, stolen)
      ensures stolen.Some? ==> Deck() == old(Deck()) - {stolen.value}
      ensures stolen.None? ==> Deck() == old(Deck())
      ensures Pile() == old(Pile())
    {
      ghost var deck := Deck();
      stolen := db.FindAndRemoveStealCard(attLimit, hpLimit);
      if stolen.Some? {
        LeaveDeck(deck, stolen.value, entryTimeCounter);
      }
    }

    /** `deck_count`: the number of cards in the deck. */
    method DeckCount() returns (n: int)
      requires Valid()
      ensures n == |Deck()|
    {
      n := db.deckCount;
    }

    /** `discard_pile_count`: the number of cards in the discard pile. */
    method DiscardPileCount() returns (n: int)
      requires Valid()
      ensures n == |Pile()|
    {
      n := db.discardCount;
    }

    /** `handleFindWinning`: the survivor wins ties; the winner's score is
        the larger one. */
    method FindWinning() returns (survivorWins: bool, score: int)
      requires Valid()
      ensures survivorWins <==> survivorScore >= strangerScore
      ensures score == Max(survivorScore, strangerScore) >= 0
    {
      if survivorScore >= strangerScore {
        survivorWins, score := true, survivorScore;
      } else {
        survivorWins, score := false, strangerScore;
      }
    }
  }
}
