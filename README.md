# Verified model of three data-structure course projects

This Dafny project models the sequential core of three Java programs and proves the properties their code relies on.
Each Java source file becomes one Dafny module:

| Dafny file | module | Java source |
|---|---|---|
| lang.dfy | Lang | Java's integer and string primitives |
| cards.dfy | Cards | project1/src/Card.java |
| health_tree.dfy | HealthTrees | project1/src/AttackTree.java, the inner `HealthTree` |
| attack_tree.dfy, attack_tree_class.dfy | AttackTrees, AttackTreeClass | project1/src/AttackTree.java, the outer tree |
| discard_tree.dfy, card_database.dfy | DiscardTrees, CardDatabases | project1/src/CardDatabase.java |
| game.dfy | Games | project1/src/Main.java |
| freelancer_tree.dfy | FreelancerTrees | project2/src/AvlTree.java |
| platform.dfy | Platform | project2/src/Main.java |
| hash_table.dfy | HashTables | project3/src/HashTable.java |
| min_heap.dfy | MinHeaps | project3/src/MinHeap.java |
| trace_node.dfy | TraceNodes | project3/src/TraceNode.java |
| node.dfy | Nodes | project3/src/Node.java |
| reach.dfy, backdoors.dfy, graph.dfy | Reachability, Backdoors, Graphs | project3/src/Graph.java |
| commands.dfy | Commands | project3/src/Main.java |

## The card game (project1)

**The deck.**
- The deck is an AVL tree keyed by a card's current attack `A_cur`.
- Each of its nodes owns an inner AVL tree of the cards with that attack, ordered by `(H_cur, entryTime)`.
- Each node keeps subtree aggregates. An inner (health) node keeps the height, the size, and the largest and smallest health. An outer (attack) node keeps the height, the largest attack, and the largest and smallest health.
- Tree nodes are datatype values (`HealthTrees.HNode`, `AttackTrees.ANode`). The functions on them return rebuilt trees.
- The class `AttackTreeClass.AttackTree` holds the root, as the Java object does.

**What is proved about the deck.**
- Insertion, deletion and rebalancing keep:
  - BST order;
  - AVL balance;
  - sound aggregates: the largest attack bounds every key and is a key or 0; every card lies within the health bounds, and each bound is either attained by a card or is the empty-subtree value (0 for the largest health, Integer.MAX_VALUE for the smallest), so the bounds are exact when every health lies in [0, Integer.MAX_VALUE]; the inner size is the exact count;
  - the exact set of cards.
- Each of the five searches returns the card that a brute-force definition selects over the set of cards: P1, P2, P3, P4 and steal.

**The card database.**
- `CardDatabases.CardDatabase` adds two discard trees, one ascending and one descending by missing health.
- It adds the priority dispatcher that reads the root aggregates.
- It adds the `healCards` revive loop, which is proved against a heal plan: the greedy sequence of full revives followed by at most one partial revive.

**The game.**
- `Games.Game` keeps the two scores and the entry-time counter of the battle, healing and winner rules.

## The freelancer marketplace (project2)

- `FreelancerTrees` models the AVL tree ordered by composite score, then by id.
  - It models `compare`, the rotations, `balance`, `insert`, `delete`, `successor` and the top-k `findBest`, which skips blacklisted ids.
  - `insert` is modelled as written. After a descent to the left it returns the new subtree without updating the height or rebalancing. `FreelancerTrees.InsertLeftSkipsRebalance` states this.
  - BST order and the set of freelancers are still kept. AVL balance is therefore not claimed for this tree.
- `Platform` models:
  - skill gains, capped at 100;
  - skill degradation, floored at 0;
  - loyalty tiers;
  - the ten per-service trees;
  - the registration guards.
- `register_customer` is modelled as written: it always stores the customer and reports success, because the error message it prepares for a duplicate id is overwritten before it is returned.

## The resistance network (project3)

- `HashTables`: the separate-chaining hash table with doubling resize, proved to represent a map.
- `MinHeaps`: the 1-indexed binary heap, proved to keep heap order and its multiset of elements.
- `TraceNodes`: the lexicographic comparator of route candidates.
- `Nodes`: the per-host link and seal lists.
- `Graphs`: the network.
  - It covers host and backdoor creation, sealing as a toggle between the two lists, and BFS component counting.
  - The host breach removes a node; the backdoor breach cuts a link and restores it.
  - It covers DFS cycle detection.
  - It is proved against `Reachability`, the walks over unsealed backdoors.
- `Commands`: the id validator and what each command does to the network.

## Model

| member | source | states |
|---|---|---|
| Lang.Wrap32 | project1/src/Card.java:34-40 | the `(int)` cast: the result is a 32-bit value that differs from the input by a multiple of 2^32, and is the input itself when that fits |
| Lang.TruncDiv | project1/src/Card.java:39 | Java's `/` on ints: the quotient of the absolute values, negated exactly when the signs differ, so it truncates toward zero; floor division when both are non-negative |
| Lang.CompareStringsZero | project2/src/AvlTree.java:52-54 | `String.compareTo` is 0 exactly for equal strings |
| Lang.CompareStringsAntisymmetric | project2/src/AvlTree.java:52-54 | swapping the operands of `String.compareTo` negates the result |
| Lang.CompareStringsTransitive | project2/src/AvlTree.java:52-54 | `String.compareTo` orders strings transitively |
| Lang.CompareStrings | project2/src/AvlTree.java:52-54 | when one string is a prefix of the other, `compareTo` is the difference of the lengths; zero, sign and order are stated by the three lemmas below |
| Cards.NewCard | project1/src/Card.java:14-23 | a new card has initial, base and current attack equal to `attack`, the three health values equal to `health`, no revival progress and discard time -1 |
| Cards.TakeDamage | project1/src/Card.java:25-43 | the pre-damage attack is saved; the card dies exactly when its 32-bit health after the hit is at most 0, and its health then reads 0; a survivor keeps that health and gets the rescaled attack, at least 1; no other field changes |
| Cards.ScaledAttackBounds | project1/src/Card.java:34-41 | for health in (0, H_base] the rescaled attack lies between 1 and max(1, A_base); the 64-bit product and the cast never wrap, so it is max(1, A_base*H_cur/H_base) |
| Cards.TakeDamageNoOverflow | project1/src/Card.java:25-32 | without overflow the card dies exactly when `H_cur - damage <= 0`, and a survivor's health is `H_cur - damage` |
| Cards.ApplyFullRevive | project1/src/Card.java:49-55 | full health, base attack floored to 90%, current attack max(1, base), progress 0, discard time -1; name and entry time kept |
| Cards.ApplyPartialRevive | project1/src/Card.java:57-62 | progress grows by min(heal, missing health), base attack floored to 95%, nothing else changes |
| Cards.PartialReviveKeepsProgressInRange | project1/src/Card.java:45-47 | with a positive heal the progress stays within [0, H_base], the missing health drops by exactly what was paid, and reaches 0 when the heal covers it |
| Cards.HMissing | project1/src/Card.java:45-47 | while the revival progress lies in [0, H_base], the missing health lies in [0, H_base] |
| Cards.ScaledAttack | project1/src/Card.java:34-41 | the attack a surviving card gets is at least 1 and a 32-bit value |
| Cards.Floor90 | project1/src/Card.java:50 | the largest integer not above 0.9 · A_base, non-negative and at most A_base for a non-negative base |
| Cards.Floor95 | project1/src/Card.java:58 | the largest integer not above 0.95 · A_base, non-negative and at most A_base for a non-negative base |
| HealthTrees.Compare | project1/src/AttackTree.java:85-88 | the comparison is negative, positive or zero exactly when the card sorts before, after or on the same `(H_cur, entryTime)` key |
| HealthTrees.FindMin | project1/src/AttackTree.java:75-80 | null for an empty tree, otherwise the leftmost card |
| HealthTrees.Leftmost | project1/src/AttackTree.java:124-127 | the card `findMinNode` walks to is in the tree |
| HealthTrees.LeftmostIsMin | project1/src/AttackTree.java:124-127 | the leftmost card of a valid tree sorts before every other card |
| HealthTrees.FindMinHealth | project1/src/AttackTree.java:162-172 | a result is a card of the tree whose health exceeds the limit |
| HealthTrees.FindMinHealthCorrect | project1/src/AttackTree.java:159-172 | null exactly when no card's health exceeds the limit; otherwise the smallest such card in `(H_cur, entryTime)` order |
| HealthTrees.FindMinHealthMax | project1/src/AttackTree.java:177-189 | a result is a card of the tree whose health is at most the limit |
| HealthTrees.FindMinHealthMaxCorrect | project1/src/AttackTree.java:174-189 | null for an empty tree or when no card qualifies; otherwise the tree's smallest card, which is returned exactly when its health is at most the limit |
| HealthTrees.FindMinHealthMaxLeftmost | project1/src/AttackTree.java:177-189 | on a non-empty tree the search yields the leftmost card if it qualifies and null otherwise |
| HealthTrees.InOrderSorted | project1/src/AttackTree.java:83-95 | the in-order sequence of a valid tree is strictly increasing in `(H_cur, entryTime)` and lists exactly its cards |
| HealthTrees.KeysUnique | project1/src/AttackTree.java:92 | in a valid tree a key names at most one card |
| HealthTrees.AggregatesSound | project1/src/AttackTree.java:46-65 | `H_min_subtree`/`H_max_subtree` bound every health of the subtree and are attained or are the empty values 0 and Integer.MAX_VALUE; `size` is the number of cards |
| HealthTrees.AggregatesExact | project1/src/AttackTree.java:55-73 | with healths in [0, Integer.MAX_VALUE] the aggregates of a non-empty tree are its largest and smallest health |
| HealthTrees.SizeIsCount | project1/src/AttackTree.java:41-58 | `size()` is the number of cards |
| HealthTrees.RebalancePreserves | project1/src/AttackTree.java:130-155 | rebalancing keeps the cards and their in-order sequence |
| HealthTrees.RebalanceCorrect | project1/src/AttackTree.java:130-155 | after one insertion or deletion step (children differing by at most 2) `rebalance` gives a valid AVL node whose height is within one of the taller child's plus one, and leaves a balanced node as it is |
| HealthTrees.InsertCorrect | project1/src/AttackTree.java:82-95 | insertion keeps the tree valid, adds the card exactly when its key is absent, returns the tree unchanged when it is present, and grows the height by at most one |
| HealthTrees.DeleteCorrect | project1/src/AttackTree.java:97-123 | deletion keeps the tree valid, removes exactly the card with the given key (the successor taking a two-child node's place), changes nothing for an absent key when healths are in range, and shrinks the height by at most one |
| AttackTrees.LeftmostNode | project1/src/AttackTree.java:325-328 | the node `findMinNode` walks to has no left child |
| AttackTrees.LeftmostNodeIsMin | project1/src/AttackTree.java:315-318 | the successor node carries the smallest attack key of the subtree, a good inner tree, and exactly the subtree's cards of that attack |
| AttackTrees.FindBestP1 | project1/src/AttackTree.java:367-398 | a result is a deck card whose health exceeds the stranger's attack |
| AttackTrees.FindBestP1Correct | project1/src/AttackTree.java:366-398 | null exactly when no card has `A_cur >= strHp` and `H_cur > strAtt`; otherwise the first such card by smallest attack, then `(H_cur, entryTime)` |
| AttackTrees.FindBestP2 | project1/src/AttackTree.java:402-432 | a result is a deck card whose health exceeds the stranger's attack |
| AttackTrees.FindBestP2Correct | project1/src/AttackTree.java:401-432 | null exactly when no card has `A_cur < strHp` and `H_cur > strAtt`; otherwise the first such card by largest attack, then `(H_cur, entryTime)` |
| AttackTrees.FindBestP3 | project1/src/AttackTree.java:435-468 | a result is a deck card whose health is at most the stranger's attack |
| AttackTrees.FindBestP3Correct | project1/src/AttackTree.java:434-468 | null exactly when no card has `A_cur >= strHp` and `H_cur <= strAtt`; otherwise the first such card by smallest attack, then `(H_cur, entryTime)` |
| AttackTrees.FindBestP4 | project1/src/AttackTree.java:472-477 | null exactly for an empty deck; otherwise a deck card that comes first by largest attack, then `(H_cur, entryTime)` |
| AttackTrees.FindForSteal | project1/src/AttackTree.java:480-508 | a result is a deck card whose health exceeds the health limit |
| AttackTrees.FindForStealCorrect | project1/src/AttackTree.java:479-508 | null exactly when no card has `A_cur > attLimit` and `H_cur > hpLimit`; otherwise the first such card by smallest attack, then `(H_cur, entryTime)` |
| AttackTrees.CardsHaveKeys | project1/src/AttackTree.java:197-214 | every card sits under the outer key of its attack, and every outer key holds a card |
| AttackTrees.KeySeqSorted | project1/src/AttackTree.java:260-276 | the in-order attack keys are strictly increasing and are exactly the keys |
| AttackTrees.SideAttacks | project1/src/AttackTree.java:260-276 | cards left of a node have smaller attack, cards right of it larger, and its inner tree holds only its own attack |
| AttackTrees.CardsUnique | project1/src/AttackTree.java:270 | a valid deck holds at most one card per `(A_cur, H_cur, entryTime)` |
| AttackTrees.AggregatesSound | project1/src/AttackTree.java:221-252 | `A_max_subtree`, `H_max_subtree` and `H_min_subtree` bound every card and key below and are attained or are the empty values 0 and Integer.MAX_VALUE |
| AttackTrees.RightmostIsMax | project1/src/AttackTree.java:472-476 | the node the P4 loop reaches holds the largest attack key and every card of that attack |
| AttackTrees.RebalancePreserves | project1/src/AttackTree.java:334-366 | rebalancing keeps the cards, the keys and their in-order sequence |
| AttackTrees.RebalanceCorrect | project1/src/AttackTree.java:334-366 | after one insertion or deletion step `rebalance` gives a valid node of the expected height and leaves a balanced node as it is |
| AttackTrees.InsertCorrect | project1/src/AttackTree.java:257-276 | insertion keeps the index valid, adds the card unless its identity is present, adds its attack to the keys, and a known attack changes only that key's inner tree (keys, order and height unchanged); the height grows by at most one |
| AttackTrees.DeleteOuterCorrect | project1/src/AttackTree.java:302-324 | `deleteOuterNode` keeps the index valid, removes exactly that attack's cards and key, and lowers the height by at most one |
| AttackTrees.DeleteRootContents | project1/src/AttackTree.java:311-319 | removing a node keeps exactly its children's cards and keys; the successor's key and inner tree move up |
| AttackTrees.DeleteCorrect | project1/src/AttackTree.java:278-300 | deletion keeps the index valid, removes exactly the card with that identity (and its attack key once the inner tree empties), leaves a tree without the card unchanged, and lowers the height by at most one |
| AttackTrees.DeleteAbsent | project1/src/AttackTree.java:281-300 | deleting a card that is not in the deck returns the same tree |
| AttackTrees.SelfUpdated | project1/src/AttackTree.java:206-214 | with the game's value ranges a node built by `new AttackNode(card)` has the fields `update` would give it |
| AttackTreeClass.AttackTree.constructor | project1/src/AttackTree.java:217 | a new deck index is valid and empty |
| AttackTreeClass.AttackTree.Insert | project1/src/AttackTree.java:257-259 | the root becomes the inserted tree; the deck gains the card unless its identity is present |
| AttackTreeClass.AttackTree.Delete | project1/src/AttackTree.java:278-280 | the root becomes the tree after deletion; the deck loses exactly the card with that identity |
| AttackTreeClass.AttackTree.GetDeckMaxAttack | project1/src/AttackTree.java:221-223 | at least every card's attack, 0 for an empty deck, and otherwise attained by a card |
| AttackTreeClass.AttackTree.GetDeckMaxHealth | project1/src/AttackTree.java:224-226 | at least every card's health, 0 for an empty deck, and otherwise attained by a card |
| AttackTreeClass.AttackTree.FindBestP1 | project1/src/AttackTree.java:367-371 | the first card by smallest attack that survives the stranger and kills it, or null when none does |
| AttackTreeClass.AttackTree.FindBestP2 | project1/src/AttackTree.java:402-406 | the first card by largest attack below the stranger's health that survives, or null |
| AttackTreeClass.AttackTree.FindBestP3 | project1/src/AttackTree.java:435-439 | the first card by smallest attack that kills the stranger and dies, or null |
| AttackTreeClass.AttackTree.FindBestP4 | project1/src/AttackTree.java:472-477 | null on an empty deck, otherwise the first card by largest attack, then `(H_cur, entryTime)` |
| AttackTreeClass.AttackTree.FindForSteal | project1/src/AttackTree.java:480-484 | the first card by smallest attack beating both steal limits, or null |
| DiscardTrees.Compare | project1/src/CardDatabase.java:43-54 | the inlined comparison is negative, positive or zero exactly when the first card comes before, after or on the same key as the second: missing health ascending or descending by the tree's flag, then the earlier discard time |
| DiscardTrees.Leftmost | project1/src/CardDatabase.java:98-99 | the card `findMinNode` walks to is in the tree |
| DiscardTrees.FindMin | project1/src/CardDatabase.java:98-99 | null for an empty tree, otherwise the leftmost card |
| DiscardTrees.FindRevivable | project1/src/CardDatabase.java:128-147 | a result is a card of the tree whose missing health the pool can pay |
| DiscardTrees.SizeIsCount | project1/src/CardDatabase.java:35-36 | `size()` is the number of cards in a valid tree |
| DiscardTrees.KeysUnique | project1/src/CardDatabase.java:57-60 | in a valid tree a `(HMissing, discardTime)` key names at most one card |
| DiscardTrees.ValidKeysDistinct | project1/src/CardDatabase.java:57-60 | no two cards of a valid tree share a key |
| DiscardTrees.LeftmostIsMin | project1/src/CardDatabase.java:98-99 | the leftmost card comes before every other card in the tree's order |
| DiscardTrees.FindMinIsFirst | project1/src/CardDatabase.java:98-99 | on either tree `findMin` returns the card that comes first in that tree's order |
| DiscardTrees.RebalancePreserves | project1/src/CardDatabase.java:101-126 | `rebalance` and the rotations keep the cards of any node |
| DiscardTrees.RebalanceCorrect | project1/src/CardDatabase.java:101-126 | over valid ordered children whose heights differ by at most 2, `rebalance` gives a valid AVL tree whose height is the taller child's or one more, and leaves an already balanced node alone |
| DiscardTrees.InsertCorrect | project1/src/CardDatabase.java:38-61 | `insert` keeps the tree valid, adds the card exactly when its key is absent and otherwise returns the tree unchanged, and grows the height by at most 1 |
| DiscardTrees.DeleteCorrect | project1/src/CardDatabase.java:63-97 | `delete` keeps the tree valid, removes exactly the card with the given key (a two-child node takes its in-order successor), returns the tree unchanged when the key is absent, and lowers the height by at most 1 |
| DiscardTrees.WithoutPresentKey | project1/src/CardDatabase.java:63-97 | deleting a card that is in the tree removes that card alone and the count drops by one |
| DiscardTrees.RevivableUnique | project1/src/CardDatabase.java:128-147 | at most one card is the one a full revive takes |
| DiscardTrees.RevivableExists | project1/src/CardDatabase.java:128-147 | when some card's missing health is within the pool, a card a full revive takes exists |
| DiscardTrees.FindRevivableCorrect | project1/src/CardDatabase.java:128-147 | on the descending tree the search returns null exactly when no card's missing health is within the pool, and otherwise the card with the largest such missing health, the earliest discard time among ties |
| DiscardTrees.RotateRight | project1/src/CardDatabase.java:115-120 | the rotated subtree is a node holding the same cards |
| DiscardTrees.RotateLeft | project1/src/CardDatabase.java:121-126 | the rotated subtree is a node holding the same cards |
| DiscardTrees.Rebalance | project1/src/CardDatabase.java:101-112 | the fix-up keeps the cards and leaves a non-empty subtree non-empty; balance and order are stated by RebalanceCorrect |
| DiscardTrees.Insert | project1/src/CardDatabase.java:39-61 | the result is non-empty, keeps every card and adds at most the new one; InsertCorrect states when it is added |
| DiscardTrees.Delete | project1/src/CardDatabase.java:66-97 | the result holds no card that was not there; DeleteCorrect states which card leaves |
| CardDatabases.DiscardTree.constructor | project1/src/CardDatabase.java:29-31 | a new discard tree is empty and keeps its direction flag |
| CardDatabases.DiscardTree.Insert | project1/src/CardDatabase.java:38 | the root becomes `insert(root, card)`; the cards gain the card exactly when its key is absent |
| CardDatabases.DiscardTree.Delete | project1/src/CardDatabase.java:63 | the root becomes `delete(root, card)`; the card with the card's key leaves, and a present card leaves alone |
| CardDatabases.DiscardTree.FindMin | project1/src/CardDatabase.java:98-99 | null exactly on an empty tree, otherwise the first card in the tree's order |
| CardDatabases.DiscardTree.FindRevivable | project1/src/CardDatabase.java:128-133 | a result is a card of the tree the pool can pay for; on the descending tree it is the largest affordable missing health, earliest discard first |
| CardDatabases.DiscardTree.Size | project1/src/CardDatabase.java:35-36 | the number of cards in the tree |
| CardDatabases.AsDeckCard | project1/src/CardDatabase.java:179-181 | a card entering the deck has revival progress 0 and discard time -1 and is otherwise unchanged |
| CardDatabases.AsDiscarded | project1/src/CardDatabase.java:197-200 | a card entering the pile has no health, no progress and the given discard time, and is otherwise unchanged |
| CardDatabases.Priority | project1/src/CardDatabase.java:219-282 | the best class the deck offers is in 0..4, and 0 exactly for an empty deck |
| CardDatabases.PriorityFallsToP4 | project1/src/CardDatabase.java:228-231 | a deck with no card of classes 1-3 offers class 4, or 0 when empty |
| CardDatabases.PriorityIsP3 | project1/src/CardDatabase.java:249-258 | without cards of classes 1-2 the first class-3 card is the battle choice |
| CardDatabases.BestCardUnique | project1/src/CardDatabase.java:219-288 | the battle choice (card and priority) is determined by the deck |
| CardDatabases.PileGrows | project1/src/CardDatabase.java:197-204 | a card discarded after every card of the pile shares no key with them, and the pile grows by one |
| CardDatabases.PlanDone | project1/src/CardDatabase.java:308-315 | with no pool or no affordable card the loop revives nothing |
| CardDatabases.PlanCons | project1/src/CardDatabase.java:312-333 | one pass revives the card `findRevivable` picks, pays its missing health and continues on the rest |
| CardDatabases.PlanUnique | project1/src/CardDatabase.java:312-333 | the full-revive loop has at most one run for a pile and a pool |
| CardDatabases.PlanExists | project1/src/CardDatabase.java:312-333 | on a pile with distinct keys the loop always has a run |
| CardDatabases.PlanSound | project1/src/CardDatabase.java:312-333 | the run splits the pile into revived cards (each once) and the rest, pays exactly the revived cards' missing health, never drives a positive pool negative, and stops only when the pool is spent or nothing left is affordable |
| CardDatabases.PlanStep | project1/src/CardDatabase.java:314-327 | after k revives the card `findRevivable` returns is the run's next card |
| CardDatabases.PlanStop | project1/src/CardDatabase.java:312-315 | when the loop stops the run is complete |
| CardDatabases.Revived | project1/src/CardDatabase.java:330-332 | a revived card re-enters the deck at full health with 90% of its base attack and the entry time given |
| CardDatabases.RevivedCardsShape | project1/src/CardDatabase.java:310-332 | the revived cards get consecutive entry times from the base on, so there are as many as cards revived |
| CardDatabases.PartialRevives | project1/src/CardDatabase.java:336-352 | one partial revive happens exactly when both pool and pile are left over |
| CardDatabases.CardDatabase.constructor | project1/src/CardDatabase.java:164-171 | a new database has an empty deck and pile, zero counts and three fresh trees |
| CardDatabases.CardDatabase.Insert | project1/src/CardDatabase.java:179-184 | the card, marked as a deck card, enters the deck unless already present; the deck count goes up either way |
| CardDatabases.CardDatabase.Remove | project1/src/CardDatabase.java:189-192 | the card with the card's identity leaves the deck; the count goes down either way |
| CardDatabases.CardDatabase.AddToDiscard | project1/src/CardDatabase.java:197-204 | the card enters both discard trees with no health, no progress and the next discard time; the counter and count go up |
| CardDatabases.CardDatabase.FindBestCard | project1/src/CardDatabase.java:219-283 | the priority skipping picks the same card and priority as trying classes 1-4 in order |
| CardDatabases.CardDatabase.FindAndRemoveBestCard | project1/src/CardDatabase.java:219-289 | the best card and its priority (0 on an empty deck) is returned and removed from the deck |
| CardDatabases.CardDatabase.FindAndRemoveStealCard | project1/src/CardDatabase.java:294-301 | the steal search's card is returned and removed from the deck; null leaves the deck alone |
| CardDatabases.CardDatabase.HealCards | project1/src/CardDatabase.java:307-354 | the revived cards are the unique run of the loop, returned as the count; they leave the pile and enter the deck with consecutive entry times; a pool left over partially revives the pile's first ascending card with the next discard time |
| CardDatabases.CardDatabase.ReviveAll | project1/src/CardDatabase.java:312-333 | the loop performs exactly the run `IsPlan` describes and leaves the pool and pile the run leaves |
| CardDatabases.CardDatabase.FinishHeal | project1/src/CardDatabase.java:335-352 | the pile after the partial revive is `HealedPile` of the run |
| CardDatabases.CardDatabase.PartialRevive | project1/src/CardDatabase.java:338-350 | the pile's first card in ascending order takes the remaining pool and the next discard time; the deck is unchanged |
| CardDatabases.CardDatabase.AddAsNewest | project1/src/CardDatabase.java:200-203 | the card, stamped with the current discard time, joins the pile, the counter advances and the count grows by one |
| CardDatabases.CardDatabase.AddToPile | project1/src/CardDatabase.java:201-203 | a card newer than the whole pile joins both discard trees and the count grows by one; the deck is untouched |
| CardDatabases.CardDatabase.RemoveFromPile | project1/src/CardDatabase.java:325-327 | a card of the pile leaves both discard trees and the count drops by one; the deck is untouched |
| CardDatabases.CardDatabase.TryFromP1 | project1/src/CardDatabase.java:263-281 | trying P1, then P2, P3 and P4 in turn gives the best class's card |
| CardDatabases.CardDatabase.TryFromP2 | project1/src/CardDatabase.java:235-247 | with no P1 card in the deck, trying P2, P3 and P4 in turn gives the best class's card |
| CardDatabases.CardDatabase.TryFromP3 | project1/src/CardDatabase.java:251-258 | with no P1 or P2 card, trying P3 then P4 gives the best class's card |
| CardDatabases.CardDatabase.TryFromP4 | project1/src/CardDatabase.java:230-231 | with no P1, P2 or P3 card in the deck, the P4 search gives the best class's card |
| Games.StrangerPoints | project1/src/Main.java:163-165 | the stranger scores 0, 1 or 2, and 2 exactly when the card died |
| Games.SurvivorPoints | project1/src/Main.java:161-166 | the survivor scores 0, 1 or 2, and 2 exactly when the stranger's 32-bit health after the hit is at most 0 |
| Games.StrangerAlwaysScores | project1/src/Main.java:160-165 | a living card at most at its base health hit by a positive attack always gives the stranger a point, and two exactly when the attack is at least its health |
| Games.SurvivorAlwaysScores | project1/src/Main.java:161-166 | a living stranger hit by a positive attack always gives the survivor a point, and two exactly when the attack is at least its health |
| Games.FreshEntryAbsent | project1/src/Main.java:137-138 | a card with an entry time later than every deck card's is new to the deck |
| Games.JoinDeck | project1/src/Main.java:178-179 | a card entering with a fresh entry time grows the deck by one |
| Games.RevivedJoinDeck | project1/src/Main.java:186-190 | the revived cards are new to the deck, which grows by their number |
| Games.LeaveDeck | project1/src/Main.java:149 | taking a present card out of the deck lowers its size by one |
| Games.Game.constructor | project1/src/Main.java:62-64 | a new game has an empty deck and pile, counter 0 and both scores 0 |
| Games.Game.Enter | project1/src/Main.java:137-138 | the card enters the deck with the next entry time and the counter advances |
| Games.Game.DrawCard | project1/src/Main.java:132-141 | `draw_card`: a new card with the next entry time joins the deck; it was not there before |
| Games.Game.HealingPhase | project1/src/Main.java:186-191 | a zero pool revives nothing; otherwise `healCards` runs with the counter as first entry time and the counter moves past the entry times given |
| Games.Game.Draw | project1/src/Main.java:149-151 | the best card for the battle and its priority leave the deck |
| Games.Game.Score | project1/src/Main.java:159-166 | the card takes the stranger's attack and the stranger the card's attack from before the hit; each score grows by its points |
| Games.Game.DiscardThenHeal | project1/src/Main.java:168-172 | a dead card enters the pile with the next discard time, then the healing phase runs on the grown pile |
| Games.Game.HealThenReturn | project1/src/Main.java:172-179 | the healing phase runs first, then the surviving card returns to the deck with the next entry time |
| Games.Game.Settle | project1/src/Main.java:168-183 | a dead card is discarded before the healing phase, a survivor returns after it |
| Games.Game.NoCardToPlayPhase | project1/src/Main.java:154-157 | with no card to play the stranger scores 2 and the healing phase runs |
| Games.Game.Play | project1/src/Main.java:158-183 | the played card is scored, then discarded or returned, with the healing phase between |
| Games.Game.Battle | project1/src/Main.java:144-184 | no card to play exactly when the deck was empty; otherwise the best card by priority fights, is discarded exactly when it died, and both scores grow by their points |
| Games.Game.StealCard | project1/src/Main.java:193-202 | `steal_card`: the steal search's card leaves the deck, and none leaves when there is none |
| Games.Game.DeckCount | project1/src/Main.java:103-104 | `deck_count` reports the number of cards in the deck |
| Games.Game.DiscardPileCount | project1/src/Main.java:106-107 | `discard_pile_count` reports the number of cards in the pile |
| Games.Game.FindWinning | project1/src/Main.java:204-210 | the survivor wins exactly when its score is at least the stranger's, and the winner's score is the larger one |
| Games.Game.Advance | project1/src/Main.java:188-189 | the entry-time counter moves on by the number of revived cards; the scores are unchanged |
| FreelancerTrees.HeightOf | project2/src/AvlTree.java:15-17 | a missing child counts as height -1, a present one as at least 0 |
| FreelancerTrees.UpdateHeight | project2/src/AvlTree.java:28-42 | the four cases of `updateHeight` give one more than the taller child's height, a missing child counting as -1; nothing else of the node changes |
| FreelancerTrees.GetBalance | project2/src/AvlTree.java:14-19 | the four cases of `getBalance` give the left child's height minus the right child's, a missing child counting as -1 |
| FreelancerTrees.Compare | project2/src/AvlTree.java:47-56 | 1, -1 or 0 exactly when the first freelancer ranks above, below or on the same (score, id) key as the second |
| FreelancerTrees.RightRotate | project2/src/AvlTree.java:59-73 | the rotated subtree is a node holding the same freelancers |
| FreelancerTrees.LeftRotate | project2/src/AvlTree.java:76-90 | the rotated subtree is a node holding the same freelancers |
| FreelancerTrees.Balance | project2/src/AvlTree.java:91-117 | the balanced subtree is a node holding the same freelancers |
| FreelancerTrees.Successor | project2/src/AvlTree.java:163-170 | the successor is a node of the subtree with no left child |
| FreelancerTrees.Eligible | project2/src/AvlTree.java:182 | the non-blacklisted freelancers, exactly, in the order given |
| FreelancerTrees.Take | project2/src/AvlTree.java:178-183 | the first k elements, or all when fewer |
| FreelancerTrees.FindBestHelper | project2/src/AvlTree.java:177-186 | the walk appends to `best` the first eligible freelancers of the subtree in decreasing rank, until `best` holds n |
| FreelancerTrees.AvlTree.constructor | project2/src/AvlTree.java:27 | a new tree is empty |
| FreelancerTrees.AvlTree.FindBest | project2/src/AvlTree.java:171-175 | the first n non-blacklisted freelancers of the tree in decreasing rank |
| FreelancerTrees.AboveIsStrictOrder | project2/src/AvlTree.java:47-56 | the ranking `compare` defines is irreflexive, asymmetric, transitive and total on distinct keys |
| FreelancerTrees.CompareAntisymmetric | project2/src/AvlTree.java:47-56 | swapping the arguments of `compare` flips its sign |
| FreelancerTrees.OrderedIffAscending | project2/src/AvlTree.java:118-129 | a tree is in search order exactly when its in-order sequence strictly increases in rank |
| FreelancerTrees.DescendingSorted | project2/src/AvlTree.java:177-186 | the walk order of `findBestHelper` strictly decreases in rank |
| FreelancerTrees.RightRotateKeepsOrder | project2/src/AvlTree.java:59-73 | `rightRotate` keeps the in-order sequence |
| FreelancerTrees.LeftRotateKeepsOrder | project2/src/AvlTree.java:76-90 | `leftRotate` keeps the in-order sequence |
| FreelancerTrees.BalanceKeepsOrder | project2/src/AvlTree.java:91-117 | `balance` keeps the in-order sequence; it leaves a node whose children differ by at most one alone and otherwise moves the node down to its lighter side |
| FreelancerTrees.InsertCorrect | project2/src/AvlTree.java:118-129 | `insert` keeps search order and adds the freelancer exactly when no freelancer with its key is present |
| FreelancerTrees.InsertLeftSkipsRebalance | project2/src/AvlTree.java:121-125 | after a left descent `insert` returns the node with its old height and without rebalancing |
| FreelancerTrees.FindBestSound | project2/src/AvlTree.java:171-186 | at most n freelancers, none blacklisted, all from the tree, in strictly decreasing rank, and every eligible freelancer left out ranks below all of them |
| FreelancerTrees.EligibleDescends | project2/src/AvlTree.java:182 | dropping the blacklisted freelancers keeps a decreasing run decreasing |
| FreelancerTrees.SuccessorIsLowest | project2/src/AvlTree.java:163-170 | the successor holds the lowest-ranked freelancer of the subtree |
| FreelancerTrees.DeleteCorrect | project2/src/AvlTree.java:130-162 | `delete` keeps search order and removes exactly the freelancer with the given key, leaving the rest |
| FreelancerTrees.Insert | project2/src/AvlTree.java:118-129 | the result is non-empty, keeps every freelancer and adds at most f; InsertCorrect states when f is added |
| FreelancerTrees.Delete | project2/src/AvlTree.java:130-162 | the result holds no freelancer that was not there; DeleteCorrect states which one leaves |
| Platform.ServiceIndex | project2/src/Main.java:570-596 | a service name selects a tree exactly when it is one of the ten services, and then the tree of that name |
| Platform.SkillGains | project2/src/Main.java:446-534 | +2 to one primary skill and +1 to two secondaries for a known service, nothing for an unknown one; a skill gains more than another only if its weight in `skillScore` is at least as large |
| Platform.GainRow | project2/src/Main.java:460-533 | each of the ten cases gains +2 once and +1 twice, in line with that service's skill weights |
| Platform.SkillWeights | project2/src/Freelancer.java:45-91 | five weights for a service, as in `skillScore` |
| Platform.UpdateFreelancerSkills | project2/src/Main.java:446-543 | each skill becomes min(100, skill + gain); none ends above 100, a skill at most 100 does not drop and rises by at most its gain; nothing else changes |
| Platform.SkillDegradation | project2/src/Main.java:549-553 | each skill becomes max(0, skill - 3), never negative and at most 3 lower; nothing else changes |
| Platform.LoyaltyTier | project2/src/Main.java:557-569 | the tier's rank is how many of the thresholds 500, 2000 and 5000 the points reach |
| Platform.LoyaltyTierMonotone | project2/src/Main.java:557-569 | more points never give a lower tier |
| Platform.Customer.constructor | project2/src/Customer.java:10-17 | a new customer has the id, Bronze tier, an empty blacklist and all counters 0 |
| Platform.UpdateLoyaltyTier | project2/src/Main.java:557-569 | the customer's tier follows its points and nothing else about the customer changes |
| Platform.Marketplace.constructor | project2/src/Main.java:9-22 | empty tables and ten empty, distinct trees |
| Platform.Marketplace.NewTrees | project2/src/Main.java:13-22 | n fresh, empty, pairwise distinct trees |
| Platform.Marketplace.GetServiceTree | project2/src/Main.java:570-596 | the tree of a known service, else null |
| Platform.Marketplace.RegisterCustomer | project2/src/Main.java:71-79 | the customer is always stored under its id, replacing any earlier one, since the error message is overwritten; freelancers are untouched |
| Platform.Marketplace.RegisterFreelancer | project2/src/Main.java:81-109 | accepted exactly when all skills are within 0..100, the id is neither a freelancer's nor a customer's, the service is known and the price positive; then stored and inserted into its service's tree alone, else nothing changes |
| Platform.Marketplace.FreshIdAbsent | project2/src/Main.java:92-106 | a freelancer whose id is not registered is in no tree |
| Platform.Marketplace.ServiceTreesDistinct | project2/src/Main.java:570-596 | two different service names select two different trees |
| HashTables.HashCode | project3/src/HashTable.java:28 | `String.hashCode` is a 32-bit value |
| HashTables.Index | project3/src/HashTable.java:27-29 | `hash(key)` is a bucket index below the capacity |
| HashTables.Found | project3/src/HashTable.java:53-56 | a key found in its bucket is in the table's map, with that entry's value |
| HashTables.NotFound | project3/src/HashTable.java:50-58 | a key missing from its bucket is not in the map |
| HashTables.OverwriteValid | project3/src/HashTable.java:36-40 | overwriting a key's entry in its bucket represents the map with the key's new value |
| HashTables.AppendValid | project3/src/HashTable.java:42 | appending a new key's entry to its bucket represents the map with the key added |
| HashTables.RemoveValid | project3/src/HashTable.java:79-83 | deleting a key's entry from its bucket represents the map without the key |
| HashTables.RehashStep | project3/src/HashTable.java:66-70 | each entry `resize` puts again is new to the map built so far, which then covers one more entry |
| HashTables.DoneAll | project3/src/HashTable.java:66-72 | once every old bucket is rehashed, every key of the map has been put again |
| HashTables.HashTable.constructor | project3/src/HashTable.java:17-21 | eleven empty buckets representing the empty map |
| HashTables.HashTable.WithCapacity | project3/src/HashTable.java:22-26 | the given number of empty buckets representing the empty map |
| HashTables.HashTable.Put | project3/src/HashTable.java:30-47 | the map gains or updates the key; a new key raises the size by one and doubles the capacity exactly when size/capacity exceeds 0.75; an existing key changes neither |
| HashTables.HashTable.Resize | project3/src/HashTable.java:61-73 | the capacity doubles and the table, now in fresh buckets, still represents the same map with the same size |
| HashTables.HashTable.PutAll | project3/src/HashTable.java:66-72 | putting the entries of every old bucket into the doubled table rebuilds the old map |
| HashTables.HashTable.PutBucket | project3/src/HashTable.java:67-71 | putting the entries of one old bucket extends the rebuilt map by that bucket's keys |
| HashTables.HashTable.Get | project3/src/HashTable.java:48-59 | the value stored under the key, or null when it is absent |
| HashTables.HashTable.ContainsKey | project3/src/HashTable.java:99-110 | true exactly when the key is in the map |
| HashTables.HashTable.Remove | project3/src/HashTable.java:74-87 | the key leaves the map; the size drops by one exactly when it was there |
| HashTables.HashTable.Values | project3/src/HashTable.java:88-98 | as many values as the size; every value returned is stored under some key and every stored value is returned; one value per key of the map, each key once |
| HashTables.ValuesOfKeys | project3/src/HashTable.java:88-98 | values read off a duplicate-free list of all the keys are exactly the values of the map |
| HashTables.AbsHashCode | project3/src/HashTable.java:28 | `Math.abs(key.hashCode())`: the hash code or its negation, within the int range except for a hash code of Integer.MIN_VALUE |
| MinHeaps.LeTrans | project3/src/MinHeap.java:1 | the `<=` derived from `compareTo` is transitive |
| MinHeaps.MinChild | project3/src/MinHeap.java:31-34 | the child `percolateDown` picks is one of the hole's two children and within the heap |
| MinHeaps.RootIsMinimum | project3/src/MinHeap.java:20-22 | in a heap the root is one of the elements and `<=` every element |
| MinHeaps.RiseOrdered | project3/src/MinHeap.java:14-18 | the upward pass of `offer` restores heap order |
| MinHeaps.RiseElems | project3/src/MinHeap.java:14-18 | the upward pass keeps the elements, with the new item in the hole |
| MinHeaps.SinkOrdered | project3/src/MinHeap.java:27-42 | the downward pass of `percolateDown` restores heap order |
| MinHeaps.SinkElems | project3/src/MinHeap.java:27-42 | the downward pass keeps the elements, with the sinking one in the hole |
| MinHeaps.OfferKeepsHeap | project3/src/MinHeap.java:10-19 | `offer` on a heap of m elements gives a heap of m + 1 elements: the old ones and the item |
| MinHeaps.PollOrdered | project3/src/MinHeap.java:20-26 | the root is a least element, and moving the last element into it and sinking it leaves a heap |
| MinHeaps.PollElems | project3/src/MinHeap.java:20-26 | after `poll` all elements but the root remain |
| MinHeaps.MinHeap.constructor | project3/src/MinHeap.java:5-8 | an empty heap over eleven slots |
| MinHeaps.MinHeap.IsEmpty | project3/src/MinHeap.java:43-45 | true exactly when the heap holds no element |
| MinHeaps.MinHeap.Resize | project3/src/MinHeap.java:47-51 | a fresh array twice as long starting with the old slots; same elements |
| MinHeaps.MinHeap.Offer | project3/src/MinHeap.java:10-19 | the heap keeps its order and gains the item; the size grows by one and stays below the array's length |
| MinHeaps.MinHeap.PercolateUp | project3/src/MinHeap.java:14-18 | the slots become the upward pass applied with the item in the sentinel slot |
| MinHeaps.MinHeap.Poll | project3/src/MinHeap.java:20-26 | null exactly on an empty heap; otherwise a least element, removed, with the heap order kept |
| MinHeaps.MinHeap.PercolateDown | project3/src/MinHeap.java:27-42 | the slots become the downward pass of the hole's element |
| MinHeaps.Rise | project3/src/MinHeap.java:14-18 | the `offer` loop moves parents down into the hole and leaves the slot count unchanged; order and elements are stated by RiseOrdered and RiseElems |
| MinHeaps.Sink | project3/src/MinHeap.java:27-42 | the `percolateDown` loop moves the smaller child up into the hole and leaves the slot count unchanged; order and elements are stated by SinkOrdered and SinkElems |
| TraceNodes.IntCompare | project3/src/TraceNode.java:18 | `Integer.compare` is -1, 0 or 1 exactly as the first value is below, equal to or above the second |
| TraceNodes.CompareByLatency | project3/src/TraceNode.java:17-19 | differing latencies decide the comparison, by their order |
| TraceNodes.CompareByHops | project3/src/TraceNode.java:20-22 | equal latencies and differing hops: the hop counts decide |
| TraceNodes.CompareByPath | project3/src/TraceNode.java:23 | equal latencies and hops: the path strings decide, 0 only for equal strings |
| TraceNodes.CompareZero | project3/src/TraceNode.java:16-24 | `compareTo` is 0 exactly when latency, hops and path all agree |
| TraceNodes.CompareIsPrecedes | project3/src/TraceNode.java:16-24 | a negative result means exactly less latency, then fewer hops, then a lexicographically smaller path |
| TraceNodes.CompareAntisymmetric | project3/src/TraceNode.java:16-24 | swapping the arguments flips the sign |
| TraceNodes.CompareTransitive | project3/src/TraceNode.java:16-24 | below is transitive |
| TraceNodes.CompareNotBelowTransitive | project3/src/TraceNode.java:16-24 | not-below is transitive, so `compareTo` is a total preorder |
| TraceNodes.CompareIsOrder | project3/src/TraceNode.java:2 | `compareTo` meets what the min-heap relies on |
| TraceNodes.Compare | project3/src/TraceNode.java:16-24 | 0 when latency, hops and path agree, and -1 or 1 when latency or hops differ; order laws are stated by the lemmas below |
| Nodes.FirstToIsFirst | project3/src/Node.java:35-42 | a link to the host is found exactly when one exists, and it is the first such link in the list |
| Nodes.CountToHas | project3/src/Node.java:19-26 | a link to the host exists exactly when the count of such links is positive |
| Nodes.WithoutMembers | project3/src/Node.java:51-53 | `removeLink` keeps exactly the links that lead elsewhere |
| Nodes.WithoutNone | project3/src/Node.java:51-53 | without a link to the host, removing its links changes nothing |
| Nodes.WithoutOnly | project3/src/Node.java:51-60 | taking out the only link to a host and appending it again keeps the multiset of links |
| Nodes.Node.constructor | project3/src/Node.java:10-18 | a new node has its id, clearance level and index, no links and no seals, and distance `Integer.MAX_VALUE` |
| Nodes.Node.HasLinkTo | project3/src/Node.java:19-26 | true exactly when some link leads to the other node |
| Nodes.Node.HasSealTo | project3/src/Node.java:27-34 | true exactly when some seal leads to the other node |
| Nodes.Node.GetLinkTo | project3/src/Node.java:35-42 | the first link to the other node, or null |
| Nodes.Node.GetSealTo | project3/src/Node.java:43-50 | the first seal to the other node, or null |
| Nodes.Node.RemoveLink | project3/src/Node.java:51-53 | every link to the other node is dropped, the rest kept in order; the seals are untouched |
| Nodes.Node.RemoveSeal | project3/src/Node.java:54-56 | every seal to the other node is dropped, the rest kept in order; the links are untouched |
| Nodes.Node.AddLink | project3/src/Node.java:57-59 | the link is appended; the seals are untouched |
| Nodes.Node.AddSeal | project3/src/Node.java:60-62 | the seal is appended; the links are untouched |
| Nodes.Node.CompareTo | project3/src/Node.java:65-69 | -1, 0 or 1 exactly as this node's distance is below, equal to or above the other's |
| Backdoors.ConnectLists | project3/src/Graph.java:29-30 | `addLink` appends a link to the other end on each end's list and changes no other list |
| Backdoors.CutLists | project3/src/Graph.java:265-266 | removing the links on both ends changes only those two lists |
| Backdoors.RestoreLists | project3/src/Graph.java:269-270 | putting back the first links found appends them to the two ends' lists only |
| Backdoors.ConnectKeeps | project3/src/Graph.java:23-32 | linking two hosts with no backdoor between them keeps the backdoors mirrored, in range and single, and links exactly the new pair besides the old ones |
| Backdoors.CutKeeps | project3/src/Graph.java:265-266 | dropping a backdoor on both ends keeps the invariant |
| Backdoors.NetworkGrow | project3/src/Graph.java:14-22 | a new host without backdoors keeps the invariant |
| Backdoors.SealKeeps | project3/src/Graph.java:47-55 | sealing a backdoor between distinct hosts keeps the invariant and leaves it sealed, not unsealed |
| Backdoors.UnsealKeeps | project3/src/Graph.java:57-65 | unsealing a sealed backdoor between distinct hosts keeps the invariant and leaves it unsealed, not sealed |
| Backdoors.SealUnseal | project3/src/Graph.java:40-67 | sealing a backdoor and then unsealing it gives every host back the same multiset of links and the same seals |
| Backdoors.CutRestore | project3/src/Graph.java:263-270 | the bridge check's remove-and-put-back leaves every list leading to the same hosts, so the invariant holds again |
| Backdoors.CutRestorePermutes | project3/src/Graph.java:263-270 | for distinct hosts the remove-and-put-back gives every list back the same multiset of links; only the order changes |
| Backdoors.MirroredSymmetric | project3/src/Graph.java:29-30 | with mirrored backdoors every edge can be walked back |
| Backdoors.Connect | project3/src/Graph.java:29-30 | adding a backdoor keeps the number of hosts; ConnectLists states the two appended links |
| Backdoors.Cut | project3/src/Graph.java:265-266 | removing a backdoor keeps the number of hosts; CutLists states the two shortened lists |
| Backdoors.Restore | project3/src/Graph.java:269-270 | re-adding a backdoor keeps the number of hosts; RestoreLists states the two appended links |
| Reachability.ReachesTrans | project3/src/Graph.java:174-187 | walks over unsealed backdoors compose |
| Reachability.ClosedReach | project3/src/Graph.java:174-187 | a set closed under the edges that holds the start holds everything the start reaches |
| Reachability.ReachSetClosed | project3/src/Graph.java:189-205 | the set a node reaches is closed under the edges not into the excluded node |
| Reachability.ScanSkip | project3/src/Graph.java:230-235 | the scan passing over the excluded node or a node already marked changes neither the covered nodes nor the count |
| Reachability.ScanStart | project3/src/Graph.java:234-237 | a node nothing before it reaches starts a new component, which is its reach set |
| Reachability.CoveredClosed | project3/src/Graph.java:214-219 | the nodes covered by the searches so far are closed under the edges |
| Reachability.ReachesBack | project3/src/Graph.java:180-184 | with symmetric edges reaching is symmetric |
| Reachability.LeaderReaches | project3/src/Graph.java:214-219 | every node other than the excluded one is reached from a node at which the scan started a component |
| Reachability.LeadersApart | project3/src/Graph.java:214-219 | with symmetric edges no node is reached from two component starts: the count is that of the connected components |
| Graphs.OneComponent | project3/src/Graph.java:153-172 | with at least two hosts the scan counts one component exactly when every host (other than the excluded one) reaches every other |
| Graphs.MarkOne | project3/src/Graph.java:181-183 | marking a new host adds it to the marked set and leaves one fewer unmarked |
| Graphs.SearchDone | project3/src/Graph.java:178-186 | a search whose queue is empty has marked exactly the marked hosts before plus the start's reach set |
| Graphs.ForestNoCycle | project3/src/Graph.java:317-342 | a spanning forest in which every edge joins a host to its parent has no cycle |
| Graphs.Graph.constructor | project3/src/Graph.java:9-12 | no hosts, an empty table and the counter at 0 |
| Graphs.Graph.AddNode | project3/src/Graph.java:14-22 | refused exactly for a known id, with nothing changed; otherwise a fresh host without backdoors, numbered by the counter, is appended and registered |
| Graphs.Graph.AddLink | project3/src/Graph.java:23-32 | refused exactly for an unknown id or hosts already sharing a backdoor, sealed or not; otherwise each end gains a link to the other and nothing else changes |
| Graphs.Graph.Join | project3/src/Graph.java:29-30 | the two link additions of `addLink` |
| Graphs.Graph.SealNode | project3/src/Graph.java:40-67 | 0 exactly for an unknown id, equal ids or hosts with no backdoor, with nothing changed; 1 after moving an unsealed backdoor of both ends to their seals; 2 after moving a sealed one back |
| Graphs.Graph.SealPair | project3/src/Graph.java:47-55 | each end's link to the other moves to its seals |
| Graphs.Graph.UnsealPair | project3/src/Graph.java:57-65 | each end's seal to the other moves back to its links |
| Graphs.Graph.Bfs | project3/src/Graph.java:174-205 | the search marks exactly the hosts the start reaches over unsealed backdoors, never entering the excluded host, in addition to those already marked |
| Graphs.Graph.CountComponents | project3/src/Graph.java:208-240 | the number of times the scan finds an unmarked host other than the excluded one, 1 for at most one host |
| Graphs.Graph.ScanConnectivity | project3/src/Graph.java:153-172 | fully connected exactly when the scan counts one component, otherwise the count |
| Graphs.Graph.SimulateHostBreach | project3/src/Graph.java:241-256 | an error exactly for an unknown id; an articulation point exactly when leaving the host out gives more components than the whole network, with that count |
| Graphs.Graph.SimulateBackDoorBreach | project3/src/Graph.java:257-277 | an error exactly for an unknown id or no unsealed backdoor between the hosts; a bridge exactly when the network without it has more than one component, with that count; afterwards each list leads where it did, the same multiset of links for distinct hosts |
| Graphs.Graph.Breach | project3/src/Graph.java:263-270 | the links between the hosts are taken out, the components counted, and the first link of each end put back |
| Graphs.Graph.Detach | project3/src/Graph.java:265-266 | the two `removeLink` calls |
| Graphs.Graph.Reattach | project3/src/Graph.java:269-270 | the two `addLink` calls that put the found links back |
| Graphs.Graph.ContainsCycle | project3/src/Graph.java:317-327 | false means the unsealed backdoors contain no cycle |
| Graphs.Graph.SearchAll | project3/src/Graph.java:319-326 | when no search reports a cycle, the searches built a spanning forest holding every edge |
| Graphs.Graph.DfsCycle | project3/src/Graph.java:329-342 | the search marks `current` as a child of `parent` and extends the forest; false means every edge out of the hosts it marked joins a host to its parent or a child |
| Graphs.Graph.SealEnds | project3/src/Graph.java:48-53 | each end's first link to the other moves from its links to the end of its seals |
| Graphs.Graph.UnsealEnds | project3/src/Graph.java:58-63 | each end's first seal to the other moves from its seals to the end of its links |
| Commands.IsAllowedIff | project3/src/Main.java:112-114 | an id is allowed exactly when it is a non-empty run of upper-case letters, digits and underscores |
| Commands.IsAllowedJoin | project3/src/Main.java:112-114 | two allowed ids joined make an allowed id |
| Commands.IsAllowedRefuses | project3/src/Main.java:112-114 | an id with a character outside the pattern anywhere is refused |
| Commands.SpawnHost | project3/src/Main.java:48-61 | a refused id or a taken id is an error with no change; a missing or unparsable clearance a processing error; otherwise the host is added |
| Commands.LinkBackdoor | project3/src/Main.java:62-70 | a link both ways between two known hosts with no backdoor between them, otherwise an error with no change |
| Commands.SealBackdoor | project3/src/Main.java:71-82 | code 0 is an error with no change, 1 a sealed backdoor, 2 an unsealed one |
| Commands.SimulateBreach | project3/src/Main.java:89-94 | two tokens breach a host, more breach a backdoor; the network is as it was afterwards up to link order |
| Commands.ProcessCommand | project3/src/Main.java:38-111 | the first token picks the case and each case does what its predicate states; an unknown operation is reported with no change |
| Commands.IsAllowed | project3/src/Main.java:112-114 | an allowed id is non-empty and made of upper-case letters, digits and underscores only; IsAllowedIff gives the converse |
| AttackTrees.RightmostNode | project1/src/AttackTree.java:472-476 | the loop that follows `right` links stops at a node without a right child |
| AttackTrees.CardBounds | project1/src/AttackTree.java:221-252 | every card of the deck lies within the root's `A_max_subtree`, `H_min_subtree` and `H_max_subtree` |
| AttackTrees.AttackAggregateSound | project1/src/AttackTree.java:221-252 | `A_max_subtree` bounds every attack key below and is one of them, or 0 for an empty subtree |
| AttackTrees.HealthAggregatesSound | project1/src/AttackTree.java:221-252 | the outer `H_min_subtree`/`H_max_subtree` bound every card's health below and are attained, or are the empty values |
| AttackTrees.NewNode | project1/src/AttackTree.java:206-214 | `new AttackNode(card)`: a node keyed by the card's attack whose only card is that card |
| AttackTrees.RotateRight | project1/src/AttackTree.java:346-352 | the rotated subtree is a node holding the same cards |
| AttackTrees.RotateLeft | project1/src/AttackTree.java:353-359 | the rotated subtree is a node holding the same cards |
| AttackTrees.Rebalance | project1/src/AttackTree.java:334-345 | the fix-up keeps the cards and leaves a non-empty subtree non-empty; balance and order are stated by RebalanceCorrect |
| AttackTrees.Insert | project1/src/AttackTree.java:260-276 | the result is non-empty, keeps every card and adds at most the new one; InsertCorrect states the rest |
| AttackTrees.Delete | project1/src/AttackTree.java:281-300 | the result holds no card that was not there; DeleteCorrect and DeleteAbsent state which card leaves |
| AttackTrees.DeleteOuterNode | project1/src/AttackTree.java:302-324 | the result holds no card that was not there; DeleteOuterCorrect states that exactly the key's cards leave |
| HealthTrees.HealthBounds | project1/src/AttackTree.java:46-65 | every health in an inner subtree lies between its `H_min_subtree` and `H_max_subtree` |
| HealthTrees.MaxAttained | project1/src/AttackTree.java:46-65 | `H_max_subtree` is the health of some card below, or 0 for an empty subtree |
| HealthTrees.MinAttained | project1/src/AttackTree.java:46-65 | `H_min_subtree` is the health of some card below, or Integer.MAX_VALUE for an empty subtree |
| HealthTrees.RotateRight | project1/src/AttackTree.java:144-149 | the rotated subtree is a node holding the same cards |
| HealthTrees.RotateLeft | project1/src/AttackTree.java:150-155 | the rotated subtree is a node holding the same cards |
| HealthTrees.Rebalance | project1/src/AttackTree.java:130-141 | the fix-up keeps the cards and leaves a non-empty subtree non-empty; balance and order are stated by RebalanceCorrect |
| HealthTrees.Insert | project1/src/AttackTree.java:83-95 | the result is non-empty, keeps every card and adds at most the new one; InsertCorrect states when it is added |
| HealthTrees.Delete | project1/src/AttackTree.java:101-123 | the result holds no card that was not there; DeleteCorrect states which card leaves |

## Left out

- `Graph.traceRoute` (project3/src/Graph.java:79-147) is not modelled. It is a Dijkstra search with a latency-penalty heuristic that builds path strings and writes the shared `distance` fields of the nodes, and it promises no optimality that can be stated cleanly. `Commands.ProcessCommand` answers its command with `Omitted`.
- `Graph.oracleReport` (project3/src/Graph.java:278-310) is not modelled, because it depends on `BigDecimal` rounding division. `Commands.ProcessCommand` answers its command with `Omitted`.
- `Node.distance` and `TraceNode` are used only by `traceRoute`. They are modelled on their own, by `Nodes.Node.CompareTo` and the `TraceNodes` module. In `TraceNodes`, a host is an index rather than a `Node` reference.
- project3/src/Link.java is not part of this model. A link is the value `Nodes.Link`.
- File and stream I/O, token splitting and output formatting in the three `Main.java` files are left out.
  - Commands arrive as token sequences.
  - `Integer.parseInt` is a parameter `parse` that yields `None` where Java throws.
  - Results are the `Outcome` and report datatypes, not the printed strings.
  - A caught exception becomes `ProcessingError`.
- The network keeps its host table as a map, not as an instance of the project's own `HashTable`, which is modelled separately.
- Two Java overloads are merged into one member each. The two overloads of `bfs` become `Graphs.Graph.Bfs`, and the two of `scanConnectivityComponent` become `Graphs.Graph.CountComponents`, with an excluded node of -1 standing for "none".
- `Graphs.Graph.ContainsCycle`: only one direction is proved, that a `false` result means the network has no cycle over unsealed backdoors. The converse is not proved.
- `Games.Game.Battle`: its contract states the card chosen, whether it was discarded and both score changes. What happens to the pile and the deck in each branch is stated by `Games.Game.Play` and `Games.Game.NoCardToPlayPhase`, which `Battle` calls.
- The scores and the entry-time and discard-time counters are unbounded integers, so `int` and `long` overflow of these counters is not modelled. The 32-bit damage and attack arithmetic of `Card` is modelled.
- `Cards.ApplyFullRevive` and `Cards.ApplyPartialRevive`: the `A_base * 0.90` and `A_base * 0.95` double products are exact rationals rounded down (`Floor90`, `Floor95`), not IEEE doubles.
- Floating-point code in project2 is not modelled:
  - `Freelancer.updateCompScore` and `skillScore`. The composite score is a parameter `score` of `Platform.Marketplace.RegisterFreelancer`.
  - Rating averages.
  - Loyalty discounts.
- Cards and freelancers are values, not shared objects. The aliasing of one `Card` object between the deck and both discard trees, and in-place mutation seen through other references, are not captured. The deck and the piles hold card values, so two cards with equal fields are the same card.
- `CardDatabases.CardDatabase`: `deckCount` is kept as its own counter. Its equality with the size of the deck is proved at the level of `Games.Game`.
- The project2 `HashTable` behind `Customer.blacklisted` is not part of this model. The blacklist is a set of ids and the customer and freelancer tables are maps.
- `HashTables.AbsHashCode`: `Math.abs(Integer.MIN_VALUE)` is taken as the mathematical absolute value, 2^31, not Java's negative result (its contract says so: the value is within the int range unless the hash code is Integer.MIN_VALUE). For a key whose `hashCode` is Integer.MIN_VALUE, Java's `Math.abs(h) % capacity` is negative (-2 at the default capacity 11, and never 0 at any capacity 11 · 2^k, since 2^31 is not a multiple of 11), so `put`, `get`, `containsKey` and `remove` throw ArrayIndexOutOfBoundsException. The model instead files that key in bucket 2^31 mod capacity.
- `Lang.CompareStrings` and `HashTables.HashCode` work over Unicode scalar values (Dafny `char`), not Java's UTF-16 code units. For ids, names or paths holding characters outside the Basic Multilingual Plane the hash and the order differ from Java's: U+1F600 is one element here but a surrogate pair in Java, so its hash differs, and in Java it sorts below U+E000 (its first unit 0xD83D is below 0xE000) while here it sorts above.
- `HashTables.HashTable.Resize`: the overflow of `capacity * 2` beyond 32 bits is not modelled.
- The resize test `size / capacity > 0.75` is computed exactly, as `4 * size > 3 * capacity`.
- `AttackTree`'s shared `reusableSearchResult` holder is not modelled. Each search returns an `Option` instead.
