/** A card of the survival card game (project1/src/Card.java).

    A card is a record value here. The source mutates a `Card` object in place,
    and the same object sits in the deck or in both discard trees; the callers
    always take it out of every tree before changing it and put it back
    afterwards, so each mutator is modelled as a function from the old record
    to the new one. */
module Cards {
  import opened Lang

  datatype Card = Card(
    name: string,
    aInit: int, hInit: int,
    aBase: int, hBase: int,
    aCur: int, hCur: int,
    entryTime: int,          // insertion-order tiebreaker of the deck
    aCurBeforeDamage: int,   // attack used for the simultaneous counter-hit
    revivalProgress: int,    // health already restored while in the discard pile
    discardTime: int)        // tiebreaker of the discard pile, -1 while in the deck

  /** `new Card(name, attack, health, entryTime)`. */
  function NewCard(name: string, attack: int, health: int, entryTime: int): (c: Card)
    ensures c.aBase == c.aCur == c.aInit == attack
    ensures c.hBase == c.hCur == c.hInit == health
    ensures c.entryTime == entryTime && c.revivalProgress == 0 && c.discardTime == -1
  {
    Card(name, attack, health, attack, health, attack, health, entryTime, 0, 0, -1)
  }

  /** `getHMissing()`: the health a full revive still has to restore. */
  function HMissing(c: Card): (m: int)
    ensures 0 <= c.revivalProgress <= c.hBase ==> 0 <= m <= c.hBase
  {
    c.hBase - c.revivalProgress
  }

  /** Attack after damage: `A_base * H_cur / H_base` in 64-bit arithmetic,
      truncated, cast back to `int` and clamped below at 1; 1 when `H_base == 0`. */
  function ScaledAttack(aBase: int, hCur: int, hBase: int): (a: int)
    ensures 1 <= a <= IntMax
  {
    if hBase == 0 then 1 else Max(1, Wrap32(TruncDiv(aBase * hCur, hBase)))
  }

  /** Scaling never raises the attack above its base (nor below 1) while the
      card has lost health, and the 32-bit cast never wraps there. */
  lemma {:induction false} ScaledAttackBounds(aBase: int, hCur: int, hBase: int)
    requires 0 <= aBase <= IntMax && 0 < hCur <= hBase
    ensures 1 <= ScaledAttack(aBase, hCur, hBase) <= Max(1, aBase)
    ensures aBase >= 1 ==> ScaledAttack(aBase, hCur, hBase) == Max(1, aBase * hCur / hBase)
  {
    var p := aBase * hCur;
    ProductBelow(aBase, hCur, hBase);
    var q := p / hBase;
    QuotientBelow(p, hBase, aBase);
    assert TruncDiv(p, hBase) == q;
    assert Wrap32(q) == q;
  }

  lemma {:induction false} ProductBelow(a: int, h: int, hBase: int)
    requires 0 <= a && 0 < h <= hBase
    ensures 0 <= a * h <= a * hBase
  {
  }

  lemma {:induction false} QuotientBelow(p: int, d: int, a: int)
    requires 0 <= p <= a * d && 0 < d
    ensures 0 <= p / d <= a
  {
  }

  datatype DamageResult = DamageResult(card: Card, died: bool)

  /** `takeDamage(damage)`: the card keeps its pre-damage attack, loses
      `damage` health in 32-bit arithmetic and dies at zero or below
      (health then reads 0); a survivor's attack is rescaled to its health. */
  function TakeDamage(c: Card, damage: int): (r: DamageResult)
    ensures r.card.aCurBeforeDamage == c.aCur
    ensures r.died <==> Wrap32(c.hCur - damage) <= 0
    ensures r.died ==> r.card.hCur == 0 && r.card.aCur == c.aCur
    ensures !r.died ==> r.card.hCur == Wrap32(c.hCur - damage) && r.card.hCur > 0
    ensures !r.died ==> r.card.aCur == ScaledAttack(c.aBase, r.card.hCur, c.hBase) >= 1
    ensures r.card.(aCur := c.aCur, hCur := c.hCur, aCurBeforeDamage := c.aCurBeforeDamage) == c
  {
    var h := Wrap32(c.hCur - damage);
    if h <= 0 then
      DamageResult(c.(aCurBeforeDamage := c.aCur, hCur := 0), true)
    else
      DamageResult(c.(aCurBeforeDamage := c.aCur, hCur := h, aCur := ScaledAttack(c.aBase, h, c.hBase)), false)
  }

  /** Without 32-bit overflow the death test is the plain comparison. */
  lemma {:induction false} TakeDamageNoOverflow(c: Card, damage: int)
    requires IsInt32(c.hCur - damage)
    ensures TakeDamage(c, damage).died <==> c.hCur - damage <= 0
    ensures !TakeDamage(c, damage).died ==> TakeDamage(c, damage).card.hCur == c.hCur - damage
  {
  }

  /** `(int) Math.floor(A_base * 0.90)` and `(int) Math.floor(A_base * 0.95)`,
      taken as the exact rational products rounded down. */
  function Floor90(aBase: int): (a: int)
    ensures 0 <= aBase ==> 0 <= a <= aBase
    ensures 10 * a <= 9 * aBase < 10 * a + 10
  {
    (9 * aBase) / 10
  }

  function Floor95(aBase: int): (a: int)
    ensures 0 <= aBase ==> 0 <= a <= aBase
    ensures 20 * a <= 19 * aBase < 20 * a + 20
  {
    (19 * aBase) / 20
  }

  /** `applyFullRevive()`: back to full health with a reduced base attack. */
  function ApplyFullRevive(c: Card): (r: Card)
    ensures r.hCur == r.hBase == c.hBase && HMissing(r) == c.hBase
    ensures r.revivalProgress == 0 && r.discardTime == -1
    ensures r.aBase == Floor90(c.aBase) && r.aCur == Max(1, r.aBase) >= 1
    ensures r.name == c.name && r.entryTime == c.entryTime
  {
    var base := Floor90(c.aBase);
    c.(aBase := base, hCur := c.hBase, aCur := Max(1, base), revivalProgress := 0, discardTime := -1)
  }

  /** `applyPartialRevive(healAmount)`: restores as much of the missing health
      as the amount pays for, and reduces the base attack. */
  function ApplyPartialRevive(c: Card, healAmount: int): (r: Card)
    ensures r.revivalProgress == c.revivalProgress + Min(healAmount, HMissing(c))
    ensures r.aBase == Floor95(c.aBase)
    ensures r.(aBase := c.aBase, revivalProgress := c.revivalProgress) == c
  {
    c.(aBase := Floor95(c.aBase), revivalProgress := c.revivalProgress + Min(healAmount, HMissing(c)))
  }

  /** A positive heal keeps the revival progress within `[0, H_base]` and
      lowers the missing health by exactly what it paid. */
  lemma {:induction false} PartialReviveKeepsProgressInRange(c: Card, healAmount: int)
    requires 0 <= c.revivalProgress <= c.hBase && healAmount > 0
    ensures var r := ApplyPartialRevive(c, healAmount);
      0 <= r.revivalProgress <= r.hBase &&
      HMissing(r) == HMissing(c) - Min(healAmount, HMissing(c)) &&
      (healAmount >= HMissing(c) ==> HMissing(r) == 0)
  {
  }
}
