/** The dungeon's entities: the values a grid square can hold, and the player
    and enemy objects whose position, health, attack power, facing and
    carried item change as the game is played (index.js:1-60). */
module Entities {

  /** Base statistics (index.js:5, 24, 28, 43). */
  const StartHp := 100
  const MaxHp := 100
  const PotionHeal := 30
  const PlayerAttack := 25
  const EnemyAttack := 10

  /** Which way an entity's sprite faces (index.js:7, 204-205). */
  datatype Facing = Left | Right

  /** One square of the grid. The source stores the codes 0, 1, 4, 5 or the
      entity object itself (index.js:63-70); an enemy square refers to the
      enemy object, the player square to the game's one player. */
  datatype Cell = Wall | Empty | Sword | Potion | PlayerCell | EnemyCell(enemy: Entity)

  /** Squares an entity may enter and may leave behind: open floor or a pickup. */
  predicate IsFloor(c: Cell) {
    c.Empty? || c.Sword? || c.Potion?
  }

  type Floor = c: Cell | IsFloor(c) witness Empty

  /** The facing after an attempted move by dx (index.js:204-205). */
  function Turned(f: Facing, dx: int): (g: Facing)
    ensures dx == 1 ==> g == Right
    ensures dx == -1 ==> g == Left
    ensures dx != 1 && dx != -1 ==> g == f
  {
    if dx == 1 then Right else if dx == -1 then Left else f
  }

  /** Health after a potion: 30 more, but never above 100 (index.js:28). */
  function Healed(hp: int): (r: int)
    ensures r <= MaxHp && r <= hp + PotionHeal
    ensures r == MaxHp || r == hp + PotionHeal
  {
    if hp + PotionHeal < MaxHp then hp + PotionHeal else MaxHp
  }

  /** A potion never lowers health, and a potion taken at full health leaves it full. */
  lemma HealedBounds(hp: int)
    requires hp <= MaxHp
    ensures hp <= Healed(hp) <= MaxHp
    ensures hp >= MaxHp - PotionHeal ==> Healed(hp) == MaxHp
    ensures hp < MaxHp - PotionHeal ==> Healed(hp) == hp + PotionHeal
  {
  }

  function Pow2(n: nat): (r: nat)
    ensures r >= 1
  {
    if n == 0 then 1 else 2 * Pow2(n - 1)
  }

  /** Attack power after n sword pickups, each of which doubles it (index.js:32). */
  function Sharpened(ap: int, n: nat): int {
    if n == 0 then ap else 2 * Sharpened(ap, n - 1)
  }

  /** n swords multiply the attack power by 2^n. */
  lemma {:induction false} SharpenedIsPow2(ap: int, n: nat)
    ensures Sharpened(ap, n) == ap * Pow2(n)
  {
    if n > 0 {
      SharpenedIsPow2(ap, n - 1);
      calc {
        Sharpened(ap, n);
        2 * Sharpened(ap, n - 1);
        2 * (ap * Pow2(n - 1));
        ap * (2 * Pow2(n - 1));
        ap * Pow2(n);
      }
    }
  }

  /** The player or an enemy. The source's Entity/Player/Enemy hierarchy
      becomes one class with a kind flag; an enemy's "steppedOn" slot is kept
      for the player too, where it stays Empty. */
  class Entity {
    const isPlayer: bool
    var x: int
    var y: int
    var hp: int
    var attackPower: int
    var direction: Facing
    /** The pickup an enemy stands on, to be put back when it leaves. */
    var steppedOn: Floor

    /** index.js:2-8, 22-25 */
    constructor Player(x: int, y: int)
      ensures isPlayer && this.x == x && this.y == y
      ensures hp == StartHp && attackPower == PlayerAttack
      ensures direction == Right && steppedOn == Empty
    {
      isPlayer := true;
      this.x, this.y := x, y;
      hp, attackPower := StartHp, PlayerAttack;
      direction, steppedOn := Right, Empty;
    }

    /** index.js:2-8, 41-45 */
    constructor Enemy(x: int, y: int)
      ensures !isPlayer && this.x == x && this.y == y
      ensures hp == StartHp && attackPower == EnemyAttack
      ensures direction == Right && steppedOn == Empty
    {
      isPlayer := false;
      this.x, this.y := x, y;
      hp, attackPower := StartHp, EnemyAttack;
      direction, steppedOn := Right, Empty;
    }

    /** Shifts the position without any check and returns the new one (index.js:10-14). */
    method Move(dx: int, dy: int) returns (nx: int, ny: int)
      modifies this`x, this`y
      ensures x == old(x) + dx && y == old(y) + dy
      ensures nx == x && ny == y
    {
      x := x + dx;
      y := y + dy;
      nx, ny := x, y;
    }

    /** Lowers the target's health by this entity's attack power, unclamped (index.js:16-18). */
    method Attack(target: Entity)
      modifies target`hp
      ensures target.hp == old(target.hp) - attackPower
    {
      target.hp := target.hp - attackPower;
    }

    /** index.js:27-29 */
    method PickPotion()
      requires isPlayer
      modifies this`hp
      ensures hp == Healed(old(hp))
    {
      hp := if hp + PotionHeal < MaxHp then hp + PotionHeal else MaxHp;
    }

    /** index.js:31-33 */
    method PickSword()
      requires isPlayer
      modifies this`attackPower
      ensures attackPower == 2 * old(attackPower)
      ensures attackPower == Sharpened(old(attackPower), 1)
    {
      attackPower := attackPower * 2;
    }

    /** Remembers the pickup under the enemy (index.js:47-49). */
    method StepOn(obj: Floor)
      requires !isPlayer
      modifies this`steppedOn
      ensures steppedOn == obj
    {
      steppedOn := obj;
    }

    /** Hands back the remembered pickup and forgets it (index.js:51-55). */
    method StepOut() returns (obj: Floor)
      requires !isPlayer
      modifies this`steppedOn
      ensures obj == old(steppedOn) && steppedOn == Empty
    {
      obj := steppedOn;
      steppedOn := Empty;
    }
  }
}
