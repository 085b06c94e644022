# Roguelike dungeon: level generator and turn engine

A model of the game logic of a small browser dungeon crawler (`index.js`).
The level is a 24 x 40 grid that starts as solid wall. Generation then runs
in three steps:

- Passages: full columns and full rows are cut open, and each cut records an
  anchor square.
- Rooms: rectangles of 3..8 by 3..8 squares are carved, each centred on a
  drawn anchor and clamped inside the grid.
- Objects: the Empty squares are shuffled. The first 23 become 2 swords,
  10 potions, the player and 10 enemies.

Each turn runs in three steps:

- Every enemy strikes the player if they are orthogonally adjacent.
  Otherwise the enemy tries the four steps in a shuffled order and stops at
  the first one that succeeds.
- The player either steps or strikes every adjacent enemy.
- The turn's outcome is decided: Victory if no enemy is left; otherwise
  Defeat if the player's health is at or below 0; otherwise play continues.

On a step:

- The player uses a sword (attack power doubles) or a potion (health +30,
  capped at 100) at once.
- An enemy carries the pickup instead and puts it back when it moves on.
- A killed enemy leaves what it carried and drops out of the enemy list.
- A killed player's square is cleared.

The project has three files:

- `entities.dfy` (module `Entities`): the square contents (`Cell`), the
  floor subset (`Floor`), facing, and the `Entity` class. The class holds the
  player and the enemies, with their position, health, attack power, facing
  and carried item, and the methods `Move`, `Attack`, `PickPotion`,
  `PickSword`, `StepOn` and `StepOut`.
- `grid.dfy` (module `Grid`): the grid constants and the row-major list of
  Empty squares. It also counts the squares holding a given pickup.
- `game.dfy` (module `Rogue`): the `Game` class. It keeps the grid as an
  `array2<Cell>`, plus the room log, the passage anchors, the player and the
  enemy list.
  - Its methods carve, place, move and fight in place, as the source does.
  - Its invariant `Valid()` says every live entity stands on its own square
    and every entity square belongs to the entity recorded there.
  - Lodash's random draws come in as arguments, with the draws' ranges as
    preconditions: the passage count, columns and rows; each room's size and
    anchor; the shuffle, as the permutation drawn for a list of each length;
    each enemy's order of steps.

Some of the code's behaviour is easy to misread; the model follows the code:

- The code draws one passage count and uses it for both the column cuts and
  the row cuts (index.js:96-108). So exactly 2·count anchors are recorded.
- The code does not fail cleanly when fewer than 23 squares are Empty. It
  reads past the end of the shuffled list (index.js:153-171). The model
  makes at least 23 Empty squares a precondition of `PlaceObjects`. `Init`
  shows the generator always meets it: the passage cuts leave a whole
  column and a whole row Empty, which is already 63 squares.
- The code does not keep a dead player on the grid. An enemy blow that takes
  the player to 0 or below clears its square (index.js:240-242). The
  player's step still runs later in the same turn (index.js:251-253).
- The code stores the carried item as the string "4" or "5"
  (index.js:219, 222). That string acts as the same sword or potion square
  when the enemy moves on (index.js:209, 184), so it is modelled as the
  `Sword`/`Potion` tag.

## Model

| member | source | states |
|---|---|---|
| Entities.Entity.Player | index.js:2-25 | a new player stands at (x, y) facing right, with 100 health and attack power 25, carrying nothing |
| Entities.Entity.Enemy | index.js:41-45 | a new enemy stands at (x, y) facing right, with 100 health and attack power 10, carrying nothing |
| Entities.Entity.Move | index.js:10-14 | the position shifts by (dx, dy) with no check, and the new position is returned |
| Entities.Entity.Attack | index.js:16-18 | the target loses exactly the attacker's attack power, with no clamping; nothing else changes |
| Entities.Healed | index.js:28 | the health after a potion is hp + 30 or 100, whichever is smaller: it never exceeds 100 or hp + 30 and equals one of them |
| Entities.HealedBounds | index.js:27-29 | a potion never lowers health; from 70 or more it gives exactly 100 (so 100 stays 100 and 70 becomes 100), below 70 exactly hp + 30 |
| Entities.Entity.PickPotion | index.js:27-29 | the player's health becomes Healed(old health) |
| Entities.Entity.PickSword | index.js:31-33 | the player's attack power doubles: it is one sharpening of the old value |
| Entities.SharpenedIsPow2 | index.js:32 | n sword pickups multiply attack power by 2^n, so two swords take 25 to 100 |
| Entities.Entity.StepOn | index.js:47-49 | the enemy now carries the given pickup |
| Entities.Entity.StepOut | index.js:51-55 | the carried item is returned and the slot is reset to Empty |
| Entities.Turned | index.js:204-205 | dx = 1 faces right, dx = -1 faces left, and any other dx keeps the old facing |
| Rogue.Game.constructor | index.js:84-93 | the grid is 24 x 40 and all wall; there are no rooms, passages, player or enemies |
| Rogue.Game.PlacePassages | index.js:95-109 | 2·passageCount anchors are appended, the column cuts' anchors before the row cuts'; a square becomes Empty exactly when its column or its row was cut, and every other square is left as it was, so only Empty is ever written |
| Rogue.ClampOrigin | index.js:116-120 | the clamped origin is at least 0 and leaves the far edge at most bound - 1; it is 0 when centring would start left of the grid, the centred origin when that fits, and bound - size - 1 when centring would reach the bound |
| Rogue.Game.AddRoom | index.js:111-131 | exactly one room is appended: the drawn size at the clamped origin around the drawn anchor, inside the grid; exactly the squares of that rectangle become Empty and no other square changes |
| Rogue.Game.PlaceRooms | index.js:133-136 | one room per choice is appended in order, each inside the grid with its drawn size and with the origin AddRoom computes from its anchor passage; a square is Empty afterwards if some new room covers it, and otherwise it is unchanged |
| Rogue.Game.EmptyTiles | index.js:139-146 | the result is the grid's Empty squares in the nested loops' row-major order |
| Grid.EmptyCellsFacts | index.js:139-146 | that list holds every Empty square of the grid, each once, and only Empty squares |
| Rogue.Permuted | index.js:147 | the shuffled list has the original length, and its k-th square is the perm[k]-th original |
| Rogue.PermutedDistinct | index.js:147 | shuffling a list without repeats gives a list without repeats |
| Rogue.PermutedSame | index.js:147 | the shuffled list holds exactly the squares of the original, none lost and none added |
| Rogue.PermutationOnto | index.js:147 | a permutation of n items takes every index below n |
| Rogue.Game.ShuffledEmpty | index.js:139-148 | the 23 squares taken are the first 23 of the Empty list shuffled by the permutation drawn for its length; they are distinct, in the grid and Empty |
| Rogue.Game.FillTiles | index.js:152-161 | each of the count squares from start holds the pickup; every square outside that slice is unchanged |
| Rogue.Game.PlacePickups | index.js:150-161 | the first 2 squares hold swords and the next 10 hold potions; all other squares are unchanged |
| Rogue.Game.PlacePlayer | index.js:163-167 | a new player with 100 health and attack 25 stands on p, and only that square changes |
| Rogue.Game.AddEnemy | index.js:171-174 | a new enemy stands on q and is appended to the list; only square q changes |
| Rogue.Game.AddEnemies | index.js:170-175 | one new, distinct enemy for each listed square, appended in order, each standing on its square; every other square is unchanged |
| Rogue.Game.PlaceEnemies | index.js:170-175 | the list grows by exactly 10 new, distinct enemies; the j-th new one stands on tiles[start + j]; squares outside the slice are unchanged |
| Rogue.Game.FillShuffled | index.js:149-175 | squares 0-1 hold swords and 2-11 potions; square 12 holds the new player; the 10 new enemies stand in order on squares 13-22; no other square changes |
| Rogue.Game.PlaceObjects | index.js:138-176 | the 23 squares used were Empty before, are distinct and come in shuffled order; they receive 2 swords, 10 potions, the player and 10 enemies; the list grows by 10 and no other square changes; on a grid without entities the game invariant then holds |
| Grid.CrossEmpty | index.js:95-109 | a grid with a whole Empty column and a whole Empty row has at least ROWS + COLS - 1 = 63 Empty squares |
| Rogue.Game.Init | index.js:292-294 | passages, then rooms, then objects, with no further assumption: at least 23 squares are Empty when the objects are placed. The game then satisfies the invariant, with the drawn passages, one room per choice with that choice's size and clamped origin, the player at 100 health and attack 25, 10 listed enemies, and 2 swords and 10 potions on 23 distinct squares |
| Rogue.Game.PlaceObjectsValid | index.js:163-175 | after placement, every listed enemy and the player stand on their own squares, and every entity square belongs to the entity recorded there |
| Rogue.Game.Collect | index.js:212-223 | the player leaves Empty behind, heals on a potion and doubles its attack on a sword; an enemy leaves what it carried and carries what it steps onto |
| Rogue.Game.MoveEntity | index.js:203-229 | the facing turns first. The step succeeds iff the target is in the grid and is floor or a pickup. A refused step changes nothing else. An accepted step: shifts the position by (dx, dy); leaves Empty (player) or the carried item (enemy) on the old square; puts the entity on the new square; applies the player's pickup or makes the enemy carry it; changes no other square; keeps the invariant, except when a dead player steps from a recorded square that an enemy has since taken |
| Rogue.Game.Advance | index.js:212-228 | the accepted half of a step, as in MoveEntity |
| Rogue.Game.MovedValid | index.js:224-227 | a step that vacates one square and fills the adjacent floor square keeps the game invariant |
| Grid.StepCount | index.js:224-227 | when a step rewrites only the old and the new square, the grid's count of a pickup plus what the new square held equals the old count plus what was left on the old square |
| Rogue.Game.StepKeepsPickups | index.js:212-228 | after an accepted step, an enemy's step keeps the count of swords (and of potions) on the grid plus the one it carries; a live player's step removes exactly the pickup it took from the grid |
| Rogue.Game.HitEnemy | index.js:236-243 | the blow lands iff an enemy stands there: it loses the player's attack power; at 0 or below its square gets its carried item and it leaves the list; nothing else changes |
| Rogue.Game.HitValid | index.js:238-243 | the player's blow, fatal or not, keeps the game invariant |
| Rogue.Game.HitPlayer | index.js:236-242 | the blow lands iff the player stands there: it loses the enemy's attack power, and at 0 or below its square becomes Empty; its position, attack power, facing and carried item are kept |
| Rogue.Game.Strike | index.js:236-245 | one pass of the loop: a hit iff the square is in the grid and holds the other side; otherwise nothing changes |
| Rogue.AdjacentTilesCover | index.js:74-79 | the four steps reach exactly the orthogonal neighbours, each once |
| Rogue.Without | index.js:243 | the filtered list is no longer than the original and holds exactly the members that were not removed |
| Rogue.WithoutTwice | index.js:243 | filtering one kill at a time equals filtering all the kills at once |
| Rogue.WithoutDistinct | index.js:243 | filtering keeps the enemy list free of repeats |
| Rogue.WithoutOne | index.js:243 | filtering out one listed enemy shortens a repeat-free list by exactly one |
| Rogue.Game.PlayerBlow | index.js:236-244 | one pass of the player's loop against the snapshot from before the attack: a hit iff that neighbour held an enemy; the blows so far and the cleared squares are extended by this pass |
| Rogue.Game.PlayerPasses | index.js:235-246 | after the four passes: a hit iff some neighbour held an enemy; every adjacent enemy has taken one blow; the kills are exactly those at or below 0, filtered from the list |
| Rogue.Game.PlayerStrikes | index.js:235-247 | the same, stated against the state before the attack. Every adjacent enemy loses the attack power once. The killed set is exactly the listed enemies now at or below 0. Each killed enemy's square holds what it carried. No other square changes. The list is the old list without the killed |
| Rogue.Game.EnemyStrikes | index.js:235-247 | an enemy's attack is a hit iff the player is adjacent; then the player loses the enemy's attack power, and its square is cleared at 0 or below; nothing else changes |
| Rogue.Game.HandleAttack | index.js:231-248 | it returns true iff some neighbour holds the other side. The player's attack hits every adjacent enemy once and removes exactly those at or below 0, leaving what they carried. An enemy's attack changes only the player's health and square. The list never grows |
| Rogue.FirstOpen | index.js:278-281 | the step a wandering enemy takes: no earlier step of the order leads to an open square, and the chosen one does unless none does |
| Rogue.FirstOpenUnique | index.js:278-281 | any index with those two properties is FirstOpen's |
| Rogue.Game.TryStep | index.js:279-280 | one attempt of the walk: it turns the enemy; a failed attempt changes nothing else and shows the step leads nowhere open; a successful one is the first open step and ends the walk as Wandered describes |
| Rogue.Game.WalkWandered | index.js:212-228 | a step onto the first open square, or no step when none is open, is the walk Wandered describes: the enemy leaves what it carried, carries what it finds, stands on the new square, and no other square changes |
| Rogue.Game.EnemyWander | index.js:277-281 | the enemy tries the steps of its order in turn and stops at the first open square; every step tried turns it. If none was open, grid and enemy stay as they were; otherwise it takes that step, leaving what it carried and carrying what it found, and no other square changes |
| Rogue.TurnMovesAtMostOne | index.js:274-282 | an enemy's action, a strike or a walk, moves it by at most one square and keeps its health and attack power |
| Rogue.Game.PlayerAmong | index.js:235-236 | under the invariant, a neighbour of the enemy holds the player iff the player's own square still holds it and is next to the enemy |
| Rogue.Game.StruckTurn | index.js:236-242 | a strike on the player changes only the player's square, which is cleared at 0 or below, and leaves the enemy as it was |
| Rogue.Game.EnemyAct | index.js:274-282 | the enemy strikes iff the player's square holds it and is next to the enemy; then only the player's health and square change. Otherwise it wanders as EnemyWander states. No other enemy changes, the player only loses 10 health iff struck, and the invariant is kept |
| Rogue.ChainStep | index.js:274-283 | one more enemy's action from the grid and health the previous ones left extends the chain, and the count of strikes grows by one iff it struck |
| Rogue.ChainHits | index.js:274-283 | along the chain the player loses exactly 10 health per strike |
| Rogue.ChainMoves | index.js:274-283 | along the chain every enemy moves by at most one square and keeps its health and attack power |
| Rogue.Game.EnemiesTurn | index.js:273-284 | the enemies act in list order, each on the grid the previous one left: action i is enemy i's by its own order, as EnemyAct states it. The list, the invariant and the player's position, facing and attack power are kept; the player loses 10 health per strike; every enemy keeps its health and moves at most one square |
| Rogue.GameEnd | index.js:269-270 | Victory iff no enemy is left, even at health 0 or below; Defeat iff enemies remain and health is at or below 0; Continue otherwise |
| Rogue.Game.PlayerStep | index.js:252 | the player's step after the enemies' turn: it moves iff the target square is floor or a pickup, then stands there with the pickup applied, leaves Empty behind and changes no other square; it faces as its dx says; the enemies are untouched; the invariant is kept unless the step is taken from a dead player's recorded square that an enemy now holds |
| Rogue.Game.HandlePlayerMove | index.js:250-254 | the enemies act first, with all of EnemiesTurn's effects; then the player steps on the grid they left, as PlayerStep states, with its health after the enemies' blows, and faces as its dx says. The outcome is GameEnd of the state after both |
| Rogue.Game.HandlePlayerAttack | index.js:256-260 | the enemies act first, with all of EnemiesTurn's effects; then every listed enemy adjacent to the player where they now stand loses the player's attack power, and the player keeps its position and facing. The killed are exactly those at or below 0, leave the list and give their squares back what they carried. The outcome is GameEnd of the final state |

## Left out

- Rendering (index.js:178-201) and the render call at the end of each turn (index.js:286-289): presentation only.
- The keydown listener and its key mapping (index.js:296-308), the first render (index.js:295) and `document.querySelector` (index.js:85): browser input and page glue.
- The `setTimeout`/`alert`/`location.reload` call in handleGameEnd (index.js:263-267) is browser I/O. The handlers return the `Outcome` instead, and nothing stops further turns after a terminal outcome.
- The lodash draws `_.random`, `_.sample` and `_.shuffle` (index.js:96-115, 134, 147, 278) are a foreign random source. They are arguments whose ranges are preconditions.
- EnemyWander: the order is only required to consist of the four unit steps, not to be a permutation of them, so it covers every shuffle and more.
- placeObjects with fewer than 23 Empty squares reads past the end of its list (index.js:153-171) and fails there. `PlaceObjects` requires 23 Empty squares instead, and `Init` proves that generation always leaves them.
- Interleaving of key events within one browser tick is event-loop behaviour and outside a sequential model.
- The cell codes, `toString` tests and `type` lookup (index.js:35-37, 57-59, 63-70, 209-210) are replaced by the tagged `Cell`. The facing strings (index.js:7, 204-205) become `Facing`. The Entity/Player/Enemy class hierarchy becomes one class with a kind flag.
- JavaScript numbers are doubles, while the model uses unbounded integers. Every value in the game is a small integer, so nothing rounds.
- HandlePlayerMove: the invariant is only promised for a refused step or when the enemies did not kill the player and then walk onto its recorded square (`clobbered`). In that case the dead player's step writes Empty over the enemy standing there (index.js:225), which leaves a listed enemy off the grid.
- StepKeepsPickups: conservation is stated for a live player only, because `Valid` says nothing about a dead player's recorded square. After the fatal blow that square holds Empty (index.js:240-242), and an enemy that later steps there carries Empty. So no pickup is lost in the code either, but the model would need an extra invariant clause to show it.
