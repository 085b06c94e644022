/** The game: level generation (index.js:95-176) and the turn engine
    (index.js:203-289) over one grid, one player and a list of enemies. */
module Rogue {
  import opened Entities
  import opened Grid

  datatype Option<T> = None | Some(value: T)

  /** A carved rectangle, as recorded in the room log (index.js:122-127). */
  datatype Room = Room(x: int, y: int, width: int, height: int)

  /** The random draws of one addRoom call (index.js:112-115). */
  datatype RoomChoice = RoomChoice(width: int, height: int, anchor: int)

  /** A unit step (index.js:74-79). */
  datatype Delta = Delta(dx: int, dy: int)

  /** What the end-of-turn check decides (index.js:269-270). */
  datatype Outcome = Victory | Defeat | Continue

  /** An entity's position, health, attack power and carried item at some moment. */
  datatype Stat = Stat(pos: Pos, hp: int, ap: int, carried: Floor)

  const AdjacentTiles: seq<Delta> := [Delta(-1, 0), Delta(1, 0), Delta(0, -1), Delta(0, 1)]

  const NumSwords := 2
  const NumPotions := 10
  const NumEnemies := 10
  /** Squares placeObjects consumes: swords, potions, the player, enemies. */
  const NumObjects := NumSwords + NumPotions + 1 + NumEnemies

  /** Some draw of passages picked column x (for the column cuts) or row y (for the row cuts). */
  predicate CutsColumn(cuts: seq<Pos>, c: int) {
    exists i :: 0 <= i < |cuts| && cuts[i].x == c
  }

  predicate CutsRow(cuts: seq<Pos>, r: int) {
    exists i :: 0 <= i < |cuts| && cuts[i].y == r
  }

  /** Origin of a room of the given size centred on an anchor and pushed
      back inside [0, bound), its far edge at most bound - 1 (index.js:116-120). */
  function ClampOrigin(anchor: int, size: int, bound: int): (o: int)
    requires 0 < size < bound
    ensures 0 <= o && o + size <= bound - 1
    ensures anchor - size / 2 < 0 ==> o == 0
    ensures 0 <= anchor - size / 2 && anchor - size / 2 + size < bound ==> o == anchor - size / 2
    ensures anchor - size / 2 + size >= bound ==> o == bound - size - 1
  {
    var o := if anchor - size / 2 < 0 then 0 else anchor - size / 2;
    if o + size >= bound then bound - size - 1 else o
  }

  /** The room carved for a choice (index.js:111-131): the drawn size, placed
      around the anchor passage by ClampOrigin on each axis. */
  function RoomOf(passages: seq<Pos>, ch: RoomChoice): Room
    requires ValidChoice(ch, |passages|)
  {
    Room(ClampOrigin(passages[ch.anchor].x, ch.width, COLS), ClampOrigin(passages[ch.anchor].y, ch.height, ROWS),
         ch.width, ch.height)
  }

  predicate RoomInside(room: Room) {
    0 <= room.x && room.x + room.width <= COLS - 1 &&
    0 <= room.y && room.y + room.height <= ROWS - 1
  }

  predicate InRoom(room: Room, c: int, r: int) {
    room.x <= c < room.x + room.width && room.y <= r < room.y + room.height
  }

  predicate InSomeRoom(rooms: seq<Room>, c: int, r: int) {
    exists i :: 0 <= i < |rooms| && InRoom(rooms[i], c, r)
  }

  predicate ValidChoice(ch: RoomChoice, passageCount: int) {
    3 <= ch.width <= 8 && 3 <= ch.height <= 8 && 0 <= ch.anchor < passageCount
  }

  /** The result of one random permutation of n items (lodash _.shuffle). */
  predicate IsPermutation(perm: seq<int>, n: int) {
    |perm| == n &&
    (forall i :: 0 <= i < |perm| ==> 0 <= perm[i] < n) &&
    (forall i, j :: 0 <= i < j < |perm| ==> perm[i] != perm[j])
  }

  function Permuted(tiles: seq<Pos>, perm: seq<int>): (s: seq<Pos>)
    requires IsPermutation(perm, |tiles|)
    ensures |s| == |tiles|
    ensures forall k :: 0 <= k < |s| ==> s[k] == tiles[perm[k]]
  {
    seq(|perm|, k requires 0 <= k < |perm| => tiles[perm[k]])
  }

  /** The values a sequence takes at its first m positions. */
  function Image(perm: seq<int>, m: nat): set<int>
    requires m <= |perm|
  {
    set k | 0 <= k < m :: perm[k]
  }

  /** The integers 0 .. n - 1. */
  function Below(n: nat): (r: set<int>)
    ensures forall t :: t in r <==> 0 <= t < n
  {
    if n == 0 then {} else Below(n - 1) + {n - 1}
  }

  lemma {:induction false} ImageSize(perm: seq<int>, m: nat)
    requires m <= |perm|
    requires forall i, j :: 0 <= i < j < |perm| ==> perm[i] != perm[j]
    ensures |Image(perm, m)| == m
  {
    if m > 0 {
      ImageSize(perm, m - 1);
      assert Image(perm, m) == Image(perm, m - 1) + {perm[m - 1]};
    }
  }

  lemma {:induction false} BelowSize(n: nat)
    ensures |Below(n)| == n
  {
    if n > 0 {
      BelowSize(n - 1);
    }
  }

  lemma SubsetSize(a: set<int>, b: set<int>)
    requires a <= b
    ensures |a| <= |b|
  {
    assert a * b == a;
    assert |b - a| == |b| - |a|;
  }

  /** A permutation of n items takes every index below n. */
  lemma PermutationOnto(perm: seq<int>, n: nat, t: int)
    requires IsPermutation(perm, n) && 0 <= t < n
    ensures exists k :: 0 <= k < n && perm[k] == t
  {
    ImageSize(perm, n);
    BelowSize(n);
    var r := Below(n) - {t};
    assert t in Image(perm, n) by {
      if t !in Image(perm, n) {
        SubsetSize(Image(perm, n), r);
        assert false;
      }
    }
  }

  /** Shuffling loses no square and adds none: the shuffled list holds
      exactly the squares of the original. */
  lemma PermutedSame(tiles: seq<Pos>, perm: seq<int>)
    requires IsPermutation(perm, |tiles|)
    ensures forall q :: q in Permuted(tiles, perm) <==> q in tiles
  {
    var s := Permuted(tiles, perm);
    forall q | q in tiles ensures q in s {
      var i :| 0 <= i < |tiles| && tiles[i] == q;
      PermutationOnto(perm, |tiles|, i);
      var k :| 0 <= k < |tiles| && perm[k] == i;
      assert s[k] == q;
    }
  }

  /** A permutation of distinct squares lists distinct squares. */
  lemma PermutedDistinct(tiles: seq<Pos>, perm: seq<int>)
    requires IsPermutation(perm, |tiles|)
    requires forall i, j :: 0 <= i < j < |tiles| ==> tiles[i] != tiles[j]
    ensures forall i, j :: 0 <= i < j < |perm| ==> Permuted(tiles, perm)[i] != Permuted(tiles, perm)[j]
  {
    var s := Permuted(tiles, perm);
    forall i, j | 0 <= i < j < |perm| ensures s[i] != s[j] {
      if perm[i] < perm[j] {
        assert tiles[perm[i]] != tiles[perm[j]];
      } else {
        assert tiles[perm[j]] != tiles[perm[i]];
      }
    }
  }

  /** In a list without repeats, an element is not found in a slice that excludes its index. */
  lemma SliceExcludes(s: seq<Pos>, i: int, a: int, b: int)
    requires forall m, n :: 0 <= m < n < |s| ==> s[m] != s[n]
    requires 0 <= i < |s| && 0 <= a <= b <= |s| && (i < a || b <= i)
    ensures s[i] !in s[a..b]
  {
  }

  /** What is not among the first m elements is in none of their slices. */
  lemma SliceWithin(s: seq<Pos>, p: Pos, m: int)
    requires 0 <= m <= |s| && p !in s[..m]
    ensures forall a, b :: 0 <= a <= b <= m ==> p !in s[a..b]
  {
    forall a, b | 0 <= a <= b <= m ensures p !in s[a..b] {
      assert forall n :: a <= n < b ==> s[n] == s[..m][n];
    }
  }

  /** The square one step d away from p. */
  function Shift(p: Pos, d: Delta): Pos {
    Pos(p.x + d.dx, p.y + d.dy)
  }

  /** The facing after attempted moves along ds, in order (index.js:204-205). */
  function TurnedAll(f: Facing, ds: seq<Delta>): Facing {
    if |ds| == 0 then f else Turned(TurnedAll(f, ds[..|ds| - 1]), ds[|ds| - 1].dx)
  }

  /** One more attempted move turns the facing once more. */
  lemma TurnedOnce(f: Facing, ds: seq<Delta>, n: nat)
    requires n < |ds|
    ensures TurnedAll(f, ds[..n + 1]) == Turned(TurnedAll(f, ds[..n]), ds[n].dx)
  {
    assert ds[..n + 1][..n] == ds[..n];
  }

  /** q is one of the four squares next to p. */
  predicate Adjacent(p: Pos, q: Pos) {
    (q.y == p.y && (q.x == p.x - 1 || q.x == p.x + 1)) ||
    (q.x == p.x && (q.y == p.y - 1 || q.y == p.y + 1))
  }

  /** One of the first n steps of AdjacentTiles leads from p to q. */
  predicate Among(p: Pos, q: Pos, n: nat)
    requires n <= |AdjacentTiles|
  {
    n > 0 && (Among(p, q, n - 1) || q == Shift(p, AdjacentTiles[n - 1]))
  }

  /** The four steps reach exactly the adjacent squares, and no square twice. */
  lemma AdjacentTilesCover(p: Pos, q: Pos)
    ensures Adjacent(p, q) <==> Among(p, q, |AdjacentTiles|)
    ensures forall i, j :: 0 <= i < j < |AdjacentTiles| ==> Shift(p, AdjacentTiles[i]) != Shift(p, AdjacentTiles[j])
  {
    assert !Among(p, q, 0);
    assert Among(p, q, 1) == (q == Shift(p, AdjacentTiles[0]));
    assert Among(p, q, 2) == (Among(p, q, 1) || q == Shift(p, AdjacentTiles[1]));
    assert Among(p, q, 3) == (Among(p, q, 2) || q == Shift(p, AdjacentTiles[2]));
    assert Among(p, q, 4) == (Among(p, q, 3) || q == Shift(p, AdjacentTiles[3]));
  }

  /** A later step is not among the earlier ones. */
  lemma {:induction false} AmongBefore(p: Pos, n: nat, i: nat)
    requires n <= i < |AdjacentTiles|
    ensures !Among(p, Shift(p, AdjacentTiles[i]), n)
  {
    if n > 0 {
      AmongBefore(p, n - 1, i);
      AdjacentTilesCover(p, p);
      assert Shift(p, AdjacentTiles[n - 1]) != Shift(p, AdjacentTiles[i]);
    }
  }

  /** The list without the members of dead, order kept: the source's
      filter(e => e !== adj) (index.js:243). */
  function Without<T>(s: seq<T>, dead: set<T>): (r: seq<T>)
    ensures |r| <= |s|
    ensures forall i :: 0 <= i < |r| ==> r[i] in s && r[i] !in dead
    ensures forall i :: 0 <= i < |s| && s[i] !in dead ==> s[i] in r
  {
    if |s| == 0 then []
    else (if s[0] in dead then [] else [s[0]]) + Without(s[1..], dead)
  }

  predicate Distinct<T(==)>(s: seq<T>) {
    forall i, j :: 0 <= i < j < |s| ==> s[i] != s[j]
  }

  /** Filtering twice is filtering once by both sets. */
  lemma {:induction false} WithoutTwice<T>(s: seq<T>, a: set<T>, b: set<T>)
    ensures Without(Without(s, a), b) == Without(s, a + b)
  {
    if |s| > 0 {
      WithoutTwice(s[1..], a, b);
      var h: seq<T> := if s[0] in a then [] else [s[0]];
      assert Without(s, a) == h + Without(s[1..], a);
      WithoutConcat(h, Without(s[1..], a), b);
    }
  }

  lemma {:induction false} WithoutConcat<T>(s: seq<T>, t: seq<T>, dead: set<T>)
    ensures Without(s + t, dead) == Without(s, dead) + Without(t, dead)
  {
    if |s| > 0 {
      WithoutConcat(s[1..], t, dead);
      assert (s + t)[1..] == s[1..] + t;
    } else {
      assert s + t == t;
    }
  }

  /** Nothing to remove leaves the list as it was. */
  lemma {:induction false} WithoutNothing<T>(s: seq<T>, dead: set<T>)
    requires forall i :: 0 <= i < |s| ==> s[i] !in dead
    ensures Without(s, dead) == s
  {
    if |s| > 0 {
      WithoutNothing(s[1..], dead);
      assert s == [s[0]] + s[1..];
    }
  }

  lemma DistinctTail<T>(s: seq<T>)
    requires |s| > 0 && Distinct(s)
    ensures Distinct(s[1..]) && s[0] !in s[1..]
  {
    forall i, j | 0 <= i < j < |s| - 1 ensures s[1..][i] != s[1..][j] {
      assert s[1..][i] == s[i + 1] && s[1..][j] == s[j + 1];
    }
    forall k | 0 <= k < |s| - 1 ensures s[1..][k] != s[0] {
      assert s[1..][k] == s[k + 1];
    }
  }

  lemma DistinctCons<T>(x: T, t: seq<T>)
    requires Distinct(t) && x !in t
    ensures Distinct([x] + t)
  {
    forall i, j | 0 <= i < j < |t| + 1 ensures ([x] + t)[i] != ([x] + t)[j] {
      assert ([x] + t)[j] == t[j - 1];
    }
  }

  /** Filtering keeps a list free of repeats. */
  lemma {:induction false} WithoutDistinct<T>(s: seq<T>, dead: set<T>)
    requires Distinct(s)
    ensures Distinct(Without(s, dead))
  {
    if |s| > 0 {
      DistinctTail(s);
      WithoutDistinct(s[1..], dead);
      if s[0] !in dead {
        DistinctCons(s[0], Without(s[1..], dead));
      }
    }
  }

  /** Removing one listed element of a list without repeats shortens it by exactly one. */
  lemma {:induction false} WithoutOne<T>(s: seq<T>, x: T)
    requires Distinct(s) && x in s
    ensures |Without(s, {x})| == |s| - 1
  {
    DistinctTail(s);
    if s[0] == x {
      WithoutNothing(s[1..], {x});
    } else {
      WithoutOne(s[1..], x);
    }
  }

  /** handleGameEnd's decision (index.js:262-271): the player wins once no
      enemy is left, even with health at or below 0; otherwise loses once
      health is at or below 0; otherwise play goes on. */
  function GameEnd(enemyCount: nat, hp: int): (o: Outcome)
    ensures o == Victory <==> enemyCount == 0
    ensures o == Defeat <==> enemyCount > 0 && hp <= 0
    ensures o == Continue <==> enemyCount > 0 && hp > 0
  {
    if enemyCount == 0 then Victory else if hp <= 0 then Defeat else Continue
  }

  /** Square p lies in the grid and holds floor or a pickup in the grid g:
      a square an entity may step onto (index.js:207-210). */
  predicate OpenIn(g: seq<seq<Cell>>, p: Pos)
    requires Sized(g)
  {
    InBounds(p.x, p.y) && IsFloor(g[p.y][p.x])
  }

  /** None of the first n steps of order leads from p to an open square of g. */
  predicate Blocked(g: seq<seq<Cell>>, p: Pos, order: seq<Delta>, n: nat)
    requires Sized(g)
  {
    forall j :: 0 <= j < n && j < |order| ==> !OpenIn(g, Shift(p, order[j]))
  }

  /** Which step of order a wandering enemy at p takes on the grid g
      (index.js:278-281): the first that leads to an open square, or
      |order| when none does. */
  function FirstOpen(g: seq<seq<Cell>>, p: Pos, order: seq<Delta>): (k: nat)
    requires Sized(g)
    ensures k <= |order|
    ensures forall j :: 0 <= j < k ==> !OpenIn(g, Shift(p, order[j]))
    ensures k < |order| ==> OpenIn(g, Shift(p, order[k]))
  {
    if |order| == 0 || OpenIn(g, Shift(p, order[0])) then 0
    else 1 + FirstOpen(g, p, order[1..])
  }

  /** FirstOpen is the only index with its two properties. */
  lemma FirstOpenUnique(g: seq<seq<Cell>>, p: Pos, order: seq<Delta>, k: nat)
    requires Sized(g) && k <= |order|
    requires Blocked(g, p, order, k)
    requires k < |order| ==> OpenIn(g, Shift(p, order[k]))
    ensures k == FirstOpen(g, p, order)
  {
  }

  /** g1 agrees with g0 everywhere except possibly at squares a and b. */
  predicate SameBut(g0: seq<seq<Cell>>, g1: seq<seq<Cell>>, a: Pos, b: Pos)
    requires Sized(g0) && Sized(g1)
  {
    forall r, c :: 0 <= r < ROWS && 0 <= c < COLS && Pos(c, r) != a && Pos(c, r) != b ==> g1[r][c] == g0[r][c]
  }

  /** An entity's position, health, attack power and carried item. */
  function StatOf(e: Entity): Stat
    reads e
  {
    Stat(Pos(e.x, e.y), e.hp, e.attackPower, e.steppedOn)
  }

  /** The enemy e's walk along order (index.js:277-281), seen from outside:
      g0 and g1 are the grid before and after, before and after the enemy's
      statistics. It takes the first open step, putting back what it carried
      and picking up what it steps onto; with no open step nothing changes. */
  predicate Wandered(g0: seq<seq<Cell>>, g1: seq<seq<Cell>>, e: Entity, before: Stat, after: Stat, order: seq<Delta>)
    requires Sized(g0) && Sized(g1)
  {
    var k := FirstOpen(g0, before.pos, order);
    (k == |order| ==> after == before && g1 == g0) &&
    (k < |order| ==>
      var n := Shift(before.pos, order[k]);
      after.pos == n && after.hp == before.hp && after.ap == before.ap && after.carried == g0[n.y][n.x] &&
      InBounds(before.pos.x, before.pos.y) && g1[before.pos.y][before.pos.x] == before.carried &&
      g1[n.y][n.x] == EnemyCell(e) && SameBut(g0, g1, before.pos, n))
  }

  /** The enemy e's part of enemiesTurn (index.js:274-282), seen from
      outside. g0 and g1 are the grid before and after its action, pp the
      player's square and hp the player's health after it, before and after
      the enemy's statistics, hit whether it struck. It strikes exactly when
      the player stands on an adjacent square, and then only that square
      changes, cleared once the player is at or below 0; otherwise it
      wanders along order. */
  predicate TurnOf(g0: seq<seq<Cell>>, g1: seq<seq<Cell>>, pp: Pos, hp: int, e: Entity,
                   before: Stat, after: Stat, order: seq<Delta>, hit: bool)
    requires Sized(g0) && Sized(g1)
  {
    (hit <==> InBounds(pp.x, pp.y) && g0[pp.y][pp.x] == PlayerCell && Adjacent(before.pos, pp)) &&
    (hit ==> after == before && SameBut(g0, g1, pp, pp) && g1[pp.y][pp.x] == (if hp <= 0 then Empty else PlayerCell)) &&
    (!hit ==> Wandered(g0, g1, e, before, after, order))
  }

  /** The player's step by d from p0 on grid g0, as moveEntity takes it
      (index.js:203-229): found is what the target square holds (Wall off
      the grid), and the step is taken exactly when that is floor or a
      pickup. Then the player stands at p1 and holds the square, the one it
      left is Empty and no other square changes; a potion heals it and a
      sword doubles its attack power. Otherwise nothing changes. */
  ghost predicate PlayerStepped(g0: seq<seq<Cell>>, g1: seq<seq<Cell>>, p0: Pos, p1: Pos, d: Delta,
                                hp0: int, hp1: int, ap0: int, ap1: int, found: Cell, moved: Option<Pos>)
    requires Sized(g0) && Sized(g1)
  {
    InBounds(p0.x, p0.y) &&
    found == (if InBounds(p0.x + d.dx, p0.y + d.dy) then g0[p0.y + d.dy][p0.x + d.dx] else Wall) &&
    (moved.Some? <==> IsFloor(found)) &&
    (moved.None? ==> p1 == p0 && hp1 == hp0 && ap1 == ap0 && g1 == g0) &&
    (moved.Some? ==>
      moved.value == p1 && p1 == Pos(p0.x + d.dx, p0.y + d.dy) && InBounds(p1.x, p1.y) &&
      hp1 == (if found == Potion then Healed(hp0) else hp0) &&
      ap1 == (if found == Sword then 2 * ap0 else ap0) &&
      g1[p0.y][p0.x] == Empty && g1[p1.y][p1.x] == PlayerCell && SameBut(g0, g1, p0, p1))
  }

  /** An enemy's action moves it by at most one square and leaves its health
      and attack power as they were. */
  lemma TurnMovesAtMostOne(g0: seq<seq<Cell>>, g1: seq<seq<Cell>>, pp: Pos, hp: int, e: Entity,
                           before: Stat, after: Stat, order: seq<Delta>, hit: bool)
    requires Sized(g0) && Sized(g1) && TurnOf(g0, g1, pp, hp, e, before, after, order, hit)
    requires forall j :: 0 <= j < |order| ==> order[j] in AdjacentTiles
    ensures after.pos == before.pos || Adjacent(before.pos, after.pos)
    ensures after.hp == before.hp && after.ap == before.ap
  {
    var k := FirstOpen(g0, before.pos, order);
    if !hit && k < |order| {
      assert Wandered(g0, g1, e, before, after, order);
      assert order[k] in AdjacentTiles;
    }
  }

  /** The statistics of each entity of es, in list order. */
  ghost function StatsOf(es: seq<Entity>): (r: seq<Stat>)
    reads es
    ensures |r| == |es| && forall i :: 0 <= i < |es| ==> r[i] == StatOf(es[i])
  {
    seq(|es|, i requires 0 <= i < |es| reads es => StatOf(es[i]))
  }

  /** One enemy's action as the enemies' turn records it: the grid before
      and after, the player's health after it, the enemy, its statistics
      before and after, its order of steps and whether it struck. */
  datatype Step = Step(g0: seq<seq<Cell>>, g1: seq<seq<Cell>>, hp: int, e: Entity,
                       before: Stat, after: Stat, order: seq<Delta>, hit: bool)

  /** The recorded action is what TurnOf allows, the player standing at pp. */
  ghost predicate Acted(s: Step, pp: Pos) {
    Sized(s.g0) && Sized(s.g1) && TurnOf(s.g0, s.g1, pp, s.hp, s.e, s.before, s.after, s.order, s.hit)
  }

  /** Action j of steps is what TurnOf allows, starts on the grid the
      previous action left (g for the first), and leaves the player the
      health before it less one blow if the enemy struck (hp0 before the
      first). */
  ghost predicate Linked(steps: seq<Step>, j: nat, pp: Pos, g: seq<seq<Cell>>, hp0: int)
    requires j < |steps|
  {
    Acted(steps[j], pp) &&
    steps[j].g0 == (if j == 0 then g else steps[j - 1].g1) &&
    steps[j].hp == (if j == 0 then hp0 else steps[j - 1].hp) - (if steps[j].hit then EnemyAttack else 0)
  }

  /** The enemies' turn as a chain of actions from grid g and player health
      hp0, every one of them Linked to the one before. */
  ghost predicate Chain(steps: seq<Step>, pp: Pos, g: seq<seq<Cell>>, hp0: int) {
    forall j :: 0 <= j < |steps| ==> Linked(steps, j, pp, g, hp0)
  }

  /** The grid the chain leaves. */
  function GridAfter(steps: seq<Step>, g: seq<seq<Cell>>): seq<seq<Cell>> {
    if |steps| == 0 then g else steps[|steps| - 1].g1
  }

  /** The player's health after the chain. */
  function HpAfter(steps: seq<Step>, hp0: int): int {
    if |steps| == 0 then hp0 else steps[|steps| - 1].hp
  }

  /** How many of the recorded enemies struck. */
  function Hits(steps: seq<Step>): (n: nat)
    ensures n <= |steps|
  {
    if |steps| == 0 then 0 else Hits(steps[..|steps| - 1]) + (if steps[|steps| - 1].hit then 1 else 0)
  }

  /** One more enemy's action, starting where the chain ends, extends it. */
  lemma ChainStep(steps: seq<Step>, pp: Pos, g: seq<seq<Cell>>, hp0: int, s: Step)
    requires Chain(steps, pp, g, hp0) && Acted(s, pp)
    requires s.g0 == GridAfter(steps, g) && s.hp == HpAfter(steps, hp0) - (if s.hit then EnemyAttack else 0)
    ensures Chain(steps + [s], pp, g, hp0)
    ensures GridAfter(steps + [s], g) == s.g1 && HpAfter(steps + [s], hp0) == s.hp
    ensures Hits(steps + [s]) == Hits(steps) + (if s.hit then 1 else 0)
  {
    assert (steps + [s])[..|steps|] == steps;
    forall j | 0 <= j < |steps| + 1 ensures Linked(steps + [s], j, pp, g, hp0) {
      if j < |steps| {
        assert Linked(steps, j, pp, g, hp0);
      }
    }
  }

  /** Along the chain the player loses one blow per strike. */
  lemma {:induction false} ChainHits(steps: seq<Step>, pp: Pos, g: seq<seq<Cell>>, hp0: int)
    requires Chain(steps, pp, g, hp0)
    ensures HpAfter(steps, hp0) == hp0 - EnemyAttack * Hits(steps)
  {
    if |steps| > 0 {
      var n := |steps| - 1;
      var prefix := steps[..n];
      assert Chain(prefix, pp, g, hp0) by {
        forall j | 0 <= j < n ensures Linked(prefix, j, pp, g, hp0) {
          assert Linked(steps, j, pp, g, hp0);
        }
      }
      ChainHits(prefix, pp, g, hp0);
      assert Linked(steps, n, pp, g, hp0);
      if n > 0 {
        assert prefix[n - 1] == steps[n - 1];
      }
    }
  }

  /** Along the chain every enemy moves by at most one square and keeps its
      health and attack power. */
  lemma ChainMoves(steps: seq<Step>, pp: Pos, g: seq<seq<Cell>>, hp0: int)
    requires Chain(steps, pp, g, hp0)
    requires forall i, j :: 0 <= i < |steps| && 0 <= j < |steps[i].order| ==> steps[i].order[j] in AdjacentTiles
    ensures forall i :: 0 <= i < |steps| ==>
      steps[i].after.hp == steps[i].before.hp && steps[i].after.ap == steps[i].before.ap &&
      (steps[i].after.pos == steps[i].before.pos || Adjacent(steps[i].before.pos, steps[i].after.pos))
  {
    forall i | 0 <= i < |steps|
      ensures steps[i].after.hp == steps[i].before.hp && steps[i].after.ap == steps[i].before.ap &&
              (steps[i].after.pos == steps[i].before.pos || Adjacent(steps[i].before.pos, steps[i].after.pos))
    {
      var s := steps[i];
      assert Linked(steps, i, pp, g, hp0);
      TurnMovesAtMostOne(s.g0, s.g1, pp, s.hp, s.e, s.before, s.after, s.order, s.hit);
    }
  }

  /** The recorded actions are those of the first enemies of es, in list
      order, each with its order of steps and its first statistics. */
  ghost predicate Records(steps: seq<Step>, es: seq<Entity>, orders: seq<seq<Delta>>, befores: seq<Stat>) {
    |steps| <= |es| && |steps| <= |orders| && |steps| <= |befores| &&
    forall j :: 0 <= j < |steps| ==> steps[j].e == es[j] && steps[j].order == orders[j] && steps[j].before == befores[j]
  }

  /** Recording the next enemy's action keeps Records. */
  lemma RecordsStep(steps: seq<Step>, es: seq<Entity>, orders: seq<seq<Delta>>, befores: seq<Stat>, s: Step)
    requires Records(steps, es, orders, befores)
    requires |steps| < |es| && |steps| < |orders| && |steps| < |befores|
    requires s.e == es[|steps|] && s.order == orders[|steps|] && s.before == befores[|steps|]
    ensures Records(steps + [s], es, orders, befores)
  {
  }

  /** After enemy i of es has acted and no other of them changed, the first
      i + 1 have the statistics their recorded actions left and the rest
      their first ones. */
  twostate lemma StatsAfterTurn(new es: seq<Entity>, new befores: seq<Stat>, new steps: seq<Step>, new s: Step, new i: nat)
    requires old(allocated(es)) && old(allocated(steps)) && i < |es| == |befores| && |steps| == i && Distinct(es)
    requires old(forall j :: 0 <= j < |es| ==> StatOf(es[j]) == if j < i then steps[j].after else befores[j])
    requires forall e :: e in es && e != es[i] ==> unchanged(e)
    requires s.after == StatOf(es[i])
    ensures forall j :: 0 <= j < |es| ==> StatOf(es[j]) == if j < i + 1 then (steps + [s])[j].after else befores[j]
  {
    forall j | 0 <= j < |es| && j != i ensures StatOf(es[j]) == old(StatOf(es[j])) {
      assert es[j] != es[i] && es[j] in es;
    }
  }

  class Game {
    const field: array2<Cell>
    var rooms: seq<Room>
    var passages: seq<Pos>
    var player: Entity?
    var enemies: seq<Entity>

    /** All wall, no rooms, passages or entities (index.js:84-93). */
    constructor ()
      ensures Shaped(field) && fresh(field)
      ensures forall r, c :: 0 <= r < ROWS && 0 <= c < COLS ==> field[r, c] == Wall
      ensures rooms == [] && passages == [] && player == null && enemies == []
    {
      field := new Cell[ROWS, COLS]((r, c) => Wall);
      rooms, passages := [], [];
      player, enemies := null, [];
    }

    /** Cuts passageCount full columns, then passageCount full rows, recording
        one anchor per cut (index.js:95-109). columns[i] is the i-th column cut
        with its random anchor row; rows[i] the i-th row cut with its random
        anchor column. */
    method PlacePassages(passageCount: int, columns: seq<Pos>, rows: seq<Pos>)
      requires Shaped(field)
      requires 3 <= passageCount <= 5
      requires |columns| == passageCount && |rows| == passageCount
      requires forall i :: 0 <= i < |columns| ==> InBounds(columns[i].x, columns[i].y)
      requires forall i :: 0 <= i < |rows| ==> InBounds(rows[i].x, rows[i].y)
      modifies this`passages, field
      ensures passages == old(passages) + columns + rows
      ensures |passages| == |old(passages)| + 2 * passageCount
      ensures forall r, c :: 0 <= r < ROWS && 0 <= c < COLS ==>
        field[r, c] == if CutsColumn(columns, c) || CutsRow(rows, r) then Empty else old(field[r, c])
    {
      for i := 0 to passageCount
        invariant passages == old(passages) + columns[..i]
        invariant forall r, c :: 0 <= r < ROWS && 0 <= c < COLS ==>
          field[r, c] == if CutsColumn(columns[..i], c) then Empty else old(field[r, c])
      {
        var passageX := columns[i].x;
        for y := 0 to ROWS
          modifies field
          invariant forall r, c :: 0 <= r < ROWS && 0 <= c < COLS ==>
            field[r, c] == if CutsColumn(columns[..i], c) || (c == passageX && r < y) then Empty else old(field[r, c])
        {
          field[y, passageX] := Empty;
        }
        passages := passages + [columns[i]];
        assert columns[..i + 1] == columns[..i] + [columns[i]];
        forall c | 0 <= c < COLS ensures CutsColumn(columns[..i + 1], c) == (CutsColumn(columns[..i], c) || c == passageX) {
          if CutsColumn(columns[..i + 1], c) && c != passageX {
            var j :| 0 <= j < i + 1 && columns[..i + 1][j].x == c;
            assert columns[..i][j].x == c;
          }
          if CutsColumn(columns[..i], c) {
            var j :| 0 <= j < i && columns[..i][j].x == c;
            assert columns[..i + 1][j].x == c;
          }
          if c == passageX {
            assert columns[..i + 1][i].x == c;
          }
        }
      }
      assert columns[..passageCount] == columns;
      for i := 0 to passageCount
        invariant passages == old(passages) + columns + rows[..i]
        invariant forall r, c :: 0 <= r < ROWS && 0 <= c < COLS ==>
          field[r, c] == if CutsColumn(columns, c) || CutsRow(rows[..i], r) then Empty else old(field[r, c])
      {
        var passageY := rows[i].y;
        for x := 0 to COLS
          modifies field
          invariant forall r, c :: 0 <= r < ROWS && 0 <= c < COLS ==>
            field[r, c] == if CutsColumn(columns, c) || CutsRow(rows[..i], r) || (r == passageY && c < x) then Empty else old(field[r, c])
        {
          field[passageY, x] := Empty;
        }
        passages := passages + [rows[i]];
        assert rows[..i + 1] == rows[..i] + [rows[i]];
        forall r | 0 <= r < ROWS ensures CutsRow(rows[..i + 1], r) == (CutsRow(rows[..i], r) || r == passageY) {
          if CutsRow(rows[..i + 1], r) && r != passageY {
            var j :| 0 <= j < i + 1 && rows[..i + 1][j].y == r;
            assert rows[..i][j].y == r;
          }
          if CutsRow(rows[..i], r) {
            var j :| 0 <= j < i && rows[..i][j].y == r;
            assert rows[..i + 1][j].y == r;
          }
          if r == passageY {
            assert rows[..i + 1][i].y == r;
          }
        }
      }
      assert rows[..passageCount] == rows;
    }

    /** Carves one room of the drawn size, centred on the drawn passage anchor
        and clamped inside the grid, and logs it (index.js:111-131). */
    method AddRoom(width: int, height: int, anchor: int)
      requires Shaped(field)
      requires ValidChoice(RoomChoice(width, height, anchor), |passages|)
      modifies this`rooms, field
      ensures |rooms| == |old(rooms)| + 1 && rooms[..|old(rooms)|] == old(rooms)
      ensures rooms[|old(rooms)|] == Room(ClampOrigin(passages[anchor].x, width, COLS),
                                          ClampOrigin(passages[anchor].y, height, ROWS), width, height)
      ensures RoomInside(rooms[|old(rooms)|])
      ensures forall r, c :: 0 <= r < ROWS && 0 <= c < COLS ==>
        field[r, c] == if InRoom(rooms[|old(rooms)|], c, r) then Empty else old(field[r, c])
    {
      var passage := passages[anchor];
      var roomX := if passage.x - width / 2 < 0 then 0 else passage.x - width / 2;
      var roomY := if passage.y - height / 2 < 0 then 0 else passage.y - height / 2;
      if roomX + width >= COLS { roomX := COLS - width - 1; }
      if roomY + height >= ROWS { roomY := ROWS - height - 1; }
      var room := Room(roomX, roomY, width, height);
      rooms := rooms + [room];
      for x := roomX to roomX + width
        modifies field
        invariant forall r, c :: 0 <= r < ROWS && 0 <= c < COLS ==>
          field[r, c] == if roomX <= c < x && roomY <= r < roomY + height then Empty else old(field[r, c])
      {
        for y := roomY to roomY + height
          invariant forall r, c :: 0 <= r < ROWS && 0 <= c < COLS ==>
            field[r, c] == if (roomX <= c < x && roomY <= r < roomY + height) || (c == x && roomY <= r < y)
                           then Empty else old(field[r, c])
        {
          field[y, x] := Empty;
        }
      }
    }

    /** Carves one room per choice, in order (index.js:133-136); the number of
        choices is the drawn room count. */
    method PlaceRooms(choices: seq<RoomChoice>)
      requires Shaped(field)
      requires 5 <= |choices| <= 10
      requires forall i :: 0 <= i < |choices| ==> ValidChoice(choices[i], |passages|)
      modifies this`rooms, field
      ensures |rooms| == |old(rooms)| + |choices| && rooms[..|old(rooms)|] == old(rooms)
      ensures forall i :: |old(rooms)| <= i < |rooms| ==>
        RoomInside(rooms[i]) && rooms[i] == RoomOf(passages, choices[i - |old(rooms)|]) &&
        rooms[i].width == choices[i - |old(rooms)|].width && rooms[i].height == choices[i - |old(rooms)|].height
      ensures forall r, c :: 0 <= r < ROWS && 0 <= c < COLS ==>
        field[r, c] == if InSomeRoom(rooms[|old(rooms)|..], c, r) then Empty else old(field[r, c])
    {
      ghost var n0 := |rooms|;
      for i := 0 to |choices|
        invariant |rooms| == n0 + i && rooms[..n0] == old(rooms)
        invariant forall k :: n0 <= k < |rooms| ==>
          RoomInside(rooms[k]) && rooms[k] == RoomOf(passages, choices[k - n0]) &&
          rooms[k].width == choices[k - n0].width && rooms[k].height == choices[k - n0].height
        invariant forall r, c :: 0 <= r < ROWS && 0 <= c < COLS ==>
          field[r, c] == if InSomeRoom(rooms[n0..], c, r) then Empty else old(field[r, c])
      {
        ghost var before := rooms;
        AddRoom(choices[i].width, choices[i].height, choices[i].anchor);
        assert rooms[n0..] == before[n0..] + [rooms[n0 + i]];
        forall r, c | 0 <= r < ROWS && 0 <= c < COLS
          ensures InSomeRoom(rooms[n0..], c, r) == (InSomeRoom(before[n0..], c, r) || InRoom(rooms[n0 + i], c, r))
        {
          if InSomeRoom(rooms[n0..], c, r) && !InRoom(rooms[n0 + i], c, r) {
            var j :| 0 <= j < |rooms[n0..]| && InRoom(rooms[n0..][j], c, r);
            assert j < i && before[n0..][j] == rooms[n0..][j];
          }
          if InSomeRoom(before[n0..], c, r) {
            var j :| 0 <= j < |before[n0..]| && InRoom(before[n0..][j], c, r);
            assert rooms[n0..][j] == before[n0..][j];
          }
          if InRoom(rooms[n0 + i], c, r) {
            assert rooms[n0..][i] == rooms[n0 + i];
          }
        }
      }
    }
  
    /** No square holds an entity and no enemy is listed: the state before placement. */
    ghost predicate NoEntities()
      reads this, field
    {
      Shaped(field) && enemies == [] &&
      forall r, c :: 0 <= r < ROWS && 0 <= c < COLS ==> !field[r, c].PlayerCell? && !field[r, c].EnemyCell?
    }

    /** A listed enemy is alive, has the enemy attack power and stands on its own square. */
    ghost predicate EnemyPlaced(e: Entity)
      reads this, field, e
      requires Shaped(field)
    {
      !e.isPlayer && e.hp > 0 && e.attackPower == EnemyAttack &&
      InBounds(e.x, e.y) && field[e.y, e.x] == EnemyCell(e)
    }

    /** A square holding an entity is that entity's recorded position, and an
        enemy found on the grid is a listed one. */
    ghost predicate SquareConsistent(r: int, c: int)
      reads this, field, player, enemies
      requires Shaped(field) && player != null && 0 <= r < ROWS && 0 <= c < COLS
    {
      (field[r, c] == PlayerCell ==> player.x == c && player.y == r) &&
      (field[r, c].EnemyCell? ==>
        field[r, c].enemy in enemies && field[r, c].enemy.x == c && field[r, c].enemy.y == r)
    }

    /** The game invariant: every live entity sits in its own square and every
        entity square belongs to the entity recorded there. A player whose
        health has dropped to 0 or below has had its square cleared
        (index.js:240-242), so only a live player is required to be on the grid. */
    ghost predicate Valid()
      reads this, field, player, enemies
    {
      Shaped(field) &&
      player != null && player.isPlayer && InBounds(player.x, player.y) &&
      (player.hp > 0 ==> field[player.y, player.x] == PlayerCell) &&
      (forall i :: 0 <= i < |enemies| ==> EnemyPlaced(enemies[i])) &&
      Distinct(enemies) &&
      (forall r, c :: 0 <= r < ROWS && 0 <= c < COLS ==> SquareConsistent(r, c))
    }

    /** Lists the Empty squares in row-major order (index.js:139-146). */
    method EmptyTiles() returns (tiles: seq<Pos>)
      requires Shaped(field)
      ensures tiles == EmptyCells(field)
    {
      tiles := [];
      for y := 0 to ROWS
        invariant tiles == EmptyRows(field, y)
      {
        for x := 0 to COLS
          invariant tiles == EmptyRows(field, y) + EmptyInRow(field, y, x)
        {
          if field[y, x].Empty? {
            tiles := tiles + [Pos(x, y)];
          }
        }
      }
    }

    /** Puts count copies of a pickup on tiles[start..start+count] (the loops
        at index.js:152-155 and 158-161). */
    method FillTiles(tiles: seq<Pos>, start: nat, count: nat, item: Floor)
      requires Shaped(field) && start + count <= |tiles|
      requires forall k :: 0 <= k < |tiles| ==> 0 <= tiles[k].x < COLS && 0 <= tiles[k].y < ROWS
      requires forall i, j :: 0 <= i < j < |tiles| ==> tiles[i] != tiles[j]
      modifies field
      ensures forall k :: start <= k < start + count ==> field[tiles[k].y, tiles[k].x] == item
      ensures forall r, c :: 0 <= r < ROWS && 0 <= c < COLS && Pos(c, r) !in tiles[start..start + count] ==>
        field[r, c] == old(field[r, c])
    {
      for i := 0 to count
        invariant forall k :: start <= k < start + i ==> field[tiles[k].y, tiles[k].x] == item
        invariant forall r, c :: 0 <= r < ROWS && 0 <= c < COLS && Pos(c, r) !in tiles[start..start + i] ==>
          field[r, c] == old(field[r, c])
      {
        var p := tiles[start + i];
        field[p.y, p.x] := item;
        assert tiles[start..start + i + 1] == tiles[start..start + i] + [p];
      }
    }

    /** A freshly made enemy standing on square p. */
    ghost predicate NewEnemyAt(e: Entity, p: Pos)
      reads field, e
      requires Shaped(field)
    {
      !e.isPlayer && e.x == p.x && e.y == p.y && InBounds(p.x, p.y) &&
      e.hp == StartHp && e.attackPower == EnemyAttack && e.direction == Right && e.steppedOn == Empty &&
      field[p.y, p.x] == EnemyCell(e)
    }

    /** Creates an enemy on square q and lists it (index.js:171-174). */
    method AddEnemy(q: Pos) returns (enemy: Entity)
      requires Shaped(field) && InBounds(q.x, q.y)
      modifies this`enemies, field
      ensures fresh(enemy) && NewEnemyAt(enemy, q)
      ensures enemies == old(enemies) + [enemy]
      ensures forall r, c :: 0 <= r < ROWS && 0 <= c < COLS && Pos(c, r) != q ==> field[r, c] == old(field[r, c])
    {
      enemy := new Entity.Enemy(q.x, q.y);
      field[q.y, q.x] := EnemyCell(enemy);
      enemies := enemies + [enemy];
    }

    /** Enemy es[j] is a fresh-made enemy standing on ps[j], for every j. */
    ghost predicate EnemiesAt(es: seq<Entity>, ps: seq<Pos>)
      reads field, es
      requires Shaped(field)
    {
      |es| == |ps| && forall j :: 0 <= j < |es| ==> NewEnemyAt(es[j], ps[j])
    }

    /** Enemies placed earlier keep their squares when square q, none of
        theirs, is written. */
    twostate lemma EnemiesStay(new es: seq<Entity>, new ps: seq<Pos>, new q: Pos)
      requires old(allocated(es)) && Shaped(field) && old(EnemiesAt(es, ps)) && q !in ps
      requires forall j :: 0 <= j < |es| ==> unchanged(es[j])
      requires forall r, c :: 0 <= r < ROWS && 0 <= c < COLS && Pos(c, r) != q ==> field[r, c] == old(field[r, c])
      ensures EnemiesAt(es, ps)
    {
      forall j | 0 <= j < |es| ensures NewEnemyAt(es[j], ps[j]) {
        assert old(NewEnemyAt(es[j], ps[j]));
      }
    }

    lemma EnemiesAtAppend(es: seq<Entity>, ps: seq<Pos>, e: Entity, p: Pos)
      requires Shaped(field) && EnemiesAt(es, ps) && NewEnemyAt(e, p)
      ensures EnemiesAt(es + [e], ps + [p])
    {
      forall j | 0 <= j < |es| + 1 ensures NewEnemyAt((es + [e])[j], (ps + [p])[j]) {
        if j < |es| {
          assert (es + [e])[j] == es[j] && (ps + [p])[j] == ps[j];
        }
      }
    }

    /** Creates one enemy on each of tiles[start..start+10] and lists it (index.js:170-175). */
    method PlaceEnemies(tiles: seq<Pos>, start: nat)
      requires Shaped(field) && start + NumEnemies <= |tiles|
      requires forall k :: 0 <= k < |tiles| ==> 0 <= tiles[k].x < COLS && 0 <= tiles[k].y < ROWS
      requires forall i, j :: 0 <= i < j < |tiles| ==> tiles[i] != tiles[j]
      modifies this`enemies, field
      ensures |enemies| == |old(enemies)| + NumEnemies && enemies[..|old(enemies)|] == old(enemies)
      ensures forall j :: |old(enemies)| <= j < |enemies| ==>
        fresh(enemies[j]) && NewEnemyAt(enemies[j], tiles[start + j - |old(enemies)|])
      ensures forall j1, j2 :: |old(enemies)| <= j1 < j2 < |enemies| ==> enemies[j1] != enemies[j2]
      ensures forall r, c :: 0 <= r < ROWS && 0 <= c < COLS && Pos(c, r) !in tiles[start..start + NumEnemies] ==>
        field[r, c] == old(field[r, c])
    {
      ghost var n0 := |enemies|;
      var ps := tiles[start..start + NumEnemies];
      ghost var added := AddEnemies(ps);
      forall j | n0 <= j < |enemies| ensures NewEnemyAt(enemies[j], tiles[start + j - n0]) {
        assert added[j - n0] == enemies[j] && ps[j - n0] == tiles[start + j - n0];
      }
    }

    /** The enemy loop proper: one new enemy on each square of ps, in order,
        appended to the list (index.js:170-175). */
    method AddEnemies(ps: seq<Pos>) returns (ghost added: seq<Entity>)
      requires Shaped(field)
      requires forall k :: 0 <= k < |ps| ==> InBounds(ps[k].x, ps[k].y)
      requires forall i, j :: 0 <= i < j < |ps| ==> ps[i] != ps[j]
      modifies this`enemies, field
      ensures enemies == old(enemies) + added
      ensures forall j :: 0 <= j < |added| ==> fresh(added[j])
      ensures EnemiesAt(added, ps)
      ensures forall j1, j2 :: 0 <= j1 < j2 < |added| ==> added[j1] != added[j2]
      ensures forall r, c :: 0 <= r < ROWS && 0 <= c < COLS && Pos(c, r) !in ps ==> field[r, c] == old(field[r, c])
    {
      added := [];
      for i := 0 to |ps|
        invariant enemies == old(enemies) + added && |added| == i
        invariant forall j :: 0 <= j < i ==> fresh(added[j])
        invariant EnemiesAt(added, ps[..i])
        invariant forall j1, j2 :: 0 <= j1 < j2 < i ==> added[j1] != added[j2]
        invariant forall r, c :: 0 <= r < ROWS && 0 <= c < COLS && Pos(c, r) !in ps[..i] ==>
          field[r, c] == old(field[r, c])
      {
        var q := ps[i];
        label Before:
        var enemy := AddEnemy(q);
        assert ps[..i + 1] == ps[..i] + [q];
        assert q !in ps[..i];
        EnemiesStay@Before(added, ps[..i], q);
        EnemiesAtAppend(added, ps[..i], enemy, q);
        added := added + [enemy];
      }
      assert ps[..|ps|] == ps;
    }

    /** The sword and potion loops of placeObjects (index.js:150-161): 2 swords
        on tiles[0..2], then 10 potions on tiles[2..12]. */
    method PlacePickups(tiles: seq<Pos>)
      requires Shaped(field) && |tiles| >= NumSwords + NumPotions
      requires forall k :: 0 <= k < |tiles| ==> 0 <= tiles[k].x < COLS && 0 <= tiles[k].y < ROWS
      requires forall i, j :: 0 <= i < j < |tiles| ==> tiles[i] != tiles[j]
      modifies field
      ensures forall k :: 0 <= k < NumSwords ==> field[tiles[k].y, tiles[k].x] == Sword
      ensures forall k :: NumSwords <= k < NumSwords + NumPotions ==> field[tiles[k].y, tiles[k].x] == Potion
      ensures forall r, c :: 0 <= r < ROWS && 0 <= c < COLS && Pos(c, r) !in tiles[..NumSwords + NumPotions] ==>
        field[r, c] == old(field[r, c])
    {
      FillTiles(tiles, 0, NumSwords, Sword);
      FillTiles(tiles, NumSwords, NumPotions, Potion);
      forall k | 0 <= k < NumSwords ensures field[tiles[k].y, tiles[k].x] == Sword {
        SliceExcludes(tiles, k, NumSwords, NumSwords + NumPotions);
      }
      forall r, c | 0 <= r < ROWS && 0 <= c < COLS && Pos(c, r) !in tiles[..NumSwords + NumPotions]
        ensures field[r, c] == old(field[r, c])
      {
        SliceWithin(tiles, Pos(c, r), NumSwords + NumPotions);
      }
    }

    /** Creates the player on square p (index.js:163-168). */
    method PlacePlayer(p: Pos)
      requires Shaped(field) && InBounds(p.x, p.y)
      modifies this`player, field
      ensures player != null && fresh(player) && player.isPlayer && player.x == p.x && player.y == p.y
      ensures player.hp == StartHp && player.attackPower == PlayerAttack
      ensures field[p.y, p.x] == PlayerCell
      ensures forall r, c :: 0 <= r < ROWS && 0 <= c < COLS && Pos(c, r) != p ==> field[r, c] == old(field[r, c])
    {
      var newPlayer := new Entity.Player(p.x, p.y);
      player := newPlayer;
      field[p.y, p.x] := PlayerCell;
    }

    /** Fills the first 23 of the shuffled squares in order: 2 swords, 10
        potions, the player, 10 enemies (index.js:150-175). */
    method FillShuffled(tiles: seq<Pos>)
      requires Shaped(field) && |tiles| == NumObjects
      requires forall k :: 0 <= k < |tiles| ==> 0 <= tiles[k].x < COLS && 0 <= tiles[k].y < ROWS
      requires forall i, j :: 0 <= i < j < |tiles| ==> tiles[i] != tiles[j]
      modifies this`player, this`enemies, field
      ensures forall k :: 0 <= k < NumSwords ==> field[tiles[k].y, tiles[k].x] == Sword
      ensures forall k :: NumSwords <= k < NumSwords + NumPotions ==> field[tiles[k].y, tiles[k].x] == Potion
      ensures player != null && fresh(player) && player.isPlayer
      ensures player.x == tiles[NumSwords + NumPotions].x && player.y == tiles[NumSwords + NumPotions].y
      ensures player.hp == StartHp && player.attackPower == PlayerAttack
      ensures field[player.y, player.x] == PlayerCell
      ensures |enemies| == |old(enemies)| + NumEnemies && enemies[..|old(enemies)|] == old(enemies)
      ensures forall j :: |old(enemies)| <= j < |enemies| ==>
        fresh(enemies[j]) && NewEnemyAt(enemies[j], tiles[NumSwords + NumPotions + 1 + j - |old(enemies)|])
      ensures forall j1, j2 :: |old(enemies)| <= j1 < j2 < |enemies| ==> enemies[j1] != enemies[j2]
      ensures forall r, c :: 0 <= r < ROWS && 0 <= c < COLS && Pos(c, r) !in tiles ==>
        field[r, c] == old(field[r, c])
    {
      var index := 0;
      PlacePickups(tiles);
      index := index + NumSwords + NumPotions;
      label Pickups:
      var p := tiles[index];
      PlacePlayer(p);
      index := index + 1;
      label Player:
      PlaceEnemies(tiles, index);
      forall k | 0 <= k < NumSwords + NumPotions
        ensures field[tiles[k].y, tiles[k].x] == old@Pickups(field[tiles[k].y, tiles[k].x])
      {
        SliceExcludes(tiles, k, NumSwords + NumPotions + 1, NumObjects);
      }
      SliceExcludes(tiles, NumSwords + NumPotions, NumSwords + NumPotions + 1, NumObjects);
      forall r, c | 0 <= r < ROWS && 0 <= c < COLS && Pos(c, r) !in tiles
        ensures field[r, c] == old(field[r, c])
      {
        assert tiles[..NumObjects] == tiles;
        SliceWithin(tiles, Pos(c, r), NumObjects);
      }
    }

    /** The first 23 Empty squares after the shuffle (index.js:139-148):
        distinct squares of the grid that are all Empty. shuffle(n) is the
        random permutation lodash draws for a list of n items. */
    method ShuffledEmpty(shuffle: nat -> seq<int>) returns (picked: seq<Pos>)
      requires Shaped(field)
      requires forall n: nat :: IsPermutation(shuffle(n), n)
      requires |EmptyCells(field)| >= NumObjects
      ensures picked == Permuted(EmptyCells(field), shuffle(|EmptyCells(field)|))[..NumObjects]
      ensures forall k :: 0 <= k < NumObjects ==>
        0 <= picked[k].x < COLS && 0 <= picked[k].y < ROWS && field[picked[k].y, picked[k].x] == Empty
      ensures forall i, j :: 0 <= i < j < NumObjects ==> picked[i] != picked[j]
    {
      var emptyTiles := EmptyTiles();
      EmptyCellsFacts(field);
      var perm := shuffle(|emptyTiles|);
      var shuffledTiles := Permuted(emptyTiles, perm);
      PermutedDistinct(emptyTiles, perm);
      picked := shuffledTiles[..NumObjects];
    }

    /** Shuffles the Empty squares and fills them in order: 2 swords, 10
        potions, the player, 10 enemies (index.js:138-176). shuffle is as for
        ShuffledEmpty; the source needs at least 23 Empty squares, since it
        reads past the end of the shuffled list otherwise, and Init shows the
        grid the generator carves always has them. Returns the 23 squares
        used, in order. */
    method PlaceObjects(shuffle: nat -> seq<int>) returns (ghost chosen: seq<Pos>)
      requires Shaped(field)
      requires forall n: nat :: IsPermutation(shuffle(n), n)
      requires |EmptyCells(field)| >= NumObjects
      modifies this`player, this`enemies, field
      ensures chosen == Permuted(old(EmptyCells(field)), shuffle(old(|EmptyCells(field)|)))[..NumObjects]
      ensures forall k :: 0 <= k < NumObjects ==>
        0 <= chosen[k].x < COLS && 0 <= chosen[k].y < ROWS && old(field[chosen[k].y, chosen[k].x]) == Empty
      ensures forall i, j :: 0 <= i < j < NumObjects ==> chosen[i] != chosen[j]
      ensures forall k :: 0 <= k < NumSwords ==> field[chosen[k].y, chosen[k].x] == Sword
      ensures forall k :: NumSwords <= k < NumSwords + NumPotions ==> field[chosen[k].y, chosen[k].x] == Potion
      ensures player != null && fresh(player) && player.isPlayer
      ensures player.x == chosen[NumSwords + NumPotions].x && player.y == chosen[NumSwords + NumPotions].y
      ensures player.hp == StartHp && player.attackPower == PlayerAttack
      ensures InBounds(player.x, player.y) && field[player.y, player.x] == PlayerCell
      ensures |enemies| == |old(enemies)| + NumEnemies && enemies[..|old(enemies)|] == old(enemies)
      ensures forall j :: |old(enemies)| <= j < |enemies| ==>
        fresh(enemies[j]) && NewEnemyAt(enemies[j], chosen[NumSwords + NumPotions + 1 + j - |old(enemies)|])
      ensures forall r, c :: 0 <= r < ROWS && 0 <= c < COLS && Pos(c, r) !in chosen ==>
        field[r, c] == old(field[r, c])
      ensures old(NoEntities()) ==> Valid()
    {
      var picked := ShuffledEmpty(shuffle);
      chosen := picked;
      assert chosen == Permuted(old(EmptyCells(field)), shuffle(old(|EmptyCells(field)|)))[..NumObjects];
      assert forall k :: 0 <= k < NumObjects ==>
        0 <= chosen[k].x < COLS && 0 <= chosen[k].y < ROWS && old(field[chosen[k].y, chosen[k].x]) == Empty;
      FillShuffled(picked);
      if old(NoEntities()) {
        PlaceObjectsValid(chosen);
      }
    }

    /** The generation steps of init (index.js:292-294): cut the passages,
        carve the rooms, place the objects. The cuts leave a whole column and
        a whole row Empty and rooms only add Empty squares, so at least
        ROWS + COLS - 1 = 63 squares are Empty when the objects are placed,
        more than the 23 PlaceObjects takes. The game then starts in the
        invariant, with the drawn passages and rooms, the player at full
        health and all ten enemies listed. */
    method Init(passageCount: int, columns: seq<Pos>, rows: seq<Pos>, choices: seq<RoomChoice>,
                shuffle: nat -> seq<int>) returns (ghost chosen: seq<Pos>)
      requires NoEntities() && passages == [] && rooms == []
      requires 3 <= passageCount <= 5 && |columns| == passageCount && |rows| == passageCount
      requires forall i :: 0 <= i < |columns| ==> InBounds(columns[i].x, columns[i].y)
      requires forall i :: 0 <= i < |rows| ==> InBounds(rows[i].x, rows[i].y)
      requires 5 <= |choices| <= 10 && forall i :: 0 <= i < |choices| ==> ValidChoice(choices[i], 2 * passageCount)
      requires forall n: nat :: IsPermutation(shuffle(n), n)
      modifies this`passages, this`rooms, this`player, this`enemies, field
      ensures Valid()
      ensures passages == columns + rows
      ensures |rooms| == |choices| && forall i :: 0 <= i < |choices| ==> RoomInside(rooms[i]) && rooms[i] == RoomOf(passages, choices[i])
      ensures |enemies| == NumEnemies
      ensures player.hp == StartHp && player.attackPower == PlayerAttack
      ensures |chosen| == NumObjects && forall i, j :: 0 <= i < j < NumObjects ==> chosen[i] != chosen[j]
      ensures Shaped(field) && forall k :: 0 <= k < NumObjects ==> 0 <= chosen[k].x < COLS && 0 <= chosen[k].y < ROWS
      ensures forall k :: 0 <= k < NumSwords ==> field[chosen[k].y, chosen[k].x] == Sword
      ensures forall k :: NumSwords <= k < NumSwords + NumPotions ==> field[chosen[k].y, chosen[k].x] == Potion
    {
      PlacePassages(passageCount, columns, rows);
      assert passages == columns + rows by {
        assert [] + columns == columns;
      }
      ghost var c0, r0 := columns[0].x, rows[0].y;
      assert CutsColumn(columns, c0) && CutsRow(rows, r0);
      assert forall r :: 0 <= r < ROWS ==> field[r, c0].Empty?;
      assert forall c :: 0 <= c < COLS ==> field[r0, c].Empty?;
      PlaceRooms(choices);
      CrossEmpty(field, c0, r0);
      assert NoEntities();
      chosen := PlaceObjects(shuffle);
    }

    /** The square-by-square argument that placement on an entity-free grid
        leaves the game invariant holding. */
    lemma PlaceObjectsValid(chosen: seq<Pos>)
      requires Shaped(field) && |chosen| == NumObjects
      requires forall k :: 0 <= k < NumObjects ==> 0 <= chosen[k].x < COLS && 0 <= chosen[k].y < ROWS
      requires forall k :: 0 <= k < NumSwords ==> field[chosen[k].y, chosen[k].x] == Sword
      requires forall k :: NumSwords <= k < NumSwords + NumPotions ==> field[chosen[k].y, chosen[k].x] == Potion
      requires player != null && player.isPlayer && player.hp > 0
      requires player.x == chosen[NumSwords + NumPotions].x && player.y == chosen[NumSwords + NumPotions].y
      requires field[player.y, player.x] == PlayerCell
      requires |enemies| == NumEnemies
      requires forall j :: 0 <= j < |enemies| ==> NewEnemyAt(enemies[j], chosen[NumSwords + NumPotions + 1 + j])
      requires forall j1, j2 :: 0 <= j1 < j2 < |enemies| ==> enemies[j1] != enemies[j2]
      requires forall r, c :: 0 <= r < ROWS && 0 <= c < COLS && Pos(c, r) !in chosen ==>
        !field[r, c].PlayerCell? && !field[r, c].EnemyCell?
      ensures Valid()
    {
      forall r, c | 0 <= r < ROWS && 0 <= c < COLS ensures SquareConsistent(r, c) {
        if Pos(c, r) in chosen {
          var k :| 0 <= k < NumObjects && chosen[k] == Pos(c, r);
          if k > NumSwords + NumPotions {
            assert NewEnemyAt(enemies[k - NumSwords - NumPotions - 1], chosen[k]);
          }
        }
      }
      forall i | 0 <= i < |enemies| ensures EnemyPlaced(enemies[i]) {
        assert NewEnemyAt(enemies[i], chosen[NumSwords + NumPotions + 1 + i]);
      }
    }

    /** An entity may step onto (c, r): it is inside the grid and floor or a
        pickup, not a wall or another entity (index.js:207-210). */
    ghost predicate Open(c: int, r: int)
      reads field
      requires Shaped(field)
    {
      InBounds(c, r) && IsFloor(field[r, c])
    }

    /** The player's recorded square holds an enemy: possible only once the
        player has died, had its square cleared and been walked over. */
    ghost predicate PlayerSquareTaken()
      reads this, field, player, enemies
      requires Valid()
    {
      field[player.y, player.x].EnemyCell?
    }

    /** What an entity does with the floor it steps onto (index.js:212-222):
        an enemy hands back what it stood on and carries the new pickup; the
        player stays empty-handed and uses a sword or potion at once.
        Returns what is left behind on the square being vacated. */
    method Collect(entity: Entity, adj: Floor) returns (toLeave: Floor)
      requires entity.isPlayer <==> entity == player
      modifies entity`steppedOn, entity`hp, entity`attackPower
      ensures toLeave == (if entity.isPlayer then Empty else old(entity.steppedOn))
      ensures entity.isPlayer ==>
        entity.hp == (if adj == Potion then Healed(old(entity.hp)) else old(entity.hp)) &&
        entity.attackPower == (if adj == Sword then 2 * old(entity.attackPower) else old(entity.attackPower)) &&
        entity.steppedOn == old(entity.steppedOn)
      ensures !entity.isPlayer ==>
        entity.steppedOn == adj && entity.hp == old(entity.hp) && entity.attackPower == old(entity.attackPower)
    {
      toLeave := Empty;
      if !entity.isPlayer {
        toLeave := entity.StepOut();
      }
      if adj == Sword {
        if entity == player {
          entity.PickSword();
        } else {
          entity.StepOn(adj);
        }
      } else if adj == Potion {
        if entity == player {
          entity.PickPotion();
        } else {
          entity.StepOn(adj);
        }
      }
    }

    /** One step of the player or an enemy (index.js:203-229): turn towards
        dx, then give up if the target is off the grid, a wall or an entity;
        otherwise an enemy puts back what it stood on and picks up what it
        steps onto, the player uses a sword or potion at once, and the
        entity moves. */
    method MoveEntity(entity: Entity, dx: int, dy: int) returns (moved: Option<Pos>)
      requires Valid() && (entity == player || entity in enemies)
      requires Delta(dx, dy) in AdjacentTiles
      modifies entity, field
      ensures entity.direction == Turned(old(entity.direction), dx)
      ensures moved.Some? <==> old(Open(entity.x + dx, entity.y + dy))
      ensures moved.None? ==>
        unchanged(field) && entity.x == old(entity.x) && entity.y == old(entity.y) &&
        entity.hp == old(entity.hp) && entity.attackPower == old(entity.attackPower) &&
        entity.steppedOn == old(entity.steppedOn)
      ensures moved.Some? ==>
        moved.value == Pos(entity.x, entity.y) &&
        entity.x == old(entity.x) + dx && entity.y == old(entity.y) + dy &&
        field[old(entity.y), old(entity.x)] == (if entity.isPlayer then Empty else old(entity.steppedOn)) &&
        field[entity.y, entity.x] == (if entity.isPlayer then PlayerCell else EnemyCell(entity))
      ensures moved.Some? && entity.isPlayer ==>
        entity.hp == (if old(field[entity.y + dy, entity.x + dx]) == Potion then Healed(old(entity.hp)) else old(entity.hp)) &&
        entity.attackPower == (if old(field[entity.y + dy, entity.x + dx]) == Sword then 2 * old(entity.attackPower) else old(entity.attackPower)) &&
        entity.steppedOn == old(entity.steppedOn)
      ensures moved.Some? && !entity.isPlayer ==>
        entity.steppedOn == old(field[entity.y + dy, entity.x + dx]) &&
        entity.hp == old(entity.hp) && entity.attackPower == old(entity.attackPower)
      ensures moved.Some? ==> forall r, c ::
        0 <= r < ROWS && 0 <= c < COLS && Pos(c, r) != Pos(old(entity.x), old(entity.y)) &&
        Pos(c, r) != Pos(entity.x, entity.y)
        ==> field[r, c] == old(field[r, c])
      ensures !(entity.isPlayer && old(PlayerSquareTaken())) ==> Valid()
    {
      if dx == 1 {
        entity.direction := Right;
      } else if dx == -1 {
        entity.direction := Left;
      }
      forall r, c | 0 <= r < ROWS && 0 <= c < COLS ensures SquareConsistent(r, c) {
        assert old(SquareConsistent(r, c));
      }
      forall i | 0 <= i < |enemies| ensures EnemyPlaced(enemies[i]) {
        assert old(EnemyPlaced(enemies[i]));
      }
      if entity.x + dx < 0 || entity.x + dx >= COLS {
        return None;
      }
      if entity.y + dy < 0 || entity.y + dy >= ROWS {
        return None;
      }
      var adj := field[entity.y + dy, entity.x + dx];
      if adj.Wall? || adj.PlayerCell? || adj.EnemyCell? {
        return None;
      }
      var x, y := Advance(entity, dx, dy, adj);
      moved := Some(Pos(x, y));
    }

    /** The accepted part of a step (index.js:212-228): onto the floor square
        adj at (entity.x + dx, entity.y + dy). */
    method Advance(entity: Entity, dx: int, dy: int, adj: Floor) returns (nx: int, ny: int)
      requires Valid() && (entity == player || entity in enemies)
      requires Delta(dx, dy) in AdjacentTiles
      requires InBounds(entity.x + dx, entity.y + dy) && field[entity.y + dy, entity.x + dx] == adj
      modifies entity`x, entity`y, entity`hp, entity`attackPower, entity`steppedOn, field
      ensures nx == entity.x == old(entity.x) + dx && ny == entity.y == old(entity.y) + dy
      ensures field[old(entity.y), old(entity.x)] == (if entity.isPlayer then Empty else old(entity.steppedOn))
      ensures field[ny, nx] == (if entity.isPlayer then PlayerCell else EnemyCell(entity))
      ensures entity.isPlayer ==>
        entity.hp == (if adj == Potion then Healed(old(entity.hp)) else old(entity.hp)) &&
        entity.attackPower == (if adj == Sword then 2 * old(entity.attackPower) else old(entity.attackPower)) &&
        entity.steppedOn == old(entity.steppedOn)
      ensures !entity.isPlayer ==>
        entity.steppedOn == adj && entity.hp == old(entity.hp) && entity.attackPower == old(entity.attackPower)
      ensures forall r, c ::
        0 <= r < ROWS && 0 <= c < COLS && Pos(c, r) != Pos(old(entity.x), old(entity.y)) && Pos(c, r) != Pos(nx, ny)
        ==> field[r, c] == old(field[r, c])
      ensures !(entity.isPlayer && old(PlayerSquareTaken())) ==> Valid()
    {
      assert entity.isPlayer <==> entity == player by {
        if entity != player {
          var j :| 0 <= j < |enemies| && enemies[j] == entity;
          assert EnemyPlaced(enemies[j]);
        }
      }
      var toLeave := Collect(entity, adj);
      field[entity.y, entity.x] := toLeave;
      nx, ny := entity.Move(dx, dy);
      field[ny, nx] := if entity.isPlayer then PlayerCell else EnemyCell(entity);
      if !(entity.isPlayer && old(PlayerSquareTaken())) {
        MovedValid(entity, nx - dx, ny - dy, nx, ny);
      }
    }

    /** After a step from (ox, oy) that left floor behind and put the entity on
        its new square, every square and every entity is consistent again. */
    twostate lemma MovedValid(new entity: Entity, new ox: int, new oy: int, new nx: int, new ny: int)
      requires old(Valid()) && (entity == old(player) || entity in old(enemies))
      requires Shaped(field) && player == old(player) && enemies == old(enemies)
      requires InBounds(ox, oy) && old(entity.x) == ox && old(entity.y) == oy
      requires !(entity.isPlayer && old(field[oy, ox]).EnemyCell?)
      requires entity.x == nx && entity.y == ny && old(Open(nx, ny))
      requires IsFloor(field[oy, ox])
      requires field[entity.y, entity.x] == (if entity.isPlayer then PlayerCell else EnemyCell(entity))
      requires forall r, c ::
        0 <= r < ROWS && 0 <= c < COLS && Pos(c, r) != Pos(ox, oy) && Pos(c, r) != Pos(entity.x, entity.y)
        ==> field[r, c] == old(field[r, c])
      requires !entity.isPlayer ==> entity.hp == old(entity.hp) && entity.attackPower == old(entity.attackPower)
      requires forall e :: e in enemies && e != entity ==>
        e.x == old(e.x) && e.y == old(e.y) && e.hp == old(e.hp) && e.attackPower == old(e.attackPower)
      requires entity != player ==>
        player.x == old(player.x) && player.y == old(player.y) && player.hp == old(player.hp)
      ensures Valid()
    {
      forall r, c | 0 <= r < ROWS && 0 <= c < COLS ensures SquareConsistent(r, c) {
        if Pos(c, r) != Pos(ox, oy) && Pos(c, r) != Pos(entity.x, entity.y) {
          assert old(SquareConsistent(r, c));
        }
      }
      forall i | 0 <= i < |enemies| ensures EnemyPlaced(enemies[i]) {
        var e := enemies[i];
        assert old(EnemyPlaced(e));
        if e != entity {
          if !entity.isPlayer {
            var j :| 0 <= j < |enemies| && enemies[j] == entity;
            assert old(EnemyPlaced(enemies[j]));
          }
          assert Pos(e.x, e.y) != Pos(ox, oy);
          assert Pos(e.x, e.y) != Pos(entity.x, entity.y);
          assert field[e.y, e.x] == EnemyCell(e);
        } else {
          assert field[e.y, e.x] == EnemyCell(e);
          assert e.hp > 0;
        }
      }
      if player.hp > 0 && entity != player {
        assert old(field[player.y, player.x]) == PlayerCell;
      }
    }

    /** Pickups are conserved by a step, stated on MoveEntity's accepted-step
        postconditions: an enemy trades what it carried for what it stepped
        onto, so squares holding sword or potion k plus the enemy's carried
        item are as many as before; a live player uses what it stepped onto,
        which leaves the grid. */
    twostate lemma StepKeepsPickups(new entity: Entity, new dx: int, new dy: int, new k: Cell)
      requires old(allocated(entity)) && (k == Sword || k == Potion)
      requires old(Valid()) && ((entity == old(player) && old(entity.hp) > 0) || entity in old(enemies))
      requires Shaped(field) && Delta(dx, dy) in AdjacentTiles
      requires entity.x == old(entity.x) + dx && entity.y == old(entity.y) + dy && InBounds(entity.x, entity.y)
      requires field[old(entity.y), old(entity.x)] == (if entity.isPlayer then Empty else old(entity.steppedOn))
      requires field[entity.y, entity.x] == (if entity.isPlayer then PlayerCell else EnemyCell(entity))
      requires !entity.isPlayer ==> entity.steppedOn == old(field[entity.y + dy, entity.x + dx])
      requires forall r, c ::
        0 <= r < ROWS && 0 <= c < COLS && Pos(c, r) != Pos(old(entity.x), old(entity.y)) &&
        Pos(c, r) != Pos(entity.x, entity.y)
        ==> field[r, c] == old(field[r, c])
      ensures entity.isPlayer ==>
        CountIn(Snapshot(), k) + Has(old(field[entity.y + dy, entity.x + dx]), k) == old(CountIn(Snapshot(), k))
      ensures !entity.isPlayer ==>
        CountIn(Snapshot(), k) + Has(entity.steppedOn, k) == old(CountIn(Snapshot(), k)) + Has(old(entity.steppedOn), k)
    {
      var o := Pos(old(entity.x), old(entity.y));
      if entity in old(enemies) {
        var j :| 0 <= j < |old(enemies)| && old(enemies)[j] == entity;
        assert old(EnemyPlaced(enemies[j]));
      }
      assert old(field[o.y, o.x]) == (if entity.isPlayer then PlayerCell else EnemyCell(entity));
      ghost var g0, g1 := old(Snapshot()), Snapshot();
      var n := Pos(entity.x, entity.y);
      assert old(Snapshot()[n.y][n.x] == field[n.y, n.x]);
      assert g1[o.y][o.x] == field[o.y, o.x];
      StepCount(g0, g1, o, n, k);
    }

    /** Square (c, r) is inside the grid and holds what the given side
        attacks: an enemy for the player, the player for an enemy
        (index.js:236-237). Off the grid the source's lookup yields
        undefined, which is neither. */
    predicate HoldsTarget(c: int, r: int, isPlayer: bool)
      reads this, field
      requires Shaped(field)
    {
      InBounds(c, r) && (if isPlayer then field[r, c].EnemyCell? else field[r, c] == PlayerCell)
    }

    /** One pass of handleAttack's loop, at square (c, r) (index.js:236-245):
        hit what stands there if it is the other side's. */
    method Strike(attacker: Entity, isPlayer: bool, c: int, r: int) returns (hit: bool)
      requires Valid() && isPlayer == attacker.isPlayer && (attacker == player || attacker in enemies)
      modifies field, this`enemies, player, enemies
      ensures hit <==> old(HoldsTarget(c, r, isPlayer))
      ensures Valid() && player == old(player) && unchanged(attacker)
      ensures forall rr, cc :: 0 <= rr < ROWS && 0 <= cc < COLS && Pos(cc, rr) != Pos(c, r) ==>
        field[rr, cc] == old(field[rr, cc])
      ensures !hit ==> unchanged(field) && enemies == old(enemies)
      ensures isPlayer ==> unchanged(player)
      ensures isPlayer && !hit ==> forall e :: e in old(enemies) ==> unchanged(e)
      ensures isPlayer && hit ==>
        var e := old(field[r, c].enemy);
        e in old(enemies) && e.hp == old(e.hp) - attacker.attackPower &&
        e.x == old(e.x) && e.y == old(e.y) && e.attackPower == old(e.attackPower) &&
        (forall f :: f in old(enemies) && f != e ==> unchanged(f)) &&
        (e.hp > 0 ==> enemies == old(enemies) && field[r, c] == old(field[r, c]) && e.steppedOn == old(e.steppedOn)) &&
        (e.hp <= 0 ==> enemies == Without(old(enemies), {e}) && field[r, c] == old(e.steppedOn))
      ensures !isPlayer ==> enemies == old(enemies) && forall e :: e in old(enemies) ==> unchanged(e)
      ensures !isPlayer ==>
        player.x == old(player.x) && player.y == old(player.y) && player.attackPower == old(player.attackPower) &&
        player.direction == old(player.direction) && player.steppedOn == old(player.steppedOn) &&
        player.hp == old(player.hp) - (if hit then attacker.attackPower else 0)
      ensures !isPlayer && hit ==> field[r, c] == (if player.hp <= 0 then Empty else PlayerCell)
    {
      if !InBounds(c, r) {
        return false;
      }
      if isPlayer {
        hit := HitEnemy(c, r);
      } else {
        hit := HitPlayer(attacker, c, r);
      }
    }

    /** The player's blow at (c, r), if an enemy stands there: a killed enemy
        gives back what it stood on and leaves the list (index.js:236-243). */
    method HitEnemy(c: int, r: int) returns (hit: bool)
      requires Valid() && InBounds(c, r)
      modifies field, this`enemies, enemies
      ensures hit <==> old(field[r, c]).EnemyCell?
      ensures Valid()
      ensures forall rr, cc :: 0 <= rr < ROWS && 0 <= cc < COLS && Pos(cc, rr) != Pos(c, r) ==>
        field[rr, cc] == old(field[rr, cc])
      ensures !hit ==> unchanged(field) && enemies == old(enemies) && forall e :: e in old(enemies) ==> unchanged(e)
      ensures hit ==>
        var e := old(field[r, c].enemy);
        e in old(enemies) && e.hp == old(e.hp) - player.attackPower &&
        e.x == old(e.x) && e.y == old(e.y) && e.attackPower == old(e.attackPower) &&
        (forall f :: f in old(enemies) && f != e ==> unchanged(f)) &&
        (e.hp > 0 ==> enemies == old(enemies) && field[r, c] == old(field[r, c]) && e.steppedOn == old(e.steppedOn)) &&
        (e.hp <= 0 ==> enemies == Without(old(enemies), {e}) && field[r, c] == old(e.steppedOn))
    {
      var adj := field[r, c];
      hit := false;
      if adj.EnemyCell? {
        var target := adj.enemy;
        assert SquareConsistent(r, c);
        ghost var t :| 0 <= t < |enemies| && enemies[t] == target;
        assert EnemyPlaced(enemies[t]);
        player.Attack(target);
        hit := true;
        if target.hp <= 0 {
          var toLeave := target.StepOut();
          field[r, c] := toLeave;
          enemies := Without(enemies, {target});
        }
        HitValid(target, c, r);
      }
    }

    /** After the player's blow at the enemy on (c, r), which it survived or
        which removed it from the grid and the list, the invariant holds again. */
    twostate lemma HitValid(new target: Entity, new c: int, new r: int)
      requires old(Valid()) && InBounds(c, r) && old(field[r, c]) == EnemyCell(target)
      requires Shaped(field) && player == old(player) && unchanged(player)
      requires forall rr, cc :: 0 <= rr < ROWS && 0 <= cc < COLS && Pos(cc, rr) != Pos(c, r) ==>
        field[rr, cc] == old(field[rr, cc])
      requires forall e :: e in old(enemies) && e != target ==> unchanged(e)
      requires target.x == old(target.x) && target.y == old(target.y) && target.attackPower == old(target.attackPower)
      requires target.hp > 0 ==> enemies == old(enemies) && field[r, c] == old(field[r, c])
      requires target.hp <= 0 ==> enemies == Without(old(enemies), {target}) && IsFloor(field[r, c])
      ensures Valid()
    {
      assert old(SquareConsistent(r, c));
      WithoutDistinct(old(enemies), {target});
      forall i | 0 <= i < |enemies| ensures EnemyPlaced(enemies[i]) {
        ghost var j :| 0 <= j < |old(enemies)| && old(enemies)[j] == enemies[i];
        assert old(EnemyPlaced(enemies[j]));
      }
      forall rr, cc | 0 <= rr < ROWS && 0 <= cc < COLS ensures SquareConsistent(rr, cc) {
        if Pos(cc, rr) != Pos(c, r) {
          assert old(SquareConsistent(rr, cc));
        }
      }
    }

    /** An enemy's blow at (c, r), if the player stands there: a killed player
        leaves floor behind (index.js:236-242). */
    method HitPlayer(attacker: Entity, c: int, r: int) returns (hit: bool)
      requires Valid() && attacker in enemies && InBounds(c, r)
      modifies field, player
      ensures hit <==> old(field[r, c]) == PlayerCell
      ensures Valid()
      ensures forall rr, cc :: 0 <= rr < ROWS && 0 <= cc < COLS && Pos(cc, rr) != Pos(c, r) ==>
        field[rr, cc] == old(field[rr, cc])
      ensures !hit ==> unchanged(field)
      ensures player.x == old(player.x) && player.y == old(player.y) && player.attackPower == old(player.attackPower) &&
        player.direction == old(player.direction) && player.steppedOn == old(player.steppedOn)
      ensures player.hp == old(player.hp) - (if hit then attacker.attackPower else 0)
      ensures hit ==> field[r, c] == (if player.hp <= 0 then Empty else PlayerCell)
    {
      var adj := field[r, c];
      hit := false;
      if adj.PlayerCell? {
        ghost var t :| 0 <= t < |enemies| && enemies[t] == attacker;
        assert EnemyPlaced(enemies[t]);
        attacker.Attack(player);
        hit := true;
        if player.hp <= 0 {
          field[r, c] := Empty;
        }
        forall i | 0 <= i < |enemies| ensures EnemyPlaced(enemies[i]) {
          assert old(EnemyPlaced(enemies[i]));
        }
        forall rr, cc | 0 <= rr < ROWS && 0 <= cc < COLS ensures SquareConsistent(rr, cc) {
          assert old(SquareConsistent(rr, cc));
        }
      }
    }

    /** One of the first n steps from p reaches a square holding the other side. */
    predicate TargetAmong(p: Pos, isPlayer: bool, n: nat)
      reads this, field
      requires Shaped(field) && n <= |AdjacentTiles|
    {
      n > 0 &&
      (TargetAmong(p, isPlayer, n - 1) ||
       HoldsTarget(Shift(p, AdjacentTiles[n - 1]).x, Shift(p, AdjacentTiles[n - 1]).y, isPlayer))
    }

    /** Under the invariant, one of the first n neighbours of p holds the
        player exactly when the player's own square still holds it and is one
        of those neighbours. */
    lemma {:induction false} PlayerAmong(p: Pos, n: nat)
      requires Valid() && n <= |AdjacentTiles|
      ensures TargetAmong(p, false, n) <==> field[player.y, player.x] == PlayerCell && Among(p, Pos(player.x, player.y), n)
    {
      if n > 0 {
        PlayerAmong(p, n - 1);
        var q := Shift(p, AdjacentTiles[n - 1]);
        if InBounds(q.x, q.y) {
          assert SquareConsistent(q.y, q.x);
        }
      }
    }

    /** handleAttack (index.js:231-248): the entity hits whatever of the other
        side stands on each of its four neighbouring squares. Returns whether
        anything was hit; killed is the set of enemies removed, empty when an
        enemy attacks. */
    method HandleAttack(entity: Entity, isPlayer: bool) returns (hasAttacked: bool, ghost killed: set<Entity>)
      requires Valid() && isPlayer == entity.isPlayer && (entity == player || entity in enemies)
      modifies field, this`enemies, player, enemies
      ensures Valid() && player == old(player) && unchanged(entity)
      ensures hasAttacked <==> old(TargetAmong(Pos(entity.x, entity.y), isPlayer, |AdjacentTiles|))
      ensures enemies == Without(old(enemies), killed)
      ensures isPlayer ==> unchanged(player)
      ensures isPlayer ==> forall e :: e in old(enemies) ==>
        e.x == old(e.x) && e.y == old(e.y) && e.attackPower == old(e.attackPower) &&
        e.hp == old(e.hp) - (if Adjacent(Pos(entity.x, entity.y), Pos(e.x, e.y)) then entity.attackPower else 0)
      ensures isPlayer ==> forall e :: e in killed <==> e in old(enemies) && e.hp <= 0
      ensures isPlayer ==> forall e :: e in old(enemies) && e !in killed ==> e.steppedOn == old(e.steppedOn)
      ensures isPlayer ==> forall rr, cc :: 0 <= rr < ROWS && 0 <= cc < COLS ==>
        field[rr, cc] == (if old(field[rr, cc]).EnemyCell? && old(field[rr, cc]).enemy in killed
                          then old(field[rr, cc].enemy.steppedOn) else old(field[rr, cc]))
      ensures !isPlayer ==> killed == {} && enemies == old(enemies) && forall e :: e in old(enemies) ==> unchanged(e)
      ensures !isPlayer ==>
        player.x == old(player.x) && player.y == old(player.y) && player.attackPower == old(player.attackPower) &&
        player.direction == old(player.direction) && player.steppedOn == old(player.steppedOn) &&
        player.hp == old(player.hp) - (if hasAttacked then entity.attackPower else 0)
      ensures !isPlayer ==> forall rr, cc :: 0 <= rr < ROWS && 0 <= cc < COLS && Pos(cc, rr) != Pos(player.x, player.y) ==>
        field[rr, cc] == old(field[rr, cc])
      ensures !isPlayer && hasAttacked ==> field[player.y, player.x] == (if player.hp <= 0 then Empty else PlayerCell)
      ensures !isPlayer && !hasAttacked ==> unchanged(field)
    {
      if isPlayer {
        hasAttacked, killed := PlayerStrikes();
      } else {
        hasAttacked := EnemyStrikes(entity);
        killed := {};
        WithoutNothing(enemies, killed);
      }
    }

    /** handleAttack's loop for an enemy (index.js:235-246): only the player's
        square can hold a target, so the player takes at most one blow. */
    method EnemyStrikes(enemy: Entity) returns (hasAttacked: bool)
      requires Valid() && enemy in enemies
      modifies field, this`enemies, player, enemies
      ensures Valid() && player == old(player) && enemies == old(enemies)
      ensures forall e :: e in old(enemies) ==> unchanged(e)
      ensures hasAttacked <==> old(TargetAmong(Pos(enemy.x, enemy.y), false, |AdjacentTiles|))
      ensures player.x == old(player.x) && player.y == old(player.y) && player.attackPower == old(player.attackPower) &&
        player.direction == old(player.direction) && player.steppedOn == old(player.steppedOn)
      ensures player.hp == old(player.hp) - (if hasAttacked then enemy.attackPower else 0)
      ensures forall rr, cc :: 0 <= rr < ROWS && 0 <= cc < COLS && Pos(cc, rr) != Pos(player.x, player.y) ==>
        field[rr, cc] == old(field[rr, cc])
      ensures hasAttacked ==> field[player.y, player.x] == (if player.hp <= 0 then Empty else PlayerCell)
      ensures !hasAttacked ==> unchanged(field)
    {
      hasAttacked := false;
      var p := Pos(enemy.x, enemy.y);
      AdjacentTilesCover(p, p);
      for i := 0 to |AdjacentTiles|
        invariant Valid() && player == old(player) && enemies == old(enemies)
        invariant forall e :: e in old(enemies) ==> unchanged(e)
        invariant hasAttacked <==> old(TargetAmong(p, false, i))
        invariant player.x == old(player.x) && player.y == old(player.y) && player.attackPower == old(player.attackPower) &&
          player.direction == old(player.direction) && player.steppedOn == old(player.steppedOn)
        invariant player.hp == old(player.hp) - (if hasAttacked then enemy.attackPower else 0)
        invariant forall rr, cc :: 0 <= rr < ROWS && 0 <= cc < COLS && Pos(cc, rr) != Pos(player.x, player.y) ==>
          field[rr, cc] == old(field[rr, cc])
        invariant hasAttacked ==>
          Among(p, Pos(player.x, player.y), i) &&
          field[player.y, player.x] == (if player.hp <= 0 then Empty else PlayerCell)
        invariant !hasAttacked ==> unchanged(field)
      {
        var q := Shift(p, AdjacentTiles[i]);
        if InBounds(q.x, q.y) {
          assert SquareConsistent(q.y, q.x);
        }
        AmongBefore(p, i, i);
        var hit := Strike(enemy, false, q.x, q.y);
        if hit {
          assert Pos(player.x, player.y) == Shift(p, AdjacentTiles[i]);
        }
        hasAttacked := hasAttacked || hit;
      }
    }

    /** The grid's contents as a value. */
    ghost function Snapshot(): (g: seq<seq<Cell>>)
      reads field
      requires Shaped(field)
      ensures Sized(g) && |g| == ROWS && forall r :: 0 <= r < ROWS ==> |g[r]| == COLS
      ensures forall r, c :: 0 <= r < ROWS && 0 <= c < COLS ==> g[r][c] == field[r, c]
    {
      seq(ROWS, r requires 0 <= r < ROWS reads field =>
        seq(COLS, c requires 0 <= c < COLS reads field => field[r, c]))
    }

    /** A grid snapshot and the enemies' statistics taken from a valid state:
        every enemy square of g0 holds a listed enemy standing there. */
    ghost predicate Taken(g0: seq<seq<Cell>>, e0: seq<Entity>, m0: map<Entity, Stat>)
    {
      |g0| == ROWS && (forall r :: 0 <= r < ROWS ==> |g0[r]| == COLS) &&
      (forall e :: e in e0 ==>
        e in m0 && InBounds(m0[e].pos.x, m0[e].pos.y) &&
        g0[m0[e].pos.y][m0[e].pos.x] == EnemyCell(e) && m0[e].hp > 0) &&
      (forall r, c :: 0 <= r < ROWS && 0 <= c < COLS && g0[r][c].EnemyCell? ==>
        g0[r][c].enemy in e0 && g0[r][c].enemy in m0 && m0[g0[r][c].enemy].pos == Pos(c, r))
    }

    /** Some of the first n neighbours of p holds an enemy in snapshot g0. */
    ghost predicate EnemyAmong(g0: seq<seq<Cell>>, p: Pos, n: nat)
      requires |g0| == ROWS && (forall r :: 0 <= r < ROWS ==> |g0[r]| == COLS) && n <= |AdjacentTiles|
    {
      n > 0 &&
      (EnemyAmong(g0, p, n - 1) ||
       (InBounds(Shift(p, AdjacentTiles[n - 1]).x, Shift(p, AdjacentTiles[n - 1]).y) &&
        g0[Shift(p, AdjacentTiles[n - 1]).y][Shift(p, AdjacentTiles[n - 1]).x].EnemyCell?))
    }

    lemma {:induction false} EnemyAmongSnapshot(p: Pos, n: nat)
      requires Shaped(field) && n <= |AdjacentTiles|
      ensures TargetAmong(p, true, n) == EnemyAmong(Snapshot(), p, n)
    {
      if n > 0 {
        EnemyAmongSnapshot(p, n - 1);
      }
    }

    /** After the player's blows on the first i neighbours of p: each enemy of
        e0 is where it was and has lost one blow if it stood there, the killed
        ones are exactly those at or below 0, and the others still carry
        what they carried. */
    ghost predicate BlowsLanded(p: Pos, ap: int, i: nat, e0: seq<Entity>, m0: map<Entity, Stat>, killed: set<Entity>)
      reads e0
      requires i <= |AdjacentTiles|
    {
      (forall e :: e in killed ==> e in e0) &&
      forall e :: e in e0 ==>
        e in m0 && !e.isPlayer && Pos(e.x, e.y) == m0[e].pos && e.attackPower == m0[e].ap &&
        e.hp == m0[e].hp - (if Among(p, m0[e].pos, i) then ap else 0) &&
        (e in killed <==> e.hp <= 0) &&
        (e !in killed ==> e.steppedOn == m0[e].carried)
    }

    /** The grid is the snapshot g0 except that killed enemies' squares hold what they carried. */
    ghost predicate Cleared(g0: seq<seq<Cell>>, m0: map<Entity, Stat>, killed: set<Entity>)
      reads field
      requires Shaped(field) && |g0| == ROWS && forall r :: 0 <= r < ROWS ==> |g0[r]| == COLS
    {
      forall r, c :: 0 <= r < ROWS && 0 <= c < COLS ==>
        field[r, c] == (if g0[r][c].EnemyCell? && g0[r][c].enemy in killed && g0[r][c].enemy in m0
                        then m0[g0[r][c].enemy].carried else g0[r][c])
    }

    /** One blow of the loop keeps BlowsLanded, one neighbour further on. */
    twostate lemma BlowStep(new p: Pos, new ap: int, new i: nat, new e0: seq<Entity>, new m0: map<Entity, Stat>,
                            new g0: seq<seq<Cell>>, new victim: Entity?, new hit: bool, new killed: set<Entity>,
                            new killedNext: set<Entity>)
      requires old(allocated(e0)) && old(allocated(m0)) && old(allocated(g0)) && old(allocated(killed))
      requires i < |AdjacentTiles| && Taken(g0, e0, m0)
      requires old(BlowsLanded(p, ap, i, e0, m0, killed)) && Shaped(field) && old(Cleared(g0, m0, killed))
      requires var q := Shift(p, AdjacentTiles[i]);
        !Among(p, q, i) &&
        (victim != null <==> InBounds(q.x, q.y) && old(field[q.y, q.x]).EnemyCell?) &&
        (victim != null ==> old(field[q.y, q.x]) == EnemyCell(victim)) &&
        (hit <==> victim != null)
      requires hit ==>
        victim.hp == old(victim.hp) - ap && victim.x == old(victim.x) && victim.y == old(victim.y) &&
        victim.attackPower == old(victim.attackPower) &&
        (victim.hp > 0 ==> victim.steppedOn == old(victim.steppedOn))
      requires forall f :: f in e0 && f != victim ==> unchanged(f)
      requires killedNext == if hit && victim.hp <= 0 then killed + {victim} else killed
      ensures BlowsLanded(p, ap, i + 1, e0, m0, killedNext)
    {
      var q := Shift(p, AdjacentTiles[i]);
      if victim != null {
        assert old(field[q.y, q.x]) == g0[q.y][q.x];
      }
      forall e | e in e0
        ensures Among(p, m0[e].pos, i + 1) <==> Among(p, m0[e].pos, i) || e == victim
      {
        if m0[e].pos == q {
          assert g0[q.y][q.x] == EnemyCell(e);
          assert old(field[q.y, q.x]) == g0[q.y][q.x];
        }
      }
    }

    /** One blow of the loop keeps Cleared. */
    twostate lemma ClearStep(new p: Pos, new i: nat, new e0: seq<Entity>, new m0: map<Entity, Stat>,
                             new g0: seq<seq<Cell>>, new victim: Entity?, new hit: bool, new killed: set<Entity>,
                             new killedNext: set<Entity>)
      requires old(allocated(m0)) && old(allocated(g0)) && old(allocated(killed))
      requires i < |AdjacentTiles| && Taken(g0, e0, m0) && Shaped(field)
      requires old(Cleared(g0, m0, killed))
      requires forall e :: e in killed ==> e in m0 && Among(p, m0[e].pos, i)
      requires var q := Shift(p, AdjacentTiles[i]);
        !Among(p, q, i) &&
        (victim != null <==> InBounds(q.x, q.y) && old(field[q.y, q.x]).EnemyCell?) &&
        (victim != null ==>
          old(field[q.y, q.x]) == EnemyCell(victim) && victim in m0 &&
          old(victim.steppedOn) == m0[victim].carried) &&
        (forall r, c :: 0 <= r < ROWS && 0 <= c < COLS && Pos(c, r) != q ==> field[r, c] == old(field[r, c])) &&
        (InBounds(q.x, q.y) ==>
          field[q.y, q.x] == (if victim != null && victim in killedNext then old(victim.steppedOn) else old(field[q.y, q.x])))
      requires killedNext == killed || (victim != null && killedNext == killed + {victim})
      ensures Cleared(g0, m0, killedNext)
    {
      var q := Shift(p, AdjacentTiles[i]);
      forall r, c | 0 <= r < ROWS && 0 <= c < COLS
        ensures field[r, c] == (if g0[r][c].EnemyCell? && g0[r][c].enemy in killedNext && g0[r][c].enemy in m0
                                then m0[g0[r][c].enemy].carried else g0[r][c])
      {
        if Pos(c, r) == q && g0[r][c].EnemyCell? {
          assert m0[g0[r][c].enemy].pos == q;
        }
      }
    }

    /** One pass of handleAttack's loop for the player, at the i-th neighbour
        of p (index.js:236-244): the blows of the earlier passes are kept and
        this one is added. */
    method PlayerBlow(p: Pos, i: nat, ghost e0: seq<Entity>, ghost m0: map<Entity, Stat>, ghost g0: seq<seq<Cell>>,
                      ghost killed: set<Entity>) returns (hit: bool, ghost killedNext: set<Entity>)
      requires i < |AdjacentTiles| && Valid() && Taken(g0, e0, m0)
      requires enemies == Without(e0, killed)
      requires BlowsLanded(p, player.attackPower, i, e0, m0, killed) && Cleared(g0, m0, killed)
      modifies field, this`enemies, enemies
      ensures Valid()
      ensures hit <==>
        InBounds(Shift(p, AdjacentTiles[i]).x, Shift(p, AdjacentTiles[i]).y) &&
        g0[Shift(p, AdjacentTiles[i]).y][Shift(p, AdjacentTiles[i]).x].EnemyCell?
      ensures enemies == Without(e0, killedNext)
      ensures BlowsLanded(p, player.attackPower, i + 1, e0, m0, killedNext) && Cleared(g0, m0, killedNext)
    {
      assert player !in enemies;
      ghost var ap := player.attackPower;
      var q := Shift(p, AdjacentTiles[i]);
      AmongBefore(p, i, i);
      ghost var victim: Entity? := null;
      hit := false;
      killedNext := killed;
      if InBounds(q.x, q.y) {
        assert SquareConsistent(q.y, q.x);
        ghost var target := field[q.y, q.x];
        if target.EnemyCell? {
          victim := target.enemy;
        }
        hit := HitEnemy(q.x, q.y);
        if hit {
          assert victim == target.enemy;
          if target.enemy.hp <= 0 {
            assert enemies == Without(Without(e0, killed), {target.enemy});
            WithoutTwice(e0, killed, {target.enemy});
            killedNext := killed + {target.enemy};
          }
        }
      }
      assert player.attackPower == ap;
      BlowStep(p, ap, i, e0, m0, g0, victim, hit, killed, killedNext);
      ClearStep(p, i, e0, m0, g0, victim, hit, killed, killedNext);
    }

    /** The enemies' statistics, keyed by enemy. */
    ghost function Stats(es: seq<Entity>): (m: map<Entity, Stat>)
      reads es
      ensures forall e :: e in es ==> e in m && m[e] == Stat(Pos(e.x, e.y), e.hp, e.attackPower, e.steppedOn)
    {
      map e | e in es :: Stat(Pos(e.x, e.y), e.hp, e.attackPower, e.steppedOn)
    }

    /** A valid state's grid and enemy statistics are a consistent snapshot. */
    lemma SnapshotTaken()
      requires Valid()
      ensures Taken(Snapshot(), enemies, Stats(enemies))
    {
      var g0, m0 := Snapshot(), Stats(enemies);
      forall e | e in enemies ensures InBounds(m0[e].pos.x, m0[e].pos.y) && g0[m0[e].pos.y][m0[e].pos.x] == EnemyCell(e) {
        var j :| 0 <= j < |enemies| && enemies[j] == e;
        assert EnemyPlaced(enemies[j]);
      }
      forall r, c | 0 <= r < ROWS && 0 <= c < COLS && g0[r][c].EnemyCell?
        ensures g0[r][c].enemy in enemies && m0[g0[r][c].enemy].pos == Pos(c, r)
      {
        assert SquareConsistent(r, c);
      }
    }

    /** The blows of the player's four passes, stated against the state before them. */
    twostate lemma StrikesStats(new p: Pos, new ap: int, new e0: seq<Entity>, new killed: set<Entity>)
      requires old(allocated(e0))
      requires BlowsLanded(p, ap, |AdjacentTiles|, e0, old(Stats(e0)), killed)
      ensures forall e :: e in e0 ==>
        e.x == old(e.x) && e.y == old(e.y) && e.attackPower == old(e.attackPower) &&
        e.hp == old(e.hp) - (if Adjacent(p, Pos(e.x, e.y)) then ap else 0)
      ensures forall e :: e in killed <==> e in e0 && e.hp <= 0
      ensures forall e :: e in e0 && e !in killed ==> e.steppedOn == old(e.steppedOn)
    {
      forall e | e in e0 ensures Among(p, Pos(e.x, e.y), |AdjacentTiles|) == Adjacent(p, Pos(e.x, e.y)) {
        AdjacentTilesCover(p, Pos(e.x, e.y));
      }
    }

    /** The grid after the player's four passes, stated against the grid before them. */
    twostate lemma StrikesField(new e0: seq<Entity>, new g0: seq<seq<Cell>>, new killed: set<Entity>)
      requires old(Valid()) && e0 == old(enemies) && g0 == old(Snapshot()) && Shaped(field)
      requires forall e :: e in killed ==> e in e0
      requires Cleared(g0, old(Stats(e0)), killed)
      ensures forall rr, cc :: 0 <= rr < ROWS && 0 <= cc < COLS ==>
        field[rr, cc] == (if old(field[rr, cc]).EnemyCell? && old(field[rr, cc]).enemy in killed
                          then old(field[rr, cc].enemy.steppedOn) else old(field[rr, cc]))
    {
      forall rr, cc | 0 <= rr < ROWS && 0 <= cc < COLS && old(field[rr, cc]).EnemyCell? && old(field[rr, cc]).enemy in killed
        ensures field[rr, cc] == old(field[rr, cc].enemy.steppedOn)
      {
        assert g0[rr][cc] == old(field[rr, cc]);
      }
    }

    /** The four passes of handleAttack's loop for the player standing at p
        (index.js:235-246), stated against the snapshots e0, m0 and g0 of the
        state before them. */
    method PlayerPasses(p: Pos, ghost e0: seq<Entity>, ghost m0: map<Entity, Stat>, ghost g0: seq<seq<Cell>>)
      returns (hasAttacked: bool, ghost killed: set<Entity>)
      requires Valid() && Taken(g0, e0, m0) && enemies == Without(e0, {})
      requires BlowsLanded(p, player.attackPower, 0, e0, m0, {}) && Cleared(g0, m0, {})
      modifies field, this`enemies, enemies
      ensures Valid() && player == old(player)
      ensures hasAttacked <==> EnemyAmong(g0, p, |AdjacentTiles|)
      ensures enemies == Without(e0, killed)
      ensures BlowsLanded(p, player.attackPower, |AdjacentTiles|, e0, m0, killed) && Cleared(g0, m0, killed)
    {
      hasAttacked := false;
      killed := {};
      for i := 0 to |AdjacentTiles|
        invariant Valid() && player == old(player)
        invariant hasAttacked <==> EnemyAmong(g0, p, i)
        invariant enemies == Without(e0, killed)
        invariant BlowsLanded(p, player.attackPower, i, e0, m0, killed)
        invariant Cleared(g0, m0, killed)
      {
        var hit;
        hit, killed := PlayerBlow(p, i, e0, m0, g0, killed);
        hasAttacked := hasAttacked || hit;
      }
    }

    /** handleAttack's loop for the player (index.js:235-246): every adjacent
        enemy takes one blow, and those it kills are removed. */
    method PlayerStrikes() returns (hasAttacked: bool, ghost killed: set<Entity>)
      requires Valid()
      modifies field, this`enemies, player, enemies
      ensures Valid() && unchanged(player)
      ensures hasAttacked <==> old(TargetAmong(Pos(player.x, player.y), true, |AdjacentTiles|))
      ensures enemies == Without(old(enemies), killed)
      ensures forall e :: e in old(enemies) ==>
        e.x == old(e.x) && e.y == old(e.y) && e.attackPower == old(e.attackPower) &&
        e.hp == old(e.hp) - (if Adjacent(Pos(player.x, player.y), Pos(e.x, e.y)) then player.attackPower else 0)
      ensures forall e :: e in killed <==> e in old(enemies) && e.hp <= 0
      ensures forall e :: e in old(enemies) && e !in killed ==> e.steppedOn == old(e.steppedOn)
      ensures forall rr, cc :: 0 <= rr < ROWS && 0 <= cc < COLS ==>
        field[rr, cc] == (if old(field[rr, cc]).EnemyCell? && old(field[rr, cc]).enemy in killed
                          then old(field[rr, cc].enemy.steppedOn) else old(field[rr, cc]))
    {
      var p := Pos(player.x, player.y);
      ghost var e0 := enemies;
      ghost var g0 := Snapshot();
      ghost var m0 := Stats(enemies);
      SnapshotTaken();
      EnemyAmongSnapshot(p, |AdjacentTiles|);
      WithoutNothing(enemies, {});
      hasAttacked, killed := PlayerPasses(p, e0, m0, g0);
      StrikesStats(p, player.attackPower, e0, killed);
      StrikesField(e0, g0, killed);
    }

    /** The first open step of order, or no step when none is open, is the walk Wandered describes. */
    twostate lemma WalkWandered(new enemy: Entity, new order: seq<Delta>, new k: nat)
      requires old(allocated(enemy)) && Shaped(field)
      requires k == FirstOpen(old(Snapshot()), Pos(old(enemy.x), old(enemy.y)), order)
      requires enemy.hp == old(enemy.hp) && enemy.attackPower == old(enemy.attackPower)
      requires k == |order| ==>
        unchanged(field) && enemy.x == old(enemy.x) && enemy.y == old(enemy.y) && enemy.steppedOn == old(enemy.steppedOn)
      requires k < |order| ==>
        enemy.x == old(enemy.x) + order[k].dx && enemy.y == old(enemy.y) + order[k].dy &&
        enemy.steppedOn == old(field[enemy.y + order[k].dy, enemy.x + order[k].dx]) &&
        InBounds(old(enemy.x), old(enemy.y)) &&
        field[old(enemy.y), old(enemy.x)] == old(enemy.steppedOn) &&
        field[enemy.y, enemy.x] == EnemyCell(enemy) &&
        forall r, c ::
          0 <= r < ROWS && 0 <= c < COLS && Pos(c, r) != Pos(old(enemy.x), old(enemy.y)) &&
          Pos(c, r) != Pos(enemy.x, enemy.y)
          ==> field[r, c] == old(field[r, c])
      ensures Wandered(old(Snapshot()), Snapshot(), enemy, old(StatOf(enemy)), StatOf(enemy), order)
    {
      var g0, g1 := old(Snapshot()), Snapshot();
      var o := Pos(old(enemy.x), old(enemy.y));
      if k == |order| {
        forall r | 0 <= r < ROWS ensures g1[r] == g0[r] {
          assert forall c :: 0 <= c < COLS ==> g1[r][c] == g0[r][c];
        }
      } else {
        var n := Shift(o, order[k]);
        assert g0[n.y][n.x] == old(field[n.y, n.x]);
        assert SameBut(g0, g1, o, n);
      }
    }

    /** Attempt n of an enemy's walk (index.js:279-280), the steps before it
        having led nowhere open, so the grid is still g0 and the enemy's
        statistics still st. A failed attempt only turns the enemy and shows
        the step leads nowhere open; a successful one ends the walk as
        Wandered describes. */
    method TryStep(enemy: Entity, order: seq<Delta>, n: nat, ghost g0: seq<seq<Cell>>, ghost st: Stat, ghost f0: Facing)
      returns (moved: Option<Pos>)
      requires Valid() && enemy in enemies && n < |order|
      requires forall j :: 0 <= j < |order| ==> order[j] in AdjacentTiles
      requires Snapshot() == g0 && StatOf(enemy) == st
      requires Blocked(g0, st.pos, order, n)
      requires enemy.direction == TurnedAll(f0, order[..n])
      modifies enemy, field
      ensures Valid() && enemy.direction == TurnedAll(f0, order[..n + 1])
      ensures moved.None? ==> Snapshot() == g0 && StatOf(enemy) == st && Blocked(g0, st.pos, order, n + 1)
      ensures moved.Some? ==>
        n == FirstOpen(g0, st.pos, order) && moved.value == Pos(enemy.x, enemy.y) &&
        Wandered(g0, Snapshot(), enemy, st, StatOf(enemy), order)
    {
      assert !enemy.isPlayer by {
        var j :| 0 <= j < |enemies| && enemies[j] == enemy;
        assert EnemyPlaced(enemies[j]);
      }
      TurnedOnce(f0, order, n);
      assert Open(enemy.x + order[n].dx, enemy.y + order[n].dy) == OpenIn(g0, Shift(st.pos, order[n]));
      moved := MoveEntity(enemy, order[n].dx, order[n].dy);
      if moved.Some? {
        FirstOpenUnique(g0, st.pos, order, n);
        WalkWandered(enemy, order, n);
      }
    }

    /** An enemy that has not attacked wanders (index.js:277-281): it tries
        the steps of order in turn and stops at the first that succeeds; k
        is the index of that step, |order| if none did. Every step tried
        turns the enemy, and the walk is the one Wandered describes. */
    method EnemyWander(enemy: Entity, order: seq<Delta>) returns (moved: Option<Pos>, ghost k: nat)
      requires Valid() && enemy in enemies
      requires forall j :: 0 <= j < |order| ==> order[j] in AdjacentTiles
      modifies enemy, field
      ensures Valid()
      ensures k == FirstOpen(old(Snapshot()), Pos(old(enemy.x), old(enemy.y)), order)
      ensures moved.Some? <==> k < |order|
      ensures moved.Some? ==> moved.value == Pos(enemy.x, enemy.y)
      ensures enemy.direction == TurnedAll(old(enemy.direction), order[..if k < |order| then k + 1 else k])
      ensures Wandered(old(Snapshot()), Snapshot(), enemy, old(StatOf(enemy)), StatOf(enemy), order)
    {
      ghost var g0, st := Snapshot(), StatOf(enemy);
      moved := None;
      var n := 0;
      while n < |order|
        invariant n <= |order| && Valid() && moved.None?
        invariant Snapshot() == g0 && StatOf(enemy) == st
        invariant Blocked(g0, st.pos, order, n)
        invariant enemy.direction == TurnedAll(old(enemy.direction), order[..n])
      {
        moved := TryStep(enemy, order, n, g0, st, old(enemy.direction));
        if moved.Some? {
          k := n;
          return;
        }
        n := n + 1;
      }
      k := n;
      FirstOpenUnique(g0, st.pos, order, k);
    }

    /** A strike on the player, as EnemyStrikes reports it, is the hit case of TurnOf. */
    twostate lemma StruckTurn(new enemy: Entity, new order: seq<Delta>)
      requires old(allocated(enemy)) && Shaped(field) && player == old(player) && player != null
      requires InBounds(player.x, player.y) && player.x == old(player.x) && player.y == old(player.y)
      requires old(field[player.y, player.x]) == PlayerCell && Adjacent(Pos(old(enemy.x), old(enemy.y)), Pos(player.x, player.y))
      requires unchanged(enemy)
      requires forall rr, cc :: 0 <= rr < ROWS && 0 <= cc < COLS && Pos(cc, rr) != Pos(player.x, player.y) ==>
        field[rr, cc] == old(field[rr, cc])
      requires field[player.y, player.x] == (if player.hp <= 0 then Empty else PlayerCell)
      ensures TurnOf(old(Snapshot()), Snapshot(), Pos(player.x, player.y), player.hp, enemy,
                     old(StatOf(enemy)), StatOf(enemy), order, true)
    {
      var g0, g1, pp := old(Snapshot()), Snapshot(), Pos(player.x, player.y);
      assert SameBut(g0, g1, pp, pp);
    }

    /** One enemy's part of enemiesTurn (index.js:274-282): strike the player
        if it is next to it, otherwise wander along order. TurnOf states the
        effect on the grid and on the enemy; no other enemy changes, and the
        player only loses health. handleAttack on an enemy changes nothing
        when no neighbouring square holds the player (HandleAttack's contract),
        so the model asks TargetAmong, its own test, before calling it; on an
        enemy, handleAttack is EnemyStrikes, which is called directly. */
    method EnemyAct(enemy: Entity, order: seq<Delta>) returns (hit: bool)
      requires Valid() && enemy in enemies
      requires forall j :: 0 <= j < |order| ==> order[j] in AdjacentTiles
      modifies field, this`enemies, player, enemies
      ensures Valid() && enemies == old(enemies) && player == old(player)
      ensures player.x == old(player.x) && player.y == old(player.y) && player.attackPower == old(player.attackPower)
      ensures player.direction == old(player.direction) && player.steppedOn == old(player.steppedOn)
      ensures player.hp == old(player.hp) - (if hit then EnemyAttack else 0)
      ensures forall e :: e in old(enemies) && e != enemy ==> unchanged(e)
      ensures enemy.hp == old(enemy.hp) && enemy.attackPower == old(enemy.attackPower)
      ensures TurnOf(old(Snapshot()), Snapshot(), Pos(player.x, player.y), player.hp, enemy,
                     old(StatOf(enemy)), StatOf(enemy), order, hit)
      ensures enemy.direction ==
        if hit then old(enemy.direction)
        else TurnedAll(old(enemy.direction),
                       order[..var k := FirstOpen(old(Snapshot()), Pos(old(enemy.x), old(enemy.y)), order);
                                if k < |order| then k + 1 else k])
    {
      assert enemy != player by {
        var j :| 0 <= j < |enemies| && enemies[j] == enemy;
        assert EnemyPlaced(enemies[j]);
      }
      var p := Pos(enemy.x, enemy.y);
      ghost var pp := Pos(player.x, player.y);
      assert TargetAmong(p, false, |AdjacentTiles|) <==> field[pp.y, pp.x] == PlayerCell && Adjacent(p, pp) by {
        PlayerAmong(p, |AdjacentTiles|);
        AdjacentTilesCover(p, pp);
      }
      if TargetAmong(p, false, |AdjacentTiles|) {
        hit := EnemyStrikes(enemy);
        StruckTurn(enemy, order);
      } else {
        hit := false;
        var _, _ := EnemyWander(enemy, order);
      }
    }

    /** Enemy i of es acts, and its action is recorded after the
        others: the bookkeeping of one round of EnemiesTurn's loop, i being
        the number of actions recorded so far. */
    method RecordedAct(i: nat, orders: seq<seq<Delta>>, ghost es: seq<Entity>, ghost befores: seq<Stat>,
                       ghost g: seq<seq<Cell>>, ghost hp0: int, ghost steps: seq<Step>)
      returns (ghost next: seq<Step>)
      requires Valid() && enemies == es && |steps| == i < |es| == |orders| == |befores|
      requires forall i, j :: 0 <= i < |orders| && 0 <= j < |orders[i]| ==> orders[i][j] in AdjacentTiles
      requires Chain(steps, Pos(player.x, player.y), g, hp0) && Records(steps, es, orders, befores)
      requires Snapshot() == GridAfter(steps, g) && player.hp == HpAfter(steps, hp0)
      requires forall j :: 0 <= j < |es| ==> StatOf(es[j]) == if j < |steps| then steps[j].after else befores[j]
      modifies field, this`enemies, player, enemies
      ensures Valid() && enemies == es && player == old(player)
      ensures player.x == old(player.x) && player.y == old(player.y) && player.attackPower == old(player.attackPower)
      ensures player.direction == old(player.direction) && player.steppedOn == old(player.steppedOn)
      ensures |next| == |steps| + 1 && Chain(next, Pos(player.x, player.y), g, hp0) && Records(next, es, orders, befores)
      ensures Snapshot() == GridAfter(next, g) && player.hp == HpAfter(next, hp0)
      ensures forall j :: 0 <= j < |es| ==> StatOf(es[j]) == if j < |next| then next[j].after else befores[j]
    {
      ghost var g0, before := Snapshot(), StatOf(es[i]);
      label Turn:
      var hit := EnemyAct(enemies[i], orders[i]);
      ghost var s := Step(g0, Snapshot(), player.hp, es[i], before, StatOf(es[i]), orders[i], hit);
      StatsAfterTurn@Turn(es, befores, steps, s, i);
      ChainStep(steps, Pos(player.x, player.y), g, hp0, s);
      RecordsStep(steps, es, orders, befores, s);
      next := steps + [s];
    }

    /** enemiesTurn (index.js:273-284): each listed enemy in list order
        strikes the player if it stands next to it, and otherwise wanders
        along its order of steps. steps records the actions as a Chain from
        the starting grid and health: step i is enemy i's action by TurnOf,
        from its first statistics to its present ones, on the grid the
        previous enemy left. The list stays as it was, the player loses one
        blow per strike, and every enemy keeps its health and moves by at
        most one square. */
    method EnemiesTurn(orders: seq<seq<Delta>>) returns (ghost steps: seq<Step>)
      requires Valid() && |orders| == |enemies|
      requires forall i, j :: 0 <= i < |orders| && 0 <= j < |orders[i]| ==> orders[i][j] in AdjacentTiles
      modifies field, this`enemies, player, enemies
      ensures Valid() && enemies == old(enemies) && player == old(player)
      ensures player.x == old(player.x) && player.y == old(player.y) && player.attackPower == old(player.attackPower)
      ensures player.direction == old(player.direction) && player.steppedOn == old(player.steppedOn)
      ensures |steps| == |enemies| && Chain(steps, Pos(player.x, player.y), old(Snapshot()), old(player.hp))
      ensures forall i :: 0 <= i < |enemies| ==>
        steps[i].e == enemies[i] && steps[i].order == orders[i] &&
        steps[i].before == old(StatOf(enemies[i])) && steps[i].after == StatOf(enemies[i])
      ensures Snapshot() == GridAfter(steps, old(Snapshot())) && player.hp == HpAfter(steps, old(player.hp))
      ensures player.hp == old(player.hp) - EnemyAttack * Hits(steps)
      ensures forall i :: 0 <= i < |enemies| ==>
        enemies[i].hp == old(enemies[i].hp) && enemies[i].attackPower == old(enemies[i].attackPower) &&
        (StatOf(enemies[i]).pos == old(StatOf(enemies[i])).pos || Adjacent(old(StatOf(enemies[i])).pos, StatOf(enemies[i]).pos))
    {
      steps := [];
      ghost var es, befores, g, pp := enemies, StatsOf(enemies), Snapshot(), Pos(player.x, player.y);
      for i := 0 to |enemies|
        invariant Valid() && enemies == es && player == old(player)
        invariant player.x == old(player.x) && player.y == old(player.y) && player.attackPower == old(player.attackPower)
        invariant player.direction == old(player.direction) && player.steppedOn == old(player.steppedOn)
        invariant |steps| == i && Chain(steps, pp, g, old(player.hp))
        invariant Snapshot() == GridAfter(steps, g) && player.hp == HpAfter(steps, old(player.hp))
        invariant Records(steps, es, orders, befores)
        invariant forall j :: 0 <= j < |es| ==> StatOf(es[j]) == if j < i then steps[j].after else befores[j]
      {
        steps := RecordedAct(i, orders, es, befores, g, old(player.hp), steps);
      }
      ChainHits(steps, pp, g, old(player.hp));
      ChainMoves(steps, pp, g, old(player.hp));
    }

    /** The player's phase of handlePlayerMove (index.js:252): the step is
        PlayerStepped on the grid as it was. clobbered says the player's
        recorded square holds an enemy, which only a dead player's square
        can; then a step taken breaks the invariant (see MoveEntity), and a
        refused step or any other step keeps it. The enemies are left as they were. */
    method PlayerStep(dx: int, dy: int) returns (ghost found: Cell, ghost moved: Option<Pos>, ghost clobbered: bool)
      requires Valid() && Delta(dx, dy) in AdjacentTiles
      modifies field, player
      ensures enemies == old(enemies) && player == old(player)
      ensures forall i :: 0 <= i < |enemies| ==> StatOf(enemies[i]) == old(StatOf(enemies[i]))
      ensures PlayerStepped(old(Snapshot()), Snapshot(), Pos(old(player.x), old(player.y)), Pos(player.x, player.y), Delta(dx, dy),
                            old(player.hp), player.hp, old(player.attackPower), player.attackPower, found, moved)
      ensures clobbered <==> old(Snapshot())[old(player.y)][old(player.x)].EnemyCell?
      ensures player.direction == Turned(old(player.direction), dx)
      ensures clobbered ==> old(player.hp) <= 0
      ensures !clobbered || moved.None? ==> Valid()
    {
      clobbered := PlayerSquareTaken();
      found := if InBounds(player.x + dx, player.y + dy) then field[player.y + dy, player.x + dx] else Wall;
      moved := MoveEntity(player, dx, dy);
      forall i | 0 <= i < |enemies| ensures StatOf(enemies[i]) == old(StatOf(enemies[i])) {
        assert old(EnemyPlaced(enemies[i]));
      }
      if moved.None? {
        forall r, c | 0 <= r < ROWS && 0 <= c < COLS ensures SquareConsistent(r, c) {
          assert old(SquareConsistent(r, c));
        }
      }
    }

    /** handlePlayerMove (index.js:250-254): the enemies act as EnemiesTurn
        states, then the player takes its step as PlayerStep states on the
        grid they leave, then the turn's outcome is decided. */
    method HandlePlayerMove(dx: int, dy: int, orders: seq<seq<Delta>>)
      returns (outcome: Outcome, ghost steps: seq<Step>, ghost mid: seq<seq<Cell>>, ghost hp: int, ghost found: Cell, ghost moved: Option<Pos>, ghost clobbered: bool)
      requires Valid() && Delta(dx, dy) in AdjacentTiles && |orders| == |enemies|
      requires forall i, j :: 0 <= i < |orders| && 0 <= j < |orders[i]| ==> orders[i][j] in AdjacentTiles
      modifies field, this`enemies, player, enemies
      ensures enemies == old(enemies) && player == old(player)
      ensures |steps| == |enemies| && Chain(steps, Pos(old(player.x), old(player.y)), old(Snapshot()), old(player.hp))
      ensures forall i :: 0 <= i < |enemies| ==>
        steps[i].e == enemies[i] && steps[i].order == orders[i] &&
        steps[i].before == old(StatOf(enemies[i])) && steps[i].after == StatOf(enemies[i])
      ensures forall i :: 0 <= i < |enemies| ==>
        enemies[i].hp == old(enemies[i].hp) && enemies[i].attackPower == old(enemies[i].attackPower) &&
        (StatOf(enemies[i]).pos == old(StatOf(enemies[i])).pos || Adjacent(old(StatOf(enemies[i])).pos, StatOf(enemies[i]).pos))
      ensures Sized(mid) && mid == GridAfter(steps, old(Snapshot())) && hp == old(player.hp) - EnemyAttack * Hits(steps)
      ensures PlayerStepped(mid, Snapshot(), Pos(old(player.x), old(player.y)), Pos(player.x, player.y), Delta(dx, dy),
                            hp, player.hp, old(player.attackPower), player.attackPower, found, moved)
      ensures clobbered <==> mid[old(player.y)][old(player.x)].EnemyCell?
      ensures player.direction == Turned(old(player.direction), dx)
      ensures clobbered ==> hp <= 0
      ensures !clobbered || moved.None? ==> Valid()
      ensures outcome == GameEnd(|enemies|, player.hp)
    {
      steps := EnemiesTurn(orders);
      mid, hp := Snapshot(), player.hp;
      found, moved, clobbered := PlayerStep(dx, dy);
      outcome := GameEnd(|enemies|, player.hp);
    }

    /** handlePlayerAttack (index.js:256-260): the enemies act as EnemiesTurn
        states, then the player strikes every enemy adjacent to it where the
        enemies' turn left them, then the outcome is decided. after records
        each enemy's statistics between the two phases; killed holds the
        enemies removed by the player's blows, whose squares get back what
        they carried. */
    method HandlePlayerAttack(orders: seq<seq<Delta>>)
      returns (outcome: Outcome, ghost steps: seq<Step>, ghost mid: seq<seq<Cell>>, ghost after: map<Entity, Stat>, ghost killed: set<Entity>)
      requires Valid() && |orders| == |enemies|
      requires forall i, j :: 0 <= i < |orders| && 0 <= j < |orders[i]| ==> orders[i][j] in AdjacentTiles
      modifies field, this`enemies, player, enemies
      ensures Valid() && player == old(player)
      ensures player.x == old(player.x) && player.y == old(player.y) && player.attackPower == old(player.attackPower)
      ensures player.direction == old(player.direction) && player.steppedOn == old(player.steppedOn)
      ensures |steps| == |old(enemies)| && Chain(steps, Pos(player.x, player.y), old(Snapshot()), old(player.hp))
      ensures player.hp == old(player.hp) - EnemyAttack * Hits(steps)
      ensures Sized(mid) && mid == GridAfter(steps, old(Snapshot()))
      ensures forall i :: 0 <= i < |old(enemies)| ==>
        old(enemies)[i] in after &&
        steps[i].e == old(enemies)[i] && steps[i].order == orders[i] &&
        steps[i].before == old(StatOf(enemies[i])) && steps[i].after == after[old(enemies)[i]]
      ensures forall e :: e in old(enemies) ==>
        e in after && e.x == after[e].pos.x && e.y == after[e].pos.y && e.attackPower == after[e].ap &&
        e.hp == after[e].hp - (if Adjacent(Pos(player.x, player.y), after[e].pos) then player.attackPower else 0)
      ensures forall e :: e in old(enemies) ==>
        after[e].hp == old(e.hp) && after[e].ap == old(e.attackPower) &&
        (after[e].pos == Pos(old(e.x), old(e.y)) || Adjacent(Pos(old(e.x), old(e.y)), after[e].pos))
      ensures forall e :: e in killed <==> e in old(enemies) && e.hp <= 0
      ensures forall e :: e in old(enemies) && e !in killed ==> e.steppedOn == after[e].carried
      ensures enemies == Without(old(enemies), killed)
      ensures Cleared(mid, after, killed)
      ensures outcome == GameEnd(|enemies|, player.hp)
    {
      steps := EnemiesTurn(orders);
      mid, after := Snapshot(), Stats(enemies);
      var hasAttacked;
      hasAttacked, killed := HandleAttack(player, true);
      outcome := GameEnd(|enemies|, player.hp);
    }
  }
}
