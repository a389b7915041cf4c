/** The records the simulation keeps (main.js:64-120, 715-733, 800, 831-839) and
    the invariants the operations preserve. */
module Entities {
  import opened Wrappers
  import opened Seqs

  /** Side of a tower square (TOWER_SIZE). */
  const TOWER_SIZE: int := 40
  /** Collision radius of an enemy (ENEMY_RADIUS). */
  const ENEMY_RADIUS: int := 10
  /** Gold charged for a new tower (tower_cost). */
  const TOWER_COST: int := 10
  /** Stats a new tower starts with (range_radius, tower_fire_every, bullet_speed). */
  const DEFAULT_RANGE: int := 300
  const DEFAULT_FIRE_EVERY: real := 1.0
  const DEFAULT_BULLET_SPEED: int := 300
  /** Upgrade caps: fire interval floor, bullet speed and range ceilings
      (MAX_FIRE_EVERY, MAX_BULLET_SPEED, MAX_RANGE). */
  const MIN_FIRE_EVERY: real := 0.01
  const MAX_BULLET_SPEED: int := 1500
  const MAX_RANGE: int := 10000
  /** Seconds per wave (WAVE_DURATION). */
  const WAVE_DURATION: real := 60.0

  /** A tower sits on a grid point; every stat and upgrade price is its own. */
  datatype Tower = Tower(
    id: int, x: int, y: int,
    cd: real, range: int, fireEvery: real, dmg: int, bulletSpeed: int,
    costDmg: int, costSpeed: int, costRange: int, costBullet: int)

  datatype Enemy = Enemy(id: int, x: real, y: real, hp: int)

  /** A projectile. The source never gives a bullet a `range` property, so reading
      it yields `undefined`; `range` models that property, `None` being `undefined`. */
  datatype Bullet = Bullet(
    id: int, x: real, y: real, px: real, py: real, dx: real, dy: real,
    traveled: real, dmg: int, speed: int, range: Option<real>)

  /** The module-level variables the per-frame update reads and writes. */
  datatype State = State(
    worldW: real, worldH: real,
    gold: int, wave: int, lastWaveIndex: int,
    enemyHp: int, enemySpeed: int, spawnEvery: real,
    spawnMin: int, spawnMax: int, spawnAcc: real,
    nextTowerId: int, nextEnemyId: int, nextBulletId: int,
    selected: Option<int>, gameOver: bool,
    towers: seq<Tower>, enemies: seq<Enemy>, bullets: seq<Bullet>)

  /** The values the globals are declared with, for a world of the given size. */
  function Initial(worldW: real, worldH: real): (s: State)
    ensures s.towers == [] && s.enemies == [] && s.bullets == []
    ensures s.gold == TOWER_COST && s.wave == 1 && !s.gameOver
  {
    State(worldW, worldH, 10, 1, 0, 0, 50, 3.0, 500, 1000, 0.0, 1, 1, 1, None, false, [], [], [])
  }

  /** The id of each kind of record, as a function value for the keyed helpers. */
  function TowerId(t: Tower): int { t.id }
  function EnemyId(e: Enemy): int { e.id }
  function BulletId(b: Bullet): int { b.id }

  predicate TowerIdsDiffer(a: Tower, b: Tower) { a.id != b.id }
  predicate TowerPointsDiffer(a: Tower, b: Tower) { a.x != b.x || a.y != b.y }
  predicate EnemyIdsDiffer(a: Enemy, b: Enemy) { a.id != b.id }
  predicate BulletIdsDiffer(a: Bullet, b: Bullet) { a.id != b.id }

  /** Registry invariants: ids are unique and below their counters, no two towers
      share a grid point, and the stats stay where the operations keep them. */
  ghost predicate TowersValid(ts: seq<Tower>, nextId: int)
  {
    && Pairwise(ts, TowerIdsDiffer)
    && Pairwise(ts, TowerPointsDiffer)
    && forall i :: 0 <= i < |ts| ==> ts[i].id < nextId && StatsValid(ts[i])
  }

  /** A tower's stats never drop below the values a new tower starts from, except
      the fire interval, which upgrades shrink down to MIN_FIRE_EVERY. */
  predicate StatsValid(t: Tower)
  {
    && t.fireEvery >= MIN_FIRE_EVERY && t.dmg >= 1
    && t.costDmg >= 20 && t.costSpeed >= 20 && t.costRange >= 20 && t.costBullet >= 20
  }

  ghost predicate EnemiesValid(es: seq<Enemy>, nextId: int)
  {
    && Pairwise(es, EnemyIdsDiffer)
    && forall i :: 0 <= i < |es| ==> es[i].id < nextId
  }

  ghost predicate BulletsValid(bs: seq<Bullet>, nextId: int)
  {
    && Pairwise(bs, BulletIdsDiffer)
    && forall i :: 0 <= i < |bs| ==> bs[i].id < nextId && bs[i].range.None? && bs[i].dmg >= 1
  }

  ghost predicate Valid(s: State)
  {
    && TowersValid(s.towers, s.nextTowerId)
    && EnemiesValid(s.enemies, s.nextEnemyId)
    && BulletsValid(s.bullets, s.nextBulletId)
    && s.gold >= 0
    && s.lastWaveIndex >= 0
    && s.wave == 1 + s.lastWaveIndex
    && s.spawnEvery > 0.0
    && s.spawnMax - s.spawnMin == 500
  }

  lemma InitialValid(worldW: real, worldH: real)
    ensures Valid(Initial(worldW, worldH))
  {
  }
}
