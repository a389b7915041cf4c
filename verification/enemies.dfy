/** Enemy spawning, movement and contact with towers (main.js:750-801, 939-1005). */
module Enemies {
  import opened Wrappers
  import opened Seqs
  import opened Geometry
  import opened Entities
  import opened Search

  /** Random candidate points randomSpawnPos tries before its fallback. */
  const SPAWN_TRIES: nat := 500

  /** The outcomes of Math.random for one call of randomSpawnPos: the candidate
      points of the sampling loop, and the point the fallback picks on the ring
      around a random tower before it is clamped to the world. */
  datatype SpawnDraw = SpawnDraw(tries: seq<(real, real)>, fallback: (real, real))

  /** The distance from (x, y) to its nearest tower lies in [spawnMin, spawnMax].
      The distance is a non-negative square root, so the lower bound only binds
      when spawnMin is positive, and no point qualifies when spawnMax is negative. */
  predicate InSpawnBand(s: State, p: (real, real))
  {
    && |s.towers| > 0
    && var d2 := TowerDist2(s.towers[NearestTower(s.towers, p.0, p.1).value], p.0, p.1);
       && (s.spawnMin <= 0 || Sq(s.spawnMin as real) <= d2)
       && (s.spawnMax >= 0 && d2 <= Sq(s.spawnMax as real))
  }

  /** clamp(v, a, b) = Math.max(a, Math.min(b, v)). */
  function Clamp(v: real, a: real, b: real): (r: real)
    ensures r >= a
    ensures a <= b ==> r <= b
    ensures a <= v <= b ==> r == v
  {
    var m := if b < v then b else v;
    if a > m then a else m
  }

  /** The tries the sampling loop looks at. */
  function Candidates(d: SpawnDraw): (r: seq<(real, real)>)
    ensures |r| <= SPAWN_TRIES && r <= d.tries
  {
    if |d.tries| <= SPAWN_TRIES then d.tries else d.tries[..SPAWN_TRIES]
  }

  /** The index of the first candidate in the spawn band, if any: the sampling
      loop returns as soon as a candidate qualifies. */
  function FirstInBand(s: State, cs: seq<(real, real)>): (r: Option<nat>)
    ensures r.Some? ==> r.value < |cs|
  {
    if |cs| == 0 then None
    else if InSpawnBand(s, cs[0]) then Some(0)
    else match FirstInBand(s, cs[1..])
      case None => None
      case Some(k) => Some(k + 1)
  }

  /** The search finds a candidate exactly when one lies in the band, and then
      the first one. */
  lemma {:induction false} FirstInBandSpec(s: State, cs: seq<(real, real)>)
    ensures FirstInBand(s, cs).None? <==> forall i :: 0 <= i < |cs| ==> !InSpawnBand(s, cs[i])
    ensures FirstInBand(s, cs).Some? ==> InSpawnBand(s, cs[FirstInBand(s, cs).value])
    ensures FirstInBand(s, cs).Some? ==> forall i :: 0 <= i < FirstInBand(s, cs).value ==> !InSpawnBand(s, cs[i])
  {
    if |cs| > 0 && !InSpawnBand(s, cs[0]) {
      FirstInBandSpec(s, cs[1..]);
      assert forall i :: 1 <= i < |cs| ==> cs[i] == cs[1..][i - 1];
    }
  }

  /** randomSpawnPos: no position without towers; otherwise the first candidate
      in its nearest tower's band, or else the fallback point clamped to the world. */
  function RandomSpawnPos(s: State, d: SpawnDraw): (r: Option<(real, real)>)
    ensures r.None? <==> |s.towers| == 0
  {
    if |s.towers| == 0 then None
    else match FirstInBand(s, Candidates(d))
      case Some(k) => Some(Candidates(d)[k])
      case None => Some((Clamp(d.fallback.0, 0.0, s.worldW), Clamp(d.fallback.1, 0.0, s.worldH)))
  }

  /** A position is a candidate in the band or the clamped fallback, and it is
      in the band whenever some candidate is. */
  lemma RandomSpawnPosSpec(s: State, d: SpawnDraw)
    requires |s.towers| > 0
    ensures || (InSpawnBand(s, RandomSpawnPos(s, d).value) && RandomSpawnPos(s, d).value in Candidates(d))
            || RandomSpawnPos(s, d).value == (Clamp(d.fallback.0, 0.0, s.worldW), Clamp(d.fallback.1, 0.0, s.worldH))
    ensures (exists i :: 0 <= i < |Candidates(d)| && InSpawnBand(s, Candidates(d)[i])) ==>
              InSpawnBand(s, RandomSpawnPos(s, d).value)
  {
    FirstInBandSpec(s, Candidates(d));
  }

  /** A spawn position lies inside the world whenever the random candidates do. */
  lemma SpawnPosInWorld(s: State, d: SpawnDraw)
    requires s.worldW >= 0.0 && s.worldH >= 0.0
    requires forall i :: 0 <= i < |d.tries| ==>
               0.0 <= d.tries[i].0 <= s.worldW && 0.0 <= d.tries[i].1 <= s.worldH
    requires |s.towers| > 0
    ensures var p := RandomSpawnPos(s, d).value;
            0.0 <= p.0 <= s.worldW && 0.0 <= p.1 <= s.worldH
  {
    var p := RandomSpawnPos(s, d).value;
    RandomSpawnPosSpec(s, d);
    if p in Candidates(d) {
      var i :| 0 <= i < |Candidates(d)| && Candidates(d)[i] == p;
      assert d.tries[i] == p;
    }
  }

  /** spawnEnemy: a new enemy with the next id and the wave's hit points, or nothing
      when there is no tower to spawn around. */
  function SpawnEnemy(s: State, d: SpawnDraw): (r: State)
    ensures |s.towers| == 0 ==> r == s
    ensures |s.towers| > 0 ==>
              && |r.enemies| == |s.enemies| + 1
              && r.enemies[..|s.enemies|] == s.enemies
              && r.enemies[|s.enemies|].id == s.nextEnemyId
              && r.enemies[|s.enemies|].hp == s.enemyHp
              && r == s.(enemies := r.enemies, nextEnemyId := s.nextEnemyId + 1)
  {
    match RandomSpawnPos(s, d)
    case None => s
    case Some(p) =>
      var e := Enemy(s.nextEnemyId, p.0, p.1, s.enemyHp);
      assert (s.enemies + [e])[..|s.enemies|] == s.enemies;
      s.(enemies := s.enemies + [e], nextEnemyId := s.nextEnemyId + 1)
  }

  /** Spawning keeps enemy ids unique and below the counter. */
  lemma SpawnEnemyPreservesValid(s: State, d: SpawnDraw)
    requires Valid(s)
    ensures Valid(SpawnEnemy(s, d))
  {
    var r := SpawnEnemy(s, d);
    if |s.towers| > 0 {
      forall i, j | 0 <= i < j < |r.enemies| ensures EnemyIdsDiffer(r.enemies[i], r.enemies[j]) {
        assert r.enemies[i] == s.enemies[i];
        if j < |s.enemies| {
          assert r.enemies[j] == s.enemies[j];
        }
      }
      forall i | 0 <= i < |r.enemies| ensures r.enemies[i].id < r.nextEnemyId {
        if i < |s.enemies| {
          assert r.enemies[i] == s.enemies[i];
        }
      }
    }
  }

  /** The enemy after walking for dt at the given speed along the direction u. */
  function Toward(e: Enemy, u: (real, real), speed: int, dt: real): (r: Enemy)
    ensures r.id == e.id && r.hp == e.hp
  {
    e.(x := e.x + u.0 * speed as real * dt, y := e.y + u.1 * speed as real * dt)
  }

  /** One enemy's step toward its nearest tower: `unit` stands for the division by
      Math.hypot(dx, dy) || 1. With no tower the source's loop stops and nobody moves. */
  function Step(e: Enemy, ts: seq<Tower>, speed: int, dt: real, unit: (real, real) -> (real, real)): (r: Enemy)
    ensures r.id == e.id && r.hp == e.hp
    ensures |ts| == 0 ==> r == e
  {
    match NearestTower(ts, e.x, e.y)
    case None => e
    case Some(k) => Toward(e, unit(ts[k].x as real - e.x, ts[k].y as real - e.y), speed, dt)
  }

  function MoveEnemies(es: seq<Enemy>, ts: seq<Tower>, speed: int, dt: real, unit: (real, real) -> (real, real)): (r: seq<Enemy>)
    ensures |r| == |es|
    ensures forall i :: 0 <= i < |es| ==> r[i] == Step(es[i], ts, speed, dt, unit)
  {
    seq(|es|, i requires 0 <= i < |es| => Step(es[i], ts, speed, dt, unit))
  }

  /** Movement keeps every enemy in its place in the registry with its id and hit
      points, and with no tower standing nobody moves. */
  lemma MoveEnemiesKeepsIdentity(es: seq<Enemy>, ts: seq<Tower>, speed: int, dt: real, unit: (real, real) -> (real, real))
    ensures forall i :: 0 <= i < |es| ==>
              MoveEnemies(es, ts, speed, dt, unit)[i].id == es[i].id && MoveEnemies(es, ts, speed, dt, unit)[i].hp == es[i].hp
    ensures |ts| == 0 ==> MoveEnemies(es, ts, speed, dt, unit) == es
  {
  }

  /** Scaling both coordinates of a difference scales its square by the square. */
  lemma ScaledDist2(ax: real, ay: real, m: real)
    ensures Sq(m * ax) + Sq(m * ay) == Sq(m) * (Sq(ax) + Sq(ay))
  {
    assert Sq(m * ax) == (m * m) * (ax * ax);
    assert Sq(m * ay) == (m * m) * (ay * ay);
  }

  /** A factor in [0, 1] does not enlarge a non-negative quantity, even squared. */
  lemma ShrinkFactor(m: real, d: real)
    requires 0.0 <= m <= 1.0 && d >= 0.0
    ensures Sq(m) * d <= d
  {
    MulNonNeg(m, 1.0 - m);
    assert Sq(m) == m - m * (1.0 - m);
    MulNonNeg(1.0 - Sq(m), d);
  }

  /** Walking along c times the offset to (tx, ty) shrinks that offset by the
      factor 1 - c * speed * dt. */
  lemma TowardOffset(ex: real, tx: real, c: real, k: real)
    ensures tx - (ex + (c * (tx - ex)) * k) == (1.0 - c * k) * (tx - ex)
  {
  }

  /** Scaling a difference by a factor in [0, 1] does not enlarge its square length. */
  lemma ShrinkDist(ax: real, ay: real, m: real)
    requires 0.0 <= m <= 1.0
    ensures Sq(m * ax) + Sq(m * ay) <= Sq(ax) + Sq(ay)
  {
    var d := Sq(ax) + Sq(ay);
    ScaledDist2(ax, ay, m);
    assert Sq(m * ax) + Sq(m * ay) == Sq(m) * d;
    SquareNonNeg(ax);
    SquareNonNeg(ay);
    ShrinkFactor(m, d);
  }

  /** Walking along c times the offset to a tower scales that offset by 1 - c * speed * dt. */
  lemma TowardOffsets(e: Enemy, t: Tower, speed: int, dt: real, c: real)
    ensures var r := Toward(e, (c * (t.x as real - e.x), c * (t.y as real - e.y)), speed, dt);
            t.x as real - r.x == (1.0 - c * (speed as real * dt)) * (t.x as real - e.x) &&
            t.y as real - r.y == (1.0 - c * (speed as real * dt)) * (t.y as real - e.y)
  {
    var k := speed as real * dt;
    TowardOffset(e.x, t.x as real, c, k);
    TowardOffset(e.y, t.y as real, c, k);
  }

  /** When the normalisation is a non-negative scaling c of the direction (as
      division by the length is) and the step does not overshoot the target, an
      enemy does not end farther from the tower it walks to than it started. */
  lemma TowardApproaches(e: Enemy, t: Tower, speed: int, dt: real, c: real)
    requires 0.0 <= c * (speed as real * dt) <= 1.0
    ensures var u := (c * (t.x as real - e.x), c * (t.y as real - e.y));
            TowerDist2(t, Toward(e, u, speed, dt).x, Toward(e, u, speed, dt).y) <= TowerDist2(t, e.x, e.y)
  {
    var r := Toward(e, (c * (t.x as real - e.x), c * (t.y as real - e.y)), speed, dt);
    var m := 1.0 - c * (speed as real * dt);
    var ax, ay := t.x as real - e.x, t.y as real - e.y;
    TowardOffsets(e, t, speed, dt, c);
    assert TowerDist2(t, r.x, r.y) == Sq(m * ax) + Sq(m * ay);
    ShrinkDist(ax, ay, m);
  }

  /** Under a length-normalising `unit` (a non-negative scaling of its argument)
      and a step that does not overshoot, Step brings an enemy no farther from the
      nearest tower, which is the one it walks to. */
  lemma StepApproachesNearestTower(e: Enemy, ts: seq<Tower>, speed: int, dt: real,
                                   unit: (real, real) -> (real, real), k: nat, c: real)
    requires NearestTower(ts, e.x, e.y) == Some(k)
    requires unit(ts[k].x as real - e.x, ts[k].y as real - e.y)
             == (c * (ts[k].x as real - e.x), c * (ts[k].y as real - e.y))
    requires 0.0 <= c * (speed as real * dt) <= 1.0
    ensures TowerDist2(ts[k], Step(e, ts, speed, dt, unit).x, Step(e, ts, speed, dt, unit).y)
            <= TowerDist2(ts[k], e.x, e.y)
  {
    TowardApproaches(e, ts[k], speed, dt, c);
  }

  /** The touch distance TOWER_SIZE / 2 + ENEMY_RADIUS. */
  const TOUCH_DIST: int := TOWER_SIZE / 2 + ENEMY_RADIUS

  /** dist(e, t) <= TOUCH_DIST, compared on squares. */
  predicate Touches(e: Enemy, t: Tower)
  {
    Dist2(e.x, e.y, t.x as real, t.y as real) <= Sq(TOUCH_DIST as real)
  }

  /** The ids collected by the contact loop: a set for enemies, and the towers in
      insertion order, which is the order the removal loop visits them in. */
  datatype Contacts = Contacts(deadEnemies: set<int>, deadTowers: seq<int>)

  predicate LiveTouch(e: Enemy, deadTowers: seq<int>, t: Tower)
  {
    t.id !in deadTowers && Touches(e, t)
  }

  /** The first tower, not yet destroyed this frame, that the enemy touches. */
  function TouchedTower(e: Enemy, ts: seq<Tower>, deadTowers: seq<int>): (r: Option<nat>)
    ensures r.None? <==> forall i :: 0 <= i < |ts| ==> !LiveTouch(e, deadTowers, ts[i])
    ensures r.Some? ==> r.value < |ts| && LiveTouch(e, deadTowers, ts[r.value])
    ensures r.Some? ==> forall i :: 0 <= i < r.value ==> !LiveTouch(e, deadTowers, ts[i])
  {
    FindFirst(ts, (t: Tower) => LiveTouch(e, deadTowers, t))
  }

  /** One iteration of the contact loop: an enemy not already dead that touches a
      live tower destroys it and dies with it. */
  function ContactStep(e: Enemy, ts: seq<Tower>, c: Contacts): (r: Contacts)
    ensures c.deadEnemies <= r.deadEnemies && r.deadEnemies <= c.deadEnemies + {e.id}
    ensures |c.deadTowers| <= |r.deadTowers| <= |c.deadTowers| + 1
    ensures r.deadTowers[..|c.deadTowers|] == c.deadTowers
  {
    if e.id in c.deadEnemies then c
    else match TouchedTower(e, ts, c.deadTowers)
      case None => c
      case Some(k) =>
        assert (c.deadTowers + [ts[k].id])[..|c.deadTowers|] == c.deadTowers;
        Contacts(c.deadEnemies + {e.id}, c.deadTowers + [ts[k].id])
  }

  /** The contact loop over the (moved) enemies, in order. */
  function ContactPass(es: seq<Enemy>, ts: seq<Tower>, c: Contacts): (r: Contacts)
    ensures c.deadEnemies <= r.deadEnemies
    ensures |c.deadTowers| <= |r.deadTowers| && r.deadTowers[..|c.deadTowers|] == c.deadTowers
    decreases |es|
  {
    if |es| == 0 then c
    else
      var r := ContactPass(es[1..], ts, ContactStep(es[0], ts, c));
      assert r.deadTowers[..|c.deadTowers|] == r.deadTowers[..|ContactStep(es[0], ts, c).deadTowers|][..|c.deadTowers|];
      r
  }

  /** What the contact loop keeps: one destroyed tower per dead enemy, no tower
      listed twice, and only ids of real towers listed. */
  ghost predicate ContactsInvariant(ts: seq<Tower>, c: Contacts)
  {
    && Distinct(c.deadTowers)
    && (forall i :: 0 <= i < |c.deadTowers| ==> c.deadTowers[i] in Keys(ts, TowerId))
    && |c.deadEnemies| == |c.deadTowers|
  }

  lemma ContactStepInvariant(e: Enemy, ts: seq<Tower>, c: Contacts)
    requires ContactsInvariant(ts, c)
    ensures ContactsInvariant(ts, ContactStep(e, ts, c))
  {
    if e.id !in c.deadEnemies {
      match TouchedTower(e, ts, c.deadTowers)
      case None =>
      case Some(k) =>
        var r := ContactStep(e, ts, c);
        assert r.deadTowers == c.deadTowers + [ts[k].id];
        assert TowerId(ts[k]) in Keys(ts, TowerId);
        assert |c.deadEnemies + {e.id}| == |c.deadEnemies| + 1;
    }
  }

  lemma {:induction false} ContactPassInvariant(es: seq<Enemy>, ts: seq<Tower>, c: Contacts)
    requires ContactsInvariant(ts, c)
    ensures ContactsInvariant(ts, ContactPass(es, ts, c))
    decreases |es|
  {
    if |es| > 0 {
      ContactStepInvariant(es[0], ts, c);
      ContactPassInvariant(es[1..], ts, ContactStep(es[0], ts, c));
    }
  }

  /** Only enemies the loop went through die. */
  lemma {:induction false} ContactPassDeadEnemies(es: seq<Enemy>, ts: seq<Tower>, c: Contacts)
    ensures ContactPass(es, ts, c).deadEnemies <= c.deadEnemies + Keys(es, EnemyId)
    decreases |es|
  {
    if |es| > 0 {
      ContactPassDeadEnemies(es[1..], ts, ContactStep(es[0], ts, c));
      assert Keys(es, EnemyId) == {EnemyId(es[0])} + Keys(es[1..], EnemyId) by {
        forall x | x in Keys(es, EnemyId) ensures x in {EnemyId(es[0])} + Keys(es[1..], EnemyId) {
          var i :| 0 <= i < |es| && EnemyId(es[i]) == x;
          if i > 0 {
            assert es[1..][i - 1] == es[i];
          }
        }
        forall x | x in Keys(es[1..], EnemyId) ensures x in Keys(es, EnemyId) {
          var i :| 0 <= i < |es[1..]| && EnemyId(es[1..][i]) == x;
          assert es[i + 1] == es[1..][i];
        }
      }
    }
  }

  /** After the loop, no enemy that survived it touches a tower that survived it. */
  lemma {:induction false} ContactPassSeparates(es: seq<Enemy>, ts: seq<Tower>, c: Contacts, j: int, i: int)
    requires 0 <= j < |es| && 0 <= i < |ts|
    requires es[j].id !in ContactPass(es, ts, c).deadEnemies
    requires ts[i].id !in ContactPass(es, ts, c).deadTowers
    ensures !Touches(es[j], ts[i])
    decreases |es|
  {
    var c' := ContactStep(es[0], ts, c);
    var r := ContactPass(es, ts, c);
    assert r == ContactPass(es[1..], ts, c');
    if j == 0 {
      assert es[0].id !in c'.deadEnemies;
      assert ts[i].id !in c.deadTowers by {
        assert c.deadTowers == c'.deadTowers[..|c.deadTowers|];
        assert c'.deadTowers == r.deadTowers[..|c'.deadTowers|];
      }
      assert !LiveTouch(es[0], c.deadTowers, ts[i]);
    } else {
      assert es[1..][j - 1] == es[j];
      ContactPassSeparates(es[1..], ts, c', j - 1, i);
    }
  }

  /** The position of the first tower with the given id (findIndex). */
  function FindTowerId(ts: seq<Tower>, id: int): (r: Option<nat>)
    ensures r.None? <==> forall i :: 0 <= i < |ts| ==> ts[i].id != id
    ensures r.Some? ==> r.value < |ts| && ts[r.value].id == id
    ensures r.Some? ==> forall i :: 0 <= i < r.value ==> ts[i].id != id
  {
    FindFirst(ts, (t: Tower) => TowerId(t) == id)
  }

  /** `towers.splice(idx, 1)` at the first tower with the id, if there is one. */
  function SpliceOut(ts: seq<Tower>, id: int): (r: seq<Tower>)
    ensures FindTowerId(ts, id).None? ==> r == ts
    ensures FindTowerId(ts, id).Some? ==>
              var k := FindTowerId(ts, id).value;
              r == ts[..k] + ts[k + 1..]
  {
    match FindTowerId(ts, id)
    case None => ts
    case Some(k) => ts[..k] + ts[k + 1..]
  }

  /** Splicing removes exactly one tower, the first with the id, when there is one,
      and leaves the registry alone otherwise. */
  lemma SpliceOutRemovesOne(ts: seq<Tower>, id: int)
    ensures FindTowerId(ts, id).None? ==> SpliceOut(ts, id) == ts
    ensures FindTowerId(ts, id).Some? ==>
              && |SpliceOut(ts, id)| == |ts| - 1
              && ts[FindTowerId(ts, id).value].id == id
              && multiset(SpliceOut(ts, id)) + multiset{ts[FindTowerId(ts, id).value]} == multiset(ts)
  {
    match FindTowerId(ts, id)
    case None =>
    case Some(k) =>
      assert ts == ts[..k] + [ts[k]] + ts[k + 1..];
  }

  /** The removal loop of updateEnemies over the destroyed ids, in order. */
  function RemoveTowers(ts: seq<Tower>, ids: seq<int>): (r: seq<Tower>)
    ensures |r| <= |ts|
    decreases |ids|
  {
    if |ids| == 0 then ts else RemoveTowers(SpliceOut(ts, ids[0]), ids[1..])
  }

  /** With unique ids, splicing out an id is filtering it out. */
  lemma SpliceOutIsRemoval(ts: seq<Tower>, id: int)
    requires Pairwise(ts, TowerIdsDiffer)
    ensures SpliceOut(ts, id) == RemoveKeys(ts, TowerId, {id})
  {
    match FindTowerId(ts, id)
    case None =>
      RemoveKeysAbsent(ts, TowerId, {id});
    case Some(k) =>
      var a, x, b := ts[..k], ts[k], ts[k + 1..];
      assert ts == a + [x] + b;
      forall i | 0 <= i < |a| ensures TowerId(a[i]) != id {
        assert a[i] == ts[i];
      }
      forall i | 0 <= i < |b| ensures TowerId(b[i]) != id {
        assert b[i] == ts[k + 1 + i];
      }
      RemoveKeysSplice(a, x, b, TowerId, id);
  }

  /** With unique ids, the splice loop removes exactly the listed ids, keeping the
      survivors in order: it is the filter `towers.filter(t => !dead.has(t.id))`. */
  lemma {:induction false} RemoveTowersIsRemoval(ts: seq<Tower>, ids: seq<int>)
    requires Pairwise(ts, TowerIdsDiffer)
    ensures RemoveTowers(ts, ids) == RemoveKeys(ts, TowerId, Elements(ids))
    decreases |ids|
  {
    if |ids| == 0 {
      RemoveKeysAbsent(ts, TowerId, {});
      assert Elements(ids) == {};
    } else {
      SpliceOutIsRemoval(ts, ids[0]);
      var ts' := RemoveKeys(ts, TowerId, {ids[0]});
      assert Pairwise(ts', TowerIdsDiffer) by {
        assert Pairwise(ts, TowerIdsDiffer);
        RemoveKeysPairwise(ts, TowerId, {ids[0]}, TowerIdsDiffer);
      }
      RemoveTowersIsRemoval(ts', ids[1..]);
      RemoveKeysTwice(ts, TowerId, {ids[0]}, Elements(ids[1..]));
      assert {ids[0]} + Elements(ids[1..]) == Elements(ids) by {
        forall x | x in Elements(ids) ensures x in {ids[0]} + Elements(ids[1..]) {
          var i :| 0 <= i < |ids| && ids[i] == x;
          if i > 0 {
            assert ids[1..][i - 1] == x;
          }
        }
        forall x | x in Elements(ids[1..]) ensures x in Elements(ids) {
          var i :| 0 <= i < |ids[1..]| && ids[1..][i] == x;
          assert ids[i + 1] == x;
        }
      }
    }
  }

  /** The contact loop of a frame, run on the enemies after they moved. */
  function ContactOutcome(s: State, dt: real, unit: (real, real) -> (real, real)): Contacts
  {
    ContactPass(MoveEnemies(s.enemies, s.towers, s.enemySpeed, dt, unit), s.towers, Contacts({}, []))
  }

  /** updateEnemies: with no tower nothing happens; otherwise enemies step toward
      their nearest tower, every touching pair is destroyed, the selection is
      cleared if its tower was destroyed, and the game ends when no tower is left. */
  function UpdateEnemies(s: State, dt: real, unit: (real, real) -> (real, real)): (r: State)
    ensures |s.towers| == 0 ==> r == s
    ensures |s.towers| > 0 ==>
              && r.enemies == RemoveKeys(MoveEnemies(s.enemies, s.towers, s.enemySpeed, dt, unit), EnemyId,
                                         ContactOutcome(s, dt, unit).deadEnemies)
              && r.towers == RemoveTowers(s.towers, ContactOutcome(s, dt, unit).deadTowers)
              && (r.gameOver <==> s.gameOver || |r.towers| == 0)
              && (r.selected.Some? ==> r.selected == s.selected)
              && (s.selected.Some? && s.selected.value !in ContactOutcome(s, dt, unit).deadTowers ==> r.selected == s.selected)
              && (s.selected.Some? && s.selected.value in ContactOutcome(s, dt, unit).deadTowers ==> r.selected.None?)
    ensures r.gold == s.gold && r.bullets == s.bullets && r.wave == s.wave && r.nextTowerId == s.nextTowerId
  {
    if |s.towers| == 0 then s
    else
      var moved := MoveEnemies(s.enemies, s.towers, s.enemySpeed, dt, unit);
      var c := ContactOutcome(s, dt, unit);
      var ts := RemoveTowers(s.towers, c.deadTowers);
      s.(enemies := RemoveKeys(moved, EnemyId, c.deadEnemies),
         towers := ts,
         selected := if s.selected.Some? && s.selected.value in c.deadTowers then None else s.selected,
         gameOver := if |ts| == 0 then true else s.gameOver)
  }

  /** The facts about a frame's contact loop the lemmas below share. */
  lemma ContactOutcomeFacts(s: State, dt: real, unit: (real, real) -> (real, real))
    requires Valid(s)
    ensures ContactsInvariant(s.towers, ContactOutcome(s, dt, unit))
    ensures ContactOutcome(s, dt, unit).deadEnemies <= Keys(MoveEnemies(s.enemies, s.towers, s.enemySpeed, dt, unit), EnemyId)
    ensures |Elements(ContactOutcome(s, dt, unit).deadTowers)| == |ContactOutcome(s, dt, unit).deadTowers|
    ensures Elements(ContactOutcome(s, dt, unit).deadTowers) <= Keys(s.towers, TowerId)
  {
    var moved := MoveEnemies(s.enemies, s.towers, s.enemySpeed, dt, unit);
    ContactPassInvariant(moved, s.towers, Contacts({}, []));
    ContactPassDeadEnemies(moved, s.towers, Contacts({}, []));
    var c := ContactOutcome(s, dt, unit);
    DistinctCardinality(c.deadTowers);
  }

  /** Contact is a one-for-one trade: a frame removes as many enemies as towers. */
  lemma UpdateEnemiesTrade(s: State, dt: real, unit: (real, real) -> (real, real))
    requires Valid(s)
    ensures |s.enemies| - |UpdateEnemies(s, dt, unit).enemies| == |s.towers| - |UpdateEnemies(s, dt, unit).towers|
  {
    if |s.towers| > 0 {
      var moved := MoveEnemies(s.enemies, s.towers, s.enemySpeed, dt, unit);
      var c := ContactOutcome(s, dt, unit);
      ContactOutcomeFacts(s, dt, unit);
      forall i, j | 0 <= i < j < |moved| ensures EnemyId(moved[i]) != EnemyId(moved[j]) {
        assert EnemyIdsDiffer(s.enemies[i], s.enemies[j]);
      }
      RemoveKeysCount(moved, EnemyId, c.deadEnemies);
      RemoveTowersIsRemoval(s.towers, c.deadTowers);
      RemoveKeysCount(s.towers, TowerId, Elements(c.deadTowers));
    }
  }

  /** After a frame's contact handling, no remaining enemy touches a remaining tower. */
  lemma UpdateEnemiesSeparates(s: State, dt: real, unit: (real, real) -> (real, real), e: Enemy, t: Tower)
    requires Valid(s)
    requires e in UpdateEnemies(s, dt, unit).enemies && t in UpdateEnemies(s, dt, unit).towers
    requires |s.towers| > 0
    ensures !Touches(e, t)
  {
    var moved := MoveEnemies(s.enemies, s.towers, s.enemySpeed, dt, unit);
    var c := ContactOutcome(s, dt, unit);
    RemoveTowersIsRemoval(s.towers, c.deadTowers);
    var j :| 0 <= j < |moved| && moved[j] == e;
    var i :| 0 <= i < |s.towers| && s.towers[i] == t;
    assert t.id !in Elements(c.deadTowers);
    forall m | 0 <= m < |c.deadTowers| ensures c.deadTowers[m] != t.id {
      assert c.deadTowers[m] in Elements(c.deadTowers);
    }
    ContactPassSeparates(moved, s.towers, Contacts({}, []), j, i);
  }

  /** A selected tower stays selected exactly as long as it survives the frame. */
  lemma UpdateEnemiesSelection(s: State, dt: real, unit: (real, real) -> (real, real), id: int)
    requires Valid(s) && |s.towers| > 0
    requires s.selected == Some(id) && id in Keys(s.towers, TowerId)
    ensures UpdateEnemies(s, dt, unit).selected == Some(id) <==> id in Keys(UpdateEnemies(s, dt, unit).towers, TowerId)
  {
    var c := ContactOutcome(s, dt, unit);
    var r := UpdateEnemies(s, dt, unit);
    RemoveTowersIsRemoval(s.towers, c.deadTowers);
    var k :| 0 <= k < |s.towers| && TowerId(s.towers[k]) == id;
    if id in c.deadTowers {
      var m :| 0 <= m < |c.deadTowers| && c.deadTowers[m] == id;
      assert id in Elements(c.deadTowers);
      forall i | 0 <= i < |r.towers| ensures TowerId(r.towers[i]) != id {
      }
    } else {
      forall x | x in Elements(c.deadTowers) ensures x != id {
        var m :| 0 <= m < |c.deadTowers| && c.deadTowers[m] == x;
      }
      assert s.towers[k] in r.towers;
      var i :| 0 <= i < |r.towers| && r.towers[i] == s.towers[k];
      assert TowerId(r.towers[i]) == id;
    }
  }

  /** Movement and contact keep every registry invariant. */
  lemma UpdateEnemiesPreservesValid(s: State, dt: real, unit: (real, real) -> (real, real))
    requires Valid(s)
    ensures Valid(UpdateEnemies(s, dt, unit))
  {
    if |s.towers| > 0 {
      var moved := MoveEnemies(s.enemies, s.towers, s.enemySpeed, dt, unit);
      var c := ContactOutcome(s, dt, unit);
      var r := UpdateEnemies(s, dt, unit);
      RemoveTowersIsRemoval(s.towers, c.deadTowers);
      RemoveKeysPairwise(s.towers, TowerId, Elements(c.deadTowers), TowerIdsDiffer);
      RemoveKeysPairwise(s.towers, TowerId, Elements(c.deadTowers), TowerPointsDiffer);
      assert Pairwise(moved, EnemyIdsDiffer) by {
        forall i, j | 0 <= i < j < |moved| ensures EnemyIdsDiffer(moved[i], moved[j]) {
          assert EnemyIdsDiffer(s.enemies[i], s.enemies[j]);
        }
      }
      RemoveKeysPairwise(moved, EnemyId, c.deadEnemies, EnemyIdsDiffer);
      forall t | t in r.towers ensures t.id < r.nextTowerId && StatsValid(t) {
        var i :| 0 <= i < |s.towers| && s.towers[i] == t;
      }
      forall e | e in r.enemies ensures e.id < r.nextEnemyId {
        var j :| 0 <= j < |moved| && moved[j] == e;
        assert s.enemies[j].id == e.id;
      }
      assert TowersValid(r.towers, r.nextTowerId);
      assert EnemiesValid(r.enemies, r.nextEnemyId);
    }
  }
}
