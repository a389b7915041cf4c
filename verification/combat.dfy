/** Tower fire and bullet flight (main.js:823-914). */
module Combat {
  import opened Wrappers
  import opened Seqs
  import opened Geometry
  import opened Economy
  import opened Entities
  import opened Search

  /** The tower's range as the squared bound nearestEnemyInRange compares with. */
  predicate InTowerRange(t: Tower, e: Enemy)
  {
    EnemyDist2(e, t.x as real, t.y as real) <= Sq(t.range as real)
  }

  /** fireBulletFromTower: a bullet aimed at the nearest enemy within range, or none.
      `unit` stands for the division by Math.hypot(dx, dy) || 1. The bullet is
      created without a range property. */
  function Shot(t: Tower, es: seq<Enemy>, id: int, unit: (real, real) -> (real, real)): (r: Option<Bullet>)
    ensures r.None? <==> forall j :: 0 <= j < |es| ==> !InTowerRange(t, es[j])
    ensures r.Some? <==> NearestEnemyInRange(es, t.x as real, t.y as real, t.range as real).Some?
    ensures r.Some? ==>
              var k := NearestEnemyInRange(es, t.x as real, t.y as real, t.range as real).value;
              && k < |es| && InTowerRange(t, es[k])
              && (r.value.dx, r.value.dy) == unit(es[k].x - t.x as real, es[k].y - t.y as real)
    ensures r.Some? ==>
              && r.value.id == id && r.value.x == t.x as real && r.value.y == t.y as real
              && r.value.px == t.x as real && r.value.py == t.y as real && r.value.traveled == 0.0
              && r.value.dmg == t.dmg && r.value.speed == t.bulletSpeed && r.value.range.None?
  {
    match NearestEnemyInRange(es, t.x as real, t.y as real, t.range as real)
    case None =>
      NearestEnemyInRangeSpec(es, t.x as real, t.y as real, t.range as real);
      assert forall j :: 0 <= j < |es| ==> !InTowerRange(t, es[j]);
      None
    case Some(k) =>
      var e := es[k];
      var tx, ty := t.x as real, t.y as real;
      var u := unit(e.x - tx, e.y - ty);
      Some(Bullet(id, tx, ty, tx, ty, u.0, u.1, 0.0, t.dmg, t.bulletSpeed, None))
  }

  /** The cooldown, reduced by dt, has run out. */
  predicate Ready(t: Tower, dt: real)
  {
    t.cd - dt <= 0.0
  }

  /** The tower both comes off cooldown and has a target. */
  predicate Fires(t: Tower, es: seq<Enemy>, dt: real)
  {
    Ready(t, dt) && exists j :: 0 <= j < |es| && InTowerRange(t, es[j])
  }

  /** The tower's cooldown after the frame: reset to fireEvery when it ran out,
      whether or not a bullet left. */
  function Cooled(t: Tower, dt: real): (r: Tower)
    ensures r == t.(cd := r.cd)
    ensures Ready(t, dt) ==> r.cd == t.fireEvery
    ensures !Ready(t, dt) ==> r.cd == t.cd - dt && r.cd > 0.0
  {
    if Ready(t, dt) then t.(cd := t.fireEvery) else t.(cd := t.cd - dt)
  }

  function OptionToSeq<T>(o: Option<T>): (r: seq<T>)
    ensures |r| == if o.Some? then 1 else 0
    ensures o.Some? ==> r == [o.value]
  {
    if o.Some? then [o.value] else []
  }

  /** The number of towers in ts that fire this frame. */
  function FiringCount(ts: seq<Tower>, es: seq<Enemy>, dt: real): nat
  {
    if |ts| == 0 then 0
    else (if Fires(ts[0], es, dt) then 1 else 0) + FiringCount(ts[1..], es, dt)
  }

  /** The bullet left the given tower, which fired this frame. */
  predicate FiredFrom(b: Bullet, t: Tower, es: seq<Enemy>, dt: real)
  {
    Fires(t, es, dt) && b.dmg == t.dmg && b.x == t.x as real && b.y == t.y as real
  }

  /** The bullet left one of the towers of ts that fired this frame. */
  ghost predicate FiredBy(b: Bullet, ts: seq<Tower>, es: seq<Enemy>, dt: real)
  {
    exists i :: 0 <= i < |ts| && FiredFrom(b, ts[i], es, dt)
  }

  datatype Volley = Volley(towers: seq<Tower>, shots: seq<Bullet>)

  /** The loop over the towers of updateTowerFire, bullet ids counting up from nextId. */
  function FirePass(ts: seq<Tower>, es: seq<Enemy>, dt: real, nextId: int, unit: (real, real) -> (real, real)): (r: Volley)
    ensures |r.towers| == |ts|
    ensures forall i :: 0 <= i < |ts| ==> r.towers[i] == Cooled(ts[i], dt)
    ensures |r.shots| == FiringCount(ts, es, dt) <= |ts|
    ensures forall j :: 0 <= j < |r.shots| ==> r.shots[j].id == nextId + j && r.shots[j].range.None?
    decreases |ts|
  {
    if |ts| == 0 then Volley([], [])
    else
      var t := ts[0];
      var rest := FirePass(ts[1..], es, dt, nextId + |FirstShot(t, es, dt, nextId, unit)|, unit);
      var r := Volley([Cooled(t, dt)] + rest.towers, FirstShot(t, es, dt, nextId, unit) + rest.shots);
      assert forall i :: 1 <= i < |ts| ==> r.towers[i] == rest.towers[i - 1] && ts[1..][i - 1] == ts[i];
      r
  }

  /** The bullet, if any, the tower adds this frame. */
  function FirstShot(t: Tower, es: seq<Enemy>, dt: real, id: int, unit: (real, real) -> (real, real)): (r: seq<Bullet>)
    ensures |r| == if Fires(t, es, dt) then 1 else 0
    ensures |r| == 1 ==> r[0].id == id && r[0].range.None? && FiredFrom(r[0], t, es, dt)
  {
    if Ready(t, dt) then OptionToSeq(Shot(t, es, id, unit)) else []
  }

  /** Every bullet of a volley left a tower that came off cooldown with a target. */
  lemma {:induction false} FirePassShotsHaveShooters(ts: seq<Tower>, es: seq<Enemy>, dt: real, nextId: int, unit: (real, real) -> (real, real))
    ensures forall j :: 0 <= j < |FirePass(ts, es, dt, nextId, unit).shots| ==>
              FiredBy(FirePass(ts, es, dt, nextId, unit).shots[j], ts, es, dt)
    decreases |ts|
  {
    if |ts| > 0 {
      var t := ts[0];
      var shot := FirstShot(t, es, dt, nextId, unit);
      var rest := FirePass(ts[1..], es, dt, nextId + |shot|, unit);
      FirePassShotsHaveShooters(ts[1..], es, dt, nextId + |shot|, unit);
      var r := FirePass(ts, es, dt, nextId, unit);
      assert r.shots == shot + rest.shots;
      forall j | 0 <= j < |r.shots| ensures FiredBy(r.shots[j], ts, es, dt) {
        if j < |shot| {
          assert FiredFrom(r.shots[j], ts[0], es, dt);
        } else {
          assert r.shots[j] == rest.shots[j - |shot|];
          assert FiredBy(rest.shots[j - |shot|], ts[1..], es, dt);
          var i :| 0 <= i < |ts[1..]| && FiredFrom(r.shots[j], ts[1..][i], es, dt);
          assert ts[1..][i] == ts[i + 1];
        }
      }
    }
  }

  /** updateTowerFire: with no enemies nothing happens, cooldowns included; otherwise
      every tower counts down and each tower that comes off cooldown with a target
      in range adds one bullet. */
  function UpdateTowerFire(s: State, dt: real, unit: (real, real) -> (real, real)): (r: State)
    ensures |s.enemies| == 0 ==> r == s
    ensures |s.enemies| > 0 ==>
              var v := FirePass(s.towers, s.enemies, dt, s.nextBulletId, unit);
              r == s.(towers := v.towers, bullets := s.bullets + v.shots,
                      nextBulletId := s.nextBulletId + |v.shots|)
    ensures |r.towers| == |s.towers| && r.enemies == s.enemies && r.gold == s.gold
    ensures |s.enemies| > 0 && (forall i :: 0 <= i < |s.towers| ==> s.towers[i].fireEvery > 0.0) ==>
              forall i :: 0 <= i < |r.towers| ==> r.towers[i].cd > 0.0
  {
    if |s.enemies| == 0 then s
    else
      var v := FirePass(s.towers, s.enemies, dt, s.nextBulletId, unit);
      s.(towers := v.towers, bullets := s.bullets + v.shots, nextBulletId := s.nextBulletId + |v.shots|)
  }

  /** Firing keeps every registry invariant: towers only change cooldowns, and new
      bullets take fresh ids above every existing one. */
  lemma UpdateTowerFirePreservesValid(s: State, dt: real, unit: (real, real) -> (real, real))
    requires Valid(s)
    ensures Valid(UpdateTowerFire(s, dt, unit))
  {
    if |s.enemies| > 0 {
      var r := UpdateTowerFire(s, dt, unit);
      var v := FirePass(s.towers, s.enemies, dt, s.nextBulletId, unit);
      forall i, j | 0 <= i < j < |r.towers|
        ensures TowerIdsDiffer(r.towers[i], r.towers[j]) && TowerPointsDiffer(r.towers[i], r.towers[j])
      {
        assert TowerIdsDiffer(s.towers[i], s.towers[j]) && TowerPointsDiffer(s.towers[i], s.towers[j]);
      }
      assert forall i :: 0 <= i < |r.towers| ==> StatsValid(s.towers[i]) && r.towers[i].id == s.towers[i].id;
      var bs := r.bullets;
      assert bs == s.bullets + v.shots;
      FirePassShotsHaveShooters(s.towers, s.enemies, dt, s.nextBulletId, unit);
      forall j | 0 <= j < |v.shots| ensures v.shots[j].dmg >= 1 {
        assert FiredBy(v.shots[j], s.towers, s.enemies, dt);
        var i :| 0 <= i < |s.towers| && FiredFrom(v.shots[j], s.towers[i], s.enemies, dt);
        assert StatsValid(s.towers[i]);
      }
      forall i, j | 0 <= i < j < |bs| ensures BulletIdsDiffer(bs[i], bs[j]) {
        if j < |s.bullets| {
          assert BulletIdsDiffer(s.bullets[i], s.bullets[j]);
        }
      }
    }
  }

  /** A bullet after one frame of flight: the old position becomes the previous one. */
  function Moved(b: Bullet, dt: real): (r: Bullet)
    ensures r.id == b.id && r.dmg == b.dmg && r.range == b.range && r.speed == b.speed
    ensures r.px == b.x && r.py == b.y
    ensures r.traveled - b.traveled == b.speed as real * dt
  {
    var step := b.speed as real * dt;
    b.(px := b.x, py := b.y, x := b.x + b.dx * step, y := b.y + b.dy * step, traveled := b.traveled + step)
  }

  function MoveAll(bs: seq<Bullet>, dt: real): (r: seq<Bullet>)
    ensures |r| == |bs|
    ensures forall i :: 0 <= i < |bs| ==> r[i] == Moved(bs[i], dt)
  {
    seq(|bs|, i requires 0 <= i < |bs| => Moved(bs[i], dt))
  }

  /** Moving keeps every bullet in its place with its id, damage, speed and range,
      and records where it came from. */
  lemma MoveAllKeepsIdentity(bs: seq<Bullet>, dt: real)
    ensures forall i :: 0 <= i < |bs| ==>
              && MoveAll(bs, dt)[i].id == bs[i].id && MoveAll(bs, dt)[i].dmg == bs[i].dmg
              && MoveAll(bs, dt)[i].speed == bs[i].speed && MoveAll(bs, dt)[i].range == bs[i].range
              && MoveAll(bs, dt)[i].px == bs[i].x && MoveAll(bs, dt)[i].py == bs[i].y
  {
  }

  /** `b.traveled >= b.range`; with the range property absent the comparison is
      with undefined and is false. */
  predicate Expired(b: Bullet)
  {
    b.range.Some? && b.traveled >= b.range.value
  }

  /** The segment the bullet swept this frame meets the enemy's circle. */
  predicate HitsEnemy(b: Bullet, e: Enemy)
  {
    SegmentHitsCircle(b.px, b.py, b.x, b.y, e.x, e.y, ENEMY_RADIUS as real)
  }

  predicate LiveTarget(b: Bullet, dead: set<int>, e: Enemy)
  {
    e.id !in dead && HitsEnemy(b, e)
  }

  /** The first enemy, not yet killed this frame, that the bullet's path crosses. */
  function FirstLiveHit(b: Bullet, es: seq<Enemy>, dead: set<int>): (r: Option<nat>)
    ensures r.None? <==> forall j :: 0 <= j < |es| ==> !LiveTarget(b, dead, es[j])
    ensures r.Some? ==> r.value < |es| && LiveTarget(b, dead, es[r.value])
    ensures r.Some? ==> forall j :: 0 <= j < r.value ==> !LiveTarget(b, dead, es[j])
  {
    FindFirst(es, (e: Enemy) => LiveTarget(b, dead, e))
  }

  /** What the bullet loop of updateBullets carries from one bullet to the next. */
  datatype Pass = Pass(enemies: seq<Enemy>, deadEnemies: set<int>, deadBullets: set<int>, gold: int)

  /** One iteration of the bullet loop, on a bullet that has already moved: an
      expired bullet dies; otherwise the first live enemy on its path loses the
      bullet's damage, the bullet dies, and an enemy brought to zero or below dies
      and pays the kill reward. */
  function BulletStep(b: Bullet, p: Pass, reward: int): (r: Pass)
    ensures |r.enemies| == |p.enemies|
    ensures p.deadEnemies <= r.deadEnemies && p.deadBullets <= r.deadBullets
    ensures r.deadBullets <= p.deadBullets + {b.id}
  {
    if Expired(b) then p.(deadBullets := p.deadBullets + {b.id})
    else match FirstLiveHit(b, p.enemies, p.deadEnemies)
      case None => p
      case Some(k) => ApplyHit(p, k, b, reward)
  }

  /** What one bullet does to the loop's state: a bullet still alive dies exactly
      when it is expired or its path crosses a live enemy, and the only enemy it
      can change is the first live one on its path. */
  lemma BulletStepSpec(b: Bullet, p: Pass, reward: int)
    requires b.id !in p.deadBullets
    ensures b.id in BulletStep(b, p, reward).deadBullets
        <==> Expired(b) || FirstLiveHit(b, p.enemies, p.deadEnemies).Some?
    ensures forall j :: 0 <= j < |p.enemies| && BulletStep(b, p, reward).enemies[j] != p.enemies[j] ==>
              !Expired(b) && FirstLiveHit(b, p.enemies, p.deadEnemies) == Some(j)
  {
  }

  /** Bullet b strikes enemy k: the enemy loses the bullet's damage, the bullet dies,
      and the enemy dies and pays the reward if that takes it to zero or below. */
  function ApplyHit(p: Pass, k: nat, b: Bullet, reward: int): (r: Pass)
    requires k < |p.enemies|
    ensures |r.enemies| == |p.enemies|
    ensures p.deadEnemies <= r.deadEnemies && r.deadBullets == p.deadBullets + {b.id}
  {
    var e := p.enemies[k].(hp := p.enemies[k].hp - b.dmg);
    var es := p.enemies[k := e];
    if e.hp <= 0 then Pass(es, p.deadEnemies + {e.id}, p.deadBullets + {b.id}, p.gold + reward)
    else Pass(es, p.deadEnemies, p.deadBullets + {b.id}, p.gold)
  }

  /** The bullet loop over the (moved) bullets, in order. */
  function BulletPass(bs: seq<Bullet>, p: Pass, reward: int): (r: Pass)
    ensures |r.enemies| == |p.enemies|
    ensures p.deadEnemies <= r.deadEnemies && p.deadBullets <= r.deadBullets
    decreases |bs|
  {
    if |bs| == 0 then p else BulletPass(bs[1..], BulletStep(bs[0], p, reward), reward)
  }

  /** What the bullet loop keeps true, relative to the enemies `es0` it started from
      and the gold `gold0` it started with: enemies keep identity and position and
      only lose hit points; an enemy is dead exactly when it was hit and is at or
      below zero; and each death has paid the reward once. */
  ghost predicate PassInvariant(es0: seq<Enemy>, gold0: int, reward: int, p: Pass)
  {
    && |p.enemies| == |es0|
    && (forall j :: 0 <= j < |es0| ==> p.enemies[j] == es0[j].(hp := p.enemies[j].hp) && p.enemies[j].hp <= es0[j].hp)
    && (forall j :: 0 <= j < |es0| ==>
          (p.enemies[j].id in p.deadEnemies <==> p.enemies[j].hp < es0[j].hp && p.enemies[j].hp <= 0))
    && p.deadEnemies <= Keys(es0, EnemyId)
    && p.gold == gold0 + reward * |p.deadEnemies|
    && (reward >= 0 ==> p.gold >= gold0)
  }

  lemma BulletStepInvariant(es0: seq<Enemy>, gold0: int, reward: int, b: Bullet, p: Pass)
    requires Pairwise(es0, EnemyIdsDiffer) && b.dmg >= 1
    requires PassInvariant(es0, gold0, reward, p)
    ensures PassInvariant(es0, gold0, reward, BulletStep(b, p, reward))
  {
    if !Expired(b) {
      match FirstLiveHit(b, p.enemies, p.deadEnemies)
      case None =>
      case Some(k) => ApplyHitInvariant(es0, gold0, reward, b, p, k);
    }
  }

  lemma ApplyHitInvariant(es0: seq<Enemy>, gold0: int, reward: int, b: Bullet, p: Pass, k: nat)
    requires Pairwise(es0, EnemyIdsDiffer) && b.dmg >= 1
    requires PassInvariant(es0, gold0, reward, p)
    requires k < |p.enemies| && p.enemies[k].id !in p.deadEnemies
    ensures PassInvariant(es0, gold0, reward, ApplyHit(p, k, b, reward))
  {
    var e := p.enemies[k].(hp := p.enemies[k].hp - b.dmg);
    var r := ApplyHit(p, k, b, reward);
    assert r.enemies == p.enemies[k := e];
    assert e.id == es0[k].id;
    assert forall j :: 0 <= j < |es0| ==> r.enemies[j] == es0[j].(hp := r.enemies[j].hp) && r.enemies[j].hp <= es0[j].hp by {
      forall j | 0 <= j < |es0|
        ensures r.enemies[j] == es0[j].(hp := r.enemies[j].hp) && r.enemies[j].hp <= es0[j].hp
      {
        if j != k {
          assert r.enemies[j] == p.enemies[j];
        }
      }
    }
    assert forall j :: 0 <= j < |es0| ==>
             (r.enemies[j].id in r.deadEnemies <==> r.enemies[j].hp < es0[j].hp && r.enemies[j].hp <= 0) by {
      forall j | 0 <= j < |es0|
        ensures r.enemies[j].id in r.deadEnemies <==> r.enemies[j].hp < es0[j].hp && r.enemies[j].hp <= 0
      {
        if j != k {
          assert r.enemies[j] == p.enemies[j];
          assert p.enemies[j].id == es0[j].id;
          assert r.enemies[j].id != e.id;
        }
      }
    }
    assert r.deadEnemies <= Keys(es0, EnemyId) by {
      assert e.id in Keys(es0, EnemyId);
    }
    assert r.gold == gold0 + reward * |r.deadEnemies| && (reward >= 0 ==> r.gold >= gold0) by {
      if e.hp <= 0 {
        assert |p.deadEnemies + {e.id}| == |p.deadEnemies| + 1;
        assert reward * (|p.deadEnemies| + 1) == reward * |p.deadEnemies| + reward;
      }
    }
  }

  lemma {:induction false} BulletPassInvariant(es0: seq<Enemy>, gold0: int, reward: int, bs: seq<Bullet>, p: Pass)
    requires Pairwise(es0, EnemyIdsDiffer)
    requires forall i :: 0 <= i < |bs| ==> bs[i].dmg >= 1
    requires PassInvariant(es0, gold0, reward, p)
    ensures PassInvariant(es0, gold0, reward, BulletPass(bs, p, reward))
    decreases |bs|
  {
    if |bs| > 0 {
      BulletStepInvariant(es0, gold0, reward, bs[0], p);
      assert forall i :: 0 <= i < |bs[1..]| ==> bs[1..][i] == bs[i + 1];
      BulletPassInvariant(es0, gold0, reward, bs[1..], BulletStep(bs[0], p, reward));
    }
  }

  /** Running the loop over a prefix and then over the rest is running it over the
      whole sequence. */
  lemma {:induction false} BulletPassSplit(bs: seq<Bullet>, p: Pass, reward: int, k: nat)
    requires k <= |bs|
    ensures BulletPass(bs, p, reward) == BulletPass(bs[k..], BulletPass(bs[..k], p, reward), reward)
    decreases k
  {
    if k == 0 {
      assert bs[..0] == [] && bs[0..] == bs;
    } else {
      var q := BulletStep(bs[0], p, reward);
      BulletPassSplit(bs[1..], q, reward, k - 1);
      assert bs[1..][k - 1..] == bs[k..];
      assert bs[..k][0] == bs[0] && bs[..k][1..] == bs[1..][..k - 1];
    }
  }

  /** The loop over the first i + 1 bullets is the loop over the first i followed by
      one step on bullet i. */
  lemma BulletPassSnoc(bs: seq<Bullet>, p: Pass, reward: int, i: nat)
    requires i < |bs|
    ensures BulletPass(bs[..i + 1], p, reward) == BulletStep(bs[i], BulletPass(bs[..i], p, reward), reward)
  {
    var pre := bs[..i + 1];
    BulletPassSplit(pre, p, reward, i);
    assert pre[..i] == bs[..i] && pre[i..] == [bs[i]];
    assert [bs[i]][1..] == [];
  }

  /** Every bullet the loop kills was one of the bullets it went through. */
  lemma {:induction false} BulletPassKillsOnlyItsBullets(bs: seq<Bullet>, p: Pass, reward: int)
    ensures BulletPass(bs, p, reward).deadBullets <= p.deadBullets + set i | 0 <= i < |bs| :: bs[i].id
    decreases |bs|
  {
    if |bs| > 0 {
      var q := BulletStep(bs[0], p, reward);
      BulletPassKillsOnlyItsBullets(bs[1..], q, reward);
      assert forall i :: 0 <= i < |bs[1..]| ==> bs[1..][i] == bs[i + 1];
    }
  }

  /** With unique bullet ids, the loop removes bullet i exactly when, at its turn,
      it is expired or its path crosses an enemy still alive. */
  lemma BulletPassRemovesHitBullets(bs: seq<Bullet>, p: Pass, reward: int, i: nat)
    requires Pairwise(bs, BulletIdsDiffer)
    requires i < |bs| && bs[i].id !in p.deadBullets
    ensures bs[i].id in BulletPass(bs, p, reward).deadBullets
        <==> Expired(bs[i]) || FirstLiveHit(bs[i], BulletPass(bs[..i], p, reward).enemies,
                                            BulletPass(bs[..i], p, reward).deadEnemies).Some?
  {
    var before := BulletPass(bs[..i], p, reward);
    var after := BulletPass(bs[..i + 1], p, reward);
    BulletPassKillsOnlyItsBullets(bs[..i], p, reward);
    assert bs[i].id !in before.deadBullets by {
      forall j | 0 <= j < |bs[..i]| ensures bs[..i][j].id != bs[i].id {
        assert BulletIdsDiffer(bs[j], bs[i]);
      }
    }
    BulletPassSnoc(bs, p, reward, i);
    BulletStepSpec(bs[i], before, reward);
    BulletPassSplit(bs, p, reward, i + 1);
    var rest := bs[i + 1..];
    BulletPassKillsOnlyItsBullets(rest, after, reward);
    assert bs[i].id !in set j | 0 <= j < |rest| :: rest[j].id by {
      forall j | 0 <= j < |rest| ensures rest[j].id != bs[i].id {
        assert BulletIdsDiffer(bs[i], bs[i + 1 + j]);
      }
    }
  }

  /** The reward killRewardGold pays for each kill during this frame's bullet loop. */
  function FrameReward(s: State): (r: int)
    ensures s.wave >= 0 ==> r >= s.wave
  {
    KillReward(s.wave, |s.towers|)
  }

  /** The bullet loop of updateBullets on the state's moved bullets. */
  function BulletOutcome(s: State, dt: real): Pass
  {
    BulletPass(MoveAll(s.bullets, dt), Pass(s.enemies, {}, {}, s.gold), FrameReward(s))
  }


  /** updateBullets: every bullet moves, the loop runs, and dead bullets and dead
      enemies are filtered out. */
  function UpdateBullets(s: State, dt: real): (r: State)
    ensures |s.bullets| == 0 ==> r == s
    ensures |s.bullets| > 0 ==>
              r == s.(gold := BulletOutcome(s, dt).gold,
                      bullets := RemoveKeys(MoveAll(s.bullets, dt), BulletId, BulletOutcome(s, dt).deadBullets),
                      enemies := RemoveKeys(BulletOutcome(s, dt).enemies, EnemyId, BulletOutcome(s, dt).deadEnemies))
    ensures r.towers == s.towers && r.wave == s.wave && r.selected == s.selected
    ensures |r.bullets| <= |s.bullets| && |r.enemies| <= |s.enemies|
  {
    if |s.bullets| == 0 then s
    else
      var p := BulletOutcome(s, dt);
      s.(gold := p.gold,
         bullets := RemoveKeys(MoveAll(s.bullets, dt), BulletId, p.deadBullets),
         enemies := RemoveKeys(p.enemies, EnemyId, p.deadEnemies))
  }

  /** In a valid state the bullet loop keeps its invariant from the frame's start. */
  lemma BulletOutcomeInvariant(s: State, dt: real)
    requires Valid(s)
    ensures PassInvariant(s.enemies, s.gold, FrameReward(s), BulletOutcome(s, dt))
  {
    var moved := MoveAll(s.bullets, dt);
    forall i | 0 <= i < |moved| ensures moved[i].dmg >= 1 {
      assert s.bullets[i].dmg >= 1;
    }
    BulletPassInvariant(s.enemies, s.gold, FrameReward(s), moved, Pass(s.enemies, {}, {}, s.gold));
  }

  /** An enemy is removed by a frame of bullets exactly when a bullet hit it this
      frame and its hit points ended at zero or below. */
  lemma UpdateBulletsKills(s: State, dt: real, j: int)
    requires Valid(s) && 0 <= j < |s.enemies|
    ensures s.enemies[j].id in BulletOutcome(s, dt).deadEnemies
        <==> BulletOutcome(s, dt).enemies[j].hp < s.enemies[j].hp && BulletOutcome(s, dt).enemies[j].hp <= 0
  {
    BulletOutcomeInvariant(s, dt);
  }

  /** The gold a frame of bullets earns is the kill reward times the number of
      enemies it removed. */
  lemma UpdateBulletsGold(s: State, dt: real)
    requires Valid(s)
    ensures UpdateBullets(s, dt).gold - s.gold == FrameReward(s) * (|s.enemies| - |UpdateBullets(s, dt).enemies|)
  {
    if |s.bullets| > 0 {
      BulletOutcomeInvariant(s, dt);
      var p := BulletOutcome(s, dt);
      assert forall j :: 0 <= j < |s.enemies| ==> p.enemies[j].id == s.enemies[j].id;
      assert Keys(s.enemies, EnemyId) == Keys(p.enemies, EnemyId) by {
        forall x | x in Keys(s.enemies, EnemyId) ensures x in Keys(p.enemies, EnemyId) {
          var j :| 0 <= j < |s.enemies| && EnemyId(s.enemies[j]) == x;
          assert EnemyId(p.enemies[j]) == x;
        }
        forall x | x in Keys(p.enemies, EnemyId) ensures x in Keys(s.enemies, EnemyId) {
          var j :| 0 <= j < |p.enemies| && EnemyId(p.enemies[j]) == x;
          assert EnemyId(s.enemies[j]) == x;
        }
      }
      RemoveKeysCount(p.enemies, EnemyId, p.deadEnemies);
    }
  }

  /** In a valid state a frame removes a bullet exactly when its path crossed an
      enemy still alive when the loop reached it. */
  lemma UpdateBulletsRemovesHitBullets(s: State, dt: real, i: nat)
    requires Valid(s) && i < |s.bullets|
    ensures MoveAll(s.bullets, dt)[i] !in UpdateBullets(s, dt).bullets
        <==> FirstLiveHit(MoveAll(s.bullets, dt)[i],
                          BulletPass(MoveAll(s.bullets, dt)[..i], Pass(s.enemies, {}, {}, s.gold), FrameReward(s)).enemies,
                          BulletPass(MoveAll(s.bullets, dt)[..i], Pass(s.enemies, {}, {}, s.gold), FrameReward(s)).deadEnemies).Some?
  {
    var moved := MoveAll(s.bullets, dt);
    assert Pairwise(moved, BulletIdsDiffer) by {
      forall a, c | 0 <= a < c < |moved| ensures BulletIdsDiffer(moved[a], moved[c]) {
        assert BulletIdsDiffer(s.bullets[a], s.bullets[c]);
      }
    }
    BulletPassRemovesHitBullets(moved, Pass(s.enemies, {}, {}, s.gold), FrameReward(s), i);
  }

  /** Enemies that survive a frame of bullets keep their id and position and never
      gain hit points. */
  lemma UpdateBulletsSurvivors(s: State, dt: real, e: Enemy)
    requires Valid(s) && e in UpdateBullets(s, dt).enemies
    ensures exists j :: 0 <= j < |s.enemies| && e == s.enemies[j].(hp := e.hp) && e.hp <= s.enemies[j].hp
  {
    if |s.bullets| > 0 {
      BulletOutcomeInvariant(s, dt);
      var p := BulletOutcome(s, dt);
      var j :| 0 <= j < |p.enemies| && p.enemies[j] == e;
      assert e == s.enemies[j].(hp := e.hp) && e.hp <= s.enemies[j].hp;
    }
  }

  /** Bullets are created without a range, so in a valid state none ever expires. */
  lemma BulletsNeverExpire(s: State, dt: real, i: int)
    requires Valid(s) && 0 <= i < |s.bullets|
    ensures !Expired(MoveAll(s.bullets, dt)[i])
  {
  }

  /** Moving bullets and removing the dead keeps every registry invariant. */
  lemma UpdateBulletsPreservesValid(s: State, dt: real)
    requires Valid(s)
    ensures Valid(UpdateBullets(s, dt))
  {
    if |s.bullets| > 0 {
      BulletOutcomeInvariant(s, dt);
      var moved := MoveAll(s.bullets, dt);
      var p := BulletOutcome(s, dt);
      var r := UpdateBullets(s, dt);
      assert Pairwise(moved, BulletIdsDiffer) by {
        forall i, j | 0 <= i < j < |moved| ensures BulletIdsDiffer(moved[i], moved[j]) {
          assert BulletIdsDiffer(s.bullets[i], s.bullets[j]);
        }
      }
      assert Pairwise(p.enemies, EnemyIdsDiffer) by {
        forall i, j | 0 <= i < j < |p.enemies| ensures EnemyIdsDiffer(p.enemies[i], p.enemies[j]) {
          assert EnemyIdsDiffer(s.enemies[i], s.enemies[j]);
        }
      }
      RemoveKeysPairwise(moved, BulletId, p.deadBullets, BulletIdsDiffer);
      RemoveKeysPairwise(p.enemies, EnemyId, p.deadEnemies, EnemyIdsDiffer);
      forall b | b in r.bullets ensures b.id < r.nextBulletId && b.range.None? && b.dmg >= 1 {
        var i :| 0 <= i < |moved| && moved[i] == b;
      }
      forall e | e in r.enemies ensures e.id < r.nextEnemyId {
        var j :| 0 <= j < |p.enemies| && p.enemies[j] == e;
      }
      assert BulletsValid(r.bullets, r.nextBulletId);
      assert EnemiesValid(r.enemies, r.nextEnemyId);
      assert TowersValid(r.towers, r.nextTowerId) by {
        assert r.towers == s.towers && r.nextTowerId == s.nextTowerId;
      }
      assert r.gold == p.gold >= s.gold;
    }
  }

  /** A single bullet whose path crosses a single enemy with no more hit points than
      the bullet's damage kills it: the enemy and the bullet are gone and the gold
      grows by exactly one kill reward. */
  lemma OneShotOneKill(s: State, dt: real)
    requires |s.bullets| == 1 && |s.enemies| == 1
    requires s.bullets[0].range.None?
    requires HitsEnemy(Moved(s.bullets[0], dt), s.enemies[0])
    requires s.enemies[0].hp <= s.bullets[0].dmg
    ensures UpdateBullets(s, dt).enemies == []
    ensures UpdateBullets(s, dt).bullets == []
    ensures UpdateBullets(s, dt).gold == s.gold + KillReward(s.wave, |s.towers|)
  {
    var b := Moved(s.bullets[0], dt);
    var moved := MoveAll(s.bullets, dt);
    var reward := FrameReward(s);
    var p0 := Pass(s.enemies, {}, {}, s.gold);
    var p := BulletOutcome(s, dt);
    assert p == ApplyHit(p0, 0, b, reward) by {
      assert moved == [b] && moved[1..] == [];
      assert !Expired(b);
      assert FirstLiveHit(b, s.enemies, {}) == Some(0);
      assert p == BulletPass([], BulletStep(b, p0, reward), reward);
    }
    assert p.deadEnemies == {s.enemies[0].id} && p.deadBullets == {b.id} && p.gold == s.gold + reward;
    assert UpdateBullets(s, dt).enemies == [] by {
      assert |p.enemies| == 1 && p.enemies[0].id == s.enemies[0].id;
      assert RemoveKeys(p.enemies, EnemyId, p.deadEnemies) == RemoveKeys(p.enemies[1..], EnemyId, p.deadEnemies);
    }
    assert UpdateBullets(s, dt).bullets == [] by {
      assert RemoveKeys(moved, BulletId, p.deadBullets) == RemoveKeys(moved[1..], BulletId, p.deadBullets);
    }
  }
}
