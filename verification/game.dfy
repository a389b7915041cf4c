/** The frame driver (main.js:320-333, 343-366, 917-937): the start button, the
    per-frame update and the animation loop that advances the play clock. */
module Game {
  import opened Wrappers
  import opened Geometry
  import opened Entities
  import opened Placement
  import opened Enemies
  import opened Combat
  import opened Waves

  /** How many whole spawn intervals fit into the accumulator: the loop's
      remaining iterations, zero once the accumulator is below one interval. */
  function Ticks(acc: real, every: real): (n: nat)
    requires every > 0.0
    ensures acc < every ==> n == 0
  {
    if acc < every then 0 else (acc / every).Floor
  }

  /** On a non-negative accumulator the tick count is the number of whole
      intervals in it: n intervals fit, n + 1 do not. */
  lemma TicksIsFloor(acc: real, every: real)
    requires every > 0.0 && acc >= 0.0
    ensures Ticks(acc, every) as real * every <= acc < (Ticks(acc, every) + 1) as real * every
  {
    if acc >= every {
      var q := acc / every;
      assert Ticks(acc, every) == q.Floor;
      assert q * every == acc;
      MulMonotone(q.Floor as real, q, every);
      assert q < (q.Floor + 1) as real;
      MulStrictMonotone(q, (q.Floor + 1) as real, every);
      assert acc < (q.Floor + 1) as real * every;
    }
  }

  lemma MulMonotone(a: real, b: real, e: real)
    requires a <= b && e > 0.0
    ensures a * e <= b * e
  {
  }

  lemma MulStrictMonotone(a: real, b: real, e: real)
    requires a < b && e > 0.0
    ensures a * e < b * e
  {
  }

  /** A quotient by a positive number is below one exactly when the dividend is
      below the divisor. */
  lemma DivBelowOne(x: real, e: real)
    requires e > 0.0 && x < e
    ensures x / e < 1.0
  {
    assert x / e < e / e;
  }

  lemma DivAtLeastOne(x: real, e: real)
    requires e > 0.0 && x >= e
    ensures x / e >= 1.0
  {
    assert x / e >= e / e;
  }

  lemma DivShift(a: real, e: real)
    requires e > 0.0
    ensures (a - e) / e == a / e - 1.0
  {
    assert (a - e) / e == a / e - e / e;
  }

  /** Taking one interval off the accumulator takes one tick off. */
  lemma TicksStep(acc: real, every: real)
    requires every > 0.0 && acc >= every
    ensures Ticks(acc - every, every) == Ticks(acc, every) - 1
  {
    var q, p := acc / every, (acc - every) / every;
    DivShift(acc, every);
    assert p.Floor == q.Floor - 1;
    if acc - every < every {
      DivBelowOne(acc - every, every);
      DivAtLeastOne(acc, every);
    } else {
      DivAtLeastOne(acc - every, every);
    }
  }

  /** The number of iterations of the spawn loop: one per interval taken off the
      accumulator until less than an interval is left. */
  function SpawnCount(acc: real, every: real): (n: nat)
    requires every > 0.0
    decreases Ticks(acc, every)
  {
    if acc >= every then
      TicksStep(acc, every);
      1 + SpawnCount(acc - every, every)
    else 0
  }

  /** The loop runs floor(acc / every) times on a non-negative accumulator: as
      many times as whole intervals fit. */
  lemma {:induction false} SpawnCountIsTicks(acc: real, every: real)
    requires every > 0.0
    ensures SpawnCount(acc, every) == Ticks(acc, every)
    ensures acc >= 0.0 ==> SpawnCount(acc, every) == (acc / every).Floor
    decreases Ticks(acc, every)
  {
    if acc >= every {
      TicksStep(acc, every);
      SpawnCountIsTicks(acc - every, every);
    } else if acc >= 0.0 {
      DivBelowOne(acc, every);
      assert 0.0 <= acc / every;
    }
  }

  /** One iteration of the spawn loop: take an interval off the accumulator and
      spawn an enemy from the draw d. */
  function SpawnStep(s: State, d: SpawnDraw): (r: State)
    requires s.spawnEvery > 0.0
    ensures r.spawnAcc == s.spawnAcc - s.spawnEvery && r.spawnEvery == s.spawnEvery
  {
    SpawnEnemy(s.(spawnAcc := s.spawnAcc - s.spawnEvery), d)
  }

  /** The spawn loop of update: while a whole interval has accumulated, take it
      off and spawn one enemy, the n-th draw of the random source feeding the
      n-th spawn. `draws` stands for Math.random. */
  function SpawnLoop(s: State, draws: nat -> SpawnDraw, n: nat): State
    requires s.spawnEvery > 0.0
    decreases SpawnCount(s.spawnAcc, s.spawnEvery)
  {
    if s.spawnAcc >= s.spawnEvery then SpawnLoop(SpawnStep(s, draws(n)), draws, n + 1) else s
  }

  /** `r` extends the enemies of `s` with enemies numbered on from the id
      counter, which moves past them. */
  ghost predicate AppendsFresh(s: State, r: State)
  {
    && |r.enemies| >= |s.enemies| && r.enemies[..|s.enemies|] == s.enemies
    && r.nextEnemyId == s.nextEnemyId + (|r.enemies| - |s.enemies|)
    && forall i :: |s.enemies| <= i < |r.enemies| ==> r.enemies[i].id == s.nextEnemyId + (i - |s.enemies|)
  }

  lemma AppendsFreshTransitive(a: State, b: State, c: State)
    requires AppendsFresh(a, b) && AppendsFresh(b, c)
    ensures AppendsFresh(a, c)
  {
    assert c.enemies[..|a.enemies|] == c.enemies[..|b.enemies|][..|a.enemies|];
    forall i | |a.enemies| <= i < |c.enemies|
      ensures c.enemies[i].id == a.nextEnemyId + (i - |a.enemies|)
    {
      if i < |b.enemies| {
        assert c.enemies[i] == c.enemies[..|b.enemies|][i];
      }
    }
  }

  /** Appending freshly numbered enemies keeps every invariant of the state. */
  lemma AppendsFreshPreservesValid(s: State, r: State)
    requires Valid(s) && AppendsFresh(s, r)
    requires r == s.(enemies := r.enemies, nextEnemyId := r.nextEnemyId, spawnAcc := r.spawnAcc)
    ensures Valid(r)
  {
    var k := |s.enemies|;
    forall i, j | 0 <= i < j < |r.enemies| ensures EnemyIdsDiffer(r.enemies[i], r.enemies[j]) {
      if j < k {
        assert r.enemies[i] == s.enemies[i] && r.enemies[j] == s.enemies[j];
      } else if i < k {
        assert r.enemies[i] == s.enemies[i];
      }
    }
    forall i | 0 <= i < |r.enemies| ensures r.enemies[i].id < r.nextEnemyId {
      if i < k {
        assert r.enemies[i] == s.enemies[i];
      }
    }
  }

  /** One iteration changes only the enemies, their id counter and the
      accumulator; it appends one enemy when a tower stands and none otherwise. */
  lemma SpawnStepEnemies(s: State, d: SpawnDraw)
    requires s.spawnEvery > 0.0
    ensures SpawnStep(s, d) == s.(enemies := SpawnStep(s, d).enemies, nextEnemyId := SpawnStep(s, d).nextEnemyId,
                                  spawnAcc := s.spawnAcc - s.spawnEvery)
    ensures AppendsFresh(s, SpawnStep(s, d))
    ensures |s.towers| > 0 ==> |SpawnStep(s, d).enemies| == |s.enemies| + 1
    ensures |s.towers| == 0 ==> SpawnStep(s, d).enemies == s.enemies
  {
  }

  /** Only the enemies, their id counter and the accumulator change, and the
      accumulator ends below one interval, never negative when it started so. */
  lemma {:induction false} SpawnLoopFrame(s: State, draws: nat -> SpawnDraw, n: nat)
    requires s.spawnEvery > 0.0
    ensures SpawnLoop(s, draws, n) == s.(enemies := SpawnLoop(s, draws, n).enemies,
                                         nextEnemyId := SpawnLoop(s, draws, n).nextEnemyId,
                                         spawnAcc := SpawnLoop(s, draws, n).spawnAcc)
    ensures SpawnLoop(s, draws, n).spawnAcc < s.spawnEvery
    ensures s.spawnAcc >= 0.0 ==> SpawnLoop(s, draws, n).spawnAcc >= 0.0
    decreases SpawnCount(s.spawnAcc, s.spawnEvery)
  {
    if s.spawnAcc >= s.spawnEvery {
      var s1 := SpawnStep(s, draws(n));
      SpawnStepEnemies(s, draws(n));
      SpawnLoopFrame(s1, draws, n + 1);
      assert SpawnLoop(s, draws, n) == SpawnLoop(s1, draws, n + 1);
    }
  }

  /** The loop spawns one enemy per iteration, freshly numbered and appended
      after the enemies already there; without a tower nobody spawns. */
  lemma {:induction false} SpawnLoopCount(s: State, draws: nat -> SpawnDraw, n: nat)
    requires s.spawnEvery > 0.0
    ensures AppendsFresh(s, SpawnLoop(s, draws, n))
    ensures |s.towers| == 0 ==> SpawnLoop(s, draws, n).enemies == s.enemies
    ensures |s.towers| > 0 ==> |SpawnLoop(s, draws, n).enemies| == |s.enemies| + SpawnCount(s.spawnAcc, s.spawnEvery)
    decreases SpawnCount(s.spawnAcc, s.spawnEvery)
  {
    if s.spawnAcc >= s.spawnEvery {
      var s1 := SpawnStep(s, draws(n));
      SpawnStepEnemies(s, draws(n));
      SpawnLoopCount(s1, draws, n + 1);
      AppendsFreshTransitive(s, s1, SpawnLoop(s1, draws, n + 1));
    }
  }

  /** The spawn stage of a frame: the frame time joins the accumulator, then the
      spawn loop runs. */
  function Spawned(s: State, dt: real, draws: nat -> SpawnDraw): State
    requires s.spawnEvery > 0.0
  {
    SpawnLoop(s.(spawnAcc := s.spawnAcc + dt), draws, 0)
  }

  /** The spawn stage leaves towers, gold, waves and the game-over flag alone,
      and appends freshly numbered enemies. */
  lemma SpawnedFrame(s: State, dt: real, draws: nat -> SpawnDraw)
    requires s.spawnEvery > 0.0
    ensures Spawned(s, dt, draws) == s.(enemies := Spawned(s, dt, draws).enemies,
                                        nextEnemyId := Spawned(s, dt, draws).nextEnemyId,
                                        spawnAcc := Spawned(s, dt, draws).spawnAcc)
    ensures AppendsFresh(s, Spawned(s, dt, draws))
  {
    var s0 := s.(spawnAcc := s.spawnAcc + dt);
    SpawnLoopFrame(s0, draws, 0);
    SpawnLoopCount(s0, draws, 0);
  }

  /** update(dt): nothing once the game is over; otherwise accumulate the frame
      time and spawn, move enemies and resolve contacts, let towers fire, move
      bullets and resolve hits, then move to the wave the play time is in. */
  function Update(s: State, dt: real, playTime: real, draws: nat -> SpawnDraw,
                  unit: (real, real) -> (real, real)): (r: State)
    requires s.spawnEvery > 0.0
    ensures s.gameOver ==> r == s
    ensures !s.gameOver ==> r.lastWaveIndex == WaveIndex(playTime)
  {
    if s.gameOver then s
    else
      WaveCheck(UpdateBullets(UpdateTowerFire(UpdateEnemies(Spawned(s, dt, draws), dt, unit), dt, unit), dt), playTime)
  }

  /** The spawn stage keeps every invariant of the state. */
  lemma SpawnedPreservesValid(s: State, dt: real, draws: nat -> SpawnDraw)
    requires Valid(s)
    ensures Valid(Spawned(s, dt, draws))
  {
    SpawnedFrame(s, dt, draws);
    AppendsFreshPreservesValid(s, Spawned(s, dt, draws));
  }

  /** Movement, contact, firing and hits together keep every invariant. */
  lemma CombatStagesPreserveValid(s: State, dt: real, unit: (real, real) -> (real, real))
    requires Valid(s)
    ensures Valid(UpdateBullets(UpdateTowerFire(UpdateEnemies(s, dt, unit), dt, unit), dt))
  {
    var s2 := UpdateEnemies(s, dt, unit);
    var s3 := UpdateTowerFire(s2, dt, unit);
    assert Valid(s2) by { UpdateEnemiesPreservesValid(s, dt, unit); }
    assert Valid(s3) by { UpdateTowerFirePreservesValid(s2, dt, unit); }
    UpdateBulletsPreservesValid(s3, dt);
  }

  /** A frame update keeps every invariant of the state, and afterwards the wave
      number is the one the play time belongs to. */
  lemma UpdatePreservesValid(s: State, dt: real, playTime: real, draws: nat -> SpawnDraw,
                             unit: (real, real) -> (real, real))
    requires Valid(s) && playTime >= 0.0
    ensures Valid(Update(s, dt, playTime, draws, unit))
    ensures !s.gameOver ==> Update(s, dt, playTime, draws, unit).wave == 1 + WaveIndex(playTime)
  {
    if !s.gameOver {
      var s1 := Spawned(s, dt, draws);
      var s4 := UpdateBullets(UpdateTowerFire(UpdateEnemies(s1, dt, unit), dt, unit), dt);
      SpawnedPreservesValid(s, dt, draws);
      CombatStagesPreserveValid(s1, dt, unit);
      WaveCheckPreservesValid(s4, playTime);
      WaveCheckTracksPlayTime(s4, playTime);
    }
  }

  lemma UpdateStages(s: State, dt: real, playTime: real, draws: nat -> SpawnDraw,
                     unit: (real, real) -> (real, real))
    requires !s.gameOver && s.spawnEvery > 0.0
    ensures Update(s, dt, playTime, draws, unit)
            == WaveCheck(UpdateBullets(UpdateTowerFire(UpdateEnemies(Spawned(s, dt, draws), dt, unit), dt, unit), dt), playTime)
  {
  }

  /** A running update ends the game exactly when it leaves no tower standing. */
  lemma UpdateEndsGame(s: State, dt: real, playTime: real, draws: nat -> SpawnDraw,
                       unit: (real, real) -> (real, real))
    requires !s.gameOver && s.spawnEvery > 0.0 && |s.towers| > 0
    ensures Update(s, dt, playTime, draws, unit).gameOver <==> |Update(s, dt, playTime, draws, unit).towers| == 0
  {
    var s1 := Spawned(s, dt, draws);
    var s2 := UpdateEnemies(s1, dt, unit);
    var s3 := UpdateTowerFire(s2, dt, unit);
    var s4 := UpdateBullets(s3, dt);
    var r := WaveCheck(s4, playTime);
    assert Update(s, dt, playTime, draws, unit) == r by { UpdateStages(s, dt, playTime, draws, unit); }
    assert s1.towers == s.towers && !s1.gameOver by { SpawnedFrame(s, dt, draws); }
    assert s2.gameOver <==> |s2.towers| == 0;
    assert s3.gameOver == s2.gameOver && |s3.towers| == |s2.towers|;
    assert s4.gameOver == s3.gameOver && s4.towers == s3.towers;
    assert r.gameOver == s4.gameOver && r.towers == s4.towers;
  }

  /** The loop's variables: the simulation state, the play clock and whether
      the animation loop still runs. */
  datatype Session = Session(state: State, playTime: real, running: bool)

  /** The start button: reset the clock, place the first tower on the grid point
      nearest the middle of the world, select it, and apply wave 1. */
  function Start(worldW: real, worldH: real): (g: Session)
  {
    var placed := AddTowerAtGridPoint(Initial(worldW, worldH), SnapToGrid(worldW / 2.0), SnapToGrid(worldH / 2.0));
    var s1 := if placed.tower.Some? then SelectTower(placed.state, placed.tower.value.id) else placed.state;
    Session(ApplyWave(s1.(lastWaveIndex := 0), 1), 0.0, true)
  }

  /** For any world of non-negative size the first tower fits: the game starts
      with that one tower, selected, all 10 gold spent, at wave 1 whose enemies
      have 1 hit point, and with every invariant in place. */
  lemma StartFacts(worldW: real, worldH: real)
    requires worldW >= 0.0 && worldH >= 0.0
    ensures var g := Start(worldW, worldH);
            && |g.state.towers| == 1
            && g.state.towers[0].x == SnapToGrid(worldW / 2.0) && g.state.towers[0].y == SnapToGrid(worldH / 2.0)
            && g.state.selected == Some(g.state.towers[0].id)
            && g.state.gold == 0 && g.state.wave == 1 && g.state.enemyHp == 1
            && g.state.enemies == [] && g.state.bullets == []
            && g.running && !g.state.gameOver
    ensures SessionValid(Start(worldW, worldH))
  {
    var s0 := Initial(worldW, worldH);
    var cx, cy := SnapToGrid(worldW / 2.0), SnapToGrid(worldH / 2.0);
    SnapMiddleInside(worldW);
    SnapMiddleInside(worldH);
    assert InWorld(s0, cx, cy);
    InitialValid(worldW, worldH);
    AddTowerPreservesValid(s0, cx, cy);
  }

  /** What holds between frames: the state's invariants, a non-negative clock,
      the loop running exactly while the game is not over and a tower stands,
      and the recorded wave slot being the one the clock is in. */
  ghost predicate SessionValid(g: Session)
  {
    && Valid(g.state)
    && g.playTime >= 0.0
    && (g.running <==> !g.state.gameOver)
    && (g.running ==> |g.state.towers| > 0)
    && g.state.lastWaveIndex == WaveIndex(g.playTime)
  }

  /** loop(now): a stopped loop does nothing; otherwise the clock advances by the
      frame time dt (wall time scaled by the game speed) before the update, and
      the loop stops when the update ended the game. */
  function Frame(g: Session, dt: real, draws: nat -> SpawnDraw, unit: (real, real) -> (real, real)): (r: Session)
    requires g.state.spawnEvery > 0.0
    ensures !g.running ==> r == g
    ensures g.running ==> r.playTime == g.playTime + dt
  {
    if !g.running then g
    else
      var p := g.playTime + dt;
      var s := Update(g.state, dt, p, draws, unit);
      Session(s, p, !s.gameOver)
  }

  /** Frames with non-negative time keep the session invariant; in particular
      the wave number always equals 1 + floor(playTime / WAVE_DURATION). */
  lemma FramePreservesValid(g: Session, dt: real, draws: nat -> SpawnDraw, unit: (real, real) -> (real, real))
    requires SessionValid(g) && dt >= 0.0
    ensures SessionValid(Frame(g, dt, draws, unit))
    ensures Frame(g, dt, draws, unit).state.wave == 1 + WaveIndex(Frame(g, dt, draws, unit).playTime)
  {
    var r := Frame(g, dt, draws, unit);
    if g.running {
      var p := g.playTime + dt;
      var s := Update(g.state, dt, p, draws, unit);
      assert r == Session(s, p, !s.gameOver) by { FrameRunning(g, dt, draws, unit); }
      assert Valid(s) && s.wave == 1 + WaveIndex(p) by {
        UpdatePreservesValid(g.state, dt, p, draws, unit);
      }
      assert s.lastWaveIndex == WaveIndex(p);
      assert !s.gameOver ==> |s.towers| > 0 by { UpdateEndsGame(g.state, dt, p, draws, unit); }
      assert SessionValid(Session(s, p, !s.gameOver));
    } else {
      assert r == g;
    }
  }

  lemma FrameRunning(g: Session, dt: real, draws: nat -> SpawnDraw, unit: (real, real) -> (real, real))
    requires g.running && g.state.spawnEvery > 0.0
    ensures Frame(g, dt, draws, unit)
            == Session(Update(g.state, dt, g.playTime + dt, draws, unit), g.playTime + dt,
                       !Update(g.state, dt, g.playTime + dt, draws, unit).gameOver)
  {
  }

  /** Once the game is over the loop has stopped, and no later frame changes
      anything. */
  lemma GameOverIsFinal(g: Session, dt: real, draws: nat -> SpawnDraw, unit: (real, real) -> (real, real))
    requires SessionValid(g) && g.state.gameOver
    ensures Frame(g, dt, draws, unit) == g
  {
  }

  /** From a running session, a frame stops the loop exactly when it leaves no
      tower standing. */
  lemma GameEndsWithoutTowers(g: Session, dt: real, draws: nat -> SpawnDraw, unit: (real, real) -> (real, real))
    requires SessionValid(g) && g.running
    ensures !Frame(g, dt, draws, unit).running <==> |Frame(g, dt, draws, unit).state.towers| == 0
  {
    FrameRunning(g, dt, draws, unit);
    UpdateEndsGame(g.state, dt, g.playTime + dt, draws, unit);
  }
}
