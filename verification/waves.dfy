/** The wave schedule (main.js:361-365, 1098-1109): the wave number follows the
    play time, one wave per WAVE_DURATION seconds, and each new wave retunes the
    enemies and pays a 10% gold bonus. */
module Waves {
  import opened Economy
  import opened Entities

  /** applyWave(w): a bonus when the wave number rises, then the wave's enemy
      hit points, speed and spawn interval; nothing else changes. */
  function ApplyWave(s: State, w: int): (r: State)
    ensures r.wave == w && r.enemyHp == w && r.enemySpeed == 45 + 5 * w
    ensures r.spawnEvery == SpawnInterval(w) && r.spawnEvery >= MIN_SPAWN_EVERY
    ensures w > s.wave ==> 10 * r.gold <= 11 * s.gold + 5 < 10 * r.gold + 10
    ensures w <= s.wave ==> r.gold == s.gold
    ensures r.(gold := s.gold, wave := s.wave, enemyHp := s.enemyHp, enemySpeed := s.enemySpeed,
               spawnEvery := s.spawnEvery) == s
  {
    s.(gold := if w > s.wave then AddTenPercent(s.gold) else s.gold,
       wave := w,
       enemyHp := EnemyHp(w),
       enemySpeed := EnemySpeed(w),
       spawnEvery := SpawnInterval(w))
  }

  /** Applying the same wave twice pays the bonus once. */
  lemma ApplyWaveIdempotent(s: State, w: int)
    ensures ApplyWave(ApplyWave(s, w), w) == ApplyWave(s, w)
  {
  }

  /** A new wave never takes gold away, and from 5 gold on it always adds some. */
  lemma ApplyWaveBonus(s: State, w: int)
    requires w > s.wave
    ensures s.gold >= 0 ==> ApplyWave(s, w).gold >= s.gold
    ensures s.gold >= 5 ==> ApplyWave(s, w).gold > s.gold
  {
  }

  /** The source's example: 100 gold becomes 110 when a new wave starts. */
  lemma ApplyWaveExample(s: State)
    requires s.gold == 100 && s.wave == 1
    ensures ApplyWave(s, 2).gold == 110
  {
  }

  /** Math.floor(playTime / WAVE_DURATION): the index of the WAVE_DURATION-long
      slot that contains the play time. */
  function WaveIndex(playTime: real): (r: int)
    ensures WAVE_DURATION * r as real <= playTime < WAVE_DURATION * (r + 1) as real
    ensures playTime >= 0.0 ==> r >= 0
  {
    (playTime / WAVE_DURATION).Floor
  }

  /** Later play times never fall in an earlier slot. */
  lemma WaveIndexMonotone(t1: real, t2: real)
    requires t1 <= t2
    ensures WaveIndex(t1) <= WaveIndex(t2)
  {
  }

  /** The end-of-update wave check: when the play time has entered a new slot,
      record it and apply wave 1 + slot. */
  function WaveCheck(s: State, playTime: real): (r: State)
    ensures r.lastWaveIndex == WaveIndex(playTime)
    ensures WaveIndex(playTime) == s.lastWaveIndex ==> r == s
    ensures WaveIndex(playTime) != s.lastWaveIndex ==> r == ApplyWave(s.(lastWaveIndex := WaveIndex(playTime)), 1 + WaveIndex(playTime))
  {
    var idx := WaveIndex(playTime);
    if idx != s.lastWaveIndex then ApplyWave(s.(lastWaveIndex := idx), 1 + idx) else s
  }

  /** Checking twice at the same play time changes nothing the second time. */
  lemma WaveCheckIdempotent(s: State, playTime: real)
    ensures WaveCheck(WaveCheck(s, playTime), playTime) == WaveCheck(s, playTime)
  {
  }

  /** The check keeps the wave number one above the recorded slot, so the wave
      shown is always the one the play time belongs to. */
  lemma WaveCheckTracksPlayTime(s: State, playTime: real)
    requires s.wave == 1 + s.lastWaveIndex
    ensures WaveCheck(s, playTime).wave == 1 + WaveIndex(playTime)
    ensures WaveCheck(s, playTime).wave == 1 + WaveCheck(s, playTime).lastWaveIndex
  {
  }

  /** With play time moving forward the wave number never goes down, and the
      gold of a non-negative purse never shrinks. */
  lemma WaveCheckMonotone(s: State, before: real, playTime: real)
    requires s.wave == 1 + s.lastWaveIndex && s.lastWaveIndex == WaveIndex(before)
    requires before <= playTime
    ensures WaveCheck(s, playTime).wave >= s.wave
    ensures s.gold >= 0 ==> WaveCheck(s, playTime).gold >= s.gold
  {
    WaveIndexMonotone(before, playTime);
  }

  /** A frame long enough to cross several slots jumps straight to the last
      wave and pays the 10% bonus only once. */
  lemma WaveSkipPaysOnce(s: State, playTime: real)
    requires s.wave == 1 + s.lastWaveIndex
    requires WaveIndex(playTime) >= s.lastWaveIndex + 2
    ensures WaveCheck(s, playTime).wave >= s.wave + 2
    ensures WaveCheck(s, playTime).gold == AddTenPercent(s.gold)
  {
  }

  /** The check keeps the state's invariants for any non-negative play time. */
  lemma WaveCheckPreservesValid(s: State, playTime: real)
    requires Valid(s) && playTime >= 0.0
    ensures Valid(WaveCheck(s, playTime))
  {
    var r := WaveCheck(s, playTime);
    if r != s {
      assert r.spawnEvery >= MIN_SPAWN_EVERY;
      assert r.towers == s.towers && r.enemies == s.enemies && r.bullets == s.bullets;
      assert r.nextTowerId == s.nextTowerId && r.nextEnemyId == s.nextEnemyId && r.nextBulletId == s.nextBulletId;
    }
  }
}
