/** Gold arithmetic and the wave schedule's numeric curves (main.js:1007-1022, 1098-1109).
    Math.round(x) is floor(x + 1/2); on the exact products below it becomes an
    integer floor division, which abstracts away the IEEE-754 rounding of `* 1.1`
    and `0.02 * n`. */
module Economy {

  /** Math.round(x * 1.1) for an integer x: floor((11x + 5) / 10). */
  function AddTenPercent(x: int): (r: int)
    ensures 10 * r <= 11 * x + 5 < 10 * r + 10
  {
    (11 * x + 5) / 10
  }

  /** increaseCost: the next price of an upgrade, 10% more, rounded. */
  function IncreaseCost(cost: int): (r: int)
    ensures cost >= 0 ==> r >= cost
    ensures cost >= 5 ==> r > cost
    ensures 10 * r <= 11 * cost + 5 < 10 * r + 10
  {
    AddTenPercent(cost)
  }

  /** killRewardGold: Math.round(wave * (1 + 0.02 * towerCount)), i.e. the nearest
      integer to wave * (50 + towerCount) / 50, halves rounded up. */
  function KillReward(wave: int, towerCount: nat): (r: int)
    ensures 50 * r <= wave * (50 + towerCount) + 25 < 50 * r + 50
    ensures wave >= 0 ==> r >= wave
  {
    (wave * (50 + towerCount) + 25) / 50
  }

  /** The example of a kill at wave 1 with one tower standing: round(1.02) = 1. */
  lemma KillRewardFirstWave()
    ensures KillReward(1, 1) == 1
  {
  }

  /** 0.9 raised to an integer power (Math.pow(0.9, k)). */
  function Pow09(k: int): (r: real)
    ensures r > 0.0
    decreases if k >= 0 then k else -k
  {
    if k == 0 then 1.0
    else if k > 0 then 0.9 * Pow09(k - 1)
    else Pow09(k + 1) / 0.9
  }

  /** Raising the exponent by one multiplies by 0.9, for every integer exponent. */
  lemma Pow09Step(k: int)
    ensures Pow09(k + 1) == 0.9 * Pow09(k)
  {
    if k < 0 {
      assert Pow09(k) == Pow09(k + 1) / 0.9;
    }
  }

  /** Math.pow(0.9, k) never increases as k grows. */
  lemma {:induction false} Pow09Antitone(k1: int, k2: int)
    requires k1 <= k2
    ensures Pow09(k2) <= Pow09(k1)
    decreases k2 - k1
  {
    if k1 < k2 {
      Pow09Antitone(k1, k2 - 1);
      Pow09Step(k2 - 1);
    }
  }

  /** The smallest spawn interval the wave schedule produces. */
  const MIN_SPAWN_EVERY: real := 0.05

  /** Math.max(0.05, 3.0 * Math.pow(0.9, w - 1)). */
  function SpawnInterval(w: int): (r: real)
    ensures r >= MIN_SPAWN_EVERY
  {
    var v := 3.0 * Pow09(w - 1);
    if MIN_SPAWN_EVERY > v then MIN_SPAWN_EVERY else v
  }

  /** Later waves never spawn more slowly. */
  lemma SpawnIntervalNonIncreasing(w1: int, w2: int)
    requires w1 <= w2
    ensures SpawnInterval(w2) <= SpawnInterval(w1)
  {
    Pow09Antitone(w1 - 1, w2 - 1);
  }

  /** The first wave spawns every three seconds. */
  lemma SpawnIntervalFirstWave()
    ensures SpawnInterval(1) == 3.0
  {
  }

  /** enemy_hp = 1 + (w - 1): the wave number itself. */
  function EnemyHp(w: int): (r: int)
    ensures r == w
  {
    1 + (w - 1)
  }

  /** enemy_speed = 50 + (w - 1) * 5. */
  function EnemySpeed(w: int): (r: int)
    ensures r == 45 + 5 * w
  {
    50 + (w - 1) * 5
  }
}
