# Tower defense simulation core in Dafny

This project models the simulation and economy core of `main.js`, a browser
tower-defense game. The player places square towers on the points of a
40-unit grid. Enemies spawn in a distance band around the towers and walk
toward the nearest one. An enemy that touches a tower destroys it and dies
with it. Towers shoot bullets at the nearest enemy in range, and kills pay
gold. Every 60 seconds of play a new wave starts: enemies get stronger and
faster, they spawn more often, and the player gets a 10% gold bonus. Gold
buys new towers and per-tower upgrades. The game is over when no tower is
left.

The model is functional. One immutable `State` record holds every
module-level variable the per-frame update reads or writes: gold, wave,
enemy stats, the spawn band and accumulator, the id counters, the selection,
the game-over flag, and the tower, enemy and bullet registries. Each
operation of the source is a pure function from state to state. Each loop
that carries state from one iteration to the next is a recursive function
over the registry it walks, in the source's order; loops that treat every
element on its own are sequence comprehensions.

Modules, following the structure of the source:

- `Wrappers`: `Option`, standing for JavaScript's `null`.
- `Seqs`: the source's uses of `find`, `findIndex` and `filter`, and their properties.
- `Geometry`: squared distances, the swept bullet test `segmentHitsCircle` and `snapToGrid`.
- `Economy`: rounding of gold amounts, upgrade prices, the kill reward and the wave curves.
- `Entities`: the records, the initial values and the registry invariant `Valid`.
- `Search`: the two nearest-neighbour scans.
- `Placement`: placing towers, selecting them and clearing the selection.
- `Upgrades`: the four upgrade buttons.
- `Enemies`: spawning, movement, and contact with towers.
- `Combat`: tower fire and bullet flight.
- `Waves`: `applyWave` and the wave check at the end of `update`.
- `Game`: the start button, `update` and the animation loop.

Representation choices:

- Gold and prices are integers. `Math.round` of the exact products `g * 1.1`
  and `wave * (1 + 0.02 n)` is written as an integer floor division, halves
  rounding up. This abstracts away the IEEE-754 rounding of those products.
- Positions, timers and distances are real numbers. Distances are compared
  squared, so `d <= 30` becomes `d² <= 900`.
- `Math.pow(0.9, k)` is a recursive real function.
- `Math.random` is a parameter. One spawn draw supplies the candidate points
  of the sampling loop and the fallback point.
- The direction normalisation `v / (Math.hypot(v) || 1)` is a parameter
  `unit`. No square root is computed.
- The frame time `dt` and the play clock are parameters. In the source they
  come from `performance.now()` and the game-speed button.

Behaviours of the code a reader might not expect, which the model keeps:

- A tower whose cooldown has run out resets it to `fireEvery` whether or not
  it found a target (main.js:863-867). It does not wait at zero for a target.
- With no enemies on the field, `updateTowerFire` returns before touching any
  cooldown (main.js:860), so cooldowns are frozen while the field is empty.
- Bullets are created without a `range` property (main.js:831-839). The
  expiry test `b.traveled >= b.range` (main.js:889) compares with `undefined`
  and is always false. Bullets therefore leave the field only by hitting an
  enemy. `Combat.BulletsNeverExpire` states this.
- A frame that crosses several 60-second boundaries jumps straight to the
  last wave and pays the 10% bonus only once (main.js:361-365).
  `Waves.WaveSkipPaysOnce` states this.
- The start button applies wave 1 after placing the first tower
  (main.js:320-338). Wave-1 enemies therefore have 1 hit point, not the
  declared initial value 0.
- The range upgrade moves the global spawn band, for every tower
  (main.js:1073-1074).
- The constant `MAX_FIRE_EVERY` (0.01) is the lowest fire interval allowed.
  It is called `MIN_FIRE_EVERY` here.

## Model

| member | source | states |
|---|---|---|
| Seqs.FindFirst | main.js:654-656 | `find`: the first index whose element satisfies the test; none exactly when no element does |
| Seqs.RemoveKeys | main.js:912-913 | `filter` by a set of dead ids: survivors are exactly the elements whose id is not dead, in their original order |
| Seqs.RemoveKeysPairwise | main.js:912-913 | filtering keeps any pairwise property, such as unique ids |
| Seqs.RemoveKeysCount | main.js:981-983 | with unique ids, filtering a set of present ids removes exactly one element per id |
| Seqs.RemoveKeysTwice | main.js:912-913 | filtering by one set and then another is filtering by their union |
| Geometry.Dist2 | main.js:648-652 | a squared distance is never negative |
| Geometry.SegmentDist2Quadratic | main.js:842-857 | the squared distance from the circle centre along the bullet's segment is a quadratic in the segment parameter |
| Geometry.ClampedVertexMinimises | main.js:849-850 | on [0, 1], the clamped vertex of that quadratic is its minimum |
| Geometry.ClosestPointIsClosest | main.js:842-857 | the clamped projection parameter gives the point of the segment nearest the centre |
| Geometry.SegmentHitsCircleCorrect | main.js:842-857 | the swept test reports a hit exactly when some point of the segment lies within r of the centre, including the single-point segment |
| Geometry.SnapToGrid | main.js:638-640 | the result is a multiple of 40 within half a cell of the input, halves rounding up |
| Geometry.SnapToGridFixesGridPoints | main.js:638-640 | snapping a grid point leaves it unchanged |
| Geometry.SnapToGridIdempotent | main.js:638-640 | snapping twice is snapping once |
| Geometry.SnapToGridNearest | main.js:638-640 | no multiple of 40 is closer to the input than the snapped value |
| Geometry.SnapMiddleInside | main.js:330-332 | the snapped middle of a non-negative world extent lies inside the world |
| Economy.AddTenPercent | main.js:1099-1101 | `Math.round(g * 1.1)` is the integer nearest 11g/10, halves up |
| Economy.IncreaseCost | main.js:1020-1022 | the next price is the old one plus 10%, rounded; it never lowers a non-negative price and strictly raises any price from 5 up |
| Economy.KillReward | main.js:1007-1010 | the reward is `wave * (1 + 0.02 * towers)` rounded to the nearest integer, and never less than the wave |
| Economy.KillRewardFirstWave | main.js:1007-1010 | at wave 1 with one tower a kill pays 1 gold |
| Economy.Pow09 | main.js:1108 | `0.9^k` is positive for every integer k |
| Economy.Pow09Step | main.js:1108 | raising the exponent by one multiplies by 0.9, for negative exponents too |
| Economy.Pow09Antitone | main.js:1108 | `0.9^k` never increases as k grows |
| Economy.SpawnInterval | main.js:1108 | the spawn interval is never below 0.05 seconds |
| Economy.SpawnIntervalNonIncreasing | main.js:1108 | later waves never spawn more slowly |
| Economy.SpawnIntervalFirstWave | main.js:1108 | wave 1 spawns every 3 seconds, the declared initial interval |
| Economy.EnemyHp | main.js:1106 | an enemy of wave w has w hit points |
| Economy.EnemySpeed | main.js:1107 | an enemy of wave w walks at 45 + 5w units per second |
| Entities.Initial | main.js:68-120 | the game begins with no towers, enemies or bullets, 10 gold (one tower's price), wave 1 and not over |
| Entities.InitialValid | main.js:68-120 | the initial values satisfy every registry invariant |
| Search.ScanMinSpec | main.js:753-758 | the scan that keeps a strictly smaller distance returns the first least eligible value, and none exactly when no value is eligible |
| Search.NearestTower | main.js:750-751 | `nearestTower` returns null exactly when there are no towers |
| Search.NearestTowerSpec | main.js:750-760 | the tower found is at least as close as every tower, and strictly closer than every earlier one |
| Search.NearestEnemyInRange | main.js:803-821 | an enemy found is within range |
| Search.NearestEnemyInRangeSpec | main.js:803-821 | null exactly when no enemy has d² ≤ range²; otherwise the closest such enemy, the earliest on ties |
| Placement.FindTowerAtGridPoint | main.js:685-689 | the first tower standing exactly on the point; none exactly when no tower does |
| Placement.AddTowerAtGridPoint | main.js:703-737 | out-of-world requests fail; an existing tower on the point is returned free, even when gold is short; otherwise short gold fails and success charges 10 and appends a tower with the next id, cooldown 0, damage 1 and prices 20/25/30/35 |
| Placement.AddTowerPreservesValid | main.js:703-737 | placement keeps tower ids unique and below the counter, and keeps one tower per grid point |
| Placement.AddTowerIdempotent | main.js:703-710 | repeating a placement request at the same point changes nothing more |
| Placement.TenGoldBuysOneTower | main.js:703-737 | with the initial 10 gold one tower can be bought, and a second at another point is refused |
| Placement.ClearSelection | main.js:670-674 | the selection becomes empty and nothing else changes |
| Placement.SelectTower | main.js:658-668 | selecting toggles: the selected tower becomes deselected, any other id becomes selected, and nothing else changes |
| Placement.SelectTowerTwice | main.js:658-668 | selecting the same id twice leaves it selected if it was and nothing selected otherwise; nothing else changes |
| Upgrades.SelectedIndex | main.js:654-656 | `getSelectedTower`: the first tower with the selected id; none when nothing or a missing id is selected |
| Upgrades.Improve | main.js:1024-1095 | each upgrade raises exactly its own stat (+1 damage, fire interval becomes exactly max(0.01, 0.96 × fireEvery), +25 range, +30 bullet speed) and its own price by `increaseCost`, and nothing else of the tower |
| Upgrades.Upgrade | main.js:1024-1095 | checks in order: no selection, then the cap, then the gold; only a successful upgrade changes state, paying exactly the old price and never going negative; the range upgrade also moves the spawn band by 25 |
| Upgrades.UpgradeTouchesOnlySelected | main.js:1024-1095 | every tower other than the selected one is left exactly as it was |
| Upgrades.UpgradePreservesValid | main.js:1024-1095 | upgrades keep every registry invariant and the 500-unit width of the spawn band |
| Upgrades.UpgradePriceRises | main.js:1020-1095 | after a successful upgrade the next one of that stat costs strictly more |
| Upgrades.UpgradeRespectsCaps | main.js:1058-1095 | range and bullet speed never pass their caps by a whole step |
| Upgrades.DamageUpgradeAlwaysAvailable | main.js:1024-1038 | damage has no cap: with a selection and enough gold the upgrade always applies |
| Waves.ApplyWave | main.js:1098-1109 | the bonus is paid only when the wave rises; enemy hit points, speed and spawn interval follow the wave; nothing else changes |
| Waves.ApplyWaveIdempotent | main.js:1098-1109 | applying the same wave twice pays the bonus once |
| Waves.ApplyWaveBonus | main.js:1099-1101 | a rising wave never takes gold away and adds some from 5 gold up |
| Waves.ApplyWaveExample | main.js:1099-1101 | 100 gold becomes 110 when a new wave starts |
| Waves.WaveIndex | main.js:361 | the wave slot is the 60-second interval that contains the play time |
| Waves.WaveIndexMonotone | main.js:361 | later play times never fall in an earlier slot |
| Waves.WaveCheck | main.js:361-365 | afterwards the recorded slot is the play time's; the state is unchanged when the slot has not changed |
| Waves.WaveCheckIdempotent | main.js:361-365 | a second check at the same play time changes nothing |
| Waves.WaveCheckTracksPlayTime | main.js:361-365 | the wave number stays one above the recorded slot |
| Waves.WaveCheckMonotone | main.js:361-365 | as the play time advances the wave never goes down and non-negative gold never shrinks |
| Waves.WaveSkipPaysOnce | main.js:361-365 | a frame crossing two or more boundaries jumps waves but pays the bonus once |
| Waves.WaveCheckPreservesValid | main.js:361-365 | the wave check keeps every invariant |
| Enemies.Clamp | main.js:30-32 | the clamped value lies in [a, b] when a ≤ b and is the input when that already does |
| Enemies.Candidates | main.js:770 | the sampling loop looks at no more than 500 random points |
| Enemies.FirstInBandSpec | main.js:770-780 | the sampling loop accepts the first candidate in the spawn band, and falls through exactly when none is |
| Enemies.RandomSpawnPos | main.js:766-768 | no position exactly when there are no towers |
| Enemies.RandomSpawnPosSpec | main.js:766-795 | the position is a candidate in the band or the clamped fallback, and is in the band whenever some candidate is |
| Enemies.SpawnPosInWorld | main.js:766-795 | a spawn position lies inside the world whenever the random candidates do |
| Enemies.SpawnEnemy | main.js:797-801 | with a tower, one enemy with the next id and the wave's hit points is appended; without, nothing changes |
| Enemies.SpawnEnemyPreservesValid | main.js:797-801 | spawning keeps enemy ids unique and below the counter |
| Enemies.Toward | main.js:951-955 | walking changes only the position |
| Enemies.Step | main.js:943-956 | an enemy keeps its id and hit points; with no towers it does not move |
| Enemies.MoveEnemiesKeepsIdentity | main.js:943-956 | movement keeps every enemy in its place with its id and hit points, and nobody moves when no tower stands |
| Enemies.TowardApproaches | main.js:947-955 | walking along a scaled offset that does not overshoot never moves away from the target |
| Enemies.StepApproachesNearestTower | main.js:943-956 | with a length-normalising `unit` and no overshoot, an enemy ends no farther from its nearest tower |
| Enemies.TouchedTower | main.js:967-977 | the first tower not yet destroyed this frame within touch distance; none exactly when no such tower exists |
| Enemies.ContactStep | main.js:963-978 | one enemy destroys at most one tower and dies at most once; earlier deaths stay recorded in order |
| Enemies.ContactPass | main.js:963-979 | the loop only adds to the dead sets, keeping the recorded order |
| Enemies.ContactStepInvariant | main.js:963-978 | one dead tower per dead enemy, no tower listed twice, only real towers listed |
| Enemies.ContactPassInvariant | main.js:963-979 | the same holds after the whole loop |
| Enemies.ContactPassDeadEnemies | main.js:963-979 | only enemies the loop went through die |
| Enemies.ContactPassSeparates | main.js:963-979 | no enemy that survived the loop touches a tower that survived it |
| Enemies.FindTowerId | main.js:994 | `findIndex` by id: the first tower with the id; none exactly when no tower has it |
| Enemies.SpliceOutRemovesOne | main.js:994-995 | when a tower has the id, exactly one tower with that id is removed: one fewer tower, and the same multiset of towers plus the removed one; otherwise nothing changes |
| Enemies.RemoveTowers | main.js:993-996 | the removal loop never adds towers |
| Enemies.SpliceOutIsRemoval | main.js:994-995 | with unique ids, splicing out an id is filtering it out |
| Enemies.RemoveTowersIsRemoval | main.js:993-996 | with unique ids, the splice loop removes exactly the listed ids and keeps the survivors in order |
| Enemies.UpdateEnemies | main.js:939-1005 | no towers: nothing changes; otherwise the dead enemies and towers are removed, the selection is cleared exactly when its tower was destroyed (see also `Enemies.UpdateEnemiesSelection`), the game is over exactly when no tower is left, and gold, bullets and waves are untouched |
| Enemies.ContactOutcomeFacts | main.js:960-979 | the contact loop pairs each dead enemy with a distinct real tower |
| Enemies.UpdateEnemiesTrade | main.js:960-996 | a frame removes as many enemies as towers |
| Enemies.UpdateEnemiesSeparates | main.js:960-996 | after contact handling no remaining enemy touches a remaining tower |
| Enemies.UpdateEnemiesSelection | main.js:984-992 | a selected tower stays selected exactly as long as it survives |
| Enemies.UpdateEnemiesPreservesValid | main.js:939-1005 | movement and contact keep every registry invariant |
| Combat.Shot | main.js:823-840 | no bullet exactly when no enemy is in range; otherwise a bullet from the tower toward the nearest enemy in range, with the next id, the tower's damage and speed, and no range |
| Combat.Cooled | main.js:863-867 | an expired cooldown restarts at `fireEvery`, otherwise it counts down and stays positive; nothing else of the tower changes |
| Combat.FirePass | main.js:862-868 | every tower's cooldown is updated in place; at most one bullet per tower, one per tower that fires, numbered consecutively |
| Combat.FirstShot | main.js:864-866 | a tower adds a bullet exactly when its cooldown ran out and an enemy is in range |
| Combat.FirePassShotsHaveShooters | main.js:862-868 | every new bullet left a tower that came off cooldown with a target, carrying its damage and position |
| Combat.UpdateTowerFire | main.js:859-869 | nothing happens without enemies; otherwise bullets are appended with fresh ids, and with positive fire intervals every cooldown ends positive |
| Combat.UpdateTowerFirePreservesValid | main.js:859-869 | firing keeps every registry invariant |
| Combat.Moved | main.js:879-886 | a bullet's old position becomes the previous one and it travels speed × dt |
| Combat.MoveAllKeepsIdentity | main.js:879-886 | movement keeps every bullet in its place with its id, damage, speed and range, and records its previous position |
| Combat.FirstLiveHit | main.js:895-909 | the first enemy not yet dead whose circle the bullet's path crosses; none exactly when no such enemy exists |
| Combat.BulletStep | main.js:877-909 | a bullet kills at most itself and only adds to the dead sets |
| Combat.BulletStepSpec | main.js:889-909 | a live bullet dies exactly when it is expired or its path crosses a live enemy; the only enemy it can change is the first live one on its path |
| Combat.BulletPassRemovesHitBullets | main.js:877-910 | with unique bullet ids, bullet i dies in the loop exactly when, at its turn, it is expired or its path crosses an enemy still alive |
| Combat.ApplyHit | main.js:899-907 | the hit bullet dies and the enemy count is unchanged |
| Combat.BulletPass | main.js:877-910 | the loop only adds to the dead sets and keeps every enemy in place |
| Combat.ApplyHitInvariant | main.js:899-907 | a hit keeps enemy identities and positions, only lowers hit points, marks an enemy dead exactly when it was hit to zero or below, and pays one reward per death |
| Combat.BulletStepInvariant | main.js:877-909 | the same holds after any one bullet |
| Combat.BulletPassInvariant | main.js:877-910 | the same holds after the whole loop |
| Combat.BulletPassKillsOnlyItsBullets | main.js:877-910 | only bullets the loop went through die |
| Combat.FrameReward | main.js:1007-1010 | the reward is at least the wave |
| Combat.UpdateBullets | main.js:871-914 | no bullets: nothing changes; the bullet and enemy registries never grow, and towers, waves and selection are untouched (which bullets and enemies leave and the gold paid are stated by the lemmas below) |
| Combat.UpdateBulletsRemovesHitBullets | main.js:871-914 | in a valid state a frame removes a bullet exactly when its path crossed an enemy still alive when the loop reached it |
| Combat.BulletOutcomeInvariant | main.js:871-914 | the bullet loop's invariant holds for a frame of a valid state |
| Combat.UpdateBulletsKills | main.js:899-906 | an enemy dies exactly when a bullet hit it this frame and its hit points ended at zero or below |
| Combat.UpdateBulletsGold | main.js:899-913 | the gold a frame earns is the kill reward times the number of enemies removed |
| Combat.UpdateBulletsSurvivors | main.js:871-914 | surviving enemies keep their id and position and never gain hit points |
| Combat.BulletsNeverExpire | main.js:831-839 | bullets have no range, so in a valid state none ever expires |
| Combat.UpdateBulletsPreservesValid | main.js:871-914 | bullet flight keeps every registry invariant and never lowers gold |
| Combat.OneShotOneKill | main.js:871-914 | one bullet crossing one enemy with no more hit points than its damage removes both and pays exactly one reward |
| Game.TicksIsFloor | main.js:347-351 | on a non-negative accumulator the remaining iteration count n is the number of whole intervals in it: n intervals fit and n + 1 do not |
| Game.TicksStep | main.js:347-351 | taking one interval off the accumulator takes one iteration off |
| Game.SpawnCountIsTicks | main.js:347-351 | the spawn loop runs floor(acc / spawnEvery) times on a non-negative accumulator |
| Game.SpawnStep | main.js:348-351 | one iteration takes exactly one interval off the accumulator |
| Game.SpawnStepEnemies | main.js:348-351 | one iteration changes only the enemies, the id counter and the accumulator, and appends one fresh enemy when a tower stands |
| Game.SpawnLoopFrame | main.js:347-351 | the loop changes only the enemies, the id counter and the accumulator, which ends below one interval and stays non-negative |
| Game.SpawnLoopCount | main.js:347-351 | the loop appends one freshly numbered enemy per iteration after the existing ones, and none without a tower |
| Game.SpawnedFrame | main.js:346-351 | the spawn stage leaves towers, gold, waves and the game-over flag alone and appends fresh enemies |
| Game.SpawnedPreservesValid | main.js:346-351 | the spawn stage keeps every invariant |
| Game.Update | main.js:343-366 | after game over nothing changes; otherwise the recorded wave slot becomes the play time's |
| Game.CombatStagesPreserveValid | main.js:353-359 | movement, contact, fire and bullets together keep every invariant |
| Game.UpdatePreservesValid | main.js:343-366 | an update keeps every invariant and puts the wave at 1 + floor(playTime / 60) |
| Game.UpdateEndsGame | main.js:343-366 | a running update ends the game exactly when it leaves no tower standing |
| Game.StartFacts | main.js:320-338 | the game starts with one selected tower at the snapped middle, 0 gold, wave 1 with 1-hit-point enemies, no enemies or bullets, the loop running and every invariant in place |
| Game.Frame | main.js:917-925 | a stopped loop does nothing; a running frame advances the play clock by dt |
| Game.FramePreservesValid | main.js:917-925 | frames keep the session invariant: the loop runs exactly while a tower stands, and the wave is 1 + floor(playTime / 60) |
| Game.GameOverIsFinal | main.js:917-918 | once the game is over no frame changes anything |
| Game.GameEndsWithoutTowers | main.js:999-1003 | a frame stops the loop exactly when it leaves no tower standing |

## Left out

- Rendering, the HUD, toasts and the game-over overlay (main.js:369-635, 1111-1183): drawing and DOM updates only, with no game state.
- Mouse, touch, wheel, drag, camera, zoom and minimap handling (main.js:125-317): they turn screen events into calls of the modelled operations. The hit tests `pointInTower` and `getGridPointIfNear` are part of this input layer.
- `showUpgradeUI` and `updateUpgradeUI`: DOM updates only.
- `canAfford` and `pay` are not called by the modelled code; the upgrades compare and subtract gold inline, as `Upgrades.Upgrade` does.
- `requestAnimationFrame`, `performance.now()` and the game-speed button: the frame time `dt` is a parameter of `Game.Frame`.
- `Math.random`: the candidate points and the fallback point of one spawn are a parameter. The fallback's trigonometry (a random tower, angle and radius) is part of that parameter; only its clamping into the world is modelled.
- `Math.hypot`: the normalisation of movement and bullet directions is a parameter `unit`. Floating-point rounding of positions and timers is not modelled; reals are exact.
- IEEE-754 rounding of `g * 1.1`, `0.02 * n`, `t.fireEvery * 0.96` and `Math.pow`: replaced by exact integer and real arithmetic.
- Enemies.StepApproachesNearestTower: proved only when `unit` scales the offset by a non-negative factor and the step does not overshoot the tower, because the real `unit` divides by a square root that the model does not compute.
- Game.Start: when the first tower cannot be placed, `selectTower(t.id)` would throw on `null`; the model skips the selection instead. `Game.StartFacts` shows this case never arises for a world of non-negative size.
- The loop's `running = false` on game over (main.js:1002) is modelled in `Game.Frame`, which stops the session when the update ended the game.
