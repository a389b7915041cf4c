/** The four per-tower upgrades bought with gold (main.js:654-656, 1024-1095). */
module Upgrades {
  import opened Wrappers
  import opened Seqs
  import opened Entities
  import opened Economy

  datatype Stat = Damage | FireSpeed | Range | BulletSpeed

  /** Why an upgrade request did or did not change anything. The source returns
      silently when nothing is selected or the stat is capped, and shows a toast
      when gold is short. */
  datatype Outcome = Applied | NoSelection | AtCap | NotEnoughGold

  datatype Upgraded = Upgraded(state: State, outcome: Outcome)

  predicate IsSelected(s: State, t: Tower)
  {
    s.selected == Some(t.id)
  }

  /** getSelectedTower: the position of the first tower whose id is the selected one. */
  function SelectedIndex(s: State): (r: Option<nat>)
    ensures r.None? <==> forall i :: 0 <= i < |s.towers| ==> !IsSelected(s, s.towers[i])
    ensures r.Some? ==> r.value < |s.towers| && IsSelected(s, s.towers[r.value])
    ensures r.Some? ==> forall i :: 0 <= i < r.value ==> !IsSelected(s, s.towers[i])
    ensures s.selected.None? ==> r.None?
  {
    FindFirst(s.towers, (t: Tower) => IsSelected(s, t))
  }

  /** The guard each upgrade checks before the price: damage has no cap. */
  predicate AtCapFor(t: Tower, stat: Stat)
  {
    match stat
    case Damage => false
    case FireSpeed => t.fireEvery <= MIN_FIRE_EVERY
    case Range => t.range >= MAX_RANGE
    case BulletSpeed => t.bulletSpeed >= MAX_BULLET_SPEED
  }

  /** The tower's own current price for the stat. */
  function CostOf(t: Tower, stat: Stat): int
  {
    match stat
    case Damage => t.costDmg
    case FireSpeed => t.costSpeed
    case Range => t.costRange
    case BulletSpeed => t.costBullet
  }

  function Max(a: real, b: real): (r: real)
    ensures r >= a && r >= b && (r == a || r == b)
  {
    if a >= b then a else b
  }

  /** The improved tower: one stat raised (or the fire interval shrunk by 4%, never
      below MIN_FIRE_EVERY) and that stat's price raised by increaseCost. */
  function Improve(t: Tower, stat: Stat): (r: Tower)
    ensures CostOf(r, stat) == IncreaseCost(CostOf(t, stat))
    ensures r.id == t.id && r.x == t.x && r.y == t.y && r.cd == t.cd
    ensures forall other: Stat :: other != stat ==> CostOf(r, other) == CostOf(t, other)
    ensures stat == Damage ==> r.dmg == t.dmg + 1
    ensures stat != Damage ==> r.dmg == t.dmg
    ensures stat == FireSpeed ==> r.fireEvery == Max(MIN_FIRE_EVERY, t.fireEvery * 0.96)
    ensures stat == FireSpeed ==> r.fireEvery >= MIN_FIRE_EVERY && r.fireEvery <= Max(MIN_FIRE_EVERY, t.fireEvery)
    ensures stat == FireSpeed && t.fireEvery > 0.0 && t.fireEvery * 0.96 >= MIN_FIRE_EVERY ==> r.fireEvery < t.fireEvery
    ensures stat != FireSpeed ==> r.fireEvery == t.fireEvery
    ensures stat == Range ==> r.range == t.range + 25
    ensures stat != Range ==> r.range == t.range
    ensures stat == BulletSpeed ==> r.bulletSpeed == t.bulletSpeed + 30
    ensures stat != BulletSpeed ==> r.bulletSpeed == t.bulletSpeed
  {
    match stat
    case Damage => t.(dmg := t.dmg + 1, costDmg := IncreaseCost(t.costDmg))
    case FireSpeed => t.(fireEvery := Max(MIN_FIRE_EVERY, t.fireEvery * 0.96), costSpeed := IncreaseCost(t.costSpeed))
    case Range => t.(range := t.range + 25, costRange := IncreaseCost(t.costRange))
    case BulletSpeed => t.(bulletSpeed := t.bulletSpeed + 30, costBullet := IncreaseCost(t.costBullet))
  }

  /** upgradeDamage, upgradeFireSpeed, upgradeRange and upgradeBulletSpeed: checks in
      the source's order (selection, cap, gold); a successful range upgrade also
      pushes the spawn band 25 units outward. */
  function Upgrade(s: State, stat: Stat): (r: Upgraded)
    ensures r.outcome != Applied ==> r.state == s
    ensures r.outcome == NoSelection <==> SelectedIndex(s).None?
    ensures SelectedIndex(s).Some? ==>
              var k := SelectedIndex(s).value;
              var t := s.towers[k];
              && (r.outcome == AtCap <==> AtCapFor(t, stat))
              && (r.outcome == NotEnoughGold <==> !AtCapFor(t, stat) && s.gold < CostOf(t, stat))
              && (r.outcome == Applied ==>
                    && r.state.gold == s.gold - CostOf(t, stat) >= 0
                    && r.state.towers == s.towers[k := Improve(t, stat)])
    ensures r.outcome == Applied && stat == Range ==>
              r.state == s.(gold := r.state.gold, towers := r.state.towers,
                            spawnMin := s.spawnMin + 25, spawnMax := s.spawnMax + 25)
    ensures r.outcome == Applied && stat != Range ==>
              r.state == s.(gold := r.state.gold, towers := r.state.towers)
  {
    match SelectedIndex(s)
    case None => Upgraded(s, NoSelection)
    case Some(k) =>
      var t := s.towers[k];
      if AtCapFor(t, stat) then Upgraded(s, AtCap)
      else if s.gold < CostOf(t, stat) then Upgraded(s, NotEnoughGold)
      else
        var s' := s.(gold := s.gold - CostOf(t, stat), towers := s.towers[k := Improve(t, stat)]);
        if stat == Range then Upgraded(s'.(spawnMin := s.spawnMin + 25, spawnMax := s.spawnMax + 25), Applied)
        else Upgraded(s', Applied)
  }

  /** Upgrades never change which towers exist, where they stand, or their ids; and
      every tower other than the selected one is left exactly as it was. */
  lemma UpgradeTouchesOnlySelected(s: State, stat: Stat, i: int)
    requires 0 <= i < |s.towers| && !IsSelected(s, s.towers[i])
    ensures var r := Upgrade(s, stat).state;
            |r.towers| == |s.towers| && r.towers[i] == s.towers[i]
  {
  }

  /** Upgrades keep every registry invariant, the gold balance non-negative and the
      spawn band 500 units wide. */
  lemma UpgradePreservesValid(s: State, stat: Stat)
    requires Valid(s)
    ensures Valid(Upgrade(s, stat).state)
  {
    var r := Upgrade(s, stat);
    if r.outcome == Applied {
      var k := SelectedIndex(s).value;
      var t := s.towers[k];
      var ts := r.state.towers;
      assert ts == s.towers[k := Improve(t, stat)];
      forall i, j | 0 <= i < j < |ts|
        ensures TowerIdsDiffer(ts[i], ts[j]) && TowerPointsDiffer(ts[i], ts[j])
      {
        assert TowerIdsDiffer(s.towers[i], s.towers[j]) && TowerPointsDiffer(s.towers[i], s.towers[j]);
      }
      assert StatsValid(ts[k]);
    }
  }

  /** A successful upgrade always makes the next one of that stat dearer. */
  lemma UpgradePriceRises(s: State, stat: Stat)
    requires Valid(s)
    requires Upgrade(s, stat).outcome == Applied
    ensures var k := SelectedIndex(s).value;
            CostOf(Upgrade(s, stat).state.towers[k], stat) > CostOf(s.towers[k], stat)
  {
    var k := SelectedIndex(s).value;
    assert StatsValid(s.towers[k]);
  }

  /** The caps bound the stats: starting within a cap, no sequence of upgrades takes a
      tower's range past MAX_RANGE + 24 or its bullet speed past MAX_BULLET_SPEED + 29. */
  lemma UpgradeRespectsCaps(s: State, stat: Stat, i: int)
    requires 0 <= i < |s.towers|
    requires s.towers[i].range < MAX_RANGE + 25 && s.towers[i].bulletSpeed < MAX_BULLET_SPEED + 30
    ensures var t := Upgrade(s, stat).state.towers[i];
            t.range < MAX_RANGE + 25 && t.bulletSpeed < MAX_BULLET_SPEED + 30
  {
  }

  /** Damage is never capped: with a tower selected and gold to pay, it always applies. */
  lemma DamageUpgradeAlwaysAvailable(s: State)
    requires SelectedIndex(s).Some?
    requires s.gold >= s.towers[SelectedIndex(s).value].costDmg
    ensures Upgrade(s, Damage).outcome == Applied
  {
  }
}
