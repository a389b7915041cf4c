/** Tower placement and selection (main.js:654-737). */
module Placement {
  import opened Wrappers
  import opened Seqs
  import opened Entities

  predicate AtPoint(t: Tower, gx: int, gy: int)
  {
    t.x == gx && t.y == gy
  }

  /** findTowerAtGridPoint: the first tower standing exactly on (gx, gy). */
  function FindTowerAtGridPoint(ts: seq<Tower>, gx: int, gy: int): (r: Option<nat>)
    ensures r.None? <==> forall i :: 0 <= i < |ts| ==> !AtPoint(ts[i], gx, gy)
    ensures r.Some? ==> r.value < |ts| && AtPoint(ts[r.value], gx, gy)
    ensures r.Some? ==> forall i :: 0 <= i < r.value ==> !AtPoint(ts[i], gx, gy)
  {
    FindFirst(ts, (t: Tower) => AtPoint(t, gx, gy))
  }

  /** Whether a point lies inside the world rectangle [0, worldW] x [0, worldH]. */
  predicate InWorld(s: State, gx: int, gy: int)
  {
    !(gx < 0 || gy < 0 || gx as real > s.worldW || gy as real > s.worldH)
  }

  /** A fresh tower with the default stats and base upgrade prices. */
  function NewTower(id: int, gx: int, gy: int): Tower
  {
    Tower(id, gx, gy, 0.0, DEFAULT_RANGE, DEFAULT_FIRE_EVERY, 1, DEFAULT_BULLET_SPEED, 20, 25, 30, 35)
  }

  /** The state after a placement request, and the tower it returned (None for null). */
  datatype Placed = Placed(state: State, tower: Option<Tower>)

  /** addTowerAtGridPoint: out-of-world requests fail; a tower already on the point
      is returned free of charge (this check comes before the gold check); otherwise
      the request fails when gold is short, or pays TOWER_COST and appends a new tower. */
  function AddTowerAtGridPoint(s: State, gx: int, gy: int): (r: Placed)
    ensures !InWorld(s, gx, gy) ==> r == Placed(s, None)
    ensures InWorld(s, gx, gy) && FindTowerAtGridPoint(s.towers, gx, gy).Some? ==>
              r.state == s && r.tower.Some? && r.tower.value in s.towers && AtPoint(r.tower.value, gx, gy)
    ensures InWorld(s, gx, gy) && FindTowerAtGridPoint(s.towers, gx, gy).None? && s.gold < TOWER_COST ==>
              r == Placed(s, None)
    ensures InWorld(s, gx, gy) && FindTowerAtGridPoint(s.towers, gx, gy).None? && s.gold >= TOWER_COST ==>
              && r.tower.Some?
              && r.state == s.(gold := s.gold - TOWER_COST, nextTowerId := s.nextTowerId + 1,
                               towers := s.towers + [r.tower.value])
              && r.tower.value.id == s.nextTowerId && AtPoint(r.tower.value, gx, gy)
              && r.tower.value.cd == 0.0 && r.tower.value.dmg == 1
              && r.tower.value.costDmg == 20 && r.tower.value.costSpeed == 25
              && r.tower.value.costRange == 30 && r.tower.value.costBullet == 35
    ensures r.state.gold == s.gold || r.state.gold == s.gold - TOWER_COST
    ensures r.state.gold < s.gold ==> r.state.gold >= 0 && |r.state.towers| == |s.towers| + 1
  {
    if !InWorld(s, gx, gy) then Placed(s, None)
    else match FindTowerAtGridPoint(s.towers, gx, gy)
      case Some(k) => Placed(s, Some(s.towers[k]))
      case None =>
        if s.gold < TOWER_COST then Placed(s, None)
        else
          var t := NewTower(s.nextTowerId, gx, gy);
          Placed(s.(gold := s.gold - TOWER_COST, nextTowerId := s.nextTowerId + 1, towers := s.towers + [t]), Some(t))
  }

  /** Placement keeps ids unique and below the counter, and keeps one tower per grid point. */
  lemma AddTowerPreservesValid(s: State, gx: int, gy: int)
    requires Valid(s)
    ensures Valid(AddTowerAtGridPoint(s, gx, gy).state)
  {
    var r := AddTowerAtGridPoint(s, gx, gy);
    if r.state != s {
      var t := r.tower.value;
      var ts := s.towers + [t];
      assert forall i :: 0 <= i < |s.towers| ==> !AtPoint(s.towers[i], gx, gy);
      forall i, j | 0 <= i < j < |ts|
        ensures TowerIdsDiffer(ts[i], ts[j]) && TowerPointsDiffer(ts[i], ts[j])
      {
        if j == |s.towers| {
          assert ts[i] == s.towers[i] && ts[j] == t;
        } else {
          assert ts[i] == s.towers[i] && ts[j] == s.towers[j];
        }
      }
    }
  }

  /** Asking twice for the same point is the same as asking once: the second request
      finds the tower the first one placed and charges nothing. */
  lemma AddTowerIdempotent(s: State, gx: int, gy: int)
    ensures var r := AddTowerAtGridPoint(s, gx, gy);
            AddTowerAtGridPoint(r.state, gx, gy) == r
  {
    var r := AddTowerAtGridPoint(s, gx, gy);
    if InWorld(s, gx, gy) && FindTowerAtGridPoint(s.towers, gx, gy).None? && s.gold >= TOWER_COST {
      var ts := r.state.towers;
      assert ts == s.towers + [r.tower.value];
      var k := FindTowerAtGridPoint(ts, gx, gy);
      assert AtPoint(ts[|s.towers|], gx, gy);
      assert k.Some? && k.value == |s.towers| by {
        assert forall i :: 0 <= i < |s.towers| ==> ts[i] == s.towers[i];
      }
    }
  }

  /** The example of ten gold: one placement succeeds and spends everything, and a
      placement at a different empty point then fails for lack of gold. */
  lemma TenGoldBuysOneTower(s: State, gx: int, gy: int, hx: int, hy: int)
    requires s.gold == 10 && s.towers == []
    requires InWorld(s, gx, gy) && InWorld(s, hx, hy) && (gx, gy) != (hx, hy)
    ensures var r := AddTowerAtGridPoint(s, gx, gy);
            && r.tower.Some? && r.state.gold == 0
            && AddTowerAtGridPoint(r.state, hx, hy) == Placed(r.state, None)
  {
    var r := AddTowerAtGridPoint(s, gx, gy);
    assert r.state.towers == [r.tower.value];
    assert !AtPoint(r.state.towers[0], hx, hy);
  }

  /** clearSelection. */
  function ClearSelection(s: State): (r: State)
    ensures r.selected.None?
    ensures r.(selected := s.selected) == s
  {
    s.(selected := None)
  }

  /** selectTower: selecting the selected tower again deselects it. */
  function SelectTower(s: State, id: int): (r: State)
    ensures r.selected == Some(id) <==> s.selected != Some(id)
    ensures r.selected.None? <==> s.selected == Some(id)
    ensures r.(selected := s.selected) == s
  {
    if s.selected == Some(id) then ClearSelection(s) else s.(selected := Some(id))
  }

  /** Selecting the same id twice leaves it selected only if it was selected before. */
  lemma SelectTowerTwice(s: State, id: int)
    ensures SelectTower(SelectTower(s, id), id).selected == (if s.selected == Some(id) then Some(id) else None)
    ensures SelectTower(SelectTower(s, id), id).(selected := s.selected) == s
  {
  }
}
