/** The two linear nearest-neighbour scans (main.js:750-760, 803-821). Both keep
    the first candidate whose squared distance is strictly smaller than the best
    so far, so ties go to the earliest element. */
module Search {
  import opened Wrappers
  import opened Geometry
  import opened Entities

  /** A squared distance is a candidate when it is within the optional bound. */
  predicate Eligible(d: real, bound: Option<real>)
  {
    bound.None? || d <= bound.value
  }

  /** k is the first position, among the first n, of the least eligible value. */
  ghost predicate IsFirstMin(d: seq<real>, bound: Option<real>, n: int, k: int)
    requires 0 <= n <= |d|
  {
    && 0 <= k < n
    && Eligible(d[k], bound)
    && (forall j :: 0 <= j < n && Eligible(d[j], bound) ==> d[k] <= d[j])
    && (forall j :: 0 <= j < k && Eligible(d[j], bound) ==> d[k] < d[j])
  }

  /** The scan loop from position i on, with the best index found so far. */
  function ScanMin(d: seq<real>, bound: Option<real>, i: nat, best: Option<nat>): (r: Option<nat>)
    requires i <= |d|
    requires best.Some? ==> best.value < i
    ensures r.Some? ==> r.value < |d|
    ensures best.Some? ==> r.Some?
    decreases |d| - i
  {
    if i == |d| then best
    else if Eligible(d[i], bound) && (best.None? || d[i] < d[best.value]) then
      ScanMin(d, bound, i + 1, Some(i))
    else
      ScanMin(d, bound, i + 1, best)
  }

  /** Started from a correct best index for the first i values, the scan ends
      with the first least eligible value of all of d, and finds none exactly
      when no value is eligible. */
  lemma {:induction false} ScanMinSpec(d: seq<real>, bound: Option<real>, i: nat, best: Option<nat>)
    requires i <= |d|
    requires best.Some? ==> IsFirstMin(d, bound, i, best.value)
    requires best.None? ==> forall j :: 0 <= j < i ==> !Eligible(d[j], bound)
    ensures ScanMin(d, bound, i, best).Some? ==> IsFirstMin(d, bound, |d|, ScanMin(d, bound, i, best).value)
    ensures ScanMin(d, bound, i, best).None? <==> forall j :: 0 <= j < |d| ==> !Eligible(d[j], bound)
    decreases |d| - i
  {
    if i < |d| {
      if Eligible(d[i], bound) && (best.None? || d[i] < d[best.value]) {
        ScanMinSpec(d, bound, i + 1, Some(i));
      } else {
        ScanMinSpec(d, bound, i + 1, best);
      }
    }
  }

  /** Squared distance from a tower's centre to a point. */
  function TowerDist2(t: Tower, x: real, y: real): real
  {
    Dist2(t.x as real, t.y as real, x, y)
  }

  function EnemyDist2(e: Enemy, x: real, y: real): real
  {
    Dist2(e.x, e.y, x, y)
  }

  /** nearestTower: the index of the closest tower, the earliest on ties;
      None exactly when there are no towers. */
  function NearestTower(ts: seq<Tower>, x: real, y: real): (r: Option<nat>)
    ensures r.None? <==> |ts| == 0
    ensures r.Some? ==> r.value < |ts|
  {
    ScanMin(TowerDists(ts, x, y), None, 0, None)
  }

  /** The tower found is at least as close as every tower and strictly closer
      than every tower before it. */
  lemma NearestTowerSpec(ts: seq<Tower>, x: real, y: real)
    requires |ts| > 0
    ensures forall j :: 0 <= j < |ts| ==>
              TowerDist2(ts[NearestTower(ts, x, y).value], x, y) <= TowerDist2(ts[j], x, y)
    ensures forall j :: 0 <= j < NearestTower(ts, x, y).value ==>
              TowerDist2(ts[NearestTower(ts, x, y).value], x, y) < TowerDist2(ts[j], x, y)
  {
    var d := TowerDists(ts, x, y);
    ScanMinSpec(d, None, 0, None);
    assert IsFirstMin(d, None, |d|, NearestTower(ts, x, y).value);
  }

  function TowerDists(ts: seq<Tower>, x: real, y: real): (d: seq<real>)
    ensures |d| == |ts|
    ensures forall j :: 0 <= j < |ts| ==> d[j] == TowerDist2(ts[j], x, y)
  {
    seq(|ts|, i requires 0 <= i < |ts| => TowerDist2(ts[i], x, y))
  }

  function EnemyDists(es: seq<Enemy>, x: real, y: real): (d: seq<real>)
    ensures |d| == |es|
    ensures forall j :: 0 <= j < |es| ==> d[j] == EnemyDist2(es[j], x, y)
  {
    seq(|es|, i requires 0 <= i < |es| => EnemyDist2(es[i], x, y))
  }

  /** nearestEnemyInRange: the index of an enemy whose squared distance is at
      most range * range, if there is one; which one the lemma below says. */
  function NearestEnemyInRange(es: seq<Enemy>, x: real, y: real, range: real): (r: Option<nat>)
    ensures r.Some? ==> r.value < |es| && EnemyDist2(es[r.value], x, y) <= Sq(range)
  {
    if |es| == 0 then None
    else
      ScanMinSpec(EnemyDists(es, x, y), Some(Sq(range)), 0, None);
      ScanMin(EnemyDists(es, x, y), Some(Sq(range)), 0, None)
  }

  /** The scan finds an enemy exactly when one is in range, and then the closest
      one in range, the earliest on ties. */
  lemma NearestEnemyInRangeSpec(es: seq<Enemy>, x: real, y: real, range: real)
    ensures NearestEnemyInRange(es, x, y, range).None? <==> forall j :: 0 <= j < |es| ==> EnemyDist2(es[j], x, y) > Sq(range)
    ensures NearestEnemyInRange(es, x, y, range).Some? ==>
              forall j :: 0 <= j < |es| && EnemyDist2(es[j], x, y) <= Sq(range)
                ==> EnemyDist2(es[NearestEnemyInRange(es, x, y, range).value], x, y) <= EnemyDist2(es[j], x, y)
    ensures NearestEnemyInRange(es, x, y, range).Some? ==>
              forall j :: 0 <= j < NearestEnemyInRange(es, x, y, range).value && EnemyDist2(es[j], x, y) <= Sq(range)
                ==> EnemyDist2(es[NearestEnemyInRange(es, x, y, range).value], x, y) < EnemyDist2(es[j], x, y)
  {
    if |es| > 0 {
      var d := EnemyDists(es, x, y);
      ScanMinSpec(d, Some(Sq(range)), 0, None);
      if NearestEnemyInRange(es, x, y, range).Some? {
        assert IsFirstMin(d, Some(Sq(range)), |d|, NearestEnemyInRange(es, x, y, range).value);
      }
    }
  }
}
