/** Squared distances, the swept projectile test and grid snapping (main.js:638-652, 842-857). */
module Geometry {

  /** The product a * b, named so that facts about squares are stated about one term. */
  function Mul(a: real, b: real): real
  {
    a * b
  }

  /** x * x. */
  function Sq(x: real): real
  {
    Mul(x, x)
  }

  /** Squared Euclidean distance between two points (dist2Num). */
  function Dist2(px: real, py: real, qx: real, qy: real): (d: real)
    ensures d >= 0.0
  {
    SquareNonNeg(px - qx);
    SquareNonNeg(py - qy);
    Sq(px - qx) + Sq(py - qy)
  }

  /** Math.max(0, Math.min(1, t)). */
  function Clamp01(t: real): real
  {
    if t > 1.0 then 1.0 else if t < 0.0 then 0.0 else t
  }

  /** Squared distance from the circle centre (cx, cy) to the point at parameter `s`
      of the segment from (x1, y1) to (x2, y2). */
  function SegmentDist2(x1: real, y1: real, x2: real, y2: real, cx: real, cy: real, s: real): real
  {
    Dist2(x1 + s * (x2 - x1), y1 + s * (y2 - y1), cx, cy)
  }

  /** The parameter of the closest point, as segmentHitsCircle computes it when the
      segment is not a single point. */
  function ClosestParameter(x1: real, y1: real, x2: real, y2: real, cx: real, cy: real): real
    requires Sq(x2 - x1) + Sq(y2 - y1) != 0.0
  {
    Clamp01((Mul(cx - x1, x2 - x1) + Mul(cy - y1, y2 - y1)) / (Sq(x2 - x1) + Sq(y2 - y1)))
  }

  /** segmentHitsCircle: clamp the projection of the centre onto the segment
      and compare the squared distance of that closest point with r * r. */
  function SegmentHitsCircle(x1: real, y1: real, x2: real, y2: real, cx: real, cy: real, r: real): bool
  {
    if Sq(x2 - x1) + Sq(y2 - y1) == 0.0 then Dist2(x1, y1, cx, cy) <= r * r
    else SegmentDist2(x1, y1, x2, y2, cx, cy, ClosestParameter(x1, y1, x2, y2, cx, cy)) <= r * r
  }

  lemma MulNonNeg(a: real, b: real)
    requires a >= 0.0 && b >= 0.0
    ensures a * b >= 0.0
  {
  }

  lemma MulPosPos(a: real, b: real)
    requires a > 0.0 && b > 0.0
    ensures a * b > 0.0
  {
  }

  lemma MulPositive(a: real, b: real)
    requires a > 0.0 && b > 0.0
    ensures Mul(a, b) > 0.0
  {
  }

  lemma MulNegations(a: real, b: real)
    ensures Mul(-a, -b) == Mul(a, b)
  {
  }

  lemma SquarePos(a: real)
    requires a != 0.0
    ensures Sq(a) > 0.0
  {
    if a > 0.0 {
      MulPositive(a, a);
    } else {
      MulPositive(-a, -a);
      MulNegations(a, a);
    }
  }

  lemma SquareNonNeg(a: real)
    ensures Sq(a) >= 0.0
  {
    if a != 0.0 {
      SquarePos(a);
    }
  }

  /** A sum of two squares vanishes only when both terms do. */
  lemma SquaresZero(a: real, b: real)
    requires Sq(a) + Sq(b) == 0.0
    ensures a == 0.0 && b == 0.0
  {
    SquareNonNeg(a);
    SquareNonNeg(b);
    if a != 0.0 {
      SquarePos(a);
    } else if b != 0.0 {
      SquarePos(b);
    }
  }

  /** s^2 vv - 2 s wv + ww. */
  function Quad(vv: real, wv: real, ww: real, s: real): real
  {
    s * s * vv - 2.0 * s * wv + ww
  }

  lemma SquareOfLine(s: real, v: real, w: real)
    ensures Sq(s * v - w) == s * s * Sq(v) - 2.0 * s * Mul(w, v) + Sq(w)
  {
  }

  /** The squared distance along the segment is a quadratic in the parameter. */
  lemma SegmentDist2Quadratic(x1: real, y1: real, x2: real, y2: real, cx: real, cy: real, s: real)
    ensures SegmentDist2(x1, y1, x2, y2, cx, cy, s)
         == Quad(Sq(x2 - x1) + Sq(y2 - y1), Mul(cx - x1, x2 - x1) + Mul(cy - y1, y2 - y1),
                 Sq(cx - x1) + Sq(cy - y1), s)
  {
    var vx, vy := x2 - x1, y2 - y1;
    var wx, wy := cx - x1, cy - y1;
    assert SegmentDist2(x1, y1, x2, y2, cx, cy, s) == Dist2(x1 + s * vx, y1 + s * vy, cx, cy);
    assert Dist2(x1 + s * vx, y1 + s * vy, cx, cy) == Sq(x1 + s * vx - cx) + Sq(y1 + s * vy - cy);
    assert x1 + s * vx - cx == s * vx - wx;
    assert y1 + s * vy - cy == s * vy - wy;
    SquareOfLine(s, vx, wx);
    SquareOfLine(s, vy, wy);
    var ss := s * s;
    assert ss * (Sq(vx) + Sq(vy)) == ss * Sq(vx) + ss * Sq(vy);
    assert 2.0 * s * (Mul(wx, vx) + Mul(wy, vy)) == 2.0 * s * Mul(wx, vx) + 2.0 * s * Mul(wy, vy);
  }

  /** Over [0, 1], the quadratic with vv > 0 is least at the clamped vertex wv / vv. */
  lemma ClampedVertexMinimises(vv: real, wv: real, ww: real, s: real)
    requires vv > 0.0 && 0.0 <= s <= 1.0
    ensures Quad(vv, wv, ww, Clamp01(wv / vv)) <= Quad(vv, wv, ww, s)
  {
    var t0 := wv / vv;
    assert wv == t0 * vv;
    if t0 > 1.0 {
      assert Quad(vv, wv, ww, s) - Quad(vv, wv, ww, 1.0) == (1.0 - s) * (2.0 * wv - vv * (s + 1.0));
      MulNonNeg(vv, 1.0 - s);
      MulPosPos(t0 - 1.0, vv);
      MulNonNeg(1.0 - s, 2.0 * wv - vv * (s + 1.0));
    } else if t0 < 0.0 {
      assert Quad(vv, wv, ww, s) - Quad(vv, wv, ww, 0.0) == s * (vv * s - 2.0 * wv);
      MulPosPos(-t0, vv);
      MulNonNeg(vv, s);
      MulNonNeg(s, vv * s - 2.0 * wv);
    } else {
      assert Quad(vv, wv, ww, s) - Quad(vv, wv, ww, t0) == vv * ((s - t0) * (s - t0));
      MulNonNeg(if s >= t0 then s - t0 else t0 - s, if s >= t0 then s - t0 else t0 - s);
      assert (if s >= t0 then s - t0 else t0 - s) * (if s >= t0 then s - t0 else t0 - s) == (s - t0) * (s - t0);
      MulNonNeg(vv, (s - t0) * (s - t0));
    }
  }

  /** The closest parameter minimises the squared distance over the whole segment. */
  lemma ClosestPointIsClosest(x1: real, y1: real, x2: real, y2: real, cx: real, cy: real, s: real)
    requires 0.0 <= s <= 1.0
    requires Sq(x2 - x1) + Sq(y2 - y1) != 0.0
    ensures SegmentDist2(x1, y1, x2, y2, cx, cy, ClosestParameter(x1, y1, x2, y2, cx, cy))
         <= SegmentDist2(x1, y1, x2, y2, cx, cy, s)
  {
    var vv := Sq(x2 - x1) + Sq(y2 - y1);
    var wv := Mul(cx - x1, x2 - x1) + Mul(cy - y1, y2 - y1);
    var ww := Sq(cx - x1) + Sq(cy - y1);
    SquareNonNeg(x2 - x1);
    SquareNonNeg(y2 - y1);
    var t := ClosestParameter(x1, y1, x2, y2, cx, cy);
    assert t == Clamp01(wv / vv);
    ClampedVertexMinimises(vv, wv, ww, s);
    SegmentDist2Quadratic(x1, y1, x2, y2, cx, cy, s);
    SegmentDist2Quadratic(x1, y1, x2, y2, cx, cy, t);
  }

  /** The swept test reports a hit exactly when some point of the segment from
      (x1, y1) to (x2, y2) lies within distance r of the centre (cx, cy). */
  lemma SegmentHitsCircleCorrect(x1: real, y1: real, x2: real, y2: real, cx: real, cy: real, r: real)
    ensures SegmentHitsCircle(x1, y1, x2, y2, cx, cy, r)
        <==> exists s: real :: 0.0 <= s <= 1.0 && SegmentDist2(x1, y1, x2, y2, cx, cy, s) <= r * r
  {
    if Sq(x2 - x1) + Sq(y2 - y1) == 0.0 {
      SquaresZero(x2 - x1, y2 - y1);
      assert SegmentDist2(x1, y1, x2, y2, cx, cy, 0.0) == Dist2(x1, y1, cx, cy);
      forall s: real | 0.0 <= s <= 1.0
        ensures SegmentDist2(x1, y1, x2, y2, cx, cy, s) == Dist2(x1, y1, cx, cy)
      {
        assert x1 + s * (x2 - x1) == x1 && y1 + s * (y2 - y1) == y1;
      }
    } else {
      var t := ClosestParameter(x1, y1, x2, y2, cx, cy);
      assert 0.0 <= t <= 1.0;
      forall s: real | 0.0 <= s <= 1.0
        ensures SegmentDist2(x1, y1, x2, y2, cx, cy, t) <= SegmentDist2(x1, y1, x2, y2, cx, cy, s)
      {
        ClosestPointIsClosest(x1, y1, x2, y2, cx, cy, s);
      }
    }
  }

  /** The grid spacing GRID (main.js:65). */
  const GRID: int := 40

  /** snapToGrid: Math.round(v / GRID) * GRID, where Math.round(x) is
      floor(x + 1/2) (halves round upward). */
  function SnapToGrid(v: real): (r: int)
    ensures r % GRID == 0
    ensures v - (GRID / 2) as real < r as real <= v + (GRID / 2) as real
  {
    (v / GRID as real + 0.5).Floor * GRID
  }

  /** Snapping a grid point leaves it where it is. */
  lemma SnapToGridFixesGridPoints(v: int)
    requires v % GRID == 0
    ensures SnapToGrid(v as real) == v
  {
    var q := v / GRID;
    assert v == q * GRID;
    assert v as real / GRID as real + 0.5 == q as real + 0.5;
  }

  /** Snapping is idempotent. */
  lemma SnapToGridIdempotent(v: real)
    ensures SnapToGrid(SnapToGrid(v) as real) == SnapToGrid(v)
  {
    SnapToGridFixesGridPoints(SnapToGrid(v));
  }

  /** The snapped value is a nearest grid point: no multiple of GRID is closer. */
  lemma SnapToGridNearest(v: real, m: int)
    requires m % GRID == 0
    ensures var r := SnapToGrid(v) as real;
            (if v >= r then v - r else r - v) <= (if v >= m as real then v - m as real else m as real - v)
  {
    var r := SnapToGrid(v);
    var qr, qm := r / GRID, m / GRID;
    assert r == qr * GRID && m == qm * GRID;
    if qm < qr {
      assert m <= r - GRID;
    } else if qm > qr {
      assert m >= r + GRID;
    }
  }

  /** Snapping the middle of a non-negative extent stays inside the extent. */
  lemma SnapMiddleInside(w: real)
    requires w >= 0.0
    ensures 0 <= SnapToGrid(w / 2.0) && SnapToGrid(w / 2.0) as real <= w
  {
    var q := (w / 2.0 / GRID as real + 0.5).Floor;
    assert SnapToGrid(w / 2.0) == q * GRID;
    if w < GRID as real {
      assert q == 0;
    } else {
      assert (q * GRID) as real <= w / 2.0 + 20.0;
    }
  }
}
