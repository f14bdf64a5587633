/** The track map both dashboards draw: the player's path, recorded as
    de-duplicated samples, with a running bounding box, and the projection of
    a world point into a screen rectangle through that box.

    `SmartTrackMap` (src/main.py) keeps a sample only if it moved more than 2
    world units along some axis and tags it with the sector; `TrackMap`
    (legacy/dashboard_v1.py) uses a 1-unit threshold and keeps no tag. Both
    are this one structure with a different threshold and tag type. */
module TrackMap {

  /** Axis-aligned world rectangle: `min_x`, `max_x`, `min_z`, `max_z`. */
  datatype Box = Box(minX: real, maxX: real, minZ: real, maxZ: real)

  /** The box every map starts with, before any sample is recorded. */
  const Seed := Box(-500.0, 500.0, -500.0, 500.0)

  /** A kept sample; `tag` is the sector in src/main.py and nothing (`()`)
      in the legacy dashboard. */
  datatype Sample<T> = Sample(x: real, z: real, tag: T)

  datatype Track<T> = Track(points: seq<Sample<T>>, box: Box)

  /** De-duplication thresholds of the two versions. */
  const SmartGap := 2.0
  const LegacyGap := 1.0

  function Empty<T>(): Track<T>
  {
    Track([], Seed)
  }

  function Abs(r: real): real { if r < 0.0 then -r else r }
  function MinR(a: real, b: real): real { if a <= b then a else b }
  function MaxR(a: real, b: real): real { if a >= b then a else b }

  predicate Inside(b: Box, x: real, z: real)
  {
    b.minX <= x <= b.maxX && b.minZ <= z <= b.maxZ
  }

  /** `outer` contains `inner`. */
  predicate Encloses(outer: Box, inner: Box)
  {
    outer.minX <= inner.minX && inner.maxX <= outer.maxX && outer.minZ <= inner.minZ && inner.maxZ <= outer.maxZ
  }

  /** The de-duplication rule: a new point is kept when it moved more than
      `gap` along x or along z (per axis, not Euclidean distance). */
  predicate Apart<T>(last: Sample<T>, x: real, z: real, gap: real)
  {
    Abs(x - last.x) > gap || Abs(z - last.z) > gap
  }

  predicate Keeps<T>(t: Track<T>, gap: real, x: real, z: real)
  {
    |t.points| == 0 || Apart(t.points[|t.points| - 1], x, z, gap)
  }

  /** The smallest widening of `b` that contains the point. */
  function Widen(b: Box, x: real, z: real): (r: Box)
    ensures Inside(r, x, z) && Encloses(r, b)
    ensures forall o: Box :: Encloses(o, b) && Inside(o, x, z) ==> Encloses(o, r)
  {
    Box(MinR(b.minX, x), MaxR(b.maxX, x), MinR(b.minZ, z), MaxR(b.maxZ, z))
  }

  /** `add_point`. */
  function AddPoint<T>(t: Track<T>, gap: real, x: real, z: real, tag: T): (r: Track<T>)
    ensures |t.points| == 0 ==> r.points == [Sample(x, z, tag)]
    ensures Keeps(t, gap, x, z) ==> r.points == t.points + [Sample(x, z, tag)] && r.box == Widen(t.box, x, z)
    ensures !Keeps(t, gap, x, z) ==> r == t
    ensures Encloses(r.box, t.box)
  {
    if Keeps(t, gap, x, z) then Track(t.points + [Sample(x, z, tag)], Widen(t.box, x, z))
    else t
  }

  /** Every kept sample lies in the box. */
  ghost predicate Covered<T>(t: Track<T>)
  {
    forall i :: 0 <= i < |t.points| ==> Inside(t.box, t.points[i].x, t.points[i].z)
  }

  /** Consecutive kept samples obey the de-duplication rule. */
  ghost predicate Spaced<T>(t: Track<T>, gap: real)
  {
    forall i :: 0 < i < |t.points| ==> Apart(t.points[i - 1], t.points[i].x, t.points[i].z, gap)
  }

  /** What holds of every map built from `Empty` by `AddPoint`. */
  ghost predicate Valid<T>(t: Track<T>, gap: real)
  {
    Covered(t) && Spaced(t, gap) && Encloses(t.box, Seed)
  }

  lemma EmptyValid<T>(gap: real)
    ensures Valid(Empty<T>(), gap)
  {
  }

  /** Adding a point keeps every sample inside the (only ever widened) box,
      keeps the samples spaced, and only ever appends. */
  lemma AddPointPreservesValid<T>(t: Track<T>, gap: real, x: real, z: real, tag: T)
    ensures Valid(t, gap) ==> Valid(AddPoint(t, gap, x, z, tag), gap)
    ensures t.points <= AddPoint(t, gap, x, z, tag).points
  {
    var r := AddPoint(t, gap, x, z, tag);
    if Keeps(t, gap, x, z) && Valid(t, gap) {
      forall i | 0 <= i < |r.points|
        ensures Inside(r.box, r.points[i].x, r.points[i].z)
      {
        if i < |t.points| {
          assert r.points[i] == t.points[i];
          assert Inside(t.box, t.points[i].x, t.points[i].z);
        }
      }
      forall i | 0 < i < |r.points|
        ensures Apart(r.points[i - 1], r.points[i].x, r.points[i].z, gap)
      {
        if i < |t.points| {
          assert r.points[i - 1] == t.points[i - 1] && r.points[i] == t.points[i];
        }
      }
    }
  }

  /** Offering the same point twice stores it at most once. */
  lemma AddPointIdempotent<T>(t: Track<T>, gap: real, x: real, z: real, tag: T)
    requires gap >= 0.0
    ensures AddPoint(AddPoint(t, gap, x, z, tag), gap, x, z, tag) == AddPoint(t, gap, x, z, tag)
  {
  }

  /** Two points that are more than the threshold apart are both stored,
      after whatever was stored before, and the box then contains both. */
  lemma DistantPointsBothKept<T>(t: Track<T>, gap: real, x1: real, z1: real, a: T, x2: real, z2: real, b: T)
    requires Keeps(t, gap, x1, z1)
    requires Abs(x2 - x1) > gap || Abs(z2 - z1) > gap
    ensures AddPoint(AddPoint(t, gap, x1, z1, a), gap, x2, z2, b).points == t.points + [Sample(x1, z1, a), Sample(x2, z2, b)]
    ensures var r := AddPoint(AddPoint(t, gap, x1, z1, a), gap, x2, z2, b); Inside(r.box, x1, z1) && Inside(r.box, x2, z2)
  {
    var r1 := AddPoint(t, gap, x1, z1, a);
    assert r1.points[|r1.points| - 1] == Sample(x1, z1, a);
  }

  // ---------------------------------------------------------------------
  // Projection into a screen rectangle (`to_screen`)
  // ---------------------------------------------------------------------

  /** A pygame `Rect`: integer corner and size. */
  datatype Rect = Rect(x: int, y: int, width: int, height: int)

  /** The legacy dashboard's fixed map rectangle. */
  const LegacyMapRect := Rect(500, 60, 760, 640)

  /** `max(1, hi - lo)`: the normalising denominator for one axis. */
  function Span(lo: real, hi: real): (r: real)
    ensures r >= 1.0 && r >= hi - lo
    ensures hi - lo >= 1.0 ==> r == hi - lo
  {
    MaxR(1.0, hi - lo)
  }

  /** Screen position before integer conversion: normalise against the box,
      pad by `padW`/`padH` on each side, and flip the vertical axis so that
      larger z is drawn higher up. */
  function Project(b: Box, rect: Rect, padW: real, padH: real, x: real, z: real): (real, real)
  {
    var nx := (x - b.minX) / Span(b.minX, b.maxX);
    var nz := (z - b.minZ) / Span(b.minZ, b.maxZ);
    (rect.x as real + padW + nx * (rect.width as real - 2.0 * padW),
     rect.y as real + rect.height as real - padH - nz * (rect.height as real - 2.0 * padH))
  }

  /** Python's `int()` on a float: truncation toward zero. */
  function Trunc(r: real): (n: int)
    ensures r >= 0.0 ==> 0 <= n && n as real <= r < n as real + 1.0
    ensures r < 0.0 ==> n <= 0 && n as real - 1.0 < r <= n as real
  {
    if r >= 0.0 then r.Floor else -((-r).Floor)
  }

  lemma TruncMonotone(a: real, b: real)
    requires a <= b
    ensures Trunc(a) <= Trunc(b)
  {
  }

  /** Padding of src/main.py: 5% of the rectangle on each side. */
  function SmartPadW(rect: Rect): real { rect.width as real * 0.05 }
  function SmartPadH(rect: Rect): real { rect.height as real * 0.05 }

  /** Padding of the legacy dashboard: 20 pixels on each side. */
  const LegacyPad := 20.0

  /** `SmartTrackMap.to_screen`. A point inside the box stays within the
      5%-padded rectangle, after truncation to integers, for any rectangle
      of non-negative size. */
  function ToScreen<T>(t: Track<T>, x: real, z: real, rect: Rect): (r: (int, int))
    ensures Inside(t.box, x, z) && rect.width >= 0 && rect.height >= 0 ==>
      && Trunc(rect.x as real + SmartPadW(rect)) <= r.0 <= Trunc(rect.x as real + rect.width as real - SmartPadW(rect))
      && Trunc(rect.y as real + SmartPadH(rect)) <= r.1 <= Trunc(rect.y as real + rect.height as real - SmartPadH(rect))
  {
    var p := Project(t.box, rect, SmartPadW(rect), SmartPadH(rect), x, z);
    ScreenBounds(t.box, rect, SmartPadW(rect), SmartPadH(rect), x, z);
    (Trunc(p.0), Trunc(p.1))
  }

  /** `TrackMap.to_screen`, always into the map's own 760x640 rectangle at
      (500, 60): a point inside the box lands within [520, 1240] x [80, 680],
      20 pixels in from every side. */
  function ToScreenLegacy<T>(t: Track<T>, x: real, z: real): (r: (int, int))
    ensures Inside(t.box, x, z) ==> 520 <= r.0 <= 1240 && 80 <= r.1 <= 680
  {
    var p := Project(t.box, LegacyMapRect, LegacyPad, LegacyPad, x, z);
    ScreenBounds(t.box, LegacyMapRect, LegacyPad, LegacyPad, x, z);
    (Trunc(p.0), Trunc(p.1))
  }

  /** A point inside the box lands inside the padded rectangle. */
  lemma ProjectInsideRect(b: Box, rect: Rect, padW: real, padH: real, x: real, z: real)
    requires Inside(b, x, z)
    requires 0.0 <= 2.0 * padW <= rect.width as real && 0.0 <= 2.0 * padH <= rect.height as real
    ensures var p := Project(b, rect, padW, padH, x, z);
      && rect.x as real + padW <= p.0 <= rect.x as real + rect.width as real - padW
      && rect.y as real + padH <= p.1 <= rect.y as real + rect.height as real - padH
  {
    var w := Span(b.minX, b.maxX);
    var h := Span(b.minZ, b.maxZ);
    NormalisedInUnit(x - b.minX, b.maxX - b.minX, w);
    NormalisedInUnit(z - b.minZ, b.maxZ - b.minZ, h);
    var nx := (x - b.minX) / w;
    var nz := (z - b.minZ) / h;
    var lw := rect.width as real - 2.0 * padW;
    var lh := rect.height as real - 2.0 * padH;
    var p := Project(b, rect, padW, padH, x, z);
    ScaleInRange(nx, lw, p.0 - (rect.x as real + padW));
    ScaleInRange(nz, lh, (rect.y as real + rect.height as real - padH) - p.1);
  }

  lemma NormalisedInUnit(d: real, span: real, den: real)
    requires 0.0 <= d <= span && den >= 1.0 && den >= span
    ensures 0.0 <= d / den <= 1.0
  {
  }

  lemma ScaleInRange(n: real, len: real, m: real)
    requires 0.0 <= n <= 1.0 && len >= 0.0 && m == n * len
    ensures 0.0 <= m <= len
  {
  }

  /** Larger z is drawn strictly higher (smaller screen y), larger x strictly
      further right, whenever the padded rectangle has room. */
  lemma ProjectOrientation(b: Box, rect: Rect, padW: real, padH: real, x1: real, z1: real, x2: real, z2: real)
    requires 2.0 * padW < rect.width as real && 2.0 * padH < rect.height as real
    ensures x1 < x2 ==> Project(b, rect, padW, padH, x1, z1).0 < Project(b, rect, padW, padH, x2, z2).0
    ensures z1 < z2 ==> Project(b, rect, padW, padH, x2, z2).1 < Project(b, rect, padW, padH, x1, z1).1
  {
    var w := Span(b.minX, b.maxX);
    var h := Span(b.minZ, b.maxZ);
    var lw := rect.width as real - 2.0 * padW;
    var lh := rect.height as real - 2.0 * padH;
    var p1 := Project(b, rect, padW, padH, x1, z1);
    var p2 := Project(b, rect, padW, padH, x2, z2);
    if x1 < x2 {
      StrictDivide(x1 - b.minX, x2 - b.minX, w);
      StrictScale((x1 - b.minX) / w, (x2 - b.minX) / w, lw);
      assert p1.0 == rect.x as real + padW + (x1 - b.minX) / w * lw;
      assert p2.0 == rect.x as real + padW + (x2 - b.minX) / w * lw;
    }
    if z1 < z2 {
      StrictDivide(z1 - b.minZ, z2 - b.minZ, h);
      StrictScale((z1 - b.minZ) / h, (z2 - b.minZ) / h, lh);
      assert p1.1 == rect.y as real + rect.height as real - padH - (z1 - b.minZ) / h * lh;
      assert p2.1 == rect.y as real + rect.height as real - padH - (z2 - b.minZ) / h * lh;
    }
  }

  lemma StrictDivide(a: real, b: real, d: real)
    requires a < b && d > 0.0
    ensures a / d < b / d
  {
  }

  lemma StrictScale(a: real, b: real, len: real)
    requires a < b && len > 0.0
    ensures a * len < b * len
  {
  }

  /** Larger z never maps lower on screen, after truncation. */
  lemma ToScreenFlipsVertical<T>(t: Track<T>, x: real, z1: real, z2: real, rect: Rect)
    requires z1 < z2 && rect.width > 0 && rect.height > 0
    ensures ToScreen(t, x, z2, rect).1 <= ToScreen(t, x, z1, rect).1
  {
    ProjectOrientation(t.box, rect, SmartPadW(rect), SmartPadH(rect), x, z1, x, z2);
    TruncMonotone(Project(t.box, rect, SmartPadW(rect), SmartPadH(rect), x, z2).1,
                  Project(t.box, rect, SmartPadW(rect), SmartPadH(rect), x, z1).1);
  }

  /** A point inside the box lands inside the padded rectangle after
      truncation too: truncation is monotone. */
  lemma ScreenBounds(b: Box, rect: Rect, padW: real, padH: real, x: real, z: real)
    ensures Inside(b, x, z) && 0.0 <= 2.0 * padW <= rect.width as real && 0.0 <= 2.0 * padH <= rect.height as real ==>
      var p := Project(b, rect, padW, padH, x, z);
      && Trunc(rect.x as real + padW) <= Trunc(p.0) <= Trunc(rect.x as real + rect.width as real - padW)
      && Trunc(rect.y as real + padH) <= Trunc(p.1) <= Trunc(rect.y as real + rect.height as real - padH)
  {
    if Inside(b, x, z) && 0.0 <= 2.0 * padW <= rect.width as real && 0.0 <= 2.0 * padH <= rect.height as real {
      var p := Project(b, rect, padW, padH, x, z);
      ProjectInsideRect(b, rect, padW, padH, x, z);
      TruncMonotone(rect.x as real + padW, p.0);
      TruncMonotone(p.0, rect.x as real + rect.width as real - padW);
      TruncMonotone(rect.y as real + padH, p.1);
      TruncMonotone(p.1, rect.y as real + rect.height as real - padH);
    }
  }

  /** The seed box never shrinks, so on a map built by `AddPoint` neither
      denominator is ever clamped: both spans are at least 1000. */
  lemma ValidSpans<T>(t: Track<T>, gap: real)
    requires Valid(t, gap)
    ensures Span(t.box.minX, t.box.maxX) == t.box.maxX - t.box.minX >= 1000.0
    ensures Span(t.box.minZ, t.box.maxZ) == t.box.maxZ - t.box.minZ >= 1000.0
  {
  }
}
