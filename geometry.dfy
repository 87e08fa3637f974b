/**
 * Coordinate normalisation and the duplicate-click distance test.
 *
 * A recorded point is stored as percentages of the surface's intrinsic
 * width and height; replay turns it back into pixels using the size the
 * surface has at that time. Arithmetic is exact (`real`), and the
 * Euclidean test `sqrt(dx^2 + dy^2) < minDistance` is stated on squares.
 */
module Geometry {

  /** CONFIG.minDistance: clicks nearer than this many pixels are duplicates. */
  const MinDistance: real := 50.0

  /** A recorded point: percentages of the surface's width and height. */
  datatype Point = Point(x: real, y: real)

  /** A position in surface pixels, relative to the surface's top-left corner. */
  datatype Pos = Pos(x: real, y: real)

  /** One coordinate in pixels to a percentage of `size` (`x / width * 100`). */
  function ToPercent(v: real, size: nat): (p: real)
    requires size > 0
    ensures ToPixel(p, size) == v
    ensures 0.0 <= v <= size as real ==> 0.0 <= p <= 100.0
  {
    v / size as real * 100.0
  }

  /** One percentage back to pixels of `size` (`p / 100 * width`). */
  function ToPixel(p: real, size: nat): (v: real)
    ensures 0.0 <= p <= 100.0 ==> 0.0 <= v <= size as real
  {
    p / 100.0 * size as real
  }

  /** A click position to the point that is recorded for it. */
  function Normalize(at: Pos, width: nat, height: nat): (p: Point)
    requires width > 0 && height > 0
    ensures Denormalize(p, width, height) == at
  {
    Point(ToPercent(at.x, width), ToPercent(at.y, height))
  }

  /** A recorded point to pixels of a surface of the given size. */
  function Denormalize(p: Point, width: nat, height: nat): (at: Pos)
    ensures 0.0 <= p.x <= 100.0 && 0.0 <= p.y <= 100.0 ==>
      0.0 <= at.x <= width as real && 0.0 <= at.y <= height as real
  {
    Pos(ToPixel(p.x, width), ToPixel(p.y, height))
  }

  /** Converting a percentage to pixels and back gives the percentage again. */
  lemma PixelPercentRoundTrip(p: real, size: nat)
    requires size > 0
    ensures ToPercent(ToPixel(p, size), size) == p
  {
    var s, q := size as real, p / 100.0;
    assert ToPixel(p, size) == q * s;
    assert q * s / s == q;
    assert ToPercent(q * s, size) == q * 100.0;
  }

  /** The point form of PixelPercentRoundTrip: a stored point survives replay and re-recording. */
  lemma DenormalizeRoundTrip(p: Point, width: nat, height: nat)
    requires width > 0 && height > 0
    ensures Normalize(Denormalize(p, width, height), width, height) == p
  {
    PixelPercentRoundTrip(p.x, width);
    PixelPercentRoundTrip(p.y, height);
  }

  /**
   * Resolution independence, for each coordinate on its own: a pixel coordinate
   * recorded along a side of length `size` and replayed along a side of any
   * length `size'` lands at the same fraction of that side.
   */
  lemma ReplayScales(v: real, size: nat, size': nat)
    requires size > 0
    ensures ToPixel(ToPercent(v, size), size') == v * (size' as real) / (size as real)
  {
    var s, s' := size as real, size' as real;
    var q := v / s;
    assert ToPercent(v, size) == q * 100.0;
    assert ToPixel(q * 100.0, size') == q * s';
    assert q * s' == v * s' / s;
  }

  /** The square of the Euclidean distance between two pixel positions. */
  function SquaredDistance(a: Pos, b: Pos): (d: real)
    ensures d >= 0.0
  {
    (a.x - b.x) * (a.x - b.x) + (a.y - b.y) * (a.y - b.y)
  }

  /** The duplicate test of the recorder, `distance < minDistance`, on squares. */
  function TooClose(a: Pos, b: Pos): (r: bool)
    ensures a == b ==> r
    ensures r ==> -MinDistance < a.x - b.x < MinDistance && -MinDistance < a.y - b.y < MinDistance
  {
    var dx, dy := a.x - b.x, a.y - b.y;
    assert dx * dx >= MinDistance * MinDistance ==> dx * dx + dy * dy >= MinDistance * MinDistance;
    assert dy * dy >= MinDistance * MinDistance ==> dx * dx + dy * dy >= MinDistance * MinDistance;
    SquareBelowBound(dx);
    SquareBelowBound(dy);
    SquaredDistance(a, b) < MinDistance * MinDistance
  }

  /** A number whose square is below MinDistance^2 lies strictly between -MinDistance and MinDistance. */
  lemma SquareBelowBound(d: real)
    ensures d * d < MinDistance * MinDistance ==> -MinDistance < d < MinDistance
  {
    if d >= MinDistance {
      assert d * d >= d * MinDistance >= MinDistance * MinDistance;
    } else if d <= -MinDistance {
      assert d * d >= -d * MinDistance >= MinDistance * MinDistance;
    }
  }

  /**
   * The squared test agrees with the script's test on the Euclidean distance:
   * for the non-negative `dist` with `dist * dist == dx^2 + dy^2` (its square root),
   * `TooClose` holds exactly when `dist < MinDistance`.
   */
  lemma TooCloseIffNearer(a: Pos, b: Pos, dist: real)
    requires dist >= 0.0 && dist * dist == SquaredDistance(a, b)
    ensures TooClose(a, b) <==> dist < MinDistance
  {
    if dist < MinDistance {
      assert dist * dist <= dist * MinDistance;
      assert dist * MinDistance < MinDistance * MinDistance;
      assert SquaredDistance(a, b) < MinDistance * MinDistance;
    } else {
      assert dist * dist >= dist * MinDistance;
      assert dist * MinDistance >= MinDistance * MinDistance;
      assert SquaredDistance(a, b) >= MinDistance * MinDistance;
    }
  }
}
