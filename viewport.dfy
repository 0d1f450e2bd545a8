/**
 * The camera-driven parts of the client: the level of detail chosen from the
 * camera's height above the plane, and the padded rectangle of the plane the
 * camera sees. The camera is a perspective camera looking straight down the
 * z axis; `tan(fov / 2)` is taken as an input, since the trigonometry and the
 * degree-to-radian conversion are floating point.
 */
module Viewport {
  import opened Planar

  /** What the viewport computation reads from the camera. */
  datatype Camera = Camera(x: real, y: real, z: real, tanHalfFov: real, aspect: real)

  /** The three levels of detail, numbered 0, 1 and 2 as in the client. */
  datatype Level = Full | Medium | Low

  function Rank(l: Level): nat
  {
    match l
    case Full => 0
    case Medium => 1
    case Low => 2
  }

  const LowAbove: real := 15.0
  const MediumAbove: real := 8.0

  /** The level of detail for a camera at height `z`. */
  function LevelFor(z: real): (l: Level)
    ensures l == Low <==> z > LowAbove
    ensures l == Medium <==> MediumAbove < z <= LowAbove
    ensures l == Full <==> z <= MediumAbove
  {
    if z > LowAbove then Low else if z > MediumAbove then Medium else Full
  }

  /** Moving the camera further away never increases the detail. */
  lemma LevelMonotone(z1: real, z2: real)
    requires z1 <= z2
    ensures Rank(LevelFor(z1)) <= Rank(LevelFor(z2))
  {
  }

  function Abs(r: real): real
  {
    if r < 0.0 then -r else r
  }

  function Max(a: real, b: real): real
  {
    if a < b then b else a
  }

  /** Height and width of the visible rectangle at the camera's distance from the plane. */
  function FrameHeight(cam: Camera): real
  {
    2.0 * cam.tanHalfFov * Abs(cam.z)
  }

  function FrameWidth(cam: Camera): real
  {
    FrameHeight(cam) * cam.aspect
  }

  /** The padding added on every side: a tenth of the larger frame dimension. */
  function Padding(cam: Camera): real
  {
    Max(FrameWidth(cam), FrameHeight(cam)) * 0.1
  }

  /**
   * The viewport box: the frame centred on the camera's (x, y), grown by the
   * padding on all four sides.
   */
  function ViewportBounds(cam: Camera): (b: Box)
    ensures (b.min.x + b.max.x) / 2.0 == cam.x && (b.min.y + b.max.y) / 2.0 == cam.y
    ensures b.max.x - b.min.x == FrameWidth(cam) + 2.0 * Padding(cam)
    ensures b.max.y - b.min.y == FrameHeight(cam) + 2.0 * Padding(cam)
  {
    var w, h, pad := FrameWidth(cam), FrameHeight(cam), Padding(cam);
    Box(Point(cam.x - w / 2.0 - pad, cam.y - h / 2.0 - pad),
        Point(cam.x + w / 2.0 + pad, cam.y + h / 2.0 + pad))
  }

  /** With a non-negative field of view and aspect ratio the box is well formed and contains the camera's foot point. */
  lemma ViewportWellFormed(cam: Camera)
    requires cam.tanHalfFov >= 0.0 && cam.aspect >= 0.0
    ensures var b := ViewportBounds(cam);
      b.min.x <= b.max.x && b.min.y <= b.max.y && ContainsPoint(b, Point(cam.x, cam.y))
  {
    var h := FrameHeight(cam);
    assert h >= 0.0;
    assert FrameWidth(cam) >= 0.0;
  }

  lemma ScaleMonotone(k: real, a: real, b: real)
    requires k >= 0.0 && a <= b
    ensures k * a <= k * b
  {
    assert k * b - k * a == k * (b - a);
  }

  /** Half-extents of the viewport box along each axis. */
  lemma ViewportExtents(cam: Camera)
    ensures var b := ViewportBounds(cam);
      && b.min.x == cam.x - (FrameWidth(cam) / 2.0 + Padding(cam))
      && b.max.x == cam.x + (FrameWidth(cam) / 2.0 + Padding(cam))
      && b.min.y == cam.y - (FrameHeight(cam) / 2.0 + Padding(cam))
      && b.max.y == cam.y + (FrameHeight(cam) / 2.0 + Padding(cam))
  {
  }

  /** A higher camera has a larger frame and a larger padding. */
  lemma FrameGrows(cam: Camera, z2: real)
    requires cam.tanHalfFov >= 0.0 && cam.aspect >= 0.0
    requires Abs(cam.z) <= Abs(z2)
    ensures FrameHeight(cam) <= FrameHeight(cam.(z := z2))
    ensures FrameWidth(cam) <= FrameWidth(cam.(z := z2))
    ensures Padding(cam) <= Padding(cam.(z := z2))
  {
    var cam2 := cam.(z := z2);
    var h1, h2 := FrameHeight(cam), FrameHeight(cam2);
    ScaleMonotone(2.0 * cam.tanHalfFov, Abs(cam.z), Abs(z2));
    ScaleMonotone(cam.aspect, h1, h2);
  }

  /** Growing both half-extents of a box about the same centre keeps every point it contained. */
  lemma WiderBox(cx: real, cy: real, hx1: real, hy1: real, hx2: real, hy2: real, p: Point)
    requires hx1 <= hx2 && hy1 <= hy2
    requires ContainsPoint(Box(Point(cx - hx1, cy - hy1), Point(cx + hx1, cy + hy1)), p)
    ensures ContainsPoint(Box(Point(cx - hx2, cy - hy2), Point(cx + hx2, cy + hy2)), p)
  {
  }

  /**
   * Raising the camera (same place, same lens) only grows the viewport: every
   * point seen from the lower position is still seen from the higher one.
   */
  lemma ViewportGrowsWithHeight(cam: Camera, z2: real, p: Point)
    requires cam.tanHalfFov >= 0.0 && cam.aspect >= 0.0
    requires Abs(cam.z) <= Abs(z2)
    requires ContainsPoint(ViewportBounds(cam), p)
    ensures ContainsPoint(ViewportBounds(cam.(z := z2)), p)
  {
    var cam2 := cam.(z := z2);
    FrameGrows(cam, z2);
    ViewportExtents(cam);
    ViewportExtents(cam2);
    WiderBox(cam.x, cam.y, FrameWidth(cam) / 2.0 + Padding(cam), FrameHeight(cam) / 2.0 + Padding(cam),
             FrameWidth(cam2) / 2.0 + Padding(cam2), FrameHeight(cam2) / 2.0 + Padding(cam2), p);
  }
}
