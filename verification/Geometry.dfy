/** Action envelopes as point sets of the plane, over the reals.

    The engine only needs two facts about envelopes (`Sound`). The second half of the module
    derives them for the envelopes the repository builds: a rectangle grown by the safety margin
    for Pause, and a convex sweep between the two poses for Resume. */
module Geometry {

  datatype Point = Point(x: real, y: real)

  /** Where a robot's centre is, in metres, and how it is turned, in radians. */
  datatype Pose = Pose(x: real, y: real, theta: real)

  type Region = iset<Point>

  /** The geometry library: envelope construction and the closed-set intersection test. */
  datatype Kernel = Kernel(
    footprint: Pose -> Region,
    sweep: (Pose, Pose) -> Region,
    intersects: (Region, Region) -> bool
  )

  /** Boundary contact counts: the regions are closed sets that share a point. */
  ghost predicate Overlap(a: Region, b: Region) {
    exists p :: p in a && p in b
  }

  /** The intersection test is exact, and a sweep covers the footprints at both of its ends. */
  ghost predicate Sound(k: Kernel) {
    && (forall a, b :: k.intersects(a, b) <==> Overlap(a, b))
    && (forall current, next :: k.footprint(current) <= k.sweep(current, next))
    && (forall current, next :: k.footprint(next) <= k.sweep(current, next))
  }

  // ---------------------------------------------------------------- the repository's envelopes

  /** Cosine and sine, of which only the Pythagorean identity is used. */
  datatype Trigonometry = Trigonometry(cos: real -> real, sin: real -> real)

  ghost predicate Pythagorean(t: Trigonometry) {
    forall theta :: t.cos(theta) * t.cos(theta) + t.sin(theta) * t.sin(theta) == 1.0
  }

  /** Half dimensions of a robot, the buffer distance, and half the rectangle's diagonal. */
  datatype Body = Body(halfLength: real, halfWidth: real, margin: real, halfDiagonal: real)

  predicate ValidBody(b: Body) {
    && b.halfLength > 0.0 && b.halfWidth > 0.0 && b.margin >= 0.0 && b.halfDiagonal > 0.0
    && b.halfDiagonal * b.halfDiagonal == b.halfLength * b.halfLength + b.halfWidth * b.halfWidth
  }

  function Abs(x: real): real {
    if x < 0.0 then -x else x
  }

  function Along(d: Point, c: real, s: real): real {
    d.x * c + d.y * s
  }

  function Across(d: Point, c: real, s: real): real {
    d.y * c - d.x * s
  }

  /** The oriented rectangle, tested in the robot's own frame. */
  predicate InRectangle(b: Body, t: Trigonometry, pose: Pose, p: Point) {
    var d := Shift(p, Centre(pose));
    && Abs(Along(d, t.cos(pose.theta), t.sin(pose.theta))) <= b.halfLength
    && Abs(Across(d, t.cos(pose.theta), t.sin(pose.theta))) <= b.halfWidth
  }

  function LengthSquared(d: Point): real {
    d.x * d.x + d.y * d.y
  }

  predicate Near(p: Point, q: Point, distance: real) {
    LengthSquared(Shift(p, q)) <= distance * distance
  }

  /** The rectangle grown by the buffer distance in every direction. */
  ghost predicate InFootprint(b: Body, t: Trigonometry, pose: Pose, p: Point) {
    exists q :: InRectangle(b, t, pose, q) && Near(p, q, b.margin)
  }

  predicate InBox(centre: Point, radius: real, p: Point) {
    Abs(p.x - centre.x) <= radius && Abs(p.y - centre.y) <= radius
  }

  function Mix(p: Point, q: Point, w: real): Point {
    Point((1.0 - w) * p.x + w * q.x, (1.0 - w) * p.y + w * q.y)
  }

  function Centre(pose: Pose): Point {
    Point(pose.x, pose.y)
  }

  /** The convex hull of the union of two convex regions. */
  ghost predicate InHull(a: Region, b: Region, r: Point) {
    exists p, q, w :: IsMix(a, b, r, p, q, w)
  }

  ghost predicate IsMix(a: Region, b: Region, r: Point, p: Point, q: Point, w: real) {
    p in a && q in b && 0.0 <= w <= 1.0 && r == Mix(p, q, w)
  }

  ghost function Footprint(b: Body, t: Trigonometry, pose: Pose): Region {
    iset p | InFootprint(b, t, pose, p)
  }

  function TurningRadius(b: Body): real {
    b.halfDiagonal + b.margin
  }

  ghost function TurningBox(b: Body, pose: Pose): Region {
    iset p | InBox(Centre(pose), TurningRadius(b), p)
  }

  /** The heading difference wraps to zero. */
  predicate SameHeading(t: Trigonometry, a: Pose, b: Pose) {
    t.cos(a.theta) == t.cos(b.theta) && t.sin(a.theta) == t.sin(b.theta)
  }

  /** Unchanged heading: hull of both footprints. Changed heading: hull of two boxes whose half
      size is the circumscribed radius plus the buffer distance. */
  ghost function Sweep(b: Body, t: Trigonometry, current: Pose, next: Pose): Region {
    if SameHeading(t, current, next) then
      iset r | InHull(Footprint(b, t, current), Footprint(b, t, next), r)
    else
      iset r | InHull(TurningBox(b, current), TurningBox(b, next), r)
  }

  lemma SquareBound(d: Point, r: real)
    requires LengthSquared(d) <= r * r && r >= 0.0
    ensures Abs(d.x) <= r && Abs(d.y) <= r
  {
    assert d.x * d.x >= 0.0 && d.y * d.y >= 0.0;
    SquareGrows(d.x, r);
    SquareGrows(d.y, r);
  }

  lemma SquareGrows(x: real, r: real)
    requires r >= 0.0
    ensures Abs(x) > r ==> x * x > r * r
  {
    var a := Abs(x);
    assert a * a == x * x;
    if a > r {
      assert a * a - r * r == (a - r) * (a + r);
      PositiveProduct(a - r, a + r);
    }
  }

  lemma PositiveProduct(u: real, v: real)
    requires u > 0.0 && v > 0.0
    ensures u * v > 0.0
  {
  }

  lemma AbsSquare(x: real, r: real)
    requires Abs(x) <= r
    ensures x * x <= r * r
  {
    var a := Abs(x);
    assert x * x == a * a;
    assert a * a <= a * r;
    assert a * r <= r * r;
  }

  /** Rotation preserves the distance to the centre. */
  lemma RotationKeepsLength(d: Point, c: real, s: real)
    requires c * c + s * s == 1.0
    ensures Along(d, c, s) * Along(d, c, s) + Across(d, c, s) * Across(d, c, s) == LengthSquared(d)
  {
    var (u, v) := (d.x, d.y);
    calc {
      (u * c + v * s) * (u * c + v * s) + (v * c - u * s) * (v * c - u * s);
      u * u * (c * c + s * s) + v * v * (c * c + s * s);
      u * u + v * v;
    }
  }

  /** A point of the rectangle is no further from the centre than half the diagonal. */
  lemma RectangleInBox(b: Body, t: Trigonometry, pose: Pose, q: Point)
    requires ValidBody(b) && Pythagorean(t) && InRectangle(b, t, pose, q)
    ensures InBox(Centre(pose), b.halfDiagonal, q)
  {
    var d := Shift(q, Centre(pose));
    var (c, s) := (t.cos(pose.theta), t.sin(pose.theta));
    AbsSquare(Along(d, c, s), b.halfLength);
    AbsSquare(Across(d, c, s), b.halfWidth);
    RotationKeepsLength(d, c, s);
    SquareBound(d, b.halfDiagonal);
  }

  /** Whatever its heading, a footprint stays inside the turning box around its centre. */
  lemma FootprintInTurningBox(b: Body, t: Trigonometry, pose: Pose)
    requires ValidBody(b) && Pythagorean(t)
    ensures Footprint(b, t, pose) <= TurningBox(b, pose)
  {
    forall p | InFootprint(b, t, pose, p)
      ensures InBox(Centre(pose), TurningRadius(b), p)
    {
      var q :| InRectangle(b, t, pose, q) && Near(p, q, b.margin);
      RectangleInBox(b, t, pose, q);
      SquareBound(Shift(p, q), b.margin);
    }
  }

  function Shift(p: Point, offset: Point): Point {
    Point(p.x - offset.x, p.y - offset.y)
  }

  /** A point that lies on a shape centred between two centres is a mix of the two points that lie
      in the same place relative to each centre. */
  lemma MixOfShifts(from: Point, to: Point, w: real, p: Point)
    ensures var mid := Mix(from, to, w);
            p == Mix(Shift(p, Shift(mid, from)), Shift(p, Shift(mid, to)), w)
  {
  }

  lemma FootprintTranslates(b: Body, t: Trigonometry, pose: Pose, other: Pose, p: Point)
    requires SameHeading(t, pose, other) && p in Footprint(b, t, pose)
    ensures Shift(p, Shift(Centre(pose), Centre(other))) in Footprint(b, t, other)
  {
    var q :| InRectangle(b, t, pose, q) && Near(p, q, b.margin);
    var offset := Shift(Centre(pose), Centre(other));
    assert Shift(Shift(q, offset), Centre(other)) == Shift(q, Centre(pose));
    assert InRectangle(b, t, other, Shift(q, offset));
    assert Shift(Shift(p, offset), Shift(q, offset)) == Shift(p, q);
    assert Near(Shift(p, offset), Shift(q, offset), b.margin);
  }

  /** The sweep contains the robot at every moment of the step: at any centre on the segment
      between the poses, with the common heading if it is unchanged and with any heading whatsoever
      if it changes. */
  lemma SweepCoversMotion(b: Body, t: Trigonometry, current: Pose, next: Pose, w: real, moving: Pose)
    requires ValidBody(b) && Pythagorean(t) && 0.0 <= w <= 1.0
    requires Centre(moving) == Mix(Centre(current), Centre(next), w)
    requires SameHeading(t, current, next) ==> SameHeading(t, moving, current)
    ensures Footprint(b, t, moving) <= Sweep(b, t, current, next)
  {
    forall p | p in Footprint(b, t, moving)
      ensures p in Sweep(b, t, current, next)
    {
      var a := Shift(p, Shift(Centre(moving), Centre(current)));
      var z := Shift(p, Shift(Centre(moving), Centre(next)));
      MixOfShifts(Centre(current), Centre(next), w, p);
      if SameHeading(t, current, next) {
        FootprintTranslates(b, t, moving, current, p);
        FootprintTranslates(b, t, moving, next, p);
        assert IsMix(Footprint(b, t, current), Footprint(b, t, next), p, a, z, w);
      } else {
        FootprintInTurningBox(b, t, moving);
        assert p in TurningBox(b, moving);
        assert a in TurningBox(b, current) && z in TurningBox(b, next);
        assert IsMix(TurningBox(b, current), TurningBox(b, next), p, a, z, w);
      }
    }
  }

  ghost function IdealKernel(b: Body, t: Trigonometry): Kernel {
    Kernel(
      pose => Footprint(b, t, pose),
      (current, next) => Sweep(b, t, current, next),
      (x, y) => Overlap(x, y)
    )
  }

  /** The repository's envelopes meet everything the decision engine relies on. */
  lemma IdealKernelIsSound(b: Body, t: Trigonometry)
    requires ValidBody(b) && Pythagorean(t)
    ensures Sound(IdealKernel(b, t))
  {
    forall current: Pose, next: Pose
      ensures Footprint(b, t, current) <= Sweep(b, t, current, next)
      ensures Footprint(b, t, next) <= Sweep(b, t, current, next)
    {
      SweepCoversMotion(b, t, current, next, 0.0, current);
      SweepCoversMotion(b, t, current, next, 1.0, next);
    }
  }
}
