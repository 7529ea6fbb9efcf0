/** Mesh initialisation: from the circle of interest and the die rectangle,
    the working area of the control lattice, the grid size (Max_C, Max_R)
    and the sixteen initial control points. */
module MeshInit {
  import opened Basics
  import opened Ffd

  /** The circle of interest. */
  datatype Circle = Circle(center: Point, radius: real)

  /** The die-dimension rectangle, normalised so that x1 <= x2 and y1 <= y2
      (the Tk front end stores truncated integer corners, the Qt one floats). */
  datatype Rect = Rect(x1: real, y1: real, x2: real, y2: real)

  function DieWidth(r: Rect): real { r.x2 - r.x1 }
  function DieHeight(r: Rect): real { r.y2 - r.y1 }

  /** The Tk minimum working area, as a fraction of the image side. */
  const DefaultMargin: real := 0.05

  /** Where the lattice starts along one axis and how far it extends. */
  datatype Span = Span(offset: real, extent: real)

  /** The working span along one axis of an image side `size`: from the
      circle's near edge (or the image edge) to its far edge (or the image
      edge). The Tk front end replaces an extent below 5% of the side by 90%
      of it; the Qt one has no fallback. */
  function WorkingSpan(v: Frontend, size: real, center: real, radius: real): Span {
    var near := center - radius;
    var far := size - (center + radius);
    var extent := size - MaxR(0.0, near) - MaxR(0.0, far);
    if v == Tk && extent < size * DefaultMargin
    then Span(MaxR(0.0, near), size * (1.0 - 2.0 * DefaultMargin))
    else Span(MaxR(0.0, near), extent)
  }

  /** A circle lying inside the image side: the span is its diameter, so the
      lattice hugs the circle's bounding box (for Tk, unless the circle is
      tiny). */
  lemma SpanHugsInnerCircle(v: Frontend, size: real, center: real, radius: real)
    requires 0.0 <= center - radius && center + radius <= size
    requires v == Tk ==> 2.0 * radius >= size * DefaultMargin
    ensures WorkingSpan(v, size, center, radius) == Span(center - radius, 2.0 * radius)
  {
  }

  /** A circle that covers the whole image side: the span is the whole side. */
  lemma SpanOfCoveringCircle(v: Frontend, size: real, center: real, radius: real)
    requires 0.0 < size && center - radius <= 0.0 && size <= center + radius
    ensures WorkingSpan(v, size, center, radius) == Span(0.0, size)
  {
  }

  /** The Tk span always has an extent of at least 5% of the side, and it
      starts inside the image whenever the circle's near edge does. */
  lemma TkSpanExtentBounded(size: real, center: real, radius: real)
    requires 0.0 <= size && 0.0 <= radius
    ensures WorkingSpan(Tk, size, center, radius).extent >= size * DefaultMargin
    ensures WorkingSpan(Tk, size, center, radius).offset >= 0.0
    ensures center - radius <= size ==> WorkingSpan(Tk, size, center, radius).offset <= size
  {
  }

  /** `math.ceil(extent / die)`, then `if Max_C == 0: Max_C = 1`, as both
      front ends write it. */
  function GridCountAsWritten(extent: real, die: real): int
    requires die != 0.0
  {
    var n := Ceil(extent / die);
    if n == 0 then 1 else n
  }

  /** The grid size along one axis with the evidently intended "at least one
      die" floor. */
  function GridCount(extent: real, die: real): (n: int)
    requires die != 0.0
    ensures n >= 1
  {
    MaxI(1, Ceil(extent / die))
  }

  /** Whenever the extent is positive, GridCount dies cover it and one fewer
      would not. */
  lemma GridCountCovers(extent: real, die: real)
    requires die > 0.0 && extent > 0.0
    ensures GridCount(extent, die) as real * die >= extent
    ensures (GridCount(extent, die) - 1) as real * die < extent
  {
    var q := extent / die;
    var n := Ceil(q);
    assert q > 0.0;
    assert n >= 1;
    assert q * die == extent;
    MulMonotone(q, n as real, die);
    MulStrict((n - 1) as real, q, die);
  }

  lemma MulMonotone(a: real, b: real, d: real)
    requires a <= b && 0.0 < d
    ensures a * d <= b * d
  {
    assert b * d - a * d == (b - a) * d;
  }

  lemma MulStrict(a: real, b: real, d: real)
    requires a < b && 0.0 < d
    ensures a * d < b * d
  {
    assert b * d - a * d == (b - a) * d;
  }

  /** For a non-negative extent and a positive die size the written floor and
      the intended one agree, so the Tk front end, whose fallback keeps the
      extent non-negative, is not affected. */
  lemma GridCountAgreesOnNonNegative(extent: real, die: real)
    requires die > 0.0 && extent >= 0.0
    ensures GridCountAsWritten(extent, die) == GridCount(extent, die)
  {
    assert extent / die >= 0.0;
  }

  /** The Qt span has no fallback: a circle lying wholly past the right edge
      of an 800-pixel image gives the extent -100, and with 100-pixel dies the
      written floor leaves Max_C at -1 (no column at all). */
  lemma QtGridCountGoesNegative()
    ensures WorkingSpan(Qt, 800.0, 1000.0, 100.0).extent == -100.0
    ensures GridCountAsWritten(WorkingSpan(Qt, 800.0, 1000.0, 100.0).extent, 100.0) == -1
    ensures GridCount(WorkingSpan(Qt, 800.0, 1000.0, 100.0).extent, 100.0) == 1
  {
    assert Ceil(-1.0) == -1;
  }

  /** Control point (k, l) of the initial lattice: `offset + (index / 3) *
      extent` on each axis. */
  function LatticePoint(xs: Span, ys: Span, k: int, l: int): Point {
    Point(xs.offset + (k as real / (ScpSize as real - 1.0)) * xs.extent,
          ys.offset + (l as real / (ScpSize as real - 1.0)) * ys.extent)
  }

  /** The sixteen initial control points, evenly spaced over the working area. */
  function InitialLattice(xs: Span, ys: Span): (scp: map<Cell, Point>)
    ensures FullLattice(scp)
  {
    map k | k in LatticeKeys() :: LatticePoint(xs, ys, k.0, k.1)
  }

  /** The corner control points sit at the corners of the working area. */
  lemma InitialLatticeCorners(xs: Span, ys: Span)
    ensures InitialLattice(xs, ys)[(0, 0)] == Point(xs.offset, ys.offset)
    ensures InitialLattice(xs, ys)[(NumPatches, NumPatches)] == Point(xs.offset + xs.extent, ys.offset + ys.extent)
  {
    assert (0, 0) in LatticeKeys() && (NumPatches, NumPatches) in LatticeKeys();
  }

  /** Neighbouring control points of one lattice row are a third of the
      horizontal extent apart. */
  lemma InitialLatticeColumnSpacing(xs: Span, ys: Span, k: int, l: int)
    requires 0 <= k < NumPatches && 0 <= l < ScpSize
    ensures (k, l) in InitialLattice(xs, ys) && (k + 1, l) in InitialLattice(xs, ys)
    ensures InitialLattice(xs, ys)[(k + 1, l)].x - InitialLattice(xs, ys)[(k, l)].x == xs.extent / 3.0
    ensures InitialLattice(xs, ys)[(k + 1, l)].y == InitialLattice(xs, ys)[(k, l)].y
  {
    assert (k, l) in LatticeKeys() && (k + 1, l) in LatticeKeys();
    ThirdStep(k, xs.extent);
  }

  /** Neighbouring control points of one lattice column are a third of the
      vertical extent apart. */
  lemma InitialLatticeRowSpacing(xs: Span, ys: Span, k: int, l: int)
    requires 0 <= k < ScpSize && 0 <= l < NumPatches
    ensures (k, l) in InitialLattice(xs, ys) && (k, l + 1) in InitialLattice(xs, ys)
    ensures InitialLattice(xs, ys)[(k, l + 1)].y - InitialLattice(xs, ys)[(k, l)].y == ys.extent / 3.0
    ensures InitialLattice(xs, ys)[(k, l + 1)].x == InitialLattice(xs, ys)[(k, l)].x
  {
    assert (k, l) in LatticeKeys() && (k, l + 1) in LatticeKeys();
    ThirdStep(l, ys.extent);
  }

  lemma ThirdStep(k: int, e: real)
    ensures (k + 1) as real / (ScpSize as real - 1.0) * e - k as real / (ScpSize as real - 1.0) * e == e / 3.0
  {
  }

  /** Why initialisation did not build a mesh. */
  datatype InitError =
    | NoCircle          // the circle of interest is not defined
    | NoRectangle       // the die rectangle is not defined
    | DivisionByZero    // Tk: a zero die side raises ZeroDivisionError in math.ceil's argument
    | ZeroDieSide       // Qt: a zero die side makes the initialisation return False

  /** A freshly initialised mesh. */
  datatype Mesh = Mesh(maxC: int, maxR: int, scp: map<Cell, Point>)

  datatype InitOutcome = Built(mesh: Mesh) | Failed(error: InitError)

  /** Whether the front end considers the circle defined: Tk tests the radius
      against None, Qt tests its truthiness, so a zero radius counts as
      missing there. */
  predicate HasCircle(v: Frontend, circle: Option<Circle>) {
    circle.Some? && (v == Qt ==> circle.value.radius != 0.0)
  }

  /** Whether a front end considers the die rectangle defined: Tk tests it
      against None, Qt tests `QRectF` truthiness, which is false for a
      rectangle with zero width and height (a press and release at one
      point). */
  predicate HasRectangle(v: Frontend, rect: Option<Rect>) {
    rect.Some? && (v == Qt ==> !(DieWidth(rect.value) == 0.0 && DieHeight(rect.value) == 0.0))
  }

  /** `_initialize_ffd_mesh` on an image of size width x height, with the
      evidently intended grid floor of GridCount. */
  function InitializeMesh(v: Frontend, width: real, height: real,
                          circle: Option<Circle>, rect: Option<Rect>): (out: InitOutcome)
    ensures out.Built? ==>
              HasCircle(v, circle) && HasRectangle(v, rect) && DieWidth(rect.value) != 0.0 && DieHeight(rect.value) != 0.0
    ensures out.Built? ==> out.mesh.maxC >= 1 && out.mesh.maxR >= 1 && FullLattice(out.mesh.scp)
  {
    if !HasCircle(v, circle) then Failed(NoCircle)
    else if !HasRectangle(v, rect) then Failed(NoRectangle)
    else if DieWidth(rect.value) == 0.0 || DieHeight(rect.value) == 0.0 then
      Failed(if v == Tk then DivisionByZero else ZeroDieSide)
    else
      var c := circle.value;
      var xs := WorkingSpan(v, width, c.center.x, c.radius);
      var ys := WorkingSpan(v, height, c.center.y, c.radius);
      Built(Mesh(GridCount(xs.extent, DieWidth(rect.value)), GridCount(ys.extent, DieHeight(rect.value)),
                 InitialLattice(xs, ys)))
  }

  /** Initialisation fails exactly when the circle or the rectangle is
      missing or a die side is zero, each with its own error. */
  lemma InitializeMeshFailures(v: Frontend, width: real, height: real, circle: Option<Circle>, rect: Option<Rect>)
    ensures InitializeMesh(v, width, height, circle, rect).Failed? <==>
            !HasCircle(v, circle) || !HasRectangle(v, rect) || DieWidth(rect.value) == 0.0 || DieHeight(rect.value) == 0.0
    ensures InitializeMesh(v, width, height, circle, rect) == Failed(NoCircle) <==> !HasCircle(v, circle)
    ensures InitializeMesh(v, width, height, circle, rect) == Failed(NoRectangle) <==> HasCircle(v, circle) && !HasRectangle(v, rect)
    ensures InitializeMesh(v, width, height, circle, rect) == Failed(if v == Tk then DivisionByZero else ZeroDieSide) <==>
            HasCircle(v, circle) && HasRectangle(v, rect) && (DieWidth(rect.value) == 0.0 || DieHeight(rect.value) == 0.0)
  {
  }

  /** A circle lying inside a positive image, not tiny, with dies of positive
      size: the lattice spans the circle's bounding box, from control point
      (0, 0) at its top-left corner to (3, 3) at its bottom-right corner, with
      as many dies per axis as cover the diameter (GridCountCovers). */
  lemma InitialMeshHugsCircle(v: Frontend, width: real, height: real, c: Circle, rect: Rect)
    requires 0.0 < c.radius
    requires 0.0 <= c.center.x - c.radius && c.center.x + c.radius <= width
    requires 0.0 <= c.center.y - c.radius && c.center.y + c.radius <= height
    requires v == Tk ==> 2.0 * c.radius >= width * DefaultMargin && 2.0 * c.radius >= height * DefaultMargin
    requires DieWidth(rect) > 0.0 && DieHeight(rect) > 0.0
    ensures InitializeMesh(v, width, height, Some(c), Some(rect)).Built?
    ensures var m := InitializeMesh(v, width, height, Some(c), Some(rect)).mesh;
            && m.scp == InitialLattice(Span(c.center.x - c.radius, 2.0 * c.radius), Span(c.center.y - c.radius, 2.0 * c.radius))
            && m.scp[(0, 0)] == Point(c.center.x - c.radius, c.center.y - c.radius)
            && m.scp[(NumPatches, NumPatches)] == Point(c.center.x + c.radius, c.center.y + c.radius)
            && m.maxC == GridCount(2.0 * c.radius, DieWidth(rect))
            && m.maxR == GridCount(2.0 * c.radius, DieHeight(rect))
  {
    var xs := WorkingSpan(v, width, c.center.x, c.radius);
    var ys := WorkingSpan(v, height, c.center.y, c.radius);
    SpanHugsInnerCircle(v, width, c.center.x, c.radius);
    SpanHugsInnerCircle(v, height, c.center.y, c.radius);
    assert xs == Span(c.center.x - c.radius, 2.0 * c.radius);
    assert ys == Span(c.center.y - c.radius, 2.0 * c.radius);
    var m := InitializeMesh(v, width, height, Some(c), Some(rect)).mesh;
    assert m == Mesh(GridCount(xs.extent, DieWidth(rect)), GridCount(ys.extent, DieHeight(rect)), InitialLattice(xs, ys));
    InitialLatticeCorners(xs, ys);
  }

  /** Whatever the circle, the Tk grid counts agree with the written floor. */
  lemma TkInitialMeshAsWritten(width: real, height: real, c: Circle, rect: Rect)
    requires 0.0 <= width && 0.0 <= height && 0.0 <= c.radius
    requires DieWidth(rect) > 0.0 && DieHeight(rect) > 0.0
    ensures var out := InitializeMesh(Tk, width, height, Some(c), Some(rect));
            && out.Built?
            && out.mesh.maxC == GridCountAsWritten(WorkingSpan(Tk, width, c.center.x, c.radius).extent, DieWidth(rect))
            && out.mesh.maxR == GridCountAsWritten(WorkingSpan(Tk, height, c.center.y, c.radius).extent, DieHeight(rect))
  {
    TkSpanExtentBounded(width, c.center.x, c.radius);
    TkSpanExtentBounded(height, c.center.y, c.radius);
    GridCountAgreesOnNonNegative(WorkingSpan(Tk, width, c.center.x, c.radius).extent, DieWidth(rect));
    GridCountAgreesOnNonNegative(WorkingSpan(Tk, height, c.center.y, c.radius).extent, DieHeight(rect));
  }
}
