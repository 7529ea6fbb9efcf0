/** Free-form deformation: a 4 x 4 lattice of control points is blended
    bilinearly into one image point per grid node (C, R), 0 <= C <= Max_C,
    0 <= R <= Max_R, and a commit turns the node table into one quadrilateral
    and centre per die cell, 0 <= C < Max_C, 0 <= R < Max_R. */
module Ffd {
  import opened Basics

  const ScpSize := 4
  const NumPatches := ScpSize - 1

  /** The sixteen keys (C_s, R_s) of a fully initialised control lattice. */
  function LatticeKeys(): set<Cell> {
    set cs, rs | 0 <= cs < ScpSize && 0 <= rs < ScpSize :: (cs, rs)
  }

  predicate FullLattice(scp: map<Cell, Point>) {
    scp.Keys == LatticeKeys()
  }

  /** A full lattice has a control point, (0, 0) among them. */
  lemma FullLatticeNotEmpty(scp: map<Cell, Point>)
    requires FullLattice(scp)
    ensures scp != map[] && (0, 0) in scp
  {
    assert (0, 0) in LatticeKeys();
  }

  /** Python's `d.get(k, default)`. */
  function Get(m: map<Cell, Point>, k: Cell, default: Point): Point {
    if k in m then m[k] else default
  }

  // ---------------------------------------------------------------------------
  // The interpolation of one node

  /** `(C / Max_C if Max_C > 0 else 0) * num_patches`. */
  function PatchCoord(c: int, maxC: int): real {
    (if maxC > 0 then c as real / maxC as real else 0.0) * NumPatches as real
  }

  /** `min(num_patches - 1, int(C_s_float))`. */
  function PatchIndex(c: int, maxC: int): int {
    MinI(NumPatches - 1, Trunc(PatchCoord(c, maxC)))
  }

  function Clamp01(x: real): real { MaxR(0.0, MinR(1.0, x)) }

  /** The local fraction inside the patch; the Tk front end clamps it to
      [0, 1], the Qt one does not. */
  function LocalFraction(v: Frontend, c: int, maxC: int): real {
    var f := PatchCoord(c, maxC) - PatchIndex(c, maxC) as real;
    if v == Tk then Clamp01(f) else f
  }

  /** The fallback value of each of the four `.get` lookups: the Tk front end
      falls back on the image corners, the Qt one on (0, 0). */
  function Fallback(v: Frontend, dc: int, dr: int, width: real, height: real): Point {
    if v == Qt then Origin
    else Point(if dc == 0 then 0.0 else width, if dr == 0 then 0.0 else height)
  }

  /** The four control points of the patch that node (c, r) falls in. */
  function PatchCorner(v: Frontend, scp: map<Cell, Point>, width: real, height: real,
                       maxC: int, maxR: int, c: int, r: int, dc: int, dr: int): Point
  {
    Get(scp, (PatchIndex(c, maxC) + dc, PatchIndex(r, maxR) + dr), Fallback(v, dc, dr, width, height))
  }

  /** The image point of grid node (c, r): blend across (u_local), then down
      (v_local). */
  function Interpolate(v: Frontend, scp: map<Cell, Point>, width: real, height: real,
                       maxC: int, maxR: int, c: int, r: int): Point
  {
    var lu := LocalFraction(v, c, maxC);
    var lv := LocalFraction(v, r, maxR);
    var top := Lerp(PatchCorner(v, scp, width, height, maxC, maxR, c, r, 0, 0),
                    PatchCorner(v, scp, width, height, maxC, maxR, c, r, 1, 0), lu);
    var bottom := Lerp(PatchCorner(v, scp, width, height, maxC, maxR, c, r, 0, 1),
                       PatchCorner(v, scp, width, height, maxC, maxR, c, r, 1, 1), lu);
    Lerp(top, bottom, lv)
  }

  /** For a node inside the grid the patch index is one of the three patches
      and the unclamped local fraction already lies in [0, 1]. */
  lemma PatchIndexInRange(c: int, maxC: int)
    requires 1 <= maxC && 0 <= c <= maxC
    ensures 0 <= PatchIndex(c, maxC) <= NumPatches - 1
    ensures 0.0 <= PatchCoord(c, maxC) - PatchIndex(c, maxC) as real <= 1.0
  {
    var u := c as real / maxC as real;
    assert 0.0 <= u <= 1.0 by {
      assert u * maxC as real == c as real;
    }
    var f := PatchCoord(c, maxC);
    assert f == u * 3.0;
    assert 0.0 <= f <= 3.0;
  }

  /** The Tk clamp is a no-op: both front ends compute the same fraction. */
  lemma ClampIsNoOp(c: int, maxC: int)
    requires 1 <= maxC && 0 <= c <= maxC
    ensures LocalFraction(Tk, c, maxC) == LocalFraction(Qt, c, maxC)
    ensures 0.0 <= LocalFraction(Qt, c, maxC) <= 1.0
  {
    PatchIndexInRange(c, maxC);
  }

  /** Every lookup of a node inside the grid hits a key of a full lattice, so
      neither front end ever uses its fallback point. */
  lemma PatchCornersPresent(scp: map<Cell, Point>, maxC: int, maxR: int, c: int, r: int, dc: int, dr: int)
    requires FullLattice(scp)
    requires 1 <= maxC && 0 <= c <= maxC && 1 <= maxR && 0 <= r <= maxR
    requires 0 <= dc <= 1 && 0 <= dr <= 1
    ensures (PatchIndex(c, maxC) + dc, PatchIndex(r, maxR) + dr) in scp
  {
    PatchIndexInRange(c, maxC);
    PatchIndexInRange(r, maxR);
    var k := (PatchIndex(c, maxC) + dc, PatchIndex(r, maxR) + dr);
    assert k in LatticeKeys();
  }

  /** On a full lattice the two front ends interpolate every node alike. */
  lemma FrontendsInterpolateAlike(scp: map<Cell, Point>, width: real, height: real,
                                  maxC: int, maxR: int, c: int, r: int)
    requires FullLattice(scp)
    requires 1 <= maxC && 0 <= c <= maxC && 1 <= maxR && 0 <= r <= maxR
    ensures Interpolate(Tk, scp, width, height, maxC, maxR, c, r)
         == Interpolate(Qt, scp, width, height, maxC, maxR, c, r)
  {
    ClampIsNoOp(c, maxC);
    ClampIsNoOp(r, maxR);
    PatchCornersPresent(scp, maxC, maxR, c, r, 0, 0);
    PatchCornersPresent(scp, maxC, maxR, c, r, 1, 0);
    PatchCornersPresent(scp, maxC, maxR, c, r, 0, 1);
    PatchCornersPresent(scp, maxC, maxR, c, r, 1, 1);
  }

  /** A node whose normalised coordinates land exactly on lattice line k
      (column) and l (row) reproduces control point (k, l). */
  lemma {:induction false} InterpolateAtLatticeNode(v: Frontend, scp: map<Cell, Point>, width: real, height: real,
                                                    maxC: int, maxR: int, c: int, r: int, k: int, l: int)
    requires FullLattice(scp)
    requires 1 <= maxC && 0 <= c <= maxC && 1 <= maxR && 0 <= r <= maxR
    requires 0 <= k <= NumPatches && 0 <= l <= NumPatches
    requires NumPatches * c == k * maxC && NumPatches * r == l * maxR
    ensures (k, l) in scp
    ensures Interpolate(v, scp, width, height, maxC, maxR, c, r) == scp[(k, l)]
  {
    assert (k, l) in LatticeKeys();
    OnLatticeLine(c, maxC, k);
    OnLatticeLine(r, maxR, l);
    ClampIsNoOp(c, maxC);
    ClampIsNoOp(r, maxR);
    var cs, rs := PatchIndex(c, maxC), PatchIndex(r, maxR);
    var lu, lv := LocalFraction(v, c, maxC), LocalFraction(v, r, maxR);
    PatchCornersPresent(scp, maxC, maxR, c, r, 0, 0);
    PatchCornersPresent(scp, maxC, maxR, c, r, 1, 0);
    PatchCornersPresent(scp, maxC, maxR, c, r, 0, 1);
    PatchCornersPresent(scp, maxC, maxR, c, r, 1, 1);
    var top := Lerp(scp[(cs, rs)], scp[(cs + 1, rs)], lu);
    var bottom := Lerp(scp[(cs, rs + 1)], scp[(cs + 1, rs + 1)], lu);
    assert top == scp[(k, rs)] && bottom == scp[(k, rs + 1)] by {
      if k < NumPatches { LerpEnds(scp[(cs, rs)], scp[(cs + 1, rs)]); LerpEnds(scp[(cs, rs + 1)], scp[(cs + 1, rs + 1)]); }
      else { LerpEnds(scp[(cs, rs)], scp[(cs + 1, rs)]); LerpEnds(scp[(cs, rs + 1)], scp[(cs + 1, rs + 1)]); }
    }
    LerpEnds(top, bottom);
  }

  /** A blend with weight 0 or 1 returns an end point exactly. */
  lemma LerpEnds(p: Point, q: Point)
    ensures Lerp(p, q, 0.0) == p && Lerp(p, q, 1.0) == q
  {
  }

  /** On lattice line k the patch index is k (or 2 for the last line) and the
      local fraction is 0 (or 1 for the last line). */
  lemma OnLatticeLine(c: int, maxC: int, k: int)
    requires 1 <= maxC && 0 <= c <= maxC && 0 <= k <= NumPatches
    requires NumPatches * c == k * maxC
    ensures PatchCoord(c, maxC) == k as real
    ensures k < NumPatches ==> PatchIndex(c, maxC) == k && LocalFraction(Qt, c, maxC) == 0.0
    ensures k == NumPatches ==> PatchIndex(c, maxC) == k - 1 && LocalFraction(Qt, c, maxC) == 1.0
  {
    CastProduct(k, maxC);
    QuotientTimesPatches(c as real, maxC as real, k as real);
  }

  lemma CastProduct(a: int, b: int)
    ensures (a * b) as real == a as real * b as real
  {
  }

  /** From `3 c == k m` with m > 0: `(c / m) * 3 == k`. */
  lemma QuotientTimesPatches(c: real, m: real, k: real)
    requires m > 0.0 && 3.0 * c == k * m
    ensures (c / m) * 3.0 == k
  {
    var u := c / m;
    assert u * m == c;
    assert (u * 3.0) * m == k * m;
    CancelPositive(u * 3.0, k, m);
  }

  lemma CancelPositive(a: real, b: real, m: real)
    requires m > 0.0 && a * m == b * m
    ensures a == b
  {
    assert (a - b) * m == 0.0;
  }

  /** The first grid node is control point (0, 0) and the last one is control
      point (3, 3). */
  lemma InterpolateCorners(v: Frontend, scp: map<Cell, Point>, width: real, height: real, maxC: int, maxR: int)
    requires FullLattice(scp) && 1 <= maxC && 1 <= maxR
    ensures (0, 0) in scp && (NumPatches, NumPatches) in scp
    ensures Interpolate(v, scp, width, height, maxC, maxR, 0, 0) == scp[(0, 0)]
    ensures Interpolate(v, scp, width, height, maxC, maxR, maxC, maxR) == scp[(NumPatches, NumPatches)]
  {
    InterpolateAtLatticeNode(v, scp, width, height, maxC, maxR, 0, 0, 0, 0);
    InterpolateAtLatticeNode(v, scp, width, height, maxC, maxR, maxC, maxR, NumPatches, NumPatches);
  }

  /** `w00 a + w10 b + w01 c + w11 d`. */
  function Weighted(w00: real, w10: real, w01: real, w11: real, a: real, b: real, c: real, d: real): real {
    w00 * a + w10 * b + w01 * c + w11 * d
  }

  /** `w00 p00 + w10 p10 + w01 p01 + w11 p11`. */
  function Blend4(w00: real, w10: real, w01: real, w11: real,
                  p00: Point, p10: Point, p01: Point, p11: Point): Point
  {
    Point(Weighted(w00, w10, w01, w11, p00.x, p10.x, p01.x, p11.x),
          Weighted(w00, w10, w01, w11, p00.y, p10.y, p01.y, p11.y))
  }

  /** The lattice key of corner (dc, dr) of the patch node (c, r) falls in. */
  function PatchKey(c: int, maxC: int, r: int, maxR: int, dc: int, dr: int): Cell {
    (PatchIndex(c, maxC) + dc, PatchIndex(r, maxR) + dr)
  }

  /** On a full lattice a node is the bilinear blend of its own patch's four
      control points, with both local fractions in [0, 1]. */
  lemma InterpolateOnFullLattice(v: Frontend, scp: map<Cell, Point>, width: real, height: real,
                                 maxC: int, maxR: int, c: int, r: int)
    requires FullLattice(scp)
    requires 1 <= maxC && 0 <= c <= maxC && 1 <= maxR && 0 <= r <= maxR
    ensures PatchKey(c, maxC, r, maxR, 0, 0) in scp && PatchKey(c, maxC, r, maxR, 1, 0) in scp
    ensures PatchKey(c, maxC, r, maxR, 0, 1) in scp && PatchKey(c, maxC, r, maxR, 1, 1) in scp
    ensures 0.0 <= LocalFraction(v, c, maxC) <= 1.0 && 0.0 <= LocalFraction(v, r, maxR) <= 1.0
    ensures Interpolate(v, scp, width, height, maxC, maxR, c, r)
         == Lerp(Lerp(scp[PatchKey(c, maxC, r, maxR, 0, 0)], scp[PatchKey(c, maxC, r, maxR, 1, 0)], LocalFraction(v, c, maxC)),
                 Lerp(scp[PatchKey(c, maxC, r, maxR, 0, 1)], scp[PatchKey(c, maxC, r, maxR, 1, 1)], LocalFraction(v, c, maxC)),
                 LocalFraction(v, r, maxR))
  {
    ClampIsNoOp(c, maxC);
    ClampIsNoOp(r, maxR);
    PatchCornersPresent(scp, maxC, maxR, c, r, 0, 0);
    PatchCornersPresent(scp, maxC, maxR, c, r, 1, 0);
    PatchCornersPresent(scp, maxC, maxR, c, r, 0, 1);
    PatchCornersPresent(scp, maxC, maxR, c, r, 1, 1);
  }

  /** Every interpolated node lies in the bounding box of the four control
      points of its patch (with InterpolateOnFullLattice and BilinearPoint: it
      is their convex combination). */
  lemma InterpolateIsConvex(v: Frontend, scp: map<Cell, Point>, width: real, height: real,
                            maxC: int, maxR: int, c: int, r: int)
    requires FullLattice(scp)
    requires 1 <= maxC && 0 <= c <= maxC && 1 <= maxR && 0 <= r <= maxR
    ensures PatchKey(c, maxC, r, maxR, 0, 0) in scp && PatchKey(c, maxC, r, maxR, 1, 0) in scp
    ensures PatchKey(c, maxC, r, maxR, 0, 1) in scp && PatchKey(c, maxC, r, maxR, 1, 1) in scp
    ensures var p00, p10 := scp[PatchKey(c, maxC, r, maxR, 0, 0)], scp[PatchKey(c, maxC, r, maxR, 1, 0)];
            var p01, p11 := scp[PatchKey(c, maxC, r, maxR, 0, 1)], scp[PatchKey(c, maxC, r, maxR, 1, 1)];
            var lu, lv := LocalFraction(v, c, maxC), LocalFraction(v, r, maxR);
            var p := Interpolate(v, scp, width, height, maxC, maxR, c, r);
            && 0.0 <= lu <= 1.0 && 0.0 <= lv <= 1.0
            && MinR(MinR(p00.x, p10.x), MinR(p01.x, p11.x)) <= p.x <= MaxR(MaxR(p00.x, p10.x), MaxR(p01.x, p11.x))
            && MinR(MinR(p00.y, p10.y), MinR(p01.y, p11.y)) <= p.y <= MaxR(MaxR(p00.y, p10.y), MaxR(p01.y, p11.y))
  {
    InterpolateOnFullLattice(v, scp, width, height, maxC, maxR, c, r);
    BilinearPoint(scp[PatchKey(c, maxC, r, maxR, 0, 0)], scp[PatchKey(c, maxC, r, maxR, 1, 0)],
                  scp[PatchKey(c, maxC, r, maxR, 0, 1)], scp[PatchKey(c, maxC, r, maxR, 1, 1)],
                  LocalFraction(v, c, maxC), LocalFraction(v, r, maxR));
  }

  /** A bilinear blend of four points with fractions in [0, 1] is the convex
      combination with weights (1-u)(1-v), u(1-v), (1-u)v, uv, and lies in the
      four points' bounding box. */
  lemma BilinearPoint(p00: Point, p10: Point, p01: Point, p11: Point, lu: real, lv: real)
    requires 0.0 <= lu <= 1.0 && 0.0 <= lv <= 1.0
    ensures var p := Lerp(Lerp(p00, p10, lu), Lerp(p01, p11, lu), lv);
            && MinR(MinR(p00.x, p10.x), MinR(p01.x, p11.x)) <= p.x <= MaxR(MaxR(p00.x, p10.x), MaxR(p01.x, p11.x))
            && MinR(MinR(p00.y, p10.y), MinR(p01.y, p11.y)) <= p.y <= MaxR(MaxR(p00.y, p10.y), MaxR(p01.y, p11.y))
  {
    BilinearFacts(p00.x, p10.x, p01.x, p11.x, lu, lv);
    BilinearFacts(p00.y, p10.y, p01.y, p11.y, lu, lv);
  }

  /** One coordinate of a bilinear blend: the expanded weights, and the value
      lies between the least and the greatest of the four corner values. */
  lemma BilinearFacts(a: real, b: real, c: real, d: real, lu: real, lv: real)
    requires 0.0 <= lu <= 1.0 && 0.0 <= lv <= 1.0
    ensures var m := Mix(Mix(a, b, lu), Mix(c, d, lu), lv);
            && m == Weighted((1.0 - lu) * (1.0 - lv), lu * (1.0 - lv), (1.0 - lu) * lv, lu * lv, a, b, c, d)
            && MinR(MinR(a, b), MinR(c, d)) <= m <= MaxR(MaxR(a, b), MaxR(c, d))
  {
    var top, bottom := Mix(a, b, lu), Mix(c, d, lu);
    LerpBetween(a, b, lu);
    LerpBetween(c, d, lu);
    LerpBetween(top, bottom, lv);
    NestedBetween(a, b, c, d, top, bottom, Mix(top, bottom, lv));
    BilinearExpansion(a, b, c, d, lu, lv);
  }

  /** The bilinear weights are non-negative and sum to one. */
  lemma BilinearWeights(lu: real, lv: real)
    requires 0.0 <= lu <= 1.0 && 0.0 <= lv <= 1.0
    ensures 0.0 <= (1.0 - lu) * (1.0 - lv) && 0.0 <= lu * (1.0 - lv) && 0.0 <= (1.0 - lu) * lv && 0.0 <= lu * lv
    ensures (1.0 - lu) * (1.0 - lv) + lu * (1.0 - lv) + (1.0 - lu) * lv + lu * lv == 1.0
  {
    ProductBounds(1.0 - lu, 1.0 - lv);
    ProductBounds(lu, 1.0 - lv);
    ProductBounds(lv, 1.0 - lu);
    ProductBounds(lu, lv);
  }

  lemma NestedBetween(a: real, b: real, c: real, d: real, top: real, bottom: real, m: real)
    requires MinR(a, b) <= top <= MaxR(a, b) && MinR(c, d) <= bottom <= MaxR(c, d)
    requires MinR(top, bottom) <= m <= MaxR(top, bottom)
    ensures MinR(MinR(a, b), MinR(c, d)) <= m <= MaxR(MaxR(a, b), MaxR(c, d))
  {
  }

  lemma BilinearExpansion(a: real, b: real, c: real, d: real, lu: real, lv: real)
    ensures Mix(Mix(a, b, lu), Mix(c, d, lu), lv)
         == Weighted((1.0 - lu) * (1.0 - lv), lu * (1.0 - lv), (1.0 - lu) * lv, lu * lv, a, b, c, d)
  {
  }

  // ---------------------------------------------------------------------------
  // The node table

  /** All grid nodes, 0 <= C <= Max_C and 0 <= R <= Max_R. */
  function NodeSet(maxC: int, maxR: int): set<Cell> {
    set c, r | 0 <= c <= maxC && 0 <= r <= maxR :: (c, r)
  }

  /** What `_calculate_all_interpolated_points` leaves in
      `interpolated_points`: empty without control points, otherwise one
      interpolated point per node. */
  function InterpolationTable(v: Frontend, scp: map<Cell, Point>, width: real, height: real,
                              maxC: int, maxR: int): map<Cell, Point>
  {
    if scp == map[] then map[]
    else map k | k in NodeSet(maxC, maxR) :: Interpolate(v, scp, width, height, maxC, maxR, k.0, k.1)
  }

  function Column(c: int, rows: int): set<Cell> {
    set r | 0 <= r < rows :: (c, r)
  }

  lemma {:induction false} ColumnSize(c: int, rows: nat)
    ensures |Column(c, rows)| == rows
  {
    if rows > 0 {
      ColumnSize(c, rows - 1);
      assert (c, rows - 1) !in Column(c, rows - 1);
      assert Column(c, rows) == Column(c, rows - 1) + {(c, rows - 1)};
    } else {
      assert Column(c, rows) == {};
    }
  }

  /** The first `cols` columns of `rows` cells. */
  function Block(cols: int, rows: int): set<Cell> {
    set c, r | 0 <= c < cols && 0 <= r < rows :: (c, r)
  }

  lemma {:induction false} BlockSize(cols: nat, rows: nat)
    ensures |Block(cols, rows)| == cols * rows
  {
    if cols > 0 {
      BlockSize(cols - 1, rows);
      ColumnSize(cols - 1, rows);
      BlockSplit(cols, rows);
      AddOneColumn(cols, rows);
    } else {
      assert Block(cols, rows) == {};
    }
  }

  /** A block is the block one column narrower plus its last column. */
  lemma BlockSplit(cols: nat, rows: nat)
    requires cols > 0
    ensures Block(cols, rows) == Block(cols - 1, rows) + Column(cols - 1, rows)
    ensures Block(cols - 1, rows) !! Column(cols - 1, rows)
  {
  }

  lemma AddOneColumn(cols: nat, rows: nat)
    requires cols > 0
    ensures (cols - 1) * rows + rows == cols * rows
  {
  }

  /** The table has exactly (Max_C + 1) x (Max_R + 1) entries. */
  lemma TableSize(v: Frontend, scp: map<Cell, Point>, width: real, height: real, maxC: nat, maxR: nat)
    requires scp != map[]
    ensures InterpolationTable(v, scp, width, height, maxC, maxR).Keys == NodeSet(maxC, maxR)
    ensures |InterpolationTable(v, scp, width, height, maxC, maxR)| == (maxC + 1) * (maxR + 1)
  {
    assert NodeSet(maxC, maxR) == Block(maxC + 1, maxR + 1);
    BlockSize(maxC + 1, maxR + 1);
    assert InterpolationTable(v, scp, width, height, maxC, maxR).Keys == NodeSet(maxC, maxR);
  }

  // ---------------------------------------------------------------------------
  // Die polygons and the committed cache

  /** Four ordered corners of one die. */
  datatype Quad = Quad(p0: Point, p1: Point, p2: Point, p3: Point)

  /** One committed die: its cell, its centre and its polygon. */
  datatype DieEntry = DieEntry(cell: Cell, center: Point, polygon: Quad)

  /** Tk `_get_die_polygon_by_index`: None outside the grid, otherwise
      `[P_LL, P_LR, P_UR, P_UL] = [P(C,R+1), P(C+1,R+1), P(C+1,R), P(C,R)]`,
      each point read with fallback (0, 0). */
  function TkPolygon(table: map<Cell, Point>, maxC: int, maxR: int, c: int, r: int): Option<Quad> {
    if c < 0 || c >= maxC || r < 0 || r >= maxR then None
    else Some(Quad(Get(table, (c, r + 1), Origin), Get(table, (c + 1, r + 1), Origin),
                   Get(table, (c + 1, r), Origin), Get(table, (c, r), Origin)))
  }

  /** Tk centre: the mean of the four corners. */
  function MeanCenter(q: Quad): Point {
    Point((q.p0.x + q.p1.x + q.p2.x + q.p3.x) / 4.0, (q.p0.y + q.p1.y + q.p2.y + q.p3.y) / 4.0)
  }

  /** Truthiness of a PyQt `QPointF`: false exactly for the null point (0, 0). */
  predicate QPointTruthy(p: Point) { p != Origin }

  /** Qt `_get_die_polygon_by_index` as written: the four `.get` results are
      tested with `if p1 and p2 and p3 and p4`, which is false when a corner is
      missing AND when a corner lies exactly at (0, 0). */
  function QtPolygonAsWritten(table: map<Cell, Point>, c: int, r: int): Option<Quad> {
    if (c, r) in table && (c + 1, r) in table && (c + 1, r + 1) in table && (c, r + 1) in table
       && QPointTruthy(table[(c, r)]) && QPointTruthy(table[(c + 1, r)])
       && QPointTruthy(table[(c + 1, r + 1)]) && QPointTruthy(table[(c, r + 1)])
    then Some(Quad(table[(c, r)], table[(c + 1, r)], table[(c + 1, r + 1)], table[(c, r + 1)]))
    else None
  }

  /** Qt `_get_die_polygon_by_index` with the evidently intended presence test
      (`is not None`): `[P(C,R), P(C+1,R), P(C+1,R+1), P(C,R+1)]`. */
  function QtPolygon(table: map<Cell, Point>, c: int, r: int): (q: Option<Quad>)
    ensures q.Some? <==> (c, r) in table && (c + 1, r) in table && (c + 1, r + 1) in table && (c, r + 1) in table
  {
    if (c, r) in table && (c + 1, r) in table && (c + 1, r + 1) in table && (c, r + 1) in table
    then Some(Quad(table[(c, r)], table[(c + 1, r)], table[(c + 1, r + 1)], table[(c, r + 1)]))
    else None
  }

  /** Qt centre: the centre of the polygon's bounding rectangle. */
  function BoxCenter(q: Quad): Point {
    Point((MinR(MinR(q.p0.x, q.p1.x), MinR(q.p2.x, q.p3.x)) + MaxR(MaxR(q.p0.x, q.p1.x), MaxR(q.p2.x, q.p3.x))) / 2.0,
          (MinR(MinR(q.p0.y, q.p1.y), MinR(q.p2.y, q.p3.y)) + MaxR(MaxR(q.p0.y, q.p1.y), MaxR(q.p2.y, q.p3.y))) / 2.0)
  }

  /** The entry a commit stores for a cell, if any. */
  function EntryOf(v: Frontend, table: map<Cell, Point>, maxC: int, maxR: int, cell: Cell): Option<DieEntry> {
    match v
    case Tk =>
      (match TkPolygon(table, maxC, maxR, cell.0, cell.1)
       case None => None
       case Some(q) => Some(DieEntry(cell, MeanCenter(q), q)))
    case Qt =>
      (match QtPolygon(table, cell.0, cell.1)
       case None => None
       case Some(q) => Some(DieEntry(cell, BoxCenter(q), q)))
  }

  /** The cells `for C in range(Max_C): for R in range(Max_R)` visits, in order. */
  function CellOrder(cols: int, rows: int): (cells: seq<Cell>)
    decreases cols
  {
    if cols <= 0 then [] else CellOrder(cols - 1, rows) + ColumnOrder(cols - 1, rows)
  }

  /** Column c of that order: (c, 0), ..., (c, rows - 1). */
  function ColumnOrder(c: int, rows: int): (col: seq<Cell>)
    ensures |col| == MaxI(0, rows)
    decreases rows
  {
    if rows <= 0 then [] else ColumnOrder(c, rows - 1) + [(c, rows - 1)]
  }

  /** Position r of column c holds cell (c, r). */
  lemma {:induction false} ColumnOrderAt(c: int, rows: int)
    ensures forall r :: 0 <= r < |ColumnOrder(c, rows)| ==> ColumnOrder(c, rows)[r] == (c, r)
    decreases rows
  {
    if rows > 0 {
      ColumnOrderAt(c, rows - 1);
      var prev := ColumnOrder(c, rows - 1);
      assert ColumnOrder(c, rows) == prev + [(c, rows - 1)];
      forall r | 0 <= r < rows
        ensures ColumnOrder(c, rows)[r] == (c, r)
      {
        if r < rows - 1 { assert ColumnOrder(c, rows)[r] == prev[r]; }
      }
    }
  }

  function OptionSeq(e: Option<DieEntry>): seq<DieEntry> {
    if e.Some? then [e.value] else []
  }

  /** The entries a commit inserts, in insertion order, when it visits `cells`. */
  function BuildCache(v: Frontend, table: map<Cell, Point>, maxC: int, maxR: int, cells: seq<Cell>): seq<DieEntry>
    decreases |cells|
  {
    if cells == [] then []
    else BuildCache(v, table, maxC, maxR, cells[..|cells| - 1]) + OptionSeq(EntryOf(v, table, maxC, maxR, cells[|cells| - 1]))
  }

  /** What `_commit_ffd_changes` leaves in `die_info_cache` for a node table. */
  function CommittedCache(v: Frontend, table: map<Cell, Point>, maxC: int, maxR: int): seq<DieEntry> {
    BuildCache(v, table, maxC, maxR, CellOrder(maxC, maxR))
  }

  function CacheKeys(cache: seq<DieEntry>): set<Cell> {
    set i | 0 <= i < |cache| :: cache[i].cell
  }

  /** All cells of the grid, 0 <= C < Max_C and 0 <= R < Max_R. */
  function CellSet(maxC: int, maxR: int): set<Cell> {
    set c, r | 0 <= c < maxC && 0 <= r < maxR :: (c, r)
  }

  lemma CellOrderFacts(cols: int, rows: int)
    ensures |CellOrder(cols, rows)| == MaxI(0, cols) * MaxI(0, rows)
    ensures forall i :: 0 <= i < |CellOrder(cols, rows)| ==>
              0 <= CellOrder(cols, rows)[i].0 < cols && 0 <= CellOrder(cols, rows)[i].1 < rows
    ensures forall i, j :: 0 <= i < j < |CellOrder(cols, rows)| ==> CellOrder(cols, rows)[i] != CellOrder(cols, rows)[j]
    ensures forall c, r :: 0 <= c < cols && 0 <= r < rows ==> (c, r) in CellOrder(cols, rows)
  {
    CellOrderLength(cols, rows);
    CellOrderInRange(cols, rows);
    CellOrderDistinct(cols, rows);
    CellOrderCovers(cols, rows);
  }

  lemma {:induction false} CellOrderLength(cols: int, rows: int)
    ensures |CellOrder(cols, rows)| == MaxI(0, cols) * MaxI(0, rows)
    decreases cols
  {
    if cols > 0 {
      CellOrderLength(cols - 1, rows);
      AddOneColumn(cols, MaxI(0, rows));
    }
  }

  lemma {:induction false} CellOrderInRange(cols: int, rows: int)
    ensures forall i :: 0 <= i < |CellOrder(cols, rows)| ==>
              0 <= CellOrder(cols, rows)[i].0 < cols && 0 <= CellOrder(cols, rows)[i].1 < rows
    decreases cols
  {
    if cols > 0 {
      CellOrderInRange(cols - 1, rows);
      ColumnOrderAt(cols - 1, rows);
      var prev, col := CellOrder(cols - 1, rows), ColumnOrder(cols - 1, rows);
      assert CellOrder(cols, rows) == prev + col;
      var all: seq<Cell> := prev + col;
      forall i | 0 <= i < |all|
        ensures 0 <= all[i].0 < cols && 0 <= all[i].1 < rows
      {
        if i < |prev| { assert all[i] == prev[i]; } else { assert all[i] == col[i - |prev|]; }
      }
    }
  }

  lemma {:induction false} CellOrderDistinct(cols: int, rows: int)
    ensures forall i, j :: 0 <= i < j < |CellOrder(cols, rows)| ==> CellOrder(cols, rows)[i] != CellOrder(cols, rows)[j]
    decreases cols
  {
    if cols > 0 {
      CellOrderDistinct(cols - 1, rows);
      CellOrderInRange(cols - 1, rows);
      ColumnOrderAt(cols - 1, rows);
      var prev, col := CellOrder(cols - 1, rows), ColumnOrder(cols - 1, rows);
      assert CellOrder(cols, rows) == prev + col;
      var all: seq<Cell> := prev + col;
      forall i, j | 0 <= i < j < |all|
        ensures all[i] != all[j]
      {
        if j < |prev| {
          assert all[i] == prev[i] && all[j] == prev[j];
        } else if i < |prev| {
          assert all[i] == prev[i] && all[j] == col[j - |prev|];
        } else {
          assert all[i] == col[i - |prev|] && all[j] == col[j - |prev|];
        }
      }
    }
  }

  lemma {:induction false} CellOrderCovers(cols: int, rows: int)
    ensures forall c, r :: 0 <= c < cols && 0 <= r < rows ==> (c, r) in CellOrder(cols, rows)
    decreases cols
  {
    if cols > 0 {
      CellOrderCovers(cols - 1, rows);
      ColumnOrderAt(cols - 1, rows);
      var prev, col := CellOrder(cols - 1, rows), ColumnOrder(cols - 1, rows);
      assert CellOrder(cols, rows) == prev + col;
      forall c, r | 0 <= c < cols && 0 <= r < rows
        ensures (c, r) in prev + col
      {
        if c == cols - 1 { assert col[r] == (c, r); } else { assert (c, r) in prev; }
      }
    }
  }

  /** A table that holds every node of a grid with Max_C, Max_R >= 1. */
  predicate CompleteTable(table: map<Cell, Point>, maxC: int, maxR: int) {
    NodeSet(maxC, maxR) <= table.Keys
  }

  /** The entry a commit stores for an in-grid cell of a complete table. */
  function CellEntry(v: Frontend, table: map<Cell, Point>, maxC: int, maxR: int, cell: Cell): (e: DieEntry)
    requires CompleteTable(table, maxC, maxR) && 0 <= cell.0 < maxC && 0 <= cell.1 < maxR
    ensures e.cell == cell
  {
    var (c, r) := cell;
    assert (c, r) in NodeSet(maxC, maxR) && (c + 1, r) in NodeSet(maxC, maxR);
    assert (c, r + 1) in NodeSet(maxC, maxR) && (c + 1, r + 1) in NodeSet(maxC, maxR);
    if v == Tk then
      var q := Quad(table[(c, r + 1)], table[(c + 1, r + 1)], table[(c + 1, r)], table[(c, r)]);
      DieEntry(cell, MeanCenter(q), q)
    else
      var q := Quad(table[(c, r)], table[(c + 1, r)], table[(c + 1, r + 1)], table[(c, r + 1)]);
      DieEntry(cell, BoxCenter(q), q)
  }

  lemma EntryOfInGrid(v: Frontend, table: map<Cell, Point>, maxC: int, maxR: int, cell: Cell)
    requires CompleteTable(table, maxC, maxR) && 0 <= cell.0 < maxC && 0 <= cell.1 < maxR
    ensures EntryOf(v, table, maxC, maxR, cell) == Some(CellEntry(v, table, maxC, maxR, cell))
  {
    var (c, r) := cell;
    assert (c, r) in NodeSet(maxC, maxR) && (c + 1, r) in NodeSet(maxC, maxR);
    assert (c, r + 1) in NodeSet(maxC, maxR) && (c + 1, r + 1) in NodeSet(maxC, maxR);
  }

  /** Over in-grid cells of a complete table, every visited cell is stored. */
  lemma {:induction false} BuildCacheAllStored(v: Frontend, table: map<Cell, Point>, maxC: int, maxR: int, cells: seq<Cell>)
    requires CompleteTable(table, maxC, maxR) && InGrid(cells, maxC, maxR)
    ensures Stored(v, table, maxC, maxR, cells, BuildCache(v, table, maxC, maxR, cells))
    decreases |cells|
  {
    if cells != [] {
      var n := |cells| - 1;
      InGridPrefix(cells, maxC, maxR, n);
      BuildCacheAllStored(v, table, maxC, maxR, cells[..n]);
      StoredStep(v, table, maxC, maxR, cells);
    }
  }

  /** `entries` holds, position by position, the entry of each cell of
      `cells`. */
  predicate Stored(v: Frontend, table: map<Cell, Point>, maxC: int, maxR: int, cells: seq<Cell>, entries: seq<DieEntry>)
    requires CompleteTable(table, maxC, maxR) && InGrid(cells, maxC, maxR)
  {
    |entries| == |cells| && forall i :: 0 <= i < |cells| ==> entries[i] == CellEntry(v, table, maxC, maxR, cells[i])
  }

  /** Every cell of `cells` lies in the grid [0, Max_C) x [0, Max_R). */
  predicate InGrid(cells: seq<Cell>, maxC: int, maxR: int) {
    forall i :: 0 <= i < |cells| ==> 0 <= cells[i].0 < maxC && 0 <= cells[i].1 < maxR
  }

  lemma InGridPrefix(cells: seq<Cell>, maxC: int, maxR: int, n: nat)
    requires InGrid(cells, maxC, maxR) && n <= |cells|
    ensures InGrid(cells[..n], maxC, maxR)
  {
    assert forall i :: 0 <= i < n ==> cells[..n][i] == cells[i];
  }

  /** The inductive step of BuildCacheAllStored: one more in-grid cell adds
      its entry at the end. */
  lemma StoredStep(v: Frontend, table: map<Cell, Point>, maxC: int, maxR: int, cells: seq<Cell>)
    requires CompleteTable(table, maxC, maxR) && InGrid(cells, maxC, maxR) && cells != []
    requires InGrid(cells[..|cells| - 1], maxC, maxR)
    requires Stored(v, table, maxC, maxR, cells[..|cells| - 1], BuildCache(v, table, maxC, maxR, cells[..|cells| - 1]))
    ensures Stored(v, table, maxC, maxR, cells, BuildCache(v, table, maxC, maxR, cells))
  {
    var n := |cells| - 1;
    EntryOfInGrid(v, table, maxC, maxR, cells[n]);
    var before := BuildCache(v, table, maxC, maxR, cells[..n]);
    assert BuildCache(v, table, maxC, maxR, cells) == before + [CellEntry(v, table, maxC, maxR, cells[n])];
    StoredAppend(v, table, maxC, maxR, cells, before);
  }

  /** Entries stored for all but the last cell, followed by the last cell's
      entry, are stored for all cells. */
  lemma StoredAppend(v: Frontend, table: map<Cell, Point>, maxC: int, maxR: int, cells: seq<Cell>, before: seq<DieEntry>)
    requires CompleteTable(table, maxC, maxR) && InGrid(cells, maxC, maxR) && cells != []
    requires InGrid(cells[..|cells| - 1], maxC, maxR)
    requires Stored(v, table, maxC, maxR, cells[..|cells| - 1], before)
    ensures Stored(v, table, maxC, maxR, cells, before + [CellEntry(v, table, maxC, maxR, cells[|cells| - 1])])
  {
    var n := |cells| - 1;
    var all := before + [CellEntry(v, table, maxC, maxR, cells[n])];
    forall i | 0 <= i < |cells|
      ensures all[i] == CellEntry(v, table, maxC, maxR, cells[i])
    {
      if i < n {
        assert all[i] == before[i];
        assert before[i] == CellEntry(v, table, maxC, maxR, cells[..n][i]);
        assert cells[..n][i] == cells[i];
      }
    }
  }

  /** Commit over a complete table: the cache holds one entry per grid cell,
      in loop order, each with the front end's corner wiring and centre
      formula. */
  lemma CommittedCacheShape(v: Frontend, table: map<Cell, Point>, maxC: int, maxR: int)
    requires CompleteTable(table, maxC, maxR)
    ensures |CommittedCache(v, table, maxC, maxR)| == |CellOrder(maxC, maxR)| == MaxI(0, maxC) * MaxI(0, maxR)
    ensures forall i :: 0 <= i < |CellOrder(maxC, maxR)| ==>
              0 <= CellOrder(maxC, maxR)[i].0 < maxC && 0 <= CellOrder(maxC, maxR)[i].1 < maxR
    ensures forall i :: 0 <= i < |CommittedCache(v, table, maxC, maxR)| ==>
              CommittedCache(v, table, maxC, maxR)[i] == CellEntry(v, table, maxC, maxR, CellOrder(maxC, maxR)[i])
  {
    CellOrderFacts(maxC, maxR);
    BuildCacheAllStored(v, table, maxC, maxR, CellOrder(maxC, maxR));
  }

  /** The committed cache's keys are exactly [0, Max_C) x [0, Max_R), each
      once, so it is a faithful list form of the dictionary it models. */
  lemma CommittedCacheKeys(v: Frontend, table: map<Cell, Point>, maxC: int, maxR: int)
    requires CompleteTable(table, maxC, maxR)
    ensures CacheKeys(CommittedCache(v, table, maxC, maxR)) == CellSet(maxC, maxR)
    ensures forall i, j :: 0 <= i < j < |CommittedCache(v, table, maxC, maxR)| ==>
              CommittedCache(v, table, maxC, maxR)[i].cell != CommittedCache(v, table, maxC, maxR)[j].cell
  {
    CellOrderFacts(maxC, maxR);
    BuildCacheCells(v, table, maxC, maxR, CellOrder(maxC, maxR));
    CellwiseKeys(CommittedCache(v, table, maxC, maxR), CellOrder(maxC, maxR), maxC, maxR);
  }

  /** Over in-grid cells of a complete table, entry i is stored under cell i. */
  lemma BuildCacheCells(v: Frontend, table: map<Cell, Point>, maxC: int, maxR: int, cells: seq<Cell>)
    requires CompleteTable(table, maxC, maxR) && InGrid(cells, maxC, maxR)
    ensures |BuildCache(v, table, maxC, maxR, cells)| == |cells|
    ensures forall i :: 0 <= i < |cells| ==> BuildCache(v, table, maxC, maxR, cells)[i].cell == cells[i]
  {
    BuildCacheAllStored(v, table, maxC, maxR, cells);
    forall i | 0 <= i < |cells|
      ensures BuildCache(v, table, maxC, maxR, cells)[i].cell == cells[i]
    {
      assert BuildCache(v, table, maxC, maxR, cells)[i] == CellEntry(v, table, maxC, maxR, cells[i]);
    }
  }

  lemma CellwiseKeys(cache: seq<DieEntry>, cells: seq<Cell>, maxC: int, maxR: int)
    requires |cache| == |cells| && forall i :: 0 <= i < |cache| ==> cache[i].cell == cells[i]
    requires forall i :: 0 <= i < |cells| ==> 0 <= cells[i].0 < maxC && 0 <= cells[i].1 < maxR
    requires forall i, j :: 0 <= i < j < |cells| ==> cells[i] != cells[j]
    requires forall c, r :: 0 <= c < maxC && 0 <= r < maxR ==> (c, r) in cells
    ensures CacheKeys(cache) == CellSet(maxC, maxR)
    ensures forall i, j :: 0 <= i < j < |cache| ==> cache[i].cell != cache[j].cell
  {
    forall k | k in CellSet(maxC, maxR) ensures k in CacheKeys(cache) {
      var i :| 0 <= i < |cells| && cells[i] == k;
      assert cache[i].cell == k;
    }
  }

  /** The Tk corner wiring and centre of each committed die. */
  lemma TkEntryWiring(table: map<Cell, Point>, maxC: int, maxR: int, c: int, r: int)
    requires CompleteTable(table, maxC, maxR) && 0 <= c < maxC && 0 <= r < maxR
    ensures (c, r) in table && (c + 1, r) in table && (c, r + 1) in table && (c + 1, r + 1) in table
    ensures var e := CellEntry(Tk, table, maxC, maxR, (c, r));
            && e.polygon == Quad(table[(c, r + 1)], table[(c + 1, r + 1)], table[(c + 1, r)], table[(c, r)])
            && e.center.x * 4.0 == table[(c, r)].x + table[(c + 1, r)].x + table[(c, r + 1)].x + table[(c + 1, r + 1)].x
            && e.center.y * 4.0 == table[(c, r)].y + table[(c + 1, r)].y + table[(c, r + 1)].y + table[(c + 1, r + 1)].y
  {
    assert (c, r) in NodeSet(maxC, maxR) && (c + 1, r) in NodeSet(maxC, maxR);
    assert (c, r + 1) in NodeSet(maxC, maxR) && (c + 1, r + 1) in NodeSet(maxC, maxR);
  }

  /** The Qt corner wiring of each committed die; its centre is the centre of
      the polygon's bounding rectangle (BoxCenterIsMidpoint). */
  lemma QtEntryWiring(table: map<Cell, Point>, maxC: int, maxR: int, c: int, r: int)
    requires CompleteTable(table, maxC, maxR) && 0 <= c < maxC && 0 <= r < maxR
    ensures (c, r) in table && (c + 1, r) in table && (c, r + 1) in table && (c + 1, r + 1) in table
    ensures var e := CellEntry(Qt, table, maxC, maxR, (c, r));
            && e.polygon == Quad(table[(c, r)], table[(c + 1, r)], table[(c + 1, r + 1)], table[(c, r + 1)])
            && e.center == BoxCenter(e.polygon)
  {
    assert (c, r) in NodeSet(maxC, maxR) && (c + 1, r) in NodeSet(maxC, maxR);
    assert (c, r + 1) in NodeSet(maxC, maxR) && (c + 1, r + 1) in NodeSet(maxC, maxR);
  }

  function Xs(q: Quad): seq<real> { [q.p0.x, q.p1.x, q.p2.x, q.p3.x] }
  function Ys(q: Quad): seq<real> { [q.p0.y, q.p1.y, q.p2.y, q.p3.y] }

  /** `boundingRect().center()`: each coordinate of the centre is the
      midpoint of the least and the greatest corner coordinate (ArgMin4 and
      ArgMax4 pick those corners). */
  lemma BoxCenterIsMidpoint(q: Quad)
    ensures BoxCenter(q).x * 2.0 == Xs(q)[ArgMin4(Xs(q))] + Xs(q)[ArgMax4(Xs(q))]
    ensures BoxCenter(q).y * 2.0 == Ys(q)[ArgMin4(Ys(q))] + Ys(q)[ArgMax4(Ys(q))]
    ensures forall k :: 0 <= k < 4 ==> Xs(q)[ArgMin4(Xs(q))] <= Xs(q)[k] <= Xs(q)[ArgMax4(Xs(q))]
    ensures forall k :: 0 <= k < 4 ==> Ys(q)[ArgMin4(Ys(q))] <= Ys(q)[k] <= Ys(q)[ArgMax4(Ys(q))]
  {
  }

  function ArgMin4(s: seq<real>): (i: nat)
    requires |s| == 4
    ensures i < 4 && s[i] == MinR(MinR(s[0], s[1]), MinR(s[2], s[3]))
    ensures forall k :: 0 <= k < 4 ==> s[i] <= s[k]
  {
    if s[0] <= s[1] && s[0] <= s[2] && s[0] <= s[3] then 0
    else if s[1] <= s[2] && s[1] <= s[3] then 1
    else if s[2] <= s[3] then 2
    else 3
  }

  function ArgMax4(s: seq<real>): (i: nat)
    requires |s| == 4
    ensures i < 4 && s[i] == MaxR(MaxR(s[0], s[1]), MaxR(s[2], s[3]))
    ensures forall k :: 0 <= k < 4 ==> s[k] <= s[i]
  {
    if s[0] >= s[1] && s[0] >= s[2] && s[0] >= s[3] then 0
    else if s[1] >= s[2] && s[1] >= s[3] then 1
    else if s[2] >= s[3] then 2
    else 3
  }

  /** A full-lattice table is complete, so the commit materialises every cell. */
  lemma InterpolationTableComplete(v: Frontend, scp: map<Cell, Point>, width: real, height: real, maxC: int, maxR: int)
    requires scp != map[]
    ensures CompleteTable(InterpolationTable(v, scp, width, height, maxC, maxR), maxC, maxR)
  {
  }

  /** The Qt guard as written drops a die whose corner node lies exactly at
      (0, 0): the die at cell (0, 0) vanishes whenever control point (0, 0)
      sits at the image origin, which is where mesh initialisation puts it for
      any circle that covers the image's top-left corner. */
  lemma QtAsWrittenDropsDieAtOrigin(scp: map<Cell, Point>, width: real, height: real, maxC: int, maxR: int)
    requires FullLattice(scp) && 1 <= maxC && 1 <= maxR
    requires scp[(0, 0)] == Origin
    ensures var table := InterpolationTable(Qt, scp, width, height, maxC, maxR);
            && QtPolygonAsWritten(table, 0, 0) == None
            && QtPolygon(table, 0, 0).Some?
  {
    InterpolateCorners(Qt, scp, width, height, maxC, maxR);
    var table := InterpolationTable(Qt, scp, width, height, maxC, maxR);
    assert (0, 0) in NodeSet(maxC, maxR) && (1, 0) in NodeSet(maxC, maxR);
    assert (0, 1) in NodeSet(maxC, maxR) && (1, 1) in NodeSet(maxC, maxR);
    assert table[(0, 0)] == Origin;
  }
}
