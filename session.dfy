/** The annotator's state and its event handlers, shared by both front ends
    (`variant`): the interaction mode, the control lattice with its grid size,
    the node table, the committed die cache, the naming origin, the APPLY
    flag, the circle, the die rectangle and the mask layer. Drawing, zoom and
    pan, file dialogs and image loading are not modelled. */
module Session {
  import opened Basics
  import opened DieNaming
  import opened Ffd
  import opened MeshInit
  import opened CircleFit
  import opened MaskRaster
  import opened HitTest
  import opened Report

  /** `self.mode`: None, 'circle', 'rectangle', 'mask', 'ffd_grid' and
      'set_naming_origin'. */
  datatype Mode = Idle | CircleMode | RectangleMode | MaskMode | GridMode | NamingMode

  /** The nodes `_calculate_all_interpolated_points` has filled before node
      (c, r): all of columns 0 .. c - 1 and rows 0 .. r - 1 of column c. */
  function NodesBefore(c: int, r: int, maxR: int): set<Cell> {
    set i, j | 0 <= i <= c && 0 <= j <= maxR && (i < c || j < r) :: (i, j)
  }

  /** The node table restricted to the nodes filled so far. */
  function PartialTable(v: Frontend, scp: map<Cell, Point>, width: real, height: real,
                        maxC: int, maxR: int, nodes: set<Cell>): map<Cell, Point>
  {
    map k | k in nodes :: Interpolate(v, scp, width, height, maxC, maxR, k.0, k.1)
  }

  lemma NodesStep(c: int, r: int, maxR: int)
    requires 0 <= c && 0 <= r <= maxR
    ensures NodesBefore(c, r + 1, maxR) == NodesBefore(c, r, maxR) + {(c, r)}
  {
    assert (c, r) in NodesBefore(c, r + 1, maxR);
  }

  lemma NodesNextColumn(c: int, maxR: int)
    requires 0 <= maxR
    ensures NodesBefore(c, maxR + 1, maxR) == NodesBefore(c + 1, 0, maxR)
  {
  }

  lemma NodesAll(maxC: int, maxR: int)
    ensures NodesBefore(maxC + 1, 0, maxR) == NodeSet(maxC, maxR)
  {
  }

  lemma PartialTableStep(v: Frontend, scp: map<Cell, Point>, width: real, height: real,
                         maxC: int, maxR: int, nodes: set<Cell>, k: Cell)
    ensures PartialTable(v, scp, width, height, maxC, maxR, nodes + {k})
            == PartialTable(v, scp, width, height, maxC, maxR, nodes)[k := Interpolate(v, scp, width, height, maxC, maxR, k.0, k.1)]
  {
  }

  /** Row r of column c in the node loops: the node's interpolated point is
      added to the table. */
  lemma FillStep(v: Frontend, scp: map<Cell, Point>, w: real, h: real, cols: int, rows: int,
                 c: int, r: int, t: map<Cell, Point>)
    requires 0 <= c && 0 <= r <= rows
    requires t == PartialTable(v, scp, w, h, cols, rows, NodesBefore(c, r, rows))
    ensures t[(c, r) := Interpolate(v, scp, w, h, cols, rows, c, r)]
            == PartialTable(v, scp, w, h, cols, rows, NodesBefore(c, r + 1, rows))
  {
    NodesStep(c, r, rows);
    PartialTableStep(v, scp, w, h, cols, rows, NodesBefore(c, r, rows), (c, r));
  }

  lemma EmptyPartialTable(v: Frontend, scp: map<Cell, Point>, width: real, height: real, maxC: int, maxR: int)
    ensures PartialTable(v, scp, width, height, maxC, maxR, NodesBefore(0, 0, maxR)) == map[]
  {
    assert NodesBefore(0, 0, maxR) == {};
  }

  /** All nodes filled: the partial table is the node table. */
  lemma FullPartialTable(v: Frontend, scp: map<Cell, Point>, width: real, height: real, maxC: int, maxR: int)
    requires scp != map[]
    ensures PartialTable(v, scp, width, height, maxC, maxR, NodesBefore(maxC + 1, 0, maxR))
            == InterpolationTable(v, scp, width, height, maxC, maxR)
  {
    NodesAll(maxC, maxR);
  }

  lemma TableOfNoNodes(v: Frontend, scp: map<Cell, Point>, width: real, height: real, maxC: int, maxR: int)
    requires maxC < 0 || maxR < 0
    ensures InterpolationTable(v, scp, width, height, maxC, maxR) == map[]
  {
    assert NodeSet(maxC, maxR) == {};
  }

  /** Appending one visited cell to a commit's visit order. */
  lemma BuildCacheStep(v: Frontend, table: map<Cell, Point>, maxC: int, maxR: int, cells: seq<Cell>, cell: Cell)
    ensures BuildCache(v, table, maxC, maxR, cells + [cell])
            == BuildCache(v, table, maxC, maxR, cells) + OptionSeq(EntryOf(v, table, maxC, maxR, cell))
  {
    assert (cells + [cell])[..|cells|] == cells;
  }

  /** Row r of column c in a commit: the die is appended when its polygon
      exists, and nothing happens otherwise. */
  lemma AppendStep(v: Frontend, table: map<Cell, Point>, cols: int, rows: int, before: seq<Cell>,
                   c: int, r: nat, cache: seq<DieEntry>, e: Option<DieEntry>)
    requires cache == BuildCache(v, table, cols, rows, before + ColumnOrder(c, r))
    requires e == EntryOf(v, table, cols, rows, (c, r))
    ensures (if e.Some? then cache + [e.value] else cache)
            == BuildCache(v, table, cols, rows, before + ColumnOrder(c, r + 1))
  {
    assert before + ColumnOrder(c, r + 1) == (before + ColumnOrder(c, r)) + [(c, r)];
    BuildCacheStep(v, table, cols, rows, before + ColumnOrder(c, r), (c, r));
  }

  /** The inner loop of `_calculate_all_interpolated_points`: the nodes of
      column c, row by row. */
  method FillColumn(v: Frontend, scp: map<Cell, Point>, w: real, h: real, cols: int, rows: int, c: int,
                    t0: map<Cell, Point>) returns (t: map<Cell, Point>)
    requires 0 <= c && 0 <= rows
    requires t0 == PartialTable(v, scp, w, h, cols, rows, NodesBefore(c, 0, rows))
    ensures t == PartialTable(v, scp, w, h, cols, rows, NodesBefore(c, rows + 1, rows))
  {
    t := t0;
    var r := 0;
    while r <= rows
      invariant 0 <= r <= rows + 1
      invariant t == PartialTable(v, scp, w, h, cols, rows, NodesBefore(c, r, rows))
    {
      FillStep(v, scp, w, h, cols, rows, c, r, t);
      t := t[(c, r) := Interpolate(v, scp, w, h, cols, rows, c, r)];
      r := r + 1;
    }
  }

  /** The loops of `_calculate_all_interpolated_points`: an empty table
      without control points, otherwise one interpolated point per node,
      column by column. */
  method NodeTable(v: Frontend, scp: map<Cell, Point>, w: real, h: real, cols: int, rows: int)
    returns (t: map<Cell, Point>)
    ensures t == InterpolationTable(v, scp, w, h, cols, rows)
  {
    t := map[];
    if scp == map[] {
      return;
    }
    if cols < 0 || rows < 0 {
      TableOfNoNodes(v, scp, w, h, cols, rows);
      return;
    }
    EmptyPartialTable(v, scp, w, h, cols, rows);
    var c := 0;
    while c <= cols
      invariant 0 <= c <= cols + 1
      invariant t == PartialTable(v, scp, w, h, cols, rows, NodesBefore(c, 0, rows))
    {
      t := FillColumn(v, scp, w, h, cols, rows, c, t);
      NodesNextColumn(c, rows);
      c := c + 1;
    }
    FullPartialTable(v, scp, w, h, cols, rows);
  }

  /** The inner loop of `_commit_ffd_changes`: the dies of column c, row by
      row, each appended when its polygon exists. */
  method AppendColumn(v: Frontend, table: map<Cell, Point>, cols: int, rows: int, c: int,
                      cache0: seq<DieEntry>) returns (cache: seq<DieEntry>)
    requires 0 <= c && 0 <= rows
    requires cache0 == BuildCache(v, table, cols, rows, CellOrder(c, rows))
    ensures cache == BuildCache(v, table, cols, rows, CellOrder(c + 1, rows))
  {
    ghost var before := CellOrder(c, rows);
    cache := cache0;
    var r := 0;
    assert before + ColumnOrder(c, 0) == before;
    while r < rows
      invariant 0 <= r <= rows
      invariant cache == BuildCache(v, table, cols, rows, before + ColumnOrder(c, r))
    {
      var e := EntryOf(v, table, cols, rows, (c, r));
      AppendStep(v, table, cols, rows, before, c, r, cache, e);
      if e.Some? {
        cache := cache + [e.value];
      }
      r := r + 1;
    }
    CellOrderStep(c, rows);
  }

  lemma CellOrderStep(c: int, rows: int)
    requires 0 <= c
    ensures CellOrder(c + 1, rows) == CellOrder(c, rows) + ColumnOrder(c, rows)
  {
  }

  /** Without rows the loops visit no cell. */
  lemma {:induction false} CellOrderNoRows(cols: int, rows: int)
    requires rows <= 0
    ensures CellOrder(cols, rows) == []
    decreases cols
  {
    if cols > 0 {
      CellOrderNoRows(cols - 1, rows);
    }
  }

  /** Without rows the commit caches no die. */
  lemma NoRowsNoCache(v: Frontend, table: map<Cell, Point>, cols: int, rows: int)
    requires rows <= 0
    ensures CommittedCache(v, table, cols, rows) == []
  {
    CellOrderNoRows(cols, rows);
  }

  /** The loops of `_commit_ffd_changes`: `for C in range(Max_C): for R in
      range(Max_R)`, keeping the dies whose polygon exists. */
  method CommitCache(v: Frontend, table: map<Cell, Point>, cols: int, rows: int) returns (cache: seq<DieEntry>)
    ensures cache == CommittedCache(v, table, cols, rows)
  {
    if rows < 0 {
      NoRowsNoCache(v, table, cols, rows);
      cache := [];
    } else {
      cache := CommitColumns(v, table, cols, rows);
    }
  }

  /** The outer loop over the columns, once the row count is known not to be
      negative. */
  method CommitColumns(v: Frontend, table: map<Cell, Point>, cols: int, rows: int) returns (cache: seq<DieEntry>)
    requires 0 <= rows
    ensures cache == CommittedCache(v, table, cols, rows)
  {
    cache := [];
    var c := 0;
    while c < cols
      invariant 0 <= c <= MaxI(0, cols)
      invariant cache == BuildCache(v, table, cols, rows, CellOrder(c, rows))
    {
      cache := AppendColumn(v, table, cols, rows, c, cache);
      c := c + 1;
    }
  }

  /** The order in which the control points were inserted at initialisation
      (`for C_s in range(4): for R_s in range(4)`), which is the order the Tk
      front end scans them in. */
  function ScpOrder(): seq<Cell> {
    CellOrder(ScpSize, ScpSize)
  }

  /** The first position, from `from` on, whose control point lies strictly
      within squared distance rr of the click. */
  function FirstNearFrom(scp: map<Cell, Point>, order: seq<Cell>, click: Point, rr: real, from: nat): (i: Option<nat>)
    ensures i.Some? ==> from <= i.value < |order| && order[i.value] in scp && DistSq(click, scp[order[i.value]]) < rr
    ensures forall j :: from <= j < |order| && (i.None? || j < i.value) && order[j] in scp ==>
              DistSq(click, scp[order[j]]) >= rr
    decreases |order| - from
  {
    if from >= |order| then None
    else if order[from] in scp && DistSq(click, scp[order[from]]) < rr then Some(from)
    else FirstNearFrom(scp, order, click, rr, from + 1)
  }

  /** The Tk control-point pick: the first control point in insertion order
      within the pick radius, or none. */
  function PickedScp(scp: map<Cell, Point>, click: Point, rr: real): (k: Option<Cell>)
    ensures k.Some? ==> k.value in scp && DistSq(click, scp[k.value]) < rr
    ensures k.None? ==> forall j :: 0 <= j < |ScpOrder()| && ScpOrder()[j] in scp ==> DistSq(click, scp[ScpOrder()[j]]) >= rr
  {
    var i := FirstNearFrom(scp, ScpOrder(), click, rr, 0);
    if i.None? then None else Some(ScpOrder()[i.value])
  }

  /** The pick is the first control point in insertion order within the
      pick radius: every control point before it lies outside. */
  lemma PickedScpIsFirst(scp: map<Cell, Point>, click: Point, rr: real)
    ensures var k := PickedScp(scp, click, rr);
            k.Some? ==> exists i :: 0 <= i < |ScpOrder()| && ScpOrder()[i] == k.value
                          && forall j :: 0 <= j < i && ScpOrder()[j] in scp ==> DistSq(click, scp[ScpOrder()[j]]) >= rr
  {
    var i := FirstNearFrom(scp, ScpOrder(), click, rr, 0);
    if i.Some? {
      assert ScpOrder()[i.value] == PickedScp(scp, click, rr).value;
    }
  }

  /** The scan loop of the Tk grid press, leaving at the first hit. */
  method ScanControlPoints(scp: map<Cell, Point>, click: Point, rr: real) returns (k: Option<Cell>)
    ensures k == PickedScp(scp, click, rr)
  {
    var order := ScpOrder();
    var i := 0;
    while i < |order|
      invariant 0 <= i <= |order|
      invariant FirstNearFrom(scp, order, click, rr, i) == FirstNearFrom(scp, order, click, rr, 0)
    {
      var key := order[i];
      if key in scp && DistSq(click, scp[key]) < rr {
        return Some(key);
      }
      i := i + 1;
    }
    return None;
  }

  /** The point a click adds to `circle_points`: Tk keeps `(int(x), int(y))`,
      Qt the scene position itself. */
  function ClickedPoint(v: Frontend, p: Point): Point {
    if v == Tk then Point(Trunc(p.x) as real, Trunc(p.y) as real) else p
  }

  /** The die rectangle of a drag from start to end: Tk truncates the sorted
      corners with `int()`, Qt keeps `QRectF(...).normalized()`. */
  function DragRect(v: Frontend, start: Point, end: Point): (r: Rect)
    ensures DieWidth(r) >= 0.0 && DieHeight(r) >= 0.0
  {
    var x1, y1 := MinR(start.x, end.x), MinR(start.y, end.y);
    var x2, y2 := MaxR(start.x, end.x), MaxR(start.y, end.y);
    if v == Tk then
      TruncMonotone(x1, x2);
      TruncMonotone(y1, y2);
      Rect(Trunc(x1) as real, Trunc(y1) as real, Trunc(x2) as real, Trunc(y2) as real)
    else Rect(x1, y1, x2, y2)
  }

  lemma TruncMonotone(a: real, b: real)
    requires a <= b
    ensures Trunc(a) <= Trunc(b)
  {
  }

  /** Whether a release finishes a rectangle drag. Qt as written tests the
      start point's truthiness, which is false for a `QPointF` at (0, 0). */
  predicate ReleaseFinishesAsWritten(v: Frontend, start: Option<Point>) {
    start.Some? && (v == Qt ==> start.value != Origin)
  }

  /** A drag that starts at the scene origin is silently dropped by the Qt
      guard as written, although it defines a proper rectangle. */
  lemma QtDropsDragFromOrigin(end: Point)
    requires end.x > 0.0 && end.y > 0.0
    ensures !ReleaseFinishesAsWritten(Qt, Some(Origin))
    ensures DieWidth(DragRect(Qt, Origin, end)) > 0.0 && DieHeight(DragRect(Qt, Origin, end)) > 0.0
  {
  }

  /** The intended guard: a drag was started. */
  predicate ReleaseFinishes(start: Option<Point>) {
    start.Some?
  }

  /** The two guards agree except on a Qt drag from the origin. */
  lemma ReleaseGuardsAgree(v: Frontend, start: Option<Point>)
    requires v == Tk || start != Some(Origin)
    ensures ReleaseFinishesAsWritten(v, start) == ReleaseFinishes(start)
  {
  }

  /** The Tk drag target: the pointer clamped into [0, W] x [0, H]; Qt moves
      the control point to the pointer unclamped. */
  function DragTarget(v: Frontend, p: Point, width: nat, height: nat): (q: Point)
    ensures v == Tk ==> 0.0 <= q.x <= width as real && 0.0 <= q.y <= height as real
    ensures v == Tk && 0.0 <= p.x <= width as real && 0.0 <= p.y <= height as real ==> q == p
    ensures v == Qt ==> q == p
  {
    if v == Tk then Point(MaxR(0.0, MinR(width as real, p.x)), MaxR(0.0, MinR(height as real, p.y))) else p
  }

  /** The squared Tk pick radius in image pixels: 10 screen pixels at the
      current zoom. */
  function PickRadiusSq(zoom: real): (rr: real)
    requires zoom > 0.0
    ensures rr > 0.0
  {
    var r := 10.0 / zoom;
    r * r
  }

  /** The cache `_commit_ffd_changes` builds for a lattice over a
      width x height image. */
  function LatticeCache(v: Frontend, scp: map<Cell, Point>, width: nat, height: nat,
                        maxC: int, maxR: int): seq<DieEntry>
  {
    CommittedCache(v, InterpolationTable(v, scp, width as real, height as real, maxC, maxR), maxC, maxR)
  }

  /** Without an edit in between, the commit caches one die per grid cell,
      each cell once. */
  lemma LatticeCacheComplete(v: Frontend, scp: map<Cell, Point>, width: nat, height: nat, maxC: int, maxR: int)
    requires scp != map[]
    ensures var cache := LatticeCache(v, scp, width, height, maxC, maxR);
            && CacheKeys(cache) == CellSet(maxC, maxR)
            && |cache| == MaxI(0, maxC) * MaxI(0, maxR)
            && forall i, j :: 0 <= i < j < |cache| ==> cache[i].cell != cache[j].cell
  {
    var table := InterpolationTable(v, scp, width as real, height as real, maxC, maxR);
    InterpolationTableComplete(v, scp, width as real, height as real, maxC, maxR);
    CommittedCacheKeys(v, table, maxC, maxR);
    CommittedCacheShape(v, table, maxC, maxR);
  }

  /** `_commit_ffd_changes` on a lattice: the node table first, then the
      cache loops over it. */
  method CommitLatticeCache(v: Frontend, scp: map<Cell, Point>, width: nat, height: nat,
                            maxC: int, maxR: int) returns (cache: seq<DieEntry>)
    ensures cache == LatticeCache(v, scp, width, height, maxC, maxR)
  {
    var table := NodeTable(v, scp, width as real, height as real, maxC, maxR);
    cache := CommitCache(v, table, maxC, maxR);
  }

  class Annotator {
    const variant: Frontend
    const width: nat
    const height: nat
    const mask: AlphaMask

    var mode: Mode
    var circlePoints: seq<Point>
    var rectStart: Option<Point>
    var circle: Option<Circle>
    var rect: Option<Rect>
    var scp: map<Cell, Point>
    var activeScp: Option<Cell>
    var maxC: int
    var maxR: int
    var cache: seq<DieEntry>
    var shift: Cell
    var pending: bool
    var stencil: Option<seq<bool>>

    /** The mask layer covers the image and holds only transparent or painted
        samples. */
    ghost predicate MaskReady()
      reads mask, mask.alpha
    {
      mask.Valid() && mask.width == width && mask.height == height && AlphaDomain(mask.alpha[..])
    }

    /** The shape of the state:
        - the mask layer is ready;
        - at most two circle points wait for a third;
        - a lattice, once built, is complete, with at least one die per axis;
        - a control point is dragged only in grid mode, and it is one of the
          lattice;
        - the APPLY flag is set only in grid mode and only over a lattice;
        - the Tk stencil covers the image.
        The alpha domain {0, 128} is a fact about the Tk layer; for Qt it
        holds only because Qt mask painting (SourceOver compositing, whose
        alpha values exceed 128) is not modelled. */
    ghost predicate Core()
      reads this`circlePoints, this`scp, this`maxC, this`maxR, this`activeScp, this`mode, this`pending
      reads this`stencil, mask, mask.alpha
    {
      && MaskReady()
      && |circlePoints| < 3
      && (scp != map[] ==> FullLattice(scp) && 1 <= maxC && 1 <= maxR)
      && (activeScp.Some? ==> mode == GridMode && activeScp.value in scp)
      && (pending ==> mode == GridMode && scp != map[])
      && (stencil.Some? ==> |stencil.value| == width * height)
    }

    /** The committed cache follows the lattice whenever no edit is pending;
        without a lattice it is empty. */
    ghost predicate Synced()
      reads this`scp, this`pending, this`cache, this`maxC, this`maxR
    {
      && (scp != map[] && !pending ==> cache == LatticeCache(variant, scp, width, height, maxC, maxR))
      && (scp == map[] ==> cache == [])
    }

    ghost predicate Valid()
      reads this`circlePoints, this`scp, this`maxC, this`maxR, this`activeScp, this`mode, this`pending
      reads this`stencil, this`cache, mask, mask.alpha
    {
      Core() && Synced()
    }

    /** A freshly loaded image: idle, nothing defined, the mask transparent. */
    constructor (v: Frontend, w: nat, h: nat)
      ensures Valid() && fresh(mask) && fresh(mask.alpha)
      ensures variant == v && width == w && height == h
      ensures mode == Idle && circle.None? && rect.None? && scp == map[] && cache == []
      ensures shift == (0, 0) && !pending && stencil.None? && AllClear(mask.alpha[..])
      ensures circlePoints == [] && rectStart.None? && activeScp.None?
    {
      variant, width, height := v, w, h;
      mask := new AlphaMask(w, h);
      mode := Idle;
      circlePoints, rectStart := [], None;
      circle, rect := None, None;
      scp, activeScp := map[], None;
      maxC, maxR := 0, 0;
      cache := [];
      shift, pending, stencil := (0, 0), false, None;
    }

    /** The body of `_commit_ffd_changes` over an existing lattice: the node
        table is recomputed (`_calculate_all_interpolated_points`), the cache rebuilt from it, and the APPLY flag
        cleared. */
    method CommitLattice()
      requires Core() && scp != map[]
      modifies this`cache, this`pending
      ensures Valid()
      ensures cache == LatticeCache(variant, scp, width, height, maxC, maxR) && !pending
    {
      cache := CommitLatticeCache(variant, scp, width, height, maxC, maxR);
      pending := false;
    }

    /** `_commit_ffd_changes` (the APPLY button): without a lattice nothing
        happens (Tk shows a warning); otherwise the cache is rebuilt from the
        lattice (LatticeCacheComplete: one die per grid cell) and no edit is
        pending. */
    method Commit()
      requires Valid()
      modifies this`cache, this`pending
      ensures Valid()
      ensures old(scp) == map[] ==> cache == old(cache) && pending == old(pending)
      ensures old(scp) != map[] ==> cache == LatticeCache(variant, scp, width, height, maxC, maxR) && !pending
    {
      if scp == map[] {
        return;
      }
      CommitLattice();
    }

    /** `_initialize_ffd_mesh`, which `set_mode` calls only while no lattice
        exists: on success the lattice and grid size are those of
        InitializeMesh and the new lattice is committed; on failure nothing
        changes. */
    method InitializeFfdMesh() returns (ok: bool)
      requires Valid() && scp == map[]
      modifies this`scp, this`maxC, this`maxR, this`cache, this`pending
      ensures Valid()
      ensures var out := InitializeMesh(variant, width as real, height as real, old(circle), old(rect));
              && ok == out.Built?
              && (ok ==> scp == out.mesh.scp && maxC == out.mesh.maxC && maxR == out.mesh.maxR
                         && cache == LatticeCache(variant, scp, width, height, maxC, maxR))
              && (!ok ==> scp == map[] && cache == [] && maxC == old(maxC) && maxR == old(maxR))
      ensures scp != map[] <==> ok
      ensures !pending
    {
      var out := InitializeMesh(variant, width as real, height as real, circle, rect);
      if out.Failed? {
        return false;
      }
      scp, maxC, maxR := out.mesh.scp, out.mesh.maxC, out.mesh.maxR;
      FullLatticeNotEmpty(scp);
      CommitLattice();
      ok := true;
    }

    /** `set_mode` for any mode but grid mode: leaving grid mode commits the
        lattice; the circle points, rectangle start and dragged control point
        are dropped. */
    method SetOtherMode(m: Mode)
      requires Valid() && m != GridMode
      modifies this`mode, this`circlePoints, this`rectStart, this`activeScp, this`cache, this`pending
      ensures Valid() && mode == m && !pending
      ensures circlePoints == [] && rectStart.None? && activeScp.None?
      ensures old(mode) == GridMode && scp != map[] ==> cache == LatticeCache(variant, scp, width, height, maxC, maxR)
      ensures old(mode) != GridMode ==> cache == old(cache)
    {
      if mode == GridMode {
        Commit();
      }
      ResetInput(m);
    }

    /** The part of `set_mode` after any commit: the new mode, with the
        circle points, rectangle start and dragged control point dropped
        (an edit can be pending only in grid mode). */
    method ResetInput(m: Mode)
      requires Valid() && (pending ==> m == GridMode)
      modifies this`mode, this`circlePoints, this`rectStart, this`activeScp
      ensures Valid() && mode == m
      ensures circlePoints == [] && rectStart.None? && activeScp.None?
    {
      mode, circlePoints, rectStart, activeScp := m, [], None, None;
    }

    /** `set_mode('ffd_grid')`: the transient input is dropped; without a
        lattice one is initialised, and when that fails Tk stays in grid mode
        (its status line asks for a rectangle) while Qt falls back to idle
        through a nested `set_mode(None)`, whose commit finds no lattice. */
    method SetGridMode()
      requires Valid()
      modifies this`mode, this`circlePoints, this`rectStart, this`activeScp, this`scp, this`maxC, this`maxR
      modifies this`cache, this`pending
      ensures Valid()
      ensures circlePoints == [] && rectStart.None? && activeScp.None?
      ensures var out := InitializeMesh(variant, width as real, height as real, old(circle), old(rect));
              old(scp) == map[] ==>
                && mode == (if out.Failed? && variant == Qt then Idle else GridMode)
                && (scp != map[] <==> out.Built?)
                && (out.Built? ==> scp == out.mesh.scp && maxC == out.mesh.maxC && maxR == out.mesh.maxR
                                   && !pending && cache == LatticeCache(variant, scp, width, height, maxC, maxR))
                && (out.Failed? ==> maxC == old(maxC) && maxR == old(maxR))
      ensures old(scp) != map[] ==>
                mode == GridMode && scp == old(scp) && maxC == old(maxC) && maxR == old(maxR)
                && cache == old(cache) && pending == old(pending)
    {
      ResetInput(GridMode);
      if scp == map[] {
        var ok := InitializeFfdMesh();
        if !ok && variant == Qt {
          ResetInput(Idle);
        }
      }
    }

    /** `set_mode`. */
    method SetMode(m: Mode)
      requires Valid()
      modifies this`mode, this`circlePoints, this`rectStart, this`activeScp, this`scp, this`maxC, this`maxR
      modifies this`cache, this`pending
      ensures Valid()
      ensures circlePoints == [] && rectStart.None? && activeScp.None?
      ensures m != GridMode ==> mode == m && !pending && scp == old(scp)
      ensures m == GridMode && (old(scp) != map[] || variant == Tk) ==> mode == GridMode
      ensures m == GridMode && mode == GridMode ==> scp != map[] || variant == Tk
    {
      if m == GridMode {
        SetGridMode();
      } else {
        SetOtherMode(m);
      }
    }

    /** `toggle_ffd_mode` (the Edit Grid button). */
    method ToggleGridMode()
      requires Valid()
      modifies this`mode, this`circlePoints, this`rectStart, this`activeScp, this`scp, this`maxC, this`maxR
      modifies this`cache, this`pending
      ensures Valid()
      ensures old(mode) == GridMode ==>
                mode == Idle && !pending && scp == old(scp) && maxC == old(maxC) && maxR == old(maxR)
                && (scp != map[] ==> cache == LatticeCache(variant, scp, width, height, maxC, maxR))
      ensures old(mode) != GridMode && old(scp) != map[] ==>
                mode == GridMode && scp == old(scp) && maxC == old(maxC) && maxR == old(maxR)
                && cache == old(cache) && pending == old(pending)
      ensures var out := InitializeMesh(variant, width as real, height as real, old(circle), old(rect));
              old(mode) != GridMode && old(scp) == map[] ==>
                && mode == (if out.Failed? && variant == Qt then Idle else GridMode)
                && (scp != map[] <==> out.Built?)
                && (out.Built? ==> scp == out.mesh.scp && maxC == out.mesh.maxC && maxR == out.mesh.maxR
                                   && !pending && cache == LatticeCache(variant, scp, width, height, maxC, maxR))
                && (out.Failed? ==> maxC == old(maxC) && maxR == old(maxR))
    {
      if mode == GridMode {
        SetOtherMode(Idle);
      } else {
        SetGridMode();
      }
    }

    /** A click in circle mode: the point is recorded, and the third point
        fits the circle through all three (`draw_circle_from_points`), then
        the points are dropped. A collinear triple leaves the circle as it
        was. The square root of the squared radius is the parameter `radius`;
        the Tk filled-ellipse stencil rasterised by PIL is `disc`. */
    method ClickCirclePoint(p: Point, radius: real, disc: seq<bool>)
      requires Valid() && mode == CircleMode && |disc| == width * height
      requires |circlePoints| == 2 && FitCircle(variant, circlePoints[0], circlePoints[1], ClickedPoint(variant, p)).Some? ==>
                 var f := FitCircle(variant, circlePoints[0], circlePoints[1], ClickedPoint(variant, p)).value;
                 radius >= 0.0 && radius * radius == f.radiusSq
      modifies this`circlePoints, this`circle, this`stencil
      ensures Valid()
      ensures |old(circlePoints)| < 2 ==>
                circlePoints == old(circlePoints) + [ClickedPoint(variant, p)] && circle == old(circle) && stencil == old(stencil)
      ensures |old(circlePoints)| == 2 ==>
                var a, b, c := old(circlePoints)[0], old(circlePoints)[1], ClickedPoint(variant, p);
                var f := FitCircle(variant, a, b, c);
                && circlePoints == []
                && (f.None? ==> circle == old(circle) && stencil == old(stencil))
                && (f.Some? ==> circle == Some(Circle(f.value.center, radius))
                                && DistSq(a, f.value.center) == DistSq(b, f.value.center) == DistSq(c, f.value.center)
                                   == radius * radius
                                && stencil == (if variant == Tk then Some(disc) else old(stencil)))
    {
      var q := ClickedPoint(variant, p);
      if |circlePoints| < 2 {
        circlePoints := circlePoints + [q];
        return;
      }
      var a, b := circlePoints[0], circlePoints[1];
      var f := FitCircle(variant, a, b, q);
      if f.Some? {
        FitPassesThroughPoints(variant, a, b, q);
        circle := Some(Circle(f.value.center, radius));
        if variant == Tk {
          stencil := Some(disc);
        }
      }
      circlePoints := [];
    }

    /** A press in rectangle mode: the drag starts. */
    method PressRectangle(p: Point)
      requires Valid() && mode == RectangleMode
      modifies this`rectStart
      ensures Valid() && rectStart == Some(p)
    {
      rectStart := Some(p);
    }

    /** A release in rectangle mode: the die rectangle becomes the dragged
        one and the old lattice and cache are discarded. (Qt's guard is the
        intended one, ReleaseFinishes.) */
    method ReleaseRectangle(p: Point)
      requires Valid() && mode == RectangleMode
      modifies this`rect, this`scp, this`cache, this`rectStart
      ensures Valid()
      ensures ReleaseFinishes(old(rectStart)) ==>
                && rect == Some(DragRect(variant, old(rectStart).value, p))
                && scp == map[] && cache == [] && rectStart.None?
      ensures !ReleaseFinishes(old(rectStart)) ==>
                rect == old(rect) && scp == old(scp) && cache == old(cache) && rectStart == old(rectStart)
    {
      if ReleaseFinishes(rectStart) {
        rect := Some(DragRect(variant, rectStart.value, p));
        scp := map[];
        cache := [];
        rectStart := None;
      }
    }

    /** `paint_mask_stroke` (Tk, press and drag in mask mode): without a
        stencil nothing is painted; otherwise the stroke's footprint (the PIL
        line and cap rectangle, rasterised) is painted and clipped to the
        stencil. */
    method PaintMaskStroke(footprint: set<int>)
      requires Valid() && variant == Tk && mode == MaskMode
      modifies mask.alpha
      ensures Valid()
      ensures old(stencil).None? ==> mask.alpha[..] == old(mask.alpha[..])
      ensures old(stencil).Some? ==> mask.alpha[..] == Stroke(old(mask.alpha[..]), footprint, old(stencil).value)
    {
      if stencil.None? {
        return;
      }
      StrokeKeepsDomain(mask.alpha[..], footprint, stencil.value);
      mask.PaintStroke(footprint, stencil.value);
    }

    /** `clear_mask`: every sample transparent. */
    method ClearMask()
      requires Valid()
      modifies mask.alpha
      ensures Valid() && AllClear(mask.alpha[..])
    {
      mask.Clear();
    }

    /** A Tk press in grid mode: the first control point, in insertion
        order, strictly within 10 screen pixels (10 / zoom image pixels) of
        the click becomes the dragged one, or none. Without a lattice nothing
        changes (an error message). */
    method PickControlPoint(click: Point, zoom: real)
      requires Valid() && variant == Tk && mode == GridMode && zoom > 0.0
      modifies this`activeScp
      ensures Valid()
      ensures old(scp) == map[] ==> activeScp == old(activeScp)
      ensures old(scp) != map[] ==> activeScp == PickedScp(scp, click, PickRadiusSq(zoom))
    {
      if scp == map[] {
        return;
      }
      activeScp := PickedScp(scp, click, PickRadiusSq(zoom));
    }

    /** A Qt press in grid mode: the control point whose marker is under the
        mouse (the scene's hit test, `underMouse`) becomes the dragged one;
        markers exist only for a drawn lattice. */
    method PickControlPointUnderMouse(underMouse: Option<Cell>)
      requires Valid() && variant == Qt && mode == GridMode
      requires underMouse.Some? ==> underMouse.value in scp
      modifies this`activeScp
      ensures Valid() && activeScp == underMouse
    {
      activeScp := underMouse;
    }

    /** A drag in grid mode: the dragged control point moves to the pointer
        (Tk clamps it into the image) and the APPLY flag is set; the
        committed cache is untouched until the next commit. */
    method DragControlPoint(p: Point)
      requires Valid() && mode == GridMode
      modifies this`scp, this`pending
      ensures Valid()
      ensures old(activeScp).Some? ==>
                && scp == old(scp)[old(activeScp).value := DragTarget(variant, p, width, height)]
                && pending
      ensures old(activeScp).None? ==> scp == old(scp) && pending == old(pending)
    {
      if activeScp.None? {
        return;
      }
      scp := scp[activeScp.value := DragTarget(variant, p, width, height)];
      pending := true;
    }

    /** A release in grid mode: no control point is dragged any more. */
    method ReleaseControlPoint()
      requires Valid() && mode == GridMode
      modifies this`activeScp
      ensures Valid() && activeScp.None?
    {
      activeScp := None;
    }

    /** The die the names are counted from. */
    method SetNamingOrigin(c: Cell)
      requires Valid()
      modifies this`shift
      ensures Valid() && shift == c
    {
      shift := c;
    }

    /** A click in naming-origin mode: the die found by `_find_clicked_die`
        becomes the naming origin, so that it is labelled `DieNames[5]`. Tk
        acts only with a non-empty cache and then returns to idle whether or
        not a die was found; Qt returns to idle only after a hit. */
    method ClickNamingOrigin(p: Point)
      requires Valid() && mode == NamingMode
      modifies this`shift, this`mode, this`circlePoints, this`rectStart, this`activeScp
      ensures Valid()
      ensures var acts := variant == Qt || old(cache) != [];
              var hit := Hit(variant, old(cache), p, old(rect));
              && shift == (if acts && hit.Some? then hit.value else old(shift))
              && mode == (if acts && (variant == Tk || hit.Some?) then Idle else NamingMode)
      ensures mode == Idle ==> circlePoints == [] && rectStart.None? && activeScp.None?
      ensures mode == NamingMode ==>
                circlePoints == old(circlePoints) && rectStart == old(rectStart) && activeScp == old(activeScp)
    {
      if variant == Tk && cache == [] {
        return;
      }
      var hit := Hit(variant, cache, p, rect);
      if hit.Some? {
        SetNamingOrigin(hit.value);
      }
      if variant == Tk || hit.Some? {
        ResetInput(Idle);
      }
    }

    /** The report of the current state. The APPLY flag is set only in grid
        mode, so both front ends refuse exactly while an edit is pending. */
    method GenerateReport() returns (out: ReportOutcome)
      requires Valid()
      ensures out == Report.GenerateReport(variant, mode == GridMode, pending, cache, rect, circle,
                                           mask.alpha[..], width, height, shift)
      ensures out == Refused(PendingChanges) <==> pending
    {
      out := BuildReport(variant, mode == GridMode, pending, cache, rect, circle, mask, shift);
      ReportRefusals(variant, mode == GridMode, pending, cache, rect, circle, mask.alpha[..], width, height, shift);
    }
  }
}
