/** `count_valid_dies_and_generate_report` (Tk) and `generate_report` (Qt):
    the refusals, the area-ratio estimate and the tally of committed dies
    inside the circle, clean or masked, with the clean ones counted per die
    label. Writing the report file and the message boxes are not modelled. */
module Report {
  import opened Basics
  import opened DieNaming
  import opened Ffd
  import opened MeshInit
  import opened MaskRaster

  /** `math.pi` as a double. */
  const Pi: real := 3.141592653589793

  /** The die counts of a report; `byName[i]` counts the clean dies labelled
      `DieNames[i]`. */
  datatype Tally = Tally(inCircle: nat, clean: nat, masked: nat, byName: seq<nat>)

  function Sum(s: seq<nat>): nat
    decreases |s|
  {
    if s == [] then 0 else Sum(s[..|s| - 1]) + s[|s| - 1]
  }

  function Zeros(n: nat): (z: seq<nat>)
    ensures |z| == n && Sum(z) == 0
    decreases n
  {
    if n == 0 then [] else (assert (Zeros(n - 1) + [0])[..n - 1] == Zeros(n - 1); Zeros(n - 1) + [0])
  }

  /** Counting one more die under one label adds one to the total. */
  lemma {:induction false} SumBump(s: seq<nat>, i: nat)
    requires i < |s|
    ensures Sum(s[i := s[i] + 1]) == Sum(s) + 1
    decreases |s|
  {
    var n := |s| - 1;
    var t := s[i := s[i] + 1];
    if i == n {
      assert t[..n] == s[..n];
    } else {
      assert t[..n] == s[..n][i := s[i] + 1];
      SumBump(s[..n], i);
    }
  }

  /** `dist_sq < radius_sq`: the die centre lies strictly inside the circle. */
  predicate InCircle(e: DieEntry, c: Circle) {
    DistSq(e.center, c.center) < c.radius * c.radius
  }

  function Bump(s: seq<nat>, i: nat): (r: seq<nat>)
    requires i < |s|
    ensures |r| == |s| && Sum(r) == Sum(s) + 1
  {
    SumBump(s, i);
    s[i := s[i] + 1]
  }

  /** The tally loop over the committed cache, in cache order. */
  function TallyOf(v: Frontend, cache: seq<DieEntry>, a: seq<int>, width: nat, height: nat,
                   c: Circle, shift: Cell): (t: Tally)
    requires |a| == width * height
    ensures t.inCircle == t.clean + t.masked
    ensures t.inCircle <= |cache|
    ensures |t.byName| == |DieNames| && Sum(t.byName) == t.clean
    decreases |cache|
  {
    if cache == [] then Tally(0, 0, 0, Zeros(|DieNames|))
    else
      var n := |cache| - 1;
      AddDie(v, TallyOf(v, cache[..n], a, width, height, c, shift), cache[n], a, width, height, c, shift)
  }

  /** One die of the tally loop: outside the circle it is skipped, inside it
      is counted as masked or as clean under its label. */
  function AddDie(v: Frontend, prev: Tally, e: DieEntry, a: seq<int>, width: nat, height: nat,
                  c: Circle, shift: Cell): (t: Tally)
    requires |a| == width * height
    requires |prev.byName| == |DieNames|
    ensures |t.byName| == |DieNames|
    ensures t.inCircle == prev.inCircle + (if InCircle(e, c) then 1 else 0)
    ensures t.masked == prev.masked + (if InCircle(e, c) && IsDieMasked(v, a, width, height, e.center) then 1 else 0)
    ensures t.clean == prev.clean + (if InCircle(e, c) && !IsDieMasked(v, a, width, height, e.center) then 1 else 0)
    ensures Sum(t.byName) == Sum(prev.byName) + t.clean - prev.clean
  {
    if !InCircle(e, c) then prev
    else if IsDieMasked(v, a, width, height, e.center) then
      prev.(inCircle := prev.inCircle + 1, masked := prev.masked + 1)
    else
      prev.(inCircle := prev.inCircle + 1, clean := prev.clean + 1,
            byName := Bump(prev.byName, NameIndex(e.cell.0, e.cell.1, shift)))
  }

  /** On a cleared mask no die is masked: every die inside the circle is
      clean. */
  lemma {:induction false} ClearMaskAllClean(v: Frontend, cache: seq<DieEntry>, a: seq<int>, width: nat, height: nat,
                                             c: Circle, shift: Cell)
    requires |a| == width * height && AllClear(a)
    ensures TallyOf(v, cache, a, width, height, c, shift).masked == 0
    ensures TallyOf(v, cache, a, width, height, c, shift).clean == TallyOf(v, cache, a, width, height, c, shift).inCircle
    decreases |cache|
  {
    if cache != [] {
      var n := |cache| - 1;
      ClearMaskAllClean(v, cache[..n], a, width, height, c, shift);
      var e := cache[n];
      var s := Sample(v, e.center, width, height);
      if s.Some? {
        PixelIndexInRange(s.value.0, s.value.1, width, height);
      }
    }
  }

  /** Moving the naming origin by whole label blocks (3 columns, 6 rows)
      leaves the report unchanged. */
  lemma {:induction false} TallyPeriodicInShift(v: Frontend, cache: seq<DieEntry>, a: seq<int>, width: nat, height: nat,
                                                c: Circle, shift: Cell, k: int, l: int)
    requires |a| == width * height
    ensures TallyOf(v, cache, a, width, height, c, (shift.0 + NumCols * k, shift.1 + NumRows * l))
            == TallyOf(v, cache, a, width, height, c, shift)
    decreases |cache|
  {
    if cache != [] {
      var n := |cache| - 1;
      TallyPeriodicInShift(v, cache[..n], a, width, height, c, shift, k, l);
      var e := cache[n];
      var shifted := (shift.0 + NumCols * k, shift.1 + NumRows * l);
      NameShiftPeriodic(e.cell.0, e.cell.1, shift, k, l);
    }
  }

  lemma NameShiftPeriodic(x: int, y: int, shift: Cell, k: int, l: int)
    ensures NameIndex(x, y, (shift.0 + NumCols * k, shift.1 + NumRows * l)) == NameIndex(x, y, shift)
  {
    NameIndexNeverWraps(x, y, shift);
    NameIndexNeverWraps(x, y, (shift.0 + NumCols * k, shift.1 + NumRows * l));
    assert x - (shift.0 + NumCols * k) == (x - shift.0) + NumCols * (-k);
    assert y - (shift.1 + NumRows * l) == (y - shift.1) + NumRows * (-l);
  }

  /** Every die centre inside the image and a mask holding only 0 and 128:
      the Tk and Qt tallies agree, although their thresholds differ. */
  lemma {:induction false} FrontendsTallyAlike(cache: seq<DieEntry>, a: seq<int>, width: nat, height: nat,
                                               c: Circle, shift: Cell)
    requires |a| == width * height && AlphaDomain(a)
    requires forall e :: e in cache ==> 0.0 <= e.center.x < width as real && 0.0 <= e.center.y < height as real
    ensures TallyOf(Tk, cache, a, width, height, c, shift) == TallyOf(Qt, cache, a, width, height, c, shift)
    decreases |cache|
  {
    if cache != [] {
      var n := |cache| - 1;
      assert forall e :: e in cache[..n] ==> e in cache;
      FrontendsTallyAlike(cache[..n], a, width, height, c, shift);
      ThresholdsAgreeOnDomain(a, width, height, cache[n].center);
    }
  }

  /** The tally of the cache one entry longer. */
  lemma TallyStep(v: Frontend, cache: seq<DieEntry>, i: nat, a: seq<int>, width: nat, height: nat, c: Circle, shift: Cell,
                  prev: Tally)
    requires |a| == width * height && i < |cache|
    requires prev == TallyOf(v, cache[..i], a, width, height, c, shift)
    ensures AddDie(v, prev, cache[i], a, width, height, c, shift) == TallyOf(v, cache[..i + 1], a, width, height, c, shift)
  {
    assert cache[..i + 1][..i] == cache[..i];
  }

  // ---------------------------------------------------------------------
  // Refusals and the report figures

  datatype ReportError =
    | PendingChanges    // the grid has unapplied edits
    | MissingInputs     // no committed dies, no die rectangle or no circle
    | ZeroNominalArea   // Tk: a zero nominal die area raises ZeroDivisionError

  /** The figures of one report. */
  datatype Figures = Figures(circleArea: real, maskArea: nat, cleanArea: real, nominalArea: real,
                             estimate: real, tally: Tally)

  datatype ReportOutcome = Generated(figures: Figures) | Refused(error: ReportError)

  /** Whether pending grid edits block the report: Tk only in grid mode, Qt
      whenever the APPLY button is enabled. */
  predicate PendingBlocks(v: Frontend, inGridMode: bool, pending: bool) {
    pending && (v == Tk ==> inGridMode)
  }

  /** The mask pixels counted inside the circle by each front end. */
  function MaskArea(v: Frontend, a: seq<int>, width: nat, height: nat, c: Circle): nat
    requires |a| == width * height
  {
    if v == Tk then TkMaskArea(a, width, height, Some(c)) else QtMaskArea(a, width, height, c)
  }

  /** `count` dies of area `unit` cover exactly `area`. */
  predicate InDieUnits(count: real, unit: real, area: real) {
    count * unit == area
  }

  /** `Ratio_Estimation`: the clean area over the nominal die area; Qt
      guards a non-positive nominal area with 0, Tk never reaches a zero one
      (ZeroNominalArea). */
  function Estimate(v: Frontend, clean: real, nominal: real): (e: real)
    requires v == Tk ==> nominal != 0.0
    ensures nominal != 0.0 && (v == Tk || nominal > 0.0) ==> InDieUnits(e, nominal, clean)
    ensures v == Qt && nominal <= 0.0 ==> e == 0.0
  {
    if v == Qt && nominal <= 0.0 then 0.0 else clean / nominal
  }

  /** `math.pi * radius ** 2`: the wafer circle's area. */
  function CircleArea(c: Circle): real {
    Pi * (c.radius * c.radius)
  }

  /** `W_die * H_die`: the nominal area of one die. */
  function NominalArea(r: Rect): real {
    DieWidth(r) * DieHeight(r)
  }

  /** The figures of a report whose inputs are all present: the circle
      splits into the masked and the clean area, the mask area is the layer's
      count inside the circle and never exceeds the image, the estimate is the
      clean area in units of one die, and the tally splits the dies inside the
      circle into clean and masked ones, the clean ones spread over the 18
      labels. */
  function FiguresOf(v: Frontend, cache: seq<DieEntry>, r: Rect, c: Circle,
                     a: seq<int>, width: nat, height: nat, shift: Cell): (f: Figures)
    requires |a| == width * height
    requires v == Tk ==> NominalArea(r) != 0.0
    ensures f.circleArea == Pi * (c.radius * c.radius)
    ensures f.nominalArea == DieWidth(r) * DieHeight(r)
    ensures f.maskArea == MaskArea(v, a, width, height, c) && f.maskArea <= width * height
    ensures f.cleanArea + f.maskArea as real == f.circleArea
    ensures f.nominalArea != 0.0 && (v == Tk || f.nominalArea > 0.0) ==> InDieUnits(f.estimate, f.nominalArea, f.cleanArea)
    ensures v == Qt && f.nominalArea <= 0.0 ==> f.estimate == 0.0
    ensures f.tally == TallyOf(v, cache, a, width, height, c, shift)
    ensures f.tally.inCircle == f.tally.clean + f.tally.masked && f.tally.inCircle <= |cache|
    ensures |f.tally.byName| == |DieNames| && Sum(f.tally.byName) == f.tally.clean
  {
    MaskAreasWithinImage(a, width, height, c);
    var nominal := NominalArea(r);
    var circleArea := CircleArea(c);
    var maskArea := MaskArea(v, a, width, height, c);
    var clean := circleArea - maskArea as real;
    var estimate := Estimate(v, clean, nominal);
    Figures(circleArea, maskArea, clean, nominal, estimate, TallyOf(v, cache, a, width, height, c, shift))
  }

  /** The report of either front end, or why it is refused. */
  function GenerateReport(v: Frontend, inGridMode: bool, pending: bool, cache: seq<DieEntry>,
                          rect: Option<Rect>, circle: Option<Circle>,
                          a: seq<int>, width: nat, height: nat, shift: Cell): (out: ReportOutcome)
    requires |a| == width * height
    ensures out.Generated? ==> cache != [] && rect.Some? && circle.Some?
                               && (v == Tk ==> NominalArea(rect.value) != 0.0)
                               && out.figures == FiguresOf(v, cache, rect.value, circle.value, a, width, height, shift)
  {
    if PendingBlocks(v, inGridMode, pending) then Refused(PendingChanges)
    else if cache == [] || !HasRectangle(v, rect) || !HasCircle(v, circle) then Refused(MissingInputs)
    else if v == Tk && NominalArea(rect.value) == 0.0 then Refused(ZeroNominalArea)
    else Generated(FiguresOf(v, cache, rect.value, circle.value, a, width, height, shift))
  }

  /** The refusals, in the order the front ends test them. */
  lemma ReportRefusals(v: Frontend, inGridMode: bool, pending: bool, cache: seq<DieEntry>,
                       rect: Option<Rect>, circle: Option<Circle>, a: seq<int>, width: nat, height: nat, shift: Cell)
    requires |a| == width * height
    ensures var out := GenerateReport(v, inGridMode, pending, cache, rect, circle, a, width, height, shift);
            && (out == Refused(PendingChanges) <==> PendingBlocks(v, inGridMode, pending))
            && (out == Refused(MissingInputs) <==>
                  !PendingBlocks(v, inGridMode, pending) && (cache == [] || !HasRectangle(v, rect) || !HasCircle(v, circle)))
            && (out == Refused(ZeroNominalArea) <==>
                  v == Tk && !PendingBlocks(v, inGridMode, pending) && cache != [] && rect.Some? && circle.Some?
                  && NominalArea(rect.value) == 0.0)
            && (out.Generated? <==> !out.Refused?)
  {
  }

  /** The tally loop: counters and a per-label histogram updated die by die. */
  method TallyDies(v: Frontend, cache: seq<DieEntry>, a: seq<int>, width: nat, height: nat,
                   c: Circle, shift: Cell) returns (t: Tally)
    requires |a| == width * height
    ensures t == TallyOf(v, cache, a, width, height, c, shift)
  {
    var counts := Zeros(|DieNames|);
    var inCircle, clean, masked := 0, 0, 0;
    var i := 0;
    while i < |cache|
      invariant 0 <= i <= |cache|
      invariant Tally(inCircle, clean, masked, counts) == TallyOf(v, cache[..i], a, width, height, c, shift)
    {
      ghost var prev := Tally(inCircle, clean, masked, counts);
      TallyStep(v, cache, i, a, width, height, c, shift, prev);
      var e := cache[i];
      if InCircle(e, c) {
        inCircle := inCircle + 1;
        if !IsDieMasked(v, a, width, height, e.center) {
          clean := clean + 1;
          var k := NameIndex(e.cell.0, e.cell.1, shift);
          counts := Bump(counts, k);
        } else {
          masked := masked + 1;
        }
      }
      assert Tally(inCircle, clean, masked, counts) == AddDie(v, prev, e, a, width, height, c, shift);
      i := i + 1;
    }
    assert cache[..|cache|] == cache;
    t := Tally(inCircle, clean, masked, counts);
  }

  /** `count_valid_dies_and_generate_report` (Tk) and `generate_report` (Qt)
      over the mask layer: the refusals in order, then the mask area counted
      over the layer, the tally loop over the cache, and the estimate. */
  method BuildReport(v: Frontend, inGridMode: bool, pending: bool, cache: seq<DieEntry>,
                     rect: Option<Rect>, circle: Option<Circle>, mask: AlphaMask, shift: Cell)
    returns (out: ReportOutcome)
    requires mask.Valid()
    ensures out == GenerateReport(v, inGridMode, pending, cache, rect, circle,
                                  mask.alpha[..], mask.width, mask.height, shift)
  {
    if PendingBlocks(v, inGridMode, pending) {
      return Refused(PendingChanges);
    }
    if cache == [] || !HasRectangle(v, rect) || !HasCircle(v, circle) {
      return Refused(MissingInputs);
    }
    var r, c := rect.value, circle.value;
    var nominal := NominalArea(r);
    if v == Tk && nominal == 0.0 {
      return Refused(ZeroNominalArea);
    }
    ghost var a := mask.alpha[..];
    var circleArea := CircleArea(c);
    var tally := TallyDies(v, cache, mask.alpha[..], mask.width, mask.height, c, shift);
    var maskArea;
    if v == Tk {
      maskArea := mask.TkAreaInsideCircle(Some(c));
    } else {
      maskArea := mask.QtAreaInsideCircle(c);
    }
    var clean := circleArea - maskArea as real;
    var estimate := if v == Qt && nominal <= 0.0 then 0.0 else clean / nominal;
    out := Generated(Figures(circleArea, maskArea, clean, nominal, estimate, tally));
    assert out.figures == FiguresOf(v, cache, r, c, a, mask.width, mask.height, shift);
  }
}
