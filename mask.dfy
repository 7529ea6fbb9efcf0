/** The mask buffer: the alpha channel of the paint layer, one integer per
    pixel in row-major order. A stroke writes alpha 128 on its footprint and
    is then clipped by the circle stencil; clearing zeroes every sample. The
    helpers that read it sample one pixel (`_is_die_masked`) or count the
    painted pixels of a region (`calculate_mask_area_inside_circle` in the Tk
    front end, the `Area_Mask_inside_Circle` sum in the Qt one). */
module MaskRaster {
  import opened Basics
  import opened MeshInit

  /** The alpha of the stroke colour `(0, 255, 0, 128)`. */
  const PaintAlpha := 128
  /** The alpha at which a sample counts as painted. */
  const MaskThreshold := 120

  /** `_is_die_masked`'s test: Tk `alpha >= 120`, Qt `alpha > 120`. */
  predicate SampleMasked(v: Frontend, alpha: int) {
    if v == Tk then alpha >= MaskThreshold else alpha > MaskThreshold
  }

  /** The samples a layer created transparent or painted and clipped can hold. */
  predicate AlphaDomain(a: seq<int>) {
    forall i :: 0 <= i < |a| ==> a[i] == 0 || a[i] == PaintAlpha
  }

  predicate AllClear(a: seq<int>) {
    forall i :: 0 <= i < |a| ==> a[i] == 0
  }

  // ---------------------------------------------------------------------
  // Sampling one pixel

  /** The pixel the Tk front end reads for an image point: `int()` of each
      coordinate clamped into the image; None when the image has no pixel
      (the IndexError branch). */
  function TkSample(p: Point, width: nat, height: nat): (s: Option<Cell>)
    ensures s.Some? <==> width > 0 && height > 0
    ensures s.Some? ==> 0 <= s.value.0 < width && 0 <= s.value.1 < height
  {
    if width == 0 || height == 0 then None
    else Some((MaxI(0, MinI(width - 1, Trunc(p.x))), MaxI(0, MinI(height - 1, Trunc(p.y)))))
  }

  /** The pixel the Qt front end reads: `int()` of each coordinate, None when
      `QImage.valid` rejects it. */
  function QtSample(p: Point, width: nat, height: nat): (s: Option<Cell>)
    ensures s.Some? <==> 0 <= Trunc(p.x) < width && 0 <= Trunc(p.y) < height
  {
    var ix, iy := Trunc(p.x), Trunc(p.y);
    if 0 <= ix < width && 0 <= iy < height then Some((ix, iy)) else None
  }

  function Sample(v: Frontend, p: Point, width: nat, height: nat): Option<Cell> {
    if v == Tk then TkSample(p, width, height) else QtSample(p, width, height)
  }

  /** `_is_die_masked`: whether the pixel under point p is painted. */
  function IsDieMasked(v: Frontend, a: seq<int>, width: nat, height: nat, p: Point): bool
    requires |a| == width * height
  {
    var s := Sample(v, p, width, height);
    s.Some? && (PixelIndexInRange(s.value.0, s.value.1, width, height); SampleMasked(v, a[s.value.1 * width + s.value.0]))
  }

  /** Row-major indices of in-image pixels lie inside the buffer. */
  lemma PixelIndexInRange(x: int, y: int, width: nat, height: nat)
    requires 0 <= x < width && 0 <= y < height
    ensures 0 <= y * width + x < width * height
  {
    assert y * width + x < (y + 1) * width;
    assert (y + 1) * width <= height * width;
  }

  /** Inside the image both front ends read the pixel `(int(x), int(y))`;
      outside it Tk reads the nearest edge pixel, while Qt reports "not
      masked". */
  lemma SamplesAgreeInsideImage(p: Point, width: nat, height: nat)
    requires 0.0 <= p.x < width as real && 0.0 <= p.y < height as real
    ensures TkSample(p, width, height) == QtSample(p, width, height) == Some((Trunc(p.x), Trunc(p.y)))
  {
  }

  lemma QtOutsideImageNotMasked(a: seq<int>, width: nat, height: nat, p: Point)
    requires |a| == width * height
    requires !(0 <= Trunc(p.x) < width && 0 <= Trunc(p.y) < height)
    ensures !IsDieMasked(Qt, a, width, height, p)
  {
  }

  /** Tk: a pixel exists, and the point is masked iff its clamped pixel has
      alpha at least 120. */
  lemma TkMaskedMeansClampedAlpha(a: seq<int>, width: nat, height: nat, p: Point)
    requires |a| == width * height && width > 0 && height > 0
    ensures var ix := MaxI(0, MinI(width - 1, Trunc(p.x)));
            var iy := MaxI(0, MinI(height - 1, Trunc(p.y)));
            && 0 <= iy * width + ix < |a|
            && (IsDieMasked(Tk, a, width, height, p) <==> a[iy * width + ix] >= MaskThreshold)
  {
    PixelIndexInRange(MaxI(0, MinI(width - 1, Trunc(p.x))), MaxI(0, MinI(height - 1, Trunc(p.y))), width, height);
  }

  /** On a buffer whose samples are 0 or 128, the two thresholds agree, so
      for points inside the image both front ends judge a die alike. */
  lemma {:induction false} ThresholdsAgreeOnDomain(a: seq<int>, width: nat, height: nat, p: Point)
    requires |a| == width * height && AlphaDomain(a)
    requires 0.0 <= p.x < width as real && 0.0 <= p.y < height as real
    ensures IsDieMasked(Tk, a, width, height, p) == IsDieMasked(Qt, a, width, height, p)
  {
    SamplesAgreeInsideImage(p, width, height);
    PixelIndexInRange(Trunc(p.x), Trunc(p.y), width, height);
    var k := Trunc(p.y) * width + Trunc(p.x);
    assert a[k] == 0 || a[k] == PaintAlpha;
  }

  // ---------------------------------------------------------------------
  // Painting and clearing

  /** The PIL line and cap rectangle, drawn with fill alpha 128 on the pixels
      of `footprint` (row-major indices; indices off the image are clipped by
      the rasteriser and change nothing). */
  function Painted(a: seq<int>, footprint: set<int>): (r: seq<int>)
    ensures |r| == |a|
  {
    seq(|a|, i requires 0 <= i < |a| => if i in footprint then PaintAlpha else a[i])
  }

  /** `mask_alpha * stencil_array`, applied only when the two shapes agree. */
  function Clipped(a: seq<int>, stencil: seq<bool>): (r: seq<int>)
    ensures |r| == |a|
  {
    if |stencil| != |a| then a
    else seq(|a|, i requires 0 <= i < |a| => if stencil[i] then a[i] else 0)
  }

  /** The Tk `paint_mask_stroke` with a stencil present. */
  function Stroke(a: seq<int>, footprint: set<int>, stencil: seq<bool>): seq<int> {
    Clipped(Painted(a, footprint), stencil)
  }

  /** After a stroke every sample outside the stencil is transparent, and a
      sample inside it is 128 where the brush passed and unchanged elsewhere. */
  lemma StrokeEffect(a: seq<int>, footprint: set<int>, stencil: seq<bool>, i: int)
    requires |stencil| == |a| && 0 <= i < |a|
    ensures |Stroke(a, footprint, stencil)| == |a|
    ensures !stencil[i] ==> Stroke(a, footprint, stencil)[i] == 0
    ensures stencil[i] ==> Stroke(a, footprint, stencil)[i] == if i in footprint then PaintAlpha else a[i]
  {
  }

  /** Strokes keep every sample at 0 or 128. */
  lemma StrokeKeepsDomain(a: seq<int>, footprint: set<int>, stencil: seq<bool>)
    requires AlphaDomain(a)
    ensures AlphaDomain(Stroke(a, footprint, stencil))
  {
  }

  /** A stroke is idempotent: repeating it changes nothing more. */
  lemma StrokeIdempotent(a: seq<int>, footprint: set<int>, stencil: seq<bool>)
    ensures Stroke(Stroke(a, footprint, stencil), footprint, stencil) == Stroke(a, footprint, stencil)
  {
    var once := Stroke(a, footprint, stencil);
    var twice := Stroke(once, footprint, stencil);
    assert |twice| == |once|;
    forall i | 0 <= i < |once| ensures twice[i] == once[i] {
      if |stencil| == |a| {
        StrokeEffect(a, footprint, stencil, i);
        StrokeEffect(once, footprint, stencil, i);
      }
    }
  }

  // ---------------------------------------------------------------------
  // Counting painted pixels

  /** Which pixels a count keeps: the Tk rule keeps alpha >= 120 inside a
      rectangle of the array, the Qt rule alpha >= 120 on the closed disc. */
  datatype AreaRule = Box | Disc(circle: Circle)

  predicate Counted(rule: AreaRule, alpha: int, x: int, y: int) {
    alpha >= MaskThreshold &&
    match rule
    case Box => true
    case Disc(c) =>
      (x as real - c.center.x) * (x as real - c.center.x) + (y as real - c.center.y) * (y as real - c.center.y)
        <= c.radius * c.radius
  }

  /** The kept pixels of row y between columns x0 (inclusive) and x1
      (exclusive). */
  function CountRow(a: seq<int>, width: nat, rule: AreaRule, y: int, x0: int, x1: int): (n: nat)
    requires 0 <= x0 && x1 <= width && 0 <= y && (y + 1) * width <= |a|
    ensures n <= MaxI(0, x1 - x0)
    decreases x1 - x0
  {
    if x1 <= x0 then 0
    else
      assert y * width + x1 - 1 < (y + 1) * width;
      CountRow(a, width, rule, y, x0, x1 - 1) + (if Counted(rule, a[y * width + x1 - 1], x1 - 1, y) then 1 else 0)
  }

  /** The kept pixels of rows y0 .. y1 - 1 between columns x0 and x1. */
  function CountRows(a: seq<int>, width: nat, rule: AreaRule, x0: int, x1: int, y0: int, y1: int): (n: nat)
    requires 0 <= x0 && x1 <= width && 0 <= y0 && y1 * width <= |a|
    ensures n <= MaxI(0, x1 - x0) * MaxI(0, y1 - y0)
    decreases y1 - y0
  {
    if y1 <= y0 then 0
    else
      var above := CountRows(a, width, rule, x0, x1, y0, y1 - 1);
      var last := (LastRowFits(y1, width); CountRow(a, width, rule, y1 - 1, x0, x1));
      AddRow(MaxI(0, x1 - x0), y1 - 1 - y0);
      above + last
  }

  lemma LastRowFits(y1: int, width: nat)
    ensures (y1 - 1 + 1) * width == y1 * width
  {
  }

  /** One more row of x pixels: x k + x == x (k + 1). */
  lemma AddRow(x: int, k: int)
    ensures x * k + x == x * (k + 1)
  {
  }

  lemma {:induction false} CleanRowCountsNothing(a: seq<int>, width: nat, rule: AreaRule, y: int, x0: int, x1: int)
    requires 0 <= x0 && x1 <= width && 0 <= y && (y + 1) * width <= |a|
    requires AllClear(a)
    ensures CountRow(a, width, rule, y, x0, x1) == 0
    decreases x1 - x0
  {
    if x1 > x0 {
      assert y * width + x1 - 1 < (y + 1) * width;
      CleanRowCountsNothing(a, width, rule, y, x0, x1 - 1);
    }
  }

  /** A cleared layer has no painted pixel in any region. */
  lemma {:induction false} CleanLayerCountsNothing(a: seq<int>, width: nat, rule: AreaRule, x0: int, x1: int, y0: int, y1: int)
    requires 0 <= x0 && x1 <= width && 0 <= y0 && y1 * width <= |a|
    requires AllClear(a)
    ensures CountRows(a, width, rule, x0, x1, y0, y1) == 0
    decreases y1 - y0
  {
    if y1 > y0 {
      CleanLayerCountsNothing(a, width, rule, x0, x1, y0, y1 - 1);
      assert y1 * width == (y1 - 1 + 1) * width;
      CleanRowCountsNothing(a, width, rule, y1 - 1, x0, x1);
    }
  }

  /** numpy's normalisation of one slice bound on an axis of length n: a
      negative bound counts from the end, then the bound is clamped to
      [0, n]. */
  function SliceBound(i: int, n: nat): (b: int)
    ensures 0 <= b <= n
  {
    if i < 0 then MaxI(0, i + n) else MinI(i, n)
  }

  /** The Tk region `mask_alpha[y_min:y_max, x_min:x_max]`: the circle's
      bounding box truncated and clamped to the image, or the whole image
      when no circle is defined. */
  datatype Region = Region(x0: int, x1: int, y0: int, y1: int)

  function TkBoxBounds(circle: Option<Circle>, width: nat, height: nat): Region {
    if circle.None? then Region(0, width, 0, height)
    else
      var c := circle.value;
      Region(MaxI(0, Trunc(c.center.x - c.radius)), MinI(width, Trunc(c.center.x + c.radius)),
             MaxI(0, Trunc(c.center.y - c.radius)), MinI(height, Trunc(c.center.y + c.radius)))
  }

  /** The region numpy actually selects, bounds normalised. */
  function TkRegion(circle: Option<Circle>, width: nat, height: nat): (r: Region)
    ensures 0 <= r.x0 <= width && 0 <= r.x1 <= width && 0 <= r.y0 <= height && 0 <= r.y1 <= height
  {
    var b := TkBoxBounds(circle, width, height);
    Region(SliceBound(b.x0, width), SliceBound(b.x1, width), SliceBound(b.y0, height), SliceBound(b.y1, height))
  }

  /** `calculate_mask_area_inside_circle` (Tk). */
  function TkMaskArea(a: seq<int>, width: nat, height: nat, circle: Option<Circle>): nat
    requires |a| == width * height
  {
    var r := TkRegion(circle, width, height);
    RowsFit(r.y1, height, width);
    CountRows(a, width, Box, r.x0, r.x1, r.y0, r.y1)
  }

  /** Rows up to y1 <= height fit in a width x height buffer. */
  lemma RowsFit(y1: int, height: nat, width: nat)
    requires y1 <= height
    ensures y1 * width <= height * width
  {
  }

  /** The Qt `Area_Mask_inside_Circle`: painted pixels whose integer position
      lies on the closed disc. */
  function QtMaskArea(a: seq<int>, width: nat, height: nat, c: Circle): nat
    requires |a| == width * height
  {
    CountRows(a, width, Disc(c), 0, width, 0, height)
  }

  /** The Tk count never exceeds the area of its region, which lies inside
      the image. */
  lemma TkMaskAreaBounded(a: seq<int>, width: nat, height: nat, circle: Option<Circle>)
    requires |a| == width * height
    ensures var r := TkRegion(circle, width, height);
            TkMaskArea(a, width, height, circle) <= MaxI(0, r.x1 - r.x0) * MaxI(0, r.y1 - r.y0)
  {
  }

  /** Both front ends count at most one pixel per pixel of the image. */
  lemma MaskAreasWithinImage(a: seq<int>, width: nat, height: nat, c: Circle)
    requires |a| == width * height
    ensures TkMaskArea(a, width, height, Some(c)) <= width * height
    ensures QtMaskArea(a, width, height, c) <= width * height
  {
    var r := TkRegion(Some(c), width, height);
    TkMaskAreaBounded(a, width, height, Some(c));
    MulLe(MaxI(0, r.x1 - r.x0), width, MaxI(0, r.y1 - r.y0), height);
    MulLe(width, width, height, height);
  }

  lemma MulLe(p: nat, w: nat, q: nat, h: nat)
    requires p <= w && q <= h
    ensures p * q <= w * h
  {
    assert p * q <= w * q;
    assert w * q <= w * h;
  }

  /** A circle inside the image: the Tk region is its bounding box with the
      corners truncated, no slice bound wraps. */
  lemma TkRegionOfInnerCircle(c: Circle, width: nat, height: nat)
    requires 0.0 <= c.radius
    requires 0.0 <= c.center.x - c.radius && c.center.x + c.radius <= width as real
    requires 0.0 <= c.center.y - c.radius && c.center.y + c.radius <= height as real
    ensures TkRegion(Some(c), width, height)
         == Region(Trunc(c.center.x - c.radius), Trunc(c.center.x + c.radius),
                   Trunc(c.center.y - c.radius), Trunc(c.center.y + c.radius))
  {
  }

  /** numpy's negative-end rule: a circle lying wholly left of the image,
      with int(ux + R) == -1, still has the last image column counted. */
  lemma TkNegativeEndWraps(width: nat, height: nat)
    requires width >= 2 && height >= 1
    ensures TkRegion(Some(Circle(Point(-3.0, 0.5), 1.5)), width, height).x1 == width - 1
    ensures TkRegion(Some(Circle(Point(-3.0, 0.5), 1.5)), width, height).x0 == 0
  {
    assert Trunc(-1.5) == -1;
    assert Trunc(-4.5) == -4;
  }

  // ---------------------------------------------------------------------
  // The layer object

  /** The alpha channel of `mask_paint_layer` (Tk) or `mask_layer` (Qt), an
      image of width x height pixels. */
  class AlphaMask {
    const width: nat
    const height: nat
    var alpha: array<int>

    predicate Valid()
      reads this
    {
      alpha.Length == width * height
    }

    /** `Image.new('RGBA', (W, H), (0, 0, 0, 0))`: a transparent layer. */
    constructor (w: nat, h: nat)
      ensures Valid() && width == w && height == h && fresh(alpha)
      ensures AllClear(alpha[..]) && AlphaDomain(alpha[..])
    {
      width, height := w, h;
      alpha := new int[w * h](_ => 0);
    }

    /** `clear_mask`: every sample becomes 0. */
    method Clear()
      requires Valid()
      modifies alpha
      ensures Valid() && AllClear(alpha[..]) && AlphaDomain(alpha[..])
    {
      var i := 0;
      while i < alpha.Length
        invariant 0 <= i <= alpha.Length
        invariant forall k :: 0 <= k < i ==> alpha[k] == 0
      {
        alpha[i] := 0;
        i := i + 1;
      }
    }

    /** The drawing part of the Tk `paint_mask_stroke`, then the clip by the
      stencil: the footprint is given by the rasteriser. */
    method PaintStroke(footprint: set<int>, stencil: seq<bool>)
      requires Valid()
      modifies alpha
      ensures Valid() && alpha[..] == Stroke(old(alpha[..]), footprint, stencil)
    {
      ghost var before := alpha[..];
      var i := 0;
      while i < alpha.Length
        invariant 0 <= i <= alpha.Length
        invariant forall k :: 0 <= k < i ==> alpha[k] == if k in footprint then PaintAlpha else before[k]
        invariant forall k :: i <= k < alpha.Length ==> alpha[k] == before[k]
      {
        if i in footprint {
          alpha[i] := PaintAlpha;
        }
        i := i + 1;
      }
      assert alpha[..] == Painted(before, footprint);
      if |stencil| == alpha.Length {
        ghost var painted := alpha[..];
        i := 0;
        while i < alpha.Length
          invariant 0 <= i <= alpha.Length
          invariant forall k :: 0 <= k < i ==> alpha[k] == if stencil[k] then painted[k] else 0
          invariant forall k :: i <= k < alpha.Length ==> alpha[k] == painted[k]
        {
          alpha[i] := alpha[i] * (if stencil[i] then 1 else 0);
          i := i + 1;
        }
      }
    }

    /** `_is_die_masked` on this layer. */
    function Masked(v: Frontend, p: Point): bool
      reads this, alpha
      requires Valid()
    {
      IsDieMasked(v, alpha[..], width, height, p)
    }

    /** The kept pixels of a region, counted row by row as the vectorised
      numpy sum does. */
    method CountRegion(rule: AreaRule, r: Region) returns (n: nat)
      requires Valid()
      requires 0 <= r.x0 && r.x1 <= width && 0 <= r.y0 && r.y1 <= height
      ensures (RowsFit(r.y1, height, width); n == CountRows(alpha[..], width, rule, r.x0, r.x1, r.y0, r.y1))
      ensures n <= MaxI(0, r.x1 - r.x0) * MaxI(0, r.y1 - r.y0)
    {
      RowsFit(r.y1, height, width);
      n := 0;
      if r.y1 <= r.y0 { return; }
      var y := r.y0;
      while y < r.y1
        invariant r.y0 <= y <= r.y1
        invariant n == CountRows(alpha[..], width, rule, r.x0, r.x1, r.y0, y)
      {
        RowsFit(y + 1, r.y1, width);
        var m := CountRowSpan(rule, y, r.x0, r.x1);
        n := n + m;
        y := y + 1;
      }
    }

    /** The kept pixels of one row between columns x0 and x1. */
    method CountRowSpan(rule: AreaRule, y: int, x0: int, x1: int) returns (m: nat)
      requires Valid()
      requires 0 <= x0 && x1 <= width && 0 <= y < height
      ensures (RowsFit(y + 1, height, width); m == CountRow(alpha[..], width, rule, y, x0, x1))
    {
      RowsFit(y + 1, height, width);
      m := 0;
      if x1 <= x0 { return; }
      var x := x0;
      while x < x1
        invariant x0 <= x <= x1
        invariant m == CountRow(alpha[..], width, rule, y, x0, x)
      {
        assert y * width + x < (y + 1) * width;
        if Counted(rule, alpha[y * width + x], x, y) {
          m := m + 1;
        }
        x := x + 1;
      }
    }

    /** `calculate_mask_area_inside_circle` (Tk). */
    method TkAreaInsideCircle(circle: Option<Circle>) returns (n: nat)
      requires Valid()
      ensures n == TkMaskArea(alpha[..], width, height, circle)
    {
      var r := TkRegion(circle, width, height);
      n := CountRegion(Box, r);
    }

    /** The Qt mask-area sum over the closed disc. */
    method QtAreaInsideCircle(c: Circle) returns (n: nat)
      requires Valid()
      ensures n == QtMaskArea(alpha[..], width, height, c)
      ensures n <= width * height
    {
      n := CountRegion(Disc(c), Region(0, width, 0, height));
    }
  }
}
