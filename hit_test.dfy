/** `_find_clicked_die`: the die of the committed cache whose centre is
    closest to a click. The Tk front end scans for the first strict minimum
    among the centres within squared distance 2500; the Qt one finds the
    first strict minimum over the whole cache and accepts it only when a die
    rectangle exists and the squared distance is below w^2 + h^2. */
module HitTest {
  import opened Basics
  import opened Ffd
  import opened MeshInit

  /** `TOLERANCE_SQ = 2500` (Tk). */
  const TkToleranceSq: real := 2500.0

  /** The squared distance from the click to every centre, in cache order. */
  function Dists(cache: seq<DieEntry>, p: Point): (ds: seq<real>)
    ensures |ds| == |cache|
  {
    seq(|cache|, i requires 0 <= i < |cache| => DistSq(p, cache[i].center))
  }

  /** Whether a distance takes part in the scan: below the tolerance, or
      every distance when there is none. */
  predicate Eligible(d: real, tol: Option<real>) {
    tol.None? || d < tol.value
  }

  /** The index of the first eligible distance at the minimum, None when no
      distance is eligible. */
  function FirstMin(ds: seq<real>, tol: Option<real>): (k: Option<nat>)
    ensures k.None? <==> forall j :: 0 <= j < |ds| ==> !Eligible(ds[j], tol)
    ensures k.Some? ==> k.value < |ds| && Eligible(ds[k.value], tol)
    ensures k.Some? ==> forall j :: 0 <= j < |ds| && Eligible(ds[j], tol) ==> ds[k.value] <= ds[j]
    ensures k.Some? ==> forall j :: 0 <= j < k.value && Eligible(ds[j], tol) ==> ds[k.value] < ds[j]
    decreases |ds|
  {
    if ds == [] then None
    else
      var n := |ds| - 1;
      var prev := FirstMin(ds[..n], tol);
      assert forall j :: 0 <= j < n ==> ds[..n][j] == ds[j];
      if Eligible(ds[n], tol) && (prev.None? || ds[n] < ds[prev.value]) then Some(n)
      else prev
  }

  /** The squared length of the die rectangle's diagonal (Qt threshold). */
  function DiagonalSq(r: Rect): real {
    DieWidth(r) * DieWidth(r) + DieHeight(r) * DieHeight(r)
  }

  /** The cell a front end reports for a click at p. */
  function Hit(v: Frontend, cache: seq<DieEntry>, p: Point, rect: Option<Rect>): Option<Cell> {
    var ds := Dists(cache, p);
    if v == Tk then
      var k := FirstMin(ds, Some(TkToleranceSq));
      if k.None? then None else Some(cache[k.value].cell)
    else
      var k := FirstMin(ds, None);
      if k.Some? && rect.Some? && ds[k.value] < DiagonalSq(rect.value) then Some(cache[k.value].cell)
      else None
  }

  /** An empty cache never yields a die. */
  lemma EmptyCacheNoHit(v: Frontend, p: Point, rect: Option<Rect>)
    ensures Hit(v, [], p, rect) == None
  {
  }

  /** Tk: a click finds a die exactly when some centre lies within the
      tolerance; the die found lies within it, no die is strictly closer, and
      among equally close dies the first in cache order wins. */
  lemma TkHitCharacterised(cache: seq<DieEntry>, p: Point)
    ensures Hit(Tk, cache, p, None).None? <==> forall j :: 0 <= j < |cache| ==> Dists(cache, p)[j] >= TkToleranceSq
    ensures var ds := Dists(cache, p);
            var k := FirstMin(ds, Some(TkToleranceSq));
            k.Some? ==>
              && Hit(Tk, cache, p, None) == Some(cache[k.value].cell)
              && ds[k.value] < TkToleranceSq
              && (forall j :: 0 <= j < |ds| ==> ds[k.value] <= ds[j])
              && (forall j :: 0 <= j < k.value ==> ds[k.value] < ds[j])
  {
    var ds := Dists(cache, p);
    var k := FirstMin(ds, Some(TkToleranceSq));
    if k.Some? {
      forall j | 0 <= j < |ds| ensures ds[k.value] <= ds[j] {
        if !Eligible(ds[j], Some(TkToleranceSq)) {
          assert ds[k.value] < TkToleranceSq <= ds[j];
        }
      }
    }
  }

  /** Qt: the die found is the first at the minimum over the whole cache, and
      without a die rectangle a click never finds one. */
  lemma QtHitCharacterised(cache: seq<DieEntry>, p: Point, rect: Option<Rect>)
    ensures rect.None? ==> Hit(Qt, cache, p, rect) == None
    ensures Hit(Qt, cache, p, rect).Some? ==>
              exists k :: 0 <= k < |cache| && Hit(Qt, cache, p, rect) == Some(cache[k].cell)
                && Dists(cache, p)[k] < DiagonalSq(rect.value)
                && (forall j :: 0 <= j < |cache| ==> Dists(cache, p)[k] <= Dists(cache, p)[j])
                && (forall j :: 0 <= j < k ==> Dists(cache, p)[k] < Dists(cache, p)[j])
  {
    var ds := Dists(cache, p);
    var k := FirstMin(ds, None);
    if Hit(Qt, cache, p, rect).Some? {
      assert Hit(Qt, cache, p, rect) == Some(cache[k.value].cell);
    }
  }

  /** A tolerance that the overall first minimum already meets does not
      change which entry the scan picks. */
  lemma {:induction false} MinUnderTolerance(ds: seq<real>, t: real)
    requires FirstMin(ds, None).Some?
    requires ds[FirstMin(ds, None).value] < t
    ensures FirstMin(ds, Some(t)) == FirstMin(ds, None)
    decreases |ds|
  {
    var n := |ds| - 1;
    var k := FirstMin(ds, None).value;
    assert forall j :: 0 <= j < n ==> ds[..n][j] == ds[j];
    if k < n {
      assert FirstMin(ds[..n], None) == Some(k);
      MinUnderTolerance(ds[..n], t);
    } else {
      var prevT := FirstMin(ds[..n], Some(t));
      if prevT.Some? {
        assert ds[n] < ds[prevT.value];
      }
    }
  }

  /** When the nearest centre lies within the Tk tolerance and within the
      die rectangle's diagonal, both front ends pick the same die. */
  lemma FrontendsHitAlike(cache: seq<DieEntry>, p: Point, rect: Rect)
    requires FirstMin(Dists(cache, p), None).Some?
    requires Dists(cache, p)[FirstMin(Dists(cache, p), None).value] < TkToleranceSq
    requires Dists(cache, p)[FirstMin(Dists(cache, p), None).value] < DiagonalSq(rect)
    ensures Hit(Tk, cache, p, None) == Hit(Qt, cache, p, Some(rect)) != None
  {
    MinUnderTolerance(Dists(cache, p), TkToleranceSq);
  }

  /** One step of the scan: the prefix one longer either picks its last
      distance or keeps the previous pick. */
  lemma MinStep(ds: seq<real>, i: nat, tol: Option<real>)
    requires i < |ds|
    ensures var prev := FirstMin(ds[..i], tol);
            FirstMin(ds[..i + 1], tol)
            == if Eligible(ds[i], tol) && (prev.None? || ds[i] < ds[prev.value]) then Some(i) else prev
  {
    assert ds[..i + 1][..i] == ds[..i];
  }

  /** The minimum scan of `_find_clicked_die`: a running minimum (None for
      `float('inf')`) and the die that attains it. */
  method FindClickedDie(v: Frontend, cache: seq<DieEntry>, p: Point, rect: Option<Rect>) returns (hit: Option<Cell>)
    ensures hit == Hit(v, cache, p, rect)
  {
    ghost var ds := Dists(cache, p);
    var tol: Option<real> := if v == Tk then Some(TkToleranceSq) else None;
    var minDist: Option<real> := None;
    ghost var best: Option<nat> := None;
    var closest: Option<Cell> := None;
    var i := 0;
    while i < |cache|
      invariant 0 <= i <= |cache|
      invariant best == FirstMin(ds[..i], tol)
      invariant best.Some? ==> best.value < i
      invariant minDist == if best.None? then None else Some(ds[best.value])
      invariant closest == if best.None? then None else Some(cache[best.value].cell)
    {
      MinStep(ds, i, tol);
      var d := DistSq(p, cache[i].center);
      assert d == ds[i];
      if (minDist.None? || d < minDist.value) && (tol.None? || d < tol.value) {
        minDist := Some(d);
        best := Some(i);
        closest := Some(cache[i].cell);
      }
      i := i + 1;
    }
    assert ds[..|cache|] == ds;
    if v == Tk {
      hit := closest;
    } else if closest.Some? && rect.Some? && minDist.value < DiagonalSq(rect.value) {
      hit := closest;
    } else {
      hit := None;
    }
  }
}
