/** Shared vocabulary of the die-counting engine: optional values, image-space
    points, grid cells, the two front ends whose behaviour differs, and the
    Python numeric conversions (`int()`, `math.ceil`, `min`/`max`) the engine
    relies on, written over Dafny's exact reals. */
module Basics {

  datatype Option<+T> = None | Some(value: T)

  /** The two GUI front ends embedding the engine: the Tk one
      (ProcessWaferImage.py) and the PyQt one (WaferAnnotator_pyqt.py). */
  datatype Frontend = Tk | Qt

  /** An image-space position; a Python float pair becomes a pair of reals. */
  datatype Point = Point(x: real, y: real)

  /** A grid index (C, R): a dictionary key of the control lattice, of the
      interpolated-point table and of the die cache. */
  type Cell = (int, int)

  const Origin := Point(0.0, 0.0)

  /** Linear blend `(1 - t) * a + t * b` of two numbers. */
  function Mix(a: real, b: real, t: real): real { (1.0 - t) * a + t * b }

  /** Linear blend `(1 - t) * p + t * q` of two points, the building block of
      the bilinear patch. */
  function Lerp(p: Point, q: Point, t: real): Point {
    Point(Mix(p.x, q.x, t), Mix(p.y, q.y, t))
  }

  function DistSq(p: Point, q: Point): real {
    (p.x - q.x) * (p.x - q.x) + (p.y - q.y) * (p.y - q.y)
  }

  function MinR(a: real, b: real): real { if a <= b then a else b }
  function MaxR(a: real, b: real): real { if a >= b then a else b }
  function MinI(a: int, b: int): int { if a <= b then a else b }
  function MaxI(a: int, b: int): int { if a >= b then a else b }

  function Abs(x: real): real { if x < 0.0 then -x else x }

  /** Python's `int(x)` on a float: truncation toward zero. */
  function Trunc(x: real): (n: int)
    ensures Abs(n as real) <= Abs(x) < Abs(n as real) + 1.0
    ensures x >= 0.0 ==> n >= 0 && n as real <= x
    ensures x <= 0.0 ==> n <= 0 && x <= n as real
  {
    if x >= 0.0 then x.Floor else -((-x).Floor)
  }

  /** Python's `math.ceil(x)`: the least integer not below x. */
  function Ceil(x: real): (n: int)
    ensures x <= n as real < x + 1.0
  {
    -((-x).Floor)
  }

  /** A blend of two numbers with a weight in [0, 1] stays between them; the
      one-dimensional form of "a bilinear point lies in its patch". */
  lemma LerpBetween(a: real, b: real, t: real)
    requires 0.0 <= t <= 1.0
    ensures MinR(a, b) <= Mix(a, b, t) <= MaxR(a, b)
  {
    var d := b - a;
    var m := Mix(a, b, t);
    assert m == a + t * d;
    if d >= 0.0 {
      ProductBounds(t, d);
      assert a <= m <= b;
    } else {
      ProductBounds(t, -d);
      assert t * d == -(t * (-d));
      assert b <= m <= a;
    }
  }

  /** For a weight t in [0, 1] and k >= 0, t * k lies in [0, k]. */
  lemma ProductBounds(t: real, k: real)
    requires 0.0 <= t <= 1.0 && 0.0 <= k
    ensures 0.0 <= t * k <= k
  {
    assert k - t * k == (1.0 - t) * k;
  }
}
