/**
 * CameraActivity's arithmetic: the degrees the preview is turned by
 * (setCameraDisplayOrientation) and the choice of a preview size
 * (getOptimalSize).
 *
 * The aspect-ratio test of getOptimalSize, which compares doubles, is a
 * parameter. Double.MAX_VALUE, the starting smallest difference, is
 * modelled as "no difference yet" (None): every integer difference is
 * below it.
 */
module Camera {
  import opened Wrappers
  import opened JavaInt

  // ---------------------------------------------------------------------------
  // setCameraDisplayOrientation

  /** Surface.ROTATION_0 to ROTATION_270. */
  const Rotation0: int := 0
  const Rotation90: int := 1
  const Rotation180: int := 2
  const Rotation270: int := 3

  /** The degrees of a display rotation; an unknown rotation leaves 0. */
  function RotationDegrees(rotation: int): (degrees: int)
    ensures Rotation0 <= rotation <= Rotation270 ==> degrees == 90 * rotation
    ensures !(Rotation0 <= rotation <= Rotation270) ==> degrees == 0
  {
    match rotation
    case 0 => 0
    case 1 => 90
    case 2 => 180
    case 3 => 270
    case _ => 0
  }

  datatype Facing = Front | Back

  /** The display degree for a camera's facing and mounting orientation on a display rotation. */
  function DisplayDegree(facing: Facing, orientation: int, rotation: int): int
  {
    var degrees := RotationDegrees(rotation);
    match facing
    case Front =>
      var sum := JavaRem(orientation + degrees, 360);
      JavaRem(360 - sum, 360)  // compensates the mirror
    case Back =>
      JavaRem(orientation - degrees + 360, 360)
  }

  /**
   * For a mounting orientation of at least 0 the display degree is in
   * [0, 360). The front camera turns by minus the orientation plus the
   * display rotation, the back camera by the orientation minus the display
   * rotation, both taken modulo 360.
   */
  lemma DisplayDegreeMeaning(facing: Facing, orientation: int, rotation: int)
    requires orientation >= 0
    ensures 0 <= DisplayDegree(facing, orientation, rotation) < 360
    ensures facing == Front ==>
      DisplayDegree(facing, orientation, rotation) == (-(orientation + RotationDegrees(rotation))) % 360
    ensures facing == Back ==>
      DisplayDegree(facing, orientation, rotation) == (orientation - RotationDegrees(rotation)) % 360
  {
    var degrees := RotationDegrees(rotation);
    var sum := JavaRem(orientation + degrees, 360);
    assert sum == (orientation + degrees) % 360;
    if facing == Front {
      assert 0 < 360 - sum <= 360;
      ModuloShift(-(orientation + degrees), 360 - sum);
    } else {
      assert orientation - degrees + 360 > 0;
      ModuloShift(orientation - degrees, orientation - degrees + 360);
    }
  }

  /** Two integers that differ by a multiple of 360 have the same remainder. */
  lemma ModuloShift(a: int, b: int)
    requires (b - a) % 360 == 0
    ensures a % 360 == b % 360
  {
    var q := (b - a) / 360;
    assert b == a + 360 * q;
  }

  /** Turning the display by a quarter turn more turns a back camera's preview a quarter turn less. */
  lemma BackQuarterTurn(orientation: int, rotation: int)
    requires orientation >= 0 && Rotation0 <= rotation < Rotation270
    ensures (DisplayDegree(Back, orientation, rotation + 1) + 90) % 360 == DisplayDegree(Back, orientation, rotation)
  {
    DisplayDegreeMeaning(Back, orientation, rotation);
    DisplayDegreeMeaning(Back, orientation, rotation + 1);
    var x := orientation - RotationDegrees(rotation) - 90;
    assert RotationDegrees(rotation + 1) == RotationDegrees(rotation) + 90;
    var d := DisplayDegree(Back, orientation, rotation + 1);
    assert d == x % 360;
    var q := x / 360;
    assert x == 360 * q + d;
    var r := (d + 90) % 360;
    var e := (d + 90) / 360;
    assert d + 90 == 360 * e + r;
    ModuloUnique(x + 90, q + e, r);
  }

  /** The remainder by 360 is the unique r in [0, 360) with x == 360 * d + r. */
  lemma ModuloUnique(x: int, d: int, r: int)
    requires x == 360 * d + r && 0 <= r < 360
    ensures x % 360 == r
  {
    var q := x / 360;
    assert x == 360 * q + x % 360;
    assert 360 * (d - q) == x % 360 - r;
  }

  /** The front and back degrees of one orientation and rotation are mirror images modulo 360. */
  lemma FrontMirrorsBack(orientation: int)
    requires orientation >= 0
    ensures (DisplayDegree(Front, orientation, Rotation0) + DisplayDegree(Back, orientation, Rotation0)) % 360 == 0
  {
    DisplayDegreeMeaning(Front, orientation, Rotation0);
    DisplayDegreeMeaning(Back, orientation, Rotation0);
    var f := DisplayDegree(Front, orientation, Rotation0);
    var b := DisplayDegree(Back, orientation, Rotation0);
    ModuloShift(-orientation, f);
    ModuloShift(orientation, b);
    ModuloShift(0, f + b);
  }

  // ---------------------------------------------------------------------------
  // getOptimalSize

  /** Camera.Size. */
  datatype Size = Size(width: int, height: int)

  /** `Math.abs(size.height - targetHeight)`. */
  function HeightDiff(size: Size, target: int): nat
  {
    if size.height >= target then size.height - target else target - size.height
  }

  /** i is the earliest size passing `pred` whose height is closest to the target. */
  ghost predicate IsFirstClosest(sizes: seq<Size>, target: int, pred: Size -> bool, i: int)
  {
    0 <= i < |sizes| && pred(sizes[i]) &&
    (forall k :: 0 <= k < |sizes| && pred(sizes[k]) ==> HeightDiff(sizes[i], target) <= HeightDiff(sizes[k], target)) &&
    (forall k :: 0 <= k < i && pred(sizes[k]) ==> HeightDiff(sizes[i], target) < HeightDiff(sizes[k], target))
  }

  /** The index a scan with a strict `<` on the height difference settles on, among the sizes passing `pred`. */
  function Closest(sizes: seq<Size>, target: int, pred: Size -> bool): (r: Option<nat>)
    ensures r.None? <==> forall k :: 0 <= k < |sizes| ==> !pred(sizes[k])
    ensures r.Some? ==> IsFirstClosest(sizes, target, pred, r.value)
  {
    if sizes == [] then None
    else
      var r := Closest(sizes[..|sizes| - 1], target, pred);
      var last := |sizes| - 1;
      assert forall k :: 0 <= k < last ==> sizes[..last][k] == sizes[k];
      if !pred(sizes[last]) then r
      else if r.None? || HeightDiff(sizes[last], target) < HeightDiff(sizes[r.value], target) then Some(last)
      else r
  }

  /**
   * getOptimalSize: the first size of closest height among those that
   * pass the aspect test `fits` for the view w by h, or if none passes,
   * among all sizes; null for an empty list.
   */
  function OptimalSize(sizes: seq<Size>, w: int, h: int, fits: (Size, int, int) -> bool): Option<Size>
  {
    match Closest(sizes, h, s => fits(s, w, h))
    case Some(i) => Some(sizes[i])
    case None =>
      match Closest(sizes, h, _ => true)
      case Some(i) => Some(sizes[i])
      case None => None
  }

  /** There is one earliest closest size. */
  lemma FirstClosestUnique(sizes: seq<Size>, target: int, pred: Size -> bool, i: int, j: int)
    requires IsFirstClosest(sizes, target, pred, i) && IsFirstClosest(sizes, target, pred, j)
    ensures i == j
  {
    assert HeightDiff(sizes[i], target) <= HeightDiff(sizes[j], target) <= HeightDiff(sizes[i], target);
  }

  /**
   * The optimal size is missing only for an empty list; when some size
   * passes the aspect test the result is the first such size of closest
   * height, and otherwise the first size of closest height overall.
   */
  lemma OptimalSizeMeaning(sizes: seq<Size>, w: int, h: int, fits: (Size, int, int) -> bool)
    ensures OptimalSize(sizes, w, h, fits).None? <==> sizes == []
    ensures (exists k :: 0 <= k < |sizes| && fits(sizes[k], w, h)) ==>
      exists i :: IsFirstClosest(sizes, h, s => fits(s, w, h), i) && OptimalSize(sizes, w, h, fits) == Some(sizes[i])
    ensures sizes != [] && (forall k :: 0 <= k < |sizes| ==> !fits(sizes[k], w, h)) ==>
      exists i :: IsFirstClosest(sizes, h, _ => true, i) && OptimalSize(sizes, w, h, fits) == Some(sizes[i])
  {
    var fit := s => fits(s, w, h);
    var any: Size -> bool := _ => true;
    if sizes != [] {
      assert any(sizes[0]);
    }
    if exists k :: 0 <= k < |sizes| && fits(sizes[k], w, h) {
      var k :| 0 <= k < |sizes| && fits(sizes[k], w, h);
      assert fit(sizes[k]);
    }
  }

  /** One pass of getOptimalSize over the sizes passing `pred`, keeping the closest so far and its difference. */
  method ClosestPass(sizes: seq<Size>, target: int, pred: Size -> bool) returns (optimal: Option<Size>)
    ensures optimal == (match Closest(sizes, target, pred) case Some(i) => Some(sizes[i]) case None => None)
  {
    optimal := None;
    var minDiff: Option<nat> := None;
    ghost var idx: Option<nat> := None;
    for n := 0 to |sizes|
      invariant idx == Closest(sizes[..n], target, pred)
      invariant idx.Some? ==> idx.value < n
      invariant optimal == (if idx.None? then None else Some(sizes[idx.value]))
      invariant minDiff == (if idx.None? then None else Some(HeightDiff(sizes[idx.value], target)))
    {
      assert sizes[..n + 1][..n] == sizes[..n];
      var size := sizes[n];
      if !pred(size) {
        continue;
      }
      var diff := HeightDiff(size, target);
      if minDiff.None? || diff < minDiff.value {
        optimal := Some(size);
        minDiff := Some(diff);
        idx := Some(n);
      }
    }
    assert sizes[..|sizes|] == sizes;
  }

  method GetOptimalSize(sizes: seq<Size>, w: int, h: int, fits: (Size, int, int) -> bool) returns (optimal: Option<Size>)
    ensures optimal == OptimalSize(sizes, w, h, fits)
  {
    optimal := ClosestPass(sizes, h, s => fits(s, w, h));
    if optimal.None? {
      optimal := ClosestPass(sizes, h, _ => true);
    }
  }
}
