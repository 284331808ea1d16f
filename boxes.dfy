/**
 * Candidate face boxes of the MTCNN cascade.
 *
 * A Box is a mutable object: the detector writes its score, regression
 * deltas, landmarks and `deleted` flag in place, and the same objects are
 * shared between the vectors of successive stages.  mtcnn/Box.java is not
 * part of this model, so its own geometry (area, width, height,
 * calibration, squaring, clamping, conversion to an android Rect) is
 * carried as uninterpreted operations in BoxOps.
 */
module Boxes {

  /** The four integer corners a Box keeps in its `box` array: left, top, right, bottom. */
  datatype Rect = Rect(left: int, top: int, right: int, bottom: int)

  /** A landmark point (android.graphics.Point). */
  datatype Point = Point(x: int, y: int)

  /** The contents of one Box at one moment. */
  datatype BoxValue = BoxValue(rect: Rect, score: real, bbr: seq<real>, landmarks: seq<Point>, deleted: bool)

  /** The members of Box.java that the detector calls and that are not modelled. */
  datatype BoxOps = BoxOps(
    left: Rect -> int,
    top: Rect -> int,
    area: Rect -> int,
    width: Rect -> int,
    height: Rect -> int,
    calibrate: (Rect, seq<real>) -> Rect,
    toSquareShape: Rect -> Rect,
    limitSquare: (Rect, int, int) -> Rect,
    transform2Rect: Rect -> Rect)

  class Box {
    var rect: Rect
    var score: real
    var bbr: seq<real>
    var landmarks: seq<Point>
    var deleted: bool

    /** `new Box()` followed by the field assignments of generateBoxes. */
    constructor (rect: Rect, score: real, bbr: seq<real>)
      ensures View() == BoxValue(rect, score, bbr, [], false)
    {
      this.rect := rect;
      this.score := score;
      this.bbr := bbr;
      this.landmarks := [];
      this.deleted := false;
    }

    function View(): BoxValue
      reads this
    {
      BoxValue(rect, score, bbr, landmarks, deleted)
    }
  }

  /** The contents of a vector of boxes. */
  function Views(bs: seq<Box>): (vs: seq<BoxValue>)
    reads bs
    ensures |vs| == |bs|
    ensures forall k :: 0 <= k < |bs| ==> vs[k] == bs[k].View()
  {
    if bs == [] then [] else Views(bs[..|bs| - 1]) + [bs[|bs| - 1].View()]
  }

  /** No Box object occurs twice in a vector. */
  predicate Distinct(bs: seq<Box>)
  {
    forall p, q :: 0 <= p < |bs| && 0 <= q < |bs| && p != q ==> bs[p] != bs[q]
  }

  /** The `deleted` flags of a sequence of box values. */
  function Deleted(vs: seq<BoxValue>): (f: seq<bool>)
    ensures |f| == |vs|
    ensures forall k :: 0 <= k < |vs| ==> f[k] == vs[k].deleted
  {
    if vs == [] then [] else Deleted(vs[..|vs| - 1]) + [vs[|vs| - 1].deleted]
  }

  /** The elements of `xs` whose `drop` flag is false, in their original order. */
  function Keep<T>(xs: seq<T>, drop: seq<bool>): seq<T>
    requires |drop| == |xs|
  {
    if xs == [] then []
    else Keep(xs[..|xs| - 1], drop[..|xs| - 1]) + (if drop[|xs| - 1] then [] else [xs[|xs| - 1]])
  }

  /** The boxes of a vector that are not marked deleted (the result of MTCNN.updateBoxes). */
  function Alive(bs: seq<Box>): seq<Box>
    reads bs
  {
    Keep(bs, Deleted(Views(bs)))
  }

  /** The box values that are not marked deleted. */
  function Survivors(vs: seq<BoxValue>): seq<BoxValue>
  {
    Keep(vs, Deleted(vs))
  }

  lemma {:induction false} KeepLength<T>(xs: seq<T>, drop: seq<bool>)
    requires |drop| == |xs|
    ensures |Keep(xs, drop)| <= |xs|
  {
    if xs != [] {
      KeepLength(xs[..|xs| - 1], drop[..|xs| - 1]);
    }
  }

  /** An element is kept exactly when it sits at a position whose flag is false. */
  lemma {:induction false} KeepMember<T>(xs: seq<T>, drop: seq<bool>, x: T)
    requires |drop| == |xs|
    ensures x in Keep(xs, drop) <==> exists k :: 0 <= k < |xs| && !drop[k] && xs[k] == x
  {
    if xs != [] {
      var n := |xs| - 1;
      var front, fdrop := xs[..n], drop[..n];
      var tail := if drop[n] then [] else [xs[n]];
      KeepMember(front, fdrop, x);
      assert Keep(xs, drop) == Keep(front, fdrop) + tail;
      assert x in Keep(xs, drop) <==> x in Keep(front, fdrop) || x in tail;
      if x in Keep(front, fdrop) {
        var k :| 0 <= k < n && !fdrop[k] && front[k] == x;
        assert !drop[k] && xs[k] == x;
      }
      if exists k :: 0 <= k < |xs| && !drop[k] && xs[k] == x {
        var k :| 0 <= k < |xs| && !drop[k] && xs[k] == x;
        if k < n {
          assert !fdrop[k] && front[k] == x;
        }
      }
    }
  }

  /** Filtering a concatenation filters each part: the kept elements keep their order. */
  lemma {:induction false} KeepAppend<T>(a: seq<T>, fa: seq<bool>, b: seq<T>, fb: seq<bool>)
    requires |fa| == |a| && |fb| == |b|
    ensures Keep(a + b, fa + fb) == Keep(a, fa) + Keep(b, fb)
  {
    if b == [] {
      assert a + b == a && fa + fb == fa;
    } else {
      var n := |b| - 1;
      KeepAppend(a, fa, b[..n], fb[..n]);
      assert (a + b)[..|a + b| - 1] == a + b[..n];
      assert (fa + fb)[..|a + b| - 1] == fa + fb[..n];
    }
  }

  lemma ViewsAppend(a: seq<Box>, b: seq<Box>)
    ensures Views(a + b) == Views(a) + Views(b)
  {
    assert forall k :: 0 <= k < |a + b| ==> Views(a + b)[k] == (Views(a) + Views(b))[k];
  }

  /** Looking at the kept boxes is the same as keeping the looked-at values. */
  lemma {:induction false} ViewsOfKeep(bs: seq<Box>, drop: seq<bool>)
    requires |drop| == |bs|
    ensures Views(Keep(bs, drop)) == Keep(Views(bs), drop)
  {
    if bs != [] {
      var n := |bs| - 1;
      ViewsOfKeep(bs[..n], drop[..n]);
      assert Views(bs)[..n] == Views(bs[..n]);
      var tail := if drop[n] then [] else [bs[n]];
      ViewsAppend(Keep(bs[..n], drop[..n]), tail);
    }
  }

  /** Every kept element comes from the input. */
  lemma KeepMembers<T>(xs: seq<T>, drop: seq<bool>)
    requires |drop| == |xs|
    ensures forall x :: x in Keep(xs, drop) ==> x in xs
  {
    forall x | x in Keep(xs, drop) ensures x in xs {
      KeepMember(xs, drop, x);
    }
  }

  /** Keeping only some boxes of a vector without repetitions gives a vector without repetitions. */
  lemma {:induction false} KeepDistinct(bs: seq<Box>, drop: seq<bool>)
    requires |drop| == |bs| && Distinct(bs)
    ensures Distinct(Keep(bs, drop))
    ensures forall b :: b in Keep(bs, drop) ==> b in bs
  {
    if bs != [] {
      var n := |bs| - 1;
      var front := Keep(bs[..n], drop[..n]);
      KeepDistinct(bs[..n], drop[..n]);
      forall b | b in front ensures b != bs[n] && b in bs {
        var k :| 0 <= k < n && bs[..n][k] == b;
        assert bs[k] == b;
      }
      var r := Keep(bs, drop);
      assert r == front + (if drop[n] then [] else [bs[n]]);
      forall p, q | 0 <= p < q < |r| ensures r[p] != r[q] {
        if q < |front| {
          assert r[p] == front[p] && r[q] == front[q];
        } else {
          assert r[q] == bs[n] && r[p] == front[p];
          assert front[p] in front;
        }
      }
    }
  }

  /** What UpdateBoxes returns: exactly the values of the boxes not marked deleted. */
  lemma ViewsOfAlive(bs: seq<Box>)
    ensures Views(Alive(bs)) == Survivors(Views(bs))
  {
    ViewsOfKeep(bs, Deleted(Views(bs)));
  }
}
