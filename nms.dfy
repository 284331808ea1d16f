/**
 * Non-maximum suppression of MTCNN.nms, as a function on box values.
 *
 * The functions below follow the nested loop of the source pair by pair:
 * OuterPass is the loop over i, InnerPass the loop over j > i, PairStep one
 * comparison.  Boxes are never removed or reordered; suppression only sets
 * `deleted`.  Scores and the overlap ratio are exact rationals here.
 */
module Suppression {
  import opened Boxes

  /** One call of nms: the overlap threshold, the method name and Box.area(). */
  datatype NmsParams = NmsParams(threshold: real, mode: string, area: Rect -> int)

  function Max(a: int, b: int): int { if a >= b then a else b }

  function Min(a: int, b: int): int { if a <= b then a else b }

  /** The intersection of two boxes, corner by corner. */
  function Intersection(a: Rect, b: Rect): Rect
  {
    Rect(Max(a.left, b.left), Max(a.top, b.top), Min(a.right, b.right), Min(a.bottom, b.bottom))
  }

  /** A pair is skipped only when the intersection is empty in one direction. */
  predicate Disjoint(a: Rect, b: Rect)
  {
    var i := Intersection(a, b);
    i.right < i.left || i.bottom < i.top
  }

  /** The intersection area counts both edges, so it is at least one pixel. */
  function InterArea(a: Rect, b: Rect): (n: int)
    requires !Disjoint(a, b)
    ensures n >= 1
  {
    var i := Intersection(a, b);
    (i.right - i.left + 1) * (i.bottom - i.top + 1)
  }

  /**
   * `1.0f * inter / den >= t`.  A division by zero yields +infinity (the
   * intersection is positive), which passes every threshold.
   */
  predicate RatioAtLeast(inter: int, den: int, t: real)
  {
    den == 0 || (inter as real) / (den as real) >= t
  }

  /**
   * Whether a pair is close enough for one of them to be suppressed:
   * "Union" divides by the union area, "Min" by the smaller area, and any
   * other method name leaves the ratio at 0.
   */
  predicate OverlapAtLeast(a: Rect, b: Rect, p: NmsParams)
  {
    !Disjoint(a, b) &&
    var inter := InterArea(a, b);
    if p.mode == "Union" then RatioAtLeast(inter, p.area(a) + p.area(b) - inter, p.threshold)
    else if p.mode == "Min" then RatioAtLeast(inter, Min(p.area(a), p.area(b)), p.threshold)
    else 0.0 >= p.threshold
  }

  /** One comparison of box i with a later box j. */
  function PairStep(vs: seq<BoxValue>, i: nat, j: nat, p: NmsParams): (ws: seq<BoxValue>)
    requires i < j < |vs|
    ensures |ws| == |vs|
  {
    if vs[j].deleted || !OverlapAtLeast(vs[i].rect, vs[j].rect, p) then vs
    else if vs[i].score > vs[j].score then vs[j := vs[j].(deleted := true)]
    else vs[i := vs[i].(deleted := true)]
  }

  /** The inner loop of box i, from position j to the end. */
  function InnerPass(vs: seq<BoxValue>, i: nat, j: nat, p: NmsParams): (ws: seq<BoxValue>)
    requires i < j <= |vs|
    ensures |ws| == |vs|
    decreases |vs| - j
  {
    if j == |vs| then vs else InnerPass(PairStep(vs, i, j, p), i, j + 1, p)
  }

  /** The outer loop, from position i to the end: box i is skipped if it is deleted when its turn comes. */
  function OuterPass(vs: seq<BoxValue>, i: nat, p: NmsParams): (ws: seq<BoxValue>)
    requires i <= |vs|
    ensures |ws| == |vs|
    decreases |vs| - i
  {
    if i == |vs| then vs
    else if vs[i].deleted then OuterPass(vs, i + 1, p)
    else OuterPass(InnerPass(vs, i, i + 1, p), i + 1, p)
  }

  /** The effect of one nms call on the boxes of a vector. */
  function Nms(vs: seq<BoxValue>, p: NmsParams): seq<BoxValue>
  {
    OuterPass(vs, 0, p)
  }

  /** `ws` holds the same boxes as `vs`, in the same order, with possibly more of them deleted. */
  ghost predicate MoreDeleted(vs: seq<BoxValue>, ws: seq<BoxValue>)
  {
    |ws| == |vs| &&
    forall k :: 0 <= k < |vs| ==> ws[k] == vs[k].(deleted := ws[k].deleted) && (vs[k].deleted ==> ws[k].deleted)
  }

  /** No two boxes that are both alive are close enough to suppress one another. */
  ghost predicate Stable(vs: seq<BoxValue>, p: NmsParams)
  {
    forall a, b :: 0 <= a < b < |vs| && !vs[a].deleted && !vs[b].deleted ==>
      !OverlapAtLeast(vs[a].rect, vs[b].rect, p)
  }

  /** Every alive box before position i is clear of every later alive box. */
  ghost predicate SettledBelow(vs: seq<BoxValue>, i: nat, p: NmsParams)
  {
    forall a, b :: 0 <= a < i && a < b < |vs| && !vs[a].deleted && !vs[b].deleted ==>
      !OverlapAtLeast(vs[a].rect, vs[b].rect, p)
  }

  /** While box i is alive, it is clear of every alive box in (i, j). */
  ghost predicate InnerSettled(vs: seq<BoxValue>, i: nat, j: nat, p: NmsParams)
    requires i < |vs|
  {
    !vs[i].deleted ==>
      forall b :: i < b < j && b < |vs| && !vs[b].deleted ==> !OverlapAtLeast(vs[i].rect, vs[b].rect, p)
  }

  // ---------------------------------------------------------------------------
  // The overlap test

  /** For a positive denominator the ratio test is the exact cross-multiplication `inter >= t * den`. */
  lemma RatioCrossMultiply(inter: int, den: int, t: real)
    requires den > 0
    ensures RatioAtLeast(inter, den, t) <==> inter as real >= t * (den as real)
  {
    var q := (inter as real) / (den as real);
    assert q * (den as real) == inter as real;
    if q >= t {
      assert q * (den as real) >= t * (den as real);
    } else {
      assert q * (den as real) < t * (den as real);
    }
  }

  /** Boxes that only share an edge still overlap: the intersection is one column wide. */
  lemma TouchingBoxesOverlap(a: Rect, b: Rect)
    requires a.left <= a.right == b.left <= b.right
    requires a.top == b.top <= a.bottom == b.bottom
    ensures !Disjoint(a, b) && InterArea(a, b) == a.bottom - a.top + 1
  {
  }

  /** With a mode name other than "Union" or "Min", a positive threshold never fires. */
  lemma UnknownModeNeverFires(a: Rect, b: Rect, p: NmsParams)
    requires p.mode != "Union" && p.mode != "Min" && p.threshold > 0.0
    ensures !OverlapAtLeast(a, b, p)
  {
  }

  // ---------------------------------------------------------------------------
  // nms only sets flags

  lemma MoreDeletedTransitive(us: seq<BoxValue>, vs: seq<BoxValue>, ws: seq<BoxValue>)
    requires MoreDeleted(us, vs) && MoreDeleted(vs, ws)
    ensures MoreDeleted(us, ws)
  {
  }

  lemma PairStepMarks(vs: seq<BoxValue>, i: nat, j: nat, p: NmsParams)
    requires i < j < |vs|
    ensures MoreDeleted(vs, PairStep(vs, i, j, p))
  {
  }

  lemma {:induction false} InnerPassMarks(vs: seq<BoxValue>, i: nat, j: nat, p: NmsParams)
    requires i < j <= |vs|
    ensures MoreDeleted(vs, InnerPass(vs, i, j, p))
    decreases |vs| - j
  {
    if j < |vs| {
      var ws := PairStep(vs, i, j, p);
      PairStepMarks(vs, i, j, p);
      InnerPassMarks(ws, i, j + 1, p);
      MoreDeletedTransitive(vs, ws, InnerPass(ws, i, j + 1, p));
    }
  }

  lemma {:induction false} OuterPassMarks(vs: seq<BoxValue>, i: nat, p: NmsParams)
    requires i <= |vs|
    ensures MoreDeleted(vs, OuterPass(vs, i, p))
    decreases |vs| - i
  {
    if i < |vs| {
      if vs[i].deleted {
        OuterPassMarks(vs, i + 1, p);
      } else {
        var ws := InnerPass(vs, i, i + 1, p);
        InnerPassMarks(vs, i, i + 1, p);
        OuterPassMarks(ws, i + 1, p);
        MoreDeletedTransitive(vs, ws, OuterPass(ws, i + 1, p));
      }
    }
  }

  /**
   * nms never removes, reorders or edits a box: coordinates, scores,
   * regression deltas and landmarks stay, and a deleted box stays deleted.
   */
  lemma NmsOnlyMarks(vs: seq<BoxValue>, p: NmsParams)
    ensures MoreDeleted(vs, Nms(vs, p))
  {
    OuterPassMarks(vs, 0, p);
  }

  /** nms never increases the number of boxes that survive compaction. */
  lemma NmsSurvivorsBound(vs: seq<BoxValue>, p: NmsParams)
    ensures |Survivors(Nms(vs, p))| <= |Survivors(vs)| <= |vs|
  {
    var ws := Nms(vs, p);
    NmsOnlyMarks(vs, p);
    KeepLength(vs, Deleted(vs));
    KeepMonotone(vs, ws);
  }

  lemma {:induction false} KeepMonotone(vs: seq<BoxValue>, ws: seq<BoxValue>)
    requires MoreDeleted(vs, ws)
    ensures |Survivors(ws)| <= |Survivors(vs)|
  {
    if vs != [] {
      var n := |vs| - 1;
      assert MoreDeleted(vs[..n], ws[..n]);
      KeepMonotone(vs[..n], ws[..n]);
      assert Deleted(vs)[..n] == Deleted(vs[..n]);
      assert Deleted(ws)[..n] == Deleted(ws[..n]);
    }
  }

  // ---------------------------------------------------------------------------
  // The result of nms is stable, hence nms is idempotent

  lemma SettledMonotone(vs: seq<BoxValue>, ws: seq<BoxValue>, i: nat, p: NmsParams)
    requires MoreDeleted(vs, ws) && SettledBelow(vs, i, p)
    ensures SettledBelow(ws, i, p)
  {
  }

  lemma {:induction false} InnerPassSettles(vs: seq<BoxValue>, i: nat, j: nat, p: NmsParams)
    requires i < j <= |vs| && InnerSettled(vs, i, j, p)
    ensures InnerSettled(InnerPass(vs, i, j, p), i, |vs|, p)
    decreases |vs| - j
  {
    if j < |vs| {
      var ws := PairStep(vs, i, j, p);
      PairStepMarks(vs, i, j, p);
      assert InnerSettled(ws, i, j + 1, p);
      InnerPassSettles(ws, i, j + 1, p);
    }
  }

  lemma {:induction false} OuterPassSettles(vs: seq<BoxValue>, i: nat, p: NmsParams)
    requires i <= |vs| && SettledBelow(vs, i, p)
    ensures Stable(OuterPass(vs, i, p), p)
    decreases |vs| - i
  {
    if i == |vs| {
      assert Stable(vs, p);
    } else if vs[i].deleted {
      assert SettledBelow(vs, i + 1, p);
      OuterPassSettles(vs, i + 1, p);
    } else {
      var ws := InnerPass(vs, i, i + 1, p);
      InnerPassMarks(vs, i, i + 1, p);
      InnerPassSettles(vs, i, i + 1, p);
      SettledMonotone(vs, ws, i, p);
      assert SettledBelow(ws, i + 1, p);
      OuterPassSettles(ws, i + 1, p);
    }
  }

  /** After nms no two surviving boxes overlap by the threshold any more. */
  lemma NmsStable(vs: seq<BoxValue>, p: NmsParams)
    ensures Stable(Nms(vs, p), p)
  {
    OuterPassSettles(vs, 0, p);
  }

  lemma {:induction false} InnerPassOfStable(vs: seq<BoxValue>, i: nat, j: nat, p: NmsParams)
    requires i < j <= |vs| && !vs[i].deleted && Stable(vs, p)
    ensures InnerPass(vs, i, j, p) == vs
    decreases |vs| - j
  {
    if j < |vs| {
      assert PairStep(vs, i, j, p) == vs;
      InnerPassOfStable(vs, i, j + 1, p);
    }
  }

  lemma {:induction false} OuterPassOfStable(vs: seq<BoxValue>, i: nat, p: NmsParams)
    requires i <= |vs| && Stable(vs, p)
    ensures OuterPass(vs, i, p) == vs
    decreases |vs| - i
  {
    if i < |vs| {
      if !vs[i].deleted {
        InnerPassOfStable(vs, i, i + 1, p);
      }
      OuterPassOfStable(vs, i + 1, p);
    }
  }

  /** nms leaves a stable vector alone. */
  lemma StableUnchanged(vs: seq<BoxValue>, p: NmsParams)
    requires Stable(vs, p)
    ensures Nms(vs, p) == vs
  {
    OuterPassOfStable(vs, 0, p);
  }

  /** Running nms twice with the same parameters deletes nothing more than running it once. */
  lemma NmsIdempotent(vs: seq<BoxValue>, p: NmsParams)
    ensures Nms(Nms(vs, p), p) == Nms(vs, p)
  {
    NmsStable(vs, p);
    StableUnchanged(Nms(vs, p), p);
  }

  /** An unknown mode name with a positive threshold suppresses nothing. */
  lemma UnknownModeKeepsAll(vs: seq<BoxValue>, p: NmsParams)
    requires p.mode != "Union" && p.mode != "Min" && p.threshold > 0.0
    ensures Nms(vs, p) == vs
  {
    StableUnchanged(vs, p);
  }

  // ---------------------------------------------------------------------------
  // Tie-breaks and the flag of box i

  /**
   * Two alive boxes: if they overlap by the threshold, the second is
   * deleted only when the first scores strictly higher; on a tie, or when
   * the second scores higher, the first is deleted.
   */
  lemma NmsOfPair(a: BoxValue, b: BoxValue, p: NmsParams)
    requires !a.deleted && !b.deleted
    ensures Nms([a, b], p) ==
      if !OverlapAtLeast(a.rect, b.rect, p) then [a, b]
      else if a.score > b.score then [a, b.(deleted := true)]
      else [a.(deleted := true), b]
  {
    var vs := [a, b];
    var ws := PairStep(vs, 0, 1, p);
    assert InnerPass(vs, 0, 1, p) == InnerPass(ws, 0, 2, p) == ws;
    assert OuterPass(ws, 2, p) == ws;
    if !ws[1].deleted {
      assert InnerPass(ws, 1, 2, p) == ws;
    }
    assert OuterPass(ws, 1, p) == ws;
  }

  /** `vs` and `ws` differ at most in the `deleted` flag of box i. */
  ghost predicate SameExceptFlag(vs: seq<BoxValue>, ws: seq<BoxValue>, i: nat)
  {
    |vs| == |ws| && i < |vs| &&
    vs[i].(deleted := false) == ws[i].(deleted := false) &&
    forall k :: 0 <= k < |vs| && k != i ==> vs[k] == ws[k]
  }

  /**
   * Box i's flag is read once, before its inner loop: whether box i is
   * alive or already deleted during its own pass, every other box ends the
   * pass the same.  So a box i deleted mid-pass keeps suppressing later boxes.
   */
  lemma {:induction false} InnerPassIgnoresOwnFlag(vs: seq<BoxValue>, ws: seq<BoxValue>, i: nat, j: nat, p: NmsParams)
    requires i < j <= |vs| && SameExceptFlag(vs, ws, i)
    ensures SameExceptFlag(InnerPass(vs, i, j, p), InnerPass(ws, i, j, p), i)
    decreases |vs| - j
  {
    if j < |vs| {
      var vs', ws' := PairStep(vs, i, j, p), PairStep(ws, i, j, p);
      assert vs[j] == ws[j] && vs[i].rect == ws[i].rect && vs[i].score == ws[i].score;
      assert SameExceptFlag(vs', ws', i);
      InnerPassIgnoresOwnFlag(vs', ws', i, j + 1, p);
    }
  }
}
