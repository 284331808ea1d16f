/**
 * The MTCNN cascade of MTCNN.java: the image pyramid and proposal stage
 * (pNet), the refine stage (rNet), the output stage (oNet) and the
 * detectFaces driver.
 *
 * The three networks, the image resizing and the crops are not modelled;
 * a Picture carries, for one input bitmap, what they return: the proposal
 * network's output grid for each pyramid scale, the refine and output
 * networks' answers for each box, and whether cropAndResize accepts a box
 * (it throws IllegalArgumentException otherwise).
 */
module FaceDetection {
  import opened Wrappers
  import opened Boxes
  import opened Suppression

  /**
   * pNetForward's outputs after transposeBatch, for one scale: a rows x cols
   * grid, `prob(y, x)` the face probability (prob1[0][y][x][1]) and
   * `reg(y, x)` the four regression values of the cell.
   */
  datatype PNetOut = PNetOut(rows: nat, cols: nat, prob: (int, int) -> real, reg: (int, int) -> seq<real>)

  /**
   * A refine or output network's answer for the crop of one box: the face
   * probability (prob1[i][1]), the four regression values and, for the
   * output network only, the ten landmark offsets (five x, then five y).
   */
  datatype StageOut = StageOut(score: real, bbr: seq<real>, marks: seq<real>)

  /** One input bitmap, as seen through the networks and the crop. */
  datatype Picture = Picture(
    width: int,
    height: int,
    pnet: real -> PNetOut,
    rnet: Rect -> StageOut,
    onet: Rect -> StageOut,
    cropFits: Rect -> bool)

  /** The three stage thresholds of a detector. */
  datatype StageThresholds = StageThresholds(p: real, r: real, o: real)

  // ---------------------------------------------------------------------------
  // generateBoxes

  /** Math.round on a float: the nearest integer, halves rounded up. */
  function Round(v: real): (n: int)
    ensures v - 0.5 < n as real <= v + 0.5
  {
    (v + 0.5).Floor
  }

  /** The image rectangle of the 12x12 window that proposal cell (x, y) saw at this scale. */
  function CellRect(x: int, y: int, scale: real): Rect
    requires scale > 0.0
  {
    Rect(Round((x * 2) as real / scale), Round((y * 2) as real / scale),
         Round((x * 2 + 11) as real / scale), Round((y * 2 + 11) as real / scale))
  }

  function CellBox(out: PNetOut, y: int, x: int, scale: real): BoxValue
    requires scale > 0.0
  {
    BoxValue(CellRect(x, y, scale), out.prob(y, x), out.reg(y, x), [], false)
  }

  /** The boxes generateBoxes creates for cells 0..n-1 of row y. */
  function RowCandidates(out: PNetOut, y: int, n: nat, scale: real, t: real): seq<BoxValue>
    requires scale > 0.0
  {
    if n == 0 then []
    else RowCandidates(out, y, n - 1, scale, t) + (if out.prob(y, n - 1) > t then [CellBox(out, y, n - 1, scale)] else [])
  }

  /** The boxes generateBoxes creates for rows 0..m-1, row by row. */
  function GridCandidates(out: PNetOut, m: nat, scale: real, t: real): seq<BoxValue>
    requires scale > 0.0
  {
    if m == 0 then []
    else GridCandidates(out, m - 1, scale, t) + RowCandidates(out, m - 1, out.cols, scale, t)
  }

  function Candidates(out: PNetOut, scale: real, t: real): seq<BoxValue>
    requires scale > 0.0
  {
    GridCandidates(out, out.rows, scale, t)
  }

  /** A cell's box runs from left to right and from top to bottom. */
  lemma CellRectOrdered(x: int, y: int, scale: real)
    requires scale > 0.0
    ensures var r := CellRect(x, y, scale); r.left <= r.right && r.top <= r.bottom
  {
    var d := 11.0 / scale;
    assert d > 0.0;
    assert (x * 2 + 11) as real / scale == (x * 2) as real / scale + d;
    assert (y * 2 + 11) as real / scale == (y * 2) as real / scale + d;
  }

  lemma {:induction false} RowCandidatesMember(out: PNetOut, y: int, n: nat, scale: real, t: real, v: BoxValue)
    requires scale > 0.0
    ensures v in RowCandidates(out, y, n, scale, t) <==>
      exists x :: 0 <= x < n && out.prob(y, x) > t && v == CellBox(out, y, x, scale)
  {
    if n > 0 {
      RowCandidatesMember(out, y, n - 1, scale, t, v);
    }
  }

  lemma {:induction false} GridCandidatesMember(out: PNetOut, m: nat, scale: real, t: real, v: BoxValue)
    requires scale > 0.0
    ensures v in GridCandidates(out, m, scale, t) <==>
      exists y, x :: 0 <= y < m && 0 <= x < out.cols && out.prob(y, x) > t && v == CellBox(out, y, x, scale)
  {
    if m > 0 {
      GridCandidatesMember(out, m - 1, scale, t, v);
      RowCandidatesMember(out, m - 1, out.cols, scale, t, v);
    }
  }

  /**
   * generateBoxes makes a box exactly for the cells whose probability is
   * strictly above the threshold; each is alive and carries the cell's
   * probability as its score, so a cell scoring exactly the threshold is dropped.
   */
  lemma CandidatesExactly(out: PNetOut, scale: real, t: real, v: BoxValue)
    requires scale > 0.0
    ensures v in Candidates(out, scale, t) <==>
      exists y, x :: 0 <= y < out.rows && 0 <= x < out.cols && out.prob(y, x) > t && v == CellBox(out, y, x, scale)
    ensures v in Candidates(out, scale, t) ==> v.score > t && !v.deleted && v.landmarks == []
  {
    GridCandidatesMember(out, out.rows, scale, t, v);
  }

  // ---------------------------------------------------------------------------
  // The per-box loops of the stages

  /** rNetForward: each box takes the refine network's score and regression for its crop. */
  function RForward(vs: seq<BoxValue>, net: Rect -> StageOut): seq<BoxValue>
  {
    seq(|vs|, k requires 0 <= k < |vs| => vs[k].(score := net(vs[k].rect).score, bbr := net(vs[k].rect).bbr))
  }

  /** Landmark offset j; an entry the network did not fill keeps Java's initial 0. */
  function Mark(marks: seq<real>, j: int): real
  {
    if 0 <= j < |marks| then marks[j] else 0.0
  }

  /** Landmark j of a box: its offsets scaled by the box's width and height, from its left-top corner. */
  function LandmarkAt(r: Rect, marks: seq<real>, ops: BoxOps, j: int): Point
  {
    Point(Round(ops.left(r) as real + Mark(marks, j) * ops.width(r) as real),
          Round(ops.top(r) as real + Mark(marks, j + 5) * ops.height(r) as real))
  }

  /** oNetForward: the same, and the five landmarks derived from the box. */
  function OForward(vs: seq<BoxValue>, net: Rect -> StageOut, ops: BoxOps): seq<BoxValue>
  {
    seq(|vs|, k requires 0 <= k < |vs| => OScored(vs[k], net, ops))
  }

  /** One box after oNetForward: its score, regression values and five landmarks from its crop's output. */
  function OScored(v: BoxValue, net: Rect -> StageOut, ops: BoxOps): BoxValue
  {
    var out := net(v.rect);
    v.(score := out.score, bbr := out.bbr,
       landmarks := seq(5, j requires 0 <= j < 5 => LandmarkAt(v.rect, out.marks, ops, j)))
  }

  /** The stage cut-off: a box scoring strictly below the threshold is marked deleted. */
  function MarkBelow(vs: seq<BoxValue>, t: real): seq<BoxValue>
  {
    seq(|vs|, k requires 0 <= k < |vs| => vs[k].(deleted := vs[k].deleted || vs[k].score < t))
  }

  /** BoundingBoxReggression: every box, deleted or not, is calibrated by its regression values. */
  function Calibrated(vs: seq<BoxValue>, ops: BoxOps): seq<BoxValue>
  {
    seq(|vs|, k requires 0 <= k < |vs| => vs[k].(rect := ops.calibrate(vs[k].rect, vs[k].bbr)))
  }

  /** square_limit: every box is squared and then clamped to the picture. */
  function SquareLimited(vs: seq<BoxValue>, ops: BoxOps, w: int, h: int): seq<BoxValue>
  {
    seq(|vs|, k requires 0 <= k < |vs| => vs[k].(rect := ops.limitSquare(ops.toSquareShape(vs[k].rect), w, h)))
  }

  /** Whether cropAndResize accepts every box of a stage's input. */
  predicate AllCropsFit(vs: seq<BoxValue>, pic: Picture)
  {
    forall k :: 0 <= k < |vs| ==> pic.cropFits(vs[k].rect)
  }

  function UnionNms(ops: BoxOps, t: real): NmsParams { NmsParams(t, "Union", ops.area) }

  function MinNms(ops: BoxOps, t: real): NmsParams { NmsParams(t, "Min", ops.area) }

  /** The boxes of rNet after its loops: score, cut-off, nms 0.7 "Union", then calibration. */
  function RNetBoxes(vs: seq<BoxValue>, pic: Picture, ops: BoxOps, t: real): seq<BoxValue>
  {
    Calibrated(Nms(MarkBelow(RForward(vs, pic.rnet), t), UnionNms(ops, 0.7)), ops)
  }

  /** The boxes of oNet after its loops: score, cut-off, calibration, then nms 0.7 "Min". */
  function ONetBoxes(vs: seq<BoxValue>, pic: Picture, ops: BoxOps, t: real): seq<BoxValue>
  {
    Nms(Calibrated(MarkBelow(OForward(vs, pic.onet, ops), t), ops), MinNms(ops, 0.7))
  }

  // ---------------------------------------------------------------------------
  // The image pyramid of pNet

  /** An upper bound on the pyramid steps left: each step grows the face size by at least 291/709. */
  function Steps(cfs: real, whMin: int): int
  {
    ((whMin as real - cfs) * 709.0 / 291.0).Floor
  }

  lemma StepsDecrease(cfs: FaceSize, whMin: int)
    ensures Steps(cfs / 0.709, whMin) < Steps(cfs, whMin)
    ensures cfs <= whMin as real ==> Steps(cfs, whMin) >= 0
  {
    var a := (whMin as real - cfs) * 709.0 / 291.0;
    var b := (whMin as real - cfs / 0.709) * 709.0 / 291.0;
    assert cfs / 0.709 == cfs * 1000.0 / 709.0;
    assert b == a - cfs;
  }

  /** A face size of the pyramid: never smaller than one pixel, since minSize is positive. */
  type FaceSize = r: real | r >= 1.0 witness 1.0

  /**
   * The face sizes pNet visits from `cfs` on: `cfs`, `cfs / 0.709`, ... as long
   * as the size does not exceed the shorter side of the picture.
   */
  function FaceSizes(cfs: FaceSize, whMin: int): seq<FaceSize>
    decreases Steps(cfs, whMin) + 1
  {
    if cfs > whMin as real then []
    else
      StepsDecrease(cfs, whMin);
      assert cfs / 0.709 >= cfs;
      [cfs] + FaceSizes(cfs / 0.709, whMin)
  }

  /**
   * The pyramid starts at `cfs` unless `cfs` already exceeds the shorter
   * side, and it stops at the first size whose successor exceeds `whMin`.
   */
  lemma {:induction false} FaceSizesRun(cfs: FaceSize, whMin: int)
    ensures var s := FaceSizes(cfs, whMin);
      (s == [] <==> cfs > whMin as real) &&
      (s != [] ==> s[0] == cfs && s[|s| - 1] / 0.709 > whMin as real)
    decreases Steps(cfs, whMin) + 1
  {
    if cfs <= whMin as real {
      StepsDecrease(cfs, whMin);
      var next := cfs / 0.709;
      assert next == cfs * 1000.0 / 709.0;
      FaceSizesRun(next, whMin);
      var s := FaceSizes(cfs, whMin);
      assert s == [cfs] + FaceSizes(next, whMin);
    }
  }

  /** Every visited size lies between the starting size and the shorter side of the picture. */
  lemma {:induction false} FaceSizesWithin(cfs: FaceSize, whMin: int)
    ensures forall k :: 0 <= k < |FaceSizes(cfs, whMin)| ==> cfs <= FaceSizes(cfs, whMin)[k] <= whMin as real
    decreases Steps(cfs, whMin) + 1
  {
    if cfs <= whMin as real {
      StepsDecrease(cfs, whMin);
      var next: FaceSize := cfs / 0.709;
      FaceSizesWithin(next, whMin);
      assert FaceSizes(cfs, whMin) == [cfs] + FaceSizes(next, whMin);
    }
  }

  /** Each size of the pyramid is the previous one divided by 0.709. */
  lemma {:induction false} FaceSizesNext(cfs: FaceSize, whMin: int, k: nat)
    requires k + 1 < |FaceSizes(cfs, whMin)|
    ensures FaceSizes(cfs, whMin)[k + 1] == FaceSizes(cfs, whMin)[k] / 0.709
    decreases k
  {
    StepsDecrease(cfs, whMin);
    var next := cfs / 0.709;
    assert next >= 1.0 by {
      assert next == cfs * 1000.0 / 709.0;
    }
    assert FaceSizes(cfs, whMin) == [cfs] + FaceSizes(next, whMin);
    if k > 0 {
      FaceSizesNext(next, whMin, k - 1);
    }
  }

  /** Dividing the k-th size by 0.709 gives the next size, or a size beyond `whMin` after the last. */
  lemma FaceSizesAdvance(cfs: FaceSize, whMin: int, k: nat)
    requires k < |FaceSizes(cfs, whMin)|
    ensures var s := FaceSizes(cfs, whMin);
      if k + 1 < |s| then s[k] / 0.709 == s[k + 1] <= whMin as real else s[k] / 0.709 > whMin as real
  {
    FaceSizesRun(cfs, whMin);
    if k + 1 < |FaceSizes(cfs, whMin)| {
      FaceSizesNext(cfs, whMin, k);
      FaceSizesWithin(cfs, whMin);
    }
  }

  /** The boxes one pyramid scale contributes: candidates, nms 0.5 "Union", the survivors. */
  function ScaleBoxes(pic: Picture, ops: BoxOps, t: real, cfs: FaceSize): seq<BoxValue>
  {
    var scale := 12.0 / (cfs as real);
    Survivors(Nms(Candidates(pic.pnet(scale), scale, t), UnionNms(ops, 0.5)))
  }

  /** The boxes of all visited scales, in the order of the scales. */
  function PyramidBoxes(pic: Picture, ops: BoxOps, t: real, sizes: seq<FaceSize>): seq<BoxValue>
  {
    if sizes == [] then []
    else PyramidBoxes(pic, ops, t, sizes[..|sizes| - 1]) + ScaleBoxes(pic, ops, t, sizes[|sizes| - 1])
  }

  lemma PyramidBoxesNext(pic: Picture, ops: BoxOps, t: real, sizes: seq<FaceSize>, k: nat)
    requires k < |sizes|
    ensures PyramidBoxes(pic, ops, t, sizes[..k + 1]) == PyramidBoxes(pic, ops, t, sizes[..k]) + ScaleBoxes(pic, ops, t, sizes[k])
  {
    assert sizes[..k + 1][..k] == sizes[..k];
  }

  function MinSide(pic: Picture): int
  {
    if pic.width <= pic.height then pic.width else pic.height
  }

  /** The boxes of pNet after its final nms 0.7 "Union" and calibration, before compaction. */
  function PNetBoxes(pic: Picture, ops: BoxOps, t: real, minSize: int): seq<BoxValue>
    requires minSize > 0
  {
    var sizes := FaceSizes(minSize as real, MinSide(pic));
    Calibrated(Nms(PyramidBoxes(pic, ops, t, sizes), UnionNms(ops, 0.7)), ops)
  }

  /**
   * detectFaces: pNet, square_limit, rNet, square_limit, oNet; a crop that
   * cropAndResize refuses in either later stage ends the detection with no face.
   */
  function Detect(pic: Picture, ops: BoxOps, th: StageThresholds, minSize: int): seq<BoxValue>
    requires minSize > 0
  {
    var proposals := SquareLimited(Survivors(PNetBoxes(pic, ops, th.p, minSize)), ops, pic.width, pic.height);
    if !AllCropsFit(proposals, pic) then []
    else
      var refined := SquareLimited(Survivors(RNetBoxes(proposals, pic, ops, th.r)), ops, pic.width, pic.height);
      if !AllCropsFit(refined, pic) then []
      else Survivors(ONetBoxes(refined, pic, ops, th.o))
  }

  // ---------------------------------------------------------------------------
  // What the stages guarantee about the boxes they return

  /** Every alive box scores at least `t`. */
  ghost predicate AliveReach(vs: seq<BoxValue>, t: real)
  {
    forall k :: 0 <= k < |vs| && !vs[k].deleted ==> vs[k].score >= t
  }

  /** Every alive box scores strictly above `t`. */
  ghost predicate AliveAbove(vs: seq<BoxValue>, t: real)
  {
    forall k :: 0 <= k < |vs| && !vs[k].deleted ==> vs[k].score > t
  }

  /** A box survives compaction exactly when it is one of the alive boxes. */
  lemma SurvivorsMember(vs: seq<BoxValue>, v: BoxValue)
    ensures v in Survivors(vs) <==> exists k :: 0 <= k < |vs| && !vs[k].deleted && vs[k] == v
  {
    KeepMember(vs, Deleted(vs), v);
  }

  lemma AliveReachSurvivors(vs: seq<BoxValue>, t: real)
    requires AliveReach(vs, t)
    ensures forall v :: v in Survivors(vs) ==> v.score >= t
  {
    forall v | v in Survivors(vs) ensures v.score >= t {
      SurvivorsMember(vs, v);
    }
  }

  lemma MoreDeletedKeepsAbove(vs: seq<BoxValue>, ws: seq<BoxValue>, t: real)
    requires MoreDeleted(vs, ws)
    ensures AliveReach(vs, t) ==> AliveReach(ws, t)
    ensures AliveAbove(vs, t) ==> AliveAbove(ws, t)
  {
    assert forall k :: 0 <= k < |vs| ==> ws[k].score == vs[k].score;
  }

  /**
   * Every box rNet returns scores at least the refine threshold: the
   * cut-off is strict, and neither nms nor calibration changes a score.
   */
  lemma RNetReachesThreshold(vs: seq<BoxValue>, pic: Picture, ops: BoxOps, t: real)
    ensures forall v :: v in Survivors(RNetBoxes(vs, pic, ops, t)) ==> v.score >= t
  {
    var marked := MarkBelow(RForward(vs, pic.rnet), t);
    assert AliveReach(marked, t);
    NmsOnlyMarks(marked, UnionNms(ops, 0.7));
    MoreDeletedKeepsAbove(marked, Nms(marked, UnionNms(ops, 0.7)), t);
    AliveReachSurvivors(RNetBoxes(vs, pic, ops, t), t);
  }

  /**
   * Every box oNet returns scores at least the output threshold, and no
   * two of the boxes it keeps overlap by 0.7 of the smaller one any more.
   */
  lemma ONetReachesThreshold(vs: seq<BoxValue>, pic: Picture, ops: BoxOps, t: real)
    ensures forall v :: v in Survivors(ONetBoxes(vs, pic, ops, t)) ==> v.score >= t
    ensures Stable(ONetBoxes(vs, pic, ops, t), MinNms(ops, 0.7))
  {
    var calibrated := Calibrated(MarkBelow(OForward(vs, pic.onet, ops), t), ops);
    assert AliveReach(calibrated, t);
    NmsOnlyMarks(calibrated, MinNms(ops, 0.7));
    MoreDeletedKeepsAbove(calibrated, ONetBoxes(vs, pic, ops, t), t);
    AliveReachSurvivors(ONetBoxes(vs, pic, ops, t), t);
    NmsStable(calibrated, MinNms(ops, 0.7));
  }

  lemma {:induction false} PyramidAbove(pic: Picture, ops: BoxOps, t: real, sizes: seq<FaceSize>)
    ensures AliveAbove(PyramidBoxes(pic, ops, t, sizes), t)
  {
    if sizes != [] {
      var n := |sizes| - 1;
      PyramidAbove(pic, ops, t, sizes[..n]);
      var scale := 12.0 / (sizes[n] as real);
      var cands := Candidates(pic.pnet(scale), scale, t);
      forall k | 0 <= k < |cands| ensures cands[k].score > t {
        CandidatesExactly(pic.pnet(scale), scale, t, cands[k]);
      }
      NmsOnlyMarks(cands, UnionNms(ops, 0.5));
      var kept := ScaleBoxes(pic, ops, t, sizes[n]);
      forall k | 0 <= k < |kept| ensures kept[k].score > t && !kept[k].deleted {
        SurvivorsMember(Nms(cands, UnionNms(ops, 0.5)), kept[k]);
      }
    }
  }

  /** Every box pNet returns scores strictly above the proposal threshold. */
  lemma PNetAboveThreshold(pic: Picture, ops: BoxOps, t: real, minSize: int)
    requires minSize > 0
    ensures forall v :: v in Survivors(PNetBoxes(pic, ops, t, minSize)) ==> v.score > t
  {
    var sizes := FaceSizes(minSize as real, MinSide(pic));
    FaceSizesRun(minSize as real, MinSide(pic));
    var all := PyramidBoxes(pic, ops, t, sizes);
    PyramidAbove(pic, ops, t, sizes);
    NmsOnlyMarks(all, UnionNms(ops, 0.7));
    MoreDeletedKeepsAbove(all, Nms(all, UnionNms(ops, 0.7)), t);
    forall v | v in Survivors(PNetBoxes(pic, ops, t, minSize)) ensures v.score > t {
      SurvivorsMember(PNetBoxes(pic, ops, t, minSize), v);
    }
  }

  /** Every face detectFaces reports is alive and passed the output cut-off. */
  lemma DetectedFacesReachThreshold(pic: Picture, ops: BoxOps, th: StageThresholds, minSize: int)
    requires minSize > 0
    ensures forall v :: v in Detect(pic, ops, th, minSize) ==> v.score >= th.o && !v.deleted
  {
    var proposals := SquareLimited(Survivors(PNetBoxes(pic, ops, th.p, minSize)), ops, pic.width, pic.height);
    if AllCropsFit(proposals, pic) {
      var refined := SquareLimited(Survivors(RNetBoxes(proposals, pic, ops, th.r)), ops, pic.width, pic.height);
      if AllCropsFit(refined, pic) {
        ONetReachesThreshold(refined, pic, ops, th.o);
        forall v | v in Detect(pic, ops, th, minSize) ensures !v.deleted {
          SurvivorsMember(ONetBoxes(refined, pic, ops, th.o), v);
        }
      }
    }
  }

  // ---------------------------------------------------------------------------
  // The detector object

  /** The boxes before position i already hold `after`, the rest still hold `before`. */
  ghost predicate UpdatedUpTo(bs: seq<Box>, before: seq<BoxValue>, after: seq<BoxValue>, i: int)
    reads bs
  {
    |before| == |bs| == |after| && 0 <= i <= |bs| &&
    (forall k :: 0 <= k < i ==> bs[k].View() == after[k]) &&
    (forall k :: i <= k < |bs| ==> bs[k].View() == before[k])
  }

  class Mtcnn {
    var pNetThreshold: real
    var rNetThreshold: real
    var oNetThreshold: real

    /** A detector with the default thresholds 0.6, 0.7 and 0.7. */
    constructor ()
      ensures Current() == StageThresholds(0.6, 0.7, 0.7)
    {
      pNetThreshold := 0.6;
      rNetThreshold := 0.7;
      oNetThreshold := 0.7;
    }

    function Current(): StageThresholds
      reads this
    {
      StageThresholds(pNetThreshold, rNetThreshold, oNetThreshold)
    }

    /** The proposal threshold becomes `threshold`, both later stages `threshold + 0.1`. */
    method SetThreshold(threshold: real)
      modifies this
      ensures Current() == StageThresholds(threshold, threshold + 0.1, threshold + 0.1)
    {
      pNetThreshold := threshold;
      rNetThreshold := threshold + 0.1;
      oNetThreshold := threshold + 0.1;
    }

    /** nms: marks boxes deleted in place, exactly as the value-level Nms prescribes. */
    static method Nms(boxes: seq<Box>, p: NmsParams)
      requires Distinct(boxes)
      modifies set b | b in boxes
      ensures Views(boxes) == Suppression.Nms(old(Views(boxes)), p)
    {
      var i := 0;
      while i < |boxes|
        invariant 0 <= i <= |boxes|
        invariant OuterPass(Views(boxes), i, p) == Suppression.Nms(old(Views(boxes)), p)
      {
        if !boxes[i].deleted {
          SuppressAfter(boxes, i, p);
        }
        i := i + 1;
      }
    }

    /** The inner loop of nms for an alive box i: compares it with every later box. */
    static method SuppressAfter(boxes: seq<Box>, i: nat, p: NmsParams)
      requires i < |boxes| && Distinct(boxes)
      modifies set b | b in boxes
      ensures Views(boxes) == InnerPass(old(Views(boxes)), i, i + 1, p)
    {
      ghost var goal := InnerPass(Views(boxes), i, i + 1, p);
      var j := i + 1;
      while j < |boxes|
        invariant i + 1 <= j <= |boxes|
        invariant InnerPass(Views(boxes), i, j, p) == goal
      {
        ghost var before := Views(boxes);
        CompareBoxes(boxes, i, j, p);
        ghost var after := Views(boxes);
        assert after == PairStep(before, i, j, p);
        assert InnerPass(before, i, j, p) == InnerPass(after, i, j + 1, p);
        j := j + 1;
      }
    }

    /** One comparison of box i with a later box j: the body of the inner loop of nms. */
    static method CompareBoxes(boxes: seq<Box>, i: nat, j: nat, p: NmsParams)
      requires i < j < |boxes| && Distinct(boxes)
      modifies boxes[i], boxes[j]
      ensures Views(boxes) == PairStep(old(Views(boxes)), i, j, p)
    {
      var box, box2 := boxes[i], boxes[j];
      if box2.deleted {
        return;
      }
      var x1 := Max(box.rect.left, box2.rect.left);
      var y1 := Max(box.rect.top, box2.rect.top);
      var x2 := Min(box.rect.right, box2.rect.right);
      var y2 := Min(box.rect.bottom, box2.rect.bottom);
      if x2 < x1 || y2 < y1 {
        return;
      }
      var areaIoU := (x2 - x1 + 1) * (y2 - y1 + 1);
      var fires: bool;
      if p.mode == "Union" {
        fires := RatioAtLeast(areaIoU, p.area(box.rect) + p.area(box2.rect) - areaIoU, p.threshold);
      } else if p.mode == "Min" {
        fires := RatioAtLeast(areaIoU, Min(p.area(box.rect), p.area(box2.rect)), p.threshold);
      } else {
        fires := 0.0 >= p.threshold;
      }
      ghost var before := old(Views(boxes));
      assert fires == OverlapAtLeast(before[i].rect, before[j].rect, p);
      if fires {
        if box.score > box2.score {
          box2.deleted := true;
        } else {
          box.deleted := true;
        }
      }
    }

    /** updateBoxes: the boxes not marked deleted, in order; the input is left alone. */
    static method UpdateBoxes(boxes: seq<Box>) returns (r: seq<Box>)
      ensures r == Alive(boxes) && Views(r) == Survivors(Views(boxes))
      ensures Distinct(boxes) ==> Distinct(r)
      ensures forall b :: b in r ==> b in boxes
    {
      ghost var flags := Deleted(Views(boxes));
      r := [];
      var i := 0;
      while i < |boxes|
        invariant 0 <= i <= |boxes|
        invariant r == Keep(boxes[..i], flags[..i])
      {
        if !boxes[i].deleted {
          r := r + [boxes[i]];
        }
        assert boxes[..i + 1][..i] == boxes[..i] && flags[..i + 1][..i] == flags[..i];
        i := i + 1;
      }
      assert boxes[..i] == boxes && flags[..i] == flags;
      ViewsOfAlive(boxes);
      KeepMembers(boxes, flags);
      if Distinct(boxes) {
        KeepDistinct(boxes, flags);
      }
    }

    /** BoundingBoxReggression: calibrates every box in place. */
    static method BoundingBoxRegression(boxes: seq<Box>, ops: BoxOps)
      requires Distinct(boxes)
      modifies set b | b in boxes
      ensures Views(boxes) == Calibrated(old(Views(boxes)), ops)
    {
      ghost var before := Views(boxes);
      for i := 0 to |boxes|
        invariant UpdatedUpTo(boxes, before, Calibrated(before, ops), i)
      {
        boxes[i].rect := ops.calibrate(boxes[i].rect, boxes[i].bbr);
      }
    }

    /** square_limit: squares and clamps every box in place. */
    static method SquareLimit(boxes: seq<Box>, ops: BoxOps, w: int, h: int)
      requires Distinct(boxes)
      modifies set b | b in boxes
      ensures Views(boxes) == SquareLimited(old(Views(boxes)), ops, w, h)
    {
      ghost var before := Views(boxes);
      for i := 0 to |boxes|
        invariant UpdatedUpTo(boxes, before, SquareLimited(before, ops, w, h), i)
      {
        var square := ops.toSquareShape(boxes[i].rect);
        boxes[i].rect := ops.limitSquare(square, w, h);
        assert boxes[i].View() == SquareLimited(before, ops, w, h)[i];
      }
    }

    /** The crop loop of rNet and oNet: whether cropAndResize accepts every box. */
    static method CropAll(boxes: seq<Box>, pic: Picture) returns (ok: bool)
      ensures ok <==> AllCropsFit(Views(boxes), pic)
    {
      for i := 0 to |boxes|
        invariant forall k :: 0 <= k < i ==> pic.cropFits(boxes[k].rect)
      {
        if !pic.cropFits(boxes[i].rect) {
          return false;
        }
      }
      return true;
    }

    /** The stage cut-off loop: marks every box scoring below `t`. */
    static method CutBelow(boxes: seq<Box>, t: real)
      requires Distinct(boxes)
      modifies set b | b in boxes
      ensures Views(boxes) == MarkBelow(old(Views(boxes)), t)
    {
      ghost var before := Views(boxes);
      for i := 0 to |boxes|
        invariant UpdatedUpTo(boxes, before, MarkBelow(before, t), i)
      {
        if boxes[i].score < t {
          boxes[i].deleted := true;
        }
      }
    }

    /** generateBoxes: one new box per cell scoring above the proposal threshold, row by row. */
    method GenerateBoxes(out: PNetOut, scale: real) returns (boxes: seq<Box>)
      requires scale > 0.0
      ensures Views(boxes) == Candidates(out, scale, pNetThreshold)
      ensures Distinct(boxes) && forall b :: b in boxes ==> fresh(b)
    {
      boxes := [];
      for y := 0 to out.rows
        invariant Views(boxes) == GridCandidates(out, y, scale, pNetThreshold)
        invariant Distinct(boxes) && forall b :: b in boxes ==> fresh(b)
      {
        boxes := GenerateRow(out, y, scale, boxes);
      }
    }

    /** One pass of the outer loop of generateBoxes: the new boxes of row y appended to `boxes`. */
    method GenerateRow(out: PNetOut, y: int, scale: real, boxes: seq<Box>) returns (r: seq<Box>)
      requires scale > 0.0 && Distinct(boxes)
      ensures Views(r) == Views(boxes) + RowCandidates(out, y, out.cols, scale, pNetThreshold)
      ensures Distinct(r) && forall b :: b in r ==> b in boxes || fresh(b)
    {
      var row := RowBoxes(out, y, scale);
      AppendFresh(boxes, row);
      r := boxes + row;
    }

    /** The inner loop of generateBoxes: the new boxes of row y, cell by cell. */
    method RowBoxes(out: PNetOut, y: int, scale: real) returns (row: seq<Box>)
      requires scale > 0.0
      ensures Views(row) == RowCandidates(out, y, out.cols, scale, pNetThreshold)
      ensures Distinct(row) && forall b :: b in row ==> fresh(b)
    {
      row := [];
      for x := 0 to out.cols
        invariant Views(row) == RowCandidates(out, y, x, scale, pNetThreshold)
        invariant Distinct(row) && forall b :: b in row ==> fresh(b)
      {
        var score := out.prob(y, x);
        if score > pNetThreshold {
          row := AddBox(row, CellRect(x, y, scale), score, out.reg(y, x));
        }
      }
    }

    /** `boxes.addElement(box)` for a new box with the given corners, score and regression values. */
    static method AddBox(boxes: seq<Box>, rect: Rect, score: real, bbr: seq<real>) returns (r: seq<Box>)
      requires Distinct(boxes)
      ensures Views(r) == Views(boxes) + [BoxValue(rect, score, bbr, [], false)]
      ensures Distinct(r) && forall b :: b in r ==> b in boxes || fresh(b)
    {
      var box := new Box(rect, score, bbr);
      AppendFresh(boxes, [box]);
      r := boxes + [box];
    }

    /** pNet: the pyramid loop, then nms 0.7 "Union", calibration and compaction. */
    method PNet(pic: Picture, ops: BoxOps, minSize: int) returns (r: seq<Box>)
      requires minSize > 0
      ensures Views(r) == Survivors(PNetBoxes(pic, ops, pNetThreshold, minSize))
      ensures Distinct(r) && forall b :: b in r ==> fresh(b)
    {
      var totalBoxes := Pyramid(pic, ops, minSize);
      Nms(totalBoxes, UnionNms(ops, 0.7));
      BoundingBoxRegression(totalBoxes, ops);
      r := UpdateBoxes(totalBoxes);
    }

    /** The pyramid loop of pNet: the surviving boxes of every scale, collected in order. */
    method Pyramid(pic: Picture, ops: BoxOps, minSize: int) returns (totalBoxes: seq<Box>)
      requires minSize > 0
      ensures Views(totalBoxes) == PyramidBoxes(pic, ops, pNetThreshold, FaceSizes(minSize as real, MinSide(pic)))
      ensures Distinct(totalBoxes) && forall b :: b in totalBoxes ==> fresh(b)
    {
      var whMin := MinSide(pic);
      var currentFaceSize := minSize as real;
      totalBoxes := [];
      ghost var sizes := FaceSizes(minSize as real, whMin);
      ghost var k := 0;
      FaceSizesRun(minSize as real, whMin);
      while currentFaceSize <= whMin as real
        invariant 0 <= k <= |sizes|
        invariant k < |sizes| ==> currentFaceSize == sizes[k] <= whMin as real
        invariant k == |sizes| ==> currentFaceSize > whMin as real
        invariant Views(totalBoxes) == PyramidBoxes(pic, ops, pNetThreshold, sizes[..k])
        invariant Distinct(totalBoxes) && forall b :: b in totalBoxes ==> fresh(b)
        decreases |sizes| - k
      {
        totalBoxes := ScaleStep(pic, ops, totalBoxes, currentFaceSize);
        PyramidBoxesNext(pic, ops, pNetThreshold, sizes, k);
        FaceSizesAdvance(minSize as real, whMin, k);
        k := k + 1;
        currentFaceSize := currentFaceSize / 0.709;  // the detector's `factor`
      }
      assert sizes[..k] == sizes;
    }

    /**
     * One pass of the pyramid loop: the boxes of one scale that survive
     * nms 0.5 "Union" are appended to `totalBoxes`.
     */
    method ScaleStep(pic: Picture, ops: BoxOps, totalBoxes: seq<Box>, currentFaceSize: FaceSize) returns (r: seq<Box>)
      requires Distinct(totalBoxes)
      ensures Views(r) == Views(totalBoxes) + ScaleBoxes(pic, ops, pNetThreshold, currentFaceSize)
      ensures Distinct(r) && forall b :: b in r ==> b in totalBoxes || fresh(b)
    {
      var scale := 12.0 / (currentFaceSize as real);
      var curBoxes := GenerateBoxes(pic.pnet(scale), scale);
      assert forall b :: b in curBoxes ==> fresh(b);
      Nms(curBoxes, UnionNms(ops, 0.5));
      var kept := UpdateBoxes(curBoxes);
      AppendFresh(totalBoxes, kept);
      r := totalBoxes + kept;
    }

    /** The conversion loop of rNetForward: each box takes its crop's score and regression values. */
    static method RNetForward(boxes: seq<Box>, net: Rect -> StageOut)
      requires Distinct(boxes)
      modifies set b | b in boxes
      ensures Views(boxes) == RForward(old(Views(boxes)), net)
    {
      ghost var before := Views(boxes);
      for i := 0 to |boxes|
        invariant UpdatedUpTo(boxes, before, RForward(before, net), i)
      {
        var out := net(boxes[i].rect);
        boxes[i].score := out.score;
        boxes[i].bbr := out.bbr;
        assert boxes[i].View() == RForward(before, net)[i];
      }
    }

    /** The conversion loop of oNetForward: score, regression values and the five landmarks. */
    static method ONetForward(boxes: seq<Box>, net: Rect -> StageOut, ops: BoxOps)
      requires Distinct(boxes)
      modifies set b | b in boxes
      ensures Views(boxes) == OForward(old(Views(boxes)), net, ops)
    {
      ghost var before := Views(boxes);
      ghost var after := OForward(before, net, ops);
      for i := 0 to |boxes|
        invariant UpdatedUpTo(boxes, before, after, i)
      {
        ScoreBox(boxes[i], net, ops);
      }
    }

    /** The body of the conversion loop of oNetForward, for one box. */
    static method ScoreBox(box: Box, net: Rect -> StageOut, ops: BoxOps)
      modifies box
      ensures box.View() == OScored(old(box.View()), net, ops)
    {
      var out := net(box.rect);
      var points := Landmarks(box.rect, out.marks, ops);
      box.score, box.bbr, box.landmarks := out.score, out.bbr, points;
    }

    /** The landmark loop of oNetForward for one box. */
    static method Landmarks(r: Rect, marks: seq<real>, ops: BoxOps) returns (points: seq<Point>)
      ensures |points| == 5 && forall j :: 0 <= j < 5 ==> points[j] == LandmarkAt(r, marks, ops, j)
    {
      points := [];
      for j := 0 to 5
        invariant |points| == j && forall m :: 0 <= m < j ==> points[m] == LandmarkAt(r, marks, ops, m)
      {
        var x := Round(ops.left(r) as real + Mark(marks, j) * ops.width(r) as real);
        var y := Round(ops.top(r) as real + Mark(marks, j + 5) * ops.height(r) as real);
        points := points + [Point(x, y)];
      }
    }

    /**
     * rNet: crops every box (None when cropAndResize refuses one, before any
     * box changes), scores them, cuts below the refine threshold, nms 0.7
     * "Union", calibrates, and returns the boxes left alive.
     */
    method RNet(pic: Picture, ops: BoxOps, boxes: seq<Box>) returns (r: Option<seq<Box>>)
      requires Distinct(boxes)
      modifies set b | b in boxes
      ensures r.None? <==> !AllCropsFit(old(Views(boxes)), pic)
      ensures r.None? ==> Views(boxes) == old(Views(boxes))
      ensures r.Some? ==> Views(boxes) == RNetBoxes(old(Views(boxes)), pic, ops, rNetThreshold)
      ensures r.Some? ==> r.value == Alive(boxes) && Distinct(r.value) && forall b :: b in r.value ==> b in boxes
    {
      ghost var before := Views(boxes);
      var ok := CropAll(boxes, pic);
      if !ok {
        return None;
      }
      RefineBoxes(boxes, pic, ops, rNetThreshold);
      var alive := UpdateBoxes(boxes);
      r := Some(alive);
    }

    /**
     * oNet: crops every box (None when cropAndResize refuses one), scores
     * them and places their landmarks, cuts below the output threshold,
     * calibrates, nms 0.7 "Min", and returns the boxes left alive.
     */
    method ONet(pic: Picture, ops: BoxOps, boxes: seq<Box>) returns (r: Option<seq<Box>>)
      requires Distinct(boxes)
      modifies set b | b in boxes
      ensures r.None? <==> !AllCropsFit(old(Views(boxes)), pic)
      ensures r.None? ==> Views(boxes) == old(Views(boxes))
      ensures r.Some? ==> Views(boxes) == ONetBoxes(old(Views(boxes)), pic, ops, oNetThreshold)
      ensures r.Some? ==> r.value == Alive(boxes) && Distinct(r.value) && forall b :: b in r.value ==> b in boxes
    {
      ghost var before := Views(boxes);
      var ok := CropAll(boxes, pic);
      if !ok {
        return None;
      }
      OutputBoxes(boxes, pic, ops, oNetThreshold);
      var alive := UpdateBoxes(boxes);
      r := Some(alive);
    }

    /** The in-place loops of rNet once every crop is accepted: score, cut-off, nms 0.7 "Union", calibration. */
    static method RefineBoxes(boxes: seq<Box>, pic: Picture, ops: BoxOps, t: real)
      requires Distinct(boxes)
      modifies set b | b in boxes
      ensures Views(boxes) == RNetBoxes(old(Views(boxes)), pic, ops, t)
    {
      RNetForward(boxes, pic.rnet);
      CutBelow(boxes, t);
      Nms(boxes, UnionNms(ops, 0.7));
      BoundingBoxRegression(boxes, ops);
    }

    /** The in-place loops of oNet once every crop is accepted: score and landmarks, cut-off, calibration, nms 0.7 "Min". */
    static method OutputBoxes(boxes: seq<Box>, pic: Picture, ops: BoxOps, t: real)
      requires Distinct(boxes)
      modifies set b | b in boxes
      ensures Views(boxes) == ONetBoxes(old(Views(boxes)), pic, ops, t)
    {
      ONetForward(boxes, pic.onet, ops);
      CutBelow(boxes, t);
      BoundingBoxRegression(boxes, ops);
      Nms(boxes, MinNms(ops, 0.7));
    }

    /**
     * detectFaces: the three stages with square_limit between them; a crop
     * refused in rNet or oNet ends the detection with no face.
     */
    method DetectFaces(pic: Picture, ops: BoxOps, minFaceSize: int) returns (faces: seq<Box>)
      requires minFaceSize > 0
      ensures Views(faces) == Detect(pic, ops, Current(), minFaceSize)
      ensures Distinct(faces) && forall b :: b in faces ==> fresh(b)
    {
      var boxes := PNet(pic, ops, minFaceSize);
      SquareLimit(boxes, ops, pic.width, pic.height);
      ghost var proposals := Views(boxes);
      assert proposals == SquareLimited(Survivors(PNetBoxes(pic, ops, pNetThreshold, minFaceSize)), ops, pic.width, pic.height);
      var refined := RNet(pic, ops, boxes);
      if refined.None? {
        return [];
      }
      ViewsOfAlive(boxes);
      boxes := refined.value;
      assert Views(boxes) == Survivors(RNetBoxes(proposals, pic, ops, rNetThreshold));
      SquareLimit(boxes, ops, pic.width, pic.height);
      ghost var refinedViews := Views(boxes);
      assert refinedViews == SquareLimited(Survivors(RNetBoxes(proposals, pic, ops, rNetThreshold)), ops, pic.width, pic.height);
      var found := ONet(pic, ops, boxes);
      if found.None? {
        return [];
      }
      ViewsOfAlive(boxes);
      faces := found.value;
      assert Views(faces) == Survivors(ONetBoxes(refinedViews, pic, ops, oNetThreshold));
    }
  }

  /** Appending boxes allocated later to a vector keeps the vector free of repetitions. */
  lemma AppendFresh(a: seq<Box>, b: seq<Box>)
    requires Distinct(a) && Distinct(b)
    requires forall x :: x in a ==> x !in b
    ensures Distinct(a + b) && Views(a + b) == Views(a) + Views(b)
  {
    ViewsAppend(a, b);
    forall p, q | 0 <= p < q < |a + b| ensures (a + b)[p] != (a + b)[q] {
      if p < |a| && q >= |a| {
        assert (a + b)[p] in a;
      }
    }
  }
}
