/**
 * The index and geometry helpers of MyUtil.java: the two rectExtend
 * overloads on an android Rect, the crop rectangle, the image and batch
 * transposes, findLargestFace, findMinimumDistance and the cropFace
 * composition.  The embedding tokeniser of parseJSON is in module
 * EmbeddingJson.
 */
module MyUtil {
  import opened Wrappers
  import opened JavaInt
  import opened Boxes

  function Max(a: int, b: int): int { if a >= b then a else b }

  function Min(a: int, b: int): int { if a <= b then a else b }

  function Abs(a: int): int { if a >= 0 then a else -a }

  // ---------------------------------------------------------------------------
  // rectExtend

  /** An android.graphics.Rect, whose four public fields rectExtend updates in place. */
  class GraphicsRect {
    var left: int
    var top: int
    var right: int
    var bottom: int

    constructor (r: Rect)
      ensures Value() == r
    {
      left, top, right, bottom := r.left, r.top, r.right, r.bottom;
    }

    function Value(): Rect
      reads this
    {
      Rect(left, top, right, bottom)
    }
  }

  /** The rectangle rectExtend(bitmap, rect, marginX, marginY) leaves for a w x h bitmap. */
  function Extended(r: Rect, w: int, h: int, marginX: int, marginY: int): Rect
  {
    Rect(Max(0, r.left - JavaDiv(marginX, 2)), Max(0, r.top - JavaDiv(marginY, 2)),
         Min(w - 1, r.right + JavaDiv(marginX, 2)), Min(h - 1, r.bottom + JavaDiv(marginY, 2)))
  }

  /** rectExtend with margins: half of each margin on every side, clamped to the bitmap. */
  method RectExtendMargins(w: int, h: int, rect: GraphicsRect, marginX: int, marginY: int)
    modifies rect
    ensures rect.Value() == Extended(old(rect.Value()), w, h, marginX, marginY)
  {
    rect.left := Max(0, rect.left - JavaDiv(marginX, 2));
    rect.right := Min(w - 1, rect.right + JavaDiv(marginX, 2));
    rect.top := Max(0, rect.top - JavaDiv(marginY, 2));
    rect.bottom := Min(h - 1, rect.bottom + JavaDiv(marginY, 2));
  }

  /**
   * The extended rectangle starts inside the bitmap (left, top >= 0) and ends
   * inside it (right <= w - 1, bottom <= h - 1); with non-negative margins it
   * covers at least the part of the original that lay inside.
   */
  lemma ExtendedInside(r: Rect, w: int, h: int, marginX: int, marginY: int)
    ensures var e := Extended(r, w, h, marginX, marginY);
      0 <= e.left && 0 <= e.top && e.right <= w - 1 && e.bottom <= h - 1
    ensures var e := Extended(r, w, h, marginX, marginY);
      marginX >= 0 ==> e.left <= Max(0, r.left) && e.right >= Min(w - 1, r.right)
    ensures var e := Extended(r, w, h, marginX, marginY);
      marginY >= 0 ==> e.top <= Max(0, r.top) && e.bottom >= Min(h - 1, r.bottom)
  {
  }

  /** The rectangle rectExtend(bitmap, rect) leaves: widened by half the height surplus, clamped. */
  function Squared(r: Rect, w: int): Rect
  {
    var margin := JavaDiv((r.bottom - r.top) - (r.right - r.left), 2);
    r.(left := Max(0, r.left - margin), right := Min(w - 1, r.right + margin))
  }

  /** rectExtend without margins: left and right move apart so the width approaches the height. */
  method RectExtendSquare(w: int, rect: GraphicsRect)
    modifies rect
    ensures rect.Value() == Squared(old(rect.Value()), w)
  {
    var width := rect.right - rect.left;
    var height := rect.bottom - rect.top;
    var margin := JavaDiv(height - width, 2);
    rect.left := Max(0, rect.left - margin);
    rect.right := Min(w - 1, rect.right + margin);
  }

  /**
   * For every rectangle, top and bottom stay and left and right end inside
   * 0..w-1; when neither side is clamped, the width comes within one of
   * the height, and equals it when the difference is even.
   */
  lemma SquaredWidth(r: Rect, w: int)
    ensures var s := Squared(r, w); s.top == r.top && s.bottom == r.bottom
    ensures var s := Squared(r, w); 0 <= s.left && s.right <= w - 1
    ensures var s := Squared(r, w); var m := JavaDiv((r.bottom - r.top) - (r.right - r.left), 2);
      0 <= r.left - m && r.right + m <= w - 1 ==>
        -1 <= (s.bottom - s.top) - (s.right - s.left) <= 1 &&
        (((r.bottom - r.top) - (r.right - r.left)) % 2 == 0 ==> s.bottom - s.top == s.right - s.left)
  {
  }

  // ---------------------------------------------------------------------------
  // crop

  /** The region Bitmap.createBitmap cuts: origin and size. */
  datatype Region = Region(x: int, y: int, width: int, height: int)

  /** crop: the origin clamped at 0, the size the absolute extent of the rectangle. */
  function CropRegion(r: Rect): Region
  {
    Region(Max(0, r.left), Max(0, r.top), Abs(r.right - r.left), Abs(r.bottom - r.top))
  }

  /**
   * The crop origin is never negative and neither is its size; an inverted
   * rectangle gives the same size as the upright one, and a rectangle inside
   * the bitmap is cut from its left-top corner to its right-bottom corner.
   */
  lemma CropRegionShape(r: Rect)
    ensures var c := CropRegion(r); c.x >= 0 && c.y >= 0 && c.width >= 0 && c.height >= 0
    ensures var c := CropRegion(r); var u := CropRegion(Rect(r.right, r.bottom, r.left, r.top));
      c.width == u.width && c.height == u.height
    ensures 0 <= r.left <= r.right && 0 <= r.top <= r.bottom ==>
      var c := CropRegion(r); c.x + c.width == r.right && c.y + c.height == r.bottom
  {
  }

  // ---------------------------------------------------------------------------
  // findLargestFace and findMinimumDistance

  /** i is the earliest position holding the largest value. */
  ghost predicate IsFirstMax(s: seq<int>, i: int)
  {
    0 <= i < |s| &&
    (forall k :: 0 <= k < |s| ==> s[k] <= s[i]) &&
    (forall k :: 0 <= k < i ==> s[k] < s[i])
  }

  /** i is the earliest position holding the smallest value. */
  ghost predicate IsFirstMin(s: seq<real>, i: int)
  {
    0 <= i < |s| &&
    (forall k :: 0 <= k < |s| ==> s[i] <= s[k]) &&
    (forall k :: 0 <= k < i ==> s[i] < s[k])
  }

  /** The index a left-to-right scan with a strict `>` settles on; 0 for an empty sequence. */
  function FirstMaxIndex(s: seq<int>): (i: nat)
    ensures |s| == 0 ==> i == 0
    ensures |s| > 0 ==> IsFirstMax(s, i)
  {
    if |s| <= 1 then 0
    else
      var j := FirstMaxIndex(s[..|s| - 1]);
      if s[|s| - 1] > s[j] then |s| - 1 else j
  }

  /** The index a left-to-right scan with a strict `<` settles on; 0 for an empty sequence. */
  function FirstMinIndex(s: seq<real>): (i: nat)
    ensures |s| == 0 ==> i == 0
    ensures |s| > 0 ==> IsFirstMin(s, i)
  {
    if |s| <= 1 then 0
    else
      var j := FirstMinIndex(s[..|s| - 1]);
      if s[|s| - 1] < s[j] then |s| - 1 else j
  }

  /** There is one earliest maximum: ties go to the first index. */
  lemma FirstMaxUnique(s: seq<int>, i: int, j: int)
    requires IsFirstMax(s, i) && IsFirstMax(s, j)
    ensures i == j
  {
    assert s[i] <= s[j] && s[j] <= s[i];
  }

  /** There is one earliest minimum: ties go to the first index. */
  lemma FirstMinUnique(s: seq<real>, i: int, j: int)
    requires IsFirstMin(s, i) && IsFirstMin(s, j)
    ensures i == j
  {
    assert s[i] <= s[j] && s[j] <= s[i];
  }

  /** width() * height() of every box. */
  function FaceAreas(vs: seq<BoxValue>, ops: BoxOps): (a: seq<int>)
    ensures |a| == |vs| && forall k :: 0 <= k < |vs| ==> a[k] == ops.width(vs[k].rect) * ops.height(vs[k].rect)
  {
    seq(|vs|, k requires 0 <= k < |vs| => ops.width(vs[k].rect) * ops.height(vs[k].rect))
  }

  /** findLargestFace: the earliest box of largest area; 0 when there are fewer than two boxes. */
  method FindLargestFace(boxes: seq<BoxValue>, ops: BoxOps) returns (idx: int)
    ensures idx == FirstMaxIndex(FaceAreas(boxes, ops))
    ensures |boxes| > 0 ==> IsFirstMax(FaceAreas(boxes, ops), idx)
  {
    ghost var areas := FaceAreas(boxes, ops);
    idx := 0;
    if |boxes| > 1 {
      for i := 1 to |boxes|
        invariant idx == FirstMaxIndex(areas[..i])
      {
        assert areas[..i + 1][..i] == areas[..i];
        if ops.width(boxes[i].rect) * ops.height(boxes[i].rect) >
           ops.width(boxes[idx].rect) * ops.height(boxes[idx].rect) {
          idx := i;
        }
      }
      assert areas[..|boxes|] == areas;
    }
  }

  /** findMinimumDistance: the earliest index of the smallest value; 0 for an empty array. */
  method FindMinimumDistance(data: array<real>) returns (idxMin: int)
    ensures idxMin == FirstMinIndex(data[..])
    ensures data.Length > 0 ==> IsFirstMin(data[..], idxMin)
  {
    idxMin := 0;
    var i := 1;
    while i < data.Length
      invariant data.Length == 0 ==> idxMin == 0
      invariant data.Length > 0 ==> 1 <= i <= data.Length && idxMin == FirstMinIndex(data[..i])
    {
      assert data[..i + 1][..i] == data[..i];
      if data[i] < data[idxMin] {
        idxMin := i;
      }
      i := i + 1;
    }
    if data.Length > 0 {
      assert data[..data.Length] == data[..];
    }
  }

  // ---------------------------------------------------------------------------
  // transposeImage and transposeBatch

  /** A grid whose rows all have `cols` entries. */
  ghost predicate IsGrid<T>(g: seq<seq<T>>, cols: nat)
  {
    forall i :: 0 <= i < |g| ==> |g[i]| == cols
  }

  /** Rows and columns swapped: entry (j, i) of the result is entry (i, j) of `g`. */
  function Transpose<T>(g: seq<seq<T>>, cols: nat): (t: seq<seq<T>>)
    requires IsGrid(g, cols)
    ensures |t| == cols && IsGrid(t, |g|)
    ensures forall j, i :: 0 <= j < cols && 0 <= i < |g| ==> t[j][i] == g[i][j]
  {
    seq(cols, j requires 0 <= j < cols => seq(|g|, i requires 0 <= i < |g| => g[i][j]))
  }

  /** Transposing twice restores the original layout. */
  lemma TransposeTwice<T>(g: seq<seq<T>>, cols: nat)
    requires IsGrid(g, cols)
    ensures Transpose(Transpose(g, cols), |g|) == g
  {
    var t2 := Transpose(Transpose(g, cols), |g|);
    assert |t2| == |g|;
    forall i | 0 <= i < |g| ensures t2[i] == g[i] {
      assert |t2[i]| == cols;
    }
  }

  /** Every layer of a batch transposed. */
  function TransposeLayers<T>(b: seq<seq<seq<T>>>, cols: nat): (t: seq<seq<seq<T>>>)
    requires forall n :: 0 <= n < |b| ==> IsGrid(b[n], cols)
    ensures |t| == |b| && forall n :: 0 <= n < |b| ==> t[n] == Transpose(b[n], cols)
  {
    seq(|b|, n requires 0 <= n < |b| => Transpose(b[n], cols))
  }

  /** Transposing every layer twice restores the batch, which keeps its size. */
  lemma TransposeLayersTwice<T>(b: seq<seq<seq<T>>>, rows: nat, cols: nat)
    requires forall n :: 0 <= n < |b| ==> |b[n]| == rows && IsGrid(b[n], cols)
    ensures TransposeLayers(TransposeLayers(b, cols), rows) == b
  {
    var t := TransposeLayers(b, cols);
    forall n | 0 <= n < |b| ensures TransposeLayers(t, rows)[n] == b[n] {
      TransposeTwice(b[n], cols);
    }
  }

  /** The rows of a two-dimensional array. */
  ghost function Grid<T>(a: array2<T>): (g: seq<seq<T>>)
    reads a
    ensures |g| == a.Length0 && IsGrid(g, a.Length1)
  {
    seq(a.Length0, i requires 0 <= i < a.Length0 reads a => seq(a.Length1, j requires 0 <= j < a.Length1 reads a => a[i, j]))
  }

  /** The layers of a three-dimensional array. */
  ghost function Layers<T>(a: array3<T>): (b: seq<seq<seq<T>>>)
    reads a
    ensures |b| == a.Length0 && forall n :: 0 <= n < |b| ==> |b[n]| == a.Length1 && IsGrid(b[n], a.Length2)
  {
    seq(a.Length0, n requires 0 <= n < a.Length0 reads a =>
      seq(a.Length1, i requires 0 <= i < a.Length1 reads a =>
        seq(a.Length2, j requires 0 <= j < a.Length2 reads a => a[n, i, j])))
  }

  /** One pixel's channel values. */
  type Pixel = seq<real>

  /**
   * transposeImage: a new w x h image whose pixel (j, i) is pixel (i, j) of
   * the h x w input.  The input must have a first row and a first pixel,
   * which supply the channel count.
   */
  method TransposeImage(input: array2<Pixel>) returns (output: array2<Pixel>)
    requires input.Length0 > 0 && input.Length1 > 0
    ensures fresh(output)
    ensures Grid(output) == Transpose(Grid(input), input.Length1)
  {
    var h := input.Length0;
    var w := input.Length1;
    var channel := |input[0, 0]|;
    output := new Pixel[w, h]((_, _) => seq(channel, _ => 0.0));
    for i := 0 to h
      invariant forall j, m :: 0 <= j < w && 0 <= m < i ==> output[j, m] == input[m, j]
    {
      for j := 0 to w
        invariant forall jj, m :: 0 <= jj < w && 0 <= m < i ==> output[jj, m] == input[m, jj]
        invariant forall jj :: 0 <= jj < j ==> output[jj, i] == input[i, jj]
      {
        output[j, i] := input[i, j];
      }
    }
    ghost var t := Transpose(Grid(input), w);
    assert forall j :: 0 <= j < w ==> Grid(output)[j] == t[j];
  }

  /**
   * transposeBatch: every image of the batch transposed; the batch keeps its
   * size.  The first image, row and pixel must exist.
   */
  method TransposeBatch(input: array3<Pixel>) returns (output: array3<Pixel>)
    requires input.Length0 > 0 && input.Length1 > 0 && input.Length2 > 0
    ensures fresh(output)
    ensures Layers(output) == TransposeLayers(Layers(input), input.Length2)
  {
    var batch := input.Length0;
    var h := input.Length1;
    var w := input.Length2;
    var channel := |input[0, 0, 0]|;
    output := new Pixel[batch, w, h]((_, _, _) => seq(channel, _ => 0.0));
    for n := 0 to batch
      invariant forall b, k, j :: 0 <= b < n && 0 <= k < w && 0 <= j < h ==> output[b, k, j] == input[b, j, k]
    {
      for j := 0 to h
        invariant forall b, k, jj :: 0 <= b < n && 0 <= k < w && 0 <= jj < h ==> output[b, k, jj] == input[b, jj, k]
        invariant forall k, jj :: 0 <= k < w && 0 <= jj < j ==> output[n, k, jj] == input[n, jj, k]
      {
        for k := 0 to w
          invariant forall b, kk, jj :: 0 <= b < n && 0 <= kk < w && 0 <= jj < h ==> output[b, kk, jj] == input[b, jj, kk]
          invariant forall kk, jj :: 0 <= kk < w && 0 <= jj < j ==> output[n, kk, jj] == input[n, jj, kk]
          invariant forall kk :: 0 <= kk < k ==> output[n, kk, j] == input[n, j, kk]
        {
          output[n, k, j] := input[n, j, k];
        }
      }
    }
    LayersTransposed(input, output);
  }

  /** An array holding every image of another one transposed has the transposed layers. */
  lemma LayersTransposed<T>(input: array3<T>, output: array3<T>)
    requires output.Length0 == input.Length0 && output.Length1 == input.Length2 && output.Length2 == input.Length1
    requires forall b, k, j :: 0 <= b < output.Length0 && 0 <= k < output.Length1 && 0 <= j < output.Length2 ==>
      output[b, k, j] == input[b, j, k]
    ensures Layers(output) == TransposeLayers(Layers(input), input.Length2)
  {
    var o, t := Layers(output), TransposeLayers(Layers(input), input.Length2);
    forall b | 0 <= b < output.Length0 ensures o[b] == t[b] {
      forall k | 0 <= k < output.Length1 ensures o[b][k] == t[b][k] {
        assert forall j :: 0 <= j < output.Length2 ==> o[b][k][j] == t[b][k][j];
      }
    }
  }

  // ---------------------------------------------------------------------------
  // cropFace

  /**
   * What cropFace needs of its surroundings: the MTCNN detector (the boxes
   * detectFaces returns for a bitmap and a minimum face size), the aligner
   * Align.face_align, the bitmap dimensions and the Box operations.
   */
  datatype Surroundings<!Image> = Surroundings(
    detect: (Image, int) -> seq<BoxValue>,
    align: (Image, seq<Point>) -> Image,
    width: Image -> int,
    height: Image -> int,
    ops: BoxOps)

  /** The boxes detectFaces finds on a bitmap, with a fifth of its width as the smallest face. */
  function Detected<Image>(env: Surroundings<Image>, img: Image): seq<BoxValue>
  {
    env.detect(img, JavaDiv(env.width(img), 5))
  }

  /** The largest box of a non-empty detection, ties to the first. */
  function Largest(vs: seq<BoxValue>, ops: BoxOps): BoxValue
    requires |vs| > 0
  {
    vs[FirstMaxIndex(FaceAreas(vs, ops))]
  }

  /** The bitmap the second pass looks at: the input aligned on the landmarks of its largest face. */
  function Aligned<Image>(env: Surroundings<Image>, img: Image): Image
    requires |Detected(env, img)| > 0
  {
    env.align(img, Largest(Detected(env, img), env.ops).landmarks)
  }

  /** The android Rect cut out of the aligned bitmap: the largest second-pass box squared and clamped. */
  function FaceRect<Image>(env: Surroundings<Image>, aligned: Image): Rect
    requires |Detected(env, aligned)| > 0
  {
    var box := Largest(Detected(env, aligned), env.ops);
    var square := env.ops.toSquareShape(box.rect);
    env.ops.transform2Rect(env.ops.limitSquare(square, env.width(aligned), env.height(aligned)))
  }

  /**
   * cropFace: None (null) without a bitmap or when either detection pass
   * finds nothing; otherwise the aligned bitmap and the region cut from it.
   */
  function CropFace<Image>(env: Surroundings<Image>, bitmap: Option<Image>): Option<(Image, Region)>
  {
    if bitmap.None? then None
    else
      var img := bitmap.value;
      if |Detected(env, img)| == 0 then None
      else
        var aligned := Aligned(env, img);
        if |Detected(env, aligned)| == 0 then None
        else Some((aligned, CropRegion(FaceRect(env, aligned))))
  }

  /**
   * cropFace yields a crop exactly when there is a bitmap and both passes
   * find a face; the crop is then taken from the aligned bitmap, at a
   * non-negative origin, around the earliest second-pass box no other
   * second-pass box exceeds in area, squared, limited to the aligned
   * bitmap and converted to a Rect.
   */
  lemma CropFaceOutcome<Image>(env: Surroundings<Image>, bitmap: Option<Image>)
    ensures CropFace(env, bitmap).Some? <==>
      bitmap.Some? && |Detected(env, bitmap.value)| > 0 && |Detected(env, Aligned(env, bitmap.value))| > 0
    ensures CropFace(env, bitmap).Some? ==>
      var aligned := Aligned(env, bitmap.value);
      var boxes := Detected(env, aligned);
      var areas := FaceAreas(boxes, env.ops);
      CropFace(env, bitmap).value.0 == aligned &&
      CropFace(env, bitmap).value.1.x >= 0 && CropFace(env, bitmap).value.1.y >= 0 &&
      exists i :: IsFirstMax(areas, i) && boxes[i] == Largest(boxes, env.ops) &&
        var square := env.ops.toSquareShape(boxes[i].rect);
        CropFace(env, bitmap).value.1 ==
          CropRegion(env.ops.transform2Rect(env.ops.limitSquare(square, env.width(aligned), env.height(aligned))))
  {
    if CropFace(env, bitmap).Some? {
      var aligned := Aligned(env, bitmap.value);
      var boxes := Detected(env, aligned);
      CropRegionShape(FaceRect(env, aligned));
      var i := FirstMaxIndex(FaceAreas(boxes, env.ops));
      assert IsFirstMax(FaceAreas(boxes, env.ops), i);
    }
  }
}
