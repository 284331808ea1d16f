# Face recognition attendance app: a verified model

This project models, in Dafny, the hand-written logic of an Android face
recognition app for attendance. The app works as follows:

- An MTCNN cascade finds faces in a picture. It has three stages: a
  proposal network run over an image pyramid, a refine network and an
  output network. Between the stages, candidate boxes are filtered by
  score, suppressed by non-maximum suppression and compacted.
- The largest face is aligned and cropped.
- MobileFaceNet turns the crop into a 256-value embedding. The embedding
  is compared by cosine distance with the embeddings enrolled for a
  person.

The model covers:

- **MTCNN candidate-box filtering.** `Boxes`, `Suppression` and
  `FaceDetection` (`mtcnn.dfy`) cover:
  - the in-place `nms` over shared `Box` objects, with its tie rule and
    its once-only check of box i's flag;
  - `generateBoxes`, the strict stage cut-offs, `updateBoxes` and
    `setThreshold`;
  - the pyramid loop of `pNet`, the stage orders of `rNet` and `oNet`,
    and the `detectFaces` fallback.

  Each in-place method is proved equal to a value-level specification,
  and the properties are proved about that specification: only flags
  change, the result is stable and idempotent, and returned boxes reach
  their thresholds.
- **The enrolment ring buffer `Person`** (`Enrollment`). It has ten slots,
  a wrapping write index and a read count capped at nine.
- **`MyUtil`.** This covers both `rectExtend` overloads, `crop`, the image
  and batch transposes, `findLargestFace`, `findMinimumDistance` and the
  `cropFace` composition. The pipe-separated embedding tokeniser of
  `parseJSON` is in module `EmbeddingJson`.
- **The registration screen `MainActivity`** (`FaceCompare`). This covers
  `compareFace`, `saveEmbedding` and `loadJSON`.
- **The attendance screen `MainActivity2`** (`FaceVerify`). This covers
  the `processBitmap` check chain with its failure counter, `verify`, and
  the office/home (WFO/WFH) profiles of `loadBaseData`.
- **`CameraActivity`'s arithmetic** (`Camera`). This covers the display
  orientation and the choice of a preview size.

The following are parameters of the model, not modelled code:

- the three MTCNN networks and `cropAndResize`, through a `Picture`;
- the `Box` operations of Box.java, through `BoxOps`;
- the aligner, the embedder, the cosine distance, the anti-spoofing score;
- `Float.parseFloat`.

## Model

| member | source | states |
|---|---|---|
| Boxes.Box.constructor | app/src/main/java/com/example/facerecognitiontflite/mtcnn/MTCNN.java:172-179 | a new box holds the given corners, score and regression values, has no landmarks yet and is not deleted |
| Boxes.KeepLength | app/src/main/java/com/example/facerecognitiontflite/mtcnn/MTCNN.java:360-368 | compaction never yields more boxes than it was given |
| Boxes.KeepMember | app/src/main/java/com/example/facerecognitiontflite/mtcnn/MTCNN.java:360-368 | an element is kept exactly when it stands at some position whose deleted flag is clear |
| Boxes.KeepDistinct | app/src/main/java/com/example/facerecognitiontflite/mtcnn/MTCNN.java:360-368 | compacting a vector of distinct boxes gives distinct boxes, each taken from the input |
| Boxes.ViewsOfAlive | app/src/main/java/com/example/facerecognitiontflite/mtcnn/MTCNN.java:360-368 | the boxes updateBoxes returns hold exactly the values of the non-deleted input boxes, in order |
| Suppression.InterArea | app/src/main/java/com/example/facerecognitiontflite/mtcnn/MTCNN.java:207-212 | a pair that is not skipped has an inclusive intersection area of at least one pixel |
| Suppression.TouchingBoxesOverlap | app/src/main/java/com/example/facerecognitiontflite/mtcnn/MTCNN.java:207-212 | two boxes that only share an edge are not skipped; their intersection is the one-pixel-wide shared edge |
| Suppression.RatioCrossMultiply | app/src/main/java/com/example/facerecognitiontflite/mtcnn/MTCNN.java:213-218 | with a positive denominator, the test ratio >= threshold is exactly intersection >= threshold * denominator |
| Suppression.UnknownModeNeverFires | app/src/main/java/com/example/facerecognitiontflite/mtcnn/MTCNN.java:213-218 | a method other than "Union" and "Min" gives ratio 0, so it never suppresses for a positive threshold |
| Suppression.UnknownModeKeepsAll | app/src/main/java/com/example/facerecognitiontflite/mtcnn/MTCNN.java:198-228 | with such a method nms leaves every box as it was |
| Suppression.PairStep | app/src/main/java/com/example/facerecognitiontflite/mtcnn/MTCNN.java:205-223 | one comparison keeps the number of boxes (what it marks: PairStepMarks, NmsOfPair) |
| Suppression.InnerPass | app/src/main/java/com/example/facerecognitiontflite/mtcnn/MTCNN.java:204-225 | the inner loop keeps the number of boxes |
| Suppression.OuterPass | app/src/main/java/com/example/facerecognitiontflite/mtcnn/MTCNN.java:200-227 | the outer loop keeps the number of boxes |
| Suppression.PairStepMarks | app/src/main/java/com/example/facerecognitiontflite/mtcnn/MTCNN.java:205-223 | one comparison changes no corner, score or order; it can only set deleted flags |
| Suppression.InnerPassMarks | app/src/main/java/com/example/facerecognitiontflite/mtcnn/MTCNN.java:204-225 | the inner loop of box i can only set deleted flags |
| Suppression.OuterPassMarks | app/src/main/java/com/example/facerecognitiontflite/mtcnn/MTCNN.java:200-227 | the loop over the remaining boxes can only set deleted flags |
| Suppression.NmsOnlyMarks | app/src/main/java/com/example/facerecognitiontflite/mtcnn/MTCNN.java:198-228 | nms never removes, reorders or edits a box; its only effect is deleted = true on some boxes |
| Suppression.NmsSurvivorsBound | app/src/main/java/com/example/facerecognitiontflite/mtcnn/MTCNN.java:198-228 | nms never increases the number of non-deleted boxes |
| Suppression.KeepMonotone | app/src/main/java/com/example/facerecognitiontflite/mtcnn/MTCNN.java:360-368 | setting more deleted flags never lets more boxes through compaction |
| Suppression.NmsStable | app/src/main/java/com/example/facerecognitiontflite/mtcnn/MTCNN.java:198-228 | after nms no two non-deleted boxes overlap by the threshold or more |
| Suppression.StableUnchanged | app/src/main/java/com/example/facerecognitiontflite/mtcnn/MTCNN.java:198-228 | nms leaves a vector in which no two alive boxes overlap by the threshold unchanged |
| Suppression.NmsIdempotent | app/src/main/java/com/example/facerecognitiontflite/mtcnn/MTCNN.java:198-228 | running nms twice with the same parameters marks nothing more than running it once |
| Suppression.NmsOfPair | app/src/main/java/com/example/facerecognitiontflite/mtcnn/MTCNN.java:219-222 | of two overlapping alive boxes the second is deleted only when the first scores strictly more; on a tie the first is deleted; non-overlapping boxes both stay |
| Suppression.InnerPassIgnoresOwnFlag | app/src/main/java/com/example/facerecognitiontflite/mtcnn/MTCNN.java:200-206 | box i's own flag is read once before its inner loop: a box deleted during its own pass goes on suppressing later boxes exactly as if it were not |
| FaceDetection.Round | app/src/main/java/com/example/facerecognitiontflite/mtcnn/MTCNN.java:176-179 | Math.round gives the nearest integer, halves rounded up |
| FaceDetection.CellRectOrdered | app/src/main/java/com/example/facerecognitiontflite/mtcnn/MTCNN.java:176-179 | the box of a proposal cell runs from left to right and from top to bottom |
| FaceDetection.RowCandidatesMember | app/src/main/java/com/example/facerecognitiontflite/mtcnn/MTCNN.java:168-187 | the boxes of one row are exactly those of its cells scoring strictly above the threshold |
| FaceDetection.GridCandidatesMember | app/src/main/java/com/example/facerecognitiontflite/mtcnn/MTCNN.java:167-188 | the boxes of the first rows are exactly those of their cells scoring strictly above the threshold |
| FaceDetection.CandidatesExactly | app/src/main/java/com/example/facerecognitiontflite/mtcnn/MTCNN.java:167-188 | generateBoxes makes a box exactly for each cell with probability > pNetThreshold, alive and scored by that probability, so a cell scoring exactly the threshold is dropped |
| FaceDetection.StepsDecrease | app/src/main/java/com/example/facerecognitiontflite/mtcnn/MTCNN.java:100-131 | dividing the face size by 0.709 strictly decreases a non-negative step bound, so the pyramid loop ends for a positive minimum face size |
| FaceDetection.FaceSizesRun | app/src/main/java/com/example/facerecognitiontflite/mtcnn/MTCNN.java:100-131 | the pyramid starts at minSize unless it already exceeds the shorter side, and stops at the first size whose successor exceeds it |
| FaceDetection.FaceSizesWithin | app/src/main/java/com/example/facerecognitiontflite/mtcnn/MTCNN.java:100 | every visited face size lies between minSize and min(width, height) |
| FaceDetection.FaceSizesNext | app/src/main/java/com/example/facerecognitiontflite/mtcnn/MTCNN.java:130 | each visited size is the previous one divided by the factor 0.709 |
| FaceDetection.FaceSizesAdvance | app/src/main/java/com/example/facerecognitiontflite/mtcnn/MTCNN.java:130 | dividing the current size by 0.709 gives the next visited size, or a size beyond the shorter side after the last one |
| FaceDetection.PyramidBoxesNext | app/src/main/java/com/example/facerecognitiontflite/mtcnn/MTCNN.java:124-127 | each scale appends its boxes after those of the earlier scales |
| FaceDetection.SurvivorsMember | app/src/main/java/com/example/facerecognitiontflite/mtcnn/MTCNN.java:360-368 | a box value survives compaction exactly when it is one of the non-deleted values |
| FaceDetection.RNetReachesThreshold | app/src/main/java/com/example/facerecognitiontflite/mtcnn/MTCNN.java:255-264 | every box rNet returns scores at least rNetThreshold (the cut-off is a strict <), whatever nms and calibration do |
| FaceDetection.ONetReachesThreshold | app/src/main/java/com/example/facerecognitiontflite/mtcnn/MTCNN.java:310-318 | every box oNet returns scores at least oNetThreshold, and no two alive boxes overlap by 0.7 of the smaller one |
| FaceDetection.PyramidAbove | app/src/main/java/com/example/facerecognitiontflite/mtcnn/MTCNN.java:117-127 | every box kept from any scale is alive and scores strictly above pNetThreshold |
| FaceDetection.PNetAboveThreshold | app/src/main/java/com/example/facerecognitiontflite/mtcnn/MTCNN.java:95-140 | every box pNet returns scores strictly above pNetThreshold |
| FaceDetection.DetectedFacesReachThreshold | app/src/main/java/com/example/facerecognitiontflite/mtcnn/MTCNN.java:56-74 | every face detectFaces reports is alive and scores at least oNetThreshold |
| FaceDetection.Mtcnn.constructor | app/src/main/java/com/example/facerecognitiontflite/mtcnn/MTCNN.java:20-23 | a new detector has the thresholds 0.6, 0.7 and 0.7 |
| FaceDetection.Mtcnn.SetThreshold | app/src/main/java/com/example/facerecognitiontflite/mtcnn/MTCNN.java:45-49 | pNetThreshold becomes t, rNetThreshold and oNetThreshold both t + 0.1; nothing else changes |
| FaceDetection.Mtcnn.Nms | app/src/main/java/com/example/facerecognitiontflite/mtcnn/MTCNN.java:198-228 | the in-place loops leave the boxes holding exactly the values the loop-order specification Nms prescribes |
| FaceDetection.Mtcnn.SuppressAfter | app/src/main/java/com/example/facerecognitiontflite/mtcnn/MTCNN.java:204-225 | the inner loop for an alive box i compares it with every later box, in order |
| FaceDetection.Mtcnn.CompareBoxes | app/src/main/java/com/example/facerecognitiontflite/mtcnn/MTCNN.java:205-224 | one comparison: a deleted or disjoint box j is skipped, otherwise the weaker box (the first on a tie) is deleted when the ratio reaches the threshold |
| FaceDetection.Mtcnn.UpdateBoxes | app/src/main/java/com/example/facerecognitiontflite/mtcnn/MTCNN.java:360-368 | returns exactly the non-deleted boxes, in order, and leaves the input alone; their values are the survivors of the input's values, and a vector without repetitions stays without them |
| FaceDetection.Mtcnn.BoundingBoxRegression | app/src/main/java/com/example/facerecognitiontflite/mtcnn/MTCNN.java:230-233 | every box, deleted or not, is calibrated by its own regression values |
| FaceDetection.Mtcnn.SquareLimit | app/src/main/java/com/example/facerecognitiontflite/mtcnn/MTCNN.java:76-82 | every box is squared and then clamped to the picture |
| FaceDetection.Mtcnn.CropAll | app/src/main/java/com/example/facerecognitiontflite/mtcnn/MTCNN.java:245-249 | succeeds exactly when cropAndResize accepts every box |
| FaceDetection.Mtcnn.CutBelow | app/src/main/java/com/example/facerecognitiontflite/mtcnn/MTCNN.java:255-259 | marks deleted exactly the boxes scoring strictly below the threshold, leaving the others as they were |
| FaceDetection.Mtcnn.GenerateBoxes | app/src/main/java/com/example/facerecognitiontflite/mtcnn/MTCNN.java:163-189 | creates fresh, distinct boxes for exactly the cells above pNetThreshold, in row-major order |
| FaceDetection.Mtcnn.GenerateRow | app/src/main/java/com/example/facerecognitiontflite/mtcnn/MTCNN.java:167-188 | one pass of the outer loop: the boxes of row y are appended after the earlier ones, which stay; all of them distinct |
| FaceDetection.Mtcnn.RowBoxes | app/src/main/java/com/example/facerecognitiontflite/mtcnn/MTCNN.java:168-187 | new, distinct boxes for exactly the cells of row y whose score is strictly above pNetThreshold, in column order, with their corners and regression values |
| FaceDetection.Mtcnn.AddBox | app/src/main/java/com/example/facerecognitiontflite/mtcnn/MTCNN.java:172-185 | addElement appends one fresh box and keeps the earlier ones |
| FaceDetection.Mtcnn.PNet | app/src/main/java/com/example/facerecognitiontflite/mtcnn/MTCNN.java:95-140 | the pyramid's boxes after nms 0.7 "Union" and calibration, compacted |
| FaceDetection.Mtcnn.Pyramid | app/src/main/java/com/example/facerecognitiontflite/mtcnn/MTCNN.java:96-131 | the surviving boxes of every visited scale, in the order of the scales |
| FaceDetection.Mtcnn.ScaleStep | app/src/main/java/com/example/facerecognitiontflite/mtcnn/MTCNN.java:101-127 | one scale: its candidates after nms 0.5 "Union", non-deleted ones appended |
| FaceDetection.Mtcnn.RNetForward | app/src/main/java/com/example/facerecognitiontflite/mtcnn/MTCNN.java:283-288 | each box takes the refine network's score and regression values for its crop |
| FaceDetection.Mtcnn.ONetForward | app/src/main/java/com/example/facerecognitiontflite/mtcnn/MTCNN.java:339-352 | each box takes the output network's score, regression values and five landmarks |
| FaceDetection.Mtcnn.Landmarks | app/src/main/java/com/example/facerecognitiontflite/mtcnn/MTCNN.java:347-351 | landmark j is the box's left-top corner plus offsets j and j + 5 scaled by width and height, rounded |
| FaceDetection.Mtcnn.RNet | app/src/main/java/com/example/facerecognitiontflite/mtcnn/MTCNN.java:241-265 | None (the IllegalArgumentException) exactly when a crop is refused, before any box changes; otherwise score, strict cut-off, nms 0.7 "Union", then calibration, and the alive boxes |
| FaceDetection.Mtcnn.ONet | app/src/main/java/com/example/facerecognitiontflite/mtcnn/MTCNN.java:297-319 | None exactly when a crop is refused; otherwise score and landmarks, strict cut-off, calibration, then nms 0.7 "Min", and the alive boxes |
| FaceDetection.Mtcnn.RefineBoxes | app/src/main/java/com/example/facerecognitiontflite/mtcnn/MTCNN.java:252-263 | the in-place loops of rNet in the source's order |
| FaceDetection.Mtcnn.OutputBoxes | app/src/main/java/com/example/facerecognitiontflite/mtcnn/MTCNN.java:308-317 | the in-place loops of oNet in the source's order |
| FaceDetection.Mtcnn.DetectFaces | app/src/main/java/com/example/facerecognitiontflite/mtcnn/MTCNN.java:56-74 | the three stages with square_limit between them under the current thresholds; a refused crop gives the empty vector |
| Enrollment.WriteIndex | app/src/main/java/com/example/facerecognitiontflite/Person.java:25-26 | the write index always stays below MAX_IDX |
| Enrollment.ReadCount | app/src/main/java/com/example/facerecognitiontflite/Person.java:27 | the read count always stays below MAX_IDX |
| Enrollment.WriteIndexIsModulo | app/src/main/java/com/example/facerecognitiontflite/Person.java:23-28 | after k additions idx_write == k % 10 |
| Enrollment.ReadCountIsCapped | app/src/main/java/com/example/facerecognitiontflite/Person.java:27 | after k additions idx_read == min(k, 9) |
| Enrollment.SlotNineNeverRead | app/src/main/java/com/example/facerecognitiontflite/Person.java:27 | idx_read never exceeds 9, so a reader of slots 0..idx_read-1 never sees slot 9, even after ten or more additions |
| Enrollment.ReadSlotsWritten | app/src/main/java/com/example/facerecognitiontflite/Person.java:27 | every slot below idx_read has been written |
| Enrollment.SlotIsLatest | app/src/main/java/com/example/facerecognitiontflite/Person.java:23-26 | slot s holds the latest addition whose position is s modulo 10, or zeros when none was made |
| Enrollment.SlotsOfShortHistory | app/src/main/java/com/example/facerecognitiontflite/Person.java:24 | with at most ten additions, slot s holds the s-th addition |
| Enrollment.EleventhOverwritesOldest | app/src/main/java/com/example/facerecognitiontflite/Person.java:23-28 | the eleventh addition overwrites slot 0 and leaves slots 1..9 alone |
| Enrollment.Person.constructor | app/src/main/java/com/example/facerecognitiontflite/Person.java:17-21 | a new person has ten zero slots, idx_write 0 and idx_read 0 |
| Enrollment.Person.AddEmbedding | app/src/main/java/com/example/facerecognitiontflite/Person.java:23-28 | stores the embedding in slot idx_write and no other, advances idx_write modulo 10 and idx_read capped at 9, and records the addition |
| Enrollment.Person.GetEmbedding | app/src/main/java/com/example/facerecognitiontflite/Person.java:11 | returns exactly slot idx |
| Enrollment.Person.GetIdxRead | app/src/main/java/com/example/facerecognitiontflite/Person.java:13-15 | returns min(additions, 9) and changes nothing |
| JavaInt.JavaDiv | app/src/main/java/com/example/facerecognitiontflite/MyUtil.java:67-70 | Java's / on int: the quotient truncated toward zero |
| JavaInt.JavaRem | app/src/main/java/com/example/facerecognitiontflite/CameraActivity.java:111-114 | Java's % on int: the remainder of the truncating division, with the sign of the dividend |
| MyUtil.RectExtendMargins | app/src/main/java/com/example/facerecognitiontflite/MyUtil.java:66-71 | each side moves out by half its margin (integer division), clamped to the bitmap |
| MyUtil.ExtendedInside | app/src/main/java/com/example/facerecognitiontflite/MyUtil.java:66-71 | afterwards left, top >= 0, right <= W-1 and bottom <= H-1; with non-negative margins the part of the rectangle inside the bitmap is still covered |
| MyUtil.RectExtendSquare | app/src/main/java/com/example/facerecognitiontflite/MyUtil.java:79-85 | left and right move out by (height - width) / 2, clamped to the bitmap width |
| MyUtil.SquaredWidth | app/src/main/java/com/example/facerecognitiontflite/MyUtil.java:79-85 | for every rectangle, top and bottom are unchanged and left, right stay in 0..W-1; unclamped, the width comes within one of the height, and equals it for an even difference |
| MyUtil.CropRegionShape | app/src/main/java/com/example/facerecognitiontflite/MyUtil.java:212-215 | the crop origin is clamped at 0, its size is the absolute extent, an inverted rectangle gives the same size, and a rectangle inside the bitmap is cut corner to corner |
| MyUtil.FirstMaxIndex | app/src/main/java/com/example/facerecognitiontflite/MyUtil.java:304-314 | the scan with a strict > settles on the earliest position of the largest value, 0 for no value |
| MyUtil.FirstMinIndex | app/src/main/java/com/example/facerecognitiontflite/MyUtil.java:321-329 | the scan with a strict < settles on the earliest position of the smallest value, 0 for no value |
| MyUtil.FirstMaxUnique | app/src/main/java/com/example/facerecognitiontflite/MyUtil.java:304-314 | there is one earliest maximum: ties go to the first index |
| MyUtil.FirstMinUnique | app/src/main/java/com/example/facerecognitiontflite/MyUtil.java:321-329 | there is one earliest minimum: ties go to the first index |
| MyUtil.FindLargestFace | app/src/main/java/com/example/facerecognitiontflite/MyUtil.java:304-314 | returns the earliest index of largest area, and 0 for fewer than two boxes |
| MyUtil.FindMinimumDistance | app/src/main/java/com/example/facerecognitiontflite/MyUtil.java:321-329 | returns the earliest index of the smallest value, and 0 for an empty array; MainActivity.java:93-101 is the same loop |
| MyUtil.TransposeTwice | app/src/main/java/com/example/facerecognitiontflite/MyUtil.java:151-162 | transposing twice restores the original layout |
| MyUtil.TransposeLayersTwice | app/src/main/java/com/example/facerecognitiontflite/MyUtil.java:169-183 | transposing a batch twice restores it |
| MyUtil.TransposeImage | app/src/main/java/com/example/facerecognitiontflite/MyUtil.java:151-162 | fills a fresh w x h array with out[j][i] == in[i][j] |
| MyUtil.TransposeBatch | app/src/main/java/com/example/facerecognitiontflite/MyUtil.java:169-183 | fills a fresh batch with out[b][k][j] == in[b][j][k] |
| MyUtil.CropFaceOutcome | app/src/main/java/com/example/facerecognitiontflite/MyUtil.java:272-297 | null exactly when there is no bitmap or either detection pass finds nothing; otherwise the aligned bitmap and the region cut around the earliest second-pass box of largest area, after toSquareShape, limitSquare to the aligned bitmap and transform2Rect, at a non-negative origin; MainActivity.java:103-133 is the same composition |
| EmbeddingJson.NextPipe | app/src/main/java/com/example/facerecognitiontflite/MyUtil.java:384-388 | the inner loop stops at the first '|' at or after j, or at the end of the string |
| EmbeddingJson.NextPipeIs | app/src/main/java/com/example/facerecognitiontflite/MyUtil.java:384-388 | any position with no '|' before it and a '|' or the end at it is where the inner loop stops |
| EmbeddingJson.TokensArePipeFree | app/src/main/java/com/example/facerecognitiontflite/MyUtil.java:382-392 | no token contains '|' |
| EmbeddingJson.TokensSame | app/src/main/java/com/example/facerecognitiontflite/MyUtil.java:379-392 | the tokens read from a position depend only on the text from that position on |
| EmbeddingJson.NoPipeIsOneToken | app/src/main/java/com/example/facerecognitiontflite/MyUtil.java:382-392 | a non-empty string without '|' is a single token |
| EmbeddingJson.JoinRoundTrip | app/src/main/java/com/example/facerecognitiontflite/MyUtil.java:379-392 | splitting the '|'-join of non-empty pipe-free tokens gives those tokens back |
| EmbeddingJson.TrailingPipeAddsNothing | app/src/main/java/com/example/facerecognitiontflite/MyUtil.java:382-389 | a trailing '|' adds no token |
| EmbeddingJson.DoublePipeMakesEmptyToken | app/src/main/java/com/example/facerecognitiontflite/MyUtil.java:383-390 | two pipes in a row make an empty token, which cannot be parsed |
| EmbeddingJson.LeadingPipeMakesEmptyToken | app/src/main/java/com/example/facerecognitiontflite/MyUtil.java:379-390 | a '|' right after the dropped first character makes an empty first token |
| EmbeddingJson.FillMeaning | app/src/main/java/com/example/facerecognitiontflite/MyUtil.java:390-391 | filling succeeds exactly when the tokens fit the array and all parse; token k lands in slot k and the slots after the tokens keep their values |
| EmbeddingJson.FillFailure | app/src/main/java/com/example/facerecognitiontflite/MyUtil.java:390-391 | the index-out-of-bounds failure happens exactly when there are more tokens than slots and all that fit parse; a parse failure comes first |
| EmbeddingJson.DecodeEntryMeaning | app/src/main/java/com/example/facerecognitiontflite/MyUtil.java:377-392 | an empty entry fails on substring(1); otherwise the entry decodes exactly when it has at most 256 tokens and all parse, into the tokens' values followed by zeros |
| EmbeddingJson.DecodeAllMeaning | app/src/main/java/com/example/facerecognitiontflite/MyUtil.java:376-395 | every entry decodes exactly when the whole list decodes, entry by entry |
| EmbeddingJson.DecodeAllStopsAtFailure | app/src/main/java/com/example/facerecognitiontflite/MyUtil.java:376-395 | the first failing entry decides the failure; later entries are never looked at |
| EmbeddingJson.ReadToken | app/src/main/java/com/example/facerecognitiontflite/MyUtil.java:383-389 | the inner loop collects exactly the characters up to the next '|' and stops there |
| EmbeddingJson.ParseEntry | app/src/main/java/com/example/facerecognitiontflite/MyUtil.java:377-392 | the loops over one entry compute exactly the decoding of the entry, with the same failure |
| EmbeddingJson.ParseJson | app/src/main/java/com/example/facerecognitiontflite/MyUtil.java:370-401 | no array gives no person, a failing entry gives that exception, and otherwise a fresh person with every decoded embedding added in order |
| Matching.MinDistanceIsLeast | app/src/main/java/com/example/facerecognitiontflite/MainActivity.java:81 | the selected distance is no larger than any and equal to one; it is below a bound (strictly or not) exactly when some distance is |
| FaceCompare.CompareEarlyReturns | app/src/main/java/com/example/facerecognitiontflite/MainActivity.java:64-73 | base data is missing exactly when nothing was enrolled, and then the picture is not looked at; otherwise no face exactly when cropFace finds none |
| FaceCompare.CompareMatches | app/src/main/java/com/example/facerecognitiontflite/MainActivity.java:75-86 | a compared face is matched exactly when some slot below idx_read is strictly closer than 0.4; the distance shown is the smallest of them |
| FaceCompare.CompareIgnoresSlotNine | app/src/main/java/com/example/facerecognitiontflite/MainActivity.java:76-79 | slot 9 never affects the comparison |
| FaceCompare.MainActivity.constructor | app/src/main/java/com/example/facerecognitiontflite/MainActivity.java:45-50 | onCreate: no picture yet, and the person loadJSON gives |
| FaceCompare.MainActivity.LoadJson | app/src/main/java/com/example/facerecognitiontflite/MainActivity.java:173-179 | the stored person, or a fresh empty Person when nothing is stored |
| FaceCompare.MainActivity.CompareFace | app/src/main/java/com/example/facerecognitiontflite/MainActivity.java:60-91 | returns the early exits or the smallest distance and whether it is strictly below THRESHOLD, as Compare states |
| FaceCompare.MainActivity.EnrolledDistances | app/src/main/java/com/example/facerecognitiontflite/MainActivity.java:76-79 | the distances to slots 0..idx_read-1, in order, in a fresh array |
| FaceCompare.MainActivity.SaveEmbedding | app/src/main/java/com/example/facerecognitiontflite/MainActivity.java:162-171 | without a face nothing changes; otherwise exactly one addEmbedding of the crop's embedding, then a save |
| FaceVerify.AcceptsIff | app/src/main/java/com/example/facerecognitiontflite/MainActivity2.kt:253-273 | verify accepts exactly when some base embedding is at most the threshold away (a non-strict <=) |
| FaceVerify.VerifiedNeedsEveryCheck | app/src/main/java/com/example/facerecognitiontflite/MainActivity2.kt:195-241 | a verified face had a picture and success, a face, at least MIN_BASE_DATA base embeddings, anti-spoofing passed unless WFO, and verify's acceptance |
| FaceVerify.ChecksShortCircuit | app/src/main/java/com/example/facerecognitiontflite/MainActivity2.kt:204-219 | too little base data decides before anti-spoofing and embedding; for WFO the anti-spoofing score is never consulted |
| FaceVerify.ProfilesDiffer | app/src/main/java/com/example/facerecognitiontflite/MainActivity2.kt:294-310 | the WFO and WFH profiles of one nik never share a key or a file; WFO has the lower detector threshold and the higher verification threshold |
| FaceVerify.MainActivity2.constructor | app/src/main/java/com/example/facerecognitiontflite/MainActivity2.kt:28-41 | not WFO, no failed verification yet, verification threshold MobileFaceNet.THRESHOLD (0.4) |
| FaceVerify.MainActivity2.ProcessBitmap | app/src/main/java/com/example/facerecognitiontflite/MainActivity2.kt:195-241 | true exactly when every check passes in order; err_verified_counter grows by exactly one on a failed verification and on no other path |
| FaceVerify.MainActivity2.Verify | app/src/main/java/com/example/facerecognitiontflite/MainActivity2.kt:253-273 | the smallest distance to the base embeddings is at most the current verification threshold (non-strict) |
| FaceVerify.MainActivity2.LoadBaseData | app/src/main/java/com/example/facerecognitiontflite/MainActivity2.kt:294-310 | WFO: detector threshold 0.55, verification threshold 0.4, key "Person-WFO", file nik + "-wfo.json"; WFH: 0.6, 0.3, "Person-WFH", nik + "-wfh.json"; the later detector stages at threshold + 0.1 |
| Camera.RotationDegrees | app/src/main/java/com/example/facerecognitiontflite/CameraActivity.java:94-108 | ROTATION_0/90/180/270 give 0/90/180/270 degrees, any other value 0 |
| Camera.DisplayDegreeMeaning | app/src/main/java/com/example/facerecognitiontflite/CameraActivity.java:109-117 | for orientation >= 0 the degree is in [0, 360): front is -(orientation + degrees) mod 360, back is (orientation - degrees) mod 360 |
| Camera.BackQuarterTurn | app/src/main/java/com/example/facerecognitiontflite/CameraActivity.java:113-115 | turning the display a quarter turn further turns the back camera's preview a quarter turn back |
| Camera.FrontMirrorsBack | app/src/main/java/com/example/facerecognitiontflite/CameraActivity.java:110-115 | at rotation 0 the front and back degrees add up to a multiple of 360 |
| Camera.Closest | app/src/main/java/com/example/facerecognitiontflite/CameraActivity.java:128-135 | a scan with a strict < picks the earliest passing size of smallest height difference; nothing only when no size passes |
| Camera.FirstClosestUnique | app/src/main/java/com/example/facerecognitiontflite/CameraActivity.java:128-135 | there is one earliest closest size |
| Camera.OptimalSizeMeaning | app/src/main/java/com/example/facerecognitiontflite/CameraActivity.java:120-148 | null only for an empty list; the earliest closest size among those passing the aspect test, or among all sizes when none passes |
| Camera.ClosestPass | app/src/main/java/com/example/facerecognitiontflite/CameraActivity.java:128-135 | one pass of the loop finds the size Closest specifies |
| Camera.GetOptimalSize | app/src/main/java/com/example/facerecognitiontflite/CameraActivity.java:120-148 | the two passes give the size OptimalSize specifies |

## Left out

- Box.java is not part of this model. `area`, `width`, `height`, `calibrate`, `toSquareShape`, `limitSquare` and `transform2Rect` are uninterpreted functions in `Boxes.BoxOps`.
- The TFLite networks are not modelled: `pNetForward`, the `rNetForward`/`oNetForward` interpreter calls, `MobileFaceNet.generateEmbedding` and `FaceAntiSpoofing.antiSpoofing` are function parameters. A `Picture` carries the proposal network's output grid per scale and the answers of the other two networks per box.
- Batch inference in `rNetForward`/`oNetForward` is modelled per box: a box's answer depends on its own crop only.
- Bitmap work (`bitmapResize`, `cropAndResize`, `normalizeImage`, `Align.face_align`, `Bitmap.createBitmap`, `BitmapUtils.processBitmap`) is not modelled. Of the detector's crops, only whether `cropAndResize` accepts a box matters, since a refusal throws IllegalArgumentException. The crop of `cropFace` is a `MyUtil.Region`, and the aligner is a parameter.
- Floats are modelled as exact reals. Java int overflow in areas and intersections is not modelled.
- MyUtil.CropFace always yields the region once both detection passes find a face. The IllegalArgumentException that `Bitmap.createBitmap` in `crop` (MyUtil.java:212-215) throws for a zero width or height, or for a region past the bitmap edge, is dropped. No caller catches it, and Box.java's `limitSquare` is not part of this model, so the model cannot tell when it happens.
- FaceDetection.Round: only the rounding bound (nearest integer, halves up) is stated. The float-specific cases of Math.round (NaN, infinities, values beyond the int range) are not modelled.
- An IoU test that divides by zero gives +Infinity in Java. The model treats it as firing (`RatioAtLeast` with a zero denominator).
- The pyramid's face size is divided by the factor as an exact real 0.709, not the float 0.709f.
- FaceDetection.Mtcnn.DetectFaces requires a positive minimum face size. With 0 the pyramid loop of `pNet` never ends. `cropFace` passes a fifth of the bitmap width, which is positive for bitmaps at least five pixels wide.
- The detector inside `cropFace` is a parameter (`MyUtil.Surroundings`). It is not tied to `FaceDetection.Mtcnn.DetectFaces` or to the thresholds that `loadBaseData` sets.
- MyUtil.FindLargestFace works on box values, not on the `Vector<Box>` objects, because it changes nothing.
- `MobileFaceNet.cosineDistance` is a parameter. As written, its `normB` accumulates the first embedding instead of the second (mobilefacenet/MobileFaceNet.java:70-71). The model does not reproduce this, so no property here depends on what the distance computes.
- `l2Normalize`, `convertGreyImg` and the anti-spoofing leaf scores are float numerics and are not modelled.
- I/O and persistence are not modelled: `loadModelFile`, `loadJSONFromAsset`, `loadSharedPreference`, `saveSharedPreference`, `saveJSON`, SharedPreferences and Gson.
  - `MainActivity.loadJSON` receives what Gson read as an optional `Person`.
  - `parseJSON` receives the optional list of `"embedding"` strings. `None` stands for the JSONException path, which returns null.
  - The exceptions that escape `parseJSON` (StringIndexOutOfBounds, NumberFormat, ArrayIndexOutOfBounds) are results.
- `Person.embeddingSize` and `MobileFaceNet.setThreshold`, which `MainActivity2.kt` calls, exist in neither Person.java nor MobileFaceNet.java.
  - The base embeddings are an explicit parameter of `ProcessBitmap`.
  - The threshold `loadBaseData` asks for is kept in the screen's `faceThreshold`, which `verify` compares with. As written, `verify` reads the constant `MobileFaceNet.THRESHOLD`.
- FaceVerify.MainActivity2.Verify requires at least one base embedding: `FloatArray(0)` followed by `distances[0]` would throw. Its only caller checks for `MIN_BASE_DATA` (3) first.
- Enrollment.Person.GetEmbedding requires an index below `MAX_IDX`. Java would throw ArrayIndexOutOfBounds, and every caller stays below `idx_read`.
- Sharing: `addEmbedding` stores a reference to the caller's `float[]`. The model stores embeddings as values, so it does not capture later changes made through that alias.
- The Toasts, colours and texts of both screens are not modelled. `processBitmap`'s "online verification" message survives only as `NotVerified(online)`.
- The liveness SDK, the camera lifecycle, permission callbacks, `convertBitmap` and ai/Recognizer.java (a synchronized singleton) are not modelled.
- Camera: the aspect-ratio test of `getOptimalSize` on doubles is a parameter. `Double.MAX_VALUE` as the starting difference is "no difference yet", which every integer difference beats. `setDisplayOrientation` is not modelled; only the returned degree is.
- FaceVerify.ChecksShortCircuit holds by the definition of `Decide` alone. It documents the order of the checks rather than adding proof.
