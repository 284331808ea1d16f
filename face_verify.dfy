/**
 * The attendance screen (MainActivity2): after the liveness challenge it
 * checks the picture taken, in a fixed order (a picture, a face, enough
 * base data, anti-spoofing for work from home, then verification), and
 * counts failed verifications.
 *
 * Person.embeddingSize and MobileFaceNet.setThreshold, which the screen
 * calls, do not exist in Person.java and MobileFaceNet.java: the base
 * embeddings are an explicit parameter here, and the threshold loadBaseData
 * asks for is kept in the screen's `faceThreshold`, which verify compares with.
 */
module FaceVerify {
  import opened Wrappers
  import opened Enrollment
  import opened MyUtil
  import opened Matching
  import FaceDetection

  /** MIN_BASE_DATA. */
  const MinBaseData: nat := 3
  /** TIMEOUT. */
  const Timeout: int := 3
  /** FaceAntiSpoofing.THRESHOLD. */
  const SpoofThreshold: real := 0.2
  /** MobileFaceNet.THRESHOLD, the verification threshold before loadBaseData picks a profile. */
  const DefaultFaceThreshold: real := 0.4

  /** The screen's models: matching, the bitmap preprocessing BitmapUtils.processBitmap, and the anti-spoofing score. */
  datatype Checks<!Image> = Checks(
    models: Models<Image>,
    prepare: Image -> Image,
    antiSpoof: (Image, Region) -> real)

  /** How processBitmap ends; only Verified returns true. */
  datatype Outcome =
    | NoPicture
    | NoFace
    | NotRegistered                 // fewer than MIN_BASE_DATA base embeddings
    | Spoofed
    | Verified
    | NotVerified(online: bool)     // online: the failure count passed TIMEOUT

  /** verify: the smallest distance from the crop to a base embedding is at most the threshold. */
  function Accepts<Image>(m: Models<Image>, crop: (Image, Region), base: seq<Embedding>, threshold: real): bool
    requires |base| > 0
  {
    MinDistance(Distances(m.embed(crop.0, crop.1), base, m.distance)) <= threshold
  }

  /** processBitmap's decision, given the failure count before the call. */
  function Decide<Image>(k: Checks<Image>, isWfo: bool, success: bool, bitmap: Option<Image>,
                         base: seq<Embedding>, threshold: real, failures: int): Outcome
  {
    if bitmap.None? || !success then NoPicture
    else match CropFace(k.models.env, Some(k.prepare(bitmap.value)))
      case None => NoFace
      case Some(crop) =>
        if |base| < MinBaseData then NotRegistered
        else if !isWfo && k.antiSpoof(crop.0, crop.1) > SpoofThreshold then Spoofed
        else if Accepts(k.models, crop, base, threshold) then Verified
        else NotVerified(failures + 1 > Timeout)
  }

  /**
   * verify accepts exactly when some base embedding is at most the
   * threshold away: the test is `<=`, so a distance equal to the threshold
   * is accepted here although compareFace's `<` rejects it.
   */
  lemma AcceptsIff<Image>(m: Models<Image>, crop: (Image, Region), base: seq<Embedding>, threshold: real)
    requires |base| > 0
    ensures Accepts(m, crop, base, threshold) <==>
      exists i :: 0 <= i < |base| && m.distance(m.embed(crop.0, crop.1), base[i]) <= threshold
  {
    var probe := m.embed(crop.0, crop.1);
    var d := Distances(probe, base, m.distance);
    MinDistanceIsLeast(d, threshold);
    if MinDistance(d) <= threshold {
      var i :| 0 <= i < |d| && d[i] <= threshold;
      assert m.distance(probe, base[i]) <= threshold;
    } else {
      forall i | 0 <= i < |base| ensures m.distance(probe, base[i]) > threshold {
        assert d[i] == m.distance(probe, base[i]);
      }
    }
  }

  /**
   * The checks run in order: a verified face had a picture, a face, at
   * least MIN_BASE_DATA base embeddings, passed anti-spoofing unless the
   * user works from the office, and was accepted by verify.
   */
  lemma VerifiedNeedsEveryCheck<Image>(k: Checks<Image>, isWfo: bool, success: bool, bitmap: Option<Image>,
                                       base: seq<Embedding>, threshold: real, failures: int)
    requires Decide(k, isWfo, success, bitmap, base, threshold, failures) == Verified
    ensures bitmap.Some? && success && |base| >= MinBaseData
    ensures CropFace(k.models.env, Some(k.prepare(bitmap.value))).Some?
    ensures var crop := CropFace(k.models.env, Some(k.prepare(bitmap.value))).value;
      (isWfo || k.antiSpoof(crop.0, crop.1) <= SpoofThreshold) &&
      exists i :: 0 <= i < |base| && k.models.distance(k.models.embed(crop.0, crop.1), base[i]) <= threshold
  {
    var crop := CropFace(k.models.env, Some(k.prepare(bitmap.value))).value;
    AcceptsIff(k.models, crop, base, threshold);
  }

  /**
   * Too little base data stops the chain before anti-spoofing and
   * verification: the outcome does not depend on either model. Working from
   * the office, the anti-spoofing score is never consulted.
   */
  lemma ChecksShortCircuit<Image>(k: Checks<Image>, isWfo: bool, success: bool, bitmap: Option<Image>,
                                  base: seq<Embedding>, threshold: real, failures: int,
                                  antiSpoof': (Image, Region) -> real, embed': (Image, Region) -> Embedding)
    ensures |base| < MinBaseData ==>
      var k' := k.(antiSpoof := antiSpoof', models := k.models.(embed := embed'));
      Decide(k, isWfo, success, bitmap, base, threshold, failures) ==
      Decide(k', isWfo, success, bitmap, base, threshold, failures)
    ensures isWfo ==>
      Decide(k, isWfo, success, bitmap, base, threshold, failures) ==
      Decide(k.(antiSpoof := antiSpoof'), isWfo, success, bitmap, base, threshold, failures)
    ensures isWfo ==> Decide(k, isWfo, success, bitmap, base, threshold, failures) != Spoofed
  {
  }

  class MainActivity2<Image> {
    var isWfo: bool
    var errVerifiedCounter: int
    /** The key and file name of the base data loadBaseData last asked for. */
    var baseKey: string
    var baseFile: string
    /** The verification threshold of the current profile. */
    var faceThreshold: real
    const mtcnn: FaceDetection.Mtcnn
    const checks: Checks<Image>

    constructor (mtcnn: FaceDetection.Mtcnn, checks: Checks<Image>)
      ensures this.mtcnn == mtcnn && this.checks == checks
      ensures !isWfo && errVerifiedCounter == 0 && baseKey == [] && baseFile == []
      ensures faceThreshold == DefaultFaceThreshold
    {
      this.mtcnn := mtcnn;
      this.checks := checks;
      isWfo := false;
      errVerifiedCounter := 0;
      baseKey := [];
      baseFile := [];
      faceThreshold := DefaultFaceThreshold;
    }

    /**
     * processBitmap: true exactly when every check passes; the failure
     * counter grows by one on a failed verification and on no other path.
     */
    method ProcessBitmap(success: bool, bitmap: Option<Image>, base: seq<Embedding>)
      returns (accepted: bool)
      modifies this
      ensures isWfo == old(isWfo) && baseKey == old(baseKey) && baseFile == old(baseFile)
      ensures faceThreshold == old(faceThreshold)
      ensures var outcome := Decide(checks, isWfo, success, bitmap, base, faceThreshold, old(errVerifiedCounter));
        (accepted <==> outcome == Verified) &&
        errVerifiedCounter == old(errVerifiedCounter) + (if outcome.NotVerified? then 1 else 0)
    {
      if bitmap.Some? {
        if success {
          var crop := CropFace(checks.models.env, Some(checks.prepare(bitmap.value)));
          if crop.None? {
            return false;
          }
          if |base| < MinBaseData {
            return false;
          }
          if !isWfo {
            var score := checks.antiSpoof(crop.value.0, crop.value.1);
            if score > SpoofThreshold {
              return false;
            }
          }
          var verified := Verify(crop.value, base);
          if verified {
            return true;
          } else {
            errVerifiedCounter := errVerifiedCounter + 1;
            if errVerifiedCounter > Timeout {
              return false;
            } else {
              return false;
            }
          }
        }
      }
      return false;
    }

    /** verify: the distances to the base embeddings, their minimum, and a `<=` test. */
    method Verify(crop: (Image, Region), base: seq<Embedding>) returns (verified: bool)
      requires |base| > 0
      ensures verified == Accepts(checks.models, crop, base, faceThreshold)
    {
      var distances := new real[|base|];
      var probe := checks.models.embed(crop.0, crop.1);
      ghost var want := Distances(probe, base, checks.models.distance);
      var i := 0;
      while i < |base|
        invariant 0 <= i <= |base| && distances.Length == |base|
        invariant distances[..i] == want[..i]
        decreases |base| - i
      {
        distances[i] := checks.models.distance(probe, base[i]);
        i := i + 1;
      }
      assert distances[..] == want;
      var k := FindMinimumDistance(distances);
      var minDistance := distances[k];
      verified := minDistance <= faceThreshold;
    }

    /**
     * loadBaseData: the office and home profiles differ in the detector
     * threshold, the verification threshold, the preference key and the
     * base-data file.
     */
    method LoadBaseData(nik: string)
      modifies this, mtcnn
      ensures isWfo == old(isWfo) && errVerifiedCounter == old(errVerifiedCounter)
      ensures var p := ProfileFor(isWfo, nik);
        mtcnn.Current() == FaceDetection.StageThresholds(p.threshold, p.threshold + 0.1, p.threshold + 0.1) &&
        faceThreshold == p.faceThreshold && baseKey == p.key && baseFile == p.file
    {
      if isWfo {
        mtcnn.SetThreshold(0.55);
        faceThreshold := 0.4;
        baseKey, baseFile := "Person-WFO", nik + "-wfo.json";
      } else {
        mtcnn.SetThreshold(0.6);
        faceThreshold := 0.3;
        baseKey, baseFile := "Person-WFH", nik + "-wfh.json";
      }
    }
  }

  /** A base-data profile: the MTCNN threshold, the verification threshold, the preference key and the file name. */
  datatype Profile = Profile(threshold: real, faceThreshold: real, key: string, file: string)

  function ProfileFor(isWfo: bool, nik: string): Profile
  {
    if isWfo then Profile(0.55, 0.4, "Person-WFO", nik + "-wfo.json")
    else Profile(0.6, 0.3, "Person-WFH", nik + "-wfh.json")
  }

  /**
   * For one user the two profiles never share a key or a file; the office
   * profile's detector is the more permissive one at every stage, and its
   * verification is the more permissive one too.
   */
  lemma ProfilesDiffer(nik: string)
    ensures ProfileFor(true, nik).key != ProfileFor(false, nik).key
    ensures ProfileFor(true, nik).file != ProfileFor(false, nik).file
    ensures ProfileFor(true, nik).threshold < ProfileFor(false, nik).threshold
    ensures ProfileFor(true, nik).faceThreshold > ProfileFor(false, nik).faceThreshold
  {
    var wfo := ProfileFor(true, nik).file;
    var wfh := ProfileFor(false, nik).file;
    assert wfo[|nik| + 3] == 'o' && wfh[|nik| + 3] == 'h';
  }
}
