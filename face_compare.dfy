/**
 * The registration screen (MainActivity): it enrols the face of the last
 * picture into a Person, and compares the face of the last picture with
 * the enrolled ones, accepting it when the smallest cosine distance is
 * strictly below MobileFaceNet.THRESHOLD.
 *
 * The screen's own cropFace and findMinimumDistance are the same code as
 * MyUtil's and are modelled by MyUtil.CropFace and MyUtil.FindMinimumDistance.
 */
module FaceCompare {
  import opened Wrappers
  import opened Enrollment
  import opened MyUtil
  import opened Matching

  /** MobileFaceNet.THRESHOLD. */
  const Threshold: real := 0.4

  /** What compareFace ends with: one of its two early returns, or the distance it shows. */
  datatype Comparison =
    | BaseDataNotFound
    | NoFace
    | Compared(minDistance: real, matched: bool)

  /** The embeddings compareFace compares against: slots 0 to idx_read - 1. */
  function Enrolled(h: seq<Embedding>): (e: seq<Embedding>)
    ensures |e| == ReadCount(|h|)
    ensures forall i :: 0 <= i < |e| ==> e[i] == Slot(h, i)
  {
    seq(ReadCount(|h|), i requires 0 <= i < ReadCount(|h|) => Slot(h, i))
  }

  /** compareFace on a person with addition history h and the last picture taken. */
  function Compare<Image>(m: Models<Image>, h: seq<Embedding>, bitmap: Option<Image>): Comparison
  {
    if ReadCount(|h|) == 0 then BaseDataNotFound
    else match CropFace(m.env, bitmap)
      case None => NoFace
      case Some(crop) =>
        var d := Distances(m.embed(crop.0, crop.1), Enrolled(h), m.distance);
        Compared(MinDistance(d), MinDistance(d) < Threshold)
  }

  /**
   * The base data is missing exactly when nothing was ever enrolled, and
   * then the picture is not looked at; otherwise there is no face exactly
   * when cropFace finds none.
   */
  lemma CompareEarlyReturns<Image>(m: Models<Image>, h: seq<Embedding>, bitmap: Option<Image>)
    ensures Compare(m, h, bitmap) == BaseDataNotFound <==> h == []
    ensures h == [] ==> Compare(m, h, bitmap) == Compare(m, h, None)
    ensures h != [] ==> (Compare(m, h, bitmap) == NoFace <==> CropFace(m.env, bitmap).None?)
  {
    ReadCountIsCapped(|h|);
  }

  /**
   * A compared face is matched exactly when some enrolled slot below
   * idx_read is strictly closer than the threshold, and the distance shown
   * is the smallest of those distances.
   */
  lemma CompareMatches<Image>(m: Models<Image>, h: seq<Embedding>, bitmap: Option<Image>, probe: Embedding)
    requires h != [] && CropFace(m.env, bitmap).Some?
    requires probe == m.embed(CropFace(m.env, bitmap).value.0, CropFace(m.env, bitmap).value.1)
    ensures Compare(m, h, bitmap).Compared?
    ensures Compare(m, h, bitmap).matched <==>
      exists i :: 0 <= i < ReadCount(|h|) && m.distance(probe, Slot(h, i)) < Threshold
    ensures forall i :: 0 <= i < ReadCount(|h|) ==> Compare(m, h, bitmap).minDistance <= m.distance(probe, Slot(h, i))
    ensures exists i :: 0 <= i < ReadCount(|h|) && Compare(m, h, bitmap).minDistance == m.distance(probe, Slot(h, i))
  {
    var d := Distances(probe, Enrolled(h), m.distance);
    assert Compare(m, h, bitmap) == Compared(MinDistance(d), MinDistance(d) < Threshold);
    EnrolledMinimum(probe, h, m.distance);
  }

  /** The smallest distance to the enrolled slots, stated slot by slot. */
  lemma EnrolledMinimum(probe: Embedding, h: seq<Embedding>, distance: (Embedding, Embedding) -> real)
    requires h != []
    ensures var d := Distances(probe, Enrolled(h), distance);
      |d| == ReadCount(|h|) > 0 &&
      (MinDistance(d) < Threshold <==> exists i :: 0 <= i < ReadCount(|h|) && distance(probe, Slot(h, i)) < Threshold) &&
      (forall i :: 0 <= i < ReadCount(|h|) ==> MinDistance(d) <= distance(probe, Slot(h, i))) &&
      (exists i :: 0 <= i < ReadCount(|h|) && MinDistance(d) == distance(probe, Slot(h, i)))
  {
    ReadCountIsCapped(|h|);
    var d := Distances(probe, Enrolled(h), distance);
    MinDistanceIsLeast(d, Threshold);
    forall i | 0 <= i < ReadCount(|h|)
      ensures d[i] == distance(probe, Slot(h, i))
    {
      assert Enrolled(h)[i] == Slot(h, i);
    }
    if MinDistance(d) < Threshold {
      var i :| 0 <= i < |d| && d[i] < Threshold;
      assert distance(probe, Slot(h, i)) < Threshold;
    }
    var k :| 0 <= k < |d| && d[k] == MinDistance(d);
    assert MinDistance(d) == distance(probe, Slot(h, k));
  }

  /** Slot 9 never takes part in a comparison, however many faces were enrolled. */
  lemma CompareIgnoresSlotNine<Image>(m: Models<Image>, h: seq<Embedding>, h': seq<Embedding>, bitmap: Option<Image>)
    requires |h| == |h'|
    requires forall s :: 0 <= s < MaxIdx - 1 ==> Slot(h, s) == Slot(h', s)
    ensures Compare(m, h, bitmap) == Compare(m, h', bitmap)
  {
    SlotNineNeverRead(|h|);
    assert Enrolled(h) == Enrolled(h');
  }

  class MainActivity<Image> {
    /** The picture CameraActivity leaves behind (a static field of the screen; null until taken). */
    var bitmap: Option<Image>
    var person: Person?
    const models: Models<Image>

    ghost predicate Valid()
      reads this, person, if person == null then null else person.embeddings
    {
      person != null && person.Valid()
    }

    /** onCreate: no picture yet, and loadJSON. */
    constructor (models: Models<Image>, stored: Option<Person>)
      ensures this.models == models && bitmap == None
      ensures stored.Some? ==> person == stored.value
      ensures stored.None? ==> fresh(person) && Valid() && person.history == []
    {
      this.models := models;
      bitmap := None;
      new;
      LoadJson(stored);
    }

    /**
     * loadJSON: the Person Gson reads from the "Person" preference, or a
     * new empty Person when nothing is stored.
     */
    method LoadJson(stored: Option<Person>)
      modifies this
      ensures bitmap == old(bitmap)
      ensures stored.Some? ==> person == stored.value
      ensures stored.None? ==> fresh(person) && Valid() && person.history == []
    {
      if stored.Some? {
        person := stored.value;
      } else {
        person := new Person();
      }
    }

    /** compareFace: the early returns, then the distances to slots 0..idx_read-1 and their minimum. */
    method CompareFace() returns (c: Comparison)
      requires Valid()
      ensures c == Compare(models, person.history, bitmap)
    {
      var n := person.GetIdxRead();
      if n == 0 {
        return BaseDataNotFound;
      }
      var crop := CropFace(models.env, bitmap);
      if crop.None? {
        return NoFace;
      }
      var probe := models.embed(crop.value.0, crop.value.1);
      var distances := EnrolledDistances(probe, n);
      var k := FindMinimumDistance(distances);
      var minDistance := distances[k];
      c := Compared(minDistance, minDistance < Threshold);
    }

    /** The loop of compareFace: `distances[i]` is the distance from the probe to slot i, for i below idx_read. */
    method EnrolledDistances(probe: Embedding, n: int) returns (distances: array<real>)
      requires Valid() && n == ReadCount(|person.history|)
      ensures fresh(distances)
      ensures distances[..] == Distances(probe, Enrolled(person.history), models.distance)
    {
      distances := new real[n];
      ghost var want := Distances(probe, Enrolled(person.history), models.distance);
      var i := 0;
      while i < n
        invariant 0 <= i <= n && distances.Length == n == |want|
        invariant distances[..i] == want[..i]
        decreases n - i
      {
        var e := person.GetEmbedding(i);
        distances[i] := models.distance(probe, e);
        i := i + 1;
      }
      assert distances[..] == distances[..n];
    }

    /**
     * saveEmbedding: without a face nothing changes; otherwise the
     * embedding of the crop is added to the person once, and saveJSON
     * (`saved`) follows.
     */
    method SaveEmbedding() returns (saved: bool)
      requires Valid()
      modifies person, person.embeddings
      ensures Valid() && person == old(person) && bitmap == old(bitmap)
      ensures saved <==> CropFace(models.env, bitmap).Some?
      ensures !saved ==> person.history == old(person.history) && unchanged(person) && unchanged(person.embeddings)
      ensures saved ==>
        var crop := CropFace(models.env, bitmap).value;
        person.history == old(person.history) + [models.embed(crop.0, crop.1)]
    {
      var crop := CropFace(models.env, bitmap);
      if crop.None? {
        return false;
      }
      var embedding := models.embed(crop.value.0, crop.value.1);
      person.AddEmbedding(embedding);
      saved := true;
    }
  }
}
