/**
  The detection records and the filtering around non-maximum suppression: the
  minimum-size filter over the raw person boxes, the keep-filter that selects
  the detections whose index NMS kept, and the person-plus-face merge.
*/
module Detector {
  import opened Wrappers
  import opened Nms

  /** One detection: box (x, y, w, h), detector score, and the detector's label. */
  datatype Detection = Detection(bbox: Box, score: real, kind: string)

  /** The IoU threshold both detectors pass to NMS. */
  const IouThreshold: real := 0.4

  function BoxesOf(ds: seq<Detection>): (bs: seq<Box>)
    ensures |bs| == |ds| && forall k :: 0 <= k < |ds| ==> bs[k] == ds[k].bbox
  {
    seq(|ds|, k requires 0 <= k < |ds| => ds[k].bbox)
  }

  function ScoresOf(ds: seq<Detection>): (ss: seq<real>)
    ensures |ss| == |ds| && forall k :: 0 <= k < |ds| ==> ss[k] == ds[k].score
  {
    seq(|ds|, k requires 0 <= k < |ds| => ds[k].score)
  }

  /** The indices below `n` that occur in `keep`, in increasing order. */
  function KeptIndices(n: nat, keep: seq<nat>): (idx: seq<nat>)
    ensures |idx| <= n && forall k :: 0 <= k < |idx| ==> idx[k] < n
    ensures forall j, k :: 0 <= j < k < |idx| ==> idx[j] < idx[k]
    ensures forall i :: i in idx <==> i < n && i in keep
  {
    if n == 0 then []
    else
      var prev := KeptIndices(n - 1, keep);
      if n - 1 in keep then prev + [n - 1] else prev
  }

  /** `[d for i, d in enumerate(ds) if i in keep]`. */
  function SelectKept(ds: seq<Detection>, keep: seq<nat>): (r: seq<Detection>)
    ensures var idx := KeptIndices(|ds|, keep);
      |r| == |idx| && forall k :: 0 <= k < |r| ==> idx[k] < |ds| && r[k] == ds[idx[k]]
  {
    if ds == [] then []
    else
      var n := |ds| - 1;
      var prev := SelectKept(ds[..n], keep);
      assert forall k :: 0 <= k < |prev| ==> ds[..n][k] == ds[k];
      if n in keep then prev + [ds[n]] else prev
  }

  /** Every selected detection comes from the input, and an index kept within range yields one. */
  lemma SelectKeptMembers(ds: seq<Detection>, keep: seq<nat>)
    ensures forall d :: d in SelectKept(ds, keep) ==> d in ds
    ensures (exists i :: i in keep && i < |ds|) ==> SelectKept(ds, keep) != []
  {
    var r := SelectKept(ds, keep);
    var idx := KeptIndices(|ds|, keep);
    forall d | d in r
      ensures d in ds
    {
      var k :| 0 <= k < |r| && r[k] == d;
    }
    if exists i :: i in keep && i < |ds| {
      var i :| i in keep && i < |ds|;
      assert i in idx;
    }
  }

  /** A detection whose index is kept is selected. */
  lemma SelectKeptHas(ds: seq<Detection>, keep: seq<nat>, i: nat)
    requires i < |ds| && i in keep
    ensures ds[i] in SelectKept(ds, keep)
  {
    var idx := KeptIndices(|ds|, keep);
    assert i in idx;
    var k :| 0 <= k < |idx| && idx[k] == i;
    assert SelectKept(ds, keep)[k] == ds[i];
  }

  /** The box passes the minimum-size test: it is skipped when narrower than `minW` or shorter than `minH`. */
  predicate LargeEnough(b: Box, minW: int, minH: int) {
    !(b.w < minW || b.h < minH)
  }

  /** `min_w, min_h`: the override's values when one is given, the configured ones otherwise. */
  function MinSize(minSize: Option<(int, int)>, configW: int, configH: int): (m: (int, int))
    ensures minSize.None? ==> m == (configW, configH)
    ensures minSize.Some? ==> m == minSize.value
  {
    match minSize
    case None => (configW, configH)
    case Some(override) => override
  }

  /** The detections the loop over `zip(rects[..n], weights[..n])` collects: each large-enough box as a "person". */
  function SizeFiltered(rects: seq<Box>, weights: seq<real>, n: nat, minW: int, minH: int): (ds: seq<Detection>)
    requires n <= |rects| && n <= |weights|
    ensures |ds| <= n
    ensures forall d :: d in ds <==>
      exists k :: 0 <= k < n && LargeEnough(rects[k], minW, minH) && d == Detection(rects[k], weights[k], "person")
  {
    if n == 0 then []
    else
      var prev := SizeFiltered(rects, weights, n - 1, minW, minH);
      if LargeEnough(rects[n - 1], minW, minH) then prev + [Detection(rects[n - 1], weights[n - 1], "person")]
      else prev
  }

  /** What `HumanDetector.detect` returns for the boxes and weights HOG reported. */
  function PersonDetections(rects: seq<Box>, weights: seq<real>, minSize: Option<(int, int)>, configW: int, configH: int): seq<Detection>
  {
    var (minW, minH) := MinSize(minSize, configW, configH);
    var raw := SizeFiltered(rects, weights, IMin(|rects|, |weights|), minW, minH);
    SelectKept(raw, NmsKeep(BoxesOf(raw), ScoresOf(raw), IouThreshold))
  }

  /**
    The filtering half of `HumanDetector.detect`: the loop over the HOG boxes and
    weights that drops undersized boxes, then NMS and the keep-filter when any
    detection is left. The HOG call itself and the frame rescaling are not part of
    this model: the boxes arrive in frame coordinates.
  */
  method DetectPersons(rects: seq<Box>, weights: seq<real>, minSize: Option<(int, int)>, configW: int, configH: int)
    returns (detections: seq<Detection>)
    ensures detections == PersonDetections(rects, weights, minSize, configW, configH)
  {
    var n := IMin(|rects|, |weights|);
    detections := [];
    var (minW, minH) := MinSize(minSize, configW, configH);
    for i := 0 to n
      invariant detections == SizeFiltered(rects, weights, i, minW, minH)
    {
      var b := rects[i];
      if b.w < minW || b.h < minH {
        continue;
      }
      detections := detections + [Detection(b, weights[i], "person")];
    }
    if detections != [] {
      var keep := NonMaxSuppression(BoxesOf(detections), ScoresOf(detections), IouThreshold);
      detections := SelectKept(detections, keep);
    }
  }

  /** After the keep-filter, no two detections overlap by more than the threshold. */
  lemma SelectNmsPairwise(ds: seq<Detection>)
    ensures var r := SelectKept(ds, NmsKeep(BoxesOf(ds), ScoresOf(ds), IouThreshold));
      forall j, k :: 0 <= j < |r| && 0 <= k < |r| && j != k ==> !Suppresses(r[j].bbox, r[k].bbox, IouThreshold)
  {
    var bs := BoxesOf(ds);
    var keep := NmsKeep(bs, ScoresOf(ds), IouThreshold);
    var r := SelectKept(ds, keep);
    var idx := KeptIndices(|ds|, keep);
    NmsKeepPairwise(bs, ScoresOf(ds), IouThreshold);
    forall j, k | 0 <= j < |r| && 0 <= k < |r| && j != k
      ensures !Suppresses(r[j].bbox, r[k].bbox, IouThreshold)
    {
      assert idx[j] != idx[k];
      assert idx[j] in keep && idx[k] in keep;
      var a :| 0 <= a < |keep| && keep[a] == idx[j];
      var b :| 0 <= b < |keep| && keep[b] == idx[k];
      assert !Suppresses(bs[keep[a]], bs[keep[b]], IouThreshold);
    }
  }

  /** Every input detection that is dropped overlaps a returned one of at least its score by more than the threshold. */
  lemma SelectNmsCovers(ds: seq<Detection>)
    ensures var r := SelectKept(ds, NmsKeep(BoxesOf(ds), ScoresOf(ds), IouThreshold));
      forall d :: d in ds && d !in r ==>
        exists e :: e in r && Suppresses(e.bbox, d.bbox, IouThreshold) && e.score >= d.score
  {
    var bs, ss := BoxesOf(ds), ScoresOf(ds);
    var keep := NmsKeep(bs, ss, IouThreshold);
    var r := SelectKept(ds, keep);
    NmsKeepCovers(bs, ss, IouThreshold);
    forall d | d in ds && d !in r
      ensures exists e :: e in r && Suppresses(e.bbox, d.bbox, IouThreshold) && e.score >= d.score
    {
      var i :| 0 <= i < |ds| && ds[i] == d;
      if i in keep {
        SelectKeptHas(ds, keep, i);
      } else {
        var j :| 0 <= j < |keep| && Suppresses(bs[keep[j]], bs[i], IouThreshold) && ss[keep[j]] >= ss[i];
        SelectKeptHas(ds, keep, keep[j]);
      }
    }
  }

  /** Every returned person detection is a large-enough HOG box labelled "person". */
  lemma PersonDetectionsFiltered(rects: seq<Box>, weights: seq<real>, minSize: Option<(int, int)>, configW: int, configH: int)
    ensures var (minW, minH) := MinSize(minSize, configW, configH);
      forall d :: d in PersonDetections(rects, weights, minSize, configW, configH) ==>
        d.kind == "person" && LargeEnough(d.bbox, minW, minH) && d.bbox in rects
  {
    var (minW, minH) := MinSize(minSize, configW, configH);
    var raw := SizeFiltered(rects, weights, IMin(|rects|, |weights|), minW, minH);
    SelectKeptMembers(raw, NmsKeep(BoxesOf(raw), ScoresOf(raw), IouThreshold));
    forall d | d in PersonDetections(rects, weights, minSize, configW, configH)
      ensures d.kind == "person" && LargeEnough(d.bbox, minW, minH) && d.bbox in rects
    {
      assert d in raw;
    }
  }

  /**
    `MultiHumanDetector.detect`: the person detections followed by the face
    detections, then NMS over the mix. `faces` is None when face detection is
    switched off or raised; the person detector runs with its default threshold
    and minimum size, whatever the caller passed.
  */
  function MergeDetections(persons: seq<Detection>, faces: Option<seq<Detection>>): (r: seq<Detection>)
    ensures var results := persons + (if faces.Some? then faces.value else []);
      forall d :: d in r ==> d in results
  {
    var results := persons + (if faces.Some? then faces.value else []);
    SelectKeptMembers(results, NmsKeep(BoxesOf(results), ScoresOf(results), IouThreshold));
    if results == [] then [] else SelectKept(results, NmsKeep(BoxesOf(results), ScoresOf(results), IouThreshold))
  }

  /**
    NMS runs across both kinds: no two merged detections, person or face,
    overlap by more than the threshold, and every person or face detection
    dropped overlaps a merged one of at least its score.
  */
  lemma MergeSuppressesAcrossKinds(persons: seq<Detection>, faces: Option<seq<Detection>>)
    ensures var results := persons + (if faces.Some? then faces.value else []);
      var r := MergeDetections(persons, faces);
      && (forall j, k :: 0 <= j < |r| && 0 <= k < |r| && j != k ==> !Suppresses(r[j].bbox, r[k].bbox, IouThreshold))
      && (forall d :: d in results && d !in r ==>
            exists e :: e in r && Suppresses(e.bbox, d.bbox, IouThreshold) && e.score >= d.score)
  {
    var results := persons + (if faces.Some? then faces.value else []);
    SelectNmsPairwise(results);
    SelectNmsCovers(results);
  }

  /** The merge is empty exactly when neither detector produced anything. */
  lemma MergeEmptyIffNoInput(persons: seq<Detection>, faces: Option<seq<Detection>>)
    ensures MergeDetections(persons, faces) == [] <==> persons == [] && (faces.None? || faces.value == [])
  {
    var results := persons + (if faces.Some? then faces.value else []);
    if results != [] {
      var keep := NmsKeep(BoxesOf(results), ScoresOf(results), IouThreshold);
      assert keep[0] in keep && keep[0] < |results|;
      SelectKeptMembers(results, keep);
    }
  }
}
