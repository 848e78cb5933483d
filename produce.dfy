/**
 * The post-processing in `produce.py`'s `main`: the model's masks become
 * detections, non-maximum suppression keeps some of them, the count names the
 * output directory, and each kept detection becomes a metadata record with a
 * 1-based id, a centre and the edge its angle is measured along.
 */
module Produce {
  import opened Results
  import opened Text
  import opened Paths
  import opened Geometry
  import opened Suppression

  /** One mask as the model reports it: float polygon vertices, a confidence, and the class as a float. */
  datatype RawDetection = RawDetection(xy: seq<(real, real)>, conf: real, cls: real)

  /** `{"poly": poly.astype(np.int32), "conf": float(conf), "cls_id": int(cls)}` */
  function ToDetection(raw: RawDetection): Detection
  {
    Detection(seq(|raw.xy|, i requires 0 <= i < |raw.xy| => Point(Truncate(raw.xy[i].0), Truncate(raw.xy[i].1))),
              raw.conf, Truncate(raw.cls))
  }

  function ToDetections(raws: seq<RawDetection>): seq<Detection>
  {
    seq(|raws|, i requires 0 <= i < |raws| => ToDetection(raws[i]))
  }

  /** The detections in the order the greedy pass visits them; none when the model found no masks. */
  function Candidates(masks: Option<seq<RawDetection>>): (ds: seq<Detection>)
    ensures ConfidenceOrdered(ds)
    ensures masks.Some? ==> multiset(ds) == multiset(ToDetections(masks.value))
    ensures masks.None? ==> ds == []
  {
    if masks.None? then [] else SortByConfidence(ToDetections(masks.value))
  }

  /** The suppression step of `main`: sort the detections, then keep each one no kept detection of its class overlaps above 0.5. */
  method SuppressOverlaps(masks: Option<seq<RawDetection>>, iou: Iou) returns (kept: seq<Detection>)
    ensures kept == Greedy(Candidates(masks), iou)
    ensures masks.None? ==> kept == []
    ensures IsSubsequence(kept, Candidates(masks))
    ensures |Candidates(masks)| > 0 ==> |kept| > 0 && kept[0] == Candidates(masks)[0]
    ensures Separated(kept, iou)
    ensures forall d :: d in Candidates(masks) ==> d in kept || exists k :: k in kept && Suppresses(k, d, iou)
  {
    kept := [];
    var detections: seq<Detection> := [];
    if masks.Some? {
      detections := ToDetections(masks.value);
      detections := SortByConfidence(detections);
      for i := 0 to |detections|
        invariant kept == Greedy(detections[..i], iou)
      {
        GreedyStep(detections, i, iou);
        if Survives(detections[i], kept, iou) {
          kept := kept + [detections[i]];
        }
      }
      assert detections[..|detections|] == detections;
    }
    assert detections == Candidates(masks);
    GreedySubsequence(detections, iou);
    GreedyNoOverlap(detections, iou);
    if |detections| > 0 {
      GreedyKeepsFirst(detections, iou);
    }
    forall d | d in detections ensures d in kept || exists k :: k in kept && Suppresses(k, d, iou) {
      var i :| 0 <= i < |detections| && detections[i] == d;
      GreedyDecision(detections, i, iou);
      if Survives(d, Greedy(detections[..i], iou), iou) {
        assert d == (Greedy(detections[..i], iou) + [d])[|Greedy(detections[..i], iou)|];
      }
    }
  }

  /** `output_dir_for_count`: `base / f"{count}_bags"`. */
  function OutputDirForCount(base: Path, count: nat): Path
  {
    base + [NatToString(count) + "_bags"]
  }

  /** Reads the count back from an output directory's name: `"<digits>_bags"`. */
  function CountOfOutputDir(p: Path): Option<nat>
  {
    var name := Name(p);
    if |name| > 5 && name[|name| - 5..] == "_bags" && forall i :: 0 <= i < |name| - 5 ==> IsDigit(name[i])
    then Some(ParseDigits(name[..|name| - 5]))
    else None
  }

  /** The output directory sits directly under `base` and its name gives back the count. */
  lemma OutputDirRoundTrip(base: Path, count: nat)
    ensures OutputDirForCount(base, count)[..|base|] == base
    ensures |OutputDirForCount(base, count)| == |base| + 1
    ensures CountOfOutputDir(OutputDirForCount(base, count)) == Some(count)
  {
    var digits := NatToString(count);
    var name := digits + "_bags";
    assert Name(OutputDirForCount(base, count)) == name;
    assert name[..|name| - 5] == digits;
    assert name[|name| - 5..] == "_bags";
    ParseNatToString(count);
  }

  /** Different counts never share an output directory. */
  lemma OutputDirsDistinct(base: Path, a: nat, b: nat)
    requires a != b
    ensures OutputDirForCount(base, a) != OutputDirForCount(base, b)
  {
    OutputDirRoundTrip(base, a);
    OutputDirRoundTrip(base, b);
  }

  /** One entry of `meta["bags"]`; the angle itself is left to the edge it is measured along. */
  datatype BagRecord = BagRecord(id: nat, center: Point, longEdge: Vec)

  /** `np.argmin` of an empty polygon raises; the index is the kept detection's position. */
  datatype ProduceError = EmptyPolygon(index: nat)

  /** The record of the bag with id `id`: the centre and long edge of its sorted corners. */
  function BagOf(d: Detection, id: nat): BagRecord
    requires |d.poly| > 0
  {
    var c := SortCorners(d.poly).value;
    BagRecord(id, Center(c), LongEdge(c))
  }

  /** The metadata loop of `main`: one record per kept detection, in kept order, ids counting from 1. */
  method BuildMetadata(kept: seq<Detection>) returns (r: Result<seq<BagRecord>, ProduceError>)
    ensures r.Ok? <==> forall i :: 0 <= i < |kept| ==> |kept[i].poly| > 0
    ensures r.Ok? ==> |r.value| == |kept|
    ensures r.Ok? ==> forall i :: 0 <= i < |kept| ==> r.value[i] == BagOf(kept[i], i + 1)
    ensures r.Err? ==> var k := r.error.index;
      k < |kept| && |kept[k].poly| == 0 && forall i :: 0 <= i < k ==> |kept[i].poly| > 0
  {
    var bags: seq<BagRecord> := [];
    for idx := 0 to |kept|
      invariant |bags| == idx
      invariant forall i :: 0 <= i < idx ==> |kept[i].poly| > 0
      invariant forall i :: 0 <= i < idx ==> bags[i] == BagOf(kept[i], i + 1)
    {
      var corners := SortCorners(kept[idx].poly);
      if corners.None? {
        assert |kept[idx].poly| == 0;
        return Err(EmptyPolygon(idx));
      }
      var c := corners.value;
      var bag := BagRecord(idx + 1, Center(c), LongEdge(c));
      assert bag == BagOf(kept[idx], idx + 1);
      bags := bags + [bag];
      assert bags[idx] == bag;
    }
    return Ok(bags);
  }

  /** What one run of the script determines: the bag count, the directory it writes to, and the records. */
  datatype Report = Report(numBags: nat, outDir: Path, bags: seq<BagRecord>)

  /** `main` without the model calls, drawing and file output: suppression, then output directory, then metadata. */
  method Run(masks: Option<seq<RawDetection>>, iou: Iou, base: Path) returns (r: Result<Report, ProduceError>)
    ensures r.Ok? ==> r.value.numBags == |Greedy(Candidates(masks), iou)|
    ensures r.Ok? ==> r.value.outDir == OutputDirForCount(base, r.value.numBags)
    ensures r.Ok? ==> |r.value.bags| == r.value.numBags
    ensures r.Ok? ==> forall i :: 0 <= i < |r.value.bags| ==> r.value.bags[i].id == i + 1
    ensures r.Ok? ==> forall i :: 0 <= i < |r.value.bags| ==>
      |Greedy(Candidates(masks), iou)[i].poly| > 0 && r.value.bags[i] == BagOf(Greedy(Candidates(masks), iou)[i], i + 1)
    ensures r.Err? ==> var kept, k := Greedy(Candidates(masks), iou), r.error.index;
      k < |kept| && |kept[k].poly| == 0 && forall i :: 0 <= i < k ==> |kept[i].poly| > 0
    ensures masks.None? ==> r == Ok(Report(0, OutputDirForCount(base, 0), []))
    ensures r.Err? <==> exists k :: k in Greedy(Candidates(masks), iou) && |k.poly| == 0
  {
    var kept := SuppressOverlaps(masks, iou);
    var numBags := |kept|;
    var outDir := OutputDirForCount(base, numBags);
    var bags := BuildMetadata(kept);
    if bags.Err? {
      return Err(bags.error);
    }
    return Ok(Report(numBags, outDir, bags.value));
  }
}
