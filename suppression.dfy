/**
 * Non-maximum suppression in `produce.py`: detections are sorted by confidence,
 * highest first and stable on ties, and then kept greedily unless an already
 * kept detection of the same class overlaps them with IoU above 0.5.
 * The IoU of two polygons is a function parameter.
 */
module Suppression {
  import opened Geometry

  datatype Detection = Detection(poly: Polygon, conf: real, cls: int)

  /** `IOU_THRESH` */
  const IouThreshold: real := 0.5

  /** The overlap measure `mask_iou(poly1, poly2, img.shape)` for the image at hand. */
  type Iou = (Polygon, Polygon) -> real

  /** The kept detection `k` rules out the candidate `det`: same class and `mask_iou(det, k) > 0.5`. */
  predicate Suppresses(k: Detection, det: Detection, iou: Iou)
  {
    det.cls == k.cls && iou(det.poly, k.poly) > IouThreshold
  }

  /** The `all(...)` test: no detection in `kept` rules out `det`. */
  predicate Survives(det: Detection, kept: seq<Detection>, iou: Iou)
  {
    forall j :: 0 <= j < |kept| ==> !Suppresses(kept[j], det, iou)
  }

  lemma SurvivesAppend(det: Detection, kept: seq<Detection>, k: Detection, iou: Iou)
    ensures Survives(det, kept + [k], iou) <==> Survives(det, kept, iou) && !Suppresses(k, det, iou)
  {
    if Survives(det, kept, iou) && !Suppresses(k, det, iou) {
      forall j | 0 <= j < |kept + [k]| ensures !Suppresses((kept + [k])[j], det, iou) {
        if j < |kept| {
          assert (kept + [k])[j] == kept[j];
        }
      }
    }
    if Survives(det, kept + [k], iou) {
      assert (kept + [k])[|kept|] == k;
      forall j | 0 <= j < |kept| ensures !Suppresses(kept[j], det, iou) {
        assert (kept + [k])[j] == kept[j];
      }
    }
  }

  // ---------------------------------------------------------------------------
  // detections.sort(key=conf, reverse=True)
  // ---------------------------------------------------------------------------

  predicate ConfidenceOrdered(s: seq<Detection>)
  {
    forall i, j :: 0 <= i < j < |s| ==> s[i].conf >= s[j].conf
  }

  /** A detection of at least every confidence in an ordered sequence can go in front of it. */
  lemma ConsOrdered(x: Detection, s: seq<Detection>)
    requires ConfidenceOrdered(s)
    requires forall y :: y in multiset(s) ==> x.conf >= y.conf
    ensures ConfidenceOrdered([x] + s)
  {
    forall i, j | 0 <= i < j < |[x] + s| ensures ([x] + s)[i].conf >= ([x] + s)[j].conf {
      assert ([x] + s)[j] == s[j - 1] && s[j - 1] in multiset(s);
    }
  }

  /** Inserts `d` after every element of at least its confidence. */
  function InsertByConfidence(t: seq<Detection>, d: Detection): (r: seq<Detection>)
    requires ConfidenceOrdered(t)
    ensures ConfidenceOrdered(r)
    ensures multiset(r) == multiset(t) + multiset{d}
  {
    if t == [] then [d]
    else if t[0].conf < d.conf then
      ConsOrdered(d, t);
      [d] + t
    else
      var rest := InsertByConfidence(t[1..], d);
      assert t == [t[0]] + t[1..];
      forall y | y in multiset(rest) ensures t[0].conf >= y.conf {
        if y != d {
          var j :| 0 <= j < |t[1..]| && t[1..][j] == y;
          assert t[j + 1] == y;
        }
      }
      ConsOrdered(t[0], rest);
      [t[0]] + rest
  }

  /** Python's stable sort with `reverse=True` on the confidence key. */
  function SortByConfidence(s: seq<Detection>): (r: seq<Detection>)
    ensures ConfidenceOrdered(r)
    ensures multiset(r) == multiset(s)
  {
    if s == [] then []
    else
      assert s == s[..|s| - 1] + [s[|s| - 1]];
      InsertByConfidence(SortByConfidence(s[..|s| - 1]), s[|s| - 1])
  }

  /** The detections of confidence `c`, in order. */
  function WithConfidence(s: seq<Detection>, c: real): seq<Detection>
  {
    if s == [] then [] else (if s[0].conf == c then [s[0]] else []) + WithConfidence(s[1..], c)
  }

  lemma {:induction false} WithConfidenceAppend(a: seq<Detection>, b: seq<Detection>, c: real)
    ensures WithConfidence(a + b, c) == WithConfidence(a, c) + WithConfidence(b, c)
  {
    if a != [] {
      assert (a + b)[1..] == a[1..] + b;
      WithConfidenceAppend(a[1..], b, c);
    } else {
      assert a + b == b;
    }
  }

  lemma {:induction false} WithConfidenceNone(s: seq<Detection>, c: real)
    requires forall i :: 0 <= i < |s| ==> s[i].conf < c
    ensures WithConfidence(s, c) == []
  {
    if s != [] {
      WithConfidenceNone(s[1..], c);
    }
  }

  lemma {:induction false} InsertStable(t: seq<Detection>, d: Detection, c: real)
    requires ConfidenceOrdered(t)
    ensures WithConfidence(InsertByConfidence(t, d), c) == WithConfidence(t, c) + WithConfidence([d], c)
  {
    assert WithConfidence([d], c) == if d.conf == c then [d] else [];
    if t == [] {
    } else if t[0].conf < d.conf {
      assert ([d] + t)[1..] == t;
      if d.conf == c {
        WithConfidenceNone(t, c);
      }
    } else {
      var r := InsertByConfidence(t, d);
      assert r[1..] == InsertByConfidence(t[1..], d);
      InsertStable(t[1..], d, c);
    }
  }

  /** Stability: for every confidence value, the detections carrying it keep their relative order. */
  lemma {:induction false} SortStable(s: seq<Detection>, c: real)
    ensures WithConfidence(SortByConfidence(s), c) == WithConfidence(s, c)
  {
    if s != [] {
      var init, last := s[..|s| - 1], s[|s| - 1];
      SortStable(init, c);
      InsertStable(SortByConfidence(init), last, c);
      assert s == init + [last];
      WithConfidenceAppend(init, [last], c);
    }
  }

  // ---------------------------------------------------------------------------
  // The greedy pass: for det in detections: if all(...): kept.append(det)
  // ---------------------------------------------------------------------------

  /** The list `kept` holds after the loop has visited `ds`, in order. */
  function Greedy(ds: seq<Detection>, iou: Iou): seq<Detection>
  {
    if ds == [] then []
    else
      var kept := Greedy(ds[..|ds| - 1], iou);
      var d := ds[|ds| - 1];
      if Survives(d, kept, iou) then kept + [d] else kept
  }

  /** `s` is `t` with some elements left out, the rest in the same order. */
  predicate IsSubsequence(s: seq<Detection>, t: seq<Detection>)
    decreases |t|
  {
    if s == [] then true
    else if t == [] then false
    else
      || (s[|s| - 1] == t[|t| - 1] && IsSubsequence(s[..|s| - 1], t[..|t| - 1]))
      || IsSubsequence(s, t[..|t| - 1])
  }

  lemma {:induction false} GreedySubsequence(ds: seq<Detection>, iou: Iou)
    ensures IsSubsequence(Greedy(ds, iou), ds)
  {
    if ds != [] {
      var init, d := ds[..|ds| - 1], ds[|ds| - 1];
      GreedySubsequence(init, iou);
      var g := Greedy(init, iou);
      if Survives(d, g, iou) {
        assert (g + [d])[..|g|] == g;
        assert (g + [d])[|g|] == d;
      } else if g != [] {
        assert IsSubsequence(g, init);
      }
    }
  }

  lemma {:induction false} GreedyMembers(ds: seq<Detection>, iou: Iou)
    ensures |Greedy(ds, iou)| <= |ds|
    ensures forall k :: k in Greedy(ds, iou) ==> k in ds
  {
    if ds != [] {
      var init, d := ds[..|ds| - 1], ds[|ds| - 1];
      GreedyMembers(init, iou);
      assert forall k :: k in init ==> k in ds;
    }
  }

  /** Every earlier state of `kept` is a prefix of the final one. */
  lemma {:induction false} GreedyPrefix(ds: seq<Detection>, i: nat, iou: Iou)
    requires i <= |ds|
    ensures Greedy(ds[..i], iou) <= Greedy(ds, iou)
    decreases |ds|
  {
    if i < |ds| {
      var init := ds[..|ds| - 1];
      GreedyPrefix(init, i, iou);
      assert init[..i] == ds[..i];
    } else {
      assert ds[..i] == ds;
    }
  }

  /** One step of the loop: `kept` grows by `ds[i]` exactly when it survives. */
  lemma GreedyStep(ds: seq<Detection>, i: nat, iou: Iou)
    requires i < |ds|
    ensures Greedy(ds[..i + 1], iou)
         == if Survives(ds[i], Greedy(ds[..i], iou), iou) then Greedy(ds[..i], iou) + [ds[i]] else Greedy(ds[..i], iou)
  {
    assert ds[..i + 1][..i] == ds[..i];
  }

  /** The first (highest-confidence) detection is always kept. */
  lemma GreedyKeepsFirst(ds: seq<Detection>, iou: Iou)
    requires |ds| > 0
    ensures |Greedy(ds, iou)| > 0 && Greedy(ds, iou)[0] == ds[0]
  {
    GreedyStep(ds, 0, iou);
    assert ds[..0] == [];
    GreedyPrefix(ds, 1, iou);
  }

  /** No detection in `kept` is ruled out by one before it. */
  predicate Separated(kept: seq<Detection>, iou: Iou)
  {
    forall i, j :: 0 <= i < j < |kept| ==> !Suppresses(kept[i], kept[j], iou)
  }

  /** No kept detection is ruled out by one kept before it: same-class kept pairs overlap at most 0.5. */
  lemma {:induction false} GreedyNoOverlap(ds: seq<Detection>, iou: Iou)
    ensures Separated(Greedy(ds, iou), iou)
  {
    if ds != [] {
      var init, d := ds[..|ds| - 1], ds[|ds| - 1];
      GreedyNoOverlap(init, iou);
      var g := Greedy(init, iou);
      if Survives(d, g, iou) {
        var kept := g + [d];
        assert Greedy(ds, iou) == kept;
        forall i, j | 0 <= i < j < |kept| ensures !Suppresses(kept[i], kept[j], iou) {
          if j == |g| {
            assert kept[i] == g[i] && kept[j] == d;
            assert !Suppresses(g[i], d, iou);
          } else {
            assert kept[i] == g[i] && kept[j] == g[j];
          }
        }
      }
    }
  }

  /**
   * Each detection is either appended to `kept` when the loop reaches it, or dropped
   * because a detection before it, which is kept, rules it out.
   */
  lemma GreedyDecision(ds: seq<Detection>, i: nat, iou: Iou)
    requires i < |ds|
    ensures Survives(ds[i], Greedy(ds[..i], iou), iou) ==> Greedy(ds[..i], iou) + [ds[i]] <= Greedy(ds, iou)
    ensures !Survives(ds[i], Greedy(ds[..i], iou), iou) ==>
      exists j :: 0 <= j < i && ds[j] in Greedy(ds, iou) && Suppresses(ds[j], ds[i], iou)
  {
    GreedyStep(ds, i, iou);
    GreedyPrefix(ds, i + 1, iou);
    var g := Greedy(ds[..i], iou);
    if !Survives(ds[i], g, iou) {
      var m :| 0 <= m < |g| && Suppresses(g[m], ds[i], iou);
      GreedyMembers(ds[..i], iou);
      assert g[m] in ds[..i];
      var j :| 0 <= j < i && ds[j] == g[m];
      assert g[m] in Greedy(ds, iou);
    }
  }

  /** The detections of class `c`, in order. */
  function WithClass(s: seq<Detection>, c: int): seq<Detection>
  {
    if s == [] then []
    else WithClass(s[..|s| - 1], c) + (if s[|s| - 1].cls == c then [s[|s| - 1]] else [])
  }

  /** Only kept detections of the candidate's own class matter to the `all(...)` test. */
  lemma {:induction false} SurvivesWithinClass(det: Detection, kept: seq<Detection>, iou: Iou)
    ensures Survives(det, kept, iou) <==> Survives(det, WithClass(kept, det.cls), iou)
  {
    if kept != [] {
      var init, last := kept[..|kept| - 1], kept[|kept| - 1];
      SurvivesWithinClass(det, init, iou);
      assert kept == init + [last];
      SurvivesAppend(det, init, last, iou);
      var w := WithClass(init, det.cls);
      if last.cls == det.cls {
        assert WithClass(kept, det.cls) == w + [last];
        SurvivesAppend(det, w, last, iou);
      } else {
        assert WithClass(kept, det.cls) == w;
      }
    }
  }

  /** Classes are suppressed independently: the kept detections of a class are those the greedy pass keeps from that class alone. */
  lemma {:induction false} GreedyPerClass(ds: seq<Detection>, c: int, iou: Iou)
    ensures WithClass(Greedy(ds, iou), c) == Greedy(WithClass(ds, c), iou)
  {
    if ds != [] {
      var init, d := ds[..|ds| - 1], ds[|ds| - 1];
      GreedyPerClass(init, c, iou);
      var g := Greedy(init, iou);
      var wc := WithClass(init, c);
      SurvivesWithinClass(d, g, iou);
      if d.cls == c {
        assert WithClass(ds, c) == wc + [d];
        assert (wc + [d])[..|wc|] == wc;
        if Survives(d, g, iou) {
          assert (g + [d])[..|g|] == g;
        }
      } else {
        assert WithClass(ds, c) == wc;
        if Survives(d, g, iou) {
          assert (g + [d])[..|g|] == g;
        }
      }
    }
  }
}
