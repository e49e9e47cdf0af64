/**
 * The NudeNet verdict rule, written the same way in nudity-detector-nudenet.py, nudity-detector.py
 * and the GUI's NudeNet closures: a file is flagged when some detection names one of five classes
 * with a score strictly above 0.6; the classes reported are the detections of those five classes,
 * whatever their score.
 */
module Classification {
  import opened Seqs

  /** The score a detection must strictly exceed to flag a file (the DeepStack rule uses it too). */
  const Threshold: real := 0.6

  const NudityClasses: seq<string> := [
    "ANUS_EXPOSED",
    "FEMALE_BREAST_EXPOSED",
    "FEMALE_GENITALIA_EXPOSED",
    "MALE_GENITALIA_EXPOSED",
    "BUTTOCKS_EXPOSED"
  ]

  /** One record of the detector's output: `{'class': ..., 'score': ...}`. */
  datatype Detection = Detection(cls: string, score: real)

  /** What `detector.detect(path)` does: raise, or return its records in order. */
  datatype DetectResult = DetectError | Detected(detections: seq<Detection>)

  /** One entry of the NudeNet and legacy scripts' in-memory report. */
  datatype LabelEntry = LabelEntry(file: string, nudityDetected: bool, detectedClasses: seq<string>)

  /** A single detection that flags a file on its own. */
  predicate Flags(d: Detection) {
    d.cls in NudityClasses && d.score > Threshold
  }

  /** `any(result['class'] in nudity_classes and result['score'] > 0.6 for result in detection_result)`. */
  function Flagged(dets: seq<Detection>): (r: bool)
    ensures r <==> exists i :: 0 <= i < |dets| && Flags(dets[i])
  {
    if dets == [] then false else Flags(dets[0]) || Flagged(dets[1..])
  }

  /** `[result['class'] for result in detection_result if result['class'] in nudity_classes]`. */
  function Classifiers(dets: seq<Detection>): (r: seq<string>)
    ensures |r| <= |dets|
    ensures forall c :: c in r ==> c in NudityClasses
  {
    if dets == [] then []
    else (if dets[0].cls in NudityClasses then [dets[0].cls] else []) + Classifiers(dets[1..])
  }

  /** The detections as the (class, score) pairs the GUI serialises. */
  function AsRecords(dets: seq<Detection>): (r: seq<(string, real)>)
    ensures |r| == |dets|
    ensures forall i :: 0 <= i < |dets| ==> r[i] == (dets[i].cls, dets[i].score)
  {
    seq(|dets|, i requires 0 <= i < |dets| => (dets[i].cls, dets[i].score))
  }

  /** The class filter keeps detector order: filtering two runs of records one after the other is
      filtering each and concatenating. */
  lemma {:induction false} ClassifiersAppend(a: seq<Detection>, b: seq<Detection>)
    ensures Classifiers(a + b) == Classifiers(a) + Classifiers(b)
    decreases |a|
  {
    if a == [] {
      assert a + b == b;
    } else {
      ClassifiersAppend(a[1..], b);
      AppendDropFirst(a, b);
      AppendAssoc(if a[0].cls in NudityClasses then [a[0].cls] else [], Classifiers(a[1..]), Classifiers(b));
    }
  }

  /** A class is listed exactly when some detection carries it and it is one of the five, whatever
      the detection's score. */
  lemma {:induction false} ClassifiersMembers(dets: seq<Detection>, c: string)
    ensures c in Classifiers(dets) <==> c in NudityClasses && exists i :: 0 <= i < |dets| && dets[i].cls == c
    decreases |dets|
  {
    if dets != [] {
      ClassifiersMembers(dets[1..], c);
      if c in NudityClasses && dets[0].cls != c && (exists i :: 0 <= i < |dets| && dets[i].cls == c) {
        var i :| 0 <= i < |dets| && dets[i].cls == c;
        assert dets[1..][i - 1].cls == c;
      }
    }
  }

  /** Scores play no part in the class list: two outputs with the same classes in the same order
      report the same classes. */
  lemma {:induction false} ClassifiersIgnoreScores(a: seq<Detection>, b: seq<Detection>)
    requires |a| == |b|
    requires forall i :: 0 <= i < |a| ==> a[i].cls == b[i].cls
    ensures Classifiers(a) == Classifiers(b)
    decreases |a|
  {
    if a != [] {
      ClassifiersIgnoreScores(a[1..], b[1..]);
    }
  }

  /** A flagged output always reports the class that flagged it, so its class list is never empty. */
  lemma FlaggedHasClassifiers(dets: seq<Detection>, i: nat)
    requires i < |dets| && Flags(dets[i])
    ensures Flagged(dets)
    ensures dets[i].cls in Classifiers(dets)
  {
    ClassifiersMembers(dets, dets[i].cls);
  }

  /** A score of exactly 0.6, or any score on a class outside the five, never flags. */
  lemma ThresholdIsStrict(c: string, score: real)
    ensures !Flagged([Detection(c, Threshold)])
    ensures c !in NudityClasses ==> !Flagged([Detection(c, score)])
  {
  }

  /** The NudeNet and legacy scripts' globals as a value: the list `nudity_report` and the `exposed`
      directory. */
  datatype Progress = Progress(report: seq<LabelEntry>, exposed: map<string, string>)

  /** Appending at most one entry about a file of `s2` to a report that extends `r0` by entries about
      files of `s1`, a subset of `s2`, extends `r0` by entries about files of `s2`. */
  lemma ExtendsStep(r0: seq<LabelEntry>, r1: seq<LabelEntry>, r2: seq<LabelEntry>, s1: set<string>, s2: set<string>)
    requires |r0| <= |r1| && r1[..|r0|] == r0
    requires forall k :: |r0| <= k < |r1| ==> r1[k].file in s1
    requires |r1| <= |r2| <= |r1| + 1 && r2[..|r1|] == r1
    requires |r2| > |r1| ==> r2[|r1|].file in s2
    requires s1 <= s2
    ensures r2[..|r0|] == r0
    ensures forall k :: |r0| <= k < |r2| ==> r2[k].file in s2
  {
    assert r2[..|r0|] == r1[..|r0|];
    forall k | |r0| <= k < |r2| ensures r2[k].file in s2 {
      if k < |r1| {
        assert r2[k] == r1[k];
      }
    }
  }
}
