/**
 * nudity-detector-nudenet.py: the stand-alone NudeNet scanner. Every supported file is run through
 * the detector; a flagged file is copied into `exposed` and recorded as `True`, a clean file is
 * recorded as `False` only while DEBUG logging is enabled, and a detector error records nothing.
 * At the end the whole list is written to a fresh three-column workbook that replaces any earlier
 * report file.
 *
 * The detector is the input `detect` (its output for a path, or an error), the copy's outcome is the
 * input `copyOk`, and the DEBUG switch is the field `debug` (the script configures DEBUG at start-up,
 * so it is on in the script as shipped).
 */
module NudeNetScript {
  import opened Wrappers
  import opened Strings
  import opened Paths
  import opened Seqs
  import opened Dispatch
  import opened Classification
  import opened Report

  /** `classify_image` / `classify_video` for one detector outcome. A flagged file is copied first and
      then appended as `True`; a failed copy raises into the `except`, so nothing is appended. */
  function Classified(p: Progress, path: string, result: DetectResult, copyOk: bool, debug: bool): Progress {
    match result
    case DetectError => p
    case Detected(dets) =>
      var classifiers := Classifiers(dets);
      if Flagged(dets) then
        if copyOk then Progress(p.report + [LabelEntry(path, true, classifiers)], CopyToExposed(p.exposed, path))
        else p
      else if debug then p.(report := p.report + [LabelEntry(path, false, classifiers)])
      else p
  }

  /** The entries one classification appends and the copy it makes: at most one entry, about `path`,
      carrying the in-set classes in detector order; flagged exactly when the rule flags; `exposed`
      gains `basename(path) -> path` exactly when a `True` entry is appended, and is unchanged otherwise. */
  lemma ClassifiedSpec(p: Progress, path: string, result: DetectResult, copyOk: bool, debug: bool)
    ensures var q := Classified(p, path, result, copyOk, debug);
      && |p.report| <= |q.report| <= |p.report| + 1
      && q.report[..|p.report|] == p.report
      && (|q.report| > |p.report| ==>
            var e := q.report[|p.report|];
            && result.Detected?
            && e.file == path
            && e.detectedClasses == Classifiers(result.detections)
            && (e.nudityDetected <==> Flagged(result.detections)))
      && q.exposed == (if |q.report| > |p.report| && q.report[|p.report|].nudityDetected
                       then CopyToExposed(p.exposed, path) else p.exposed)
  {
  }

  /** When an entry is appended: always for a flagged file whose copy works, for a clean file iff DEBUG
      is on, never after a detector error. */
  lemma ClassifiedAppendsWhen(p: Progress, path: string, result: DetectResult, copyOk: bool, debug: bool)
    ensures |Classified(p, path, result, copyOk, debug).report| == |p.report| + 1 <==>
      result.Detected? && (if Flagged(result.detections) then copyOk else debug)
  {
  }

  /** With DEBUG off, a clean file leaves no trace: the report and `exposed` are unchanged. */
  lemma CleanFileUnrecordedWithoutDebug(p: Progress, path: string, dets: seq<Detection>, copyOk: bool)
    requires !Flagged(dets)
    ensures Classified(p, path, Detected(dets), copyOk, false) == p
  {
  }

  /** `process_file(file_path, detector)`: the same extension dispatch as the shared `process_file`. */
  function Processed(p: Progress, path: string, detect: string -> DetectResult, copyOk: string -> bool,
                     debug: bool): Progress {
    if Route(path) == Unsupported then p else Classified(p, path, detect(path), copyOk(path), debug)
  }

  /** The globals after draining a queue holding `queue`, front first. */
  function Drained(p: Progress, queue: seq<string>, detect: string -> DetectResult, copyOk: string -> bool,
                   debug: bool): Progress
    decreases |queue|
  {
    if queue == [] then p
    else Processed(Drained(p, queue[..|queue| - 1], detect, copyOk, debug), queue[|queue| - 1], detect, copyOk, debug)
  }

  /** One more path keeps what earlier paths recorded and may add one entry, about that path. */
  lemma ProcessedExtends(p: Progress, path: string, detect: string -> DetectResult, copyOk: string -> bool,
                         debug: bool)
    ensures var q := Processed(p, path, detect, copyOk, debug);
      && |p.report| <= |q.report| <= |p.report| + 1
      && q.report[..|p.report|] == p.report
      && (|q.report| > |p.report| ==> q.report[|p.report|].file == path && Route(path) != Unsupported)
  {
    ClassifiedSpec(p, path, detect(path), copyOk(path), debug);
  }

  /** The queued paths with a supported extension. */
  function Supported(queue: seq<string>): set<string> {
    set path | path in queue && Route(path) != Unsupported
  }

  /** Queuing one more path keeps every supported path and adds the new one when it is supported. */
  lemma SupportedSnoc(front: seq<string>, last: string)
    ensures Supported(front) <= Supported(front + [last])
    ensures Route(last) != Unsupported ==> last in Supported(front + [last])
  {
    forall path | path in Supported(front) ensures path in Supported(front + [last]) {
      InSnoc(front, last, path);
    }
    InSnoc(front, last, last);
  }

  /** Draining a queue only appends to the report, at most one entry per queued path, and every
      appended entry is about a queued path with a supported extension. */
  lemma {:induction false} DrainedExtends(p: Progress, queue: seq<string>, detect: string -> DetectResult,
                                          copyOk: string -> bool, debug: bool)
    ensures var q := Drained(p, queue, detect, copyOk, debug);
      && |p.report| <= |q.report| <= |p.report| + |queue|
      && q.report[..|p.report|] == p.report
      && forall k :: |p.report| <= k < |q.report| ==> q.report[k].file in Supported(queue)
    decreases |queue|
  {
    if queue != [] {
      var front, last := queue[..|queue| - 1], queue[|queue| - 1];
      DrainedExtends(p, front, detect, copyOk, debug);
      var mid := Drained(p, front, detect, copyOk, debug);
      ProcessedExtends(mid, last, detect, copyOk, debug);
      assert Drained(p, queue, detect, copyOk, debug) == Processed(mid, last, detect, copyOk, debug);
      LastSplit(queue);
      SupportedSnoc(front, last);
      ExtendsStep(p.report, mid.report, Drained(p, queue, detect, copyOk, debug).report,
                  Supported(front), Supported(queue));
    }
  }

  /** Two drains one after the other act as one drain of the concatenated queue. */
  lemma {:induction false} DrainedAppend(p: Progress, a: seq<string>, b: seq<string>,
                                         detect: string -> DetectResult, copyOk: string -> bool, debug: bool)
    ensures Drained(p, a + b, detect, copyOk, debug) == Drained(Drained(p, a, detect, copyOk, debug), b, detect, copyOk, debug)
    decreases |b|
  {
    if b == [] {
      assert a + b == a;
    } else {
      DrainedAppend(p, a, b[..|b| - 1], detect, copyOk, debug);
      AppendTakeLast(a, b);
    }
  }

  /** The script as shipped (DEBUG on): a queued supported file whose detection succeeds, and whose copy
      works if it is flagged, gets exactly one entry, flagged as the rule says. */
  lemma DebugRecordsEverySuccess(p: Progress, path: string, detect: string -> DetectResult, copyOk: string -> bool)
    requires Route(path) != Unsupported && detect(path).Detected?
    requires Flagged(detect(path).detections) ==> copyOk(path)
    ensures Processed(p, path, detect, copyOk, true).report
         == p.report + [LabelEntry(path, Flagged(detect(path).detections), Classifiers(detect(path).detections))]
  {
  }

  /** The header of this script's report. */
  const Header3: Row := [Str("File"), Str("Nudity Detected"), Str("Detected Classes")]

  /** The row this script writes for an entry: the classes joined with `", "`. */
  function LabelRow(e: LabelEntry): Row {
    [Str(e.file), Bool(e.nudityDetected), Str(Join(e.detectedClasses, ", "))]
  }

  function LabelRows(es: seq<LabelEntry>): (rows: seq<Row>)
    ensures |rows| == |es|
    ensures forall i :: 0 <= i < |es| ==> rows[i] == LabelRow(es[i])
  {
    seq(|es|, i requires 0 <= i < |es| => LabelRow(es[i]))
  }

  /** The report file after this script's `save_nudity_report(report_data, file_path)`: untouched for
      empty data, otherwise a new workbook replacing whatever the file held. */
  function Written(file: Option<Sheet>, data: seq<LabelEntry>): Option<Sheet> {
    if data == [] then file else Some([Header3] + LabelRows(data))
  }

  /** The `file` cells of some entries. */
  function LabelFiles(es: seq<LabelEntry>): set<Cell> {
    set i | 0 <= i < |es| :: Str(es[i].file)
  }

  /** Unlike the shared store's save, this one forgets earlier rows: after a non-empty save the data rows
      are exactly the new entries' rows, and reading the file back yields exactly their file names. */
  lemma WrittenReplaces(file: Option<Sheet>, data: seq<LabelEntry>)
    requires data != []
    ensures Written(file, data).Some? && Written(file, data).value[0] == Header3
    ensures DataRows(Written(file, data)) == LabelRows(data)
    ensures Loaded(Written(file, data)) == LabelFiles(data)
  {
    var rows := LabelRows(data);
    assert ([Header3] + rows)[1..] == rows;
    forall c | c in LabelFiles(data) ensures c in FirstCells(rows) {
      var i :| 0 <= i < |data| && Str(data[i].file) == c;
      assert FirstCell(rows[i]) == c;
    }
  }

  /** Empty data writes nothing, whatever the file held. */
  lemma WrittenEmptyKeepsFile(file: Option<Sheet>)
    ensures Written(file, []) == file
  {
  }

  /** One class is written as itself, none as an empty cell text. */
  lemma LabelRowClasses(e: LabelEntry)
    ensures e.detectedClasses == [] ==> LabelRow(e)[2] == Str("")
    ensures |e.detectedClasses| == 1 ==> LabelRow(e)[2] == Str(e.detectedClasses[0])
  {
  }

  /** The script's mutable state: the globals, the report file, and the logging switch. */
  class NudeNetRun {
    var report: seq<LabelEntry>
    var exposed: map<string, string>
    var reportFile: Option<Sheet>
    const debug: bool

    function State(): Progress
      reads this
    {
      Progress(report, exposed)
    }

    /** Start-up: an empty list, and the `exposed` directory and the report file as found on disk. */
    constructor (onDisk: Option<Sheet>, debugEnabled: bool, archive: map<string, string>)
      ensures report == [] && exposed == archive && reportFile == onDisk && debug == debugEnabled
    {
      report := [];
      exposed := archive;
      reportFile := onDisk;
      debug := debugEnabled;
    }

    /** `classify_image(file_path, detector)` and `classify_video(file_path, detector)`, which differ only
        in whether the verdict is computed inside the lock. */
    method Classify(path: string, result: DetectResult, copyOk: bool)
      modifies this
      ensures State() == Classified(old(State()), path, result, copyOk, debug)
      ensures reportFile == old(reportFile)
    {
      if result.DetectError? {
        return;
      }
      var dets := result.detections;
      var classifiers := Classifiers(dets);
      var nudityDetected := Flagged(dets);
      if nudityDetected {
        if !copyOk {
          return;
        }
        exposed := CopyToExposed(exposed, path);
        report := report + [LabelEntry(path, true, classifiers)];
      } else if debug {
        report := report + [LabelEntry(path, false, classifiers)];
      }
    }

    /** `process_file(file_path, detector)`. */
    method ProcessFile(path: string, detect: string -> DetectResult, copyOk: string -> bool)
      modifies this
      ensures State() == Processed(old(State()), path, detect, copyOk, debug)
      ensures reportFile == old(reportFile)
    {
      match Route(path)
      case Image => Classify(path, detect(path), copyOk(path));
      case Video => Classify(path, detect(path), copyOk(path));
      case Unsupported =>
    }

    /** One iteration of the queue drain: after the first `n` queued paths, the next one is processed. */
    method DrainOne(ghost start: Progress, queue: seq<string>, n: nat, detect: string -> DetectResult,
                    copyOk: string -> bool)
      requires n < |queue|
      requires State() == Drained(start, queue[..n], detect, copyOk, debug)
      modifies this
      ensures State() == Drained(start, queue[..n + 1], detect, copyOk, debug)
      ensures reportFile == old(reportFile)
    {
      ProcessFile(queue[n], detect, copyOk);
      TakeSnoc(queue, n);
    }

    /** `process_file_queue(file_queue, detector)`: take paths from the front until the queue is empty. */
    method ProcessFileQueue(queue: seq<string>, detect: string -> DetectResult, copyOk: string -> bool)
      modifies this
      ensures State() == Drained(old(State()), queue, detect, copyOk, debug)
      ensures reportFile == old(reportFile)
    {
      ghost var start := State();
      var n := 0;
      while n < |queue|
        invariant n <= |queue|
        invariant State() == Drained(start, queue[..n], detect, copyOk, debug)
        invariant reportFile == old(reportFile)
      {
        DrainOne(start, queue, n, detect, copyOk);
        n := n + 1;
      }
      assert queue[..n] == queue;
    }

    /** This script's `save_nudity_report(report_data, file_path)`: nothing for empty data; otherwise a
        new workbook with the header row and one row per entry, saved over the file. */
    method SaveReport(data: seq<LabelEntry>)
      modifies this
      ensures reportFile == Written(old(reportFile), data)
      ensures State() == old(State())
    {
      if data == [] {
        return;
      }
      var rows: Sheet := [Header3];
      var i := 0;
      while i < |data|
        invariant 0 <= i <= |data|
        invariant rows == [Header3] + LabelRows(data[..i])
      {
        assert LabelRows(data[..i + 1]) == LabelRows(data[..i]) + [LabelRow(data[i])];
        rows := rows + [LabelRow(data[i])];
        i := i + 1;
      }
      assert data[..i] == data;
      reportFile := Some(rows);
    }

    /** The script from start to end: drain the enumerated files, then save the list. The file ends with
        exactly this run's entries, in processing order. */
    method Run(queue: seq<string>, detect: string -> DetectResult, copyOk: string -> bool)
      requires report == []
      modifies this
      ensures State() == Drained(old(State()), queue, detect, copyOk, debug)
      ensures reportFile == Written(old(reportFile), report)
    {
      ProcessFileQueue(queue, detect, copyOk);
      SaveReport(report);
    }
  }
}
