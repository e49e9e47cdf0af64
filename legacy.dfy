/**
 * nudity-detector.py: the original sequential NudeNet scanner. It walks the folder, picks the
 * classifier by the lower-cased file name's suffix (six image suffixes are tried before four video
 * suffixes), records every successfully classified file (with the in-set classes when flagged and
 * no classes otherwise, copying flagged files into `exposed`), and finally writes a plain-text report.
 *
 * The folder walk is the input `walk` (each directory with its file names, in `os.walk` order), the
 * detector is `detect`, the copy's outcome is `copyOk`, and the report's time stamp is `now`.
 */
module Legacy {
  import opened Strings
  import opened Paths
  import opened Seqs
  import opened Dispatch
  import opened Classification

  const ImageSuffixes: seq<string> := [".png", ".jpg", ".jpeg", ".gif", ".bmp", ".webp"]
  const VideoSuffixes: seq<string> := [".mp4", ".avi", ".mkv", ".mov"]

  /** The branch `classify_files_in_folder` takes for a file name. */
  function NameKind(name: string): (k: Kind)
    ensures k == Image <==> EndsWithAny(Lower(name), ImageSuffixes)
    ensures k == Video <==> !EndsWithAny(Lower(name), ImageSuffixes) && EndsWithAny(Lower(name), VideoSuffixes)
  {
    if EndsWithAny(Lower(name), ImageSuffixes) then Image
    else if EndsWithAny(Lower(name), VideoSuffixes) then Video
    else Unsupported
  }

  /** `classify_image` / `classify_video` of this script for one detector outcome: a flagged file is
      copied, then recorded with its in-set classes; a clean file is recorded with no classes. A
      detector error or a failed copy raises into the `except`, and nothing is recorded. */
  function Classified(p: Progress, path: string, result: DetectResult, copyOk: bool): Progress {
    match result
    case DetectError => p
    case Detected(dets) =>
      if Flagged(dets) then
        if copyOk then Progress(p.report + [LabelEntry(path, true, Classifiers(dets))],
                                              CopyToExposed(p.exposed, path))
        else p
      else p.(report := p.report + [LabelEntry(path, false, [])])
  }

  /** Every successfully classified file gets exactly one entry: flagged as the rule says, with the
      in-set classes when flagged and none otherwise; only a detector error or a failed copy of a
      flagged file records nothing. `exposed` changes only for a recorded flagged file. */
  lemma ClassifiedSpec(p: Progress, path: string, result: DetectResult, copyOk: bool)
    ensures result.DetectError? ==> Classified(p, path, result, copyOk) == p
    ensures result.Detected? ==>
      var q := Classified(p, path, result, copyOk);
      var flagged := Flagged(result.detections);
      if flagged && !copyOk then q == p
      else
        && q.report == p.report + [LabelEntry(path, flagged, if flagged then Classifiers(result.detections) else [])]
        && q.exposed == (if flagged then CopyToExposed(p.exposed, path) else p.exposed)
  {
  }

  /** One walked file: `file_path = os.path.join(root, file_name)`, then the suffix dispatch. */
  function Visited(p: Progress, root: string, name: string, detect: string -> DetectResult,
                   copyOk: string -> bool): Progress {
    var path := PathJoin(root, name);
    if NameKind(name) == Unsupported then p else Classified(p, path, detect(path), copyOk(path))
  }

  /** The (directory, file name) pairs of one directory, in order. */
  function InDir(root: string, names: seq<string>): (r: seq<(string, string)>)
    ensures |r| == |names|
    ensures forall k :: 0 <= k < |names| ==> r[k] == (root, names[k])
  {
    seq(|names|, k requires 0 <= k < |names| => (root, names[k]))
  }

  /** Every (directory, file name) pair of the walk, in the order the nested loops visit them. */
  function Flatten(walk: seq<(string, seq<string>)>): seq<(string, string)>
    decreases |walk|
  {
    if walk == [] then [] else Flatten(walk[..|walk| - 1]) + InDir(walk[|walk| - 1].0, walk[|walk| - 1].1)
  }

  /** The globals after visiting some walked files in order. */
  function Visits(p: Progress, files: seq<(string, string)>, detect: string -> DetectResult,
                  copyOk: string -> bool): Progress
    decreases |files|
  {
    if files == [] then p
    else
      var last := files[|files| - 1];
      Visited(Visits(p, files[..|files| - 1], detect, copyOk), last.0, last.1, detect, copyOk)
  }

  /** One more walked file keeps what earlier files recorded and adds at most one entry, about that file,
      and only when its name has a supported suffix. */
  lemma VisitedExtends(p: Progress, root: string, name: string, detect: string -> DetectResult,
                       copyOk: string -> bool)
    ensures var q := Visited(p, root, name, detect, copyOk);
      && |p.report| <= |q.report| <= |p.report| + 1
      && q.report[..|p.report|] == p.report
      && (|q.report| > |p.report| ==> q.report[|p.report|].file == PathJoin(root, name) && NameKind(name) != Unsupported)
  {
    var path := PathJoin(root, name);
    ClassifiedSpec(p, path, detect(path), copyOk(path));
  }

  /** Entries come out in traversal order: the entries of a walk are the entries of its first part,
      then those of the rest. */
  lemma {:induction false} VisitsAppend(p: Progress, a: seq<(string, string)>, b: seq<(string, string)>,
                                        detect: string -> DetectResult, copyOk: string -> bool)
    ensures Visits(p, a + b, detect, copyOk) == Visits(Visits(p, a, detect, copyOk), b, detect, copyOk)
    decreases |b|
  {
    if b == [] {
      assert a + b == a;
    } else {
      VisitsAppend(p, a, b[..|b| - 1], detect, copyOk);
      AppendTakeLast(a, b);
    }
  }

  /** The paths of the walked files whose names have a supported suffix. */
  function Walked(files: seq<(string, string)>): set<string> {
    set f | f in files && NameKind(f.1) != Unsupported :: PathJoin(f.0, f.1)
  }

  /** Walking one more file keeps every walked path and adds the new one when its name is supported. */
  lemma WalkedSnoc(front: seq<(string, string)>, last: (string, string))
    ensures Walked(front) <= Walked(front + [last])
    ensures NameKind(last.1) != Unsupported ==> PathJoin(last.0, last.1) in Walked(front + [last])
  {
    forall path | path in Walked(front) ensures path in Walked(front + [last]) {
      var f :| f in front && NameKind(f.1) != Unsupported && path == PathJoin(f.0, f.1);
      InSnoc(front, last, f);
    }
    InSnoc(front, last, last);
  }

  /** Every recorded entry is about a walked file with a supported suffix, the report only grows, and
      there is at most one entry per walked file. */
  lemma {:induction false} VisitsExtends(p: Progress, files: seq<(string, string)>, detect: string -> DetectResult,
                                         copyOk: string -> bool)
    ensures var q := Visits(p, files, detect, copyOk);
      && |p.report| <= |q.report| <= |p.report| + |files|
      && q.report[..|p.report|] == p.report
      && forall k :: |p.report| <= k < |q.report| ==> q.report[k].file in Walked(files)
    decreases |files|
  {
    if files != [] {
      var front, last := files[..|files| - 1], files[|files| - 1];
      VisitsExtends(p, front, detect, copyOk);
      var mid := Visits(p, front, detect, copyOk);
      VisitedExtends(mid, last.0, last.1, detect, copyOk);
      assert Visits(p, files, detect, copyOk) == Visited(mid, last.0, last.1, detect, copyOk);
      LastSplit(files);
      WalkedSnoc(front, last);
      ExtendsStep(p.report, mid.report, Visits(p, files, detect, copyOk).report,
                                Walked(front), Walked(files));
    }
  }

  /** `.tiff` is an image extension for the other scanners but not here: such a file is skipped. */
  lemma TiffSkippedHere()
    ensures Route("a.tiff") == Image
    ensures NameKind("a.tiff") == Unsupported
  {
    TiffRoute();
    TiffLower();
    TiffNoSuffix();
  }

  lemma TiffLower()
    ensures Lower("a.tiff") == "a.tiff"
  {
  }

  lemma TiffNoSuffix()
    ensures !EndsWithAny("a.tiff", ImageSuffixes) && !EndsWithAny("a.tiff", VideoSuffixes)
  {
    var l := "a.tiff";
    forall k | 0 <= k < |ImageSuffixes| ensures !EndsWith(l, ImageSuffixes[k]) {
      NotEndsWithAt(l, ImageSuffixes[k], if k == 3 then 3 else 1);
    }
    forall k | 0 <= k < |VideoSuffixes| ensures !EndsWith(l, VideoSuffixes[k]) {
      NotEndsWithAt(l, VideoSuffixes[k], 1);
    }
  }

  lemma TiffRoute()
    ensures Route("a.tiff") == Image
  {
    RFindBelowBefore("a.tiff", '/', 6, 0);
    assert "a.tiff"[0] != '.';
    ExtOfPlainTail("a.tiff", 5);
    assert Lower(".tiff") == ".tiff";
  }

  /** A hidden file named `.jpg` is an image here (its name ends with the suffix), while the other
      scanners see no extension at all and skip it. */
  lemma HiddenNameIsImageHere()
    ensures NameKind(".jpg") == Image
    ensures Route("d/.jpg") == Unsupported
  {
    HiddenLower();
    assert EndsWith(".jpg", ImageSuffixes[1]);
    HiddenRoute();
  }

  lemma HiddenLower()
    ensures Lower(".jpg") == ".jpg"
  {
  }

  lemma HiddenRoute()
    ensures Route("d/.jpg") == Unsupported
  {
    HiddenNameHasNoExt("d", ".jpg");
    assert "d" + "/" + ".jpg" == "d/.jpg";
    assert Lower([]) == [];
  }

  /** `True` / `False` as Python prints a bool. */
  function BoolText(b: bool): string {
    if b then "True" else "False"
  }

  /** A class name as it appears inside a printed list (`repr` of a plain name). */
  function Quoted(c: string): string {
    "'" + c + "'"
  }

  function QuotedAll(cs: seq<string>): (r: seq<string>)
    ensures |r| == |cs|
    ensures forall k :: 0 <= k < |cs| ==> r[k] == Quoted(cs[k])
  {
    seq(|cs|, k requires 0 <= k < |cs| => Quoted(cs[k]))
  }

  /** A list of class names as Python prints it: `['A', 'B']`, or `[]`. */
  function ListText(cs: seq<string>): string {
    "[" + Join(QuotedAll(cs), ", ") + "]"
  }

  const HeaderPrefix: string := "Nudity Detection Report - "

  /** The first line: the title and the time of writing. */
  function HeaderLine(now: string): string {
    HeaderPrefix + now + ":\n"
  }

  /** The line written for one entry. */
  function EntryLine(e: LabelEntry): string {
    "File: " + e.file + ", Nudity Detected: " + BoolText(e.nudityDetected) + ", Classes: " + ListText(e.detectedClasses) + "\n"
  }

  /** The whole text of the report file. */
  function ReportText(now: string, report: seq<LabelEntry>): string
    decreases |report|
  {
    if report == [] then HeaderLine(now) else ReportText(now, report[..|report| - 1]) + EntryLine(report[|report| - 1])
  }

  /** The report is its header line followed by the entries' lines in order: the text for a longer list
      extends the text for any prefix of it. */
  lemma {:induction false} ReportTextAppend(now: string, a: seq<LabelEntry>, b: seq<LabelEntry>)
    ensures |ReportText(now, a)| <= |ReportText(now, a + b)|
    ensures ReportText(now, a + b)[..|ReportText(now, a)|] == ReportText(now, a)
    decreases |b|
  {
    if b == [] {
      assert a + b == a;
    } else {
      var b' := b[..|b| - 1];
      ReportTextAppend(now, a, b');
      AppendTakeLast(a, b);
      var t, u, line := ReportText(now, a), ReportText(now, a + b'), EntryLine(b[|b| - 1]);
      assert ReportText(now, a + b) == u + line;
      PrefixAppend(t, u, line);
    }
  }

  /** No newline inside any part means none inside the joined text. */
  lemma {:induction false} JoinKeepsOneLine(parts: seq<string>, sep: string)
    requires '\n' !in sep && forall k :: 0 <= k < |parts| ==> '\n' !in parts[k]
    ensures '\n' !in Join(parts, sep)
    decreases |parts|
  {
    if |parts| > 1 {
      JoinKeepsOneLine(parts[1..], sep);
    }
  }

  /** A printed list of class names holds no newline when the names hold none. */
  lemma ListTextOneLine(cs: seq<string>)
    requires forall k :: 0 <= k < |cs| ==> '\n' !in cs[k]
    ensures '\n' !in ListText(cs)
  {
    var qs := QuotedAll(cs);
    forall k | 0 <= k < |qs| ensures '\n' !in qs[k] {
      assert qs[k] == "'" + cs[k] + "'";
    }
    JoinKeepsOneLine(qs, ", ");
  }

  /** Each entry takes exactly one line of the file when its path and class names hold no newline: the
      line ends with a newline and has none before it, and it starts with the file's path. */
  lemma EntryLineIsOneLine(e: LabelEntry)
    requires '\n' !in e.file && forall k :: 0 <= k < |e.detectedClasses| ==> '\n' !in e.detectedClasses[k]
    ensures var line := EntryLine(e);
      && line[|line| - 1] == '\n'
      && '\n' !in line[..|line| - 1]
      && line[..6 + |e.file|] == "File: " + e.file
  {
    var list := ListText(e.detectedClasses);
    ListTextOneLine(e.detectedClasses);
    LabelsOneLine(e.nudityDetected);
    var s1 := "File: " + e.file;
    var s2 := s1 + ", Nudity Detected: ";
    var s3 := s2 + BoolText(e.nudityDetected);
    var s4 := s3 + ", Classes: ";
    var s5 := s4 + list;
    assert EntryLine(e) == s5 + "\n";
    NotInAppend("File: ", e.file, '\n');
    NotInAppend(s1, ", Nudity Detected: ", '\n');
    NotInAppend(s2, BoolText(e.nudityDetected), '\n');
    NotInAppend(s3, ", Classes: ", '\n');
    NotInAppend(s4, list, '\n');
    AppendSplit(s5, "\n");
    AppendSplit(s1, ", Nudity Detected: ");
    PrefixAppend(s1, s2, BoolText(e.nudityDetected));
    PrefixAppend(s1, s3, ", Classes: ");
    PrefixAppend(s1, s4, list);
    PrefixAppend(s1, s5, "\n");
  }

  /** The fixed labels of an entry line hold no newline. */
  lemma LabelsOneLine(b: bool)
    ensures '\n' !in "File: " && '\n' !in ", Nudity Detected: " && '\n' !in ", Classes: "
    ensures '\n' !in BoolText(b)
  {
  }

  /** The script's globals as the source mutates them. */
  class LegacyRun {
    var report: seq<LabelEntry>
    var exposed: map<string, string>

    function State(): Progress
      reads this
    {
      Progress(report, exposed)
    }

    /** Start-up: `nudity_report = []`, and the `exposed` directory as found on disk. */
    constructor (archive: map<string, string>)
      ensures report == [] && exposed == archive
    {
      report := [];
      exposed := archive;
    }

    /** `classify_image(file_path, detector)` and `classify_video(file_path, detector)`, which have the
        same body. */
    method Classify(path: string, result: DetectResult, copyOk: bool)
      modifies this
      ensures State() == Classified(old(State()), path, result, copyOk)
    {
      if result.DetectError? {
        return;
      }
      var dets := result.detections;
      if Flagged(dets) {
        var classifiers := Classifiers(dets);
        if !copyOk {
          return;
        }
        exposed := CopyToExposed(exposed, path);
        report := report + [LabelEntry(path, true, classifiers)];
      } else {
        report := report + [LabelEntry(path, false, [])];
      }
    }

    /** The body of the inner loop of `classify_files_in_folder`, for one walked file. */
    method Visit(root: string, name: string, detect: string -> DetectResult, copyOk: string -> bool)
      modifies this
      ensures State() == Visited(old(State()), root, name, detect, copyOk)
    {
      var path := PathJoin(root, name);
      var lowered := Lower(name);
      if EndsWithAny(lowered, ImageSuffixes) {
        Classify(path, detect(path), copyOk(path));
      } else if EndsWithAny(lowered, VideoSuffixes) {
        Classify(path, detect(path), copyOk(path));
      }
    }

    /** One step of the nested loops: after the files in `done`, visit one more. */
    method VisitNext(ghost start: Progress, ghost done: seq<(string, string)>, root: string, name: string,
                     detect: string -> DetectResult, copyOk: string -> bool)
      requires State() == Visits(start, done, detect, copyOk)
      modifies this
      ensures State() == Visits(start, done + [(root, name)], detect, copyOk)
    {
      Visit(root, name, detect, copyOk);
      SnocTake(done, (root, name));
    }

    /** `classify_files_in_folder(folder_path)`: for each walked directory, for each of its files, in
        order, dispatch on the name's suffix. */
    method ClassifyFilesInFolder(walk: seq<(string, seq<string>)>, detect: string -> DetectResult,
                                 copyOk: string -> bool)
      modifies this
      ensures State() == Visits(old(State()), Flatten(walk), detect, copyOk)
    {
      ghost var start := State();
      var i := 0;
      while i < |walk|
        invariant i <= |walk|
        invariant State() == Visits(start, Flatten(walk[..i]), detect, copyOk)
      {
        var (root, files) := walk[i];
        ghost var before := Flatten(walk[..i]);
        var j := 0;
        assert before + InDir(root, files[..j]) == before;
        while j < |files|
          invariant j <= |files|
          invariant State() == Visits(start, before + InDir(root, files[..j]), detect, copyOk)
        {
          VisitNext(start, before + InDir(root, files[..j]), root, files[j], detect, copyOk);
          InDirSnoc(root, files, j);
          AppendAssoc(before, InDir(root, files[..j]), [(root, files[j])]);
          j := j + 1;
        }
        FlattenSnoc(walk, i);
        assert files[..j] == files;
        i := i + 1;
      }
      assert walk[..i] == walk;
    }

    /** The report writer of the main block: the header line, then one line per entry. */
    method WriteReport(now: string) returns (text: string)
      ensures text == ReportText(now, report)
    {
      text := HeaderLine(now);
      var k := 0;
      while k < |report|
        invariant k <= |report|
        invariant text == ReportText(now, report[..k])
      {
        TakeSnoc(report, k);
        text := text + EntryLine(report[k]);
        k := k + 1;
      }
      assert report[..k] == report;
    }
  }

  lemma InDirSnoc(root: string, names: seq<string>, j: nat)
    requires j < |names|
    ensures InDir(root, names[..j + 1]) == InDir(root, names[..j]) + [(root, names[j])]
  {
  }

  lemma FlattenSnoc(walk: seq<(string, seq<string>)>, i: nat)
    requires i < |walk|
    ensures Flatten(walk[..i + 1]) == Flatten(walk[..i]) + InDir(walk[i].0, walk[i].1)
  {
    TakeSnoc(walk, i);
    assert walk[..i + 1][..i] == walk[..i];
  }

  /** The script's main block: walk the folder, then write the report. The text is the header followed
      by one line per recorded entry, in traversal order. */
  method RunScript(walk: seq<(string, seq<string>)>, detect: string -> DetectResult, copyOk: string -> bool,
              now: string, archive: map<string, string>) returns (run: LegacyRun, text: string)
    ensures run.State() == Visits(Progress([], archive), Flatten(walk), detect, copyOk)
    ensures text == ReportText(now, run.report)
  {
    run := new LegacyRun(archive);
    run.ClassifyFilesInFolder(walk, detect, copyOk);
    text := run.WriteReport(now);
  }
}
