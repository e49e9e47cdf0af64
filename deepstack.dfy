/**
 * nudity-detector-deepstack.py: each supported file is posted to a DeepStack server and the reply's
 * `nudity.unsafe` score decides. Files already in the report when the script starts are skipped
 * without a request; a failed request or a status other than 200 records nothing for the file.
 */
module DeepStack {
  import opened Wrappers
  import opened Dispatch
  import opened Classification
  import opened Report
  import opened Seqs
  import opened Strings

  /** What posting a file produces: an exception (opening the file, the request itself, or a body that
      is not JSON), or a status code with the body's `nudity.unsafe` score, `None` when a key is missing. */
  datatype Reply = Raised | Reply(status: int, unsafe: Option<real>)

  /** `result.get("nudity", {}).get("unsafe", 0)`. */
  function UnsafeScore(unsafe: Option<real>): real {
    unsafe.GetOr(0.0)
  }

  /** What the script does with one file. */
  datatype Verdict = Skipped | Dropped | Recorded(nudityDetected: bool, classes: seq<string>)

  /** The decision of `classify_image` / `classify_video` for a path and the reply it would get. */
  function Decide(existing: set<Cell>, path: string, reply: Reply): Verdict {
    if Str(path) in existing then Skipped
    else if reply.Raised? || reply.status != 200 then Dropped
    else
      var nudityDetected := UnsafeScore(reply.unsafe) > Threshold;
      Recorded(nudityDetected, if nudityDetected then ["unsafe"] else [])
  }

  /** A path in the resume set is skipped before any request: the verdict does not depend on the reply. */
  lemma SkipIgnoresReply(existing: set<Cell>, path: string, r1: Reply, r2: Reply)
    requires Str(path) in existing
    ensures Decide(existing, path, r1) == Decide(existing, path, r2) == Skipped
  {
  }

  /** A new path is recorded exactly when the request succeeds with status 200; then it is flagged iff
      the unsafe score is above 0.6, and the classes are `["unsafe"]` when flagged and empty otherwise. */
  lemma DecideRecorded(existing: set<Cell>, path: string, reply: Reply)
    requires Str(path) !in existing
    ensures Decide(existing, path, reply).Recorded? <==> reply.Reply? && reply.status == 200
    ensures Decide(existing, path, reply).Recorded? ==>
      var v := Decide(existing, path, reply);
      && (v.nudityDetected <==> UnsafeScore(reply.unsafe) > Threshold)
      && (v.classes != [] <==> v.nudityDetected)
      && v.classes <= ["unsafe"]
  {
  }

  /** A reply without an `unsafe` score reads as 0 and is recorded as not flagged. */
  lemma MissingScoreIsClean(existing: set<Cell>, path: string)
    requires Str(path) !in existing
    ensures Decide(existing, path, Reply(200, None)) == Recorded(false, [])
  {
  }

  /** How the labels reach `handle_results`. As written, the list `classifiers` itself, which no worksheet
      cell can hold; corrected, the labels joined into one string, as the NudeNet script writes them. */
  datatype Labelling = AsList | Joined

  /** The `detected_classes` value handed over for a list of labels. */
  function LabelsOf(classes: seq<string>, how: Labelling): (c: Classes)
    ensures c.Names? <==> how == AsList
    ensures how == Joined && classes == [] ==> c == Text("")
    ensures how == Joined && |classes| == 1 ==> c == Text(classes[0])
  {
    if how == AsList then Names(classes) else Text(Join(classes, ", "))
  }

  /** The `handle_results` call, if any, that classifying one file makes. The multipart field name
      (`image` or `video`) is the file's kind. */
  function FileAttempts(existing: set<Cell>, path: string, field: Kind, post: (Kind, string) -> Reply,
                        now: string, copyOk: bool, how: Labelling): (r: seq<Attempt>)
    ensures |r| <= 1
  {
    match Decide(existing, path, post(field, path))
    case Recorded(nudityDetected, classes) => [Attempt(Entry(path, nudityDetected, LabelsOf(classes, how), now), copyOk)]
    case _ => []
  }

  /** `classify_image` (field `image`) and `classify_video` (field `video`): skip a path in the resume set
      without posting it; post it otherwise, and on status 200 hand the verdict to `handle_results`.
      Exceptions, including a failed copy or a checkpoint save that raises inside `handle_results`, are
      logged and swallowed. */
  method ClassifyFile(store: ReportStore, existing: set<Cell>, path: string, field: Kind,
                      post: (Kind, string) -> Reply, now: string, copyOk: bool, how: Labelling)
    requires store.Valid()
    modifies store
    ensures store.Valid()
    ensures store.State() == HandleAll(old(store.State()), FileAttempts(existing, path, field, post, now, copyOk, how))
  {
    if Str(path) in existing {
      return;
    }
    var reply := post(field, path);
    if reply.Reply? && reply.status == 200 {
      var nudityDetected := UnsafeScore(reply.unsafe) > Threshold;
      var classifiers := if nudityDetected then ["unsafe"] else [];
      var _ := store.HandleResults(path, nudityDetected, LabelsOf(classifiers, how), now, copyOk);
    }
  }

  /** The calls one queued path leads to, through `process_file`. */
  function PathAttempts(existing: set<Cell>, path: string, post: (Kind, string) -> Reply,
                        clock: string -> string, copyOk: string -> bool, how: Labelling): (r: seq<Attempt>)
    ensures |r| <= 1
  {
    match Route(path)
    case Image => FileAttempts(existing, path, Image, post, clock(path), copyOk(path), how)
    case Video => FileAttempts(existing, path, Video, post, clock(path), copyOk(path), how)
    case Unsupported => []
  }

  /** The calls a whole queue leads to, in queue order. */
  function ScanAttempts(existing: set<Cell>, queue: seq<string>, post: (Kind, string) -> Reply,
                        clock: string -> string, copyOk: string -> bool, how: Labelling): seq<Attempt>
    decreases |queue|
  {
    if queue == [] then []
    else ScanAttempts(existing, queue[..|queue| - 1], post, clock, copyOk, how)
         + PathAttempts(existing, queue[|queue| - 1], post, clock, copyOk, how)
  }

  /** `process_file(file_path, classify_image, classify_video)` with this script's classifiers. */
  method ProcessFile(store: ReportStore, existing: set<Cell>, path: string, post: (Kind, string) -> Reply,
                     clock: string -> string, copyOk: string -> bool, how: Labelling)
    requires store.Valid()
    modifies store
    ensures store.Valid()
    ensures store.State() == HandleAll(old(store.State()), PathAttempts(existing, path, post, clock, copyOk, how))
  {
    match Route(path)
    case Image =>
      ClassifyFile(store, existing, path, Image, post, clock(path), copyOk(path), how);
    case Video =>
      ClassifyFile(store, existing, path, Video, post, clock(path), copyOk(path), how);
    case Unsupported =>
  }

  /** One more queued path: its calls follow those of the paths before it. */
  lemma ScanStep(start: Store, existing: set<Cell>, done: seq<string>, path: string,
                 post: (Kind, string) -> Reply, clock: string -> string, copyOk: string -> bool, how: Labelling)
    ensures HandleAll(HandleAll(start, ScanAttempts(existing, done, post, clock, copyOk, how)),
                      PathAttempts(existing, path, post, clock, copyOk, how))
         == HandleAll(start, ScanAttempts(existing, done + [path], post, clock, copyOk, how))
  {
    assert (done + [path])[..|done|] == done;
    HandleAllAppend(start, ScanAttempts(existing, done, post, clock, copyOk, how),
                    PathAttempts(existing, path, post, clock, copyOk, how));
  }

  /** The store after the first `n` queued paths of a scan that started from `start`. */
  ghost predicate Scanned(s: Store, start: Store, existing: set<Cell>, queue: seq<string>, n: nat,
                          post: (Kind, string) -> Reply, clock: string -> string, copyOk: string -> bool, how: Labelling) {
    n <= |queue| && s == HandleAll(start, ScanAttempts(existing, queue[..n], post, clock, copyOk, how))
  }

  /** One iteration of the queue drain: after the first `n` queued paths, the next one is processed. */
  method ScanOne(store: ReportStore, ghost start: Store, existing: set<Cell>, queue: seq<string>, n: nat,
                 post: (Kind, string) -> Reply, clock: string -> string, copyOk: string -> bool, how: Labelling)
    requires n < |queue|
    requires store.Valid()
    requires Scanned(store.State(), start, existing, queue, n, post, clock, copyOk, how)
    modifies store
    ensures store.Valid()
    ensures Scanned(store.State(), start, existing, queue, n + 1, post, clock, copyOk, how)
  {
    ProcessFile(store, existing, queue[n], post, clock, copyOk, how);
    ScanStep(start, existing, queue[..n], queue[n], post, clock, copyOk, how);
    TakeSnoc(queue, n);
  }

  /** `classify_files_in_folder(folder, classify_image, classify_video)` on the enumerated `queue`, drained
      in order. `clock` gives the time each file's entry is stamped with; `copyOk` whether its copy works. */
  method Scan(store: ReportStore, existing: set<Cell>, queue: seq<string>, post: (Kind, string) -> Reply,
              clock: string -> string, copyOk: string -> bool, how: Labelling)
    requires store.Valid()
    modifies store
    ensures store.Valid()
    ensures store.State() == HandleAll(old(store.State()), ScanAttempts(existing, queue, post, clock, copyOk, how))
  {
    ghost var start := store.State();
    var n := 0;
    while n < |queue|
      invariant n <= |queue|
      invariant store.Valid()
      invariant Scanned(store.State(), start, existing, queue, n, post, clock, copyOk, how)
    {
      ScanOne(store, start, existing, queue, n, post, clock, copyOk, how);
      n := n + 1;
    }
    assert queue[..n] == queue;
  }

  /** The script from start to end: `existing_files` is loaded once when the module loads, the folder is
      scanned, and the remaining list is saved by a call outside any `try`. As written, that save raises
      whenever a file was recorded, so the script stops with `crashed` and the report file is as it was.
      With the labels joined, the file ends with its old data rows followed by one row per recorded file,
      and the resume set a later run loads holds every file recorded now. */
  method Run(store: ReportStore, queue: seq<string>, post: (Kind, string) -> Reply,
             clock: string -> string, copyOk: string -> bool, how: Labelling) returns (existing: set<Cell>, crashed: bool)
    requires store.Valid() && store.buffer == []
    modifies store
    ensures existing == Loaded(old(store.sheet))
    ensures var recorded := Accepted(ScanAttempts(existing, queue, post, clock, copyOk, how));
      && (how == AsList ==> (crashed <==> recorded != []) && store.sheet == old(store.sheet) && Loaded(store.sheet) == existing)
      && (how == Joined ==> !crashed && DataRows(store.sheet) == DataRows(old(store.sheet)) + RowsOf(recorded))
      && (how == Joined ==> Loaded(store.sheet) == existing + FileCells(recorded))
  {
    existing := store.LoadExistingReport();
    ghost var before := store.State();
    Scan(store, existing, queue, post, clock, copyOk, how);
    if how == AsList {
      ListLabelsNeverSaved(before, existing, queue, post, clock, copyOk);
    } else {
      JoinedLabelsAreSaved(before, existing, queue, post, clock, copyOk);
    }
    var ok := store.SaveReport(store.buffer);
    crashed := !ok;
  }

  /** As written: no row of this script ever reaches the file. Every checkpoint and the final save meet a
      list-valued cell and raise, so the list keeps every recorded entry, the file stays as it was, and
      the final save succeeds only when nothing was recorded. */
  lemma ListLabelsNeverSaved(s: Store, existing: set<Cell>, queue: seq<string>, post: (Kind, string) -> Reply,
      clock: string -> string, copyOk: string -> bool)
    requires s.buffer == []
    ensures var t := HandleAll(s, ScanAttempts(existing, queue, post, clock, copyOk, AsList));
      var recorded := Accepted(ScanAttempts(existing, queue, post, clock, copyOk, AsList));
      && t.sheet == s.sheet
      && t.buffer == recorded
      && (AllStorable(t.buffer) <==> recorded == [])
      && Saved(t.sheet, t.buffer) == s.sheet
  {
    var attempts := ScanAttempts(existing, queue, post, clock, copyOk, AsList);
    var recorded := Accepted(attempts);
    ScanRecordsOnlyNewQueuedFiles(existing, queue, post, clock, copyOk, AsList);
    assert forall i :: 0 <= i < |recorded| ==> recorded[i] in recorded;
    UnstorableNeverFlushed(s, attempts);
    assert [] + recorded == recorded;
    if recorded != [] {
      assert !Storable(recorded[0]);
    }
  }

  /** Corrected: with the labels joined every entry can be stored, so checkpoints and the final save all
      succeed and the file gains one row per recorded file, in order. */
  lemma JoinedLabelsAreSaved(s: Store, existing: set<Cell>, queue: seq<string>, post: (Kind, string) -> Reply,
      clock: string -> string, copyOk: string -> bool)
    requires HasHeaderRow(s.sheet) && s.buffer == []
    ensures var t := HandleAll(s, ScanAttempts(existing, queue, post, clock, copyOk, Joined));
      var recorded := Accepted(ScanAttempts(existing, queue, post, clock, copyOk, Joined));
      && AllStorable(t.buffer)
      && DataRows(Saved(t.sheet, t.buffer)) == DataRows(s.sheet) + RowsOf(recorded)
      && Loaded(Saved(t.sheet, t.buffer)) == Loaded(s.sheet) + FileCells(recorded)
  {
    var attempts := ScanAttempts(existing, queue, post, clock, copyOk, Joined);
    var recorded := Accepted(attempts);
    var t := HandleAll(s, attempts);
    ScanRecordsOnlyNewQueuedFiles(existing, queue, post, clock, copyOk, Joined);
    assert forall i :: 0 <= i < |recorded| ==> recorded[i] in recorded;
    HandleAllKeepsConsistent(s, attempts);
    HandleAllExtendsLedger(s, attempts);
    assert Ledger(s) == DataRows(s.sheet);
    SavedDataRows(t.sheet, t.buffer);
    LoadedAfterRows(Saved(t.sheet, t.buffer), s.sheet, recorded);
  }

  /** The calls for one path are about that path, which has a supported extension and is new. */
  lemma PathAttemptsShape(existing: set<Cell>, path: string, post: (Kind, string) -> Reply,
      clock: string -> string, copyOk: string -> bool, how: Labelling)
    ensures forall a :: a in PathAttempts(existing, path, post, clock, copyOk, how) ==>
      && a.entry.file == path && Route(path) != Unsupported && Str(path) !in existing
      && (a.entry.detectedClasses.Names? <==> how == AsList)
  {
  }

  /** Every call a scan makes is about a queued path with a supported extension, not in the resume set. */
  lemma {:induction false} ScanAttemptsAreNewQueuedFiles(existing: set<Cell>, queue: seq<string>,
      post: (Kind, string) -> Reply, clock: string -> string, copyOk: string -> bool, how: Labelling)
    ensures forall i :: 0 <= i < |ScanAttempts(existing, queue, post, clock, copyOk, how)| ==>
      var e := ScanAttempts(existing, queue, post, clock, copyOk, how)[i].entry;
      && e.file in queue && Route(e.file) != Unsupported && Str(e.file) !in existing
      && (e.detectedClasses.Names? <==> how == AsList)
    decreases |queue|
  {
    if queue != [] {
      var front, last := queue[..|queue| - 1], queue[|queue| - 1];
      ScanAttemptsAreNewQueuedFiles(existing, front, post, clock, copyOk, how);
      PathAttemptsShape(existing, last, post, clock, copyOk, how);
      var a: seq<Attempt> := ScanAttempts(existing, front, post, clock, copyOk, how);
      var b: seq<Attempt> := PathAttempts(existing, last, post, clock, copyOk, how);
      assert ScanAttempts(existing, queue, post, clock, copyOk, how) == a + b;
      forall i | 0 <= i < |a + b|
        ensures var e := (a + b)[i].entry;
          && e.file in queue && Route(e.file) != Unsupported && Str(e.file) !in existing
          && (e.detectedClasses.Names? <==> how == AsList)
      {
        if i < |a| {
          assert (a + b)[i] == a[i];
          assert a[i].entry.file in front;
        } else {
          assert (a + b)[i] in b;
        }
      }
    }
  }

  /** Every recorded file was queued with a supported extension and was not in the resume set, and its
      classes are a list exactly when the labels are handed over as written. */
  lemma ScanRecordsOnlyNewQueuedFiles(existing: set<Cell>, queue: seq<string>,
      post: (Kind, string) -> Reply, clock: string -> string, copyOk: string -> bool, how: Labelling)
    ensures forall e :: e in Accepted(ScanAttempts(existing, queue, post, clock, copyOk, how)) ==>
      && e.file in queue && Route(e.file) != Unsupported && Str(e.file) !in existing
      && (e.detectedClasses.Names? <==> how == AsList)
  {
    ScanAttemptsAreNewQueuedFiles(existing, queue, post, clock, copyOk, how);
    AcceptedFromAttempts(ScanAttempts(existing, queue, post, clock, copyOk, how));
  }

  /** At most one row per file per run: when the enumerated paths are distinct, so are the files of
      the recorded entries, and there are no more of them than paths. */
  lemma {:induction false} ScanRecordsEachFileOnce(existing: set<Cell>, queue: seq<string>,
      post: (Kind, string) -> Reply, clock: string -> string, copyOk: string -> bool, how: Labelling)
    requires forall i, j :: 0 <= i < j < |queue| ==> queue[i] != queue[j]
    ensures var es := Accepted(ScanAttempts(existing, queue, post, clock, copyOk, how));
      |es| <= |queue| && DistinctFiles(es)
    decreases |queue|
  {
    if queue != [] {
      var front, last := queue[..|queue| - 1], queue[|queue| - 1];
      ScanRecordsEachFileOnce(existing, front, post, clock, copyOk, how);
      ScanRecordsOnlyNewQueuedFiles(existing, front, post, clock, copyOk, how);
      PathAttemptsShape(existing, last, post, clock, copyOk, how);
      var a: seq<Attempt> := ScanAttempts(existing, front, post, clock, copyOk, how);
      var b: seq<Attempt> := PathAttempts(existing, last, post, clock, copyOk, how);
      assert last !in front;
      AcceptedDistinctSnoc(a, b, last);
      AcceptedAppend(a, b);
    }
  }

  /** Resuming: whatever the server answers on a second run over the report the first run left, no
      file recorded by the first run is recorded again. */
  lemma ResumeSkipsRecordedFiles(existing: set<Cell>, recorded: seq<Entry>, queue: seq<string>,
      post: (Kind, string) -> Reply, clock: string -> string, copyOk: string -> bool, how: Labelling)
    ensures forall e, r ::
      (e in Accepted(ScanAttempts(existing + FileCells(recorded), queue, post, clock, copyOk, how)) && r in recorded) ==>
      e.file != r.file
  {
    ScanRecordsOnlyNewQueuedFiles(existing + FileCells(recorded), queue, post, clock, copyOk, how);
    forall r | r in recorded ensures Str(r.file) in FileCells(recorded) {
      var i :| 0 <= i < |recorded| && recorded[i] == r;
    }
  }

  /** The resume set is computed once: a path queued twice that is new and answered with status 200
      (and whose copy works if it is flagged) is recorded twice in the same run. */
  lemma ResumeSetIsNotRefreshed(existing: set<Cell>, p: string, post: (Kind, string) -> Reply,
      clock: string -> string, copyOk: string -> bool, how: Labelling)
    requires Route(p) != Unsupported && Str(p) !in existing
    requires post(Route(p), p).Reply? && post(Route(p), p).status == 200
    requires UnsafeScore(post(Route(p), p).unsafe) > Threshold ==> copyOk(p)
    ensures |Accepted(ScanAttempts(existing, [p, p], post, clock, copyOk, how))| == 2
  {
    var a := PathAttempts(existing, p, post, clock, copyOk, how);
    ScanTwice(existing, p, post, clock, copyOk, how);
    AcceptedAppend(a, a);
    NewPathAccepted(existing, p, post, clock, copyOk, how);
  }

  lemma ScanTwice(existing: set<Cell>, p: string, post: (Kind, string) -> Reply,
      clock: string -> string, copyOk: string -> bool, how: Labelling)
    ensures ScanAttempts(existing, [p, p], post, clock, copyOk, how)
         == PathAttempts(existing, p, post, clock, copyOk, how) + PathAttempts(existing, p, post, clock, copyOk, how)
  {
    var a := PathAttempts(existing, p, post, clock, copyOk, how);
    assert [p, p][..1] == [p];
    assert [p][..0] == [];
    assert ScanAttempts(existing, [p], post, clock, copyOk, how) == [] + a;
    assert [] + a == a;
  }

  lemma NewPathAccepted(existing: set<Cell>, p: string, post: (Kind, string) -> Reply,
      clock: string -> string, copyOk: string -> bool, how: Labelling)
    requires Route(p) != Unsupported && Str(p) !in existing
    requires post(Route(p), p).Reply? && post(Route(p), p).status == 200
    requires UnsafeScore(post(Route(p), p).unsafe) > Threshold ==> copyOk(p)
    ensures |Accepted(PathAttempts(existing, p, post, clock, copyOk, how))| == 1
  {
    var a := PathAttempts(existing, p, post, clock, copyOk, how);
    assert |a| == 1 && Appends(a[0].entry, a[0].copyOk);
    assert a[..0] == [];
    assert Accepted(a) == [] + [a[0].entry];
  }
}
