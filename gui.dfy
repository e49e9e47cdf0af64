/**
 * The classification closures of nudity_detector_gui.py (`process_files`): for each model, a
 * `classify_image` and a `classify_video` that the shared folder scan calls, and the summary the GUI
 * logs once the scan is over.
 *
 * A video is read frame by frame; every fifth frame is written to `temp_frame_{i}.jpg`. The frames are
 * then classified in order until one is flagged, and all the frame files are removed afterwards. The
 * flag `is_processing` is a field of the session that the user's stop request clears; here the stop
 * arrives between two files of the scan (a stop in the middle of one video is not modelled).
 *
 * Everything the closures learn from outside is an input: what NudeNet reports for an image or for a
 * frame file, what DeepStack answers, how many frames OpenCV can read from a video, the clock, and
 * whether the copy into `exposed` works.
 */
module Gui {
  import opened Wrappers
  import opened Strings
  import opened Seqs
  import opened Dispatch
  import opened Classification
  import opened Report
  import DeepStack

  /** The frame indices `classify_video` writes out when `count` frames can be read: those that are
      multiples of five, in reading order. */
  function Sampled(count: nat): seq<nat>
    decreases count
  {
    if count == 0 then []
    else Sampled(count - 1) + (if (count - 1) % 5 == 0 then [count - 1] else [])
  }

  /** Sampling keeps exactly the multiples of five below the frame count, in increasing order: the
      `k`-th sampled frame is frame `5 * k`. */
  lemma {:induction false} SampledClosedForm(count: nat)
    ensures |Sampled(count)| == (count + 4) / 5
    ensures forall k :: 0 <= k < |Sampled(count)| ==> Sampled(count)[k] == 5 * k
    decreases count
  {
    if count > 0 {
      SampledClosedForm(count - 1);
      var s := Sampled(count - 1);
      if (count - 1) % 5 == 0 {
        assert (count - 1) / 5 * 5 == count - 1;
        assert |s| == (count - 1) / 5;
        assert Sampled(count) == s + [count - 1];
      } else {
        assert |s| == (count + 4) / 5;
      }
    }
  }

  /** A frame is sampled exactly when it can be read and its index is a multiple of five. */
  lemma SampledMembers(count: nat, i: nat)
    ensures i in Sampled(count) <==> i < count && i % 5 == 0
  {
    SampledClosedForm(count);
    if i < count && i % 5 == 0 {
      assert Sampled(count)[i / 5] == i;
    }
  }

  /** `f"temp_frame_{frame_count}.jpg"`. */
  function TempFrameName(i: nat): string {
    "temp_frame_" + NatToString(i) + ".jpg"
  }

  /** Different frames are written to different files. */
  lemma TempFrameNameInjective(i: nat, j: nat)
    requires TempFrameName(i) == TempFrameName(j)
    ensures i == j
  {
    var a, b := TempFrameName(i), TempFrameName(j);
    assert a[11..|a| - 4] == NatToString(i);
    assert b[11..|b| - 4] == NatToString(j);
    NatToStringInjective(i, j);
  }

  function FrameNames(indices: seq<nat>): (r: seq<string>)
    ensures |r| == |indices|
    ensures forall k :: 0 <= k < |indices| ==> r[k] == TempFrameName(indices[k])
  {
    seq(|indices|, k requires 0 <= k < |indices| => TempFrameName(indices[k]))
  }

  /** The `frames` list of a video with `count` readable frames. */
  function SampledNames(count: nat): seq<string> {
    FrameNames(Sampled(count))
  }

  /** Each sampled frame gets its own file: the names in `frames` are pairwise different, and the
      `k`-th one is `temp_frame_{5k}.jpg`. */
  lemma SampledNamesDistinct(count: nat)
    ensures forall k :: 0 <= k < |SampledNames(count)| ==> SampledNames(count)[k] == TempFrameName(5 * k)
    ensures forall a, b :: 0 <= a < b < |SampledNames(count)| ==> SampledNames(count)[a] != SampledNames(count)[b]
  {
    SampledClosedForm(count);
    var names := SampledNames(count);
    forall a, b | 0 <= a < b < |names| ensures names[a] != names[b] {
      if names[a] == names[b] {
        TempFrameNameInjective(5 * a, 5 * b);
      }
    }
  }

  /** What one frame contributes to the loop over `frames`: nothing (the detector raised, or DeepStack
      did not answer with status 200), or some records and whether the frame is flagged. */
  datatype FrameVerdict<R> = Failed | Seen(records: seq<R>, flags: bool)

  predicate FrameFlags<R>(v: FrameVerdict<R>) {
    v.Seen? && v.flags
  }

  predicate AnyFlags<R>(vs: seq<FrameVerdict<R>>) {
    exists j :: 0 <= j < |vs| && FrameFlags(vs[j])
  }

  /** How many frames the loop classifies: every frame up to and including the first flagged one, or
      all of them when none is flagged. */
  function Tried<R>(vs: seq<FrameVerdict<R>>): (n: nat)
    ensures n <= |vs|
    decreases |vs|
  {
    if vs == [] then 0 else if FrameFlags(vs[0]) then 1 else 1 + Tried(vs[1..])
  }

  /** The records of some frames, in frame order (`detection_results`). */
  function Gathered<R>(vs: seq<FrameVerdict<R>>): seq<R>
    decreases |vs|
  {
    if vs == [] then []
    else Gathered(vs[..|vs| - 1]) + (if vs[|vs| - 1].Seen? then vs[|vs| - 1].records else [])
  }

  /** The records of the frames the loop classifies. */
  function Collected<R>(vs: seq<FrameVerdict<R>>): seq<R> {
    Gathered(vs[..Tried(vs)])
  }

  /** The loop stops at the first flagged frame and nowhere else: the frames before the last one
      classified are not flagged, the last one classified is flagged exactly when some frame is, and
      when no frame is flagged every frame is classified. */
  lemma {:induction false} TriedStopsAtFirstFlag<R>(vs: seq<FrameVerdict<R>>)
    ensures forall j :: 0 <= j < Tried(vs) - 1 ==> !FrameFlags(vs[j])
    ensures AnyFlags(vs) <==> Tried(vs) > 0 && FrameFlags(vs[Tried(vs) - 1])
    ensures !AnyFlags(vs) ==> Tried(vs) == |vs|
    decreases |vs|
  {
    if vs != [] && !FrameFlags(vs[0]) {
      var rest := vs[1..];
      TriedStopsAtFirstFlag(rest);
      assert forall j :: 1 <= j < |vs| ==> vs[j] == rest[j - 1];
      if AnyFlags(vs) {
        var j :| 0 <= j < |vs| && FrameFlags(vs[j]);
        assert FrameFlags(rest[j - 1]);
      }
      if AnyFlags(rest) {
        var j :| 0 <= j < |rest| && FrameFlags(rest[j]);
        assert FrameFlags(vs[j + 1]);
      }
    }
  }

  /** After a run of unflagged frames, the loop goes on exactly as it would from there. */
  lemma {:induction false} TriedAfterClean<R>(vs: seq<FrameVerdict<R>>, i: nat)
    requires i <= |vs| && forall j :: 0 <= j < i ==> !FrameFlags(vs[j])
    ensures Tried(vs) == i + Tried(vs[i..])
    decreases i
  {
    if i > 0 {
      assert vs[1..][i - 1..] == vs[i..];
      TriedAfterClean(vs[1..], i - 1);
    }
  }

  lemma GatheredSnoc<R>(vs: seq<FrameVerdict<R>>, i: nat)
    requires i < |vs|
    ensures Gathered(vs[..i + 1]) == Gathered(vs[..i]) + (if vs[i].Seen? then vs[i].records else [])
  {
    TakeSnoc(vs, i);
    SnocTake(vs[..i], vs[i]);
  }

  /** Records are gathered frame by frame: two runs of frames give the records of the first, then those
      of the second. */
  lemma {:induction false} GatheredAppend<R>(a: seq<FrameVerdict<R>>, b: seq<FrameVerdict<R>>)
    ensures Gathered(a + b) == Gathered(a) + Gathered(b)
    decreases |b|
  {
    if b == [] {
      assert a + b == a;
    } else {
      var b', last := b[..|b| - 1], b[|b| - 1];
      GatheredAppend(a, b');
      AppendTakeLast(a, b);
      AppendAssoc(Gathered(a), Gathered(b'), if last.Seen? then last.records else []);
    }
  }

  /** Unflagged frames in front change nothing about whether some frame is flagged. */
  lemma AnyFlagsAfterClean<R>(x: seq<FrameVerdict<R>>, b: seq<FrameVerdict<R>>)
    requires forall j :: 0 <= j < |x| ==> !FrameFlags(x[j])
    ensures AnyFlags(x + b) <==> AnyFlags(b)
  {
    var vs := x + b;
    if AnyFlags(vs) {
      var j :| 0 <= j < |vs| && FrameFlags(vs[j]);
      assert j >= |x|;
      assert vs[j] == b[j - |x|];
    }
    if AnyFlags(b) {
      var j :| 0 <= j < |b| && FrameFlags(b[j]);
      assert vs[|x| + j] == b[j];
    }
  }

  /** After unflagged frames, the loop collects their records and then goes on with the rest. */
  lemma CollectedAfterClean<R>(x: seq<FrameVerdict<R>>, b: seq<FrameVerdict<R>>)
    requires forall j :: 0 <= j < |x| ==> !FrameFlags(x[j])
    ensures Collected(x + b) == Gathered(x) + Collected(b)
  {
    TriedAppendClean(x, b);
    CollectedShifted(x, b);
  }

  lemma CollectedShifted<R>(x: seq<FrameVerdict<R>>, b: seq<FrameVerdict<R>>)
    requires Tried(x + b) == |x| + Tried(b)
    ensures Collected(x + b) == Gathered(x) + Collected(b)
  {
    var t := Tried(b);
    assert Collected(x + b) == Gathered((x + b)[..|x| + t]);
    AppendTake(x, b, t);
    GatheredAppend(x, b[..t]);
  }

  /** Unflagged frames in front are all classified before the rest. */
  lemma {:induction false} TriedAppendClean<R>(x: seq<FrameVerdict<R>>, b: seq<FrameVerdict<R>>)
    requires forall j :: 0 <= j < |x| ==> !FrameFlags(x[j])
    ensures Tried(x + b) == |x| + Tried(b)
    decreases |x|
  {
    if x == [] {
      assert x + b == b;
    } else {
      AppendDropFirst(x, b);
      TriedAppendClean(x[1..], b);
    }
  }

  /** A failed frame is never flagged. */
  lemma FailedIsClean<R>(a: seq<FrameVerdict<R>>)
    requires forall j :: 0 <= j < |a| ==> !FrameFlags(a[j])
    ensures forall j :: 0 <= j < |a + [Failed]| ==> !FrameFlags((a + [Failed])[j])
  {
  }

  /** A frame that fails contributes nothing and does not stop the loop: after unflagged frames `a`, a
      failed frame leaves the records of `a` followed by what the rest collects. */
  lemma FailedFrameIsSkipped<R>(a: seq<FrameVerdict<R>>, b: seq<FrameVerdict<R>>)
    requires forall j :: 0 <= j < |a| ==> !FrameFlags(a[j])
    ensures Collected(a + [Failed] + b) == Gathered(a) + Collected(b)
  {
    FailedIsClean(a);
    CollectedAfterClean(a + [Failed], b);
    GatheredFailed(a);
  }

  lemma GatheredFailed<R>(a: seq<FrameVerdict<R>>)
    ensures Gathered(a + [Failed]) == Gathered(a)
  {
    SnocTake(a, Failed);
    assert Gathered(a) + [] == Gathered(a);
  }

  /** ... and the video is flagged exactly when one of the frames after the failed one is. */
  lemma FailedFrameFlagsNothing<R>(a: seq<FrameVerdict<R>>, b: seq<FrameVerdict<R>>)
    requires forall j :: 0 <= j < |a| ==> !FrameFlags(a[j])
    ensures AnyFlags(a + [Failed] + b) <==> AnyFlags(b)
  {
    FailedIsClean(a);
    AnyFlagsAfterClean(a + [Failed], b);
  }

  /** The elements of a list of file names. */
  function Elems(s: seq<string>): set<string> {
    set x | x in s
  }

  /** One more sampled frame: the list and its files grow by `temp_frame_{n}.jpg` exactly when `n` is a
      multiple of five. */
  lemma SampledNamesSnoc(n: nat)
    ensures SampledNames(n + 1) == SampledNames(n) + (if n % 5 == 0 then [TempFrameName(n)] else [])
  {
    var s := Sampled(n);
    if n % 5 == 0 {
      assert Sampled(n + 1) == s + [n];
      assert FrameNames(s + [n]) == FrameNames(s) + [TempFrameName(n)];
    } else {
      assert Sampled(n + 1) == s + [];
      assert s + [] == s;
    }
  }

  lemma ElemsSnoc(s: seq<string>, x: string)
    ensures Elems(s + [x]) == Elems(s) + {x}
  {
  }

  lemma ElemsTakeSnoc(s: seq<string>, i: nat)
    requires i < |s|
    ensures Elems(s[..i + 1]) == Elems(s[..i]) + {s[i]}
  {
    TakeSnoc(s, i);
    ElemsSnoc(s[..i], s[i]);
  }

  /** The two models the GUI offers. */
  datatype Model = NudeNetModel | DeepStackModel

  /** What the closures learn from outside: NudeNet's records for an image file, NudeNet's records for a
      frame file written while processing a video, DeepStack's answer for an image file and for a frame
      file, how many frames OpenCV reads from a video (none when it cannot open it), the time each entry
      is stamped with, and whether copying a file into `exposed` works. */
  datatype World = World(
    detect: string -> DetectResult,
    detectFrame: (string, string) -> DetectResult,
    post: string -> DeepStack.Reply,
    postFrame: (string, string) -> DeepStack.Reply,
    frameCount: string -> nat,
    clock: string -> string,
    copyOk: string -> bool)

  /** One frame in the NudeNet loop: an exception, or its records, flagged by the NudeNet rule. */
  function NudeFrame(r: DetectResult): FrameVerdict<Detection> {
    match r
    case DetectError => Failed
    case Detected(dets) => Seen(dets, Flagged(dets))
  }

  /** One frame in the DeepStack loop: only a status-200 answer counts, as a `{frame, unsafe_score}`
      record, flagged when the score is above 0.6. */
  function DeepFrame(frame: string, reply: DeepStack.Reply): FrameVerdict<(string, real)> {
    if reply.Reply? && reply.status == 200 then
      var score := DeepStack.UnsafeScore(reply.unsafe);
      Seen([(frame, score)], score > Threshold)
    else Failed
  }

  function NudeFrames(video: string, frames: seq<string>, w: World): (vs: seq<FrameVerdict<Detection>>)
    ensures |vs| == |frames|
    ensures forall k :: 0 <= k < |frames| ==> vs[k] == NudeFrame(w.detectFrame(video, frames[k]))
  {
    seq(|frames|, k requires 0 <= k < |frames| => NudeFrame(w.detectFrame(video, frames[k])))
  }

  function DeepFrames(video: string, frames: seq<string>, w: World): (vs: seq<FrameVerdict<(string, real)>>)
    ensures |vs| == |frames|
    ensures forall k :: 0 <= k < |frames| ==> vs[k] == DeepFrame(frames[k], w.postFrame(video, frames[k]))
  {
    seq(|frames|, k requires 0 <= k < |frames| => DeepFrame(frames[k], w.postFrame(video, frames[k])))
  }

  /** The entry the NudeNet `classify_image` hands over: flagged by the rule, with every detection as a
      (class, score) record; none when the detector raises. */
  function NudeImageEntry(path: string, w: World): Option<Entry> {
    match w.detect(path)
    case DetectError => None
    case Detected(dets) => Some(Entry(path, Flagged(dets), Records(AsRecords(dets)), w.clock(path)))
  }

  /** The entry the DeepStack `classify_image` hands over: the DeepStack script's verdict for a file
      that is not in any resume set; none unless the answer has status 200. */
  function DeepImageEntry(path: string, w: World): Option<Entry> {
    match DeepStack.Decide({}, path, w.post(path))
    case Recorded(nudityDetected, classes) => Some(Entry(path, nudityDetected, Names(classes), w.clock(path)))
    case _ => None
  }

  /** The entry the NudeNet `classify_video` hands over: flagged when some sampled frame is, with the
      records of the frames classified up to the first flagged one. */
  function NudeVideoEntry(path: string, w: World): Entry {
    var vs := NudeFrames(path, SampledNames(w.frameCount(path)), w);
    Entry(path, AnyFlags(vs), Records(AsRecords(Collected(vs))), w.clock(path))
  }

  /** The entry the DeepStack `classify_video` hands over. */
  function DeepVideoEntry(path: string, w: World): Entry {
    var vs := DeepFrames(path, SampledNames(w.frameCount(path)), w);
    Entry(path, AnyFlags(vs), Records(Collected(vs)), w.clock(path))
  }

  /** The `handle_results` call a closure makes: none when `is_processing` is false on entry or the
      closure has no entry to hand over. */
  function Attempts(live: bool, entry: Option<Entry>, copyOk: bool): (r: seq<Attempt>)
    ensures |r| <= 1
  {
    if live && entry.Some? then [Attempt(entry.value, copyOk)] else []
  }

  /** The entry the selected model's closures produce for a path, through `process_file`. */
  function FileEntry(model: Model, path: string, w: World): Option<Entry> {
    match Route(path)
    case Image => if model == NudeNetModel then NudeImageEntry(path, w) else DeepImageEntry(path, w)
    case Video => Some(if model == NudeNetModel then NudeVideoEntry(path, w) else DeepVideoEntry(path, w))
    case Unsupported => None
  }

  function PathAttempts(model: Model, live: bool, path: string, w: World): (r: seq<Attempt>)
    ensures |r| <= 1
  {
    Attempts(live, FileEntry(model, path, w), w.copyOk(path))
  }

  /** The calls of a whole scan: the `k`-th queued path is handled while `is_processing` still holds,
      which is when the scan started with it set and the stop request comes later than that path. */
  function ScanAttempts(model: Model, live: bool, stop: nat, queue: seq<string>, w: World): seq<Attempt>
    decreases |queue|
  {
    if queue == [] then []
    else ScanAttempts(model, live, stop, queue[..|queue| - 1], w)
         + PathAttempts(model, live && |queue| - 1 < stop, queue[|queue| - 1], w)
  }

  lemma HandleAllOne(s: Store, attempts: seq<Attempt>)
    requires |attempts| <= 1
    ensures HandleAll(s, attempts) == if attempts == [] then s else Handle(s, attempts[0].entry, attempts[0].copyOk)
  {
    if attempts != [] {
      assert attempts[..0] == [];
    }
  }

  /** The GUI's scanning state: `is_processing`, the frame files present in the working directory, and
      the shared report store of nudity_detector_utils.py. */
  class GuiSession {
    var isProcessing: bool
    var tempFiles: set<string>
    const store: ReportStore

    ghost predicate Valid()
      reads this, store
    {
      store.Valid()
    }

    /** A session whose scan has just been started (`start_scanning` sets `is_processing`), with the
        frame files `onDisk` already present. */
    constructor (store: ReportStore, onDisk: set<string>)
      requires store.Valid()
      ensures Valid()
      ensures this.store == store && isProcessing && tempFiles == onDisk
    {
      this.store := store;
      isProcessing := true;
      tempFiles := onDisk;
    }

    /** `stop_scanning`: the user's stop request. */
    method StopScanning()
      modifies this
      ensures !isProcessing && tempFiles == old(tempFiles)
    {
      isProcessing := false;
    }

    /** The sampling loop of `classify_video`: read frames while the video yields them and
        `is_processing` holds, writing every fifth one to its `temp_frame_{i}.jpg`. */
    method SampleFrames(count: nat) returns (frames: seq<string>)
      modifies this
      ensures isProcessing == old(isProcessing)
      ensures frames == if isProcessing then SampledNames(count) else []
      ensures tempFiles == old(tempFiles) + Elems(frames)
    {
      frames := [];
      var n := 0;
      while n < count && isProcessing
        invariant n <= count
        invariant isProcessing == old(isProcessing)
        invariant isProcessing || n == 0
        invariant frames == SampledNames(n)
        invariant tempFiles == old(tempFiles) + Elems(frames)
      {
        SampledNamesSnoc(n);
        if n % 5 == 0 {
          var name := TempFrameName(n);
          ElemsSnoc(frames, name);
          tempFiles := tempFiles + {name};
          frames := frames + [name];
        }
        n := n + 1;
      }
    }

    /** The cleanup loop: remove every frame file that exists. */
    method RemoveFrames(frames: seq<string>)
      modifies this
      ensures isProcessing == old(isProcessing)
      ensures tempFiles == old(tempFiles) - Elems(frames)
    {
      var i := 0;
      while i < |frames|
        invariant i <= |frames|
        invariant isProcessing == old(isProcessing)
        invariant tempFiles == old(tempFiles) - Elems(frames[..i])
      {
        ElemsTakeSnoc(frames, i);
        if frames[i] in tempFiles {
          tempFiles := tempFiles - {frames[i]};
        }
        i := i + 1;
      }
      assert frames[..i] == frames;
    }

    /** The NudeNet frame loop: classify the frames in order, extending `detection_results` with each
        frame's records, until one is flagged or `is_processing` is false; a frame that raises is
        skipped. `asked` lists the frames handed to the detector. */
    method NudeFrameLoop(video: string, frames: seq<string>, w: World)
      returns (asked: seq<string>, detections: seq<Detection>, flagged: bool)
      ensures var vs := NudeFrames(video, frames, w);
        if isProcessing then asked == frames[..Tried(vs)] && detections == Collected(vs) && flagged == AnyFlags(vs)
        else asked == [] && detections == [] && !flagged
    {
      ghost var vs := NudeFrames(video, frames, w);
      asked, detections, flagged := [], [], false;
      var i := 0;
      while i < |frames|
        invariant i <= |frames|
        invariant isProcessing || i == 0
        invariant forall j :: 0 <= j < i ==> !FrameFlags(vs[j])
        invariant asked == frames[..i] && detections == Gathered(vs[..i])
      {
        if !isProcessing {
          break;
        }
        TakeSnoc(frames, i);
        GatheredSnoc(vs, i);
        asked := asked + [frames[i]];
        match w.detectFrame(video, frames[i]) {
          case DetectError =>
          case Detected(dets) =>
            detections := detections + dets;
            if Flagged(dets) {
              flagged := true;
              FlaggedAt(vs, i);
              break;
            }
        }
        i := i + 1;
      }
      if !flagged && isProcessing {
        NoneFlagged(vs);
      }
    }

    /** The DeepStack frame loop: post the frames in order, recording `{frame, unsafe_score}` for each
        status-200 answer, until a score is above 0.6 or `is_processing` is false. */
    method DeepFrameLoop(video: string, frames: seq<string>, w: World)
      returns (asked: seq<string>, records: seq<(string, real)>, flagged: bool)
      ensures var vs := DeepFrames(video, frames, w);
        if isProcessing then asked == frames[..Tried(vs)] && records == Collected(vs) && flagged == AnyFlags(vs)
        else asked == [] && records == [] && !flagged
    {
      ghost var vs := DeepFrames(video, frames, w);
      asked, records, flagged := [], [], false;
      var i := 0;
      while i < |frames|
        invariant i <= |frames|
        invariant isProcessing || i == 0
        invariant forall j :: 0 <= j < i ==> !FrameFlags(vs[j])
        invariant asked == frames[..i] && records == Gathered(vs[..i])
      {
        if !isProcessing {
          break;
        }
        TakeSnoc(frames, i);
        GatheredSnoc(vs, i);
        asked := asked + [frames[i]];
        var reply := w.postFrame(video, frames[i]);
        if reply.Reply? && reply.status == 200 {
          var score := DeepStack.UnsafeScore(reply.unsafe);
          records := records + [(frames[i], score)];
          if score > Threshold {
            flagged := true;
            FlaggedAt(vs, i);
            break;
          }
        }
        i := i + 1;
      }
      if !flagged && isProcessing {
        NoneFlagged(vs);
      }
    }

    /** The NudeNet `classify_image`: nothing unless `is_processing`; otherwise detect, and unless the
        detector raises, hand the verdict and every detection to `handle_results`. */
    method NudeClassifyImage(path: string, w: World)
      requires Valid()
      modifies store
      ensures Valid()
      ensures store.State() == HandleAll(old(store.State()), Attempts(isProcessing, NudeImageEntry(path, w), w.copyOk(path)))
    {
      HandleAllOne(store.State(), Attempts(isProcessing, NudeImageEntry(path, w), w.copyOk(path)));
      if !isProcessing {
        return;
      }
      match w.detect(path) {
        case DetectError =>
        case Detected(dets) =>
          var _ := store.HandleResults(path, Flagged(dets), Records(AsRecords(dets)), w.clock(path), w.copyOk(path));
      }
    }

    /** The DeepStack `classify_image`: nothing unless `is_processing`; otherwise post the file and, on
        status 200, hand the verdict and `["unsafe"]` or `[]` to `handle_results`. */
    method DeepClassifyImage(path: string, w: World)
      requires Valid()
      modifies store
      ensures Valid()
      ensures store.State() == HandleAll(old(store.State()), Attempts(isProcessing, DeepImageEntry(path, w), w.copyOk(path)))
    {
      HandleAllOne(store.State(), Attempts(isProcessing, DeepImageEntry(path, w), w.copyOk(path)));
      if !isProcessing {
        return;
      }
      var reply := w.post(path);
      if reply.Reply? && reply.status == 200 {
        var nudityDetected := DeepStack.UnsafeScore(reply.unsafe) > Threshold;
        var classifiers := if nudityDetected then ["unsafe"] else [];
        var _ := store.HandleResults(path, nudityDetected, Names(classifiers), w.clock(path), w.copyOk(path));
      }
    }

    /** The NudeNet `classify_video`: nothing unless `is_processing`; otherwise sample the frames,
        classify them up to the first flagged one, remove every frame file, and hand the verdict and the
        gathered records to `handle_results`. */
    method NudeClassifyVideo(path: string, w: World)
      requires Valid()
      modifies this, store
      ensures Valid() && isProcessing == old(isProcessing)
      ensures store.State() == HandleAll(old(store.State()), Attempts(isProcessing, Some(NudeVideoEntry(path, w)), w.copyOk(path)))
      ensures tempFiles == if isProcessing then old(tempFiles) - Elems(SampledNames(w.frameCount(path))) else old(tempFiles)
    {
      HandleAllOne(store.State(), Attempts(isProcessing, Some(NudeVideoEntry(path, w)), w.copyOk(path)));
      if !isProcessing {
        return;
      }
      var frames := SampleFrames(w.frameCount(path));
      var asked, detections, flagged := NudeFrameLoop(path, frames, w);
      RemoveFrames(frames);
      var _ := store.HandleResults(path, flagged, Records(AsRecords(detections)), w.clock(path), w.copyOk(path));
    }

    /** The DeepStack `classify_video`: the same frame handling, posting each frame. */
    method DeepClassifyVideo(path: string, w: World)
      requires Valid()
      modifies this, store
      ensures Valid() && isProcessing == old(isProcessing)
      ensures store.State() == HandleAll(old(store.State()), Attempts(isProcessing, Some(DeepVideoEntry(path, w)), w.copyOk(path)))
      ensures tempFiles == if isProcessing then old(tempFiles) - Elems(SampledNames(w.frameCount(path))) else old(tempFiles)
    {
      HandleAllOne(store.State(), Attempts(isProcessing, Some(DeepVideoEntry(path, w)), w.copyOk(path)));
      if !isProcessing {
        return;
      }
      var frames := SampleFrames(w.frameCount(path));
      var asked, records, flagged := DeepFrameLoop(path, frames, w);
      RemoveFrames(frames);
      var _ := store.HandleResults(path, flagged, Records(records), w.clock(path), w.copyOk(path));
    }

    /** `process_file(file_path, classify_image, classify_video)` with the selected model's closures. No
        frame file is left behind. */
    method ProcessFile(model: Model, path: string, w: World)
      requires Valid()
      modifies this, store
      ensures Valid() && isProcessing == old(isProcessing)
      ensures store.State() == HandleAll(old(store.State()), PathAttempts(model, isProcessing, path, w))
      ensures tempFiles <= old(tempFiles)
    {
      match Route(path)
      case Image =>
        if model == NudeNetModel {
          NudeClassifyImage(path, w);
        } else {
          DeepClassifyImage(path, w);
        }
      case Video =>
        if model == NudeNetModel {
          NudeClassifyVideo(path, w);
        } else {
          DeepClassifyVideo(path, w);
        }
      case Unsupported =>
    }

    /** One iteration of the queue drain, with the stop request arriving before path number `stop`. */
    method ScanOne(model: Model, ghost start: Store, ghost live: bool, stop: nat, queue: seq<string>, n: nat, w: World)
      requires n < |queue|
      requires Valid() && isProcessing == (live && n <= stop)
      requires Scanned(store.State(), start, model, live, stop, queue, n, w)
      modifies this, store
      ensures Valid() && isProcessing == (live && n + 1 <= stop)
      ensures Scanned(store.State(), start, model, live, stop, queue, n + 1, w)
      ensures tempFiles <= old(tempFiles)
    {
      if n == stop {
        StopScanning();
      }
      ProcessFile(model, queue[n], w);
      ScanStep(model, start, live, stop, queue[..n], queue[n], w);
      TakeSnoc(queue, n);
    }

    /** `classify_files_in_folder` with the GUI's closures over the enumerated `queue`, drained in order;
        the user stops the scan just before path number `stop` is taken (never, when `stop` is past the
        end). */
    method Scan(model: Model, queue: seq<string>, w: World, stop: nat)
      requires Valid()
      modifies this, store
      ensures Valid() && isProcessing == (old(isProcessing) && |queue| < stop)
      ensures store.State() == HandleAll(old(store.State()), ScanAttempts(model, old(isProcessing), stop, queue, w))
      ensures tempFiles <= old(tempFiles)
    {
      ghost var start := store.State();
      ghost var live := isProcessing;
      var n := 0;
      while n < |queue|
        invariant n <= |queue|
        invariant Valid() && isProcessing == (live && n <= stop)
        invariant Scanned(store.State(), start, model, live, stop, queue, n, w)
        invariant tempFiles <= old(tempFiles)
      {
        ScanOne(model, start, live, stop, queue, n, w);
        n := n + 1;
      }
      if n == stop {
        StopScanning();
      }
      assert queue[..n] == queue;
    }

    /** `process_files` once the model is chosen: clear the shared list, load the resume set (nothing
        reads it), scan, and unless the user stopped the scan, save the list and log how many entries the
        list holds and how many of them are flagged. A save that raises (a DeepStack image's list of
        labels cannot be stored) lands in the `except`: nothing is logged and the file is as it was. The
        logged counts are the run's own only while no batch was saved on the way (see
        `SummaryMissesSavedBatches` and `RunSummaryCountsRun`). */
    method ProcessFiles(model: Model, queue: seq<string>, w: World, stop: nat) returns (summary: Option<(nat, nat)>)
      requires Valid()
      modifies this, store
      ensures Valid()
      ensures var recorded := Accepted(ScanAttempts(model, old(isProcessing), stop, queue, w));
        && (summary.Some? <==> old(isProcessing) && |queue| < stop && AllStorable(store.buffer))
        && (summary.Some? ==> summary.value == LoggedSummary(store.buffer))
        && (summary.Some? && |recorded| < BatchSize ==> summary.value == (|recorded|, CountDetected(recorded)))
        && (summary.Some? ==> DataRows(store.sheet) == DataRows(old(store.sheet)) + RowsOf(recorded))
        && (summary.None? ==> Ledger(store.State()) == DataRows(old(store.sheet)) + RowsOf(recorded))
      ensures tempFiles <= old(tempFiles)
    {
      store.buffer := [];
      var existing := store.LoadExistingReport();
      ghost var start := store.State();
      ghost var attempts := ScanAttempts(model, isProcessing, stop, queue, w);
      Scan(model, queue, w, stop);
      ClearedRun(start, attempts);
      summary := None;
      if isProcessing {
        var saved := store.SaveReport(store.buffer);
        if saved {
          summary := Some(LoggedSummary(store.buffer));
        }
      }
    }
  }

  /** The loop's exit at a flagged frame agrees with `Tried`, `AnyFlags` and `Collected`. */
  lemma FlaggedAt<R>(vs: seq<FrameVerdict<R>>, i: nat)
    requires i < |vs| && FrameFlags(vs[i]) && forall j :: 0 <= j < i ==> !FrameFlags(vs[j])
    ensures Tried(vs) == i + 1 && AnyFlags(vs) && Collected(vs) == Gathered(vs[..i + 1])
  {
    TriedAfterClean(vs, i);
  }

  /** The loop's exit after the last frame agrees with `Tried`, `AnyFlags` and `Collected`. */
  lemma NoneFlagged<R>(vs: seq<FrameVerdict<R>>)
    requires forall j :: 0 <= j < |vs| ==> !FrameFlags(vs[j])
    ensures Tried(vs) == |vs| && !AnyFlags(vs) && Collected(vs) == Gathered(vs[..|vs|])
  {
    TriedAfterClean(vs, |vs|);
  }

  /** The store after the first `n` queued paths of a scan that started from `start`. */
  ghost predicate Scanned(s: Store, start: Store, model: Model, live: bool, stop: nat, queue: seq<string>, n: nat, w: World) {
    n <= |queue| && s == HandleAll(start, ScanAttempts(model, live, stop, queue[..n], w))
  }

  /** One more queued path: its calls follow those of the paths before it. */
  lemma ScanStep(model: Model, start: Store, live: bool, stop: nat, done: seq<string>, path: string, w: World)
    ensures HandleAll(HandleAll(start, ScanAttempts(model, live, stop, done, w)),
                      PathAttempts(model, live && |done| < stop, path, w))
         == HandleAll(start, ScanAttempts(model, live, stop, done + [path], w))
  {
    SnocTake(done, path);
    HandleAllAppend(start, ScanAttempts(model, live, stop, done, w), PathAttempts(model, live && |done| < stop, path, w));
  }

  /** `sum(1 for entry in nudity_report if entry.get('nudity_detected', False))`. */
  function CountDetected(es: seq<Entry>): (n: nat)
    ensures n <= |es|
    decreases |es|
  {
    if es == [] then 0 else CountDetected(es[..|es| - 1]) + (if es[|es| - 1].nudityDetected then 1 else 0)
  }

  /** Counting two runs of entries adds their counts. */
  lemma {:induction false} CountDetectedAppend(a: seq<Entry>, b: seq<Entry>)
    ensures CountDetected(a + b) == CountDetected(a) + CountDetected(b)
    decreases |b|
  {
    if b == [] {
      assert a + b == a;
    } else {
      CountDetectedAppend(a, b[..|b| - 1]);
      AppendTakeLast(a, b);
    }
  }

  /** Every entry is counted exactly when every entry is flagged. */
  lemma {:induction false} CountDetectedAll(es: seq<Entry>)
    ensures CountDetected(es) == |es| <==> forall i :: 0 <= i < |es| ==> es[i].nudityDetected
    decreases |es|
  {
    if es != [] {
      var front := es[..|es| - 1];
      CountDetectedAll(front);
      assert forall i :: 0 <= i < |front| ==> front[i] == es[i];
    }
  }

  /** A report row whose `Nudity Detected` cell is true. */
  predicate RowFlagged(r: Row) {
    |r| > 1 && r[1] == Bool(true)
  }

  function CountFlaggedRows(rows: seq<Row>): (n: nat)
    ensures n <= |rows|
    decreases |rows|
  {
    if rows == [] then 0 else CountFlaggedRows(rows[..|rows| - 1]) + (if RowFlagged(rows[|rows| - 1]) then 1 else 0)
  }

  /** Counting flagged rows written for some entries is counting the flagged entries. */
  lemma {:induction false} CountFlaggedRowsOf(es: seq<Entry>)
    ensures CountFlaggedRows(RowsOf(es)) == CountDetected(es)
    decreases |es|
  {
    if es != [] {
      var front := es[..|es| - 1];
      CountFlaggedRowsOf(front);
      assert RowsOf(es)[..|es| - 1] == RowsOf(front);
    }
  }

  /** The numbers `process_files` logs, as written: the length of the shared list and how many of its
      entries are flagged. */
  function LoggedSummary(buffer: seq<Entry>): (r: (nat, nat))
    ensures r.1 <= r.0
  {
    (|buffer|, CountDetected(buffer))
  }

  /** As written, the log counts only what is left in the shared list, which every full batch clears:
      a scan that records exactly `BatchSize` flagged files that can be stored (NudeNet's and DeepStack
      videos' JSON text) from an empty list ends with an empty list, so the log says no file was
      processed and none flagged. */
  lemma SummaryMissesSavedBatches(s: Store, attempts: seq<Attempt>)
    requires Consistent(s) && s.buffer == [] && AllStorable(Accepted(attempts))
    requires |Accepted(attempts)| == BatchSize
    requires forall i :: 0 <= i < |Accepted(attempts)| ==> Accepted(attempts)[i].nudityDetected
    ensures LoggedSummary(HandleAll(s, attempts).buffer) == (0, 0)
    ensures CountDetected(Accepted(attempts)) == BatchSize
  {
    BufferIsSinceCheckpoint(s, attempts);
    CountDetectedAll(Accepted(attempts));
  }

  /** The intended numbers: the rows added to the report since `mark`, and how many are flagged. */
  function RunSummary(s: Store, mark: nat): (nat, nat)
    requires mark <= |Ledger(s)|
  {
    (|Ledger(s)| - mark, CountFlaggedRows(Ledger(s)[mark..]))
  }

  /** Counted over the ledger, the numbers are those of the run, whatever checkpoints happened. */
  lemma RunSummaryCountsRun(s: Store, attempts: seq<Attempt>)
    requires HasHeaderRow(s.sheet)
    ensures |Ledger(s)| <= |Ledger(HandleAll(s, attempts))|
    ensures RunSummary(HandleAll(s, attempts), |Ledger(s)|) == (|Accepted(attempts)|, CountDetected(Accepted(attempts)))
  {
    HandleAllExtendsLedger(s, attempts);
    AppendSplit(Ledger(s), RowsOf(Accepted(attempts)));
    CountFlaggedRowsOf(Accepted(attempts));
  }

  /** A scan from a cleared list: the ledger ends with the run's rows; saving what is left in the list
      puts every row of the run into the report file when the list can be stored, and leaves the file as
      it was otherwise; below one batch the list is exactly the run's entries. */
  lemma ClearedRun(s: Store, attempts: seq<Attempt>)
    requires HasHeaderRow(s.sheet) && s.buffer == []
    ensures var t := HandleAll(s, attempts);
      var recorded := Accepted(attempts);
      && HasHeaderRow(t.sheet)
      && Ledger(t) == DataRows(s.sheet) + RowsOf(recorded)
      && (AllStorable(t.buffer) ==> DataRows(Saved(t.sheet, t.buffer)) == DataRows(s.sheet) + RowsOf(recorded))
      && (!AllStorable(t.buffer) ==> Saved(t.sheet, t.buffer) == t.sheet)
      && (|recorded| < BatchSize ==> t.buffer == recorded)
  {
    var t := HandleAll(s, attempts);
    LedgerOfCleared(s);
    HandleAllExtendsLedger(s, attempts);
    if AllStorable(t.buffer) {
      SavedIsLedger(t);
    }
    if |Accepted(attempts)| < BatchSize {
      BelowBatchKeepsAll(s, attempts);
      assert [] + Accepted(attempts) == Accepted(attempts);
    }
  }

  lemma LedgerOfCleared(s: Store)
    requires s.buffer == []
    ensures Ledger(s) == DataRows(s.sheet)
  {
    assert RowsOf(s.buffer) == [];
    assert DataRows(s.sheet) + [] == DataRows(s.sheet);
  }

  /** Saving the whole list persists the ledger. */
  lemma SavedIsLedger(t: Store)
    requires HasHeaderRow(t.sheet) && AllStorable(t.buffer)
    ensures DataRows(Saved(t.sheet, t.buffer)) == Ledger(t)
  {
    SavedDataRows(t.sheet, t.buffer);
  }

  /** A video is flagged exactly when the detector flags the frame file of some readable frame whose
      index is a multiple of five. */
  lemma NudeVideoFlaggedIff(path: string, w: World)
    ensures NudeVideoEntry(path, w).nudityDetected <==>
      exists i: nat :: i < w.frameCount(path) && i % 5 == 0 && FrameFlags(NudeFrame(w.detectFrame(path, TempFrameName(i))))
  {
    var vs := NudeFrames(path, SampledNames(w.frameCount(path)), w);
    if AnyFlags(vs) {
      FlaggedFrameIsSampled(path, w);
    }
    if exists i: nat :: i < w.frameCount(path) && i % 5 == 0 && FrameFlags(NudeFrame(w.detectFrame(path, TempFrameName(i)))) {
      var i: nat :| i < w.frameCount(path) && i % 5 == 0 && FrameFlags(NudeFrame(w.detectFrame(path, TempFrameName(i))));
      SampledFrameFlags(path, w, i);
    }
  }

  lemma FlaggedFrameIsSampled(path: string, w: World)
    requires AnyFlags(NudeFrames(path, SampledNames(w.frameCount(path)), w))
    ensures exists i: nat :: i < w.frameCount(path) && i % 5 == 0 && FrameFlags(NudeFrame(w.detectFrame(path, TempFrameName(i))))
  {
    var count := w.frameCount(path);
    var names := SampledNames(count);
    var vs := NudeFrames(path, names, w);
    var k :| 0 <= k < |vs| && FrameFlags(vs[k]);
    SampledNamesDistinct(count);
    assert names[k] == TempFrameName(5 * k);
    SampledClosedForm(count);
    SampleIndexBound(count, k);
    var i: nat := 5 * k;
    assert FrameFlags(NudeFrame(w.detectFrame(path, TempFrameName(i))));
  }

  lemma SampleIndexBound(count: nat, k: nat)
    requires k < (count + 4) / 5
    ensures 5 * k < count && (5 * k) % 5 == 0
  {
  }

  lemma SampledFrameFlags(path: string, w: World, i: nat)
    requires i < w.frameCount(path) && i % 5 == 0 && FrameFlags(NudeFrame(w.detectFrame(path, TempFrameName(i))))
    ensures AnyFlags(NudeFrames(path, SampledNames(w.frameCount(path)), w))
  {
    var count := w.frameCount(path);
    var vs := NudeFrames(path, SampledNames(count), w);
    SampledClosedForm(count);
    SampledNamesDistinct(count);
    var k := i / 5;
    assert 5 * k == i;
    assert FrameFlags(vs[k]);
  }

  /** A video OpenCV cannot read is still recorded, as not flagged and with no records. */
  lemma UnreadableVideoIsClean(path: string, w: World)
    requires w.frameCount(path) == 0
    ensures NudeVideoEntry(path, w) == Entry(path, false, Records([]), w.clock(path))
    ensures DeepVideoEntry(path, w) == Entry(path, false, Records([]), w.clock(path))
  {
    assert SampledNames(0) == [];
    assert NudeFrames(path, [], w) == [];
    assert DeepFrames(path, [], w) == [];
    assert AsRecords([]) == [];
  }

  /** A stop request cuts the scan short: nothing is recorded for the paths from the stop on. */
  lemma {:induction false} StopEndsRecording(model: Model, live: bool, stop: nat, queue: seq<string>, w: World)
    requires stop <= |queue|
    ensures ScanAttempts(model, live, stop, queue, w) == ScanAttempts(model, live, stop, queue[..stop], w)
    decreases |queue|
  {
    if |queue| > stop {
      var front := queue[..|queue| - 1];
      StopEndsRecording(model, live, stop, front, w);
      assert front[..stop] == queue[..stop];
      assert PathAttempts(model, false, queue[|queue| - 1], w) == [];
      assert ScanAttempts(model, live, stop, front, w) + [] == ScanAttempts(model, live, stop, front, w);
    } else {
      assert queue[..stop] == queue;
    }
  }

  /** The resume set is loaded but never consulted: a file that the report already lists is classified
      and recorded again. */
  lemma KnownFileIsRecordedAgain(model: Model, s: Store, path: string, w: World)
    requires HasHeaderRow(s.sheet) && Str(path) in Loaded(s.sheet)
    requires FileEntry(model, path, w).Some? && Appends(FileEntry(model, path, w).value, w.copyOk(path))
    ensures Ledger(HandleAll(s, ScanAttempts(model, true, 1, [path], w))) == Ledger(s) + [RowOf(FileEntry(model, path, w).value)]
  {
    SingleScan(model, path, w);
    HandleOneLedger(s, FileEntry(model, path, w).value, w.copyOk(path));
  }

  lemma SingleScan(model: Model, path: string, w: World)
    requires FileEntry(model, path, w).Some?
    ensures ScanAttempts(model, true, 1, [path], w) == [Attempt(FileEntry(model, path, w).value, w.copyOk(path))]
  {
    assert [path][..0] == [];
  }

  lemma HandleOneLedger(s: Store, e: Entry, copyOk: bool)
    requires HasHeaderRow(s.sheet) && Appends(e, copyOk)
    ensures Ledger(HandleAll(s, [Attempt(e, copyOk)])) == Ledger(s) + [RowOf(e)]
  {
    HandleAllOne(s, [Attempt(e, copyOk)]);
    HandleExtendsLedger(s, e, copyOk);
  }
}
