/**
 * Routing a path to a classifier by its extension, and draining the queue of enumerated paths
 * (`process_file` and `process_file_queue` of nudity_detector_utils.py; the NudeNet script has
 * copies of both with the same extension sets). The worker threads only run this drain in
 * parallel; here it is one sequential loop.
 */
module Dispatch {
  import opened Strings
  import opened Paths
  import opened Seqs

  const ImageExtensions: set<string> := {".png", ".jpg", ".jpeg", ".gif", ".bmp", ".webp", ".tiff"}
  const VideoExtensions: set<string> := {".mp4", ".avi", ".mkv", ".mov", ".vob", ".wmv", ".flv", ".3gp", ".webm"}

  /** The kind of a file, as far as the scanner is concerned. */
  datatype Kind = Image | Video | Unsupported

  /** The branch `process_file` takes for a path: its lower-cased extension decides. Because the two
      extension sets are disjoint, a path is a video exactly when its extension is a video extension. */
  function Route(path: string): (k: Kind)
    ensures k == Image <==> Lower(Ext(path)) in ImageExtensions
    ensures k == Video <==> Lower(Ext(path)) in VideoExtensions
    ensures k == Unsupported <==> Lower(Ext(path)) !in ImageExtensions + VideoExtensions
  {
    var ext := Lower(Ext(path));
    if ext in ImageExtensions then Image
    else if ext in VideoExtensions then Video
    else Unsupported
  }

  /** A call of one of the two classifier callbacks. */
  datatype Call = ClassifyImage(path: string) | ClassifyVideo(path: string)

  /** `process_file`: the classifier calls it makes for one path (none for an unsupported one). */
  function ProcessFile(path: string): (calls: seq<Call>)
    ensures |calls| <= 1
    ensures calls == [ClassifyImage(path)] <==> Route(path) == Image
    ensures calls == [ClassifyVideo(path)] <==> Route(path) == Video
    ensures calls == [] <==> Route(path) == Unsupported
  {
    match Route(path)
    case Image => [ClassifyImage(path)]
    case Video => [ClassifyVideo(path)]
    case Unsupported => []
  }

  /** The calls made while draining a queue holding `queue`, front first. */
  function Calls(queue: seq<string>): seq<Call> {
    if queue == [] then [] else Calls(queue[..|queue| - 1]) + ProcessFile(queue[|queue| - 1])
  }

  /** `process_file_queue`: take paths from the front of the queue until it is empty, handing each to
      `process_file`; the calls made are those of every queued path, in queue order. */
  method ProcessFileQueue(queue: seq<string>) returns (calls: seq<Call>)
    ensures calls == Calls(queue)
  {
    var pending := queue;
    ghost var done: seq<string> := [];
    calls := [];
    while pending != []
      invariant done + pending == queue
      invariant calls == Calls(done)
      decreases |pending|
    {
      var path := pending[0];
      ShiftFront(done, pending);
      CallsSnoc(done, path);
      done, pending := done + [path], pending[1..];
      calls := calls + ProcessFile(path);
    }
    assert done + [] == done;
  }

  /** One more queued path adds its own calls after the others. */
  lemma CallsSnoc(queue: seq<string>, path: string)
    ensures Calls(queue + [path]) == Calls(queue) + ProcessFile(path)
  {
    SnocTake(queue, path);
  }

  /** Draining two queues one after the other makes the calls of the first, then those of the second. */
  lemma {:induction false} CallsAppend(a: seq<string>, b: seq<string>)
    ensures Calls(a + b) == Calls(a) + Calls(b)
    decreases |b|
  {
    if b == [] {
      assert a + b == a;
    } else {
      var b', last := b[..|b| - 1], b[|b| - 1];
      CallsAppend(a, b');
      LastSplit(b);
      AppendAssoc(a, b', [last]);
      CallsSnoc(a + b', last);
      CallsSnoc(b', last);
      AppendAssoc(Calls(a), Calls(b'), ProcessFile(last));
    }
  }

  /** Every queued path is handed to a classifier at most once: there are never more calls than paths. */
  lemma {:induction false} CallsAtMostOnePerPath(queue: seq<string>)
    ensures |Calls(queue)| <= |queue|
    decreases |queue|
  {
    if queue != [] {
      CallsAtMostOnePerPath(queue[..|queue| - 1]);
    }
  }

  /** `classify_image` is called with `p` exactly when `p` was queued and has an image extension, and
      `classify_video` exactly when it was queued and has a video extension; so no path reaches both. */
  lemma {:induction false} CallsCover(queue: seq<string>, p: string)
    ensures ClassifyImage(p) in Calls(queue) <==> p in queue && Route(p) == Image
    ensures ClassifyVideo(p) in Calls(queue) <==> p in queue && Route(p) == Video
    decreases |queue|
  {
    if queue != [] {
      var front := queue[..|queue| - 1];
      CallsCover(front, p);
      LastSplit(queue);
    }
  }
}
