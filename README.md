# nudity-detector, modelled in Dafny

The scanner walks a folder and hands every file with a supported extension to a detector. NudeNet
runs in-process; DeepStack is an HTTP server. A flagged file is copied into the `exposed` directory,
and each verdict becomes an entry of a report. The repository has four front ends over the same rules:

- `nudity_detector_utils.py` holds the shared report store:
  - an in-memory list;
  - an Excel sheet, checkpointed every 500 entries and merged on save;
  - a resume set read back from the sheet;
  - the extension dispatch and the queue drain that the worker threads run.
- `nudity-detector-deepstack.py` posts each new file to DeepStack. It skips the files that were
  already in the report when the script started.
- `nudity-detector-nudenet.py` is a stand-alone NudeNet scanner. It records clean files only while
  DEBUG logging is on, and it writes a fresh three-column workbook at the end.
- `nudity-detector.py` is the original sequential NudeNet script. It picks the classifier by the
  file name's suffix and writes a plain-text report.
- `nudity_detector_gui.py` has the classification closures of the GUI (`process_files`):
  - image and video classifiers for both models;
  - video frame sampling (every fifth frame, written to `temp_frame_{i}.jpg`);
  - a frame loop that stops at the first flagged frame;
  - temp-file cleanup;
  - the summary logged at the end.

The model is sequential. The queue drain is a loop, and `handle_results` is one atomic step. The
world outside is an input:

- the detector's output per path or frame file;
- the DeepStack reply;
- the number of readable frames;
- the clock;
- whether a copy into `exposed` works;
- the folder walk.

Modules, one per file plus shared helpers:

- `Strings`, `Paths`, `Seqs`, `Wrappers`: `str.lower`, `endswith`, `join`, `os.path.splitext`,
  `basename` and `join`, and general sequence facts.
- `Dispatch`: `process_file` and `process_file_queue`.
- `Classification`: the NudeNet verdict rule shared by three front ends.
- `Report`: the report store. The class `ReportStore` has methods proved against the value-level
  functions `Saved`, `Checkpoint` and `Handle`.
- `DeepStack`, `NudeNetScript`, `Legacy`: the three scripts.
- `Gui`: the class `GuiSession` and the GUI closures.

Four behaviours of the code worth knowing:

- The resume set is not applied when files are enumerated. The DeepStack classifiers consult it when
  they are called (`DeepStack.Decide`), and the GUI loads it but never consults it
  (`Gui.KnownFileIsRecordedAgain`).
- The GUI saves the report at the end only when the scan was not stopped (`Gui.GuiSession.ProcessFiles`).
- The NudeNet script does not merge. Its save replaces the workbook (`NudeNetScript.WrittenReplaces`).
- The DeepStack script, and the GUI's DeepStack image classifier, hand `handle_results` a Python list
  of labels. openpyxl cannot put a list in a cell, so every save that meets such an entry raises
  before the workbook is written, and the list is not cleared (`Report.Storable`, `Report.Saved`,
  `Report.Checkpoint`; see Findings).

## Model

| member | source | states |
|---|---|---|
| Strings.Lower | nudity_detector_utils.py:20 | lowering keeps the length and lowers each character on its own |
| Strings.Join | nudity-detector-nudenet.py:132 | joining no parts gives the empty string; joining one part gives that part |
| Strings.JoinSnoc | nudity-detector-nudenet.py:132 | one more part is joined after the separator, so the separator stands between every two consecutive parts |
| Strings.ParseNatToString | nudity_detector_gui.py:258 | the decimal digits of a frame number read back as that number |
| Strings.NatToStringInjective | nudity_detector_gui.py:258 | two different frame numbers never format to the same digits |
| Paths.RFind | nudity_detector_utils.py:19 | the last-occurrence search returns -1 or an index inside the string |
| Paths.RFindBelowSpec | nudity_detector_utils.py:19 | a found index holds the character, and no later index below the bound does |
| Paths.RFindBelowIsLast | nudity_detector_utils.py:19 | an occurrence with none after it is exactly what the search returns |
| Paths.HasNonDotMeans | nudity_detector_utils.py:19 | the recursive test means that some character in the range is not a dot |
| Paths.ExtIsPlainTail | nudity_detector_utils.py:19 | the `splitext` extension is empty, or a suffix of the path made of one leading dot and no separator |
| Paths.ExtOfPlainTail | nudity_detector_utils.py:19 | a path ending in `.xyz`, with a non-dot before that dot in the last component, has extension `.xyz` |
| Paths.HiddenNameHasNoExt | nudity_detector_utils.py:19 | a file named like `.jpg` has no extension |
| Paths.Basename | nudity_detector_utils.py:102 | the basename holds no separator and is a suffix of the path |
| Paths.PathJoin | nudity_detector_utils.py:44 | the joined path ends with the file name |
| Paths.BasenameOfJoin | nudity_detector_utils.py:44 | the basename of a directory joined with a plain file name is that name |
| Paths.CopyToExposed | nudity_detector_utils.py:102 | the archive gains exactly `basename(path) -> path`; other names keep their copies; a same-named copy is overwritten |
| Dispatch.Route | nudity_detector_utils.py:10-26 | a path is an image iff its lower-cased extension is an image extension, a video iff it is a video extension, unsupported iff neither |
| Dispatch.ProcessFile | nudity_detector_utils.py:17-26 | `process_file` makes one image call, one video call or none, exactly as the route says |
| Dispatch.ProcessFileQueue | nudity_detector_utils.py:28-33 | draining the queue makes the calls of every queued path, in queue order |
| Dispatch.CallsAppend | nudity_detector_utils.py:28-33 | draining two queues one after the other makes the first queue's calls, then the second's |
| Dispatch.CallsAtMostOnePerPath | nudity_detector_utils.py:28-33 | there are never more classifier calls than queued paths |
| Dispatch.CallsCover | nudity_detector_utils.py:17-26 | the image classifier sees `p` iff `p` was queued and is an image; likewise for video; so no path reaches both |
| Classification.Flagged | nudity-detector-nudenet.py:37 | flagged iff some detection has one of the five classes and a score strictly above 0.6 |
| Classification.Classifiers | nudity-detector-nudenet.py:33 | the class list is no longer than the detections and holds only the five classes |
| Classification.AsRecords | nudity_detector_gui.py:228-229 | one (class, score) record per detection, in order |
| Classification.ClassifiersAppend | nudity-detector-nudenet.py:33 | the class filter keeps detector order across concatenation |
| Classification.ClassifiersMembers | nudity-detector-nudenet.py:33 | a class is listed iff it is one of the five and some detection carries it, whatever the score |
| Classification.ClassifiersIgnoreScores | nudity-detector-nudenet.py:33 | outputs with the same classes in the same order give the same class list |
| Classification.FlaggedHasClassifiers | nudity-detector-nudenet.py:33-37 | a flagging detection makes the file flagged and its class appears in the list |
| Classification.ThresholdIsStrict | nudity-detector-nudenet.py:37 | a score of exactly 0.6 does not flag; a class outside the five never flags |
| Report.RowsOf | nudity_detector_utils.py:69-70 | one row per entry, in entry order |
| Report.SavedShape | nudity_detector_utils.py:52-72 | an empty save, or one with an entry whose classes are a list, leaves the file as it was; otherwise the old rows (or a new header) stay and one row per entry follows, in order |
| Report.SavedDataRows | nudity_detector_utils.py:58-72 | a save keeps the first row and adds exactly the entries' rows to the data rows when every entry can be stored, and none otherwise |
| Report.LoadAfterSave | nudity_detector_utils.py:81-89 | after a save, the loaded resume set is the old one plus exactly the saved file names; after a save that raised, the old one |
| Report.LoadedAfterRows | nudity_detector_utils.py:87-88 | the resume set depends only on the data rows; rows added for entries add their file names |
| Report.EmptySheetHidesFirstEntry | nudity_detector_utils.py:87-88 | in an existing file with an empty sheet, the first saved entry lands on row 1 and is never loaded |
| Report.HandleExtendsLedger | nudity_detector_utils.py:91-105 | one call grows persisted rows ++ list by exactly the new entry's row (also when its checkpoint raises), or not at all when the copy fails; the list stays below 500 when the entries can be stored |
| Report.HandleExposed | nudity_detector_utils.py:101-102 | the archive gains `basename(file) -> file` iff a flagged entry is appended |
| Report.HandleAtThresholdPersists | nudity_detector_utils.py:75-79 | the entry that fills a batch of storable entries leaves an empty list and a file holding the whole batch; with a list-valued entry the list keeps it and the file is unchanged |
| Report.HandleAllAppend | nudity_detector_utils.py:91-105 | two runs of calls act as their concatenation |
| Report.AcceptedAppend | nudity_detector_utils.py:91-105 | the appended entries of two runs are the first run's, then the second's |
| Report.HandleAllExtendsLedger | nudity_detector_utils.py:91-105 | nothing is lost from persisted rows ++ list: after any run, they are the old ones plus the appended entries in call order, whether each checkpoint saved or raised |
| Report.HandleAllKeepsConsistent | nudity_detector_utils.py:75-79 | while every entry can be stored, the list stays below 500 and holds only storable entries |
| Report.UnstorableNeverFlushed | nudity_detector_utils.py:75-79 | list-valued entries never leave the list: it keeps every one of them and the file never changes |
| Report.BelowBatchKeepsAll | nudity_detector_utils.py:77 | below 500 entries no checkpoint fires: the list keeps every appended entry and the file is unchanged |
| Report.BufferIsSinceCheckpoint | nudity_detector_utils.py:75-79 | while every entry can be stored, the list holds the last (appended count mod 500) entries |
| Report.ReportStore.constructor | nudity_detector_utils.py:13-14 | an empty list, and the report file and the `exposed` directory as found on disk |
| Report.ReportStore.SaveReport | nudity_detector_utils.py:52-73 | succeeds iff every entry can be stored; the file becomes `Saved(old file, data)` (unchanged when the call raised); the list and archive are unchanged |
| Report.ReportStore.CheckAndSaveReport | nudity_detector_utils.py:75-79 | raises iff the list has reached the batch size and holds a list-valued entry; the store changes as `Checkpoint` says: saved and cleared iff full and storable, else unchanged |
| Report.ReportStore.LoadExistingReport | nudity_detector_utils.py:81-89 | returns the first cell of every row after the first, or nothing when the file is missing |
| Report.ReportStore.HandleResults | nudity_detector_utils.py:91-105 | returns normally iff the copy is not needed or works and its checkpoint does not raise; persisted rows ++ list grow by exactly the entry whenever it was appended; the first row is kept; the list stays below 500 for storable entries |
| NudeNetScript.ClassifiedSpec | nudity-detector-nudenet.py:30-56 | at most one entry, about the path, with the in-set classes, flagged as the rule says; `exposed` changes only for a `True` entry |
| NudeNetScript.ClassifiedAppendsWhen | nudity-detector-nudenet.py:41-54 | an entry is appended iff detection succeeds and (flagged and the copy works, or clean and DEBUG is on) |
| NudeNetScript.CleanFileUnrecordedWithoutDebug | nudity-detector-nudenet.py:48-54 | with DEBUG off, a clean file changes nothing |
| NudeNetScript.DebugRecordsEverySuccess | nudity-detector-nudenet.py:41-54 | with DEBUG on, a supported file that is detected gets exactly one entry with the rule's verdict and classes |
| NudeNetScript.ProcessedExtends | nudity-detector-nudenet.py:86-94 | one path adds at most one entry, about that path, and only if it is supported |
| NudeNetScript.DrainedExtends | nudity-detector-nudenet.py:97-101 | a drain only appends, at most one entry per queued path, each about a queued supported path |
| NudeNetScript.DrainedAppend | nudity-detector-nudenet.py:97-101 | draining two queues one after the other equals draining their concatenation |
| NudeNetScript.LabelRows | nudity-detector-nudenet.py:131-132 | one three-cell row per entry, in order |
| NudeNetScript.WrittenReplaces | nudity-detector-nudenet.py:117-134 | a non-empty save replaces earlier rows: header, then exactly the new rows; reading back gives exactly their file names |
| NudeNetScript.WrittenEmptyKeepsFile | nudity-detector-nudenet.py:118-120 | an empty save leaves the file as it was |
| NudeNetScript.LabelRowClasses | nudity-detector-nudenet.py:132 | no classes are written as an empty text; one class is written as itself |
| NudeNetScript.NudeNetRun.constructor | nudity-detector-nudenet.py:25-27 | an empty list, and the report file and the `exposed` directory as found on disk |
| NudeNetScript.NudeNetRun.Classify | nudity-detector-nudenet.py:30-84 | the globals change as `Classified` says; the report file is untouched |
| NudeNetScript.NudeNetRun.ProcessFile | nudity-detector-nudenet.py:86-94 | the globals change as `Processed` says |
| NudeNetScript.NudeNetRun.DrainOne | nudity-detector-nudenet.py:98-101 | one loop iteration extends the drain by the next queued path |
| NudeNetScript.NudeNetRun.ProcessFileQueue | nudity-detector-nudenet.py:97-101 | the globals end as the drain of the whole queue, in order |
| NudeNetScript.NudeNetRun.SaveReport | nudity-detector-nudenet.py:117-135 | the file becomes `Written(old file, data)`; the globals are unchanged |
| NudeNetScript.NudeNetRun.Run | nudity-detector-nudenet.py:138-145 | the file ends with exactly this run's entries, in processing order |
| Legacy.NameKind | nudity-detector.py:82-87 | image iff the lower-cased name ends with an image suffix; video iff it does not and ends with a video suffix |
| Legacy.ClassifiedSpec | nudity-detector.py:20-44 | every detected file gets exactly one entry, with the in-set classes when flagged and none otherwise; a detector error or failed copy records nothing |
| Legacy.InDir | nudity-detector.py:79-80 | the (directory, name) pairs of one directory, in order |
| Legacy.VisitedExtends | nudity-detector.py:79-87 | one walked file adds at most one entry, about its joined path, and only for a supported suffix |
| Legacy.VisitsAppend | nudity-detector.py:78-87 | entries come out in traversal order |
| Legacy.VisitsExtends | nudity-detector.py:74-87 | the report only grows, at most one entry per walked file, each about a walked supported file |
| Legacy.TiffSkippedHere | nudity-detector.py:82-84 | `.tiff` is an image for the extension sets but is skipped by this script's suffixes |
| Legacy.HiddenNameIsImageHere | nudity-detector.py:82 | a file named `.jpg` is an image here, while `splitext` sees no extension |
| Legacy.ReportTextAppend | nudity-detector.py:98-101 | the report for a longer list extends the report for any prefix |
| Legacy.EntryLineIsOneLine | nudity-detector.py:101 | an entry's line ends with its only newline and starts with `File: ` and the path |
| Legacy.LegacyRun.constructor | nudity-detector.py:91 | an empty list, and the `exposed` directory as found on disk |
| Legacy.LegacyRun.Classify | nudity-detector.py:20-71 | the globals change as `Classified` says |
| Legacy.LegacyRun.Visit | nudity-detector.py:80-87 | one walked file is handled as `Visited` says |
| Legacy.LegacyRun.VisitNext | nudity-detector.py:79-87 | one inner-loop step extends the visits by that file |
| Legacy.LegacyRun.ClassifyFilesInFolder | nudity-detector.py:74-87 | the globals end as the visits of every walked file, in walk order |
| Legacy.LegacyRun.WriteReport | nudity-detector.py:97-101 | the text is the header line followed by one line per entry |
| Legacy.RunScript | nudity-detector.py:90-101 | the report text covers the whole walk, in traversal order |
| DeepStack.SkipIgnoresReply | nudity-detector-deepstack.py:19-21 | a path in the resume set is skipped whatever the server would answer |
| DeepStack.DecideRecorded | nudity-detector-deepstack.py:29-41 | a new path is recorded iff the request gives status 200; flagged iff unsafe > 0.6; classes `["unsafe"]` iff flagged, else empty |
| DeepStack.MissingScoreIsClean | nudity-detector-deepstack.py:35 | a reply without an `unsafe` score is recorded as clean |
| DeepStack.LabelsOf | nudity-detector-deepstack.py:36-39 | the classes are a list exactly as written; joined, `[]` becomes the empty text and `["unsafe"]` the text `unsafe` |
| DeepStack.FileAttempts | nudity-detector-deepstack.py:36-39 | classifying one file makes at most one `handle_results` call |
| DeepStack.ClassifyFile | nudity-detector-deepstack.py:17-71 | the store changes by exactly the `handle_results` call the decision calls for, with the labels as a list (as written) or joined; a raise inside it is swallowed |
| DeepStack.PathAttempts | nudity_detector_utils.py:17-26 | one queued path makes at most one call |
| DeepStack.ProcessFile | nudity_detector_utils.py:17-26 | the store changes by the path's calls, checkpoints that raise included |
| DeepStack.ScanOne | nudity_detector_utils.py:30-33 | one iteration extends the scan by the next queued path |
| DeepStack.Scan | nudity-detector-deepstack.py:79 | the store changes by the calls of the whole queue, in order, checkpoints that raise included |
| DeepStack.Run | nudity-detector-deepstack.py:73-83 | as written, the final save raises iff a file was recorded and the file and resume set stay as they were; with joined labels, the file keeps its old rows and gains one row per recorded file, and the next run's resume set holds them all |
| DeepStack.ListLabelsNeverSaved | nudity-detector-deepstack.py:36-39 | as written, from an empty list no row reaches the file: the list holds every recorded entry and the final save leaves the file as it was, succeeding only when nothing was recorded |
| DeepStack.JoinedLabelsAreSaved | nudity-detector-deepstack.py:36-39 | with the labels joined, every entry can be stored and the final save leaves the file with its old data rows plus one row per recorded file, and the resume set gains exactly their names |
| DeepStack.PathAttemptsShape | nudity-detector-deepstack.py:17-21 | a path's calls are about that path, which is supported and new |
| DeepStack.ScanAttemptsAreNewQueuedFiles | nudity-detector-deepstack.py:19-21 | every call is about a queued, supported path that is not in the resume set |
| DeepStack.ScanRecordsOnlyNewQueuedFiles | nudity-detector-deepstack.py:19-21 | every recorded file was queued, is supported, and was not in the resume set; its classes are a list exactly as written |
| DeepStack.ScanRecordsEachFileOnce | nudity_detector_utils.py:42-44 | distinct enumerated paths give recorded entries about distinct files |
| DeepStack.ResumeSkipsRecordedFiles | nudity-detector-deepstack.py:15-21 | a second run over a report holding the first run's rows (as `JoinedLabelsAreSaved` leaves it) records none of the first run's files again |
| DeepStack.ResumeSetIsNotRefreshed | nudity-detector-deepstack.py:15 | the resume set is not updated during a run: a new path queued twice is recorded twice |
| Gui.SampledClosedForm | nudity_detector_gui.py:253-261 | `ceil(count/5)` frames are sampled, and the k-th is frame 5k |
| Gui.SampledMembers | nudity_detector_gui.py:257 | frame i is sampled iff it is readable and `i % 5 == 0` |
| Gui.TempFrameNameInjective | nudity_detector_gui.py:258 | different frames get different temp files |
| Gui.SampledNamesDistinct | nudity_detector_gui.py:257-260 | the k-th frame name is `temp_frame_{5k}.jpg`, and the names are pairwise distinct |
| Gui.TriedStopsAtFirstFlag | nudity_detector_gui.py:268-278 | frames before the last one classified are clean; the last is flagged iff any frame is; with no flagged frame, all are classified |
| Gui.GatheredAppend | nudity_detector_gui.py:274 | records are gathered frame by frame in order |
| Gui.FailedFrameIsSkipped | nudity_detector_gui.py:279-280 | a frame that raises adds nothing and does not stop the loop |
| Gui.FailedFrameFlagsNothing | nudity_detector_gui.py:365-374 | the video is flagged iff a frame after the failed one is |
| Gui.NudeVideoFlaggedIff | nudity_detector_gui.py:253-278 | a video is flagged iff some readable frame with index a multiple of 5 is flagged |
| Gui.UnreadableVideoIsClean | nudity_detector_gui.py:253-256 | a video with no readable frames is recorded as clean with no records |
| Gui.StopEndsRecording | nudity_detector_gui.py:218-219 | after the stop, nothing is recorded for the remaining paths |
| Gui.KnownFileIsRecordedAgain | nudity_detector_gui.py:392-397 | a file already listed in the report is classified and appended again |
| Gui.CountDetectedAppend | nudity_detector_gui.py:409 | counting flagged entries adds across concatenation |
| Gui.CountDetectedAll | nudity_detector_gui.py:409 | every entry is counted iff every entry is flagged |
| Gui.CountFlaggedRowsOf | nudity_detector_gui.py:409 | flagged rows written for entries number as many as the flagged entries |
| Gui.LoggedSummary | nudity_detector_gui.py:406-409 | the logged detected count never exceeds the logged processed count |
| Gui.SummaryMissesSavedBatches | nudity_detector_gui.py:406-409 | as written, 500 flagged storable entries from an empty list are logged as 0 processed and 0 flagged |
| Gui.RunSummaryCountsRun | nudity_detector_gui.py:406-409 | counted over persisted rows ++ buffer, the numbers are the run's appended and flagged entries, whatever checkpoints fired |
| Gui.ClearedRun | nudity_detector_gui.py:399-403 | from a cleared list, persisted rows ++ list end with the run's rows; the final save puts them all into the file when the list can be stored and leaves the file as it was otherwise; below 500 entries the list is the run's entries |
| Gui.GuiSession.constructor | nudity_detector_gui.py:164 | a started session: `is_processing` set, the given temp files, the store |
| Gui.GuiSession.StopScanning | nudity_detector_gui.py:182-186 | `is_processing` becomes false; the temp files are unchanged |
| Gui.GuiSession.SampleFrames | nudity_detector_gui.py:249-263 | the frames are the sampled names, or none when stopped; exactly those files are added |
| Gui.GuiSession.RemoveFrames | nudity_detector_gui.py:283-288 | every listed frame file is gone; nothing else is removed |
| Gui.GuiSession.NudeFrameLoop | nudity_detector_gui.py:265-281 | frames up to the first flagged one are asked; records are those frames'; flagged iff any frame is; nothing when stopped |
| Gui.GuiSession.DeepFrameLoop | nudity_detector_gui.py:354-375 | the same, for DeepStack frames: only status-200 answers count, flagged when the score is above 0.6 |
| Gui.GuiSession.NudeClassifyImage | nudity_detector_gui.py:217-237 | the store changes by one `handle_results` call with the rule's verdict and every detection, unless stopped or the detector raises |
| Gui.GuiSession.DeepClassifyImage | nudity_detector_gui.py:307-328 | the store changes by the DeepStack verdict's call, with the labels as a list, unless stopped or the status is not 200; a raising checkpoint leaves the entry in the list |
| Gui.GuiSession.NudeClassifyVideo | nudity_detector_gui.py:239-298 | one call with the sampled-frame verdict, and every sampled temp file is removed |
| Gui.GuiSession.DeepClassifyVideo | nudity_detector_gui.py:330-389 | the same, for DeepStack |
| Gui.GuiSession.ProcessFile | nudity_detector_gui.py:397 | the store changes by the selected model's call for the path, checkpoints that raise included; no temp file is left behind |
| Gui.GuiSession.Scan | nudity_detector_gui.py:397 | the store changes by the calls of the paths before the stop, in order, checkpoints that raise included |
| Gui.GuiSession.ProcessFiles | nudity_detector_gui.py:197-413 | a summary iff not stopped and the final save does not raise; it is the list's length and flagged count as logged, which are the run's own when fewer than 500 files were recorded; the file then holds every row of the run; without a summary nothing is lost from persisted rows ++ list |

## Left out

- Threads, `Lock`, `Queue` and the ten workers: the drain is a sequential loop. Report order is
  therefore queue order, not completion order.
- `Dispatch.ProcessFileQueue`: the `empty()`/`get()` race between workers is not modelled.
- The NudeNet detector, `requests.post` and the JSON body, OpenCV and `os.walk`: these are inputs.
  A reply whose body is not JSON counts as an exception.
- `json.dumps` is not modelled. The GUI's classes are kept as the record list it serialises, a
  string that a cell can hold.
- openpyxl's other refusals (strings holding control characters) are not modelled; only a list is.
- Logging, `datetime.now()` (the clock is an input) and the tkinter widgets.
- `check_deepstack_server` and opening the folder or report: outside the classification core.
- `Strings.Lower`: lowers ASCII letters only; Unicode case mapping is not modelled.
- `Paths.PathJoin`: POSIX paths only; Windows drive letters and backslashes are not modelled.
- `Report.ReportStore.SaveReport`: a file that cannot be read, written or parsed is not modelled; the
  one failure modelled is a cell value openpyxl refuses.
- `Report.ReportStore.constructor`: a report file whose sheet is empty does not meet `Valid()`, and the
  ledger lemmas do not cover it (`Report.EmptySheetHidesFirstEntry` shows what goes wrong there).
- `Report.BufferIsSinceCheckpoint`, `Report.HandleAllKeepsConsistent`: stated for entries that can be
  stored; list-valued entries are covered by `Report.UnstorableNeverFlushed` instead.
- `Gui.SummaryMissesSavedBatches`: stated for entries that can be stored; with DeepStack images the
  final save raises and nothing is logged (`Gui.GuiSession.ProcessFiles`).
- `Report.ReportStore.HandleResults`: a failed copy is the input `copyOk`; other copy errors are not modelled.
- `Gui.GuiSession.SampleFrames`: `cv2.imwrite` always succeeds; frame pixels are not modelled.
- `Gui.GuiSession.Scan`: the stop request arrives between two files; a stop in the middle of a
  video's sampling or frame loop is not modelled.
- `Gui.GuiSession.RemoveFrames`: a failing `os.remove` is not modelled.
- Temp-name clashes between videos handled at the same time: the model handles one video at a time.
- `Legacy.EntryLineIsOneLine`: a class name holding a quote is printed without Python's `repr`
  escaping.
- Folder-existence checks and the `exposed` directory's creation: not modelled.

## Findings

| source | as written | input that shows it | evidently intended | confidence | as-written member | corrected member |
|---|---|---|---|---|---|---|
| nudity-detector-deepstack.py:36-39 | the labels are handed to `handle_results` as a Python list, which `save_nudity_report` passes to `sheet.append`; openpyxl raises for a list, so every checkpoint and the final save (outside any `try`) raise and the report file never gains a row | one image answered with status 200: the final save raises, the file is unchanged, and the next run posts the image again | join the labels into one string, as the NudeNet script does | not executed | DeepStack.ListLabelsNeverSaved | DeepStack.JoinedLabelsAreSaved |
| nudity_detector_gui.py:406-409 | the "files processed" and "nudity detected" counts are taken over the in-memory list, which every 500-entry checkpoint saves and clears | a scan that records exactly 500 flagged files from an empty list logs 0 processed and 0 flagged | count the entries the run recorded, whether already checkpointed or not | not executed | Gui.SummaryMissesSavedBatches | Gui.RunSummaryCountsRun |
