/**
 * The report store of nudity_detector_utils.py: the in-memory list `nudity_report`, the worksheet
 * persisted in `exposed/nudity_report.xlsx`, the `exposed` directory of copied files, and the
 * operations on them (`save_nudity_report`, `check_and_save_report`, `load_existing_report`,
 * `handle_results`).
 *
 * The worksheet is a sequence of rows of cells; `None` stands for a report file that does not
 * exist. The value-level functions (`Saved`, `Checkpoint`, `Handle`) say what each operation does;
 * the class `ReportStore` holds the state the source mutates and its methods are proved against them.
 */
module Report {
  import opened Wrappers
  import opened Paths
  import opened Seqs

  /** What `detected_classes` holds: a Python list of class names, one string of labels, or the
      (label, score) records that the GUI serialises to JSON text before handing them over. */
  datatype Classes = Names(names: seq<string>) | Text(text: string) | Records(records: seq<(string, real)>)

  /** A worksheet cell. `Blank` is an empty cell. */
  datatype Cell = Blank | Str(s: string) | Bool(b: bool) | ClassesCell(classes: Classes)

  type Row = seq<Cell>
  type Sheet = seq<Row>

  /** One report entry: the `file`, `nudity_detected`, `detected_classes` and `date_classified` keys. */
  datatype Entry = Entry(file: string, nudityDetected: bool, detectedClasses: Classes, dateClassified: string)

  /** The default `batch_size` of `check_and_save_report`. */
  const BatchSize: nat := 500

  const Header: Row := [Str("File"), Str("Nudity Detected"), Str("Detected Classes"), Str("Date Classified")]

  /** The row `save_nudity_report` appends for an entry. */
  function RowOf(e: Entry): Row {
    [Str(e.file), Bool(e.nudityDetected), ClassesCell(e.detectedClasses), Str(e.dateClassified)]
  }

  /** openpyxl puts strings, numbers and booleans in a cell but raises `ValueError` for a list (the empty
      list included), so an entry whose classes are a list has no row it can be written as. */
  predicate Storable(e: Entry) {
    !e.detectedClasses.Names?
  }

  predicate AllStorable(es: seq<Entry>) {
    forall i :: 0 <= i < |es| ==> Storable(es[i])
  }

  function RowsOf(es: seq<Entry>): (rows: seq<Row>)
    ensures |rows| == |es|
    ensures forall i :: 0 <= i < |es| ==> rows[i] == RowOf(es[i])
  {
    seq(|es|, i requires 0 <= i < |es| => RowOf(es[i]))
  }

  /** The file after `save_nudity_report(data, path)` when it held `sheet`. A row that cannot be stored
      raises inside `sheet.append`, before `workbook.save`, so the file then stays as it was. */
  function Saved(sheet: Option<Sheet>, data: seq<Entry>): Option<Sheet> {
    if data == [] || !AllStorable(data) then sheet
    else match sheet
      case None => Some([Header] + RowsOf(data))
      case Some(rows) => Some(rows + RowsOf(data))
  }

  /** The file is missing, or its sheet has a first row (the header, when this code wrote it). */
  predicate HasHeaderRow(sheet: Option<Sheet>) {
    sheet.Some? ==> |sheet.value| > 0
  }

  /** The rows from the second on: the ones `iter_rows(min_row=2)` visits. */
  function DataRows(sheet: Option<Sheet>): seq<Row> {
    match sheet
    case None => []
    case Some(rows) => if rows == [] then [] else rows[1..]
  }

  /** `row[0]` of a row as openpyxl returns it (an empty cell reads as `None`). */
  function FirstCell(row: Row): Cell {
    if row == [] then Blank else row[0]
  }

  function FirstCells(rows: seq<Row>): set<Cell> {
    set i | 0 <= i < |rows| :: FirstCell(rows[i])
  }

  /** What `load_existing_report` returns: the first cell of every row after the first, or nothing
      when the file is missing. */
  function Loaded(sheet: Option<Sheet>): set<Cell> {
    FirstCells(DataRows(sheet))
  }

  /** The `file` cells of some entries. */
  function FileCells(es: seq<Entry>): set<Cell> {
    set i | 0 <= i < |es| :: Str(es[i].file)
  }

  /** The whole store as a value: the in-memory report, the persisted sheet and the `exposed` directory
      (copy name to source path). */
  datatype Store = Store(buffer: seq<Entry>, sheet: Option<Sheet>, exposed: map<string, string>)

  /** Whether `check_and_save_report(report, path, batch_size)` raises: the report is long enough to be
      saved and one of its entries cannot be stored. */
  predicate FlushRaises(buffer: seq<Entry>, batchSize: nat) {
    |buffer| >= batchSize && !AllStorable(buffer)
  }

  /** `check_and_save_report(report, path, batch_size)`: save and clear once the report is long enough.
      A save that raises leaves both the file and the list as they were. */
  function Checkpoint(s: Store, batchSize: nat): Store {
    if |s.buffer| >= batchSize && AllStorable(s.buffer) then s.(buffer := [], sheet := Saved(s.sheet, s.buffer))
    else s
  }

  /** `handle_results`: copy a flagged file into `exposed`, then append the entry and check for a
      checkpoint. A copy that fails raises before anything is appended; a checkpoint that raises does so
      after the append. */
  function Handle(s: Store, e: Entry, copyOk: bool): Store {
    if e.nudityDetected && !copyOk then s
    else
      var exposed := if e.nudityDetected then CopyToExposed(s.exposed, e.file) else s.exposed;
      Checkpoint(s.(buffer := s.buffer + [e], exposed := exposed), BatchSize)
  }

  /** Whether `handle_results` gets as far as appending its entry. */
  predicate Appends(e: Entry, copyOk: bool) {
    !e.nudityDetected || copyOk
  }

  /** Every row recorded so far, persisted or pending: the data rows of the sheet, then the buffer. */
  function Ledger(s: Store): seq<Row> {
    DataRows(s.sheet) + RowsOf(s.buffer)
  }

  /** The buffer stays below the batch size, and a present file has a first row. Every call keeps it
      as long as the entries can be stored. */
  predicate Consistent(s: Store) {
    |s.buffer| < BatchSize && HasHeaderRow(s.sheet)
  }

  /** A save with no data, or with an entry that cannot be stored, changes nothing; otherwise the
      existing rows stay as they were (or a header row starts a new file) and one row per entry follows,
      in order. */
  lemma SavedShape(sheet: Option<Sheet>, data: seq<Entry>)
    ensures data == [] || !AllStorable(data) ==> Saved(sheet, data) == sheet
    ensures data != [] && AllStorable(data) ==>
      var before := if sheet.Some? then sheet.value else [Header];
      var after := Saved(sheet, data).value;
      && Saved(sheet, data).Some?
      && |after| == |before| + |data|
      && after[..|before|] == before
      && forall j :: 0 <= j < |data| ==> after[|before| + j] == RowOf(data[j])
  {
  }

  /** A save adds exactly the entries' rows to the data rows when every entry can be stored, and none
      otherwise; it keeps the first row. */
  lemma SavedDataRows(sheet: Option<Sheet>, data: seq<Entry>)
    requires HasHeaderRow(sheet)
    ensures HasHeaderRow(Saved(sheet, data))
    ensures AllStorable(data) ==> DataRows(Saved(sheet, data)) == DataRows(sheet) + RowsOf(data)
    ensures !AllStorable(data) ==> DataRows(Saved(sheet, data)) == DataRows(sheet)
  {
    if data != [] && AllStorable(data) && sheet.Some? {
      var rows := sheet.value;
      assert (rows + RowsOf(data))[1..] == rows[1..] + RowsOf(data);
    } else if data == [] {
      assert DataRows(sheet) + RowsOf(data) == DataRows(sheet);
    }
  }

  lemma {:induction false} FirstCellsAppend(a: seq<Row>, b: seq<Row>)
    ensures FirstCells(a + b) == FirstCells(a) + FirstCells(b)
  {
    forall c | c in FirstCells(a + b) ensures c in FirstCells(a) + FirstCells(b) {
      var i :| 0 <= i < |a + b| && FirstCell((a + b)[i]) == c;
      if i < |a| {
        assert FirstCell(a[i]) == c;
      } else {
        assert FirstCell(b[i - |a|]) == c;
      }
    }
    forall c | c in FirstCells(a) + FirstCells(b) ensures c in FirstCells(a + b) {
      if c in FirstCells(a) {
        var i :| 0 <= i < |a| && FirstCell(a[i]) == c;
        assert (a + b)[i] == a[i];
      } else {
        var i :| 0 <= i < |b| && FirstCell(b[i]) == c;
        assert (a + b)[|a| + i] == b[i];
      }
    }
  }

  lemma FirstCellsSnoc(rows: seq<Row>, row: Row)
    ensures FirstCells(rows + [row]) == FirstCells(rows) + {FirstCell(row)}
  {
    FirstCellsAppend(rows, [row]);
    assert FirstCells([row]) == {FirstCell(row)} by {
      assert FirstCell([row][0]) == FirstCell(row);
    }
  }

  lemma FirstCellsOfEntries(es: seq<Entry>)
    ensures FirstCells(RowsOf(es)) == FileCells(es)
  {
    var rows := RowsOf(es);
    forall c | c in FileCells(es) ensures c in FirstCells(rows) {
      var i :| 0 <= i < |es| && Str(es[i].file) == c;
      assert FirstCell(rows[i]) == c;
    }
  }

  /** Save, then load: the resume set gains exactly the saved entries' file names and keeps every name
      it had; a save that raises leaves it as it was. */
  lemma LoadAfterSave(sheet: Option<Sheet>, data: seq<Entry>)
    requires HasHeaderRow(sheet)
    ensures AllStorable(data) ==> Loaded(Saved(sheet, data)) == Loaded(sheet) + FileCells(data)
    ensures !AllStorable(data) ==> Loaded(Saved(sheet, data)) == Loaded(sheet)
  {
    SavedDataRows(sheet, data);
    if AllStorable(data) {
      LoadedAfterRows(Saved(sheet, data), sheet, data);
    }
  }

  /** The resume set depends only on the data rows: rows added for some entries add their file names. */
  lemma LoadedAfterRows(sheet: Option<Sheet>, base: Option<Sheet>, data: seq<Entry>)
    requires DataRows(sheet) == DataRows(base) + RowsOf(data)
    ensures Loaded(sheet) == Loaded(base) + FileCells(data)
  {
    FirstCellsAppend(DataRows(base), RowsOf(data));
    FirstCellsOfEntries(data);
  }

  /** A report file that exists with an empty sheet receives its first saved entry on row 1, which
      `load_existing_report` skips as if it were the header. */
  lemma EmptySheetHidesFirstEntry(e: Entry)
    ensures Loaded(Saved(Some([]), [e])) == {}
    ensures FileCells([e]) == {Str(e.file)}
  {
    assert DataRows(Saved(Some([]), [e])) == [];
    assert Str(e.file) == Str([e][0].file);
  }

  /** `handle_results` grows the ledger by exactly the entry it appends, whether a checkpoint fires,
      raises or does not happen, and keeps a first row in the file. While the entries can be stored it
      also keeps the buffer below the batch size. */
  lemma HandleExtendsLedger(s: Store, e: Entry, copyOk: bool)
    requires HasHeaderRow(s.sheet)
    ensures HasHeaderRow(Handle(s, e, copyOk).sheet)
    ensures Ledger(Handle(s, e, copyOk)) == Ledger(s) + (if Appends(e, copyOk) then [RowOf(e)] else [])
    ensures Consistent(s) && (Appends(e, copyOk) ==> AllStorable(s.buffer + [e])) ==> Consistent(Handle(s, e, copyOk))
  {
    if Appends(e, copyOk) {
      var buffer := s.buffer + [e];
      var t := Handle(s, e, copyOk);
      RowsOfSnoc(s.buffer, e);
      if |buffer| >= BatchSize && AllStorable(buffer) {
        assert t.buffer == [] && t.sheet == Saved(s.sheet, buffer);
        SavedDataRows(s.sheet, buffer);
        assert RowsOf(t.buffer) == [];
      } else {
        assert t.buffer == buffer && t.sheet == s.sheet;
      }
    }
  }

  lemma RowsOfSnoc(es: seq<Entry>, e: Entry)
    ensures RowsOf(es + [e]) == RowsOf(es) + [RowOf(e)]
  {
  }

  /** The `exposed` directory gains `basename(file) -> file` exactly when a flagged entry is appended. */
  lemma HandleExposed(s: Store, e: Entry, copyOk: bool)
    ensures Handle(s, e, copyOk).exposed ==
      if e.nudityDetected && copyOk then CopyToExposed(s.exposed, e.file) else s.exposed
  {
  }

  /** Once the threshold is reached the rows are persisted: the entry that fills the batch leaves an
      empty buffer and a sheet holding all the batch's rows. When one of them cannot be stored the save
      raises after the append: the entry stays in the list, nothing is cleared and the file is as it was. */
  lemma HandleAtThresholdPersists(s: Store, e: Entry, copyOk: bool)
    requires HasHeaderRow(s.sheet) && Appends(e, copyOk) && |s.buffer| + 1 >= BatchSize
    ensures AllStorable(s.buffer + [e]) ==>
      && Handle(s, e, copyOk).buffer == []
      && DataRows(Handle(s, e, copyOk).sheet) == DataRows(s.sheet) + RowsOf(s.buffer + [e])
    ensures !AllStorable(s.buffer + [e]) ==>
      && Handle(s, e, copyOk).buffer == s.buffer + [e]
      && Handle(s, e, copyOk).sheet == s.sheet
  {
    SavedDataRows(s.sheet, s.buffer + [e]);
  }

  /** One call of `handle_results` as the workers make it: the entry, and whether its copy succeeds. */
  datatype Attempt = Attempt(entry: Entry, copyOk: bool)

  /** The store after a run of `handle_results` calls, in order. */
  function HandleAll(s: Store, attempts: seq<Attempt>): Store
    decreases |attempts|
  {
    if attempts == [] then s
    else
      var last := attempts[|attempts| - 1];
      Handle(HandleAll(s, attempts[..|attempts| - 1]), last.entry, last.copyOk)
  }

  /** The entries of those attempts that get appended. */
  function Accepted(attempts: seq<Attempt>): (es: seq<Entry>)
    ensures |es| <= |attempts|
    decreases |attempts|
  {
    if attempts == [] then []
    else
      var last := attempts[|attempts| - 1];
      Accepted(attempts[..|attempts| - 1]) + (if Appends(last.entry, last.copyOk) then [last.entry] else [])
  }

  /** Two runs of calls one after the other act as their concatenation. */
  lemma {:induction false} HandleAllAppend(s: Store, a: seq<Attempt>, b: seq<Attempt>)
    ensures HandleAll(s, a + b) == HandleAll(HandleAll(s, a), b)
    decreases |b|
  {
    if b == [] {
      assert a + b == a;
    } else {
      HandleAllAppend(s, a, b[..|b| - 1]);
      AppendTakeLast(a, b);
    }
  }

  /** The entries appended by two runs of calls are those of the first run, then those of the second. */
  lemma {:induction false} AcceptedAppend(a: seq<Attempt>, b: seq<Attempt>)
    ensures Accepted(a + b) == Accepted(a) + Accepted(b)
    decreases |b|
  {
    if b == [] {
      assert a + b == a;
    } else {
      var b', last := b[..|b| - 1], b[|b| - 1];
      AcceptedAppend(a, b');
      AppendTakeLast(a, b);
      AppendAssoc(Accepted(a), Accepted(b'), if Appends(last.entry, last.copyOk) then [last.entry] else []);
    }
  }

  /** No two entries are about the same file. */
  predicate DistinctFiles(es: seq<Entry>) {
    forall i, j :: 0 <= i < j < |es| ==> es[i].file != es[j].file
  }

  /** Adding at most one call about a file none of the earlier appended entries is about keeps the
      appended entries about distinct files. */
  lemma AcceptedDistinctSnoc(a: seq<Attempt>, b: seq<Attempt>, f: string)
    requires DistinctFiles(Accepted(a))
    requires forall e :: e in Accepted(a) ==> e.file != f
    requires |b| <= 1 && forall x :: x in b ==> x.entry.file == f
    ensures DistinctFiles(Accepted(a + b))
  {
    if b == [] {
      assert a + b == a;
    } else {
      assert b == [b[0]] && b[0] in b;
      AcceptedDistinctOne(a, b[0], f);
    }
  }

  lemma AcceptedDistinctOne(a: seq<Attempt>, x: Attempt, f: string)
    requires DistinctFiles(Accepted(a))
    requires forall e :: e in Accepted(a) ==> e.file != f
    requires x.entry.file == f
    ensures DistinctFiles(Accepted(a + [x]))
  {
    var tail := if Appends(x.entry, x.copyOk) then [x.entry] else [];
    AcceptedSnoc(a, x);
    DistinctSnoc(Accepted(a), tail, f);
  }

  lemma AcceptedSnoc(a: seq<Attempt>, x: Attempt)
    ensures Accepted(a + [x]) == Accepted(a) + (if Appends(x.entry, x.copyOk) then [x.entry] else [])
  {
    assert (a + [x])[..|a|] == a;
  }

  lemma DistinctSnoc(x: seq<Entry>, y: seq<Entry>, f: string)
    requires DistinctFiles(x) && |y| <= 1
    requires forall e :: e in x ==> e.file != f
    requires forall d :: d in y ==> d.file == f
    ensures DistinctFiles(x + y)
  {
    var xy := x + y;
    forall i, j | 0 <= i < j < |xy| ensures xy[i].file != xy[j].file {
      assert xy[i] == x[i] && x[i] in x;
      if j < |x| {
        assert xy[j] == x[j];
      } else {
        assert xy[j] == y[j - |x|] && y[j - |x|] in y;
      }
    }
  }

  /** Every appended entry comes from one of the attempts. */
  lemma {:induction false} AcceptedFromAttempts(attempts: seq<Attempt>)
    ensures forall e :: e in Accepted(attempts) ==> exists i :: 0 <= i < |attempts| && attempts[i].entry == e
    decreases |attempts|
  {
    if attempts != [] {
      var front := attempts[..|attempts| - 1];
      AcceptedFromAttempts(front);
      forall e | e in Accepted(attempts)
        ensures exists i :: 0 <= i < |attempts| && attempts[i].entry == e
      {
        if e in Accepted(front) {
          var i :| 0 <= i < |front| && front[i].entry == e;
          assert attempts[i] == front[i];
        } else {
          assert attempts[|attempts| - 1].entry == e;
        }
      }
    }
  }

  /** Nothing is lost across checkpoints: after any run of `handle_results` calls the ledger is the old
      ledger followed by the appended entries, in call order, whether each checkpoint saved or raised. */
  lemma {:induction false} HandleAllExtendsLedger(s: Store, attempts: seq<Attempt>)
    requires HasHeaderRow(s.sheet)
    ensures HasHeaderRow(HandleAll(s, attempts).sheet)
    ensures Ledger(HandleAll(s, attempts)) == Ledger(s) + RowsOf(Accepted(attempts))
    decreases |attempts|
  {
    if attempts != [] {
      var front, last := attempts[..|attempts| - 1], attempts[|attempts| - 1];
      HandleAllExtendsLedger(s, front);
      HandleExtendsLedger(HandleAll(s, front), last.entry, last.copyOk);
      var added := if Appends(last.entry, last.copyOk) then [last.entry] else [];
      assert RowsOf(Accepted(front) + added) == RowsOf(Accepted(front)) + RowsOf(added);
    }
  }

  /** While every entry can be stored, the in-memory list holds exactly the entries appended since the
      last checkpoint: its length is the number of entries appended so far (counting those already in it)
      modulo the batch size, and it is the tail of that many appended entries. */
  lemma {:induction false} BufferIsSinceCheckpoint(s: Store, attempts: seq<Attempt>)
    requires Consistent(s) && AllStorable(s.buffer) && AllStorable(Accepted(attempts))
    ensures SinceCheckpoint(s.buffer + Accepted(attempts), HandleAll(s, attempts).buffer)
    decreases |attempts|
  {
    if attempts == [] {
      assert s.buffer + [] == s.buffer;
    } else {
      var front, last := attempts[..|attempts| - 1], attempts[|attempts| - 1];
      AcceptedSnoc(front, last);
      assert front + [last] == attempts;
      AllStorableAppend(Accepted(front), if Appends(last.entry, last.copyOk) then [last.entry] else []);
      BufferIsSinceCheckpoint(s, front);
      HandleAllKeepsConsistent(s, front);
      var mid := HandleAll(s, front);
      var all := s.buffer + Accepted(front);
      assert HandleAll(s, attempts) == Handle(mid, last.entry, last.copyOk);
      HandleBuffer(mid, last.entry, last.copyOk);
      if Appends(last.entry, last.copyOk) {
        assert Accepted(attempts) == Accepted(front) + [last.entry];
        AllStorableAppend(mid.buffer, [last.entry]);
        AppendAssoc(s.buffer, Accepted(front), [last.entry]);
        SinceCheckpointStep(all, mid.buffer, last.entry);
      } else {
        assert Accepted(attempts) == Accepted(front) + [];
        assert Accepted(front) + [] == Accepted(front);
      }
    }
  }

  /** `buffer` is what is left of the entries `all` appended so far once every full batch has been
      saved and cleared: as many of the last entries as the count of `all` modulo the batch size. */
  predicate SinceCheckpoint(all: seq<Entry>, buffer: seq<Entry>) {
    |buffer| == |all| % BatchSize && buffer == all[|all| - |buffer|..]
  }

  /** One more appended entry joins the list, or empties it when the batch is full. */
  lemma SinceCheckpointStep(all: seq<Entry>, buffer: seq<Entry>, e: Entry)
    requires SinceCheckpoint(all, buffer)
    ensures SinceCheckpoint(all + [e], if |buffer| + 1 >= BatchSize then [] else buffer + [e])
  {
    DropSnoc(all, e, |all| - |buffer|);
    ModSucc(|all|, |buffer|);
  }

  /** While every entry can be stored, the buffer stays below the batch size and holds only entries
      that can be stored. */
  lemma {:induction false} HandleAllKeepsConsistent(s: Store, attempts: seq<Attempt>)
    requires Consistent(s) && AllStorable(s.buffer) && AllStorable(Accepted(attempts))
    ensures Consistent(HandleAll(s, attempts))
    ensures AllStorable(HandleAll(s, attempts).buffer)
    decreases |attempts|
  {
    if attempts != [] {
      var front, last := attempts[..|attempts| - 1], attempts[|attempts| - 1];
      var added := if Appends(last.entry, last.copyOk) then [last.entry] else [];
      AllStorableAppend(Accepted(front), added);
      HandleAllKeepsConsistent(s, front);
      var mid := HandleAll(s, front);
      AllStorableAppend(mid.buffer, added);
      HandleExtendsLedger(mid, last.entry, last.copyOk);
      HandleBuffer(mid, last.entry, last.copyOk);
    }
  }

  /** Entries that cannot be stored never leave the list: every checkpoint they take part in raises, so
      the list keeps all of them, after those it held, and the file never changes. */
  lemma {:induction false} UnstorableNeverFlushed(s: Store, attempts: seq<Attempt>)
    requires forall i :: 0 <= i < |Accepted(attempts)| ==> !Storable(Accepted(attempts)[i])
    ensures HandleAll(s, attempts).sheet == s.sheet
    ensures HandleAll(s, attempts).buffer == s.buffer + Accepted(attempts)
    decreases |attempts|
  {
    if attempts == [] {
      assert s.buffer + [] == s.buffer;
    } else {
      var front, last := attempts[..|attempts| - 1], attempts[|attempts| - 1];
      var added := if Appends(last.entry, last.copyOk) then [last.entry] else [];
      assert Accepted(attempts) == Accepted(front) + added;
      assert forall i :: 0 <= i < |Accepted(front)| ==> Accepted(front)[i] == Accepted(attempts)[i];
      UnstorableNeverFlushed(s, front);
      var mid := HandleAll(s, front);
      HandleBuffer(mid, last.entry, last.copyOk);
      if Appends(last.entry, last.copyOk) {
        assert Accepted(attempts)[|Accepted(front)|] == last.entry;
        assert !Storable(last.entry);
        var b := mid.buffer + [last.entry];
        assert b[|b| - 1] == last.entry;
        assert !AllStorable(b);
        assert HandleAll(s, attempts) == Handle(mid, last.entry, last.copyOk);
        AppendAssoc(s.buffer, Accepted(front), [last.entry]);
      }
    }
  }

  /** Below the batch size no checkpoint fires: the list keeps every appended entry and the file is as
      it was. */
  lemma {:induction false} BelowBatchKeepsAll(s: Store, attempts: seq<Attempt>)
    requires |s.buffer| + |Accepted(attempts)| < BatchSize
    ensures HandleAll(s, attempts).sheet == s.sheet
    ensures HandleAll(s, attempts).buffer == s.buffer + Accepted(attempts)
    decreases |attempts|
  {
    if attempts == [] {
      assert s.buffer + [] == s.buffer;
    } else {
      var front, last := attempts[..|attempts| - 1], attempts[|attempts| - 1];
      var added := if Appends(last.entry, last.copyOk) then [last.entry] else [];
      assert Accepted(attempts) == Accepted(front) + added;
      BelowBatchKeepsAll(s, front);
      if Appends(last.entry, last.copyOk) {
        AppendAssoc(s.buffer, Accepted(front), [last.entry]);
      }
    }
  }

  lemma AllStorableAppend(a: seq<Entry>, b: seq<Entry>)
    ensures AllStorable(a + b) <==> AllStorable(a) && AllStorable(b)
  {
    if AllStorable(a) && AllStorable(b) {
      forall i | 0 <= i < |a + b| ensures Storable((a + b)[i]) {
        if i >= |a| {
          assert (a + b)[i] == b[i - |a|];
        }
      }
    }
    if AllStorable(a + b) {
      forall i | 0 <= i < |a| ensures Storable(a[i]) {
        assert (a + b)[i] == a[i];
      }
      forall i | 0 <= i < |b| ensures Storable(b[i]) {
        assert (a + b)[|a| + i] == b[i];
      }
    }
  }

  /** What one call does to the in-memory list. */
  lemma HandleBuffer(s: Store, e: Entry, copyOk: bool)
    ensures Handle(s, e, copyOk).buffer ==
      if !Appends(e, copyOk) then s.buffer
      else if |s.buffer| + 1 >= BatchSize && AllStorable(s.buffer + [e]) then []
      else s.buffer + [e]
  {
  }

  /** Counting one more entry modulo the batch size. */
  lemma ModSucc(n: nat, m: nat)
    requires m == n % BatchSize
    ensures m + 1 < BatchSize ==> (n + 1) % BatchSize == m + 1
    ensures m + 1 >= BatchSize ==> (n + 1) % BatchSize == 0
  {
  }

  /** The report store as the program holds it: the module-level list, the report file and the
      `exposed` directory. `handle_results` runs under a lock, so each call is one atomic step here. */
  class ReportStore {
    var buffer: seq<Entry>
    var sheet: Option<Sheet>
    var exposed: map<string, string>

    function State(): Store
      reads this
    {
      Store(buffer, sheet, exposed)
    }

    /** A present report file has a first row, so its data rows are everything after it. */
    ghost predicate Valid()
      reads this
    {
      HasHeaderRow(sheet)
    }

    /** The store at start-up: an empty list, and the report file and the `exposed` directory as found
        on disk. */
    constructor (onDisk: Option<Sheet>, archive: map<string, string>)
      ensures buffer == [] && sheet == onDisk && exposed == archive
    {
      buffer := [];
      sheet := onDisk;
      exposed := archive;
    }

    /** `save_nudity_report(data, path)`: nothing for empty data; otherwise open the file (or start one
        with the header row), append one row per entry, and save. `ok` is false when a row could not be
        stored: the call raised and the file is as it was. */
    method SaveReport(data: seq<Entry>) returns (ok: bool)
      modifies this
      ensures ok == AllStorable(data)
      ensures sheet == Saved(old(sheet), data)
      ensures buffer == old(buffer) && exposed == old(exposed)
    {
      if data == [] {
        return true;
      }
      var rows: Sheet;
      if sheet.Some? {
        rows := sheet.value;
      } else {
        rows := [Header];
      }
      ghost var before := rows;
      var i := 0;
      while i < |data|
        invariant 0 <= i <= |data|
        invariant rows == before + RowsOf(data[..i])
        invariant forall j :: 0 <= j < i ==> Storable(data[j])
      {
        if !Storable(data[i]) {
          return false;
        }
        assert RowsOf(data[..i + 1]) == RowsOf(data[..i]) + [RowOf(data[i])];
        rows := rows + [RowOf(data[i])];
        i := i + 1;
      }
      assert data[..i] == data;
      sheet := Some(rows);
      ok := true;
    }

    /** `check_and_save_report(nudity_report, path, batch_size)`: flush and clear the list iff it holds
        at least `batchSize` entries; otherwise change nothing. `ok` is false when the save raised: then
        the list is not cleared. */
    method CheckAndSaveReport(batchSize: nat) returns (ok: bool)
      modifies this
      ensures ok == !FlushRaises(old(buffer), batchSize)
      ensures State() == Checkpoint(old(State()), batchSize)
    {
      ok := true;
      if |buffer| >= batchSize {
        ok := SaveReport(buffer);
        if ok {
          buffer := [];
        }
      }
    }

    /** `load_existing_report(path)`: collect the first cell of every row after the first. */
    method LoadExistingReport() returns (existing: set<Cell>)
      ensures existing == Loaded(sheet)
    {
      existing := {};
      if sheet.Some? && sheet.value != [] {
        var rows := sheet.value;
        var i := 1;
        while i < |rows|
          invariant 1 <= i <= |rows|
          invariant existing == FirstCells(rows[1..i])
        {
          FirstCellsSnoc(rows[1..i], rows[i]);
          assert rows[1..i + 1] == rows[1..i] + [rows[i]];
          existing := existing + {FirstCell(rows[i])};
          i := i + 1;
        }
        assert rows[1..i] == rows[1..];
      }
    }

    /** `handle_results(file_path, nudity_detected, detected_classes)` with the clock reading `now` and the
        copy into `exposed` succeeding iff `copyOk`. `ok` is false when the call raised: either the copy
        failed and nothing changed, or the checkpoint's save failed after the entry was appended. The
        ledger grows by exactly the entry whenever it was appended. */
    method HandleResults(filePath: string, nudityDetected: bool, detectedClasses: Classes, now: string, copyOk: bool)
      returns (ok: bool)
      requires Valid()
      modifies this
      ensures Valid()
      ensures var entry := Entry(filePath, nudityDetected, detectedClasses, now);
        && ok == (Appends(entry, copyOk) && !FlushRaises(old(buffer) + [entry], BatchSize))
        && State() == Handle(old(State()), entry, copyOk)
        && Ledger(State()) == Ledger(old(State())) + (if Appends(entry, copyOk) then [RowOf(entry)] else [])
        && (old(Consistent(State())) && Storable(entry) && AllStorable(old(buffer)) ==> Consistent(State()))
    {
      var entry := Entry(filePath, nudityDetected, detectedClasses, now);
      HandleExtendsLedger(State(), entry, copyOk);
      AllStorableAppend(buffer, [entry]);
      if nudityDetected {
        if !copyOk {
          return false;
        }
        exposed := CopyToExposed(exposed, filePath);
      }
      buffer := buffer + [entry];
      ok := CheckAndSaveReport(BatchSize);
    }
  }
}
