/** The "Equip Matrix" sheet normaliser: worker names from the header row, one CSV row
    per equipment row with a certification mark per worker, and a leading `_COST` row. */
module Equipment {
  import opened Wrappers
  import opened Sheets
  import opened Text

  /** Temporary-worker prefixes removed from header names. */
  const WORKER_NAME_CLEAN: map<string, string> := map[
    "Temp - Noe" := "Noe",
    "Temp - Fransisco" := "Fransisco"
  ]

  /** Worker names are read from header columns 3 up to (not including) 16. */
  const FIRST_WORKER_COLUMN: nat := 3
  const WORKER_COLUMN_END: nat := 16
  /** Sheet rows 1 up to (not including) this index are examined; row 0 is the header. */
  const LAST_ROW_EXCLUSIVE: nat := 30

  const COST_CODE: string := "_COST"
  const COST_WORK_TYPE: string := "Worker Cost Per Hour"
  /** The spellings (after upper-casing) that mark a worker as certified. */
  const TRUTHY: seq<string> := ["Y", "YES", "1", "TRUE", "X"]
  const CERTIFIED: string := "Y"
  const SEPARATOR: string := " - "

  /** The output columns before the worker columns. */
  const FIXED_COLUMNS: seq<string> := ["equipment_code", "work_category", "work_type", "station_count", "hourly_cost"]

  /** One row of the sheet: station count, equipment code and work-type label in columns
      0..2, then `marks[j]` is the text of column `3 + j` (missing cells are `None`).
      In row 0 the marks are the worker names. */
  datatype EquipSheetRow = EquipSheetRow(
    stationCount: Option<int>,
    equipmentCode: Option<string>,
    workTypeLabel: Option<string>,
    marks: seq<Option<string>>)

  /** `len(row)`. */
  function RowLength(row: EquipSheetRow): nat {
    FIRST_WORKER_COLUMN + |row.marks|
  }

  /** `row[col] if col < len(row) else None`, for a worker column. */
  function CellAt(row: EquipSheetRow, col: nat): (r: Option<string>)
    requires col >= FIRST_WORKER_COLUMN
    ensures col < RowLength(row) ==> r == row.marks[col - FIRST_WORKER_COLUMN]
    ensures col >= RowLength(row) ==> r.None?
  {
    if col < RowLength(row) then row.marks[col - FIRST_WORKER_COLUMN] else None
  }

  /** A worker column's cell in an output row: a certification mark, or (in the `_COST`
      row) an hourly cost. */
  datatype WorkerCell = Mark(flag: string) | HourlyCost(amount: int)

  /** The category and full work-type label of an equipment row. */
  datatype WorkType = WorkType(category: string, workType: string)

  datatype EquipmentRow = EquipmentRow(
    equipmentCode: string,
    workCategory: string,
    workType: string,
    stationCount: int,
    hourlyCost: int,
    workerCells: seq<WorkerCell>)

  /** The CSV written: a header row of column names and the data rows. */
  datatype EquipmentTable = EquipmentTable(columns: seq<string>, rows: seq<EquipmentRow>)

  // ---------------------------------------------------------------- worker names

  /** `WORKER_NAME_CLEAN.get(name, name)`. */
  function CleanWorkerName(name: string): string {
    if name in WORKER_NAME_CLEAN then WORKER_NAME_CLEAN[name] else name
  }

  /** Unmapped names pass unchanged, and cleaning a cleaned name changes nothing: no
      cleaned name is itself a key. */
  lemma CleanIdempotent(name: string)
    ensures name !in WORKER_NAME_CLEAN ==> CleanWorkerName(name) == name
    ensures CleanWorkerName(CleanWorkerName(name)) == CleanWorkerName(name)
  {
    assert forall k :: k in WORKER_NAME_CLEAN ==> WORKER_NAME_CLEAN[k] !in WORKER_NAME_CLEAN;
  }

  /** `header_row[3:16]`: the header's worker columns, clamped to the row's length. */
  function HeaderCells(header: EquipSheetRow): (cells: seq<Option<string>>)
    ensures |cells| <= WORKER_COLUMN_END - FIRST_WORKER_COLUMN
    ensures |cells| == if |header.marks| < WORKER_COLUMN_END - FIRST_WORKER_COLUMN
      then |header.marks| else WORKER_COLUMN_END - FIRST_WORKER_COLUMN
    ensures forall j :: 0 <= j < |cells| ==> cells[j] == CellAt(header, FIRST_WORKER_COLUMN + j)
  {
    var n := WORKER_COLUMN_END - FIRST_WORKER_COLUMN;
    if |header.marks| <= n then header.marks else header.marks[..n]
  }

  /** The worker list of a range of header cells: missing names skipped, the others
      cleaned, in header order. */
  function Workers(cells: seq<Option<string>>): seq<string> {
    if cells == [] then []
    else
      Workers(cells[..|cells| - 1])
        + (match cells[|cells| - 1] case None => [] case Some(name) => [CleanWorkerName(name)])
  }

  lemma WorkersSnoc(cells: seq<Option<string>>, cell: Option<string>)
    ensures Workers(cells + [cell]) == Workers(cells) + (match cell case None => [] case Some(name) => [CleanWorkerName(name)])
  {
    assert (cells + [cell])[..|cells|] == cells;
  }

  /** There is at most one worker per header cell (so at most 13), every worker is the
      cleaned name of a present cell, and every present cell yields its cleaned name. */
  lemma {:induction false} WorkersFromHeader(cells: seq<Option<string>>)
    ensures |Workers(cells)| <= |cells|
    ensures forall w :: w in Workers(cells) ==> exists j :: 0 <= j < |cells| && cells[j].Some? && w == CleanWorkerName(cells[j].value)
    ensures forall j :: 0 <= j < |cells| && cells[j].Some? ==> CleanWorkerName(cells[j].value) in Workers(cells)
  {
    if cells != [] {
      var init := cells[..|cells| - 1];
      WorkersFromHeader(init);
      assert forall j :: 0 <= j < |init| ==> init[j] == cells[j];
    }
  }

  /** Header order is kept: the workers of two consecutive header ranges are those of the
      first followed by those of the second. */
  lemma {:induction false} WorkersAppend(a: seq<Option<string>>, b: seq<Option<string>>)
    ensures Workers(a + b) == Workers(a) + Workers(b)
  {
    if b == [] {
      assert a + b == a;
    } else {
      WorkersAppend(a, b[..|b| - 1]);
      assert (a + b)[..|a + b| - 1] == a + b[..|b| - 1];
    }
  }

  /** With no gap among the header names, worker `i` is the cleaned name in column `3 + i`,
      the column its certifications are read from. */
  lemma {:induction false} WorkersWithoutGaps(cells: seq<Option<string>>)
    requires forall j :: 0 <= j < |cells| ==> cells[j].Some?
    ensures |Workers(cells)| == |cells|
    ensures forall i :: 0 <= i < |cells| ==> Workers(cells)[i] == CleanWorkerName(cells[i].value)
  {
    if cells != [] {
      WorkersWithoutGaps(cells[..|cells| - 1]);
    }
  }

  /** Certifications are read from column `3 + i` for the `i`-th retained worker, not
      from the column that worker's name came from: a missing name in column 4 moves the
      next worker's marks one column to the left. */
  lemma GapShiftsCertifications(header: EquipSheetRow, row: EquipSheetRow)
    requires header.marks == [Some("A"), None, Some("B")]
    requires row.marks == [None, None, Some("Y")]
    ensures Workers(HeaderCells(header)) == ["A", "B"]
    ensures CertMark(CellAt(row, FIRST_WORKER_COLUMN + 2)) == CERTIFIED
    ensures CertCells(2, row) == [Mark(""), Mark("")]
  {
    GapHeaderWorkers(header);
    assert CellAt(row, FIRST_WORKER_COLUMN) == None;
    assert CellAt(row, FIRST_WORKER_COLUMN + 1) == None;
    var certs := CertCells(2, row);
    assert certs[0] == Mark("") && certs[1] == Mark("");
    YIsTruthy(CellAt(row, FIRST_WORKER_COLUMN + 2));
  }

  lemma GapHeaderWorkers(header: EquipSheetRow)
    requires header.marks == [Some("A"), None, Some("B")]
    ensures Workers(HeaderCells(header)) == ["A", "B"]
  {
    var cells := HeaderCells(header);
    assert cells == [Some("A"), None] + [Some("B")];
    WorkersSnoc([Some("A"), None], Some("B"));
    assert [Some("A"), None] == [Some("A")] + [None];
    WorkersSnoc([Some("A")], None);
    assert [Some("A")] == [] + [Some("A")];
    WorkersSnoc([], Some("A"));
    assert "A" !in WORKER_NAME_CLEAN && "B" !in WORKER_NAME_CLEAN;
  }

  lemma YIsTruthy(cell: Option<string>)
    requires cell == Some("Y")
    ensures CertMark(cell) == CERTIFIED
  {
    assert Upper(cell.value) == "Y";
  }

  /** `main`'s header loop: the worker names of header columns 3..15. */
  method ExtractWorkers(header: EquipSheetRow) returns (workers: seq<string>)
    ensures workers == Workers(HeaderCells(header))
    ensures |workers| <= WORKER_COLUMN_END - FIRST_WORKER_COLUMN
  {
    var cells := HeaderCells(header);
    workers := [];
    var j := 0;
    while j < |cells|
      invariant 0 <= j <= |cells|
      invariant workers == Workers(cells[..j])
    {
      var name := cells[j];
      assert cells[..j + 1] == cells[..j] + [name];
      WorkersSnoc(cells[..j], name);
      if name.None? {
        j := j + 1;
        continue;
      }
      var cleanName := CleanWorkerName(name.value);
      workers := workers + [cleanName];
      j := j + 1;
    }
    assert cells[..j] == cells;
    WorkersFromHeader(cells);
  }

  // ---------------------------------------------------------------- work type

  /** The category and work type of a label: none for a missing label; for a label with
      `" - "` the stripped text before its first occurrence; otherwise the workLabel itself.
      The work type is always the full workLabel. */
  function SplitWorkType(workLabel: Option<string>): (r: WorkType)
    ensures workLabel.None? ==> r == WorkType("", "")
    ensures workLabel.Some? ==> r.workType == workLabel.value
    ensures workLabel.Some? && (forall j: nat :: !OccursAt(workLabel.value, SEPARATOR, j)) ==> r.category == workLabel.value
    ensures workLabel.Some? ==> forall k: nat ::
      FirstOccurrence(workLabel.value, SEPARATOR, k) ==> r.category == Strip(workLabel.value[..k])
  {
    match workLabel
    case None => WorkType("", "")
    case Some(s) =>
      match Find(s, SEPARATOR)
      case Some(k) =>
        FirstOccurrenceUnique(s, SEPARATOR, k);
        WorkType(Strip(s[..k]), s)
      case None => WorkType(s, s)
  }

  /** `k` is the first index where `pat` occurs in `s`. */
  predicate FirstOccurrence(s: string, pat: string, k: nat) {
    OccursAt(s, pat, k) && forall j: nat :: j < k ==> !OccursAt(s, pat, j)
  }

  lemma FirstOccurrenceUnique(s: string, pat: string, k: nat)
    requires FirstOccurrence(s, pat, k)
    ensures forall m: nat :: FirstOccurrence(s, pat, m) ==> m == k
  {
  }

  /** An occurrence of `pat` inside the infix `c == s[i..i + |c|]` is one in `s`, and
      it lies before `k` when the infix ends at or before `k`. */
  lemma OccursInInfix(s: string, pat: string, k: nat, i: nat, c: string, j: nat)
    requires |pat| > 0 && i + |c| <= k <= |s| && c == s[i..i + |c|]
    requires OccursAt(c, pat, j)
    ensures OccursAt(s, pat, i + j) && i + j < k
  {
    var x, y := c[j..j + |pat|], s[i + j..i + j + |pat|];
    forall t | 0 <= t < |pat| ensures x[t] == y[t] {
      assert c[j + t] == s[i + j + t];
    }
    assert x == y;
  }

  /** The category never contains the separator, so splitting it again gives it back. */
  lemma CategoryHasNoSeparator(workLabel: string)
    ensures forall j: nat :: !OccursAt(SplitWorkType(Some(workLabel)).category, SEPARATOR, j)
  {
    var found := Find(workLabel, SEPARATOR);
    if found.Some? {
      var k := found.value;
      var prefix := workLabel[..k];
      var i := StripStart(prefix);
      var c := Strip(prefix);
      assert c == workLabel[i..i + |c|];
      forall j: nat | OccursAt(c, SEPARATOR, j) ensures false {
        OccursInInfix(workLabel, SEPARATOR, k, i, c, j);
      }
    }
  }

  // ---------------------------------------------------------------- certifications

  /** A certification cell counts iff it is present and its upper-cased text is one of
      the truthy spellings. */
  predicate IsTruthy(cell: Option<string>) {
    cell.Some? && Upper(cell.value) in TRUTHY
  }

  /** The mark written for a certification cell. */
  function CertMark(cell: Option<string>): (m: string)
    ensures m == CERTIFIED || m == ""
    ensures m == CERTIFIED <==> IsTruthy(cell)
  {
    if IsTruthy(cell) then CERTIFIED else ""
  }

  lemma UpperCharIdempotent(c: char)
    ensures UpperChar(UpperChar(c)) == UpperChar(c)
  {
  }

  /** Every truthy spelling is already upper case. */
  lemma TruthyUpper(t: string)
    requires t in TRUTHY
    ensures Upper(t) == t
  {
  }

  /** The truthy test is case-insensitive matching against the spellings: a present cell
      is truthy exactly when it equals one of them up to the case of ASCII letters. */
  lemma TruthyIffSpelling(s: string)
    ensures IsTruthy(Some(s)) <==> exists t :: t in TRUTHY && EqualIgnoringCase(s, t)
  {
    if IsTruthy(Some(s)) {
      var t := Upper(s);
      forall i | 0 <= i < |s| ensures UpperChar(s[i]) == UpperChar(t[i]) {
        UpperCharIdempotent(s[i]);
      }
      assert EqualIgnoringCase(s, t);
    }
    if exists t :: t in TRUTHY && EqualIgnoringCase(s, t) {
      var t :| t in TRUTHY && EqualIgnoringCase(s, t);
      UpperIgnoresCase(s, t);
      TruthyUpper(t);
    }
  }

  /** `main`'s certification loop: one mark per worker, the `i`-th read from column
      `3 + i` of the row, empty when that column is beyond the row. */
  method Certifications(workerCount: nat, row: EquipSheetRow) returns (certs: seq<WorkerCell>)
    ensures certs == CertCells(workerCount, row)
  {
    certs := [];
    var i := 0;
    while i < workerCount
      invariant 0 <= i <= workerCount
      invariant |certs| == i
      invariant forall m :: 0 <= m < i ==> certs[m] == Mark(CertMark(CellAt(row, FIRST_WORKER_COLUMN + m)))
    {
      var colIdx := FIRST_WORKER_COLUMN + i;
      var val := if colIdx < RowLength(row) then row.marks[colIdx - FIRST_WORKER_COLUMN] else None;
      if val.Some? && Upper(val.value) in TRUTHY {
        certs := certs + [Mark(CERTIFIED)];
      } else {
        certs := certs + [Mark("")];
      }
      i := i + 1;
    }
  }

  // ---------------------------------------------------------------- rows and table

  /** The certification cells of a row for `n` workers. */
  function CertCells(n: nat, row: EquipSheetRow): (cells: seq<WorkerCell>)
    ensures |cells| == n
    ensures forall i :: 0 <= i < n ==> cells[i] == Mark(CertMark(CellAt(row, FIRST_WORKER_COLUMN + i)))
  {
    seq(n, i requires 0 <= i < n => Mark(CertMark(CellAt(row, FIRST_WORKER_COLUMN + i))))
  }

  /** The output row of a sheet row, or `None` when its equipment code is missing or empty. */
  function EquipmentRowOf(row: EquipSheetRow, workers: seq<string>): (r: Option<EquipmentRow>)
    ensures r.None? <==> row.equipmentCode.None? || row.equipmentCode.value == ""
    ensures r.Some? ==>
      && r.value.equipmentCode == row.equipmentCode.value
      && r.value.stationCount == row.stationCount.GetOr(0)
      && r.value.hourlyCost == 0
      && r.value.workCategory == SplitWorkType(row.workTypeLabel).category
      && r.value.workType == SplitWorkType(row.workTypeLabel).workType
      && r.value.workerCells == CertCells(|workers|, row)
      && |r.value.workerCells| == |workers|
  {
    if row.equipmentCode.None? || row.equipmentCode.value == "" then None
    else
      var wt := SplitWorkType(row.workTypeLabel);
      Some(EquipmentRow(row.equipmentCode.value, wt.category, wt.workType,
                        row.stationCount.GetOr(0), 0, CertCells(|workers|, row)))
  }

  /** The output rows of the examined sheet rows, in sheet order. */
  function EquipmentRows(rows: seq<EquipSheetRow>, workers: seq<string>): seq<EquipmentRow> {
    if rows == [] then []
    else
      EquipmentRows(rows[..|rows| - 1], workers)
        + (match EquipmentRowOf(rows[|rows| - 1], workers) case None => [] case Some(e) => [e])
  }

  lemma EquipmentRowsExtend(sheet: seq<EquipSheetRow>, idx: nat, workers: seq<string>)
    requires 1 <= idx < |sheet|
    ensures EquipmentRows(sheet[1..idx + 1], workers) == EquipmentRows(sheet[1..idx], workers)
      + (match EquipmentRowOf(sheet[idx], workers) case None => [] case Some(e) => [e])
  {
    assert sheet[1..idx + 1][..idx - 1] == sheet[1..idx];
  }

  /** The number of rows among `rows` whose equipment code is present and non-empty. */
  function CodedCount(rows: seq<EquipSheetRow>): (n: nat)
    ensures n <= |rows|
  {
    if rows == [] then 0
    else
      var last := rows[|rows| - 1];
      CodedCount(rows[..|rows| - 1]) + (if last.equipmentCode.None? || last.equipmentCode.value == "" then 0 else 1)
  }

  /** Exactly the examined rows with a non-empty code contribute a row: one output row per
      such row, each output row from an examined row with one cell per worker, and every
      such row's output row present. */
  lemma EquipmentRowsShape(rows: seq<EquipSheetRow>, workers: seq<string>)
    ensures |EquipmentRows(rows, workers)| == CodedCount(rows)
    ensures forall e :: e in EquipmentRows(rows, workers) ==>
      |e.workerCells| == |workers| && exists r :: r in rows && EquipmentRowOf(r, workers) == Some(e)
    ensures forall r :: r in rows && EquipmentRowOf(r, workers).Some? ==>
      EquipmentRowOf(r, workers).value in EquipmentRows(rows, workers)
  {
    EquipmentRowsCount(rows, workers);
    EquipmentRowsProvenance(rows, workers);
    EquipmentRowsComplete(rows, workers);
  }

  lemma {:induction false} EquipmentRowsCount(rows: seq<EquipSheetRow>, workers: seq<string>)
    ensures |EquipmentRows(rows, workers)| == CodedCount(rows)
  {
    if rows != [] {
      EquipmentRowsCount(rows[..|rows| - 1], workers);
    }
  }

  lemma {:induction false} EquipmentRowsProvenance(rows: seq<EquipSheetRow>, workers: seq<string>)
    ensures forall e :: e in EquipmentRows(rows, workers) ==>
      |e.workerCells| == |workers| && exists r :: r in rows && EquipmentRowOf(r, workers) == Some(e)
  {
    if rows != [] {
      var init := rows[..|rows| - 1];
      EquipmentRowsProvenance(init, workers);
      assert forall r :: r in init ==> r in rows;
    }
  }

  lemma {:induction false} EquipmentRowsComplete(rows: seq<EquipSheetRow>, workers: seq<string>)
    ensures forall r :: r in rows && EquipmentRowOf(r, workers).Some? ==>
      EquipmentRowOf(r, workers).value in EquipmentRows(rows, workers)
  {
    if rows != [] {
      var init := rows[..|rows| - 1];
      EquipmentRowsComplete(init, workers);
      assert rows == init + [rows[|rows| - 1]];
    }
  }

  /** Sheet order is kept: the output rows of two consecutive runs of sheet rows are those
      of the first run followed by those of the second. */
  lemma {:induction false} EquipmentRowsAppend(a: seq<EquipSheetRow>, b: seq<EquipSheetRow>, workers: seq<string>)
    ensures EquipmentRows(a + b, workers) == EquipmentRows(a, workers) + EquipmentRows(b, workers)
  {
    if b == [] {
      assert a + b == a;
    } else {
      EquipmentRowsAppend(a, b[..|b| - 1], workers);
      assert (a + b)[..|a + b| - 1] == a + b[..|b| - 1];
    }
  }

  /** The sentinel row: no certification data, cost 0 for every worker. */
  function CostRow(workers: seq<string>): (r: EquipmentRow)
    ensures r.equipmentCode == COST_CODE && |r.workerCells| == |workers|
    ensures forall i :: 0 <= i < |workers| ==> r.workerCells[i] == HourlyCost(0)
  {
    EquipmentRow(COST_CODE, "", COST_WORK_TYPE, 0, 0, seq(|workers|, _ => HourlyCost(0)))
  }

  /** The CSV written for a sheet with at least 30 rows. */
  function EquipmentTableOf(sheet: seq<EquipSheetRow>): EquipmentTable
    requires |sheet| >= LAST_ROW_EXCLUSIVE
  {
    var workers := Workers(HeaderCells(sheet[0]));
    EquipmentTable(FIXED_COLUMNS + workers, [CostRow(workers)] + EquipmentRows(sheet[1..LAST_ROW_EXCLUSIVE], workers))
  }

  /** The table's shape: the `_COST` row first, even when no equipment row survives; the
      surviving rows after it in sheet order; every row with one cell per worker column;
      the five fixed columns followed by the workers in header order. */
  lemma TableShape(sheet: seq<EquipSheetRow>)
    requires |sheet| >= LAST_ROW_EXCLUSIVE
    ensures var t := EquipmentTableOf(sheet);
      var workers := Workers(HeaderCells(sheet[0]));
      && t.columns[..|FIXED_COLUMNS|] == FIXED_COLUMNS
      && t.columns[|FIXED_COLUMNS|..] == workers
      && |workers| <= WORKER_COLUMN_END - FIRST_WORKER_COLUMN
      && |t.rows| == 1 + CodedCount(sheet[1..LAST_ROW_EXCLUSIVE])
      && 1 <= |t.rows| <= LAST_ROW_EXCLUSIVE
      && t.rows[0] == CostRow(workers)
      && t.rows[1..] == EquipmentRows(sheet[1..LAST_ROW_EXCLUSIVE], workers)
      && forall e :: e in t.rows ==> |FIXED_COLUMNS| + |e.workerCells| == |t.columns|
  {
    var workers := Workers(HeaderCells(sheet[0]));
    WorkersFromHeader(HeaderCells(sheet[0]));
    EquipmentRowsShape(sheet[1..LAST_ROW_EXCLUSIVE], workers);
  }

  /** The `_COST` row appears exactly once when no examined sheet row uses that code. */
  lemma CostRowUnique(sheet: seq<EquipSheetRow>)
    requires |sheet| >= LAST_ROW_EXCLUSIVE
    requires forall j :: 1 <= j < LAST_ROW_EXCLUSIVE ==> sheet[j].equipmentCode != Some(COST_CODE)
    ensures var t := EquipmentTableOf(sheet);
      t.rows[0].equipmentCode == COST_CODE
      && forall i :: 1 <= i < |t.rows| ==> t.rows[i].equipmentCode != COST_CODE
  {
    var workers := Workers(HeaderCells(sheet[0]));
    var rows := sheet[1..LAST_ROW_EXCLUSIVE];
    EquipmentRowsShape(rows, workers);
    var t := EquipmentTableOf(sheet);
    forall i | 1 <= i < |t.rows| ensures t.rows[i].equipmentCode != COST_CODE {
      var e := t.rows[i];
      assert e in EquipmentRows(rows, workers);
      var r :| r in rows && EquipmentRowOf(r, workers) == Some(e);
      var j :| 0 <= j < |rows| && rows[j] == r;
      assert sheet[j + 1] == r;
    }
  }

  /** The CSV cells of an output row: the five fixed columns, then one per worker. */
  function Cells(row: EquipmentRow): (r: seq<Value>)
    ensures |r| == |FIXED_COLUMNS| + |row.workerCells|
  {
    [Text(row.equipmentCode), Text(row.workCategory), Text(row.workType),
     Number(row.stationCount), Number(row.hourlyCost)]
      + seq(|row.workerCells|, i requires 0 <= i < |row.workerCells| =>
          match row.workerCells[i] case Mark(f) => Text(f) case HourlyCost(n) => Number(n))
  }

  /** `main`: workers from the header, rows 1..29 with non-empty codes, the `_COST` row
      in front. A sheet with fewer than 30 rows stops at the first missing row index. */
  method ConvertEquipment(sheet: seq<EquipSheetRow>) returns (r: Result<EquipmentTable, SheetError>)
    ensures |sheet| < LAST_ROW_EXCLUSIVE ==> r == Failure(RowMissing(|sheet|))
    ensures |sheet| >= LAST_ROW_EXCLUSIVE ==> r == Success(EquipmentTableOf(sheet))
  {
    if |sheet| < LAST_ROW_EXCLUSIVE {
      return Failure(RowMissing(|sheet|));
    }
    var workers := ExtractWorkers(sheet[0]);
    var equipmentRows: seq<EquipmentRow> := [];
    var idx := 1;
    while idx < LAST_ROW_EXCLUSIVE
      invariant 1 <= idx <= LAST_ROW_EXCLUSIVE
      invariant equipmentRows == EquipmentRows(sheet[1..idx], workers)
    {
      var row := sheet[idx];
      EquipmentRowsExtend(sheet, idx, workers);
      if row.equipmentCode.None? || row.equipmentCode.value == "" {
        idx := idx + 1;
        continue;
      }
      var workType := SplitWorkType(row.workTypeLabel);
      var certs := Certifications(|workers|, row);
      var equipmentRow := EquipmentRow(row.equipmentCode.value, workType.category,
        workType.workType, row.stationCount.GetOr(0), 0, certs);
      assert EquipmentRowOf(row, workers) == Some(equipmentRow);
      equipmentRows := equipmentRows + [equipmentRow];
      idx := idx + 1;
    }
    var costRow := CostRow(workers);
    var columns := FIXED_COLUMNS + workers;
    return Success(EquipmentTable(columns, [costRow] + equipmentRows));
  }
}
