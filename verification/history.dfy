/** The "Production Data" sheet normaliser: baseline rows dropped, incomplete rows
    skipped, names canonicalised and times cut to `HH:MM`. */
module History {
  import opened Wrappers
  import opened Sheets

  /** Worker-name typos in the production log, mapped to the equipment matrix's spelling. */
  const WORKER_NAME_FIXES: map<string, string> := map[
    "Cindy" := "Cyndi",
    "Maricela" := "Maricella",
    "Fransico" := "Fransisco"
  ]

  /** Product names with a dash, mapped to the names the product table uses. */
  const PRODUCT_NAME_MAP: map<string, string> := map[
    "Tenjam - Blue" := "Tenjam Blue",
    "Tenjam - White" := "Tenjam White"
  ]

  /** Rows of this worker and of this product are development baseline data. */
  const BASELINE_WORKER: string := "00-Prod Dev"
  const BASELINE_PRODUCT: string := "Tenjam"

  /** Both orders are due on this date; every row belongs to this version. */
  const DUE_DATE: string := "2026-01-16"
  const VERSION_NAME: string := "v1.0"
  /** The `HH:MM` prefix length. */
  const TIME_LENGTH: nat := 5

  const HISTORY_COLUMNS: seq<string> := ["product_name", "due_date", "version_name", "step_code",
    "worker_name", "work_date", "start_time", "end_time", "units_produced"]

  /** A time cell: text as typed, or a time value as `str` renders it. */
  datatype TimeCell = TimeText(text: string) | TimeValue(rendered: string)

  /** One row of the sheet, by column name. `date` is the cell's date already rendered as
      `YYYY-MM-DD`; missing cells are `None`. */
  datatype HistorySheetRow = HistorySheetRow(
    product: Option<string>,
    date: Option<string>,
    name: Option<string>,
    taskId: Option<string>,
    startTime: Option<TimeCell>,
    finishTime: Option<TimeCell>,
    completedUnits: Option<int>)

  /** One row of the CSV written; a missing product stays missing (an empty cell). */
  datatype HistoryRow = HistoryRow(
    productName: Option<string>,
    dueDate: string,
    versionName: string,
    stepCode: string,
    workerName: string,
    workDate: string,
    startTime: string,
    endTime: string,
    unitsProduced: int)

  // ---------------------------------------------------------------- names and times

  /** `WORKER_NAME_FIXES.get(name, name)`. */
  function FixWorkerName(name: string): string {
    if name in WORKER_NAME_FIXES then WORKER_NAME_FIXES[name] else name
  }

  /** `PRODUCT_NAME_MAP.get(product, product)`; a missing product stays missing. */
  function NormalizeProduct(product: Option<string>): Option<string> {
    match product
    case None => None
    case Some(p) => Some(if p in PRODUCT_NAME_MAP then PRODUCT_NAME_MAP[p] else p)
  }

  /** Unmapped names pass unchanged; fixed names are canonical (no fixed name is itself a
      typo), so fixing is idempotent. */
  lemma FixWorkerNameCanonical(name: string)
    ensures name !in WORKER_NAME_FIXES ==> FixWorkerName(name) == name
    ensures FixWorkerName(name) !in WORKER_NAME_FIXES
    ensures FixWorkerName(FixWorkerName(name)) == FixWorkerName(name)
  {
    assert forall k :: k in WORKER_NAME_FIXES ==> WORKER_NAME_FIXES[k] !in WORKER_NAME_FIXES;
  }

  /** Unmapped products pass unchanged; normalised product names are canonical, so
      normalising is idempotent. */
  lemma NormalizeProductCanonical(product: Option<string>)
    ensures product.Some? && product.value !in PRODUCT_NAME_MAP ==> NormalizeProduct(product) == product
    ensures NormalizeProduct(product).Some? ==> NormalizeProduct(product).value !in PRODUCT_NAME_MAP
    ensures NormalizeProduct(NormalizeProduct(product)) == NormalizeProduct(product)
  {
    assert forall k :: k in PRODUCT_NAME_MAP ==> PRODUCT_NAME_MAP[k] !in PRODUCT_NAME_MAP;
  }

  /** `format_time`: the first five characters of the text, all of it when shorter;
      empty for a missing cell. */
  function FormatTime(cell: Option<TimeCell>): (r: string)
    ensures cell.None? ==> r == ""
    ensures cell.Some? && cell.value.TimeText? ==>
      && r <= cell.value.text
      && |r| == if |cell.value.text| < TIME_LENGTH then |cell.value.text| else TIME_LENGTH
    ensures cell.Some? && cell.value.TimeValue? ==>
      && r <= cell.value.rendered
      && |r| == if |cell.value.rendered| < TIME_LENGTH then |cell.value.rendered| else TIME_LENGTH
  {
    match cell
    case None => ""
    case Some(TimeText(s)) => if |s| >= TIME_LENGTH then s[..TIME_LENGTH] else s
    case Some(TimeValue(s)) => if |s| <= TIME_LENGTH then s else s[..TIME_LENGTH]
  }

  /** Formatting a formatted time changes nothing. */
  lemma FormatTimeIdempotent(cell: Option<TimeCell>)
    ensures FormatTime(Some(TimeText(FormatTime(cell)))) == FormatTime(cell)
  {
  }

  /** Text and time values are cut alike. */
  lemma FormatTimeUniform(s: string)
    ensures FormatTime(Some(TimeText(s))) == FormatTime(Some(TimeValue(s)))
  {
  }

  // ---------------------------------------------------------------- baseline filter

  /** The rows of `rows` that `keep` accepts, in order. */
  function KeepIf(rows: seq<HistorySheetRow>, keep: HistorySheetRow -> bool): (r: seq<HistorySheetRow>)
    ensures |r| <= |rows|
    ensures forall x :: x in r ==> x in rows && keep(x)
    ensures forall x :: x in rows && keep(x) ==> x in r
  {
    if rows == [] then []
    else KeepIf(rows[..|rows| - 1], keep) + (if keep(rows[|rows| - 1]) then [rows[|rows| - 1]] else [])
  }

  lemma KeepIfSnoc(rows: seq<HistorySheetRow>, x: HistorySheetRow, keep: HistorySheetRow -> bool)
    ensures KeepIf(rows + [x], keep) == KeepIf(rows, keep) + (if keep(x) then [x] else [])
  {
    assert (rows + [x])[..|rows|] == rows;
  }

  /** Filtering keeps relative order: the filtered rows of two consecutive runs are those
      of the first run followed by those of the second. */
  lemma {:induction false} KeepIfAppend(a: seq<HistorySheetRow>, b: seq<HistorySheetRow>, keep: HistorySheetRow -> bool)
    ensures KeepIf(a + b, keep) == KeepIf(a, keep) + KeepIf(b, keep)
  {
    if b == [] {
      assert a + b == a;
    } else {
      var init, last := b[..|b| - 1], b[|b| - 1];
      var tail := if keep(last) then [last] else [];
      KeepIfAppend(a, init, keep);
      assert (a + b)[..|a + b| - 1] == a + init;
      assert (a + b)[|a + b| - 1] == last;
      assert KeepIf(a + b, keep) == KeepIf(a + init, keep) + tail;
      assert KeepIf(b, keep) == KeepIf(init, keep) + tail;
      assert KeepIf(a, keep) + KeepIf(init, keep) + tail == KeepIf(a, keep) + (KeepIf(init, keep) + tail);
    }
  }

  /** `df[df["Name"] != "00-Prod Dev"]`: a missing name is kept. */
  predicate NotBaselineWorker(row: HistorySheetRow) {
    row.name != Some(BASELINE_WORKER)
  }

  /** `df[df["Product"] != "Tenjam"]`: a missing product is kept. */
  predicate NotBaselineProduct(row: HistorySheetRow) {
    row.product != Some(BASELINE_PRODUCT)
  }

  predicate NotBaseline(row: HistorySheetRow) {
    NotBaselineWorker(row) && NotBaselineProduct(row)
  }

  /** The two filters, applied one after the other. */
  function DropBaseline(rows: seq<HistorySheetRow>): seq<HistorySheetRow> {
    KeepIf(KeepIf(rows, NotBaselineWorker), NotBaselineProduct)
  }

  /** Filtering by `p` and then by `q` is filtering once by a test `pq` that is both. */
  lemma {:induction false} KeepIfTwice(rows: seq<HistorySheetRow>, p: HistorySheetRow -> bool, q: HistorySheetRow -> bool,
                                       pq: HistorySheetRow -> bool)
    requires forall x :: pq(x) == (p(x) && q(x))
    ensures KeepIf(KeepIf(rows, p), q) == KeepIf(rows, pq)
  {
    if rows != [] {
      var init, last := rows[..|rows| - 1], rows[|rows| - 1];
      KeepIfTwice(init, p, q, pq);
      var a := KeepIf(init, p);
      assert KeepIf(rows, p) == a + (if p(last) then [last] else []);
      assert KeepIf(rows, pq) == KeepIf(init, pq) + (if pq(last) then [last] else []);
      if p(last) {
        KeepIfSnoc(a, last, q);
      } else {
        assert a + [] == a;
      }
    }
  }

  /** The two filters keep exactly the rows that are from neither baseline. */
  lemma DropBaselineKeepsNonBaseline(rows: seq<HistorySheetRow>)
    ensures DropBaseline(rows) == KeepIf(rows, NotBaseline)
  {
    KeepIfTwice(rows, NotBaselineWorker, NotBaselineProduct, NotBaseline);
  }

  // ---------------------------------------------------------------- rows

  /** A row is converted only when it has a task ID, a worker name and a date. */
  predicate IsComplete(row: HistorySheetRow) {
    row.taskId.Some? && row.name.Some? && row.date.Some?
  }

  /** The CSV row of a sheet row, or `None` when it is incomplete. */
  function NormalizeRow(row: HistorySheetRow): (r: Option<HistoryRow>)
    ensures r.Some? <==> IsComplete(row)
    ensures r.Some? ==>
      && r.value.productName == NormalizeProduct(row.product)
      && r.value.dueDate == DUE_DATE
      && r.value.versionName == VERSION_NAME
      && r.value.stepCode == row.taskId.value
      && r.value.workerName == FixWorkerName(row.name.value)
      && r.value.workDate == row.date.value
      && r.value.startTime == FormatTime(row.startTime)
      && r.value.endTime == FormatTime(row.finishTime)
      && |r.value.startTime| <= TIME_LENGTH
      && |r.value.endTime| <= TIME_LENGTH
      && r.value.unitsProduced == row.completedUnits.GetOr(0)
  {
    if row.taskId.None? || row.name.None? then None
    else if row.date.None? then None
    else
      Some(HistoryRow(NormalizeProduct(row.product), DUE_DATE, VERSION_NAME, row.taskId.value,
        FixWorkerName(row.name.value), row.date.value,
        FormatTime(row.startTime), FormatTime(row.finishTime), row.completedUnits.GetOr(0)))
  }

  /** The CSV rows of a sequence of sheet rows, in order. */
  function HistoryOf(rows: seq<HistorySheetRow>): seq<HistoryRow> {
    if rows == [] then []
    else HistoryOf(rows[..|rows| - 1]) + (match NormalizeRow(rows[|rows| - 1]) case None => [] case Some(h) => [h])
  }

  /** The number of complete rows among `rows`. */
  function CompleteCount(rows: seq<HistorySheetRow>): (n: nat)
    ensures n <= |rows|
  {
    if rows == [] then 0
    else CompleteCount(rows[..|rows| - 1]) + (if IsComplete(rows[|rows| - 1]) then 1 else 0)
  }

  lemma HistorySnoc(rows: seq<HistorySheetRow>, row: HistorySheetRow)
    ensures HistoryOf(rows + [row]) == HistoryOf(rows) + (match NormalizeRow(row) case None => [] case Some(h) => [h])
  {
    assert (rows + [row])[..|rows|] == rows;
  }

  /** Exactly one CSV row per complete sheet row. */
  lemma {:induction false} HistoryCount(rows: seq<HistorySheetRow>)
    ensures |HistoryOf(rows)| == CompleteCount(rows)
  {
    if rows != [] {
      HistoryCount(rows[..|rows| - 1]);
    }
  }

  /** Sheet order is kept: converting two consecutive runs of rows gives the first run's
      rows followed by the second's. */
  lemma {:induction false} HistoryAppend(a: seq<HistorySheetRow>, b: seq<HistorySheetRow>)
    ensures HistoryOf(a + b) == HistoryOf(a) + HistoryOf(b)
  {
    if b == [] {
      assert a + b == a;
    } else {
      var init, last := b[..|b| - 1], b[|b| - 1];
      var tail := match NormalizeRow(last) case None => [] case Some(h) => [h];
      HistoryAppend(a, init);
      assert (a + b)[..|a + b| - 1] == a + init;
      assert (a + b)[|a + b| - 1] == last;
      assert HistoryOf(a + b) == HistoryOf(a + init) + tail;
      assert HistoryOf(b) == HistoryOf(init) + tail;
      assert HistoryOf(a) + HistoryOf(init) + tail == HistoryOf(a) + (HistoryOf(init) + tail);
    }
  }

  /** Every CSV row is the conversion of one of the rows. */
  lemma {:induction false} HistoryProvenance(rows: seq<HistorySheetRow>)
    ensures forall h :: h in HistoryOf(rows) ==> exists x :: x in rows && NormalizeRow(x) == Some(h)
  {
    if rows != [] {
      var init := rows[..|rows| - 1];
      HistoryProvenance(init);
      assert forall x :: x in init ==> x in rows;
    }
  }

  /** The CSV written for the sheet. */
  function HistoryTable(sheet: seq<HistorySheetRow>): seq<HistoryRow> {
    HistoryOf(DropBaseline(sheet))
  }

  /** Neither name fix nor product normalisation produces a baseline name, and both
      produce canonical names. */
  lemma NormalizedRowNotBaseline(x: HistorySheetRow, h: HistoryRow)
    requires NotBaseline(x) && NormalizeRow(x) == Some(h)
    ensures h.workerName != BASELINE_WORKER && h.productName != Some(BASELINE_PRODUCT)
    ensures h.workerName !in WORKER_NAME_FIXES
    ensures h.productName.Some? ==> h.productName.value !in PRODUCT_NAME_MAP
  {
    FixWorkerNameCanonical(x.name.value);
    NormalizeProductCanonical(x.product);
  }

  /** No CSV row belongs to the baseline worker or the baseline product, and every
      worker and product name in the table is canonical. */
  lemma NoBaselineInTable(sheet: seq<HistorySheetRow>)
    ensures forall h :: h in HistoryTable(sheet) ==>
      && h.workerName != BASELINE_WORKER
      && h.productName != Some(BASELINE_PRODUCT)
      && h.workerName !in WORKER_NAME_FIXES
      && (h.productName.Some? ==> h.productName.value !in PRODUCT_NAME_MAP)
  {
    var kept := DropBaseline(sheet);
    DropBaselineKeepsNonBaseline(sheet);
    HistoryProvenance(kept);
    forall h | h in HistoryTable(sheet)
      ensures h.workerName != BASELINE_WORKER && h.productName != Some(BASELINE_PRODUCT)
      ensures h.workerName !in WORKER_NAME_FIXES
      ensures h.productName.Some? ==> h.productName.value !in PRODUCT_NAME_MAP
    {
      var x :| x in kept && NormalizeRow(x) == Some(h);
      NormalizedRowNotBaseline(x, h);
    }
  }

  /** The CSV cells of a row, in column order. */
  function Cells(row: HistoryRow): (r: seq<Value>)
    ensures |r| == |HISTORY_COLUMNS|
  {
    [match row.productName case None => Blank case Some(p) => Text(p),
     Text(row.dueDate), Text(row.versionName), Text(row.stepCode), Text(row.workerName),
     Text(row.workDate), Text(row.startTime), Text(row.endTime), Number(row.unitsProduced)]
  }

  /** `main`: drop the baseline rows, then convert the remaining rows one by one,
      skipping incomplete ones. */
  method ConvertHistory(sheet: seq<HistorySheetRow>) returns (historyRows: seq<HistoryRow>)
    ensures historyRows == HistoryTable(sheet)
    ensures |historyRows| == CompleteCount(DropBaseline(sheet))
  {
    var df := DropBaseline(sheet);
    historyRows := [];
    var i := 0;
    while i < |df|
      invariant 0 <= i <= |df|
      invariant historyRows == HistoryOf(df[..i])
    {
      var row := df[i];
      assert df[..i + 1] == df[..i] + [row];
      HistorySnoc(df[..i], row);
      if row.taskId.None? || row.name.None? {
        i := i + 1;
        continue;
      }
      var productName := NormalizeProduct(row.product);
      var workerName := FixWorkerName(row.name.value);
      if row.date.None? {
        i := i + 1;
        continue;
      }
      var workDateStr := row.date.value;
      historyRows := historyRows + [HistoryRow(productName, DUE_DATE, VERSION_NAME, row.taskId.value,
        workerName, workDateStr, FormatTime(row.startTime), FormatTime(row.finishTime),
        row.completedUnits.GetOr(0))];
      i := i + 1;
    }
    assert df[..i] == df;
    HistoryCount(df);
  }
}
