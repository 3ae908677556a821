/** Optional values and results shared by the converters and the importer. */
module Wrappers {

  /** A spreadsheet cell or JSON field that may be missing (NaN / None). */
  datatype Option<+T> = None | Some(value: T) {

    /** The value, or `default` when missing. */
    function GetOr(default: T): T {
      match this
      case Some(v) => v
      case None => default
    }
  }

  /** The outcome of a whole conversion: the produced table or the error that stopped it. */
  datatype Result<+R, +E> = Success(value: R) | Failure(error: E)
}

/** What the converters share about the spreadsheet they read. */
module Sheets {

  /** A positional row lookup (`df.iloc[index]`) beyond the last row of the sheet:
      the script stops with an IndexError before anything is written. */
  datatype SheetError = RowMissing(index: nat)

  /** A value written into one CSV cell: text, an integer, or the empty cell. */
  datatype Value = Text(text: string) | Number(n: int) | Blank
}
