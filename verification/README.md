# Tenjam data preparation and import, modelled in Dafny

This project models the scripts that turn the Tenjam production workbook into the
sample-data CSV files and then load those files into the scheduling server:

- **Step/dependency normaliser** (`convert_products.py`). Each step row of the
  "Work Steps" sheet is emitted once per product: "Tenjam Blue", then "Tenjam White".
  The "depends on" cell and the relation-type cell are encoded as
  `code:type,code:type`.
- **Equipment-matrix normaliser** (`convert_equipment.py`). Worker names come from the
  header row, cleaned of temporary-worker prefixes. Each equipment row gets a work
  category split off its label and one certification mark per worker. A `_COST`
  sentinel row goes in front.
- **Production-history normaliser** (`convert_production_history.py`). Baseline rows
  are dropped and incomplete rows skipped. Worker and product names are canonicalised
  and times are cut to `HH:MM`.
- **Import sequencer** (`import_tenjam_data.py`). Each CSV goes through preview and
  confirm. The four imports run in dependency order and stop at the first failure.

A sheet is a sequence of typed rows whose cells are `Option` values; `None` is a
missing cell. A CSV is a sequence of output records plus a `Cells` function giving
each record's column values. Each `main` loop is a Dafny `method` with its loop
invariants, proved equal to a specification function over the rows. Properties of the
output are lemmas about those functions.

An out-of-range `df.iloc[idx]` stops the Python script before anything is written. The
model returns it as `Failure(RowMissing(idx))`.

Files:

| file | module | content |
|---|---|---|
| `wrappers.dfy` | `Wrappers`, `Sheets` | `Option`, `Result`; the sheet error and CSV cell values |
| `text.dfy` | `Text` | `strip`, `split`, `join`, `upper`/`lower`, substring search |
| `products.dfy` | `Products` | `convert_products.py` |
| `equipment.dfy` | `Equipment` | `convert_equipment.py` |
| `history.dfy` | `History` | `convert_production_history.py` |
| `importer.dfy` | `Importer` | `import_tenjam_data.py` |

## Model

| member | source | states |
|---|---|---|
| Text.Strip | convert_products.py:25 | `strip()` returns an infix of the input that neither starts nor ends with whitespace (Python's `isspace` set) |
| Text.StripRemovesOnlySpace | convert_products.py:25 | everything `strip()` removes, at either end, is whitespace |
| Text.StripIdempotent | convert_products.py:25 | stripping twice equals stripping once |
| Text.Split | convert_products.py:25 | `split(",")` yields at least one piece, and no piece contains the separator |
| Text.JoinSplit | convert_products.py:25-28 | joining the pieces of a split with the same separator gives back the input |
| Text.SplitJoin | convert_products.py:28 | splitting a join of non-empty list of separator-free pieces gives back the pieces |
| Text.UpperIgnoresCase | convert_equipment.py:66 | `upper()` maps strings that differ only in ASCII letter case to the same string |
| Text.Find | convert_equipment.py:53-54 | the result is the first occurrence of the pattern, and it is `None` exactly when the pattern does not occur (`" - " in s`) |
| Products.TypeSuffix | convert_products.py:26 | a missing or empty type gives no suffix; otherwise the suffix is `:` followed by the lower-cased type |
| Products.DependencyItems | convert_products.py:25-28 | one item per piece, in order, each the stripped piece followed by the suffix |
| Products.TransformDependencies | convert_products.py:22-23 | a missing or empty dependency cell gives `""`, whatever the type cell holds |
| Products.TransformTwoPieces | convert_products.py:25-28 | two comma-separated pieces encode as `strip(a)+suffix,strip(b)+suffix` |
| Products.TransformExample | convert_products.py:19-20 | `"CFA1, CTA1"` with type `"FINISH"` encodes as `"CFA1:finish,CTA1:finish"` |
| Products.TransformDecodes | convert_products.py:25-28 | splitting the encoding on commas gives exactly one item per input piece, in order, empty pieces kept, each the stripped piece plus the shared suffix (none when the type is missing or empty) |
| Products.StepOf | convert_products.py:55-73 | a row is skipped iff its step code is missing; a missing external id and missing text cells become empty, a missing time becomes 0; the dependencies are the row's encoding |
| Products.StepsAppend | convert_products.py:41-56 | the steps keep sheet order: steps of consecutive row ranges concatenate |
| Products.StepsSkipOnlyMissingCodes | convert_products.py:41-56 | the number of steps is the number of examined rows with a step code; every step comes from an examined row, and every examined row with a code contributes its step |
| Products.StepsCount | convert_products.py:55-61 | exactly one step per row with a step code, duplicates included |
| Products.Block | convert_products.py:61-73 | a product's block has one row per step, in step order, each carrying that product |
| Products.BlocksLength | convert_products.py:39-74 | the output has `number of products × number of steps` rows |
| Products.BlocksLayout | convert_products.py:39-74 | product-major order: row `i·n + k` is step `k` with product `i` |
| Products.ProductTableLength | convert_products.py:39-74 | the output has `number of products × number of examined rows with a step code` rows |
| Products.ProductTableShape | convert_products.py:11-14 | the table is the "Tenjam Blue" block followed by the "Tenjam White" block over the same steps from rows 1..31 |
| Products.Cells | convert_products.py:77-81 | every output row has one value per column of the twelve-column header |
| Products.ProductPass | convert_products.py:41-74 | the inner loop over rows 1..31 builds exactly the product's block of the examined steps |
| Products.ConvertProducts | convert_products.py:37-74 | a sheet with at least 32 rows gives the product table; a shorter one fails at the first missing row index |
| Equipment.CleanIdempotent | convert_equipment.py:11-14 | unmapped names pass unchanged, and cleaning a cleaned name changes nothing |
| Equipment.HeaderCells | convert_equipment.py:24 | only header columns 3..15 are read: min(13, cells after column 2) cells, cell `j` being column `3+j` |
| Equipment.CellAt | convert_equipment.py:65 | a column within the row reads as that column's cell; a column beyond the row's length reads as missing |
| Equipment.WorkersFromHeader | convert_equipment.py:24-32 | at most one worker per header cell; every worker is the cleaned name of a present cell, and every present cell's cleaned name is a worker |
| Equipment.WorkersAppend | convert_equipment.py:27-32 | header order is kept: workers of consecutive header ranges concatenate |
| Equipment.WorkersWithoutGaps | convert_equipment.py:24-32 | with no missing header name, worker `i` is the cleaned name in column `3+i` |
| Equipment.GapShiftsCertifications | convert_equipment.py:63-65 | with a missing name in column 4, the worker named in column 5 gets the empty mark of column 4, although column 5 marks a certification |
| Equipment.ExtractWorkers | convert_equipment.py:27-32 | the header loop builds the worker list of columns 3..15, at most 13 names |
| Equipment.SplitWorkType | convert_equipment.py:50-59 | a missing label gives `("", "")`; the work type is always the full label; the category is the stripped text before the first `" - "`, or the label itself when it has none |
| Equipment.CategoryHasNoSeparator | convert_equipment.py:53-55 | the category never contains `" - "` |
| Equipment.CertMark | convert_equipment.py:66-69 | the mark is `"Y"` iff the cell is truthy, `""` otherwise |
| Equipment.TruthyIffSpelling | convert_equipment.py:66 | a present cell is truthy iff it equals one of `Y`, `YES`, `1`, `TRUE`, `X` up to ASCII letter case |
| Equipment.Certifications | convert_equipment.py:62-69 | the loop builds exactly `CertCells`: one mark per worker, worker `i`'s mark read from column `3+i`, empty beyond the row |
| Equipment.EquipmentRowOf | convert_equipment.py:45-78 | a row is skipped iff its code is missing or `""`; category and work type come from the label split; the worker cells are the certification marks of columns `3+i`; station count defaults to 0, hourly cost is 0 |
| Equipment.CertCells | convert_equipment.py:62-69 | one cell per worker, cell `i` the mark of column `3+i` |
| Equipment.EquipmentRowsShape | convert_equipment.py:38-78 | one output row per examined row with a non-empty code; each output row comes from an examined row and has one cell per worker; every examined row with a non-empty code contributes its row |
| Equipment.EquipmentRowsAppend | convert_equipment.py:38-78 | sheet order is kept: output rows of consecutive runs of sheet rows concatenate |
| Equipment.CostRow | convert_equipment.py:81-88 | the sentinel row has code `_COST` and cost 0 for every worker |
| Equipment.TableShape | convert_equipment.py:81-92 | columns are the five fixed names then the workers in header order; the `_COST` row is first even with no equipment rows; the equipment rows follow in sheet order, one per examined row with a non-empty code; every row fills every column |
| Equipment.CostRowUnique | convert_equipment.py:81-92 | when no examined row uses the code `_COST`, the sentinel is the only row with it |
| Equipment.Cells | convert_equipment.py:91-92 | every output row has one value per column |
| Equipment.ConvertEquipment | convert_equipment.py:21-92 | a sheet with at least 30 rows gives the table above; a shorter one fails at the first missing row index |
| History.FixWorkerNameCanonical | convert_production_history.py:11-15 | unmapped names pass unchanged; fixed names are never typos, so the fix is idempotent |
| History.NormalizeProductCanonical | convert_production_history.py:18-21 | unmapped products pass unchanged; normalised names are never keys, so normalising is idempotent |
| History.FormatTime | convert_production_history.py:23-31 | a missing time gives `""`; otherwise the result is a prefix of the text of length min(5, length) |
| History.FormatTimeIdempotent | convert_production_history.py:27-29 | formatting a formatted time changes nothing |
| History.FormatTimeUniform | convert_production_history.py:27-31 | a text and a time value with the same rendering are cut alike |
| History.KeepIf | convert_production_history.py:38-41 | a filter keeps exactly the accepted rows of the input: every kept row is an accepted input row, and every accepted input row is kept |
| History.KeepIfAppend | convert_production_history.py:38-41 | filtering keeps relative order: the filtered rows of consecutive runs concatenate |
| History.KeepIfTwice | convert_production_history.py:38-41 | filtering by one test, then another, equals filtering once by both |
| History.DropBaselineKeepsNonBaseline | convert_production_history.py:38-41 | the two baseline filters keep exactly the rows from neither the baseline worker nor the baseline product |
| History.NormalizeRow | convert_production_history.py:56-84 | a row is converted iff task id, name and date are present; due date `2026-01-16`, version `v1.0`, names fixed, start and end time are `format_time` of the two time cells (at most 5 long), units default 0 |
| History.HistoryCount | convert_production_history.py:46-69 | exactly one output row per complete input row |
| History.HistoryAppend | convert_production_history.py:46-84 | relative order is kept: outputs of consecutive row runs concatenate |
| History.HistoryProvenance | convert_production_history.py:46-84 | every output row is the conversion of an input row |
| History.NormalizedRowNotBaseline | convert_production_history.py:60-63 | renaming a non-baseline row never produces a baseline name, and the names it produces are canonical |
| History.NoBaselineInTable | convert_production_history.py:38-63 | no output row has the baseline worker or product, because filtering happens before renaming; all output names are canonical |
| History.Cells | convert_production_history.py:87-90 | every output row has one value per column of the nine-column header |
| History.ConvertHistory | convert_production_history.py:38-84 | the loop builds exactly the conversion of the filtered rows, one row per complete filtered row |
| Importer.ImportCsv | import_tenjam_data.py:48-96 | a confirm is sent, with the preview's token, iff the preview status is 200, its body is an object, there are no errors, the printed warnings and the `preview` field are objects, and the token is non-empty. The import succeeds iff additionally the confirm status is 200 and its body is JSON. It raises, ending the script, iff a body or a printed entry that `.get` or `.json()` reads is malformed |
| Importer.EarlyStopsSendNoConfirm | import_tenjam_data.py:48-82 | a preview that does not pass fails the import with no confirm sent, whatever the confirm endpoint would answer |
| Importer.WarningsNeverBlock | import_tenjam_data.py:57-70 | warnings whose printed entries are objects change nothing: the import goes as with no warnings |
| Importer.OddWarningAborts | import_tenjam_data.py:67-70 | a non-object among the first three warnings aborts a clean preview before the token check, so no confirm is sent |
| Importer.UnshownWarningsIgnored | import_tenjam_data.py:67-70 | warnings after the first three are never read and cannot change the result |
| Importer.Outcomes | import_tenjam_data.py:106-116 | import `i` in the fixed order succeeds iff its preview passes and its confirm status is 200 with a JSON body |
| Importer.LeadingSuccesses | import_tenjam_data.py:113-119 | the count covers only successes, and it stops at the first failure |
| Importer.LeadingSuccessesUnique | import_tenjam_data.py:113-119 | any all-success prefix that ends at a failure or at the end is the counted one |
| Importer.RunImports | import_tenjam_data.py:98-129 | imports run in the order equipment-matrix, products, orders, production-history. The success count is the longest all-success prefix, and nothing is attempted after the first failure. Exit code is 0 iff every import succeeded, and 1 if the server was never ready. `aborted` holds iff the import that stopped the run raised |
| Importer.ThirdFailureStopsAtTwo | import_tenjam_data.py:113-119 | when the third import fails after two successes, the count is 2 and only three imports are attempted |

## Left out

- File and display I/O: reading the workbook, writing CSV files, and all printing. The model works on rows in memory. A CSV row's column values are given by `Cells`.
- Sheet rows are typed records. Where pandas gives every row the frame's width, the equipment rows carry their own number of worker columns.
- HTTP and polling: the `requests` calls and JSON decoding are out of the model. Each preview and confirm response is an input value. `wait_for_server`'s 30 polls become the `serverReady` input of `Importer.RunImports`.
- Importer.ImportCsv, Importer.WarningsNeverBlock: the text of failed responses, the error and warning messages and the summary are printed only, so they are not modelled. What the model keeps of each body is whether `import_csv` can read it: whether the preview body is a JSON object, whether each error and warning entry is, whether the `preview` field is (absent counts as the object `{}`), and whether the confirm body is JSON. A malformed body or printed entry makes lines 53, 56-57, 62, 70, 74 or 94 raise, which ends the script with exit status 1.
- Importer.ImportCsv: the `errors` and `warnings` fields are taken to be lists, absent or null. A non-empty string or an object there would be sliced and read differently at lines 61 and 69, which is not modelled. The token's truthiness is modelled for strings only.
- Date handling: `pd.to_datetime(...).strftime` is out of the model. A date cell is present or missing and carries its already formatted `YYYY-MM-DD` text. A value that fails to parse is not modelled.
- History.FormatTime: a non-string time value is modelled by its rendered text, which stands in for `str(time_val)`. The library's rendering is not modelled.
- Numeric coercion: `int(...)` on spreadsheet floats and `pd.isna` on non-text cells are out of the model. Numeric cells are `Option<int>`, text cells `Option<string>`, and a step code or task id is text.
- Text.Upper: case mapping covers ASCII letters only. Python's full Unicode case mapping is not modelled. `strip()` does use Python's whitespace set.
- Products.TransformDecodes: requires the type suffix to contain no comma. A type cell containing a comma would add extra pieces when the output is split again.
- Equipment: a worker's cleaned name is used as a dictionary key in the output row, so it can collide with another worker's name or with a fixed column name such as `station_count`, and the later value then overwrites that field. This is not modelled: every worker gets its own cell and the fixed columns keep their values.
- `convert_orders.py` is not part of this model: it writes a constant list of two orders.
- Server-side behaviour is not part of this model: the preview/confirm session store, token expiry, and validation of the imported data. The client sees only the response outcomes.
